/**
 Pulling configuration from the control plane with ETags. What one kind of configuration comes to is a channel:
 the ETag remembered for its path and the list the gateway has installed. Requests are told apart by what they
 meet: an error, or the server's list at that moment, with a body that decodes or does not.
 */
module Pulling {
  import opened GoStrings

  type ETag = string

  datatype Attempt<T> = NetworkError | BadStatus | Served(content: seq<T>, intact: bool)

  datatype Reply<T> = Failed | Unchanged | Received(content: seq<T>)

  // The server hashes its payload; different lists are taken to have different ETags. No ETag is empty.
  ghost predicate Injective<T(!new)>(etagOf: seq<T> -> ETag) {
    forall a, b {:trigger etagOf(a), etagOf(b)} :: etagOf(a) == etagOf(b) ==> a == b
  }

  // One conditional GET. The ETag is remembered before the body is decoded.
  function Request<T>(tag: Option<ETag>, a: Attempt<T>, etagOf: seq<T> -> ETag): (Option<ETag>, Reply<T>) {
    match a
    case NetworkError => (tag, Failed)
    case BadStatus => (tag, Failed)
    case Served(content, intact) =>
      if tag == Some(etagOf(content)) then (tag, Unchanged)
      else (Some(etagOf(content)), if intact then Received(content) else Failed)
  }

  // Attempts until one does not fail. None are made when the breaker is open, fewer when the context ends.
  function Pull<T>(tag: Option<ETag>, attempts: seq<Attempt<T>>, etagOf: seq<T> -> ETag): (Option<ETag>, Reply<T>)
    decreases |attempts|
  {
    if attempts == [] then (tag, Failed)
    else
      var (next, reply) := Request(tag, attempts[0], etagOf);
      if reply.Failed? then Pull(next, attempts[1..], etagOf) else (next, reply)
  }

  // keepsOnEmpty: an empty list does not replace what is installed.
  datatype Channel<T> = Channel(tag: Option<ETag>, installed: seq<T>, keepsOnEmpty: bool) {
    function Install(reply: Reply<T>): seq<T> {
      if reply.Received? && (reply.content != [] || !keepsOnEmpty) then reply.content else installed
    }

    function After(attempts: seq<Attempt<T>>, etagOf: seq<T> -> ETag): Channel<T> {
      var (next, reply) := Pull(tag, attempts, etagOf);
      Channel(next, Install(reply), keepsOnEmpty)
    }

    function AfterAll(rounds: seq<seq<Attempt<T>>>, etagOf: seq<T> -> ETag): Channel<T> {
      if rounds == [] then this else AfterAll(rounds[..|rounds| - 1], etagOf).After(rounds[|rounds| - 1], etagOf)
    }

    predicate Installs(content: seq<T>) {
      content != [] || !keepsOnEmpty
    }
  }

  // The remembered ETag names the installed list.
  ghost predicate Agrees<T(!new)>(ch: Channel<T>, etagOf: seq<T> -> ETag) {
    forall c {:trigger etagOf(c)} :: ch.tag == Some(etagOf(c)) && ch.Installs(c) ==> ch.installed == c
  }

  predicate Intact<T>(a: Attempt<T>) {
    a.Served? ==> a.intact
  }

  lemma {:induction false} PullKeepsAgreement<T(!new)>(ch: Channel<T>, attempts: seq<Attempt<T>>,
                                                           etagOf: seq<T> -> ETag)
    requires Injective(etagOf) && Agrees(ch, etagOf)
    requires forall i {:trigger attempts[i]} :: 0 <= i < |attempts| ==> Intact(attempts[i])
    ensures Agrees(ch.After(attempts, etagOf), etagOf)
  {
    if attempts != [] {
      var (next, reply) := Request(ch.tag, attempts[0], etagOf);
      assert Intact(attempts[0]);
      if reply.Failed? {
        PullKeepsAgreement(ch, attempts[1..], etagOf);
      }
    }
  }

  /**
   In every run in which no body arrives broken, whatever the server served meanwhile and whichever attempts
   failed, the remembered ETag names the installed list.
   */
  lemma {:induction false} EveryRunAgrees<T(!new)>(ch: Channel<T>, rounds: seq<seq<Attempt<T>>>, etagOf: seq<T> -> ETag)
    requires Injective(etagOf) && Agrees(ch, etagOf)
    requires forall r, i {:trigger rounds[r][i]} :: 0 <= r < |rounds| && 0 <= i < |rounds[r]| ==> Intact(rounds[r][i])
    ensures Agrees(ch.AfterAll(rounds, etagOf), etagOf) && ch.AfterAll(rounds, etagOf).keepsOnEmpty == ch.keepsOnEmpty
  {
    if rounds != [] {
      var before, last := rounds[..|rounds| - 1], rounds[|rounds| - 1];
      EveryRunAgrees(ch, before, etagOf);
      assert forall i :: 0 <= i < |last| ==> last[i] == rounds[|rounds| - 1][i];
      PullKeepsAgreement(ch.AfterAll(before, etagOf), last, etagOf);
    }
  }

  // The first attempt the server answered with its list.
  function FirstServed<T>(attempts: seq<Attempt<T>>): (a: Option<Attempt<T>>)
    ensures a.Some? ==> a.value.Served?
  {
    if attempts == [] then None
    else if attempts[0].Served? then Some(attempts[0])
    else FirstServed(attempts[1..])
  }

  // Whatever failed before it, the first answer of the server decides.
  lemma {:induction false} FirstServedDecides<T>(tag: Option<ETag>, attempts: seq<Attempt<T>>, etagOf: seq<T> -> ETag,
                                                 cur: seq<T>)
    requires forall i {:trigger attempts[i]} :: 0 <= i < |attempts| && attempts[i].Served? ==>
      attempts[i].content == cur
    ensures
      var (next, reply) := Pull(tag, attempts, etagOf);
      match FirstServed(attempts)
      case None => (next, reply) == (tag, Failed)
      case Some(a) =>
        next == Some(etagOf(cur)) &&
        (reply.Received? <==> tag != Some(etagOf(cur)) && a.intact) && (reply.Received? ==> reply.content == cur)
    decreases |attempts|
  {
    if attempts != [] {
      var (next, reply) := Request(tag, attempts[0], etagOf);
      if reply.Failed? {
        FirstServedDecides(next, attempts[1..], etagOf, cur);
      }
    }
  }

  /**
   What a pull installs while the server's list does not change: the server's list, exactly when it was there
   already, or when the ETag differs, the first answer decodes and an empty list would be taken.
   */
  lemma PullInstalls<T>(ch: Channel<T>, attempts: seq<Attempt<T>>, etagOf: seq<T> -> ETag, cur: seq<T>)
    requires forall i {:trigger attempts[i]} :: 0 <= i < |attempts| && attempts[i].Served? ==>
      attempts[i].content == cur
    requires FirstServed(attempts).Some?
    ensures ch.After(attempts, etagOf).installed == cur
       <==> ch.installed == cur ||
            (ch.tag != Some(etagOf(cur)) && FirstServed(attempts).value.intact && ch.Installs(cur))
  {
    FirstServedDecides(ch.tag, attempts, etagOf, cur);
  }

  /**
   Sync converges. After any run without broken bodies, a pull whose attempts all come after the server's last
   change, one of them answered, installs exactly the server's list, if it is one that would be taken.
   */
  lemma Converges<T(!new)>(ch: Channel<T>, rounds: seq<seq<Attempt<T>>>, last: seq<Attempt<T>>, etagOf: seq<T> -> ETag,
                           cur: seq<T>)
    requires Injective(etagOf) && Agrees(ch, etagOf) && ch.Installs(cur)
    requires forall r, i {:trigger rounds[r][i]} :: 0 <= r < |rounds| && 0 <= i < |rounds[r]| ==> Intact(rounds[r][i])
    requires forall i {:trigger last[i]} :: 0 <= i < |last| && last[i].Served? ==>
      last[i].content == cur && last[i].intact
    requires FirstServed(last).Some?
    ensures ch.AfterAll(rounds, etagOf).After(last, etagOf).installed == cur
  {
    EveryRunAgrees(ch, rounds, etagOf);
    FirstServedIsOne(last);
    PullInstalls(ch.AfterAll(rounds, etagOf), last, etagOf, cur);
  }

  lemma {:induction false} FirstServedIsOne<T>(attempts: seq<Attempt<T>>)
    requires FirstServed(attempts).Some?
    ensures exists i :: 0 <= i < |attempts| && attempts[i].Served? && attempts[i] == FirstServed(attempts).value
  {
    if !attempts[0].Served? {
      FirstServedIsOne(attempts[1..]);
      var i :|
        0 <= i < |attempts[1..]| && attempts[1..][i].Served? && attempts[1..][i] == FirstServed(attempts[1..]).value;
      assert attempts[i + 1] == attempts[1..][i];
    }
  }

  /**
   A body that breaks off after its ETag was remembered is never asked for again: as long as the server's list
   stays the same, every later answer is "not modified" and what was installed before stays.
   */
  lemma {:induction false} BrokenBodySticks<T>(ch: Channel<T>, first: seq<Attempt<T>>, rounds: seq<seq<Attempt<T>>>,
      etagOf: seq<T> -> ETag, cur: seq<T>)
    requires ch.tag != Some(etagOf(cur)) && FirstServed(first) == Some(Served(cur, false))
    requires forall i {:trigger first[i]} :: 0 <= i < |first| && first[i].Served? ==> first[i].content == cur
    requires forall r, i {:trigger rounds[r][i]} ::
               0 <= r < |rounds| && 0 <= i < |rounds[r]| && rounds[r][i].Served? ==> rounds[r][i].content == cur
    ensures
      var stuck := ch.After(first, etagOf).AfterAll(rounds, etagOf);
      stuck.tag == Some(etagOf(cur)) && stuck.installed == ch.installed
  {
    if rounds == [] {
      FirstServedDecides(ch.tag, first, etagOf, cur);
    } else {
      var before, last := rounds[..|rounds| - 1], rounds[|rounds| - 1];
      BrokenBodySticks(ch, first, before, etagOf, cur);
      assert forall i :: 0 <= i < |last| ==> last[i] == rounds[|rounds| - 1][i];
      FirstServedDecides(ch.After(first, etagOf).AfterAll(before, etagOf).tag, last, etagOf, cur);
    }
  }
}

/** The gateway's side of configuration sync as it is coded. */
module ConfigSync {
  import opened GoStrings
  import opened Pulling
  import opened RouteTable
  import opened RouteIndex
  import opened StableSort
  import opened Transforms

  const ATTEMPTS: nat := 3

  class HTTPSyncProvider {
    var lastETag: map<string, ETag>

    constructor ()
      ensures lastETag == map[]
    {
      lastETag := map[];
    }

    function Tag(path: string): Option<ETag>
      reads this
    {
      if path in lastETag then Some(lastETag[path]) else None
    }

    method DoRequest<T(==)>(path: string, a: Attempt<T>, etagOf: seq<T> -> ETag) returns (r: Reply<T>)
      modifies this
      ensures (Tag(path), r) == Request(old(Tag(path)), a, etagOf)
      ensures lastETag - {path} == old(lastETag) - {path}
    {
      match a
      case NetworkError => return Failed;
      case BadStatus => return Failed;
      case Served(content, intact) =>
        var etag := etagOf(content);
        if Tag(path) == Some(etag) {
          return Unchanged;
        }
        lastETag := lastETag[path := etag];
        if !intact {
          return Failed;
        }
        return Received(content);
    }

    method GetWithRetry<T(==)>(path: string, attempts: seq<Attempt<T>>, etagOf: seq<T> -> ETag) returns (r: Reply<T>)
      requires |attempts| <= ATTEMPTS
      modifies this
      ensures (Tag(path), r) == Pull(old(Tag(path)), attempts, etagOf)
      ensures lastETag - {path} == old(lastETag) - {path}
    {
      for i := 0 to |attempts|
        invariant Pull(old(Tag(path)), attempts, etagOf) == Pull(Tag(path), attempts[i..], etagOf)
        invariant lastETag - {path} == old(lastETag) - {path}
      {
        assert attempts[i..][1..] == attempts[i + 1..];
        r := DoRequest(path, attempts[i], etagOf);
        if !r.Failed? {
          return;
        }
      }
      return Failed;
    }
  }

  // --- what is installed ---

  datatype Source = Source(alias: string, data: string)

  // A later source takes an alias from an earlier one.
  function ByAlias(sources: seq<Source>): map<string, Source> {
    if sources == [] then map[]
    else
      var last := sources[|sources| - 1];
      ByAlias(sources[..|sources| - 1])[last.alias := last]
  }

  // A service's enabled configs, in the order they were synced.
  function ForService(cfgs: seq<TransformConfig>, id: string): seq<TransformConfig> {
    if cfgs == [] then []
    else
      var last := cfgs[|cfgs| - 1];
      ForService(cfgs[..|cfgs| - 1], id) + if last.enabled && last.serviceId == id then [last] else []
  }

  // The configs of one service as they are stored; a service without any has no entry.
  function Lookup(m: map<string, seq<TransformConfig>>, id: string): seq<TransformConfig> {
    if id in m then m[id] else []
  }

  ghost predicate Grouped(m: map<string, seq<TransformConfig>>, cfgs: seq<TransformConfig>) {
    forall id {:trigger Lookup(m, id)} :: Lookup(m, id) == ForService(cfgs, id)
  }

  ghost predicate GroupedAndSorted(m: map<string, seq<TransformConfig>>, cfgs: seq<TransformConfig>) {
    forall id {:trigger Lookup(m, id)} :: Lookup(m, id) == Sorted(ForService(cfgs, id), Specificity)
  }

  method SourceMap(sources: seq<Source>) returns (m: map<string, Source>)
    ensures m == ByAlias(sources)
  {
    m := map[];
    for i := 0 to |sources|
      invariant m == ByAlias(sources[..i])
    {
      assert sources[..i + 1][..i] == sources[..i];
      m := m[sources[i].alias := sources[i]];
    }
    assert sources[..|sources|] == sources;
  }

  method Group(cfgs: seq<TransformConfig>) returns (m: map<string, seq<TransformConfig>>)
    ensures Grouped(m, cfgs)
  {
    m := map[];
    for i := 0 to |cfgs|
      invariant Grouped(m, cfgs[..i])
    {
      assert cfgs[..i + 1][..i] == cfgs[..i];
      var cfg := cfgs[i];
      ghost var before := m;
      if cfg.enabled {
        m := m[cfg.serviceId := Lookup(m, cfg.serviceId) + [cfg]];
      }
      forall id ensures Lookup(m, id) == ForService(cfgs[..i + 1], id) {
        assert Lookup(before, id) == ForService(cfgs[..i], id);
      }
    }
    assert cfgs[..|cfgs|] == cfgs;
  }

  method SortOne(list: seq<TransformConfig>) returns (r: seq<TransformConfig>)
    ensures r == Sorted(list, Specificity)
  {
    var a := new TransformConfig[|list|](i requires 0 <= i < |list| => list[i]);
    assert a[..] == list;
    SortBySpecificity(a);
    r := a[..];
  }

  method SortGroups(m: map<string, seq<TransformConfig>>, ghost cfgs: seq<TransformConfig>)
    returns (r: map<string, seq<TransformConfig>>)
    requires Grouped(m, cfgs)
    ensures GroupedAndSorted(r, cfgs)
  {
    r := m;
    var todo := m.Keys;
    while todo != {}
      invariant todo <= m.Keys == r.Keys
      invariant forall id {:trigger Lookup(r, id)} ::
        Lookup(r, id) == if id in todo then Lookup(m, id) else Sorted(Lookup(m, id), Specificity)
      decreases todo
    {
      var id :| id in todo;
      var sorted := SortOne(m[id]);
      ghost var before := r;
      r := r[id := sorted];
      todo := todo - {id};
      forall k ensures Lookup(r, k) == if k in todo then Lookup(m, k) else Sorted(Lookup(m, k), Specificity) {
        assert k != id ==> Lookup(r, k) == Lookup(before, k);
      }
    }
    forall id ensures Lookup(r, id) == Sorted(ForService(cfgs, id), Specificity) {
      assert Lookup(m, id) == ForService(cfgs, id);
    }
  }

  const SOURCES := "/internal/sources"
  const SERVICES := "/internal/services"
  const TRANSFORMS := "/internal/response-transforms"

  class HybridTrie {
    const provider: HTTPSyncProvider
    const trie: PathTrie
    var sourceMap: map<string, Source>
    var transformMap: map<string, seq<TransformConfig>>
    var ready: bool

    // The lists last installed.
    ghost var sources: seq<Source>
    ghost var services: seq<Service>
    ghost var transforms: seq<TransformConfig>

    ghost predicate TrieLoaded()
      reads this`services, trie, trie.repr
    {
      trie.Valid() && trie.slots == LoadSlots(map[], AllEntries(services)) &&
      trie.names == LoadNames(map[], AllEntries(services))
    }

    ghost predicate Valid()
      reads this, trie, trie.repr
    {
      TrieLoaded() && sourceMap == ByAlias(sources) && GroupedAndSorted(transformMap, transforms) &&
      (ready <==> services != [])
    }

    ghost function SourceChannel(): Channel<Source>
      reads this, provider
    {
      Channel(provider.Tag(SOURCES), sources, true)
    }

    ghost function ServiceChannel(): Channel<Service>
      reads this, provider
    {
      Channel(provider.Tag(SERVICES), services, true)
    }

    // An empty list of transforms is taken.
    ghost function TransformChannel(): Channel<TransformConfig>
      reads this, provider
    {
      Channel(provider.Tag(TRANSFORMS), transforms, false)
    }

    constructor ()
      ensures Valid() && fresh(provider) && fresh(trie) && fresh(trie.repr)
      ensures SourceChannel() == Channel(None, [], true) && ServiceChannel() == Channel(None, [], true)
      ensures TransformChannel() == Channel(None, [], false)
    {
      provider := new HTTPSyncProvider();
      trie := new PathTrie();
      sourceMap, transformMap, ready := map[], map[], false;
      sources, services, transforms := [], [], [];
    }

    method SyncSources(attempts: seq<Attempt<Source>>, etagOf: seq<Source> -> ETag)
      requires Valid() && |attempts| <= ATTEMPTS
      modifies this`sourceMap, this`sources, provider
      ensures Valid() && SourceChannel() == old(SourceChannel()).After(attempts, etagOf)
      ensures ServiceChannel() == old(ServiceChannel()) && TransformChannel() == old(TransformChannel())
    {
      var r := provider.GetWithRetry(SOURCES, attempts, etagOf);
      OtherTags(old(provider.lastETag), provider.lastETag, SOURCES);
      if !r.Received? {
        return;
      }
      if r.content == [] {
        return;
      }
      sourceMap := SourceMap(r.content);
      sources := r.content;
    }

    method InstallServices(content: seq<Service>)
      requires Valid() && content != []
      modifies this`ready, this`services, trie
      ensures Valid() && fresh(trie.repr - old(trie.repr)) && services == content
    {
      trie.LoadBulk(content);
      ready := true;
      services := content;
    }

    method SyncServices(attempts: seq<Attempt<Service>>, etagOf: seq<Service> -> ETag)
      requires Valid() && |attempts| <= ATTEMPTS
      modifies this`ready, this`services, provider, trie
      ensures Valid() && fresh(trie.repr - old(trie.repr))
      ensures ServiceChannel() == old(ServiceChannel()).After(attempts, etagOf)
      ensures SourceChannel() == old(SourceChannel()) && TransformChannel() == old(TransformChannel())
    {
      var r := provider.GetWithRetry(SERVICES, attempts, etagOf);
      OtherTags(old(provider.lastETag), provider.lastETag, SERVICES);
      if !r.Received? {
        return;
      }
      if r.content == [] {
        return;
      }
      InstallServices(r.content);
    }

    method SyncTransformConfigs(attempts: seq<Attempt<TransformConfig>>, etagOf: seq<TransformConfig> -> ETag)
      requires Valid() && |attempts| <= ATTEMPTS
      modifies this`transformMap, this`transforms, provider
      ensures Valid() && TransformChannel() == old(TransformChannel()).After(attempts, etagOf)
      ensures SourceChannel() == old(SourceChannel()) && ServiceChannel() == old(ServiceChannel())
    {
      var r := provider.GetWithRetry(TRANSFORMS, attempts, etagOf);
      OtherTags(old(provider.lastETag), provider.lastETag, TRANSFORMS);
      if !r.Received? {
        return;
      }
      var groups := Group(r.content);
      transformMap := SortGroups(groups, r.content);
      transforms := r.content;
    }

    /** Pulls the three kinds of configuration one after the other; each pull moves its own channel and no other. */
    method DoSync(forSources: seq<Attempt<Source>>, forServices: seq<Attempt<Service>>,
        forTransforms: seq<Attempt<TransformConfig>>, sourceETag: seq<Source> -> ETag,
        serviceETag: seq<Service> -> ETag, transformETag: seq<TransformConfig> -> ETag)
      requires Valid() && |forSources| <= ATTEMPTS && |forServices| <= ATTEMPTS && |forTransforms| <= ATTEMPTS
      modifies this, provider, trie
      ensures Valid() && fresh(trie.repr - old(trie.repr))
      ensures SourceChannel() == old(SourceChannel()).After(forSources, sourceETag)
      ensures ServiceChannel() == old(ServiceChannel()).After(forServices, serviceETag)
      ensures TransformChannel() == old(TransformChannel()).After(forTransforms, transformETag)
    {
      SyncSources(forSources, sourceETag);
      SyncServices(forServices, serviceETag);
      SyncTransformConfigs(forTransforms, transformETag);
    }

    /** A request is routed by the services last installed. */
    method FindBestMatch(path: string) returns (m: Option<PathMatch>)
      requires Valid()
      ensures
        var entries := AllEntries(services);
        IsLookup(LoadSlots(map[], entries), LoadNames(map[], entries), RequestSegments(path), m)
    {
      m := trie.FindBestMatch(path);
    }

    /** The best of the service's enabled configs, as they were synced. */
    method FindTransformConfig(id: string, path: string, verb: string) returns (r: Option<TransformConfig>)
      requires Valid()
      ensures BestAnswer(ForService(transforms, id), path, verb, r)
      ensures ServedTransform(transforms, id, path, verb, r)
    {
      var cfgs := Lookup(transformMap, id);
      r := Transforms.FindTransformConfig(cfgs, path, verb);
      LookupFindsBest(ForService(transforms, id), path, verb);
      BestIsServed(transforms, id, path, verb, r);
    }
  }

  lemma OtherTags(before: map<string, ETag>, after: map<string, ETag>, path: string)
    requires before - {path} == after - {path}
    ensures forall k {:trigger k in after} :: k != path ==>
      (k in after <==> k in before) && (k in after ==> after[k] == before[k])
  {
    forall k | k != path ensures (k in after <==> k in before) && (k in after ==> after[k] == before[k]) {
      assert k in before <==> k in before - {path};
      assert k in after <==> k in after - {path};
      if k in after {
        assert (before - {path})[k] == (after - {path})[k];
      }
    }
  }

  // --- what the installed configuration holds ---

  // The last of the sources with an alias, or -1.
  function LastOf(sources: seq<Source>, alias: string): (i: int)
    ensures -1 <= i < |sources| && (i >= 0 ==> sources[i].alias == alias)
    ensures forall j :: i < j < |sources| ==> sources[j].alias != alias
  {
    if sources == [] then -1
    else
      var n := |sources| - 1;
      if sources[n].alias == alias then n else LastOf(sources[..n], alias)
  }

  /** An alias stands for the last of the installed sources that has it. */
  lemma {:induction false} AliasIsLast(sources: seq<Source>, alias: string)
    ensures
      var m, i := ByAlias(sources), LastOf(sources, alias);
      if i == -1 then alias !in m else alias in m && m[alias] == sources[i]
  {
    if sources != [] {
      AliasIsLast(sources[..|sources| - 1], alias);
    }
  }

  predicate IsFor(cfg: TransformConfig, id: string) {
    cfg.enabled && cfg.serviceId == id
  }

  // Where a service's configs are found among those synced, in order.
  function Places(cfgs: seq<TransformConfig>, id: string): (at: seq<nat>)
    ensures |at| == |ForService(cfgs, id)|
    ensures forall k {:trigger k in at} :: k in at ==> k < |cfgs|
  {
    if cfgs == [] then []
    else
      var n := |cfgs| - 1;
      Places(cfgs[..n], id) + if IsFor(cfgs[n], id) then [n] else []
  }

  lemma {:induction false} PlacesRise(cfgs: seq<TransformConfig>, id: string, i: nat, j: nat)
    requires i < j < |Places(cfgs, id)|
    ensures Places(cfgs, id)[i] < Places(cfgs, id)[j]
  {
    var n := |cfgs| - 1;
    var before := Places(cfgs[..n], id);
    if j < |before| {
      PlacesRise(cfgs[..n], id, i, j);
    } else {
      assert before[i] in before;
    }
  }

  lemma {:induction false} PlacesHold(cfgs: seq<TransformConfig>, id: string, i: nat)
    requires i < |Places(cfgs, id)|
    ensures Places(cfgs, id)[i] < |cfgs| && cfgs[Places(cfgs, id)[i]] == ForService(cfgs, id)[i]
    ensures IsFor(ForService(cfgs, id)[i], id)
  {
    var n := |cfgs| - 1;
    if i < |Places(cfgs[..n], id)| {
      PlacesHold(cfgs[..n], id, i);
    }
  }

  lemma {:induction false} PlacesFind(cfgs: seq<TransformConfig>, id: string, k: nat) returns (i: nat)
    requires k < |cfgs| && IsFor(cfgs[k], id)
    ensures i < |Places(cfgs, id)| && Places(cfgs, id)[i] == k
  {
    var n := |cfgs| - 1;
    if k < n {
      i := PlacesFind(cfgs[..n], id, k);
    } else {
      i := |Places(cfgs[..n], id)|;
    }
  }

  /** A service's configs are the enabled ones that name it, as often and in the order they were synced. */
  lemma ForServiceExactly(cfgs: seq<TransformConfig>, id: string)
    ensures
      var own, at := ForService(cfgs, id), Places(cfgs, id);
      (forall i, j {:trigger at[i], at[j]} :: 0 <= i < j < |own| ==> at[i] < at[j]) &&
      (forall i {:trigger at[i]} {:trigger own[i]} :: 0 <= i < |own| ==> at[i] < |cfgs| && own[i] == cfgs[at[i]]) &&
      (forall k {:trigger cfgs[k]} :: 0 <= k < |cfgs| ==> (IsFor(cfgs[k], id) <==> k in at))
  {
    var own, at := ForService(cfgs, id), Places(cfgs, id);
    forall i, j | 0 <= i < j < |own| ensures at[i] < at[j] {
      PlacesRise(cfgs, id, i, j);
    }
    forall i | 0 <= i < |own| ensures at[i] < |cfgs| && own[i] == cfgs[at[i]] && IsFor(cfgs[at[i]], id) {
      PlacesHold(cfgs, id, i);
    }
    forall k | 0 <= k < |cfgs| && IsFor(cfgs[k], id) ensures k in at {
      var i := PlacesFind(cfgs, id, k);
    }
  }

  // Enabled, of the service, and for the path and the method.
  ghost predicate Serves(cfg: TransformConfig, id: string, path: string, verb: string) {
    IsFor(cfg, id) && PathFits(cfg.path, path) && MethodFits(cfg.methods, verb)
  }

  /**
   What a request gets, of everything synced: of the enabled configs of its service that are for its path and method,
   one with the highest score and of those the first, and nothing exactly when there is none.
   */
  ghost predicate ServedTransform(cfgs: seq<TransformConfig>, id: string, path: string, verb: string,
                                  r: Option<TransformConfig>)
  {
    match r
    case None => forall k {:trigger cfgs[k]} :: 0 <= k < |cfgs| ==> !Serves(cfgs[k], id, path, verb)
    case Some(c) =>
      exists i {:trigger cfgs[i]} :: 0 <= i < |cfgs| && cfgs[i] == c && Serves(c, id, path, verb) &&
        forall k {:trigger cfgs[k]} :: 0 <= k < |cfgs| && Serves(cfgs[k], id, path, verb) ==>
          PathScore(cfgs[k].path) < PathScore(c.path) || (PathScore(cfgs[k].path) == PathScore(c.path) && i <= k)
  }

  lemma ServesOwn(cfgs: seq<TransformConfig>, id: string, path: string, verb: string, k: nat) returns (i: nat)
    requires k < |cfgs| && Serves(cfgs[k], id, path, verb)
    ensures i < |ForService(cfgs, id)| && Places(cfgs, id)[i] == k
    ensures ForService(cfgs, id)[i] == cfgs[k] && Applies(cfgs[k], path, verb)
  {
    AppliesExactly(cfgs[k], path, verb);
    i := PlacesFind(cfgs, id, k);
    PlacesHold(cfgs, id, i);
  }

  lemma OwnServes(cfgs: seq<TransformConfig>, id: string, path: string, verb: string, i: nat)
    requires i < |ForService(cfgs, id)| && Applies(ForService(cfgs, id)[i], path, verb)
    ensures
      var k := Places(cfgs, id)[i];
      k < |cfgs| && cfgs[k] == ForService(cfgs, id)[i] && Serves(cfgs[k], id, path, verb)
  {
    PlacesHold(cfgs, id, i);
    AppliesExactly(ForService(cfgs, id)[i], path, verb);
  }

  // The best of a service's own configs, against one that serves.
  lemma BestBeats(cfgs: seq<TransformConfig>, id: string, path: string, verb: string, i: nat, k: nat)
    requires i < |ForService(cfgs, id)| && k < |cfgs| && Serves(cfgs[k], id, path, verb)
    requires
      var own := ForService(cfgs, id);
      forall j {:trigger own[j]} :: 0 <= j < |own| && Applies(own[j], path, verb) ==>
        Specificity(own[j]) < Specificity(own[i]) || (Specificity(own[j]) == Specificity(own[i]) && i <= j)
    ensures
      var c := ForService(cfgs, id)[i];
      PathScore(cfgs[k].path) < PathScore(c.path) ||
      (PathScore(cfgs[k].path) == PathScore(c.path) && Places(cfgs, id)[i] <= k)
  {
    var j := ServesOwn(cfgs, id, path, verb, k);
    if i < j {
      PlacesRise(cfgs, id, i, j);
    }
  }

  lemma BestIsServed(cfgs: seq<TransformConfig>, id: string, path: string, verb: string, r: Option<TransformConfig>)
    requires BestAnswer(ForService(cfgs, id), path, verb, r)
    ensures ServedTransform(cfgs, id, path, verb, r)
  {
    var own := ForService(cfgs, id);
    if r == None {
      forall k: nat | k < |cfgs| ensures !Serves(cfgs[k], id, path, verb) {
        if Serves(cfgs[k], id, path, verb) {
          var i := ServesOwn(cfgs, id, path, verb, k);
        }
      }
    } else {
      var c := r.value;
      var i: nat :| i < |own| && own[i] == c && Applies(c, path, verb) &&
        forall j {:trigger own[j]} :: 0 <= j < |own| && Applies(own[j], path, verb) ==>
          Specificity(own[j]) < Specificity(c) || (Specificity(own[j]) == Specificity(c) && i <= j);
      OwnServes(cfgs, id, path, verb, i);
      forall k: nat | k < |cfgs| && Serves(cfgs[k], id, path, verb)
        ensures PathScore(cfgs[k].path) < PathScore(c.path) ||
                (PathScore(cfgs[k].path) == PathScore(c.path) && Places(cfgs, id)[i] <= k)
      {
        BestBeats(cfgs, id, path, verb, i, k);
      }
    }
  }
}
