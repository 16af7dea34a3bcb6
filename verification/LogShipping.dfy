/**
 Shipping the gateway's log stream into the store: read, insert, acknowledge, and reclaim what another
 consumer left pending. Every loop of every pod runs concurrently, so the protocol is a state machine;
 inserts and acknowledgements can fail half way and pods can crash at any point.
 */
module LogProtocol {
  // Stream ids in order of publication. The stream is not trimmed.
  type Id = nat

  const READ_COUNT: nat := 100
  const FLUSH_SIZE: nat := 100

  datatype Loop = Loop(pod: nat, reclaims: bool)

  // What a loop has read but not acknowledged. After a good insert only the acknowledgement is left to do.
  datatype Buffer = Buffer(batch: seq<Id>, ids: seq<Id>, inserted: bool)

  const EMPTY := Buffer([], [], false)

  // For each message of the stream, whether it decodes; the consumer group's position and pending list; what
  // was acknowledged; the documents stored, by the message they came from; and the buffers.
  datatype State = State(stream: seq<bool>, delivered: nat, pending: set<Id>, acked: set<Id>, stored: multiset<Id>,
                         buffers: map<Loop, Buffer>) {
    function Buf(l: Loop): Buffer {
      if l in buffers then buffers[l] else EMPTY
    }
  }

  const INIT := State([], 0, {}, {}, multiset{}, map[])

  function Range(lo: nat, hi: nat): (r: seq<Id>)
    requires lo <= hi
    ensures |r| == hi - lo && forall id: Id {:trigger id in r} :: id in r <==> lo <= id < hi
    decreases hi
  {
    if lo == hi then [] else Range(lo, hi - 1) + [hi - 1]
  }

  // The messages that become documents.
  function Docs(stream: seq<bool>, ids: seq<Id>): (docs: seq<Id>)
    ensures |docs| <= |ids|
  {
    if ids == [] then []
    else
      var last := ids[|ids| - 1];
      Docs(stream, ids[..|ids| - 1]) + if last < |stream| && stream[last] then [last] else []
  }

  datatype Step =
    | Publish(decodable: bool)
    | Read(l: Loop, got: seq<Id>)
    | ReadLost(l: Loop, got: seq<Id>)
    | Claim(l: Loop, ids: seq<Id>)
    | Insert(l: Loop, ok: bool, landed: multiset<Id>)
    | Ack(l: Loop, applied: bool)
    | Crash(pod: nat)

  // What XREADGROUP hands out: the next messages nobody was given yet.
  predicate IsNext(s: State, got: seq<Id>) {
    |got| <= READ_COUNT && s.delivered + |got| <= |s.stream| && got == Range(s.delivered, s.delivered + |got|)
  }

  predicate Enabled(s: State, step: Step) {
    match step
    case Publish(_) => true
    case Read(l, got) =>
      !l.reclaims && !s.Buf(l).inserted && |s.Buf(l).ids| < FLUSH_SIZE && IsNext(s, got)
    case ReadLost(l, got) => !l.reclaims && IsNext(s, got)
    case Claim(l, ids) =>
      l.reclaims && s.Buf(l) == EMPTY && |ids| <= READ_COUNT && forall id :: id in ids ==> id in s.pending
    case Insert(l, ok, landed) =>
      var b := s.Buf(l);
      b.ids != [] && !b.inserted && landed <= multiset(b.batch) &&
      (if ok then landed == multiset(b.batch) else b.batch != [])
    case Ack(l, _) => s.Buf(l).inserted
    case Crash(_) => true
  }

  function After(s: State, step: Step): State {
    match step
    case Publish(decodable) => s.(stream := s.stream + [decodable])
    case Read(l, got) =>
      var b := s.Buf(l);
      s.(delivered := s.delivered + |got|, pending := s.pending + (set id | id in got),
         buffers := s.buffers[l := Buffer(b.batch + Docs(s.stream, got), b.ids + got, false)])
    case ReadLost(l, got) => s.(delivered := s.delivered + |got|, pending := s.pending + (set id | id in got))
    case Claim(l, ids) => s.(buffers := s.buffers[l := Buffer(Docs(s.stream, ids), ids, false)])
    case Insert(l, ok, landed) =>
      s.(stored := s.stored + landed, buffers := s.buffers[l := if ok then s.Buf(l).(inserted := true) else EMPTY])
    case Ack(l, applied) =>
      var ids := if applied then set id | id in s.Buf(l).ids else {};
      s.(pending := s.pending - ids, acked := s.acked + ids, buffers := s.buffers[l := EMPTY])
    case Crash(pod) => s.(buffers := map l | l in s.buffers && l.pod != pod :: s.buffers[l])
  }

  predicate PossibleFrom(s: State, run: seq<Step>) {
    run == [] ||
    (var before := run[..|run| - 1]; PossibleFrom(s, before) && Enabled(ReachedFrom(s, before), run[|run| - 1]))
  }

  function ReachedFrom(s: State, run: seq<Step>): State {
    if run == [] then s else After(ReachedFrom(s, run[..|run| - 1]), run[|run| - 1])
  }

  predicate Possible(run: seq<Step>) {
    PossibleFrom(INIT, run)
  }

  function Reached(run: seq<Step>): State {
    ReachedFrom(INIT, run)
  }

  // --- the invariant ---

  ghost predicate BufferOk(s: State, b: Buffer) {
    b.batch == Docs(s.stream, b.ids) &&
    (forall id :: id in b.ids ==> id < s.delivered) &&
    (b.inserted ==> forall id :: id in b.batch ==> id in s.stored) &&
    |b.ids| < FLUSH_SIZE + READ_COUNT
  }

  ghost predicate Inv(s: State) {
    s.delivered <= |s.stream| && s.pending !! s.acked &&
    (forall id: Id {:trigger id in s.pending} {:trigger id in s.acked} ::
       id in s.pending || id in s.acked <==> id < s.delivered) &&
    (forall id {:trigger s.stored[id]} :: id in s.stored ==> id < s.delivered && s.stream[id]) &&
    (forall id {:trigger id in s.acked} :: id in s.acked && s.stream[id] ==> id in s.stored) &&
    (forall l {:trigger s.Buf(l)} :: BufferOk(s, s.Buf(l)))
  }

  // --- facts about documents ---

  lemma {:induction false} DocsMembers(stream: seq<bool>, ids: seq<Id>, id: Id)
    ensures id in Docs(stream, ids) <==> id in ids && id < |stream| && stream[id]
  {
    if ids != [] {
      DocsMembers(stream, ids[..|ids| - 1], id);
      assert ids == ids[..|ids| - 1] + [ids[|ids| - 1]];
    }
  }

  lemma {:induction false} DocsGrow(stream: seq<bool>, more: bool, ids: seq<Id>)
    requires forall i :: 0 <= i < |ids| ==> ids[i] < |stream|
    ensures Docs(stream + [more], ids) == Docs(stream, ids)
  {
    if ids != [] {
      DocsGrow(stream, more, ids[..|ids| - 1]);
    }
  }

  lemma {:induction false} DocsConcat(stream: seq<bool>, a: seq<Id>, b: seq<Id>)
    ensures Docs(stream, a + b) == Docs(stream, a) + Docs(stream, b)
  {
    if b == [] {
      assert a + b == a;
    } else {
      DocsConcat(stream, a, b[..|b| - 1]);
      assert (a + b)[..|a + b| - 1] == a + b[..|b| - 1];
    }
  }

  // --- every step keeps the invariant ---

  lemma PublishKeeps(s: State, decodable: bool)
    requires Inv(s)
    ensures Inv(After(s, Publish(decodable)))
  {
    var s' := After(s, Publish(decodable));
    forall l ensures BufferOk(s', s'.Buf(l)) {
      var ids := s.Buf(l).ids;
      assert BufferOk(s, s.Buf(l)) && forall i :: 0 <= i < |ids| ==> ids[i] in ids;
      DocsGrow(s.stream, decodable, ids);
    }
  }

  // Messages handed out are pending, and nothing else changes hands.
  ghost predicate HandedOut(s: State, s': State, got: seq<Id>) {
    s'.stream == s.stream && s'.acked == s.acked && s'.stored == s.stored &&
    s'.delivered == s.delivered + |got| && s'.pending == s.pending + set id | id in got
  }

  lemma HandingOutKeeps(s: State, s': State, got: seq<Id>)
    requires Inv(s) && IsNext(s, got) && HandedOut(s, s', got)
    requires forall l {:trigger s'.Buf(l)} :: BufferOk(s', s'.Buf(l))
    ensures Inv(s')
  {
  }

  // A buffer stays right when more is delivered or stored.
  lemma StillOk(s: State, s': State, b: Buffer)
    requires BufferOk(s, b) && s'.stream == s.stream && s.delivered <= s'.delivered && s.stored <= s'.stored
    ensures BufferOk(s', b)
  {
  }

  lemma ReadBufferOk(s: State, s': State, got: seq<Id>, b: Buffer)
    requires BufferOk(s, b) && |b.ids| < FLUSH_SIZE && IsNext(s, got) && HandedOut(s, s', got)
    ensures BufferOk(s', Buffer(b.batch + Docs(s.stream, got), b.ids + got, false))
  {
    DocsConcat(s.stream, b.ids, got);
  }

  lemma ReadKeeps(s: State, l: Loop, got: seq<Id>)
    requires Inv(s) && Enabled(s, Read(l, got))
    ensures Inv(After(s, Read(l, got)))
  {
    var s' := After(s, Read(l, got));
    forall k ensures BufferOk(s', s'.Buf(k)) {
      assert BufferOk(s, s.Buf(k));
      if k == l {
        ReadBufferOk(s, s', got, s.Buf(l));
      } else {
        StillOk(s, s', s.Buf(k));
      }
    }
    HandingOutKeeps(s, s', got);
  }

  // Redis has handed the messages out, but the reply never arrived: no buffer has them.
  lemma ReadLostKeeps(s: State, l: Loop, got: seq<Id>)
    requires Inv(s) && Enabled(s, ReadLost(l, got))
    ensures Inv(After(s, ReadLost(l, got)))
  {
    var s' := After(s, ReadLost(l, got));
    forall k ensures BufferOk(s', s'.Buf(k)) {
      assert BufferOk(s, s.Buf(k));
      StillOk(s, s', s.Buf(k));
    }
    HandingOutKeeps(s, s', got);
  }

  lemma ClaimKeeps(s: State, l: Loop, ids: seq<Id>)
    requires Inv(s) && Enabled(s, Claim(l, ids))
    ensures Inv(After(s, Claim(l, ids)))
  {
    var s' := After(s, Claim(l, ids));
    forall k ensures BufferOk(s', s'.Buf(k)) {
      assert BufferOk(s, s.Buf(k));
    }
  }

  lemma InsertKeeps(s: State, l: Loop, ok: bool, landed: multiset<Id>)
    requires Inv(s) && Enabled(s, Insert(l, ok, landed))
    ensures Inv(After(s, Insert(l, ok, landed)))
  {
    var s', b := After(s, Insert(l, ok, landed)), s.Buf(l);
    assert BufferOk(s, b);
    forall id | id in s'.stored ensures id < s.delivered && s.stream[id] {
      if id in landed {
        assert id in b.batch;
        DocsMembers(s.stream, b.ids, id);
      } else {
        assert s.stored[id] > 0;
      }
    }
    forall k ensures BufferOk(s', s'.Buf(k)) {
      assert BufferOk(s, s.Buf(k));
    }
  }

  lemma AckKeeps(s: State, l: Loop, applied: bool)
    requires Inv(s) && Enabled(s, Ack(l, applied))
    ensures Inv(After(s, Ack(l, applied)))
  {
    var s', b := After(s, Ack(l, applied)), s.Buf(l);
    assert BufferOk(s, b);
    forall id | id in s'.acked && s.stream[id] ensures id in s.stored {
      DocsMembers(s.stream, b.ids, id);
    }
    forall k ensures BufferOk(s', s'.Buf(k)) {
      assert BufferOk(s, s.Buf(k));
    }
  }

  lemma CrashKeeps(s: State, pod: nat)
    requires Inv(s)
    ensures Inv(After(s, Crash(pod)))
  {
    var s' := After(s, Crash(pod));
    forall k ensures BufferOk(s', s'.Buf(k)) {
      assert BufferOk(s, s.Buf(k));
    }
  }

  lemma StepKeeps(s: State, step: Step)
    requires Inv(s) && Enabled(s, step)
    ensures Inv(After(s, step))
  {
    match step
    case Publish(d) => PublishKeeps(s, d);
    case Read(l, got) => ReadKeeps(s, l, got);
    case ReadLost(l, got) => ReadLostKeeps(s, l, got);
    case Claim(l, ids) => ClaimKeeps(s, l, ids);
    case Insert(l, ok, landed) => InsertKeeps(s, l, ok, landed);
    case Ack(l, applied) => AckKeeps(s, l, applied);
    case Crash(pod) => CrashKeeps(s, pod);
  }

  /** The invariant holds in every reachable state. */
  lemma {:induction false} EveryRunKeeps(run: seq<Step>)
    requires Possible(run)
    ensures Inv(Reached(run))
  {
    if run != [] {
      EveryRunKeeps(run[..|run| - 1]);
      StepKeeps(Reached(run[..|run| - 1]), run[|run| - 1]);
    }
  }

  /**
   No log is lost quietly: in every reachable state a decodable message is stored, or still pending for some
   loop to reclaim, or not delivered yet; acknowledging one always comes after storing it; an acknowledged
   message is never handed out again; and nothing is stored that was not published and decodable.
   */
  lemma NothingIsLost(run: seq<Step>, id: Id)
    requires Possible(run)
    ensures
      var s := Reached(run);
      (id < |s.stream| && s.stream[id] ==> id in s.stored || id in s.pending || id >= s.delivered) &&
      (id in s.acked ==> id < |s.stream| && id !in s.pending && (id in s.stored <==> s.stream[id])) &&
      (id in s.stored ==> id < |s.stream| && s.stream[id])
  {
    EveryRunKeeps(run);
    assert Reached(run).stored[id] > 0 <==> id in Reached(run).stored;
  }

  /** A read loop never holds more than flushSize + readCount - 1 messages, a reclaim loop never more than readCount. */
  lemma {:induction false} BuffersStaySmall(run: seq<Step>, l: Loop)
    requires Possible(run)
    ensures |Reached(run).Buf(l).ids| <= if l.reclaims then READ_COUNT else FLUSH_SIZE + READ_COUNT - 1
  {
    if run != [] {
      BuffersStaySmall(run[..|run| - 1], l);
      EveryRunKeeps(run);
      assert BufferOk(Reached(run), Reached(run).Buf(l));
    }
  }

  /** Once nothing is pending, every decodable message delivered so far is stored, whatever crashed or failed before. */
  lemma DrainedIsStored(run: seq<Step>, id: Id)
    requires Possible(run) && Reached(run).pending == {} && id < Reached(run).delivered
    ensures id < |Reached(run).stream| && (Reached(run).stream[id] ==> id in Reached(run).stored)
  {
    EveryRunKeeps(run);
    assert id !in Reached(run).pending;
  }

  // --- duplicates ---

  function Count(docs: seq<Id>, id: Id): nat {
    multiset(docs)[id]
  }

  // How often a loop's buffer holds a log.
  function Held(s: State, l: Loop, id: Id): nat {
    Count(s.Buf(l).batch, id)
  }

  // No log is in two places: stored, or waiting in a loop's buffer.
  ghost predicate OnceInv(s: State) {
    (forall id: Id {:trigger s.stored[id]} :: s.stored[id] <= 1) &&
    (forall l, id {:trigger Held(s, l, id)} ::
       Held(s, l, id) <= 1 && (Held(s, l, id) > 0 && !s.Buf(l).inserted ==> s.stored[id] == 0)) &&
    (forall k, l, id {:trigger Held(s, k, id), Held(s, l, id)} :: k != l ==> Held(s, k, id) == 0 || Held(s, l, id) == 0)
  }

  lemma {:induction false} RangeAt(lo: nat, hi: nat, i: nat)
    requires lo + i < hi
    ensures Range(lo, hi)[i] == lo + i
    decreases hi
  {
    if lo + i < hi - 1 {
      RangeAt(lo, hi - 1, i);
    }
  }

  ghost predicate Rising(ids: seq<Id>) {
    forall i, j {:trigger ids[i], ids[j]} :: 0 <= i < j < |ids| ==> ids[i] < ids[j]
  }

  lemma {:induction false} RisingDocsOnce(stream: seq<bool>, ids: seq<Id>, id: Id)
    requires Rising(ids)
    ensures Count(Docs(stream, ids), id) <= if id in ids then 1 else 0
  {
    if ids != [] {
      var before, last := ids[..|ids| - 1], ids[|ids| - 1];
      assert forall i :: 0 <= i < |before| ==> before[i] == ids[i] < ids[|ids| - 1];
      RisingDocsOnce(stream, before, id);
      assert id in before ==> id in ids && id < last;
    }
  }

  // What was never delivered is held and stored nowhere.
  lemma UndeliveredIsNowhere(s: State, k: Loop, id: Id)
    requires Inv(s) && id >= s.delivered
    ensures Held(s, k, id) == 0 && s.stored[id] == 0
  {
    assert BufferOk(s, s.Buf(k));
    DocsMembers(s.stream, s.Buf(k).ids, id);
  }

  // What is handed out was not delivered before, and comes once.
  lemma HandedOutOnce(s: State, got: seq<Id>, id: Id)
    requires IsNext(s, got)
    ensures Count(Docs(s.stream, got), id) <= if id >= s.delivered then 1 else 0
  {
    forall i | 0 <= i < |got| ensures got[i] == s.delivered + i {
      RangeAt(s.delivered, s.delivered + |got|, i);
    }
    RisingDocsOnce(s.stream, got, id);
  }

  // Logs read for the first time join a buffer; nothing holds them yet.
  lemma ReadHeld(s: State, l: Loop, got: seq<Id>, k: Loop, id: Id)
    requires Inv(s) && Enabled(s, Read(l, got))
    ensures Held(After(s, Read(l, got)), k, id) == Held(s, k, id) + if k == l then Count(Docs(s.stream, got), id) else 0
  {
  }

  // Logs nobody held go to one loop.
  lemma JoiningOnce(s: State, s': State, l: Loop, from: nat)
    requires OnceInv(s) && s'.stored == s.stored && !s.Buf(l).inserted && !s'.Buf(l).inserted
    requires forall k {:trigger s'.Buf(k)} :: k != l ==> s'.Buf(k) == s.Buf(k)
    requires forall id: Id {:trigger Held(s', l, id)} :: id < from ==> Held(s', l, id) == Held(s, l, id)
    requires forall id: Id {:trigger Held(s', l, id)} :: id >= from ==> Held(s', l, id) <= 1 && s.stored[id] == 0
    requires forall k, id: Id {:trigger Held(s, k, id)} :: id >= from ==> Held(s, k, id) == 0
    ensures OnceInv(s')
  {
    forall k, id: Id ensures Held(s', k, id) == Held(s, k, id) || (k == l && id >= from && Held(s', k, id) <= 1) {
      assert k != l ==> s'.Buf(k) == s.Buf(k);
    }
  }

  lemma ReadOnce(s: State, l: Loop, got: seq<Id>)
    requires Inv(s) && OnceInv(s) && Enabled(s, Read(l, got))
    ensures OnceInv(After(s, Read(l, got)))
  {
    var s' := After(s, Read(l, got));
    forall id: Id
      ensures id < s.delivered ==> Held(s', l, id) == Held(s, l, id)
      ensures id >= s.delivered ==> Held(s', l, id) <= 1 && s.stored[id] == 0
    {
      ReadHeld(s, l, got, l, id);
      HandedOutOnce(s, got, id);
      if id >= s.delivered {
        UndeliveredIsNowhere(s, l, id);
      }
    }
    forall k, id: Id | id >= s.delivered ensures Held(s, k, id) == 0 {
      UndeliveredIsNowhere(s, k, id);
    }
    JoiningOnce(s, s', l, s.delivered);
  }

  lemma InsertOnce(s: State, l: Loop, ok: bool, landed: multiset<Id>)
    requires OnceInv(s) && Enabled(s, Insert(l, ok, landed))
    ensures OnceInv(After(s, Insert(l, ok, landed)))
  {
    var s' := After(s, Insert(l, ok, landed));
    forall k, id: Id
      ensures Held(s', k, id) == if k == l && !ok then 0 else Held(s, k, id)
    {
    }
    forall id: Id ensures s'.stored[id] == s.stored[id] + landed[id] && landed[id] <= Held(s, l, id) {
    }
  }

  // Emptying buffers duplicates nothing.
  lemma EmptyingOnce(s: State, s': State)
    requires OnceInv(s) && s'.stored == s.stored && forall l {:trigger s'.Buf(l)} :: s'.Buf(l) in {s.Buf(l), EMPTY}
    ensures OnceInv(s')
  {
    forall k, id: Id ensures Held(s', k, id) in {0, Held(s, k, id)} && (Held(s', k, id) > 0 ==> s'.Buf(k) == s.Buf(k)) {
      assert s'.Buf(k) in {s.Buf(k), EMPTY};
    }
  }

  predicate IsClaim(step: Step) {
    step.Claim?
  }

  // A claimed log comes once, is not stored, and no loop holds it.
  ghost predicate Fresh(s: State, ids: seq<Id>, id: Id) {
    Count(Docs(s.stream, ids), id) == 1 && s.stored[id] == 0 &&
    forall k {:trigger Held(s, k, id)} :: Held(s, k, id) == 0
  }

  ghost predicate AllFresh(s: State, ids: seq<Id>) {
    forall id {:trigger Fresh(s, ids, id)} :: id in Docs(s.stream, ids) ==> Fresh(s, ids, id)
  }

  lemma FreshClaimOnce(s: State, l: Loop, ids: seq<Id>)
    requires OnceInv(s) && Enabled(s, Claim(l, ids)) && AllFresh(s, ids)
    ensures OnceInv(After(s, Claim(l, ids)))
  {
    var s', docs := After(s, Claim(l, ids)), Docs(s.stream, ids);
    forall k, id: Id
      ensures Held(s', k, id) == (if k == l then Count(docs, id) else Held(s, k, id))
      ensures Count(docs, id) > 0 ==> Fresh(s, ids, id)
    {
      assert Count(docs, id) > 0 ==> id in docs;
    }
  }

  // A step that claims only what is fresh.
  ghost predicate Harmless(s: State, step: Step) {
    step.Claim? ==> AllFresh(s, step.ids)
  }

  lemma StepOnce(s: State, step: Step)
    requires Inv(s) && OnceInv(s) && Enabled(s, step) && Harmless(s, step)
    ensures OnceInv(After(s, step))
  {
    match step
    case Read(l, got) => ReadOnce(s, l, got);
    case Insert(l, ok, landed) => InsertOnce(s, l, ok, landed);
    case Claim(l, ids) => FreshClaimOnce(s, l, ids);
    case _ => EmptyingOnce(s, After(s, step));
  }

  ghost predicate HarmlessAt(s: State, run: seq<Step>, i: nat)
    requires i < |run|
  {
    Harmless(ReachedFrom(s, run[..i]), run[i])
  }

  /** As long as every claim is of fresh logs alone, no log is in two places. */
  lemma {:induction false} OnceWhileHarmless(s: State, run: seq<Step>)
    requires Inv(s) && OnceInv(s) && PossibleFrom(s, run)
    requires forall i: nat {:trigger HarmlessAt(s, run, i)} :: i < |run| ==> HarmlessAt(s, run, i)
    ensures Inv(ReachedFrom(s, run)) && OnceInv(ReachedFrom(s, run))
  {
    if run != [] {
      var n := |run| - 1;
      forall i: nat | i < n ensures HarmlessAt(s, run[..n], i) {
        assert HarmlessAt(s, run, i) && run[..n][..i] == run[..i];
      }
      OnceWhileHarmless(s, run[..n]);
      assert HarmlessAt(s, run, n);
      StepKeeps(ReachedFrom(s, run[..n]), run[n]);
      StepOnce(ReachedFrom(s, run[..n]), run[n]);
    }
  }

  ghost predicate NoClaim(run: seq<Step>) {
    forall i {:trigger IsClaim(run[i])} :: 0 <= i < |run| ==> !IsClaim(run[i])
  }

  /** Only a reclaim can store a log twice: as long as nothing was reclaimed, every log is stored at most once. */
  lemma OnceUntilReclaimed(run: seq<Step>)
    requires Possible(run) && NoClaim(run)
    ensures OnceInv(Reached(run))
  {
    NoClaimOnce(INIT, run);
  }

  // --- which claims can lead to a second copy ---

  // Whatever happens next short of another claim, every log is stored at most once.
  ghost predicate StaysOnce(s: State) {
    forall run, id: Id {:trigger ReachedFrom(s, run).stored[id]} ::
      PossibleFrom(s, run) && NoClaim(run) ==> ReachedFrom(s, run).stored[id] <= 1
  }

  // A good insert of all that a loop holds.
  function InsertAll(s: State, l: Loop): Step {
    Insert(l, true, multiset(s.Buf(l).batch))
  }

  // It is possible once the loop holds a log, and leaves the other loops alone.
  lemma InsertAllStores(s: State, l: Loop, id: Id)
    requires BufferOk(s, s.Buf(l)) && !s.Buf(l).inserted && Held(s, l, id) > 0
    ensures Enabled(s, InsertAll(s, l)) && After(s, InsertAll(s, l)).stored[id] == s.stored[id] + Held(s, l, id)
    ensures forall k {:trigger After(s, InsertAll(s, l)).Buf(k)} ::
              k != l ==> After(s, InsertAll(s, l)).Buf(k) == s.Buf(k)
  {
    assert s.Buf(l).batch != [] && s.Buf(l).ids != [];
  }

  // A run goes on by such an insert.
  lemma InsertMore(s: State, run: seq<Step>, now: State, l: Loop) returns (longer: seq<Step>)
    requires PossibleFrom(s, run) && NoClaim(run) && now == ReachedFrom(s, run) && Enabled(now, InsertAll(now, l))
    ensures PossibleFrom(s, longer) && NoClaim(longer) && ReachedFrom(s, longer) == After(now, InsertAll(now, l))
  {
    longer := run + [InsertAll(now, l)];
    assert longer[..|longer| - 1] == run;
    forall i | 0 <= i < |longer| ensures !IsClaim(longer[i]) {
      assert i < |run| ==> longer[i] == run[i] && !IsClaim(run[i]);
    }
  }

  // The claimed batch is stored next to what is stored already.
  lemma InsertDoubles(s: State, l: Loop, id: Id)
    requires BufferOk(s, s.Buf(l)) && !s.Buf(l).inserted && Held(s, l, id) > 0 && s.stored[id] + Held(s, l, id) > 1
    ensures !StaysOnce(s)
  {
    InsertAllStores(s, l, id);
    var run := InsertMore(s, [], s, l);
    assert ReachedFrom(s, run).stored[id] > 1;
  }

  // Two loops store what both hold.
  lemma TwoInsertsDouble(s: State, l: Loop, k: Loop, id: Id)
    requires k != l && BufferOk(s, s.Buf(l)) && BufferOk(s, s.Buf(k)) && !s.Buf(l).inserted && !s.Buf(k).inserted
    requires Held(s, l, id) > 0 && Held(s, k, id) > 0
    ensures !StaysOnce(s)
  {
    InsertAllStores(s, l, id);
    var run := InsertMore(s, [], s, l);
    var now := After(s, InsertAll(s, l));
    assert now.Buf(k) == s.Buf(k);
    StillOk(s, now, s.Buf(k));
    InsertAllStores(now, k, id);
    var longer := InsertMore(s, run, now, k);
    assert ReachedFrom(s, longer).stored[id] > 1;
  }

  lemma StaleClaimDoubles(s: State, l: Loop, ids: seq<Id>, id: Id)
    requires Inv(s) && Enabled(s, Claim(l, ids)) && id in Docs(s.stream, ids) && !Fresh(s, ids, id)
    ensures !StaysOnce(After(s, Claim(l, ids)))
  {
    var s' := After(s, Claim(l, ids));
    StepKeeps(s, Claim(l, ids));
    assert BufferOk(s', s'.Buf(l)) && s'.Buf(l) == Buffer(Docs(s.stream, ids), ids, false);
    assert Held(s', l, id) == Count(Docs(s.stream, ids), id) > 0;
    if s.stored[id] > 0 || Count(Docs(s.stream, ids), id) > 1 {
      InsertDoubles(s', l, id);
    } else {
      var k :| Held(s, k, id) != 0;
      assert s'.Buf(k) == s.Buf(k) && BufferOk(s', s'.Buf(k)) && id in s.Buf(k).batch;
      TwoInsertsDouble(s', l, k, id);
    }
  }

  /**
   A claim is harmless, in that whatever happens next short of another claim stores every log at most once, exactly when
   each claimed log comes once, is not stored and is held by no other loop.
   */
  lemma ClaimIsHarmlessExactly(s: State, l: Loop, ids: seq<Id>)
    requires Inv(s) && OnceInv(s) && Enabled(s, Claim(l, ids))
    ensures StaysOnce(After(s, Claim(l, ids))) <==> AllFresh(s, ids)
  {
    var s' := After(s, Claim(l, ids));
    if AllFresh(s, ids) {
      StepKeeps(s, Claim(l, ids));
      FreshClaimOnce(s, l, ids);
      forall run, id: Id | PossibleFrom(s', run) && NoClaim(run) ensures ReachedFrom(s', run).stored[id] <= 1 {
        NoClaimOnce(s', run);
      }
    } else {
      var id :| id in Docs(s.stream, ids) && !Fresh(s, ids, id);
      StaleClaimDoubles(s, l, ids, id);
    }
  }

  lemma NoClaimOnce(s: State, run: seq<Step>)
    requires Inv(s) && OnceInv(s) && PossibleFrom(s, run) && NoClaim(run)
    ensures OnceInv(ReachedFrom(s, run))
  {
    forall i: nat | i < |run| ensures HarmlessAt(s, run, i) {
      assert !IsClaim(run[i]);
    }
    OnceWhileHarmless(s, run);
  }

  lemma Extend(run: seq<Step>, step: Step) returns (longer: seq<Step>)
    requires Possible(run) && Enabled(Reached(run), step)
    ensures Possible(longer) && Reached(longer) == After(Reached(run), step)
  {
    longer := run + [step];
    assert longer[..|longer| - 1] == run;
  }

  lemma CanBeRead() returns (run: seq<Step>)
    ensures Possible(run)
    ensures Reached(run) == State([true], 1, {0}, {}, multiset{}, map[Loop(0, false) := Buffer([0], [0], false)])
  {
    assert Range(0, 1) == [0] && Docs([true], [0]) == [0];
    run := Extend([], Publish(true));
    run := Extend(run, Read(Loop(0, false), [0]));
  }

  // A log can be stored and its acknowledgement lost.
  lemma CanStayPending() returns (run: seq<Step>)
    ensures Possible(run)
    ensures
      var s := Reached(run);
      s.stream == [true] && s.stored[0] == 1 && 0 in s.pending && s.Buf(Loop(0, true)) == EMPTY
  {
    var reader := Loop(0, false);
    run := CanBeRead();
    run := Extend(run, Insert(reader, true, multiset{0}));
    run := Extend(run, Ack(reader, false));
  }

  /**
   Delivery is at least once, not exactly once: a log can be stored, its acknowledgement lost, and the message
   reclaimed and stored again.
   */
  lemma CanStoreTwice() returns (run: seq<Step>)
    ensures Possible(run) && Reached(run).stored[0] == 2
  {
    var reclaimer := Loop(0, true);
    run := CanStayPending();
    assert Docs([true], [0]) == [0];
    run := Extend(run, Claim(reclaimer, [0]));
    assert Reached(run).Buf(reclaimer) == Buffer([0], [0], false);
    run := Extend(run, Insert(reclaimer, true, multiset{0}));
  }
}

/** The consumer's loops as they are coded, each of their operations a step of the protocol. */
module LogConsumer {
  import opened GoStrings
  import opened LogProtocol

  // --- claiming what was left pending ---

  // How many pending entries one XAUTOCLAIM looks at.
  const SCAN_LIMIT: nat := 10 * READ_COUNT

  /**
   One XAUTOCLAIM from a position: up to count of the pending messages not delivered recently, looking at no more
   than attempts entries, and where to go on. Nothing to go on with is the cursor 0-0.
   */
  function AutoClaim(at: nat, end: nat, pending: set<Id>, recent: set<Id>, attempts: nat, count: nat)
    : (r: (seq<Id>, Option<Id>))
    requires at <= end
    ensures |r.0| <= count && forall id: Id {:trigger id in r.0} :: id in r.0 ==> at <= id < end && id in pending
    decreases end - at
  {
    if at == end then ([], None)
    else if at !in pending then AutoClaim(at + 1, end, pending, recent, attempts, count)
    else if attempts == 0 || count == 0 then ([], Some(at))
    else if at in recent then AutoClaim(at + 1, end, pending, recent, attempts - 1, count)
    else
      var (ids, next) := AutoClaim(at + 1, end, pending, recent, attempts - 1, count - 1);
      ([at] + ids, next)
  }

  // How far one got.
  function UpTo(end: nat, next: Option<Id>): nat {
    if next.Some? then next.value else end
  }

  // The cursor moves on to a pending message, and what was passed over on the way is claimed, or recent and left.
  lemma {:induction false} AutoClaimCovers(at: nat, end: nat, pending: set<Id>, recent: set<Id>, attempts: nat,
                                           count: nat)
    requires at <= end
    ensures
      var (ids, next) := AutoClaim(at, end, pending, recent, attempts, count);
      at <= UpTo(end, next) <= end && (next.Some? ==> next.value in pending && next.value < end) &&
      forall id: Id {:trigger id in ids} {:trigger id in recent} ::
        id in ids <==> id in pending && id !in recent && at <= id < UpTo(end, next)
    decreases end - at
  {
    if at != end {
      if at !in pending {
        AutoClaimCovers(at + 1, end, pending, recent, attempts, count);
      } else if attempts != 0 && count != 0 {
        if at in recent {
          AutoClaimCovers(at + 1, end, pending, recent, attempts - 1, count);
        } else {
          AutoClaimCovers(at + 1, end, pending, recent, attempts - 1, count - 1);
        }
      }
    }
  }

  // The claimed ids rise, so each comes once.
  lemma {:induction false} AutoClaimRises(at: nat, end: nat, pending: set<Id>, recent: set<Id>, attempts: nat,
                                          count: nat)
    requires at <= end
    ensures Rising(AutoClaim(at, end, pending, recent, attempts, count).0)
    decreases end - at
  {
    if at != end {
      if at !in pending {
        AutoClaimRises(at + 1, end, pending, recent, attempts, count);
      } else if attempts != 0 && count != 0 {
        if at in recent {
          AutoClaimRises(at + 1, end, pending, recent, attempts - 1, count);
        } else {
          AutoClaimRises(at + 1, end, pending, recent, attempts - 1, count - 1);
          var rest := AutoClaim(at + 1, end, pending, recent, attempts - 1, count - 1).0;
          assert forall i :: 0 <= i < |rest| ==> rest[i] in rest;
        }
      }
    }
  }

  /** What an XAUTOCLAIM hands out is harmless exactly when none of its logs is stored or held by a loop already. */
  lemma ReclaimIsHarmlessExactly(s: State, l: Loop, at: nat, recent: set<Id>)
    requires Inv(s) && OnceInv(s) && at <= s.delivered && l.reclaims && s.Buf(l) == EMPTY
    ensures
      var ids := AutoClaim(at, s.delivered, s.pending, recent, SCAN_LIMIT, READ_COUNT).0;
      StaysOnce(After(s, Step.Claim(l, ids))) <==> Untouched(s, Docs(s.stream, ids))
  {
    var ids := AutoClaim(at, s.delivered, s.pending, recent, SCAN_LIMIT, READ_COUNT).0;
    AutoClaimRises(at, s.delivered, s.pending, recent, SCAN_LIMIT, READ_COUNT);
    ClaimIsHarmlessExactly(s, l, ids);
    RisingIsFresh(s, ids);
  }

  lemma RisingIsFresh(s: State, ids: seq<Id>)
    requires Rising(ids)
    ensures AllFresh(s, ids) <==> Untouched(s, Docs(s.stream, ids))
  {
    forall id | id in Docs(s.stream, ids) ensures Count(Docs(s.stream, ids), id) == 1 {
      RisingDocsOnce(s.stream, ids, id);
    }
    if Untouched(s, Docs(s.stream, ids)) {
      forall id | id in Docs(s.stream, ids) ensures Fresh(s, ids, id) {
      }
    }
    if AllFresh(s, ids) {
      forall id | id in Docs(s.stream, ids) ensures Fresh(s, ids, id) {
      }
    }
  }

  // Neither stored nor held by any loop.
  ghost predicate Untouched(s: State, docs: seq<Id>) {
    forall id {:trigger s.stored[id]} :: id in docs ==>
      s.stored[id] == 0 && forall k {:trigger Held(s, k, id)} :: Held(s, k, id) == 0
  }

  // The pending messages from one position up to another.
  function Between(pending: set<Id>, at: nat, upTo: nat): set<Id> {
    set id | id in pending && at <= id < upTo
  }

  // All of as many pending messages as are looked at are recent, and there is one more behind them.
  ghost predicate Hidden(at: nat, cut: nat, end: nat, pending: set<Id>, recent: set<Id>, attempts: nat) {
    at <= cut < end && cut in pending && Between(pending, at, cut) <= recent && |Between(pending, at, cut)| == attempts
  }

  /** A claim comes back empty with a cursor exactly when every message it looked at is recent and more are pending. */
  lemma {:induction false} EmptyWithCursorExactly(at: nat, end: nat, pending: set<Id>, recent: set<Id>, attempts: nat,
                                                  count: nat, cut: nat)
    requires at <= end && count > 0
    ensures AutoClaim(at, end, pending, recent, attempts, count) == ([], Some(cut))
       <==> Hidden(at, cut, end, pending, recent, attempts)
    decreases end - at
  {
    if at != end {
      if at !in pending {
        EmptyWithCursorExactly(at + 1, end, pending, recent, attempts, count, cut);
        assert at < cut ==> Between(pending, at, cut) == Between(pending, at + 1, cut);
      } else if attempts == 0 {
        assert at < cut ==> at in Between(pending, at, cut);
        assert Between(pending, at, at) == {};
      } else {
        EmptyWithCursorExactly(at + 1, end, pending, recent, attempts - 1, count, cut);
        assert at < cut ==> Between(pending, at, cut) == Between(pending, at + 1, cut) + {at};
        assert cut <= at ==> Between(pending, at, cut) == {};
      }
    }
  }

  // --- Redis and the store ---

  // A failed unordered insert still stores those of its documents that are among reached.
  datatype Inserted = Stored | Failed(reached: multiset<Id>)

  function Landed(batch: seq<Id>, outcome: Inserted): multiset<Id> {
    if outcome.Stored? then multiset(batch) else outcome.reached * multiset(batch)
  }

  class Backend {
    var stream: seq<bool>
    var delivered: nat
    var pending: set<Id>
    var stored: multiset<Id>

    // The steps everyone has taken so far, and where they lead.
    ghost var run: seq<Step>
    ghost var view: State

    ghost predicate Traced()
      reads `run, `view
    {
      Possible(run) && view == Reached(run)
    }

    ghost predicate Valid()
      reads this
    {
      Traced() && view.stream == stream && view.delivered == delivered && view.pending == pending &&
      view.stored == stored
    }

    constructor ()
      ensures Valid() && view == INIT
    {
      stream, delivered, pending, stored, run, view := [], 0, {}, multiset{}, [], INIT;
    }

    ghost method Record(step: Step)
      requires Traced() && Enabled(view, step)
      modifies `run, `view
      ensures Traced() && run == old(run) + [step] && view == After(old(view), step)
    {
      run, view := run + [step], After(view, step);
      assert run[..|run| - 1] == old(run);
    }

    // XADD by a gateway.
    method Publish(decodable: bool)
      requires Valid()
      modifies this
      ensures Valid() && view == After(old(view), Step.Publish(decodable))
      ensures run == old(run) + [Step.Publish(decodable)]
    {
      Record(Step.Publish(decodable));
      stream := stream + [decodable];
    }

    // XREADGROUP whose reply never arrives.
    method LoseRead(l: Loop, got: seq<Id>)
      requires Valid() && Enabled(view, ReadLost(l, got))
      modifies this
      ensures Valid() && view == After(old(view), ReadLost(l, got)) && run == old(run) + [ReadLost(l, got)]
    {
      Record(ReadLost(l, got));
      delivered := delivered + |got|;
      pending := pending + set id | id in got;
    }

    // XREADGROUP: the next messages nobody was given yet.
    method ReadGroup(l: Loop, got: seq<Id>)
      requires Valid() && Enabled(view, Read(l, got))
      modifies this
      ensures Valid() && view == After(old(view), Read(l, got)) && run == old(run) + [Read(l, got)]
    {
      Record(Read(l, got));
      delivered := delivered + |got|;
      pending := pending + set id | id in got;
    }

    // XAUTOCLAIM.
    method Claim(l: Loop, start: Id, recent: set<Id>) returns (ids: seq<Id>, next: Option<Id>)
      requires Valid() && l.reclaims && view.Buf(l) == EMPTY && start <= delivered
      modifies `run, `view
      ensures Valid() && view == After(old(view), Step.Claim(l, ids)) && run == old(run) + [Step.Claim(l, ids)]
      ensures (ids, next) == AutoClaim(start, delivered, pending, recent, SCAN_LIMIT, READ_COUNT)
    {
      var r := AutoClaim(start, delivered, pending, recent, SCAN_LIMIT, READ_COUNT);
      ids, next := r.0, r.1;
      Record(Step.Claim(l, ids));
    }

    method InsertMany(l: Loop, batch: seq<Id>, outcome: Inserted) returns (ok: bool)
      requires Valid() && batch != [] && view.Buf(l).batch == batch && view.Buf(l).ids != [] && !view.Buf(l).inserted
      modifies `stored, `run, `view
      ensures Valid() && ok == outcome.Stored? && view == After(old(view), Insert(l, ok, Landed(batch, outcome)))
      ensures run == old(run) + [Insert(l, ok, Landed(batch, outcome))]
    {
      ok := outcome.Stored?;
      Record(Insert(l, ok, Landed(batch, outcome)));
      stored := stored + Landed(batch, outcome);
    }

    // XACK either takes effect or does not; an error says nothing about which.
    method Ack(l: Loop, ids: seq<Id>, applied: bool)
      requires Valid() && view.Buf(l).inserted && view.Buf(l).ids == ids
      modifies `pending, `run, `view
      ensures Valid() && view == After(old(view), Step.Ack(l, applied)) && run == old(run) + [Step.Ack(l, applied)]
    {
      Record(Step.Ack(l, applied));
      if applied {
        pending := pending - set id | id in ids;
      }
    }
  }

  // --- the loops ---

  datatype Outcome = Outcome(insert: Inserted, ackApplied: bool)

  const GOOD := Outcome(Stored, true)

  // A read may fail although Redis has handed messages out.
  datatype Reply = ReadFailed(n: nat) | NoMessages | Messages(n: nat)

  // How many messages a read takes off the stream.
  function Taken(reply: Reply): nat {
    if reply.NoMessages? then 0 else reply.n
  }

  // The steps of one flush of a buffer.
  function FlushSteps(l: Loop, batch: seq<Id>, ids: seq<Id>, outcome: Outcome): seq<Step> {
    if ids == [] then []
    else if batch != [] && outcome.insert.Failed? then [Insert(l, false, Landed(batch, outcome.insert))]
    else [Insert(l, true, multiset(batch)), Step.Ack(l, outcome.ackApplied)]
  }

  // Those of a read and what follows it.
  function TakeSteps(l: Loop, stream: seq<bool>, got: seq<Id>, batch: seq<Id>, ids: seq<Id>,
                     after: Outcome): seq<Step>
  {
    var docs, held := batch + Docs(stream, got), ids + got;
    var full := |docs| >= FLUSH_SIZE || |held| >= FLUSH_SIZE;
    [Read(l, got)] + if full then FlushSteps(l, docs, held, after) else []
  }

  function ReadSteps(l: Loop, stream: seq<bool>, got: seq<Id>, batch: seq<Id>, ids: seq<Id>, reply: Reply,
                     after: Outcome): seq<Step>
  {
    match reply
    case NoMessages => FlushSteps(l, batch, ids, after)
    case ReadFailed(_) => [ReadLost(l, got)] + FlushSteps(l, batch, ids, after)
    case Messages(_) => TakeSteps(l, stream, got, batch, ids, after)
  }

  // Those of a turn of the read loop.
  function TurnSteps(l: Loop, stream: seq<bool>, got: seq<Id>, batch: seq<Id>, ids: seq<Id>, ticked: bool,
                     onTick: Outcome, reply: Reply, after: Outcome): seq<Step>
  {
    if ticked then FlushSteps(l, batch, ids, onTick) + ReadSteps(l, stream, got, [], [], reply, after)
    else ReadSteps(l, stream, got, batch, ids, reply, after)
  }

  lemma Appended(run: seq<Step>, a: seq<Step>, b: seq<Step>)
    ensures run + a + b == run + (a + b)
  {
  }

  class LogLoop {
    const me: Loop
    const backend: Backend
    var batch: seq<Id>
    var ids: seq<Id>

    ghost predicate Valid()
      reads this, backend
    {
      backend.Valid() && backend.view.Buf(me) == Buffer(batch, ids, false) && (ids == [] ==> batch == [])
    }

    constructor (me: Loop, backend: Backend)
      requires backend.Valid() && backend.view.Buf(me) == EMPTY
      ensures Valid() && this.me == me && this.backend == backend && ids == []
    {
      this.me, this.backend, batch, ids := me, backend, [], [];
    }

    // Writes the batch, if there is one.
    method Write(outcome: Inserted) returns (ok: bool)
      requires Valid() && ids != []
      modifies backend`stored, backend`run, backend`view
      ensures backend.Valid() && ok == (outcome.Stored? || batch == [])
      ensures backend.view.Buf(me) == if ok then Buffer(batch, ids, true) else EMPTY
      ensures backend.stored == old(backend.stored) + Landed(batch, outcome)
      ensures backend.run == old(backend.run) + [Insert(me, ok, if ok then multiset(batch) else Landed(batch, outcome))]
    {
      if batch != [] {
        ok := backend.InsertMany(me, batch, outcome);
      } else {
        backend.Record(Insert(me, true, multiset{}));
        ok := true;
      }
    }

    /**
     Writes the batch, then acknowledges. The buffer is empty afterwards whatever happened; nothing is
     acknowledged unless the whole batch was stored.
     */
    method Flush(outcome: Outcome)
      requires Valid()
      modifies this, backend`stored, backend`pending, backend`run, backend`view
      ensures Valid() && ids == []
      ensures backend.stored == old(backend.stored) + Landed(old(batch), outcome.insert)
      ensures
        var acked := (outcome.insert.Stored? || old(batch) == []) && outcome.ackApplied;
        backend.pending == old(backend.pending) - if acked then set id | id in old(ids) else {}
      ensures backend.run == old(backend.run) + FlushSteps(me, old(batch), old(ids), outcome)
    {
      if ids == [] {
        return;
      }
      WriteAndAck(outcome);
      batch, ids := [], [];
    }

    method WriteAndAck(outcome: Outcome)
      requires Valid() && ids != []
      modifies backend`stored, backend`pending, backend`run, backend`view
      ensures backend.Valid() && backend.view.Buf(me) == EMPTY
      ensures backend.stored == old(backend.stored) + Landed(batch, outcome.insert)
      ensures
        var acked := (outcome.insert.Stored? || batch == []) && outcome.ackApplied;
        backend.pending == old(backend.pending) - if acked then set id | id in ids else {}
      ensures backend.run == old(backend.run) + FlushSteps(me, batch, ids, outcome)
    {
      var ok := Write(outcome.insert);
      if ok {
        Acknowledge(outcome.ackApplied);
        Appended(old(backend.run), [Insert(me, true, multiset(batch))], [Step.Ack(me, outcome.ackApplied)]);
      }
    }

    method Acknowledge(applied: bool)
      requires backend.Valid() && backend.view.Buf(me) == Buffer(batch, ids, true)
      modifies backend`pending, backend`run, backend`view
      ensures backend.Valid() && backend.view.Buf(me) == EMPTY
      ensures backend.pending == old(backend.pending) - if applied then set id | id in ids else {}
      ensures backend.run == old(backend.run) + [Step.Ack(me, applied)]
    {
      backend.Ack(me, ids, applied);
    }

    method FlushIf(due: bool, outcome: Outcome)
      requires Valid()
      modifies this, backend`stored, backend`pending, backend`run, backend`view
      ensures Valid() && (batch, ids) == if due then ([], []) else (old(batch), old(ids))
      ensures backend.run == old(backend.run) + if due then FlushSteps(me, old(batch), old(ids), outcome) else []
    {
      if due {
        Flush(outcome);
      }
    }

    // Decodes what was read; every id is kept so that it gets acknowledged, decodable or not.
    method Append(got: seq<Id>)
      requires forall id :: id in got ==> id < |backend.stream|
      modifies this`batch, this`ids
      ensures batch == old(batch) + Docs(backend.stream, got) && ids == old(ids) + got
    {
      for i := 0 to |got|
        invariant batch == old(batch) + Docs(backend.stream, got[..i]) && ids == old(ids) + got[..i]
      {
        assert got[..i + 1][..i] == got[..i] && got[i] in got;
        if backend.stream[got[i]] {
          batch := batch + [got[i]];
        }
        ids := ids + [got[i]];
      }
      assert got[..|got|] == got;
    }

    method Receive(got: seq<Id>)
      requires Valid() && Enabled(backend.view, Read(me, got))
      modifies this`batch, this`ids, backend
      ensures Valid() && ids == old(ids) + got && batch == old(batch) + Docs(backend.stream, got)
      ensures backend.delivered == old(backend.delivered) + |got| && backend.stream == old(backend.stream)
      ensures backend.run == old(backend.run) + [Read(me, got)]
    {
      backend.ReadGroup(me, got);
      Append(got);
    }

    // The reply never came; what is in the buffer is flushed.
    method LoseAndFlush(got: seq<Id>, after: Outcome)
      requires Valid() && Enabled(backend.view, ReadLost(me, got))
      modifies this, backend
      ensures Valid() && ids == [] && backend.delivered == old(backend.delivered) + |got|
      ensures backend.run == old(backend.run) + ([ReadLost(me, got)] + FlushSteps(me, old(batch), old(ids), after))
    {
      backend.LoseRead(me, got);
      Appended(old(backend.run), [ReadLost(me, got)], FlushSteps(me, batch, ids, after));
      Flush(after);
    }

    // What came is buffered, and a full buffer flushed.
    method TakeAndFlush(got: seq<Id>, after: Outcome)
      requires Valid() && Enabled(backend.view, Read(me, got))
      modifies this, backend
      ensures Valid() && |ids| < FLUSH_SIZE && backend.delivered == old(backend.delivered) + |got|
      ensures backend.run == old(backend.run) + TakeSteps(me, old(backend.stream), got, old(batch), old(ids), after)
    {
      Receive(got);
      var full := |batch| >= FLUSH_SIZE || |ids| >= FLUSH_SIZE;
      Appended(old(backend.run), [Read(me, got)], if full then FlushSteps(me, batch, ids, after) else []);
      FlushIf(full, after);
    }

    // A read, and a flush when nothing came or the buffer is full.
    method ReadAndFlush(got: seq<Id>, reply: Reply, after: Outcome)
      requires Valid() && !me.reclaims && |ids| < FLUSH_SIZE && |got| == Taken(reply) && IsNext(backend.view, got)
      modifies this, backend
      ensures Valid() && |ids| < FLUSH_SIZE && (!reply.Messages? ==> ids == [])
      ensures backend.delivered == old(backend.delivered) + Taken(reply)
      ensures backend.run ==
                old(backend.run) + ReadSteps(me, old(backend.stream), got, old(batch), old(ids), reply, after)
    {
      assert backend.view.Buf(me).ids == ids;
      if reply.Messages? {
        TakeAndFlush(got, after);
      } else if reply.ReadFailed? {
        LoseAndFlush(got, after);
      } else {
        Flush(after);
      }
    }

    // A flush when the ticker says so, and a read.
    method TickAndRead(got: seq<Id>, ticked: bool, onTick: Outcome, reply: Reply, after: Outcome)
      requires Valid() && !me.reclaims && |ids| < FLUSH_SIZE && |got| == Taken(reply) && IsNext(backend.view, got)
      modifies this, backend
      ensures Valid() && |ids| < FLUSH_SIZE && (!reply.Messages? ==> ids == [])
      ensures backend.delivered == old(backend.delivered) + Taken(reply)
      ensures backend.run == old(backend.run) +
                             TurnSteps(me, old(backend.stream), got, old(batch), old(ids), ticked, onTick, reply, after)
    {
      if ticked {
        ghost var before, flushed := backend.run, FlushSteps(me, batch, ids, onTick);
        ghost var read := ReadSteps(me, backend.stream, got, [], [], reply, after);
        Flush(onTick);
        ReadAndFlush(got, reply, after);
        Appended(before, flushed, read);
      } else {
        ReadAndFlush(got, reply, after);
      }
    }

    /**
     One turn of the read loop: on shutdown flush and end; otherwise flush on the tick, read, and flush when the buffer
     is full or nothing came. The next turn starts with less than a full buffer, so a read never fills it past
     flushSize + readCount - 1.
     */
    method ReadTurn(stopping: bool, ticked: bool, onTick: Outcome, reply: Reply, after: Outcome) returns (goesOn: bool)
      requires Valid() && !me.reclaims && |ids| < FLUSH_SIZE
      requires Taken(reply) <= READ_COUNT && backend.delivered + Taken(reply) <= |backend.stream|
      modifies this, backend
      ensures Valid() && |ids| < FLUSH_SIZE && (!goesOn || !reply.Messages? ==> ids == []) && goesOn == !stopping
      ensures backend.delivered == old(backend.delivered) + if stopping then 0 else Taken(reply)
      ensures
        var got := Range(old(backend.delivered), old(backend.delivered) + Taken(reply));
        backend.run == old(backend.run) +
          if stopping then FlushSteps(me, old(batch), old(ids), after)
          else TurnSteps(me, old(backend.stream), got, old(batch), old(ids), ticked, onTick, reply, after)
    {
      if stopping {
        Flush(after);
        return false;
      }
      TickAndRead(Range(backend.delivered, backend.delivered + Taken(reply)), ticked, onTick, reply, after);
      return true;
    }

    // One page of a reclaim pass: claim, decode, flush.
    method ReclaimPage(start: Id, recent: set<Id>, outcome: Outcome) returns (got: seq<Id>, next: Option<Id>)
      requires Valid() && me.reclaims && ids == [] && start <= backend.delivered
      modifies this, backend`stored, backend`pending, backend`run, backend`view
      ensures Valid() && ids == [] && (got, next) ==
                AutoClaim(start, backend.delivered, old(backend.pending), recent, SCAN_LIMIT, READ_COUNT)
      ensures backend.pending <= old(backend.pending)
      ensures outcome == GOOD ==> backend.pending == old(backend.pending) - set id | id in got
      ensures backend.run ==
        old(backend.run) + [Step.Claim(me, got)] + FlushSteps(me, Docs(backend.stream, got), got, outcome)
    {
      EveryRunKeeps(backend.run);
      got, next := backend.Claim(me, start, recent);
      Append(got);
      Flush(outcome);
    }

    /**
     A pass over the pending list, page by page. It always ends. When every page is claimed, stored and acknowledged,
     what is left was recent when it was looked at, or lies behind a page of recent messages at which the pass gave up;
     and all that is gone was idle.
     */
    method ReclaimPass(pages: nat -> Page) returns (used: nat, cursor: Option<Id>)
      requires Valid() && me.reclaims && ids == []
      modifies this, backend`stored, backend`pending, backend`run, backend`view
      ensures Valid() && ids == [] && backend.pending <= old(backend.pending)
      ensures AllGood(pages) ==>
        Swept(pages, used, UpTo(backend.delivered, cursor), old(backend.pending), backend.pending)
      ensures AllGood(pages) && cursor.Some? ==> GaveUp(pages, used, cursor.value, backend.delivered, backend.pending)
    {
      var start: nat;
      start, used, cursor := 0, 0, None;
      ghost var all := backend.pending;
      while true
        invariant Valid() && ids == [] && start <= backend.delivered && backend.pending <= all
        invariant AllGood(pages) ==> Swept(pages, used, start, all, backend.pending)
        decreases backend.delivered - start
      {
        var page := pages(used);
        if page.ClaimFailed? {
          return;
        }
        ghost var before := backend.pending;
        var got, next := ReclaimPage(start, page.recent, page.outcome);
        used := used + 1;
        PageDone(pages, used, start, backend.delivered, all, before, backend.pending, got, next);
        if got == [] {
          cursor := next;
          return;
        }
        if next == None {
          return;
        }
        start := next.value;
      }
    }
  }

  // What a page of a reclaim pass meets: which pending messages were delivered too recently to claim.
  datatype Page = ClaimFailed | Claimed(recent: set<Id>, outcome: Outcome)

  ghost predicate AllGood(pages: nat -> Page) {
    forall p {:trigger pages(p)} :: pages(p).Claimed? && pages(p).outcome == GOOD
  }

  // One of the first n pages found the message recent, or idle.
  ghost predicate SeenAs(pages: nat -> Page, n: nat, id: Id, recent: bool) {
    exists p: nat {:trigger pages(p)} :: p < n && pages(p).Claimed? && (id in pages(p).recent <==> recent)
  }

  // Below the position only recent messages are left, and only idle ones below it are gone.
  ghost predicate Swept(pages: nat -> Page, n: nat, upTo: nat, before: set<Id>, left: set<Id>) {
    forall id {:trigger id in before} {:trigger id in left} :: id in before ==>
      if id in left then id < upTo ==> SeenAs(pages, n, id, true) else id < upTo && SeenAs(pages, n, id, false)
  }

  // The last page found nothing to claim among as many messages as one claim looks at, with more behind them.
  ghost predicate GaveUp(pages: nat -> Page, n: nat, cursor: Id, delivered: nat, left: set<Id>) {
    n > 0 && pages(n - 1).Claimed? &&
    exists start: nat {:trigger Between(left, start, cursor)} ::
      Hidden(start, cursor, delivered, left, pages(n - 1).recent, SCAN_LIMIT)
  }

  // One more page.
  lemma PageDone(pages: nat -> Page, n: nat, start: nat, end: nat, all: set<Id>, before: set<Id>, left: set<Id>,
                 got: seq<Id>, next: Option<Id>)
    requires n > 0 && start <= end && pages(n - 1).Claimed? && before <= all
    requires (got, next) == AutoClaim(start, end, before, pages(n - 1).recent, SCAN_LIMIT, READ_COUNT)
    requires pages(n - 1).outcome == GOOD ==> left == before - set id | id in got
    ensures start <= UpTo(end, next) <= end && (got != [] ==> start < UpTo(end, next))
    ensures AllGood(pages) && Swept(pages, n - 1, start, all, before) ==> Swept(pages, n, UpTo(end, next), all, left)
    ensures AllGood(pages) && got == [] && next.Some? ==> GaveUp(pages, n, next.value, end, left)
  {
    var recent := pages(n - 1).recent;
    AutoClaimCovers(start, end, before, recent, SCAN_LIMIT, READ_COUNT);
    if got != [] {
      assert got[0] in got;
    }
    if AllGood(pages) {
      assert pages(n - 1).outcome == GOOD;
      if Swept(pages, n - 1, start, all, before) {
        SweptOn(pages, n, start, UpTo(end, next), all, before, left, got);
      }
      if got == [] && next.Some? {
        EmptyWithCursorExactly(start, end, before, recent, SCAN_LIMIT, READ_COUNT, next.value);
        assert left == before;
      }
    }
  }

  lemma SweptOn(pages: nat -> Page, n: nat, start: nat, upTo: nat, all: set<Id>, before: set<Id>, left: set<Id>,
                got: seq<Id>)
    requires n > 0 && start <= upTo && pages(n - 1).Claimed? && before <= all && left == before - set id | id in got
    requires Swept(pages, n - 1, start, all, before)
    requires forall id: Id {:trigger id in got} ::
               id in got <==> id in before && id !in pages(n - 1).recent && start <= id < upTo
    ensures Swept(pages, n, upTo, all, left)
  {
    forall id | id in all
      ensures if id in left then id < upTo ==> SeenAs(pages, n, id, true) else id < upTo && SeenAs(pages, n, id, false)
    {
      if id in before {
        assert start <= id < upTo ==> SeenAs(pages, n, id, id in pages(n - 1).recent);
      }
      assert SeenAs(pages, n - 1, id, true) ==> SeenAs(pages, n, id, true);
      assert SeenAs(pages, n - 1, id, false) ==> SeenAs(pages, n, id, false);
    }
  }

  lemma GaveUpOnRecent(pages: nat -> Page, n: nat, cursor: Id, end: nat, left: set<Id>) returns (id: Id)
    requires GaveUp(pages, n, cursor, end, left)
    ensures id in left && id in pages(n - 1).recent
  {
    var start: nat :| Hidden(start, cursor, end, left, pages(n - 1).recent, SCAN_LIMIT);
    id :| id in Between(left, start, cursor);
  }

  /**
   When the pages agree on what is recent, a good pass leaves nothing pending exactly when nothing pending was recent.
   */
  lemma LeavesNothingExactly(pages: nat -> Page, n: nat, end: nat, cursor: Option<Id>, all: set<Id>, left: set<Id>,
                             recent: set<Id>)
    requires left <= all && forall id :: id in all ==> id < end
    requires forall p: nat {:trigger pages(p)} :: p < n ==> pages(p).Claimed? && pages(p).recent == recent
    requires Swept(pages, n, UpTo(end, cursor), all, left)
    requires cursor.Some? ==> GaveUp(pages, n, cursor.value, end, left)
    ensures left == {} <==> recent !! all
  {
    if cursor.Some? {
      var id := GaveUpOnRecent(pages, n, cursor.value, end, left);
      assert id in recent && id in all;
    }
    assert forall id :: id in left ==> id in all;
    if id :| id in recent && id in all {
      assert id in left ==> left != {};
    }
  }

  function FirstIds(n: nat): (ids: set<Id>)
    ensures |ids| == n && forall id: Id :: id in ids <==> id < n
  {
    if n == 0 then {} else FirstIds(n - 1) + {n - 1}
  }

  /** Recent messages hide an idle one: as many of them as one claim looks at, and the pass ends at its first page. */
  lemma RecentHidesIdle() returns (pending: set<Id>, recent: set<Id>, idle: Id)
    ensures idle in pending && idle !in recent
    ensures AutoClaim(0, idle + 1, pending, recent, SCAN_LIMIT, READ_COUNT) == ([], Some(idle))
  {
    idle := SCAN_LIMIT;
    recent := FirstIds(idle);
    pending := recent + {idle};
    assert Between(pending, 0, idle) == recent;
    EmptyWithCursorExactly(0, idle + 1, pending, recent, SCAN_LIMIT, READ_COUNT, idle);
  }

  // --- what a turn of the read loop does ---

  predicate IsReading(step: Step) {
    step.Read? || step.ReadLost?
  }

  /**
   A turn on a tick writes what is buffered, then acknowledges it if all of it was stored, and only then reads.
   */
  lemma TickWritesFirst(l: Loop, stream: seq<bool>, got: seq<Id>, batch: seq<Id>, ids: seq<Id>, onTick: Outcome,
                        reply: Reply, after: Outcome)
    requires ids != []
    ensures
      var steps := TurnSteps(l, stream, got, batch, ids, true, onTick, reply, after);
      var ok := batch == [] || onTick.insert == Stored;
      |steps| >= 1 &&
      (ok ==> |steps| >= 2 && steps[0] == Insert(l, true, multiset(batch)) &&
              steps[1] == Step.Ack(l, onTick.ackApplied)) &&
      (!ok ==> steps[0].Insert? && !steps[0].ok && steps[0].landed <= multiset(batch)) &&
      forall i {:trigger steps[i]} :: 0 <= i < |steps| && IsReading(steps[i]) ==> i >= if ok then 2 else 1
  {
  }

  /**
   Every turn reads once, unless there is nothing to read; what it read stays buffered exactly when the reply came and
   the buffer is not full, and otherwise everything buffered is written in the same turn.
   */
  lemma TurnReadsOnce(l: Loop, stream: seq<bool>, got: seq<Id>, batch: seq<Id>, ids: seq<Id>, ticked: bool,
                      onTick: Outcome, reply: Reply, after: Outcome) returns (at: nat)
    requires |batch| <= |ids|
    ensures
      var steps := TurnSteps(l, stream, got, batch, ids, ticked, onTick, reply, after);
      var (docs, held) := if ticked then ([], []) else (batch, ids);
      at <= |steps| && (forall i :: 0 <= i < |steps| && IsReading(steps[i]) ==> i == at) &&
      match reply
      case NoMessages => at == |steps|
      case ReadFailed(_) => at < |steps| && steps[at] == ReadLost(l, got) && (held == [] <==> at + 1 == |steps|)
      case Messages(_) =>
        at < |steps| && steps[at] == Read(l, got) &&
        (at + 1 == |steps| <==> |docs + Docs(stream, got)| < 100 && |held + got| < 100)
  {
    at := if ticked then |FlushSteps(l, batch, ids, onTick)| else 0;
    if reply.NoMessages? {
      at := |TurnSteps(l, stream, got, batch, ids, ticked, onTick, reply, after)|;
    }
  }
}
