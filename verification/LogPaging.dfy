/**
 Paging through the stored logs, newest first. The collection holds its logs in any order; ids are unique. Times are
 in milliseconds.
 */
module LogPaging {
  import opened GoStrings
  import opened Decimal
  import opened ObjectIds

  type Millis = t: int | MIN_INT64 <= t <= MAX_INT64 witness 0

  datatype Position = Position(time: Millis, id: ObjectId)

  datatype Log = Log(at: Position, userId: string, serviceId: string)

  // a comes before b in the listing.
  predicate Newer(a: Position, b: Position) {
    a.time > b.time || (a.time == b.time && a.id > b.id)
  }

  ghost predicate Listed(logs: seq<Log>) {
    forall i, j {:trigger logs[i], logs[j]} :: 0 <= i < j < |logs| ==> Newer(logs[i].at, logs[j].at)
  }

  /** A listing goes back in time, and from the greater id to the smaller at one time. */
  lemma ListedGoesBack(logs: seq<Log>, i: nat, j: nat)
    requires Listed(logs) && i < j < |logs|
    ensures logs[i].at.time >= logs[j].at.time
    ensures logs[i].at.time == logs[j].at.time ==> logs[i].at.id > logs[j].at.id
  {
    assert Newer(logs[i].at, logs[j].at);
  }

  // --- cursors ---

  function EncodeLogCursor(at: Position): string {
    FormatInt(at.time) + "_" + Hex(at.id, 24)
  }

  function DecodeLogCursor(raw: string): Option<Position> {
    var cut := IndexOfChar(raw, '_');
    if cut == -1 then None
    else
      match (ParseInt(raw[..cut]), ParseObjectId(raw[cut + 1..]))
      case (Some(ms), Some(id)) => if InInt64(ms) then Some(Position(ms, id)) else None
      case _ => None
  }

  lemma {:induction false} CutAt(a: string, c: char, b: string)
    requires c !in a
    ensures IndexOfChar(a + [c] + b, c) == |a|
  {
    if a == "" {
      assert (a + [c] + b)[0] == c;
    } else {
      assert a[0] in a;
      CutAt(a[1..], c, b);
      assert (a + [c] + b)[1..] == a[1..] + [c] + b;
    }
  }

  /** A cursor read back is the position it was made from. */
  lemma CursorRoundTrip(at: Position)
    ensures DecodeLogCursor(EncodeLogCursor(at)) == Some(at)
  {
    var time, id := FormatInt(at.time), Hex(at.id, 24);
    ParseFormatInt(at.time);
    ObjectIdWidth();
    UnHexHex(at.id, 24);
    CutAt(time, '_', id);
    var raw := EncodeLogCursor(at);
    assert raw == time + ['_'] + id;
    assert raw[..|time|] == time && raw[|time| + 1..] == id;
  }

  // --- the query ---

  const DEFAULT_RANGE: int := 24 * 60 * 60 * 1000
  const MAX_RANGE: int := 90 * 24 * 60 * 60 * 1000
  const MAX_LIMIT: int := 100

  // An empty userId or serviceId does not filter.
  datatype Query = Query(from: Option<int>, to: Option<int>, userId: string, serviceId: string, limit: int,
                         cursor: Option<Position>)

  datatype Actor = Actor(id: string, role: string)

  function Scope(q: Query, actor: Option<Actor>): Query {
    match actor
    case None => q.(userId := "-")
    case Some(a) => if a.role != "root" && a.role != "admin" then q.(userId := a.id) else q
  }

  function NormalizeRange(q: Query, now: int): Option<Query> {
    var to := if q.to.Some? then q.to.value else now;
    var from := if q.from.Some? then q.from.value else to - DEFAULT_RANGE;
    if to <= from then None
    else Some(q.(to := Some(to), from := Some(if to - from > MAX_RANGE then to - MAX_RANGE else from)))
  }

  predicate Matches(q: Query, log: Log) {
    (q.from.Some? ==> log.at.time >= q.from.value) && (q.to.Some? ==> log.at.time <= q.to.value) &&
    (q.userId != "" ==> log.userId == q.userId) && (q.serviceId != "" ==> log.serviceId == q.serviceId)
  }

  function Filter(logs: seq<Log>, keep: Log -> bool): seq<Log> {
    if logs == [] then []
    else (if keep(logs[0]) then [logs[0]] else []) + Filter(logs[1..], keep)
  }

  function InsertLog(log: Log, logs: seq<Log>): seq<Log> {
    if logs == [] then [log]
    else if Newer(log.at, logs[0].at) then [log] + logs
    else [logs[0]] + InsertLog(log, logs[1..])
  }

  // Sorted by time and then id, both descending.
  function Newest(logs: seq<Log>): seq<Log> {
    if logs == [] then [] else InsertLog(logs[0], Newest(logs[1..]))
  }

  // What a query lists.
  function Matching(db: seq<Log>, q: Query): seq<Log> {
    Newest(Filter(db, log => Matches(q, log)))
  }

  predicate Past(cursor: Option<Position>, log: Log) {
    cursor == None || Newer(cursor.value, log.at)
  }

  // What is listed after the cursor.
  function Rest(logs: seq<Log>, cursor: Option<Position>): seq<Log> {
    Filter(logs, log => Past(cursor, log))
  }

  function Take<T>(s: seq<T>, n: nat): seq<T> {
    if n <= |s| then s[..n] else s
  }

  // The database filters by the query and the cursor, sorts, and cuts off.
  function FindLogs(db: seq<Log>, q: Query, limit: nat): seq<Log> {
    Take(Newest(Filter(db, log => Matches(q, log) && Past(q.cursor, log))), limit)
  }

  lemma {:induction false} FilterKeeps(logs: seq<Log>, keep: Log -> bool)
    requires Listed(logs)
    ensures Listed(Filter(logs, keep)) && forall log :: log in Filter(logs, keep) <==> log in logs && keep(log)
  {
    if logs != [] {
      assert forall i :: 0 <= i < |logs[1..]| ==> logs[1..][i] == logs[i + 1];
      FilterKeeps(logs[1..], keep);
      var rest := Filter(logs[1..], keep);
      forall i | 0 <= i < |rest| ensures Newer(logs[0].at, rest[i].at) {
        assert rest[i] in logs[1..];
        var k :| 0 <= k < |logs[1..]| && logs[1..][k] == rest[i];
        assert Newer(logs[0].at, logs[k + 1].at);
      }
      assert logs == [logs[0]] + logs[1..];
    }
  }

  lemma ListedTail(logs: seq<Log>)
    requires Listed(logs) && logs != []
    ensures Listed(logs[1..])
    ensures forall log {:trigger log in logs[1..]} :: log in logs[1..] <==> log in logs && log != logs[0]
  {
    var t := logs[1..];
    assert forall i :: 0 <= i < |t| ==> t[i] == logs[i + 1];
    assert logs == [logs[0]] + t;
  }

  // Only the first of a list comes before all others.
  lemma SameFirst(a: seq<Log>, b: seq<Log>)
    requires Listed(a) && Listed(b) && a != [] && b != [] && a[0] in b && b[0] in a
    ensures a[0] == b[0]
  {
    var i :| 0 <= i < |b| && b[i] == a[0];
    var j :| 0 <= j < |a| && a[j] == b[0];
    assert i > 0 ==> Newer(b[0].at, b[i].at);
    assert j > 0 ==> Newer(a[0].at, a[j].at);
  }

  lemma {:induction false} SameMembers(a: seq<Log>, b: seq<Log>)
    requires Listed(a) && Listed(b)
    requires forall log :: log in a <==> log in b
    ensures a == b
  {
    if b != [] {
      assert b[0] in b;
    }
    if a != [] {
      assert a[0] in a && a[0] in b && b[0] in b;
      SameFirst(a, b);
      ListedTail(a);
      ListedTail(b);
      SameMembers(a[1..], b[1..]);
      assert a == [a[0]] + a[1..] && b == [b[0]] + b[1..];
    }
  }

  // Ids are unique.
  ghost predicate Unique(logs: seq<Log>) {
    forall i, j {:trigger logs[i], logs[j]} :: 0 <= i < j < |logs| ==> logs[i].at != logs[j].at
  }

  lemma {:induction false} FilterMembers(logs: seq<Log>, keep: Log -> bool)
    ensures forall log {:trigger log in Filter(logs, keep)} :: log in Filter(logs, keep) <==> log in logs && keep(log)
  {
    if logs != [] {
      FilterMembers(logs[1..], keep);
      assert logs == [logs[0]] + logs[1..];
    }
  }

  lemma UniqueTail(logs: seq<Log>)
    requires Unique(logs) && logs != []
    ensures Unique(logs[1..]) && forall log :: log in logs[1..] ==> log.at != logs[0].at
  {
    var t := logs[1..];
    assert forall i :: 0 <= i < |t| ==> t[i] == logs[i + 1];
  }

  lemma {:induction false} FilterUnique(logs: seq<Log>, keep: Log -> bool)
    requires Unique(logs)
    ensures Unique(Filter(logs, keep))
  {
    if logs != [] {
      UniqueTail(logs);
      FilterUnique(logs[1..], keep);
      FilterMembers(logs[1..], keep);
      var rest := Filter(logs[1..], keep);
      assert forall i :: 0 <= i < |rest| ==> rest[i] in rest;
    }
  }

  lemma {:induction false} InsertIsListed(log: Log, logs: seq<Log>)
    requires Listed(logs) && forall x :: x in logs ==> x.at != log.at
    ensures Listed(InsertLog(log, logs))
    ensures forall x {:trigger x in InsertLog(log, logs)} :: x in InsertLog(log, logs) <==> x == log || x in logs
  {
    if logs != [] && !Newer(log.at, logs[0].at) {
      var t := logs[1..];
      assert forall i :: 0 <= i < |t| ==> t[i] == logs[i + 1];
      assert logs == [logs[0]] + t;
      InsertIsListed(log, t);
      var rest := InsertLog(log, t);
      forall i | 0 <= i < |rest| ensures Newer(logs[0].at, rest[i].at) {
        assert rest[i] in rest;
        if rest[i] != log {
          var k :| 0 <= k < |t| && t[k] == rest[i];
          assert logs[k + 1] == t[k];
        }
      }
    } else if logs != [] {
      forall i | 0 <= i < |logs| ensures Newer(log.at, logs[i].at) {
        assert i > 0 ==> Newer(logs[0].at, logs[i].at);
      }
    }
  }

  lemma {:induction false} NewestIsListed(logs: seq<Log>)
    requires Unique(logs)
    ensures Listed(Newest(logs))
    ensures forall log {:trigger log in Newest(logs)} :: log in Newest(logs) <==> log in logs
  {
    if logs != [] {
      UniqueTail(logs);
      NewestIsListed(logs[1..]);
      InsertIsListed(logs[0], Newest(logs[1..]));
      assert logs == [logs[0]] + logs[1..];
    }
  }

  /** What a query lists: the matching logs, newest first. */
  lemma MatchingIsListed(db: seq<Log>, q: Query)
    requires Unique(db)
    ensures Listed(Matching(db, q))
    ensures forall log {:trigger log in Matching(db, q)} :: log in Matching(db, q) <==> log in db && Matches(q, log)
  {
    FilterUnique(db, log => Matches(q, log));
    FilterMembers(db, log => Matches(q, log));
    NewestIsListed(Filter(db, log => Matches(q, log)));
  }

  /** Filtering by the cursor before sorting finds what is listed after it. */
  lemma FoundIsRest(db: seq<Log>, q: Query)
    requires Unique(db)
    ensures Newest(Filter(db, log => Matches(q, log) && Past(q.cursor, log))) == Rest(Matching(db, q), q.cursor)
  {
    var both := (log: Log) => Matches(q, log) && Past(q.cursor, log);
    FilterUnique(db, both);
    FilterMembers(db, both);
    NewestIsListed(Filter(db, both));
    MatchingIsListed(db, q);
    FilterKeeps(Matching(db, q), log => Past(q.cursor, log));
    SameMembers(Newest(Filter(db, both)), Rest(Matching(db, q), q.cursor));
  }

  // --- one page ---

  datatype Page = Page(data: seq<Log>, nextCursor: string)

  function Limit(q: Query): (limit: nat)
    ensures 1 <= limit <= MAX_LIMIT
  {
    if q.limit <= 0 || q.limit > MAX_LIMIT then MAX_LIMIT else q.limit
  }

  // The page after a cursor, and where it ends if more follows.
  function PageAfter(logs: seq<Log>, cursor: Option<Position>, limit: nat): (seq<Log>, Option<Position>)
    requires limit > 0
  {
    var rest := Rest(logs, cursor);
    if |rest| > limit then (rest[..limit], Some(rest[limit - 1].at)) else (rest, None)
  }

  // One log more than fits tells whether another page follows.
  lemma OneMore(logs: seq<Log>, cursor: Option<Position>, limit: nat)
    requires limit > 0
    ensures
      var asked, page := Take(Rest(logs, cursor), limit + 1), PageAfter(logs, cursor, limit);
      if |asked| == limit + 1 then page == (asked[..limit], Some(asked[limit - 1].at)) else page == (asked, None)
  {
    var rest := Rest(logs, cursor);
    assert |rest| > limit ==> Take(rest, limit + 1)[..limit] == rest[..limit];
  }

  function ToPage(p: (seq<Log>, Option<Position>)): Page {
    Page(p.0, if p.1 == None then "" else EncodeLogCursor(p.1.value))
  }

  method FetchPage(db: seq<Log>, q: Query, limit: nat) returns (page: Page)
    requires limit > 0 && Unique(db)
    ensures page == ToPage(PageAfter(Matching(db, q), q.cursor, limit))
  {
    var logs := FindLogs(db, q, limit + 1);
    FoundIsRest(db, q);
    OneMore(Matching(db, q), q.cursor, limit);
    if |logs| == limit + 1 {
      var last := logs[|logs| - 2];
      return Page(logs[..|logs| - 1], EncodeLogCursor(last.at));
    }
    return Page(logs, "");
  }

  // Where the searched range ends, and where it is asked to begin.
  function RangeEnd(q: Query, now: int): int {
    if q.to == None then now else q.to.value
  }

  function RangeStart(q: Query, now: int): int {
    if q.from == None then RangeEnd(q, now) - DEFAULT_RANGE else q.from.value
  }

  // Who may see the log, and wants to.
  predicate Meant(q: Query, actor: Option<Actor>, log: Log) {
    match actor
    case None => log.userId == "-"
    case Some(a) =>
      if a.role in {"root", "admin"} then q.userId in {"", log.userId} else a.id in {"", log.userId}
  }

  /**
   A log that belongs on this page or a later one: visible to the caller, of the service asked for, in the range but
   no further back than the maximum, and older than the cursor.
   */
  predicate Wanted(q: Query, actor: Option<Actor>, now: int, log: Log) {
    Meant(q, actor, log) && q.serviceId in {"", log.serviceId} &&
    RangeStart(q, now) <= log.at.time <= RangeEnd(q, now) && RangeEnd(q, now) - log.at.time <= MAX_RANGE &&
    (q.cursor == None || Newer(q.cursor.value, log.at))
  }

  // Wanted logs, newest first.
  ghost predicate Shows(db: seq<Log>, q: Query, actor: Option<Actor>, now: int, data: seq<Log>) {
    Listed(data) &&
    forall log {:trigger log in data} :: log in data ==> log in db && Wanted(q, actor, now, log)
  }

  ghost predicate ShowsAll(db: seq<Log>, q: Query, actor: Option<Actor>, now: int, data: seq<Log>) {
    forall log {:trigger Wanted(q, actor, now, log)} :: log in db && Wanted(q, actor, now, log) ==> log in data
  }

  // What is wanted and not shown is older than all that is.
  ghost predicate LeavesOlder(db: seq<Log>, q: Query, actor: Option<Actor>, now: int, data: seq<Log>) {
    forall log, shown {:trigger Wanted(q, actor, now, log), shown in data} ::
      log in db && Wanted(q, actor, now, log) && log !in data && shown in data ==> Newer(shown.at, log.at)
  }

  predicate EndsAt(data: seq<Log>, cursor: string) {
    data != [] && DecodeLogCursor(cursor) == Some(data[|data| - 1].at)
  }

  // The newest of the wanted logs, no more than were asked for: all of them, or a full page and a cursor at its end.
  ghost predicate IsPage(db: seq<Log>, q: Query, actor: Option<Actor>, now: int, page: Page) {
    Shows(db, q, actor, now, page.data) && LeavesOlder(db, q, actor, now, page.data) &&
    |page.data| <= 100 && (q.limit > 0 ==> |page.data| <= q.limit) &&
    if page.nextCursor == "" then ShowsAll(db, q, actor, now, page.data)
    else
      |page.data| in {q.limit, 100} && EndsAt(page.data, page.nextCursor) && !ShowsAll(db, q, actor, now, page.data)
  }

  method Logs(db: seq<Log>, q: Query, actor: Option<Actor>, now: int) returns (r: Option<Page>)
    requires Unique(db)
    ensures
      match NormalizeRange(Scope(q, actor), now)
      case None => r == None
      case Some(norm) => r == Some(ToPage(PageAfter(Matching(db, norm), norm.cursor, Limit(q))))
    ensures r == None <==> RangeEnd(q, now) <= RangeStart(q, now)
    ensures r.Some? ==> IsPage(db, q, actor, now, r.value)
  {
    var norm := NormalizeRange(Scope(q, actor), now);
    if norm == None {
      return None;
    }
    var page := FetchPage(db, norm.value, Limit(q));
    PageIsWanted(db, q, actor, now, norm.value);
    return Some(page);
  }

  lemma MatchesIsWanted(q: Query, actor: Option<Actor>, now: int, norm: Query, log: Log)
    requires NormalizeRange(Scope(q, actor), now) == Some(norm)
    ensures Matches(norm, log) && Past(norm.cursor, log) <==> Wanted(q, actor, now, log)
    ensures norm.cursor == q.cursor && Limit(norm) == Limit(q)
  {
  }

  lemma CursorIsText(at: Position)
    ensures EncodeLogCursor(at) != "" && DecodeLogCursor(EncodeLogCursor(at)) == Some(at)
  {
    CursorRoundTrip(at);
  }

  // The first part of a list, and the rest.
  lemma PageParts(rest: seq<Log>, n: nat)
    requires Listed(rest) && n <= |rest|
    ensures Listed(rest[..n])
    ensures forall log :: log in rest <==> log in rest[..n] || log in rest[n..]
    ensures forall a, b :: a in rest[..n] && b in rest[n..] ==> Newer(a.at, b.at) && b !in rest[..n]
  {
    assert rest == rest[..n] + rest[n..];
    forall a, b | a in rest[..n] && b in rest[n..] ensures Newer(a.at, b.at) && b !in rest[..n] {
      var i :| 0 <= i < n && rest[i] == a;
      var j :| 0 <= j < |rest| - n && rest[n..][j] == b;
      assert rest[n + j] == b;
      assert forall k | 0 <= k < n :: Newer(rest[k].at, rest[n + j].at);
    }
  }

  // Exactly the wanted logs, in order.
  ghost predicate AreWanted(db: seq<Log>, q: Query, actor: Option<Actor>, now: int, rest: seq<Log>) {
    Listed(rest) &&
    forall log {:trigger log in rest} {:trigger Wanted(q, actor, now, log)} ::
      log in rest <==> log in db && Wanted(q, actor, now, log)
  }

  lemma RestIsWanted(db: seq<Log>, q: Query, actor: Option<Actor>, now: int, norm: Query)
    requires Unique(db) && NormalizeRange(Scope(q, actor), now) == Some(norm)
    ensures AreWanted(db, q, actor, now, Rest(Matching(db, norm), norm.cursor))
  {
    var rest := Rest(Matching(db, norm), norm.cursor);
    MatchingIsListed(db, norm);
    FilterKeeps(Matching(db, norm), log => Past(norm.cursor, log));
    forall log ensures log in rest <==> log in db && Wanted(q, actor, now, log) {
      MatchesIsWanted(q, actor, now, norm, log);
    }
  }

  lemma AllIsPage(db: seq<Log>, q: Query, actor: Option<Actor>, now: int, rest: seq<Log>)
    requires AreWanted(db, q, actor, now, rest) && |rest| <= Limit(q)
    ensures IsPage(db, q, actor, now, Page(rest, ""))
  {
  }

  lemma PartShows(db: seq<Log>, q: Query, actor: Option<Actor>, now: int, rest: seq<Log>, data: seq<Log>,
                  more: seq<Log>)
    requires AreWanted(db, q, actor, now, rest) && Listed(data) && |data| == Limit(q) && more != []
    requires forall log :: log in rest <==> log in data || log in more
    requires forall a, b :: a in data && b in more ==> Newer(a.at, b.at) && b !in data
    ensures Shows(db, q, actor, now, data) && LeavesOlder(db, q, actor, now, data)
    ensures !ShowsAll(db, q, actor, now, data)
  {
    assert data[0] in data && more[0] in more && more[0] in rest;
    assert Wanted(q, actor, now, more[0]);
  }

  lemma EndsAtCut(rest: seq<Log>, n: nat)
    requires 0 < n <= |rest|
    ensures EndsAt(rest[..n], EncodeLogCursor(rest[n - 1].at)) && EncodeLogCursor(rest[n - 1].at) != ""
  {
    CursorIsText(rest[n - 1].at);
  }

  lemma CutShows(db: seq<Log>, q: Query, actor: Option<Actor>, now: int, rest: seq<Log>, n: nat)
    requires AreWanted(db, q, actor, now, rest) && n == Limit(q) < |rest|
    ensures Shows(db, q, actor, now, rest[..n]) && LeavesOlder(db, q, actor, now, rest[..n])
    ensures !ShowsAll(db, q, actor, now, rest[..n])
  {
    PageParts(rest, n);
    PartShows(db, q, actor, now, rest, rest[..n], rest[n..]);
  }

  lemma FirstIsPage(db: seq<Log>, q: Query, actor: Option<Actor>, now: int, rest: seq<Log>)
    requires AreWanted(db, q, actor, now, rest) && |rest| > Limit(q)
    ensures IsPage(db, q, actor, now, Page(rest[..Limit(q)], EncodeLogCursor(rest[Limit(q) - 1].at)))
  {
    CutShows(db, q, actor, now, rest, Limit(q));
    EndsAtCut(rest, Limit(q));
  }

  /** The page that is made of the normalized query is what was asked for. */
  lemma PageIsWanted(db: seq<Log>, q: Query, actor: Option<Actor>, now: int, norm: Query)
    requires Unique(db) && NormalizeRange(Scope(q, actor), now) == Some(norm)
    ensures IsPage(db, q, actor, now, ToPage(PageAfter(Matching(db, norm), norm.cursor, Limit(q))))
  {
    var rest := Rest(Matching(db, norm), norm.cursor);
    RestIsWanted(db, q, actor, now, norm);
    if |rest| > Limit(q) {
      FirstIsPage(db, q, actor, now, rest);
    } else {
      AllIsPage(db, q, actor, now, rest);
    }
  }

  // --- a walk through the pages ---

  // What a client gets that follows the cursors until a page has none; the collection may grow between pages,
  // all[i] being what matches the query when page i is asked for.
  function Walk(all: seq<seq<Log>>, cursor: Option<Position>, limit: nat): seq<Log>
    requires limit > 0
    decreases |all|
  {
    if all == [] then []
    else
      var (data, next) := PageAfter(all[0], cursor, limit);
      if next == None then data else data + Walk(all[1..], next, limit)
  }

  predicate Ends(all: seq<seq<Log>>, cursor: Option<Position>, limit: nat)
    requires limit > 0
    decreases |all|
  {
    all != [] && var (data, next) := PageAfter(all[0], cursor, limit); next == None || Ends(all[1..], next, limit)
  }

  // Nothing is deleted.
  ghost predicate Grows(all: seq<seq<Log>>) {
    (forall i {:trigger all[i]} :: 0 <= i < |all| ==> Listed(all[i])) &&
    (forall i, log {:trigger log in all[i]} :: 0 <= i < |all| - 1 && log in all[i] ==> log in all[i + 1])
  }

  // What the query lists in each state of the collection.
  function Listings(dbs: seq<seq<Log>>, q: Query): (all: seq<seq<Log>>)
    ensures |all| == |dbs| && forall i :: 0 <= i < |all| ==> all[i] == Matching(dbs[i], q)
  {
    seq(|dbs|, i requires 0 <= i < |dbs| => Matching(dbs[i], q))
  }

  // Ids are unique and nothing is deleted.
  ghost predicate OnlyAdds(dbs: seq<seq<Log>>) {
    (forall i {:trigger dbs[i]} :: 0 <= i < |dbs| ==> Unique(dbs[i])) &&
    (forall i, log {:trigger log in dbs[i]} :: 0 <= i < |dbs| - 1 && log in dbs[i] ==> log in dbs[i + 1])
  }

  // A collection to which logs are added lists ever more.
  lemma CollectionGrows(dbs: seq<seq<Log>>, q: Query, all: seq<seq<Log>>)
    requires OnlyAdds(dbs) && all == Listings(dbs, q)
    ensures Grows(all)
  {
    forall i | 0 <= i < |all|
      ensures Listed(all[i])
      ensures forall log {:trigger log in all[i]} :: log in all[i] <==> log in dbs[i] && Matches(q, log)
    {
      MatchingIsListed(dbs[i], q);
    }
  }

  // What arrives between two pages is newer than the cursor.
  ghost predicate ArrivesAhead(all: seq<seq<Log>>, cursor: Option<Position>, limit: nat)
    requires limit > 0
    decreases |all|
  {
    |all| >= 2 ==>
      var (data, next) := PageAfter(all[0], cursor, limit);
      next == None ||
      ((forall log {:trigger log in all[1]} :: log in all[1] && log !in all[0] ==> !Past(next, log)) &&
       ArrivesAhead(all[1..], next, limit))
  }

  // What follows the limit-th log is what lies past it.
  lemma TailIsRest(logs: seq<Log>, rest: seq<Log>, limit: nat)
    requires Listed(logs) && Listed(rest) && 0 < limit < |rest|
    requires forall log :: log in rest ==> log in logs
    requires forall log :: log in logs && Newer(rest[limit - 1].at, log.at) ==> log in rest
    ensures rest[limit..] == Rest(logs, Some(rest[limit - 1].at))
  {
    var tail, next := rest[limit..], Some(rest[limit - 1].at);
    FilterKeeps(logs, log => Past(next, log));
    forall k | 0 <= k < limit ensures !Past(next, rest[k]) {
      assert k < limit - 1 ==> Newer(rest[k].at, rest[limit - 1].at);
    }
    forall k | limit <= k < |rest| ensures Past(next, rest[k]) && rest[k] == tail[k - limit] {
      assert Newer(rest[limit - 1].at, rest[k].at);
    }
    forall i, j | 0 <= i < j < |tail| ensures Newer(tail[i].at, tail[j].at) {
      assert Newer(rest[limit + i].at, rest[limit + j].at);
    }
    forall log ensures log in tail <==> log in logs && Past(next, log) {
      assert log in tail ==> log in rest;
    }
    SameMembers(tail, Rest(logs, next));
  }

  // A full page is the newest part of what was left.
  ghost predicate FullPage(logs: seq<Log>, cursor: Option<Position>, limit: nat, data: seq<Log>, next: Position) {
    |data| == limit && Listed(data) &&
    (forall log {:trigger log in data} :: log in data ==> Past(cursor, log) && log in logs && !Past(Some(next), log)) &&
    (forall a, b {:trigger a in data, Past(Some(next), b)} :: a in data && Past(Some(next), b) ==> Newer(a.at, b.at))
  }

  lemma PageIsFull(logs: seq<Log>, cursor: Option<Position>, limit: nat)
    requires limit > 0 && Listed(logs) && PageAfter(logs, cursor, limit).1.Some?
    ensures
      var (data, next) := PageAfter(logs, cursor, limit);
      FullPage(logs, cursor, limit, data, next.value)
  {
    var rest := Rest(logs, cursor);
    FilterKeeps(logs, log => Past(cursor, log));
    var (data, next) := PageAfter(logs, cursor, limit);
    forall log | log in data
      ensures Past(cursor, log) && log in logs && (log.at == next.value || Newer(log.at, next.value))
    {
      var k :| 0 <= k < |data| && data[k] == log;
      assert log == rest[k] && log in rest;
    }
  }

  // It ends where the rest of the list begins.
  lemma PageSplits(logs: seq<Log>, cursor: Option<Position>, limit: nat)
    requires limit > 0 && Listed(logs) && PageAfter(logs, cursor, limit).1.Some?
    ensures
      var (data, next) := PageAfter(logs, cursor, limit);
      Rest(logs, cursor) == data + Rest(logs, next) && FullPage(logs, cursor, limit, data, next.value)
  {
    PageIsFull(logs, cursor, limit);
    var rest := Rest(logs, cursor);
    FilterKeeps(logs, log => Past(cursor, log));
    assert rest[limit - 1] in rest;
    TailIsRest(logs, rest, limit);
    assert rest == rest[..limit] + rest[limit..];
  }

  lemma {:induction false} StillThere(all: seq<seq<Log>>, i: nat, log: Log)
    requires Grows(all) && i < |all| && log in all[i]
    ensures log in all[|all| - 1]
    decreases |all| - i
  {
    if i < |all| - 1 {
      StillThere(all, i + 1, log);
    }
  }

  lemma TailGrows(all: seq<seq<Log>>)
    requires Grows(all) && all != []
    ensures Grows(all[1..])
  {
    var t := all[1..];
    assert forall i :: 0 <= i < |t| ==> t[i] == all[i + 1];
  }

  // What a walk over the rest of a list may give: in order, all that was there, nothing that does not exist.
  ghost predicate SoundWalk(out: seq<Log>, now: seq<Log>, later: seq<Log>, cursor: Option<Position>) {
    Listed(out) && (forall log {:trigger log in out} :: log in Rest(now, cursor) ==> log in out) &&
    (forall log {:trigger log in out} :: log in out ==> Past(cursor, log) && log in later)
  }

  // What was still to come is still to come when more has arrived.
  lemma RestStays(now: seq<Log>, next: seq<Log>, cursor: Option<Position>)
    requires Listed(now) && Listed(next) && forall log :: log in now ==> log in next
    ensures forall log :: log in Rest(now, cursor) ==> log in Rest(next, cursor)
  {
    FilterKeeps(now, x => Past(cursor, x));
    FilterKeeps(next, x => Past(cursor, x));
  }

  // A full page in front of a sound walk.
  lemma PageThenWalk(now: seq<Log>, later: seq<Log>, cursor: Option<Position>, limit: nat, data: seq<Log>,
                     next: Position, more: seq<Log>)
    requires FullPage(now, cursor, limit, data, next) && limit > 0
    requires Rest(now, cursor) == data + Rest(now, Some(next)) && (forall log :: log in data ==> log in later)
    requires Listed(more) && (forall log :: log in Rest(now, Some(next)) ==> log in more)
    requires forall log :: log in more ==> Past(Some(next), log) && log in later
    requires cursor.Some? ==> Newer(cursor.value, next)
    ensures SoundWalk(data + more, now, later, cursor)
  {
    forall i, j | 0 <= i < |data| && 0 <= j < |more| ensures Newer(data[i].at, more[j].at) {
      assert data[i] in data && more[j] in more && Past(Some(next), more[j]);
    }
    forall log | log in more ensures Past(cursor, log) {
    }
  }

  lemma FirstPageExists(all: seq<seq<Log>>, cursor: Option<Position>, limit: nat)
    requires limit > 0 && Grows(all) && all != []
    ensures forall log :: log in PageAfter(all[0], cursor, limit).0 ==> Past(cursor, log) && log in all[|all| - 1]
  {
    var data := PageAfter(all[0], cursor, limit).0;
    FilterKeeps(all[0], log => Past(cursor, log));
    forall log | log in data ensures Past(cursor, log) && log in all[|all| - 1] {
      assert log in Rest(all[0], cursor);
      StillThere(all, 0, log);
    }
  }

  /**
   However many logs arrive meanwhile and wherever they fall in the order, a walk to the end lists logs newest
   first without repeating one, leaves out none that was there when it began, and shows only logs that exist.
   */
  lemma {:induction false} WalkIsSound(all: seq<seq<Log>>, cursor: Option<Position>, limit: nat)
    requires limit > 0 && Grows(all) && Ends(all, cursor, limit)
    ensures SoundWalk(Walk(all, cursor, limit), all[0], all[|all| - 1], cursor)
    decreases |all|
  {
    var (data, next) := PageAfter(all[0], cursor, limit);
    FirstPageExists(all, cursor, limit);
    FilterKeeps(all[0], log => Past(cursor, log));
    if next.Some? {
      PageSplits(all[0], cursor, limit);
      TailGrows(all);
      WalkIsSound(all[1..], next, limit);
      RestStays(all[0], all[1], next);
      assert data[limit - 1] in data;
      PageThenWalk(all[0], all[|all| - 1], cursor, limit, data, next.value, Walk(all[1..], next, limit));
    }
  }

  /**
   The same of the collection itself: a walk over a query lists what matches it, newest first and none twice; all that
   matched past the cursor when it began, and only what the collection holds.
   */
  lemma CollectionWalk(dbs: seq<seq<Log>>, q: Query)
    requires OnlyAdds(dbs) && Ends(Listings(dbs, q), q.cursor, Limit(q))
    ensures dbs != []
    ensures
      var out := Walk(Listings(dbs, q), q.cursor, Limit(q));
      Listed(out) && (forall log :: log in dbs[0] && Matches(q, log) && Past(q.cursor, log) ==> log in out) &&
      (forall log :: log in out ==> log in dbs[|dbs| - 1] && Matches(q, log) && Past(q.cursor, log))
  {
    var all := Listings(dbs, q);
    CollectionGrows(dbs, q, all);
    WalkIsSound(all, q.cursor, Limit(q));
    MatchingIsListed(dbs[0], q);
    MatchingIsListed(dbs[|dbs| - 1], q);
    FilterMembers(all[0], log => Past(q.cursor, log));
  }

  /** When what arrives is newer than the cursor, the pages put together are exactly the list the walk began with. */
  lemma {:induction false} WalkIsExact(all: seq<seq<Log>>, cursor: Option<Position>, limit: nat)
    requires limit > 0 && Grows(all) && Ends(all, cursor, limit) && ArrivesAhead(all, cursor, limit)
    ensures Walk(all, cursor, limit) == Rest(all[0], cursor)
    decreases |all|
  {
    var (data, next) := PageAfter(all[0], cursor, limit);
    if next.Some? {
      PageSplits(all[0], cursor, limit);
      TailGrows(all);
      WalkIsExact(all[1..], next, limit);
      RestUnchanged(all, cursor, limit);
    }
  }

  lemma RestUnchanged(all: seq<seq<Log>>, cursor: Option<Position>, limit: nat)
    requires limit > 0 && Grows(all) && ArrivesAhead(all, cursor, limit) && |all| >= 2
    requires PageAfter(all[0], cursor, limit).1.Some?
    ensures
      var next := PageAfter(all[0], cursor, limit).1;
      Rest(all[1], next) == Rest(all[0], next)
  {
    var next := PageAfter(all[0], cursor, limit).1;
    FilterKeeps(all[0], x => Past(next, x));
    FilterKeeps(all[1], x => Past(next, x));
    SameMembers(Rest(all[1], next), Rest(all[0], next));
  }

  /** Then the walk also ends: no later than one page after the list is used up. */
  lemma {:induction false} WalkEnds(all: seq<seq<Log>>, cursor: Option<Position>, limit: nat)
    requires limit > 0 && Grows(all) && ArrivesAhead(all, cursor, limit)
    requires all != [] && |all| * limit >= |Rest(all[0], cursor)|
    ensures Ends(all, cursor, limit)
    decreases |all|
  {
    var (data, next) := PageAfter(all[0], cursor, limit);
    if next.Some? {
      PageSplits(all[0], cursor, limit);
      assert |all| * limit == (|all| - 1) * limit + limit;
      if |all| >= 2 {
        TailGrows(all);
        RestUnchanged(all, cursor, limit);
        WalkEnds(all[1..], next, limit);
      }
    }
  }

  /** Following the cursor that a page came with asks for exactly what was left. */
  lemma NextPageContinues(db: seq<Log>, q: Query, next: Position)
    ensures
      var followed := q.(cursor := DecodeLogCursor(EncodeLogCursor(next)));
      PageAfter(Matching(db, followed), followed.cursor, Limit(followed)) ==
        PageAfter(Matching(db, q), Some(next), Limit(q))
  {
    CursorRoundTrip(next);
    var followed := q.(cursor := Some(next));
    SameFilter(db, log => Matches(q, log), log => Matches(followed, log));
  }

  lemma {:induction false} SameFilter(logs: seq<Log>, f: Log -> bool, g: Log -> bool)
    requires forall log :: f(log) == g(log)
    ensures Filter(logs, f) == Filter(logs, g)
  {
    if logs != [] {
      SameFilter(logs[1..], f, g);
    }
  }

  /**
   The range that is searched ends where it was asked to, or now, is never empty or longer than the maximum, and
   keeps the start that was asked for unless that is too far back.
   */
  lemma RangeIsBounded(q: Query, now: int)
    ensures
      match NormalizeRange(q, now)
      case None => q.from.Some? && (if q.to.Some? then q.to.value else now) <= q.from.value
      case Some(n) =>
        n.to == Some(if q.to.Some? then q.to.value else now) && n.from.Some? &&
        0 < n.to.value - n.from.value <= MAX_RANGE &&
        (q.from.Some? && q.from != n.from ==> q.from.value < n.from.value == n.to.value - MAX_RANGE) &&
        (q.from == None ==> n.from.value == n.to.value - DEFAULT_RANGE) &&
        n == q.(to := n.to, from := n.from)
  {
  }

  /** Whatever filter was asked for, a plain user's pages hold only that user's logs. */
  lemma OnlyOwnLogs(db: seq<Log>, q: Query, actor: Actor, now: int, limit: nat)
    requires Unique(db) && actor.role !in {"root", "admin"} && actor.id != "" && limit > 0
    requires NormalizeRange(Scope(q, Some(actor)), now).Some?
    ensures
      var norm := NormalizeRange(Scope(q, Some(actor)), now).value;
      forall log :: log in PageAfter(Matching(db, norm), q.cursor, limit).0 ==> log.userId == actor.id
  {
    var norm := NormalizeRange(Scope(q, Some(actor)), now).value;
    var all := Matching(db, norm);
    MatchingIsListed(db, norm);
    FilterKeeps(all, log => Past(q.cursor, log));
    var data := PageAfter(all, q.cursor, limit).0;
    forall log | log in data ensures log.userId == actor.id {
      assert log in Rest(all, q.cursor) && log in all;
    }
  }
}
