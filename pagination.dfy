/**
 * Checkpoint-driven pagination of `SearchEvents`. The store answers a
 * search with the matching events of the time range in the requested
 * order; one call returns a page of at most `limit` of them (all of them
 * when `limit` is 0) and a checkpoint to resume after the page, empty
 * once nothing is left. A checkpoint encodes the sort key of the last
 * event delivered. The sort key ends with the record's primary key
 * (`SessionID`, `EventIndex`), so events at the same second stay ordered
 * and a checkpoint names exactly one event.
 */
module Pagination {
  import opened Wrappers
  import opened Seqs
  import opened Decimal
  import opened AuditEvents

  datatype Order = Ascending | Descending

  /**
   * Sort key of the time index: creation time, then event index, then
   * session for events that tie on both.
   */
  datatype Key = Key(createdAt: int, eventIndex: int, sessionID: string)

  function KeyOf(e: Event): Key {
    Key(e.CreatedAt, e.EventIndex, e.SessionID)
  }

  predicate KeyLess(a: Key, b: Key) {
    || a.createdAt < b.createdAt
    || (a.createdAt == b.createdAt && a.eventIndex < b.eventIndex)
    || (a.createdAt == b.createdAt && a.eventIndex == b.eventIndex && StringLess(a.sessionID, b.sessionID))
  }

  lemma KeyLessAsymmetric(a: Key, b: Key)
    ensures KeyLess(a, b) ==> !KeyLess(b, a)
  {
    StringLessAsymmetric(a.sessionID, b.sessionID);
  }

  lemma KeyLessTransitive(a: Key, b: Key, c: Key)
    requires KeyLess(a, b) && KeyLess(b, c)
    ensures KeyLess(a, c)
  {
    if a.createdAt == b.createdAt == c.createdAt && a.eventIndex == b.eventIndex == c.eventIndex {
      StringLessTransitive(a.sessionID, b.sessionID, c.sessionID);
    }
  }

  /** Different keys are ordered one way or the other: the index order is total. */
  lemma KeyLessTotal(a: Key, b: Key)
    ensures a == b || KeyLess(a, b) || KeyLess(b, a)
  {
    StringLessTotal(a.sessionID, b.sessionID);
  }

  /** `a` comes strictly before `b` in the order of the search. */
  predicate Precedes(order: Order, a: Key, b: Key) {
    if order.Ascending? then KeyLess(a, b) else KeyLess(b, a)
  }

  lemma PrecedesAsymmetric(order: Order, a: Key, b: Key)
    ensures Precedes(order, a, b) ==> !Precedes(order, b, a)
  {
    KeyLessAsymmetric(a, b);
    KeyLessAsymmetric(b, a);
  }

  predicate SortedIn(order: Order, s: seq<Event>) {
    forall i, j :: 0 <= i < j < |s| ==> Precedes(order, KeyOf(s[i]), KeyOf(s[j]))
  }

  /** The store's time index: strictly ascending keys. */
  predicate IndexOrdered(store: seq<Event>) {
    SortedIn(Ascending, store)
  }

  /** No two records share a primary key. */
  predicate UniqueIds(store: seq<Event>) {
    forall i, j :: 0 <= i < j < |store| ==>
      (store[i].SessionID, store[i].EventIndex) != (store[j].SessionID, store[j].EventIndex)
  }

  /**
   * The index holds the records in key order; with unique primary keys no
   * two keys tie, so that order is strict, whatever the creation times.
   */
  lemma UniqueIdsOrdered(store: seq<Event>)
    requires forall i, j :: 0 <= i < j < |store| ==> !KeyLess(KeyOf(store[j]), KeyOf(store[i]))
    requires UniqueIds(store)
    ensures IndexOrdered(store)
  {
    forall i, j | 0 <= i < j < |store| ensures KeyLess(KeyOf(store[i]), KeyOf(store[j])) {
      KeyLessTotal(KeyOf(store[i]), KeyOf(store[j]));
    }
  }

  /** The request: time range (inclusive, Unix seconds), namespace, event types, order. */
  datatype Query = Query(from: int, to: int, namespace: string, eventTypes: seq<string>, order: Order)

  /** An empty list of event types accepts every type. */
  predicate Matches(e: Event, q: Query) {
    q.from <= e.CreatedAt <= q.to
    && e.EventNamespace == q.namespace
    && (q.eventTypes == [] || e.EventType in q.eventTypes)
  }

  function Select(store: seq<Event>, q: Query): seq<Event> {
    if store == [] then []
    else (if Matches(store[0], q) then [store[0]] else []) + Select(store[1..], q)
  }

  function Reverse(s: seq<Event>): (r: seq<Event>)
    ensures |r| == |s|
    ensures forall i :: 0 <= i < |s| ==> r[i] == s[|s| - 1 - i]
  {
    if s == [] then [] else Reverse(s[1..]) + [s[0]]
  }

  /** Everything the search can return, in the requested order. */
  function Results(store: seq<Event>, q: Query): seq<Event> {
    if q.order.Ascending? then Select(store, q) else Reverse(Select(store, q))
  }

  // ----- Checkpoints -----

  /** `<createdAt>:<eventIndex>:<sessionID>`; the session may itself contain ':'. */
  function EncodeCheckpoint(k: Key): string {
    IntToString(k.createdAt) + ":" + IntToString(k.eventIndex) + ":" + k.sessionID
  }

  /** Reads two integers, each ended by the first ':' after it, then the session. */
  function DecodeCheckpoint(s: string): Option<Key> {
    match SplitColon(s, 0)
    case None => None
    case Some((ts, rest)) =>
      match SplitColon(rest, 0)
      case None => None
      case Some((xs, session)) =>
        match (ParseInt(ts), ParseInt(xs))
        case (Some(t), Some(x)) => Some(Key(t, x, session))
        case _ => None
  }

  /** What precedes and follows the first ':' at or after position `i`, if there is one. */
  function SplitColon(s: string, i: nat): Option<(string, string)>
    decreases |s| - i
  {
    if i >= |s| then None
    else if s[i] == ':' then Some((s[..i], s[i + 1..]))
    else SplitColon(s, i + 1)
  }

  /** The scan passes over characters other than ':' up to the first ':'. */
  lemma {:induction false} SplitColonSkips(s: string, i: nat, p: nat)
    requires i <= p < |s| && s[p] == ':'
    requires forall j :: i <= j < p ==> s[j] != ':'
    ensures SplitColon(s, i) == SplitColon(s, p)
    decreases p - i
  {
    if i < p {
      SplitColonSkips(s, i + 1, p);
    }
  }

  /** An integer's rendering splits off at the ':' that follows it. */
  lemma SplitAfterInt(n: int, b: string)
    ensures SplitColon(IntToString(n) + ":" + b, 0) == Some((IntToString(n), b))
  {
    var a := IntToString(n);
    var s := a + ":" + b;
    assert s[|a|] == ':';
    assert forall j :: 0 <= j < |a| ==> s[j] == a[j] && s[j] != ':';
    SplitColonSkips(s, 0, |a|);
    assert s[..|a|] == a && s[|a| + 1..] == b;
  }

  /** A checkpoint is never the empty "done" token and decodes to the key it was made from. */
  lemma CheckpointRoundTrip(k: Key)
    ensures |EncodeCheckpoint(k)| > 0
    ensures DecodeCheckpoint(EncodeCheckpoint(k)) == Some(k)
  {
    var a, b := IntToString(k.createdAt), IntToString(k.eventIndex);
    var rest := b + ":" + k.sessionID;
    assert EncodeCheckpoint(k) == a + ":" + rest;
    SplitAfterInt(k.createdAt, rest);
    SplitAfterInt(k.eventIndex, k.sessionID);
    IntToStringRoundTrip(k.createdAt);
    IntToStringRoundTrip(k.eventIndex);
  }

  /** The events of `s` strictly beyond key `k` in the order of the search. */
  function After(s: seq<Event>, order: Order, k: Key): seq<Event> {
    if s == [] then []
    else (if Precedes(order, k, KeyOf(s[0])) then [s[0]] else []) + After(s[1..], order, k)
  }

  datatype SearchError = CheckpointInvalid

  datatype Page = Page(events: seq<Event>, checkpoint: string)

  /** The key lies in the time range of the request (the partitions it searches). */
  predicate InRange(k: Key, q: Query) {
    q.from <= k.createdAt <= q.to
  }

  /**
   * What is left to deliver: all results for "", those after the key
   * otherwise. A token that does not decode, or whose key lies outside the
   * requested range, is refused.
   */
  function Resume(results: seq<Event>, q: Query, checkpoint: string): Result<seq<Event>, SearchError> {
    if |checkpoint| == 0 then Success(results)
    else match DecodeCheckpoint(checkpoint)
      case None => Failure(CheckpointInvalid)
      case Some(k) =>
        if InRange(k, q) then Success(After(results, q.order, k)) else Failure(CheckpointInvalid)
  }

  /** The first `limit` events of `rest` (all for 0) and the checkpoint after them. */
  function PageOf(rest: seq<Event>, limit: nat): Page {
    var n := if limit == 0 || |rest| <= limit then |rest| else limit;
    Page(rest[..n], if n < |rest| then EncodeCheckpoint(KeyOf(rest[n - 1])) else "")
  }

  /** `SearchEvents(from, to, namespace, eventTypes, limit, order, checkpoint)`. */
  function SearchEvents(store: seq<Event>, q: Query, limit: nat, checkpoint: string): Result<Page, SearchError> {
    match Resume(Results(store, q), q, checkpoint)
    case Failure(err) => Failure(err)
    case Success(rest) => Success(PageOf(rest, limit))
  }

  type Pos = n: nat | n > 0 witness 1

  /**
   * The query loop behind one page. The store answers each underlying query
   * with at most `fetchCap` events (its response size limit) and a
   * continuation; querying goes on until the limit is reached or nothing is left.
   */
  method FetchPage(rest: seq<Event>, limit: nat, fetchCap: Pos) returns (p: Page)
    ensures p == PageOf(rest, limit)
  {
    var page: seq<Event> := [];
    var cursor := 0;
    while cursor < |rest| && (limit == 0 || cursor < limit)
      invariant 0 <= cursor <= |rest|
      invariant page == rest[..cursor]
      invariant limit > 0 ==> cursor <= limit
    {
      var size := fetchCap;
      if limit > 0 && limit - cursor < size {
        size := limit - cursor;
      }
      if |rest| - cursor < size {
        size := |rest| - cursor;
      }
      assert rest[..cursor] + rest[cursor..cursor + size] == rest[..cursor + size];
      page := page + rest[cursor..cursor + size];
      cursor := cursor + size;
    }
    assert cursor == if limit == 0 || |rest| <= limit then |rest| else limit;
    assert cursor < |rest| ==> 0 < cursor && page[|page| - 1] == rest[cursor - 1];
    var next := if cursor < |rest| then EncodeCheckpoint(KeyOf(page[|page| - 1])) else "";
    p := Page(page, next);
  }

  /** One `SearchEvents` call, its pages fetched under the store's size cap. */
  method Search(store: seq<Event>, q: Query, limit: nat, checkpoint: string, fetchCap: Pos)
    returns (r: Result<Page, SearchError>)
    ensures r == SearchEvents(store, q, limit, checkpoint)
  {
    var resumed := Resume(Results(store, q), q, checkpoint);
    match resumed
    case Failure(err) =>
      r := Failure(err);
    case Success(rest) =>
      var p := FetchPage(rest, limit, fetchCap);
      r := Success(p);
  }

  // ----- Properties -----

  /** The selected events are exactly the matching stored ones. */
  lemma {:induction false} SelectMembers(store: seq<Event>, q: Query)
    ensures forall e :: e in Select(store, q) <==> e in store && Matches(e, q)
  {
    if store != [] {
      SelectMembers(store[1..], q);
      assert store == [store[0]] + store[1..];
    }
  }

  lemma {:induction false} SelectSorted(store: seq<Event>, q: Query)
    requires IndexOrdered(store)
    ensures IndexOrdered(Select(store, q))
  {
    if store != [] {
      SelectSorted(store[1..], q);
      SelectMembers(store[1..], q);
      var rest := Select(store[1..], q);
      forall e | e in rest ensures KeyLess(KeyOf(store[0]), KeyOf(e)) {
        var j :| 0 <= j < |store[1..]| && store[1..][j] == e;
        assert store[j + 1] == e;
      }
    }
  }

  /** When every stored event matches, the search selects the whole store. */
  lemma {:induction false} SelectAll(store: seq<Event>, q: Query)
    requires forall i :: 0 <= i < |store| ==> Matches(store[i], q)
    ensures Select(store, q) == store
  {
    if store != [] {
      SelectAll(store[1..], q);
    }
  }

  /**
   * When every stored event matches, an ascending search with room for all
   * of them answers with the whole store on one page and no checkpoint.
   */
  lemma SearchWholeStore(store: seq<Event>, q: Query, limit: nat)
    requires q.order.Ascending?
    requires forall i :: 0 <= i < |store| ==> Matches(store[i], q)
    requires limit == 0 || |store| <= limit
    ensures SearchEvents(store, q, limit, "") == Success(Page(store, ""))
  {
    SelectAll(store, q);
    assert store[..|store|] == store;
  }

  /** The results are exactly the matching stored events, strictly in the requested order. */
  lemma ResultsSpec(store: seq<Event>, q: Query)
    requires IndexOrdered(store)
    ensures forall e :: e in Results(store, q) <==> e in store && Matches(e, q)
    ensures SortedIn(q.order, Results(store, q))
  {
    SelectSorted(store, q);
    SelectMembers(store, q);
    var s := Select(store, q);
    if q.order.Descending? {
      forall e | e in s ensures e in Reverse(s) {
        var j :| 0 <= j < |s| && s[j] == e;
        assert Reverse(s)[|s| - 1 - j] == e;
      }
    }
  }

  /** Helper: the order half of `ResultsSpec`, without its membership facts. */
  lemma ResultsSorted(store: seq<Event>, q: Query)
    requires IndexOrdered(store)
    ensures SortedIn(q.order, Results(store, q))
  {
    SelectSorted(store, q);
  }

  /** Keys of a sorted result: for the key of its j-th event, what is after it is the tail. */
  lemma {:induction false} AfterKey(s: seq<Event>, order: Order, j: nat)
    requires SortedIn(order, s) && j < |s|
    ensures After(s, order, KeyOf(s[j])) == s[j + 1..]
  {
    var k := KeyOf(s[j]);
    PrecedesAsymmetric(order, k, k);
    if j == 0 {
      AfterAll(s[1..], order, k);
    } else {
      PrecedesAsymmetric(order, KeyOf(s[0]), k);
      assert SortedIn(order, s[1..]);
      AfterKey(s[1..], order, j - 1);
      assert s[1..][j - 1] == s[j];
    }
  }

  lemma {:induction false} AfterAll(s: seq<Event>, order: Order, k: Key)
    requires forall i :: 0 <= i < |s| ==> Precedes(order, k, KeyOf(s[i]))
    ensures After(s, order, k) == s
  {
    if s != [] {
      AfterAll(s[1..], order, k);
    }
  }

  /**
   * A page is the next stretch of what remains: at most `limit` events (every
   * remaining one for 0), and the checkpoint is empty exactly when nothing
   * remains after it.
   */
  lemma PageOfSpec(rest: seq<Event>, limit: nat)
    ensures var p := PageOf(rest, limit);
      && rest == p.events + rest[|p.events|..]
      && (limit == 0 ==> p.events == rest)
      && (limit > 0 ==> |p.events| == if |rest| < limit then |rest| else limit)
      && (|p.checkpoint| == 0 <==> p.events == rest)
  {
    var p := PageOf(rest, limit);
    assert rest[..|p.events|] + rest[|p.events|..] == rest;
  }

  /** A checkpoint made from key `k` of the range resumes with the results beyond `k`. */
  lemma ResumeEncoded(results: seq<Event>, q: Query, k: Key)
    requires InRange(k, q)
    ensures Resume(results, q, EncodeCheckpoint(k)) == Success(After(results, q.order, k))
  {
    CheckpointRoundTrip(k);
  }

  /** A checkpoint made from a key outside the requested range is refused. */
  lemma ResumeOutOfRange(results: seq<Event>, q: Query, k: Key)
    requires !InRange(k, q)
    ensures Resume(results, q, EncodeCheckpoint(k)) == Failure(CheckpointInvalid)
  {
    CheckpointRoundTrip(k);
  }

  /** On a sorted result, the checkpoint made from the j-th event resumes right after it. */
  lemma ResumeAfterCheckpoint(results: seq<Event>, q: Query, j: nat)
    requires SortedIn(q.order, results) && 0 < j <= |results|
    requires q.from <= results[j - 1].CreatedAt <= q.to
    ensures Resume(results, q, EncodeCheckpoint(KeyOf(results[j - 1]))) == Success(results[j..])
  {
    AfterKey(results, q.order, j - 1);
    ResumeEncoded(results, q, KeyOf(results[j - 1]));
  }

  /** Every result lies in the requested range. */
  lemma ResultsInRange(store: seq<Event>, q: Query, i: nat)
    requires i < |Results(store, q)|
    ensures q.from <= Results(store, q)[i].CreatedAt <= q.to
  {
    SelectMembers(store, q);
    var s := Select(store, q);
    if q.order.Ascending? {
      assert s[i] in s;
    } else {
      assert Results(store, q)[i] == s[|s| - 1 - i] && s[|s| - 1 - i] in s;
    }
  }

  /** The checkpoint a caller holds after receiving the first `m` results. */
  function CheckpointAt(results: seq<Event>, m: nat): string
    requires m <= |results|
  {
    if m == 0 then "" else EncodeCheckpoint(KeyOf(results[m - 1]))
  }

  /**
   * The page that starts at position `m` continues what was received before it;
   * an empty checkpoint means it reached the end, and any other is the
   * checkpoint of its last event.
   */
  lemma PageCheckpoint(results: seq<Event>, limit: nat, m: nat)
    requires m <= |results|
    ensures var p := PageOf(results[m..], limit);
      && m + |p.events| <= |results|
      && results[..m] + p.events == results[..m + |p.events|]
      && (|p.checkpoint| == 0 ==> m + |p.events| == |results|)
      && (|p.checkpoint| > 0 ==> 0 < |p.events| && p.checkpoint == CheckpointAt(results, m + |p.events|))
  {
    var rest := results[m..];
    var n := if limit == 0 || |rest| <= limit then |rest| else limit;
    assert |PageOf(rest, limit).events| == n;
    assert results[..m] + rest[..n] == results[..m + n];
    if n < |rest| {
      CheckpointRoundTrip(KeyOf(rest[n - 1]));
      assert rest[n - 1] == results[m + n - 1];
    }
  }

  /** Helper: a search resumed at position `m` of the results answers with the page that starts there. */
  lemma SearchEventsResume(store: seq<Event>, q: Query, limit: nat, m: nat, checkpoint: string)
    requires m <= |Results(store, q)|
    requires Resume(Results(store, q), q, checkpoint) == Success(Results(store, q)[m..])
    ensures SearchEvents(store, q, limit, checkpoint) == Success(PageOf(Results(store, q)[m..], limit))
  {
  }

  /**
   * One call of a caller's chaining loop: the search resumed with the
   * checkpoint of the event at position `m - 1` (or "" when `m` is 0)
   * answers with the page of the results that starts at position `m`.
   */
  method NextPage(store: seq<Event>, q: Query, limit: nat, checkpoint: string, fetchCap: Pos, ghost m: nat)
    returns (page: Page)
    requires IndexOrdered(store) && m <= |Results(store, q)|
    requires checkpoint == CheckpointAt(Results(store, q), m)
    ensures page == PageOf(Results(store, q)[m..], limit)
  {
    ghost var results := Results(store, q);
    ResultsSorted(store, q);
    if m == 0 {
      assert results[m..] == results;
    } else {
      ResultsInRange(store, q, m - 1);
      ResumeAfterCheckpoint(results, q, m);
    }
    SearchEventsResume(store, q, limit, m, checkpoint);
    var r := Search(store, q, limit, checkpoint, fetchCap);
    page := r.value;
  }

  /**
   * The loop of a caller that chains checkpoints until one comes back
   * empty. It ends, and what it collected is every result exactly once, in order.
   */
  method FetchAll(store: seq<Event>, q: Query, limit: nat, fetchCap: Pos) returns (events: seq<Event>)
    requires IndexOrdered(store)
    ensures events == Results(store, q)
    ensures SortedIn(q.order, events)
  {
    ghost var results := Results(store, q);
    ResultsSorted(store, q);
    var checkpoint := "";
    events := [];
    while true
      invariant |events| <= |results| && events == results[..|events|]
      invariant checkpoint == CheckpointAt(results, |events|)
      decreases |results| - |events|
    {
      ghost var m := |events|;
      var page := NextPage(store, q, limit, checkpoint, fetchCap, m);
      PageCheckpoint(results, limit, m);
      events := events + page.events;
      checkpoint := page.checkpoint;
      if |checkpoint| == 0 {
        assert results[..|results|] == results;
        break;
      }
    }
  }

  /** In a descending result, times never increase and none is beyond the range end. */
  lemma DescendingTimes(store: seq<Event>, q: Query)
    requires IndexOrdered(store) && q.order.Descending?
    ensures forall i, j :: 0 <= i < j < |Results(store, q)| ==>
      Results(store, q)[j].CreatedAt <= Results(store, q)[i].CreatedAt
    ensures forall i :: 0 <= i < |Results(store, q)| ==> Results(store, q)[i].CreatedAt <= q.to
  {
    ResultsSpec(store, q);
    var s := Results(store, q);
    forall i | 0 <= i < |s| ensures s[i].CreatedAt <= q.to {
      assert s[i] in s;
    }
  }
}
