/**
 * The two online migrations of the event table, each a full scan that
 * rewrites the records needing it and leaves every other record alone:
 * `migrateDateAttribute` backfills the `CreatedAtDate` partition key, and
 * `convertFieldsToDynamoMapFormat` replaces the JSON string `Fields` by the
 * structured `FieldsMap`. JSON decoding is a parameter (`parse`).
 */
module Migrations {
  import opened Wrappers
  import opened Calendar
  import opened AuditEvents

  // ----- Date attribute backfill -----

  predicate MissingDate(e: Event) {
    e.CreatedAtDate.None?
  }

  /** One record after the backfill: a missing key is computed from `CreatedAt`. */
  function WithDate(e: Event): Event {
    if MissingDate(e) then e.(CreatedAtDate := Some(DateString(e.CreatedAt))) else e
  }

  function MigrateDates(items: seq<Event>): seq<Event> {
    seq(|items|, i requires 0 <= i < |items| => WithDate(items[i]))
  }

  /** How many records the backfill writes. */
  function CountMissingDate(items: seq<Event>): nat {
    if items == [] then 0 else
      CountMissingDate(items[..|items| - 1]) + (if MissingDate(items[|items| - 1]) then 1 else 0)
  }

  /** Every record lacking the key ends consistent; nothing else in any record changes. */
  lemma MigrateDatesSpec(items: seq<Event>)
    ensures |MigrateDates(items)| == |items|
    ensures forall i :: 0 <= i < |items| && MissingDate(items[i]) ==> DateConsistent(MigrateDates(items)[i])
    ensures forall i :: 0 <= i < |items| && !MissingDate(items[i]) ==> MigrateDates(items)[i] == items[i]
    ensures forall i :: 0 <= i < |items| ==>
      MigrateDates(items)[i].(CreatedAtDate := items[i].CreatedAtDate) == items[i]
  {
  }

  /** A table whose keys are missing or right is consistent after the backfill. */
  lemma MigrateDatesRestores(items: seq<Event>)
    requires forall i :: 0 <= i < |items| ==> MissingDate(items[i]) || DateConsistent(items[i])
    ensures forall i :: 0 <= i < |MigrateDates(items)| ==> DateConsistent(MigrateDates(items)[i])
  {
  }

  lemma {:induction false} CountMissingDateNone(items: seq<Event>)
    requires forall i :: 0 <= i < |items| ==> !MissingDate(items[i])
    ensures CountMissingDate(items) == 0
  {
    if items != [] {
      CountMissingDateNone(items[..|items| - 1]);
    }
  }

  /** A table of legacy records only: the backfill writes every one of them. */
  lemma {:induction false} CountMissingDateAll(items: seq<Event>)
    requires forall i :: 0 <= i < |items| ==> MissingDate(items[i])
    ensures CountMissingDate(items) == |items|
  {
    if items != [] {
      CountMissingDateAll(items[..|items| - 1]);
    }
  }

  /** Running the backfill again changes nothing and writes nothing. */
  lemma MigrateDatesIdempotent(items: seq<Event>)
    ensures MigrateDates(MigrateDates(items)) == MigrateDates(items)
    ensures CountMissingDate(MigrateDates(items)) == 0
  {
    CountMissingDateNone(MigrateDates(items));
  }

  lemma {:induction false} CountMissingDateAppend(a: seq<Event>, b: seq<Event>)
    ensures CountMissingDate(a + b) == CountMissingDate(a) + CountMissingDate(b)
  {
    if b == [] {
      assert a + b == a;
    } else {
      assert (a + b)[..|a + b| - 1] == a + b[..|b| - 1];
      CountMissingDateAppend(a, b[..|b| - 1]);
    }
  }

  /**
   * A backfill interrupted after the first `k` records and started again
   * finishes the job, writing only the records the first run did not reach.
   */
  lemma MigrateDatesResume(items: seq<Event>, k: nat)
    requires k <= |items|
    ensures MigrateDates(MigrateDates(items[..k]) + items[k..]) == MigrateDates(items)
    ensures CountMissingDate(MigrateDates(items[..k]) + items[k..]) == CountMissingDate(items[k..])
  {
    CountMissingDateAppend(MigrateDates(items[..k]), items[k..]);
    CountMissingDateNone(MigrateDates(items[..k]));
  }

  // ----- JSON fields to map conversion -----

  /** JSON decoding of a `Fields` string; None for malformed JSON. */
  type Parser = string -> Option<EventFields>

  /** The record still carries its payload as parseable JSON only. */
  predicate Convertible(e: Event, parse: Parser) {
    e.FieldsMap.None? && e.Fields.Some? && parse(e.Fields.value).Some?
  }

  /** The record needs converting but its payload cannot be decoded. */
  predicate Malformed(e: Event, parse: Parser) {
    e.FieldsMap.None? && !Convertible(e, parse)
  }

  /** One record after the conversion. */
  function WithFieldsMap(e: Event, parse: Parser): Event {
    if Convertible(e, parse) then e.(FieldsMap := parse(e.Fields.value), Fields := None) else e
  }

  function ConvertFields(items: seq<Event>, parse: Parser): seq<Event> {
    seq(|items|, i requires 0 <= i < |items| => WithFieldsMap(items[i], parse))
  }

  /** How many records the conversion writes. */
  function CountConvertible(items: seq<Event>, parse: Parser): nat {
    if items == [] then 0 else
      CountConvertible(items[..|items| - 1], parse)
      + (if Convertible(items[|items| - 1], parse) then 1 else 0)
  }

  /** Positions of the records whose conversion fails, ascending. */
  function MalformedPositions(items: seq<Event>, parse: Parser): seq<nat> {
    if items == [] then [] else
      MalformedPositions(items[..|items| - 1], parse)
      + (if Malformed(items[|items| - 1], parse) then [|items| - 1] else [])
  }

  /** The failure list names exactly the records whose payload cannot be decoded. */
  lemma {:induction false} MalformedPositionsSpec(items: seq<Event>, parse: Parser)
    ensures forall p :: p in MalformedPositions(items, parse) <==> 0 <= p < |items| && Malformed(items[p], parse)
  {
    if items != [] {
      var front := items[..|items| - 1];
      MalformedPositionsSpec(front, parse);
      assert forall p :: 0 <= p < |front| ==> front[p] == items[p];
    }
  }

  /** With no malformed payload, the conversion reports no failure. */
  lemma {:induction false} MalformedPositionsNone(items: seq<Event>, parse: Parser)
    requires forall i :: 0 <= i < |items| ==> !Malformed(items[i], parse)
    ensures MalformedPositions(items, parse) == []
  {
    if items != [] {
      MalformedPositionsNone(items[..|items| - 1], parse);
    }
  }

  /** The failure list is ascending, so each position is reported once. */
  lemma {:induction false} MalformedPositionsAscending(items: seq<Event>, parse: Parser)
    ensures forall i, j :: 0 <= i < j < |MalformedPositions(items, parse)| ==>
      MalformedPositions(items, parse)[i] < MalformedPositions(items, parse)[j]
  {
    if items != [] {
      var front := items[..|items| - 1];
      MalformedPositionsAscending(front, parse);
      MalformedPositionsSpec(front, parse);
      var prev := MalformedPositions(front, parse);
      assert forall i :: 0 <= i < |prev| ==> prev[i] in prev;
    }
  }

  /**
   * Converted records hold the decoded payload and no JSON string; records
   * already converted or whose JSON is malformed are left as they are.
   */
  lemma ConvertFieldsSpec(items: seq<Event>, parse: Parser)
    ensures |ConvertFields(items, parse)| == |items|
    ensures forall i :: 0 <= i < |items| && Convertible(items[i], parse) ==>
      ConvertFields(items, parse)[i].FieldsMap == parse(items[i].Fields.value)
      && ConvertFields(items, parse)[i].Fields.None?
      && ConvertFields(items, parse)[i].(FieldsMap := None, Fields := items[i].Fields) == items[i]
    ensures forall i :: 0 <= i < |items| && !Convertible(items[i], parse) ==>
      ConvertFields(items, parse)[i] == items[i]
  {
  }

  /** Without malformed payloads, every record ends with a structured payload. */
  lemma ConvertFieldsComplete(items: seq<Event>, parse: Parser)
    requires forall i :: 0 <= i < |items| ==> !Malformed(items[i], parse)
    ensures forall i :: 0 <= i < |items| ==> ConvertFields(items, parse)[i].FieldsMap.Some?
  {
  }

  lemma {:induction false} CountConvertibleNone(items: seq<Event>, parse: Parser)
    requires forall i :: 0 <= i < |items| ==> !Convertible(items[i], parse)
    ensures CountConvertible(items, parse) == 0
  {
    if items != [] {
      CountConvertibleNone(items[..|items| - 1], parse);
    }
  }

  /** Running the conversion again changes nothing and writes nothing. */
  lemma ConvertFieldsIdempotent(items: seq<Event>, parse: Parser)
    ensures ConvertFields(ConvertFields(items, parse), parse) == ConvertFields(items, parse)
    ensures CountConvertible(ConvertFields(items, parse), parse) == 0
  {
    CountConvertibleNone(ConvertFields(items, parse), parse);
  }

  lemma {:induction false} CountConvertibleAppend(a: seq<Event>, b: seq<Event>, parse: Parser)
    ensures CountConvertible(a + b, parse) == CountConvertible(a, parse) + CountConvertible(b, parse)
  {
    if b == [] {
      assert a + b == a;
    } else {
      assert (a + b)[..|a + b| - 1] == a + b[..|b| - 1];
      CountConvertibleAppend(a, b[..|b| - 1], parse);
    }
  }

  /**
   * A conversion interrupted after the first `k` records and started again
   * finishes the job, writing only the records the first run did not reach.
   */
  lemma ConvertFieldsResume(items: seq<Event>, k: nat, parse: Parser)
    requires k <= |items|
    ensures ConvertFields(ConvertFields(items[..k], parse) + items[k..], parse) == ConvertFields(items, parse)
    ensures CountConvertible(ConvertFields(items[..k], parse) + items[k..], parse) == CountConvertible(items[k..], parse)
  {
    CountConvertibleAppend(ConvertFields(items[..k], parse), items[k..], parse);
    ConvertFieldsIdempotent(items[..k], parse);
  }

  /** Records written today need neither migration. */
  lemma NewEventNeedsNoMigration(e: Event, parse: Parser)
    requires DateConsistent(e) && e.FieldsMap.Some?
    ensures WithDate(e) == e && WithFieldsMap(e, parse) == e
  {
  }

  /** The event table, scanned and rewritten record by record. */
  class EventTable {
    var items: seq<Event>

    constructor (initial: seq<Event>)
      ensures items == initial
    {
      items := initial;
    }

    /** `migrateDateAttribute`: writes the missing partition keys; returns the number of writes. */
    method MigrateDateAttribute() returns (writes: nat)
      modifies this
      ensures items == MigrateDates(old(items))
      ensures writes == CountMissingDate(old(items))
    {
      var i := 0;
      writes := 0;
      while i < |items|
        invariant 0 <= i <= |items| == |old(items)|
        invariant forall j :: 0 <= j < i ==> items[j] == WithDate(old(items)[j])
        invariant forall j :: i <= j < |items| ==> items[j] == old(items)[j]
        invariant writes == CountMissingDate(old(items)[..i])
      {
        assert old(items)[..i + 1][..i] == old(items)[..i];
        if MissingDate(items[i]) {
          var date := DateString(items[i].CreatedAt);
          items := items[i := items[i].(CreatedAtDate := Some(date))];
          writes := writes + 1;
        }
        i := i + 1;
      }
      assert old(items)[..i] == old(items);
    }

    /**
     * `convertFieldsToDynamoMapFormat`: decodes and rewrites legacy payloads;
     * returns the number of writes and the positions whose payload failed to decode.
     */
    method ConvertFieldsToDynamoMapFormat(parse: Parser) returns (writes: nat, failed: seq<nat>)
      modifies this
      ensures items == ConvertFields(old(items), parse)
      ensures writes == CountConvertible(old(items), parse)
      ensures failed == MalformedPositions(old(items), parse)
    {
      var i := 0;
      writes, failed := 0, [];
      while i < |items|
        invariant 0 <= i <= |items| == |old(items)|
        invariant forall j :: 0 <= j < i ==> items[j] == WithFieldsMap(old(items)[j], parse)
        invariant forall j :: i <= j < |items| ==> items[j] == old(items)[j]
        invariant writes == CountConvertible(old(items)[..i], parse)
        invariant failed == MalformedPositions(old(items)[..i], parse)
      {
        assert old(items)[..i + 1][..i] == old(items)[..i];
        var e := items[i];
        if e.FieldsMap.None? {
          var decoded := if e.Fields.Some? then parse(e.Fields.value) else None;
          if decoded.Some? {
            items := items[i := e.(FieldsMap := decoded, Fields := None)];
            writes := writes + 1;
          } else {
            failed := failed + [i];
          }
        }
        i := i + 1;
      }
      assert old(items)[..i] == old(items);
    }
  }
}
