/** The non-I/O part of `load_events`: repair reversed ranges, keep the events
    that touch the month and clip them to it, in input order. */
module Events {
  import opened Wrappers
  import opened Dates

  /** One JSON record after the ISO-8601 parse and the conversion to a UTC
      calendar date; a `None` date is a missing or unparseable field. `name`
      and `title` already carry their empty-string defaults. */
  datatype Record = Record(start: Option<Date>, end: Option<Date>, name: string, title: string)

  /** A loaded event, its dates clipped to the month. */
  datatype Event = Event(start: Date, end: Date, name: string, title: string)

  predicate Parsed(r: Record) {
    r.start.Some? && r.end.Some?
  }

  /** The event record `r` yields for the month first..last: none when a date
      failed to parse or when the repaired range misses the month; otherwise
      the repaired range cut down to the month. */
  function NormalizeOne(r: Record, first: Date, last: Date): (e: Option<Event>)
    ensures e.Some? <==>
              Parsed(r) && Max(r.start.value, r.end.value) >= first && Min(r.start.value, r.end.value) <= last
    ensures e.Some? ==> e.value.name == r.name && e.value.title == r.title
    ensures e.Some? ==> forall d {:trigger Within(d, e.value.start, e.value.end)} ::
              Within(d, e.value.start, e.value.end) <==>
              Within(d, Min(r.start.value, r.end.value), Max(r.start.value, r.end.value)) && Within(d, first, last)
    ensures e.Some? && first <= last ==> first <= e.value.start <= e.value.end <= last
  {
    if !Parsed(r) then None
    else
      var sd, ed := r.start.value, r.end.value;
      var (sd, ed) := if ed < sd then (ed, sd) else (sd, ed);
      if ed < first || sd > last then None
      else Some(Event(Max(sd, first), Min(ed, last), r.name, r.title))
  }

  function Opt<T>(o: Option<T>): (s: seq<T>) {
    if o.Some? then [o.value] else []
  }

  /** The events kept from `rs`, in the order of the records that yield them. */
  function Normalized(rs: seq<Record>, first: Date, last: Date): (evs: seq<Event>) {
    if rs == [] then []
    else Normalized(rs[..|rs| - 1], first, last) + Opt(NormalizeOne(rs[|rs| - 1], first, last))
  }

  /** The loop of `load_events`, after the file has been read: `None` when
      `month_range` raises. */
  method LoadEvents(records: seq<Record>, y: int, m: int) returns (evs: Option<seq<Event>>)
    ensures evs.Some? <==> MonthRange(y, m).Some?
    ensures evs.Some? ==> evs.value == Normalized(records, MonthRange(y, m).value.0, MonthRange(y, m).value.1)
    ensures evs.Some? ==> forall e :: e in evs.value ==>
              MonthRange(y, m).value.0 <= e.start <= e.end <= MonthRange(y, m).value.1
  {
    var range := MonthRange(y, m);
    if range.None? {
      return None;
    }
    var first, last := range.value.0, range.value.1;
    MonthRangeLength(y, m);
    var kept: seq<Event> := [];
    for i := 0 to |records|
      invariant kept == Normalized(records[..i], first, last)
      invariant forall e :: e in kept ==> first <= e.start <= e.end <= last
    {
      var r := records[i];
      assert records[..i + 1][..i] == records[..i];
      if r.start.None? || r.end.None? {
        continue;
      }
      var sd, ed := r.start.value, r.end.value;
      if ed < sd {
        sd, ed := ed, sd;
      }
      if ed < first || sd > last {
        continue;
      }
      kept := kept + [Event(Max(sd, first), Min(ed, last), r.name, r.title)];
    }
    assert records[..|records|] == records;
    return Some(kept);
  }

  /** Records are handled one at a time: the events of a concatenation are
      the concatenation of the events. */
  lemma {:induction false} NormalizedAppend(a: seq<Record>, b: seq<Record>, first: Date, last: Date)
    ensures Normalized(a + b, first, last) == Normalized(a, first, last) + Normalized(b, first, last)
    decreases |b|
  {
    if b != [] {
      assert (a + b)[..|a + b| - 1] == a + b[..|b| - 1];
      NormalizedAppend(a, b[..|b| - 1], first, last);
    } else {
      assert a + b == a;
    }
  }

  /** A record whose dates fail to parse is skipped without changing what the
      records around it yield. */
  lemma SkipUnparsed(a: seq<Record>, r: Record, b: seq<Record>, first: Date, last: Date)
    requires !Parsed(r)
    ensures Normalized(a + [r] + b, first, last) == Normalized(a, first, last) + Normalized(b, first, last)
  {
    NormalizedAppend(a + [r], b, first, last);
    NormalizedAppend(a, [r], first, last);
    assert [r][..0] == [];
    assert Normalized([r], first, last) == [];
    assert Normalized(a + [r], first, last) == Normalized(a, first, last);
  }

  /** A kept record's event sits between the events of the records before it
      and those of the records after it: input order is kept. */
  lemma KeptInOrder(rs: seq<Record>, i: int, first: Date, last: Date)
    requires 0 <= i < |rs| && NormalizeOne(rs[i], first, last).Some?
    ensures Normalized(rs, first, last) ==
              Normalized(rs[..i], first, last) + [NormalizeOne(rs[i], first, last).value]
              + Normalized(rs[i + 1..], first, last)
  {
    assert rs == rs[..i] + [rs[i]] + rs[i + 1..];
    NormalizedAppend(rs[..i] + [rs[i]], rs[i + 1..], first, last);
    NormalizedAppend(rs[..i], [rs[i]], first, last);
    assert [rs[i]][..0] == [];
  }

  /** Every loaded event lies within the month: first <= start <= end <= last. */
  lemma {:induction false} NormalizedWithinMonth(rs: seq<Record>, first: Date, last: Date)
    requires first <= last
    ensures forall e :: e in Normalized(rs, first, last) ==> first <= e.start <= e.end <= last
  {
    if rs != [] {
      NormalizedWithinMonth(rs[..|rs| - 1], first, last);
    }
  }

  /** The indices of the records that yield an event. */
  function KeptIndices(rs: seq<Record>, first: Date, last: Date): (ks: set<int>) {
    set i | 0 <= i < |rs| && NormalizeOne(rs[i], first, last).Some?
  }

  /** Exactly one event per record that parses and touches the month. */
  lemma {:induction false} NormalizedCount(rs: seq<Record>, first: Date, last: Date)
    ensures |Normalized(rs, first, last)| == |KeptIndices(rs, first, last)|
  {
    if rs != [] {
      var n := |rs| - 1;
      NormalizedCount(rs[..n], first, last);
      var pre := KeptIndices(rs[..n], first, last);
      var here: set<int> := if NormalizeOne(rs[n], first, last).Some? then {n} else {};
      forall i
        ensures i in KeptIndices(rs, first, last) <==> i in pre + here
      {
        if 0 <= i < n {
          assert rs[..n][i] == rs[i];
        }
      }
      assert KeptIndices(rs, first, last) == pre + here;
      assert n !in pre;
    }
  }
}
