/** The event-counting loop of the script (habits.py lines 182-191): every VEVENT of
    the parsed calendar contributes its start date, truncated from a date-time to a
    date where needed, and the dates are tallied into a map from date to count. */
module Counting {
  import opened Wrappers
  import opened Calendar

  /** The value of a DTSTART property: a whole day, or a date with a time of day. */
  datatype Start = OnDate(date: Date) | AtTime(date: Date, hour: int, minute: int, second: int)

  /** A top-level component of the parsed calendar: its name and its DTSTART, if any. */
  datatype Component = Component(name: string, dtstart: Option<Start>)

  predicate IsEvent(c: Component) {
    c.name == "VEVENT"
  }

  /** `event_date.date()` for a date-time, the value itself for a date. */
  function Truncate(s: Start): Date {
    match s
    case OnDate(d) => d
    case AtTime(d, _, _, _) => d
  }

  /** Two starts are counted on one day exactly when they carry the same date, whatever
      their times of day, and whether or not they have one. */
  lemma TruncateDropsTime(s: Start, t: Start)
    ensures Truncate(s) == Truncate(t) <==> s.date == t.date
    ensures Truncate(AtTime(s.date, 0, 0, 0)) == Truncate(OnDate(s.date))
  {
  }

  /** The number of VEVENT components. */
  function EventCount(cs: seq<Component>): nat {
    if cs == [] then 0
    else (if IsEvent(cs[0]) then 1 else 0) + EventCount(cs[1..])
  }

  /** Every VEVENT carries a DTSTART; otherwise reading `component.dtstart` raises. */
  predicate EventsHaveStarts(cs: seq<Component>) {
    forall i :: 0 <= i < |cs| && IsEvent(cs[i]) ==> cs[i].dtstart.Some?
  }

  /** The number of VEVENTs whose DTSTART, truncated, is the day `d`. */
  function EventsOn(cs: seq<Component>, d: Date): nat {
    if cs == [] then 0
    else
      var here := IsEvent(cs[0]) && cs[0].dtstart.Some? && Truncate(cs[0].dtstart.value) == d;
      (if here then 1 else 0) + EventsOn(cs[1..], d)
  }

  /** The truncated start dates of the VEVENTs, in component order; `None` when a VEVENT
      has no DTSTART (the loop stops with an attribute error). */
  function StartDates(cs: seq<Component>): (r: Option<seq<Date>>)
    ensures r.Some? <==> EventsHaveStarts(cs)
    ensures r.Some? ==> |r.value| == EventCount(cs)
    ensures r.Some? ==> forall d :: d in r.value <==>
      exists i :: 0 <= i < |cs| && IsEvent(cs[i]) && cs[i].dtstart.Some? && Truncate(cs[i].dtstart.value) == d
    ensures r.Some? ==> forall d :: multiset(r.value)[d] == EventsOn(cs, d)
  {
    if cs == [] then Some([])
    else
      var rest := StartDates(cs[1..]);
      assert forall i :: 0 < i < |cs| ==> cs[i] == cs[1..][i - 1];
      if !IsEvent(cs[0]) then rest
      else if cs[0].dtstart.None? then None
      else if rest.None? then None
      else Some([Truncate(cs[0].dtstart.value)] + rest.value)
  }

  /** How many times `d` occurs in `ds`. */
  function Occurrences(ds: seq<Date>, d: Date): nat {
    if ds == [] then 0
    else Occurrences(ds[..|ds| - 1], d) + (if ds[|ds| - 1] == d then 1 else 0)
  }

  /** `Occurrences` is the multiplicity of `d` in `ds`. */
  lemma {:induction false} OccurrencesCount(ds: seq<Date>, d: Date)
    ensures Occurrences(ds, d) == multiset(ds)[d]
  {
    if ds != [] {
      assert ds == ds[..|ds| - 1] + [ds[|ds| - 1]];
      OccurrencesCount(ds[..|ds| - 1], d);
    }
  }

  /** The `event_counts` dictionary after the loop has seen the dates `ds` in order:
      a first occurrence stores 1, a later one adds 1. */
  function Tally(ds: seq<Date>): (r: map<Date, nat>)
    ensures forall d :: d in r <==> d in ds
    ensures forall d :: d in r ==> r[d] == Occurrences(ds, d) && r[d] >= 1
  {
    if ds == [] then map[]
    else
      var front, d := ds[..|ds| - 1], ds[|ds| - 1];
      assert ds == front + [d];
      var m := Tally(front);
      if d in m then m[d := m[d] + 1]
      else
        OccurrencesCount(front, d);
        m[d := 1]
  }

  /** The sum of a count table's values. */
  ghost function SumValues(m: map<Date, nat>): nat
    decreases |m|
  {
    if m == map[] then 0
    else
      var k :| k in m;
      assert (m - {k}).Keys == m.Keys - {k};
      m[k] + SumValues(m - {k})
  }

  /** The sum does not depend on which key is taken out first. */
  lemma {:induction false} SumValuesRemove(m: map<Date, nat>, k: Date)
    requires k in m
    ensures SumValues(m) == m[k] + SumValues(m - {k})
    decreases |m|
  {
    var j :| j in m && SumValues(m) == m[j] + SumValues(m - {j});
    if j != k {
      assert (m - {j}).Keys == m.Keys - {j};
      assert (m - {k}).Keys == m.Keys - {k};
      SumValuesRemove(m - {j}, k);
      SumValuesRemove(m - {k}, j);
      assert (m - {j}) - {k} == (m - {k}) - {j};
    }
  }

  /** Setting the entry of `k` to `v` changes the sum by the difference. */
  lemma SumValuesUpdate(m: map<Date, nat>, k: Date, v: nat)
    ensures SumValues(m[k := v]) == SumValues(m - {k}) + v
    ensures k in m ==> SumValues(m) == SumValues(m - {k}) + m[k]
  {
    SumValuesRemove(m[k := v], k);
    assert m[k := v] - {k} == m - {k};
    if k in m {
      SumValuesRemove(m, k);
    }
  }

  /** Each date adds exactly one, so the counts add up to the number of dates. */
  lemma {:induction false} TallyTotal(ds: seq<Date>)
    ensures SumValues(Tally(ds)) == |ds|
  {
    if ds != [] {
      var front, d := ds[..|ds| - 1], ds[|ds| - 1];
      TallyLast(ds);
      TallyTotal(front);
      SumAfterStep(Tally(front), d, Tally(ds));
    }
  }

  /** One step of the loop adds one to the sum of the counts. */
  lemma SumAfterStep(m: map<Date, nat>, d: Date, r: map<Date, nat>)
    requires r == if d in m then m[d := m[d] + 1] else m[d := 1]
    ensures SumValues(r) == SumValues(m) + 1
  {
    var rest := m - {d};
    if d in m {
      SumValuesUpdate(m, d, m[d] + 1);
      assert SumValues(r) == SumValues(rest) + m[d] + 1;
      assert SumValues(m) == SumValues(rest) + m[d];
    } else {
      SumValuesUpdate(m, d, 1);
      assert rest == m;
    }
  }

  /** The last date seen adds one to its entry, or enters with 1. */
  lemma TallyLast(ds: seq<Date>)
    requires ds != []
    ensures var m, d := Tally(ds[..|ds| - 1]), ds[|ds| - 1];
      Tally(ds) == if d in m then m[d := m[d] + 1] else m[d := 1]
  {
  }

  /** `event_counts` for the parsed calendar `cs`, or `None` when the loop fails. */
  function CountEvents(cs: seq<Component>): (r: Option<map<Date, nat>>)
    ensures r.Some? <==> EventsHaveStarts(cs)
    ensures r.Some? ==> forall d :: d in r.value <==> EventsOn(cs, d) > 0
    ensures r.Some? ==> forall d :: d in r.value ==> r.value[d] == EventsOn(cs, d) && r.value[d] >= 1
  {
    match StartDates(cs)
    case None => None
    case Some(ds) =>
      forall d
        ensures Occurrences(ds, d) == multiset(ds)[d]
      {
        OccurrencesCount(ds, d);
      }
      Some(Tally(ds))
  }

  /** The counts add up to the number of VEVENT components. */
  lemma CountEventsTotal(cs: seq<Component>)
    requires EventsHaveStarts(cs)
    ensures SumValues(CountEvents(cs).value) == EventCount(cs)
  {
    TallyTotal(StartDates(cs).value);
  }
}
