/** The two-point clock interpolation of the time coupler, in exact arithmetic. */
module TimeCoupler {
  import opened Common

  /** A pair of simultaneous readings; zero marks a reading not taken. */
  datatype Tuple = Tuple(systemTime: nat, phcTime: nat)

  predicate IsValid(t: Tuple) { t.systemTime != 0 && t.phcTime != 0 }

  /** The result of the computation: no second valid tuple, a division by zero, or a line. */
  datatype Line = Unchanged | Undefined | Line(rate: real, offset: real)

  /** Unsigned 64-bit difference. */
  function Diff(a: nat, b: nat): nat { (a - b) % U64 }

  /** Rate and offset as the source computes them from the differences and the readings. */
  function TwoPointForm(ds: real, dp: real, s1: real, s2: real, p1: real, p2: real): Line
    requires ds != 0.0
  {
    Line(dp / ds, s2 * (p1 / ds) - s1 * (p2 / ds))
  }

  function Through(p: Tuple, q: Tuple): Line {
    var ds, dp := Diff(q.systemTime, p.systemTime) as real, Diff(q.phcTime, p.phcTime) as real;
    if ds == 0.0 then Undefined
    else TwoPointForm(ds, dp, p.systemTime as real, q.systemTime as real, p.phcTime as real, q.phcTime as real)
  }

  /** First valid tuple at or after `i`. */
  function FirstValid(entries: seq<Tuple>, i: nat): (r: nat)
    requires i <= |entries|
    ensures i <= r <= |entries| && (r < |entries| ==> IsValid(entries[r]))
    ensures forall k :: i <= k < r ==> !IsValid(entries[k])
    decreases |entries| - i
  {
    if i == |entries| || IsValid(entries[i]) then i else FirstValid(entries, i + 1)
  }

  /** The line through the first two valid tuples. */
  function Estimate(entries: seq<Tuple>): Line {
    var i := FirstValid(entries, 0);
    if i == |entries| then Unchanged
    else
      var j := FirstValid(entries, i + 1);
      if j == |entries| then Unchanged else Through(entries[i], entries[j])
  }

  method CalculateRateAndOffset(entries: seq<Tuple>) returns (line: Line)
    ensures line == Estimate(entries)
  {
    line := Unchanged;
    var prevSystemTime, prevPhcTime := 0, 0;
    var i := 0;
    while i < |entries|
      invariant 0 <= i <= |entries| && line == Unchanged
      invariant prevSystemTime == 0 <==> prevPhcTime == 0
      invariant prevSystemTime == 0 ==> FirstValid(entries, 0) == FirstValid(entries, i)
      invariant prevSystemTime != 0 ==>
                  var f := FirstValid(entries, 0);
                  && f < i && entries[f] == Tuple(prevSystemTime, prevPhcTime)
                  && FirstValid(entries, f + 1) == FirstValid(entries, i)
    {
      if entries[i].systemTime != 0 && entries[i].phcTime != 0 {
        if prevSystemTime == 0 && prevPhcTime == 0 {
          prevSystemTime, prevPhcTime := entries[i].systemTime, entries[i].phcTime;
        } else {
          line := Through(Tuple(prevSystemTime, prevPhcTime), entries[i]);
          return;
        }
      }
      i := i + 1;
    }
  }

  /** Conversion of a system time. */
  function Convert(l: Line, systemTime: real): real
    requires l.Line?
  {
    systemTime * l.rate + l.offset
  }

  lemma PositiveFactor(x: real, y: real)
    requires y > 0.0 && x * y > 0.0
    ensures x > 0.0
  {
  }

  /** The algebra of the two-point form. */
  lemma FormPassesThrough(s1: real, s2: real, p1: real, p2: real)
    requires s1 < s2 && p1 < p2
    ensures var l := TwoPointForm(s2 - s1, p2 - p1, s1, s2, p1, p2);
            l.rate > 0.0 && Convert(l, s1) == p1 && Convert(l, s2) == p2
  {
    var ds := s2 - s1;
    var a, b := p1 / ds, p2 / ds;
    assert a * ds == p1 && b * ds == p2;
    assert (p2 - p1) / ds == b - a;
    assert (b - a) * ds == p2 - p1;
    PositiveFactor(b - a, ds);
    assert s1 * (b - a) + (s2 * a - s1 * b) == a * ds;
    assert s2 * (b - a) + (s2 * a - s1 * b) == b * ds;
  }

  /** Both times increase, without exceeding 64 bits. */
  predicate Increasing(p: Tuple, q: Tuple) {
    p.systemTime < q.systemTime < U64 && p.phcTime < q.phcTime < U64
  }

  lemma DiffOfIncreasing(a: nat, b: nat)
    requires a < b < U64
    ensures Diff(b, a) == b - a
    ensures Diff(b, a) as real == b as real - a as real
  {
  }

  lemma NoWrap(p: Tuple, q: Tuple)
    requires Increasing(p, q)
    ensures Through(p, q)
         == TwoPointForm(q.systemTime as real - p.systemTime as real, q.phcTime as real - p.phcTime as real,
                         p.systemTime as real, q.systemTime as real, p.phcTime as real, q.phcTime as real)
  {
    DiffOfIncreasing(p.systemTime, q.systemTime);
    DiffOfIncreasing(p.phcTime, q.phcTime);
  }

  /** The line converts the tuple's system time to its PHC time. */
  predicate Passes(l: Line, t: Tuple) {
    l.Line? && Convert(l, t.systemTime as real) == t.phcTime as real
  }

  lemma Interpolates(p: Tuple, q: Tuple)
    requires Increasing(p, q)
    ensures var l := Through(p, q); l.Line? && l.rate > 0.0 && Passes(l, p) && Passes(l, q)
  {
    NoWrap(p, q);
    FormPassesThrough(p.systemTime as real, q.systemTime as real, p.phcTime as real, q.phcTime as real);
  }

  lemma ConvertIncreases(l: Line, s: real, t: real)
    requires l.Line? && l.rate > 0.0 && s < t
    ensures Convert(l, s) < Convert(l, t)
  {
    assert (t - s) * l.rate > 0.0;
  }

  /** There are two valid tuples, and the first two of them increase. */
  predicate FirstTwoIncrease(entries: seq<Tuple>) {
    var i := FirstValid(entries, 0);
    && i < |entries|
    && var j := FirstValid(entries, i + 1);
       j < |entries| && Increasing(entries[i], entries[j])
  }

  /** If the first two valid tuples have increasing times, the line passes through both and is
      strictly increasing. */
  lemma TwoPointLine(entries: seq<Tuple>)
    requires FirstTwoIncrease(entries)
    ensures var i := FirstValid(entries, 0);
            var j := FirstValid(entries, i + 1);
            var l := Estimate(entries);
            && Passes(l, entries[i]) && Passes(l, entries[j])
            && forall s: real, t: real :: s < t ==> Convert(l, s) < Convert(l, t)
  {
    var i := FirstValid(entries, 0);
    var j := FirstValid(entries, i + 1);
    Interpolates(entries[i], entries[j]);
    var l := Estimate(entries);
    forall s: real, t: real | s < t ensures Convert(l, s) < Convert(l, t) {
      ConvertIncreases(l, s, t);
    }
  }

  /** Two lines that agree at two different times are the same line. */
  lemma SameLine(s1: real, s2: real, l: Line, m: Line)
    requires s1 != s2 && l.Line? && m.Line?
    requires Convert(l, s1) == Convert(m, s1) && Convert(l, s2) == Convert(m, s2)
    ensures l == m
  {
    assert (s2 - s1) * (l.rate - m.rate) == 0.0;
  }

  lemma LineThroughTwo(p: Tuple, q: Tuple, m: Line)
    requires Increasing(p, q) && Passes(m, p) && Passes(m, q)
    ensures Through(p, q) == m
  {
    Interpolates(p, q);
    SameLine(p.systemTime as real, q.systemTime as real, Through(p, q), m);
  }

  /** If moreover all valid tuples lie on one line, that very line is recovered. */
  lemma RecoversCommonLine(entries: seq<Tuple>, m: Line)
    requires FirstTwoIncrease(entries)
    requires forall k :: 0 <= k < |entries| && IsValid(entries[k]) ==> Passes(m, entries[k])
    ensures Estimate(entries) == m
  {
    var i := FirstValid(entries, 0);
    var j := FirstValid(entries, i + 1);
    LineThroughTwo(entries[i], entries[j], m);
  }

  /** The cast to an unsigned 64-bit number: cuts off the fraction, and is undefined for a value
      whose whole part does not fit. */
  function ToUint64(x: real): (r: Option<nat>)
    ensures r.Some? <==> -1.0 < x < U64 as real
    ensures r.Some? && x >= 0.0 ==> r.value as real <= x < r.value as real + 1.0
    ensures r.Some? && x < 0.0 ==> r.value == 0
  {
    if x <= -1.0 || x >= U64 as real then None
    else if x < 0.0 then Some(0) else Some(x.Floor)
  }

  /** The synchronised time: the conversion of the local time, cast. */
  function SynchronizedTime(l: Line, localTime: nat): Option<nat>
    requires l.Line?
  {
    ToUint64(Convert(l, localTime as real))
  }

  lemma CastMonotone(x: real, y: real)
    requires x <= y && ToUint64(x).Some? && ToUint64(y).Some?
    ensures ToUint64(x).value <= ToUint64(y).value
  {
  }

  /** At the tuples themselves the synchronised time is the PHC time, it is defined at every local
      time between them, and where defined it never goes back. */
  lemma SynchronizedTimeMonotone(p: Tuple, q: Tuple, a: nat, b: nat)
    requires Increasing(p, q) && a <= b
    ensures var l := Through(p, q);
            && l.Line?
            && SynchronizedTime(l, p.systemTime) == Some(p.phcTime)
            && SynchronizedTime(l, q.systemTime) == Some(q.phcTime)
            && (p.systemTime <= a <= q.systemTime ==> SynchronizedTime(l, a).Some?)
            && (SynchronizedTime(l, a).Some? && SynchronizedTime(l, b).Some? ==>
                  SynchronizedTime(l, a).value <= SynchronizedTime(l, b).value)
  {
    Interpolates(p, q);
    var l := Through(p, q);
    ConvertOrder(l, a, b);
    if p.systemTime <= a <= q.systemTime {
      ConvertOrder(l, p.systemTime, a);
      ConvertOrder(l, a, q.systemTime);
    }
    if SynchronizedTime(l, a).Some? && SynchronizedTime(l, b).Some? {
      CastMonotone(Convert(l, a as real), Convert(l, b as real));
    }
  }

  lemma ConvertOrder(l: Line, a: nat, b: nat)
    requires l.Line? && l.rate > 0.0 && a <= b
    ensures Convert(l, a as real) <= Convert(l, b as real)
  {
    if a < b {
      ConvertIncreases(l, a as real, b as real);
    }
  }

  /** Entries `i` and `j` are the first two with both times taken. */
  ghost predicate FirstTwo(entries: seq<Tuple>, i: nat, j: nat) {
    && i < j < |entries|
    && forall k :: 0 <= k <= j ==> (entries[k].systemTime != 0 && entries[k].phcTime != 0 <==> k == i || k == j)
  }

  /** Nothing is computed exactly when there are no two such entries. */
  lemma UnchangedExactly(entries: seq<Tuple>)
    ensures Estimate(entries) == Unchanged <==> !exists i: nat, j: nat :: FirstTwo(entries, i, j)
  {
    var i := FirstValid(entries, 0);
    forall k: nat, l: nat | FirstTwo(entries, k, l)
      ensures i == k && FirstValid(entries, i + 1) == l
    {
      FirstTwoFound(entries, k, l);
    }
    if Estimate(entries) != Unchanged {
      assert FirstTwo(entries, i, FirstValid(entries, i + 1));
    }
  }

  lemma FirstTwoFound(entries: seq<Tuple>, i: nat, j: nat)
    requires FirstTwo(entries, i, j)
    ensures FirstValid(entries, 0) == i && FirstValid(entries, i + 1) == j
  {
    assert IsValid(entries[i]) && IsValid(entries[j]);
  }

  /** The division is by zero exactly when their 64-bit system times coincide. */
  lemma UndefinedExactly(entries: seq<Tuple>, i: nat, j: nat)
    requires FirstTwo(entries, i, j)
    requires entries[i].systemTime < U64 && entries[j].systemTime < U64
    ensures Estimate(entries) == Undefined <==> entries[i].systemTime == entries[j].systemTime
    ensures Estimate(entries) != Unchanged
  {
    FirstTwoFound(entries, i, j);
  }
}
