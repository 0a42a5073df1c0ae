/** Time grids: mandatory times, regular inner points, and nearest-node lookup. Times are reals. */
module TimeGrids {
  import opened Comparison
  import opened Ids
  import opened Sequences

  type Time = real

  datatype TimeGrid = TimeGrid(times: seq<Time>, dt: seq<Time>, mandatoryTimes: seq<Time>)

  // ----- library algorithms -----

  ghost predicate Ascending(s: seq<Time>) {
    forall i, j :: 0 <= i < j < |s| ==> s[i] <= s[j]
  }

  ghost predicate StrictlyAscending(s: seq<Time>) {
    forall i, j :: 0 <= i < j < |s| ==> s[i] < s[j]
  }

  function Insert(x: Time, s: seq<Time>): (r: seq<Time>)
    ensures |r| == |s| + 1
  {
    if s == [] || x <= s[0] then [x] + s else [s[0]] + Insert(x, s[1..])
  }

  /** `std::sort` */
  function Sort(s: seq<Time>): (r: seq<Time>)
    ensures |r| == |s|
  {
    if s == [] then [] else Insert(s[0], Sort(s[1..]))
  }

  lemma {:induction false} InsertPermutes(x: Time, s: seq<Time>)
    ensures multiset(Insert(x, s)) == multiset(s) + multiset{x}
  {
    if s != [] && x > s[0] {
      InsertPermutes(x, s[1..]);
      assert s == [s[0]] + s[1..];
    }
  }

  lemma {:induction false} InsertAscends(x: Time, s: seq<Time>)
    requires Ascending(s)
    ensures Ascending(Insert(x, s))
    ensures forall i :: 0 <= i < |Insert(x, s)| ==> Insert(x, s)[i] >= if s == [] || x <= s[0] then x else s[0]
  {
    if s != [] && x > s[0] {
      InsertAscends(x, s[1..]);
    }
  }

  lemma {:induction false} SortSorts(s: seq<Time>)
    ensures Ascending(Sort(s)) && multiset(Sort(s)) == multiset(s)
  {
    if s != [] {
      SortSorts(s[1..]);
      InsertPermutes(s[0], Sort(s[1..]));
      InsertAscends(s[0], Sort(s[1..]));
      assert s == [s[0]] + s[1..];
    }
  }

  type Closeness = (Time, Time) -> bool

  ghost predicate Reflexive(close: Closeness) {
    forall x :: close(x, x)
  }

  /** `std::unique`: an element close to the last one kept is dropped. */
  function Unique(close: Closeness, s: seq<Time>): (r: seq<Time>)
    requires s != []
    ensures r != []
  {
    if |s| == 1 then s
    else
      var kept, x := Unique(close, s[..|s| - 1]), s[|s| - 1];
      if close(kept[|kept| - 1], x) then kept else kept + [x]
  }

  /** The kept time at `k` is the last one not after `x`. */
  ghost predicate LastNotAfter(kept: seq<Time>, x: Time, k: nat) {
    k < |kept| && kept[k] <= x && (k + 1 < |kept| ==> x < kept[k + 1])
  }

  /** The last kept time that is not after `x` is close to it. */
  ghost predicate Covered(close: Closeness, kept: seq<Time>, x: Time) {
    exists k: nat :: LastNotAfter(kept, x, k) && close(kept[k], x)
  }

  /** What is kept of ascending times is strictly ascending and starts with the first. */
  lemma {:induction false} UniqueAscends(close: Closeness, s: seq<Time>)
    requires s != [] && Ascending(s) && Reflexive(close)
    ensures StrictlyAscending(Unique(close, s)) && Unique(close, s)[0] == s[0]
    ensures Unique(close, s)[|Unique(close, s)| - 1] <= s[|s| - 1]
  {
    if |s| > 1 {
      var n := |s| - 1;
      UniqueAscends(close, s[..n]);
      var kept := Unique(close, s[..n]);
      assert kept[|kept| - 1] <= s[n - 1] <= s[n];
      if !close(kept[|kept| - 1], s[n]) {
        assert kept[|kept| - 1] != s[n] by { assert close(s[n], s[n]); }
        AppendAscends(kept, s[n]);
      }
    }
  }

  lemma AppendAscends(s: seq<Time>, x: Time)
    requires s != [] && StrictlyAscending(s) && s[|s| - 1] < x
    ensures StrictlyAscending(s + [x])
  {
    forall i, j | 0 <= i < j < |s + [x]| ensures (s + [x])[i] < (s + [x])[j] {
      assert i < |s| - 1 ==> s[i] < s[|s| - 1];
    }
  }

  lemma {:induction false} UniqueKeeps(close: Closeness, s: seq<Time>, i: nat)
    requires s != [] && i < |Unique(close, s)|
    ensures Unique(close, s)[i] in s
  {
    if |s| > 1 && i < |Unique(close, s[..|s| - 1])| {
      UniqueKeeps(close, s[..|s| - 1], i);
    }
  }

  /** Neighbouring kept times are not close. */
  lemma {:induction false} UniqueApart(close: Closeness, s: seq<Time>, i: nat)
    requires s != [] && i + 1 < |Unique(close, s)|
    ensures !close(Unique(close, s)[i], Unique(close, s)[i + 1])
  {
    if i + 1 < |Unique(close, s[..|s| - 1])| {
      UniqueApart(close, s[..|s| - 1], i);
    }
  }

  lemma UniqueLast(close: Closeness, s: seq<Time>)
    requires s != [] && Ascending(s) && Reflexive(close)
    ensures Unique(close, s)[|Unique(close, s)| - 1] <= s[|s| - 1]
    ensures close(Unique(close, s)[|Unique(close, s)| - 1], s[|s| - 1])
  {
    UniqueAscends(close, s);
  }

  /** Each of ascending times is close to the last kept one that is not after it. */
  lemma {:induction false} UniqueCovers(close: Closeness, s: seq<Time>, i: nat) returns (k: nat)
    requires s != [] && Ascending(s) && Reflexive(close) && i < |s|
    ensures LastNotAfter(Unique(close, s), s[i], k) && close(Unique(close, s)[k], s[i])
  {
    var n := |s| - 1;
    UniqueLast(close, s);
    if i < n {
      var init := s[..n];
      var kept := Unique(close, init);
      if close(kept[|kept| - 1], s[n]) || s[i] < s[n] {
        k := UniqueCovers(close, init, i);
        return;
      }
      assert s[i] == s[n];
    }
    k := |Unique(close, s)| - 1;
  }

  /** `std::adjacent_difference`: the first element is copied. */
  function AdjacentDifference(s: seq<Time>): (d: seq<Time>)
    ensures |d| == |s|
    ensures forall i :: 0 <= i < |s| ==> d[i] == if i == 0 then s[0] else s[i] - s[i - 1]
  {
    seq(|s|, i requires 0 <= i < |s| => if i == 0 then s[0] else s[i] - s[i - 1])
  }

  /** `std::min_element` */
  function Minimum(s: seq<Time>): (m: Time)
    requires s != []
    ensures m in s && forall i :: 0 <= i < |s| ==> m <= s[i]
  {
    if |s| == 1 then s[0]
    else
      var m := Minimum(s[1..]);
      assert s == [s[0]] + s[1..];
      if s[0] <= m then s[0] else m
  }

  /** The times a grid keeps of those given. */
  function Kept(close: Closeness, ts: seq<Time>): (ms: seq<Time>)
    requires ts != []
    ensures ms != []
  {
    Unique(close, Sort(ts))
  }

  lemma SortMembers(ts: seq<Time>, t: Time)
    ensures t in Sort(ts) <==> t in ts
  {
    SortSorts(ts);
    assert t in ts <==> t in multiset(ts);
    assert t in Sort(ts) <==> t in multiset(Sort(ts));
  }

  /** The kept times are given ones, strictly ascending, and neighbours are not close; every given time
      is close to the last kept one that is not after it; and the first is negative exactly when some
      given time is. */
  lemma KeptMeaning(close: Closeness, ts: seq<Time>)
    requires ts != [] && Reflexive(close)
    ensures StrictlyAscending(Kept(close, ts))
    ensures forall i :: 0 <= i < |Kept(close, ts)| ==> Kept(close, ts)[i] in ts
    ensures forall i :: 0 < i < |Kept(close, ts)| ==> !close(Kept(close, ts)[i - 1], Kept(close, ts)[i])
    ensures forall t :: t in ts ==> Covered(close, Kept(close, ts), t)
    ensures Kept(close, ts)[0] < 0.0 <==> exists t :: t in ts && t < 0.0
  {
    var s := Sort(ts);
    SortSorts(ts);
    UniqueAscends(close, s);
    forall i | 0 <= i < |Kept(close, ts)| ensures Kept(close, ts)[i] in ts {
      UniqueKeeps(close, s, i);
      SortMembers(ts, Kept(close, ts)[i]);
    }
    forall i | 0 < i < |Kept(close, ts)| ensures !close(Kept(close, ts)[i - 1], Kept(close, ts)[i]) {
      UniqueApart(close, s, i - 1);
    }
    forall t | t in ts ensures Covered(close, Kept(close, ts), t) && s[0] <= t {
      SortMembers(ts, t);
      var i: nat :| i < |s| && s[i] == t;
      var k := UniqueCovers(close, s, i);
    }
    assert s[0] in s;
    SortMembers(ts, s[0]);
  }

  // ----- inner points -----

  /** The number of steps in a period: the nearest integer to its length in units of `dtMax`, but
      at least one. */
  function StepCount(length: Time, dtMax: Time): (n: int)
    requires dtMax > 0.0 && length > 0.0
    ensures n >= 1
  {
    assert length / dtMax > 0.0;
    var n := (length / dtMax + 0.5).Floor;
    if n != 0 then n else 1
  }

  /** Rounding: the steps overshoot by less than one and fall short by less than a half. */
  lemma StepCountBounds(length: Time, dtMax: Time)
    requires dtMax > 0.0 && length > 0.0
    ensures var n := StepCount(length, dtMax) as real;
      && (n - 1.0) * dtMax < length < (n + 0.5) * dtMax
      && (dtMax <= length ==> (n - 0.5) * dtMax <= length)
  {
    var x := length / dtMax;
    var n := StepCount(length, dtMax) as real;
    assert n - 1.0 < x < n + 0.5;
    InUnits(length, dtMax, n - 1.0);
    InUnits(length, dtMax, n + 0.5);
    InUnits(length, dtMax, n - 0.5);
    InUnits(length, dtMax, 1.0);
  }

  /** Comparing a length with a multiple of `d`. */
  lemma InUnits(length: Time, d: Time, y: real)
    requires d > 0.0
    ensures (y < length / d <==> y * d < length) && (y <= length / d <==> y * d <= length)
  {
    var x := length / d;
    assert x * d == length;
    if y < x { Scale(y, x, d); }
    if x < y { Scale(x, y, d); }
  }

  lemma Scale(x: real, y: real, d: real)
    requires x < y && d > 0.0
    ensures x * d < y * d
  {
  }

  function PointAt(begin: Time, dt: Time, i: nat): Time {
    begin + i as real * dt
  }

  lemma NextPoint(begin: Time, dt: Time, i: nat)
    ensures PointAt(begin, dt, 0) == begin
    ensures PointAt(begin, dt, i + 1) == PointAt(begin, dt, i) + dt
  {
    assert (i + 1) as real * dt == i as real * dt + dt;
  }

  /** The length of a step when the period is divided into `n`. */
  function StepLength(begin: Time, end: Time, n: nat): Time
    requires n > 0
  {
    (end - begin) / n as real
  }

  lemma LastPoint(begin: Time, end: Time, n: nat)
    requires n > 0
    ensures PointAt(begin, StepLength(begin, end, n), n) == end
    ensures begin < end ==> StepLength(begin, end, n) > 0.0
  {
    var m := n as real;
    assert ((end - begin) / m) * m == end - begin;
  }

  /** The points of a period after its begin: `n` equal steps. */
  function Inner(begin: Time, dt: Time, n: nat): (ps: seq<Time>)
    ensures |ps| == n && forall i :: 0 <= i < n ==> ps[i] == PointAt(begin, dt, i + 1)
  {
    seq(n, i requires 0 <= i < n => PointAt(begin, dt, i + 1))
  }

  /** The mandatory times follow `begin`: strictly ascending, the first after `begin` unless both
      are zero. */
  ghost predicate Periods(begin: Time, ms: seq<Time>) {
    StrictlyAscending(ms) && begin >= 0.0 && (ms != [] ==> begin < ms[0] || begin == ms[0] == 0.0)
  }

  ghost predicate Divides(dtMax: Time, ms: seq<Time>) {
    dtMax > 0.0 || forall i :: 0 <= i < |ms| ==> ms[i] == 0.0
  }

  /** The points of the period from `begin` to `end`; a mandatory time of zero makes no period. */
  function PeriodPoints(begin: Time, end: Time, dtMax: Time): seq<Time>
    requires end != 0.0 ==> begin < end && dtMax > 0.0
  {
    if end == 0.0 then []
    else
      var n := StepCount(end - begin, dtMax);
      Inner(begin, StepLength(begin, end, n), n)
  }

  /** The points after `begin`, period by period. */
  ghost function PointsAfter(begin: Time, ms: seq<Time>, dtMax: Time): seq<Time>
    requires Periods(begin, ms) && Divides(dtMax, ms)
    decreases |ms|
  {
    if ms == [] then [] else PeriodPoints(begin, ms[0], dtMax) + PointsAfter(ms[0], ms[1..], dtMax)
  }

  function StepAt(begin: Time, points: seq<Time>, i: nat): Time
    requires i < |points|
  {
    if i == 0 then points[0] - begin else points[i] - points[i - 1]
  }

  ghost predicate GoodStep(begin: Time, points: seq<Time>, i: nat, ok: Time -> bool)
    requires i < |points|
  {
    var step := StepAt(begin, points, i);
    step > 0.0 && ok(step)
  }

  /** `points` climbs from `begin` to `end` in positive steps that satisfy `ok`. */
  ghost predicate Climbs(begin: Time, points: seq<Time>, end: Time, ok: Time -> bool) {
    && (forall i :: 0 <= i < |points| ==> GoodStep(begin, points, i, ok))
    && end == if points == [] then begin else points[|points| - 1]
  }

  lemma InnerClimbs(begin: Time, end: Time, n: nat, ok: Time -> bool)
    requires begin < end && n > 0 && ok(StepLength(begin, end, n))
    ensures Climbs(begin, Inner(begin, StepLength(begin, end, n), n), end, ok)
  {
    var dt := StepLength(begin, end, n);
    LastPoint(begin, end, n);
    var ps := Inner(begin, dt, n);
    forall i | 0 <= i < n ensures GoodStep(begin, ps, i, ok) {
      NextPoint(begin, dt, i);
    }
  }

  lemma ClimbsConcat(a: Time, xs: seq<Time>, b: Time, ys: seq<Time>, c: Time, ok: Time -> bool)
    requires Climbs(a, xs, b, ok) && Climbs(b, ys, c, ok)
    ensures Climbs(a, xs + ys, c, ok)
  {
    forall i | 0 <= i < |xs + ys| ensures GoodStep(a, xs + ys, i, ok) {
      if i < |xs| {
        assert GoodStep(a, xs, i, ok);
        assert StepAt(a, xs + ys, i) == StepAt(a, xs, i);
      } else {
        assert GoodStep(b, ys, i - |xs|, ok);
        assert StepAt(a, xs + ys, i) == StepAt(b, ys, i - |xs|);
      }
    }
  }

  lemma {:induction false} NeighboursAscend(s: seq<Time>, i: nat, j: nat)
    requires forall k :: 0 < k < |s| ==> s[k - 1] < s[k]
    requires i < j < |s|
    ensures s[i] < s[j]
    decreases j - i
  {
    if i + 1 < j {
      NeighboursAscend(s, i, j - 1);
    }
    assert s[j - 1] < s[j];
  }

  /** A climb is strictly ascending. */
  lemma ClimbAscends(begin: Time, points: seq<Time>, end: Time, ok: Time -> bool)
    requires Climbs(begin, points, end, ok)
    ensures StrictlyAscending([begin] + points)
  {
    var all := [begin] + points;
    forall k | 0 < k < |all| ensures all[k - 1] < all[k] {
      assert GoodStep(begin, points, k - 1, ok);
    }
    forall i, j | 0 <= i < j < |all| ensures all[i] < all[j] {
      NeighboursAscend(all, i, j);
    }
  }

  // ----- all periods -----

  function BeginOf(begin: Time, ms: seq<Time>, i: nat): Time
    requires i < |ms|
  {
    if i == 0 then begin else ms[i - 1]
  }

  function LastOf(begin: Time, ms: seq<Time>): Time {
    if ms == [] then begin else ms[|ms| - 1]
  }

  /** The step length of every period satisfies `ok`. */
  ghost predicate StepsOk(begin: Time, ms: seq<Time>, dtMax: Time, ok: Time -> bool)
    requires Periods(begin, ms) && Divides(dtMax, ms)
  {
    forall i :: 0 <= i < |ms| && ms[i] != 0.0 ==> PeriodOk(BeginOf(begin, ms, i), ms[i], dtMax, ok)
  }

  ghost predicate PeriodOk(begin: Time, end: Time, dtMax: Time, ok: Time -> bool) {
    begin < end && dtMax > 0.0 && ok(StepLength(begin, end, StepCount(end - begin, dtMax)))
  }

  /** The points climb to the last mandatory time and pass through every nonzero one. */
  lemma {:induction false} PointsClimb(begin: Time, ms: seq<Time>, dtMax: Time, ok: Time -> bool)
    requires Periods(begin, ms) && Divides(dtMax, ms) && StepsOk(begin, ms, dtMax, ok)
    ensures Climbs(begin, PointsAfter(begin, ms, dtMax), LastOf(begin, ms), ok)
    decreases |ms|
  {
    if ms != [] {
      var m, rest := ms[0], ms[1..];
      forall i | 0 <= i < |rest| && rest[i] != 0.0 ensures PeriodOk(BeginOf(m, rest, i), rest[i], dtMax, ok) {
        assert PeriodOk(BeginOf(begin, ms, i + 1), ms[i + 1], dtMax, ok);
      }
      PointsClimb(m, rest, dtMax, ok);
      if m != 0.0 {
        assert PeriodOk(BeginOf(begin, ms, 0), ms[0], dtMax, ok);
        InnerClimbs(begin, m, StepCount(m - begin, dtMax), ok);
      }
      ClimbsConcat(begin, PeriodPoints(begin, m, dtMax), m, PointsAfter(m, rest, dtMax), LastOf(begin, ms), ok);
    }
  }

  lemma {:induction false} PointsContain(begin: Time, ms: seq<Time>, dtMax: Time, i: nat)
    requires Periods(begin, ms) && Divides(dtMax, ms) && i < |ms| && ms[i] != 0.0
    ensures ms[i] in PointsAfter(begin, ms, dtMax)
    decreases |ms|
  {
    if i > 0 {
      PointsContain(ms[0], ms[1..], dtMax, i - 1);
    } else {
      var n := StepCount(ms[0] - begin, dtMax);
      LastPoint(begin, ms[0], n);
      assert PeriodPoints(begin, ms[0], dtMax)[n - 1] == ms[0];
    }
  }

  /** The number of mandatory times that end a period. */
  function NonZero(ms: seq<Time>): nat {
    if ms != [] && ms[0] == 0.0 then |ms| - 1 else |ms|
  }

  /** The total number of points, in units of `dtMax`, against the length of the grid. */
  ghost predicate CountWithin(points: int, k: int, length: Time, dtMax: Time) {
    if k == 0 then points == 0 && length == 0.0
    else Scaled((points - k) as real, dtMax) < length < Scaled(points as real + k as real * 0.5, dtMax)
  }

  function Scaled(x: real, d: real): real { x * d }

  lemma CountAdds(n: int, length: Time, points: int, k: int, rest: Time, dtMax: Time)
    requires Scaled((n - 1) as real, dtMax) < length < Scaled(n as real + 0.5, dtMax)
    requires CountWithin(points, k, rest, dtMax) && k >= 0
    ensures CountWithin(n + points, k + 1, length + rest, dtMax)
  {
    var a, b := (n - 1) as real, (points - k) as real;
    assert Scaled(a, dtMax) + Scaled(b, dtMax) == Scaled(a + b, dtMax);
    var c, d := n as real + 0.5, points as real + k as real * 0.5;
    assert Scaled(c, dtMax) + Scaled(d, dtMax) == Scaled(c + d, dtMax);
  }

  lemma {:induction false} PointsCount(begin: Time, ms: seq<Time>, dtMax: Time)
    requires Periods(begin, ms) && dtMax > 0.0
    ensures CountWithin(|PointsAfter(begin, ms, dtMax)|, NonZero(ms), LastOf(begin, ms) - begin, dtMax)
    decreases |ms|
  {
    if ms != [] {
      PointsCount(ms[0], ms[1..], dtMax);
      if ms[0] != 0.0 {
        var n := StepCount(ms[0] - begin, dtMax);
        PeriodCount(ms[0] - begin, dtMax);
        assert |PointsAfter(begin, ms, dtMax)| == n + |PointsAfter(ms[0], ms[1..], dtMax)|;
        CountAdds(n, ms[0] - begin, |PointsAfter(ms[0], ms[1..], dtMax)|, NonZero(ms[1..]),
                  LastOf(ms[0], ms[1..]) - ms[0], dtMax);
      }
    }
  }

  lemma PeriodCount(length: Time, dtMax: Time)
    requires dtMax > 0.0 && length > 0.0
    ensures var n := StepCount(length, dtMax);
      Scaled((n - 1) as real, dtMax) < length < Scaled(n as real + 0.5, dtMax)
  {
    StepCountBounds(length, dtMax);
  }

  // ----- step bounds -----

  /** Every step is below one and a half times `dtMax`. */
  lemma StepBelow(begin: Time, end: Time, dtMax: Time)
    requires begin < end && dtMax > 0.0
    ensures StepLength(begin, end, StepCount(end - begin, dtMax)) < 1.5 * dtMax
  {
    var n := StepCount(end - begin, dtMax) as real;
    StepCountBounds(end - begin, dtMax);
    var bound := 1.5 * dtMax;
    assert (n + 0.5) * dtMax <= n * bound by {
      assert n * bound - (n + 0.5) * dtMax == 0.5 * (n - 1.0) * dtMax;
    }
    DivideBelow(end - begin, n, bound);
  }

  lemma DivideBelow(length: Time, n: real, bound: Time)
    requires n > 0.0 && length < n * bound
    ensures length / n < bound
  {
    var x := length / n;
    assert x * n == length;
    if x >= bound {
      assert x * n >= bound * n;
    }
  }

  lemma DivideAbove(length: Time, n: real, bound: Time)
    requires n > 0.0 && n * bound <= length
    ensures bound <= length / n
  {
    var x := length / n;
    assert x * n == length;
    if x < bound {
      assert x * n < bound * n;
    }
  }

  lemma NonNegativeProduct(x: real, y: real)
    requires x >= 0.0 && y >= 0.0
    ensures x * y >= 0.0
  {
  }

  /** In a period at least `dtMax` long every step is at least three quarters of `dtMax`. */
  lemma StepAbove(begin: Time, end: Time, dtMax: Time)
    requires begin < end && 0.0 < dtMax <= end - begin
    ensures StepLength(begin, end, StepCount(end - begin, dtMax)) >= 0.75 * dtMax
  {
    var n := StepCount(end - begin, dtMax) as real;
    StepCountBounds(end - begin, dtMax);
    var bound := 0.75 * dtMax;
    if n == 1.0 {
      DivideAbove(end - begin, n, bound);
    } else {
      assert n >= 2.0;
      NonNegativeProduct(0.25 * n - 0.5, dtMax);
      assert n * bound <= (n - 0.5) * dtMax by {
        assert (n - 0.5) * dtMax - n * bound == (0.25 * n - 0.5) * dtMax;
      }
      DivideAbove(end - begin, n, bound);
    }
  }

  // ----- the constructors -----

  /** The smallest gap between neighbouring mandatory times, the one from zero included. */
  function MinGap(ms: seq<Time>): Time
    requires ms != [] && LastOf(0.0, ms) != 0.0
  {
    Minimum(Gaps(ms))
  }

  /** The differences of neighbours, the first one only if it is not zero. */
  function Gaps(ms: seq<Time>): (gaps: seq<Time>)
    requires ms != [] && LastOf(0.0, ms) != 0.0
    ensures gaps != []
  {
    var diff := AdjacentDifference(ms);
    if diff[0] == 0.0 then diff[1..] else diff
  }

  /** The gap that ends at the mandatory time `ms[k]`. */
  ghost predicate GapAt(ms: seq<Time>, k: nat, gap: Time) {
    k < |ms| && ms[k] != 0.0 && gap == ms[k] - BeginOf(0.0, ms, k)
  }

  /** `gap` is one of the gaps, and no other is smaller. */
  ghost predicate SmallestGap(ms: seq<Time>, gap: Time) {
    (exists k: nat :: GapAt(ms, k, gap)) && forall k: nat, other :: GapAt(ms, k, other) ==> gap <= other
  }

  lemma GapIsListed(ms: seq<Time>, k: nat)
    requires ms != [] && LastOf(0.0, ms) != 0.0 && k < |ms| && ms[k] != 0.0
    ensures ms[k] - BeginOf(0.0, ms, k) in Gaps(ms)
  {
    var diff := AdjacentDifference(ms);
    assert diff[k] == ms[k] - BeginOf(0.0, ms, k);
    assert diff[0] == 0.0 ==> diff[k] == diff[1..][k - 1];
  }

  lemma ListedIsGap(ms: seq<Time>, i: nat) returns (k: nat)
    requires ms != [] && LastOf(0.0, ms) != 0.0 && Periods(0.0, ms) && i < |Gaps(ms)|
    ensures GapAt(ms, k, Gaps(ms)[i]) && Gaps(ms)[i] > 0.0
  {
    k := if AdjacentDifference(ms)[0] == 0.0 then i + 1 else i;
    assert Gaps(ms)[i] == AdjacentDifference(ms)[k];
  }

  lemma MinGapMeaning(ms: seq<Time>)
    requires ms != [] && LastOf(0.0, ms) != 0.0 && Periods(0.0, ms)
    ensures SmallestGap(ms, MinGap(ms)) && MinGap(ms) > 0.0
  {
    var i :| 0 <= i < |Gaps(ms)| && Gaps(ms)[i] == MinGap(ms);
    var k := ListedIsGap(ms, i);
    forall k: nat, other | GapAt(ms, k, other) ensures MinGap(ms) <= other {
      GapIsListed(ms, k);
    }
  }

  /** The step length aimed at. */
  function Unit(ms: seq<Time>, steps: nat): Time
    requires ms != [] && (steps == 0 ==> LastOf(0.0, ms) != 0.0)
  {
    if steps == 0 then MinGap(ms) else LastOf(0.0, ms) / steps as real
  }

  /** What the source asks of the times it keeps: with `steps == 0` and no positive time it takes
      the minimum of an empty range. */
  predicate Constructible(ms: seq<Time>, steps: nat) {
    ms != [] && (steps == 0 ==> LastOf(0.0, ms) != 0.0)
  }

  lemma UnitDivides(ms: seq<Time>, steps: nat)
    requires Constructible(ms, steps) && Periods(0.0, ms)
    ensures Divides(Unit(ms, steps), ms) && (LastOf(0.0, ms) > 0.0 ==> Unit(ms, steps) > 0.0)
    ensures steps == 0 ==> forall i :: 0 <= i < |ms| && ms[i] != 0.0 ==>
              0.0 < Unit(ms, steps) <= ms[i] - BeginOf(0.0, ms, i)
  {
    if steps == 0 {
      MinGapMeaning(ms);
      forall i | 0 <= i < |ms| && ms[i] != 0.0 ensures 0.0 < Unit(ms, steps) <= ms[i] - BeginOf(0.0, ms, i) {
        assert GapAt(ms, i, ms[i] - BeginOf(0.0, ms, i));
      }
    } else if LastOf(0.0, ms) > 0.0 {
      PositiveQuotient(LastOf(0.0, ms), steps as real);
    }
  }

  lemma PositiveQuotient(x: real, y: real)
    requires x > 0.0 && y > 0.0
    ensures x / y > 0.0
  {
  }

  /** The points of the grid with mandatory times `ms`. */
  ghost function SteppedPoints(ms: seq<Time>, steps: nat): seq<Time>
    requires Constructible(ms, steps) && Periods(0.0, ms)
  {
    UnitDivides(ms, steps);
    PointsAfter(0.0, ms, Unit(ms, steps))
  }

  /** Time grid with mandatory times and `steps` steps; `None` when a time is negative. */
  method Stepped(close: Closeness, ts: seq<Time>, steps: nat) returns (r: Option<TimeGrid>)
    requires ts != [] && Reflexive(close)
    requires Kept(close, ts)[0] >= 0.0 ==> Constructible(Kept(close, ts), steps)
    ensures r.None? <==> exists t :: t in ts && t < 0.0
    ensures r.Some? ==>
      && Periods(0.0, Kept(close, ts))
      && r.value.mandatoryTimes == Kept(close, ts)
      && r.value.times == [0.0] + SteppedPoints(Kept(close, ts), steps)
      && r.value.dt == AdjacentDifference(r.value.times[1..])
  {
    var ms := Kept(close, ts);
    KeptMeaning(close, ts);
    if ms[0] < 0.0 {
      return None;
    }
    UnitDivides(ms, steps);
    var times := Fill(ms, Unit(ms, steps));
    r := Some(TimeGrid(times, AdjacentDifference(times[1..]), ms));
  }

  /** The loop over the mandatory times. */
  method Fill(ms: seq<Time>, dtMax: Time) returns (times: seq<Time>)
    requires Periods(0.0, ms) && Divides(dtMax, ms)
    ensures times == [0.0] + PointsAfter(0.0, ms, dtMax)
  {
    var periodBegin := 0.0;
    times := [periodBegin];
    ghost var all := PointsAfter(0.0, ms, dtMax);
    assert ms[0..] == ms;
    for i := 0 to |ms|
      invariant Periods(periodBegin, ms[i..]) && Divides(dtMax, ms[i..])
      invariant times + PointsAfter(periodBegin, ms[i..], dtMax) == [0.0] + all
    {
      var periodEnd := ms[i];
      PointsUnfold(periodBegin, ms, i, dtMax);
      ghost var points, rest := PeriodPoints(periodBegin, periodEnd, dtMax), PointsAfter(periodEnd, ms[i + 1..], dtMax);
      ConcatAssociative(times, points, rest);
      times := FillPeriod(times, periodBegin, periodEnd, dtMax);
      periodBegin := periodEnd;
      assert times + rest == [0.0] + all;
    }
    assert ms[|ms|..] == [];
  }

  lemma PointsUnfold(begin: Time, ms: seq<Time>, i: nat, dtMax: Time)
    requires i < |ms| && Periods(begin, ms[i..]) && Divides(dtMax, ms[i..])
    ensures ms[i] != 0.0 ==> begin < ms[i] && dtMax > 0.0
    ensures Periods(ms[i], ms[i + 1..]) && Divides(dtMax, ms[i + 1..])
    ensures PointsAfter(begin, ms[i..], dtMax) ==
            PeriodPoints(begin, ms[i], dtMax) + PointsAfter(ms[i], ms[i + 1..], dtMax)
  {
    assert ms[i..][1..] == ms[i + 1..] && ms[i..][0] == ms[i];
  }

  /** The points of one period, if the mandatory time ends one. */
  method FillPeriod(times: seq<Time>, begin: Time, end: Time, dtMax: Time) returns (points: seq<Time>)
    requires end != 0.0 ==> begin < end && dtMax > 0.0
    ensures points == times + PeriodPoints(begin, end, dtMax)
  {
    points := times;
    if end != 0.0 {
      var nSteps := StepCount(end - begin, dtMax);
      var dt := StepLength(begin, end, nSteps);
      points := AddPoints(times, begin, dt, nSteps);
    }
  }

  /** The innermost loop: the points of one period. */
  method AddPoints(times: seq<Time>, begin: Time, dt: Time, nSteps: nat) returns (points: seq<Time>)
    ensures points == times + Inner(begin, dt, nSteps)
  {
    points := times;
    for n := 0 to nSteps
      invariant points == times + Inner(begin, dt, n)
    {
      points := points + [PointAt(begin, dt, n + 1)];
    }
  }

  // ----- what the stepped grid is -----

  ghost function SteppedTimes(ms: seq<Time>, steps: nat): seq<Time>
    requires Constructible(ms, steps) && Periods(0.0, ms)
  {
    [0.0] + SteppedPoints(ms, steps)
  }

  lemma SteppedClimbs(ms: seq<Time>, steps: nat, ok: Time -> bool)
    requires Constructible(ms, steps) && Periods(0.0, ms)
    requires forall i :: 0 <= i < |ms| && ms[i] != 0.0 ==> PeriodOk(BeginOf(0.0, ms, i), ms[i], Unit(ms, steps), ok)
    ensures Climbs(0.0, SteppedPoints(ms, steps), LastOf(0.0, ms), ok)
  {
    UnitDivides(ms, steps);
    PointsClimb(0.0, ms, Unit(ms, steps), ok);
  }

  lemma PeriodsOrdered(ms: seq<Time>, steps: nat, i: nat)
    requires Constructible(ms, steps) && Periods(0.0, ms) && i < |ms| && ms[i] != 0.0
    ensures BeginOf(0.0, ms, i) < ms[i] && Unit(ms, steps) > 0.0
  {
    UnitDivides(ms, steps);
    assert ms[i] <= LastOf(0.0, ms);
  }

  lemma SteppedAscends(ms: seq<Time>, steps: nat, any: Time -> bool)
    requires Constructible(ms, steps) && Periods(0.0, ms) && forall step :: any(step)
    ensures StrictlyAscending(SteppedTimes(ms, steps))
    ensures Climbs(0.0, SteppedPoints(ms, steps), LastOf(0.0, ms), any)
  {
    forall i | 0 <= i < |ms| && ms[i] != 0.0 ensures PeriodOk(BeginOf(0.0, ms, i), ms[i], Unit(ms, steps), any) {
      PeriodsOrdered(ms, steps, i);
    }
    SteppedClimbs(ms, steps, any);
    ClimbAscends(0.0, SteppedPoints(ms, steps), LastOf(0.0, ms), any);
  }

  lemma SteppedContains(ms: seq<Time>, steps: nat, i: nat)
    requires Constructible(ms, steps) && Periods(0.0, ms) && i < |ms|
    ensures ms[i] in SteppedTimes(ms, steps)
  {
    UnitDivides(ms, steps);
    if ms[i] != 0.0 {
      PointsContain(0.0, ms, Unit(ms, steps), i);
    } else {
      assert SteppedTimes(ms, steps)[0] == 0.0;
    }
  }

  /** The grid starts at zero, is strictly ascending, ends at the last mandatory time and contains
      every mandatory time. */
  lemma SteppedShape(ms: seq<Time>, steps: nat)
    requires Constructible(ms, steps) && Periods(0.0, ms)
    ensures SteppedTimes(ms, steps)[0] == 0.0 && StrictlyAscending(SteppedTimes(ms, steps))
    ensures LastOf(0.0, SteppedTimes(ms, steps)) == LastOf(0.0, ms)
    ensures forall i :: 0 <= i < |ms| ==> ms[i] in SteppedTimes(ms, steps)
  {
    SteppedAscends(ms, steps, step => true);
    forall i | 0 <= i < |ms| ensures ms[i] in SteppedTimes(ms, steps) {
      SteppedContains(ms, steps, i);
    }
  }

  /** What the source aims at: with a number of steps, the length of the grid divided by it, and
      without one the smallest gap. */
  ghost predicate AimedAt(ms: seq<Time>, steps: nat, length: Time) {
    if steps == 0 then SmallestGap(ms, length) else length * steps as real == LastOf(0.0, ms)
  }

  lemma UnitIsAimedAt(ms: seq<Time>, steps: nat, length: Time)
    requires Constructible(ms, steps) && Periods(0.0, ms)
    ensures AimedAt(ms, steps, length) <==> length == Unit(ms, steps)
  {
    if steps == 0 {
      MinGapMeaning(ms);
    } else {
      var s := steps as real;
      assert Unit(ms, steps) * s == LastOf(0.0, ms);
      assert length * s == LastOf(0.0, ms) ==> length == LastOf(0.0, ms) / s;
    }
  }

  /** Every step of the grid is below one and a half times the length aimed at. */
  lemma StepsBelow(ms: seq<Time>, steps: nat, i: nat, aim: Time)
    requires Constructible(ms, steps) && Periods(0.0, ms) && i + 1 < |SteppedTimes(ms, steps)|
    requires AimedAt(ms, steps, aim)
    ensures SteppedTimes(ms, steps)[i + 1] - SteppedTimes(ms, steps)[i] < 1.5 * aim
  {
    UnitIsAimedAt(ms, steps, aim);
    var below := (step: Time) => step < 1.5 * aim;
    forall k | 0 <= k < |ms| && ms[k] != 0.0 ensures PeriodOk(BeginOf(0.0, ms, k), ms[k], aim, below) {
      PeriodsOrdered(ms, steps, k);
      StepBelow(BeginOf(0.0, ms, k), ms[k], aim);
    }
    SteppedClimbs(ms, steps, below);
    assert GoodStep(0.0, SteppedPoints(ms, steps), i, below);
  }

  /** `n` is the length in units of `aim`, rounded to the nearest integer, but at least one. */
  ghost predicate Rounded(length: Time, aim: Time, n: nat) {
    n >= 1 && length < (n as real + 0.5) * aim && (n == 1 || (n as real - 0.5) * aim <= length)
  }

  /** The step is an equal share of the gap at `k`, which is divided into as many steps as the length
      aimed at goes into it. */
  ghost predicate IsShare(ms: seq<Time>, aim: Time, step: Time, k: nat, n: nat) {
    && k < |ms| && ms[k] != 0.0
    && Rounded(ms[k] - BeginOf(0.0, ms, k), aim, n) && Scaled(n as real, step) == ms[k] - BeginOf(0.0, ms, k)
  }

  ghost predicate SomeShare(ms: seq<Time>, aim: Time, step: Time) {
    exists k: nat, n: nat :: IsShare(ms, aim, step, k, n)
  }

  lemma CountIsRounded(length: Time, aim: Time)
    requires aim > 0.0 && length > 0.0
    ensures Rounded(length, aim, StepCount(length, aim))
  {
    var n := StepCount(length, aim);
    StepCountBounds(length, aim);
    if n > 1 && length < aim {
      assert aim <= (n as real - 1.0) * aim;
    }
  }

  lemma PeriodShares(ms: seq<Time>, aim: Time, k: nat, share: Time -> bool)
    requires k < |ms| && ms[k] != 0.0 && BeginOf(0.0, ms, k) < ms[k] && aim > 0.0
    requires forall step :: SomeShare(ms, aim, step) ==> share(step)
    ensures PeriodOk(BeginOf(0.0, ms, k), ms[k], aim, share)
  {
    var begin := BeginOf(0.0, ms, k);
    CountIsRounded(ms[k] - begin, aim);
    var n := StepCount(ms[k] - begin, aim);
    var step := StepLength(begin, ms[k], n);
    LastPoint(begin, ms[k], n);
    assert IsShare(ms, aim, step, k, n);
  }

  lemma SharesClimb(ms: seq<Time>, steps: nat, aim: Time, share: Time -> bool)
    requires Constructible(ms, steps) && Periods(0.0, ms) && aim == Unit(ms, steps)
    requires forall step :: SomeShare(ms, aim, step) ==> share(step)
    ensures Climbs(0.0, SteppedPoints(ms, steps), LastOf(0.0, ms), share)
  {
    forall k | 0 <= k < |ms| && ms[k] != 0.0 ensures PeriodOk(BeginOf(0.0, ms, k), ms[k], aim, share) {
      PeriodsOrdered(ms, steps, k);
      PeriodShares(ms, aim, k, share);
    }
    SteppedClimbs(ms, steps, share);
  }

  /** Every step of the grid is such a share. */
  lemma StepsAreShares(ms: seq<Time>, steps: nat, i: nat, aim: Time)
    requires Constructible(ms, steps) && Periods(0.0, ms) && i + 1 < |SteppedTimes(ms, steps)|
    requires AimedAt(ms, steps, aim)
    ensures SomeShare(ms, aim, SteppedTimes(ms, steps)[i + 1] - SteppedTimes(ms, steps)[i])
  {
    UnitIsAimedAt(ms, steps, aim);
    var share := (step: Time) => SomeShare(ms, aim, step);
    SharesClimb(ms, steps, aim, share);
    assert GoodStep(0.0, SteppedPoints(ms, steps), i, share);
  }

  lemma PeriodAbove(begin: Time, end: Time, dtMax: Time, bound: Time, above: Time -> bool)
    requires begin < end && 0.0 < dtMax <= end - begin && bound == 0.75 * dtMax
    requires forall step :: step >= bound ==> above(step)
    ensures PeriodOk(begin, end, dtMax, above)
  {
    StepAbove(begin, end, dtMax);
  }

  lemma GapsAbove(ms: seq<Time>, k: nat)
    requires Constructible(ms, 0) && Periods(0.0, ms) && k < |ms| && ms[k] != 0.0
    ensures 0.0 < Unit(ms, 0) <= ms[k] - BeginOf(0.0, ms, k)
  {
    UnitDivides(ms, 0);
  }

  /** With no number of steps given, every step is at least three quarters of the smallest gap. */
  lemma StepsAbove(ms: seq<Time>, i: nat, smallest: Time)
    requires Constructible(ms, 0) && Periods(0.0, ms) && i + 1 < |SteppedTimes(ms, 0)|
    requires SmallestGap(ms, smallest)
    ensures SteppedTimes(ms, 0)[i + 1] - SteppedTimes(ms, 0)[i] >= 0.75 * smallest
  {
    UnitIsAimedAt(ms, 0, smallest);
    var bound := 0.75 * Unit(ms, 0);
    var above := (step: Time) => step >= bound;
    forall k | 0 <= k < |ms| && ms[k] != 0.0 ensures PeriodOk(BeginOf(0.0, ms, k), ms[k], Unit(ms, 0), above) {
      GapsAbove(ms, k);
      PeriodAbove(BeginOf(0.0, ms, k), ms[k], Unit(ms, 0), bound, above);
    }
    SteppedClimbs(ms, 0, above);
    assert GoodStep(0.0, SteppedPoints(ms, 0), i, above);
  }

  /** With `k` periods the number of steps exceeds the number asked for by less than `k`, and
      falls short of it by less than `k / 2`. */
  lemma StepsCounted(ms: seq<Time>, steps: nat)
    requires steps > 0 && ms != [] && Periods(0.0, ms) && LastOf(0.0, ms) > 0.0
    ensures NonZero(ms) >= 1
    ensures |SteppedTimes(ms, steps)| - 1 < steps + NonZero(ms)
    ensures 2 * steps < 2 * (|SteppedTimes(ms, steps)| - 1) + NonZero(ms)
  {
    var u, k, n := Unit(ms, steps), NonZero(ms), |SteppedPoints(ms, steps)|;
    UnitDivides(ms, steps);
    PointsCount(0.0, ms, u);
    var s := steps as real;
    assert Scaled(s, u) == LastOf(0.0, ms);
    Unscale((n - k) as real, s, u);
    Unscale(s, n as real + k as real * 0.5, u);
  }

  lemma Unscale(x: real, y: real, d: real)
    requires d > 0.0 && Scaled(x, d) < Scaled(y, d)
    ensures x < y
  {
    if y < x { Scale(y, x, d); }
  }

  /** Since the grid starts at zero, the differences taken from the second time on are the
      lengths of all its steps. */
  lemma StepLengths(times: seq<Time>, i: nat)
    requires times != [] && times[0] == 0.0 && i + 1 < |times|
    ensures AdjacentDifference(times[1..])[i] == times[i + 1] - times[i]
  {
  }

  lemma CloseEnoughIsReflexive()
    ensures Reflexive(CloseEnough)
  {
    forall x ensures CloseEnough(x, x) {
      CloseRelations(x, x);
    }
  }

  /** The grid of the source, with its own closeness: it starts at zero, is strictly ascending, ends
      at the last mandatory time and contains all of them; every given time is close to one; the
      differences are the lengths of the steps, and each is an equal share of a gap. */
  method SteppedGrid(ts: seq<Time>, steps: nat) returns (r: Option<TimeGrid>)
    requires ts != []
    requires Kept(CloseEnough, ts)[0] >= 0.0 ==> Constructible(Kept(CloseEnough, ts), steps)
    ensures r.None? <==> exists t :: t in ts && t < 0.0
    ensures r.Some? ==> WellShaped(r.value) && forall t :: t in ts ==> Covered(CloseEnough, r.value.mandatoryTimes, t)
    ensures r.Some? ==> forall aim, i {:trigger AimedAt(r.value.mandatoryTimes, steps, aim), r.value.dt[i]} ::
      AimedAt(r.value.mandatoryTimes, steps, aim) && 0 <= i < |r.value.dt| ==>
        SomeShare(r.value.mandatoryTimes, aim, r.value.dt[i])
  {
    CloseEnoughIsReflexive();
    r := Stepped(CloseEnough, ts, steps);
    if r.Some? {
      KeptMeaning(CloseEnough, ts);
      SteppedIsShaped(r.value, steps);
      forall aim, i | AimedAt(r.value.mandatoryTimes, steps, aim) && 0 <= i < |r.value.dt|
        ensures SomeShare(r.value.mandatoryTimes, aim, r.value.dt[i])
      {
        StepsAreShares(r.value.mandatoryTimes, steps, i, aim);
      }
    }
  }

  ghost predicate WellShaped(grid: TimeGrid) {
    && grid.times != [] && grid.times[0] == 0.0 && StrictlyAscending(grid.times)
    && LastOf(0.0, grid.times) == LastOf(0.0, grid.mandatoryTimes)
    && (forall i :: 0 <= i < |grid.mandatoryTimes| ==> grid.mandatoryTimes[i] in grid.times)
    && |grid.dt| == |grid.times| - 1
    && (forall i :: 0 <= i < |grid.dt| ==> grid.dt[i] == grid.times[i + 1] - grid.times[i])
  }

  lemma SteppedIsShaped(grid: TimeGrid, steps: nat)
    requires Constructible(grid.mandatoryTimes, steps) && Periods(0.0, grid.mandatoryTimes)
    requires grid.times == SteppedTimes(grid.mandatoryTimes, steps) && grid.dt == AdjacentDifference(grid.times[1..])
    ensures WellShaped(grid)
  {
    SteppedShape(grid.mandatoryTimes, steps);
    forall i | 0 <= i < |grid.dt| ensures grid.dt[i] == grid.times[i + 1] - grid.times[i] {
      StepLengths(grid.times, i);
    }
  }

  /** The times of a grid without inner points. */
  function WithZero(ms: seq<Time>): (times: seq<Time>)
    requires ms != []
    ensures times != []
  {
    (if ms[0] > 0.0 then [0.0] else []) + ms
  }

  lemma WithZeroShape(ms: seq<Time>)
    requires ms != [] && StrictlyAscending(ms) && ms[0] >= 0.0
    ensures WithZero(ms)[0] == 0.0 && StrictlyAscending(WithZero(ms)) && LastOf(0.0, WithZero(ms)) == LastOf(0.0, ms)
    ensures forall t :: t in WithZero(ms) <==> t == 0.0 || t in ms
  {
  }

  /** Time grid of the mandatory times alone; `None` when a time is negative. */
  method Mandatory(close: Closeness, ts: seq<Time>) returns (r: Option<TimeGrid>)
    requires ts != [] && Reflexive(close)
    ensures r.None? <==> exists t :: t in ts && t < 0.0
    ensures r.Some? ==>
      && r.value.mandatoryTimes == Kept(close, ts)
      && r.value.times == WithZero(Kept(close, ts))
      && r.value.dt == AdjacentDifference(r.value.times[1..])
  {
    var ms := Kept(close, ts);
    KeptMeaning(close, ts);
    if ms[0] < 0.0 {
      return None;
    }
    var times := [];
    if ms[0] > 0.0 {
      times := [0.0];
    }
    times := times + ms;
    r := Some(TimeGrid(times, AdjacentDifference(times[1..]), ms));
  }

  /** Regularly spaced grid; `None` when the end is not positive. */
  method Regular(end: Time, steps: nat) returns (r: Option<TimeGrid>)
    requires steps > 0
    ensures r.None? <==> end <= 0.0
    ensures r.Some? ==>
      var times := r.value.times;
      && |times| == steps + 1 && |r.value.dt| == steps && r.value.mandatoryTimes == [end]
      && times[0] == 0.0 && times[steps] == end
      && (forall i :: 0 <= i < steps ==> times[i + 1] - times[i] == r.value.dt[i])
      && (forall i :: 0 <= i < steps ==> r.value.dt[i] == end / steps as real > 0.0)
  {
    if end <= 0.0 {
      return None;
    }
    var dt := end / steps as real;
    var times := [];
    for i := 0 to steps + 1
      invariant |times| == i && forall k :: 0 <= k < i ==> times[k] == PointAt(0.0, dt, k)
    {
      times := times + [PointAt(0.0, dt, i)];
    }
    LastPoint(0.0, end, steps);
    NextPoint(0.0, dt, 0);
    forall i | 0 <= i < steps ensures times[i + 1] - times[i] == dt {
      NextPoint(0.0, dt, i);
    }
    r := Some(TimeGrid(times, seq(steps, i => dt), [end]));
  }

  // ----- lookup -----

  function Distance(t: Time, u: Time): Time { if t < u then u - t else t - u }

  /** No node is nearer to `t` than the one at `k`. */
  ghost predicate Nearest(times: seq<Time>, t: Time, k: nat) {
    k < |times| && forall i :: 0 <= i < |times| ==> Distance(t, times[k]) <= Distance(t, times[i])
  }

  /** `std::lower_bound`: the first position whose time is not before `t`. */
  method LowerBound(times: seq<Time>, t: Time) returns (k: nat)
    requires Ascending(times)
    ensures k <= |times|
    ensures forall i :: 0 <= i < k ==> times[i] < t
    ensures forall i :: k <= i < |times| ==> t <= times[i]
  {
    var lo, hi := 0, |times|;
    while lo < hi
      invariant 0 <= lo <= hi <= |times|
      invariant forall i :: 0 <= i < lo ==> times[i] < t
      invariant forall i :: hi <= i < |times| ==> t <= times[i]
    {
      var mid := (lo + hi) / 2;
      if times[mid] < t {
        lo := mid + 1;
      } else {
        hi := mid;
      }
    }
    k := lo;
  }

  /** `closestIndex`: a node nearest to `t`, the earlier one on a tie; no node lies between. */
  method ClosestIndex(times: seq<Time>, t: Time) returns (k: nat)
    requires Ascending(times)
    ensures times == [] ==> k == 0
    ensures times != [] ==> Nearest(times, t, k)
    ensures StrictlyAscending(times) ==> forall i :: 0 <= i < k ==> Distance(t, times[k]) < Distance(t, times[i])
    ensures k + 1 < |times| && times[k] < t ==> t <= times[k + 1]
    ensures 0 < k < |times| && t < times[k] ==> times[k - 1] < t
  {
    var result := LowerBound(times, t);
    if result == 0 {
      return 0;
    } else if result == |times| {
      return |times| - 1;
    }
    var dt1, dt2 := times[result] - t, t - times[result - 1];
    if dt1 < dt2 {
      k := result;
    } else {
      k := result - 1;
    }
  }

  datatype Lookup = Found(i: nat) | AllLater | AllEarlier | Between(j: nat, k: nat)

  /** `index`: the nearest node if it is close to `t`; otherwise the reason why there is none, with
      the two neighbouring nodes when `t` is within the span of the grid. */
  method Index(close: Closeness, times: seq<Time>, t: Time) returns (r: Lookup, ghost nearest: nat)
    requires times != [] && Ascending(times) && Reflexive(close)
    ensures Nearest(times, t, nearest) && (r.Found? <==> close(t, times[nearest]))
    ensures r.Found? ==> r.i == nearest
    ensures r.AllLater? ==> t < times[0]
    ensures r.AllEarlier? ==> times[|times| - 1] < t
    ensures r.Between? ==> r.k == r.j + 1 < |times| && times[r.j] < t < times[r.k]
  {
    var i := ClosestIndex(times, t);
    nearest := i;
    if close(t, times[i]) {
      r := Found(i);
    } else {
      assert times[i] != t by { assert close(t, t); }
      r := Neighbours(times, t, i);
    }
  }

  /** The failure when the nearest node is not close. */
  method Neighbours(times: seq<Time>, t: Time, i: nat) returns (r: Lookup)
    requires i < |times| && Ascending(times) && times[i] != t
    requires i + 1 < |times| && times[i] < t ==> t <= times[i + 1]
    requires 0 < i && t < times[i] ==> times[i - 1] < t
    requires forall j :: 0 <= j < |times| ==> times[j] != t
    ensures !r.Found?
    ensures r.AllLater? ==> t < times[0]
    ensures r.AllEarlier? ==> times[|times| - 1] < t
    ensures r.Between? ==> r.k == r.j + 1 < |times| && times[r.j] < t < times[r.k]
  {
    if t < times[0] {
      r := AllLater;
    } else if t > times[|times| - 1] {
      r := AllEarlier;
    } else if t > times[i] {
      r := Between(i, i + 1);
    } else {
      r := Between(i - 1, i);
    }
  }
}
