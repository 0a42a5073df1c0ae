/** Finite directed graphs: reachability, acyclicity and ranks.

    The precedents of the object repository, the observers of the wrappers and the includes of the
    header scanner are instances. */
module Graphs {

  type Graph<!T(==)> = map<T, set<T>>

  function Succ<T(==, !new)>(g: Graph<T>, x: T): set<T> {
    if x in g then g[x] else {}
  }

  /** `y` is reached from `x` by following exactly `n` edges. */
  ghost predicate Steps<T(!new)>(g: Graph<T>, x: T, y: T, n: nat)
    decreases n
  {
    if n == 0 then x == y else exists z :: z in Succ(g, x) && Steps(g, z, y, n - 1)
  }

  ghost predicate Reaches<T(!new)>(g: Graph<T>, x: T, y: T) {
    exists n: nat :: Steps(g, x, y, n)
  }

  /** Reached by at least one edge. */
  ghost predicate ReachesProperly<T(!new)>(g: Graph<T>, x: T, y: T) {
    exists n: nat :: n > 0 && Steps(g, x, y, n)
  }

  ghost predicate Acyclic<T(!new)>(g: Graph<T>) {
    forall x :: !ReachesProperly(g, x, x)
  }

  lemma {:induction false} StepsConcat<T(!new)>(g: Graph<T>, x: T, y: T, z: T, m: nat, n: nat)
    requires Steps(g, x, y, m) && Steps(g, y, z, n)
    ensures Steps(g, x, z, m + n)
    decreases m
  {
    if m > 0 {
      var w :| w in Succ(g, x) && Steps(g, w, y, m - 1);
      StepsConcat(g, w, y, z, m - 1, n);
    }
  }

  /** A nonempty walk has a last edge. */
  lemma {:induction false} StepsLast<T(!new)>(g: Graph<T>, x: T, z: T, n: nat) returns (y: T)
    requires n > 0 && Steps(g, x, z, n)
    ensures Steps(g, x, y, n - 1) && z in Succ(g, y)
    decreases n
  {
    var w :| w in Succ(g, x) && Steps(g, w, z, n - 1);
    if n == 1 {
      y := x;
    } else {
      y := StepsLast(g, w, z, n - 1);
    }
  }

  /** Reaching `z` properly is reaching some predecessor of `z`. */
  lemma ReachesByLastEdge<T(!new)>(g: Graph<T>, x: T, z: T)
    ensures ReachesProperly(g, x, z) <==> exists y :: Reaches(g, x, y) && z in Succ(g, y)
  {
    if ReachesProperly(g, x, z) {
      var n: nat :| n > 0 && Steps(g, x, z, n);
      var y := StepsLast(g, x, z, n);
      assert Reaches(g, x, y);
    }
    if y :| Reaches(g, x, y) && z in Succ(g, y) {
      var n: nat :| Steps(g, x, y, n);
      assert Steps(g, z, z, 0);
      assert Steps(g, y, z, 1);
      StepsConcat(g, x, y, z, n, 1);
    }
  }

  lemma ReachesEdge<T(!new)>(g: Graph<T>, x: T, y: T, z: T)
    requires y in Succ(g, x) && Reaches(g, y, z)
    ensures ReachesProperly(g, x, z) && Reaches(g, x, z)
  {
    var n: nat :| Steps(g, y, z, n);
    assert Steps(g, x, z, n + 1);
  }

  lemma ReachesSplit<T(!new)>(g: Graph<T>, x: T, y: T)
    ensures Reaches(g, x, y) <==> x == y || ReachesProperly(g, x, y)
  {
    assert x == y ==> Steps(g, x, y, 0);
  }

  ghost predicate Closed<T(!new)>(s: set<T>, g: Graph<T>) {
    forall x, y {:trigger y in Succ(g, x)} :: x in s && y in Succ(g, x) ==> y in s
  }

  /** Walks do not leave a set that is closed under successors. */
  lemma {:induction false} StaysWithin<T(!new)>(s: set<T>, g: Graph<T>, x: T, y: T, n: nat)
    requires x in s && Steps(g, x, y, n) && Closed(s, g)
    ensures y in s
    decreases n
  {
    if n > 0 {
      var z :| z in Succ(g, x) && Steps(g, z, y, n - 1);
      StaysWithin(s, g, z, y, n - 1);
    }
  }

  /** The edges of `h` are those of `g` turned round. */
  ghost predicate Reversed<T(!new)>(g: Graph<T>, h: Graph<T>) {
    forall x, y {:trigger y in Succ(g, x)} {:trigger x in Succ(h, y)} :: y in Succ(g, x) <==> x in Succ(h, y)
  }

  lemma {:induction false} StepsReversed<T(!new)>(g: Graph<T>, h: Graph<T>, x: T, y: T, n: nat)
    requires Reversed(g, h) && Steps(g, x, y, n)
    ensures Steps(h, y, x, n)
    decreases n
  {
    if n > 0 {
      var z :| z in Succ(g, x) && Steps(g, z, y, n - 1);
      StepsReversed(g, h, z, y, n - 1);
      assert Steps(h, x, x, 0) && Steps(h, z, x, 1);
      StepsConcat(h, y, z, x, n - 1, 1);
    }
  }

  lemma ReachesReversed<T(!new)>(g: Graph<T>, h: Graph<T>, x: T, y: T)
    requires Reversed(g, h)
    ensures ReachesProperly(g, x, y) <==> ReachesProperly(h, y, x)
    ensures Reaches(g, x, y) <==> Reaches(h, y, x)
  {
    forall n: nat ensures Steps(g, x, y, n) <==> Steps(h, y, x, n) {
      if Steps(g, x, y, n) { StepsReversed(g, h, x, y, n); }
      if Steps(h, y, x, n) { StepsReversed(h, g, y, x, n); }
    }
  }

  // ----- depth-bounded exploration, and the rank of a node -----

  /** Every walk from `x` has fewer than `n` edges: a recursion that follows the edges
      from `x` returns within `n` nested calls. */
  predicate Completes<T(==, !new)>(g: Graph<T>, x: T, n: nat)
    decreases n
  {
    n > 0 && forall y :: y in Succ(g, x) ==> Completes(g, y, n - 1)
  }

  lemma {:induction false} CompletesMonotone<T(!new)>(g: Graph<T>, x: T, m: nat, n: nat)
    requires m <= n && Completes(g, x, m)
    ensures Completes(g, x, n)
    decreases m
  {
    forall y | y in Succ(g, x) ensures Completes(g, y, n - 1) {
      CompletesMonotone(g, y, m - 1, n - 1);
    }
  }

  lemma {:induction false} CompletesBoundsSteps<T(!new)>(g: Graph<T>, x: T, y: T, m: nat, n: nat)
    requires Completes(g, x, n) && Steps(g, x, y, m)
    ensures m < n && Completes(g, y, n - m)
    decreases m
  {
    if m > 0 {
      var z :| z in Succ(g, x) && Steps(g, z, y, m - 1);
      CompletesBoundsSteps(g, z, y, m - 1, n - 1);
    }
  }

  /** A walk, listed node by node. */
  ghost predicate Walk<T(!new)>(g: Graph<T>, p: seq<T>) {
    forall i :: 0 < i < |p| ==> p[i] in Succ(g, p[i - 1])
  }

  /** If exploration to depth `n` does not complete, there is a walk of `n` edges. */
  lemma {:induction false} LongWalk<T(!new)>(g: Graph<T>, x: T, n: nat) returns (p: seq<T>)
    requires !Completes(g, x, n)
    ensures |p| == n + 1 && p[0] == x && Walk(g, p)
    decreases n
  {
    if n == 0 {
      p := [x];
    } else {
      var y :| y in Succ(g, x) && !Completes(g, y, n - 1);
      var q := LongWalk(g, y, n - 1);
      p := [x] + q;
    }
  }

  lemma {:induction false} WalkSteps<T(!new)>(g: Graph<T>, p: seq<T>, i: nat, j: nat)
    requires Walk(g, p) && i <= j < |p|
    ensures Steps(g, p[i], p[j], j - i)
    decreases j - i
  {
    if i < j {
      WalkSteps(g, p, i + 1, j);
      assert p[i + 1] in Succ(g, p[i]);
    }
  }

  /** Pigeonhole: a sequence over a set smaller than itself repeats an element. */
  lemma {:induction false} Repeats<T(!new)>(p: seq<T>, s: set<T>) returns (i: nat, j: nat)
    requires |p| > |s| && forall k :: 0 <= k < |p| ==> p[k] in s
    ensures i < j < |p| && p[i] == p[j]
  {
    var last := |p| - 1;
    if k: nat :| k < last && p[k] == p[last] {
      i, j := k, last;
    } else {
      assert p[last] in s;
      i, j := Repeats(p[..last], s - {p[last]});
    }
  }

  ghost predicate NoReachableCycle<T(!new)>(g: Graph<T>, x: T) {
    forall y :: Reaches(g, x, y) ==> !ReachesProperly(g, y, y)
  }

  lemma CompletesExcludesCycles<T(!new)>(g: Graph<T>, x: T, y: T, n: nat)
    requires Completes(g, x, n) && Reaches(g, x, y)
    ensures !ReachesProperly(g, y, y)
  {
    var m: nat :| Steps(g, x, y, m);
    if k: nat :| k > 0 && Steps(g, y, y, k) {
      assert n * k >= n;
      Pump(g, y, k, n);
      StepsConcat(g, x, y, y, m, n * k);
      CompletesBoundsSteps(g, x, y, m + n * k, n);
    }
  }

  lemma NoCycleCompletes<T(!new)>(g: Graph<T>, x: T)
    requires NoReachableCycle(g, x)
    ensures Completes(g, x, |g| + 1)
  {
    if !Completes(g, x, |g| + 1) {
      var p := LongWalk(g, x, |g| + 1);
      var q := p[..|g| + 1];
      forall k | 0 <= k < |q| ensures q[k] in g.Keys {
        assert p[k + 1] in Succ(g, p[k]);
      }
      var i, j := Repeats(q, g.Keys);
      WalkSteps(g, p, 0, i);
      WalkSteps(g, p, i, j);
      assert Reaches(g, x, p[i]) && ReachesProperly(g, p[i], p[i]);
    }
  }

  /** A recursion that follows the edges from `x` returns. */
  ghost predicate Terminates<T(!new)>(g: Graph<T>, x: T) {
    exists n: nat :: Completes(g, x, n)
  }

  /** It does exactly when no cycle is reachable from `x`. */
  lemma TerminatesIffNoReachableCycle<T(!new)>(g: Graph<T>, x: T)
    ensures Terminates(g, x) <==> NoReachableCycle(g, x)
  {
    if Terminates(g, x) {
      var n: nat :| Completes(g, x, n);
      forall y | Reaches(g, x, y) ensures !ReachesProperly(g, y, y) {
        CompletesExcludesCycles(g, x, y, n);
      }
    }
    if NoReachableCycle(g, x) {
      NoCycleCompletes(g, x);
      var n: nat := |g| + 1;
      assert Completes(g, x, n);
    }
  }

  /** Whether it does can be decided: if the recursion ends at all, it ends within as many nested
      calls as there are nodes, and one. */
  lemma TerminatesWithin<T(!new)>(g: Graph<T>, x: T)
    ensures Terminates(g, x) <==> Completes(g, x, |g| + 1)
  {
    TerminatesIffNoReachableCycle(g, x);
    if NoReachableCycle(g, x) {
      NoCycleCompletes(g, x);
    }
  }

  /** Going round a cycle `n` times. */
  lemma {:induction false} Pump<T(!new)>(g: Graph<T>, y: T, k: nat, n: nat)
    requires Steps(g, y, y, k)
    ensures Steps(g, y, y, n * k)
  {
    if n > 0 {
      Pump(g, y, k, n - 1);
      StepsConcat(g, y, y, y, k, (n - 1) * k);
      assert k + (n - 1) * k == n * k;
    }
  }

  lemma AcyclicCompletes<T(!new)>(g: Graph<T>, x: T)
    requires Acyclic(g)
    ensures Completes(g, x, |g| + 1)
  {
    NoCycleCompletes(g, x);
  }

  /** The least depth within which exploration from `x` completes. */
  ghost function LeastDepth<T(!new)>(g: Graph<T>, x: T, n: nat): (d: nat)
    requires Completes(g, x, n)
    ensures 0 < d <= n && Completes(g, x, d) && !Completes(g, x, d - 1)
  {
    if Completes(g, x, n - 1) then LeastDepth(g, x, n - 1) else n
  }

  ghost function Rank<T(!new)>(g: Graph<T>, x: T): (r: nat)
    requires Acyclic(g)
    ensures 0 < r <= |g| + 1
  {
    AcyclicCompletes(g, x);
    LeastDepth(g, x, |g| + 1)
  }

  lemma RankDecreases<T(!new)>(g: Graph<T>, x: T, y: T)
    requires Acyclic(g) && y in Succ(g, x)
    ensures Rank(g, y) < Rank(g, x)
  {
    AcyclicCompletes(g, x);
    AcyclicCompletes(g, y);
    var r := Rank(g, x);
    assert Completes(g, y, r - 1);
    if Rank(g, y) > r - 1 {
      CompletesMonotone(g, y, r - 1, Rank(g, y) - 1);
    }
  }

  /** `rank` drops along every edge and stays within `top`. */
  ghost predicate Ranked<T(!new)>(g: Graph<T>, rank: T -> nat, top: nat) {
    && (forall x, y {:trigger y in Succ(g, x)} :: y in Succ(g, x) ==> rank(y) < rank(x))
    && (forall x :: rank(x) <= top)
  }

  lemma AcyclicIsRanked<T(!new)>(g: Graph<T>) returns (rank: T -> nat, top: nat)
    requires Acyclic(g)
    ensures Ranked(g, rank, top)
  {
    rank := x => if Acyclic(g) then Rank(g, x) else 0;
    top := |g| + 1;
    forall x, y | y in Succ(g, x) ensures rank(y) < rank(x) {
      RankDecreases(g, x, y);
    }
  }

  lemma {:induction false} RankDropsAlongSteps<T(!new)>(g: Graph<T>, rank: T -> nat, top: nat, x: T, y: T, n: nat)
    requires Ranked(g, rank, top) && Steps(g, x, y, n)
    ensures rank(y) + n <= rank(x)
    decreases n
  {
    if n > 0 {
      var z :| z in Succ(g, x) && Steps(g, z, y, n - 1);
      RankDropsAlongSteps(g, rank, top, z, y, n - 1);
    }
  }

  /** A ranked graph has no cycle. */
  lemma RankedIsAcyclic<T(!new)>(g: Graph<T>, rank: T -> nat, top: nat)
    requires Ranked(g, rank, top)
    ensures Acyclic(g)
  {
    forall x ensures !ReachesProperly(g, x, x) {
      if n: nat :| n > 0 && Steps(g, x, x, n) {
        RankDropsAlongSteps(g, rank, top, x, x, n);
      }
    }
  }

  lemma {:induction false} StepsMonotone<T(!new)>(g: Graph<T>, h: Graph<T>, x: T, y: T, n: nat)
    requires forall v :: Succ(g, v) <= Succ(h, v)
    requires Steps(g, x, y, n)
    ensures Steps(h, x, y, n)
    decreases n
  {
    if n > 0 {
      var z :| z in Succ(g, x) && Steps(g, z, y, n - 1);
      StepsMonotone(g, h, z, y, n - 1);
      assert z in Succ(h, x);
    }
  }

  /** Removing edges creates no cycle. */
  lemma AcyclicSubgraph<T(!new)>(g: Graph<T>, h: Graph<T>)
    requires Acyclic(h) && forall v :: Succ(g, v) <= Succ(h, v)
    ensures Acyclic(g)
  {
    forall x ensures !ReachesProperly(g, x, x) {
      if n: nat :| n > 0 && Steps(g, x, x, n) {
        StepsMonotone(g, h, x, x, n);
        assert ReachesProperly(h, x, x);
      }
    }
  }

  // ----- replacing the successors of one node -----

  /** A walk either survives the replacement of the edges out of `k`, or passes through `k`. */
  lemma {:induction false} StepsFrame<T(!new)>(g: Graph<T>, h: Graph<T>, k: T, x: T, y: T, n: nat)
    requires forall v :: v != k ==> Succ(g, v) == Succ(h, v)
    requires Steps(g, x, y, n)
    ensures Steps(h, x, y, n) || (Reaches(h, x, k) && Reaches(g, k, y))
    decreases n
  {
    if x == k {
      assert Steps(h, x, k, 0);
    } else if n > 0 {
      var z :| z in Succ(g, x) && Steps(g, z, y, n - 1);
      StepsFrame(g, h, k, z, y, n - 1);
      if Reaches(h, z, k) {
        ReachesEdge(h, x, z, k);
      }
    }
  }

  /** Whether `k` is reached does not depend on the edges out of `k`. */
  lemma ReachesFrame<T(!new)>(g: Graph<T>, h: Graph<T>, k: T, x: T)
    requires forall v :: v != k ==> Succ(g, v) == Succ(h, v)
    ensures Reaches(g, x, k) <==> Reaches(h, x, k)
  {
    if n: nat :| Steps(g, x, k, n) {
      StepsFrame(g, h, k, x, k, n);
    }
    if n: nat :| Steps(h, x, k, n) {
      StepsFrame(h, g, k, x, k, n);
    }
  }

  /** Giving `k` the successors `s` keeps an acyclic graph acyclic exactly when no node
      of `s` reaches `k`. */
  lemma AcyclicUpdate<T(!new)>(g: Graph<T>, k: T, s: set<T>)
    requires Acyclic(g)
    ensures Acyclic(g[k := s]) <==> forall q :: q in s ==> !Reaches(g, q, k)
  {
    var h := g[k := s];
    assert forall v :: v != k ==> Succ(g, v) == Succ(h, v);
    if q :| q in s && Reaches(g, q, k) {
      ReachesFrame(g, h, k, q);
      ReachesEdge(h, k, q, k);
    }
    if x :| ReachesProperly(h, x, x) {
      var n: nat :| n > 0 && Steps(h, x, x, n);
      StepsFrame(h, g, k, x, x, n);
      assert !Steps(g, x, x, n) by { assert !ReachesProperly(g, x, x); }
      ReachesFrame(g, h, k, x);
      CycleThrough(h, k, x);
      var q := ProperFirstEdge(h, k, k);
      ReachesFrame(g, h, k, q);
      assert q in s && Reaches(g, q, k);
    }
  }

  lemma ProperFirstEdge<T(!new)>(g: Graph<T>, x: T, y: T) returns (q: T)
    requires ReachesProperly(g, x, y)
    ensures q in Succ(g, x) && Reaches(g, q, y)
  {
    var n: nat :| n > 0 && Steps(g, x, y, n);
    q :| q in Succ(g, x) && Steps(g, q, y, n - 1);
  }

  /** A node that a cycle leads to and that leads back to the cycle lies on a cycle. */
  lemma CycleThrough<T(!new)>(h: Graph<T>, k: T, x: T)
    requires ReachesProperly(h, x, x) && Reaches(h, x, k) && Reaches(h, k, x)
    ensures ReachesProperly(h, k, k)
  {
    var a: nat :| Steps(h, k, x, a);
    var b: nat :| b > 0 && Steps(h, x, x, b);
    var c: nat :| Steps(h, x, k, c);
    StepsConcat(h, k, x, x, a, b);
    StepsConcat(h, k, x, k, a + b, c);
  }
}
