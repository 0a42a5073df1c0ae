/** What an object's value ought to be: the result of rebuilding it, and everything it
    depends on, from the stored properties alone. */
module Rebuilding {
  import opened Graphs
  import opened Ids
  import opened Observing

  /** A creator constructs an object from its properties and the values of its precedents;
      it may throw. */
  type Creator<!V> = (ValueObject, map<string, V>) -> Option<V>

  /** The stored properties, by folded ID. */
  type Properties = map<string, ValueObject>

  /** Edges lead from an object to its precedents. */
  function Precedents(ps: Properties): Graph<string> {
    map id | id in ps :: ps[id].precedents
  }

  /** `recreateObject`: look up the creator for the class and call it; the creator retrieves
      each precedent and fails if any retrieval fails. */
  function Recreated<V>(creators: map<string, Creator<V>>, vo: ValueObject, results: map<string, Option<V>>): Option<V> {
    if vo.className !in creators || exists p :: p in results && results[p].None? then None
    else creators[vo.className](vo, ValuesIn(results))
  }

  function ValuesIn<V>(results: map<string, Option<V>>): map<string, V>
    requires forall p :: p in results ==> results[p].Some?
  {
    map p | p in results :: results[p].value
  }

  /** The value of `id` when it and all its precedents are recreated from scratch. */
  ghost function Rebuild<V>(creators: map<string, Creator<V>>, ps: Properties, id: string): Option<V>
    requires Acyclic(Precedents(ps))
    decreases Rank(Precedents(ps), id), 1
  {
    if id !in ps then None
    else
      PrecedentsRankLower(ps, id);
      Recreated(creators, ps[id], RebuildEach(creators, ps, ps[id].precedents, Rank(Precedents(ps), id)))
  }

  ghost function RebuildEach<V>(creators: map<string, Creator<V>>, ps: Properties, ids: set<string>, bound: nat)
    : (results: map<string, Option<V>>)
    requires Acyclic(Precedents(ps)) && forall p :: p in ids ==> Rank(Precedents(ps), p) < bound
    ensures results.Keys == ids && forall p :: p in ids ==> results[p] == Rebuild(creators, ps, p)
    decreases bound, 0
  {
    map p | p in ids :: Rebuild(creators, ps, p)
  }

  /** The value that recreating `vo` against the stored objects ought to give. */
  ghost function RebuildFrom<V>(creators: map<string, Creator<V>>, ps: Properties, vo: ValueObject): Option<V>
    requires Acyclic(Precedents(ps))
  {
    Recreated(creators, vo, Rebuilt(creators, ps, vo.precedents))
  }

  ghost function Rebuilt<V>(creators: map<string, Creator<V>>, ps: Properties, ids: set<string>): map<string, Option<V>>
    requires Acyclic(Precedents(ps))
  {
    map p | p in ids :: Rebuild(creators, ps, p)
  }

  lemma PrecedentsRankLower(ps: Properties, id: string)
    requires Acyclic(Precedents(ps)) && id in ps
    ensures forall p :: p in ps[id].precedents ==> Rank(Precedents(ps), p) < Rank(Precedents(ps), id)
  {
    var g := Precedents(ps);
    forall p | p in ps[id].precedents ensures Rank(g, p) < Rank(g, id) {
      RankDecreases(g, id, p);
    }
  }

  lemma RebuildUnfolds<V>(creators: map<string, Creator<V>>, ps: Properties, id: string)
    requires Acyclic(Precedents(ps))
    ensures Rebuild(creators, ps, id) == if id in ps then RebuildFrom(creators, ps, ps[id]) else None
  {
    if id in ps {
      PrecedentsRankLower(ps, id);
      var prec := ps[id].precedents;
      assert RebuildEach(creators, ps, prec, Rank(Precedents(ps), id)) == Rebuilt(creators, ps, prec);
    }
  }

  /** `values` are the rebuilt values of `ids`. */
  ghost predicate ValuesOf<V>(creators: map<string, Creator<V>>, ps: Properties, ids: set<string>, values: map<string, V>)
    requires Acyclic(Precedents(ps))
  {
    values.Keys == ids && forall p :: p in ids ==> Rebuild(creators, ps, p) == Some(values[p])
  }

  /** `r` is what constructing `vo` gives: what the creator of its class makes of its properties and
      the values of its precedents, or nothing without a creator or when a precedent has no value. */
  ghost predicate Constructed<V(!new)>(creators: map<string, Creator<V>>, ps: Properties, vo: ValueObject, r: Option<V>)
    requires Acyclic(Precedents(ps))
  {
    && (vo.className !in creators ==> r.None?)
    && ((exists p :: p in vo.precedents && Rebuild(creators, ps, p).None?) ==> r.None?)
    && (vo.className in creators ==>
          forall values {:trigger ValuesOf(creators, ps, vo.precedents, values)} ::
            ValuesOf(creators, ps, vo.precedents, values) ==> r == creators[vo.className](vo, values))
  }

  lemma RecreatedFromValues<V>(
    creators: map<string, Creator<V>>, vo: ValueObject, results: map<string, Option<V>>, values: map<string, V>)
    requires vo.className in creators
    requires values.Keys == results.Keys && forall p :: p in results ==> results[p] == Some(values[p])
    ensures Recreated(creators, vo, results) == creators[vo.className](vo, values)
  {
    assert ValuesIn(results) == values;
  }

  lemma RebuiltValues<V>(creators: map<string, Creator<V>>, ps: Properties, ids: set<string>, values: map<string, V>)
    requires Acyclic(Precedents(ps)) && ValuesOf(creators, ps, ids, values)
    ensures var results := Rebuilt(creators, ps, ids);
      values.Keys == results.Keys && forall p :: p in results ==> results[p] == Some(values[p])
  {
  }

  lemma ConstructedFromValues<V>(
    creators: map<string, Creator<V>>, ps: Properties, vo: ValueObject, values: map<string, V>)
    requires Acyclic(Precedents(ps)) && vo.className in creators && ValuesOf(creators, ps, vo.precedents, values)
    ensures RebuildFrom(creators, ps, vo) == creators[vo.className](vo, values)
  {
    RebuiltValues(creators, ps, vo.precedents, values);
    RecreatedFromValues(creators, vo, Rebuilt(creators, ps, vo.precedents), values);
  }

  lemma NotConstructed<V>(creators: map<string, Creator<V>>, ps: Properties, vo: ValueObject)
    requires Acyclic(Precedents(ps))
    requires vo.className !in creators || exists p :: p in vo.precedents && Rebuild(creators, ps, p).None?
    ensures RebuildFrom(creators, ps, vo).None?
  {
    if p :| p in vo.precedents && Rebuild(creators, ps, p).None? {
      assert Rebuilt(creators, ps, vo.precedents)[p].None?;
    }
  }

  lemma ValuesExist<V>(creators: map<string, Creator<V>>, ps: Properties, ids: set<string>) returns (values: map<string, V>)
    requires Acyclic(Precedents(ps)) && forall p :: p in ids ==> Rebuild(creators, ps, p).Some?
    ensures ValuesOf(creators, ps, ids, values)
  {
    values := map p | p in ids :: Rebuild(creators, ps, p).value;
  }

  /** That is the one result of recreation against the stored objects. */
  lemma ConstructedExactly<V(!new)>(creators: map<string, Creator<V>>, ps: Properties, vo: ValueObject, r: Option<V>)
    requires Acyclic(Precedents(ps))
    ensures Constructed(creators, ps, vo, r) <==> r == RebuildFrom(creators, ps, vo)
  {
    if vo.className !in creators || exists p :: p in vo.precedents && Rebuild(creators, ps, p).None? {
      NotConstructed(creators, ps, vo);
    } else {
      var values := ValuesExist(creators, ps, vo.precedents);
      forall other | ValuesOf(creators, ps, vo.precedents, other)
        ensures RebuildFrom(creators, ps, vo) == creators[vo.className](vo, other)
      {
        ConstructedFromValues(creators, ps, vo, other);
      }
    }
  }

  /** The rebuilt value of an object: none if it is not stored, and otherwise what the creator of its
      class makes of its properties and the rebuilt values of its precedents. */
  lemma RebuildMeaning<V(!new)>(creators: map<string, Creator<V>>, ps: Properties, id: string)
    requires Acyclic(Precedents(ps))
    ensures if id in ps then Constructed(creators, ps, ps[id], Rebuild(creators, ps, id))
            else Rebuild(creators, ps, id).None?
  {
    RebuildUnfolds(creators, ps, id);
    if id in ps {
      ConstructedExactly(creators, ps, ps[id], Rebuild(creators, ps, id));
    }
  }

  /** `vo` is recreated alike against two stores that agree on the values of its precedents. */
  lemma RebuildFromAgrees<V>(
    creators: map<string, Creator<V>>, ps: Properties, qs: Properties, vo: ValueObject)
    requires Acyclic(Precedents(ps)) && Acyclic(Precedents(qs))
    requires forall p :: p in vo.precedents ==> Rebuild(creators, ps, p) == Rebuild(creators, qs, p)
    ensures RebuildFrom(creators, ps, vo) == RebuildFrom(creators, qs, vo)
  {
    assert Rebuilt(creators, ps, vo.precedents) == Rebuilt(creators, qs, vo.precedents);
  }

  ghost predicate AgreeExcept(ps: Properties, qs: Properties, k: string) {
    forall y :: y != k ==> (y in ps <==> y in qs) && (y in ps ==> ps[y] == qs[y])
  }

  /** Changing the entry of `k` leaves the value of everything that does not depend on `k`. */
  lemma {:induction false} RebuildFrame<V>(
    creators: map<string, Creator<V>>, ps: Properties, qs: Properties, k: string, x: string)
    requires Acyclic(Precedents(ps)) && Acyclic(Precedents(qs))
    requires AgreeExcept(ps, qs, k)
    requires !Reaches(Precedents(ps), x, k)
    ensures Rebuild(creators, ps, x) == Rebuild(creators, qs, x)
    decreases Rank(Precedents(ps), x)
  {
    var g := Precedents(ps);
    assert x != k by { assert Steps(g, x, x, 0); }
    RebuildUnfolds(creators, ps, x);
    RebuildUnfolds(creators, qs, x);
    if x in ps {
      PrecedentsRankLower(ps, x);
      forall p | p in ps[x].precedents ensures Rebuild(creators, ps, p) == Rebuild(creators, qs, p) {
        assert !Reaches(g, p, k) by { if Reaches(g, p, k) { ReachesEdge(g, x, p, k); } }
        RebuildFrame(creators, ps, qs, k, p);
      }
      RebuildFromAgrees(creators, ps, qs, ps[x]);
    }
  }

  ghost function Lookup<V>(t: map<string, Option<V>>, id: string): Option<V> {
    if id in t then t[id] else None
  }

  ghost function Restrict<V>(t: map<string, Option<V>>, ids: set<string>): map<string, Option<V>> {
    map p | p in ids :: Lookup(t, p)
  }

  /** `t` gives the object `id` what recreating it from `t`'s own results gives. */
  ghost predicate SolvesAt<V>(creators: map<string, Creator<V>>, ps: Properties, t: map<string, Option<V>>, id: string) {
    Lookup(t, id) == if id in ps then Recreated(creators, ps[id], Restrict(t, ps[id].precedents)) else None
  }

  ghost predicate Solves<V>(creators: map<string, Creator<V>>, ps: Properties, t: map<string, Option<V>>) {
    forall id :: SolvesAt(creators, ps, t, id)
  }

  /** On an acyclic store the recreation equations have one solution: the rebuilt values. */
  lemma {:induction false} SolutionUnique<V>(
    creators: map<string, Creator<V>>, ps: Properties, t: map<string, Option<V>>, id: string)
    requires Acyclic(Precedents(ps)) && Solves(creators, ps, t)
    ensures Lookup(t, id) == Rebuild(creators, ps, id)
    decreases Rank(Precedents(ps), id)
  {
    assert SolvesAt(creators, ps, t, id);
    if id in ps {
      PrecedentsRankLower(ps, id);
      var prec := ps[id].precedents;
      forall p | p in prec ensures Lookup(t, p) == Rebuild(creators, ps, p) {
        SolutionUnique(creators, ps, t, p);
      }
      RebuildUnfolds(creators, ps, id);
      RestrictIsRebuilt(creators, ps, t, prec);
    }
  }

  lemma SolutionExists<V>(creators: map<string, Creator<V>>, ps: Properties) returns (t: map<string, Option<V>>)
    requires Acyclic(Precedents(ps))
    ensures Solves(creators, ps, t)
  {
    t := map id | id in ps :: Rebuild(creators, ps, id);
    forall id ensures SolvesAt(creators, ps, t, id) {
      RebuildUnfolds(creators, ps, id);
      if id in ps {
        RestrictIsRebuilt(creators, ps, t, ps[id].precedents);
      }
    }
  }

  lemma RestrictIsRebuilt<V>(
    creators: map<string, Creator<V>>, ps: Properties, t: map<string, Option<V>>, ids: set<string>)
    requires Acyclic(Precedents(ps))
    requires forall id :: id in ids ==> Lookup(t, id) == Rebuild(creators, ps, id)
    ensures Restrict(t, ids) == Rebuilt(creators, ps, ids)
  {
  }
}
