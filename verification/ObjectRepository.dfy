/** The repository: objects by ID, each rebuilt lazily after a precedent changed. */
module ObjectRepository {
  import opened Graphs
  import opened Ids
  import opened Observing
  import opened Rebuilding

  datatype StoreResult = Done | DuplicateId | CreationFailed | UnknownPrecedent

  /** Storing `vo` under `key` adds no cycle: none of its precedents depends on `key`. */
  ghost predicate AddsNoCycle(ps: Properties, key: string, vo: ValueObject) {
    forall p :: p in vo.precedents ==> !Reaches(Precedents(ps), p, key)
  }

  lemma PrecedentsUpdate(ps: Properties, key: string, vo: ValueObject)
    ensures Precedents(ps[key := vo]) == Precedents(ps)[key := vo.precedents]
  {
  }

  lemma StoreKeepsClosed(ps: Properties, key: string, vo: ValueObject)
    requires Closed(ps.Keys, Precedents(ps)) && vo.precedents <= ps.Keys + {key}
    ensures Closed(ps[key := vo].Keys, Precedents(ps[key := vo]))
  {
    PrecedentsUpdate(ps, key, vo);
    var qs := ps[key := vo];
    forall x, y | x in qs && y in Succ(Precedents(qs), x) ensures y in qs {
      assert x != key ==> y in Succ(Precedents(ps), x);
    }
  }

  lemma StoreKeepsAcyclic(ps: Properties, key: string, vo: ValueObject)
    requires Acyclic(Precedents(ps))
    ensures Acyclic(Precedents(ps[key := vo])) <==> AddsNoCycle(ps, key, vo)
  {
    PrecedentsUpdate(ps, key, vo);
    AcyclicUpdate(Precedents(ps), key, vo.precedents);
  }

  /** After a store, objects that do not depend on the stored one keep their rebuilt value, and
      the stored one rebuilds to what it was created as. */
  lemma StoreKeepsValues<V>(creators: map<string, Creator<V>>, ps: Properties, key: string, vo: ValueObject)
    requires Acyclic(Precedents(ps)) && Acyclic(Precedents(ps[key := vo]))
    ensures forall x :: !Reaches(Precedents(ps), x, key)
              ==> Rebuild(creators, ps[key := vo], x) == Rebuild(creators, ps, x)
    ensures Rebuild(creators, ps[key := vo], key) == RebuildFrom(creators, ps, vo)
  {
    var qs := ps[key := vo];
    forall x | !Reaches(Precedents(ps), x, key)
      ensures Rebuild(creators, qs, x) == Rebuild(creators, ps, x)
    {
      RebuildFrame(creators, ps, qs, key, x);
    }
    StoreKeepsAcyclic(ps, key, vo);
    RebuildFromAgrees(creators, ps, qs, vo);
    RebuildUnfolds(creators, qs, key);
  }

  /** The cache agrees with the target values: a clean object holds its target value, and its
      precedents are clean (in other words, dirtiness is closed under observers). */
  ghost predicate Coherent<V>(
    target: map<string, Option<V>>, ps: Properties, clean: set<string>, values: map<string, V>)
  {
    forall x {:trigger x in clean} :: x in clean ==> FreshAt(target, ps, clean, values, x)
  }

  ghost predicate FreshAt<V>(
    target: map<string, Option<V>>, ps: Properties, clean: set<string>, values: map<string, V>, x: string)
  {
    x in ps && x in values && Lookup(target, x) == Some(values[x]) && ps[x].precedents <= clean
  }

  /** Marking a recreated object clean needs no notification of its observers: being observers
      of a dirty object, they are dirty already. */
  lemma RefreshKeepsCoherent<V>(
    target: map<string, Option<V>>, ps: Properties, clean: set<string>, values: map<string, V>, key: string, v: V)
    requires Coherent(target, ps, clean, values)
    requires key in ps && Lookup(target, key) == Some(v) && ps[key].precedents <= clean
    ensures Coherent(target, ps, clean + {key}, values[key := v])
  {
    forall x | x in clean + {key} ensures FreshAt(target, ps, clean + {key}, values[key := v], x) {
      assert x in clean ==> FreshAt(target, ps, clean, values, x);
    }
  }

  /** The IDs that properly depend on `key`. */
  ghost function DependentIds(ps: Properties, key: string): set<string> {
    set x | x in ps && ReachesProperly(Precedents(ps), x, key)
  }

  /** The objects that stay clean when `key` is overwritten. */
  ghost function CleanAfter(ps: Properties, clean: set<string>, key: string): set<string> {
    clean - DependentIds(ps, key) + {key}
  }

  lemma DoesNotReach(ps: Properties, clean: set<string>, key: string, x: string)
    requires x in CleanAfter(ps, clean, key) && x in ps && x != key
    ensures !Reaches(Precedents(ps), x, key)
  {
    ReachesSplit(Precedents(ps), x, key);
  }

  /** After a store, with the dependents of the stored object dirty, the cache is right again. */
  lemma StoreKeepsCoherent<V>(
    creators: map<string, Creator<V>>, ps: Properties, target: map<string, Option<V>>,
    clean: set<string>, values: map<string, V>, key: string, vo: ValueObject, v: V, target': map<string, Option<V>>)
    requires Acyclic(Precedents(ps)) && Solves(creators, ps, target) && Coherent(target, ps, clean, values)
    requires Acyclic(Precedents(ps[key := vo])) && Solves(creators, ps[key := vo], target')
    requires vo.precedents <= clean && RebuildFrom(creators, ps, vo) == Some(v)
    ensures Coherent(target', ps[key := vo], CleanAfter(ps, clean, key), values[key := v])
  {
    var qs, clean', values' := ps[key := vo], CleanAfter(ps, clean, key), values[key := v];
    forall x | x in clean' ensures FreshAt(target', qs, clean', values', x) {
      SolutionUnique(creators, qs, target', x);
      StoreKeepsValues(creators, ps, key, vo);
      StoreKeepsAcyclic(ps, key, vo);
      if x == key {
        forall p | p in vo.precedents ensures p in clean' {
          ReachesSplit(Precedents(ps), p, key);
        }
      } else {
        assert FreshAt(target, ps, clean, values, x);
        DoesNotReach(ps, clean, key, x);
        SolutionUnique(creators, ps, target, x);
        forall p | p in ps[x].precedents ensures p in clean' {
          assert p in Succ(Precedents(ps), x);
          if Reaches(Precedents(ps), p, key) { ReachesEdge(Precedents(ps), x, p, key); }
          ReachesSplit(Precedents(ps), p, key);
        }
      }
    }
  }

  /** And only if the object was built from its clean precedents without closing a cycle. */
  lemma CoherentOnlyIfStorable<V>(
    creators: map<string, Creator<V>>, ps: Properties,
    clean: set<string>, values: map<string, V>, key: string, vo: ValueObject, v: V, target: map<string, Option<V>>)
    requires Acyclic(Precedents(ps)) && Acyclic(Precedents(ps[key := vo])) && Solves(creators, ps[key := vo], target)
    requires Coherent(target, ps[key := vo], CleanAfter(ps, clean, key), values[key := v])
    ensures vo.precedents <= clean && AddsNoCycle(ps, key, vo) && RebuildFrom(creators, ps, vo) == Some(v)
  {
    var qs := ps[key := vo];
    assert FreshAt(target, qs, CleanAfter(ps, clean, key), values[key := v], key);
    StoreKeepsAcyclic(ps, key, vo);
    forall p | p in vo.precedents ensures p in clean {
      ReachesSplit(Precedents(ps), p, key);
    }
    SolutionUnique(creators, qs, target, key);
    StoreKeepsValues(creators, ps, key, vo);
  }

  /** Nothing stored depends on an ID that is not stored. */
  lemma NoDependents(ps: Properties, key: string)
    requires Closed(ps.Keys, Precedents(ps)) && key !in ps
    ensures DependentIds(ps, key) == {}
  {
    forall x | x in ps ensures !ReachesProperly(Precedents(ps), x, key) {
      if n: nat :| n > 0 && Steps(Precedents(ps), x, key, n) {
        StaysWithin(ps.Keys, Precedents(ps), x, key, n);
      }
    }
  }

  lemma NewAddsNoCycle(ps: Properties, key: string, vo: ValueObject)
    requires Closed(ps.Keys, Precedents(ps))
    ensures key !in ps && vo.precedents <= ps.Keys ==> AddsNoCycle(ps, key, vo) && DependentIds(ps, key) == {}
  {
    if key !in ps && vo.precedents <= ps.Keys {
      NoDependents(ps, key);
      forall p | p in vo.precedents ensures !Reaches(Precedents(ps), p, key) {
        ReachesSplit(Precedents(ps), p, key);
        assert p !in DependentIds(ps, key);
      }
    }
  }

  lemma RecreatedIsRebuilt<V>(
    creators: map<string, Creator<V>>, ps: Properties, target: map<string, Option<V>>, vo: ValueObject)
    requires Acyclic(Precedents(ps)) && Solves(creators, ps, target)
    ensures Recreated(creators, vo, Restrict(target, vo.precedents)) == RebuildFrom(creators, ps, vo)
  {
    forall p | p in vo.precedents ensures Lookup(target, p) == Rebuild(creators, ps, p) {
      SolutionUnique(creators, ps, target, p);
    }
    RestrictIsRebuilt(creators, ps, target, vo.precedents);
  }

  /** What `restoreObject` reports, judged from the stored properties alone. */
  ghost function RestoreOutcome<V>(
    creators: map<string, Creator<V>>, ps: Properties, vo: ValueObject, overwrite: bool): StoreResult
    requires Acyclic(Precedents(ps))
  {
    if RebuildFrom(creators, ps, vo).None? then CreationFailed
    else if !overwrite && Fold(vo.objectId) in ps then DuplicateId
    else Done
  }

  /** It is a failure if nothing can be constructed, a duplicate if something can, the ID is stored
      and overwriting is not asked for, and a success otherwise. */
  lemma RestoreOutcomeMeaning<V(!new)>(creators: map<string, Creator<V>>, ps: Properties, vo: ValueObject, overwrite: bool)
    requires Acyclic(Precedents(ps))
    ensures RestoreOutcome(creators, ps, vo, overwrite) == CreationFailed <==> Constructed(creators, ps, vo, None)
    ensures RestoreOutcome(creators, ps, vo, overwrite) == DuplicateId <==>
      !Constructed(creators, ps, vo, None) && !overwrite && Fold(vo.objectId) in ps
    ensures RestoreOutcome(creators, ps, vo, overwrite) == Done <==>
      !Constructed(creators, ps, vo, None) && (overwrite || Fold(vo.objectId) !in ps)
  {
    ConstructedExactly(creators, ps, vo, None);
  }

  lemma CleanIsStored<V>(target: map<string, Option<V>>, ps: Properties, clean: set<string>, values: map<string, V>)
    requires Coherent(target, ps, clean, values)
    ensures clean <= ps.Keys
  {
    forall x | x in clean ensures x in ps {
      assert FreshAt(target, ps, clean, values, x);
    }
  }

  /** No stored object has `key` among its precedents. */
  ghost predicate Unobserved(ps: Properties, key: string) {
    forall x :: x in ps ==> key !in ps[x].precedents
  }

  lemma NotStoredNotObserved(ps: Properties, key: string)
    requires Closed(ps.Keys, Precedents(ps)) && key !in ps
    ensures Unobserved(ps, key)
  {
    forall x | x in ps ensures key !in ps[x].precedents {
      assert key !in Succ(Precedents(ps), x);
    }
  }

  lemma DeleteBreaksClosure(ps: Properties, key: string)
    requires Acyclic(Precedents(ps)) && !Unobserved(ps, key)
    ensures !Closed((ps - {key}).Keys, Precedents(ps - {key}))
  {
    var x :| x in ps && key in ps[x].precedents;
    NotOwnPrecedent(ps, key);
    assert key in Succ(Precedents(ps - {key}), x);
  }

  /** Deleting an unobserved object keeps the precedents closed and acyclic and the cache right. */
  lemma DeleteSettles<V>(
    creators: map<string, Creator<V>>, ps: Properties, target: map<string, Option<V>>,
    clean: set<string>, values: map<string, V>, key: string)
    requires Closed(ps.Keys, Precedents(ps)) && Acyclic(Precedents(ps)) && Unobserved(ps, key)
    requires Solves(creators, ps, target) && Coherent(target, ps, clean, values)
    ensures var qs := ps - {key};
      && Closed(qs.Keys, Precedents(qs)) && Acyclic(Precedents(qs))
      && Solves(creators, qs, target - {key}) && Coherent(target - {key}, qs, clean - {key}, values)
  {
    var qs, t := ps - {key}, target - {key};
    var g, h := Precedents(ps), Precedents(qs);
    forall v ensures Succ(h, v) <= Succ(g, v) {}
    AcyclicSubgraph(h, g);
    forall x, y | x in qs && y in Succ(h, x) ensures y in qs {
      assert y in Succ(g, x);
    }
    forall x ensures SolvesAt(creators, qs, t, x) {
      assert SolvesAt(creators, ps, target, x);
      if x in qs {
        assert Restrict(t, qs[x].precedents) == Restrict(target, ps[x].precedents);
      }
    }
    forall x | x in clean - {key} ensures FreshAt(t, qs, clean - {key}, values, x) {
      assert FreshAt(target, ps, clean, values, x);
    }
  }

  /** No clean object has `key` among its precedents. */
  ghost predicate NoCleanObserver(ps: Properties, clean: set<string>, key: string) {
    forall x :: x in clean && x in ps ==> key !in ps[x].precedents
  }

  lemma {:induction false} CleanDoesNotReach<V>(
    target: map<string, Option<V>>, ps: Properties, clean: set<string>, values: map<string, V>, key: string, x: string, n: nat)
    requires Coherent(target, ps, clean, values) && NoCleanObserver(ps, clean, key) && x in clean && x != key
    ensures !Steps(Precedents(ps), x, key, n)
    decreases n
  {
    assert FreshAt(target, ps, clean, values, x);
    if n > 0 && Steps(Precedents(ps), x, key, n) {
      var z :| z in Succ(Precedents(ps), x) && Steps(Precedents(ps), z, key, n - 1);
      CleanDoesNotReach(target, ps, clean, values, key, z, n - 1);
    }
  }

  /** After the deletion of an object the cache is right exactly when no clean object has it as a
      precedent: the dirty ones fail to be recreated, as they should. */
  lemma DeleteKeepsCoherent<V>(
    creators: map<string, Creator<V>>, ps: Properties, target: map<string, Option<V>>,
    clean: set<string>, values: map<string, V>, key: string, target': map<string, Option<V>>)
    requires Acyclic(Precedents(ps)) && Solves(creators, ps, target) && Coherent(target, ps, clean, values)
    requires Acyclic(Precedents(ps - {key})) && Solves(creators, ps - {key}, target')
    ensures Coherent(target', ps - {key}, clean - {key}, values) <==> NoCleanObserver(ps - {key}, clean, key)
  {
    var qs := ps - {key};
    if NoCleanObserver(qs, clean, key) {
      NotOwnPrecedent(ps, key);
      forall x | x in clean - {key} ensures FreshAt(target', qs, clean - {key}, values, x) {
        assert FreshAt(target, ps, clean, values, x);
        assert !Reaches(Precedents(ps), x, key) by {
          forall n: nat ensures !Steps(Precedents(ps), x, key, n) {
            CleanDoesNotReach(target, ps, clean, values, key, x, n);
          }
        }
        RebuildFrame(creators, ps, qs, key, x);
        SolutionUnique(creators, ps, target, x);
        SolutionUnique(creators, qs, target', x);
      }
    } else {
      var x :| x in clean && x in qs && key in qs[x].precedents;
      assert x in clean - {key} && !FreshAt(target', qs, clean - {key}, values, x);
    }
  }

  lemma NotOwnPrecedent(ps: Properties, key: string)
    requires Acyclic(Precedents(ps))
    ensures key in ps ==> key !in ps[key].precedents
  {
    if key in ps && key in ps[key].precedents {
      assert Steps(Precedents(ps), key, key, 0);
      ReachesEdge(Precedents(ps), key, key, key);
    }
  }

  lemma MissingPrecedentFails<V>(creators: map<string, Creator<V>>, ps: Properties, x: string, key: string)
    requires Acyclic(Precedents(ps)) && x in ps && key in ps[x].precedents && key !in ps
    ensures Rebuild(creators, ps, x).None?
  {
    RebuildUnfolds(creators, ps, x);
    RebuildUnfolds(creators, ps, key);
    assert Rebuilt(creators, ps, ps[x].precedents)[key].None?;
  }

  ghost predicate HasFailure<V>(results: map<string, Option<V>>) {
    exists p :: p in results && results[p].None?
  }

  ghost predicate AgreesWith<V>(results: map<string, Option<V>>, target: map<string, Option<V>>) {
    forall p :: p in results ==> results[p] == Lookup(target, p)
  }

  /** A creator that stops at the first failing precedent fails like one that retrieves them all. */
  lemma RecreatedFromPart<V>(
    creators: map<string, Creator<V>>, vo: ValueObject, part: map<string, Option<V>>, full: map<string, Option<V>>)
    requires forall p :: p in part ==> p in full && part[p] == full[p]
    requires HasFailure(part) || part.Keys == full.Keys
    ensures Recreated(creators, vo, part) == Recreated(creators, vo, full)
  {
    if !HasFailure(part) {
      assert part == full;
    }
  }

  class Repository<V(!new)> {
    const creators: map<string, Creator<V>>
    var objectMap: map<string, ObjectWrapper<V>>

    /** The abstract state: what is stored under each folded ID. Everything else is a cache. */
    ghost var stored: Properties
    /** The values that rebuilding from scratch gives, and how much of them the wrappers hold. */
    ghost var target: map<string, Option<V>>
    ghost var clean: set<string>
    ghost var values: map<string, V>
    ghost var wrappers: set<ObjectWrapper<V>>

    /** The map leads to exactly the wrappers, and the precedents form no cycle. */
    ghost predicate Indexed()
      reads `objectMap, `stored, `target, `wrappers
    {
      && objectMap.Keys == stored.Keys
      && Indexes(objectMap, wrappers)
      && Acyclic(Precedents(stored))
      && Solves(creators, stored, target)
    }

    /** The observer links are the precedent IDs. */
    ghost predicate LinkedUp()
      reads `stored, `wrappers, wrappers`observers, wrappers`observables, wrappers`alive
    {
      LinkedAlong(Precedents(stored))
    }

    ghost predicate LinkedAlong(g: Graph<string>)
      reads `wrappers, wrappers`observers, wrappers`observables, wrappers`alive
    {
      && (forall w {:trigger w in wrappers} :: w in wrappers ==> w.alive)
      && Linked(wrappers)
      && Follows(wrappers, g)
    }

    /** The ghost state mirrors the wrappers' fields. */
    ghost predicate Mirrored()
      reads `stored, `clean, `values, `wrappers, wrappers`dirty, wrappers`obj
    {
      && clean <= values.Keys
      && forall w {:trigger MirroredAt(w)} :: w in wrappers ==> MirroredAt(w)
    }

    ghost predicate MirroredAt(w: ObjectWrapper<V>)
      reads `stored, `clean, `values, w`dirty, w`obj
    {
      && w.id in stored && w.obj.properties == stored[w.id]
      && (w.dirty <==> w.id !in clean)
      && (w.id in clean ==> w.id in values && w.obj.value == values[w.id])
    }

    /** The cache is right, whatever the links, and whether or not all precedents are stored. */
    ghost predicate Cached()
      reads `objectMap, `stored, `target, `clean, `values, `wrappers, wrappers`dirty, wrappers`obj
    {
      Indexed() && Mirrored() && Coherent(target, stored, clean, values)
    }

    ghost predicate Valid()
      reads this, wrappers
    {
      Cached() && Closed(stored.Keys, Precedents(stored)) && LinkedUp()
    }

    /** The object is in the map and not dirty: retrieval returns it as it is. */
    ghost predicate Hit(key: string)
      reads `objectMap, objectMap.Values`dirty
    {
      key in objectMap && !objectMap[key].dirty
    }

    constructor (creators: map<string, Creator<V>>)
      ensures this.creators == creators && objectMap == map[] && stored == map[] && Valid() && wrappers == {} && clean == {}
    {
      this.creators, objectMap, stored, clean, values, wrappers := creators, map[], map[], {}, map[], {};
      target := map[];
    }

    // ----- retrieval -----

    /** Where the cache is right, retrieval returns what rebuilding everything from the stored
        properties would give; an object that is not dirty is returned as it is in any case. */
    method RetrieveObject(objectID: string) returns (r: Option<V>)
      requires Cached() || Hit(Fold(objectID))
      modifies `clean, `values, wrappers`obj, wrappers`dirty
      ensures old(Cached()) ==> Cached() && old(clean) <= clean && r == Rebuild(creators, stored, Fold(objectID))
      ensures old(Cached()) ==> if Fold(objectID) in stored then Constructed(creators, stored, stored[Fold(objectID)], r)
                                else r.None?
      ensures old(Valid()) ==> Valid()
      ensures old(Hit(Fold(objectID))) ==> r == Some(old(objectMap[Fold(objectID)].obj.value))
    {
      var key := Fold(objectID);
      if key in objectMap && !objectMap[key].dirty {
        r := Some(objectMap[key].obj.value);
        if Cached() {
          HitIsRebuilt(key);
        }
      } else {
        ghost var rank, top := AcyclicIsRanked(Precedents(stored));
        r := Retrieve(key, rank, top);
        SolutionUnique(creators, stored, target, key);
      }
      if Cached() {
        RebuildMeaning(creators, stored, key);
      }
    }

    lemma HitIsRebuilt(key: string)
      requires Cached() && Hit(key)
      ensures Rebuild(creators, stored, key) == Some(objectMap[key].obj.value)
    {
      assert MirroredAt(objectMap[key]);
      assert FreshAt(target, stored, clean, values, key);
      SolutionUnique(creators, stored, target, key);
    }

    method Retrieve(key: string, ghost rank: string -> nat, ghost top: nat) returns (r: Option<V>)
      requires Cached() && Ranked(Precedents(stored), rank, top)
      modifies `clean, `values, wrappers`obj, wrappers`dirty
      ensures Cached() && old(clean) <= clean
      ensures r == Lookup(target, key) && (r.Some? ==> key in clean)
      decreases rank(key), 2
    {
      assert SolvesAt(creators, stored, target, key);
      if key !in objectMap {
        return None;
      }
      var w := objectMap[key];
      assert MirroredAt(w);
      if !w.dirty {
        assert FreshAt(target, stored, clean, values, key);
        return Some(w.obj.value);
      }
      assert Succ(Precedents(stored), key) == stored[key].precedents;
      r := RecreateObject(w.obj.properties, rank(key), rank, top);
      if r.Some? {
        RefreshKeepsCoherent(target, stored, clean, values, key, r.value);
        SetClean(w, r.value);
      }
    }

    /** The assignments that end a successful `recreate`. */
    method SetClean(w: ObjectWrapper<V>, value: V)
      requires Indexed() && Mirrored() && w in wrappers
      modifies `clean, `values, w`obj, w`dirty
      ensures Mirrored() && clean == old(clean) + {w.id} && values == old(values)[w.id := value]
    {
      w.obj := w.obj.(value := value);
      w.dirty := false;
      clean, values := clean + {w.id}, values[w.id := value];
      forall a | a in wrappers ensures MirroredAt(a) {
        assert old(MirroredAt(a));
      }
    }

    /** `recreateObject` with a creator that retrieves the precedents through the repository. */
    method RecreateObject(vo: ValueObject, ghost bound: nat, ghost rank: string -> nat, ghost top: nat)
      returns (r: Option<V>)
      requires Cached() && Ranked(Precedents(stored), rank, top)
      requires forall p :: p in vo.precedents ==> rank(p) < bound
      modifies `clean, `values, wrappers`obj, wrappers`dirty
      ensures Cached() && old(clean) <= clean
      ensures r == Recreated(creators, vo, Restrict(target, vo.precedents)) && Constructed(creators, stored, vo, r)
      ensures r.Some? ==> vo.precedents <= clean
      decreases bound, 1
    {
      RecreatedIsRebuilt(creators, stored, target, vo);
      ConstructedExactly(creators, stored, vo, RebuildFrom(creators, stored, vo));
      if vo.className !in creators {
        return None;
      }
      var results := RetrieveEach(vo.precedents, bound, rank, top);
      RecreatedFromPart(creators, vo, results, Restrict(target, vo.precedents));
      r := Recreated(creators, vo, results);
    }

    /** Retrieves precedents one by one, up to the first that fails. */
    method RetrieveEach(ids: set<string>, ghost bound: nat, ghost rank: string -> nat, ghost top: nat)
      returns (results: map<string, Option<V>>)
      requires Cached() && Ranked(Precedents(stored), rank, top)
      requires forall p :: p in ids ==> rank(p) < bound
      modifies `clean, `values, wrappers`obj, wrappers`dirty
      ensures Cached() && old(clean) <= clean
      ensures AgreesWith(results, target)
      ensures HasFailure(results) || (results.Keys == ids && ids <= clean)
      ensures results.Keys <= ids
      decreases bound, 0
    {
      var rest := ids;
      results := map[];
      while rest != {}
        invariant Cached() && old(clean) <= clean
        invariant rest <= ids && results.Keys == ids - rest && ids - rest <= clean
        invariant AgreesWith(results, target)
        decreases |rest|
      {
        var p :| p in rest;
        var v := Retrieve(p, rank, top);
        results := results[p := v];
        if v.None? {
          assert results[p].None?;
          return;
        }
        rest := rest - {p};
      }
    }

    // ----- storage -----

    /** The state between the replacement of an object and the registration of its wrapper: the
        links still follow the graph `g` of before. */
    ghost predicate Pending(g: Graph<string>)
      reads `objectMap, `stored, `clean, `values, `wrappers,
            wrappers`dirty, wrappers`obj, wrappers`observers, wrappers`observables, wrappers`alive
    {
      && objectMap.Keys == stored.Keys
      && Indexes(objectMap, wrappers)
      && Mirrored()
      && LinkedAlong(g)
    }

    method InsertNew(key: string, obj: Object<V>) returns (w: ObjectWrapper<V>)
      requires Indexes(objectMap, wrappers) && Mirrored() && objectMap.Keys == stored.Keys
      requires key !in objectMap && LinkedUp() && Closed(stored.Keys, Precedents(stored))
      modifies `objectMap, `stored, `clean, `values, `wrappers
      ensures Pending(old(Precedents(stored)))
      ensures fresh(w) && wrappers == old(wrappers) + {w}
      ensures stored == old(stored)[key := obj.properties] && clean == old(clean) + {key}
      ensures values == old(values)[key := obj.value]
    {
      w := AddEntry(key, obj);
      IndexesOneMore(old(objectMap), old(wrappers), w);
      LinkedOneMore(old(wrappers), old(Precedents(stored)), w);
    }

    method ResetExisting(key: string, obj: Object<V>)
      requires Indexes(objectMap, wrappers) && Mirrored() && objectMap.Keys == stored.Keys
      requires key in objectMap && Follows(wrappers, Precedents(stored))
      requires Closed(stored.Keys, Precedents(stored)) && Acyclic(Precedents(stored))
      modifies `stored, `clean, `values, wrappers`obj, wrappers`dirty
      ensures Mirrored()
      ensures stored == old(stored)[key := obj.properties] && clean == CleanAfter(old(stored), old(clean), key)
      ensures values == old(values)[key := obj.value]
    {
      ghost var g := Precedents(stored);
      ghost var rank, top := AcyclicIsRanked(g);
      var w := objectMap[key];
      w.Reset(obj, objectMap, wrappers, g, rank, top);
      clean, values := CleanAfter(stored, clean, key), values[key := obj.value];
      stored := stored[key := obj.properties];
      forall a | a in wrappers ensures MirroredAt(a) {
        assert old(MirroredAt(a));
        DirtyAfterReset(g, wrappers, old(Dirty(wrappers)), w, a);
      }
    }

    /** `registerObserver`: drop all links of the wrapper, then register it with the wrappers of
        its precedents, up to the first precedent that is not stored. */
    method RegisterObserver(key: string, ghost g: Graph<string>) returns (ok: bool, ghost done: set<string>)
      requires Indexes(objectMap, wrappers) && LinkedAlong(g) && key in objectMap
      modifies wrappers`observables, wrappers`observers
      ensures ok <==> objectMap[key].obj.properties.precedents <= objectMap.Keys
      ensures done <= objectMap[key].obj.properties.precedents * objectMap.Keys
      ensures ok ==> done == objectMap[key].obj.properties.precedents
      ensures LinkedAlong(g[key := done])
    {
      Unlink(key, g);
      ok, done := RegisterEach(key, objectMap[key].obj.properties.precedents, g);
    }

    method Unlink(key: string, ghost g: Graph<string>)
      requires Indexes(objectMap, wrappers) && LinkedAlong(g) && key in objectMap
      modifies wrappers`observables, wrappers`observers
      ensures LinkedAlong(g[key := {}])
    {
      objectMap[key].UnregisterWithAll(wrappers);
    }

    /** The loop over the precedents. */
    method RegisterEach(key: string, prec: set<string>, ghost g: Graph<string>) returns (ok: bool, ghost done: set<string>)
      requires Indexes(objectMap, wrappers) && LinkedAlong(g[key := {}]) && key in objectMap
      modifies wrappers`observables, wrappers`observers
      ensures ok <==> prec <= objectMap.Keys
      ensures done <= prec * objectMap.Keys && (ok ==> done == prec)
      ensures LinkedAlong(g[key := done])
    {
      var w := objectMap[key];
      var rest := prec;
      done := {};
      while rest != {}
        invariant rest <= prec && done == prec - rest && done <= objectMap.Keys
        invariant LinkedAlong(g[key := done])
        decreases |rest|
      {
        var p :| p in rest;
        if p !in objectMap {
          return false, done;
        }
        RegisterOne(w, p, g, key, done);
        rest, done := rest - {p}, done + {p};
      }
      ok := true;
    }

    method RegisterOne(w: ObjectWrapper<V>, p: string, ghost g: Graph<string>, ghost key: string, ghost done: set<string>)
      requires Indexes(objectMap, wrappers) && LinkedAlong(g[key := done])
      requires key in objectMap && w == objectMap[key] && p in objectMap
      modifies wrappers`observables, wrappers`observers
      ensures LinkedAlong(g[key := done + {p}])
    {
      var _ := w.RegisterWith(objectMap[p], wrappers);
    }

    /** The first half of `storeObject`: replace the object of an existing wrapper, notifying its
        observers, or make a new wrapper. */
    method Replace(key: string, obj: Object<V>) returns (ghost added: set<ObjectWrapper<V>>)
      requires Valid()
      modifies `objectMap, `stored, `clean, `values, `wrappers, wrappers`obj, wrappers`dirty
      ensures Pending(old(Precedents(stored)))
      ensures wrappers == old(wrappers) + added && fresh(added)
      ensures stored == old(stored)[key := obj.properties] && clean == CleanAfter(old(stored), old(clean), key)
      ensures values == old(values)[key := obj.value]
    {
      if key in objectMap {
        ResetExisting(key, obj);
        added := {};
      } else {
        NoDependents(stored, key);
        var w := InsertNew(key, obj);
        added := {w};
      }
    }

    /** The stored properties are closed and acyclic, and the cache agrees with them. */
    ghost predicate Settled()
      reads `stored, `target, `clean, `values
    {
      && Closed(stored.Keys, Precedents(stored)) && Acyclic(Precedents(stored))
      && Solves(creators, stored, target) && Coherent(target, stored, clean, values)
    }

    /** After the replacement of an object the target values change, and the cache agrees with
        the new ones. */
    ghost method Retarget(key: string, obj: Object<V>, ps: Properties, clean0: set<string>, values0: map<string, V>)
      requires stored == ps[key := obj.properties]
      requires clean == CleanAfter(ps, clean0, key) && values == values0[key := obj.value]
      requires Acyclic(Precedents(ps)) && Closed(ps.Keys, Precedents(ps))
      requires Solves(creators, ps, target) && Coherent(target, ps, clean0, values0)
      requires obj.properties.precedents <= ps.Keys + {key} && Storable(ps, clean0, key, obj)
      modifies `target
      ensures Settled()
    {
      StoreKeepsAcyclic(ps, key, obj.properties);
      StoreKeepsClosed(ps, key, obj.properties);
      var target' := SolutionExists(creators, stored);
      StoreKeepsCoherent(creators, ps, target, clean0, values0, key, obj.properties, obj.value, target');
      target := target';
    }

    /** The second half of `storeObject`: registration. */
    method Register(key: string, ghost ps: Properties) returns (ok: bool)
      requires Pending(Precedents(ps)) && key in stored && stored == ps[key := stored[key]]
      requires Closed(ps.Keys, Precedents(ps))
      modifies wrappers`observables, wrappers`observers
      ensures ok <==> stored[key].precedents <= ps.Keys + {key}
      ensures if ok then Pending(Precedents(stored)) && Closed(stored.Keys, Precedents(stored))
              else !Closed(stored.Keys, Precedents(stored))
    {
      assert MirroredAt(objectMap[key]);
      PrecedentsUpdate(ps, key, stored[key]);
      ghost var done;
      ok, done := RegisterObserver(key, Precedents(ps));
      if ok {
        StoreKeepsClosed(ps, key, stored[key]);
      } else {
        ghost var p :| p in stored[key].precedents && p !in stored;
        assert p in Succ(Precedents(stored), key);
      }
    }

    method Settle(key: string, obj: Object<V>,
                  ghost ps: Properties, ghost clean0: set<string>, ghost values0: map<string, V>) returns (ok: bool)
      requires Pending(Precedents(ps)) && stored == ps[key := obj.properties]
      requires clean == CleanAfter(ps, clean0, key) && values == values0[key := obj.value]
      requires Acyclic(Precedents(ps)) && Closed(ps.Keys, Precedents(ps))
      requires Solves(creators, ps, target) && Coherent(target, ps, clean0, values0)
      modifies `target, wrappers`observables, wrappers`observers
      ensures ok <==> obj.properties.precedents <= ps.Keys + {key}
      ensures ok ==> (Valid() <==> Storable(ps, clean0, key, obj))
      ensures !ok ==> !Closed(stored.Keys, Precedents(stored))
    {
      if obj.properties.precedents <= ps.Keys + {key} && Storable(ps, clean0, key, obj) {
        Retarget(key, obj, ps, clean0, values0);
      }
      ok := Register(key, ps);
      if Acyclic(Precedents(stored)) && Solves(creators, stored, target) && Coherent(target, stored, clean, values) {
        CoherentOnlyIfStorable(creators, ps, clean0, values0, key, obj.properties, obj.value, target);
      }
    }

    /** `storeObject`. The repository is consistent afterwards exactly when the object is the one
        that its precedents, all clean, currently give, and none of them depends on it: the code
        checks neither. The entry is written before the precedents are looked up, so when one is not
        stored the call fails and leaves the repository inconsistent. */
    method StoreObject(objectID: string, obj: Object<V>, overwrite: bool)
      returns (r: StoreResult, ghost added: set<ObjectWrapper<V>>)
      requires Valid()
      modifies this, wrappers
      ensures wrappers == old(wrappers) + added && fresh(added)
      ensures r == if !overwrite && Fold(objectID) in old(stored) then DuplicateId
                   else if obj.properties.precedents <= old(stored.Keys) + {Fold(objectID)} then Done
                   else UnknownPrecedent
      ensures r == DuplicateId ==> Valid() && stored == old(stored) && clean == old(clean)
      ensures r != DuplicateId ==> stored == old(stored)[Fold(objectID) := obj.properties]
      ensures r == Done ==> (Valid() <==> old(Storable(stored, clean, Fold(objectID), obj)))
      ensures r == Done ==> clean == CleanAfter(old(stored), old(clean), Fold(objectID))
      ensures r == UnknownPrecedent ==> !Valid() && Fold(objectID) in objectMap
    {
      var key := Fold(objectID);
      if !overwrite && key in objectMap {
        return DuplicateId, {};
      }
      added := Replace(key, obj);
      var ok := Settle(key, obj, old(stored), old(clean), old(values));
      r := if ok then Done else UnknownPrecedent;
    }

    /** The object's value is the one its precedents currently give, they are all clean, and
        none of them depends on the ID it is stored under. */
    ghost predicate Storable(ps: Properties, clean: set<string>, key: string, obj: Object<V>)
      requires Acyclic(Precedents(ps))
    {
      && obj.properties.precedents <= clean
      && AddsNoCycle(ps, key, obj.properties)
      && RebuildFrom(creators, ps, obj.properties) == Some(obj.value)
    }

    /** `restoreObject`: construct an object from the current values of its precedents and store
        it. Cycles are not detected: the repository is consistent afterwards exactly when no
        precedent depends on the object. */
    method RestoreObject(vo: ValueObject, overwrite: bool) returns (r: StoreResult, ghost added: set<ObjectWrapper<V>>)
      requires Valid()
      modifies this, wrappers
      ensures wrappers == old(wrappers) + added && fresh(added)
      ensures r == RestoreOutcome(creators, old(stored), vo, overwrite)
      ensures r == CreationFailed <==> old(Constructed(creators, stored, vo, None))
      ensures r == DuplicateId ==> !overwrite && Fold(vo.objectId) in old(stored)
      ensures r == Done ==> overwrite || Fold(vo.objectId) !in old(stored)
      ensures stored == if r == Done then old(stored)[Fold(vo.objectId) := vo] else old(stored)
      ensures if r == Done then Valid() <==> AddsNoCycle(old(stored), Fold(vo.objectId), vo) else Valid()
      ensures r == Done ==> CleanAfter(old(stored), old(clean), Fold(vo.objectId)) <= clean
      ensures r == CreationFailed ==> old(clean) <= clean
    {
      RestoreOutcomeMeaning(creators, stored, vo, overwrite);
      var v := Construct(vo);
      r, added := CreationFailed, {};
      if v.Some? {
        r, added := StoreObject(vo.objectId, Object(vo, v.value), overwrite);
      }
    }

    /** The object in its repository, as the creator makes it. */
    method Construct(vo: ValueObject) returns (v: Option<V>)
      requires Valid()
      modifies `clean, `values, wrappers`obj, wrappers`dirty
      ensures Valid() && old(clean) <= clean
      ensures v == RebuildFrom(creators, stored, vo)
      ensures v.Some? ==> vo.precedents <= stored.Keys && vo.precedents <= clean
    {
      ghost var rank, top := AcyclicIsRanked(Precedents(stored));
      v := RecreateObject(vo, top + 1, rank, top);
      RecreatedIsRebuilt(creators, stored, target, vo);
      CleanIsStored(target, stored, clean, values);
    }

    // ----- deletion -----

    /** `deleteObject`. The repository stays consistent exactly when no stored object has the
        deleted one among its precedents; otherwise its observers keep the wrapper alive, and
        whatever is later stored under the ID is a different wrapper, which they do not observe. Even
        then retrieval is still right, exactly when all these observers are dirty. */
    method DeleteObject(objectID: string) returns (found: bool)
      requires Valid()
      modifies this, wrappers
      ensures found == (Fold(objectID) in old(stored))
      ensures stored == old(stored) - {Fold(objectID)} && objectMap == old(objectMap) - {Fold(objectID)}
      ensures wrappers <= old(wrappers) && Acyclic(Precedents(stored))
      ensures Valid() <==> Unobserved(old(stored), Fold(objectID))
      ensures Cached() <==> NoCleanObserver(stored, old(clean), Fold(objectID))
      ensures forall x :: x in stored && x in old(clean) && Fold(objectID) in stored[x].precedents ==>
                Hit(x) && Rebuild(creators, stored, x).None?
    {
      var key := Fold(objectID);
      found := key in objectMap;
      if !found {
        NotStoredNotObserved(stored, key);
        assert stored - {key} == stored && objectMap - {key} == objectMap;
        return;
      }
      ObservedIffPrecedent(key);
      if objectMap[key].observers == {} {
        DestroyEntry(key);
      } else {
        AbandonEntry(key);
        StaleHits(key, old(clean));
      }
    }

    /** The entry goes, the observed wrapper stays. */
    method AbandonEntry(key: string)
      requires Cached() && key in objectMap && !Unobserved(stored, key)
      modifies this
      ensures stored == old(stored) - {key} && objectMap == old(objectMap) - {key} && wrappers <= old(wrappers)
      ensures !Closed(stored.Keys, Precedents(stored)) && Indexed() && Mirrored()
      ensures Coherent(target, stored, clean, values) <==> NoCleanObserver(stored, old(clean), key)
      ensures clean == old(clean) - {key}
    {
      DeleteBreaksClosure(stored, key);
      RemoveEntry(key);
      RetargetDeleted(key, old(stored), old(target), old(clean));
    }

    ghost method RetargetDeleted(key: string, ps: Properties, target0: map<string, Option<V>>, clean0: set<string>)
      requires stored == ps - {key} && clean == clean0 - {key}
      requires Acyclic(Precedents(ps)) && Solves(creators, ps, target0) && Coherent(target0, ps, clean0, values)
      modifies `target
      ensures Acyclic(Precedents(stored)) && Solves(creators, stored, target)
      ensures Coherent(target, stored, clean, values) <==> NoCleanObserver(stored, clean0, key)
    {
      forall v ensures Succ(Precedents(stored), v) <= Succ(Precedents(ps), v) {}
      AcyclicSubgraph(Precedents(stored), Precedents(ps));
      target := SolutionExists(creators, stored);
      DeleteKeepsCoherent(creators, ps, target0, clean0, values, key, target);
    }

    /** Clean observers of a deleted object are still returned, though they cannot be rebuilt. */
    lemma StaleHits(key: string, clean0: set<string>)
      requires Mirrored() && Indexes(objectMap, wrappers) && objectMap.Keys == stored.Keys
      requires Acyclic(Precedents(stored)) && key !in stored && clean == clean0 - {key}
      ensures forall x :: x in stored && x in clean0 && key in stored[x].precedents ==>
                Hit(x) && Rebuild(creators, stored, x).None?
    {
      forall x | x in stored && x in clean0 && key in stored[x].precedents
        ensures Hit(x) && Rebuild(creators, stored, x).None?
      {
        assert MirroredAt(objectMap[x]);
        MissingPrecedentFails(creators, stored, x, key);
      }
    }

    /** A wrapper has observers exactly when its ID is a precedent. */
    lemma ObservedIffPrecedent(key: string)
      requires Indexed() && LinkedUp() && key in objectMap
      ensures objectMap[key].observers == {} <==> Unobserved(stored, key)
    {
      var w := objectMap[key];
      if o :| o in w.observers {
        assert w.id in Succ(Precedents(stored), o.id);
      }
      if x :| x in stored && key in stored[x].precedents {
        assert objectMap[x] in w.observers by { assert w.id in Succ(Precedents(stored), objectMap[x].id); }
      }
    }

    method DestroyEntry(key: string)
      requires Valid() && key in objectMap && objectMap[key].observers == {} && Unobserved(stored, key)
      modifies this, wrappers
      ensures Valid() && wrappers <= old(wrappers)
      ensures stored == old(stored) - {key} && objectMap == old(objectMap) - {key}
    {
      DeleteSettles(creators, stored, target, clean, values, key);
      DetachEntry(key);
    }

    method DetachEntry(key: string)
      requires Indexes(objectMap, wrappers) && Mirrored() && LinkedUp()
      requires key in objectMap && objectMap[key].observers == {}
      modifies this, wrappers`observables, wrappers`observers, wrappers`alive
      ensures Indexes(objectMap, wrappers) && Mirrored() && LinkedUp() && wrappers <= old(wrappers)
      ensures objectMap == old(objectMap) - {key} && stored == old(stored) - {key}
      ensures target == old(target) - {key} && clean == old(clean) - {key} && values == old(values)
    {
      ghost var g, ws, w := Precedents(stored)[key := {}], wrappers, objectMap[key];
      Detach(key);
      RemoveEntry(key);
      LinkedOneLess(ws, g, w);
      SameSuccessors(wrappers, g, Precedents(stored));
    }

    /** The destructor of an unobserved wrapper unregisters it from its precedents. */
    method Detach(key: string)
      requires Indexes(objectMap, wrappers) && LinkedUp() && key in objectMap && objectMap[key].observers == {}
      modifies wrappers`observables, wrappers`observers, wrappers`alive
      ensures Linked(wrappers) && Follows(wrappers, Precedents(stored)[key := {}])
      ensures objectMap[key].observers == {} && objectMap[key].observables == {}
      ensures forall w :: w in wrappers && w.id != key ==> w.alive
    {
      objectMap[key].Destroy(wrappers);
    }

    method RemoveEntry(key: string)
      requires Indexes(objectMap, wrappers) && Mirrored() && key in objectMap
      modifies `objectMap, `stored, `target, `clean, `values, `wrappers
      ensures Indexes(objectMap, wrappers) && Mirrored()
      ensures objectMap == old(objectMap) - {key} && wrappers == old(wrappers) - {old(objectMap[key])}
      ensures stored == old(stored) - {key} && target == old(target) - {key}
      ensures clean == old(clean) - {key} && values == old(values)
    {
      wrappers := wrappers - {objectMap[key]};
      objectMap := objectMap - {key};
      stored, target, clean := stored - {key}, target - {key}, clean - {key};
      forall a | a in wrappers ensures MirroredAt(a) {
        assert old(MirroredAt(a));
      }
    }

    method AddEntry(key: string, obj: Object<V>) returns (w: ObjectWrapper<V>)
      requires Mirrored() && forall a :: a in wrappers ==> a.id != key
      modifies `objectMap, `stored, `clean, `values, `wrappers
      ensures fresh(w) && w.id == key && w.alive && w.observers == {} && w.observables == {}
      ensures Mirrored() && objectMap == old(objectMap)[key := w] && wrappers == old(wrappers) + {w}
      ensures stored == old(stored)[key := obj.properties] && clean == old(clean) + {key}
      ensures values == old(values)[key := obj.value]
    {
      w := new ObjectWrapper<V>(key, obj);
      objectMap := objectMap[key := w];
      stored, clean, values := stored[key := obj.properties], clean + {key}, values[key := obj.value];
      wrappers := wrappers + {w};
      forall a | a in wrappers ensures MirroredAt(a) {
        assert a != w ==> old(MirroredAt(a));
      }
    }
  }

  lemma DirtyAfterReset<V(!new)>(
    g: Graph<string>, ws: set<ObjectWrapper<V>>, before: set<ObjectWrapper<V>>, w: ObjectWrapper<V>, a: ObjectWrapper<V>)
    requires a in ws && Dirty(ws) == before + ProperDependents(g, ws, w.id) - {w}
    ensures a.dirty <==> (a in before || ReachesProperly(g, a.id, w.id)) && a != w
  {
    assert a.dirty <==> a in Dirty(ws);
  }

  lemma IndexesOneMore<V(!new)>(m: map<string, ObjectWrapper<V>>, ws: set<ObjectWrapper<V>>, w: ObjectWrapper<V>)
    requires Indexes(m, ws) && w.id !in m
    ensures Indexes(m[w.id := w], ws + {w})
  {
  }

  lemma LinkedOneMore<V(!new)>(ws: set<ObjectWrapper<V>>, g: Graph<string>, w: ObjectWrapper<V>)
    requires Linked(ws) && Follows(ws, g) && w !in ws
    requires w.observers == {} && w.observables == {} && w.id !in g
    requires forall a :: a in ws ==> w.id !in Succ(g, a.id)
    ensures Linked(ws + {w}) && Follows(ws + {w}, g)
  {
  }

  lemma LinkedOneLess<V(!new)>(ws: set<ObjectWrapper<V>>, g: Graph<string>, w: ObjectWrapper<V>)
    requires Linked(ws) && Follows(ws, g) && w in ws && w.observers == {} && w.observables == {}
    ensures Linked(ws - {w}) && Follows(ws - {w}, g)
  {
    forall a | a in ws ensures w !in a.observers && w !in a.observables {}
  }

  lemma SameSuccessors<V(!new)>(ws: set<ObjectWrapper<V>>, g: Graph<string>, h: Graph<string>)
    requires Follows(ws, g) && forall a :: a in ws ==> Succ(g, a.id) == Succ(h, a.id)
    ensures Follows(ws, h)
  {
  }
}
