/** Saving objects to an archive and loading them back. The archive is a list of value objects. */
module Serialization {
  import opened Graphs
  import opened Ids
  import opened Observing
  import opened Rebuilding
  import opened ObjectRepository
  import opened RepositoryRuns

  // ----- saving -----

  /** No earlier element has the same ID. IDs are compared as spelled. */
  ghost predicate IsFirst(list: seq<ValueObject>, i: nat) {
    i < |list| && forall j :: 0 <= j < i ==> list[j].objectId != list[i].objectId
  }

  /** `saveObjectStream`: keeps the first occurrence of each ID, in order, and nothing else;
      `at` gives the positions kept. */
  method SaveObjects(list: seq<ValueObject>) returns (saved: seq<ValueObject>, ghost at: seq<nat>)
    ensures |at| == |saved| && forall k :: 0 <= k < |saved| ==> at[k] < |list| && saved[k] == list[at[k]]
    ensures forall j, k :: 0 <= j < k < |at| ==> at[j] < at[k]
    ensures forall i: nat :: i in at <==> IsFirst(list, i)
  {
    saved, at := [], [];
    var seen: set<string> := {};
    for i := 0 to |list|
      invariant |at| == |saved| && forall k :: 0 <= k < |saved| ==> at[k] < i && saved[k] == list[at[k]]
      invariant forall j, k :: 0 <= j < k < |at| ==> at[j] < at[k]
      invariant forall j: nat :: j in at <==> j < i && IsFirst(list, j)
      invariant forall id :: id in seen <==> exists j :: 0 <= j < i && list[j].objectId == id
    {
      if list[i].objectId !in seen {
        saved, seen := saved + [list[i]], seen + {list[i].objectId};
        at := at + [i];
      }
    }
  }

  // ----- loading -----

  /** What storing the value objects on top of `ps` leaves stored. */
  ghost function StoredOn(ps: Properties, list: seq<ValueObject>): Properties {
    if list == [] then ps
    else StoredOn(ps, list[..|list| - 1])[Fold(list[|list| - 1].objectId) := list[|list| - 1]]
  }

  /** What storing them into an empty repository leaves stored. */
  ghost function StoredBy(list: seq<ValueObject>): Properties { StoredOn(map[], list) }

  /** No two IDs agree after folding. */
  ghost predicate DistinctIds(list: seq<ValueObject>) {
    forall i, j :: 0 <= i < j < |list| ==> Fold(list[i].objectId) != Fold(list[j].objectId)
  }

  lemma {:induction false} StoredOnHas(ps: Properties, list: seq<ValueObject>, id: string)
    ensures id in StoredOn(ps, list) <==> id in ps || exists i :: 0 <= i < |list| && Fold(list[i].objectId) == id
    ensures id in StoredOn(ps, list) && id !in ps ==>
      StoredOn(ps, list)[id] in list && Fold(StoredOn(ps, list)[id].objectId) == id
  {
    if list != [] {
      var init := list[..|list| - 1];
      StoredOnHas(ps, init, id);
      assert forall i :: 0 <= i < |init| ==> init[i] == list[i];
      if i :| 0 <= i < |init| && Fold(init[i].objectId) == id {
        assert Fold(list[i].objectId) == id;
      }
    }
  }

  /** The element can be created from the ones before it. */
  ghost predicate LoadableAt<V>(creators: map<string, Creator<V>>, list: seq<ValueObject>, i: nat)
    requires i < |list|
  {
    Sane(StoredBy(list[..i])) && RebuildFrom(creators, StoredBy(list[..i]), list[i]).Some?
  }

  lemma StoredByOneMore(list: seq<ValueObject>, i: nat)
    requires i < |list|
    ensures StoredBy(list[..i + 1]) == StoredBy(list[..i])[Fold(list[i].objectId) := list[i]]
    ensures DistinctIds(list) ==> Fold(list[i].objectId) !in StoredBy(list[..i])
  {
    assert list[..i + 1][..i] == list[..i];
    StoredOnHas(map[], list[..i], Fold(list[i].objectId));
  }

  /** The element is stored when the ones before it have been. */
  ghost predicate StoresAt<V>(creators: map<string, Creator<V>>, ps: Properties, list: seq<ValueObject>, i: nat, overwrite: bool)
    requires i < |list|
  {
    var before := StoredOn(ps, list[..i]);
    Sane(before) && RestoreOutcome(creators, before, list[i], overwrite) == Done
  }

  ghost predicate StoresUpTo<V>(creators: map<string, Creator<V>>, ps: Properties, list: seq<ValueObject>, n: nat, overwrite: bool)
    requires n <= |list|
  {
    forall i {:trigger StoresAt(creators, ps, list, i, overwrite)} ::
      0 <= i < n ==> StoresAt(creators, ps, list, i, overwrite)
  }

  lemma StoresOneMore<V>(creators: map<string, Creator<V>>, ps: Properties, list: seq<ValueObject>, n: nat, overwrite: bool)
    requires n < |list| && StoresUpTo(creators, ps, list, n, overwrite) && StoresAt(creators, ps, list, n, overwrite)
    ensures StoresUpTo(creators, ps, list, n + 1, overwrite)
  {
  }

  /** No element that is stored makes an object depend on itself. */
  ghost predicate ClosesNoCycle<V>(creators: map<string, Creator<V>>, ps: Properties, list: seq<ValueObject>, overwrite: bool) {
    forall i {:trigger StoresAt(creators, ps, list, i, overwrite)} ::
      0 <= i < |list| && StoresAt(creators, ps, list, i, overwrite) ==>
        AddsNoCycle(StoredOn(ps, list[..i]), Fold(list[i].objectId), list[i])
  }

  /** Nothing is dirty. */
  ghost predicate AllClean<V(!new)>(repo: Repository<V>)
    reads repo
  {
    repo.clean == repo.stored.Keys
  }

  method LoadOne<V(!new)>(repo: Repository<V>, vo: ValueObject, overwrite: bool)
    returns (done: bool, ghost added: set<ObjectWrapper<V>>)
    requires repo.Valid()
    requires RestoreOutcome(repo.creators, repo.stored, vo, overwrite) == Done ==>
               AddsNoCycle(repo.stored, Fold(vo.objectId), vo)
    modifies repo, repo.wrappers
    ensures repo.Valid() && repo.wrappers == old(repo.wrappers) + added && fresh(added)
    ensures done <==> RestoreOutcome(repo.creators, old(repo.stored), vo, overwrite) == Done
    ensures repo.stored == if done then old(repo.stored)[Fold(vo.objectId) := vo] else old(repo.stored)
    ensures old(AllClean(repo)) && Fold(vo.objectId) !in old(repo.stored) ==> AllClean(repo)
  {
    if Fold(vo.objectId) !in repo.objectMap {
      NoDependents(repo.stored, Fold(vo.objectId));
    }
    var r;
    r, added := repo.RestoreObject(vo, overwrite);
    done := r == Done;
    CleanIsStored(repo.target, repo.stored, repo.clean, repo.values);
  }

  /** The state of the loop: the first `n` elements have been stored on top of `ps`. */
  ghost predicate Progress<V(!new)>(
    repo: Repository<V>, ps: Properties, list: seq<ValueObject>, n: nat, overwrite: bool, clean: bool)
    reads repo, repo.wrappers
  {
    && n <= |list| && repo.Valid() && repo.stored == StoredOn(ps, list[..n])
    && StoresUpTo(repo.creators, ps, list, n, overwrite)
    && (clean && NewIds(ps, list) ==> AllClean(repo))
  }

  /** A turn of the loop. */
  method LoadNext<V(!new)>(
    repo: Repository<V>, ghost ps: Properties, list: seq<ValueObject>, i: nat, overwrite: bool, ghost clean: bool)
    returns (done: bool, ghost added: set<ObjectWrapper<V>>)
    requires Progress(repo, ps, list, i, overwrite, clean) && i < |list|
    requires ClosesNoCycle(repo.creators, ps, list, overwrite)
    modifies repo, repo.wrappers
    ensures repo.wrappers == old(repo.wrappers) + added && fresh(added)
    ensures done <==> StoresAt(repo.creators, ps, list, i, overwrite)
    ensures Progress(repo, ps, list, if done then i + 1 else i, overwrite, clean)
  {
    assert StoresAt(repo.creators, ps, list, i, overwrite) <==>
           RestoreOutcome(repo.creators, repo.stored, list[i], overwrite) == Done;
    NewIdIsNew(ps, list, i);
    assert list[..i + 1][..i] == list[..i];
    done, added := LoadOne(repo, list[i], overwrite);
    if done {
      StoresOneMore(repo.creators, ps, list, i, overwrite);
    }
  }

  /** `loadObjectStream`: elements are restored in order up to the first that cannot be created or
      stored, and what was restored stays. */
  method LoadObjects<V(!new)>(repo: Repository<V>, list: seq<ValueObject>, overwrite: bool)
    returns (loaded: nat, ok: bool, ghost added: set<ObjectWrapper<V>>)
    requires repo.Valid() && ClosesNoCycle(repo.creators, repo.stored, list, overwrite)
    modifies repo, repo.wrappers
    ensures repo.wrappers == old(repo.wrappers) + added && fresh(added)
    ensures Progress(repo, old(repo.stored), list, loaded, overwrite, old(AllClean(repo)))
    ensures loaded < |list| ==> !StoresAt(repo.creators, old(repo.stored), list, loaded, overwrite)
    ensures ok <==> list != [] && loaded == |list|
  {
    ghost var ps, clean := repo.stored, AllClean(repo);
    loaded, added := 0, {};
    var done := true;
    while done && loaded < |list|
      invariant repo.wrappers == old(repo.wrappers) + added && fresh(added)
      invariant Progress(repo, ps, list, loaded, overwrite, clean)
      invariant !done ==> loaded < |list| && !StoresAt(repo.creators, ps, list, loaded, overwrite)
    {
      ghost var more;
      done, more := LoadNext(repo, ps, list, loaded, overwrite, clean);
      added := added + more;
      if done {
        loaded := loaded + 1;
      }
    }
    ok := done && list != [];
  }

  /** The IDs are new to `ps`, and no two agree after folding. */
  ghost predicate NewIds(ps: Properties, list: seq<ValueObject>) {
    DistinctIds(list) && forall i :: 0 <= i < |list| ==> Fold(list[i].objectId) !in ps
  }

  lemma NewIdIsNew(ps: Properties, list: seq<ValueObject>, i: nat)
    requires i < |list|
    ensures NewIds(ps, list) ==> Fold(list[i].objectId) !in StoredOn(ps, list[..i])
  {
    StoredOnHas(ps, list[..i], Fold(list[i].objectId));
  }

  /** For a list of distinct IDs, starting from nothing, an element is stored exactly when it can
      be created, and no cycle is closed. */
  lemma StoresAsLoadable<V>(creators: map<string, Creator<V>>, list: seq<ValueObject>, overwrite: bool)
    requires DistinctIds(list)
    ensures ClosesNoCycle(creators, map[], list, overwrite)
    ensures forall i :: 0 <= i < |list| ==> (StoresAt(creators, map[], list, i, overwrite) <==> LoadableAt(creators, list, i))
  {
    forall i | 0 <= i < |list|
      ensures StoresAt(creators, map[], list, i, overwrite) <==> LoadableAt(creators, list, i)
      ensures LoadableAt(creators, list, i) ==> AddsNoCycle(StoredOn(map[], list[..i]), Fold(list[i].objectId), list[i])
    {
      StoredByOneMore(list, i);
      if LoadableAt(creators, list, i) {
        RebuildFromNeedsPrecedents(creators, StoredBy(list[..i]), list[i]);
        NewAddsNoCycle(StoredBy(list[..i]), Fold(list[i].objectId), list[i]);
      }
    }
  }

  /** Loading a list of distinct IDs into an empty repository: nothing ends up dirty. */
  method LoadFresh<V(!new)>(creators: map<string, Creator<V>>, list: seq<ValueObject>, overwrite: bool)
    returns (repo: Repository<V>, loaded: nat, ok: bool)
    requires DistinctIds(list)
    ensures fresh(repo) && repo.creators == creators && repo.Valid() && AllClean(repo)
    ensures forall x :: x in repo.stored ==> repo.Hit(x)
    ensures loaded <= |list| && repo.stored == StoredBy(list[..loaded])
    ensures forall i :: 0 <= i < loaded ==> LoadableAt(creators, list, i)
    ensures loaded < |list| ==> !LoadableAt(creators, list, loaded)
    ensures ok <==> list != [] && loaded == |list|
  {
    repo := new Repository<V>(creators);
    StoresAsLoadable(creators, list, overwrite);
    ghost var added;
    loaded, ok, added := LoadObjects(repo, list, overwrite);
    CleanHits(repo);
  }

  lemma CleanHits<V(!new)>(repo: Repository<V>)
    requires repo.Valid() && AllClean(repo)
    ensures forall x :: x in repo.stored ==> repo.Hit(x)
  {
    forall x | x in repo.stored ensures repo.Hit(x) {
      assert repo.MirroredAt(repo.objectMap[x]);
    }
  }

  // ----- the round trip -----

  /** Every precedent of an element is the ID of an earlier one. */
  ghost predicate Ordered(list: seq<ValueObject>) {
    forall i, p :: 0 <= i < |list| && p in list[i].precedents ==>
      exists j :: 0 <= j < i && Fold(list[j].objectId) == p
  }

  /** A part of a store that holds all precedents of its objects rebuilds them alike. */
  lemma {:induction false} RebuildSubstore<V>(
    creators: map<string, Creator<V>>, ps: Properties, qs: Properties, x: string)
    requires Acyclic(Precedents(ps)) && Sane(qs) && x in qs
    requires forall y :: y in qs ==> y in ps && ps[y] == qs[y]
    ensures Rebuild(creators, ps, x) == Rebuild(creators, qs, x)
    decreases Rank(Precedents(qs), x)
  {
    RebuildUnfolds(creators, ps, x);
    RebuildUnfolds(creators, qs, x);
    PrecedentsRankLower(qs, x);
    forall p | p in qs[x].precedents ensures Rebuild(creators, ps, p) == Rebuild(creators, qs, p) {
      assert p in Succ(Precedents(qs), x);
      RebuildSubstore(creators, ps, qs, p);
    }
    RebuildFromAgrees(creators, ps, qs, qs[x]);
  }

  /** With creators that never throw, loading succeeds exactly when every precedent of every
      element occurs earlier in the list. */
  lemma LoadableIffOrdered<V(!new)>(creators: map<string, Creator<V>>, list: seq<ValueObject>)
    requires DistinctIds(list) && forall i :: 0 <= i < |list| ==> NeverThrows(creators, list[i])
    ensures (forall i :: 0 <= i < |list| ==> LoadableAt(creators, list, i)) <==> Ordered(list)
  {
    if Ordered(list) {
      forall i | 0 <= i < |list| ensures LoadableAt(creators, list, i) {
        OrderedLoads(creators, list, i);
        OrderedLoadsOne(creators, list, i);
      }
    }
    if forall i :: 0 <= i < |list| ==> LoadableAt(creators, list, i) {
      forall i, p | 0 <= i < |list| && p in list[i].precedents
        ensures exists j :: 0 <= j < i && Fold(list[j].objectId) == p
      {
        assert LoadableAt(creators, list, i);
        RebuildFromNeedsPrecedents(creators, StoredBy(list[..i]), list[i]);
        StoredOnHas(map[], list[..i], p);
        var j :| 0 <= j < i && Fold(list[..i][j].objectId) == p;
        assert list[..i][j] == list[j];
      }
    }
  }

  ghost predicate NeverThrows<V(!new)>(creators: map<string, Creator<V>>, vo: ValueObject) {
    vo.className in creators && forall values :: creators[vo.className](vo, values).Some?
  }

  lemma {:induction false} OrderedLoads<V(!new)>(creators: map<string, Creator<V>>, list: seq<ValueObject>, n: nat)
    requires n <= |list| && DistinctIds(list) && Ordered(list)
    requires forall i :: 0 <= i < |list| ==> NeverThrows(creators, list[i])
    ensures Sane(StoredBy(list[..n])) && AllRebuild(creators, StoredBy(list[..n]))
  {
    if n > 0 {
      OrderedLoads(creators, list, n - 1);
      OrderedLoadsOne(creators, list, n - 1);
    }
  }

  lemma OrderedLoadsOne<V(!new)>(creators: map<string, Creator<V>>, list: seq<ValueObject>, i: nat)
    requires i < |list| && DistinctIds(list) && Ordered(list) && NeverThrows(creators, list[i])
    requires Sane(StoredBy(list[..i])) && AllRebuild(creators, StoredBy(list[..i]))
    ensures LoadableAt(creators, list, i)
    ensures Sane(StoredBy(list[..i + 1])) && AllRebuild(creators, StoredBy(list[..i + 1]))
  {
    OrderedPrecedentsStored(list, i);
    StoredByOneMore(list, i);
    NeverThrowsRebuilds(creators, StoredBy(list[..i]), list[i]);
    GrowsSane(creators, StoredBy(list[..i]), Fold(list[i].objectId), list[i]);
  }

  lemma OrderedPrecedentsStored(list: seq<ValueObject>, i: nat)
    requires i < |list| && Ordered(list)
    ensures list[i].precedents <= StoredBy(list[..i]).Keys
  {
    forall p | p in list[i].precedents ensures p in StoredBy(list[..i]) {
      var j :| 0 <= j < i && Fold(list[j].objectId) == p;
      assert list[..i][j] == list[j];
      StoredOnHas(map[], list[..i], p);
    }
  }

  lemma NeverThrowsRebuilds<V(!new)>(creators: map<string, Creator<V>>, ps: Properties, vo: ValueObject)
    requires Acyclic(Precedents(ps)) && NeverThrows(creators, vo)
    requires forall p :: p in vo.precedents ==> Rebuild(creators, ps, p).Some?
    ensures RebuildFrom(creators, ps, vo).Some?
  {
    var results := Rebuilt(creators, ps, vo.precedents);
    assert forall p :: p in results ==> results[p].Some?;
  }

  /** Every stored object can be rebuilt. */
  ghost predicate AllRebuild<V>(creators: map<string, Creator<V>>, ps: Properties)
    requires Acyclic(Precedents(ps))
  {
    forall x :: x in ps ==> Rebuild(creators, ps, x).Some?
  }

  /** Storing a new object keeps the store sane and everything in it rebuildable. */
  lemma GrowsSane<V>(creators: map<string, Creator<V>>, ps: Properties, key: string, vo: ValueObject)
    requires Sane(ps) && key !in ps && vo.precedents <= ps.Keys && RebuildFrom(creators, ps, vo).Some?
    requires AllRebuild(creators, ps)
    ensures Sane(ps[key := vo]) && AllRebuild(creators, ps[key := vo])
  {
    NewAddsNoCycle(ps, key, vo);
    StoreKeepsAcyclic(ps, key, vo);
    StoreKeepsClosed(ps, key, vo);
    StoreKeepsValues(creators, ps, key, vo);
    forall x | x in ps ensures !Reaches(Precedents(ps), x, key) {
      ReachesSplit(Precedents(ps), x, key);
      assert x !in DependentIds(ps, key);
    }
  }

  /** The list holds the stored objects, possibly some of them several times, and no others. */
  ghost predicate Holds(list: seq<ValueObject>, ps: Properties) {
    && (forall i :: 0 <= i < |list| ==> Fold(list[i].objectId) in ps && ps[Fold(list[i].objectId)] == list[i])
    && (forall x :: x in ps ==> ps[x] in list && Fold(ps[x].objectId) == x)
  }

  /** The list holds each stored object once. */
  ghost predicate Lists(list: seq<ValueObject>, ps: Properties) { DistinctIds(list) && Holds(list, ps) }

  /** Round trip: a consistent repository, saved in an order that puts precedents first, is loaded
      back completely if and only if all its objects can be rebuilt. */
  lemma SaveLoadRoundTrip<V>(creators: map<string, Creator<V>>, ps: Properties, list: seq<ValueObject>)
    requires Sane(ps) && Lists(list, ps) && Ordered(list)
    ensures StoredBy(list) == ps
    ensures (forall i :: 0 <= i < |list| ==> LoadableAt(creators, list, i)) <==> AllRebuild(creators, ps)
  {
    ListRestores(ps, list);
    forall i | 0 <= i < |list|
      ensures LoadableAt(creators, list, i) <==> Rebuild(creators, ps, Fold(list[i].objectId)).Some?
    {
      LoadsLikeStored(creators, ps, list, i);
    }
    if forall i :: 0 <= i < |list| ==> LoadableAt(creators, list, i) {
      forall x | x in ps ensures Rebuild(creators, ps, x).Some? {
        var j := IndexIn(list, ps, x);
        assert LoadableAt(creators, list, j);
      }
    }
  }

  lemma ListRestores(ps: Properties, list: seq<ValueObject>)
    requires Sane(ps) && Lists(list, ps) && Ordered(list)
    ensures StoredBy(list) == ps
  {
    PrefixIsSane(ps, list, |list|);
    assert list[..|list|] == list;
    forall x | x in ps ensures x in StoredBy(list) {
      StoredOnHas(map[], list, x);
      var i :| 0 <= i < |list| && list[i] == ps[x];
    }
  }

  ghost predicate Within(qs: Properties, ps: Properties) {
    forall y :: y in qs ==> y in ps && ps[y] == qs[y]
  }

  lemma PrefixClosed(ps: Properties, list: seq<ValueObject>, i: nat, y: string)
    requires Lists(list, ps) && Ordered(list) && i <= |list| && y in StoredBy(list[..i])
    ensures y in ps && ps[y] == StoredBy(list[..i])[y] && ps[y].precedents <= StoredBy(list[..i]).Keys
  {
    var part := list[..i];
    StoredOnHas(map[], part, y);
    var j :| 0 <= j < |part| && part[j] == StoredBy(part)[y];
    assert part[j] == list[j];
    forall p | p in list[j].precedents ensures p in StoredBy(part) {
      var k :| 0 <= k < j && Fold(list[k].objectId) == p;
      assert part[k] == list[k];
      StoredOnHas(map[], part, p);
    }
  }

  lemma PrefixIsSane(ps: Properties, list: seq<ValueObject>, i: nat)
    requires Sane(ps) && Lists(list, ps) && Ordered(list) && i <= |list|
    ensures Sane(StoredBy(list[..i])) && Within(StoredBy(list[..i]), ps)
  {
    var qs := StoredBy(list[..i]);
    forall y | y in qs ensures y in ps && ps[y] == qs[y] && Succ(Precedents(qs), y) <= qs.Keys {
      PrefixClosed(ps, list, i, y);
    }
    AcyclicSubgraph(Precedents(qs), Precedents(ps));
  }

  lemma LoadsLikeStored<V>(creators: map<string, Creator<V>>, ps: Properties, list: seq<ValueObject>, i: nat)
    requires Sane(ps) && Lists(list, ps) && Ordered(list) && i < |list|
    ensures LoadableAt(creators, list, i) <==> Rebuild(creators, ps, Fold(list[i].objectId)).Some?
  {
    var qs, vo := StoredBy(list[..i]), list[i];
    PrefixIsSane(ps, list, i);
    OrderedPrecedentsStored(list, i);
    RebuildUnfolds(creators, ps, Fold(vo.objectId));
    forall p | p in vo.precedents ensures Rebuild(creators, ps, p) == Rebuild(creators, qs, p) {
      RebuildSubstore(creators, ps, qs, p);
    }
    RebuildFromAgrees(creators, ps, qs, vo);
  }

  /** Every consistent repository can be saved in an order that puts precedents first. */
  lemma {:induction false} LoadOrderExists(ps: Properties) returns (list: seq<ValueObject>)
    requires Sane(ps) && forall x :: x in ps ==> Fold(ps[x].objectId) == x
    ensures Lists(list, ps) && Ordered(list)
    decreases |ps|
  {
    if ps == map[] {
      list := [];
    } else {
      var x := HighestRank(Precedents(ps), ps.Keys);
      forall y | y in ps ensures x !in ps[y].precedents {
        if x in ps[y].precedents { RankDecreases(Precedents(ps), y, x); }
      }
      DeleteKeepsSane(ps, x);
      var init := LoadOrderExists(ps - {x});
      AppendLast(ps, x, init);
      list := init + [ps[x]];
    }
  }

  lemma {:induction false} HighestRank(g: Graph<string>, s: set<string>) returns (x: string)
    requires Acyclic(g) && s != {}
    ensures x in s && forall y :: y in s ==> Rank(g, y) <= Rank(g, x)
  {
    var z :| z in s;
    x := z;
    if s != {z} {
      var w := HighestRank(g, s - {z});
      x := if Rank(g, w) > Rank(g, z) then w else z;
    }
  }

  lemma AppendLast(ps: Properties, x: string, init: seq<ValueObject>)
    requires Sane(ps) && x in ps && Fold(ps[x].objectId) == x && x !in ps[x].precedents
    requires Lists(init, ps - {x}) && Ordered(init)
    ensures Lists(init + [ps[x]], ps) && Ordered(init + [ps[x]])
  {
    AppendLists(ps, x, init);
    AppendOrdered(ps, x, init);
  }

  lemma AppendLists(ps: Properties, x: string, init: seq<ValueObject>)
    requires x in ps && Fold(ps[x].objectId) == x && Lists(init, ps - {x})
    ensures Lists(init + [ps[x]], ps)
  {
    var list := init + [ps[x]];
    forall y | y in ps ensures ps[y] in list && Fold(ps[y].objectId) == y {
      var j := if y == x then |init| else IndexIn(init, ps - {x}, y);
      assert list[j] == ps[y];
    }
  }

  lemma AppendOrdered(ps: Properties, x: string, init: seq<ValueObject>)
    requires Sane(ps) && x in ps && x !in ps[x].precedents
    requires Lists(init, ps - {x}) && Ordered(init)
    ensures Ordered(init + [ps[x]])
  {
    var list := init + [ps[x]];
    forall i, p | 0 <= i < |list| && p in list[i].precedents
      ensures exists j :: 0 <= j < i && Fold(list[j].objectId) == p
    {
      if i < |init| {
        var j :| 0 <= j < i && Fold(init[j].objectId) == p;
        assert list[j] == init[j];
      } else {
        assert p in Succ(Precedents(ps), x);
        var j := IndexIn(init, ps - {x}, p);
        assert list[j] == init[j];
      }
    }
  }

  ghost function IndexIn(list: seq<ValueObject>, ps: Properties, y: string): (j: nat)
    requires Lists(list, ps) && y in ps
    ensures j < |list| && list[j] == ps[y] && Fold(list[j].objectId) == y
  {
    assert ps[y] in list;
    var j: nat :| j < |list| && list[j] == ps[y];
    j
  }

  // ----- saving and loading -----

  /** `saved` is what saving keeps of `list`, at the positions `at`. */
  ghost predicate Keeps(list: seq<ValueObject>, saved: seq<ValueObject>, at: seq<nat>) {
    && |at| == |saved| && (forall k :: 0 <= k < |saved| ==> at[k] < |list| && saved[k] == list[at[k]])
    && (forall j, k :: 0 <= j < k < |at| ==> at[j] < at[k])
    && (forall i: nat :: i in at <==> IsFirst(list, i))
  }

  lemma {:induction false} FirstOccurrence(list: seq<ValueObject>, i: nat) returns (j: nat)
    requires i < |list|
    ensures j <= i && IsFirst(list, j) && list[j].objectId == list[i].objectId
  {
    if k: nat :| k < i && list[k].objectId == list[i].objectId {
      j := FirstOccurrence(list, k);
    } else {
      j := i;
    }
  }

  /** The position in the saved list of an element of the given one. */
  lemma KeptAs(list: seq<ValueObject>, saved: seq<ValueObject>, at: seq<nat>, ps: Properties, i: nat) returns (k: nat)
    requires Keeps(list, saved, at) && Holds(list, ps) && i < |list|
    ensures k < |saved| && at[k] <= i && saved[k] == list[i]
  {
    var j := FirstOccurrence(list, i);
    assert j in at;
    k :| 0 <= k < |at| && at[k] == j;
  }

  lemma SavedLists(list: seq<ValueObject>, saved: seq<ValueObject>, at: seq<nat>, ps: Properties)
    requires Keeps(list, saved, at) && Holds(list, ps)
    ensures Lists(saved, ps)
  {
    forall j, k | 0 <= j < k < |saved| ensures Fold(saved[j].objectId) != Fold(saved[k].objectId) {
      assert at[k] in at && IsFirst(list, at[k]);
    }
    forall x | x in ps ensures ps[x] in saved {
      var i: nat :| i < |list| && list[i] == ps[x];
      var k := KeptAs(list, saved, at, ps, i);
    }
  }

  lemma SavedOrdered(list: seq<ValueObject>, saved: seq<ValueObject>, at: seq<nat>, ps: Properties)
    requires Keeps(list, saved, at) && Holds(list, ps) && Ordered(list)
    ensures Ordered(saved)
  {
    forall k, p | 0 <= k < |saved| && p in saved[k].precedents
      ensures exists j :: 0 <= j < k && Fold(saved[j].objectId) == p
    {
      var i :| 0 <= i < at[k] && Fold(list[i].objectId) == p;
      var j := KeptAs(list, saved, at, ps, i);
      assert j < k;
    }
  }

  /** Loading stops short of an element that it leaves out. */
  lemma PartIsLess(ps: Properties, list: seq<ValueObject>, n: nat)
    requires Lists(list, ps) && n < |list|
    ensures StoredBy(list[..n]) != ps
  {
    StoredByOneMore(list, n);
  }

  /** Saving a repository's objects, each after its precedents, and loading them again gives a
      repository with the same objects, nothing of it dirty, if and only if all of them can be
      rebuilt. */
  method SaveAndLoad<V(!new)>(repo: Repository<V>, list: seq<ValueObject>, overwrite: bool)
    returns (copy: Repository<V>, ok: bool)
    requires repo.Valid() && Holds(list, repo.stored) && Ordered(list)
    ensures fresh(copy) && copy.Valid() && AllClean(copy) && forall x :: x in copy.stored ==> copy.Hit(x)
    ensures copy.stored == repo.stored <==> AllRebuild(repo.creators, repo.stored)
    ensures ok <==> list != [] && AllRebuild(repo.creators, repo.stored)
  {
    var saved, at := SaveObjects(list);
    SavedLists(list, saved, at, repo.stored);
    SavedOrdered(list, saved, at, repo.stored);
    SaveLoadRoundTrip(repo.creators, repo.stored, saved);
    var loaded;
    copy, loaded, ok := LoadFresh(repo.creators, saved, overwrite);
    if loaded < |saved| {
      PartIsLess(repo.stored, saved, loaded);
    } else {
      assert saved[..|saved|] == saved;
    }
    if list != [] { ghost var k := KeptAs(list, saved, at, repo.stored, 0); }
  }
}
