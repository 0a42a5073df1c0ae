/** Whole runs of the Excel layer. */
module RepositoryXLRuns {
  import opened Graphs
  import opened Ids
  import opened RangeIds
  import opened CallingRanges
  import opened Residency
  import opened RepositoryXL

  datatype Command =
    | Store(caller: Caller, named: bool, id: string, obj: XLObject, overwrite: bool)
    | Delete(id: string)
    | DeleteCell(key: string)
    | RestoreCell(key: string)
    | Collect(deletePermanent: bool)

  /** What a run is about: the objects with their ranges, and the ranges. */
  datatype View = View(objects: Catalogue, keyCount: nat, keys: set<string>, gone: set<string>)

  /** Only named cells are deleted. */
  ghost predicate Possible(v: View, c: Command) {
    match c
    case DeleteCell(key) => Issued(key, v.keyCount) && key != VBA
    case _ => true
  }

  function ObjectsAfter(objects: Catalogue, key: string, idRaw: string, permanent: bool, overwrite: bool): Catalogue {
    var x := TargetId(key, idRaw);
    if !ValidId(key, idRaw) || Blocked(objects, x, key, overwrite) then objects
    else objects[x := Info(key, permanent)]
  }

  /** What each command does, without wrappers, residents or observers. */
  function Next(v: View, c: Command): View {
    match c
    case Store(caller, named, id, obj, overwrite) =>
      var v' := if caller.FromNewCell? && v.keyCount < KEY_MAX then v.(keyCount := v.keyCount + 1) else v;
      if Unavailable(caller, named, v.keyCount, v.keys) then v'
      else
        var key := CallerKey(caller, v.keyCount);
        v'.(keys := v.keys + {key}, objects := ObjectsAfter(v.objects, key, id, obj.permanent, overwrite))
    case Delete(id) => v.(objects := v.objects - {Fold(GetStub(id))})
    case DeleteCell(key) => v.(gone := v.gone + {key})
    case RestoreCell(key) => v.(gone := v.gone - {key})
    case Collect(deletePermanent) =>
      var objects := Survivors(v.objects, v.gone, deletePermanent);
      v.(objects := objects, keys := RangesLeft(objects, v.keys, {}, v.gone))
  }

  function ViewOf(repo: Repository): View
    reads repo
  {
    View(Objects(repo.objectMap, repo.wrappers), repo.keyCount, repo.callingRanges.Keys, repo.gone)
  }

  /** The delete takes away an object that others observe. */
  predicate DeletesObserved(repo: Repository, c: Command)
    reads repo
  {
    c.Delete? && repo.ObservedId(c.id)
  }

  /** The wrapper that the command resets, notifying its observers. */
  function Resets(repo: Repository, c: Command): Option<Handle>
    reads repo
  {
    if !c.Store? || Unavailable(c.caller, c.named, repo.keyCount, repo.callingRanges.Keys) then None
    else
      var key := CallerKey(c.caller, repo.keyCount);
      var x := TargetId(key, c.id);
      if !ValidId(key, c.id) || x !in repo.objectMap then None
      else if Blocked(Objects(repo.objectMap, repo.wrappers), x, key, c.overwrite) then None
      else Some(repo.objectMap[x])
  }

  /** The notification does not end. */
  predicate Diverges(repo: Repository, c: Command)
    reads repo
  {
    var h := Resets(repo, c);
    h.Some? && !Completes(Observers(repo.wrappers), h.value, |Observers(repo.wrappers)| + 1)
  }

  /** It does not end exactly when a cycle of observers can be reached from the wrapper reset. */
  lemma DivergesExactly(repo: Repository, c: Command)
    ensures Diverges(repo, c) <==>
      Resets(repo, c).Some? && !NoReachableCycle(Observers(repo.wrappers), Resets(repo, c).value)
    ensures Diverges(repo, c) <==>
      Resets(repo, c).Some? && !Terminates(Observers(repo.wrappers), Resets(repo, c).value)
  {
    if Resets(repo, c).Some? {
      TerminatesWithin(Observers(repo.wrappers), Resets(repo, c).value);
      TerminatesIffNoReachableCycle(Observers(repo.wrappers), Resets(repo, c).value);
    }
  }

  /** The store would share its ID and its range with a wrapper that has outlived an object. */
  predicate Clashes(repo: Repository, c: Command)
    reads repo
  {
    && c.Store? && !Unavailable(c.caller, c.named, repo.keyCount, repo.callingRanges.Keys)
    && repo.Clashes(CallerKey(c.caller, repo.keyCount), c.id, c.overwrite)
  }

  /** The command leaves the indexes out of step, now or later, or does not end. */
  predicate Unsafe(repo: Repository, c: Command)
    reads repo
  {
    DeletesObserved(repo, c) || Diverges(repo, c) || Clashes(repo, c)
  }

  lemma DivergesAsEndless(repo: Repository, c: Command)
    requires c.Store? && !Unavailable(c.caller, c.named, repo.keyCount, repo.callingRanges.Keys)
    ensures Diverges(repo, c) <==> repo.Endless(CallerKey(c.caller, repo.keyCount), c.id, c.overwrite)
  {
    DivergesExactly(repo, c);
  }

  lemma StoreEnters(before: Catalogue, after: Catalogue,
                    key: string, id: string, permanent: bool, overwrite: bool, r: Outcome)
    requires StoreSpec(before, after, key, id, permanent, overwrite, r)
    ensures after == ObjectsAfter(before, key, id, permanent, overwrite)
  {
  }

  method PerformStore(repo: Repository, c: Command)
    requires repo.Valid() && c.Store? && !Unsafe(repo, c)
    modifies repo, repo.callingRanges.Values
    ensures repo.Valid() && ViewOf(repo) == Next(old(ViewOf(repo)), c)
    ensures fresh(repo.callingRanges.Values - old(repo.callingRanges.Values))
  {
    ghost var v := ViewOf(repo);
    if !Unavailable(c.caller, c.named, repo.keyCount, repo.callingRanges.Keys) {
      DivergesAsEndless(repo, c);
    }
    var r := repo.StoreObject(c.caller, c.named, c.id, c.obj, c.overwrite);
    if !r.NoRange? {
      StoreEnters(v.objects, Objects(repo.objectMap, repo.wrappers), CallerKey(c.caller, v.keyCount), c.id,
                  c.obj.permanent, c.overwrite, r);
    }
  }

  method PerformDelete(repo: Repository, c: Command)
    requires repo.Valid() && c.Delete? && !Unsafe(repo, c)
    modifies repo`objectMap, repo`wrappers, repo.callingRanges.Values`residents
    ensures repo.Valid() && ViewOf(repo) == Next(old(ViewOf(repo)), c)
  {
    var _ := repo.DeleteObject(c.id);
  }

  method Perform(repo: Repository, c: Command)
    requires repo.Valid() && Possible(ViewOf(repo), c) && !Unsafe(repo, c)
    modifies repo, repo.callingRanges.Values
    ensures repo.Valid() && ViewOf(repo) == Next(old(ViewOf(repo)), c)
    ensures fresh(repo.callingRanges.Values - old(repo.callingRanges.Values))
  {
    if c.Store? {
      PerformStore(repo, c);
    } else if c.Delete? {
      PerformDelete(repo, c);
    } else if c.DeleteCell? {
      repo.DeleteCell(c.key);
    } else if c.RestoreCell? {
      repo.RestoreCell(c.key);
    } else {
      repo.CollectGarbage(c.deletePermanent);
    }
  }

  /** The command, unless it is unsafe. */
  method TryPerform(repo: Repository, c: Command) returns (done: bool)
    requires repo.Valid() && Possible(ViewOf(repo), c)
    modifies repo, repo.callingRanges.Values
    ensures repo.Valid() && ViewOf(repo) == if done then Next(old(ViewOf(repo)), c) else old(ViewOf(repo))
    ensures !done ==> Unsafe(repo, c)
    ensures fresh(repo.callingRanges.Values - old(repo.callingRanges.Values))
  {
    done := !Unsafe(repo, c);
    if done {
      Perform(repo, c);
    }
  }

  function Replay(v: View, commands: seq<Command>): View {
    if commands == [] then v else Next(Replay(v, commands[..|commands| - 1]), commands[|commands| - 1])
  }

  ghost predicate AllPossible(v: View, commands: seq<Command>) {
    forall i :: 0 <= i < |commands| ==> Possible(Replay(v, commands[..i]), commands[i])
  }

  const EMPTY: View := View(map[], 0, {}, {})

  /** Every run from an empty repository keeps the indexes in step and the objects those of the
      plain account, up to the first command, if any, that deletes an observed object, notifies
      without end, or shares its ID and its range with a wrapper that has outlived an object. */
  method Run(commands: seq<Command>) returns (repo: Repository, done: nat)
    requires AllPossible(EMPTY, commands)
    ensures done <= |commands| && repo.Valid() && ViewOf(repo) == Replay(EMPTY, commands[..done])
    ensures done < |commands| ==> Unsafe(repo, commands[done])
  {
    repo := new Repository();
    done := 0;
    EmptyView(repo);
    while done < |commands|
      invariant done <= |commands| && fresh(repo) && fresh(repo.callingRanges.Values)
      invariant repo.Valid() && ViewOf(repo) == Replay(EMPTY, commands[..done])
    {
      ReplayStep(EMPTY, commands, done);
      var more := TryPerform(repo, commands[done]);
      if !more {
        return;
      }
      done := done + 1;
    }
  }

  lemma EmptyView(repo: Repository)
    requires repo.objectMap == map[] && repo.keyCount == 0 && repo.callingRanges == map[] && repo.gone == {}
    ensures ViewOf(repo) == EMPTY
  {
  }

  lemma ReplayStep(v: View, commands: seq<Command>, i: nat)
    requires i < |commands|
    ensures Replay(v, commands[..i + 1]) == Next(Replay(v, commands[..i]), commands[i])
  {
    assert commands[..i + 1][..i] == commands[..i];
  }

  /** Objects change their range only by a store that may overwrite, from the range they move to, and a
      store is about one object. */
  lemma OnlyOverwriteMoves(v: View, c: Command, x: string)
    requires x in v.objects && x in Next(v, c).objects && Next(v, c).objects[x] != v.objects[x]
    ensures c.Store? && !Unavailable(c.caller, c.named, v.keyCount, v.keys)
    ensures x == TargetId(CallerKey(c.caller, v.keyCount), c.id)
    ensures Next(v, c).objects[x] == Info(CallerKey(c.caller, v.keyCount), c.obj.permanent)
    ensures Next(v, c).objects[x].key != v.objects[x].key ==> c.overwrite
  {
  }

  // ----- anonymous objects -----

  /** The ranges are VBA or cells that have been named. */
  ghost predicate Named(v: View) {
    v.keyCount <= KEY_MAX && forall k :: k in v.keys ==> k == VBA || Issued(k, v.keyCount)
  }

  /** An object that a cell stores without an ID is in that cell. */
  ghost predicate AtHome(objects: Catalogue) {
    forall n: nat {:trigger Key(n)} :: n < KEY_MAX && TargetId(Key(n), "") in objects ==>
      objects[TargetId(Key(n), "")].key == Key(n)
  }

  /** What a store with an ID, or one from another cell, is about is not the anonymous object of the
      cell `n`. */
  lemma OthersTarget(key: string, id: string, n: nat, keyCount: nat)
    requires n < KEY_MAX && keyCount <= KEY_MAX && (key == VBA || Issued(key, keyCount)) && ValidId(key, id)
    ensures TargetId(key, id) == TargetId(Key(n), "") <==> id == "" && key == Key(n)
    ensures ValidId(Key(n), "")
  {
    KeysDistinct(n, n);
    if id != "" {
      AnonymousIdsApart(n, n, id);
    } else {
      var m: nat :| m < keyCount && key == Key(m);
      AcceptedA();
      AnonymousIdsApart(m, n, "A");
    }
  }

  lemma AcceptedA()
    ensures Accepted("A")
  {
  }

  lemma CallerNamed(v: View, caller: Caller, named: bool)
    requires Named(v) && !Unavailable(caller, named, v.keyCount, v.keys)
    ensures var key := CallerKey(caller, v.keyCount);
      var keyCount := v.keyCount + if caller.FromNewCell? then 1 else 0;
      keyCount <= KEY_MAX && (key == VBA || Issued(key, keyCount))
  {
    if caller.FromNewCell? {
      NextKeyIsNew(v.keyCount);
    }
  }

  lemma NextNamed(v: View, c: Command)
    requires Named(v)
    ensures Named(Next(v, c))
  {
    if c.Store? && c.caller.FromNewCell? && v.keyCount < KEY_MAX {
      NextKeyIsNew(v.keyCount);
    }
    if c.Store? && !Unavailable(c.caller, c.named, v.keyCount, v.keys) {
      CallerNamed(v, c.caller, c.named);
    }
  }

  lemma NextAtHome(v: View, c: Command)
    requires Named(v) && AtHome(v.objects)
    ensures AtHome(Next(v, c).objects)
  {
    if c.Store? && !Unavailable(c.caller, c.named, v.keyCount, v.keys) {
      var key := CallerKey(c.caller, v.keyCount);
      CallerNamed(v, c.caller, c.named);
      if ValidId(key, c.id) {
        forall n: nat | n < KEY_MAX && TargetId(Key(n), "") in Next(v, c).objects
          ensures Next(v, c).objects[TargetId(Key(n), "")].key == Key(n)
        {
          OthersTarget(key, c.id, n, v.keyCount + if c.caller.FromNewCell? then 1 else 0);
        }
      }
    }
  }

  lemma {:induction false} ReplayAtHome(commands: seq<Command>)
    ensures Named(Replay(EMPTY, commands)) && AtHome(Replay(EMPTY, commands).objects)
  {
    if commands != [] {
      var init := commands[..|commands| - 1];
      ReplayAtHome(init);
      NextNamed(Replay(EMPTY, init), commands[|commands| - 1]);
      NextAtHome(Replay(EMPTY, init), commands[|commands| - 1]);
    }
  }

  /** In every run, a store without an ID from a cell that has a range is entered in that cell, whether
      or not it may overwrite, and leaves every other object as it is. */
  lemma AnonymousIsEntered(commands: seq<Command>, n: nat, named: bool, obj: XLObject, overwrite: bool)
    requires n < KEY_MAX && Key(n) in Replay(EMPTY, commands).keys
    ensures var v := Replay(EMPTY, commands);
      var x := TargetId(Key(n), "");
      Next(v, Store(FromCell(Key(n)), named, "", obj, overwrite)).objects == v.objects[x := Info(Key(n), obj.permanent)]
    ensures forall m: nat {:trigger Key(m)} :: m < KEY_MAX && m != n ==> TargetId(Key(m), "") != TargetId(Key(n), "")
  {
    ReplayAtHome(commands);
    KeysDistinct(n, n);
    AcceptedA();
    forall m: nat | m < KEY_MAX && m != n ensures TargetId(Key(m), "") != TargetId(Key(n), "") {
      KeysDistinct(m, m);
      AnonymousIdsApart(m, n, "A");
    }
    AnonymousIdsApart(n, n, "A");
  }

  /** A new cell stores an object without an ID, before any cell is deleted. */
  method StoreAnonymous(repo: Repository, obj: XLObject, overwrite: bool)
    requires repo.Valid() && repo.lost == {} && repo.keyCount < KEY_MAX
    requires TargetId(Key(repo.keyCount), "") !in repo.objectMap
    modifies repo, repo.callingRanges.Values
    ensures repo.Valid() && repo.lost == {} && repo.keyCount == old(repo.keyCount) + 1
    ensures fresh(repo.callingRanges.Values - old(repo.callingRanges.Values))
    ensures Objects(repo.objectMap, repo.wrappers) ==
      old(Objects(repo.objectMap, repo.wrappers))[TargetId(Key(old(repo.keyCount)), "") :=
        Info(Key(old(repo.keyCount)), obj.permanent)]
    ensures repo.objectMap.Keys == old(repo.objectMap.Keys) + {TargetId(Key(old(repo.keyCount)), "")}
  {
    KeysDistinct(repo.keyCount, repo.keyCount);
    repo.ClashesOnlyIfLost(Key(repo.keyCount), "", overwrite);
    var r := repo.StoreObject(FromNewCell, true, "", obj, overwrite);
  }

  /** Two new cells store objects without an ID: there are two objects then, each in its cell. */
  method TwoAnonymous(first: XLObject, second: XLObject, overwrite: bool) returns (repo: Repository)
    ensures repo.Valid() && Objects(repo.objectMap, repo.wrappers) ==
      map["OBJ_00000" := Info("_00000", first.permanent), "OBJ_00001" := Info("_00001", second.permanent)]
  {
    repo := new Repository();
    AnonymousTargets();
    assert Objects(map[], map[]) == map[];
    StoreAnonymous(repo, first, overwrite);
    StoreAnonymous(repo, second, overwrite);
  }

  lemma AnonymousTargets()
    ensures Key(0) == "_00000" && Key(1) == "_00001" && ValidId(Key(0), "") && ValidId(Key(1), "")
    ensures TargetId(Key(0), "") == "OBJ_00000" && TargetId(Key(1), "") == "OBJ_00001" && "OBJ_00000" != "OBJ_00001"
  {
    FirstCells();
    assert ANONYMOUS + "_00001" == "obj_00001";
    assert Fold("obj_00000") == "OBJ_00000" && Fold("obj_00001") == "OBJ_00001";
    assert "OBJ_00000"[8] != "OBJ_00001"[8];
  }

  // ----- runs that violate a proviso -----

  function VbaStore(id: string, precedents: seq<string>): Command {
    Store(FromVba, true, id, XLObject(false, precedents), true)
  }

  /** With all precedents known the registration gets to the end. */
  lemma AllRegistered(om: ObjectMap, om': ObjectMap, precedents: seq<string>, observables: set<Handle>, done: nat)
    requires AllKnown(om, precedents) && forall x :: x in om ==> x in om' && om'[x] == om[x]
    requires RegisteredTo(om', precedents, observables, done)
    ensures done == |precedents| && observables == PrecedentHandles(om, precedents)
  {
    assert done < |precedents| ==> Known(om, precedents[done]);
    assert precedents[..|precedents|] == precedents;
  }

  lemma AcceptedTarget(key: string, id: string)
    requires Accepted(id)
    ensures ValidId(key, id) && TargetId(key, id) == Fold(id)
  {
  }

  /** A store of an object whose precedents are there, before any cell is deleted. */
  method StoreKnown(repo: Repository, caller: Caller, id: string, obj: XLObject) returns (h: Handle)
    requires repo.Valid() && Accepted(id) && AllKnown(repo.objectMap, obj.precedents) && repo.lost == {}
    requires !Unavailable(caller, true, repo.keyCount, repo.callingRanges.Keys) && !repo.EndlessFor(Fold(id))
    modifies repo, repo.callingRanges.Values
    ensures repo.Valid() && repo.objectMap == old(repo.objectMap)[Fold(id) := h] && h in repo.wrappers
    ensures repo.lost == {} && repo.gone == old(repo.gone)
    ensures Fold(id) in old(repo.objectMap) ==> h == old(repo.objectMap)[Fold(id)]
    ensures repo.wrappers[h].key == CallerKey(caller, old(repo.keyCount)) && repo.wrappers[h].permanent == obj.permanent
    ensures repo.wrappers[h].observables == PrecedentHandles(old(repo.objectMap), obj.precedents)
    ensures OthersKept(old(repo.wrappers), repo.wrappers, h)
    ensures repo.callingRanges.Keys == old(repo.callingRanges.Keys) + {CallerKey(caller, old(repo.keyCount))}
    ensures repo.keyCount == old(repo.keyCount) + if caller.FromNewCell? then 1 else 0
    ensures fresh(repo.callingRanges.Values - old(repo.callingRanges.Values))
  {
    ghost var key := CallerKey(caller, repo.keyCount);
    AcceptedTarget(key, id);
    repo.ClashesOnlyIfLost(key, id, true);
    var r := repo.StoreObject(caller, true, id, obj, true);
    h := repo.objectMap[Fold(id)];
    assert Objects(repo.objectMap, repo.wrappers)[Fold(id)] == Info(key, obj.permanent);
    AllRegistered(old(repo.objectMap), repo.objectMap, obj.precedents, repo.wrappers[h].observables,
                  if r.UnknownPrecedent? then r.at else |obj.precedents|);
  }

  lemma ShortIds(id: string)
    requires id == "A" || id == "B" || id == "P"
    ensures Accepted(id) && Fold(id) == id && GetStub(id) == id && TargetId(VBA, id) == id && ValidId(VBA, id)
  {
  }

  lemma OnePrecedent(om: ObjectMap, id: string)
    requires id == "A" || id == "B"
    requires id in om
    ensures AllKnown(om, [id]) && PrecedentHandles(om, [id]) == {om[id]}
  {
    ShortIds(id);
  }

  /** A wrapper whose only observer nobody observes. */
  lemma ChainTerminates(ws: Wrappers, a: Handle, b: Handle)
    requires a != b && ws.Keys == {a, b} && ws[a].observables == {} && ws[b].observables == {a}
    ensures Terminates(Observers(ws), a)
  {
    var g := Observers(ws);
    assert Succ(g, a) == {b} && Succ(g, b) == {};
    assert Completes(g, b, 1);
    assert Completes(g, a, 2);
  }

  /** Two wrappers that observe each other. */
  lemma CircleDiverges(ws: Wrappers, a: Handle, b: Handle)
    requires a in ws && b in ws && b in ws[a].observables && a in ws[b].observables
    ensures !Terminates(Observers(ws), a)
  {
    var g := Observers(ws);
    assert b in Succ(g, a) && a in Succ(g, b);
    assert Steps(g, a, a, 0) && Steps(g, b, a, 1) && Steps(g, a, a, 2);
    assert Reaches(g, a, a) && ReachesProperly(g, a, a);
    TerminatesIffNoReachableCycle(g, a);
  }

  lemma MappedApart(repo: Repository)
    requires repo.Valid() && "A" in repo.objectMap && "B" in repo.objectMap
    ensures repo.objectMap["A"] in repo.wrappers && repo.objectMap["B"] in repo.wrappers
    ensures repo.objectMap["A"] != repo.objectMap["B"]
  {
    assert HomedAt(repo.objectMap, repo.wrappers, repo.callingRanges.Keys, "A");
    assert HomedAt(repo.objectMap, repo.wrappers, repo.callingRanges.Keys, "B");
  }

  method StoreFirst(caller: Caller) returns (repo: Repository, a: Handle)
    requires caller.FromVba? || caller.FromNewCell?
    ensures fresh(repo) && fresh(repo.callingRanges.Values) && repo.Valid() && repo.lost == {}
    ensures repo.objectMap == map["A" := a] && repo.wrappers.Keys == {a}
    ensures repo.wrappers[a].observables == {} && repo.wrappers[a].key == CallerKey(caller, 0)
  {
    repo := new Repository();
    ShortIds("A");
    a := StoreKnown(repo, caller, "A", XLObject(false, []));
  }

  /** "B", stored from VBA, observes "A". */
  method ChainOfTwo(caller: Caller) returns (repo: Repository, a: Handle, b: Handle)
    requires caller.FromVba? || caller.FromNewCell?
    ensures fresh(repo) && fresh(repo.callingRanges.Values) && repo.Valid() && repo.lost == {}
    ensures repo.objectMap == map["A" := a, "B" := b] && a != b && repo.wrappers.Keys == {a, b}
    ensures repo.wrappers[a].observables == {} && repo.wrappers[b].observables == {a}
    ensures repo.wrappers[a].key == CallerKey(caller, 0)
  {
    repo, a := StoreFirst(caller);
    ghost var first := repo.wrappers;
    ShortIds("B");
    OnePrecedent(repo.objectMap, "A");
    b := StoreKnown(repo, FromVba, "B", XLObject(false, ["A"]));
    MappedApart(repo);
    assert repo.wrappers[a] == first[a];
  }

  /** A cell constructs "A", VBA makes "B" of it, and "A" is deleted: the cell keeps an entry for it. */
  method DeleteLeavesEntry() returns (repo: Repository)
    ensures !repo.Valid() && Key(0) != VBA && repo.StaleEntry(Key(0), "A")
  {
    var a, b;
    repo, a, b := ChainOfTwo(FromNewCell);
    ShortIds("A");
    KeysDistinct(0, 0);
    var _ := repo.DeleteObject("A");
  }

  predicate Placed(om: ObjectMap, ws: Wrappers, x: string, k: string, permanent: bool) {
    x in om && om[x] in ws && ws[om[x]].key == k && ws[om[x]].permanent == permanent
  }

  /** What a collection makes of a transient object in a deleted cell, of another that observes it
      from elsewhere, and of a permanent one in the same cell. */
  lemma LeavesTwin(om: ObjectMap, ws: Wrappers, om': ObjectMap, ws': Wrappers, keys: set<string>, keys': set<string>,
                   gone: set<string>, k: string, x: string, y: string, p: string)
    requires Homed(om, ws, keys) && Homed(om', ws', keys') && Shrinks(om, ws, om', ws') && ObservablesExist(ws')
    requires Objects(om', ws') == Survivors(Objects(om, ws), gone, false)
    requires keys' == RangesLeft(Objects(om', ws'), keys, {}, gone)
    requires k in gone && Placed(om, ws, x, k, false) && Placed(om, ws, p, k, true)
    requires y in om && om[y] in ws && ws[om[y]].key !in gone && om[x] in ws[om[y]].observables
    ensures k in keys' && Twin(om', ws', x, k)
  {
    assert HomedAt(om, ws, keys, x) && HomedAt(om, ws, keys, p);
    assert x in Objects(om, ws) && x !in Objects(om', ws') && y in Objects(om', ws') && p in IdsAt(Objects(om', ws'), k);
    assert om'.Keys == Objects(om', ws').Keys by {
      assert forall z :: z in om' ==> HomedAt(om', ws', keys', z);
    }
    assert ws'[om'[y]] == ws[om[y]] && ws'[om[x]] == ws[om[x]];
  }

  /** Such a cell is collected and comes back: every store from it under the ID of the object that has
      gone clashes with the wrapper that the observer has kept alive. */
  method CollectAndRestore(repo: Repository, k: string, x: string, y: string, p: string)
    requires repo.Valid() && k in repo.gone
    requires Placed(repo.objectMap, repo.wrappers, x, k, false) && Placed(repo.objectMap, repo.wrappers, p, k, true)
    requires y in repo.objectMap && repo.objectMap[y] in repo.wrappers
    requires repo.wrappers[repo.objectMap[y]].key !in repo.gone
    requires repo.objectMap[x] in repo.wrappers[repo.objectMap[y]].observables
    modifies repo, repo.callingRanges.Values
    ensures repo.Valid() && k in repo.callingRanges && k !in repo.gone
    ensures forall named, id, obj {:trigger Store(FromCell(k), named, id, obj, true)} ::
      ValidId(k, id) && TargetId(k, id) == x ==> Clashes(repo, Store(FromCell(k), named, id, obj, true))
  {
    repo.CollectGarbage(false);
    LeavesTwin(old(repo.objectMap), old(repo.wrappers), repo.objectMap, repo.wrappers, old(repo.callingRanges.Keys),
               repo.callingRanges.Keys, repo.gone, k, x, y, p);
    repo.RestoreCell(k);
  }

  /** A store of another object leaves an object where it is. */
  lemma StillPlaced(repo: Repository, om: ObjectMap, ws: Wrappers, z: string, h: Handle,
                    x: string, k: string, permanent: bool)
    requires repo.Valid() && Placed(om, ws, x, k, permanent) && x != z
    requires repo.objectMap == om[z := h] && OthersKept(ws, repo.wrappers, h)
    ensures Placed(repo.objectMap, repo.wrappers, x, k, permanent) && repo.wrappers[om[x]] == ws[om[x]]
  {
    assert HomedAt(repo.objectMap, repo.wrappers, repo.callingRanges.Keys, x);
    assert HomedAt(repo.objectMap, repo.wrappers, repo.callingRanges.Keys, z);
  }

  /** A new cell constructs "A" and a permanent object "P". */
  method CellOfTwo() returns (repo: Repository)
    ensures fresh(repo) && fresh(repo.callingRanges.Values) && repo.Valid() && repo.lost == {}
    ensures repo.objectMap.Keys == {"A", "P"} && repo.keyCount == 1
    ensures Placed(repo.objectMap, repo.wrappers, "A", Key(0), false)
    ensures Placed(repo.objectMap, repo.wrappers, "P", Key(0), true)
  {
    repo := new Repository();
    ShortIds("A");
    ShortIds("P");
    var a := StoreKnown(repo, FromNewCell, "A", XLObject(false, []));
    ghost var om, ws := repo.objectMap, repo.wrappers;
    var p := StoreKnown(repo, FromCell(Key(0)), "P", XLObject(true, []));
    StillPlaced(repo, om, ws, "P", p, "A", Key(0), false);
  }

  /** VBA makes "B" of "A", and the cell of "A" is deleted. */
  method CellDeleted() returns (repo: Repository)
    ensures fresh(repo) && fresh(repo.callingRanges.Values) && repo.Valid() && repo.gone == {Key(0)}
    ensures Placed(repo.objectMap, repo.wrappers, "A", Key(0), false)
    ensures Placed(repo.objectMap, repo.wrappers, "P", Key(0), true)
    ensures Placed(repo.objectMap, repo.wrappers, "B", VBA, false)
    ensures repo.objectMap["A"] in repo.wrappers[repo.objectMap["B"]].observables
  {
    repo := CellOfTwo();
    ghost var om, ws := repo.objectMap, repo.wrappers;
    ShortIds("B");
    OnePrecedent(repo.objectMap, "A");
    var b := StoreKnown(repo, FromVba, "B", XLObject(false, ["A"]));
    StillPlaced(repo, om, ws, "B", b, "A", Key(0), false);
    StillPlaced(repo, om, ws, "B", b, "P", Key(0), true);
    NextKeyIsNew(0);
    repo.DeleteCell(Key(0));
  }

  /** The cell is collected and comes back, and constructs "A" again. */
  method RestoredCellClashes() returns (repo: Repository)
    ensures repo.Valid() && Clashes(repo, Store(FromCell(Key(0)), true, "A", XLObject(false, []), true))
  {
    repo := CellDeleted();
    ShortIds("A");
    NextKeyIsNew(0);
    AcceptedTarget(Key(0), "A");
    CollectAndRestore(repo, Key(0), "A", "B", "P");
  }

  /** Four stores from VBA: the third closes a cycle of observers, and the fourth, the same again,
      notifies without end. */
  method FourStores() returns (repo: Repository)
    ensures repo.Valid() && Diverges(repo, VbaStore("A", ["B"]))
  {
    var a, b;
    repo, a, b := ChainOfTwo(FromVba);
    ghost var chain := repo.wrappers;
    ShortIds("A");
    OnePrecedent(repo.objectMap, "B");
    ChainTerminates(repo.wrappers, a, b);
    var _ := StoreKnown(repo, FromVba, "A", XLObject(false, ["B"]));
    MappedApart(repo);
    assert repo.wrappers[b] == chain[b];
    CircleDiverges(repo.wrappers, a, b);
    DivergesHere(repo);
  }

  lemma DivergesHere(repo: Repository)
    requires "A" in repo.objectMap && !Terminates(Observers(repo.wrappers), repo.objectMap["A"])
    ensures Diverges(repo, VbaStore("A", ["B"]))
  {
    ShortIds("A");
    DivergesExactly(repo, VbaStore("A", ["B"]));
  }

  /** Nothing forbids these four stores. */
  lemma FourStoresPossible()
    ensures AllPossible(EMPTY, [VbaStore("A", []), VbaStore("B", ["A"]), VbaStore("A", ["B"]), VbaStore("A", ["B"])])
  {
  }
}
