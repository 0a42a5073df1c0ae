/** The Excel layer: every object resides in the cell that constructed it, and objects whose cell
    has gone are collected. */
module RepositoryXL {
  import opened Graphs
  import opened Ids
  import opened RangeIds
  import opened CallingRanges
  import opened Residency

  class Repository {
    var objectMap: ObjectMap
    var wrappers: Wrappers
    var callingRanges: map<string, CallingRange>
    /** The number of keys issued. */
    var keyCount: nat
    /** The keys of the cells that have been deleted from the worksheet. */
    var gone: set<string>
    /** Those that have been deleted at some time, including cells that have come back. */
    ghost var lost: set<string>
    /** All handles in use are below it. */
    var nextHandle: Handle
    /** The wrappers whose object has to be recreated. */
    var dirty: set<Handle>

    // ----- the invariant -----

    ghost predicate Keyed()
      reads this`callingRanges
    {
      forall k :: k in callingRanges ==> callingRanges[k].key == k
    }

    /** The residents of each calling range are the objects located there. */
    ghost predicate Residency(clearing: set<string>)
      reads this`objectMap, this`wrappers, this`callingRanges, callingRanges.Values`residents
    {
      forall k {:trigger FitsAt(k, clearing)} :: k in callingRanges ==> FitsAt(k, clearing)
    }

    ghost predicate FitsAt(k: string, clearing: set<string>)
      requires k in callingRanges
      reads this`objectMap, this`wrappers, this`callingRanges, callingRanges.Values`residents
    {
      Fits(callingRanges[k].residents, Located(objectMap, wrappers, k), k in clearing)
    }

    ghost predicate Coherent(clearing: set<string>, loose: set<Handle>)
      reads this`objectMap, this`wrappers, this`callingRanges, callingRanges.Values`residents
    {
      Keyed() && Residency(clearing) && Sound(objectMap, wrappers, callingRanges.Keys, loose)
    }

    // ----- lifetime of wrappers -----

    /** Removes the resident from a range if the range is still in use. */
    method Unregister(k: string, id: string, ghost clearing: set<string>)
      requires Keyed() && Residency(clearing) && !At(objectMap, wrappers, Fold(id), k)
      modifies callingRanges.Values`residents
      ensures Residency(clearing)
    {
      if k in callingRanges {
        var range := callingRanges[k];
        assert FitsAt(k, clearing);
        FitsWithout(range.residents, Located(objectMap, wrappers, k), k in clearing, Fold(id));
        range.UnregisterObject(id);
        forall j | j in callingRanges ensures FitsAt(j, clearing) {
          assert j != k ==> old(FitsAt(j, clearing));
        }
      }
    }

    /** The destructor of a wrapper that the map has let go and nobody observes. */
    method Destroy(h: Handle, ghost clearing: set<string>, ghost loose: set<Handle>)
      requires Coherent(clearing, loose + {h})
      requires h in wrappers && !Mapped(objectMap, wrappers, h) && !Held(wrappers, h)
      modifies this`wrappers, callingRanges.Values`residents
      ensures Coherent(clearing, loose)
      ensures Submap(wrappers, old(wrappers)) && Objects(objectMap, wrappers) == old(Objects(objectMap, wrappers))
      decreases wrappers.Keys, 0
    {
      var w := wrappers[h];
      assert Mapped(objectMap, wrappers, h) || Apart(objectMap, wrappers, h);
      Unregister(w.key, w.id, clearing);
      forall x | x in objectMap ensures objectMap[x] != h {
        assert HomedAt(objectMap, wrappers, callingRanges.Keys, x);
      }
      Drop(h, clearing, loose);
      ReleaseAll(w.observables, clearing, loose);
    }

    ghost predicate Unreferenced(h: Handle)
      reads this`objectMap
    {
      forall x :: x in objectMap ==> objectMap[x] != h
    }

    method Drop(h: Handle, ghost clearing: set<string>, ghost loose: set<Handle>)
      requires Keyed() && Residency(clearing) && SoundBut(objectMap, wrappers, callingRanges.Keys, loose, h)
      requires h in wrappers && Unreferenced(h) && !Held(wrappers, h)
      modifies this`wrappers
      ensures Coherent(clearing, loose + old(wrappers)[h].observables)
      ensures wrappers == Without(old(wrappers), h)
      ensures Objects(objectMap, wrappers) == old(Objects(objectMap, wrappers))
    {
      DropKeepsSound(objectMap, wrappers, callingRanges.Keys, loose, h);
      forall k | k in callingRanges ensures Located(objectMap, Without(wrappers, h), k) == Located(objectMap, wrappers, k) {
        WithoutUnmapped(objectMap, wrappers, h, k);
      }
      WithoutUnmapped(objectMap, wrappers, h, "");
      wrappers := Without(wrappers, h);
      forall k | k in callingRanges ensures FitsAt(k, clearing) {
        assert old(FitsAt(k, clearing));
      }
    }

    /** Lets go of observables; those that lose their last owner are destroyed. */
    method ReleaseAll(observables: set<Handle>, ghost clearing: set<string>, ghost loose: set<Handle>)
      requires Coherent(clearing, loose + observables)
      modifies this`wrappers, callingRanges.Values`residents
      ensures Coherent(clearing, loose)
      ensures Submap(wrappers, old(wrappers)) && Objects(objectMap, wrappers) == old(Objects(objectMap, wrappers))
      decreases wrappers.Keys, 1
    {
      var todo := observables;
      while todo != {}
        invariant Coherent(clearing, loose + todo)
        invariant Submap(wrappers, old(wrappers))
        invariant Objects(objectMap, wrappers) == old(Objects(objectMap, wrappers))
        decreases |todo|
      {
        var o :| o in todo;
        todo := todo - {o};
        if o in wrappers && !Mapped(objectMap, wrappers, o) && !Held(wrappers, o) {
          Destroy(o, clearing, loose + todo);
        }
      }
    }

    // ----- calling ranges -----

    ghost predicate RangesValid()
      reads this`callingRanges, this`keyCount, callingRanges.Values`updateCount, callingRanges.Values`issued
    {
      forall k {:trigger RangeValid(k)} :: k in callingRanges ==> RangeValid(k)
    }

    ghost predicate RangeValid(k: string)
      requires k in callingRanges
      reads this`callingRanges, this`keyCount, callingRanges.Values`updateCount, callingRanges.Values`issued
    {
      callingRanges[k].Valid() && (callingRanges[k].cell <==> k != VBA) && (k == VBA || Issued(k, keyCount))
    }

    ghost predicate Counted()
      reads this`keyCount, this`gone, this`lost, this`wrappers, this`nextHandle, this`dirty
    {
      && keyCount <= KEY_MAX && gone <= lost && (forall k :: k in gone ==> Issued(k, keyCount) && k != VBA)
      && (forall h :: h in wrappers || h in dirty ==> h < nextHandle)
    }

    ghost predicate Valid()
      reads this, callingRanges.Values
    {
      Coherent({}, {}) && RangesValid() && Counted() && LeftoversLost(objectMap, wrappers, lost)
    }

    constructor ()
      ensures Valid() && objectMap == map[] && wrappers == map[] && callingRanges == map[] && gone == {} && keyCount == 0
      ensures dirty == {} && lost == {}
    {
      objectMap, wrappers, callingRanges, keyCount, gone, nextHandle, dirty := map[], map[], map[], 0, {}, 0, {};
      lost := {};
    }

    method AddRange(range: CallingRange)
      requires Coherent({}, {}) && RangesValid() && range.key !in callingRanges
      requires range.Valid() && range.residents == map[] && (range.cell <==> range.key != VBA)
      requires range.key == VBA || Issued(range.key, keyCount)
      modifies this`callingRanges
      ensures Coherent({}, {}) && RangesValid() && callingRanges == old(callingRanges)[range.key := range]
    {
      assert Located(objectMap, wrappers, range.key) == map[] by {
        assert forall x :: x in objectMap ==> HomedAt(objectMap, wrappers, callingRanges.Keys, x);
      }
      callingRanges := callingRanges[range.key := range];
      forall x | x in objectMap ensures HomedAt(objectMap, wrappers, callingRanges.Keys, x) {
        assert HomedAt(objectMap, wrappers, old(callingRanges.Keys), x);
      }
      forall k | k in callingRanges ensures FitsAt(k, {}) && RangeValid(k) {
        assert k != range.key ==> old(FitsAt(k, {}) && RangeValid(k));
      }
    }

    ghost predicate InUse(range: CallingRange)
      reads this`callingRanges
    {
      range.key in callingRanges && callingRanges[range.key] == range
    }

    method NextKey() returns (key: string)
      requires Valid() && keyCount < KEY_MAX
      modifies this`keyCount
      ensures keyCount == old(keyCount) + 1
      ensures Valid() && key == Key(old(keyCount)) && key !in callingRanges && key != VBA
      ensures Issued(key, keyCount)
    {
      NextKeyIsNew(keyCount);
      key := Key(keyCount);
      assert key in callingRanges ==> RangeValid(key);
      keyCount := keyCount + 1;
      forall k | k in callingRanges ensures RangeValid(k) {
        assert old(RangeValid(k));
      }
    }

    /** The constructor of a calling range that is a cell. */
    method NameCell(named: bool) returns (r: Option<CallingRange>)
      requires Valid()
      modifies this`callingRanges, this`keyCount
      ensures Valid()
      ensures r.None? ==> callingRanges == old(callingRanges)
      ensures r.None? <==> old(keyCount) == KEY_MAX || !named
      ensures r.Some? ==> InUse(r.value) && fresh(r.value) && callingRanges == old(callingRanges)[r.value.key := r.value]
      ensures r.Some? ==> r.value.key == Key(old(keyCount)) && r.value.key !in old(callingRanges) && r.value.issued == 0
      ensures keyCount == if old(keyCount) < KEY_MAX then old(keyCount) + 1 else old(keyCount)
    {
      if keyCount >= KEY_MAX {
        return None;
      }
      var key := NextKey();
      if !named {
        return None;
      }
      var range := new CallingRange(key, true);
      AddRange(range);
      r := Some(range);
    }

    /** How many counters the range with that key has issued. */
    ghost function IssuedAt(k: string): nat
      reads this`callingRanges, callingRanges.Values`issued
    {
      if k in callingRanges then callingRanges[k].issued else 0
    }

    /** The range of the caller, made and named if it has none; `named` says whether Excel accepts
        the name. */
    method GetCallingRange(caller: Caller, named: bool) returns (r: Option<CallingRange>)
      requires Valid()
      modifies this`callingRanges, this`keyCount
      ensures Valid() && (r.Some? ==> InUse(r.value))
      ensures callingRanges == old(callingRanges) ||
              (r.Some? && fresh(r.value) && callingRanges == old(callingRanges)[r.value.key := r.value])
      ensures r.None? <==> Unavailable(caller, named, old(keyCount), old(callingRanges.Keys))
      ensures r.Some? ==> r.value.key == CallerKey(caller, old(keyCount))
      ensures caller.FromVba? ==> r.Some? && r.value.key == "VBA"
      ensures caller.FromCell? ==>
                if caller.key in old(callingRanges) then r == Some(old(callingRanges)[caller.key]) else r.None?
      ensures caller.FromNewCell? ==>
                if named && old(keyCount) < 1048576 then r.Some? && r.value.key == Key(old(keyCount)) else r.None?
      ensures r.Some? ==> r.value.issued == old(IssuedAt(CallerKey(caller, keyCount)))
      ensures keyCount == if caller.FromNewCell? && old(keyCount) < KEY_MAX then old(keyCount) + 1 else old(keyCount)
    {
      if caller.FromVba? {
        if VBA in callingRanges {
          return Some(callingRanges[VBA]);
        }
        var range := new CallingRange(VBA, false);
        AddRange(range);
        r := Some(range);
      } else if caller.FromNewCell? {
        r := NameCell(named);
      } else {
        if caller.key !in callingRanges {
          return None;
        }
        r := Some(callingRanges[caller.key]);
      }
    }

    // ----- storing -----

    /** Decorates an ID with the next counter of a range. */
    method Decorate(range: CallingRange, id: string) returns (full: string)
      requires Valid() && InUse(range) && '#' !in id
      modifies range`updateCount, range`issued
      ensures Valid() && range.issued == old(range.issued) + Counters(range.cell)
      ensures full == ShownId(range.cell, id, range.issued) && GetStub(full) == id
    {
      assert RangeValid(range.key);
      full := range.UpdateId(id);
      forall k | k in callingRanges ensures RangeValid(k) {
        assert old(RangeValid(k));
      }
    }

    method InsertNew(range: CallingRange, id: string, permanent: bool) returns (h: Handle)
      requires Valid() && InUse(range) && Fold(id) !in objectMap && '#' !in id
      requires !Twin(objectMap, wrappers, Fold(id), range.key)
      modifies this`objectMap, this`wrappers, this`nextHandle, range
      ensures Valid() && h !in dirty && h !in old(wrappers) && objectMap == old(objectMap)[Fold(id) := h]
      ensures range.issued == old(range.issued) + Counters(range.cell)
      ensures wrappers == old(wrappers)[h := WrapperXL(id, ShownId(range.cell, id, range.issued), range.key, permanent, {})]
      ensures GetStub(wrappers[h].idFull) == id
    {
      h := nextHandle;
      nextHandle := nextHandle + 1;
      var full := Decorate(range, id);
      InsertKeepsLost(objectMap, wrappers, lost, h, WrapperXL(id, full, range.key, permanent, {}));
      InsertEntry(range, h, WrapperXL(id, full, range.key, permanent, {}));
    }

    method InsertEntry(range: CallingRange, h: Handle, w: WrapperXL)
      requires Coherent({}, {}) && InUse(range)
      requires h !in wrappers && Fold(w.id) !in objectMap && w.key == range.key && w.observables == {} && '#' !in w.id
      requires !Twin(objectMap, wrappers, Fold(w.id), w.key)
      modifies this`objectMap, this`wrappers, range`residents
      ensures Coherent({}, {})
      ensures objectMap == old(objectMap)[Fold(w.id) := h] && wrappers == old(wrappers)[h := w]
    {
      InsertKeepsHomed(objectMap, wrappers, callingRanges.Keys, h, w);
      InsertApartIff(objectMap, wrappers, callingRanges.Keys, h, w);
      InsertKeepsOwned(objectMap, wrappers, h, w);
      wrappers := wrappers[h := w];
      objectMap := objectMap[Fold(w.id) := h];
      range.RegisterObject(w.id, h);
      forall k | k in callingRanges ensures FitsAt(k, {}) {
        assert old(FitsAt(k, {}));
        InsertLocated(old(objectMap), old(wrappers), h, w, callingRanges.Keys, k);
      }
    }

    /** The part of `storeObject` for an ID in use: the wrapper moves to the calling range. */
    method Move(range: CallingRange, h: Handle)
      requires Valid() && InUse(range) && h in wrappers && Mapped(objectMap, wrappers, h)
      requires wrappers[h].key != range.key && !Twin(objectMap, wrappers, Fold(wrappers[h].id), range.key)
      modifies this`wrappers, callingRanges.Values`residents
      ensures Valid() && wrappers == old(wrappers)[h := old(wrappers)[h].(key := range.key)]
    {
      var moved := wrappers[h].(key := range.key);
      UpdateKeepsSound(objectMap, wrappers, callingRanges.Keys, h, moved);
      KeepsLost(objectMap, wrappers, wrappers[h := moved], lost, h);
      ResetCaller(range, h, moved);
    }

    /** `resetCaller`, and registration with the new range. */
    method ResetCaller(range: CallingRange, h: Handle, moved: WrapperXL)
      requires Keyed() && Residency({}) && Homed(objectMap, wrappers, callingRanges.Keys) && InUse(range)
      requires h in wrappers && Mapped(objectMap, wrappers, h) && wrappers[h].key != range.key
      requires moved == wrappers[h].(key := range.key)
      modifies this`wrappers, callingRanges.Values`residents
      ensures Residency({}) && wrappers == old(wrappers)[h := moved]
    {
      var w := wrappers[h];
      assert HomedAt(objectMap, wrappers, callingRanges.Keys, Fold(w.id));
      callingRanges[w.key].UnregisterObject(w.id);
      wrappers := wrappers[h := moved];
      range.RegisterObject(w.id, h);
      forall k | k in callingRanges ensures FitsAt(k, {}) {
        assert old(FitsAt(k, {}));
        UpdateLocated(objectMap, old(wrappers), h, moved, callingRanges.Keys, k);
        if k != w.key && k != range.key { assert Fold(w.id) !in Located(objectMap, old(wrappers), k); }
      }
    }

    /** `notifyObservers`: returns, as the wrappers that it reaches form no cycle, and marks exactly
        these dirty. */
    method NotifyObservers(h: Handle, ghost n: nat)
      requires h in wrappers && Completes(Observers(wrappers), h, n)
      modifies this`dirty
      ensures dirty == old(dirty) + Notified(wrappers, h)
      decreases n, 0
    {
      var rest := ObserversOf(wrappers, h);
      ghost var done := {};
      NoneNotified(wrappers);
      while rest != {}
        invariant rest <= ObserversOf(wrappers, h) && done == ObserversOf(wrappers, h) - rest
        invariant dirty == old(dirty) + ReachedFromAny(wrappers, done)
        decreases |rest|
      {
        var o :| o in rest;
        ObserverCompletes(wrappers, h, o, n);
        NotifiedOneMore(wrappers, old(dirty), done, o);
        Update(o, n - 1);
        rest, done := rest - {o}, done + {o};
      }
      NotifiedThroughObservers(wrappers, h);
    }

    /** `update` */
    method Update(o: Handle, ghost n: nat)
      requires o in wrappers && Completes(Observers(wrappers), o, n)
      modifies this`dirty
      ensures dirty == old(dirty) + Notified(wrappers, o) + {o}
      decreases n, 1
    {
      NotifyObservers(o, n);
      dirty := dirty + {o};
    }

    /** `ObjectWrapper::reset`, as far as the flags go. */
    method ResetFlags(h: Handle)
      requires h in wrappers && Terminates(Observers(wrappers), h)
      modifies this`dirty
      ensures dirty == old(dirty) + Notified(wrappers, h) - {h}
    {
      ghost var n: nat :| Completes(Observers(wrappers), h, n);
      dirty := dirty - {h};
      NotifyObservers(h, n);
      if h in Notified(wrappers, h) {
        ReachesSplit(Observers(wrappers), h, h);
        CompletesExcludesCycles(Observers(wrappers), h, h, n);
      }
    }

    /** `ObjectWrapperXL::reset`: the observers are notified, and the ID gets the next counter. */
    method Reset(range: CallingRange, h: Handle, permanent: bool)
      requires Valid() && InUse(range) && h in wrappers && Mapped(objectMap, wrappers, h)
      requires wrappers[h].key == range.key && Terminates(Observers(wrappers), h)
      modifies this`wrappers, this`dirty, range`updateCount, range`issued
      ensures Valid() && dirty == old(dirty) + Notified(old(wrappers), h) - {h}
      ensures range.issued == old(range.issued) + Counters(range.cell)
      ensures wrappers == old(wrappers)[h := old(wrappers)[h].(
                idFull := ShownId(range.cell, old(wrappers)[h].id, range.issued), permanent := permanent)]
      ensures GetStub(wrappers[h].idFull) == wrappers[h].id
    {
      var w := wrappers[h];
      ResetFlags(h);
      assert HomedAt(objectMap, wrappers, callingRanges.Keys, Fold(w.id));
      var full := Decorate(range, w.id);
      KeepsLost(objectMap, wrappers, wrappers[h := w.(idFull := full, permanent := permanent)], lost, h);
      Refresh(h, w.(idFull := full, permanent := permanent));
    }

    method Refresh(h: Handle, w: WrapperXL)
      requires Coherent({}, {}) && h in wrappers && Mapped(objectMap, wrappers, h)
      requires w.id == wrappers[h].id && w.key == wrappers[h].key && w.observables == wrappers[h].observables
      modifies this`wrappers
      ensures Coherent({}, {}) && wrappers == old(wrappers)[h := w]
    {
      assert HomedAt(objectMap, wrappers, callingRanges.Keys, Fold(w.id));
      AlreadyThere(objectMap, wrappers, Fold(w.id), w.key);
      UpdateKeepsSound(objectMap, wrappers, callingRanges.Keys, h, w);
      wrappers := wrappers[h := w];
      forall k | k in callingRanges ensures FitsAt(k, {}) {
        assert old(FitsAt(k, {}));
        UpdateLocated(objectMap, old(wrappers), h, w, callingRanges.Keys, k);
        assert k != w.key ==> Fold(w.id) !in Located(objectMap, old(wrappers), k);
      }
    }

    method Rewire(h: Handle, observables: set<Handle>)
      requires Coherent({}, {}) && h in wrappers && observables <= wrappers.Keys
      modifies this`wrappers
      ensures Coherent({}, old(wrappers)[h].observables - observables)
      ensures wrappers == Rewired(old(wrappers), h, observables)
      ensures Objects(objectMap, wrappers) == old(Objects(objectMap, wrappers))
    {
      RewireKeepsHomed(objectMap, wrappers, callingRanges.Keys, h, observables);
      RewireKeepsOwned(objectMap, wrappers, h, observables);
      RewiredLocated(objectMap, wrappers, h, observables, "");
      wrappers := Rewired(wrappers, h, observables);
      forall k | k in callingRanges ensures FitsAt(k, {}) {
        assert old(FitsAt(k, {}));
        RewiredLocated(objectMap, old(wrappers), h, observables, k);
      }
    }

    /** `unregisterWithAll`: leftover wrappers that only this one observed are destroyed. */
    method UnregisterWithAll(h: Handle)
      requires Coherent({}, {}) && h in wrappers && Mapped(objectMap, wrappers, h)
      modifies this`wrappers, callingRanges.Values`residents
      ensures Coherent({}, {}) && h in wrappers && wrappers[h] == old(wrappers)[h].(observables := {})
      ensures OthersKept(old(wrappers), wrappers, h)
      ensures wrappers.Keys <= old(wrappers.Keys) && Objects(objectMap, wrappers) == old(Objects(objectMap, wrappers))
    {
      var observables := wrappers[h].observables;
      Rewire(h, {});
      ghost var rewired := wrappers;
      ReleaseAll(observables - {}, {}, {});
      MappedStays(objectMap, rewired, wrappers, callingRanges.Keys, h);
    }

    /** `registerObserver`: the wrapper observes exactly those of its precedents; the first unknown
        precedent ends the registration. */
    method RegisterObserver(h: Handle, precedents: seq<string>) returns (done: nat)
      requires Coherent({}, {}) && h in wrappers && Mapped(objectMap, wrappers, h)
      modifies this`wrappers, callingRanges.Values`residents
      ensures Coherent({}, {}) && h in wrappers && wrappers[h].(observables := {}) == old(wrappers)[h].(observables := {})
      ensures OthersKept(old(wrappers), wrappers, h)
      ensures wrappers.Keys <= old(wrappers.Keys) && Objects(objectMap, wrappers) == old(Objects(objectMap, wrappers))
      ensures RegisteredTo(objectMap, precedents, wrappers[h].observables, done)
    {
      UnregisterWithAll(h);
      for i := 0 to |precedents|
        invariant Coherent({}, {}) && h in wrappers
        invariant wrappers[h].(observables := {}) == old(wrappers)[h].(observables := {})
        invariant OthersKept(old(wrappers), wrappers, h)
        invariant wrappers.Keys <= old(wrappers.Keys) && Objects(objectMap, wrappers) == old(Objects(objectMap, wrappers))
        invariant AllKnown(objectMap, precedents[..i])
        invariant wrappers[h].observables == PrecedentHandles(objectMap, precedents[..i])
      {
        var p := precedents[i];
        if !Known(objectMap, p) {
          return i;
        }
        ObserveOne(h, objectMap[Fold(GetStub(p))]);
        OneMorePrecedent(objectMap, precedents, i);
      }
      done := |precedents|;
    }

    method ObserveOne(h: Handle, o: Handle)
      requires Coherent({}, {}) && h in wrappers && o in objectMap.Values
      modifies this`wrappers
      ensures Coherent({}, {}) && wrappers == Rewired(old(wrappers), h, old(wrappers)[h].observables + {o})
      ensures Objects(objectMap, wrappers) == old(Objects(objectMap, wrappers))
    {
      var x :| x in objectMap && objectMap[x] == o;
      assert HomedAt(objectMap, wrappers, callingRanges.Keys, x);
      var observables := wrappers[h].observables;
      assert observables - (observables + {o}) == {};
      Rewire(h, observables + {o});
    }

    /** The part of `storeObject` for an ID in use. */
    method Overwrite(range: CallingRange, h: Handle, permanent: bool)
      requires Valid() && InUse(range) && h in wrappers && Mapped(objectMap, wrappers, h)
      requires Terminates(Observers(wrappers), h) && !Twin(objectMap, wrappers, Fold(wrappers[h].id), range.key)
      modifies this`wrappers, this`dirty, callingRanges.Values
      ensures Valid() && dirty == old(dirty) + Notified(old(wrappers), h) - {h}
      ensures range.issued == old(range.issued) + Counters(range.cell)
      ensures wrappers == old(wrappers)[h := old(wrappers)[h].(key := range.key, permanent := permanent,
                idFull := ShownId(range.cell, old(wrappers)[h].id, range.issued))]
      ensures GetStub(wrappers[h].idFull) == wrappers[h].id
    {
      if wrappers[h].key != range.key {
        SameObservers(wrappers, h, wrappers[h].(key := range.key));
        Move(range, h);
      }
      Reset(range, h, permanent);
    }

    /** The wrapper that a store of `x` resets, and the wrappers that it notifies. */
    ghost function NotifiedBy(x: string): set<Handle>
      reads this`objectMap, this`wrappers
    {
      if x in objectMap then Notified(wrappers, objectMap[x]) else {}
    }

    /** Notifying the observers of `x` does not end. */
    ghost predicate EndlessFor(x: string)
      reads this`objectMap, this`wrappers
    {
      x in objectMap && !Terminates(Observers(wrappers), objectMap[x])
    }

    /** The object is in the map, shown with the last counter of its range. */
    ghost predicate EnteredAs(x: string, range: CallingRange)
      reads this`objectMap, this`wrappers, range`issued
    {
      && x in objectMap && objectMap[x] in wrappers && Mapped(objectMap, wrappers, objectMap[x])
      && Fold(wrappers[objectMap[x]].id) == x
      && wrappers[objectMap[x]].idFull == ShownId(range.cell, wrappers[objectMap[x]].id, range.issued)
      && GetStub(wrappers[objectMap[x]].idFull) == wrappers[objectMap[x]].id
    }

    /** The store has reached the map: where the object is, and which wrappers are dirty now. */
    ghost predicate Flagged(x: string, mapBefore: ObjectMap, dirtyBefore: set<Handle>, notified: set<Handle>)
      reads this`objectMap, this`dirty
    {
      && x in objectMap && objectMap == mapBefore[x := objectMap[x]] && (x in mapBefore ==> objectMap == mapBefore)
      && dirty == dirtyBefore + notified - {objectMap[x]}
    }

    method EnterNew(range: CallingRange, id: string, permanent: bool)
      requires Valid() && InUse(range) && '#' !in id && Fold(id) !in objectMap
      requires !Twin(objectMap, wrappers, Fold(id), range.key)
      modifies this`objectMap, this`wrappers, this`nextHandle, this`dirty, range
      ensures Valid() && range.issued == old(range.issued) + Counters(range.cell)
      ensures Objects(objectMap, wrappers) == old(Objects(objectMap, wrappers))[Fold(id) := Info(range.key, permanent)]
      ensures EnteredAs(Fold(id), range) && OthersKept(old(wrappers), wrappers, objectMap[Fold(id)])
      ensures Flagged(Fold(id), old(objectMap), old(dirty), {})
    {
      var h := InsertNew(range, id, permanent);
      InsertObjects(old(objectMap), old(wrappers), h, wrappers[h], callingRanges.Keys);
    }

    method EnterOld(range: CallingRange, x: string, permanent: bool)
      requires Valid() && InUse(range) && x in objectMap && !EndlessFor(x)
      requires !Twin(objectMap, wrappers, x, range.key)
      modifies this`wrappers, this`dirty, callingRanges.Values
      ensures Valid() && range.issued == old(range.issued) + Counters(range.cell)
      ensures Objects(objectMap, wrappers) == old(Objects(objectMap, wrappers))[x := Info(range.key, permanent)]
      ensures EnteredAs(x, range) && OthersKept(old(wrappers), wrappers, objectMap[x])
      ensures Flagged(x, old(objectMap), old(dirty), old(NotifiedBy(x)))
    {
      assert HomedAt(objectMap, wrappers, callingRanges.Keys, x);
      Overwrite(range, objectMap[x], permanent);
      UpdateObjects(objectMap, old(wrappers), objectMap[x], wrappers[objectMap[x]], callingRanges.Keys);
    }

    /** Enters the object, unless it resides in another range and may not be overwritten. */
    method Enter(range: CallingRange, id: string, permanent: bool, overwrite: bool) returns (entered: bool)
      requires Valid() && InUse(range) && '#' !in id
      requires Blocked(Objects(objectMap, wrappers), Fold(id), range.key, overwrite) ||
               (!EndlessFor(Fold(id)) && !Twin(objectMap, wrappers, Fold(id), range.key))
      modifies this`objectMap, this`wrappers, this`nextHandle, this`dirty, callingRanges.Values
      ensures Valid()
      ensures !entered <==> Blocked(old(Objects(objectMap, wrappers)), Fold(id), range.key, overwrite)
      ensures !entered ==> objectMap == old(objectMap) && wrappers == old(wrappers) && dirty == old(dirty)
      ensures range.issued == old(range.issued) + if entered then Counters(range.cell) else 0
      ensures entered ==> Objects(objectMap, wrappers) ==
                          old(Objects(objectMap, wrappers))[Fold(id) := Info(range.key, permanent)]
      ensures entered ==> EnteredAs(Fold(id), range) && OthersKept(old(wrappers), wrappers, objectMap[Fold(id)])
      ensures entered ==> Flagged(Fold(id), old(objectMap), old(dirty), old(NotifiedBy(Fold(id))))
    {
      entered := true;
      if Fold(id) !in objectMap {
        EnterNew(range, id, permanent);
      } else {
        assert HomedAt(objectMap, wrappers, callingRanges.Keys, Fold(id));
        if wrappers[objectMap[Fold(id)]].key != range.key && !overwrite {
          return false;
        }
        EnterOld(range, Fold(id), permanent);
      }
    }

    /** What a store leaves of the wrappers: the others as they were, and the object's own observing
        its precedents, or those before the first unknown one. */
    ghost predicate StoredIn(x: string, range: CallingRange, precedents: seq<string>, before: Wrappers, r: Outcome)
      reads this`objectMap, this`wrappers, range`issued
    {
      && EnteredAs(x, range) && OthersKept(before, wrappers, objectMap[x])
      && (r.Stored? ==> r.idFull == wrappers[objectMap[x]].idFull &&
                        RegisteredTo(objectMap, precedents, wrappers[objectMap[x]].observables, |precedents|))
      && (r.UnknownPrecedent? ==> r.at < |precedents| && r.id == precedents[r.at] &&
                                  RegisteredTo(objectMap, precedents, wrappers[objectMap[x]].observables, r.at))
    }

    /** `storeObject`, once the calling range is known. */
    method StoreIn(key: string, idRaw: string, obj: XLObject, overwrite: bool) returns (r: Outcome)
      requires Valid() && key in callingRanges
      requires !Endless(key, idRaw, overwrite) && !Clashes(key, idRaw, overwrite)
      modifies this`objectMap, this`wrappers, this`nextHandle, this`dirty, callingRanges.Values
      ensures Valid()
      ensures StoreSpec(old(Objects(objectMap, wrappers)), Objects(objectMap, wrappers),
                        key, idRaw, obj.permanent, overwrite, r)
      ensures !Entered(r) ==> objectMap == old(objectMap) && wrappers == old(wrappers) && dirty == old(dirty)
      ensures IssuedAt(key) == old(IssuedAt(key)) + if Entered(r) then Counters(key != VBA) else 0
      ensures Entered(r) ==> StoredIn(TargetId(key, idRaw), callingRanges[key], obj.precedents, old(wrappers), r)
      ensures Entered(r) ==>
                Flagged(TargetId(key, idRaw), old(objectMap), old(dirty), old(NotifiedBy(TargetId(key, idRaw))))
    {
      var range := callingRanges[key];
      assert RangeValid(key);
      var id := InitializeId(range.cell, key, idRaw);
      if id.None? {
        return InvalidId;
      }
      InitializedHasNoHash(key, keyCount, idRaw);
      var entered := Enter(range, id.value, obj.permanent, overwrite);
      if !entered {
        return ResidesElsewhere(Objects(objectMap, wrappers)[Fold(id.value)].key);
      }
      ghost var entry := wrappers;
      r := Connect(Fold(id.value), range, obj.precedents);
      OthersKeptOn(old(wrappers), entry, wrappers, objectMap[Fold(id.value)]);
    }

    method Connect(x: string, range: CallingRange, precedents: seq<string>) returns (r: Outcome)
      requires Valid() && EnteredAs(x, range)
      modifies this`wrappers, callingRanges.Values`residents
      ensures Valid() && Objects(objectMap, wrappers) == old(Objects(objectMap, wrappers))
      ensures Entered(r) && StoredIn(x, range, precedents, old(wrappers), r)
    {
      var h := objectMap[x];
      var idFull := wrappers[h].idFull;
      var done := RegisterObserver(h, precedents);
      KeepsLost(objectMap, old(wrappers), wrappers, lost, h);
      if done < |precedents| {
        r := UnknownPrecedent(precedents[done], done);
      } else {
        r := Stored(idFull);
      }
    }

    /** The store would notify the observers of a wrapper from which a cycle of observers can be
        reached. */
    ghost predicate Endless(key: string, idRaw: string, overwrite: bool)
      reads this`objectMap, this`wrappers
    {
      var x := TargetId(key, idRaw);
      ValidId(key, idRaw) && !Blocked(Objects(objectMap, wrappers), x, key, overwrite) && EndlessFor(x)
    }

    /** A wrapper that has outlived an object with that ID is still bound to the calling range: its
        destructor would unregister the object that the store is about. */
    predicate Clashes(key: string, idRaw: string, overwrite: bool)
      reads this`objectMap, this`wrappers
    {
      var x := TargetId(key, idRaw);
      ValidId(key, idRaw) && !Blocked(Objects(objectMap, wrappers), x, key, overwrite) && Twin(objectMap, wrappers, x, key)
    }

    /** No store from a cell that has always been there clashes. */
    lemma ClashesOnlyIfLost(key: string, idRaw: string, overwrite: bool)
      requires Valid() && key !in lost
      ensures !Clashes(key, idRaw, overwrite)
    {
      NoTwinUnlessLost(objectMap, wrappers, lost, TargetId(key, idRaw), key);
    }

    /** `storeObject`: `named` says whether Excel accepts the name of a new cell. A store whose
        notification does not end never returns. */
    method StoreObject(caller: Caller, named: bool, idRaw: string, obj: XLObject, overwrite: bool) returns (r: Outcome)
      requires Valid()
      requires Unavailable(caller, named, keyCount, callingRanges.Keys) ||
               (!Endless(CallerKey(caller, keyCount), idRaw, overwrite) &&
                !Clashes(CallerKey(caller, keyCount), idRaw, overwrite))
      modifies this, callingRanges.Values
      ensures Valid() && gone == old(gone) && lost == old(lost)
      ensures r.NoRange? <==> Unavailable(caller, named, old(keyCount), old(callingRanges.Keys))
      ensures keyCount == if caller.FromNewCell? && old(keyCount) < KEY_MAX then old(keyCount) + 1 else old(keyCount)
      ensures callingRanges.Keys == old(callingRanges.Keys) + if r.NoRange? then {} else {CallerKey(caller, old(keyCount))}
      ensures fresh(callingRanges.Values - old(callingRanges.Values))
      ensures !Entered(r) ==> objectMap == old(objectMap) && wrappers == old(wrappers) && dirty == old(dirty)
      ensures !r.NoRange? ==> StoreSpec(old(Objects(objectMap, wrappers)), Objects(objectMap, wrappers),
                                        CallerKey(caller, old(keyCount)), idRaw, obj.permanent, overwrite, r)
      ensures var key := CallerKey(caller, old(keyCount));
              IssuedAt(key) == old(IssuedAt(CallerKey(caller, keyCount))) + if Entered(r) then Counters(key != VBA) else 0
      ensures Entered(r) ==>
                CallerKey(caller, old(keyCount)) in callingRanges &&
                StoredIn(TargetId(CallerKey(caller, old(keyCount)), idRaw),
                         callingRanges[CallerKey(caller, old(keyCount))], obj.precedents, old(wrappers), r)
      ensures Entered(r) ==>
                Flagged(TargetId(CallerKey(caller, old(keyCount)), idRaw), old(objectMap), old(dirty),
                        old(NotifiedBy(TargetId(CallerKey(caller, keyCount), idRaw))))
    {
      var range := GetCallingRange(caller, named);
      if range.None? {
        return NoRange;
      }
      r := StoreIn(range.value.key, idRaw, obj, overwrite);
    }

    // ----- deleting -----

    /** The object is there, and another observes it. */
    predicate ObservedId(id: string)
      reads this`objectMap, this`wrappers
    {
      Known(objectMap, id) && Held(wrappers, objectMap[Fold(GetStub(id))])
    }

    /** `deleteObject`. The indexes stay in step exactly when no other object observes the deleted
        one; otherwise its wrapper lives on, and its range keeps the entry. */
    method DeleteObject(id: string) returns (ok: bool)
      requires Valid()
      modifies this`objectMap, this`wrappers, callingRanges.Values`residents
      ensures ok <==> Known(old(objectMap), id)
      ensures Objects(objectMap, wrappers) == old(Objects(objectMap, wrappers)) - {Fold(GetStub(id))}
      ensures Valid() <==> !old(ObservedId(id))
      ensures old(ObservedId(id)) ==>
                wrappers == old(wrappers) && old(objectMap)[Fold(GetStub(id))] in wrappers &&
                StaleEntry(wrappers[old(objectMap)[Fold(GetStub(id))]].key, Fold(GetStub(id)))
    {
      var x := Fold(GetStub(id));
      if x !in objectMap {
        return false;
      }
      ok := true;
      if Held(wrappers, objectMap[x]) {
        EraseObserved(x);
      } else {
        EraseUnobserved(x);
        ShrunkObjects(old(objectMap), objectMap, old(wrappers), wrappers, callingRanges.Keys);
      }
    }

    method EraseUnobserved(x: string)
      requires Valid() && x in objectMap && !Held(wrappers, objectMap[x])
      modifies this`objectMap, this`wrappers, callingRanges.Values`residents
      ensures Valid() && objectMap == old(objectMap) - {x} && Submap(wrappers, old(wrappers))
    {
      EraseEntry(x);
    }

    method EraseEntry(x: string)
      requires Coherent({}, {}) && LeftoversLost(objectMap, wrappers, lost)
      requires x in objectMap && !Held(wrappers, objectMap[x])
      modifies this`objectMap, this`wrappers, callingRanges.Values`residents
      ensures Coherent({}, {}) && LeftoversLost(objectMap, wrappers, lost)
      ensures objectMap == old(objectMap) - {x} && Submap(wrappers, old(wrappers))
    {
      var h := objectMap[x];
      assert HomedAt(objectMap, wrappers, callingRanges.Keys, x);
      var w := wrappers[h];
      TakeOut(x);
      Drop(h, {}, {});
      ReleaseAll(w.observables, {}, {});
      EraseKeepsLost(old(objectMap), old(wrappers), wrappers, lost, x);
    }

    /** Takes the object out of both indexes. */
    method TakeOut(x: string)
      requires Coherent({}, {}) && x in objectMap
      modifies this`objectMap, callingRanges.Values`residents
      ensures objectMap == old(objectMap) - {x} && Unreferenced(old(objectMap)[x])
      ensures old(objectMap)[x] in wrappers
      ensures Keyed() && Residency({})
      ensures SoundBut(objectMap, wrappers, callingRanges.Keys, {}, old(objectMap)[x])
      ensures Objects(objectMap, wrappers) == old(Objects(objectMap, wrappers)) - {x}
    {
      var h := objectMap[x];
      assert HomedAt(objectMap, wrappers, callingRanges.Keys, x);
      var w := wrappers[h];
      RemoveKeepsSound(objectMap, wrappers, callingRanges.Keys, x);
      RemoveLocated(objectMap, wrappers, x, "");
      objectMap := objectMap - {x};
      callingRanges[w.key].UnregisterObject(w.id);
      forall k | k in callingRanges ensures FitsAt(k, {}) {
        assert old(FitsAt(k, {}));
        RemoveLocated(old(objectMap), wrappers, x, k);
      }
    }

    /** The range has an entry for `x`, which is not in the object map. */
    ghost predicate StaleEntry(k: string, x: string)
      reads this`objectMap, this`callingRanges, callingRanges.Values`residents
    {
      k in callingRanges && x in callingRanges[k].residents && x !in objectMap
    }

    /** As long as the indexes are in step there is no such entry. */
    lemma NoStaleEntry(k: string, x: string)
      requires Valid()
      ensures !StaleEntry(k, x)
    {
      assert k in callingRanges ==> FitsAt(k, {});
    }

    /** The observed wrapper stays alive, and its ID stays resident in the range. */
    method EraseObserved(x: string)
      requires Valid() && x in objectMap
      modifies this`objectMap
      ensures old(objectMap)[x] in wrappers && StaleEntry(wrappers[old(objectMap)[x]].key, x)
      ensures !Valid() && Objects(objectMap, wrappers) == old(Objects(objectMap, wrappers)) - {x}
    {
      assert HomedAt(objectMap, wrappers, callingRanges.Keys, x);
      var k := wrappers[objectMap[x]].key;
      assert FitsAt(k, {});
      assert x in Located(objectMap, wrappers, k);
      RemoveLocated(objectMap, wrappers, x, k);
      objectMap := objectMap - {x};
      assert !FitsAt(k, {});
    }

    // ----- garbage collection -----

    /** The range is of a cell that has gone. */
    ghost predicate Orphaned(range: CallingRange)
      reads this`callingRanges, this`gone
    {
      range.key in callingRanges && callingRanges[range.key] == range && range.key in gone
    }

    /** Entries not yet reached are still there, whatever else has been destroyed: the iteration
        over the residents goes on safely. */
    lemma ResidentsCover(range: CallingRange, clearing: set<string>)
      requires Coherent(clearing, {}) && Orphaned(range)
      ensures IdsAt(Objects(objectMap, wrappers), range.key) <= range.residents.Keys
    {
      assert FitsAt(range.key, clearing);
      LocatedIds(objectMap, wrappers, range.key);
    }

    /** A wrapper is let go by the map, and destroyed if nobody observes it. */
    method LetGo(h: Handle, ghost clearing: set<string>)
      requires Keyed() && Residency(clearing) && SoundBut(objectMap, wrappers, callingRanges.Keys, {}, h)
      requires h in wrappers && Unreferenced(h)
      requires !At(objectMap, wrappers, Fold(wrappers[h].id), wrappers[h].key)
      modifies this`wrappers, callingRanges.Values`residents
      ensures Coherent(clearing, {})
      ensures Submap(wrappers, old(wrappers)) && Objects(objectMap, wrappers) == old(Objects(objectMap, wrappers))
    {
      assert Sound(objectMap, wrappers, callingRanges.Keys, {} + {h}) by {
        forall d | d in wrappers ensures Mapped(objectMap, wrappers, d) || Apart(objectMap, wrappers, d) {
          assert d == h ==> Apart(objectMap, wrappers, d);
        }
      }
      if !Held(wrappers, h) {
        Destroy(h, clearing, {});
      } else {
        forall d | d in wrappers ensures Owned(objectMap, wrappers, d) {
          assert d == h ==> Held(wrappers, d);
        }
      }
    }

    /** What holds while the entries in `todo` remain to be reached, of objects that were `objects`,
        `om` and `ws` when the loop started. */
    ghost predicate Clearing(range: CallingRange, objects: Catalogue, om: ObjectMap, ws: Wrappers, todo: set<string>,
                             deletePermanent: bool)
      reads this`objectMap, this`wrappers, this`callingRanges, callingRanges.Values`residents, range`residents
    {
      && Coherent(if deletePermanent then {range.key} else {}, {}) && Shrinks(om, ws, objectMap, wrappers)
      && Objects(objectMap, wrappers) == Left(objects, range.key, todo, deletePermanent)
      && todo <= IdsAt(objects, range.key) && todo <= range.residents.Keys
    }

    /** Deletes the objects of the range that are not permanent, each entry as it is reached. */
    method ClearTransient(range: CallingRange)
      requires Coherent({}, {}) && Orphaned(range)
      modifies this`objectMap, this`wrappers, callingRanges.Values`residents
      ensures Coherent({}, {}) && Shrinks(old(objectMap), old(wrappers), objectMap, wrappers)
      ensures Objects(objectMap, wrappers) ==
              old(Cleared(Objects(objectMap, wrappers), IdsAt(Objects(objectMap, wrappers), range.key), false))
    {
      ghost var objects := Objects(objectMap, wrappers);
      assert FitsAt(range.key, {});
      LocatedIds(objectMap, wrappers, range.key);
      LeftEnds(objects, range.key, false);
      var todo := range.residents.Keys;
      while todo != {}
        invariant Clearing(range, objects, old(objectMap), old(wrappers), todo, false)
        decreases |todo|
      {
        var x :| x in todo;
        ClearNext(range, x, objects, old(objectMap), old(wrappers), todo);
        todo := todo - {x};
      }
    }

    method ClearNext(range: CallingRange, x: string, ghost objects: Catalogue, ghost om: ObjectMap, ghost ws: Wrappers,
                     ghost todo: set<string>)
      requires Clearing(range, objects, om, ws, todo, false) && Orphaned(range) && x in todo
      modifies this`objectMap, this`wrappers, callingRanges.Values`residents
      ensures Clearing(range, objects, om, ws, todo - {x}, false)
    {
      LeftStep(objects, range.key, todo, false, x);
      ClearOne(range, x);
      ShrinksOn(om, ws, old(objectMap), old(wrappers), objectMap, wrappers);
      LeftKeeps(objects, range.key, todo - {x}, false);
      ResidentsCover(range, {});
    }

    method ClearOne(range: CallingRange, x: string)
      requires Coherent({}, {}) && Orphaned(range) && x in IdsAt(Objects(objectMap, wrappers), range.key)
      modifies this`objectMap, this`wrappers, callingRanges.Values`residents
      ensures Coherent({}, {}) && Shrinks(old(objectMap), old(wrappers), objectMap, wrappers)
      ensures Objects(objectMap, wrappers) ==
              if old(Objects(objectMap, wrappers))[x].permanent then old(Objects(objectMap, wrappers))
              else old(Objects(objectMap, wrappers)) - {x}
    {
      assert FitsAt(range.key, {});
      LocatedIds(objectMap, wrappers, range.key);
      var h := range.residents[x];
      assert h == objectMap[x] && HomedAt(objectMap, wrappers, callingRanges.Keys, x);
      if !wrappers[h].permanent {
        TakeOut(x);
        LetGo(h, {});
      }
    }

    /** Deletes all objects of the range. The entries of observed ones stay until the end. */
    method ClearAll(range: CallingRange)
      requires Coherent({}, {}) && Orphaned(range)
      modifies this`objectMap, this`wrappers, callingRanges.Values`residents
      ensures Coherent({}, {}) && Shrinks(old(objectMap), old(wrappers), objectMap, wrappers)
      ensures Objects(objectMap, wrappers) ==
              old(Cleared(Objects(objectMap, wrappers), IdsAt(Objects(objectMap, wrappers), range.key), true))
    {
      ghost var objects := Objects(objectMap, wrappers);
      assert FitsAt(range.key, {});
      LocatedIds(objectMap, wrappers, range.key);
      LeftEnds(objects, range.key, true);
      var todo := range.residents.Keys;
      StartClearing(range);
      while todo != {}
        invariant Clearing(range, objects, old(objectMap), old(wrappers), todo, true)
        decreases |todo|
      {
        var x :| x in todo;
        DeleteNext(range, x, objects, old(objectMap), old(wrappers), todo);
        todo := todo - {x};
      }
      FinishClearing(range);
    }

    method DeleteNext(range: CallingRange, x: string, ghost objects: Catalogue, ghost om: ObjectMap, ghost ws: Wrappers,
                      ghost todo: set<string>)
      requires Clearing(range, objects, om, ws, todo, true) && Orphaned(range) && x in todo
      modifies this`objectMap, this`wrappers, callingRanges.Values`residents
      ensures Clearing(range, objects, om, ws, todo - {x}, true)
    {
      LeftStep(objects, range.key, todo, true, x);
      DeleteResident(range, x);
      ShrinksOn(om, ws, old(objectMap), old(wrappers), objectMap, wrappers);
      LeftKeeps(objects, range.key, todo - {x}, true);
      ResidentsCover(range, {range.key});
    }

    ghost method StartClearing(range: CallingRange)
      requires Coherent({}, {}) && Orphaned(range)
      ensures Coherent({range.key}, {})
    {
      forall k | k in callingRanges ensures FitsAt(k, {range.key}) {
        assert FitsAt(k, {});
      }
    }

    method FinishClearing(range: CallingRange)
      requires Coherent({range.key}, {}) && Orphaned(range) && IdsAt(Objects(objectMap, wrappers), range.key) == {}
      modifies range`residents
      ensures Coherent({}, {})
    {
      LocatedIds(objectMap, wrappers, range.key);
      range.ClearResidents();
      forall k | k in callingRanges ensures FitsAt(k, {}) {
        assert old(FitsAt(k, {range.key}));
      }
    }

    method DeleteResident(range: CallingRange, x: string)
      requires Coherent({range.key}, {}) && Orphaned(range) && x in IdsAt(Objects(objectMap, wrappers), range.key)
      modifies this`objectMap, this`wrappers, callingRanges.Values`residents
      ensures Coherent({range.key}, {}) && Shrinks(old(objectMap), old(wrappers), objectMap, wrappers)
      ensures Objects(objectMap, wrappers) == old(Objects(objectMap, wrappers)) - {x}
    {
      var h := objectMap[x];
      assert HomedAt(objectMap, wrappers, callingRanges.Keys, x);
      RemoveKeepsSound(objectMap, wrappers, callingRanges.Keys, x);
      RemoveLocated(objectMap, wrappers, x, "");
      objectMap := objectMap - {x};
      forall k | k in callingRanges ensures FitsAt(k, {range.key}) {
        assert old(FitsAt(k, {range.key}));
        RemoveLocated(old(objectMap), wrappers, x, k);
        assert k != range.key ==> x !in Located(old(objectMap), wrappers, k);
      }
      LetGo(h, {range.key});
    }

    /** `clearResidentObjects` */
    method ClearResidentObjects(range: CallingRange, deletePermanent: bool)
      requires Coherent({}, {}) && Orphaned(range)
      modifies this`objectMap, this`wrappers, callingRanges.Values`residents
      ensures Coherent({}, {}) && Shrinks(old(objectMap), old(wrappers), objectMap, wrappers)
      ensures Objects(objectMap, wrappers) ==
              old(Cleared(Objects(objectMap, wrappers), IdsAt(Objects(objectMap, wrappers), range.key), deletePermanent))
    {
      if deletePermanent {
        ClearAll(range);
      } else {
        ClearTransient(range);
      }
    }

    method RemoveRange(k: string)
      requires Valid() && k in callingRanges && callingRanges[k].residents == map[]
      modifies this`callingRanges
      ensures Valid() && callingRanges == old(callingRanges) - {k}
    {
      assert FitsAt(k, {});
      forall x | x in objectMap ensures HomedAt(objectMap, wrappers, callingRanges.Keys - {k}, x) {
        assert HomedAt(objectMap, wrappers, callingRanges.Keys, x);
        assert x !in Located(objectMap, wrappers, k);
      }
      callingRanges := callingRanges - {k};
      assert callingRanges.Keys == old(callingRanges.Keys) - {k};
      forall j | j in callingRanges ensures FitsAt(j, {}) && RangeValid(j) {
        assert old(FitsAt(j, {}) && RangeValid(j));
      }
    }

    method ClearRange(k: string, deletePermanent: bool)
      requires Valid() && k in callingRanges && k in gone
      modifies this`objectMap, this`wrappers, callingRanges.Values`residents
      ensures Valid() && Shrinks(old(objectMap), old(wrappers), objectMap, wrappers)
      ensures callingRanges[k].residents.Keys == IdsAt(Objects(objectMap, wrappers), k)
      ensures Objects(objectMap, wrappers) ==
              old(Cleared(Objects(objectMap, wrappers), IdsAt(Objects(objectMap, wrappers), k), deletePermanent))
    {
      ClearResidentObjects(callingRanges[k], deletePermanent);
      CollectKeepsLost(old(objectMap), objectMap, old(wrappers), wrappers, callingRanges.Keys, lost, k, deletePermanent);
      assert FitsAt(k, {});
      LocatedIds(objectMap, wrappers, k);
    }

    /** One turn of the collection: a range of a cell that has gone is cleared, and dropped when
        nothing is left in it. */
    method CollectRange(k: string, deletePermanent: bool)
      requires Valid() && k in callingRanges && k in gone
      modifies this`objectMap, this`wrappers, this`callingRanges, callingRanges.Values`residents
      ensures Valid() && Shrinks(old(objectMap), old(wrappers), objectMap, wrappers)
      ensures Objects(objectMap, wrappers) ==
              old(Cleared(Objects(objectMap, wrappers), IdsAt(Objects(objectMap, wrappers), k), deletePermanent))
      ensures callingRanges == old(callingRanges) - if IdsAt(Objects(objectMap, wrappers), k) == {} then {k} else {}
      ensures callingRanges.Values <= old(callingRanges.Values)
    {
      ClearRange(k, deletePermanent);
      if callingRanges[k].Empty() {
        RemoveRange(k);
      }
    }

    /** `collectGarbage`: exactly the objects whose cell exists are left and, unless they are to be
        deleted too, the permanent ones; of the ranges, those of existing cells and those where an
        object is left. */
    method CollectGarbage(deletePermanent: bool)
      requires Valid()
      modifies this`objectMap, this`wrappers, this`callingRanges, callingRanges.Values`residents
      ensures Valid() && Shrinks(old(objectMap), old(wrappers), objectMap, wrappers)
      ensures Objects(objectMap, wrappers) == Survivors(old(Objects(objectMap, wrappers)), gone, deletePermanent)
      ensures callingRanges.Keys == RangesLeft(Objects(objectMap, wrappers), old(callingRanges.Keys), {}, gone)
      ensures callingRanges.Values <= old(callingRanges.Values)
      ensures forall x ::
                x in Objects(objectMap, wrappers) <==>
                (x in old(Objects(objectMap, wrappers)) &&
                 (old(Objects(objectMap, wrappers))[x].key !in gone ||
                  (!deletePermanent && old(Objects(objectMap, wrappers))[x].permanent)))
      ensures forall k ::
                k in callingRanges <==>
                (k in old(callingRanges) &&
                 (k !in gone || exists x :: x in Objects(objectMap, wrappers) && Objects(objectMap, wrappers)[x].key == k))
    {
      HomesInUse(objectMap, wrappers, callingRanges.Keys);
      ghost var objects, keys := Objects(objectMap, wrappers), callingRanges.Keys;
      var todo := callingRanges.Keys;
      SweepEnds(objects, keys, gone, deletePermanent);
      while todo != {}
        invariant Shrinks(old(objectMap), old(wrappers), objectMap, wrappers)
        invariant Valid() && todo <= keys && callingRanges.Values <= old(callingRanges.Values)
        invariant Objects(objectMap, wrappers) == Sweep(objects, keys, todo, gone, deletePermanent)
        invariant callingRanges.Keys == RangesLeft(Objects(objectMap, wrappers), keys, todo, gone)
        decreases |todo|
      {
        var k :| k in todo;
        SweepStep(objects, keys, todo, gone, deletePermanent, k);
        RangesLeftStep(Objects(objectMap, wrappers), keys, todo, gone, deletePermanent, k);
        ghost var om, ws := objectMap, wrappers;
        if k in gone {
          CollectRange(k, deletePermanent);
        }
        ShrinksOn(old(objectMap), old(wrappers), om, ws, objectMap, wrappers);
        todo := todo - {k};
      }
      RangesLeftMeaning(Objects(objectMap, wrappers), keys, gone);
    }

    /** A named cell is deleted from the worksheet. */
    method DeleteCell(k: string)
      requires Valid() && Issued(k, keyCount) && k != VBA
      modifies this`gone, this`lost
      ensures Valid() && gone == old(gone) + {k} && lost == old(lost) + {k}
    {
      gone, lost := gone + {k}, lost + {k};
      forall h | h in wrappers ensures LostAt(objectMap, wrappers, lost, h) {
        assert LostAt(objectMap, wrappers, old(lost), h);
      }
    }

    /** A deleted cell comes back. */
    method RestoreCell(k: string)
      requires Valid()
      modifies this`gone
      ensures Valid() && gone == old(gone) - {k}
    {
      gone := gone - {k};
    }

    /** An object is in the object map exactly when it is resident in one calling range, the one of
        its wrapper, and in no other. */
    lemma ResidentExactlyOnce(x: string)
      requires Valid()
      ensures x in objectMap ==> objectMap[x] in wrappers && wrappers[objectMap[x]].key in callingRanges
      ensures forall k :: k in callingRanges ==>
        (x in callingRanges[k].residents <==> x in objectMap && wrappers[objectMap[x]].key == k)
      ensures forall k :: k in callingRanges && x in callingRanges[k].residents ==>
        callingRanges[k].residents[x] == objectMap[x]
    {
      assert x in objectMap ==> HomedAt(objectMap, wrappers, callingRanges.Keys, x);
      forall k | k in callingRanges ensures callingRanges[k].residents == Located(objectMap, wrappers, k) {
        assert FitsAt(k, {});
      }
    }
  }
}
