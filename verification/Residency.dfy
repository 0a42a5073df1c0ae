/** The two indexes of the Excel layer as values: which wrapper each ID leads to, and which calling
    range each wrapper belongs to. A wrapper lives as long as the object map or an observer refers to
    it; wrappers are named by handles. */
module Residency {
  import opened Graphs
  import opened Ids
  import opened RangeIds
  import opened CallingRanges

  /** `id` is the ID as first stored, `key` that of the calling range, and `observables` are the
      wrappers of the precedents, which it keeps alive. */
  datatype WrapperXL = WrapperXL(id: string, idFull: string, key: string, permanent: bool, observables: set<Handle>)

  type ObjectMap = map<string, Handle>
  type Wrappers = map<Handle, WrapperXL>

  // ----- the two indexes -----

  /** The object map refers to the wrapper. */
  predicate Mapped(om: ObjectMap, ws: Wrappers, h: Handle)
    requires h in ws
  {
    Fold(ws[h].id) in om && om[Fold(ws[h].id)] == h
  }

  /** Another wrapper observes the wrapper. */
  predicate Held(ws: Wrappers, h: Handle) {
    exists w :: w in ws && h in ws[w].observables
  }

  predicate At(om: ObjectMap, ws: Wrappers, x: string, k: string) {
    x in om && om[x] in ws && ws[om[x]].key == k
  }

  /** The objects whose wrapper belongs to the calling range `k`. */
  function Located(om: ObjectMap, ws: Wrappers, k: string): map<string, Handle> {
    map x | x in om && At(om, ws, x, k) :: om[x]
  }

  datatype Info = Info(key: string, permanent: bool)

  type Catalogue = map<string, Info>

  function InfoAt(om: ObjectMap, ws: Wrappers, x: string): Info
    requires x in om && om[x] in ws
  {
    Info(ws[om[x]].key, ws[om[x]].permanent)
  }

  /** What matters of the objects in the repository. */
  function Objects(om: ObjectMap, ws: Wrappers): Catalogue {
    map x | x in om && om[x] in ws :: InfoAt(om, ws, x)
  }

  ghost predicate HomedAt(om: ObjectMap, ws: Wrappers, keys: set<string>, x: string)
    requires x in om
  {
    om[x] in ws && Fold(ws[om[x]].id) == x && ws[om[x]].key in keys && '#' !in ws[om[x]].id
  }

  /** Every object has a wrapper with its ID in one of the calling ranges. */
  ghost predicate Homed(om: ObjectMap, ws: Wrappers, keys: set<string>) {
    forall x {:trigger HomedAt(om, ws, keys, x)} :: x in om ==> HomedAt(om, ws, keys, x)
  }

  /** No object with the ID of the wrapper is in the range of the wrapper. */
  ghost predicate Apart(om: ObjectMap, ws: Wrappers, h: Handle)
    requires h in ws
  {
    !At(om, ws, Fold(ws[h].id), ws[h].key)
  }

  /** This is exactly when the destructor of a leftover wrapper, which unregisters its ID from its
      range, takes away no resident. */
  lemma ApartExactly(om: ObjectMap, ws: Wrappers, h: Handle)
    requires h in ws
    ensures Apart(om, ws, h) <==>
      Located(om, ws, ws[h].key) - {Fold(ws[h].id)} == Located(om, ws, ws[h].key)
  {
    var x, k := Fold(ws[h].id), ws[h].key;
    if At(om, ws, x, k) {
      assert x in Located(om, ws, k) && x !in Located(om, ws, k) - {x};
    }
  }

  /** A wrapper that has outlived its entry in the map has that ID and belongs to that range. */
  predicate Twin(om: ObjectMap, ws: Wrappers, x: string, k: string) {
    exists h :: h in ws && !Mapped(om, ws, h) && Fold(ws[h].id) == x && ws[h].key == k
  }

  ghost predicate LeftoversApart(om: ObjectMap, ws: Wrappers) {
    forall h {:trigger Apart(om, ws, h)} :: h in ws ==> Mapped(om, ws, h) || Apart(om, ws, h)
  }

  /** Leftover wrappers belong to cells that have been deleted at some time. */
  ghost predicate LostAt(om: ObjectMap, ws: Wrappers, lost: set<string>, h: Handle)
    requires h in ws
  {
    Mapped(om, ws, h) || ws[h].key in lost
  }

  ghost predicate LeftoversLost(om: ObjectMap, ws: Wrappers, lost: set<string>) {
    forall h {:trigger LostAt(om, ws, lost, h)} :: h in ws ==> LostAt(om, ws, lost, h)
  }

  /** A cell that has always been there has no leftovers. */
  lemma NoTwinUnlessLost(om: ObjectMap, ws: Wrappers, lost: set<string>, x: string, k: string)
    requires LeftoversLost(om, ws, lost) && k !in lost
    ensures !Twin(om, ws, x, k)
  {
    forall h | h in ws ensures LostAt(om, ws, lost, h) {}
  }

  ghost predicate ObservablesExist(ws: Wrappers) {
    forall h, o :: h in ws && o in ws[h].observables ==> o in ws
  }

  ghost predicate Owned(om: ObjectMap, ws: Wrappers, h: Handle)
    requires h in ws
  {
    Mapped(om, ws, h) || Held(ws, h)
  }

  /** Every wrapper outside `loose` has an owner. */
  ghost predicate AllOwned(om: ObjectMap, ws: Wrappers, loose: set<Handle>) {
    forall h {:trigger Owned(om, ws, h)} :: h in ws && h !in loose ==> Owned(om, ws, h)
  }

  /** The wrappers are as they should be, those in `loose` possibly having lost their last owner. */
  ghost predicate Sound(om: ObjectMap, ws: Wrappers, keys: set<string>, loose: set<Handle>) {
    Homed(om, ws, keys) && LeftoversApart(om, ws) && ObservablesExist(ws) && AllOwned(om, ws, loose)
  }

  ghost predicate Submap(a: Wrappers, b: Wrappers) {
    a.Keys <= b.Keys && forall h :: h in a ==> a[h] == b[h]
  }

  // ----- dropping a wrapper -----

  function Without(ws: Wrappers, h: Handle): Wrappers { ws - {h} }

  lemma WithoutUnmapped(om: ObjectMap, ws: Wrappers, h: Handle, k: string)
    requires forall x :: x in om ==> om[x] != h
    ensures Located(om, Without(ws, h), k) == Located(om, ws, k)
    ensures Objects(om, Without(ws, h)) == Objects(om, ws)
  {
  }

  /** As `Sound`, but for the wrapper `h`, which has just been taken out of the map. */
  ghost predicate SoundBut(om: ObjectMap, ws: Wrappers, keys: set<string>, loose: set<Handle>,
                           h: Handle) {
    && Homed(om, ws, keys) && ObservablesExist(ws) && AllOwned(om, ws, loose + {h})
    && forall d {:trigger Apart(om, ws, d)} :: d in ws && d != h ==> Mapped(om, ws, d) || Apart(om, ws, d)
  }

  lemma DropKeepsSound(om: ObjectMap, ws: Wrappers, keys: set<string>, loose: set<Handle>, h: Handle)
    requires h in ws && !Held(ws, h)
    requires forall x :: x in om ==> om[x] != h
    requires SoundBut(om, ws, keys, loose, h)
    ensures Sound(om, Without(ws, h), keys, loose + ws[h].observables)
  {
    var without := Without(ws, h);
    forall x | x in om ensures HomedAt(om, without, keys, x) {
      assert HomedAt(om, ws, keys, x);
    }
    forall d | d in without ensures Mapped(om, without, d) || Apart(om, without, d) {
      assert Mapped(om, ws, d) || Apart(om, ws, d);
      assert At(om, without, Fold(ws[d].id), ws[d].key) ==> At(om, ws, Fold(ws[d].id), ws[d].key);
    }
    forall d, o | d in without && o in without[d].observables ensures o in without {
      assert d in ws && o in ws[d].observables;
    }
    forall d | d in without && d !in loose + ws[h].observables ensures Owned(om, without, d) {
      assert Owned(om, ws, d);
      if Held(ws, d) {
        var w :| w in ws && d in ws[w].observables;
        assert w in without;
      }
    }
  }

  // ----- deleting from the map -----

  lemma RemoveKeepsSound(om: ObjectMap, ws: Wrappers, keys: set<string>, x: string)
    requires Sound(om, ws, keys, {}) && x in om
    ensures SoundBut(om - {x}, ws, keys, {}, om[x])
    ensures forall y :: y in om - {x} ==> om[y] != om[x]
  {
    var om', h := om - {x}, om[x];
    assert HomedAt(om, ws, keys, x);
    forall y | y in om' ensures HomedAt(om', ws, keys, y) && om[y] != h {
      assert HomedAt(om, ws, keys, y);
    }
    forall d | d in ws && d != h ensures Mapped(om', ws, d) || Apart(om', ws, d) {
      assert Mapped(om, ws, d) || Apart(om, ws, d);
    }
    forall d | d in ws && d !in {} + {h} ensures Owned(om', ws, d) {
      assert Owned(om, ws, d);
    }
  }

  lemma RemoveLocated(om: ObjectMap, ws: Wrappers, x: string, k: string)
    ensures Located(om - {x}, ws, k) == Located(om, ws, k) - {x}
    ensures Objects(om - {x}, ws) == Objects(om, ws) - {x}
  {
  }

  // ----- collecting -----

  /** What garbage collection keeps. */
  predicate Survives(info: Info, gone: set<string>, deletePermanent: bool) {
    info.key !in gone || (!deletePermanent && info.permanent)
  }

  function Survivors(objects: Catalogue, gone: set<string>, deletePermanent: bool): Catalogue {
    map x | x in objects && Survives(objects[x], gone, deletePermanent) :: objects[x]
  }

  /** The objects left when the ranges in `swept` have been dealt with. */
  function Collected(objects: Catalogue, swept: set<string>, gone: set<string>, deletePermanent: bool): Catalogue {
    map x | x in objects && (objects[x].key !in swept || Survives(objects[x], gone, deletePermanent)) :: objects[x]
  }

  function IdsAt(objects: Catalogue, k: string): set<string> {
    set x | x in objects && objects[x].key == k
  }

  lemma LocatedIds(om: ObjectMap, ws: Wrappers, k: string)
    ensures IdsAt(Objects(om, ws), k) == Located(om, ws, k).Keys
    ensures forall x :: x in Located(om, ws, k) ==> Objects(om, ws)[x] == Info(k, ws[om[x]].permanent)
  {
  }

  /** The objects left when those of `done` have been dealt with. */
  function Cleared(objects: Catalogue, done: set<string>, deletePermanent: bool): Catalogue {
    map x | x in objects && (x !in done || (!deletePermanent && objects[x].permanent)) :: objects[x]
  }

  /** The objects left while those of `todo`, all in range `k`, have yet to be dealt with. */
  function Left(objects: Catalogue, k: string, todo: set<string>, deletePermanent: bool): Catalogue {
    Cleared(objects, IdsAt(objects, k) - todo, deletePermanent)
  }

  lemma LeftStep(objects: Catalogue, k: string, todo: set<string>, deletePermanent: bool, x: string)
    requires x in todo && todo <= IdsAt(objects, k)
    ensures x in IdsAt(Left(objects, k, todo, deletePermanent), k)
    ensures Left(objects, k, todo, deletePermanent)[x] == objects[x]
    ensures Left(objects, k, todo - {x}, deletePermanent) ==
            if !deletePermanent && objects[x].permanent then Left(objects, k, todo, deletePermanent)
            else Left(objects, k, todo, deletePermanent) - {x}
  {
  }

  lemma LeftKeeps(objects: Catalogue, k: string, todo: set<string>, deletePermanent: bool)
    requires todo <= IdsAt(objects, k)
    ensures todo <= IdsAt(Left(objects, k, todo, deletePermanent), k)
  {
  }

  lemma LeftEnds(objects: Catalogue, k: string, deletePermanent: bool)
    ensures Left(objects, k, IdsAt(objects, k), deletePermanent) == objects
    ensures Left(objects, k, {}, deletePermanent) == Cleared(objects, IdsAt(objects, k), deletePermanent)
    ensures deletePermanent ==> IdsAt(Left(objects, k, {}, deletePermanent), k) == {}
  {
    assert IdsAt(objects, k) - {} == IdsAt(objects, k);
  }

  /** Clearing the ranges that have gone, one after the other. */
  lemma CollectedStep(objects: Catalogue, swept: set<string>, gone: set<string>, deletePermanent: bool, k: string)
    requires k !in swept
    ensures Collected(objects, swept + {k}, gone, deletePermanent) ==
            if k in gone then Cleared(Collected(objects, swept, gone, deletePermanent),
                                      IdsAt(Collected(objects, swept, gone, deletePermanent), k), deletePermanent)
            else Collected(objects, swept, gone, deletePermanent)
  {
  }

  /** The objects left while the ranges in `todo` have yet to be dealt with. */
  function Sweep(objects: Catalogue, keys: set<string>, todo: set<string>, gone: set<string>,
                 deletePermanent: bool): Catalogue {
    Collected(objects, keys - todo, gone, deletePermanent)
  }

  lemma SweepStep(objects: Catalogue, keys: set<string>, todo: set<string>, gone: set<string>,
                  deletePermanent: bool, k: string)
    requires k in todo && todo <= keys
    ensures var now := Sweep(objects, keys, todo, gone, deletePermanent);
      Sweep(objects, keys, todo - {k}, gone, deletePermanent) ==
      if k in gone then Cleared(now, IdsAt(now, k), deletePermanent) else now
  {
    CollectedStep(objects, keys - todo, gone, deletePermanent, k);
    assert keys - (todo - {k}) == keys - todo + {k};
  }

  lemma SweepEnds(objects: Catalogue, keys: set<string>, gone: set<string>, deletePermanent: bool)
    requires forall x :: x in objects ==> objects[x].key in keys
    ensures Sweep(objects, keys, keys, gone, deletePermanent) == objects
    ensures Sweep(objects, keys, {}, gone, deletePermanent) == Survivors(objects, gone, deletePermanent)
    ensures RangesLeft(objects, keys, keys, gone) == keys
  {
    assert keys - {} == keys;
  }

  lemma HomesInUse(om: ObjectMap, ws: Wrappers, keys: set<string>)
    requires Homed(om, ws, keys)
    ensures forall x :: x in Objects(om, ws) ==> Objects(om, ws)[x].key in keys
  {
    forall x | x in Objects(om, ws) ensures Objects(om, ws)[x].key in keys {
      assert HomedAt(om, ws, keys, x);
    }
  }

  /** The ranges of existing cells, those with objects, and those not yet looked at. */
  function RangesLeft(objects: Catalogue, keys: set<string>, todo: set<string>, gone: set<string>): set<string> {
    set k | k in keys && (k in todo || k !in gone || IdsAt(objects, k) != {})
  }

  lemma RangesLeftMeaning(objects: Catalogue, keys: set<string>, gone: set<string>)
    ensures forall k :: k in RangesLeft(objects, keys, {}, gone) <==>
      k in keys && (k !in gone || exists x :: x in objects && objects[x].key == k)
  {
    forall k ensures IdsAt(objects, k) != {} <==> exists x :: x in objects && objects[x].key == k {
      if x :| x in objects && objects[x].key == k {
        assert x in IdsAt(objects, k);
      }
    }
  }

  lemma RangesLeftStep(objects: Catalogue, keys: set<string>, todo: set<string>, gone: set<string>,
                       deletePermanent: bool, k: string)
    requires k in todo && todo <= keys
    ensures k in RangesLeft(objects, keys, todo, gone)
    ensures k !in gone ==> RangesLeft(objects, keys, todo - {k}, gone) == RangesLeft(objects, keys, todo, gone)
    ensures k in gone ==>
      (var cleared := Cleared(objects, IdsAt(objects, k), deletePermanent);
       RangesLeft(cleared, keys, todo - {k}, gone) ==
       RangesLeft(objects, keys, todo, gone) - if IdsAt(cleared, k) == {} then {k} else {})
  {
    var cleared := Cleared(objects, IdsAt(objects, k), deletePermanent);
    forall j | j != k ensures IdsAt(cleared, j) == IdsAt(objects, j) {
    }
  }

  // ----- adding and updating wrappers -----

  lemma InsertKeepsHomed(om: ObjectMap, ws: Wrappers, keys: set<string>, h: Handle, w: WrapperXL)
    requires Homed(om, ws, keys) && h !in ws && Fold(w.id) !in om && '#' !in w.id && w.key in keys
    ensures Homed(om[Fold(w.id) := h], ws[h := w], keys)
  {
    var om', ws' := om[Fold(w.id) := h], ws[h := w];
    forall y | y in om' ensures HomedAt(om', ws', keys, y) {
      assert y in om ==> HomedAt(om, ws, keys, y);
    }
  }

  /** A new object leaves the leftovers harmless exactly when none of them is its twin. */
  lemma InsertApartIff(om: ObjectMap, ws: Wrappers, keys: set<string>, h: Handle, w: WrapperXL)
    requires Homed(om, ws, keys) && LeftoversApart(om, ws) && h !in ws && Fold(w.id) !in om
    ensures LeftoversApart(om[Fold(w.id) := h], ws[h := w]) <==> !Twin(om, ws, Fold(w.id), w.key)
  {
    var om', ws' := om[Fold(w.id) := h], ws[h := w];
    if Twin(om, ws, Fold(w.id), w.key) {
      var d :| d in ws && !Mapped(om, ws, d) && Fold(ws[d].id) == Fold(w.id) && ws[d].key == w.key;
      assert !Mapped(om', ws', d) && !Apart(om', ws', d);
    } else {
      forall d | d in ws' ensures Mapped(om', ws', d) || Apart(om', ws', d) {
        assert d in ws ==> Mapped(om, ws, d) || Apart(om, ws, d);
        assert Fold(ws'[d].id) in om ==> HomedAt(om, ws, keys, Fold(ws'[d].id));
      }
    }
  }

  lemma HeldStays(ws: Wrappers, h: Handle, w: WrapperXL, d: Handle)
    requires Held(ws, d) && (h in ws ==> ws[h].observables <= w.observables)
    ensures Held(ws[h := w], d)
  {
    var v :| v in ws && d in ws[v].observables;
    assert v in ws[h := w] && d in ws[h := w][v].observables;
  }

  lemma InsertKeepsOwned(om: ObjectMap, ws: Wrappers, h: Handle, w: WrapperXL)
    requires ObservablesExist(ws) && AllOwned(om, ws, {}) && h !in ws && Fold(w.id) !in om && w.observables == {}
    ensures ObservablesExist(ws[h := w]) && AllOwned(om[Fold(w.id) := h], ws[h := w], {})
  {
    var om', ws' := om[Fold(w.id) := h], ws[h := w];
    forall d | d in ws' ensures Owned(om', ws', d) {
      if d in ws {
        assert Owned(om, ws, d);
        if Held(ws, d) { HeldStays(ws, h, w, d); }
      }
    }
  }

  lemma InsertLocated(om: ObjectMap, ws: Wrappers, h: Handle, w: WrapperXL, keys: set<string>, k: string)
    requires Homed(om, ws, keys) && h !in ws && Fold(w.id) !in om
    ensures Located(om[Fold(w.id) := h], ws[h := w], k) ==
            if k == w.key then Located(om, ws, k)[Fold(w.id) := h] else Located(om, ws, k)
  {
    assert forall y :: y in om ==> HomedAt(om, ws, keys, y);
  }

  lemma InsertObjects(om: ObjectMap, ws: Wrappers, h: Handle, w: WrapperXL, keys: set<string>)
    requires Homed(om, ws, keys) && h !in ws && Fold(w.id) !in om
    ensures Objects(om[Fold(w.id) := h], ws[h := w]) == Objects(om, ws)[Fold(w.id) := Info(w.key, w.permanent)]
  {
    assert forall y :: y in om ==> HomedAt(om, ws, keys, y);
  }

  /** The same for an object that moves to another range. */
  lemma UpdateApartIff(om: ObjectMap, ws: Wrappers, keys: set<string>, h: Handle, w: WrapperXL)
    requires Homed(om, ws, keys) && LeftoversApart(om, ws) && h in ws && Mapped(om, ws, h) && w.id == ws[h].id
    ensures LeftoversApart(om, ws[h := w]) <==> !Twin(om, ws, Fold(w.id), w.key)
  {
    var ws' := ws[h := w];
    if Twin(om, ws, Fold(w.id), w.key) {
      var d :| d in ws && !Mapped(om, ws, d) && Fold(ws[d].id) == Fold(w.id) && ws[d].key == w.key;
      assert !Mapped(om, ws', d) && !Apart(om, ws', d);
    } else {
      forall d | d in ws' ensures Mapped(om, ws', d) || Apart(om, ws', d) {
        assert Mapped(om, ws, d) || Apart(om, ws, d);
        assert Fold(ws[d].id) in om ==> HomedAt(om, ws, keys, Fold(ws[d].id));
      }
    }
  }

  lemma AlreadyThere(om: ObjectMap, ws: Wrappers, x: string, k: string)
    requires LeftoversApart(om, ws) && At(om, ws, x, k)
    ensures !Twin(om, ws, x, k)
  {
    forall h | h in ws && !Mapped(om, ws, h) && Fold(ws[h].id) == x && ws[h].key == k ensures Apart(om, ws, h) {
      assert Mapped(om, ws, h) || Apart(om, ws, h);
    }
  }

  /** Replacing the wrapper of an object by one with the same ID. */
  lemma UpdateKeepsSound(om: ObjectMap, ws: Wrappers, keys: set<string>, h: Handle, w: WrapperXL)
    requires Sound(om, ws, keys, {}) && h in ws && Mapped(om, ws, h)
    requires w.id == ws[h].id && w.observables == ws[h].observables
    requires w.key in keys && !Twin(om, ws, Fold(w.id), w.key)
    ensures Sound(om, ws[h := w], keys, {})
  {
    var ws' := ws[h := w];
    forall y | y in om ensures HomedAt(om, ws', keys, y) {
      assert HomedAt(om, ws, keys, y);
    }
    UpdateApartIff(om, ws, keys, h, w);
    forall d, o | d in ws' && o in ws'[d].observables ensures o in ws' {
      assert o in ws[d].observables;
    }
    forall d | d in ws' ensures Owned(om, ws', d) {
      assert Owned(om, ws, d);
      if Held(ws, d) { HeldStays(ws, h, w, d); }
    }
  }

  lemma UpdateLocated(om: ObjectMap, ws: Wrappers, h: Handle, w: WrapperXL, keys: set<string>, k: string)
    requires Homed(om, ws, keys) && h in ws && Mapped(om, ws, h) && w.id == ws[h].id
    ensures Located(om, ws[h := w], k) ==
            if k == w.key then Located(om, ws, k)[Fold(w.id) := h]
            else Located(om, ws, k) - {Fold(w.id)}
  {
    assert forall y :: y in om ==> HomedAt(om, ws, keys, y);
  }

  lemma UpdateObjects(om: ObjectMap, ws: Wrappers, h: Handle, w: WrapperXL, keys: set<string>)
    requires Homed(om, ws, keys) && h in ws && Mapped(om, ws, h) && w.id == ws[h].id
    ensures Objects(om, ws[h := w]) == Objects(om, ws)[Fold(w.id) := Info(w.key, w.permanent)]
  {
    assert forall y :: y in om ==> HomedAt(om, ws, keys, y);
  }

  // ----- observing -----

  function Rewired(ws: Wrappers, h: Handle, observables: set<Handle>): Wrappers
    requires h in ws
  {
    ws[h := ws[h].(observables := observables)]
  }

  lemma RewiredLocated(om: ObjectMap, ws: Wrappers, h: Handle, observables: set<Handle>, k: string)
    requires h in ws
    ensures Located(om, Rewired(ws, h, observables), k) == Located(om, ws, k)
    ensures Objects(om, Rewired(ws, h, observables)) == Objects(om, ws)
  {
  }

  lemma RewireKeepsHomed(om: ObjectMap, ws: Wrappers, keys: set<string>,
                         h: Handle, observables: set<Handle>)
    requires h in ws && Homed(om, ws, keys) && LeftoversApart(om, ws)
    ensures Homed(om, Rewired(ws, h, observables), keys) && LeftoversApart(om, Rewired(ws, h, observables))
  {
    var ws' := Rewired(ws, h, observables);
    forall x | x in om ensures HomedAt(om, ws', keys, x) {
      assert HomedAt(om, ws, keys, x);
    }
    forall d | d in ws' ensures Mapped(om, ws', d) || Apart(om, ws', d) {
      assert Mapped(om, ws, d) || Apart(om, ws, d);
    }
  }

  /** What is no longer observed may have lost its last owner. */
  lemma RewireKeepsOwned(om: ObjectMap, ws: Wrappers, h: Handle, observables: set<Handle>)
    requires h in ws && ObservablesExist(ws) && AllOwned(om, ws, {}) && observables <= ws.Keys
    ensures ObservablesExist(Rewired(ws, h, observables))
    ensures AllOwned(om, Rewired(ws, h, observables), ws[h].observables - observables)
  {
    var ws' := Rewired(ws, h, observables);
    forall d | d in ws' && d !in ws[h].observables - observables ensures Owned(om, ws', d) {
      assert Owned(om, ws, d);
      if Held(ws, d) {
        var v :| v in ws && d in ws[v].observables;
        assert v in ws' && d in ws'[v].observables;
      }
    }
  }

  lemma MappedStays(om: ObjectMap, before: Wrappers, after: Wrappers, keys: set<string>, h: Handle)
    requires h in before && Mapped(om, before, h) && Submap(after, before) && Homed(om, after, keys)
    ensures h in after && after[h] == before[h]
  {
    assert HomedAt(om, after, keys, Fold(before[h].id));
  }

  /** All wrappers but `h` are as before; some may be gone. */
  ghost predicate OthersKept(before: Wrappers, after: Wrappers, h: Handle) {
    forall w {:trigger after[w]} :: w in after && w != h ==> w in before && after[w] == before[w]
  }

  lemma OthersKeptOn(a: Wrappers, b: Wrappers, c: Wrappers, h: Handle)
    requires OthersKept(a, b, h) && OthersKept(b, c, h)
    ensures OthersKept(a, c, h)
  {
  }

  // ----- leftovers of deleted cells -----

  lemma InsertKeepsLost(om: ObjectMap, ws: Wrappers, lost: set<string>, h: Handle, w: WrapperXL)
    requires LeftoversLost(om, ws, lost) && h !in ws && Fold(w.id) !in om
    ensures LeftoversLost(om[Fold(w.id) := h], ws[h := w], lost)
  {
    var om', ws' := om[Fold(w.id) := h], ws[h := w];
    forall d | d in ws' ensures LostAt(om', ws', lost, d) {
      assert d in ws ==> LostAt(om, ws, lost, d);
    }
  }

  /** When only an object's own wrapper changes, and others go, there are no new leftovers. */
  lemma KeepsLost(om: ObjectMap, before: Wrappers, after: Wrappers, lost: set<string>, h: Handle)
    requires LeftoversLost(om, before, lost) && OthersKept(before, after, h) && h in after && Mapped(om, after, h)
    ensures LeftoversLost(om, after, lost)
  {
    forall d | d in after ensures LostAt(om, after, lost, d) {
      if d != h {
        assert after[d] == before[d];
        assert LostAt(om, before, lost, d);
      }
    }
  }

  /** Objects and wrappers have only gone. */
  ghost predicate Shrinks(om: ObjectMap, ws: Wrappers, om': ObjectMap, ws': Wrappers) {
    om'.Keys <= om.Keys && (forall x :: x in om' ==> om'[x] == om[x]) && Submap(ws', ws)
  }

  lemma ShrinksOn(om: ObjectMap, ws: Wrappers, om': ObjectMap, ws': Wrappers, om'': ObjectMap, ws'': Wrappers)
    requires Shrinks(om, ws, om', ws') && Shrinks(om', ws', om'', ws'')
    ensures Shrinks(om, ws, om'', ws'')
  {
  }

  lemma ShrunkObjects(om: ObjectMap, om': ObjectMap, ws: Wrappers, ws': Wrappers, keys: set<string>)
    requires Shrinks(om, ws, om', ws') && Homed(om', ws', keys)
    ensures Objects(om', ws') == Objects(om, ws) - (om.Keys - om'.Keys)
  {
    forall x | x in om' ensures om'[x] in ws' && ws'[om'[x]] == ws[om[x]] {
      assert HomedAt(om', ws', keys, x);
    }
  }

  /** The objects taken out of the map either lose their wrapper or were in a deleted cell. */
  lemma ShrinkKeepsLost(om: ObjectMap, om': ObjectMap, ws: Wrappers, ws': Wrappers, lost: set<string>)
    requires LeftoversLost(om, ws, lost) && Shrinks(om, ws, om', ws')
    requires forall x :: x in om && x !in om' && om[x] in ws' ==> ws'[om[x]].key in lost
    ensures LeftoversLost(om', ws', lost)
  {
    forall d | d in ws' ensures LostAt(om', ws', lost, d) {
      assert LostAt(om, ws, lost, d);
    }
  }

  lemma EraseKeepsLost(om: ObjectMap, ws: Wrappers, ws': Wrappers, lost: set<string>, x: string)
    requires LeftoversLost(om, ws, lost) && x in om && Submap(ws', ws) && om[x] !in ws'
    ensures LeftoversLost(om - {x}, ws', lost)
  {
    ShrinkKeepsLost(om, om - {x}, ws, ws', lost);
  }

  lemma CollectKeepsLost(om: ObjectMap, om': ObjectMap, ws: Wrappers, ws': Wrappers, keys: set<string>, lost: set<string>,
                         k: string, deletePermanent: bool)
    requires LeftoversLost(om, ws, lost) && Shrinks(om, ws, om', ws') && k in lost && Homed(om', ws', keys)
    requires Objects(om', ws') == Cleared(Objects(om, ws), IdsAt(Objects(om, ws), k), deletePermanent)
    ensures LeftoversLost(om', ws', lost)
  {
    forall x | x in om && x !in om' && om[x] in ws' ensures ws'[om[x]].key in lost {
      assert x in Objects(om, ws) && x !in Objects(om', ws');
    }
    ShrinkKeepsLost(om, om', ws, ws', lost);
  }

  // ----- notification -----

  /** Edges lead from a wrapper to its observers. */
  function Observers(ws: Wrappers): Graph<Handle> {
    map o | o in ws :: ObserversOf(ws, o)
  }

  function ObserversOf(ws: Wrappers, o: Handle): set<Handle> {
    set w | w in ws && o in ws[w].observables
  }

  /** Edges lead from a wrapper to the wrappers it observes. */
  function Observables(ws: Wrappers): Graph<Handle> {
    map w | w in ws :: ws[w].observables
  }

  lemma ObserversReverse(ws: Wrappers)
    requires ObservablesExist(ws)
    ensures Reversed(Observables(ws), Observers(ws))
  {
    forall w, o ensures o in Succ(Observables(ws), w) <==> w in Succ(Observers(ws), o) {
    }
  }

  /** In terms of what each wrapper observes: a notification from `h` reaches the wrappers that depend
      on it, directly or not, and it ends exactly when none of them, and not `h` itself, depends on
      itself. */
  lemma NotifiedMeaning(ws: Wrappers, h: Handle)
    requires ObservablesExist(ws)
    ensures forall w :: w in Notified(ws, h) <==> w in ws && ReachesProperly(Observables(ws), w, h)
    ensures Terminates(Observers(ws), h) <==>
      forall w :: Reaches(Observables(ws), w, h) ==> !ReachesProperly(Observables(ws), w, w)
  {
    ObserversReverse(ws);
    forall w, v ensures ReachesProperly(Observables(ws), w, v) <==> ReachesProperly(Observers(ws), v, w)
                ensures Reaches(Observables(ws), w, v) <==> Reaches(Observers(ws), v, w)
    {
      ReachesReversed(Observables(ws), Observers(ws), w, v);
    }
    TerminatesIffNoReachableCycle(Observers(ws), h);
  }

  /** The wrappers that a notification from `h` reaches. */
  ghost function Notified(ws: Wrappers, h: Handle): set<Handle> {
    set w | w in ws && ReachesProperly(Observers(ws), h, w)
  }

  ghost function ReachedFromAny(ws: Wrappers, os: set<Handle>): set<Handle> {
    set w | w in ws && exists o :: o in os && Reaches(Observers(ws), o, w)
  }

  lemma ReachedFromOneMore(ws: Wrappers, os: set<Handle>, o: Handle)
    requires o in ws
    ensures ReachedFromAny(ws, os + {o}) == ReachedFromAny(ws, os) + Notified(ws, o) + {o}
  {
    forall w | w in ws
      ensures w in ReachedFromAny(ws, os + {o}) <==> w in ReachedFromAny(ws, os) || w in Notified(ws, o) || w == o
    {
      ReachesSplit(Observers(ws), o, w);
      if p :| p in os && Reaches(Observers(ws), p, w) {
        assert p in os + {o};
      }
      assert o in os + {o};
    }
  }

  lemma NotifiedThroughObservers(ws: Wrappers, h: Handle)
    requires h in ws
    ensures ReachedFromAny(ws, ObserversOf(ws, h)) == Notified(ws, h)
  {
    var g := Observers(ws);
    forall w | w in ws ensures w in ReachedFromAny(ws, ObserversOf(ws, h)) <==> w in Notified(ws, h) {
      if o :| o in ObserversOf(ws, h) && Reaches(g, o, w) {
        assert o in Succ(g, h);
        ReachesEdge(g, h, o, w);
      }
      if ReachesProperly(g, h, w) {
        var o := ProperFirstEdge(g, h, w);
      }
    }
  }

  lemma ObserverCompletes(ws: Wrappers, h: Handle, o: Handle, n: nat)
    requires h in ws && Completes(Observers(ws), h, n) && o in ObserversOf(ws, h)
    ensures n > 0 && o in ws && Completes(Observers(ws), o, n - 1)
  {
    assert o in Succ(Observers(ws), h);
  }

  lemma NotifiedOneMore(ws: Wrappers, dirty: set<Handle>, done: set<Handle>, o: Handle)
    requires o in ws
    ensures dirty + ReachedFromAny(ws, done) + Notified(ws, o) + {o} == dirty + ReachedFromAny(ws, done + {o})
  {
    ReachedFromOneMore(ws, done, o);
  }

  lemma NoneNotified(ws: Wrappers)
    ensures ReachedFromAny(ws, {}) == {}
  {
  }

  /** Who observes whom does not depend on keys, flags or IDs. */
  lemma SameObservers(ws: Wrappers, h: Handle, w: WrapperXL)
    requires h in ws && w.observables == ws[h].observables
    ensures Observers(ws[h := w]) == Observers(ws) && Notified(ws[h := w], h) == Notified(ws, h)
  {
    forall o | o in ws ensures ObserversOf(ws[h := w], o) == ObserversOf(ws, o) {}
  }

  /** The wrappers of the objects that an object names as its precedents. */
  function PrecedentHandles(om: ObjectMap, precedents: seq<string>): set<Handle>
    requires AllKnown(om, precedents)
  {
    set p | p in precedents :: om[Fold(GetStub(p))]
  }

  predicate Known(om: ObjectMap, id: string) { Fold(GetStub(id)) in om }

  /** A precedent may be named as it is shown, with its counter: what counts is the ID. */
  lemma KnownAsShown(om: ObjectMap, cell: bool, id: string, issued: nat)
    requires '#' !in id
    ensures Known(om, ShownId(cell, id, issued)) <==> Fold(id) in om
  {
    StubOfFull(id, issued);
  }

  /** How far a registration got: `done` precedents are observed, and the next, if any, is unknown. */
  ghost predicate RegisteredTo(om: ObjectMap, precedents: seq<string>, observables: set<Handle>, done: nat) {
    && done <= |precedents| && AllKnown(om, precedents[..done])
    && observables == PrecedentHandles(om, precedents[..done])
    && (done < |precedents| ==> !Known(om, precedents[done]))
  }

  predicate AllKnown(om: ObjectMap, precedents: seq<string>) {
    forall p :: p in precedents ==> Known(om, p)
  }

  lemma OneMorePrecedent(om: ObjectMap, precedents: seq<string>, i: nat)
    requires i < |precedents| && AllKnown(om, precedents[..i]) && Known(om, precedents[i])
    ensures AllKnown(om, precedents[..i + 1])
    ensures PrecedentHandles(om, precedents[..i + 1]) ==
            PrecedentHandles(om, precedents[..i]) + {om[Fold(GetStub(precedents[i]))]}
  {
    assert precedents[..i + 1] == precedents[..i] + [precedents[i]];
  }

  /** Residents against the objects located in a range; while a range is being cleared some of its
      residents may already be gone. */
  ghost predicate Fits(residents: map<string, Handle>, located: map<string, Handle>, clearing: bool) {
    if clearing then forall x :: x in located ==> x in residents && residents[x] == located[x]
    else residents == located
  }

  lemma FitsWithout(residents: map<string, Handle>, located: map<string, Handle>, clearing: bool, x: string)
    requires Fits(residents, located, clearing) && x !in located
    ensures Fits(residents - {x}, located, clearing)
  {
  }

  // ----- calls -----

  /** Where a call comes from: VBA, a cell not yet named, or a named cell. */
  datatype Caller = FromVba | FromNewCell | FromCell(key: string)

  datatype XLObject = XLObject(permanent: bool, precedents: seq<string>)

  datatype Outcome =
    | Stored(idFull: string)
    | NoRange
    | InvalidId
    | ResidesElsewhere(key: string)
    | UnknownPrecedent(id: string, at: nat)

  /** The object has been entered, though a precedent may be unknown. */
  predicate Entered(r: Outcome) { r.Stored? || r.UnknownPrecedent? }

  ghost predicate Issued(k: string, n: nat) {
    exists i: nat :: i < n && k == Key(i)
  }

  lemma NextKeyIsNew(n: nat)
    requires n < KEY_MAX
    ensures !Issued(Key(n), n) && Issued(Key(n), n + 1) && Key(n) != VBA
    ensures forall k :: Issued(k, n) ==> Issued(k, n + 1)
  {
    forall i: nat | i < n ensures Key(i) != Key(n) {
      KeysDistinct(i, n);
    }
    KeysDistinct(n, n);
    assert n < n + 1 && Key(n) == Key(n);
  }

  /** `initializeID` never lets the counter delimiter in. */
  lemma InitializedHasNoHash(key: string, n: nat, id: string)
    requires n <= KEY_MAX && (key == VBA || Issued(key, n)) && InitializeId(key != VBA, key, id).Some?
    ensures '#' !in InitializeId(key != VBA, key, id).value
  {
    if id == "" {
      var i: nat :| i < n && key == Key(i);
      KeysDistinct(i, i);
    }
  }

  /** The key of the range that a call comes from. */
  function CallerKey(caller: Caller, keyCount: nat): string {
    match caller
    case FromVba => VBA
    case FromNewCell => Key(keyCount)
    case FromCell(key) => key
  }

  /** A named cell whose range is unknown, or a new cell that cannot be named. */
  predicate Unavailable(caller: Caller, named: bool, keyCount: nat, keys: set<string>) {
    (caller.FromCell? && caller.key !in keys) || (caller.FromNewCell? && (keyCount == KEY_MAX || !named))
  }

  /** The object with that ID is in another range, and may not be overwritten. */
  predicate Blocked(objects: Catalogue, x: string, key: string, overwrite: bool) {
    x in objects && objects[x].key != key && !overwrite
  }

  /** The folded ID that a store from the range `key` is about, if the ID is valid. */
  function TargetId(key: string, idRaw: string): string {
    var id := InitializeId(key != VBA, key, idRaw);
    if id.Some? then Fold(id.value) else ""
  }

  predicate ValidId(key: string, idRaw: string) {
    InitializeId(key != VBA, key, idRaw).Some?
  }

  /** What a store from the range `key` does to the objects, and when it fails. An object whose
      precedents are unknown has been entered all the same. */
  ghost predicate StoreSpec(before: Catalogue, after: Catalogue, key: string,
                            idRaw: string, permanent: bool, overwrite: bool, r: Outcome) {
    if !ValidId(key, idRaw) then r.InvalidId? && after == before
    else
      var x := TargetId(key, idRaw);
      if Blocked(before, x, key, overwrite) then r == ResidesElsewhere(before[x].key) && after == before
      else
        && after == before[x := Info(key, permanent)]
        && (r.Stored? || r.UnknownPrecedent?) && (r.Stored? ==> Fold(GetStub(r.idFull)) == x)
  }

  /** Case by case: an ID that a user may not give is refused, and so is a missing one from VBA; an
      object of another range is not taken without leave; everything else is entered under the ID,
      ignoring case, in the range of the caller. */
  lemma StoreSpecMeaning(before: Catalogue, after: Catalogue, key: string,
                         id: string, permanent: bool, overwrite: bool, r: Outcome)
    requires StoreSpec(before, after, key, id, permanent, overwrite, r)
    ensures (if id == "" then key == "VBA" else !Accepted(id)) ==> r == InvalidId && after == before
    ensures id != "" && Accepted(id) ==>
      if Fold(id) in before && before[Fold(id)].key != key && !overwrite
      then r == ResidesElsewhere(before[Fold(id)].key) && after == before
      else after == before[Fold(id) := Info(key, permanent)] && (r.Stored? || r.UnknownPrecedent?)
  {
  }
}
