/** Stored objects, and the wrappers that hold them: each wrapper is an observer of the
    wrappers of its precedents and an observable for the wrappers of its dependents. */
module Observing {
  import opened Graphs

  /** A snapshot of the arguments an object is constructed from. The precedents are held as the
      repository looks them up: by folded ID. */
  datatype ValueObject = ValueObject(
    objectId: string,
    className: string,
    permanent: bool,
    properties: map<string, string>,
    precedents: set<string>)

  datatype Object<V> = Object(properties: ValueObject, value: V)

  /** Every two wrappers agree on whether one observes the other, and only live wrappers are
      linked: no observer pointer refers to a destroyed observer, and no observed wrapper is
      destroyed while an observer shares its ownership. */
  ghost predicate Linked<V(!new)>(ws: set<ObjectWrapper<V>>)
    reads ws`observers, ws`observables, ws`alive
  {
    && (forall w {:trigger w in ws} :: w in ws ==> w.observers <= ws && w.observables <= ws)
    && (forall a, b {:trigger a in b.observers} {:trigger b in a.observables} ::
          a in ws && b in ws ==> (a in b.observers <==> b in a.observables))
    && (forall a, b {:trigger b in a.observables} :: a in ws && b in ws && b in a.observables ==> a.alive && b.alive)
  }

  /** The map leads to exactly the wrappers `ws`, each under its own ID. */
  ghost predicate Indexes<V(!new)>(m: map<string, ObjectWrapper<V>>, ws: set<ObjectWrapper<V>>) {
    && (forall x {:trigger m[x]} :: x in m ==> m[x] in ws && m[x].id == x)
    && (forall w {:trigger w in ws} :: w in ws ==> w.id in m && m[w.id] == w)
  }

  /** The links among `ws` are the edges of `g` between their IDs: `a` observes `b` exactly
      when `g` leads from the one ID to the other. */
  ghost predicate Follows<V(!new)>(ws: set<ObjectWrapper<V>>, g: Graph<string>)
    reads ws`observers
  {
    && (forall w {:trigger w in ws} :: w in ws ==> w.observers <= ws)
    && (forall a, b {:trigger a in b.observers} {:trigger b.id in Succ(g, a.id)} ::
          a in ws && b in ws ==> (a in b.observers <==> b.id in Succ(g, a.id)))
  }

  ghost function Dirty<V(!new)>(ws: set<ObjectWrapper<V>>): set<ObjectWrapper<V>>
    reads ws`dirty
  {
    set w | w in ws && w.dirty
  }

  /** The wrappers whose ID leads to `y`. */
  ghost function Dependents<V(!new)>(g: Graph<string>, ws: set<ObjectWrapper<V>>, y: string): set<ObjectWrapper<V>> {
    set w | w in ws && Reaches(g, w.id, y)
  }

  ghost function ProperDependents<V(!new)>(g: Graph<string>, ws: set<ObjectWrapper<V>>, y: string): set<ObjectWrapper<V>> {
    set w | w in ws && ReachesProperly(g, w.id, y)
  }

  ghost function DependentsOfAny<V(!new)>(g: Graph<string>, ws: set<ObjectWrapper<V>>, os: set<ObjectWrapper<V>>)
    : set<ObjectWrapper<V>>
  {
    set w | w in ws && exists o :: o in os && Reaches(g, w.id, o.id)
  }

  lemma DependentsOfNone<V(!new)>(g: Graph<string>, ws: set<ObjectWrapper<V>>, os: set<ObjectWrapper<V>>)
    requires os == {}
    ensures DependentsOfAny(g, ws, os) == {}
  {
  }

  lemma DependentsOfOneMore<V(!new)>(
    g: Graph<string>, ws: set<ObjectWrapper<V>>, os: set<ObjectWrapper<V>>, rest: set<ObjectWrapper<V>>, o: ObjectWrapper<V>)
    requires o in rest && rest <= os
    ensures DependentsOfAny(g, ws, os - (rest - {o})) == DependentsOfAny(g, ws, os - rest) + Dependents(g, ws, o.id)
  {
    forall w | w in ws
      ensures w in DependentsOfAny(g, ws, os - (rest - {o}))
         <==> w in DependentsOfAny(g, ws, os - rest) || w in Dependents(g, ws, o.id)
    {
      if p :| p in os - rest && Reaches(g, w.id, p.id) {
        assert p in os - (rest - {o});
      }
      assert o in os - (rest - {o});
    }
  }

  lemma UnionAssociative<T>(a: set<T>, b: set<T>, c: set<T>)
    ensures a + b + c == a + (b + c)
  {
  }

  lemma DependentsSplit<V(!new)>(
    g: Graph<string>, m: map<string, ObjectWrapper<V>>, ws: set<ObjectWrapper<V>>, w: ObjectWrapper<V>)
    requires w in ws && Indexes(m, ws)
    ensures Dependents(g, ws, w.id) == ProperDependents(g, ws, w.id) + {w}
  {
    forall a | a in ws ensures Reaches(g, a.id, w.id) <==> a == w || ReachesProperly(g, a.id, w.id) {
      ReachesSplit(g, a.id, w.id);
    }
  }

  /** The proper dependents of a wrapper are the dependents of its observers. */
  lemma DependentsThroughObservers<V(!new)>(
    g: Graph<string>, m: map<string, ObjectWrapper<V>>, ws: set<ObjectWrapper<V>>, b: ObjectWrapper<V>)
    requires b in ws && Indexes(m, ws) && Follows(ws, g) && Closed(m.Keys, g)
    ensures DependentsOfAny(g, ws, b.observers) == ProperDependents(g, ws, b.id)
  {
    forall a | a in ws
      ensures (exists o :: o in b.observers && Reaches(g, a.id, o.id)) <==> ReachesProperly(g, a.id, b.id)
    {
      ReachesByLastEdge(g, a.id, b.id);
      if y :| Reaches(g, a.id, y) && b.id in Succ(g, y) {
        var n: nat :| Steps(g, a.id, y, n);
        StaysWithin(m.Keys, g, a.id, y, n);
        assert m[y] in b.observers;
      }
    }
  }

  class ObjectWrapper<V(!new)> {
    ghost const id: string
    ghost var alive: bool
    var obj: Object<V>
    var dirty: bool
    var observers: set<ObjectWrapper<V>>
    var observables: set<ObjectWrapper<V>>

    constructor (ghost id: string, obj: Object<V>)
      ensures this.id == id && this.obj == obj && !dirty && alive
      ensures observers == {} && observables == {}
    {
      this.id, this.obj := id, obj;
      dirty, alive, observers, observables := false, true, {}, {};
    }

    // ----- registration -----

    method RegisterWith(h: ObjectWrapper?<V>, ghost ws: set<ObjectWrapper<V>>) returns (inserted: bool)
      requires Linked(ws) && this in ws && alive
      requires h != null ==> h in ws && h.alive
      modifies this`observables, (if h == null then {} else {h})`observers
      ensures Linked(ws)
      ensures inserted == (h != null && h !in old(observables))
      ensures h == null ==> observables == old(observables)
      ensures h != null ==> observables == old(observables) + {h} && h.observers == old(h.observers) + {this}
    {
      if h != null {
        h.observers := h.observers + {this};
        inserted := h !in observables;
        observables := observables + {h};
      } else {
        inserted := false;
      }
    }

    method UnregisterWith(h: ObjectWrapper?<V>, ghost ws: set<ObjectWrapper<V>>) returns (erased: nat)
      requires Linked(ws) && this in ws && (h != null ==> h in ws)
      modifies this`observables, (if h == null then {} else {h})`observers
      ensures Linked(ws)
      ensures erased == if h != null && h in old(observables) then 1 else 0
      ensures h == null ==> observables == old(observables)
      ensures h != null ==> observables == old(observables) - {h} && h.observers == old(h.observers) - {this}
    {
      if h != null {
        h.observers := h.observers - {this};
        erased := if h in observables then 1 else 0;
        observables := observables - {h};
      } else {
        erased := 0;
      }
    }

    /** The unregistration loop shared by assignment, destruction and `UnregisterWithAll`. */
    method UnregisterFromEach(ghost ws: set<ObjectWrapper<V>>)
      requires Linked(ws) && this in ws
      modifies ws`observers
      ensures forall a :: a in ws ==> a.observers == old(a.observers) - {this}
    {
      var rest := observables;
      while rest != {}
        invariant rest <= observables
        invariant forall a :: a in ws ==>
                    a.observers == if a in observables - rest then old(a.observers) - {this} else old(a.observers)
        decreases |rest|
      {
        var o :| o in rest;
        o.observers := o.observers - {this};
        rest := rest - {o};
      }
    }

    method UnregisterWithAll(ghost ws: set<ObjectWrapper<V>>)
      requires Linked(ws) && this in ws
      modifies this`observables, ws`observers
      ensures Linked(ws) && observables == {}
      ensures forall a :: a in ws ==> a.observers == old(a.observers) - {this}
    {
      UnregisterFromEach(ws);
      observables := {};
    }

    /** Copy construction: the copy observes whatever the original observes; nobody observes it. */
    constructor Copy(o: ObjectWrapper<V>, ghost ws: set<ObjectWrapper<V>>)
      requires Linked(ws) && o in ws && o.alive
      modifies ws`observers
      ensures id == o.id && obj == o.obj && dirty == o.dirty && alive
      ensures observers == {} && observables == o.observables
      ensures forall a :: a in ws ==>
                a.observers == if a in o.observables then old(a.observers) + {this} else old(a.observers)
      ensures Linked(ws + {this})
    {
      id, obj, dirty, alive, observers := o.id, o.obj, o.dirty, true, {};
      observables := o.observables;
      new;
      RegisterWithEach(ws);
    }

    /** The registration loop shared by copy construction and assignment. */
    method RegisterWithEach(ghost ws: set<ObjectWrapper<V>>)
      requires observables <= ws
      modifies ws`observers
      ensures forall a :: a in ws ==>
                a.observers == if a in observables then old(a.observers) + {this} else old(a.observers)
    {
      var rest := observables;
      while rest != {}
        invariant rest <= observables
        invariant forall a :: a in ws ==>
                    a.observers == if a in observables - rest then old(a.observers) + {this} else old(a.observers)
        decreases |rest|
      {
        var a :| a in rest;
        a.observers := a.observers + {this};
        rest := rest - {a};
      }
    }

    /** `Observer::operator=`, self-assignment included. */
    method AssignObserver(o: ObjectWrapper<V>, ghost ws: set<ObjectWrapper<V>>)
      requires Linked(ws) && this in ws && o in ws && alive
      modifies this`observables, ws`observers
      ensures Linked(ws)
      ensures observables == old(o.observables)
      ensures forall a :: a in ws ==>
                a.observers == old(a.observers) - {this} + (if a in old(o.observables) then {this} else {})
    {
      UnregisterFromEach(ws);
      observables := o.observables;
      RegisterWithEach(ws);
    }

    /** Destruction, which shared ownership postpones until no live observer holds the wrapper.
        By then the observer set is empty: nothing is left pointing at the wrapper. */
    method Destroy(ghost ws: set<ObjectWrapper<V>>)
      requires Linked(ws) && this in ws && alive
      requires forall a :: a in ws && a.alive ==> this !in a.observables
      modifies this`observables, this`alive, ws`observers
      ensures Linked(ws) && !alive && observables == {} && observers == old(observers) == {}
      ensures forall a :: a in ws ==> a.observers == old(a.observers) - {this}
    {
      UnregisterWithAll(ws);
      alive := false;
    }

    // ----- notification -----

    /** Marks exactly the transitive observers dirty, however often shared ones are visited. */
    method NotifyObservers(ghost m: map<string, ObjectWrapper<V>>, ghost ws: set<ObjectWrapper<V>>,
                           ghost g: Graph<string>, ghost rank: string -> nat, ghost top: nat)
      requires this in ws && Follows(ws, g) && Indexes(m, ws) && Closed(m.Keys, g) && Ranked(g, rank, top)
      modifies ws`dirty
      ensures Dirty(ws) == old(Dirty(ws)) + ProperDependents(g, ws, id)
      decreases top - rank(id), 0
    {
      var rest := observers;
      DependentsOfNone(g, ws, observers - rest);
      while rest != {}
        invariant rest <= observers
        invariant Dirty(ws) == old(Dirty(ws)) + DependentsOfAny(g, ws, observers - rest)
        decreases |rest|
      {
        var o :| o in rest;
        DependentsOfOneMore(g, ws, observers, rest, o);
        UnionAssociative(old(Dirty(ws)), DependentsOfAny(g, ws, observers - rest), Dependents(g, ws, o.id));
        assert o in observers;
        o.Update(m, ws, g, rank, top);
        rest := rest - {o};
      }
      assert observers - rest == observers;
      DependentsThroughObservers(g, m, ws, this);
    }

    method Update(ghost m: map<string, ObjectWrapper<V>>, ghost ws: set<ObjectWrapper<V>>,
                           ghost g: Graph<string>, ghost rank: string -> nat, ghost top: nat)
      requires this in ws && Follows(ws, g) && Indexes(m, ws) && Closed(m.Keys, g) && Ranked(g, rank, top)
      modifies ws`dirty
      ensures Dirty(ws) == old(Dirty(ws)) + Dependents(g, ws, id)
      decreases top - rank(id), 1
    {
      NotifyObservers(m, ws, g, rank, top);
      DependentsSplit(g, m, ws, this);
      ghost var notified := Dirty(ws);
      dirty := true;
      assert Dirty(ws) == notified + {this};
    }

    /** Replaces the object: afterwards the dirty wrappers are those dirty before and the
        transitive observers of this one, without this one. */
    method Reset(obj: Object<V>,
                 ghost m: map<string, ObjectWrapper<V>>, ghost ws: set<ObjectWrapper<V>>,
                 ghost g: Graph<string>, ghost rank: string -> nat, ghost top: nat)
      requires this in ws && Follows(ws, g) && Indexes(m, ws) && Closed(m.Keys, g) && Ranked(g, rank, top)
      modifies this`obj, ws`dirty
      ensures this.obj == obj
      ensures Dirty(ws) == old(Dirty(ws)) + ProperDependents(g, ws, id) - {this}
    {
      this.obj := obj;
      dirty := false;
      assert Dirty(ws) == old(Dirty(ws)) - {this};
      NotifyObservers(m, ws, g, rank, top);
      RankedIsAcyclic(g, rank, top);
      assert this !in ProperDependents(g, ws, id);
    }
  }
}
