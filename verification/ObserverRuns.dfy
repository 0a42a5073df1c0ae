/** Arbitrary runs of the observer protocol, against the relation the two pointer sets stand for. */
module ObserverRuns {
  import opened Observing

  /** Wrappers are named by the order of their construction. */
  datatype Command =
    | Create
    | Copy(original: nat)
    | Register(observer: nat, observable: nat)
    | Unregister(observer: nat, observable: nat)
    | UnregisterAll(observer: nat)
    | Assign(to: nat, from: nat)
    | Destroy(victim: nat)

  /** How many wrappers were constructed, which are alive, and who observes whom. */
  datatype Net = Net(size: nat, alive: set<nat>, links: set<(nat, nat)>)

  const NOBODY: Net := Net(0, {}, {})

  function LinksOf(links: set<(nat, nat)>, i: nat, owner: nat): set<(nat, nat)> {
    set l | l in links && l.0 == i :: (owner, l.1)
  }

  function Without(links: set<(nat, nat)>, i: nat): set<(nat, nat)> {
    set l | l in links && l.0 != i
  }

  ghost predicate Observed(n: Net, i: nat) {
    exists k: nat :: (k, i) in n.links
  }

  /** The effect of a command. Commands on wrappers that do not exist or are destroyed do
      nothing, and a wrapper that is still observed is not destroyed. */
  ghost function Apply(n: Net, c: Command): Net {
    match c
    case Create => Net(n.size + 1, n.alive + {n.size}, n.links)
    case Copy(i) =>
      if i in n.alive then Net(n.size + 1, n.alive + {n.size}, n.links + LinksOf(n.links, i, n.size)) else n
    case Register(i, j) => if i in n.alive && j in n.alive then n.(links := n.links + {(i, j)}) else n
    case Unregister(i, j) => n.(links := n.links - {(i, j)})
    case UnregisterAll(i) => n.(links := Without(n.links, i))
    case Assign(i, j) =>
      if i in n.alive && j in n.alive then n.(links := Without(n.links, i) + LinksOf(n.links, j, i)) else n
    case Destroy(i) =>
      if i in n.alive && !Observed(n, i) then n.(alive := n.alive - {i}, links := Without(n.links, i)) else n
  }

  ghost function ApplyAll(n: Net, cs: seq<Command>): Net {
    if cs == [] then n else Apply(ApplyAll(n, cs[..|cs| - 1]), cs[|cs| - 1])
  }

  ghost predicate OnlyLiveLinks(n: Net) {
    && (forall i :: i in n.alive ==> i < n.size)
    && (forall l :: l in n.links ==> l.0 in n.alive && l.1 in n.alive)
  }

  /** Over every run, only live wrappers observe or are observed. */
  lemma {:induction false} RunsLinkOnlyTheLiving(cs: seq<Command>)
    ensures OnlyLiveLinks(ApplyAll(NOBODY, cs))
  {
    if cs != [] {
      RunsLinkOnlyTheLiving(cs[..|cs| - 1]);
      StepLinksOnlyTheLiving(ApplyAll(NOBODY, cs[..|cs| - 1]), cs[|cs| - 1]);
    }
  }

  lemma StepLinksOnlyTheLiving(n: Net, c: Command)
    requires OnlyLiveLinks(n)
    ensures OnlyLiveLinks(Apply(n, c))
  {
    if c.Destroy? && c.victim in n.alive && !Observed(n, c.victim) {
      forall l | l in Without(n.links, c.victim) ensures l.1 != c.victim {
        assert l == (l.0, l.1);
      }
    }
  }

  // ----- the pointer structure -----

  ghost function Members<V(!new)>(ws: seq<ObjectWrapper<V>>): set<ObjectWrapper<V>> {
    set i | 0 <= i < |ws| :: ws[i]
  }

  /** Both pointer sets of every wrapper hold exactly the links of `n`. */
  ghost predicate Represents<V(!new)>(ws: seq<ObjectWrapper<V>>, n: Net)
    reads ws
  {
    && |ws| == n.size && OnlyLiveLinks(n)
    && Linked(Members(ws))
    && (forall i, j :: 0 <= i < j < |ws| ==> ws[i] != ws[j])
    && (forall i :: 0 <= i < |ws| ==> (ws[i].alive <==> i in n.alive))
    && (forall i, j {:trigger ws[j] in ws[i].observables} {:trigger (i, j) in n.links} ::
          0 <= i < |ws| && 0 <= j < |ws| ==> (ws[j] in ws[i].observables <==> (i, j) in n.links))
  }

  lemma MembersOneMore<V(!new)>(ws: seq<ObjectWrapper<V>>, w: ObjectWrapper<V>)
    ensures Members(ws + [w]) == Members(ws) + {w}
  {
    forall a | a in Members(ws) + {w} ensures a in Members(ws + [w]) {
      if a == w {
        assert (ws + [w])[|ws|] == w;
      } else {
        var i :| 0 <= i < |ws| && ws[i] == a;
        assert (ws + [w])[i] == a;
      }
    }
  }

  method Create<V(!new)>(ws: seq<ObjectWrapper<V>>, obj: Object<V>, ghost n: Net) returns (w: ObjectWrapper<V>)
    requires Represents(ws, n)
    ensures fresh(w) && Represents(ws + [w], Apply(n, Command.Create))
  {
    w := new ObjectWrapper<V>("", obj);
    MembersOneMore(ws, w);
  }

  method Copy<V(!new)>(ws: seq<ObjectWrapper<V>>, i: nat, ghost n: Net) returns (w: ObjectWrapper<V>)
    requires Represents(ws, n) && i in n.alive
    modifies ws
    ensures fresh(w) && Represents(ws + [w], Apply(n, Command.Copy(i)))
  {
    StepLinksOnlyTheLiving(n, Command.Copy(i));
    w := new ObjectWrapper<V>.Copy(ws[i], Members(ws));
    MembersOneMore(ws, w);
    assert w !in Members(ws);
    ghost var ws', m := ws + [w], Apply(n, Command.Copy(i));
    forall j, k | 0 <= j < |ws'| && 0 <= k < |ws'| ensures ws'[k] in ws'[j].observables <==> (j, k) in m.links {
      CopiedLink(n, i, j, k);
      assert j < |ws| ==> ws[j] in Members(ws);
    }
  }

  lemma CopiedLink(n: Net, i: nat, j: nat, k: nat)
    requires OnlyLiveLinks(n) && i in n.alive && j <= n.size && k <= n.size
    ensures (j, k) in Apply(n, Command.Copy(i)).links <==>
      k < n.size && if j == n.size then (i, k) in n.links else (j, k) in n.links
  {
  }

  method Relink<V(!new)>(ws: seq<ObjectWrapper<V>>, c: Command, alive: set<nat>, ghost n: Net)
    requires Represents(ws, n) && alive == n.alive
    requires c.Register? || c.Unregister? || c.UnregisterAll? || c.Assign?
    modifies ws
    ensures Represents(ws, Apply(n, c))
  {
    match c
    case Register(i, j) => Register(ws, i, j, alive, n);
    case Unregister(i, j) => Unregister(ws, i, j, n);
    case UnregisterAll(i) => UnregisterAll(ws, i, n);
    case Assign(i, j) => Assign(ws, i, j, alive, n);
  }

  method Register<V(!new)>(ws: seq<ObjectWrapper<V>>, i: nat, j: nat, alive: set<nat>, ghost n: Net)
    requires Represents(ws, n) && alive == n.alive
    modifies ws
    ensures Represents(ws, Apply(n, Command.Register(i, j)))
  {
    if i in alive && j in alive {
      var _ := ws[i].RegisterWith(ws[j], Members(ws));
    }
  }

  method Unregister<V(!new)>(ws: seq<ObjectWrapper<V>>, i: nat, j: nat, ghost n: Net)
    requires Represents(ws, n)
    modifies ws
    ensures Represents(ws, Apply(n, Command.Unregister(i, j)))
  {
    if i < |ws| && j < |ws| {
      var _ := ws[i].UnregisterWith(ws[j], Members(ws));
    }
  }

  method UnregisterAll<V(!new)>(ws: seq<ObjectWrapper<V>>, i: nat, ghost n: Net)
    requires Represents(ws, n)
    modifies ws
    ensures Represents(ws, Apply(n, Command.UnregisterAll(i)))
  {
    if i < |ws| {
      ws[i].UnregisterWithAll(Members(ws));
    }
  }

  method Assign<V(!new)>(ws: seq<ObjectWrapper<V>>, i: nat, j: nat, alive: set<nat>, ghost n: Net)
    requires Represents(ws, n) && alive == n.alive
    modifies ws
    ensures Represents(ws, Apply(n, Command.Assign(i, j)))
  {
    if i in alive && j in alive {
      ws[i].AssignObserver(ws[j], Members(ws));
      forall k | 0 <= k < |ws| ensures (i, k) in LinksOf(n.links, j, i) <==> (j, k) in n.links {}
    }
  }

  /** Destruction, postponed while the ownership count is positive. */
  method Destroy<V(!new)>(ws: seq<ObjectWrapper<V>>, i: nat, alive: set<nat>, ghost n: Net) returns (alive': set<nat>)
    requires Represents(ws, n) && alive == n.alive
    modifies ws
    ensures Represents(ws, Apply(n, Command.Destroy(i))) && alive' == Apply(n, Command.Destroy(i)).alive
  {
    alive' := alive;
    if i in alive {
      var owned := OwnedBySomeone(ws, i, n);
      if !owned {
        ws[i].Destroy(Members(ws));
        alive' := alive - {i};
      }
    }
  }

  method OwnedBySomeone<V(!new)>(ws: seq<ObjectWrapper<V>>, i: nat, ghost n: Net) returns (owned: bool)
    requires Represents(ws, n) && i < |ws|
    ensures owned <==> Observed(n, i)
  {
    owned := false;
    for k := 0 to |ws|
      invariant owned <==> exists j: nat :: j < k && (j, i) in n.links
    {
      if ws[i] in ws[k].observables {
        assert (k, i) in n.links;
        owned := true;
      }
    }
    assert forall j: nat :: (j, i) in n.links ==> j < |ws|;
  }

  /** Every run leaves the pointer sets in the state the commands describe: each wrapper is in
      another's observer set exactly when the other is in its observable set. */
  method Run<V(!new)>(obj: Object<V>, cs: seq<Command>) returns (ws: seq<ObjectWrapper<V>>)
    ensures Represents(ws, ApplyAll(NOBODY, cs))
  {
    ws := [];
    var alive: set<nat> := {};
    for i := 0 to |cs|
      invariant Represents(ws, ApplyAll(NOBODY, cs[..i])) && alive == ApplyAll(NOBODY, cs[..i]).alive
      invariant forall k :: 0 <= k < |ws| ==> fresh(ws[k])
    {
      var c := cs[i];
      ghost var n := ApplyAll(NOBODY, cs[..i]);
      assert cs[..i + 1][..i] == cs[..i];
      if c.Create? {
        var w := Create(ws, obj, n);
        ws, alive := ws + [w], alive + {|ws|};
      } else if c.Copy? {
        if c.original in alive {
          var w := Copy(ws, c.original, n);
          ws, alive := ws + [w], alive + {|ws|};
        }
      } else if c.Destroy? {
        alive := Destroy(ws, c.victim, alive, n);
      } else {
        Relink(ws, c, alive, n);
      }
    }
    assert cs[..|cs|] == cs;
  }
}
