/** Whole runs of the repository, against a repository without a cache. */
module RepositoryRuns {
  import opened Graphs
  import opened Ids
  import opened Observing
  import opened Rebuilding
  import opened ObjectRepository

  datatype Command = Restore(vo: ValueObject, overwrite: bool) | Retrieve(id: string) | Delete(id: string)

  datatype Output<V> = Stored(result: StoreResult) | Retrieved(value: Option<V>) | Deleted(found: bool)

  /** Every precedent is stored, and there is no cycle. */
  ghost predicate Sane(ps: Properties) {
    Closed(ps.Keys, Precedents(ps)) && Acyclic(Precedents(ps))
  }

  /** An overwrite does not make the object depend on itself, and only unobserved objects are
      deleted. */
  ghost predicate Safe(ps: Properties, c: Command) {
    match c
    case Restore(vo, overwrite) => overwrite && Fold(vo.objectId) in ps ==> AddsNoCycle(ps, Fold(vo.objectId), vo)
    case Retrieve(_) => true
    case Delete(id) => Unobserved(ps, Fold(id))
  }

  ghost function Next<V>(creators: map<string, Creator<V>>, ps: Properties, c: Command): Properties
    requires Sane(ps)
  {
    match c
    case Restore(vo, overwrite) =>
      if RestoreOutcome(creators, ps, vo, overwrite) == Done then ps[Fold(vo.objectId) := vo] else ps
    case Retrieve(_) => ps
    case Delete(id) => ps - {Fold(id)}
  }

  /** What the command returns when every value is rebuilt from scratch. */
  ghost function EagerOutput<V>(creators: map<string, Creator<V>>, ps: Properties, c: Command): Output<V>
    requires Sane(ps)
  {
    match c
    case Restore(vo, overwrite) => Stored(RestoreOutcome(creators, ps, vo, overwrite))
    case Retrieve(id) => Retrieved(Rebuild(creators, ps, Fold(id)))
    case Delete(id) => Deleted(Fold(id) in ps)
  }

  /** The command is a construction that fails or is refused. */
  ghost predicate Refused<V>(creators: map<string, Creator<V>>, ps: Properties, c: Command)
    requires Sane(ps)
  {
    c.Restore? && RestoreOutcome(creators, ps, c.vo, c.overwrite) != Done
  }

  /** Safe commands keep the stored properties closed and acyclic, and so do refused ones, but no
      others. */
  lemma NextIsSane<V>(creators: map<string, Creator<V>>, ps: Properties, c: Command)
    requires Sane(ps)
    ensures Sane(Next(creators, ps, c)) <==> Safe(ps, c) || Refused(creators, ps, c)
  {
    match c
    case Restore(vo, overwrite) =>
      var key := Fold(vo.objectId);
      if RestoreOutcome(creators, ps, vo, overwrite) == Done {
        RebuildFromNeedsPrecedents(creators, ps, vo);
        NewAddsNoCycle(ps, key, vo);
        StoreKeepsAcyclic(ps, key, vo);
        StoreKeepsClosed(ps, key, vo);
      }
    case Retrieve(_) =>
    case Delete(id) =>
      if Unobserved(ps, Fold(id)) {
        DeleteKeepsSane(ps, Fold(id));
      } else {
        DeleteBreaksClosure(ps, Fold(id));
      }
  }

  lemma SafeAddsNoCycle<V>(creators: map<string, Creator<V>>, ps: Properties, vo: ValueObject, overwrite: bool)
    requires Sane(ps) && Safe(ps, Restore(vo, overwrite)) && RestoreOutcome(creators, ps, vo, overwrite) == Done
    ensures AddsNoCycle(ps, Fold(vo.objectId), vo) && vo.precedents <= ps.Keys
  {
    RebuildFromNeedsPrecedents(creators, ps, vo);
    NewAddsNoCycle(ps, Fold(vo.objectId), vo);
  }

  lemma DeleteKeepsSane(ps: Properties, key: string)
    requires Sane(ps) && Unobserved(ps, key)
    ensures Sane(ps - {key})
  {
    var g, h := Precedents(ps), Precedents(ps - {key});
    AcyclicSubgraph(h, g);
    forall x, y | x in ps - {key} && y in Succ(h, x) ensures y in ps - {key} {
      assert y in Succ(g, x);
    }
  }

  lemma RebuildFromNeedsPrecedents<V>(creators: map<string, Creator<V>>, ps: Properties, vo: ValueObject)
    requires Acyclic(Precedents(ps)) && RebuildFrom(creators, ps, vo).Some?
    ensures vo.precedents <= ps.Keys
  {
    var results := Rebuilt(creators, ps, vo.precedents);
    forall p | p in vo.precedents ensures p in ps {
      assert results[p].Some?;
      RebuildUnfolds(creators, ps, p);
    }
  }

  ghost predicate SafeRun<V>(creators: map<string, Creator<V>>, ps: Properties, cs: seq<Command>)
    requires Sane(ps)
    decreases |cs|
  {
    cs == [] ||
    (Safe(ps, cs[0]) && (NextIsSane(creators, ps, cs[0]); SafeRun(creators, Next(creators, ps, cs[0]), cs[1..])))
  }

  ghost function EagerRun<V>(creators: map<string, Creator<V>>, ps: Properties, cs: seq<Command>): seq<Output<V>>
    requires Sane(ps) && SafeRun(creators, ps, cs)
    decreases |cs|
  {
    if cs == [] then []
    else
      NextIsSane(creators, ps, cs[0]);
      [EagerOutput(creators, ps, cs[0])] + EagerRun(creators, Next(creators, ps, cs[0]), cs[1..])
  }

  /** One command on the caching repository does what it does on the stored properties. */
  method Perform<V(!new)>(repo: Repository<V>, c: Command) returns (out: Output<V>, ghost added: set<ObjectWrapper<V>>)
    requires repo.Valid() && Sane(repo.stored) && Safe(repo.stored, c)
    modifies repo, repo.wrappers
    ensures repo.Valid() && fresh(added) && repo.wrappers <= old(repo.wrappers) + added
    ensures repo.stored == old(Next(repo.creators, repo.stored, c))
    ensures out == old(EagerOutput(repo.creators, repo.stored, c))
  {
    added := {};
    match c
    case Restore(vo, overwrite) =>
      var r;
      r, added := repo.RestoreObject(vo, overwrite);
      if r == Done { SafeAddsNoCycle(repo.creators, old(repo.stored), vo, overwrite); }
      out := Stored(r);
    case Retrieve(id) =>
      var v := repo.RetrieveObject(id);
      out := Retrieved(v);
    case Delete(id) =>
      var found := repo.DeleteObject(id);
      out := Deleted(found);
  }

  /** Lazy equals eager, from any consistent state. */
  method Continue<V(!new)>(repo: Repository<V>, cs: seq<Command>) returns (outs: seq<Output<V>>)
    requires repo.Valid() && Sane(repo.stored) && SafeRun(repo.creators, repo.stored, cs)
    modifies repo, repo.wrappers
    ensures outs == old(EagerRun(repo.creators, repo.stored, cs))
    decreases |cs|
  {
    if cs == [] {
      return [];
    }
    NextIsSane(repo.creators, repo.stored, cs[0]);
    var out, _ := Perform(repo, cs[0]);
    var rest := Continue(repo, cs[1..]);
    outs := [out] + rest;
  }

  /** Lazy equals eager: from an empty repository, every safe run of construct-and-store,
      overwrite, retrieve and delete commands returns what it returns when nothing is cached. */
  method Execute<V(!new)>(creators: map<string, Creator<V>>, cs: seq<Command>) returns (outs: seq<Output<V>>)
    requires SafeRun(creators, map[], cs)
    ensures outs == EagerRun(creators, map[], cs)
  {
    var repo := new Repository<V>(creators);
    outs := Continue(repo, cs);
  }

  // ----- after an unsafe delete -----

  /** The object is clean and has the deleted one as a precedent. */
  ghost predicate CleanObserver<V(!new)>(repo: Repository<V>, key: string, x: string)
    reads repo
  {
    x != key && x in repo.clean && x in repo.stored && key in repo.stored[x].precedents
  }

  ghost function RebuiltAll<V>(creators: map<string, Creator<V>>, ps: Properties, ids: seq<string>): seq<Option<V>>
    requires Acyclic(Precedents(ps))
  {
    if ids == [] then [] else [Rebuild(creators, ps, Fold(ids[0]))] + RebuiltAll(creators, ps, ids[1..])
  }

  method RetrieveAll<V(!new)>(repo: Repository<V>, ids: seq<string>) returns (rs: seq<Option<V>>)
    requires repo.Cached()
    modifies repo`clean, repo`values, repo.wrappers`obj, repo.wrappers`dirty
    ensures rs == RebuiltAll(repo.creators, repo.stored, ids)
    decreases |ids|
  {
    if ids == [] {
      return [];
    }
    var r := repo.RetrieveObject(ids[0]);
    var rest := RetrieveAll(repo, ids[1..]);
    rs := [r] + rest;
  }

  /** If no clean object has the deleted one as a precedent, the retrieves after the delete, however
      many, return what rebuilding gives. */
  method RightAfterDelete<V(!new)>(repo: Repository<V>, deleted: string, ids: seq<string>) returns (rs: seq<Option<V>>)
    requires repo.Valid() && NoCleanObserver(repo.stored - {Fold(deleted)}, repo.clean, Fold(deleted))
    modifies repo, repo.wrappers
    ensures repo.stored == old(repo.stored) - {Fold(deleted)} && Acyclic(Precedents(repo.stored))
    ensures rs == RebuiltAll(repo.creators, repo.stored, ids)
  {
    var _ := repo.DeleteObject(deleted);
    rs := RetrieveAll(repo, ids);
  }

  /** The delete leaves a clean object that has the deleted one as a precedent as it is, though it
      can no longer be rebuilt. */
  method LeaveBehind<V(!new)>(repo: Repository<V>, deleted: string, ghost x: string)
    requires repo.Valid() && CleanObserver(repo, Fold(deleted), x)
    modifies repo, repo.wrappers
    ensures repo.stored == old(repo.stored) - {Fold(deleted)} && Acyclic(Precedents(repo.stored))
    ensures repo.Hit(x) && Rebuild(repo.creators, repo.stored, x).None? && repo.wrappers <= old(repo.wrappers)
  {
    var _ := repo.DeleteObject(deleted);
  }

  /** Any such object is a retrieve that succeeds where rebuilding fails. */
  method WrongAfterDelete<V(!new)>(repo: Repository<V>, deleted: string, id: string) returns (r: Option<V>)
    requires repo.Valid() && CleanObserver(repo, Fold(deleted), Fold(id))
    modifies repo, repo.wrappers
    ensures repo.stored == old(repo.stored) - {Fold(deleted)} && Acyclic(Precedents(repo.stored))
    ensures r.Some? && Rebuild(repo.creators, repo.stored, Fold(id)).None?
  {
    LeaveBehind(repo, deleted, Fold(id));
    r := repo.RetrieveObject(id);
  }

  // ----- witnesses -----

  /** A creator that always succeeds. */
  function Succeed(vo: ValueObject, values: map<string, string>): Option<string> { Some("") }

  function Trivial(): map<string, Creator<string>> { map["C" := Succeed] }

  function Plain(id: string, precedents: set<string>): ValueObject {
    ValueObject(id, "C", false, map[], precedents)
  }

  lemma RecreatedTrivially(vo: ValueObject, results: map<string, Option<string>>)
    requires vo.className == "C" && forall p :: p in results ==> results[p].Some?
    ensures Recreated(Trivial(), vo, results) == Some("")
  {
  }

  lemma PlainRebuilds(ps: Properties, id: string, precedents: set<string>)
    requires Acyclic(Precedents(ps)) && forall p :: p in precedents ==> Rebuild(Trivial(), ps, p).Some?
    ensures RebuildFrom(Trivial(), ps, Plain(id, precedents)) == Some("")
  {
    RecreatedTrivially(Plain(id, precedents), Rebuilt(Trivial(), ps, precedents));
  }

  /** "A" without precedents. */
  function One(): Properties { map["A" := Plain("A", {})] }

  /** "A" without precedents, and "B" that depends on it. */
  function Two(): Properties { map["A" := Plain("A", {}), "B" := Plain("B", {"A"})] }

  lemma OneIsSane()
    ensures Sane(map[]) && Sane(One()) && Rebuild(Trivial(), One(), "A") == Some("")
  {
    RankedIsAcyclic(Precedents(map[]), x => 0, 0);
    RankedIsAcyclic(Precedents(One()), x => 0, 0);
    RebuildUnfolds(Trivial(), One(), "A");
    PlainRebuilds(One(), "A", {});
  }

  lemma TwoIsSane()
    ensures Sane(Two()) && Rebuild(Trivial(), Two(), "B").Some?
  {
    PairIsTwo();
    assert Two() == One()["B" := Plain("B", {"A"})];
    NewAddsNoCycle(One(), "B", Plain("B", {"A"}));
    StoreKeepsAcyclic(One(), "B", Plain("B", {"A"}));
    StoreKeepsClosed(One(), "B", Plain("B", {"A"}));
    StoreKeepsValues(Trivial(), One(), "B", Plain("B", {"A"}));
  }

  /** "B" is constructed from "A", "A" is deleted, and "B" is retrieved all the same. */
  method StaleAfterDelete() returns (repo: Repository<string>, r: Option<string>)
    ensures repo.stored == Two() - {"A"} && Acyclic(Precedents(repo.stored))
    ensures r.Some? && Rebuild(repo.creators, repo.stored, "B").None?
  {
    repo := MakeTwo();
    assert Fold("A") == "A" && Fold("B") == "B";
    assert "A" in repo.stored["B"].precedents;
    r := WrongAfterDelete(repo, "A", "B");
  }

  /** Constructs a new object and stores it. */
  method Add(repo: Repository<string>, vo: ValueObject) returns (ghost added: set<ObjectWrapper<string>>)
    requires repo.Valid() && repo.creators == Trivial() && Fold(vo.objectId) !in repo.stored
    requires vo.precedents <= repo.stored.Keys && RebuildFrom(Trivial(), repo.stored, vo).Some?
    requires repo.clean == repo.stored.Keys
    modifies repo, repo.wrappers
    ensures repo.Valid() && repo.stored == old(repo.stored)[Fold(vo.objectId) := vo] && repo.clean == repo.stored.Keys
    ensures repo.wrappers == old(repo.wrappers) + added && fresh(added)
  {
    NewAddsNoCycle(repo.stored, Fold(vo.objectId), vo);
    var r;
    r, added := repo.RestoreObject(vo, false);
    CleanIsStored(repo.target, repo.stored, repo.clean, repo.values);
  }

  /** A repository with one object. */
  method MakeFirst(a: ValueObject) returns (repo: Repository<string>)
    requires a.precedents == {} && Acyclic(Precedents(map[])) && RebuildFrom(Trivial(), map[], a).Some?
    ensures fresh(repo) && fresh(repo.wrappers) && repo.creators == Trivial() && repo.Valid()
    ensures repo.stored == map[Fold(a.objectId) := a] && repo.clean == repo.stored.Keys
  {
    repo := new Repository<string>(Trivial());
    ghost var added := Add(repo, a);
  }

  /** A repository with two objects, the second constructed from the first. */
  method MakePair(a: ValueObject, b: ValueObject) returns (repo: Repository<string>)
    requires a.precedents == {} && b.precedents == {Fold(a.objectId)} && Fold(b.objectId) != Fold(a.objectId)
    requires Acyclic(Precedents(map[])) && RebuildFrom(Trivial(), map[], a).Some?
    requires Acyclic(Precedents(map[Fold(a.objectId) := a]))
    requires RebuildFrom(Trivial(), map[Fold(a.objectId) := a], b).Some?
    ensures fresh(repo) && fresh(repo.wrappers) && repo.creators == Trivial() && repo.Valid()
    ensures repo.stored == map[Fold(a.objectId) := a, Fold(b.objectId) := b] && repo.clean == repo.stored.Keys
  {
    repo := MakeFirst(a);
    ghost var added := Add(repo, b);
  }

  lemma PairIsTwo()
    ensures Fold("A") == "A" && Fold("B") == "B" && One() == map[Fold("A") := Plain("A", {})]
    ensures Two() == map[Fold("A") := Plain("A", {}), Fold("B") := Plain("B", {"A"})]
    ensures Sane(map[]) && Sane(One())
    ensures RebuildFrom(Trivial(), map[], Plain("A", {})).Some?
    ensures RebuildFrom(Trivial(), One(), Plain("B", {"A"})).Some?
  {
    OneIsSane();
    PlainRebuilds(map[], "A", {});
    PlainRebuilds(One(), "B", {"A"});
  }

  /** A repository with "A" and "B", both clean. */
  method MakeTwo() returns (repo: Repository<string>)
    ensures fresh(repo) && fresh(repo.wrappers) && repo.creators == Trivial()
    ensures repo.Valid() && repo.stored == Two() && repo.clean == Two().Keys
  {
    PairIsTwo();
    repo := MakePair(Plain("A", {}), Plain("B", {"A"}));
  }

  /** Storing an object that names an ID nobody has stored fails, and the entry is there. */
  method StoreNamesMissing() returns (repo: Repository<string>, r: StoreResult)
    ensures r == UnknownPrecedent && !repo.Valid() && "A" in repo.objectMap
  {
    repo := new Repository<string>(Trivial());
    assert Fold("A") == "A";
    assert "X" !in repo.stored.Keys + {"A"};
    var outcome, _ := repo.StoreObject("A", Object(Plain("A", {"X"}), ""), false);
    r := outcome;
  }

  // ----- cycles -----

  /** Edges lead from an object to its observers; notification follows them. */
  function ObserverGraph(ps: Properties): Graph<string> {
    map y | y in ps :: set x | x in ps && y in ps[x].precedents
  }

  /** Two objects that depend on each other. */
  function Loop(): Properties { Two()["A" := Plain("A", {"B"})] }

  /** Cycles are not rejected: overwriting "A", which "B" depends on, by an object that depends on
      "B" is accepted, and no later notification from "A" ever returns. */
  lemma OverwriteMayCloseCycle()
    ensures Sane(Two()) && RestoreOutcome(Trivial(), Two(), Plain("A", {"B"}), true) == Done
    ensures !Acyclic(Precedents(Loop())) && !Terminates(ObserverGraph(Loop()), "A")
  {
    TwoIsSane();
    PlainRebuilds(Two(), "A", {"B"});
    LoopIsCyclic();
    LoopDiverges();
  }

  lemma LoopIsCyclic()
    ensures !Acyclic(Precedents(Loop()))
  {
    var g := Precedents(Loop());
    assert "B" in Succ(g, "A") && "A" in Succ(g, "B");
    assert Steps(g, "A", "A", 0) && Steps(g, "B", "A", 1) && Steps(g, "A", "A", 2);
    assert ReachesProperly(g, "A", "A");
  }

  lemma LoopDiverges()
    ensures !Terminates(ObserverGraph(Loop()), "A")
  {
    var h := ObserverGraph(Loop());
    TerminatesIffNoReachableCycle(h, "A");
    assert "B" in Succ(h, "A") && "A" in Succ(h, "B");
    assert Steps(h, "A", "A", 0) && Steps(h, "B", "A", 1) && Steps(h, "A", "A", 2);
    assert Reaches(h, "A", "A") && ReachesProperly(h, "A", "A");
  }
}
