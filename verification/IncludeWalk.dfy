/** The scan of the include graph: which headers a file pulls in, and how many lines that is. */
module IncludeWalk {
  import opened Graphs
  import opened Ids
  import opened Sequences

  /** A parsed header: what it includes, in order, and its number of lines. */
  datatype Header = Header(includes: seq<string>, lines: nat)

  datatype Counter = Counter(files: nat, lines: nat)

  /** `getFilePrefix`: the first of `prefixes` that is a leading directory of the name. */
  function PrefixOf(prefixes: seq<string>, name: string): string {
    if prefixes == [] then "std"
    else if prefixes[0] + "/" <= name then prefixes[0]
    else PrefixOf(prefixes[1..], name)
  }

  /** The prefix at `i` is the first to be a leading directory of the name; at the end of the list,
      none is. */
  ghost predicate LeadsFirst(prefixes: seq<string>, name: string, i: nat) {
    && i <= |prefixes| && (i < |prefixes| ==> prefixes[i] + "/" <= name)
    && forall j :: 0 <= j < i ==> !(prefixes[j] + "/" <= name)
  }

  /** It is the prefix that leads first, or "std". */
  lemma {:induction false} PrefixMeaning(prefixes: seq<string>, name: string) returns (i: nat)
    ensures LeadsFirst(prefixes, name, i) && PrefixOf(prefixes, name) == (prefixes + ["std"])[i]
  {
    if prefixes == [] || prefixes[0] + "/" <= name {
      i := 0;
    } else {
      var k := PrefixMeaning(prefixes[1..], name);
      i := k + 1;
      assert forall j :: 0 < j < i ==> prefixes[j] == prefixes[1..][j - 1];
    }
  }

  // ----- line accounting -----

  type Headers = map<string, Header>

  function LinesOf(hs: Headers, x: string): nat {
    if x in hs then hs[x].lines else 0
  }

  function TotalLines(hs: Headers, xs: seq<string>): nat {
    if xs == [] then 0 else TotalLines(hs, xs[..|xs| - 1]) + LinesOf(hs, xs[|xs| - 1])
  }

  /** The entries of `xs` with the given prefix. */
  function Filed(pp: string -> string, xs: seq<string>, p: string): seq<string> {
    if xs == [] then []
    else
      var x := xs[|xs| - 1];
      Filed(pp, xs[..|xs| - 1], p) + if pp(x) == p then [x] else []
  }

  lemma {:induction false} TotalLinesConcat(hs: Headers, xs: seq<string>, ys: seq<string>)
    ensures TotalLines(hs, xs + ys) == TotalLines(hs, xs) + TotalLines(hs, ys)
  {
    if ys == [] {
      assert xs + ys == xs;
    } else {
      TotalLinesConcat(hs, xs, ys[..|ys| - 1]);
      assert (xs + ys)[..|xs + ys| - 1] == xs + ys[..|ys| - 1];
    }
  }

  lemma {:induction false} FiledConcat(pp: string -> string, xs: seq<string>, ys: seq<string>, p: string)
    ensures Filed(pp, xs + ys, p) == Filed(pp, xs, p) + Filed(pp, ys, p)
  {
    if ys == [] {
      assert xs + ys == xs;
    } else {
      FiledConcat(pp, xs, ys[..|ys| - 1], p);
      assert (xs + ys)[..|xs + ys| - 1] == xs + ys[..|ys| - 1];
    }
  }

  /** They are the entries with that prefix, and each as often as before. */
  lemma {:induction false} FiledMembers(pp: string -> string, xs: seq<string>, p: string)
    ensures forall x :: x in Filed(pp, xs, p) <==> x in xs && pp(x) == p
    ensures Distinct(xs) ==> Distinct(Filed(pp, xs, p))
  {
    if xs != [] {
      var init, x := xs[..|xs| - 1], xs[|xs| - 1];
      FiledMembers(pp, init, p);
      assert xs == init + [x];
      if Distinct(xs) && pp(x) == p {
        assert x !in init;
        DistinctOneMore(Filed(pp, init, p), x);
      }
    }
  }

  lemma DistinctOneMore(xs: seq<string>, x: string)
    requires Distinct(xs) && x !in xs
    ensures Distinct(xs + [x])
  {
  }

  type Counters = map<string, Counter>

  /** `after` is `before` with the files `xs` counted under their prefixes. */
  ghost predicate Tallied(hs: Headers, pp: string -> string, before: Counters, xs: seq<string>, after: Counters) {
    && before.Keys == after.Keys
    && forall p :: p in before ==>
         && after[p].files == before[p].files + |Filed(pp, xs, p)|
         && after[p].lines == before[p].lines + TotalLines(hs, Filed(pp, xs, p))
  }

  lemma TalliedConcat(hs: Headers, pp: string -> string, a: Counters, b: Counters, c: Counters,
                      xs: seq<string>, ys: seq<string>)
    requires Tallied(hs, pp, a, xs, b) && Tallied(hs, pp, b, ys, c)
    ensures Tallied(hs, pp, a, xs + ys, c)
  {
    forall p | p in a
      ensures c[p].files == a[p].files + |Filed(pp, xs + ys, p)|
      ensures c[p].lines == a[p].lines + TotalLines(hs, Filed(pp, xs + ys, p))
    {
      FiledConcat(pp, xs, ys, p);
      TotalLinesConcat(hs, Filed(pp, xs, p), Filed(pp, ys, p));
    }
  }

  // ----- the walk -----

  ghost function Included(h: Header): set<string> {
    set i | 0 <= i < |h.includes| :: h.includes[i]
  }

  ghost function IncludeGraph(hs: Headers): Graph<string> {
    map x | x in hs :: Included(hs[x])
  }

  ghost predicate Distinct(xs: seq<string>) {
    forall i, j :: 0 <= i < j < |xs| ==> xs[i] != xs[j]
  }

  ghost function Elements(xs: seq<string>): set<string> {
    set i | 0 <= i < |xs| :: xs[i]
  }

  /** Everything the entries of `xs` include is recorded in `files`. */
  ghost predicate Explored(hs: Headers, xs: seq<string>, files: seq<string>) {
    forall i, y :: 0 <= i < |xs| && y in Succ(IncludeGraph(hs), xs[i]) ==> y in files
  }

  ghost predicate AllReached(hs: Headers, from: string, xs: seq<string>) {
    forall i :: 0 <= i < |xs| ==> Reaches(IncludeGraph(hs), from, xs[i])
  }

  lemma ElementsOneMore(xs: seq<string>, x: string)
    ensures Elements(xs + [x]) == Elements(xs) + {x}
  {
    forall y | y in Elements(xs) + {x} ensures y in Elements(xs + [x]) {
      if y == x {
        assert (xs + [x])[|xs|] == x;
      } else {
        var i :| 0 <= i < |xs| && xs[i] == y;
        assert (xs + [x])[i] == y;
      }
    }
  }

  lemma ElementsPrefix(xs: seq<string>, ys: seq<string>)
    ensures Elements(xs) <= Elements(xs + ys)
  {
    forall x | x in Elements(xs) ensures x in Elements(xs + ys) {
      var i :| 0 <= i < |xs| && xs[i] == x;
      assert (xs + ys)[i] == x;
    }
  }

  lemma ReachedThrough(hs: Headers, name: string, header: string, xs: seq<string>)
    requires header in Succ(IncludeGraph(hs), name) && AllReached(hs, header, xs)
    ensures AllReached(hs, name, xs)
  {
    forall i | 0 <= i < |xs| ensures Reaches(IncludeGraph(hs), name, xs[i]) {
      ReachesEdge(IncludeGraph(hs), name, header, xs[i]);
    }
  }

  lemma ReachedFirst(hs: Headers, x: string, xs: seq<string>)
    requires AllReached(hs, x, xs)
    ensures AllReached(hs, x, [x] + xs)
  {
    ReachesSplit(IncludeGraph(hs), x, x);
  }

  lemma ExploredConcat(hs: Headers, xs: seq<string>, ys: seq<string>, before: seq<string>, after: seq<string>)
    requires Explored(hs, xs, before) && Explored(hs, ys, after) && before <= after
    ensures Explored(hs, xs + ys, after)
  {
    forall i, y | 0 <= i < |xs + ys| && y in Succ(IncludeGraph(hs), (xs + ys)[i]) ensures y in after {
      if i < |xs| {
        assert y in Succ(IncludeGraph(hs), xs[i]);
        assert y in before;
      } else {
        assert y in Succ(IncludeGraph(hs), ys[i - |xs|]);
      }
    }
  }

  lemma ExploredRoot(hs: Headers, name: string, xs: seq<string>, files: seq<string>)
    requires Explored(hs, xs, files)
    requires name in hs ==> forall k :: 0 <= k < |hs[name].includes| ==> hs[name].includes[k] in files
    ensures Explored(hs, [name] + xs, files)
  {
  }

  /** Counting a file before its walk and adding its own lines after it tallies it with the files
      the walk recorded. */
  lemma VisitTally(hs: Headers, pp: string -> string, before: Counters, x: string, extra: seq<string>, after: Counters)
    requires pp(x) in before
    requires Tallied(hs, pp, CountFile(before, pp(x)), extra, after)
    ensures Tallied(hs, pp, before, [x] + extra, CountLines(after, pp(x), LinesOf(hs, x)))
  {
    var done := CountLines(after, pp(x), LinesOf(hs, x));
    forall p | p in before
      ensures done[p].files == before[p].files + |Filed(pp, [x] + extra, p)|
      ensures done[p].lines == before[p].lines + TotalLines(hs, Filed(pp, [x] + extra, p))
    {
      FiledWithFirst(hs, pp, x, extra, p);
    }
  }

  function CountFile(c: Counters, p: string): Counters
    requires p in c
  {
    c[p := c[p].(files := c[p].files + 1)]
  }

  function CountLines(c: Counters, p: string, lines: nat): Counters
    requires p in c
  {
    c[p := c[p].(lines := c[p].lines + lines)]
  }

  lemma FiledWithFirst(hs: Headers, pp: string -> string, x: string, extra: seq<string>, p: string)
    ensures |Filed(pp, [x] + extra, p)| == |Filed(pp, extra, p)| + (if p == pp(x) then 1 else 0)
    ensures TotalLines(hs, Filed(pp, [x] + extra, p))
         == TotalLines(hs, Filed(pp, extra, p)) + (if p == pp(x) then LinesOf(hs, x) else 0)
  {
    FiledConcat(pp, [x], extra, p);
    TotalLinesConcat(hs, Filed(pp, [x], p), Filed(pp, extra, p));
    FiledOne(pp, x, p);
    TotalLinesOne(hs, x);
  }

  lemma FiledOne(pp: string -> string, x: string, p: string)
    ensures Filed(pp, [x], p) == if pp(x) == p then [x] else []
  {
  }

  lemma TotalLinesOne(hs: Headers, x: string)
    ensures TotalLines(hs, []) == 0 && TotalLines(hs, [x]) == LinesOf(hs, x)
  {
  }

  lemma CountNoLines(c: Counters, p: string)
    requires p in c
    ensures CountLines(c, p, 0) == c
  {
  }

  /** The names recorded so far are distinct and among `all`. */
  ghost predicate Recorded(files: seq<string>, all: set<string>) {
    Distinct(files) && Elements(files) <= all
  }

  /** One more header of the loop: what was known of the names added before and of those its visit
      added holds of them together. */
  lemma WalkGrows(hs: Headers, name: string, header: string, files: seq<string>, before: seq<string>, extra: seq<string>)
    requires header in Succ(IncludeGraph(hs), name)
    requires AllReached(hs, name, before) && AllReached(hs, header, extra)
    requires Explored(hs, before, files + before) && Explored(hs, extra, files + before + extra)
    ensures AllReached(hs, name, before + extra) && Explored(hs, before + extra, files + (before + extra))
    ensures files + before + extra == files + (before + extra)
    ensures TotalLines(hs, before + extra) == TotalLines(hs, before) + TotalLines(hs, extra)
  {
    ConcatAssociative(files, before, extra);
    TotalLinesConcat(hs, before, extra);
    ReachedThrough(hs, name, header, extra);
    ExploredConcat(hs, before, extra, files + before, files + before + extra);
  }

  lemma VisitGrows(hs: Headers, header: string, files: seq<string>, extra: seq<string>)
    requires AllReached(hs, header, extra)
    ensures AllReached(hs, header, [header] + extra)
    ensures files + [header] + extra == files + ([header] + extra) && header in files + ([header] + extra)
    ensures TotalLines(hs, [header] + extra) == LinesOf(hs, header) + TotalLines(hs, extra)
  {
    ConcatAssociative(files, [header], extra);
    assert (files + ([header] + extra))[|files|] == header;
    TotalLinesConcat(hs, [header], extra);
    TotalLinesOne(hs, header);
    ReachedFirst(hs, header, extra);
  }

  class Scanner {
    const found: Headers
    const prefixOf: string -> string
    var files: seq<string>
    var counters: Counters

    constructor (found: Headers, prefixOf: string -> string, keys: seq<string>)
      ensures this.found == found && this.prefixOf == prefixOf && files == []
      ensures counters == Zeroed(keys)
    {
      this.found, this.prefixOf, files := found, prefixOf, [];
      counters := Zeroed(keys);
    }

    /** Every prefix has a counter. */
    ghost predicate Counts()
      reads `counters
    {
      forall x {:trigger prefixOf(x)} :: prefixOf(x) in counters
    }

    /** `walkThroughIncludesFiles`: `None` when the header is not found, otherwise the lines of the
        newly recorded headers together with its own, and its own lines. It terminates on every
        finite include graph, cyclic or not: each recursive call records a further name. */
    method Walk(name: string, ghost all: set<string>) returns (r: Option<(nat, nat)>, ghost added: seq<string>)
      requires Counts() && Recorded(files, all) && Closed(all, IncludeGraph(found)) && name in files
      modifies this
      ensures files == old(files) + added && Recorded(files, all)
      ensures r.Some? <==> name in found
      ensures r.None? ==> added == []
      ensures r.Some? ==> r.value == (found[name].lines + TotalLines(found, added), found[name].lines)
      ensures Tallied(found, prefixOf, old(counters), added, counters)
      ensures Explored(found, [name] + added, files) && AllReached(found, name, added)
      decreases all - Elements(files), 4
    {
      added := [];
      if name !in found {
        return None, [];
      }
      var own := found[name].lines;
      var lines;
      lines, added := WalkEach(name, all);
      ExploredRoot(found, name, added, files);
      r := Some((own + lines, own));
    }

    /** The loop over the includes of a header that was found. */
    method WalkEach(name: string, ghost all: set<string>) returns (lines: nat, ghost added: seq<string>)
      requires Counts() && Recorded(files, all) && Closed(all, IncludeGraph(found)) && name in files && name in found
      modifies this
      ensures files == old(files) + added && Recorded(files, all)
      ensures lines == TotalLines(found, added)
      ensures Tallied(found, prefixOf, old(counters), added, counters)
      ensures forall k :: 0 <= k < |found[name].includes| ==> found[name].includes[k] in files
      ensures Explored(found, added, files) && AllReached(found, name, added)
      decreases all - Elements(files), 3
    {
      ghost var was, zero := files, counters;
      var includes := found[name].includes;
      lines, added := 0, [];
      var i := 0;
      while i < |includes|
        invariant 0 <= i <= |includes|
        invariant files == was + added && Recorded(files, all)
        invariant forall k :: 0 <= k < i ==> includes[k] in files
        invariant lines == TotalLines(found, added)
        invariant Tallied(found, prefixOf, zero, added, counters)
        invariant Explored(found, added, files) && AllReached(found, name, added)
      {
        var header := includes[i];
        assert header in Succ(IncludeGraph(found), name);
        if header !in files {
          var more;
          ElementsPrefix(was, added);
          more, added := VisitNew(name, header, all, was, zero, added);
          lines := lines + more;
        }
        i := i + 1;
      }
    }

    /** A turn of the loop for a header that is not yet recorded, on top of what the loop has done. */
    method VisitNew(name: string, header: string, ghost all: set<string>, ghost was: seq<string>,
                    ghost zero: Counters, ghost before: seq<string>) returns (more: nat, ghost added: seq<string>)
      requires Counts() && Recorded(files, all) && Closed(all, IncludeGraph(found)) && name in all
      requires header in Succ(IncludeGraph(found), name) && header !in files && files == was + before
      requires Tallied(found, prefixOf, zero, before, counters)
      requires Explored(found, before, files) && AllReached(found, name, before)
      modifies this
      ensures files == was + added && Recorded(files, all) && header in files && old(files) <= files
      ensures TotalLines(found, added) == TotalLines(found, before) + more
      ensures Tallied(found, prefixOf, zero, added, counters)
      ensures Explored(found, added, files) && AllReached(found, name, added)
      decreases all - Elements(files), 2
    {
      ghost var counted := counters;
      ghost var extra;
      more, extra := Visit(header, all);
      added := before + extra;
      TalliedConcat(found, prefixOf, zero, counted, counters, before, extra);
      WalkGrows(found, name, header, was, before, extra);
    }

    /** The body of the loop for a header that is not yet recorded: record it, count it, and
        walk through it; a header that is not found is reported and adds no lines. */
    method Visit(header: string, ghost all: set<string>) returns (lines: nat, ghost added: seq<string>)
      requires Counts() && Recorded(files, all) && Closed(all, IncludeGraph(found))
      requires header in all && header !in files
      modifies this
      ensures files == old(files) + added && Recorded(files, all) && header in files
      ensures lines == TotalLines(found, added)
      ensures Tallied(found, prefixOf, old(counters), added, counters)
      ensures Explored(found, added, files) && AllReached(found, header, added)
      decreases all - Elements(files), 1
    {
      var prefix := prefixOf(header);
      var r, extra := RecordAndWalk(header, all);
      added := [header] + extra;
      VisitTally(found, prefixOf, old(counters), header, extra, counters);
      VisitGrows(found, header, old(files), extra);
      lines := if r.Some? then r.value.0 else 0;
      assert lines == TotalLines(found, added);
      if r.Some? {
        counters := CountLines(counters, prefix, r.value.1);
      } else {
        CountNoLines(counters, prefix);
      }
    }

    method RecordAndWalk(header: string, ghost all: set<string>) returns (r: Option<(nat, nat)>, ghost extra: seq<string>)
      requires Counts() && Recorded(files, all) && Closed(all, IncludeGraph(found))
      requires header in all && header !in files
      modifies this
      ensures files == old(files) + [header] + extra && Recorded(files, all)
      ensures r.Some? <==> header in found
      ensures r.None? ==> TotalLines(found, extra) == LinesOf(found, header) == 0
      ensures r.Some? ==> r.value == (LinesOf(found, header) + TotalLines(found, extra), LinesOf(found, header))
      ensures Tallied(found, prefixOf, CountFile(old(counters), prefixOf(header)), extra, counters)
      ensures Explored(found, [header] + extra, files) && AllReached(found, header, extra)
      decreases all - Elements(files), 0
    {
      ElementsOneMore(files, header);
      files := files + [header];
      counters := CountFile(counters, prefixOf(header));
      r, extra := Walk(header, all);
    }
  }

  // ----- the whole scan -----

  ghost function AllNames(hs: Headers, root: string): set<string> {
    {root} + (set x, i | x in hs && 0 <= i < |hs[x].includes| :: hs[x].includes[i])
  }

  lemma AllNamesClosed(hs: Headers, root: string)
    ensures Closed(AllNames(hs, root), IncludeGraph(hs))
  {
    forall x, y | x in AllNames(hs, root) && y in Succ(IncludeGraph(hs), x) ensures y in AllNames(hs, root) {
      var i :| 0 <= i < |hs[x].includes| && hs[x].includes[i] == y;
    }
  }

  /** An explored list of reached names is the set of all reached names. */
  lemma ExploredIsReached(hs: Headers, root: string, files: seq<string>)
    requires root in files && Explored(hs, files, files) && AllReached(hs, root, files)
    ensures forall x :: x in files <==> Reaches(IncludeGraph(hs), root, x)
  {
    var g := IncludeGraph(hs);
    assert Closed(Elements(files), g) by {
      forall x, y | x in Elements(files) && y in Succ(g, x) ensures y in Elements(files) {
        var i :| 0 <= i < |files| && files[i] == x;
        assert y in files;
      }
    }
    forall x ensures x in files <==> Reaches(g, root, x) {
      if n: nat :| Steps(g, root, x, n) {
        StaysWithin(Elements(files), g, root, x, n);
      }
    }
  }

  ghost function FiledLines(hs: Headers, pp: string -> string, xs: seq<string>, keys: seq<string>): nat {
    if keys == [] then 0 else TotalLines(hs, Filed(pp, xs, keys[0])) + FiledLines(hs, pp, xs, keys[1..])
  }

  lemma {:induction false} FiledLinesOneMore(
    hs: Headers, pp: string -> string, xs: seq<string>, x: string, keys: seq<string>)
    requires Distinct(keys)
    ensures FiledLines(hs, pp, xs + [x], keys) == FiledLines(hs, pp, xs, keys) + (if pp(x) in keys then LinesOf(hs, x) else 0)
  {
    if keys != [] {
      FiledLinesOneMore(hs, pp, xs, x, keys[1..]);
      FiledConcat(pp, xs, [x], keys[0]);
      FiledOne(pp, x, keys[0]);
      TotalLinesConcat(hs, Filed(pp, xs, keys[0]), Filed(pp, [x], keys[0]));
      TotalLinesOne(hs, x);
    }
  }

  lemma FiledLinesStep(hs: Headers, pp: string -> string, xs: seq<string>, x: string, keys: seq<string>)
    requires Distinct(keys) && pp(x) in keys && FiledLines(hs, pp, xs, keys) == TotalLines(hs, xs)
    ensures FiledLines(hs, pp, xs + [x], keys) == TotalLines(hs, xs + [x])
  {
    FiledLinesOneMore(hs, pp, xs, x, keys);
    TotalLinesConcat(hs, xs, [x]);
    TotalLinesOne(hs, x);
  }

  /** Every file is counted under exactly one prefix. */
  lemma {:induction false} FiledLinesPartition(hs: Headers, pp: string -> string, xs: seq<string>, keys: seq<string>)
    requires Distinct(keys) && forall i :: 0 <= i < |xs| ==> pp(xs[i]) in keys
    ensures FiledLines(hs, pp, xs, keys) == TotalLines(hs, xs)
  {
    if xs == [] {
      NothingFiled(hs, pp, keys);
    } else {
      var init, x := xs[..|xs| - 1], xs[|xs| - 1];
      assert xs == init + [x];
      FiledLinesPartition(hs, pp, init, keys);
      FiledLinesStep(hs, pp, init, x, keys);
    }
  }

  lemma {:induction false} NothingFiled(hs: Headers, pp: string -> string, keys: seq<string>)
    ensures FiledLines(hs, pp, [], keys) == 0
  {
    if keys != [] {
      NothingFiled(hs, pp, keys[1..]);
    }
  }

  function CountedLines(c: Counters, keys: seq<string>): nat
    requires forall p :: p in keys ==> p in c
  {
    if keys == [] then 0 else c[keys[0]].lines + CountedLines(c, keys[1..])
  }

  lemma {:induction false} CountedIsFiled(
    hs: Headers, pp: string -> string, zero: Counters, c: Counters, xs: seq<string>, keys: seq<string>)
    requires Tallied(hs, pp, zero, xs, c) && forall p :: p in keys ==> p in c && zero[p] == Counter(0, 0)
    ensures CountedLines(c, keys) == FiledLines(hs, pp, xs, keys)
  {
    if keys != [] {
      CountedIsFiled(hs, pp, zero, c, xs, keys[1..]);
    }
  }

  /** `trackDependencies`: the recorded files are exactly the reachable names, each once; the total
      is the number of lines of those found, and equals the root's own lines plus the counters'. */
  method TrackDependencies(found: Headers, prefixOf: string -> string, keys: seq<string>, root: string)
    returns (r: Option<nat>, counters: Counters, files: seq<string>)
    requires Distinct(keys) && forall x {:trigger prefixOf(x)} :: prefixOf(x) in keys
    ensures r.Some? <==> root in found
    ensures r.Some? ==> Distinct(files) && forall x :: x in files <==> Reaches(IncludeGraph(found), root, x)
    ensures r.Some? ==> r.value == TotalLines(found, files)
    ensures forall p :: p in keys ==> p in counters
    ensures r.Some? ==> r.value == found[root].lines + CountedLines(counters, keys)
    ensures r.Some? ==> files != [] && files[0] == root && Tallied(found, prefixOf, Zeroed(keys), files[1..], counters)
  {
    var result;
    ghost var added;
    result, counters, files, added := WalkRoot(found, prefixOf, keys, root);
    r := None;
    if result.Some? {
      r := Some(result.value.0);
      AccountsAgree(found, prefixOf, keys, root, counters, added);
      assert files == [root] + added;
      ExploredIsReached(found, root, files);
    }
  }

  /** The scanner set up, and the walk from the root. */
  method WalkRoot(found: Headers, prefixOf: string -> string, keys: seq<string>, root: string)
    returns (r: Option<(nat, nat)>, counters: Counters, files: seq<string>, ghost added: seq<string>)
    requires forall x {:trigger prefixOf(x)} :: prefixOf(x) in keys
    ensures r.Some? <==> root in found
    ensures r.Some? ==> r.value.0 == found[root].lines + TotalLines(found, added)
    ensures files == [root] + added && Distinct(files)
    ensures Explored(found, files, files) && AllReached(found, root, files)
    ensures Tallied(found, prefixOf, Zeroed(keys), added, counters)
  {
    var s := new Scanner(found, prefixOf, keys);
    s.files := s.files + [root];
    ghost var all := AllNames(found, root);
    AllNamesClosed(found, root);
    ElementsOneMore([], root);
    assert s.files == [root];
    r, added := s.Walk(root, all);
    counters, files := s.counters, s.files;
    VisitGrows(found, root, [], added);
  }

  function Zeroed(keys: seq<string>): Counters { map p | p in keys :: Counter(0, 0) }

  /** The lines of all recorded files, and those of the root with those of the counters, are the
      same. */
  lemma AccountsAgree(found: Headers, prefixOf: string -> string, keys: seq<string>, root: string,
                      counters: Counters, added: seq<string>)
    requires Distinct(keys) && forall x {:trigger prefixOf(x)} :: prefixOf(x) in keys
    requires Tallied(found, prefixOf, Zeroed(keys), added, counters)
    ensures forall p :: p in keys ==> p in counters
    ensures TotalLines(found, [root] + added) == LinesOf(found, root) + CountedLines(counters, keys)
    ensures TotalLines(found, [root] + added) == LinesOf(found, root) + TotalLines(found, added)
  {
    CountedIsFiled(found, prefixOf, Zeroed(keys), counters, added, keys);
    FiledLinesPartition(found, prefixOf, added, keys);
    TotalLinesConcat(found, [root], added);
    TotalLinesOne(found, root);
  }

  /** The prefixes the scan uses, in the order it tries them. */
  const PREFIX_PATH: seq<string> := ["ql", "qlo", "oh", "boost", "qlxl", "ohxl", "xlsdk"]

  lemma PrefixesDistinct()
    ensures Distinct(PREFIX_PATH + ["std"])
  {
    var keys := PREFIX_PATH + ["std"];
    assert keys[0] == "ql" && keys[1] == "qlo" && keys[2] == "oh" && keys[3] == "boost";
    assert keys[4] == "qlxl" && keys[5] == "ohxl" && keys[6] == "xlsdk" && keys[7] == "std";
    assert keys[1][2] == 'o' && keys[4][2] == 'x' && keys[3][0] == 'b' && keys[6][0] == 'x' && keys[7][0] == 's';
  }

  /** The counter counts each name in `files` that `at` leads first, once, and their lines. */
  ghost predicate CountsUnder(found: Headers, files: seq<string>, at: nat, c: Counter) {
    exists names :: CountsNames(found, files, at, c, names)
  }

  ghost predicate CountsNames(found: Headers, files: seq<string>, at: nat, c: Counter, names: seq<string>) {
    && Distinct(names) && (forall x :: x in names <==> x in files && LeadsFirst(PREFIX_PATH, x, at))
    && c == Counter(|names|, TotalLines(found, names))
  }

  /** The prefix of a name tells which leads first, as no two are the same. */
  lemma PrefixTells(name: string, at: nat)
    requires at <= |PREFIX_PATH|
    ensures PrefixOf(PREFIX_PATH, name) == (PREFIX_PATH + ["std"])[at] <==> LeadsFirst(PREFIX_PATH, name, at)
  {
    PrefixesDistinct();
    var i := PrefixMeaning(PREFIX_PATH, name);
  }

  lemma TalliedUnder(found: Headers, pp: string -> string, files: seq<string>, counters: Counters, at: nat)
    requires at <= |PREFIX_PATH| && Distinct(files) && forall x {:trigger pp(x)} :: pp(x) == PrefixOf(PREFIX_PATH, x)
    requires Tallied(found, pp, Zeroed(PREFIX_PATH + ["std"]), files, counters)
    ensures (PREFIX_PATH + ["std"])[at] in counters && CountsUnder(found, files, at, counters[(PREFIX_PATH + ["std"])[at]])
  {
    var p := (PREFIX_PATH + ["std"])[at];
    var names := Filed(pp, files, p);
    FiledMembers(pp, files, p);
    forall x ensures pp(x) == p <==> LeadsFirst(PREFIX_PATH, x, at) {
      PrefixTells(x, at);
    }
    assert CountsNames(found, files, at, counters[p], names);
  }

  ghost predicate CountsAllUnder(found: Headers, files: seq<string>, counters: Counters) {
    forall i :: 0 <= i <= |PREFIX_PATH| ==>
      (PREFIX_PATH + ["std"])[i] in counters && CountsUnder(found, files, i, counters[(PREFIX_PATH + ["std"])[i]])
  }

  lemma TalliedUnderAll(found: Headers, pp: string -> string, files: seq<string>, counters: Counters)
    requires Distinct(files) && forall x {:trigger pp(x)} :: pp(x) == PrefixOf(PREFIX_PATH, x)
    requires Tallied(found, pp, Zeroed(PREFIX_PATH + ["std"]), files, counters)
    ensures CountsAllUnder(found, files, counters)
  {
    forall i | 0 <= i <= |PREFIX_PATH|
      ensures (PREFIX_PATH + ["std"])[i] in counters && CountsUnder(found, files, i, counters[(PREFIX_PATH + ["std"])[i]])
    {
      TalliedUnder(found, pp, files, counters, i);
    }
  }

  /** The scan with its own prefixes: each counter counts the names, other than the root, that its
      prefix leads first. */
  method Scan(found: Headers, root: string) returns (r: Option<nat>, counters: Counters, files: seq<string>)
    ensures r.Some? <==> root in found
    ensures r.Some? ==> Distinct(files) && forall x :: x in files <==> Reaches(IncludeGraph(found), root, x)
    ensures forall p :: p in PREFIX_PATH + ["std"] ==> p in counters
    ensures r.Some? ==> r.value == TotalLines(found, files)
                     == found[root].lines + CountedLines(counters, PREFIX_PATH + ["std"])
    ensures r.Some? ==> files != [] && files[0] == root && CountsAllUnder(found, files[1..], counters)
  {
    var prefixOf := x => PrefixOf(PREFIX_PATH, x);
    forall x ensures prefixOf(x) in PREFIX_PATH + ["std"] {
      var i := PrefixMeaning(PREFIX_PATH, x);
    }
    PrefixesDistinct();
    r, counters, files := TrackDependencies(found, prefixOf, PREFIX_PATH + ["std"], root);
    if r.Some? {
      TalliedUnderAll(found, prefixOf, files[1..], counters);
    }
  }
}
