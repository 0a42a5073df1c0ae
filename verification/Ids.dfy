/** Case-insensitive object IDs: the comparison `my_iless`, and the ordered map keyed by it. */
module Ids {

  datatype Option<+T> = None | Some(value: T)

  /** `std::toupper` in the classic locale. */
  function Upper(c: char): char {
    if 'a' <= c <= 'z' then (c as int - 32) as char else c
  }

  const LETTERS: string := "abcdefghijklmnopqrstuvwxyz"
  const CAPITALS: string := "ABCDEFGHIJKLMNOPQRSTUVWXYZ"

  /** Two characters agree after upper-casing exactly when they are equal or are the two cases of the
      same letter of the alphabet. */
  lemma UpperAgrees(c: char, d: char)
    ensures Upper(c) == Upper(d) <==>
      c == d || exists i :: 0 <= i < 26 && c in [LETTERS[i], CAPITALS[i]] && d in [LETTERS[i], CAPITALS[i]]
  {
    assert forall i :: 0 <= i < 26 ==> LETTERS[i] as int == 97 + i && CAPITALS[i] as int == 65 + i;
    if Upper(c) == Upper(d) && c != d {
      var i := Upper(c) as int - 65;
      assert c in [LETTERS[i], CAPITALS[i]] && d in [LETTERS[i], CAPITALS[i]];
    }
  }

  /** The ID with every character upper-cased. Two IDs name the same object when their folds agree. */
  function Fold(s: string): string {
    seq(|s|, i requires 0 <= i < |s| => Upper(s[i]))
  }

  lemma FoldIdempotent(s: string)
    ensures Fold(Fold(s)) == Fold(s)
  {
  }

  /** The folds of `a` and `b` agree on the first `k` characters. */
  ghost predicate Agree(a: string, b: string, k: nat) {
    k <= |a| && k <= |b| && forall i :: 0 <= i < k ==> Upper(a[i]) == Upper(b[i])
  }

  /** `a` precedes `b` at the first position where they differ, a proper prefix coming first. */
  ghost predicate BeforeAt(a: string, b: string, k: nat) {
    && Agree(a, b, k)
    && k < |b|
    && (k == |a| || (k < |a| && Upper(a[k]) < Upper(b[k])))
  }

  /** Lexicographic order of the folds. */
  ghost predicate Before(a: string, b: string) {
    exists k: nat :: BeforeAt(a, b, k)
  }

  lemma BeforeIsExclusive(a: string, b: string)
    requires Before(a, b)
    ensures !Before(b, a) && Fold(a) != Fold(b)
  {
    var k: nat :| BeforeAt(a, b, k);
    assert k == |a| || Fold(a)[k] < Fold(b)[k];
    forall j: nat ensures !BeforeAt(b, a, j) {
      assert Agree(b, a, j) && j < k ==> Upper(a[j]) == Upper(b[j]);
    }
  }

  lemma BeforeTransitive(a: string, b: string, c: string)
    requires Before(a, b) && Before(b, c)
    ensures Before(a, c)
  {
    var j: nat :| BeforeAt(a, b, j);
    var k: nat :| BeforeAt(b, c, k);
    var m: nat := if j < k then j else k;
    assert BeforeAt(a, c, m);
  }

  lemma {:induction false} FirstDifference(a: string, b: string, k: nat)
    requires Agree(a, b, k)
    ensures Before(a, b) || Before(b, a) || Fold(a) == Fold(b)
    decreases |a| - k
  {
    if k < |a| && k < |b| && Upper(a[k]) == Upper(b[k]) {
      FirstDifference(a, b, k + 1);
    } else if k == |a| == |b| {
      assert Fold(a) == Fold(b);
    } else {
      assert BeforeAt(a, b, k) || BeforeAt(b, a, k);
    }
  }

  /** The order is a strict weak order whose incomparability is equality of folds. */
  lemma StrictWeakOrder(a: string, b: string, c: string)
    ensures !Before(a, a)
    ensures Before(a, b) ==> !Before(b, a)
    ensures Before(a, b) && Before(b, c) ==> Before(a, c)
    ensures !Before(a, b) && !Before(b, a) <==> Fold(a) == Fold(b)
  {
    FirstDifference(a, b, 0);
    if Before(a, a) { BeforeIsExclusive(a, a); }
    if Before(a, b) { BeforeIsExclusive(a, b); }
    if Before(b, a) { BeforeIsExclusive(b, a); }
    if Before(a, b) && Before(b, c) { BeforeTransitive(a, b, c); }
  }

  /** Equivalent IDs are interchangeable in comparisons. */
  lemma BeforeRespectsFold(a: string, a': string, b: string)
    requires Fold(a) == Fold(a')
    ensures Before(a, b) <==> Before(a', b)
    ensures Before(b, a) <==> Before(b, a')
  {
    StrictWeakOrder(a, a', b);
    StrictWeakOrder(a, b, a');
    StrictWeakOrder(a', b, a);
    StrictWeakOrder(b, a, a');
    StrictWeakOrder(b, a', a);
  }

  /** `my_iless::operator()`. */
  method Iless(a: string, b: string) returns (less: bool)
    ensures less <==> Before(a, b)
  {
    var i: nat := 0;
    while i < |a| && i < |b|
      invariant Agree(a, b, i)
    {
      var c1, c2 := Upper(a[i]), Upper(b[i]);
      if c1 < c2 {
        assert BeforeAt(a, b, i);
        return true;
      } else if c2 < c1 {
        assert BeforeAt(b, a, i);
        BeforeIsExclusive(b, a);
        return false;
      }
      i := i + 1;
    }
    less := i == |a| && i != |b|;
    if less {
      assert BeforeAt(a, b, i);
    } else if i < |a| {
      assert BeforeAt(b, a, i);
      BeforeIsExclusive(b, a);
    } else {
      assert Fold(a) == Fold(b);
      if Before(a, b) { BeforeIsExclusive(a, b); }
    }
  }
}

/** `std::map` ordered by `my_iless`: the type of the object map and of each range's residents. */
module IdMaps {
  import opened Ids

  datatype Entry<V> = Entry(key: string, value: V)

  ghost predicate Sorted<V>(s: seq<Entry<V>>) {
    forall i, j :: 0 <= i < j < |s| ==> Before(s[i].key, s[j].key)
  }

  /** The entries as a map on folded IDs: each fold leads to the stored spelling and the value. */
  ghost function View<V>(s: seq<Entry<V>>): map<string, Entry<V>> {
    if s == [] then map[] else View(s[..|s| - 1])[Fold(s[|s| - 1].key) := s[|s| - 1]]
  }

  lemma {:induction false} ViewHas<V>(s: seq<Entry<V>>, f: string)
    requires Sorted(s)
    ensures f in View(s) <==> exists i :: 0 <= i < |s| && Fold(s[i].key) == f
    ensures f in View(s) ==> View(s)[f] in s && Fold(View(s)[f].key) == f
  {
    if s != [] {
      var init, last := s[..|s| - 1], s[|s| - 1];
      ViewHas(init, f);
      assert forall i :: 0 <= i < |init| ==> init[i] == s[i];
      if Fold(last.key) != f && f in View(s) {
        var i :| 0 <= i < |init| && Fold(init[i].key) == f;
      }
    }
  }

  lemma DistinctFolds<V>(s: seq<Entry<V>>, i: nat, j: nat)
    requires Sorted(s) && i < |s| && j < |s| && Fold(s[i].key) == Fold(s[j].key)
    ensures i == j
  {
    StrictWeakOrder(s[i].key, s[j].key, "");
  }

  /** Where an ID sits among the entries decides its view. */
  lemma ViewAt<V>(s: seq<Entry<V>>, i: nat)
    requires Sorted(s) && i < |s|
    ensures Fold(s[i].key) in View(s) && View(s)[Fold(s[i].key)] == s[i]
  {
    var f := Fold(s[i].key);
    ViewHas(s, f);
    var j :| 0 <= j < |s| && s[j] == View(s)[f];
    DistinctFolds(s, i, j);
  }

  lemma ViewAbsent<V>(s: seq<Entry<V>>, id: string, at: nat)
    requires Sorted(s) && at <= |s|
    requires forall i :: 0 <= i < at ==> Before(s[i].key, id)
    requires forall i :: at <= i < |s| ==> Before(id, s[i].key)
    ensures Fold(id) !in View(s)
  {
    ViewHas(s, Fold(id));
    forall i | 0 <= i < |s| ensures Fold(s[i].key) != Fold(id) {
      StrictWeakOrder(s[i].key, id, "");
    }
  }

  /** Two sorted sequences with the same members have the same view. */
  lemma ViewByMembers<V>(s: seq<Entry<V>>, t: seq<Entry<V>>, f: string, e: Option<Entry<V>>)
    requires Sorted(s) && Sorted(t)
    requires e.Some? ==> Fold(e.value.key) == f && e.value in t
    requires e.None? ==> forall x :: x in t ==> Fold(x.key) != f
    requires forall x: Entry<V> :: Fold(x.key) != f ==> (x in s <==> x in t)
    ensures View(t) == if e.Some? then View(s)[f := e.value] else View(s) - {f}
  {
    var m := if e.Some? then View(s)[f := e.value] else View(s) - {f};
    forall g ensures g in View(t) <==> g in m
            ensures g in View(t) ==> View(t)[g] == m[g]
    {
      ViewHas(s, g);
      ViewHas(t, g);
      if g in View(t) {
        var x := View(t)[g];
        if g == f {
          var i :| 0 <= i < |t| && t[i] == x;
          var j :| 0 <= j < |t| && t[j] == e.value;
          DistinctFolds(t, i, j);
        } else {
          var i :| 0 <= i < |s| && s[i] == x;
          ViewAt(s, i);
        }
      }
    }
  }

  lemma InsertedView<V>(s: seq<Entry<V>>, at: nat, e: Entry<V>)
    requires Sorted(s) && at <= |s|
    requires forall i :: 0 <= i < at ==> Before(s[i].key, e.key)
    requires forall i :: at <= i < |s| ==> Before(e.key, s[i].key)
    ensures var t := s[..at] + [e] + s[at..]; Sorted(t) && View(t) == View(s)[Fold(e.key) := e]
  {
    var t := s[..at] + [e] + s[at..];
    assert t[at] == e;
    ViewByMembers(s, t, Fold(e.key), Some(e));
  }

  lemma ReplacedView<V>(s: seq<Entry<V>>, at: nat, e: Entry<V>)
    requires Sorted(s) && at < |s| && s[at].key == e.key
    ensures var t := s[at := e]; Sorted(t) && View(t) == View(s)[Fold(e.key) := e]
  {
    var t := s[at := e];
    assert t[at] == e;
    forall x: Entry<V> | Fold(x.key) != Fold(e.key) ensures x in s <==> x in t {
      if i: nat :| i < |s| && s[i] == x { assert t[i] == x; }
      if i: nat :| i < |s| && t[i] == x { assert s[i] == x; }
    }
    ViewByMembers(s, t, Fold(e.key), Some(e));
  }

  lemma RemovedView<V>(s: seq<Entry<V>>, at: nat)
    requires Sorted(s) && at < |s|
    ensures var t := s[..at] + s[at + 1..]; Sorted(t) && View(t) == View(s) - {Fold(s[at].key)}
  {
    var t := s[..at] + s[at + 1..];
    var f := Fold(s[at].key);
    forall i | 0 <= i < |t| ensures Fold(t[i].key) != f {
      if Fold(t[i].key) == f { DistinctFolds(s, if i < at then i else i + 1, at); }
    }
    forall x: Entry<V> | Fold(x.key) != f ensures x in s <==> x in t {
      if i: nat :| i < |s| && s[i] == x { assert t[if i < at then i else i - 1] == x; }
    }
    ViewByMembers(s, t, f, None);
  }

  class IdMap<V> {
    var entries: seq<Entry<V>>

    ghost predicate Valid() reads this { Sorted(entries) }

    constructor ()
      ensures Valid() && View(entries) == map[]
    {
      entries := [];
    }

    /** `lower_bound`: the first entry whose key does not precede `id`. */
    method LowerBound(id: string) returns (at: nat, found: bool)
      requires Valid()
      ensures at <= |entries|
      ensures forall i :: 0 <= i < at ==> Before(entries[i].key, id)
      ensures found ==> at < |entries| && Fold(entries[at].key) == Fold(id)
      ensures found ==> forall i :: at < i < |entries| ==> Before(id, entries[i].key)
      ensures !found ==> forall i :: at <= i < |entries| ==> Before(id, entries[i].key)
    {
      at, found := 0, false;
      while at < |entries|
        invariant at <= |entries|
        invariant forall i :: 0 <= i < at ==> Before(entries[i].key, id)
      {
        var before := Iless(entries[at].key, id);
        if !before { break; }
        at := at + 1;
      }
      if at < |entries| {
        var after := Iless(id, entries[at].key);
        found := !after;
        StrictWeakOrder(entries[at].key, id, "");
        forall i | at < i < |entries| ensures Before(id, entries[i].key) {
          if after {
            BeforeTransitive(id, entries[at].key, entries[i].key);
          } else {
            BeforeRespectsFold(id, entries[at].key, entries[i].key);
          }
        }
      }
    }

    method Find(id: string) returns (r: Option<Entry<V>>)
      requires Valid()
      ensures r == if Fold(id) in View(entries) then Some(View(entries)[Fold(id)]) else None
    {
      var at, found := LowerBound(id);
      if found {
        ViewAt(entries, at);
        return Some(entries[at]);
      }
      ViewAbsent(entries, id, at);
      return None;
    }

    /** `m[id] = v`: an equivalent key keeps the spelling it was first stored with. */
    method Assign(id: string, v: V)
      requires Valid()
      modifies this
      ensures Valid()
      ensures View(entries) == old(View(entries))[Fold(id) :=
                Entry(if Fold(id) in old(View(entries)) then old(View(entries))[Fold(id)].key else id, v)]
    {
      var at, found := LowerBound(id);
      if found {
        ViewAt(entries, at);
        ReplacedView(entries, at, Entry(entries[at].key, v));
        entries := entries[at := Entry(entries[at].key, v)];
      } else {
        ViewAbsent(entries, id, at);
        InsertedView(entries, at, Entry(id, v));
        entries := entries[..at] + [Entry(id, v)] + entries[at..];
      }
    }

    method Erase(id: string)
      requires Valid()
      modifies this
      ensures Valid() && View(entries) == old(View(entries)) - {Fold(id)}
    {
      var at, found := LowerBound(id);
      if found {
        RemovedView(entries, at);
        entries := entries[..at] + entries[at + 1..];
      } else {
        ViewAbsent(entries, id, at);
      }
    }
  }
}
