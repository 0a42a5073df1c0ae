/** Storing historical fixings of an index. A null datum is `None`. */
module Fixings {
  import opened Comparison
  import opened Ids

  type Date = int

  type Quote = Option<real>

  /** A time series: it may hold null data. */
  type History = map<Date, Quote>

  /** The constant `operator[]` of a time series: null for a date without a datum. */
  function At(h: History, d: Date): Quote {
    if d in h then h[d] else None
  }

  predicate CloseQuotes(x: Quote, y: Quote) {
    x == y || (x.Some? && y.Some? && Close(x.value, y.value))
  }

  /** Two values are close as numbers are, and no value is close to a null datum. */
  lemma CloseQuotesMeaning(x: real, y: real)
    ensures CloseQuotes(Some(x), Some(y)) <==> Close(x, y)
    ensures !CloseQuotes(Some(x), None) && !CloseQuotes(None, Some(y)) && CloseQuotes(None, None)
  {
    CloseRelations(x, x);
  }

  datatype Fixing = Fixing(date: Date, value: Quote)

  datatype Outcome = Added | NotAllowed | InvalidFixing(last: Fixing) | DuplicatedFixing(last: Fixing)

  // ----- what the loop computes -----

  /** The mutable `operator[]` inserts a null datum for a date it does not find. */
  function Touched(h: History, d: Date): History {
    if d in h then h else h[d := None]
  }

  function Step(h: History, valid: Date -> bool, force: bool, f: Fixing): History {
    if valid(f.date) && (force || At(h, f.date).None?) then h[f.date := f.value] else Touched(h, f.date)
  }

  function Merged(h: History, valid: Date -> bool, force: bool, fs: seq<Fixing>): History {
    if fs == [] then h else Step(Merged(h, valid, force, fs[..|fs| - 1]), valid, force, fs[|fs| - 1])
  }

  /** The fixing at `i` disagrees with the value standing when the loop reaches it. */
  predicate Conflicts(h: History, valid: Date -> bool, force: bool, fs: seq<Fixing>, i: nat)
    requires i < |fs|
  {
    var standing := At(Merged(h, valid, force, fs[..i]), fs[i].date);
    valid(fs[i].date) && !force && standing.Some? && !CloseQuotes(standing, fs[i].value)
  }

  /** `i` is the first fixing with a value for `d`. */
  ghost predicate IsFirstValueFor(fs: seq<Fixing>, d: Date, i: nat) {
    i < |fs| && fs[i].date == d && fs[i].value.Some? && forall j :: 0 <= j < i && fs[j].date == d ==> fs[j].value.None?
  }

  /** Without overwriting, the fixing at `i` is not close to the value its date had before, or else to
      the first value given for it earlier. */
  ghost predicate Disagrees(h: History, force: bool, fs: seq<Fixing>, i: nat)
    requires i < |fs|
  {
    var d, v := fs[i].date, fs[i].value;
    !force && if At(h, d).Some? then !CloseQuotes(At(h, d), v)
              else exists j: nat :: IsFirstValueFor(fs[..i], d, j) && !CloseQuotes(fs[j].value, v)
  }

  /** The fixing is for a valid date, and disagrees. */
  ghost predicate Duplicates(h: History, valid: Date -> bool, force: bool, fs: seq<Fixing>, i: nat)
    requires i < |fs|
  {
    valid(fs[i].date) && Disagrees(h, force, fs, i)
  }

  /** Of the first `n` fixings, the one at `k` is the last for an invalid date. */
  ghost predicate LastInvalid(valid: Date -> bool, fs: seq<Fixing>, n: nat, k: nat)
    requires n <= |fs|
  {
    k < n && !valid(fs[k].date) && forall j :: k < j < n ==> valid(fs[j].date)
  }

  ghost predicate LastDuplicate(h: History, valid: Date -> bool, force: bool, fs: seq<Fixing>, n: nat, k: nat)
    requires n <= |fs|
  {
    k < n && Duplicates(h, valid, force, fs, k) && forall j :: k < j < n ==> !Duplicates(h, valid, force, fs, j)
  }

  ghost predicate AllValid(valid: Date -> bool, fs: seq<Fixing>, n: nat)
    requires n <= |fs|
  {
    forall i :: 0 <= i < n ==> valid(fs[i].date)
  }

  ghost predicate NoDuplicate(h: History, valid: Date -> bool, force: bool, fs: seq<Fixing>, n: nat)
    requires n <= |fs|
  {
    forall i :: 0 <= i < n ==> !Duplicates(h, valid, force, fs, i)
  }

  /** The outcome reports the last fixing for an invalid date; if there is none, the last one that
      disagrees; and success if there is none either. */
  ghost predicate Reports(h: History, valid: Date -> bool, force: bool, fs: seq<Fixing>, r: Outcome) {
    match r
    case NotAllowed => false
    case InvalidFixing(last) => exists k: nat :: LastInvalid(valid, fs, |fs|, k) && last == fs[k]
    case DuplicatedFixing(last) =>
      AllValid(valid, fs, |fs|) && exists k: nat :: LastDuplicate(h, valid, force, fs, |fs|, k) && last == fs[k]
    case Added => AllValid(valid, fs, |fs|) && NoDuplicate(h, valid, force, fs, |fs|)
  }

  class Index {
    const allowsNativeFixings: bool
    const isValidFixingDate: Date -> bool
    var history: History

    constructor (allows: bool, valid: Date -> bool, h: History)
      ensures allowsNativeFixings == allows && isValidFixingDate == valid && history == h
    {
      allowsNativeFixings, isValidFixingDate, history := allows, valid, h;
    }

    /** `addFixings`: the valid part is committed even when an error is reported. */
    method AddFixings(fs: seq<Fixing>, forceOverwrite: bool) returns (r: Outcome)
      modifies this
      ensures !allowsNativeFixings ==> r == NotAllowed && history == old(history)
      ensures allowsNativeFixings ==>
                && history == Merged(old(history), isValidFixingDate, forceOverwrite, fs)
                && Reports(old(history), isValidFixingDate, forceOverwrite, fs, r)
    {
      if !allowsNativeFixings {
        return NotAllowed;
      }
      var h := history;
      var noInvalidFixing, noDuplicatedFixing := true, true;
      var invalid, duplicated := Fixing(0, None), Fixing(0, None);
      ghost var lastInvalid, lastDuplicated := 0, 0;
      var i := 0;
      while i < |fs|
        invariant 0 <= i <= |fs| && history == old(history)
        invariant h == Merged(history, isValidFixingDate, forceOverwrite, fs[..i])
        invariant if noInvalidFixing then AllValid(isValidFixingDate, fs, i)
                  else LastInvalid(isValidFixingDate, fs, i, lastInvalid) && invalid == fs[lastInvalid]
        invariant if noDuplicatedFixing then NoDuplicate(history, isValidFixingDate, forceOverwrite, fs, i)
                  else LastDuplicate(history, isValidFixingDate, forceOverwrite, fs, i, lastDuplicated) &&
                       duplicated == fs[lastDuplicated]
      {
        var f := fs[i];
        assert fs[..i + 1][..i] == fs[..i] && fs[..i + 1][i] == f;
        ConflictMeaning(history, isValidFixingDate, forceOverwrite, fs, i);
        var validFixing := isValidFixingDate(f.date);
        h := Touched(h, f.date);
        var currentValue := h[f.date];
        var missingFixing := forceOverwrite || currentValue.None?;
        if validFixing {
          if missingFixing {
            h := h[f.date := f.value];
          } else if !CloseQuotes(currentValue, f.value) {
            noDuplicatedFixing, duplicated, lastDuplicated := false, f, i;
          }
        } else {
          noInvalidFixing, invalid, lastInvalid := false, f, i;
        }
        i := i + 1;
      }
      assert fs[..|fs|] == fs;
      history := h;
      if !noInvalidFixing {
        r := InvalidFixing(invalid);
      } else if !noDuplicatedFixing {
        r := DuplicatedFixing(duplicated);
      } else {
        r := Added;
      }
    }
  }

  // ----- what the result means -----

  /** Only the given dates gain an entry. */
  lemma {:induction false} MergedDates(h: History, valid: Date -> bool, force: bool, fs: seq<Fixing>, d: Date)
    ensures d in Merged(h, valid, force, fs) <==> d in h || exists i :: 0 <= i < |fs| && fs[i].date == d
  {
    if fs != [] {
      var init := fs[..|fs| - 1];
      MergedDates(h, valid, force, init, d);
      assert forall i :: 0 <= i < |init| ==> init[i] == fs[i];
    }
  }

  /** An invalid date never gains a value. */
  lemma {:induction false} InvalidDatesKeep(h: History, valid: Date -> bool, force: bool, fs: seq<Fixing>, d: Date)
    requires !valid(d)
    ensures At(Merged(h, valid, force, fs), d) == At(h, d)
  {
    if fs != [] {
      InvalidDatesKeep(h, valid, force, fs[..|fs| - 1], d);
    }
  }

  /** `i` is the last fixing for `d`. */
  ghost predicate IsLastFor(fs: seq<Fixing>, d: Date, i: nat) {
    i < |fs| && fs[i].date == d && forall j :: i < j < |fs| ==> fs[j].date != d
  }

  lemma {:induction false} UnnamedDatesKeep(h: History, valid: Date -> bool, force: bool, fs: seq<Fixing>, d: Date)
    requires forall i :: 0 <= i < |fs| ==> fs[i].date != d
    ensures At(Merged(h, valid, force, fs), d) == At(h, d)
  {
    if fs != [] {
      UnnamedDatesKeep(h, valid, force, fs[..|fs| - 1], d);
    }
  }

  /** With overwriting, the last fixing for a valid date wins, even a null one; other dates keep
      their value. */
  lemma {:induction false} LastWins(h: History, valid: Date -> bool, fs: seq<Fixing>, d: Date)
    requires valid(d)
    ensures forall i: nat :: IsLastFor(fs, d, i) ==> At(Merged(h, valid, true, fs), d) == fs[i].value
    ensures (forall i :: 0 <= i < |fs| ==> fs[i].date != d) ==> At(Merged(h, valid, true, fs), d) == At(h, d)
  {
    if forall i :: 0 <= i < |fs| ==> fs[i].date != d {
      UnnamedDatesKeep(h, valid, true, fs, d);
    } else {
      var init, last := fs[..|fs| - 1], fs[|fs| - 1];
      if last.date != d {
        LastWins(h, valid, init, d);
        forall i: nat | IsLastFor(fs, d, i) ensures At(Merged(h, valid, true, fs), d) == fs[i].value {
          assert IsLastFor(init, d, i);
        }
      }
    }
  }

  /** Without overwriting, an existing value stays, and otherwise the first value given wins. */
  lemma {:induction false} FirstWins(h: History, valid: Date -> bool, fs: seq<Fixing>, d: Date)
    requires valid(d)
    ensures At(h, d).Some? ==> At(Merged(h, valid, false, fs), d) == At(h, d)
    ensures At(h, d).None? ==> forall i: nat :: IsFirstValueFor(fs, d, i) ==>
              At(Merged(h, valid, false, fs), d) == fs[i].value
    ensures At(h, d).None? && (forall i :: 0 <= i < |fs| && fs[i].date == d ==> fs[i].value.None?) ==>
              At(Merged(h, valid, false, fs), d).None?
  {
    if fs != [] {
      var init, last := fs[..|fs| - 1], fs[|fs| - 1];
      FirstWins(h, valid, init, d);
      if At(h, d).None? {
        forall i: nat | IsFirstValueFor(fs, d, i) ensures At(Merged(h, valid, false, fs), d) == fs[i].value {
          if i < |init| {
            assert IsFirstValueFor(init, d, i);
          }
        }
      }
    }
  }

  /** Fixings have one outcome. */
  lemma ReportsOne(h: History, valid: Date -> bool, force: bool, fs: seq<Fixing>, r: Outcome, s: Outcome)
    requires Reports(h, valid, force, fs, r) && Reports(h, valid, force, fs, s)
    ensures r == s
  {
  }

  /** A fixing conflicts with the value standing when the loop reaches it exactly when its date is
      valid and it disagrees with what was there before it. */
  lemma ConflictMeaning(h: History, valid: Date -> bool, force: bool, fs: seq<Fixing>, i: nat)
    requires i < |fs|
    ensures Conflicts(h, valid, force, fs, i) <==> Duplicates(h, valid, force, fs, i)
  {
    var d := fs[i].date;
    if valid(d) && !force {
      FirstWins(h, valid, fs[..i], d);
      if j: nat :| j < i && fs[j].date == d && fs[j].value.Some? {
        var k := FirstValueFor(fs[..i], d, j);
      }
    }
  }

  lemma {:induction false} FirstValueFor(fs: seq<Fixing>, d: Date, j: nat) returns (k: nat)
    requires j < |fs| && fs[j].date == d && fs[j].value.Some?
    ensures IsFirstValueFor(fs, d, k)
  {
    if i: nat :| i < j && fs[i].date == d && fs[i].value.Some? {
      k := FirstValueFor(fs, d, i);
    } else {
      k := j;
    }
  }
}
