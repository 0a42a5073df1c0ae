/** The strings that identify objects in a worksheet: cell keys, update counters, and object IDs
    with and without the counter. */
module RangeIds {
  import opened Ids

  // ----- numbers as text -----

  function Digit(d: nat): char
    requires d < 16
  {
    if d < 10 then '0' + d as char else 'a' + (d - 10) as char
  }

  /** The digits of `n`, without leading zeros. */
  function Print(n: nat, base: nat): string
    requires 2 <= base <= 16
  {
    if n < base then [Digit(n)] else Print(n / base, base) + [Digit(n % base)]
  }

  function Zeros(n: nat): string { seq(n, _ => '0') }

  /** `setw` with `setfill('0')`. */
  function Padded(s: string, width: nat): string {
    if |s| < width then Zeros(width - |s|) + s else s
  }

  /** What a digit stands for, in either case. */
  function DigitValue(c: char): nat {
    if '0' <= c <= '9' then (c - '0') as nat
    else if 'a' <= c <= 'f' then (c - 'a') as nat + 10
    else if 'A' <= c <= 'F' then (c - 'A') as nat + 10
    else 0
  }

  function Read(s: string, base: nat): nat {
    if s == [] then 0 else Read(s[..|s| - 1], base) * base + DigitValue(s[|s| - 1])
  }

  lemma ReadAppend(s: string, d: nat, base: nat)
    requires d < 16
    ensures Read(s + [Digit(d)], base) == Times(Read(s, base), base) + d
  {
  }

  function Times(a: nat, b: nat): nat { a * b }

  lemma Euclid(n: nat, base: nat) returns (q: nat, d: nat)
    requires 2 <= base <= n
    ensures q == n / base && d == n % base && d < base && q < n && Times(q, base) + d == n
  {
    q, d := n / base, n % base;
  }

  lemma {:induction false} ReadPrint(n: nat, base: nat)
    requires 2 <= base <= 16
    ensures Read(Print(n, base), base) == n
  {
    if n < base {
      ReadAppend([], n, base);
      assert [] + [Digit(n)] == [Digit(n)];
    } else {
      var q, d := Euclid(n, base);
      ReadPrint(q, base);
      ReadAppend(Print(q, base), d, base);
      assert Print(n, base) == Print(q, base) + [Digit(d)];
    }
  }

  lemma {:induction false} ReadZeros(n: nat, s: string, base: nat)
    ensures Read(Zeros(n) + s, base) == Read(s, base)
    decreases n + |s|
  {
    if s == [] {
      assert Zeros(n) + s == Zeros(n);
      if n > 0 {
        assert Zeros(n)[..n - 1] == Zeros(n - 1) + [];
        ReadZeros(n - 1, [], base);
      }
    } else {
      var init := s[..|s| - 1];
      assert (Zeros(n) + s)[..n + |s| - 1] == Zeros(n) + init;
      ReadZeros(n, init, base);
    }
  }

  lemma {:induction false} ReadFold(s: string, base: nat)
    ensures Read(Fold(s), base) == Read(s, base)
  {
    if s != [] {
      var init := s[..|s| - 1];
      assert Fold(s)[..|s| - 1] == Fold(init);
      ReadFold(init, base);
    }
  }

  function Power(base: nat, e: nat): nat {
    if e == 0 then 1 else Power(base, e - 1) * base
  }

  lemma QuotientBelow(n: nat, base: nat, p: nat)
    requires base > 0 && n < p * base
    ensures n / base < p
  {
  }

  lemma {:induction false} PrintFits(n: nat, base: nat, width: nat)
    requires 2 <= base <= 16 && width > 0 && n < Power(base, width)
    ensures |Print(n, base)| <= width
  {
    if n >= base {
      var p := Power(base, width - 1);
      assert width > 1;
      var q, d := Euclid(n, base);
      QuotientBelow(n, base, p);
      PrintFits(q, base, width - 1);
      assert Print(n, base) == Print(q, base) + [Digit(d)];
    }
  }

  lemma {:induction false} NoHash(n: nat, base: nat)
    requires 2 <= base <= 16
    ensures '#' !in Print(n, base)
  {
    if n >= base {
      var q, d := Euclid(n, base);
      NoHash(q, base);
      assert Print(n, base) == Print(q, base) + [Digit(d)];
    }
  }

  function Numeral(n: nat, base: nat, width: nat): string
    requires 2 <= base <= 16
  {
    Padded(Print(n, base), width)
  }

  lemma NumeralWidth(n: nat, base: nat, width: nat)
    requires 2 <= base <= 16 && width > 0 && n < Power(base, width)
    ensures |Numeral(n, base, width)| == width && '#' !in Numeral(n, base, width)
    ensures Numeral(n, base, width) == Zeros(width - |Print(n, base)|) + Print(n, base)
  {
    PrintFits(n, base, width);
    NoHash(n, base);
    var s := Print(n, base);
    assert Zeros(0) + s == s;
  }

  /** A number that fits takes exactly the width, and is told by its text whatever the case. */
  lemma NumeralMeaning(n: nat, base: nat, width: nat)
    requires 2 <= base <= 16 && width > 0 && n < Power(base, width)
    ensures |Numeral(n, base, width)| == width && '#' !in Numeral(n, base, width)
    ensures Read(Fold(Numeral(n, base, width)), base) == n
  {
    NumeralWidth(n, base, width);
    var s := Print(n, base);
    ReadPrint(n, base);
    PrintFits(n, base, width);
    ReadZeros(width - |s|, s, base);
    ReadFold(Numeral(n, base, width), base);
  }

  // ----- keys -----

  const KEY_WIDTH: nat := 5
  const KEY_BASE: nat := 16
  const KEY_MAX: nat := 1048576

  /** The key of the `n`th calling range that is a cell. */
  function Key(n: nat): string { ['_'] + Numeral(n, KEY_BASE, KEY_WIDTH) }

  const VBA: string := "VBA"

  lemma PowerSixteen()
    ensures Power(KEY_BASE, KEY_WIDTH) == KEY_MAX
  {
  }

  /** Keys are distinct, even ignoring case, have six characters, and differ from the key of VBA. */
  lemma KeysDistinct(m: nat, n: nat)
    requires m < KEY_MAX && n < KEY_MAX
    ensures |Key(n)| == 6 && '#' !in Key(n) && Key(n) != VBA
    ensures Fold(Key(m)) == Fold(Key(n)) ==> m == n
  {
    PowerSixteen();
    NumeralMeaning(m, KEY_BASE, KEY_WIDTH);
    NumeralMeaning(n, KEY_BASE, KEY_WIDTH);
    assert Fold(Key(m))[1..] == Fold(Numeral(m, KEY_BASE, KEY_WIDTH));
    assert Fold(Key(n))[1..] == Fold(Numeral(n, KEY_BASE, KEY_WIDTH));
  }

  // ----- object IDs -----

  const ANONYMOUS: string := "obj"

  predicate OccursAt(s: string, t: string, i: nat) {
    i + |t| <= |s| && forall k :: 0 <= k < |t| ==> s[i + k] == t[k]
  }

  /** IDs that a user may give. Reading backwards from offset 2, the reserved prefix is found at any
      of the first three offsets. */
  predicate Accepted(id: string) {
    id != "" && '#' !in id
    && !OccursAt(Fold(id), "OBJ", 0) && !OccursAt(Fold(id), "OBJ", 1) && !OccursAt(Fold(id), "OBJ", 2)
  }

  /** What the error message says about IDs: they must not start with the prefix. */
  predicate StartsReserved(id: string) {
    OccursAt(Fold(id), "OBJ", 0)
  }

  /** Some IDs that do not start with the prefix are refused all the same. */
  lemma RefusedThoughNotPrefixed()
    ensures !StartsReserved("xobj1") && '#' !in "xobj1" && !Accepted("xobj1")
  {
    var id := "xobj1";
    assert Fold(id) == "XOBJ1";
    assert Fold(id)[0] != "OBJ"[0];
    assert Fold(id)[1..4] == "OBJ";
  }

  /** The code agrees with its message on an ID exactly when the prefix does not occur first at
      offset 1 or 2. */
  lemma AcceptedAsDocumented(id: string)
    requires id != "" && '#' !in id
    ensures (Accepted(id) <==> !StartsReserved(id)) <==>
      StartsReserved(id) || (!OccursAt(Fold(id), "OBJ", 1) && !OccursAt(Fold(id), "OBJ", 2))
  {
  }

  function AnonymousId(key: string): string { ANONYMOUS + key }

  /** `initializeID` */
  function InitializeId(cell: bool, key: string, id: string): (r: Option<string>)
    ensures id != "" ==> r == if Accepted(id) then Some(id) else None
  {
    if id == "" then (if cell then Some(AnonymousId(key)) else None)
    else if '#' in id then None
    else if OccursAt(Fold(id), "OBJ", 2) || OccursAt(Fold(id), "OBJ", 1) || OccursAt(Fold(id), "OBJ", 0) then None
    else Some(id)
  }

  /** Without an ID, every cell gets one of its own: no two cells get the same, and none gets one that
      a user may give, ignoring case. Elsewhere an ID has to be given. */
  lemma AnonymousIdsApart(n: nat, m: nat, id: string)
    requires n < KEY_MAX && m < KEY_MAX && Accepted(id)
    ensures InitializeId(true, Key(n), "").Some? && InitializeId(true, Key(m), "").Some?
    ensures Fold(InitializeId(true, Key(n), "").value) != Fold(id)
    ensures Fold(InitializeId(true, Key(n), "").value) == Fold(InitializeId(true, Key(m), "").value) ==> n == m
    ensures InitializeId(false, Key(n), "").None?
  {
    var a, b := InitializeId(true, Key(n), "").value, InitializeId(true, Key(m), "").value;
    assert Fold(a)[0..3] == Fold(ANONYMOUS) == "OBJ";
    assert OccursAt(Fold(a), "OBJ", 0);
    assert Fold(a)[3..] == Fold(Key(n)) && Fold(b)[3..] == Fold(Key(m));
    KeysDistinct(m, n);
  }

  /** How keys and anonymous IDs are written: five hexadecimal digits in lower case. */
  lemma FirstCells()
    ensures Key(0) == "_00000" && Key(1) == "_00001" && Key(26) == "_0001a"
    ensures InitializeId(true, Key(0), "") == Some("obj_00000")
  {
    assert Print(26, 16) == Print(1, 16) + [Digit(10)];
    assert Zeros(4) == "0000" && Zeros(3) == "000";
    assert "obj" + "_00000" == "obj_00000";
  }

  // ----- update counters -----

  const COUNTERS: nat := 10000

  function Counter(c: nat): string { Numeral(c, 10, 4) }

  lemma CounterMeaning(c: nat)
    requires c < COUNTERS
    ensures |Counter(c)| == 4 && '#' !in Counter(c) && Read(Counter(c), 10) == c
  {
    assert Power(10, 2) == 100 && Power(10, 4) == 10000;
    NumeralMeaning(c, 10, 4);
    ReadFold(Counter(c), 10);
  }

  /** The suffix after `issued` updates; before the first, that of an update counter at zero. */
  function LastSuffix(issued: nat): string {
    Counter(if issued == 0 then 0 else (issued - 1) % COUNTERS)
  }

  /** A counter that is one ahead of the last number issued, and goes back to zero past 9999. */
  lemma CountWraps(count: nat, issued: nat)
    requires count == if issued == 0 then 0 else (issued - 1) % COUNTERS + 1
    ensures (if count > 9999 then 0 else count) == issued % COUNTERS
  {
    if issued > 0 {
      var q, r := (issued - 1) / COUNTERS, (issued - 1) % COUNTERS;
      assert issued == q * COUNTERS + (r + 1);
    }
  }

  lemma LastSuffixMeaning(issued: nat)
    requires issued > 0
    ensures |LastSuffix(issued)| == 4 && Read(LastSuffix(issued), 10) == (issued - 1) % 10000
  {
    CounterMeaning((issued - 1) % COUNTERS);
  }

  function FullId(id: string, suffix: string): string { id + "#" + suffix }

  /** The ID as a range shows it after `issued` updates: decorated in a cell, plain elsewhere. */
  function ShownId(cell: bool, id: string, issued: nat): string {
    if cell then FullId(id, LastSuffix(issued)) else id
  }

  /** How many counters an update of an ID takes. */
  function Counters(cell: bool): nat { if cell then 1 else 0 }

  /** `getStub` */
  function GetStub(id: string): string {
    if |id| >= KEY_WIDTH && id[|id| - KEY_WIDTH] == '#' then id[..|id| - KEY_WIDTH] else id
  }

  /** In a cell the ID is shown with a hash sign and the four digits of the counter after it, and
      elsewhere as it is. */
  lemma ShownIdMeaning(cell: bool, id: string, issued: nat)
    ensures !cell ==> ShownId(cell, id, issued) == id
    ensures cell ==> |ShownId(cell, id, issued)| == |id| + 5 && ShownId(cell, id, issued)[..|id| + 1] == id + "#"
    ensures cell && issued > 0 ==> Read(ShownId(cell, id, issued)[|id| + 1..], 10) == (issued - 1) % 10000
  {
    CounterMeaning(if issued == 0 then 0 else (issued - 1) % COUNTERS);
    if cell {
      assert ShownId(cell, id, issued)[|id| + 1..] == LastSuffix(issued);
    }
  }

  /** Stripping the counter undoes adding it, for every ID and every number of updates, and the
      counter can be read back up to wrap-around. */
  lemma StubOfFull(id: string, issued: nat)
    ensures GetStub(FullId(id, LastSuffix(issued))) == id
    ensures issued > 0 ==> Read(LastSuffix(issued), 10) == (issued - 1) % 10000
  {
    CounterMeaning(if issued == 0 then 0 else (issued - 1) % COUNTERS);
    var full := FullId(id, LastSuffix(issued));
    assert full[|id|] == '#' && full[..|id|] == id;
  }

  /** IDs as `initializeID` returns them have no counter to strip. */
  lemma StubOfInitialized(cell: bool, n: nat, id: string)
    requires n < KEY_MAX && InitializeId(cell, Key(n), id).Some?
    ensures GetStub(InitializeId(cell, Key(n), id).value) == InitializeId(cell, Key(n), id).value
  {
    KeysDistinct(n, n);
  }
}

/** Calling ranges: the cells in which objects were constructed. */
module CallingRanges {
  import opened Ids
  import opened RangeIds

  /** A wrapper, as its owners and observers refer to it. */
  type Handle = nat

  class CallingRange {
    const key: string
    /** A worksheet cell, as opposed to the one range that stands for VBA. */
    const cell: bool
    var updateCount: nat
    /** The resident objects, by folded ID. */
    var residents: map<string, Handle>
    /** How many update counters this range has issued. */
    ghost var issued: nat

    ghost predicate Valid()
      reads this`updateCount, this`issued
    {
      updateCount == if issued == 0 then 0 else (issued - 1) % COUNTERS + 1
    }

    constructor (key: string, cell: bool)
      ensures this.key == key && this.cell == cell && Valid() && issued == 0 && residents == map[]
    {
      this.key, this.cell := key, cell;
      updateCount, residents, issued := 0, map[], 0;
    }

    method RegisterObject(id: string, wrapper: Handle)
      modifies this`residents
      ensures residents == old(residents)[Fold(id) := wrapper]
    {
      residents := residents[Fold(id) := wrapper];
    }

    method UnregisterObject(id: string)
      modifies this`residents
      ensures residents == old(residents) - {Fold(id)}
    {
      residents := residents - {Fold(id)};
    }

    method ClearResidents()
      modifies this`residents
      ensures residents == map[]
    {
      residents := map[];
    }

    predicate Empty()
      reads this`residents
    {
      residents == map[]
    }

    /** Issues the next counter: four digits, wrapping around after 9999. */
    method UpdateCount() returns (suffix: string)
      requires Valid()
      modifies this`updateCount, this`issued
      ensures Valid() && issued == old(issued) + 1 && suffix == LastSuffix(issued)
      ensures |suffix| == 4 && Read(suffix, 10) == old(issued) % 10000
    {
      CountWraps(updateCount, issued);
      LastSuffixMeaning(issued + 1);
      if updateCount > 9999 {
        updateCount := 0;
      }
      suffix := Counter(updateCount);
      updateCount := updateCount + 1;
      issued := issued + 1;
    }

    /** The counter last issued. */
    method GetUpdateCount() returns (suffix: string)
      requires Valid()
      ensures suffix == LastSuffix(issued)
    {
      var count: int := updateCount;
      if count != 0 {
        count := count - 1;
      }
      if count > 9999 {
        count := 0;
      }
      suffix := Counter(count);
    }

    /** The ID decorated with the next counter if the range is a cell. */
    method UpdateId(id: string) returns (full: string)
      requires Valid()
      modifies this`updateCount, this`issued
      ensures Valid() && issued == old(issued) + Counters(cell)
      ensures full == ShownId(cell, id, issued)
      ensures '#' !in id ==> GetStub(full) == id
    {
      if cell {
        var suffix := UpdateCount();
        full := id + "#" + suffix;
        StubOfFull(id, issued);
      } else {
        full := id;
      }
    }
  }
}
