/** The temporary memory for arguments of Excel calls: a bump allocator over a fixed block, freed
    all at once. */
module TempMemory {
  import opened Ids

  const MEMORY_SIZE: nat := 1024

  newtype Byte = x: int | 0 <= x < 256

  datatype Region = Region(start: nat, size: nat)

  /** The regions are even, in order, without overlap, and end before `offset`. */
  ghost predicate Packed(rs: seq<Region>, offset: nat) {
    && (forall i :: 0 <= i < |rs| ==> rs[i].start % 2 == 0 && rs[i].start + rs[i].size <= offset)
    && (forall i, j :: 0 <= i < j < |rs| ==> rs[i].start + rs[i].size <= rs[j].start)
  }

  predicate InRegion(r: Region, k: int) { r.start <= k < r.start + r.size }

  /** No two of the regions share a byte. */
  lemma PackedIsDisjoint(rs: seq<Region>, offset: nat, i: nat, j: nat)
    requires Packed(rs, offset) && i < |rs| && j < |rs| && i != j
    ensures forall k :: !(InRegion(rs[i], k) && InRegion(rs[j], k))
  {
    var a, b := if i < j then i else j, if i < j then j else i;
    assert rs[a].start + rs[a].size <= rs[b].start;
  }

  /** The next even number. */
  function RoundUp(n: nat): (m: nat)
    ensures m % 2 == 0 && n <= m <= n + 1
  {
    if n % 2 == 1 then n + 1 else n
  }

  /** The bytes that `strncpy` writes: those up to the first zero, then zeros. */
  function Copied(s: seq<Byte>, n: nat): (t: seq<Byte>)
    requires n <= |s|
    ensures |t| == n
  {
    if n == 0 then [] else
      var t := Copied(s, n - 1);
      t + [if 0 in s[..n] then 0 else s[n - 1]]
  }

  lemma {:induction false} CopiedAt(s: seq<Byte>, n: nat, i: nat)
    requires i < n <= |s|
    ensures Copied(s, n)[i] == if exists j :: 0 <= j <= i && s[j] == 0 then 0 else s[i]
  {
    if i < n - 1 {
      CopiedAt(s, n - 1, i);
    } else {
      assert 0 in s[..n] <==> exists j :: 0 <= j <= i && s[j] == 0;
    }
  }

  lemma {:induction false} CopiedWhole(s: seq<Byte>, n: nat)
    requires n <= |s| && 0 !in s[..n]
    ensures Copied(s, n) == s[..n]
  {
    if n > 0 {
      assert s[..n - 1] == s[..n][..n - 1];
      CopiedWhole(s, n - 1);
      assert s[..n] == s[..n - 1] + [s[n - 1]];
    }
  }

  /** What fits into the byte for the length. */
  function Length(s: seq<Byte>): (n: nat)
    ensures n <= |s| && n <= 255 && (n == |s| || n == 255)
  {
    if |s| < 255 then |s| else 255
  }

  /** A string with its length in front. */
  function Pascal(text: seq<Byte>): seq<Byte>
    requires |text| < 256
  {
    [|text| as Byte] + text
  }

  /** Where the two fields of an `XLOPER` that a string uses are, and what they hold. */
  datatype Layout = Layout(
    size: nat, typeAt: nat, stringType: seq<Byte>, pointerAt: nat, pointerSize: nat, pointerTo: nat -> seq<Byte>)

  /** The fields lie in the record and apart. */
  ghost predicate Sensible(l: Layout) {
    && l.typeAt + |l.stringType| <= l.size && l.pointerAt + l.pointerSize <= l.size
    && (l.typeAt + |l.stringType| <= l.pointerAt || l.pointerAt + l.pointerSize <= l.typeAt)
    && forall p {:trigger l.pointerTo(p)} :: |l.pointerTo(p)| == l.pointerSize
  }

  // ----- bytes in the block -----

  /** The bytes are in the block at `at`. */
  ghost predicate Field(block: seq<Byte>, at: nat, bytes: seq<Byte>) {
    at + |bytes| <= |block| && forall i :: 0 <= i < |bytes| ==> block[at + i] == bytes[i]
  }

  /** The blocks agree on every byte outside the two regions. */
  ghost predicate SameOutside(before: seq<Byte>, after: seq<Byte>, a: Region, b: Region) {
    |before| == |after| && forall i :: 0 <= i < |before| && !InRegion(a, i) && !InRegion(b, i) ==> before[i] == after[i]
  }

  lemma FieldStays(before: seq<Byte>, after: seq<Byte>, a: Region, b: Region, at: nat, bytes: seq<Byte>)
    requires Field(before, at, bytes) && SameOutside(before, after, a, b)
    requires at + |bytes| <= a.start || a.start + a.size <= at
    requires at + |bytes| <= b.start || b.start + b.size <= at
    ensures Field(after, at, bytes)
  {
    forall i | 0 <= i < |bytes| ensures after[at + i] == bytes[i] {
      assert before[at + i] == bytes[i] && !InRegion(a, at + i) && !InRegion(b, at + i);
    }
  }

  predicate Inside(a: Region, b: Region) { b.start <= a.start && a.start + a.size <= b.start + b.size }

  lemma SameOutsideJoins(x: seq<Byte>, y: seq<Byte>, z: seq<Byte>, a: Region, b: Region, c: Region, d: Region)
    requires SameOutside(x, y, a, a) && SameOutside(y, z, b, b)
    requires (Inside(a, c) || Inside(a, d)) && (Inside(b, c) || Inside(b, d))
    ensures SameOutside(x, z, c, d)
  {
    forall i | 0 <= i < |x| && !InRegion(c, i) && !InRegion(d, i) ensures x[i] == z[i] {
      assert !InRegion(a, i) && !InRegion(b, i);
      assert x[i] == y[i];
    }
  }

  // ----- what has been written -----

  ghost predicate TextAt(block: seq<Byte>, texts: map<nat, seq<Byte>>, p: nat, end: nat)
    requires p in texts
  {
    |texts[p]| < 256 && p + 1 + |texts[p]| <= end && Field(block, p, Pascal(texts[p]))
  }

  /** The record is marked as a string and points to one. */
  ghost predicate RecordAt(block: seq<Byte>, l: Layout, texts: map<nat, seq<Byte>>, records: map<nat, nat>, q: nat, end: nat)
    requires q in records
  {
    && q + l.size <= end && records[q] in texts
    && Field(block, q + l.typeAt, l.stringType) && Field(block, q + l.pointerAt, l.pointerTo(records[q]))
  }

  /** Everything written is there and ends by `end`. */
  ghost predicate AllReadable(block: seq<Byte>, l: Layout, texts: map<nat, seq<Byte>>, records: map<nat, nat>, end: nat) {
    && (forall p {:trigger TextAt(block, texts, p, end)} :: p in texts ==> TextAt(block, texts, p, end))
    && (forall q {:trigger RecordAt(block, l, texts, records, q, end)} ::
          q in records ==> RecordAt(block, l, texts, records, q, end))
  }

  /** Writing past the end, and moving the end, disturbs nothing. */
  lemma ReadableStays(before: seq<Byte>, after: seq<Byte>, l: Layout, texts: map<nat, seq<Byte>>,
                      records: map<nat, nat>, a: Region, b: Region, end: nat, end': nat)
    requires AllReadable(before, l, texts, records, end) && SameOutside(before, after, a, b) && Sensible(l)
    requires end <= a.start && end <= b.start && end <= end'
    ensures AllReadable(after, l, texts, records, end')
  {
    forall p | p in texts ensures TextAt(after, texts, p, end') {
      assert TextAt(before, texts, p, end);
      FieldStays(before, after, a, b, p, Pascal(texts[p]));
    }
    forall q | q in records ensures RecordAt(after, l, texts, records, q, end') {
      assert RecordAt(before, l, texts, records, q, end);
      FieldStays(before, after, a, b, q + l.typeAt, l.stringType);
      FieldStays(before, after, a, b, q + l.pointerAt, l.pointerTo(records[q]));
    }
  }

  /** A record and its string join what has been written. */
  lemma ReadableJoins(block: seq<Byte>, l: Layout, texts: map<nat, seq<Byte>>, records: map<nat, nat>,
                      end: nat, q: nat, p: nat, text: seq<Byte>)
    requires AllReadable(block, l, texts, records, end) && |text| < 256 && q + l.size <= end && p + 1 + |text| <= end
    requires p in texts ==> texts[p] == text
    requires Field(block, q + l.typeAt, l.stringType) && Field(block, q + l.pointerAt, l.pointerTo(p))
    requires Field(block, p, Pascal(text))
    ensures AllReadable(block, l, texts[p := text], records[q := p], end)
  {
    var texts', records' := texts[p := text], records[q := p];
    forall o | o in texts' ensures TextAt(block, texts', o, end) {
      assert o in texts ==> TextAt(block, texts, o, end);
    }
    forall o | o in records' ensures RecordAt(block, l, texts', records', o, end) {
      assert o in records ==> RecordAt(block, l, texts, records, o, end);
    }
  }

  class Memory {
    const block: array<Byte>
    const layout: Layout
    var offset: nat
    /** What has been handed out since the last free. */
    ghost var regions: seq<Region>
    /** The strings written since the last free, by the offset handed out for them. */
    ghost var texts: map<nat, seq<Byte>>
    /** The records written since the last free, with the offset of the string they point to. */
    ghost var records: map<nat, nat>

    ghost predicate Valid()
      reads this, block
    {
      && block.Length == MEMORY_SIZE && offset <= MEMORY_SIZE && offset % 2 == 0 && Sensible(layout)
      && Packed(regions, offset) && AllReadable(block[..], layout, texts, records, offset)
    }

    constructor (layout: Layout)
      requires Sensible(layout)
      ensures Valid() && fresh(block) && this.layout == layout
      ensures regions == [] && texts == map[] && records == map[] && offset == 0
    {
      this.layout := layout;
      block := new Byte[MEMORY_SIZE](_ => 0);
      offset, regions, texts, records := 0, [], map[], map[];
    }

    /** `FreeAllTempMemory` */
    method FreeAll()
      requires Valid()
      modifies this
      ensures Valid() && regions == [] && texts == map[] && records == map[] && offset == 0
    {
      offset, regions, texts, records := 0, [], map[], map[];
    }

    /** `GetTempMemory`: a new region after all others, or nothing when it does not fit. Rounding
        the offset up to an even one never leaves the block. */
    method GetTempMemory(size: nat) returns (r: Option<nat>)
      requires Valid()
      modifies this`offset, this`regions
      ensures Valid()
      ensures r == if old(offset) + size <= MEMORY_SIZE then Some(old(offset)) else None
      ensures r.None? ==> offset == old(offset) && regions == old(regions)
      ensures r.Some? ==> offset == RoundUp(old(offset) + size) && regions == old(regions) + [Region(r.value, size)]
    {
      if offset + size > MEMORY_SIZE {
        return None;
      }
      r := Some(offset);
      regions := regions + [Region(offset, size)];
      offset := offset + size;
      if offset % 2 == 1 {
        offset := offset + 1;
      }
      ghost var nothing := Region(offset, 0);
      ReadableStays(block[..], block[..], layout, texts, records, nothing, nothing, old(offset), offset);
    }

    /** `strncpy` into the block. */
    method Strncpy(at: nat, s: seq<Byte>, n: nat)
      requires n <= |s| && at + n <= block.Length
      modifies block
      ensures Field(block[..], at, Copied(s, n))
      ensures SameOutside(old(block[..]), block[..], Region(at, n), Region(at, n))
    {
      var ended := false;
      for i := 0 to n
        invariant ended <==> 0 in s[..i]
        invariant forall k :: 0 <= k < i ==> block[at + k] == Copied(s, i)[k]
        invariant forall k :: 0 <= k < block.Length && !(at <= k < at + i) ==> block[k] == old(block[k])
      {
        assert s[..i + 1] == s[..i] + [s[i]];
        ended := ended || s[i] == 0;
        block[at + i] := if ended then 0 else s[i];
      }
    }

    /** A store through a pointer. */
    method Put(at: nat, bytes: seq<Byte>)
      requires at + |bytes| <= block.Length
      modifies block
      ensures Field(block[..], at, bytes)
      ensures SameOutside(old(block[..]), block[..], Region(at, |bytes|), Region(at, |bytes|))
    {
      for i := 0 to |bytes|
        invariant forall k :: 0 <= k < i ==> block[at + k] == bytes[k]
        invariant forall k :: 0 <= k < block.Length && !(at <= k < at + i) ==> block[k] == old(block[k])
      {
        block[at + i] := bytes[i];
      }
    }

    /** The string and its length, at `p`. */
    method PutString(p: nat, s: seq<Byte>, len: nat)
      requires len == Length(s) && p + len + 1 <= block.Length
      modifies block
      ensures Field(block[..], p, Pascal(Copied(s, len)))
      ensures SameOutside(old(block[..]), block[..], Region(p, len + 1), Region(p, len + 1))
    {
      Strncpy(p + 1, s, len);
      ghost var copied := block[..];
      Put(p, [len as Byte]);
      FieldStays(copied, block[..], Region(p, 1), Region(p, 1), p + 1, Copied(s, len));
      SameOutsideJoins(old(block[..]), copied, block[..], Region(p + 1, len), Region(p, 1), Region(p, len + 1), Region(p, len + 1));
      forall i | 0 <= i < len + 1 ensures block[p + i] == Pascal(Copied(s, len))[i] {
        assert i > 0 ==> block[..][p + 1 + (i - 1)] == Copied(s, len)[i - 1];
      }
    }

    /** What has been written ends by `end`, and the new record starts there. */
    ghost predicate Follows(end: nat)
      reads this, block
    {
      Valid() && end + layout.size <= offset && AllReadable(block[..], layout, texts, records, end)
    }

    /** The type of the record. */
    method PutType(lpx: nat)
      requires Follows(lpx)
      modifies block
      ensures Follows(lpx) && Field(block[..], lpx + layout.typeAt, layout.stringType)
      ensures SameOutside(old(block[..]), block[..], Region(lpx, layout.size), Region(lpx, layout.size))
    {
      ghost var record := Region(lpx, layout.size);
      Put(lpx + layout.typeAt, layout.stringType);
      ReadableStays(old(block[..]), block[..], layout, texts, records, record, record, lpx, lpx);
      ReadableStays(old(block[..]), block[..], layout, texts, records, record, record, lpx, offset);
    }

    /** The pointer of the record, and the string. */
    method PutRest(lpx: nat, str: nat, s: seq<Byte>, len: nat)
      requires Follows(lpx) && Field(block[..], lpx + layout.typeAt, layout.stringType)
      requires len == Length(s) && lpx + layout.size <= str && str + len + 1 <= offset
      modifies block, this`texts, this`records
      ensures Valid() && texts == old(texts)[str := Copied(s, len)] && records == old(records)[lpx := str]
      ensures SameOutside(old(block[..]), block[..], Region(lpx, layout.size), Region(str, len + 1))
    {
      ghost var was, record, text := block[..], Region(lpx, layout.size), Region(str, len + 1);
      ghost var pointer := Region(lpx + layout.pointerAt, layout.pointerSize);
      Put(lpx + layout.pointerAt, layout.pointerTo(str));
      ghost var pointed := block[..];
      PutString(str, s, len);
      SameOutsideJoins(was, pointed, block[..], pointer, text, record, text);
      SameOutsideJoins(was, pointed, block[..], pointer, text, pointer, text);
      FieldStays(was, block[..], pointer, text, lpx + layout.typeAt, layout.stringType);
      FieldStays(pointed, block[..], text, text, lpx + layout.pointerAt, layout.pointerTo(str));
      ReadableStays(was, block[..], layout, texts, records, record, text, lpx, offset);
      assert str !in texts by { assert str in texts ==> TextAt(was, texts, str, lpx); }
      ReadableJoins(block[..], layout, texts, records, offset, lpx, str, Copied(s, len));
      texts, records := texts[str := Copied(s, len)], records[lpx := str];
    }

    lemma Untouched(was: seq<Byte>, typed: seq<Byte>, now: seq<Byte>, lpx: nat, str: nat, len: nat)
      requires SameOutside(was, typed, Region(lpx, layout.size), Region(lpx, layout.size))
      requires SameOutside(typed, now, Region(lpx, layout.size), Region(str, len + 1))
      ensures SameOutside(was, now, Region(lpx, layout.size), Region(str, len + 1))
    {
    }

    /** `TempStrStl`: a region for the record and one for the string, which is cut to 255 bytes.
        Only these two are written, and only the record's when the string does not fit. Everything
        written since the last free stays as it was: records, their pointers and the strings. */
    method TempStrStl(s: seq<Byte>) returns (r: Option<(nat, nat)>)
      requires Valid()
      modifies this, block
      ensures Valid()
      ensures r.Some? <==> RoundUp(old(offset) + layout.size) + Length(s) + 1 <= MEMORY_SIZE
      ensures r.Some? ==>
        && regions == old(regions) + [Region(r.value.0, layout.size), Region(r.value.1, Length(s) + 1)]
        && texts == old(texts)[r.value.1 := Copied(s, Length(s))]
        && records == old(records)[r.value.0 := r.value.1]
        && SameOutside(old(block[..]), block[..], Region(r.value.0, layout.size), Region(r.value.1, Length(s) + 1))
      ensures r.Some? ==> forall i :: 0 <= i < Length(s) ==>
        texts[r.value.1][i] == if exists j :: 0 <= j <= i && s[j] == 0 then 0 else s[i]
      ensures r.Some? && 0 !in s[..Length(s)] ==> texts[r.value.1] == s[..Length(s)]
      ensures r.None? ==> texts == old(texts) && records == old(records)
      ensures r.None? ==> SameOutside(old(block[..]), block[..], Region(old(offset), layout.size), Region(old(offset), layout.size))
    {
      var lpx := GetTempMemory(layout.size);
      if lpx.None? {
        return None;
      }
      PutType(lpx.value);
      ghost var typed := block[..];
      var len := Length(s);
      var str := GetTempMemory(len + 1);
      if str.None? {
        return None;
      }
      PutRest(lpx.value, str.value, s, len);
      Untouched(old(block[..]), typed, block[..], lpx.value, str.value, len);
      r := Some((lpx.value, str.value));
      forall i | 0 <= i < len ensures Copied(s, len)[i] == if exists j :: 0 <= j <= i && s[j] == 0 then 0 else s[i] {
        CopiedAt(s, len, i);
      }
      if 0 !in s[..len] {
        CopiedWhole(s, len);
      }
    }
  }
}
