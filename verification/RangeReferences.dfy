/** Worksheet ranges, and the error messages kept for them. */
module RangeReferences {
  import opened Ids
  import opened IdMaps

  /** A parsed address. The end of a single cell is at (-1, -1). */
  datatype RangeReference = RangeReference(
    address: string, book: string, sheet: string,
    rowStart: int, colStart: int, rowEnd: int, colEnd: int, multicell: bool)

  /** `operator==` */
  predicate Same(a: RangeReference, b: RangeReference) {
    || a.address == b.address
    || (a.book == b.book && a.sheet == b.sheet && a.multicell == b.multicell && a.rowStart == b.rowStart
        && a.colStart == b.colStart && a.rowEnd == b.rowEnd && a.colEnd == b.colEnd)
  }

  /** `contains` */
  predicate Contains(a: RangeReference, r: RangeReference) {
    if Same(a, r) then true
    else if a.book != r.book || a.sheet != r.sheet then false
    else if a.multicell then
      if r.multicell then
        r.rowStart >= a.rowStart && r.rowEnd <= a.rowEnd && r.colStart >= a.colStart && r.colEnd <= a.colEnd
      else
        r.rowStart >= a.rowStart && r.rowStart <= a.rowEnd && r.colStart >= a.colStart && r.colStart <= a.colEnd
    else
      !r.multicell && r.rowStart == a.rowStart && r.colStart == a.colStart
  }

  // ----- ranges as sets of cells -----

  /** The cell at `row` and `col` belongs to the range. */
  predicate HasCell(r: RangeReference, row: int, col: int) {
    if r.multicell then r.rowStart <= row <= r.rowEnd && r.colStart <= col <= r.colEnd
    else row == r.rowStart && col == r.colStart
  }

  ghost predicate Covers(a: RangeReference, b: RangeReference) {
    a.book == b.book && a.sheet == b.sheet && forall row, col :: HasCell(b, row, col) ==> HasCell(a, row, col)
  }

  /** What Excel writes: a range ends no earlier than it starts. */
  predicate Normal(r: RangeReference) {
    if r.multicell then r.rowStart <= r.rowEnd && r.colStart <= r.colEnd else r.rowEnd == -1 && r.colEnd == -1
  }

  /** An address determines the range. */
  ghost predicate Consistent(a: RangeReference, b: RangeReference) {
    a.address == b.address ==> a == b
  }

  predicate SpansSeveral(r: RangeReference) {
    r.multicell && (r.rowStart < r.rowEnd || r.colStart < r.colEnd)
  }

  /** Containment is inclusion of cells within a sheet, except that a range written as one cell does
      not contain the same cell written with both corners. */
  lemma ContainsIffCovers(a: RangeReference, b: RangeReference)
    requires Normal(a) && Normal(b) && Consistent(a, b)
    ensures Contains(a, b) <==> Covers(a, b) && (a.multicell || !b.multicell)
  {
    assert HasCell(b, b.rowStart, b.colStart);
    if b.multicell { assert HasCell(b, b.rowEnd, b.colEnd); }
  }

  /** One cell, written in the two ways. */
  lemma SingleCellWrittenTwice(a: RangeReference, b: RangeReference)
    requires a == RangeReference("[B]S!R1C1", "B", "S", 1, 1, -1, -1, false)
    requires b == RangeReference("[B]S!R1C1:R1C1", "B", "S", 1, 1, 1, 1, true)
    ensures Normal(a) && Normal(b) && Consistent(a, b)
    ensures Covers(a, b) && !Contains(a, b) && Contains(b, a)
  {
    assert |a.address| != |b.address|;
  }

  /** So it is inclusion of cells when ranges written with both corners span several cells. */
  lemma ContainsIsInclusion(a: RangeReference, b: RangeReference)
    requires Normal(a) && Normal(b) && Consistent(a, b) && (b.multicell ==> SpansSeveral(b))
    ensures Contains(a, b) <==> Covers(a, b)
  {
    ContainsIffCovers(a, b);
    if b.multicell {
      assert HasCell(b, b.rowStart, b.colStart) && HasCell(b, b.rowEnd, b.colEnd);
    }
  }

  lemma ContainsTransitive(a: RangeReference, b: RangeReference, c: RangeReference)
    requires Normal(a) && Normal(b) && Normal(c) && Consistent(a, b) && Consistent(b, c) && Consistent(a, c)
    requires Contains(a, b) && Contains(b, c)
    ensures Contains(a, c)
  {
    ContainsIffCovers(a, b);
    ContainsIffCovers(b, c);
    ContainsIffCovers(a, c);
  }

  // ----- error messages -----

  datatype Message = Message(range: RangeReference, text: string)

  /** Reads an address; `None` for an invalid one. */
  type Parser = string -> Option<RangeReference>

  ghost predicate Reads(parse: Parser) {
    forall a :: parse(a).Some? ==> parse(a).value.address == a && Normal(parse(a).value)
  }

  /** The key is the upper-cased address of the range; messages are not empty. */
  ghost predicate KeptAt(parse: Parser, m: map<string, Entry<Message>>, f: string)
    requires f in m
  {
    m[f].key == f && parse(f) == Some(m[f].value.range) && m[f].value.text != ""
  }

  ghost predicate AllKept(parse: Parser, m: map<string, Entry<Message>>) {
    forall f {:trigger KeptAt(parse, m, f)} :: f in m ==> KeptAt(parse, m, f)
  }

  /** The answer to a selection: a message exactly when some stored range contains the selection,
      and then that of such a range. */
  ghost predicate Answers(entries: seq<Entry<Message>>, selection: RangeReference, text: string) {
    && (text == "" <==> forall i :: 0 <= i < |entries| ==> !Contains(entries[i].value.range, selection))
    && (text != "" ==>
          exists i :: 0 <= i < |entries| && Contains(entries[i].value.range, selection) && entries[i].value.text == text)
  }

  /** The message of the first range, in the order of addresses, that contains the selection. */
  function FirstMessage(entries: seq<Entry<Message>>, selection: RangeReference): string {
    if entries == [] then ""
    else if Contains(entries[0].value.range, selection) then entries[0].value.text
    else FirstMessage(entries[1..], selection)
  }

  lemma FoundExactly(entries: seq<Entry<Message>>, key: string, selection: RangeReference)
    requires Sorted(entries) && key in View(entries) && View(entries)[key].value.range == selection
    requires View(entries)[key].value.text != ""
    ensures Answers(entries, selection, View(entries)[key].value.text)
  {
    ViewHas(entries, key);
    var i :| 0 <= i < |entries| && entries[i] == View(entries)[key];
    assert Contains(entries[i].value.range, selection);
  }

  /** A message is found exactly when a stored range covers the cells of the selection, leaving
      aside single cells written with both corners. */
  lemma AnsweredIffCovered(parse: Parser, entries: seq<Entry<Message>>, selection: RangeReference, text: string)
    requires Reads(parse) && Sorted(entries) && AllKept(parse, View(entries)) && Answers(entries, selection, text)
    requires parse(selection.address) == Some(selection) && (selection.multicell ==> SpansSeveral(selection))
    ensures text != "" <==> exists f :: f in View(entries) && Covers(View(entries)[f].value.range, selection)
  {
    forall i | 0 <= i < |entries|
      ensures Contains(entries[i].value.range, selection) <==> Covers(entries[i].value.range, selection)
    {
      ViewAt(entries, i);
      assert KeptAt(parse, View(entries), Fold(entries[i].key));
      ContainsIsInclusion(entries[i].value.range, selection);
    }
    if f :| f in View(entries) && Covers(View(entries)[f].value.range, selection) {
      ViewHas(entries, f);
      var i :| 0 <= i < |entries| && entries[i] == View(entries)[f];
    }
    if text != "" {
      var i :| 0 <= i < |entries| && Contains(entries[i].value.range, selection);
      ViewAt(entries, i);
    }
  }

  /** The messages by upper-cased address. */
  class ErrorMessages {
    const messages: IdMap<Message>
    const parse: Parser

    ghost predicate Valid()
      reads messages
    {
      messages.Valid() && Reads(parse) && AllKept(parse, View(messages.entries))
    }

    constructor (parse: Parser)
      requires Reads(parse)
      ensures Valid() && fresh(messages) && View(messages.entries) == map[] && this.parse == parse
    {
      this.parse := parse;
      messages := new IdMap();
    }

    /** `setError`: the message of the range at that address is set or replaced. */
    method SetError(refStr: string, functionName: string, message: string) returns (ok: bool)
      requires Valid()
      modifies messages
      ensures Valid()
      ensures ok <==> Fold(refStr) in old(View(messages.entries)) || parse(Fold(refStr)).Some?
      ensures !ok ==> View(messages.entries) == old(View(messages.entries))
      ensures ok ==> parse(Fold(refStr)).Some?
      ensures ok ==> View(messages.entries) == old(View(messages.entries))[Fold(refStr) :=
                       Entry(Fold(refStr), Message(parse(Fold(refStr)).value, functionName + " - " + message))]
    {
      var text := functionName + " - " + message;
      var key := Fold(refStr);
      FoldIdempotent(refStr);
      var found := messages.Find(key);
      if found.Some? {
        assert KeptAt(parse, View(messages.entries), key);
        messages.Assign(key, Message(found.value.value.range, text));
      } else {
        var range := parse(key);
        if range.None? {
          return false;
        }
        messages.Assign(key, Message(range.value, text));
      }
      ok := true;
      forall f | f in View(messages.entries) ensures KeptAt(parse, View(messages.entries), f) {
        assert f != key ==> KeptAt(parse, old(View(messages.entries)), f);
      }
    }

    /** `clearError` */
    method ClearError(refStr: string)
      requires Valid()
      modifies messages
      ensures Valid() && View(messages.entries) == old(View(messages.entries)) - {Fold(refStr)}
    {
      FoldIdempotent(refStr);
      messages.Erase(Fold(refStr));
      forall f | f in View(messages.entries) ensures KeptAt(parse, View(messages.entries), f) {
        assert KeptAt(parse, old(View(messages.entries)), f);
      }
    }

    /** `retrieveError`: the message of the very address if there is one, else that of the first
        range that contains the selection, else the empty string; `None` for an invalid address. */
    method RetrieveError(refStr: string) returns (r: Option<string>)
      requires Valid()
      ensures var m := View(messages.entries);
        && (r.None? <==> Fold(refStr) !in m && parse(Fold(refStr)).None?)
        && (Fold(refStr) in m ==> r == Some(m[Fold(refStr)].value.text))
        && (r.Some? ==> parse(Fold(refStr)).Some? && Answers(messages.entries, parse(Fold(refStr)).value, r.value))
        && (r.Some? && Fold(refStr) !in m ==> r.value == FirstMessage(messages.entries, parse(Fold(refStr)).value))
    {
      var key := Fold(refStr);
      FoldIdempotent(refStr);
      var found := messages.Find(key);
      if found.Some? {
        assert KeptAt(parse, View(messages.entries), key);
        FoundExactly(messages.entries, key, parse(key).value);
        return Some(found.value.value.text);
      }
      var selection := parse(key);
      if selection.None? {
        return None;
      }
      for i := 0 to |messages.entries|
        invariant forall j :: 0 <= j < i ==> !Contains(messages.entries[j].value.range, selection.value)
        invariant FirstMessage(messages.entries, selection.value) == FirstMessage(messages.entries[i..], selection.value)
      {
        var entry := messages.entries[i];
        if Contains(entry.value.range, selection.value) {
          ViewAt(messages.entries, i);
          assert KeptAt(parse, View(messages.entries), Fold(entry.key));
          return Some(entry.value.text);
        }
      }
      r := Some("");
    }
  }
}
