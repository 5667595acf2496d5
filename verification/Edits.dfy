/**
 Byte offsets, line-and-column positions and the edit that describes an insertion, from
 src/code/ast.rs.  Text is a sequence of characters, each one to four bytes wide in UTF-8.
 */
module Edits {
  import opened Wrappers

  function Pow2(n: nat): nat {
    if n == 0 then 1 else 2 * Pow2(n - 1)
  }

  /** How many bits of a character `w` bytes carry, section 3 of RFC 3629. */
  function PayloadBits(w: nat): nat {
    if w == 1 then 7 else 5 * w + 1
  }

  lemma Payloads()
    ensures Pow2(7) == 0x80 && Pow2(11) == 0x800 && Pow2(16) == 0x1_0000 && Pow2(21) == 0x20_0000
  {
  }

  /** The least number of bytes that can carry the character. */
  function Utf8Width(c: char): (w: nat)
    ensures 1 <= w <= 4
    ensures c as int < Pow2(PayloadBits(w)) && (w > 1 ==> c as int >= Pow2(PayloadBits(w - 1)))
  {
    Payloads();
    if c < 0x80 as char then 1 else if c < 0x800 as char then 2 else if (c as int) < 0x1_0000 then 3 else 4
  }

  function One(c: char): nat {
    1
  }

  function Total(text: string, width: char -> nat): nat {
    if text == [] then 0 else Total(text[..|text| - 1], width) + width(text[|text| - 1])
  }

  function Bytes(text: string): nat {
    Total(text, Utf8Width)
  }

  /** The line a text ends on, and how far along it, as `width` measures. */
  ghost function Place(text: string, width: char -> nat): (nat, nat) {
    if text == [] then (0, 0)
    else
      var (line, column) := Place(text[..|text| - 1], width);
      var c := text[|text| - 1];
      if c == '\n' then (line + 1, 0) else (line, column + width(c))
  }

  // ----- Offsets

  /** The number of characters before a byte offset; None inside a character. */
  function Boundary(text: string, offset: nat): (k: Option<nat>)
    ensures k.Some? ==> k.value <= |text| && Bytes(text[..k.value]) == offset
    ensures k.None? ==> forall i :: 0 <= i <= |text| ==> Bytes(text[..i]) != offset
  {
    assert text[..|text|] == text;
    if Bytes(text) == offset then Some(|text|)
    else if text == [] then None
    else
      var init := text[..|text| - 1];
      assert forall i :: 0 <= i <= |init| ==> init[..i] == text[..i];
      Boundary(init, offset)
  }

  lemma {:induction false} TotalAppend(a: string, b: string, width: char -> nat)
    ensures Total(a + b, width) == Total(a, width) + Total(b, width)
  {
    if b == [] {
      assert a + b == a;
    } else {
      assert (a + b)[..|a + b| - 1] == a + b[..|b| - 1];
      TotalAppend(a, b[..|b| - 1], width);
    }
  }

  lemma {:induction false} BytesAtLeast(text: string)
    ensures Bytes(text) >= |text|
    ensures Bytes(text) == |text| <==> OneByteEach(text)
  {
    if text != [] {
      var init := text[..|text| - 1];
      BytesAtLeast(init);
      assert forall i :: 0 <= i < |init| ==> init[i] == text[i];
    }
  }

  predicate OneByteEach(text: string) {
    forall i :: 0 <= i < |text| ==> Utf8Width(text[i]) == 1
  }

  lemma BoundaryAt(text: string, k: nat)
    requires k <= |text|
    ensures Boundary(text, Bytes(text[..k])) == Some(k)
  {
    hide Bytes, Total;
    var found := Boundary(text, Bytes(text[..k])).value;
    BytesBetween(text, if found < k then found else k, if found < k then k else found);
  }

  lemma BytesBetween(text: string, low: nat, high: nat)
    requires low <= high <= |text|
    ensures Bytes(text[..high]) >= Bytes(text[..low]) + (high - low)
  {
    assert text[..high] == text[..low] + text[low..high];
    TotalAppend(text[..low], text[low..high], Utf8Width);
    BytesAtLeast(text[low..high]);
    hide Total;
  }

  lemma {:induction false} TotalOnes(text: string)
    ensures Total(text, One) == |text|
  {
    if text != [] {
      TotalOnes(text[..|text| - 1]);
    }
  }

  /**
   `byte_offset_to_position`: None is the panic of slicing inside a character.  An offset past the
   end stands for the end, lines are counted from 0 and columns in characters.
   */
  method ByteOffsetToPosition(source: string, byteOffset: nat) returns (position: Option<(nat, nat)>)
    ensures match Boundary(source, if byteOffset < Bytes(source) then byteOffset else Bytes(source))
            case None => position == None
            case Some(k) => position == Some(Place(source[..k], One))
  {
    hide Place, Total, Boundary, Utf8Width;
    var end := Boundary(source, if byteOffset < Bytes(source) then byteOffset else Bytes(source));
    if end == None {
      return None;
    }
    var prefix := source[..end.value];
    var line, lastNewline, at := 0, 0, 0;
    ghost var lineStart := 0;
    NothingRead(prefix);
    for i := 0 to |prefix|
      invariant lineStart <= i && at == Bytes(prefix[..i]) && lastNewline == Bytes(prefix[..lineStart])
      invariant Place(prefix[..i], One) == (line, i - lineStart)
    {
      OneMore(prefix[..i], prefix[i], One);
      OneMore(prefix[..i], prefix[i], Utf8Width);
      assert prefix[..i + 1] == prefix[..i] + [prefix[i]];
      if prefix[i] == '\n' {
        line, lastNewline := line + 1, at + 1;
        lineStart := i + 1;
      }
      at := at + Utf8Width(prefix[i]);
    }
    assert prefix[..|prefix|] == prefix;
    BoundaryAt(prefix, lineStart);
    var column := |prefix[Boundary(prefix, lastNewline).value..]|;
    position := Some((line, column));
  }

  lemma NothingRead(text: string)
    ensures Place(text[..0], One) == (0, 0) && Bytes(text[..0]) == 0 && Utf8Width('\n') == 1
  {
  }

  // ----- Insertions

  datatype EditInfo = EditInfo(
    startByte: nat, oldEndByte: nat, newEndByte: nat,
    startPosition: (nat, nat), oldEndPosition: (nat, nat), newEndPosition: (nat, nat))

  /** The pieces between newlines; there is always at least one. */
  function SplitLines(text: string): (lines: seq<string>)
    ensures |lines| >= 1
  {
    if text == [] then [[]]
    else
      var lines, c := SplitLines(text[..|text| - 1]), text[|text| - 1];
      if c == '\n' then lines + [[]] else lines[|lines| - 1 := lines[|lines| - 1] + [c]]
  }

  function Insertion(position: nat, row: nat, column: nat, inserted: string): EditInfo {
    var lines := SplitLines(inserted);
    var endColumn := if |lines| == 1 then column + Bytes(inserted) else Bytes(lines[|lines| - 1]);
    EditInfo(position, position, position + Bytes(inserted),
             (row, column), (row, column), (row + |lines| - 1, endColumn))
  }

  function Last(lines: seq<string>): string
    requires lines != []
  {
    lines[|lines| - 1]
  }

  /** The effect of one more character. */
  lemma OneMore(text: string, c: char, width: char -> nat)
    ensures Total(text + [c], width) == Total(text, width) + width(c)
    ensures var (line, column) := Place(text, width);
            Place(text + [c], width) == if c == '\n' then (line + 1, 0) else (line, column + width(c))
    ensures var lines, more := SplitLines(text), SplitLines(text + [c]);
            if c == '\n' then |more| == |lines| + 1 && Last(more) == []
            else |more| == |lines| && Last(more) == Last(lines) + [c]
  {
    assert (text + [c])[..|text|] == text;
  }

  lemma {:induction false} OnlyLine(text: string)
    ensures |SplitLines(text)| == 1 ==> Last(SplitLines(text)) == text
  {
    if text != [] {
      var init := text[..|text| - 1];
      OnlyLine(init);
      assert text == init + [text[|text| - 1]];
    }
  }

  /** Where lines end that begin at `start`. */
  ghost function EndsAt(start: (nat, nat), lines: seq<string>, width: char -> nat): (nat, nat)
    requires lines != []
  {
    (start.0 + |lines| - 1, (if |lines| == 1 then start.1 else 0) + Total(Last(lines), width))
  }

  lemma EndsOneMore(start: (nat, nat), text: string, c: char, width: char -> nat)
    ensures
      var (line, column) := EndsAt(start, SplitLines(text), width);
      EndsAt(start, SplitLines(text + [c]), width) == if c == '\n' then (line + 1, 0) else (line, column + width(c))
  {
    OneMore(text, c, width);
    OneMore(Last(SplitLines(text)), c, width);
    hide SplitLines, Place, Last;
  }

  lemma {:induction false} PlaceAppend(before: string, text: string, width: char -> nat)
    ensures Place(before + text, width) == EndsAt(Place(before, width), SplitLines(text), width)
  {
    if text == [] {
      assert before + text == before;
      assert SplitLines(text) == [[]] && Total([], width) == 0;
    } else {
      var init, c := text[..|text| - 1], text[|text| - 1];
      assert before + text == (before + init) + [c] && text == init + [c];
      PlaceAppend(before, init, width);
      PlaceOneMore(Place(before, width), before + init, init, c, width);
    }
  }

  lemma PlaceOneMore(start: (nat, nat), whole: string, text: string, c: char, width: char -> nat)
    requires Place(whole, width) == EndsAt(start, SplitLines(text), width)
    ensures Place(whole + [c], width) == EndsAt(start, SplitLines(text + [c]), width)
  {
    OneMore(whole, c, width);
    EndsOneMore(start, text, c, width);
    hide SplitLines, Place, EndsAt;
  }

  /** The insertion at the end of `before`, with columns as `width` measures them. */
  ghost function InsertionAt(before: string, inserted: string, width: char -> nat): EditInfo {
    Insertion(Bytes(before), Place(before, width).0, Place(before, width).1, inserted)
  }

  lemma InsertionInBytes(position: nat, start: (nat, nat), inserted: string)
    ensures Insertion(position, start.0, start.1, inserted).newEndPosition
         == EndsAt(start, SplitLines(inserted), Utf8Width)
  {
    OnlyLine(inserted);
    hide SplitLines, Total;
  }

  lemma InsertionInCharacters(start: (nat, nat), lines: seq<string>)
    requires lines != []
    ensures EndsAt(start, lines, Utf8Width) == EndsAt(start, lines, One) <==> OneByteEach(Last(lines))
  {
    TotalOnes(Last(lines));
    BytesAtLeast(Last(lines));
    hide Total, OneByteEach;
  }

  /**
   An insertion described from its place in the source ends where the new source says.  With
   columns in bytes, always; with the columns in characters of `ByteOffsetToPosition`, exactly
   when the last line inserted has none but one-byte characters.
   */
  lemma InsertionEnds(before: string, inserted: string, rest: string)
    ensures
      var edit := InsertionAt(before, inserted, One);
      && Boundary(before + inserted + rest, edit.newEndByte) == Some(|before + inserted|)
      && InsertionAt(before, inserted, Utf8Width).newEndPosition == Place(before + inserted, Utf8Width)
      && (edit.newEndPosition == Place(before + inserted, One) <==> OneByteEach(Last(SplitLines(inserted))))
  {
    var after := before + inserted + rest;
    assert after[..|before + inserted|] == before + inserted;
    BoundaryAt(after, |before + inserted|);
    InsertionPlaces(before, inserted);
    hide SplitLines, Place, InsertionAt, OneByteEach, Boundary, Bytes, Total, Last;
  }

  lemma InsertionPlaces(before: string, inserted: string)
    ensures InsertionAt(before, inserted, One).newEndByte == Bytes(before + inserted)
    ensures InsertionAt(before, inserted, Utf8Width).newEndPosition == Place(before + inserted, Utf8Width)
    ensures InsertionAt(before, inserted, One).newEndPosition == Place(before + inserted, One)
            <==> OneByteEach(Last(SplitLines(inserted)))
  {
    TotalAppend(before, inserted, Utf8Width);
    PlaceAppend(before, inserted, One);
    PlaceAppend(before, inserted, Utf8Width);
    InsertionInBytes(Bytes(before), Place(before, One), inserted);
    InsertionInBytes(Bytes(before), Place(before, Utf8Width), inserted);
    InsertionInCharacters(Place(before, One), SplitLines(inserted));
    assert InsertionAt(before, inserted, One).newEndByte == Bytes(before + inserted);
    hide SplitLines, Place, Total, EndsAt, Insertion, OneByteEach;
  }

  // ----- What an edit says

  /** `EditInfo::deletion`. */
  function Deletion(startByte: nat, endByte: nat, startPosition: (nat, nat), endPosition: (nat, nat)): EditInfo {
    EditInfo(startByte, endByte, startByte, startPosition, endPosition, startPosition)
  }

  /**
   The edit says that behind `before` the text `gone` has given way to `came`: its offsets and places
   are where the old and the new text begin and end.
   */
  ghost predicate Describes(edit: EditInfo, before: string, gone: string, came: string, width: char -> nat) {
    && edit.startByte == Bytes(before) && edit.startPosition == Place(before, width)
    && edit.oldEndByte == Bytes(before + gone) && edit.oldEndPosition == Place(before + gone, width)
    && edit.newEndByte == Bytes(before + came) && edit.newEndPosition == Place(before + came, width)
  }

  /** An insertion is described throughout, but for the column of its end if columns count characters. */
  lemma InsertionDescribes(before: string, inserted: string)
    ensures Describes(InsertionAt(before, inserted, Utf8Width), before, "", inserted, Utf8Width)
    ensures Describes(InsertionAt(before, inserted, One), before, "", inserted, One)
       <==> OneByteEach(Last(SplitLines(inserted)))
  {
    assert before + "" == before;
    InsertionStarts(before, inserted, One);
    InsertionStarts(before, inserted, Utf8Width);
    InsertionPlaces(before, inserted);
    hide SplitLines, Place, Bytes, InsertionAt, OneByteEach;
  }

  lemma InsertionStarts(before: string, inserted: string, width: char -> nat)
    ensures var edit := InsertionAt(before, inserted, width);
            && edit.startByte == edit.oldEndByte == Bytes(before) && edit.newEndByte == Bytes(before + inserted)
            && edit.startPosition == edit.oldEndPosition == Place(before, width)
  {
    TotalAppend(before, inserted, Utf8Width);
    hide SplitLines, Place, Total;
  }

  lemma DeletionDescribes(before: string, gone: string, width: char -> nat)
    ensures Describes(Deletion(Bytes(before), Bytes(before + gone), Place(before, width), Place(before + gone, width)),
                      before, gone, "", width)
  {
    assert before + "" == before;
    hide Place, Bytes;
  }

  /** Taking out what has just been inserted is the insertion the other way round. */
  lemma InsertionUndone(before: string, inserted: string)
    ensures var edit := InsertionAt(before, inserted, Utf8Width);
            Describes(Deletion(edit.startByte, edit.newEndByte, edit.startPosition, edit.newEndPosition),
                      before, inserted, "", Utf8Width)
  {
    InsertionDescribes(before, inserted);
    DeletionDescribes(before, inserted, Utf8Width);
    hide Place, Bytes, InsertionAt, SplitLines;
  }
}
