/** The cursor tokenizers TryReadLine and TryReadPart. The `ref int
    startIndex` cursor is passed in and its new value handed back in the
    Read record together with the return value and the `out` token. Both
    calls throw (from Slice) on a negative cursor below the end of the text. */
module Tokenizer {
  import opened Outcomes
  import opened Spans

  /** One TryRead call: what it returned, the token it wrote to its `out`
      parameter, and the cursor it left in its `ref` parameter. */
  datatype Read = Read(found: bool, token: seq<char>, cursor: int)

  /** The characters TryReadLine treats as line breaks. */
  const LineBreaks: seq<char> := ['\r', '\n']

  /** A "\r\n" pair starts at `i`. */
  predicate CrLfAt(text: seq<char>, i: int) {
    0 <= i && i + 1 < |text| && text[i] == '\r' && text[i + 1] == '\n'
  }

  /** `line` is the line starting at `start`: the text up to the next line
      break (or the end), and `cursor` is the position after that break,
      a "\r\n" pair counting as one break. */
  predicate LineAt(text: seq<char>, start: int, line: seq<char>, cursor: int) {
    0 <= start && start + |line| <= |text| && text[start..start + |line|] == line
    && (forall i :: 0 <= i < |line| ==> line[i] !in LineBreaks)
    && (start + |line| == |text| ==> cursor == |text|)
    && (start + |line| < |text| ==>
          text[start + |line|] in LineBreaks
          && cursor == start + |line| + (if CrLfAt(text, start + |line|) then 2 else 1))
  }

  // ---------------------------------------------------------------------
  // TryReadLine

  /** TryReadLine(text, out line, ref startIndex), as written: the offset of
      the next line break is found in text[startIndex..] but then used as a
      position in `text` itself. */
  function ReadLine(text: seq<char>, startIndex: int): (r: Outcome<Read>)
    ensures r.Threw? ==> r == Threw(ArgumentOutOfRange)
    ensures startIndex < 0 ==> r.Threw?
    ensures r.Returned? ==> (r.value.found <==> startIndex < |text|)
    ensures r.Returned? && !r.value.found ==> r.value == Read(false, [], startIndex)
    ensures r.Returned? && r.value.found ==>
      startIndex < r.value.cursor <= |text|
      && r.value.token <= text[startIndex..]
      && forall i :: 0 <= i < |r.value.token| ==> r.value.token[i] !in LineBreaks
  {
    if startIndex >= |text| then Returned(Read(false, [], startIndex))
    else match SliceFrom(text, startIndex)
      case Threw(e) => Threw(e)
      case Returned(rest) =>
        var nextLinePos := IndexOfAny(rest, LineBreaks);
        if nextLinePos == -1 then
          match Slice(text, startIndex, |text| - startIndex)
          case Threw(e) => Threw(e)
          case Returned(nextLine) => Returned(Read(true, nextLine, |text|))
        else
          match Slice(text, startIndex, nextLinePos - startIndex)
          case Threw(e) => Threw(e)
          case Returned(nextLine) =>
            assert forall i :: 0 <= i < |nextLine| ==> nextLine[i] == rest[i];
            var next := nextLinePos + 1;
            var crlf := text[nextLinePos] == '\r' && |text| > nextLinePos + 1 && text[nextLinePos + 1] == '\n';
            Returned(Read(true, nextLine, if crlf then next + 1 else next))
  }

  /** TryReadLine, with the IndexOfAny scan for the next line break written
      out as a loop. */
  method TryReadLine(text: seq<char>, startIndex: int) returns (r: Outcome<Read>)
    ensures r == ReadLine(text, startIndex)
  {
    if startIndex >= |text| {
      return Returned(Read(false, [], startIndex));
    }
    if startIndex < 0 {
      return Threw(ArgumentOutOfRange);
    }
    var rest := text[startIndex..];
    var nextLinePos := 0;
    while nextLinePos < |rest| && rest[nextLinePos] != '\r' && rest[nextLinePos] != '\n'
      invariant 0 <= nextLinePos <= |rest|
      invariant forall i :: 0 <= i < nextLinePos ==> rest[i] !in LineBreaks
    {
      nextLinePos := nextLinePos + 1;
    }
    assert text[startIndex..startIndex + (|text| - startIndex)] == rest;
    if nextLinePos == |rest| {
      assert IndexOfAny(rest, LineBreaks) == -1;
      return Returned(Read(true, rest, |text|));
    }
    assert IndexOfAny(rest, LineBreaks) == nextLinePos;
    if nextLinePos < startIndex {
      return Threw(ArgumentOutOfRange);
    }
    var line := text[startIndex..nextLinePos];
    var cursor := nextLinePos + 1;
    if text[nextLinePos] == '\r' && |text| > nextLinePos + 1 && text[nextLinePos + 1] == '\n' {
      cursor := cursor + 1;
    }
    r := Returned(Read(true, line, cursor));
  }

  /** With nothing left to read the call reports exhaustion and leaves the
      cursor where it was. */
  lemma ReadLineExhausted(text: seq<char>, startIndex: int)
    requires startIndex >= |text|
    ensures ReadLine(text, startIndex) == Returned(Read(false, [], startIndex))
  {
  }

  /** A remainder without a line break is returned whole, and the cursor
      moves to the end. */
  lemma {:induction false} ReadLineLastLine(text: seq<char>, startIndex: int)
    requires 0 <= startIndex < |text|
    requires forall i :: startIndex <= i < |text| ==> text[i] !in LineBreaks
    ensures ReadLine(text, startIndex) == Returned(Read(true, text[startIndex..], |text|))
  {
    var rest := text[startIndex..];
    assert forall i :: 0 <= i < |rest| ==> rest[i] == text[startIndex + i];
    assert IndexOfAny(rest, LineBreaks) == -1;
    assert text[startIndex..startIndex + (|text| - startIndex)] == rest;
  }

  /** From the start of the text the call reads the first line as intended. */
  lemma {:induction false} ReadLineFromStart(text: seq<char>)
    requires |text| > 0
    ensures ReadLine(text, 0).Returned? && ReadLine(text, 0).value.found
    ensures LineAt(text, 0, ReadLine(text, 0).value.token, ReadLine(text, 0).value.cursor)
  {
    assert text[0..] == text;
    var k := IndexOfAny(text, LineBreaks);
    if k != -1 {
      assert text[0..k] == text[..k];
    }
  }

  /** Away from the start the call throws exactly when a line break lies
      fewer than `startIndex` characters past the cursor, where the offset
      it finds is too small to be used as a position. */
  lemma {:induction false} ReadLineThrowsIff(text: seq<char>, startIndex: int)
    requires 0 <= startIndex < |text|
    ensures ReadLine(text, startIndex).Threw?
        <==> exists j :: startIndex <= j < 2 * startIndex && j < |text| && text[j] in LineBreaks
  {
    var rest := text[startIndex..];
    assert forall i :: 0 <= i < |rest| ==> rest[i] == text[startIndex + i];
    var k := IndexOfAny(rest, LineBreaks);
    if k != -1 && k < startIndex {
      assert text[startIndex + k] in LineBreaks;
    }
    if exists j :: startIndex <= j < 2 * startIndex && j < |text| && text[j] in LineBreaks {
      var j :| startIndex <= j < 2 * startIndex && j < |text| && text[j] in LineBreaks;
      assert rest[j - startIndex] in LineBreaks;
    }
  }

  /** Reading "a\r\nb\nc\rd" line by line as written: the first call reads
      "a" and moves the cursor to 3; the second call throws, because the
      line break it finds is at offset 1 from the cursor, and 1 - 3 is a
      negative slice length. */
  lemma ReadLineExample()
    ensures ReadLine("a\r\nb\nc\rd", 0) == Returned(Read(true, "a", 3))
    ensures ReadLine("a\r\nb\nc\rd", 3) == Threw(ArgumentOutOfRange)
  {
    var t := "a\r\nb\nc\rd";
    assert t[0..] == t;
    assert t[0] !in LineBreaks && t[1] in LineBreaks;
    assert IndexOfAny(t, LineBreaks) == 1;
    assert t[0..1] == "a";
    var rest := t[3..];
    assert rest[0] !in LineBreaks && rest[1] in LineBreaks;
    assert IndexOfAny(rest, LineBreaks) == 1;
  }

  /** When a line break follows the cursor at an offset `k` of at least
      `startIndex`, the call as written does not throw, but it reads the
      line up to position `k` of the whole text, not up to the break, and
      puts the cursor just past position `k` (past two positions when a
      "\r\n" pair starts there). */
  lemma {:induction false} ReadLineRelativeOffset(text: seq<char>, startIndex: int)
    requires 0 <= startIndex < |text|
    requires startIndex <= IndexOfAny(text[startIndex..], LineBreaks)
    ensures var k := IndexOfAny(text[startIndex..], LineBreaks);
      ReadLine(text, startIndex) == Returned(Read(true, text[startIndex..k], k + (if CrLfAt(text, k) then 2 else 1)))
  {
    var k := IndexOfAny(text[startIndex..], LineBreaks);
    assert text[startIndex..startIndex + (k - startIndex)] == text[startIndex..k];
  }

  /** Reading "ab\ncdefgh\nx" from cursor 3, as written: the break after
      "cdefgh" is at offset 6 from the cursor, so the call returns the
      truncated line "cde" and leaves the cursor at 7, inside the line. */
  lemma ReadLineTruncates(text: seq<char>)
    requires text == "ab\ncdefgh\nx"
    ensures ReadLine(text, 3) == Returned(Read(true, "cde", 7))
  {
    var rest := text[3..];
    assert forall i :: 0 <= i < 6 ==> rest[i] == text[3 + i] && text[3 + i] !in LineBreaks;
    assert rest[6] == '\n';
    IndexOfAnyAt(rest, LineBreaks, 6);
    ReadLineRelativeOffset(text, 3);
    assert text[3..6] == "cde";
    assert !CrLfAt(text, 6);
  }

  /** TryReadLine as evidently intended: the offset of the line break is
      added to the cursor before it is used as a position. */
  function ReadLineCorrected(text: seq<char>, startIndex: int): (r: Outcome<Read>)
    ensures startIndex < 0 <==> r.Threw?
    ensures r.Threw? ==> r == Threw(ArgumentOutOfRange)
    ensures startIndex >= |text| ==> r == Returned(Read(false, [], startIndex))
    ensures 0 <= startIndex < |text| ==>
      r.Returned? && r.value.found && LineAt(text, startIndex, r.value.token, r.value.cursor)
      && startIndex < r.value.cursor <= |text|
  {
    if startIndex >= |text| then Returned(Read(false, [], startIndex))
    else match SliceFrom(text, startIndex)
      case Threw(e) => Threw(e)
      case Returned(rest) =>
        var offset := IndexOfAny(rest, LineBreaks);
        if offset == -1 then
          assert forall i :: 0 <= i < |rest| ==> rest[i] == text[startIndex + i];
          Returned(Read(true, rest, |text|))
        else
          var nextLinePos := startIndex + offset;
          var nextLine := text[startIndex..nextLinePos];
          assert nextLine == rest[..offset];
          var next := nextLinePos + 1;
          var crlf := text[nextLinePos] == '\r' && |text| > nextLinePos + 1 && text[nextLinePos + 1] == '\n';
          Returned(Read(true, nextLine, if crlf then next + 1 else next))
  }

  /** The corrected reader agrees with the code as written from the start of
      the text, where relative and absolute offsets coincide. */
  lemma {:induction false} ReadLineCorrectedAgreesAtStart(text: seq<char>)
    ensures ReadLineCorrected(text, 0) == ReadLine(text, 0)
  {
    assert text[0..] == text;
  }

  /** The corrected reader splits "a\r\nb\nc\rd" into "a", "b", "c" and "d",
      consuming "\r\n" as one break, and then reports exhaustion. */
  lemma ReadLineCorrectedExample()
    ensures ReadLineCorrected("a\r\nb\nc\rd", 0) == Returned(Read(true, "a", 3))
    ensures ReadLineCorrected("a\r\nb\nc\rd", 3) == Returned(Read(true, "b", 5))
    ensures ReadLineCorrected("a\r\nb\nc\rd", 5) == Returned(Read(true, "c", 7))
    ensures ReadLineCorrected("a\r\nb\nc\rd", 7) == Returned(Read(true, "d", 8))
    ensures ReadLineCorrected("a\r\nb\nc\rd", 8) == Returned(Read(false, [], 8))
  {
    ExampleLine(0, 'a', 3);
    ExampleLine(3, 'b', 5);
    ExampleLine(5, 'c', 7);
    ExampleLine(7, 'd', 8);
  }

  /** The one-character lines of the example, each ended by a break of the
      kind its cursor skips. */
  lemma ExampleLine(start: int, c: char, cursor: int)
    requires (start, c, cursor) in {(0, 'a', 3), (3, 'b', 5), (5, 'c', 7), (7, 'd', 8)}
    ensures ReadLineCorrected("a\r\nb\nc\rd", start) == Returned(Read(true, [c], cursor))
  {
    var t := "a\r\nb\nc\rd";
    assert t[start..start + 1] == [c];
    if start == 0 {
      assert CrLfAt(t, 1);
    } else if start < 7 {
      assert !CrLfAt(t, start + 1);
    }
    CorrectedLine(t, start, 1, cursor);
  }

  /** LineAt determines the line and the cursor the corrected reader returns. */
  lemma CorrectedLine(text: seq<char>, start: int, length: int, cursor: int)
    requires 0 <= start < |text| && 0 <= length <= |text| - start
    requires LineAt(text, start, text[start..start + length], cursor)
    ensures ReadLineCorrected(text, start) == Returned(Read(true, text[start..start + length], cursor))
  {
    var r := ReadLineCorrected(text, start);
    LineAtUnique(text, start, r.value.token, r.value.cursor, text[start..start + length], cursor);
  }

  /** The line starting at a position, and the cursor after it, are unique. */
  lemma LineAtUnique(text: seq<char>, start: int, line1: seq<char>, cursor1: int, line2: seq<char>, cursor2: int)
    requires LineAt(text, start, line1, cursor1) && LineAt(text, start, line2, cursor2)
    ensures line1 == line2 && cursor1 == cursor2
  {
    LineEndsAtBreak(text, start, line1, cursor1);
    LineEndsAtBreak(text, start, line2, cursor2);
  }

  /** A line ends where IndexOfAny finds the next line break, or at the end
      of the text when there is none. */
  lemma LineEndsAtBreak(text: seq<char>, start: int, line: seq<char>, cursor: int)
    requires LineAt(text, start, line, cursor)
    ensures var k := IndexOfAny(text[start..], LineBreaks);
      |line| == if k == -1 then |text| - start else k
  {
    var rest := text[start..];
    assert forall i :: 0 <= i < |line| ==> rest[i] == line[i];
    assert |line| < |rest| ==> rest[|line|] == text[start + |line|];
  }

  // ---------------------------------------------------------------------
  // TryReadPart

  /** IsAt in a suffix is IsAt in the whole text, shifted. */
  lemma IsAtSuffix(text: seq<char>, needle: seq<char>, start: int, i: int)
    requires 0 <= start <= |text| && 0 <= i
    ensures IsAt(text[start..], needle, i) <==> IsAt(text, needle, start + i)
  {
    if IsAt(text, needle, start + i) {
      assert text[start..][i..i + |needle|] == text[start + i..start + i + |needle|];
    }
  }

  /** The first occurrence in text[start..], at offset `pos`, is the first
      occurrence in `text` at or after `start`. */
  lemma FirstInSuffix(text: seq<char>, needle: seq<char>, start: int, pos: int)
    requires 0 <= start <= |text| && 0 <= pos
    requires IsAt(text[start..], needle, pos)
    requires forall i :: 0 <= i < pos ==> !IsAt(text[start..], needle, i)
    ensures IsAt(text, needle, start + pos)
    ensures forall i :: start <= i < start + pos ==> !IsAt(text, needle, i)
  {
    IsAtSuffix(text, needle, start, pos);
    forall i | start <= i < start + pos ensures !IsAt(text, needle, i) {
      IsAtSuffix(text, needle, start, i - start);
    }
  }

  /** TryReadPart(text, needle, out part, ref startIndex), as written: the
      part runs from the next occurrence of `needle` to the end of the
      text, needle included; when the needle does not occur the part is
      empty and the cursor moves to the end. */
  function ReadPart(text: seq<char>, needle: seq<char>, startIndex: int): (r: Outcome<Read>)
    ensures r.Threw? <==> startIndex < 0
    ensures r.Threw? ==> r == Threw(ArgumentOutOfRange)
    ensures r.Returned? ==> (r.value.found <==> startIndex < |text|)
    ensures r.Returned? && !r.value.found ==> r.value == Read(false, [], startIndex)
    ensures r.Returned? && r.value.found && Occurs(text[startIndex..], needle) ==>
      var at := |text| - |r.value.token|;
      startIndex <= at && r.value.token == text[at..] && IsAt(text, needle, at)
      && (forall i :: startIndex <= i < at ==> !IsAt(text, needle, i))
      && r.value.cursor == at + |needle|
    ensures r.Returned? && r.value.found && !Occurs(text[startIndex..], needle) ==>
      r.value.token == [] && r.value.cursor == |text|
    ensures r.Returned? && r.value.found ==> r.value.cursor <= |text|
  {
    if startIndex >= |text| then Returned(Read(false, [], startIndex))
    else match SliceFrom(text, startIndex)
      case Threw(e) => Threw(e)
      case Returned(rest) =>
        var nextPartPos := IndexOfSeq(rest, needle);
        if nextPartPos == -1 then
          Returned(Read(true, SliceFrom(rest, |rest|).value, startIndex + |rest|))
        else
          FirstInSuffix(text, needle, startIndex, nextPartPos);
          Returned(Read(true, SliceFrom(rest, nextPartPos).value, startIndex + nextPartPos + |needle|))
  }

  /** TryReadPart, with the IndexOf search for the needle written out as a
      loop over candidate positions. */
  method TryReadPart(text: seq<char>, needle: seq<char>, startIndex: int) returns (r: Outcome<Read>)
    ensures r == ReadPart(text, needle, startIndex)
  {
    if startIndex >= |text| {
      return Returned(Read(false, [], startIndex));
    }
    if startIndex < 0 {
      return Threw(ArgumentOutOfRange);
    }
    var rest := text[startIndex..];
    var pos := 0;
    while pos + |needle| <= |rest| && rest[pos..pos + |needle|] != needle
      invariant 0 <= pos <= |rest|
      invariant forall i :: 0 <= i < pos ==> !IsAt(rest, needle, i)
    {
      pos := pos + 1;
    }
    if pos + |needle| > |rest| {
      ScanMissing(text, needle, startIndex);
      r := Returned(Read(true, [], startIndex + |rest|));
    } else {
      ScanFound(text, needle, startIndex, pos);
      r := Returned(Read(true, rest[pos..], startIndex + pos + |needle|));
    }
  }

  /** The scan of TryReadPart found the needle at `pos` of the rest of the
      text: the read returns the rest from there on. */
  lemma ScanFound(text: seq<char>, needle: seq<char>, startIndex: int, pos: int)
    requires 0 <= startIndex < |text| && 0 <= pos
    requires IsAt(text[startIndex..], needle, pos)
    requires forall i :: 0 <= i < pos ==> !IsAt(text[startIndex..], needle, i)
    ensures ReadPart(text, needle, startIndex) == Returned(Read(true, text[startIndex..][pos..], startIndex + pos + |needle|))
  {
    var rest := text[startIndex..];
    assert SliceFrom(text, startIndex) == Returned(rest);
    assert IndexOfSeq(rest, needle) == pos;
  }

  /** The scan of TryReadPart ran off the end: the read returns an empty
      part and moves the cursor to the end. */
  lemma ScanMissing(text: seq<char>, needle: seq<char>, startIndex: int)
    requires 0 <= startIndex < |text|
    requires forall i :: 0 <= i <= |text| - startIndex - |needle| ==> !IsAt(text[startIndex..], needle, i)
    ensures ReadPart(text, needle, startIndex) == Returned(Read(true, [], |text|))
  {
    var rest := text[startIndex..];
    assert SliceFrom(text, startIndex) == Returned(rest);
    assert IndexOfSeq(rest, needle) == -1;
  }

  /** For a non-empty needle every successful read moves the cursor forward
      and keeps it within the text, so repeated reads end. */
  lemma ReadPartProgress(text: seq<char>, needle: seq<char>, startIndex: int)
    requires |needle| > 0
    requires ReadPart(text, needle, startIndex).Returned? && ReadPart(text, needle, startIndex).value.found
    ensures startIndex < ReadPart(text, needle, startIndex).value.cursor <= |text|
  {
  }

  /** A read from `startIndex` whose first occurrence of the needle at or
      after it is at `at` returns the text from `at` on and moves the cursor
      past the needle. */
  lemma ReadPartFound(text: seq<char>, needle: seq<char>, startIndex: int, at: int)
    requires 0 <= startIndex <= at && IsAt(text, needle, at) && startIndex < |text|
    requires forall i :: startIndex <= i < at ==> !IsAt(text, needle, i)
    ensures ReadPart(text, needle, startIndex) == Returned(Read(true, text[at..], at + |needle|))
  {
    IsAtSuffix(text, needle, startIndex, at - startIndex);
    var r := ReadPart(text, needle, startIndex);
    var k := |text| - |r.value.token|;
    if k < at {
      IsAtSuffix(text, needle, startIndex, k - startIndex);
    } else if k > at {
      IsAtSuffix(text, needle, startIndex, at - startIndex);
    }
  }

  /** Reading "a::b::c" in parts on "::": each part starts at the next
      separator and runs to the end of the text; after the last separator
      the call still succeeds once, with an empty part, before it reports
      exhaustion. */
  lemma ReadPartExample()
    ensures ReadPart("a::b::c", "::", 0) == Returned(Read(true, "::b::c", 3))
    ensures ReadPart("a::b::c", "::", 3) == Returned(Read(true, "::c", 6))
    ensures ReadPart("a::b::c", "::", 6) == Returned(Read(true, [], 7))
    ensures ReadPart("a::b::c", "::", 7) == Returned(Read(false, [], 7))
  {
    ExamplePart(0, 1);
    ExamplePart(3, 4);
    var t, sep := "a::b::c", "::";
    assert !Occurs(t[6..], sep);
  }

  /** The parts of the example that end at a separator. */
  lemma ExamplePart(start: int, at: int)
    requires (start, at) in {(0, 1), (3, 4)}
    ensures ReadPart("a::b::c", "::", start) == Returned(Read(true, "a::b::c"[at..], at + 2))
  {
    var t, sep := "a::b::c", "::";
    assert t[at..at + 2] == sep;
    assert !IsAt(t, sep, start) by { assert t[start] != ':'; }
    ReadPartFound(t, sep, start, at);
  }
}
