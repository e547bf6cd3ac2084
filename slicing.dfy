/** The slice helpers of SpanExtensions: the unchecked Substring, Advance
    and Subsegment, which throw ArgumentOutOfRangeException whenever the
    window leaves the span, and the clamping SafeSubsegment/SafeSubstring,
    which do not. Materialising a span as a string (ToString) is the
    identity on the modelled contents. */
module Slicing {
  import opened Outcomes
  import opened Spans

  /** Subsegment(text, startPos, length): the `length` characters at `startPos`. */
  function Subsegment(text: seq<char>, startPos: int, length: int): (r: Outcome<seq<char>>)
    ensures r.Returned? <==> 0 <= startPos && 0 <= length && startPos + length <= |text|
    ensures r.Returned? ==> |r.value| == length && IsAt(text, r.value, startPos)
    ensures r.Threw? ==> r == Threw(ArgumentOutOfRange)
  {
    Slice(text, startPos, length)
  }

  /** Subsegment(text, startPos): everything from `startPos` on. */
  function SubsegmentFrom(text: seq<char>, startPos: int): (r: Outcome<seq<char>>)
    ensures r.Returned? <==> 0 <= startPos <= |text|
    ensures r.Returned? ==> text == text[..startPos] + r.value
    ensures r.Threw? ==> r == Threw(ArgumentOutOfRange)
  {
    Slice(text, startPos, |text| - startPos)
  }

  /** Advance(text, to): the same slice as SubsegmentFrom. */
  function Advance(text: seq<char>, to: int): (r: Outcome<seq<char>>)
    ensures r.Returned? <==> 0 <= to <= |text|
    ensures r.Returned? ==> text == text[..to] + r.value
    ensures r.Threw? ==> r == Threw(ArgumentOutOfRange)
  {
    Slice(text, to, |text| - to)
  }

  /** Substring(value, pos): SubsegmentFrom, materialised. */
  function SubstringFrom(value: seq<char>, pos: int): (r: Outcome<string>)
    ensures r == SubsegmentFrom(value, pos)
  {
    Slice(value, pos, |value| - pos)
  }

  /** Substring(value, pos, length): Subsegment, materialised. */
  function Substring(value: seq<char>, pos: int, length: int): (r: Outcome<string>)
    ensures r == Subsegment(value, pos, length)
  {
    Slice(value, pos, length)
  }

  /** The start SafeSubsegment actually uses: a negative start is clamped to 0. */
  function ClampedStart(startIndex: int): nat {
    if startIndex < 0 then 0 else startIndex
  }

  /** SafeSubsegment(value, startIndex, length). For any start and any
      non-negative length it returns the part of value[s..s + length] that
      exists (s being the clamped start), which is nothing when s lies beyond
      the span. Only a negative length reaching Slice can throw. */
  function SafeSubsegment(value: seq<char>, startIndex: int, length: int): (r: Outcome<seq<char>>)
    ensures r.Threw? <==> |value| > 0 && length < 0 && ClampedStart(startIndex) + length <= |value|
    ensures r.Threw? ==> r == Threw(ArgumentOutOfRange)
    ensures r.Returned? && length < 0 ==> r.value == []
    ensures length >= 0 ==>
      var s := ClampedStart(startIndex);
      r.value == if s <= |value| then value[s..if s + length < |value| then s + length else |value|] else []
    ensures length >= 0 ==> |r.value| <= length && (|r.value| <= |value| - ClampedStart(startIndex) || r.value == [])
  {
    if |value| == 0 then Returned([])
    else
      var start := if startIndex < 0 then 0 else startIndex;
      if |value| >= start + length then Slice(value, start, length)
      else if |value| > start then SliceFrom(value, start)
      else Returned([])
  }

  /** SafeSubsegment(value, startIndex): the rest of the span from the
      clamped start, which never throws. */
  function SafeSubsegmentFrom(value: seq<char>, startIndex: int): (r: seq<char>)
    ensures var s := ClampedStart(startIndex); r == if s <= |value| then value[s..] else []
  {
    SafeSubsegment(value, startIndex, |value|).value
  }

  /** SafeSubstring(value, startIndex, length): a second copy of
      SafeSubsegment's body, with the same behaviour. */
  function SafeSubstring(value: seq<char>, startIndex: int, length: int): (r: Outcome<seq<char>>)
    ensures r == SafeSubsegment(value, startIndex, length)
  {
    if |value| == 0 then Returned([])
    else
      var start := if startIndex < 0 then 0 else startIndex;
      if |value| >= start + length then Slice(value, start, length)
      else if |value| > start then SliceFrom(value, start)
      else Returned([])
  }

  /** SafeSubstring(value, startIndex). */
  function SafeSubstringFrom(value: seq<char>, startIndex: int): (r: seq<char>)
    ensures r == SafeSubsegmentFrom(value, startIndex)
  {
    SafeSubstring(value, startIndex, |value|).value
  }

  /** SubstringWithEllipsis(value, startIndex, length): the slice followed by
      "...". Slice either throws or returns exactly `length` characters, so
      the branch that would return the slice alone is never taken. */
  function SubstringWithEllipsis(value: seq<char>, startIndex: int, length: int): (r: Outcome<string>)
    ensures r.Returned? <==> 0 <= startIndex && 0 <= length && startIndex + length <= |value|
    ensures r.Returned? ==> r.value == value[startIndex..startIndex + length] + "..."
    ensures r.Threw? ==> r == Threw(ArgumentOutOfRange)
  {
    match Slice(value, startIndex, length)
    case Threw(e) => Threw(e)
    case Returned(str) => if |str| == length then Returned(str + "...") else Returned(str)
  }

  /** The checked slices split a span: the part before `pos` and the part
      from `pos` on put back together give the span. */
  lemma SubsegmentsJoin(text: seq<char>, pos: int)
    requires 0 <= pos <= |text|
    ensures Subsegment(text, 0, pos).value + SubsegmentFrom(text, pos).value == text
  {
  }
}
