/** Segment extraction around the first or last occurrence of a needle:
    the LeftPart/RightPart/LastLeftPart/LastRightPart family and the
    SplitOnFirst/SplitOnLast pairs, each in a char and a span overload.
    The span overloads carry the suffix `Seq`. A zero-length input is
    returned as it is; a needle that does not occur leaves the whole input
    on the side that is asked for (and an empty second half for a split).
    Every slice these functions take lies inside the input, so none of
    them throws. */
module Segments {
  import opened Spans

  /** LeftPart(strVal, char): the text before the first `needle`. */
  function LeftPart(strVal: seq<char>, needle: char): (r: seq<char>)
    ensures r <= strVal && needle !in r
    ensures needle in strVal ==> |r| < |strVal| && strVal[|r|] == needle
    ensures needle !in strVal ==> r == strVal
  {
    if |strVal| == 0 then strVal
    else
      var pos := IndexOf(strVal, needle);
      if pos == -1 then strVal else Slice(strVal, 0, pos).value
  }

  /** RightPart(strVal, char): the text after the first `needle`. */
  function RightPart(strVal: seq<char>, needle: char): (r: seq<char>)
    ensures needle in strVal ==> LeftPart(strVal, needle) + [needle] + r == strVal
    ensures needle !in strVal ==> r == strVal
  {
    if |strVal| == 0 then strVal
    else
      var pos := IndexOf(strVal, needle);
      if pos == -1 then strVal
      else
        assert strVal == strVal[..pos] + [needle] + strVal[pos + 1..];
        Slice(strVal, pos + 1, |strVal| - (pos + 1)).value
  }

  /** LastLeftPart(strVal, char): the text before the last `needle`. */
  function LastLeftPart(strVal: seq<char>, needle: char): (r: seq<char>)
    ensures r <= strVal
    ensures needle in strVal ==> |r| < |strVal| && strVal[|r|] == needle && needle !in strVal[|r| + 1..]
    ensures needle !in strVal ==> r == strVal
  {
    if |strVal| == 0 then strVal
    else
      var pos := LastIndexOf(strVal, needle);
      if pos == -1 then strVal else Slice(strVal, 0, pos).value
  }

  /** LastRightPart(strVal, char): the text after the last `needle`. */
  function LastRightPart(strVal: seq<char>, needle: char): (r: seq<char>)
    ensures needle !in r
    ensures needle in strVal ==> LastLeftPart(strVal, needle) + [needle] + r == strVal
    ensures needle !in strVal ==> r == strVal
  {
    if |strVal| == 0 then strVal
    else
      var pos := LastIndexOf(strVal, needle);
      if pos == -1 then strVal
      else
        assert strVal == strVal[..pos] + [needle] + strVal[pos + 1..];
        SliceFrom(strVal, pos + 1).value
  }

  /** LeftPart(strVal, span): the text before the first occurrence of `needle`. */
  function LeftPartSeq(strVal: seq<char>, needle: seq<char>): (r: seq<char>)
    ensures r <= strVal
    ensures Occurs(strVal, needle) ==> IsAt(strVal, needle, |r|) && forall i :: 0 <= i < |r| ==> !IsAt(strVal, needle, i)
    ensures !Occurs(strVal, needle) ==> r == strVal
  {
    if |strVal| == 0 then
      assert Occurs(strVal, needle) ==> IsAt(strVal, needle, 0);
      strVal
    else
      var pos := IndexOfSeq(strVal, needle);
      if pos == -1 then strVal else Slice(strVal, 0, pos).value
  }

  /** RightPart(strVal, span): the text after the first occurrence of `needle`. */
  function RightPartSeq(strVal: seq<char>, needle: seq<char>): (r: seq<char>)
    ensures Occurs(strVal, needle) ==> LeftPartSeq(strVal, needle) + needle + r == strVal
    ensures !Occurs(strVal, needle) ==> r == strVal
  {
    if |strVal| == 0 then
      assert Occurs(strVal, needle) ==> IsAt(strVal, needle, 0);
      strVal
    else
      var pos := IndexOfSeq(strVal, needle);
      if pos == -1 then strVal
      else
        assert strVal == strVal[..pos] + needle + strVal[pos + |needle|..];
        Slice(strVal, pos + |needle|, |strVal| - (pos + |needle|)).value
  }

  /** LastLeftPart(strVal, span): the text before the last occurrence of a
      non-empty `needle`. */
  function LastLeftPartSeq(strVal: seq<char>, needle: seq<char>): (r: seq<char>)
    requires |needle| > 0
    ensures r <= strVal
    ensures Occurs(strVal, needle) ==> IsAt(strVal, needle, |r|) && forall i :: |r| < i ==> !IsAt(strVal, needle, i)
    ensures !Occurs(strVal, needle) ==> r == strVal
  {
    if |strVal| == 0 then strVal
    else
      var pos := LastIndexOfSeq(strVal, needle);
      if pos == -1 then strVal else Slice(strVal, 0, pos).value
  }

  /** LastRightPart(strVal, span): the text after the last occurrence of a
      non-empty `needle`. */
  function LastRightPartSeq(strVal: seq<char>, needle: seq<char>): (r: seq<char>)
    requires |needle| > 0
    ensures Occurs(strVal, needle) ==> LastLeftPartSeq(strVal, needle) + needle + r == strVal
    ensures !Occurs(strVal, needle) ==> r == strVal
  {
    if |strVal| == 0 then strVal
    else
      var pos := LastIndexOfSeq(strVal, needle);
      if pos == -1 then strVal
      else
        assert strVal == strVal[..pos] + needle + strVal[pos + |needle|..];
        Slice(strVal, pos + |needle|, |strVal| - (pos + |needle|)).value
  }

  /** SplitOnFirst(strVal, char, out first, out last). */
  function SplitOnFirst(strVal: seq<char>, needle: char): (r: (seq<char>, seq<char>))
    ensures needle in strVal ==> r == (LeftPart(strVal, needle), RightPart(strVal, needle))
    ensures needle !in strVal ==> r == (strVal, [])
  {
    if |strVal| == 0 then ([], [])
    else
      var pos := IndexOf(strVal, needle);
      if pos == -1 then (strVal, [])
      else (Slice(strVal, 0, pos).value, SliceFrom(strVal, pos + 1).value)
  }

  /** SplitOnFirst(strVal, span, out first, out last). */
  function SplitOnFirstSeq(strVal: seq<char>, needle: seq<char>): (r: (seq<char>, seq<char>))
    ensures Occurs(strVal, needle) ==> r == (LeftPartSeq(strVal, needle), RightPartSeq(strVal, needle))
    ensures !Occurs(strVal, needle) ==> r == (strVal, [])
  {
    if |strVal| == 0 then ([], [])
    else
      var pos := IndexOfSeq(strVal, needle);
      if pos == -1 then (strVal, [])
      else (Slice(strVal, 0, pos).value, SliceFrom(strVal, pos + |needle|).value)
  }

  /** SplitOnLast(strVal, char, out first, out last). */
  function SplitOnLast(strVal: seq<char>, needle: char): (r: (seq<char>, seq<char>))
    ensures needle in strVal ==> r == (LastLeftPart(strVal, needle), LastRightPart(strVal, needle))
    ensures needle !in strVal ==> r == (strVal, [])
  {
    if |strVal| == 0 then ([], [])
    else
      var pos := LastIndexOf(strVal, needle);
      if pos == -1 then (strVal, [])
      else (Slice(strVal, 0, pos).value, SliceFrom(strVal, pos + 1).value)
  }

  /** SplitOnLast(strVal, span, out first, out last), for a non-empty needle. */
  function SplitOnLastSeq(strVal: seq<char>, needle: seq<char>): (r: (seq<char>, seq<char>))
    requires |needle| > 0
    ensures Occurs(strVal, needle) ==> r == (LastLeftPartSeq(strVal, needle), LastRightPartSeq(strVal, needle))
    ensures !Occurs(strVal, needle) ==> r == (strVal, [])
  {
    if |strVal| == 0 then ([], [])
    else
      var pos := LastIndexOfSeq(strVal, needle);
      if pos == -1 then (strVal, [])
      else (Slice(strVal, 0, pos).value, SliceFrom(strVal, pos + |needle|).value)
  }

  /** Splitting on the first and on the last `needle` agree when it occurs at
      most once. */
  lemma {:induction false} SplitsAgreeOnSingleOccurrence(strVal: seq<char>, needle: char)
    requires forall i, j :: 0 <= i < j < |strVal| && strVal[i] == needle ==> strVal[j] != needle
    ensures SplitOnFirst(strVal, needle) == SplitOnLast(strVal, needle)
  {
  }

  /** The same for a span needle that occurs at most once. */
  lemma {:induction false} SplitsAgreeOnSingleOccurrenceSeq(strVal: seq<char>, needle: seq<char>)
    requires |needle| > 0
    requires forall i, j :: IsAt(strVal, needle, i) && IsAt(strVal, needle, j) ==> i == j
    ensures SplitOnFirstSeq(strVal, needle) == SplitOnLastSeq(strVal, needle)
  {
  }

  /** The char overloads are the span overloads applied to the one-character
      needle. */
  lemma {:induction false} CharOverloadsAgree(strVal: seq<char>, needle: char)
    ensures LeftPart(strVal, needle) == LeftPartSeq(strVal, [needle])
    ensures RightPart(strVal, needle) == RightPartSeq(strVal, [needle])
    ensures LastLeftPart(strVal, needle) == LastLeftPartSeq(strVal, [needle])
    ensures LastRightPart(strVal, needle) == LastRightPartSeq(strVal, [needle])
    ensures SplitOnFirst(strVal, needle) == SplitOnFirstSeq(strVal, [needle])
    ensures SplitOnLast(strVal, needle) == SplitOnLastSeq(strVal, [needle])
  {
    IndexOfSingle(strVal, needle);
    LastIndexOfSingle(strVal, needle);
  }
}
