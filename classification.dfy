/** The three states a span encodes without a null of its own: a
    zero-length span stands for null, the one-character span holding the
    marker (TypeConstants.NonWidthWhiteSpace, passed in as `marker`) stands
    for the empty string, and every other span for its own text. */
module Classification {
  import opened Outcomes
  import Trimming

  /** Value(span): the string a span stands for, None standing for null. */
  function Value(value: seq<char>, marker: char): (r: Option<string>)
    ensures r == None <==> |value| == 0
    ensures r == Some("") <==> value == [marker]
    ensures r.Some? && value != [marker] ==> r.value == value
  {
    if |value| == 0 then None
    else if |value| == 1 && value[0] == marker then Some("")
    else Some(value)
  }

  /** IsNullOrEmpty(span): the span stands for null or for the empty string. */
  function IsNullOrEmpty(value: seq<char>, marker: char): (r: bool)
    ensures r <==> Value(value, marker) in {None, Some("")}
  {
    |value| == 0 || (|value| == 1 && value[0] == marker)
  }

  /** MemoryExtensions.IsWhiteSpace(span): every character is white space
      (vacuously so for a zero-length span). */
  predicate AllWhiteSpace(value: seq<char>, isWhiteSpace: char -> bool): (r: bool)
    ensures r <==> forall i :: 0 <= i < |value| ==> isWhiteSpace(value[i])
    decreases |value|
  {
    |value| == 0 || (isWhiteSpace(value[0]) && AllWhiteSpace(value[1..], isWhiteSpace))
  }

  /** IsNullOrWhiteSpace(span): null, the empty string, or only white space. */
  function IsNullOrWhiteSpace(value: seq<char>, marker: char, isWhiteSpace: char -> bool): (r: bool)
    ensures r <==> Value(value, marker) in {None, Some("")} || AllWhiteSpace(value, isWhiteSpace)
  {
    IsNullOrEmpty(value, marker) || AllWhiteSpace(value, isWhiteSpace)
  }

  /** A span is null or white space exactly when it is the empty-string
      marker or trimming white space from its end leaves the null span. */
  lemma {:induction false} NullOrWhiteSpaceTrims(value: seq<char>, marker: char, isWhiteSpace: char -> bool)
    ensures IsNullOrWhiteSpace(value, marker, isWhiteSpace)
        <==> value == [marker] || Value(Trimming.TrimTrailing(value, isWhiteSpace), marker) == None
  {
    Trimming.TrimTrailingEmpty(value, isWhiteSpace);
  }
}
