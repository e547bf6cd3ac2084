/** Custom trimming (SpanExtensions.TrimEnd and its helpers), and the
    BCL's MemoryExtensions.TrimEnd(span, char) expressed as a special case.
    `trimType` follows the source: 0 trims the start only, 1 the end only,
    any other value both ends. */
module Trimming {

  /** The trim predicate of an explicit trim-character list. */
  function MemberOf(chars: seq<char>): char -> bool {
    c => c in chars
  }

  /** The predicate TrimEnd trims by: whitespace when no trim characters are
      given (a null array behaves like an empty one), else the given characters. */
  function TrimPredicate(trimChars: seq<char>, isWhiteSpace: char -> bool): char -> bool {
    if |trimChars| == 0 then isWhiteSpace else MemberOf(trimChars)
  }

  /** `s` with its trailing run of trim characters removed. */
  function TrimTrailing(s: seq<char>, isTrim: char -> bool): (r: seq<char>)
    ensures r <= s
    ensures forall i :: |r| <= i < |s| ==> isTrim(s[i])
    ensures |r| > 0 ==> !isTrim(r[|r| - 1])
    decreases |s|
  {
    if |s| > 0 && isTrim(s[|s| - 1]) then
      assert forall i :: 0 <= i < |s| - 1 ==> s[..|s| - 1][i] == s[i];
      TrimTrailing(s[..|s| - 1], isTrim)
    else s
  }

  /** `s` with its leading run of trim characters removed. */
  function TrimLeading(s: seq<char>, isTrim: char -> bool): (r: seq<char>)
    ensures |r| <= |s| && r == s[|s| - |r|..]
    ensures forall i :: 0 <= i < |s| - |r| ==> isTrim(s[i])
    ensures |r| > 0 ==> !isTrim(r[0])
    decreases |s|
  {
    if |s| > 0 && isTrim(s[0]) then
      var tail := s[1..];
      var r := TrimLeading(tail, isTrim);
      assert tail[|tail| - |r|..] == s[|s| - |r|..];
      assert forall i :: 1 <= i < |s| ==> tail[i - 1] == s[i];
      r
    else s
  }

  /** The window a TrimHelper call keeps, for the given trim type. */
  function Trimmed(s: seq<char>, isTrim: char -> bool, trimType: int): seq<char> {
    var afterStart := if trimType != 1 then TrimLeading(s, isTrim) else s;
    if trimType != 0 then TrimTrailing(afterStart, isTrim) else afterStart
  }

  /** CreateTrimmedString: the window value[start..end], inclusive; callers
      always pass a window inside the value. */
  function CreateTrimmedString(value: seq<char>, start: int, end: int): (r: seq<char>)
    requires 0 <= start <= end + 1 <= |value|
    ensures r == value[start..end + 1]
  {
    var length := end - start + 1;
    if length == |value| then value
    else if length == 0 then []
    else value[start..start + length]
  }

  /** Once the leading scan stops at `start`, TrimLeading keeps value[start..]. */
  lemma LeadingScanDone(value: seq<char>, isTrim: char -> bool, start: int)
    requires 0 <= start <= |value|
    requires forall k :: 0 <= k < start ==> isTrim(value[k])
    requires start == |value| || !isTrim(value[start])
    ensures TrimLeading(value, isTrim) == value[start..]
  {
    TrimLeadingUnique(value, isTrim, value[start..]);
  }

  /** Once the trailing scan stops at `end`, TrimTrailing keeps value[start..end]. */
  lemma TrailingScanDone(value: seq<char>, isTrim: char -> bool, start: int, end: int)
    requires 0 <= start <= end + 1 <= |value|
    requires forall k :: end < k < |value| ==> isTrim(value[k])
    requires end < start || !isTrim(value[end])
    ensures TrimTrailing(value[start..], isTrim) == value[start..end + 1]
  {
    var s, p := value[start..], value[start..end + 1];
    assert forall i :: |p| <= i < |s| ==> s[i] == value[start + i];
    TrimTrailingUnique(s, isTrim, p);
  }

  /** Where the two scans of a TrimHelper stop: the leading scan (skipped
      when trimType is 1) stops at the first non-trim character, the
      trailing scan (skipped when trimType is 0) at the last non-trim
      character at or after `start`. The window between them is Trimmed. */
  lemma ScanWindow(value: seq<char>, isTrim: char -> bool, trimType: int, start: int, end: int)
    requires 0 <= start <= |value|
    requires trimType == 1 ==> start == 0
    requires trimType != 1 ==> (forall k :: 0 <= k < start ==> isTrim(value[k])) && (start == |value| || !isTrim(value[start]))
    requires trimType == 0 ==> end == |value| - 1
    requires trimType != 0 ==> start - 1 <= end <= |value| - 1 && (forall k :: end < k < |value| ==> isTrim(value[k])) && (end < start || !isTrim(value[end]))
    ensures 0 <= start <= end + 1 <= |value|
    ensures value[start..end + 1] == Trimmed(value, isTrim, trimType)
  {
    if trimType != 1 {
      LeadingScanDone(value, isTrim, start);
    }
    if trimType != 0 {
      TrailingScanDone(value, isTrim, start, end);
    }
  }

  /** TrimHelper(value, trimType): trims whitespace. */
  method TrimHelper(value: seq<char>, isWhiteSpace: char -> bool, trimType: int) returns (r: seq<char>)
    ensures r == Trimmed(value, isWhiteSpace, trimType)
  {
    var end := |value| - 1;
    var start := 0;
    if trimType != 1 {
      start := 0;
      while start < |value| && isWhiteSpace(value[start])
        invariant 0 <= start <= |value|
        invariant forall k :: 0 <= k < start ==> isWhiteSpace(value[k])
      {
        start := start + 1;
      }
    }
    if trimType != 0 {
      end := |value| - 1;
      while end >= start && isWhiteSpace(value[end])
        invariant start - 1 <= end <= |value| - 1
        invariant forall k :: end < k < |value| ==> isWhiteSpace(value[k])
      {
        end := end - 1;
      }
    }
    ScanWindow(value, isWhiteSpace, trimType, start, end);
    r := CreateTrimmedString(value, start, end);
  }

  /** The inner scan of TrimHelper(value, trimChars, trimType): the index of
      `ch` in `trimChars`, or |trimChars| when it is not listed. */
  method ScanTrimChars(trimChars: seq<char>, ch: char) returns (index: int)
    ensures 0 <= index <= |trimChars|
    ensures index < |trimChars| <==> ch in trimChars
    ensures index < |trimChars| ==> trimChars[index] == ch && ch !in trimChars[..index]
  {
    index := 0;
    while index < |trimChars| && trimChars[index] != ch
      invariant 0 <= index <= |trimChars|
      invariant ch !in trimChars[..index]
    {
      index := index + 1;
    }
  }

  /** The leading scan of TrimHelper(value, trimChars, trimType): the first
      index whose character is not listed, or |value|. */
  method ScanLeadingChars(value: seq<char>, trimChars: seq<char>) returns (start: int)
    ensures 0 <= start <= |value|
    ensures forall k :: 0 <= k < start ==> value[k] in trimChars
    ensures start == |value| || value[start] !in trimChars
  {
    start := 0;
    while start < |value|
      invariant 0 <= start <= |value|
      invariant forall k :: 0 <= k < start ==> value[k] in trimChars
    {
      var index := ScanTrimChars(trimChars, value[start]);
      if index == |trimChars| {
        return;
      }
      start := start + 1;
    }
  }

  /** The trailing scan of TrimHelper(value, trimChars, trimType): the last
      index at or after `start` whose character is not listed, or start - 1. */
  method ScanTrailingChars(value: seq<char>, trimChars: seq<char>, start: int) returns (end: int)
    requires 0 <= start <= |value|
    ensures start - 1 <= end <= |value| - 1
    ensures forall k :: end < k < |value| ==> value[k] in trimChars
    ensures end < start || value[end] !in trimChars
  {
    end := |value| - 1;
    while end >= start
      invariant start - 1 <= end <= |value| - 1
      invariant forall k :: end < k < |value| ==> value[k] in trimChars
    {
      var index := ScanTrimChars(trimChars, value[end]);
      if index == |trimChars| {
        return;
      }
      end := end - 1;
    }
  }

  /** TrimHelper(value, trimChars, trimType): trims the listed characters,
      testing each one by a linear scan of `trimChars`. */
  method TrimHelperChars(value: seq<char>, trimChars: seq<char>, trimType: int) returns (r: seq<char>)
    ensures r == Trimmed(value, MemberOf(trimChars), trimType)
  {
    var end := |value| - 1;
    var start := 0;
    if trimType != 1 {
      start := ScanLeadingChars(value, trimChars);
    }
    if trimType != 0 {
      end := ScanTrailingChars(value, trimChars, start);
    }
    ScanWindow(value, MemberOf(trimChars), trimType, start, end);
    r := CreateTrimmedString(value, start, end);
  }

  /** TrimEnd(value, params trimChars): removes the trailing run of trim
      characters (whitespace when no characters are listed). */
  method TrimEnd(value: seq<char>, trimChars: seq<char>, isWhiteSpace: char -> bool) returns (r: seq<char>)
    ensures r == TrimTrailing(value, TrimPredicate(trimChars, isWhiteSpace))
    ensures r <= value
    ensures forall i :: |r| <= i < |value| ==> TrimPredicate(trimChars, isWhiteSpace)(value[i])
    ensures |r| > 0 ==> !TrimPredicate(trimChars, isWhiteSpace)(r[|r| - 1])
  {
    if |trimChars| == 0 {
      r := TrimHelper(value, isWhiteSpace, 1);
    } else {
      r := TrimHelperChars(value, trimChars, 1);
    }
  }

  /** Trimming the end twice is trimming it once. */
  lemma TrimTrailingIdempotent(s: seq<char>, isTrim: char -> bool)
    ensures TrimTrailing(TrimTrailing(s, isTrim), isTrim) == TrimTrailing(s, isTrim)
  {
  }

  /** A value whose last character is not a trim character is returned unchanged. */
  lemma TrimTrailingUnchanged(s: seq<char>, isTrim: char -> bool)
    requires |s| == 0 || !isTrim(s[|s| - 1])
    ensures TrimTrailing(s, isTrim) == s
  {
  }

  /** The result is empty exactly when every character is a trim character. */
  lemma TrimTrailingEmpty(s: seq<char>, isTrim: char -> bool)
    ensures TrimTrailing(s, isTrim) == [] <==> forall i :: 0 <= i < |s| ==> isTrim(s[i])
  {
  }

  /** The three properties of TrimTrailing's contract determine its result:
      any prefix that drops only trim characters and does not end in one is it. */
  lemma {:induction false} TrimTrailingUnique(s: seq<char>, isTrim: char -> bool, p: seq<char>)
    requires p <= s
    requires forall i :: |p| <= i < |s| ==> isTrim(s[i])
    requires |p| > 0 ==> !isTrim(p[|p| - 1])
    ensures TrimTrailing(s, isTrim) == p
    decreases |s|
  {
    if |s| > 0 && isTrim(s[|s| - 1]) {
      TrimTrailingUnique(s[..|s| - 1], isTrim, p);
    }
  }

  /** The leading counterpart of TrimTrailingUnique. */
  lemma {:induction false} TrimLeadingUnique(s: seq<char>, isTrim: char -> bool, p: seq<char>)
    requires |p| <= |s| && p == s[|s| - |p|..]
    requires forall i :: 0 <= i < |s| - |p| ==> isTrim(s[i])
    requires |p| > 0 ==> !isTrim(p[0])
    ensures TrimLeading(s, isTrim) == p
    decreases |s|
  {
    if |s| > 0 && isTrim(s[0]) && |p| < |s| {
      assert s[1..][|s| - 1 - |p|..] == p;
      TrimLeadingUnique(s[1..], isTrim, p);
    }
  }
}
