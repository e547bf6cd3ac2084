/** The runtime primitives the extension methods are built from, stated over
    a span modelled as a sequence of characters: ReadOnlySpan.Slice, the
    ordinal IndexOf/LastIndexOf searches of MemoryExtensions, StartsWith and
    string.Replace. */
module Spans {
  import opened Outcomes

  /** `needle` occurs in `s` starting at index `i`. */
  predicate IsAt(s: seq<char>, needle: seq<char>, i: int) {
    0 <= i && i + |needle| <= |s| && s[i..i + |needle|] == needle
  }

  /** `needle` occurs somewhere in `s` (an empty needle occurs everywhere). */
  ghost predicate Occurs(s: seq<char>, needle: seq<char>) {
    exists i :: IsAt(s, needle, i)
  }

  /** MemoryExtensions.StartsWith(span, value), ordinal. */
  predicate StartsWith(s: seq<char>, prefix: seq<char>): (r: bool)
    ensures r <==> IsAt(s, prefix, 0)
    ensures r ==> s == prefix + s[|prefix|..]
  {
    |prefix| <= |s| && s[..|prefix|] == prefix
  }

  lemma IsAtTail(s: seq<char>, needle: seq<char>, i: int)
    requires |s| > 0 && 0 <= i
    ensures IsAt(s[1..], needle, i) <==> IsAt(s, needle, i + 1)
  {
    if 0 <= i && i + |needle| <= |s| - 1 {
      assert s[1..][i..i + |needle|] == s[i + 1..i + 1 + |needle|];
    }
  }

  lemma IsAtFront(s: seq<char>, needle: seq<char>, i: int)
    requires |s| > 0
    requires i + |needle| <= |s| - 1
    ensures IsAt(s[..|s| - 1], needle, i) <==> IsAt(s, needle, i)
  {
    if 0 <= i {
      assert s[..|s| - 1][i..i + |needle|] == s[i..i + |needle|];
    }
  }

  /** ReadOnlySpan.Slice(start, length): throws unless the window lies inside the span. */
  function Slice(s: seq<char>, start: int, length: int): (r: Outcome<seq<char>>)
    ensures r.Returned? <==> 0 <= start && 0 <= length && start + length <= |s|
    ensures r.Returned? ==> |r.value| == length && r.value == s[start..start + length]
    ensures r.Threw? ==> r.exception == ArgumentOutOfRange
  {
    if start < 0 || length < 0 || start + length > |s| then Threw(ArgumentOutOfRange)
    else Returned(s[start..start + length])
  }

  /** ReadOnlySpan.Slice(start): throws unless `start` is a position of the span. */
  function SliceFrom(s: seq<char>, start: int): (r: Outcome<seq<char>>)
    ensures r.Returned? <==> 0 <= start <= |s|
    ensures r.Returned? ==> |r.value| == |s| - start && r.value == s[start..]
    ensures r.Threw? ==> r.exception == ArgumentOutOfRange
  {
    if start < 0 || start > |s| then Threw(ArgumentOutOfRange) else Returned(s[start..])
  }

  /** MemoryExtensions.IndexOfAny: the first index holding one of `values`, or -1. */
  function IndexOfAny(s: seq<char>, values: seq<char>): (r: int)
    ensures -1 <= r < |s|
    ensures r == -1 <==> forall i :: 0 <= i < |s| ==> s[i] !in values
    ensures 0 <= r ==> s[r] in values && forall i :: 0 <= i < r ==> s[i] !in values
    decreases |s|
  {
    if |s| == 0 then -1
    else if s[0] in values then 0
    else
      var k := IndexOfAny(s[1..], values);
      assert forall i :: 1 <= i < |s| ==> s[i] == s[1..][i - 1];
      if k == -1 then -1 else k + 1
  }

  /** IndexOfAny finds `k` when `k` holds one of the values and no earlier
      index does. */
  lemma IndexOfAnyAt(s: seq<char>, values: seq<char>, k: int)
    requires 0 <= k < |s| && s[k] in values
    requires forall i :: 0 <= i < k ==> s[i] !in values
    ensures IndexOfAny(s, values) == k
  {
  }

  /** MemoryExtensions.LastIndexOfAny: the last index holding one of `values`, or -1. */
  function LastIndexOfAny(s: seq<char>, values: seq<char>): (r: int)
    ensures -1 <= r < |s|
    ensures r == -1 <==> forall i :: 0 <= i < |s| ==> s[i] !in values
    ensures 0 <= r ==> s[r] in values && forall i :: r < i < |s| ==> s[i] !in values
    decreases |s|
  {
    if |s| == 0 then -1
    else if s[|s| - 1] in values then |s| - 1
    else
      assert forall i :: 0 <= i < |s| - 1 ==> s[i] == s[..|s| - 1][i];
      LastIndexOfAny(s[..|s| - 1], values)
  }

  /** MemoryExtensions.IndexOf(span, char). */
  function IndexOf(s: seq<char>, c: char): (r: int)
    ensures -1 <= r < |s|
    ensures r == -1 <==> c !in s
    ensures 0 <= r ==> s[r] == c && c !in s[..r]
  {
    SingleCharFirst(s, c);
    IndexOfAny(s, [c])
  }

  /** IndexOfAny on a one-character set finds that character. */
  lemma SingleCharFirst(s: seq<char>, c: char)
    ensures var r := IndexOfAny(s, [c]);
      (r == -1 <==> c !in s) && (0 <= r ==> s[r] == c && c !in s[..r])
  {
    var r := IndexOfAny(s, [c]);
    assert forall i :: 0 <= i < |s| ==> (s[i] in [c] <==> s[i] == c);
    assert 0 <= r ==> forall j :: 0 <= j < r ==> s[..r][j] == s[j];
  }

  /** MemoryExtensions.LastIndexOf(span, char). */
  function LastIndexOf(s: seq<char>, c: char): (r: int)
    ensures -1 <= r < |s|
    ensures r == -1 <==> c !in s
    ensures 0 <= r ==> s[r] == c && c !in s[r + 1..]
  {
    SingleCharLast(s, c);
    LastIndexOfAny(s, [c])
  }

  /** LastIndexOfAny on a one-character set finds that character. */
  lemma SingleCharLast(s: seq<char>, c: char)
    ensures var r := LastIndexOfAny(s, [c]);
      (r == -1 <==> c !in s) && (0 <= r ==> s[r] == c && c !in s[r + 1..])
  {
    var r := LastIndexOfAny(s, [c]);
    assert forall i :: 0 <= i < |s| ==> (s[i] in [c] <==> s[i] == c);
    assert 0 <= r ==> forall i :: r < i < |s| ==> s[i] == s[r + 1..][i - r - 1];
  }

  /** MemoryExtensions.IndexOf(span, span), ordinal: the first occurrence of
      `needle`, or -1; an empty needle is found at 0. */
  function IndexOfSeq(s: seq<char>, needle: seq<char>): (r: int)
    ensures -1 <= r <= |s|
    ensures r == -1 <==> forall i :: 0 <= i <= |s| - |needle| ==> !IsAt(s, needle, i)
    ensures 0 <= r ==> IsAt(s, needle, r) && forall i :: 0 <= i < r ==> !IsAt(s, needle, i)
    ensures r == -1 <==> !Occurs(s, needle)
    decreases |s|
  {
    if |needle| > |s| then -1
    else if s[..|needle|] == needle then assert IsAt(s, needle, 0); 0
    else
      var k := IndexOfSeq(s[1..], needle);
      assert !IsAt(s, needle, 0);
      assert forall i :: 0 <= i ==> (IsAt(s[1..], needle, i) <==> IsAt(s, needle, i + 1)) by {
        forall i | 0 <= i ensures IsAt(s[1..], needle, i) <==> IsAt(s, needle, i + 1) { IsAtTail(s, needle, i); }
      }
      assert forall i :: 1 <= i ==> (IsAt(s, needle, i) <==> IsAt(s[1..], needle, i - 1)) by {
        forall i | 1 <= i ensures IsAt(s, needle, i) <==> IsAt(s[1..], needle, i - 1) { IsAtTail(s, needle, i - 1); }
      }
      if k == -1 then -1 else k + 1
  }

  /** MemoryExtensions.LastIndexOf(span, span), ordinal, for a non-empty needle:
      the last occurrence of `needle`, or -1. */
  function LastIndexOfSeq(s: seq<char>, needle: seq<char>): (r: int)
    requires |needle| > 0
    ensures -1 <= r <= |s|
    ensures r == -1 <==> forall i :: 0 <= i <= |s| - |needle| ==> !IsAt(s, needle, i)
    ensures 0 <= r ==> IsAt(s, needle, r) && forall i :: r < i <= |s| - |needle| ==> !IsAt(s, needle, i)
    ensures r == -1 <==> !Occurs(s, needle)
    decreases |s|
  {
    if |needle| > |s| then -1
    else if IsAt(s, needle, |s| - |needle|) then |s| - |needle|
    else
      assert !IsAt(s, needle, |s| - |needle|);
      var t := s[..|s| - 1];
      assert forall i :: i + |needle| <= |s| - 1 ==> (IsAt(t, needle, i) <==> IsAt(s, needle, i)) by {
        forall i | i + |needle| <= |s| - 1 ensures IsAt(t, needle, i) <==> IsAt(s, needle, i) {
          IsAtFront(s, needle, i);
        }
      }
      var k := LastIndexOfSeq(t, needle);
      assert k == -1 ==> forall i :: 0 <= i <= |s| - |needle| ==> !IsAt(s, needle, i) by {
        if k == -1 {
          forall i | 0 <= i <= |s| - |needle| ensures !IsAt(s, needle, i) {
            if i < |s| - |needle| { assert !IsAt(t, needle, i); }
          }
        }
      }
      k
  }

  /** string.Replace(oldValue, newValue): a left-to-right scan that replaces
      non-overlapping occurrences of a non-empty `oldValue`. */
  function Replace(s: seq<char>, oldValue: seq<char>, newValue: seq<char>): (r: seq<char>)
    requires |oldValue| > 0
    ensures |newValue| >= |oldValue| ==> |r| >= |s|
    ensures |newValue| <= |oldValue| ==> |r| <= |s|
    decreases |s|
  {
    if |s| < |oldValue| then s
    else if s[..|oldValue|] == oldValue then newValue + Replace(s[|oldValue|..], oldValue, newValue)
    else [s[0]] + Replace(s[1..], oldValue, newValue)
  }

  /** A text in which `oldValue` does not occur comes back unchanged. */
  lemma {:induction false} ReplaceWithoutOccurrence(s: seq<char>, oldValue: seq<char>, newValue: seq<char>)
    requires |oldValue| > 0 && !Occurs(s, oldValue)
    ensures Replace(s, oldValue, newValue) == s
    decreases |s|
  {
    if |s| >= |oldValue| {
      assert !IsAt(s, oldValue, 0);
      assert !Occurs(s[1..], oldValue) by {
        forall i | 0 <= i ensures !IsAt(s[1..], oldValue, i) { IsAtTail(s, oldValue, i); }
      }
      ReplaceWithoutOccurrence(s[1..], oldValue, newValue);
      assert s == [s[0]] + s[1..];
    }
  }

  /** A one-character needle occurs at `i` exactly when that character is there. */
  lemma IsAtSingle(s: seq<char>, c: char, i: int)
    ensures IsAt(s, [c], i) <==> 0 <= i < |s| && s[i] == c
  {
    if 0 <= i < |s| {
      assert s[i..i + 1] == [s[i]];
    }
  }

  /** The char overload of IndexOf finds what the span overload finds for
      the one-character needle. */
  lemma IndexOfSingle(s: seq<char>, c: char)
    ensures IndexOf(s, c) == IndexOfSeq(s, [c])
  {
    forall i ensures IsAt(s, [c], i) <==> 0 <= i < |s| && s[i] == c {
      IsAtSingle(s, c, i);
    }
  }

  /** The char overload of LastIndexOf finds what the span overload finds
      for the one-character needle. */
  lemma LastIndexOfSingle(s: seq<char>, c: char)
    ensures LastIndexOf(s, c) == LastIndexOfSeq(s, [c])
  {
    forall i ensures IsAt(s, [c], i) <==> 0 <= i < |s| && s[i] == c {
      IsAtSingle(s, c, i);
    }
  }

  /** The last `c` is at `k` when `c` is at `k` and nowhere after it. */
  lemma LastIndexOfUnique(s: seq<char>, c: char, k: int)
    requires 0 <= k < |s| && s[k] == c && c !in s[k + 1..]
    ensures LastIndexOf(s, c) == k
  {
    assert forall i :: k < i < |s| ==> s[i] == s[k + 1..][i - k - 1];
  }

  /** Replace consumes an occurrence at the front in one step. */
  lemma ReplaceAtFront(t: seq<char>, oldValue: seq<char>, newValue: seq<char>)
    requires |oldValue| > 0
    ensures Replace(oldValue + t, oldValue, newValue) == newValue + Replace(t, oldValue, newValue)
  {
    var s := oldValue + t;
    assert s[..|oldValue|] == oldValue && s[|oldValue|..] == t;
  }

  /** Replace keeps a first character that does not start an occurrence. */
  lemma ReplaceSkipsFront(s: seq<char>, oldValue: seq<char>, newValue: seq<char>)
    requires |oldValue| > 0 && |s| > 0 && !StartsWith(s, oldValue)
    ensures Replace(s, oldValue, newValue) == [s[0]] + Replace(s[1..], oldValue, newValue)
  {
  }
}
