/** FromCsvField: decoding one CSV field. The configured item delimiter
    (CsvConfig.ItemDelimiterString, `delim`) and its escaped form
    (CsvConfig.EscapedItemDelimiterString, `escaped`) are parameters, as is
    the empty-string marker. */
module CsvField {
  import opened Outcomes
  import opened Spans
  import Classification

  /** FromCsvField(text). A null or empty-string field, or one that does not
      start with the delimiter, is returned unchanged. Otherwise |delim|
      characters are dropped from the front and the slice is cut
      |escaped| - |delim| characters short of the end, without looking at
      what is there, and every escaped delimiter inside is unescaped. A
      decoded field that is empty becomes the empty-string marker, so a
      non-null field never decodes to null. The call throws when the slice
      leaves the field, and when the escaped delimiter is empty
      (string.Replace refuses an empty search string). */
  function FromCsvField(text: seq<char>, marker: char, delim: seq<char>, escaped: seq<char>): (r: Outcome<seq<char>>)
    ensures Classification.IsNullOrEmpty(text, marker) || !StartsWith(text, delim) ==> r == Returned(text)
    ensures !Classification.IsNullOrEmpty(text, marker) && StartsWith(text, delim) ==>
      (r.Returned? <==> |delim| <= |escaped| <= |text| && |escaped| > 0)
    ensures r.Threw? && |escaped| > 0 ==> r == Threw(ArgumentOutOfRange)
    ensures r.Returned? && |text| > 0 ==> |r.value| > 0
  {
    if Classification.IsNullOrEmpty(text, marker) then Returned(text)
    else if |delim| == 1 && text[0] != delim[0] then Returned(text)
    else if |delim| != 1 && !StartsWith(text, delim) then Returned(text)
    else match Slice(text, |delim|, |text| - |escaped|)
      case Threw(e) => Threw(e)
      case Returned(inner) =>
        if |escaped| == 0 then Threw(Argument)
        else
          var ret := Replace(inner, escaped, delim);
          if ret == [] then Returned([marker]) else Returned(ret)
  }

  /** Doubling every `c` and then replacing each "cc" by "c", scanning left
      to right, gives back the original text. */
  lemma {:induction false} UndoubleDoubled(s: seq<char>, c: char)
    ensures Replace(Replace(s, [c], [c, c]), [c, c], [c]) == s
    decreases |s|
  {
    if |s| > 0 {
      UndoubleDoubled(s[1..], c);
      if s[0] == c {
        assert s == [c] + s[1..];
        UndoubleStep(s[1..], c);
      } else {
        KeepStep(s, c);
      }
    }
  }

  /** The inductive step of UndoubleDoubled for a text starting with `c`. */
  lemma UndoubleStep(t: seq<char>, c: char)
    requires Replace(Replace(t, [c], [c, c]), [c, c], [c]) == t
    ensures Replace(Replace([c] + t, [c], [c, c]), [c, c], [c]) == [c] + t
  {
    ReplaceAtFront(t, [c], [c, c]);
    ReplaceAtFront(Replace(t, [c], [c, c]), [c, c], [c]);
  }

  /** The inductive step of UndoubleDoubled for a text starting with
      another character. */
  lemma KeepStep(s: seq<char>, c: char)
    requires |s| > 0 && s[0] != c
    requires Replace(Replace(s[1..], [c], [c, c]), [c, c], [c]) == s[1..]
    ensures Replace(Replace(s, [c], [c, c]), [c, c], [c]) == s
  {
    var rest := Replace(s[1..], [c], [c, c]);
    assert s[..1][0] == s[0];
    ReplaceSkipsFront(s, [c], [c, c]);
    var d := [s[0]] + rest;
    assert d[1..] == rest;
    if |d| >= 2 {
      assert d[..2][0] == s[0];
      ReplaceSkipsFront(d, [c, c], [c]);
    }
    assert s == [s[0]] + s[1..];
  }

  /** Decoding a field that was encoded the CSV way (the content with every
      one-character delimiter doubled, wrapped in the delimiter) gives the
      content back, or the empty-string marker for empty content. */
  lemma {:induction false} DecodesEncodedField(content: seq<char>, c: char, marker: char)
    ensures var field := [c] + Replace(content, [c], [c, c]) + [c];
      FromCsvField(field, marker, [c], [c, c]) == Returned(if content == [] then [marker] else content)
  {
    var doubled := Replace(content, [c], [c, c]);
    var field := [c] + doubled + [c];
    assert field[1..1 + |field| - 2] == doubled;
    UndoubleDoubled(content, c);
  }

  /** The closing delimiter is never inspected: with a one-character
      delimiter whose escaped form is one character longer, a field that
      starts with the delimiter decodes the same whatever its last
      character is. */
  lemma {:induction false} ClosingCharacterIgnored(text: seq<char>, x: char, y: char, marker: char, delim: seq<char>, escaped: seq<char>)
    requires |delim| == 1 && |escaped| == 2 && StartsWith(text, delim)
    ensures FromCsvField(text + [x], marker, delim, escaped) == FromCsvField(text + [y], marker, delim, escaped)
  {
    var tx, ty := text + [x], text + [y];
    assert tx[0] == ty[0] == text[0];
    assert tx[1..|tx| - 1] == ty[1..|ty| - 1] == text[1..];
  }

  /** `"a""b"` decodes to `a"b`, and a field missing its closing quote,
      `"ab`, decodes to `a`. */
  lemma QuotedFieldExamples(marker: char)
    ensures FromCsvField(['"', 'a', '"', '"', 'b', '"'], marker, ['"'], ['"', '"']) == Returned(['a', '"', 'b'])
    ensures FromCsvField(['"', 'a', 'b'], marker, ['"'], ['"', '"']) == Returned(['a'])
  {
    var f: seq<char> := ['"', 'a', '"', '"', 'b', '"'];
    var inner: seq<char> := ['a', '"', '"', 'b'];
    assert f[1..5] == inner;
    assert inner[..2] != ['"', '"'] by { assert inner[..2][0] == 'a'; }
    assert inner[1..][..2] == ['"', '"'];
    assert inner[1..][2..] == ['b'];
    assert Replace(['b'], ['"', '"'], ['"']) == ['b'];
    assert Replace(inner[1..], ['"', '"'], ['"']) == ['"', 'b'];
    assert Replace(inner, ['"', '"'], ['"']) == ['a'] + ['"', 'b'] == ['a', '"', 'b'];
    var g: seq<char> := ['"', 'a', 'b'];
    assert g[1..2] == ['a'];
  }
}
