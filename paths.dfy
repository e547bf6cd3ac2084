/** Path decomposition over spans: WithoutExtension, GetExtension and
    ParentDirectory. The separators (PclExport.DirSep, AltDirSep and the
    DirSeps array) are parameters. A null or empty-string path gives the
    null span. */
module Paths {
  import opened Spans
  import Classification
  import Trimming
  import Segments

  /** The dot at `k` starts the extension of `filePath`: it is the last dot,
      and no separator occurs at or after it. */
  predicate ExtensionAt(filePath: seq<char>, k: int, dirSeps: seq<char>) {
    0 <= k < |filePath| && filePath[k] == '.' && '.' !in filePath[k + 1..]
    && forall i :: k <= i < |filePath| ==> filePath[i] !in dirSeps
  }

  /** WithoutExtension(filePath): the path with its extension cut off, where
      the last dot only starts an extension when it follows the last
      separator; otherwise the path is returned unchanged. */
  function WithoutExtension(filePath: seq<char>, marker: char, dirSeps: seq<char>): (r: seq<char>)
    ensures Classification.IsNullOrEmpty(filePath, marker) ==> r == []
    ensures !Classification.IsNullOrEmpty(filePath, marker) && (exists k :: ExtensionAt(filePath, k, dirSeps)) ==>
      r < filePath && ExtensionAt(filePath, |r|, dirSeps)
    ensures !Classification.IsNullOrEmpty(filePath, marker) && !(exists k :: ExtensionAt(filePath, k, dirSeps)) ==>
      r == filePath
  {
    if Classification.IsNullOrEmpty(filePath, marker) then []
    else
      var extPos := LastIndexOf(filePath, '.');
      if extPos == -1 then filePath
      else
        var dirPos := LastIndexOfAny(filePath, dirSeps);
        if extPos > dirPos then
          assert ExtensionAt(filePath, extPos, dirSeps);
          Slice(filePath, 0, extPos).value
        else
          filePath
  }

  /** GetExtension(filePath): the suffix from the last dot on, whatever
      separators it contains, or the null span when there is no dot. */
  function GetExtension(filePath: seq<char>, marker: char): (r: seq<char>)
    ensures Classification.IsNullOrEmpty(filePath, marker) || '.' !in filePath ==> r == []
    ensures !Classification.IsNullOrEmpty(filePath, marker) && '.' in filePath ==>
      0 < |r| <= |filePath| && r == filePath[|filePath| - |r|..] && r[0] == '.' && '.' !in r[1..]
  {
    if Classification.IsNullOrEmpty(filePath, marker) then []
    else
      var extPos := LastIndexOf(filePath, '.');
      if extPos == -1 then [] else SliceFrom(filePath, extPos).value
  }

  /** A path whose extension follows its last separator is the path without
      the extension followed by the extension. */
  lemma {:induction false} ExtensionSplitsPath(filePath: seq<char>, marker: char, dirSeps: seq<char>, k: int)
    requires !Classification.IsNullOrEmpty(filePath, marker)
    requires ExtensionAt(filePath, k, dirSeps)
    ensures WithoutExtension(filePath, marker, dirSeps) + GetExtension(filePath, marker) == filePath
    ensures GetExtension(filePath, marker) == filePath[k..]
  {
    LastIndexOfUnique(filePath, '.', k);
  }

  /** GetExtension does not look at separators: for a dot in a directory
      name it returns the rest of the path, where WithoutExtension finds no
      extension. */
  lemma ExtensionIgnoresSeparators()
    ensures GetExtension("a.b/c", '*') == ".b/c"
    ensures WithoutExtension("a.b/c", '*', "/") == "a.b/c"
  {
    var p := "a.b/c";
    assert p[1] == '.' && p[2] != '.' && p[3] != '.' && p[4] != '.';
    assert LastIndexOf(p, '.') == 1;
    assert p[3] == '/' && p[4] != '/';
    assert LastIndexOfAny(p, "/") == 3;
  }

  /** The separator ParentDirectory splits on: the primary one when it
      occurs, else the alternate one when it occurs, else the character 0
      (which means there is no parent). */
  function SplitSeparator(filePath: seq<char>, dirSep: char, altDirSep: char): char {
    if dirSep in filePath then dirSep else if altDirSep in filePath then altDirSep else 0 as char
  }

  /** ParentDirectory(filePath): trailing separators are trimmed, and the
      text before the last remaining separator is the parent; with no
      separator left after trimming the trimmed path itself is returned. */
  function ParentDirectory(filePath: seq<char>, marker: char, dirSep: char, altDirSep: char): (r: seq<char>)
    ensures Classification.IsNullOrEmpty(filePath, marker) || SplitSeparator(filePath, dirSep, altDirSep) == 0 as char ==> r == []
    ensures !Classification.IsNullOrEmpty(filePath, marker) && SplitSeparator(filePath, dirSep, altDirSep) != 0 as char ==>
      var sep := SplitSeparator(filePath, dirSep, altDirSep);
      var trimmed := Trimming.TrimTrailing(filePath, Trimming.MemberOf([sep]));
      r < filePath
      && (sep in trimmed ==> r + [sep] <= trimmed && sep !in trimmed[|r| + 1..])
      && (sep !in trimmed ==> r == trimmed)
  {
    if Classification.IsNullOrEmpty(filePath, marker) then []
    else
      var sep :=
        if IndexOf(filePath, dirSep) != -1 then dirSep
        else if IndexOf(filePath, altDirSep) != -1 then altDirSep
        else 0 as char;
      if sep == 0 as char then []
      else
        var trimmed := Trimming.TrimTrailing(filePath, Trimming.MemberOf([sep]));
        ParentOfTrimmed(filePath, sep, trimmed);
        Segments.SplitOnLast(trimmed, sep).0
  }

  /** After trimming the separator from the end of a path that contains it,
      the first half of the split on the last separator is shorter than the
      path. */
  lemma ParentOfTrimmed(filePath: seq<char>, sep: char, trimmed: seq<char>)
    requires sep in filePath
    requires trimmed == Trimming.TrimTrailing(filePath, Trimming.MemberOf([sep]))
    ensures Segments.SplitOnLast(trimmed, sep).0 < filePath
  {
    if sep !in trimmed {
      assert |trimmed| < |filePath|;
    }
  }

  /** The parent of "a/b/c" is "a/b". */
  lemma ParentOfFile()
    ensures ParentDirectory("a/b/c", '*', '/', '\\') == "a/b"
  {
    var p := "a/b/c";
    assert p[1] == '/' && p[3] == '/' && p[4] != '/';
    assert Trimming.TrimTrailing(p, Trimming.MemberOf(['/'])) == p;
    assert LastIndexOf(p, '/') == 3;
  }

  /** The parent of "a/b/" is "a": the trailing separator goes first. */
  lemma ParentOfDirectory()
    ensures ParentDirectory("a/b/", '*', '/', '\\') == "a"
  {
    var p := "a/b/";
    assert p[1] == '/';
    assert p[..3] == "a/b";
    assert Trimming.TrimTrailing("a/b", Trimming.MemberOf(['/'])) == "a/b";
    assert Trimming.TrimTrailing(p, Trimming.MemberOf(['/'])) == "a/b";
    assert LastIndexOf("a/b", '/') == 1;
  }

  /** The parent of "a/" is "a": nothing is left to split once the
      trailing separator is trimmed. */
  lemma ParentOfTopDirectory()
    ensures ParentDirectory("a/", '*', '/', '\\') == "a"
  {
    var p := "a/";
    assert p[1] == '/';
    assert p[..1] == "a";
    assert Trimming.TrimTrailing("a", Trimming.MemberOf(['/'])) == "a";
    assert Trimming.TrimTrailing(p, Trimming.MemberOf(['/'])) == "a";
  }

  /** A path without either separator has no parent. */
  lemma NoParentWithoutSeparator()
    ensures ParentDirectory("file", '*', '/', '\\') == []
  {
    var p := "file";
    assert '/' !in p && '\\' !in p;
  }

  /** "a/b.tar.gz" has extension ".gz" and is "a/b.tar" without it. */
  lemma ExtensionExamples()
    ensures GetExtension("a/b.tar.gz", '*') == ".gz"
    ensures WithoutExtension("a/b.tar.gz", '*', "/\\") == "a/b.tar"
  {
    var p := "a/b.tar.gz";
    assert p[7] == '.' && p[8] != '.' && p[9] != '.';
    assert LastIndexOf(p, '.') == 7;
    assert p[1] == '/' && forall i :: 1 < i < |p| ==> p[i] !in "/\\";
    assert LastIndexOfAny(p, "/\\") == 1;
  }
}
