/** Directory-name normalisation: a directory name ends in the delimiter. */
module Paths {
  import opened JavaStrings

  /** Zip entry names use '/' as the separator. */
  const Delimiter: char := '/'

  /** `normalizeDirectoryName` as its documentation describes it: append the
      delimiter unless the name is empty or already ends in it. The rest of
      the model uses this definition (see NormalizeAsWritten for the regular
      expression the source actually runs). */
  function Normalize(path: string): (r: string)
    ensures r == [] <==> path == []
    ensures r != [] ==> r[|r| - 1] == Delimiter
    ensures StartsWith(r, path) && |r| <= |path| + 1
    ensures EndsWith(path, [Delimiter]) ==> r == path
  {
    if path == [] || path[|path| - 1] == Delimiter then path else path + [Delimiter]
  }

  lemma NormalizeIdempotent(path: string)
    ensures Normalize(Normalize(path)) == Normalize(path)
  {
  }

  /** The repository's own examples of normalisation. */
  lemma NormalizeExamples()
    ensures Normalize("") == ""
    ensures Normalize("abc") == "abc/"
    ensures Normalize("/") == "/"
    ensures Normalize("abc/") == "abc/"
  {
    assert "abc" + [Delimiter] == "abc/";
  }

  /** The characters at which java.util.regex's `$` may match before the
      end of the input when MULTILINE is off. */
  predicate IsLineTerminator(c: char)
  {
    c == '\n' || c == '\r' || c == '\U{0085}' || c == '\U{2028}' || c == '\U{2029}'
  }

  /** `path` with the delimiter inserted at position `p`. */
  function InsertDelimiter(path: string, p: nat): (r: string)
    requires p <= |path|
    ensures |r| == |path| + 1
    ensures r[..p] == path[..p] && r[p] == Delimiter && r[p + 1..] == path[p..]
  {
    path[..p] + [Delimiter] + path[p..]
  }

  /** What `path.replaceFirst("(?<=[^/])$", "/")` computes. Without MULTILINE,
      `$` matches at the end of the input, before a last line terminator, and
      before a final "\r\n"; the leftmost position whose preceding character
      is not '/' receives the delimiter. */
  function NormalizeAsWritten(path: string): (r: string)
    ensures || r == path
            || r == InsertDelimiter(path, |path|)
            || (|path| >= 1 && r == InsertDelimiter(path, |path| - 1))
            || (|path| >= 2 && r == InsertDelimiter(path, |path| - 2))
  {
    var n := |path|;
    if n >= 3 && path[n - 2] == '\r' && path[n - 1] == '\n' && path[n - 3] != Delimiter then
      var r := InsertDelimiter(path, n - 2);
      assert |path| >= 2 && r == InsertDelimiter(path, |path| - 2);
      r
    else if n >= 2 && IsLineTerminator(path[n - 1]) && !(path[n - 1] == '\n' && path[n - 2] == '\r')
         && path[n - 2] != Delimiter then
      var r := InsertDelimiter(path, n - 1);
      assert |path| >= 1 && r == InsertDelimiter(path, |path| - 1);
      r
    else if n >= 1 && path[n - 1] != Delimiter then
      InsertDelimiter(path, n)
    else
      path
  }

  /** On every name that does not end in a line terminator the regular
      expression does what the documentation says. */
  lemma AsWrittenAgreesOffLineTerminators(path: string)
    requires path == [] || !IsLineTerminator(path[|path| - 1])
    ensures NormalizeAsWritten(path) == Normalize(path)
  {
  }

  /** The discrepancy: "a\n" becomes "a/\n", which does not end in the
      delimiter, and normalising again inserts a second one. */
  lemma AsWrittenMisplacesDelimiter()
    ensures NormalizeAsWritten("a\n") == "a/\n"
    ensures !EndsWith(NormalizeAsWritten("a\n"), "/")
    ensures NormalizeAsWritten(NormalizeAsWritten("a\n")) == "a/\n/"
    ensures Normalize("a\n") == "a\n/"
  {
    AsWrittenOnTerminated();
    AsWrittenOnMisplaced();
    assert "a/\n"[2..] == "\n";
    assert "a\n" + [Delimiter] == "a\n/";
  }

  /** The regular expression puts the delimiter before the final '\n'. */
  lemma AsWrittenOnTerminated()
    ensures NormalizeAsWritten("a\n") == "a/\n"
  {
    var s := "a\n";
    assert IsLineTerminator(s[1]) && s[0] != Delimiter;
    assert NormalizeAsWritten(s) == InsertDelimiter(s, 1);
    assert s[..1] + [Delimiter] + s[1..] == "a/\n";
  }

  /** On "a/\n" only the end of the input is preceded by a character other
      than '/'. */
  lemma AsWrittenOnMisplaced()
    ensures NormalizeAsWritten("a/\n") == "a/\n/"
  {
    var t := "a/\n";
    assert t[1] == Delimiter && t[2] != Delimiter;
    assert NormalizeAsWritten(t) == InsertDelimiter(t, 3);
    assert t[..3] + [Delimiter] + t[3..] == "a/\n/";
  }
}
