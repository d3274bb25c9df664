/**
  How the Checker constructor cleans the root paths it is given: each is
  trimmed of '"', ' ' and '\'' at both ends, and the ones left empty or
  made only of white space are dropped.
*/
module PathCleaning {
  import opened Linq

  /** The characters passed to string.Trim. */
  predicate IsTrimChar(c: char)
  {
    c == '"' || c == ' ' || c == '\''
  }

  predicate AllTrimChars(s: string)
  {
    forall i | 0 <= i < |s| :: IsTrimChar(s[i])
  }

  /** char.IsWhiteSpace: the Unicode space, line and paragraph separators and
      the control characters U+0009 to U+000D and U+0085. */
  predicate IsWhiteSpace(c: char)
  {
    || c == ' ' || '\t' <= c <= '\r' || c == '\U{85}' || c == '\U{A0}' || c == '\U{1680}'
    || '\U{2000}' <= c <= '\U{200A}' || c == '\U{2028}' || c == '\U{2029}' || c == '\U{202F}'
    || c == '\U{205F}' || c == '\U{3000}'
  }

  /** string.IsNullOrWhiteSpace for a non-null string. */
  predicate IsNullOrWhiteSpace(s: string)
  {
    forall i | 0 <= i < |s| :: IsWhiteSpace(s[i])
  }

  /** Drops the longest prefix of trim characters. */
  function TrimStart(s: string): (r: string)
    ensures r == [] || !IsTrimChar(r[0])
    decreases |s|
  {
    if s != [] && IsTrimChar(s[0]) then TrimStart(s[1..]) else s
  }

  /** Drops the longest suffix of trim characters. */
  function TrimEnd(s: string): (r: string)
    ensures r == [] || !IsTrimChar(r[|r| - 1])
    decreases |s|
  {
    if s != [] && IsTrimChar(s[|s| - 1]) then TrimEnd(s[..|s| - 1]) else s
  }

  /** TrimStart removes a prefix made only of trim characters. */
  lemma {:induction false} TrimStartDropsPrefix(s: string)
    ensures |TrimStart(s)| <= |s| && TrimStart(s) == s[|s| - |TrimStart(s)|..]
    ensures AllTrimChars(s[..|s| - |TrimStart(s)|])
    decreases |s|
  {
    if s != [] && IsTrimChar(s[0]) {
      TrimStartDropsPrefix(s[1..]);
      var k := |s| - |TrimStart(s)|;
      assert s[1..][..k - 1] == s[1..k];
      assert forall i | 1 <= i < k :: s[i] == s[1..k][i - 1];
    }
  }

  /** TrimEnd removes a suffix made only of trim characters. */
  lemma {:induction false} TrimEndDropsSuffix(s: string)
    ensures |TrimEnd(s)| <= |s| && TrimEnd(s) == s[..|TrimEnd(s)|]
    ensures AllTrimChars(s[|TrimEnd(s)|..])
    decreases |s|
  {
    if s != [] && IsTrimChar(s[|s| - 1]) {
      var n := |s| - 1;
      TrimEndDropsSuffix(s[..n]);
      var k := |TrimEnd(s)|;
      assert s[..n][k..] == s[k..n];
      assert forall i | k <= i < n :: s[i] == s[k..n][i - k];
    }
  }

  /** string.Trim('"', ' ', '\''): neither end of the result is a trim character. */
  function Trim(s: string): (r: string)
    ensures r == [] || (!IsTrimChar(r[0]) && !IsTrimChar(r[|r| - 1]))
  {
    var t := TrimStart(s);
    var r := TrimEnd(t);
    TrimEndDropsSuffix(t);
    assert r != [] ==> r[0] == t[0];
    r
  }

  /** Trim removes trim characters only, and only from the two ends: the
      result is a slice of the input with trim characters on either side. */
  lemma TrimRemovesOnlyEnds(s: string)
    ensures exists i | 0 <= i <= |s| - |Trim(s)| ::
      s[i..i + |Trim(s)|] == Trim(s) && AllTrimChars(s[..i]) && AllTrimChars(s[i + |Trim(s)|..])
  {
    var t := TrimStart(s);
    var r := TrimEnd(t);
    TrimStartDropsPrefix(s);
    TrimEndDropsSuffix(t);
    var i := |s| - |t|;
    assert s[i..i + |r|] == r;
    assert s[i + |r|..] == t[|r|..];
  }

  /** Trimming removes every leading and trailing trim character and nothing
      else, so a trimmed string is left as it is. */
  lemma TrimIdempotent(s: string)
    ensures Trim(Trim(s)) == Trim(s)
  {
    var r := Trim(s);
    if r != [] {
      assert TrimStart(r) == r;
      assert TrimEnd(r) == r;
    }
  }

  /** What every entry of Paths satisfies: not blank, and neither end a trim
      character. */
  predicate IsCleanPath(p: string)
  {
    !IsNullOrWhiteSpace(p) && p != [] && !IsTrimChar(p[0]) && !IsTrimChar(p[|p| - 1])
  }

  lemma TrimmedIsClean(s: string)
    ensures !IsNullOrWhiteSpace(Trim(s)) ==> IsCleanPath(Trim(s))
  {
    var t := Trim(s);
    assert t == [] || (!IsTrimChar(t[0]) && !IsTrimChar(t[|t| - 1]));
  }

  /** The constructor's Paths: Select(Trim) then Where(!IsNullOrWhiteSpace). */
  function CleanPaths(paths: seq<string>): (r: seq<string>)
    ensures |r| <= |paths|
    ensures forall i | 0 <= i < |r| :: IsCleanPath(r[i])
    decreases |paths|
  {
    if paths == [] then []
    else
      var t := Trim(paths[|paths| - 1]);
      var r := CleanPaths(paths[..|paths| - 1]);
      TrimmedIsClean(paths[|paths| - 1]);
      r + if IsNullOrWhiteSpace(t) then [] else [t]
  }

  /** The kept paths are the trimmed inputs in their original order... */
  lemma {:induction false} CleanPathsKeepsOrder(paths: seq<string>)
    ensures IsSubsequence(CleanPaths(paths), Select(paths, Trim))
    decreases |paths|
  {
    if paths != [] {
      var n := |paths| - 1;
      CleanPathsKeepsOrder(paths[..n]);
      var r', t := CleanPaths(paths[..n]), Select(paths, Trim);
      var x := Trim(paths[n]);
      assert t[..n] == Select(paths[..n], Trim);
      assert t[n] == x;
      if IsNullOrWhiteSpace(x) {
        assert CleanPaths(paths) == r';
        if r' != [] {
          assert IsSubsequence(r', t[..|t| - 1]);
        }
      } else {
        var r := r' + [x];
        assert CleanPaths(paths) == r;
        assert r[..|r| - 1] == r' && r[|r| - 1] == t[|t| - 1];
        assert IsSubsequence(r[..|r| - 1], t[..|t| - 1]);
      }
    }
  }

  /** ...and every input that is not blank once trimmed is kept. */
  lemma {:induction false} CleanPathsKeepsNonBlank(paths: seq<string>)
    ensures forall i | 0 <= i < |paths| && !IsNullOrWhiteSpace(Trim(paths[i])) :: Trim(paths[i]) in CleanPaths(paths)
    decreases |paths|
  {
    if paths != [] {
      var n := |paths| - 1;
      CleanPathsKeepsNonBlank(paths[..n]);
      assert CleanPaths(paths[..n]) <= CleanPaths(paths);
      forall i | 0 <= i < n && !IsNullOrWhiteSpace(Trim(paths[i])) ensures Trim(paths[i]) in CleanPaths(paths) {
        assert paths[..n][i] == paths[i];
      }
    }
  }

  predicate NotBlank(s: string)
  {
    !IsNullOrWhiteSpace(s)
  }

  /** CleanPaths is exactly `paths.Select(p => p.Trim()).Where(p =>
      !string.IsNullOrWhiteSpace(p))`: every non-blank trimmed path, as
      many times as it occurs, in input order. */
  lemma {:induction false} CleanPathsIsSelectWhere(paths: seq<string>)
    ensures CleanPaths(paths) == Where(Select(paths, Trim), NotBlank)
    decreases |paths|
  {
    if paths != [] {
      var n := |paths| - 1;
      var t := Select(paths, Trim);
      CleanPathsIsSelectWhere(paths[..n]);
      assert t[..n] == Select(paths[..n], Trim);
    }
  }
}
