/**
 The lexical file-name helpers of the vault on slash-separated paths: extension, base name and stem
 (internal/vault/pathfilter.go, and the path/filepath calls it makes).
 */
module FilePaths {

  /** The suffix beginning at the last dot of the last element, or nothing. */
  function Ext(path: string): string {
    if path == [] || path[|path| - 1] == '/' then
      []
    else if path[|path| - 1] == '.' then
      "."
    else
      var n := |path| - 1;
      var ext := Ext(path[..n]);
      if ext == [] then [] else ext + [path[n]]
  }

  lemma {:induction false} ExtIsSuffix(path: string)
    ensures var ext := Ext(path);
            && |ext| <= |path| && ext == path[|path| - |ext|..]
            && (ext != [] ==> ext[0] == '.')
  {
    if path != [] {
      ExtIsSuffix(path[..|path| - 1]);
    }
  }

  /** strings.HasSuffix. */
  predicate EndsWith(s: string, suffix: string)
    ensures EndsWith(s, suffix) ==> |suffix| <= |s|
  {
    suffix == []
    || (s != [] && s[|s| - 1] == suffix[|suffix| - 1] && EndsWith(s[..|s| - 1], suffix[..|suffix| - 1]))
  }

  function TrimSuffix(s: string, suffix: string): string {
    if EndsWith(s, suffix) then s[..|s| - |suffix|] else s
  }

  lemma {:induction false} EndsWithIff(s: string, suffix: string)
    ensures EndsWith(s, suffix) <==> |suffix| <= |s| && s[|s| - |suffix|..] == suffix
    decreases |suffix|
  {
    if suffix != [] && s != [] {
      var s', suffix' := s[..|s| - 1], suffix[..|suffix| - 1];
      EndsWithIff(s', suffix');
      assert suffix == suffix' + [suffix[|suffix| - 1]];
      if |suffix| <= |s| {
        assert s[|s| - |suffix|..] == s'[|s'| - |suffix'|..] + [s[|s| - 1]];
      }
    }
  }

  lemma TrimmedExt(path: string)
    ensures TrimSuffix(path, Ext(path)) + Ext(path) == path
  {
    ExtIsSuffix(path);
    EndsWithIff(path, Ext(path));
  }

  lemma TrimmedSuffix(s: string, suffix: string)
    ensures TrimSuffix(s + suffix, suffix) == s
  {
    EndsWithIff(s + suffix, suffix);
  }

  function TrimSlashes(path: string): (p: string)
    ensures p <= path
    ensures p != [] ==> p[|p| - 1] != '/'
  {
    if path != [] && path[|path| - 1] == '/' then TrimSlashes(path[..|path| - 1]) else path
  }

  /** Everything after the last slash. */
  function LastElement(path: string): (e: string)
    ensures |e| <= |path| && e == path[|path| - |e|..]
    ensures '/' !in e
    ensures path != [] && path[|path| - 1] != '/' ==> e != []
  {
    if path == [] || path[|path| - 1] == '/' then
      []
    else
      var n := |path| - 1;
      var e := LastElement(path[..n]);
      assert e == path[..n][n - |e|..] == path[n - |e|..n];
      e + [path[n]]
  }

  function Base(path: string): (base: string)
    ensures base != []
  {
    if path == [] then "."
    else if TrimSlashes(path) == [] then "/"
    else LastElement(TrimSlashes(path))
  }

  function Stem(path: string): string {
    TrimSuffix(Base(path), Ext(Base(path)))
  }

  function WithoutExt(path: string): string {
    TrimSuffix(path, Ext(path))
  }
}
