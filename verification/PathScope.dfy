/**
 The two path-scope matchers of the search (internal/search/bm25.go): one that compiles the scope on
 every call and one that compiles it once. Both first ask filepath.Match, whose answer is a parameter,
 and then search with the compiled glob. For a scope it reads as plain the answer is its documented
 meaning, PlainMatch.
 */
module PathScope {
  import opened Wrappers
  import opened Regex
  import opened Glob

  /** What filepath.Match says: a malformed pattern, or whether the name matches. */
  datatype FileMatch = BadPattern | Answer(matched: bool)

  ghost function Compile(scope: string): Option<seq<Re>> {
    Parse("^" + Emit(scope) + "$")
  }

  ghost predicate RegexAccepts(scope: string, rel: string) {
    var re := Compile(scope);
    re.Some? && Finds(re.value, rel)
  }

  ghost predicate MatchesPathScope(fileMatch: (string, string) -> FileMatch, rel: string, scope: string) {
    if scope == [] then
      true
    else
      match fileMatch(scope, rel)
      case BadPattern => false
      case Answer(matched) => matched || RegexAccepts(scope, rel)
  }

  /** The precompiled matcher; re is absent for an empty scope. */
  datatype Matcher = Matcher(scope: string, re: Option<seq<Re>>) {
    ghost predicate Accepts(fileMatch: (string, string) -> FileMatch, rel: string) {
      if scope == [] then true
      else if fileMatch(scope, rel) == Answer(true) then true
      else if re.None? then false
      else Finds(re.value, rel)
    }
  }

  ghost function NewMatcher(scope: string): Matcher {
    if scope == [] then Matcher(scope, None) else Matcher(scope, Compile(scope))
  }

  /**
   The two decide alike exactly when the pattern is not malformed or the regex rejects the path too,
   which for a newline-free path means that the glob does not match it: the first gives up on a malformed
   pattern, the second goes on to the regex.
   */
  lemma MatchersAgreeIff(fileMatch: (string, string) -> FileMatch, rel: string, scope: string)
    ensures MatchesPathScope(fileMatch, rel, scope) == NewMatcher(scope).Accepts(fileMatch, rel)
            <==> !(scope != [] && fileMatch(scope, rel).BadPattern? && RegexAccepts(scope, rel))
    ensures '\n' !in rel ==>
              (MatchesPathScope(fileMatch, rel, scope) == NewMatcher(scope).Accepts(fileMatch, rel)
               <==> !(scope != [] && fileMatch(scope, rel).BadPattern? && GlobMatches(scope, rel)))
  {
    EmittedTextParses(scope);
    if '\n' !in rel {
      CompiledGlobAccepts(scope, rel);
    }
  }

  /** What each of them accepts: no scope at all, what filepath.Match accepts, and what the glob means. */
  lemma MatchersDecide(fileMatch: (string, string) -> FileMatch, rel: string, scope: string)
    requires '\n' !in rel
    ensures MatchesPathScope(fileMatch, rel, scope)
            <==> scope == [] || (fileMatch(scope, rel) != BadPattern
                                 && (fileMatch(scope, rel) == Answer(true) || GlobMatches(scope, rel)))
    ensures NewMatcher(scope).Accepts(fileMatch, rel)
            <==> scope == [] || fileMatch(scope, rel) == Answer(true) || GlobMatches(scope, rel)
  {
    CompiledGlobAccepts(scope, rel);
  }

  /** They do differ: an unclosed bracket is malformed as a pattern and a literal in the regex. */
  lemma MatchersDifferOnOpenBracket(fileMatch: (string, string) -> FileMatch)
    requires fileMatch("[", "[") == BadPattern
    ensures !MatchesPathScope(fileMatch, "[", "[") && NewMatcher("[").Accepts(fileMatch, "[")
  {
    CompiledGlobAccepts("[", "[");
    assert "["[1..] == [];
    assert GlobMatches([], []);
    assert GlobMatches("[", "[");
    MatchersAgreeIff(fileMatch, "[", "[");
  }

  // ---------------------------------------------------------------- plain scopes

  predicate PlainScope(scope: string) {
    scope != [] && '[' !in scope && '\\' !in scope
  }

  /** filepath.Match on a plain pattern: '*' and '?' stay within one path element, the rest is literal. */
  ghost predicate PlainMatch(pattern: string, name: string) {
    if pattern == [] then
      name == []
    else if pattern[0] == '*' then
      exists k: nat :: k <= |name| && '/' !in name[..k] && PlainMatch(pattern[1..], name[k..])
    else
      name != []
      && (if pattern[0] == '?' then name[0] != '/' else name[0] == pattern[0])
      && PlainMatch(pattern[1..], name[1..])
  }

  lemma TwoStars(g: string, p: string) returns (k: nat)
    requires "**" <= g && PlainMatch(g, p)
    ensures k <= |p| && '/' !in p[..k] && PlainMatch(g[2..], p[k..])
  {
    var a: nat :| a <= |p| && '/' !in p[..a] && PlainMatch(g[1..], p[a..]);
    var b: nat :| b <= |p[a..]| && '/' !in p[a..][..b] && PlainMatch(g[1..][1..], p[a..][b..]);
    k := a + b;
    PrefixSlices(p, a, b);
    assert g[1..][1..] == g[2..];
    assert p[..k] == p[..a] + p[a..k];
  }

  lemma OneNameIsDirs(d: string)
    requires '/' !in d
    ensures IsDirs(d + "/")
  {
    DirsEndWithSlash(d + "/");
  }

  /** Whatever the plain pattern accepts, the glob accepts. */
  lemma {:induction false} PlainIsGlob(g: string, p: string)
    requires PlainMatch(g, p)
    ensures GlobMatches(g, p)
    decreases |g|
  {
    hide IsDirs;
    if "**/" <= g {
      var k := TwoStars(g, p);
      assert g[2..][0] == '/' && p[k..][0] == '/' && g[2..][1..] == g[3..] && p[k..][1..] == p[k + 1..];
      PlainIsGlob(g[3..], p[k + 1..]);
      OneNameIsDirs(p[..k]);
      assert p[..k] + "/" == p[..k + 1];
    } else if "**" <= g {
      var k := TwoStars(g, p);
      PlainIsGlob(g[2..], p[k..]);
    } else if g != [] && g[0] == '*' {
      var k: nat :| k <= |p| && '/' !in p[..k] && PlainMatch(g[1..], p[k..]);
      PlainIsGlob(g[1..], p[k..]);
    } else if g != [] {
      PlainIsGlob(g[1..], p[1..]);
    }
  }

  /** For plain scopes both matchers are the bare regex: asking filepath.Match first changes nothing. */
  lemma PlainScopesDecideAlike(fileMatch: (string, string) -> FileMatch, rel: string, scope: string)
    requires PlainScope(scope) && '\n' !in rel
    requires fileMatch(scope, rel) == Answer(PlainMatch(scope, rel))
    ensures MatchesPathScope(fileMatch, rel, scope) == RegexAccepts(scope, rel) == GlobMatches(scope, rel)
    ensures NewMatcher(scope).Accepts(fileMatch, rel) == RegexAccepts(scope, rel)
  {
    CompiledGlobAccepts(scope, rel);
    if PlainMatch(scope, rel) {
      PlainIsGlob(scope, rel);
    }
  }
}
