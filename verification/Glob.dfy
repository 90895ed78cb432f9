/**
 The glob compiler (globToRegex in internal/search/regex.go): it writes regular-expression text, and
 this file proves that the text always parses and that the expression accepts exactly the paths the
 glob means. Globs are ASCII, because the loop reads bytes; paths hold no newline, because a dot does
 not match one.
 */
module Glob {
  import opened Wrappers
  import opened Lines
  import opened Regex

  // ---------------------------------------------------------------- the glob's own meaning

  /** Zero or more directory names, each followed by a slash. */
  ghost predicate IsDirs(d: string) {
    d == [] || exists n: nat :: n < |d| && d[n] == '/' && '/' !in d[..n] && IsDirs(d[n + 1..])
  }

  ghost predicate GlobMatches(g: string, p: string) {
    if g == [] then
      p == []
    else if "**/" <= g then
      exists k: nat :: k <= |p| && IsDirs(p[..k]) && GlobMatches(g[3..], p[k..])
    else if "**" <= g then
      exists k: nat :: k <= |p| && GlobMatches(g[2..], p[k..])
    else if g[0] == '*' then
      exists k: nat :: k <= |p| && '/' !in p[..k] && GlobMatches(g[1..], p[k..])
    else
      p != [] && (if g[0] == '?' then p[0] != '/' else p[0] == g[0]) && GlobMatches(g[1..], p[1..])
  }

  // ---------------------------------------------------------------- the compiler

  function Emit(g: string): string {
    if g == [] then []
    else if "**/" <= g then "(.*/)?" + Emit(g[3..])
    else if "**" <= g then ".*" + Emit(g[2..])
    else if g[0] == '*' then "[^/]*" + Emit(g[1..])
    else if g[0] == '?' then "[^/]" + Emit(g[1..])
    else Quote(g[0]) + Emit(g[1..])
  }

  method GlobToRegex(glob: string) returns (sb: string)
    ensures sb == "^" + Emit(glob) + "$"
  {
    hide Emit, Quote;
    sb := "^";
    var i := 0;
    assert glob[0..] == glob;
    while i < |glob|
      invariant i <= |glob|
      invariant sb + Emit(glob[i..]) == "^" + Emit(glob)
    {
      var c := glob[i];
      EmitStep(glob[i..]);
      assert glob[i..][1..] == glob[i + 1..];
      ghost var tail := Emit(glob[i + 1..]);
      if c == '*' {
        if i + 1 < |glob| && glob[i + 1] == '*' {
          if i + 2 < |glob| && glob[i + 2] == '/' {
            assert glob[i..][3..] == glob[i + 3..];
            Regroup(sb, "(.*/)?", Emit(glob[i + 3..]));
            sb := sb + "(.*/)?";
            i := i + 3;
            continue;
          }
          assert glob[i..][2..] == glob[i + 2..];
          Regroup(sb, ".*", Emit(glob[i + 2..]));
          sb := sb + ".*";
          i := i + 2;
          continue;
        }
        Regroup(sb, "[^/]*", tail);
        sb := sb + "[^/]*";
      } else if c == '?' {
        Regroup(sb, "[^/]", tail);
        sb := sb + "[^/]";
      } else {
        Regroup(sb, Quote(c), tail);
        sb := sb + Quote(c);
      }
      i := i + 1;
    }
    assert Emit(glob[i..]) == [] by { EmitNothing(glob[i..]); }
    sb := sb + "$";
  }

  lemma EmitNothing(g: string)
    requires g == []
    ensures Emit(g) == []
  {
  }

  /** The cases of Emit, by the characters the loop looks at. */
  lemma EmitStep(g: string)
    requires g != []
    ensures Emit(g) == if g[0] == '*' && |g| > 1 && g[1] == '*' then
                         if |g| > 2 && g[2] == '/' then "(.*/)?" + Emit(g[3..]) else ".*" + Emit(g[2..])
                       else if g[0] == '*' then "[^/]*" + Emit(g[1..])
                       else if g[0] == '?' then "[^/]" + Emit(g[1..])
                       else Quote(g[0]) + Emit(g[1..])
  {
    hide Quote;
    StarPrefixes(g);
  }

  lemma StarPrefixes(g: string)
    ensures "**" <= g <==> |g| > 1 && g[0] == '*' && g[1] == '*'
    ensures "**/" <= g <==> |g| > 2 && g[0] == '*' && g[1] == '*' && g[2] == '/'
  {
  }

  // ---------------------------------------------------------------- the text parses

  const DIRS := Opt(Group([Star(AnyChar), Lit('/')]))

  /** The expression the emitted text stands for. */
  function Items(g: string): seq<Re> {
    if g == [] then [End]
    else if "**/" <= g then [DIRS] + Items(g[3..])
    else if "**" <= g then [Star(AnyChar)] + Items(g[2..])
    else if g[0] == '*' then [Star(NotChar('/'))] + Items(g[1..])
    else if g[0] == '?' then [NotChar('/')] + Items(g[1..])
    else [Lit(g[0])] + Items(g[1..])
  }

  /** What follows a piece is never taken for a repetition of it. */
  lemma EmitStartsNoRepetition(g: string)
    ensures (Emit(g) + "$")[0] != '*' && (Emit(g) + "$")[0] != '?'
  {
  }

  lemma DirsIsRead(rest: string)
    requires rest != [] && rest[0] != '*' && rest[0] != '?'
    ensures ParseItem("(.*/)?" + rest) == Some((DIRS, rest))
  {
    hide ParseItems;
    var s := "(.*/)?" + rest;
    InnerIsRead("?" + rest);
    assert s[1..] == ".*/)" + ("?" + rest);
    assert (")" + ("?" + rest))[1..] == "?" + rest && ("?" + rest)[1..] == rest;
  }

  lemma AnyIsRead(rest: string)
    ensures ParseItem(".*" + rest) == Some((Star(AnyChar), rest))
  {
    hide ParseItems;
    var s := ".*" + rest;
    assert s[1..] == "*" + rest && s[1..][1..] == rest;
  }

  lemma NotSlashIsRead(rest: string)
    requires rest != [] && rest[0] != '*' && rest[0] != '?'
    ensures ParseItem("[^/]*" + rest) == Some((Star(NotChar('/')), rest))
    ensures ParseItem("[^/]" + rest) == Some((NotChar('/'), rest))
  {
    hide ParseItems;
    assert ("[^/]*" + rest)[4..] == "*" + rest && ("*" + rest)[1..] == rest;
    assert ("[^/]" + rest)[4..] == rest;
  }

  lemma QuotedIsRead(c: char, rest: string)
    requires rest != [] && rest[0] != '*' && rest[0] != '?'
    ensures ParseItem(Quote(c) + rest) == Some((Lit(c), rest))
  {
    hide ParseItems;
    assert (Quote(c) + rest)[|Quote(c)|..] == rest;
  }

  lemma PieceIsRead(piece: string, re: Re, rest: string)
    requires rest != [] && rest[0] != '*' && rest[0] != '?'
    requires || (piece == "(.*/)?" && re == DIRS)
             || (piece == ".*" && re == Star(AnyChar))
             || (piece == "[^/]*" && re == Star(NotChar('/')))
             || (piece == "[^/]" && re == NotChar('/'))
             || (exists c :: piece == Quote(c) && re == Lit(c))
    ensures ParseItem(piece + rest) == Some((re, rest))
  {
    hide ParseItem;
    if piece == "(.*/)?" {
      DirsIsRead(rest);
    } else if piece == ".*" {
      AnyIsRead(rest);
    } else if piece == "[^/]*" || piece == "[^/]" {
      NotSlashIsRead(rest);
    } else {
      var c :| piece == Quote(c) && re == Lit(c);
      QuotedIsRead(c, rest);
    }
  }

  lemma InnerIsRead(rest: string)
    ensures ParseItems(".*/)" + rest) == Parsed([Star(AnyChar), Lit('/')], ")" + rest)
  {
    var s0, s1, s2 := ".*/)" + rest, "/)" + rest, ")" + rest;
    assert s0[1..] == "*/)" + rest && s0[1..][1..] == s1;
    assert ParseItem(s0) == Some((Star(AnyChar), s1));
    assert s1[1..] == s2;
    assert ParseItem(s1) == Some((Lit('/'), s2));
    assert ParseItem(s2).None?;
    assert ParseItems(s2) == Parsed([], s2);
    assert ParseItems(s1) == Parsed([Lit('/')], s2);
  }

  lemma {:induction false} EmittedIsRead(g: string)
    ensures ParseItems(Emit(g) + "$") == Parsed(Items(g), [])
  {
    hide ParseItem, Quote;
    if g == [] {
      EndIsRead();
    } else {
      var n := if "**/" <= g then 3 else if "**" <= g then 2 else 1;
      EmittedIsRead(g[n..]);
      EmitStartsNoRepetition(g[n..]);
      var rest := Emit(g[n..]) + "$";
      var piece := if "**/" <= g then "(.*/)?" else if "**" <= g then ".*" else if g[0] == '*' then "[^/]*"
                   else if g[0] == '?' then "[^/]" else Quote(g[0]);
      assert Emit(g) == piece + Emit(g[n..]);
      assert Emit(g) + "$" == piece + rest;
      PieceIsRead(piece, Items(g)[0], rest);
    }
  }

  lemma EndIsRead()
    ensures ParseItems([] + "$") == Parsed([End], [])
  {
    assert [] + "$" == "$" && "$"[1..] == [];
    assert ParseItem("$") == Some((End, []));
    assert ParseItem([]).None?;
  }

  /** The emitted text always compiles, to the anchored expression of the glob. */
  lemma EmittedTextParses(g: string)
    ensures Parse("^" + Emit(g) + "$") == Some([Begin] + Items(g))
  {
    var s := "^" + Emit(g) + "$";
    assert s[1..] == Emit(g) + "$";
    EmittedIsRead(g);
    EmitStartsNoRepetition(g);
    assert ParseItem(s) == Some((Begin, s[1..]));
  }

  // ---------------------------------------------------------------- what the pieces match

  lemma {:induction false} StarOfNotSlash(s: string, i: nat, j: nat)
    requires i <= j <= |s|
    ensures Matches(Star(NotChar('/')), s, i, j) <==> '/' !in s[i..j]
    decreases j - i
  {
    if i < j {
      assert s[i..j] == [s[i]] + s[i + 1..j];
      StarOfNotSlash(s, i + 1, j);
      if '/' !in s[i..j] {
        assert Matches(NotChar('/'), s, i, i + 1);
      }
    } else {
      assert s[i..j] == [];
    }
  }

  lemma {:induction false} StarOfAny(s: string, i: nat, j: nat)
    requires i <= j <= |s| && '\n' !in s
    ensures Matches(Star(AnyChar), s, i, j)
    decreases j - i
  {
    if i < j {
      StarOfAny(s, i + 1, j);
      assert s[i] in s;
      assert Matches(AnyChar, s, i, i + 1);
    }
  }

  lemma MatchesSplit(items: seq<Re>, s: string, i: nat, j: nat) returns (k: nat)
    requires i <= j <= |s| && items != [] && MatchesAll(items, s, i, j)
    ensures i <= k <= j && Matches(items[0], s, i, k) && MatchesAll(items[1..], s, k, j)
  {
    hide Matches;
    k :| i <= k <= j && Matches(items[0], s, i, k) && MatchesAll(items[1..], s, k, j);
  }

  lemma MatchesJoin(items: seq<Re>, s: string, i: nat, k: nat, j: nat)
    requires i <= k <= j <= |s| && items != []
    requires Matches(items[0], s, i, k) && MatchesAll(items[1..], s, k, j)
    ensures MatchesAll(items, s, i, j)
  {
  }

  lemma MatchesCons(re: Re, rest: seq<Re>, s: string, i: nat, j: nat)
    requires i <= j <= |s|
    ensures MatchesAll([re] + rest, s, i, j)
            <==> exists k: nat :: i <= k <= j && Matches(re, s, i, k) && MatchesAll(rest, s, k, j)
  {
    hide MatchesAll, Matches;
    var items := [re] + rest;
    assert items[0] == re && items[1..] == rest;
    if MatchesAll(items, s, i, j) {
      var k := MatchesSplit(items, s, i, j);
    }
    if k: nat :| i <= k <= j && Matches(re, s, i, k) && MatchesAll(rest, s, k, j) {
      MatchesJoin(items, s, i, k, j);
    }
  }

  lemma DirsPiece(s: string, i: nat, j: nat)
    requires i <= j <= |s| && '\n' !in s
    ensures Matches(DIRS, s, i, j) <==> i == j || s[j - 1] == '/'
  {
    var items := [Star(AnyChar), Lit('/')];
    assert items == [Star(AnyChar)] + [Lit('/')] && [Lit('/')] == [Lit('/')] + [];
    MatchesCons(Star(AnyChar), [Lit('/')], s, i, j);
    forall k: nat | i <= k <= j
      ensures MatchesAll([Lit('/')], s, k, j) <==> k + 1 == j && s[k] == '/'
    {
      MatchesCons(Lit('/'), [], s, k, j);
      if k < j {
        assert MatchesAll([], s, j, j);
      }
    }
    if i < j {
      StarOfAny(s, i, j - 1);
    }
    assert Matches(Group(items), s, i, j) == MatchesAll(items, s, i, j);
  }

  lemma {:induction false} DirsEndWithSlash(d: string)
    ensures IsDirs(d) <==> d == [] || d[|d| - 1] == '/'
    decreases |d|
  {
    if d != [] {
      if d[|d| - 1] == '/' {
        var n := FirstSlash(d);
        DirsEndWithSlash(d[n + 1..]);
      }
      if IsDirs(d) {
        var n: nat :| n < |d| && d[n] == '/' && '/' !in d[..n] && IsDirs(d[n + 1..]);
        DirsEndWithSlash(d[n + 1..]);
      }
    }
  }

  lemma {:induction false} FirstSlash(d: string) returns (n: nat)
    requires '/' in d
    ensures n < |d| && d[n] == '/' && '/' !in d[..n]
  {
    if d[0] == '/' {
      n := 0;
    } else {
      n := FirstSlash(d[1..]);
      n := n + 1;
      assert d[..n] == [d[0]] + d[1..][..n - 1];
    }
  }

  // ---------------------------------------------------------------- the two meanings agree

  lemma PrefixSlices(s: string, i: nat, k: nat)
    requires i + k <= |s|
    ensures s[i..][..k] == s[i..i + k] && s[i..][k..] == s[i + k..]
  {
  }

  /** The first piece of a non-empty glob: how long it is and which texts it accepts. */
  function PieceLength(g: string): (n: nat)
    requires g != []
    ensures 0 < n <= |g|
  {
    if "**/" <= g then 3 else if "**" <= g then 2 else 1
  }

  ghost predicate PieceMatches(g: string, t: string)
    requires g != []
  {
    if "**/" <= g then IsDirs(t)
    else if "**" <= g then true
    else if g[0] == '*' then '/' !in t
    else |t| == 1 && if g[0] == '?' then t[0] != '/' else t[0] == g[0]
  }

  lemma GlobByPieces(g: string, p: string)
    requires g != []
    ensures GlobMatches(g, p)
            <==> exists k: nat :: k <= |p| && PieceMatches(g, p[..k]) && GlobMatches(g[PieceLength(g)..], p[k..])
  {
    hide IsDirs;
    if "**/" <= g || "**" <= g || g[0] == '*' {
    } else if p != [] {
      assert p[..1] == [p[0]];
    }
  }

  lemma ItemMatchesPiece(g: string, s: string, i: nat, j: nat)
    requires g != [] && i <= j <= |s| && '\n' !in s
    ensures Matches(Items(g)[0], s, i, j) <==> PieceMatches(g, s[i..j])
  {
    hide IsDirs;
    if "**/" <= g {
      DirsPiece(s, i, j);
      DirsEndWithSlash(s[i..j]);
    } else if "**" <= g {
      StarOfAny(s, i, j);
    } else if g[0] == '*' {
      StarOfNotSlash(s, i, j);
    }
  }

  lemma {:induction false} ItemsMatchGlob(g: string, s: string, i: nat, j: nat)
    requires i <= j <= |s| && '\n' !in s
    ensures MatchesAll(Items(g), s, i, j) <==> j == |s| && GlobMatches(g, s[i..])
    decreases |g|
  {
    hide Matches, GlobMatches, PieceMatches;
    if g == [] {
      NoItemsButEnd(s, i, j);
    } else {
      var rest := g[PieceLength(g)..];
      assert Items(g) == [Items(g)[0]] + Items(rest);
      MatchesCons(Items(g)[0], Items(rest), s, i, j);
      GlobByPieces(g, s[i..]);
      forall k: nat | k <= |s[i..]|
        ensures PieceMatches(g, s[i..][..k]) == Matches(Items(g)[0], s, i, i + k)
        ensures GlobMatches(rest, s[i..][k..]) == MatchesAll(Items(rest), s, i + k, |s|)
      {
        PrefixSlices(s, i, k);
        ItemMatchesPiece(g, s, i, i + k);
        ItemsMatchGlob(rest, s, i + k, |s|);
      }
      forall k: nat | i <= k <= j ensures MatchesAll(Items(rest), s, k, j) ==> j == |s| {
        ItemsMatchGlob(rest, s, k, j);
      }
      SplitsAgree(g, rest, Items(g)[0], Items(rest), s, i, j);
    }
  }

  lemma NoItemsButEnd(s: string, i: nat, j: nat)
    requires i <= j <= |s|
    ensures MatchesAll(Items([]), s, i, j) <==> j == |s| && GlobMatches([], s[i..])
  {
    MatchesCons(End, [], s, i, j);
    assert [End] + [] == [End];
    assert MatchesAll([], s, j, j);
  }

  /** The split points of the expression and of the glob are the same. */
  lemma SplitsAgree(g: string, rest: string, head: Re, tail: seq<Re>, s: string, i: nat, j: nat)
    requires g != [] && i <= j <= |s|
    requires forall k: nat | k <= |s[i..]| ::
               && PieceMatches(g, s[i..][..k]) == Matches(head, s, i, i + k)
               && GlobMatches(rest, s[i..][k..]) == MatchesAll(tail, s, i + k, |s|)
    requires forall k: nat | i <= k <= j :: MatchesAll(tail, s, k, j) ==> j == |s|
    ensures (exists k: nat :: i <= k <= j && Matches(head, s, i, k) && MatchesAll(tail, s, k, j))
            <==> j == |s| && exists k: nat :: k <= |s[i..]| && PieceMatches(g, s[i..][..k])
                                             && GlobMatches(rest, s[i..][k..])
  {
    hide Matches, MatchesAll, GlobMatches, PieceMatches;
    if k: nat :| i <= k <= j && Matches(head, s, i, k) && MatchesAll(tail, s, k, j) {
      assert i + (k - i) == k;
      assert PieceMatches(g, s[i..][..k - i]) && GlobMatches(rest, s[i..][k - i..]);
    }
    if j == |s| {
      if k: nat :| k <= |s[i..]| && PieceMatches(g, s[i..][..k]) && GlobMatches(rest, s[i..][k..]) {
        assert Matches(head, s, i, i + k) && MatchesAll(tail, s, i + k, j);
      }
    }
  }

  /** Searching for the compiled glob in a newline-free path succeeds exactly when the glob means it. */
  lemma CompiledGlobAccepts(g: string, p: string)
    requires '\n' !in p
    ensures var re := Parse("^" + Emit(g) + "$");
            re.Some? && (Finds(re.value, p) <==> GlobMatches(g, p))
  {
    hide GlobMatches, Items;
    EmittedTextParses(g);
    var re := [Begin] + Items(g);
    forall i: nat, j: nat | i <= j <= |p|
      ensures MatchesAll(re, p, i, j) <==> i == 0 && j == |p| && GlobMatches(g, p)
    {
      MatchesCons(Begin, Items(g), p, i, j);
      ItemsMatchGlob(g, p, i, j);
      assert p[0..] == p;
      if i == 0 {
        assert Matches(Begin, p, 0, 0);
      }
    }
    if GlobMatches(g, p) {
      assert MatchesAll(re, p, 0, |p|);
    }
  }
}
