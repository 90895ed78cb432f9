/**
 The fragment of RE2 that globToRegex emits: its syntax as text, a parser for it, and what an
 expression matches. Matching is stated on positions of the subject, so that the anchors mean what
 they mean inside a search.
 */
module Regex {
  import opened Wrappers

  datatype Re =
    | Begin
    | End
    | AnyChar
    | NotChar(c: char)
    | Lit(c: char)
    | Star(re: Re)
    | Opt(re: Re)
    | Group(items: seq<Re>)

  // ---------------------------------------------------------------- meaning

  /** re matches the part of s from i to j. A dot does not match a newline. */
  ghost predicate Matches(re: Re, s: string, i: nat, j: nat)
    requires i <= j <= |s|
    decreases re, j - i, 0
  {
    match re
    case Begin => i == j == 0
    case End => i == j == |s|
    case AnyChar => j == i + 1 && s[i] != '\n'
    case NotChar(c) => j == i + 1 && s[i] != c
    case Lit(c) => j == i + 1 && s[i] == c
    case Star(r) => i == j || exists k: nat :: i < k <= j && Matches(r, s, i, k) && Matches(re, s, k, j)
    case Opt(r) => i == j || Matches(r, s, i, j)
    case Group(items) => MatchesAll(items, s, i, j)
  }

  /** The expressions match consecutive parts. */
  ghost predicate MatchesAll(items: seq<Re>, s: string, i: nat, j: nat)
    requires i <= j <= |s|
    decreases items, j - i, 1
  {
    if items == [] then i == j
    else exists k: nat :: i <= k <= j && Matches(items[0], s, i, k) && MatchesAll(items[1..], s, k, j)
  }

  /** MatchString: some part of the subject matches. */
  ghost predicate Finds(items: seq<Re>, s: string) {
    exists i: nat, j: nat :: i <= j <= |s| && MatchesAll(items, s, i, j)
  }

  // ---------------------------------------------------------------- syntax

  const META := "\\.+*?()|[]{}^$"

  /** QuoteMeta of one character. */
  function Quote(c: char): string {
    if c in META then ['\\', c] else [c]
  }

  datatype Parsed = Parsed(items: seq<Re>, rest: string)

  /** One atom: an anchor, a dot, a negated one-character class, an escape, a group or a plain character. */
  function ParseAtom(s: string): (r: Option<(Re, string)>)
    ensures r.Some? ==> |r.value.1| < |s|
    decreases |s|, 0
  {
    if s == [] then
      None
    else if s[0] == '^' then
      Some((Begin, s[1..]))
    else if s[0] == '$' then
      Some((End, s[1..]))
    else if s[0] == '.' then
      Some((AnyChar, s[1..]))
    else if s[0] == '[' then
      if |s| >= 4 && s[1] == '^' && s[2] !in META && s[3] == ']' then Some((NotChar(s[2]), s[4..])) else None
    else if s[0] == '\\' then
      if |s| >= 2 && s[1] in META then Some((Lit(s[1]), s[2..])) else None
    else if s[0] == '(' then
      var inner := ParseItems(s[1..]);
      if inner.rest != [] && inner.rest[0] == ')' then Some((Group(inner.items), inner.rest[1..])) else None
    else if s[0] in META then
      None
    else
      Some((Lit(s[0]), s[1..]))
  }

  /** An atom with the repetition that follows it, at most one. */
  function ParseItem(s: string): (r: Option<(Re, string)>)
    ensures r.Some? ==> |r.value.1| < |s|
    decreases |s|, 1
  {
    var atom := ParseAtom(s);
    if atom.None? then None
    else
      var (re, rest) := atom.value;
      if rest != [] && rest[0] == '*' then Some((Star(re), rest[1..]))
      else if rest != [] && rest[0] == '?' then Some((Opt(re), rest[1..]))
      else Some((re, rest))
  }

  /** As many items as can be read. */
  function ParseItems(s: string): (p: Parsed)
    ensures |p.rest| <= |s|
    decreases |s|, 2
  {
    var item := ParseItem(s);
    if item.None? then Parsed([], s)
    else
      var tail := ParseItems(item.value.1);
      Parsed([item.value.0] + tail.items, tail.rest)
  }

  /** Compile: the whole text has to be one item list. */
  function Parse(s: string): Option<seq<Re>> {
    var p := ParseItems(s);
    if p.rest == [] then Some(p.items) else None
  }
}
