/**
 Snippet lines of a search hit (collectBM25Matches in internal/search/bm25.go:488-529): terms are looked
 for in the note with its code stripped, and reported with the line of the note as it stands.

 Lower-casing is a parameter; with case-sensitive search it is the identity.
 */
module Snippets {
  import opened Wrappers
  import opened Lines
  import opened Fences
  import opened Headings
  import opened Ranking

  datatype Snippet = Snippet(line: nat, text: string, term: string)

  /** The first single term a line contains; phrase keys are not looked for. */
  function FirstTerm(line: string, terms: seq<string>): (r: Option<string>)
    ensures r.Some? ==> r.value in terms && !IsPhraseKey(r.value) && Contains(line, r.value)
    ensures r.None? ==> forall t | t in terms :: IsPhraseKey(t) || !Contains(line, t)
  {
    if terms == [] then None
    else if !IsPhraseKey(terms[0]) && Contains(line, terms[0]) then Some(terms[0])
    else FirstTerm(line, terms[1..])
  }

  /** No earlier word of the query stands on the line. */
  lemma {:induction false} FirstTermIsFirst(line: string, terms: seq<string>) returns (k: nat)
    requires FirstTerm(line, terms).Some?
    ensures k < |terms| && FirstTerm(line, terms) == Some(terms[k])
    ensures forall j | 0 <= j < k :: IsPhraseKey(terms[j]) || !Contains(line, terms[j])
  {
    hide IsPhraseKey, Contains;
    k := 0;
    if IsPhraseKey(terms[0]) || !Contains(line, terms[0]) {
      k := FirstTermIsFirst(line, terms[1..]);
      k := k + 1;
    }
  }

  /** At most max snippets from line i on. */
  function Collected(lower: string -> string, lines: seq<string>, stripped: seq<string>, terms: seq<string>,
                     i: nat, max: nat): seq<Snippet>
    requires |stripped| == |lines| && i <= |lines|
    decreases |lines| - i
  {
    if i == |lines| || max == 0 then
      []
    else
      var t := FirstTerm(lower(stripped[i]), terms);
      if t.None? then Collected(lower, lines, stripped, terms, i + 1, max)
      else [Snippet(i + 1, TrimSpace(lines[i]), t.value)]
           + Collected(lower, lines, stripped, terms, i + 1, max - 1)
  }

  method CollectBM25Matches(lower: string -> string, content: string, terms: seq<string>, maxMatches: nat)
    returns (matches: seq<Snippet>)
    ensures var lines := Split(content);
            matches == Collected(lower, lines, StrippedLines(lines), terms, 0, maxMatches)
  {
    hide StrippedLines, TrimSpace, FirstTerm, Split, Stripped;
    var strippedText := StripCodeFences(content);
    var origLines := Split(content);
    var strippedLines := Split(strippedText);
    StrippedKeepsLines(content);
    var n := |origLines|;
    if |strippedLines| < n {
      n := |strippedLines|;
    }
    matches := [];
    ghost var expected := Collected(lower, origLines, strippedLines, terms, 0, maxMatches);
    var i := 0;
    while i < n && |matches| < maxMatches
      invariant 0 <= i <= n && |matches| <= maxMatches
      invariant matches + Collected(lower, origLines, strippedLines, terms, i, maxMatches - |matches|) == expected
    {
      var term := FirstTerm(lower(strippedLines[i]), terms);
      if term.Some? {
        matches := matches + [Snippet(i + 1, TrimSpace(origLines[i]), term.value)];
      }
      i := i + 1;
    }
  }

  lemma StrippedAt(lines: seq<string>, i: nat)
    requires i < |lines|
    ensures |StrippedLines(lines)| == |lines| && StrippedLines(lines)[i] == StrippedLine(lines, i)
  {
    hide StrippedLine;
  }

  /** A token, made of letters and digits, does not occur in the space that stands for a fenced line. */
  lemma NotInASpace(t: string)
    requires t != [] && t != " "
    ensures !Contains(" ", t)
  {
    assert " "[1..] == [];
  }

  /** The reported line exists, is no part of a fenced block, and its stripped text contains the term. */
  predicate PointsAtOriginal(lower: string -> string, lines: seq<string>, terms: seq<string>, s: Snippet) {
    && 0 < s.line <= |lines|
    && !Fenced(lines, s.line - 1)
    && s.text == TrimSpace(lines[s.line - 1])
    && s.term in terms
    && Contains(lower(StripInline(lines[s.line - 1])), s.term)
  }

  lemma HitPoints(lower: string -> string, lines: seq<string>, terms: seq<string>, i: nat)
    requires i < |lines| && lower(" ") == " "
    requires forall k | 0 <= k < |terms| :: terms[k] != [] && terms[k] != " "
    ensures var t := FirstTerm(lower(StrippedLine(lines, i)), terms);
            t.Some? ==> PointsAtOriginal(lower, lines, terms, Snippet(i + 1, TrimSpace(lines[i]), t.value))
  {
    hide Fenced, StripInline, TrimSpace, Contains;
    var t := FirstTerm(lower(StrippedLine(lines, i)), terms);
    if t.Some? {
      NotInASpace(t.value);
    }
  }

  /**
   Every reported line number is that of an unfenced line of the note, the snippet is that line, and
   the term occurs in it outside inline code; numbers ascend, so no line is reported twice.
   */
  lemma {:induction false} SnippetsPointAtOriginal(lower: string -> string, lines: seq<string>,
                                                   terms: seq<string>, i: nat, max: nat)
    requires i <= |lines| && lower(" ") == " "
    requires forall k | 0 <= k < |terms| :: terms[k] != [] && terms[k] != " "
    ensures var found := Collected(lower, lines, StrippedLines(lines), terms, i, max);
            && |found| <= max
            && (forall k | 0 <= k < |found| :: i < found[k].line && PointsAtOriginal(lower, lines, terms, found[k]))
            && (forall j, k | 0 <= j < k < |found| :: found[j].line < found[k].line)
    decreases |lines| - i
  {
    hide PointsAtOriginal, TrimSpace, FirstTerm, StrippedLines, StrippedLine;
    if i < |lines| && max > 0 {
      StrippedAt(lines, i);
      HitPoints(lower, lines, terms, i);
      var t := FirstTerm(lower(StrippedLine(lines, i)), terms);
      SnippetsPointAtOriginal(lower, lines, terms, i + 1, if t.None? then max else max - 1);
    }
  }

  /** An unfenced line that is not reported contains no term, unless the cap was reached before it. */
  lemma {:induction false} UnreportedLinesDoNotMatch(lower: string -> string, lines: seq<string>,
                                                     terms: seq<string>, i: nat, max: nat, l: nat)
    requires i <= l < |lines|
    requires var found := Collected(lower, lines, StrippedLines(lines), terms, i, max);
             |found| < max && forall k | 0 <= k < |found| :: found[k].line != l + 1
    ensures forall t | t in terms :: IsPhraseKey(t) || !Contains(lower(StrippedLine(lines, l)), t)
    decreases |lines| - i
  {
    hide Fenced, StripInline, TrimSpace, Contains;
    var found := Collected(lower, lines, StrippedLines(lines), terms, i, max);
    assert StrippedLines(lines)[i] == StrippedLine(lines, i);
    var t := FirstTerm(lower(StrippedLine(lines, i)), terms);
    assert t.Some? && max > 0 ==> found != [] && found[0].line == i + 1;
    if i < l {
      if t.None? {
        UnreportedLinesDoNotMatch(lower, lines, terms, i + 1, max, l);
      } else {
        assert found[1..] == Collected(lower, lines, StrippedLines(lines), terms, i + 1, max - 1);
        UnreportedLinesDoNotMatch(lower, lines, terms, i + 1, max - 1, l);
      }
    }
  }
}
