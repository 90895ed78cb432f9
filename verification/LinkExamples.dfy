/**
 Three moves on two lines that show where the list order of rewriteLine goes wrong. The first line has a
 Markdown link in front of a wikilink, so the wikilink is written last, at an offset taken before the
 Markdown link changed its length; in the second the wikilink stands inside the Markdown link.
 */
module LinkExamples {
  import opened Wrappers
  import opened FilePaths
  import opened Wikilinks
  import opened Splice
  import opened LinkRewrite

  const LINE := "[](aa.md)[[aa]]"
  const WIKI := Link(false, "aa", "", "")
  const MD := MdLink("", "aa.md", "")

  function MoveTo(newPath: string): Move {
    Move("aa.md", map[], newPath, (s: string) => s, (s: string) => s)
  }

  lemma NoWikiAt(line: string, i: nat)
    requires i < |line| && line[i] != '!' && (line[i] == '[' ==> i + 1 == |line| || line[i + 1] != '[')
    ensures FindWiki(line, i) == FindWiki(line, i + 1)
  {
    hide ReadAfterOpening, FindWiki;
    var s := line[i..];
    assert s[0] == line[i] && (|s| > 1 ==> s[1] == line[i + 1]);
    assert ReadLink(s).None?;
    FindWikiSkips(line, i);
  }

  predicate NoOpening(line: string, i: nat)
    requires i < |line|
  {
    line[i] != '!' && (line[i] == '[' ==> i + 1 == |line| || line[i + 1] != '[')
  }

  lemma {:induction false} NoWikiUpTo(line: string, i: nat, n: nat)
    requires i <= n <= |line| && forall k | i <= k < n :: NoOpening(line, k)
    ensures FindWiki(line, i) == FindWiki(line, n)
    decreases n - i
  {
    hide FindWiki;
    if i < n {
      assert NoOpening(line, i);
      NoWikiAt(line, i);
      NoWikiUpTo(line, i + 1, n);
    }
  }

  lemma FindWikiSkips(line: string, i: nat)
    requires i < |line| && ReadLink(line[i..]).None?
    ensures FindWiki(line, i) == FindWiki(line, i + 1)
  {
  }

  lemma FindMarkdownSkips(line: string, i: nat)
    requires i < |line| && ReadMd(line[i..]).None?
    ensures FindMarkdown(line, i) == FindMarkdown(line, i + 1)
  {
  }

  lemma WikiOfLine()
    ensures FindWiki(LINE, 0) == [Wiki(9, WIKI)]
  {
    hide ReadLink, FindWiki;
    NoWikiUpTo(LINE, 0, 9);
    ReadOfPrint(WIKI, "");
    assert LINE[9..] == Print(WIKI) + "";
    WikiAtNine();
  }

  lemma WikiAtNine()
    requires ReadLink(LINE[9..]) == Some(WIKI)
    ensures FindWiki(LINE, 9) == [Wiki(9, WIKI)]
  {
    assert |Print(WIKI)| == 6;
    assert FindWiki(LINE, 15) == [];
  }

  lemma MarkdownOfLine()
    ensures FindMarkdown(LINE, 0) == [Markdown(0, MD)]
  {
    hide ReadMd, FindMarkdown;
    MdIsRead();
    MdAtZero();
    NoMdInWiki();
    assert LINE[9..] == "[[aa]]" && LINE[10..] == "[aa]]";
    FindMarkdownSkips(LINE, 9);
    FindMarkdownSkips(LINE, 10);
    NoBracketAt(11); NoBracketAt(12); NoBracketAt(13); NoBracketAt(14);
    NoneAtEnd();
  }

  lemma NoBracketAt(i: nat)
    requires i < |LINE| && LINE[i] != '['
    ensures FindMarkdown(LINE, i) == FindMarkdown(LINE, i + 1)
  {
    hide Run, ReadMdAfterText;
    assert LINE[i..][0] == LINE[i];
    FindMarkdownSkips(LINE, i);
  }

  lemma NoneAtEnd()
    ensures FindMarkdown(LINE, 15) == []
  {
  }

  lemma MdIsRead()
    ensures ReadMd(LINE) == Some(MD)
  {
    hide ReadMdAfterText, Run;
    var s1, s2 := "](aa.md)[[aa]]", "aa.md)[[aa]]";
    assert LINE[1..] == s1 && s1[0..] == s1 && s1[2..] == s2;
    RunIs("", s1, {']'});
    assert "" + s1 == s1;
    MdTailIsRead();
  }

  lemma MdTailIsRead()
    ensures ReadMdAfterText("", "aa.md)[[aa]]") == Some(MD)
  {
    hide Run;
    var s2, s3 := "aa.md)[[aa]]", ")[[aa]]";
    RunIs("aa.md", s3, {')', '#'});
    assert "aa.md" + s3 == s2 && s2[5..] == s3;
    assert Group(s3, '#', {')'}) == "" && s3[0..] == s3;
    assert "aa.md"[2..] == ".md";
  }

  lemma MdAtZero()
    requires ReadMd(LINE) == Some(MD)
    ensures FindMarkdown(LINE, 0) == [Markdown(0, MD)] + FindMarkdown(LINE, 9)
  {
    hide ReadMd;
    assert LINE[0..] == LINE && |PrintMd(MD)| == 9;
  }

  lemma NoMdInWiki()
    ensures ReadMd("[[aa]]").None? && ReadMd("[aa]]").None?
  {
    RunIs("[aa", "]]", {']'});
    assert "[aa" + "]]" == "[[aa]]"[1..] && "[[aa]]"[1..][3..] == "]]";
    RunIs("aa", "]]", {']'});
    assert "aa" + "]]" == "[aa]]"[1..] && "[aa]]"[1..][2..] == "]]";
  }

  predicate PlainName(stem: string) {
    stem != [] && forall k | 0 <= k < |stem| :: stem[k] != '.' && stem[k] != '/'
  }

  lemma {:induction false} NoExt(stem: string)
    requires forall k | 0 <= k < |stem| :: stem[k] != '.'
    ensures Ext(stem) == []
  {
    if stem != [] && stem[|stem| - 1] != '/' {
      NoExt(stem[..|stem| - 1]);
    }
  }

  lemma ExtOfMd(stem: string)
    ensures Ext(stem + ".md") == ".md"
  {
    var path, p1, p2 := stem + ".md", stem + ".m", stem + ".";
    assert path[..|path| - 1] == p1 && p1[..|p1| - 1] == p2;
    assert Ext(p2) == "." && Ext(p1) == ".m";
  }

  lemma NamesOf(stem: string)
    requires PlainName(stem)
    ensures var path := stem + ".md"; Base(path) == path && Stem(path) == stem
  {
    hide Ext, LastElement;
    var path := stem + ".md";
    ExtOfMd(stem);
    LastElementIsAll(path);
    assert TrimSlashes(path) == path;
    TrimmedSuffix(stem, ".md");
  }

  lemma NewTargets(stem: string)
    requires PlainName(stem)
    ensures RewriteTarget("aa", stem + ".md") == stem && RewriteTarget("aa.md", stem + ".md") == stem + ".md"
  {
    hide Ext, Base, Stem, WithoutExt;
    NamesOf(stem);
    NoExt("aa");
    ExtOfMd("aa");
    assert "aa" + ".md" == "aa.md";
  }

  lemma PointsAtOld(newPath: string)
    ensures PointsAtMoved(MoveTo(newPath), "aa") && PointsAtMoved(MoveTo(newPath), "aa.md")
  {
    hide Base, Stem, Ext, WithoutExt;
    NamesOf("aa");
    assert "aa" + ".md" == "aa.md";
  }

  /** A wikilink to the note gets its new name. */
  lemma WikiIsDecided(stem: string, start: nat)
    requires PlainName(stem)
    ensures Decide(MoveTo(stem + ".md"), Wiki(start, WIKI))
            == Some(Match(start, start + 6, "[[aa]]", "[[" + stem + "]]", false))
  {
    hide RewriteTarget, WithoutExt, PointsAtMoved;
    NewTargets(stem);
    var mv := MoveTo(stem + ".md");
    PointsAtOld(stem + ".md");
    assert Print(WIKI) == "[[aa]]";
    assert Print(WIKI.(target := stem)) == "[[" + stem + "]]";
    assert NewText(mv, Wiki(start, WIKI)) == "[[" + stem + "]]";
  }

  /** So does a Markdown link, whatever its text and fragment. */
  lemma MarkdownIsDecided(stem: string, l: MdLink)
    requires PlainName(stem) && l.path == "aa.md"
    ensures Decide(MoveTo(stem + ".md"), Markdown(0, l))
            == Some(Match(0, |PrintMd(l)|, PrintMd(l), PrintMd(l.(path := stem + ".md")), false))
  {
    hide RewriteTarget, WithoutExt, PointsAtMoved, PrintMd;
    NewTargets(stem);
    PointsAtOld(stem + ".md");
    assert '%' !in "aa.md";
  }

  lemma MatchesOfLine(stem: string)
    requires PlainName(stem)
    ensures Matches(MoveTo(stem + ".md"), LINE)
            == [Match(9, 15, "[[aa]]", "[[" + stem + "]]", false),
                Match(0, 9, "[](aa.md)", "[](" + stem + ".md)", false)]
  {
    hide FindWiki, FindMarkdown, Decide;
    var mv := MoveTo(stem + ".md");
    WikiOfLine();
    MarkdownOfLine();
    WikiIsDecided(stem, 9);
    MarkdownIsDecided(stem, MD);
    assert PrintMd(MD) == "[](aa.md)" && PrintMd(MD.(path := stem + ".md")) == "[](" + stem + ".md)";
    DecidedCons(mv, Wiki(9, WIKI), []);
    DecidedCons(mv, Markdown(0, MD), []);
    assert [Wiki(9, WIKI)] + [] == [Wiki(9, WIKI)] && [Markdown(0, MD)] + [] == [Markdown(0, MD)];
  }

  /** A longer new name: both links are damaged. */
  lemma LongerNameGarbles()
    ensures var ms := Matches(MoveTo("ccc.md"), LINE);
            && RightToLeft(LINE, ms) == Some("[](ccc.md[[ccc]]]")
            && Substituted(LINE, ms, 0) == "[](ccc.md)[[ccc]]"
  {
    hide Matches, RightToLeft, Substituted;
    MatchesOfLine("ccc");
    assert "ccc" + ".md" == "ccc.md" && "[](" + "ccc" + ".md)" == "[](ccc.md)" && "[[" + "ccc" + "]]" == "[[ccc]]";
    var w, m := Match(9, 15, "[[aa]]", "[[ccc]]", false), Match(0, 9, "[](aa.md)", "[](ccc.md)", false);
    TwoWrites(LINE, w, m);
    assert Overwrite(LINE, m).value == "[](ccc.md)[[aa]]";
    assert Overwrite("[](ccc.md)[[aa]]", w).value == "[](ccc.md[[ccc]]]";
    assert m.newText + w.newText == "[](ccc.md)[[ccc]]";
  }

  /** A shorter new name: the saved offset lies outside the line, and the program stops. */
  lemma ShorterNameStops()
    ensures RightToLeft(LINE, Matches(MoveTo("b.md"), LINE)).None?
  {
    hide Matches, RightToLeft;
    MatchesOfLine("b");
    assert "b" + ".md" == "b.md" && "[](" + "b" + ".md)" == "[](b.md)" && "[[" + "b" + "]]" == "[[b]]";
    var w, m := Match(9, 15, "[[aa]]", "[[b]]", false), Match(0, 9, "[](aa.md)", "[](b.md)", false);
    TwoWrites(LINE, w, m);
    assert |Overwrite(LINE, m).value| == 14;
  }

  lemma TwoWrites(line: string, w: Match, m: Match)
    requires |line| == 15 && w.start == 9 && w.end == 15 && m.start == 0 && m.end == 9
    requires !w.ambiguous && !m.ambiguous
    ensures RightToLeft(line, [w, m]) == Overwrite(Overwrite(line, m).value, w)
    ensures Substituted(line, [w, m], 0) == m.newText + w.newText
  {
    var ms := [w, m];
    var next := Overwrite(line, m).value;
    assert ms[..1] == [w] && [w][..0] == [];
    assert RightToLeft(next, [w]) == Overwrite(next, w);
    assert SpanAt([w], 9) == Some(w);
    assert SpanAt(ms, 0) == Some(m) && SpanAt(ms, 9) == Some(w);
    assert Substituted(line, ms, 15) == [];
    assert Substituted(line, ms, 9) == w.newText;
  }

  // ---------------------------------------------------------------- a wikilink inside a Markdown link

  const NESTED := "[t](aa.md#[[aa]])"
  const NESTED_MD := MdLink("t", "aa.md", "#[[aa]]")

  lemma WikiOfNested()
    ensures FindWiki(NESTED, 0) == [Wiki(10, WIKI)]
  {
    hide ReadLink, FindWiki;
    NoWikiUpTo(NESTED, 0, 10);
    NoWikiUpTo(NESTED, 16, 17);
    ReadOfPrint(WIKI, ")");
    assert NESTED[10..] == Print(WIKI) + ")";
    WikiAtTen();
  }

  lemma WikiAtTen()
    requires ReadLink(NESTED[10..]) == Some(WIKI) && FindWiki(NESTED, 16) == FindWiki(NESTED, 17)
    ensures FindWiki(NESTED, 10) == [Wiki(10, WIKI)]
  {
    hide ReadLink;
    assert |Print(WIKI)| == 6;
    assert FindWiki(NESTED, 17) == [];
  }

  lemma MarkdownOfNested()
    ensures FindMarkdown(NESTED, 0) == [Markdown(0, NESTED_MD)]
  {
    hide ReadMd;
    NestedMdIsRead();
    assert NESTED[0..] == NESTED && |PrintMd(NESTED_MD)| == 17;
    assert FindMarkdown(NESTED, 17) == [];
  }

  lemma NestedMdIsRead()
    ensures ReadMd(NESTED) == Some(NESTED_MD)
  {
    hide ReadMdAfterText, Run;
    var s1, s2 := "](aa.md#[[aa]])", "aa.md#[[aa]])";
    RunIs("t", s1, {']'});
    assert "t" + s1 == NESTED[1..] && NESTED[1..][1..] == s1 && s1[2..] == s2;
    NestedTailIsRead();
  }

  lemma NestedTailIsRead()
    ensures ReadMdAfterText("t", "aa.md#[[aa]])") == Some(NESTED_MD)
  {
    hide Run, Group;
    var s2, s3 := "aa.md#[[aa]])", "#[[aa]])";
    RunIs("aa.md", s3, {')', '#'});
    assert "aa.md" + s3 == s2 && s2[5..] == s3;
    assert "#[[aa]]"[1..] == "[[aa]]" && "#[[aa]]" + ")" == s3;
    GroupIs("#[[aa]]", ")", '#', {')'});
    assert s3[7..] == ")" && "aa.md"[2..] == ".md";
  }

  lemma MatchesOfNested(stem: string)
    requires PlainName(stem)
    ensures Matches(MoveTo(stem + ".md"), NESTED)
            == [Match(10, 16, "[[aa]]", "[[" + stem + "]]", false),
                Match(0, 17, NESTED, "[t](" + stem + ".md#[[aa]])", false)]
  {
    hide FindWiki, FindMarkdown, Decide;
    var mv := MoveTo(stem + ".md");
    WikiOfNested();
    MarkdownOfNested();
    WikiIsDecided(stem, 10);
    MarkdownIsDecided(stem, NESTED_MD);
    assert PrintMd(NESTED_MD) == NESTED;
    assert PrintMd(NESTED_MD.(path := stem + ".md")) == "[t](" + stem + ".md#[[aa]])";
    DecidedCons(mv, Wiki(10, WIKI), []);
    DecidedCons(mv, Markdown(0, NESTED_MD), []);
    assert [Wiki(10, WIKI)] + [] == [Wiki(10, WIKI)];
    assert [Markdown(0, NESTED_MD)] + [] == [Markdown(0, NESTED_MD)];
  }

  /** The two written spans overlap, and the wikilink is written at its old offset into the new link. */
  lemma NestedLinkGarbles()
    ensures var ms := Matches(MoveTo("ccc.md"), NESTED);
            && InLine(NESTED, ms) && !Disjoint(ms)
            && RightToLeft(NESTED, ms) == Some("[t](ccc.md[[ccc]]])")
            && Substituted(NESTED, ms, 0) == "[t](ccc.md#[[aa]])"
  {
    hide Matches;
    MatchesOfNested("ccc");
    assert "ccc" + ".md" == "ccc.md" && "[[" + "ccc" + "]]" == "[[ccc]]";
    assert "[t](" + "ccc" + ".md#[[aa]])" == "[t](ccc.md#[[aa]])";
    var w := Match(10, 16, "[[aa]]", "[[ccc]]", false);
    var m := Match(0, 17, NESTED, "[t](ccc.md#[[aa]])", false);
    OuterWrittenFirst(w, m);
    assert Overwrite("[t](ccc.md#[[aa]])", w).value == "[t](ccc.md[[ccc]]])";
  }

  lemma OuterWrittenFirst(w: Match, m: Match)
    requires w.start == 10 && w.end == 16 && m.start == 0 && m.end == 17 && !w.ambiguous && !m.ambiguous
    ensures RightToLeft(NESTED, [w, m]) == Overwrite(m.newText, w)
    ensures Substituted(NESTED, [w, m], 0) == m.newText
    ensures InLine(NESTED, [w, m]) && !Disjoint([w, m])
  {
    var ms := [w, m];
    assert ms[..1] == [w] && [w][..0] == [];
    assert Overwrite(NESTED, m) == Some(m.newText) by {
      assert NESTED[..0] + m.newText + NESTED[17..] == m.newText;
    }
    assert RightToLeft(m.newText, [w]) == Overwrite(m.newText, w);
    assert SpanAt(ms, 0) == Some(m);
    assert Substituted(NESTED, ms, 17) == [];
    assert ms[0] == w && ms[1] == m;
  }
}
