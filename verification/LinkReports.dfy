/**
 What RewriteLinksOnMove reports (internal/vault/linkrewrite.go:147-168, 202-275): every reported link stands on
 the reported line as it is quoted, names the moved note, and is listed with the text that replaces it, or with
 none when it is ambiguous; and every such link is reported.
 */
module LinkReports {
  import opened Wrappers
  import opened Lines
  import opened Wikilinks
  import opened Splice
  import opened LinkRewrite
  import opened NoteRewrite

  // ---------------------------------------------------------------- matches are links

  /** The match quotes what stands at its span; there the pattern reads a link to the moved note. */
  predicate QuotesWikilink(mv: Move, line: string, m: Match) {
    && m.start < m.end <= |line| && line[m.start..m.end] == m.oldText
    && ReadLink(line[m.start..]).Some?
    && var l := ReadLink(line[m.start..]).value;
       && m.oldText == Print(l) && PointsAtMoved(mv, l.target)
       && m.ambiguous == IsAmbiguous(mv, l.target)
       && m.newText == (if m.ambiguous then [] else Print(l.(target := RewriteTarget(l.target, mv.newPath))))
  }

  /** The path of a Markdown link is compared and renamed unescaped, and written escaped if it was. */
  predicate QuotesMarkdown(mv: Move, line: string, m: Match) {
    && m.start < m.end <= |line| && line[m.start..m.end] == m.oldText
    && ReadMd(line[m.start..]).Some?
    && var l := ReadMd(line[m.start..]).value;
       var target := mv.unescape(l.path);
       && m.oldText == PrintMd(l) && PointsAtMoved(mv, target)
       && m.ambiguous == IsAmbiguous(mv, target)
       && m.newText == (if m.ambiguous then []
                        else PrintMd(l.(path := EncodeMarkdownPath(mv, RewriteTarget(target, mv.newPath), l.path))))
  }

  predicate StandsAt(line: string, f: Found) {
    && f.start < |line|
    && (match f
        case Wiki(i, l) => ReadLink(line[i..]) == Some(l)
        case Markdown(i, l) => ReadMd(line[i..]) == Some(l))
  }

  lemma {:induction false} WikisStand(line: string, i: nat)
    ensures forall f | f in FindWiki(line, i) :: f.Wiki? && StandsAt(line, f)
    decreases |line| - i
  {
    hide ReadLink, Print;
    if i < |line| {
      var l := ReadLink(line[i..]);
      if l.Some? {
        ReadsWhatIsThere(line[i..]);
        PrintNotEmpty(l.value);
        WikisStand(line, i + |Print(l.value)|);
      } else {
        WikisStand(line, i + 1);
      }
    }
  }

  lemma {:induction false} MarkdownsStand(line: string, i: nat)
    ensures forall f | f in FindMarkdown(line, i) :: f.Markdown? && StandsAt(line, f)
    decreases |line| - i
  {
    hide ReadMd, PrintMd;
    if i < |line| {
      var l := ReadMd(line[i..]);
      if l.Some? {
        MdFits(line, i);
        MarkdownsStand(line, i + |PrintMd(l.value)|);
      } else {
        MarkdownsStand(line, i + 1);
      }
    }
  }

  lemma {:induction false} DecidedFrom(mv: Move, found: seq<Found>, m: Match)
    ensures m in Decided(mv, found) <==> exists f :: f in found && Decide(mv, f) == Some(m)
  {
    hide Decide;
    if found != [] {
      var n := |found| - 1;
      DecidedFrom(mv, found[..n], m);
      assert found == found[..n] + [found[n]];
      assert forall f | f in found[..n] :: f in found;
    }
  }

  lemma DecideQuotes(mv: Move, line: string, f: Found)
    requires StandsAt(line, f) && Decide(mv, f).Some?
    ensures var m := Decide(mv, f).value;
            if f.Wiki? then QuotesWikilink(mv, line, m) else QuotesMarkdown(mv, line, m)
  {
    hide PointsAtMoved, IsAmbiguous, RewriteTarget, EncodeMarkdownPath, ReadLink, ReadMd, Print, PrintMd;
    var text := FoundText(f);
    if f.Wiki? {
      ReadsWhatIsThere(line[f.start..]);
      PrintNotEmpty(f.link);
    } else {
      ReadsMdThatIsThere(line[f.start..]);
    }
    assert line[f.start..][..|text|] == line[f.start..f.start + |text|];
  }

  /** Every entry of the match list quotes a link of the line that names the moved note. */
  lemma MatchesAreLinks(mv: Move, line: string, m: Match)
    requires m in Matches(mv, line)
    ensures QuotesWikilink(mv, line, m) || QuotesMarkdown(mv, line, m)
  {
    hide Decide, Decided, FindWiki, FindMarkdown, QuotesWikilink, QuotesMarkdown, StandsAt;
    if m in Decided(mv, FindWiki(line, 0)) {
      WikisStand(line, 0);
      DecidedFrom(mv, FindWiki(line, 0), m);
      var f :| f in FindWiki(line, 0) && Decide(mv, f) == Some(m);
      DecideQuotes(mv, line, f);
    } else {
      MarkdownsStand(line, 0);
      DecidedFrom(mv, FindMarkdown(line, 0), m);
      var f :| f in FindMarkdown(line, 0) && Decide(mv, f) == Some(m);
      DecideQuotes(mv, line, f);
    }
  }

  // ---------------------------------------------------------------- the report

  predicate FromMatch(mv: Move, lines: seq<string>, r: Reported, j: nat)
    requires 0 < r.line <= |lines|
  {
    var ms := Matches(mv, lines[r.line - 1]);
    j < |ms| && r.link == LinkRewrite(ms[j].oldText, ms[j].newText, ms[j].ambiguous)
  }

  lemma ReportStep(mv: Move, lines: seq<string>, n: nat)
    requires 0 < n <= |lines|
    ensures Report(mv, lines, n) == Report(mv, lines, n - 1) + LinksOfLine(mv, lines, n - 1)
  {
  }

  lemma LineIsReported(mv: Move, lines: seq<string>, i: nat)
    requires i < |lines|
    ensures forall r | r in LinksOfLine(mv, lines, i) :: r.line == i + 1 && exists j: nat :: FromMatch(mv, lines, r, j)
    ensures forall j | 0 <= j < |Matches(mv, lines[i])| ::
              var m := Matches(mv, lines[i])[j];
              Reported(i + 1, LinkRewrite(m.oldText, m.newText, m.ambiguous)) in LinksOfLine(mv, lines, i)
  {
    hide Matches;
    var here := LinksOfLine(mv, lines, i);
    forall r | r in here ensures r.line == i + 1 && exists j: nat :: FromMatch(mv, lines, r, j) {
      var j :| 0 <= j < |here| && here[j] == r;
      assert FromMatch(mv, lines, r, j);
    }
    var ms := Matches(mv, lines[i]);
    forall j | 0 <= j < |ms|
      ensures Reported(i + 1, LinkRewrite(ms[j].oldText, ms[j].newText, ms[j].ambiguous)) in here
    {
      assert here[j] in here;
    }
  }

  /** The report lists the matches of every line, and nothing else, under the line's number, counted from one. */
  lemma {:induction false} ReportIsMatches(mv: Move, lines: seq<string>, n: nat)
    requires n <= |lines|
    ensures forall r | r in Report(mv, lines, n) :: 0 < r.line <= n && exists j: nat :: FromMatch(mv, lines, r, j)
    ensures forall i, j | 0 <= i < n && 0 <= j < |Matches(mv, lines[i])| ::
              var m := Matches(mv, lines[i])[j];
              Reported(i + 1, LinkRewrite(m.oldText, m.newText, m.ambiguous)) in Report(mv, lines, n)
  {
    hide Matches, LinksOfLine, Report, FromMatch;
    if n > 0 {
      ReportIsMatches(mv, lines, n - 1);
      LineIsReported(mv, lines, n - 1);
      ReportStep(mv, lines, n);
    } else {
      NothingReported(mv, lines);
    }
  }

  lemma NothingReported(mv: Move, lines: seq<string>)
    ensures Report(mv, lines, 0) == []
  {
  }

  /** Line by line. */
  lemma {:induction false} ReportAscends(mv: Move, lines: seq<string>, n: nat)
    requires n <= |lines|
    ensures forall j, k | 0 <= j < k < |Report(mv, lines, n)| ::
              Report(mv, lines, n)[j].line <= Report(mv, lines, n)[k].line
  {
    hide Matches, LinksOfLine, Report;
    NothingReported(mv, lines);
    if n > 0 {
      ReportAscends(mv, lines, n - 1);
      ReportIsMatches(mv, lines, n - 1);
      LineIsReported(mv, lines, n - 1);
      ReportStep(mv, lines, n);
      var before, here := Report(mv, lines, n - 1), LinksOfLine(mv, lines, n - 1);
      assert forall j | 0 <= j < |before| :: before[j] in before;
      assert forall j | 0 <= j < |here| :: here[j] in here;
    }
  }

  /** A reported link stands on its line, word for word, and nothing is put in its place if it is ambiguous. */
  lemma ReportedLinksStand(mv: Move, lines: seq<string>, r: Reported)
    requires r in Report(mv, lines, |lines|)
    ensures 0 < r.line <= |lines| && Contains(lines[r.line - 1], r.link.oldText)
    ensures r.link.ambiguous ==> r.link.newText == []
    ensures !r.link.ambiguous ==> r.link.newText != []
  {
    hide Matches, QuotesWikilink, QuotesMarkdown;
    ReportIsMatches(mv, lines, |lines|);
    var j: nat :| FromMatch(mv, lines, r, j);
    var line := lines[r.line - 1];
    var m := Matches(mv, line)[j];
    MatchesAreLinks(mv, line, m);
    QuotedText(mv, line, m);
    ContainsInTail(line, m.start, m.oldText);
  }

  lemma QuotedText(mv: Move, line: string, m: Match)
    requires QuotesWikilink(mv, line, m) || QuotesMarkdown(mv, line, m)
    ensures m.start < m.end <= |line| && Contains(line[m.start..], m.oldText)
    ensures if m.ambiguous then m.newText == [] else m.newText != []
  {
    hide PointsAtMoved, IsAmbiguous, RewriteTarget, EncodeMarkdownPath, ReadLink, ReadMd;
    assert line[m.start..][..m.end - m.start] == line[m.start..m.end];
    assert m.oldText <= line[m.start..];
  }
}
