/**
 Rewriting a line whose wikilinks do not name the moved note (internal/vault/linkrewrite.go:237-275): the
 Markdown links that do get the new path, and are found again.
 */
module MarkdownRewrite {
  import opened Wrappers
  import opened Lines
  import opened FilePaths
  import opened Wikilinks
  import opened Splice
  import opened LinkRewrite
  import opened MarkdownLinks

  predicate IsRedirected(mv: Move, l: MdLink) {
    PointsAtMoved(mv, mv.unescape(l.path)) && !IsAmbiguous(mv, mv.unescape(l.path))
  }

  function NewPath(mv: Move, l: MdLink): string {
    EncodeMarkdownPath(mv, RewriteTarget(mv.unescape(l.path), mv.newPath), l.path)
  }

  function Repath(mv: Move, p: MdPiece): MdPiece {
    if p.MdLinked? && IsRedirected(mv, p.link) then MdLinked(p.link.(path := NewPath(mv, p.link))) else p
  }

  function Repathed(mv: Move, pieces: seq<MdPiece>): seq<MdPiece> {
    seq(|pieces|, i requires 0 <= i < |pieces| => Repath(mv, pieces[i]))
  }

  lemma RepathedCons(mv: Move, p: MdPiece, rest: seq<MdPiece>)
    ensures Repathed(mv, [p] + rest) == [Repath(mv, p)] + Repathed(mv, rest)
    ensures PrintMds(Repathed(mv, [p] + rest)) == PrintMdPiece(Repath(mv, p)) + PrintMds(Repathed(mv, rest))
  {
    hide Repath, PrintMdPiece;
    var after := [Repath(mv, p)] + Repathed(mv, rest);
    assert Repathed(mv, [p] + rest) == after;
    assert after[1..] == Repathed(mv, rest);
  }

  lemma DecidedIsRepath(mv: Move, i: nat, l: MdLink)
    ensures var d := Decide(mv, Markdown(i, l));
            && (d.Some? ==> d.value.start == i && d.value.end == i + |PrintMd(l)|)
            && PrintMdPiece(Repath(mv, MdLinked(l))) == if d.Some? && !d.value.ambiguous then d.value.newText else PrintMd(l)
  {
    hide PrintMd, RewriteTarget, PointsAtMoved, IsAmbiguous, EncodeMarkdownPath;
  }

  lemma MdSpansInOrder(mv: Move, line: string, i: nat)
    ensures InOrder(line, Decided(mv, FindMarkdown(line, i)), i)
  {
    MarkdownsInOrder(line, i);
    DecidedInOrder(mv, line, FindMarkdown(line, i), i, i);
  }

  lemma SubstitutionAtMd(mv: Move, line: string, l: MdLink, i: nat)
    requires i < i + |PrintMd(l)| <= |line| && line[i..i + |PrintMd(l)|] == PrintMd(l)
    requires FindMarkdown(line, i) == [Markdown(i, l)] + FindMarkdown(line, i + |PrintMd(l)|)
    ensures var end := i + |PrintMd(l)|;
            Substituted(line, Decided(mv, FindMarkdown(line, i)), i)
            == PrintMdPiece(Repath(mv, MdLinked(l))) + Substituted(line, Decided(mv, FindMarkdown(line, end)), end)
  {
    hide PrintMd, Decided, Decide, Repath, FindMarkdown, Substituted, InOrder, PrintMdPiece;
    var f := Markdown(i, l);
    var end := i + |PrintMd(l)|;
    var rest := Decided(mv, FindMarkdown(line, end));
    MdSpansInOrder(mv, line, end);
    DecidedCons(mv, f, FindMarkdown(line, end));
    DecidedIsRepath(mv, i, l);
    var d := Decide(mv, f);
    if d.Some? {
      SubstitutedAtFirst(line, d.value, rest);
    } else {
      assert [] + rest == rest;
      InOrderFromEarlier(line, rest, end);
      CopiesSpan(line, rest, i, end);
    }
  }

  lemma SubstitutionAtText(mv: Move, line: string, i: nat)
    requires i < |line| && FindMarkdown(line, i) == FindMarkdown(line, i + 1)
    ensures Substituted(line, Decided(mv, FindMarkdown(line, i)), i)
            == [line[i]] + Substituted(line, Decided(mv, FindMarkdown(line, i + 1)), i + 1)
  {
    hide Decided, FindMarkdown, Substituted, InOrder;
    MdSpansInOrder(mv, line, i + 1);
    var ms := Decided(mv, FindMarkdown(line, i + 1));
    InOrderFromEarlier(line, ms, i + 1);
    CopiesSpan(line, ms, i, i + 1);
    assert line[i..i + 1] == [line[i]];
  }

  /** Substituting the Markdown matches prints the pieces with their new paths. */
  lemma {:induction false} SubstitutionPrintsMds(mv: Move, line: string, i: nat)
    requires i <= |line|
    ensures Substituted(line, Decided(mv, FindMarkdown(line, i)), i) == PrintMds(Repathed(mv, ScanMd(line[i..])))
    decreases |line| - i
  {
    hide Decided, Decide, PrintMd, ReadMd, Repath, Repathed, Substituted, PrintMds;
    var s := line[i..];
    if i == |line| {
      SubstitutedAtEnd(line, Decided(mv, FindMarkdown(line, i)));
      NothingIsPrinted(mv);
    } else if ReadMd(s).Some? {
      var l := ReadMd(s).value;
      ReadsMdThatIsThere(s);
      var end := i + |PrintMd(l)|;
      assert s[|PrintMd(l)|..] == line[end..] && line[i..end] == PrintMd(l);
      SubstitutionPrintsMds(mv, line, end);
      RepathedCons(mv, MdLinked(l), ScanMd(line[end..]));
      SubstitutionAtMd(mv, line, l, i);
    } else {
      assert s[1..] == line[i + 1..];
      SubstitutionPrintsMds(mv, line, i + 1);
      RepathedCons(mv, Plain(line[i]), ScanMd(line[i + 1..]));
      PlainStays(mv, line[i]);
      SubstitutionAtText(mv, line, i);
    }
  }

  lemma NothingIsPrinted(mv: Move)
    ensures PrintMds(Repathed(mv, [])) == []
  {
  }

  lemma PlainStays(mv: Move, c: char)
    ensures PrintMdPiece(Repath(mv, Plain(c))) == [c]
  {
  }

  /** Every link of the line that is redirected gets a path of the grammar. */
  predicate RepathsValidly(mv: Move, line: string) {
    forall p | p in ScanMd(line) && p.MdLinked? :: IsRedirected(mv, p.link) ==> ValidPath(NewPath(mv, p.link))
  }

  lemma RepathedLinks(mv: Move, line: string)
    ensures SameButPaths(ScanMd(line), Repathed(mv, ScanMd(line)))
    ensures ValidLinks(Repathed(mv, ScanMd(line))) <==> RepathsValidly(mv, line)
  {
    hide ScanMd, IsRedirected, NewPath, ValidPath, Free, ValidFragment;
    var before, pieces := ScanMd(line), Repathed(mv, ScanMd(line));
    PrintOfScanMd(line);
    if ValidLinks(pieces) {
      forall p | p in before && p.MdLinked? && IsRedirected(mv, p.link) ensures ValidPath(NewPath(mv, p.link)) {
        var i :| 0 <= i < |before| && before[i] == p;
        assert pieces[i].MdLinked? && ValidMd(pieces[i].link);
      }
    }
    if RepathsValidly(mv, line) {
      forall i | 0 <= i < |pieces| && pieces[i].MdLinked? ensures ValidMd(pieces[i].link) {
        assert before[i] in before && before[i].MdLinked? && ValidMd(before[i].link);
      }
    }
  }

  /**
   On a line whose wikilinks do not point at the moved note, the rewrite prints the pieces with their new
   paths, and scanning the result finds exactly those pieces again - the same links in the same order, texts
   and fragments as they were, no new link anywhere - if and only if the new paths are paths of the grammar.
   */
  lemma RewriteKeepsMarkdownIff(mv: Move, line: string)
    requires Decided(mv, FindWiki(line, 0)) == []
    ensures var pieces := Repathed(mv, ScanMd(line));
            && RightToLeft(line, Matches(mv, line)) == Some(PrintMds(pieces))
            && SameButPaths(ScanMd(line), pieces)
            && (ScanMd(PrintMds(pieces)) == pieces <==> RepathsValidly(mv, line))
  {
    hide FindWiki, FindMarkdown, Repathed, RepathsValidly, Decided, ScanMd, PrintMds, SameButPaths, ValidLinks,
         RightToLeft, Substituted, Ascending, InLine;
    var mds := Decided(mv, FindMarkdown(line, 0));
    assert Matches(mv, line) == [] + mds == mds;
    AscendingIffMarkdownLast(mv, line);
    RewriteIsSubstitution(mv, line);
    assert line[0..] == line;
    SubstitutionPrintsMds(mv, line, 0);
    RepathedLinks(mv, line);
    RescansMdIffValid(line, Repathed(mv, ScanMd(line)));
  }

  // ---------------------------------------------------------------- new paths that are fine

  /** A path to a .md file with a name in front, without parentheses that close and without hashes. */
  predicate GoodName(path: string) {
    ValidPath(path) && Stem(path) != []
  }

  lemma MdIsExt(path: string)
    requires |path| >= 3 && path[|path| - 3..] == ".md"
    ensures Ext(path) == ".md"
  {
    hide Ext;
    var stem := path[..|path| - 3];
    assert path == stem + ".md";
    ExtBehind(stem, ".md");
  }

  lemma GoodTarget(oldTarget: string, newPath: string)
    requires GoodName(newPath) && Ext(oldTarget) != []
    ensures ValidPath(RewriteTarget(oldTarget, newPath))
  {
    hide Ext, LastElement, TrimSlashes, Free;
    var n := |newPath|;
    assert newPath[n - 1] == newPath[n - 3..][2] == 'd';
    MdIsExt(newPath);
    NoSlashesTrimmed(newPath);
    var base := Base(newPath);
    ExtOfLastElement(newPath);
    MdIsSuffix(base);
    FreeSuffix(newPath, base, {')', '#'});
  }

  lemma NoSlashesTrimmed(path: string)
    requires path != [] && path[|path| - 1] != '/'
    ensures TrimSlashes(path) == path && Base(path) == LastElement(path)
  {
  }

  /** With an extension of its own and a stem, the name is longer than the extension. */
  lemma MdIsSuffix(base: string)
    requires Ext(base) == ".md" && TrimSuffix(base, Ext(base)) != []
    ensures |base| > 3 && base[|base| - 3..] == ".md"
  {
    hide Ext;
    var ext := Ext(base);
    TrimmedExt(base);
    assert base[|base| - |ext|..] == ext && |ext| == 3;
  }

  /** Paths are escaped into paths of the grammar, and their extension is seen through the escapes. */
  ghost predicate GoodEscapes(mv: Move) {
    && (forall path: string {:trigger mv.unescape(path)} :: ValidPath(path) ==> Ext(mv.unescape(path)) != [])
    && (forall path: string, raw: string {:trigger EncodeMarkdownPath(mv, path, raw)} ::
          ValidPath(path) ==> ValidPath(EncodeMarkdownPath(mv, path, raw)))
  }

  /** In particular every good new name keeps the Markdown links. */
  lemma RewriteKeepsMarkdown(mv: Move, line: string)
    requires Decided(mv, FindWiki(line, 0)) == []
    requires GoodName(mv.newPath) && GoodEscapes(mv)
    ensures var pieces := Repathed(mv, ScanMd(line));
            && RightToLeft(line, Matches(mv, line)) == Some(PrintMds(pieces))
            && SameButPaths(ScanMd(line), pieces) && ValidLinks(pieces)
            && ScanMd(PrintMds(pieces)) == pieces
  {
    hide FindWiki, Repathed, Decided, ScanMd, PrintMds, SameButPaths, RightToLeft, Matches, IsRedirected, GoodName,
         RewriteTarget, EncodeMarkdownPath, ValidPath, Ext, ValidFragment;
    PrintOfScanMd(line);
    forall p | p in ScanMd(line) && p.MdLinked? ensures ValidPath(NewPath(mv, p.link)) {
      var i :| 0 <= i < |ScanMd(line)| && ScanMd(line)[i] == p;
      assert ValidMd(p.link);
      GoodTarget(mv.unescape(p.link.path), mv.newPath);
    }
    RewriteKeepsMarkdownIff(mv, line);
    RepathedLinks(mv, line);
  }
}
