/**
 What RewriteLinksOnMove does to one note (internal/vault/linkrewrite.go:134-168): every line is
 rewritten on its own, the lines are joined again, and each link is reported under its line number.
 */
module NoteRewrite {
  import opened Wrappers
  import opened Lines
  import opened FilePaths
  import opened Wikilinks
  import opened Splice
  import opened LinkRewrite

  datatype Reported = Reported(line: nat, link: LinkRewrite)

  function NewLine(mv: Move, line: string): Option<string> {
    RightToLeft(line, Matches(mv, line))
  }

  /** The program stops on this line: a wikilink ends behind what its Markdown links leave of it. */
  predicate LineStops(mv: Move, line: string) {
    Overruns(Decided(mv, FindWiki(line, 0)), |line| + Growth(Decided(mv, FindMarkdown(line, 0))))
  }

  predicate AllLinesFit(mv: Move, lines: seq<string>) {
    forall i | 0 <= i < |lines| :: NewLine(mv, lines[i]).Some?
  }

  function NewLines(mv: Move, lines: seq<string>): seq<string>
    requires AllLinesFit(mv, lines)
  {
    seq(|lines|, i requires 0 <= i < |lines| => NewLine(mv, lines[i]).value)
  }

  function LinksOfLine(mv: Move, lines: seq<string>, i: nat): seq<Reported>
    requires i < |lines|
  {
    var ms := Matches(mv, lines[i]);
    seq(|ms|, j requires 0 <= j < |ms| =>
      Reported(i + 1, LinkRewrite(ms[j].oldText, ms[j].newText, ms[j].ambiguous)))
  }

  /** The links of the first n lines, in order. */
  function Report(mv: Move, lines: seq<string>, n: nat): seq<Reported>
    requires n <= |lines|
  {
    if n == 0 then [] else Report(mv, lines, n - 1) + LinksOfLine(mv, lines, n - 1)
  }

  /** A note is written exactly when no line stops the program. */
  lemma AllFitIffNoneStops(mv: Move, lines: seq<string>)
    ensures AllLinesFit(mv, lines) <==> forall i | 0 <= i < |lines| :: !LineStops(mv, lines[i])
  {
    hide NewLine, LineStops;
    forall i | 0 <= i < |lines| ensures NewLine(mv, lines[i]).Some? <==> !LineStops(mv, lines[i]) {
      LineStopsMeans(mv, lines[i]);
    }
  }

  lemma LineStopsMeans(mv: Move, line: string)
    ensures NewLine(mv, line).None? <==> LineStops(mv, line)
  {
    hide Matches, RightToLeft, Decided, Overruns, Growth, FindWiki, FindMarkdown;
    StopsIff(mv, line);
  }

  /** ok is false where the program would stop on an offset outside a line. */
  method RewriteNote(mv: Move, content: string)
    returns (text: string, rewrites: seq<Reported>, changed: bool, ok: bool)
    ensures var before := Split(content);
            && ok == AllLinesFit(mv, before)
            && (ok <==> forall i | 0 <= i < |before| :: !LineStops(mv, before[i]))
            && (ok ==> text == Join(NewLines(mv, before)))
            && (ok ==> (changed <==> NewLines(mv, before) != before))
            && (ok ==> rewrites == Report(mv, before, |before|))
  {
    hide Matches, RightToLeft, LineStops;
    var before := Split(content);
    var lines := before;
    AllFitIffNoneStops(mv, before);
    rewrites, changed := [], false;
    for i := 0 to |before|
      invariant |lines| == |before|
      invariant forall k | 0 <= k < i :: NewLine(mv, before[k]) == Some(lines[k])
      invariant forall k | i <= k < |before| :: lines[k] == before[k]
      invariant changed <==> lines != before
      invariant rewrites == Report(mv, before, i)
    {
      var line := lines[i];
      var newLine, lineRewrites, fits := RewriteLine(mv, line);
      if !fits {
        assert NewLine(mv, before[i]).None?;
        return "", [], false, false;
      }
      NothingToRewrite(mv, line);
      rewrites := rewrites
        + seq(|lineRewrites|, j requires 0 <= j < |lineRewrites| => Reported(i + 1, lineRewrites[j]));
      if newLine != line {
        lines := lines[i := newLine];
        changed := true;
        assert lines[i] != before[i];
      }
    }
    assert lines == NewLines(mv, before);
    return Join(lines), rewrites, changed, true;
  }

  /** A line without a link to the note is passed over, which leaves it as it is. */
  lemma NothingToRewrite(mv: Move, line: string)
    ensures Matches(mv, line) == [] ==> NewLine(mv, line) == Some(line)
  {
    hide Matches;
  }

  // ---------------------------------------------------------------- the rewritten note, read again

  lemma FreeConcat(a: string, b: string)
    requires NewlineFree(a) && NewlineFree(b)
    ensures NewlineFree(a + b)
  {
  }

  lemma FreeMeansNewlineFree(s: string)
    ensures Free(s, {'\n'}) <==> NewlineFree(s)
  {
  }

  lemma PartsAreNewlineFree(l: Link)
    requires NewlineFree(Print(l))
    ensures NewlineFree(Opening(l.bang)) && NewlineFree(l.target) && NewlineFree(l.anchor) && NewlineFree(l.alias)
  {
    var p := Print(l);
    assert p == Opening(l.bang) + l.target + l.anchor + l.alias + "]]";
    assert forall c | c in l.target :: c in p;
    assert forall c | c in l.anchor :: c in p;
    assert forall c | c in l.alias :: c in p;
  }

  lemma RedirectIsNewlineFree(mv: Move, p: Piece)
    requires NewlineFree(mv.newPath) && mv.newPath != [] && NewlineFree(PrintPiece(p))
    ensures NewlineFree(PrintPiece(Redirect(mv, p)))
  {
    hide RewriteTarget, PointsAtMoved, IsAmbiguous, NewlineFree, Opening;
    if p.Linked? {
      var l := p.link;
      var target := RewriteTarget(l.target, mv.newPath);
      FreeMeansNewlineFree(mv.newPath);
      NewTargetIsFree(l.target, mv.newPath, {'\n'});
      FreeMeansNewlineFree(target);
      PartsAreNewlineFree(l);
      BracketsAreNewlineFree();
      FreeConcat(target, l.anchor);
      FreeConcat(target + l.anchor, l.alias);
      FreeConcat(Opening(l.bang), target + l.anchor + l.alias);
      FreeConcat(Opening(l.bang) + (target + l.anchor + l.alias), "]]");
    }
  }

  lemma BracketsAreNewlineFree()
    ensures NewlineFree("]]")
  {
  }

  lemma {:induction false} RedirectedIsNewlineFree(mv: Move, pieces: seq<Piece>)
    requires NewlineFree(mv.newPath) && mv.newPath != [] && NewlineFree(PrintAll(pieces))
    ensures NewlineFree(PrintAll(Redirected(mv, pieces)))
  {
    hide Redirect, PrintPiece;
    if pieces != [] {
      var head, rest := PrintPiece(pieces[0]), PrintAll(pieces[1..]);
      assert forall c | c in head :: c in head + rest;
      assert forall c | c in rest :: c in head + rest;
      RedirectIsNewlineFree(mv, pieces[0]);
      RedirectedIsNewlineFree(mv, pieces[1..]);
      assert pieces == [pieces[0]] + pieces[1..];
      RedirectedCons(mv, pieces[0], pieces[1..]);
      var after := Redirected(mv, pieces[1..]);
      assert ([Redirect(mv, pieces[0])] + after)[1..] == after;
      FreeConcat(PrintPiece(Redirect(mv, pieces[0])), PrintAll(after));
    }
  }

  /**
   A note no Markdown link of which points at the moved note keeps its lines, and each line its links:
   reading the rewritten note again finds, line by line, the same links in the same order, the redirected
   targets being the only difference, and no link anywhere else.
   */
  lemma NoteKeepsLinks(mv: Move, content: string)
    requires forall i | 0 <= i < |Split(content)| :: Decided(mv, FindMarkdown(Split(content)[i], 0)) == []
    requires Free(mv.newPath, {']', '|', '#'}) && NewlineFree(mv.newPath) && Stem(mv.newPath) != []
    ensures var before := Split(content);
            && AllLinesFit(mv, before)
            && var after := Split(Join(NewLines(mv, before)));
            && |after| == |before|
            && forall i | 0 <= i < |before| ::
                 && Scan(after[i]) == Redirected(mv, Scan(before[i]))
                 && Retargeted(Scan(before[i]), Scan(after[i]))
  {
    hide Matches, RightToLeft, Scan, Redirected, Retargeted, Decided, FindMarkdown, Free, Stem, Ext, PrintAll;
    var before := Split(content);
    StemNeedsName(mv.newPath);
    forall i | 0 <= i < |before|
      ensures NewLine(mv, before[i]) == Some(PrintAll(Redirected(mv, Scan(before[i]))))
      ensures NewlineFree(PrintAll(Redirected(mv, Scan(before[i]))))
      ensures Scan(PrintAll(Redirected(mv, Scan(before[i])))) == Redirected(mv, Scan(before[i]))
      ensures Retargeted(Scan(before[i]), Redirected(mv, Scan(before[i])))
    {
      RewriteKeepsLinks(mv, before[i]);
      PrintOfScan(before[i]);
      RedirectedIsNewlineFree(mv, Scan(before[i]));
    }
    SplitOfJoin(NewLines(mv, before), '\n');
  }
}
