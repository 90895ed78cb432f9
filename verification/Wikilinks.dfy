/**
 Wikilinks (internal/vault/linkrewrite.go:18): an optional bang, "[[", a target without ']', '|' or
 '#', an optional anchor and an optional alias, "]]". A hand-written reader of the pattern, leftmost
 and non-overlapping, and the proof that rewriting targets keeps the link structure of a line.
 */
module Wikilinks {
  import opened Wrappers
  import Lines

  /** anchor and alias keep their leading '#' and '|'; either may be empty. */
  datatype Link = Link(bang: bool, target: string, anchor: string, alias: string)

  predicate Free(s: string, stops: set<char>) {
    forall k | 0 <= k < |s| :: s[k] !in stops
  }

  predicate ValidTarget(target: string) {
    target != [] && Free(target, {']', '|', '#'})
  }

  predicate ValidLink(l: Link) {
    && ValidTarget(l.target)
    && (l.anchor != [] ==> l.anchor[0] == '#' && Free(l.anchor[1..], {']', '|'}))
    && (l.alias != [] ==> l.alias[0] == '|' && Free(l.alias[1..], {']'}))
  }

  function Opening(bang: bool): string {
    if bang then "![[" else "[["
  }

  function Body(l: Link): string {
    l.target + l.anchor + l.alias
  }

  /** Everything before the closing brackets. */
  function Front(l: Link): string {
    Opening(l.bang) + Body(l)
  }

  function Print(l: Link): string {
    Front(l) + "]]"
  }

  // ---------------------------------------------------------------- reading one link

  /** The longest beginning of s without a stop character: what a greedy class matches. */
  function Run(s: string, stops: set<char>): (run: string)
    ensures run <= s && Free(run, stops)
    ensures |run| < |s| ==> s[|run|] in stops
  {
    if s != [] && s[0] !in stops then [s[0]] + Run(s[1..], stops) else []
  }

  /** A group that is introduced by its own first character, or absent. */
  function Group(s: string, first: char, stops: set<char>): (g: string)
    ensures g <= s
    ensures g != [] ==> g[0] == first && Free(g[1..], stops)
    ensures if g == [] then s == [] || s[0] != first else |g| < |s| ==> s[|g|] in stops
  {
    if s != [] && s[0] == first then [first] + Run(s[1..], stops) else []
  }

  function ReadAfterOpening(bang: bool, s: string): Option<Link> {
    var target := Run(s, {']', '|', '#'});
    var s1 := s[|target|..];
    var anchor := Group(s1, '#', {']', '|'});
    var s2 := s1[|anchor|..];
    var alias := Group(s2, '|', {']'});
    if target != [] && "]]" <= s2[|alias|..] then Some(Link(bang, target, anchor, alias)) else None
  }

  /** The link the pattern matches exactly here; a bang is taken when it can be. */
  function ReadLink(s: string): Option<Link> {
    if "![[" <= s then ReadAfterOpening(true, s[3..])
    else if "[[" <= s then ReadAfterOpening(false, s[2..])
    else None
  }

  // ---------------------------------------------------------------- the grammar without groups

  /**
   Without the groups the pattern is simple: the body is any non-empty text without ']' that does
   not begin with '|' or '#'. Every such body splits into target, anchor and alias in one way.
   */
  predicate BodyText(body: string) {
    body != [] && Free(body, {']'}) && body[0] != '|' && body[0] != '#'
  }

  lemma ReadsBodyAndClosing(bang: bool, s: string)
    requires ReadAfterOpening(bang, s).Some?
    ensures var l := ReadAfterOpening(bang, s).value;
            ValidLink(l) && l.bang == bang && Body(l) + "]]" <= s
  {
    hide Free, Run, Group;
    var l := ReadAfterOpening(bang, s).value;
    var s1 := s[|l.target|..];
    var s2 := s1[|l.anchor|..];
    var s3 := s2[|l.alias|..];
    assert s == l.target + s1 && s1 == l.anchor + s2 && s2 == l.alias + s3;
    RegroupFour(l.target, l.anchor, l.alias, s3);
    PrefixOfConcat(Body(l), "]]", s3);
  }

  lemma PrefixOfConcat(a: string, b: string, c: string)
    requires b <= c
    ensures a + b <= a + c
  {
  }

  lemma RegroupFour(a: string, b: string, c: string, d: string)
    ensures a + (b + (c + d)) == a + b + c + d
  {
  }

  /** What is read is a link of the grammar, and it is what the text begins with. */
  lemma ReadsWhatIsThere(s: string)
    requires ReadLink(s).Some?
    ensures ValidLink(ReadLink(s).value) && Print(ReadLink(s).value) <= s
  {
    hide ReadAfterOpening;
    var l := ReadLink(s).value;
    if "![[" <= s {
      ReadsBodyAndClosing(true, s[3..]);
      assert s == "![[" + s[3..];
    } else {
      ReadsBodyAndClosing(false, s[2..]);
      assert s == "[[" + s[2..];
    }
    assert Print(l) == Opening(l.bang) + (Body(l) + "]]");
  }

  lemma FreeConcat(a: string, b: string, stops: set<char>)
    ensures Free(a + b, stops) <==> Free(a, stops) && Free(b, stops)
  {
    forall k | 0 <= k < |a| ensures a[k] == (a + b)[k] {
    }
    forall k | 0 <= k < |b| ensures b[k] == (a + b)[|a| + k] {
    }
  }

  lemma PrintedBody(l: Link)
    requires ValidLink(l)
    ensures BodyText(Body(l))
  {
    FreeConcat(l.target, l.anchor, {']'});
    FreeConcat(l.target + l.anchor, l.alias, {']'});
    if l.anchor != [] {
      FreeConcat("#", l.anchor[1..], {']'});
      assert l.anchor == "#" + l.anchor[1..];
    }
    if l.alias != [] {
      FreeConcat("|", l.alias[1..], {']'});
      assert l.alias == "|" + l.alias[1..];
    }
    assert Body(l)[0] == l.target[0];
  }

  /** What is left of a ']'-free text after its run, or after its anchor. */
  lemma RestAfterTarget(body: string)
    requires BodyText(body)
    ensures var target := Run(body, {']', '|', '#'});
            var rest := body[|target|..];
            && target != [] && Free(rest, {']'})
            && (rest == [] || rest[0] == '|' || rest[0] == '#')
  {
    var target := Run(body, {']', '|', '#'});
    FreeConcat(target, body[|target|..], {']'});
    assert body == target + body[|target|..];
  }

  lemma RestAfterAnchor(b: string)
    requires Free(b, {']'}) && (b == [] || b[0] == '|' || b[0] == '#')
    ensures var rest := b[|Group(b, '#', {']', '|'})|..];
            Free(rest, {']'}) && (rest == [] || rest[0] == '|')
  {
    var anchor := Group(b, '#', {']', '|'});
    var rest := b[|anchor|..];
    FreeConcat(anchor, rest, {']'});
    assert b == anchor + rest;
  }

  lemma AliasIsRest(b: string)
    requires Free(b, {']'}) && (b == [] || b[0] == '|')
    ensures Group(b, '|', {']'}) == b
  {
  }

  /** Every body is the body of the link its runs spell out. */
  lemma PartsOfBody(bang: bool, body: string) returns (l: Link)
    requires BodyText(body)
    ensures ValidLink(l) && Body(l) == body && l.bang == bang
  {
    hide Run, Group, Free;
    var target := Run(body, {']', '|', '#'});
    var b1 := body[|target|..];
    RestAfterTarget(body);
    var anchor := Group(b1, '#', {']', '|'});
    var b2 := b1[|anchor|..];
    RestAfterAnchor(b1);
    AliasIsRest(b2);
    l := Link(bang, target, anchor, b2);
    assert body == target + b1;
    assert b1 == anchor + b2;
    Lines.Regroup(target, anchor, b2);
  }

  /** Printing a link and reading it back gives the same link, whatever follows it. */
  lemma ReadOfPrint(l: Link, after: string)
    requires ValidLink(l)
    ensures ReadLink(Print(l) + after) == Some(l)
  {
    hide ReadAfterOpening;
    var opening := Opening(l.bang);
    var end := "]]" + after;
    var s := opening + (l.target + (l.anchor + (l.alias + end)));
    RegroupFour(l.target, l.anchor, l.alias, end);
    assert Print(l) + after == s;
    assert s[..|opening|] == opening;
    assert s[|opening|..] == l.target + (l.anchor + (l.alias + end));
    assert !l.bang ==> s[0] == '[';
    PartsAreRead(l, end);
  }

  lemma PartsAreRead(l: Link, end: string)
    requires ValidLink(l) && "]]" <= end
    ensures ReadAfterOpening(l.bang, l.target + (l.anchor + (l.alias + end))) == Some(l)
  {
    var s2 := l.alias + end;
    var s1 := l.anchor + s2;
    var s := l.target + s1;
    RunIs(l.target, s1, {']', '|', '#'});
    assert s[|l.target|..] == s1;
    GroupIs(l.anchor, s2, '#', {']', '|'});
    assert s1[|l.anchor|..] == s2;
    GroupIs(l.alias, end, '|', {']'});
    assert s2[|l.alias|..] == end;
  }

  lemma {:induction false} RunIs(run: string, after: string, stops: set<char>)
    requires Free(run, stops) && after != [] && after[0] in stops
    ensures Run(run + after, stops) == run
  {
    if run == [] {
      assert run + after == after;
    } else {
      assert (run + after)[1..] == run[1..] + after;
      RunIs(run[1..], after, stops);
    }
  }

  lemma GroupIs(g: string, after: string, first: char, stops: set<char>)
    requires g != [] ==> g[0] == first && Free(g[1..], stops)
    requires after != [] && if g == [] then after[0] != first else after[0] in stops
    ensures Group(g + after, first, stops) == g
  {
    if g == [] {
      assert g + after == after;
    } else {
      assert (g + after)[1..] == g[1..] + after;
      RunIs(g[1..], after, stops);
    }
  }

  lemma ReadsAnyBody(bang: bool, body: string, after: string)
    requires BodyText(body)
    ensures ReadLink(Opening(bang) + body + "]]" + after).Some?
  {
    var l := PartsOfBody(bang, body);
    ReadOfPrint(l, after);
  }

  // ---------------------------------------------------------------- a whole line

  datatype Piece = Text(c: char) | Linked(link: Link)

  /** The line as the pattern's successive matches and the characters between them. */
  function Scan(s: string): seq<Piece>
    decreases |s|
  {
    if s == [] then
      []
    else
      var l := ReadLink(s);
      if l.Some? then
        ReadsWhatIsThere(s);
        [Linked(l.value)] + Scan(s[|Print(l.value)|..])
      else
        [Text(s[0])] + Scan(s[1..])
  }

  function PrintPiece(p: Piece): string {
    match p
    case Text(c) => [c]
    case Linked(l) => Print(l)
  }

  function PrintAll(pieces: seq<Piece>): string {
    if pieces == [] then [] else PrintPiece(pieces[0]) + PrintAll(pieces[1..])
  }

  lemma {:induction false} PrintOfScan(s: string)
    ensures PrintAll(Scan(s)) == s
    ensures forall i | 0 <= i < |Scan(s)| :: Scan(s)[i].Linked? ==> ValidLink(Scan(s)[i].link)
    decreases |s|
  {
    hide ReadLink, Print, ValidLink;
    if s != [] {
      var l := ReadLink(s);
      if l.Some? {
        ReadsWhatIsThere(s);
        PrintNotEmpty(l.value);
        PrintOfScan(s[|Print(l.value)|..]);
      } else {
        PrintOfScan(s[1..]);
      }
    }
  }

  /** The same pieces, except that links may have another target. */
  predicate SameButTargets(before: seq<Piece>, after: seq<Piece>) {
    && |after| == |before|
    && forall i | 0 <= i < |before| ::
         match before[i]
         case Text(_) => after[i] == before[i]
         case Linked(l) => after[i].Linked? && after[i].link == l.(target := after[i].link.target)
  }

  predicate ValidTargets(pieces: seq<Piece>) {
    forall i | 0 <= i < |pieces| :: pieces[i].Linked? ==> ValidTarget(pieces[i].link.target)
  }

  /** And those targets are valid ones. */
  predicate Retargeted(before: seq<Piece>, after: seq<Piece>) {
    SameButTargets(before, after) && ValidTargets(after)
  }

  lemma FirstBracket(u: string, x: string, v: string, y: string)
    requires Free(u, {']'}) && Free(v, {']'})
    requires x != [] && x[0] == ']' && y != [] && y[0] == ']'
    requires u + x == v + y
    ensures u == v
  {
    RunIs(u, x, {']'});
    RunIs(v, y, {']'});
  }

  lemma FrontIsFree(l: Link)
    requires ValidLink(l)
    ensures Free(Front(l), {']'}) && Front(l) != []
  {
    PrintedBody(l);
    FreeConcat(Opening(l.bang), Body(l), {']'});
  }

  /** A link that fits into the gap is read there whatever follows the gap. */
  lemma LinkInsideGap(k: Link, g: string, x: string, y: string)
    requires ValidLink(k) && Print(k) <= g + y && |Print(k)| <= |g|
    ensures ReadLink(g + x).Some?
  {
    hide Print, ReadLink, ValidLink;
    var n := |Print(k)|;
    assert Print(k) == (g + y)[..n] == g[..n];
    ReadOfPrint(k, g[n..] + x);
    assert g + x == Print(k) + (g[n..] + x);
  }

  /** A link cannot end with its first bracket in the gap and its second one in the next link. */
  lemma NoLinkAcrossGapEnd(k: Link, g: string, l: Link, t: string)
    requires ValidLink(k) && ValidLink(l) && !Free(g, {']'})
    requires Print(k) <= g + (Print(l) + t)
    ensures |Print(k)| <= |g|
  {
    var run := Run(g, {']'});
    assert |run| < |g|;
    var s := g + (Print(l) + t);
    var rest := s[|Print(k)|..];
    FrontIsFree(k);
    FrontIsFree(l);
    assert s == Print(k) + rest;
    assert s == Front(k) + ("]]" + rest);
    assert s == run + s[|run|..];
    FirstBracket(Front(k), "]]" + rest, run, s[|run|..]);
    assert s[|run| + 1] == ']';
    assert s[|g|] == Front(l)[0] && Front(l)[0] !in {']'};
  }

  /** A link that swallows a bracket-free gap is the gap and the whole next link. */
  lemma LinkOverGap(k: Link, g: string, l: Link, t: string)
    requires ValidLink(k) && ValidLink(l) && Free(g, {']'})
    requires Print(k) <= g + (Print(l) + t)
    ensures Front(k) == g + Front(l)
  {
    var s := g + (Print(l) + t);
    var rest := s[|Print(k)|..];
    FrontIsFree(k);
    FrontIsFree(l);
    FreeConcat(g, Front(l), {']'});
    assert s == Print(k) + rest;
    assert s == Front(k) + ("]]" + rest);
    assert s == (g + Front(l)) + ("]]" + t);
    FirstBracket(Front(k), "]]" + rest, g + Front(l), "]]" + t);
  }

  /** The same text, opened earlier. */
  lemma OtherOpening(g: string, opening: string, body: string, t: string, opening': string, between: string)
    requires g + opening == opening' + between
    ensures g + (opening + body + "]]" + t) == opening' + (between + body) + "]]" + t
  {
    calc {
      g + (opening + body + "]]" + t);
      (g + opening) + body + "]]" + t;
      (opening' + between) + body + "]]" + t;
      opening' + (between + body) + "]]" + t;
    }
  }

  /** Such a link is read with any other target of the next link as well. */
  lemma OtherLinkOverGap(k: Link, g: string, l: Link, l': Link, t: string)
    requires ValidLink(k) && ValidLink(l) && ValidLink(l') && l'.bang == l.bang
    requires g != [] && Free(g, {']'}) && Front(k) == g + Front(l')
    ensures ReadLink(g + (Print(l) + t)).Some?
  {
    hide ReadLink, ValidLink, Free, Body;
    var front := g + Opening(l.bang);
    var n := |Opening(k.bang)|;
    assert Front(k) == front + Body(l');
    assert front[..n] == Front(k)[..n] == Opening(k.bang);
    var body := front[n..] + Body(l);
    PrintedBody(l);
    PrintedBody(k);
    FrontIsFree(l);
    FreeConcat(Opening(l.bang), Body(l), {']'});
    FreeConcat(g, Opening(l.bang), {']'});
    FreeConcat(front[..n], front[n..], {']'});
    assert front == front[..n] + front[n..];
    FreeConcat(front[n..], Body(l), {']'});
    if n < |front| {
      assert body[0] == front[n] == Front(k)[n] == Body(k)[0];
    } else {
      assert body == Body(l);
    }
    ReadsAnyBody(k.bang, body, t);
    OtherOpening(g, Opening(l.bang), Body(l), t, Opening(k.bang), front[n..]);
  }

  /**
   If no link is read in front of one link, none is read there when that link gets another target:
   a reading that reached the link would have had to end exactly at its closing brackets.
   */
  lemma NoLinkInGap(g: string, l: Link, t: string, l': Link, t': string)
    requires g != [] && ValidLink(l) && ValidLink(l') && l'.bang == l.bang
    requires ReadLink(g + (Print(l) + t)).None?
    ensures ReadLink(g + (Print(l') + t')).None?
  {
    hide ReadLink, ValidLink, Print, Free;
    var s' := g + (Print(l') + t');
    if ReadLink(s').Some? {
      ReadsWhatIsThere(s');
      var k := ReadLink(s').value;
      if !Free(g, {']'}) {
        NoLinkAcrossGapEnd(k, g, l', t');
      }
      if |Print(k)| <= |g| {
        LinkInsideGap(k, g, Print(l) + t, Print(l') + t');
      } else {
        LinkOverGap(k, g, l', t');
        OtherLinkOverGap(k, g, l, l', t);
      }
    }
  }

  /** The beginning of a piece list up to its first link. */
  function Gap(pieces: seq<Piece>): (n: nat)
    ensures n <= |pieces|
    ensures forall i | 0 <= i < n :: pieces[i].Text?
    ensures n < |pieces| ==> pieces[n].Linked?
  {
    if pieces != [] && pieces[0].Text? then 1 + Gap(pieces[1..]) else 0
  }

  lemma {:induction false} PrintConcat(a: seq<Piece>, b: seq<Piece>)
    ensures PrintAll(a + b) == PrintAll(a) + PrintAll(b)
  {
    if a == [] {
      assert a + b == b;
    } else {
      assert (a + b)[1..] == a[1..] + b;
      PrintConcat(a[1..], b);
    }
  }

  lemma NoNewLinkAtText(before: seq<Piece>, after: seq<Piece>)
    requires before != [] && before[0].Text? && Retargeted(before, after)
    requires forall i | 0 <= i < |before| :: before[i].Linked? ==> ValidLink(before[i].link)
    requires ReadLink(PrintAll(before)).None?
    ensures ReadLink(PrintAll(after)).None?
  {
    hide ReadLink, Print;
    var n := Gap(before);
    if n == |before| {
      assert after == before;
    } else {
      var g := before[..n];
      assert after[..n] == g;
      assert before == g + before[n..] && after == g + after[n..];
      PrintConcat(g, before[n..]);
      PrintConcat(g, after[n..]);
      NoLinkInGap(PrintAll(g), before[n].link, PrintAll(before[n..][1..]),
                  after[n].link, PrintAll(after[n..][1..]));
    }
  }

  /**
   Reading a rewritten line finds the same links in the same order, each with its own bang, anchor and
   alias; only targets differ, and no link appears in the text between them.
   */
  lemma {:induction false} ScanOfRetargeted(s: string, after: seq<Piece>)
    requires Retargeted(Scan(s), after)
    ensures Scan(PrintAll(after)) == after
    decreases |s|
  {
    hide ReadLink, Print;
    PrintOfScan(s);
    if s != [] {
      var before := Scan(s);
      var rest := PrintAll(after[1..]);
      if ReadLink(s).Some? {
        var l := ReadLink(s).value;
        ReadsWhatIsThere(s);
        assert before[1..] == Scan(s[|Print(l)|..]);
        ScanOfRetargeted(s[|Print(l)|..], after[1..]);
        ReadOfPrint(after[0].link, rest);
        PrintNotEmpty(after[0].link);
        assert (Print(after[0].link) + rest)[|Print(after[0].link)|..] == rest;
      } else {
        assert before[1..] == Scan(s[1..]);
        ScanOfRetargeted(s[1..], after[1..]);
        NoNewLinkAtText(before, after);
        assert PrintAll(after)[1..] == rest;
      }
    }
  }

  /** That takes valid targets: with any other, reading the line finds something else. */
  lemma RescansIffValid(s: string, after: seq<Piece>)
    requires SameButTargets(Scan(s), after)
    ensures Scan(PrintAll(after)) == after <==> ValidTargets(after)
  {
    hide Scan, PrintAll, ValidTargets, SameButTargets;
    ScannedTargetsAreValid(PrintAll(after));
    if ValidTargets(after) {
      ScanOfRetargeted(s, after);
    }
  }

  lemma ScannedTargetsAreValid(s: string)
    ensures ValidTargets(Scan(s))
  {
    hide Scan, PrintAll, ValidTarget;
    PrintOfScan(s);
  }

  lemma PrintNotEmpty(l: Link)
    ensures |Print(l)| > 0
  {
  }
}
