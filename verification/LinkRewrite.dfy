/**
 Rewriting the links of one line when a note moves (internal/vault/linkrewrite.go): which links point
 at the moved note, what their new text is, and what the line becomes.

 The vault's basename index is a parameter, and so are the two URL escapes of Markdown paths.
 */
module LinkRewrite {
  import opened Wrappers
  import opened Lines
  import opened FilePaths
  import opened Wikilinks
  import opened Splice

  /** The move being applied: the old path, who has which basename, the new path. */
  datatype Move = Move(oldPath: string, index: map<string, seq<string>>, newPath: string,
                       unescape: string -> string, escape: string -> string)

  datatype LinkRewrite = LinkRewrite(oldText: string, newText: string, ambiguous: bool)

  function BuildMatchTargets(relPath: string): set<string> {
    {Stem(relPath), Base(relPath), WithoutExt(relPath), relPath}
  }

  /** The new target in the style of the old one: path or basename, with or without extension. */
  function RewriteTarget(oldTarget: string, newPath: string): string {
    var hadExt := Ext(oldTarget) != [];
    var pathStyle := '/' in oldTarget;
    if pathStyle && hadExt then newPath
    else if pathStyle then WithoutExt(newPath)
    else if hadExt then Base(newPath)
    else Stem(newPath)
  }

  function EncodeMarkdownPath(mv: Move, newPath: string, originalRaw: string): string {
    if '%' !in originalRaw then
      newPath
    else
      var segments := SplitAt(newPath, '/');
      JoinWith(seq(|segments|, i requires 0 <= i < |segments| => mv.escape(segments[i])), '/')
  }

  function IndexCount(mv: Move, name: string): nat {
    if name in mv.index then |mv.index[name]| else 0
  }

  predicate PointsAtMoved(mv: Move, target: string) {
    target in BuildMatchTargets(mv.oldPath) || WithoutExt(target) in BuildMatchTargets(mv.oldPath)
  }

  /**
   A link points at the moved note exactly when its target is one of the four names of the old path, or
   one of them with any extension whatsoever behind it.
   */
  lemma PointsAtMovedIff(mv: Move, target: string)
    ensures PointsAtMoved(mv, target)
            <==> exists name :: name in BuildMatchTargets(mv.oldPath)
                                && (target == name || target == name + Ext(target))
  {
    hide Ext, BuildMatchTargets;
    var bare := WithoutExt(target);
    TrimmedExt(target);
    assert target == bare + Ext(target);
    if name :| name in BuildMatchTargets(mv.oldPath) && target == name + Ext(target) {
      assert name == target[..|target| - |Ext(target)|];
    }
  }

  /** So a link to another file that shares the note's stem is taken for a link to the note. */
  lemma OtherExtensionPoints(mv: Move, ext: string)
    requires |ext| > 1 && ext[0] == '.' && (forall k | 0 < k < |ext| :: ext[k] != '.' && ext[k] != '/')
    ensures PointsAtMoved(mv, Stem(mv.oldPath) + ext)
    ensures PointsAtMoved(mv, WithoutExt(mv.oldPath) + ext)
  {
    hide Stem;
    forall name: string ensures WithoutExt(name + ext) == name {
      ExtBehind(name, ext);
      TrimmedSuffix(name, ext);
    }
  }

  lemma {:induction false} ExtBehind(name: string, ext: string)
    requires |ext| > 0 && ext[0] == '.' && (forall k | 0 < k < |ext| :: ext[k] != '.' && ext[k] != '/')
    ensures Ext(name + ext) == ext
    decreases |ext|
  {
    var path, n, m := name + ext, |name + ext| - 1, |ext| - 1;
    assert path[n] == ext[m];
    if m == 0 {
      assert ext == ".";
    } else {
      assert path[..n] == name + ext[..m];
      ExtBehind(name, ext[..m]);
      assert ext[..m] + [ext[m]] == ext;
    }
  }

  predicate IsAmbiguous(mv: Move, target: string) {
    '/' !in target && IndexCount(mv, WithoutExt(target)) > 1
  }

  // ---------------------------------------------------------------- Markdown links

  /** "[text](path#fragment)"; the fragment keeps its '#' and may be empty. */
  datatype MdLink = MdLink(text: string, path: string, fragment: string)

  function PrintMd(l: MdLink): string {
    "[" + l.text + "](" + l.path + l.fragment + ")"
  }

  function ReadMdAfterText(text: string, s: string): Option<MdLink> {
    var path := Run(s, {')', '#'});
    var s1 := s[|path|..];
    var fragment := Group(s1, '#', {')'});
    if |path| > 3 && path[|path| - 3..] == ".md" && ")" <= s1[|fragment|..] then
      Some(MdLink(text, path, fragment))
    else
      None
  }

  /** The Markdown link to a .md file that the pattern matches exactly here. */
  function ReadMd(s: string): (r: Option<MdLink>) {
    if s == [] || s[0] != '[' then
      None
    else
      var text := Run(s[1..], {']'});
      var s1 := s[1..][|text|..];
      if "](" <= s1 then ReadMdAfterText(text, s1[2..]) else None
  }

  lemma ReadsMdAfterText(text: string, s: string)
    requires ReadMdAfterText(text, s).Some?
    ensures var l := ReadMdAfterText(text, s).value;
            l.text == text && l.path + l.fragment + ")" <= s
  {
    hide Run, Group;
    var l := ReadMdAfterText(text, s).value;
    var s1 := s[|l.path|..];
    var s2 := s1[|l.fragment|..];
    assert s == l.path + s1 && s1 == l.fragment + s2;
    assert s == l.path + l.fragment + s2;
    PrefixOfConcat(l.path + l.fragment, ")", s2);
  }

  lemma ReadsMdThatIsThere(s: string)
    requires ReadMd(s).Some?
    ensures PrintMd(ReadMd(s).value) <= s && 0 < |PrintMd(ReadMd(s).value)| <= |s|
  {
    hide Run, ReadMdAfterText;
    var text := Run(s[1..], {']'});
    var s1 := s[1..][|text|..];
    ReadsMdAfterText(text, s1[2..]);
    var l := ReadMd(s).value;
    assert s1 == "](" + s1[2..];
    assert s == "[" + text + "](" + s1[2..];
    PrefixOfConcat("[" + text + "](", l.path + l.fragment + ")", s1[2..]);
    assert PrintMd(l) == "[" + text + "](" + (l.path + l.fragment + ")");
  }

  // ---------------------------------------------------------------- finding links

  datatype Found = Wiki(start: nat, link: Link) | Markdown(start: nat, mdLink: MdLink)

  /** All matches of the wikilink pattern from offset i on: leftmost first, not overlapping. */
  function FindWiki(line: string, i: nat): (found: seq<Found>)
    decreases |line| - i
  {
    if i >= |line| then
      []
    else
      var l := ReadLink(line[i..]);
      if l.Some? then
        ReadsWhatIsThere(line[i..]);
        [Wiki(i, l.value)] + FindWiki(line, i + |Print(l.value)|)
      else
        FindWiki(line, i + 1)
  }

  lemma MdFits(line: string, i: nat)
    requires i <= |line| && ReadMd(line[i..]).Some?
    ensures i < i + |PrintMd(ReadMd(line[i..]).value)| <= |line|
  {
    ReadsMdThatIsThere(line[i..]);
  }

  function FindMarkdown(line: string, i: nat): (found: seq<Found>)
    decreases |line| - i
  {
    if i >= |line| then
      []
    else
      var l := ReadMd(line[i..]);
      if l.Some? then
        MdFits(line, i);
        [Markdown(i, l.value)] + FindMarkdown(line, i + |PrintMd(l.value)|)
      else
        FindMarkdown(line, i + 1)
  }

  lemma {:induction false} OnlyWikis(line: string, i: nat)
    ensures forall k | 0 <= k < |FindWiki(line, i)| :: FindWiki(line, i)[k].Wiki?
    decreases |line| - i
  {
    hide ReadLink, Print;
    if i < |line| {
      var l := ReadLink(line[i..]);
      if l.Some? {
        ReadsWhatIsThere(line[i..]);
        PrintNotEmpty(l.value);
        OnlyWikis(line, i + |Print(l.value)|);
      } else {
        OnlyWikis(line, i + 1);
      }
    }
  }

  lemma {:induction false} OnlyMarkdowns(line: string, i: nat)
    ensures forall k | 0 <= k < |FindMarkdown(line, i)| :: FindMarkdown(line, i)[k].Markdown?
    decreases |line| - i
  {
    hide ReadMd, PrintMd;
    if i < |line| {
      var l := ReadMd(line[i..]);
      if l.Some? {
        MdFits(line, i);
        OnlyMarkdowns(line, i + |PrintMd(l.value)|);
      } else {
        OnlyMarkdowns(line, i + 1);
      }
    }
  }

  function FoundText(f: Found): string {
    match f
    case Wiki(_, l) => Print(l)
    case Markdown(_, l) => PrintMd(l)
  }

  /** The part that names a note: a Markdown path is unescaped first. */
  function FoundTarget(mv: Move, f: Found): string {
    match f
    case Wiki(_, l) => l.target
    case Markdown(_, l) => mv.unescape(l.path)
  }

  function NewText(mv: Move, f: Found): string {
    var newTarget := RewriteTarget(FoundTarget(mv, f), mv.newPath);
    match f
    case Wiki(_, l) => Print(l.(target := newTarget))
    case Markdown(_, l) => PrintMd(l.(path := EncodeMarkdownPath(mv, newTarget, l.path)))
  }

  /** What the loops of rewriteLine do with one pattern match. */
  function Decide(mv: Move, f: Found): Option<Match> {
    var target := FoundTarget(mv, f);
    var end := f.start + |FoundText(f)|;
    if !PointsAtMoved(mv, target) then None
    else if IsAmbiguous(mv, target) then Some(Match(f.start, end, FoundText(f), [], true))
    else Some(Match(f.start, end, FoundText(f), NewText(mv, f), false))
  }

  function Decided(mv: Move, found: seq<Found>): seq<Match> {
    if found == [] then
      []
    else
      var m := Decide(mv, found[|found| - 1]);
      Decided(mv, found[..|found| - 1]) + (if m.Some? then [m.value] else [])
  }

  /** The match list of a line: wikilinks first, then Markdown links, and so not always ascending. */
  function Matches(mv: Move, line: string): seq<Match> {
    Decided(mv, FindWiki(line, 0)) + Decided(mv, FindMarkdown(line, 0))
  }

  method DecideWikis(mv: Move, wikis: seq<Found>) returns (matches: seq<Match>)
    requires forall k | 0 <= k < |wikis| :: wikis[k].Wiki?
    ensures matches == Decided(mv, wikis)
  {
    hide RewriteTarget, Print, WithoutExt, BuildMatchTargets;
    var targets := BuildMatchTargets(mv.oldPath);
    matches := [];
    for i := 0 to |wikis|
      invariant matches == Decided(mv, wikis[..i])
    {
      assert wikis[..i + 1][..i] == wikis[..i];
      var Wiki(start, l) := wikis[i];
      var target := l.target;
      if !(target in targets) && !(WithoutExt(target) in targets) {
        continue;
      }
      var oldText := Print(l);
      if '/' !in target && IndexCount(mv, WithoutExt(target)) > 1 {
        matches := matches + [Match(start, start + |oldText|, oldText, "", true)];
        continue;
      }
      var newText := Print(l.(target := RewriteTarget(target, mv.newPath)));
      matches := matches + [Match(start, start + |oldText|, oldText, newText, false)];
    }
    assert wikis[..|wikis|] == wikis;
  }

  method DecideMarkdowns(mv: Move, markdowns: seq<Found>) returns (matches: seq<Match>)
    requires forall k | 0 <= k < |markdowns| :: markdowns[k].Markdown?
    ensures matches == Decided(mv, markdowns)
  {
    hide RewriteTarget, EncodeMarkdownPath, PrintMd, WithoutExt, BuildMatchTargets;
    var targets := BuildMatchTargets(mv.oldPath);
    matches := [];
    for i := 0 to |markdowns|
      invariant matches == Decided(mv, markdowns[..i])
    {
      assert markdowns[..i + 1][..i] == markdowns[..i];
      var Markdown(start, l) := markdowns[i];
      var decoded := mv.unescape(l.path);
      if !(decoded in targets) && !(WithoutExt(decoded) in targets) {
        continue;
      }
      var oldText := PrintMd(l);
      if '/' !in decoded && IndexCount(mv, WithoutExt(decoded)) > 1 {
        matches := matches + [Match(start, start + |oldText|, oldText, "", true)];
        continue;
      }
      var newTarget := EncodeMarkdownPath(mv, RewriteTarget(decoded, mv.newPath), l.path);
      var newText := PrintMd(l.(path := newTarget));
      matches := matches + [Match(start, start + |oldText|, oldText, newText, false)];
    }
    assert markdowns[..|markdowns|] == markdowns;
  }

  /** ok is false when an offset no longer fits the line, where the program would stop. */
  method RewriteLine(mv: Move, line: string) returns (result: string, rewrites: seq<LinkRewrite>, ok: bool)
    ensures var ms := Matches(mv, line);
            && RightToLeft(line, ms) == (if ok then Some(result) else None)
            && |rewrites| == |ms|
            && forall i | 0 <= i < |ms| ::
                 rewrites[i] == LinkRewrite(ms[i].oldText, ms[i].newText, ms[i].ambiguous)
  {
    hide FindWiki, FindMarkdown, Decided;
    OnlyWikis(line, 0);
    OnlyMarkdowns(line, 0);
    var matches := DecideWikis(mv, FindWiki(line, 0));
    var markdownMatches := DecideMarkdowns(mv, FindMarkdown(line, 0));
    matches := matches + markdownMatches;
    if matches == [] {
      return line, [], true;
    }
    rewrites := seq(|matches|, i requires 0 <= i < |matches| =>
      LinkRewrite(matches[i].oldText, matches[i].newText, matches[i].ambiguous));
    result, ok := SpliceRightToLeft(line, matches);
  }

  // ---------------------------------------------------------------- spans of the match list

  function FoundEnd(f: Found): nat {
    f.start + |FoundText(f)|
  }

  /** Pattern matches that follow each other from offset i on. */
  predicate FoundInOrder(line: string, found: seq<Found>, i: nat) {
    found == []
    || (i <= found[0].start < FoundEnd(found[0]) <= |line|
        && FoundInOrder(line, found[1..], FoundEnd(found[0])))
  }

  predicate InOrder(line: string, ms: seq<Match>, i: nat) {
    ms == [] || (i <= ms[0].start < ms[0].end <= |line| && InOrder(line, ms[1..], ms[0].end))
  }

  lemma {:induction false} InOrderFromEarlier(line: string, ms: seq<Match>, i: nat)
    requires InOrder(line, ms, i)
    ensures forall k | 0 <= k < |ms| :: i <= ms[k].start < ms[k].end <= |line|
    ensures forall j, k | 0 <= j < k < |ms| :: ms[j].end <= ms[k].start
  {
    if ms != [] {
      InOrderFromEarlier(line, ms[1..], ms[0].end);
      assert forall k | 1 <= k < |ms| :: ms[k] == ms[1..][k - 1];
    }
  }

  lemma {:induction false} DecidedConcat(mv: Move, a: seq<Found>, b: seq<Found>)
    ensures Decided(mv, a + b) == Decided(mv, a) + Decided(mv, b)
    decreases |b|
  {
    hide Decide;
    if b == [] {
      assert a + b == a;
    } else {
      var n := |b| - 1;
      assert (a + b)[..|a + b| - 1] == a + b[..n];
      DecidedConcat(mv, a, b[..n]);
    }
  }

  lemma DecidedCons(mv: Move, f: Found, rest: seq<Found>)
    ensures Decided(mv, [f] + rest)
            == (if Decide(mv, f).Some? then [Decide(mv, f).value] else []) + Decided(mv, rest)
  {
    hide Decide;
    DecidedConcat(mv, [f], rest);
    assert [f][..0] == [];
    assert Decided(mv, []) == [];
  }

  lemma DecidedSpan(mv: Move, f: Found)
    requires Decide(mv, f).Some?
    ensures var m := Decide(mv, f).value;
            m.start == f.start && m.end == FoundEnd(f) && m.oldText == FoundText(f)
  {
    hide PointsAtMoved, IsAmbiguous, NewText;
  }

  lemma {:induction false} DecidedInOrder(mv: Move, line: string, found: seq<Found>, i: nat, from: nat)
    requires FoundInOrder(line, found, i) && from <= i
    ensures InOrder(line, Decided(mv, found), from)
    decreases |found|
  {
    hide Decide, FoundEnd;
    if found == [] {
    } else {
      var f := found[0];
      assert found == [f] + found[1..];
      DecidedCons(mv, f, found[1..]);
      if Decide(mv, f).Some? {
        DecidedSpan(mv, f);
        DecidedInOrder(mv, line, found[1..], FoundEnd(f), FoundEnd(f));
        assert Decided(mv, found)[1..] == Decided(mv, found[1..]);
      } else {
        DecidedInOrder(mv, line, found[1..], FoundEnd(f), from);
        assert Decided(mv, found) == Decided(mv, found[1..]);
      }
    }
  }

  lemma {:induction false} WikisInOrder(line: string, i: nat)
    ensures FoundInOrder(line, FindWiki(line, i), i)
    decreases |line| - i
  {
    hide Print, ReadLink;
    if i < |line| {
      var l := ReadLink(line[i..]);
      if l.Some? {
        ReadsWhatIsThere(line[i..]);
        PrintNotEmpty(l.value);
        WikisInOrder(line, i + |Print(l.value)|);
        assert FindWiki(line, i)[1..] == FindWiki(line, i + |Print(l.value)|);
      } else {
        WikisInOrder(line, i + 1);
        InOrderFrom(line, FindWiki(line, i + 1), i + 1, i);
      }
    }
  }

  lemma InOrderFrom(line: string, found: seq<Found>, i: nat, from: nat)
    requires FoundInOrder(line, found, i) && from <= i
    ensures FoundInOrder(line, found, from)
  {
  }

  lemma {:induction false} MarkdownsInOrder(line: string, i: nat)
    ensures FoundInOrder(line, FindMarkdown(line, i), i)
    decreases |line| - i
  {
    hide PrintMd, ReadMd;
    if i < |line| {
      var l := ReadMd(line[i..]);
      if l.Some? {
        MdFits(line, i);
        MarkdownsInOrder(line, i + |PrintMd(l.value)|);
        assert FindMarkdown(line, i)[1..] == FindMarkdown(line, i + |PrintMd(l.value)|);
      } else {
        MarkdownsInOrder(line, i + 1);
        InOrderFrom(line, FindMarkdown(line, i + 1), i + 1, i);
      }
    }
  }

  lemma WikiSpansInOrder(mv: Move, line: string, i: nat)
    ensures InOrder(line, Decided(mv, FindWiki(line, i)), i)
  {
    WikisInOrder(line, i);
    DecidedInOrder(mv, line, FindWiki(line, i), i, i);
  }

  predicate AllBefore(ws: seq<Match>, mds: seq<Match>) {
    forall j, k | 0 <= j < |ws| && 0 <= k < |mds| && !ws[j].ambiguous && !mds[k].ambiguous ::
      ws[j].end <= mds[k].start
  }

  lemma ConcatAscends(line: string, ws: seq<Match>, mds: seq<Match>)
    requires InOrder(line, ws, 0) && InOrder(line, mds, 0)
    ensures InLine(line, ws + mds)
    ensures Ascending(ws + mds) <==> AllBefore(ws, mds)
  {
    hide InOrder;
    InOrderFromEarlier(line, ws, 0);
    InOrderFromEarlier(line, mds, 0);
    var ms := ws + mds;
    if Ascending(ms) {
      forall j, k | 0 <= j < |ws| && 0 <= k < |mds| && !ws[j].ambiguous && !mds[k].ambiguous
        ensures ws[j].end <= mds[k].start
      {
        assert ms[j] == ws[j] && ms[|ws| + k] == mds[k];
      }
    }
  }

  /**
   The list is ascending, and the rewrite therefore a simultaneous substitution of all spans, exactly
   when every written Markdown link stands behind every written wikilink.
   */
  lemma AscendingIffMarkdownLast(mv: Move, line: string)
    ensures InLine(line, Matches(mv, line))
    ensures Ascending(Matches(mv, line))
            <==> AllBefore(Decided(mv, FindWiki(line, 0)), Decided(mv, FindMarkdown(line, 0)))
  {
    hide FindWiki, FindMarkdown, Decided, Ascending, AllBefore, InLine;
    WikisInOrder(line, 0);
    MarkdownsInOrder(line, 0);
    DecidedInOrder(mv, line, FindWiki(line, 0), 0, 0);
    DecidedInOrder(mv, line, FindMarkdown(line, 0), 0, 0);
    ConcatAscends(line, Decided(mv, FindWiki(line, 0)), Decided(mv, FindMarkdown(line, 0)));
  }

  lemma RewriteIsSubstitution(mv: Move, line: string)
    requires Ascending(Matches(mv, line))
    ensures SpliceIsSubstitution(line, Matches(mv, line))
  {
    AscendingIffMarkdownLast(mv, line);
    AscendingIsSubstitution(line, Matches(mv, line));
  }

  // ---------------------------------------------------------------- when the program stops

  /** Entries in order can take from the line no more than they cover. */
  lemma {:induction false} GrowthBehind(ms: seq<Match>, k: nat, n: nat)
    requires k < n <= |ms|
    requires forall j | 0 <= j < |ms| :: ms[j].start < ms[j].end
    requires forall i, j | 0 <= i < j < |ms| :: ms[i].end <= ms[j].start
    ensures Growth(ms[..n]) - Growth(ms[..k + 1]) >= ms[k].end - ms[n - 1].end
    decreases n
  {
    if k + 1 < n {
      assert ms[..n][..n - 1] == ms[..n - 1];
      GrowthBehind(ms, k, n - 1);
    }
  }

  /** In an ordered list inside a text every entry fits in its turn. */
  lemma OrderedFits(line: string, ms: seq<Match>, k: nat)
    requires InOrder(line, ms, 0) && k < |ms|
    ensures FitsInTurn(|line|, ms, k)
  {
    InOrderFromEarlier(line, ms, 0);
    GrowthBehind(ms, k, |ms|);
    assert ms[..|ms|] == ms;
  }

  /** Some written wikilink ends behind what the Markdown links, which are written first, leave of the line. */
  predicate Overruns(ws: seq<Match>, length: int) {
    exists k :: 0 <= k < |ws| && !ws[k].ambiguous && ws[k].end > length
  }

  /** Where the entries in front are in order too, only their last written one can fail to fit. */
  lemma FrontFitsIff(line: string, ws: seq<Match>, length: int)
    requires InOrder(line, ws, 0)
    ensures AllFit(length, ws) <==> !Overruns(ws, length)
  {
    hide Growth;
    InOrderFromEarlier(line, ws, 0);
    if k: nat :| k < |ws| && !ws[k].ambiguous && ws[k].end > length {
      var last := LastWritten(ws, k);
      NothingBehindLast(ws, last, |ws|);
      assert ws[..|ws|] == ws;
      assert ws[k].end <= ws[last].end;
      assert !FitsInTurn(length, ws, last);
    } else {
      forall k | 0 <= k < |ws| ensures FitsInTurn(length, ws, k) {
        if !ws[k].ambiguous {
          var last := LastWritten(ws, k);
          GrowthBehind(ws, k, last + 1);
          NothingBehindLast(ws, last, |ws|);
          assert ws[..|ws|] == ws;
          assert ws[last].end <= length;
        }
      }
    }
  }

  lemma {:induction false} LastWritten(ws: seq<Match>, k: nat) returns (last: nat)
    requires k < |ws| && !ws[k].ambiguous
    ensures k <= last < |ws| && !ws[last].ambiguous
    ensures forall j | last < j < |ws| :: ws[j].ambiguous
    decreases |ws| - k
  {
    if j: nat :| k < j < |ws| && !ws[j].ambiguous {
      last := LastWritten(ws, j);
    } else {
      last := k;
    }
  }

  lemma {:induction false} NothingBehindLast(ws: seq<Match>, last: nat, n: nat)
    requires last < n <= |ws| && forall j | last < j < |ws| :: ws[j].ambiguous
    ensures Growth(ws[..n]) == Growth(ws[..last + 1])
    decreases n
  {
    if last + 1 < n {
      assert ws[..n][..n - 1] == ws[..n - 1];
      NothingBehindLast(ws, last, n - 1);
    }
  }

  /**
   The program stops on a line exactly when some written wikilink ends behind the length the line has once
   its Markdown links are rewritten; with Markdown links that do not shrink on the whole it never stops.
   */
  lemma StopsIff(mv: Move, line: string)
    ensures var ws, mds := Decided(mv, FindWiki(line, 0)), Decided(mv, FindMarkdown(line, 0));
            && (RightToLeft(line, Matches(mv, line)).None? <==> Overruns(ws, |line| + Growth(mds)))
            && (Growth(mds) >= 0 ==> RightToLeft(line, Matches(mv, line)).Some?)
  {
    hide FindWiki, FindMarkdown, Decided, RightToLeft, Growth, InOrder, FitsInTurn, AllFit;
    var ws, mds := Decided(mv, FindWiki(line, 0)), Decided(mv, FindMarkdown(line, 0));
    WikiSpansInOrder(mv, line, 0);
    MarkdownSpansInOrder(mv, line);
    ConcatFits(line, ws, mds);
    FrontFitsIff(line, ws, |line| + Growth(mds));
    InOrderFromEarlier(line, ws, 0);
    SpansAreOrdered(line, ws, mds);
    SplicesIffAllFit(line, ws + mds);
  }

  lemma SpansAreOrdered(line: string, ws: seq<Match>, mds: seq<Match>)
    requires InOrder(line, ws, 0) && InOrder(line, mds, 0)
    ensures forall k | 0 <= k < |ws + mds| :: (ws + mds)[k].start <= (ws + mds)[k].end
  {
    InOrderFromEarlier(line, ws, 0);
    InOrderFromEarlier(line, mds, 0);
  }

  lemma MarkdownSpansInOrder(mv: Move, line: string)
    ensures InOrder(line, Decided(mv, FindMarkdown(line, 0)), 0)
  {
    MarkdownsInOrder(line, 0);
    DecidedInOrder(mv, line, FindMarkdown(line, 0), 0, 0);
  }

  lemma ConcatFits(line: string, ws: seq<Match>, mds: seq<Match>)
    requires InOrder(line, mds, 0)
    ensures AllFit(|line|, ws + mds) <==> AllFit(|line| + Growth(mds), ws)
  {
    hide Growth, InOrder, FitsInTurn;
    var ms, length := ws + mds, |line| + Growth(mds);
    forall k | 0 <= k < |ws| ensures FitsInTurn(|line|, ms, k) == FitsInTurn(length, ws, k) {
      FitsInFront(|line|, ws, mds, k);
    }
    forall k | |ws| <= k < |ms| ensures FitsInTurn(|line|, ms, k) {
      FitsBehind(|line|, ws, mds, k - |ws|);
      OrderedFits(line, mds, k - |ws|);
    }
    if AllFit(|line|, ms) {
      forall k | 0 <= k < |ws| ensures FitsInTurn(length, ws, k) {
        assert FitsInTurn(|line|, ms, k);
      }
    }
  }

  lemma FitsInFront(length: int, ws: seq<Match>, mds: seq<Match>, k: nat)
    requires k < |ws|
    ensures FitsInTurn(length, ws + mds, k) == FitsInTurn(length + Growth(mds), ws, k)
  {
    hide Growth;
    GrowthConcat(ws, mds);
    assert (ws + mds)[..k + 1] == ws[..k + 1];
  }

  lemma FitsBehind(length: int, ws: seq<Match>, mds: seq<Match>, k: nat)
    requires k < |mds|
    ensures FitsInTurn(length, ws + mds, |ws| + k) == FitsInTurn(length, mds, k)
  {
    hide Growth;
    GrowthConcat(ws, mds);
    GrowthConcat(ws, mds[..k + 1]);
    assert (ws + mds)[..|ws| + k + 1] == ws + mds[..k + 1];
  }

  /**
   Whatever the new texts of the links, the line is rewritten right exactly when every written Markdown
   link stands behind every written wikilink; a wikilink inside a Markdown link's fragment does not.
   */
  lemma RewriteRightIffMarkdownLast(mv: Move, line: string)
    ensures (forall texts: seq<string> | |texts| == |Matches(mv, line)| ::
               SpliceIsSubstitution(line, WithTexts(Matches(mv, line), texts)))
            <==> AllBefore(Decided(mv, FindWiki(line, 0)), Decided(mv, FindMarkdown(line, 0)))
  {
    hide Matches, Decided, FindWiki, FindMarkdown, SpliceIsSubstitution, Ascending, InLine, AllBefore;
    AscendingIffMarkdownLast(mv, line);
    SplicesRightIffAscending(line, Matches(mv, line));
  }

  // ---------------------------------------------------------------- lines with only wikilinks

  /** A scanned line with the target of each unambiguous link to the moved note replaced. */
  function Redirect(mv: Move, p: Piece): Piece {
    match p
    case Text(_) => p
    case Linked(l) =>
      var target := l.target;
      if PointsAtMoved(mv, target) && !IsAmbiguous(mv, target) then
        Linked(l.(target := RewriteTarget(target, mv.newPath)))
      else
        p
  }

  function Redirected(mv: Move, pieces: seq<Piece>): seq<Piece> {
    seq(|pieces|, i requires 0 <= i < |pieces| => Redirect(mv, pieces[i]))
  }

  lemma RedirectedCons(mv: Move, p: Piece, rest: seq<Piece>)
    ensures Redirected(mv, [p] + rest) == [Redirect(mv, p)] + Redirected(mv, rest)
  {
    hide Redirect;
  }

  /** Positions at which no written span begins are copied. */
  lemma {:induction false} CopiesSpan(line: string, ms: seq<Match>, i: nat, j: nat)
    requires i <= j <= |line|
    requires forall k | 0 <= k < |ms| :: ms[k].ambiguous || ms[k].start < i || j <= ms[k].start
    ensures Substituted(line, ms, i) == line[i..j] + Substituted(line, ms, j)
    decreases j - i
  {
    if i < j {
      var k := SpanAtFinds(ms, i);
      hide SpanAt;
      CopiesSpan(line, ms, i + 1, j);
      assert line[i..j] == [line[i]] + line[i + 1..j];
      Regroup([line[i]], line[i + 1..j], Substituted(line, ms, j));
    } else {
      assert line[i..j] + Substituted(line, ms, j) == Substituted(line, ms, j);
    }
  }

  lemma {:induction false} SpanAtCons(m: Match, rest: seq<Match>, i: nat)
    ensures SpanAt([m] + rest, i)
            == if SpanAt(rest, i).Some? || m.ambiguous || m.start != i then SpanAt(rest, i) else Some(m)
    decreases |rest|
  {
    if rest == [] {
      assert [m] + rest == [m] && [m][..0] == [];
    } else {
      var n := |rest| - 1;
      assert ([m] + rest)[..|rest|] == [m] + rest[..n];
      SpanAtCons(m, rest[..n], i);
    }
  }

  /** A span in front of position i plays no part from i on. */
  lemma {:induction false} SubstitutedForgets(line: string, m: Match, rest: seq<Match>, i: nat)
    requires m.ambiguous || m.start < i
    ensures Substituted(line, [m] + rest, i) == Substituted(line, rest, i)
    decreases |line| - i
  {
    if i < |line| {
      SpanAtCons(m, rest, i);
      var s := SpanAt(rest, i);
      SubstitutedForgets(line, m, rest, if s.Some? && i < s.value.end then s.value.end else i + 1);
    }
  }

  /** The first span of a list in order is written, or copied when it is ambiguous. */
  lemma SubstitutedAtFirst(line: string, m: Match, rest: seq<Match>)
    requires m.start < m.end <= |line| && InOrder(line, rest, m.end)
    ensures Substituted(line, [m] + rest, m.start)
            == (if m.ambiguous then line[m.start..m.end] else m.newText) + Substituted(line, rest, m.end)
  {
    InOrderFromEarlier(line, rest, m.end);
    SpanAtCons(m, rest, m.start);
    var k := SpanAtFinds(rest, m.start);
    SubstitutedForgets(line, m, rest, m.end);
    if m.ambiguous {
      SubstitutedForgets(line, m, rest, m.start);
      CopiesSpan(line, rest, m.start, m.end);
    }
  }

  /** Substituting the wikilink matches prints the redirected pieces. */
  lemma {:induction false} SubstitutionPrintsPieces(mv: Move, line: string, i: nat)
    requires i <= |line|
    ensures Substituted(line, Decided(mv, FindWiki(line, i)), i) == PrintAll(Redirected(mv, Scan(line[i..])))
    decreases |line| - i
  {
    hide Decided, Decide, Print, ReadLink, Redirect, Substituted;
    var s := line[i..];
    if i == |line| {
      SubstitutedAtEnd(line, Decided(mv, FindWiki(line, i)));
    } else if ReadLink(s).Some? {
      var l := ReadLink(s).value;
      ReadsWhatIsThere(s);
      PrintNotEmpty(l);
      var end := i + |Print(l)|;
      assert s[|Print(l)|..] == line[end..] && line[i..end] == Print(l);
      SubstitutionPrintsPieces(mv, line, end);
      RedirectedCons(mv, Linked(l), Scan(line[end..]));
      SubstitutionAtLink(mv, line, l, i);
    } else {
      assert s[1..] == line[i + 1..] && line[i..i + 1] == [line[i]];
      SubstitutionPrintsPieces(mv, line, i + 1);
      RedirectedCons(mv, Text(line[i]), Scan(line[i + 1..]));
      RedirectText(mv, line[i]);
      WikiSpansInOrder(mv, line, i + 1);
      InOrderFromEarlier(line, Decided(mv, FindWiki(line, i + 1)), i + 1);
      CopiesSpan(line, Decided(mv, FindWiki(line, i + 1)), i, i + 1);
    }
  }

  lemma SubstitutedAtEnd(line: string, ms: seq<Match>)
    ensures Substituted(line, ms, |line|) == []
  {
  }

  lemma SubstitutionAtLink(mv: Move, line: string, l: Link, i: nat)
    requires i < i + |Print(l)| <= |line| && line[i..i + |Print(l)|] == Print(l)
    requires FindWiki(line, i) == [Wiki(i, l)] + FindWiki(line, i + |Print(l)|)
    ensures var end := i + |Print(l)|;
            Substituted(line, Decided(mv, FindWiki(line, i)), i)
            == PrintPiece(Redirect(mv, Linked(l))) + Substituted(line, Decided(mv, FindWiki(line, end)), end)
  {
    hide Print, Decided, Decide, Redirect, FindWiki, Substituted, InOrder, PrintPiece;
    var f := Wiki(i, l);
    var end := i + |Print(l)|;
    var rest := Decided(mv, FindWiki(line, end));
    WikiSpansInOrder(mv, line, end);
    DecidedCons(mv, f, FindWiki(line, end));
    DecidedIsRedirect(mv, i, l);
    var d := Decide(mv, f);
    if d.Some? {
      SubstitutedAtFirst(line, d.value, rest);
    } else {
      assert [] + rest == rest;
      InOrderFromEarlier(line, rest, end);
      CopiesSpan(line, rest, i, end);
    }
  }

  lemma RedirectText(mv: Move, c: char)
    ensures Redirect(mv, Text(c)) == Text(c)
  {
  }

  lemma DecidedIsRedirect(mv: Move, i: nat, l: Link)
    ensures var d := Decide(mv, Wiki(i, l));
            var redirected := PrintPiece(Redirect(mv, Linked(l)));
            && (d.Some? ==> d.value.start == i && d.value.end == i + |Print(l)|)
            && redirected == if d.Some? && !d.value.ambiguous then d.value.newText else Print(l)
  {
    hide Print, RewriteTarget;
  }

  lemma FreeSuffix(s: string, suffix: string, stops: set<char>)
    requires Free(s, stops) && |suffix| <= |s| && suffix == s[|s| - |suffix|..]
    ensures Free(suffix, stops)
  {
  }

  lemma FreePrefix(s: string, prefix: string, stops: set<char>)
    requires Free(s, stops) && prefix <= s
    ensures Free(prefix, stops)
  {
  }

  /** Every name of a note is made of the characters of its path. */
  lemma NewTargetIsFree(oldTarget: string, newPath: string, stops: set<char>)
    requires Free(newPath, stops) && newPath != [] && '.' !in stops && '/' !in stops
    ensures Free(RewriteTarget(oldTarget, newPath), stops)
  {
    hide Free, Ext, TrimSlashes, LastElement;
    var base := Base(newPath);
    var p := TrimSlashes(newPath);
    FreePrefix(newPath, p, stops);
    if p != [] {
      FreeSuffix(p, base, stops);
    } else {
      SlashIsFree(stops);
    }
    FreePrefix(base, Stem(newPath), stops);
    FreePrefix(newPath, WithoutExt(newPath), stops);
  }

  lemma SlashIsFree(stops: set<char>)
    requires '/' !in stops
    ensures Free("/", stops)
  {
  }

  /** Every name of a note whose path has no brackets, bars or hashes is a valid target. */
  lemma NewTargetIsValid(oldTarget: string, newPath: string)
    requires Free(newPath, {']', '|', '#'}) && Stem(newPath) != []
    ensures ValidTarget(RewriteTarget(oldTarget, newPath))
  {
    hide Free, Ext, TrimSlashes, LastElement, Stem, WithoutExt;
    StemNeedsName(newPath);
    NewTargetIsFree(oldTarget, newPath, {']', '|', '#'});
  }

  /** A path with a stem has text in front of its extension. */
  lemma StemNeedsName(path: string)
    requires Stem(path) != []
    ensures path != [] && WithoutExt(path) != []
  {
    hide Ext, Stem;
    NothingHasNoStem();
    TrimmedExt(path);
    if path != [] && WithoutExt(path) == [] {
      OnlyExtHasNoStem(path);
    }
  }

  lemma NothingHasNoStem()
    ensures Stem([]) == []
  {
    assert Ext(".") == ".";
    TrimmedSuffix([], ".");
    assert [] + "." == ".";
  }

  lemma OnlyExtHasNoStem(path: string)
    requires path != [] && path == Ext(path)
    ensures Stem(path) == []
  {
    hide Ext;
    NoSlashInExt(path);
    assert path[|path| - 1] in path;
    assert TrimSlashes(path) == path;
    LastElementIsAll(path);
    assert Base(path) == path;
    TrimmedSuffix([], path);
    assert [] + path == path;
  }

  lemma {:induction false} NoSlashInExt(path: string)
    ensures '/' !in Ext(path)
  {
    if path != [] && path[|path| - 1] != '/' && path[|path| - 1] != '.' {
      NoSlashInExt(path[..|path| - 1]);
    }
  }

  lemma {:induction false} LastElementIsAll(path: string)
    requires '/' !in path
    ensures LastElement(path) == path
  {
    if path != [] {
      assert path[|path| - 1] in path;
      LastElementIsAll(path[..|path| - 1]);
    }
  }

  /** Every link of the line that is redirected gets a valid target. */
  predicate RedirectsValidly(mv: Move, line: string) {
    forall p | p in Scan(line) && p.Linked? ::
      PointsAtMoved(mv, p.link.target) && !IsAmbiguous(mv, p.link.target) ==>
        ValidTarget(RewriteTarget(p.link.target, mv.newPath))
  }

  lemma RedirectedTargets(mv: Move, line: string)
    ensures SameButTargets(Scan(line), Redirected(mv, Scan(line)))
    ensures ValidTargets(Redirected(mv, Scan(line))) <==> RedirectsValidly(mv, line)
  {
    hide Scan, PointsAtMoved, IsAmbiguous, RewriteTarget, ValidTarget;
    var before, pieces := Scan(line), Redirected(mv, Scan(line));
    ScannedTargetsAreValid(line);
    if ValidTargets(pieces) {
      forall p | p in before && p.Linked? && PointsAtMoved(mv, p.link.target) && !IsAmbiguous(mv, p.link.target)
        ensures ValidTarget(RewriteTarget(p.link.target, mv.newPath))
      {
        var i :| 0 <= i < |before| && before[i] == p;
        assert pieces[i].Linked? && ValidTarget(pieces[i].link.target);
      }
    }
    if RedirectsValidly(mv, line) {
      forall i | 0 <= i < |pieces| && pieces[i].Linked? ensures ValidTarget(pieces[i].link.target) {
        assert before[i] in before && before[i].Linked?;
        assert ValidTarget(before[i].link.target);
      }
    }
  }

  /**
   On a line whose Markdown links do not point at the moved note, the rewrite prints the redirected
   pieces, and scanning the result finds exactly those pieces again - the same links in the same order,
   bangs, anchors and aliases as they were, no new link anywhere - if and only if the new targets are valid.
   */
  lemma RewriteKeepsLinksIff(mv: Move, line: string)
    requires Decided(mv, FindMarkdown(line, 0)) == []
    ensures var pieces := Redirected(mv, Scan(line));
            && RightToLeft(line, Matches(mv, line)) == Some(PrintAll(pieces))
            && SameButTargets(Scan(line), pieces)
            && (Scan(PrintAll(pieces)) == pieces <==> RedirectsValidly(mv, line))
  {
    hide FindWiki, FindMarkdown, Redirected, RedirectsValidly, Decided, Scan, PrintAll, SameButTargets, ValidTargets,
         RightToLeft, Substituted, Ascending, InLine;
    var ws := Decided(mv, FindWiki(line, 0));
    assert Matches(mv, line) == ws;
    AscendingIffMarkdownLast(mv, line);
    RewriteIsSubstitution(mv, line);
    assert line[0..] == line;
    SubstitutionPrintsPieces(mv, line, 0);
    RedirectedTargets(mv, line);
    RescansIffValid(line, Redirected(mv, Scan(line)));
  }

  /** In particular for every new path without brackets, bars and hashes that has a stem. */
  lemma RewriteKeepsLinks(mv: Move, line: string)
    requires Decided(mv, FindMarkdown(line, 0)) == []
    requires Free(mv.newPath, {']', '|', '#'}) && Stem(mv.newPath) != []
    ensures var pieces := Redirected(mv, Scan(line));
            && RightToLeft(line, Matches(mv, line)) == Some(PrintAll(pieces))
            && Retargeted(Scan(line), pieces)
            && Scan(PrintAll(pieces)) == pieces
  {
    hide FindMarkdown, Redirected, Decided, Scan, PrintAll, SameButTargets, ValidTargets, RightToLeft, Matches,
         RewriteTarget, PointsAtMoved, IsAmbiguous, Free, Stem;
    forall p | p in Scan(line) && p.Linked? ensures ValidTarget(RewriteTarget(p.link.target, mv.newPath)) {
      NewTargetIsValid(p.link.target, mv.newPath);
    }
    RewriteKeepsLinksIff(mv, line);
    RedirectedTargets(mv, line);
  }

  /** A hash in the new name is what breaks it in practice: the name is read as a target and an anchor. */
  lemma HashNameIsNoTarget(mv: Move, line: string, p: Piece)
    requires p in Scan(line) && p.Linked? && PointsAtMoved(mv, p.link.target) && !IsAmbiguous(mv, p.link.target)
    requires '#' in Stem(mv.newPath)
    ensures !RedirectsValidly(mv, line)
  {
    hide Scan, PointsAtMoved, IsAmbiguous, Ext;
    HashStaysInTarget(p.link.target, mv.newPath);
    var target := RewriteTarget(p.link.target, mv.newPath);
    var k :| 0 <= k < |target| && target[k] == '#';
    assert !Free(target, {']', '|', '#'});
  }

  lemma {:induction false} ExtOfLastElement(path: string)
    ensures Ext(LastElement(path)) == Ext(path)
  {
    hide Ext, LastElement;
    NoExtAtSlash(path);
    if path != [] {
      var front, c := path[..|path| - 1], path[|path| - 1];
      assert path == front + [c];
      LastSnoc(front, c);
      ExtSnoc(front, c);
      if c != '/' {
        ExtOfLastElement(front);
        ExtSnoc(LastElement(front), c);
      }
    }
  }

  lemma NoExtAtSlash(path: string)
    ensures Ext([]) == [] && LastElement([]) == []
    ensures path != [] && path[|path| - 1] == '/' ==> Ext(path) == []
  {
  }

  lemma {:induction false} LastSnoc(s: string, c: char)
    ensures LastElement(s + [c]) == if c == '/' then [] else LastElement(s) + [c]
  {
    assert (s + [c])[..|s|] == s;
  }

  lemma {:induction false} ExtSnoc(s: string, c: char)
    ensures Ext(s + [c]) == if c == '/' then [] else if c == '.' then "." else if Ext(s) == [] then [] else Ext(s) + [c]
  {
    assert (s + [c])[..|s|] == s;
  }

  lemma InPart(c: char, part: string, s: string, i: nat)
    requires i + |part| <= |s| && part == s[i..i + |part|] && c in part
    ensures c in s
  {
    var k :| 0 <= k < |part| && part[k] == c;
    assert s[i + k] == c;
  }

  lemma HashInBase(path: string)
    requires '#' in Stem(path)
    ensures '#' in Base(path) && path != [] && TrimSlashes(path) != []
  {
    hide Ext, LastElement, TrimSlashes;
    InPart('#', Stem(path), Base(path), 0);
    PunctuationHasNoHash();
  }

  lemma PunctuationHasNoHash()
    ensures '#' !in "." && '#' !in "/"
  {
  }

  lemma BaseIsLastElement(path: string)
    requires path != [] && TrimSlashes(path) != []
    ensures Base(path) == LastElement(TrimSlashes(path)) && TrimSlashes(path) <= path
    ensures Stem(path) == TrimSuffix(Base(path), Ext(Base(path)))
  {
  }

  lemma HashInPath(path: string)
    requires '#' in Stem(path)
    ensures '#' in path && '#' in WithoutExt(path)
  {
    hide *;
    HashInBase(path);
    BaseIsLastElement(path);
    var p := TrimSlashes(path);
    var base := LastElement(p);
    InPart('#', base, p, |p| - |base|);
    InPart('#', p, path, 0);
    ExtOfLastElement(p);
    HashInFront(p, base);
    TrimmedOrNoExt(path);
  }

  /** All four styles of target contain the stem. */
  lemma HashStaysInTarget(oldTarget: string, newPath: string)
    requires '#' in Stem(newPath)
    ensures '#' in RewriteTarget(oldTarget, newPath)
  {
    hide Ext, Base, Stem, WithoutExt, TrimSlashes;
    HashInBase(newPath);
    HashInPath(newPath);
  }

  lemma HashInFront(p: string, base: string)
    requires |base| <= |p| && base == p[|p| - |base|..] && Ext(base) == Ext(p)
    requires '#' in TrimSuffix(base, Ext(base))
    ensures '#' in TrimSuffix(p, Ext(p))
  {
    hide Ext;
    TrimmedExt(base);
    TrimmedExt(p);
    var stem := TrimSuffix(base, Ext(base));
    var k :| 0 <= k < |stem| && stem[k] == '#';
    assert TrimSuffix(p, Ext(p))[|p| - |base| + k] == '#';
  }

  lemma TrimmedOrNoExt(path: string)
    ensures if TrimSlashes(path) == path then WithoutExt(path) == TrimSuffix(path, Ext(path)) else WithoutExt(path) == path
  {
    assert TrimSlashes(path) != path ==> Ext(path) == [];
  }
}
