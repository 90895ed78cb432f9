/**
 The grammar of Markdown links to .md files (internal/vault/linkrewrite.go:23), scanned leftmost first and
 not overlapping, and the proof that rewriting their paths keeps the link structure of a line.
 */
module MarkdownLinks {
  import opened Wrappers
  import opened Lines
  import opened FilePaths
  import opened Wikilinks
  import opened Splice
  import opened LinkRewrite

  predicate ValidPath(path: string) {
    |path| > 3 && path[|path| - 3..] == ".md" && Free(path, {')', '#'})
  }

  predicate ValidFragment(fragment: string) {
    fragment != [] ==> fragment[0] == '#' && Free(fragment[1..], {')'})
  }

  predicate ValidMd(l: MdLink) {
    Free(l.text, {']'}) && ValidPath(l.path) && ValidFragment(l.fragment)
  }

  // ---------------------------------------------------------------- reading one link

  lemma ReadsValidMd(s: string)
    requires ReadMd(s).Some?
    ensures ValidMd(ReadMd(s).value) && PrintMd(ReadMd(s).value) <= s && |PrintMd(ReadMd(s).value)| > 0
  {
    hide Run, Group, Free;
    ReadsMdThatIsThere(s);
  }

  /** Printing a valid link and reading it back gives the link, whatever follows. */
  lemma ReadMdOfPrint(l: MdLink, after: string)
    requires ValidMd(l)
    ensures ReadMd(PrintMd(l) + after) == Some(l)
  {
    hide Run, Group, ReadMdAfterText, ValidPath, ValidFragment, Free;
    var tail := l.path + l.fragment + ")" + after;
    var s := PrintMd(l) + after;
    assert s == "[" + l.text + "](" + tail;
    assert s[1..] == l.text + ("](" + tail);
    RunIs(l.text, "](" + tail, {']'});
    assert s[1..][|l.text|..] == "](" + tail && ("](" + tail)[2..] == tail;
    TailIsRead(l, after);
  }

  lemma TailIsRead(l: MdLink, after: string)
    requires ValidMd(l)
    ensures ReadMdAfterText(l.text, l.path + l.fragment + ")" + after) == Some(l)
  {
    hide Run, Group, Free;
    var s1 := l.fragment + (")" + after);
    assert l.path + l.fragment + ")" + after == l.path + s1;
    PathEnds(l, after);
    assert (l.path + s1)[|l.path|..] == s1;
    assert s1[|l.fragment|..] == ")" + after;
  }

  lemma PathEnds(l: MdLink, after: string)
    requires ValidMd(l)
    ensures var s1 := l.fragment + (")" + after);
            Run(l.path + s1, {')', '#'}) == l.path && Group(s1, '#', {')'}) == l.fragment
  {
    hide Run, Group, Free;
    var s1 := l.fragment + (")" + after);
    assert s1[0] == ')' || s1[0] == '#';
    RunIs(l.path, s1, {')', '#'});
    GroupIs(l.fragment, ")" + after, '#', {')'});
  }

  // ---------------------------------------------------------------- when something is read

  /** Text and path of a link stand here, and behind them the end of the link, or a fragment that has one. */
  predicate HasShape(s: string, text: string, path: string) {
    var n := |text| + |path| + 3;
    && Free(text, {']'}) && ValidPath(path)
    && n < |s| && s[..n] == "[" + text + "](" + path
    && (s[n] == ')' || (s[n] == '#' && ')' in s[n..]))
  }

  lemma ShapeIsRead(s: string, text: string, path: string)
    requires HasShape(s, text, path)
    ensures ReadMd(s).Some?
  {
    hide Run, Free, ValidPath, ReadMdAfterText;
    var n := |text| + |path| + 3;
    var tail := s[n..];
    assert s == s[..n] + tail;
    assert s == "[" + text + "](" + path + tail;
    assert s[1..] == text + ("](" + (path + tail));
    RunIs(text, "](" + (path + tail), {']'});
    assert s[1..][|text|..] == "](" + (path + tail) && ("](" + (path + tail))[2..] == path + tail;
    PathIsRead(text, path, tail);
  }

  lemma PathIsRead(text: string, path: string, tail: string)
    requires ValidPath(path) && tail != [] && (tail[0] == ')' || (tail[0] == '#' && ')' in tail))
    ensures ReadMdAfterText(text, path + tail).Some?
  {
    hide Run, Group;
    RunIs(path, tail, {')', '#'});
    assert (path + tail)[|path|..] == tail;
    var g := Group(tail, '#', {')'});
    GroupStopsBefore(tail, g);
  }

  /** The group ends in front of the closing parenthesis there is. */
  lemma GroupStopsBefore(tail: string, g: string)
    requires ')' in tail && g <= tail && (g != [] ==> g[0] == '#' && Free(g[1..], {')'}))
    ensures |g| < |tail|
  {
    var k :| 0 <= k < |tail| && tail[k] == ')';
    assert |g| > k ==> g[k] == ')' && (k > 0 ==> g[1..][k - 1] == ')');
  }

  lemma ReadHasShape(s: string) returns (text: string, path: string)
    requires ReadMd(s).Some?
    ensures HasShape(s, text, path)
  {
    hide ReadMd, Free, ValidPath;
    ReadsValidMd(s);
    var l := ReadMd(s).value;
    text, path := l.text, l.path;
    var n := |text| + |path| + 3;
    var front := "[" + text + "](" + path;
    assert PrintMd(l) == front + (l.fragment + ")");
    assert s[..|PrintMd(l)|] == PrintMd(l);
    assert s[..n] == PrintMd(l)[..n] == front;
    assert s[n] == PrintMd(l)[n] == (l.fragment + ")")[0];
    assert s[n..][|l.fragment|] == PrintMd(l)[n + |l.fragment|] == ')';
  }

  // ---------------------------------------------------------------- the text in front of a link

  /**
   If no link is read in front of one link, none is read there when that link gets another path: a reading
   either ends in what both lines share, or runs through the path to its end, in both lines.
   */
  lemma NoMdInGap(g: string, l: MdLink, t: string, l': MdLink, t': string)
    requires ValidMd(l) && ValidMd(l') && l' == l.(path := l'.path) && g != []
    requires ReadMd(g + (PrintMd(l) + t)).None?
    ensures ReadMd(g + (PrintMd(l') + t')).None?
  {
    hide ReadMd, ValidMd, HasShape;
    var s, s' := g + (PrintMd(l) + t), g + (PrintMd(l') + t');
    if ReadMd(s').Some? {
      var text, path := ReadHasShape(s');
      var shared := g + "[" + l.text + "](";
      LinkParts(g, l, t);
      LinkParts(g, l', t');
      if |text| + |path| + 3 < |shared| {
        ShapeInShared(shared, l.path + l.fragment + ")" + t, l'.path + l'.fragment + ")" + t', text, path);
        ShapeIsRead(s, text, path);
      } else {
        var path2 := ShapeThroughPath(g, l, t, l', t', text, path);
        ShapeIsRead(s, text, path2);
      }
      assert false;
    }
  }

  lemma LinkParts(g: string, l: MdLink, t: string)
    ensures g + (PrintMd(l) + t) == g + "[" + l.text + "](" + (l.path + l.fragment + ")" + t)
  {
  }

  lemma ShapeInShared(shared: string, rest: string, rest': string, text: string, path: string)
    requires HasShape(shared + rest', text, path) && |text| + |path| + 3 < |shared| && ')' in rest
    ensures HasShape(shared + rest, text, path)
  {
    hide Free, ValidPath;
    var n := |text| + |path| + 3;
    var s, s' := shared + rest, shared + rest';
    assert s[..n] == shared[..n] == s'[..n] && s[n] == shared[n] == s'[n];
    var k :| 0 <= k < |rest| && rest[k] == ')';
    assert s[n..][|shared| - n + k] == ')';
  }

  lemma FreeAt(s: string, stops: set<char>, i: nat)
    requires Free(s, stops) && i < |s|
    ensures s[i] !in stops
  {
  }

  /** The path read runs from somewhere in front of the link to beyond its opening; so it does to its path's end. */
  lemma ShapeThroughPath(g: string, l: MdLink, t: string, l': MdLink, t': string, text: string, path: string)
    returns (path2: string)
    requires ValidMd(l) && l'.text == l.text && g != []
    requires HasShape(g + (PrintMd(l') + t'), text, path) && |text| + |path| + 3 >= |g| + |l.text| + 3
    ensures HasShape(g + (PrintMd(l) + t), text, path2)
  {
    hide PrintMd, ValidPath, Free;
    var shared := g + "[" + l.text + "](";
    LinkParts(g, l, t);
    LinkParts(g, l', t');
    var rest, rest' := l.path + (l.fragment + ")" + t), l'.path + l'.fragment + ")" + t';
    assert l.path + l.fragment + ")" + t == rest;
    var n := |text| + |path| + 3;
    var front := "[" + text + "](" + path;
    assert (shared + rest')[..n] == front;
    assert shared == front[..|shared|] && shared[|shared| - 2] == ']';
    var mid := OpeningInFront(shared, text, path);
    path2 := mid + l.path;
    LongerPathIsValid(path, mid, l.path);
    ShapeOf(text, path2, shared + l.path, l.fragment, t);
    assert (shared + l.path) + (l.fragment + ")" + t) == shared + rest;
    assert shared + l.path == "[" + text + "](" + (mid + l.path);
  }

  /** The text that is read ends at the first ']', so in what the lines share. */
  lemma OpeningInFront(shared: string, text: string, path: string) returns (mid: string)
    requires Free(text, {']'}) && shared <= "[" + text + "](" + path
    requires |shared| >= 3 && shared[|shared| - 2] == ']'
    ensures shared == "[" + text + "](" + mid && mid <= path
  {
    var front, b, r := "[" + text + "](" + path, |shared| - 2, |text| + 1;
    assert front[r] == ']' && front[b] == shared[b] == ']';
    forall k | 1 <= k < r ensures front[k] != ']' {
      assert front[k] == text[k - 1];
    }
    mid := shared[r + 2..];
    assert front[..r + 2] == "[" + text + "](";
    assert front[r + 2..] == path;
  }

  lemma ShapeOf(text: string, path: string, front: string, fragment: string, t: string)
    requires Free(text, {']'}) && ValidPath(path) && front == "[" + text + "](" + path
    requires fragment != [] ==> fragment[0] == '#'
    ensures HasShape(front + (fragment + ")" + t), text, path)
  {
    hide Free, ValidPath;
    var tail := fragment + ")" + t;
    assert (front + tail)[..|front|] == front && (front + tail)[|front|..] == tail;
    assert tail[|fragment|] == ')' && (front + tail)[|front|] == tail[0];
  }

  lemma LongerPathIsValid(path: string, mid: string, end: string)
    requires ValidPath(path) && mid <= path && ValidPath(end)
    ensures ValidPath(mid + end)
  {
    assert (mid + end)[|mid + end| - 3..] == end[|end| - 3..];
    forall k | 0 <= k < |mid + end| ensures (mid + end)[k] !in {')', '#'} {
      if k < |mid| {
        FreeAt(path, {')', '#'}, k);
      } else {
        FreeAt(end, {')', '#'}, k - |mid|);
      }
    }
  }

  // ---------------------------------------------------------------- the scan

  datatype MdPiece = Plain(c: char) | MdLinked(link: MdLink)

  function ScanMd(s: string): seq<MdPiece>
    decreases |s|
  {
    if s == [] then
      []
    else
      var l := ReadMd(s);
      if l.Some? then
        ReadsMdThatIsThere(s);
        [MdLinked(l.value)] + ScanMd(s[|PrintMd(l.value)|..])
      else
        [Plain(s[0])] + ScanMd(s[1..])
  }

  function PrintMdPiece(p: MdPiece): string {
    if p.Plain? then [p.c] else PrintMd(p.link)
  }

  function PrintMds(pieces: seq<MdPiece>): string {
    if pieces == [] then [] else PrintMdPiece(pieces[0]) + PrintMds(pieces[1..])
  }

  predicate ValidLinks(pieces: seq<MdPiece>) {
    forall i | 0 <= i < |pieces| :: pieces[i].MdLinked? ==> ValidMd(pieces[i].link)
  }

  lemma {:induction false} PrintOfScanMd(s: string)
    ensures PrintMds(ScanMd(s)) == s && ValidLinks(ScanMd(s))
    decreases |s|
  {
    hide ReadMd, PrintMd, ValidMd;
    if s != [] {
      var l := ReadMd(s);
      if l.Some? {
        ReadsValidMd(s);
        PrintOfScanMd(s[|PrintMd(l.value)|..]);
      } else {
        PrintOfScanMd(s[1..]);
      }
    }
  }

  /** The same pieces, except that links may have another path. */
  predicate SameButPaths(before: seq<MdPiece>, after: seq<MdPiece>) {
    && |after| == |before|
    && forall i | 0 <= i < |before| ::
         if before[i].Plain? then after[i] == before[i]
         else after[i].MdLinked? && after[i].link == before[i].link.(path := after[i].link.path)
  }

  /** The beginning of a piece list up to its first link. */
  function MdGap(pieces: seq<MdPiece>): (n: nat)
    ensures n <= |pieces|
    ensures forall i | 0 <= i < n :: pieces[i].Plain?
    ensures n < |pieces| ==> pieces[n].MdLinked?
  {
    if pieces != [] && pieces[0].Plain? then 1 + MdGap(pieces[1..]) else 0
  }

  lemma {:induction false} PrintMdsConcat(a: seq<MdPiece>, b: seq<MdPiece>)
    ensures PrintMds(a + b) == PrintMds(a) + PrintMds(b)
  {
    hide PrintMd;
    if a == [] {
      assert a + b == b;
    } else {
      assert (a + b)[1..] == a[1..] + b;
      PrintMdsConcat(a[1..], b);
    }
  }

  lemma NoNewMdAtText(before: seq<MdPiece>, after: seq<MdPiece>)
    requires before != [] && before[0].Plain? && SameButPaths(before, after)
    requires ValidLinks(before) && ValidLinks(after)
    requires ReadMd(PrintMds(before)).None?
    ensures ReadMd(PrintMds(after)).None?
  {
    hide ReadMd, PrintMd, ValidMd;
    var n := MdGap(before);
    if n == |before| {
      assert after == before;
    } else {
      var g := before[..n];
      assert after[..n] == g;
      assert before == g + before[n..] && after == g + after[n..];
      PrintMdsConcat(g, before[n..]);
      PrintMdsConcat(g, after[n..]);
      NoMdInGap(PrintMds(g), before[n].link, PrintMds(before[n..][1..]), after[n].link, PrintMds(after[n..][1..]));
    }
  }

  /**
   Reading a line with other paths finds the same links in the same order, texts and fragments as they were,
   and no link in the text between them.
   */
  lemma {:induction false} ScanOfRepathed(s: string, after: seq<MdPiece>)
    requires SameButPaths(ScanMd(s), after) && ValidLinks(after)
    ensures ScanMd(PrintMds(after)) == after
    decreases |s|
  {
    hide ReadMd, PrintMd, ValidMd;
    PrintOfScanMd(s);
    if s != [] {
      var before := ScanMd(s);
      var rest := PrintMds(after[1..]);
      if ReadMd(s).Some? {
        var l := ReadMd(s).value;
        ReadsMdThatIsThere(s);
        assert before[1..] == ScanMd(s[|PrintMd(l)|..]);
        ScanOfRepathed(s[|PrintMd(l)|..], after[1..]);
        ReadMdOfPrint(after[0].link, rest);
        PrintMdNotEmpty(after[0].link);
        assert (PrintMd(after[0].link) + rest)[|PrintMd(after[0].link)|..] == rest;
      } else {
        assert before[1..] == ScanMd(s[1..]);
        ScanOfRepathed(s[1..], after[1..]);
        NoNewMdAtText(before, after);
        assert PrintMds(after)[1..] == rest;
      }
    }
  }

  lemma PrintMdNotEmpty(l: MdLink)
    ensures |PrintMd(l)| > 0
  {
  }

  /** Exactly when the new paths are paths of the grammar. */
  lemma RescansMdIffValid(s: string, after: seq<MdPiece>)
    requires SameButPaths(ScanMd(s), after)
    ensures ScanMd(PrintMds(after)) == after <==> ValidLinks(after)
  {
    hide ScanMd, PrintMds, ValidLinks, SameButPaths;
    PrintOfScanMd(PrintMds(after));
    if ValidLinks(after) {
      ScanOfRepathed(s, after);
    }
  }
}
