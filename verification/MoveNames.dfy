/**
 The splice of rewriteLine with the texts the program writes (internal/vault/linkrewrite.go:202-275): a line
 is rewritten right under every new name of the moved note if and only if no written Markdown link begins in
 front of the end of a written wikilink. A name long enough tells all other lines apart.
 */
module MoveNames {
  import opened Wrappers
  import opened Lines
  import opened FilePaths
  import opened Wikilinks
  import opened Splice
  import opened LinkRewrite

  // ---------------------------------------------------------------- lengths

  /** What the written entries that begin from position i on add. */
  function Ahead(ms: seq<Match>, i: int): int {
    if ms == [] then 0
    else
      var m := ms[|ms| - 1];
      Ahead(ms[..|ms| - 1], i) + if !m.ambiguous && m.start >= i then Gain(m) else 0
  }

  predicate AllGain(ms: seq<Match>, least: nat) {
    forall k | 0 <= k < |ms| && !ms[k].ambiguous :: Gain(ms[k]) >= least
  }

  lemma {:induction false} AheadShrinks(ms: seq<Match>, i: int, i': int)
    requires AllGain(ms, 0) && i <= i'
    ensures 0 <= Ahead(ms, i') <= Ahead(ms, i) <= Growth(ms)
  {
    hide Gain;
    if ms != [] {
      AheadShrinks(ms[..|ms| - 1], i, i');
      assert ms[|ms| - 1].ambiguous ==> Gain(ms[|ms| - 1]) == 0 by { AmbiguousGainsNothing(ms[|ms| - 1]); }
    }
  }

  lemma AmbiguousGainsNothing(m: Match)
    ensures m.ambiguous ==> Gain(m) == 0
  {
  }

  lemma {:induction false} AheadDropsOne(ms: seq<Match>, i: int, i': int, k: nat)
    requires AllGain(ms, 0) && i <= i' && k < |ms| && !ms[k].ambiguous && i <= ms[k].start < i'
    ensures Ahead(ms, i') + Gain(ms[k]) <= Ahead(ms, i)
  {
    hide Gain;
    var n := |ms| - 1;
    if k == n {
      AheadShrinks(ms[..n], i, i');
    } else {
      AheadDropsOne(ms[..n], i, i', k);
    }
  }

  lemma {:induction false} AheadDropsTwo(ms: seq<Match>, i: int, i': int, j: nat, k: nat)
    requires AllGain(ms, 0) && i <= i' && j < |ms| && k < |ms| && j != k
    requires !ms[j].ambiguous && i <= ms[j].start < i' && !ms[k].ambiguous && i <= ms[k].start < i'
    ensures Ahead(ms, i') + Gain(ms[j]) + Gain(ms[k]) <= Ahead(ms, i)
  {
    hide Gain;
    var n := |ms| - 1;
    if k == n {
      AheadDropsOne(ms[..n], i, i', j);
    } else if j == n {
      AheadDropsOne(ms[..n], i, i', k);
    } else {
      AheadDropsTwo(ms[..n], i, i', j, k);
    }
  }

  lemma {:induction false} SubstitutedIsNoLonger(line: string, ms: seq<Match>, i: nat)
    requires InLine(line, ms) && AllGain(ms, 0) && i <= |line|
    ensures |Substituted(line, ms, i)| <= |line| - i + Ahead(ms, i)
    decreases |line| - i
  {
    hide Ahead;
    AheadShrinks(ms, i, i + 1);
    if i < |line| {
      var k := SpanIndex(ms, i);
      if k < |ms| {
        SubstitutedIsNoLonger(line, ms, ms[k].end);
        AheadDropsOne(ms, i, ms[k].end, k);
      } else {
        SubstitutedIsNoLonger(line, ms, i + 1);
      }
    }
  }

  /** What a span that is not come to would have added is missing. */
  lemma {:induction false} UnvisitedIsMissing(line: string, ms: seq<Match>, i: nat, j: nat)
    requires InLine(line, ms) && AllGain(ms, 0) && i <= |line|
    requires j < |ms| && !ms[j].ambiguous && i <= ms[j].start && !Visits(line, ms, i, j)
    ensures |Substituted(line, ms, i)| + Gain(ms[j]) <= |line| - i + Ahead(ms, i)
    decreases |line| - i
  {
    hide Ahead, Gain;
    var k := SpanIndex(ms, i);
    if k < |ms| {
      if ms[j].start >= ms[k].end {
        UnvisitedIsMissing(line, ms, ms[k].end, j);
        AheadDropsOne(ms, i, ms[k].end, k);
      } else {
        SubstitutedIsNoLonger(line, ms, ms[k].end);
        AheadDropsTwo(ms, i, ms[k].end, j, k);
      }
      GainMeans(ms[k]);
    } else {
      var l := SpanAtFinds(ms, i);
      UnvisitedIsMissing(line, ms, i + 1, j);
      AheadShrinks(ms, i, i + 1);
    }
  }

  lemma GainMeans(m: Match)
    ensures !m.ambiguous ==> |m.newText| == Gain(m) + (m.end - m.start)
  {
  }

  /** Overlapping spans that all grow make the splice longer than the substitution. */
  lemma OverlapIsLonger(line: string, ms: seq<Match>)
    requires InLine(line, ms) && AllGain(ms, 1) && !Disjoint(ms)
    ensures !SpliceIsSubstitution(line, ms)
  {
    hide Substituted, RightToLeft, Growth, Ahead;
    var i: nat, k: nat :| i < k < |ms| && !ms[i].ambiguous && !ms[k].ambiguous
                          && !(ms[i].end <= ms[k].start || ms[k].end <= ms[i].start);
    var j := if Visits(line, ms, 0, i) then k else i;
    if Visits(line, ms, 0, j) {
      VisitedAreDisjoint(line, ms, 0, i, k);
      assert false;
    }
    UnvisitedIsMissing(line, ms, 0, j);
    AheadShrinks(ms, 0, 0);
    SplicesIffAllFit(line, ms);
  }

  // ---------------------------------------------------------------- the last wikilink

  /** The splice leaves alone what lies behind all entries of an ordered list. */
  lemma {:induction false} SuffixStays(text: string, ms: seq<Match>, e: nat) returns (front: string)
    requires e <= |text|
    requires forall k | 0 <= k < |ms| :: ms[k].start < ms[k].end <= e
    requires forall i, j | 0 <= i < j < |ms| :: ms[i].end <= ms[j].start
    ensures RightToLeft(text, ms) == Some(front + text[e..])
    decreases |ms|
  {
    if ms == [] {
      front := text[..e];
      assert text == front + text[e..];
    } else {
      var n := |ms| - 1;
      var m := ms[n];
      if m.ambiguous {
        front := SuffixStays(text, ms[..n], e);
      } else {
        var next := text[..m.start] + m.newText + text[m.end..];
        var f := SuffixStays(next, ms[..n], m.start);
        front := f + m.newText + text[m.end..e];
        assert text[m.end..] == text[m.end..e] + text[e..];
        assert next[m.start..] == m.newText + text[m.end..];
        assert f + (m.newText + (text[m.end..e] + text[e..])) == f + m.newText + text[m.end..e] + text[e..];
      }
    }
  }

  /** Substitution goes through a position no span covers. */
  lemma {:induction false} SubstitutedSplits(line: string, ms: seq<Match>, i: nat, p: nat) returns (front: string)
    requires InLine(line, ms) && i <= p <= |line|
    requires forall k | 0 <= k < |ms| && !ms[k].ambiguous :: ms[k].end <= p || p <= ms[k].start
    ensures Substituted(line, ms, i) == front + Substituted(line, ms, p)
    ensures AllGain(ms, 0) ==> |front| >= p - i
    ensures forall j | 0 <= j < |ms| && !ms[j].ambiguous && AllGain(ms, 0) && Visits(line, ms, i, j) && ms[j].end <= p ::
              |front| >= p - i + Gain(ms[j])
    decreases p - i
  {
    if i == p {
      front := [];
      forall j: nat ensures Visits(line, ms, i, j) ==> j < |ms| && !ms[j].ambiguous && i <= ms[j].start {
        if Visits(line, ms, i, j) {
          VisitedIsAhead(line, ms, i, j);
        }
      }
    } else {
      var k := SpanIndex(ms, i);
      if k < |ms| {
        var f := SubstitutedSplits(line, ms, ms[k].end, p);
        front := ms[k].newText + f;
        assert front + Substituted(line, ms, p) == ms[k].newText + (f + Substituted(line, ms, p));
      } else {
        var f := SubstitutedSplits(line, ms, i + 1, p);
        front := [line[i]] + f;
        assert front + Substituted(line, ms, p) == [line[i]] + (f + Substituted(line, ms, p));
      }
    }
  }

  /** On disjoint spans every written one is come to. */
  lemma {:induction false} DisjointVisitsAll(line: string, ms: seq<Match>, i: nat, j: nat)
    requires InLine(line, ms) && Disjoint(ms) && j < |ms| && !ms[j].ambiguous && i <= ms[j].start
    ensures Visits(line, ms, i, j)
    decreases |line| - i
  {
    var k := SpanIndex(ms, i);
    if k < |ms| {
      if k != j {
        assert ms[k].end <= ms[j].start;
        DisjointVisitsAll(line, ms, ms[k].end, j);
      }
    } else {
      var l := SpanAtFinds(ms, i);
      DisjointVisitsAll(line, ms, i + 1, j);
    }
  }

  lemma {:induction false} SpanAtConcat(a: seq<Match>, b: seq<Match>, i: nat)
    ensures SpanAt(a + b, i) == if SpanAt(b, i).Some? then SpanAt(b, i) else SpanAt(a, i)
    decreases |b|
  {
    if b == [] {
      assert a + b == a;
    } else {
      var n := |b| - 1;
      assert (a + b)[..|a + b| - 1] == a + b[..n];
      SpanAtConcat(a, b[..n], i);
    }
  }

  /** Behind all spans of the first list only the second counts. */
  lemma {:induction false} SubstitutedBehindFirst(line: string, a: seq<Match>, b: seq<Match>, i: nat)
    requires forall k | 0 <= k < |a| :: a[k].ambiguous || a[k].start < i
    ensures Substituted(line, a + b, i) == Substituted(line, b, i)
    decreases |line| - i
  {
    hide SpanAt;
    if i < |line| {
      SpanAtConcat(a, b, i);
      var k := SpanAtFinds(a, i);
      var s := SpanAt(b, i);
      SubstitutedBehindFirst(line, a, b, if s.Some? && i < s.value.end then s.value.end else i + 1);
    }
  }

  lemma {:induction false} AmbiguousTailIsSkipped(text: string, ms: seq<Match>, n: nat)
    requires n <= |ms| && forall k | n <= k < |ms| :: ms[k].ambiguous
    ensures RightToLeft(text, ms) == RightToLeft(text, ms[..n])
    decreases |ms|
  {
    if n < |ms| {
      var last := |ms| - 1;
      AmbiguousTailIsSkipped(text, ms[..last], n);
      assert ms[..last][..n] == ms[..n];
    } else {
      assert ms[..n] == ms;
    }
  }

  /** The written wikilink l is the last one, and some Markdown link stands in front of it. */
  predicate LateWiki(line: string, ws: seq<Match>, mds: seq<Match>, l: nat, k: nat) {
    && InOrder(line, ws, 0) && InOrder(line, mds, 0) && Disjoint(ws + mds)
    && l < |ws| && !ws[l].ambiguous && (forall j | l < j < |ws| :: ws[j].ambiguous)
    && k < |mds| && !mds[k].ambiguous && mds[k].end <= ws[l].start
  }

  lemma MarkdownsAround(line: string, ws: seq<Match>, mds: seq<Match>, l: nat, k: nat, j: nat)
    requires LateWiki(line, ws, mds, l, k) && j < |mds| && !mds[j].ambiguous
    ensures ws[l].start < ws[l].end <= |line| && mds[j].start < mds[j].end
    ensures mds[j].end <= ws[l].start || ws[l].end <= mds[j].start
  {
    hide InOrder;
    InOrderFromEarlier(line, ws, 0);
    InOrderFromEarlier(line, mds, 0);
    var ms := ws + mds;
    assert ms[l] == ws[l] && ms[|ws| + j] == mds[j];
  }

  /** What the splice ends with: the old text of that wikilink is still there. */
  lemma SpliceEnds(line: string, ws: seq<Match>, mds: seq<Match>, l: nat, k: nat) returns (front: string)
    requires LateWiki(line, ws, mds, l, k) && AllGain(ws + mds, |line| + 1)
    ensures ws[l].start < ws[l].end <= |line|
    ensures RightToLeft(line, ws + mds)
            == Some(front + line[ws[l].start..ws[l].end] + Substituted(line, mds, ws[l].end))
  {
    hide RightToLeft, Substituted, InOrder, Gain, Visits, Disjoint;
    var w := ws[l];
    InOrderFromEarlier(line, ws, 0);
    InOrderFromEarlier(line, mds, 0);
    forall j | 0 <= j < |mds| && !mds[j].ambiguous
      ensures mds[j].end <= w.start || w.end <= mds[j].start
      ensures Gain(mds[j]) >= |line| + 1
    {
      MarkdownsAround(line, ws, mds, l, k, j);
      assert (ws + mds)[|ws| + j] == mds[j];
    }
    AscendingIsSubstitution(line, mds);
    var text := Substituted(line, mds, 0);
    var before := SubstitutedSplits(line, mds, 0, w.start);
    OrderedIsDisjoint(line, mds);
    DisjointVisitsAll(line, mds, 0, k);
    CopiesSpan(line, mds, w.start, w.end);
    var was, rest := line[w.start..w.end], Substituted(line, mds, w.end);
    assert text == before + (was + rest) && |before| >= w.end;
    SplitLists(line, ws, mds);
    AmbiguousTailIsSkipped(text, ws, l + 1);
    front := SuffixStays(text, ws[..l + 1], w.end);
    assert text[w.end..] == before[w.end..] + (was + rest);
    assert front + (before[w.end..] + (was + rest)) == (front + before[w.end..]) + was + rest;
    front := front + before[w.end..];
  }

  lemma SplitLists(line: string, ws: seq<Match>, mds: seq<Match>)
    requires RightToLeft(line, mds).Some?
    ensures RightToLeft(line, ws + mds) == RightToLeft(RightToLeft(line, mds).value, ws)
  {
    var ms := ws + mds;
    assert ms[|ws|..] == mds && ms[..|ws|] == ws;
    RightToLeftFrom(line, ms, |ws|);
  }

  lemma OrderedIsDisjoint(line: string, ms: seq<Match>)
    requires InOrder(line, ms, 0)
    ensures Disjoint(ms)
  {
    hide InOrder;
    InOrderFromEarlier(line, ms, 0);
  }

  /** What the substitution ends with: the new text of that wikilink. */
  lemma SubstitutionEnds(line: string, ws: seq<Match>, mds: seq<Match>, l: nat, k: nat) returns (front: string)
    requires LateWiki(line, ws, mds, l, k)
    ensures ws[l].start < ws[l].end <= |line|
    ensures Substituted(line, ws + mds, 0) == front + ws[l].newText + Substituted(line, mds, ws[l].end)
  {
    hide InOrder, Visits;
    var ms, w := ws + mds, ws[l];
    InOrderFromEarlier(line, ws, 0);
    InOrderFromEarlier(line, mds, 0);
    assert ms[l] == w;
    forall j | 0 <= j < |ms| && !ms[j].ambiguous && j != l ensures ms[j].end <= w.start || w.end <= ms[j].start {
      assert if j < l then ms[j].end <= w.start || w.end <= ms[j].start else true;
    }
    front := SubstitutedSplits(line, ms, 0, w.start);
    var n := SpanIndex(ms, w.start);
    var found := SpanAtFinds(ms, w.start);
    assert n == l;
    SubstitutedBehindFirst(line, ws, mds, w.end);
    assert Substituted(line, ms, w.start) == w.newText + Substituted(line, mds, w.end);
    assert front + (w.newText + Substituted(line, mds, w.end)) == front + w.newText + Substituted(line, mds, w.end);
  }

  lemma LateWikiIsWrong(line: string, ws: seq<Match>, mds: seq<Match>, l: nat, k: nat)
    requires LateWiki(line, ws, mds, l, k) && AllGain(ws + mds, |line| + 1)
    requires ws[l].end <= |line| && ws[l].start <= ws[l].end
    requires var (was, new') := (line[ws[l].start..ws[l].end], ws[l].newText);
             |was| <= |new'| && new'[|new'| - |was|..] != was
    ensures !SpliceIsSubstitution(line, ws + mds)
  {
    hide RightToLeft, Substituted, InOrder, AllGain;
    var x := SpliceEnds(line, ws, mds, l, k);
    var y := SubstitutionEnds(line, ws, mds, l, k);
    var was, new', rest := line[ws[l].start..ws[l].end], ws[l].newText, Substituted(line, mds, ws[l].end);
    if x + was + rest == y + new' + rest {
      SameEnds(x, was, y, new', rest);
      assert false;
    }
  }

  lemma SameEnds(x: string, was': string, y: string, new': string, rest: string)
    requires x + was' + rest == y + new' + rest && |was'| <= |new'|
    ensures new'[|new'| - |was'|..] == was'
  {
    var r := x + was' + rest;
    assert |x + was'| == |y + new'|;
    assert r[..|x + was'|] == x + was' && r[..|y + new'|] == y + new';
    assert (x + was')[|x|..] == was' && (y + new')[|y|..] == new';
    forall i | 0 <= i < |was'| ensures new'[|new'| - |was'|..][i] == was'[i] {
      assert (x + was')[|x| + i] == was'[i];
      assert (y + new')[|x| + i] == new'[|new'| - |was'| + i];
    }
  }

  // ---------------------------------------------------------------- a long new name

  /** The move with another new path. */
  function To(mv: Move, newPath: string): Move {
    mv.(newPath := newPath)
  }

  ghost predicate EscapeNeverShrinks(mv: Move) {
    forall s: string {:trigger mv.escape(s)} :: |mv.escape(s)| >= |s|
  }

  /** A name of nothing but one letter is its own target in all four styles. */
  predicate OneLetter(name: string) {
    name != [] && forall k | 0 <= k < |name| :: name[k] == 'a'
  }

  lemma {:induction false} LetterHasNoExt(name: string)
    requires forall k | 0 <= k < |name| :: name[k] == 'a'
    ensures Ext(name) == [] && LastElement(name) == name
  {
    if name != [] {
      LetterHasNoExt(name[..|name| - 1]);
      assert name[|name| - 1] == 'a';
    }
  }

  lemma LetterIsTarget(oldTarget: string, name: string)
    requires OneLetter(name)
    ensures RewriteTarget(oldTarget, name) == name
  {
    hide Ext, LastElement;
    LetterHasNoExt(name);
    assert name[|name| - 1] == 'a';
    assert TrimSlashes(name) == name;
    assert name[..|name|] == name && name[|name|..] == [];
  }

  lemma {:induction false} SplitLetters(name: string)
    requires forall k | 0 <= k < |name| :: name[k] == 'a'
    ensures SplitAt(name, '/') == [name]
  {
    SplitOfPrefix(name, [], '/');
    assert name + [] == name;
  }

  lemma LetterIsEncoded(mv: Move, name: string, raw: string)
    requires OneLetter(name) && EscapeNeverShrinks(mv)
    ensures |EncodeMarkdownPath(mv, name, raw)| >= |name|
  {
    hide SplitAt;
    SplitLetters(name);
    assert |mv.escape(name)| >= |name|;
  }

  lemma SameEscape(mv: Move, name: string)
    requires EscapeNeverShrinks(mv)
    ensures EscapeNeverShrinks(To(mv, name))
  {
  }

  /** Every entry that is written grows with the name. */
  lemma LongNameGains(mv: Move, f: Found, name: string, length: nat)
    requires OneLetter(name) && EscapeNeverShrinks(mv) && FoundEnd(f) <= length && |name| > 2 * length
    ensures var d := Decide(To(mv, name), f);
            d.Some? && !d.value.ambiguous ==> Gain(d.value) >= length + 1
  {
    hide RewriteTarget, EncodeMarkdownPath, OneLetter, PointsAtMoved, IsAmbiguous, EscapeNeverShrinks;
    LetterIsTarget(FoundTarget(To(mv, name), f), name);
    if f.Markdown? {
      SameEscape(mv, name);
      LetterIsEncoded(To(mv, name), name, f.mdLink.path);
    }
  }

  /** What is decided of a link does not depend on the new path, except for the new text. */
  lemma DecideSameSpan(mv: Move, f: Found, name: string)
    ensures Decide(To(mv, name), f).Some? <==> Decide(mv, f).Some?
    ensures Decide(mv, f).Some? ==>
              Decide(To(mv, name), f).value == Decide(mv, f).value.(newText := Decide(To(mv, name), f).value.newText)
  {
    hide NewText, PointsAtMoved, IsAmbiguous, FoundText;
    var target := FoundTarget(mv, f);
    assert FoundTarget(To(mv, name), f) == target;
    SameDecision(mv, target, name);
  }

  lemma SameDecision(mv: Move, target: string, name: string)
    ensures PointsAtMoved(To(mv, name), target) == PointsAtMoved(mv, target)
    ensures IsAmbiguous(To(mv, name), target) == IsAmbiguous(mv, target)
  {
    hide BuildMatchTargets, WithoutExt;
  }

  predicate SameSpans(a: seq<Match>, b: seq<Match>) {
    |a| == |b| && forall k | 0 <= k < |a| :: b[k] == a[k].(newText := b[k].newText)
  }

  lemma {:induction false} DecidedSameSpans(mv: Move, found: seq<Found>, name: string)
    ensures SameSpans(Decided(mv, found), Decided(To(mv, name), found))
    decreases |found|
  {
    hide Decide;
    if found != [] {
      DecidedSameSpans(mv, found[..|found| - 1], name);
      DecideSameSpan(mv, found[|found| - 1], name);
    }
  }

  lemma {:induction false} DecidedComesFrom(mv: Move, found: seq<Found>, k: nat) returns (i: nat)
    requires k < |Decided(mv, found)|
    ensures i < |found| && Decide(mv, found[i]) == Some(Decided(mv, found)[k])
    decreases |found|
  {
    hide Decide;
    var n := |found| - 1;
    if k < |Decided(mv, found[..n])| {
      i := DecidedComesFrom(mv, found[..n], k);
    } else {
      i := n;
    }
  }

  lemma LongNameGainsAll(mv: Move, line: string, found: seq<Found>, name: string)
    requires OneLetter(name) && EscapeNeverShrinks(mv) && |name| > 2 * |line|
    requires forall i | 0 <= i < |found| :: FoundEnd(found[i]) <= |line|
    ensures AllGain(Decided(To(mv, name), found), |line| + 1)
  {
    hide Decide, Decided, OneLetter, EscapeNeverShrinks, FoundEnd, Gain;
    var ms := Decided(To(mv, name), found);
    forall k | 0 <= k < |ms| && !ms[k].ambiguous ensures Gain(ms[k]) >= |line| + 1 {
      var i := DecidedComesFrom(To(mv, name), found, k);
      LongNameGains(mv, found[i], name, |line|);
    }
  }

  lemma {:induction false} FoundEndsInLine(line: string, found: seq<Found>, i: nat)
    requires FoundInOrder(line, found, i)
    ensures forall k | 0 <= k < |found| :: FoundEnd(found[k]) <= |line|
    decreases |found|
  {
    hide FoundEnd;
    if found != [] {
      FoundEndsInLine(line, found[1..], FoundEnd(found[0]));
      assert forall k | 1 <= k < |found| :: found[k] == found[1..][k - 1];
    }
  }

  lemma {:induction false} WikisAreThere(line: string, i: nat)
    ensures forall f | f in FindWiki(line, i) ::
              f.Wiki? && ValidLink(f.link) && f.start + |Print(f.link)| <= |line|
              && line[f.start..f.start + |Print(f.link)|] == Print(f.link)
    decreases |line| - i
  {
    hide ReadLink, Print, ValidLink;
    if i < |line| {
      var l := ReadLink(line[i..]);
      if l.Some? {
        ReadsWhatIsThere(line[i..]);
        PrintNotEmpty(l.value);
        WikisAreThere(line, i + |Print(l.value)|);
      } else {
        WikisAreThere(line, i + 1);
      }
    }
  }

  /** A wikilink with a longer target without brackets does not end with the old one. */
  lemma LongLinkEndsOtherwise(l: Link, name: string)
    requires l.target != [] && OneLetter(name) && |name| > |l.target|
    ensures var (was, new') := (Print(l), Print(l.(target := name)));
            |was| <= |new'| && new'[|new'| - |was|..] != was
  {
    var was, new' := Print(l), Print(l.(target := name));
    var n := |Opening(l.bang)|;
    assert was[n - 1] == '[';
    var k := |new'| - |was| + n - 1;
    assert n <= k < n + |name| && new'[k] == name[k - n];
    assert new'[|new'| - |was|..][n - 1] == new'[k];
  }

  // ---------------------------------------------------------------- the theorem

  /** The line comes out as its links substituted, under this new name. */
  predicate RewrittenRight(mv: Move, line: string, name: string) {
    SpliceIsSubstitution(line, Matches(To(mv, name), line))
  }

  lemma MarkdownLastIsRight(mv: Move, line: string, name: string)
    requires AllBefore(Decided(mv, FindWiki(line, 0)), Decided(mv, FindMarkdown(line, 0)))
    ensures RewrittenRight(mv, line, name)
  {
    hide Decided, FindWiki, FindMarkdown, SpliceIsSubstitution, Matches, Ascending, InLine;
    DecidedSameSpans(mv, FindWiki(line, 0), name);
    DecidedSameSpans(mv, FindMarkdown(line, 0), name);
    AscendingIffMarkdownLast(To(mv, name), line);
    RewriteIsSubstitution(To(mv, name), line);
  }

  /** Under a long name every other line comes out wrong. */
  lemma LongNameIsWrong(mv: Move, line: string, name: string)
    requires EscapeNeverShrinks(mv) && OneLetter(name) && |name| > 2 * |line|
    requires !AllBefore(Decided(mv, FindWiki(line, 0)), Decided(mv, FindMarkdown(line, 0)))
    ensures !RewrittenRight(mv, line, name)
  {
    hide Decided, Decide, FindWiki, FindMarkdown, SpliceIsSubstitution, InOrder, OneLetter, EscapeNeverShrinks, Print,
         Disjoint, Gain, InLine, Ascending, FoundInOrder, FoundEnd;
    var mv' := To(mv, name);
    var ws, mds := Decided(mv', FindWiki(line, 0)), Decided(mv', FindMarkdown(line, 0));
    DecidedSameSpans(mv, FindWiki(line, 0), name);
    DecidedSameSpans(mv, FindMarkdown(line, 0), name);
    LinksGain(mv, line, name);
    WikiSpansInOrder(mv', line, 0);
    MarkdownSpansInOrder(mv', line);
    AscendingIffMarkdownLast(mv', line);
    if !Disjoint(ws + mds) {
      OverlapIsLonger(line, ws + mds);
    } else {
      var j: nat, k: nat :| j < |ws| && k < |mds| && !ws[j].ambiguous && !mds[k].ambiguous
                            && !(ws[j].end <= mds[k].start);
      var l := LastWritten(ws, j);
      MarkdownStandsInFront(line, ws, mds, j, k, l);
      LastLinkEndsOtherwise(mv, line, name, l);
      LateWikiIsWrong(line, ws, mds, l, k);
    }
  }

  lemma LinksGain(mv: Move, line: string, name: string)
    requires EscapeNeverShrinks(mv) && OneLetter(name) && |name| > 2 * |line|
    ensures AllGain(Matches(To(mv, name), line), |line| + 1) && AllGain(Matches(To(mv, name), line), 1)
  {
    hide Decided, FindWiki, FindMarkdown, OneLetter, EscapeNeverShrinks, FoundEnd, FoundInOrder, Gain;
    WikisInOrder(line, 0);
    MarkdownsInOrder(line, 0);
    FoundEndsInLine(line, FindWiki(line, 0), 0);
    FoundEndsInLine(line, FindMarkdown(line, 0), 0);
    LongNameGainsAll(mv, line, FindWiki(line, 0), name);
    LongNameGainsAll(mv, line, FindMarkdown(line, 0), name);
  }

  lemma MarkdownStandsInFront(line: string, ws: seq<Match>, mds: seq<Match>, j: nat, k: nat, l: nat)
    requires InOrder(line, ws, 0) && InOrder(line, mds, 0) && Disjoint(ws + mds)
    requires j <= l < |ws| && k < |mds| && !ws[j].ambiguous && !mds[k].ambiguous && !(ws[j].end <= mds[k].start)
    requires !ws[l].ambiguous && forall i | l < i < |ws| :: ws[i].ambiguous
    ensures LateWiki(line, ws, mds, l, k)
  {
    hide InOrder;
    InOrderFromEarlier(line, ws, 0);
    var ms := ws + mds;
    assert ms[j] == ws[j] && ms[|ws| + k] == mds[k];
  }

  lemma LastLinkEndsOtherwise(mv: Move, line: string, name: string, l: nat)
    requires OneLetter(name) && |name| > 2 * |line|
    requires l < |Decided(To(mv, name), FindWiki(line, 0))| && !Decided(To(mv, name), FindWiki(line, 0))[l].ambiguous
    ensures var w := Decided(To(mv, name), FindWiki(line, 0))[l];
            w.start <= w.end <= |line| && |line[w.start..w.end]| <= |w.newText|
            && w.newText[|w.newText| - (w.end - w.start)..] != line[w.start..w.end]
  {
    hide Decided, FindWiki, OneLetter, Print, RewriteTarget, PointsAtMoved, IsAmbiguous;
    var i := DecidedComesFrom(To(mv, name), FindWiki(line, 0), l);
    var f := FindWiki(line, 0)[i];
    WikisAreThere(line, 0);
    assert f in FindWiki(line, 0);
    LetterIsTarget(f.link.target, name);
    TargetIsShort(f.link);
    LongLinkEndsOtherwise(f.link, name);
  }

  lemma TargetIsShort(l: Link)
    ensures |l.target| < |Print(l)|
  {
  }

  /**
   With the texts the program writes: a line is rewritten right whatever the new name of the note if and only
   if every written Markdown link stands behind every written wikilink.
   */
  lemma RightUnderEveryNameIff(mv: Move, line: string)
    requires EscapeNeverShrinks(mv)
    ensures (forall name: string :: RewrittenRight(mv, line, name))
            <==> AllBefore(Decided(mv, FindWiki(line, 0)), Decided(mv, FindMarkdown(line, 0)))
  {
    hide Decided, FindWiki, FindMarkdown, RewrittenRight, EscapeNeverShrinks, AllBefore;
    var ws, mds := Decided(mv, FindWiki(line, 0)), Decided(mv, FindMarkdown(line, 0));
    if AllBefore(ws, mds) {
      forall name: string ensures RewrittenRight(mv, line, name) {
        MarkdownLastIsRight(mv, line, name);
      }
    } else {
      var name := seq(2 * |line| + 1, _ => 'a');
      LongNameIsWrong(mv, line, name);
    }
  }
}
