/**
 The splice at the end of rewriteLine (internal/vault/linkrewrite.go:262-275): replacements are
 written into the line from the last entry of the match list to the first, at byte offsets that were
 taken in the original line. This file says exactly when that is simultaneous substitution.
 */
module Splice {
  import opened Wrappers
  import opened Lines

  /** One match: its span in the original line, and what the scan decided about it. */
  datatype Match = Match(start: nat, end: nat, oldText: string, newText: string, ambiguous: bool)

  predicate InLine(line: string, ms: seq<Match>) {
    forall i | 0 <= i < |ms| && !ms[i].ambiguous :: ms[i].start < ms[i].end <= |line|
  }

  /** No span is written twice; ambiguous matches are not written at all. */
  predicate Disjoint(ms: seq<Match>) {
    forall i, j | 0 <= i < j < |ms| && !ms[i].ambiguous && !ms[j].ambiguous ::
      ms[i].end <= ms[j].start || ms[j].end <= ms[i].start
  }

  /** The spans that are written come in the list in the order they have in the line. */
  predicate Ascending(ms: seq<Match>) {
    forall i, j | 0 <= i < j < |ms| && !ms[i].ambiguous && !ms[j].ambiguous :: ms[i].end <= ms[j].start
  }

  // ---------------------------------------------------------------- what the code does

  /** One write; slicing out of range stops the program, which None stands for. */
  function Overwrite(text: string, m: Match): Option<string> {
    if m.ambiguous then Some(text)
    else if m.start <= m.end <= |text| then Some(text[..m.start] + m.newText + text[m.end..])
    else None
  }

  /** Writing the entries from the last to the first. */
  function RightToLeft(text: string, ms: seq<Match>): Option<string>
    decreases |ms|
  {
    if ms == [] then
      Some(text)
    else
      var next := Overwrite(text, ms[|ms| - 1]);
      if next.None? then None else RightToLeft(next.value, ms[..|ms| - 1])
  }

  /** The loop itself; ok is false when an offset no longer fits the text. */
  method SpliceRightToLeft(line: string, ms: seq<Match>) returns (result: string, ok: bool)
    ensures RightToLeft(line, ms) == if ok then Some(result) else None
  {
    result := line;
    var i := |ms|;
    assert ms[..i] == ms;
    while i > 0
      invariant 0 <= i <= |ms|
      invariant RightToLeft(result, ms[..i]) == RightToLeft(line, ms)
    {
      i := i - 1;
      var m := ms[i];
      assert ms[..i + 1][..i] == ms[..i];
      if !m.ambiguous {
        if !(m.start <= m.end <= |result|) {
          return result, false;
        }
        result := result[..m.start] + m.newText + result[m.end..];
      }
    }
    return result, true;
  }

  // ---------------------------------------------------------------- when it stops

  /** By how much an entry lengthens the text it is written to. */
  function Gain(m: Match): int {
    if m.ambiguous then 0 else |m.newText| - (m.end - m.start)
  }

  function Growth(ms: seq<Match>): int {
    if ms == [] then 0 else Growth(ms[..|ms| - 1]) + Gain(ms[|ms| - 1])
  }

  lemma {:induction false} GrowthConcat(a: seq<Match>, b: seq<Match>)
    ensures Growth(a + b) == Growth(a) + Growth(b)
    decreases |b|
  {
    if b == [] {
      assert a + b == a;
    } else {
      var n := |b| - 1;
      assert (a + b)[..|a + b| - 1] == a + b[..n];
      GrowthConcat(a, b[..n]);
    }
  }

  /** The entry still fits when its turn comes, after the entries behind it in the list have been written. */
  predicate FitsInTurn(length: int, ms: seq<Match>, k: nat)
    requires k < |ms|
  {
    ms[k].ambiguous || ms[k].end <= length + Growth(ms) - Growth(ms[..k + 1])
  }

  predicate AllFit(length: int, ms: seq<Match>) {
    forall k | 0 <= k < |ms| :: FitsInTurn(length, ms, k)
  }

  /** The loop gets through exactly when every entry fits in its turn. */
  lemma {:induction false} SplicesIffAllFit(text: string, ms: seq<Match>)
    requires forall k | 0 <= k < |ms| :: ms[k].ambiguous || ms[k].start <= ms[k].end
    ensures RightToLeft(text, ms).Some? <==> AllFit(|text|, ms)
    ensures RightToLeft(text, ms).Some? ==> |RightToLeft(text, ms).value| == |text| + Growth(ms)
    decreases |ms|
  {
    if ms != [] {
      var n := |ms| - 1;
      assert ms[..n + 1] == ms;
      assert FitsInTurn(|text|, ms, n) <==> Overwrite(text, ms[n]).Some?;
      if Overwrite(text, ms[n]).Some? {
        var next := Overwrite(text, ms[n]).value;
        SplicesIffAllFit(next, ms[..n]);
        forall k | 0 <= k < n ensures FitsInTurn(|next|, ms[..n], k) == FitsInTurn(|text|, ms, k) {
          assert ms[..n][..k + 1] == ms[..k + 1];
        }
      }
    }
  }

  // ---------------------------------------------------------------- what it should do

  /** The entry whose span begins at this position and is to be written. */
  function SpanAt(ms: seq<Match>, i: nat): Option<Match>
    decreases |ms|
  {
    if ms == [] then None
    else if ms[|ms| - 1].start == i && !ms[|ms| - 1].ambiguous then Some(ms[|ms| - 1])
    else SpanAt(ms[..|ms| - 1], i)
  }

  lemma {:induction false} SpanAtFinds(ms: seq<Match>, i: nat) returns (k: nat)
    ensures SpanAt(ms, i).Some? ==>
              k < |ms| && ms[k] == SpanAt(ms, i).value && ms[k].start == i && !ms[k].ambiguous
    ensures SpanAt(ms, i).None? ==> forall j | 0 <= j < |ms| :: ms[j].start == i ==> ms[j].ambiguous
    decreases |ms|
  {
    k := 0;
    if ms != [] {
      var n := |ms| - 1;
      if ms[n].start == i && !ms[n].ambiguous {
        k := n;
      } else {
        k := SpanAtFinds(ms[..n], i);
      }
    }
  }

  /**
   Simultaneous substitution: read the original line once from left to right; at the beginning of a
   written span emit its new text and go on behind it, anywhere else copy one character. The order of
   the list plays no part.
   */
  function Substituted(line: string, ms: seq<Match>, i: nat): string
    decreases |line| - i
  {
    if i >= |line| then
      []
    else
      var m := SpanAt(ms, i);
      if m.Some? && i < m.value.end then m.value.newText + Substituted(line, ms, m.value.end)
      else [line[i]] + Substituted(line, ms, i + 1)
  }

  predicate SpliceIsSubstitution(line: string, ms: seq<Match>) {
    RightToLeft(line, ms) == Some(Substituted(line, ms, 0))
  }

  // ---------------------------------------------------------------- ascending lists are right

  /** Splitting off the last entry: nothing behind it is written. */
  lemma {:induction false} SubstitutedUpToLast(line: string, ms: seq<Match>, i: nat)
    requires ms != [] && InLine(line, ms) && Ascending(ms)
    requires !ms[|ms| - 1].ambiguous && i <= ms[|ms| - 1].start
    ensures var m := ms[|ms| - 1];
            Substituted(line, ms, i)
            == Substituted(line[..m.start], ms[..|ms| - 1], i) + (m.newText + line[m.end..])
    decreases |line| - i
  {
    var n := |ms| - 1;
    var m := ms[n];
    var front := Substituted(line[..m.start], ms[..n], i);
    var back := m.newText + line[m.end..];
    if i == m.start {
      SubstitutedBehind(line, ms, m.end);
      assert front == [];
    } else {
      var k := SpanAtFinds(ms[..n], i);
      var s := SpanAt(ms[..n], i);
      assert SpanAt(ms, i) == s;
      if s.Some? {
        assert ms[k].end <= m.start;
        SubstitutedUpToLast(line, ms, s.value.end);
        Regroup(s.value.newText, Substituted(line[..m.start], ms[..n], s.value.end), back);
      } else {
        SubstitutedUpToLast(line, ms, i + 1);
        Regroup([line[i]], Substituted(line[..m.start], ms[..n], i + 1), back);
      }
    }
  }

  /** Where no written span begins any more, the line is copied. */
  lemma {:induction false} SubstitutedBehind(line: string, ms: seq<Match>, i: nat)
    requires i <= |line|
    requires forall j | 0 <= j < |ms| :: ms[j].ambiguous || ms[j].start < i
    ensures Substituted(line, ms, i) == line[i..]
    decreases |line| - i
  {
    if i < |line| {
      var k := SpanAtFinds(ms, i);
      SubstitutedBehind(line, ms, i + 1);
    }
  }

  /** Ambiguous entries change nothing. */
  lemma {:induction false} SubstitutedDropsAmbiguous(line: string, ms: seq<Match>, i: nat)
    requires ms != [] && ms[|ms| - 1].ambiguous
    ensures Substituted(line, ms, i) == Substituted(line, ms[..|ms| - 1], i)
    decreases |line| - i
  {
    if i < |line| {
      var s := SpanAt(ms, i);
      SubstitutedDropsAmbiguous(line, ms, if s.Some? && i < s.value.end then s.value.end else i + 1);
    }
  }

  /** The invariant of the loop: spans inside the untouched front of the text are still to be written. */
  lemma {:induction false} FrontIsSubstituted(front: string, tail: string, ms: seq<Match>)
    requires Ascending(ms) && InLine(front, ms)
    ensures RightToLeft(front + tail, ms) == Some(Substituted(front, ms, 0) + tail)
    decreases |ms|
  {
    if ms == [] {
      SubstitutedBehind(front, ms, 0);
    } else {
      var n := |ms| - 1;
      var m := ms[n];
      if m.ambiguous {
        FrontIsSubstituted(front, tail, ms[..n]);
        SubstitutedDropsAmbiguous(front, ms, 0);
      } else {
        var tail' := m.newText + front[m.end..];
        var front' := front[..m.start];
        assert (front + tail)[..m.start] == front' && (front + tail)[m.end..] == front[m.end..] + tail;
        assert front' + m.newText + (front[m.end..] + tail) == front' + (tail' + tail);
        FrontIsSubstituted(front', tail' + tail, ms[..n]);
        SubstitutedUpToLast(front, ms, 0);
        assert Substituted(front', ms[..n], 0) + (tail' + tail)
            == Substituted(front', ms[..n], 0) + tail' + tail;
      }
    }
  }

  /** An ascending list is spliced exactly as all its spans substituted at once. */
  lemma AscendingIsSubstitution(line: string, ms: seq<Match>)
    requires InLine(line, ms) && Ascending(ms)
    ensures SpliceIsSubstitution(line, ms)
  {
    FrontIsSubstituted(line, [], ms);
    assert line + [] == line;
    assert Substituted(line, ms, 0) + [] == Substituted(line, ms, 0);
  }

  // ---------------------------------------------------------------- and only ascending lists

  function WithTexts(ms: seq<Match>, texts: seq<string>): seq<Match>
    requires |texts| == |ms|
  {
    seq(|ms|, i requires 0 <= i < |ms| => ms[i].(newText := texts[i]))
  }

  /** Every entry keeps its own text, except that entry j has w appended. */
  function OwnTextsBut(line: string, ms: seq<Match>, j: nat, w: string): seq<string>
    requires InLine(line, ms) && j < |ms| && !ms[j].ambiguous
  {
    seq(|ms|, i requires 0 <= i < |ms| =>
      if ms[i].ambiguous then [] else line[ms[i].start..ms[i].end] + if i == j then w else [])
  }

  /** Written over itself, a span of the original line changes nothing. */
  predicate OwnText(line: string, m: Match) {
    m.ambiguous || (m.start < m.end <= |line| && m.newText == line[m.start..m.end])
  }

  lemma {:induction false} OwnTextsAreWrittenInPlace(line: string, text: string, ms: seq<Match>, p: nat)
    requires |text| >= |line| && p < |text|
    requires forall k | 0 <= k < |ms| :: OwnText(line, ms[k])
    ensures var r := RightToLeft(text, ms);
            && r.Some? && |r.value| == |text|
            && ((forall k | 0 <= k < |ms| :: ms[k].ambiguous || !(ms[k].start <= p < ms[k].end)) ==>
                  r.value[p] == text[p])
            && (text == line ==> r.value == line)
    decreases |ms|
  {
    if ms != [] {
      var n := |ms| - 1;
      var next := Overwrite(text, ms[n]).value;
      assert OwnText(line, ms[n]);
      if text == line && !ms[n].ambiguous {
        assert line == line[..ms[n].start] + line[ms[n].start..ms[n].end] + line[ms[n].end..];
      }
      OwnTextsAreWrittenInPlace(line, next, ms[..n], p);
    }
  }

  lemma {:induction false} RightToLeftFrom(text: string, ms: seq<Match>, n: nat)
    requires n <= |ms|
    requires RightToLeft(text, ms[n..]).Some?
    ensures RightToLeft(text, ms) == RightToLeft(RightToLeft(text, ms[n..]).value, ms[..n])
    decreases |ms|
  {
    if n == |ms| {
      assert ms[..n] == ms && ms[n..] == [];
    } else {
      var last := |ms| - 1;
      assert ms[n..][..last - n] == ms[..last][n..];
      RightToLeftFrom(Overwrite(text, ms[last]).value, ms[..last], n);
      assert ms[..last][..n] == ms[..n];
    }
  }

  /** The line from i on, with w inserted behind the span of m. */
  function InsertedFrom(line: string, m: Match, w: string, i: nat): string
    requires m.start < m.end <= |line| && i <= |line|
  {
    if i <= m.start then line[i..m.end] + w + line[m.end..] else line[i..]
  }

  lemma InsertedStep(line: string, m: Match, w: string, i: nat, next: nat)
    requires m.start < m.end <= |line| && i <= next <= |line|
    requires next <= m.start || m.end <= i
    ensures InsertedFrom(line, m, w, i) == line[i..next] + InsertedFrom(line, m, w, next)
  {
    if next <= m.start {
      assert line[i..m.end] == line[i..next] + line[next..m.end];
    }
  }

  /** With every entry but j writing its own text, substitution is one insertion behind span j. */
  lemma {:induction false} OneInsertion(line: string, ms: seq<Match>, j: nat, w: string, i: nat)
    requires InLine(line, ms) && Disjoint(ms) && j < |ms| && !ms[j].ambiguous
    requires forall k | 0 <= k < |ms| && k != j :: OwnText(line, ms[k])
    requires ms[j].newText == line[ms[j].start..ms[j].end] + w
    requires i <= ms[j].start || ms[j].end <= i <= |line|
    ensures Substituted(line, ms, i) == InsertedFrom(line, ms[j], w, i)
    decreases |line| - i
  {
    hide InsertedFrom;
    if i == |line| {
      assert InsertedFrom(line, ms[j], w, i) == [] by { InsertedAtEnd(line, ms[j], w); }
    } else {
      var k := SpanAtFinds(ms, i);
      if SpanAt(ms, i).Some? {
        OneInsertion(line, ms, j, w, ms[k].end);
        if k == j {
          InsertedAtSpan(line, ms[j], w);
        } else {
          assert OwnText(line, ms[k]);
          InsertedStep(line, ms[j], w, i, ms[k].end);
        }
      } else {
        OneInsertion(line, ms, j, w, i + 1);
        InsertedStep(line, ms[j], w, i, i + 1);
        assert line[i..i + 1] == [line[i]];
      }
    }
  }

  lemma InsertedAtEnd(line: string, m: Match, w: string)
    requires m.start < m.end <= |line|
    ensures InsertedFrom(line, m, w, |line|) == []
  {
  }

  lemma InsertedAtSpan(line: string, m: Match, w: string)
    requires m.start < m.end <= |line|
    ensures InsertedFrom(line, m, w, m.start)
            == line[m.start..m.end] + w + InsertedFrom(line, m, w, m.end)
  {
  }

  /** Over a text that was lengthened in front of p, entry i writes the original character to p. */
  lemma StaleWrite(line: string, text: string, ms: seq<Match>, i: nat)
    requires |text| >= |line| && i < |ms|
    requires forall k | 0 <= k < |ms| :: OwnText(line, ms[k])
    requires Disjoint(ms) && !ms[i].ambiguous
    ensures ms[i].start < |line|
    ensures var r := RightToLeft(text, ms);
            r.Some? && |r.value| == |text| && r.value[ms[i].start] == line[ms[i].start]
  {
    var m := ms[i];
    var p := m.start;
    assert OwnText(line, m);
    OwnTextsAreWrittenInPlace(line, text, ms[i + 1..], p);
    RightToLeftFrom(text, ms, i + 1);
    var r1 := RightToLeft(text, ms[i + 1..]).value;
    var r2 := r1[..m.start] + m.newText + r1[m.end..];
    assert r2[p] == line[p];
    OthersKeepStart(line, r2, ms, i);
    RightToLeftNext(r1, ms, i);
  }

  lemma OthersKeepStart(line: string, text: string, ms: seq<Match>, i: nat)
    requires |text| >= |line| && i < |ms|
    requires forall k | 0 <= k < |ms| :: OwnText(line, ms[k])
    requires Disjoint(ms) && !ms[i].ambiguous
    ensures ms[i].start < |line|
    ensures var r := RightToLeft(text, ms[..i]);
            r.Some? && |r.value| == |text| && r.value[ms[i].start] == text[ms[i].start]
  {
    var p := ms[i].start;
    assert OwnText(line, ms[i]);
    var front := ms[..i];
    forall k | 0 <= k < |front|
      ensures OwnText(line, front[k]) && (front[k].ambiguous || !(front[k].start <= p < front[k].end))
    {
      assert front[k] == ms[k] && OwnText(line, ms[k]);
    }
    OwnTextsAreWrittenInPlace(line, text, front, p);
  }

  /** The splice puts the original character back at the start of entry i. */
  lemma SplicedAtStart(line: string, ms: seq<Match>, i: nat, j: nat, w: string)
    requires InLine(line, ms) && Disjoint(ms)
    requires i < j < |ms| && !ms[i].ambiguous && !ms[j].ambiguous
    requires forall k | 0 <= k < |ms| && k != j :: OwnText(line, ms[k])
    requires ms[j].newText == line[ms[j].start..ms[j].end] + w
    ensures var r := RightToLeft(line, ms);
            r.Some? && |r.value| >= |line| && r.value[ms[i].start] == line[ms[i].start]
  {
    hide Disjoint, RightToLeft, OwnText;
    var m := ms[j];
    OwnTextsAreWrittenInPlace(line, line, ms[j + 1..], ms[i].start);
    RightToLeftFrom(line, ms, j + 1);
    RightToLeftNext(line, ms, j);
    DisjointPrefix(ms, j);
    StaleWrite(line, line[..m.start] + m.newText + line[m.end..], ms[..j], i);
  }

  lemma RightToLeftNext(text: string, ms: seq<Match>, j: nat)
    requires j < |ms| && !ms[j].ambiguous && ms[j].start <= ms[j].end <= |text|
    ensures RightToLeft(text, ms[..j + 1])
            == RightToLeft(text[..ms[j].start] + ms[j].newText + text[ms[j].end..], ms[..j])
  {
    var upTo := ms[..j + 1];
    assert upTo[|upTo| - 1] == ms[j] && upTo[..|upTo| - 1] == ms[..j];
  }

  lemma DisjointPrefix(ms: seq<Match>, n: nat)
    requires n <= |ms| && Disjoint(ms)
    ensures Disjoint(ms[..n])
  {
  }

  /** Substitution leaves the inserted text at the start of entry i. */
  lemma SubstitutedAtStart(line: string, ms: seq<Match>, j: nat, w: string, p: nat)
    requires InLine(line, ms) && Disjoint(ms) && j < |ms| && !ms[j].ambiguous
    requires forall k | 0 <= k < |ms| && k != j :: OwnText(line, ms[k])
    requires ms[j].newText == line[ms[j].start..ms[j].end] + w
    requires ms[j].end <= p < ms[j].end + |w|
    ensures p < |Substituted(line, ms, 0)| && Substituted(line, ms, 0)[p] == w[p - ms[j].end]
  {
    OneInsertion(line, ms, j, w, 0);
    assert line[0..ms[j].end] == line[..ms[j].end];
  }

  lemma DisjointOutOfOrderIsWrong(line: string, ms: seq<Match>, i: nat, j: nat)
    requires InLine(line, ms) && Disjoint(ms)
    requires i < j < |ms| && !ms[i].ambiguous && !ms[j].ambiguous && ms[j].end <= ms[i].start
    ensures exists texts: seq<string> :: |texts| == |ms| && !SpliceIsSubstitution(line, WithTexts(ms, texts))
  {
    var z := if line[ms[i].start] == 'a' then 'b' else 'a';
    var w := seq(|line|, _ => z);
    var texts := OwnTextsBut(line, ms, j, w);
    var ws := WithTexts(ms, texts);
    forall k | 0 <= k < |ws| && k != j ensures OwnText(line, ws[k]) {
      if !ms[k].ambiguous {
        assert line[ms[k].start..ms[k].end] + [] == line[ms[k].start..ms[k].end];
      }
    }
    SplicedAtStart(line, ws, i, j, w);
    SubstitutedAtStart(line, ws, j, w, ms[i].start);
    assert !SpliceIsSubstitution(line, ws);
  }

  // ---------------------------------------------------------------- overlapping spans

  /** The index of the entry substitution takes at position i, the length of the list when there is none. */
  function SpanIndex(ms: seq<Match>, i: nat): (k: nat)
    ensures k <= |ms|
    ensures k < |ms| ==> !ms[k].ambiguous && ms[k].start == i
    ensures SpanAt(ms, i) == if k < |ms| then Some(ms[k]) else None
    decreases |ms|
  {
    if ms == [] then 0
    else
      var n := |ms| - 1;
      if ms[n].start == i && !ms[n].ambiguous then n
      else
        var k := SpanIndex(ms[..n], i);
        if k < n then k else |ms|
  }

  lemma {:induction false} SpanIndexIgnoresTexts(ms: seq<Match>, texts: seq<string>, i: nat)
    requires |texts| == |ms|
    ensures SpanIndex(WithTexts(ms, texts), i) == SpanIndex(ms, i)
    decreases |ms|
  {
    if ms != [] {
      var n := |ms| - 1;
      assert WithTexts(ms, texts)[..n] == WithTexts(ms[..n], texts[..n]);
      SpanIndexIgnoresTexts(ms[..n], texts[..n], i);
    }
  }

  /** Substitution, going on from position i, comes to entry j. */
  predicate Visits(line: string, ms: seq<Match>, i: nat, j: nat)
    decreases |line| - i
  {
    i < |line|
    && var k := SpanIndex(ms, i);
       if k < |ms| && i < ms[k].end then k == j || Visits(line, ms, ms[k].end, j)
       else Visits(line, ms, i + 1, j)
  }

  lemma {:induction false} VisitedIsAhead(line: string, ms: seq<Match>, i: nat, j: nat)
    requires Visits(line, ms, i, j)
    ensures j < |ms| && !ms[j].ambiguous && i <= ms[j].start
    decreases |line| - i
  {
    var k := SpanIndex(ms, i);
    if k < |ms| && i < ms[k].end {
      if k != j {
        VisitedIsAhead(line, ms, ms[k].end, j);
      }
    } else {
      VisitedIsAhead(line, ms, i + 1, j);
    }
  }

  lemma {:induction false} VisitedAreDisjoint(line: string, ms: seq<Match>, i: nat, j: nat, k: nat)
    requires Visits(line, ms, i, j) && Visits(line, ms, i, k) && j != k
    ensures j < |ms| && k < |ms| && (ms[j].end <= ms[k].start || ms[k].end <= ms[j].start)
    decreases |line| - i
  {
    var n := SpanIndex(ms, i);
    if n < |ms| && i < ms[n].end {
      if n == j {
        VisitedIsAhead(line, ms, ms[n].end, k);
      } else if n == k {
        VisitedIsAhead(line, ms, ms[n].end, j);
      } else {
        VisitedAreDisjoint(line, ms, ms[n].end, j, k);
      }
    } else {
      VisitedAreDisjoint(line, ms, i + 1, j, k);
    }
  }

  /** Every entry writes its own text, entry j one character more. */
  function OneLonger(line: string, ms: seq<Match>, j: nat): seq<string>
    requires InLine(line, ms) && j < |ms| && !ms[j].ambiguous
  {
    OwnTextsBut(line, ms, j, "x")
  }

  /** Substitution then is one character longer than the line exactly when it comes to entry j. */
  lemma {:induction false} SubstitutedLength(line: string, ms: seq<Match>, j: nat, i: nat)
    requires InLine(line, ms) && j < |ms| && !ms[j].ambiguous && i <= |line|
    ensures |Substituted(line, WithTexts(ms, OneLonger(line, ms, j)), i)|
            == |line| - i + if Visits(line, ms, i, j) then 1 else 0
    decreases |line| - i
  {
    var ws := WithTexts(ms, OneLonger(line, ms, j));
    if i < |line| {
      SpanIndexIgnoresTexts(ms, OneLonger(line, ms, j), i);
      var k := SpanIndex(ms, i);
      if k < |ms| {
        SubstitutedLength(line, ms, j, ms[k].end);
        if k == j && Visits(line, ms, ms[k].end, j) {
          VisitedIsAhead(line, ms, ms[k].end, j);
          assert false;
        }
      } else {
        SubstitutedLength(line, ms, j, i + 1);
      }
    }
  }

  /** The splice then always is one character longer. */
  lemma {:induction false} SplicedLength(line: string, ms: seq<Match>, j: nat, text: string, n: nat)
    requires InLine(line, ms) && j < |ms| && !ms[j].ambiguous && n <= |ms| && |text| >= |line|
    ensures var r := RightToLeft(text, WithTexts(ms, OneLonger(line, ms, j))[..n]);
            r.Some? && |r.value| == |text| + if j < n then 1 else 0
    decreases n
  {
    var ws := WithTexts(ms, OneLonger(line, ms, j));
    if n > 0 {
      assert ws[..n][..n - 1] == ws[..n - 1];
      SplicedLength(line, ms, j, Overwrite(text, ws[n - 1]).value, n - 1);
    }
  }

  /** Overlapping spans cannot both be visited, and the texts of one that is not visited get lost. */
  lemma OverlapIsWrong(line: string, ms: seq<Match>)
    requires InLine(line, ms) && !Disjoint(ms)
    ensures exists texts: seq<string> :: |texts| == |ms| && !SpliceIsSubstitution(line, WithTexts(ms, texts))
  {
    var i: nat, k: nat :| i < k < |ms| && !ms[i].ambiguous && !ms[k].ambiguous
                          && !(ms[i].end <= ms[k].start || ms[k].end <= ms[i].start);
    var j := if Visits(line, ms, 0, i) then k else i;
    if Visits(line, ms, 0, j) {
      VisitedAreDisjoint(line, ms, 0, i, k);
      assert false;
    }
    SubstitutedLength(line, ms, j, 0);
    SplicedLength(line, ms, j, line, |ms|);
    var ws := WithTexts(ms, OneLonger(line, ms, j));
    assert ws[..|ms|] == ws;
    assert !SpliceIsSubstitution(line, ws);
  }

  /**
   The exact condition, overlapping spans included: splicing right to left in list order is substitution
   whatever the new texts are if and only if the written spans ascend.
   */
  lemma SplicesRightIffAscending(line: string, ms: seq<Match>)
    requires InLine(line, ms)
    ensures (forall texts: seq<string> | |texts| == |ms| :: SpliceIsSubstitution(line, WithTexts(ms, texts)))
            <==> Ascending(ms)
  {
    if Ascending(ms) {
      forall texts: seq<string> | |texts| == |ms| ensures SpliceIsSubstitution(line, WithTexts(ms, texts)) {
        AscendingIsSubstitution(line, WithTexts(ms, texts));
      }
    } else if !Disjoint(ms) {
      OverlapIsWrong(line, ms);
    } else {
      var i: nat, j: nat :| i < j < |ms| && !ms[i].ambiguous && !ms[j].ambiguous && !(ms[i].end <= ms[j].start);
      DisjointOutOfOrderIsWrong(line, ms, i, j);
    }
  }

  /** Two written spans that do not stand in list order are enough, overlapping or not. */
  lemma OutOfOrderIsWrong(line: string, ms: seq<Match>, i: nat, j: nat)
    requires InLine(line, ms)
    requires i < j < |ms| && !ms[i].ambiguous && !ms[j].ambiguous && ms[j].start < ms[i].end
    ensures exists texts: seq<string> :: |texts| == |ms| && !SpliceIsSubstitution(line, WithTexts(ms, texts))
  {
    SplicesRightIffAscending(line, ms);
    assert !Ascending(ms);
  }
}
