/**
 ReplaceInNote with a literal pattern (internal/vault/replace.go:24-97): all leftmost non-overlapping
 occurrences are counted, and the first of them, up to a cap, are replaced.
 */
module Replace {

  const MAX_FILE_SIZE := 16 * 1024 * 1024

  /** p stands in s at position i. */
  predicate OccursAt(s: string, p: string, i: nat) {
    i + |p| <= |s| && s[i..i + |p|] == p
  }

  /** Occurrences from position i on, in order and not overlapping. */
  predicate Positions(s: string, p: string, found: seq<nat>, i: nat) {
    i <= |s|
    && (found == []
        || (i <= found[0] && OccursAt(s, p, found[0]) && Positions(s, p, found[1..], found[0] + |p|)))
  }

  lemma {:induction false} PositionsPrefix(s: string, p: string, found: seq<nat>, i: nat, n: nat)
    requires Positions(s, p, found, i) && n <= |found|
    ensures Positions(s, p, found[..n], i)
  {
    if n > 0 {
      PositionsPrefix(s, p, found[1..], found[0] + |p|, n - 1);
      assert found[..n][1..] == found[1..][..n - 1];
    }
  }

  lemma PositionsEarlier(s: string, p: string, found: seq<nat>, i: nat, j: nat)
    requires j <= i
    ensures Positions(s, p, found, i) ==> Positions(s, p, found, j)
  {
  }

  /** Where the search finds the quoted pattern from position i on; an empty pattern is found once at
      every position. */
  function FindAll(s: string, p: string, i: nat): (found: seq<nat>)
    requires i <= |s| + 1
    ensures i <= |s| ==> Positions(s, p, found, i)
    decreases |s| + 1 - i
  {
    if i > |s| then
      []
    else if OccursAt(s, p, i) then
      var next := i + if p == [] then 1 else |p|;
      var rest := FindAll(s, p, next);
      PositionsEarlier(s, p, rest, next, i + |p|);
      assert ([i] + rest)[1..] == rest;
      [i] + rest
    else
      var rest := FindAll(s, p, i + 1);
      PositionsEarlier(s, p, rest, i + 1, i);
      rest
  }

  /** Leftmost: an occurrence is in the list, or overlaps a listed one, k, that begins before it. */
  lemma {:induction false} FindAllIsLeftmost(s: string, p: string, i: nat, q: nat) returns (k: nat)
    requires i <= q && OccursAt(s, p, q)
    ensures k in FindAll(s, p, i) && (k == q || k < q < k + |p|)
    decreases |s| + 1 - i
  {
    FindAllStep(s, p, i, q);
    hide OccursAt, FindAll;
    if OccursAt(s, p, i) {
      var next := i + if p == [] then 1 else |p|;
      k := i;
      if next <= q {
        k := FindAllIsLeftmost(s, p, next, q);
      }
    } else {
      k := FindAllIsLeftmost(s, p, i + 1, q);
    }
  }

  lemma FindAllStep(s: string, p: string, i: nat, q: nat)
    requires i <= q && OccursAt(s, p, q)
    ensures q <= |s|
    ensures OccursAt(s, p, i) ==>
              (i + (if p == [] then 1 else |p|) <= |s| + 1
               && FindAll(s, p, i) == [i] + FindAll(s, p, i + if p == [] then 1 else |p|))
    ensures !OccursAt(s, p, i) ==> i < q && FindAll(s, p, i) == FindAll(s, p, i + 1)
  {
    hide Positions;
  }

  // ---------------------------------------------------------------- replacing

  /** The text from position i on, with r in place of the pattern at these positions. */
  function ReplacedFrom(s: string, p: string, r: string, found: seq<nat>, i: nat): string
    requires Positions(s, p, found, i)
    decreases |found|
  {
    if found == [] then s[i..]
    else s[i..found[0]] + r + ReplacedFrom(s, p, r, found[1..], found[0] + |p|)
  }

  datatype Outcome = Done(content: string, occurrencesFound: nat, replaced: nat) | TooLarge

  function Limit(found: nat, maxOccurrences: int): nat {
    if 0 < maxOccurrences < found then maxOccurrences else found
  }

  function ReplaceText(s: string, p: string, r: string, maxOccurrences: int): Outcome {
    var found := FindAll(s, p, 0);
    if found == [] then
      Done(s, 0, 0)
    else
      var n := Limit(|found|, maxOccurrences);
      PositionsPrefix(s, p, found, 0, n);
      var content := ReplacedFrom(s, p, r, found[..n], 0);
      if |content| > MAX_FILE_SIZE then TooLarge else Done(content, |found|, n)
  }

  method ReplaceInNote(content: string, pattern: string, replacement: string, maxOccurrences: int)
    returns (outcome: Outcome)
    ensures outcome == ReplaceText(content, pattern, replacement, maxOccurrences)
  {
    hide FindAll, ReplacedFrom, Positions;
    var matches := FindAll(content, pattern, 0);
    var found := |matches|;
    if found == 0 {
      return Done(content, 0, 0);
    }
    var limit := found;
    if maxOccurrences > 0 && maxOccurrences < found {
      limit := maxOccurrences;
    }
    PositionsPrefix(content, pattern, matches, 0, limit);
    ghost var todo := matches[..limit];
    ghost var expected := ReplacedFrom(content, pattern, replacement, todo, 0);
    var b := "";
    var last := 0;
    assert todo[0..] == todo;
    for i := 0 to limit
      invariant 0 <= last && Positions(content, pattern, todo[i..], last)
      invariant b + ReplacedFrom(content, pattern, replacement, todo[i..], last) == expected
    {
      var m := matches[i];
      assert todo[i] == m && todo[i..][1..] == todo[i + 1..];
      ReplacedStep(content, pattern, replacement, todo[i..], last);
      b := b + content[last..m];
      b := b + replacement;
      last := m + |pattern|;
    }
    ReplacedEnd(content, pattern, replacement, last);
    b := b + content[last..];
    if |b| > MAX_FILE_SIZE {
      return TooLarge;
    }
    return Done(b, found, limit);
  }

  lemma ReplacedStep(s: string, p: string, r: string, found: seq<nat>, i: nat)
    requires found != [] && Positions(s, p, found, i)
    ensures i <= found[0] <= |s| && Positions(s, p, found[1..], found[0] + |p|)
    ensures ReplacedFrom(s, p, r, found, i)
            == s[i..found[0]] + r + ReplacedFrom(s, p, r, found[1..], found[0] + |p|)
  {
  }

  lemma ReplacedEnd(s: string, p: string, r: string, i: nat)
    requires Positions(s, p, [], i)
    ensures i <= |s| && ReplacedFrom(s, p, r, [], i) == s[i..]
  {
  }

  // ---------------------------------------------------------------- what the result is

  /** The text between the replaced occurrences, from position i on: one piece more than occurrences. */
  function Gaps(s: string, p: string, found: seq<nat>, i: nat): (gaps: seq<string>)
    requires Positions(s, p, found, i)
    ensures |gaps| == |found| + 1
    decreases |found|
  {
    if found == [] then [s[i..]] else [s[i..found[0]]] + Gaps(s, p, found[1..], found[0] + |p|)
  }

  function Interleave(gaps: seq<string>, x: string): string {
    if |gaps| == 0 then [] else if |gaps| == 1 then gaps[0] else gaps[0] + x + Interleave(gaps[1..], x)
  }

  /** The note and the result have the same gaps, with the pattern in the one and the replacement in
      the other between them. */
  lemma {:induction false} GapsAreVerbatim(s: string, p: string, r: string, found: seq<nat>, i: nat)
    requires Positions(s, p, found, i)
    ensures Interleave(Gaps(s, p, found, i), p) == s[i..]
    ensures Interleave(Gaps(s, p, found, i), r) == ReplacedFrom(s, p, r, found, i)
    decreases |found|
  {
    if found != [] {
      var next := found[0] + |p|;
      GapsAreVerbatim(s, p, r, found[1..], next);
      assert Gaps(s, p, found, i)[1..] == Gaps(s, p, found[1..], next);
      assert s[i..] == s[i..found[0]] + s[found[0]..next] + s[next..];
    }
  }

  lemma {:induction false} InterleaveLength(gaps: seq<string>, x: string, y: string)
    requires gaps != []
    ensures |Interleave(gaps, y)| == |Interleave(gaps, x)| + (|gaps| - 1) * (|y| - |x|)
  {
    if |gaps| > 1 {
      InterleaveLength(gaps[1..], x, y);
      assert (|gaps| - 1) * (|y| - |x|) == (|gaps| - 2) * (|y| - |x|) + (|y| - |x|);
    }
  }

  /**
   Exactly the first min(found, cap) occurrences are replaced, everything else stands as it was, the
   length changes by as much per replacement, and the number found does not depend on the cap.
   */
  lemma ReplacesFirstOccurrences(s: string, p: string, r: string, maxOccurrences: int)
    requires ReplaceText(s, p, r, maxOccurrences).Done?
    ensures var o := ReplaceText(s, p, r, maxOccurrences);
            var found := FindAll(s, p, 0);
            && o.occurrencesFound == |found|
            && o.replaced <= |found|
            && (maxOccurrences > 0 ==> o.replaced <= maxOccurrences)
            && (o.replaced == |found| || (maxOccurrences > 0 && o.replaced == maxOccurrences))
            && Positions(s, p, found[..o.replaced], 0)
            && Interleave(Gaps(s, p, found[..o.replaced], 0), p) == s
            && Interleave(Gaps(s, p, found[..o.replaced], 0), r) == o.content
            && |o.content| == |s| + o.replaced * (|r| - |p|)
  {
    var found := FindAll(s, p, 0);
    var n := Limit(|found|, maxOccurrences);
    PositionsPrefix(s, p, found, 0, n);
    GapsAreVerbatim(s, p, r, found[..n], 0);
    InterleaveLength(Gaps(s, p, found[..n], 0), p, r);
    assert s[0..] == s;
  }

  /** Refused exactly when the text would come out longer than a note may be; one without the pattern never is. */
  lemma RefusedIffTooLong(s: string, p: string, r: string, maxOccurrences: int)
    ensures var found := |FindAll(s, p, 0)|;
            var replaced := if maxOccurrences > 0 && maxOccurrences < found then maxOccurrences else found;
            ReplaceText(s, p, r, maxOccurrences) == TooLarge
            <==> found > 0 && |s| + replaced * (|r| - |p|) > 16 * 1024 * 1024
  {
    hide FindAll, Gaps;
    var found := FindAll(s, p, 0);
    var n := Limit(|found|, maxOccurrences);
    PositionsPrefix(s, p, found, 0, n);
    GapsAreVerbatim(s, p, r, found[..n], 0);
    InterleaveLength(Gaps(s, p, found[..n], 0), p, r);
    assert s[0..] == s;
  }
}
