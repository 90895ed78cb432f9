/**
 Does a rename replace every occurrence of the tag (internal/vault/renametag.go:148-184)? The pattern
 consumes the separator behind a tag, so a tag that needs the same character in front of it is missed.
 This is the only way one is missed: all occurrences are replaced exactly when no two of them stand with
 at most one character between them.
 */
module TagCoverage {
  import opened Wrappers
  import opened Lines
  import opened Fences
  import opened TagEdits

  /** The tag stands at position i of a line, or of the rest of one whose first character may follow atLead. */
  predicate Occurs(ln: set<char>, s: string, atLead: bool, tag: string, i: nat) {
    && i < |s|
    && (if i == 0 then atLead else LeadChar(ln, s[i - 1]))
    && TagAt(ln, s[i..], tag).Some?
  }

  /** Told on the whole line: what may stand in front of the '#' of a tag, and what behind its last character. */
  lemma OccursMeans(ln: set<char>, s: string, tag: string, i: nat)
    ensures var end := i + 1 + |tag|;
            Occurs(ln, s, true, tag, i)
            <==> && end <= |s| && s[i..end] == "#" + tag
                 && (i == 0 || s[i - 1] !in ln + {'_', '/'})
                 && (end == |s| || s[end] !in ln + {'_', '/', '-'})
  {
    var end := i + 1 + |tag|;
    if end <= |s| {
      assert s[i..][..1 + |tag|] == s[i..end];
    }
  }

  /** How many positions that are. */
  function Occurrences(ln: set<char>, s: string, atLead: bool, tag: string): nat {
    if s == [] then 0
    else (if Occurs(ln, s, atLead, tag, 0) then 1 else 0) + Occurrences(ln, s[1..], LeadChar(ln, s[0]), tag)
  }

  /** Behind the occurrence at the front another one begins at once, or after one character. */
  predicate FollowedClosely(ln: set<char>, s: string, atLead: bool, tag: string) {
    Occurs(ln, s, atLead, tag, |tag| + 1) || Occurs(ln, s, atLead, tag, |tag| + 2)
  }

  predicate Crowded(ln: set<char>, s: string, atLead: bool, tag: string) {
    s != [] && ((Occurs(ln, s, atLead, tag, 0) && FollowedClosely(ln, s, atLead, tag))
                || Crowded(ln, s[1..], LeadChar(ln, s[0]), tag))
  }

  lemma OccursInRest(ln: set<char>, s: string, atLead: bool, tag: string, i: nat)
    requires s != []
    ensures Occurs(ln, s, atLead, tag, i + 1) == Occurs(ln, s[1..], LeadChar(ln, s[0]), tag, i)
  {
    hide TagAt;
    if i + 1 < |s| {
      assert s[1..][i..] == s[i + 1..];
    }
  }

  predicate CloseAt(ln: set<char>, s: string, atLead: bool, tag: string, i: nat) {
    && Occurs(ln, s, atLead, tag, i)
    && (Occurs(ln, s, atLead, tag, i + |tag| + 1) || Occurs(ln, s, atLead, tag, i + |tag| + 2))
  }

  /** Two occurrences with at most one character between them, wherever they stand. */
  lemma {:induction false} CrowdedMeans(ln: set<char>, s: string, atLead: bool, tag: string)
    ensures Crowded(ln, s, atLead, tag)
            <==> exists i: nat :: CloseAt(ln, s, atLead, tag, i)
  {
    hide TagAt, Occurs;
    if s == [] {
      NothingOccurs(ln, atLead, tag);
    } else {
      var t, lead := s[1..], LeadChar(ln, s[0]);
      CrowdedMeans(ln, t, lead, tag);
      if i: nat :| CloseAt(ln, t, lead, tag, i) {
        CloseInRest(ln, s, atLead, tag, i);
      }
      if i: nat :| CloseAt(ln, s, atLead, tag, i) {
        if i > 0 {
          CloseInRest(ln, s, atLead, tag, i - 1);
        }
      }
      assert CloseAt(ln, s, atLead, tag, 0)
          == (Occurs(ln, s, atLead, tag, 0) && FollowedClosely(ln, s, atLead, tag));
    }
  }

  lemma CloseInRest(ln: set<char>, s: string, atLead: bool, tag: string, i: nat)
    requires s != []
    ensures CloseAt(ln, s, atLead, tag, i + 1) == CloseAt(ln, s[1..], LeadChar(ln, s[0]), tag, i)
  {
    hide Occurs;
    OccursInRest(ln, s, atLead, tag, i);
    OccursInRest(ln, s, atLead, tag, i + |tag| + 1);
    OccursInRest(ln, s, atLead, tag, i + |tag| + 2);
  }

  lemma NothingOccurs(ln: set<char>, atLead: bool, tag: string)
    ensures forall i: nat :: !Occurs(ln, [], atLead, tag, i)
  {
  }

  // ---------------------------------------------------------------- what a match skips

  /** Whether a lead stands in front matters to the first position only. */
  lemma OnlyFirstNeedsLead(ln: set<char>, t: string, tag: string)
    ensures Occurrences(ln, t, true, tag)
            == Occurrences(ln, t, false, tag) + if t != [] && TagAt(ln, t, tag).Some? then 1 else 0
    ensures t == [] || TagAt(ln, t, tag).None? ==> Crowded(ln, t, true, tag) == Crowded(ln, t, false, tag)
  {
    hide TagAt;
    if t != [] {
      assert t[0..] == t;
    }
  }

  predicate LastLead(ln: set<char>, u: string, atLead: bool) {
    if u == [] then atLead else LeadChar(ln, u[|u| - 1])
  }

  /** No tag begins inside a run of tag characters. */
  lemma {:induction false} SkipRun(ln: set<char>, u: string, t: string, atLead: bool, tag: string)
    requires '#' !in ln && forall k | 0 <= k < |u| :: TagChar(ln, u[k])
    ensures Occurrences(ln, u + t, atLead, tag) == Occurrences(ln, t, LastLead(ln, u, atLead), tag)
    ensures Crowded(ln, u + t, atLead, tag) == Crowded(ln, t, LastLead(ln, u, atLead), tag)
  {
    if u == [] {
      assert u + t == t;
    } else {
      var s := u + t;
      assert s[1..] == u[1..] + t && s[0] == u[0] && s[0..] == s;
      NoTagBeforeTagChar(ln, s, tag);
      SkipRun(ln, u[1..], t, LeadChar(ln, u[0]), tag);
      assert LastLead(ln, u[1..], LeadChar(ln, u[0])) == LastLead(ln, u, atLead);
    }
  }

  lemma NoTagBeforeTagChar(ln: set<char>, s: string, tag: string)
    requires '#' !in ln && s != [] && TagChar(ln, s[0])
    ensures TagAt(ln, s, tag).None?
  {
    assert ("#" + tag)[0] == '#';
  }

  /** Where the pattern stands, the rest it leaves, and the occurrences it takes away from it. */
  lemma BehindTag(ln: set<char>, s: string, tag: string)
    requires Alphabet(ln) && IsTag(ln, tag) && TagAt(ln, s, tag).Some?
    ensures var n := 1 + |tag| + TagAt(ln, s, tag).value;
            && 0 < n <= |s|
            && Occurrences(ln, s, true, tag) >= 1 + Occurrences(ln, s[n..], false, tag)
            && (Occurrences(ln, s, true, tag) == 1 + Occurrences(ln, s[n..], false, tag)
                <==> !FollowedClosely(ln, s, true, tag))
            && (!FollowedClosely(ln, s, true, tag) ==>
                  Crowded(ln, s, true, tag) == Crowded(ln, s[n..], false, tag))
            && (FollowedClosely(ln, s, true, tag) ==> Crowded(ln, s, true, tag))
  {
    hide TagAt;
    TagOrEnd(ln, s, tag);
    var after := s[1 + |tag|..];
    assert s[0..] == s;
    SkipRun(ln, tag, after, LeadChar(ln, '#'), tag);
    if after == [] {
      assert s[1 + |tag| + TagAt(ln, s, tag).value..] == [];
      assert !FollowedClosely(ln, s, true, tag);
    } else {
      BehindSeparator(ln, s, after, tag);
    }
  }

  lemma TagOrEnd(ln: set<char>, s: string, tag: string)
    requires TagAt(ln, s, tag).Some?
    ensures |s| >= 1 + |tag| && TagAt(ln, s, tag) == if |s| == 1 + |tag| then Some(0) else Some(1)
    ensures |s| > 1 + |tag| ==> !TagChar(ln, s[1 + |tag|])
    ensures s[0] == '#' && s[1..] == tag + s[1 + |tag|..] && s == "#" + tag + s[1 + |tag|..]
  {
    assert s == "#" + tag + s[1 + |tag|..];
  }

  lemma BehindSeparator(ln: set<char>, s: string, after: string, tag: string)
    requires tag != [] && |s| > 1 + |tag| && after == s[1 + |tag|..] && s == "#" + tag + after
    requires !TagChar(ln, after[0])
    ensures var lead := LeadChar(ln, tag[|tag| - 1]);
            var rest := s[2 + |tag|..];
            var close := (if Occurs(ln, s, true, tag, |tag| + 1) then 1 else 0)
                         + (if Occurs(ln, s, true, tag, |tag| + 2) then 1 else 0);
            && Occurrences(ln, after, lead, tag) == close + Occurrences(ln, rest, false, tag)
            && (close == 0 ==> Crowded(ln, after, lead, tag) == Crowded(ln, rest, false, tag))
  {
    hide TagAt;
    var rest := s[2 + |tag|..];
    assert after[1..] == rest && after[0..] == after && s[|tag| + 1..] == after;
    assert s[|tag|] == tag[|tag| - 1] && s[|tag| + 1] == after[0];
    OnlyFirstNeedsLead(ln, rest, tag);
    if rest != [] {
      assert s[|tag| + 2..] == rest;
    }
  }

  // ---------------------------------------------------------------- the count

  /** On a line: never more matches than occurrences, and as many exactly when the line is not crowded. */
  lemma {:induction false} ReplacesAllIffNotCrowded(
      ln: set<char>, s: string, atStart: bool, oldTag: string, newTag: string)
    requires Alphabet(ln) && IsTag(ln, oldTag)
    ensures var count := Rename(ln, s, atStart, oldTag, newTag).count;
            && count <= Occurrences(ln, s, atStart, oldTag)
            && (count == Occurrences(ln, s, atStart, oldTag) <==> !Crowded(ln, s, atStart, oldTag))
    decreases |s|
  {
    hide TagAt, RenamedMatch, FollowedClosely, Alphabet, IsTag;
    MatchFits(ln, s, atStart, oldTag);
    if s == [] {
      NoTagInNothing(ln, oldTag);
    } else {
      var t := s[1..];
      assert s[0..] == s;
      OnlyFirstNeedsLead(ln, t, oldTag);
      if atStart && TagAt(ln, s, oldTag).Some? {
        BehindTag(ln, s, oldTag);
        var n := 1 + |oldTag| + TagAt(ln, s, oldTag).value;
        ReplacesAllIffNotCrowded(ln, s[n..], false, oldTag, newTag);
      } else if LeadChar(ln, s[0]) && TagAt(ln, t, oldTag).Some? {
        BehindTag(ln, t, oldTag);
        assert t[0..] == t;
        var n := 1 + |oldTag| + TagAt(ln, t, oldTag).value;
        assert n <= |t| == |s| - 1;
        assert t[n..] == s[1 + n..];
        ReplacesAllIffNotCrowded(ln, t[n..], false, oldTag, newTag);
      } else {
        ReplacesAllIffNotCrowded(ln, t, false, oldTag, newTag);
      }
    }
  }

  lemma NoTagInNothing(ln: set<char>, tag: string)
    ensures TagAt(ln, [], tag).None?
  {
    assert |"#" + tag| > 0;
  }

  /** The occurrences of the tag in the unfenced lines among the first n. */
  function BodyOccurrences(ln: set<char>, lines: seq<string>, n: nat, tag: string): nat
    requires n <= |lines|
  {
    if n == 0 then 0
    else BodyOccurrences(ln, lines, n - 1, tag)
         + if Fenced(lines, n - 1) then 0 else Occurrences(ln, lines[n - 1], true, tag)
  }

  predicate SomeLineCrowded(ln: set<char>, lines: seq<string>, n: nat, tag: string)
    requires n <= |lines|
  {
    exists i | 0 <= i < n :: !Fenced(lines, i) && Crowded(ln, lines[i], true, tag)
  }

  lemma {:induction false} CountedUpTo(ln: set<char>, lines: seq<string>, n: nat, oldTag: string, newTag: string)
    requires Alphabet(ln) && IsTag(ln, oldTag) && n <= |lines|
    ensures RenameCount(ln, lines, n, oldTag, newTag) <= BodyOccurrences(ln, lines, n, oldTag)
    ensures RenameCount(ln, lines, n, oldTag, newTag) == BodyOccurrences(ln, lines, n, oldTag)
            <==> !SomeLineCrowded(ln, lines, n, oldTag)
  {
    hide Fenced, Rename, Occurrences, Crowded, Alphabet, IsTag;
    if n > 0 {
      CountedUpTo(ln, lines, n - 1, oldTag, newTag);
      ReplacesAllIffNotCrowded(ln, lines[n - 1], true, oldTag, newTag);
      if !Fenced(lines, n - 1) && Crowded(ln, lines[n - 1], true, oldTag) {
        assert SomeLineCrowded(ln, lines, n, oldTag);
      } else {
        assert SomeLineCrowded(ln, lines, n, oldTag) <==> SomeLineCrowded(ln, lines, n - 1, oldTag);
      }
    }
  }

  /**
   The count a rename reports is at most the number of occurrences outside fenced code, and is that
   number - every occurrence is replaced - exactly when no unfenced line has two of them crowded.
   */
  lemma RenameReplacesAllIff(ln: set<char>, body: string, oldTag: string, newTag: string)
    requires Alphabet(ln) && IsTag(ln, oldTag)
    ensures var lines := Split(body);
            var count := RenamedBody(ln, body, oldTag, newTag).count;
            && count <= BodyOccurrences(ln, lines, |lines|, oldTag)
            && (count == BodyOccurrences(ln, lines, |lines|, oldTag)
                <==> !SomeLineCrowded(ln, lines, |lines|, oldTag))
  {
    hide SomeLineCrowded, BodyOccurrences;
    CountedUpTo(ln, Split(body), |Split(body)|, oldTag, newTag);
  }
}
