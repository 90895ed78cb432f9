/**
 What RemoveTag's inline half reaches and what it leaves behind (internal/vault/tags.go:385-429). It drops
 exactly the matches a rename would replace; a tag is left on the line exactly when the text it writes
 spells one, which a test of the line before the edit tells; the same test tells which lines it turns into
 fence openers, and so when the fences of a body survive.
 */
module TagRemoval {
  import opened Wrappers
  import opened Lines
  import opened Fences
  import opened TagEdits
  import opened TagCoverage

  // ---------------------------------------------------------------- the parts of a line

  /** A character that is copied, or a match with what stands around its tag. */
  datatype Segment = Copied(c: char) | Tagged(lead: string, sep: string)

  function Segments(ln: set<char>, s: string, atStart: bool, tag: string): seq<Segment>
    decreases |s|
  {
    var m := MatchAt(ln, s, atStart, tag);
    if m.Some? then
      MatchFits(ln, s, atStart, tag);
      var k, n := m.value.lead + 1 + |tag|, HitLength(m.value, tag);
      [Tagged(s[..m.value.lead], s[k..n])] + Segments(ln, s[n..], false, tag)
    else if s == [] then
      []
    else
      [Copied(s[0])] + Segments(ln, s[1..], false, tag)
  }

  /** A segment with this tag in it. */
  function PartWithTag(part: Segment, tag: string): string {
    if part.Copied? then [part.c] else InContext(part.lead, tag, part.sep, [])
  }

  /** A segment cut down to its lead, of which a '#' goes too. */
  function PartWithoutTag(part: Segment): string {
    if part.Copied? then [part.c]
    else if part.lead == [] || part.lead[0] == '#' then []
    else [FirstByte(part.lead[0])]
  }

  function WithTag(segments: seq<Segment>, tag: string): string {
    if segments == [] then [] else PartWithTag(segments[0], tag) + WithTag(segments[1..], tag)
  }

  function WithoutTag(segments: seq<Segment>): string {
    if segments == [] then [] else PartWithoutTag(segments[0]) + WithoutTag(segments[1..])
  }

  function Matches(segments: seq<Segment>): nat {
    if segments == [] then 0 else (if segments[0].Tagged? then 1 else 0) + Matches(segments[1..])
  }

  lemma LeadAndSeparator(ln: set<char>, s: string, atStart: bool, tag: string)
    requires MatchAt(ln, s, atStart, tag).Some?
    ensures var hit := MatchAt(ln, s, atStart, tag).value;
            && HitLength(hit, tag) <= |s|
            && (hit.lead == 0 ==> atStart) && (hit.lead > 0 ==> LeadChar(ln, s[0]))
            && (hit.sep == 0 ==> |s| == HitLength(hit, tag))
            && (hit.sep > 0 ==> !TagChar(ln, s[hit.lead + 1 + |tag|]))
  {
  }

  lemma AroundTag(s: string, a: nat, k: nat, n: nat, tag: string)
    requires a <= 1 && a < k <= n <= |s| && s[a..k] == "#" + tag
    ensures s[..n] == InContext(s[..a], tag, s[k..n], [])
    ensures RemovedMatch(s[..n]) == PartWithoutTag(Tagged(s[..a], s[k..n]))
  {
    assert s[..n] == s[..a] + s[a..k] + s[k..n];
    assert s[a] == s[a..k][0] == '#' && s[..n][0] == s[0];
    assert s[..a] + ("#" + tag) + s[k..n] == InContext(s[..a], tag, s[k..n], []);
  }

  lemma TaggedPart(ln: set<char>, s: string, atStart: bool, tag: string)
    requires MatchAt(ln, s, atStart, tag).Some?
    ensures var hit := MatchAt(ln, s, atStart, tag).value;
            var k, n := hit.lead + 1 + |tag|, HitLength(hit, tag);
            && n <= |s| && hit.lead <= 1 && k <= n
            && s[..n] == InContext(s[..hit.lead], tag, s[k..n], [])
            && Context(ln, s[..hit.lead], s[k..n], s[n..], atStart)
            && RemovedMatch(s[..n]) == PartWithoutTag(Tagged(s[..hit.lead], s[k..n]))
  {
    MatchFits(ln, s, atStart, tag);
    LeadAndSeparator(ln, s, atStart, tag);
    hide MatchAt, InContext, LeadChar, TagChar;
    var hit := MatchAt(ln, s, atStart, tag).value;
    var k, n := hit.lead + 1 + |tag|, HitLength(hit, tag);
    AroundTag(s, hit.lead, k, n, tag);
  }

  /** What the three scans do with a match: each treats it, and goes on behind it. */
  lemma {:induction false} ScansAtMatch(ln: set<char>, s: string, atStart: bool, tag: string, newTag: string)
    requires Alphabet(ln) && IsTag(ln, tag) && MatchAt(ln, s, atStart, tag).Some?
    ensures var hit := MatchAt(ln, s, atStart, tag).value;
            var k, n := hit.lead + 1 + |tag|, HitLength(hit, tag);
            && 0 < n <= |s| && hit.lead <= k <= n
            && var part := Tagged(s[..hit.lead], s[k..n]);
            var rest := s[n..];
            && s[..n] == PartWithTag(part, tag)
            && Segments(ln, s, atStart, tag) == [part] + Segments(ln, rest, false, tag)
            && Remove(ln, s, atStart, tag) == PartWithoutTag(part) + Remove(ln, rest, false, tag)
            && var renamed := Rename(ln, rest, false, tag, newTag);
            Rename(ln, s, atStart, tag, newTag) == Edit(PartWithTag(part, newTag) + renamed.text, renamed.count + 1)
  {
    hide MatchAt, RenamedMatch, RemovedMatch, Context, Alphabet, IsTag, PartWithoutTag, InContext;
    TaggedPart(ln, s, atStart, tag);
    var hit := MatchAt(ln, s, atStart, tag).value;
    var k, n := hit.lead + 1 + |tag|, HitLength(hit, tag);
    RenamedMatchKeepsContext(ln, s[..hit.lead], tag, newTag, s[k..n], s[n..], atStart);
  }

  lemma {:induction false} ScansElsewhere(ln: set<char>, s: string, atStart: bool, tag: string, newTag: string)
    requires MatchAt(ln, s, atStart, tag).None? && s != []
    ensures Segments(ln, s, atStart, tag) == [Copied(s[0])] + Segments(ln, s[1..], false, tag)
    ensures Remove(ln, s, atStart, tag) == [s[0]] + Remove(ln, s[1..], false, tag)
    ensures var renamed := Rename(ln, s[1..], false, tag, newTag);
            Rename(ln, s, atStart, tag, newTag) == Edit([s[0]] + renamed.text, renamed.count)
  {
    hide MatchAt;
  }

  lemma ScansNothing(ln: set<char>, atStart: bool, tag: string, newTag: string)
    ensures Segments(ln, [], atStart, tag) == [] && Remove(ln, [], atStart, tag) == []
    ensures Rename(ln, [], atStart, tag, newTag) == Edit([], 0)
    ensures WithTag([], tag) == [] && WithTag([], newTag) == [] && WithoutTag([]) == [] && Matches([]) == 0
  {
    NoTagInNothing(ln, tag);
  }

  lemma SegmentsCons(part: Segment, rest: seq<Segment>, tag: string)
    ensures WithTag([part] + rest, tag) == PartWithTag(part, tag) + WithTag(rest, tag)
    ensures WithoutTag([part] + rest) == PartWithoutTag(part) + WithoutTag(rest)
    ensures Matches([part] + rest) == (if part.Tagged? then 1 else 0) + Matches(rest)
  {
    hide PartWithTag, PartWithoutTag;
    assert ([part] + rest)[1..] == rest;
  }

  /** The line is its segments with the tag; the two editors write them with the new tag, and without. */
  lemma {:induction false} EditorsWriteSegments(ln: set<char>, s: string, atStart: bool, tag: string, newTag: string)
    requires Alphabet(ln) && IsTag(ln, tag)
    ensures var segments := Segments(ln, s, atStart, tag);
            && WithTag(segments, tag) == s
            && Rename(ln, s, atStart, tag, newTag) == Edit(WithTag(segments, newTag), Matches(segments))
            && Remove(ln, s, atStart, tag) == WithoutTag(segments)
    decreases |s|
  {
    hide MatchAt, Alphabet, IsTag, Rename, Remove, Segments, WithTag, WithoutTag, Matches, InContext, PartWithoutTag;
    if s == [] {
      ScansNothing(ln, atStart, tag, newTag);
    } else {
      var m := MatchAt(ln, s, atStart, tag);
      var part, rest := Copied(s[0]), s[1..];
      if m.Some? {
        ScansAtMatch(ln, s, atStart, tag, newTag);
        var k, n := m.value.lead + 1 + |tag|, HitLength(m.value, tag);
        part, rest := Tagged(s[..m.value.lead], s[k..n]), s[n..];
        assert s == s[..n] + rest;
      } else {
        ScansElsewhere(ln, s, atStart, tag, newTag);
        CopiedPart(s[0]);
        assert s == [s[0]] + rest;
      }
      EditorsWriteSegments(ln, rest, false, tag, newTag);
      SegmentsCons(part, Segments(ln, rest, false, tag), tag);
      SegmentsCons(part, Segments(ln, rest, false, tag), newTag);
    }
  }

  lemma CopiedPart(c: char)
    ensures PartWithoutTag(Copied(c)) == [c]
  {
  }

  // ---------------------------------------------------------------- how many tags it drops

  /** The tags a removal drops from the unfenced lines among the first n. */
  function RemovalCount(ln: set<char>, lines: seq<string>, n: nat, tag: string): nat
    requires n <= |lines|
  {
    if n == 0 then 0
    else RemovalCount(ln, lines, n - 1, tag)
         + if Fenced(lines, n - 1) then 0 else Matches(Segments(ln, lines[n - 1], true, tag))
  }

  lemma {:induction false} SameCount(ln: set<char>, lines: seq<string>, n: nat, tag: string)
    requires Alphabet(ln) && IsTag(ln, tag) && n <= |lines|
    ensures RemovalCount(ln, lines, n, tag) == RenameCount(ln, lines, n, tag, tag)
  {
    hide Fenced, Segments, Rename, Alphabet, IsTag, Matches, Remove, WithTag, WithoutTag;
    if n > 0 {
      SameCount(ln, lines, n - 1, tag);
      EditorsWriteSegments(ln, lines[n - 1], true, tag, tag);
    }
  }

  /** On a line: never more than the occurrences, and all of them exactly when the line is not crowded. */
  lemma DropsAllIffNotCrowded(ln: set<char>, s: string, atStart: bool, tag: string)
    requires Alphabet(ln) && IsTag(ln, tag)
    ensures var dropped := Matches(Segments(ln, s, atStart, tag));
            && dropped <= Occurrences(ln, s, atStart, tag)
            && (dropped == Occurrences(ln, s, atStart, tag) <==> !Crowded(ln, s, atStart, tag))
  {
    EditorsWriteSegments(ln, s, atStart, tag, tag);
    ReplacesAllIffNotCrowded(ln, s, atStart, tag, tag);
  }

  /** RemoveTag drops every occurrence outside fenced code exactly when no unfenced line is crowded. */
  lemma RemovalDropsAllIff(ln: set<char>, body: string, tag: string)
    requires Alphabet(ln) && IsTag(ln, tag)
    ensures var lines := Split(body);
            var dropped := RemovalCount(ln, lines, |lines|, tag);
            && dropped <= BodyOccurrences(ln, lines, |lines|, tag)
            && (dropped == BodyOccurrences(ln, lines, |lines|, tag) <==> !SomeLineCrowded(ln, lines, |lines|, tag))
  {
    hide BodyOccurrences, SomeLineCrowded;
    SameCount(ln, Split(body), |Split(body)|, tag);
    CountedUpTo(ln, Split(body), |Split(body)|, tag, tag);
  }

  // ---------------------------------------------------------------- what it writes, read off the line

  function RestBehind(ln: set<char>, s: string, tag: string): (rest: string)
    requires TagAt(ln, s, tag).Some?
    ensures |rest| < |s|
  {
    s[1 + |tag| + TagAt(ln, s, tag).value..]
  }

  /** A character in front of the tag, which may stand there. */
  predicate LeadsTag(ln: set<char>, s: string, tag: string) {
    s != [] && LeadChar(ln, s[0]) && TagAt(ln, s[1..], tag).Some?
  }

  /** Drops the matches that write nothing: one at the start of the line, and those with a '#' in front. */
  function DropSilent(ln: set<char>, s: string, atStart: bool, tag: string): (rest: string)
    ensures |rest| <= |s|
    ensures rest == [] || rest[0] != '#' || !LeadsTag(ln, rest, tag)
    decreases |s|
  {
    if atStart && TagAt(ln, s, tag).Some? then DropSilent(ln, RestBehind(ln, s, tag), false, tag)
    else if LeadsTag(ln, s, tag) && s[0] == '#' then DropSilent(ln, RestBehind(ln, s[1..], tag), false, tag)
    else s
  }

  /** The first character that is written. */
  function Written(ln: set<char>, s: string, tag: string): char
    requires s != []
  {
    if LeadsTag(ln, s, tag) then FirstByte(s[0]) else s[0]
  }

  /** What is still to be read then. */
  function Onward(ln: set<char>, s: string, tag: string): (rest: string)
    requires s != []
    ensures |rest| < |s|
  {
    if LeadsTag(ln, s, tag) then RestBehind(ln, s[1..], tag) else s[1..]
  }

  lemma LeadMatches(ln: set<char>, s: string, atStart: bool, tag: string)
    requires LeadsTag(ln, s, tag) && !(atStart && TagAt(ln, s, tag).Some?)
    ensures s != [] && TagAt(ln, s[1..], tag).Some?
    ensures MatchAt(ln, s, atStart, tag) == Some(Hit(1, TagAt(ln, s[1..], tag).value))
  {
    hide TagAt;
  }

  lemma {:induction false} RemoveAtMatch(ln: set<char>, s: string, atStart: bool, tag: string)
    requires MatchAt(ln, s, atStart, tag).Some?
    ensures var n := HitLength(MatchAt(ln, s, atStart, tag).value, tag);
            n <= |s| && Remove(ln, s, atStart, tag) == RemovedMatch(s[..n]) + Remove(ln, s[n..], false, tag)
  {
    MatchFits(ln, s, atStart, tag);
    hide MatchAt, RemovedMatch;
  }

  lemma FirstOfMatch(s: string, n: nat)
    requires 0 < n <= |s|
    ensures RemovedMatch(s[..n]) == if s[0] == '#' then [] else [FirstByte(s[0])]
  {
    hide FirstByte;
    assert s[..n][0] == s[0];
  }

  /** Away from the start of the line, one match with a lead. */
  lemma {:induction false} RemoveAtLead(ln: set<char>, s: string, atStart: bool, tag: string)
    requires LeadsTag(ln, s, tag) && !(atStart && TagAt(ln, s, tag).Some?)
    ensures Remove(ln, s, atStart, tag)
            == (if s[0] == '#' then [] else [FirstByte(s[0])]) + Remove(ln, RestBehind(ln, s[1..], tag), false, tag)
  {
    hide TagAt, MatchAt, LeadsTag, Remove, RemovedMatch, FirstByte;
    LeadMatches(ln, s, atStart, tag);
    RemoveAtMatch(ln, s, atStart, tag);
    var n := 2 + |tag| + TagAt(ln, s[1..], tag).value;
    BehindFits(ln, s[1..], tag);
    assert s[1..][n - 1..] == s[n..];
    FirstOfMatch(s, n);
  }

  lemma {:induction false} RemoveAtStart(ln: set<char>, s: string, tag: string)
    requires TagAt(ln, s, tag).Some?
    ensures Remove(ln, s, true, tag) == Remove(ln, RestBehind(ln, s, tag), false, tag)
  {
    hide TagAt, MatchAt, Remove, RemovedMatch, FirstByte;
    StartMatches(ln, s, tag);
    RemoveAtMatch(ln, s, true, tag);
    var n := 1 + |tag| + TagAt(ln, s, tag).value;
    BehindFits(ln, s, tag);
    FirstOfMatch(s, n);
    assert [] + Remove(ln, s[n..], false, tag) == Remove(ln, s[n..], false, tag);
  }

  lemma StartMatches(ln: set<char>, s: string, tag: string)
    requires TagAt(ln, s, tag).Some?
    ensures s != [] && s[0] == '#' && MatchAt(ln, s, true, tag) == Some(Hit(0, TagAt(ln, s, tag).value))
  {
  }

  lemma {:induction false} RemoveElsewhere(ln: set<char>, s: string, atStart: bool, tag: string)
    requires !LeadsTag(ln, s, tag) && !(atStart && TagAt(ln, s, tag).Some?)
    ensures Remove(ln, s, atStart, tag) == if s == [] then [] else [s[0]] + Remove(ln, s[1..], false, tag)
  {
    hide TagAt;
  }

  lemma {:induction false} SilentWritesNothing(ln: set<char>, s: string, atStart: bool, tag: string)
    ensures Remove(ln, s, atStart, tag) == Remove(ln, DropSilent(ln, s, atStart, tag), false, tag)
    decreases |s|
  {
    hide TagAt, Remove, RestBehind;
    if atStart && TagAt(ln, s, tag).Some? {
      RemoveAtStart(ln, s, tag);
      SilentWritesNothing(ln, RestBehind(ln, s, tag), false, tag);
    } else if LeadsTag(ln, s, tag) {
      RemoveAtLead(ln, s, atStart, tag);
      RemoveAtLead(ln, s, false, tag);
      if s[0] == '#' {
        var rest := RestBehind(ln, s[1..], tag);
        SilentWritesNothing(ln, rest, false, tag);
        assert [] + Remove(ln, rest, false, tag) == Remove(ln, rest, false, tag);
      }
    } else {
      RemoveElsewhere(ln, s, atStart, tag);
      RemoveElsewhere(ln, s, false, tag);
    }
  }

  /** Otherwise one character is written at a time. */
  lemma WritesFirst(ln: set<char>, s: string, atStart: bool, tag: string)
    ensures var t := DropSilent(ln, s, atStart, tag);
            Remove(ln, s, atStart, tag)
            == if t == [] then [] else [Written(ln, t, tag)] + Remove(ln, Onward(ln, t, tag), false, tag)
  {
    hide TagAt, Remove, RestBehind;
    SilentWritesNothing(ln, s, atStart, tag);
    var t := DropSilent(ln, s, atStart, tag);
    if LeadsTag(ln, t, tag) {
      RemoveAtLead(ln, t, false, tag);
    } else {
      RemoveElsewhere(ln, t, false, tag);
    }
  }

  /** What is still to be read once p has been written, when the line writes p first. */
  function After(ln: set<char>, s: string, atStart: bool, tag: string, p: string): Option<string>
    decreases |p|
  {
    if p == [] then Some(DropSilent(ln, s, atStart, tag))
    else
      var t := DropSilent(ln, s, atStart, tag);
      if t != [] && Written(ln, t, tag) == p[0] then After(ln, Onward(ln, t, tag), false, tag, p[1..]) else None
  }

  lemma PrefixCons(p: string, c: char, r: string)
    requires p != []
    ensures p <= [c] + r <==> p[0] == c && p[1..] <= r
  {
    assert ([c] + r)[1..] == r && p == [p[0]] + p[1..];
    if p <= [c] + r {
      assert p[1..] == r[..|p| - 1];
    }
  }

  lemma {:induction false} AfterMeans(ln: set<char>, s: string, atStart: bool, tag: string, p: string)
    ensures After(ln, s, atStart, tag, p).Some? <==> p <= Remove(ln, s, atStart, tag)
    ensures After(ln, s, atStart, tag, p).Some? ==>
              var rest := After(ln, s, atStart, tag, p).value;
              Remove(ln, s, atStart, tag) == p + Remove(ln, rest, false, tag)
              && rest == DropSilent(ln, rest, false, tag)
    decreases |p|
  {
    hide Remove, Written, Onward, TagAt, DropSilent;
    WritesFirst(ln, s, atStart, tag);
    if p == [] {
      SilentWritesNothing(ln, s, atStart, tag);
      assert [] + Remove(ln, s, atStart, tag) == Remove(ln, s, atStart, tag);
      SilentOnce(ln, s, atStart, tag);
    } else {
      var t := DropSilent(ln, s, atStart, tag);
      if t != [] {
        var w, rest := Written(ln, t, tag), Onward(ln, t, tag);
        AfterMeans(ln, rest, false, tag, p[1..]);
        PrefixCons(p, w, Remove(ln, rest, false, tag));
        if w == p[0] && After(ln, rest, false, tag, p[1..]).Some? {
          var behind := Remove(ln, After(ln, rest, false, tag, p[1..]).value, false, tag);
          assert [w] + (p[1..] + behind) == p + behind;
        }
      }
    }
  }

  lemma {:induction false} SilentOnce(ln: set<char>, s: string, atStart: bool, tag: string)
    ensures var rest := DropSilent(ln, s, atStart, tag);
            DropSilent(ln, rest, false, tag) == rest
    decreases |s|
  {
    hide TagAt;
    if atStart && TagAt(ln, s, tag).Some? {
      SilentOnce(ln, RestBehind(ln, s, tag), false, tag);
    } else if LeadsTag(ln, s, tag) && s[0] == '#' {
      SilentOnce(ln, RestBehind(ln, s[1..], tag), false, tag);
    }
  }

  // ---------------------------------------------------------------- tags that are left behind

  /** What is still to be read writes the tag, and then a separator or nothing. */
  predicate SpellsTag(ln: set<char>, s: string, tag: string) {
    var rest := After(ln, s, false, tag, "#" + tag);
    rest.Some? && (rest.value == [] || !TagChar(ln, Written(ln, rest.value, tag)))
  }

  /** Somewhere on the way the tag is spelled behind a character it may follow; lead says this of the start. */
  predicate LeavesTag(ln: set<char>, s: string, atStart: bool, lead: bool, tag: string)
    decreases |s|
  {
    var t := DropSilent(ln, s, atStart, tag);
    t != [] && ((lead && SpellsTag(ln, t, tag))
                || LeavesTag(ln, Onward(ln, t, tag), false, LeadChar(ln, Written(ln, t, tag)), tag))
  }

  lemma SpellsTagMeans(ln: set<char>, s: string, tag: string)
    ensures SpellsTag(ln, s, tag) <==> TagAt(ln, Remove(ln, s, false, tag), tag).Some?
  {
    hide Remove, After, Written, DropSilent;
    var p := "#" + tag;
    AfterMeans(ln, s, false, tag, p);
    var r := After(ln, s, false, tag, p);
    if r.Some? {
      WritesFirst(ln, r.value, false, tag);
      var rest := Remove(ln, r.value, false, tag);
      assert (p + rest)[|p|..] == rest;
    }
  }

  /**
   Which lines still carry the tag after the removal, exactly: those that spell it anew. A missed occurrence
   counts as long as what is written in front of it may precede a tag, and so does one put together from
   the text before and behind a match, across a '-' that is kept or a '#' that is not.
   */
  lemma {:induction false} TagIsLeftIff(ln: set<char>, s: string, atStart: bool, lead: bool, tag: string)
    ensures Occurrences(ln, Remove(ln, s, atStart, tag), lead, tag) > 0 <==> LeavesTag(ln, s, atStart, lead, tag)
    decreases |s|
  {
    hide Remove, SpellsTag, TagAt, Written, Onward, DropSilent;
    WritesFirst(ln, s, atStart, tag);
    var t := DropSilent(ln, s, atStart, tag);
    if t != [] {
      SilentWritesNothing(ln, s, atStart, tag);
      var r := Remove(ln, s, atStart, tag);
      var w, rest := Written(ln, t, tag), Onward(ln, t, tag);
      SpellsTagMeans(ln, t, tag);
      assert r[0..] == r && r[0] == w && r[1..] == Remove(ln, rest, false, tag);
      TagIsLeftIff(ln, rest, false, LeadChar(ln, w), tag);
    }
  }

  // ---------------------------------------------------------------- plain tags

  /** No hyphen in the tag, and in the line no '#' and nothing beyond ASCII directly in front of it. */
  predicate Plain(ln: set<char>, s: string, tag: string) {
    && '-' !in tag
    && forall i | 0 <= i < |s| :: TagAt(ln, s[i + 1..], tag).Some? ==> s[i] != '#' && s[i] as int < 0x80
  }

  lemma PlainSuffix(ln: set<char>, s: string, n: nat, tag: string)
    requires n <= |s| && Plain(ln, s, tag)
    ensures Plain(ln, s[n..], tag)
  {
    hide TagAt;
    forall i | 0 <= i < |s| - n ensures s[n..][i] == s[n + i] && s[n..][i + 1..] == s[n + i + 1..] {}
  }

  /** There the removal writes every character it reads, except the matches behind their leads. */
  lemma PlainWrites(ln: set<char>, s: string, tag: string)
    requires s != [] && Plain(ln, s, tag)
    ensures DropSilent(ln, s, false, tag) == s
    ensures Written(ln, s, tag) == s[0]
    ensures Remove(ln, s, false, tag) == [s[0]] + Remove(ln, Onward(ln, s, tag), false, tag)
    ensures Plain(ln, Onward(ln, s, tag), tag)
  {
    hide TagAt, Remove;
    assert LeadsTag(ln, s, tag) ==> s[0] != '#' && s[0] as int < 0x80 by {
      assert s[0 + 1..] == s[1..];
    }
    WritesFirst(ln, s, false, tag);
    if LeadsTag(ln, s, tag) {
      var n := 2 + |tag| + TagAt(ln, s[1..], tag).value;
      BehindFits(ln, s[1..], tag);
      assert Onward(ln, s, tag) == s[n..];
      PlainSuffix(ln, s, n, tag);
    } else {
      PlainSuffix(ln, s, 1, tag);
    }
  }

  lemma BehindFits(ln: set<char>, s: string, tag: string)
    requires TagAt(ln, s, tag).Some?
    ensures 1 + |tag| + TagAt(ln, s, tag).value <= |s|
  {
  }

  /** Characters that may not precede a tag are written where they are read. */
  lemma {:induction false} PlainRun(ln: set<char>, s: string, p: string, tag: string)
    requires Plain(ln, s, tag) && forall k | 0 <= k < |p| :: !LeadChar(ln, p[k])
    ensures p <= Remove(ln, s, false, tag) <==> p <= s
    ensures p <= s ==> Remove(ln, s, false, tag) == p + Remove(ln, s[|p|..], false, tag)
    decreases |p|
  {
    hide TagAt, Remove, Plain;
    if p == [] {
      assert [] + Remove(ln, s, false, tag) == Remove(ln, s, false, tag);
    } else if s == [] {
      NothingIsWritten(ln, tag);
    } else {
      PlainWrites(ln, s, tag);
      var rest := Onward(ln, s, tag);
      var r := Remove(ln, rest, false, tag);
      assert p == [p[0]] + p[1..] && ([s[0]] + r)[1..] == r;
      if s[0] == p[0] {
        assert rest == s[1..];
        PlainRun(ln, rest, p[1..], tag);
        assert s == [s[0]] + s[1..];
        if p <= s {
          assert s[1..][|p| - 1..] == s[|p|..];
        }
      }
    }
  }

  lemma NothingIsWritten(ln: set<char>, tag: string)
    ensures Remove(ln, [], false, tag) == []
  {
    NoTagInNothing(ln, tag);
  }

  lemma PlainHasNoHyphen(ln: set<char>, s: string, tag: string)
    requires Plain(ln, s, tag)
    ensures '-' !in tag
  {
  }

  lemma PlainTagChars(ln: set<char>, tag: string)
    requires IsTag(ln, tag) && '-' !in tag
    ensures forall k | 0 <= k < |tag| :: !LeadChar(ln, tag[k])
  {
    forall k | 0 <= k < |tag| ensures !LeadChar(ln, tag[k]) {
      assert TagChar(ln, tag[k]) && tag[k] in tag;
    }
  }

  /** So the tag is spelled in the result where it stands in the line. */
  lemma PlainTagAt(ln: set<char>, s: string, tag: string)
    requires Alphabet(ln) && IsTag(ln, tag) && Plain(ln, s, tag)
    ensures TagAt(ln, Remove(ln, s, false, tag), tag).Some? <==> TagAt(ln, s, tag).Some?
  {
    hide Remove, Plain, IsTag;
    var r := Remove(ln, s, false, tag);
    NothingIsWritten(ln, tag);
    PlainHasNoHyphen(ln, s, tag);
    assert ("#" + tag)[0] == '#';
    if s != [] {
      PlainWrites(ln, s, tag);
      if s[0] == '#' && !LeadsTag(ln, s, tag) {
        PlainSuffix(ln, s, 1, tag);
        PlainTagChars(ln, tag);
        PlainRun(ln, s[1..], tag, tag);
        HashAndTag(s, tag);
        HashAndTag(r, tag);
        assert r[1..] == Remove(ln, s[1..], false, tag);
        if tag <= s[1..] {
          var behind := s[1 + |tag|..];
          assert s[1..][|tag|..] == behind;
          PlainSuffix(ln, s, 1 + |tag|, tag);
          assert (tag + Remove(ln, behind, false, tag))[|tag|..] == Remove(ln, behind, false, tag);
          assert r[1 + |tag|..] == Remove(ln, behind, false, tag);
          if behind != [] {
            PlainWrites(ln, behind, tag);
          }
        }
      } else if s[0] == '#' {
        LeadIsNoHash(ln, s, tag);
        assert false;
      }
    }
  }

  lemma LeadIsNoHash(ln: set<char>, s: string, tag: string)
    requires Plain(ln, s, tag) && LeadsTag(ln, s, tag)
    ensures s[0] != '#'
  {
    assert s[0 + 1..] == s[1..];
  }

  lemma HashAndTag(s: string, tag: string)
    requires s != [] && s[0] == '#'
    ensures "#" + tag <= s <==> tag <= s[1..]
  {
    if tag <= s[1..] {
      assert s == "#" + s[1..];
    }
    if "#" + tag <= s {
      assert ("#" + tag)[1..] == tag;
    }
  }

  /** An occurrence the scanner has already passed by, or a crowded pair still to come. */
  predicate Missed(ln: set<char>, s: string, lead: bool, tag: string) {
    (lead && s != [] && TagAt(ln, s, tag).Some?) || Crowded(ln, s, false, tag)
  }

  lemma {:induction false} PlainLeavesMissed(ln: set<char>, s: string, lead: bool, tag: string)
    requires Alphabet(ln) && IsTag(ln, tag) && Plain(ln, s, tag)
    ensures Occurrences(ln, Remove(ln, s, false, tag), lead, tag) > 0 <==> Missed(ln, s, lead, tag)
    decreases |s|
  {
    hide Remove, Plain, TagAt, IsTag, Alphabet, FollowedClosely, Occurs;
    if s == [] {
      NothingIsWritten(ln, tag);
    } else {
      PlainWrites(ln, s, tag);
      PlainTagAt(ln, s, tag);
      var r := Remove(ln, s, false, tag);
      var rest := Onward(ln, s, tag);
      assert r[1..] == Remove(ln, rest, false, tag) && r[0] == s[0];
      OccursFirst(ln, r, lead, tag);
      OccursFirst(ln, s, false, tag);
      PlainLeavesMissed(ln, rest, LeadChar(ln, s[0]), tag);
      OnlyFirstNeedsLead(ln, s[1..], tag);
      if LeadsTag(ln, s, tag) {
        PlainLeadCloses(ln, s, tag);
      } else {
        assert LeadChar(ln, s[0]) ==> s[1..] == [] || TagAt(ln, s[1..], tag).None?;
      }
    }
  }

  lemma OccursFirst(ln: set<char>, s: string, lead: bool, tag: string)
    requires s != []
    ensures Occurs(ln, s, lead, tag, 0) == (lead && TagAt(ln, s, tag).Some?)
  {
    hide TagAt;
    assert s[0..] == s;
  }

  /** Behind a match the only close follower is the tag directly behind the separator. */
  lemma PlainLeadCloses(ln: set<char>, s: string, tag: string)
    requires Alphabet(ln) && IsTag(ln, tag) && Plain(ln, s, tag) && LeadsTag(ln, s, tag)
    ensures TagAt(ln, s, tag).None?
    ensures Crowded(ln, s, false, tag) == Missed(ln, RestBehind(ln, s[1..], tag), true, tag)
  {
    hide Remove, IsTag, Alphabet, FollowedClosely;
    LeadIsNoHash(ln, s, tag);
    BehindTagAgain(ln, s[1..], tag);
  }

  lemma BehindTagAgain(ln: set<char>, s: string, tag: string)
    requires Alphabet(ln) && IsTag(ln, tag) && '-' !in tag && TagAt(ln, s, tag).Some?
    ensures Crowded(ln, s, true, tag) == Missed(ln, RestBehind(ln, s, tag), true, tag)
  {
    hide Crowded, Occurrences;
    BehindTag(ln, s, tag);
    PlainTagChars(ln, tag);
    TagOrEnd(ln, s, tag);
    var rest := RestBehind(ln, s, tag);
    assert s[|tag|] == tag[|tag| - 1];
    assert !Occurs(ln, s, true, tag, |tag| + 1);
    if |s| > 1 + |tag| {
      assert rest == s[|tag| + 2..];
      assert LeadChar(ln, s[|tag| + 1]);
    }
  }

  /**
   For such a tag and line a removal leaves the tag behind exactly when two occurrences stand with at most
   one character between them: the one that is missed is then the only way.
   */
  lemma PlainTagIsLeftIffCrowded(ln: set<char>, s: string, tag: string)
    requires Alphabet(ln) && IsTag(ln, tag) && Plain(ln, s, tag)
    ensures Occurrences(ln, Remove(ln, s, true, tag), true, tag) > 0 <==> Crowded(ln, s, true, tag)
  {
    hide Remove, Plain, IsTag, Alphabet, FollowedClosely, Occurs;
    PlainHasNoHyphen(ln, s, tag);
    if s != [] && TagAt(ln, s, tag).Some? {
      RemoveAtStart(ln, s, tag);
      var rest := RestBehind(ln, s, tag);
      BehindFits(ln, s, tag);
      PlainSuffix(ln, s, 1 + |tag| + TagAt(ln, s, tag).value, tag);
      PlainLeavesMissed(ln, rest, true, tag);
      BehindTagAgain(ln, s, tag);
    } else {
      NoTagInNothing(ln, tag);
      SameAwayFromStart(ln, s, tag);
      PlainLeavesMissed(ln, s, true, tag);
      OnlyFirstNeedsLead(ln, s, tag);
    }
  }

  lemma SameAwayFromStart(ln: set<char>, s: string, tag: string)
    requires TagAt(ln, s, tag).None?
    ensures Remove(ln, s, true, tag) == Remove(ln, s, false, tag)
  {
  }

  // ---------------------------------------------------------------- lines it turns into fence openers

  /** The line writes three backticks or three tildes first. */
  predicate WritesOpener(ln: set<char>, s: string, tag: string) {
    After(ln, s, true, tag, "```").Some? || After(ln, s, true, tag, "~~~").Some?
  }

  lemma WritesOpenerMeans(ln: set<char>, s: string, tag: string)
    ensures WritesOpener(ln, s, tag) <==> LooksLikeOpener(Remove(ln, s, true, tag))
  {
    hide Remove, After;
    AfterMeans(ln, s, true, tag, "```");
    AfterMeans(ln, s, true, tag, "~~~");
    BeginsLikeOpener(Remove(ln, s, true, tag));
  }

  lemma BeginsLikeOpener(r: string)
    ensures LooksLikeOpener(r) <==> "```" <= r || "~~~" <= r
  {
    if |r| >= 3 {
      assert r[..3] == [r[0], r[1], r[2]];
    }
  }

  lemma {:induction false} RemoveKeepsNewlineFree(ln: set<char>, s: string, atStart: bool, tag: string)
    requires NewlineFree(s)
    ensures NewlineFree(Remove(ln, s, atStart, tag))
    decreases |s|
  {
    hide MatchAt;
    var m := MatchAt(ln, s, atStart, tag);
    if m.Some? {
      MatchFits(ln, s, atStart, tag);
      var n := HitLength(m.value, tag);
      assert NewlineFree(s[..n]) && NewlineFree(s[n..]);
      RemoveKeepsNewlineFree(ln, s[n..], false, tag);
      assert s[..n] != [] ==> s[..n][0] in s[..n];
    } else if s != [] {
      RemoveKeepsNewlineFree(ln, s[1..], false, tag);
    }
  }

  /** The body RemoveTag writes has the lines of the body, with the tag removed from the unfenced ones. */
  lemma RemovedLinesAreRead(ln: set<char>, body: string, tag: string)
    ensures var lines := Split(body);
            Split(Join(RemovedLines(ln, lines, tag))) == RemovedLines(ln, lines, tag)
  {
    hide Remove, Fenced;
    var lines := Split(body);
    var after := RemovedLines(ln, lines, tag);
    forall i | 0 <= i < |lines| ensures NewlineFree(after[i]) {
      assert after[i] == RemovedLine(ln, lines, i, tag);
      RemoveKeepsNewlineFree(ln, lines[i], true, tag);
    }
    SplitOfJoin(after, '\n');
  }

  /**
   The three hand-written fence scanners agree on every body: the texts they write have the lines of the
   body, and where it has a fenced line the one is blank and the other two are that line; the two editors
   change other lines by their pattern alone.
   */
  lemma ScannersAgree(ln: set<char>, body: string, oldTag: string, newTag: string)
    requires NewlineFree(newTag)
    ensures var lines := Split(body);
            var stripped := Split(Stripped(body));
            var renamed := Split(RenamedBody(ln, body, oldTag, newTag).text);
            var removed := Split(Join(RemovedLines(ln, lines, oldTag)));
            && |stripped| == |renamed| == |removed| == |lines|
            && forall i | 0 <= i < |lines| ::
                 if Fenced(lines, i) then
                   stripped[i] == " " && renamed[i] == lines[i] && removed[i] == lines[i]
                 else
                   && stripped[i] == StripInline(lines[i])
                   && renamed[i] == Rename(ln, lines[i], true, oldTag, newTag).text
                   && removed[i] == Remove(ln, lines[i], true, oldTag)
  {
    hide Fenced, Rename, Remove, StripInline;
    StrippedKeepsLines(body);
    RenamedBodyKeepsFences(ln, body, oldTag, newTag);
    RemovedLinesAreRead(ln, body, oldTag);
    var lines := Split(body);
    forall i | 0 <= i < |lines|
      ensures StrippedLines(lines)[i] == StrippedLine(lines, i)
      ensures RenamedLines(ln, lines, oldTag, newTag)[i] == RenamedLine(ln, lines, i, oldTag, newTag).text
      ensures RemovedLines(ln, lines, oldTag)[i] == RemovedLine(ln, lines, i, oldTag)
    {
    }
  }

  /** Over a body: which unfenced lines still carry the tag, told from the lines before the edit. */
  lemma RemovalLeavesNoTagIff(ln: set<char>, body: string, tag: string)
    ensures var lines := Split(body);
            var lines' := Split(Join(RemovedLines(ln, lines, tag)));
            && |lines'| == |lines|
            && forall k | 0 <= k < |lines| && !Fenced(lines, k) ::
                 Occurrences(ln, lines'[k], true, tag) == 0 <==> !LeavesTag(ln, lines[k], true, true, tag)
  {
    hide Remove, Fenced, Occurrences, LeavesTag;
    var lines := Split(body);
    RemovedLinesAreRead(ln, body, tag);
    forall k | 0 <= k < |lines| && !Fenced(lines, k)
      ensures Occurrences(ln, RemovedLines(ln, lines, tag)[k], true, tag) == 0
              <==> !LeavesTag(ln, lines[k], true, true, tag)
    {
      assert RemovedLines(ln, lines, tag)[k] == RemovedLine(ln, lines, k, tag);
      TagIsLeftIff(ln, lines[k], true, true, tag);
    }
  }

  /**
   A removal keeps the fence status of every line exactly when no unfenced line of the body writes an
   opener: a test of the lines before the edit.
   */
  lemma RemovalKeepsFencesIff(ln: set<char>, body: string, tag: string)
    ensures var lines := Split(body);
            var lines' := Split(Join(RemovedLines(ln, lines, tag)));
            && |lines'| == |lines|
            && ((forall k | 0 <= k < |lines| :: Fenced(lines', k) == Fenced(lines, k))
                <==> forall k | 0 <= k < |lines| :: !Fenced(lines, k) ==> !WritesOpener(ln, lines[k], tag))
  {
    hide Remove, Fenced, LooksLikeOpener, WritesOpener;
    var lines := Split(body);
    var lines' := RemovedLines(ln, lines, tag);
    RemovedLinesAreRead(ln, body, tag);
    forall k | 0 <= k < |lines|
      ensures if Fenced(lines, k) then lines'[k] == lines[k]
              else LooksLikeOpener(lines'[k]) == WritesOpener(ln, lines[k], tag)
    {
      assert lines'[k] == RemovedLine(ln, lines, k, tag);
      WritesOpenerMeans(ln, lines[k], tag);
    }
    EditKeepsFencesIff(lines, lines');
  }
}
