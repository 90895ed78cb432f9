/**
 What RemoveTag's callback does to the character in front of a tag (internal/vault/tags.go:412-418). It is
 to preserve it; it does so exactly for ASCII characters other than '#'.
 */
module TagLeads {
  import opened Wrappers
  import opened Lines
  import opened Fences
  import opened TagEdits
  import opened TagRemoval

  /** A segment with nothing but the tag and its separator taken out. */
  function PartLead(part: Segment): string {
    if part.Copied? then [part.c] else part.lead
  }

  /** What the line would be if every lead were preserved. */
  function LeadsKept(segments: seq<Segment>): string {
    if segments == [] then [] else PartLead(segments[0]) + LeadsKept(segments[1..])
  }

  predicate KeepsLead(part: Segment) {
    part.Tagged? && part.lead != [] ==> part.lead[0] != '#' && IsOwnFirstByte(part.lead[0])
  }

  predicate IsOwnFirstByte(c: char) {
    c as int < 0x80 || c as int == 0xC3
  }

  /** Only ASCII characters are their own first byte, and one letter, which cannot stand before a tag. */
  lemma OwnFirstByteMeans(c: char)
    ensures FirstByte(c) == c <==> IsOwnFirstByte(c)
  {
    var code := c as int;
    if 0x80 <= code < 0x800 {
      assert FirstByte(c) as int == 0xC0 + code / 0x40;
    }
  }

  lemma PartKeepsIff(part: Segment)
    requires part.Tagged? ==> |part.lead| <= 1
    ensures |PartWithoutTag(part)| <= |PartLead(part)|
    ensures PartWithoutTag(part) == PartLead(part) <==> KeepsLead(part)
  {
    hide FirstByte, IsOwnFirstByte;
    if part.Tagged? && part.lead != [] {
      OwnFirstByteMeans(part.lead[0]);
      assert part.lead == [part.lead[0]];
    }
  }

  lemma SplitEqual(a: string, x: string, b: string, y: string)
    requires |a| <= |b| && |x| <= |y|
    ensures a + x == b + y <==> a == b && x == y
  {
    if a + x == b + y {
      assert |a| == |b|;
      assert a == (a + x)[..|a|] && b == (b + y)[..|b|] && x == (a + x)[|a|..] && y == (b + y)[|b|..];
    }
  }

  lemma {:induction false} LeadsAreKeptIff(segments: seq<Segment>)
    requires forall k | 0 <= k < |segments| :: segments[k].Tagged? ==> |segments[k].lead| <= 1
    ensures |WithoutTag(segments)| <= |LeadsKept(segments)|
    ensures WithoutTag(segments) == LeadsKept(segments) <==> forall k | 0 <= k < |segments| :: KeepsLead(segments[k])
  {
    hide PartWithoutTag, PartLead, KeepsLead;
    if segments != [] {
      var first, rest := segments[0], segments[1..];
      PartKeepsIff(first);
      LeadsAreKeptIff(rest);
      SplitEqual(PartWithoutTag(first), WithoutTag(rest), PartLead(first), LeadsKept(rest));
      if forall k | 0 <= k < |rest| :: KeepsLead(rest[k]) {
        assert forall k | 1 <= k < |segments| :: segments[k] == rest[k - 1];
      } else {
        var k :| 0 <= k < |rest| && !KeepsLead(rest[k]);
        assert segments[k + 1] == rest[k];
      }
    }
  }

  lemma {:induction false} LeadsMayStand(ln: set<char>, s: string, atStart: bool, tag: string)
    requires Alphabet(ln) && IsTag(ln, tag)
    ensures forall part | part in Segments(ln, s, atStart, tag) ::
              part.Tagged? ==> |part.lead| <= 1 && (part.lead != [] ==> LeadChar(ln, part.lead[0]))
    decreases |s|
  {
    hide MatchAt, LeadChar, Alphabet, IsTag;
    var m := MatchAt(ln, s, atStart, tag);
    if m.Some? {
      TaggedPart(ln, s, atStart, tag);
      LeadsMayStand(ln, s[HitLength(m.value, tag)..], false, tag);
    } else if s != [] {
      LeadsMayStand(ln, s[1..], false, tag);
    }
  }

  /**
   A removal preserves what stands in front of the tags exactly when no match of the line has a '#' or a
   character beyond ASCII there; U+00C3, whose own first byte it is, counts only while it is no letter.
   */
  lemma RemovalKeepsLeadsIff(ln: set<char>, s: string, tag: string)
    requires Alphabet(ln) && IsTag(ln, tag)
    ensures var segments := Segments(ln, s, true, tag);
            && (Remove(ln, s, true, tag) == LeadsKept(segments)
                <==> forall k | 0 <= k < |segments| :: KeepsLead(segments[k]))
            && ('\U{C3}' in ln ==>
                  forall part | part in segments && part.Tagged? && part.lead != [] ::
                    KeepsLead(part) <==> part.lead[0] != '#' && part.lead[0] as int < 0x80)
  {
    hide Remove, Segments, Alphabet, IsTag;
    var segments := Segments(ln, s, true, tag);
    EditorsWriteSegments(ln, s, true, tag, tag);
    LeadsMayStand(ln, s, true, tag);
    forall k | 0 <= k < |segments| ensures segments[k].Tagged? ==> |segments[k].lead| <= 1 {
      assert segments[k] in segments;
    }
    LeadsAreKeptIff(segments);
    assert '\U{C3}' as int == 0xC3;
  }

  /** Over a body: its unfenced lines are written with all leads exactly then. */
  lemma RemovalKeepsLeadsInBodyIff(ln: set<char>, body: string, tag: string, k: nat)
    requires Alphabet(ln) && IsTag(ln, tag)
    requires k < |Split(body)| && !Fenced(Split(body), k)
    ensures var lines := Split(body);
            var segments := Segments(ln, lines[k], true, tag);
            var after := Split(Join(RemovedLines(ln, lines, tag)));
            && |after| == |lines|
            && (after[k] == LeadsKept(segments) <==> forall j | 0 <= j < |segments| :: KeepsLead(segments[j]))
  {
    hide Remove, Segments, Alphabet, IsTag, KeepsLead, LeadsKept;
    RemovedLinesAreRead(ln, body, tag);
    RemovalKeepsLeadsIff(ln, Split(body)[k], tag);
  }

  lemma TagAtEnd(ln: set<char>)
    ensures TagAt(ln, "#o", "o").Some? && RestBehind(ln, "#o", "o") == ""
  {
    assert "#" + "o" == "#o";
  }

  lemma LeadAlone(ln: set<char>, c: char)
    requires LeadChar(ln, c)
    ensures Remove(ln, [c] + "#o", true, "o") == if c == '#' then "" else [FirstByte(c)]
  {
    hide Remove, TagAt, RestBehind, FirstByte;
    var s := [c] + "#o";
    assert s[1..] == "#o" && s[0] == c;
    TagAtEnd(ln);
    NoTagBeforeSecondHash(ln, s);
    RemoveAtLead(ln, s, true, "o");
    NothingIsWritten(ln, "o");
    assert [FirstByte(c)] + [] == [FirstByte(c)];
  }

  lemma NoTagBeforeSecondHash(ln: set<char>, s: string)
    requires |s| > 1 && s[1] == '#'
    ensures TagAt(ln, s, "o").None?
  {
    assert ("#" + "o")[1] == 'o';
  }

  /** A dash in front of the tag comes out as one byte of it, and a '#' does not come out at all. */
  lemma DashAndHashAreNotKept()
    ensures Remove({'o'}, "\U{2014}#o", true, "o") == "\U{E2}" && Remove({'o'}, "##o", true, "o") == ""
  {
    hide Remove;
    LeadAlone({'o'}, '\U{2014}');
    LeadAlone({'o'}, '#');
    assert ['\U{2014}'] + "#o" == "\U{2014}#o" && ['#'] + "#o" == "##o";
    assert FirstByte('\U{2014}') == '\U{E2}';
  }
}
