/**
 PatchNote (internal/vault/mutators.go:24-156): a patch is anchored at the first heading line with a
 given text, whose section reaches to the next heading of the same or a higher level.
 */
module Patch {
  import opened Wrappers
  import opened Lines
  import opened Headings

  datatype PatchOp = PatchOp(heading: string, position: string, content: string)

  datatype PatchError = HeadingNotFound | UnknownPosition

  /** The lines of inserted content; the empty piece behind a final newline is dropped. */
  function ContentLines(content: string): seq<string> {
    if content == [] then
      []
    else
      var parts := Split(content);
      if parts[|parts| - 1] == [] then parts[..|parts| - 1] else parts
  }

  /** The first heading line with this text from line i on, or the number of lines. */
  function FindHeading(lines: seq<string>, heading: string, i: nat): (h: nat)
    requires i <= |lines|
    ensures i <= h <= |lines|
    ensures forall k | i <= k < h :: !IsHeadingLine(lines[k], heading)
    ensures h < |lines| ==> IsHeadingLine(lines[h], heading)
    decreases |lines| - i
  {
    if i == |lines| || IsHeadingLine(lines[i], heading) then i else FindHeading(lines, heading, i + 1)
  }

  /** A heading at this level or above. */
  predicate EndsSection(line: string, level: nat) {
    0 < |HeadingLevel(line)| <= level
  }

  function SectionEnd(lines: seq<string>, level: nat, i: nat): (e: nat)
    requires i <= |lines|
    ensures i <= e <= |lines|
    ensures forall k | i <= k < e :: !EndsSection(lines[k], level)
    ensures e < |lines| ==> EndsSection(lines[e], level)
    decreases |lines| - i
  {
    if i == |lines| || EndsSection(lines[i], level) then i else SectionEnd(lines, level, i + 1)
  }

  /** The lines a patch replaces, from start to end; nothing for an insertion. */
  datatype Span = Span(start: nat, end: nat)

  function PatchSpan(lines: seq<string>, op: PatchOp): (r: Result<Span, PatchError>)
    ensures r.Ok? ==> r.value.start <= r.value.end <= |lines|
  {
    var h := FindHeading(lines, op.heading, 0);
    if h == |lines| then Err(HeadingNotFound)
    else
      var e := SectionEnd(lines, |HeadingLevel(lines[h])|, h + 1);
      if op.position == "before" then Ok(Span(h, h))
      else if op.position == "after" then Ok(Span(e, e))
      else if op.position == "replace_body" then Ok(Span(h + 1, e))
      else Err(UnknownPosition)
  }

  function Patched(lines: seq<string>, op: PatchOp): Result<seq<string>, PatchError> {
    match PatchSpan(lines, op)
    case Err(e) => Err(e)
    case Ok(span) => Ok(lines[..span.start] + ContentLines(op.content) + lines[span.end..])
  }

  function PatchText(text: string, op: PatchOp): Result<string, PatchError> {
    match Patched(Split(text), op)
    case Err(e) => Err(e)
    case Ok(lines) => Ok(Join(lines))
  }

  method PatchNote(text: string, op: PatchOp) returns (r: Result<string, PatchError>)
    ensures r == PatchText(text, op)
  {
    hide IsHeadingLine, HeadingLevel, Split, ContentLines, Join;
    var lines := Split(text);
    var headingIdx := -1;
    var headingPrefix := "";
    var i := 0;
    while i < |lines|
      invariant 0 <= i <= |lines| && headingIdx == -1
      invariant FindHeading(lines, op.heading, 0) == FindHeading(lines, op.heading, i)
    {
      if IsHeadingLine(lines[i], op.heading) {
        headingIdx := i;
        headingPrefix := HeadingLevel(lines[i]);
        break;
      }
      i := i + 1;
    }
    if headingIdx == -1 {
      return Err(HeadingNotFound);
    }
    var bodyEnd := |lines|;
    i := headingIdx + 1;
    while i < |lines|
      invariant headingIdx + 1 <= i <= |lines| && bodyEnd == |lines|
      invariant SectionEnd(lines, |headingPrefix|, headingIdx + 1) == SectionEnd(lines, |headingPrefix|, i)
    {
      var level := HeadingLevel(lines[i]);
      if level != [] && |level| <= |headingPrefix| {
        bodyEnd := i;
        break;
      }
      i := i + 1;
    }
    var result: seq<string>;
    if op.position == "before" {
      result := lines[..headingIdx] + (ContentLines(op.content) + lines[headingIdx..]);
      assert result == lines[..headingIdx] + ContentLines(op.content) + lines[headingIdx..];
    } else if op.position == "after" {
      result := lines[..bodyEnd] + (ContentLines(op.content) + lines[bodyEnd..]);
      assert result == lines[..bodyEnd] + ContentLines(op.content) + lines[bodyEnd..];
    } else if op.position == "replace_body" {
      var replacement := ContentLines(op.content);
      result := [];
      result := result + lines[..headingIdx + 1];
      result := result + replacement;
      result := result + lines[bodyEnd..];
      assert result == lines[..headingIdx + 1] + replacement + lines[bodyEnd..];
    } else {
      return Err(UnknownPosition);
    }
    assert Patched(lines, op) == Ok(result);
    r := Ok(Join(result));
  }

  // ---------------------------------------------------------------- reading the patched note again

  lemma ContentLinesAreLines(content: string)
    ensures forall i | 0 <= i < |ContentLines(content)| :: NewlineFree(ContentLines(content)[i])
  {
  }

  /** The lines of the written note are the patched lines. */
  lemma PatchedLinesAreRead(text: string, op: PatchOp)
    requires Patched(Split(text), op).Ok?
    ensures Split(PatchText(text, op).value) == Patched(Split(text), op).value
  {
    hide ContentLines, IsHeadingLine, HeadingLevel, SplitAt, JoinWith;
    var lines := Split(text);
    var result := Patched(lines, op).value;
    ContentLinesAreLines(op.content);
    var span := PatchSpan(lines, op).value;
    assert |lines[..span.start]| + |lines[span.end..]| > 0;
    SplitOfJoin(result, '\n');
  }

  /**
   The outline of the patched note: the old outline with the headings of the replaced lines taken out,
   those of the inserted lines put in, and the line numbers behind them shifted.
   */
  lemma OutlineOfPatched(text: string, op: PatchOp)
    requires Patched(Split(text), op).Ok?
    ensures var lines := Split(text);
            var span := PatchSpan(lines, op).value;
            var new' := ContentLines(op.content);
            var shift := |new'| - (span.end - span.start);
            var before := Outline(lines[..span.start], 0);
            var behind := Outline(lines[span.end..], span.end);
            && Outline(lines, 0) == before + Outline(lines[span.start..span.end], span.start) + behind
            && Outline(Split(PatchText(text, op).value), 0)
               == before + Outline(new', span.start) + Shifted(behind, shift)
  {
    hide Outline, Split, ContentLines, PatchSpan, Join;
    PatchedLinesAreRead(text, op);
    var lines := Split(text);
    var span := PatchSpan(lines, op).value;
    var new' := ContentLines(op.content);
    var shift := |new'| - (span.end - span.start);
    var a, b, c := lines[..span.start], lines[span.start..span.end], lines[span.end..];
    assert lines == a + b + c;
    OutlineConcat(a + b, c, 0);
    OutlineConcat(a, b, 0);
    OutlineConcat(a + new', c, 0);
    OutlineConcat(a, new', 0);
    OutlineShift(c, span.end, shift);
  }

  /** The anchor is the line of the first outline entry with the heading's text. */
  lemma {:induction false} AnchorIsFirstEntry(lines: seq<string>, heading: string, i: nat)
    requires i <= |lines|
    ensures var o := Outline(lines[i..], i);
            var h := FindHeading(lines, heading, i);
            var k := FirstEntry(o, heading);
            if h == |lines| then k == |o| else k < |o| && o[k].line == h + 1
    decreases |lines| - i
  {
    hide HeadingLevel, HeadingText, IsHeadingLine;
    if i < |lines| {
      var o := Outline(lines[i..], i);
      assert lines[i..][1..] == lines[i + 1..];
      var rest := Outline(lines[i + 1..], i + 1);
      HeadingTestIsOutlineText(lines[i], heading);
      AnchorIsFirstEntry(lines, heading, i + 1);
      if HeadingLevel(lines[i]) != [] {
        assert o[1..] == rest;
      } else {
        assert o == rest;
      }
    }
  }

  // ---------------------------------------------------------------- patching twice

  /** The number of leading lines that do not end a section. */
  function InSection(lines: seq<string>, level: nat): (n: nat)
    ensures n <= |lines| && forall k | 0 <= k < n :: !EndsSection(lines[k], level)
    ensures n < |lines| ==> EndsSection(lines[n], level)
  {
    SectionEnd(lines, level, 0)
  }

  lemma FindHeadingIs(lines: seq<string>, heading: string, h: nat)
    requires h < |lines| && IsHeadingLine(lines[h], heading)
    requires forall k | 0 <= k < h :: !IsHeadingLine(lines[k], heading)
    ensures FindHeading(lines, heading, 0) == h
  {
  }

  lemma SectionEndIs(lines: seq<string>, level: nat, i: nat, e: nat)
    requires i <= e <= |lines|
    requires forall k | i <= k < e :: !EndsSection(lines[k], level)
    requires e < |lines| ==> EndsSection(lines[e], level)
    ensures SectionEnd(lines, level, i) == e
  {
  }

  /** A note with lines put behind its anchor: the anchor stays, the section ends where they let it. */
  lemma AnchorOfExtended(lines: seq<string>, heading: string, kept: nat, mid: seq<string>)
    requires var h := FindHeading(lines, heading, 0);
             && h < |lines| && h < kept <= SectionEnd(lines, |HeadingLevel(lines[h])|, h + 1)
    ensures var h := FindHeading(lines, heading, 0);
            var level := |HeadingLevel(lines[h])|;
            var e := SectionEnd(lines, level, h + 1);
            var n := InSection(mid, level);
            var lines' := lines[..kept] + mid + lines[e..];
            && FindHeading(lines', heading, 0) == h
            && lines'[h] == lines[h]
            && SectionEnd(lines', level, h + 1) == kept + n
  {
    hide IsHeadingLine, EndsSection, HeadingLevel;
    var h := FindHeading(lines, heading, 0);
    var level := |HeadingLevel(lines[h])|;
    var e := SectionEnd(lines, level, h + 1);
    var n := InSection(mid, level);
    var lines' := lines[..kept] + mid + lines[e..];
    assert forall k | 0 <= k < kept :: lines'[k] == lines[k];
    FindHeadingIs(lines', heading, h);
    forall k | h + 1 <= k < kept + n ensures !EndsSection(lines'[k], level) {
      if k >= kept {
        assert lines'[k] == mid[k - kept];
      }
    }
    if kept + n < |lines'| {
      assert lines'[kept + n] == if n < |mid| then mid[n] else lines[e];
    }
    SectionEndIs(lines', level, h + 1, kept + n);
  }

  lemma ReplacedBody(lines: seq<string>, op: PatchOp)
    requires op.position == "replace_body" && FindHeading(lines, op.heading, 0) < |lines|
    ensures var h := FindHeading(lines, op.heading, 0);
            var e := SectionEnd(lines, |HeadingLevel(lines[h])|, h + 1);
            Patched(lines, op) == Ok(lines[..h + 1] + ContentLines(op.content) + lines[e..])
  {
    hide HeadingLevel, ContentLines;
  }

  lemma PatchedAfter(lines: seq<string>, op: PatchOp)
    requires op.position == "after" && FindHeading(lines, op.heading, 0) < |lines|
    ensures var h := FindHeading(lines, op.heading, 0);
            var e := SectionEnd(lines, |HeadingLevel(lines[h])|, h + 1);
            Patched(lines, op) == Ok(lines[..e] + ContentLines(op.content) + lines[e..])
  {
    hide HeadingLevel, ContentLines;
  }

  /**
   Replacing a body twice is the same as replacing it once with the second content if and only if the
   first content has no heading that would end the section early.
   */
  lemma SecondReplaceSupersedes(lines: seq<string>, first: PatchOp, second: PatchOp)
    requires first.position == "replace_body" && second.position == "replace_body"
    requires first.heading == second.heading && FindHeading(lines, first.heading, 0) < |lines|
    ensures Patched(lines, first).Ok?
    ensures var level := |HeadingLevel(lines[FindHeading(lines, first.heading, 0)])|;
            var new' := ContentLines(first.content);
            Patched(Patched(lines, first).value, second) == Patched(lines, second)
            <==> forall k | 0 <= k < |new'| :: !EndsSection(new'[k], level)
  {
    hide IsHeadingLine, EndsSection, HeadingLevel, ContentLines, FindHeading, SectionEnd, InSection, Patched;
    var h := FindHeading(lines, first.heading, 0);
    var level := |HeadingLevel(lines[h])|;
    var e := SectionEnd(lines, level, h + 1);
    var c1, c2 := ContentLines(first.content), ContentLines(second.content);
    var once := lines[..h + 1] + c1 + lines[e..];
    ReplacedBody(lines, first);
    ReplacedBody(lines, second);
    AnchorOfExtended(lines, first.heading, h + 1, c1);
    ReplacedBody(once, second);
    var n := InSection(c1, level);
    assert once[..h + 1] == lines[..h + 1] && once[h + 1 + n..] == c1[n..] + lines[e..];
    SuffixKept(lines[..h + 1] + c2, c1, n, lines[e..]);
  }

  lemma SuffixKept(front: seq<string>, c: seq<string>, n: nat, back: seq<string>)
    requires n <= |c|
    ensures front + (c[n..] + back) == front + back <==> n == |c|
  {
    assert |front + (c[n..] + back)| == |front + back| + |c| - n;
    if n == |c| {
      assert c[n..] + back == back;
    }
  }

  /** Two "after" patches: the second content goes behind the part of the first the section keeps. */
  lemma AfterTwice(lines: seq<string>, first: PatchOp, second: PatchOp)
    requires first.position == "after" && second.position == "after"
    requires first.heading == second.heading && FindHeading(lines, first.heading, 0) < |lines|
    ensures Patched(lines, first).Ok?
    ensures var h := FindHeading(lines, first.heading, 0);
            var level := |HeadingLevel(lines[h])|;
            var e := SectionEnd(lines, level, h + 1);
            var c1 := ContentLines(first.content);
            var n := InSection(c1, level);
            Patched(Patched(lines, first).value, second)
            == Ok(lines[..e] + c1[..n] + ContentLines(second.content) + (c1[n..] + lines[e..]))
  {
    hide IsHeadingLine, EndsSection, HeadingLevel, ContentLines, FindHeading, SectionEnd, InSection, Patched;
    var h := FindHeading(lines, first.heading, 0);
    var level := |HeadingLevel(lines[h])|;
    var e := SectionEnd(lines, level, h + 1);
    var c1 := ContentLines(first.content);
    var once := lines[..e] + c1 + lines[e..];
    PatchedAfter(lines, first);
    AnchorOfExtended(lines, first.heading, e, c1);
    PatchedAfter(once, second);
    var n := InSection(c1, level);
    CutInMiddle(lines[..e], c1, lines[e..], n);
  }

  /** They append in order when the first content does not end the section. */
  lemma AfterTwiceInOrder(lines: seq<string>, first: PatchOp, second: PatchOp)
    requires first.position == "after" && second.position == "after"
    requires first.heading == second.heading && FindHeading(lines, first.heading, 0) < |lines|
    requires var level := |HeadingLevel(lines[FindHeading(lines, first.heading, 0)])|;
             forall k | 0 <= k < |ContentLines(first.content)| :: !EndsSection(ContentLines(first.content)[k], level)
    ensures var h := FindHeading(lines, first.heading, 0);
            var e := SectionEnd(lines, |HeadingLevel(lines[h])|, h + 1);
            && Patched(lines, first).Ok?
            && Patched(Patched(lines, first).value, second)
               == Ok(lines[..e] + ContentLines(first.content) + ContentLines(second.content) + lines[e..])
  {
    hide IsHeadingLine, EndsSection, HeadingLevel, ContentLines, FindHeading, SectionEnd, Patched;
    AfterTwice(lines, first, second);
    var c1 := ContentLines(first.content);
    var level := |HeadingLevel(lines[FindHeading(lines, first.heading, 0)])|;
    assert InSection(c1, level) == |c1|;
    assert c1[..|c1|] == c1 && c1[|c1|..] == [];
    assert [] + lines[SectionEnd(lines, level, FindHeading(lines, first.heading, 0) + 1)..]
        == lines[SectionEnd(lines, level, FindHeading(lines, first.heading, 0) + 1)..];
  }

  /** Nothing outside the section changes, whatever the new body is. */
  lemma ReplaceKeepsOutside(lines: seq<string>, op: PatchOp)
    requires op.position == "replace_body" && FindHeading(lines, op.heading, 0) < |lines|
    ensures var h := FindHeading(lines, op.heading, 0);
            var e := SectionEnd(lines, |HeadingLevel(lines[h])|, h + 1);
            var lines' := Patched(lines, op).value;
            && Patched(lines, op).Ok?
            && lines'[..h + 1] == lines[..h + 1]
            && lines'[|lines'| - (|lines| - e)..] == lines[e..]
  {
  }
}
