/**
 Headings (internal/vault/mutators.go:137-155, internal/vault/outline.go): which lines are headings,
 what their text is, and the outline of a note.
 */
module Headings {
  import opened Lines

  /** The characters strings.TrimSpace removes: those with the Unicode White_Space property. */
  const WHITE_SPACE: set<char> := {
    '\t', '\n', '\U{b}', '\U{c}', '\r', ' ', '\U{85}', '\U{a0}', '\U{1680}', '\U{2000}', '\U{2001}',
    '\U{2002}', '\U{2003}', '\U{2004}', '\U{2005}', '\U{2006}', '\U{2007}', '\U{2008}', '\U{2009}',
    '\U{200a}', '\U{2028}', '\U{2029}', '\U{202f}', '\U{205f}', '\U{3000}'
  }

  function TrimLeft(s: string): string {
    if s != [] && s[0] in WHITE_SPACE then TrimLeft(s[1..]) else s
  }

  function TrimRight(s: string): string {
    if s != [] && s[|s| - 1] in WHITE_SPACE then TrimRight(s[..|s| - 1]) else s
  }

  function TrimSpace(s: string): string {
    TrimRight(TrimLeft(s))
  }

  function HashRun(line: string): (n: nat)
    ensures n <= |line| && forall k | 0 <= k < n :: line[k] == '#'
    ensures n < |line| ==> line[n] != '#'
  {
    if line != [] && line[0] == '#' then 1 + HashRun(line[1..]) else 0
  }

  /** The '#' prefix of a heading line, or nothing: the run has to be followed by a space or the end. */
  function HeadingLevel(line: string): string {
    var n := HashRun(line);
    if n == 0 || (n < |line| && line[n] != ' ') then [] else line[..n]
  }

  function HeadingText(line: string): string {
    TrimSpace(line[|HeadingLevel(line)|..])
  }

  predicate IsHeadingLine(line: string, heading: string) {
    HeadingLevel(line) != [] && TrimSpace(line[HashRun(line)..]) == heading
  }

  /** PatchNote's test and the outline's fields cannot disagree about a line. */
  lemma HeadingTestIsOutlineText(line: string, heading: string)
    ensures IsHeadingLine(line, heading) <==> HeadingLevel(line) != [] && HeadingText(line) == heading
  {
  }

  datatype HeadingInfo = HeadingInfo(level: nat, text: string, line: int)

  /** The headings of lines that begin after the given number of lines. */
  function Outline(lines: seq<string>, before: int): seq<HeadingInfo> {
    if lines == [] then
      []
    else
      var level := |HeadingLevel(lines[0])|;
      (if level > 0 then [HeadingInfo(level, HeadingText(lines[0]), before + 1)] else [])
      + Outline(lines[1..], before + 1)
  }

  function HeadingOf(line: string, before: int): seq<HeadingInfo> {
    var level := |HeadingLevel(line)|;
    if level > 0 then [HeadingInfo(level, HeadingText(line), before + 1)] else []
  }

  lemma OutlineStep(lines: seq<string>, before: int)
    ensures Outline(lines, before)
            == if lines == [] then [] else HeadingOf(lines[0], before) + Outline(lines[1..], before + 1)
  {
  }

  method GetNoteOutline(content: string) returns (headings: seq<HeadingInfo>)
    ensures headings == Outline(Split(content), 0)
  {
    hide HeadingLevel, HeadingText, Split, Outline;
    var lines := Split(content);
    headings := [];
    assert lines[0..] == lines;
    for i := 0 to |lines|
      invariant headings + Outline(lines[i..], i) == Outline(lines, 0)
    {
      var line := lines[i];
      assert lines[i..][0] == line && lines[i..][1..] == lines[i + 1..];
      OutlineStep(lines[i..], i);
      Regroup(headings, HeadingOf(line, i), Outline(lines[i + 1..], i + 1));
      var prefix := HeadingLevel(line);
      if prefix == [] {
        continue;
      }
      headings := headings + [HeadingInfo(|prefix|, HeadingText(line), i + 1)];
    }
    OutlineStep(lines[|lines|..], |lines|);
    assert headings + [] == headings;
  }

  lemma {:induction false} OutlineConcat(a: seq<string>, b: seq<string>, before: int)
    ensures Outline(a + b, before) == Outline(a, before) + Outline(b, before + |a|)
  {
    hide HeadingLevel, HeadingText, Outline;
    if a == [] {
      assert a + b == b;
      OutlineStep(a, before);
      assert [] + Outline(b, before) == Outline(b, before);
    } else {
      assert (a + b)[1..] == a[1..] + b && (a + b)[0] == a[0];
      OutlineConcat(a[1..], b, before + 1);
      OutlineStep(a, before);
      OutlineStep(a + b, before);
      Regroup(HeadingOf(a[0], before), Outline(a[1..], before + 1), Outline(b, before + |a|));
    }
  }

  /** The same headings at other line numbers. */
  function Shifted(headings: seq<HeadingInfo>, shift: int): seq<HeadingInfo> {
    if headings == [] then []
    else [headings[0].(line := headings[0].line + shift)] + Shifted(headings[1..], shift)
  }

  lemma {:induction false} OutlineShift(lines: seq<string>, before: int, shift: int)
    ensures Outline(lines, before + shift) == Shifted(Outline(lines, before), shift)
  {
    hide HeadingLevel, HeadingText;
    if lines != [] {
      OutlineShift(lines[1..], before + 1, shift);
      var rest := Outline(lines[1..], before + 1);
      var level := |HeadingLevel(lines[0])|;
      assert before + shift + 1 == before + 1 + shift;
      if level > 0 {
        assert ([HeadingInfo(level, HeadingText(lines[0]), before + 1)] + rest)[1..] == rest;
      } else {
        assert Outline(lines, before) == rest;
        assert Outline(lines, before + shift) == Outline(lines[1..], before + 1 + shift);
      }
    }
  }

  /** The first entry with this text. */
  function FirstEntry(headings: seq<HeadingInfo>, text: string): (i: nat)
    ensures i <= |headings|
    ensures forall k | 0 <= k < i :: headings[k].text != text
    ensures i < |headings| ==> headings[i].text == text
  {
    if headings == [] || headings[0].text == text then 0 else 1 + FirstEntry(headings[1..], text)
  }
}
