/**
 Heading patches told by the text of the note (internal/vault/mutators.go:54-156): what a heading line looks
 like, where a section ends, and which text each position puts where.
 */
module PatchLaws {
  import opened Wrappers
  import opened Lines
  import opened Headings
  import opened Patch

  // ---------------------------------------------------------------- heading lines

  /** One or more hashes, and behind them nothing or a space. */
  predicate HeadingOfLevel(line: string, n: nat) {
    n >= 1 && Copies('#', n) <= line && (|line| == n || line[n] == ' ')
  }

  lemma LevelIs(line: string, n: nat)
    requires n >= 1
    ensures |HeadingLevel(line)| == n <==> HeadingOfLevel(line, n)
    ensures HeadingOfLevel(line, n) ==> HeadingLevel(line) == Copies('#', n) && HashRun(line) == n
  {
    if HeadingOfLevel(line, n) {
      assert forall k | 0 <= k < n :: line[k] == Copies('#', n)[k];
      assert HashRun(line) == n;
    }
  }

  predicate AllSpace(s: string) {
    forall k | 0 <= k < |s| :: s[k] in WHITE_SPACE
  }

  /** No white space at either end. */
  predicate Bare(t: string) {
    t == [] || (t[0] !in WHITE_SPACE && t[|t| - 1] !in WHITE_SPACE)
  }

  lemma {:induction false} TrimLeftParts(s: string) returns (a: string)
    ensures s == a + TrimLeft(s) && AllSpace(a)
    ensures TrimLeft(s) != [] ==> TrimLeft(s)[0] !in WHITE_SPACE
  {
    a := [];
    if s != [] && s[0] in WHITE_SPACE {
      a := TrimLeftParts(s[1..]);
      a := [s[0]] + a;
    }
  }

  lemma {:induction false} TrimRightParts(s: string) returns (b: string)
    ensures s == TrimRight(s) + b && AllSpace(b)
    ensures TrimRight(s) != [] ==> TrimRight(s)[|TrimRight(s)| - 1] !in WHITE_SPACE
  {
    b := [];
    if s != [] && s[|s| - 1] in WHITE_SPACE {
      b := TrimRightParts(s[..|s| - 1]);
      b := b + [s[|s| - 1]];
    }
  }

  lemma {:induction false} TrimLeftOf(a: string, u: string)
    requires AllSpace(a)
    ensures TrimLeft(a + u) == TrimLeft(u)
  {
    if a == [] {
      assert a + u == u;
    } else {
      assert (a + u)[1..] == a[1..] + u;
      TrimLeftOf(a[1..], u);
    }
  }

  lemma {:induction false} TrimRightOf(u: string, b: string)
    requires AllSpace(b)
    ensures TrimRight(u + b) == TrimRight(u)
    decreases |b|
  {
    if b == [] {
      assert u + b == u;
    } else {
      var n := |b| - 1;
      assert (u + b)[..|u + b| - 1] == u + b[..n];
      TrimRightOf(u, b[..n]);
    }
  }

  lemma TrimSpaceParts(s: string) returns (a: string, b: string)
    ensures AllSpace(a) && AllSpace(b) && s == a + TrimSpace(s) + b && Bare(TrimSpace(s))
  {
    hide AllSpace, TrimLeft, TrimRight;
    a := TrimLeftParts(s);
    b := TrimRightParts(TrimLeft(s));
    Regroup(a, TrimSpace(s), b);
    assert TrimSpace(s) != [] ==> TrimSpace(s)[0] == TrimLeft(s)[0];
  }

  lemma TrimSpaceOf(a: string, t: string, b: string)
    requires AllSpace(a) && AllSpace(b) && Bare(t)
    ensures TrimSpace(a + t + b) == t
  {
    hide AllSpace;
    Regroup(a, t, b);
    TrimLeftOf(a, t + b);
    if t == [] {
      assert t + b == b + [];
      TrimLeftOf(b, []);
    } else {
      TrimRightOf(t, b);
    }
  }

  /** Trimming finds the one text without white space at its ends that stands between white space. */
  lemma TrimSpaceIs(s: string, t: string)
    ensures TrimSpace(s) == t <==> Bare(t) && exists a, b :: AllSpace(a) && AllSpace(b) && s == a + t + b
  {
    hide AllSpace, TrimSpace, Bare;
    var a, b := TrimSpaceParts(s);
    if a, b :| AllSpace(a) && AllSpace(b) && s == a + t + b && Bare(t) {
      TrimSpaceOf(a, t, b);
    }
  }

  /** The line is a heading with this text. */
  ghost predicate HeadingWithText(line: string, n: nat, heading: string) {
    && HeadingOfLevel(line, n)
    && Bare(heading)
    && exists a, b :: AllSpace(a) && AllSpace(b) && line == Copies('#', n) + (a + heading + b)
  }

  lemma HeadingLineIs(line: string, heading: string)
    ensures IsHeadingLine(line, heading) <==> exists n: nat :: HeadingWithText(line, n, heading)
  {
    hide TrimSpace, AllSpace, Bare;
    if IsHeadingLine(line, heading) {
      var n := |HeadingLevel(line)|;
      LevelIs(line, n);
      TrimSpaceIs(line[n..], heading);
      assert line == Copies('#', n) + line[n..];
      assert HeadingWithText(line, n, heading);
    }
    if n: nat :| HeadingWithText(line, n, heading) {
      LevelIs(line, n);
      var a, b :| AllSpace(a) && AllSpace(b) && line == Copies('#', n) + (a + heading + b);
      assert line[n..] == a + heading + b;
      TrimSpaceIs(line[n..], heading);
    }
  }

  /** Line k of the note, in front of which stand so many others, is the heading the entry describes. */
  ghost predicate Describes(o: HeadingInfo, lines: seq<string>, before: int, k: nat) {
    && k < |lines|
    && o.line == before + k + 1
    && HeadingWithText(lines[k], o.level, o.text)
  }

  lemma HeadingEntry(line: string, before: int)
    ensures HeadingOf(line, before) == [] <==> forall n: nat :: !HeadingOfLevel(line, n)
    ensures HeadingOf(line, before) != [] ==>
              var o := HeadingOf(line, before)[0];
              && HeadingOf(line, before) == [o] && o.line == before + 1 && HeadingWithText(line, o.level, o.text)
  {
    hide HeadingLevel, TrimSpace, AllSpace, Bare;
    var n := |HeadingLevel(line)|;
    if n > 0 {
      LevelIs(line, n);
      TrimSpaceIs(line[n..], HeadingText(line));
      assert line == Copies('#', n) + line[n..];
    }
    if m: nat :| HeadingOfLevel(line, m) {
      LevelIs(line, m);
    }
  }

  /** The outline: one entry for each heading line and for no other, with its level, text and number, in order. */
  lemma {:induction false} OutlineTells(lines: seq<string>, before: int)
    ensures forall o | o in Outline(lines, before) :: exists k: nat :: Describes(o, lines, before, k)
    ensures forall k, n: nat | 0 <= k < |lines| && HeadingOfLevel(lines[k], n) ::
              exists o :: o in Outline(lines, before) && o.line == before + k + 1
    ensures forall i, j | 0 <= i < j < |Outline(lines, before)| ::
              Outline(lines, before)[i].line < Outline(lines, before)[j].line
  {
    hide HeadingOf, Outline, HeadingOfLevel, HeadingWithText;
    OutlineStep(lines, before);
    if lines != [] {
      var rest, first := Outline(lines[1..], before + 1), HeadingOf(lines[0], before);
      HeadingEntry(lines[0], before);
      OutlineTells(lines[1..], before + 1);
      forall o | o in Outline(lines, before) ensures exists k: nat :: Describes(o, lines, before, k) {
        if o in rest {
          var k: nat :| Describes(o, lines[1..], before + 1, k);
          assert Describes(o, lines, before, k + 1);
        } else {
          assert Describes(o, lines, before, 0);
        }
      }
      forall k, n: nat | 0 <= k < |lines| && HeadingOfLevel(lines[k], n)
        ensures exists o :: o in Outline(lines, before) && o.line == before + k + 1
      {
        if k > 0 {
          assert lines[k] == lines[1..][k - 1];
          var o :| o in rest && o.line == before + 1 + (k - 1) + 1;
          assert o in Outline(lines, before);
        } else {
          assert first[0] in Outline(lines, before);
        }
      }
      assert forall i | 0 <= i < |rest| :: rest[i] in rest && rest[i].line > before + 1;
    }
  }

  // ---------------------------------------------------------------- where a patch goes

  /** The first heading line with the text, of the given level, and the end of its section behind it. */
  ghost predicate SectionAt(lines: seq<string>, heading: string, h: nat, level: nat, e: nat) {
    && h < e <= |lines|
    && HeadingWithText(lines[h], level, heading)
    && (forall k, n: nat | 0 <= k < h :: !HeadingWithText(lines[k], n, heading))
    && (forall k, n: nat | h < k < e && n <= level :: !HeadingOfLevel(lines[k], n))
    && (e < |lines| ==> exists n: nat :: n <= level && HeadingOfLevel(lines[e], n))
  }

  lemma EndsSectionIs(line: string, level: nat)
    ensures EndsSection(line, level) <==> exists n: nat :: n <= level && HeadingOfLevel(line, n)
  {
    var n := |HeadingLevel(line)|;
    if n > 0 {
      LevelIs(line, n);
    }
    if m: nat :| m <= level && HeadingOfLevel(line, m) {
      LevelIs(line, m);
    }
  }

  lemma SectionIs(lines: seq<string>, heading: string, h: nat, level: nat, e: nat)
    requires SectionAt(lines, heading, h, level, e)
    ensures FindHeading(lines, heading, 0) == h && |HeadingLevel(lines[h])| == level
    ensures SectionEnd(lines, level, h + 1) == e
  {
    hide HeadingLevel, HeadingWithText, HeadingOfLevel, IsHeadingLine;
    forall k | 0 <= k <= h ensures IsHeadingLine(lines[k], heading) == (k == h) {
      HeadingLineIs(lines[k], heading);
    }
    FindHeadingIs(lines, heading, h);
    LevelOfHeading(lines[h], level, heading);
    forall k | h < k < |lines| && k <= e ensures EndsSection(lines[k], level) == (k == e) {
      EndsSectionIs(lines[k], level);
    }
    SectionEndIs(lines, level, h + 1, e);
  }

  /** Every heading that occurs has such a section, and only one. */
  lemma SectionExists(lines: seq<string>, heading: string, i: nat, n: nat) returns (h: nat, level: nat, e: nat)
    requires i < |lines| && HeadingWithText(lines[i], n, heading)
    ensures SectionAt(lines, heading, h, level, e)
    ensures forall h': nat, level': nat, e': nat | SectionAt(lines, heading, h', level', e') :: (h', level', e') == (h, level, e)
  {
    hide HeadingLevel, HeadingWithText, HeadingOfLevel, IsHeadingLine, SectionAt;
    HeadingLineIs(lines[i], heading);
    h := FindHeading(lines, heading, 0);
    HeadingLineIs(lines[h], heading);
    level :| HeadingWithText(lines[h], level, heading);
    LevelOfHeading(lines[h], level, heading);
    e := SectionEnd(lines, level, h + 1);
    FoundSection(lines, heading, h, level, e);
    forall h': nat, level': nat, e': nat | SectionAt(lines, heading, h', level', e')
      ensures (h', level', e') == (h, level, e)
    {
      SectionInLines(lines, heading, h', level', e');
      SectionIs(lines, heading, h', level', e');
    }
  }

  lemma SectionInLines(lines: seq<string>, heading: string, h: nat, level: nat, e: nat)
    requires SectionAt(lines, heading, h, level, e)
    ensures h < e <= |lines|
  {
  }

  lemma FoundSection(lines: seq<string>, heading: string, h: nat, level: nat, e: nat)
    requires h == FindHeading(lines, heading, 0) < |lines| && HeadingWithText(lines[h], level, heading)
    requires e == SectionEnd(lines, level, h + 1)
    ensures SectionAt(lines, heading, h, level, e)
  {
    hide HeadingLevel, HeadingWithText, HeadingOfLevel, IsHeadingLine;
    forall k | 0 <= k < h ensures forall n: nat :: !HeadingWithText(lines[k], n, heading) {
      HeadingLineIs(lines[k], heading);
    }
    forall k | h < k < |lines| && k <= e
      ensures EndsSection(lines[k], level) <==> exists n: nat :: n <= level && HeadingOfLevel(lines[k], n)
    {
      EndsSectionIs(lines[k], level);
    }
  }

  lemma LevelOfHeading(line: string, n: nat, heading: string)
    requires HeadingWithText(line, n, heading)
    ensures |HeadingLevel(line)| == n
  {
    LevelIs(line, n);
  }

  /**
   The three positions: content goes directly in front of the heading line, directly behind its section, or in
   place of the section's body; every other line stays, the heading line itself included.
   */
  lemma PatchedSection(lines: seq<string>, op: PatchOp, h: nat, level: nat, e: nat)
    requires SectionAt(lines, op.heading, h, level, e)
    ensures var c := ContentLines(op.content);
            && (op.position == "before" ==> Patched(lines, op) == Ok(lines[..h] + c + lines[h..]))
            && (op.position == "after" ==> Patched(lines, op) == Ok(lines[..e] + c + lines[e..]))
            && (op.position == "replace_body" ==> Patched(lines, op) == Ok(lines[..h + 1] + c + lines[e..]))
            && (op.position !in ["before", "after", "replace_body"] ==> Patched(lines, op) == Err(UnknownPosition))
  {
    hide HeadingLevel, ContentLines, SectionAt;
    SectionIs(lines, op.heading, h, level, e);
  }

  /** Content put before a heading leaves it with the same number of lines in front and behind, but for its own. */
  lemma BeforeKeepsHeading(lines: seq<string>, op: PatchOp, h: nat, level: nat, e: nat)
    requires SectionAt(lines, op.heading, h, level, e) && op.position == "before"
    ensures Patched(lines, op).Ok?
    ensures var r, n := Patched(lines, op).value, |ContentLines(op.content)|;
            && |r| == |lines| + n
            && r[..h] == lines[..h] && r[h..h + n] == ContentLines(op.content) && r[h + n..] == lines[h..]
            && HeadingWithText(r[h + n], level, op.heading)
  {
    hide HeadingWithText, ContentLines, Patched;
    PatchedSection(lines, op, h, level, e);
  }

  /** Exactly without such a heading line a patch fails for it, whatever the position. */
  lemma HeadingIsMissingIff(lines: seq<string>, op: PatchOp)
    ensures Patched(lines, op) == Err(HeadingNotFound)
            <==> forall k, n: nat | 0 <= k < |lines| :: !HeadingWithText(lines[k], n, op.heading)
  {
    hide HeadingWithText, IsHeadingLine, HeadingLevel, ContentLines;
    forall k | 0 <= k < |lines|
      ensures IsHeadingLine(lines[k], op.heading) <==> exists n: nat :: HeadingWithText(lines[k], n, op.heading)
    {
      HeadingLineIs(lines[k], op.heading);
    }
  }

  // ---------------------------------------------------------------- the text

  /** Every line with its newline. */
  function Terminated(lines: seq<string>): string {
    if lines == [] then [] else Terminated(lines[..|lines| - 1]) + lines[|lines| - 1] + "\n"
  }

  /** A text with a newline at its end, if it has any text at all. */
  function WithNewline(s: string): string {
    if s == [] || s[|s| - 1] == '\n' then s else s + "\n"
  }

  lemma {:induction false} JoinTerminated(a: seq<string>, b: seq<string>)
    requires b != []
    ensures Join(a + b) == Terminated(a) + Join(b)
    decreases |a|
  {
    hide JoinWith;
    if a == [] {
      assert a + b == b;
    } else {
      var n := |a| - 1;
      assert a + b == a[..n] + ([a[n]] + b);
      JoinTerminated(a[..n], [a[n]] + b);
      JoinConcat([a[n]], b, '\n');
      JoinOne(a[n]);
      assert Terminated(a[..n]) + (a[n] + ['\n'] + Join(b)) == Terminated(a[..n]) + a[n] + "\n" + Join(b);
    }
  }

  lemma JoinOne(line: string)
    ensures Join([line]) == line
  {
  }

  /** The lines of the content, each with its newline, are the content, with one at its end. */
  lemma ContentIsKept(content: string)
    ensures Terminated(ContentLines(content)) == WithNewline(content)
    ensures content != [] ==> Join(ContentLines(content)) + "\n" == WithNewline(content)
  {
    hide SplitAt, JoinWith;
    if content != [] {
      var parts := Split(content);
      var n := |parts| - 1;
      JoinOfSplit(content, '\n');
      assert parts == parts[..n] + [parts[n]];
      JoinTerminated(parts[..n], [parts[n]]);
      JoinOne(parts[n]);
      assert content == Terminated(parts[..n]) + parts[n];
      TerminatedEnds(parts[..n]);
      assert parts[n] != [] ==> content[|content| - 1] == parts[n][|parts[n]| - 1] && content[|content| - 1] in parts[n];
      var lines := ContentLines(content);
      assert Terminated(lines) == WithNewline(content);
      var m := |lines| - 1;
      assert lines == lines[..m] + [lines[m]];
      JoinTerminated(lines[..m], [lines[m]]);
      JoinOne(lines[m]);
    }
  }

  lemma TerminatedEnds(lines: seq<string>)
    ensures lines != [] ==> Terminated(lines) != [] && Terminated(lines)[|Terminated(lines)| - 1] == '\n'
  {
  }

  /**
   The written note as a text: what stands before the place of the patch and what stands behind it is the text
   that stood there, and the content is between them, ended by a newline; only behind the last line of the note the
   newline comes first.
   */
  lemma PatchedText(text: string, op: PatchOp, h: nat, level: nat, e: nat)
    requires SectionAt(Split(text), op.heading, h, level, e)
    ensures var lines, added := Split(text), WithNewline(op.content);
            && text == Terminated(lines[..h]) + Join(lines[h..])
            && (op.position == "before" ==>
                  PatchText(text, op) == Ok(Terminated(lines[..h]) + added + Join(lines[h..])))
            && (op.position == "after" && e < |lines| ==>
                  PatchText(text, op) == Ok(Terminated(lines[..e]) + added + Join(lines[e..])))
            && (op.position == "replace_body" && e < |lines| ==>
                  PatchText(text, op) == Ok(Terminated(lines[..h + 1]) + added + Join(lines[e..])))
            && (op.position == "after" && e == |lines| ==>
                  PatchText(text, op) == Ok(if op.content == [] then text else text + "\n" + added[..|added| - 1]))
  {
    hide SectionAt, ContentLines, SplitAt, JoinWith, Patched, Terminated, WithNewline, PatchText;
    var lines := Split(text);
    SectionInLines(lines, op.heading, h, level, e);
    PatchedSection(lines, op, h, level, e);
    JoinOfSplit(text, '\n');
    assert lines == lines[..h] + lines[h..];
    JoinTerminated(lines[..h], lines[h..]);
    if op.position == "before" {
      TextOfPatched(text, op, lines[..h], lines[h..]);
    } else if op.position == "after" && e < |lines| {
      TextOfPatched(text, op, lines[..e], lines[e..]);
    } else if op.position == "replace_body" && e < |lines| {
      TextOfPatched(text, op, lines[..h + 1], lines[e..]);
    } else if op.position == "after" {
      TextBehind(text, lines, op.content);
      PatchedIsWritten(text, op);
    }
  }

  lemma PatchedIsWritten(text: string, op: PatchOp)
    requires Patched(Split(text), op).Ok?
    ensures PatchText(text, op) == Ok(Join(Patched(Split(text), op).value))
  {
    hide Patched, SplitAt, JoinWith;
  }

  lemma TextOfPatched(text: string, op: PatchOp, a: seq<string>, b: seq<string>)
    requires b != [] && Patched(Split(text), op) == Ok(a + ContentLines(op.content) + b)
    ensures PatchText(text, op) == Ok(Terminated(a) + WithNewline(op.content) + Join(b))
  {
    hide ContentLines, SplitAt, JoinWith, Patched, Terminated, WithNewline, PatchText;
    PatchedIsWritten(text, op);
    ContentIsKept(op.content);
    TextAround(a, ContentLines(op.content), b);
  }

  lemma {:induction false} TerminatedConcat(a: seq<string>, b: seq<string>)
    ensures Terminated(a + b) == Terminated(a) + Terminated(b)
    decreases |b|
  {
    if b == [] {
      assert a + b == a;
    } else {
      var n := |b| - 1;
      assert (a + b)[..|a + b| - 1] == a + b[..n];
      TerminatedConcat(a, b[..n]);
    }
  }

  lemma TextAround(a: seq<string>, c: seq<string>, b: seq<string>)
    requires b != []
    ensures Join(a + c + b) == Terminated(a) + Terminated(c) + Join(b)
  {
    hide Terminated, JoinWith;
    JoinTerminated(a + c, b);
    TerminatedConcat(a, c);
  }

  lemma TextBehind(text: string, lines: seq<string>, content: string)
    requires lines != [] && text == Join(lines)
    ensures var added := WithNewline(content);
            Join(lines[..|lines|] + ContentLines(content) + lines[|lines|..])
            == if content == [] then text else text + "\n" + added[..|added| - 1]
  {
    hide ContentLines, Terminated, JoinWith;
    ContentIsKept(content);
    var c := ContentLines(content);
    assert lines[..|lines|] + c + lines[|lines|..] == lines + c;
    if content == [] {
      NoContent();
      assert lines + c == lines;
    } else {
      SomeContent(content);
      JoinConcat(lines, c, '\n');
      assert WithNewline(content)[..|WithNewline(content)| - 1] == Join(c);
    }
  }

  lemma NoContent()
    ensures ContentLines([]) == []
  {
  }

  lemma SomeContent(content: string)
    requires content != []
    ensures ContentLines(content) != []
  {
    hide SplitAt, JoinWith;
    var parts := Split(content);
    JoinOfSplit(content, '\n');
    JoinOne([]);
    assert parts == [[]] ==> content == [];
  }
}
