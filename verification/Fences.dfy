/**
 Fenced code and inline code (internal/markdown/fence.go). A fence is opened at column 0 by a run of
 three or more backticks or tildes and closed by a run of the same character that is at least as
 long; what a line's status is depends on every line before it, through one piece of state.
 */
module Fences {
  import opened Wrappers
  import opened Lines

  datatype Fence = Fence(ch: char, len: nat)

  /** Trailing carriage returns do not count, so that CRLF text closes its fences. */
  function TrimCR(line: string): (trimmed: string)
    ensures trimmed <= line
    ensures forall k | |trimmed| <= k < |line| :: line[k] == '\r'
    ensures trimmed != [] ==> trimmed[|trimmed| - 1] != '\r'
  {
    if line != [] && line[|line| - 1] == '\r' then TrimCR(line[..|line| - 1]) else line
  }

  /** How many copies of c a line starts with. */
  function RunLength(s: string, c: char): (n: nat)
    ensures n <= |s| && forall k | 0 <= k < n :: s[k] == c
    ensures n < |s| ==> s[n] != c
  {
    if s != [] && s[0] == c then 1 + RunLength(s[1..], c) else 0
  }

  /** How many characters come before the first backtick. */
  function TextLength(s: string): (n: nat)
    ensures n <= |s| && forall k | 0 <= k < n :: s[k] != '`'
    ensures n < |s| ==> s[n] == '`'
  {
    if s != [] && s[0] != '`' then 1 + TextLength(s[1..]) else 0
  }

  /** The fence a line opens when it is read outside any fence. */
  function Opener(line: string): Option<Fence> {
    if RunLength(line, '`') >= 3 then
      Some(Fence('`', RunLength(line, '`')))
    else if RunLength(line, '~') >= 3 then
      Some(Fence('~', RunLength(line, '~')))
    else
      None
  }

  predicate Closes(line: string, f: Fence) {
    var n := RunLength(line, f.ch);
    n >= f.len && forall k | n <= k < |line| :: line[k] == ' '
  }

  method FenceOpener(line: string) returns (ch: char, n: nat, ok: bool)
    ensures Opener(line) == if ok then Some(Fence(ch, n)) else None
  {
    var fenceChars := ['`', '~'];
    for k := 0 to 2
      invariant forall j | 0 <= j < k :: RunLength(line, fenceChars[j]) < 3
    {
      ch := fenceChars[k];
      if |line| >= 3 && line[0] == ch && line[1] == ch && line[2] == ch {
        n := 3;
        while n < |line| && line[n] == ch
          invariant 3 <= n <= |line|
          invariant forall j | 0 <= j < n :: line[j] == ch
        {
          n := n + 1;
        }
        return ch, n, true;
      }
    }
    assert RunLength(line, fenceChars[0]) < 3 && RunLength(line, fenceChars[1]) < 3;
    return '\0', 0, false;
  }

  method IsFenceCloser(line: string, fenceChar: char, fenceLen: nat) returns (closes: bool)
    ensures closes == Closes(line, Fence(fenceChar, fenceLen))
  {
    if |line| < fenceLen {
      return false;
    }
    var i := 0;
    while i < |line| && line[i] == fenceChar
      invariant i <= |line|
      invariant forall k | 0 <= k < i :: line[k] == fenceChar
    {
      i := i + 1;
    }
    assert i == RunLength(line, fenceChar);
    if i < fenceLen {
      return false;
    }
    while i < |line|
      invariant RunLength(line, fenceChar) <= i <= |line|
      invariant forall k | RunLength(line, fenceChar) <= k < i :: line[k] == ' '
    {
      if line[i] != ' ' {
        return false;
      }
      i := i + 1;
    }
    return true;
  }

  // ---------------------------------------------------------------- fence state of a text

  function NextState(open: Option<Fence>, line: string): Option<Fence> {
    match open
    case None => Opener(TrimCR(line))
    case Some(f) => if Closes(TrimCR(line), f) then None else open
  }

  /** The fence that is open just before line i. */
  function StateAt(lines: seq<string>, i: nat): Option<Fence>
    requires i <= |lines|
  {
    if i == 0 then None else NextState(StateAt(lines, i - 1), lines[i - 1])
  }

  predicate OpensAt(lines: seq<string>, i: nat)
    requires i < |lines|
  {
    StateAt(lines, i).None? && Opener(TrimCR(lines[i])).Some?
  }

  /** Line i belongs to a fenced block: its opening line, its content or its closing line. */
  predicate Fenced(lines: seq<string>, i: nat)
    requires i < |lines|
  {
    StateAt(lines, i).Some? || OpensAt(lines, i)
  }

  /** Line i lies in the block that line o opens: nothing strictly between them closes it. */
  ghost predicate InBlockOf(lines: seq<string>, o: nat, i: nat)
    requires i <= |lines|
  {
    && o < i
    && OpensAt(lines, o)
    && forall k | o < k < i :: !Closes(TrimCR(lines[k]), Opener(TrimCR(lines[o])).value)
  }

  lemma {:induction false} OpenBlockHasOpener(lines: seq<string>, i: nat) returns (o: nat)
    requires i <= |lines| && StateAt(lines, i).Some?
    ensures InBlockOf(lines, o, i) && Opener(TrimCR(lines[o])) == StateAt(lines, i)
  {
    hide Opener, Closes, TrimCR;
    var before := StateAt(lines, i - 1);
    if before.None? {
      o := i - 1;
    } else {
      o := OpenBlockHasOpener(lines, i - 1);
      assert !Closes(TrimCR(lines[i - 1]), before.value);
    }
  }

  lemma {:induction false} OpenerKeepsBlockOpen(lines: seq<string>, o: nat, i: nat)
    requires i <= |lines| && InBlockOf(lines, o, i)
    ensures StateAt(lines, i) == Opener(TrimCR(lines[o]))
    decreases i
  {
    hide Opener, Closes, TrimCR;
    if o + 1 < i {
      assert InBlockOf(lines, o, i - 1);
      OpenerKeepsBlockOpen(lines, o, i - 1);
    }
  }

  /** The one-variable state machine decides exactly the block structure of the text. */
  lemma FencedMeansInABlock(lines: seq<string>, i: nat)
    requires i < |lines|
    ensures Fenced(lines, i) <==> OpensAt(lines, i) || exists o: nat :: InBlockOf(lines, o, i)
  {
    if StateAt(lines, i).Some? {
      var o := OpenBlockHasOpener(lines, i);
    }
    if o: nat :| InBlockOf(lines, o, i) {
      OpenerKeepsBlockOpen(lines, o, i);
    }
  }

  /** Whether a line opens a fence is visible in its first three characters, trimmed or not. */
  predicate LooksLikeOpener(line: string) {
    |line| >= 3 && (line[0] == '`' || line[0] == '~') && line[1] == line[0] && line[2] == line[0]
  }

  lemma OpenerByThreeCharacters(line: string)
    ensures Opener(TrimCR(line)).Some? <==> LooksLikeOpener(line)
  {
    var trimmed := TrimCR(line);
    if LooksLikeOpener(line) {
      assert |trimmed| >= 3;
    }
  }

  /**
   An edit that leaves fenced lines alone and keeps unfenced lines from looking like an opener
   leaves the whole fence structure where it was.
   */
  lemma {:induction false} EditKeepsState(lines: seq<string>, lines': seq<string>, i: nat)
    requires |lines'| == |lines| && i <= |lines|
    requires forall k | 0 <= k < i ::
               if Fenced(lines, k) then lines'[k] == lines[k] else !LooksLikeOpener(lines'[k])
    ensures StateAt(lines', i) == StateAt(lines, i)
  {
    hide Opener, Closes, TrimCR, LooksLikeOpener;
    if i > 0 {
      EditKeepsState(lines, lines', i - 1);
      OpenerByThreeCharacters(lines'[i - 1]);
      assert if Fenced(lines, i - 1) then lines'[i - 1] == lines[i - 1] else !LooksLikeOpener(lines'[i - 1]);
    }
  }

  lemma EditKeepsFences(lines: seq<string>, lines': seq<string>)
    requires |lines'| == |lines|
    requires forall k | 0 <= k < |lines| ::
               if Fenced(lines, k) then lines'[k] == lines[k] else !LooksLikeOpener(lines'[k])
    ensures forall k | 0 <= k < |lines| :: Fenced(lines', k) == Fenced(lines, k)
  {
    forall k | 0 <= k < |lines| ensures Fenced(lines', k) == Fenced(lines, k) {
      EditKeepsState(lines, lines', k);
      OpenerByThreeCharacters(lines'[k]);
    }
  }

  /** And only such an edit, when it leaves fenced lines alone: the first new opener changes its own line. */
  lemma EditKeepsFencesIff(lines: seq<string>, lines': seq<string>)
    requires |lines'| == |lines|
    requires forall k | 0 <= k < |lines| :: Fenced(lines, k) ==> lines'[k] == lines[k]
    ensures (forall k | 0 <= k < |lines| :: Fenced(lines', k) == Fenced(lines, k))
            <==> forall k | 0 <= k < |lines| :: !Fenced(lines, k) ==> !LooksLikeOpener(lines'[k])
  {
    hide Fenced, StateAt, LooksLikeOpener;
    if k: nat :| k < |lines| && !Fenced(lines, k) && LooksLikeOpener(lines'[k]) {
      var first := FirstNewOpener(lines, lines', k);
      EditKeepsState(lines, lines', first);
      NewOpenerIsFenced(lines, lines', first);
    } else {
      EditKeepsFences(lines, lines');
    }
  }

  lemma {:induction false} FirstNewOpener(lines: seq<string>, lines': seq<string>, k: nat) returns (first: nat)
    requires |lines'| == |lines| && k < |lines| && !Fenced(lines, k) && LooksLikeOpener(lines'[k])
    ensures first <= k && !Fenced(lines, first) && LooksLikeOpener(lines'[first])
    ensures forall i | 0 <= i < first :: Fenced(lines, i) || !LooksLikeOpener(lines'[i])
  {
    hide Fenced, LooksLikeOpener;
    if i: nat :| i < k && !Fenced(lines, i) && LooksLikeOpener(lines'[i]) {
      first := FirstNewOpener(lines, lines', i);
    } else {
      first := k;
    }
  }

  lemma NewOpenerIsFenced(lines: seq<string>, lines': seq<string>, k: nat)
    requires |lines'| == |lines| && k < |lines| && StateAt(lines', k) == StateAt(lines, k)
    requires !Fenced(lines, k) && LooksLikeOpener(lines'[k])
    ensures Fenced(lines', k)
  {
    hide Opener, TrimCR, LooksLikeOpener, StateAt;
    OpenerByThreeCharacters(lines'[k]);
  }

  // ---------------------------------------------------------------- inline code

  /**
   Inline stripping of the rest of a line: a run of two or more backticks is copied, a single
   backtick and everything to the next backtick become one space, a last single one is copied.
   */
  function StripInline(s: string): string
    decreases |s|
  {
    if s == [] then
      []
    else
      var n := RunLength(s, '`');
      if n == 0 then
        [s[0]] + StripInline(s[1..])
      else if n > 1 then
        s[..n] + StripInline(s[n..])
      else
        var j := 1 + TextLength(s[1..]);
        if j < |s| then " " + StripInline(s[j + 1..]) else "`" + StripInline(s[1..])
  }

  lemma {:induction false} StripInlineWithoutBackticks(s: string)
    requires '`' !in s
    ensures StripInline(s) == s
  {
    if s != [] {
      assert s[0] in s;
      StripInlineWithoutBackticks(s[1..]);
    }
  }

  lemma StripInlineText(c: char, t: string)
    requires c != '`'
    ensures StripInline([c] + t) == [c] + StripInline(t)
  {
    assert ([c] + t)[1..] == t;
  }

  lemma StripInlineRun(run: string, t: string)
    requires |run| > 1 && forall k | 0 <= k < |run| :: run[k] == '`'
    requires t == [] || t[0] != '`'
    ensures StripInline(run + t) == run + StripInline(t)
  {
    assert RunLength(run + t, '`') == |run|;
    assert (run + t)[..|run|] == run && (run + t)[|run|..] == t;
  }

  lemma StripInlineSpan(span: string, t: string)
    requires span != [] && '`' !in span
    ensures StripInline("`" + span + "`" + t) == " " + StripInline(t)
  {
    var s := "`" + span + "`" + t;
    assert s[1] == span[0] && span[0] in span;
    assert RunLength(s, '`') == 1;
    assert forall k | 0 <= k < |span| :: s[1..][k] == span[k] && span[k] in span;
    assert s[1..][|span|] == '`';
    assert TextLength(s[1..]) == |span|;
    assert s[|span| + 2..] == t;
  }

  lemma StripInlineLastTick(t: string)
    requires '`' !in t
    ensures StripInline("`" + t) == "`" + StripInline(t)
  {
    var s := "`" + t;
    assert s[1..] == t;
    assert t != [] ==> t[0] in t;
    assert RunLength(s, '`') == 1;
    assert TextLength(t) == |t|;
  }

  lemma TextAt(line: string, i: nat)
    requires i < |line| && line[i] != '`'
    ensures StripInline(line[i..]) == [line[i]] + StripInline(line[i + 1..])
  {
    hide StripInline;
    assert line[i..] == [line[i]] + line[i + 1..];
    StripInlineText(line[i], line[i + 1..]);
  }

  lemma RunAt(line: string, i: nat, end: nat)
    requires i + 1 < end <= |line| && (forall k | i <= k < end :: line[k] == '`')
    requires end == |line| || line[end] != '`'
    ensures StripInline(line[i..]) == line[i..end] + StripInline(line[end..])
  {
    hide StripInline;
    assert line[i..] == line[i..end] + line[end..];
    StripInlineRun(line[i..end], line[end..]);
  }

  lemma SpanAt(line: string, i: nat, j: nat)
    requires i + 1 < j < |line| && line[i] == line[j] == '`'
    requires forall k | i < k < j :: line[k] != '`'
    ensures StripInline(line[i..]) == " " + StripInline(line[j + 1..])
  {
    hide StripInline;
    assert line[i..] == "`" + line[i + 1..j] + "`" + line[j + 1..];
    StripInlineSpan(line[i + 1..j], line[j + 1..]);
  }

  lemma LastTickAt(line: string, i: nat)
    requires i < |line| && line[i] == '`' && (forall k | i < k < |line| :: line[k] != '`')
    ensures StripInline(line[i..]) == "`" + StripInline(line[i + 1..])
  {
    hide StripInline;
    assert line[i..] == "`" + line[i + 1..];
    StripInlineLastTick(line[i + 1..]);
  }

  method StripInlineCode(line: string) returns (out: string)
    ensures out == StripInline(line)
  {
    hide StripInline;
    StripInlineWithoutBackticks([]);
    if '`' !in line {
      StripInlineWithoutBackticks(line);
      return line;
    }
    out := [];
    var i := 0;
    ghost var expected := StripInline(line);
    assert line[0..] == line;
    while i < |line|
      invariant i <= |line|
      invariant out + StripInline(line[i..]) == expected
    {
      if line[i] == '`' {
        var runStart := i;
        while i < |line| && line[i] == '`'
          invariant runStart <= i <= |line|
          invariant forall k | runStart <= k < i :: line[k] == '`'
        {
          i := i + 1;
        }
        var runLen := i - runStart;
        if runLen > 1 {
          RunAt(line, runStart, i);
          Regroup(out, line[runStart..i], StripInline(line[i..]));
          out := out + line[runStart..i];
          continue;
        }
        var j := i;
        while j < |line| && line[j] != '`'
          invariant i <= j <= |line|
          invariant forall k | i <= k < j :: line[k] != '`'
        {
          j := j + 1;
        }
        if j < |line| {
          SpanAt(line, runStart, j);
          Regroup(out, " ", StripInline(line[j + 1..]));
          out := out + " ";
          i := j + 1;
        } else {
          LastTickAt(line, runStart);
          Regroup(out, "`", StripInline(line[i..]));
          out := out + "`";
        }
        continue;
      }
      TextAt(line, i);
      Regroup(out, [line[i]], StripInline(line[i + 1..]));
      out := out + [line[i]];
      i := i + 1;
    }
    assert line[i..] == [];
  }

  lemma {:induction false} StripInlineStep(s: string)
    ensures StripInline(s) ==
            if s == [] then []
            else
              var n := RunLength(s, '`');
              var j := 1 + TextLength(s[1..]);
              if n == 0 then [s[0]] + StripInline(s[1..])
              else if n > 1 then s[..n] + StripInline(s[n..])
              else if j < |s| then " " + StripInline(s[j + 1..]) else "`" + StripInline(s[1..])
  {
    hide RunLength, TextLength;
  }

  lemma {:induction false} StripInlineKeepsNewlineFree(s: string)
    requires NewlineFree(s)
    ensures NewlineFree(StripInline(s))
    decreases |s|
  {
    StripInlineStep(s);
    hide StripInline;
    if s != [] {
      var n := RunLength(s, '`');
      var j := 1 + TextLength(s[1..]);
      if n == 0 {
        StripInlineKeepsNewlineFree(s[1..]);
      } else if n > 1 {
        StripInlineKeepsNewlineFree(s[n..]);
      } else if j < |s| {
        StripInlineKeepsNewlineFree(s[j + 1..]);
      } else {
        StripInlineKeepsNewlineFree(s[1..]);
      }
    }
  }

  /** Stripping what is already stripped changes nothing: no new single-backtick pair appears. */
  lemma {:induction false} StripInlineTwice(s: string)
    ensures StripInline(StripInline(s)) == StripInline(s)
    decreases |s|
  {
    StripInlineStep(s);
    hide StripInline;
    if s != [] {
      var n := RunLength(s, '`');
      var j := 1 + TextLength(s[1..]);
      if n == 0 {
        StripInlineTwice(s[1..]);
        StripInlineText(s[0], StripInline(s[1..]));
      } else if n > 1 {
        StripInlineTwice(s[n..]);
        StripInlineStart(s[n..]);
        StripInlineRun(s[..n], StripInline(s[n..]));
      } else if j < |s| {
        StripInlineTwice(s[j + 1..]);
        StripInlineText(' ', StripInline(s[j + 1..]));
      } else {
        StripInlineWithoutBackticks(s[1..]);
        StripInlineLastTick(s[1..]);
      }
    }
  }

  lemma StripInlineStart(s: string)
    requires s == [] || s[0] != '`'
    ensures StripInline(s) == [] || StripInline(s)[0] != '`'
  {
  }

  lemma StripInlineTildes(s: string)
    ensures "~~" <= StripInline(s) ==> "~~" <= s
  {
    StripInlineTilde(s);
    if s != [] && s[0] == '~' {
      StripInlineTilde(s[1..]);
      StripInlineText('~', s[1..]);
      assert s == ['~'] + s[1..];
    }
  }

  lemma StripInlineTilde(s: string)
    ensures StripInline(s) != [] && StripInline(s)[0] == '~' ==> s[0] == '~'
  {
  }

  lemma StripInlineMakesNoOpener(s: string)
    requires !LooksLikeOpener(s)
    ensures !LooksLikeOpener(StripInline(s))
  {
    var n := RunLength(s, '`');
    if s != [] && n == 0 && s[0] == '~' {
      StripInlineTildes(s[1..]);
    } else if n == 2 {
      StripInlineStart(s[2..]);
    }
  }

  // ---------------------------------------------------------------- whole texts

  function StrippedLine(lines: seq<string>, i: nat): string
    requires i < |lines|
  {
    if Fenced(lines, i) then " " else StripInline(lines[i])
  }

  function StrippedLines(lines: seq<string>): seq<string> {
    seq(|lines|, i requires 0 <= i < |lines| => StrippedLine(lines, i))
  }

  function Stripped(content: string): string {
    Join(StrippedLines(Split(content)))
  }

  method StripCodeFences(content: string) returns (out: string)
    ensures out == Stripped(content)
  {
    hide Opener, Closes, StripInline, Split, TrimCR;
    var lines := Split(content);
    ghost var expected := StrippedLines(lines);
    out := "";
    var inFence, fenceChar, fenceLength := false, '\0', 0;
    for i := 0 to |lines|
      invariant StateAt(lines, i) == if inFence then Some(Fence(fenceChar, fenceLength)) else None
      invariant out == Join(expected[..i])
    {
      assert expected[..i + 1] == expected[..i] + [expected[i]];
      JoinSnoc(expected[..i], expected[i], '\n');
      var line := lines[i];
      if i > 0 {
        out := out + "\n";
      }
      var trimmed := TrimCR(line);
      if inFence {
        var closes := IsFenceCloser(trimmed, fenceChar, fenceLength);
        if closes {
          inFence := false;
        }
        out := out + " ";
        continue;
      }
      var ch, n, ok := FenceOpener(trimmed);
      if ok {
        inFence, fenceChar, fenceLength := true, ch, n;
        out := out + " ";
        continue;
      }
      var stripped := StripInlineCode(line);
      out := out + stripped;
    }
    assert expected[..|lines|] == expected;
  }

  /** Line k of the stripped text is line k of the text, stripped: no line is gained or lost. */
  lemma StrippedKeepsLines(content: string)
    ensures Split(Stripped(content)) == StrippedLines(Split(content))
    ensures |Split(Stripped(content))| == |Split(content)|
  {
    var lines := Split(content);
    forall i | 0 <= i < |lines| ensures NewlineFree(StrippedLines(lines)[i]) {
      StripInlineKeepsNewlineFree(lines[i]);
    }
    SplitOfJoin(StrippedLines(lines), '\n');
  }

  lemma {:induction false} StrippedHasNoOpenFence(lines: seq<string>, i: nat)
    requires i <= |lines|
    ensures StateAt(StrippedLines(lines), i).None?
    ensures i < |lines| ==> !Fenced(StrippedLines(lines), i)
  {
    hide Opener, Closes, StripInline, TrimCR;
    if i > 0 {
      StrippedHasNoOpenFence(lines, i - 1);
    }
    if i < |lines| {
      assert StrippedLines(lines)[i] == StrippedLine(lines, i);
      OpenerByThreeCharacters(lines[i]);
      OpenerByThreeCharacters(StrippedLine(lines, i));
      if !Fenced(lines, i) {
        StripInlineMakesNoOpener(lines[i]);
      }
    }
  }

  /** Stripping is idempotent. */
  lemma StrippedTwice(content: string)
    ensures Stripped(Stripped(content)) == Stripped(content)
  {
    var lines := Split(content);
    hide Opener, Closes, TrimCR, StripInline;
    var once := StrippedLines(lines);
    StrippedKeepsLines(content);
    forall i | 0 <= i < |lines| ensures StrippedLine(once, i) == once[i] {
      StrippedHasNoOpenFence(lines, i);
      StripInlineTwice(lines[i]);
      StripInlineWithoutBackticks(" ");
    }
    assert StrippedLines(once) == once;
  }
}
