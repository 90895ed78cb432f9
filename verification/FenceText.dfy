/**
 Fenced blocks told by the text of their lines (internal/markdown/fence.go:23-102), without the tests the
 scanners make: which lines open a block, which line ends it, and that nothing else does either.
 */
module FenceText {
  import opened Wrappers
  import opened Lines
  import opened Fences

  /** The line begins with a run of exactly n copies of a fence character, three or more. */
  predicate OpenerText(line: string, c: char, n: nat) {
    && (c == '`' || c == '~')
    && n >= 3
    && Copies(c, n) <= line
    && (n < |line| ==> line[n] != c)
  }

  /** The line is n or more copies of the character, then spaces only, but for carriage returns at its end. */
  ghost predicate CloserText(line: string, c: char, n: nat) {
    exists m: nat, spaces: nat, crs: nat ::
      m >= n && line == Copies(c, m) + Copies(' ', spaces) + Copies('\r', crs)
  }

  lemma OpenerIs(line: string, c: char, n: nat)
    ensures Opener(TrimCR(line)) == Some(Fence(c, n)) <==> OpenerText(line, c, n)
  {
    var trimmed := TrimCR(line);
    if OpenerText(line, c, n) {
      assert forall k | 0 <= k < n :: line[k] == Copies(c, n)[k];
      assert line[n - 1] == c;
      assert n <= |trimmed|;
      assert RunLength(trimmed, c) == n;
    }
  }

  lemma {:induction false} TrimmedLength(line: string, n: nat)
    requires n <= |line| && (n > 0 ==> line[n - 1] != '\r') && forall k | n <= k < |line| :: line[k] == '\r'
    ensures TrimCR(line) == line[..n]
    decreases |line|
  {
    if n < |line| {
      TrimmedLength(line[..|line| - 1], n);
      assert line[..|line| - 1][..n] == line[..n];
    } else {
      assert line[..n] == line;
    }
  }

  lemma RunOfCopies(c: char, m: nat, rest: string)
    requires rest != [] ==> rest[0] != c
    ensures RunLength(Copies(c, m) + rest, c) == m
  {
    var s := Copies(c, m) + rest;
    assert forall k | 0 <= k < m :: s[k] == c;
    assert m < |s| ==> s[m] == rest[0];
  }

  /** Behind the run only spaces, and behind those only carriage returns. */
  lemma CloserIs(line: string, f: Fence)
    requires f.ch != ' ' && f.ch != '\r'
    ensures Closes(TrimCR(line), f) <==> CloserText(line, f.ch, f.len)
  {
    hide TrimCR, RunLength;
    var trimmed := TrimCR(line);
    if Closes(trimmed, f) {
      var m := RunLength(trimmed, f.ch);
      assert line == Copies(f.ch, m) + Copies(' ', |trimmed| - m) + Copies('\r', |line| - |trimmed|);
    }
    if CloserText(line, f.ch, f.len) {
      var m: nat, spaces: nat, crs: nat :|
        m >= f.len && line == Copies(f.ch, m) + Copies(' ', spaces) + Copies('\r', crs);
      var front := Copies(f.ch, m) + Copies(' ', spaces);
      TrimmedLength(line, |front|);
      assert trimmed == front;
      RunOfCopies(f.ch, m, Copies(' ', spaces));
    }
  }

  lemma OpenFenceIsFence(lines: seq<string>, i: nat)
    requires i <= |lines| && StateAt(lines, i).Some?
    ensures var f := StateAt(lines, i).value; f.len >= 3 && (f.ch == '`' || f.ch == '~')
  {
    var o := OpenBlockHasOpener(lines, i);
  }

  /** Outside any block a line opens one exactly when it begins with a fence run, which is then remembered whole. */
  lemma OpensIff(lines: seq<string>, i: nat, c: char, n: nat)
    requires i < |lines| && StateAt(lines, i).None?
    ensures StateAt(lines, i + 1) == Some(Fence(c, n)) <==> OpenerText(lines[i], c, n)
  {
    hide Opener, TrimCR;
    OpenerIs(lines[i], c, n);
  }

  /**
   Inside a block exactly the lines of at least as many copies of the opening character, and nothing but spaces
   behind them, end it; so a line with a shorter run never does.
   */
  lemma EndsIff(lines: seq<string>, i: nat)
    requires i < |lines| && StateAt(lines, i).Some?
    ensures var f := StateAt(lines, i).value;
            && StateAt(lines, i + 1) == (if CloserText(lines[i], f.ch, f.len) then None else Some(f))
            && (RunLength(lines[i], f.ch) < f.len ==> StateAt(lines, i + 1) == Some(f))
  {
    hide Closes, TrimCR;
    var f := StateAt(lines, i).value;
    OpenFenceIsFence(lines, i);
    CloserIs(lines[i], f);
    if CloserText(lines[i], f.ch, f.len) {
      LongRun(lines[i], f.ch, f.len);
    }
  }

  lemma LongRun(line: string, c: char, n: nat)
    requires CloserText(line, c, n)
    ensures RunLength(line, c) >= n
  {
    var m: nat, spaces: nat, crs: nat :|
      m >= n && line == Copies(c, m) + Copies(' ', spaces) + Copies('\r', crs);
    assert forall k | 0 <= k < m :: line[k] == c;
  }

  /** An opening line keeps every line fenced up to and including the first one that closes it, and no further. */
  lemma {:induction false} BlockReaches(lines: seq<string>, o: nat, i: nat, c: char, n: nat)
    requires o < i <= |lines| && StateAt(lines, o).None? && OpenerText(lines[o], c, n)
    requires forall k | o < k < i :: !CloserText(lines[k], c, n)
    ensures StateAt(lines, i) == Some(Fence(c, n))
    ensures forall k | o <= k < i :: Fenced(lines, k)
    ensures i < |lines| ==> Fenced(lines, i)
    ensures i < |lines| && CloserText(lines[i], c, n) ==> StateAt(lines, i + 1).None?
    decreases i
  {
    hide Opener, Closes, TrimCR, OpenerText, CloserText;
    if o + 1 < i {
      BlockReaches(lines, o, i - 1, c, n);
      EndsIff(lines, i - 1);
    } else {
      OpensIff(lines, o, c, n);
    }
    if i < |lines| {
      EndsIff(lines, i);
    }
  }

  /**
   A whole block: an opening line, lines of which none is a closing line for it, and a closing line. All of
   them are blank in the text that is searched, and behind it the next lines are read as outside any block.
   */
  lemma BlockIsBlanked(lines: seq<string>, o: nat, e: nat, c: char, n: nat)
    requires o < e < |lines| && StateAt(lines, o).None? && OpenerText(lines[o], c, n)
    requires CloserText(lines[e], c, n) && forall k | o < k < e :: !CloserText(lines[k], c, n)
    ensures forall k | o <= k <= e :: StrippedLines(lines)[k] == " "
    ensures StateAt(lines, e + 1).None?
    ensures e + 1 < |lines| && !LooksLikeOpener(lines[e + 1]) ==>
              StrippedLines(lines)[e + 1] == StripInline(lines[e + 1])
  {
    hide Opener, Closes, TrimCR, OpenerText, CloserText, LooksLikeOpener, StripInline, StateAt;
    BlockReaches(lines, o, e, c, n);
    if e + 1 < |lines| {
      OpenerByThreeCharacters(lines[e + 1]);
    }
  }
}
