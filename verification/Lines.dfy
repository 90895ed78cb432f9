/**
 Text in pieces: splitting at every occurrence of one character and joining the pieces again, the two
 library calls every scanner of the vault is built on, and the fact that they undo each other. Lines
 are the pieces between newlines.
 */
module Lines {

  predicate Without(s: string, sep: char) {
    sep !in s
  }

  /** The pieces between separators; a text without one is its own single piece. */
  function SplitAt(s: string, sep: char): (parts: seq<string>)
    ensures |parts| >= 1
    ensures forall i | 0 <= i < |parts| :: Without(parts[i], sep)
  {
    if s == [] then
      [[]]
    else
      var rest := SplitAt(s[1..], sep);
      assert Without(rest[0], sep);
      if s[0] == sep then [[]] + rest else [[s[0]] + rest[0]] + rest[1..]
  }

  function JoinWith(parts: seq<string>, sep: char): string {
    if parts == [] then
      []
    else if |parts| == 1 then
      parts[0]
    else
      parts[0] + [sep] + JoinWith(parts[1..], sep)
  }

  lemma {:induction false} JoinOfSplit(s: string, sep: char)
    ensures JoinWith(SplitAt(s, sep), sep) == s
  {
    if s == [] {
    } else {
      JoinOfSplit(s[1..], sep);
      var rest := SplitAt(s[1..], sep);
      if s[0] == sep {
        assert ([[]] + rest)[1..] == rest;
      } else if |rest| > 1 {
        assert ([[s[0]] + rest[0]] + rest[1..])[1..] == rest[1..];
      }
    }
  }

  lemma {:induction false} SplitOfPrefix(part: string, s: string, sep: char)
    requires Without(part, sep)
    ensures SplitAt(part + s, sep) == [part + SplitAt(s, sep)[0]] + SplitAt(s, sep)[1..]
  {
    if part == [] {
      assert part + s == s;
      assert part + SplitAt(s, sep)[0] == SplitAt(s, sep)[0];
    } else {
      assert (part + s)[1..] == part[1..] + s;
      SplitOfPrefix(part[1..], s, sep);
      assert [part[0]] + (part[1..] + SplitAt(s, sep)[0]) == part + SplitAt(s, sep)[0];
    }
  }

  /** No piece is gained or lost when separator-free pieces are written out and read back. */
  lemma {:induction false} SplitOfJoin(parts: seq<string>, sep: char)
    requires parts != []
    requires forall i | 0 <= i < |parts| :: Without(parts[i], sep)
    ensures SplitAt(JoinWith(parts, sep), sep) == parts
  {
    if |parts| == 1 {
      SplitOfPrefix(parts[0], [], sep);
      assert parts[0] + [] == parts[0];
    } else {
      var rest := JoinWith(parts[1..], sep);
      SplitOfJoin(parts[1..], sep);
      assert ([sep] + rest)[1..] == rest;
      SplitOfPrefix(parts[0], [sep] + rest, sep);
      assert JoinWith(parts, sep) == parts[0] + ([sep] + rest);
      assert SplitAt([sep] + rest, sep) == [[]] + SplitAt(rest, sep);
      assert parts[0] + [] == parts[0];
      assert [parts[0]] + parts[1..] == parts;
    }
  }

  /** Joining can be done one piece at a time, as a builder does. */
  lemma {:induction false} JoinSnoc(parts: seq<string>, part: string, sep: char)
    ensures JoinWith(parts + [part], sep)
            == if parts == [] then part else JoinWith(parts, sep) + [sep] + part
  {
    if |parts| == 0 {
    } else if |parts| == 1 {
      assert (parts + [part])[1..] == [part];
    } else {
      assert (parts + [part])[1..] == parts[1..] + [part];
      JoinSnoc(parts[1..], part, sep);
    }
  }

  lemma {:induction false} JoinConcat(a: seq<string>, b: seq<string>, sep: char)
    requires a != [] && b != []
    ensures JoinWith(a + b, sep) == JoinWith(a, sep) + [sep] + JoinWith(b, sep)
  {
    assert (a + b)[1..] == a[1..] + b;
    if |a| > 1 {
      JoinConcat(a[1..], b, sep);
    } else {
      assert (a + b)[1..] == b;
    }
  }

  // ---------------------------------------------------------------- sequences

  lemma Regroup<T>(a: seq<T>, b: seq<T>, c: seq<T>)
    ensures a + (b + c) == (a + b) + c
  {
  }

  /** Cutting inside the middle one of three parts. */
  lemma CutInMiddle<T>(a: seq<T>, b: seq<T>, c: seq<T>, n: nat)
    requires n <= |b|
    ensures (a + b + c)[..|a| + n] == a + b[..n] && (a + b + c)[|a| + n..] == b[n..] + c
  {
  }

  function Copies(c: char, n: nat): string {
    seq(n, _ => c)
  }

  // ---------------------------------------------------------------- substrings

  predicate Contains(s: string, p: string) {
    p <= s || (s != [] && Contains(s[1..], p))
  }

  lemma {:induction false} ContainsInTail(s: string, n: nat, p: string)
    requires n <= |s| && Contains(s[n..], p)
    ensures Contains(s, p)
  {
    if n > 0 {
      assert s[1..][n - 1..] == s[n..];
      ContainsInTail(s[1..], n - 1, p);
    }
  }

  // ---------------------------------------------------------------- lines

  predicate NewlineFree(s: string) {
    Without(s, '\n')
  }

  function Split(s: string): (lines: seq<string>)
    ensures |lines| >= 1
    ensures forall i | 0 <= i < |lines| :: NewlineFree(lines[i])
  {
    SplitAt(s, '\n')
  }

  function Join(lines: seq<string>): string {
    JoinWith(lines, '\n')
  }
}
