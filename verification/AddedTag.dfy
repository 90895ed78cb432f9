/**
 A tag appended to the body of a note (AddTag with location "inline", internal/vault/tags.go:230-249), read
 again: which lines the note then has, whether the scanners see the tag, and what RemoveTag
 (internal/vault/tags.go:312-449) makes of it. A body that ends inside a fenced block gets its tag into the
 block, where no scanner finds it.
 */
module AddedTag {
  import opened Wrappers
  import opened Lines
  import opened Fences
  import opened Frontmatter
  import opened TagEdits
  import TagCoverage
  import RemovalExamples
  import opened Store
  import opened Writes

  /** The lines of a body, without the empty piece behind a final newline. */
  function Ended(body: string): (lines: seq<string>) {
    var lines := Split(body);
    if |lines| > 1 && lines[|lines| - 1] == [] then lines[..|lines| - 1] else lines
  }

  predicate OpenAtEnd(body: string) {
    StateAt(Split(body), |Split(body)|).Some?
  }

  // ---------------------------------------------------------------- the lines of the new body

  lemma SplitAfterNewline(s: string, t: string, sep: char)
    requires s != [] && s[|s| - 1] == sep
    ensures |SplitAt(s, sep)| > 1 && SplitAt(s, sep)[|SplitAt(s, sep)| - 1] == []
    ensures SplitAt(s + t, sep) == SplitAt(s, sep)[..|SplitAt(s, sep)| - 1] + SplitAt(t, sep)
  {
    hide SplitAt, Without;
    var front := s[..|s| - 1];
    SplitBehind(front, t, sep);
    SplitBehind(front, [], sep);
    assert s + t == front + [sep] + t && s == front + [sep] + [];
    NothingIsOnePiece(sep);
    assert SplitAt(s, sep) == SplitAt(front, sep) + [[]];
  }

  lemma NothingIsOnePiece(sep: char)
    ensures SplitAt([], sep) == [[]]
  {
  }

  lemma SplitBehind(s: string, t: string, sep: char)
    ensures SplitAt(s + [sep] + t, sep) == SplitAt(s, sep) + SplitAt(t, sep)
  {
    hide SplitAt, JoinWith;
    JoinOfSplit(s, sep);
    JoinOfSplit(t, sep);
    JoinConcat(SplitAt(s, sep), SplitAt(t, sep), sep);
    SplitOfJoin(SplitAt(s, sep) + SplitAt(t, sep), sep);
  }

  /** The lines of the body stand as they were, and behind them a line of its own carries the tag. */
  lemma BodyWithTagIsRead(body: string, tag: string)
    requires NewlineFree(tag)
    ensures Split(BodyWithTag(body, tag)) == Ended(body) + ["#" + tag, []]
    ensures Ended(body) <= Split(body)
  {
    hide SplitAt;
    var line := "#" + tag;
    assert NewlineFree(line);
    SplitBehind(line, [], '\n');
    OneLine(line);
    OneLine([]);
    assert line + ['\n'] + [] == line + "\n";
    if body != [] && body[|body| - 1] == '\n' {
      SplitAfterNewline(body, line + "\n", '\n');
      assert BodyWithTag(body, tag) == body + (line + "\n");
    } else {
      SplitBehind(body, line + "\n", '\n');
      assert BodyWithTag(body, tag) == body + ['\n'] + (line + "\n");
      LastPieceIsEmpty(body);
    }
  }

  lemma OneLine(line: string)
    requires NewlineFree(line)
    ensures Split(line) == [line]
  {
    SplitOfPrefix(line, [], '\n');
    assert line + [] == line;
  }

  lemma LastPieceIsEmpty(s: string)
    ensures |Split(s)| > 1 && Split(s)[|Split(s)| - 1] == [] ==> s != [] && s[|s| - 1] == '\n'
  {
    hide SplitAt;
    var lines := Split(s);
    var n := |lines| - 1;
    JoinOfSplit(s, '\n');
    JoinSnoc(lines[..n], lines[n], '\n');
    assert lines == lines[..n] + [lines[n]];
  }

  // ---------------------------------------------------------------- its frontmatter

  lemma {:induction false} DelimiterIsALine(s: string)
    ensures ToDelimiter(s).Some? <==> "---" in Split(s)
    decreases |s|
  {
    hide ToDelimiter, SplitAt;
    if LineLength(s) < |s| {
      var line, rest := FirstLine(s);
      ToDelimiterCons(line, rest);
      SplitFirstLine(line, rest);
      DelimiterIsALine(rest);
    } else {
      ToDelimiterOfLine(s);
      OneLine(s);
    }
  }

  /** A note has frontmatter exactly when its first line is the delimiter and a later line is one, too. */
  lemma FrontmatterByLines(content: string)
    ensures var lines := Split(content);
            SplitFrontmatter(content).hasFM <==> lines[0] == "---" && "---" in lines[1..]
  {
    hide ToDelimiter, SplitAt;
    if LineLength(content) < |content| {
      var line, rest := FirstLine(content);
      SplitFirstLine(line, rest);
      DelimiterIsALine(rest);
      FirstLineIsDelimiter(line, rest);
    } else {
      OneLine(content);
      DelimiterHasNewline(content);
    }
  }

  lemma DelimiterHasNewline(s: string)
    ensures "---\n" <= s ==> LineLength(s) < |s|
  {
    assert "---\n" <= s ==> s[3] == '\n';
  }

  lemma FirstLineIsDelimiter(line: string, rest: string)
    requires NewlineFree(line)
    ensures line == "---" ==> (line + "\n" + rest)[4..] == rest
    ensures "---\n" <= line + "\n" + rest <==> line == "---"
  {
    var s := line + "\n" + rest;
    LineLengthIs(line, rest);
    if "---\n" <= s {
      assert s == "---" + "\n" + s[4..];
      LineLengthIs("---", s[4..]);
      assert line == s[..3];
    }
  }

  /** A tag added inline changes the body alone: the note keeps its frontmatter, and gets none if it has none. */
  lemma InlineTagChangesBody(content: string, tag: string)
    requires NewlineFree(tag)
    ensures var p := SplitFrontmatter(content);
            SplitFrontmatter(AddInlineTag(content, tag)) == p.(body := BodyWithTag(p.body, tag))
  {
    hide SplitFrontmatter, SplitAt, BodyWithTag;
    var p := SplitFrontmatter(content);
    if p.hasFM {
      InlineTagKeepsFrontmatter(content, tag);
    } else {
      BodyWithTagIsRead(content, tag);
      FrontmatterByLines(content);
      FrontmatterByLines(BodyWithTag(content, tag));
      var lines, lines' := Split(content), Split(BodyWithTag(content, tag));
      var k := |Ended(content)|;
      assert lines'[0] == lines[0];
      assert lines'[1..] == lines[1..k] + ["#" + tag, []];
      assert lines[1..] == lines[1..k] + lines[k..];
      assert ("#" + tag)[0] == '#';
      assert "---" in lines'[1..] ==> "---" in lines[1..k];
      assert lines[k..] == [] || lines[k..] == [[]];
      NoFrontmatter(content);
      NoFrontmatter(BodyWithTag(content, tag));
    }
  }

  // ---------------------------------------------------------------- its fences

  lemma {:induction false} StateOfPrefix(lines: seq<string>, more: seq<string>, i: nat)
    requires i <= |lines| && lines <= more
    ensures StateAt(more, i) == StateAt(lines, i)
  {
    if i > 0 {
      StateOfPrefix(lines, more, i - 1);
    }
  }

  /** An empty piece at the end neither opens nor closes a block. */
  lemma StateAtEnd(body: string)
    ensures StateAt(Ended(body), |Ended(body)|).Some? == OpenAtEnd(body)
  {
    hide SplitAt, Opener;
    var lines, ended := Split(body), Ended(body);
    StateOfPrefix(ended, lines, |ended|);
    if ended != lines {
      assert TrimCR([]) == [];
      var before := StateAt(lines, |ended|);
      if before.Some? {
        var o := OpenBlockHasOpener(lines, |ended|);
        OpenerIsLong(TrimCR(lines[o]));
      } else {
        NoOpener();
      }
    }
  }

  lemma OpenerIsLong(line: string)
    ensures Opener(line).Some? ==> Opener(line).value.len >= 3
  {
  }

  lemma NoOpener()
    ensures Opener([]).None?
  {
  }

  /** No earlier line changes its status, and the new line is fenced exactly when a block was left open. */
  lemma AddedTagIsFencedIff(body: string, tag: string)
    requires NewlineFree(tag) && tag != []
    ensures var lines, k := Split(BodyWithTag(body, tag)), |Ended(body)|;
            && k + 2 == |lines|
            && (forall i | 0 <= i < k :: lines[i] == Split(body)[i] && Fenced(lines, i) == Fenced(Split(body), i))
            && (Fenced(lines, k) <==> OpenAtEnd(body))
            && Fenced(lines, k + 1) == OpenAtEnd(body)
  {
    hide SplitAt, BodyWithTag, Ended, Opener, TrimCR, OpenAtEnd;
    BodyWithTagIsRead(body, tag);
    StateAtEnd(body);
    var lines, ended := Split(BodyWithTag(body, tag)), Ended(body);
    var k := |ended|;
    forall i | 0 <= i <= k ensures StateAt(lines, i) == StateAt(ended, i) == StateAt(Split(body), i) {
      StateOfPrefix(ended, lines, i);
      StateOfPrefix(ended, Split(body), i);
    }
    TagLineIsNoFence(tag);
    if StateAt(lines, k).Some? {
      var f := StateAt(lines, k).value;
      var o := OpenBlockHasOpener(lines, k);
      OpenerIsLong(TrimCR(lines[o]));
      OpenerIsTick(TrimCR(lines[o]));
      TagLineCloses(tag, f);
    }
    assert lines[k] == "#" + tag && lines[k + 1] == [];
    EmptyLineIsNoOpener();
  }

  lemma OpenerIsTick(line: string)
    ensures Opener(line).Some? ==> Opener(line).value.ch in {'`', '~'}
  {
  }

  lemma EmptyLineIsNoOpener()
    ensures Opener(TrimCR([])).None?
  {
  }

  lemma TagLineIsNoFence(tag: string)
    ensures Opener(TrimCR("#" + tag)).None?
  {
    OpenerByThreeCharacters("#" + tag);
  }

  lemma TagLineCloses(tag: string, f: Fence)
    requires f.len >= 3 && f.ch != '#'
    ensures !Closes(TrimCR("#" + tag), f)
  {
    var trimmed := TrimCR("#" + tag);
    assert trimmed != [] ==> trimmed[0] == '#';
  }

  // ---------------------------------------------------------------- adding and removing

  lemma {:induction false} RemoveWithoutTag(ln: set<char>, s: string, atStart: bool, tag: string)
    requires !Contains(s, "#" + tag)
    ensures Remove(ln, s, atStart, tag) == s
    decreases |s|
  {
    if s != [] {
      RemoveWithoutTag(ln, s[1..], false, tag);
      assert !("#" + tag <= s);
      assert "#" + tag <= s[1..] ==> Contains(s[1..], "#" + tag);
    }
  }

  lemma RemoveAlone(ln: set<char>, tag: string)
    requires Alphabet(ln) && IsTag(ln, tag)
    ensures Remove(ln, "#" + tag, true, tag) == []
    ensures TagCoverage.Occurrences(ln, "#" + tag, true, tag) == 1
  {
    var s := "#" + tag;
    assert TagAt(ln, s, tag) == Some(0);
    assert s[..HitLength(Hit(0, 0), tag)] == s && s[HitLength(Hit(0, 0), tag)..] == [];
    assert Remove(ln, [], false, tag) == [];
    RemovalExamples.OneAtFront(ln, tag);
  }

  /** The tag is absent: no line outside fenced blocks mentions it. */
  predicate Unmentioned(body: string, tag: string) {
    var lines := Split(body);
    forall i | 0 <= i < |lines| :: !Fenced(lines, i) ==> !Contains(lines[i], "#" + tag)
  }

  lemma RemovalOfUnmentioned(ln: set<char>, body: string, tag: string)
    requires Unmentioned(body, tag)
    ensures RemovedLines(ln, Split(body), tag) == Split(body)
    ensures Join(RemovedLines(ln, Split(body), tag)) == body
  {
    hide SplitAt, Fenced;
    var lines := Split(body);
    forall i | 0 <= i < |lines| ensures RemovedLine(ln, lines, i, tag) == lines[i] {
      if !Fenced(lines, i) {
        RemoveWithoutTag(ln, lines[i], true, tag);
      }
    }
    assert RemovedLines(ln, lines, tag) == lines;
    JoinOfSplit(body, '\n');
  }

  /**
   Adding a tag inline and removing it again gives the lines of the body back, and one empty line where the
   tag was, exactly when the body does not end inside a fenced block; there the tag stays for good.
   */
  lemma AddThenRemoveIff(ln: set<char>, body: string, tag: string)
    requires Alphabet(ln) && IsTag(ln, tag) && Unmentioned(body, tag)
    ensures var with := BodyWithTag(body, tag);
            RemovedLines(ln, Split(with), tag) == if OpenAtEnd(body) then Split(with) else Ended(body) + [[], []]
  {
    hide SplitAt, BodyWithTag, Ended, OpenAtEnd, Fenced, Remove, Contains, Unmentioned;
    var lines, k := Split(BodyWithTag(body, tag)), |Ended(body)|;
    assert forall i | 0 <= i < |tag| :: TagChar(ln, tag[i]);
    assert NewlineFree(tag);
    BodyWithTagIsRead(body, tag);
    AddedTagIsFencedIff(body, tag);
    RemoveAlone(ln, tag);
    NothingToRemove(ln, tag);
    forall i | 0 <= i < k ensures RemovedLine(ln, lines, i, tag) == lines[i] {
      MentionedInBody(body, tag, i);
      if !Fenced(lines, i) {
        RemoveWithoutTag(ln, lines[i], true, tag);
      }
    }
    var removed := RemovedLines(ln, lines, tag);
    assert removed[k] == RemovedLine(ln, lines, k, tag) && removed[k + 1] == RemovedLine(ln, lines, k + 1, tag);
    assert forall i | 0 <= i < k :: removed[i] == RemovedLine(ln, lines, i, tag);
  }

  lemma MentionedInBody(body: string, tag: string, i: nat)
    requires Unmentioned(body, tag) && i < |Split(body)|
    ensures Fenced(Split(body), i) || !Contains(Split(body)[i], "#" + tag)
  {
  }

  lemma NothingToRemove(ln: set<char>, tag: string)
    ensures Remove(ln, [], true, tag) == []
  {
  }

  // ---------------------------------------------------------------- the calls

  /** The two calls one after the other: what RemoveTag leaves of the body to which AddTag added the tag. */
  lemma InlineTagRoundTripIff(env: Env, tag: string, text: string)
    requires WellMarshalled(env.yaml) && Alphabet(env.letters) && IsTag(env.letters, tag)
    requires Unmentioned(SplitFrontmatter(text).body, tag)
    requires EditText(env, AddTag(tag, "inline"), text).Ok?
    requires EditText(env, RemoveTag(tag), EditText(env, AddTag(tag, "inline"), text).value).Ok?
    ensures var p := SplitFrontmatter(text);
            var with := EditText(env, AddTag(tag, "inline"), text).value;
            var left := EditText(env, RemoveTag(tag), with).value;
            var body := if OpenAtEnd(p.body) then BodyWithTag(p.body, tag) else Join(Ended(p.body) + [[], []]);
            && SplitFrontmatter(with) == p.(body := BodyWithTag(p.body, tag))
            && (if p.hasFM && env.yaml.hasMapping(p.raw) then
                  env.yaml.withoutTag(p.raw, tag).Some? && left == Assemble(env.yaml.withoutTag(p.raw, tag).value, body)
                else left == body)
  {
    hide SplitFrontmatter, RemovedLines, Unmentioned, RawText, OpenAtEnd, Ended, BodyWithTag, SplitAt, JoinWith, AddInlineTag;
    var p := SplitFrontmatter(text);
    assert forall i | 0 <= i < |tag| :: TagChar(env.letters, tag[i]);
    assert NewlineFree(tag);
    InlineTagChangesBody(text, tag);
    AddThenRemoveIff(env.letters, p.body, tag);
    JoinOfSplit(BodyWithTag(p.body, tag), '\n');
  }

  /**
   Removing a tag that is nowhere in the body is to leave the note as it is (internal/vault/tags.go:312-315).
   It does so exactly when there is no frontmatter, or the frontmatter comes back from YAML as it was and the
   note does not end at its closing delimiter; frontmatter that holds no mapping is dropped altogether.
   */
  lemma AbsentTagIsNoOpIff(env: Env, tag: string, text: string)
    requires var p := SplitFrontmatter(text);
             Unmentioned(p.body, tag) && EditText(env, RemoveTag(tag), text).Ok?
    ensures var p := SplitFrontmatter(text);
            && (EditText(env, RemoveTag(tag), text) == Ok(text)
                <==> !p.hasFM || (env.yaml.hasMapping(p.raw) && env.yaml.withoutTag(p.raw, tag) == Some(p.raw)
                                  && text == Assemble(p.raw, p.body)))
            && (p.hasFM && !env.yaml.hasMapping(p.raw) ==> EditText(env, RemoveTag(tag), text) == Ok(p.body))
  {
    hide SplitFrontmatter, RemovedLines, Unmentioned, RawText;
    var p := SplitFrontmatter(text);
    RemovalOfUnmentioned(env.letters, p.body, tag);
    if p.hasFM {
      AssembledOfSplit(text);
      if env.yaml.hasMapping(p.raw) && env.yaml.withoutTag(p.raw, tag).Some? {
        SameRaw(env.yaml.withoutTag(p.raw, tag).value, p.raw, p.body, text);
      }
      assert |Assemble(p.raw, p.body)| >= |p.body| + 8;
    } else {
      NoFrontmatter(text);
    }
  }

  lemma NoFrontmatter(text: string)
    requires !SplitFrontmatter(text).hasFM
    ensures SplitFrontmatter(text) == Parts([], text, false)
  {
  }

  lemma SameRaw(raw': string, raw: string, body: string, text: string)
    requires Assemble(raw, body) == text || (body == [] && Assemble(raw, []) == text + "\n")
    ensures Assemble(raw', body) == text <==> raw' == raw && text == Assemble(raw, body)
  {
    var x, whole := Assemble(raw', body), Assemble(raw, body);
    assert x == "---\n" + raw' + ("---\n" + body) && whole == "---\n" + raw + ("---\n" + body);
    SameMiddle("---\n", raw', raw, "---\n" + body);
    assert body == [] ==> x[|x| - 1] == '\n' && whole[|whole| - 2] == '-';
    assert body == [] && whole == text + "\n" ==> text[|text| - 1] == whole[|whole| - 2];
  }

  lemma SameMiddle(a: string, x: string, y: string, b: string)
    ensures a + x + b == a + y + b ==> x == y
  {
    assert (a + x + b)[|a|..|a| + |x|] == x;
    assert (a + y + b)[|a|..|a| + |y|] == y;
  }
}
