/**
 Splitting a note into YAML frontmatter and body (internal/vault/frontmatter.go) and putting the two
 together again, as every frontmatter edit does.
 */
module Frontmatter {
  import opened Wrappers
  import opened Lines

  datatype Parts = Parts(raw: string, body: string, hasFM: bool)

  function LineLength(s: string): (n: nat)
    ensures n <= |s| && forall k | 0 <= k < n :: s[k] != '\n'
    ensures n < |s| ==> s[n] == '\n'
  {
    if s != [] && s[0] != '\n' then 1 + LineLength(s[1..]) else 0
  }

  /** The text up to a line "---", and the text behind that line, for the rest of a note. */
  function ToDelimiter(s: string): (r: Option<(string, string)>)
    decreases |s|
  {
    if s == [] then
      None
    else
      var n := LineLength(s);
      var next := if n < |s| then n + 1 else n;
      if s[..n] == "---" then
        Some(([], s[next..]))
      else if n == |s| then
        None
      else
        var r := ToDelimiter(s[next..]);
        if r.None? then None else Some((s[..next] + r.value.0, r.value.1))
  }

  function SplitFrontmatter(content: string): Parts {
    if !("---\n" <= content) then
      Parts([], content, false)
    else
      match ToDelimiter(content[4..])
      case None => Parts([], content, false)
      case Some((raw, body)) => Parts(raw, body, true)
  }

  method SplitNote(content: string) returns (raw: string, body: string, hasFM: bool)
    ensures Parts(raw, body, hasFM) == SplitFrontmatter(content)
  {
    if !("---\n" <= content) {
      return "", content, false;
    }
    var rest := content[4..];
    var i := 0;
    WholeText(rest);
    while i < |rest|
      invariant i <= |rest|
      invariant ToDelimiter(rest) == Behind(rest[..i], ToDelimiter(rest[i..]))
    {
      var nl := LineLength(rest[i..]);
      var line := rest[i..i + nl];
      var nextI := if i + nl < |rest| then i + nl + 1 else |rest|;
      BehindLine(rest, i, nl, nextI);
      if line == "---" {
        return rest[..i], rest[nextI..], true;
      }
      i := nextI;
    }
    return "", content, false;
  }

  /** The same result for a text with some lines in front of it. */
  function Behind(front: string, r: Option<(string, string)>): Option<(string, string)> {
    if r.None? then None else Some((front + r.value.0, r.value.1))
  }

  lemma WholeText(rest: string)
    ensures ToDelimiter(rest) == Behind(rest[..0], ToDelimiter(rest[0..]))
  {
    assert rest[0..] == rest;
    if ToDelimiter(rest).Some? {
      assert rest[..0] + ToDelimiter(rest).value.0 == ToDelimiter(rest).value.0;
    }
  }

  /** One turn of the loop. */
  lemma ToDelimiterStep(s: string, n: nat, next: nat)
    requires s != [] && n == LineLength(s) && next == if n < |s| then n + 1 else n
    ensures ToDelimiter(s) ==
            if s[..n] == "---" then Some(([], s[next..]))
            else
              var r := ToDelimiter(s[next..]);
              if r.None? then None else Some((s[..next] + r.value.0, r.value.1))
  {
    assert n == |s| ==> s[next..] == [];
  }

  lemma BehindLine(rest: string, i: nat, nl: nat, nextI: nat)
    requires i < |rest| && nl == LineLength(rest[i..]) && i + nl <= |rest|
    requires nextI == if i + nl < |rest| then i + nl + 1 else |rest|
    ensures Behind(rest[..i], ToDelimiter(rest[i..]))
            == if rest[i..i + nl] == "---" then Some((rest[..i], rest[nextI..]))
               else Behind(rest[..nextI], ToDelimiter(rest[nextI..]))
  {
    var s := rest[i..];
    var next := nextI - i;
    assert s[..nl] == rest[i..i + nl] && s[next..] == rest[nextI..] && s[..next] == rest[i..nextI];
    assert rest[..i] + [] == rest[..i];
    ToDelimiterStep(s, nl, next);
    hide ToDelimiter, LineLength;
    var r := ToDelimiter(rest[nextI..]);
    if r.Some? {
      assert rest[..nextI] == rest[..i] + s[..next];
      Regroup(rest[..i], s[..next], r.value.0);
    }
  }

  // ---------------------------------------------------------------- what a frontmatter text is

  /** Empty or ended by a newline, and no line of it is the delimiter. */
  predicate RawText(raw: string) {
    (raw == [] || raw[|raw| - 1] == '\n') && "---" !in Split(raw)
  }

  function Assemble(raw: string, body: string): string {
    "---\n" + raw + "---\n" + body
  }

  lemma SplitFirstLine(line: string, s: string)
    requires NewlineFree(line)
    ensures Split(line + "\n" + s) == [line] + Split(s)
  {
    SplitOfPrefix(line, "\n" + s, '\n');
    assert line + "\n" + s == line + ("\n" + s);
    assert ("\n" + s)[1..] == s;
    assert SplitAt("\n" + s, '\n') == [[]] + Split(s);
    assert line + [] == line;
  }

  /** A text that has a newline is its first line and the rest. */
  lemma FirstLine(s: string) returns (line: string, rest: string)
    requires LineLength(s) < |s|
    ensures s == line + "\n" + rest && NewlineFree(line) && |line| == LineLength(s)
  {
    var n := LineLength(s);
    line, rest := s[..n], s[n + 1..];
    assert s == s[..n] + [s[n]] + s[n + 1..];
  }

  lemma LineLengthIs(line: string, rest: string)
    requires NewlineFree(line)
    ensures LineLength(line + "\n" + rest) == |line|
    ensures LineLength(line) == |line|
  {
    var s := line + "\n" + rest;
    assert s[|line|] == '\n';
    assert forall k | 0 <= k < |line| :: line[k] in line && s[k] == line[k];
  }

  /** A frontmatter text behind a line that is not the delimiter is one again, and conversely. */
  lemma RawTextCons(line: string, rest: string)
    requires NewlineFree(line)
    ensures RawText(line + "\n" + rest) <==> line != "---" && RawText(rest)
  {
    SplitFirstLine(line, rest);
    var s := line + "\n" + rest;
    assert rest != [] ==> s[|s| - 1] == rest[|rest| - 1];
    assert rest == [] ==> s[|s| - 1] == '\n';
    assert rest == [] ==> Split(rest) == [[]];
  }

  lemma ToDelimiterCons(line: string, rest: string)
    requires NewlineFree(line)
    ensures ToDelimiter(line + "\n" + rest)
            == if line == "---" then Some(([], rest)) else Behind(line + "\n", ToDelimiter(rest))
  {
    var s := line + "\n" + rest;
    LineLengthIs(line, rest);
    assert s[..|line|] == line && s[|line| + 1..] == rest && s[..|line| + 1] == line + "\n";
  }

  lemma ToDelimiterOfLine(line: string)
    requires NewlineFree(line)
    ensures ToDelimiter(line) == if line == "---" then Some(([], [])) else None
  {
    LineLengthIs(line, []);
    assert line[..|line|] == line && line[|line|..] == [];
  }

  lemma {:induction false} ToDelimiterOfAssembled(raw: string, tail: string, body: string)
    requires RawText(raw)
    requires tail == "---\n" + body || (tail == "---" && body == [])
    ensures ToDelimiter(raw + tail) == Some((raw, body))
    decreases |raw|
  {
    hide ToDelimiter, RawText, Split;
    if raw == [] {
      assert raw + tail == tail;
      if tail == "---" {
        ToDelimiterOfLine("---");
      } else {
        assert tail == "---" + "\n" + body;
        ToDelimiterCons("---", body);
      }
    } else {
      RawTextEnds(raw);
      var line, rest := FirstLine(raw);
      RawTextCons(line, rest);
      ToDelimiterOfAssembled(rest, tail, body);
      ToDelimiterCons(line, rest + tail);
      assert raw + tail == line + "\n" + (rest + tail);
      assert line + "\n" + rest == raw;
    }
  }

  lemma RawTextEnds(raw: string)
    requires raw != [] && RawText(raw)
    ensures LineLength(raw) < |raw|
  {
  }

  /** A text with a delimiter line behind raw, whose newline may be missing at the very end. */
  predicate Delimited(s: string, raw: string, body: string) {
    s == raw + "---\n" + body || (body == [] && s == raw + "---")
  }

  lemma DelimitedBehind(front: string, s: string, raw: string, body: string)
    requires Delimited(s, raw, body)
    ensures Delimited(front + s, front + raw, body)
  {
    if s == raw + "---\n" + body {
      assert front + s == front + raw + "---\n" + body;
    } else {
      assert front + s == front + raw + "---";
    }
  }

  lemma DelimitedAtOnce(body: string)
    ensures Delimited("---" + "\n" + body, [], body) && Delimited("---", [], [])
  {
    assert "---" + "\n" + body == [] + "---\n" + body && [] + "---" == "---";
  }

  lemma {:induction false} ToDelimiterFindsRawText(s: string)
    requires ToDelimiter(s).Some?
    ensures var (raw, body) := ToDelimiter(s).value; RawText(raw) && Delimited(s, raw, body)
    decreases |s|
  {
    hide ToDelimiter, RawText, Split, Delimited;
    EmptyIsRawText();
    if LineLength(s) < |s| {
      var line, rest := FirstLine(s);
      ToDelimiterCons(line, rest);
      if line == "---" {
        DelimitedAtOnce(rest);
      } else {
        ToDelimiterFindsRawText(rest);
        var (raw', body) := ToDelimiter(rest).value;
        RawTextCons(line, raw');
        DelimitedBehind(line + "\n", rest, raw', body);
      }
    } else {
      ToDelimiterOfLine(s);
      DelimitedAtOnce([]);
    }
  }

  lemma EmptyIsRawText()
    ensures RawText([])
  {
  }

  /** Splitting what was assembled gives back exactly the two parts. */
  lemma SplitOfAssembled(raw: string, body: string)
    requires RawText(raw)
    ensures SplitFrontmatter(Assemble(raw, body)) == Parts(raw, body, true)
  {
    var content := Assemble(raw, body);
    assert content[..4] == "---\n";
    assert content[4..] == raw + ("---\n" + body);
    ToDelimiterOfAssembled(raw, "---\n" + body, body);
  }

  /** Assembling what was split gives back the note, up to a newline missing at its very end. */
  lemma AssembledOfSplit(content: string)
    requires SplitFrontmatter(content).hasFM
    ensures var p := SplitFrontmatter(content);
            && RawText(p.raw)
            && (Assemble(p.raw, p.body) == content
                || (p.body == [] && Assemble(p.raw, []) == content + "\n"))
  {
    hide ToDelimiter, RawText;
    var p := SplitFrontmatter(content);
    ToDelimiterFindsRawText(content[4..]);
    assert content == "---\n" + content[4..];
    DelimitedBehind("---\n", content[4..], p.raw, p.body);
    assert Assemble(p.raw, []) == "---\n" + p.raw + "---" + "\n";
  }

  /** Frontmatter is found exactly in the notes that have the form of one. */
  lemma HasFrontmatterIff(content: string)
    ensures SplitFrontmatter(content).hasFM
            <==> exists raw, body :: RawText(raw) && (content == Assemble(raw, body)
                                                      || (body == [] && content + "\n" == Assemble(raw, [])))
  {
    hide RawText, ToDelimiter;
    if SplitFrontmatter(content).hasFM {
      AssembledOfSplit(content);
      var p := SplitFrontmatter(content);
      assert RawText(p.raw) && (content == Assemble(p.raw, p.body)
                                || (p.body == [] && content + "\n" == Assemble(p.raw, [])));
    }
    if raw, body :| RawText(raw) && (content == Assemble(raw, body)
                                     || (body == [] && content + "\n" == Assemble(raw, []))) {
      if content == Assemble(raw, body) {
        SplitOfAssembled(raw, body);
      } else {
        var whole := "---\n" + raw + "---";
        assert Assemble(raw, []) == whole + "\n";
        assert content == (content + "\n")[..|content|] == whole;
        assert content[..4] == "---\n" && content[4..] == raw + "---";
        ToDelimiterOfAssembled(raw, "---", []);
      }
    }
  }

  // ---------------------------------------------------------------- the inline half of AddTag

  function BodyWithTag(body: string, tag: string): string {
    (if body != [] && body[|body| - 1] == '\n' then body else body + "\n") + "#" + tag + "\n"
  }

  /** AddTag with location "inline": the frontmatter text is reused as it stands. */
  function AddInlineTag(content: string, tag: string): string {
    var p := SplitFrontmatter(content);
    if p.hasFM then Assemble(p.raw, BodyWithTag(p.body, tag)) else BodyWithTag(content, tag)
  }

  /** Appending a tag touches neither the frontmatter nor the text of the body in front of it. */
  lemma InlineTagKeepsFrontmatter(content: string, tag: string)
    requires SplitFrontmatter(content).hasFM
    ensures var p := SplitFrontmatter(content);
            && SplitFrontmatter(AddInlineTag(content, tag)) == Parts(p.raw, BodyWithTag(p.body, tag), true)
            && p.body <= BodyWithTag(p.body, tag)
  {
    AssembledOfSplit(content);
    var p := SplitFrontmatter(content);
    SplitOfAssembled(p.raw, BodyWithTag(p.body, tag));
  }
}
