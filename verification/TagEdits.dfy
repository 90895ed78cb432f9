/**
 Inline tag edits outside fenced code: renameInlineTag (internal/vault/renametag.go) and the inline
 half of RemoveTag (internal/vault/tags.go). Both walk the lines with their own copy of the fence
 state and apply one pattern to each unfenced line, leftmost match first, matches not overlapping.

 The letters and numbers of Unicode are a parameter, the finite set ln.
 */
module TagEdits {
  import opened Wrappers
  import opened Lines
  import opened Fences

  // ---------------------------------------------------------------- the two character classes

  /** May stand inside a tag: a separator after a tag is any other character. */
  predicate TagChar(ln: set<char>, c: char) {
    c in ln || c == '_' || c == '/' || c == '-'
  }

  /** May stand before the '#' of a tag. */
  predicate LeadChar(ln: set<char>, c: char) {
    !(c in ln || c == '_' || c == '/')
  }

  predicate IsTag(ln: set<char>, tag: string) {
    tag != [] && forall k | 0 <= k < |tag| :: TagChar(ln, tag[k])
  }

  /** The alphabet says nothing wrong about the characters the two editors treat specially. */
  predicate Alphabet(ln: set<char>) {
    '#' !in ln && '`' !in ln && '~' !in ln && '\r' !in ln && '\n' !in ln
  }

  // ---------------------------------------------------------------- one match

  /** A match of the pattern: lead characters before '#' (0 at line start), sep after the tag. */
  datatype Hit = Hit(lead: nat, sep: nat)

  function HitLength(hit: Hit, tag: string): nat {
    hit.lead + 1 + |tag| + hit.sep
  }

  /** "#tag" followed by a separator or by the end, with the separator's length. */
  function TagAt(ln: set<char>, s: string, tag: string): Option<nat> {
    if "#" + tag <= s then
      if |s| == 1 + |tag| then Some(0)
      else if !TagChar(ln, s[1 + |tag|]) then Some(1)
      else None
    else
      None
  }

  /** The match beginning exactly here; line start is tried before a lead character. */
  function MatchAt(ln: set<char>, s: string, atStart: bool, tag: string): Option<Hit> {
    if atStart && TagAt(ln, s, tag).Some? then
      Some(Hit(0, TagAt(ln, s, tag).value))
    else if s != [] && LeadChar(ln, s[0]) && TagAt(ln, s[1..], tag).Some? then
      Some(Hit(1, TagAt(ln, s[1..], tag).value))
    else
      None
  }

  lemma MatchFits(ln: set<char>, s: string, atStart: bool, tag: string)
    ensures MatchAt(ln, s, atStart, tag).Some? ==>
              var hit := MatchAt(ln, s, atStart, tag).value;
              && hit.lead <= 1 && hit.sep <= 1
              && HitLength(hit, tag) <= |s|
              && s[hit.lead..hit.lead + 1 + |tag|] == "#" + tag
  {
  }

  // ---------------------------------------------------------------- replacing all matches

  /**
   What the replacement callback makes of one match: it sees only the matched text, so it runs the
   pattern on that text again to find the lead and separator it has to keep.
   */
  function RenamedMatch(ln: set<char>, text: string, oldTag: string, newTag: string): string {
    match MatchAt(ln, text, true, oldTag)
    case None => "#" + newTag
    case Some(hit) =>
      MatchFits(ln, text, true, oldTag);
      text[..hit.lead] + "#" + newTag + text[hit.lead + 1 + |oldTag|..HitLength(hit, oldTag)]
  }

  datatype Edit = Edit(text: string, count: nat)

  /** The rest of a line from here, with every match replaced, and how many there were. */
  function Rename(ln: set<char>, s: string, atStart: bool, oldTag: string, newTag: string): Edit
    decreases |s|
  {
    var m := MatchAt(ln, s, atStart, oldTag);
    if m.Some? then
      MatchFits(ln, s, atStart, oldTag);
      var n := HitLength(m.value, oldTag);
      var rest := Rename(ln, s[n..], false, oldTag, newTag);
      Edit(RenamedMatch(ln, s[..n], oldTag, newTag) + rest.text, rest.count + 1)
    else if s == [] then
      Edit([], 0)
    else
      var rest := Rename(ln, s[1..], false, oldTag, newTag);
      Edit([s[0]] + rest.text, rest.count)
  }

  /** The character whose code is the first byte of c in UTF-8: c itself when it is ASCII. */
  function FirstByte(c: char): (b: char)
    ensures if c as int < 0x80 then b == c else 0x80 <= b as int < 0x100
  {
    var code := c as int;
    if code < 0x80 then c
    else if code < 0x800 then (0xC0 + code / 0x40) as char
    else if code < 0x1_0000 then (0xE0 + code / 0x1000) as char
    else (0xF0 + code / 0x4_0000) as char
  }

  /** The removal callback keeps the first byte, as a character, unless the match begins with '#'. */
  function RemovedMatch(text: string): string {
    if text != [] && text[0] != '#' then [FirstByte(text[0])] else []
  }

  function Remove(ln: set<char>, s: string, atStart: bool, tag: string): string
    decreases |s|
  {
    var m := MatchAt(ln, s, atStart, tag);
    if m.Some? then
      MatchFits(ln, s, atStart, tag);
      var n := HitLength(m.value, tag);
      RemovedMatch(s[..n]) + Remove(ln, s[n..], false, tag)
    else if s == [] then
      []
    else
      [s[0]] + Remove(ln, s[1..], false, tag)
  }

  // ---------------------------------------------------------------- whole bodies

  function RenamedLine(ln: set<char>, lines: seq<string>, i: nat, oldTag: string, newTag: string): Edit
    requires i < |lines|
  {
    if Fenced(lines, i) then Edit(lines[i], 0) else Rename(ln, lines[i], true, oldTag, newTag)
  }

  function RenamedLines(ln: set<char>, lines: seq<string>, oldTag: string, newTag: string): seq<string> {
    seq(|lines|, i requires 0 <= i < |lines| => RenamedLine(ln, lines, i, oldTag, newTag).text)
  }

  function RenameCount(ln: set<char>, lines: seq<string>, n: nat, oldTag: string, newTag: string): nat
    requires n <= |lines|
  {
    if n == 0 then 0
    else RenameCount(ln, lines, n - 1, oldTag, newTag) + RenamedLine(ln, lines, n - 1, oldTag, newTag).count
  }

  function RenamedBody(ln: set<char>, body: string, oldTag: string, newTag: string): Edit {
    var lines := Split(body);
    Edit(Join(RenamedLines(ln, lines, oldTag, newTag)), RenameCount(ln, lines, |lines|, oldTag, newTag))
  }

  function RemovedLine(ln: set<char>, lines: seq<string>, i: nat, tag: string): string
    requires i < |lines|
  {
    if Fenced(lines, i) then lines[i] else Remove(ln, lines[i], true, tag)
  }

  function RemovedLines(ln: set<char>, lines: seq<string>, tag: string): seq<string> {
    seq(|lines|, i requires 0 <= i < |lines| => RemovedLine(ln, lines, i, tag))
  }

  method RenameInlineTag(ln: set<char>, body: string, oldTag: string, newTag: string)
    returns (text: string, count: nat)
    ensures Edit(text, count) == RenamedBody(ln, body, oldTag, newTag)
  {
    hide Opener, Closes, Rename, TrimCR, Split;
    var lines := Split(body);
    var inFence, fenceChar, fenceLen := false, '\0', 0;
    var out: seq<string> := [];
    count := 0;
    for i := 0 to |lines|
      invariant StateAt(lines, i) == if inFence then Some(Fence(fenceChar, fenceLen)) else None
      invariant |out| == i
      invariant forall k | 0 <= k < i :: out[k] == RenamedLine(ln, lines, k, oldTag, newTag).text
      invariant count == RenameCount(ln, lines, i, oldTag, newTag)
    {
      var line := lines[i];
      var trimmed := TrimCR(line);
      if !inFence {
        var ch, n, ok := FenceOpener(trimmed);
        if ok {
          inFence, fenceChar, fenceLen := true, ch, n;
          out := out + [line];
          continue;
        }
        var replaced := Rename(ln, line, true, oldTag, newTag);
        count := count + replaced.count;
        out := out + [replaced.text];
      } else {
        var closes := IsFenceCloser(trimmed, fenceChar, fenceLen);
        if closes {
          inFence := false;
        }
        out := out + [line];
      }
    }
    assert out == RenamedLines(ln, lines, oldTag, newTag);
    text := Join(out);
  }

  method RemoveInlineTag(ln: set<char>, body: string, tag: string) returns (text: string)
    ensures text == Join(RemovedLines(ln, Split(body), tag))
  {
    hide Opener, Closes, Remove;
    var lines := Split(body);
    var inFence, fenceChar, fenceLen := false, '\0', 0;
    var out: seq<string> := [];
    for i := 0 to |lines|
      invariant StateAt(lines, i) == if inFence then Some(Fence(fenceChar, fenceLen)) else None
      invariant |out| == i
      invariant forall k | 0 <= k < i :: out[k] == RemovedLine(ln, lines, k, tag)
    {
      var line := lines[i];
      var trimmed := TrimCR(line);
      if !inFence {
        var ch, n, ok := FenceOpener(trimmed);
        if ok {
          inFence, fenceChar, fenceLen := true, ch, n;
          out := out + [line];
          continue;
        }
        out := out + [Remove(ln, line, true, tag)];
      } else {
        var closes := IsFenceCloser(trimmed, fenceChar, fenceLen);
        if closes {
          inFence := false;
        }
        out := out + [line];
      }
    }
    assert out == RemovedLines(ln, lines, tag);
    text := Join(out);
  }

  // ---------------------------------------------------------------- round trip of one line

  /** The text around a tag that the pattern matches, as it stands in a line. */
  predicate Context(ln: set<char>, lead: string, sep: string, rest: string, atStart: bool) {
    && (if lead == [] then atStart else |lead| == 1 && LeadChar(ln, lead[0]))
    && (if sep == [] then rest == [] else |sep| == 1 && !TagChar(ln, sep[0]))
  }

  function InContext(lead: string, tag: string, sep: string, rest: string): string {
    lead + "#" + tag + sep + rest
  }

  lemma TagAtInContext(ln: set<char>, tag: string, sep: string, rest: string)
    requires if sep == [] then rest == [] else |sep| == 1 && !TagChar(ln, sep[0])
    ensures TagAt(ln, InContext([], tag, sep, rest), tag) == Some(|sep|)
  {
    var s := InContext([], tag, sep, rest);
    assert s[..1 + |tag|] == "#" + tag;
  }

  /** No tag begins at the '#' before another '#'. */
  lemma NoTagBeforeHash(ln: set<char>, s: string, tag: string)
    requires Alphabet(ln) && IsTag(ln, tag)
    requires |s| >= 2 && s[1] == '#'
    ensures TagAt(ln, s, tag).None?
  {
    assert ("#" + tag)[1] == tag[0] && TagChar(ln, tag[0]);
  }

  lemma MatchInContext(ln: set<char>, lead: string, tag: string, sep: string, rest: string, atStart: bool)
    requires Alphabet(ln) && IsTag(ln, tag) && Context(ln, lead, sep, rest, atStart)
    ensures MatchAt(ln, InContext(lead, tag, sep, rest), atStart, tag) == Some(Hit(|lead|, |sep|))
  {
    var s := InContext(lead, tag, sep, rest);
    TagAtInContext(ln, tag, sep, rest);
    if lead == [] {
      assert s == InContext([], tag, sep, rest);
    } else {
      assert s[1..] == InContext([], tag, sep, rest);
      NoTagBeforeHash(ln, s, tag);
    }
  }

  /** The callback's own match of the matched text finds the same lead and separator. */
  lemma RenamedMatchKeepsContext(ln: set<char>, lead: string, oldTag: string, newTag: string, sep: string,
                                 rest: string, atStart: bool)
    requires Alphabet(ln) && IsTag(ln, oldTag) && Context(ln, lead, sep, rest, atStart)
    ensures RenamedMatch(ln, InContext(lead, oldTag, sep, []), oldTag, newTag) == InContext(lead, newTag, sep, [])
  {
    var text := InContext(lead, oldTag, sep, []);
    MatchInContext(ln, lead, oldTag, sep, [], true);
    assert text[..|lead|] == lead;
    assert text[|lead| + 1 + |oldTag|..] == sep;
  }

  lemma RenameInContext(ln: set<char>, lead: string, oldTag: string, newTag: string, sep: string,
                        rest: string, atStart: bool)
    requires Alphabet(ln) && IsTag(ln, oldTag) && Context(ln, lead, sep, rest, atStart)
    ensures var after := Rename(ln, rest, false, oldTag, newTag);
            Rename(ln, InContext(lead, oldTag, sep, rest), atStart, oldTag, newTag)
            == Edit(InContext(lead, newTag, sep, after.text), after.count + 1)
  {
    var s := InContext(lead, oldTag, sep, rest);
    MatchInContext(ln, lead, oldTag, sep, rest, atStart);
    RenamedMatchKeepsContext(ln, lead, oldTag, newTag, sep, rest, atStart);
    var n := HitLength(Hit(|lead|, |sep|), oldTag);
    assert s[..n] == InContext(lead, oldTag, sep, []) && s[n..] == rest;
    var after := Rename(ln, rest, false, oldTag, newTag);
    assert InContext(lead, newTag, sep, []) + after.text == InContext(lead, newTag, sep, after.text);
  }

  lemma FourParts(s: string, a: nat, b: nat, c: nat)
    requires a <= b <= c <= |s|
    ensures s == s[..a] + s[a..b] + s[b..c] + s[c..]
  {
  }

  lemma ContextOfMatch(ln: set<char>, s: string, atStart: bool, tag: string)
    returns (lead: string, sep: string, rest: string)
    requires MatchAt(ln, s, atStart, tag).Some?
    ensures Context(ln, lead, sep, rest, atStart) && s == InContext(lead, tag, sep, rest)
  {
    MatchFits(ln, s, atStart, tag);
    var hit := MatchAt(ln, s, atStart, tag).value;
    var k := hit.lead + 1 + |tag|;
    lead, sep, rest := s[..hit.lead], s[k..k + hit.sep], s[k + hit.sep..];
    FourParts(s, hit.lead, k, k + hit.sep);
  }

  /** How many tag characters a text starts with. */
  function TagRun(ln: set<char>, s: string): (run: string)
    ensures run <= s && forall k | 0 <= k < |run| :: TagChar(ln, run[k])
    ensures |run| < |s| ==> !TagChar(ln, s[|run|])
  {
    if s != [] && TagChar(ln, s[0]) then [s[0]] + TagRun(ln, s[1..]) else []
  }

  /** Away from line start, renaming does not touch the tag characters the text begins with. */
  lemma {:induction false} RenameKeepsTagRun(ln: set<char>, s: string, oldTag: string, newTag: string)
    requires Alphabet(ln) && IsTag(ln, oldTag)
    ensures TagRun(ln, Rename(ln, s, false, oldTag, newTag).text) == TagRun(ln, s)
    decreases |s|
  {
    var t := Rename(ln, s, false, oldTag, newTag).text;
    if MatchAt(ln, s, false, oldTag).Some? {
      var lead, sep, rest := ContextOfMatch(ln, s, false, oldTag);
      RenameInContext(ln, lead, oldTag, newTag, sep, rest, false);
      assert s[0] == t[0] == lead[0] && s[1] == t[1] == '#';
      TagRunBeforeHash(ln, s);
      TagRunBeforeHash(ln, t);
    } else if s != [] {
      RenameKeepsTagRun(ln, s[1..], oldTag, newTag);
      assert t[1..] == Rename(ln, s[1..], false, oldTag, newTag).text;
    }
  }

  lemma {:induction false} TagRunCovers(ln: set<char>, tag: string, s: string)
    requires tag <= s && forall k | 0 <= k < |tag| :: TagChar(ln, tag[k])
    ensures tag <= TagRun(ln, s)
  {
    if tag != [] {
      TagRunCovers(ln, tag[1..], s[1..]);
      assert tag == [s[0]] + tag[1..];
    }
  }

  lemma TagRunBeforeHash(ln: set<char>, s: string)
    requires Alphabet(ln) && |s| >= 2 && s[1] == '#'
    ensures TagRun(ln, s) == if TagChar(ln, s[0]) then [s[0]] else []
  {
    assert s[1..][0] == '#';
    assert TagRun(ln, s[1..]) == [];
  }

  /** A "#new" that begins at an unrenamed '#' was there before. */
  lemma NewTagWasThere(ln: set<char>, t: string, oldTag: string, newTag: string)
    requires Alphabet(ln) && IsTag(ln, oldTag) && IsTag(ln, newTag)
    requires TagAt(ln, ['#'] + Rename(ln, t, false, oldTag, newTag).text, newTag).Some?
    ensures newTag <= t
  {
    var r := Rename(ln, t, false, oldTag, newTag).text;
    RenameKeepsTagRun(ln, t, oldTag, newTag);
    assert newTag <= r by {
      assert r == (['#'] + r)[1..];
      assert ("#" + newTag)[1..] == newTag;
    }
    var run := TagRun(ln, r);
    TagRunCovers(ln, newTag, r);
    assert newTag <= run;
  }

  lemma UnrenamedStaysUnmatched(ln: set<char>, s: string, atStart: bool, oldTag: string, newTag: string)
    requires Alphabet(ln) && IsTag(ln, oldTag) && IsTag(ln, newTag)
    requires s != [] && MatchAt(ln, s, atStart, oldTag).None?
    requires !Contains(s, "#" + newTag)
    ensures MatchAt(ln, [s[0]] + Rename(ln, s[1..], false, oldTag, newTag).text, atStart, newTag).None?
  {
    var r := Rename(ln, s[1..], false, oldTag, newTag).text;
    var text := [s[0]] + r;
    assert text[1..] == r;
    if TagAt(ln, text, newTag).Some? {
      assert text == ['#'] + r;
      NewTagWasThere(ln, s[1..], oldTag, newTag);
    } else if TagAt(ln, r, newTag).Some? {
      assert r[0] == '#';
      if MatchAt(ln, s[1..], false, oldTag).Some? {
        var lead, sep, rest := ContextOfMatch(ln, s[1..], false, oldTag);
        RenameInContext(ln, lead, oldTag, newTag, sep, rest, false);
        NoTagBeforeHash(ln, r, newTag);
      } else {
        assert s[1..] != [] && r == [s[1]] + Rename(ln, s[1..][1..], false, oldTag, newTag).text;
        NewTagWasThere(ln, s[1..][1..], oldTag, newTag);
      }
    }
  }

  /** Renaming there and back gives the line again, with the same number of matches both ways. */
  lemma {:induction false} RenameLineRoundTrip(ln: set<char>, s: string, atStart: bool, oldTag: string,
                                               newTag: string)
    requires Alphabet(ln) && IsTag(ln, oldTag) && IsTag(ln, newTag)
    requires !Contains(s, "#" + newTag)
    ensures var there := Rename(ln, s, atStart, oldTag, newTag);
            Rename(ln, there.text, atStart, newTag, oldTag) == Edit(s, there.count)
    decreases |s|
  {
    if MatchAt(ln, s, atStart, oldTag).Some? {
      var lead, sep, rest := ContextOfMatch(ln, s, atStart, oldTag);
      assert rest == s[|s| - |rest|..];
      if Contains(rest, "#" + newTag) {
        ContainsInTail(s, |s| - |rest|, "#" + newTag);
      }
      RenameLineRoundTrip(ln, rest, false, oldTag, newTag);
      RenameInContext(ln, lead, oldTag, newTag, sep, rest, atStart);
      RenameInContext(ln, lead, newTag, oldTag, sep, Rename(ln, rest, false, oldTag, newTag).text, atStart);
    } else if s != [] {
      RenameLineRoundTrip(ln, s[1..], false, oldTag, newTag);
      UnrenamedStaysUnmatched(ln, s, atStart, oldTag, newTag);
      var r := Rename(ln, s[1..], false, oldTag, newTag).text;
      assert ([s[0]] + r)[1..] == r;
    }
  }

  // ---------------------------------------------------------------- whole bodies

  /** The text up to the first '#'. */
  function BeforeHash(s: string): (p: string)
    ensures p <= s && '#' !in p
    ensures |p| < |s| ==> s[|p|] == '#'
  {
    if s != [] && s[0] != '#' then [s[0]] + BeforeHash(s[1..]) else []
  }

  /** What replaces a match keeps at most one character before its '#'. */
  lemma RenamedMatchBeforeHash(ln: set<char>, text: string, oldTag: string, newTag: string, rest: string)
    ensures BeforeHash(RenamedMatch(ln, text, oldTag, newTag) + rest) <= text
  {
    MatchFits(ln, text, true, oldTag);
    var r := RenamedMatch(ln, text, oldTag, newTag) + rest;
    var m := MatchAt(ln, text, true, oldTag);
    if m.Some? && m.value.lead == 1 {
      assert r[0] == text[0] && r[1..][0] == '#';
    } else {
      assert r[0] == '#';
    }
  }

  /** Renaming adds nothing in front of the first '#', so no fence opener, whatever the tags are. */
  lemma {:induction false} RenameKeepsBeginning(ln: set<char>, s: string, atStart: bool, oldTag: string,
                                                newTag: string)
    ensures BeforeHash(Rename(ln, s, atStart, oldTag, newTag).text) <= s
    decreases |s|
  {
    var m := MatchAt(ln, s, atStart, oldTag);
    if m.Some? {
      MatchFits(ln, s, atStart, oldTag);
      var n := HitLength(m.value, oldTag);
      RenamedMatchBeforeHash(ln, s[..n], oldTag, newTag, Rename(ln, s[n..], false, oldTag, newTag).text);
    } else if s != [] {
      RenameKeepsBeginning(ln, s[1..], false, oldTag, newTag);
      var r := Rename(ln, s[1..], false, oldTag, newTag).text;
      assert ([s[0]] + r)[1..] == r;
    }
  }

  lemma RenameMakesNoOpener(ln: set<char>, s: string, oldTag: string, newTag: string)
    ensures LooksLikeOpener(Rename(ln, s, true, oldTag, newTag).text) ==> LooksLikeOpener(s)
  {
    var t := Rename(ln, s, true, oldTag, newTag).text;
    RenameKeepsBeginning(ln, s, true, oldTag, newTag);
    assert LooksLikeOpener(t) ==> |BeforeHash(t)| >= 3;
  }

  lemma RenamedLinesKeepFences(ln: set<char>, lines: seq<string>, oldTag: string, newTag: string)
    ensures forall i | 0 <= i < |lines| ::
              Fenced(RenamedLines(ln, lines, oldTag, newTag), i) == Fenced(lines, i)
  {
    hide Opener, Closes, TrimCR, Rename;
    var after := RenamedLines(ln, lines, oldTag, newTag);
    forall k | 0 <= k < |lines|
      ensures if Fenced(lines, k) then after[k] == lines[k] else !LooksLikeOpener(after[k])
    {
      assert after[k] == RenamedLine(ln, lines, k, oldTag, newTag).text;
      OpenerByThreeCharacters(lines[k]);
      if !Fenced(lines, k) {
        RenameMakesNoOpener(ln, lines[k], oldTag, newTag);
      }
    }
    EditKeepsFences(lines, after);
  }

  lemma {:induction false} RenameKeepsNewlineFree(ln: set<char>, s: string, atStart: bool, oldTag: string,
                                                  newTag: string)
    requires NewlineFree(newTag) && NewlineFree(s)
    ensures NewlineFree(Rename(ln, s, atStart, oldTag, newTag).text)
    decreases |s|
  {
    var m := MatchAt(ln, s, atStart, oldTag);
    if m.Some? {
      MatchFits(ln, s, atStart, oldTag);
      var n := HitLength(m.value, oldTag);
      MatchFits(ln, s[..n], true, oldTag);
      assert NewlineFree(s[..n]) && NewlineFree(s[n..]);
      RenameKeepsNewlineFree(ln, s[n..], false, oldTag, newTag);
    } else if s != [] {
      RenameKeepsNewlineFree(ln, s[1..], false, oldTag, newTag);
    }
  }

  /**
   The lines of a renamed body are the lines of the body, renamed: none is gained or lost, fenced ones
   are untouched and every line keeps its fence status.
   */
  lemma RenamedBodyKeepsFences(ln: set<char>, body: string, oldTag: string, newTag: string)
    requires NewlineFree(newTag)
    ensures var lines, lines' := Split(body), Split(RenamedBody(ln, body, oldTag, newTag).text);
            && lines' == RenamedLines(ln, lines, oldTag, newTag)
            && forall i | 0 <= i < |lines| ::
                 && Fenced(lines', i) == Fenced(lines, i)
                 && (Fenced(lines, i) ==> lines'[i] == lines[i])
  {
    var lines := Split(body);
    var after := RenamedLines(ln, lines, oldTag, newTag);
    forall i | 0 <= i < |lines| ensures NewlineFree(after[i]) {
      assert after[i] == RenamedLine(ln, lines, i, oldTag, newTag).text;
      RenameKeepsNewlineFree(ln, lines[i], true, oldTag, newTag);
    }
    SplitOfJoin(after, '\n');
    RenamedLinesKeepFences(ln, lines, oldTag, newTag);
  }

  lemma {:induction false} SameCountBack(ln: set<char>, lines: seq<string>, n: nat, oldTag: string, newTag: string)
    requires n <= |lines|
    requires forall i | 0 <= i < |lines| ::
               RenamedLine(ln, RenamedLines(ln, lines, oldTag, newTag), i, newTag, oldTag).count
               == RenamedLine(ln, lines, i, oldTag, newTag).count
    ensures RenameCount(ln, RenamedLines(ln, lines, oldTag, newTag), n, newTag, oldTag)
            == RenameCount(ln, lines, n, oldTag, newTag)
  {
    hide RenamedLine;
    if n > 0 {
      SameCountBack(ln, lines, n - 1, oldTag, newTag);
    }
  }

  /**
   Renaming a tag and renaming it back restores the body exactly, and both passes report the same
   count, provided no unfenced line already mentions the new tag.
   */
  lemma RenameRoundTrip(ln: set<char>, body: string, oldTag: string, newTag: string)
    requires Alphabet(ln) && IsTag(ln, oldTag) && IsTag(ln, newTag)
    requires var lines := Split(body);
             forall i | 0 <= i < |lines| :: !Fenced(lines, i) ==> !Contains(lines[i], "#" + newTag)
    ensures var there := RenamedBody(ln, body, oldTag, newTag);
            RenamedBody(ln, there.text, newTag, oldTag) == Edit(body, there.count)
  {
    var lines := Split(body);
    var after := RenamedLines(ln, lines, oldTag, newTag);
    assert NewlineFree(newTag);
    RenamedBodyKeepsFences(ln, body, oldTag, newTag);
    forall i | 0 <= i < |lines|
      ensures RenamedLine(ln, after, i, newTag, oldTag)
              == Edit(lines[i], RenamedLine(ln, lines, i, oldTag, newTag).count)
    {
      assert after[i] == RenamedLine(ln, lines, i, oldTag, newTag).text;
      if !Fenced(lines, i) {
        RenameLineRoundTrip(ln, lines[i], true, oldTag, newTag);
      }
    }
    SameCountBack(ln, lines, |lines|, oldTag, newTag);
    assert RenamedLines(ln, after, newTag, oldTag) == lines;
    JoinOfSplit(body, '\n');
  }

  lemma NoMatchAfterSeparator(ln: set<char>)
    ensures Rename(ln, "#o", false, "o", "n") == Edit("#o", 0)
  {
    assert MatchAt(ln, "#o", false, "o").None?;
    assert "#o"[1..] == "o" && "o"[1..] == [];
    assert Rename(ln, "o", false, "o", "n") == Edit("o", 0);
  }

  /** Only the first of two tags that share a separator is replaced: the separator is consumed. */
  lemma SharedSeparator()
    ensures Rename({'o'}, "#o #o", true, "o", "n") == Edit("#n #o", 1)
  {
    hide Rename;
    var ln := {'o'};
    RenameInContext(ln, [], "o", "n", " ", "#o", true);
    assert InContext([], "o", " ", "#o") == "#o #o";
    NoMatchAfterSeparator(ln);
  }
}
