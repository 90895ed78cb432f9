/**
 Lines that show what RemoveTag can leave behind (internal/vault/tags.go:391-418): a second tag that
 shared its separator, a tag put together across a kept hyphen, and a missed tag that stops being one
 because the '#' in front of the removed tag goes too, and a fence opener.
 */
module RemovalExamples {
  import opened Wrappers
  import opened Fences
  import opened TagEdits
  import opened TagCoverage
  import opened TagRemoval

  lemma Copies(ln: set<char>, c: char, t: string, tag: string)
    requires !LeadsTag(ln, [c] + t, tag)
    ensures Remove(ln, [c] + t, false, tag) == [c] + Remove(ln, t, false, tag)
  {
    RemoveElsewhere(ln, [c] + t, false, tag);
    assert ([c] + t)[1..] == t;
  }

  /** Without a '#' behind its first character a text leads no tag. */
  lemma NoHashNoLead(ln: set<char>, c: char, t: string, tag: string)
    requires t == [] || t[0] != '#'
    ensures !LeadsTag(ln, [c] + t, tag)
  {
    assert ([c] + t)[1..] == t && ("#" + tag)[0] == '#';
  }

  /** Text that is copied as it is. */
  lemma {:induction false} CopiesAll(ln: set<char>, t: string, tag: string)
    requires forall k | 1 <= k < |t| :: t[k] != '#'
    ensures Remove(ln, t, false, tag) == t
    decreases |t|
  {
    if t == [] {
      NothingIsWritten(ln, tag);
    } else {
      assert t == [t[0]] + t[1..];
      NoHashNoLead(ln, t[0], t[1..], tag);
      Copies(ln, t[0], t[1..], tag);
      CopiesAll(ln, t[1..], tag);
    }
  }

  /** Occurrences in a text that begins with the tag and has no other '#'. */
  lemma OneAtFront(ln: set<char>, tag: string)
    requires '#' !in ln && IsTag(ln, tag)
    ensures Occurrences(ln, "#" + tag, true, tag) == 1
  {
    var s := "#" + tag;
    assert s[0..] == s && s[1..] == tag && tag + [] == tag;
    assert TagAt(ln, s, tag) == Some(0);
    SkipRun(ln, tag, [], LeadChar(ln, '#'), tag);
  }

  lemma FirstOfTwo(ln: set<char>)
    requires ' ' !in ln
    ensures TagAt(ln, "#o #o", "o").Some? && RestBehind(ln, "#o #o", "o") == "#o"
  {
    assert "#" + "o" == "#o #o"[..2];
    assert TagAt(ln, "#o #o", "o") == Some(1);
  }

  /** "#o #o": the space goes with the first tag, the second is missed and stands there still. */
  lemma SharedSeparatorLeavesTag()
    ensures Remove({'o'}, "#o #o", true, "o") == "#o" && Occurrences({'o'}, "#o", true, "o") == 1
  {
    hide Remove, Occurrences, TagAt, RestBehind;
    var ln := {'o'};
    FirstOfTwo(ln);
    RemoveAtStart(ln, "#o #o", "o");
    CopiesAll(ln, "#o", "o");
    OneAtFront(ln, "o");
    assert "#" + "o" == "#o";
  }

  lemma NoTagWithoutHash(ln: set<char>, s: string, tag: string)
    requires s == [] || s[0] != '#'
    ensures TagAt(ln, s, tag).None?
  {
    assert ("#" + tag)[0] == '#';
  }

  /** "#a-#a-b b": the only occurrence is dropped, but its hyphen and the text around it make a new one. */
  lemma HyphenJoinLeavesTag()
    ensures Remove({'a', 'b'}, "#a-#a-b b", true, "a-b") == "#a-b"
    ensures !Crowded({'a', 'b'}, "#a-#a-b b", true, "a-b")
    ensures Occurrences({'a', 'b'}, "#a-b", true, "a-b") == 1
  {
    hide Remove, Crowded, Occurrences, LeadsTag, TagAt;
    var ln := {'a', 'b'};
    FrontIsCopied(ln);
    HyphenIsKept(ln);
    assert "#" + ("a" + "-b") == "#a-b";
    OneAtFront(ln, "a-b");
    assert "#" + "a-b" == "#a-b";
    HyphenJoinIsNotCrowded(ln);
  }

  lemma FrontIsCopied(ln: set<char>)
    requires ln == {'a', 'b'}
    ensures Remove(ln, "#a-#a-b b", true, "a-b") == "#" + ("a" + Remove(ln, "-#a-b b", false, "a-b"))
  {
    hide Remove, LeadsTag;
    var tag, s, s1, s2 := "a-b", "#a-#a-b b", "a-#a-b b", "-#a-b b";
    assert s[1..] == s1 && ['#'] + s1 == s && ['a'] + s2 == s1;
    assert ("#" + tag)[3] == 'b' && s[3] == '#';
    NoHashNoLead(ln, '#', s1, tag);
    RemoveElsewhere(ln, s, true, tag);
    NoHashNoLead(ln, 'a', s2, tag);
    Copies(ln, 'a', s2, tag);
  }

  lemma HyphenIsKept(ln: set<char>)
    requires ln == {'a', 'b'}
    ensures Remove(ln, "-#a-b b", false, "a-b") == "-b"
  {
    hide Remove;
    var tag, s2, s3 := "a-b", "-#a-b b", "#a-b b";
    assert s2[1..] == s3 && "#" + tag == "#a-b" == s3[..4];
    assert TagAt(ln, s3, tag) == Some(1);
    RemoveAtLead(ln, s2, false, tag);
    assert RestBehind(ln, s3, tag) == "b";
    CopiesAll(ln, "b", tag);
    assert ['-'] + "b" == "-b";
  }

  /** Nothing before the tag and nothing behind it occurs or is crowded. */
  lemma HyphenJoinIsNotCrowded(ln: set<char>)
    requires ln == {'a', 'b'}
    ensures !Crowded(ln, "#a-#a-b b", true, "a-b")
  {
    hide TagAt, Crowded, FollowedClosely;
    var tag, s, s3 := "a-b", "#a-#a-b b", "#a-b b";
    assert s[1..] == "a-" + s3 && s[0..] == s;
    NotAtFront(ln);
    CrowdedStep(ln, s, true, tag);
    SkipRun(ln, "a-", s3, LeadChar(ln, '#'), tag);
    NothingClose(ln);
    CrowdedStep(ln, s3, true, tag);
    assert s3[1..] == "a-b" + " b";
    SkipRun(ln, "a-b", " b", LeadChar(ln, '#'), tag);
    CrowdedStep(ln, " b", LeadChar(ln, 'b'), tag);
    assert " b"[0..] == " b" && " b"[1..] == "b" && "b"[0..] == "b" && "b"[1..] == "";
    NoTagWithoutHash(ln, " b", tag);
    NoTagWithoutHash(ln, "b", tag);
    CrowdedStep(ln, "b", LeadChar(ln, ' '), tag);
    CrowdedStep(ln, "", LeadChar(ln, 'b'), tag);
  }

  lemma CrowdedStep(ln: set<char>, s: string, atLead: bool, tag: string)
    ensures Crowded(ln, s, atLead, tag)
            <==> s != [] && ((Occurs(ln, s, atLead, tag, 0) && FollowedClosely(ln, s, atLead, tag))
                             || Crowded(ln, s[1..], LeadChar(ln, s[0]), tag))
  {
  }

  lemma NotAtFront(ln: set<char>)
    ensures TagAt(ln, "#a-#a-b b", "a-b").None?
  {
    assert ("#" + "a-b")[3] == 'b' && "#a-#a-b b"[3] == '#';
  }

  lemma NothingClose(ln: set<char>)
    ensures !FollowedClosely(ln, "#a-b b", true, "a-b")
  {
    hide TagAt;
    var s3 := "#a-b b";
    NoTagWithoutHash(ln, s3[4..], "a-b");
    NoTagWithoutHash(ln, s3[5..], "a-b");
  }

  /** "x##o #o": the second tag is missed, and is none any more behind the letter that now precedes it. */
  lemma LostLeadLeavesNoTag()
    ensures Crowded({'o', 'x'}, "x##o #o", true, "o")
    ensures Remove({'o', 'x'}, "x##o #o", true, "o") == "x#o"
    ensures !LeavesTag({'o', 'x'}, "x##o #o", true, true, "o")
  {
    hide Remove, Crowded, Occurrences, LeavesTag;
    var ln := {'o', 'x'};
    TwoAreClose(ln);
    HashesAreDropped(ln);
    NoneBehindLetter(ln);
    TagIsLeftIff(ln, "x##o #o", true, true, "o");
  }

  lemma TwoAreClose(ln: set<char>)
    requires ln == {'o', 'x'}
    ensures Crowded(ln, "x##o #o", true, "o")
  {
    hide Crowded;
    var s := "x##o #o";
    assert s[2..] == "#o #o" && s[5..] == "#o";
    assert TagAt(ln, "#o #o", "o") == Some(1) && TagAt(ln, "#o", "o") == Some(0);
    assert CloseAt(ln, s, true, "o", 2);
    CrowdedMeans(ln, s, true, "o");
  }

  lemma HashesAreDropped(ln: set<char>)
    requires ln == {'o', 'x'}
    ensures Remove(ln, "x##o #o", true, "o") == "x#o"
  {
    hide Remove, TagAt, RestBehind;
    var s, s1, s2 := "x##o #o", "##o #o", "#o #o";
    assert s[1..] == s1 && s1[1..] == s2 && s == ['x'] + s1;
    NoTagWithoutHash(ln, s, "o");
    assert !LeadsTag(ln, s, "o");
    RemoveElsewhere(ln, s, true, "o");
    FirstOfTwo(ln);
    RemoveAtLead(ln, s1, false, "o");
    CopiesAll(ln, "#o", "o");
    assert [] + Remove(ln, "#o", false, "o") == "#o";
  }

  lemma NoneBehindLetter(ln: set<char>)
    requires ln == {'o', 'x'}
    ensures Occurrences(ln, "x#o", true, "o") == 0
  {
    hide TagAt;
    NoTagWithoutHash(ln, "x#o", "o");
    NoTagWithoutHash(ln, "o", "o");
    assert "x#o"[0..] == "x#o" && "x#o"[1..] == "#o" && "#o"[0..] == "#o" && "#o"[1..] == "o";
    assert "o"[0..] == "o" && "o"[1..] == "";
    assert Occurrences(ln, "o", true, "o") == 0;
    assert Occurrences(ln, "#o", false, "o") == 0;
  }

  /** "#o ```": removal eats the separator after the tag, and what is left opens a fence. */
  lemma RemovalCanOpenFence()
    ensures !LooksLikeOpener("#o ```") && Remove({'o'}, "#o ```", true, "o") == "```"
    ensures LooksLikeOpener("```") && WritesOpener({'o'}, "#o ```", "o")
  {
    hide Remove, WritesOpener, TagAt, RestBehind;
    var ln := {'o'};
    TagBeforeTicks(ln);
    RemoveAtStart(ln, "#o ```", "o");
    CopiesAll(ln, "```", "o");
    WritesOpenerMeans(ln, "#o ```", "o");
  }

  lemma TagBeforeTicks(ln: set<char>)
    requires ' ' !in ln
    ensures TagAt(ln, "#o ```", "o").Some? && RestBehind(ln, "#o ```", "o") == "```"
  {
    assert "#" + "o" == "#o ```"[..2];
    assert TagAt(ln, "#o ```", "o") == Some(1);
  }
}
