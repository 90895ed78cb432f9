/**
 What path normalisation means (internal/vault/vault.go:67-152, internal/vault/pathfilter.go:24-66): a cleaned
 path leads where the raw one leads, two paths are cleaned to one text exactly when they lead to one place, and
 the tests of every call told on the text.
 */
module PathLaws {
  import opened Wrappers
  import opened Lines
  import opened Paths

  // ---------------------------------------------------------------- where a path leads

  /** One step in a tree of directories, from a place given by the names on the way to it. The root is its own parent. */
  function Step(place: seq<string>, element: string): seq<string> {
    if element == "" || element == "." then place
    else if element == ".." then (if place == [] then [] else place[..|place| - 1])
    else place + [element]
  }

  function Walk(place: seq<string>, elements: seq<string>): seq<string> {
    if elements == [] then place
    else Step(Walk(place, elements[..|elements| - 1]), elements[|elements| - 1])
  }

  lemma WalkSnoc(place: seq<string>, elements: seq<string>, e: string)
    ensures Walk(place, elements + [e]) == Step(Walk(place, elements), e)
  {
    assert (elements + [e])[..|elements|] == elements;
  }

  lemma {:induction false} KeptLeadsThere(place: seq<string>, elements: seq<string>)
    ensures Walk(place, Kept(false, elements)) == Walk(place, elements)
  {
    if elements != [] {
      var n := |elements| - 1;
      var kept, e := Kept(false, elements[..n]), elements[n];
      KeptLeadsThere(place, elements[..n]);
      WalkSnoc(place, kept, e);
      if kept != [] {
        assert kept == kept[..|kept| - 1] + [kept[|kept| - 1]];
        LastIsName(elements[..n]);
      }
    }
  }

  /** The last kept element is a step up or a name. */
  lemma {:induction false} LastIsName(elements: seq<string>)
    ensures forall k | 0 <= k < |Kept(false, elements)| :: !Stays(Kept(false, elements)[k])
  {
    if elements != [] {
      LastIsName(elements[..|elements| - 1]);
    }
  }

  /** From every place the cleaned path leads where the raw one leads. */
  lemma CleanLeadsThere(path: string, place: seq<string>)
    requires Relative(path)
    ensures Walk(place, Elements(Clean(path))) == Walk(place, Elements(path))
  {
    hide Elements, Clean;
    CleanedRelative(path);
    KeptLeadsThere(place, Elements(path));
    var kept := Kept(false, Elements(path));
    if kept == [] {
      assert ["."][..0] == [];
      assert Walk(place, ["."]) == place;
    }
  }

  // ---------------------------------------------------------------- one text for one place

  function Ups(n: nat): seq<string> {
    seq(n, _ => "..")
  }

  lemma {:induction false} WalkUps(place: seq<string>, n: nat)
    requires n <= |place|
    ensures Walk(place, Ups(n)) == place[..|place| - n]
  {
    if n > 0 {
      assert Ups(n)[..n - 1] == Ups(n - 1);
      WalkUps(place, n - 1);
    } else {
      assert place[..|place|] == place;
    }
  }

  lemma {:induction false} WalkNames(place: seq<string>, elements: seq<string>, names: seq<string>)
    requires Names(names)
    ensures Walk(place, elements + names) == Walk(place, elements) + names
    decreases |names|
  {
    if names == [] {
      assert elements + names == elements;
    } else {
      var n := |names| - 1;
      assert elements + names == elements + names[..n] + [names[n]];
      WalkNames(place, elements, names[..n]);
      WalkSnoc(place, elements + names[..n], names[n]);
    }
  }

  /** The kept elements as steps up and names. */
  lemma KeptParts(path: string) returns (ups: nat, names: seq<string>)
    requires Relative(path)
    ensures Kept(false, Elements(path)) == Ups(ups) + names && Names(names)
  {
    var kept := Kept(false, Elements(path));
    ups := KeptTracksWalk(Elements(path));
    names := kept[ups..];
    assert forall k | 0 <= k < ups :: kept[k] == "..";
    assert kept[..ups] == Ups(ups);
    assert kept == kept[..ups] + kept[ups..];
  }

  /** Far enough below the root, a place that is no name tells the steps up from the names. */
  lemma WalkTells(ups: nat, names: seq<string>, ups': nat, names': seq<string>)
    requires Names(names) && Names(names')
    requires var place := seq(ups + ups', _ => "/"); Walk(place, Ups(ups) + names) == Walk(place, Ups(ups') + names')
    ensures ups == ups' && names == names'
  {
    var place := seq(ups + ups', _ => "/");
    WalkNames(place, Ups(ups), names);
    WalkNames(place, Ups(ups'), names');
    WalkUps(place, ups);
    WalkUps(place, ups');
    var a := place[..ups'] + names;
    assert a == place[..ups] + names';
    SlashesInFront(place[..ups'], names);
    SlashesInFront(place[..ups], names');
    SlashesTell(a, ups', ups);
    assert a[ups..] == names && a[ups'..] == names';
  }

  lemma SlashesInFront(place: seq<string>, names: seq<string>)
    requires (forall k | 0 <= k < |place| :: place[k] == "/") && Names(names)
    ensures forall k | 0 <= k < |place + names| :: (place + names)[k] == "/" <==> k < |place|
  {
    assert !IsName("/") by {
      assert "/"[0] == '/';
    }
  }

  lemma SlashesTell(a: seq<string>, m: nat, m': nat)
    requires m <= |a| && m' <= |a|
    requires forall k | 0 <= k < |a| :: a[k] == "/" <==> k < m
    requires forall k | 0 <= k < |a| :: a[k] == "/" <==> k < m'
    ensures m == m'
  {
    var k := if m < m' then m else m';
    if k < |a| {
      assert a[k] == "/" <==> k < m;
    }
  }

  ghost predicate SamePlace(path: string, path': string) {
    forall place :: Walk(place, Elements(path)) == Walk(place, Elements(path'))
  }

  /** Two relative paths are cleaned to the same text, and so name the same note, exactly when they lead to one place. */
  lemma CleanedAlikeIff(path: string, path': string)
    requires Relative(path) && Relative(path')
    ensures Clean(path) == Clean(path') <==> SamePlace(path, path')
  {
    hide Walk, Elements, Clean;
    if Clean(path) == Clean(path') {
      forall place ensures Walk(place, Elements(path)) == Walk(place, Elements(path')) {
        CleanLeadsThere(path, place);
        CleanLeadsThere(path', place);
      }
    }
    if SamePlace(path, path') {
      var ups, names := KeptParts(path);
      var ups', names' := KeptParts(path');
      var place := seq(ups + ups', _ => "/");
      KeptLeadsThere(place, Elements(path));
      KeptLeadsThere(place, Elements(path'));
      WalkTells(ups, names, ups', names');
      CleanedRelative(path);
      CleanedRelative(path');
    }
  }

  /** In particular cleaning a cleaned path changes nothing. */
  lemma CleanTwice(path: string)
    requires Relative(path)
    ensures Clean(Clean(path)) == Clean(path)
  {
    hide Walk, Elements, Clean;
    CleanedRelative(path);
    forall place ensures Walk(place, Elements(Clean(path))) == Walk(place, Elements(path)) {
      CleanLeadsThere(path, place);
    }
    CleanedAlikeIff(Clean(path), path);
  }

  // ---------------------------------------------------------------- elements in a text

  /** The text between two slashes, or between one and an end. */
  ghost predicate StandsIn(path: string, e: string, i: nat) {
    && i + |e| <= |path| && path[i..i + |e|] == e && '/' !in e
    && (i == 0 || path[i - 1] == '/')
    && (i + |e| == |path| || path[i + |e|] == '/')
  }

  lemma {:induction false} FirstElement(path: string)
    ensures '/' !in Elements(path)[0]
    ensures Elements(path)[0] <= path
    ensures var n := |Elements(path)[0]|;
            if |Elements(path)| == 1 then n == |path|
            else n < |path| && path[n] == '/' && Elements(path)[1..] == Elements(path[n + 1..])
  {
    if path != [] {
      if path[0] != '/' {
        FirstElement(path[1..]);
        var rest := Elements(path[1..]);
        var n := |rest[0]|;
        assert |rest| > 1 ==> path[1..][n + 1..] == path[n + 2..];
      }
    }
  }

  lemma StandsBehind(path: string, n: nat, e: string, i: nat)
    requires 0 < n <= |path| && path[n - 1] == '/'
    ensures StandsIn(path[n..], e, i) == StandsIn(path, e, n + i)
  {
    if i + |e| <= |path| - n {
      assert path[n..][i..i + |e|] == path[n + i..n + i + |e|];
    }
  }

  lemma {:induction false} ElementsStand(path: string, e: string)
    ensures e in Elements(path) <==> exists i: nat :: StandsIn(path, e, i)
    decreases |path|
  {
    hide SplitAt;
    FirstElement(path);
    var elements := Elements(path);
    var n := |elements[0]|;
    assert elements == [elements[0]] + elements[1..];
    assert StandsIn(path, elements[0], 0);
    if |elements| > 1 {
      ElementsStand(path[n + 1..], e);
      var rest := path[n + 1..];
      if i: nat :| StandsIn(rest, e, i) {
        StandsBehind(path, n + 1, e, i);
      }
    }
    if i: nat :| StandsIn(path, e, i) {
      if i <= n {
        StandsFirst(path, elements[0], e, i);
      } else {
        StandsBehind(path, n + 1, e, i - n - 1);
      }
    }
  }

  lemma StandsFirst(path: string, first: string, e: string, i: nat)
    requires first <= path && '/' !in first && (|first| == |path| || path[|first|] == '/')
    requires StandsIn(path, e, i) && i <= |first|
    ensures e == first
  {
    assert forall k | 0 <= k < |first| :: path[k] == first[k] && first[k] in first;
    assert forall k | i <= k < i + |e| :: path[k] == path[i..i + |e|][k - i] && e[k - i] in e;
    assert path[..|first|] == first;
  }

  /** A path is ignored exactly when an ignored name stands in it between slashes. */
  lemma IgnoredIff(ignored: set<string>, path: string)
    ensures IsIgnored(ignored, path)
            <==> exists name, i: nat :: name != [] && name in ignored && StandsIn(path, name, i)
  {
    hide Elements, StandsIn;
    if IsIgnored(ignored, path) {
      var k :| 0 <= k < |Elements(path)| && Elements(path)[k] != "" && Elements(path)[k] in ignored;
      ElementsStand(path, Elements(path)[k]);
    }
    if name, i: nat :| name != [] && name in ignored && StandsIn(path, name, i) {
      ElementsStand(path, name);
      var k :| 0 <= k < |Elements(path)| && Elements(path)[k] == name;
    }
  }

  /** The server's own directory, and everything in it. */
  lemma InternalIff(path: string)
    ensures IsInternalState(path) <==> path == ".obsidian-mcp" || ".obsidian-mcp/" <= path
  {
    hide SplitAt;
    FirstElement(path);
    var dir, first := ".obsidian-mcp", Elements(path)[0];
    assert forall k | 0 <= k < |dir| :: dir[k] != '/';
    assert |first| < |path| ==> path[..|first| + 1] == first + "/";
    if path == dir || dir + "/" <= path {
      assert StandsIn(path, dir, 0);
      StandsFirst(path, first, dir, 0);
    }
  }

  // ---------------------------------------------------------------- names unsafe on Windows

  predicate SameLetter(c: char, upper: char) {
    c == upper || ('a' <= c <= 'z' && 'A' <= upper <= 'Z' && c - 'a' == upper - 'A')
  }

  /** The element is a device name in any case, with any extension or none. */
  predicate NamesDevice(e: string, device: string) {
    && |device| <= |e|
    && (|e| == |device| || e[|device|] == '.')
    && forall k | 0 <= k < |device| :: SameLetter(e[k], device[k])
  }

  lemma DeviceLetters()
    ensures forall d | d in RESERVED_NAMES :: forall k | 0 <= k < |d| :: 'A' <= d[k] <= 'Z' || '1' <= d[k] <= '9'
  {
  }

  lemma {:induction false} UpToDotIs(e: string, n: nat)
    requires n <= |e| && (n == |e| || e[n] == '.') && forall k | 0 <= k < n :: e[k] != '.'
    ensures UpToDot(e) == e[..n]
  {
    if n > 0 {
      UpToDotIs(e[1..], n - 1);
      assert e[..n] == [e[0]] + e[1..][..n - 1];
    }
  }

  lemma {:induction false} UpToDotEnds(e: string)
    ensures var n := |UpToDot(e)|; n <= |e| && UpToDot(e) == e[..n] && (n == |e| || e[n] == '.')
  {
    if e != [] && e[0] != '.' {
      UpToDotEnds(e[1..]);
      var n := |UpToDot(e[1..])|;
      assert e[..n + 1] == [e[0]] + e[1..][..n];
    }
  }

  lemma DeviceIff(e: string)
    ensures ToUpper(UpToDot(e)) in RESERVED_NAMES <==> exists d | d in RESERVED_NAMES :: NamesDevice(e, d)
  {
    hide RESERVED_NAMES, UpToDot;
    DeviceLetters();
    UpToDotEnds(e);
    var name := UpToDot(e);
    if ToUpper(name) in RESERVED_NAMES {
      var d := ToUpper(name);
      assert forall k | 0 <= k < |d| :: SameLetter(name[k], d[k]);
      assert NamesDevice(e, d);
    }
    if d :| d in RESERVED_NAMES && NamesDevice(e, d) {
      assert forall k | 0 <= k < |d| :: e[k] != '.' by {
        assert forall k | 0 <= k < |d| :: SameLetter(e[k], d[k]);
      }
      UpToDotIs(e, |d|);
      assert ToUpper(name) == d;
    }
  }

  /** An element that Windows would read otherwise. */
  predicate Misread(e: string) {
    && e != "" && e != "."
    && (':' in e || e[|e| - 1] == '.' || e[|e| - 1] == ' ' || exists d | d in RESERVED_NAMES :: NamesDevice(e, d))
  }

  lemma WindowsSafeIff(path: string)
    ensures WindowsSafe(path) <==> forall e | e in Elements(path) :: !Misread(e)
  {
    hide Elements, RESERVED_NAMES, ToUpper, UpToDot, NamesDevice;
    forall e ensures WindowsSafeElement(e) <==> !Misread(e) {
      DeviceIff(e);
    }
    hide WindowsSafeElement;
    if WindowsSafe(path) {
      forall e | e in Elements(path) ensures !Misread(e) {
        var k :| 0 <= k < |Elements(path)| && Elements(path)[k] == e;
      }
    }
  }

  // ---------------------------------------------------------------- what every call gets

  /**
   The answer for every path under a named root: the cleaned path and the root joined with it, or which error. A
   path that climbs, is absolute, or that Windows would misread is a traversal; of the others, one into the server's
   own directory or with an ignored name between its slashes is restricted.
   */
  lemma SanitizedIs(rootNames: seq<string>, ignored: set<string>, path: string)
    requires rootNames != [] && Names(rootNames)
    ensures var root, cleaned := AbsolutePath(rootNames), Clean(path);
            SanitizePath(root, ignored, path)
            == if '\0' in path || !Relative(path) || ClimbsAbove(Elements(path))
                  || (exists e | e in Elements(cleaned) :: Misread(e)) then Err(Traversal)
               else if cleaned == ".obsidian-mcp" || ".obsidian-mcp/" <= cleaned
                       || (exists name, i: nat :: name != [] && name in ignored && StandsIn(path, name, i)) then
                 Err(Restricted)
               else Ok((cleaned, if cleaned == "." then root else root + "/" + cleaned))
  {
    hide SplitAt, Kept, ClimbsAbove, WindowsSafe, IsInternalState, IsIgnored, IsUnderRoot, AbsolutePath, Misread, StandsIn;
    WindowsSafeIff(Clean(path));
    InternalIff(Clean(path));
    IgnoredIff(ignored, path);
    if Relative(path) {
      CleanedRelative(path);
      TraversalIffClimbs(path);
      if !LooksLikeTraversal(Clean(path)) {
        JoinedIsUnderRoot(rootNames, path);
      }
    } else {
      RootedStaysRooted(path);
    }
  }
}
