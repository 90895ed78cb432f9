/**
 Lexical path checks (internal/vault/vault.go:67-108, internal/vault/pathfilter.go): a relative path is
 cleaned, and a handful of tests on the cleaned text decide whether it may be used at all.
 */
module Paths {
  import opened Wrappers
  import opened Lines

  datatype PathError = Traversal | Restricted

  const INTERNAL_STATE_DIR := ".obsidian-mcp"

  // ---------------------------------------------------------------- filepath.Clean and Join

  predicate Stays(element: string) {
    element == "" || element == "."
  }

  predicate GoesUp(element: string) {
    element == ".."
  }

  /** One element of a path, on the elements kept so far. */
  function Push(rooted: bool, kept: seq<string>, element: string): seq<string> {
    if Stays(element) then kept
    else if !GoesUp(element) then kept + [element]
    else if kept != [] && !GoesUp(kept[|kept| - 1]) then kept[..|kept| - 1]
    else if rooted then kept
    else kept + [element]
  }

  function Kept(rooted: bool, elements: seq<string>): seq<string> {
    if elements == [] then []
    else Push(rooted, Kept(rooted, elements[..|elements| - 1]), elements[|elements| - 1])
  }

  function Elements(path: string): seq<string> {
    SplitAt(path, '/')
  }

  function Clean(path: string): string {
    var rooted := path != [] && path[0] == '/';
    var text := (if rooted then "/" else "") + JoinWith(Kept(rooted, Elements(path)), '/');
    if text == [] then "." else text
  }

  // ---------------------------------------------------------------- the checks

  const RESERVED_NAMES: set<string> := {
    "CON", "PRN", "AUX", "NUL", "COM1", "COM2", "COM3", "COM4", "COM5", "COM6", "COM7", "COM8", "COM9",
    "LPT1", "LPT2", "LPT3", "LPT4", "LPT5", "LPT6", "LPT7", "LPT8", "LPT9"
  }

  function ToUpper(s: string): string {
    seq(|s|, i requires 0 <= i < |s| => if 'a' <= s[i] <= 'z' then s[i] - 'a' + 'A' else s[i])
  }

  function UpToDot(s: string): string {
    if s != [] && s[0] != '.' then [s[0]] + UpToDot(s[1..]) else []
  }

  /** A drive letter, a stream, a device name or a trailing dot or space. */
  predicate WindowsSafeElement(e: string) {
    || e == "" || e == "."
    || (':' !in e && ToUpper(UpToDot(e)) !in RESERVED_NAMES && e[|e| - 1] != '.' && e[|e| - 1] != ' ')
  }

  predicate WindowsSafe(cleaned: string) {
    forall i | 0 <= i < |Elements(cleaned)| :: WindowsSafeElement(Elements(cleaned)[i])
  }

  predicate IsUnderRoot(root: string, absPath: string) {
    absPath == root || root + "/" <= absPath
  }

  predicate IsInternalState(path: string) {
    Elements(path)[0] == INTERNAL_STATE_DIR
  }

  /** Some element of the path is one of the ignored names. */
  predicate IsIgnored(ignored: set<string>, path: string) {
    exists i :: 0 <= i < |Elements(path)| && Elements(path)[i] != "" && Elements(path)[i] in ignored
  }

  predicate LooksLikeTraversal(cleaned: string) {
    cleaned == ".." || "../" <= cleaned
  }

  /** The cleaned path and the absolute path it stands for. */
  function SanitizePath(root: string, ignored: set<string>, relativePath: string)
    : Result<(string, string), PathError>
  {
    if '\0' in relativePath then Err(Traversal)
    else
      var cleaned := Clean(relativePath);
      if cleaned[0] == '/' then Err(Traversal)
      else if LooksLikeTraversal(cleaned) then Err(Traversal)
      else if !WindowsSafe(cleaned) then Err(Traversal)
      else
        var absPath := Clean(root + "/" + cleaned);
        if !IsUnderRoot(root, absPath) then Err(Traversal)
        else if IsInternalState(cleaned) || IsIgnored(ignored, relativePath) then Err(Restricted)
        else Ok((cleaned, absPath))
  }

  // ---------------------------------------------------------------- what the kept elements are

  /** A name proper, which neither stays nor goes up. */
  predicate IsName(e: string) {
    !Stays(e) && !GoesUp(e) && '/' !in e
  }

  /** Up steps first, names behind them. */
  predicate UpThenNames(kept: seq<string>, ups: nat) {
    && ups <= |kept|
    && (forall k | 0 <= k < ups :: GoesUp(kept[k]))
    && (forall k | ups <= k < |kept| :: IsName(kept[k]))
  }

  /** How deep below the start a walk along the elements ends. */
  function Depth(elements: seq<string>): int {
    if elements == [] then 0
    else
      var e := elements[|elements| - 1];
      Depth(elements[..|elements| - 1]) + if Stays(e) then 0 else if GoesUp(e) then -1 else 1
  }

  predicate ClimbsAbove(elements: seq<string>) {
    exists k :: 0 <= k <= |elements| && Depth(elements[..k]) < 0
  }

  lemma {:induction false} ClimbsAboveSnoc(elements: seq<string>)
    requires elements != []
    ensures ClimbsAbove(elements) <==> ClimbsAbove(elements[..|elements| - 1]) || Depth(elements) < 0
  {
    hide Depth;
    var n := |elements| - 1;
    var before := elements[..n];
    assert elements[..n + 1] == elements;
    if ClimbsAbove(before) {
      var k :| 0 <= k <= |before| && Depth(before[..k]) < 0;
      assert before[..k] == elements[..k];
    }
    if ClimbsAbove(elements) {
      var k :| 0 <= k <= |elements| && Depth(elements[..k]) < 0;
      if k <= n {
        assert before[..k] == elements[..k];
      }
    }
  }

  /**
   The invariant of cleaning a relative path: the number of up steps at the front of the kept elements
   and their length together are the depth, and there are up steps exactly if the walk climbed.
   */
  lemma {:induction false} KeptTracksWalk(elements: seq<string>) returns (ups: nat)
    requires forall i | 0 <= i < |elements| :: '/' !in elements[i]
    ensures var kept := Kept(false, elements);
            && UpThenNames(kept, ups)
            && Depth(elements) == |kept| - 2 * ups
            && (ups > 0 <==> ClimbsAbove(elements))
  {
    hide GoesUp, Stays, ClimbsAbove;
    ups := 0;
    if elements == [] {
      NothingStaysAtStart();
    } else {
      var n := |elements| - 1;
      var e := elements[n];
      ups := KeptTracksWalk(elements[..n]);
      ClimbsAboveSnoc(elements);
      var kept := Kept(false, elements[..n]);
      if !Stays(e) && GoesUp(e) && (kept == [] || GoesUp(kept[|kept| - 1])) {
        assert ups == |kept|;
        ups := ups + 1;
      }
    }
  }

  lemma NothingStaysAtStart()
    ensures !ClimbsAbove([])
  {
    var nothing: seq<string> := [];
    assert nothing[..0] == nothing;
  }

  lemma {:induction false} KeptOccurs(rooted: bool, elements: seq<string>)
    ensures forall k | 0 <= k < |Kept(rooted, elements)| :: Kept(rooted, elements)[k] in elements
  {
    hide GoesUp, Stays;
    if elements != [] {
      var n := |elements| - 1;
      KeptOccurs(rooted, elements[..n]);
      assert forall x | x in elements[..n] :: x in elements;
      assert elements[n] in elements;
    }
  }

  // ---------------------------------------------------------------- the cleaned text

  predicate Relative(path: string) {
    path == [] || path[0] != '/'
  }

  predicate Names(elements: seq<string>) {
    forall k | 0 <= k < |elements| :: IsName(elements[k])
  }

  /** What a relative path is cleaned to, as elements and as text. */
  lemma CleanedRelative(path: string)
    requires Relative(path)
    ensures var kept := Kept(false, Elements(path));
            && Clean(path) == (if kept == [] then "." else JoinWith(kept, '/'))
            && Elements(Clean(path)) == (if kept == [] then ["."] else kept)
            && Clean(path) != [] && Clean(path)[0] != '/'
  {
    hide GoesUp, SplitAt;
    var elements := Elements(path);
    var kept := Kept(false, elements);
    var ups := KeptTracksWalk(elements);
    KeptOccurs(false, elements);
    if kept == [] {
      DotIsOneElement();
      assert "" + "" == "";
    } else {
      KeptIsNotEmpty(kept[0], elements);
      forall k | 0 <= k < |kept| ensures Without(kept[k], '/') {
        var i :| 0 <= i < |elements| && elements[i] == kept[k];
      }
      SplitOfJoin(kept, '/');
      assert JoinWith(kept, '/')[0] == kept[0][0];
      assert kept[0][0] in kept[0];
      assert "" + JoinWith(kept, '/') == JoinWith(kept, '/');
    }
  }

  lemma DotIsOneElement()
    ensures Elements(".") == ["."] && Elements("..") == [".."]
  {
    SplitOfPrefix(".", [], '/');
    SplitOfPrefix("..", [], '/');
    assert "." + [] == "." && ".." + [] == "..";
  }

  lemma {:induction false} KeptIsNotEmpty(e: string, elements: seq<string>)
    requires e in Kept(false, elements)
    ensures e != []
  {
    var n := |elements| - 1;
    if e in Kept(false, elements[..n]) {
      KeptIsNotEmpty(e, elements[..n]);
    }
  }

  lemma FirstElementGoesUp(path: string)
    ensures LooksLikeTraversal(path) <==> GoesUp(Elements(path)[0])
  {
    var elements := Elements(path);
    JoinOfSplit(path, '/');
    DotIsOneElement();
    if "../" <= path {
      assert path == ".." + ("/" + path[3..]);
      SplitOfPrefix("..", "/" + path[3..], '/');
      assert ("/" + path[3..])[0] == '/';
      assert SplitAt("/" + path[3..], '/')[0] == [];
    }
    if GoesUp(elements[0]) && |elements| > 1 {
      assert path == ".." + "/" + JoinWith(elements[1..], '/');
    }
  }

  /** The prefix test on the cleaned text finds exactly the paths that climb above their start. */
  lemma TraversalIffClimbs(path: string)
    requires Relative(path)
    ensures LooksLikeTraversal(Clean(path)) <==> ClimbsAbove(Elements(path))
    ensures !ClimbsAbove(Elements(path)) ==> Names(Kept(false, Elements(path)))
  {
    hide ClimbsAbove, SplitAt, Kept;
    CleanedRelative(path);
    FirstElementGoesUp(Clean(path));
    var kept := Kept(false, Elements(path));
    var ups := KeptTracksWalk(Elements(path));
    assert ups == 0 && kept != [] ==> IsName(kept[0]);
  }

  // ---------------------------------------------------------------- under the root

  function AbsolutePath(names: seq<string>): string {
    "/" + JoinWith(names, '/')
  }

  lemma {:induction false} KeptNames(names: seq<string>)
    requires Names(names)
    ensures Kept(true, [""] + names) == names
  {
    hide GoesUp;
    if names == [] {
      assert [""] + names == [""] && [""][..0] == [];
    } else {
      var n := |names| - 1;
      assert ([""] + names)[..n + 1] == [""] + names[..n];
      KeptNames(names[..n]);
    }
  }

  lemma KeptNamesAndDot(names: seq<string>)
    requires Names(names)
    ensures Kept(true, [""] + names + ["."]) == names
  {
    KeptNames(names);
    var elements := [""] + names + ["."];
    assert elements[..|elements| - 1] == [""] + names;
  }

  lemma AbsoluteElements(names: seq<string>)
    requires names != [] && forall k | 0 <= k < |names| :: '/' !in names[k]
    ensures Elements(AbsolutePath(names)) == [""] + names
    ensures AbsolutePath(names) == JoinWith([""] + names, '/')
  {
    var elements := [""] + names;
    JoinConcat([""], names, '/');
    forall k | 0 <= k < |elements| ensures Without(elements[k], '/') {
      assert k > 0 ==> elements[k] == names[k - 1];
    }
    SplitOfJoin(elements, '/');
  }

  /** An absolute path made of names is clean, and "." behind it is cleaned away. */
  lemma CleanedAbsolute(names: seq<string>)
    requires names != [] && Names(names)
    ensures Clean(AbsolutePath(names)) == AbsolutePath(names)
    ensures Clean(AbsolutePath(names) + "/" + ".") == AbsolutePath(names)
  {
    hide SplitAt, Kept, GoesUp, Stays;
    AbsoluteElements(names);
    KeptNames(names);
    var withDot := names + ["."];
    AbsoluteElements(withDot);
    KeptNamesAndDot(names);
    assert [""] + withDot == [""] + names + ["."];
    JoinConcat(names, ["."], '/');
    assert AbsolutePath(withDot) == AbsolutePath(names) + "/" + ".";
  }

  /**
   Under a clean root other than "/", every relative path that does not climb is joined to a location
   under the root, so the test of the joined path refuses nothing.
   */
  lemma JoinedIsUnderRoot(rootNames: seq<string>, path: string)
    requires rootNames != [] && Names(rootNames)
    requires Relative(path) && !LooksLikeTraversal(Clean(path))
    ensures var root := AbsolutePath(rootNames);
            var joined := Clean(root + "/" + Clean(path));
            && joined == (if Clean(path) == "." then root else root + "/" + Clean(path))
            && IsUnderRoot(root, joined)
  {
    hide SplitAt, Kept, Clean, ClimbsAbove, AbsolutePath, JoinWith, IsName, Elements, LooksLikeTraversal;
    CleanedRelative(path);
    TraversalIffClimbs(path);
    var kept := Kept(false, Elements(path));
    if kept == [] {
      CleanedAbsolute(rootNames);
    } else {
      CleanedAbsolute(rootNames + kept);
      AbsoluteConcat(rootNames, kept);
      NamedTextIsNotDot(kept);
    }
  }

  lemma AbsoluteConcat(a: seq<string>, b: seq<string>)
    requires a != [] && b != []
    ensures AbsolutePath(a + b) == AbsolutePath(a) + "/" + JoinWith(b, '/')
  {
    JoinConcat(a, b, '/');
  }

  lemma NamedTextIsNotDot(kept: seq<string>)
    requires kept != [] && Names(kept)
    ensures JoinWith(kept, '/') != "."
  {
    if |kept| > 1 {
      assert |kept[0]| > 0;
      assert |JoinWith(kept, '/')| > 1;
    }
  }

  /**
   Every element of the cleaned path occurs in the raw path, so nothing ignored appears by cleaning, but for
   the "." that stands for nothing.
   */
  lemma CleaningRevealsNothingIgnored(ignored: set<string>, path: string)
    requires Relative(path) && !IsIgnored(ignored, path)
    ensures IsIgnored(ignored, Clean(path)) <==> Clean(path) == "." && "." in ignored
  {
    hide SplitAt, Kept, Clean;
    CleanedRelative(path);
    DotIsOneElement();
    assert Clean(path) == "." ==> Elements(Clean(path))[0] == ".";
    var elements := Elements(path);
    KeptOccurs(false, elements);
    var kept := Kept(false, elements);
    if kept != [] {
      forall k | 0 <= k < |kept| ensures kept[k] != "" ==> kept[k] !in ignored {
        assert kept[k] in elements;
        var i :| 0 <= i < |elements| && elements[i] == kept[k];
      }
    }
  }

  /** A path is accepted exactly when it is relative, does not climb, and passes the name checks. */
  lemma AcceptedIff(rootNames: seq<string>, ignored: set<string>, path: string)
    requires rootNames != [] && Names(rootNames)
    ensures var cleaned := Clean(path);
            SanitizePath(AbsolutePath(rootNames), ignored, path).Ok?
            <==> && '\0' !in path && Relative(path) && !ClimbsAbove(Elements(path)) && WindowsSafe(cleaned)
                 && !IsInternalState(cleaned) && !IsIgnored(ignored, path)
  {
    hide SplitAt, Kept, ClimbsAbove, WindowsSafe, IsInternalState, IsIgnored, IsUnderRoot;
    if Relative(path) {
      CleanedRelative(path);
      TraversalIffClimbs(path);
      if !LooksLikeTraversal(Clean(path)) {
        JoinedIsUnderRoot(rootNames, path);
      }
    } else {
      RootedStaysRooted(path);
    }
  }

  lemma RootedStaysRooted(path: string)
    requires !Relative(path)
    ensures Clean(path)[0] == '/'
  {
  }

  // ---------------------------------------------------------------- the root "/"

  lemma {:induction false} EmptyElementInFront(elements: seq<string>)
    ensures Kept(true, [""] + elements) == Kept(true, elements)
  {
    if elements == [] {
      assert [""] + elements == [""] && [""][..0] == [];
    } else {
      var n := |elements| - 1;
      assert ([""] + elements)[..n + 1] == [""] + elements[..n];
      EmptyElementInFront(elements[..n]);
    }
  }

  /** A doubled leading slash is cleaned to one. */
  lemma CleanOfDoubled(path: string)
    requires path != [] && path[0] == '/'
    ensures Clean("/" + path) == Clean(path)
  {
    hide Kept;
    assert ("/" + path)[1..] == path;
    assert Elements("/" + path) == [""] + Elements(path);
    EmptyElementInFront(Elements(path));
  }

  lemma CleanOfSlashDot()
    ensures Clean("/.") == "/"
  {
    DotIsOneElement();
    assert "/."[1..] == ".";
    assert Elements("/.") == ["", "."] && ["", "."][..1] == [""] && [""][..0] == [];
    assert Kept(true, [""]) == [] && Kept(true, ["", "."]) == [];
  }

  /** Under the root "/" the joined path fails the test of the root, unless nothing is joined to it. */
  lemma SlashRootTest(path: string)
    requires Relative(path) && !LooksLikeTraversal(Clean(path))
    ensures IsUnderRoot("/", Clean("/" + "/" + Clean(path))) <==> Clean(path) == "."
  {
    hide SplitAt, Kept, Clean, ClimbsAbove, IsName, Elements, LooksLikeTraversal;
    CleanedRelative(path);
    TraversalIffClimbs(path);
    var kept := Kept(false, Elements(path));
    assert "/" + "/" + Clean(path) == "/" + ("/" + Clean(path));
    CleanOfDoubled("/" + Clean(path));
    if kept == [] {
      CleanOfSlashDot();
      assert "/" + "." == "/.";
    } else {
      CleanedAbsolute(kept);
      NamedTextIsNotDot(kept);
      var joined := "/" + Clean(path);
      assert joined[1] == Clean(path)[0] && ("/" + "/")[1] == '/';
    }
  }

  /** A vault whose root is "/" accepts no note: exactly the paths that clean to the root itself pass. */
  lemma SlashRootRefuses(ignored: set<string>, path: string)
    ensures SanitizePath("/", ignored, path).Ok?
            <==> '\0' !in path && Relative(path) && Clean(path) == "." && !IsIgnored(ignored, path)
  {
    hide SplitAt, Kept, Clean, IsIgnored, IsUnderRoot, Elements;
    if Relative(path) {
      CleanedRelative(path);
      if Clean(path) == "." {
        DotIsOneElement();
        assert WindowsSafe(".") && !IsInternalState(".");
      }
      if !LooksLikeTraversal(Clean(path)) {
        SlashRootTest(path);
      }
    } else {
      RootedStaysRooted(path);
    }
  }

  /** The case is real: the path "a/.." has no element "." until it is cleaned. */
  lemma DotIsRevealed()
    ensures !IsIgnored({"."}, "a/..") && Clean("a/..") == "." && IsIgnored({"."}, Clean("a/.."))
  {
    hide Kept, SplitAt;
    UpElements();
    UpIsDropped();
    DotIsOneElement();
    assert Elements(".")[0] == ".";
  }

  lemma UpElements()
    ensures Elements("a/..") == ["a", ".."]
  {
    hide SplitAt;
    var parts := ["a", ".."];
    assert parts[1..] == [".."] && JoinWith(parts, '/') == "a" + ['/'] + ".." == "a/..";
    SplitOfJoin(parts, '/');
  }

  lemma UpIsDropped()
    ensures Kept(false, ["a", ".."]) == []
  {
    assert ["a", ".."][..1] == ["a"] && ["a"][..0] == [];
    assert Kept(false, ["a"]) == ["a"];
  }
}
