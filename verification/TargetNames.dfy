/**
 The names a note goes by in links, told from the parts of its path (internal/vault/linkrewrite.go:36-107,
 225-228, internal/vault/pathfilter.go:87-94): directories, stem and extension. A new target keeps the style
 of the old one, always names the note at its new path, and is ambiguous exactly when two notes share a stem.
 */
module TargetNames {
  import opened Lines
  import opened FilePaths
  import opened Wikilinks
  import opened LinkRewrite

  // ---------------------------------------------------------------- the parts of a path

  /** A path of directories, each with its slash, and a file name: a stem, and an extension or none. */
  predicate NoteParts(dirs: string, stem: string, ext: string) {
    && (dirs != [] ==> dirs[|dirs| - 1] == '/')
    && '/' !in stem && '/' !in ext
    && stem + ext != []
    && (if ext == [] then '.' !in stem else ext[0] == '.' && '.' !in ext[1..])
  }

  /** Every path that does not end in a slash has such parts. */
  lemma PartsOfPath(path: string) returns (dirs: string, stem: string, ext: string)
    requires path != [] && path[|path| - 1] != '/'
    ensures NoteParts(dirs, stem, ext) && path == dirs + stem + ext
  {
    hide Ext, LastElement;
    var name := LastElement(path);
    SlashInFront(path);
    stem, ext := PartsOfName(name);
    dirs := path[..|path| - |name|];
    assert path == dirs + (stem + ext);
    Regroup(dirs, stem, ext);
  }

  lemma PartsOfName(name: string) returns (stem: string, ext: string)
    requires name != [] && '/' !in name
    ensures NoteParts([], stem, ext) && name == stem + ext
  {
    hide Ext;
    LastDot(name);
    ExtIsSuffix(name);
    ext := Ext(name);
    stem := name[..|name| - |ext|];
    NoneInParts('/', stem, ext);
    assert ext == [] ==> stem == name;
  }

  lemma {:induction false} SlashInFront(path: string)
    ensures var n := |path| - |LastElement(path)|; n > 0 ==> path[n - 1] == '/'
  {
    if path != [] && path[|path| - 1] != '/' {
      SlashInFront(path[..|path| - 1]);
    }
  }

  lemma {:induction false} LastDot(name: string)
    requires '/' !in name
    ensures var ext := Ext(name); if ext == [] then '.' !in name else '.' !in ext[1..]
  {
    if name != [] {
      LastDot(name[..|name| - 1]);
      assert name[|name| - 1] in name;
    }
  }

  lemma NoneInParts(c: char, a: string, b: string)
    ensures c !in a + b <==> c !in a && c !in b
  {
    assert forall k | 0 <= k < |a| :: a[k] == (a + b)[k];
    assert forall k | 0 <= k < |b| :: b[k] == (a + b)[|a| + k];
  }

  lemma {:induction false} NoDotNoExt(dirs: string, stem: string)
    requires dirs != [] ==> dirs[|dirs| - 1] == '/'
    requires '.' !in stem
    ensures Ext(dirs + stem) == []
    decreases |stem|
  {
    if stem == [] {
      assert dirs + stem == dirs;
    } else {
      var n := |stem| - 1;
      assert (dirs + stem)[..|dirs + stem| - 1] == dirs + stem[..n];
      assert stem[n] in stem;
      NoDotNoExt(dirs, stem[..n]);
    }
  }

  lemma {:induction false} LastElementIs(dirs: string, name: string)
    requires dirs != [] ==> dirs[|dirs| - 1] == '/'
    requires '/' !in name
    ensures LastElement(dirs + name) == name
    decreases |name|
  {
    if name == [] {
      assert dirs + name == dirs;
    } else {
      var n := |name| - 1;
      assert (dirs + name)[..|dirs + name| - 1] == dirs + name[..n];
      assert name[n] in name;
      LastElementIs(dirs, name[..n]);
    }
  }

  lemma ExtIs(dirs: string, stem: string, ext: string)
    requires NoteParts(dirs, stem, ext)
    ensures Ext(dirs + stem + ext) == ext
  {
    hide Ext;
    if ext == [] {
      NoDotNoExt(dirs, stem);
      assert dirs + stem + ext == dirs + stem;
    } else {
      forall k | 0 < k < |ext| ensures ext[k] != '.' && ext[k] != '/' {
        assert ext[k] == ext[1..][k - 1] && ext[k] in ext;
      }
      ExtBehind(dirs + stem, ext);
    }
  }

  /** The four names: base name and path, each with and without the extension. */
  lemma NamesOfNote(dirs: string, stem: string, ext: string)
    requires NoteParts(dirs, stem, ext)
    ensures var path := dirs + stem + ext;
            && Ext(path) == ext && Base(path) == stem + ext && Stem(path) == stem && WithoutExt(path) == dirs + stem
            && BuildMatchTargets(path) == {stem, stem + ext, dirs + stem, dirs + stem + ext}
  {
    hide Ext, LastElement, TrimSlashes, TrimSuffix, NoteParts;
    NameOfParts(dirs, stem, ext);
    BaseIs(dirs, stem + ext);
    ExtIs(dirs, stem, ext);
    ExtIs([], stem, ext);
    TrimmedSuffix(stem, ext);
    TrimmedSuffix(dirs + stem, ext);
  }

  lemma NameOfParts(dirs: string, stem: string, ext: string)
    requires NoteParts(dirs, stem, ext)
    ensures dirs != [] ==> dirs[|dirs| - 1] == '/'
    ensures stem + ext != [] && '/' !in stem + ext
    ensures NoteParts([], stem, ext)
    ensures dirs + stem + ext == dirs + (stem + ext) && [] + stem + ext == stem + ext
  {
    NoneInParts('/', stem, ext);
  }

  lemma BaseIs(dirs: string, name: string)
    requires dirs != [] ==> dirs[|dirs| - 1] == '/'
    requires name != [] && '/' !in name
    ensures Base(dirs + name) == name
  {
    hide LastElement;
    var path := dirs + name;
    assert path[|path| - 1] == name[|name| - 1] && name[|name| - 1] in name;
    assert TrimSlashes(path) == path;
    LastElementIs(dirs, name);
  }

  // ---------------------------------------------------------------- the new target

  predicate DotBehindSlashes(path: string, k: nat)
    requires k < |path|
  {
    path[k] == '.' && '/' !in path[k..]
  }

  /** A path has an extension exactly when a dot stands in its last element. */
  lemma {:induction false} HasExtIff(path: string)
    ensures Ext(path) != [] <==> exists k: nat | k < |path| :: DotBehindSlashes(path, k)
  {
    if path != [] {
      var n := |path| - 1;
      HasExtIff(path[..n]);
      forall k: nat | k < n
        ensures DotBehindSlashes(path, k) == (DotBehindSlashes(path[..n], k) && path[n] != '/')
      {
        assert path[k..] == path[..n][k..] + [path[n]];
      }
      assert path[n..] == [path[n]];
      assert DotBehindSlashes(path, n) == (path[n] == '.');
      if Ext(path) != [] && path[n] != '.' {
        var k: nat :| k < n && DotBehindSlashes(path[..n], k);
        assert DotBehindSlashes(path, k);
      }
    }
  }

  /**
   The new target is written in the style of the old one: with the directories exactly when that had a slash,
   with the extension exactly when that had one.
   */
  lemma NewTargetIs(oldTarget: string, dirs: string, stem: string, ext: string)
    requires NoteParts(dirs, stem, ext)
    ensures RewriteTarget(oldTarget, dirs + stem + ext)
            == (if '/' in oldTarget then dirs else [])
               + stem
               + (if exists k: nat | k < |oldTarget| :: DotBehindSlashes(oldTarget, k) then ext else [])
  {
    hide Ext, Base, Stem, WithoutExt, NoteParts;
    HasExtIff(oldTarget);
    NamesOfNote(dirs, stem, ext);
    FourTexts(dirs, stem, ext);
  }

  /** Nothing but an extension is ever missing from a path target, nothing but directories from a bare one. */
  lemma NewTargetEndsPath(oldTarget: string, newPath: string)
    requires newPath != [] && newPath[|newPath| - 1] != '/'
    ensures var whole := RewriteTarget(oldTarget, newPath) + (if Ext(oldTarget) == [] then Ext(newPath) else []);
            whole == (if '/' in oldTarget then newPath else LastElement(newPath))
  {
    hide Ext, Base, Stem, WithoutExt, LastElement, RewriteTarget, NoteParts;
    var dirs, stem, ext := PartsOfPath(newPath);
    PartsAgain(dirs, stem, ext);
    HasExtIff(oldTarget);
    NewTargetIs(oldTarget, dirs, stem, ext);
    FourTexts(dirs, stem, ext);
  }

  lemma PartsAgain(dirs: string, stem: string, ext: string)
    requires NoteParts(dirs, stem, ext)
    ensures Ext(dirs + stem + ext) == ext && LastElement(dirs + stem + ext) == stem + ext
  {
    hide Ext, LastElement;
    NoneInParts('/', stem, ext);
    ExtIs(dirs, stem, ext);
    LastElementIs(dirs, stem + ext);
    Regroup(dirs, stem, ext);
  }

  lemma FourTexts(dirs: string, stem: string, ext: string)
    ensures dirs + stem + [] == dirs + stem && dirs + stem + ext + [] == dirs + stem + ext
    ensures [] + stem + [] == stem && [] + stem + ext == stem + ext && [] + stem + ext + [] == stem + ext
    ensures stem + ext + [] == stem + ext
  {
  }

  /** A rewritten link is one to the note where it now is: moving it again would find the link. */
  lemma NewTargetPointsAtNote(mv: Move, oldTarget: string)
    ensures PointsAtMoved(mv.(oldPath := mv.newPath), RewriteTarget(oldTarget, mv.newPath))
  {
    hide Ext, Base, Stem, WithoutExt;
  }

  /** A slash, and an extension, of the new target. */
  lemma StyleOf(dirs: string, stem: string, ext: string, withDirs: bool, withExt: bool)
    requires NoteParts(dirs, stem, ext)
    ensures var target := (if withDirs then dirs else []) + stem + (if withExt then ext else []);
            && ('/' in target <==> withDirs && dirs != [])
            && (Ext(target) != [] <==> (withExt && ext != []) || '.' in stem)
  {
    hide Ext;
    var front, back := if withDirs then dirs else [], if withExt then ext else [];
    NoneInParts('/', front + stem, back);
    NoneInParts('/', front, stem);
    assert dirs != [] ==> dirs[|dirs| - 1] == '/' && dirs[|dirs| - 1] in dirs;
    if withExt && ext != [] {
      ExtIs(front, stem, ext);
    } else {
      assert front + stem + [] == front + stem;
      DotInStem(front, stem);
    }
  }

  lemma DotInStem(dirs: string, stem: string)
    requires (dirs != [] ==> dirs[|dirs| - 1] == '/') && '/' !in stem
    ensures Ext(dirs + stem) != [] <==> '.' in stem
  {
    hide Ext;
    HasExtIff(dirs + stem);
    if '.' in stem {
      var k :| 0 <= k < |stem| && stem[k] == '.';
      assert (dirs + stem)[|dirs| + k] == '.' && (dirs + stem)[|dirs| + k..] == stem[k..];
      assert '/' !in stem[k..];
      assert DotBehindSlashes(dirs + stem, |dirs| + k);
    } else {
      NoDotNoExt(dirs, stem);
    }
  }

  /**
   When the note moves and moves back, a target written in one of the four styles comes back as it was exactly
   when it had no directories or the note had some in between, and its extension was written out or neither
   stem has a dot in it, which would be taken for one.
   */
  lemma MoveBackRestoresTargetIff(dirs: string, stem: string, ext: string, dirs': string, stem': string, ext': string,
                                  withDirs: bool, withExt: bool)
    requires NoteParts(dirs, stem, ext) && NoteParts(dirs', stem', ext') && ext != [] && ext' != []
    ensures var target := (if withDirs then dirs else []) + stem + (if withExt then ext else []);
            RewriteTarget(RewriteTarget(target, dirs' + stem' + ext'), dirs + stem + ext) == target
            <==> && (withDirs && dirs != [] ==> dirs' != [])
                 && (withExt || ('.' !in stem && '.' !in stem'))
  {
    hide Ext, Base, Stem, WithoutExt, RewriteTarget, NoteParts;
    var target := (if withDirs then dirs else []) + stem + (if withExt then ext else []);
    StyleOf(dirs, stem, ext, withDirs, withExt);
    HasExtIff(target);
    NewTargetIs(target, dirs', stem', ext');
    var there := RewriteTarget(target, dirs' + stem' + ext');
    StyleOf(dirs', stem', ext', '/' in target, Ext(target) != []);
    HasExtIff(there);
    NewTargetIs(there, dirs, stem, ext);
    SameStyle(dirs, stem, ext, withDirs, withExt, '/' in there, Ext(there) != []);
  }

  lemma SameStyle(dirs: string, stem: string, ext: string, d: bool, e: bool, d': bool, e': bool)
    requires NoteParts(dirs, stem, ext) && ext != []
    ensures (if d then dirs else []) + stem + (if e then ext else [])
            == (if d' then dirs else []) + stem + (if e' then ext else [])
            <==> (dirs == [] || d == d') && e == e'
  {
    var a := (if d then dirs else []) + stem + (if e then ext else []);
    var b := (if d' then dirs else []) + stem + (if e' then ext else []);
    NoneInParts('/', stem, ext);
    NoneInParts('/', stem, []);
    assert stem + [] == stem;
    if dirs != [] && d != d' {
      assert dirs[|dirs| - 1] in dirs;
      assert d ==> a[|dirs| - 1] == '/';
      assert d' ==> b[|dirs| - 1] == '/';
      assert !d ==> a == stem + (if e then ext else []);
      assert !d' ==> b == stem + (if e' then ext else []);
      assert ('/' in a) == d && ('/' in b) == d';
    } else if e != e' {
      assert |a| != |b|;
    }
  }

  // ---------------------------------------------------------------- ambiguous names

  /** The vault's notes by stem (internal/vault/linkrewrite.go:94-107). */
  function IndexOf(notes: seq<string>): map<string, seq<string>> {
    if notes == [] then map[]
    else
      var rel := notes[|notes| - 1];
      var index := IndexOf(notes[..|notes| - 1]);
      index[Stem(rel) := (if Stem(rel) in index then index[Stem(rel)] else []) + [rel]]
  }

  method BasenameIndex(notes: seq<string>) returns (index: map<string, seq<string>>)
    ensures index == IndexOf(notes)
  {
    hide Stem;
    index := map[];
    for i := 0 to |notes|
      invariant index == IndexOf(notes[..i])
    {
      assert notes[..i + 1][..i] == notes[..i];
      var rel := notes[i];
      index := index[Stem(rel) := (if Stem(rel) in index then index[Stem(rel)] else []) + [rel]];
    }
    assert notes[..|notes|] == notes;
  }

  /** The notes listed under a name are those with that stem, in the order of the walk. */
  function WithStem(notes: seq<string>, name: string): seq<string> {
    if notes == [] then []
    else WithStem(notes[..|notes| - 1], name) + if Stem(notes[|notes| - 1]) == name then [notes[|notes| - 1]] else []
  }

  lemma {:induction false} IndexListsStems(notes: seq<string>, name: string)
    ensures name in IndexOf(notes) <==> WithStem(notes, name) != []
    ensures name in IndexOf(notes) ==> IndexOf(notes)[name] == WithStem(notes, name)
  {
    hide Stem;
    if notes != [] {
      IndexListsStems(notes[..|notes| - 1], name);
    }
  }

  predicate Shared(notes: seq<string>, i: nat, j: nat, name: string) {
    i < j < |notes| && Stem(notes[i]) == name && Stem(notes[j]) == name
  }

  lemma {:induction false} OneWithStem(notes: seq<string>, name: string)
    ensures WithStem(notes, name) != [] <==> exists i :: 0 <= i < |notes| && Stem(notes[i]) == name
    ensures |WithStem(notes, name)| > 1 <==> exists i: nat, j: nat :: Shared(notes, i, j, name)
  {
    hide Stem;
    if notes != [] {
      var n := |notes| - 1;
      var before := notes[..n];
      OneWithStem(before, name);
      forall i: nat, j: nat | j < n ensures Shared(before, i, j, name) == Shared(notes, i, j, name) {
      }
      if Stem(notes[n]) == name && WithStem(before, name) != [] {
        var i :| 0 <= i < n && Stem(before[i]) == name;
        assert Shared(notes, i, n, name);
      }
      if i: nat, j: nat :| Shared(notes, i, j, name) {
        assert if j < n then Shared(before, i, j, name) else Stem(before[i]) == name;
      }
      if i :| 0 <= i < |notes| && Stem(notes[i]) == name {
        assert i < n ==> Stem(before[i]) == name;
      }
      if i :| 0 <= i < n && Stem(before[i]) == name {
        assert Stem(notes[i]) == name;
      }
      if i: nat, j: nat :| Shared(before, i, j, name) {
        assert Shared(notes, i, j, name);
      }
    }
  }

  /** A link is left alone as ambiguous exactly when it has no slash and two notes of the vault share its stem. */
  lemma AmbiguousIffShared(mv: Move, notes: seq<string>, target: string)
    requires mv.index == IndexOf(notes)
    ensures IsAmbiguous(mv, target)
            <==> '/' !in target && exists i: nat, j: nat :: Shared(notes, i, j, WithoutExt(target))
  {
    hide Stem, WithoutExt;
    IndexListsStems(notes, WithoutExt(target));
    OneWithStem(notes, WithoutExt(target));
  }

  // ---------------------------------------------------------------- paths in Markdown links

  /** Each element escaped on its own, the slashes as they are. */
  function EscapedPath(mv: Move, path: string): string {
    var segments := SplitAt(path, '/');
    JoinWith(seq(|segments|, i requires 0 <= i < |segments| => mv.escape(segments[i])), '/')
  }

  /** What url.PathUnescape promises of url.PathEscape. */
  ghost predicate UnescapeUndoes(mv: Move) {
    forall path {:trigger EscapedPath(mv, path)} :: mv.unescape(EscapedPath(mv, path)) == path
  }

  /**
   A rewritten Markdown link is read as the new target exactly when the old one was written with an escape, or
   the new target reads as itself unescaped: in a link without escapes a percent sign is not escaped.
   */
  lemma MarkdownTargetIsReadIff(mv: Move, newTarget: string, originalRaw: string)
    requires UnescapeUndoes(mv)
    ensures mv.unescape(EncodeMarkdownPath(mv, newTarget, originalRaw)) == newTarget
            <==> '%' in originalRaw || mv.unescape(newTarget) == newTarget
  {
    assert EncodeMarkdownPath(mv, newTarget, originalRaw)
        == if '%' in originalRaw then EscapedPath(mv, newTarget) else newTarget;
  }
}
