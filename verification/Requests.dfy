/**
 Requests as clients make them (internal/vault/vault.go:78-108, 341-423, internal/vault/mutators.go:141-197,
 273-363): the spelling of a path does not matter, what is not confirmed or only tried out changes nothing, and
 over every run of requests the server's own files and the ignored ones stand untouched.
 */
module Requests {
  import opened Wrappers
  import opened Lines
  import opened Store
  import opened History
  import opened Writes
  import Paths
  import PathLaws
  import Retention

  /** The root is a clean absolute path with a name. */
  ghost predicate NamedRoot(env: Env, names: seq<string>) {
    names != [] && Paths.Names(names) && env.root == Paths.AbsolutePath(names)
  }

  /** The paths a request spells out. */
  function Spelled(request: Request): seq<string> {
    match request
    case WriteRequest(path, _, _, _) => [path]
    case EditRequest(path, _, _) => [path]
    case DeleteRequest(path, _, _, _, _) => [path]
    case MoveRequest(path, dst, _, _, _) => [path, dst]
    case PruneRequest(_, _, _) => []
  }

  // ---------------------------------------------------------------- spellings

  /** The answer to a path, told on the text. */
  lemma CleanPathIs(env: Env, names: seq<string>, path: string)
    requires NamedRoot(env, names)
    ensures CleanPath(env, path).Ok? ==>
              && CleanPath(env, path) == Ok(Paths.Clean(path)) && Paths.Relative(path)
              && !Paths.IsIgnored(env.ignored, path) && !Paths.IsInternalState(Paths.Clean(path))
    ensures CleanPath(env, path).Ok? <==> Paths.SanitizePath(env.root, env.ignored, path).Ok?
  {
    hide Paths.Clean, Paths.IsIgnored, Paths.IsInternalState, Paths.AbsolutePath, Paths.SanitizePath;
    Paths.AcceptedIff(names, env.ignored, path);
    PathLaws.SanitizedIs(names, env.ignored, path);
  }

  /** Two accepted spellings are the same path to every request exactly when they lead to one place. */
  lemma SpellingsAgreeIff(env: Env, names: seq<string>, path: string, path': string)
    requires NamedRoot(env, names) && CleanPath(env, path).Ok? && CleanPath(env, path').Ok?
    ensures CleanPath(env, path) == CleanPath(env, path') <==> PathLaws.SamePlace(path, path')
  {
    hide PathLaws.SamePlace, CleanPath;
    CleanPathIs(env, names, path);
    CleanPathIs(env, names, path');
    PathLaws.CleanedAlikeIff(path, path');
  }

  /** A delete or a move repeats its path as the confirmation; other requests need none. */
  predicate Confirmed(request: Request) {
    request.DeleteRequest? || request.MoveRequest? ==> request.confirm == request.path
  }

  /** The same request with another spelling of its note. */
  function Respelled(request: Request, path: string): Request {
    match request
    case WriteRequest(_, content, mode, ifMatch) => WriteRequest(path, content, mode, ifMatch)
    case EditRequest(_, edit, ifMatch) => EditRequest(path, edit, ifMatch)
    case DeleteRequest(_, _, permanent, stamp, ifMatch) => DeleteRequest(path, path, permanent, stamp, ifMatch)
    case MoveRequest(_, dst, _, dryRun, ifMatch) => MoveRequest(path, dst, path, dryRun, ifMatch)
    case PruneRequest(_, _, _) => request
  }

  /** So every request through the one spelling does and answers what it does through the other. */
  lemma SpellingDoesNotMatter(env: Env, names: seq<string>, disk: Disk, path: string, path': string, request: Request)
    requires NamedRoot(env, names) && CleanPath(env, path).Ok? && CleanPath(env, path').Ok?
    requires PathLaws.SamePlace(path, path') && Confirmed(request)
    requires Spelled(request) != [] ==> Spelled(request)[0] == path
    ensures Serve(env, disk, Respelled(request, path')) == Serve(env, disk, request)
  {
    hide PathLaws.SamePlace, CleanPath, NamedRoot, Exec;
    SpellingsAgreeIff(env, names, path, path');
  }

  // ---------------------------------------------------------------- frames

  /** A request changes no note but those at the cleaned forms of its own paths; refused, it changes no note at all. */
  lemma RequestsKeepOtherNotes(env: Env, disk: Disk, request: Request, q: string)
    ensures (forall p | p in Spelled(request) :: CleanPath(env, p) != Ok(q)) ==>
              Lookup(Serve(env, disk, request).0, q) == Lookup(disk, q)
    ensures Serve(env, disk, request).1.Failed? ==>
              Serve(env, disk, request).0.live == disk.live && Serve(env, disk, request).0.trash == disk.trash
  {
    hide CleanPath, Exec;
    match request
    case WriteRequest(path, content, mode, ifMatch) =>
      var clean := CleanPath(env, path);
      assert path in Spelled(request);
      if clean.Ok? {
        CallsKeepOtherNotes(env, disk, WriteNote(clean.value, content, mode, ifMatch), q);
      }
    case EditRequest(path, edit, ifMatch) =>
      var clean := CleanPath(env, path);
      assert path in Spelled(request);
      if clean.Ok? {
        CallsKeepOtherNotes(env, disk, EditNote(clean.value, edit, ifMatch), q);
      }
    case DeleteRequest(path, _, permanent, stamp, ifMatch) =>
      var clean := CleanPath(env, path);
      assert path in Spelled(request);
      if clean.Ok? {
        CallsKeepOtherNotes(env, disk, DeleteNote(clean.value, permanent, stamp, ifMatch), q);
      }
    case MoveRequest(path, dst, _, dryRun, ifMatch) =>
      var src, dst' := CleanPath(env, path), CleanPath(env, dst);
      assert path in Spelled(request) && dst in Spelled(request);
      if src.Ok? && dst'.Ok? {
        CallsKeepOtherNotes(env, disk, MoveFile(src.value, dst'.value, ifMatch), q);
      }
    case PruneRequest(entries, now, days) =>
      CallsKeepOtherNotes(env, disk, PruneTrash(entries, Retention.Cutoff(now, days)), q);
  }

  // ---------------------------------------------------------------- protected notes

  /** The server's own files, and every path an element of which is an ignored name; "." is the vault itself. */
  ghost predicate Protected(env: Env, q: string) {
    Paths.IsInternalState(q) || (q != "." && Paths.IsIgnored(env.ignored, q))
  }

  lemma NoPathIsProtected(env: Env, names: seq<string>, path: string, q: string)
    requires NamedRoot(env, names) && Protected(env, q)
    ensures CleanPath(env, path) != Ok(q)
  {
    hide Paths.Clean, Paths.IsIgnored, Paths.IsInternalState, CleanPath, NamedRoot;
    CleanPathIs(env, names, path);
    if CleanPath(env, path).Ok? {
      Paths.CleaningRevealsNothingIgnored(env.ignored, path);
    }
  }

  function ServeAll(env: Env, disk: Disk, requests: seq<Request>): Disk {
    if requests == [] then disk
    else Serve(env, ServeAll(env, disk, requests[..|requests| - 1]), requests[|requests| - 1]).0
  }

  /** No run of requests creates, changes or removes a protected file, however the paths are spelled. */
  lemma {:induction false} ProtectedNotesStand(env: Env, names: seq<string>, disk: Disk, requests: seq<Request>, q: string)
    requires NamedRoot(env, names) && Protected(env, q)
    ensures Lookup(ServeAll(env, disk, requests), q) == Lookup(disk, q)
  {
    hide CleanPath, Serve, Protected, NamedRoot, Lookup;
    if requests != [] {
      var n := |requests| - 1;
      ProtectedNotesStand(env, names, disk, requests[..n], q);
      forall p | p in Spelled(requests[n]) ensures CleanPath(env, p) != Ok(q) {
        NoPathIsProtected(env, names, p, q);
      }
      RequestsKeepOtherNotes(env, ServeAll(env, disk, requests[..n]), requests[n], q);
    }
  }

  // ---------------------------------------------------------------- what guards a request

  /** A delete or a move does nothing unless its own path is repeated as the confirmation. */
  lemma ConfirmationGuards(env: Env, disk: Disk, request: Request)
    ensures !Confirmed(request) <==> Serve(env, disk, request).1 == Failed(ConfirmMismatch)
    ensures !Confirmed(request) ==> Serve(env, disk, request).0 == disk
  {
    hide Paths.SanitizePath, Outdated, OutdatedCount;
    if request.EditRequest? && CleanPath(env, request.path).Ok? && CleanPath(env, request.path).value in disk.live {
      EditNeedsNoConfirmation(env, request.edit, disk.live[CleanPath(env, request.path).value]);
    }
  }

  lemma EditNeedsNoConfirmation(env: Env, edit: Edit, text: string)
    ensures EditText(env, edit, text) != Err(ConfirmMismatch)
  {
    hide Patch.PatchText, Replace.ReplaceText, Frontmatter.SplitFrontmatter, TagEdits.RemovedLines;
  }

  /** A dry run changes nothing, and foretells the move without a condition. */
  lemma DryRunForetells(env: Env, disk: Disk, path: string, dst: string, confirm: string, ifMatch: string)
    ensures var dry := Serve(env, disk, MoveRequest(path, dst, confirm, true, ifMatch));
            && dry.0 == disk
            && dry.1 == Serve(env, disk, MoveRequest(path, dst, confirm, false, "")).1
            && (dry.1 == Done ==>
                  CleanPath(env, path).Ok? && CleanPath(env, dst).Ok?
                  && CleanPath(env, path).value in disk.live && CleanPath(env, dst).value !in disk.live)
  {
    hide CleanPath;
  }

  /** A note that was written can be read again: no write leaves more than the reading limit. */
  lemma WrittenNotesAreReadable(env: Env, disk: Disk, path: string, content: string, mode: string, ifMatch: string)
    requires Serve(env, disk, WriteRequest(path, content, mode, ifMatch)).1 == Done
    ensures CleanPath(env, path).Ok?
    ensures var clean := CleanPath(env, path).value;
            var disk' := Serve(env, disk, WriteRequest(path, content, mode, ifMatch)).0;
            clean in disk'.live && |disk'.live[clean]| <= MAX_FILE_SIZE
  {
    hide CleanPath;
  }

  /** A tag goes into the frontmatter unless the caller says inline; any other place is refused before anything else. */
  lemma TagPlaces(env: Env, disk: Disk, path: string, tag: string, location: string, ifMatch: string)
    ensures var (disk', answer) := Serve(env, disk, EditRequest(path, AddTag(tag, location), ifMatch));
            && (location !in ["", "frontmatter", "inline"] <==> answer == Failed(UnknownLocation))
            && (answer == Failed(UnknownLocation) ==> disk' == disk)
            && (location == "" ==>
                  (disk', answer) == Serve(env, disk, EditRequest(path, AddTag(tag, "frontmatter"), ifMatch)))
  {
    hide Paths.SanitizePath, Frontmatter.SplitFrontmatter, Frontmatter.AddInlineTag;
    assert "" != "inline" && "frontmatter" != "inline" && |"frontmatter"| > 0;
  }
}
