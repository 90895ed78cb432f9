/**
 The vault as a store (internal/vault/vault.go, mutators.go, etag.go, frontmatter.go, tags.go,
 replace.go): what each mutating call does to the notes while it holds the lock, and what it answers.

 The disk is a flat map from cleaned path to content, next to the trash and its time-stamped
 directories. The digest, the YAML library, the letters of Unicode, the clock and the
 trash time stamps are parameters.
 */
module Store {
  import opened Wrappers
  import opened Lines
  import Paths
  import Patch
  import Replace
  import Frontmatter
  import Retention
  import TagEdits

  const MAX_FILE_SIZE := Replace.MAX_FILE_SIZE

  datatype Error =
    | BadPath(why: Paths.PathError) | ConfirmMismatch | TooLarge | Conflict | NotFound | AlreadyExists
    | BadPatch(patch: Patch.PatchError) | UnknownMode | UnknownLocation | InvalidFrontmatter | YamlFailed

  datatype Response = Done | Pruned(removed: nat) | Failed(error: Error)

  /** YAML calls: whether a text parses, whether it holds a mapping, and the edited mapping as text. */
  datatype Yaml = Yaml(
    parses: string -> bool, hasMapping: string -> bool,
    withTag: (string, string) -> Option<string>, withoutTag: (string, string) -> Option<string>,
    updated: (string, string) -> Option<string>)

  datatype Env = Env(root: string, ignored: set<string>, etag: string -> string, letters: set<char>, yaml: Yaml)

  /** Equal digests mean equal contents, and no digest is the empty text, which means "no condition". */
  ghost predicate CollisionFree(etag: string -> string) {
    && (forall a, b {:trigger etag(a), etag(b)} :: etag(a) == etag(b) ==> a == b)
    && (forall a :: etag(a) != "")
  }

  datatype Disk = Disk(live: map<string, string>, trash: map<(int, string), string>, dirs: set<int>)

  // ---------------------------------------------------------------- the calls

  datatype Edit =
    | PatchEdit(op: Patch.PatchOp)
    | UpdateFrontmatter(payload: string)
    | AddTag(tag: string, location: string)
    | RemoveTag(tag: string)
    | ReplaceEdit(pattern: string, replacement: string, maxOccurrences: int)

  /**
   A call with what it holds when it asks for the lock: cleaned paths, the time stamp of a soft delete,
   the directory listing a prune made without the lock. Put is the locked write of RenameTag and
   RewriteLinksOnMove, which compute the content from a lock-free read.
   */
  datatype Call =
    | WriteNote(path: string, content: string, mode: string, ifMatch: string)
    | EditNote(path: string, edit: Edit, ifMatch: string)
    | DeleteNote(path: string, permanent: bool, stamp: int, ifMatch: string)
    | MoveFile(path: string, dst: string, ifMatch: string)
    | PruneTrash(entries: seq<Option<int>>, cutoff: int)
    | Put(path: string, content: string)

  /** The note with its edited frontmatter, unless encoding or marshalling failed. */
  function Marshalled(out: Option<string>, body: string): Result<string, Error> {
    match out
    case None => Err(YamlFailed)
    case Some(raw) => Ok(Frontmatter.Assemble(raw, body))
  }

  function EditText(env: Env, edit: Edit, text: string): Result<string, Error> {
    var p := Frontmatter.SplitFrontmatter(text);
    match edit
    case PatchEdit(op) =>
      (match Patch.PatchText(text, op)
       case Ok(t) => Ok(t)
       case Err(e) => Err(BadPatch(e)))
    case ReplaceEdit(pattern, replacement, max) =>
      (match Replace.ReplaceText(text, pattern, replacement, max)
       case Done(t, _, _) => Ok(t)
       case TooLarge => Err(TooLarge))
    case UpdateFrontmatter(payload) =>
      if p.hasFM && !env.yaml.parses(p.raw) then Err(InvalidFrontmatter)
      else
        Marshalled(env.yaml.updated(p.raw, payload), p.body)
    case AddTag(tag, location) =>
      if p.hasFM && !env.yaml.parses(p.raw) then Err(InvalidFrontmatter)
      else if location == "inline" then Ok(Frontmatter.AddInlineTag(text, tag))
      else Marshalled(env.yaml.withTag(p.raw, tag), p.body)
    case RemoveTag(tag) =>
      if p.hasFM && !env.yaml.parses(p.raw) then Err(InvalidFrontmatter)
      else
        var body := Join(TagEdits.RemovedLines(env.letters, Split(p.body), tag));
        if p.hasFM && env.yaml.hasMapping(p.raw) then
          Marshalled(env.yaml.withoutTag(p.raw, tag), body)
        else
          Ok(body)
  }

  // ---------------------------------------------------------------- one call on the disk

  /** A read of a note under the size cap, and the caller's condition on it. */
  function CheckedRead(env: Env, disk: Disk, path: string, ifMatch: string, missing: Error): Result<string, Error> {
    if path !in disk.live then Err(missing)
    else if |disk.live[path]| > MAX_FILE_SIZE then Err(TooLarge)
    else if ifMatch != "" && env.etag(disk.live[path]) != ifMatch then Err(Conflict)
    else Ok(disk.live[path])
  }

  function Existing(disk: Disk, path: string): string {
    if path in disk.live then disk.live[path] else ""
  }

  function ExecWrite(env: Env, disk: Disk, path: string, content: string, mode: string, ifMatch: string)
    : (Disk, Response)
  {
    var refused := ifMatch != "" && CheckedRead(env, disk, path, ifMatch, Conflict).Err?;
    if refused then
      (disk, Failed(CheckedRead(env, disk, path, ifMatch, Conflict).error))
    else if mode == "overwrite" then
      (disk.(live := disk.live[path := content]), Done)
    else if mode == "append" || mode == "prepend" then
      var existing := Existing(disk, path);
      var combined := if mode == "append" then existing + content else content + existing;
      if |combined| > MAX_FILE_SIZE then (disk, Failed(TooLarge))
      else (disk.(live := disk.live[path := combined]), Done)
    else
      (disk, Failed(UnknownMode))
  }

  function ExecEdit(env: Env, disk: Disk, path: string, edit: Edit, ifMatch: string): (Disk, Response) {
    match CheckedRead(env, disk, path, ifMatch, NotFound)
    case Err(e) => (disk, Failed(e))
    case Ok(text) =>
      match EditText(env, edit, text)
      case Err(e) => (disk, Failed(e))
      case Ok(text') => (disk.(live := disk.live[path := text']), Done)
  }

  /** The note is gone from its place; a soft delete leaves it in the directory of its time stamp. */
  function ExecDelete(env: Env, disk: Disk, path: string, permanent: bool, stamp: int, ifMatch: string)
    : (Disk, Response)
  {
    var refused := ifMatch != "" && CheckedRead(env, disk, path, ifMatch, NotFound).Err?;
    if refused then
      (disk, Failed(CheckedRead(env, disk, path, ifMatch, NotFound).error))
    else if permanent then
      if path !in disk.live then (disk, Failed(NotFound))
      else (disk.(live := disk.live - {path}), Done)
    else
      var disk' := disk.(dirs := disk.dirs + {stamp});
      if path !in disk.live then (disk', Failed(NotFound))
      else (disk'.(live := disk.live - {path}, trash := disk.trash[(stamp, path) := disk.live[path]]), Done)
  }

  function ExecMove(env: Env, disk: Disk, src: string, dst: string, ifMatch: string): (Disk, Response) {
    var refused := ifMatch != "" && CheckedRead(env, disk, src, ifMatch, NotFound).Err?;
    if dst in disk.live then
      (disk, Failed(AlreadyExists))
    else if refused then
      (disk, Failed(CheckedRead(env, disk, src, ifMatch, NotFound).error))
    else if src !in disk.live then
      (disk, Failed(NotFound))
    else
      (disk.(live := (disk.live - {src})[dst := disk.live[src]]), Done)
  }

  /** The listed time stamps that lie before the cutoff; other names are left alone. */
  function Outdated(entries: seq<Option<int>>, cutoff: int): set<int> {
    set i | 0 <= i < |entries| && entries[i].Some? && entries[i].value < cutoff :: entries[i].value
  }

  function OutdatedCount(entries: seq<Option<int>>, cutoff: int): nat {
    if entries == [] then 0
    else OutdatedCount(entries[..|entries| - 1], cutoff)
         + match entries[|entries| - 1]
           case None => 0
           case Some(ts) => if ts < cutoff then 1 else 0
  }

  function WithoutDirs(disk: Disk, stamps: set<int>): Disk {
    disk.(trash := map k | k in disk.trash && k.0 !in stamps :: disk.trash[k], dirs := disk.dirs - stamps)
  }

  function Exec(env: Env, disk: Disk, call: Call): (Disk, Response) {
    match call
    case WriteNote(path, content, mode, ifMatch) => ExecWrite(env, disk, path, content, mode, ifMatch)
    case EditNote(path, edit, ifMatch) => ExecEdit(env, disk, path, edit, ifMatch)
    case DeleteNote(path, permanent, stamp, ifMatch) => ExecDelete(env, disk, path, permanent, stamp, ifMatch)
    case MoveFile(src, dst, ifMatch) => ExecMove(env, disk, src, dst, ifMatch)
    case PruneTrash(entries, cutoff) =>
      (WithoutDirs(disk, Outdated(entries, cutoff)), Pruned(OutdatedCount(entries, cutoff)))
    case Put(path, content) =>
      if |content| > MAX_FILE_SIZE then (disk, Failed(TooLarge))
      else (disk.(live := disk.live[path := content]), Done)
  }

  // ---------------------------------------------------------------- what a client asks for

  /** A request as a client makes it, with paths as it spells them; stamp, entries and now come from outside. */
  datatype Request =
    | WriteRequest(path: string, content: string, mode: string, ifMatch: string)
    | EditRequest(path: string, edit: Edit, ifMatch: string)
    | DeleteRequest(path: string, confirm: string, permanent: bool, stamp: int, ifMatch: string)
    | MoveRequest(path: string, dst: string, confirm: string, dryRun: bool, ifMatch: string)
    | PruneRequest(entries: seq<Option<int>>, now: int, retentionDays: int)

  function CleanPath(env: Env, path: string): Result<string, Error> {
    match Paths.SanitizePath(env.root, env.ignored, path)
    case Err(why) => Err(BadPath(why))
    case Ok((cleaned, _)) => Ok(cleaned)
  }

  /** The tests before the lock is taken, and then the call. A dry run only looks, and ignores the condition. */
  function Serve(env: Env, disk: Disk, request: Request): (Disk, Response) {
    match request
    case WriteRequest(path, content, mode, ifMatch) =>
      if |content| > MAX_FILE_SIZE then (disk, Failed(TooLarge))
      else
        (match CleanPath(env, path)
         case Err(e) => (disk, Failed(e))
         case Ok(clean) => Exec(env, disk, WriteNote(clean, content, mode, ifMatch)))
    case EditRequest(path, edit, ifMatch) =>
      if edit.AddTag? && edit.location !in ["", "frontmatter", "inline"] then (disk, Failed(UnknownLocation))
      else
        (match CleanPath(env, path)
         case Err(e) => (disk, Failed(e))
         case Ok(clean) => Exec(env, disk, EditNote(clean, edit, ifMatch)))
    case DeleteRequest(path, confirm, permanent, stamp, ifMatch) =>
      if confirm != path then (disk, Failed(ConfirmMismatch))
      else
        (match CleanPath(env, path)
         case Err(e) => (disk, Failed(e))
         case Ok(clean) => Exec(env, disk, DeleteNote(clean, permanent, stamp, ifMatch)))
    case MoveRequest(path, dst, confirm, dryRun, ifMatch) =>
      if confirm != path then (disk, Failed(ConfirmMismatch))
      else
        (match CleanPath(env, path)
         case Err(e) => (disk, Failed(e))
         case Ok(src) =>
           match CleanPath(env, dst)
           case Err(e) => (disk, Failed(e))
           case Ok(dst) =>
             if dryRun then (disk, Exec(env, disk, MoveFile(src, dst, "")).1)
             else Exec(env, disk, MoveFile(src, dst, ifMatch)))
    case PruneRequest(entries, now, days) =>
      Exec(env, disk, PruneTrash(entries, Retention.Cutoff(now, days)))
  }

  // ---------------------------------------------------------------- the methods

  class Vault {
    var live: map<string, string>
    var trash: map<(int, string), string>
    var dirs: set<int>
    const env: Env

    /** Opening a vault takes the disk as it is. */
    constructor (env: Env, disk: Disk)
      ensures Contents() == disk && this.env == env
    {
      live, trash, dirs := disk.live, disk.trash, disk.dirs;
      this.env := env;
    }

    function Contents(): Disk
      reads this
    {
      Disk(live, trash, dirs)
    }

    method WriteNote(relativePath: string, content: string, mode: string, ifMatch: string) returns (r: Response)
      modifies this
      ensures (Contents(), r) == Serve(env, old(Contents()), WriteRequest(relativePath, content, mode, ifMatch))
    {
      hide Paths.SanitizePath;
      if |content| > MAX_FILE_SIZE {
        return Failed(TooLarge);
      }
      var clean := Paths.SanitizePath(env.root, env.ignored, relativePath);
      if clean.Err? {
        return Failed(BadPath(clean.error));
      }
      var path := clean.value.0;
      var existing := "";
      if ifMatch != "" {
        if path !in live {
          return Failed(Conflict);
        }
        var data := live[path];
        if |data| > MAX_FILE_SIZE {
          return Failed(TooLarge);
        }
        if env.etag(data) != ifMatch {
          return Failed(Conflict);
        }
        existing := data;
      }
      if mode == "overwrite" {
        live := live[path := content];
      } else if mode == "append" || mode == "prepend" {
        if ifMatch == "" {
          existing := if path in live then live[path] else "";
        }
        var combined := if mode == "append" then existing + content else content + existing;
        if |combined| > MAX_FILE_SIZE {
          return Failed(TooLarge);
        }
        live := live[path := combined];
      } else {
        return Failed(UnknownMode);
      }
      return Done;
    }

    /** The text an edit leaves, computed from the text it read. */
    method Compute(edit: Edit, text: string) returns (r: Result<string, Error>)
      ensures r == EditText(env, edit, text)
    {
      hide Patch.PatchText, Replace.ReplaceText, Frontmatter.SplitFrontmatter, TagEdits.RemovedLines;
      match edit {
        case PatchEdit(op) =>
          var patched := Patch.PatchNote(text, op);
          return match patched case Ok(t) => Ok(t) case Err(e) => Err(BadPatch(e));
        case ReplaceEdit(pattern, replacement, max) =>
          var outcome := Replace.ReplaceInNote(text, pattern, replacement, max);
          return match outcome case Done(t, _, _) => Ok(t) case TooLarge => Err(TooLarge);
        case _ =>
      }
      var raw, body, hasFM := Frontmatter.SplitNote(text);
      if hasFM && !env.yaml.parses(raw) {
        return Err(InvalidFrontmatter);
      }
      match edit {
        case UpdateFrontmatter(payload) =>
          return Marshalled(env.yaml.updated(raw, payload), body);
        case AddTag(tag, location) =>
          if location == "inline" {
            return Ok(Frontmatter.AddInlineTag(text, tag));
          }
          return Marshalled(env.yaml.withTag(raw, tag), body);
        case RemoveTag(tag) =>
          var newBody := TagEdits.RemoveInlineTag(env.letters, body, tag);
          if hasFM && env.yaml.hasMapping(raw) {
            return Marshalled(env.yaml.withoutTag(raw, tag), newBody);
          }
          return Ok(newBody);
      }
    }

    /**
     PatchNote, UpdateFrontmatter, AddTag, RemoveTag and ReplaceInNote: read, check, compute, write.
     ReplaceInNote takes no condition.
     */
    method EditNote(relativePath: string, edit: Edit, ifMatch: string) returns (r: Response)
      requires edit.ReplaceEdit? ==> ifMatch == ""
      modifies this
      ensures (Contents(), r) == Serve(env, old(Contents()), EditRequest(relativePath, edit, ifMatch))
    {
      hide Paths.SanitizePath, EditText;
      if edit.AddTag? && edit.location != "" && edit.location != "frontmatter" && edit.location != "inline" {
        return Failed(UnknownLocation);
      }
      var clean := Paths.SanitizePath(env.root, env.ignored, relativePath);
      if clean.Err? {
        return Failed(BadPath(clean.error));
      }
      var path := clean.value.0;
      if path !in live {
        return Failed(NotFound);
      }
      var data := live[path];
      if |data| > MAX_FILE_SIZE {
        return Failed(TooLarge);
      }
      if ifMatch != "" && env.etag(data) != ifMatch {
        return Failed(Conflict);
      }
      var text := Compute(edit, data);
      if text.Err? {
        return Failed(text.error);
      }
      live := live[path := text.value];
      return Done;
    }

    method DeleteNote(relativePath: string, confirm: string, permanent: bool, stamp: int, ifMatch: string)
      returns (r: Response)
      modifies this
      ensures (Contents(), r)
              == Serve(env, old(Contents()), DeleteRequest(relativePath, confirm, permanent, stamp, ifMatch))
    {
      hide Paths.SanitizePath;
      if confirm != relativePath {
        return Failed(ConfirmMismatch);
      }
      var clean := Paths.SanitizePath(env.root, env.ignored, relativePath);
      if clean.Err? {
        return Failed(BadPath(clean.error));
      }
      var path := clean.value.0;
      if ifMatch != "" {
        if path !in live {
          return Failed(NotFound);
        }
        if |live[path]| > MAX_FILE_SIZE {
          return Failed(TooLarge);
        }
        if env.etag(live[path]) != ifMatch {
          return Failed(Conflict);
        }
      }
      if permanent {
        if path !in live {
          return Failed(NotFound);
        }
        live := live - {path};
        return Done;
      }
      dirs := dirs + {stamp};
      if path !in live {
        return Failed(NotFound);
      }
      trash := trash[(stamp, path) := live[path]];
      live := live - {path};
      return Done;
    }

    /**
     MoveNote without link updates; the links of other notes are rewritten afterwards, by Put. A dry run
     only looks, and ignores the condition.
     */
    method MoveNote(src: string, dst: string, confirm: string, dryRun: bool, ifMatch: string) returns (r: Response)
      modifies this
      ensures (Contents(), r) == Serve(env, old(Contents()), MoveRequest(src, dst, confirm, dryRun, ifMatch))
    {
      hide Paths.SanitizePath;
      if confirm != src {
        return Failed(ConfirmMismatch);
      }
      var cleanSrc := Paths.SanitizePath(env.root, env.ignored, src);
      if cleanSrc.Err? {
        return Failed(BadPath(cleanSrc.error));
      }
      var cleanDst := Paths.SanitizePath(env.root, env.ignored, dst);
      if cleanDst.Err? {
        return Failed(BadPath(cleanDst.error));
      }
      var from, to := cleanSrc.value.0, cleanDst.value.0;
      if dryRun {
        if to in live {
          return Failed(AlreadyExists);
        }
        if from !in live {
          return Failed(NotFound);
        }
        return Done;
      }
      if to in live {
        return Failed(AlreadyExists);
      }
      if ifMatch != "" {
        if from !in live {
          return Failed(NotFound);
        }
        if |live[from]| > MAX_FILE_SIZE {
          return Failed(TooLarge);
        }
        if env.etag(live[from]) != ifMatch {
          return Failed(Conflict);
        }
      }
      if from !in live {
        return Failed(NotFound);
      }
      live := (live - {from})[to := live[from]];
      return Done;
    }

    /** The locked part: entries is the listing read before the lock was taken. */
    method PruneTrash(entries: seq<Option<int>>, now: int, retentionDays: int) returns (removed: nat)
      modifies this
      ensures (Contents(), Pruned(removed)) == Serve(env, old(Contents()), PruneRequest(entries, now, retentionDays))
    {
      var cutoff := Retention.Cutoff(now, retentionDays);
      hide WithoutDirs, Outdated, Retention.Cutoff;
      ghost var was := Contents();
      removed := 0;
      OutdatedEmpty(was, cutoff);
      for i := 0 to |entries|
        invariant removed == OutdatedCount(entries[..i], cutoff)
        invariant Contents() == WithoutDirs(was, Outdated(entries[..i], cutoff))
      {
        assert entries[..i + 1][..i] == entries[..i];
        assert entries[..i + 1] == entries[..i] + [entries[i]];
        OutdatedSnoc(entries[..i], entries[i], cutoff);
        if entries[i].None? {
          continue;
        }
        var ts := entries[i].value;
        if ts < cutoff {
          WithoutOne(Contents(), ts);
          WithoutMore(was, Outdated(entries[..i], cutoff), ts);
          trash := map k | k in trash && k.0 != ts :: trash[k];
          dirs := dirs - {ts};
          removed := removed + 1;
        }
      }
      assert entries[..|entries|] == entries;
    }
  }

  lemma OutdatedEmpty(disk: Disk, cutoff: int)
    ensures WithoutDirs(disk, Outdated([], cutoff)) == disk
  {
    assert Outdated([], cutoff) == {};
    assert WithoutDirs(disk, {}).trash == disk.trash;
  }

  lemma WithoutOne(disk: Disk, ts: int)
    ensures WithoutDirs(disk, {ts})
            == disk.(trash := map k | k in disk.trash && k.0 != ts :: disk.trash[k], dirs := disk.dirs - {ts})
  {
    assert (map k | k in disk.trash && k.0 !in {ts} :: disk.trash[k])
        == (map k | k in disk.trash && k.0 != ts :: disk.trash[k]);
  }

  lemma WithoutMore(disk: Disk, stamps: set<int>, ts: int)
    ensures WithoutDirs(WithoutDirs(disk, stamps), {ts}) == WithoutDirs(disk, stamps + {ts})
  {
    assert WithoutDirs(WithoutDirs(disk, stamps), {ts}).trash == WithoutDirs(disk, stamps + {ts}).trash;
    assert disk.dirs - stamps - {ts} == disk.dirs - (stamps + {ts});
  }

  lemma OutdatedSnoc(entries: seq<Option<int>>, e: Option<int>, cutoff: int)
    ensures Outdated(entries + [e], cutoff)
            == if e.Some? && e.value < cutoff then Outdated(entries, cutoff) + {e.value} else Outdated(entries, cutoff)
  {
    var all := entries + [e];
    forall ts | ts in Outdated(entries, cutoff) ensures ts in Outdated(all, cutoff) {
      var i :| 0 <= i < |entries| && entries[i].Some? && entries[i].value < cutoff && entries[i].value == ts;
      assert all[i] == entries[i];
    }
    if e.Some? && e.value < cutoff {
      assert all[|entries|] == e;
    }
  }
}
