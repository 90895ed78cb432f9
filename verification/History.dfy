/**
 Runs of the vault, one call at a time: the disk after a log of calls, the answer each call got, and
 what holds along every log - which notes a call can change, and what a condition guards
 (internal/vault/etag.go:42-50, internal/vault/vault.go:370-383).
 */
module History {
  import opened Wrappers
  import Lines
  import opened Store

  type Log = seq<Call>

  function Replay(env: Env, init: Disk, log: Log): Disk {
    if log == [] then init
    else Exec(env, Replay(env, init, log[..|log| - 1]), log[|log| - 1]).0
  }

  /** The answer of the n-th call of the log, made on what the calls before it left. */
  function Answer(env: Env, init: Disk, log: Log, n: nat): Response
    requires n < |log|
  {
    Exec(env, Replay(env, init, log[..n]), log[n]).1
  }

  function Lookup(disk: Disk, path: string): Option<string> {
    if path in disk.live then Some(disk.live[path]) else None
  }

  /** What the note holds after the first n calls of the log. */
  function NoteAt(env: Env, init: Disk, log: Log, n: nat, path: string): Option<string>
    requires n <= |log|
  {
    Lookup(Replay(env, init, log[..n]), path)
  }

  lemma ReplayStep(env: Env, init: Disk, log: Log, n: nat)
    requires n < |log|
    ensures Replay(env, init, log[..n + 1]) == Exec(env, Replay(env, init, log[..n]), log[n]).0
  {
    assert log[..n + 1][..n] == log[..n];
  }

  // ---------------------------------------------------------------- frames

  /** The condition a call carries, the empty text when it carries none. */
  function Condition(call: Call): string {
    match call
    case WriteNote(_, _, _, ifMatch) => ifMatch
    case EditNote(_, _, ifMatch) => ifMatch
    case DeleteNote(_, _, _, ifMatch) => ifMatch
    case MoveFile(_, _, ifMatch) => ifMatch
    case PruneTrash(_, _) => ""
    case Put(_, _) => ""
  }

  /** The note a conditional call replaces, removes or moves away. */
  function Target(call: Call): string {
    match call
    case WriteNote(path, _, _, _) => path
    case EditNote(path, _, _) => path
    case DeleteNote(path, _, _, _) => path
    case MoveFile(path, _, _) => path
    case PruneTrash(_, _) => ""
    case Put(path, _) => path
  }

  /** The paths at which a call may leave something else than it found. */
  predicate Touches(call: Call, path: string) {
    && !call.PruneTrash?
    && (path == Target(call) || (call.MoveFile? && path == call.dst))
  }

  /** A call changes no other note, and a refused call changes no note and no trash at all. */
  lemma CallsKeepOtherNotes(env: Env, disk: Disk, call: Call, path: string)
    ensures !Touches(call, path) ==> Lookup(Exec(env, disk, call).0, path) == Lookup(disk, path)
    ensures Exec(env, disk, call).1.Failed? ==>
              Exec(env, disk, call).0.live == disk.live && Exec(env, disk, call).0.trash == disk.trash
  {
    hide EditText, CheckedRead, Outdated, OutdatedCount;
  }

  // ---------------------------------------------------------------- what a condition guards

  /** Refusing for the condition, exactly: there is a note, its digest is another one, and nothing came first. */
  lemma ConditionIsTheDigest(env: Env, disk: Disk, call: Call)
    requires Condition(call) != ""
    ensures Exec(env, disk, call).1 == Done || Exec(env, disk, call).1.Failed?
    ensures Exec(env, disk, call).1 == Done ==>
              && Target(call) in disk.live
              && |disk.live[Target(call)]| <= MAX_FILE_SIZE
              && env.etag(disk.live[Target(call)]) == Condition(call)
    ensures Target(call) in disk.live && |disk.live[Target(call)]| <= MAX_FILE_SIZE
            && (call.MoveFile? ==> call.dst !in disk.live) ==>
              (Exec(env, disk, call).1 == Failed(Conflict)
               <==> env.etag(disk.live[Target(call)]) != Condition(call))
  {
    hide Outdated, OutdatedCount;
    EditNeverConflicts(env, call, disk);
  }

  lemma EditNeverConflicts(env: Env, call: Call, disk: Disk)
    ensures call.EditNote? && Target(call) in disk.live ==>
              EditText(env, call.edit, disk.live[Target(call)]) != Err(Conflict)
  {
    hide Patch.PatchText, Replace.ReplaceText, Frontmatter.SplitFrontmatter, TagEdits.RemovedLines;
  }

  /**
   Along any run, a conditional call that succeeds replaces exactly the content its caller saw: the
   digest it carries is the one of the content it finds.
   */
  lemma GuardedCallReplacesWhatWasSeen(env: Env, init: Disk, log: Log, n: nat, seen: string)
    requires CollisionFree(env.etag)
    requires n < |log| && Condition(log[n]) == env.etag(seen)
    ensures Answer(env, init, log, n) == Done ==> NoteAt(env, init, log, n, Target(log[n])) == Some(seen)
  {
    hide Exec, Target;
    ConditionIsTheDigest(env, Replay(env, init, log[..n]), log[n]);
  }

  /** A conditional call never makes a missing note: it fails, and every note and the trash stay. */
  lemma GuardedCallNeverCreates(env: Env, disk: Disk, call: Call)
    requires Condition(call) != "" && Target(call) !in disk.live
    ensures Exec(env, disk, call).1.Failed?
    ensures Exec(env, disk, call).0 == disk
    ensures call.WriteNote? ==> Exec(env, disk, call).1 == Failed(Conflict)
    ensures call.EditNote? || call.DeleteNote? ==> Exec(env, disk, call).1 == Failed(NotFound)
    ensures call.MoveFile? ==>
              Exec(env, disk, call).1 == Failed(if call.dst in disk.live then AlreadyExists else NotFound)
  {
    hide EditText, Outdated, OutdatedCount;
  }

  /** Somewhere in between, a call that may write the note put the content back. */
  lemma {:induction false} RestoredBetween(
      env: Env, init: Disk, log: Log, path: string, i: nat, j: nat, c: string) returns (k: nat)
    requires i <= j <= |log|
    requires NoteAt(env, init, log, i, path) != Some(c) && NoteAt(env, init, log, j, path) == Some(c)
    ensures i <= k < j && Touches(log[k], path)
    ensures NoteAt(env, init, log, k, path) != Some(c) && NoteAt(env, init, log, k + 1, path) == Some(c)
    decreases j - i
  {
    hide Exec, Touches;
    if NoteAt(env, init, log, i + 1, path) == Some(c) {
      k := i;
      ReplayStep(env, init, log, i);
      CallsKeepOtherNotes(env, Replay(env, init, log[..i]), log[i], path);
    } else {
      k := RestoredBetween(env, init, log, path, i + 1, j, c);
    }
  }

  /**
   Two clients hold the same digest of a note. If the first one's call succeeded and left something else
   there, the second one's call fails for as long as the old content has not been put back; and when it
   does succeed, some call in between has put exactly the old content back.
   */
  lemma SecondClientLoses(env: Env, init: Disk, log: Log, i: nat, j: nat) returns (k: nat)
    requires CollisionFree(env.etag)
    requires i < j < |log| && Target(log[i]) == Target(log[j])
    requires Condition(log[i]) == Condition(log[j]) != ""
    requires Answer(env, init, log, i) == Done
    requires NoteAt(env, init, log, i + 1, Target(log[i])) != NoteAt(env, init, log, i, Target(log[i]))
    ensures NoteAt(env, init, log, j, Target(log[i])) != NoteAt(env, init, log, i, Target(log[i])) ==>
              Answer(env, init, log, j).Failed?
    ensures Answer(env, init, log, j) == Done ==>
              && i < k < j && Touches(log[k], Target(log[i]))
              && NoteAt(env, init, log, k + 1, Target(log[i])) == NoteAt(env, init, log, i, Target(log[i]))
  {
    hide Exec, Target, Touches;
    ConditionIsTheDigest(env, Replay(env, init, log[..i]), log[i]);
    ConditionIsTheDigest(env, Replay(env, init, log[..j]), log[j]);
    var p := Target(log[i]);
    var c := NoteAt(env, init, log, i, p).value;
    k := 0;
    if Answer(env, init, log, j) == Done {
      k := RestoredBetween(env, init, log, p, i + 1, j, c);
    }
  }

  // ---------------------------------------------------------------- what writes leave

  predicate IsAppend(call: Call, path: string) {
    call.WriteNote? && call.mode == "append" && call.path == path
  }

  function AddedBy(env: Env, disk: Disk, call: Call, path: string): string {
    if IsAppend(call, path) && Exec(env, disk, call).1 == Done then call.content else []
  }

  /** The texts of the appends to a note that succeeded, in order. */
  function AppendedText(env: Env, init: Disk, log: Log, path: string): string {
    if log == [] then []
    else
      var n := |log| - 1;
      AppendedText(env, init, log[..n], path) + AddedBy(env, Replay(env, init, log[..n]), log[n], path)
  }

  lemma AppendStep(env: Env, disk: Disk, call: Call, path: string)
    requires Touches(call, path) ==> IsAppend(call, path)
    ensures Existing(Exec(env, disk, call).0, path) == Existing(disk, path) + AddedBy(env, disk, call, path)
  {
    hide CheckedRead, EditText, Outdated, OutdatedCount;
    assert Existing(disk, path) + [] == Existing(disk, path);
  }

  /**
   No append is lost: while only appends touch a note, it holds what it held followed by the texts of all
   successful ones in the order they took the lock.
   */
  lemma {:induction false} AppendsAccumulate(env: Env, init: Disk, log: Log, path: string)
    requires forall n | 0 <= n < |log| :: Touches(log[n], path) ==> IsAppend(log[n], path)
    ensures Existing(Replay(env, init, log), path) == Existing(init, path) + AppendedText(env, init, log, path)
  {
    hide Exec, Touches, IsAppend, AddedBy;
    if log == [] {
      assert Existing(init, path) + [] == Existing(init, path);
    } else {
      var n := |log| - 1;
      var before := Replay(env, init, log[..n]);
      AppendsAccumulate(env, init, log[..n], path);
      AppendStep(env, before, log[n], path);
      Lines.Regroup(Existing(init, path), AppendedText(env, init, log[..n], path),
                    AddedBy(env, before, log[n], path));
    }
  }

  /** Moving a note back restores the disk. */
  lemma MoveBackRestores(env: Env, disk: Disk, src: string, dst: string, ifMatch: string)
    requires Exec(env, disk, MoveFile(src, dst, ifMatch)).1 == Done
    ensures Exec(env, Exec(env, disk, MoveFile(src, dst, ifMatch)).0, MoveFile(dst, src, "")) == (disk, Done)
  {
    hide CheckedRead;
    var moved := Exec(env, disk, MoveFile(src, dst, ifMatch)).0;
    assert (moved.live - {dst})[src := moved.live[dst]] == disk.live;
  }
}
