/**
 One call inside the lock, file operation by file operation (internal/vault/vault.go:361-423,
 internal/vault/mutators.go:142-197, 239-251, 324-363): look, read, check, compute, write. Run without
 interruption the operations of a call do exactly what Store.Exec says in one step, and no note changes
 before the last of them.
 */
module CriticalSection {
  import opened Wrappers
  import opened Store

  // ---------------------------------------------------------------- one call, one file operation at a time

  /** Where a call stands once it has the lock. */
  datatype Stage =
    | Entered
    | DestinationFree            // a move has found nothing at its destination
    | Loaded(data: string)       // the note has been read and the condition holds
    | Admitted                   // no reading is needed, or the condition holds
    | TrashDirMade
    | Pruning(next: nat, removed: nat)
    | Settled(answer: Response)

  function Guard(env: Env, disk: Disk, path: string, ifMatch: string, missing: Error): Stage {
    match CheckedRead(env, disk, path, ifMatch, missing)
    case Err(e) => Settled(Failed(e))
    case Ok(data) => Loaded(data)
  }

  function WorkWrite(env: Env, disk: Disk, call: Call, stage: Stage): (Disk, Stage)
    requires call.WriteNote?
  {
    match stage
    case Entered =>
      if call.ifMatch != "" then (disk, Guard(env, disk, call.path, call.ifMatch, Conflict))
      else if call.mode == "append" || call.mode == "prepend" then (disk, Loaded(Existing(disk, call.path)))
      else (disk, Loaded(""))
    case Loaded(existing) =>
      if call.mode == "overwrite" then
        (disk.(live := disk.live[call.path := call.content]), Settled(Done))
      else if call.mode == "append" || call.mode == "prepend" then
        var combined := if call.mode == "append" then existing + call.content else call.content + existing;
        if |combined| > MAX_FILE_SIZE then (disk, Settled(Failed(TooLarge)))
        else (disk.(live := disk.live[call.path := combined]), Settled(Done))
      else
        (disk, Settled(Failed(UnknownMode)))
    case _ => (disk, stage)
  }

  function WorkEdit(env: Env, disk: Disk, call: Call, stage: Stage): (Disk, Stage)
    requires call.EditNote?
  {
    match stage
    case Entered => (disk, Guard(env, disk, call.path, call.ifMatch, NotFound))
    case Loaded(data) =>
      (match EditText(env, call.edit, data)
       case Err(e) => (disk, Settled(Failed(e)))
       case Ok(text) => (disk.(live := disk.live[call.path := text]), Settled(Done)))
    case _ => (disk, stage)
  }

  function WorkDelete(env: Env, disk: Disk, call: Call, stage: Stage): (Disk, Stage)
    requires call.DeleteNote?
  {
    match stage
    case Entered =>
      if call.ifMatch == "" then (disk, Admitted)
      else
        (match Guard(env, disk, call.path, call.ifMatch, NotFound)
         case Loaded(_) => (disk, Admitted)
         case refused => (disk, refused))
    case Admitted =>
      if !call.permanent then (disk.(dirs := disk.dirs + {call.stamp}), TrashDirMade)
      else if call.path !in disk.live then (disk, Settled(Failed(NotFound)))
      else (disk.(live := disk.live - {call.path}), Settled(Done))
    case TrashDirMade =>
      if call.path !in disk.live then (disk, Settled(Failed(NotFound)))
      else
        (disk.(live := disk.live - {call.path},
               trash := disk.trash[(call.stamp, call.path) := disk.live[call.path]]), Settled(Done))
    case _ => (disk, stage)
  }

  /** The rename itself replaces whatever it finds at the destination; only the earlier look prevents that. */
  function WorkMove(env: Env, disk: Disk, call: Call, stage: Stage): (Disk, Stage)
    requires call.MoveFile?
  {
    match stage
    case Entered =>
      if call.dst in disk.live then (disk, Settled(Failed(AlreadyExists))) else (disk, DestinationFree)
    case DestinationFree =>
      if call.ifMatch == "" then (disk, Admitted)
      else
        (match Guard(env, disk, call.path, call.ifMatch, NotFound)
         case Loaded(_) => (disk, Admitted)
         case refused => (disk, refused))
    case Admitted =>
      if call.path !in disk.live then (disk, Settled(Failed(NotFound)))
      else (disk.(live := (disk.live - {call.path})[call.dst := disk.live[call.path]]), Settled(Done))
    case _ => (disk, stage)
  }

  function WorkPrune(disk: Disk, call: Call, stage: Stage): (Disk, Stage)
    requires call.PruneTrash?
  {
    match stage
    case Entered => (disk, Pruning(0, 0))
    case Pruning(i, removed) =>
      if i >= |call.entries| then (disk, Settled(Pruned(removed)))
      else
        (match call.entries[i]
         case None => (disk, Pruning(i + 1, removed))
         case Some(ts) =>
           if ts < call.cutoff then (WithoutDirs(disk, {ts}), Pruning(i + 1, removed + 1))
           else (disk, Pruning(i + 1, removed)))
    case _ => (disk, stage)
  }

  function WorkPut(disk: Disk, call: Call, stage: Stage): (Disk, Stage)
    requires call.Put?
  {
    if !stage.Entered? then (disk, stage)
    else if |call.content| > MAX_FILE_SIZE then (disk, Settled(Failed(TooLarge)))
    else (disk.(live := disk.live[call.path := call.content]), Settled(Done))
  }

  /** The next file operation of a call that holds the lock. */
  function Work(env: Env, disk: Disk, call: Call, stage: Stage): (Disk, Stage) {
    match call
    case WriteNote(_, _, _, _) => WorkWrite(env, disk, call, stage)
    case EditNote(_, _, _) => WorkEdit(env, disk, call, stage)
    case DeleteNote(_, _, _, _) => WorkDelete(env, disk, call, stage)
    case MoveFile(_, _, _) => WorkMove(env, disk, call, stage)
    case PruneTrash(_, _) => WorkPrune(disk, call, stage)
    case Put(_, _) => WorkPut(disk, call, stage)
  }

  // ---------------------------------------------------------------- the whole critical section is one Exec

  /**
   What a stage has achieved on a disk that was before when the lock was taken: no note has changed yet
   unless the answer is settled, and then everything is as the serial call leaves it.
   */
  ghost predicate Underway(env: Env, before: Disk, disk: Disk, call: Call, stage: Stage) {
    match stage
    case Settled(answer) => (disk, answer) == Exec(env, before, call)
    case Entered => disk == before
    case DestinationFree => disk == before && call.MoveFile? && call.dst !in before.live
    case Loaded(data) =>
      && disk == before
      && ((call.WriteNote? && call.ifMatch == "" && (call.mode == "overwrite" || data == Existing(before, call.path)
                                                     || (call.mode != "append" && call.mode != "prepend")))
          || (call.WriteNote? && call.ifMatch != ""
              && CheckedRead(env, before, call.path, call.ifMatch, Conflict) == Ok(data))
          || (call.EditNote? && CheckedRead(env, before, call.path, call.ifMatch, NotFound) == Ok(data)))
    case Admitted =>
      && disk == before
      && (call.DeleteNote? || (call.MoveFile? && call.dst !in before.live))
      && (call.ifMatch != "" ==> CheckedRead(env, before, call.path, call.ifMatch, NotFound).Ok?)
    case TrashDirMade =>
      && call.DeleteNote? && !call.permanent && disk == before.(dirs := before.dirs + {call.stamp})
      && (call.ifMatch != "" ==> CheckedRead(env, before, call.path, call.ifMatch, NotFound).Ok?)
    case Pruning(i, removed) =>
      && call.PruneTrash? && i <= |call.entries|
      && disk == WithoutDirs(before, Outdated(call.entries[..i], call.cutoff))
      && removed == OutdatedCount(call.entries[..i], call.cutoff)
  }

  /** Each file operation keeps the call on the way to exactly the outcome of the serial call. */
  lemma WorkStaysUnderway(env: Env, before: Disk, disk: Disk, call: Call, stage: Stage)
    requires Underway(env, before, disk, call, stage)
    ensures Underway(env, before, Work(env, disk, call, stage).0, call, Work(env, disk, call, stage).1)
  {
    hide EditText;
    if call.PruneTrash? {
      PruneStaysUnderway(env, before, disk, call, stage);
    } else {
      hide Outdated, OutdatedCount, WithoutDirs;
    }
  }

  lemma PruneStaysUnderway(env: Env, before: Disk, disk: Disk, call: Call, stage: Stage)
    requires call.PruneTrash? && Underway(env, before, disk, call, stage)
    ensures Underway(env, before, WorkPrune(disk, call, stage).0, call, WorkPrune(disk, call, stage).1)
  {
    hide WithoutDirs, Outdated;
    OutdatedEmpty(before, call.cutoff);
    if stage.Pruning? && stage.next < |call.entries| {
      var i := stage.next;
      assert call.entries[..i + 1][..i] == call.entries[..i];
      assert call.entries[..i + 1] == call.entries[..i] + [call.entries[i]];
      OutdatedSnoc(call.entries[..i], call.entries[i], call.cutoff);
      if call.entries[i].Some? {
        WithoutMore(before, Outdated(call.entries[..i], call.cutoff), call.entries[i].value);
      }
    } else if stage.Pruning? {
      assert call.entries[..|call.entries|] == call.entries;
    }
  }

  /** Nothing but the last file operation of a call changes a note. */
  lemma NotesChangeLast(env: Env, before: Disk, disk: Disk, call: Call, stage: Stage)
    requires Underway(env, before, disk, call, stage) && !stage.Settled?
    ensures disk.live == before.live
  {
    hide Outdated, OutdatedCount;
  }

  /** How many file operations a call can still make. */
  function Remaining(call: Call, stage: Stage): nat {
    match stage
    case Settled(_) => 0
    case TrashDirMade => 1
    case Loaded(_) => 1
    case Admitted => 2
    case DestinationFree => 3
    case Entered => if call.PruneTrash? then |call.entries| + 2 else 4
    case Pruning(i, _) => if call.PruneTrash? && i < |call.entries| then |call.entries| - i + 1 else 1
  }

  /** The holder of the lock is never stuck: each operation brings it nearer to its answer. */
  lemma WorkMakesProgress(env: Env, before: Disk, disk: Disk, call: Call, stage: Stage)
    requires Underway(env, before, disk, call, stage) && !stage.Settled?
    ensures Remaining(call, Work(env, disk, call, stage).1) < Remaining(call, stage)
  {
    hide Outdated, OutdatedCount, WithoutDirs, EditText;
  }

  /** The whole critical section: file operations until the answer is settled. */
  function Section(env: Env, before: Disk, disk: Disk, call: Call, stage: Stage): (Disk, Response)
    requires Underway(env, before, disk, call, stage)
    decreases Remaining(call, stage)
  {
    if stage.Settled? then
      (disk, stage.answer)
    else
      WorkStaysUnderway(env, before, disk, call, stage);
      WorkMakesProgress(env, before, disk, call, stage);
      var (disk', stage') := Work(env, disk, call, stage);
      Section(env, before, disk', call, stage')
  }

  /** Run without interruption, the file operations of a call do what the serial call does. */
  lemma {:induction false} SectionIsExec(env: Env, before: Disk, disk: Disk, call: Call, stage: Stage)
    requires Underway(env, before, disk, call, stage)
    ensures Section(env, before, disk, call, stage) == Exec(env, before, call)
    decreases Remaining(call, stage)
  {
    hide Underway, Work, Exec;
    SettledIsExec(env, before, disk, call, stage);
    if !stage.Settled? {
      WorkStaysUnderway(env, before, disk, call, stage);
      WorkMakesProgress(env, before, disk, call, stage);
      var (disk', stage') := Work(env, disk, call, stage);
      SectionIsExec(env, before, disk', call, stage');
    }
  }

  lemma SettledIsExec(env: Env, before: Disk, disk: Disk, call: Call, stage: Stage)
    requires Underway(env, before, disk, call, stage)
    ensures stage.Settled? ==> (disk, stage.answer) == Exec(env, before, call)
  {
  }
}
