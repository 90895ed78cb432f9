/**
 Many clients on one vault (internal/vault/vault.go:361-423 and the other callers of s.mu): each call
 waits for the lock, works through its file operations one at a time, and gives the lock back, while
 other clients start calls and read notes without the lock at any point in between.

 Every schedule of such steps ends where the calls run one at a time, in the order they took the lock;
 each answer is the one of that serial run; a lock-free read sees the notes as they stand between two
 calls of it; and the order respects real time. RenameTag and RewriteLinksOnMove compute the content they
 put from a lock-free read, so only their last step, Put, is such a call; LostUpdate shows what that costs.
 */
module Interleaving {
  import opened Wrappers
  import opened Store
  import opened CriticalSection
  import opened History

  // ---------------------------------------------------------------- many clients

  /** A call in flight; since is the number of calls that had taken the lock when it was started. */
  datatype Op =
    | Waiting(call: Call, since: nat)
    | Holding(call: Call, since: nat, place: nat, stage: Stage)
    | Returned(call: Call, since: nat, place: nat, answer: Response)

  /** What a lock-free read saw, after how many calls of the serial run. */
  datatype Sight = Sight(path: string, seen: Option<string>, after: nat)

  /** Operations are numbered; log lists the calls in the order they took the lock. */
  datatype World = World(disk: Disk, holder: Option<int>, ops: map<int, Op>, log: Log, sights: seq<Sight>)

  datatype Step =
    | Begin(id: int, call: Call) | Acquire(id: int) | Advance(id: int) | Release(id: int) | Read(path: string)

  function Start(init: Disk): World {
    World(init, None, map[], [], [])
  }

  /** How many calls of the log have taken effect on the notes. */
  function Effective(w: World): nat {
    if w.holder.Some? && w.holder.value in w.ops && w.ops[w.holder.value].Holding?
       && !w.ops[w.holder.value].stage.Settled? && |w.log| > 0 then |w.log| - 1
    else |w.log|
  }

  /** A step that is not enabled changes nothing. */
  function Do(env: Env, w: World, step: Step): World {
    match step
    case Begin(id, call) =>
      if id in w.ops then w else w.(ops := w.ops[id := Waiting(call, |w.log|)])
    case Acquire(id) =>
      if id in w.ops && w.ops[id].Waiting? && w.holder.None? then
        var op := w.ops[id];
        w.(holder := Some(id), ops := w.ops[id := Holding(op.call, op.since, |w.log|, Entered)],
           log := w.log + [op.call])
      else w
    case Advance(id) =>
      if id in w.ops && w.ops[id].Holding? then
        var op := w.ops[id];
        var (disk, stage) := Work(env, w.disk, op.call, op.stage);
        w.(disk := disk, ops := w.ops[id := op.(stage := stage)])
      else w
    case Release(id) =>
      if id in w.ops && w.ops[id].Holding? && w.ops[id].stage.Settled? then
        var op := w.ops[id];
        w.(holder := None, ops := w.ops[id := Returned(op.call, op.since, op.place, op.stage.answer)])
      else w
    case Read(path) =>
      w.(sights := w.sights + [Sight(path, Lookup(w.disk, path), Effective(w))])
  }

  function RunSteps(env: Env, w: World, steps: seq<Step>): World {
    if steps == [] then w
    else Do(env, RunSteps(env, w, steps[..|steps| - 1]), steps[|steps| - 1])
  }

  // ---------------------------------------------------------------- the invariant

  /** An operation agrees with its place in the serial run. */
  ghost predicate OpFits(env: Env, init: Disk, w: World, id: int)
    requires id in w.ops
  {
    match w.ops[id]
    case Waiting(_, since) => since <= |w.log|
    case Holding(call, since, place, stage) =>
      && w.holder == Some(id) && since <= place && place + 1 == |w.log| && w.log[place] == call
      && Underway(env, Replay(env, init, w.log[..place]), w.disk, call, stage)
    case Returned(call, since, place, answer) =>
      && since <= place < |w.log| && w.log[place] == call && Answer(env, init, w.log, place) == answer
      && place < Effective(w)
  }

  ghost predicate SightFits(env: Env, init: Disk, w: World, s: Sight) {
    s.after <= Effective(w) <= |w.log| && s.seen == NoteAt(env, init, w.log, s.after, s.path)
  }

  ghost predicate Inv(env: Env, init: Disk, w: World) {
    && (w.holder.Some? ==> w.holder.value in w.ops && w.ops[w.holder.value].Holding?)
    && (w.holder.None? ==> w.disk == Replay(env, init, w.log))
    && (forall id | id in w.ops :: OpFits(env, init, w, id))
    && (forall k | 0 <= k < |w.sights| :: SightFits(env, init, w, w.sights[k]))
    && (forall j, k | 0 <= j <= k < |w.sights| :: w.sights[j].after <= w.sights[k].after)
  }

  // ---------------------------------------------------------------- every step keeps it

  lemma StartFits(env: Env, init: Disk)
    ensures Inv(env, init, Start(init))
  {
  }

  lemma SettledIsSerial(env: Env, init: Disk, w: World)
    requires Inv(env, init, w) && w.holder.Some?
    requires w.ops[w.holder.value].stage.Settled?
    ensures var op := w.ops[w.holder.value];
            && w.disk == Replay(env, init, w.log)
            && op.place < |w.log| && op.stage.answer == Answer(env, init, w.log, op.place)
  {
    hide Exec, Outdated, OutdatedCount;
    var op := w.ops[w.holder.value];
    assert OpFits(env, init, w, w.holder.value);
    ReplayStep(env, init, w.log, op.place);
    assert w.log[..op.place + 1] == w.log;
  }

  /** The notes on the disk, at any moment, are those of the serial run after the effective calls. */
  lemma NotesAreSerial(env: Env, init: Disk, w: World)
    requires Inv(env, init, w)
    ensures w.disk.live == Replay(env, init, w.log[..Effective(w)]).live
  {
    hide Exec, Underway;
    if w.holder.None? {
      assert w.log[..|w.log|] == w.log;
    } else {
      var op := w.ops[w.holder.value];
      assert OpFits(env, init, w, w.holder.value);
      if op.stage.Settled? {
        SettledIsSerial(env, init, w);
        assert w.log[..|w.log|] == w.log;
      } else {
        NotesChangeLast(env, Replay(env, init, w.log[..op.place]), w.disk, op.call, op.stage);
      }
    }
  }

  /** What is said of earlier places of the log stays true when the log grows. */
  lemma LogGrows(env: Env, init: Disk, w: World, w': World, call: Call)
    requires Inv(env, init, w) && w'.log == w.log + [call] && w'.sights == w.sights
    requires Effective(w) <= Effective(w') <= |w'.log|
    ensures forall id | id in w.ops && id in w'.ops && w'.ops[id] == w.ops[id] && !w.ops[id].Holding? ::
              OpFits(env, init, w', id)
    ensures forall k | 0 <= k < |w'.sights| :: SightFits(env, init, w', w'.sights[k])
  {
    hide Exec, Underway, Effective;
    forall n | 0 <= n <= |w.log| ensures w'.log[..n] == w.log[..n] {}
    forall id | id in w.ops && id in w'.ops && w'.ops[id] == w.ops[id] && !w.ops[id].Holding?
      ensures OpFits(env, init, w', id)
    {
      assert OpFits(env, init, w, id);
    }
    forall k | 0 <= k < |w'.sights| ensures SightFits(env, init, w', w'.sights[k]) {
      assert SightFits(env, init, w, w.sights[k]);
    }
  }

  lemma BeginFits(env: Env, init: Disk, w: World, id: int, call: Call)
    requires Inv(env, init, w)
    ensures Inv(env, init, Do(env, w, Begin(id, call)))
  {
    hide Exec, Underway;
    var w' := Do(env, w, Begin(id, call));
    assert Effective(w') == Effective(w);
    forall i | i in w'.ops ensures OpFits(env, init, w', i) {
      assert i in w.ops ==> OpFits(env, init, w, i);
    }
    SightsStay(env, init, w, w');
  }

  lemma SightsStay(env: Env, init: Disk, w: World, w': World)
    requires Inv(env, init, w) && w'.log == w.log && w'.sights == w.sights && Effective(w) <= Effective(w')
    requires Effective(w') <= |w'.log|
    ensures forall k | 0 <= k < |w'.sights| :: SightFits(env, init, w', w'.sights[k])
    ensures forall j, k | 0 <= j <= k < |w'.sights| :: w'.sights[j].after <= w'.sights[k].after
  {
    hide Exec, Underway, Effective;
    forall k | 0 <= k < |w'.sights| ensures SightFits(env, init, w', w'.sights[k]) {
      assert SightFits(env, init, w, w.sights[k]);
    }
  }

  lemma AcquireFits(env: Env, init: Disk, w: World, id: int)
    requires Inv(env, init, w)
    ensures Inv(env, init, Do(env, w, Acquire(id)))
  {
    hide Exec;
    var w' := Do(env, w, Acquire(id));
    if id in w.ops && w.ops[id].Waiting? && w.holder.None? {
      var call := w.ops[id].call;
      assert Effective(w) == |w.log| == Effective(w');
      LogGrows(env, init, w, w', call);
      assert w'.log[..|w.log|] == w.log;
      assert OpFits(env, init, w, id);
      forall i | i in w'.ops ensures OpFits(env, init, w', i) {
        assert OpFits(env, init, w, i);
      }
    }
  }

  lemma AdvanceFits(env: Env, init: Disk, w: World, id: int)
    requires Inv(env, init, w)
    ensures Inv(env, init, Do(env, w, Advance(id)))
  {
    hide Exec, Work, Underway;
    var w' := Do(env, w, Advance(id));
    if id in w.ops && w.ops[id].Holding? {
      var op := w.ops[id];
      assert OpFits(env, init, w, id);
      WorkStaysUnderway(env, Replay(env, init, w.log[..op.place]), w.disk, op.call, op.stage);
      SettledStays(env, w.disk, op.call, op.stage);
      assert Effective(w) <= Effective(w') <= |w'.log|;
      forall i | i in w'.ops ensures OpFits(env, init, w', i) {
        assert OpFits(env, init, w, i);
      }
      SightsStay(env, init, w, w');
    }
  }

  lemma SettledStays(env: Env, disk: Disk, call: Call, stage: Stage)
    ensures stage.Settled? ==> Work(env, disk, call, stage) == (disk, stage)
  {
  }

  lemma ReleaseFits(env: Env, init: Disk, w: World, id: int)
    requires Inv(env, init, w)
    ensures Inv(env, init, Do(env, w, Release(id)))
  {
    hide Exec, Underway;
    var w' := Do(env, w, Release(id));
    if id in w.ops && w.ops[id].Holding? && w.ops[id].stage.Settled? {
      assert OpFits(env, init, w, id);
      SettledIsSerial(env, init, w);
      assert Effective(w) == |w.log| == Effective(w');
      forall i | i in w'.ops ensures OpFits(env, init, w', i) {
        assert OpFits(env, init, w, i);
      }
      SightsStay(env, init, w, w');
    }
  }

  lemma ReadFits(env: Env, init: Disk, w: World, path: string)
    requires Inv(env, init, w)
    ensures Inv(env, init, Do(env, w, Read(path)))
  {
    hide Exec, Underway, Replay;
    var w' := Do(env, w, Read(path));
    assert Effective(w') == Effective(w);
    NotesAreSerial(env, init, w);
    forall i | i in w'.ops ensures OpFits(env, init, w', i) {
      assert OpFits(env, init, w, i);
    }
    forall k | 0 <= k < |w'.sights|
      ensures SightFits(env, init, w', w'.sights[k]) && w'.sights[k].after <= Effective(w)
    {
      assert k < |w.sights| ==> SightFits(env, init, w, w.sights[k]);
    }
  }

  lemma DoKeepsInv(env: Env, init: Disk, w: World, step: Step)
    requires Inv(env, init, w)
    ensures Inv(env, init, Do(env, w, step))
  {
    hide Inv, Do;
    match step
    case Begin(id, call) => BeginFits(env, init, w, id, call);
    case Acquire(id) => AcquireFits(env, init, w, id);
    case Advance(id) => AdvanceFits(env, init, w, id);
    case Release(id) => ReleaseFits(env, init, w, id);
    case Read(path) => ReadFits(env, init, w, path);
  }

  lemma {:induction false} RunKeepsInv(env: Env, init: Disk, steps: seq<Step>)
    ensures Inv(env, init, RunSteps(env, Start(init), steps))
  {
    hide Inv, Do;
    if steps == [] {
      StartFits(env, init);
    } else {
      RunKeepsInv(env, init, steps[..|steps| - 1]);
      DoKeepsInv(env, init, RunSteps(env, Start(init), steps[..|steps| - 1]), steps[|steps| - 1]);
    }
  }

  // ---------------------------------------------------------------- the theorems

  /**
   Every schedule is equivalent to its calls one at a time in lock order: whenever the lock is free the
   disk is the serial one, every call that has returned has the answer of its place in the serial run, and
   every lock-free read saw the note as the serial run has it after some of its calls.
   */
  lemma EveryScheduleIsSerial(env: Env, init: Disk, steps: seq<Step>)
    ensures var w := RunSteps(env, Start(init), steps);
            && (w.holder.None? ==> w.disk == Replay(env, init, w.log))
            && (forall id | id in w.ops && w.ops[id].Returned? ::
                  && w.ops[id].place < |w.log| && w.log[w.ops[id].place] == w.ops[id].call
                  && w.ops[id].answer == Answer(env, init, w.log, w.ops[id].place))
            && (forall s | s in w.sights ::
                  s.after <= |w.log| && s.seen == NoteAt(env, init, w.log, s.after, s.path))
  {
    hide Exec, Replay, RunSteps, Effective;
    RunKeepsInv(env, init, steps);
    var w := RunSteps(env, Start(init), steps);
    forall id | id in w.ops && w.ops[id].Returned?
      ensures && w.ops[id].place < |w.log| && w.log[w.ops[id].place] == w.ops[id].call
              && w.ops[id].answer == Answer(env, init, w.log, w.ops[id].place)
    {
      assert OpFits(env, init, w, id);
    }
    forall s | s in w.sights
      ensures s.after <= |w.log| && s.seen == NoteAt(env, init, w.log, s.after, s.path)
    {
      var k :| 0 <= k < |w.sights| && w.sights[k] == s;
      assert SightFits(env, init, w, w.sights[k]);
    }
  }

  /** What a later world remembers of an earlier one, and what can only have been added. */
  ghost predicate Extends(w: World, later: World) {
    && |w.log| <= |later.log| && later.log[..|w.log|] == w.log
    && |w.sights| <= |later.sights| && later.sights[..|w.sights|] == w.sights
    && Effective(w) <= Effective(later)
    && (forall id | id in w.ops && w.ops[id].Returned? :: id in later.ops && later.ops[id] == w.ops[id])
    && (forall id | id in later.ops && id !in w.ops :: |w.log| <= later.ops[id].since)
    && (forall id | id in w.ops :: id in later.ops && later.ops[id].since == w.ops[id].since)
    && (forall k | |w.sights| <= k < |later.sights| :: Effective(w) <= later.sights[k].after)
  }

  lemma DoExtends(env: Env, init: Disk, w: World, step: Step)
    requires Inv(env, init, w)
    ensures Extends(w, Do(env, w, step))
  {
    hide Exec, Replay, Underway, Work;
    match step
    case Advance(id) =>
      if id in w.ops && w.ops[id].Holding? {
        assert OpFits(env, init, w, id);
        SettledStays(env, w.disk, w.ops[id].call, w.ops[id].stage);
      }
    case Release(id) =>
      if id in w.ops && w.ops[id].Holding? {
        assert OpFits(env, init, w, id);
      }
    case _ =>
  }

  lemma ExtendsChain(w: World, mid: World, later: World)
    requires Extends(w, mid) && Extends(mid, later)
    ensures Extends(w, later)
  {
    hide Effective;
    assert later.log[..|w.log|] == later.log[..|mid.log|][..|w.log|];
    assert later.sights[..|w.sights|] == later.sights[..|mid.sights|][..|w.sights|];
    forall k | |w.sights| <= k < |later.sights| ensures Effective(w) <= later.sights[k].after {
      assert k < |mid.sights| ==> later.sights[..|mid.sights|][k] == mid.sights[k];
    }
  }

  lemma {:induction false} RunExtends(env: Env, init: Disk, steps: seq<Step>, n: nat)
    requires n <= |steps|
    ensures Extends(RunSteps(env, Start(init), steps[..n]), RunSteps(env, Start(init), steps))
    decreases |steps| - n
  {
    hide Extends, Do, Inv;
    var w := RunSteps(env, Start(init), steps[..n]);
    if n == |steps| {
      assert steps[..n] == steps;
      ExtendsSelf(w);
    } else {
      assert steps[..n + 1][..n] == steps[..n];
      RunKeepsInv(env, init, steps[..n]);
      DoExtends(env, init, w, steps[n]);
      RunExtends(env, init, steps, n + 1);
      ExtendsChain(w, RunSteps(env, Start(init), steps[..n + 1]), RunSteps(env, Start(init), steps));
    }
  }

  lemma ExtendsSelf(w: World)
    ensures Extends(w, w)
  {
  }

  /**
   The serial order respects real time. A call that had returned before another one was started comes
   before it; a read made after a call returned sees it, and a call started after a read comes after
   everything the read saw.
   */
  lemma SerialOrderIsRealTime(env: Env, init: Disk, steps: seq<Step>, n: nat, a: int, b: int, k: nat)
    requires n <= |steps|
    ensures var early := RunSteps(env, Start(init), steps[..n]);
            var w := RunSteps(env, Start(init), steps);
            && (a in early.ops && early.ops[a].Returned? && b !in early.ops
                && b in w.ops && !w.ops[b].Waiting? ==>
                  a in w.ops && w.ops[a] == early.ops[a] && w.ops[a].place < w.ops[b].place)
            && (a in early.ops && early.ops[a].Returned? && |early.sights| <= k < |w.sights| ==>
                  early.ops[a].place < w.sights[k].after)
            && |early.sights| <= |w.sights|
            && (0 <= k < |early.sights| && b !in early.ops && b in w.ops && !w.ops[b].Waiting? ==>
                  w.sights[k].after <= w.ops[b].place)
  {
    hide Exec, Replay, RunSteps, Underway, Effective;
    var early := RunSteps(env, Start(init), steps[..n]);
    var w := RunSteps(env, Start(init), steps);
    RunKeepsInv(env, init, steps[..n]);
    RunKeepsInv(env, init, steps);
    RunExtends(env, init, steps, n);
    assert a in early.ops ==> OpFits(env, init, early, a);
    assert b in w.ops ==> OpFits(env, init, w, b);
    if 0 <= k < |early.sights| {
      assert SightFits(env, init, early, early.sights[k]);
      assert w.sights[..|early.sights|][k] == w.sights[k];
    }
  }

  /** At most one call works at a time, and the one that does is the last of the log. */
  lemma OneHolder(env: Env, init: Disk, steps: seq<Step>, a: int, b: int)
    ensures var w := RunSteps(env, Start(init), steps);
            a in w.ops && w.ops[a].Holding? && b in w.ops && w.ops[b].Holding? ==>
              a == b && w.holder == Some(a) && w.ops[a].place + 1 == |w.log|
  {
    hide Exec, Replay, RunSteps, Underway, Effective;
    RunKeepsInv(env, init, steps);
    var w := RunSteps(env, Start(init), steps);
    assert a in w.ops ==> OpFits(env, init, w, a);
    assert b in w.ops ==> OpFits(env, init, w, b);
  }

  /**
   In every schedule, of two clients whose calls carry the same digest of a note and both answer success,
   the later one found exactly the old content again: some call that took the lock between them put it back.
   */
  lemma TwoWinnersNeedARestore(env: Env, init: Disk, steps: seq<Step>, a: int, b: int) returns (k: nat)
    requires CollisionFree(env.etag)
    requires var w := RunSteps(env, Start(init), steps);
             && a in w.ops && w.ops[a].Returned? && b in w.ops && w.ops[b].Returned?
             && w.ops[a].answer == Done == w.ops[b].answer && w.ops[a].place < w.ops[b].place < |w.log|
             && Target(w.ops[a].call) == Target(w.ops[b].call)
             && Condition(w.ops[a].call) == Condition(w.ops[b].call) != ""
             && NoteAt(env, init, w.log, w.ops[a].place + 1, Target(w.ops[a].call))
                != NoteAt(env, init, w.log, w.ops[a].place, Target(w.ops[a].call))
    ensures var w := RunSteps(env, Start(init), steps);
            && w.ops[a].place < k < w.ops[b].place && Touches(w.log[k], Target(w.ops[a].call))
            && NoteAt(env, init, w.log, k + 1, Target(w.ops[a].call))
               == NoteAt(env, init, w.log, w.ops[a].place, Target(w.ops[a].call))
  {
    hide Exec, Replay, RunSteps, Underway, Effective, CollisionFree, Touches, Target, Condition;
    RunKeepsInv(env, init, steps);
    var w := RunSteps(env, Start(init), steps);
    assert OpFits(env, init, w, a) && OpFits(env, init, w, b);
    k := SecondClientLoses(env, init, w.log, w.ops[a].place, w.ops[b].place);
  }

  // ---------------------------------------------------------------- the rewriters that read before they lock

  /** The n-th call of the serial run leaves another note than it finds. */
  predicate Changes(env: Env, init: Disk, log: Log, n: nat, path: string)
    requires n < |log|
  {
    NoteAt(env, init, log, n + 1, path) != NoteAt(env, init, log, n, path)
  }

  /** Only a call on that note that was not refused does. */
  lemma ChangesNeedSuccess(env: Env, init: Disk, log: Log, n: nat, path: string)
    requires n < |log| && Changes(env, init, log, n, path)
    ensures Touches(log[n], path) && !Answer(env, init, log, n).Failed?
  {
    hide Exec, Touches;
    ReplayStep(env, init, log, n);
    CallsKeepOtherNotes(env, Replay(env, init, log[..n]), log[n], path);
  }

  lemma {:induction false} UnchangedNoteStays(env: Env, init: Disk, log: Log, path: string, i: nat, j: nat)
    requires i <= j <= |log| && (forall n | i <= n < j :: !Changes(env, init, log, n, path))
    ensures NoteAt(env, init, log, i, path) == NoteAt(env, init, log, j, path)
    decreases j - i
  {
    hide NoteAt;
    if i < j {
      assert !Changes(env, init, log, i, path);
      UnchangedNoteStays(env, init, log, path, i + 1, j);
    }
  }

  /**
   RenameTag and RewriteLinksOnMove read a note without the lock and put the edited text later. When no
   call between the two changes the note, the text they edited is the one they replace: read and put
   together are then one atomic edit. Refused calls, and calls on other notes, do not matter.
   */
  lemma RewriteIsAtomicIfUnchanged(env: Env, init: Disk, steps: seq<Step>, k: nat, id: int)
    ensures var w := RunSteps(env, Start(init), steps);
            k < |w.sights| && id in w.ops && w.ops[id].Returned? && w.ops[id].call.Put?
            && w.ops[id].call.path == w.sights[k].path
            && w.sights[k].after <= w.ops[id].place < |w.log|
            && (forall n | w.sights[k].after <= n < w.ops[id].place ::
                  !Changes(env, init, w.log, n, w.sights[k].path)) ==>
              w.sights[k].seen == NoteAt(env, init, w.log, w.ops[id].place, w.ops[id].call.path)
  {
    hide Exec, Replay, RunSteps, Underway, Changes;
    RunKeepsInv(env, init, steps);
    var w := RunSteps(env, Start(init), steps);
    if k < |w.sights| && id in w.ops && w.ops[id].Returned? {
      assert SightFits(env, init, w, w.sights[k]);
      assert OpFits(env, init, w, id);
      var path, after, place := w.sights[k].path, w.sights[k].after, w.ops[id].place;
      if after <= place < |w.log| && forall n | after <= n < place :: !Changes(env, init, w.log, n, path) {
        UnchangedNoteStays(env, init, w.log, path, after, place);
      }
    }
  }

  /**
   And every change left standing between the read and the put is overwritten: whatever the note holds when
   the put gets the lock, it holds the edited text afterwards, if the put is not refused for its size.
   */
  lemma PutOverwritesChanges(env: Env, init: Disk, steps: seq<Step>, id: int)
    ensures var w := RunSteps(env, Start(init), steps);
            id in w.ops && w.ops[id].Returned? && w.ops[id].call.Put? ==>
              && w.ops[id].place < |w.log|
              && w.ops[id].answer == (if |w.ops[id].call.content| > MAX_FILE_SIZE then Failed(TooLarge) else Done)
              && (w.ops[id].answer == Done ==>
                    NoteAt(env, init, w.log, w.ops[id].place + 1, w.ops[id].call.path)
                    == Some(w.ops[id].call.content))
  {
    hide Replay, RunSteps, Underway;
    RunKeepsInv(env, init, steps);
    var w := RunSteps(env, Start(init), steps);
    if id in w.ops && w.ops[id].Returned? && w.ops[id].call.Put? {
      assert OpFits(env, init, w, id);
      ReplayStep(env, init, w.log, w.ops[id].place);
    }
  }

  lemma RunSnoc(env: Env, w: World, steps: seq<Step>, step: Step)
    ensures RunSteps(env, w, steps + [step]) == Do(env, RunSteps(env, w, steps), step)
  {
    assert (steps + [step])[..|steps|] == steps;
  }

  lemma {:induction false} RunConcat(env: Env, w: World, first: seq<Step>, second: seq<Step>)
    ensures RunSteps(env, w, first + second) == RunSteps(env, RunSteps(env, w, first), second)
  {
    hide Do;
    if second == [] {
      assert first + second == first;
    } else {
      var n := |second| - 1;
      RunConcat(env, w, first, second[..n]);
      assert first + second == (first + second[..n]) + [second[n]];
      RunSnoc(env, w, first + second[..n], second[n]);
    }
  }

  /** An unconditional overwrite, or a put, that no other client interrupts. */
  lemma WriteAlone(env: Env, w: World, id: int, call: Call)
    requires id !in w.ops && w.holder.None?
    requires (call.WriteNote? && call.mode == "overwrite" && call.ifMatch == "")
             || (call.Put? && |call.content| <= MAX_FILE_SIZE)
    ensures RunSteps(env, w, [Begin(id, call), Acquire(id), Advance(id), Advance(id), Release(id)])
            == w.(disk := w.disk.(live := w.disk.live[call.path := call.content]),
                  ops := w.ops[id := Returned(call, |w.log|, |w.log|, Done)], log := w.log + [call])
  {
    hide RunSteps, Exec, Underway;
    var w1 := Do(env, w, Begin(id, call));
    var w2 := Do(env, w1, Acquire(id));
    assert w2.ops[id] == Holding(call, |w.log|, |w.log|, Entered) && w2.disk == w.disk;
    var w4 := Do(env, Do(env, w2, Advance(id)), Advance(id));
    assert w4.ops[id] == Holding(call, |w.log|, |w.log|, Settled(Done));
    assert w4.disk == w.disk.(live := w.disk.live[call.path := call.content]);
    var w5 := Do(env, w4, Release(id));
    assert w5.ops == w.ops[id := Returned(call, |w.log|, |w.log|, Done)];
    FiveSteps(env, w, Begin(id, call), Acquire(id), Advance(id), Advance(id), Release(id));
  }

  lemma FiveSteps(env: Env, w: World, a: Step, b: Step, c: Step, d: Step, e: Step)
    ensures RunSteps(env, w, [a, b, c, d, e]) == Do(env, Do(env, Do(env, Do(env, Do(env, w, a), b), c), d), e)
  {
    hide Do;
    RunSnoc(env, w, [], a);
    RunSnoc(env, w, [a], b);
    RunSnoc(env, w, [a, b], c);
    RunSnoc(env, w, [a, b, c], d);
    RunSnoc(env, w, [a, b, c, d], e);
    assert [a] == [] + [a] && [a, b] == [a] + [b] && [a, b, c] == [a, b] + [c];
    assert [a, b, c, d] == [a, b, c] + [d] && [a, b, c, d, e] == [a, b, c, d] + [e];
  }

  function AloneSteps(id: int, call: Call): seq<Step> {
    [Begin(id, call), Acquire(id), Advance(id), Advance(id), Release(id)]
  }

  /**
   Otherwise an update is lost: another client's write lands between the read and the put, both calls
   answer success, and nothing of the write is left.
   */
  lemma LostUpdate(env: Env, init: Disk, path: string, theirs: string, edited: string)
    requires path in init.live && |edited| <= MAX_FILE_SIZE
    ensures var write := WriteNote(path, theirs, "overwrite", "");
            var put := Put(path, edited);
            var w := RunSteps(env, Start(init), [Read(path)] + AloneSteps(1, write) + AloneSteps(2, put));
            && w.sights == [Sight(path, Some(init.live[path]), 0)]
            && 1 in w.ops && 2 in w.ops
            && w.ops[1] == Returned(write, 0, 0, Done) && w.ops[2] == Returned(put, 1, 1, Done)
            && w.disk == init.(live := init.live[path := edited])
  {
    hide Do, RunSteps;
    var write := WriteNote(path, theirs, "overwrite", "");
    var put := Put(path, edited);
    var w0 := Start(init);
    ReadAlone(env, init, path);
    var w1 := RunSteps(env, w0, [Read(path)]);
    WriteAlone(env, w1, 1, write);
    RunConcat(env, w0, [Read(path)], AloneSteps(1, write));
    var w2 := RunSteps(env, w1, AloneSteps(1, write));
    WriteAlone(env, w2, 2, put);
    RunConcat(env, w0, [Read(path)] + AloneSteps(1, write), AloneSteps(2, put));
    assert init.live[path := theirs][path := edited] == init.live[path := edited];
  }

  lemma ReadAlone(env: Env, init: Disk, path: string)
    requires path in init.live
    ensures RunSteps(env, Start(init), [Read(path)])
            == Start(init).(sights := [Sight(path, Some(init.live[path]), 0)])
  {
    RunSnoc(env, Start(init), [], Read(path));
  }
}
