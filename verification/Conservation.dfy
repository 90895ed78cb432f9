/**
 Nothing written is lost by moving and soft-deleting (internal/vault/mutators.go:187-251, 321-363): over
 every run of moves, soft deletes and prunes, the contents of the notes and of the trash together stay
 the same multiset, except for trash entries a prune removed because their time stamp lay before its
 cutoff; and when that cutoff is the one the retention setting means.
 */
module Conservation {
  import opened Wrappers
  import opened Store
  import opened History
  import opened Retention

  // ---------------------------------------------------------------- the contents of a map, as a multiset

  ghost function Contents<K>(m: map<K, string>): multiset<string>
    decreases |m|
  {
    if m == map[] then multiset{}
    else
      var k :| k in m;
      assert |m - {k}| < |m| by { SmallerWithout(m, k); }
      multiset{m[k]} + Contents(m - {k})
  }

  lemma SmallerWithout<K>(m: map<K, string>, k: K)
    requires k in m
    ensures |m - {k}| < |m|
  {
    assert (m - {k}).Keys == m.Keys - {k};
    assert |m.Keys - {k}| < |m.Keys|;
  }

  lemma Unfold<K>(m: map<K, string>) returns (k: K)
    requires m != map[]
    ensures k in m && Contents(m) == multiset{m[k]} + Contents(m - {k})
  {
    k :| k in m && Contents(m) == multiset{m[k]} + Contents(m - {k});
  }

  lemma Exchange(a: string, b: string, x: multiset<string>)
    ensures multiset{a} + (multiset{b} + x) == multiset{b} + (multiset{a} + x)
  {
  }

  lemma WithoutBoth<K>(m: map<K, string>, j: K, k: K)
    ensures m - {j} - {k} == m - {k} - {j}
  {
  }

  /** Any entry can be taken out first. */
  lemma {:induction false} TakeOut<K>(m: map<K, string>, k: K)
    requires k in m
    ensures Contents(m) == multiset{m[k]} + Contents(m - {k})
    decreases |m|
  {
    hide Contents;
    var j := Unfold(m);
    if j != k {
      SmallerWithout(m, j);
      SmallerWithout(m, k);
      TakeOut(m - {j}, k);
      TakeOut(m - {k}, j);
      WithoutBoth(m, j, k);
      Exchange(m[j], m[k], Contents(m - {j} - {k}));
    }
  }

  lemma PutIn<K>(m: map<K, string>, k: K, c: string)
    requires k !in m
    ensures Contents(m[k := c]) == multiset{c} + Contents(m)
  {
    hide Contents;
    TakeOut(m[k := c], k);
    assert m[k := c] - {k} == m;
  }

  lemma PutOver<K>(m: map<K, string>, k: K, c: string)
    requires k in m
    ensures Contents(m[k := c]) == multiset{c} + Contents(m - {k})
  {
    hide Contents;
    TakeOut(m[k := c], k);
    assert m[k := c] - {k} == m - {k};
  }

  /** A map falls into the part whose keys are in a set and the rest. */
  function Within<K>(m: map<K, string>, keys: set<K>): map<K, string> {
    map k | k in m && k in keys :: m[k]
  }

  lemma TakeOutOfPart<K>(m: map<K, string>, keys: set<K>, k: K)
    requires k in m
    ensures k in keys ==>
              (k in Within(m, keys) && Within(m, keys)[k] == m[k]
               && Within(m, keys) - {k} == Within(m - {k}, keys) && m - {k} - keys == m - keys)
    ensures k !in keys ==>
              (k in m - keys && (m - keys)[k] == m[k]
               && Within(m, keys) == Within(m - {k}, keys) && m - {k} - keys == m - keys - {k})
  {
  }

  lemma EmptyParts<K>(keys: set<K>)
    ensures Contents<K>(map[]) == Contents(map[] - keys) + Contents(Within(map[], keys)) == multiset{}
  {
    var none: map<K, string> := map[];
    assert none - keys == none && Within(none, keys) == none;
  }

  lemma Reorder(a: string, x: multiset<string>, y: multiset<string>)
    ensures multiset{a} + (x + y) == (multiset{a} + x) + y
    ensures multiset{a} + (x + y) == x + (multiset{a} + y)
  {
  }

  lemma {:induction false} SplitContents<K>(m: map<K, string>, keys: set<K>)
    ensures Contents(m) == Contents(m - keys) + Contents(Within(m, keys))
    decreases |m|
  {
    hide Contents, Within;
    if m == map[] {
      EmptyParts(keys);
    } else {
      var k := Unfold(m);
      SmallerWithout(m, k);
      SplitContents(m - {k}, keys);
      TakeOutOfPart(m, keys, k);
      Reorder(m[k], Contents(m - {k} - keys), Contents(Within(m - {k}, keys)));
      if k in keys {
        TakeOut(Within(m, keys), k);
      } else {
        TakeOut(m - keys, k);
      }
    }
  }

  /** Everything the vault still holds: the notes and the trash. */
  ghost function Held(disk: Disk): multiset<string> {
    Contents(disk.live) + Contents(disk.trash)
  }

  // ---------------------------------------------------------------- one call

  predicate MovesOnly(call: Call) {
    call.MoveFile? || call.PruneTrash? || (call.DeleteNote? && !call.permanent)
  }

  /** The trash entries a prune removes. */
  function Expired(disk: Disk, call: Call): map<(int, string), string> {
    if call.PruneTrash? then
      Within(disk.trash, set k | k in disk.trash && k.0 in Outdated(call.entries, call.cutoff))
    else map[]
  }

  lemma MoveConserves(env: Env, disk: Disk, call: Call)
    requires call.MoveFile?
    ensures Held(Exec(env, disk, call).0) == Held(disk)
  {
    hide CheckedRead, Contents;
    if Exec(env, disk, call).1 == Done {
      TakeOut(disk.live, call.path);
      PutIn(disk.live - {call.path}, call.dst, disk.live[call.path]);
    }
  }

  /**
   A soft delete keeps everything exactly when its place in the trash is free or it moves nothing; an
   occupied place costs the content that was there.
   */
  lemma DeleteConservesIffPlaceFree(env: Env, disk: Disk, call: Call)
    requires call.DeleteNote? && !call.permanent
    ensures Held(Exec(env, disk, call).0) == Held(disk)
            <==> (call.stamp, call.path) !in disk.trash || Exec(env, disk, call).1 != Done
  {
    hide CheckedRead, Contents;
    var key := (call.stamp, call.path);
    if Exec(env, disk, call).1 == Done {
      var c := disk.live[call.path];
      TakeOut(disk.live, call.path);
      if key in disk.trash {
        TakeOut(disk.trash, key);
        PutOver(disk.trash, key, c);
        CountAfterOverwrite(c, disk.trash[key], Contents(disk.live - {call.path}), Contents(disk.trash - {key}));
      } else {
        PutIn(disk.trash, key, c);
      }
    }
  }

  lemma CountAfterOverwrite(moved: string, covered: string, live: multiset<string>, trash: multiset<string>)
    ensures (multiset{moved} + live) + (multiset{covered} + trash) != live + (multiset{moved} + trash)
  {
    assert |(multiset{moved} + live) + (multiset{covered} + trash)| == |live + (multiset{moved} + trash)| + 1;
  }

  lemma PruneLosesExpired(env: Env, disk: Disk, call: Call)
    requires call.PruneTrash?
    ensures Held(disk) == Held(Exec(env, disk, call).0) + Contents(Expired(disk, call))
  {
    hide Outdated, OutdatedCount, Contents;
    var stamps := Outdated(call.entries, call.cutoff);
    var keys := set k | k in disk.trash && k.0 in stamps;
    SplitContents(disk.trash, keys);
    assert disk.trash - keys == WithoutDirs(disk, stamps).trash;
  }

  // ---------------------------------------------------------------- every run

  /** Time stamps of soft deletes are new: no two deletes share one, and none is in the trash already. */
  predicate FreshStamps(init: Disk, log: Log) {
    && (forall i, j | 0 <= i < j < |log| && log[i].DeleteNote? && log[j].DeleteNote? :: log[i].stamp != log[j].stamp)
    && (forall i, k | 0 <= i < |log| && log[i].DeleteNote? && k in init.trash :: k.0 != log[i].stamp)
  }

  /** The contents of all trash entries the prunes of a run removed. */
  ghost function Lost(env: Env, init: Disk, log: Log): multiset<string> {
    if log == [] then multiset{}
    else
      var n := |log| - 1;
      Lost(env, init, log[..n]) + Contents(Expired(Replay(env, init, log[..n]), log[n]))
  }

  /** Whatever is in the trash was there at the start or has the stamp of a delete of the run. */
  lemma {:induction false} TrashStampsAreKnown(env: Env, init: Disk, log: Log, key: (int, string))
    requires forall i | 0 <= i < |log| :: MovesOnly(log[i])
    requires key in Replay(env, init, log).trash && key !in init.trash
    ensures exists i | 0 <= i < |log| :: log[i].DeleteNote? && log[i].stamp == key.0
  {
    hide CheckedRead, Outdated, OutdatedCount;
    if log != [] {
      var n := |log| - 1;
      if key in Replay(env, init, log[..n]).trash {
        TrashStampsAreKnown(env, init, log[..n], key);
        var i :| 0 <= i < n && log[..n][i].DeleteNote? && log[..n][i].stamp == key.0;
        assert log[i].DeleteNote? && log[i].stamp == key.0;
      } else {
        assert log[n].DeleteNote? && log[n].stamp == key.0;
      }
    }
  }

  lemma DeletePlaceIsFree(env: Env, init: Disk, log: Log)
    requires forall i | 0 <= i < |log| :: MovesOnly(log[i])
    requires FreshStamps(init, log) && log != [] && log[|log| - 1].DeleteNote?
    ensures (log[|log| - 1].stamp, log[|log| - 1].path) !in Replay(env, init, log[..|log| - 1]).trash
  {
    hide Exec;
    var n := |log| - 1;
    var key := (log[n].stamp, log[n].path);
    if key in Replay(env, init, log[..n]).trash && key !in init.trash {
      TrashStampsAreKnown(env, init, log[..n], key);
      assert false;
    }
  }

  /**
   Over every run of moves, soft deletes and prunes with fresh time stamps, what was held at the start is
   what is held at the end together with what the prunes removed: nothing is lost, nothing overwritten,
   nothing duplicated.
   */
  lemma {:induction false} NothingElseIsLost(env: Env, init: Disk, log: Log)
    requires forall i | 0 <= i < |log| :: MovesOnly(log[i])
    requires FreshStamps(init, log)
    ensures Held(init) == Held(Replay(env, init, log)) + Lost(env, init, log)
  {
    hide Exec, Held, Expired, Contents;
    if log == [] {
    } else {
      var n := |log| - 1;
      var before := Replay(env, init, log[..n]);
      NothingElseIsLost(env, init, log[..n]);
      match log[n] {
        case MoveFile(_, _, _) => MoveConserves(env, before, log[n]);
        case PruneTrash(_, _) => PruneLosesExpired(env, before, log[n]);
        case DeleteNote(path, _, stamp, _) =>
          DeleteConservesIffPlaceFree(env, before, log[n]);
          DeletePlaceIsFree(env, init, log);
        case _ =>
      }
      NoneExpires(before, log[n]);
    }
  }

  lemma NoneExpires(disk: Disk, call: Call)
    ensures !call.PruneTrash? ==> Contents(Expired(disk, call)) == multiset{}
  {
  }

  // ---------------------------------------------------------------- what a prune may remove

  /** A prune removes exactly the entries whose directory it listed and whose time stamp lies before its cutoff. */
  lemma PruneRemovesExactlyOutdated(env: Env, disk: Disk, call: Call, key: (int, string))
    requires call.PruneTrash? && key in disk.trash
    ensures key in Exec(env, disk, call).0.trash <==> !(Some(key.0) in call.entries && key.0 < call.cutoff)
    ensures key in Exec(env, disk, call).0.trash ==> Exec(env, disk, call).0.trash[key] == disk.trash[key]
    ensures Exec(env, disk, call).0.live == disk.live
  {
    hide OutdatedCount;
    if Some(key.0) in call.entries && key.0 < call.cutoff {
      var i :| 0 <= i < |call.entries| && call.entries[i] == Some(key.0);
      assert key.0 in Outdated(call.entries, call.cutoff);
    }
  }

  /** Some prune of the run, from call i on, listed the entry's directory and had a later cutoff. */
  predicate PrunedSince(log: Log, i: nat, stamp: int) {
    exists n | i <= n < |log| :: log[n].PruneTrash? && Some(stamp) in log[n].entries && stamp < log[n].cutoff
  }

  /** A note in the trash stays there, with its content, until such a prune comes; no other call reaches it. */
  lemma {:induction false} TrashEntryLasts(env: Env, init: Disk, log: Log, i: nat, key: (int, string))
    requires i <= |log| && key in Replay(env, init, log[..i]).trash
    requires forall n | i <= n < |log| && log[n].DeleteNote? :: log[n].stamp != key.0
    requires !PrunedSince(log, i, key.0)
    ensures key in Replay(env, init, log).trash
    ensures Replay(env, init, log).trash[key] == Replay(env, init, log[..i]).trash[key]
    decreases |log| - i
  {
    hide Exec;
    if i == |log| {
      assert log[..i] == log;
    } else {
      ReplayStep(env, init, log, i);
      var before := Replay(env, init, log[..i]);
      if log[i].PruneTrash? {
        PruneRemovesExactlyOutdated(env, before, log[i], key);
      } else {
        OtherCallsKeepTrash(env, before, log[i], key);
      }
      assert !PrunedSince(log, i + 1, key.0);
      TrashEntryLasts(env, init, log, i + 1, key);
    }
  }

  lemma OtherCallsKeepTrash(env: Env, disk: Disk, call: Call, key: (int, string))
    requires key in disk.trash && !call.PruneTrash?
    requires call.DeleteNote? ==> call.stamp != key.0
    ensures key in Exec(env, disk, call).0.trash && Exec(env, disk, call).0.trash[key] == disk.trash[key]
  {
    hide CheckedRead, EditText;
  }

  // ---------------------------------------------------------------- the retention setting

  /** The longest retention the first wrap-around turns into a cutoff in the future. */
  const MAX_FUTURE_DAYS := 213_503

  /** Just above the limit the cutoff lies in the future: a longer retention removes the whole trash. */
  lemma LongRetentionRemovesEverything(
      env: Env, disk: Disk, now: int, days: int, entries: seq<Option<int>>, key: (int, string))
    requires MAX_RETENTION_DAYS < days <= MAX_FUTURE_DAYS
    requires key in disk.trash && key.0 <= now && Some(key.0) in entries
    ensures now < Cutoff(now, days)
    ensures key !in Exec(env, disk, PruneTrash(entries, Cutoff(now, days))).0.trash
  {
    hide Exec;
    CutoffIsWrapped(now, days);
    PruneRemovesExactlyOutdated(env, disk, PruneTrash(entries, Cutoff(now, days)), key);
  }

  /** Above the limit every setting, however long, costs a note that is still inside its retention. */
  lemma LongRetentionLosesRetained(
      env: Env, disk: Disk, now: int, days: int, entries: seq<Option<int>>, path: string) returns (stamp: int)
    requires days > MAX_RETENTION_DAYS
    ensures InsideRetention(now, days, stamp)
    ensures (stamp, path) in disk.trash && Some(stamp) in entries ==>
              (stamp, path) !in Exec(env, disk, PruneTrash(entries, Cutoff(now, days))).0.trash
  {
    hide Exec, Cutoff;
    RetainsIff(now, days);
    stamp :| InsideRetention(now, days, stamp) && !(Cutoff(now, days) <= stamp);
    if (stamp, path) in disk.trash {
      PruneRemovesExactlyOutdated(env, disk, PruneTrash(entries, Cutoff(now, days)), (stamp, path));
    }
  }

  /** The prunes of a run use the retention setting at their own times. */
  predicate PrunesRetain(log: Log, times: seq<int>, days: int) {
    && |times| == |log|
    && forall n | 0 <= n < |log| && log[n].PruneTrash? :: log[n].cutoff == Cutoff(times[n], days)
  }

  /**
   What the setting promises, where it fits: a note deleted at key.0 is still in the trash, unchanged, after
   any run whose prunes all come before its retention has passed.
   */
  lemma DeletedNotesAreRetained(
      env: Env, init: Disk, log: Log, times: seq<int>, days: int, i: nat, key: (int, string))
    requires 0 <= days <= MAX_RETENTION_DAYS && PrunesRetain(log, times, days)
    requires i <= |log| && key in Replay(env, init, log[..i]).trash
    requires forall n | i <= n < |log| && log[n].DeleteNote? :: log[n].stamp != key.0
    requires forall n | i <= n < |log| && log[n].PruneTrash? :: times[n] <= key.0 + days * DAY
    ensures key in Replay(env, init, log).trash
    ensures Replay(env, init, log).trash[key] == Replay(env, init, log[..i]).trash[key]
  {
    hide Exec, Cutoff;
    forall n | i <= n < |log| && log[n].PruneTrash? ensures key.0 >= log[n].cutoff {
      CutoffIsExactIff(times[n], days);
    }
    TrashEntryLasts(env, init, log, i, key);
  }
}
