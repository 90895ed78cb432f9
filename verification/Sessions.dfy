/**
 The session store of the HTTP transport (internal/httptransport/session.go): ids bound to the
 credential that generated them, with a time to live and a background sweep. The clock and the random
 ids are parameters.
 */
module Sessions {
  import opened Wrappers

  datatype Record = Record(credentialHash: string, expiresAt: int)

  type Table = map<string, Record>

  /** What a caller can tell apart: Validate's and Terminate's results. */
  datatype Response = Issued | Accepted | Expired | Unknown | Mismatch | Ended | Swept

  // ---------------------------------------------------------------- one call

  function Generated(t: Table, id: string, cred: string, expiresAt: int): Table {
    t[id := Record(cred, expiresAt)]
  }

  function Validated(t: Table, id: string, cred: string, now: int): (Table, Response) {
    if id !in t then (t, Unknown)
    else if t[id].credentialHash != cred then (t, Mismatch)
    else if now > t[id].expiresAt then (t - {id}, Expired)
    else (t, Accepted)
  }

  function Terminated(t: Table, id: string, cred: string): (Table, Response) {
    if id !in t then (t, Unknown)
    else if t[id].credentialHash != cred then (t, Mismatch)
    else (t - {id}, Ended)
  }

  function AfterSweep(t: Table, now: int): Table {
    map id | id in t && now <= t[id].expiresAt :: t[id]
  }

  class SessionStore {
    var sessions: Table
    const ttl: int

    constructor (ttl: int)
      ensures sessions == map[] && this.ttl == ttl
    {
      sessions := map[];
      this.ttl := ttl;
    }

    method Sweep(now: int)
      modifies this
      ensures sessions == AfterSweep(old(sessions), now)
    {
      var todo := sessions.Keys;
      while todo != {}
        invariant todo <= old(sessions).Keys
        invariant forall id :: id in sessions <==>
                    id in old(sessions) && (id in todo || now <= old(sessions)[id].expiresAt)
        invariant forall id | id in sessions :: sessions[id] == old(sessions)[id]
        decreases todo
      {
        var id :| id in todo;
        if now > sessions[id].expiresAt {
          sessions := sessions - {id};
        }
        todo := todo - {id};
      }
    }

    method Generate(id: string, credentialHash: string, now: int)
      modifies this
      ensures sessions == Generated(old(sessions), id, credentialHash, now + ttl)
    {
      sessions := sessions[id := Record(credentialHash, now + ttl)];
    }

    method Validate(id: string, credentialHash: string, now: int) returns (r: Response)
      modifies this
      ensures (sessions, r) == Validated(old(sessions), id, credentialHash, now)
    {
      if id !in sessions {
        return Unknown;
      }
      var rec := sessions[id];
      if rec.credentialHash != credentialHash {
        return Mismatch;
      }
      if now > rec.expiresAt {
        sessions := sessions - {id};
        return Expired;
      }
      return Accepted;
    }

    method Terminate(id: string, credentialHash: string) returns (r: Response)
      modifies this
      ensures (sessions, r) == Terminated(old(sessions), id, credentialHash)
    {
      if id !in sessions {
        return Unknown;
      }
      if sessions[id].credentialHash != credentialHash {
        return Mismatch;
      }
      sessions := sessions - {id};
      return Ended;
    }
  }

  // ---------------------------------------------------------------- runs

  datatype Call =
    | Generate(id: string, cred: string)
    | Validate(id: string, cred: string)
    | Terminate(id: string, cred: string)
    | Sweep(tick: int)

  /** A call and the time at which it holds the lock; a sweep works with the time of its tick. */
  datatype Event = Event(at: int, call: Call)

  function Step(t: Table, ttl: int, e: Event): (Table, Response) {
    match e.call
    case Generate(id, cred) => (Generated(t, id, cred, e.at + ttl), Issued)
    case Validate(id, cred) => Validated(t, id, cred, e.at)
    case Terminate(id, cred) => Terminated(t, id, cred)
    case Sweep(tick) => (AfterSweep(t, tick), Swept)
  }

  /** The table after a run that began with an empty one. */
  function Run(ttl: int, h: seq<Event>): Table {
    if h == [] then map[] else Step(Run(ttl, h[..|h| - 1]), ttl, h[|h| - 1]).0
  }

  predicate WasGenerated(h: seq<Event>, id: string) {
    exists i :: 0 <= i < |h| && h[i].call.Generate? && h[i].call.id == id
  }

  /** The clock does not run backwards, ticks do not lie in the future, and generated ids are new. */
  predicate Proper(h: seq<Event>) {
    h == []
    || var (before, e) := (h[..|h| - 1], h[|h| - 1]);
       && Proper(before)
       && (before != [] ==> before[|before| - 1].at <= e.at)
       && (e.call.Sweep? ==> e.call.tick <= e.at)
       && (e.call.Generate? ==> !WasGenerated(before, e.call.id))
  }

  /** When the credential's latest claim to the id ends: generated for it, not terminated by it since. */
  function ClaimEnd(ttl: int, h: seq<Event>, id: string, cred: string): Option<int> {
    if h == [] then
      None
    else
      var e := h[|h| - 1];
      if e.call == Generate(id, cred) then Some(e.at + ttl)
      else if e.call == Terminate(id, cred) then None
      else ClaimEnd(ttl, h[..|h| - 1], id, cred)
  }

  /** The same said at once: some event generated the id for the credential, none since terminated it. */
  predicate Holds(h: seq<Event>, i: nat, id: string, cred: string) {
    && i < |h|
    && h[i].call == Generate(id, cred)
    && forall j | i < j < |h| :: h[j].call != Terminate(id, cred)
  }

  lemma {:induction false} ClaimEndMeans(ttl: int, h: seq<Event>, id: string, cred: string, end: int)
    requires Proper(h)
    ensures ClaimEnd(ttl, h, id, cred) == Some(end)
            <==> exists i :: 0 <= i < |h| && Holds(h, i, id, cred) && end == h[i].at + ttl
  {
    if h != [] {
      var n := |h| - 1;
      var before, e := h[..n], h[n];
      ClaimEndMeans(ttl, before, id, cred, end);
      if e.call == Generate(id, cred) {
        assert Holds(h, n, id, cred);
        assert forall i | 0 <= i < n :: h[i] == before[i];
        assert forall i | 0 <= i < n :: !Holds(h, i, id, cred);
      } else if e.call != Terminate(id, cred) {
        forall i | 0 <= i < n ensures Holds(h, i, id, cred) == Holds(before, i, id, cred) {
          assert forall j | i < j < n :: before[j] == h[j];
        }
      } else {
        assert forall i | 0 <= i < n :: !Holds(h, i, id, cred);
      }
    }
  }

  lemma {:induction false} ClaimWasGenerated(ttl: int, h: seq<Event>, id: string, cred: string)
    requires ClaimEnd(ttl, h, id, cred).Some?
    ensures WasGenerated(h, id)
  {
    var n := |h| - 1;
    if h[n].call == Generate(id, cred) {
      assert h[n].call.Generate?;
    } else {
      ClaimWasGenerated(ttl, h[..n], id, cred);
      var i :| 0 <= i < n && h[..n][i].call.Generate? && h[..n][i].call.id == id;
      assert h[i].call.Generate?;
    }
  }

  /**
   What every run keeps: a record in the table is the live claim of its credential, and every claim
   that has not run out by now is in the table.
   */
  ghost predicate TableIsClaims(t: Table, ttl: int, h: seq<Event>) {
    && (forall id | id in t :: ClaimEnd(ttl, h, id, t[id].credentialHash) == Some(t[id].expiresAt))
    && (h != [] ==>
          forall id, cred :: ClaimEnd(ttl, h, id, cred).Some? && h[|h| - 1].at <= ClaimEnd(ttl, h, id, cred).value ==>
            id in t && t[id] == Record(cred, ClaimEnd(ttl, h, id, cred).value))
  }

  lemma {:induction false} RunKeepsClaims(ttl: int, h: seq<Event>)
    requires Proper(h)
    ensures TableIsClaims(Run(ttl, h), ttl, h)
  {
    if h != [] {
      var n := |h| - 1;
      var before, e := h[..n], h[n];
      RunKeepsClaims(ttl, before);
      StepKeepsClaims(Run(ttl, before), ttl, before, e);
      assert before + [e] == h;
    }
  }

  lemma StepKeepsClaims(t: Table, ttl: int, before: seq<Event>, e: Event)
    requires Proper(before + [e]) && TableIsClaims(t, ttl, before)
    ensures TableIsClaims(Step(t, ttl, e).0, ttl, before + [e])
  {
    var h := before + [e];
    assert h[..|h| - 1] == before;
    var t' := Step(t, ttl, e).0;
    forall id, cred | ClaimEnd(ttl, h, id, cred).Some? && e.at <= ClaimEnd(ttl, h, id, cred).value
      ensures id in t' && t'[id] == Record(cred, ClaimEnd(ttl, h, id, cred).value)
    {
      if e.call != Generate(id, cred) {
        ClaimWasGenerated(ttl, before, id, cred);
      }
    }
    forall id | id in t' ensures ClaimEnd(ttl, h, id, t'[id].credentialHash) == Some(t'[id].expiresAt) {
    }
  }

  /**
   Over every run, an id is accepted exactly when it was generated for this credential, has not been
   terminated by it since, and its time to live has not passed.
   */
  lemma AcceptedIffClaimed(ttl: int, h: seq<Event>, id: string, cred: string, at: int)
    requires Proper(h + [Event(at, Validate(id, cred))])
    ensures Validated(Run(ttl, h), id, cred, at).1 == Accepted
            <==> exists i :: 0 <= i < |h| && Holds(h, i, id, cred) && at <= h[i].at + ttl
  {
    var e := Event(at, Validate(id, cred));
    assert (h + [e])[..|h|] == h;
    RunKeepsClaims(ttl, h);
    var end := ClaimEnd(ttl, h, id, cred);
    if end.Some? {
      ClaimEndMeans(ttl, h, id, cred, end.value);
    }
    if i :| 0 <= i < |h| && Holds(h, i, id, cred) && at <= h[i].at + ttl {
      ClaimEndMeans(ttl, h, id, cred, h[i].at + ttl);
    }
  }

  // ---------------------------------------------------------------- sweeps are harmless

  function WithoutSweeps(h: seq<Event>): seq<Event> {
    if h == [] then []
    else WithoutSweeps(h[..|h| - 1]) + if h[|h| - 1].call.Sweep? then [] else [h[|h| - 1]]
  }

  lemma {:induction false} ClaimIgnoresSweeps(ttl: int, h: seq<Event>, id: string, cred: string)
    ensures ClaimEnd(ttl, WithoutSweeps(h), id, cred) == ClaimEnd(ttl, h, id, cred)
  {
    if h != [] {
      var n := |h| - 1;
      ClaimIgnoresSweeps(ttl, h[..n], id, cred);
      if !h[n].call.Sweep? {
        assert WithoutSweeps(h)[..|WithoutSweeps(h)| - 1] == WithoutSweeps(h[..n]);
      } else {
        assert WithoutSweeps(h) == WithoutSweeps(h[..n]);
      }
    }
  }

  lemma AcceptedIffClaimOpen(ttl: int, h: seq<Event>, id: string, cred: string, at: int)
    requires Proper(h + [Event(at, Validate(id, cred))])
    ensures Validated(Run(ttl, h), id, cred, at).1 == Accepted
            <==> ClaimEnd(ttl, h, id, cred).Some? && at <= ClaimEnd(ttl, h, id, cred).value
  {
    assert (h + [Event(at, Validate(id, cred))])[..|h|] == h;
    RunKeepsClaims(ttl, h);
  }

  /** Runs that differ only in their sweeps accept the same ids at the same times. */
  lemma SweepsChangeNoAcceptance(ttl: int, h: seq<Event>, h': seq<Event>, id: string, cred: string, at: int)
    requires WithoutSweeps(h) == WithoutSweeps(h')
    requires Proper(h + [Event(at, Validate(id, cred))]) && Proper(h' + [Event(at, Validate(id, cred))])
    ensures (Validated(Run(ttl, h), id, cred, at).1 == Accepted)
            == (Validated(Run(ttl, h'), id, cred, at).1 == Accepted)
  {
    AcceptedIffClaimOpen(ttl, h, id, cred, at);
    AcceptedIffClaimOpen(ttl, h', id, cred, at);
    ClaimIgnoresSweeps(ttl, h, id, cred);
    ClaimIgnoresSweeps(ttl, h', id, cred);
  }

  /**
   They do change the reason given for a refusal, exactly when the id was there and had expired by the time
   of the sweep: it is unknown then, be it the caller's own or another's.
   */
  lemma SweepChangesReasonIff(t: Table, tick: int, id: string, cred: string, at: int)
    requires tick <= at
    ensures var (answer, swept) := (Validated(t, id, cred, at).1, Validated(AfterSweep(t, tick), id, cred, at).1);
            && (swept == answer <==> id !in t || tick <= t[id].expiresAt)
            && (swept != answer ==>
                  swept == Unknown && answer == (if t[id].credentialHash == cred then Expired else Mismatch))
  {
    assert id in AfterSweep(t, tick) <==> id in t && tick <= t[id].expiresAt;
    assert id in t ==> Validated(t, id, cred, at).1 != Unknown;
  }

  /** Along a history: the answer after one more sweep. */
  lemma SweepChangesReasonInRun(ttl: int, h: seq<Event>, tick: int, id: string, cred: string, at: int)
    requires tick <= at
    ensures var t := Run(ttl, h);
            Validated(Run(ttl, h + [Event(tick, Sweep(tick))]), id, cred, at).1 == Validated(t, id, cred, at).1
            <==> id !in t || tick <= t[id].expiresAt
  {
    assert (h + [Event(tick, Sweep(tick))])[..|h|] == h;
    SweepChangesReasonIff(Run(ttl, h), tick, id, cred, at);
  }

  /** Both changes occur: for the credential of the id, and for another one. */
  lemma SweepChangesReason()
    ensures var h := [Event(0, Generate("id", "cred"))];
            var swept := h + [Event(8, Sweep(8))];
            && Validated(Run(5, h), "id", "cred", 9).1 == Expired
            && Validated(Run(5, h), "id", "other", 9).1 == Mismatch
            && Validated(Run(5, swept), "id", "cred", 9).1 == Unknown
            && Validated(Run(5, swept), "id", "other", 9).1 == Unknown
  {
    var h := [Event(0, Generate("id", "cred"))];
    assert h[..0] == [];
    assert Run(5, h) == map["id" := Record("cred", 5)];
    assert (h + [Event(8, Sweep(8))])[..1] == h;
    assert "other"[0] != "cred"[0];
  }
}
