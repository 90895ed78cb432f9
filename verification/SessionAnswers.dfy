/**
 What the answers of the session store say about the past (internal/httptransport/session.go:96-127): over every
 proper history each reason for a refusal, and each termination, is told from the calls that were made.
 */
module SessionAnswers {
  import opened Wrappers
  import opened Sessions

  /** Some credential generated the id, has not terminated it since, and its time has not run out. */
  ghost predicate LiveFor(ttl: int, h: seq<Event>, id: string, cred: string, at: int) {
    exists i :: 0 <= i < |h| && Holds(h, i, id, cred) && at <= h[i].at + ttl
  }

  ghost predicate ClaimedBy(h: seq<Event>, id: string, cred: string) {
    exists i :: 0 <= i < |h| && Holds(h, i, id, cred)
  }

  lemma ClaimedIff(ttl: int, h: seq<Event>, id: string, cred: string, at: int)
    requires Proper(h)
    ensures ClaimEnd(ttl, h, id, cred).Some? <==> ClaimedBy(h, id, cred)
    ensures ClaimEnd(ttl, h, id, cred).Some? && at <= ClaimEnd(ttl, h, id, cred).value
            <==> LiveFor(ttl, h, id, cred, at)
  {
    hide Proper, Holds, ClaimEnd;
    var end := ClaimEnd(ttl, h, id, cred);
    if end.Some? {
      ClaimEndMeans(ttl, h, id, cred, end.value);
    }
    forall i | 0 <= i < |h| && Holds(h, i, id, cred) ensures end == Some(h[i].at + ttl) {
      ClaimEndMeans(ttl, h, id, cred, h[i].at + ttl);
    }
  }

  lemma ProperBefore(h: seq<Event>, e: Event)
    requires Proper(h + [e])
    ensures Proper(h) && (h != [] ==> h[|h| - 1].at <= e.at)
  {
    assert (h + [e])[..|h|] == h;
  }

  /** A record in the table belongs to a credential that claimed the id; a live claim is in the table. */
  lemma TableTells(ttl: int, h: seq<Event>, e: Event, id: string)
    requires Proper(h + [e])
    ensures var t := Run(ttl, h);
            && (id in t ==> ClaimedBy(h, id, t[id].credentialHash)
                            && (LiveFor(ttl, h, id, t[id].credentialHash, e.at) <==> e.at <= t[id].expiresAt))
            && (forall cred | LiveFor(ttl, h, id, cred, e.at) :: id in t && t[id].credentialHash == cred)
  {
    hide Run, ClaimEnd, ClaimedBy, LiveFor, Proper;
    ProperBefore(h, e);
    RunKeepsClaims(ttl, h);
    var t := Run(ttl, h);
    if id in t {
      ClaimedIff(ttl, h, id, t[id].credentialHash, e.at);
    }
    forall cred | LiveFor(ttl, h, id, cred, e.at) ensures id in t && t[id].credentialHash == cred {
      ClaimedIff(ttl, h, id, cred, e.at);
      NothingIsLive(ttl, id, cred, e.at);
    }
  }

  lemma NothingIsLive(ttl: int, id: string, cred: string, at: int)
    ensures !LiveFor(ttl, [], id, cred, at)
  {
  }

  /**
   Each reason of Validate: expired is said only of the caller's own claim after its time, mismatch only where
   another credential claimed the id, and unknown only where no one's claim is live.
   */
  lemma RefusalsAreTrue(ttl: int, h: seq<Event>, id: string, cred: string, at: int)
    requires Proper(h + [Event(at, Validate(id, cred))])
    ensures var answer := Validated(Run(ttl, h), id, cred, at).1;
            && (answer == Accepted <==> LiveFor(ttl, h, id, cred, at))
            && (answer == Expired ==> ClaimedBy(h, id, cred) && !LiveFor(ttl, h, id, cred, at))
            && (answer == Mismatch ==> exists other :: other != cred && ClaimedBy(h, id, other))
            && (answer == Unknown ==> forall other :: !LiveFor(ttl, h, id, other, at))
            && answer in {Accepted, Expired, Mismatch, Unknown}
  {
    hide Run, ClaimedBy, LiveFor, Proper;
    TableTells(ttl, h, Event(at, Validate(id, cred)), id);
  }

  /**
   Terminate: whoever has a live claim ends it, ending is said to no one who never claimed the id, and the refusals
   mean what they mean for Validate; it does not ask whether the claim has expired.
   */
  lemma TerminationIsTrue(ttl: int, h: seq<Event>, id: string, cred: string, at: int)
    requires Proper(h + [Event(at, Terminate(id, cred))])
    ensures var answer := Terminated(Run(ttl, h), id, cred).1;
            && (LiveFor(ttl, h, id, cred, at) ==> answer == Ended)
            && (answer == Ended ==> ClaimedBy(h, id, cred))
            && (answer == Mismatch ==> exists other :: other != cred && ClaimedBy(h, id, other))
            && (answer == Unknown ==> forall other :: !LiveFor(ttl, h, id, other, at))
            && answer in {Ended, Mismatch, Unknown}
  {
    hide Run, ClaimedBy, LiveFor, Proper;
    TableTells(ttl, h, Event(at, Terminate(id, cred)), id);
  }

  /** A refused termination changes nothing; one that ended the session makes the id unknown to everyone. */
  lemma TerminationEnds(t: Table, id: string, cred: string, other: string, caller: string, now: int)
    ensures var (t', answer) := Terminated(t, id, cred);
            && (answer != Ended ==> t' == t)
            && (answer == Ended ==> Validated(t', id, caller, now).1 == Unknown)
            && (other != id ==> Validated(t', other, caller, now).1 == Validated(t, other, caller, now).1)
  {
  }

  /** And so does a refusal for expiry; the next answer is unknown. */
  lemma ExpiryIsSaidOnce(t: Table, id: string, cred: string, now: int, later: int)
    ensures var (t', answer) := Validated(t, id, cred, now);
            && (answer == Expired ==> Validated(t', id, cred, later).1 == Unknown)
            && (answer != Expired ==> t' == t)
  {
  }
}
