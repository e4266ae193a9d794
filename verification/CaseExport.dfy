/** The export of a case file: one job row, and any number of workers to which it is delivered. */
module CaseExport {
  import opened Wrappers

  datatype JobStatus = Queued | Processing | Retrying | Completed | Failed | Cancelled

  function AllowedTransitions(from: JobStatus): set<JobStatus> {
    match from
    case Queued => {Processing, Cancelled}
    case Processing => {Completed, Retrying, Failed, Cancelled}
    case Retrying => {Processing, Cancelled}
    case _ => {}
  }

  predicate CanTransition(from: JobStatus, to: JobStatus) {
    to in AllowedTransitions(from)
  }

  predicate Terminal(status: JobStatus) {
    status == Completed || status == Failed || status == Cancelled
  }

  predicate Claimable(status: JobStatus) {
    status == Queued || status == Retrying
  }

  datatype Job = Job(status: JobStatus, version: nat, attempts: nat)

  // What a claim or a cancellation read before its guarded update.
  datatype Seen = Seen(status: JobStatus, version: nat)

  predicate Matches(job: Job, seen: Seen) {
    job.status == seen.status && job.version == seen.version
  }

  function Moved(job: Job, to: JobStatus): Job {
    job.(status := to, version := job.version + 1)
  }

  function AfterClaim(job: Job, seen: Seen): Job {
    if Matches(job, seen) then Moved(job, Processing).(attempts := job.attempts + 1) else job
  }

  function AfterComplete(job: Job): Job {
    if job.status == Processing then Moved(job, Completed) else job
  }

  function AfterFail(job: Job, permanent: bool): Job {
    if job.status == Processing then Moved(job, if permanent then Failed else Retrying) else job
  }

  function AfterCancel(job: Job, seen: Seen): Job {
    if Matches(job, seen) && (Claimable(seen.status) || seen.status == Processing) then Moved(job, Cancelled) else job
  }

  predicate Permanent(unrecoverable: bool, attempt: nat, maxAttempts: nat) {
    unrecoverable || attempt >= maxAttempts
  }

  // ---------- The job row ----------

  // How the work between claim and completion went.
  datatype Work = Done | Raised(unrecoverable: bool)

  datatype Delivery = NotClaimed | Finished | Threw

  class JobRow {
    var status: JobStatus
    var version: nat
    var attempts: nat

    constructor ()
      ensures State() == Job(Queued, 0, 0)
    {
      status, version, attempts := Queued, 0, 0;
    }

    function State(): Job
      reads this
    {
      Job(status, version, attempts)
    }

    // The first half of claim: the row as it is read.
    method ReadForClaim() returns (seen: Option<Seen>)
      ensures seen == if status == Queued || status == Retrying then Some(Seen(status, version)) else None
    {
      if status != Queued && status != Retrying {
        return None;
      }
      seen := Some(Seen(status, version));
    }

    // The second half: the update guarded by what was read.
    method Claim(seen: Seen) returns (claimed: bool)
      modifies this
      ensures State() == AfterClaim(old(State()), seen)
      ensures claimed <==> old(status) == seen.status && old(version) == seen.version
      ensures if claimed then State() == Job(Processing, old(version) + 1, old(attempts) + 1)
              else State() == old(State())
    {
      if status != seen.status || version != seen.version {
        return false;
      }
      status, attempts, version := Processing, attempts + 1, version + 1;
      claimed := true;
    }

    // False stands for the error "lost an optimistic concurrency race".
    method Complete() returns (completed: bool)
      modifies this
      ensures State() == AfterComplete(old(State())) && (completed <==> old(status) == Processing)
      ensures if completed then State() == Job(Completed, old(version) + 1, attempts) else State() == old(State())
    {
      if status != Processing {
        return false;
      }
      status, version := Completed, version + 1;
      completed := true;
    }

    method Fail(permanent: bool)
      modifies this
      ensures State() == AfterFail(old(State()), permanent)
      ensures if old(status) != Processing then State() == old(State())
              else State() == Job(if permanent then Failed else Retrying, old(version) + 1, old(attempts))
    {
      if status == Processing {
        status, version := (if permanent then Failed else Retrying), version + 1;
      }
    }

    method Cancel(seen: Seen) returns (cancelled: bool)
      modifies this
      ensures State() == AfterCancel(old(State()), seen)
      ensures cancelled <==>
                && old(status) == seen.status && old(version) == seen.version
                && (seen.status == Queued || seen.status == Retrying || seen.status == Processing)
      ensures if cancelled then State() == Job(Cancelled, old(version) + 1, old(attempts)) else State() == old(State())
    {
      if (seen.status != Queued && seen.status != Retrying && seen.status != Processing)
         || status != seen.status || version != seen.version {
        return false;
      }
      status, version := Cancelled, version + 1;
      cancelled := true;
    }

    /** One delivery with no other request in between: a claimed job always leaves the claim, completed
        if the work was done, failed or waiting for another attempt if it raised an error. */
    method Process(attempt: nat, maxAttempts: nat, work: Work) returns (delivery: Delivery)
      modifies this
      ensures old(status) != Queued && old(status) != Retrying ==> delivery == NotClaimed && State() == old(State())
      ensures old(status) == Queued || old(status) == Retrying ==>
                && version == old(version) + 2 && attempts == old(attempts) + 1
                && match work
                   case Done => delivery == Finished && status == Completed
                   case Raised(unrecoverable) =>
                     delivery == Threw && status == if unrecoverable || attempt >= maxAttempts then Failed else Retrying
    {
      var seen := ReadForClaim();
      if seen.None? {
        return NotClaimed;
      }
      var claimed := Claim(seen.value);
      if !claimed {
        return NotClaimed;
      }
      var completed := false;
      if work.Done? {
        completed := Complete();
      }
      if completed {
        return Finished;
      }
      Fail(Permanent(work.Raised? && work.unrecoverable, attempt, maxAttempts));
      delivery := Threw;
    }
  }

  // ---------- Workers in parallel ----------

  // Where a worker stands in process: nowhere, between the read and the update of a claim, at work on
  // the claim that gave the row this version, or in the catch branch after it.
  datatype Phase = Idle | Read(seen: Seen) | Working(claim: nat) | Failing(claim: nat)

  type WorkerId = nat

  datatype System = System(job: Job, workers: map<WorkerId, Phase>)

  function PhaseOf(s: System, w: WorkerId): Phase {
    if w in s.workers then s.workers[w] else Idle
  }

  // Each step is one statement that reaches the database, or an event around it.
  datatype Step =
    | ReadRow(w: WorkerId)
    | ClaimRow(w: WorkerId)
    | Raise(w: WorkerId)
    | CompleteRow(w: WorkerId, acknowledged: bool)
    | FailRow(w: WorkerId, unrecoverable: bool, attempt: nat, maxAttempts: nat)
    | LoseFailure(w: WorkerId)
    | Crash(w: WorkerId)
    | CancelRow(seen: Seen)

  function Enter(s: System, w: WorkerId, phase: Phase): System {
    s.(workers := s.workers[w := phase])
  }

  // Steps that a worker cannot take where it stands change nothing.
  function Next(s: System, step: Step): System {
    match step
    case ReadRow(w) =>
      if PhaseOf(s, w).Idle? && Claimable(s.job.status) then Enter(s, w, Read(Seen(s.job.status, s.job.version))) else s
    case ClaimRow(w) =>
      if !PhaseOf(s, w).Read? then s
      else
        var seen := PhaseOf(s, w).seen;
        var phase := if Matches(s.job, seen) then Working(s.job.version + 1) else Idle;
        Enter(s, w, phase).(job := AfterClaim(s.job, seen))
    case Raise(w) =>
      if PhaseOf(s, w).Working? then Enter(s, w, Failing(PhaseOf(s, w).claim)) else s
    case CompleteRow(w, acknowledged) =>
      if !PhaseOf(s, w).Working? then s
      else
        var phase := if s.job.status == Processing && acknowledged then Idle else Failing(PhaseOf(s, w).claim);
        Enter(s, w, phase).(job := AfterComplete(s.job))
    case FailRow(w, unrecoverable, attempt, maxAttempts) =>
      if !PhaseOf(s, w).Failing? then s
      else Enter(s, w, Idle).(job := AfterFail(s.job, Permanent(unrecoverable, attempt, maxAttempts)))
    case LoseFailure(w) =>
      if PhaseOf(s, w).Failing? then Enter(s, w, Idle) else s
    case Crash(w) => Enter(s, w, Idle)
    case CancelRow(seen) => s.(job := AfterCancel(s.job, seen))
  }

  function Run(s: System, steps: seq<Step>): System {
    if steps == [] then s else Next(Run(s, steps[..|steps| - 1]), steps[|steps| - 1])
  }

  // A claim that wins the row.
  predicate ClaimSucceeds(s: System, step: Step) {
    step.ClaimRow? && PhaseOf(s, step.w).Read? && Matches(s.job, PhaseOf(s, step.w).seen)
  }

  // ---------- What every step keeps ----------

  // Between a successful claim and its end.
  predicate Active(s: System, w: WorkerId) {
    PhaseOf(s, w).Working? || PhaseOf(s, w).Failing?
  }

  function ClaimOf(s: System, w: WorkerId): nat
    requires Active(s, w)
  {
    PhaseOf(s, w).claim
  }

  ghost predicate AtMostOneActive(s: System) {
    forall w, v :: Active(s, w) && Active(s, v) ==> w == v
  }

  // An active worker's claim is the last change of a row still being processed.
  ghost predicate ActiveOwnsTheRow(s: System) {
    forall w :: Active(s, w) ==>
      !Claimable(s.job.status) && (s.job.status == Processing ==> s.job.version == ClaimOf(s, w))
  }

  ghost predicate ReadsAreClaimable(s: System) {
    forall w :: PhaseOf(s, w).Read? ==> Claimable(PhaseOf(s, w).seen.status)
  }

  ghost predicate Inv(s: System) {
    AtMostOneActive(s) && ActiveOwnsTheRow(s) && ReadsAreClaimable(s)
  }

  predicate Start(s: System) {
    s.job == Job(Queued, 0, 0) && s.workers == map[]
  }

  // Only the worker of a step changes its phase.
  lemma OthersStay(s: System, step: Step, w: WorkerId)
    requires !step.CancelRow? ==> step.w != w
    ensures PhaseOf(Next(s, step), w) == PhaseOf(s, w)
  {
  }

  // A worker becomes active only by winning a row that nobody holds.
  lemma BecomesActive(s: System, step: Step, w: WorkerId)
    requires Inv(s) && Active(Next(s, step), w)
    ensures Active(s, w) || (ClaimSucceeds(s, step) && step.w == w && forall v :: !Active(s, v))
  {
    if step.CancelRow? || step.w != w {
      OthersStay(s, step, w);
    }
  }

  lemma StepKeepsInv(s: System, step: Step)
    requires Inv(s)
    ensures Inv(Next(s, step))
  {
    var t := Next(s, step);
    forall w, v | Active(t, w) && Active(t, v) ensures w == v {
      BecomesActive(s, step, w);
      BecomesActive(s, step, v);
    }
    forall w | Active(t, w)
      ensures !Claimable(t.job.status) && (t.job.status == Processing ==> t.job.version == ClaimOf(t, w)) {
      BecomesActive(s, step, w);
      OwnerAfterStep(s, step, w);
    }
    forall w | PhaseOf(t, w).Read? ensures Claimable(PhaseOf(t, w).seen.status) {
      if step.CancelRow? || step.w != w {
        OthersStay(s, step, w);
      }
    }
  }

  lemma OwnerAfterStep(s: System, step: Step, w: WorkerId)
    requires Inv(s) && Active(Next(s, step), w)
    ensures var t := Next(s, step);
            !Claimable(t.job.status) && (t.job.status == Processing ==> t.job.version == ClaimOf(t, w))
  {
    BecomesActive(s, step, w);
    assert Active(s, w) && !step.CancelRow? && Active(s, step.w) ==> step.w == w;
    if step.CancelRow? || step.w != w {
      OthersStay(s, step, w);
    }
  }

  /** However claims, work, failures, crashes and cancellations interleave, at most one worker is between
      a successful claim and its end, and while the row is being processed it is that worker's claim. */
  lemma {:induction false} RunKeepsInv(s: System, steps: seq<Step>)
    requires Inv(s)
    ensures Inv(Run(s, steps))
  {
    if steps != [] {
      RunKeepsInv(s, steps[..|steps| - 1]);
      StepKeepsInv(Run(s, steps[..|steps| - 1]), steps[|steps| - 1]);
    }
  }

  lemma OneWorkerAtATime(s: System, steps: seq<Step>, w: WorkerId, v: WorkerId)
    requires Start(s) && Active(Run(s, steps), w) && Active(Run(s, steps), v)
    ensures w == v
  {
    RunKeepsInv(s, steps);
  }

  // ---------- Every step is an allowed transition ----------

  /** A step leaves the row alone or makes one allowed transition and raises the version by one;
      the attempts rise exactly with a claim that succeeds, and nothing leaves a terminal status. */
  lemma StepIsATransition(s: System, step: Step)
    requires Inv(s)
    ensures var before, after := s.job, Next(s, step).job;
            && (after == before || (CanTransition(before.status, after.status) && after.version == before.version + 1))
            && after.attempts == before.attempts + (if ClaimSucceeds(s, step) then 1 else 0)
            && (ClaimSucceeds(s, step) <==> after.status == Processing && after != before)
            && (Terminal(before.status) ==> after == before)
  {
    assert step.ClaimRow? && PhaseOf(s, step.w).Read? ==> Claimable(PhaseOf(s, step.w).seen.status);
  }

  function Changes(s: System, steps: seq<Step>): nat {
    if steps == [] then 0
    else
      var front := Run(s, steps[..|steps| - 1]);
      Changes(s, steps[..|steps| - 1]) +
      (if Next(front, steps[|steps| - 1]).job.status != front.job.status then 1 else 0)
  }

  function Claims(s: System, steps: seq<Step>): nat {
    if steps == [] then 0
    else
      var front := Run(s, steps[..|steps| - 1]);
      Claims(s, steps[..|steps| - 1]) + (if ClaimSucceeds(front, steps[|steps| - 1]) then 1 else 0)
  }

  /** Over a whole run the version counts the changes of status and the attempts count the claims that
      succeeded. */
  lemma {:induction false} CountersAreExact(s: System, steps: seq<Step>)
    requires Inv(s)
    ensures Run(s, steps).job.version == s.job.version + Changes(s, steps)
    ensures Run(s, steps).job.attempts == s.job.attempts + Claims(s, steps)
  {
    if steps != [] {
      var n := |steps| - 1;
      CountersAreExact(s, steps[..n]);
      RunKeepsInv(s, steps[..n]);
      StepIsATransition(Run(s, steps[..n]), steps[n]);
    }
  }

  /** A job that is completed, failed or cancelled stays as it is for the rest of the run. */
  lemma {:induction false} TerminalIsForever(s: System, steps: seq<Step>)
    requires Inv(s) && Terminal(s.job.status)
    ensures Run(s, steps).job == s.job
  {
    if steps != [] {
      TerminalIsForever(s, steps[..|steps| - 1]);
      RunKeepsInv(s, steps[..|steps| - 1]);
      StepIsATransition(Run(s, steps[..|steps| - 1]), steps[|steps| - 1]);
    }
  }

  // ---------- What a worker may rely on ----------

  /** Completing and failing act on a row exactly if it is still the worker's own claim: a row cancelled
      or settled meanwhile is left alone, and no other worker's claim is ever touched. */
  lemma SettlesOnlyItsOwnClaim(s: System, w: WorkerId)
    requires Inv(s) && Active(s, w)
    ensures AfterComplete(s.job) != s.job <==> s.job.status == Processing && s.job.version == ClaimOf(s, w)
    ensures forall permanent :: AfterFail(s.job, permanent) != s.job <==>
                                s.job.status == Processing && s.job.version == ClaimOf(s, w)
  {
  }

  /** Of two workers that read the same row, at most one claim succeeds. */
  lemma RacingClaims(s: System, w: WorkerId, v: WorkerId)
    requires w != v && PhaseOf(s, w).Read? && PhaseOf(s, v).Read? && PhaseOf(s, w) == PhaseOf(s, v)
    requires Matches(s.job, PhaseOf(s, w).seen)
    ensures var t := Next(Next(s, ClaimRow(w)), ClaimRow(v));
            Active(t, w) && !Active(t, v) && t.job == AfterClaim(s.job, PhaseOf(s, w).seen)
  {
    OthersStay(s, ClaimRow(w), v);
    OthersStay(Next(s, ClaimRow(w)), ClaimRow(v), w);
  }

  // A row in processing whose worker is gone.
  ghost predicate Abandoned(s: System) {
    s.job.status == Processing && forall w :: !Active(s, w)
  }

  // A worker that is gone: it crashed between its claim and the end, or could not record its failure.
  predicate Strands(s: System, step: Step) {
    (step.Crash? && Active(s, step.w)) || (step.LoseFailure? && PhaseOf(s, step.w).Failing?)
  }

  // Every worker but that of the step is as active as before.
  lemma OthersStayActive(s: System, step: Step, w: WorkerId)
    requires !step.CancelRow? ==> step.w != w
    ensures Active(Next(s, step), w) <==> Active(s, w)
  {
    OthersStay(s, step, w);
  }

  /** A row in processing loses its worker exactly by such a step. */
  lemma StrandedExactly(s: System, step: Step)
    requires Inv(s) && s.job.status == Processing && !Abandoned(s) && !step.CancelRow?
    ensures Abandoned(Next(s, step)) <==> Strands(s, step)
  {
    var t := Next(s, step);
    var owner :| Active(s, owner);
    assert Active(s, step.w) ==> step.w == owner;
    if step.w != owner {
      OthersStayActive(s, step, owner);
    } else {
      forall v ensures Active(t, v) ==> v == owner {
        if v != owner {
          OthersStayActive(s, step, v);
        }
      }
      assert Abandoned(t) ==> !Active(t, owner);
    }
  }

  /** A row without its worker moves exactly by a cancellation that read it as it is: no delivery can
      claim it, and no other worker's end touches it. */
  lemma AbandonedMovesExactly(s: System, step: Step)
    requires Inv(s) && Abandoned(s)
    ensures Next(s, step).job != s.job <==> step.CancelRow? && Matches(s.job, step.seen)
    ensures Next(s, step).job == s.job ==> Abandoned(Next(s, step))
  {
    var t := Next(s, step);
    if !step.CancelRow? {
      assert PhaseOf(s, step.w).Read? ==> Claimable(PhaseOf(s, step.w).seen.status);
      assert !Active(s, step.w);
    }
    forall w ensures !Active(t, w) {
      if Active(t, w) {
        BecomesActive(s, step, w);
      }
    }
  }

  /** It stays in processing, without a worker, until it is cancelled. */
  lemma {:induction false} AbandonedUntilCancelled(s: System, steps: seq<Step>)
    requires Inv(s) && Abandoned(s) && forall k :: 0 <= k < |steps| ==> !steps[k].CancelRow?
    ensures Abandoned(Run(s, steps)) && Run(s, steps).job == s.job
  {
    if steps != [] {
      var n := |steps| - 1;
      AbandonedUntilCancelled(s, steps[..n]);
      RunKeepsInv(s, steps[..n]);
      AbandonedMovesExactly(Run(s, steps[..n]), steps[n]);
    }
  }

  lemma RunOneMore(s: System, steps: seq<Step>, step: Step)
    ensures Run(s, steps + [step]) == Next(Run(s, steps), step)
  {
    assert (steps + [step])[..|steps|] == steps;
  }

  // The three steps by which a worker takes a row and does something more.
  lemma RunOfThree(s: System, a: Step, b: Step, c: Step)
    ensures Run(s, [a, b, c]) == Next(Next(Next(s, a), b), c)
  {
    RunOneMore(s, [], a);
    RunOneMore(s, [a], b);
    RunOneMore(s, [a, b], c);
    assert [] + [a] == [a] && [a] + [b] == [a, b] && [a, b] + [c] == [a, b, c];
  }

  /** Both ways lead there from a fresh job: a crash after the claim, and an error that is not recorded. */
  lemma RowsAreStranded(s: System)
    requires Start(s)
    ensures Abandoned(Run(s, [ReadRow(1), ClaimRow(1), Crash(1)]))
    ensures Abandoned(Run(s, [ReadRow(1), ClaimRow(1), Raise(1)] + [LoseFailure(1)]))
  {
    RunOfThree(s, ReadRow(1), ClaimRow(1), Crash(1));
    RunOfThree(s, ReadRow(1), ClaimRow(1), Raise(1));
    RunOneMore(s, [ReadRow(1), ClaimRow(1), Raise(1)], LoseFailure(1));
  }

  // ---------- The table of transitions ----------

  const FRESH := System(Job(Queued, 0, 0), map[])

  // After these steps from a fresh job, one more step takes the row from one status to another.
  ghost predicate Makes(steps: seq<Step>, step: Step, from: JobStatus, to: JobStatus) {
    from != to && Run(FRESH, steps).job.status == from && Next(Run(FRESH, steps), step).job.status == to
  }

  ghost predicate Occurs(from: JobStatus, to: JobStatus) {
    exists steps, step :: Makes(steps, step, from, to)
  }

  const CLAIMED := System(Job(Processing, 1, 1), map[1 := Working(1)])
  const RAISED := System(Job(Processing, 1, 1), map[1 := Failing(1)])
  const WAITING := System(Job(Retrying, 2, 1), map[1 := Idle])

  lemma Stages() returns (toClaim: seq<Step>, toRaise: seq<Step>, toWait: seq<Step>)
    ensures Run(FRESH, toClaim) == CLAIMED && Run(FRESH, toRaise) == RAISED && Run(FRESH, toWait) == WAITING
  {
    toClaim := StepsToClaim();
    toRaise := toClaim + [Raise(1)];
    RunOneMore(FRESH, toClaim, Raise(1));
    toWait := toRaise + [FailRow(1, false, 0, 1)];
    RunOneMore(FRESH, toRaise, FailRow(1, false, 0, 1));
  }

  lemma StepsToClaim() returns (steps: seq<Step>)
    ensures Run(FRESH, steps) == CLAIMED
  {
    RunOneMore(FRESH, [], ReadRow(1));
    steps := [] + [ReadRow(1)];
    RunOneMore(FRESH, steps, ClaimRow(1));
    steps := steps + [ClaimRow(1)];
  }

  lemma OccursFrom(steps: seq<Step>, s: System, step: Step, to: JobStatus)
    requires Run(FRESH, steps) == s && s.job.status != to && Next(s, step).job.status == to
    ensures Occurs(s.job.status, to)
  {
    assert Makes(steps, step, s.job.status, to);
  }

  lemma QueuedOccurs()
    ensures Occurs(Queued, Processing) && Occurs(Queued, Cancelled)
  {
    RunOneMore(FRESH, [], ReadRow(1));
    assert [] + [ReadRow(1)] == [ReadRow(1)];
    OccursFrom([ReadRow(1)], FRESH.(workers := map[1 := Read(Seen(Queued, 0))]), ClaimRow(1), Processing);
    OccursFrom([], FRESH, CancelRow(Seen(Queued, 0)), Cancelled);
  }

  lemma ClaimedOccurs(toClaim: seq<Step>)
    requires Run(FRESH, toClaim) == CLAIMED
    ensures Occurs(Processing, Completed) && Occurs(Processing, Cancelled)
  {
    OccursFrom(toClaim, CLAIMED, CompleteRow(1, true), Completed);
    OccursFrom(toClaim, CLAIMED, CancelRow(Seen(Processing, 1)), Cancelled);
  }

  lemma RaisedOccurs(toRaise: seq<Step>)
    requires Run(FRESH, toRaise) == RAISED
    ensures Occurs(Processing, Retrying) && Occurs(Processing, Failed)
  {
    OccursFrom(toRaise, RAISED, FailRow(1, false, 0, 1), Retrying);
    OccursFrom(toRaise, RAISED, FailRow(1, true, 0, 1), Failed);
  }

  lemma RetryingOccurs(toWait: seq<Step>)
    requires Run(FRESH, toWait) == WAITING
    ensures Occurs(Retrying, Processing) && Occurs(Retrying, Cancelled)
  {
    RunOneMore(FRESH, toWait, ReadRow(1));
    OccursFrom(toWait + [ReadRow(1)], WAITING.(workers := map[1 := Read(Seen(Retrying, 2))]), ClaimRow(1), Processing);
    OccursFrom(toWait, WAITING, CancelRow(Seen(Retrying, 2)), Cancelled);
  }

  lemma AllowedOccurs(from: JobStatus, to: JobStatus)
    requires CanTransition(from, to)
    ensures Occurs(from, to)
  {
    var toClaim, toRaise, toWait := Stages();
    QueuedOccurs();
    ClaimedOccurs(toClaim);
    RaisedOccurs(toRaise);
    RetryingOccurs(toWait);
  }

  /** The table allows exactly the changes of status that happen in some run of a fresh job. */
  lemma TransitionsAreExact(from: JobStatus, to: JobStatus)
    ensures CanTransition(from, to) <==> Occurs(from, to)
  {
    if CanTransition(from, to) {
      AllowedOccurs(from, to);
    } else if Occurs(from, to) {
      var steps, step :| Makes(steps, step, from, to);
      RunKeepsInv(FRESH, steps);
      StepIsATransition(Run(FRESH, steps), step);
    }
  }
}
