/**
 When completions do not cross epochs. A worker's unfinished claim is told apart from a later lease
 of the same worker only by lease generation and tick, and a re-activation starts both anew.
 */
module CronFences {

  import opened Values
  import opened Encoding
  import opened Cron
  import opened CronRepository
  import CronHistory
  import opened CronMachine
  import opened CronExactlyOnce

  // ---------------------------------------------------------------- fences

  /** Where the claim would still complete, the row is of the claimed epoch. */
  ghost predicate Fenced(c: Claimed, worker: Text, activations: map<CronName, Activation>) {
    Holds(activations, c.name, worker, c.activation.generation, c.activation.nextTick) ==>
      activations[c.name].revision == c.activation.revision
  }

  ghost predicate Fences(polls: map<Text, Poll>, activations: map<CronName, Activation>) {
    forall id, c :: id in polls && c in polls[id].rest ==> Fenced(c, polls[id].worker, activations)
  }

  lemma FencesKeepEpochs(m: Machine, ids: Ids, id: Text)
    requires Fences(m.polls, m.repo.activations)
    ensures !Crosses(m, ids, id)
  {
    if id in m.polls && m.polls[id].rest != [] {
      assert m.polls[id].rest[0] in m.polls[id].rest;
    }
  }

  /** A new lease of the row could be taken for the one that the claim was given in another epoch. */
  predicate Rejoins(c: Claimed, row: Activation) {
    c.activation.generation == row.generation + 1 && c.activation.nextTick == row.nextTick
      && c.activation.revision != row.revision
  }

  /** No unfinished claim of the worker is rejoined by a row that this claim would lease. */
  ghost predicate Unmixed(m: Machine, worker: Text, names: seq<CronName>, now: int) {
    forall id, c :: id in m.polls && m.polls[id].worker == worker && c in m.polls[id].rest ==>
      (c.name in names && c.name in m.repo.activations && Claimable(m.repo.activations[c.name], now) ==>
         !Rejoins(c, m.repo.activations[c.name]))
  }

  /** The worker has no poll under way. */
  ghost predicate Idle(m: Machine, worker: Text) {
    forall id :: id in m.polls ==> m.polls[id].worker != worker
  }

  /** Such a worker mixes nothing. */
  lemma IdleIsUnmixed(m: Machine, worker: Text, names: seq<CronName>, now: int)
    requires Idle(m, worker)
    ensures Unmixed(m, worker, names, now)
  {
  }

  /** A claim keeps all fences exactly when it is unmixed. */
  lemma ClaimFencesExact(m: Machine, id: Text, worker: Text, names: seq<CronName>, now: I64, until: I64)
    requires Fences(m.polls, m.repo.activations) && id !in m.polls && 0 <= now < until
    ensures var after := ClaimNext(m, id, worker, names, now, until);
      Fences(after.polls, after.repo.activations) <==> Unmixed(m, worker, names, now)
  {
    var after := ClaimNext(m, id, worker, names, now, until);
    CronHistory.ClaimedRows(m.repo.activations, names, worker, now, until);
    if Unmixed(m, worker, names, now) {
      forall other, c | other in after.polls && c in after.polls[other].rest
        ensures Fenced(c, after.polls[other].worker, after.repo.activations)
      {
        if other != id {
          assert Fenced(c, m.polls[other].worker, m.repo.activations);
        }
      }
    } else {
      var other, c :| other in m.polls && m.polls[other].worker == worker && c in m.polls[other].rest
        && c.name in names && c.name in m.repo.activations && Claimable(m.repo.activations[c.name], now)
        && Rejoins(c, m.repo.activations[c.name]);
      assert after.polls[other] == m.polls[other];
      assert !Fenced(c, worker, after.repo.activations);
    }
  }

  // ---------------------------------------------------------------- every other step keeps them

  lemma CommandKeepsFences(repo: Repo, after: Repo, polls: map<Text, Poll>)
    requires Fences(polls, repo.activations)
      && CronHistory.RowsFrom(repo.activations, after.activations, after.revision)
    ensures Fences(polls, after.activations)
  {
    forall id, c | id in polls && c in polls[id].rest ensures Fenced(c, polls[id].worker, after.activations) {
      assert Fenced(c, polls[id].worker, repo.activations);
    }
  }

  /** Polls only shrink and rows are only released. */
  ghost predicate Settles(m: Machine, after: Machine) {
    && (forall id :: id in after.polls ==>
          && id in m.polls && after.polls[id].worker == m.polls[id].worker
          && forall c :: c in after.polls[id].rest ==> c in m.polls[id].rest)
    && (forall name :: name in after.repo.activations ==>
          after.repo.activations[name].owner.None?
          || (name in m.repo.activations && after.repo.activations[name] == m.repo.activations[name]))
  }

  lemma SettlingKeepsFences(m: Machine, after: Machine)
    requires Fences(m.polls, m.repo.activations) && Settles(m, after)
    ensures Fences(after.polls, after.repo.activations)
  {
    forall id, c | id in after.polls && c in after.polls[id].rest
      ensures Fenced(c, after.polls[id].worker, after.repo.activations)
    {
      assert Fenced(c, m.polls[id].worker, m.repo.activations);
    }
  }

  lemma CompletionSettles(m: Machine, id: Text)
    ensures Settles(m, CompleteNext(m, id))
  {
    if id in m.polls && m.polls[id].rest != [] {
      assert forall c :: c in m.polls[id].rest[1..] ==> c in m.polls[id].rest;
    }
  }

  /** A trusted step that is no mixed claim. */
  ghost predicate Disciplined(m: Machine, step: CronMachine.Step, ids: Ids) {
    Trusted(step, ids) && (step.ClaimStep? ==> Unmixed(m, step.worker, step.names, step.now))
  }

  lemma StepKeepsFences(m: Machine, ids: Ids, step: CronMachine.Step)
    requires Fences(m.polls, m.repo.activations) && CronHistory.ValidRepo(m.repo) && Disciplined(m, step, ids)
    ensures var after := CronMachine.Next(m, ids, step); Fences(after.polls, after.repo.activations)
  {
    match step
    case CommandStep(operation, command, manifest, digest) =>
      CronHistory.CommandEffect(m.repo, operation, command, manifest, digest);
      var after := CronMachine.Next(m, ids, step);
      if after.repo != m.repo {
        CommandKeepsFences(m.repo, after.repo, m.polls);
      }
    case ClaimStep(id, worker, names, now, until) =>
      if id !in m.polls && 0 <= now < until {
        ClaimFencesExact(m, id, worker, names, now, until);
      }
    case CompleteStep(id) =>
      CompletionSettles(m, id);
      SettlingKeepsFences(m, CompleteNext(m, id));
    case _ => SettlingKeepsFences(m, CronMachine.Next(m, ids, step));
  }

  // ---------------------------------------------------------------- runs with unmixed claims

  /** Every claim of the run is unmixed. */
  ghost predicate ClaimsUnmixed(states: seq<Machine>, steps: seq<CronMachine.Step>)
    requires |states| == |steps| + 1
  {
    forall i :: 0 <= i < |steps| && steps[i].ClaimStep? ==>
      Unmixed(states[i], steps[i].worker, steps[i].names, steps[i].now)
  }

  lemma {:induction false} FencesAt(states: seq<Machine>, steps: seq<CronMachine.Step>, ids: Ids, n: nat)
    requires IsTrustedRun(states, steps, ids) && ClaimsUnmixed(states, steps) && Distinguishes(ids) && n < |states|
    ensures forall i :: 0 <= i <= n ==> Fences(states[i].polls, states[i].repo.activations)
  {
    if n > 0 {
      FencesAt(states, steps, ids, n - 1);
      forall i | 0 <= i < n && steps[i].CompleteStep? ensures !Crosses(states[i], ids, steps[i].id) {
        FencesKeepEpochs(states[i], ids, steps[i].id);
      }
      InvUpTo(states, steps, ids, n - 1);
      assert StepAt(states, steps, ids, n - 1);
      StepKeepsFences(states[n - 1], ids, steps[n - 1]);
    }
  }

  /** With unmixed claims no completion ever crosses, so everything proved of runs holds. */
  lemma UnmixedRunsAreRuns(states: seq<Machine>, steps: seq<CronMachine.Step>, ids: Ids)
    requires IsTrustedRun(states, steps, ids) && ClaimsUnmixed(states, steps) && Distinguishes(ids)
    ensures IsRun(states, steps, ids)
  {
    FencesAt(states, steps, ids, |steps|);
    forall i | 0 <= i < |steps| && steps[i].CompleteStep? ensures !Crosses(states[i], ids, steps[i].id) {
      FencesKeepEpochs(states[i], ids, steps[i].id);
    }
  }

  /** Every claim of the run is made by a worker without a poll under way. */
  ghost predicate OnePollPerWorker(states: seq<Machine>, steps: seq<CronMachine.Step>)
    requires |states| == |steps| + 1
  {
    forall i :: 0 <= i < |steps| && steps[i].ClaimStep? ==> Idle(states[i], steps[i].worker)
  }

  /** One poll at a time per worker id is enough for everything proved of runs. */
  lemma IdleRunsAreRuns(states: seq<Machine>, steps: seq<CronMachine.Step>, ids: Ids)
    requires IsTrustedRun(states, steps, ids) && OnePollPerWorker(states, steps) && Distinguishes(ids)
    ensures IsRun(states, steps, ids)
  {
    forall i | 0 <= i < |steps| && steps[i].ClaimStep?
      ensures Unmixed(states[i], steps[i].worker, steps[i].names, steps[i].now)
    {
      IdleIsUnmixed(states[i], steps[i].worker, steps[i].names, steps[i].now);
    }
    UnmixedRunsAreRuns(states, steps, ids);
  }

  // ---------------------------------------------------------------- a mixed claim skips a tick

  /** A commit stores the tick of its claim and no other. */
  lemma CommitStoresOnly(m: Machine, ids: Ids, epochs: Epochs, id: Text, clock: int, t: TickId)
    requires Distinguishes(ids) && Inv(m, ids, epochs) && id in m.polls && m.polls[id].rest != []
    requires t != TickOf(m.polls[id].rest[0]) && !Stored(m.env, ids, t)
    ensures !Stored(CommitNext(m, ids, id, clock).env, ids, t)
  {
    var c := m.polls[id].rest[0];
    assert PollTracked(m.polls[id], epochs);
    assert ClaimTracked(c, epochs) && ValidName(TickOf(c).name);
    TickCommits(m.env, ids, TickOf(c), epochs, clock);
    assert ids.invocation(t) != ids.invocation(TickOf(c));
  }

  /** The first claim of a poll would be rejoined by the row of its name, whose own tick is not stored. */
  ghost predicate Rejoinable(m: Machine, ids: Ids, stale: Text, names: seq<CronName>, now: int) {
    && stale in m.polls && m.polls[stale].rest != []
    && var c := m.polls[stale].rest[0];
       && c.activation.generation < REVISION_LIMIT && c.activation.schedule.next(c.activation.nextTick).Some?
       && c.name in names && c.name in m.repo.activations && Claimable(m.repo.activations[c.name], now)
       && Rejoins(c, m.repo.activations[c.name]) && !Stored(m.env, ids, OwnTick(m, c.name))
  }

  /** The tick that the row of a name is at. */
  function OwnTick(m: Machine, name: CronName): TickId
    requires name in m.repo.activations
  {
    TickId(name, m.repo.activations[name].revision, m.repo.activations[name].nextTick)
  }

  lemma RejoinedClaimCrosses(m: Machine, ids: Ids, epochs: Epochs, stale: Text, id: Text, names: seq<CronName>,
      now: I64, until: I64, clock: int)
    requires Distinguishes(ids) && Inv(m, ids, epochs) && id !in m.polls && 0 <= now < until
    requires Rejoinable(m, ids, stale, names, now)
    ensures var c := m.polls[stale].rest[0];
      var committed := CommitNext(ClaimNext(m, id, m.polls[stale].worker, names, now, until), ids, stale, clock);
      && Inv(committed, ids, epochs) && Crosses(committed, ids, stale) && committed.polls[stale].rest[0] == c
      && c.name in committed.repo.activations && OwnTick(committed, c.name) == OwnTick(m, c.name)
      && !Stored(committed.env, ids, OwnTick(m, c.name))
  {
    var p := m.polls[stale];
    var c := p.rest[0];
    var claimed := ClaimNext(m, id, p.worker, names, now, until);
    CronHistory.ClaimedRows(m.repo.activations, names, p.worker, now, until);
    ClaimKeeps(m, ids, epochs, id, p.worker, names, now, until);
    assert claimed.polls[stale] == p && OwnTick(claimed, c.name) == OwnTick(m, c.name);
    CommitKeeps(claimed, ids, epochs, stale, clock);
    CommitStoresOnly(claimed, ids, epochs, stale, clock, OwnTick(m, c.name));
  }

  /**
   From every state that the protocol reaches: when a claim is mixed with the first claim of another
   poll of its worker, and the row's own tick is not stored, then the commit and the completion of
   that poll move the row's cursor past a tick that was never stored.
   */
  lemma MixedClaimSkipsTick(m: Machine, ids: Ids, epochs: Epochs, stale: Text, id: Text, names: seq<CronName>, now: I64,
      until: I64, clock: int)
    requires Distinguishes(ids) && Inv(m, ids, epochs) && id !in m.polls && 0 <= now < until
    requires Rejoinable(m, ids, stale, names, now)
    ensures !Unmixed(m, m.polls[stale].worker, names, now)
    ensures var own := OwnTick(m, m.polls[stale].rest[0].name);
      var committed := CommitNext(ClaimNext(m, id, m.polls[stale].worker, names, now, until), ids, stale, clock);
      var after := CompleteNext(committed, stale);
      var observed := Observe(epochs, after.repo.activations);
      && EpochOf(own) in observed && !Stored(after.env, ids, own)
      && var e := observed[EpochOf(own)]; e.schedule.occurs(own.tick) && e.first <= own.tick < e.cursor
  {
    var c := m.polls[stale].rest[0];
    assert c in m.polls[stale].rest;
    RejoinedClaimCrosses(m, ids, epochs, stale, id, names, now, until, clock);
    var committed := CommitNext(ClaimNext(m, id, m.polls[stale].worker, names, now, until), ids, stale, clock);
    CrossingMoves(committed, ids, epochs, stale);
    assert ValidEpoch(epochs[EpochOf(OwnTick(m, c.name))]);
  }
}
