/** Scheduled invocations over whole histories: leases, fencing and terminal states. */
module Schedules {

  import opened Order
  import opened Values
  import opened Encoding
  import opened Batch
  import opened Store

  /** A lease is present exactly while running; every claim counts as one attempt. */
  predicate RowValid(s: Schedule) {
    && (s.status.Running? <==> s.owner.Some?)
    && (s.owner.Some? <==> s.until.Some?)
    && s.attempts == s.generation
  }

  predicate RowsValid(schedules: map<Sized, Schedule>) {
    forall id :: id in schedules ==> RowValid(schedules[id])
  }

  predicate Terminated(s: Schedule) {
    s.status.Succeeded? || s.status.Failed? || s.status.Cancelled?
  }

  // ---------------------------------------------------------------- what a step does to one row

  lemma {:induction false} InsertKeepsRows(schedules: map<Sized, Schedule>, ss: seq<ScheduleInsert>, sequence: nat)
    ensures var r := InsertSchedules(schedules, ss, sequence);
            r.Ok? ==>
              && (forall id :: id in schedules ==> id in r.value && r.value[id] == schedules[id])
              && (forall id :: id in r.value && id !in schedules ==>
                exists i :: 0 <= i < |ss| && ss[i].id == id && r.value[id] == NewSchedule(ss[i], sequence))
  {
    if ss != [] {
      var before := InsertSchedules(schedules, ss[..|ss| - 1], sequence);
      InsertKeepsRows(schedules, ss[..|ss| - 1], sequence);
      var r := InsertSchedules(schedules, ss, sequence);
      if r.Ok? {
        forall id | id in r.value && id !in schedules
          ensures exists i :: 0 <= i < |ss| && ss[i].id == id && r.value[id] == NewSchedule(ss[i], sequence)
        {
          if id == ss[|ss| - 1].id {
            assert r.value[id] == NewSchedule(ss[|ss| - 1], sequence);
          } else {
            assert id in before.value;
            var i :| 0 <= i < |ss| - 1 && ss[..|ss| - 1][i].id == id
              && before.value[id] == NewSchedule(ss[..|ss| - 1][i], sequence);
            assert ss[i].id == id;
          }
        }
      }
    }
  }

  lemma CommitRows(env: Env, b: Batch, digest: seq<int>, now: int)
    requires Commit(env, b, digest, now).Ok?
    ensures var after := Commit(env, b, digest, now).value.env.schedules;
            && (forall id :: id in env.schedules ==> id in after && after[id] == env.schedules[id])
            && (forall id :: id in after && id !in env.schedules ==>
                  exists i :: 0 <= i < |b.schedules| && b.schedules[i].id == id
                    && after[id] == NewSchedule(b.schedules[i], env.sequence + 1))
  {
    InsertKeepsRows(env.schedules, b.schedules, env.sequence + 1);
  }

  /** The claimed ids are exactly the due, unlocked rows of least time and id. */
  lemma ClaimedAreDue(env: Env, now: int, limit: nat, locked: set<Sized>, id: Sized)
    requires id in IdsAt(First(DueRanks(env.schedules, now, locked), limit))
    ensures id in env.schedules && id !in locked && Due(env.schedules[id], now)
  {
    var ranks := DueRanks(env.schedules, now, locked);
    var first := First(ranks, limit);
    var i :| 0 <= i < |first| && IdsAt(first)[i] == id;
    assert first[i] in first;
    assert first[i] in ranks;
    var other: Sized :| other in env.schedules && other !in locked && Due(env.schedules[other], now)
      && first[i] == [env.schedules[other].executeAt] + other;
    assert first[i][1..] == other;
  }

  /** How a step may change one existing row; rows never vanish. */
  ghost predicate RowStep(env: Env, step: Step, before: Schedule, after: Schedule, id: Sized) {
    || after == before
    || (step.LeaseStep? && Due(before, step.now) && after == Leased(before, step.worker, step.until))
    || (step.CompleteStep? && step.id == id && HoldsLease(env, id, step.worker, step.generation)
        && after == Completed(before, step.completion))
    || (step.CancelStep? && before.status.Pending? && after == before.(status := Cancelled))
  }

  lemma RowSteps(env: Env, step: Step, id: Sized)
    requires id in env.schedules
    ensures id in Next(env, step).schedules
    ensures RowStep(env, step, env.schedules[id], Next(env, step).schedules[id], id)
  {
    match step
    case CommitStep(b, digest, now) =>
      if Commit(env, b, digest, now).Ok? {
        CommitRows(env, b, digest, now);
      }
    case LeaseStep(worker, now, until, limit, locked) =>
      if id in IdsAt(First(DueRanks(env.schedules, now, locked), limit)) {
        ClaimedAreDue(env, now, limit, locked, id);
      }
    case ClaimStep(_, _, _, _, _) =>
    case AckStep(_, _, _, _) =>
    case CompleteStep(_, _, _, _) =>
    case CancelStep(_) =>
  }

  /** A row that appears is a pending one of the committed batch. */
  lemma NewRows(env: Env, step: Step, id: Sized)
    requires id !in env.schedules && id in Next(env, step).schedules
    ensures step.CommitStep?
    ensures exists i :: 0 <= i < |step.batch.schedules| && step.batch.schedules[i].id == id
                        && Next(env, step).schedules[id] == NewSchedule(step.batch.schedules[i], env.sequence + 1)
  {
    match step
    case CommitStep(b, digest, now) =>
      if Commit(env, b, digest, now).Ok? {
        CommitRows(env, b, digest, now);
      }
    case LeaseStep(_, _, _, _, _) =>
    case ClaimStep(_, _, _, _, _) =>
    case AckStep(_, _, _, _) =>
    case CompleteStep(_, _, _, _) =>
    case CancelStep(_) =>
  }

  // ---------------------------------------------------------------- histories

  lemma StepKeepsRowsValid(env: Env, step: Step)
    requires RowsValid(env.schedules)
    ensures RowsValid(Next(env, step).schedules)
  {
    forall id | id in Next(env, step).schedules ensures RowValid(Next(env, step).schedules[id]) {
      if id in env.schedules {
        RowSteps(env, step, id);
      } else {
        NewRows(env, step, id);
      }
    }
  }

  /** In every reachable state every row is valid. */
  lemma {:induction false} HistoryRowsValid(states: seq<Env>, steps: seq<Step>, n: nat)
    requires IsHistory(states, steps) && n < |states|
    ensures RowsValid(states[n].schedules)
  {
    if n > 0 {
      HistoryRowsValid(states, steps, n - 1);
      assert StepAt(states, steps, n - 1);
      StepKeepsRowsValid(states[n - 1], steps[n - 1]);
    }
  }

  /** A succeeded, failed or cancelled invocation never changes again. */
  lemma {:induction false} TerminalForever(states: seq<Env>, steps: seq<Step>, i: nat, j: nat, id: Sized)
    requires IsRun(states, steps) && i <= j < |states|
    requires id in states[i].schedules && Terminated(states[i].schedules[id])
    ensures id in states[j].schedules && states[j].schedules[id] == states[i].schedules[id]
    decreases j - i
  {
    if i < j {
      TerminalForever(states, steps, i, j - 1, id);
      assert StepAt(states, steps, j - 1);
      RowSteps(states[j - 1], steps[j - 1], id);
    }
  }

  /** The generation never falls, so a superseded lease can never complete. */
  lemma {:induction false} GenerationsGrow(states: seq<Env>, steps: seq<Step>, i: nat, j: nat, id: Sized)
    requires IsRun(states, steps) && i <= j < |states| && id in states[i].schedules
    ensures id in states[j].schedules && states[i].schedules[id].generation <= states[j].schedules[id].generation
    decreases j - i
  {
    if i < j {
      GenerationsGrow(states, steps, i, j - 1, id);
      assert StepAt(states, steps, j - 1);
      RowSteps(states[j - 1], steps[j - 1], id);
    }
  }

  lemma SupersededNeverCompletes(states: seq<Env>, steps: seq<Step>, i: nat, j: nat, id: Sized, worker: Text,
      generation: nat, c: Completion)
    requires IsRun(states, steps) && i <= j < |states|
    requires id in states[i].schedules && generation < states[i].schedules[id].generation
    ensures CompleteScheduled(states[j], id, worker, generation, c).Err?
  {
    GenerationsGrow(states, steps, i, j, id);
  }

  /** Claims between two moments read a clock that never goes back. */
  ghost predicate ClockNonDecreasing(steps: seq<Step>, i: nat, j: nat) {
    forall a, b :: i <= a <= b <= j < |steps| && steps[a].LeaseStep? && steps[b].LeaseStep? ==>
      steps[a].now <= steps[b].now
  }

  /** While a row stays running and the clock has not reached its deadline, nobody else gets it. */
  lemma {:induction false} LeaseIsExclusive(states: seq<Env>, steps: seq<Step>, i: nat, j: nat, id: Sized)
    requires IsHistory(states, steps) && i <= j < |steps|
    requires forall k :: i <= k <= j ==> id in states[k].schedules && states[k].schedules[id].status.Running?
    requires ClockNonDecreasing(steps, i, j)
    requires steps[j].LeaseStep? && states[i].schedules[id].until.Some?
      && steps[j].now < states[i].schedules[id].until.value
    ensures id in states[j + 1].schedules && states[j + 1].schedules[id] == states[i].schedules[id]
  {
    LeaseUnchanged(states, steps, i, j, j, id);
    assert StepAt(states, steps, j);
    RowSteps(states[j], steps[j], id);
  }

  lemma {:induction false} LeaseUnchanged(states: seq<Env>, steps: seq<Step>, i: nat, k: nat, j: nat, id: Sized)
    requires IsRun(states, steps) && i <= k <= j < |steps|
    requires forall m :: i <= m <= j ==> id in states[m].schedules && states[m].schedules[id].status.Running?
    requires ClockNonDecreasing(steps, i, j)
    requires steps[j].LeaseStep? && states[i].schedules[id].until.Some?
      && steps[j].now < states[i].schedules[id].until.value
    ensures states[k].schedules[id] == states[i].schedules[id]
    decreases k
  {
    if i < k {
      LeaseUnchanged(states, steps, i, k - 1, j, id);
      assert StepAt(states, steps, k - 1);
      RowSteps(states[k - 1], steps[k - 1], id);
      assert states[k].schedules[id].status.Running?;
    }
  }

  /** The listed ids are the earliest due ones; they are all of them unless the limit is reached. */
  lemma EarliestIds(env: Env, now: int, limit: nat, locked: set<Sized>, id: Sized, ids: seq<Text>)
    requires ids == IdsAt(First(DueRanks(env.schedules, now, locked), limit)) && id !in ids
    requires id in env.schedules && id !in locked && Due(env.schedules[id], now)
    ensures |ids| == limit
    ensures forall other: Sized :: other in ids && other in env.schedules ==>
      Less([env.schedules[other].executeAt] + other, [env.schedules[id].executeAt] + id)
  {
    var ranks := DueRanks(env.schedules, now, locked);
    var first := First(ranks, limit);
    FirstIsOrdered(ranks, limit);
    FirstIsAll(ranks, limit);
    var rank := [env.schedules[id].executeAt] + id;
    assert rank in ranks && rank[1..] == id;
    assert forall i :: 0 <= i < |first| ==> first[i] in first && first[i] != [];
    assert forall i :: 0 <= i < |first| ==> ids[i] == first[i][1..] && ids[i] in ids;
    forall other: Sized | other in ids && other in env.schedules
      ensures Less([env.schedules[other].executeAt] + other, rank)
    {
      var i :| 0 <= i < |first| && ids[i] == other;
      var source: Sized :| source in env.schedules && source !in locked && Due(env.schedules[source], now)
        && first[i] == [env.schedules[source].executeAt] + source;
      assert first[i][1..] == source;
    }
  }

  /** A claim takes the earliest due rows, up to the limit, and hands out each as it leased it. */
  lemma ClaimTakesEarliest(env: Env, worker: Text, now: int, until: int, limit: nat, locked: set<Sized>, id: Sized)
    requires ClaimDue(env, worker, now, until, limit, locked).Ok?
    requires id in env.schedules && id !in locked && Due(env.schedules[id], now)
    ensures var r := ClaimDue(env, worker, now, until, limit, locked).value;
            var leased := Leased(env.schedules[id], worker, until);
            if ScheduleClaim(id, leased) in r.value then r.env.schedules[id] == leased
            else
              && r.env.schedules[id] == env.schedules[id] && |r.value| == limit
              && forall c :: c in r.value ==>
                   Less([c.record.executeAt] + c.id, [env.schedules[id].executeAt] + id)
  {
    var ids := IdsAt(First(DueRanks(env.schedules, now, locked), limit));
    var r := ClaimDue(env, worker, now, until, limit, locked).value;
    DueIdsExist(env.schedules, now, limit, locked);
    assert forall i :: 0 <= i < |ids| ==> ids[i] in ids && ids[i] in r.env.schedules;
    assert forall i :: 0 <= i < |ids| ==> r.value[i] == ClaimOf(ids[i], r.env.schedules);
    if id in ids {
      var i :| 0 <= i < |ids| && ids[i] == id;
      assert r.value[i] == ScheduleClaim(id, Leased(env.schedules[id], worker, until));
    } else {
      EarliestIds(env, now, limit, locked, id, ids);
      forall c | c in r.value ensures Less([c.record.executeAt] + c.id, [env.schedules[id].executeAt] + id) {
        var i :| 0 <= i < |ids| && r.value[i] == c;
        assert ids[i] in ids && c.id == ids[i];
      }
    }
  }
}
