/**
 What claims, completions and cancellations of scheduled invocations leave in a row, and what a
 retry means over whole runs.
 */
module ScheduleEffects {

  import opened Order
  import opened Values
  import opened Encoding
  import opened Store
  import opened Schedules

  /** The same invocation: what it runs, where it came from, and how it is named. */
  predicate SameInvocation(a: Schedule, b: Schedule) {
    && a.pinnedCode == b.pinnedCode && a.target == b.target && a.args == b.args
    && a.idempotencyKey == b.idempotencyKey && a.sequence == b.sequence
  }

  predicate OthersSame(before: map<Sized, Schedule>, after: map<Sized, Schedule>, id: Sized) {
    && before.Keys == after.Keys
    && forall other :: other in before && other != id ==> after[other] == before[other]
  }

  // ---------------------------------------------------------------- completions

  /** An error code is a nonempty text of at most 64 capital letters, digits and underscores. */
  predicate CodeFits(code: Text) {
    && 0 < |code| <= 64
    && forall i :: 0 <= i < |code| ==> code[i] == 95 || 65 <= code[i] <= 90 || 48 <= code[i] <= 57
  }

  /** What the completion says became of the invocation. */
  predicate Recorded(before: Schedule, after: Schedule, c: Completion) {
    && SameInvocation(before, after) && after.attempts == before.attempts && after.generation == before.generation
    && after.owner.None? && after.until.None?
    && match c
       case Success => after.status.Succeeded? && after.lastError.None? && after.executeAt == before.executeAt
       case Failure(code) =>
         after.status.Failed? && after.lastError == Some(code) && after.executeAt == before.executeAt
       case Retry(time, code) => after.status.Pending? && after.lastError == Some(code) && after.executeAt == time
  }

  /** Exactly the worker of the current lease completes, and the row then says how. */
  lemma CompletionIsRecorded(env: Env, id: Sized, worker: Text, generation: nat, c: Completion)
    ensures var r := CompleteScheduled(env, id, worker, generation, c);
      && (r.Ok? <==>
            && (c.Success? || CodeFits(c.errorCode)) && 0 < generation <= I64_MAX
            && id in env.schedules && env.schedules[id].status.Running?
            && env.schedules[id].owner == Some(worker) && env.schedules[id].generation == generation)
      && (r.Ok? ==>
            && id in r.value.schedules && Recorded(env.schedules[id], r.value.schedules[id], c)
            && OthersSame(env.schedules, r.value.schedules, id) && r.value == env.(schedules := r.value.schedules))
  {
  }

  // ---------------------------------------------------------------- cancellations

  /** The four answers of a cancellation, by the state before and after. */
  lemma CancellationIsAnswered(env: Env, id: Sized)
    ensures var r := CancelScheduled(env, id);
      && (r.Ok? <==> id in env.schedules)
      && (r.Ok? ==>
            var before, after := env.schedules[id], r.value.env.schedules;
            && (r.value.value.NowCancelled? <==> before.status.Pending?)
            && (r.value.value.StillRunning? <==> before.status.Running?)
            && (r.value.value.AlreadyCancelled? <==> before.status.Cancelled?)
            && (r.value.value.Terminal? <==> before.status.Succeeded? || before.status.Failed?)
            && id in after && OthersSame(env.schedules, after, id) && r.value.env == env.(schedules := after)
            && after[id] == if before.status.Pending? then before.(status := Cancelled) else before)
  {
  }

  // ---------------------------------------------------------------- claims

  /** The time has come and nobody holds a live lease. */
  predicate Ripe(s: Schedule, now: int) {
    && s.executeAt <= now
    && (s.status.Pending? || (s.status.Running? && s.until.Some? && s.until.value <= now))
  }

  /** The next attempt, leased to the worker. */
  predicate Attempted(before: Schedule, after: Schedule, worker: Text, until: int) {
    && SameInvocation(before, after) && after.executeAt == before.executeAt && after.lastError == before.lastError
    && after.status.Running? && after.owner == Some(worker) && after.until == Some(until)
    && after.attempts == before.attempts + 1 && after.generation == before.generation + 1
  }

  /** A claim touches no row before its time or under a live lease, and leases what it hands out. */
  lemma ClaimLeases(env: Env, worker: Text, now: int, until: int, limit: nat, locked: set<Sized>, id: Sized)
    requires ClaimDue(env, worker, now, until, limit, locked).Ok? && id in env.schedules
    ensures var r := ClaimDue(env, worker, now, until, limit, locked).value;
      && id in r.env.schedules && r.env.schedules.Keys == env.schedules.Keys
      && r.env == env.(schedules := r.env.schedules)
      && if ScheduleClaim(id, r.env.schedules[id]) in r.value
         then id !in locked && Ripe(env.schedules[id], now)
              && Attempted(env.schedules[id], r.env.schedules[id], worker, until)
         else r.env.schedules[id] == env.schedules[id]
  {
    var ids := IdsAt(First(DueRanks(env.schedules, now, locked), limit));
    var r := ClaimDue(env, worker, now, until, limit, locked).value;
    DueIdsExist(env.schedules, now, limit, locked);
    assert forall i :: 0 <= i < |ids| ==> ids[i] in ids && ids[i] in r.env.schedules;
    assert forall i :: 0 <= i < |ids| ==> r.value[i] == ClaimOf(ids[i], r.env.schedules);
    if id in ids {
      ClaimedAreDue(env, now, limit, locked, id);
      var i :| 0 <= i < |ids| && ids[i] == id;
      assert r.value[i] == ScheduleClaim(id, r.env.schedules[id]);
    } else {
      forall i | 0 <= i < |r.value| ensures r.value[i].id != id {
        assert ids[i] in ids;
      }
    }
  }

  predicate Sooner(a: Schedule, id: Sized, b: Schedule, other: Sized) {
    a.executeAt < b.executeAt || (a.executeAt == b.executeAt && Less(id, other))
  }

  /** A ripe row that nobody else locks is handed out, unless the claim is full of sooner ones. */
  lemma RipeIsClaimed(env: Env, worker: Text, now: int, until: int, limit: nat, locked: set<Sized>, id: Sized)
    requires ClaimDue(env, worker, now, until, limit, locked).Ok?
    requires id in env.schedules && id !in locked && Ripe(env.schedules[id], now)
    ensures var claims := ClaimDue(env, worker, now, until, limit, locked).value.value;
      || (exists c :: c in claims && c.id == id)
      || (|claims| == limit && forall c :: c in claims ==> Sooner(c.record, c.id, env.schedules[id], id))
  {
    ClaimTakesEarliest(env, worker, now, until, limit, locked, id);
    var claims := ClaimDue(env, worker, now, until, limit, locked).value.value;
    forall c | c in claims && Less([c.record.executeAt] + c.id, [env.schedules[id].executeAt] + id)
      ensures Sooner(c.record, c.id, env.schedules[id], id)
    {
      assert ([c.record.executeAt] + c.id)[1..] == c.id && ([env.schedules[id].executeAt] + id)[1..] == id;
    }
  }

  // ---------------------------------------------------------------- a retry waits

  /** The steps of one row, in these terms. */
  lemma RowStepsMean(env: Env, step: Step, id: Sized)
    requires id in env.schedules && env.schedules[id].status.Pending?
    ensures id in Next(env, step).schedules
    ensures var before, after := env.schedules[id], Next(env, step).schedules[id];
      || after == before
      || (step.LeaseStep? && before.executeAt <= step.now)
      || (step.CancelStep? && step.id == id && after == before.(status := Cancelled))
  {
    RowSteps(env, step, id);
    if step.CancelStep? {
      CancellationIsAnswered(env, step.id);
    }
  }

  /** Until a claim reads a clock that has reached the time of the retry, the row waits or is cancelled. */
  lemma {:induction false} RetryWaits(states: seq<Env>, steps: seq<Step>, m: nat, n: nat, id: Sized, time: int)
    requires IsRun(states, steps) && m <= n <= |steps|
    requires id in states[m].schedules && states[m].schedules[id].status.Pending?
    requires states[m].schedules[id].executeAt == time
    requires forall k :: m <= k < n && steps[k].LeaseStep? ==> steps[k].now < time
    ensures id in states[n].schedules
    ensures var row := states[n].schedules[id];
      row == states[m].schedules[id] || row == states[m].schedules[id].(status := Cancelled)
    decreases n - m
  {
    if m < n {
      RetryWaits(states, steps, m, n - 1, id, time);
      assert StepAt(states, steps, n - 1);
      if states[n - 1].schedules[id].status.Pending? {
        RowStepsMean(states[n - 1], steps[n - 1], id);
      } else {
        TerminalForever(states, steps, n - 1, n, id);
      }
    }
  }

  /** A completion with a retry makes the row wait for its time. */
  lemma RetriedRowWaits(states: seq<Env>, steps: seq<Step>, m: nat, n: nat)
    requires IsRun(states, steps) && m < n <= |steps| && steps[m].CompleteStep? && steps[m].completion.Retry?
    requires CompleteScheduled(states[m], steps[m].id, steps[m].worker, steps[m].generation, steps[m].completion).Ok?
    requires forall k :: m < k < n && steps[k].LeaseStep? ==> steps[k].now < steps[m].completion.executeAt
    ensures steps[m].id in states[n].schedules && !states[n].schedules[steps[m].id].status.Running?
  {
    assert StepAt(states, steps, m);
    CompletionIsRecorded(states[m], steps[m].id, steps[m].worker, steps[m].generation, steps[m].completion);
    RetryWaits(states, steps, m + 1, n, steps[m].id, steps[m].completion.executeAt);
  }
}
