/** Exactly-once materialization over every interleaving of the two-store protocol. */
module CronExactlyOnce {

  import opened Values
  import opened Encoding
  import opened Store
  import Journal
  import Schedules
  import opened CronSchedule
  import opened Cron
  import opened CronRepository
  import CronHistory
  import opened CronMachine

  // ---------------------------------------------------------------- the store side

  /** The tick belongs to a known epoch, between its first tick and its cursor. */
  ghost predicate InEpoch(t: TickId, epochs: Epochs) {
    && EpochOf(t) in epochs
    && var e := epochs[EpochOf(t)]; e.schedule.occurs(t.tick) && e.first <= t.tick <= e.cursor
  }

  ghost predicate RowOf(row: Schedule, ids: Ids, t: TickId, e: Epoch) {
    row.pinnedCode == ids.code(e.code) && row.target == e.target && row.args == e.args
      && row.idempotencyKey == Some(ids.key(t))
  }

  ghost predicate Journaled(operation: Operation, ids: Ids, t: TickId, e: Epoch) {
    operation.results == [] && operation.digest == ids.digest(TickBatch(ids, t, e.code, e.target, e.args))
  }

  /**
   A stored tick is in its epoch, carries the epoch's code, target and arguments, and is journaled as
   its own operation.
   */
  ghost predicate StoredExactly(env: Env, ids: Ids, t: TickId, epochs: Epochs) {
    && InEpoch(t, epochs)
    && Stored(env, ids, t)
    && RowOf(env.schedules[ids.invocation(t)], ids, t, epochs[EpochOf(t)])
    && ids.operation(t) in env.journal
    && Journaled(env.journal[ids.operation(t)], ids, t, epochs[EpochOf(t)])
  }

  ghost predicate TickTracked(env: Env, ids: Ids, t: TickId, epochs: Epochs) {
    && (Stored(env, ids, t) || ids.operation(t) in env.journal ==> StoredExactly(env, ids, t, epochs))
    && (InEpoch(t, epochs) && t.tick < epochs[EpochOf(t)].cursor ==> Stored(env, ids, t))
  }

  ghost predicate TicksTracked(env: Env, ids: Ids, epochs: Epochs) {
    forall t :: TickTracked(env, ids, t, epochs)
  }

  ghost predicate HasKey(schedules: map<Sized, Schedule>, id: Sized, key: Sized) {
    id in schedules && schedules[id].idempotencyKey == Some(key)
  }

  /** No other row carries the key of a tick. */
  ghost predicate KeysOwned(schedules: map<Sized, Schedule>, ids: Ids) {
    forall id: Sized, t: TickId :: ValidName(t.name) && HasKey(schedules, id, ids.key(t)) ==> id == ids.invocation(t)
  }

  /** An operation recorded a tick and nothing else changed. */
  ghost predicate Records(env: Env, after: Env, ids: Ids, t: TickId, e: Epoch) {
    && after.scope == env.scope
    && after.schedules.Keys == env.schedules.Keys + {ids.invocation(t)}
    && after.journal.Keys == env.journal.Keys + {ids.operation(t)}
    && (forall id :: id in env.schedules ==> after.schedules[id] == env.schedules[id])
    && (forall id :: id in env.journal ==> after.journal[id] == env.journal[id])
    && RowOf(after.schedules[ids.invocation(t)], ids, t, e)
    && Journaled(after.journal[ids.operation(t)], ids, t, e)
  }

  lemma FreshTick(env: Env, ids: Ids, t: TickId, e: Epoch, clock: int)
    requires env.scope == ids.scope && ids.operation(t) !in env.journal && ids.invocation(t) !in env.schedules
    requires forall id :: id in env.schedules ==> env.schedules[id].idempotencyKey != Some(ids.key(t))
    ensures var batch := TickBatch(ids, t, e.code, e.target, e.args);
      var r := Commit(env, batch, ids.digest(batch), clock);
      r.Ok? && !r.value.value.replayed && Records(env, r.value.env, ids, t, e)
  {
    var insert := TickInsert(ids, t, e.code, e.target, e.args);
    var batch := TickBatch(ids, t, e.code, e.target, e.args);
    assert InsertSchedules(env.schedules, [insert], env.sequence + 1) ==
      Ok(env.schedules[insert.id := NewSchedule(insert, env.sequence + 1)]) by {
      assert [insert][..0] == [];
      assert InsertSchedules(env.schedules, [], env.sequence + 1) == Ok(env.schedules);
      assert ScheduleFree(env.schedules, insert);
    }
  }

  lemma RecordKeepsTick(env: Env, after: Env, ids: Ids, t: TickId, epochs: Epochs, other: TickId)
    requires Distinguishes(ids) && TickTracked(env, ids, other, epochs)
    requires InEpoch(t, epochs) && Records(env, after, ids, t, epochs[EpochOf(t)])
    ensures TickTracked(after, ids, other, epochs)
  {
    if other != t {
      assert ids.invocation(other) != ids.invocation(t) && ids.operation(other) != ids.operation(t);
    }
  }

  lemma RecordKeepsTicks(env: Env, after: Env, ids: Ids, t: TickId, epochs: Epochs)
    requires Distinguishes(ids) && TicksTracked(env, ids, epochs)
    requires InEpoch(t, epochs) && Records(env, after, ids, t, epochs[EpochOf(t)])
    ensures TicksTracked(after, ids, epochs)
  {
    forall other ensures TickTracked(after, ids, other, epochs) {
      assert TickTracked(env, ids, other, epochs);
      RecordKeepsTick(env, after, ids, t, epochs, other);
    }
  }

  lemma RecordKeepsKeys(env: Env, after: Env, ids: Ids, t: TickId, e: Epoch)
    requires Distinguishes(ids) && KeysOwned(env.schedules, ids) && ValidName(t.name) && Records(env, after, ids, t, e)
    ensures KeysOwned(after.schedules, ids)
  {
    forall id: Sized, other: TickId | ValidName(other.name) && HasKey(after.schedules, id, ids.key(other))
      ensures id == ids.invocation(other)
    {
      if id in env.schedules {
        assert HasKey(env.schedules, id, ids.key(other));
      } else {
        assert ids.key(other) == ids.key(t);
      }
    }
  }

  /** The commit of a tick always succeeds: it records the tick, or replays it when it is already stored. */
  lemma TickCommits(env: Env, ids: Ids, t: TickId, epochs: Epochs, clock: int)
    requires Distinguishes(ids) && env.scope == ids.scope && TicksTracked(env, ids, epochs)
      && KeysOwned(env.schedules, ids)
    requires InEpoch(t, epochs) && ValidName(t.name)
    ensures var e := epochs[EpochOf(t)];
      var batch := TickBatch(ids, t, e.code, e.target, e.args);
      var r := Commit(env, batch, ids.digest(batch), clock);
      && r.Ok? && (r.value.value.replayed <==> Stored(env, ids, t))
      && (if r.value.value.replayed then r.value.env == env else Records(env, r.value.env, ids, t, e))
  {
    var e := epochs[EpochOf(t)];
    assert TickTracked(env, ids, t, epochs);
    if ids.operation(t) !in env.journal {
      forall id | id in env.schedules ensures env.schedules[id].idempotencyKey != Some(ids.key(t)) {
        assert HasKey(env.schedules, id, ids.key(t)) ==> id == ids.invocation(t);
      }
      FreshTick(env, ids, t, e, clock);
    }
  }

  // ---------------------------------------------------------------- other users of the store

  /** Nothing about the tick changed but the progress of its execution. */
  ghost predicate SameTick(env: Env, after: Env, ids: Ids, t: TickId) {
    && (ids.invocation(t) in after.schedules <==> ids.invocation(t) in env.schedules)
    && (ids.invocation(t) in env.schedules ==>
      SameIdentity(env.schedules[ids.invocation(t)], after.schedules[ids.invocation(t)]))
    && (ids.operation(t) in after.journal <==> ids.operation(t) in env.journal)
    && (ids.operation(t) in env.journal ==> after.journal[ids.operation(t)] == env.journal[ids.operation(t)])
  }

  predicate SameIdentity(before: Schedule, after: Schedule) {
    && after.pinnedCode == before.pinnedCode && after.target == before.target && after.args == before.args
    && after.idempotencyKey == before.idempotencyKey
  }

  lemma SameIdentityAfter(env: Env, step: Store.Step, id: Sized)
    requires id in env.schedules
    ensures id in Store.Next(env, step).schedules
      && SameIdentity(env.schedules[id], Store.Next(env, step).schedules[id])
  {
    Schedules.RowSteps(env, step, id);
  }

  lemma NewOperation(env: Env, step: Store.Step, id: Text)
    requires id !in env.journal && id in Store.Next(env, step).journal
    ensures step.CommitStep? && step.batch.operationId == id
  {
    StepFrame(env, step);
    if step.CommitStep? && Commit(env, step.batch, step.digest, step.now).Ok? {
      Journal.CommitJournal(env, step.batch, step.digest, step.now);
    }
  }

  lemma ForeignKeepsTick(env: Env, ids: Ids, step: Store.Step, t: TickId)
    requires Foreign(step, ids)
    ensures SameTick(env, Store.Next(env, step), ids, t)
  {
    var after := Store.Next(env, step);
    if ids.invocation(t) in env.schedules {
      SameIdentityAfter(env, step, ids.invocation(t));
    } else if ids.invocation(t) in after.schedules {
      Schedules.NewRows(env, step, ids.invocation(t));
    }
    Journal.StepKeepsEntries(env, step);
    if ids.operation(t) !in env.journal && ids.operation(t) in after.journal {
      NewOperation(env, step, ids.operation(t));
    }
  }

  lemma ForeignKeepsTicks(env: Env, ids: Ids, step: Store.Step, epochs: Epochs)
    requires Foreign(step, ids) && TicksTracked(env, ids, epochs)
    ensures TicksTracked(Store.Next(env, step), ids, epochs)
  {
    var after := Store.Next(env, step);
    forall t ensures TickTracked(after, ids, t, epochs) {
      assert TickTracked(env, ids, t, epochs);
      ForeignKeepsTick(env, ids, step, t);
    }
  }

  lemma ForeignKeepsKeys(env: Env, ids: Ids, step: Store.Step)
    requires Foreign(step, ids) && KeysOwned(env.schedules, ids)
    ensures KeysOwned(Store.Next(env, step).schedules, ids)
  {
    var after := Store.Next(env, step).schedules;
    forall id: Sized, t: TickId | ValidName(t.name) && HasKey(after, id, ids.key(t)) ensures id == ids.invocation(t) {
      if id in env.schedules {
        SameIdentityAfter(env, step, id);
        assert HasKey(env.schedules, id, ids.key(t));
      } else {
        Schedules.NewRows(env, step, id);
      }
    }
  }

  // ---------------------------------------------------------------- the repository side

  ghost predicate Describes(e: Epoch, a: Activation) {
    e.schedule == a.schedule && e.code == a.code && e.target == a.target && e.args == a.args
  }

  ghost predicate ValidEpoch(e: Epoch) {
    0 <= e.first <= e.cursor && ValidTimes(e.schedule) && e.schedule.occurs(e.first) && e.schedule.occurs(e.cursor)
      && |e.args| <= MAX_ARGS_BYTES
  }

  ghost predicate EpochsValid(epochs: Epochs, revision: Revision) {
    forall k :: k in epochs ==> ValidEpoch(epochs[k]) && ValidName(k.name) && k.revision <= revision
  }

  ghost predicate RowTracked(name: CronName, a: Activation, epochs: Epochs) {
    KeyOf(name, a) in epochs && Describes(epochs[KeyOf(name, a)], a) && epochs[KeyOf(name, a)].cursor == a.nextTick
  }

  /** Every row is the present state of its epoch. */
  ghost predicate RowsTracked(activations: map<CronName, Activation>, epochs: Epochs) {
    forall name :: name in activations ==> RowTracked(name, activations[name], epochs)
  }

  lemma ObserveTracked(activations: map<CronName, Activation>, epochs: Epochs)
    requires RowsTracked(activations, epochs)
    ensures Observe(epochs, activations) == epochs
  {
    forall k | k in Current(activations) ensures k in epochs {
      var name :| name in activations && k == KeyOf(name, activations[name]);
      assert RowTracked(name, activations[name], epochs);
    }
    forall k | k in epochs && k.name in activations && activations[k.name].revision == k.revision
      ensures epochs[k].cursor == activations[k.name].nextTick
    {
      assert RowTracked(k.name, activations[k.name], epochs);
      assert k == KeyOf(k.name, activations[k.name]);
    }
  }

  /** Old epochs are as they were; new ones have only their first tick. */
  ghost predicate Extends(epochs: Epochs, after: Epochs) {
    && (forall k :: k in epochs ==> k in after && after[k] == epochs[k])
    && (forall k :: k in after && k !in epochs ==> after[k].first == after[k].cursor)
  }

  lemma CommandObserves(repo: Repo, after: Repo, epochs: Epochs)
    requires EpochsValid(epochs, repo.revision) && RowsTracked(repo.activations, epochs)
    requires after.revision == repo.revision + 1
    requires CronHistory.RowsFrom(repo.activations, after.activations, after.revision)
    ensures var observed := Observe(epochs, after.activations);
      Extends(epochs, observed) && EpochsValid(observed, after.revision) && RowsTracked(after.activations, observed)
  {
    var observed := Observe(epochs, after.activations);
    forall name | name in after.activations
      ensures RowTracked(name, after.activations[name], observed) && KeyOf(name, after.activations[name]) in observed
    {
      assert KeyOf(name, after.activations[name]) in Current(after.activations);
      CommandObservesRow(repo, after, epochs, name);
    }
    forall k | k in epochs ensures observed[k] == epochs[k] {
      if k.name in after.activations && after.activations[k.name].revision == k.revision {
        CommandObservesRow(repo, after, epochs, k.name);
        assert k == KeyOf(k.name, after.activations[k.name]);
      }
    }
    forall k | k in observed && k !in epochs
      ensures observed[k].first == observed[k].cursor && ValidEpoch(observed[k]) && ValidName(k.name)
        && k.revision <= after.revision
    {
      var name :| name in after.activations && k == KeyOf(name, after.activations[name]);
      CommandObservesRow(repo, after, epochs, name);
    }
  }

  lemma CommandObservesRow(repo: Repo, after: Repo, epochs: Epochs, name: CronName)
    requires EpochsValid(epochs, repo.revision) && RowsTracked(repo.activations, epochs)
    requires after.revision == repo.revision + 1
    requires CronHistory.RowsFrom(repo.activations, after.activations, after.revision)
    requires name in after.activations
    ensures var a := after.activations[name]; var k := KeyOf(name, a);
      if k in epochs then Describes(epochs[k], a) && epochs[k].cursor == a.nextTick
      else
        && a.revision == after.revision && ValidName(name) && a.nextTick >= 0 && ValidTimes(a.schedule)
        && a.schedule.occurs(a.nextTick) && |a.args| <= MAX_ARGS_BYTES
  {
    var a := after.activations[name];
    if CronHistory.FreshRow(a, after.revision) && ValidName(name) {
      assert KeyOf(name, a) !in epochs;
    } else {
      assert RowTracked(name, a, epochs);
    }
  }

  lemma ExtendKeepsTicks(env: Env, ids: Ids, epochs: Epochs, after: Epochs)
    requires TicksTracked(env, ids, epochs) && Extends(epochs, after)
    ensures TicksTracked(env, ids, after)
  {
    forall t ensures TickTracked(env, ids, t, after) {
      assert TickTracked(env, ids, t, epochs);
    }
  }

  // ---------------------------------------------------------------- polls under way

  /** A claim is of a known epoch, at a tick between its first and its cursor. */
  ghost predicate ClaimTracked(c: Claimed, epochs: Epochs) {
    && c.activation.generation > 0 && c.activation.nextTick >= 0
    && InEpoch(TickOf(c), epochs) && Describes(epochs[EpochOf(TickOf(c))], c.activation)
  }

  ghost predicate PollTracked(p: Poll, epochs: Epochs) {
    p.now >= 0 && p.rest != [] && forall c :: c in p.rest ==> ClaimTracked(c, epochs)
  }

  ghost predicate PollsTracked(polls: map<Text, Poll>, epochs: Epochs) {
    forall id :: id in polls ==> PollTracked(polls[id], epochs)
  }

  /** Epochs only move forward. */
  ghost predicate Forward(epochs: Epochs, after: Epochs) {
    forall k :: k in epochs ==>
      k in after && after[k] == epochs[k].(cursor := after[k].cursor) && epochs[k].cursor <= after[k].cursor
  }

  lemma PollsStayTracked(polls: map<Text, Poll>, epochs: Epochs, observed: Epochs)
    requires PollsTracked(polls, epochs) && Forward(epochs, observed)
    ensures PollsTracked(polls, observed)
  {
    forall id | id in polls ensures PollTracked(polls[id], observed) {
      forall c | c in polls[id].rest ensures ClaimTracked(c, observed) {
        assert PollTracked(polls[id], epochs);
        assert EpochOf(TickOf(c)) in observed;
      }
    }
  }

  /** The first claim of a poll that says it committed is stored. */
  ghost predicate CommitsStored(polls: map<Text, Poll>, env: Env, ids: Ids) {
    forall id :: id in polls && polls[id].committed && polls[id].rest != [] ==>
      Stored(env, ids, TickOf(polls[id].rest[0]))
  }

  // ---------------------------------------------------------------- the invariant

  ghost predicate RepoTracked(repo: Repo, polls: map<Text, Poll>, epochs: Epochs) {
    && CronHistory.ValidRepo(repo)
    && EpochsValid(epochs, repo.revision)
    && RowsTracked(repo.activations, epochs)
    && PollsTracked(polls, epochs)
  }

  ghost predicate EnvTracked(env: Env, polls: map<Text, Poll>, ids: Ids, epochs: Epochs) {
    && env.scope == ids.scope
    && TicksTracked(env, ids, epochs)
    && KeysOwned(env.schedules, ids)
    && CommitsStored(polls, env, ids)
  }

  ghost predicate Inv(m: Machine, ids: Ids, epochs: Epochs) {
    RepoTracked(m.repo, m.polls, epochs) && EnvTracked(m.env, m.polls, ids, epochs)
  }

  // ---------------------------------------------------------------- every step keeps it

  lemma CommandKeeps(m: Machine, repo: Repo, ids: Ids, epochs: Epochs)
    requires Inv(m, ids, epochs) && CronHistory.ValidRepo(repo) && repo.revision == m.repo.revision + 1
    requires CronHistory.RowsFrom(m.repo.activations, repo.activations, repo.revision)
    ensures RepoTracked(repo, m.polls, Observe(epochs, repo.activations))
    ensures TicksTracked(m.env, ids, Observe(epochs, repo.activations))
    ensures Forward(epochs, Observe(epochs, repo.activations))
  {
    var observed := Observe(epochs, repo.activations);
    CommandObserves(m.repo, repo, epochs);
    ExtendKeepsTicks(m.env, ids, epochs, observed);
    PollsStayTracked(m.polls, epochs, observed);
  }

  /** Some rows are newly leased to the worker. */
  ghost predicate LeasesTo(activations: map<CronName, Activation>, rows: map<CronName, Activation>, worker: Text,
      until: int) {
    && rows.Keys == activations.Keys
    && forall name :: name in rows ==>
      rows[name] == activations[name] || rows[name] == CronRepository.Leased(activations[name], worker, until)
  }

  lemma LeasesKeepRows(repo: Repo, rows: map<CronName, Activation>, epochs: Epochs, worker: Text, until: int)
    requires CronHistory.ValidRepo(repo) && RowsTracked(repo.activations, epochs)
      && LeasesTo(repo.activations, rows, worker, until)
    ensures CronHistory.ValidRepo(repo.(activations := rows)) && RowsTracked(rows, epochs)
  {
    forall name | name in rows ensures RowTracked(name, rows[name], epochs) && ValidActivation(rows[name]) {
      assert RowTracked(name, repo.activations[name], epochs);
      assert ValidActivation(repo.activations[name]);
    }
  }

  lemma ClaimedPoll(repo: Repo, epochs: Epochs, worker: Text, names: seq<CronName>, now: I64, until: I64)
    requires CronHistory.ValidRepo(repo) && EpochsValid(epochs, repo.revision) && RowsTracked(repo.activations, epochs)
    requires 0 <= now < until
    ensures var claimed := ClaimRows(repo.activations, names, worker, now, until);
      && LeasesTo(repo.activations, claimed.0, worker, until)
      && (claimed.1 != [] ==> PollTracked(Poll(worker, now, claimed.1, false), epochs))
  {
    var claimed := ClaimRows(repo.activations, names, worker, now, until);
    CronHistory.ClaimedRows(repo.activations, names, worker, now, until);
    forall c | c in claimed.1 ensures ClaimTracked(c, epochs) {
      assert RowTracked(c.name, repo.activations[c.name], epochs);
      assert ValidEpoch(epochs[EpochOf(TickOf(c))]);
    }
  }

  lemma LeaseKeeps(m: Machine, rows: map<CronName, Activation>, poll: Poll, ids: Ids, epochs: Epochs, id: Text,
      until: int)
    requires Inv(m, ids, epochs) && id !in m.polls
    requires LeasesTo(m.repo.activations, rows, poll.worker, until)
    requires poll.rest != [] ==> PollTracked(poll, epochs)
    requires !poll.committed
    ensures Inv(m.(repo := m.repo.(activations := rows), polls := Continue(m.polls, id, poll)), ids, epochs)
  {
    LeasesKeepRows(m.repo, rows, epochs, poll.worker, until);
  }

  lemma ClaimKeeps(m: Machine, ids: Ids, epochs: Epochs, id: Text, worker: Text, names: seq<CronName>, now: I64,
      until: I64)
    requires Inv(m, ids, epochs)
    ensures Inv(ClaimNext(m, id, worker, names, now, until), ids, epochs)
  {
    if id !in m.polls && now >= 0 && until > now {
      ClaimedPoll(m.repo, epochs, worker, names, now, until);
      var claimed := ClaimRows(m.repo.activations, names, worker, now, until);
      LeaseKeeps(m, claimed.0, Poll(worker, now, claimed.1, false), ids, epochs, id, until);
    }
  }

  lemma CommitKeeps(m: Machine, ids: Ids, epochs: Epochs, id: Text, clock: int)
    requires Distinguishes(ids) && Inv(m, ids, epochs)
    ensures Inv(CommitNext(m, ids, id, clock), ids, epochs)
    ensures id in m.polls && !m.polls[id].committed ==>
      id in CommitNext(m, ids, id, clock).polls && CommitNext(m, ids, id, clock).polls[id].committed
  {
    if id in m.polls && !m.polls[id].committed {
      var c := m.polls[id].rest[0];
      var t := TickOf(c);
      assert PollTracked(m.polls[id], epochs);
      assert ClaimTracked(c, epochs);
      assert ValidName(t.name) && ValidEpoch(epochs[EpochOf(t)]);
      assert ids.admits(ClaimBatch(ids, c));
      TickCommits(m.env, ids, t, epochs, clock);
      var after := CommitNext(m, ids, id, clock);
      if Stored(m.env, ids, t) {
        assert after.env == m.env;
      } else {
        RecordKeepsTicks(m.env, after.env, ids, t, epochs);
        RecordKeepsKeys(m.env, after.env, ids, t, epochs[EpochOf(t)]);
      }
    }
  }

  // The cursor of an epoch advances past a stored tick.

  ghost function Advance(epochs: Epochs, k: EpochKey, next: I64): Epochs
    requires k in epochs
  {
    epochs[k := epochs[k].(cursor := next)]
  }

  lemma AdvanceKeepsTicks(env: Env, ids: Ids, epochs: Epochs, k: EpochKey, next: I64)
    requires TicksTracked(env, ids, epochs) && k in epochs && IsNext(epochs[k].schedule, epochs[k].cursor, next)
    requires Stored(env, ids, TickId(k.name, k.revision, epochs[k].cursor))
    ensures TicksTracked(env, ids, Advance(epochs, k, next))
  {
    forall t ensures TickTracked(env, ids, t, Advance(epochs, k, next)) {
      assert TickTracked(env, ids, t, epochs);
    }
  }

  /** The row of a name moved to its next tick and was released. */
  ghost predicate Moves(activations: map<CronName, Activation>, rows: map<CronName, Activation>, name: CronName,
      next: I64) {
    && name in activations && rows.Keys == activations.Keys
    && rows[name] == activations[name].(nextTick := next, owner := None, until := None)
    && forall other :: other in rows && other != name ==> rows[other] == activations[other]
  }

  lemma AdvanceRows(activations: map<CronName, Activation>, rows: map<CronName, Activation>, epochs: Epochs,
      name: CronName, next: I64)
    requires RowsTracked(activations, epochs) && Moves(activations, rows, name, next)
    ensures KeyOf(name, activations[name]) in epochs
    ensures RowsTracked(rows, Advance(epochs, KeyOf(name, activations[name]), next))
  {
    assert RowTracked(name, activations[name], epochs);
    var advanced := Advance(epochs, KeyOf(name, activations[name]), next);
    forall other | other in rows ensures RowTracked(other, rows[other], advanced) {
      assert RowTracked(other, activations[other], epochs);
    }
  }

  lemma AdvanceEpochs(epochs: Epochs, revision: Revision, k: EpochKey, next: I64)
    requires EpochsValid(epochs, revision) && k in epochs && IsNext(epochs[k].schedule, epochs[k].cursor, next)
    ensures EpochsValid(Advance(epochs, k, next), revision) && Forward(epochs, Advance(epochs, k, next))
  {
    assert ValidEpoch(epochs[k]);
    assert ValidEpoch(Advance(epochs, k, next)[k]);
  }

  lemma ObserveAdvanced(rows: map<CronName, Activation>, epochs: Epochs, k: EpochKey, next: I64)
    requires k in epochs && RowsTracked(rows, Advance(epochs, k, next)) && k.name in rows
      && rows[k.name].revision == k.revision
    requires rows[k.name].nextTick == next
    ensures Observe(epochs, rows) == Advance(epochs, k, next)
  {
    var advanced := Advance(epochs, k, next);
    forall other | other in Current(rows) ensures other in epochs {
      var name :| name in rows && other == KeyOf(name, rows[name]);
      assert RowTracked(name, rows[name], advanced);
    }
    forall other | other in epochs && other.name in rows && rows[other.name].revision == other.revision
      ensures advanced[other].cursor == rows[other.name].nextTick
    {
      assert RowTracked(other.name, rows[other.name], advanced);
      assert other == KeyOf(other.name, rows[other.name]);
    }
  }

  lemma MoveKeepsValid(repo: Repo, rows: map<CronName, Activation>, name: CronName, next: I64)
    requires CronHistory.ValidRepo(repo) && Moves(repo.activations, rows, name, next) && next >= 0
    ensures CronHistory.ValidRepo(repo.(activations := rows))
  {
    assert ValidActivation(repo.activations[name]);
  }

  lemma MoveKeeps(m: Machine, rows: map<CronName, Activation>, ids: Ids, epochs: Epochs, name: CronName, next: I64)
    requires Inv(m, ids, epochs) && Moves(m.repo.activations, rows, name, next)
    requires IsNext(m.repo.activations[name].schedule, m.repo.activations[name].nextTick, next)
    requires Stored(m.env, ids, TickId(name, m.repo.activations[name].revision, m.repo.activations[name].nextTick))
    ensures Inv(m.(repo := m.repo.(activations := rows)), ids, Observe(epochs, rows))
      && Forward(epochs, Observe(epochs, rows))
  {
    var k := KeyOf(name, m.repo.activations[name]);
    assert RowTracked(name, m.repo.activations[name], epochs);
    assert ValidEpoch(epochs[k]);
    AdvanceRows(m.repo.activations, rows, epochs, name, next);
    AdvanceEpochs(epochs, m.repo.revision, k, next);
    ObserveAdvanced(rows, epochs, k, next);
    AdvanceKeepsTicks(m.env, ids, epochs, k, next);
    MoveKeepsValid(m.repo, rows, name, next);
    PollsStayTracked(m.polls, epochs, Advance(epochs, k, next));
  }

  /** Moving on in a poll, or dropping it. */
  lemma MoveOnKeeps(m: Machine, ids: Ids, epochs: Epochs, id: Text)
    requires Inv(m, ids, epochs)
    ensures Inv(m.(polls := m.polls - {id}), ids, epochs)
    ensures id in m.polls ==>
      var p := m.polls[id];
      p.rest != [] && Inv(m.(polls := Continue(m.polls, id, p.(rest := p.rest[1..], committed := false))), ids, epochs)
  {
    if id in m.polls {
      var p := m.polls[id];
      assert PollTracked(p, epochs);
      assert forall c :: c in p.rest[1..] ==> c in p.rest;
    }
  }

  /** What a completion that does not cross does to the rows: it moves one past its own stored tick, or nothing. */
  lemma CompletionMoves(m: Machine, ids: Ids, epochs: Epochs, id: Text)
    requires Inv(m, ids, epochs) && id in m.polls && m.polls[id].committed && !Crosses(m, ids, id)
    ensures var c := m.polls[id].rest[0]; var rows := CompleteNext(m, id).repo.activations;
      || rows == m.repo.activations
      || exists next: I64 ::
           && Moves(m.repo.activations, rows, c.name, next)
           && IsNext(m.repo.activations[c.name].schedule, m.repo.activations[c.name].nextTick, next)
           && var row := m.repo.activations[c.name]; Stored(m.env, ids, TickId(c.name, row.revision, row.nextTick))
  {
    var p := m.polls[id];
    var c := p.rest[0];
    assert PollTracked(p, epochs);
    assert ClaimTracked(c, epochs);
    assert ValidEpoch(epochs[EpochOf(TickOf(c))]);
    var next := c.activation.schedule.next(c.activation.nextTick);
    if next.Some? && Holds(m.repo.activations, c.name, p.worker, c.activation.generation, c.activation.nextTick)
       && c.activation.generation < REVISION_LIMIT {
      assert RowTracked(c.name, m.repo.activations[c.name], epochs);
      assert IsNext(c.activation.schedule, c.activation.nextTick, next.value);
      assert Moves(m.repo.activations, CompleteNext(m, id).repo.activations, c.name, next.value);
    }
  }

  lemma CompletionRest(m: Machine, id: Text)
    requires id in m.polls && m.polls[id].committed && m.polls[id].rest != []
    ensures var after := CompleteNext(m, id); var p := m.polls[id];
      && after.env == m.env && after.repo == m.repo.(activations := after.repo.activations)
      && (after.polls == m.polls - {id}
        || after.polls == Continue(m.polls, id, p.(rest := p.rest[1..], committed := false)))
  {
  }

  lemma CompleteKeeps(m: Machine, ids: Ids, epochs: Epochs, id: Text)
    requires Inv(m, ids, epochs) && !Crosses(m, ids, id)
    ensures var after := CompleteNext(m, id); var observed := Observe(epochs, after.repo.activations);
      Inv(after, ids, observed) && Forward(epochs, observed)
  {
    if id in m.polls && m.polls[id].committed {
      assert PollTracked(m.polls[id], epochs);
      var after := CompleteNext(m, id);
      var rows := after.repo.activations;
      var moved := m.(repo := m.repo.(activations := rows));
      CompletionMoves(m, ids, epochs, id);
      CompletionRest(m, id);
      if rows == m.repo.activations {
        ObserveTracked(rows, epochs);
      } else {
        MoveKeepsSome(m, rows, ids, epochs, m.polls[id].rest[0].name);
      }
      MoveOnKeeps(moved, ids, Observe(epochs, rows), id);
    } else {
      ObserveTracked(m.repo.activations, epochs);
    }
  }

  lemma MoveKeepsSome(m: Machine, rows: map<CronName, Activation>, ids: Ids, epochs: Epochs, name: CronName)
    requires Inv(m, ids, epochs)
    requires exists next: I64 ::
      && Moves(m.repo.activations, rows, name, next)
      && IsNext(m.repo.activations[name].schedule, m.repo.activations[name].nextTick, next)
      && Stored(m.env, ids, TickId(name, m.repo.activations[name].revision, m.repo.activations[name].nextTick))
    ensures Inv(m.(repo := m.repo.(activations := rows)), ids, Observe(epochs, rows))
      && Forward(epochs, Observe(epochs, rows))
  {
    var next: I64 :|
      && Moves(m.repo.activations, rows, name, next)
      && IsNext(m.repo.activations[name].schedule, m.repo.activations[name].nextTick, next)
      && Stored(m.env, ids, TickId(name, m.repo.activations[name].revision, m.repo.activations[name].nextTick));
    MoveKeeps(m, rows, ids, epochs, name, next);
  }

  // ---------------------------------------------------------------- a completion that crosses breaks it

  /** The times of an epoch before its cursor are stored, and its cursor is one of its times. */
  ghost predicate EpochExact(env: Env, ids: Ids, k: EpochKey, e: Epoch) {
    && e.schedule.occurs(e.cursor)
    && forall time: I64 :: e.schedule.occurs(time) && e.first <= time < e.cursor ==>
      Stored(env, ids, TickId(k.name, k.revision, time))
  }

  lemma InvIsExact(m: Machine, ids: Ids, epochs: Epochs, k: EpochKey)
    requires Inv(m, ids, epochs) && k in epochs
    ensures EpochExact(m.env, ids, k, epochs[k])
  {
    assert ValidEpoch(epochs[k]);
    forall time: I64 | epochs[k].schedule.occurs(time) && epochs[k].first <= time < epochs[k].cursor
      ensures Stored(m.env, ids, TickId(k.name, k.revision, time))
    {
      assert TickTracked(m.env, ids, TickId(k.name, k.revision, time), epochs);
    }
  }

  /** Moving the cursor of an exact epoch to a later time keeps it exact only past a stored tick and to the next one. */
  lemma CursorJumps(env: Env, ids: Ids, epochs: Epochs, k: EpochKey, next: I64)
    requires TicksTracked(env, ids, epochs) && k in epochs && ValidEpoch(epochs[k]) && epochs[k].cursor < next
    requires EpochExact(env, ids, k, epochs[k].(cursor := next))
    ensures Stored(env, ids, TickId(k.name, k.revision, epochs[k].cursor))
      && IsNext(epochs[k].schedule, epochs[k].cursor, next)
  {
    var e := epochs[k];
    forall time | e.cursor < time < next ensures !e.schedule.occurs(time) {
      assert TickTracked(env, ids, TickId(k.name, k.revision, time), epochs);
    }
  }

  lemma CrossingMoves(m: Machine, ids: Ids, epochs: Epochs, id: Text)
    requires Inv(m, ids, epochs) && Crosses(m, ids, id)
    ensures var c := m.polls[id].rest[0];
      var k := KeyOf(c.name, m.repo.activations[c.name]);
      var next := c.activation.schedule.next(c.activation.nextTick).value;
      var after := CompleteNext(m, id);
      && k in epochs && epochs[k].cursor == m.repo.activations[c.name].nextTick < next && after.env == m.env
      && epochs[k].schedule == m.repo.activations[c.name].schedule
      && k in Observe(epochs, after.repo.activations)
      && Observe(epochs, after.repo.activations)[k] == epochs[k].(cursor := next)
  {
    var p := m.polls[id];
    var c := p.rest[0];
    assert PollTracked(p, epochs);
    assert ClaimTracked(c, epochs) && ValidEpoch(epochs[EpochOf(TickOf(c))]);
    assert RowTracked(c.name, m.repo.activations[c.name], epochs);
    var next := c.activation.schedule.next(c.activation.nextTick);
    assert IsNext(c.activation.schedule, c.activation.nextTick, next.value);
    assert Moves(m.repo.activations, CompleteNext(m, id).repo.activations, c.name, next.value);
  }

  /**
   A completion that crosses leaves an epoch whose cursor passed a time that is not stored, or is
   none of its times.
   */
  lemma CrossingBreaks(m: Machine, ids: Ids, epochs: Epochs, id: Text)
    requires Inv(m, ids, epochs) && Crosses(m, ids, id)
    ensures var after := CompleteNext(m, id);
      var observed := Observe(epochs, after.repo.activations);
      exists k :: k in observed && !EpochExact(after.env, ids, k, observed[k])
  {
    var c := m.polls[id].rest[0];
    var k := KeyOf(c.name, m.repo.activations[c.name]);
    var next := c.activation.schedule.next(c.activation.nextTick).value;
    CrossingMoves(m, ids, epochs, id);
    if EpochExact(m.env, ids, k, epochs[k].(cursor := next)) {
      assert ValidEpoch(epochs[k]);
      CursorJumps(m.env, ids, epochs, k, next);
    }
  }

  /** A completion keeps every epoch exact if and only if it does not cross. */
  lemma CompletionIsExact(m: Machine, ids: Ids, epochs: Epochs, id: Text)
    requires Inv(m, ids, epochs)
    ensures var after := CompleteNext(m, id);
      var observed := Observe(epochs, after.repo.activations);
      !Crosses(m, ids, id) <==> forall k :: k in observed ==> EpochExact(after.env, ids, k, observed[k])
  {
    if Crosses(m, ids, id) {
      CrossingBreaks(m, ids, epochs, id);
    } else {
      var after := CompleteNext(m, id);
      var observed := Observe(epochs, after.repo.activations);
      CompleteKeeps(m, ids, epochs, id);
      forall k | k in observed ensures EpochExact(after.env, ids, k, observed[k]) {
        InvIsExact(after, ids, observed, k);
      }
    }
  }

  // ---------------------------------------------------------------- the other steps

  lemma StoreKeeps(m: Machine, ids: Ids, epochs: Epochs, step: Store.Step)
    requires Inv(m, ids, epochs) && Foreign(step, ids)
    ensures Inv(m.(env := Store.Next(m.env, step)), ids, epochs)
  {
    StepFrame(m.env, step);
    ForeignKeepsTicks(m.env, ids, step, epochs);
    ForeignKeepsKeys(m.env, ids, step);
    var after := Store.Next(m.env, step);
    forall id | id in m.polls && m.polls[id].committed && m.polls[id].rest != []
      ensures Stored(after, ids, TickOf(m.polls[id].rest[0]))
    {
      ForeignKeepsTick(m.env, ids, step, TickOf(m.polls[id].rest[0]));
    }
  }

  lemma CommandStepKeeps(m: Machine, ids: Ids, epochs: Epochs, step: CronHistory.Step)
    requires Inv(m, ids, epochs) && step.ApplyStep? && step.command.at >= 0
    ensures var repo := CronHistory.Next(m.repo, step); var observed := Observe(epochs, repo.activations);
      Inv(m.(repo := repo), ids, observed) && Forward(epochs, observed)
  {
    var repo := CronHistory.Next(m.repo, step);
    CronHistory.CommandEffect(m.repo, step.operation, step.command, step.manifest, step.digest);
    if repo == m.repo {
      ObserveTracked(repo.activations, epochs);
    } else {
      CommandKeeps(m, repo, ids, epochs);
    }
  }

  /** A step that leaves every row in its epoch and at its cursor. */
  lemma RowsStayPut(after: Machine, ids: Ids, epochs: Epochs)
    requires Inv(after, ids, epochs)
    ensures Inv(after, ids, Observe(epochs, after.repo.activations))
    ensures Forward(epochs, Observe(epochs, after.repo.activations))
  {
    ObserveTracked(after.repo.activations, epochs);
  }

  /** Every step of the protocol keeps the invariant, for the epochs observed after it. */
  lemma StepKeeps(m: Machine, ids: Ids, epochs: Epochs, step: CronMachine.Step)
    requires Distinguishes(ids) && Inv(m, ids, epochs) && Allowed(m, step, ids)
    ensures var after := CronMachine.Next(m, ids, step); var observed := Observe(epochs, after.repo.activations);
      Inv(after, ids, observed) && Forward(epochs, observed)
  {
    match step
    case CommandStep(operation, command, manifest, digest) =>
      CommandStepKeeps(m, ids, epochs, CronHistory.ApplyStep(operation, command, manifest, digest));
    case CompleteStep(id) => CompleteKeeps(m, ids, epochs, id);
    case _ =>
      OtherStepKeeps(m, ids, epochs, step);
      RowsStayPut(CronMachine.Next(m, ids, step), ids, epochs);
  }

  lemma OtherStepKeeps(m: Machine, ids: Ids, epochs: Epochs, step: CronMachine.Step)
    requires Distinguishes(ids) && Inv(m, ids, epochs) && Allowed(m, step, ids)
    requires !step.CommandStep? && !step.CompleteStep?
    ensures Inv(CronMachine.Next(m, ids, step), ids, epochs)
  {
    match step
    case ClaimStep(id, worker, names, now, until) => ClaimKeeps(m, ids, epochs, id, worker, names, now, until);
    case CommitStep(id, clock) => CommitKeeps(m, ids, epochs, id, clock);
    case CrashStep(id) => MoveOnKeeps(m, ids, epochs, id);
    case StoreStep(step) => StoreKeeps(m, ids, epochs, step);
  }

  // ---------------------------------------------------------------- whole runs

  ghost predicate StepAt(states: seq<Machine>, steps: seq<CronMachine.Step>, ids: Ids, i: nat)
    requires |states| == |steps| + 1 && i < |steps|
  {
    states[i + 1] == CronMachine.Next(states[i], ids, steps[i])
  }

  /** A run of trusted steps from an empty repository and an empty Environment. */
  ghost predicate IsTrustedRun(states: seq<Machine>, steps: seq<CronMachine.Step>, ids: Ids) {
    && |states| == |steps| + 1 && states[0] == Machine(EmptyRepo, EmptyEnv(ids.scope), map[])
    && (forall i :: 0 <= i < |steps| ==> StepAt(states, steps, ids, i))
    && (forall i :: 0 <= i < |steps| ==> Trusted(steps[i], ids))
  }

  /** No completion of the run crosses epochs. */
  ghost predicate StaysInEpochs(states: seq<Machine>, steps: seq<CronMachine.Step>, ids: Ids)
    requires |states| == |steps| + 1
  {
    forall i :: 0 <= i < |steps| && steps[i].CompleteStep? ==> !Crosses(states[i], ids, steps[i].id)
  }

  ghost predicate IsRun(states: seq<Machine>, steps: seq<CronMachine.Step>, ids: Ids) {
    IsTrustedRun(states, steps, ids) && StaysInEpochs(states, steps, ids)
  }

  /** The epochs seen up to a state of the run. */
  ghost function EpochsAt(states: seq<Machine>, n: nat): Epochs
    requires n < |states|
  {
    if n == 0 then map[] else Observe(EpochsAt(states, n - 1), states[n].repo.activations)
  }

  /** No completion before step `n` crosses. */
  ghost predicate UncrossedBefore(states: seq<Machine>, steps: seq<CronMachine.Step>, ids: Ids, n: nat)
    requires |states| == |steps| + 1 && n <= |steps|
  {
    forall i :: 0 <= i < n && steps[i].CompleteStep? ==> !Crosses(states[i], ids, steps[i].id)
  }

  lemma StepKeepsAt(states: seq<Machine>, steps: seq<CronMachine.Step>, ids: Ids, n: nat, epochs: Epochs)
    requires IsTrustedRun(states, steps, ids) && Distinguishes(ids) && n < |steps| && Inv(states[n], ids, epochs)
    requires UncrossedBefore(states, steps, ids, n + 1)
    ensures Inv(states[n + 1], ids, Observe(epochs, states[n + 1].repo.activations))
    ensures Forward(epochs, Observe(epochs, states[n + 1].repo.activations))
  {
    assert StepAt(states, steps, ids, n);
    StepKeeps(states[n], ids, epochs, steps[n]);
  }

  /** The invariant holds up to the first completion that crosses. */
  lemma {:induction false} InvUpTo(states: seq<Machine>, steps: seq<CronMachine.Step>, ids: Ids, n: nat)
    requires IsTrustedRun(states, steps, ids) && Distinguishes(ids) && n <= |steps|
    requires UncrossedBefore(states, steps, ids, n)
    ensures Inv(states[n], ids, EpochsAt(states, n))
  {
    if n == 0 {
      forall t ensures TickTracked(states[0].env, ids, t, map[]) {
      }
    } else {
      InvUpTo(states, steps, ids, n - 1);
      StepKeepsAt(states, steps, ids, n - 1, EpochsAt(states, n - 1));
    }
  }

  lemma RunKeeps(states: seq<Machine>, steps: seq<CronMachine.Step>, ids: Ids, n: nat)
    requires IsRun(states, steps, ids) && Distinguishes(ids) && n < |states|
    ensures Inv(states[n], ids, EpochsAt(states, n))
  {
    InvUpTo(states, steps, ids, n);
  }

  /**
   In every run, the ticks stored for an epoch are exactly the times of its schedule from its first
   tick up to its cursor, plus at most the cursor's own; first tick and cursor are such times.
   */
  lemma TicksAreExact(ids: Ids, states: seq<Machine>, steps: seq<CronMachine.Step>, n: nat, k: EpochKey, time: I64)
    requires Distinguishes(ids) && IsRun(states, steps, ids) && n < |states| && k in EpochsAt(states, n)
    ensures var e := EpochsAt(states, n)[k];
      var stored := Stored(states[n].env, ids, TickId(k.name, k.revision, time));
      if time == e.cursor then stored ==> e.schedule.occurs(time)
      else stored <==> e.schedule.occurs(time) && e.first <= time < e.cursor
    ensures var e := EpochsAt(states, n)[k];
      e.first <= e.cursor && e.schedule.occurs(e.first) && e.schedule.occurs(e.cursor)
  {
    RunKeeps(states, steps, ids, n);
    assert ValidEpoch(EpochsAt(states, n)[k]);
    assert TickTracked(states[n].env, ids, TickId(k.name, k.revision, time), EpochsAt(states, n));
  }

  /** A stored tick belongs to an epoch, runs the epoch's code with its arguments, and no other row carries its key. */
  lemma TickIsStoredOnce(ids: Ids, states: seq<Machine>, steps: seq<CronMachine.Step>, n: nat, t: TickId)
    requires Distinguishes(ids) && IsRun(states, steps, ids) && n < |states| && Stored(states[n].env, ids, t)
    ensures EpochOf(t) in EpochsAt(states, n)
    ensures RowOf(states[n].env.schedules[ids.invocation(t)], ids, t, EpochsAt(states, n)[EpochOf(t)])
    ensures forall id :: HasKey(states[n].env.schedules, id, ids.key(t)) ==> id == ids.invocation(t)
  {
    RunKeeps(states, steps, ids, n);
    assert TickTracked(states[n].env, ids, t, EpochsAt(states, n));
    assert ValidName(EpochOf(t).name);
  }

  /** In every run the commit of a claimed tick succeeds; it is a replay exactly when the tick is stored already. */
  lemma TickCommitSucceeds(ids: Ids, states: seq<Machine>, steps: seq<CronMachine.Step>, n: nat, id: Text, clock: int)
    requires Distinguishes(ids) && IsRun(states, steps, ids) && n < |states| && id in states[n].polls
    ensures states[n].polls[id].rest != []
    ensures var c := states[n].polls[id].rest[0];
      var batch := ClaimBatch(ids, c);
      var r := Commit(states[n].env, batch, ids.digest(batch), clock);
      ids.admits(batch) && r.Ok? && (r.value.value.replayed <==> Stored(states[n].env, ids, TickOf(c)))
  {
    RunKeeps(states, steps, ids, n);
    var epochs := EpochsAt(states, n);
    var p := states[n].polls[id];
    assert PollTracked(p, epochs);
    var c := p.rest[0];
    assert ClaimTracked(c, epochs);
    assert ValidEpoch(epochs[EpochOf(TickOf(c))]) && ValidName(TickOf(c).name);
    TickCommits(states[n].env, ids, TickOf(c), epochs, clock);
  }

  lemma ForwardAt(states: seq<Machine>, steps: seq<CronMachine.Step>, ids: Ids, n: nat)
    requires IsRun(states, steps, ids) && Distinguishes(ids) && n < |steps|
    ensures Forward(EpochsAt(states, n), EpochsAt(states, n + 1))
  {
    RunKeeps(states, steps, ids, n);
    StepKeepsAt(states, steps, ids, n, EpochsAt(states, n));
  }

  lemma {:induction false} ForwardChain(history: seq<Epochs>, from: nat, to: nat)
    requires from <= to < |history| && forall i :: 0 <= i < |history| - 1 ==> Forward(history[i], history[i + 1])
    ensures Forward(history[from], history[to])
  {
    if from < to {
      ForwardChain(history, from, to - 1);
      assert Forward(history[to - 1], history[to - 1 + 1]);
    }
  }

  /** An epoch keeps its first tick and what it runs; its cursor never moves back. */
  lemma EpochsMoveForward(states: seq<Machine>, steps: seq<CronMachine.Step>, ids: Ids, from: nat, to: nat)
    requires IsRun(states, steps, ids) && Distinguishes(ids) && from <= to < |states|
    ensures Forward(EpochsAt(states, from), EpochsAt(states, to))
  {
    var history := seq(|states|, i requires 0 <= i < |states| => EpochsAt(states, i));
    forall i | 0 <= i < |history| - 1 ensures Forward(history[i], history[i + 1]) {
      ForwardAt(states, steps, ids, i);
    }
    ForwardChain(history, from, to);
  }

  /** The row of an active definition is at the cursor of its epoch. */
  lemma CursorIsNextTick(states: seq<Machine>, steps: seq<CronMachine.Step>, ids: Ids, n: nat, name: CronName)
    requires IsRun(states, steps, ids) && Distinguishes(ids) && n < |states| && name in states[n].repo.activations
    ensures RowTracked(name, states[n].repo.activations[name], EpochsAt(states, n))
  {
    RunKeeps(states, steps, ids, n);
  }

  // ---------------------------------------------------------------- exactly when runs are exact

  ghost predicate AllExact(m: Machine, ids: Ids, epochs: Epochs) {
    forall k :: k in epochs ==> EpochExact(m.env, ids, k, epochs[k])
  }

  /** The first completion of a run that crosses. */
  lemma {:induction false} FirstCrossing(states: seq<Machine>, steps: seq<CronMachine.Step>, ids: Ids, n: nat)
    returns (i: nat)
    requires |states| == |steps| + 1 && n < |steps| && steps[n].CompleteStep? && Crosses(states[n], ids, steps[n].id)
    ensures i <= n && steps[i].CompleteStep? && Crosses(states[i], ids, steps[i].id)
    ensures UncrossedBefore(states, steps, ids, i)
  {
    if j :| 0 <= j < n && steps[j].CompleteStep? && Crosses(states[j], ids, steps[j].id) {
      i := FirstCrossing(states, steps, ids, j);
    } else {
      i := n;
    }
  }

  /**
   A run of trusted steps keeps every epoch exact at all times if and only if none of its
   completions crosses epochs.
   */
  lemma ExactIffNoCrossing(states: seq<Machine>, steps: seq<CronMachine.Step>, ids: Ids)
    requires IsTrustedRun(states, steps, ids) && Distinguishes(ids)
    ensures StaysInEpochs(states, steps, ids) <==>
            forall n :: 0 <= n < |states| ==> AllExact(states[n], ids, EpochsAt(states, n))
  {
    if StaysInEpochs(states, steps, ids) {
      forall n | 0 <= n < |states| ensures AllExact(states[n], ids, EpochsAt(states, n)) {
        InvUpTo(states, steps, ids, n);
        forall k | k in EpochsAt(states, n) ensures EpochExact(states[n].env, ids, k, EpochsAt(states, n)[k]) {
          InvIsExact(states[n], ids, EpochsAt(states, n), k);
        }
      }
    } else {
      var some :| 0 <= some < |steps| && steps[some].CompleteStep? && Crosses(states[some], ids, steps[some].id);
      var i := FirstCrossing(states, steps, ids, some);
      InvUpTo(states, steps, ids, i);
      assert StepAt(states, steps, ids, i);
      CrossingBreaks(states[i], ids, EpochsAt(states, i), steps[i].id);
      assert !AllExact(states[i + 1], ids, EpochsAt(states, i + 1));
    }
  }
}
