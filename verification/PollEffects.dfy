/** What the counts of a poll say: what was stored and which cursors moved. */
module PollEffects {

  import opened Values
  import opened Encoding
  import opened Batch
  import Store
  import opened Cron
  import opened CronRepository
  import opened CronMachine
  import opened CronMaterializer

  /** A new invocation of the tick: it waits for the instant of the tick and nobody attempted it. */
  ghost predicate WaitsAtTick(row: Store.Schedule, ids: Ids, t: TickId, code: PinnedCode, target: Sized, args: Sized) {
    && row.status.Pending? && row.executeAt == t.tick && row.attempts == 0 && row.owner.None?
    && row.pinnedCode == ids.code(code) && row.target == target && row.args == args
    && row.idempotencyKey == Some(ids.key(t))
  }

  /** The store has one invocation more, which waits at its tick, or is as it was. */
  ghost predicate StoresOnce(env: Store.Env, after: Store.Env, ids: Ids, c: Claimed, replayed: bool) {
    var t, a := TickOf(c), c.activation;
    if replayed then after == env
    else
      && !Stored(env, ids, t) && after.schedules.Keys == env.schedules.Keys + {ids.invocation(t)}
      && (forall id :: id in env.schedules ==> after.schedules[id] == env.schedules[id])
      && WaitsAtTick(after.schedules[ids.invocation(t)], ids, t, a.code, a.target, a.args)
  }

  lemma OneInsert(schedules: map<Sized, Store.Schedule>, insert: ScheduleInsert, sequence: nat)
    ensures var r := Store.InsertSchedules(schedules, [insert], sequence);
      r.Ok? ==> insert.id !in schedules && r.value == schedules[insert.id := Store.NewSchedule(insert, sequence)]
  {
    assert [insert][..0] == [];
    assert Store.InsertSchedules(schedules, [], sequence) == Ok(schedules);
  }

  lemma CommitStoresOnce(env: Store.Env, ids: Ids, c: Claimed, clock: int)
    ensures var r := Store.Commit(env, ClaimBatch(ids, c), ids.digest(ClaimBatch(ids, c)), clock);
      r.Ok? ==> StoresOnce(env, r.value.env, ids, c, r.value.value.replayed)
  {
    var a := c.activation;
    OneInsert(env.schedules, TickInsert(ids, TickOf(c), a.code, a.target, a.args), env.sequence + 1);
  }

  /** The claimed row moved to the tick after the claimed one, or no row changed. */
  ghost predicate MovesCursor(repo: Repo, after: Repo, c: Claimed, completed: bool) {
    if !completed then after == repo
    else
      && c.name in repo.activations && repo.activations[c.name].nextTick == c.activation.nextTick
      && after.activations.Keys == repo.activations.Keys
      && c.activation.schedule.next(c.activation.nextTick) == Some(after.activations[c.name].nextTick)
      && after.activations[c.name].owner.None?
      && forall name :: name in repo.activations && name != c.name ==>
           after.activations[name] == repo.activations[name]
  }

  /** A claim counts as materialized when its tick was not stored and now is, and as completed when its cursor moved. */
  lemma ResultMeans(m: Machine, ids: Ids, id: Text, clock: int)
    requires id in m.polls && Ready(m, id) && ProcessClaim(m, ids, id, clock).Some?
    ensures var t := ProcessClaim(m, ids, id, clock).value; var after := Processed(m, ids, id, clock);
      && StoresOnce(m.env, after.env, ids, m.polls[id].rest[0], t.replayed)
      && MovesCursor(m.repo, after.repo, m.polls[id].rest[0], t.completed)
  {
    CommitStoresOnce(m.env, ids, m.polls[id].rest[0], clock);
  }

  lemma GrowsByOne(before: set<Sized>, after: set<Sized>, x: Sized)
    requires x !in before && after == before + {x}
    ensures |after| == |before| + 1
  {
  }

  /** A poll stores exactly as many invocations as it reports materialized. */
  lemma {:induction false} PollStoresWhatItReports(m: Machine, ids: Ids, id: Text, clock: int, o: PollOutcome)
    requires Ready(m, id)
    ensures var drained := Drain(m, ids, id, clock, o);
      drained.1.Some? ==>
        |drained.0.env.schedules.Keys| == |m.env.schedules.Keys| + drained.1.value.materialized - o.materialized
    decreases if id in m.polls then |m.polls[id].rest| else 0
  {
    if id in m.polls {
      ProcessedPoll(m, ids, id, clock);
      var t := ProcessClaim(m, ids, id, clock);
      if t.Some? {
        var after := Processed(m, ids, id, clock);
        ResultMeans(m, ids, id, clock);
        if !t.value.replayed {
          GrowsByOne(m.env.schedules.Keys, after.env.schedules.Keys, ids.invocation(TickOf(m.polls[id].rest[0])));
        }
        PollStoresWhatItReports(after, ids, id, clock, Tally(o, t.value));
      }
    }
  }
}
