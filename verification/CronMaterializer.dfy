/** The materializer's poll, as a run of the protocol. */
module CronMaterializer {

  import opened Values
  import opened Encoding
  import opened Commits = Batch
  import Store
  import opened PostgresStore
  import opened CronSchedule
  import opened Cron
  import opened CronRepository
  import opened CronAdapter
  import CronHistory
  import opened CronMachine
  import CronExactlyOnce

  datatype PollOutcome = PollOutcome(claimed: nat, materialized: nat, replayed: nat, completed: nat, leaseLost: nat)

  /** What became of one claim: whether its commit was a replay, and whether its cursor advanced. */
  datatype TickResult = TickResult(replayed: bool, completed: bool)

  function Tally(o: PollOutcome, t: TickResult): PollOutcome {
    PollOutcome(o.claimed,
      if t.replayed then o.materialized else o.materialized + 1, if t.replayed then o.replayed + 1 else o.replayed,
      if t.completed then o.completed + 1 else o.completed, if t.completed then o.leaseLost else o.leaseLost + 1)
  }

  // ---------------------------------------------------------------- one poll without interruption

  /** The poll has claims to process and has committed none of their ticks. */
  ghost predicate Ready(m: Machine, id: Text) {
    id in m.polls ==> m.polls[id].rest != [] && !m.polls[id].committed
  }

  /** Processes the first claim: `None` when the poll ends with an error. */
  ghost function ProcessClaim(m: Machine, ids: Ids, id: Text, clock: int): Option<TickResult>
    requires id in m.polls && m.polls[id].rest != []
  {
    var poll := m.polls[id];
    var c := poll.rest[0];
    var batch := ClaimBatch(ids, c);
    var committed := Store.Commit(m.env, batch, ids.digest(batch), clock);
    var next := c.activation.schedule.next(c.activation.nextTick);
    if !ids.admits(batch) || committed.Err? || next.None? then None
    else
      var completed := CompleteTick(m.repo, c.name, poll.worker, c.activation.generation, c.activation.nextTick,
        next.value, poll.now);
      if completed.Ok? then Some(TickResult(committed.value.value.replayed, true))
      else if completed.error.LeaseLost? then Some(TickResult(committed.value.value.replayed, false))
      else None
  }

  ghost function Processed(m: Machine, ids: Ids, id: Text, clock: int): Machine {
    CompleteNext(CommitNext(m, ids, id, clock), id)
  }

  lemma ProcessedPoll(m: Machine, ids: Ids, id: Text, clock: int)
    requires id in m.polls && Ready(m, id)
    ensures var after := Processed(m, ids, id, clock); var p := m.polls[id];
      if ProcessClaim(m, ids, id, clock).Some?
      then after.polls == Continue(m.polls, id, p.(rest := p.rest[1..]))
      else after.polls == m.polls - {id}
  {
    var p := m.polls[id];
    assert Continue(m.polls[id := p.(committed := true)], id, p.(rest := p.rest[1..])) ==
      Continue(m.polls, id, p.(rest := p.rest[1..]));
    assert m.polls[id := p.(committed := true)] - {id} == m.polls - {id};
  }

  /** The machine after a whole poll, and its outcome unless it ended with an error. */
  ghost function Drain(m: Machine, ids: Ids, id: Text, clock: int, o: PollOutcome): (Machine, Option<PollOutcome>)
    requires Ready(m, id)
    decreases if id in m.polls then |m.polls[id].rest| else 0
  {
    if id !in m.polls then (m, Some(o))
    else
      ProcessedPoll(m, ids, id, clock);
      var t := ProcessClaim(m, ids, id, clock);
      var after := Processed(m, ids, id, clock);
      if t.None? then (after, None) else Drain(after, ids, id, clock, Tally(o, t.value))
  }

  /** Processing the first claim leads from one machine to the next. */
  ghost predicate Processes(m: Machine, after: Machine, t: Option<TickResult>, ids: Ids, id: Text, clock: int) {
    && id in m.polls && Ready(m, id)
    && ProcessClaim(m, ids, id, clock) == t && Processed(m, ids, id, clock) == after
  }

  ghost function CommitOf(m: Machine, ids: Ids, c: Claimed, clock: int)
    : Result<Store.Outcome<Store.Receipt>, StoreError>
  {
    Store.Commit(m.env, ClaimBatch(ids, c), ids.digest(ClaimBatch(ids, c)), clock)
  }

  lemma CommitFails(m: Machine, ids: Ids, id: Text, clock: int)
    requires id in m.polls && Ready(m, id)
    requires !ids.admits(ClaimBatch(ids, m.polls[id].rest[0])) || CommitOf(m, ids, m.polls[id].rest[0], clock).Err?
    ensures Processes(m, m.(polls := m.polls - {id}), None, ids, id, clock)
  {
  }

  lemma NextFails(m: Machine, ids: Ids, id: Text, clock: int)
    requires id in m.polls && Ready(m, id)
    requires ids.admits(ClaimBatch(ids, m.polls[id].rest[0])) && CommitOf(m, ids, m.polls[id].rest[0], clock).Ok?
    requires var a := m.polls[id].rest[0].activation; a.schedule.next(a.nextTick).None?
    ensures Processes(
      m, m.(env := CommitOf(m, ids, m.polls[id].rest[0], clock).value.env, polls := m.polls - {id}), None, ids, id,
        clock)
  {
    var p := m.polls[id];
    assert m.polls[id := p.(committed := true)] - {id} == m.polls - {id};
  }

  lemma Completion(m: Machine, ids: Ids, id: Text, clock: int, next: I64, completed: Result<Repo, CronError>)
    requires id in m.polls && Ready(m, id)
    requires ids.admits(ClaimBatch(ids, m.polls[id].rest[0])) && CommitOf(m, ids, m.polls[id].rest[0], clock).Ok?
    requires var p := m.polls[id]; var a := p.rest[0].activation;
      && a.schedule.next(a.nextTick) == Some(next)
      && completed == CompleteTick(m.repo, p.rest[0].name, p.worker, a.generation, a.nextTick, next, p.now)
    ensures var p := m.polls[id]; var committed := CommitOf(m, ids, p.rest[0], clock).value;
      var repo := if completed.Ok? then completed.value else m.repo;
      if completed.Ok? || completed.error.LeaseLost?
      then Processes(m, Machine(repo, committed.env, Continue(m.polls, id, p.(rest := p.rest[1..]))),
                     Some(TickResult(committed.value.replayed, completed.Ok?)), ids, id, clock)
      else Processes(m, Machine(repo, committed.env, m.polls - {id}), None, ids, id, clock)
  {
    var p := m.polls[id];
    assert Continue(m.polls[id := p.(committed := true)], id, p.(rest := p.rest[1..])) ==
      Continue(m.polls, id, p.(rest := p.rest[1..]));
    assert m.polls[id := p.(committed := true)] - {id} == m.polls - {id};
  }

  ghost function TallyAll(o: PollOutcome, ts: seq<Option<TickResult>>): Option<PollOutcome>
    decreases |ts|
  {
    if ts == [] then Some(o) else if ts[0].None? then None else TallyAll(Tally(o, ts[0].value), ts[1..])
  }

  ghost predicate Chain(ms: seq<Machine>, ts: seq<Option<TickResult>>, ids: Ids, id: Text, clock: int) {
    && |ms| == |ts| + 1
    && (forall j :: 0 <= j < |ts| ==> Processes(ms[j], ms[j + 1], ts[j], ids, id, clock))
    && (forall j :: 0 <= j < |ts| - 1 ==> ts[j].Some?)
  }

  lemma ChainSnoc(ms: seq<Machine>, ts: seq<Option<TickResult>>, ids: Ids, id: Text, clock: int, after: Machine,
      t: Option<TickResult>)
    requires Chain(ms, ts, ids, id, clock) && Processes(ms[|ts|], after, t, ids, id, clock)
      && (ts == [] || ts[|ts| - 1].Some?)
    ensures Chain(ms + [after], ts + [t], ids, id, clock)
  {
  }

  /** A chain that ends with an error, or with nothing left to process, is the whole poll. */
  lemma {:induction false} ChainDrains(ms: seq<Machine>, ts: seq<Option<TickResult>>, ids: Ids, id: Text, clock: int,
      o: PollOutcome)
    requires Chain(ms, ts, ids, id, clock) && id !in ms[|ts|].polls
    ensures Ready(ms[0], id) && Drain(ms[0], ids, id, clock, o) == (ms[|ts|], TallyAll(o, ts))
    decreases |ts|
  {
    if ts != [] {
      assert Processes(ms[0], ms[1], ts[0], ids, id, clock);
      if ts[0].Some? {
        assert forall j :: 0 <= j < |ts| - 1 ==> Processes(ms[1..][j], ms[1..][j + 1], ts[1..][j], ids, id, clock);
        ChainDrains(ms[1..], ts[1..], ids, id, clock, Tally(o, ts[0].value));
      }
    }
  }

  // ---------------------------------------------------------------- what a whole poll achieves

  /** Every claim is counted once as materialized or replayed, and once as completed or lost. */
  lemma {:induction false} PollCounts(m: Machine, ids: Ids, id: Text, clock: int, o: PollOutcome)
    requires Ready(m, id)
    ensures var n := if id in m.polls then |m.polls[id].rest| else 0;
      var after := Drain(m, ids, id, clock, o).1;
      after.Some? ==>
        && after.value.claimed == o.claimed
        && after.value.materialized + after.value.replayed == o.materialized + o.replayed + n
        && after.value.completed + after.value.leaseLost == o.completed + o.leaseLost + n
    decreases if id in m.polls then |m.polls[id].rest| else 0
  {
    if id in m.polls {
      ProcessedPoll(m, ids, id, clock);
      var t := ProcessClaim(m, ids, id, clock);
      if t.Some? {
        PollCounts(Processed(m, ids, id, clock), ids, id, clock, Tally(o, t.value));
      }
    }
  }

  /** The poll still holds the lease of every claim, in the claimed epoch, and each has a next tick. */
  ghost predicate AllHeld(activations: map<CronName, Activation>, p: Poll) {
    && (forall c :: c in p.rest ==>
          && c.name in activations && activations[c.name] == c.activation && c.activation.owner == Some(p.worker)
          && c.activation.generation < REVISION_LIMIT && c.activation.schedule.next(c.activation.nextTick).Some?)
    && (forall i, j :: 0 <= i < j < |p.rest| ==> p.rest[i].name != p.rest[j].name)
  }

  /** A row that a poll can complete: its lease generation has room, and its schedule ticks again. */
  ghost predicate Completable(a: Activation) {
    a.generation + 1 < REVISION_LIMIT && a.schedule.next(a.nextTick).Some?
  }

  /** Right after the claim every lease is held. */
  lemma ClaimIsHeld(activations: map<CronName, Activation>, names: seq<CronName>, worker: Text, now: I64, until: I64)
    requires until > now
    requires forall name :: name in names && name in activations && Claimable(activations[name], now) ==>
      Completable(activations[name])
    ensures var claimed := ClaimRows(activations, names, worker, now, until);
      AllHeld(claimed.0, Poll(worker, now, claimed.1, false))
  {
    CronHistory.ClaimedRows(activations, names, worker, now, until);
  }

  lemma HeldClaimCompletes(m: Machine, ids: Ids, epochs: Epochs, id: Text, clock: int)
    requires Distinguishes(ids) && CronExactlyOnce.Inv(m, ids, epochs)
    requires id in m.polls && Ready(m, id) && AllHeld(m.repo.activations, m.polls[id])
    ensures var t := ProcessClaim(m, ids, id, clock);
      t.Some? && t.value.completed && (t.value.replayed <==> Stored(m.env, ids, TickOf(m.polls[id].rest[0])))
  {
    var p := m.polls[id];
    var c := p.rest[0];
    assert CronExactlyOnce.PollTracked(p, epochs);
    assert CronExactlyOnce.ClaimTracked(c, epochs);
    var k := EpochOf(TickOf(c));
    assert k in epochs && CronExactlyOnce.ValidEpoch(epochs[k]) && ValidName(k.name);
    CronExactlyOnce.TickCommits(m.env, ids, TickOf(c), epochs, clock);
    assert ids.admits(ClaimBatch(ids, c));
    var next := c.activation.schedule.next(c.activation.nextTick);
    assert IsNext(c.activation.schedule, c.activation.nextTick, next.value);
    assert c in p.rest;
  }

  lemma HeldStaysHeld(m: Machine, ids: Ids, id: Text, clock: int)
    requires id in m.polls && Ready(m, id) && AllHeld(m.repo.activations, m.polls[id])
    ensures var after := Processed(m, ids, id, clock);
      id in after.polls && ProcessClaim(m, ids, id, clock).Some? ==> AllHeld(after.repo.activations, after.polls[id])
  {
    ProcessedPoll(m, ids, id, clock);
    var p := m.polls[id];
    var after := Processed(m, ids, id, clock);
    assert forall c :: c in p.rest[1..] ==> c in p.rest && c.name != p.rest[0].name;
    assert forall name :: name != p.rest[0].name && name in m.repo.activations ==>
      name in after.repo.activations && after.repo.activations[name] == m.repo.activations[name];
  }

  lemma ProcessingKeeps(m: Machine, ids: Ids, epochs: Epochs, id: Text, clock: int) returns (observed: Epochs)
    requires Distinguishes(ids) && CronExactlyOnce.Inv(m, ids, epochs)
    requires id in m.polls && Ready(m, id) && AllHeld(m.repo.activations, m.polls[id])
    ensures CronExactlyOnce.Inv(Processed(m, ids, id, clock), ids, observed)
  {
    CronExactlyOnce.CommitKeeps(m, ids, epochs, id, clock);
    var committed := CommitNext(m, ids, id, clock);
    assert id in committed.polls ==> m.polls[id].rest[0] == committed.polls[id].rest[0];
    assert !Crosses(committed, ids, id);
    CronExactlyOnce.CompleteKeeps(committed, ids, epochs, id);
    observed := Observe(epochs, CompleteNext(committed, id).repo.activations);
  }

  /** The tick of the claim is stored and its row was released at the next tick. */
  ghost predicate Finished(m: Machine, ids: Ids, c: Claimed) {
    var next := c.activation.schedule.next(c.activation.nextTick);
    && Stored(m.env, ids, TickOf(c)) && next.Some? && c.name in m.repo.activations
    && m.repo.activations[c.name] == c.activation.(nextTick := next.value, owner := None, until := None)
  }

  lemma HeldClaimFinishes(m: Machine, ids: Ids, epochs: Epochs, id: Text, clock: int)
    requires Distinguishes(ids) && CronExactlyOnce.Inv(m, ids, epochs)
    requires id in m.polls && Ready(m, id) && AllHeld(m.repo.activations, m.polls[id])
    ensures Finished(Processed(m, ids, id, clock), ids, m.polls[id].rest[0])
  {
    HeldClaimCompletes(m, ids, epochs, id, clock);
    var c := m.polls[id].rest[0];
    assert c in m.polls[id].rest;
    CronExactlyOnce.CommitKeeps(m, ids, epochs, id, clock);
    assert CommitNext(m, ids, id, clock).polls[id].rest[0] == c;
  }

  /** Processing another claim leaves a finished one as it is. */
  lemma FinishedStays(m: Machine, ids: Ids, id: Text, clock: int, c: Claimed)
    requires id in m.polls && Ready(m, id) && m.polls[id].rest[0].name != c.name && Finished(m, ids, c)
    ensures Finished(Processed(m, ids, id, clock), ids, c)
  {
    var batch := ClaimBatch(ids, m.polls[id].rest[0]);
    CronExactlyOnce.SameIdentityAfter(m.env, Store.CommitStep(batch, ids.digest(batch), clock),
      ids.invocation(TickOf(c)));
  }

  lemma {:induction false} FinishedStaysAll(m: Machine, ids: Ids, id: Text, clock: int, o: PollOutcome, c: Claimed)
    requires Ready(m, id) && Finished(m, ids, c)
    requires id in m.polls ==> forall other :: other in m.polls[id].rest ==> other.name != c.name
    ensures Finished(Drain(m, ids, id, clock, o).0, ids, c)
    decreases if id in m.polls then |m.polls[id].rest| else 0
  {
    if id in m.polls {
      ProcessedPoll(m, ids, id, clock);
      FinishedStays(m, ids, id, clock, c);
      var t := ProcessClaim(m, ids, id, clock);
      var after := Processed(m, ids, id, clock);
      if t.Some? {
        assert forall other :: other in m.polls[id].rest[1..] ==> other in m.polls[id].rest;
        FinishedStaysAll(after, ids, id, clock, Tally(o, t.value), c);
      }
    }
  }

  /** One step of a poll that holds its leases. */
  lemma HeldStep(m: Machine, ids: Ids, epochs: Epochs, id: Text, clock: int) returns (observed: Epochs)
    requires Distinguishes(ids) && CronExactlyOnce.Inv(m, ids, epochs)
    requires id in m.polls && Ready(m, id) && AllHeld(m.repo.activations, m.polls[id])
    ensures var after := Processed(m, ids, id, clock); var p := m.polls[id];
      && CronExactlyOnce.Inv(after, ids, observed) && Finished(after, ids, p.rest[0])
      && after.polls == Continue(m.polls, id, p.(rest := p.rest[1..]))
      && (id in after.polls ==> AllHeld(after.repo.activations, after.polls[id]))
    ensures var t := ProcessClaim(m, ids, id, clock); t.Some? && t.value.completed
  {
    ProcessedPoll(m, ids, id, clock);
    HeldClaimCompletes(m, ids, epochs, id, clock);
    HeldClaimFinishes(m, ids, epochs, id, clock);
    HeldStaysHeld(m, ids, id, clock);
    observed := ProcessingKeeps(m, ids, epochs, id, clock);
  }

  /** A poll that holds its leases, and that nobody interrupts, completes every claim left to it and loses no lease. */
  lemma {:induction false} PollAdvancesAll(m: Machine, ids: Ids, epochs: Epochs, id: Text, clock: int, o: PollOutcome)
    requires Distinguishes(ids) && CronExactlyOnce.Inv(m, ids, epochs) && Ready(m, id)
    requires id in m.polls ==> AllHeld(m.repo.activations, m.polls[id])
    ensures var n := if id in m.polls then |m.polls[id].rest| else 0;
      var after := Drain(m, ids, id, clock, o).1;
      after.Some? && after.value.completed == o.completed + n && after.value.leaseLost == o.leaseLost
    decreases if id in m.polls then |m.polls[id].rest| else 0
  {
    if id in m.polls {
      var observed := HeldStep(m, ids, epochs, id, clock);
      PollAdvancesAll(Processed(m, ids, id, clock), ids, observed, id, clock,
        Tally(o, ProcessClaim(m, ids, id, clock).value));
    }
  }

  lemma DrainSteps(m: Machine, ids: Ids, id: Text, clock: int, o: PollOutcome)
    requires id in m.polls && Ready(m, id) && ProcessClaim(m, ids, id, clock).Some?
    ensures var after := Processed(m, ids, id, clock); var t := ProcessClaim(m, ids, id, clock).value;
      Ready(after, id) && Drain(m, ids, id, clock, o) == Drain(after, ids, id, clock, Tally(o, t))
  {
    ProcessedPoll(m, ids, id, clock);
  }

  lemma OthersDiffer(activations: map<CronName, Activation>, p: Poll)
    requires AllHeld(activations, p) && p.rest != []
    ensures forall c :: c in p.rest[1..] ==> c.name != p.rest[0].name
  {
    forall c | c in p.rest[1..] ensures c.name != p.rest[0].name {
      var i :| 0 <= i < |p.rest| - 1 && p.rest[1..][i] == c;
      assert p.rest[i + 1] == c;
    }
  }

  /** It also stores the tick of each, and moves its row to the next one. */
  lemma {:induction false} PollFinishesAll(m: Machine, ids: Ids, epochs: Epochs, id: Text, clock: int, o: PollOutcome,
      i: nat)
    requires Distinguishes(ids) && CronExactlyOnce.Inv(m, ids, epochs) && id in m.polls && Ready(m, id)
    requires AllHeld(m.repo.activations, m.polls[id]) && i < |m.polls[id].rest|
    ensures Finished(Drain(m, ids, id, clock, o).0, ids, m.polls[id].rest[i])
    decreases i
  {
    var p := m.polls[id];
    var observed := HeldStep(m, ids, epochs, id, clock);
    DrainSteps(m, ids, id, clock, o);
    var after := Processed(m, ids, id, clock);
    var tallied := Tally(o, ProcessClaim(m, ids, id, clock).value);
    if i == 0 {
      OthersDiffer(m.repo.activations, p);
      FinishedStaysAll(after, ids, id, clock, tallied, p.rest[0]);
    } else {
      assert after.polls[id].rest == p.rest[1..];
      PollFinishesAll(after, ids, observed, id, clock, tallied, i - 1);
    }
  }

  /**
   A poll from its own claim on: when nobody interrupts it, it stores the tick of every activation it
   claimed, moves each to its next tick, and loses no lease.
   */
  lemma UninterruptedPollCompletes(
    m: Machine, ids: Ids, epochs: Epochs, id: Text, worker: Text, names: seq<CronName>, now: I64, until: I64,
      clock: int)
    requires Distinguishes(ids) && CronExactlyOnce.Inv(m, ids, epochs) && id !in m.polls && 0 <= now < until
    requires forall name :: name in names && name in m.repo.activations && Claimable(m.repo.activations[name], now) ==>
      Completable(m.repo.activations[name])
    ensures var start := ClaimNext(m, id, worker, names, now, until);
      var claims := ClaimRows(m.repo.activations, names, worker, now, until).1;
      && Ready(start, id)
      && var (after, outcome) := Drain(start, ids, id, clock, PollOutcome(|claims|, 0, 0, 0, 0));
         && outcome.Some? && outcome.value.claimed == outcome.value.completed == |claims|
         && outcome.value.leaseLost == 0
         && outcome.value.materialized + outcome.value.replayed == |claims|
         && forall c :: c in claims ==> Finished(after, ids, c)
  {
    var start := ClaimNext(m, id, worker, names, now, until);
    var claims := ClaimRows(m.repo.activations, names, worker, now, until).1;
    CronExactlyOnce.ClaimKeeps(m, ids, epochs, id, worker, names, now, until);
    ClaimIsHeld(m.repo.activations, names, worker, now, until);
    PollCounts(start, ids, id, clock, PollOutcome(|claims|, 0, 0, 0, 0));
    PollAdvancesAll(start, ids, epochs, id, clock, PollOutcome(|claims|, 0, 0, 0, 0));
    forall i | 0 <= i < |claims|
      ensures Finished(Drain(start, ids, id, clock, PollOutcome(|claims|, 0, 0, 0, 0)).0, ids, claims[i])
    {
      PollFinishesAll(start, ids, epochs, id, clock, PollOutcome(|claims|, 0, 0, 0, 0), i);
    }
  }

  // ---------------------------------------------------------------- the poll as it runs

  /**
   The identities are those of the scope; the quantifier keeps their encodings out of proofs that do
   not name them.
   */
  ghost predicate NamedBy(ids: Ids, scope: CronScope) {
    forall s: CronScope {:trigger CronIds(s)} :: s == scope ==> ids == CronIds(s)
  }

  class Materializer {
    const repository: Repository
    const store: Adapter
    const worker: Text
    const batchSize: nat
    const lease: I64
    ghost const ids: Ids

    constructor (repository: Repository, store: Adapter, worker: Text, batchSize: nat, lease: I64)
      requires repository.context.scope == store.scope
      ensures this.repository == repository && this.store == store && this.worker == worker
      ensures this.batchSize == batchSize && this.lease == lease && Valid()
    {
      this.repository, this.store, this.worker := repository, store, worker;
      this.batchSize, this.lease := batchSize, lease;
      this.ids := CronIds(repository.context.scope);
    }

    /** Both stores serve one Environment, and ticks are named by it. */
    ghost predicate Valid() {
      repository.context.scope == store.scope && NamedBy(ids, repository.context.scope)
    }

    /** The state of both stores beside the polls of other workers. */
    ghost function State(polls: map<Text, Poll>): Machine
      reads repository, store
    {
      Machine(repository.State(), store.State(), polls)
    }

    /** The bytes that identify a tick, filled in piece by piece. */
    method FillTickIdentity(scope: CronScope, t: TickId) returns (bytes: seq<int>)
      ensures bytes == TickIdentityBytes(scope, t)
    {
      bytes := scope.project;
      bytes := bytes + [0];
      bytes := bytes + scope.environment;
      bytes := bytes + [0];
      bytes := bytes + t.name;
      bytes := bytes + BigEndian(8, t.revision);
      bytes := bytes + BigEndian(8, Unsigned(t.tick));
      assert BigEndian(8, Unsigned(t.tick)) + [] == BigEndian(8, Unsigned(t.tick));
    }

    /** Commits the deterministic operation of one tick; says whether it was a replay. */
    method CommitTick(c: Claimed, clock: int) returns (r: Result<bool, CronError>)
      requires Valid()
      modifies store
      ensures var batch := ClaimBatch(ids, c);
              var committed := Store.Commit(old(store.State()), batch, ids.digest(batch), clock);
              if ids.admits(batch) && committed.Ok?
              then r == Ok(committed.value.value.replayed) && store.State() == committed.value.env
              else r.Err? && store.State() == old(store.State())
    {
      var scope := repository.context.scope;
      var t := TickOf(c);
      var identity := FillTickIdentity(scope, t);
      var batch := Batch(scope, OPERATION_MAGIC + identity, [], [], [], [],
        [ScheduleInsert(SCHEDULE_MAGIC + identity, PinnedText(c.activation.code), c.activation.target,
                        c.activation.args, c.activation.nextTick, Some(TickKey(t)))], None);
      assert batch == ClaimBatch(CronIds(scope), c);
      var commit := store.Commit(batch, clock);
      r := if commit.Err? then Err(MapStoreError(commit.error)) else Ok(commit.value.replayed);
    }

    /** Commits the tick of one claim and then advances its cursor. */
    method ProcessOne(c: Claimed, now: I64, clock: int, ghost polls: map<Text, Poll>, ghost id: Text,
        ghost rest: seq<Claimed>)
        returns (r: Result<TickResult, CronError>)
      requires Valid() && id !in polls && rest != [] && rest[0] == c
      modifies repository, store
      ensures Processes(old(State(polls[id := Poll(worker, now, rest, false)])),
                        State(if r.Ok? then Continue(polls, id, Poll(worker, now, rest[1..], false)) else polls),
                        if r.Ok? then Some(r.value) else None, ids, id, clock)
    {
      ghost var m := State(polls[id := Poll(worker, now, rest, false)]);
      assert m.polls - {id} == polls;
      assert Continue(m.polls, id, Poll(worker, now, rest[1..], false)) ==
        Continue(polls, id, Poll(worker, now, rest[1..], false));
      var commit := CommitTick(c, clock);
      if commit.Err? {
        CommitFails(m, ids, id, clock);
        return Err(commit.error);
      }
      var next := c.activation.schedule.next(c.activation.nextTick);
      if next.None? {
        NextFails(m, ids, id, clock);
        return Err(CronError.Corruption);
      }
      var failure := repository.CompleteTick(c.name, worker, c.activation.generation, c.activation.nextTick, next.value,
        now);
      Completion(m, ids, id, clock, next.value, if failure.None? then Ok(repository.State()) else Err(failure.value));
      r := if failure.None? then Ok(TickResult(commit.value, true))
           else if failure.value.LeaseLost? then Ok(TickResult(commit.value, false))
           else Err(failure.value);
    }

    /** Processes the claims in turn until one ends with an error. */
    method ProcessAll(claimed: seq<Claimed>, now: I64, clock: int, ghost polls: map<Text, Poll>, ghost id: Text)
        returns (r: Result<PollOutcome, CronError>, ghost ms: seq<Machine>, ghost ts: seq<Option<TickResult>>)
      requires Valid() && id !in polls
      modifies repository, store
      ensures Chain(ms, ts, ids, id, clock)
      ensures ms[0] == old(State(Continue(polls, id, Poll(worker, now, claimed, false)))) && ms[|ts|] == State(polls)
      ensures var outcome := TallyAll(PollOutcome(|claimed|, 0, 0, 0, 0), ts);
              if outcome.Some? then r == Ok(outcome.value) else r.Err?
    {
      var outcome := PollOutcome(|claimed|, 0, 0, 0, 0);
      ms, ts := [State(Continue(polls, id, Poll(worker, now, claimed, false)))], [];
      for i := 0 to |claimed|
        invariant Chain(ms, ts, ids, id, clock) && |ts| == i && (i > 0 ==> ts[i - 1].Some?)
        invariant ms[0] == old(State(Continue(polls, id, Poll(worker, now, claimed, false))))
        invariant ms[i] == State(Continue(polls, id, Poll(worker, now, claimed[i..], false)))
        invariant TallyAll(PollOutcome(|claimed|, 0, 0, 0, 0), ts) == Some(outcome)
      {
        var one := ProcessOne(claimed[i], now, clock, polls, id, claimed[i..]);
        assert claimed[i..][1..] == claimed[i + 1..];
        ghost var t := if one.Ok? then Some(one.value) else None;
        TallySnoc(PollOutcome(|claimed|, 0, 0, 0, 0), ts, t);
        ghost var after := State(if one.Ok? then Continue(polls, id, Poll(worker, now, claimed[i + 1..], false))
          else polls);
        ChainSnoc(ms, ts, ids, id, clock, after, t);
        ms, ts := ms + [after], ts + [t];
        if one.Err? {
          return Err(one.error), ms, ts;
        }
        outcome := Tally(outcome, one.value);
      }
      r := Ok(outcome);
    }

    /**
     One bounded poll. Without interruption it is exactly one claim followed by the processing of
     each claimed activation in turn; it counts what it did, and an error ends it early.
     */
    method PollAt(now: I64, clock: int, ghost polls: map<Text, Poll>, ghost id: Text)
      returns (r: Result<PollOutcome, CronError>)
      requires Valid() && id !in polls
      modifies repository, store
      ensures Polled(old(State(polls)), State(polls), r, ids, id, clock,
        Started(old(State(polls)), id, worker, now, lease, batchSize))
    {
      if now < 0 {
        return Err(InvalidInput);
      }
      if now + lease >= 0x8000_0000_0000_0000 || now + lease < -0x8000_0000_0000_0000 {
        return Err(CronError.LimitExceeded);
      }
      var claims := repository.ClaimDue(worker, now, now + lease, batchSize);
      if claims.Err? {
        return Err(claims.error);
      }
      ghost var ms, ts;
      r, ms, ts := ProcessAll(claims.value, now, clock, polls, id);
      ChainDrains(ms, ts, ids, id, clock, PollOutcome(|claims.value|, 0, 0, 0, 0));
    }
  }

  /** A machine in which a poll has just made its claims. */
  datatype Start = Start(machine: Machine, claimed: nat)

  /** The claims of a poll that starts now, or why it does not start. */
  ghost function Started(m: Machine, id: Text, worker: Text, now: I64, lease: I64, batchSize: nat)
    : Result<Start, CronError>
  {
    if now < 0 then Err(InvalidInput)
    else if now + lease >= 0x8000_0000_0000_0000 || now + lease < -0x8000_0000_0000_0000 then
      Err(CronError.LimitExceeded)
    else
      var claims := ClaimDue(m.repo, worker, now, now + lease, batchSize);
      if claims.Err? then Err(claims.error)
      else
        var polls := Continue(m.polls, id, Poll(worker, now, claims.value.value, false));
        Ok(Start(Machine(claims.value.repo, m.env, polls), |claims.value.value|))
  }

  /** A poll leads from one machine to the next: it did not start, or it drained its claims. */
  ghost predicate Polled(
    before: Machine, after: Machine, r: Result<PollOutcome, CronError>, ids: Ids, id: Text, clock: int,
      start: Result<Start, CronError>)
  {
    if start.Err? then r.Err? && after == before
    else
      && Ready(start.value.machine, id)
      && var drained := Drain(start.value.machine, ids, id, clock, PollOutcome(start.value.claimed, 0, 0, 0, 0));
         after == drained.0 && if drained.1.Some? then r == Ok(drained.1.value) else r.Err?
  }

  /** A poll that starts is the claim step of the protocol on the names that are due. */
  lemma StartIsClaim(m: Machine, id: Text, worker: Text, now: I64, lease: I64, batchSize: nat)
    returns (names: seq<CronName>, until: I64)
    requires id !in m.polls && Started(m, id, worker, now, lease, batchSize).Ok?
    ensures 0 <= now < until == now + lease
    ensures var claims := ClaimRows(m.repo.activations, names, worker, now, until).1;
      Started(m, id, worker, now, lease, batchSize) == Ok(Start(ClaimNext(m, id, worker, names, now, until), |claims|))
  {
    names, until := DueNames(m.repo.activations, now, batchSize), now + lease;
  }

  /** So a poll that starts and that nobody interrupts succeeds and completes all it claimed. */
  lemma PollCompletes(m: Machine, after: Machine, r: Result<PollOutcome, CronError>, ids: Ids, epochs: Epochs, id: Text,
      worker: Text, now: I64, lease: I64, batchSize: nat, clock: int)
    requires Distinguishes(ids) && CronExactlyOnce.Inv(m, ids, epochs) && id !in m.polls
    requires Started(m, id, worker, now, lease, batchSize).Ok?
    requires Polled(m, after, r, ids, id, clock, Started(m, id, worker, now, lease, batchSize))
    requires forall name :: name in m.repo.activations && Claimable(m.repo.activations[name], now) ==>
      Completable(m.repo.activations[name])
    ensures r.Ok? && r.value.claimed == r.value.completed && r.value.leaseLost == 0
    ensures r.value.materialized + r.value.replayed == r.value.claimed
  {
    var names, until := StartIsClaim(m, id, worker, now, lease, batchSize);
    UninterruptedPollCompletes(m, ids, epochs, id, worker, names, now, until, clock);
  }

  lemma {:induction false} TallySnoc(o: PollOutcome, ts: seq<Option<TickResult>>, t: Option<TickResult>)
    requires TallyAll(o, ts).Some?
    decreases |ts|
    ensures TallyAll(o, ts + [t]) == if t.None? then None else Some(Tally(TallyAll(o, ts).value, t.value))
  {
    if ts == [] {
      assert [t][1..] == [];
    } else {
      assert (ts + [t])[1..] == ts[1..] + [t];
      TallySnoc(Tally(o, ts[0].value), ts[1..], t);
    }
  }

  function MapStoreError(error: StoreError): CronError {
    match error
    case LimitExceeded => CronError.LimitExceeded
    case OperationIdReused => Conflict
    case DuplicateMutation => Conflict
    case MutationConflict => Conflict
    case Corruption => CronError.Corruption
    case _ => Unavailable
  }
}
