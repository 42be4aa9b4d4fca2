/**
 The materializer protocol over two stores. Workers claim activations, commit each tick to the
 logical store under a deterministic operation and then advance the activation's cursor. Commands,
 other workers, lease expiry, crashes and every other use of the store may come in between.
 */
module CronMachine {

  import opened Values
  import opened Encoding
  import opened Batch
  import Store
  import opened CronSchedule
  import opened Cron
  import opened CronRepository
  import CronHistory

  /** How a tick is named in the store. */
  datatype Ids = Ids(
    scope: Scope, operation: TickId -> Text, invocation: TickId -> Sized, key: TickId -> Sized,
      code: PinnedCode -> Sized,
    digest: Batch -> seq<int>, admits: Batch -> bool)

  /**
   The identities the materializer derives; the digest stands for its pre-image, and the store admits
   valid batches.
   */
  function CronIds(scope: CronScope): Ids {
    Ids(scope, t => OperationOf(scope, t), t => InvocationOf(scope, t), t => TickKey(t), code => PinnedText(code),
        b => Preimage(b), b => Valid(b))
  }

  /** Distinct ticks have distinct names, and the store admits the batch of every tick. */
  ghost predicate Distinguishes(ids: Ids) {
    && (forall s: TickId, t: TickId :: ids.operation(s) == ids.operation(t) ==> s == t)
    && (forall s: TickId, t: TickId :: ids.invocation(s) == ids.invocation(t) ==> s == t)
    && (forall s: TickId, t: TickId :: ValidName(s.name) && ValidName(t.name) && ids.key(s) == ids.key(t) ==> s == t)
    && (forall t: TickId, code: PinnedCode, target: Sized, args: Sized :: |args| <= MAX_ARGS_BYTES ==>
      ids.admits(TickBatch(ids, t, code, target, args)))
  }

  lemma TickBatchIsValid(scope: CronScope, t: TickId, code: PinnedCode, target: Sized, args: Sized)
    requires |args| <= MAX_ARGS_BYTES
    ensures Valid(TickBatch(CronIds(scope), t, code, target, args))
  {
    var batch := TickBatch(CronIds(scope), t, code, target, args);
    assert batch.schedules[1..] == [];
    assert ScheduleBytes(batch.schedules) == |args|;
  }

  lemma CronIdsDistinguish(scope: CronScope)
    ensures Distinguishes(CronIds(scope))
  {
    forall t: TickId, code: PinnedCode, target: Sized, args: Sized | |args| <= MAX_ARGS_BYTES
      ensures CronIds(scope).admits(TickBatch(CronIds(scope), t, code, target, args))
    {
      TickBatchIsValid(scope, t, code, target, args);
    }
    forall s: TickId, t: TickId | OperationOf(scope, s) == OperationOf(scope, t) ensures s == t {
      OperationInjective(scope, s, t);
    }
    forall s: TickId, t: TickId | InvocationOf(scope, s) == InvocationOf(scope, t) ensures s == t {
      InvocationInjective(scope, s, t);
    }
    forall s: TickId, t: TickId | ValidName(s.name) && ValidName(t.name) && TickKey(s) == TickKey(t) ensures s == t {
      TickKeyInjective(s, t);
    }
  }

  /** One poll of a worker: the claims still to process, and whether the first one's tick is committed. */
  datatype Poll = Poll(worker: Text, now: I64, rest: seq<Claimed>, committed: bool)

  /** Polls under way, by an identifier of the poll. */
  datatype Machine = Machine(repo: Repo, env: Store.Env, polls: map<Text, Poll>)

  function TickOf(c: Claimed): TickId {
    TickId(c.name, c.activation.revision, c.activation.nextTick)
  }

  function TickInsert(ids: Ids, t: TickId, code: PinnedCode, target: Sized, args: Sized): ScheduleInsert {
    ScheduleInsert(ids.invocation(t), ids.code(code), target, args, t.tick, Some(ids.key(t)))
  }

  /** The commit of one tick: a single scheduled invocation. */
  function TickBatch(ids: Ids, t: TickId, code: PinnedCode, target: Sized, args: Sized): Batch {
    Batch(ids.scope, ids.operation(t), [], [], [], [], [TickInsert(ids, t, code, target, args)], None)
  }

  function ClaimBatch(ids: Ids, c: Claimed): Batch {
    TickBatch(ids, TickOf(c), c.activation.code, c.activation.target, c.activation.args)
  }

  datatype Step =
    | CommandStep(operation: Text, command: Command, manifest: Option<Manifest>, digest: seq<int>)
    | ClaimStep(id: Text, worker: Text, names: seq<CronName>, now: I64, until: I64)
    | CommitStep(id: Text, clock: int)
    | CompleteStep(id: Text)
    | CrashStep(id: Text)
    | StoreStep(step: Store.Step)

  /** A poll with nothing left to process has returned. */
  function Continue(polls: map<Text, Poll>, id: Text, poll: Poll): map<Text, Poll> {
    if poll.rest == [] then polls - {id} else polls[id := poll]
  }

  function ClaimNext(m: Machine, id: Text, worker: Text, names: seq<CronName>, now: I64, until: I64): Machine {
    if id in m.polls || now < 0 || until <= now then m
    else
      var claimed := ClaimRows(m.repo.activations, names, worker, now, until);
      m.(repo := m.repo.(activations := claimed.0), polls := Continue(m.polls, id, Poll(worker, now, claimed.1, false)))
  }

  /** Commits the tick of the first claim; an error ends the poll and leaves the lease to expire. */
  function CommitNext(m: Machine, ids: Ids, id: Text, clock: int): Machine {
    if id !in m.polls || m.polls[id].rest == [] || m.polls[id].committed then m
    else
      var poll := m.polls[id];
      var batch := ClaimBatch(ids, poll.rest[0]);
      var r := Store.Commit(m.env, batch, ids.digest(batch), clock);
      if !ids.admits(batch) || r.Err? then m.(polls := m.polls - {id})
      else m.(env := r.value.env, polls := m.polls[id := poll.(committed := true)])
  }

  /** Advances the cursor past the committed tick; a lost lease only moves on to the next claim. */
  function CompleteNext(m: Machine, id: Text): Machine {
    if id !in m.polls || m.polls[id].rest == [] || !m.polls[id].committed then m
    else
      var poll := m.polls[id];
      var c := poll.rest[0];
      var next := c.activation.schedule.next(c.activation.nextTick);
      if next.None? then m.(polls := m.polls - {id})
      else
        var polls := Continue(m.polls, id, poll.(rest := poll.rest[1..], committed := false));
        var r := CompleteTick(m.repo, c.name, poll.worker, c.activation.generation, c.activation.nextTick, next.value,
          poll.now);
        if r.Ok? then m.(repo := r.value, polls := polls)
        else if r.error.LeaseLost? then m.(polls := polls)
        else m.(polls := m.polls - {id})
  }

  function Next(m: Machine, ids: Ids, step: Step): Machine {
    match step
    case CommandStep(operation, command, manifest, digest) =>
      m.(repo := CronHistory.Next(m.repo, CronHistory.ApplyStep(operation, command, manifest, digest)))
    case ClaimStep(id, worker, names, now, until) => ClaimNext(m, id, worker, names, now, until)
    case CommitStep(id, clock) => CommitNext(m, ids, id, clock)
    case CompleteStep(id) => CompleteNext(m, id)
    case CrashStep(id) => m.(polls := m.polls - {id})
    case StoreStep(step) => m.(env := Store.Next(m.env, step))
  }

  ghost predicate Stored(env: Store.Env, ids: Ids, t: TickId) {
    ids.invocation(t) in env.schedules
  }

  /**
   Completing the claim on this row would move the cursor of another epoch, and not as that epoch's
   own claim would: its tick is not stored yet, or the claimed schedule ticks at another time.
   */
  ghost predicate Strays(env: Store.Env, ids: Ids, c: Claimed, row: Activation) {
    var next := c.activation.schedule.next(c.activation.nextTick);
    && row.revision != c.activation.revision && next.Some?
    && !(Stored(env, ids, TickId(c.name, row.revision, row.nextTick)) && IsNext(row.schedule, row.nextTick, next.value))
  }

  /** The completion of the poll's committed claim takes effect on the row of another epoch and strays. */
  ghost predicate Crosses(m: Machine, ids: Ids, id: Text) {
    && id in m.polls && m.polls[id].committed && m.polls[id].rest != []
    && var p := m.polls[id];
       var c := p.rest[0];
       && Holds(m.repo.activations, c.name, p.worker, c.activation.generation, c.activation.nextTick)
       && c.activation.generation < REVISION_LIMIT
       && Strays(m.env, ids, c, m.repo.activations[c.name])
  }

  /** Other users of the store choose neither the operation ids, the invocation ids nor the keys of ticks. */
  ghost predicate Foreign(step: Store.Step, ids: Ids) {
    step.CommitStep? ==>
      forall t {:trigger ids.operation(t)} {:trigger ids.invocation(t)} {:trigger ids.key(t)} ::
        && step.batch.operationId != ids.operation(t)
        && forall i :: 0 <= i < |step.batch.schedules| ==>
             step.batch.schedules[i].id != ids.invocation(t)
               && step.batch.schedules[i].idempotencyKey != Some(ids.key(t))
  }

  /** Commands carry a trusted time, and other users of the store keep to their own names. */
  ghost predicate Trusted(step: Step, ids: Ids) {
    (step.CommandStep? ==> step.command.at >= 0) && (step.StoreStep? ==> Foreign(step.step, ids))
  }

  /** A trusted step that is no completion across epochs. */
  ghost predicate Allowed(m: Machine, step: Step, ids: Ids) {
    Trusted(step, ids) && (step.CompleteStep? ==> !Crosses(m, ids, step.id))
  }

  // ---------------------------------------------------------------- epochs

  /** One activation of a name under a revision, from its first tick to its cursor. */
  datatype Epoch = Epoch(schedule: Times, code: PinnedCode, target: Sized, args: Sized, first: I64, cursor: I64)

  datatype EpochKey = EpochKey(name: CronName, revision: Revision)

  type Epochs = map<EpochKey, Epoch>

  function KeyOf(name: CronName, a: Activation): EpochKey {
    EpochKey(name, a.revision)
  }

  function EpochOf(t: TickId): EpochKey {
    EpochKey(t.name, t.revision)
  }

  function Current(activations: map<CronName, Activation>): set<EpochKey> {
    set name | name in activations :: KeyOf(name, activations[name])
  }

  function Advanced(epochs: Epochs, k: EpochKey, a: Activation): Epoch {
    if k in epochs then epochs[k].(cursor := a.nextTick)
    else Epoch(a.schedule, a.code, a.target, a.args, a.nextTick, a.nextTick)
  }

  /** Records the epochs of the present rows; the others keep their last cursor. */
  function Observe(epochs: Epochs, activations: map<CronName, Activation>): Epochs {
    map k | k in epochs.Keys + Current(activations) ::
      if k.name in activations && activations[k.name].revision == k.revision then
        Advanced(epochs, k, activations[k.name]) else epochs[k]
  }
}
