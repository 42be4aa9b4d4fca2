/**
 One Environment of the logical store as a state machine. Every serializable transaction is one
 atomic step; a transaction that fails is rolled back and leaves the state as it was.
 */
module Store {

  import opened Order
  import opened Values
  import opened Encoding
  import opened Batch

  const I64_MAX: nat := 0x7fff_ffff_ffff_ffff
  const MAX_OUTBOX_CLAIM: nat := 1_000
  const MAX_SCHEDULE_CLAIM: nat := 100
  const MAX_ERROR_CODE_BYTES: nat := 64

  datatype Document = Document(revision: nat, sequence: nat, createdAt: int, updatedAt: int, value: Sized)

  datatype IndexRow = IndexRow(table: Sized, revision: nat, sequence: nat)

  /** A row of the operation journal with its per-document results. */
  datatype Operation = Operation(digest: seq<int>, sequence: nat, results: seq<RevisionResult>)

  datatype RevisionResult = RevisionResult(key: DocumentKey, revision: Option<nat>)

  datatype OutboxRow = OutboxRow(sequence: nat, payload: Sized)

  /** A position in the total order of the outbox. */
  datatype Cursor = Cursor(sequence: nat, eventId: Text)

  datatype Consumer = Consumer(
    cursor: Option<Cursor>, owner: Option<Text>, until: Option<int>, generation: nat, claimed: Option<Cursor>)

  datatype Status = Pending | Running | Succeeded | Failed | Cancelled

  datatype Schedule = Schedule(
    pinnedCode: Sized, target: Sized, args: Sized, executeAt: int, status: Status, attempts: nat, generation: nat,
    owner: Option<Text>, until: Option<int>, idempotencyKey: Option<Sized>, lastError: Option<Text>, sequence: nat)

  datatype Env = Env(
    scope: Scope, sequence: nat, documents: map<DocumentKey, Document>, indexes: map<(Sized, Sized, Sized), IndexRow>,
    journal: map<Text, Operation>, outbox: map<Sized, OutboxRow>, consumers: map<Text, Consumer>,
    schedules: map<Sized, Schedule>)

  function EmptyEnv(scope: Scope): Env {
    Env(scope, 0, map[], map[], map[], map[], map[], map[])
  }

  // ---------------------------------------------------------------- commit

  datatype Receipt = Receipt(sequence: nat, results: seq<RevisionResult>, replayed: bool)

  function RevisionOf(documents: map<DocumentKey, Document>, key: DocumentKey): Option<nat> {
    if key in documents then Some(documents[key].revision) else None
  }

  /** Every asserted read still observes the same revision. */
  predicate ReadsHold(documents: map<DocumentKey, Document>, assertions: seq<ReadAssertion>) {
    forall i :: 0 <= i < |assertions| ==> RevisionOf(documents, assertions[i].key) == assertions[i].observed
  }

  datatype Applied<T> = Applied(documents: map<DocumentKey, Document>, result: T)

  function ApplyDocument(documents: map<DocumentKey, Document>, m: DocumentMutation, sequence: nat, now: int)
    : Result<Applied<RevisionResult>, StoreError>
  {
    match m
    case Upsert(key, Absent, value) =>
      if key in documents then Err(MutationConflict)
      else Ok(Applied(documents[key := Document(1, sequence, now, now, value)], RevisionResult(key, Some(1))))
    case Upsert(key, Exact(expected), value) =>
      if expected == 0 then Err(MutationConflict)
      else if expected + 1 > I64_MAX then Err(LimitExceeded)
      else if RevisionOf(documents, key) != Some(expected) then Err(MutationConflict)
      else Ok(Applied(documents[key := Document(expected + 1, sequence, documents[key].createdAt, now, value)],
                      RevisionResult(key, Some(expected + 1))))
    case Delete(key, expected) =>
      if expected == 0 then Err(MutationConflict)
      else if expected > I64_MAX then Err(LimitExceeded)
      else if RevisionOf(documents, key) != Some(expected) then Err(MutationConflict)
      else Ok(Applied(documents - {key}, RevisionResult(key, None)))
  }

  function ApplyDocuments(documents: map<DocumentKey, Document>, ms: seq<DocumentMutation>, sequence: nat, now: int)
    : Result<Applied<seq<RevisionResult>>, StoreError>
  {
    if ms == [] then Ok(Applied(documents, []))
    else
      var before := ApplyDocuments(documents, ms[..|ms| - 1], sequence, now);
      if before.Err? then before
      else
        var last := ApplyDocument(before.value.documents, ms[|ms| - 1], sequence, now);
        if last.Err? then Err(last.error)
        else Ok(Applied(last.value.documents, before.value.result + [last.value.result]))
  }

  function ApplyIndex(
      indexes: map<(Sized, Sized, Sized), IndexRow>, documents: map<DocumentKey, Document>, m: IndexMutation,
      sequence: nat)
    : Result<map<(Sized, Sized, Sized), IndexRow>, StoreError>
  {
    match m
    case Put(_, _, entry, revision) =>
      if revision == 0 then Err(MutationConflict)
      else if revision > I64_MAX then Err(LimitExceeded)
      else if RevisionOf(documents, entry) != Some(revision) then Err(MutationConflict)
      else Ok(indexes[IndexIdentity(m) := IndexRow(entry.table, revision, sequence)])
    case Remove(_, _, _) => Ok(indexes - {IndexIdentity(m)})
  }

  function ApplyIndexes(
      indexes: map<(Sized, Sized, Sized), IndexRow>, documents: map<DocumentKey, Document>, ms: seq<IndexMutation>,
      sequence: nat)
    : Result<map<(Sized, Sized, Sized), IndexRow>, StoreError>
  {
    if ms == [] then Ok(indexes)
    else
      var before := ApplyIndexes(indexes, documents, ms[..|ms| - 1], sequence);
      if before.Err? then before else ApplyIndex(before.value, documents, ms[|ms| - 1], sequence)
  }

  function AppendEvents(outbox: map<Sized, OutboxRow>, es: seq<OutboxAppend>, sequence: nat)
    : Result<map<Sized, OutboxRow>, StoreError>
  {
    if es == [] then Ok(outbox)
    else
      var before := AppendEvents(outbox, es[..|es| - 1], sequence);
      var last := es[|es| - 1];
      if before.Err? then before
      else if last.eventId in before.value then Err(MutationConflict)
      else Ok(before.value[last.eventId := OutboxRow(sequence, last.payload)])
  }

  /** The unique indexes on identity and on idempotency key. */
  predicate ScheduleFree(schedules: map<Sized, Schedule>, s: ScheduleInsert) {
    && s.id !in schedules
    && (s.idempotencyKey.Some? ==> forall id :: id in schedules ==> schedules[id].idempotencyKey != s.idempotencyKey)
  }

  function NewSchedule(s: ScheduleInsert, sequence: nat): Schedule {
    Schedule(s.pinnedCode, s.target, s.args, s.executeAt, Pending, 0, 0, None, None, s.idempotencyKey, None, sequence)
  }

  function InsertSchedules(schedules: map<Sized, Schedule>, ss: seq<ScheduleInsert>, sequence: nat)
    : Result<map<Sized, Schedule>, StoreError>
  {
    if ss == [] then Ok(schedules)
    else
      var before := InsertSchedules(schedules, ss[..|ss| - 1], sequence);
      var last := ss[|ss| - 1];
      if before.Err? then before
      else if !ScheduleFree(before.value, last) then Err(MutationConflict)
      else Ok(before.value[last.id := NewSchedule(last, sequence)])
  }

  datatype Outcome<T> = Outcome(env: Env, value: T)

  /** A commit of an operation id not seen before. */
  function FreshCommit(env: Env, b: Batch, digest: seq<int>, now: int): Result<Outcome<Receipt>, StoreError> {
    if !ReadsHold(env.documents, b.assertions) then Err(MutationConflict)
    else
      var sequence := env.sequence + 1;
      var applied := ApplyDocuments(env.documents, b.documents, sequence, now);
      if applied.Err? then Err(applied.error)
      else
        var indexes := ApplyIndexes(env.indexes, applied.value.documents, b.indexes, sequence);
        if indexes.Err? then Err(indexes.error)
        else
          var outbox := AppendEvents(env.outbox, b.outbox, sequence);
          if outbox.Err? then Err(outbox.error)
          else
            var schedules := InsertSchedules(env.schedules, b.schedules, sequence);
            if schedules.Err? then Err(schedules.error)
            else
              Ok(Outcome(
                   env.(sequence := sequence, documents := applied.value.documents, indexes := indexes.value,
                        outbox := outbox.value, schedules := schedules.value,
                        journal := env.journal[b.operationId := Operation(digest, sequence, applied.value.result)]),
                   Receipt(sequence, applied.value.result, false)))
  }

  /** A commit of a validated batch under its digest: a known operation id is replayed or refused, a new one applied. */
  function Commit(env: Env, b: Batch, digest: seq<int>, now: int): Result<Outcome<Receipt>, StoreError> {
    if b.scope != env.scope then Err(NotFound)
    else if b.operationId in env.journal then
      var operation := env.journal[b.operationId];
      if operation.digest != digest then Err(OperationIdReused)
      else if |operation.results| != |b.documents| then Err(Corruption)
      else Ok(Outcome(env, Receipt(operation.sequence, operation.results, true)))
    else FreshCommit(env, b, digest, now)
  }

  // ---------------------------------------------------------------- outbox

  datatype OutboxEvent = OutboxEvent(eventId: Text, sequence: nat, payload: Sized)

  datatype Claim = Claim(generation: nat, acknowledged: Option<Cursor>, events: seq<OutboxEvent>)

  function Rank(c: Cursor): Key {
    [c.sequence] + c.eventId
  }

  function PositionOf(e: OutboxEvent): Cursor {
    Cursor(e.sequence, e.eventId)
  }

  predicate Beyond(position: Key, cursor: Option<Cursor>) {
    cursor.Some? ==> Less(Rank(cursor.value), position)
  }

  function RowRank(outbox: map<Sized, OutboxRow>, id: Sized): Key
    requires id in outbox
  {
    Rank(Cursor(outbox[id].sequence, id))
  }

  /** The positions beyond the cursor. */
  function Unread(outbox: map<Sized, OutboxRow>, cursor: Option<Cursor>): set<Key> {
    set id: Sized | id in outbox && Beyond(RowRank(outbox, id), cursor) :: RowRank(outbox, id)
  }

  function EventAt(outbox: map<Sized, OutboxRow>, position: Key): OutboxEvent
    requires position != [] && position[1..] in outbox
  {
    OutboxEvent(position[1..], outbox[position[1..]].sequence, outbox[position[1..]].payload)
  }

  function EventsAt(outbox: map<Sized, OutboxRow>, positions: seq<Key>): (es: seq<OutboxEvent>)
    requires forall p :: p in positions ==> p != [] && p[1..] in outbox
    ensures |es| == |positions|
  {
    seq(|positions|, i requires 0 <= i < |positions| => assert positions[i] in positions; EventAt(outbox, positions[i]))
  }

  const FreshConsumer: Consumer := Consumer(None, None, None, 0, None)

  function ConsumerOf(env: Env, name: Text): Consumer {
    if name in env.consumers then env.consumers[name] else FreshConsumer
  }

  /** The lease may be taken: nobody holds it, the same worker does, or it ran out. */
  predicate Claimable(c: Consumer, worker: Text, now: int) {
    c.owner.None? || c.owner == Some(worker) || (c.until.Some? && c.until.value <= now)
  }

  function ClaimOutbox(env: Env, name: Text, worker: Text, now: int, until: int, limit: nat)
    : Result<Outcome<Claim>, StoreError>
  {
    if limit == 0 || limit > MAX_OUTBOX_CLAIM || until <= now then Err(LimitExceeded)
    else
      var c := ConsumerOf(env, name);
      if !Claimable(c, worker, now) then Err(Busy)
      else
        var events := EventsAt(env.outbox, First(Unread(env.outbox, c.cursor), limit));
        Ok(Outcome(env.(consumers := env.consumers[name := AfterClaim(c, worker, until, events)]),
          Claim(c.generation + 1, c.cursor, events)))
  }

  /** A claim that finds nothing releases the lease at once. */
  function AfterClaim(c: Consumer, worker: Text, until: int, events: seq<OutboxEvent>): Consumer {
    if events != [] then
      c.(owner := Some(worker), until := Some(until), generation := c.generation + 1,
         claimed := Some(PositionOf(events[|events| - 1])))
    else c.(owner := None, until := None, generation := c.generation + 1)
  }

  function AckOutbox(env: Env, name: Text, worker: Text, generation: nat, through: Cursor): Result<Env, StoreError> {
    if generation == 0 || through.sequence == 0 then Err(OutboxLeaseLost)
    else if through.sequence > I64_MAX || generation > I64_MAX then Err(LimitExceeded)
    else
      var c := ConsumerOf(env, name);
      if name in env.consumers && c.owner == Some(worker) && c.generation == generation
         && c.claimed == Some(through) then
        var released := c.(cursor := Some(through), claimed := None, owner := None, until := None);
        Ok(env.(consumers := env.consumers[name := released]))
      else Err(OutboxLeaseLost)
  }

  // ---------------------------------------------------------------- scheduled invocations

  predicate Due(s: Schedule, now: int) {
    s.executeAt <= now && (s.status.Pending? || (s.status.Running? && s.until.Some? && s.until.value <= now))
  }

  /** Due rows that no concurrent transaction holds locked, ranked by time and then id. */
  function DueRanks(schedules: map<Sized, Schedule>, now: int, locked: set<Sized>): set<Key> {
    set id | id in schedules && id !in locked && Due(schedules[id], now) :: [schedules[id].executeAt] + id
  }

  function IdsAt(ranks: seq<Key>): (ids: seq<Text>)
    requires forall r :: r in ranks ==> r != []
    ensures |ids| == |ranks|
  {
    seq(|ranks|, i requires 0 <= i < |ranks| => assert ranks[i] in ranks; ranks[i][1..])
  }

  function Leased(s: Schedule, worker: Text, until: int): Schedule {
    s.(status := Running, attempts := s.attempts + 1, generation := s.generation + 1,
       owner := Some(worker), until := Some(until))
  }

  function LeaseAll(schedules: map<Sized, Schedule>, ids: set<Text>, worker: Text, until: int): map<Sized, Schedule> {
    map id | id in schedules :: if id in ids then Leased(schedules[id], worker, until) else schedules[id]
  }

  /** A leased row as it is handed to its worker. */
  datatype ScheduleClaim = ScheduleClaim(id: Sized, record: Schedule)

  function ClaimsAt(ids: seq<Text>, schedules: map<Sized, Schedule>): (claims: seq<ScheduleClaim>)
    requires forall id :: id in ids ==> id in schedules
    ensures |claims| == |ids|
  {
    seq(|ids|, i requires 0 <= i < |ids| => assert ids[i] in ids; ClaimOf(ids[i], schedules))
  }

  function ClaimOf(name: Text, schedules: map<Sized, Schedule>): ScheduleClaim
    requires name in schedules
  {
    var id: Sized := name;
    ScheduleClaim(id, schedules[id])
  }

  lemma DueIdsExist(schedules: map<Sized, Schedule>, now: int, limit: nat, locked: set<Sized>)
    ensures forall id :: id in IdsAt(First(DueRanks(schedules, now, locked), limit)) ==> id in schedules
  {
    var ranks := First(DueRanks(schedules, now, locked), limit);
    forall i | 0 <= i < |ranks| ensures ranks[i] != [] && ranks[i][1..] in schedules {
      assert ranks[i] in ranks && ranks[i] in DueRanks(schedules, now, locked);
      var id: Sized :| id in schedules && ranks[i] == [schedules[id].executeAt] + id;
      assert ranks[i][1..] == id;
    }
  }

  function ClaimDue(env: Env, worker: Text, now: int, until: int, limit: nat, locked: set<Sized>)
    : Result<Outcome<seq<ScheduleClaim>>, StoreError>
  {
    if limit == 0 || limit > MAX_SCHEDULE_CLAIM || until <= now then Err(LimitExceeded)
    else
      var ids := IdsAt(First(DueRanks(env.schedules, now, locked), limit));
      var leased := LeaseAll(env.schedules, (set id | id in ids), worker, until);
      DueIdsExist(env.schedules, now, limit, locked);
      Ok(Outcome(env.(schedules := leased), ClaimsAt(ids, leased)))
  }

  datatype Completion =
    | Success
    | Retry(executeAt: int, errorCode: Text)
    | Failure(errorCode: Text)

  predicate ValidErrorCode(code: Text) {
    && code != [] && |code| <= MAX_ERROR_CODE_BYTES
    && forall i :: 0 <= i < |code| ==> 65 <= code[i] <= 90 || 48 <= code[i] <= 57 || code[i] == 95
  }

  predicate ValidCompletion(c: Completion) {
    c.Success? || ValidErrorCode(c.errorCode)
  }

  function Completed(s: Schedule, c: Completion): Schedule {
    match c
    case Success => s.(status := Succeeded, owner := None, until := None, lastError := None)
    case Retry(executeAt, code) =>
      s.(status := Pending, executeAt := executeAt, owner := None, until := None, lastError := Some(code))
    case Failure(code) => s.(status := Failed, owner := None, until := None, lastError := Some(code))
  }

  /** Exactly the current owner and generation hold the lease. */
  predicate HoldsLease(env: Env, id: Sized, worker: Text, generation: nat) {
    && id in env.schedules && env.schedules[id].status.Running?
    && env.schedules[id].owner == Some(worker) && env.schedules[id].generation == generation
  }

  function CompleteScheduled(env: Env, id: Sized, worker: Text, generation: nat, c: Completion)
    : Result<Env, StoreError>
  {
    if !ValidCompletion(c) then Err(LimitExceeded)
    else if generation == 0 then Err(MutationConflict)
    else if generation > I64_MAX then Err(LimitExceeded)
    else if HoldsLease(env, id, worker, generation) then
      Ok(env.(schedules := env.schedules[id := Completed(env.schedules[id], c)]))
    else Err(LeaseLost)
  }

  datatype CancelResult = NowCancelled | AlreadyCancelled | StillRunning | Terminal

  function CancelScheduled(env: Env, id: Sized): Result<Outcome<CancelResult>, StoreError> {
    if id !in env.schedules then Err(NotFound)
    else
      match env.schedules[id].status
      case Pending =>
        var cancelled := env.schedules[id := env.schedules[id].(status := Cancelled)];
        Ok(Outcome(env.(schedules := cancelled), NowCancelled))
      case Running => Ok(Outcome(env, StillRunning))
      case Cancelled => Ok(Outcome(env, AlreadyCancelled))
      case _ => Ok(Outcome(env, Terminal))
  }

  // ---------------------------------------------------------------- steps and runs

  datatype Step =
    | CommitStep(batch: Batch, digest: seq<int>, now: int)
    | ClaimStep(consumer: Text, worker: Text, now: int, until: int, limit: nat)
    | AckStep(consumer: Text, worker: Text, generation: nat, through: Cursor)
    | LeaseStep(worker: Text, now: int, until: int, limit: nat, locked: set<Sized>)
    | CompleteStep(id: Sized, worker: Text, generation: nat, completion: Completion)
    | CancelStep(id: Sized)

  function Next(env: Env, step: Step): Env {
    match step
    case CommitStep(b, digest, now) =>
      var r := Commit(env, b, digest, now);
      if r.Ok? then r.value.env else env
    case ClaimStep(consumer, worker, now, until, limit) =>
      var r := ClaimOutbox(env, consumer, worker, now, until, limit);
      if r.Ok? then r.value.env else env
    case AckStep(consumer, worker, generation, through) =>
      var r := AckOutbox(env, consumer, worker, generation, through);
      if r.Ok? then r.value else env
    case LeaseStep(worker, now, until, limit, locked) =>
      var r := ClaimDue(env, worker, now, until, limit, locked);
      if r.Ok? then r.value.env else env
    case CompleteStep(id, worker, generation, completion) =>
      var r := CompleteScheduled(env, id, worker, generation, completion);
      if r.Ok? then r.value else env
    case CancelStep(id) =>
      var r := CancelScheduled(env, id);
      if r.Ok? then r.value.env else env
  }

  ghost predicate StepAt(states: seq<Env>, steps: seq<Step>, i: nat)
    requires |states| == |steps| + 1 && i < |steps|
  {
    states[i + 1] == Next(states[i], steps[i])
  }

  /** Only validated batches reach a transaction, each with its own digest. */
  ghost predicate ValidatedAt(steps: seq<Step>, i: nat)
    requires i < |steps|
  {
    steps[i].CommitStep? ==> Valid(steps[i].batch) && steps[i].digest == Preimage(steps[i].batch)
  }

  /** The states a sequence of steps goes through. */
  ghost predicate IsRun(states: seq<Env>, steps: seq<Step>) {
    && |states| == |steps| + 1
    && (forall i :: 0 <= i < |steps| ==> StepAt(states, steps, i))
    && (forall i :: 0 <= i < |steps| ==> ValidatedAt(steps, i))
  }

  /** A run starting from an empty Environment. */
  ghost predicate IsHistory(states: seq<Env>, steps: seq<Step>) {
    IsRun(states, steps) && states[0] == EmptyEnv(states[0].scope)
  }

  /** What each kind of step leaves alone. */
  lemma StepFrame(env: Env, step: Step)
    ensures Next(env, step).scope == env.scope
    ensures !step.CommitStep? ==>
      && Next(env, step).sequence == env.sequence && Next(env, step).documents == env.documents
      && Next(env, step).indexes == env.indexes && Next(env, step).journal == env.journal
      && Next(env, step).outbox == env.outbox
    ensures !step.ClaimStep? && !step.AckStep? ==> Next(env, step).consumers == env.consumers
    ensures step.ClaimStep? || step.AckStep? ==> Next(env, step).schedules == env.schedules
  {
    match step
    case CommitStep(b, digest, now) => CommitFrame(env, b, digest, now);
    case ClaimStep(_, _, _, _, _) => assert OnlyConsumers(env, Next(env, step));
    case AckStep(_, _, _, _) => assert OnlyConsumers(env, Next(env, step));
    case LeaseStep(_, _, _, _, _) => assert OnlySchedules(env, Next(env, step));
    case CompleteStep(_, _, _, _) => assert OnlySchedules(env, Next(env, step));
    case CancelStep(_) => assert OnlySchedules(env, Next(env, step));
  }

  predicate OnlyConsumers(env: Env, after: Env) {
    after == env.(consumers := after.consumers)
  }

  predicate OnlySchedules(env: Env, after: Env) {
    after == env.(schedules := after.schedules)
  }

  lemma CommitFrame(env: Env, b: Batch, digest: seq<int>, now: int)
    ensures var r := Commit(env, b, digest, now); r.Ok? ==>
      r.value.env.scope == env.scope && r.value.env.consumers == env.consumers
  {
  }
}
