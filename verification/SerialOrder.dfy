/**
 Optimistic concurrency: mutations evaluated on snapshots and committed later behave as if they
 ran one after another in commit order, and exactly when an asserted read is safe.
 */
module SerialOrder {

  import opened Values
  import opened Encoding
  import opened Batch
  import opened Store

  function RecordOf(documents: map<DocumentKey, Document>, key: DocumentKey): Option<Document> {
    if key in documents then Some(documents[key]) else None
  }

  // ---------------------------------------------------------------- one commit and one document

  /** What a commit numbered `sequence` may do to one document. */
  predicate RecordStep(before: Option<Document>, after: Option<Document>, sequence: nat) {
    || after == before
    || (after.Some? && after.value.sequence == sequence
        && after.value.revision == (if before.Some? then before.value.revision + 1 else 1)
        && (before.Some? ==> after.value.createdAt == before.value.createdAt))
    || (before.Some? && after.None?)
  }

  lemma {:induction false} UntouchedDocument(documents: map<DocumentKey, Document>, ms: seq<DocumentMutation>,
      sequence: nat, now: int, key: DocumentKey)
    requires forall i :: 0 <= i < |ms| ==> ms[i].key != key
    ensures var r := ApplyDocuments(documents, ms, sequence, now);
            r.Ok? ==> RecordOf(r.value.documents, key) == RecordOf(documents, key)
  {
    if ms != [] {
      UntouchedDocument(documents, ms[..|ms| - 1], sequence, now, key);
    }
  }

  lemma {:induction false} DocumentSteps(documents: map<DocumentKey, Document>, ms: seq<DocumentMutation>,
      sequence: nat, now: int, key: DocumentKey)
    requires forall i, j :: 0 <= i < j < |ms| ==> ms[i].key != ms[j].key
    ensures var r := ApplyDocuments(documents, ms, sequence, now);
            r.Ok? ==> RecordStep(RecordOf(documents, key), RecordOf(r.value.documents, key), sequence)
  {
    if ms != [] {
      if ms[|ms| - 1].key == key {
        UntouchedDocument(documents, ms[..|ms| - 1], sequence, now, key);
      } else {
        DocumentSteps(documents, ms[..|ms| - 1], sequence, now, key);
      }
    }
  }

  predicate DocumentsDistinct(b: Batch) {
    forall i, j :: 0 <= i < j < |b.documents| ==> b.documents[i].key != b.documents[j].key
  }

  /** A commit leaves the documents alone, or applies its mutations under the next sequence. */
  lemma CommitDocuments(env: Env, b: Batch, digest: seq<int>, now: int)
    requires Commit(env, b, digest, now).Ok?
    ensures var after := Commit(env, b, digest, now).value.env;
            var applied := ApplyDocuments(env.documents, b.documents, env.sequence + 1, now);
            || after == env
            || (applied.Ok? && after.documents == applied.value.documents && after.sequence == env.sequence + 1)
  {
  }

  lemma CommitStepsDocument(env: Env, b: Batch, digest: seq<int>, now: int, key: DocumentKey)
    requires DocumentsDistinct(b)
    requires Commit(env, b, digest, now).Ok?
    ensures RecordStep(RecordOf(env.documents, key), RecordOf(Commit(env, b, digest, now).value.env.documents, key),
      env.sequence + 1)
    ensures RecordOf(Commit(env, b, digest, now).value.env.documents, key) != RecordOf(env.documents, key) ==>
              Commit(env, b, digest, now).value.env.sequence == env.sequence + 1
  {
    CommitDocuments(env, b, digest, now);
    DocumentSteps(env.documents, b.documents, env.sequence + 1, now, key);
  }

  lemma StepStepsDocument(env: Env, step: Step, key: DocumentKey)
    requires step.CommitStep? ==> DocumentsDistinct(step.batch)
    ensures RecordStep(RecordOf(env.documents, key), RecordOf(Next(env, step).documents, key), env.sequence + 1)
    ensures env.sequence <= Next(env, step).sequence
    ensures RecordOf(Next(env, step).documents, key) != RecordOf(env.documents, key) ==>
      Next(env, step).sequence == env.sequence + 1
  {
    StepFrame(env, step);
    if step.CommitStep? && Commit(env, step.batch, step.digest, step.now).Ok? {
      CommitStepsDocument(env, step.batch, step.digest, step.now, key);
      CommitDocuments(env, step.batch, step.digest, step.now);
    }
  }

  // ---------------------------------------------------------------- one document over a history

  lemma DocumentStepAt(states: seq<Env>, steps: seq<Step>, n: nat, key: DocumentKey)
    requires IsRun(states, steps) && n < |steps|
    ensures RecordStep(RecordOf(states[n].documents, key), RecordOf(states[n + 1].documents, key),
      states[n].sequence + 1)
    ensures states[n].sequence <= states[n + 1].sequence
    ensures RecordOf(states[n + 1].documents, key) != RecordOf(states[n].documents, key) ==>
      states[n + 1].sequence == states[n].sequence + 1
  {
    assert StepAt(states, steps, n);
    assert ValidatedAt(steps, n);
    StepStepsDocument(states[n], steps[n], key);
  }

  /** Stored records carry sequences already issued. */
  lemma {:induction false} RecordIssued(states: seq<Env>, steps: seq<Step>, n: nat, key: DocumentKey)
    requires IsHistory(states, steps) && n < |states|
    ensures key in states[n].documents ==> states[n].documents[key].sequence <= states[n].sequence
  {
    if n > 0 {
      RecordIssued(states, steps, n - 1, key);
      DocumentStepAt(states, steps, n - 1, key);
    }
  }

  ghost predicate PresentThroughout(states: seq<Env>, i: nat, j: nat, key: DocumentKey)
    requires i <= j < |states|
  {
    forall m :: i <= m <= j ==> key in states[m].documents
  }

  /** A document that is never deleted only gains revisions, and an unchanged revision is an unchanged record. */
  lemma {:induction false} RevisionDeterminesRecord(states: seq<Env>, steps: seq<Step>, i: nat, j: nat,
      key: DocumentKey)
    requires IsRun(states, steps) && i <= j < |states| && PresentThroughout(states, i, j, key)
    ensures states[i].documents[key].revision <= states[j].documents[key].revision
    ensures states[i].documents[key].revision == states[j].documents[key].revision ==>
      states[i].documents[key] == states[j].documents[key]
    decreases j - i
  {
    if i < j {
      RevisionDeterminesRecord(states, steps, i, j - 1, key);
      DocumentStepAt(states, steps, j - 1, key);
    }
  }

  /** A document created after a moment carries a later sequence than that moment's. */
  lemma {:induction false} CreatedLater(states: seq<Env>, steps: seq<Step>, m: nat, j: nat, key: DocumentKey)
    requires IsRun(states, steps) && m <= j < |states| && key !in states[m].documents
    ensures states[m].sequence <= states[j].sequence
    ensures key in states[j].documents ==> states[m].sequence < states[j].documents[key].sequence
    decreases j - m
  {
    if m < j {
      CreatedLater(states, steps, m, j - 1, key);
      DocumentStepAt(states, steps, j - 1, key);
    }
  }

  lemma {:induction false} SequencesGrow(states: seq<Env>, steps: seq<Step>, i: nat, j: nat)
    requires IsRun(states, steps) && i <= j < |states|
    ensures states[i].sequence <= states[j].sequence
    decreases j - i
  {
    if i < j {
      SequencesGrow(states, steps, i, j - 1);
      DocumentStepAt(states, steps, j - 1, DocumentKey([], []));
    }
  }

  /**
   When the revision observed at a snapshot is still the current one, the record is still the
   observed one exactly when the document was never deleted in between.
   */
  lemma AssertedReadIsExact(states: seq<Env>, steps: seq<Step>, i: nat, j: nat, key: DocumentKey)
    requires IsHistory(states, steps) && i <= j < |states|
    requires key in states[i].documents && RevisionOf(states[j].documents, key) == RevisionOf(states[i].documents, key)
    ensures RecordOf(states[j].documents, key) == RecordOf(states[i].documents, key) <==>
      PresentThroughout(states, i, j, key)
  {
    if PresentThroughout(states, i, j, key) {
      RevisionDeterminesRecord(states, steps, i, j, key);
    } else {
      var m :| i <= m <= j && key !in states[m].documents;
      RecordIssued(states, steps, i, key);
      SequencesGrow(states, steps, i, m);
      CreatedLater(states, steps, m, j, key);
    }
  }

  function Removal(scope: Scope, operation: Text, key: DocumentKey): Batch {
    Batch(scope, operation, [], [Delete(key, 1)], [], [], [], None)
  }

  function Creation(scope: Scope, operation: Text, key: DocumentKey, value: Sized): Batch {
    Batch(scope, operation, [], [Upsert(key, Absent, value)], [], [], [], None)
  }

  lemma RecreationIsValid(scope: Scope, operation: Text, key: DocumentKey, value: Sized)
    requires |value| <= MAX_PAYLOAD_BYTES
    ensures Valid(Removal(scope, operation, key)) && Valid(Creation(scope, operation, key, value))
  {
    var remove, create := Removal(scope, operation, key), Creation(scope, operation, key, value);
    assert remove.documents[1..] == [] && create.documents[1..] == [];
    assert DocumentBytes(remove.documents) == DocumentBytes([]) == 0;
    assert create.documents[0].value == value && DocumentBytes(create.documents) == |value| + DocumentBytes([]);
  }

  /**
   Deleting and re-creating a document, in two valid operations, restarts its revision: the assertion
   of a read made before still passes, although the record differs.
   */
  lemma RecreationPasses(env: Env, key: DocumentKey, first: Text, second: Text, value: Sized, digest: Batch -> seq<int>,
      now: int)
    requires key in env.documents && env.documents[key].revision == 1 && env.documents[key].sequence <= env.sequence
    requires first !in env.journal && second !in env.journal && first != second && |value| <= MAX_PAYLOAD_BYTES
    ensures var remove := Removal(env.scope, first, key);
            var create := Creation(env.scope, second, key, value);
            && Valid(remove) && Valid(create)
            && var gone := Commit(env, remove, digest(remove), now);
               && gone.Ok?
               && var back := Commit(gone.value.env, create, digest(create), now);
                  && back.Ok? && ReadsHold(back.value.env.documents, [ReadAssertion(key, Some(1))])
                  && RecordOf(back.value.env.documents, key) != RecordOf(env.documents, key)
  {
    var remove, create := Removal(env.scope, first, key), Creation(env.scope, second, key, value);
    RecreationIsValid(env.scope, first, key, value);
    RecreationIsValid(env.scope, second, key, value);
    assert remove.documents[..0] == [] && create.documents[..0] == [];
    assert ApplyDocuments(env.documents, [], env.sequence + 1, now) == Ok(Applied(env.documents, []));
    var gone := Commit(env, remove, digest(remove), now).value.env;
    assert ApplyDocuments(gone.documents, [], gone.sequence + 1, now) == Ok(Applied(gone.documents, []));
  }

  // ---------------------------------------------------------------- mutations

  /** A mutation function evaluated on the documents of a snapshot. */
  type Mutation = map<DocumentKey, Document> -> Batch

  /** `d` shows the same records as `c` wherever the batch asserts a read. */
  ghost predicate AgreesOnReads(c: map<DocumentKey, Document>, d: map<DocumentKey, Document>, b: Batch) {
    forall i :: 0 <= i < |b.assertions| ==> RecordOf(c, b.assertions[i].key) == RecordOf(d, b.assertions[i].key)
  }

  /** The batch is determined by the documents it asserts, with the revisions it observed. */
  ghost predicate AssertsItsReads(f: Mutation) {
    && (forall c, d {:trigger f(c), f(d)} :: AgreesOnReads(c, d, f(c)) ==> f(d) == f(c))
    && (forall c, i {:trigger f(c).assertions[i]} :: 0 <= i < |f(c).assertions| ==>
          f(c).assertions[i].observed == RevisionOf(c, f(c).assertions[i].key))
  }

  /** What happens to an Environment: a mutation evaluated on an earlier state, or any other step. */
  datatype Action = Mutate(f: Mutation, snapshot: nat, now: int) | Other(step: Step)

  /** The mutation's commit at state `n` was new and succeeded. */
  ghost predicate Committed(env: Env, b: Batch, digest: seq<int>, now: int) {
    b.operationId !in env.journal && Commit(env, b, digest, now).Ok?
  }

  /**
   An optimistic history: every mutation was evaluated on some earlier state and committed
   afterwards, and no document it read was deleted in between.
   */
  ghost predicate Optimistic(states: seq<Env>, steps: seq<Step>, actions: seq<Action>) {
    && IsHistory(states, steps) && |actions| == |steps|
    && forall n :: 0 <= n < |actions| ==> OptimisticAt(states, steps, actions, n)
  }

  ghost predicate OptimisticAt(states: seq<Env>, steps: seq<Step>, actions: seq<Action>, n: nat)
    requires |states| == |steps| + 1 && |actions| == |steps| && n < |steps|
  {
    match actions[n]
    case Other(step) => steps[n] == step
    case Mutate(f, snapshot, now) =>
      && snapshot <= n && AssertsItsReads(f)
      && var b := f(states[snapshot].documents);
         && steps[n] == CommitStep(b, Preimage(b), now) && Committed(states[n], b, Preimage(b), now)
         && forall i :: 0 <= i < |b.assertions| && b.assertions[i].observed.Some? ==>
              PresentThroughout(states, snapshot, n, b.assertions[i].key)
  }

  /** The action performed on its own, a mutation evaluated on the state it commits to. */
  ghost function Alone(env: Env, action: Action): Env {
    match action
    case Mutate(f, _, now) => Next(env, CommitStep(f(env.documents), Preimage(f(env.documents)), now))
    case Other(step) => Next(env, step)
  }

  ghost predicate FollowsAt<S, A>(f: (S, A) -> S, states: seq<S>, actions: seq<A>, n: nat)
    requires |states| == |actions| + 1 && n < |actions|
  {
    states[n + 1] == f(states[n], actions[n])
  }

  /** The actions performed one after another. */
  ghost predicate Follows<S, A>(f: (S, A) -> S, states: seq<S>, actions: seq<A>) {
    |states| == |actions| + 1 && forall n :: 0 <= n < |actions| ==> FollowsAt(f, states, actions, n)
  }

  lemma {:induction false} FollowsUniquely<S, A>(f: (S, A) -> S, states: seq<S>, others: seq<S>, actions: seq<A>,
      n: nat)
    requires Follows(f, states, actions) && Follows(f, others, actions) && states[0] == others[0] && n < |states|
    ensures states[n] == others[n]
  {
    if n > 0 {
      FollowsUniquely(f, states, others, actions, n - 1);
      assert FollowsAt(f, states, actions, n - 1) && FollowsAt(f, others, actions, n - 1);
    }
  }

  /** Recomputing a committed mutation on the state it committed to gives the same batch. */
  lemma RecomputedBatch(states: seq<Env>, steps: seq<Step>, actions: seq<Action>, n: nat)
    requires Optimistic(states, steps, actions) && n < |actions| && actions[n].Mutate?
    ensures actions[n].snapshot < |states|
    ensures actions[n].f(states[n].documents) == actions[n].f(states[actions[n].snapshot].documents)
  {
    assert OptimisticAt(states, steps, actions, n);
    var f, snapshot := actions[n].f, actions[n].snapshot;
    var b := f(states[snapshot].documents);
    forall i | 0 <= i < |b.assertions|
      ensures RecordOf(states[snapshot].documents, b.assertions[i].key) ==
        RecordOf(states[n].documents, b.assertions[i].key)
    {
      var key := b.assertions[i].key;
      assert b.assertions[i].observed == RevisionOf(states[snapshot].documents, key);
      assert RevisionOf(states[n].documents, key) == b.assertions[i].observed;
      if key in states[snapshot].documents {
        AssertedReadIsExact(states, steps, snapshot, n, key);
      }
    }
    assert AgreesOnReads(states[snapshot].documents, states[n].documents, b);
  }

  lemma OptimisticIsAlone(states: seq<Env>, steps: seq<Step>, actions: seq<Action>, n: nat)
    requires Optimistic(states, steps, actions) && n < |actions|
    ensures FollowsAt(Alone, states, actions, n)
  {
    assert StepAt(states, steps, n);
    assert OptimisticAt(states, steps, actions, n);
    if actions[n].Mutate? {
      RecomputedBatch(states, steps, actions, n);
    }
  }

  /**
   The optimistic history is the serial one, state by state: the one in which the same actions run
   alone, one after another, in commit order.
   */
  lemma SerialEquivalence(states: seq<Env>, steps: seq<Step>, actions: seq<Action>, serial: seq<Env>)
    requires Optimistic(states, steps, actions)
    requires Follows(Alone, serial, actions) && serial[0] == states[0]
    ensures serial == states
  {
    forall n | 0 <= n < |actions| ensures FollowsAt(Alone, states, actions, n) {
      OptimisticIsAlone(states, steps, actions, n);
    }
    forall n | 0 <= n < |states| ensures serial[n] == states[n] {
      FollowsUniquely(Alone, states, serial, actions, n);
    }
  }
}
