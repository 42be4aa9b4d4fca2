/** The operation journal over whole histories: dense sequences, permanence, exact replay. */
module Journal {

  import opened Values
  import opened Batch
  import opened Store

  ghost predicate Uses(env: Env, n: nat) {
    exists id :: id in env.journal && env.journal[id].sequence == n
  }

  /** Sequences in the journal are exactly 1 up to the Environment's, each used once. */
  ghost predicate Dense(env: Env) {
    && (forall id :: id in env.journal ==> 1 <= env.journal[id].sequence <= env.sequence)
    && (forall id, other :: id in env.journal && other in env.journal && id != other ==>
          env.journal[id].sequence != env.journal[other].sequence)
    && (forall n :: 1 <= n <= env.sequence ==> Uses(env, n))
  }

  lemma {:induction false} ResultPerDocument(documents: map<DocumentKey, Document>, ms: seq<DocumentMutation>,
      sequence: nat, now: int)
    ensures var r := ApplyDocuments(documents, ms, sequence, now); r.Ok? ==> |r.value.result| == |ms|
  {
    if ms != [] {
      ResultPerDocument(documents, ms[..|ms| - 1], sequence, now);
    }
  }

  /** What a commit does to the journal. */
  lemma CommitJournal(env: Env, b: Batch, digest: seq<int>, now: int)
    requires Commit(env, b, digest, now).Ok?
    ensures var r := Commit(env, b, digest, now).value;
            if b.operationId in env.journal then r.env == env && r.value.replayed
            else
              && !r.value.replayed && r.env.sequence == env.sequence + 1 == r.value.sequence
              && r.env.journal == env.journal[b.operationId := Operation(digest, r.value.sequence, r.value.results)]
              && |r.value.results| == |b.documents|
  {
    ResultPerDocument(env.documents, b.documents, env.sequence + 1, now);
  }

  lemma SameJournal(env: Env, after: Env)
    requires Dense(env) && after.journal == env.journal && after.sequence == env.sequence
    ensures Dense(after)
  {
    forall n | 1 <= n <= after.sequence ensures Uses(after, n) {
      assert Uses(env, n);
    }
  }

  lemma NewEntry(env: Env, after: Env, id: Text)
    requires Dense(env) && id !in env.journal
    requires after.sequence == env.sequence + 1 && after.journal.Keys == env.journal.Keys + {id}
    requires forall other :: other in env.journal ==> after.journal[other] == env.journal[other]
    requires after.journal[id].sequence == after.sequence
    ensures Dense(after)
  {
    forall n | 1 <= n <= after.sequence ensures Uses(after, n) {
      if n == after.sequence {
        assert after.journal[id].sequence == n;
      } else {
        assert Uses(env, n);
        var other :| other in env.journal && env.journal[other].sequence == n;
        assert after.journal[other].sequence == n;
      }
    }
  }

  lemma StepKeepsDense(env: Env, step: Step)
    requires Dense(env)
    ensures Dense(Next(env, step))
  {
    var after := Next(env, step);
    StepFrame(env, step);
    if step.CommitStep? && Commit(env, step.batch, step.digest, step.now).Ok?
      && step.batch.operationId !in env.journal {
      CommitJournal(env, step.batch, step.digest, step.now);
      NewEntry(env, after, step.batch.operationId);
    } else {
      if step.CommitStep? && Commit(env, step.batch, step.digest, step.now).Ok? {
        CommitJournal(env, step.batch, step.digest, step.now);
      }
      SameJournal(env, after);
    }
  }

  /** In every reachable state the journal's sequences are exactly 1 up to the Environment's. */
  lemma {:induction false} HistoryIsDense(states: seq<Env>, steps: seq<Step>, n: nat)
    requires IsHistory(states, steps) && n < |states|
    ensures Dense(states[n])
  {
    if n > 0 {
      HistoryIsDense(states, steps, n - 1);
      StepKeepsDense(states[n - 1], steps[n - 1]);
      assert StepAt(states, steps, n - 1);
    }
  }

  lemma StepKeepsEntries(env: Env, step: Step)
    ensures env.sequence <= Next(env, step).sequence && env.scope == Next(env, step).scope
    ensures forall id :: id in env.journal ==>
      id in Next(env, step).journal && Next(env, step).journal[id] == env.journal[id]
  {
    StepFrame(env, step);
    if step.CommitStep? && Commit(env, step.batch, step.digest, step.now).Ok? {
      CommitJournal(env, step.batch, step.digest, step.now);
    }
  }

  /** An entry, once written, never changes; the sequence never falls. */
  lemma {:induction false} JournalIsPermanent(states: seq<Env>, steps: seq<Step>, i: nat, j: nat)
    requires IsRun(states, steps) && i <= j < |states|
    ensures states[i].sequence <= states[j].sequence && states[i].scope == states[j].scope
    ensures forall id :: id in states[i].journal ==>
      id in states[j].journal && states[j].journal[id] == states[i].journal[id]
    decreases j - i
  {
    if i < j {
      JournalIsPermanent(states, steps, i, j - 1);
      assert StepAt(states, steps, j - 1);
      StepKeepsEntries(states[j - 1], steps[j - 1]);
    }
  }

  /**
   After a commit, at any later time: the same content under the same operation id returns the
   original sequence and revisions and changes nothing; any other content is refused.
   */
  lemma ReplayIsExact(states: seq<Env>, steps: seq<Step>, i: nat, j: nat, b: Batch, again: Batch, now: int)
    requires IsRun(states, steps) && i < j < |states|
    requires steps[i].CommitStep? && steps[i].batch == b && Commit(states[i], b, steps[i].digest, steps[i].now).Ok?
    requires Valid(again) && again.scope == b.scope && again.operationId == b.operationId
    ensures var first := Commit(states[i], b, steps[i].digest, steps[i].now).value.value;
            Commit(states[j], again, Preimage(again), now) ==
              if again == b then Ok(Outcome(states[j], Receipt(first.sequence, first.results, true)))
              else Err(OperationIdReused)
  {
    JournaledAfter(states, steps, i, j);
    assert ValidatedAt(steps, i);
    SameDigestSameContent(again, b);
  }

  /** A successful commit is in the journal at all later times, with its digest and its receipt. */
  lemma JournaledAfter(states: seq<Env>, steps: seq<Step>, i: nat, j: nat)
    requires IsRun(states, steps) && i < j < |states|
    requires steps[i].CommitStep? && Commit(states[i], steps[i].batch, steps[i].digest, steps[i].now).Ok?
    ensures states[j].scope == steps[i].batch.scope && steps[i].batch.operationId in states[j].journal
    ensures var operation := states[j].journal[steps[i].batch.operationId];
            var receipt := Commit(states[i], steps[i].batch, steps[i].digest, steps[i].now).value.value;
            && operation.digest == steps[i].digest && |operation.results| == |steps[i].batch.documents|
            && operation.sequence == receipt.sequence && operation.results == receipt.results
  {
    CommitJournal(states[i], steps[i].batch, steps[i].digest, steps[i].now);
    assert StepAt(states, steps, i);
    JournalIsPermanent(states, steps, i + 1, j);
    StepFrame(states[i], steps[i]);
  }
}
