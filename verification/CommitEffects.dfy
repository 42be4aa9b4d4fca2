/**
 What a commit leaves behind, mutation by mutation, and what that means over whole histories: the
 value of a document is the one last written to it.
 */
module CommitEffects {

  import opened Values
  import opened Encoding
  import opened Batch
  import opened Store
  import SerialOrder

  // ---------------------------------------------------------------- one mutation

  /** The state a document must be in for the mutation. */
  predicate Expects(documents: map<DocumentKey, Document>, m: DocumentMutation) {
    match m
    case Upsert(key, Absent, _) => key !in documents
    case Upsert(key, Exact(revision), _) =>
      0 < revision < I64_MAX && key in documents && documents[key].revision == revision
    case Delete(key, revision) => 0 < revision <= I64_MAX && key in documents && documents[key].revision == revision
  }

  /** What the mutation made of the document, and what its caller is told. */
  predicate Mutated(before: map<DocumentKey, Document>, after: map<DocumentKey, Document>, m: DocumentMutation,
      result: RevisionResult, sequence: nat, now: int)
  {
    && result.key == m.key
    && (if m.Delete? then m.key !in after && result.revision == None
        else
          && m.key in after && after[m.key].value == m.value && after[m.key].updatedAt == now
          && after[m.key].sequence == sequence && result.revision == Some(after[m.key].revision)
          && (if m.key in before then
                after[m.key].revision == before[m.key].revision + 1 && after[m.key].createdAt == before[m.key].createdAt
              else after[m.key].revision == 1 && after[m.key].createdAt == now))
  }

  predicate KeysDistinct(ms: seq<DocumentMutation>) {
    forall i, j :: 0 <= i < j < |ms| ==> ms[i].key != ms[j].key
  }

  /** Mutations of different documents apply exactly when each finds its document as it expects. */
  lemma {:induction false} DocumentsApply(documents: map<DocumentKey, Document>, ms: seq<DocumentMutation>,
      sequence: nat, now: int)
    requires KeysDistinct(ms)
    ensures ApplyDocuments(documents, ms, sequence, now).Ok? <==>
            forall i :: 0 <= i < |ms| ==> Expects(documents, ms[i])
  {
    if ms != [] {
      var n := |ms| - 1;
      DocumentsApply(documents, ms[..n], sequence, now);
      SerialOrder.UntouchedDocument(documents, ms[..n], sequence, now, ms[n].key);
      var before := ApplyDocuments(documents, ms[..n], sequence, now);
      if before.Ok? {
        assert SerialOrder.RecordOf(before.value.documents, ms[n].key) == SerialOrder.RecordOf(documents, ms[n].key);
        assert forall i :: 0 <= i < n ==> Expects(documents, ms[..n][i]);
        assert Expects(before.value.documents, ms[n]) <==> Expects(documents, ms[n]);
      } else {
        var i :| 0 <= i < n && !Expects(documents, ms[..n][i]);
        assert !Expects(documents, ms[i]);
      }
    }
  }

  lemma {:induction false} DocumentsMutated(documents: map<DocumentKey, Document>, ms: seq<DocumentMutation>,
      sequence: nat, now: int, i: nat)
    requires KeysDistinct(ms) && ApplyDocuments(documents, ms, sequence, now).Ok? && i < |ms|
    ensures var r := ApplyDocuments(documents, ms, sequence, now).value;
      |r.result| == |ms| && Mutated(documents, r.documents, ms[i], r.result[i], sequence, now)
  {
    var n := |ms| - 1;
    var before := ApplyDocuments(documents, ms[..n], sequence, now).value;
    ResultPerMutation(documents, ms[..n], sequence, now);
    if i < n {
      DocumentsMutated(documents, ms[..n], sequence, now, i);
      assert ms[..n][i] == ms[i] && ms[i].key != ms[n].key;
    } else {
      SerialOrder.UntouchedDocument(documents, ms[..n], sequence, now, ms[n].key);
      assert SerialOrder.RecordOf(before.documents, ms[n].key) == SerialOrder.RecordOf(documents, ms[n].key);
    }
  }

  lemma {:induction false} ResultPerMutation(documents: map<DocumentKey, Document>, ms: seq<DocumentMutation>,
      sequence: nat, now: int)
    requires ApplyDocuments(documents, ms, sequence, now).Ok?
    ensures |ApplyDocuments(documents, ms, sequence, now).value.result| == |ms|
  {
    if ms != [] {
      ResultPerMutation(documents, ms[..|ms| - 1], sequence, now);
    }
  }

  // ---------------------------------------------------------------- indexes, events and schedules

  /** The primary key of the index row a mutation is about. */
  function RowKey(m: IndexMutation): (Sized, Sized, Sized) {
    (m.index, m.indexKey, if m.Put? then m.entry.document else m.document)
  }

  predicate IndexExpects(documents: map<DocumentKey, Document>, m: IndexMutation) {
    m.Put? ==> 0 < m.revision <= I64_MAX && m.entry in documents && documents[m.entry].revision == m.revision
  }

  predicate Indexed(after: map<(Sized, Sized, Sized), IndexRow>, m: IndexMutation, sequence: nat) {
    if m.Put? then RowKey(m) in after && after[RowKey(m)] == IndexRow(m.entry.table, m.revision, sequence)
    else RowKey(m) !in after
  }

  predicate RowKeysDistinct(ms: seq<IndexMutation>) {
    forall i, j :: 0 <= i < j < |ms| ==> RowKey(ms[i]) != RowKey(ms[j])
  }

  lemma {:induction false} IndexesApply(indexes: map<(Sized, Sized, Sized), IndexRow>,
      documents: map<DocumentKey, Document>, ms: seq<IndexMutation>, sequence: nat)
    ensures var r := ApplyIndexes(indexes, documents, ms, sequence);
      && (r.Ok? <==> forall i :: 0 <= i < |ms| ==> IndexExpects(documents, ms[i]))
      && (r.Ok? ==> forall k :: (forall i :: 0 <= i < |ms| ==> RowKey(ms[i]) != k) ==>
            (k in r.value <==> k in indexes) && (k in indexes ==> r.value[k] == indexes[k]))
  {
    if ms != [] {
      var n := |ms| - 1;
      IndexesApply(indexes, documents, ms[..n], sequence);
      var before := ApplyIndexes(indexes, documents, ms[..n], sequence);
      assert forall i :: 0 <= i < n ==> ms[..n][i] == ms[i];
      assert (forall i :: 0 <= i < |ms| ==> IndexExpects(documents, ms[i])) <==>
        (forall i :: 0 <= i < n ==> IndexExpects(documents, ms[..n][i])) && IndexExpects(documents, ms[n]);
    }
  }

  lemma {:induction false} IndexesWritten(indexes: map<(Sized, Sized, Sized), IndexRow>,
      documents: map<DocumentKey, Document>, ms: seq<IndexMutation>, sequence: nat, i: nat)
    requires RowKeysDistinct(ms) && ApplyIndexes(indexes, documents, ms, sequence).Ok? && i < |ms|
    ensures Indexed(ApplyIndexes(indexes, documents, ms, sequence).value, ms[i], sequence)
  {
    var n := |ms| - 1;
    if i < n {
      IndexesWritten(indexes, documents, ms[..n], sequence, i);
      assert ms[..n][i] == ms[i] && RowKey(ms[i]) != RowKey(ms[n]);
    }
  }

  predicate EventsNew(outbox: map<Sized, OutboxRow>, es: seq<OutboxAppend>) {
    && (forall i :: 0 <= i < |es| ==> es[i].eventId !in outbox)
    && (forall i, j :: 0 <= i < j < |es| ==> es[i].eventId != es[j].eventId)
  }

  lemma {:induction false} EventsKept(outbox: map<Sized, OutboxRow>, es: seq<OutboxAppend>, sequence: nat)
    requires AppendEvents(outbox, es, sequence).Ok?
    ensures var after := AppendEvents(outbox, es, sequence).value;
      forall id :: (id in after <==> id in outbox || exists i :: 0 <= i < |es| && es[i].eventId == id)
                   && (id in outbox ==> after[id] == outbox[id])
  {
    if es != [] {
      var n := |es| - 1;
      EventsKept(outbox, es[..n], sequence);
      assert forall i :: 0 <= i < n ==> es[..n][i] == es[i];
    }
  }

  lemma {:induction false} EventsApply(outbox: map<Sized, OutboxRow>, es: seq<OutboxAppend>, sequence: nat)
    ensures AppendEvents(outbox, es, sequence).Ok? <==> EventsNew(outbox, es)
  {
    if es != [] {
      var n := |es| - 1;
      EventsApply(outbox, es[..n], sequence);
      var before := AppendEvents(outbox, es[..n], sequence);
      assert forall i :: 0 <= i < n ==> es[..n][i] == es[i];
      if before.Ok? {
        EventsKept(outbox, es[..n], sequence);
        assert EventsNew(outbox, es) <==> es[n].eventId !in outbox && OtherEvents(es[..n], es[n].eventId);
      }
    }
  }

  predicate OtherEvents(es: seq<OutboxAppend>, id: Sized) {
    forall i :: 0 <= i < |es| ==> es[i].eventId != id
  }

  lemma {:induction false} EventsWritten(outbox: map<Sized, OutboxRow>, es: seq<OutboxAppend>, sequence: nat, i: nat)
    requires AppendEvents(outbox, es, sequence).Ok? && i < |es|
    ensures var after := AppendEvents(outbox, es, sequence).value;
      es[i].eventId in after && after[es[i].eventId] == OutboxRow(sequence, es[i].payload)
  {
    var n := |es| - 1;
    if i < n {
      EventsWritten(outbox, es[..n], sequence, i);
      assert es[..n][i] == es[i];
    }
  }

  /** A row that waits for its time: nobody has tried it yet. */
  predicate Waiting(row: Schedule, s: ScheduleInsert, sequence: nat) {
    && row.pinnedCode == s.pinnedCode && row.target == s.target && row.args == s.args && row.executeAt == s.executeAt
    && row.idempotencyKey == s.idempotencyKey && row.sequence == sequence
    && row.status.Pending? && row.attempts == 0 && row.generation == 0
    && row.owner.None? && row.until.None? && row.lastError.None?
  }

  /** Neither the identity nor the idempotency key is taken. */
  predicate Untaken(schedules: map<Sized, Schedule>, s: ScheduleInsert) {
    && s.id !in schedules
    && forall id :: id in schedules && s.idempotencyKey.Some? ==> schedules[id].idempotencyKey != s.idempotencyKey
  }

  predicate SchedulesNew(schedules: map<Sized, Schedule>, ss: seq<ScheduleInsert>) {
    && (forall i :: 0 <= i < |ss| ==> Untaken(schedules, ss[i]))
    && (forall i, j :: 0 <= i < j < |ss| ==>
          ss[i].id != ss[j].id && (ss[j].idempotencyKey.Some? ==> ss[i].idempotencyKey != ss[j].idempotencyKey))
  }

  lemma {:induction false} SchedulesKept(schedules: map<Sized, Schedule>, ss: seq<ScheduleInsert>, sequence: nat)
    requires InsertSchedules(schedules, ss, sequence).Ok?
    ensures var after := InsertSchedules(schedules, ss, sequence).value;
      forall id :: (id in after <==> id in schedules || exists i :: 0 <= i < |ss| && ss[i].id == id)
                   && (id in schedules ==> after[id] == schedules[id])
  {
    if ss != [] {
      var n := |ss| - 1;
      SchedulesKept(schedules, ss[..n], sequence);
      assert forall i :: 0 <= i < n ==> ss[..n][i] == ss[i];
    }
  }

  lemma {:induction false} SchedulesWritten(schedules: map<Sized, Schedule>, ss: seq<ScheduleInsert>, sequence: nat,
      i: nat)
    requires InsertSchedules(schedules, ss, sequence).Ok? && i < |ss|
    ensures var after := InsertSchedules(schedules, ss, sequence).value;
      ss[i].id in after && Waiting(after[ss[i].id], ss[i], sequence)
  {
    var n := |ss| - 1;
    if i < n {
      SchedulesWritten(schedules, ss[..n], sequence, i);
      assert ss[..n][i] == ss[i];
    }
  }

  lemma {:induction false} SchedulesApply(schedules: map<Sized, Schedule>, ss: seq<ScheduleInsert>, sequence: nat)
    ensures InsertSchedules(schedules, ss, sequence).Ok? <==> SchedulesNew(schedules, ss)
  {
    if ss != [] {
      var n := |ss| - 1;
      SchedulesApply(schedules, ss[..n], sequence);
      var before := InsertSchedules(schedules, ss[..n], sequence);
      assert forall i :: 0 <= i < n ==> ss[..n][i] == ss[i];
      if before.Ok? {
        FreeAfter(schedules, ss[..n], sequence, ss[n]);
        assert SchedulesNew(schedules, ss) <==> Untaken(schedules, ss[n]) && Apart(ss[..n], ss[n]);
      }
    }
  }

  predicate Apart(ss: seq<ScheduleInsert>, s: ScheduleInsert) {
    forall i :: 0 <= i < |ss| ==>
      ss[i].id != s.id && (s.idempotencyKey.Some? ==> ss[i].idempotencyKey != s.idempotencyKey)
  }

  lemma FreeAfter(schedules: map<Sized, Schedule>, ss: seq<ScheduleInsert>, sequence: nat, s: ScheduleInsert)
    requires InsertSchedules(schedules, ss, sequence).Ok?
    ensures ScheduleFree(InsertSchedules(schedules, ss, sequence).value, s) <==> Untaken(schedules, s) && Apart(ss, s)
  {
    var after := InsertSchedules(schedules, ss, sequence).value;
    SchedulesKept(schedules, ss, sequence);
    forall i | 0 <= i < |ss| ensures ss[i].id in after && after[ss[i].id].idempotencyKey == ss[i].idempotencyKey {
      SchedulesWritten(schedules, ss, sequence, i);
    }
    if ScheduleFree(after, s) {
      forall id | id in schedules && s.idempotencyKey.Some?
        ensures schedules[id].idempotencyKey != s.idempotencyKey
      {
        assert id in after && after[id] == schedules[id];
      }
    } else if Untaken(schedules, s) && Apart(ss, s) {
      forall id | id in after && s.idempotencyKey.Some? ensures after[id].idempotencyKey != s.idempotencyKey {
        if id !in schedules {
          var i :| 0 <= i < |ss| && ss[i].id == id;
        }
      }
    }
  }

  // ---------------------------------------------------------------- a whole commit

  /** Exactly what a new operation needs to be applied. */
  predicate Admissible(env: Env, b: Batch) {
    && b.scope == env.scope
    && (forall i :: 0 <= i < |b.assertions| ==>
          RevisionOf(env.documents, b.assertions[i].key) == b.assertions[i].observed)
    && (forall i :: 0 <= i < |b.documents| ==> Expects(env.documents, b.documents[i]))
    && (forall i :: 0 <= i < |b.indexes| ==> EntryExpects(env.documents, b.documents, b.indexes[i]))
    && EventsNew(env.outbox, b.outbox) && SchedulesNew(env.schedules, b.schedules)
  }

  /** The revision a document has after the mutations, if it is present. */
  function RevisionAfter(documents: map<DocumentKey, Document>, ms: seq<DocumentMutation>, key: DocumentKey)
    : Option<nat>
  {
    if ms == [] then RevisionOf(documents, key)
    else if ms[0].key != key then RevisionAfter(documents, ms[1..], key)
    else
      match ms[0]
      case Delete(_, _) => None
      case Upsert(_, Absent, _) => Some(1)
      case Upsert(_, Exact(revision), _) => Some(revision + 1)
  }

  predicate EntryExpects(documents: map<DocumentKey, Document>, ms: seq<DocumentMutation>, m: IndexMutation) {
    m.Put? ==> 0 < m.revision <= I64_MAX && RevisionAfter(documents, ms, m.entry) == Some(m.revision)
  }

  lemma {:induction false} RevisionAfterIs(documents: map<DocumentKey, Document>, ms: seq<DocumentMutation>,
      key: DocumentKey, i: nat)
    requires KeysDistinct(ms) && i < |ms| && ms[i].key == key
    ensures RevisionAfter(documents, ms, key) == RevisionAfter(documents, [ms[i]], key)
  {
    if i > 0 {
      RevisionAfterIs(documents, ms[1..], key, i - 1);
    } else {
      assert [ms[0]][1..] == [];
    }
  }

  lemma {:induction false} RevisionAfterOthers(documents: map<DocumentKey, Document>, ms: seq<DocumentMutation>,
      key: DocumentKey)
    requires forall i :: 0 <= i < |ms| ==> ms[i].key != key
    ensures RevisionAfter(documents, ms, key) == RevisionOf(documents, key)
  {
    if ms != [] {
      RevisionAfterOthers(documents, ms[1..], key);
    }
  }

  lemma RevisionsAgree(documents: map<DocumentKey, Document>, ms: seq<DocumentMutation>, sequence: nat, now: int,
      key: DocumentKey)
    requires KeysDistinct(ms) && ApplyDocuments(documents, ms, sequence, now).Ok?
    ensures RevisionOf(ApplyDocuments(documents, ms, sequence, now).value.documents, key) ==
            RevisionAfter(documents, ms, key)
  {
    if i :| 0 <= i < |ms| && ms[i].key == key {
      DocumentsApply(documents, ms, sequence, now);
      DocumentsMutated(documents, ms, sequence, now, i);
      RevisionAfterIs(documents, ms, key, i);
      assert Expects(documents, ms[i]);
    } else {
      SerialOrder.UntouchedDocument(documents, ms, sequence, now, key);
      RevisionAfterOthers(documents, ms, key);
    }
  }

  lemma IndexesAgree(env: Env, b: Batch, now: int)
    requires KeysDistinct(b.documents) && ApplyDocuments(env.documents, b.documents, env.sequence + 1, now).Ok?
    ensures var documents := ApplyDocuments(env.documents, b.documents, env.sequence + 1, now).value.documents;
      ApplyIndexes(env.indexes, documents, b.indexes, env.sequence + 1).Ok? <==>
      forall i :: 0 <= i < |b.indexes| ==> EntryExpects(env.documents, b.documents, b.indexes[i])
  {
    var documents := ApplyDocuments(env.documents, b.documents, env.sequence + 1, now).value.documents;
    IndexesApply(env.indexes, documents, b.indexes, env.sequence + 1);
    forall i | 0 <= i < |b.indexes|
      ensures IndexExpects(documents, b.indexes[i]) <==> EntryExpects(env.documents, b.documents, b.indexes[i])
    {
      if b.indexes[i].Put? {
        RevisionsAgree(env.documents, b.documents, env.sequence + 1, now, b.indexes[i].entry);
      }
    }
  }

  lemma ValidIsDistinct(b: Batch)
    requires Valid(b)
    ensures KeysDistinct(b.documents) && RowKeysDistinct(b.indexes)
  {
    forall i, j | 0 <= i < j < |b.indexes| ensures RowKey(b.indexes[i]) != RowKey(b.indexes[j]) {
      assert IndexIdentity(b.indexes[i]) != IndexIdentity(b.indexes[j]);
    }
  }

  /** A new operation is applied exactly when each of its parts is. */
  lemma CommitParts(env: Env, b: Batch, digest: seq<int>, now: int)
    requires b.operationId !in env.journal
    ensures var n := env.sequence + 1;
      var documents := ApplyDocuments(env.documents, b.documents, n, now);
      Commit(env, b, digest, now).Ok? <==>
        && b.scope == env.scope && ReadsHold(env.documents, b.assertions) && documents.Ok?
        && ApplyIndexes(env.indexes, documents.value.documents, b.indexes, n).Ok?
        && AppendEvents(env.outbox, b.outbox, n).Ok? && InsertSchedules(env.schedules, b.schedules, n).Ok?
  {
  }

  /** A new operation is applied exactly when the state is what it asserts and expects. */
  lemma CommitSucceeds(env: Env, b: Batch, digest: seq<int>, now: int)
    requires Valid(b) && b.operationId !in env.journal
    ensures Commit(env, b, digest, now).Ok? <==> Admissible(env, b)
  {
    CommitParts(env, b, digest, now);
    PartsAreAdmissible(env, b, now);
  }

  lemma PartsAreAdmissible(env: Env, b: Batch, now: int)
    requires Valid(b)
    ensures var n := env.sequence + 1;
      var documents := ApplyDocuments(env.documents, b.documents, n, now);
      Admissible(env, b) <==>
        && b.scope == env.scope && ReadsHold(env.documents, b.assertions) && documents.Ok?
        && ApplyIndexes(env.indexes, documents.value.documents, b.indexes, n).Ok?
        && AppendEvents(env.outbox, b.outbox, n).Ok? && InsertSchedules(env.schedules, b.schedules, n).Ok?
  {
    ValidIsDistinct(b);
    DocumentsApply(env.documents, b.documents, env.sequence + 1, now);
    EventsApply(env.outbox, b.outbox, env.sequence + 1);
    SchedulesApply(env.schedules, b.schedules, env.sequence + 1);
    if ApplyDocuments(env.documents, b.documents, env.sequence + 1, now).Ok? {
      IndexesAgree(env, b, now);
    }
  }

  /** Every mutation did what it says, and nothing else changed. */
  ghost predicate DocumentsWritten(before: map<DocumentKey, Document>, after: map<DocumentKey, Document>,
      ms: seq<DocumentMutation>, results: seq<RevisionResult>, sequence: nat, now: int)
  {
    && |results| == |ms|
    && (forall i :: 0 <= i < |ms| ==> Mutated(before, after, ms[i], results[i], sequence, now))
    && (forall key :: (forall i :: 0 <= i < |ms| ==> ms[i].key != key) ==>
          SerialOrder.RecordOf(after, key) == SerialOrder.RecordOf(before, key))
  }

  ghost predicate RowsWritten(before: map<(Sized, Sized, Sized), IndexRow>, after: map<(Sized, Sized, Sized), IndexRow>,
      ms: seq<IndexMutation>, sequence: nat)
  {
    && (forall i :: 0 <= i < |ms| ==> Indexed(after, ms[i], sequence))
    && (forall k :: (forall i :: 0 <= i < |ms| ==> RowKey(ms[i]) != k) ==>
          (k in after <==> k in before) && (k in before ==> after[k] == before[k]))
  }

  ghost predicate EventsQueued(before: map<Sized, OutboxRow>, after: map<Sized, OutboxRow>, es: seq<OutboxAppend>,
      sequence: nat)
  {
    && (forall i :: 0 <= i < |es| ==>
          es[i].eventId in after && after[es[i].eventId] == OutboxRow(sequence, es[i].payload))
    && (forall id :: (id in after <==> id in before || exists i :: 0 <= i < |es| && es[i].eventId == id)
                     && (id in before ==> after[id] == before[id]))
  }

  ghost predicate InvocationsQueued(before: map<Sized, Schedule>, after: map<Sized, Schedule>, ss: seq<ScheduleInsert>,
      sequence: nat)
  {
    && (forall i :: 0 <= i < |ss| ==> ss[i].id in after && Waiting(after[ss[i].id], ss[i], sequence))
    && (forall id :: (id in after <==> id in before || exists i :: 0 <= i < |ss| && ss[i].id == id)
                     && (id in before ==> after[id] == before[id]))
  }

  lemma DocumentsAreWritten(documents: map<DocumentKey, Document>, ms: seq<DocumentMutation>, sequence: nat, now: int)
    requires KeysDistinct(ms) && ApplyDocuments(documents, ms, sequence, now).Ok?
    ensures var r := ApplyDocuments(documents, ms, sequence, now).value;
      DocumentsWritten(documents, r.documents, ms, r.result, sequence, now)
  {
    var r := ApplyDocuments(documents, ms, sequence, now).value;
    ResultPerMutation(documents, ms, sequence, now);
    forall i | 0 <= i < |ms| ensures Mutated(documents, r.documents, ms[i], r.result[i], sequence, now) {
      DocumentsMutated(documents, ms, sequence, now, i);
    }
    forall key | forall i :: 0 <= i < |ms| ==> ms[i].key != key
      ensures SerialOrder.RecordOf(r.documents, key) == SerialOrder.RecordOf(documents, key)
    {
      SerialOrder.UntouchedDocument(documents, ms, sequence, now, key);
    }
  }

  lemma RowsAreWritten(indexes: map<(Sized, Sized, Sized), IndexRow>, documents: map<DocumentKey, Document>,
      ms: seq<IndexMutation>, sequence: nat)
    requires RowKeysDistinct(ms) && ApplyIndexes(indexes, documents, ms, sequence).Ok?
    ensures RowsWritten(indexes, ApplyIndexes(indexes, documents, ms, sequence).value, ms, sequence)
  {
    IndexesApply(indexes, documents, ms, sequence);
    forall i | 0 <= i < |ms| ensures Indexed(ApplyIndexes(indexes, documents, ms, sequence).value, ms[i], sequence) {
      IndexesWritten(indexes, documents, ms, sequence, i);
    }
  }

  lemma EventsAreQueued(outbox: map<Sized, OutboxRow>, es: seq<OutboxAppend>, sequence: nat)
    requires AppendEvents(outbox, es, sequence).Ok?
    ensures EventsQueued(outbox, AppendEvents(outbox, es, sequence).value, es, sequence)
  {
    var after := AppendEvents(outbox, es, sequence).value;
    EventsKept(outbox, es, sequence);
    forall i | 0 <= i < |es|
      ensures es[i].eventId in after && after[es[i].eventId] == OutboxRow(sequence, es[i].payload)
    {
      EventsWritten(outbox, es, sequence, i);
    }
  }

  lemma InvocationsAreQueued(schedules: map<Sized, Schedule>, ss: seq<ScheduleInsert>, sequence: nat)
    requires InsertSchedules(schedules, ss, sequence).Ok?
    ensures InvocationsQueued(schedules, InsertSchedules(schedules, ss, sequence).value, ss, sequence)
  {
    var after := InsertSchedules(schedules, ss, sequence).value;
    SchedulesKept(schedules, ss, sequence);
    forall i | 0 <= i < |ss| ensures ss[i].id in after && Waiting(after[ss[i].id], ss[i], sequence) {
      SchedulesWritten(schedules, ss, sequence, i);
    }
  }

  /** Everything a new operation that succeeds leaves behind and tells its caller. */
  ghost predicate Written(env: Env, after: Env, b: Batch, digest: seq<int>, receipt: Receipt, now: int) {
    && receipt.sequence == env.sequence + 1 && !receipt.replayed
    && DocumentsWritten(env.documents, after.documents, b.documents, receipt.results, receipt.sequence, now)
    && RowsWritten(env.indexes, after.indexes, b.indexes, receipt.sequence)
    && EventsQueued(env.outbox, after.outbox, b.outbox, receipt.sequence)
    && InvocationsQueued(env.schedules, after.schedules, b.schedules, receipt.sequence)
    && after.sequence == receipt.sequence && after.scope == env.scope && after.consumers == env.consumers
    && after.journal == env.journal[b.operationId := Operation(digest, receipt.sequence, receipt.results)]
  }

  /** The parts of a new operation were applied one after the other. */
  ghost predicate Assembled(env: Env, after: Env, b: Batch, digest: seq<int>, receipt: Receipt, now: int) {
    var n := env.sequence + 1;
    && receipt.sequence == n && !receipt.replayed
    && ApplyDocuments(env.documents, b.documents, n, now) == Ok(Applied(after.documents, receipt.results))
    && ApplyIndexes(env.indexes, after.documents, b.indexes, n) == Ok(after.indexes)
    && AppendEvents(env.outbox, b.outbox, n) == Ok(after.outbox)
    && InsertSchedules(env.schedules, b.schedules, n) == Ok(after.schedules)
    && after.sequence == n && after.scope == env.scope && after.consumers == env.consumers
    && after.journal == env.journal[b.operationId := Operation(digest, n, receipt.results)]
  }

  lemma CommitAssembles(env: Env, b: Batch, digest: seq<int>, now: int)
    requires b.operationId !in env.journal && Commit(env, b, digest, now).Ok?
    ensures var r := Commit(env, b, digest, now).value; Assembled(env, r.env, b, digest, r.value, now)
  {
  }

  lemma AssembledIsWritten(env: Env, after: Env, b: Batch, digest: seq<int>, receipt: Receipt, now: int)
    requires KeysDistinct(b.documents) && RowKeysDistinct(b.indexes) && Assembled(env, after, b, digest, receipt, now)
    ensures Written(env, after, b, digest, receipt, now)
  {
    DocumentsAreWritten(env.documents, b.documents, receipt.sequence, now);
    RowsAreWritten(env.indexes, after.documents, b.indexes, receipt.sequence);
    EventsAreQueued(env.outbox, b.outbox, receipt.sequence);
    InvocationsAreQueued(env.schedules, b.schedules, receipt.sequence);
  }

  /**
   A new operation that succeeds: every mutation of the batch did exactly what it says, to documents,
   index rows, events and scheduled invocations; nothing else changed but the sequence, and the
   journal, which records what the caller is told.
   */
  lemma CommitWrites(env: Env, b: Batch, digest: seq<int>, now: int)
    requires Valid(b) && b.operationId !in env.journal && Commit(env, b, digest, now).Ok?
    ensures var r := Commit(env, b, digest, now).value; Written(env, r.env, b, digest, r.value, now)
  {
    ValidIsDistinct(b);
    CommitAssembles(env, b, digest, now);
    var r := Commit(env, b, digest, now).value;
    AssembledIsWritten(env, r.env, b, digest, r.value, now);
  }

  // ---------------------------------------------------------------- how a commit fails

  /** A revision that the store cannot hold. */
  predicate DocumentOverflows(m: DocumentMutation) {
    match m
    case Upsert(_, Absent, _) => false
    case Upsert(_, Exact(revision), _) => revision >= I64_MAX
    case Delete(_, revision) => revision > I64_MAX
  }

  predicate Overflows(b: Batch) {
    || (exists i :: 0 <= i < |b.documents| && DocumentOverflows(b.documents[i]))
    || (exists i :: 0 <= i < |b.indexes| && b.indexes[i].Put? && b.indexes[i].revision > I64_MAX)
  }

  lemma {:induction false} DocumentsFail(documents: map<DocumentKey, Document>, ms: seq<DocumentMutation>,
      sequence: nat, now: int)
    requires ApplyDocuments(documents, ms, sequence, now).Err?
    requires forall i :: 0 <= i < |ms| ==> !DocumentOverflows(ms[i])
    ensures ApplyDocuments(documents, ms, sequence, now) == Err(MutationConflict)
  {
    var n := |ms| - 1;
    if ApplyDocuments(documents, ms[..n], sequence, now).Err? {
      DocumentsFail(documents, ms[..n], sequence, now);
    } else {
      assert !DocumentOverflows(ms[n]);
    }
  }

  lemma {:induction false} DocumentsFailKinds(documents: map<DocumentKey, Document>, ms: seq<DocumentMutation>,
      sequence: nat, now: int)
    requires ApplyDocuments(documents, ms, sequence, now).Err?
    ensures ApplyDocuments(documents, ms, sequence, now).error in {MutationConflict, LimitExceeded}
  {
    var n := |ms| - 1;
    if ApplyDocuments(documents, ms[..n], sequence, now).Err? {
      DocumentsFailKinds(documents, ms[..n], sequence, now);
    }
  }

  lemma {:induction false} IndexesFail(indexes: map<(Sized, Sized, Sized), IndexRow>,
      documents: map<DocumentKey, Document>, ms: seq<IndexMutation>, sequence: nat)
    requires ApplyIndexes(indexes, documents, ms, sequence).Err?
    ensures ApplyIndexes(indexes, documents, ms, sequence).error in {MutationConflict, LimitExceeded}
    ensures (forall i :: 0 <= i < |ms| && ms[i].Put? ==> ms[i].revision <= I64_MAX) ==>
              ApplyIndexes(indexes, documents, ms, sequence) == Err(MutationConflict)
  {
    var n := |ms| - 1;
    if ApplyIndexes(indexes, documents, ms[..n], sequence).Err? {
      IndexesFail(indexes, documents, ms[..n], sequence);
    }
  }

  lemma {:induction false} EventsFail(outbox: map<Sized, OutboxRow>, es: seq<OutboxAppend>, sequence: nat)
    requires AppendEvents(outbox, es, sequence).Err?
    ensures AppendEvents(outbox, es, sequence) == Err(MutationConflict)
  {
    var n := |es| - 1;
    if AppendEvents(outbox, es[..n], sequence).Err? {
      EventsFail(outbox, es[..n], sequence);
    }
  }

  lemma {:induction false} SchedulesFail(schedules: map<Sized, Schedule>, ss: seq<ScheduleInsert>, sequence: nat)
    requires InsertSchedules(schedules, ss, sequence).Err?
    ensures InsertSchedules(schedules, ss, sequence) == Err(MutationConflict)
  {
    var n := |ss| - 1;
    if InsertSchedules(schedules, ss[..n], sequence).Err? {
      SchedulesFail(schedules, ss[..n], sequence);
    }
  }

  /** A new operation that is not applied conflicts with the state, unless it names a revision beyond the limit. */
  lemma CommitFails(env: Env, b: Batch, digest: seq<int>, now: int)
    requires b.operationId !in env.journal && Commit(env, b, digest, now).Err?
    ensures var error := Commit(env, b, digest, now).error;
      if b.scope != env.scope then error == NotFound
      else error == MutationConflict || (error == LimitExceeded && Overflows(b))
  {
    var n := env.sequence + 1;
    var documents := ApplyDocuments(env.documents, b.documents, n, now);
    if documents.Err? {
      DocumentsFailKinds(env.documents, b.documents, n, now);
      if !Overflows(b) {
        DocumentsFail(env.documents, b.documents, n, now);
      }
    } else {
      if ApplyIndexes(env.indexes, documents.value.documents, b.indexes, n).Err? {
        IndexesFail(env.indexes, documents.value.documents, b.indexes, n);
      }
      if AppendEvents(env.outbox, b.outbox, n).Err? {
        EventsFail(env.outbox, b.outbox, n);
      }
      if InsertSchedules(env.schedules, b.schedules, n).Err? {
        SchedulesFail(env.schedules, b.schedules, n);
      }
    }
  }

  // ---------------------------------------------------------------- histories

  /** Step `n` is the commit of a new operation, and succeeded. */
  ghost predicate Commits(states: seq<Env>, steps: seq<Step>, n: nat)
    requires |states| == |steps| + 1 && n < |steps|
  {
    && steps[n].CommitStep? && steps[n].batch.operationId !in states[n].journal
    && steps[n].batch.operationId in states[n + 1].journal
  }

  /** A step commits a new operation with everything it says, or leaves documents, index rows and events alone. */
  lemma StepCommits(states: seq<Env>, steps: seq<Step>, n: nat) returns (receipt: Receipt)
    requires IsRun(states, steps) && n < |steps|
    ensures if Commits(states, steps, n)
            then Written(states[n], states[n + 1], steps[n].batch, steps[n].digest, receipt, steps[n].now)
            else states[n + 1].documents == states[n].documents && states[n + 1].indexes == states[n].indexes
                 && states[n + 1].outbox == states[n].outbox
  {
    assert StepAt(states, steps, n) && ValidatedAt(steps, n);
    StepFrame(states[n], steps[n]);
    receipt := Receipt(0, [], false);
    if steps[n].CommitStep? {
      var b, digest, now := steps[n].batch, steps[n].digest, steps[n].now;
      if Commit(states[n], b, digest, now).Ok? && b.operationId !in states[n].journal {
        CommitWrites(states[n], b, digest, now);
        receipt := Commit(states[n], b, digest, now).value.value;
      }
    }
  }

  /** No operation committed from step `m` on and before `n` mutates the document. */
  ghost predicate Unwritten(states: seq<Env>, steps: seq<Step>, m: nat, n: nat, key: DocumentKey)
    requires |states| == |steps| + 1 && m <= n <= |steps|
  {
    forall k, i :: m <= k < n && Commits(states, steps, k) && 0 <= i < |steps[k].batch.documents| ==>
      steps[k].batch.documents[i].key != key
  }

  lemma {:induction false} UnwrittenStays(states: seq<Env>, steps: seq<Step>, m: nat, n: nat, key: DocumentKey)
    requires IsRun(states, steps) && m <= n <= |steps| && Unwritten(states, steps, m, n, key)
    ensures SerialOrder.RecordOf(states[n].documents, key) == SerialOrder.RecordOf(states[m].documents, key)
    decreases n - m
  {
    if m < n {
      UnwrittenStays(states, steps, m, n - 1, key);
      var _ := StepCommits(states, steps, n - 1);
    }
  }

  /** The last committed mutation of a document decides what is stored: its value, or nothing. */
  lemma LastMutationDecides(states: seq<Env>, steps: seq<Step>, m: nat, n: nat, i: nat)
    requires IsRun(states, steps) && m < n <= |steps| && Commits(states, steps, m) && i < |steps[m].batch.documents|
    requires Unwritten(states, steps, m + 1, n, steps[m].batch.documents[i].key)
    ensures var mutation := steps[m].batch.documents[i];
      if mutation.Delete? then mutation.key !in states[n].documents
      else
        && mutation.key in states[n].documents && states[n].documents[mutation.key].value == mutation.value
        && states[n].documents[mutation.key].updatedAt == steps[m].now
  {
    var receipt := StepCommits(states, steps, m);
    var mutation := steps[m].batch.documents[i];
    assert Mutated(states[m].documents, states[m + 1].documents, mutation, receipt.results[i], receipt.sequence,
                   steps[m].now);
    UnwrittenStays(states, steps, m + 1, n, mutation.key);
  }

  /** Whatever is stored was written by a committed upsert that no later operation overwrote. */
  lemma {:induction false} StoredWasWritten(states: seq<Env>, steps: seq<Step>, n: nat, key: DocumentKey)
      returns (m: nat, i: nat)
    requires IsHistory(states, steps) && n <= |steps| && key in states[n].documents
    ensures m < n && Commits(states, steps, m) && i < |steps[m].batch.documents|
    ensures var mutation := steps[m].batch.documents[i];
      mutation.Upsert? && mutation.key == key && mutation.value == states[n].documents[key].value
    ensures Unwritten(states, steps, m + 1, n, key)
  {
    var _ := StepCommits(states, steps, n - 1);
    var last := steps[n - 1];
    if j :| Commits(states, steps, n - 1) && 0 <= j < |last.batch.documents| && last.batch.documents[j].key == key {
      m, i := n - 1, j;
      LastMutationDecides(states, steps, m, n, i);
    } else {
      assert Unwritten(states, steps, n - 1, n, key);
      UnwrittenStays(states, steps, n - 1, n, key);
      m, i := StoredWasWritten(states, steps, n - 1, key);
    }
  }

  /** No operation committed from step `m` on and before `n` is about the index row. */
  ghost predicate Unindexed(states: seq<Env>, steps: seq<Step>, m: nat, n: nat, k: (Sized, Sized, Sized))
    requires |states| == |steps| + 1 && m <= n <= |steps|
  {
    forall j, i :: m <= j < n && Commits(states, steps, j) && 0 <= i < |steps[j].batch.indexes| ==>
      RowKey(steps[j].batch.indexes[i]) != k
  }

  lemma {:induction false} UnindexedStays(states: seq<Env>, steps: seq<Step>, m: nat, n: nat, k: (Sized, Sized, Sized))
    requires IsRun(states, steps) && m <= n <= |steps| && Unindexed(states, steps, m, n, k)
    ensures k in states[n].indexes <==> k in states[m].indexes
    ensures k in states[m].indexes ==> states[n].indexes[k] == states[m].indexes[k]
    decreases n - m
  {
    if m < n {
      UnindexedStays(states, steps, m, n - 1, k);
      var _ := StepCommits(states, steps, n - 1);
      var last := steps[n - 1];
      assert Commits(states, steps, n - 1) ==>
        forall i :: 0 <= i < |last.batch.indexes| ==> RowKey(last.batch.indexes[i]) != k;
    }
  }

  /** The last committed mutation of an index row decides whether it is there and what it points to. */
  lemma LastIndexMutationDecides(states: seq<Env>, steps: seq<Step>, m: nat, n: nat, i: nat)
    requires IsRun(states, steps) && m < n <= |steps| && Commits(states, steps, m) && i < |steps[m].batch.indexes|
    requires Unindexed(states, steps, m + 1, n, RowKey(steps[m].batch.indexes[i]))
    ensures Indexed(states[n].indexes, steps[m].batch.indexes[i], states[m].sequence + 1)
  {
    var _ := StepCommits(states, steps, m);
    UnindexedStays(states, steps, m + 1, n, RowKey(steps[m].batch.indexes[i]));
  }

  lemma {:induction false} EventsStay(states: seq<Env>, steps: seq<Step>, m: nat, n: nat, id: Sized)
    requires IsRun(states, steps) && m <= n <= |steps| && id in states[m].outbox
    ensures id in states[n].outbox && states[n].outbox[id] == states[m].outbox[id]
    decreases n - m
  {
    if m < n {
      EventsStay(states, steps, m, n - 1, id);
      var _ := StepCommits(states, steps, n - 1);
    }
  }

  /** A committed event keeps its payload and its place forever. */
  lemma CommittedEventStays(states: seq<Env>, steps: seq<Step>, m: nat, n: nat, i: nat)
    requires IsRun(states, steps) && m < n <= |steps| && Commits(states, steps, m) && i < |steps[m].batch.outbox|
    ensures var event := steps[m].batch.outbox[i];
      event.eventId in states[n].outbox
      && states[n].outbox[event.eventId] == OutboxRow(states[m].sequence + 1, event.payload)
  {
    var _ := StepCommits(states, steps, m);
    EventsStay(states, steps, m + 1, n, steps[m].batch.outbox[i].eventId);
  }
}
