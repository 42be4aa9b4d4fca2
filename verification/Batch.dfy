/** Commit batches: the declarative unit of a commit, its validation and its idempotency digest. */
module Batch {

  import opened Values
  import opened Encoding

  datatype StoreError =
    | EmptyBatch | LimitExceeded | DuplicateMutation | OperationIdReused | MutationConflict
    | NotFound | LeaseLost | OutboxLeaseLost | Busy | Corruption

  const MAX_READS: nat := 10_000
  const MAX_DOCUMENTS: nat := 1_000
  const MAX_INDEXES: nat := 10_000
  const MAX_OUTBOX: nat := 100
  const MAX_SCHEDULES: nat := 100
  const MAX_PAYLOAD_BYTES: nat := 8_388_608
  const MAX_INTENT_CONTEXT_BYTES: nat := 1_024
  const MAX_IDEMPOTENCY_KEY_BYTES: nat := 128

  datatype Scope = Scope(project: Sized, environment: Sized)

  datatype DocumentKey = DocumentKey(table: Sized, document: Sized)

  /** The revision a mutation observed, or that the document was absent. */
  datatype ReadAssertion = ReadAssertion(key: DocumentKey, observed: Option<U64>)

  datatype Expected = Absent | Exact(revision: U64)

  /** Document values, index keys, payloads and arguments are their stored bytes. */
  datatype DocumentMutation =
    | Upsert(key: DocumentKey, expected: Expected, value: Sized)
    | Delete(key: DocumentKey, expectedRevision: U64)

  datatype IndexMutation =
    | Put(index: Sized, indexKey: Sized, entry: DocumentKey, revision: U64)
    | Remove(index: Sized, indexKey: Sized, document: Sized)

  datatype OutboxAppend = OutboxAppend(eventId: Sized, payload: Sized)

  datatype ScheduleInsert = ScheduleInsert(
    id: Sized, pinnedCode: Sized, target: Sized, args: Sized, executeAt: I64, idempotencyKey: Option<Sized>)

  datatype Batch = Batch(
    scope: Scope, operationId: Text, assertions: seq<ReadAssertion>, documents: seq<DocumentMutation>,
    indexes: seq<IndexMutation>, outbox: seq<OutboxAppend>, schedules: seq<ScheduleInsert>, intent: Option<Sized>)

  // ---------------------------------------------------------------- the digest pre-image

  function EncodeKey(k: DocumentKey, tail: seq<int>): seq<int> {
    Prefixed(k.table, Prefixed(k.document, tail))
  }

  function EncodeRevision(r: Option<U64>, tail: seq<int>): seq<int> {
    if r.Some? then Tag(1, Word(r.value, tail)) else Tag(0, tail)
  }

  function EncodeRead(a: ReadAssertion, tail: seq<int>): seq<int> {
    EncodeKey(a.key, EncodeRevision(a.observed, tail))
  }

  function EncodeExpected(e: Expected, tail: seq<int>): seq<int> {
    match e
    case Absent => Tag(0, tail)
    case Exact(revision) => Tag(1, Word(revision, tail))
  }

  function EncodeDocument(m: DocumentMutation, tail: seq<int>): seq<int> {
    match m
    case Upsert(key, expected, value) => Tag(0, EncodeKey(key, EncodeExpected(expected, Prefixed(value, tail))))
    case Delete(key, revision) => Tag(1, EncodeKey(key, Word(revision, tail)))
  }

  function EncodeIndex(m: IndexMutation, tail: seq<int>): seq<int> {
    match m
    case Put(index, key, entry, revision) =>
      Tag(0, Prefixed(index, Prefixed(key, EncodeKey(entry, Word(revision, tail)))))
    case Remove(index, key, document) => Tag(1, Prefixed(index, Prefixed(key, Prefixed(document, tail))))
  }

  function EncodeEvent(e: OutboxAppend, tail: seq<int>): seq<int> {
    Prefixed(e.eventId, Prefixed(e.payload, tail))
  }

  function EncodeIdempotencyKey(k: Option<Sized>, tail: seq<int>): seq<int> {
    if k.Some? then Tag(1, Prefixed(k.value, tail)) else Tag(0, tail)
  }

  function EncodeSchedule(s: ScheduleInsert, tail: seq<int>): seq<int> {
    Prefixed(s.id, Prefixed(s.pinnedCode, Prefixed(s.target, Prefixed(s.args,
      Signed(s.executeAt, EncodeIdempotencyKey(s.idempotencyKey, tail))))))
  }

  /** "RUNKU_COMMIT_BATCH_V1" */
  const MAGIC: seq<int> := [82, 85, 78, 75, 85, 95, 67, 79, 77, 77, 73, 84, 95, 66, 65, 84, 67, 72, 95, 86, 49]

  /** "RUNKU_COMMIT_INTENT_CONTEXT_V1" */
  const CONTEXT_MAGIC: seq<int> := [82, 85, 78, 75, 85, 95, 67, 79, 77, 77, 73, 84, 95, 73, 78, 84, 69, 78, 84,
                                    95, 67, 79, 78, 84, 69, 88, 84, 95, 86, 49]

  /** An absent context leaves the historical stream unchanged. */
  function EncodeContext(intent: Option<Sized>): seq<int> {
    if intent.Some? then Prefixed(CONTEXT_MAGIC, Prefixed(intent.value, [])) else []
  }

  /** The bytes fed to the digest: everything but the operation id. */
  function Preimage(b: Batch): seq<int> {
    MAGIC + Prefixed(b.scope.project, Prefixed(b.scope.environment,
      Listed(EncodeRead, b.assertions, Listed(EncodeDocument, b.documents, Listed(EncodeIndex, b.indexes,
      Listed(EncodeEvent, b.outbox, Listed(EncodeSchedule, b.schedules, EncodeContext(b.intent))))))))
  }

  // ---------------------------------------------------------------- its injectivity

  lemma KeyInjective(a: DocumentKey, b: DocumentKey, x: seq<int>, y: seq<int>)
    requires EncodeKey(a, x) == EncodeKey(b, y)
    ensures a == b && x == y
  {
    PrefixedInjective(a.table, b.table, Prefixed(a.document, x), Prefixed(b.document, y));
    PrefixedInjective(a.document, b.document, x, y);
  }

  lemma RevisionInjective(a: Option<U64>, b: Option<U64>, x: seq<int>, y: seq<int>)
    requires EncodeRevision(a, x) == EncodeRevision(b, y)
    ensures a == b && x == y
  {
    TagInjective(if a.Some? then 1 else 0, if b.Some? then 1 else 0,
                 if a.Some? then Word(a.value, x) else x, if b.Some? then Word(b.value, y) else y);
    if a.Some? {
      WordInjective(a.value, b.value, x, y);
    }
  }

  lemma ReadInjective()
    ensures Injective(EncodeRead)
  {
    forall a: ReadAssertion, b: ReadAssertion, x, y | EncodeRead(a, x) == EncodeRead(b, y) ensures a == b && x == y {
      KeyInjective(a.key, b.key, EncodeRevision(a.observed, x), EncodeRevision(b.observed, y));
      RevisionInjective(a.observed, b.observed, x, y);
    }
  }

  lemma ExpectedInjective(a: Expected, b: Expected, x: seq<int>, y: seq<int>)
    requires EncodeExpected(a, x) == EncodeExpected(b, y)
    ensures a == b && x == y
  {
    RevisionInjective(if a.Exact? then Some(a.revision) else None, if b.Exact? then Some(b.revision) else None, x, y);
  }

  lemma DocumentInjective()
    ensures Injective(EncodeDocument)
  {
    forall a: DocumentMutation, b: DocumentMutation, x, y | EncodeDocument(a, x) == EncodeDocument(b, y)
      ensures a == b && x == y
    {
      assert EncodeDocument(a, x)[0] == EncodeDocument(b, y)[0];
      match a
      case Upsert(key, expected, value) =>
        TagInjective(0, 0, EncodeKey(key, EncodeExpected(expected, Prefixed(value, x))),
                     EncodeKey(b.key, EncodeExpected(b.expected, Prefixed(b.value, y))));
        KeyInjective(key, b.key, EncodeExpected(expected, Prefixed(value, x)),
          EncodeExpected(b.expected, Prefixed(b.value, y)));
        ExpectedInjective(expected, b.expected, Prefixed(value, x), Prefixed(b.value, y));
        PrefixedInjective(value, b.value, x, y);
      case Delete(key, revision) =>
        TagInjective(1, 1, EncodeKey(key, Word(revision, x)), EncodeKey(b.key, Word(b.expectedRevision, y)));
        KeyInjective(key, b.key, Word(revision, x), Word(b.expectedRevision, y));
        WordInjective(revision, b.expectedRevision, x, y);
    }
  }

  lemma IndexInjective()
    ensures Injective(EncodeIndex)
  {
    forall a: IndexMutation, b: IndexMutation, x, y | EncodeIndex(a, x) == EncodeIndex(b, y)
      ensures a == b && x == y
    {
      assert EncodeIndex(a, x)[0] == EncodeIndex(b, y)[0];
      match a
      case Put(index, key, entry, revision) =>
        var p, q := EncodeKey(entry, Word(revision, x)), EncodeKey(b.entry, Word(b.revision, y));
        TagInjective(0, 0, Prefixed(index, Prefixed(key, p)), Prefixed(b.index, Prefixed(b.indexKey, q)));
        PrefixedInjective(index, b.index, Prefixed(key, p), Prefixed(b.indexKey, q));
        PrefixedInjective(key, b.indexKey, p, q);
        KeyInjective(entry, b.entry, Word(revision, x), Word(b.revision, y));
        WordInjective(revision, b.revision, x, y);
      case Remove(index, key, document) =>
        var p, q := Prefixed(document, x), Prefixed(b.document, y);
        TagInjective(1, 1, Prefixed(index, Prefixed(key, p)), Prefixed(b.index, Prefixed(b.indexKey, q)));
        PrefixedInjective(index, b.index, Prefixed(key, p), Prefixed(b.indexKey, q));
        PrefixedInjective(key, b.indexKey, p, q);
        PrefixedInjective(document, b.document, x, y);
    }
  }

  lemma EventInjective()
    ensures Injective(EncodeEvent)
  {
    forall a: OutboxAppend, b: OutboxAppend, x, y | EncodeEvent(a, x) == EncodeEvent(b, y) ensures a == b && x == y {
      PrefixedInjective(a.eventId, b.eventId, Prefixed(a.payload, x), Prefixed(b.payload, y));
      PrefixedInjective(a.payload, b.payload, x, y);
    }
  }

  lemma IdempotencyKeyInjective(a: Option<Sized>, b: Option<Sized>, x: seq<int>, y: seq<int>)
    requires EncodeIdempotencyKey(a, x) == EncodeIdempotencyKey(b, y)
    ensures a == b && x == y
  {
    TagInjective(if a.Some? then 1 else 0, if b.Some? then 1 else 0,
                 if a.Some? then Prefixed(a.value, x) else x, if b.Some? then Prefixed(b.value, y) else y);
    if a.Some? {
      PrefixedInjective(a.value, b.value, x, y);
    }
  }

  lemma ScheduleInjective()
    ensures Injective(EncodeSchedule)
  {
    forall a: ScheduleInsert, b: ScheduleInsert, x, y | EncodeSchedule(a, x) == EncodeSchedule(b, y)
      ensures a == b && x == y
    {
      var p, q := EncodeIdempotencyKey(a.idempotencyKey, x), EncodeIdempotencyKey(b.idempotencyKey, y);
      var p1, q1 := Signed(a.executeAt, p), Signed(b.executeAt, q);
      var p2, q2 := Prefixed(a.args, p1), Prefixed(b.args, q1);
      var p3, q3 := Prefixed(a.target, p2), Prefixed(b.target, q2);
      PrefixedInjective(a.id, b.id, Prefixed(a.pinnedCode, p3), Prefixed(b.pinnedCode, q3));
      PrefixedInjective(a.pinnedCode, b.pinnedCode, p3, q3);
      PrefixedInjective(a.target, b.target, p2, q2);
      PrefixedInjective(a.args, b.args, p1, q1);
      SignedInjective(a.executeAt, b.executeAt, p, q);
      IdempotencyKeyInjective(a.idempotencyKey, b.idempotencyKey, x, y);
    }
  }

  lemma ContextInjective(a: Option<Sized>, b: Option<Sized>)
    requires EncodeContext(a) == EncodeContext(b)
    ensures a == b
  {
    if a.Some? && b.Some? {
      PrefixedInjective(CONTEXT_MAGIC, CONTEXT_MAGIC, Prefixed(a.value, []), Prefixed(b.value, []));
      PrefixedInjective(a.value, b.value, [], []);
    }
  }

  /** The counts fit their four bytes. */
  predicate Countable(b: Batch) {
    && |b.assertions| < U32_LIMIT && |b.documents| < U32_LIMIT && |b.indexes| < U32_LIMIT
    && |b.outbox| < U32_LIMIT && |b.schedules| < U32_LIMIT
  }

  /** Batches with equal pre-images differ at most in their operation id. */
  lemma PreimageInjective(a: Batch, b: Batch)
    requires Countable(a) && Countable(b) && Preimage(a) == Preimage(b)
    ensures a == b.(operationId := a.operationId)
  {
    var a5, b5 := Listed(EncodeSchedule, a.schedules, EncodeContext(a.intent)),
      Listed(EncodeSchedule, b.schedules, EncodeContext(b.intent));
    var a4, b4 := Listed(EncodeEvent, a.outbox, a5), Listed(EncodeEvent, b.outbox, b5);
    var a3, b3 := Listed(EncodeIndex, a.indexes, a4), Listed(EncodeIndex, b.indexes, b4);
    var a2, b2 := Listed(EncodeDocument, a.documents, a3), Listed(EncodeDocument, b.documents, b3);
    var a1, b1 := Listed(EncodeRead, a.assertions, a2), Listed(EncodeRead, b.assertions, b2);
    Cancel(MAGIC, MAGIC, Prefixed(a.scope.project, Prefixed(a.scope.environment, a1)),
      Prefixed(b.scope.project, Prefixed(b.scope.environment, b1)));
    PrefixedInjective(a.scope.project, b.scope.project, Prefixed(a.scope.environment, a1),
      Prefixed(b.scope.environment, b1));
    PrefixedInjective(a.scope.environment, b.scope.environment, a1, b1);
    ReadInjective();
    ListedInjective(EncodeRead, a.assertions, b.assertions, a2, b2);
    DocumentInjective();
    ListedInjective(EncodeDocument, a.documents, b.documents, a3, b3);
    IndexInjective();
    ListedInjective(EncodeIndex, a.indexes, b.indexes, a4, b4);
    EventInjective();
    ListedInjective(EncodeEvent, a.outbox, b.outbox, a5, b5);
    ScheduleInjective();
    ListedInjective(EncodeSchedule, a.schedules, b.schedules, EncodeContext(a.intent), EncodeContext(b.intent));
    ContextInjective(a.intent, b.intent);
  }

  // ---------------------------------------------------------------- validation

  predicate Distinct<T(==)>(s: seq<T>) {
    forall i, j :: 0 <= i < j < |s| ==> s[i] != s[j]
  }

  /** What identifies an index row. */
  function IndexIdentity(m: IndexMutation): (Sized, Sized, Sized) {
    match m
    case Put(index, key, entry, _) => (index, key, entry.document)
    case Remove(index, key, document) => (index, key, document)
  }

  predicate IsEmpty(b: Batch) {
    b.documents == [] && b.indexes == [] && b.outbox == [] && b.schedules == []
  }

  predicate WithinLimits(b: Batch) {
    && |b.assertions| <= MAX_READS && |b.documents| <= MAX_DOCUMENTS && |b.indexes| <= MAX_INDEXES
    && |b.outbox| <= MAX_OUTBOX && |b.schedules| <= MAX_SCHEDULES
    && (b.intent.Some? ==> 1 <= |b.intent.value| <= MAX_INTENT_CONTEXT_BYTES)
  }

  predicate PositiveRevision(m: DocumentMutation) {
    match m
    case Upsert(_, expected, _) => expected != Exact(0)
    case Delete(_, revision) => revision != 0
  }

  predicate PositiveRevisions(b: Batch) {
    && (forall i :: 0 <= i < |b.assertions| ==> b.assertions[i].observed != Some(0))
    && (forall i :: 0 <= i < |b.documents| ==> PositiveRevision(b.documents[i]))
    && (forall i :: 0 <= i < |b.indexes| ==> b.indexes[i].Put? ==> b.indexes[i].revision != 0)
  }

  predicate ValidIdempotencyKey(k: Option<Sized>) {
    k.Some? ==> 1 <= |k.value| <= MAX_IDEMPOTENCY_KEY_BYTES
  }

  /** No logical key is touched twice, and idempotency keys are well formed. */
  predicate NoDuplicates(b: Batch) {
    && (forall i, j :: 0 <= i < j < |b.assertions| ==> b.assertions[i].key != b.assertions[j].key)
    && (forall i, j :: 0 <= i < j < |b.documents| ==> b.documents[i].key != b.documents[j].key)
    && (forall i, j :: 0 <= i < j < |b.indexes| ==> IndexIdentity(b.indexes[i]) != IndexIdentity(b.indexes[j]))
    && (forall i, j :: 0 <= i < j < |b.outbox| ==> b.outbox[i].eventId != b.outbox[j].eventId)
    && SchedulesDistinct(b.schedules)
  }

  predicate SchedulesDistinct(schedules: seq<ScheduleInsert>) {
    && (forall i :: 0 <= i < |schedules| ==> ValidIdempotencyKey(schedules[i].idempotencyKey))
    && (forall i, j :: 0 <= i < j < |schedules| ==> schedules[i].id != schedules[j].id)
    && (forall i, j :: 0 <= i < j < |schedules| && schedules[i].idempotencyKey.Some? ==>
          schedules[i].idempotencyKey != schedules[j].idempotencyKey)
  }

  function DocumentBytes(ms: seq<DocumentMutation>): nat {
    if ms == [] then 0 else (if ms[0].Upsert? then |ms[0].value| else 0) + DocumentBytes(ms[1..])
  }

  function IndexBytes(ms: seq<IndexMutation>): nat {
    if ms == [] then 0 else |ms[0].indexKey| + IndexBytes(ms[1..])
  }

  function OutboxBytes(es: seq<OutboxAppend>): nat {
    if es == [] then 0 else |es[0].payload| + OutboxBytes(es[1..])
  }

  function ScheduleBytes(ss: seq<ScheduleInsert>): nat {
    if ss == [] then 0 else |ss[0].args| + ScheduleBytes(ss[1..])
  }

  function PayloadBytes(b: Batch): nat {
    DocumentBytes(b.documents) + IndexBytes(b.indexes) + OutboxBytes(b.outbox) + ScheduleBytes(b.schedules)
  }

  predicate Valid(b: Batch) {
    && !IsEmpty(b) && WithinLimits(b) && PositiveRevisions(b) && NoDuplicates(b)
    && PayloadBytes(b) <= MAX_PAYLOAD_BYTES
  }

  /** What a validation failure says about the batch. */
  predicate Blames(b: Batch, error: StoreError) {
    match error
    case EmptyBatch => IsEmpty(b)
    case LimitExceeded => !WithinLimits(b) || PayloadBytes(b) > MAX_PAYLOAD_BYTES
    case MutationConflict => !PositiveRevisions(b)
    case DuplicateMutation => !NoDuplicates(b)
    case _ => false
  }

  method ValidateReads(b: Batch) returns (failure: Option<StoreError>)
    ensures failure.None? ==> forall i :: 0 <= i < |b.assertions| ==> b.assertions[i].observed != Some(0)
    ensures failure.None? ==> forall i, j :: 0 <= i < j < |b.assertions| ==> b.assertions[i].key != b.assertions[j].key
    ensures failure.Some? ==> Blames(b, failure.value)
  {
    var keys: set<DocumentKey> := {};
    for i := 0 to |b.assertions|
      invariant forall j :: 0 <= j < i ==> b.assertions[j].key in keys && b.assertions[j].observed != Some(0)
      invariant forall k :: k in keys ==> exists j :: 0 <= j < i && b.assertions[j].key == k
      invariant forall j, k :: 0 <= j < k < i ==> b.assertions[j].key != b.assertions[k].key
    {
      if b.assertions[i].observed == Some(0) {
        return Some(MutationConflict);
      }
      if b.assertions[i].key in keys {
        return Some(DuplicateMutation);
      }
      keys := keys + {b.assertions[i].key};
    }
    failure := None;
  }

  method ValidateDocuments(b: Batch) returns (failure: Option<StoreError>)
    ensures failure.None? ==> forall i :: 0 <= i < |b.documents| ==> PositiveRevision(b.documents[i])
    ensures failure.None? ==> forall i, j :: 0 <= i < j < |b.documents| ==> b.documents[i].key != b.documents[j].key
    ensures failure.Some? ==> Blames(b, failure.value)
  {
    var keys: set<DocumentKey> := {};
    for i := 0 to |b.documents|
      invariant forall j :: 0 <= j < i ==> b.documents[j].key in keys && PositiveRevision(b.documents[j])
      invariant forall k :: k in keys ==> exists j :: 0 <= j < i && b.documents[j].key == k
      invariant forall j, k :: 0 <= j < k < i ==> b.documents[j].key != b.documents[k].key
    {
      if b.documents[i].key in keys {
        return Some(DuplicateMutation);
      }
      keys := keys + {b.documents[i].key};
      if !PositiveRevision(b.documents[i]) {
        return Some(MutationConflict);
      }
    }
    failure := None;
  }

  method ValidateIndexes(b: Batch) returns (failure: Option<StoreError>)
    ensures failure.None? ==> forall i :: 0 <= i < |b.indexes| ==> b.indexes[i].Put? ==> b.indexes[i].revision != 0
    ensures failure.None? ==> forall i, j :: 0 <= i < j < |b.indexes| ==>
      IndexIdentity(b.indexes[i]) != IndexIdentity(b.indexes[j])
    ensures failure.Some? ==> Blames(b, failure.value)
  {
    var keys: set<(Sized, Sized, Sized)> := {};
    for i := 0 to |b.indexes|
      invariant forall j :: 0 <= j < i ==>
        IndexIdentity(b.indexes[j]) in keys && (b.indexes[j].Put? ==> b.indexes[j].revision != 0)
      invariant forall k :: k in keys ==> exists j :: 0 <= j < i && IndexIdentity(b.indexes[j]) == k
      invariant forall j, k :: 0 <= j < k < i ==> IndexIdentity(b.indexes[j]) != IndexIdentity(b.indexes[k])
    {
      if IndexIdentity(b.indexes[i]) in keys {
        return Some(DuplicateMutation);
      }
      keys := keys + {IndexIdentity(b.indexes[i])};
      if b.indexes[i].Put? && b.indexes[i].revision == 0 {
        return Some(MutationConflict);
      }
    }
    failure := None;
  }

  method ValidateOutbox(b: Batch) returns (failure: Option<StoreError>)
    ensures failure.None? ==> forall i, j :: 0 <= i < j < |b.outbox| ==> b.outbox[i].eventId != b.outbox[j].eventId
    ensures failure.Some? ==> Blames(b, failure.value)
  {
    var ids: set<Sized> := {};
    for i := 0 to |b.outbox|
      invariant forall j :: 0 <= j < i ==> b.outbox[j].eventId in ids
      invariant forall k :: k in ids ==> exists j :: 0 <= j < i && b.outbox[j].eventId == k
      invariant forall j, k :: 0 <= j < k < i ==> b.outbox[j].eventId != b.outbox[k].eventId
    {
      if b.outbox[i].eventId in ids {
        return Some(DuplicateMutation);
      }
      ids := ids + {b.outbox[i].eventId};
    }
    failure := None;
  }

  method ValidateSchedules(schedules: seq<ScheduleInsert>) returns (failure: Option<StoreError>)
    ensures failure == if SchedulesDistinct(schedules) then None else Some(DuplicateMutation)
  {
    var ids: set<Sized> := {};
    var keys: set<Sized> := {};
    for i := 0 to |schedules|
      invariant SchedulesDistinct(schedules[..i])
      invariant forall k :: k in ids <==> exists j :: 0 <= j < i && schedules[j].id == k
      invariant forall k :: k in keys <==> exists j :: 0 <= j < i && schedules[j].idempotencyKey == Some(k)
    {
      var s := schedules[i];
      if s.id in ids {
        return Some(DuplicateMutation);
      }
      ids := ids + {s.id};
      if s.idempotencyKey.Some? {
        var key := s.idempotencyKey.value;
        if key == [] || |key| > MAX_IDEMPOTENCY_KEY_BYTES || key in keys {
          return Some(DuplicateMutation);
        }
        keys := keys + {key};
      }
    }
    assert schedules[..|schedules|] == schedules;
    failure := None;
  }

  /** Adds up the encoded bytes, stopping as soon as the limit is passed. */
  method AddPayload(b: Batch) returns (failure: Option<StoreError>)
    ensures failure == if PayloadBytes(b) <= MAX_PAYLOAD_BYTES then None else Some(LimitExceeded)
  {
    var total := 0;
    for i := 0 to |b.documents|
      invariant total + DocumentBytes(b.documents[i..]) == DocumentBytes(b.documents)
    {
      assert b.documents[i..][1..] == b.documents[i + 1..];
      if b.documents[i].Upsert? {
        total := total + |b.documents[i].value|;
        if total > MAX_PAYLOAD_BYTES {
          return Some(LimitExceeded);
        }
      }
    }
    ghost var before := DocumentBytes(b.documents);
    for i := 0 to |b.indexes|
      invariant total + IndexBytes(b.indexes[i..]) == before + IndexBytes(b.indexes)
    {
      assert b.indexes[i..][1..] == b.indexes[i + 1..];
      total := total + |b.indexes[i].indexKey|;
      if total > MAX_PAYLOAD_BYTES {
        return Some(LimitExceeded);
      }
    }
    before := before + IndexBytes(b.indexes);
    for i := 0 to |b.outbox|
      invariant total + OutboxBytes(b.outbox[i..]) == before + OutboxBytes(b.outbox)
    {
      assert b.outbox[i..][1..] == b.outbox[i + 1..];
      total := total + |b.outbox[i].payload|;
      if total > MAX_PAYLOAD_BYTES {
        return Some(LimitExceeded);
      }
    }
    before := before + OutboxBytes(b.outbox);
    for i := 0 to |b.schedules|
      invariant total + ScheduleBytes(b.schedules[i..]) == before + ScheduleBytes(b.schedules)
    {
      assert b.schedules[i..][1..] == b.schedules[i + 1..];
      total := total + |b.schedules[i].args|;
      if total > MAX_PAYLOAD_BYTES {
        return Some(LimitExceeded);
      }
    }
    failure := if total > MAX_PAYLOAD_BYTES then Some(LimitExceeded) else None;
  }

  /** Succeeds exactly on valid batches; a failure names a condition that the batch breaks. */
  method Validate(b: Batch) returns (failure: Option<StoreError>)
    ensures failure.None? <==> Valid(b)
    ensures failure.Some? ==> Blames(b, failure.value)
  {
    if IsEmpty(b) {
      return Some(EmptyBatch);
    }
    if !WithinLimits(b) {
      return Some(LimitExceeded);
    }
    failure := ValidateReads(b);
    if failure.None? {
      failure := ValidateDocuments(b);
    }
    if failure.None? {
      failure := ValidateIndexes(b);
    }
    if failure.None? {
      failure := ValidateOutbox(b);
    }
    if failure.None? {
      failure := ValidateSchedules(b.schedules);
    }
    if failure.None? {
      failure := AddPayload(b);
    }
  }

  // ---------------------------------------------------------------- the digest as it is fed

  lemma KeyAppend(k: DocumentKey, t: seq<int>, tail: seq<int>)
    ensures EncodeKey(k, t + tail) == EncodeKey(k, t) + tail
  {
    PrefixedAppend(k.document, t, tail);
    PrefixedAppend(k.table, Prefixed(k.document, t), tail);
  }

  lemma RevisionAppend(r: Option<U64>, t: seq<int>, tail: seq<int>)
    ensures EncodeRevision(r, t + tail) == EncodeRevision(r, t) + tail
  {
    if r.Some? {
      WordAppend(r.value, t, tail);
      TagAppend(1, Word(r.value, t), tail);
    } else {
      TagAppend(0, t, tail);
    }
  }

  lemma ReadAppends()
    ensures Appends(EncodeRead)
  {
    forall a: ReadAssertion, tail ensures EncodeRead(a, tail) == EncodeRead(a, []) + tail {
      assert [] + tail == tail;
      RevisionAppend(a.observed, [], tail);
      KeyAppend(a.key, EncodeRevision(a.observed, []), tail);
    }
  }

  lemma DocumentAppends()
    ensures Appends(EncodeDocument)
  {
    forall m: DocumentMutation, tail ensures EncodeDocument(m, tail) == EncodeDocument(m, []) + tail {
      assert [] + tail == tail;
      match m
      case Upsert(key, expected, value) =>
        PrefixedAppend(value, [], tail);
        var t := Prefixed(value, []);
        var revision := if expected.Exact? then Some(expected.revision) else None;
        RevisionAppend(revision, t, tail);
        assert EncodeExpected(expected, t) == EncodeRevision(revision, t);
        assert EncodeExpected(expected, t + tail) == EncodeRevision(revision, t + tail);
        KeyAppend(key, EncodeExpected(expected, t), tail);
        TagAppend(0, EncodeKey(key, EncodeExpected(expected, t)), tail);
      case Delete(key, revision) =>
        WordAppend(revision, [], tail);
        KeyAppend(key, Word(revision, []), tail);
        TagAppend(1, EncodeKey(key, Word(revision, [])), tail);
    }
  }

  lemma IndexAppends()
    ensures Appends(EncodeIndex)
  {
    forall m: IndexMutation, tail ensures EncodeIndex(m, tail) == EncodeIndex(m, []) + tail {
      assert [] + tail == tail;
      match m
      case Put(index, key, entry, revision) =>
        WordAppend(revision, [], tail);
        KeyAppend(entry, Word(revision, []), tail);
        var t := EncodeKey(entry, Word(revision, []));
        PrefixedAppend(key, t, tail);
        PrefixedAppend(index, Prefixed(key, t), tail);
        TagAppend(0, Prefixed(index, Prefixed(key, t)), tail);
      case Remove(index, key, document) =>
        PrefixedAppend(document, [], tail);
        var t := Prefixed(document, []);
        PrefixedAppend(key, t, tail);
        PrefixedAppend(index, Prefixed(key, t), tail);
        TagAppend(1, Prefixed(index, Prefixed(key, t)), tail);
    }
  }

  lemma EventAppends()
    ensures Appends(EncodeEvent)
  {
    forall e: OutboxAppend, tail ensures EncodeEvent(e, tail) == EncodeEvent(e, []) + tail {
      assert [] + tail == tail;
      PrefixedAppend(e.payload, [], tail);
      PrefixedAppend(e.eventId, Prefixed(e.payload, []), tail);
    }
  }

  lemma ScheduleAppends()
    ensures Appends(EncodeSchedule)
  {
    forall s: ScheduleInsert, tail ensures EncodeSchedule(s, tail) == EncodeSchedule(s, []) + tail {
      assert [] + tail == tail;
      var t := EncodeIdempotencyKey(s.idempotencyKey, []);
      if s.idempotencyKey.Some? {
        PrefixedAppend(s.idempotencyKey.value, [], tail);
        TagAppend(1, Prefixed(s.idempotencyKey.value, []), tail);
      } else {
        TagAppend(0, [], tail);
      }
      WordAppend(Unsigned(s.executeAt), t, tail);
      var t1 := Signed(s.executeAt, t);
      PrefixedAppend(s.args, t1, tail);
      PrefixedAppend(s.target, Prefixed(s.args, t1), tail);
      PrefixedAppend(s.pinnedCode, Prefixed(s.target, Prefixed(s.args, t1)), tail);
      PrefixedAppend(s.id, Prefixed(s.pinnedCode, Prefixed(s.target, Prefixed(s.args, t1))), tail);
    }
  }

  /** The digest: validation first, then the stream. SHA-256 itself is taken to be injective. */
  method Digest(b: Batch) returns (r: Result<seq<int>, StoreError>)
    ensures r.Ok? <==> Valid(b)
    ensures r.Ok? ==> r.value == Preimage(b)
    ensures r.Err? ==> Blames(b, r.error)
  {
    var failure := Validate(b);
    if failure.Some? {
      return Err(failure.value);
    }
    ghost var t6 := EncodeContext(b.intent);
    ghost var t5 := Listed(EncodeSchedule, b.schedules, t6);
    ghost var t4 := Listed(EncodeEvent, b.outbox, t5);
    ghost var t3 := Listed(EncodeIndex, b.indexes, t4);
    ghost var t2 := Listed(EncodeDocument, b.documents, t3);
    ghost var t1 := Listed(EncodeRead, b.assertions, t2);
    var hash := HashBytes(b.scope.project, MAGIC, Prefixed(b.scope.environment, t1));
    hash := HashBytes(b.scope.environment, hash, t1);
    ReadAppends();
    hash := HashList(EncodeRead, b.assertions, hash, t2);
    DocumentAppends();
    hash := HashList(EncodeDocument, b.documents, hash, t3);
    IndexAppends();
    hash := HashList(EncodeIndex, b.indexes, hash, t4);
    EventAppends();
    hash := HashList(EncodeEvent, b.outbox, hash, t5);
    ScheduleAppends();
    hash := HashList(EncodeSchedule, b.schedules, hash, t6);
    if b.intent.Some? {
      hash := HashBytes(CONTEXT_MAGIC, hash, Prefixed(b.intent.value, []));
      hash := HashBytes(b.intent.value, hash, []);
    }
    assert hash + [] == hash;
    r := Ok(hash);
  }

  /** Two valid batches have one digest exactly when they differ at most in their operation id. */
  lemma SameDigestSameContent(a: Batch, b: Batch)
    requires Valid(a) && Valid(b)
    ensures Preimage(a) == Preimage(b) <==> a == b.(operationId := a.operationId)
  {
    if Preimage(a) == Preimage(b) {
      PreimageInjective(a, b);
    }
  }
}
