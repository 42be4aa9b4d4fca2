/**
 The store adapter as it runs: transactions that update rows step by step and are rolled back when
 a statement fails. Every method is proved against the corresponding step of `Store`.
 */
module PostgresStore {

  import opened Order
  import opened Values
  import opened Encoding
  import opened Batch
  import opened Store

  // ---------------------------------------------------------------- a failed prefix fails the whole

  lemma {:induction false} DocumentsFail(documents: map<DocumentKey, Document>, ms: seq<DocumentMutation>,
      sequence: nat, now: int, i: nat)
    requires i <= |ms| && Store.ApplyDocuments(documents, ms[..i], sequence, now).Err?
    ensures Store.ApplyDocuments(documents, ms, sequence, now) ==
      Store.ApplyDocuments(documents, ms[..i], sequence, now)
    decreases |ms|
  {
    if i < |ms| {
      assert ms[..|ms| - 1][..i] == ms[..i];
      DocumentsFail(documents, ms[..|ms| - 1], sequence, now, i);
    } else {
      assert ms[..i] == ms;
    }
  }

  lemma {:induction false} IndexesFail(indexes: map<(Sized, Sized, Sized), IndexRow>,
      documents: map<DocumentKey, Document>, ms: seq<IndexMutation>, sequence: nat, i: nat)
    requires i <= |ms| && Store.ApplyIndexes(indexes, documents, ms[..i], sequence).Err?
    ensures Store.ApplyIndexes(indexes, documents, ms, sequence) ==
      Store.ApplyIndexes(indexes, documents, ms[..i], sequence)
    decreases |ms|
  {
    if i < |ms| {
      assert ms[..|ms| - 1][..i] == ms[..i];
      IndexesFail(indexes, documents, ms[..|ms| - 1], sequence, i);
    } else {
      assert ms[..i] == ms;
    }
  }

  lemma {:induction false} EventsFail(outbox: map<Sized, OutboxRow>, es: seq<OutboxAppend>, sequence: nat, i: nat)
    requires i <= |es| && Store.AppendEvents(outbox, es[..i], sequence).Err?
    ensures Store.AppendEvents(outbox, es, sequence) == Store.AppendEvents(outbox, es[..i], sequence)
    decreases |es|
  {
    if i < |es| {
      assert es[..|es| - 1][..i] == es[..i];
      EventsFail(outbox, es[..|es| - 1], sequence, i);
    } else {
      assert es[..i] == es;
    }
  }

  lemma {:induction false} SchedulesFail(schedules: map<Sized, Schedule>, ss: seq<ScheduleInsert>, sequence: nat,
      i: nat)
    requires i <= |ss| && Store.InsertSchedules(schedules, ss[..i], sequence).Err?
    ensures Store.InsertSchedules(schedules, ss, sequence) == Store.InsertSchedules(schedules, ss[..i], sequence)
    decreases |ss|
  {
    if i < |ss| {
      assert ss[..|ss| - 1][..i] == ss[..i];
      SchedulesFail(schedules, ss[..|ss| - 1], sequence, i);
    } else {
      assert ss[..i] == ss;
    }
  }

  class Adapter {
    const scope: Scope
    var sequence: nat
    var documents: map<DocumentKey, Document>
    var indexes: map<(Sized, Sized, Sized), IndexRow>
    var journal: map<Text, Operation>
    var outbox: map<Sized, OutboxRow>
    var consumers: map<Text, Consumer>
    var schedules: map<Sized, Schedule>

    function State(): Env
      reads this
    {
      Env(scope, sequence, documents, indexes, journal, outbox, consumers, schedules)
    }

    constructor (scope: Scope)
      ensures State() == Store.EmptyEnv(scope)
    {
      this.scope := scope;
      sequence, documents, indexes, journal := 0, map[], map[], map[];
      outbox, consumers, schedules := map[], map[], map[];
    }

    /** Restores the rows of `before`. */
    method Rollback(before: Env)
      requires before.scope == scope
      modifies this
      ensures State() == before
    {
      sequence, documents, indexes, journal := before.sequence, before.documents, before.indexes, before.journal;
      outbox, consumers, schedules := before.outbox, before.consumers, before.schedules;
    }

    // -------------------------------------------------------------- commit

    method ValidateReads(assertions: seq<ReadAssertion>) returns (ok: bool)
      ensures ok == Store.ReadsHold(documents, assertions)
    {
      for i := 0 to |assertions|
        invariant forall j :: 0 <= j < i ==> Store.RevisionOf(documents, assertions[j].key) == assertions[j].observed
      {
        if Store.RevisionOf(documents, assertions[i].key) != assertions[i].observed {
          return false;
        }
      }
      ok := true;
    }

    method ApplyDocument(m: DocumentMutation, sequence: nat, now: int) returns (r: Result<RevisionResult, StoreError>)
      modifies this`documents
      ensures var applied := Store.ApplyDocument(old(documents), m, sequence, now);
              if applied.Ok? then r == Ok(applied.value.result) && documents == applied.value.documents
              else r == Err(applied.error) && documents == old(documents)
    {
      match m {
        case Upsert(key, Absent, value) =>
          if key in documents {
            return Err(MutationConflict);
          }
          documents := documents[key := Document(1, sequence, now, now, value)];
          r := Ok(RevisionResult(key, Some(1)));
        case Upsert(key, Exact(expected), value) =>
          if expected == 0 {
            return Err(MutationConflict);
          }
          if expected + 1 > Store.I64_MAX {
            return Err(LimitExceeded);
          }
          if key !in documents || documents[key].revision != expected {
            return Err(MutationConflict);
          }
          documents := documents[key := Document(expected + 1, sequence, documents[key].createdAt, now, value)];
          r := Ok(RevisionResult(key, Some(expected + 1)));
        case Delete(key, expected) =>
          if expected == 0 {
            return Err(MutationConflict);
          }
          if expected > Store.I64_MAX {
            return Err(LimitExceeded);
          }
          if key !in documents || documents[key].revision != expected {
            return Err(MutationConflict);
          }
          documents := documents - {key};
          r := Ok(RevisionResult(key, None));
      }
    }

    method ApplyDocuments(ms: seq<DocumentMutation>, sequence: nat, now: int)
      returns (r: Result<seq<RevisionResult>, StoreError>)
      modifies this`documents
      ensures var applied := Store.ApplyDocuments(old(documents), ms, sequence, now);
              if applied.Ok? then r == Ok(applied.value.result) && documents == applied.value.documents
              else r == Err(applied.error)
    {
      var results: seq<RevisionResult> := [];
      for i := 0 to |ms|
        invariant Store.ApplyDocuments(old(documents), ms[..i], sequence, now) == Ok(Store.Applied(documents, results))
      {
        assert ms[..i + 1][..i] == ms[..i];
        var one := ApplyDocument(ms[i], sequence, now);
        if one.Err? {
          DocumentsFail(old(documents), ms, sequence, now, i + 1);
          return Err(one.error);
        }
        results := results + [one.value];
      }
      assert ms[..|ms|] == ms;
      r := Ok(results);
    }

    method ApplyIndexes(ms: seq<IndexMutation>, sequence: nat) returns (failure: Option<StoreError>)
      modifies this`indexes
      ensures var applied := Store.ApplyIndexes(old(indexes), documents, ms, sequence);
              if applied.Ok? then failure == None && indexes == applied.value else failure == Some(applied.error)
    {
      for i := 0 to |ms|
        invariant Store.ApplyIndexes(old(indexes), documents, ms[..i], sequence) == Ok(indexes)
      {
        assert ms[..i + 1][..i] == ms[..i];
        if ms[i].Put? {
          if ms[i].revision == 0 || ms[i].revision > Store.I64_MAX
             || ms[i].entry !in documents || documents[ms[i].entry].revision != ms[i].revision {
            IndexesFail(old(indexes), documents, ms, sequence, i + 1);
            return Some(
              if 0 < ms[i].revision && Store.I64_MAX < ms[i].revision then LimitExceeded else MutationConflict);
          }
          indexes := indexes[IndexIdentity(ms[i]) := IndexRow(ms[i].entry.table, ms[i].revision, sequence)];
        } else {
          indexes := indexes - {IndexIdentity(ms[i])};
        }
      }
      assert ms[..|ms|] == ms;
      failure := None;
    }

    method AppendEvents(es: seq<OutboxAppend>, sequence: nat) returns (failure: Option<StoreError>)
      modifies this`outbox
      ensures var applied := Store.AppendEvents(old(outbox), es, sequence);
              if applied.Ok? then failure == None && outbox == applied.value else failure == Some(applied.error)
    {
      for i := 0 to |es|
        invariant Store.AppendEvents(old(outbox), es[..i], sequence) == Ok(outbox)
      {
        assert es[..i + 1][..i] == es[..i];
        if es[i].eventId in outbox {
          EventsFail(old(outbox), es, sequence, i + 1);
          return Some(MutationConflict);
        }
        outbox := outbox[es[i].eventId := OutboxRow(sequence, es[i].payload)];
      }
      assert es[..|es|] == es;
      failure := None;
    }

    method InsertSchedules(ss: seq<ScheduleInsert>, sequence: nat) returns (failure: Option<StoreError>)
      modifies this`schedules
      ensures var applied := Store.InsertSchedules(old(schedules), ss, sequence);
              if applied.Ok? then failure == None && schedules == applied.value else failure == Some(applied.error)
    {
      for i := 0 to |ss|
        invariant Store.InsertSchedules(old(schedules), ss[..i], sequence) == Ok(schedules)
      {
        assert ss[..i + 1][..i] == ss[..i];
        if !Store.ScheduleFree(schedules, ss[i]) {
          SchedulesFail(old(schedules), ss, sequence, i + 1);
          return Some(MutationConflict);
        }
        schedules := schedules[ss[i].id := Store.NewSchedule(ss[i], sequence)];
      }
      assert ss[..|ss|] == ss;
      failure := None;
    }

    /** Applies a new operation; the caller rolls back when it fails. */
    method ApplyFresh(b: Batch, digest: seq<int>, now: int) returns (r: Result<Receipt, StoreError>)
      modifies this
      ensures var applied := Store.FreshCommit(old(State()), b, digest, now);
              if applied.Ok? then r == Ok(applied.value.value) && State() == applied.value.env
              else r == Err(applied.error)
    {
      var held := ValidateReads(b.assertions);
      if !held {
        return Err(MutationConflict);
      }
      sequence := sequence + 1;
      var results := ApplyDocuments(b.documents, sequence, now);
      if results.Err? {
        return Err(results.error);
      }
      journal := journal[b.operationId := Operation(digest, sequence, results.value)];
      var failure := ApplyIndexes(b.indexes, sequence);
      if failure.None? {
        failure := AppendEvents(b.outbox, sequence);
        if failure.None? {
          failure := InsertSchedules(b.schedules, sequence);
        }
      }
      if failure.Some? {
        return Err(failure.value);
      }
      r := Ok(Receipt(sequence, results.value, false));
    }

    /** Commits a batch atomically: on any error nothing has changed. */
    method Commit(b: Batch, now: int) returns (r: Result<Receipt, StoreError>)
      modifies this
      ensures b.scope != scope ==> r == Err(NotFound) && State() == old(State())
      ensures b.scope == scope && !Valid(b) ==> r.Err? && Blames(b, r.error) && State() == old(State())
      ensures b.scope == scope && Valid(b) ==>
                var committed := Store.Commit(old(State()), b, Preimage(b), now);
                if committed.Ok? then r == Ok(committed.value.value) && State() == committed.value.env
                else r == Err(committed.error) && State() == old(State())
    {
      if b.scope != scope {
        return Err(NotFound);
      }
      var digest := Digest(b);
      if digest.Err? {
        return Err(digest.error);
      }
      if b.operationId in journal {
        var operation := journal[b.operationId];
        if operation.digest != digest.value {
          return Err(OperationIdReused);
        }
        if |operation.results| != |b.documents| {
          return Err(Corruption);
        }
        return Ok(Receipt(operation.sequence, operation.results, true));
      }
      var before := State();
      r := ApplyFresh(b, digest.value, now);
      if r.Err? {
        Rollback(before);
      }
    }

    // -------------------------------------------------------------- outbox

    /** The first unread events in order, picked one by one. */
    method SelectEvents(cursor: Option<Cursor>, limit: nat) returns (events: seq<OutboxEvent>)
      ensures forall p :: p in First(Store.Unread(outbox, cursor), limit) ==> p != [] && p[1..] in outbox
      ensures events == Store.EventsAt(outbox, First(Store.Unread(outbox, cursor), limit))
    {
      var unread := Store.Unread(outbox, cursor);
      UnreadHaveEvents(outbox, cursor);
      var all := First(unread, limit);
      events := [];
      var taken: seq<Key> := [];
      while |taken| < limit && unread != {}
        invariant forall p :: p in unread ==> p != [] && p[1..] in outbox
        invariant |taken| <= limit && all == taken + First(unread, limit - |taken|)
        invariant forall p :: p in taken ==> p != [] && p[1..] in outbox
        invariant events == Store.EventsAt(outbox, taken)
        decreases limit - |taken|
      {
        var p := Least(unread);
        assert First(unread, limit - |taken|) == [p] + First(unread - {p}, limit - |taken| - 1);
        assert all == (taken + [p]) + First(unread - {p}, limit - |taken| - 1);
        ghost var before := taken;
        taken := taken + [p];
        events := events + [Store.EventAt(outbox, p)];
        assert events == Store.EventsAt(outbox, taken) by {
          assert forall i :: 0 <= i < |before| ==> taken[i] == before[i];
        }
        unread := unread - {p};
      }
      assert all == taken;
    }

    /** Takes the lease of a consumer, creating the consumer on its first claim. */
    method TakeLease(name: Text, worker: Text, now: int, until: int) returns (taken: Option<Consumer>)
      modifies this`consumers
      ensures var c := Store.ConsumerOf(old(State()), name);
              if Store.Claimable(c, worker, now) then
                && taken == Some(c)
                && consumers == old(consumers)[name :=
                  c.(owner := Some(worker), until := Some(until), generation := c.generation + 1)]
              else taken == None && consumers == old(consumers)
    {
      var before := consumers;
      if name !in consumers {
        consumers := consumers[name := Store.FreshConsumer];
      }
      var c := consumers[name];
      if !Store.Claimable(c, worker, now) {
        consumers := before;
        return None;
      }
      consumers := consumers[name := c.(owner := Some(worker), until := Some(until), generation := c.generation + 1)];
      taken := Some(c);
    }

    /** Remembers the last event of a claim; an empty claim releases the lease at once. */
    method RecordClaim(name: Text, worker: Text, until: int, c: Consumer, events: seq<OutboxEvent>)
      requires name in consumers
      requires consumers[name] == c.(owner := Some(worker), until := Some(until), generation := c.generation + 1)
      modifies this`consumers
      ensures consumers == old(consumers)[name := Store.AfterClaim(c, worker, until, events)]
    {
      if events != [] {
        consumers := consumers[name := consumers[name].(claimed := Some(Store.PositionOf(events[|events| - 1])))];
      } else {
        consumers := consumers[name := consumers[name].(owner := None, until := None)];
      }
    }

    method ClaimOutbox(name: Text, worker: Text, now: int, until: int, limit: nat)
      returns (r: Result<Claim, StoreError>)
      modifies this`consumers
      ensures var claimed := Store.ClaimOutbox(old(State()), name, worker, now, until, limit);
              if claimed.Ok? then r == Ok(claimed.value.value) && State() == claimed.value.env
              else r == Err(claimed.error) && State() == old(State())
    {
      if limit == 0 || limit > Store.MAX_OUTBOX_CLAIM || until <= now {
        return Err(LimitExceeded);
      }
      var taken := TakeLease(name, worker, now, until);
      if taken.None? {
        return Err(Busy);
      }
      var events := SelectEvents(taken.value.cursor, limit);
      RecordClaim(name, worker, until, taken.value, events);
      r := Ok(Claim(taken.value.generation + 1, taken.value.cursor, events));
    }

    method AckOutbox(name: Text, worker: Text, generation: nat, through: Cursor) returns (failure: Option<StoreError>)
      modifies this`consumers
      ensures var acked := Store.AckOutbox(old(State()), name, worker, generation, through);
              if acked.Ok? then failure == None && State() == acked.value
              else failure == Some(acked.error) && State() == old(State())
    {
      if generation == 0 || through.sequence == 0 {
        return Some(OutboxLeaseLost);
      }
      if through.sequence > Store.I64_MAX || generation > Store.I64_MAX {
        return Some(LimitExceeded);
      }
      if name !in consumers {
        return Some(OutboxLeaseLost);
      }
      var c := consumers[name];
      if c.owner != Some(worker) || c.generation != generation || c.claimed != Some(through) {
        return Some(OutboxLeaseLost);
      }
      consumers := consumers[name := c.(cursor := Some(through), claimed := None, owner := None, until := None)];
      failure := None;
    }

    // -------------------------------------------------------------- scheduled invocations

    /** Leases the given rows one by one. */
    method LeaseRows(ids: set<Text>, worker: Text, until: int)
      modifies this`schedules
      ensures schedules == Store.LeaseAll(old(schedules), ids, worker, until)
    {
      var remaining: set<Sized> := set id: Sized | id in schedules.Keys && id in ids;
      while remaining != {}
        invariant schedules.Keys == old(schedules).Keys && remaining <= schedules.Keys && remaining <= ids
        invariant forall id :: id in schedules ==>
          schedules[id] ==
          if id in ids && id !in remaining then Store.Leased(old(schedules)[id], worker, until) else old(schedules)[id]
        decreases remaining
      {
        var id: Sized :| id in remaining;
        schedules := schedules[id := Store.Leased(schedules[id], worker, until)];
        remaining := remaining - {id};
      }
    }

    method ClaimDue(worker: Text, now: int, until: int, limit: nat, locked: set<Sized>)
      returns (r: Result<seq<Store.ScheduleClaim>, StoreError>)
      modifies this`schedules
      ensures var claimed := Store.ClaimDue(old(State()), worker, now, until, limit, locked);
              if claimed.Ok? then r == Ok(claimed.value.value) && State() == claimed.value.env
              else r == Err(claimed.error) && State() == old(State())
    {
      if limit == 0 || limit > Store.MAX_SCHEDULE_CLAIM || until <= now {
        return Err(LimitExceeded);
      }
      var ids := Store.IdsAt(First(Store.DueRanks(schedules, now, locked), limit));
      Store.DueIdsExist(schedules, now, limit, locked);
      LeaseRows((set id | id in ids), worker, until);
      r := Ok(Store.ClaimsAt(ids, schedules));
    }

    method CompleteScheduled(id: Sized, worker: Text, generation: nat, c: Completion)
      returns (failure: Option<StoreError>)
      modifies this`schedules
      ensures var completed := Store.CompleteScheduled(old(State()), id, worker, generation, c);
              if completed.Ok? then failure == None && State() == completed.value
              else failure == Some(completed.error) && State() == old(State())
    {
      if !Store.ValidCompletion(c) {
        return Some(LimitExceeded);
      }
      if generation == 0 {
        return Some(MutationConflict);
      }
      if generation > Store.I64_MAX {
        return Some(LimitExceeded);
      }
      if id !in schedules || !schedules[id].status.Running? || schedules[id].owner != Some(worker)
        || schedules[id].generation != generation {
        return Some(LeaseLost);
      }
      schedules := schedules[id := Store.Completed(schedules[id], c)];
      failure := None;
    }

    method CancelScheduled(id: Sized) returns (r: Result<CancelResult, StoreError>)
      modifies this`schedules
      ensures var cancelled := Store.CancelScheduled(old(State()), id);
              if cancelled.Ok? then r == Ok(cancelled.value.value) && State() == cancelled.value.env
              else r == Err(cancelled.error) && State() == old(State())
    {
      if id in schedules && schedules[id].status.Pending? {
        schedules := schedules[id := schedules[id].(status := Cancelled)];
        return Ok(NowCancelled);
      }
      if id !in schedules {
        return Err(NotFound);
      }
      match schedules[id].status {
        case Running => r := Ok(StillRunning);
        case Cancelled => r := Ok(AlreadyCancelled);
        case Succeeded => r := Ok(Terminal);
        case Failed => r := Ok(Terminal);
      }
    }
  }

  lemma UnreadHaveEvents(outbox: map<Sized, OutboxRow>, cursor: Option<Cursor>)
    ensures forall p :: p in Store.Unread(outbox, cursor) ==> p != [] && p[1..] in outbox
  {
    forall p | p in Store.Unread(outbox, cursor) ensures p != [] && p[1..] in outbox {
      var id: Sized :| id in outbox && Store.Beyond(Store.RowRank(outbox, id), cursor)
        && p == Store.RowRank(outbox, id);
      assert p[1..] == id;
    }
  }
}
