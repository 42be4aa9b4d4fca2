/** What a claim of the outbox hands out and leaves behind, and what an acknowledgement does. */
module OutboxEffects {

  import opened Order
  import opened Values
  import opened Encoding
  import opened Batch
  import opened Store

  /** Another worker holds the consumer and its time has not run out. */
  predicate HeldByOther(c: Consumer, worker: Text, now: int) {
    c.owner.Some? && c.owner.value != worker && (c.until.None? || now < c.until.value)
  }

  ghost predicate OthersSame(env: Env, after: Env, name: Text) {
    && after == env.(consumers := after.consumers)
    && name in after.consumers
    && (forall other :: other != name ==>
          (other in after.consumers <==> other in env.consumers)
          && (other in env.consumers ==> after.consumers[other] == env.consumers[other]))
  }

  /** The consumer after a claim: leased up to the last event handed out, or released when there is none. */
  predicate Leased(before: Consumer, after: Consumer, worker: Text, until: int, events: seq<OutboxEvent>) {
    && after.cursor == before.cursor && after.generation == before.generation + 1
    && if events == [] then after.owner.None? && after.until.None? && after.claimed == before.claimed
       else
         var last := events[|events| - 1];
         && after.owner == Some(worker) && after.until == Some(until)
         && after.claimed == Some(Cursor(last.sequence, last.eventId))
  }

  function Place(e: OutboxEvent): Key {
    [e.sequence] + e.eventId
  }

  function RowPlace(outbox: map<Sized, OutboxRow>, id: Sized): Key
    requires id in outbox
  {
    var head: Key := [outbox[id].sequence];
    head + id
  }

  /** The events are rows of the outbox after the cursor, in order, and the first of them. */
  ghost predicate HandsOut(
      outbox: map<Sized, OutboxRow>, cursor: Option<Cursor>, limit: nat, events: seq<OutboxEvent>)
  {
    && |events| <= limit
    && (forall i :: 0 <= i < |events| ==>
          && events[i].eventId in outbox
          && outbox[events[i].eventId] == OutboxRow(events[i].sequence, events[i].payload)
          && After(Place(events[i]), cursor))
    && (forall i, j :: 0 <= i < j < |events| ==> Less(Place(events[i]), Place(events[j])))
    && (forall id :: id in outbox && LeftBehind(outbox, cursor, events, id) ==>
          |events| == limit && forall i :: 0 <= i < |events| ==> Less(Place(events[i]), RowPlace(outbox, id)))
  }

  predicate After(place: Key, cursor: Option<Cursor>) {
    cursor.Some? ==> Less([cursor.value.sequence] + cursor.value.eventId, place)
  }

  /** A row after the cursor that is not handed out. */
  predicate LeftBehind(outbox: map<Sized, OutboxRow>, cursor: Option<Cursor>, events: seq<OutboxEvent>, id: Sized)
    requires id in outbox
  {
    After(RowPlace(outbox, id), cursor) && forall i :: 0 <= i < |events| ==> events[i].eventId != id
  }

  lemma UnreadRow(outbox: map<Sized, OutboxRow>, cursor: Option<Cursor>, p: Key)
    requires p in Unread(outbox, cursor)
    ensures p != [] && p[1..] in outbox && p == RowPlace(outbox, p[1..]) && After(p, cursor)
  {
    var id: Sized :| id in outbox && Beyond(RowRank(outbox, id), cursor) && p == RowRank(outbox, id);
    assert p[1..] == id;
  }

  lemma RowUnread(outbox: map<Sized, OutboxRow>, cursor: Option<Cursor>, id: Sized)
    requires id in outbox && After(RowPlace(outbox, id), cursor)
    ensures RowPlace(outbox, id) in Unread(outbox, cursor) && RowPlace(outbox, id)[1..] == id
  {
    assert Beyond(RowRank(outbox, id), cursor);
  }

  lemma SelectionHandsOut(outbox: map<Sized, OutboxRow>, cursor: Option<Cursor>, limit: nat)
    ensures var first := First(Unread(outbox, cursor), limit);
      && (forall p :: p in first ==> p != [] && p[1..] in outbox)
      && HandsOut(outbox, cursor, limit, EventsAt(outbox, first))
  {
    var first := First(Unread(outbox, cursor), limit);
    FirstIsOrdered(Unread(outbox, cursor), limit);
    FirstIsAll(Unread(outbox, cursor), limit);
    forall p | p in first
      ensures p != [] && p[1..] in outbox && p == RowPlace(outbox, p[1..]) && After(p, cursor)
    {
      UnreadRow(outbox, cursor, p);
    }
    var events := EventsAt(outbox, first);
    forall i | 0 <= i < |events| ensures Place(events[i]) == first[i] {
      assert first[i] in first;
    }
    forall id | id in outbox && LeftBehind(outbox, cursor, events, id)
      ensures |events| == limit && forall i :: 0 <= i < |events| ==> Less(Place(events[i]), RowPlace(outbox, id))
    {
      LeftBehindIsLater(outbox, cursor, limit, first, id);
    }
  }

  lemma LeftBehindIsLater(
      outbox: map<Sized, OutboxRow>, cursor: Option<Cursor>, limit: nat, first: seq<Key>, id: Sized)
    requires first == First(Unread(outbox, cursor), limit)
    requires forall p :: p in first ==> p != [] && p[1..] in outbox
    requires id in outbox && LeftBehind(outbox, cursor, EventsAt(outbox, first), id)
    ensures |first| == limit && forall p :: p in first ==> Less(p, RowPlace(outbox, id))
  {
    FirstIsOrdered(Unread(outbox, cursor), limit);
    FirstIsAll(Unread(outbox, cursor), limit);
    RowUnread(outbox, cursor, id);
    forall i | 0 <= i < |first| ensures first[i] != RowPlace(outbox, id) {
      assert first[i] in first && EventsAt(outbox, first)[i].eventId == first[i][1..];
    }
  }

  /** A claim is refused exactly for its limits or another worker's live lease; otherwise the first events go out. */
  lemma ClaimMeans(env: Env, name: Text, worker: Text, now: int, until: int, limit: nat)
    ensures var r := ClaimOutbox(env, name, worker, now, until, limit); var c := ConsumerOf(env, name);
      if !(0 < limit <= MAX_OUTBOX_CLAIM && now < until) then r == Err(LimitExceeded)
      else if HeldByOther(c, worker, now) then r == Err(Busy)
      else
        && r.Ok? && OthersSame(env, r.value.env, name)
        && HandsOut(env.outbox, c.cursor, limit, r.value.value.events)
        && Leased(c, r.value.env.consumers[name], worker, until, r.value.value.events)
        && r.value.value.generation == c.generation + 1 && r.value.value.acknowledged == c.cursor
  {
    SelectionHandsOut(env.outbox, ConsumerOf(env, name).cursor, limit);
  }

  /** Exactly the worker of the current lease acknowledges, exactly what it claimed; the cursor moves there. */
  lemma AcknowledgementMeans(env: Env, name: Text, worker: Text, generation: nat, through: Cursor)
    ensures var r := AckOutbox(env, name, worker, generation, through);
      && (r.Ok? <==>
            && 0 < generation <= I64_MAX && 0 < through.sequence <= I64_MAX && name in env.consumers
            && env.consumers[name].owner == Some(worker) && env.consumers[name].generation == generation
            && env.consumers[name].claimed == Some(through))
      && (r.Ok? ==>
            && OthersSame(env, r.value, name)
            && r.value.consumers[name] == Consumer(Some(through), None, None, generation, None))
  {
  }
}
