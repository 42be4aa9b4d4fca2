/** Outbox delivery over whole histories: complete, ordered, without duplicates, and fenced. */
module Outbox {

  import opened Order
  import opened Values
  import opened Encoding
  import opened Batch
  import opened Store

  // ---------------------------------------------------------------- what a consumer acknowledged

  /** The batch handed out by the latest claim, and everything acknowledged so far. */
  datatype Tracked = Tracked(claimed: seq<OutboxEvent>, delivered: seq<OutboxEvent>)

  ghost function TrackStep(t: Tracked, env: Env, step: Step, name: Text): Tracked {
    match step
    case ClaimStep(consumer, worker, now, until, limit) =>
      var r := ClaimOutbox(env, consumer, worker, now, until, limit);
      if consumer == name && r.Ok? then t.(claimed := r.value.value.events) else t
    case AckStep(consumer, worker, generation, through) =>
      if consumer == name && AckOutbox(env, consumer, worker, generation, through).Ok?
      then Tracked([], t.delivered + t.claimed) else t
    case _ => t
  }

  ghost function Track(states: seq<Env>, steps: seq<Step>, name: Text, n: nat): Tracked
    requires |states| == |steps| + 1 && n <= |steps|
  {
    if n == 0 then Tracked([], []) else TrackStep(Track(states, steps, name, n - 1), states[n - 1], steps[n - 1], name)
  }

  // ---------------------------------------------------------------- positions

  function Positions(outbox: map<Sized, OutboxRow>): set<Key> {
    set id: Sized | id in outbox :: RowRank(outbox, id)
  }

  /** Positions up to and including the cursor; none before the first acknowledgement. */
  function UpTo(outbox: map<Sized, OutboxRow>, cursor: Option<Cursor>): set<Key> {
    set p | p in Positions(outbox) && !Beyond(p, cursor)
  }

  /** Positions beyond the cursor, up to and including `last`. */
  function Between(outbox: map<Sized, OutboxRow>, cursor: Option<Cursor>, last: Cursor): set<Key> {
    set p | p in Positions(outbox) && Beyond(p, cursor) && !Less(Rank(last), p)
  }

  function Ranks(es: seq<OutboxEvent>): (ks: seq<Key>)
    ensures |ks| == |es|
  {
    seq(|es|, i requires 0 <= i < |es| => Rank(PositionOf(es[i])))
  }

  /** The events are rows of the outbox. */
  ghost predicate AreRows(outbox: map<Sized, OutboxRow>, es: seq<OutboxEvent>) {
    forall i :: 0 <= i < |es| ==>
      es[i].eventId in outbox && outbox[es[i].eventId] == OutboxRow(es[i].sequence, es[i].payload)
  }

  /** The events are exactly those at the given positions, each once, in order. */
  ghost predicate Lists(outbox: map<Sized, OutboxRow>, es: seq<OutboxEvent>, positions: set<Key>) {
    AreRows(outbox, es) && StrictlyAscending(Ranks(es)) && forall k :: k in Ranks(es) <==> k in positions
  }

  lemma PositionHasEvent(outbox: map<Sized, OutboxRow>, p: Key)
    requires p in Positions(outbox)
    ensures p != [] && p[1..] in outbox && Rank(PositionOf(EventAt(outbox, p))) == p
  {
    var id: Sized :| id in outbox && p == RowRank(outbox, id);
    assert p[1..] == id;
  }

  /** A listing is the ordered outbox at those positions. */
  lemma ListingIsOutbox(outbox: map<Sized, OutboxRow>, es: seq<OutboxEvent>, positions: set<Key>)
    requires Lists(outbox, es, positions) && positions <= Positions(outbox)
    ensures forall p :: p in Ascending(positions) ==> p != [] && p[1..] in outbox
    ensures es == EventsAt(outbox, Ascending(positions))
  {
    forall p | p in positions ensures p != [] && p[1..] in outbox {
      PositionHasEvent(outbox, p);
    }
    ListingUnique(Ranks(es), Ascending(positions));
    forall i | 0 <= i < |es| ensures es[i] == EventAt(outbox, Ascending(positions)[i]) {
      assert Ranks(es)[i][1..] == es[i].eventId;
    }
  }

  // ---------------------------------------------------------------- joining two listings

  lemma {:induction false} JoinAscending(a: seq<Key>, b: seq<Key>)
    requires StrictlyAscending(a) && StrictlyAscending(b)
    requires forall x, y :: x in a && y in b ==> Less(x, y)
    ensures StrictlyAscending(a + b)
  {
    forall i, j | 0 <= i < j < |a + b| ensures Less((a + b)[i], (a + b)[j]) {
      if i < |a| && j >= |a| {
        assert a[i] in a && b[j - |a|] in b;
      }
    }
  }

  lemma UpToBeforeBetween(outbox: map<Sized, OutboxRow>, cursor: Option<Cursor>, last: Cursor, x: Key, y: Key)
    requires x in UpTo(outbox, cursor) && y in Between(outbox, cursor, last)
    ensures Less(x, y)
  {
    LessTotal(x, Rank(cursor.value));
    if x != Rank(cursor.value) {
      LessTransitive(x, Rank(cursor.value), y);
    }
  }

  lemma UpToExtends(outbox: map<Sized, OutboxRow>, cursor: Option<Cursor>, last: Cursor)
    requires Beyond(Rank(last), cursor)
    ensures UpTo(outbox, Some(last)) == UpTo(outbox, cursor) + Between(outbox, cursor, last)
  {
    forall p | p in UpTo(outbox, cursor) ensures !Less(Rank(last), p) {
      if Less(Rank(last), p) {
        LessTransitive(Rank(cursor.value), Rank(last), p);
      }
    }
  }

  lemma JoinListings(outbox: map<Sized, OutboxRow>, delivered: seq<OutboxEvent>, claimed: seq<OutboxEvent>,
      cursor: Option<Cursor>, last: Cursor)
    requires Lists(outbox, delivered, UpTo(outbox, cursor)) && Lists(outbox, claimed, Between(outbox, cursor, last))
    requires Beyond(Rank(last), cursor)
    ensures Lists(outbox, delivered + claimed, UpTo(outbox, Some(last)))
  {
    UpToExtends(outbox, cursor, last);
    assert Ranks(delivered + claimed) == Ranks(delivered) + Ranks(claimed);
    forall x, y | x in Ranks(delivered) && y in Ranks(claimed) ensures Less(x, y) {
      UpToBeforeBetween(outbox, cursor, last, x, y);
    }
    JoinAscending(Ranks(delivered), Ranks(claimed));
  }

  // ---------------------------------------------------------------- what a claim hands out

  lemma UnreadArePositions(outbox: map<Sized, OutboxRow>, cursor: Option<Cursor>)
    ensures forall p :: p in Unread(outbox, cursor) <==> p in Positions(outbox) && Beyond(p, cursor)
  {
  }

  /** A nonempty claim is the listing between the cursor and its own last event. */
  lemma ClaimLists(outbox: map<Sized, OutboxRow>, cursor: Option<Cursor>, limit: nat)
    requires limit >= 1
    ensures forall p :: p in First(Unread(outbox, cursor), limit) ==> p != [] && p[1..] in outbox
    ensures var es := EventsAt(outbox, First(Unread(outbox, cursor), limit));
            if Unread(outbox, cursor) == {} then es == []
            else
              && es != []
              && Beyond(Rank(PositionOf(es[|es| - 1])), cursor)
              && Rank(PositionOf(es[|es| - 1])) in Positions(outbox)
              && Lists(outbox, es, Between(outbox, cursor, PositionOf(es[|es| - 1])))
  {
    var unread := Unread(outbox, cursor);
    var first := First(unread, limit);
    UnreadArePositions(outbox, cursor);
    RanksOfEventsAt(outbox, first);
    FirstIsOrdered(unread, limit);
    if unread != {} {
      assert |first| >= 1;
      assert first[|first| - 1] in first;
      var es := EventsAt(outbox, first);
      assert Rank(PositionOf(es[|es| - 1])) == first[|first| - 1];
      forall p | p in Positions(outbox) && Beyond(p, cursor) ensures p in first <==> !Less(first[|first| - 1], p) {
        FirstUpToLast(unread, first, p);
      }
    }
  }

  lemma RanksOfEventsAt(outbox: map<Sized, OutboxRow>, positions: seq<Key>)
    requires forall p :: p in positions ==> p in Positions(outbox)
    ensures forall p :: p in positions ==> p != [] && p[1..] in outbox
    ensures Ranks(EventsAt(outbox, positions)) == positions && AreRows(outbox, EventsAt(outbox, positions))
  {
    forall p | p in positions ensures p != [] && p[1..] in outbox && Rank(PositionOf(EventAt(outbox, p))) == p {
      PositionHasEvent(outbox, p);
    }
    assert forall i :: 0 <= i < |positions| ==> positions[i] in positions;
  }

  lemma FirstUpToLast(unread: set<Key>, first: seq<Key>, p: Key)
    requires StrictlyAscending(first) && first != [] && p in unread
    requires forall x, k :: x in unread && x !in first && k in first ==> Less(k, x)
    ensures p in first <==> !Less(first[|first| - 1], p)
  {
    var last := first[|first| - 1];
    if p in first {
      LessIrreflexive(last);
      var i :| 0 <= i < |first| && first[i] == p;
      if Less(last, p) {
        LessAsymmetric(last, p);
      }
    } else {
      assert last in first;
    }
  }

  // ---------------------------------------------------------------- the invariant

  /** Rows carry sequences already issued. */
  ghost predicate RowsIssued(env: Env) {
    forall id :: id in env.outbox ==> 1 <= env.outbox[id].sequence <= env.sequence
  }

  ghost predicate Tracks(env: Env, name: Text, t: Tracked) {
    var c := ConsumerOf(env, name);
    && Lists(env.outbox, t.delivered, UpTo(env.outbox, c.cursor))
    && (c.cursor.Some? ==> Rank(c.cursor.value) in Positions(env.outbox))
    && (c.owner.Some? <==> c.claimed.Some?) && (c.owner.Some? <==> c.until.Some?)
    && (c.claimed.Some? ==>
          && Beyond(Rank(c.claimed.value), c.cursor) && Rank(c.claimed.value) in Positions(env.outbox)
          && Lists(env.outbox, t.claimed, Between(env.outbox, c.cursor, c.claimed.value)))
  }

  lemma {:induction false} AppendKeepsRows(outbox: map<Sized, OutboxRow>, es: seq<OutboxAppend>, sequence: nat)
    ensures var r := AppendEvents(outbox, es, sequence);
            r.Ok? ==>
              && (forall id :: id in outbox ==> id in r.value && r.value[id] == outbox[id])
              && (forall id :: id in r.value && id !in outbox ==> r.value[id].sequence == sequence)
  {
    if es != [] {
      AppendKeepsRows(outbox, es[..|es| - 1], sequence);
    }
  }

  /** A commit adds rows only, all of them at a new sequence. */
  ghost predicate Grows(before: Env, after: Env) {
    && (forall id :: id in before.outbox ==> id in after.outbox && after.outbox[id] == before.outbox[id])
    && (forall id :: id in after.outbox && id !in before.outbox ==>
      after.outbox[id].sequence == after.sequence == before.sequence + 1)
    && before.sequence <= after.sequence
  }

  lemma CommitGrows(env: Env, b: Batch, digest: seq<int>, now: int)
    requires Commit(env, b, digest, now).Ok?
    ensures Grows(env, Commit(env, b, digest, now).value.env)
  {
    AppendKeepsRows(env.outbox, b.outbox, env.sequence + 1);
  }

  /** Rows added later lie beyond everything issued before. */
  lemma NewPositions(before: Env, after: Env, p: Key, last: Cursor)
    requires RowsIssued(before) && Grows(before, after)
    requires p in Positions(after.outbox) && p !in Positions(before.outbox)
    requires Rank(last) in Positions(before.outbox)
    ensures Less(Rank(last), p)
  {
    var id: Sized :| id in after.outbox && p == RowRank(after.outbox, id);
    assert forall other: Sized :: other in before.outbox ==>
      RowRank(before.outbox, other) in Positions(before.outbox);
    var earlier: Sized :| earlier in before.outbox && Rank(last) == RowRank(before.outbox, earlier);
  }

  lemma OldPositions(before: Env, after: Env, p: Key)
    requires Grows(before, after) && p in Positions(before.outbox)
    ensures p in Positions(after.outbox)
  {
    var id: Sized :| id in before.outbox && p == RowRank(before.outbox, id);
    assert after.outbox[id] == before.outbox[id];
  }

  /** So what was delivered and what is claimed stay complete. */
  lemma GrowthKeepsListings(before: Env, after: Env, name: Text, t: Tracked)
    requires RowsIssued(before) && Grows(before, after) && Tracks(before, name, t)
    requires ConsumerOf(after, name) == ConsumerOf(before, name)
    ensures Tracks(after, name, t)
  {
    var c := ConsumerOf(before, name);
    forall p | p in Positions(before.outbox) ensures p in Positions(after.outbox) {
      OldPositions(before, after, p);
    }
    if c.cursor.Some? {
      forall p | p in Positions(after.outbox) && p !in Positions(before.outbox) ensures Less(Rank(c.cursor.value), p) {
        NewPositions(before, after, p, c.cursor.value);
      }
    }
    assert UpTo(after.outbox, c.cursor) == UpTo(before.outbox, c.cursor);
    if c.claimed.Some? {
      forall p | p in Positions(after.outbox) && p !in Positions(before.outbox) ensures Less(Rank(c.claimed.value), p) {
        NewPositions(before, after, p, c.claimed.value);
      }
      assert Between(after.outbox, c.cursor, c.claimed.value) == Between(before.outbox, c.cursor, c.claimed.value);
    }
  }

  lemma ClaimKeepsTracks(env: Env, name: Text, t: Tracked, step: Step)
    requires step.ClaimStep? && step.consumer == name && Tracks(env, name, t)
    ensures Tracks(Next(env, step), name, TrackStep(t, env, step, name))
  {
    if ClaimOutbox(env, name, step.worker, step.now, step.until, step.limit).Ok? {
      var c := ConsumerOf(env, name);
      ClaimLists(env.outbox, c.cursor, step.limit);
      UnreadArePositions(env.outbox, c.cursor);
      if c.claimed.Some? {
        assert Rank(c.claimed.value) in Unread(env.outbox, c.cursor);
      }
    }
  }

  lemma AckKeepsTracks(env: Env, name: Text, t: Tracked, step: Step)
    requires step.AckStep? && step.consumer == name && Tracks(env, name, t)
    ensures Tracks(Next(env, step), name, TrackStep(t, env, step, name))
  {
    if AckOutbox(env, name, step.worker, step.generation, step.through).Ok? {
      var c := ConsumerOf(env, name);
      JoinListings(env.outbox, t.delivered, t.claimed, c.cursor, step.through);
    }
  }

  lemma StepKeepsTracks(env: Env, name: Text, t: Tracked, step: Step)
    requires RowsIssued(env) && Tracks(env, name, t)
    ensures RowsIssued(Next(env, step)) && Tracks(Next(env, step), name, TrackStep(t, env, step, name))
  {
    StepFrame(env, step);
    if step.CommitStep? {
      if Commit(env, step.batch, step.digest, step.now).Ok? {
        CommitGrows(env, step.batch, step.digest, step.now);
        GrowthKeepsListings(env, Next(env, step), name, t);
      }
    } else if step.ClaimStep? && step.consumer == name {
      ClaimKeepsTracks(env, name, t, step);
    } else if step.AckStep? && step.consumer == name {
      AckKeepsTracks(env, name, t, step);
    } else {
      assert ConsumerOf(Next(env, step), name) == ConsumerOf(env, name);
    }
  }

  lemma {:induction false} HistoryTracks(states: seq<Env>, steps: seq<Step>, name: Text, n: nat)
    requires IsHistory(states, steps) && n < |states|
    ensures RowsIssued(states[n]) && Tracks(states[n], name, Track(states, steps, name, n))
  {
    if n > 0 {
      HistoryTracks(states, steps, name, n - 1);
      assert StepAt(states, steps, n - 1);
      StepKeepsTracks(states[n - 1], name, Track(states, steps, name, n - 1), steps[n - 1]);
    }
  }

  /**
   At every moment of every history, what a consumer acknowledged is the outbox in order up to its
   cursor: nothing lost, repeated or reordered. A lease is held exactly while a batch is claimed.
   */
  lemma Delivery(states: seq<Env>, steps: seq<Step>, name: Text, n: nat)
    requires IsHistory(states, steps) && n < |states|
    ensures var env := states[n];
            var upTo := Ascending(UpTo(env.outbox, ConsumerOf(env, name).cursor));
            && (forall p :: p in upTo ==> p != [] && p[1..] in env.outbox)
            && Track(states, steps, name, n).delivered == EventsAt(env.outbox, upTo)
    ensures ConsumerOf(states[n], name).owner.Some? <==> ConsumerOf(states[n], name).claimed.Some?
  {
    HistoryTracks(states, steps, name, n);
    var env := states[n];
    ListingIsOutbox(env.outbox, Track(states, steps, name, n).delivered,
      UpTo(env.outbox, ConsumerOf(env, name).cursor));
  }

  // ---------------------------------------------------------------- cursors and fences

  ghost predicate CursorAtMost(a: Option<Cursor>, b: Option<Cursor>) {
    a.None? || (b.Some? && !Less(Rank(b.value), Rank(a.value)))
  }

  /** What is claimed lies at or beyond the cursor. */
  ghost predicate CursorBehindClaim(c: Consumer) {
    CursorAtMost(c.cursor, c.cursor) && (c.claimed.Some? ==> CursorAtMost(c.cursor, c.claimed))
  }

  lemma TrackedIsBehind(env: Env, name: Text, t: Tracked)
    requires Tracks(env, name, t)
    ensures CursorBehindClaim(ConsumerOf(env, name))
  {
    var c := ConsumerOf(env, name);
    if c.cursor.Some? {
      LessIrreflexive(Rank(c.cursor.value));
      if c.claimed.Some? && Less(Rank(c.claimed.value), Rank(c.cursor.value)) {
        LessAsymmetric(Rank(c.claimed.value), Rank(c.cursor.value));
      }
    }
  }

  lemma StepMovesConsumer(env: Env, name: Text, step: Step)
    requires CursorBehindClaim(ConsumerOf(env, name))
    ensures var c, d := ConsumerOf(env, name), ConsumerOf(Next(env, step), name);
            && c.generation <= d.generation && CursorAtMost(c.cursor, d.cursor)
            && (c.generation == d.generation && c.owner.None? ==> d.owner.None?)
  {
    StepFrame(env, step);
  }

  lemma ConsumerStepAt(states: seq<Env>, steps: seq<Step>, name: Text, n: nat)
    requires IsHistory(states, steps) && n < |steps|
    ensures var c, d := ConsumerOf(states[n], name), ConsumerOf(states[n + 1], name);
            && c.generation <= d.generation && CursorAtMost(c.cursor, d.cursor)
            && (c.generation == d.generation && c.owner.None? ==> d.owner.None?)
  {
    HistoryTracks(states, steps, name, n);
    assert StepAt(states, steps, n);
    TrackedIsBehind(states[n], name, Track(states, steps, name, n));
    StepMovesConsumer(states[n], name, steps[n]);
  }

  /** Cursor and generation only grow; a lease given up comes back only with a new generation. */
  lemma {:induction false} ConsumerMovesForward(states: seq<Env>, steps: seq<Step>, name: Text, i: nat, j: nat)
    requires IsHistory(states, steps) && i <= j < |states|
    ensures var c, d := ConsumerOf(states[i], name), ConsumerOf(states[j], name);
            && c.generation <= d.generation && CursorAtMost(c.cursor, d.cursor)
            && (c.generation == d.generation && c.owner.None? ==> d.owner.None?)
    decreases j - i
  {
    var c, d := ConsumerOf(states[i], name), ConsumerOf(states[j], name);
    if i == j {
      if c.cursor.Some? {
        LessIrreflexive(Rank(c.cursor.value));
      }
    } else {
      ConsumerMovesForward(states, steps, name, i, j - 1);
      ConsumerStepAt(states, steps, name, j - 1);
      CursorTransitive(c.cursor, ConsumerOf(states[j - 1], name).cursor, d.cursor);
    }
  }

  lemma CursorTransitive(a: Option<Cursor>, b: Option<Cursor>, c: Option<Cursor>)
    requires CursorAtMost(a, b) && CursorAtMost(b, c)
    ensures CursorAtMost(a, c)
  {
    if a.Some? && Less(Rank(c.value), Rank(a.value)) {
      LessTotal(Rank(b.value), Rank(c.value));
      if Less(Rank(b.value), Rank(c.value)) {
        LessTransitive(Rank(b.value), Rank(c.value), Rank(a.value));
      }
    }
  }

  /** A superseded generation, or one already acknowledged, can never acknowledge again. */
  lemma FencedForever(states: seq<Env>, steps: seq<Step>, name: Text, i: nat, j: nat, worker: Text, generation: nat,
      through: Cursor)
    requires IsHistory(states, steps) && i <= j < |states|
    requires generation < ConsumerOf(states[i], name).generation
             || (generation == ConsumerOf(states[i], name).generation && ConsumerOf(states[i], name).owner.None?)
    ensures AckOutbox(states[j], name, worker, generation, through).Err?
  {
    ConsumerMovesForward(states, steps, name, i, j);
  }
}
