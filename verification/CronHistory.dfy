/** The activation repository over whole histories: valid snapshots, durable disabling, exact replay. */
module CronHistory {

  import opened Order
  import opened Values
  import opened Encoding
  import opened CronSchedule
  import opened Cron
  import opened CronRepository

  // ---------------------------------------------------------------- what commands insert

  /** How a command makes a row from a definition. */
  function Make(revision: Revision, code: PinnedCode, releaseId: Ulid, at: I64): Definition -> Option<Activation> {
    d => NewActivation(revision, code, releaseId, d, at)
  }

  function Names(ds: seq<Definition>): set<CronName> {
    set i | 0 <= i < |ds| :: ds[i].name
  }

  ghost predicate Distinct(ds: seq<Definition>) {
    forall i, j :: 0 <= i < j < |ds| ==> ds[i].name != ds[j].name
  }

  /** The rows are exactly the declared definitions that are not disabled. */
  ghost predicate Exactly(
    rows: map<CronName, Activation>, disabled: set<CronName>, make: Definition -> Option<Activation>,
      ds: seq<Definition>)
  {
    && rows.Keys == Names(ds) - disabled
    && (forall i :: 0 <= i < |ds| && ds[i].name in rows ==> make(ds[i]) == Some(rows[ds[i].name]))
  }

  lemma NamesSnoc(ds: seq<Definition>, last: Definition)
    ensures Names(ds + [last]) == Names(ds) + {last.name}
  {
    var all := ds + [last];
    assert forall i :: 0 <= i < |ds| ==> all[i] == ds[i];
    assert all[|ds|] == last;
  }

  lemma ExactlySnoc(
    rows: map<CronName, Activation>, after: map<CronName, Activation>, disabled: set<CronName>,
      make: Definition -> Option<Activation>,
    ds: seq<Definition>, last: Definition)
    requires Exactly(rows, disabled, make, ds)
    requires last.name !in Names(ds)
    requires if last.name in disabled then after == rows else IsInsert(rows, after, make, last)
    ensures Exactly(after, disabled, make, ds + [last])
  {
    NamesSnoc(ds, last);
    forall i | 0 <= i < |ds| ensures ds[i].name != last.name {
      assert ds[i].name in Names(ds);
    }
  }

  /** Activating a manifest yields exactly its rows; it fails only for a schedule without a next tick. */
  lemma {:induction false} InsertAllIsExact(
    disabled: set<CronName>, revision: Revision, code: PinnedCode, releaseId: Ulid, ds: seq<Definition>, at: I64)
    requires Distinct(ds)
    ensures var r := InsertAll(disabled, revision, code, releaseId, ds, at);
      if r.Ok? then Exactly(r.value, disabled, Make(revision, code, releaseId, at), ds)
      else
        && r.error == InvalidManifest
        && exists i :: 0 <= i < |ds| && ds[i].name !in disabled && ds[i].schedule.next(at).None?
  {
    if ds != [] {
      var before, last := ds[..|ds| - 1], ds[|ds| - 1];
      assert ds == before + [last];
      assert last.name !in Names(before);
      InsertAllIsExact(disabled, revision, code, releaseId, before, at);
      var rows := InsertAll(disabled, revision, code, releaseId, before, at);
      if rows.Ok? {
        if last.name !in disabled {
          InsertRow(rows.value, revision, code, releaseId, last, at);
        }
        var r := InsertAll(disabled, revision, code, releaseId, ds, at);
        if r.Ok? {
          ExactlySnoc(rows.value, r.value, disabled, Make(revision, code, releaseId, at), before, last);
        }
      } else {
        var i :| 0 <= i < |before| && before[i].name !in disabled && before[i].schedule.next(at).None?;
        assert before[i] == ds[i];
      }
    }
  }

  /** One row made from a definition is added. */
  ghost predicate IsInsert(
    activations: map<CronName, Activation>, after: map<CronName, Activation>, make: Definition -> Option<Activation>,
      d: Definition)
  {
    && after.Keys == activations.Keys + {d.name} && make(d) == Some(after[d.name])
    && forall name :: name in activations && name != d.name ==> after[name] == activations[name]
  }

  lemma InsertRow(activations: map<CronName, Activation>, revision: Revision, code: PinnedCode, releaseId: Ulid,
      d: Definition, at: I64)
    requires d.name !in activations
    ensures var r := Insert(activations, revision, code, releaseId, d, at);
      if d.schedule.next(at).None? then r == Err(InvalidManifest)
      else r.Ok? && IsInsert(activations, r.value, Make(revision, code, releaseId, at), d)
  {
  }

  lemma DistinctNames(m: Manifest)
    ensures Distinct(m.definitions)
  {
    forall i, j | 0 <= i < j < |m.definitions| ensures m.definitions[i].name != m.definitions[j].name {
      LessAsymmetric(m.definitions[i].name, m.definitions[j].name);
    }
  }

  lemma {:induction false} FindFinds(ds: seq<Definition>, name: CronName)
    ensures var d := Find(ds, name);
      if d.Some? then d.value in ds && d.value.name == name else forall i :: 0 <= i < |ds| ==> ds[i].name != name
  {
    if ds != [] {
      FindFinds(ds[1..], name);
      assert forall i :: 1 <= i < |ds| ==> ds[i] == ds[1..][i - 1];
    }
  }

  /** What a new command may leave in a row: an old row kept, or a row made under the new revision. */
  ghost predicate Fresh(a: Activation, revision: Revision) {
    a.revision == revision && a.nextTick >= 0 && a.owner.None? && a.until.None? && a.generation == 0
  }

  lemma MadeIsFresh(a: Activation, revision: Revision, code: PinnedCode, releaseId: Ulid, d: Definition, at: I64)
    requires Make(revision, code, releaseId, at)(d) == Some(a) && at >= 0 && ValidTimes(d.schedule)
    ensures Fresh(a, revision) && a.code == code && a.target == d.target && a.args == d.args
    ensures a.schedule == d.schedule && a.schedule.occurs(a.nextTick)
  {
    assert IsNext(d.schedule, at, a.nextTick);
  }

  ghost predicate FreshRow(a: Activation, revision: Revision) {
    Fresh(a, revision) && ValidTimes(a.schedule) && a.schedule.occurs(a.nextTick) && |a.args| <= MAX_ARGS_BYTES
  }

  /** Every row is made under the new revision or is an old row kept. */
  ghost predicate RowsFrom(activations: map<CronName, Activation>, after: map<CronName, Activation>,
      revision: Revision) {
    forall name :: name in after ==>
      (FreshRow(after[name], revision) && ValidName(name)) || (name in activations && after[name] == activations[name])
  }

  lemma ChangedRows(repo: Repo, c: Command, manifest: Option<Manifest>, revision: Revision)
    requires c.at >= 0 && Change(repo, c, manifest, revision).Ok?
    ensures var after := Change(repo, c, manifest, revision).value;
      && RowsFrom(repo.activations, after.activations, revision)
      && (repo.activations.Keys !! repo.disabled ==> after.activations.Keys !! after.disabled)
      && (forall name :: name in repo.disabled && !(c.SetDefinition? && c.name == name && c.enabled) ==>
        name in after.disabled)
  {
    match c
    case DeactivateAll(_, _) =>
    case ActivateManifest(_, code, _, at) =>
      var m := manifest.value;
      DistinctNames(m);
      InsertAllIsExact(repo.disabled, revision, code, m.releaseId, m.definitions, at);
      var rows := InsertAll(repo.disabled, revision, code, m.releaseId, m.definitions, at).value;
      forall name | name in rows ensures FreshRow(rows[name], revision) && ValidName(name) {
        var i :| 0 <= i < |m.definitions| && m.definitions[i].name == name;
        MadeIsFresh(rows[name], revision, code, m.releaseId, m.definitions[i], at);
      }
    case SetDefinition(_, code, _, name, enabled, at) =>
      if enabled {
        var m := manifest.value;
        FindFinds(m.definitions, name);
        var d := Find(m.definitions, name).value;
        InsertRow(repo.activations - {name}, revision, code, m.releaseId, d, at);
        var row := Insert(repo.activations - {name}, revision, code, m.releaseId, d, at).value[name];
        MadeIsFresh(row, revision, code, m.releaseId, d, at);
      }
  }

  // ---------------------------------------------------------------- steps and runs

  datatype Step =
    | ApplyStep(operation: Text, command: Command, manifest: Option<Manifest>, digest: seq<int>)
    | ClaimStep(names: seq<CronName>, worker: Text, now: I64, until: I64)
    | CompleteStep(name: CronName, worker: Text, generation: nat, expected: I64, next: I64, at: I64)

  /** Claims may list any names: concurrent transactions decide which are still claimable. */
  function Next(repo: Repo, step: Step): Repo {
    match step
    case ApplyStep(operation, command, manifest, digest) =>
      var r := ApplyValid(repo, operation, command, manifest, digest);
      if r.Ok? then r.value.repo else repo
    case ClaimStep(names, worker, now, until) =>
      if now < 0 || until <= now then repo
      else repo.(activations := ClaimRows(repo.activations, names, worker, now, until).0)
    case CompleteStep(name, worker, generation, expected, next, at) =>
      var r := CompleteTick(repo, name, worker, generation, expected, next, at);
      if r.Ok? then r.value else repo
  }

  ghost predicate StepAt(states: seq<Repo>, steps: seq<Step>, i: nat)
    requires |states| == |steps| + 1 && i < |steps|
  {
    states[i + 1] == Next(states[i], steps[i])
  }

  /** Only validated commands reach a transaction, each with its own digest. */
  ghost predicate ValidatedAt(context: Context, steps: seq<Step>, i: nat)
    requires i < |steps|
  {
    steps[i].ApplyStep? ==>
      && Validate(context, steps[i].command) == Ok(steps[i].manifest)
      && steps[i].digest == CommandPreimage(context.scope, steps[i].command)
  }

  ghost predicate IsRun(context: Context, states: seq<Repo>, steps: seq<Step>) {
    && |states| == |steps| + 1
    && (forall i :: 0 <= i < |steps| ==> StepAt(states, steps, i))
    && (forall i :: 0 <= i < |steps| ==> ValidatedAt(context, steps, i))
  }

  // ---------------------------------------------------------------- claims row by row

  /** A claim leases some claimable rows and leaves the others; what it returns are the leased rows, each once. */
  lemma {:induction false} ClaimedRows(activations: map<CronName, Activation>, names: seq<CronName>, worker: Text,
      now: int, until: int)
    requires until > now
    ensures var r := ClaimRows(activations, names, worker, now, until);
      && r.0.Keys == activations.Keys
      && (forall name :: name in activations ==>
            if name in names && Claimable(activations[name], now) then
              r.0[name] == Leased(activations[name], worker, until)
            else r.0[name] == activations[name])
      && (forall c :: c in r.1 ==>
            && c.name in names && c.name in activations && Claimable(activations[c.name], now)
            && c.activation == Leased(activations[c.name], worker, until))
      && (forall name :: name in names && name in activations && Claimable(activations[name], now) ==>
            Claimed(name, Leased(activations[name], worker, until)) in r.1)
      && (forall i, j :: 0 <= i < j < |r.1| ==> r.1[i].name != r.1[j].name)
  {
    if names != [] {
      var n := |names| - 1;
      ClaimedRows(activations, names[..n], worker, now, until);
      assert forall name :: name in names <==> name in names[..n] || name == names[n];
      var before := ClaimRows(activations, names[..n], worker, now, until);
      assert forall i :: 0 <= i < |before.1| ==> before.1[i] in before.1;
    }
  }

  lemma {:induction false} ClaimsAll(activations: map<CronName, Activation>, names: seq<CronName>, worker: Text,
      now: int, until: int)
    requires until > now
    requires forall i :: 0 <= i < |names| ==> names[i] in activations && Claimable(activations[names[i]], now)
    requires forall i, j :: 0 <= i < j < |names| ==> names[i] != names[j]
    ensures var claims := ClaimRows(activations, names, worker, now, until).1;
      |claims| == |names| && forall i :: 0 <= i < |names| ==> claims[i].name == names[i]
  {
    if names != [] {
      var n := |names| - 1;
      ClaimsAll(activations, names[..n], worker, now, until);
      ClaimedRows(activations, names[..n], worker, now, until);
      assert names[n] !in names[..n];
    }
  }

  lemma DueNamesAre(activations: map<CronName, Activation>, now: int, limit: nat)
    ensures var names := DueNames(activations, now, limit); var first := First(DueRanks(activations, now), limit);
      && |names| == |first|
      && (forall i :: 0 <= i < |names| ==>
            && names[i] in activations && Claimable(activations[names[i]], now)
            && first[i] == RankOf(names[i], activations[names[i]]))
      && (forall i, j :: 0 <= i < j < |names| ==> names[i] != names[j])
  {
    var ranks := DueRanks(activations, now);
    var first := First(ranks, limit);
    var names := DueNames(activations, now, limit);
    FirstIsOrdered(ranks, limit);
    forall i | 0 <= i < |names|
      ensures names[i] in activations && Claimable(activations[names[i]], now)
        && first[i] == RankOf(names[i], activations[names[i]])
    {
      assert first[i] in first;
      var name :| name in activations && Claimable(activations[name], now)
        && first[i] == RankOf(name, activations[name]);
      assert first[i][1..] == name;
    }
    forall i, j | 0 <= i < j < |names| ensures names[i] != names[j] {
      LessIrreflexive(first[i]);
    }
  }

  /** A claim takes the claimable rows of least tick and name, up to the limit. */
  lemma ClaimTakesEarliest(repo: Repo, worker: Text, now: I64, until: I64, limit: nat, name: CronName)
    requires ClaimDue(repo, worker, now, until, limit).Ok?
    requires name in repo.activations && Claimable(repo.activations[name], now)
    ensures var r := ClaimDue(repo, worker, now, until, limit).value;
      name in r.repo.activations &&
      if Claimed(name, Leased(repo.activations[name], worker, until)) in r.value
      then r.repo.activations[name] == Leased(repo.activations[name], worker, until)
      else
        && r.repo.activations[name] == repo.activations[name] && |r.value| == limit
        && forall c :: c in r.value ==> Less(RankOf(c.name, c.activation), RankOf(name, repo.activations[name]))
  {
    var names := DueNames(repo.activations, now, limit);
    var ranks := DueRanks(repo.activations, now);
    var first := First(ranks, limit);
    DueNamesAre(repo.activations, now, limit);
    ClaimsAll(repo.activations, names, worker, now, until);
    ClaimedRows(repo.activations, names, worker, now, until);
    if name !in names {
      var rank := RankOf(name, repo.activations[name]);
      assert rank in ranks;
      forall i | 0 <= i < |first| ensures first[i] != rank {
        assert first[i][1..] == names[i] && rank[1..] == name;
      }
      FirstIsOrdered(ranks, limit);
      FirstIsAll(ranks, limit);
      forall c | c in ClaimRows(repo.activations, names, worker, now, until).1
        ensures Less(RankOf(c.name, c.activation), rank)
      {
        var i :| 0 <= i < |names| && names[i] == c.name;
        assert first[i] in first;
      }
    }
  }

  // ---------------------------------------------------------------- valid snapshots

  ghost predicate ValidRepo(repo: Repo) {
    && (forall name :: name in repo.activations ==>
          ValidActivation(repo.activations[name]) && repo.activations[name].revision <= repo.revision)
    && repo.activations.Keys !! repo.disabled
  }

  lemma RowsKeepValid(repo: Repo, after: Repo)
    requires ValidRepo(repo) && after.revision == repo.revision + 1
    requires RowsFrom(repo.activations, after.activations, after.revision) && after.activations.Keys !! after.disabled
    ensures ValidRepo(after)
  {
  }

  /** A command that takes effect. */
  lemma TakesEffect(repo: Repo, operation: Text, c: Command, manifest: Option<Manifest>, digest: seq<int>)
    requires ApplyValid(repo, operation, c, manifest, digest).Ok? && operation !in repo.operations
    ensures repo.revision + 1 < REVISION_LIMIT
    ensures var changed := Change(repo, c, manifest, repo.revision + 1);
      var after := Next(repo, ApplyStep(operation, c, manifest, digest));
      && changed.Ok? && after.activations == changed.value.activations && after.disabled == changed.value.disabled
      && after.revision == repo.revision + 1
  {
  }

  lemma NoEffect(repo: Repo, operation: Text, c: Command, manifest: Option<Manifest>, digest: seq<int>)
    requires ApplyValid(repo, operation, c, manifest, digest).Err? || operation in repo.operations
    ensures Next(repo, ApplyStep(operation, c, manifest, digest)) == repo
  {
  }

  lemma Effect(repo: Repo, changed: Repo, after: Repo, c: Command, manifest: Option<Manifest>)
    requires ValidRepo(repo) && c.at >= 0 && repo.revision + 1 < REVISION_LIMIT
    requires Change(repo, c, manifest, repo.revision + 1) == Ok(changed)
    requires after.revision == repo.revision + 1 && after.activations == changed.activations
      && after.disabled == changed.disabled
    ensures ValidRepo(after) && RowsFrom(repo.activations, after.activations, after.revision)
  {
    ChangedRows(repo, c, manifest, repo.revision + 1);
    RowsKeepValid(repo, after);
  }

  /** A command changes nothing, or makes rows under the next revision. */
  lemma CommandEffect(repo: Repo, operation: Text, c: Command, manifest: Option<Manifest>, digest: seq<int>)
    requires ValidRepo(repo) && c.at >= 0
    ensures var after := Next(repo, ApplyStep(operation, c, manifest, digest));
      || after == repo
      || (after.revision == repo.revision + 1 && ValidRepo(after)
        && RowsFrom(repo.activations, after.activations, after.revision))
  {
    if ApplyValid(repo, operation, c, manifest, digest).Err? || operation in repo.operations {
      NoEffect(repo, operation, c, manifest, digest);
    } else {
      TakesEffect(repo, operation, c, manifest, digest);
      Effect(repo, Change(repo, c, manifest, repo.revision + 1).value,
        Next(repo, ApplyStep(operation, c, manifest, digest)), c, manifest);
    }
  }

  lemma StepKeepsValid(repo: Repo, step: Step)
    requires ValidRepo(repo) && (step.ApplyStep? ==> step.command.at >= 0)
    ensures ValidRepo(Next(repo, step))
  {
    match step
    case ApplyStep(operation, command, manifest, digest) => CommandEffect(repo, operation, command, manifest, digest);
    case ClaimStep(names, worker, now, until) =>
      if until > now {
        ClaimedRows(repo.activations, names, worker, now, until);
      }
    case CompleteStep(_, _, _, _, _, _) =>
  }

  lemma ValidStepAt(context: Context, states: seq<Repo>, steps: seq<Step>, n: nat)
    requires IsRun(context, states, steps) && n < |steps| && ValidRepo(states[n])
    ensures ValidRepo(states[n + 1])
  {
    assert StepAt(states, steps, n) && ValidatedAt(context, steps, n);
    StepKeepsValid(states[n], steps[n]);
  }

  lemma {:induction false} HistoryIsValid(context: Context, states: seq<Repo>, steps: seq<Step>, n: nat)
    requires IsRun(context, states, steps) && states[0] == EmptyRepo && n <= |steps|
    ensures ValidRepo(states[n])
  {
    if n > 0 {
      HistoryIsValid(context, states, steps, n - 1);
      ValidStepAt(context, states, steps, n - 1);
    }
  }

  /** Names in ascending order. */
  function Listed(names: set<CronName>): (listed: seq<CronName>)
    ensures StrictlyAscending(listed)
    ensures forall i :: 0 <= i < |listed| ==> listed[i] in names
  {
    var keys := Ascending(names);
    seq(|keys|, i requires 0 <= i < |keys| => assert keys[i] in keys; NameOf(names, keys[i]))
  }

  function NameOf(names: set<CronName>, key: Key): (name: CronName)
    requires key in names
    ensures name == key
  {
    var name: CronName :| name in names && name == key;
    name
  }

  /** What a snapshot transaction reads, ordered by name. */
  function SnapshotOf(repo: Repo): Snapshot {
    var names := Listed(repo.activations.Keys);
    Snapshot(
      repo.revision,
      seq(|names|, i requires 0 <= i < |names| => Claimed(names[i], repo.activations[names[i]])),
      Listed(repo.disabled))
  }

  lemma ValidRepoSnapshot(repo: Repo)
    requires ValidRepo(repo)
    ensures ValidSnapshot(SnapshotOf(repo))
  {
  }

  /** Every state reachable by commands, claims and completions passes snapshot validation. */
  lemma EverySnapshotIsValid(context: Context, states: seq<Repo>, steps: seq<Step>, n: nat)
    requires IsRun(context, states, steps) && states[0] == EmptyRepo && n <= |steps|
    ensures ValidSnapshot(SnapshotOf(states[n]))
  {
    HistoryIsValid(context, states, steps, n);
    ValidRepoSnapshot(states[n]);
  }

  // ---------------------------------------------------------------- disabled definitions

  predicate Enables(step: Step, name: CronName) {
    step.ApplyStep? && step.command.SetDefinition? && step.command.name == name && step.command.enabled
  }

  lemma StepKeepsDisabled(context: Context, states: seq<Repo>, steps: seq<Step>, n: nat, name: CronName)
    requires IsRun(context, states, steps) && n < |steps| && !Enables(steps[n], name)
    requires name in states[n].disabled
    ensures name in states[n + 1].disabled
  {
    assert StepAt(states, steps, n) && ValidatedAt(context, steps, n);
    var repo, step := states[n], steps[n];
    if step.ApplyStep? && ApplyValid(repo, step.operation, step.command, step.manifest, step.digest).Ok?
       && step.operation !in repo.operations {
      TakesEffect(repo, step.operation, step.command, step.manifest, step.digest);
      ChangedRows(repo, step.command, step.manifest, repo.revision + 1);
    }
  }

  /** A disabled definition stays inactive through every later activation until it is explicitly enabled. */
  lemma {:induction false} DisabledStaysInactive(context: Context, states: seq<Repo>, steps: seq<Step>, from: nat,
      to: nat, name: CronName)
    requires IsRun(context, states, steps) && states[0] == EmptyRepo && from <= to <= |steps|
    requires name in states[from].disabled
    requires forall k :: from <= k < to ==> !Enables(steps[k], name)
    ensures name in states[to].disabled && name !in states[to].activations
  {
    HistoryIsValid(context, states, steps, to);
    if from < to {
      DisabledStaysInactive(context, states, steps, from, to - 1, name);
      StepKeepsDisabled(context, states, steps, to - 1, name);
    }
  }

  // ---------------------------------------------------------------- exact replay

  lemma RowsStay(repo: Repo, step: Step, operation: Text)
    requires operation in repo.operations
    ensures operation in Next(repo, step).operations
      && Next(repo, step).operations[operation] == repo.operations[operation]
  {
  }

  lemma {:induction false} OperationsArePermanent(context: Context, states: seq<Repo>, steps: seq<Step>, from: nat,
      to: nat, operation: Text)
    requires IsRun(context, states, steps) && from <= to <= |steps| && operation in states[from].operations
    ensures operation in states[to].operations && states[to].operations[operation] == states[from].operations[operation]
  {
    if from < to {
      OperationsArePermanent(context, states, steps, from, to - 1, operation);
      assert StepAt(states, steps, to - 1);
      RowsStay(states[to - 1], steps[to - 1], operation);
    }
  }

  lemma AppliedRow(repo: Repo, operation: Text, c: Command, manifest: Option<Manifest>, digest: seq<int>)
    requires var r := ApplyValid(repo, operation, c, manifest, digest); r.Ok? && !r.value.value.replayed
    ensures var r := ApplyValid(repo, operation, c, manifest, digest).value;
      operation in r.repo.operations
        && r.repo.operations[operation] == CommandRow(digest, r.value.revision, r.value.active)
  {
  }

  lemma ReplayedRow(repo: Repo, operation: Text, c: Command, manifest: Option<Manifest>, digest: seq<int>)
    requires operation in repo.operations
    ensures var row := repo.operations[operation];
      ApplyValid(repo, operation, c, manifest, digest) ==
        if row.digest == digest then Ok(Outcome(repo, CommandResult(row.revision, row.active, true))) else Err(Conflict)
  {
  }

  /**
   After a command took effect, its operation id answers the same command with the same result and
   refuses any other.
   */
  lemma CommandReplayIsExact(context: Context, states: seq<Repo>, steps: seq<Step>, from: nat, to: nat, again: Command)
    requires IsRun(context, states, steps) && from < to <= |steps| && steps[from].ApplyStep?
    requires var s := steps[from];
      var r := ApplyValid(states[from], s.operation, s.command, s.manifest, s.digest); r.Ok? && !r.value.value.replayed
    requires Validate(context, again).Ok?
    ensures var s := steps[from];
      var first := ApplyValid(states[from], s.operation, s.command, s.manifest, s.digest).value.value;
      Apply(states[to], context, s.operation, again) ==
        if again == s.command then Ok(Outcome(states[to], first.(replayed := true))) else Err(Conflict)
  {
    var s := steps[from];
    assert StepAt(states, steps, from) && ValidatedAt(context, steps, from);
    AppliedRow(states[from], s.operation, s.command, s.manifest, s.digest);
    OperationsArePermanent(context, states, steps, from + 1, to, s.operation);
    var digest := CommandPreimage(context.scope, again);
    ReplayedRow(states[to], s.operation, again, Validate(context, again).value, digest);
    if digest == s.digest {
      CommandPreimageInjective(context.scope, again, s.command);
    }
  }
}
