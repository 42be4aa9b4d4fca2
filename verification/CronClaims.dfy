/** What claims and completions do to the rows of the repository, and where every active row comes from. */
module CronClaims {

  import opened Order
  import opened Values
  import opened Encoding
  import opened Cron
  import opened CronRepository
  import opened CronHistory
  import opened CronEffects

  // ---------------------------------------------------------------- claims

  /** The next tick has come and no lease is running. */
  predicate Free(a: Activation, now: int) {
    a.nextTick <= now && (a.owner.Some? ==> a.until.Some? && a.until.value <= now)
  }

  ghost predicate SameEpoch(a: Activation, b: Activation) {
    && b.revision == a.revision && b.code == a.code && b.releaseId == a.releaseId
    && b.schedule == a.schedule && b.target == a.target && b.args == a.args
  }

  /** Leased to the worker under a new generation; tick and definition are as they were. */
  ghost predicate TakenBy(before: Activation, after: Activation, worker: Text, until: int) {
    && SameEpoch(before, after) && after.nextTick == before.nextTick
    && after.generation == before.generation + 1 && after.owner == Some(worker) && after.until == Some(until)
  }

  predicate Earlier(a: Activation, name: CronName, b: Activation, other: CronName) {
    a.nextTick < b.nextTick || (a.nextTick == b.nextTick && Less(name, other))
  }

  /** Every claim is a free row now taken by the worker. */
  ghost predicate TakesFree(
      repo: Repo, after: Repo, claims: seq<Claimed>, worker: Text, now: int, until: int)
  {
    forall c :: c in claims ==>
      && c.name in repo.activations && Free(repo.activations[c.name], now)
      && TakenBy(repo.activations[c.name], c.activation, worker, until)
      && c.name in after.activations && after.activations[c.name] == c.activation
  }

  /** Every other row is as it was; when it was free, the claim is full of earlier rows. */
  ghost predicate LeavesOthers(repo: Repo, after: Repo, claims: seq<Claimed>, now: int, limit: nat) {
    forall name :: name in repo.activations && (forall c :: c in claims ==> c.name != name) ==>
      && name in after.activations && after.activations[name] == repo.activations[name]
      && (Free(repo.activations[name], now) ==>
            && |claims| == limit
            && forall c :: c in claims ==> Earlier(c.activation, c.name, repo.activations[name], name))
  }

  lemma RankIsEarlier(a: Activation, name: CronName, b: Activation, other: CronName)
    ensures Less(RankOf(name, a), RankOf(other, b)) <==> Earlier(a, name, b, other)
  {
    assert RankOf(name, a)[1..] == name && RankOf(other, b)[1..] == other;
  }

  lemma ClaimLeavesOthers(repo: Repo, worker: Text, now: I64, until: I64, limit: nat)
    requires ClaimDue(repo, worker, now, until, limit).Ok?
    ensures var r := ClaimDue(repo, worker, now, until, limit).value;
      LeavesOthers(repo, r.repo, r.value, now, limit)
  {
    var r := ClaimDue(repo, worker, now, until, limit).value;
    var names := DueNames(repo.activations, now, limit);
    ClaimedRows(repo.activations, names, worker, now, until);
    forall name | name in repo.activations && (forall c :: c in r.value ==> c.name != name)
      ensures name in r.repo.activations && r.repo.activations[name] == repo.activations[name]
      ensures Free(repo.activations[name], now) ==>
        |r.value| == limit
        && forall c :: c in r.value ==> Earlier(c.activation, c.name, repo.activations[name], name)
    {
      if Free(repo.activations[name], now) {
        ClaimTakesEarliest(repo, worker, now, until, limit, name);
        forall c | c in r.value ensures Earlier(c.activation, c.name, repo.activations[name], name) {
          RankIsEarlier(c.activation, c.name, repo.activations[name], name);
        }
      }
    }
  }

  lemma ClaimTakesFree(repo: Repo, worker: Text, now: I64, until: I64, limit: nat)
    requires ClaimDue(repo, worker, now, until, limit).Ok?
    ensures var r := ClaimDue(repo, worker, now, until, limit).value;
      TakesFree(repo, r.repo, r.value, worker, now, until)
  {
    ClaimedRows(repo.activations, DueNames(repo.activations, now, limit), worker, now, until);
  }

  /** Claims come in the order of their ticks, then of their names, each row once and no more than asked for. */
  lemma ClaimsAreOrdered(repo: Repo, worker: Text, now: I64, until: I64, limit: nat)
    requires ClaimDue(repo, worker, now, until, limit).Ok?
    ensures var claims := ClaimDue(repo, worker, now, until, limit).value.value;
      |claims| <= limit
      && forall i, j :: 0 <= i < j < |claims| ==>
           Earlier(claims[i].activation, claims[i].name, claims[j].activation, claims[j].name)
  {
    var claims := ClaimDue(repo, worker, now, until, limit).value.value;
    var names := DueNames(repo.activations, now, limit);
    DueNamesAre(repo.activations, now, limit);
    FirstIsOrdered(DueRanks(repo.activations, now), limit);
    ClaimsAll(repo.activations, names, worker, now, until);
    ClaimedRows(repo.activations, names, worker, now, until);
    forall i, j | 0 <= i < j < |claims|
      ensures Earlier(claims[i].activation, claims[i].name, claims[j].activation, claims[j].name)
    {
      assert claims[i] in claims && claims[j] in claims;
      RankIsEarlier(claims[i].activation, claims[i].name, claims[j].activation, claims[j].name);
    }
  }

  /** A claim is refused exactly for its arguments; otherwise it takes the earliest free rows and no others. */
  lemma ClaimMeans(repo: Repo, worker: Text, now: I64, until: I64, limit: nat)
    ensures var r := ClaimDue(repo, worker, now, until, limit);
      if now < 0 || until <= now || limit == 0 || limit > 1_000 then r == Err(InvalidInput)
      else
        && r.Ok? && r.value.repo == repo.(activations := r.value.repo.activations)
        && r.value.repo.activations.Keys == repo.activations.Keys
        && TakesFree(repo, r.value.repo, r.value.value, worker, now, until)
        && LeavesOthers(repo, r.value.repo, r.value.value, now, limit)
  {
    var r := ClaimDue(repo, worker, now, until, limit);
    if r.Ok? {
      ClaimTakesFree(repo, worker, now, until, limit);
      ClaimLeavesOthers(repo, worker, now, until, limit);
      ClaimedRows(repo.activations, DueNames(repo.activations, now, limit), worker, now, until);
    }
  }

  // ---------------------------------------------------------------- completions

  /** The worker holds the row under this generation, at this tick. */
  predicate HeldBy(repo: Repo, name: CronName, worker: Text, generation: nat, tick: int) {
    && name in repo.activations && repo.activations[name].owner == Some(worker)
    && repo.activations[name].generation == generation && repo.activations[name].nextTick == tick
  }

  /** Exactly the holder moves the row on; its lease ends and every other row is as it was. */
  lemma CompletionMeans(
      repo: Repo, name: CronName, worker: Text, generation: nat, expected: I64, next: I64, at: I64)
    ensures var r := CompleteTick(repo, name, worker, generation, expected, next, at);
      && (r.Ok? <==>
            && 0 < generation < REVISION_LIMIT && 0 <= expected < next && 0 <= at
            && HeldBy(repo, name, worker, generation, expected))
      && (r.Ok? ==>
            && r.value == repo.(activations := r.value.activations)
            && r.value.activations.Keys == repo.activations.Keys
            && SameEpoch(repo.activations[name], r.value.activations[name])
            && r.value.activations[name].nextTick == next && r.value.activations[name].generation == generation
            && r.value.activations[name].owner.None? && r.value.activations[name].until.None?
            && forall other :: other in repo.activations && other != name ==>
                 r.value.activations[other] == repo.activations[other])
  {
  }

  // ---------------------------------------------------------------- where rows come from

  /** The manifest is the one the command carries, of this project, and the pinned Release is its own. */
  ghost predicate Permitted(context: Context, c: Command, m: Manifest) {
    && !c.DeactivateAll? && context.decode(c.manifest) == Some(m)
    && m.project == context.scope.project
    && (c.code.Release? ==> c.code.id == m.releaseId)
  }

  /** A command passes the checks exactly when it comes with a fitting manifest, or needs none. */
  lemma ValidationMeans(context: Context, c: Command)
    ensures var r := Validate(context, c);
      if c.DeactivateAll? then (r == Ok(None) <==> c.at >= 0) && (r.Err? <==> c.at < 0)
      else
        && (r.Ok? ==> r.value.Some? && Permitted(context, c, r.value.value))
        && (r.Ok? <==>
              && c.at >= 0
              && exists m :: Permitted(context, c, m)
                   && (c.ActivateManifest? ==> m.definitions != []) && (c.SetDefinition? ==> Declares(m, c.name)))
  {
  }

  /** The row is an epoch of a definition that the command's manifest declares under that name. */
  ghost predicate ComesFrom(context: Context, step: Step, a: Activation, name: CronName) {
    && step.ApplyStep? && step.manifest.Some? && Permitted(context, step.command, step.manifest.value)
    && a.revision == step.command.expected + 1
    && a.code == step.command.code && a.releaseId == step.manifest.value.releaseId
    && exists i :: 0 <= i < |step.manifest.value.definitions|
         && IsDefinedBy(a, name, step.manifest.value.definitions[i])
  }

  ghost predicate IsDefinedBy(a: Activation, name: CronName, d: Definition) {
    d.name == name && a.schedule == d.schedule && a.target == d.target && a.args == d.args
  }

  lemma SameOrigin(context: Context, step: Step, a: Activation, b: Activation, name: CronName)
    requires ComesFrom(context, step, a, name) && SameEpoch(a, b)
    ensures ComesFrom(context, step, b, name)
  {
    var i :| 0 <= i < |step.manifest.value.definitions| && IsDefinedBy(a, name, step.manifest.value.definitions[i]);
    assert IsDefinedBy(b, name, step.manifest.value.definitions[i]);
  }

  /** Claims and completions keep rows and their epochs. */
  lemma StepKeepsEpoch(repo: Repo, step: Step, name: CronName)
    requires !step.ApplyStep? && name in Next(repo, step).activations
    ensures name in repo.activations && SameEpoch(repo.activations[name], Next(repo, step).activations[name])
  {
    if step.ClaimStep? && step.now < step.until {
      ClaimedRows(repo.activations, step.names, step.worker, step.now, step.until);
    }
  }

  /** A command without effect changes nothing. */
  lemma Ineffective(context: Context, states: seq<Repo>, steps: seq<Step>, n: nat)
    requires IsRun(context, states, steps) && n < |steps| && steps[n].ApplyStep? && !TookEffect(states, steps, n)
    ensures states[n + 1] == states[n]
  {
    assert StepAt(states, steps, n);
    var step := steps[n];
    if step.operation !in states[n].operations {
      ApplyMeans(states[n], step.operation, step.command, step.manifest, step.digest);
    }
  }

  /** A row after an effective command is one it started, or one that was there. */
  lemma EffectiveRow(context: Context, repo: Repo, after: Repo, step: Step, name: CronName)
    requires step.ApplyStep? && Obeyed(repo, after, step.command, step.manifest)
    requires step.command.expected == repo.revision && Validate(context, step.command) == Ok(step.manifest)
    requires name in after.activations
    ensures ComesFrom(context, step, after.activations[name], name)
      || (name in repo.activations && after.activations[name] == repo.activations[name])
  {
    ValidationMeans(context, step.command);
    var a := after.activations[name];
    match step.command
    case DeactivateAll(_, _) =>
    case ActivateManifest(_, _, _, _) =>
      var ds := step.manifest.value.definitions;
      var i :| 0 <= i < |ds| && ds[i].name == name;
      assert IsDefinedBy(a, name, ds[i]);
    case SetDefinition(_, code, _, subject, enabled, at) =>
      if enabled && subject == name {
        var m := step.manifest.value;
        var i :| 0 <= i < |m.definitions| && m.definitions[i].name == name
          && Starts(a, m.definitions[i], after.revision, code, m.releaseId, at);
        assert IsDefinedBy(a, name, m.definitions[i]);
      }
  }

  /**
   Every active row of every run was started by a command that took effect: it pins the code of that
   command, which for a Release is the manifest's own, and runs what that manifest, of this project,
   declares under the name.
   */
  lemma {:induction false} RowsHaveOrigins(
      context: Context, states: seq<Repo>, steps: seq<Step>, k: nat, name: CronName) returns (n: nat)
    requires IsRun(context, states, steps) && states[0] == EmptyRepo && k < |states|
    requires name in states[k].activations
    ensures n < k && TookEffect(states, steps, n)
    ensures ComesFrom(context, steps[n], states[k].activations[name], name)
    decreases k
  {
    var last := k - 1;
    assert StepAt(states, steps, last) && ValidatedAt(context, steps, last);
    if steps[last].ApplyStep? {
      if TookEffect(states, steps, last) {
        EffectMeans(context, states, steps, last);
        EffectiveRow(context, states[last], states[k], steps[last], name);
        if ComesFrom(context, steps[last], states[k].activations[name], name) {
          n := last;
          return;
        }
      } else {
        Ineffective(context, states, steps, last);
      }
      n := RowsHaveOrigins(context, states, steps, last, name);
    } else {
      StepKeepsEpoch(states[last], steps[last], name);
      n := RowsHaveOrigins(context, states, steps, last, name);
      SameOrigin(context, steps[n], states[last].activations[name], states[k].activations[name], name);
    }
  }
}
