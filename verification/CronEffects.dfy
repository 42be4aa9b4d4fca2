/** What an activation command leaves in the repository, and what disabling a definition means over whole runs. */
module CronEffects {

  import opened Values
  import opened Encoding
  import opened Cron
  import opened CronRepository
  import opened CronHistory

  // ---------------------------------------------------------------- one command

  /** A row that starts an epoch of the definition at its first tick after `at`, leased to nobody. */
  ghost predicate Starts(a: Activation, d: Definition, revision: nat, code: PinnedCode, releaseId: Ulid, at: I64) {
    && a.revision == revision && a.code == code && a.releaseId == releaseId
    && a.schedule == d.schedule && a.target == d.target && a.args == d.args
    && d.schedule.next(at) == Some(a.nextTick)
    && a.generation == 0 && a.owner.None? && a.until.None?
  }

  /** Everything declared and not disabled starts anew, and nothing else is active. */
  ghost predicate Activated(repo: Repo, after: Repo, code: PinnedCode, m: Manifest, at: I64) {
    && after.disabled == repo.disabled
    && (forall name :: name in after.activations <==> Declares(m, name) && name !in repo.disabled)
    && (forall i :: 0 <= i < |m.definitions| && m.definitions[i].name !in repo.disabled ==>
          && m.definitions[i].name in after.activations
          && Starts(after.activations[m.definitions[i].name], m.definitions[i], after.revision, code, m.releaseId, at))
  }

  /** The definition starts anew and is no longer disabled; every other row is as it was. */
  ghost predicate Enabled(repo: Repo, after: Repo, code: PinnedCode, m: Manifest, name: CronName, at: I64) {
    && after.disabled == repo.disabled - {name}
    && name in after.activations
    && (exists i :: 0 <= i < |m.definitions| && m.definitions[i].name == name
          && Starts(after.activations[name], m.definitions[i], after.revision, code, m.releaseId, at))
    && (forall other :: other != name ==>
          (other in after.activations <==> other in repo.activations)
          && (other in repo.activations ==> after.activations[other] == repo.activations[other]))
  }

  /** The definition is disabled and inactive; every other row is as it was. */
  ghost predicate Disabled(repo: Repo, after: Repo, name: CronName) {
    && after.disabled == repo.disabled + {name}
    && name !in after.activations
    && (forall other :: other != name ==>
          (other in after.activations <==> other in repo.activations)
          && (other in repo.activations ==> after.activations[other] == repo.activations[other]))
  }

  /** What the command says. */
  ghost predicate Obeyed(repo: Repo, after: Repo, c: Command, manifest: Option<Manifest>) {
    && after.revision == repo.revision + 1
    && match c
       case DeactivateAll(_, _) => after.activations == map[] && after.disabled == repo.disabled
       case ActivateManifest(_, code, _, at) => manifest.Some? && Activated(repo, after, code, manifest.value, at)
       case SetDefinition(_, code, _, name, enabled, at) =>
         if enabled then manifest.Some? && Enabled(repo, after, code, manifest.value, name, at)
         else Disabled(repo, after, name)
  }

  /** Exactly when a new command takes effect. */
  ghost predicate Acceptable(repo: Repo, c: Command, manifest: Option<Manifest>) {
    c.expected == repo.revision && repo.revision + 1 < REVISION_LIMIT && Possible(repo, c, manifest)
  }

  ghost predicate Possible(repo: Repo, c: Command, manifest: Option<Manifest>) {
    match c
    case DeactivateAll(_, _) => true
    case ActivateManifest(_, _, _, at) =>
      && manifest.Some?
      && forall i :: 0 <= i < |manifest.value.definitions| ==>
           var d := manifest.value.definitions[i]; d.name in repo.disabled || d.schedule.next(at).Some?
    case SetDefinition(_, _, _, name, enabled, at) =>
      manifest.Some? && (enabled ==> Startable(manifest.value, name, at))
  }

  /** The name is declared and its schedule ticks after `at`. */
  ghost predicate Startable(m: Manifest, name: CronName, at: I64) {
    exists i :: 0 <= i < |m.definitions| && m.definitions[i].name == name && m.definitions[i].schedule.next(at).Some?
  }

  lemma ActivationMeans(repo: Repo, revision: Revision, code: PinnedCode, m: Manifest, at: I64)
    ensures var r := InsertAll(repo.disabled, revision, code, m.releaseId, m.definitions, at);
      && (r.Ok? <==> forall i :: 0 <= i < |m.definitions| ==>
            m.definitions[i].name in repo.disabled || m.definitions[i].schedule.next(at).Some?)
      && (r.Ok? ==> Activated(repo, repo.(revision := revision, activations := r.value), code, m, at))
  {
    DistinctNames(m);
    InsertAllIsExact(repo.disabled, revision, code, m.releaseId, m.definitions, at);
    var r := InsertAll(repo.disabled, revision, code, m.releaseId, m.definitions, at);
    if r.Ok? {
      forall i | 0 <= i < |m.definitions| && m.definitions[i].name !in repo.disabled
        ensures m.definitions[i].name in r.value
        ensures Starts(r.value[m.definitions[i].name], m.definitions[i], revision, code, m.releaseId, at)
      {
        assert m.definitions[i].name in Names(m.definitions);
        assert Make(revision, code, m.releaseId, at)(m.definitions[i]) == Some(r.value[m.definitions[i].name]);
      }
    }
  }

  lemma EnablingMeans(repo: Repo, revision: Revision, code: PinnedCode, m: Manifest, name: CronName, at: I64)
    ensures var d := Find(m.definitions, name);
      && (Startable(m, name, at) ==> d.Some?)
      && (d.Some? ==>
            var r := Insert(repo.activations - {name}, revision, code, m.releaseId, d.value, at);
            && (r.Ok? <==> Startable(m, name, at))
            && (r.Ok? ==>
                  var after := repo.(revision := revision, activations := r.value, disabled := repo.disabled - {name});
                  Enabled(repo, after, code, m, name, at)))
  {
    DistinctNames(m);
    FindFinds(m.definitions, name);
    var d := Find(m.definitions, name);
    if d.Some? {
      var i :| 0 <= i < |m.definitions| && m.definitions[i] == d.value;
      assert forall j :: 0 <= j < |m.definitions| && m.definitions[j].name == name ==> j == i;
      InsertRow(repo.activations - {name}, revision, code, m.releaseId, d.value, at);
    }
  }

  lemma ChangeMeans(repo: Repo, c: Command, manifest: Option<Manifest>, revision: Revision)
    requires revision == repo.revision + 1
    ensures var r := Change(repo, c, manifest, revision);
      && (r.Ok? <==> Possible(repo, c, manifest))
      && (r.Ok? ==> r.value.operations == repo.operations && Obeyed(repo, r.value.(revision := revision), c, manifest))
  {
    if manifest.Some? {
      match c
      case DeactivateAll(_, _) =>
      case ActivateManifest(_, code, _, at) => ActivationMeans(repo, revision, code, manifest.value, at);
      case SetDefinition(_, code, _, name, enabled, at) =>
        if enabled {
          EnablingMeans(repo, revision, code, manifest.value, name, at);
        }
    }
  }

  /** Only rows, disabled names and revision matter. */
  lemma ObeyedSame(repo: Repo, a: Repo, b: Repo, c: Command, manifest: Option<Manifest>)
    requires Obeyed(repo, a, c, manifest)
    requires b.revision == a.revision && b.activations == a.activations && b.disabled == a.disabled
    ensures Obeyed(repo, b, c, manifest)
  {
  }

  /** The command was journaled with what its caller is told. */
  predicate Journaled(repo: Repo, after: Repo, operation: Text, digest: seq<int>, result: CommandResult) {
    && result.revision == repo.revision + 1 && result.active == |after.activations| && !result.replayed
    && after.operations == repo.operations[operation := CommandRow(digest, result.revision, result.active)]
  }

  lemma ApplyMeans(repo: Repo, operation: Text, c: Command, manifest: Option<Manifest>, digest: seq<int>)
    requires operation !in repo.operations
    ensures var r := ApplyValid(repo, operation, c, manifest, digest);
      && (r.Ok? <==>
            && c.expected == repo.revision && repo.revision + 1 < REVISION_LIMIT
            && Change(repo, c, manifest, repo.revision + 1).Ok?)
      && (r.Ok? ==>
            var changed := Change(repo, c, manifest, repo.revision + 1).value;
            r.value.repo == Recorded(changed, operation, digest, repo.revision + 1)
            && r.value.value == CommandResult(repo.revision + 1, |changed.activations|, false))
  {
  }

  /** A new command takes effect exactly when it is acceptable, and then does what it says and no more. */
  lemma CommandMeans(repo: Repo, operation: Text, c: Command, manifest: Option<Manifest>, digest: seq<int>)
    requires operation !in repo.operations
    ensures var r := ApplyValid(repo, operation, c, manifest, digest);
      && (r.Ok? <==> Acceptable(repo, c, manifest))
      && (r.Ok? ==> Obeyed(repo, r.value.repo, c, manifest))
      && (r.Ok? ==> Journaled(repo, r.value.repo, operation, digest, r.value.value))
  {
    ApplyMeans(repo, operation, c, manifest, digest);
    if repo.revision + 1 < REVISION_LIMIT {
      ChangeMeans(repo, c, manifest, repo.revision + 1);
      var r := ApplyValid(repo, operation, c, manifest, digest);
      if r.Ok? {
        var changed := Change(repo, c, manifest, repo.revision + 1).value;
        ObeyedSame(repo, changed.(revision := repo.revision + 1), r.value.repo, c, manifest);
      }
    }
  }

  // ---------------------------------------------------------------- whole runs

  /** Step `n` is a new command that took effect. */
  ghost predicate TookEffect(states: seq<Repo>, steps: seq<Step>, n: nat)
    requires |states| == |steps| + 1 && n < |steps|
  {
    && steps[n].ApplyStep? && steps[n].operation !in states[n].operations
    && steps[n].operation in states[n + 1].operations
  }

  /** It did what it says. */
  lemma EffectMeans(context: Context, states: seq<Repo>, steps: seq<Step>, n: nat)
    requires IsRun(context, states, steps) && n < |steps| && TookEffect(states, steps, n)
    ensures Obeyed(states[n], states[n + 1], steps[n].command, steps[n].manifest)
    ensures steps[n].command.expected == states[n].revision
  {
    assert StepAt(states, steps, n);
    CommandMeans(states[n], steps[n].operation, steps[n].command, steps[n].manifest, steps[n].digest);
  }

  /** A definition that an operator disables is inactive from then on, whatever is activated, until it is enabled. */
  lemma DisablingLasts(context: Context, states: seq<Repo>, steps: seq<Step>, n: nat, k: nat, name: CronName)
    requires IsRun(context, states, steps) && states[0] == EmptyRepo && n < k <= |steps| && TookEffect(states, steps, n)
    requires steps[n].command.SetDefinition? && steps[n].command.name == name && !steps[n].command.enabled
    requires forall j :: n < j < k ==> !Enables(steps[j], name)
    ensures name !in states[k].activations
  {
    EffectMeans(context, states, steps, n);
    DisabledStaysInactive(context, states, steps, n + 1, k, name);
  }

  /** Enabling it again makes it active at once and leaves every other row as it was. */
  lemma EnablingActivates(context: Context, states: seq<Repo>, steps: seq<Step>, n: nat, name: CronName)
    requires IsRun(context, states, steps) && n < |steps| && TookEffect(states, steps, n) && Enables(steps[n], name)
    ensures name in states[n + 1].activations && name !in states[n + 1].disabled
    ensures forall other :: other in states[n].activations && other != name ==>
      other in states[n + 1].activations && states[n + 1].activations[other] == states[n].activations[other]
  {
    EffectMeans(context, states, steps, n);
  }
}
