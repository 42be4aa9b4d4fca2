/**
 The activation repository as it runs: transactions that delete, insert and update rows step by
 step and are rolled back when a statement fails. Every method is proved against `CronRepository`.
 */
module CronAdapter {

  import opened Values
  import opened Encoding
  import opened Cron
  import opened CronRepository
  import CronHistory

  lemma {:induction false} InsertAllFails(
    disabled: set<CronName>, revision: Revision, code: PinnedCode, releaseId: Ulid, ds: seq<Definition>, at: I64,
      i: nat)
    requires i <= |ds| && InsertAll(disabled, revision, code, releaseId, ds[..i], at).Err?
    ensures InsertAll(disabled, revision, code, releaseId, ds, at) ==
      InsertAll(disabled, revision, code, releaseId, ds[..i], at)
    decreases |ds|
  {
    if i < |ds| {
      assert ds[..|ds| - 1][..i] == ds[..i];
      InsertAllFails(disabled, revision, code, releaseId, ds[..|ds| - 1], at, i);
    } else {
      assert ds[..i] == ds;
    }
  }

  method FindDefinition(ds: seq<Definition>, name: CronName) returns (found: Option<Definition>)
    ensures found == Find(ds, name)
  {
    assert ds[0..] == ds;
    for i := 0 to |ds|
      invariant Find(ds, name) == Find(ds[i..], name)
    {
      if ds[i].name == name {
        return Some(ds[i]);
      }
      assert ds[i..][1..] == ds[i + 1..];
    }
    found := None;
  }

  class Repository {
    const context: Context
    var revision: Revision
    var activations: map<CronName, Activation>
    var disabled: set<CronName>
    var operations: map<Text, CommandRow>

    function State(): Repo
      reads this
    {
      Repo(revision, activations, disabled, operations)
    }

    constructor (context: Context)
      ensures State() == EmptyRepo && this.context == context
    {
      this.context := context;
      revision, activations, disabled, operations := 0, map[], {}, map[];
    }

    /** Restores the rows of `before`. */
    method Rollback(before: Repo)
      modifies this
      ensures State() == before
    {
      revision, activations, disabled, operations := before.revision, before.activations, before.disabled,
        before.operations;
    }

    method InsertActivation(next: Revision, code: PinnedCode, releaseId: Ulid, d: Definition, at: I64)
      returns (failure: Option<CronError>)
      modifies this`activations
      ensures var r := Insert(old(activations), next, code, releaseId, d, at);
              if r.Ok? then failure == None && activations == r.value
              else failure == Some(r.error) && activations == old(activations)
    {
      var tick := d.schedule.next(at);
      if tick.None? {
        return Some(InvalidManifest);
      }
      if d.name in activations {
        return Some(Unavailable);
      }
      activations := activations[d.name :=
        Activation(next, code, releaseId, d.schedule, d.target, d.args, tick.value, 0, None, None)];
      failure := None;
    }

    method ActivateAll(next: Revision, code: PinnedCode, releaseId: Ulid, ds: seq<Definition>, at: I64)
      returns (failure: Option<CronError>)
      modifies this`activations
      ensures var r := InsertAll(disabled, next, code, releaseId, ds, at);
              if r.Ok? then failure == None && activations == r.value else failure == Some(r.error)
    {
      activations := map[];
      for i := 0 to |ds|
        invariant InsertAll(disabled, next, code, releaseId, ds[..i], at) == Ok(activations)
      {
        assert ds[..i + 1][..i] == ds[..i];
        if ds[i].name !in disabled {
          failure := InsertActivation(next, code, releaseId, ds[i], at);
          if failure.Some? {
            InsertAllFails(disabled, next, code, releaseId, ds, at, i + 1);
            return;
          }
        }
      }
      assert ds[..|ds|] == ds;
      failure := None;
    }

    /** Changes the rows for a new command; the caller rolls back when it fails. */
    method ChangeRows(c: Command, manifest: Option<Manifest>, next: Revision) returns (failure: Option<CronError>)
      modifies this`activations, this`disabled
      ensures var r := Change(old(State()), c, manifest, next);
              if r.Ok? then failure == None && State() == r.value else failure == Some(r.error)
    {
      if c.DeactivateAll? {
        activations := map[];
        return None;
      }
      if manifest.None? {
        return Some(Corruption);
      }
      if c.ActivateManifest? {
        failure := ActivateAll(next, c.code, manifest.value.releaseId, manifest.value.definitions, c.at);
        return;
      }
      activations := activations - {c.name};
      if !c.enabled {
        disabled := disabled + {c.name};
        return None;
      }
      disabled := disabled - {c.name};
      var definition := FindDefinition(manifest.value.definitions, c.name);
      if definition.None? {
        return Some(InvalidManifest);
      }
      failure := InsertActivation(next, c.code, manifest.value.releaseId, definition.value, c.at);
    }

    /** Writes the new revision and the journal row. */
    method Record(operation: Text, digest: seq<int>, next: Revision)
      modifies this`revision, this`operations
      ensures State() == Recorded(old(State()), operation, digest, next)
    {
      revision := next;
      operations := operations[operation := CommandRow(digest, next, |activations|)];
    }

    /** Applies a command under the next revision; a failed one is rolled back. */
    method ApplyNew(operation: Text, c: Command, manifest: Option<Manifest>, digest: seq<int>, next: Revision)
        returns (failure: Option<CronError>)
      modifies this
      ensures var changed := Change(old(State()), c, manifest, next);
              if changed.Ok? then failure == None && State() == Recorded(changed.value, operation, digest, next)
              else failure == Some(changed.error) && State() == old(State())
    {
      var before := State();
      failure := ChangeRows(c, manifest, next);
      if failure.Some? {
        Rollback(before);
      } else {
        Record(operation, digest, next);
      }
    }

    /** One command transaction; a failed command changes nothing. */
    method ApplyInner(operation: Text, c: Command, manifest: Option<Manifest>, digest: seq<int>)
      returns (r: Result<CommandResult, CronError>)
      modifies this
      ensures var applied := ApplyValid(old(State()), operation, c, manifest, digest);
              if applied.Ok? then r == Ok(applied.value.value) && State() == applied.value.repo
              else r == Err(applied.error) && State() == old(State())
    {
      if operation in operations {
        var row := operations[operation];
        r := if row.digest != digest then Err(Conflict) else Ok(CommandResult(row.revision, row.active, true));
      } else if revision != c.expected {
        r := Err(Conflict);
      } else if revision + 1 >= REVISION_LIMIT {
        r := Err(LimitExceeded);
      } else {
        var failure := ApplyNew(operation, c, manifest, digest, revision + 1);
        r := if failure.Some? then Err(failure.value) else Ok(CommandResult(revision, |activations|, false));
      }
    }

    /** Applies a validated activation command exactly once per operation id. */
    method Apply(operation: Text, c: Command) returns (r: Result<CommandResult, CronError>)
      modifies this
      ensures var applied := CronRepository.Apply(old(State()), context, operation, c);
              if applied.Ok? then r == Ok(applied.value.value) && State() == applied.value.repo
              else r == Err(applied.error) && State() == old(State())
    {
      var manifest := Validate(context, c);
      if manifest.Err? {
        return Err(manifest.error);
      }
      r := ApplyInner(operation, c, manifest.value, CommandPreimage(context.scope, c));
    }

    /** Leases due activations in tick and name order. */
    method ClaimDue(worker: Text, now: I64, until: I64, limit: nat) returns (r: Result<seq<Claimed>, CronError>)
      modifies this`activations
      ensures var claimed := CronRepository.ClaimDue(old(State()), worker, now, until, limit);
              if claimed.Ok? then r == Ok(claimed.value.value) && State() == claimed.value.repo
              else r == Err(claimed.error) && State() == old(State())
    {
      if now < 0 || until <= now || limit == 0 || limit > MAX_CLAIM {
        return Err(InvalidInput);
      }
      var names := DueNames(activations, now, limit);
      var claimed: seq<Claimed> := [];
      for i := 0 to |names|
        invariant ClaimRows(old(activations), names[..i], worker, now, until) == (activations, claimed)
      {
        assert names[..i + 1][..i] == names[..i];
        var name := names[i];
        if name in activations && Claimable(activations[name], now) {
          activations := activations[name := Leased(activations[name], worker, until)];
          claimed := claimed + [Claimed(name, activations[name])];
        }
      }
      assert names[..|names|] == names;
      r := Ok(claimed);
    }

    /** Advances exactly one tick for the holder of the lease. */
    method CompleteTick(name: CronName, worker: Text, generation: nat, expected: I64, next: I64, at: I64)
      returns (failure: Option<CronError>)
      modifies this`activations
      ensures var completed := CronRepository.CompleteTick(old(State()), name, worker, generation, expected, next, at);
              if completed.Ok? then failure == None && State() == completed.value
              else failure == Some(completed.error) && State() == old(State())
    {
      if generation == 0 || expected < 0 || next <= expected || at < 0 {
        return Some(InvalidInput);
      }
      if generation >= REVISION_LIMIT {
        return Some(LimitExceeded);
      }
      if name !in activations || activations[name].owner != Some(worker) || activations[name].generation != generation
         || activations[name].nextTick != expected {
        return Some(LeaseLost);
      }
      activations := activations[name := activations[name].(nextTick := next, owner := None, until := None)];
      failure := None;
    }

    /** A coherent snapshot, refused when it is not valid. */
    method Snapshot() returns (r: Result<CronRepository.Snapshot, CronError>)
      ensures var snapshot := CronHistory.SnapshotOf(State());
              r == if ValidSnapshot(snapshot) then Ok(snapshot) else Err(Corruption)
    {
      var snapshot := CronHistory.SnapshotOf(State());
      var valid := ValidateSnapshot(snapshot);
      r := if valid then Ok(snapshot) else Err(Corruption);
    }
  }
}
