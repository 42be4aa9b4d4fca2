/** The activation repository as a state machine: commands, claims and completions of one Environment. */
module CronRepository {

  import opened Order
  import opened Values
  import opened Encoding
  import opened CronSchedule
  import opened Cron

  const MAX_CLAIM: nat := 1_000

  datatype Activation = Activation(
    revision: Revision, code: PinnedCode, releaseId: Ulid, schedule: Times, target: Sized, args: Sized,
    nextTick: I64, generation: nat, owner: Option<Text>, until: Option<int>)

  datatype CommandResult = CommandResult(revision: Revision, active: nat, replayed: bool)

  datatype CommandRow = CommandRow(digest: seq<int>, revision: Revision, active: nat)

  datatype Repo = Repo(
    revision: Revision, activations: map<CronName, Activation>, disabled: set<CronName>,
    operations: map<Text, CommandRow>)

  const EmptyRepo: Repo := Repo(0, map[], {}, map[])

  datatype Outcome<T> = Outcome(repo: Repo, value: T)

  // ---------------------------------------------------------------- commands

  /** A fresh epoch: the first tick is strictly later and nobody holds a lease. */
  function NewActivation(revision: Revision, code: PinnedCode, releaseId: Ulid, d: Definition, at: I64)
    : Option<Activation>
  {
    var first := d.schedule.next(at);
    if first.None? then None
    else Some(Activation(revision, code, releaseId, d.schedule, d.target, d.args, first.value, 0, None, None))
  }

  function Insert(
      activations: map<CronName, Activation>, revision: Revision, code: PinnedCode, releaseId: Ulid, d: Definition,
        at: I64)
    : Result<map<CronName, Activation>, CronError>
  {
    var activation := NewActivation(revision, code, releaseId, d, at);
    if activation.None? then Err(InvalidManifest)
    else if d.name in activations then Err(Unavailable)
    else Ok(activations[d.name := activation.value])
  }

  /** Inserts every definition that no operator disabled. */
  function InsertAll(
      disabled: set<CronName>, revision: Revision, code: PinnedCode, releaseId: Ulid, ds: seq<Definition>, at: I64)
    : Result<map<CronName, Activation>, CronError>
  {
    if ds == [] then Ok(map[])
    else
      var before := InsertAll(disabled, revision, code, releaseId, ds[..|ds| - 1], at);
      var last := ds[|ds| - 1];
      if before.Err? || last.name in disabled then before
      else Insert(before.value, revision, code, releaseId, last, at)
  }

  /** The declaration of a name. */
  function Find(ds: seq<Definition>, name: CronName): Option<Definition> {
    if ds == [] then None else if ds[0].name == name then Some(ds[0]) else Find(ds[1..], name)
  }

  /** The rows after a new command, under the next revision. */
  function Change(repo: Repo, c: Command, manifest: Option<Manifest>, revision: Revision): Result<Repo, CronError> {
    if c.DeactivateAll? then Ok(repo.(activations := map[]))
    else if manifest.None? then Err(Corruption)
    else if c.ActivateManifest? then
      var inserted := InsertAll(repo.disabled, revision, c.code, manifest.value.releaseId, manifest.value.definitions,
        c.at);
      if inserted.Err? then Err(inserted.error) else Ok(repo.(activations := inserted.value))
    else if c.enabled then
      var definition := Find(manifest.value.definitions, c.name);
      if definition.None? then Err(InvalidManifest)
      else
        var inserted := Insert(repo.activations - {c.name}, revision, c.code, manifest.value.releaseId,
          definition.value, c.at);
        if inserted.Err? then Err(inserted.error)
        else Ok(repo.(activations := inserted.value, disabled := repo.disabled - {c.name}))
    else Ok(repo.(activations := repo.activations - {c.name}, disabled := repo.disabled + {c.name}))
  }

  function ApplyValid(repo: Repo, operation: Text, c: Command, manifest: Option<Manifest>, digest: seq<int>)
    : Result<Outcome<CommandResult>, CronError>
  {
    if operation in repo.operations then
      var row := repo.operations[operation];
      if row.digest != digest then Err(Conflict)
      else Ok(Outcome(repo, CommandResult(row.revision, row.active, true)))
    else if repo.revision != c.expected then Err(Conflict)
    else if repo.revision + 1 >= REVISION_LIMIT then Err(LimitExceeded)
    else
      var changed := Change(repo, c, manifest, repo.revision + 1);
      if changed.Err? then Err(changed.error)
      else Ok(Outcome(Recorded(changed.value, operation, digest, repo.revision + 1),
                      CommandResult(repo.revision + 1, |changed.value.activations|, false)))
  }

  /** The rows of a command that took effect, with its revision and its journal row. */
  function Recorded(changed: Repo, operation: Text, digest: seq<int>, revision: Revision): Repo {
    var row := CommandRow(digest, revision, |changed.activations|);
    changed.(revision := revision, operations := changed.operations[operation := row])
  }

  /** An exact idempotent command, compared against the expected revision. */
  function Apply(repo: Repo, context: Context, operation: Text, c: Command): Result<Outcome<CommandResult>, CronError> {
    var manifest := Validate(context, c);
    if manifest.Err? then Err(manifest.error)
    else ApplyValid(repo, operation, c, manifest.value, CommandPreimage(context.scope, c))
  }

  // ---------------------------------------------------------------- claims and completions

  datatype Claimed = Claimed(name: CronName, activation: Activation)

  /** Due and not under a live lease. */
  predicate Claimable(a: Activation, now: int) {
    a.nextTick <= now && (a.owner.None? || (a.until.Some? && a.until.value <= now))
  }

  function Leased(a: Activation, worker: Text, until: int): Activation {
    a.(generation := a.generation + 1, owner := Some(worker), until := Some(until))
  }

  /** Leases the listed rows that are still claimable, one by one. */
  function ClaimRows(activations: map<CronName, Activation>, names: seq<CronName>, worker: Text, now: int, until: int)
    : (map<CronName, Activation>, seq<Claimed>)
  {
    if names == [] then (activations, [])
    else
      var before := ClaimRows(activations, names[..|names| - 1], worker, now, until);
      var name := names[|names| - 1];
      if name in before.0 && Claimable(before.0[name], now) then
        var leased := Leased(before.0[name], worker, until);
        (before.0[name := leased], before.1 + [Claimed(name, leased)])
      else before
  }

  /** Ticks first, then names. */
  function RankOf(name: CronName, a: Activation): Key {
    [a.nextTick] + name
  }

  function DueRanks(activations: map<CronName, Activation>, now: int): set<Key> {
    set name | name in activations && Claimable(activations[name], now) :: RankOf(name, activations[name])
  }

  /** The claimable names of least tick and name. */
  function DueNames(activations: map<CronName, Activation>, now: int, limit: nat): seq<CronName> {
    var ranks := First(DueRanks(activations, now), limit);
    seq(|ranks|, i requires 0 <= i < |ranks| => assert ranks[i] in ranks; RankName(activations, now, ranks[i]))
  }

  function RankName(activations: map<CronName, Activation>, now: int, rank: Key): CronName
    requires rank in DueRanks(activations, now)
  {
    var name :| name in activations && Claimable(activations[name], now) && rank == RankOf(name, activations[name]);
    assert rank[1..] == name;
    rank[1..]
  }

  function ClaimDue(repo: Repo, worker: Text, now: I64, until: I64, limit: nat)
    : Result<Outcome<seq<Claimed>>, CronError>
  {
    if now < 0 || until <= now || limit == 0 || limit > MAX_CLAIM then Err(InvalidInput)
    else
      var claimed := ClaimRows(repo.activations, DueNames(repo.activations, now, limit), worker, now, until);
      Ok(Outcome(repo.(activations := claimed.0), claimed.1))
  }

  /** The row is leased to this worker and generation and still at the expected tick. */
  predicate Holds(activations: map<CronName, Activation>, name: CronName, worker: Text, generation: nat, tick: int) {
    && name in activations && activations[name].owner == Some(worker)
    && activations[name].generation == generation && activations[name].nextTick == tick
  }

  function CompleteTick(repo: Repo, name: CronName, worker: Text, generation: nat, expected: I64, next: I64, at: I64)
    : Result<Repo, CronError>
  {
    if generation == 0 || expected < 0 || next <= expected || at < 0 then Err(InvalidInput)
    else if generation >= REVISION_LIMIT then Err(LimitExceeded)
    else if Holds(repo.activations, name, worker, generation, expected) then
      var moved := repo.activations[name].(nextTick := next, owner := None, until := None);
      Ok(repo.(activations := repo.activations[name := moved]))
    else Err(LeaseLost)
  }

  // ---------------------------------------------------------------- snapshots

  datatype Snapshot = Snapshot(revision: Revision, activations: seq<Claimed>, disabled: seq<CronName>)

  predicate ValidActivation(a: Activation) {
    && a.revision != 0 && a.nextTick >= 0
    && (a.owner.Some? <==> a.until.Some?)
    && (a.owner.Some? ==> a.generation != 0)
  }

  /** Strictly ordered names, valid rows no younger than the repository, and no row that is also disabled. */
  predicate ValidSnapshot(s: Snapshot) {
    && (forall i :: 0 <= i < |s.activations| ==>
          ValidActivation(s.activations[i].activation) && s.activations[i].activation.revision <= s.revision)
    && (forall i, j :: 0 <= i < j < |s.activations| ==> Less(s.activations[i].name, s.activations[j].name))
    && (forall i, j :: 0 <= i < j < |s.disabled| ==> Less(s.disabled[i], s.disabled[j]))
    && (forall i, j :: 0 <= i < |s.activations| && 0 <= j < |s.disabled| ==> s.activations[i].name != s.disabled[j])
  }

  method ValidateActivations(s: Snapshot) returns (ok: bool)
    ensures ok <==>
      && (forall i :: 0 <= i < |s.activations| ==>
            ValidActivation(s.activations[i].activation) && s.activations[i].activation.revision <= s.revision)
      && (forall i, j :: 0 <= i < j < |s.activations| ==> Less(s.activations[i].name, s.activations[j].name))
  {
    var previous: Option<CronName> := None;
    for i := 0 to |s.activations|
      invariant previous == if i == 0 then None else Some(s.activations[i - 1].name)
      invariant forall j :: 0 <= j < i ==>
        ValidActivation(s.activations[j].activation) && s.activations[j].activation.revision <= s.revision
      invariant forall j, k :: 0 <= j < k < i ==> Less(s.activations[j].name, s.activations[k].name)
    {
      var a := s.activations[i];
      if !ValidActivation(a.activation) || a.activation.revision > s.revision {
        return false;
      }
      if previous.Some? && !Less(previous.value, a.name) {
        return false;
      }
      forall j | 0 <= j < i ensures Less(s.activations[j].name, a.name) {
        if j < i - 1 {
          LessTransitive(s.activations[j].name, s.activations[i - 1].name, a.name);
        }
      }
      previous := Some(a.name);
    }
    ok := true;
  }

  method ValidateDisabled(s: Snapshot) returns (ok: bool)
    ensures ok <==>
      && (forall i, j :: 0 <= i < j < |s.disabled| ==> Less(s.disabled[i], s.disabled[j]))
      && (forall i, j :: 0 <= i < |s.activations| && 0 <= j < |s.disabled| ==> s.activations[i].name != s.disabled[j])
  {
    var previous: Option<CronName> := None;
    for j := 0 to |s.disabled|
      invariant previous == if j == 0 then None else Some(s.disabled[j - 1])
      invariant forall i, k :: 0 <= i < k < j ==> Less(s.disabled[i], s.disabled[k])
      invariant forall i, k :: 0 <= i < |s.activations| && 0 <= k < j ==> s.activations[i].name != s.disabled[k]
    {
      if previous.Some? && !Less(previous.value, s.disabled[j]) {
        return false;
      }
      for i := 0 to |s.activations|
        invariant forall k :: 0 <= k < i ==> s.activations[k].name != s.disabled[j]
      {
        if s.activations[i].name == s.disabled[j] {
          return false;
        }
      }
      forall i | 0 <= i < j ensures Less(s.disabled[i], s.disabled[j]) {
        if i < j - 1 {
          LessTransitive(s.disabled[i], s.disabled[j - 1], s.disabled[j]);
        }
      }
      previous := Some(s.disabled[j]);
    }
    ok := true;
  }

  /** The validation of a snapshot answers exactly whether it is valid. */
  method ValidateSnapshot(s: Snapshot) returns (ok: bool)
    ensures ok <==> ValidSnapshot(s)
  {
    ok := ValidateActivations(s);
    if ok {
      ok := ValidateDisabled(s);
    }
  }
}
