/** A run that loses a tick, whatever the schedule: two polls under one worker id with a re-activation in between. */
module CronCounterexample {

  import opened Values
  import opened Encoding
  import Store
  import opened CronSchedule
  import opened Cron
  import opened CronRepository
  import CronHistory
  import opened CronMachine
  import opened CronExactlyOnce
  import opened CronFences

  const FIRST: Text := [1]
  const SECOND: Text := [2]

  /**
   A manifest with one definition, its bytes and the digests of its two activations, the first two
   ticks after time zero, and the worker and lease of both polls.
   */
  datatype Case = Case(
    context: Context, bytes: seq<int>, digests: seq<seq<int>>, manifest: Manifest, definition: Definition, times: Times,
    tick: I64, next: I64, worker: Text, lease: I64, code: PinnedCode)

  ghost predicate Ticking(c: Case) {
    && c.times.next(0) == Some(c.tick) && c.times.next(c.tick) == Some(c.next)
    && 0 < c.tick < c.next && c.tick < c.lease && c.times.occurs(c.tick)
  }

  ghost predicate Declared(c: Case) {
    c.manifest.definitions == [c.definition] && c.times == c.definition.schedule && |c.digests| == 2
  }

  function Row(c: Case, revision: Revision): Activation {
    Activation(revision, c.code, c.manifest.releaseId, c.times, c.definition.target, c.definition.args, c.tick, 0, None,
      None)
  }

  function LeasedRow(c: Case, revision: Revision): Activation {
    CronRepository.Leased(Row(c, revision), c.worker, c.lease)
  }

  function Rows(c: Case, a: Activation): map<CronName, Activation> {
    map[c.definition.name := a]
  }

  function PollOf(c: Case): Poll {
    Poll(c.worker, c.tick, [Claimed(c.definition.name, LeasedRow(c, 1))], false)
  }

  // ---------------------------------------------------------------- the steps

  /** The same manifest activated under the next revision. */
  function Reactivation(c: Case, revision: U64): Command {
    ActivateManifest(revision, c.code, c.bytes, 0)
  }

  function Activate(c: Case, revision: U64, operation: Text): CronMachine.Step
    requires revision < |c.digests|
  {
    CommandStep(operation, Reactivation(c, revision), Some(c.manifest), c.digests[revision])
  }

  /** Both activations pass validation, and are recorded under their digests. */
  ghost predicate Admitted(c: Case) {
    |c.digests| == 2 && forall i: U64 :: i < 2 ==>
      && Validate(c.context, Reactivation(c, i)) == Ok(Some(c.manifest))
      && c.digests[i] == CommandPreimage(c.context.scope, Reactivation(c, i))
  }

  lemma InsertsRow(c: Case, revision: Revision)
    requires Ticking(c) && Declared(c)
    ensures InsertAll({}, revision, c.code, c.manifest.releaseId, c.manifest.definitions, 0) ==
      Ok(Rows(c, Row(c, revision)))
  {
    assert [c.definition][..0] == [];
    assert InsertAll({}, revision, c.code, c.manifest.releaseId, [], 0) == Ok(map[]);
    assert NewActivation(revision, c.code, c.manifest.releaseId, c.definition, 0) == Some(Row(c, revision));
  }

  lemma Changes(c: Case, repo: Repo, revision: Revision)
    requires Ticking(c) && Declared(c) && repo.disabled == {}
    ensures Change(repo, Reactivation(c, repo.revision), Some(c.manifest), revision)
         == Ok(repo.(activations := Rows(c, Row(c, revision))))
  {
    InsertsRow(c, revision);
  }

  lemma Applies(repo: Repo, operation: Text, command: Command, manifest: Option<Manifest>, digest: seq<int>,
      changed: Repo)
    requires operation !in repo.operations && repo.revision == command.expected && repo.revision + 1 < REVISION_LIMIT
    requires Change(repo, command, manifest, repo.revision + 1) == Ok(changed)
    ensures CronHistory.Next(repo, CronHistory.ApplyStep(operation, command, manifest, digest))
         == changed.(revision := repo.revision + 1,
                     operations := repo.operations[operation :=
                       CommandRow(digest, repo.revision + 1, |changed.activations|)])
  {
  }

  // ---------------------------------------------------------------- the states up to the second claim

  function RepoOf(c: Case, revision: Revision, a: Activation): Repo
    requires |c.digests| == 2
  {
    var operations := map[FIRST := CommandRow(c.digests[0], 1, 1)];
    Repo(revision, Rows(c, a), {}, if revision == 1 then operations
      else operations[SECOND := CommandRow(c.digests[1], 2, 1)])
  }

  function States(c: Case, ids: Ids): seq<Machine>
    requires |c.digests| == 2
  {
    var env := Store.EmptyEnv(ids.scope);
    [ Machine(EmptyRepo, env, map[]),
      Machine(RepoOf(c, 1, Row(c, 1)), env, map[]),
      Machine(RepoOf(c, 1, LeasedRow(c, 1)), env, map[FIRST := PollOf(c)]),
      Machine(RepoOf(c, 2, Row(c, 2)), env, map[FIRST := PollOf(c)]) ]
  }

  function Script(c: Case): seq<CronMachine.Step>
    requires |c.digests| == 2
  {
    [ Activate(c, 0, FIRST),
      CronMachine.ClaimStep(FIRST, c.worker, [c.definition.name], c.tick, c.lease),
      Activate(c, 1, SECOND) ]
  }

  lemma Activates(c: Case, repo: Repo, operation: Text)
    requires Ticking(c) && Declared(c)
    requires (repo == EmptyRepo && operation == FIRST) || (repo == RepoOf(c, 1, LeasedRow(c, 1)) && operation == SECOND)
    ensures CronHistory.Next(
              repo, CronHistory.ApplyStep(operation, Reactivation(c, repo.revision), Some(c.manifest),
                c.digests[repo.revision]))
         == RepoOf(c, repo.revision + 1, Row(c, repo.revision + 1))
  {
    var revision := repo.revision + 1;
    Changes(c, repo, revision);
    Applies(repo, operation, Reactivation(c, repo.revision), Some(c.manifest), c.digests[repo.revision],
            repo.(activations := Rows(c, Row(c, revision))));
    assert |Rows(c, Row(c, revision))| == 1;
  }

  lemma Claims(c: Case, m: Machine)
    requires Ticking(c) && m.repo.activations == Rows(c, Row(c, 1)) && FIRST !in m.polls
    ensures ClaimNext(m, FIRST, c.worker, [c.definition.name], c.tick, c.lease)
         == m.(repo := m.repo.(activations := Rows(c, LeasedRow(c, 1))), polls := m.polls[FIRST := PollOf(c)])
  {
    var name := c.definition.name;
    var names := [name];
    assert names[..|names| - 1] == [];
    var before := ClaimRows(m.repo.activations, names[..|names| - 1], c.worker, c.tick, c.lease);
    assert before.0 == m.repo.activations && before.1 == [];
    assert before.0[name] == Row(c, 1) && CronRepository.Claimable(before.0[name], c.tick);
    assert m.repo.activations[name := LeasedRow(c, 1)] == Rows(c, LeasedRow(c, 1));
    var claimed := ClaimRows(m.repo.activations, names, c.worker, c.tick, c.lease);
    assert claimed.0 == Rows(c, LeasedRow(c, 1)) && claimed.1 == [Claimed(name, LeasedRow(c, 1))];
  }

  lemma ScriptActivates(c: Case, ids: Ids, i: nat)
    requires Ticking(c) && Declared(c) && (i == 0 || i == 2)
    ensures StepAt(States(c, ids), Script(c), ids, i)
  {
    Activates(c, States(c, ids)[i].repo, if i == 0 then FIRST else SECOND);
  }

  lemma ScriptClaims(c: Case, ids: Ids)
    requires Ticking(c) && Declared(c)
    ensures StepAt(States(c, ids), Script(c), ids, 1)
    ensures Unmixed(States(c, ids)[1], c.worker, [c.definition.name], c.tick)
  {
    Claims(c, States(c, ids)[1]);
  }

  /** The steps are commands and one claim. */
  ghost predicate ThreeKinds(steps: seq<CronMachine.Step>) {
    && |steps| == 3 && steps[1].ClaimStep?
    && steps[0].CommandStep? && steps[0].command.at >= 0 && steps[2].CommandStep? && steps[2].command.at >= 0
  }

  lemma ThreeAreTrusted(steps: seq<CronMachine.Step>, ids: Ids)
    requires ThreeKinds(steps)
    ensures forall i :: 0 <= i < |steps| ==> Trusted(steps[i], ids) && !steps[i].CompleteStep?
  {
    assert Trusted(steps[0], ids) && Trusted(steps[1], ids) && Trusted(steps[2], ids);
  }

  lemma ThreeSteps(states: seq<Machine>, steps: seq<CronMachine.Step>, ids: Ids)
    requires |states| == 4 && ThreeKinds(steps) && states[0] == Machine(EmptyRepo, Store.EmptyEnv(ids.scope), map[])
    requires StepAt(states, steps, ids, 0) && StepAt(states, steps, ids, 1) && StepAt(states, steps, ids, 2)
    requires Unmixed(states[1], steps[1].worker, steps[1].names, steps[1].now)
    ensures IsRun(states, steps, ids) && ClaimsUnmixed(states, steps)
  {
    ThreeAreTrusted(steps, ids);
    forall i | 0 <= i < |steps| ensures StepAt(states, steps, ids, i) {
      assert i == 0 || i == 1 || i == 2;
    }
    assert StaysInEpochs(states, steps, ids);
  }

  /** The script is a run in which nothing is mixed yet. */
  lemma ScriptRuns(c: Case, ids: Ids)
    requires Ticking(c) && Declared(c)
    ensures IsRun(States(c, ids), Script(c), ids) && ClaimsUnmixed(States(c, ids), Script(c))
  {
    ScriptActivates(c, ids, 0);
    ScriptClaims(c, ids);
    ScriptActivates(c, ids, 2);
    ThreeSteps(States(c, ids), Script(c), ids);
  }

  lemma SecondClaimRejoins(c: Case, ids: Ids)
    requires Ticking(c) && Declared(c)
    ensures var m := States(c, ids)[3]; var name := c.definition.name;
      && Rejoinable(m, ids, FIRST, [name], c.tick) && SECOND !in m.polls && m.polls[FIRST].worker == c.worker
      && m.polls[FIRST].rest[0].name == name && name in m.repo.activations
        && OwnTick(m, name) == TickId(name, 2, c.tick)
  {
    var m := States(c, ids)[3];
    assert m.polls[FIRST].rest == [Claimed(c.definition.name, LeasedRow(c, 1))];
    assert m.repo.activations[c.definition.name] == Row(c, 2);
  }

  /** Both activations are valid commands under their own digests. */
  ghost predicate ActivationsValid(context: Context, steps: seq<CronMachine.Step>) {
    forall i :: 0 <= i < |steps| && steps[i].CommandStep? ==>
      && Validate(context, steps[i].command) == Ok(steps[i].manifest)
      && steps[i].digest == CommandPreimage(context.scope, steps[i].command)
  }

  lemma ScriptIsValid(c: Case)
    requires Admitted(c)
    ensures ActivationsValid(c.context, Script(c))
  {
  }

  /** A second claim of the same worker, then the commit and the completion of the first poll. */
  function Overlap(c: Case, ids: Ids, m: Machine): Machine {
    var claimed := ClaimNext(m, SECOND, c.worker, [c.definition.name], c.tick, c.lease);
    CompleteNext(CommitNext(claimed, ids, FIRST, 0), FIRST)
  }

  /**
   For every schedule that ticks twice: after two valid activations with a claim in between, an
   overlapping claim of the same worker leaves the second epoch's cursor past its first tick, which
   was never stored.
   */
  lemma SharedWorkerSkipsTick(c: Case, ids: Ids, states: seq<Machine>, after: Machine)
    requires Ticking(c) && Declared(c) && Admitted(c) && Distinguishes(ids)
    requires states == States(c, ids) && after == Overlap(c, ids, states[3])
    ensures IsRun(states, Script(c), ids) && ClaimsUnmixed(states, Script(c)) && ActivationsValid(c.context, Script(c))
    ensures var k := EpochKey(c.definition.name, 2);
      var observed := Observe(EpochsAt(states, 3), after.repo.activations);
      && k in observed && !Stored(after.env, ids, TickId(c.definition.name, 2, c.tick))
      && observed[k].schedule.occurs(c.tick) && observed[k].first <= c.tick < observed[k].cursor
  {
    ScriptRuns(c, ids);
    ScriptIsValid(c);
    SecondClaimRejoins(c, ids);
    RunKeeps(states, Script(c), ids, 3);
    OverlapSkips(c, ids, states[3], EpochsAt(states, 3));
  }

  lemma OverlapSkips(c: Case, ids: Ids, m: Machine, epochs: Epochs)
    requires Ticking(c) && Distinguishes(ids) && Inv(m, ids, epochs) && SECOND !in m.polls
    requires Rejoinable(m, ids, FIRST, [c.definition.name], c.tick) && m.polls[FIRST].worker == c.worker
    requires m.polls[FIRST].rest[0].name == c.definition.name
    ensures var own := OwnTick(m, c.definition.name);
      var observed := Observe(epochs, Overlap(c, ids, m).repo.activations);
      && EpochOf(own) in observed && !Stored(Overlap(c, ids, m).env, ids, own)
      && var e := observed[EpochOf(own)]; e.schedule.occurs(own.tick) && e.first <= own.tick < e.cursor
  {
    MixedClaimSkipsTick(m, ids, epochs, FIRST, SECOND, [c.definition.name], c.tick, c.lease, 0);
  }

  // ---------------------------------------------------------------- such a case exists

  function Span(low: int, high: int): (r: set<int>)
    ensures forall x :: x in r <==> low <= x <= high
    decreases high - low
  {
    if low > high then {} else {high} + Span(low, high - 1)
  }

  /** What the expression of five stars parses to. */
  predicate EveryMinute(s: CronSchedule) {
    s == CronSchedule(Span(0, 59), Span(0, 23), Span(1, 31), Span(1, 12), Span(0, 6))
  }

  lemma EveryMinuteMatches(s: CronSchedule, minute: int)
    requires EveryMinute(s)
    ensures MatchesMinute(s, minute)
  {
    CivilDatesAreValid(minute / MINUTES_PER_DAY);
  }

  /** The next minute matches, so it is the next tick. */
  lemma TicksNextMinute(matches: int -> bool, time: I64, next: I64)
    requires matches(time / MICROS_PER_MINUTE + 1) && next == (time / MICROS_PER_MINUTE + 1) * MICROS_PER_MINUTE
    ensures NextBy(matches, time) == Some(next) && OccursBy(matches, next)
  {
    var minute := time / MICROS_PER_MINUTE + 1;
    assert Search(matches, minute, MAX_SEARCH_MINUTES) == Some(minute);
    assert next / MICROS_PER_MINUTE == minute && next % MICROS_PER_MINUTE == 0;
  }

  /** It ticks every minute. */
  lemma EveryMinuteTicks(s: CronSchedule)
    requires EveryMinute(s)
    ensures TimesOf(s).next(0) == Some(60_000_000) && TimesOf(s).next(60_000_000) == Some(120_000_000)
    ensures TimesOf(s).occurs(60_000_000)
  {
    EveryMinuteMatches(s, 1);
    EveryMinuteMatches(s, 2);
    TicksNextMinute(Minutes(s), 0, 60_000_000);
    TicksNextMinute(Minutes(s), 60_000_000, 120_000_000);
  }

  /** A valid manifest with one definition, activated as a Release of the project. */
  lemma CaseOf(scope: CronScope, definition: Definition, release: Ulid, worker: Text) returns (c: Case)
    requires ValidName(definition.name) && |definition.args| <= MAX_ARGS_BYTES && ValidTimes(definition.schedule)
    requires definition.schedule.next(0) == Some(60_000_000)
      && definition.schedule.next(60_000_000) == Some(120_000_000)
    requires definition.schedule.occurs(60_000_000)
    ensures Ticking(c) && Declared(c) && Admitted(c) && c.definition == definition
  {
    var manifest: Manifest := ManifestData.Manifest(scope.project, release, [definition]);
    var context := Context(scope, _ => Some(manifest));
    var digests := [CommandPreimage(scope, ActivateManifest(0, Release(release), [], 0)),
                    CommandPreimage(scope, ActivateManifest(1, Release(release), [], 0))];
    c := Case(context, [], digests, manifest, definition, definition.schedule, 60_000_000, 120_000_000, worker,
              90_000_000, Release(release));
  }

  /**
   In every Environment a definition that ticks every minute is such a case, with the identities the
   materializer derives.
   */
  lemma EveryMinuteCase(scope: CronScope, s: CronSchedule, definition: Definition, release: Ulid, worker: Text)
    returns (c: Case)
    requires EveryMinute(s) && definition.schedule == TimesOf(s)
    requires ValidName(definition.name) && |definition.args| <= MAX_ARGS_BYTES
    ensures Ticking(c) && Declared(c) && Admitted(c) && c.definition == definition && Distinguishes(CronIds(scope))
  {
    EveryMinuteTicks(s);
    TimesAreValid(s);
    CronIdsDistinguish(scope);
    c := CaseOf(scope, definition, release, worker);
  }
}
