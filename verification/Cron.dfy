/** Cron definitions, activation commands, and the identities derived from a tick. */
module Cron {

  import opened Order
  import opened Values
  import opened Encoding
  import opened Batch
  import opened CronSchedule

  datatype CronError = InvalidInput | InvalidManifest | Conflict | Corruption | LeaseLost | LimitExceeded | Unavailable

  const MAX_NAME_BYTES: nat := 64
  const MAX_DEFINITIONS: nat := 128
  const MAX_ARGS_BYTES: nat := 64 * 1024
  const MAX_TICK_KEY_BYTES: nat := 128
  const REVISION_LIMIT: nat := 0x8000_0000_0000_0000

  predicate NameByte(b: int) {
    97 <= b <= 122 || 48 <= b <= 57 || b == 45 || b == 95 || b == 46
  }

  /** Lower-case letters, digits, `-`, `_` and `.`, starting with a letter. */
  predicate ValidName(n: CronName) {
    n != [] && 97 <= n[0] <= 122 && forall b :: b in n ==> NameByte(b)
  }

  type CronName = n: Text | |n| <= MAX_NAME_BYTES

  /** The 26 characters of an identifier without its kind. */
  type Ulid = s: seq<int> | |s| == 26 witness seq(26, _ => 48)

  /** Project and Environment ids are short texts. */
  type CronScope = s: Scope |
    |s.project| <= 64 && |s.environment| <= 64 && (forall b :: b in s.project + s.environment ==> b != 0)
    witness Scope([], [])

  type Revision = n: nat | n < REVISION_LIMIT

  datatype PinnedCode = Release(id: Ulid) | DevRevision(id: Ulid)

  /** "release:rel_" and "dev_revision:drv_" before the identifier. */
  function PinnedText(code: PinnedCode): Sized {
    match code
    case Release(id) => [114, 101, 108, 101, 97, 115, 101, 58, 114, 101, 108, 95] + id
    case DevRevision(id) => [100, 101, 118, 95, 114, 101, 118, 105, 115, 105, 111, 110, 58, 100, 114, 118, 95] + id
  }

  /** A declared schedule is given by its times. */
  datatype Definition = Definition(name: CronName, schedule: Times, target: Sized, args: Sized)

  /** The part of a Release manifest that Cron reads. */
  datatype ManifestData = Manifest(project: Sized, releaseId: Ulid, definitions: seq<Definition>)

  type Manifest = m: ManifestData |
    && |m.definitions| <= MAX_DEFINITIONS
    && (forall i, j :: 0 <= i < j < |m.definitions| ==> Less(m.definitions[i].name, m.definitions[j].name))
    && (forall i :: 0 <= i < |m.definitions| ==>
      ValidName(m.definitions[i].name) && |m.definitions[i].args| <= MAX_ARGS_BYTES)
    && (forall i :: 0 <= i < |m.definitions| ==> ValidTimes(m.definitions[i].schedule))
    witness Manifest([], seq(26, _ => 48), [])

  /** `decode` is the canonical manifest decoder. */
  datatype Context = Context(scope: CronScope, decode: seq<int> -> Option<Manifest>)

  datatype CommandData =
    | ActivateManifest(expected: U64, code: PinnedCode, manifest: seq<int>, at: I64)
    | DeactivateAll(expected: U64, at: I64)
    | SetDefinition(expected: U64, code: PinnedCode, manifest: seq<int>, name: CronName, enabled: bool, at: I64)

  type Command = c: CommandData | c.SetDefinition? ==> ValidName(c.name) witness DeactivateAll(0, 0)

  predicate Declares(m: Manifest, name: CronName) {
    exists i :: 0 <= i < |m.definitions| && m.definitions[i].name == name
  }

  /** The checks before any mutation; the decoded manifest when the command carries one. */
  function Validate(context: Context, c: Command): Result<Option<Manifest>, CronError> {
    if c.at < 0 then Err(InvalidInput)
    else if c.DeactivateAll? then Ok(None)
    else
      var manifest := context.decode(c.manifest);
      if manifest.None? then Err(InvalidManifest)
      else if manifest.value.project != context.scope.project then Err(InvalidManifest)
      else if c.code.Release? && c.code.id != manifest.value.releaseId then Err(InvalidManifest)
      else if c.ActivateManifest? && manifest.value.definitions == [] then Err(InvalidManifest)
      else if c.SetDefinition? && !Declares(manifest.value, c.name) then Err(InvalidManifest)
      else Ok(manifest)
  }

  // ---------------------------------------------------------------- delimited texts

  lemma Delimited(a: seq<int>, b: seq<int>, p: int, q: int, x: seq<int>, y: seq<int>, separators: set<int>)
    requires p in separators && q in separators
    requires forall c :: c in a + b ==> c !in separators
    requires a + [p] + x == b + [q] + y
    ensures a == b && p == q && x == y
  {
    var s := a + [p] + x;
    assert s[|a|] == p && s[|b|] == q;
    assert forall i :: 0 <= i < |a| ==> s[i] == a[i] && a[i] in a + b;
    assert forall i :: 0 <= i < |b| ==> s[i] == b[i] && b[i] in a + b;
    assert |a| == |b|;
    assert a + [p] + x == a + ([p] + x) && b + [q] + y == b + ([q] + y);
    Cancel(a, b, [p] + x, [q] + y);
    Cancel([p], [q], x, y);
  }

  // ---------------------------------------------------------------- command digest

  /** "RUNKU_CRON_COMMAND_V1" and a zero byte. */
  const COMMAND_MAGIC: seq<int> :=
    [82, 85, 78, 75, 85, 95, 67, 82, 79, 78, 95, 67, 79, 77, 77, 65, 78, 68, 95, 86, 49, 0]

  function CommandBody(c: Command): seq<int> {
    match c
    case ActivateManifest(_, code, manifest, at) => Tag(1, PinnedText(code) + Signed(at, manifest))
    case DeactivateAll(_, at) => Tag(2, Signed(at, []))
    case SetDefinition(_, code, manifest, name, enabled, at) =>
      Tag(3, PinnedText(code) + ([0] + (name + [if enabled then 1 else 0] + Signed(at, manifest))))
  }

  /** The bytes fed to the command digest. */
  function CommandPreimage(scope: CronScope, c: Command): seq<int> {
    COMMAND_MAGIC + scope.project + [0] + scope.environment + Word(c.expected, CommandBody(c))
  }

  lemma PinnedInjective(a: PinnedCode, b: PinnedCode, x: seq<int>, y: seq<int>)
    requires PinnedText(a) + x == PinnedText(b) + y
    ensures a == b && x == y
  {
    assert (PinnedText(a) + x)[0] == if a.Release? then 114 else 100;
    assert (PinnedText(b) + y)[0] == if b.Release? then 114 else 100;
    Cancel(PinnedText(a), PinnedText(b), x, y);
    var k := if a.Release? then 12 else 17;
    assert a.id == PinnedText(a)[k..] && b.id == PinnedText(b)[k..];
  }

  lemma BodyInjective(a: Command, b: Command)
    requires CommandBody(a) == CommandBody(b) && a.expected == b.expected
    ensures a == b
  {
    assert CommandBody(a)[0] == if a.ActivateManifest? then 1 else if a.DeactivateAll? then 2 else 3;
    assert CommandBody(b)[0] == if b.ActivateManifest? then 1 else if b.DeactivateAll? then 2 else 3;
    assert CommandBody(a)[1..] == CommandBody(b)[1..];
    match a
    case ActivateManifest(_, code, manifest, at) =>
      PinnedInjective(code, b.code, Signed(at, manifest), Signed(b.at, b.manifest));
      SignedInjective(at, b.at, manifest, b.manifest);
    case DeactivateAll(_, at) =>
      SignedInjective(at, b.at, [], []);
    case SetDefinition(_, code, manifest, name, enabled, at) =>
      var p, q := if enabled then 1 else 0, if b.enabled then 1 else 0;
      var x, y := name + [p] + Signed(at, manifest), b.name + [q] + Signed(b.at, b.manifest);
      PinnedInjective(code, b.code, [0] + x, [0] + y);
      Cancel([0], [0], x, y);
      Delimited(name, b.name, p, q, Signed(at, manifest), Signed(b.at, b.manifest), {0, 1});
      SignedInjective(at, b.at, manifest, b.manifest);
  }

  /** In one Environment, commands with equal pre-images are the same command. */
  lemma CommandPreimageInjective(scope: CronScope, a: Command, b: Command)
    requires CommandPreimage(scope, a) == CommandPreimage(scope, b)
    ensures a == b
  {
    var head := COMMAND_MAGIC + scope.project + [0] + scope.environment;
    Cancel(head, head, Word(a.expected, CommandBody(a)), Word(b.expected, CommandBody(b)));
    WordInjective(a.expected, b.expected, CommandBody(a), CommandBody(b));
    BodyInjective(a, b);
  }

  // ---------------------------------------------------------------- tick identities

  datatype TickId = TickId(name: CronName, revision: Revision, tick: I64)

  function TickIdentityBytes(scope: CronScope, t: TickId): seq<int> {
    scope.project + [0] + (scope.environment + [0] + (t.name + Word(t.revision, Signed(t.tick, []))))
  }

  /** "RUNKU_CRON_OPERATION_ID_V1" and a zero byte. */
  const OPERATION_MAGIC: seq<int> :=
    [82, 85, 78, 75, 85, 95, 67, 82, 79, 78, 95, 79, 80, 69, 82, 65, 84, 73, 79, 78, 95, 73, 68, 95, 86, 49, 0]

  /** "RUNKU_CRON_SCHEDULE_ID_V1" and a zero byte. */
  const SCHEDULE_MAGIC: seq<int> :=
    [82, 85, 78, 75, 85, 95, 67, 82, 79, 78, 95, 83, 67, 72, 69, 68, 85, 76, 69, 95, 73, 68, 95, 86, 49, 0]

  function OperationOf(scope: CronScope, t: TickId): Text {
    OPERATION_MAGIC + TickIdentityBytes(scope, t)
  }

  function InvocationOf(scope: CronScope, t: TickId): Sized {
    SCHEDULE_MAGIC + TickIdentityBytes(scope, t)
  }

  /** A scope is read back up to its second zero byte. */
  lemma ScopeInjective(a: CronScope, b: CronScope, x: seq<int>, y: seq<int>)
    requires a.project + [0] + (a.environment + [0] + x) == b.project + [0] + (b.environment + [0] + y)
    ensures a == b && x == y
  {
    assert forall c :: c in a.project + b.project ==> c in a.project + a.environment || c in b.project + b.environment;
    Delimited(a.project, b.project, 0, 0, a.environment + [0] + x, b.environment + [0] + y, {0});
    assert forall c :: c in a.environment + b.environment ==>
      c in a.project + a.environment || c in b.project + b.environment;
    Delimited(a.environment, b.environment, 0, 0, x, y, {0});
  }

  lemma StampInjective(s: TickId, t: TickId)
    requires s.name + Word(s.revision, Signed(s.tick, [])) == t.name + Word(t.revision, Signed(t.tick, []))
    ensures s == t
  {
    var x, y := Word(s.revision, Signed(s.tick, [])), Word(t.revision, Signed(t.tick, []));
    assert |x| == 16 && |y| == 16;
    Cancel(s.name, t.name, x, y);
    WordInjective(s.revision, t.revision, Signed(s.tick, []), Signed(t.tick, []));
    SignedInjective(s.tick, t.tick, [], []);
  }

  /** The identity bytes determine the Environment and the tick. */
  lemma TickIdentityInjective(a: CronScope, b: CronScope, s: TickId, t: TickId)
    requires TickIdentityBytes(a, s) == TickIdentityBytes(b, t)
    ensures a == b && s == t
  {
    ScopeInjective(a, b, s.name + Word(s.revision, Signed(s.tick, [])), t.name + Word(t.revision, Signed(t.tick, [])));
    StampInjective(s, t);
  }

  lemma InvocationInjective(scope: CronScope, s: TickId, t: TickId)
    requires InvocationOf(scope, s) == InvocationOf(scope, t)
    ensures s == t
  {
    Cancel(SCHEDULE_MAGIC, SCHEDULE_MAGIC, TickIdentityBytes(scope, s), TickIdentityBytes(scope, t));
    TickIdentityInjective(scope, scope, s, t);
  }

  lemma OperationInjective(scope: CronScope, s: TickId, t: TickId)
    requires OperationOf(scope, s) == OperationOf(scope, t)
    ensures s == t
  {
    Cancel(OPERATION_MAGIC, OPERATION_MAGIC, TickIdentityBytes(scope, s), TickIdentityBytes(scope, t));
    TickIdentityInjective(scope, scope, s, t);
  }

  // ---------------------------------------------------------------- tick keys

  function Decimal(n: nat): (digits: seq<int>)
    ensures digits != [] && forall d :: d in digits ==> 48 <= d <= 57
  {
    if n < 10 then [48 + n] else Decimal(n / 10) + [48 + n % 10]
  }

  function SignedDecimal(n: int): seq<int> {
    if n < 0 then [45] + Decimal(-n) else Decimal(n)
  }

  lemma {:induction false} DecimalInjective(a: nat, b: nat)
    requires Decimal(a) == Decimal(b)
    ensures a == b
  {
    var s := Decimal(a);
    assert a >= 10 ==> |Decimal(a)| >= 2;
    assert b >= 10 ==> |Decimal(b)| >= 2;
    if a >= 10 && b >= 10 {
      assert s[..|s| - 1] == Decimal(a / 10) && s[..|s| - 1] == Decimal(b / 10);
      assert s[|s| - 1] == 48 + a % 10 && s[|s| - 1] == 48 + b % 10;
      DecimalInjective(a / 10, b / 10);
    }
  }

  lemma SignedDecimalInjective(a: int, b: int)
    requires SignedDecimal(a) == SignedDecimal(b)
    ensures a == b
  {
    assert a >= 0 ==> Decimal(a)[0] in Decimal(a);
    assert b >= 0 ==> Decimal(b)[0] in Decimal(b);
    if a < 0 && b < 0 {
      Cancel([45], [45], Decimal(-a), Decimal(-b));
      DecimalInjective(-a, -b);
    } else if a >= 0 && b >= 0 {
      DecimalInjective(a, b);
    }
  }

  function Ten(width: nat): nat {
    if width == 0 then 1 else 10 * Ten(width - 1)
  }

  lemma {:induction false} DecimalLength(n: nat, width: nat)
    requires width > 0 && n < Ten(width)
    ensures |Decimal(n)| <= width
  {
    if n >= 10 {
      DecimalLength(n / 10, width - 1);
    }
  }

  /** "cron:" */
  const KEY_PREFIX: seq<int> := [99, 114, 111, 110, 58]

  lemma TenValues()
    ensures Ten(19) == 10_000_000_000_000_000_000
  {
    assert Ten(5) == 100_000;
    assert Ten(10) == 10_000_000_000;
    assert Ten(15) == 1_000_000_000_000_000;
  }

  lemma TickKeyFits(t: TickId)
    ensures |Decimal(t.revision)| <= 19 && |SignedDecimal(t.tick)| <= 20
  {
    TenValues();
    DecimalLength(t.revision, 19);
    var magnitude: nat := if t.tick < 0 then -(t.tick as int) else t.tick;
    DecimalLength(magnitude, 19);
  }

  /** The idempotency key of a tick; it is always well within the length limit. */
  function TickKey(t: TickId): (key: Sized)
    ensures 1 <= |key| <= 110 <= MAX_TICK_KEY_BYTES
  {
    TickKeyFits(t);
    KEY_PREFIX + (t.name + [58] + (Decimal(t.revision) + [58] + SignedDecimal(t.tick)))
  }

  lemma TickKeyInjective(s: TickId, t: TickId)
    requires ValidName(s.name) && ValidName(t.name) && TickKey(s) == TickKey(t)
    ensures s == t
  {
    var x, y := Decimal(s.revision) + [58] + SignedDecimal(s.tick), Decimal(t.revision) + [58] + SignedDecimal(t.tick);
    Cancel(KEY_PREFIX, KEY_PREFIX, s.name + [58] + x, t.name + [58] + y);
    forall c | c in s.name + t.name ensures c !in {58} {
      assert c in s.name || c in t.name;
      assert NameByte(c);
    }
    Delimited(s.name, t.name, 58, 58, x, y, {58});
    Delimited(Decimal(s.revision), Decimal(t.revision), 58, 58, SignedDecimal(s.tick), SignedDecimal(t.tick), {58});
    DecimalInjective(s.revision, t.revision);
    SignedDecimalInjective(s.tick, t.tick);
  }
}
