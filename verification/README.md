# Runku: verified model of contracts, store, Cron and build policy

This project models four connected parts of Runku, a backend platform whose code is published in
immutable Releases that share the documents of an Environment, and proves what they promise over
whole runs. `dafny verify dfyconfig.toml` checks everything.

**Contracts and Release compatibility.** A contract is a recursive description of canonical values.
`Contracts` gives the step-free meaning of its operations: acceptance, the view a Release has of a
stored document, and the merge behind a full replacement by a Release that does not know every
field. `Lens` and `Views` say how they fit together, `Relations` and `Coexistence` treat the two
relations between contracts, `Inclusion` and `MutualViews` when those must answer yes, `Redundancy`
and `LeastViews` what equivalent and coexisting contracts read, and `Releases` the comparison of
whole Releases. `ContractChecker`, `ContractReader`, `RelationChecker` and `Definitions` hold the
code as it runs, with its step budgets and loops, proved against those meanings; `Categories` says
what a reported failure means, `StoredValues` which values can be stored at all.

**The logical store.** `Store` is one Environment as a state machine in which every serializable
transaction is one step: commits, outbox claims and acknowledgements, leases, completions and
cancellations of scheduled invocations. `PostgresStore` holds the transactions as they run,
statement by statement and with rollback, each proved equal to its step. `Batch` and `Encoding`
treat the commit batch, its validation and the byte stream of its digest. `Journal`, `Schedules`,
`Outbox` and `SerialOrder` prove what holds over every history; `CommitEffects`, `OutboxEffects` and
`ScheduleEffects` say in elementary terms when each operation succeeds and what it leaves behind.

**Cron.** `CronSchedule`, `CronMeaning` and `CronHorizon` treat the calendar, the times of a
schedule and the search for the next tick, `CronRepository`, `CronHistory`, `CronEffects`,
`CronClaims` and `CronAdapter` the activation repository, `CronMachine` and `CronExactlyOnce` the
crash-tolerant protocol between the repository and the store, `CronFences` the claims that keep it
exact, and `CronMaterializer` and `PollEffects` the poll that runs it. An epoch is one activation of
a name under a repository revision; its first tick is the row's when the epoch appears and its
cursor is the row's latest.

**Build policy.** `BuildGraph` treats depth-first reachability over a module graph and the policy
that keeps Node code out of Safe entries.

Results about the code that are worth knowing before reading on:

- Reading back a replacement, and writing back a view, are exact only where no union hides one
  variant behind another; `Lens` gives the exact conditions and a failing input for each.
- Coexistence is answered alike in both argument orders exactly for left contracts whose unions have
  pairwise inequivalent variants; `coexist` is documented as symmetric without that proviso.
- Two views that coexist in both orders can still lock a reader out when an object lies beneath a
  union: equivalent contracts accept the same values but may read different ones. For every valid
  writer there is a least view: a replacement of a document that it reads locks out no coexisting
  view if and only if it reads the result too. A writer of which no object variant lies strictly
  inside another never locks anyone out.
- The inclusion check decides inclusion of values exactly, apart from four ways in which it is
  stricter: a union on the right is never covered by several variants together, a minimum length of
  zero is taken for a restriction, document ids are told apart by a table that no value shows, and
  the items of an array that can hold none are still compared.
- An asserted read protects a mutation exactly as long as the document was not deleted and created
  again; its revision restarts at 1.
- Completing a Cron tick does not check the activation revision. A run is exact if and only if no
  completion crosses epochs. One poll at a time per worker id ensures that, and so does less: no
  claim whose lease an unfinished claim of the same worker in another epoch could take for its own.
  Where a claim breaks this a tick can be lost, with every schedule that ticks twice.
- A merge after a passed validation never runs out of its step budget. A read within its budget can
  still skip a variant whose view is too costly to validate; `ContractReader` says exactly when, and
  `ReaderCounterexample` has a document of 50 KB for which it happens.
- The eight-year bound of the schedule search never hides an occurrence.

Conventions: texts, identifiers and stored values are byte sequences (`Text`; `Sized` where a
four-byte length precedes them) in lexicographic order. Finite floats are reals. SHA-256 is taken to
be injective, so a digest stands for its pre-image and a derived identifier for the bytes it is
hashed from; what is proved is that the pre-images themselves are injective. Clocks, worker ids,
rows locked by other transactions and the choice of steps are parameters of the steps. Integers are
unbounded except where the code checks a width.

## Model

| member | source | states |
|---|---|---|
| `Contracts.Project` | crates/runku-contracts/src/lib.rs:372-421 | A view of a stored value that exists satisfies the contract it was read through, unions and arrays included. |
| `Contracts.AcceptedIsProjectable` | crates/runku-contracts/src/lib.rs:372-421 | Every accepted value has a view. |
| `Contracts.MergedIsProjectable` | crates/runku-contracts/src/lib.rs:423-481 | After a valid replacement the writer can read the stored value, whatever was stored before. |
| `Lens.ReadAfterReplace` | crates/runku-contracts/src/lib.rs:273-281 | Reading after a valid replacement gives that replacement back if and only if, at every union on the way, no earlier variant can read what the accepting variant wrote. |
| `Lens.ReplaceByView` | crates/runku-contracts/src/lib.rs:273-281 | Replacing a readable value by its own view leaves it unchanged if and only if every union on the way validates the view with the variant that produced it. |
| `Lens.FlatContractsAreLenses` | crates/runku-contracts/src/lib.rs:372-481 | With no object beneath a union both lens laws hold for every stored value and every valid replacement. |
| `Lens.ReplacePreservesUnknown` | crates/runku-contracts/src/lib.rs:423-481 | A full replacement changes nothing outside its writer's view, at any depth shared by the stored value and the replacement. |
| `Lens.ShadowingVariant` | crates/runku-contracts/src/lib.rs:406-415 | An earlier object variant hides a field that a later one wrote: reading after a replacement is not the replacement. |
| `Lens.WriteBackDropsField` | crates/runku-contracts/src/lib.rs:472-478 | Writing back a view can drop a stored field when another variant validates it. |
| `ContractChecker.MismatchIffRejected` | crates/runku-contracts/src/lib.rs:483-575 | No failure category is reported exactly for accepted values. |
| `Categories.CategoryMeans` | crates/runku-contracts/src/lib.rs:483-575 | The category reported is that of the first rejected part, in the order of items and of sorted keys: a type mismatch where not even the contract without its bounds accepts it, a bound violation where that one does, a wrong shape where no values would save the keys, a union mismatch where every variant rejects it. |
| `ContractChecker.ValidateAt` | crates/runku-contracts/src/lib.rs:483-575 | The steps of the shared counter are counted exactly, up to the first failing item or field and the first accepting variant; within the budget outcome and category are the budget-free ones, although unions discard inner failures, and beyond it every call fails. |
| `ContractChecker.ValidateValue` | crates/runku-contracts/src/lib.rs:244-247 | It succeeds if and only if the value is accepted and its steps fit the budget; within the budget a failure has the budget-free category. |
| `ContractReader.ProjectAt` | crates/runku-contracts/src/lib.rs:372-421 | The steps of the shared counter are counted exactly; within the budget the outcome is the code's reading of the value, in which a view too costly to validate on its own counter is skipped, and beyond it every call fails. |
| `ContractReader.ReadingIsSound` | crates/runku-contracts/src/lib.rs:372-421 | Whatever the counters did, a reading satisfies its contract and drops nothing but object keys. |
| `ContractReader.ReadingIsExact` | crates/runku-contracts/src/lib.rs:397-415 | The reading of a value that has a view is that view if and only if the value is covered: every view on the way is cheap enough to validate on its own counter, or a union that skips its view reads the same value through a later variant. |
| `ContractReader.ReadingNeedsView` | crates/runku-contracts/src/lib.rs:372-421 | There is no reading where there is no view. |
| `ContractReader.ReadingIsView` | crates/runku-contracts/src/lib.rs:372-421 | On a value whose nodes fit the budget the read takes no more steps than the budget has and its outcome is the budget-free one. |
| `ContractReader.ProjectValue` | crates/runku-contracts/src/lib.rs:258-261 | It succeeds if and only if there is a reading and its steps fit the budget; what it returns satisfies the contract and only drops keys; it returns the budget-free view if and only if the value is covered and the steps fit, and fails where there is no view. |
| `ContractReader.ViewWork` | crates/runku-contracts/src/lib.rs:397-415 | Validating a view on a budget of its own costs no more than validating the stored value. |
| `ReaderCounterexample.LargeReadSkipsVariant` | crates/runku-contracts/src/lib.rs:406-415 | A valid contract and a document that the stored-value codec encodes, with five rows of 10,000 flags: a read of a dozen steps skips the variant whose view exists, because that view is too costly to validate; so the document is not covered. |
| `ContractChecker.MergeAt` | crates/runku-contracts/src/lib.rs:423-481 | Where validating the replacement fits the budget, the merge needs no more steps and equals the budget-free one. |
| `ContractChecker.MergeUnionAt` | crates/runku-contracts/src/lib.rs:472-478 | Where that validation fits, the fresh validations of the union case find exactly the variant it found. |
| `ContractChecker.PreserveUnknownFields` | crates/runku-contracts/src/lib.rs:273-281 | It succeeds if and only if the replacement passes validation, and its result is then always the budget-free merge: nothing can run out after the validation, whatever the sizes. |
| `Definitions.ValidateDefinitionAt` | crates/runku-contracts/src/lib.rs:283-370 | A definition passes exactly when every node is valid, no union repeats a variant, and depth and node counts fit; a failure names a broken condition and success counts every node. |
| `Definitions.ValidateFieldsAt` | crates/runku-contracts/src/lib.rs:283-370 | The same for the fields of an object. |
| `Definitions.ValidateVariantsAt` | crates/runku-contracts/src/lib.rs:283-370 | The same for the variants of a union, with repeated variants refused. |
| `Relations.SubSound` | crates/runku-compatibility/src/lib.rs:508-652 | Whenever the subset relation answers yes, every value accepted by the first contract is accepted by the second. |
| `Relations.SubReflexive` | crates/runku-compatibility/src/lib.rs:508-652 | The subset relation is reflexive, nested unions included. |
| `Relations.SubTransitive` | crates/runku-compatibility/src/lib.rs:508-652 | The subset relation is transitive through Any, unions and optional fields. |
| `Relations.SubVariant` | crates/runku-compatibility/src/lib.rs:528-535 | What is included in a variant is included in the union. |
| `Inclusion.ScalarsExact` | crates/runku-compatibility/src/lib.rs:536-588 | On valid scalars other than document ids the subset check answers yes if and only if every value accepted by the first is accepted by the second, except that it takes a minimum length of zero for a restriction: the one exception, stated exactly. |
| `Inclusion.SubIsExact` | crates/runku-compatibility/src/lib.rs:508-652 | For every valid left contract, unions included, without document ids and arrays that can hold nothing, and every right contract without unions, document ids and zero minimum lengths, at any depth: the answer is yes if and only if every value accepted by the first is accepted by the second. |
| `Inclusion.ArraysExact` | crates/runku-compatibility/src/lib.rs:592-605 | The same for the bounds of arrays with one item contract, with the same exception. |
| `Inclusion.DocumentIdsByTable` | crates/runku-compatibility/src/lib.rs:589-591 | Document ids are included exactly in those of their own table, although a contract accepts those of every table. |
| `Inclusion.WidenField` | crates/runku-compatibility/src/lib.rs:606-633 | Widening a field keeps the old contract inside the new one. |
| `Inclusion.AddOptionalField` | crates/runku-compatibility/src/lib.rs:606-633 | So does adding an optional field. |
| `Inclusion.RelaxField` | crates/runku-compatibility/src/lib.rs:606-633 | So does making a field optional. |
| `Inclusion.AddVariant` | crates/runku-compatibility/src/lib.rs:520-535 | So does adding a variant anywhere in a union. |
| `Inclusion.WidenVariant` | crates/runku-compatibility/src/lib.rs:520-535 | So does widening a variant. |
| `RelationChecker.SubsetAt` | crates/runku-compatibility/src/lib.rs:508-636 | The steps of the shared counter are counted exactly, up to the variant or field that decides; within the budget the answer is the step-free relation, beyond it an error. |
| `RelationChecker.StepsPerPair` | crates/runku-compatibility/src/lib.rs:508-535 | The subset check takes at most one step per pair of nodes. |
| `RelationChecker.ContractSubset` | crates/runku-compatibility/src/lib.rs:502-505 | It answers the step-free relation if and only if its steps fit the budget, as they do whenever the node counts multiply to at most that; when that answer is yes is said by `Inclusion`. |
| `RelationChecker.ObjectSubsetAt` | crates/runku-compatibility/src/lib.rs:606-633 | The object case: both passes over the fields decide inclusion, with the first pass counted exactly. |
| `RelationChecker.CoexistAt` | crates/runku-compatibility/src/lib.rs:399-470 | The coexistence check answers the step-free relation if and only if every subset check up to the deciding one fits its own budget and the shared counter fits, with its steps counted exactly. |
| `RelationChecker.UnionsMatch` | crates/runku-compatibility/src/lib.rs:450-467 | The two nested loops decide whether every left variant has an equivalent right variant, and err exactly when a subset check on the way runs out. |
| `RelationChecker.ContractsCanCoexist` | crates/runku-compatibility/src/lib.rs:394-397 | It answers the step-free relation if and only if its checks and its counter fit, as they do whenever the node counts multiply to at most the budget. |
| `Coexistence.CoexistReadable` | crates/runku-compatibility/src/lib.rs:399-470 | If two views coexist, every value the left one accepts is readable by the right one. |
| `Coexistence.MatchingIsBijective` | crates/runku-compatibility/src/lib.rs:450-467 | With pairwise inequivalent left variants the variant matching is a bijection, so the right variants match back. |
| `Coexistence.CoexistSymmetric` | crates/runku-compatibility/src/lib.rs:399-470 | With pairwise inequivalent union variants on the left, coexistence is symmetric. |
| `Coexistence.SymmetryIsExact` | crates/runku-compatibility/src/lib.rs:399-470 | Coexistence is symmetric for every right contract, and for every valid one, if and only if the unions of the left contract reached through objects and arrays have pairwise inequivalent variants. |
| `Coexistence.AsymmetricPartner` | crates/runku-compatibility/src/lib.rs:450-467 | Every other left contract has a partner, a valid definition if it is one, with which the answer depends on the argument order. |
| `Coexistence.CoexistReadableBothWays` | crates/runku-compatibility/src/lib.rs:399-470 | One positive answer then makes each view readable for whatever the other one writes. |
| `MutualViews.CoexistIsExact` | crates/runku-compatibility/src/lib.rs:399-470 | For valid contracts without unions, document ids, zero minimum lengths and arrays that can hold nothing, at any depth: two views may coexist if and only if each can read whatever the other one writes. |
| `MutualViews.AddedField` | crates/runku-compatibility/src/lib.rs:409-435 | For all contracts: a field that only one view knows is permitted, in either argument order, exactly when it is optional. |
| `MutualViews.ChangedField` | crates/runku-compatibility/src/lib.rs:409-435 | A changed field is permitted exactly when its old and new contracts may coexist. |
| `MutualViews.RelaxedField` | crates/runku-compatibility/src/lib.rs:409-435 | A required field may not become optional, nor the reverse. |
| `MutualViews.ReorderedVariants` | crates/runku-compatibility/src/lib.rs:450-467 | Unions with the same variants in another order may coexist. |
| `Views.ReplaceKeepsReadable` | crates/runku-contracts/src/lib.rs:423-481 | One valid replacement through a coexisting view keeps a readable document readable by the other view, provided the writer is irredundant where coexistence compares by inclusion only, or its least view reads the result. |
| `Views.RunStaysReadable` | crates/runku-compatibility/src/lib.rs:399-470 | In every run of inserts and full replacements by Releases whose views coexist pairwise in both orders, every Release can read the document at every moment while each replacement is safe in that sense. |
| `Views.RunReplaces` | crates/runku-contracts/src/lib.rs:273-281 | Each replacement of any run changes nothing outside its writer's view, and is read back exactly if and only if no earlier variant shadows the written one, as with no object beneath a union. |
| `Views.AcceptedReleasesStayReadable` | crates/runku-compatibility/src/lib.rs:235-253 | The same for Releases that the engine accepts pairwise and every table they all declare. |
| `LeastViews.LockOutIsExact` | crates/runku-compatibility/src/lib.rs:399-470 | For every valid writer and every valid replacement of a document that its least view reads: all valid views that coexist with the writer in both argument orders and read the document still read it afterwards, if and only if the least view does. |
| `LeastViews.LeastSuffices` | crates/runku-compatibility/src/lib.rs:399-470 | What the least view of the writer reads of a replacement, every coexisting view that could read the document before reads too, objects, arrays and unions in any places. |
| `LeastViews.LockedOutView` | crates/runku-compatibility/src/lib.rs:450-469 | Where the least view cannot read the result, a valid view that coexists in both argument orders and could read the document before is locked out. |
| `LeastViews.AcceptedIsLeastReadable` | crates/runku-compatibility/src/lib.rs:399-470 | The least view reads whatever the writer may insert. |
| `Redundancy.EquivalentReads` | crates/runku-compatibility/src/lib.rs:508-652 | Whatever an irredundant contract reads, every contract that the subset check finds equivalent reads too, unions and nested objects included. |
| `Redundancy.ReducedReadsLeast` | crates/runku-compatibility/src/lib.rs:508-652 | Dropping every alternative that lies inside another gives the equivalent valid contract that reads least: a value is readable through all equivalent valid contracts if and only if through that one. |
| `Redundancy.FlatIsIrredundant` | crates/runku-compatibility/src/lib.rs:508-535 | Contracts with no object beneath a union are irredundant. |
| `ViewsCounterexample.ReaderLockedOut` | crates/runku-compatibility/src/lib.rs:450-467 | Two valid views that coexist in both orders lock a reader out by one valid insert and one valid replacement, when one object variant of the writer lies strictly inside another; the least view tells. |
| `ViewsCounterexample.HarmlessRedundancy` | crates/runku-compatibility/src/lib.rs:508-535 | A variant inside another is harmless when the larger one knows no further key, so irredundance is sufficient and not necessary. |
| `Releases.Compare` | crates/runku-compatibility/src/lib.rs:179-204 | The report lists exactly the diagnostics of the pair, sorted by code and subject and without repetitions; it is compatible exactly when no public caller and no document breaks; mismatched pairs are refused, and a limit error occurs only when a relation check or the report can exceed its bound. |
| `Releases.CompareFunctions` | crates/runku-compatibility/src/lib.rs:278-321 | The function diagnostics are exactly those of the public functions, and errors only come from limits. |
| `Releases.CompareTables` | crates/runku-compatibility/src/lib.rs:328-361 | The same for removed, renamed and narrowed tables. |
| `Releases.CompareSharedTables` | crates/runku-compatibility/src/lib.rs:363-392 | The same for tables both Releases declare. |
| `Releases.CompareCoexistence` | crates/runku-compatibility/src/lib.rs:235-276 | The coexistence report lists exactly the diagnostics of the pair in the same order and is compatible exactly when the views, indexes and Cron declarations coexist. |
| `Releases.ReportIsUnique` | crates/runku-compatibility/src/lib.rs:269-276 | Sorting and deduplication leave one possible report for what is reported. |
| `Releases.FunctionsByName` | crates/runku-compatibility/src/lib.rs:283-288 | The ordered map built from the candidate's functions, the last of several with one name kept. |
| `Releases.ReplaceDiagnosticsExact` | crates/runku-compatibility/src/lib.rs:278-361 | No diagnostic exactly when every public function and every table is replaced compatibly. |
| `Releases.CoexistDiagnosticsExact` | crates/runku-compatibility/src/lib.rs:363-392 | No diagnostic exactly when the Releases coexist. |
| `Releases.DiagnosticMeans` | crates/runku-compatibility/src/lib.rs:278-361 | A replacement report lists a diagnostic if and only if its own reason holds: the named function or table is missing, changed kind, visibility or runtime, narrowed its arguments, widened its result, was renamed or narrowed its documents. |
| `Releases.CoexistDiagnosticMeans` | crates/runku-compatibility/src/lib.rs:235-276 | The same for every diagnostic of a coexistence report. |
| `Releases.RolloutKeepsFunctions` | crates/runku-compatibility/src/lib.rs:278-321 | Along a chain of compatible Releases a public function survives with the same metadata, accepts every argument the first one accepted and returns only what the first one allowed. |
| `Releases.RolloutKeepsDocuments` | crates/runku-compatibility/src/lib.rs:328-361 | And every document valid in the first schema is valid in the last one. |
| `Batch.Validate` | crates/runku-data/src/batch.rs:286-376 | A batch passes exactly when it is nonempty, within limits, with positive revisions and no key touched twice; a failure names a condition it breaks. |
| `Batch.Digest` | crates/runku-data/src/batch.rs:383-489 | The running hash of a valid batch is fed exactly its pre-image; an invalid batch is refused first. |
| `Batch.PreimageInjective` | crates/runku-data/src/batch.rs:383-489 | Batches with equal pre-images agree in scope, reads, documents, indexes, outbox, schedules and intent context. |
| `Batch.SameDigestSameContent` | crates/runku-data/src/batch.rs:383-489 | Two valid batches have one pre-image exactly when they differ at most in the operation id. |
| `Encoding.ListedInjective` | crates/runku-data/src/batch.rs:523-548 | Counted lists of injectively encoded items are read back uniquely, with whatever follows them. |
| `PostgresStore.Adapter.Commit` | crates/runku-data-postgres/src/adapter.rs:255-282 | A commit in another scope or of an invalid batch changes nothing and is refused; any other equals the atomic step, and on every error the state is the one before. |
| `PostgresStore.Adapter.ApplyFresh` | crates/runku-data-postgres/src/adapter.rs:710-783 | The statements of a new operation, one by one, amount to the atomic step or to its error. |
| `PostgresStore.Adapter.ValidateReads` | crates/runku-data-postgres/src/adapter.rs:785-809 | All asserted reads observe the current revisions. |
| `PostgresStore.Adapter.ApplyDocument` | crates/runku-data-postgres/src/adapter.rs:874-942 | One document mutation with its conflict and limit errors equals that of the atomic step, whose effect on the stored value is said by `CommitEffects.CommitWrites`. |
| `PostgresStore.Adapter.ApplyDocuments` | crates/runku-data-postgres/src/adapter.rs:736-749 | The loop over the documents equals their sequential application. |
| `PostgresStore.Adapter.ApplyIndexes` | crates/runku-data-postgres/src/adapter.rs:944-986 | The loop over the index mutations equals their sequential application. |
| `PostgresStore.Adapter.AppendEvents` | crates/runku-data-postgres/src/adapter.rs:753-763 | The loop over the outbox appends, refusing a repeated event. |
| `PostgresStore.Adapter.InsertSchedules` | crates/runku-data-postgres/src/adapter.rs:764-777 | The loop over the scheduled invocations, refusing a repeated identity or idempotency key. |
| `CommitEffects.CommitSucceeds` | crates/runku-data-postgres/src/adapter.rs:710-783 | A valid batch under a new operation id is applied if and only if every asserted revision holds, every mutation finds the revision it expects, every index entry names the revision its document has after the batch, and no event, invocation or idempotency key is taken. |
| `CommitEffects.CommitWrites` | crates/runku-data-postgres/src/adapter.rs:710-783 | Then each upserted document holds the batch's value at the next revision and the commit's time, with its creation time kept; deleted ones are gone, all others are unchanged; the receipt lists key and revision per mutation; index rows, events and invocations are those of the batch, and nothing else changed. |
| `CommitEffects.CommitFails` | crates/runku-data-postgres/src/adapter.rs:710-783 | A new operation that is not applied conflicts with the state, unless it names a revision beyond the limit; only another scope is answered as not found. |
| `CommitEffects.LastMutationDecides` | crates/runku-data-postgres/src/adapter.rs:874-942 | In every history a document is what the last commit that mutated it made of it: the value and time of that upsert, or absent. |
| `CommitEffects.StoredWasWritten` | crates/runku-data-postgres/src/adapter.rs:874-942 | Every stored document was written by some commit of the history, which no later commit mutated. |
| `CommitEffects.LastIndexMutationDecides` | crates/runku-data-postgres/src/adapter.rs:944-986 | The same for index rows. |
| `CommitEffects.CommittedEventStays` | crates/runku-data-postgres/src/adapter.rs:753-763 | Every event of a commit stays in the outbox with its payload and the sequence of that commit. |
| `PostgresStore.Adapter.ClaimOutbox` | crates/runku-data-postgres/src/adapter.rs:285-399 | A claim equals the atomic step: lease, next events in order, remembered position, and release when there are none. |
| `PostgresStore.Adapter.SelectEvents` | crates/runku-data-postgres/src/adapter.rs:343-359 | The events beyond the cursor in order, up to the limit. |
| `PostgresStore.Adapter.AckOutbox` | crates/runku-data-postgres/src/adapter.rs:401-438 | An acknowledgement equals the atomic step and is refused without effect otherwise. |
| `OutboxEffects.ClaimMeans` | crates/runku-data-postgres/src/adapter.rs:285-399 | A claim is refused exactly for its limits or for another worker's running lease; otherwise it hands out the first rows after the cursor in order, with their payloads, up to the limit, and leaves the consumer leased up to the last of them, or free when there are none. |
| `OutboxEffects.AcknowledgementMeans` | crates/runku-data-postgres/src/adapter.rs:401-438 | Exactly the worker of the current lease acknowledges, and exactly what it claimed; the cursor moves there, the lease ends, and no other consumer changes. |
| `PostgresStore.Adapter.ClaimDue` | crates/runku-data-postgres/src/adapter.rs:440-480 | The claim is the atomic step: the earliest due rows are leased and handed back as they were leased. |
| `PostgresStore.Adapter.CompleteScheduled` | crates/runku-data-postgres/src/adapter.rs:482-510 | A completion equals the atomic step, whose effect is said by `ScheduleEffects.CompletionIsRecorded`, and is refused without effect otherwise. |
| `PostgresStore.Adapter.CancelScheduled` | crates/runku-data-postgres/src/adapter.rs:512-553 | A cancellation equals the atomic step, with its four answers. |
| `ScheduleEffects.ClaimLeases` | crates/runku-data-postgres/src/adapter.rs:440-480 | A claim hands out only invocations whose time has come and whose lease, if any, ran out; each is then running under a new generation with one attempt more, and no other invocation changes. |
| `ScheduleEffects.RipeIsClaimed` | crates/runku-data-postgres/src/adapter.rs:453-476 | An invocation whose time has come, without a running lease and not locked by another transaction, is handed out, unless the claim is full of invocations that precede it by time and id. |
| `ScheduleEffects.CompletionIsRecorded` | crates/runku-data-postgres/src/adapter.rs:988-1016 | Exactly the holder of the lease completes: success leaves the invocation succeeded without an error, failure failed with its code, a retry pending at the requested time with its code; the lease ends and no other invocation changes. |
| `ScheduleEffects.RetriedRowWaits` | crates/runku-data-postgres/src/adapter.rs:988-1016 | Over every run no claim before the requested time takes a retried invocation. |
| `ScheduleEffects.CancellationIsAnswered` | crates/runku-data-postgres/src/adapter.rs:512-553 | Each answer of a cancellation belongs to one state of the invocation: only a pending one is cancelled, and nothing changes otherwise. |
| `Journal.HistoryIsDense` | crates/runku-data-postgres/src/adapter.rs:722-734 | In every reachable state the journal's sequences are exactly 1 up to the Environment's, each used once. |
| `Journal.JournalIsPermanent` | crates/runku-data-postgres/src/adapter.rs:729-748 | Journal entries never change and the sequence never falls. |
| `Journal.ReplayIsExact` | crates/runku-data-postgres/src/adapter.rs:811-872 | After a commit, at any later time, the same content under its operation id returns the original sequence and revisions and changes nothing; any other content is refused. |
| `Schedules.HistoryRowsValid` | crates/runku-data-postgres/src/adapter.rs:764-777 | In every reachable state a lease is present exactly while running and attempts equals the lease generation. |
| `Schedules.TerminalForever` | crates/runku-data-postgres/src/adapter.rs:988-1016 | A succeeded, failed or cancelled invocation never changes again. |
| `Schedules.SupersededNeverCompletes` | crates/runku-data-postgres/src/adapter.rs:988-1016 | A superseded lease generation can never complete. |
| `Schedules.LeaseIsExclusive` | crates/runku-data-postgres/src/adapter.rs:453-470 | Under a clock that does not go back, no claim before the deadline changes a running invocation. |
| `Schedules.ClaimTakesEarliest` | crates/runku-data-postgres/src/adapter.rs:453-476 | A due invocation is claimed with a fresh generation, or the claim is full and everything claimed precedes it. |
| `Outbox.Delivery` | crates/runku-data-postgres/src/adapter.rs:285-438 | At every moment of every history the concatenation of a consumer's acknowledged batches is the outbox in (sequence, event) order up to its cursor, and a lease is held exactly while a batch is claimed. |
| `Outbox.ConsumerMovesForward` | crates/runku-data-postgres/src/adapter.rs:285-438 | Cursor and generation only grow, and a lease given up comes back only with a new generation. |
| `Outbox.FencedForever` | crates/runku-data-postgres/src/adapter.rs:401-438 | A superseded or already acknowledged generation can never acknowledge. |
| `SerialOrder.AssertedReadIsExact` | crates/runku-data-postgres/src/adapter.rs:785-809 | An asserted revision that still holds stands for the observed record if and only if the document was never deleted in between. |
| `SerialOrder.RevisionDeterminesRecord` | crates/runku-data-postgres/src/adapter.rs:874-942 | A document never deleted only gains revisions, and an unchanged revision is an unchanged record. |
| `SerialOrder.RecreationPasses` | crates/runku-data-postgres/src/adapter.rs:891-900 | Two valid operations that delete and re-create a document at revision 1 let the assertion of an earlier read pass although the record differs. |
| `SerialOrder.RecomputedBatch` | crates/runku-data-postgres/src/adapter.rs:710-809 | A committed mutation recomputed on the state it committed to gives the same batch. |
| `SerialOrder.SerialEquivalence` | crates/runku-data-postgres/src/adapter.rs:710-783 | A history of mutations computed at snapshots is, state by state, the one in which they run alone in commit order. |
| `CronSchedule.CalendarAdvances` | crates/runku-releases/src/cron.rs:259-276 | The closed form steps through the proleptic Gregorian calendar day by day, for every day before and after the epoch. |
| `CronSchedule.CivilDatesAreValid` | crates/runku-releases/src/cron.rs:259-276 | It always yields a date of that calendar. |
| `CronSchedule.EpochDate` | crates/runku-releases/src/cron.rs:259-276 | Day zero is the first of January 1970. |
| `CronSchedule.NextAfterIsLeast` | crates/runku-releases/src/cron.rs:164-179 | The next tick is the least matching whole minute strictly after the given time; without one, nothing up to the horizon matches. |
| `CronSchedule.TimesAreValid` | crates/runku-releases/src/cron.rs:164-202 | Every parsed schedule provides what the Cron protocol needs: its next tick is the least later time. |
| `CronSchedule.SearchMinutes` | crates/runku-releases/src/cron.rs:166-177 | The bounded loop finds the first match of its range. |
| `CronSchedule.ComputeNextAfter` | crates/runku-releases/src/cron.rs:164-179 | The search as it runs equals the specified next tick, the least later time at which the schedule occurs; `CronMeaning` says which times those are. |
| `CronMeaning.CalendarIsClosedForm` | crates/runku-releases/src/cron.rs:181-203 | The days of the calendar, stepped one by one in both directions from Thursday the first of January 1970, have the date and weekday that the closed form computes, for every day. |
| `CronMeaning.OccursOnCalendar` | crates/runku-releases/src/cron.rs:181-203 | A schedule occurs exactly at its minutes and hours of the days whose month it lists and whose day of month and weekday it admits, by that calendar. |
| `CronMeaning.OneWeekday` | crates/runku-releases/src/cron.rs:187-203 | Restricted to one weekday, it occurs on exactly the days of that weekday. |
| `CronMeaning.OneDate` | crates/runku-releases/src/cron.rs:181-203 | With one minute, hour, day and month, it occurs exactly then. |
| `CronMeaning.BothDayFields` | crates/runku-releases/src/cron.rs:190-202 | Restricting both day fields admits the days of either. |
| `CronHorizon.SearchIsComplete` | crates/runku-releases/src/cron.rs:164-179 | The search gives up if and only if no later time that fits a timestamp occurs: the bound of eight leap-sized years hides nothing. |
| `Cron.CommandPreimageInjective` | crates/runku-cron/src/model.rs:262-304 | In one Environment, commands with equal digest pre-images are the same command. |
| `Cron.TickIdentityInjective` | crates/runku-cron/src/materializer.rs:295-310 | The identity bytes determine Environment, name, revision and tick. |
| `Cron.TickKeyInjective` | crates/runku-cron/src/materializer.rs:312-318 | The idempotency key determines name, revision and tick. |
| `Cron.TickKey` | crates/runku-cron/src/materializer.rs:312-318 | The key is never empty and always far below the length limit, so that check never fails. |
| `CronRepository.ValidateSnapshot` | crates/runku-cron/src/model.rs:110-134 | The snapshot check answers exactly whether names are strictly ordered, rows valid and not younger than the repository, and no active name is disabled. |
| `CronHistory.EverySnapshotIsValid` | crates/runku-cron/src/adapter.rs:577-614 | Every state reachable by commands, claims and completions passes the snapshot check. |
| `CronHistory.DisabledStaysInactive` | crates/runku-cron/src/adapter.rs:426-448 | A disabled definition stays inactive through every later activation until it is explicitly enabled. |
| `CronHistory.InsertAllIsExact` | crates/runku-cron/src/adapter.rs:417-449 | Activating a manifest yields exactly its definitions that are not disabled, each made under the new revision; it fails only for a schedule without a next tick. |
| `CronHistory.CommandReplayIsExact` | crates/runku-cron/src/adapter.rs:405-411 | Once a command took effect, its operation id answers the same command with the same result and refuses any other, at any later time. |
| `CronHistory.ClaimedRows` | crates/runku-cron/src/adapter.rs:616-642 | A claim leases exactly the listed claimable rows, returns each once as leased and leaves the others. |
| `CronHistory.ClaimTakesEarliest` | crates/runku-cron/src/adapter.rs:627-642 | A claimable activation is leased with a fresh generation, or the claim is full and everything claimed precedes it by tick and name. |
| `CronAdapter.Repository.Apply` | crates/runku-cron/src/adapter.rs:229-258 | Validation, digest and transaction amount to the atomic command; an error changes nothing. |
| `CronAdapter.Repository.ApplyInner` | crates/runku-cron/src/adapter.rs:381-527 | Journal lookup, compare-and-set, change, revision and journal row amount to the atomic command, whose effect is said by `CronEffects.CommandMeans`, with rollback on error. |
| `CronEffects.CommandMeans` | crates/runku-cron/src/adapter.rs:381-527 | A new command takes effect if and only if it expects the present revision, there is room for the next and every schedule it starts has a next tick; then it does what it says and no more: activation leaves exactly the declared definitions that are not disabled, each started anew, deactivation none, enabling and disabling change one definition; revision, count and journal row are the answer. |
| `CronEffects.DisablingLasts` | crates/runku-cron/src/adapter.rs:426-503 | In every run a definition that a command disables is inactive from then on, whatever is activated, until a command enables it. |
| `CronEffects.EnablingActivates` | crates/runku-cron/src/adapter.rs:470-492 | Enabling makes it active at once and leaves every other row as it was. |
| `CronClaims.ValidationMeans` | crates/runku-cron/src/model.rs:181-240 | A command passes the checks if and only if its time is not negative and its manifest decodes, belongs to the project, is the pinned Release's own, and declares what the command is about. |
| `CronClaims.RowsHaveOrigins` | crates/runku-cron/src/adapter.rs:381-575 | In every run every active row was started by a command that took effect: it pins that command's code, which for a Release is the manifest's own, and runs what that manifest, of this project, declares under the name. |
| `CronAdapter.Repository.ActivateAll` | crates/runku-cron/src/adapter.rs:425-449 | Deleting all rows and inserting the enabled definitions one by one. |
| `CronAdapter.Repository.InsertActivation` | crates/runku-cron/src/adapter.rs:543-575 | One fresh row at the next tick, or the error and no change. |
| `CronAdapter.FindDefinition` | crates/runku-cron/src/adapter.rs:478-481 | The declaration of a name in a manifest. |
| `CronAdapter.Repository.ClaimDue` | crates/runku-cron/src/adapter.rs:616-642 | The claim loop equals the atomic claim of the first due rows by tick and name. |
| `CronAdapter.Repository.CompleteTick` | crates/runku-cron/src/adapter.rs:645-661 | A completion advances exactly the row held by worker, generation and tick, and is refused without effect otherwise. |
| `CronClaims.ClaimMeans` | crates/runku-cron/src/adapter.rs:616-642 | A claim is refused exactly for its arguments; otherwise it leases the earliest free rows, by tick and name, under a new generation, and changes no other row. |
| `CronClaims.ClaimsAreOrdered` | crates/runku-cron/src/adapter.rs:627-642 | Claims come in the order of their ticks and names, no more than asked for. |
| `CronClaims.CompletionMeans` | crates/runku-cron/src/adapter.rs:645-661 | Exactly the holder of worker, generation and tick moves the row on; its lease ends, its epoch is kept and no other row changes. |
| `CronAdapter.Repository.Snapshot` | crates/runku-cron/src/adapter.rs:577-614 | A snapshot lists all rows in name order and is refused exactly when it is not valid. |
| `CronMachine.CronIdsDistinguish` | crates/runku-cron/src/materializer.rs:270-318 | Distinct ticks get distinct operations, invocations and keys, and the store admits the batch of every tick: what the theorems about the protocol ask of the derived identities. |
| `CronExactlyOnce.StepKeeps` | crates/runku-cron/src/materializer.rs:159-253 | Every step of the two-store protocol other than a completion across epochs keeps the invariant that ties rows, polls under way, stored ticks and journal to the epochs; nothing is asked of claims. |
| `CronExactlyOnce.TicksAreExact` | crates/runku-cron/src/materializer.rs:159-253 | In every interleaving of workers, crashes, lease expiry, replays and re-activations in which no completion crosses epochs, the ticks stored for an epoch are exactly its schedule times from the first up to the cursor, plus at most the cursor's own, and the cursor is such a time. |
| `CronExactlyOnce.CompletionIsExact` | crates/runku-cron/src/adapter.rs:645-661 | A completion keeps every epoch exact if and only if it does not cross: it does not move the row of another epoch whose own tick is unstored or whose next tick is another. |
| `CronExactlyOnce.ExactIffNoCrossing` | crates/runku-cron/src/adapter.rs:645-661 | A run keeps every epoch exact at all times if and only if none of its completions crosses epochs; claims may overlap freely. |
| `CronFences.ClaimFencesExact` | crates/runku-cron/src/adapter.rs:616-642 | A claim leaves every unfinished claim with nothing to complete but its own epoch if and only if it is unmixed: no unfinished claim of the worker has the generation and tick that the new lease gets in another epoch. |
| `CronFences.UnmixedRunsAreRuns` | crates/runku-cron/src/adapter.rs:616-661 | In a run whose claims are unmixed no completion ever crosses epochs, so all of the above holds. |
| `CronFences.IdleRunsAreRuns` | crates/runku-cron/src/adapter.rs:616-661 | So does a run in which each claim is made by a worker without a poll under way. |
| `CronFences.MixedClaimSkipsTick` | crates/runku-cron/src/adapter.rs:645-661 | From every state of the protocol: a claim mixed with the first claim of another poll of its worker, while the row's own tick is not stored, lets that poll's commit and completion move the cursor past a tick never stored. |
| `CronExactlyOnce.TickIsStoredOnce` | crates/runku-cron/src/materializer.rs:191-211 | A stored tick belongs to an epoch and carries its code, function and arguments, and no other row carries its key. |
| `CronExactlyOnce.TickCommitSucceeds` | crates/runku-cron/src/materializer.rs:202-218 | The commit of a claimed tick never conflicts, and is a replay exactly when the tick is stored already. |
| `CronExactlyOnce.EpochsMoveForward` | crates/runku-cron/src/adapter.rs:655-661 | An epoch keeps its first tick and what it runs, and its cursor never moves back. |
| `CronExactlyOnce.CursorIsNextTick` | crates/runku-cron/src/adapter.rs:543-575 | The row of an active definition is the present state of its epoch. |
| `CronCounterexample.SharedWorkerSkipsTick` | crates/runku-cron/src/adapter.rs:645-661 | For every schedule that ticks twice, two valid activations with a claim in between reach a state in which an overlapping claim of the same worker loses a tick: the completion does not look at the activation revision. |
| `CronCounterexample.EveryMinuteCase` | crates/runku-cron/src/adapter.rs:544-575 | In every Environment a definition with the expression of five stars, in a manifest that passes validation, is such a case. |
| `CronMaterializer.Materializer.PollAt` | crates/runku-cron/src/materializer.rs:159-253 | A poll without interruption is one claim followed by the commit and completion of each claim in turn; it returns what it counted, and an error ends it where it happened. |
| `CronMaterializer.Materializer.ProcessOne` | crates/runku-cron/src/materializer.rs:189-251 | One claim: commit, next tick, completion, with a lost lease told apart from errors. |
| `CronMaterializer.Materializer.CommitTick` | crates/runku-cron/src/materializer.rs:191-211 | The tick batch is committed as the atomic step of the store, and the answer says whether it was a replay. |
| `CronMaterializer.Materializer.FillTickIdentity` | crates/runku-cron/src/materializer.rs:295-310 | The byte vector filled piece by piece is the identity of the tick. |
| `CronMaterializer.PollCounts` | crates/runku-cron/src/materializer.rs:185-252 | Every claim is counted once as materialized or replayed and once as completed or lost. |
| `PollEffects.ResultMeans` | crates/runku-cron/src/materializer.rs:189-251 | A claim counts as materialized exactly when its tick was not stored and now waits, unattempted, for the instant of the tick; as completed exactly when the row moved to the next tick of its schedule; otherwise store or repository are as they were. |
| `PollEffects.PollStoresWhatItReports` | crates/runku-cron/src/materializer.rs:159-253 | A poll stores exactly as many invocations as it reports materialized. |
| `CronMaterializer.PollAdvancesAll` | crates/runku-cron/src/materializer.rs:189-251 | A poll that holds its leases and that nobody interrupts completes every claim left to it and loses no lease. |
| `CronMaterializer.UninterruptedPollCompletes` | crates/runku-cron/src/materializer.rs:159-253 | From its own claim on, in any state of the protocol, a poll that nobody interrupts stores the tick of every activation it claimed, moves each to its next tick, counts all as completed and loses no lease. |
| `CronMaterializer.PollCompletes` | crates/runku-cron/src/materializer.rs:159-253 | The same for the poll method: when it starts, it succeeds and completes all it claimed. |
| `BuildGraph.CollectReachable` | crates/runku-build/src/declarative.rs:912-929 | On every module graph, cyclic or not, the collection succeeds exactly when no reachable module is missing and then holds exactly the modules reachable from the entry. |
| `BuildGraph.Collect` | crates/runku-build/src/declarative.rs:912-929 | One recursive call: what it adds is reachable, present and closed under imports; it ends because every call visits a new module. |
| `BuildGraph.CheckPolicy` | crates/runku-build/src/declarative.rs:839-860 | An entry passes exactly when every path leads to a present module that does not offend: for a Safe entry no Node module and no external import, for a Node entry no other Safe module with Functions. |
| `BuildGraph.SafeIsHereditary` | crates/runku-build/src/declarative.rs:847-860 | Whatever a passing Safe entry reaches is Safe and passes as an entry itself. |

## Left out

- SQL text, connection pools, isolation failures, retries, migrations and telemetry: a transaction is one atomic step or has no effect.
- The SQLite adapter of the store: its source is not part of this model.
- SHA-256, ULID text, the truncation of derived identifiers to 128 bits, the bytes of stored values and index keys, and JSON: opaque or taken as injective.
- Agreement of index rows with documents, and range scans: the store checks only revisions at a put, and batches assert only point reads.
- Overflow of the commit sequence and of lease generations beyond 63 bits, except where the code compares a caller's number.
- The comparison of the function surface alone, the methods that append to a batch under construction, document lookup by table in a schema, and metadata of activations and records that no decision reads: they would only add easy members.
- Parsing of schedule expressions and the decoding of manifests: a definition carries the times of its schedule, and the decoder is a parameter.
- The functions of a manifest that Cron definitions point to, and configuration limits of the materializer beyond those its calls check.
- Applications that choose operation ids, invocation ids or idempotency keys of ticks: excluded by assumption.
- Transpilation, bundling, declaration text, publishing and the command line.
