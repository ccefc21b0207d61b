# MyBoot: a verified model of the boot-decision core

MyBoot is a UEFI boot manager. Between firmware hand-over and the jump into a kernel it decides what is
installed, what is bootable, what to try, in which order, and what to remember for the next boot. This project
models that decision core in Dafny and proves what the program promises about it, for every graph, every input
buffer and every run:

- a failed boot never dead-ends: once an entry is selected, every run of the transaction ends confirmed or in
  recovery; a transaction with nothing bootable stays idle; every accepted call is a step of the TLA+ specification;
- across any number of boots, power cuts between any two writes, failed hand-offs and blessings, the last-good
  variable only ever names an entry whose marker was armed after its charge and then blessed;
- discovery merges, filters and groups without losing an entry, on string keys whose collisions are characterised
  exactly, and every entry of the graph holds, field by field, what its descriptions say;
- the entry chosen by default is what the strategy asks of the stored and the configured entry, or the first of the
  healthiest, and control is handed over in that order;
- the readers and writers of on-disk and in-memory formats (load options, boot order, markers, JSON, the TOML
  subset, GPT, E820, the zero page) are inverse to each other exactly where the model says they are, and their tables
  and offsets are those of the formats' own standards.

`dafny verify dfyconfig.toml` checks everything. One module per component:

| module | component |
|---|---|
| `Ids`, `Decimal` | stable entry ids and role slugs |
| `Collisions` | which attributes share an id, exactly |
| `Graph`, `Sorting` | the boot graph: lookup, annotation, pruning, canonical order |
| `Discovery` | raw entries merged, filtered and grouped into one graph |
| `Twins`, `Survivors` | when the redundancy filter is right, exactly; which discoveries survive |
| `Descriptions` | what each entry of the graph holds, said of the raw discoveries alone |
| `Policy` | ranking, the default decision, candidate order, health assessment |
| `Choices` | what should be decided, said of store, configuration and health alone |
| `Transaction` | the boot transaction as a class and as a transition relation |
| `Specification` | the TLA+ module, and the refinement of the transaction to it |
| `Journal`, `Store` | the order of charges, writes and hand-offs; the variable store, the attempt marker, blessing |
| `CrossBoot`, `PowerCut` | the protocol across boots; the records it leaves, and power cuts between any two of them |
| `Pipeline` | one boot: discovery to graph, reconcile the old marker, decide, try candidates until one takes over |
| `Reconcile`, `LoadOption` | boot-order drift repair; `Boot####` and `BootOrder` payloads, UTF-16 |
| `MemoryMap`, `BootParams` | the E820 table; the Linux zero page |
| `MemoryCount` | the table against any firmware map, address by address |
| `Gpt`, `Bytes` | the partition-table walk; little-endian reads of untrusted buffers |
| `Json`, `JsonGrammar` | the recursive-descent reader; the concrete syntax it accepts |
| `JsonStandard` | the texts of RFC 8259, and which of them the reader accepts |
| `JsonTrees` | which of them, objects included, it reads as the tree they stand for |
| `JsonAccepted` | which numbers are accepted, and which accepted texts are texts of RFC 8259 |
| `Toml` | the configuration reader, and the printing it is inverse to |
| `Utf8`, `Basics` | byte form of strings; results, machine integers, sequence facts |

Strings are sequences of Unicode scalar values and bytes are integers below 256. Fixed-width arithmetic is explicit:
load-option lengths, tries, logical block addresses and E820 sizes are bounded types, and the E820 sums wrap
at 64 bits as the program's do. Where the program updates state in place the model has a class with the same fields,
or a method with the same loop, tied by its contract to a function of the old state; what the program promises
is then proved of that function.

## What the proofs found

- **The specification's fallback is not the code's.** The TLA+ `RollBack` picks its target with `CHOOSE`, a
  function of the bootable set alone. The code also looks at which entry has just failed. Read with the choice
  left open, every run of the code takes only steps of the specification (`Specification.RefinesRun`), though it
  starts in the specification's initial state only when no healthy entry is stored as last good
  (`Specification.RefinesInit`). Read with a fixed choice, every choice is wrong in a run the code can take, unless
  entries have a single try or at most one is healthy (`Specification.PredictableExactly`).
- **A blessing does not show that the blessed entry ran.** An unconfirmed marker survives a hand-off that returns,
  so whatever runs after the boot manager gives up can bless an entry that never took over
  (`CrossBoot.FailedHandOffCredited`). It did take over exactly when the boot manager did not give up in between
  (`CrossBoot.CreditedRan`).
- **Attempts are not charged across boots.** `load_tries` and `persist_tries` do nothing, so every attempt starts
  from the full budget (`Pipeline.PrepareHandOff`), and however many boots in a row go unblessed, each decides as the
  first did (`Pipeline.UnblessedRepeats`). Comments at `crates/engine/src/pipeline.rs:182-184` and
  `crates/transaction/src/lib.rs:7-9` say otherwise; the model follows the code.
- **E820 coalescing loses memory when a stretch goes round the address space**: a region listed right after a
  stretch of its kind that ends 2^64 bytes beyond the region's start, or a stretch, or one descriptor, of 2^64 bytes.
  `MemoryCount.TableFaithful` proves for every list of descriptors that this is the only way to lose or invent memory,
  counting how often each address is described; `MemoryMap.TableFaithful` proves it of coverage alone, for descriptors inside the address
  space. `MemoryCount.KernelAgrees` adds the limit of 128 entries.
- **JSON strings beyond ASCII are misread**: each UTF-8 byte becomes a character of its own, and surrogate pairs
  become two replacement characters. `\b` and `\f` are refused; raw control characters and numbers such as `00` are
  accepted. `JsonGrammar` says exactly what is accepted, `JsonAccepted` which of that is RFC 8259, and `JsonTrees`
  which texts of the standard are read as the tree they stand for.
- **A configuration string with `#` after an odd number of quotes is cut**, because comment stripping does not
  know escapes. `Toml.DocumentRoundTrip` proves that this is the only obstacle to a round trip of a printable
  document.
- **A description with an embedded NUL does not survive a load option** (`LoadOption.DecodeAfterEncode`).
- **Ids can collide**, because separators are not escaped. Which attributes share an id with separator-free ones,
  and which share one with anything else, is decided by two tests on role, loader and volume
  (`Collisions.PlainCollisionExactly`, `Collisions.AmbiguousExactly`); a separator alone is not enough, since
  loaders and volumes are lower-cased and role names are not.
- **The redundancy filter misses and misjudges when there is an `@`.** A genuine volume-less duplicate is kept, and
  a different entry is dropped, whenever the role or loader holds one (`Twins.GenuineTwinExactly`,
  `Twins.ForeignTwin`); `Twins.ReliableExactly` is the exact condition for the test to be right about everything.
- The comment at `crates/health/src/lib.rs:35` calls an entry with a missing initrd unbootable; the code, and the
  model, only degrade it.

## Model

| member | source | states |
|---|---|---|
| `Transaction.Transaction.constructor` | crates/transaction/src/lib.rs:67-74 | a new transaction is idle with the persisted budgets, and its maximum is at least one |
| `Transaction.Transaction.Select` | crates/transaction/src/lib.rs:90-96 | accepted only from idle and only for a bootable entry; a refusal names its reason and changes nothing |
| `Transaction.Transaction.Validate` | crates/transaction/src/lib.rs:99-105 | rechecks that the selected entry is still bootable before anything is charged |
| `Transaction.Transaction.Stage` | crates/transaction/src/lib.rs:109-116 | charges one attempt of the selected entry, reports the charge for the engine to persist, and enters it in the journal in that very step |
| `Transaction.Transaction.Launch` | crates/transaction/src/lib.rs:120-124 | only a staged, hence charged, transaction can be launched |
| `Transaction.Transaction.ConfirmSuccess` | crates/transaction/src/lib.rs:128-137 | restores the budget, commits the entry, makes it last good and reports that |
| `Transaction.Transaction.DetectFailure` | crates/transaction/src/lib.rs:140-144 | only a launched attempt can fail; budgets stay as charged |
| `Transaction.Transaction.Resolve` | crates/transaction/src/lib.rs:151-164 | rolls back to the fallback it returns, or recovers when there is none |
| `Transaction.FallbackSound` | crates/transaction/src/lib.rs:173-189 | no fallback if and only if no entry is bootable; a fallback is always bootable |
| `Transaction.FallbackOrder` | crates/transaction/src/lib.rs:166-189 | last good first, then the first other bootable entry in graph order; the failed entry is retried only when it is last good or the one bootable entry |
| `Transaction.StepInv` | crates/transaction/src/lib.rs:90-164 | every accepted call keeps the transaction invariant: selected entries exist and are healthy, and committed and last good agree with the phase |
| `Transaction.StepMeasure` | crates/transaction/src/lib.rs:90-164 | every accepted call strictly decreases five times the remaining budget of the distinct ids plus a phase rank |
| `Transaction.RunBounded` | crates/transaction/src/lib.rs:90-164 | no run of accepted calls is longer than the measure of its first state |
| `Transaction.StuckExactly` | crates/transaction/src/lib.rs:90-164 | no call is accepted if and only if the transaction is resolved, or idle with nothing bootable |
| `Transaction.EventuallyResolved` | spec/tla/BootTransaction.tla:47-51 | once something is selected, every run that can go no further has ended confirmed or in recovery, within the stated number of calls |
| `Transaction.NoDeadEnd` | spec/tla/BootTransaction.tla:46-50 | from failed, resolving is always accepted and recovers if and only if nothing is bootable |
| `Transaction.AttemptsConserved` | crates/transaction/src/lib.rs:109-117 | until success, charges emitted plus tries left equal the initial budget, entry by entry |
| `Transaction.LaunchesCharged` | crates/transaction/src/lib.rs:109-124 | every launch in a run was paid for by a charge of the same entry |
| `Transaction.StageCharges` | crates/transaction/src/lib.rs:112-114 | the saturating subtraction never saturates: a charge always takes exactly one |
| `Transaction.LaunchesWithinBudget` | crates/transaction/src/lib.rs:83-117 | from a fresh transaction no entry is launched more often than its persisted budget |
| `Transaction.Refusals` | crates/transaction/src/lib.rs:90-164 | over any graph, a call is refused if and only if it is out of its phase, nothing was selected, or what it selects or validates cannot be booted, each with its own reason |
| `Transaction.EffectsNamed` | crates/transaction/src/lib.rs:109-164 | exactly staging and confirming ask for something to be persisted, always of the selected entry; confirming alone changes last good, and gives back every try |
| `Specification.RefinesInit` | spec/tla/BootTransaction.tla:15-17 | a new transaction is an initial state of the specification if and only if no healthy entry is stored as last good and every healthy entry has all its tries |
| `Specification.RefinesNext` | spec/tla/BootTransaction.tla:18-41 | every accepted call, over any graph, is one of the specification's actions |
| `Specification.RefinesRun` | spec/tla/BootTransaction.tla:10-45 | every run, from any budgets within bounds, is a sequence of typed states joined by steps of the specification, from any state that satisfies the invariant |
| `Specification.ChoiceExactly` | spec/tla/BootTransaction.tla:34-37 | in a given state, a fixed choice predicts the rollback of every entry that could have failed if and only if last good is bootable or one entry is |
| `Specification.ChoiceDeparts` | crates/transaction/src/lib.rs:166-189 | with two healthy entries and a second try, one failing run from the start proves any fixed choice function wrong |
| `Specification.PredictableExactly` | spec/tla/BootTransaction.tla:34-37 | over all runs from the start, some fixed choice function predicts every rollback if and only if entries have a single try or at most one is healthy |
| `Specification.RetryOnlyAlone` | crates/transaction/src/lib.rs:166-189 | a failed entry that is not last good is retried if and only if it is the only bootable one |
| `Store.VarStore.Set` | crates/ports/src/mock.rs:29-31 | writes one variable of one namespace and nothing else, and enters the write in the journal |
| `Store.VarStore.Delete` | crates/ports/src/mock.rs:32-34 | removes one variable, succeeding when it is absent, and enters that in the journal |
| `Store.IdRoundTrip` | crates/persistence/src/nvram.rs:16-26 | a stored id reads back as itself |
| `Store.MarkerRoundTrip` | crates/transaction/src/marker.rs:30-45 | decoding an encoded marker gives it back, whatever text the id holds |
| `Store.MarkerSaid` | crates/transaction/src/marker.rs:39-43 | any text with a flag, a tab and an id is read as the marker of that id, confirmed if and only if the flag is `1` |
| `Store.MarkerReadable` | crates/transaction/src/marker.rs:39-43 | nothing else is read as a marker |
| `Store.MarkerTexts` | crates/transaction/src/marker.rs:30-36 | the bytes written are `0` or `1`, a tab and the id |
| `Store.Arm` | crates/transaction/src/marker.rs:47-50 | leaves the unconfirmed marker of this entry and touches no other variable |
| `Store.Clear` | crates/transaction/src/marker.rs:63-65 | removes the marker and touches no other variable |
| `Store.Bless` | host-cli/src/commands/bless.rs:13-40 | rewrites the marker and nothing else, or fails leaving the store alone |
| `Store.BlessConfirms` | host-cli/src/commands/bless.rs:25-33 | succeeds if and only if the marker is readable and names an entry; the result is that entry's confirmed marker |
| `Store.BlessRefused` | host-cli/src/commands/bless.rs:25-33 | which of the three errors, exactly: no marker, bytes that are no text, or a text that names no entry |
| `Store.BlessFlips` | host-cli/src/commands/bless.rs:24-35 | on a marker the boot manager wrote, exactly the encoding of that marker confirmed |
| `CrossBoot.HistoryInv` | crates/engine/src/pipeline.rs:119-188 | over every history, a marker present was armed right after its charge and not rewritten since, and if confirmed was blessed before the next reset |
| `CrossBoot.Succession` | crates/engine/src/pipeline.rs:119-188 | in every history, which event may follow which: a charge only leads to its own marker, that only to a hand-off, a reset may follow anything |
| `CrossBoot.LastGoodProvenance` | crates/engine/src/pipeline.rs:176-188 | the last-good variable is its initial value or names an entry so armed, blessed, and then recorded by an earlier boot |
| `CrossBoot.CreditedWithin` | crates/engine/src/pipeline.rs:152-155 | from a store without a marker, the charge, the arming and the blessing all lie inside the history |
| `CrossBoot.OnlyConfirmedRecorded` | crates/engine/src/pipeline.rs:178-184 | an unconfirmed marker never changes the last-good variable |
| `CrossBoot.CreditedRan` | crates/engine/src/pipeline.rs:152-171 | a blessed entry took over if and only if the boot manager did not give up between arming and blessing |
| `CrossBoot.FailedHandOffCredited` | crates/engine/src/pipeline.rs:158-171 | a history in which the credited entry's only hand-off failed |
| `PowerCut.TraceShows` | crates/engine/src/pipeline.rs:119-188 | replaying the records a history leaves gives exactly the marker and the last-good variable the history ends with |
| `PowerCut.TraceCut` | crates/engine/src/pipeline.rs:119-188 | every point of the journal is reached by some prefix of the history |
| `PowerCut.PowerCutSafe` | crates/engine/src/pipeline.rs:119-188 | with power cut after any number of records, the store is one a prefix of the protocol leaves and its last-good variable is still earned |
| `Pipeline.PrepareHandOff` | crates/engine/src/pipeline.rs:145-156 | a bootable candidate is charged from a full budget, then armed, in this order; any other is skipped without a record |
| `Pipeline.AttemptOne` | crates/engine/src/pipeline.rs:133-166 | an unplannable candidate leaves no record; otherwise charge, marker and hand-off happen in this order, with its own unconfirmed marker in the store |
| `Pipeline.AttemptCandidates` | crates/engine/src/pipeline.rs:128-171 | for any outcome of each hand-off, the hand-offs are the eligible candidates in order up to the first that takes over; the error is returned only when all failed; what was done is, record by record, a run of the protocol that arms just those entries |
| `Pipeline.HandOffsDistinct` | crates/engine/src/pipeline.rs:119-126 | with unique ids no entry is handed control twice in one boot, and exactly the eligible ones are listed |
| `Pipeline.ReconcilePreviousBoot` | crates/engine/src/pipeline.rs:176-188 | commits a confirmed marker before clearing it, drops an unconfirmed one; its writes, in order, are those of the protocol |
| `Pipeline.Boot` | crates/engine/src/pipeline.rs:99-171 | charges, writes and hand-offs of one boot are, record by record, those of a run of the cross-boot protocol; on the store the previous marker leaves, the right choice is made from last-good variable, configured default and health (`Choices.RightChoice`) |
| `Pipeline.HistoryRight` | crates/engine/src/pipeline.rs:196-202 | a configured default that is bootable is chosen under its own strategy, or when no last-good id can be read; last good comes first under the other strategy, pending marker or not; whatever is passed over is named and the first of the healthiest is chosen; none if and only if no entry is healthy or degraded |
| `Pipeline.ReadyExactly` | crates/engine/src/pipeline.rs:176-188 | the store decided on, from the marker's bytes: a confirmed marker moves to last good, any other readable one is dropped, an unreadable one stays |
| `Pipeline.HandOffOrder` | crates/engine/src/pipeline.rs:119-126 | control goes to the chosen entry first, when it can be launched, and then to no degraded entry before a healthy one |
| `Pipeline.BootCutSafe` | crates/engine/src/pipeline.rs:99-171 | a boot cut short after any number of its records, in any life of the machine so far, leaves an earned last-good variable and a store the next boot can start from |
| `Pipeline.BlessedPreferred` | crates/engine/src/pipeline.rs:99-110 | an entry that was blessed is the default of the next boot under the last-good strategy, as long as it is bootable |
| `Pipeline.UnblessedRepeats` | crates/transaction/src/lib.rs:7-9 | over one graph, any number of boots in a row that nothing blesses decide as the first did: a failed boot never makes a later one roll back |
| `Pipeline.PrepareGraph` | crates/engine/src/pipeline.rs:56-75 | the discovered, assessed graph without the boot manager itself has unique ids, and each entry is what its descriptions say, with the verdict its files and last result deserve |
| `Pipeline.Run` | crates/engine/src/pipeline.rs:30-172 | from raw discoveries to the last hand-off: every entry is what was discovered, the choice is right for what the store and the configuration say, no entry is handed control twice, the chosen one is first and healthy ones follow before degraded ones, and once the menu has made a choice the error is returned only after every bootable, plannable entry was handed control |
| `Policy.PickHealthiest` | crates/policy/src/decide.rs:57-67 | the first of the healthiest bootable entries, which is the head of the ranking |
| `Policy.Decide` | crates/policy/src/decide.rs:11-41 | none if and only if nothing is bootable; otherwise one-shot, preferred, healthiest, each only if bootable, with its reason |
| `Policy.BootableRanked` | crates/policy/src/decide.rs:45-53 | on unique ids the ranked ids are exactly the bootable ones |
| `Policy.RankingFaithful` | crates/policy/src/decide.rs:45-49 | the ranking is a stable, health-descending permutation of the bootable entries |
| `Choices.RankedExactly` | crates/policy/src/decide.rs:45-49 | the ranking is the healthy entries in the order of the graph, followed by the degraded ones in theirs |
| `Choices.DecidedRight` | crates/policy/src/decide.rs:19-41 | without a one-shot entry to boot, the decision is the right choice for a history that says what the store holds |
| `Choices.OneShotFirst` | crates/policy/src/decide.rs:12-17 | a one-shot entry goes before everything else, whenever it can be booted |
| `Choices.LastGoodRead` | crates/persistence/src/nvram.rs:16-26 | an id is read from the last-good variable if and only if the variable holds its very bytes |
| `Policy.BuildCandidates` | crates/engine/src/pipeline.rs:119-126 | the chosen entry, then the rest of the ranking |
| `Policy.AttemptOrderComplete` | crates/engine/src/pipeline.rs:119-126 | no candidate twice, every bootable entry listed, nothing else but the choice itself |
| `Policy.AssessAll` | crates/health/src/lib.rs:21-31 | each id's first entry gets its own verdict, everything else in the tree stays, ids stay unique |
| `Policy.AssessedEverywhere` | crates/health/src/lib.rs:21-63 | on unique ids every entry has its own verdict: unbootable if and only if loader or kernel is missing, degraded if only the initrd is or the last boot failed, healthy otherwise, with the reason in words |
| `Ids.Derive` | crates/graph/src/ids.rs:16-29 | the push loops build kind, role and normalised loader into the key |
| `Ids.DeriveScoped` | crates/graph/src/ids.rs:36-46 | the same, tied to a volume when there is one; `Ids.NormalForm` says what normalised means |
| `Ids.NormalForm` | crates/graph/src/ids.rs:24-43 | a text normalises to the one text without backslash and upper-case ASCII letter that differs from it at most in separators and in case |
| `Ids.NormalExactly` | crates/graph/src/ids.rs:24-43 | two texts normalise alike if and only if they have equal length and agree, place by place, up to `\` for `/` and the case of ASCII letters |
| `Ids.KeyTexts` | crates/graph/src/kinds.rs:11-44 | the keys' very texts, which outlive a reboot: slugs, separators and order of the parts |
| `Ids.RoleSlugInjective` | crates/graph/src/kinds.rs:34-44 | different roles have different slugs, generation numbers included |
| `Ids.ScopedInjective` | crates/graph/src/ids.rs:16-46 | two keys are equal if and only if kind, role, normalised loader and normalised volume are, absent separators |
| `Ids.KeysByText` | crates/graph/src/ids.rs:16-46 | the same of loaders and volumes as they are written: they share a key if and only if they differ at most in ASCII case and in `\` for `/` |
| `Collisions.IdsEqualExactly` | crates/graph/src/ids.rs:16-46 | for all attributes: two keys are equal if and only if kinds are, and the texts agree up to how much of loader and volume the role name takes in |
| `Collisions.PlainCollisionExactly` | crates/graph/src/ids.rs:16-46 | attributes share a key with different, separator-free ones if and only if the role is plain and the loader holds `@`, or the role name from its first separator on is as normalisation leaves it |
| `Collisions.AmbiguousExactly` | crates/graph/src/ids.rs:16-46 | attributes share a key with any different ones if and only if a test on role, loader and volume says so |
| `Ids.SeparatorCollisions` | crates/graph/src/ids.rs:16-46 | one witness for each separator |
| `Ids.KindRecovered` | crates/discovery/src/build.rs:102-112 | the kind read from a key is the one it was derived from, whatever the other parts hold |
| `Ids.KindNamed` | crates/discovery/src/build.rs:102-112 | any text names the kind whose slug stands before its first colon, and plain EFI when no other does |
| `Ids.BaseRecovered` | crates/discovery/src/build.rs:43-43 | the text before `@` is the volume-less key if and only if role and loader hold no `@` |
| `Sorting.SortSorted` | crates/graph/src/tree.rs:85-92 | sorting by a total preorder sorts |
| `Sorting.SortStable` | crates/policy/src/decide.rs:45-49 | entries that compare equal keep their order |
| `Graph.BootGraph.SetHealth` | crates/graph/src/tree.rs:54-59 | annotates the first entry with this id in traversal order and no other |
| `Graph.AnnotateDisksEntries` | crates/graph/src/tree.rs:54-59 | annotating inside the tree is annotating the flattened list |
| `Graph.BootGraph.RetainEntries` | crates/graph/src/tree.rs:68-76 | the nested loops keep exactly the wanted entries, in order, leave no empty node and keep ids unique |
| `Graph.RetainEntriesKept` | crates/graph/src/tree.rs:68-76 | pruning emptied nodes never disturbs the entries that stay |
| `Graph.RetainPrunes` | crates/graph/src/tree.rs:63-76 | no empty system and no empty disk is left |
| `Graph.BootGraph.SortCanonical` | crates/graph/src/tree.rs:85-92 | sorts each system in place and changes nothing else |
| `Graph.CanonicalPreorder` | crates/graph/src/tree.rs:83-92 | role order then title is a total preorder, so the order is deterministic |
| `Graph.CanonicalExactly` | crates/graph/src/kinds.rs:46-55 | entries stand in the order default, generations from the newest, their specialisations, kernels, recovery, fallbacks, and by title when no role comes first |
| `Graph.NewestFirst` | crates/graph/src/tree.rs:85-92 | in a sorted system nothing stands behind an entry that should be in front of it |
| `Sorting.TextLeExactly` | crates/graph/src/tree.rs:89-89 | titles are in order if and only if one is a prefix of the other or has the smaller character where they part |
| `Discovery.ConvertEntry` | crates/discovery/src/build.rs:69-89 | each field of the description ends in its own place, and the key is that of all durable attributes |
| `Descriptions.EachFieldKept` | crates/discovery/src/build.rs:69-89 | a converted description keeps key, role, method, volume, loader, kernel, initrd and command line apart; its title is tagged with the last six bytes of the volume if and only if it mentions a fallback loader and there is a volume |
| `Discovery.MergeRaw` | crates/discovery/src/build.rs:16-23 | the conversion loop merges in place to the specified list |
| `Discovery.MergeFaithful` | crates/discovery/src/build.rs:16-23 | ids pairwise distinct in first-appearance order; each entry has the first value present of every path and the first longest title among the raw entries with its id |
| `Discovery.RepresentsSnoc` | crates/discovery/src/build.rs:93-99 | merging one more description keeps the entry what its group says it is |
| `Discovery.KeptExactly` | crates/discovery/src/build.rs:32-47 | what survives: every launchable merged entry but volume-less twins; no volume-bearing launchable entry is lost |
| `Discovery.KeptUnique` | crates/discovery/src/build.rs:32-47 | the surviving ids are unique |
| `Twins.TwinExactly` | crates/discovery/src/build.rs:34-47 | for all kinds, roles and loaders: which volume-less entries the filter takes for a twin |
| `Twins.GenuineTwinExactly` | crates/discovery/src/build.rs:34-47 | a genuine twin is recognised if and only if its role and loader hold no `@`; otherwise the duplicate is kept |
| `Twins.TestRightExactly` | crates/discovery/src/build.rs:40-47 | for one pair, the text test agrees with equality of kind, role and loader if and only if the stated condition on that pair holds |
| `Twins.ReliableExactly` | crates/discovery/src/build.rs:40-47 | for one volume-bearing entry, the test is right about every volume-less entry if and only if there is no `@` and the base key is unambiguous |
| `Twins.PlainTwins` | crates/discovery/src/build.rs:34-47 | absent separators the test is right |
| `Twins.ForeignTwin` | crates/discovery/src/build.rs:40-47 | whenever role or loader holds `@`, some different entry counts as a twin |
| `Survivors.SurvivesExactly` | crates/discovery/src/build.rs:16-47 | without separators in roles and loaders, a discovery survives merging and filters if and only if some description of it has something to launch and, when it names no volume, no launchable entry of the same kind, role and loader names one |
| `Discovery.GroupFaithful` | crates/discovery/src/build.rs:50-61 | one node a kind, holding exactly that kind's entries in their order, none empty |
| `Discovery.NodesInOrder` | crates/discovery/src/build.rs:49-61 | nodes stand in the order their kinds were first seen |
| `Discovery.GroupConserves` | crates/discovery/src/build.rs:50-61 | grouping keeps every entry exactly once |
| `Discovery.GraphConserves` | crates/discovery/src/build.rs:14-67 | the graph holds each surviving entry exactly once, under its own kind, in canonical order |
| `Discovery.GraphStable` | crates/discovery/src/build.rs:49-66 | entries that compare equal keep their discovery order |
| `Discovery.FiledUnderOwnKind` | crates/discovery/src/build.rs:52-52 | the node an entry is filed under is that of the kind it was discovered as |
| `Descriptions.GraphDescribed` | crates/discovery/src/build.rs:14-99 | every entry of the finished graph, from the raw descriptions of its key alone: each path and the command line is the first given, role, method and volume are those of the first description, the title is the first of the longest |
| `Discovery.SystemNames` | crates/discovery/src/build.rs:114-123 | the name each system is shown under |
| `Discovery.BuildGraph` | crates/discovery/src/build.rs:14-67 | the whole pipeline yields one disk with those systems; what their entries hold is `Descriptions.GraphDescribed` |
| `Discovery.GraphUnique` | crates/discovery/src/build.rs:14-67 | no two entries of the finished graph share an id |
| `Discovery.AsciiTag` | crates/discovery/src/build.rs:79-84 | slicing an ASCII volume id never panics and gives its last six characters |
| `Discovery.TagCutsCharacter` | crates/discovery/src/build.rs:81-81 | a two-byte character followed by five ASCII ones is a volume id on which the slice panics |
| `LoadOption.Encode` | crates/persistence/src/loadopt.rs:39-54 | the loop writes the packed layout, or refuses an overlong path list |
| `LoadOption.Decode` | crates/persistence/src/loadopt.rs:57-80 | reads attributes, length, text up to the terminator, path list and the rest, with each error of the source |
| `LoadOption.EncodeAfterDecode` | crates/persistence/src/loadopt.rs:39-80 | for every accepted buffer, encoding the result gives the same bytes |
| `LoadOption.DecodeAfterEncode` | crates/persistence/src/loadopt.rs:39-80 | an encodable option survives if and only if its description holds no NUL |
| `LoadOption.FieldsPlaced` | crates/persistence/src/loadopt.rs:39-54 | where each field lies in the bytes (UEFI Specification 2.10 section 3.1.3), and that only a path list beyond 0xFFFF bytes is refused |
| `LoadOption.DescriptionPlaced` | crates/persistence/src/loadopt.rs:44-47 | each unit of the description is the little-endian number at its place |
| `LoadOption.DecodedExactly` | crates/persistence/src/loadopt.rs:57-80 | what a buffer whose description ends is read as, or which error refuses it |
| `LoadOption.NeverEnded` | crates/persistence/src/loadopt.rs:57-80 | which error refuses every other buffer |
| `LoadOption.AcceptedExactly` | crates/persistence/src/loadopt.rs:39-80 | a buffer is accepted if and only if it is the layout of an option whose description holds no NUL |
| `LoadOption.Utf16RoundTrip` | crates/persistence/src/loadopt.rs:44-47 | every text survives UTF-16, surrogate pairs included |
| `LoadOption.UnitsSpell` | crates/persistence/src/loadopt.rs:44-47 | a character is one unit or the surrogate pair of RFC 2781 section 2.1 |
| `LoadOption.Utf16Exact` | crates/persistence/src/loadopt.rs:73-73 | accepted units are the ones their text encodes to |
| `LoadOption.EncodeBootOrder` | crates/persistence/src/loadopt.rs:86-90 | two little-endian bytes an option, in order |
| `LoadOption.OrderRoundTrip` | crates/persistence/src/loadopt.rs:86-95 | every order reads back as itself |
| `LoadOption.OrderExact` | crates/persistence/src/loadopt.rs:86-95 | re-encoding gives the same bytes less a stray odd one |
| `Reconcile.Apply` | crates/config/src/reconcile.rs:76-85 | the steps' orders are written, in order, and no other variable is touched |
| `Reconcile.Restore` | crates/config/src/reconcile.rs:88-93 | writes the snapshot's order or deletes the variable, nothing else |
| `Reconcile.DesiredWithMyBootFirst` | crates/config/src/reconcile.rs:65-72 | MyBoot's option, then the others as they stand |
| `Reconcile.AppliedIsDesired` | crates/config/src/reconcile.rs:49-85 | after applying, the order is the desired one, planning again is a no-op, all else unchanged |
| `Reconcile.RestoreUndoesApply` | crates/config/src/reconcile.rs:76-93 | restoring the snapshot brings the decoded order back, all else unchanged |
| `Reconcile.MyBootFirst` | crates/config/src/reconcile.rs:62-72 | MyBoot once and first, every other option keeps multiplicity and order, idempotent |
| `Reconcile.RepairIsStable` | crates/config/src/reconcile.rs:49-85 | once drift is repaired, computing and planning again finds nothing to do |
| `MemoryMap.ToE820` | crates/engine/src/direct_boot.rs:117-135 | the loop, growing the last entry in place with wrapping sums, computes the coalesced table |
| `MemoryMap.TypesReported` | crates/engine/src/direct_boot.rs:138-151 | conventional, boot-services and loader memory is reported as 1, ACPI reclaim as 3, ACPI non-volatile as 4, unusable as 5, every other type as 2 |
| `MemoryMap.CoalesceFaithful` | crates/engine/src/direct_boot.rs:115-135 | which address has which kind, and the total size, are kept unless a stretch goes round |
| `MemoryMap.CoalesceExactly` | crates/engine/src/direct_boot.rs:117-135 | they are kept if and only if no stretch goes round |
| `MemoryMap.CoalesceCompact` | crates/engine/src/direct_boot.rs:115-135 | no output entry could have been merged into the one before |
| `MemoryMap.CoalesceIdempotent` | crates/engine/src/direct_boot.rs:117-135 | coalescing a coalesced table changes nothing |
| `MemoryMap.SizeIsPages` | crates/engine/src/direct_boot.rs:121-122 | for descriptors inside the address space, the regions add up to the pages described if and only if no descriptor is the whole of it |
| `MemoryMap.TableFaithful` | crates/engine/src/direct_boot.rs:117-151 | for descriptors inside the address space, the table says of every address, in the numbers of `MemoryMap.ReportedAs`, what the firmware map says, in as many bytes, if and only if no descriptor is the whole space and no stretch goes round it; it is then compact |
| `MemoryMap.TruncatedExactly` | crates/arch/src/x86_64/boot_params.rs:167-172 | leaving entries out of the table keeps the firmware map if and only if none is left out |
| `MemoryMap.TopOfMemoryMerges` | crates/engine/src/direct_boot.rs:124-130 | a two-page map whose page at zero disappears |
| `MemoryCount.CoalesceCounts` | crates/engine/src/direct_boot.rs:117-135 | for any regions, coalescing that never goes round keeps how often each address is described as each kind |
| `MemoryCount.GoingRoundHarms` | crates/engine/src/direct_boot.rs:124-130 | for any regions, coalescing that goes round loses bytes or moves some beyond the address space |
| `MemoryCount.TableFaithful` | crates/engine/src/direct_boot.rs:117-151 | for every list of descriptors, a prefix of the table describes each address, kind by kind, as often as descriptors of a type to be reported so take it in, if and only if nothing is left out, no descriptor is 2^64 bytes or more, and nothing goes round |
| `BootParams.BootParams.SetSetupHeader` | crates/arch/src/x86_64/boot_params.rs:137-144 | overlays the packed header at 0x1F1, every other byte as before |
| `BootParams.BootParams.SetLoaderFields` | crates/arch/src/x86_64/boot_params.rs:157-165 | patches the header in the page through read, change, write |
| `BootParams.BootParams.SetE820` | crates/arch/src/x86_64/boot_params.rs:168-178 | writes the count and at most 128 entries, every other byte as before |
| `BootParams.FieldOffsets` | crates/arch/src/x86_64/boot_params.rs:55-98 | the packed fields land where the Linux boot protocol's section "The Real-Mode Kernel Header" places them |
| `BootParams.FieldsPlaced` | crates/arch/src/x86_64/boot_params.rs:137-154 | each of these fields is the little-endian number at its offset in the page |
| `BootParams.KernelMarks` | crates/arch/src/x86_64/boot_params.rs:102-112 | a bootable header is 0x55 0xAA at 0x1FE and `HdrS` at 0x202; 64-bit entry is bit 0 of 0x236 |
| `BootParams.HeaderReadsBack` | crates/arch/src/x86_64/boot_params.rs:137-154 | a header written is the header read, field by field |
| `BootParams.LoaderFieldsPatched` | crates/arch/src/x86_64/boot_params.rs:157-165 | exactly the five loader fields change; magic numbers and the 64-bit flag still read as before |
| `BootParams.LoaderBytes` | crates/arch/src/x86_64/boot_params.rs:157-165 | type 0xFF at 0x210, the flags at 0x211, initrd and size at 0x218 and 0x21C, the command line at 0x228 |
| `BootParams.TableReadsBack` | crates/arch/src/x86_64/boot_params.rs:168-180 | for every table, the count is the number recorded and the kernel reads back just the entries recorded, in order |
| `BootParams.TableBytes` | crates/arch/src/x86_64/boot_params.rs:127-178 | the count at 0x1E8, and from 0x2D0 on twenty bytes an entry: address, size and kind, little-endian |
| `BootParams.KernelSeesFirmwareMap` | crates/arch/src/x86_64/boot_params.rs:167-178 | from firmware map to zero page: the kernel sees the same memory if and only if nothing is lost in coalescing and the table has at most 128 entries |
| `MemoryCount.KernelAgrees` | crates/arch/src/x86_64/boot_params.rs:167-178 | the same of what the kernel reads in the zero page, for every list of descriptors, with at most 128 entries |
| `MemoryCount.KernelKinds` | crates/engine/src/direct_boot.rs:117-151 | when nothing is lost the kernel is told of an address: each kind exactly where a descriptor of a type to be reported so takes it in, and no kind beyond 5 |
| `BootParams.BootParams.E820Count` | crates/arch/src/x86_64/boot_params.rs:179-180 | the count byte, which is how many entries the kernel reads |
| `BootParams.WriterOrderIrrelevant` | crates/arch/src/x86_64/boot_params.rs:137-178 | the table may be written before, between or after header and patch: the page is the same |
| `BootParams.OtherBytesUntouched` | crates/arch/src/x86_64/boot_params.rs:137-178 | no byte outside count, header and recorded slots changes |
| `Gpt.HeaderRead` | crates/storage/src/gpt/mod.rs:36-53 | every header field is read from its place on disk (UEFI Specification 2.10 section 5.3.2); the two limits are the only refusals |
| `Gpt.RecordRead` | crates/storage/src/gpt/mod.rs:66-76 | a partition record reads as written unless unused or backwards (UEFI Specification 2.10 section 5.3.3) |
| `Gpt.ParsePartitions` | crates/storage/src/gpt/mod.rs:87-102 | the used records among those examined, in order, or the error of the first bad one |
| `Gpt.RecordFits` | crates/storage/src/gpt/mod.rs:90-96 | a record is examined if and only if the header counts it and the buffer holds all of it |
| `Gpt.OffsetsInRange` | crates/storage/src/gpt/mod.rs:89-91 | no offset of an accepted header overflows |
| `Gpt.FailsOnlyBackwards` | crates/storage/src/gpt/mod.rs:66-76 | for an accepted header a record fails if and only if it is used and its range runs backwards |
| `Gpt.CollectedAt` | crates/storage/src/gpt/mod.rs:87-102 | every used record is reported once, at the place its predecessors leave for it |
| `Gpt.CollectedFrom` | crates/storage/src/gpt/mod.rs:97-99 | every partition reported comes from an examined, used record, start not after end |
| `Gpt.KindsExactly` | crates/storage/src/gpt/mod.rs:10-84 | a partition is an EFI system or a Linux one if and only if its type is the registered identifier, as UEFI Specification 2.10 appendix A lays it out; its range is the record's |
| `Json.Parse` | crates/discovery/src/json.rs:38-46 | one value, white space around it, nothing after |
| `Json.Parser.Value` | crates/discovery/src/json.rs:59-70 | the cursor moves forward, never past the end, by at least one byte on success, and answers as specified |
| `Json.Parser.Object` | crates/discovery/src/json.rs:72-92 | the member loop, with its early exits, answers as specified; the last duplicate key wins |
| `Json.Parser.Array` | crates/discovery/src/json.rs:94-110 | the element loop answers as specified, elements in order |
| `Json.Parser.String` | crates/discovery/src/json.rs:112-144 | the character loop consumes up to the closing quote and answers as specified |
| `Json.Parser.Escape` | crates/discovery/src/json.rs:118-135 | one escape, or four hex digits accumulated in a loop, with surrogates replaced; `JsonStandard.EscapesKnown` compares its table with the standard's |
| `JsonGrammar.ValueRead` | crates/discovery/src/json.rs:59-166 | a printed value of any shape, behind any white space, is read as its meaning and the cursor stops right after it |
| `JsonGrammar.TextRead` | crates/discovery/src/json.rs:38-46 | reading any text of the reader's own grammar gives its meaning, whatever white space and escapes it uses |
| `JsonGrammar.ReaderExact` | crates/discovery/src/json.rs:38-171 | a buffer is accepted with a given tree if and only if it is a text of that tree |
| `JsonGrammar.TreeRoundTrip` | crates/discovery/src/json.rs:38-171 | every expressible tree has a rendering that reads back as that tree |
| `JsonGrammar.ReadableTrees` | crates/discovery/src/json.rs:125-139 | a tree can be read from some text if and only if its strings stay in the basic plane and its numbers are lexemes |
| `JsonGrammar.PlainTextExactly` | crates/discovery/src/json.rs:136-139 | unescaped text is read back unchanged if and only if it is ASCII |
| `JsonStandard.StandardTextRead` | crates/discovery/src/json.rs:38-171 | of the texts of RFC 8259 (sections 2 to 7) exactly those without `\b` and `\f` are accepted, each with the tree the reader makes of its strings; with clean strings that is the tree it stands for |
| `JsonStandard.EscapesKnown` | crates/discovery/src/json.rs:118-135 | of the eight escapes RFC 8259 section 7 lists the reader knows six, each with the character listed there, and no other letter |
| `JsonStandard.HexKnown` | crates/discovery/src/json.rs:173-180 | four hex digits, of either case, spell the same number to the reader and to the standard |
| `JsonStandard.NumberScanned` | crates/discovery/src/json.rs:146-156 | a number of the standard, put together from sign, digits, fraction and exponent, is what scanning from left to right finds |
| `JsonTrees.RightTreeExactly` | crates/discovery/src/json.rs:38-171 | a text of the standard in whose objects equal names are spelt alike is read as the tree it stands for if and only if it uses neither `\b` nor `\f`, all names are clean, and so are the strings in values that no later member replaces |
| `JsonTrees.UniqueNamesExactly` | crates/discovery/src/json.rs:72-92 | with unique names in every object, as RFC 8259 section 4 asks for: read right if and only if every string is clean and uses known escapes |
| `JsonTrees.MisreadingUnnoticed` | crates/discovery/src/json.rs:72-92 | without the condition on spelling, any misread name can stand in an object that is still read right |
| `JsonStandard.StandardStringExactly` | crates/discovery/src/json.rs:112-144 | a string of RFC 8259 section 7 is read as the text it stands for if and only if it uses neither `\b` nor `\f`, no byte beyond ASCII and no surrogate pair |
| `JsonStandard.NumbersRead` | crates/discovery/src/json.rs:146-156 | every number of RFC 8259 section 6 is accepted whole |
| `JsonAccepted.AcceptedNumbers` | crates/discovery/src/json.rs:146-156 | a number is accepted if and only if it is a sign, digits before or after a point or on both sides, and an exponent, all but the digits optional, and does not start with the point |
| `JsonAccepted.NumberExactly` | crates/discovery/src/json.rs:146-156 | an accepted number is one of the standard if and only if a digit comes first, no zero leads another digit and a digit follows any point |
| `JsonAccepted.StringExactly` | crates/discovery/src/json.rs:112-144 | an accepted string in UTF-8 is one of the standard if and only if it holds no raw control character |
| `JsonAccepted.AcceptedStandardExactly` | crates/discovery/src/json.rs:38-171 | an accepted text in UTF-8 is a text of the standard if and only if all its numbers and strings are |
| `JsonAccepted.AcceptedInputExactly` | crates/discovery/src/json.rs:38-46 | the same of every accepted input string, whose bytes are UTF-8 to begin with |
| `JsonStandard.AcceptedBeyond` | crates/discovery/src/json.rs:112-156 | witnesses: a leading zero, a bare point, a raw line feed |
| `Toml.StripComment` | crates/config/src/toml.rs:80-88 | the scan cuts at the first `#` outside quotes |
| `Toml.CommentExactly` | crates/config/src/toml.rs:80-88 | a line is kept whole if and only if every `#` in it is inside quotes |
| `Toml.UnescapeText` | crates/config/src/toml.rs:106-123 | the character loop computes the unescaped text, unknown escapes kept |
| `Toml.EscapeRoundTrip` | crates/config/src/toml.rs:106-123 | every string survives escaping and unescaping |
| `Toml.EscapesStandFor` | crates/config/src/toml.rs:106-123 | what a backslash and each character stand for; unknown ones stay as they are |
| `Toml.ValueTexts` | crates/config/src/toml.rs:98-104 | a value is text between quotes, unescaped, or `true`, or `false`, or a number, and nothing else |
| `Toml.IntTexts` | crates/config/src/toml.rs:103-103 | digits after one sign at most are the number they spell, within 64 bits |
| `Toml.OnlyIntTexts` | crates/config/src/toml.rs:103-103 | nothing else is a number |
| `Toml.TrimExactly` | crates/config/src/toml.rs:56-94 | trimming takes white space off both ends and leaves none there |
| `Toml.ReadLine` | crates/config/src/toml.rs:55-75 | one turn of the loop adds its item to the open table or the root, or fails with the line number and message |
| `Toml.Parse` | crates/config/src/toml.rs:51-78 | all lines in order, first offending line reported |
| `Toml.FirstOffence` | crates/config/src/toml.rs:51-78 | the error is the first offending line's number, from one, and its offence; without an offending line the text is read |
| `Toml.OffendsExactly` | crates/config/src/toml.rs:56-70 | which lines offend, and how: a bracket not closed, no key and value around an equals sign, or a value that is none |
| `Toml.HeadersTrimmed` | crates/config/src/toml.rs:59-66 | a header opens a table, of an array with two brackets, named by what stands between them less outer white space |
| `Toml.PairsTrimmed` | crates/config/src/toml.rs:68-96 | a pair is what stands around the first equals sign, less outer white space, unless that is no value |
| `Toml.LineEnds` | crates/config/src/toml.rs:55-55 | lines end at a line feed, with or without a carriage return; a last line needs no end |
| `Toml.LineExactly` | crates/config/src/toml.rs:55-104 | a printed line reads back as its item if and only if its value is safe |
| `Toml.AssembleItems` | crates/config/src/toml.rs:59-75 | a document lists exactly the items absorbed, so different item lists make different documents |
| `Toml.DocumentRoundTrip` | crates/config/src/toml.rs:51-123 | a printable document survives printing and reading if and only if no string value has a `#` after an odd number of quotes |

## Left out

- Firmware calls, the kernel jump, assembly, page allocation and exit of boot services: they are the world the model's parameters stand for.
- The menu, the shell, key polling, the timeout and the graphical interface; the menu is the parameter `present` of `Pipeline.Boot`, any function of the decision.
- Configuration schema, providers and launch plans: `hasPlan` is any predicate on ids, `outcomes` any sequence of hand-off outcomes.
- Discovery sources (firmware variables, volume probing, boot-loader specification files): `Discovery` takes any list of raw entries.
- File access: existence of a path is any predicate, constant during one assessment.
- Failing variable writes, and the firmware rule that writing an empty value deletes a variable: the model's store always accepts a write, as the in-memory store does.
- `bless --entry`, which writes a confirmed marker for any id without looking at the pending one.
- Budgets kept across boots: the source does not persist them, so no statement about exhaustion across boots is made.
- The fairness conditions of the TLA+ module: termination is proved by a measure on runs of accepted calls instead.
- MemoryMap.TableFaithful: requires descriptors inside the address space, because without counting, descriptors beyond it can make up by coincidence for what others lose; `MemoryCount.TableFaithful` has no such requirement. The same holds of `MemoryMap.TruncatedExactly` and `BootParams.KernelSeesFirmwareMap`.
- JsonTrees.RightTreeExactly: leaves out objects in which one name is spelt in two ways that the reader takes apart; there the tree can be right by coincidence (`JsonTrees.MisreadingUnnoticed`).
- Ids.ScopedInjective: states the plain form that stable keys rely on; `Collisions.IdsEqualExactly` covers every role and loader.
- Twins.PlainTwins: states the plain form; `Twins.TestRightExactly` covers every role and loader.
- Discovery.BuildGraph: the precondition `Taggable` excludes volume ids of a fallback loader whose last six bytes start inside a character; the source panics on those, `Discovery.TagCutsCharacter` gives such ids, and `Discovery.AsciiTag` shows that ASCII ids are never among them.
- Titles are compared by scalar values, which is the byte order of their UTF-8 forms.
- The standard library's stable sort is modelled as stable insertion sort; only its sorted, stable result is used.
- JSON numbers keep their lexeme: the floating-point value is not modelled, only which lexemes are accepted.
- The recursion depth of the JSON reader on a real stack.
- E820 slots beyond the recorded ones keep their old bytes, in the source and in the model.
- Machine words are taken to be 64 bits wide where the source uses `usize`.
- Grouping by more than one disk, which the source leaves to a later version.
- Binary formats FAT, MBR and PE, the host-side installers and packaging: single-step reads and plumbing.
