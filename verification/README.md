# Verification of Agent Copilot's core protocols

Agent Copilot manages the skills of several coding agents on one machine: it scans skill directories into a local
catalog, edits agent configuration files, removes skills from disk, and reports conflicts and findings. This project
models the parts of it in which a wrong step loses data or misleads the user, and states what they promise as
theorems about all inputs, all runs and all interleavings.

| file | what it models |
|---|---|
| PhysicalRemoval.dfy | the removal transaction: re-check, staging by rename, rehash, rescan, commit or reverse rollback, under any faults and outside edits |
| ConfigRevision.dfy, ConfigProtocol.dfy, Redaction.dfy | concurrent saves, toggles and snapshot rollbacks of one config file, with revisions, tokens, the lock, snapshots and their redaction |
| BatchToggle.dfy | previewing and applying switches of many skills over several config files |
| ConflictGroups.dfy, RefreshReport.dfy, RuleOutputs.dfy | runtime name collisions, the report on them and its storage with all findings in two transactions |
| SkillTable.dfy, LegacyPaths.dfy, ScanUpdate.dfy | the instance table: canonical paths, upserts by place, missing sweeps with events |
| RuleTuning.dfy, FindingTriage.dfy | severity overrides and suppressions in one table; review status of findings across refreshes |
| HexCursor.dfy, Decimal.dfy, HistoryPaging.dfy | cursor texts and keyset pages over histories |
| Frontmatter.dfy, Slug.dfy, PathWalk.dfy | skill files and bundles, canonical names, lexical paths and the guard on config reads |
| ProjectContext.dfy, Dedup.dfy | recent projects; one record per place |
| Common.dfy | options, results, ideal hashes, small text facts |

`dafny verify dfyconfig.toml` checks the whole project.

Conventions. A hash is a function parameter, assumed free of collisions and hexadecimal where a theorem needs it.
Parsers, printers, config patchers, `canonicalize` and the symbolic-link check are function parameters. Failing system
calls, failing database statements, read-backs that differ and outside edits are adversarial choices: nondeterministic
in the removal, parameters (`Luck`, `Fate`, `readable`, `stopsAt`, `failsAt`, `commits`, `saves`) elsewhere. Database
constraints are explicit, and a method in a transaction restores the tables when a statement or the commit fails.

Where the code does not do what one might expect of it, the model follows the code:

- A text snapshot with CRLF line ends always counts as redacted, because joining its lines drops the carriage returns
  (`Redaction.TextKeptExactly`, `Redaction.LineEndsAreRedacted`); rolling it back is refused.
- An editor that ignores the lock can lose an edit in two ways: it falls between an operation's read and its rename, or
  between that rename and a put-back after a differing read-back. Nothing else of the file is lost
  (`ConfigProtocol.OnlyOutsideEditsAreLost`); `ConfigProtocol.EditBeforeRenameIsLost` and
  `ConfigProtocol.EditBeforePutBackIsLost` are such runs.
- An entry that another program puts at the original path of a target between the look and the rename back can be
  replaced; that is the only loss a removal causes (`PhysicalRemoval.OnlyRacesLoseEntries`,
  `PhysicalRemoval.RaceLosesIntruder`).
- Row and event of a switched skill are stored by two statements. When the second one fails, the skill is switched in
  file and row without an event (`BatchToggle.RowWithoutEvent`); that is the only such case
  (`BatchToggle.EventsMatchUnlessCut`).
- Definitions with conflicts and findings are stored in two transactions, so new definitions can stand beside old
  findings (`RuleOutputs.RefreshCatalogRuleOutputs`).
- The suppression note shown can come from a broader row than the reason (`RuleTuning.NoteFallsThrough`).
- A tuning key with a scope and no agent never applies to a finding with an agent (`RuleTuning.ScopeAloneIsInert`).
- Review keys join texts without escaping. They identify findings all the same, because only the message is free text
  (`FindingTriage.KeyIdentifies`); an absent instance, definition or suggestion counts as an empty one.
- A parent component above the root is kept, and the next one removes it (`PathWalk.ParentsAboveTheRoot`).
- Replacing a config file may report a failure after the rename took effect, and a failed removal may leave empty private
  directories; both are part of the statements.
- A file that was missing before a save comes back present and empty on rollback.

## Model

| member | source | states |
|---|---|---|
| `PhysicalRemoval.Removal.Apply` | crates/commands/src/skill_manager.rs:1645-1691 | for every pattern of failing steps, and outside edits before every step and during the deletion: success leaves the tree as it would be without the removal, less the targets, with what others have put in their places; failure leaves it as it would be but for empty private directories; incomplete rollback or cleanup happens only after a disturbance, and it is stated what that leaves; nothing is deleted before a good rescan and a check that saw no target and every preserved path; undisturbed, it succeeds exactly when the targets are as previewed, the preserved paths are there and the rescan agrees |
| `PhysicalRemoval.EveryInstant` | crates/commands/src/skill_manager.rs:1651-1691 | at every recorded instant each target is at exactly one of original and backup path, and every deleting instant has all targets staged with their previewed revisions |
| `PhysicalRemoval.OnlyRacesLoseEntries` | crates/commands/src/skill_manager.rs:1773-1788 | a step of the removal takes from a public path only a target, into its backup, or an entry that another program put at an original path after the look that found it free, by the rename back |
| `PhysicalRemoval.IntruderIsReplaced` | crates/commands/src/skill_manager.rs:1773-1788 | whenever a staged target is rolled back, an entry put at its original path after the look can be replaced by the rename back and is nowhere afterwards |
| `PhysicalRemoval.RaceLosesIntruder` | crates/commands/src/skill_manager.rs:1731-1788 | such a run from its start: one target staged, one intruder, and the rename back over it |
| `PhysicalRemoval.Removal.ApplyReversibly` | crates/commands/src/skill_manager.rs:1645-1679 | everything up to the point of no return either stages and confirms all targets or puts them back |
| `PhysicalRemoval.Removal.StillPreviewed` | crates/commands/src/skill_manager.rs:1651-1659 | undisturbed, the re-check passes exactly when every target is as previewed, and it changes nothing |
| `PhysicalRemoval.Removal.StageAll` | crates/commands/src/skill_manager.rs:1693-1758 | staging holds all targets with their previewed contents, or has rolled back |
| `PhysicalRemoval.Removal.StageOne` | crates/commands/src/skill_manager.rs:1705-1756 | one target staged and hashed again, or everything staged so far rolled back |
| `PhysicalRemoval.Removal.CreatePrivateRoot` | crates/commands/src/skill_manager.rs:1760-1771 | a new private directory, removed again when its permissions cannot be set |
| `PhysicalRemoval.Removal.RollbackStaged` | crates/commands/src/skill_manager.rs:1773-1806 | reverse rollback: success means nothing is held any more, and without a disturbance it succeeds |
| `PhysicalRemoval.Removal.RestoreOne` | crates/commands/src/skill_manager.rs:1776-1788 | a target is renamed back only to a place that was found free, whatever others do between the looks and the rename; every failure keeps it held |
| `PhysicalRemoval.Removal.LookBeforeRename` | crates/commands/src/skill_manager.rs:1777-1778 | others may act between the two looks; an original path reported missing was found free by the first, and a backup is never reported missing |
| `PhysicalRemoval.Removal.RenameBack` | crates/commands/src/skill_manager.rs:1780-1783 | the entry comes back from its backup, over whatever has appeared at its place, or nothing changes |
| `PhysicalRemoval.Removal.RemoveEmptiedRoot` | crates/commands/src/skill_manager.rs:1789-1797 | only an emptied private directory is removed |
| `PhysicalRemoval.Removal.CommitStaged` | crates/commands/src/skill_manager.rs:1808-1836 | success means all backups and private directories of the targets are gone; other private parts stay, and public paths change only by edits of others |
| `PhysicalRemoval.Removal.Lookup` | crates/commands/src/skill_manager.rs:1838-1844 | an answer is right, and a failing call gives none |
| `PhysicalRemoval.Removal.VerifyRemoved` | crates/commands/src/skill_manager.rs:1846-1894 | confirmation needs a good rescan, a look at every target that did not find it, one at every preserved path that did, and no selected instance still listed |
| `PhysicalRemoval.StageConserves` | crates/commands/src/skill_manager.rs:1731-1740 | renaming a target into its private directory loses no entry |
| `PhysicalRemoval.RestoreConserves` | crates/commands/src/skill_manager.rs:1780-1783 | renaming a backup to its original path loses no entry but what others have put there |
| `PhysicalRemoval.NothingHeldIsRestored` | crates/commands/src/skill_manager.rs:1798-1800 | with nothing held the tree is the one without the removal, but for empty private directories |
| `PhysicalRemoval.StagedIsRemovable` | crates/commands/src/skill_manager.rs:1861-1880 | with all targets staged and no intruder, only a missing preserved path can stop the removal |
| `ConfigRevision.RevisionIdentifiesState` | crates/commands/src/config_consistency.rs:17-24 | revisions agree exactly for the same state; missing and empty differ |
| `ConfigRevision.TokenIdentifiesPreview` | crates/commands/src/config_consistency.rs:53-91 | tokens agree exactly for the same snapshot, content and revision; an absent project root counts as an empty one |
| `ConfigProtocol.RunKeepsInvariant` | crates/commands/src/lib.rs:2069-2165 | every interleaving of saves, toggles, rollbacks and an outside editor keeps the protocol invariant |
| `ConfigProtocol.EveryReplacementIsAuthorised` | crates/commands/src/lib.rs:2069-2165 | each replacement was computed from, or authorised against, a state it read under the lock; since then only outside edits changed the file, and without one it overwrites exactly that state |
| `ConfigProtocol.PutBackRestoresOwnWrite` | crates/commands/src/lib.rs:2144-2155 | a put-back restores the text its own last replacement was made from, and overwrites only outside edits made since that replacement |
| `ConfigProtocol.OnlyOutsideEditsAreLost` | crates/commands/src/lib.rs:2109-2155 | a write of one operation is overwritten by another only as the state it was made from; so only outside edits can be overwritten unseen |
| `ConfigProtocol.EditBeforeRenameIsLost` | crates/commands/src/lib.rs:2109-2151 | an outside edit between the read of a save and its rename is overwritten unseen, and the save succeeds |
| `ConfigProtocol.EditBeforePutBackIsLost` | crates/commands/src/lib.rs:2136-2155 | an outside edit between the rename and the read-back is overwritten by the put-back, and the save fails |
| `ConfigProtocol.LogExplainsState` | crates/commands/src/lib.rs:2118-2155 | the file and the snapshots are what the logged changes lead to, and no snapshot changes once recorded |
| `ConfigProtocol.RefusedOperationsChangeNothing` | crates/commands/src/lib.rs:2239-2311 | conflicting, stale, redacted or malformed requests change neither file nor snapshots: no logged change is theirs, and every new snapshot was recorded by another operation |
| `ConfigProtocol.AtMostOneHoldsTheLock` | crates/commands/src/lib.rs:4658-4705 | the lock is exclusive in every run |
| `ConfigProtocol.SecondSaveNeedsAnotherChange` | crates/commands/src/lib.rs:2085-2101 | of two saves with one expected revision the second wins only after another change |
| `ConfigProtocol.RollbackRestoresExactly` | crates/commands/src/lib.rs:2314-2347 | a rollback of the snapshot of a save restores exactly what the save was authorised against; for a toggle exactly when its text was already normal |
| `ConfigProtocol.UndisturbedSave` | crates/commands/src/lib.rs:2109-2165 | an undisturbed save with the right revision writes its text and one snapshot |
| `ConfigProtocol.UndisturbedToggle` | crates/commands/src/lib.rs:2900-2983 | an undisturbed toggle writes the patched text, or fails without a write when there is no patch |
| `ConfigProtocol.UndisturbedRollback` | crates/commands/src/lib.rs:2239-2350 | a fresh preview is honoured, except for redacted snapshots |
| `ConfigProtocol.SaveThenRollback` | crates/commands/src/lib.rs:2203-2228 | save, preview and rollback restore the content before the save, or are refused as redacted without a write |
| `ConfigProtocol.RedactionFits` | crates/commands/src/snapshot_redaction.rs:6-48 | the redaction of snapshots meets what the rollback results rest on |
| `Redaction.RedactJsonValue` | crates/commands/src/snapshot_redaction.rs:50-78 | the in-place rewrite gives the redacted tree and reports a change exactly when there is one |
| `Redaction.RedactedIsTheCleaning` | crates/commands/src/snapshot_redaction.rs:50-78 | redaction is the one rewrite that cleans all secrets and keeps everything else |
| `Redaction.UnchangedIffClean` | crates/commands/src/snapshot_redaction.rs:50-78 | a tree is kept exactly when it has no secret |
| `Redaction.KeptExactly` | crates/commands/src/snapshot_redaction.rs:28-38 | rewriting line by line keeps a text exactly when it has no CRLF line end and every line is kept |
| `Redaction.TextKeptExactly` | crates/commands/src/snapshot_redaction.rs:28-43 | line redaction keeps a text exactly when it has no CRLF line end and no line to redact |
| `Redaction.RedactionIsVisible` | crates/commands/src/snapshot_redaction.rs:6-48 | the result is the input or marked as redacted, and marked exactly when something had to go |
| `Redaction.LineEndsAreRedacted` | crates/commands/src/snapshot_redaction.rs:28-43 | a file without secrets that counts as redacted, because of a CRLF line end |
| `Redaction.RedactionIsIdempotent` | crates/commands/src/snapshot_redaction.rs:6-44 | redacting twice is redacting once |
| `ConflictGroups.DistinctPathsMeaning` | crates/ai-core/src/lib.rs:385-393 | the size test means that two members have different paths |
| `ConflictGroups.GroupByAgent` | crates/ai-core/src/lib.rs:337-357 | each agent and namespace gets exactly its visible instances |
| `ConflictGroups.CollisionsOfAgent` | crates/ai-core/src/lib.rs:359-382 | exactly the colliding buckets of one agent, merged when native and plugin instances coexist |
| `ConflictGroups.RuntimeNameCollisionGroups` | crates/ai-core/src/lib.rs:333-383 | exactly the colliding buckets of one definition, once each, with all their instances |
| `ConflictGroups.ActiveInstance` | crates/ai-core/src/lib.rs:260-264 | the first loaded and enabled instance, or the first one |
| `ConflictGroups.AppendNameCollisionResults` | crates/ai-core/src/lib.rs:224-331 | every definition once with its instances in their order, named after the first one, and its active instance; every colliding bucket once with all its members, one finding for each membership |
| `ConflictGroups.ReportedTogether` | crates/ai-core/src/lib.rs:333-383 | two instances share a group exactly when they share a bucket that holds two paths |
| `ConflictGroups.DifferentPathsReportedTogether` | crates/ai-core/src/lib.rs:360-382 | at different paths: exactly with the same definition and agent, and the same namespace or a native instance beside them |
| `ConflictGroups.InOneGroupAtMost` | crates/ai-core/src/lib.rs:360-382 | no instance is in two groups |
| `ConflictGroups.OrderDoesNotMatter` | crates/ai-core/src/lib.rs:224-331 | reordering the input gives the same groups with the same members |
| `ConflictGroups.FindingsAreMemberships` | crates/ai-core/src/lib.rs:301-327 | the findings are exactly the pairs of a conflict and one of its members, in order |
| `ConflictGroups.ConflictIdsAreDistinct` | crates/ai-core/src/lib.rs:287-293 | conflicts are told apart by their ids when definitions and agents have no colon, as scanned ones have none |
| `ConflictGroups.DefinitionsAreIndependent` | crates/ai-core/src/lib.rs:229-252 | collisions of one definition do not depend on the others |
| `RefreshReport.Tables.RefreshDefinitionsAndConflicts` | crates/catalog/src/refresh.rs:104-154 | a refresh replaces all three tables or none of them, and succeeds exactly when keys, names and references allow it |
| `RefreshReport.Tables.RefreshOutputs` | crates/commands/src/lib.rs:2839-2892 | of two transactions the first: the first definition of each name is stored with all conflicts, or nothing changes |
| `RefreshReport.ReportsAreAdmissible` | crates/commands/src/lib.rs:2866-2892 | a report on scanned instances with distinct ids keeps all its definitions and meets all constraints of the tables |
| `RuleOutputs.DedupeRuleFindings` | crates/commands/src/analysis.rs:600-609 | the loop keeps the first finding of each key |
| `RuleOutputs.KeptOncePerKey` | crates/commands/src/analysis.rs:600-633 | what is kept has no key twice, is among the findings, and has every key of them |
| `RuleOutputs.DraftIdsAreDistinct` | crates/commands/src/lib.rs:2842-2865 | stored findings have distinct ids whatever their rules, instances and definitions |
| `RuleOutputs.ReviewKeysAreDistinct` | crates/commands/src/analysis.rs:600-633 | stored findings have distinct review keys, so no review of one shows at another |
| `RuleOutputs.RefreshRuleOutputs` | crates/commands/src/lib.rs:2839-2892 | definitions and conflicts first and then the findings, each completely or not at all; findings are replaced only after definitions were, and it is stated exactly when either happens |
| `RuleOutputs.RefreshCatalogRuleOutputs` | crates/commands/src/lib.rs:2352-2369 | evaluating the scanned instances and storing the outcome succeeds exactly when both commits do; a failure of the second leaves new definitions and conflicts beside the old findings |
| `RuleOutputs.EveryCollisionIsKept` | crates/ai-core/src/lib.rs:301-327 | no collision is lost to the removal of duplicates: every membership of a conflict has its finding among those stored |
| `RuleOutputs.KeptCollisionsAreMemberships` | crates/ai-core/src/lib.rs:301-327 | every stored finding of the collision rule is that of a membership |
| `Frontmatter.PrintedSplitsBack` | crates/commands/src/lib.rs:1287-1305 | a printed header and body split back into themselves exactly when no fence starts inside the header |
| `Frontmatter.SplitIsPrintable` | crates/commands/src/lib.rs:1287-1297 | whatever any branch split off is printable |
| `Frontmatter.LastBranchUnreachable` | crates/commands/src/lib.rs:1294-1296 | the branch for a final CRLF and dashes never decides |
| `Frontmatter.SplittersAgree` | crates/adapters/src/shared.rs:3-17 | scanner and exporter split every text alike |
| `Frontmatter.ScannedSurvivesExport` | crates/adapters/src/shared.rs:3-17 | what the scanner splits it splits again alike after printing |
| `Frontmatter.ReprintedParsesBack` | crates/commands/src/lib.rs:1236-1305 | printing what was parsed and parsing it again gives the same pair |
| `Frontmatter.PrintedParses` | crates/commands/src/lib.rs:1248-1305 | every printed pair parses, and as itself exactly when its header is printable |
| `Frontmatter.FingerprintIdentifiesParsed` | crates/commands/src/lib.rs:388-390 | among parsed files fingerprints agree exactly for the same header and body |
| `Frontmatter.FingerprintIsAmbiguous` | crates/commands/src/lib.rs:388-390 | two unparsed pairs with one fingerprint |
| `Frontmatter.ExportedReimports` | crates/commands/src/lib.rs:1150-1209 | export and reimport of any readable skill succeed with the same header, body and fingerprint, and exporting again gives the same bundle |
| `Frontmatter.ReimportDetectsChanges` | crates/commands/src/lib.rs:1150-1169 | a replaced skill file is accepted exactly when it reads as the same header and body |
| `HexCursor.LowercaseHex` | crates/service/src/service_keyset_cursor.rs:61-69 | the loop computes the encoding |
| `HexCursor.EncodedDecodes` | crates/service/src/service_keyset_cursor.rs:61-91 | decoding inverts encoding |
| `HexCursor.DecodedReencodes` | crates/service/src/service_keyset_cursor.rs:71-91 | a text decodes to the only bytes that encode to it, and fails exactly when none do |
| `HexCursor.CursorRoundTrip` | crates/service/src/service_keyset_cursor.rs:22-59 | a cursor decodes to itself for its own method and query and is refused for every other |
| `HexCursor.AcceptedCursorText` | crates/service/src/service_keyset_cursor.rs:41-59 | an accepted text is the encoding of a matching payload, and only one text carries given bytes |
| `Decimal.PrintedParses` | crates/service/src/service_host.rs:1793-1831 | every 64-bit row number is read back from its decimal text |
| `HistoryPaging.ListingIsSorted` | crates/catalog/src/queries.rs:704-729 | the listing is the rows, strictly by time and id, descending |
| `HistoryPaging.OrderIsUnique` | crates/catalog/src/queries.rs:704-729 | only one arrangement of rows is in that order |
| `HistoryPaging.ListingPastPlace` | crates/catalog/src/queries.rs:711-719 | the rows selected past a key, ordered, are the rest of the whole listing |
| `HistoryPaging.PageIsStretch` | crates/service/src/service_host.rs:1746-1774 | a page is the next stretch of the listing, with a cursor exactly when more rows follow |
| `HistoryPaging.IdsReadBack` | crates/service/src/service_host.rs:1731-1801 | a history reads back an id it has shown exactly when the id is of its own kind: texts for snapshots, row numbers for events |
| `HistoryPaging.RevisionIdentifiesKeys` | crates/catalog/src/queries.rs:827-833 | for the rows of either history, revisions agree exactly for the same history and key list |
| `HistoryPaging.CursorContinues` | crates/service/src/service_host.rs:1702-1779 | a cursor text of an earlier state continues the listing exactly when the key list is unchanged, and is refused as changed otherwise |
| `HistoryPaging.FirstPage` | crates/service/src/service_host.rs:1848-1859 | a first request is refused exactly for a revision that is not the present one |
| `HistoryPaging.ReadAll` | crates/service/src/service_host.rs:1781-1846 | following the cursor texts of an unchanged history gives the whole listing without gap or repeat in as few pages as possible, and one empty page for no rows |
| `RuleTuning.TwoMapsAreTheTable` | crates/catalog/src/migrations/0005_add_rule_tuning.sql:1-14 | the table is its two maps and the times; there is no row with neither part |
| `RuleTuning.Table.Upsert` | crates/catalog/src/lib.rs:768-794 | a missing part keeps what the row had, a note is replaced only with its suppression, and invalid severities change nothing |
| `RuleTuning.Table.SetSeverityOverride` | crates/catalog/src/lib.rs:673-691 | sets one override and leaves all suppressions |
| `RuleTuning.Table.ClearSeverityOverride` | crates/catalog/src/lib.rs:693-718 | removes one override, leaves all suppressions, and returns whether it was there |
| `RuleTuning.Table.SetSuppression` | crates/catalog/src/lib.rs:720-739 | sets one suppression and leaves all overrides |
| `RuleTuning.Table.ClearSuppression` | crates/catalog/src/lib.rs:741-766 | removes one suppression, leaves all overrides, and returns whether it was there |
| `RuleTuning.Table.Replay` | crates/catalog/src/lib.rs:673-794 | every run of requests acts on two independent maps |
| `RuleTuning.KeysIgnorePadding` | crates/catalog/src/mapping.rs:303-308 | padding does not make another key, and a padded nothing is nothing |
| `RuleTuning.SeverityIsGoverned` | crates/catalog/src/queries.rs:310-332 | the effective severity is that of the most specific applicable override, or the finding's own |
| `RuleTuning.OverrideReaches` | crates/catalog/src/queries.rs:310-332 | setting an override changes exactly the findings it applies to that have no more specific one |
| `RuleTuning.ClearingReveals` | crates/catalog/src/queries.rs:310-332 | clearing an override matters only where it governs, and reveals the next one or the finding's own severity |
| `RuleTuning.ReasonIsGoverned` | crates/catalog/src/queries.rs:361-384 | a finding is suppressed exactly when a suppression applies, with the reason of the most specific one |
| `RuleTuning.NoteFallsThrough` | crates/catalog/src/queries.rs:386-409 | the shown note is not the governing suppression's exactly when that one has none and a broader applicable one has |
| `RuleTuning.NoteOfAnotherReason` | crates/catalog/src/queries.rs:361-409 | an instance of a note shown beside the reason of another row |
| `RuleTuning.ScopeAloneIsInert` | crates/catalog/src/queries.rs:310-409 | a key with a scope and no agent never reaches a finding with an agent |
| `FindingTriage.KeyIdentifies` | crates/catalog/src/mapping.rs:322-332 | for any message, and other texts without separators, keys agree exactly for the same identity, and then contexts agree |
| `FindingTriage.ContextIdentifiesMembers` | crates/catalog/src/refresh.rs:68-102 | contexts agree exactly for the same members and fingerprints |
| `FindingTriage.Catalog.RefreshRuleFindings` | crates/catalog/src/refresh.rs:24-52 | replaces all findings or none, and fails exactly on a repeated id or a failing commit |
| `FindingTriage.Catalog.SetFindingTriage` | crates/catalog/src/lib.rs:631-664 | only current findings are reviewed, only with a valid status, under their current context |
| `FindingTriage.Catalog.ClearFindingTriage` | crates/catalog/src/lib.rs:666-671 | removes the review and returns whether it was there |
| `FindingTriage.Catalog.Replay` | crates/catalog/src/refresh.rs:24-102 | every run of scans, refreshes and reviews, with any messages, refines reviews of identities |
| `FindingTriage.SettableIffCurrent` | crates/catalog/src/refresh.rs:54-66 | a key can be reviewed exactly when its identity is current |
| `FindingTriage.ShownIsLastReview` | crates/catalog/src/queries.rs:436-442 | a finding shows the last review of its identity, else open; the context is implied by the key |
| `FindingTriage.ReviewsSurviveRescans` | crates/catalog/src/refresh.rs:24-52 | scans and refreshes never lose a review, so reverted members bring it back |
| `FindingTriage.ChangedMembersAreNewSubject` | crates/catalog/src/refresh.rs:68-102 | a finding changes its identity exactly when its members change, and then starts open unless that state was reviewed |
| `LegacyPaths.Catalog.CanonicalizeRow` | crates/catalog/src/lib.rs:305-336 | one row is moved to its canonical path or dropped for the row that is there |
| `LegacyPaths.Catalog.CanonicalizeLegacyPaths` | crates/catalog/src/lib.rs:294-339 | places stay unique, canonical places are preserved, no ids appear; complete runs leave every resolvable row canonical and count exactly the moved and merged rows |
| `LegacyPaths.OneRowPerPlace` | crates/catalog/src/lib.rs:294-339 | rows with one canonical place end as exactly one row there |
| `LegacyPaths.RunTwice` | crates/catalog/src/lib.rs:285-289 | a second run, in any order, fixes nothing |
| `SkillTable.HolderOf` | crates/catalog/src/lib.rs:316-322 | finds the row at a place, if there is one |
| `ScanUpdate.JoinedIsUnder` | crates/catalog/src/lib.rs:547-551 | what is written below a directory is under it by components |
| `ScanUpdate.Catalog.UpsertSkillInstance` | crates/catalog/src/lib.rs:341-400 | the row at the place is updated, a new place inserted, and a reused id fails |
| `ScanUpdate.AbsorbsOne` | crates/catalog/src/lib.rs:341-400 | an upsert keeps ids, places and first sightings and touches only the place scanned |
| `ScanUpdate.Catalog.UpsertSkillInstances` | crates/catalog/src/lib.rs:402-407 | the same for a list, with the last scanned contents at every place; it succeeds exactly when each new place comes with a new id and no statement fails, and else keeps what was upserted before |
| `ScanUpdate.UpsertsSucceedIff` | crates/catalog/src/lib.rs:341-407 | without failing statements a list of upserts succeeds exactly when each new place comes with a new id, and then adds just those ids |
| `ScanUpdate.Catalog.SelectToMark` | crates/catalog/src/lib.rs:528-551 | exactly the eligible rows are selected |
| `ScanUpdate.Catalog.MarkMissing` | crates/catalog/src/lib.rs:489-592 | the sweep marks exactly the eligible rows with one event each, or changes nothing |
| `ScanUpdate.SweepIsIdempotent` | crates/catalog/src/lib.rs:528-551 | a sweep repeated marks nothing |
| `ScanUpdate.SweepIsLocal` | crates/catalog/src/mapping.rs:3-33 | seen, tool-global, other-agent and other-project rows and rows outside the roots are never touched |
| `ScanUpdate.Catalog.UpdateFromScan` | crates/commands/src/lib.rs:502-538 | a scan records its instances and sweeps as far as its report is complete, with exactly the events of that sweep; it fails on a taken id, a failing upsert or a failing sweep, and then records only what was upserted |
| `ScanUpdate.Catalog.Replay` | crates/commands/src/lib.rs:502-538 | over every run of scan updates, with any upserts and sweeps failing, the table is the one computed scan by scan, and each row has as many missing events as sweeps that made it missing |
| `ScanUpdate.ExactScanLeavesSeen` | crates/commands/src/lib.rs:514-523 | after an exact scan every row of agent and project that is not missing was seen |
| `ScanUpdate.InexactScanStaysUnderRoots` | crates/commands/src/lib.rs:524-536 | after an inexact scan only rows under completely scanned roots of their scope became missing |
| `PathWalk.NormalizePathLexically` | crates/commands/src/lib.rs:4022-4040 | the loop computes the normal form |
| `PathWalk.NormalForms` | crates/commands/src/lib.rs:4022-4040 | the normal forms are exactly the fixed points, so normalising is idempotent |
| `PathWalk.ParentsAboveTheRoot` | crates/commands/src/lib.rs:4028-4033 | a parent above the root is kept and removed by the next one |
| `PathWalk.InsideIsDepth` | crates/commands/src/config_support.rs:226-258 | a walk stays inside exactly when it never goes up more often than down |
| `PathWalk.NormOfWalk` | crates/commands/src/config_support.rs:261-266 | the normal form of an inside walk is that of its root and the names entered |
| `PathWalk.AdvanceKeepsEntered` | crates/commands/src/config_support.rs:229-251 | the second guard on a parent never decides |
| `PathWalk.ValidateConfigReadPathComponents` | crates/commands/src/config_support.rs:209-268 | accepts exactly the walks that stay inside the root and enter no symbolic link; the later guards never fire |
| `PathWalk.AcceptedStaysBelow` | crates/commands/src/config_support.rs:226-258 | every prefix of an accepted path is at or below the root |
| `PathWalk.ValidateConfigReadTarget` | crates/commands/src/config_support.rs:159-207 | accepts exactly expected targets strictly below their allowed root with an acceptable walk |
| `BatchToggle.PreviewSkillToggles` | crates/commands/src/lib.rs:3013-3120 | the loop computes the partition of the request |
| `BatchToggle.PreviewPartitions` | crates/commands/src/lib.rs:3022-3096 | affected and skipped add up to the request; affected are exactly the writable instances asked for, once each |
| `BatchToggle.GroupByTarget` | crates/commands/src/lib.rs:3141-3156 | each config file gets exactly its items, in order |
| `BatchToggle.Workspace.WriteTarget` | crates/commands/src/lib.rs:3195-3256 | one file: snapshot, patch, write and read back, and when it fails with what effect |
| `BatchToggle.Workspace.RecordItems` | crates/commands/src/lib.rs:3259-3284 | row and event of each item are two statements; a failure leaves the rows and events before it, and a row without event when it falls between the two |
| `BatchToggle.Workspace.ApplySkillToggleGroup` | crates/commands/src/lib.rs:3188-3287 | one target: it succeeds exactly under the given condition and is then applied completely; a failure leaves at most its snapshot, its file changed, and exactly the rows and events that its fate lets through |
| `BatchToggle.Workspace.ApplySkillToggles` | crates/commands/src/lib.rs:3122-3186 | a stale or empty batch changes nothing and is refused exactly as such, and records that cannot be read again change nothing; success applies every target; a failure leaves some targets completely applied, one more partly, or completely but unread, and the rest untouched; when the targets are different files it succeeds exactly when each of them does; afterwards nothing is writable |
| `BatchToggle.CompletedBatch` | crates/commands/src/lib.rs:3122-3186 | a complete batch switches exactly its items, with one event each that names their snapshot, takes one snapshot for each distinct target, and changes no other file |
| `BatchToggle.SnapshotPerTarget` | crates/commands/src/lib.rs:3208-3222 | one snapshot for each target, in the order of the work |
| `BatchToggle.SoleTargetIsPatched` | crates/commands/src/lib.rs:3222-3244 | a file that one target has is patched for all items of that target, starting from the text before the batch |
| `BatchToggle.StoppedTouchesOnlyItems` | crates/commands/src/lib.rs:3141-3186 | a batch that stopped has switched only its items, changed only files of its targets, added only events of items, and kept all earlier snapshots and events |
| `BatchToggle.StoppedEvents` | crates/commands/src/lib.rs:3263-3284 | in a stopped batch each switched row has one new event, but for the one whose event could not be inserted |
| `BatchToggle.EventsMatchUnlessCut` | crates/commands/src/lib.rs:3263-3284 | every switched row has its event exactly when no insertion failed after its row was switched |
| `BatchToggle.RowWithoutEvent` | crates/commands/src/lib.rs:3263-3284 | a batch that leaves a skill switched, in file and row, without an event |
| `BatchToggle.SwitchedPreviewIsEmpty` | crates/commands/src/lib.rs:3051-3062 | after a complete batch a repeated preview has nothing to write |
| `ProjectContext.Store.Normalize` | crates/service/src/project_context.rs:331-341 | flags follow the active project, and a normal store stays as it is |
| `ProjectContext.Store.SetProjectContext` | crates/service/src/project_context.rs:81-96 | the project is active and first of the recent ones, cut to twelve; a failing save changes nothing |
| `ProjectContext.Store.ClearProjectContext` | crates/service/src/project_context.rs:98-107 | nothing is active and the list stays |
| `ProjectContext.Store.RemoveRecentProjectContext` | crates/service/src/project_context.rs:109-123 | one project is forgotten, the active one stays active |
| `ProjectContext.Store.ClearRecentProjectContexts` | crates/service/src/project_context.rs:125-132 | the list is empty, the active project stays |
| `ProjectContext.Store.Replay` | crates/service/src/project_context.rs:81-132 | every run, with any saves failing, keeps ids distinct, at most twelve and flags right, and computes list and active project operation by operation; unless single projects are forgotten, the list is the first twelve of the most recently set ids since it was last emptied |
| `ProjectContext.RecentIsMostRecent` | crates/service/src/project_context.rs:81-132 | that list is the cut of the ids used, most recently used first, for every run without removals |
| `ProjectContext.MostRecentIsByLastUse` | crates/service/src/project_context.rs:81-96 | that list holds exactly the ids set, by their last use |
| `ProjectContext.CuttingEarlyIsCuttingLate` | crates/service/src/project_context.rs:88-91 | cutting after every step loses nothing of the first twelve |
| `Dedup.DedupRecords` | crates/catalog/src/mapping.rs:196-242 | identities in the order of first occurrence, each with its earliest record of the best rank |
| `Dedup.DedupSkillRecords` | crates/catalog/src/mapping.rs:196-218 | the same for catalog records with their state texts |
| `Dedup.DedupIsUnique` | crates/catalog/src/mapping.rs:196-242 | that describes one result |
| `Dedup.DedupIsIdempotent` | crates/catalog/src/mapping.rs:196-242 | deduplicating twice is deduplicating once |
| `Dedup.RanksAgree` | crates/catalog/src/mapping.rs:244-261 | texts and states are ranked alike, and unknown texts last |
| `Slug.IsCanonicalSkillName` | crates/commands/src/lib.rs:2794-2812 | accepts exactly lowercase names with single inner separators |
| `Slug.CanonicalSkillNameSuggestion` | crates/commands/src/lib.rs:2814-2837 | the loop computes the suggestion |
| `Slug.SuggestionIsCanonical` | crates/commands/src/lib.rs:2794-2837 | every suggestion passes the name check |
| `Slug.SuggestionFixesCanonical` | crates/commands/src/lib.rs:2794-2837 | the suggestion keeps exactly the canonical names and is idempotent |
| `Slug.SuggestionKeepsAlnums` | crates/commands/src/lib.rs:2814-2837 | letters and digits survive in order, or there were none |

## Left out

- Skill scanning, YAML, TOML, JSON and JSON5 parsing, SHA-256, adapter patchers and `canonicalize`: opaque functions or inputs.
- File permissions, lock-file contents, process ids, clocks and unlock failures: the lock is an abstract mutex that is released.
- Nested or repeated removal targets: the targets of a plan are taken as pairwise distinct and not nested, and every backup has its own fresh private directory.
- Other programs inside the private backup directories: their names are fresh and their permissions private, so outside edits are made to public paths only.
- The removal preview and its list of preserved paths: the postcondition of the transaction is modelled, the preview is an input.
- Catalog rescans inside the removal, after saves and after rollbacks: their outcome is an input of the removal and not part of the config protocol.
- ConfigProtocol covers one config path; BatchToggle covers several paths without other operations at the same time, except for a differing read-back.
- A batch preview that cannot be read: nothing has been changed by then.
- Batch targets with one path: each finds the text the earlier one left, in the order in which the targets are visited; that order is not fixed.
- Arguments of events (payload texts), message strings, diagnostics and the presentation order of findings.
- The iteration order of ordered maps: definitions, agents and namespaces are visited in an arbitrary order, so the order of definitions and conflicts, and of the members of a merged bucket, is not stated.
- The join from a finding to the instance whose agent and scope select its tuning keys: agent and scope are given.
- The text of batch preview tokens: a token is an arbitrary function of the preview.
- Revalidation of stored projects when a state is returned, and stores written by other versions.
- `list` queries without pages, capability tables, watch plans, search, script previews and the Swift application.
- Concurrent writers of the catalog database: each method stands for one committed or rolled-back use of it.
