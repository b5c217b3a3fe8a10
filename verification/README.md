# Verification of the platform's operational scripts

A Dafny 4.11 model of the scripts that archive and restore PostgreSQL WAL segments, apply database
migrations and gate the platform on them, redact failure details, check test coverage, digest source
files, and run a timed platform session; with proofs of what those scripts are relied on for.
`dafny verify dfyconfig.toml` checks everything.

## What is modelled

**WAL archiving** (`WalNames`, `WalProtocol`, `WalSafety`, `WalRecovery`, `WalHost`, `WalRestore`).
The archive root is a map from typed paths to directory entries; `WalNames` proves that the typed paths
and the file names the scripts build are the same thing. `WalProtocol` is a transition system: any
number of archiver processes, each step one system call of one process, with an exception or a crash
possible before every step, and an environment that may rewrite sources and published files.
`WalSafety` proves what all runs keep, `WalRecovery` which states can still become restorable.
`WalHost` and `WalRestore` hold the two scripts as code on mutable state: between any two system calls
the others run, and every call may raise. `Host` records a ghost trace, so what the archive method does
is proved to be a run of the transition system; a host is `Quiet` (nobody interferes), `Calm` (only
archivers write) or `Hostile` (anything). SHA-256 is a function parameter `h` whose values are 64
hexadecimal digits; it is never assumed to be injective.

Several results are about the gap between the two renames. An archiver that ends there leaves a segment
without a sidecar. From then on every retry returns success and no retry writes the sidecar, so the
segment can never be restored from that archive. `RestorableAgainIffRecoverable` gives the exact
condition under which a state can still become restorable, and `SuccessRestorableIff` says when the
success of one undisturbed archive call means restorable: exactly when the destination was absent
before the call, or was already restorable. Even in runs without any interruption, success means only
that the segment is restorable or that another archiver is still publishing its sidecar.

A restore reports failure with the destination delivered when an exception arrives behind its rename.
`RestoreWalSegment` proves the exact split, and a `Restorer` can be given such an interrupt, so that
`InterruptedRestoreDelivers` shows the input.

**Migrations and the readiness gate** (`Versions`, `Whitespace`, `Migrations`, `Runners`, `Readiness`). A
database is the list of scripts it has executed (its schema is their fold) with its ledger. That a script commits its
effect and its own ledger row together is an assumption, made in `Platform.Execute`. The runner itself
only checks that the script's text mentions the table. Executing a script a second time adds it to the list
again and leaves the ledger as it is, as the shipped scripts do, which insert their row with ON CONFLICT
DO NOTHING (database/nex-ag/migrations/0083_service_job_queue_foundation.sql:43-45). The proofs cover
every crash and resume schedule, every interleaving of two runners, the order of file names against the
order of versions, and the gate's verdict.

**Redaction** (`Texts`, `LetterCase`, `Redaction`), **coverage** (`Coverage`, percentages as reals), **framing**
(`Framing`) and the **session loop** (`Session`, with a clock that may advance at any call).

Where the code does less than one may expect, the exact condition is proved:

- success of an archive call does not mean restorable (`RestorableAgainIffRecoverable`,
  `UnrestorableStateIsReachable`, `SuccessRestorableIff`, `ArchivedRestoresIff`), not even when nothing
  is interrupted (`SuccessMeansRestorable`, `SuccessBeforeSidecar`, `PublisherMeansRestorable`);
- a restore that fails may have delivered its destination (`RestoreWalSegment`,
  `InterruptedRestoreDelivers`);
- the last planned version, reported as the head, need not be the greatest (`PlanHeadIsGreatestIff`,
  `HyphenMisordersHead`), and two scripts may share a version (`PlanVersionsDistinctIff`);
- two runners at once execute scripts twice unless one of them reads the ledger after the other's last
  execution (`OverlapExecutesOnceIff`);
- redaction can leak a secret out of a label (`RedactsEveryDetailIff`); for secrets that can lie across
  the end of a label, one half of the condition is proved, and an input that leaks
  (`SafeLabelsAreNeeded`, `StarLeaks`);
- payloads holding NUL make the digested stream ambiguous (`DeterminesPayloadsIff`).

## Model

| member | source | states |
|---|---|---|
| `ByteStrings.StripDigestLine` | scripts/db/restore_postgres_wal.py:21 | A sidecar holds the digest and a line feed; reading it as ASCII and stripping it gives back the digest that was written. |
| `ByteStrings.StripMeans` | scripts/db/restore_postgres_wal.py:21 | Stripping takes away the white space at both ends of a text, all of it and nothing else. |
| `WalNames.WalNameIff` | scripts/db/archive_postgres_wal.py:12-14 | The accepted names are exactly 24 capital hexadecimal digits of a number, 8 with `.history`, and 24 and 8 with `.backup`. |
| `WalNames.RenderIs` | scripts/db/archive_postgres_wal.py:27-66 | The four families of file names, spelled out. |
| `WalNames.SidecarNamesAgree` | scripts/db/archive_postgres_wal.py:43 | The sidecar name formed with `with_suffix` is the segment name with `.sha256` appended, which is what restore opens, for every name. |
| `WalNames.NumberOfDecimal` | scripts/db/archive_postgres_wal.py:33 | The decimal text of a process id determines it. |
| `WalNames.ParseInvertsRender` | scripts/db/archive_postgres_wal.py:12-66 | For every accepted segment name and process id, a file name can be read back to its family, its segment and its process id. |
| `WalNames.RenderInjective` | scripts/db/archive_postgres_wal.py:27-66 | Segments, sidecars, copy partials and sidecar partials are four disjoint families of names, injective in segment and process id. |
| `WalProtocol.ReadBlockExtends` | scripts/db/archive_postgres_wal.py:57-62 | Reading on by blocks of any positive size keeps a prefix of the file and ends exactly at the whole file. |
| `WalSafety.GoodExec` | scripts/db/archive_postgres_wal.py:21-72 | Every step of any archiver, every exception, crash and start keeps the invariant of published files, partials, phases and the lock. |
| `WalSafety.GoodRun` | scripts/db/archive_postgres_wal.py:21-72 | The invariant holds after every run of such steps. |
| `WalSafety.SafetyOverAllRuns` | scripts/db/archive_postgres_wal.py:29-72 | In every state any number of archivers reach, with crashes anywhere: the destination is absent or the full bytes, the sidecar absent or the line of their digest, no sidecar without its destination, and one live owner of the sidecar partial at most. |
| `WalSafety.DisciplinedExec` | scripts/db/archive_postgres_wal.py:33-72 | The ownership of partials survives every step, even with sources changing and published files tampered with. |
| `WalSafety.PublishesWhatItHashed` | scripts/db/archive_postgres_wal.py:28-44 | Even with sources changing under the copy, only a publish step changes a segment, to bytes that hash to the digest taken of the source; the sidecar likewise, to that digest's line. |
| `WalSafety.DestinationUntilPublish` | scripts/db/archive_postgres_wal.py:33-47 | However many attempts there are and however each fails, with sources changing under them: as long as none has got past its rename, the destination is what it was. |
| `WalSafety.FailedAttemptLeavesNothing` | scripts/db/archive_postgres_wal.py:33-47 | An attempt whose handler has finished left no copy partial of its own; a stale one that blocks the exclusive create makes the attempt raise, is removed, and nothing else changes, but for a directory of that name, which stays. |
| `WalRecovery.RestoreChecksSidecar` | scripts/db/restore_postgres_wal.py:17-24 | While only archivers write, restore's checks pass exactly when the sidecar exists. |
| `WalRecovery.RestorableAgainIffRecoverable` | scripts/db/archive_postgres_wal.py:29-47 | From a reachable state some continuation makes the segment restorable if and only if the sidecar exists, or nothing is published and the lock is free, or a live archiver past the existence check can still finish. |
| `WalRecovery.RetriesSucceedWithoutRepair` | scripts/db/archive_postgres_wal.py:29-32 | From a published segment that is no longer recoverable, every sequence of retries leaves it unrestorable, although each undisturbed retry only hashes, compares and returns success with the segment's digest. |
| `WalRecovery.UnrestorableStateIsReachable` | scripts/db/archive_postgres_wal.py:42-43 | For every segment there is a run of one archiver alone to the place between its two renames, where a crash or any exception as the last step leaves such a state. |
| `WalRecovery.StalePartialCostsOneAttempt` | scripts/db/archive_postgres_wal.py:33-47 | A stale copy partial of the next archiver's process id costs one attempt: that attempt raises and removes it, and the next attempt of the same id leaves the segment restorable. |
| `WalRecovery.RunKeepsPaired` | scripts/db/archive_postgres_wal.py:42-72 | In runs that interrupt nobody between the renames, a lock has a live owner and a segment without sidecar has somebody about to publish it. |
| `WalRecovery.SuccessMeansRestorable` | scripts/db/archive_postgres_wal.py:29-44 | In every such run, an archiver's success means that restore's checks pass, or that some archiver stands between its renames. |
| `WalRecovery.SuccessBeforeSidecar` | scripts/db/archive_postgres_wal.py:29-32 | The second case is real: for every segment there is a run without any interruption in which an archiver has returned success and restore's checks fail. |
| `WalRecovery.PublisherMeansRestorable` | scripts/db/archive_postgres_wal.py:42-44 | An archiver that has got past its second rename leaves the segment restorable in every continuation, whatever has interrupted others before or does so after. |
| `WalHost.SequentialArchiveKeeps` | scripts/db/archive_postgres_wal.py:21-47 | For every archive state, an undisturbed call changes no segment that is there and no file of another segment; a success leaves a file with the returned digest, and a new one with its sidecar; a collision is reported exactly for a symlink or another digest. |
| `WalHost.SuccessRestorableIff` | scripts/db/archive_postgres_wal.py:29-44 | For every archive state, an undisturbed archive call that succeeds leaves the segment restorable if and only if the destination was absent, or was restorable before. |
| `WalHost.Host.HashFile` | scripts/db/archive_postgres_wal.py:57-62 | The block-wise hash loop returns the hash of the whole content. |
| `WalHost.Host.HashSourceFile` | scripts/db/archive_postgres_wal.py:28 | The hash loop over a source that may change is a run of read steps; undisturbed, it is the hash of the source. |
| `WalHost.Host.CopyLoop` | scripts/db/archive_postgres_wal.py:38 | The copy loop is a run of copy steps; undisturbed, the partial ends up with exactly the source's bytes and nothing else changes. |
| `WalHost.Host.CompareWithDestination` | scripts/db/archive_postgres_wal.py:29-32 | With the destination present: collision for a symlink or different hash, otherwise the digest; nothing is written. |
| `WalHost.Host.WriteDigest` | scripts/db/archive_postgres_wal.py:65-72 | The sidecar is created exclusively as a partial, written and renamed; a stale sidecar partial or a directory in the way is an error that leaves what the source leaves. |
| `WalHost.Host.HandleError` | scripts/db/archive_postgres_wal.py:45-47 | The handler removes this process's copy partial and nothing else, and the error goes on; or the unlink itself raises, or refuses a directory, and that error goes on with the partial left. |
| `WalHost.Host.CopyAndPublish` | scripts/db/archive_postgres_wal.py:34-47 | Whatever happens meanwhile, a failure of the try block leaves no copy partial of this process, unless the handler's own unlink failed. |
| `WalHost.Host.ArchiveWalSegment` | scripts/db/archive_postgres_wal.py:21-54 | A call is refused, and changes nothing, exactly for a name that is no WAL name or not the source's own, a missing source, or a symlinked root, with the error of the first of these; any other call is a run of the transition system that ends as the method returns or raises; undisturbed, it has exactly the result and tree of `SequentialArchive`. |
| `WalRestore.SequentialRestoreIff` | scripts/db/restore_postgres_wal.py:13-27 | An undisturbed restore succeeds exactly with an accepted target name, passing archive checks, and a free destination and partial; and each error stands for exactly its own obstacle, the first in the source's order. |
| `WalRestore.ArchivedRestoresIff` | scripts/db/restore_postgres_wal.py:13-40 | After an undisturbed successful archive call, a restore to a fresh destination succeeds, with the same digest, if and only if the destination had been absent or already restorable. |
| `WalRestore.Restorer.CheckArchive` | scripts/db/restore_postgres_wal.py:17-24 | The checks pass only with a digest some sidecar of the run named; undisturbed, they give the source's errors in the source's order. |
| `WalRestore.Restorer.CopyLoop` | scripts/db/restore_postgres_wal.py:29-32 | With the archived file changing before any read, only the partial of this call is written; while only archivers write, a completed copy is the segment. |
| `WalRestore.Restorer.Publish` | scripts/db/restore_postgres_wal.py:36-40 | The rename puts the partial's bytes at the destination, and nothing changes the directory after it, also when an exception arrives behind it and the handler runs. |
| `WalRestore.Restorer.Deliver` | scripts/db/restore_postgres_wal.py:28-40 | Either one step publishes a destination that hashes to the digest read, whether the call then returns or raises; or the call fails with the target as it was, less the partial, or with the partial when the unlink failed. |
| `WalRestore.Restorer.RestoreWalSegment` | scripts/db/restore_postgres_wal.py:13-40 | For an arbitrary, changing archive: the directory changes at this call's partial alone until one publish step, after which the destination hashes to a digest a sidecar named and nothing changes. A failing call has left the directory as it was, less its partial, if and only if it failed before that step. While only archivers write, what is delivered is exactly the archived bytes. Undisturbed, it ends as `SequentialRestore` says, but for an interrupt behind the rename. |
| `WalRestore.ArchiveThenRestore` | scripts/db/restore_postgres_wal.py:13-40 | An undisturbed archive into a root free of the segment's files, then a restore to a fresh destination, succeed, return the same digest and deliver the source's bytes. |
| `WalRestore.InterruptedRestoreDelivers` | scripts/db/restore_postgres_wal.py:36-40 | With one interrupt, behind the rename, the restore of a restorable segment fails and has delivered it, and every retry is refused because of that destination. |
| `Versions.LexLessIff` | scripts/db/run_migrations.py:98 | The order of file names and versions is code-point order: the first difference decides, and a prefix comes first. |
| `Versions.SortedListingUnique` | scripts/db/platform_test_migrations.py:206-212 | A set has one strictly sorted listing, so comparing listings compares sets. |
| `Versions.ListSorted` | scripts/db/run_migrations.py:98 | The sorted listing of a directory holds each name once, in code-point order. |
| `Versions.VersionOrderIff` | scripts/db/run_migrations.py:98-106 | Files in order give versions in order exactly when no later version is a prefix of an earlier one. |
| `Versions.LastIsGreatestIff` | scripts/db/run_migrations.py:98-106 | With the files in order, the last version is the greatest exactly when it is not a proper prefix of an earlier one, whatever the order of the others. |
| `Versions.HyphenMisordersHead` | scripts/db/run_migrations.py:98-106 | A version with `-` after a shared prefix is planned before that prefix, so the plan ends in a version that is not the greatest. |
| `LetterCase.LowerAscii` | scripts/db/run_migrations.py:113 | Lower-casing an ASCII text changes its letters A to Z, each to its own small letter, and nothing else. |
| `Whitespace.WordsAre` | scripts/db/run_migrations.py:113 | A text is its words with blanks around and between them, and no word holds a blank. |
| `Whitespace.CollapseMeans` | scripts/db/run_migrations.py:113 | Joining the words by spaces keeps them and every character that is not blank, in order, and leaves no blanks but single spaces between words. |
| `Migrations.AcceptIff` | scripts/db/run_migrations.py:112-119 | A readable script is accepted exactly when its compact text begins with `begin;`, ends with `commit;` and contains `schema_migrations`; each error is given exactly for the first of these that is missing. |
| `Migrations.LoadMigrations` | scripts/db/run_migrations.py:88-119 | The plan is every script of the directory once, in file-name order, all readable and meeting the three requirements on their compact text; a refusal is that of the first script that does not, for the first requirement it misses. |
| `Migrations.PlanVersionsDistinctIff` | scripts/db/run_migrations.py:98-106 | The versions of a plan are distinct if and only if its directory does not hold both `.sql` and `.sql.sql`. |
| `Migrations.PlanHeadIsGreatestIff` | scripts/db/platform_test_migrations.py:133 | The head that is reported, the last planned version, is the greatest one if and only if it is not a proper prefix of an earlier one. |
| `Migrations.PlanHeadIsGreatest` | scripts/db/platform_test_migrations.py:133 | With all version characters above `.`, as in the shipped names, the plan is strictly increasing and the reported head is the greatest version. |
| `Migrations.Platform.ExecutePending` | scripts/db/run_migrations.py:148-157 | The loop executes exactly the scripts the ledger did not record at its start, in order; a script that raises leaves a prefix of them committed and names itself. |
| `Migrations.Platform.RunServiceMigrations` | scripts/db/run_migrations.py:122-166 | Result, ledger and executed scripts of a completed run, a dry run, and every kind of failed run: refused service or script, connection, ledger, script. |
| `Migrations.PendingAfter` | scripts/db/run_migrations.py:149-157 | After the first k pending scripts have been recorded, the pending scripts are the remaining ones, in order. |
| `Migrations.CrashResumeExactlyOnce` | scripts/db/run_migrations.py:122-166 | For every initial ledger and every sequence of cut-off runs followed by a complete one: exactly the initially pending scripts have been executed, once each, in file order, and the ledger is the initial one with the plan. |
| `Migrations.AppliedAndSkippedPartitionPlan` | scripts/db/run_migrations.py:149-165 | Applied and skipped merge back into the plan, each keeping its order, and are told apart by the ledger. |
| `Runners.RunKeepsOk` | scripts/db/run_migrations.py:146-157 | Whatever the schedule of two runners, each has executed, of the plan so far, exactly what the ledger it read did not hold, and the database is the initial one with all of it. |
| `Runners.SoleRunnerCompletes` | scripts/db/run_migrations.py:146-157 | A runner that is alone leaves what a complete run leaves, as `ExecutePending` computes it. |
| `Runners.OverlapExecutesOnceIff` | scripts/db/run_migrations.py:146-157 | For every schedule of two runners in which both finish: the ledger has gained exactly the plan, and every pending script has been executed exactly once if and only if one runner read the ledger after the other's last execution. |
| `Readiness.HeadComparison` | scripts/db/platform_test_migrations.py:206-212 | The listed ledger equals the sorted plan exactly when the ledger holds the planned versions and nothing else, and the plan names none twice. |
| `Readiness.InspectDatabase` | scripts/db/platform_test_migrations.py:182-213 | Success means identity, select-one and a ledger equal to the plan; a failing connection gives its own code, and otherwise the code is that of the first failing check. |
| `Readiness.HeadVerdict` | scripts/db/platform_test_migrations.py:96-124 | After a completed run the database is at head exactly when its ledger knew no version outside the plan before. |
| `Readiness.Migrate` | scripts/db/platform_test_migrations.py:98-111 | A run is accepted exactly when the service's plan exists and is not empty; it adds exactly the plan to the ledger. |
| `Readiness.ReadyService` | scripts/db/platform_test_migrations.py:96-136 | Success leaves the service exactly at head with its counts; without raising calls the failure code is exactly `Verdict`, so an unknown ledger version gives `migration_head_not_current` although the run succeeded. |
| `Readiness.VerdictMeans` | scripts/db/platform_test_migrations.py:96-124 | The verdict is a pass if and only if the ledger is within the plan and the identity and select-one checks hold; each failure code stands for exactly its own obstacle, the first in the gate's order. |
| `Readiness.GrownKeepsVerdict` | scripts/db/platform_test_migrations.py:96-136 | Running scripts of its plan, to any point, changes nothing about a service's verdict. |
| `Readiness.RunReadiness` | scripts/db/platform_test_migrations.py:82-164 | Over any list of targets, also one that repeats a service: success means every target is exactly at head, with its record and two evidence records each, in order; a failure names the first failing target's service and its code, the targets before it are at head, services that come only after it are untouched. |
| `Readiness.EvidenceAt` | scripts/db/platform_test_migrations.py:137-156 | The evidence is exactly two records for each target, in order, with their phases and codes. |
| `Readiness.SumAdds` | scripts/db/platform_test_migrations.py:64-66 | A total of the projection adds one record's number for each record. |
| `Readiness.TotalsAgree` | scripts/db/platform_test_migrations.py:56-79 | Total migrations are total applied plus total skipped, and there are two evidence records per service. |
| `LetterCase.UpperContainsIff` | scripts/smoke/run_ae_ag_artifact_retention_scheduler_daemon_run_read_model_postgres_smoke.py:700-706 | Upper-casing shows a capital word wherever the text spells it in any letter case, and in an ASCII text nowhere else. |
| `Redaction.SensitiveKeyIff` | scripts/smoke/run_ae_ag_artifact_retention_scheduler_daemon_run_read_model_postgres_smoke.py:700-706 | A key is sensitive exactly when it contains PASSWORD, SECRET or TOKEN, or ends in _DATABASE_URL, in any letter case. |
| `Redaction.OneVariableMore` | scripts/smoke/run_ae_ag_artifact_retention_scheduler_daemon_run_read_model_postgres_smoke.py:697-711 | One more variable adds its value, if its name is sensitive, and behind it the password of its value, if that has one. |
| `Redaction.SensitiveEnvValues` | scripts/smoke/run_ae_ag_artifact_retention_scheduler_daemon_run_read_model_postgres_smoke.py:695-711 | Every non-empty value of a sensitive variable is collected, and every password of a value, under its own key, and nothing else. |
| `Redaction.ReplaceSplits` | scripts/smoke/run_ae_ag_artifact_retention_scheduler_daemon_run_read_model_postgres_smoke.py:691 | Replacing a text in two joined texts replaces in each alone, whenever no occurrence can lie across the seam. |
| `Redaction.ReplaceFirst` | scripts/smoke/run_ae_ag_artifact_retention_scheduler_daemon_run_read_model_postgres_smoke.py:691 | Replacement replaces the first occurrence and goes on behind it. |
| `Redaction.RedactSplits` | scripts/smoke/run_ae_ag_artifact_retention_scheduler_daemon_run_read_model_postgres_smoke.py:687-692 | A text that the secrets cannot overlap at its ends, such as a label, is redacted independently of what surrounds it, by any list of secrets. |
| `Redaction.RedactsEveryDetailIff` | scripts/smoke/run_ae_ag_artifact_retention_scheduler_daemon_run_read_model_postgres_smoke.py:687-692 | For any list of secrets that cannot lie across an end of a label: no detail leaks any secret if and only if no live secret's own label, redacted, does. |
| `Redaction.SafeLabelsAreNeeded` | scripts/smoke/run_ae_ag_artifact_retention_scheduler_daemon_run_read_model_postgres_smoke.py:687-692 | For any list of secrets at all: if no detail leaks any, then no live secret's own label does. |
| `Redaction.PlainSecretsApart` | scripts/smoke/run_ae_ag_artifact_retention_scheduler_daemon_run_read_model_postgres_smoke.py:687-692 | Secrets without `<`, `>` and `*` cannot lie across an end of any label, whatever later replacements do to it. |
| `Redaction.NoSecretInLabels` | scripts/smoke/run_ae_ag_artifact_retention_scheduler_daemon_run_read_model_postgres_smoke.py:687-692 | Secrets that occur in no label and overlap an end of none are hidden from every detail; no later replacement brings an earlier secret back. |
| `Redaction.StarLeaks` | scripts/smoke/run_ae_ag_artifact_retention_scheduler_daemon_run_read_model_postgres_smoke.py:690-691 | A secret that overlaps a label, here by a `*`, can be completed by a password's label and leak, although it occurs in no label. |
| `Redaction.RedactOne` | scripts/smoke/run_ae_ag_artifact_retention_scheduler_daemon_run_read_model_postgres_smoke.py:689-691 | A password is replaced by stars, any other secret by a label with its key, throughout the text. |
| `Redaction.SafeDetail` | scripts/smoke/run_ae_ag_artifact_retention_scheduler_daemon_run_read_model_postgres_smoke.py:687-692 | The loop computes the iterated redaction of the collected secrets; when their labels are safe and apart from them, no value of a sensitive variable and no password is left in the text. |
| `Redaction.AssertEvidenceRedacted` | scripts/smoke/run_ae_ag_artifact_retention_scheduler_daemon_run_read_model_postgres_smoke.py:714-729 | The check reports a leak exactly when some collected value occurs, naming the first; when it reports none, no sensitive value or password occurs, and the local data path is reported exactly when it does. |
| `Redaction.FailureDetail` | scripts/smoke/run_ae_ag_artifact_retention_scheduler_daemon_run_read_model_postgres_smoke.py:687-729 | The secret loop of the check accepts every redacted detail, for every environment whose labels are safe and apart from the secrets. |
| `Coverage.PercentMeans` | scripts/quality/check_coverage_scopes.py:97-98 | The percentage times what there is to cover is a hundred times what is covered; with nothing to cover it is a hundred. |
| `Coverage.PercentCompares` | scripts/quality/check_coverage_scopes.py:97-98 | Comparing the percentage, 100 for nothing to cover, is comparing products. |
| `Coverage.ComponentsJoin` | scripts/quality/check_coverage_scopes.py:50-56 | The components of a path hold no slash, and joined by slashes they are the path. |
| `Coverage.MatchesIffComponentPrefix` | scripts/quality/check_coverage_scopes.py:50-56 | A scope matches a path exactly when its `/`-components are the path's first components. |
| `Coverage.NestedOrDisjoint` | scripts/quality/check_coverage_scopes.py:50-56 | Two scopes that share a path are nested, and so are their matches. |
| `Coverage.EvaluateThresholds` | scripts/quality/check_coverage_thresholds.py:45-79 | Each failure is reported exactly when its percentage is below its minimum. |
| `Coverage.TotalAdds` | scripts/quality/check_coverage_scopes.py:57-72 | One more file adds each of its four numbers to the total, and nothing has the total zero. |
| `Coverage.MatchingAt` | scripts/quality/check_coverage_scopes.py:52-56 | The matching files are those at the positions whose path is the scope or starts with it and a slash, each once. |
| `Coverage.AggregateScope` | scripts/quality/check_coverage_scopes.py:52-72 | The count is the number of matching positions, and the sums are the total of the matching files, of any report. |
| `Coverage.EvaluateScope` | scripts/quality/check_coverage_scopes.py:43-94 | The two percentages are those of the total of the matching files; no failure exactly when some file matches and both reach their minima; each failure exactly for its own cause. |
| `Coverage.CheckScopes` | scripts/quality/check_coverage_scopes.py:24-40 | Exit code 0 exactly when every scope passes. |
| `Coverage.AggregateAtLeast` | scripts/quality/check_coverage_scopes.py:57-74 | An aggregate percentage is at least the least one of its parts. |
| `Coverage.AggregateAtMost` | scripts/quality/check_coverage_scopes.py:57-74 | And at most the greatest one. |
| `Coverage.PartitionSums` | scripts/quality/check_coverage_scopes.py:51-72 | The aggregates of scopes that partition the files add up to the totals. |
| `Coverage.ScopesPassingMeansTotalsPass` | scripts/quality/check_coverage_scopes.py:75-87 | If every file lies in some scope, overlapping or not, and all scopes pass, then the check of the totals passes. |
| `Framing.StreamAdds` | scripts/smoke/repository_revision_evidence.py:15-22 | One more file adds its path, a zero byte, its payload and a zero byte to the stream. |
| `Framing.DecodesIff` | scripts/smoke/repository_revision_evidence.py:16-22 | A decoder inverts the stream on exactly the lists of frames without NUL, so equal streams mean equal lists. |
| `Framing.DeterminesPayloadsIff` | scripts/smoke/repository_revision_evidence.py:16-22 | For a fixed list of paths and arbitrary payloads, the stream determines the payloads if and only if there is at most one path. |
| `Framing.ConfusedStreams` | scripts/smoke/repository_revision_evidence.py:19-22 | For any two or more paths, two different lists of payloads have the same stream. |
| `Framing.AggregateDigest` | scripts/smoke/repository_revision_evidence.py:9-23 | The result is `sha256:` with the hash of exactly the framed stream, and empty exactly when some blob is missing. |
| `Framing.EqualDigestsMeanEqualFiles` | scripts/smoke/repository_revision_evidence.py:9-23 | Equal digests of NUL-free files mean equal paths and payloads, or a collision of the hash itself. |
| `Session.Runtime.NextNap` | scripts/dev/run_platform.py:61-63 | The loop ends only with the deadline reached; otherwise the sleep asked for is never negative, at most a quarter second, and reaches the deadline when it is shorter. |
| `Session.Runtime.Poll` | scripts/dev/run_platform.py:61-64 | The loop ends: at most one health check per started quarter second, sleep never asked for a negative time, and a normal exit only at the deadline. |
| `Session.Runtime.Handle` | scripts/dev/run_platform.py:66-69 | An interrupt becomes 130, an orchestration error its status line and 1; an exception while that line is printed, or any other, goes on. |
| `Session.Runtime.Finish` | scripts/dev/run_platform.py:70-71 | Stop is called once and last, and what it raises replaces the result. |
| `Session.Runtime.RunPlatformSession` | scripts/dev/run_platform.py:49-72 | Every admitted session calls start once and first, stop once and last, and alternates sleep and health check between them; a finite one makes at most ceil(4 * run_seconds) checks, exactly that many when undisturbed. With nothing raised from stop on, an interrupt gives exit code 130 with no failure line, an orchestration error gives 1 with its line once, just before that of stop, nothing raised gives 0 after the whole time, and anything else is raised; what is raised from stop on replaces all of these. |

## Left out

- Power loss, fsync, chmod and file permissions: a crash is the end of a process, and no directory is ever synchronised by the scripts.
- SHA-256 itself: a function with 64 hexadecimal digits as values; no collision resistance is assumed, so statements about hashes are not statements about bytes.
- mkdir of the archive root, the command-line entry points, argparse, environment loading, subprocess, git and the database drivers.
- The replacement of one path by another kind of node while a file is open, and hard links: an open source or archived file is read as the file's latest content, as in-place writes would give.
- WalRestore.Restorer.RestoreWalSegment: one restorer writes its target directory, which lies outside the archive root; other writers of that directory are not modelled.
- WalHost.Host.ArchiveWalSegment: a read loop over a source that grows faster than it is read is taken to end with an exception after some number of blocks, since the source's loop need not end.
- Migrations.Platform.Execute: assumes that each script commits its effect and its own ledger row atomically, which the runner cannot enforce; the script text is not interpreted.
- Migrations.Platform.RunServiceMigrations: an exception raised while the connection is closed, after the last script, is not modelled.
- Runners.OverlapExecutesOnceIff: both runners finish; runs that end early are the subject of Migrations.CrashResumeExactlyOnce.
- Readiness.RunReadiness: databases are kept by service id, so two services that share one database URL are not modelled.
- Resolution of the readiness targets (`configuration_invalid`) and the validation of evidence records, whose source is not part of this model.
- Redaction.SensitiveEnvValues: the password of a database URL is a parameter function, so `urlsplit` and `unquote` are not modelled.
- Redaction.RedactsEveryDetailIff: for secrets that can lie across an end of a label, only one half is proved (Redaction.SafeLabelsAreNeeded); whether such a secret leaks depends on how it overlaps itself and the other secrets, and Redaction.StarLeaks is one input where it does.
- Coverage.EvaluateScope: takes the scope already normalised (path normalisation and the stripping of slashes are not modelled) and percentages as exact reals, not floating point.
- Coverage.ScopesPassingMeansTotalsPass: takes the report's totals to be the sums over its files.
- file_digests_at_revision_match and the UTF-8 encoding of paths in the digest: the paths are byte strings already.
- Session.Runtime.RunPlatformSession: exceptions arise inside calls, so an interrupt between two calls, or before the try block, is not modelled; an unlimited session is followed up to the call that raises, after any number of successful checks.
- The job queue, leases and daemons of the shared runtime packages, the other smoke scripts, the image builder and the quality gate: their checks are branch by branch.
