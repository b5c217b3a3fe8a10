/** The platform's migration gate: migrate each service, then require its database to be exactly at
    head, stopping at the first service that is not. */
module Readiness {
  import opened Options
  import opened Versions
  import opened Migrations

  datatype Target = Target(serviceId: string, expectedName: string, expectedRole: string)

  datatype FailureCode =
    | MigrationFailed
    | DatabaseReadinessFailed
    | DatabaseIdentityMismatch
    | DatabaseSelectOneFailed
    | MigrationHeadNotCurrent

  datatype Record = Record(
    serviceId: string,
    migrationCount: nat,
    appliedCount: nat,
    skippedCount: nat,
    headVersion: string)

  datatype Evidence = Evidence(serviceId: string, phase: string, codes: seq<string>)

  datatype Gate = Ready(services: seq<Record>, evidence: seq<Evidence>) | NotReady(code: FailureCode, serviceId: string)

  // ----- sorted(planned) -----

  function Insert(x: string, s: seq<string>): seq<string> {
    if s == [] || !LexLess(s[0], x) then [x] + s else [s[0]] + Insert(x, s[1..])
  }

  function Sorted(s: seq<string>): seq<string> {
    if s == [] then [] else Insert(s[0], Sorted(s[1..]))
  }

  ghost predicate WeaklySorted(s: seq<string>) {
    forall i, j | 0 <= i < j < |s| :: !LexLess(s[j], s[i])
  }

  lemma {:induction false} InsertSorts(x: string, s: seq<string>)
    requires WeaklySorted(s)
    ensures WeaklySorted(Insert(x, s)) && multiset(Insert(x, s)) == multiset(s) + multiset{x}
  {
    var r := Insert(x, s);
    if s == [] {
    } else if !LexLess(s[0], x) {
      forall j | 1 <= j < |r| ensures !LexLess(r[j], x) {
        LexTrichotomy(s[0], x);
        LexTrichotomy(s[j - 1], s[0]);
        if LexLess(s[j - 1], x) && s[0] != x && s[j - 1] != s[0] {
          LexTransitive(s[0], s[j - 1], x);
        }
      }
    } else {
      InsertSorts(x, s[1..]);
      InsertKeepsLeast(x, s);
    }
  }

  lemma InsertKeepsLeast(x: string, s: seq<string>)
    requires WeaklySorted(s) && s != [] && LexLess(s[0], x)
    requires WeaklySorted(Insert(x, s[1..])) && multiset(Insert(x, s[1..])) == multiset(s[1..]) + multiset{x}
    ensures WeaklySorted([s[0]] + Insert(x, s[1..]))
    ensures multiset([s[0]] + Insert(x, s[1..])) == multiset(s) + multiset{x}
  {
    var t := Insert(x, s[1..]);
    assert s == [s[0]] + s[1..];
    LexTrichotomy(x, s[0]);
    forall j | 0 <= j < |t| ensures !LexLess(t[j], s[0]) {
      assert t[j] in multiset(t);
      assert t[j] in s[1..] || t[j] == x;
    }
  }

  lemma {:induction false} SortedSorts(s: seq<string>)
    ensures WeaklySorted(Sorted(s)) && multiset(Sorted(s)) == multiset(s)
  {
    if s != [] {
      SortedSorts(s[1..]);
      InsertSorts(s[0], Sorted(s[1..]));
      assert s == [s[0]] + s[1..];
    }
  }

  // Without repetitions, in-order means strictly in order; and repetitions show in the multiset.
  lemma DistinctByMultiset(a: seq<string>, b: seq<string>)
    requires multiset(a) == multiset(b) && Distinct(a)
    ensures Distinct(b) && Elements(a) == Elements(b)
  {
    forall i, j | 0 <= i < j < |b| ensures b[i] != b[j] {
      if b[i] == b[j] {
        assert b == b[..j] + [b[j]] + b[j + 1..];
        assert multiset(b)[b[j]] >= 2 by {
          assert b[i] in b[..j];
        }
        MultiplicityOne(a, b[j]);
      }
    }
    forall x ensures x in Elements(a) <==> x in Elements(b) {
      assert x in a <==> x in multiset(a);
      assert x in b <==> x in multiset(b);
    }
  }

  lemma {:induction false} MultiplicityOne(a: seq<string>, x: string)
    requires Distinct(a)
    ensures multiset(a)[x] <= 1
  {
    if a != [] {
      var init := a[..|a| - 1];
      MultiplicityOne(init, x);
      assert a == init + [a[|a| - 1]];
      assert a[|a| - 1] == x ==> x !in init;
    }
  }

  /** The rows the database lists equal sorted(planned) exactly when the ledger holds the planned
      versions and nothing else (and the plan names none twice). */
  lemma HeadComparison(rows: seq<string>, ledger: set<string>, planned: seq<string>)
    requires StrictlySorted(rows) && Elements(rows) == ledger
    ensures rows == Sorted(planned) <==> ledger == Elements(planned) && Distinct(planned)
  {
    SortedSorts(planned);
    var s := Sorted(planned);
    if rows == s {
      forall i, j | 0 <= i < j < |s| ensures s[i] != s[j] {
        LexTrichotomy(s[i], s[j]);
      }
      DistinctByMultiset(s, planned);
    }
    if ledger == Elements(planned) && Distinct(planned) {
      DistinctByMultiset(planned, s);
      forall i, j | 0 <= i < j < |s| ensures LexLess(s[i], s[j]) {
        LexTrichotomy(s[i], s[j]);
      }
      SortedListingUnique(rows, s);
    }
  }

  // ----- _inspect_database -----

  predicate Identified(db: Database, t: Target) {
    db.name == t.expectedName && db.role == t.expectedRole && db.selectOne == 1
  }

  method InspectDatabase(platform: Platform, t: Target, planned: seq<string>)
    returns (failure: Option<FailureCode>, ghost connected: bool)
    ensures connected ==> t.serviceId in platform.databases
    ensures platform.reliable ==> (connected <==> t.serviceId in platform.databases)
    ensures !connected ==> failure == Some(DatabaseReadinessFailed)
    ensures failure.None? ==>
              && t.serviceId in platform.databases
              && var db := platform.databases[t.serviceId];
                 Identified(db, t) && db.ledger == Elements(planned) && Distinct(planned)
    ensures connected ==>
              var db := platform.databases[t.serviceId];
              failure ==
                if (db.name, db.role) != (t.expectedName, t.expectedRole) then Some(DatabaseIdentityMismatch)
                else if db.selectOne != 1 then Some(DatabaseSelectOneFailed)
                else if !(db.ledger == Elements(planned) && Distinct(planned)) then Some(MigrationHeadNotCurrent)
                else None
  {
    var raised := platform.MayRaise();
    connected := !raised && t.serviceId in platform.databases;
    if raised || t.serviceId !in platform.databases {
      return Some(DatabaseReadinessFailed), connected;
    }
    var db := platform.databases[t.serviceId];
    if (db.name, db.role) != (t.expectedName, t.expectedRole) {
      return Some(DatabaseIdentityMismatch), connected;
    }
    if db.selectOne != 1 {
      return Some(DatabaseSelectOneFailed), connected;
    }
    var rows := ListSorted(db.ledger);
    HeadComparison(rows, db.ledger, planned);
    failure := if rows == Sorted(planned) then None else Some(MigrationHeadNotCurrent);
  }

  // ----- one service -----

  // The service is known, and this non-empty plan is its directory's.
  ghost predicate RunnablePlan(directories: map<string, Directory>, service: string, plan: seq<Migration>) {
    service in SERVICES && service in directories && IsPlan(service, directories[service], plan) && plan != []
  }

  // And it names no version twice.
  ghost predicate PlanFor(directories: map<string, Directory>, service: string, plan: seq<Migration>) {
    RunnablePlan(directories, service, plan) && Distinct(VersionsOf(plan))
  }

  ghost predicate Runnable(directories: map<string, Directory>, databases: map<string, Database>, t: Target) {
    t.serviceId in databases && exists plan: seq<Migration> :: RunnablePlan(directories, t.serviceId, plan)
  }

  ghost predicate Reachable(databases: map<string, Database>, t: Target) {
    t.serviceId in databases && Identified(databases[t.serviceId], t)
  }

  /** The database's ledger holds the plan and nothing else. */
  ghost predicate AtHead(directories: map<string, Directory>, databases: map<string, Database>, t: Target) {
    && Reachable(databases, t)
    && exists plan: seq<Migration> :: PlanFor(directories, t.serviceId, plan)
                      && databases[t.serviceId].ledger == Elements(VersionsOf(plan))
  }

  /** The database's ledger holds no version the plan does not know. */
  ghost predicate CanReachHead(directories: map<string, Directory>, databases: map<string, Database>, t: Target) {
    && Reachable(databases, t)
    && exists plan: seq<Migration> :: PlanFor(directories, t.serviceId, plan)
                      && databases[t.serviceId].ledger <= Elements(VersionsOf(plan))
  }

  // How the gate ends for a service, when no script raises and no connection fails.
  ghost function Verdict(directories: map<string, Directory>, databases: map<string, Database>, t: Target)
    : Option<FailureCode>
  {
    if !Runnable(directories, databases, t) then Some(MigrationFailed)
    else
      var db := databases[t.serviceId];
      if (db.name, db.role) != (t.expectedName, t.expectedRole) then Some(DatabaseIdentityMismatch)
      else if db.selectOne != 1 then Some(DatabaseSelectOneFailed)
      else if !CanReachHead(directories, databases, t) then Some(MigrationHeadNotCurrent)
      else None
  }

  /** What each verdict stands for: a pass, that the service can reach head; and the first obstacle that it
      meets otherwise. */
  lemma VerdictMeans(directories: map<string, Directory>, databases: map<string, Database>, t: Target)
    ensures Verdict(directories, databases, t).None? <==> CanReachHead(directories, databases, t)
    ensures Verdict(directories, databases, t) == Some(MigrationFailed) <==>
            !(t.serviceId in databases && exists plan :: RunnablePlan(directories, t.serviceId, plan))
    ensures var v, known := Verdict(directories, databases, t), Runnable(directories, databases, t);
            && (v == Some(DatabaseIdentityMismatch) <==>
                  known && !(databases[t.serviceId].name == t.expectedName
                             && databases[t.serviceId].role == t.expectedRole))
            && (v == Some(DatabaseSelectOneFailed) <==>
                  && known && databases[t.serviceId].name == t.expectedName
                  && databases[t.serviceId].role == t.expectedRole && databases[t.serviceId].selectOne != 1)
            && (v == Some(MigrationHeadNotCurrent) <==>
                  && known && databases[t.serviceId].name == t.expectedName
                  && databases[t.serviceId].role == t.expectedRole && databases[t.serviceId].selectOne == 1
                  && forall plan | PlanFor(directories, t.serviceId, plan) ::
                       !(databases[t.serviceId].ledger <= Elements(VersionsOf(plan))))
            && v != Some(DatabaseReadinessFailed)
  {
    if CanReachHead(directories, databases, t) {
      var plan :| PlanFor(directories, t.serviceId, plan);
      assert RunnablePlan(directories, t.serviceId, plan);
    }
  }

  lemma PlanUnique(service: string, dir: Directory, a: seq<Migration>, b: seq<Migration>)
    requires IsPlan(service, dir, a) && IsPlan(service, dir, b)
    ensures a == b
  {
    SortedListingUnique(Paths(a), Paths(b));
    assert |a| == |Paths(a)| == |b|;
    forall i | 0 <= i < |a| ensures a[i] == b[i] {
      assert a[i] in a && b[i] in b && Paths(a)[i] == Paths(b)[i];
    }
  }

  // A completed run makes the ledger old + plan, which is the plan just when nothing unknown was there.
  lemma LedgerAfterRun(db: Database, plan: seq<Migration>)
    ensures var db' := RunCut(db, plan, |plan|);
            && db' == db.(executed := db'.executed, ledger := db.ledger + Elements(VersionsOf(plan)))
            && (db'.ledger == Elements(VersionsOf(plan)) <==> db.ledger <= Elements(VersionsOf(plan)))
  {
    var pending := Pending(plan, db.ledger);
    PendingLength(plan, db.ledger);
    assert pending[..|pending|] == pending;
    CommitAllEffect(db, pending);
    LedgerGainsPlan(plan, db.ledger);
  }

  // _validate_migration_result.
  predicate ResultAccepted(r: RunResult, service: string) {
    && r.serviceId == service && r.profile == "test" && !r.dryRun
    && r.planned != [] && |r.applied| + |r.skipped| == |r.planned|
  }

  // Whatever runner a result comes from, these are the results that go through.
  lemma AcceptedIff(r: RunResult, service: string)
    ensures ResultAccepted(r, service) <==>
            && (r.serviceId, r.profile, r.dryRun) == (service, "test", false)
            && 0 < |r.planned| == |r.applied| + |r.skipped|
  {
  }

  // The record counts the plan, what of it the ledger did not hold before (nothing, when the service has
  // been migrated already), and what it held; and it names the plan's last version.
  ghost predicate RecordFor(directories: map<string, Directory>, before: map<string, Database>, again: bool,
                            t: Target, r: Record)
  {
    && r.serviceId == t.serviceId && t.serviceId in before
    && r.migrationCount == r.appliedCount + r.skippedCount
    && exists plan: seq<Migration> ::
         && PlanFor(directories, t.serviceId, plan)
         && r.migrationCount == |plan| && r.headVersion == plan[|plan| - 1].version
         && r.appliedCount == if again then 0 else |Pending(plan, before[t.serviceId].ledger)|
  }

  lemma RefusedHasNoPlan(service: string, dir: Directory, error: MigrationError, plan: seq<Migration>)
    requires FirstRefused(dir, error)
    ensures !IsPlan(service, dir, plan)
  {
    var path :| path in Scripts(dir) && RefusedFor(error, path, dir[path]);
    assert Elements(Paths(plan)) == Scripts(dir) ==> path in Elements(Paths(plan));
    assert forall i | 0 <= i < |plan| :: plan[i] in plan;
  }

  // After a completed run, the database is at head just when it could reach head before.
  lemma HeadVerdict(directories: map<string, Directory>, before: map<string, Database>,
                    after: map<string, Database>, t: Target, plan: seq<Migration>)
    requires t.serviceId in SERVICES && t.serviceId in directories && t.serviceId in before && t.serviceId in after
    requires IsPlan(t.serviceId, directories[t.serviceId], plan) && plan != []
    requires var db, db' := before[t.serviceId], after[t.serviceId];
             db' == db.(executed := db'.executed, ledger := db.ledger + Elements(VersionsOf(plan)))
    ensures Reachable(before, t) <==> Reachable(after, t)
    ensures var ok := Reachable(after, t) && Distinct(VersionsOf(plan))
                      && after[t.serviceId].ledger == Elements(VersionsOf(plan));
            (ok <==> CanReachHead(directories, before, t)) && (ok ==> AtHead(directories, after, t))
  {
    forall p | PlanFor(directories, t.serviceId, p) ensures p == plan {
      PlanUnique(t.serviceId, directories[t.serviceId], p, plan);
    }
    assert Distinct(VersionsOf(plan)) ==> PlanFor(directories, t.serviceId, plan);
  }

  // Only this service's database may have changed.
  ghost predicate OnlyChanges(before: map<string, Database>, after: map<string, Database>, service: string) {
    && before.Keys == after.Keys
    && forall s | s in before && s != service :: after[s] == before[s]
  }

  ghost predicate Planned(directories: map<string, Directory>, service: string, version: string) {
    exists plan: seq<Migration> :: RunnablePlan(directories, service, plan) && version in VersionsOf(plan)
  }

  // A database has changed by running scripts of its service's plan, if at all.
  ghost predicate Grown(directories: map<string, Directory>, service: string, before: Database, after: Database) {
    && (after.name, after.role, after.selectOne) == (before.name, before.role, before.selectOne)
    && before.ledger <= after.ledger
    && forall v | v in after.ledger && v !in before.ledger :: Planned(directories, service, v)
  }

  ghost predicate AllGrown(directories: map<string, Directory>, before: map<string, Database>,
                           after: map<string, Database>)
  {
    && before.Keys == after.Keys
    && forall s | s in before :: Grown(directories, s, before[s], after[s])
  }

  lemma RunGrows(directories: map<string, Directory>, service: string, db: Database, plan: seq<Migration>, k: nat)
    requires service in SERVICES && service in directories && IsPlan(service, directories[service], plan)
    ensures Grown(directories, service, db, RunCut(db, plan, k))
  {
    var pending := Pending(plan, db.ledger);
    var done := if k < |pending| then pending[..k] else pending;
    CommitAllEffect(db, done);
    PendingMembers(plan, db.ledger);
    forall v | v in Elements(VersionsOf(done)) ensures Planned(directories, service, v) {
      var i :| 0 <= i < |done| && VersionsOf(done)[i] == v;
      assert done[i] == pending[i] && pending[i] in plan;
      var j :| 0 <= j < |plan| && plan[j] == done[i];
      assert VersionsOf(plan)[j] == v;
      assert RunnablePlan(directories, service, plan);
    }
  }

  // What has grown is a subset of any plan just when it was one before.
  lemma GrownWithinPlan(directories: map<string, Directory>, service: string, before: Database, after: Database,
                        plan: seq<Migration>)
    requires Grown(directories, service, before, after) && RunnablePlan(directories, service, plan)
    ensures before.ledger <= Elements(VersionsOf(plan)) <==> after.ledger <= Elements(VersionsOf(plan))
  {
    forall v | v in after.ledger && v !in before.ledger ensures v in Elements(VersionsOf(plan)) {
      var p :| RunnablePlan(directories, service, p) && v in VersionsOf(p);
      PlanUnique(service, directories[service], p, plan);
    }
  }

  lemma GrownKeepsHead(directories: map<string, Directory>, before: map<string, Database>,
                       after: map<string, Database>, t: Target)
    requires AllGrown(directories, before, after) && AtHead(directories, before, t)
    ensures AtHead(directories, after, t)
  {
    var plan :| PlanFor(directories, t.serviceId, plan) && before[t.serviceId].ledger == Elements(VersionsOf(plan));
    assert RunnablePlan(directories, t.serviceId, plan);
    GrownWithinPlan(directories, t.serviceId, before[t.serviceId], after[t.serviceId], plan);
  }

  lemma GrownKeepsVerdict(directories: map<string, Directory>, before: map<string, Database>,
                          after: map<string, Database>, t: Target)
    requires AllGrown(directories, before, after)
    ensures Verdict(directories, before, t) == Verdict(directories, after, t)
  {
    forall plan | t.serviceId in before && PlanFor(directories, t.serviceId, plan)
      ensures before[t.serviceId].ledger <= Elements(VersionsOf(plan))
              <==> after[t.serviceId].ledger <= Elements(VersionsOf(plan))
    {
      GrownWithinPlan(directories, t.serviceId, before[t.serviceId], after[t.serviceId], plan);
    }
  }

  lemma GrownTransitive(directories: map<string, Directory>, a: map<string, Database>, b: map<string, Database>,
                        c: map<string, Database>)
    requires AllGrown(directories, a, b) && AllGrown(directories, b, c)
    ensures AllGrown(directories, a, c)
  {
  }

  // The run, and _validate_migration_result.
  method Migrate(platform: Platform, t: Target) returns (r: Option<RunResult>, ghost plan: seq<Migration>)
    modifies platform
    ensures OnlyChanges(old(platform.databases), platform.databases, t.serviceId)
    ensures AllGrown(platform.directories, old(platform.databases), platform.databases)
    ensures r.Some? ==>
              && t.serviceId in SERVICES && t.serviceId in platform.directories
              && IsPlan(t.serviceId, platform.directories[t.serviceId], plan) && plan != []
              && t.serviceId in old(platform.databases)
              && r.value.planned == VersionsOf(plan) && |r.value.applied| + |r.value.skipped| == |plan|
              && |r.value.applied| == |Pending(plan, old(platform.databases)[t.serviceId].ledger)|
              && var db, db' := old(platform.databases)[t.serviceId], platform.databases[t.serviceId];
                 db' == db.(executed := db'.executed, ledger := db.ledger + Elements(VersionsOf(plan)))
    ensures platform.reliable ==> (r.Some? <==> Runnable(platform.directories, old(platform.databases), t))
  {
    var migration;
    migration, plan := platform.RunServiceMigrations(t.serviceId, false, "test");
    ServiceGrows(platform.directories, old(platform.databases), platform.databases, t.serviceId, migration, plan);
    if migration.Failure? {
      if platform.reliable {
        FailureMeansNotRunnable(platform.directories, old(platform.databases), t, migration.error);
      }
      return None, plan;
    }
    ghost var db := old(platform.databases)[t.serviceId];
    PlanDecidesRunnable(platform.directories, old(platform.databases), t, plan);
    PendingLength(plan, db.ledger);
    LedgerAfterRun(db, plan);
    r := if ResultAccepted(migration.value, t.serviceId) then Some(migration.value) else None;
  }

  lemma ServiceGrows(directories: map<string, Directory>, before: map<string, Database>, after: map<string, Database>,
                     service: string, r: Result<RunResult>, plan: seq<Migration>)
    requires r.Success? || r.error.ScriptFailed? ==>
               && service in before && service in SERVICES && service in directories
               && IsPlan(service, directories[service], plan)
    requires r.Success? ==> after == before[service := RunCut(before[service], plan, |plan|)]
    requires r.Failure? && r.error.ScriptFailed? ==> CutShort(before, after, service, plan, r.error.version)
    requires r.Failure? && !r.error.ScriptFailed? ==> after == before
    ensures AllGrown(directories, before, after)
  {
    if r.Success? {
      RunGrows(directories, service, before[service], plan, |plan|);
    } else if r.error.ScriptFailed? {
      var k :| 0 <= k && after == before[service := RunCut(before[service], plan, k)];
      RunGrows(directories, service, before[service], plan, k);
    }
  }

  lemma FailureMeansNotRunnable(directories: map<string, Directory>, databases: map<string, Database>, t: Target,
                                error: MigrationError)
    requires !error.ScriptFailed? && !error.LedgerFailed? && (error.ConnectFailed? ==> t.serviceId !in databases)
    requires t.serviceId in SERVICES && !error.ConnectFailed? && t.serviceId in directories ==>
               error.DirectoryMissing? || FirstRefused(directories[t.serviceId], error)
    requires error.DirectoryMissing? ==> t.serviceId !in directories
    ensures !Runnable(directories, databases, t)
  {
    forall plan ensures t.serviceId in databases ==> !RunnablePlan(directories, t.serviceId, plan) {
      if t.serviceId in databases && t.serviceId in directories && FirstRefused(directories[t.serviceId], error) {
        RefusedHasNoPlan(t.serviceId, directories[t.serviceId], error, plan);
      }
    }
  }

  lemma PlanDecidesRunnable(directories: map<string, Directory>, databases: map<string, Database>, t: Target,
                            plan: seq<Migration>)
    requires t.serviceId in SERVICES && t.serviceId in directories && t.serviceId in databases
    requires IsPlan(t.serviceId, directories[t.serviceId], plan)
    ensures Runnable(directories, databases, t) <==> plan != []
  {
    if Runnable(directories, databases, t) {
      var p :| RunnablePlan(directories, t.serviceId, p);
      PlanUnique(t.serviceId, directories[t.serviceId], p, plan);
    } else {
      assert !RunnablePlan(directories, t.serviceId, plan);
    }
  }

  /** Migrate, then inspect. It succeeds only with the service exactly at head; with no raising script
      and no failing connection it succeeds exactly when the ledger knew no version outside the plan:
      an unknown version fails the gate although the migration run itself succeeded. */
  method ReadyService(platform: Platform, t: Target) returns (failure: Option<FailureCode>, record: Record)
    modifies platform
    ensures OnlyChanges(old(platform.databases), platform.databases, t.serviceId)
    ensures AllGrown(platform.directories, old(platform.databases), platform.databases)
    ensures failure.None? ==>
              && AtHead(platform.directories, platform.databases, t)
              && RecordFor(platform.directories, old(platform.databases), false, t, record)
    ensures platform.reliable ==> failure == Verdict(platform.directories, old(platform.databases), t)
  {
    record := Record(t.serviceId, 0, 0, 0, "");
    var migrated, plan := Migrate(platform, t);
    if migrated.None? {
      return Some(MigrationFailed), record;
    }
    var m := migrated.value;
    HeadVerdict(platform.directories, old(platform.databases), platform.databases, t, plan);
    ghost var connected;
    failure, connected := InspectDatabase(platform, t, m.planned);
    record := Record(t.serviceId, |m.planned|, |m.applied|, |m.skipped|, m.planned[|m.planned| - 1]);
    if failure.None? {
      RecordOfRun(platform.directories, old(platform.databases), t, m, plan, record);
    }
  }

  lemma RecordOfRun(directories: map<string, Directory>, before: map<string, Database>, t: Target,
                    m: RunResult, plan: seq<Migration>, r: Record)
    requires PlanFor(directories, t.serviceId, plan) && t.serviceId in before
    requires |m.applied| == |Pending(plan, before[t.serviceId].ledger)|
    requires |m.planned| == |plan| > 0 && |m.applied| + |m.skipped| == |plan|
    requires m.planned[|plan| - 1] == plan[|plan| - 1].version
    requires r == Record(t.serviceId, |m.planned|, |m.applied|, |m.skipped|, m.planned[|m.planned| - 1])
    ensures RecordFor(directories, before, false, t, r)
  {
  }

  // ----- the platform -----

  function EvidenceFor(t: Target): seq<Evidence> {
    [Evidence(t.serviceId, "MIGRATION", ["migration_head_current"]),
     Evidence(t.serviceId, "POOL_READINESS", ["database_identity_confirmed", "select_one_ready"])]
  }

  function AllEvidence(targets: seq<Target>): seq<Evidence> {
    if targets == [] then [] else AllEvidence(targets[..|targets| - 1]) + EvidenceFor(targets[|targets| - 1])
  }

  /** The evidence is two records for each target, in order: the migration's, and the pool's. */
  lemma {:induction false} EvidenceAt(targets: seq<Target>)
    ensures |AllEvidence(targets)| == 2 * |targets|
    ensures forall i | 0 <= i < |targets| ::
              && AllEvidence(targets)[2 * i]
                 == Evidence(targets[i].serviceId, "MIGRATION", ["migration_head_current"])
              && AllEvidence(targets)[2 * i + 1]
                 == Evidence(targets[i].serviceId, "POOL_READINESS",
                             ["database_identity_confirmed", "select_one_ready"])
  {
    if targets != [] {
      var init := targets[..|targets| - 1];
      EvidenceAt(init);
      assert forall i | 0 <= i < |init| :: targets[i] == init[i];
    }
  }

  function ServicesOf(targets: seq<Target>): set<string> {
    set t | t in targets :: t.serviceId
  }

  // The first i targets have been dealt with: they are at head, and other services have not been touched.
  ghost predicate Progress(directories: map<string, Directory>, before: map<string, Database>,
                           after: map<string, Database>, targets: seq<Target>, i: nat)
    requires i <= |targets|
  {
    && AllGrown(directories, before, after)
    && (forall j | 0 <= j < i :: AtHead(directories, after, targets[j]))
    && forall s | s in before && s !in ServicesOf(targets[..i]) :: after[s] == before[s]
  }

  // The gate stopped at position i: the targets before it are at head, and the services that come only
  // after it have not been touched.
  ghost predicate StoppedAt(directories: map<string, Directory>, before: map<string, Database>,
                            after: map<string, Database>, targets: seq<Target>, i: nat, service: string)
  {
    && i < |targets| && targets[i].serviceId == service
    && before.Keys == after.Keys
    && (forall j | 0 <= j < i :: AtHead(directories, after, targets[j]))
    && forall s | s in before && s !in ServicesOf(targets[..i + 1]) :: after[s] == before[s]
  }

  // The i-th record is about the i-th target; a service named before has nothing left to apply.
  ghost predicate Records(directories: map<string, Directory>, before: map<string, Database>,
                          targets: seq<Target>, records: seq<Record>)
  {
    && |records| <= |targets|
    && forall i | 0 <= i < |records| ::
         RecordFor(directories, before, targets[i].serviceId in ServicesOf(targets[..i]), targets[i], records[i])
  }

  ghost predicate AllCanReachHead(directories: map<string, Directory>, databases: map<string, Database>,
                                  targets: seq<Target>)
  {
    forall i | 0 <= i < |targets| :: CanReachHead(directories, databases, targets[i])
  }

  /** run_platform_test_migration_readiness, for any list of targets. Success means every service is
      exactly at head, with two evidence records each, in order. A failure names the first service
      that is not: those before it are at head, those after it untouched. With no raising script and
      no failing connection, it succeeds exactly when every service could reach head. */
  method RunReadiness(platform: Platform, targets: seq<Target>) returns (r: Gate)
    modifies platform
    ensures r.Ready? ==>
              && Progress(platform.directories, old(platform.databases), platform.databases, targets, |targets|)
              && |r.services| == |targets|
              && Records(platform.directories, old(platform.databases), targets, r.services)
              && r.evidence == AllEvidence(targets)
    ensures r.NotReady? ==>
              exists i: nat ::
                && StoppedAt(platform.directories, old(platform.databases), platform.databases, targets, i, r.serviceId)
                && (platform.reliable ==>
                      Verdict(platform.directories, old(platform.databases), targets[i]) == Some(r.code))
    ensures platform.reliable ==>
              (r.Ready? <==> AllCanReachHead(platform.directories, old(platform.databases), targets))
  {
    ghost var start := platform.databases;
    var records: seq<Record> := [];
    var evidence: seq<Evidence> := [];
    for i := 0 to |targets|
      invariant Visited(platform, start, targets, i, records, evidence)
    {
      var failure;
      failure, records, evidence := ReadyNext(platform, start, targets, i, records, evidence);
      if failure.Some? {
        return NotReady(failure.value, targets[i].serviceId);
      }
    }
    assert targets[..|targets|] == targets;
    r := Ready(records, evidence);
  }

  // The state of the loop before position i.
  ghost predicate Visited(platform: Platform, start: map<string, Database>, targets: seq<Target>, i: nat,
                          records: seq<Record>, evidence: seq<Evidence>)
    requires i <= |targets|
    reads platform
  {
    && |records| == i && Records(platform.directories, start, targets, records)
    && evidence == AllEvidence(targets[..i])
    && Progress(platform.directories, start, platform.databases, targets, i)
    && (platform.reliable ==> AllCanReachHead(platform.directories, start, targets[..i]))
  }

  // One round of the loop.
  method ReadyNext(platform: Platform, ghost start: map<string, Database>, targets: seq<Target>, i: nat,
                   records: seq<Record>, evidence: seq<Evidence>)
    returns (failure: Option<FailureCode>, records': seq<Record>, evidence': seq<Evidence>)
    requires i < |targets| && Visited(platform, start, targets, i, records, evidence)
    modifies platform
    ensures failure.None? ==> Visited(platform, start, targets, i + 1, records', evidence')
    ensures failure.Some? ==>
              StoppedAt(platform.directories, start, platform.databases, targets, i, targets[i].serviceId)
    ensures failure.Some? && platform.reliable ==>
              && failure == Verdict(platform.directories, start, targets[i])
              && !AllCanReachHead(platform.directories, start, targets)
  {
    ghost var before := platform.databases;
    var record;
    failure, record := ReadyService(platform, targets[i]);
    GrownKeepsVerdict(platform.directories, start, before, targets[i]);
    StepProgress(platform.directories, start, before, platform.databases, targets, i);
    if failure.None? {
      RecordStep(platform.directories, start, before, targets, i, record);
      RecordsSnoc(platform.directories, start, targets, records, record);
    }
    StepLists(platform.directories, start, targets, i);
    VerdictMeans(platform.directories, start, targets[i]);
    records', evidence' := records + [record], evidence + EvidenceFor(targets[i]);
  }

  lemma StepLists(directories: map<string, Directory>, start: map<string, Database>, targets: seq<Target>, i: nat)
    requires i < |targets|
    ensures AllEvidence(targets[..i + 1]) == AllEvidence(targets[..i]) + EvidenceFor(targets[i])
    ensures AllCanReachHead(directories, start, targets[..i]) && CanReachHead(directories, start, targets[i]) ==>
              AllCanReachHead(directories, start, targets[..i + 1])
    ensures AllCanReachHead(directories, start, targets) ==> CanReachHead(directories, start, targets[i])
  {
    assert targets[..i + 1][..i] == targets[..i];
  }

  lemma StepProgress(directories: map<string, Directory>, start: map<string, Database>,
                     before: map<string, Database>, after: map<string, Database>, targets: seq<Target>, i: nat)
    requires i < |targets| && Progress(directories, start, before, targets, i)
    requires OnlyChanges(before, after, targets[i].serviceId) && AllGrown(directories, before, after)
    ensures AtHead(directories, after, targets[i]) ==> Progress(directories, start, after, targets, i + 1)
    ensures StoppedAt(directories, start, after, targets, i, targets[i].serviceId)
  {
    GrownTransitive(directories, start, before, after);
    forall j | 0 <= j < i ensures AtHead(directories, after, targets[j]) {
      GrownKeepsHead(directories, before, after, targets[j]);
    }
    ServicesSnoc(targets, i);
  }

  lemma ServicesSnoc(targets: seq<Target>, i: nat)
    requires i < |targets|
    ensures ServicesOf(targets[..i + 1]) == ServicesOf(targets[..i]) + {targets[i].serviceId}
  {
    assert targets[..i + 1] == targets[..i] + [targets[i]];
  }

  lemma RecordsSnoc(directories: map<string, Directory>, start: map<string, Database>, targets: seq<Target>,
                    records: seq<Record>, r: Record)
    requires |records| < |targets| && Records(directories, start, targets, records)
    requires var i := |records|;
             RecordFor(directories, start, targets[i].serviceId in ServicesOf(targets[..i]), targets[i], r)
    ensures Records(directories, start, targets, records + [r])
  {
    var more := records + [r];
    forall i | 0 <= i < |more|
      ensures RecordFor(directories, start, targets[i].serviceId in ServicesOf(targets[..i]), targets[i], more[i])
    {
      assert i < |records| ==> more[i] == records[i];
    }
  }

  lemma RecordStep(directories: map<string, Directory>, start: map<string, Database>, before: map<string, Database>,
                   targets: seq<Target>, i: nat, r: Record)
    requires i < |targets| && Progress(directories, start, before, targets, i)
    requires RecordFor(directories, before, false, targets[i], r)
    ensures RecordFor(directories, start, targets[i].serviceId in ServicesOf(targets[..i]), targets[i], r)
  {
    var service := targets[i].serviceId;
    if service in ServicesOf(targets[..i]) {
      var t :| t in targets[..i] && t.serviceId == service;
      var j :| 0 <= j < i && targets[j] == t;
      assert AtHead(directories, before, targets[j]);
      var p :| PlanFor(directories, service, p) && before[service].ledger == Elements(VersionsOf(p));
      NothingPending(p, before[service].ledger);
      forall plan | PlanFor(directories, service, plan) ensures plan == p {
        PlanUnique(service, directories[service], plan, p);
      }
    }
  }

  lemma {:induction false} NothingPending(plan: seq<Migration>, ledger: set<string>)
    requires forall i | 0 <= i < |plan| :: VersionsOf(plan)[i] in ledger
    ensures Pending(plan, ledger) == []
  {
    if plan != [] {
      var init := plan[..|plan| - 1];
      assert forall i | 0 <= i < |init| :: VersionsOf(init)[i] == VersionsOf(plan)[i];
      NothingPending(init, ledger);
      assert VersionsOf(plan)[|plan| - 1] in ledger;
    }
  }

  // ----- the public totals -----

  function Sum(records: seq<Record>, count: Record -> nat): nat {
    if records == [] then 0 else Sum(records[..|records| - 1], count) + count(records[|records| - 1])
  }

  /** A total adds up. */
  lemma SumAdds(records: seq<Record>, r: Record, count: Record -> nat)
    ensures Sum(records + [r], count) == Sum(records, count) + count(r) && Sum([], count) == 0
  {
    assert (records + [r])[..|records|] == records;
  }

  /** The projection's totals agree: every planned migration was either applied or skipped; and there
      are exactly two evidence records per service. */
  lemma {:induction false} TotalsAgree(directories: map<string, Directory>, before: map<string, Database>,
                                       targets: seq<Target>, records: seq<Record>)
    requires |records| == |targets| && Records(directories, before, targets, records)
    ensures Sum(records, (r: Record) => r.migrationCount)
            == Sum(records, (r: Record) => r.appliedCount) + Sum(records, (r: Record) => r.skippedCount)
    ensures |AllEvidence(targets)| == 2 * |targets|
  {
    if records != [] {
      var m := |records| - 1;
      forall i | 0 <= i < m
        ensures RecordFor(directories, before, targets[..m][i].serviceId in ServicesOf(targets[..m][..i]),
                          targets[..m][i], records[..m][i])
      {
        assert targets[..m][..i] == targets[..i];
      }
      TotalsAgree(directories, before, targets[..m], records[..m]);
      assert RecordFor(directories, before, targets[m].serviceId in ServicesOf(targets[..m]), targets[m], records[m]);
    }
  }
}
