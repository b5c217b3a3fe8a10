/** The migration runner: load the sorted scripts, read the ledger once, skip what it records and
    execute the rest. A script commits its effect and its ledger row together, or neither. */
module Migrations {
  import opened LetterCase
  import opened Options
  import opened Texts
  import opened Versions
  import opened Whitespace

  datatype Migration = Migration(serviceId: string, version: string, path: string, sql: string)

  datatype MigrationError =
    | UnknownService
    | DirectoryMissing
    | Unreadable(path: string)
    | MustBegin(path: string)
    | MustCommit(path: string)
    | MustRecord(path: string)
    | ConnectFailed
    | LedgerFailed
    | ScriptFailed(version: string)

  datatype Result<+T> = Success(value: T) | Failure(error: MigrationError)

  datatype RunResult = RunResult(
    serviceId: string,
    planned: seq<string>,
    applied: seq<string>,
    skipped: seq<string>,
    dryRun: bool,
    profile: string)

  const SERVICES := {"nex-oa", "nex-ag", "nex-ae-api", "nex-cx", "nex-mo"}

  // ----- validate_migration_sql -----

  function Validate(path: string, sql: string): Result<()> {
    var compact := Collapse(Lower(sql));
    if !("begin;" <= compact) then Failure(MustBegin(path))
    else if !EndsWith(compact, "commit;") then Failure(MustCommit(path))
    else if !Contains(compact, "schema_migrations") then Failure(MustRecord(path))
    else Success(())
  }

  // What a script has to be, its text lower-cased and its blanks collapsed.
  ghost predicate WellFormed(sql: string) {
    var compact := Collapse(Lower(sql));
    "begin;" <= compact && EndsWith(compact, "commit;") && Contains(compact, "schema_migrations")
  }

  // Why a script is refused: the first of the requirements that it does not meet.
  ghost predicate RefusedFor(error: MigrationError, path: string, text: Option<string>) {
    match text
    case None => error == Unreadable(path)
    case Some(sql) =>
      var compact := Collapse(Lower(sql));
      match error
      case MustBegin(p) => p == path && !("begin;" <= compact)
      case MustCommit(p) => p == path && "begin;" <= compact && !EndsWith(compact, "commit;")
      case MustRecord(p) =>
        && p == path && "begin;" <= compact && EndsWith(compact, "commit;")
        && !Contains(compact, "schema_migrations")
      case _ => false
  }

  // ----- load_migrations -----

  // The files, with their text where it can be read as UTF-8.
  type Directory = map<string, Option<string>>

  // Reading a script and validating it.
  function Accept(path: string, text: Option<string>): Result<()> {
    match text
    case None => Failure(Unreadable(path))
    case Some(sql) => Validate(path, sql)
  }

  /** Exactly the readable, well-formed scripts are accepted, and the others refused for their reason. */
  lemma AcceptIff(path: string, text: Option<string>, error: MigrationError)
    ensures Accept(path, text).Success? <==> text.Some? && WellFormed(text.value)
    ensures Accept(path, text) == Failure(error) <==> RefusedFor(error, path, text)
  {
  }

  predicate IsScript(name: string) {
    |name| >= 4 && name[|name| - 4..] == EXTENSION
  }

  function Scripts(dir: Directory): set<string> {
    set name | name in dir && IsScript(name)
  }

  // pathlib's stem: a name that is nothing but the extension has no suffix to drop.
  function Stem(name: string): string
    requires IsScript(name)
  {
    if |name| == 4 then name else name[..|name| - 4]
  }

  ghost predicate IsMigrationOf(m: Migration, service: string, dir: Directory) {
    && m.path in dir && IsScript(m.path)
    && m.serviceId == service && m.version == Stem(m.path) && dir[m.path] == Some(m.sql)
  }

  function Paths(plan: seq<Migration>): (r: seq<string>)
    ensures |r| == |plan| && forall i | 0 <= i < |plan| :: r[i] == plan[i].path
  {
    seq(|plan|, i requires 0 <= i < |plan| => plan[i].path)
  }

  function VersionsOf(plan: seq<Migration>): (r: seq<string>)
    ensures |r| == |plan| && forall i | 0 <= i < |plan| :: r[i] == plan[i].version
  {
    seq(|plan|, i requires 0 <= i < |plan| => plan[i].version)
  }

  /** The plan of a directory: every script once, in file-name order, all well-formed. */
  ghost predicate IsPlan(service: string, dir: Directory, plan: seq<Migration>) {
    && StrictlySorted(Paths(plan)) && Elements(Paths(plan)) == Scripts(dir)
    && forall m | m in plan :: IsMigrationOf(m, service, dir) && WellFormed(m.sql)
  }

  // A refused directory is refused for the first unacceptable script.
  ghost predicate FirstRefused(dir: Directory, error: MigrationError) {
    exists path | path in Scripts(dir) ::
      && RefusedFor(error, path, dir[path])
      && forall earlier | earlier in Scripts(dir) && LexLess(earlier, path) ::
           dir[earlier].Some? && WellFormed(dir[earlier].value)
  }

  // The scripts before the i-th name are those of the first i names.
  lemma EarlierOnes(dir: Directory, names: seq<string>, i: nat)
    requires StrictlySorted(names) && Elements(names) == Scripts(dir) && i < |names|
    requires forall k | 0 <= k < i :: names[k] in dir && dir[names[k]].Some? && WellFormed(dir[names[k]].value)
    ensures forall earlier | earlier in Scripts(dir) && LexLess(earlier, names[i]) ::
              dir[earlier].Some? && WellFormed(dir[earlier].value)
  {
    forall earlier | earlier in Scripts(dir) && LexLess(earlier, names[i])
      ensures dir[earlier].Some? && WellFormed(dir[earlier].value)
    {
      assert earlier in Elements(names);
      var k :| 0 <= k < |names| && names[k] == earlier;
      LexTrichotomy(earlier, names[i]);
    }
  }

  // The readable text of a script, lower-cased and with its blanks collapsed.
  function CompactText(dir: Directory, path: string): (compact: string)
    requires path in dir && dir[path].Some?
  {
    Collapse(Lower(dir[path].value))
  }

  /** load_migrations. The scripts of the plan begin with BEGIN, end with COMMIT and mention the ledger
      table; a refusal names the first script that does not, and the first of these it misses. */
  method LoadMigrations(service: string, directories: map<string, Directory>) returns (r: Result<seq<Migration>>)
    ensures r.Success? ==> service in directories && IsPlan(service, directories[service], r.value)
    ensures r.Success? ==> forall m | m in r.value ::
              var compact := Collapse(Lower(m.sql));
              && "begin;" <= compact && EndsWith(compact, "commit;")
              && Contains(compact, "schema_migrations")
    ensures r.Failure? && service in directories ==>
              var dir := directories[service];
              match r.error
              case Unreadable(p) => p in dir && dir[p] == None
              case MustBegin(p) => p in dir && dir[p].Some? && !("begin;" <= CompactText(dir, p))
              case MustCommit(p) =>
                && p in dir && dir[p].Some?
                && "begin;" <= CompactText(dir, p) && !EndsWith(CompactText(dir, p), "commit;")
              case MustRecord(p) =>
                && p in dir && dir[p].Some?
                && "begin;" <= CompactText(dir, p) && EndsWith(CompactText(dir, p), "commit;")
                && !Contains(CompactText(dir, p), "schema_migrations")
              case _ => false
    ensures r.Failure? ==>
              if service !in directories then r.error == DirectoryMissing
              else FirstRefused(directories[service], r.error)
  {
    if service !in directories {
      return Failure(DirectoryMissing);
    }
    var dir := directories[service];
    var names := ListSorted(Scripts(dir));
    forall i | 0 <= i < |names| ensures names[i] in Scripts(dir) {
      assert names[i] in Elements(names);
    }
    var plan: seq<Migration> := [];
    for i := 0 to |names|
      invariant Paths(plan) == names[..i]
      invariant forall m | m in plan :: IsMigrationOf(m, service, dir) && WellFormed(m.sql)
      invariant forall k | 0 <= k < i :: dir[names[k]].Some? && WellFormed(dir[names[k]].value)
    {
      var checked := Accept(names[i], dir[names[i]]);
      AcceptIff(names[i], dir[names[i]], if checked.Failure? then checked.error else UnknownService);
      if checked.Failure? {
        EarlierOnes(dir, names, i);
        return Failure(checked.error);
      }
      plan := plan + [Migration(service, Stem(names[i]), names[i], dir[names[i]].value)];
    }
    assert names[..|names|] == names;
    r := Success(plan);
  }

  const BARE := ".sql"          // its stem is ".sql"
  const DOUBLE := ".sql.sql"    // and so is this one's

  lemma StemOf(name: string)
    requires IsScript(name)
    ensures name != BARE ==> Stem(name) + EXTENSION == name
    ensures name == BARE ==> Stem(name) == BARE
  {
    assert name == name[..|name| - 4] + name[|name| - 4..];
    if |name| == 4 {
      assert name[0..] == name;
    }
  }

  // Two different scripts share a stem only as ".sql" and ".sql.sql".
  lemma SameStem(p: string, q: string)
    requires IsScript(p) && IsScript(q) && p != q && Stem(p) == Stem(q)
    ensures (p == BARE && q == DOUBLE) || (p == DOUBLE && q == BARE)
  {
    StemOf(p);
    StemOf(q);
    assert BARE + EXTENSION == DOUBLE;
  }

  /** The versions of a plan are distinct, unless its directory holds both ".sql" and ".sql.sql". */
  lemma PlanVersionsDistinctIff(service: string, dir: Directory, plan: seq<Migration>)
    requires IsPlan(service, dir, plan)
    ensures Distinct(VersionsOf(plan)) <==> !(BARE in dir && DOUBLE in dir)
  {
    if BARE in dir && DOUBLE in dir {
      BothBare(service, dir, plan);
    } else {
      forall i, j | 0 <= i < j < |plan| ensures plan[i].version != plan[j].version {
        assert plan[i] in plan && plan[j] in plan;
        LexTrichotomy(plan[i].path, plan[j].path);
        assert LexLess(Paths(plan)[i], Paths(plan)[j]);
        if plan[i].version == plan[j].version {
          SameStem(plan[i].path, plan[j].path);
        }
      }
    }
  }

  lemma WhereFile(service: string, dir: Directory, plan: seq<Migration>, name: string) returns (i: nat)
    requires IsPlan(service, dir, plan) && name in dir && IsScript(name)
    ensures i < |plan| && plan[i].path == name && plan[i].version == Stem(name)
  {
    assert name in Elements(Paths(plan));
    i :| 0 <= i < |plan| && Paths(plan)[i] == name;
    assert plan[i] in plan;
  }

  lemma BothBare(service: string, dir: Directory, plan: seq<Migration>)
    requires IsPlan(service, dir, plan) && BARE in dir && DOUBLE in dir
    ensures !Distinct(VersionsOf(plan))
  {
    assert BARE[0..] == BARE && DOUBLE[4..] == EXTENSION && DOUBLE[..4] == BARE;
    var i := WhereFile(service, dir, plan, BARE);
    var j := WhereFile(service, dir, plan, DOUBLE);
    Repeats(VersionsOf(plan), i, j);
  }

  lemma Repeats<T>(s: seq<T>, i: nat, j: nat)
    requires i < |s| && j < |s| && i != j && s[i] == s[j]
    ensures !Distinct(s)
  {
    if i < j {
      assert s[i] == s[j];
    } else {
      assert s[j] == s[i];
    }
  }

  lemma PlanFiles(service: string, dir: Directory, plan: seq<Migration>)
    requires IsPlan(service, dir, plan) && BARE !in dir
    ensures FileNames(VersionsOf(plan)) == Paths(plan)
  {
    forall i | 0 <= i < |plan| ensures FileNames(VersionsOf(plan))[i] == Paths(plan)[i] {
      assert plan[i] in plan;
      StemOf(plan[i].path);
    }
  }

  /** The last planned version, which the gate reports as the head, is the greatest one exactly when it
      is not a proper prefix of an earlier one. */
  lemma PlanHeadIsGreatestIff(service: string, dir: Directory, plan: seq<Migration>)
    requires IsPlan(service, dir, plan) && BARE !in dir && plan != []
    ensures LastIsGreatest(VersionsOf(plan)) <==> !LastIsPrefix(VersionsOf(plan))
  {
    PlanFiles(service, dir, plan);
    LastIsGreatestIff(VersionsOf(plan));
  }

  /** With every character of every version above '.', as in the shipped names, the planned versions
      are strictly increasing, and the last one is the greatest. */
  lemma PlanHeadIsGreatest(service: string, dir: Directory, plan: seq<Migration>)
    requires IsPlan(service, dir, plan) && BARE !in dir && plan != []
    requires forall i, k | 0 <= i < |plan| && 0 <= k < |plan[i].version| :: plan[i].version[k] > '.'
    ensures StrictlySorted(VersionsOf(plan)) && LastIsGreatest(VersionsOf(plan))
  {
    PlanFiles(service, dir, plan);
    HeadIsGreatest(VersionsOf(plan));
  }

  ghost predicate Distinct<T>(s: seq<T>) {
    forall i, j | 0 <= i < j < |s| :: s[i] != s[j]
  }

  // ----- the database -----

  datatype Database = Database(
    executed: seq<Migration>,   // every script ever committed, in order: the schema is their fold
    ledger: set<string>,
    name: string,
    role: string,
    selectOne: int)

  function Commit(db: Database, m: Migration): Database {
    db.(executed := db.executed + [m], ledger := db.ledger + {m.version})
  }

  function CommitAll(db: Database, ms: seq<Migration>): Database {
    if ms == [] then db else Commit(CommitAll(db, ms[..|ms| - 1]), ms[|ms| - 1])
  }

  lemma {:induction false} CommitAllEffect(db: Database, ms: seq<Migration>)
    ensures CommitAll(db, ms) ==
            db.(executed := db.executed + ms, ledger := db.ledger + Elements(VersionsOf(ms)))
  {
    if ms == [] {
      assert db.executed + ms == db.executed;
    } else {
      var init, last := ms[..|ms| - 1], ms[|ms| - 1];
      CommitAllEffect(db, init);
      assert ms == init + [last];
      assert VersionsOf(ms) == VersionsOf(init) + [last.version];
      assert Elements(VersionsOf(ms)) == Elements(VersionsOf(init)) + {last.version};
      assert db.executed + ms == (db.executed + init) + [last];
    }
  }

  function Pending(plan: seq<Migration>, ledger: set<string>): seq<Migration> {
    if plan == [] then []
    else
      var rest := Pending(plan[..|plan| - 1], ledger);
      if plan[|plan| - 1].version in ledger then rest else rest + [plan[|plan| - 1]]
  }

  function Recorded(plan: seq<Migration>, ledger: set<string>): seq<Migration> {
    if plan == [] then []
    else
      var rest := Recorded(plan[..|plan| - 1], ledger);
      if plan[|plan| - 1].version in ledger then rest + [plan[|plan| - 1]] else rest
  }

  // What a run that stops after its first k executions leaves.
  function RunCut(db: Database, plan: seq<Migration>, k: nat): Database {
    var pending := Pending(plan, db.ledger);
    CommitAll(db, if k < |pending| then pending[..k] else pending)
  }

  class Platform {
    const directories: map<string, Directory>
    // No script raises and no connection fails.
    const reliable: bool
    var databases: map<string, Database>

    constructor (directories: map<string, Directory>, reliable: bool, databases: map<string, Database>)
      ensures this.directories == directories && this.reliable == reliable && this.databases == databases
    {
      this.directories, this.reliable, this.databases := directories, reliable, databases;
    }

    // Any call to the database may raise, unless nothing does.
    method MayRaise() returns (raised: bool)
      ensures reliable ==> !raised
    {
      raised := *;
      if reliable {
        raised := false;
      }
    }

    // cursor.execute(migration.sql): the script's own transaction commits, or it raises.
    method Execute(service: string, m: Migration) returns (ok: bool)
      requires service in databases
      modifies this
      ensures reliable ==> ok
      ensures databases == if ok then old(databases)[service := Commit(old(databases)[service], m)] else old(databases)
    {
      var raised := MayRaise();
      ok := !raised;
      if ok {
        databases := databases[service := Commit(databases[service], m)];
      }
    }

    // The loop over the plan, on one connection.
    method ExecutePending(service: string, migrations: seq<Migration>)
      returns (failed: Option<string>, applied: seq<string>, skipped: seq<string>)
      requires service in databases
      modifies this
      ensures var db := old(databases)[service];
              && (failed.None? ==>
                    && databases == old(databases)[service := RunCut(db, migrations, |migrations|)]
                    && applied == VersionsOf(Pending(migrations, db.ledger))
                    && skipped == VersionsOf(Recorded(migrations, db.ledger)))
              && (failed.Some? ==> CutShort(old(databases), databases, service, migrations, failed.value))
      ensures reliable ==> failed.None?
    {
      var db := databases[service];
      var appliedVersions := db.ledger;
      applied, skipped := [], [];
      for i := 0 to |migrations|
        invariant service in databases
        invariant databases == old(databases)[service := CommitAll(db, Pending(migrations[..i], db.ledger))]
        invariant applied == VersionsOf(Pending(migrations[..i], db.ledger))
        invariant skipped == VersionsOf(Recorded(migrations[..i], db.ledger))
      {
        var m := migrations[i];
        PendingStep(db, migrations, i);
        if m.version in appliedVersions {
          skipped := skipped + [m.version];
          continue;
        }
        var ok := Execute(service, m);
        if !ok {
          CutHere(old(databases), databases, service, migrations, i);
          return Some(m.version), applied, skipped;
        }
        CommitOver(old(databases), service, CommitAll(db, Pending(migrations[..i], db.ledger)), m);
        applied := applied + [m.version];
      }
      assert migrations[..|migrations|] == migrations;
      PendingLength(migrations, db.ledger);
      failed := None;
    }

    /** run_service_migrations. A completed run executes exactly the scripts whose versions the ledger
        did not hold, in file order; a run that a script ends has executed a prefix of them. */
    method RunServiceMigrations(service: string, dryRun: bool, profile: string)
      returns (r: Result<RunResult>, ghost plan: seq<Migration>)
      modifies this
      ensures service !in {"nex-oa", "nex-ag", "nex-ae-api", "nex-cx", "nex-mo"} <==> r == Failure(UnknownService)
      ensures r.Success? || r.error.ScriptFailed? || r.error.ConnectFailed? || r.error.LedgerFailed? ==>
                service in directories && IsPlan(service, directories[service], plan)
      ensures r.Success? ==> r.value.serviceId == service && r.value.profile == profile && r.value.dryRun == dryRun
                             && r.value.planned == VersionsOf(plan)
      ensures r.Success? && dryRun ==>
                databases == old(databases) && r.value.applied == VersionsOf(plan) && r.value.skipped == []
      ensures r.Success? && !dryRun ==>
                && service in old(databases)
                && var db := old(databases)[service];
                   && databases == old(databases)[service := RunCut(db, plan, |plan|)]
                   && r.value.applied == VersionsOf(Pending(plan, db.ledger))
                   && r.value.skipped == VersionsOf(Recorded(plan, db.ledger))
      ensures r.Failure? && r.error.ScriptFailed? ==>
                service in old(databases) && CutShort(old(databases), databases, service, plan, r.error.version)
      ensures r.Failure? && !r.error.ScriptFailed? ==> databases == old(databases)
      ensures service in SERVICES && r.Failure? ==>
                match r.error
                case ScriptFailed(_) => !reliable
                case LedgerFailed => !reliable && service in databases
                case ConnectFailed => !reliable || service !in databases
                case DirectoryMissing => service !in directories
                case error => service in directories && FirstRefused(directories[service], error)
    {
      plan := [];
      if service !in SERVICES {
        return Failure(UnknownService), [];
      }
      var loaded := LoadMigrations(service, directories);
      if loaded.Failure? {
        return Failure(loaded.error), [];
      }
      var migrations := loaded.value;
      plan := migrations;
      var planned := VersionsOf(migrations);
      if dryRun {
        return Success(RunResult(service, planned, planned, [], true, profile)), plan;
      }
      var raised := MayRaise();
      if raised || service !in databases {
        return Failure(ConnectFailed), plan;
      }
      // Creating the ledger table where there is none, and reading the ledger.
      raised := MayRaise();
      if raised {
        return Failure(LedgerFailed), plan;
      }
      var failed, applied, skipped := ExecutePending(service, migrations);
      r := if failed.Some? then Failure(ScriptFailed(failed.value))
           else Success(RunResult(service, planned, applied, skipped, false, profile));
    }
  }

  lemma CommitOver(before: map<string, Database>, service: string, db: Database, m: Migration)
    ensures var after := before[service := db];
            after[service := Commit(after[service], m)] == before[service := Commit(db, m)]
  {
  }

  // The run executed some of the pending scripts, and the next one, of this version, raised.
  ghost predicate CutShort(before: map<string, Database>, after: map<string, Database>, service: string,
                           plan: seq<Migration>, version: string)
    requires service in before
  {
    var db := before[service];
    var pending := Pending(plan, db.ledger);
    exists k :: 0 <= k < |pending| && pending[k].version == version
                && after == before[service := RunCut(db, plan, k)]
  }

  // What the loop's step at index i does to the state and to the two lists.
  lemma PendingStep(db: Database, plan: seq<Migration>, i: nat)
    requires i < |plan|
    ensures var p, r := Pending(plan[..i], db.ledger), Recorded(plan[..i], db.ledger);
            var p', r' := Pending(plan[..i + 1], db.ledger), Recorded(plan[..i + 1], db.ledger);
            if plan[i].version in db.ledger then
              p' == p && VersionsOf(r') == VersionsOf(r) + [plan[i].version]
            else
              && r' == r && VersionsOf(p') == VersionsOf(p) + [plan[i].version]
              && CommitAll(db, p') == Commit(CommitAll(db, p), plan[i])
  {
    assert plan[..i + 1][..i] == plan[..i];
  }

  lemma CutHere(before: map<string, Database>, after: map<string, Database>, service: string,
                plan: seq<Migration>, i: nat)
    requires service in before && i < |plan| && plan[i].version !in before[service].ledger
    requires after == before[service := CommitAll(before[service], Pending(plan[..i], before[service].ledger))]
    ensures CutShort(before, after, service, plan, plan[i].version)
  {
    var db := before[service];
    var p := Pending(plan[..i], db.ledger);
    assert plan[..i + 1][..i] == plan[..i];
    assert Pending(plan[..i + 1], db.ledger) == p + [plan[i]];
    PendingPrefix(plan, i + 1, db.ledger);
    var pending := Pending(plan, db.ledger);
    assert pending[..|p|] == p && pending[|p|] == plan[i];
    assert RunCut(db, plan, |p|) == CommitAll(db, p);
  }

  lemma {:induction false} PendingPrefix(plan: seq<Migration>, i: nat, ledger: set<string>)
    requires i <= |plan|
    ensures Pending(plan[..i], ledger) <= Pending(plan, ledger)
  {
    if i < |plan| {
      assert plan[..|plan| - 1][..i] == plan[..i];
      PendingPrefix(plan[..|plan| - 1], i, ledger);
    } else {
      assert plan[..i] == plan;
    }
  }

  lemma {:induction false} PendingLength(plan: seq<Migration>, ledger: set<string>)
    ensures |Pending(plan, ledger)| + |Recorded(plan, ledger)| == |plan|
  {
    if plan != [] {
      PendingLength(plan[..|plan| - 1], ledger);
    }
  }

  // ----- crash and resume -----

  // Once the first k pending scripts are recorded, the rest is what is pending.
  lemma {:induction false} PendingAfter(plan: seq<Migration>, ledger: set<string>, k: nat)
    requires Distinct(VersionsOf(plan)) && k <= |Pending(plan, ledger)|
    ensures Pending(plan, ledger + Elements(VersionsOf(Pending(plan, ledger)[..k]))) == Pending(plan, ledger)[k..]
  {
    if plan != [] {
      var init, last := plan[..|plan| - 1], plan[|plan| - 1];
      var all, rest := Pending(plan, ledger), Pending(init, ledger);
      PendingMembers(init, ledger);
      assert forall i | 0 <= i < |init| :: VersionsOf(plan)[i] != last.version;
      if k <= |rest| {
        assert all[..k] == rest[..k];
        PendingAfter(init, ledger, k);
        assert last.version !in VersionsOf(rest[..k]);
      } else {
        assert all[..k] == all;
        PendingAfter(init, ledger, |rest|);
        assert rest[..|rest|] == rest;
        var more := ledger + Elements(VersionsOf(rest));
        assert VersionsOf(all) == VersionsOf(rest) + [last.version];
        assert Elements(VersionsOf(all)) == Elements(VersionsOf(rest)) + {last.version};
        PendingIgnores(init, more, last.version);
        assert ledger + Elements(VersionsOf(all)) == more + {last.version};
      }
    }
  }

  lemma {:induction false} PendingIgnores(plan: seq<Migration>, ledger: set<string>, v: string)
    requires forall i | 0 <= i < |plan| :: plan[i].version != v
    ensures Pending(plan, ledger + {v}) == Pending(plan, ledger)
  {
    if plan != [] {
      PendingIgnores(plan[..|plan| - 1], ledger, v);
    }
  }

  lemma {:induction false} PendingMembers(plan: seq<Migration>, ledger: set<string>)
    ensures forall m :: m in Pending(plan, ledger) <==> m in plan && m.version !in ledger
    ensures Distinct(VersionsOf(plan)) ==> Distinct(VersionsOf(Pending(plan, ledger)))
  {
    if plan != [] {
      PendingMembers(plan[..|plan| - 1], ledger);
      assert plan == plan[..|plan| - 1] + [plan[|plan| - 1]];
    }
  }

  // Completed and cut-off runs of the same plan, one after the other.
  function RunsCut(db: Database, plan: seq<Migration>, cuts: seq<nat>): Database {
    if cuts == [] then db else RunCut(RunsCut(db, plan, cuts[..|cuts| - 1]), plan, cuts[|cuts| - 1])
  }

  // The state after a cut: a prefix of what was pending has been executed, and is recorded.
  lemma CutIsPrefix(db: Database, plan: seq<Migration>, done: nat, k: nat)
    requires Distinct(VersionsOf(plan)) && done <= |Pending(plan, db.ledger)|
    ensures var pending := Pending(plan, db.ledger);
            var mid := CommitAll(db, pending[..done]);
            var more := if done + k < |pending| then done + k else |pending|;
            RunCut(mid, plan, k) == CommitAll(db, pending[..more]) && more >= done
  {
    var pending := Pending(plan, db.ledger);
    var mid := CommitAll(db, pending[..done]);
    var more := if done + k < |pending| then done + k else |pending|;
    CommitAllEffect(db, pending[..done]);
    PendingAfter(plan, db.ledger, done);
    var next := if k < |pending[done..]| then pending[done..][..k] else pending[done..];
    assert pending[..more] == pending[..done] + next;
    CommitAllConcat(db, pending[..done], next);
  }

  lemma {:induction false} CommitAllConcat(db: Database, a: seq<Migration>, b: seq<Migration>)
    ensures CommitAll(db, a + b) == CommitAll(CommitAll(db, a), b)
  {
    if b == [] {
      assert a + b == a;
    } else {
      assert (a + b)[..|a + b| - 1] == a + b[..|b| - 1];
      CommitAllConcat(db, a, b[..|b| - 1]);
    }
  }

  lemma {:induction false} CutsArePrefix(db: Database, plan: seq<Migration>, cuts: seq<nat>) returns (done: nat)
    requires Distinct(VersionsOf(plan))
    ensures done <= |Pending(plan, db.ledger)|
    ensures RunsCut(db, plan, cuts) == CommitAll(db, Pending(plan, db.ledger)[..done])
  {
    var pending := Pending(plan, db.ledger);
    if cuts == [] {
      done := 0;
    } else {
      var m := CutsArePrefix(db, plan, cuts[..|cuts| - 1]);
      CutIsPrefix(db, plan, m, cuts[|cuts| - 1]);
      done := if m + cuts[|cuts| - 1] < |pending| then m + cuts[|cuts| - 1] else |pending|;
    }
  }

  /** Whatever ledger a database starts with, and however many runs were cut off and after how many
      scripts each: after one complete run, exactly the scripts whose versions were initially missing
      have been executed, once each, in file order, and the ledger has gained exactly the plan. */
  lemma CrashResumeExactlyOnce(db: Database, plan: seq<Migration>, cuts: seq<nat>)
    requires Distinct(VersionsOf(plan))
    ensures var pending := Pending(plan, db.ledger);
            var final := RunCut(RunsCut(db, plan, cuts), plan, |plan|);
            && final == db.(executed := db.executed + pending, ledger := db.ledger + Elements(VersionsOf(plan)))
            && Distinct(VersionsOf(pending))
            && forall m :: m in pending <==> m in plan && m.version !in db.ledger
  {
    var pending := Pending(plan, db.ledger);
    var done := CutsArePrefix(db, plan, cuts);
    PendingLength(plan, db.ledger);
    CutIsPrefix(db, plan, done, |plan|);
    assert pending[..|pending|] == pending;
    CommitAllEffect(db, pending);
    LedgerGainsPlan(plan, db.ledger);
    PendingMembers(plan, db.ledger);
  }

  lemma {:induction false} LedgerGainsPlan(plan: seq<Migration>, ledger: set<string>)
    ensures ledger + Elements(VersionsOf(Pending(plan, ledger))) == ledger + Elements(VersionsOf(plan))
  {
    if plan != [] {
      var init, last := plan[..|plan| - 1], plan[|plan| - 1];
      LedgerGainsPlan(init, ledger);
      assert VersionsOf(plan) == VersionsOf(init) + [last.version];
      assert Elements(VersionsOf(plan)) == Elements(VersionsOf(init)) + {last.version};
      var p := Pending(init, ledger);
      if last.version !in ledger {
        assert VersionsOf(p + [last]) == VersionsOf(p) + [last.version];
        assert Elements(VersionsOf(p + [last])) == Elements(VersionsOf(p)) + {last.version};
      }
    }
  }

  // c is a and b merged, each keeping its order.
  ghost predicate Interleaves(c: seq<string>, a: seq<string>, b: seq<string>) {
    if c == [] then a == b == []
    else
      var init, last := c[..|c| - 1], c[|c| - 1];
      || (a != [] && a[|a| - 1] == last && Interleaves(init, a[..|a| - 1], b))
      || (b != [] && b[|b| - 1] == last && Interleaves(init, a, b[..|b| - 1]))
  }

  /** A completed run's applied and skipped versions are an order-preserving partition of the plan. */
  lemma {:induction false} AppliedAndSkippedPartitionPlan(plan: seq<Migration>, ledger: set<string>)
    ensures var applied, skipped := VersionsOf(Pending(plan, ledger)), VersionsOf(Recorded(plan, ledger));
            && Interleaves(VersionsOf(plan), applied, skipped)
            && (forall v | v in applied :: v !in ledger) && (forall v | v in skipped :: v in ledger)
  {
    if plan != [] {
      var init := plan[..|plan| - 1];
      AppliedAndSkippedPartitionPlan(init, ledger);
      assert VersionsOf(plan)[..|plan| - 1] == VersionsOf(init);
      var applied, skipped := VersionsOf(Pending(plan, ledger)), VersionsOf(Recorded(plan, ledger));
      if plan[|plan| - 1].version in ledger {
        assert skipped[..|skipped| - 1] == VersionsOf(Recorded(init, ledger));
      } else {
        assert applied[..|applied| - 1] == VersionsOf(Pending(init, ledger));
      }
    }
  }
}
