/** Two migration runners on one database. Nothing locks out a second runner: each reads the ledger
    once, and then goes through the plan by what it has read. */
module Runners {
  import opened Migrations
  import opened Versions

  datatype Who = First | Second

  function Other(who: Who): Who {
    if who.First? then Second else First
  }

  datatype Event = Read(who: Who) | Committed(who: Who, script: Migration)

  // A runner that has read the ledger knows it as it was then, and is at a position of the plan.
  // `since` is the position of its read in the log.
  datatype Runner = Waiting | Running(ledger: set<string>, next: nat, since: nat)

  datatype World = World(db: Database, first: Runner, second: Runner, log: seq<Event>)

  function Of(w: World, who: Who): Runner {
    if who.First? then w.first else w.second
  }

  function With(w: World, who: Who, r: Runner): World {
    if who.First? then w.(first := r) else w.(second := r)
  }

  // One step of one runner: it reads the ledger, skips a script, or executes one.
  function Step(w: World, plan: seq<Migration>, who: Who): World {
    match Of(w, who)
    case Waiting => With(w, who, Running(w.db.ledger, 0, |w.log|)).(log := w.log + [Read(who)])
    case Running(ledger, next, since) =>
      if next >= |plan| then w
      else
        var w' := With(w, who, Running(ledger, next + 1, since));
        if plan[next].version in ledger then w'
        else w'.(db := Commit(w.db, plan[next]), log := w.log + [Committed(who, plan[next])])
  }

  function Run(db: Database, plan: seq<Migration>, schedule: seq<Who>): World {
    if schedule == [] then World(db, Waiting, Waiting, [])
    else Step(Run(db, plan, schedule[..|schedule| - 1]), plan, schedule[|schedule| - 1])
  }

  predicate Finished(r: Runner, plan: seq<Migration>) {
    r.Running? && r.next == |plan|
  }

  // ----- the log -----

  // What has been executed, in order; and by one of them.
  function Done(log: seq<Event>): seq<Migration> {
    if log == [] then []
    else
      var rest, e := Done(log[..|log| - 1]), log[|log| - 1];
      if e.Committed? then rest + [e.script] else rest
  }

  function DoneBy(log: seq<Event>, who: Who): seq<Migration> {
    if log == [] then []
    else
      var rest, e := DoneBy(log[..|log| - 1], who), log[|log| - 1];
      if e.Committed? && e.who == who then rest + [e.script] else rest
  }

  lemma LogSnoc(log: seq<Event>, e: Event, who: Who)
    ensures Done(log + [e]) == if e.Committed? then Done(log) + [e.script] else Done(log)
    ensures DoneBy(log + [e], who) ==
            if e.Committed? && e.who == who then DoneBy(log, who) + [e.script] else DoneBy(log, who)
  {
    assert (log + [e])[..|log|] == log;
  }

  // No commit of `who` from position p on.
  ghost predicate QuietFrom(log: seq<Event>, p: nat, who: Who) {
    forall j | p <= j < |log| :: !(log[j].Committed? && log[j].who == who)
  }

  lemma {:induction false} DoneByPrefix(log: seq<Event>, p: nat, who: Who)
    requires p <= |log|
    ensures DoneBy(log[..p], who) <= DoneBy(log, who)
    ensures DoneBy(log[..p], who) == DoneBy(log, who) <==> QuietFrom(log, p, who)
  {
    if p == |log| {
      assert log[..p] == log;
    } else {
      var init := log[..|log| - 1];
      assert init[..p] == log[..p];
      DoneByPrefix(init, p, who);
      assert forall j | p <= j < |init| :: init[j] == log[j];
    }
  }

  // With nothing executed by one, everything was executed by the other.
  lemma {:induction false} DoneByOne(log: seq<Event>, who: Who)
    requires QuietFrom(log, 0, Other(who))
    ensures Done(log) == DoneBy(log, who)
  {
    if log != [] {
      DoneByOne(log[..|log| - 1], who);
    }
  }

  lemma {:induction false} DoneByBoth(log: seq<Event>, who: Who)
    ensures multiset(Done(log)) == multiset(DoneBy(log, who)) + multiset(DoneBy(log, Other(who)))
  {
    if log != [] {
      DoneByBoth(log[..|log| - 1], who);
    }
  }

  // ----- what every schedule keeps -----

  function LedgerAfter(db: Database, log: seq<Event>): set<string> {
    db.ledger + Elements(VersionsOf(Done(log)))
  }

  // A runner has executed, of the plan so far, what the ledger it read did not hold; and nothing
  // before that read.
  ghost predicate RunnerOk(db: Database, plan: seq<Migration>, log: seq<Event>, who: Who, r: Runner) {
    match r
    case Waiting => forall e | e in log :: e.who != who
    case Running(ledger, next, since) =>
      && next <= |plan| && since < |log|
      && log[since] == Read(who) && (forall j | 0 <= j < |log| && log[j].who == who :: since <= j)
      && (forall j | since < j < |log| :: log[j] != Read(who))
      && ledger == LedgerAfter(db, log[..since])
      && DoneBy(log, who) == Pending(plan[..next], ledger)
  }

  ghost predicate Ok(db: Database, plan: seq<Migration>, w: World) {
    && w.db == db.(executed := db.executed + Done(w.log), ledger := LedgerAfter(db, w.log))
    && RunnerOk(db, plan, w.log, First, w.first)
    && RunnerOk(db, plan, w.log, Second, w.second)
  }

  lemma StepKeepsOk(db: Database, plan: seq<Migration>, w: World, who: Who)
    requires Ok(db, plan, w)
    ensures Ok(db, plan, Step(w, plan, who))
  {
    match Of(w, who)
    case Waiting => ReadKeepsOk(db, plan, w, who);
    case Running(ledger, next, since) =>
      if next < |plan| {
        PendingSnoc(plan, next, ledger);
        if plan[next].version !in ledger {
          CommitKeepsOk(db, plan, w, who);
        }
      }
  }

  lemma PendingSnoc(plan: seq<Migration>, i: nat, ledger: set<string>)
    requires i < |plan|
    ensures Pending(plan[..i + 1], ledger) ==
            if plan[i].version in ledger then Pending(plan[..i], ledger) else Pending(plan[..i], ledger) + [plan[i]]
  {
    assert plan[..i + 1][..i] == plan[..i];
  }

  // One more event of `who` changes nothing for the other.
  lemma OtherKept(db: Database, plan: seq<Migration>, log: seq<Event>, e: Event, r: Runner)
    requires RunnerOk(db, plan, log, Other(e.who), r)
    ensures RunnerOk(db, plan, log + [e], Other(e.who), r)
  {
    LogSnoc(log, e, Other(e.who));
    if r.Running? {
      assert (log + [e])[..r.since] == log[..r.since];
    }
  }

  lemma ReadKeepsOk(db: Database, plan: seq<Migration>, w: World, who: Who)
    requires Ok(db, plan, w) && Of(w, who).Waiting?
    ensures Ok(db, plan, Step(w, plan, who))
  {
    var log := w.log + [Read(who)];
    LogSnoc(w.log, Read(who), who);
    OtherKept(db, plan, w.log, Read(who), Of(w, Other(who)));
    assert log[..|w.log|] == w.log;
    NothingBy(w.log, who);
    assert plan[..0] == [];
    assert RunnerOk(db, plan, log, who, Running(w.db.ledger, 0, |w.log|));
  }

  lemma {:induction false} NothingBy(log: seq<Event>, who: Who)
    requires forall e | e in log :: e.who != who
    ensures DoneBy(log, who) == []
  {
    if log != [] {
      NothingBy(log[..|log| - 1], who);
    }
  }

  lemma CommitKeepsOk(db: Database, plan: seq<Migration>, w: World, who: Who)
    requires Ok(db, plan, w) && Of(w, who).Running? && Of(w, who).next < |plan|
    requires plan[Of(w, who).next].version !in Of(w, who).ledger
    ensures Ok(db, plan, Step(w, plan, who))
  {
    var r := Of(w, who);
    var m := plan[r.next];
    DatabaseKept(db, w.db, w.log, who, m);
    OtherKept(db, plan, w.log, Committed(who, m), Of(w, Other(who)));
    SelfKept(db, plan, w.log, who, r);
  }

  lemma DatabaseKept(before: Database, db: Database, log: seq<Event>, who: Who, m: Migration)
    requires db == before.(executed := before.executed + Done(log), ledger := LedgerAfter(before, log))
    ensures var db', log' := Commit(db, m), log + [Committed(who, m)];
            db' == before.(executed := before.executed + Done(log'), ledger := LedgerAfter(before, log'))
  {
    LogSnoc(log, Committed(who, m), who);
    VersionsSnoc(Done(log), m);
    assert before.executed + (Done(log) + [m]) == before.executed + Done(log) + [m];
  }

  lemma VersionsSnoc(ms: seq<Migration>, m: Migration)
    ensures Elements(VersionsOf(ms + [m])) == Elements(VersionsOf(ms)) + {m.version}
  {
    assert VersionsOf(ms + [m]) == VersionsOf(ms) + [m.version];
  }

  lemma SelfKept(db: Database, plan: seq<Migration>, log: seq<Event>, who: Who, r: Runner)
    requires r.Running? && r.next < |plan| && plan[r.next].version !in r.ledger
    requires RunnerOk(db, plan, log, who, r)
    ensures RunnerOk(db, plan, log + [Committed(who, plan[r.next])], who, r.(next := r.next + 1))
  {
    var e := Committed(who, plan[r.next]);
    LogSnoc(log, e, who);
    PendingSnoc(plan, r.next, r.ledger);
    assert (log + [e])[..r.since] == log[..r.since];
  }

  lemma {:induction false} RunKeepsOk(db: Database, plan: seq<Migration>, schedule: seq<Who>)
    ensures Ok(db, plan, Run(db, plan, schedule))
  {
    if schedule == [] {
      assert LedgerAfter(db, []) == db.ledger;
    } else {
      RunKeepsOk(db, plan, schedule[..|schedule| - 1]);
      StepKeepsOk(db, plan, Run(db, plan, schedule[..|schedule| - 1]), schedule[|schedule| - 1]);
    }
  }

  // ----- the theorem -----

  // The runner's read of the ledger comes after the other's last execution.
  ghost predicate ReadsLate(log: seq<Event>, who: Who) {
    exists p :: 0 <= p < |log| && log[p] == Read(who) && QuietFrom(log, p, Other(who))
  }

  // The later reader knew of the first k pending scripts, and executed the others again.
  lemma LaterReader(db: Database, plan: seq<Migration>, w: World, who: Who) returns (k: nat)
    requires Distinct(VersionsOf(plan)) && Ok(db, plan, w)
    requires Finished(w.first, plan) && Finished(w.second, plan) && Of(w, who).since < Of(w, Other(who)).since
    ensures var pending := Pending(plan, db.ledger);
            && k <= |pending|
            && DoneBy(w.log, who) == pending && DoneBy(w.log, Other(who)) == pending[k..]
            && (k == |pending| <==> QuietFrom(w.log, Of(w, Other(who)).since, who))
  {
    var pending := Pending(plan, db.ledger);
    var read, log := Of(w, Other(who)).since, w.log;
    assert plan[..|plan|] == plan;
    assert RunnerOk(db, plan, log, who, Of(w, who)) && RunnerOk(db, plan, log, Other(who), Of(w, Other(who)));
    NothingDone(log[..Of(w, who).since]);
    assert LedgerAfter(db, log[..Of(w, who).since]) == db.ledger;
    DoneByOne(log[..read], who);
    DoneByPrefix(log, read, who);
    k := |Done(log[..read])|;
    assert Done(log[..read]) == pending[..k];
    PendingAfter(plan, db.ledger, k);
  }

  lemma {:induction false} NothingDone(log: seq<Event>)
    requires QuietFrom(log, 0, First) && QuietFrom(log, 0, Second)
    ensures Done(log) == []
  {
    if log != [] {
      NothingDone(log[..|log| - 1]);
    }
  }

  // The scripts that were pending have been executed once each, and nothing else has.
  ghost predicate ExecutedOnce(db: Database, plan: seq<Migration>, w: World) {
    multiset(w.db.executed) == multiset(db.executed) + multiset(Pending(plan, db.ledger))
  }

  lemma LaterReaderDecides(db: Database, plan: seq<Migration>, w: World, who: Who)
    requires Distinct(VersionsOf(plan)) && Ok(db, plan, w)
    requires Finished(w.first, plan) && Finished(w.second, plan) && Of(w, who).since < Of(w, Other(who)).since
    ensures w.db.ledger == db.ledger + Elements(VersionsOf(plan))
    ensures ExecutedOnce(db, plan, w) <==> ReadsLate(w.log, who) || ReadsLate(w.log, Other(who))
  {
    var pending, log := Pending(plan, db.ledger), w.log;
    var k := LaterReader(db, plan, w, who);
    OnceIffAllKnown(db, plan, w, who, k);
    LedgerGainsPlanOnce(db, plan, w, who, k);
    assert RunnerOk(db, plan, log, who, Of(w, who)) && RunnerOk(db, plan, log, Other(who), Of(w, Other(who)));
    OnlyRead(log, Other(who), Of(w, Other(who)).since);
    if k < |pending| {
      EarlierReaderIsNotLate(log, who, Of(w, who).since);
    }
  }

  lemma OnceIffAllKnown(db: Database, plan: seq<Migration>, w: World, who: Who, k: nat)
    requires w.db.executed == db.executed + Done(w.log) && k <= |Pending(plan, db.ledger)|
    requires DoneBy(w.log, who) == Pending(plan, db.ledger)
    requires DoneBy(w.log, Other(who)) == Pending(plan, db.ledger)[k..]
    ensures ExecutedOnce(db, plan, w) <==> k == |Pending(plan, db.ledger)|
  {
    DoneByBoth(w.log, who);
    var again := multiset(Pending(plan, db.ledger)[k..]);
    assert multiset(w.db.executed) == multiset(db.executed) + multiset(Pending(plan, db.ledger)) + again;
    assert |again| == |Pending(plan, db.ledger)| - k;
  }

  // Whoever has executed something after reading makes an earlier read early.
  lemma EarlierReaderIsNotLate(log: seq<Event>, who: Who, since: nat)
    requires since < |log| && log[since] == Read(who)
    requires forall j | 0 <= j < |log| && log[j] == Read(who) :: j == since
    requires DoneBy(log, Other(who)) != [] && forall j | 0 <= j <= since :: log[j].who == who
    ensures !ReadsLate(log, who)
  {
    OnlyRead(log, who, since);
    DoneByPrefix(log, since, Other(who));
    NothingBy(log[..since], Other(who));
  }

  // A runner reads once, so where its read stands decides.
  lemma OnlyRead(log: seq<Event>, who: Who, since: nat)
    requires since < |log| && log[since] == Read(who)
    requires forall j | 0 <= j < |log| && log[j] == Read(who) :: j == since
    ensures ReadsLate(log, who) <==> QuietFrom(log, since, Other(who))
  {
  }

  // The same scripts leave the same versions in the ledger.
  lemma SameVersions(a: seq<Migration>, b: seq<Migration>)
    requires forall m :: m in a <==> m in b
    ensures Elements(VersionsOf(a)) == Elements(VersionsOf(b))
  {
    forall v | v in Elements(VersionsOf(a)) ensures v in Elements(VersionsOf(b)) {
      VersionOfMember(a, b, v);
    }
    forall v | v in Elements(VersionsOf(b)) ensures v in Elements(VersionsOf(a)) {
      VersionOfMember(b, a, v);
    }
  }

  lemma VersionOfMember(a: seq<Migration>, b: seq<Migration>, v: string)
    requires v in VersionsOf(a) && forall m :: m in a ==> m in b
    ensures v in VersionsOf(b)
  {
    var i :| 0 <= i < |a| && VersionsOf(a)[i] == v;
    assert a[i] in b;
    var j :| 0 <= j < |b| && b[j] == a[i];
    assert VersionsOf(b)[j] == v;
  }

  lemma LedgerGainsPlanOnce(db: Database, plan: seq<Migration>, w: World, who: Who, k: nat)
    requires k <= |Pending(plan, db.ledger)| && DoneBy(w.log, who) == Pending(plan, db.ledger)
    requires DoneBy(w.log, Other(who)) == Pending(plan, db.ledger)[k..]
    ensures LedgerAfter(db, w.log) == db.ledger + Elements(VersionsOf(plan))
  {
    var pending := Pending(plan, db.ledger);
    DoneByBoth(w.log, who);
    forall m ensures m in Done(w.log) <==> m in pending {
      assert m in Done(w.log) <==> m in multiset(Done(w.log));
      assert m in multiset(pending[k..]) ==> m in pending;
    }
    SameVersions(Done(w.log), pending);
    LedgerGainsPlan(plan, db.ledger);
  }

  /** A runner alone does what RunCut says of a complete run, however its steps are scheduled. */
  lemma SoleRunnerCompletes(db: Database, plan: seq<Migration>, schedule: seq<Who>)
    requires var w := Run(db, plan, schedule); Finished(w.first, plan) && w.second.Waiting?
    ensures Run(db, plan, schedule).db == RunCut(db, plan, |plan|)
  {
    var w := Run(db, plan, schedule);
    RunKeepsOk(db, plan, schedule);
    var pending := Pending(plan, db.ledger);
    DoneByOne(w.log, First);
    NothingDone(w.log[..w.first.since]);
    assert LedgerAfter(db, w.log[..w.first.since]) == db.ledger;
    assert plan[..|plan|] == plan && pending[..|pending|] == pending;
    PendingLength(plan, db.ledger);
    CommitAllEffect(db, pending);
  }

  /** For every schedule of two runners of one plan in which both finish: the ledger has gained the
      plan, but every pending script has been executed exactly once if and only if one of the runners
      read the ledger after the other's last execution. */
  lemma OverlapExecutesOnceIff(db: Database, plan: seq<Migration>, schedule: seq<Who>)
    requires Distinct(VersionsOf(plan))
    requires var w := Run(db, plan, schedule); Finished(w.first, plan) && Finished(w.second, plan)
    ensures var w := Run(db, plan, schedule);
            && w.db.ledger == db.ledger + Elements(VersionsOf(plan))
            && (ExecutedOnce(db, plan, w) <==> ReadsLate(w.log, First) || ReadsLate(w.log, Second))
  {
    var w := Run(db, plan, schedule);
    RunKeepsOk(db, plan, schedule);
    assert w.log[w.first.since] != w.log[w.second.since];
    if w.first.since < w.second.since {
      LaterReaderDecides(db, plan, w, First);
    } else {
      LaterReaderDecides(db, plan, w, Second);
    }
  }
}
