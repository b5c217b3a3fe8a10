/** When an archived segment can be restored, and when it never again can: the sidecar is published
    by a second rename, and an archiver that finds its destination present returns at once. */
module WalRecovery {
  import opened ByteStrings
  import opened WalNames
  import opened WalProtocol
  import opened WalSafety

  // While only archivers write, a restore's checks pass exactly when the sidecar is there.
  lemma RestoreChecksSidecar(h: Bytes -> Bytes, w: World, n: string)
    requires Good(h, w) && HexValued(h)
    ensures RestoreChecks(h, w.tree, n) <==> Sidecar(n) in w.tree
  {
    if Sidecar(n) in w.tree {
      StripDigestLine(h(w.sources[n]));
    }
  }

  // ----- which states can still produce the sidecar -----

  // The process can still get the sidecar of n published, if nothing interferes with it.
  ghost predicate CanFinish(w: World, n: string, pid: nat) {
    && pid in w.processes && w.processes[pid].name == n
    && var p := w.processes[pid].phase;
       if SidecarPartial(n) in w.tree then OwnsLock(w.processes[pid])
       else
         || p.Copy? || p.HashPartial? || p.Publish? || p.CreateSidecar?
         || (p.CreatePartial? && CopyPartial(n, pid) !in w.tree)
         || ((p.HashSource? || p.CheckDestination?)
             && Segment(n) !in w.tree && CopyPartial(n, pid) !in w.tree)
  }

  /** The sidecar is there; or nothing is, and the lock is free; or some live archiver that got past
      the existence check can still finish. */
  ghost predicate Recoverable(w: World, n: string) {
    || Sidecar(n) in w.tree
    || (Segment(n) !in w.tree && SidecarPartial(n) !in w.tree)
    || exists pid :: CanFinish(w, n, pid)
  }

  lemma NextKeepsOut(h: Bytes -> Bytes, w: World, pid: nat, block: BlockSize, n: string, q: nat)
    requires Good(h, w) && Enabled(w, pid) && !Recoverable(w, n)
    ensures !CanFinish(Next(h, w, pid, block), n, q)
  {
    NextFrame(h, w, pid, block);
    assert ProcessOk(h, w.tree, w.sources, pid, w.processes[pid]);
    assert !CanFinish(w, n, pid) && !CanFinish(w, n, q);
  }

  lemma NextKeepsTrap(h: Bytes -> Bytes, w: World, pid: nat, block: BlockSize, n: string)
    requires Good(h, w) && Enabled(w, pid) && !Recoverable(w, n)
    ensures !Recoverable(Next(h, w, pid, block), n)
  {
    assert ProcessOk(h, w.tree, w.sources, pid, w.processes[pid]);
    assert !CanFinish(w, n, pid);
    forall q ensures !CanFinish(Next(h, w, pid, block), n, q) {
      NextKeepsOut(h, w, pid, block, n, q);
    }
  }

  lemma ExecKeepsTrap(h: Bytes -> Bytes, w: World, a: Action, n: string)
    requires Good(h, w) && IsHonest(a) && !Recoverable(w, n)
    ensures !Recoverable(Exec(h, w, a), n)
  {
    if a.Advance? {
      if Enabled(w, a.pid) {
        NextKeepsTrap(h, w, a.pid, a.block, n);
      }
    } else {
      forall q ensures !CanFinish(Exec(h, w, a), n, q) {
        assert !CanFinish(w, n, q);
      }
    }
  }

  lemma {:induction false} RunKeepsTrap(h: Bytes -> Bytes, w: World, acts: seq<Action>, n: string)
    requires Good(h, w) && Honest(acts) && !Recoverable(w, n)
    ensures !Recoverable(Run(h, w, acts), n)
  {
    if acts != [] {
      var init := acts[..|acts| - 1];
      RunKeepsTrap(h, w, init, n);
      GoodRun(h, w, init);
      ExecKeepsTrap(h, Run(h, w, init), acts[|acts| - 1], n);
    }
  }

  // ----- a run that finishes -----

  function Rank(p: Phase): nat {
    match p
    case HashSource(_) => 9
    case CheckDestination(_) => 8
    case CompareDestination(_) => 0
    case CreatePartial(_) => 7
    case Copy(_) => 6
    case HashPartial(_) => 5
    case Publish(_) => 4
    case CreateSidecar(_) => 3
    case WriteSidecar(_) => 2
    case PublishSidecar(_) => 1
    case _ => 0
  }

  // The bytes of the current loop that are still to be read.
  function Remaining(w: World, pid: nat): nat
    requires Enabled(w, pid)
  {
    var Process(n, phase) := w.processes[pid];
    var done :=
      if phase.HashSource? then |phase.read|
      else if phase.Copy? && CopyPartial(n, pid) in w.tree && w.tree[CopyPartial(n, pid)].File?
      then |w.tree[CopyPartial(n, pid)].data| else 0;
    if done <= |w.sources[n]| then |w.sources[n]| - done else 0
  }

  // One step of a process that can finish: a loop gets shorter, or the next phase is reached.
  lemma StepToFinish(h: Bytes -> Bytes, w: World, n: string, pid: nat)
    requires Good(h, w) && CanFinish(w, n, pid)
    ensures Enabled(w, pid)
    ensures var w' := Next(h, w, pid, 1);
            var p, p' := w.processes[pid].phase, w'.processes[pid].phase;
            && Enabled(w', pid)
            && (p.PublishSidecar? ==> Sidecar(n) in w'.tree)
            && (!p.PublishSidecar? ==>
                  && CanFinish(w', n, pid)
                  && (Sidecar(n) in w'.tree ==> Sidecar(n) in w.tree)
                  && (Rank(p') == Rank(p) - 1 || (Rank(p') == Rank(p) && Remaining(w', pid) < Remaining(w, pid))))
  {
    var phase := w.processes[pid].phase;
    assert ProcessOk(h, w.tree, w.sources, pid, w.processes[pid]);
    match phase {
      case HashSource(read) => ReadBlockExtends(w.sources[n], read, 1);
      case Copy(_) => ReadBlockExtends(w.sources[n], w.tree[CopyPartial(n, pid)].data, 1);
      case _ =>
    }
  }

  // Only process pid acts.
  ghost predicate Solo(acts: seq<Action>, pid: nat) {
    forall i | 0 <= i < |acts| :: acts[i] == Advance(pid, 1)
  }

  lemma {:induction false} SoloFrame(h: Bytes -> Bytes, w: World, acts: seq<Action>, pid: nat)
    requires Good(h, w) && Solo(acts, pid)
    ensures var w' := Run(h, w, acts);
            && Good(h, w') && w'.processes.Keys == w.processes.Keys
            && forall q | q in w.processes && q != pid :: w'.processes[q] == w.processes[q]
  {
    if acts != [] {
      var init := acts[..|acts| - 1];
      var w1 := Run(h, w, init);
      SoloFrame(h, w, init, pid);
      if Enabled(w1, pid) {
        NextFrame(h, w1, pid, 1);
        GoodAdvance(h, w1, pid, 1);
      }
    }
  }

  lemma SoloStep(h: Bytes -> Bytes, w: World, pid: nat, rest: seq<Action>)
    requires Enabled(w, pid) && Solo(rest, pid)
    ensures Solo([Advance(pid, 1)] + rest, pid)
    ensures Run(h, w, [Advance(pid, 1)] + rest) == Run(h, Next(h, w, pid, 1), rest)
  {
    RunOne(h, w, Advance(pid, 1));
    RunConcat(h, w, [Advance(pid, 1)], rest);
  }

  lemma {:induction false} RunTo(h: Bytes -> Bytes, w: World, n: string, pid: nat, goal: nat)
    returns (acts: seq<Action>)
    requires Good(h, w) && CanFinish(w, n, pid) && Enabled(w, pid)
    requires 0 < goal <= Rank(w.processes[pid].phase)
    ensures Solo(acts, pid)
    ensures var w' := Run(h, w, acts);
            && CanFinish(w', n, pid) && Rank(w'.processes[pid].phase) == goal
            && (Sidecar(n) in w'.tree ==> Sidecar(n) in w.tree)
    decreases Rank(w.processes[pid].phase), Remaining(w, pid)
  {
    acts := [];
    assert Run(h, w, acts) == w;
    if Rank(w.processes[pid].phase) > goal {
      StepToFinish(h, w, n, pid);
      GoodAdvance(h, w, pid, 1);
      var rest := RunTo(h, Next(h, w, pid, 1), n, pid, goal);
      SoloStep(h, w, pid, rest);
      acts := [Advance(pid, 1)] + rest;
    }
  }

  lemma RunToFinish(h: Bytes -> Bytes, w: World, n: string, pid: nat) returns (acts: seq<Action>)
    requires Good(h, w) && CanFinish(w, n, pid) && Enabled(w, pid)
    ensures Solo(acts, pid) && Sidecar(n) in Run(h, w, acts).tree
  {
    var most := RunTo(h, w, n, pid, 1);
    var w' := Run(h, w, most);
    SoloFrame(h, w, most, pid);
    StepToFinish(h, w', n, pid);
    RunOne(h, w', Advance(pid, 1));
    RunConcat(h, w, most, [Advance(pid, 1)]);
    acts := most + [Advance(pid, 1)];
  }

  // Hashing its source, a process reaches the existence check, and changes nothing else.
  lemma {:induction false} RunHash(h: Bytes -> Bytes, w: World, n: string, pid: nat, read: Bytes)
    returns (acts: seq<Action>)
    requires pid in w.processes && w.processes[pid] == Process(n, HashSource(read))
    requires n in w.sources && read <= w.sources[n]
    ensures Solo(acts, pid)
    ensures Run(h, w, acts) == SetPhase(w, pid, CheckDestination(h(w.sources[n])))
    decreases |w.sources[n]| - |read|
  {
    var b := ReadBlock(w.sources[n], |read|, 1);
    ReadBlockExtends(w.sources[n], read, 1);
    var w' := Next(h, w, pid, 1);
    if b == [] {
      assert Run(h, w', []) == w';
      SoloStep(h, w, pid, []);
      acts := [Advance(pid, 1)] + [];
    } else {
      var rest := RunHash(h, w', n, pid, read + b);
      SoloStep(h, w, pid, rest);
      var phase := CheckDestination(h(w.sources[n]));
      assert SetPhase(w', pid, phase) == SetPhase(w, pid, phase);
      acts := [Advance(pid, 1)] + rest;
    }
  }

  lemma {:induction false} Above(s: set<nat>) returns (bound: nat)
    ensures forall x | x in s :: x < bound
  {
    if s == {} {
      return 0;
    }
    var x :| x in s;
    var b := Above(s - {x});
    bound := if x < b then b else x + 1;
    forall y | y in s ensures y < bound {
      assert y == x || y in s - {x};
    }
  }

  // A process id that is not live and has left no copy partial behind.
  lemma UnusedPid(w: World, n: string) returns (pid: nat)
    ensures pid !in w.processes && CopyPartial(n, pid) !in w.tree
  {
    var used := set p | p in w.tree && p.CopyPartial? :: p.pid;
    pid := Above(w.processes.Keys + used);
    assert pid !in used;
  }

  // Archivers start and advance, and nothing ends or disturbs any of them.
  ghost predicate Smooth(acts: seq<Action>) {
    forall i | 0 <= i < |acts| :: acts[i].Spawn? || acts[i].Advance?
  }

  function Started(w: World, n: string, pid: nat, phase: Phase): World {
    w.(processes := w.processes[pid := Process(n, phase)])
  }

  // A new archiver that has hashed its source.
  lemma RunToCheck(h: Bytes -> Bytes, w: World, n: string, pid: nat) returns (acts: seq<Action>)
    requires pid !in w.processes && n in w.sources && IsWalName(n)
    ensures Smooth(acts) && Run(h, w, acts) == Started(w, n, pid, CheckDestination(h(w.sources[n])))
  {
    var a := Spawn(pid, n);
    RunOne(h, w, a);
    var w1 := Started(w, n, pid, HashSource([]));
    assert Exec(h, w, a) == w1;
    var rest := RunHash(h, w1, n, pid, []);
    RunConcat(h, w, [a], rest);
    assert SetPhase(w1, pid, CheckDestination(h(w.sources[n]))) ==
           Started(w, n, pid, CheckDestination(h(w.sources[n])));
    acts := [a] + rest;
  }

  lemma RunFromNothing(h: Bytes -> Bytes, w: World, n: string, pid: nat) returns (acts: seq<Action>)
    requires Good(h, w) && n in w.sources && IsWalName(n)
    requires Segment(n) !in w.tree && SidecarPartial(n) !in w.tree
    requires pid !in w.processes && CopyPartial(n, pid) !in w.tree
    ensures Smooth(acts) && Sidecar(n) in Run(h, w, acts).tree
  {
    var a := Spawn(pid, n);
    GoodExec(h, w, a);
    RunOne(h, w, a);
    var rest := RunToFinish(h, Exec(h, w, a), n, pid);
    RunConcat(h, w, [a], rest);
    acts := [a] + rest;
  }

  /** In every state the archivers can reach, some continuation makes the segment restorable if and
      only if it is Recoverable. Once it is not, no number of retries ever will. */
  lemma RestorableAgainIffRecoverable(h: Bytes -> Bytes, w: World, n: string)
    requires Good(h, w) && HexValued(h) && n in w.sources && IsWalName(n)
    ensures (exists acts :: Honest(acts) && RestoreChecks(h, Run(h, w, acts).tree, n)) <==> Recoverable(w, n)
  {
    forall acts | Honest(acts)
      ensures RestoreChecks(h, Run(h, w, acts).tree, n) <==> Sidecar(n) in Run(h, w, acts).tree
      ensures Sidecar(n) in Run(h, w, acts).tree ==> Recoverable(w, n)
    {
      GoodRun(h, w, acts);
      RestoreChecksSidecar(h, Run(h, w, acts), n);
      if !Recoverable(w, n) {
        RunKeepsTrap(h, w, acts, n);
      }
    }
    if Recoverable(w, n) {
      var acts := [];
      if Sidecar(n) in w.tree {
        assert Run(h, w, acts) == w;
      } else if Segment(n) !in w.tree && SidecarPartial(n) !in w.tree {
        var pid := UnusedPid(w, n);
        acts := RunFromNothing(h, w, n, pid);
      } else {
        var pid :| CanFinish(w, n, pid);
        assert ProcessOk(h, w.tree, w.sources, pid, w.processes[pid]);
        acts := RunToFinish(h, w, n, pid);
      }
      assert Honest(acts) && RestoreChecks(h, Run(h, w, acts).tree, n);
    }
  }

  // ----- retries after an interruption between the two renames -----

  predicate IsRetryPhase(p: Phase) {
    p.HashSource? || p.CheckDestination? || p.CompareDestination? || p.Returned?
  }

  lemma {:induction false} RetryPhases(h: Bytes -> Bytes, w: World, acts: seq<Action>, n: string, pid: nat)
    requires Good(h, w) && Segment(n) in w.tree && pid !in w.processes && Honest(acts)
    requires Fault(pid) !in acts
    ensures var w' := Run(h, w, acts);
            && Segment(n) in w'.tree
            && (pid in w'.processes && w'.processes[pid].name == n ==> IsRetryPhase(w'.processes[pid].phase))
  {
    if acts != [] {
      var init, a := acts[..|acts| - 1], acts[|acts| - 1];
      RetryPhases(h, w, init, n, pid);
      GoodRun(h, w, init);
      RetryStep(h, Run(h, w, init), a, n, pid);
    }
  }

  lemma RetryStep(h: Bytes -> Bytes, w: World, a: Action, n: string, pid: nat)
    requires Good(h, w) && Segment(n) in w.tree && IsHonest(a) && a != Fault(pid)
    requires pid in w.processes && w.processes[pid].name == n ==> IsRetryPhase(w.processes[pid].phase)
    ensures var w' := Exec(h, w, a);
            && Segment(n) in w'.tree
            && (pid in w'.processes && w'.processes[pid].name == n ==> IsRetryPhase(w'.processes[pid].phase))
  {
    if a.Advance? && Enabled(w, a.pid) {
      NextFrame(h, w, a.pid, a.block);
      assert ProcessOk(h, w.tree, w.sources, a.pid, w.processes[a.pid]);
    }
  }

  /** From "destination published, sidecar missing, nobody left who can publish it": whatever
      archivers do, the segment stays unrestorable; yet a retry that no error hits only ever hashes,
      compares and returns success, with the digest of the segment. */
  lemma RetriesSucceedWithoutRepair(h: Bytes -> Bytes, w: World, acts: seq<Action>, n: string, pid: nat)
    requires Good(h, w) && HexValued(h) && Segment(n) in w.tree && !Recoverable(w, n)
    requires pid !in w.processes && Honest(acts) && Fault(pid) !in acts
    ensures var w' := Run(h, w, acts);
            && !RestoreChecks(h, w'.tree, n)
            && (pid in w'.processes && w'.processes[pid].name == n ==>
                  && IsRetryPhase(w'.processes[pid].phase)
                  && (w'.processes[pid].phase.Returned? ==> w'.processes[pid].phase == Returned(h(w.sources[n]))))
  {
    GoodRun(h, w, acts);
    RunKeepsTrap(h, w, acts, n);
    RestoreChecksSidecar(h, Run(h, w, acts), n);
    RetryPhases(h, w, acts, n, pid);
    if pid in Run(h, w, acts).processes {
      assert ProcessOk(h, Run(h, w, acts).tree, w.sources, pid, Run(h, w, acts).processes[pid]);
    }
  }

  lemma SoleArchiverInterrupted(h: Bytes -> Bytes, w: World, pid: nat, n: string, a: Action)
    requires Good(h, w) && CanFinish(w, n, pid) && w.processes.Keys == {pid}
    requires w.processes[pid].phase.CreateSidecar? && Sidecar(n) !in w.tree
    requires a == Stop(pid) || a == Fault(pid)
    ensures Segment(n) in Exec(h, w, a).tree && !Recoverable(Exec(h, w, a), n)
  {
    assert ProcessOk(h, w.tree, w.sources, pid, w.processes[pid]);
    forall q ensures !CanFinish(Exec(h, w, a), n, q) {
    }
  }

  // One archiver alone, right behind its first rename.
  ghost predicate BetweenRenames(h: Bytes -> Bytes, w: World, n: string, pid: nat) {
    && Good(h, w) && CanFinish(w, n, pid) && w.processes.Keys == {pid}
    && w.processes[pid].phase.CreateSidecar? && Sidecar(n) !in w.tree
  }

  lemma RunToFirstRename(h: Bytes -> Bytes, w: World, n: string) returns (acts: seq<Action>, pid: nat)
    requires Fresh(w) && n in w.sources && IsWalName(n)
    ensures Smooth(acts) && BetweenRenames(h, Run(h, w, acts), n, pid) && Run(h, w, acts).sources == w.sources
  {
    pid := UnusedPid(w, n);
    var start := Spawn(pid, n);
    GoodExec(h, w, start);
    RunOne(h, w, start);
    var w1 := Exec(h, w, start);
    var most := RunTo(h, w1, n, pid, 3);
    SoloFrame(h, w1, most, pid);
    GoodRun(h, w1, most);
    RunConcat(h, w, [start], most);
    acts := [start] + most;
  }

  /** Such a state is reachable for every segment: one archiver, alone, that a crash or any exception
      ends between its two renames. */
  lemma UnrestorableStateIsReachable(h: Bytes -> Bytes, w: World, n: string, crash: bool)
    returns (acts: seq<Action>, pid: nat)
    requires Fresh(w) && n in w.sources && IsWalName(n)
    ensures Smooth(acts)
    ensures var w1 := Run(h, w, acts);
            && w1.processes.Keys == {pid} && w1.processes[pid].name == n
            && w1.processes[pid].phase.CreateSidecar?
    ensures var w2 := Run(h, w, acts + [if crash then Stop(pid) else Fault(pid)]);
            Segment(n) in w2.tree && !Recoverable(w2, n)
  {
    acts, pid := RunToFirstRename(h, w, n);
    var last := if crash then Stop(pid) else Fault(pid);
    SoleArchiverInterrupted(h, Run(h, w, acts), pid, n, last);
    RunOne(h, Run(h, w, acts), last);
    RunConcat(h, w, acts, [last]);
  }

  // ----- a stale copy partial -----

  /** A stale copy partial of the next archiver's process id costs one failed attempt: that attempt
      raises and removes it, and the next one, of the same id, succeeds. */
  lemma StalePartialCostsOneAttempt(h: Bytes -> Bytes, w: World, n: string, pid: nat)
    returns (first: seq<Action>, second: seq<Action>)
    requires Good(h, w) && HexValued(h) && n in w.sources && IsWalName(n) && pid !in w.processes
    requires Segment(n) !in w.tree && SidecarPartial(n) !in w.tree
    requires CopyPartial(n, pid) in w.tree && !w.tree[CopyPartial(n, pid)].Directory?
    ensures Smooth(first) && Smooth(second)
    ensures Run(h, w, first) == Started(w, n, pid, Reraised(OsError)).(tree := w.tree - {CopyPartial(n, pid)})
    ensures RestoreChecks(h, Run(h, w, first + [Stop(pid)] + second).tree, n)
  {
    first := FirstAttempt(h, w, n, pid);
    GoodRun(h, w, first);
    var stop := Stop(pid);
    var w2 := Run(h, w, first);
    GoodExec(h, w2, stop);
    RunOne(h, w2, stop);
    RunConcat(h, w, first, [stop]);
    second := SecondAttempt(h, Exec(h, w2, stop), n, pid);
    RunConcat(h, w, first + [stop], second);
  }

  lemma FirstAttempt(h: Bytes -> Bytes, w: World, n: string, pid: nat) returns (acts: seq<Action>)
    requires n in w.sources && IsWalName(n) && pid !in w.processes && Segment(n) !in w.tree
    requires CopyPartial(n, pid) in w.tree && !w.tree[CopyPartial(n, pid)].Directory?
    ensures Smooth(acts)
    ensures Run(h, w, acts) == Started(w, n, pid, Reraised(OsError)).(tree := w.tree - {CopyPartial(n, pid)})
  {
    var check := RunToCheck(h, w, n, pid);
    var steps := ThreeSteps(h, Run(h, w, check), pid);
    RunConcat(h, w, check, steps);
    acts := check + steps;
  }

  lemma SecondAttempt(h: Bytes -> Bytes, w: World, n: string, pid: nat) returns (acts: seq<Action>)
    requires Good(h, w) && HexValued(h) && n in w.sources && IsWalName(n)
    requires Segment(n) !in w.tree && SidecarPartial(n) !in w.tree
    requires pid !in w.processes && CopyPartial(n, pid) !in w.tree
    ensures Smooth(acts) && RestoreChecks(h, Run(h, w, acts).tree, n)
  {
    acts := RunFromNothing(h, w, n, pid);
    GoodRun(h, w, acts);
    RestoreChecksSidecar(h, Run(h, w, acts), n);
  }

  // From the existence check of an absent destination into a stale partial, and out by the handler.
  lemma ThreeSteps(h: Bytes -> Bytes, w: World, pid: nat) returns (acts: seq<Action>)
    requires Enabled(w, pid) && w.processes[pid].phase.CheckDestination?
    requires var n := w.processes[pid].name;
             && Segment(n) !in w.tree
             && CopyPartial(n, pid) in w.tree && !w.tree[CopyPartial(n, pid)].Directory?
    ensures Smooth(acts)
    ensures var n := w.processes[pid].name;
            Run(h, w, acts) == Started(w, n, pid, Reraised(OsError)).(tree := w.tree - {CopyPartial(n, pid)})
  {
    var w1 := Next(h, w, pid, 1);
    var w2 := Next(h, w1, pid, 1);
    var w3 := Next(h, w2, pid, 1);
    assert Run(h, w3, []) == w3;
    SoloStep(h, w2, pid, []);
    SoloStep(h, w1, pid, [Advance(pid, 1)] + []);
    SoloStep(h, w, pid, [Advance(pid, 1)] + ([Advance(pid, 1)] + []));
    acts := [Advance(pid, 1)] + ([Advance(pid, 1)] + ([Advance(pid, 1)] + []));
    assert w3.processes == w.processes[pid := Process(w.processes[pid].name, Reraised(OsError))];
  }

  // ----- runs without such an interruption -----

  predicate InWindow(p: Phase) {
    p.CreateSidecar? || p.WriteSidecar? || p.PublishSidecar?
  }

  ghost predicate Publishing(w: World, n: string, pid: nat) {
    pid in w.processes && w.processes[pid].name == n && InWindow(w.processes[pid].phase)
  }

  // The action does not end a process between the two renames.
  ghost predicate SparesWindow(w: World, a: Action) {
    (a.Stop? || a.Fault?) && a.pid in w.processes ==> !InWindow(w.processes[a.pid].phase)
  }

  ghost predicate Uninterrupted(h: Bytes -> Bytes, w: World, acts: seq<Action>) {
    forall i | 0 <= i < |acts| :: SparesWindow(Run(h, w, acts[..i]), acts[i])
  }

  // A lock has its owner alive, and a segment without a sidecar has somebody working on it.
  ghost predicate Paired(w: World, n: string) {
    && (SidecarPartial(n) in w.tree ==> exists pid :: Holds(w.processes, n, pid))
    && (Segment(n) in w.tree && Sidecar(n) !in w.tree ==> exists pid :: Publishing(w, n, pid))
  }

  lemma NextKeepsOwner(h: Bytes -> Bytes, w: World, pid: nat, block: BlockSize, n: string)
    requires Good(h, w) && Enabled(w, pid) && Paired(w, n)
    requires SidecarPartial(n) in Next(h, w, pid, block).tree
    ensures exists q :: Holds(Next(h, w, pid, block).processes, n, q)
  {
    var w' := Next(h, w, pid, block);
    NextFrame(h, w, pid, block);
    if SidecarPartial(n) in w.tree {
      var q :| Holds(w.processes, n, q);
      assert Holds(w'.processes, n, q);
    } else {
      assert Holds(w'.processes, n, pid);
    }
  }

  // With the lock free, a process between its renames goes on to publish the sidecar.
  lemma NextKeepsPublisher(h: Bytes -> Bytes, w: World, pid: nat, block: BlockSize, n: string, q: nat)
    requires Good(h, w) && Enabled(w, pid) && Publishing(w, n, q) && SidecarPartial(n) !in w.tree
    ensures var w' := Next(h, w, pid, block); Sidecar(n) in w'.tree || Publishing(w', n, q)
  {
    NextFrame(h, w, pid, block);
    assert ProcessOk(h, w.tree, w.sources, q, w.processes[q]);
  }

  lemma NextKeepsSidecar(h: Bytes -> Bytes, w: World, pid: nat, block: BlockSize, n: string)
    requires Good(h, w) && Enabled(w, pid)
    ensures var w' := Next(h, w, pid, block);
            && (Sidecar(n) in w.tree ==> Sidecar(n) in w'.tree)
            && (Segment(n) in w'.tree ==> Segment(n) in w.tree || Publishing(w', n, pid))
            && (SidecarPartial(n) in w.tree ==> SidecarPartial(n) in w'.tree || Sidecar(n) in w'.tree)
  {
    assert ProcessOk(h, w.tree, w.sources, pid, w.processes[pid]);
  }

  lemma NextKeepsPaired(h: Bytes -> Bytes, w: World, pid: nat, block: BlockSize, n: string)
    requires Good(h, w) && Enabled(w, pid) && Paired(w, n)
    ensures Paired(Next(h, w, pid, block), n)
  {
    var w' := Next(h, w, pid, block);
    NextKeepsSidecar(h, w, pid, block, n);
    if SidecarPartial(n) in w'.tree {
      NextKeepsOwner(h, w, pid, block, n);
      var q :| Holds(w'.processes, n, q);
      assert Publishing(w', n, q);
    } else if Segment(n) in w.tree && Sidecar(n) !in w'.tree {
      var q :| Publishing(w, n, q);
      NextKeepsPublisher(h, w, pid, block, n, q);
    }
  }

  lemma ExecKeepsPaired(h: Bytes -> Bytes, w: World, a: Action, n: string)
    requires Good(h, w) && IsHonest(a) && SparesWindow(w, a) && Paired(w, n)
    ensures Paired(Exec(h, w, a), n)
  {
    if a.Advance? {
      if Enabled(w, a.pid) {
        NextKeepsPaired(h, w, a.pid, a.block, n);
      }
    } else {
      var w' := Exec(h, w, a);
      assert forall q :: Holds(w.processes, n, q) ==> Holds(w'.processes, n, q);
      assert forall q :: Publishing(w, n, q) ==> Publishing(w', n, q);
    }
  }

  lemma {:induction false} RunKeepsPaired(h: Bytes -> Bytes, w: World, acts: seq<Action>, n: string)
    requires Good(h, w) && Honest(acts) && Uninterrupted(h, w, acts) && Paired(w, n)
    ensures Paired(Run(h, w, acts), n)
  {
    if acts != [] {
      var m := |acts| - 1;
      forall i | 0 <= i < m ensures SparesWindow(Run(h, w, acts[..m][..i]), acts[..m][i]) {
        assert acts[..m][..i] == acts[..i];
      }
      RunKeepsPaired(h, w, acts[..m], n);
      GoodRun(h, w, acts[..m]);
      ExecKeepsPaired(h, Run(h, w, acts[..m]), acts[m], n);
    }
  }

  /** In every run that never stops or faults an archiver between its two renames, an archiver's success
      means that a restore's checks pass, or that some archiver still stands between its renames. */
  lemma SuccessMeansRestorable(h: Bytes -> Bytes, w: World, acts: seq<Action>, n: string, pid: nat)
    requires Fresh(w) && HexValued(h) && Honest(acts) && Uninterrupted(h, w, acts)
    requires var w' := Run(h, w, acts);
             pid in w'.processes && w'.processes[pid].name == n && w'.processes[pid].phase.Returned?
    ensures var w' := Run(h, w, acts); RestoreChecks(h, w'.tree, n) || exists q :: Publishing(w', n, q)
  {
    var w' := Run(h, w, acts);
    GoodRun(h, w, acts);
    RunKeepsPaired(h, w, acts, n);
    assert ProcessOk(h, w'.tree, w'.sources, pid, w'.processes[pid]);
    RestoreChecksSidecar(h, w', n);
  }

  /** The second case is real: for every segment there is a run, without any interruption, in which an
      archiver has returned success and a restore's checks fail. It found the destination that another
      archiver had just renamed there. */
  lemma SuccessBeforeSidecar(h: Bytes -> Bytes, w: World, n: string) returns (acts: seq<Action>, pid: nat)
    requires Fresh(w) && HexValued(h) && n in w.sources && IsWalName(n)
    ensures Honest(acts) && Uninterrupted(h, w, acts)
    ensures var w' := Run(h, w, acts);
            && pid in w'.processes && w'.processes[pid] == Process(n, Returned(h(w.sources[n])))
            && !RestoreChecks(h, w'.tree, n)
  {
    var most, p := RunToFirstRename(h, w, n);
    var w1 := Run(h, w, most);
    assert ProcessOk(h, w1.tree, w1.sources, p, w1.processes[p]);
    pid := UnusedPid(w1, n);
    var check := RunToCheck(h, w1, n, pid);
    var compare := TwoSteps(h, Run(h, w1, check), pid);
    RunConcat(h, w1, check, compare);
    RunConcat(h, w, most, check + compare);
    acts := most + (check + compare);
    SmoothIsUninterrupted(h, w, acts);
    GoodRun(h, w, acts);
    RestoreChecksSidecar(h, Run(h, w, acts), n);
  }

  // The early return: the destination exists and has the right digest.
  lemma TwoSteps(h: Bytes -> Bytes, w: World, pid: nat) returns (acts: seq<Action>)
    requires Enabled(w, pid) && w.processes[pid].phase.CheckDestination?
    requires var Process(n, phase) := w.processes[pid];
             Segment(n) in w.tree && w.tree[Segment(n)].File? && h(w.tree[Segment(n)].data) == phase.digest
    ensures Smooth(acts)
    ensures var Process(n, phase) := w.processes[pid]; Run(h, w, acts) == Started(w, n, pid, Returned(phase.digest))
  {
    var w1 := Next(h, w, pid, 1);
    var w2 := Next(h, w1, pid, 1);
    assert Run(h, w2, []) == w2;
    SoloStep(h, w1, pid, []);
    SoloStep(h, w, pid, [Advance(pid, 1)] + []);
    acts := [Advance(pid, 1)] + ([Advance(pid, 1)] + []);
    var Process(n, phase) := w.processes[pid];
    assert w2.processes == w.processes[pid := Process(n, Returned(phase.digest))];
  }

  lemma SmoothIsUninterrupted(h: Bytes -> Bytes, w: World, acts: seq<Action>)
    requires Smooth(acts)
    ensures Honest(acts) && Uninterrupted(h, w, acts)
  {
  }

  lemma {:induction false} SidecarStays(h: Bytes -> Bytes, w: World, acts: seq<Action>, n: string)
    requires Good(h, w) && Honest(acts) && Sidecar(n) in w.tree
    ensures Sidecar(n) in Run(h, w, acts).tree
  {
    if acts != [] {
      var init, a := acts[..|acts| - 1], acts[|acts| - 1];
      SidecarStays(h, w, init, n);
      GoodRun(h, w, init);
      var w1 := Run(h, w, init);
      if a.Advance? && Enabled(w1, a.pid) {
        NextKeepsSidecar(h, w1, a.pid, a.block, n);
      }
    }
  }

  /** An archiver that gets past its second rename leaves the segment restorable for good, whatever
      archivers do and whatever ends them, before or after. */
  lemma PublisherMeansRestorable(h: Bytes -> Bytes, w: World, before: seq<Action>, after: seq<Action>, n: string,
                                 pid: nat)
    requires Fresh(w) && HexValued(h) && Honest(before) && Honest(after)
    requires var w1 := Run(h, w, before);
             pid in w1.processes && w1.processes[pid].name == n && w1.processes[pid].phase.Finish?
    ensures RestoreChecks(h, Run(h, w, before + after).tree, n)
  {
    var w1 := Run(h, w, before);
    GoodRun(h, w, before);
    assert ProcessOk(h, w1.tree, w1.sources, pid, w1.processes[pid]);
    RunConcat(h, w, before, after);
    SidecarStays(h, w1, after, n);
    GoodRun(h, w1, after);
    RestoreChecksSidecar(h, Run(h, w1, after), n);
  }
}
