/** What every interleaving of archivers, with crashes and exceptions anywhere, keeps. */
module WalSafety {
  import opened ByteStrings
  import opened WalNames
  import opened WalProtocol

  // ----- the invariant while sources and published files are left alone -----

  ghost predicate TreeOk(h: Bytes -> Bytes, tree: Tree, sources: map<string, Bytes>) {
    forall p | p in tree ::
      match p
      case Segment(n) => n in sources && tree[p] == File(sources[n])
      case Sidecar(n) => n in sources && tree[p] == File(DigestLine(h(sources[n]))) && Segment(n) in tree
      case SidecarPartial(n) => tree[p].File?
      case CopyPartial(_, _) => true
  }

  ghost predicate OwnPartial(tree: Tree, n: string, pid: nat) {
    CopyPartial(n, pid) in tree && tree[CopyPartial(n, pid)].File?
  }

  ghost predicate ProcessOk(h: Bytes -> Bytes, tree: Tree, sources: map<string, Bytes>, pid: nat, p: Process) {
    && IsWalName(p.name)
    && p.name in sources
    && var n := p.name;
       var s := sources[n];
       match p.phase
       case HashSource(read) => read <= s
       case CheckDestination(d) => d == h(s)
       case CompareDestination(d) => d == h(s) && Segment(n) in tree
       case CreatePartial(d) => d == h(s)
       case Copy(d) => d == h(s) && OwnPartial(tree, n, pid) && tree[CopyPartial(n, pid)].data <= s
       case HashPartial(d) => d == h(s) && CopyPartial(n, pid) in tree && tree[CopyPartial(n, pid)] == File(s)
       case Publish(d) => d == h(s) && CopyPartial(n, pid) in tree && tree[CopyPartial(n, pid)] == File(s)
       case CreateSidecar(d) => d == h(s) && Segment(n) in tree
       case WriteSidecar(d) => d == h(s) && Segment(n) in tree && SidecarPartial(n) in tree
       case PublishSidecar(d) =>
         && d == h(s) && Segment(n) in tree
         && SidecarPartial(n) in tree && tree[SidecarPartial(n)] == File(DigestLine(d))
       case Finish(d) => d == h(s) && Segment(n) in tree && Sidecar(n) in tree
       case CleanUp(e) => e == OsError
       case Returned(d) => d == h(s) && Segment(n) in tree
       case Raised(e) => e == OsError
       case Reraised(e) => e == OsError
       case Abandoned => true
  }

  predicate OwnsLock(p: Process) { p.phase.WriteSidecar? || p.phase.PublishSidecar? }

  ghost predicate Holds(processes: map<nat, Process>, n: string, pid: nat) {
    pid in processes && processes[pid].name == n && OwnsLock(processes[pid])
  }

  // The sidecar partial, created exclusively, is a lock: it has at most one live owner.
  ghost predicate LockOk(processes: map<nat, Process>) {
    forall n, p, q :: Holds(processes, n, p) && Holds(processes, n, q) ==> p == q
  }

  ghost predicate Good(h: Bytes -> Bytes, w: World) {
    && TreeOk(h, w.tree, w.sources)
    && (forall pid | pid in w.processes :: ProcessOk(h, w.tree, w.sources, pid, w.processes[pid]))
    && LockOk(w.processes)
  }

  // What one step of a process leaves alone.
  ghost predicate Frame(w: World, w': World, pid: nat) {
    && pid in w.processes && pid in w'.processes
    && w'.sources == w.sources
    && w'.processes == w.processes[pid := w'.processes[pid]]
    && w'.processes[pid].name == w.processes[pid].name
  }

  // How the lock changes hands: only from nobody's.
  ghost predicate LockFrame(w: World, w': World, pid: nat)
    requires Frame(w, w', pid)
  {
    OwnsLock(w'.processes[pid]) ==>
      OwnsLock(w.processes[pid]) || SidecarPartial(w.processes[pid].name) !in w.tree
  }

  lemma NextChangesOne(h: Bytes -> Bytes, w: World, pid: nat, block: BlockSize)
    requires Enabled(w, pid)
    ensures Frame(w, Next(h, w, pid, block), pid)
  {
    var w' := Next(h, w, pid, block);
    assert w'.processes == w.processes[pid := w'.processes[pid]];
  }

  lemma NextFrame(h: Bytes -> Bytes, w: World, pid: nat, block: BlockSize)
    requires Enabled(w, pid)
    ensures Frame(w, Next(h, w, pid, block), pid) && LockFrame(w, Next(h, w, pid, block), pid)
  {
    NextChangesOne(h, w, pid, block);
  }

  lemma LockKept(w: World, w': World, pid: nat)
    requires Frame(w, w', pid) && LockFrame(w, w', pid) && LockOk(w.processes)
    requires forall q | Holds(w.processes, w.processes[pid].name, q) :: SidecarPartial(w.processes[pid].name) in w.tree
    ensures LockOk(w'.processes)
  {
    forall n, p, q | Holds(w'.processes, n, p) && Holds(w'.processes, n, q) ensures p == q {
      assert p != pid ==> Holds(w.processes, n, p);
      assert q != pid ==> Holds(w.processes, n, q);
      assert OwnsLock(w.processes[pid]) && w.processes[pid].name == n ==> Holds(w.processes, n, pid);
    }
  }

  lemma AdvanceKeepsTree(h: Bytes -> Bytes, w: World, pid: nat, block: BlockSize)
    requires Good(h, w) && Enabled(w, pid)
    ensures TreeOk(h, Next(h, w, pid, block).tree, w.sources)
  {
    assert ProcessOk(h, w.tree, w.sources, pid, w.processes[pid]);
  }

  lemma AdvanceKeepsSelf(h: Bytes -> Bytes, w: World, pid: nat, block: BlockSize)
    requires Good(h, w) && Enabled(w, pid)
    ensures var w' := Next(h, w, pid, block);
            pid in w'.processes && ProcessOk(h, w'.tree, w.sources, pid, w'.processes[pid])
  {
    var Process(n, phase) := w.processes[pid];
    assert ProcessOk(h, w.tree, w.sources, pid, w.processes[pid]);
    match phase {
      case HashSource(read) => ReadBlockExtends(w.sources[n], read, block);
      case Copy(_) => ReadBlockExtends(w.sources[n], w.tree[CopyPartial(n, pid)].data, block);
      case _ =>
    }
  }

  lemma AdvanceKeepsOther(h: Bytes -> Bytes, w: World, pid: nat, block: BlockSize, q: nat)
    requires Good(h, w) && Enabled(w, pid) && q in w.processes && q != pid
    ensures ProcessOk(h, Next(h, w, pid, block).tree, w.sources, q, w.processes[q])
  {
    assert ProcessOk(h, w.tree, w.sources, pid, w.processes[pid]);
    assert ProcessOk(h, w.tree, w.sources, q, w.processes[q]);
    assert Holds(w.processes, w.processes[pid].name, q) && Holds(w.processes, w.processes[pid].name, pid) ==> q == pid;
  }

  lemma GoodAssemble(h: Bytes -> Bytes, w: World, w': World, pid: nat)
    requires Good(h, w) && Frame(w, w', pid) && LockFrame(w, w', pid)
    requires TreeOk(h, w'.tree, w.sources)
    requires ProcessOk(h, w'.tree, w.sources, pid, w'.processes[pid])
    requires forall q | q in w.processes && q != pid :: ProcessOk(h, w'.tree, w.sources, q, w.processes[q])
    ensures Good(h, w')
  {
    forall q | Holds(w.processes, w.processes[pid].name, q)
      ensures SidecarPartial(w.processes[pid].name) in w.tree
    {
      assert ProcessOk(h, w.tree, w.sources, q, w.processes[q]);
    }
    LockKept(w, w', pid);
  }

  lemma GoodAdvance(h: Bytes -> Bytes, w: World, pid: nat, block: BlockSize)
    requires Good(h, w) && Enabled(w, pid)
    ensures Good(h, Next(h, w, pid, block))
  {
    NextFrame(h, w, pid, block);
    AdvanceKeepsTree(h, w, pid, block);
    AdvanceKeepsSelf(h, w, pid, block);
    forall q | q in w.processes && q != pid
      ensures ProcessOk(h, Next(h, w, pid, block).tree, w.sources, q, w.processes[q])
    {
      AdvanceKeepsOther(h, w, pid, block, q);
    }
    GoodAssemble(h, w, Next(h, w, pid, block), pid);
  }

  lemma GoodFault(h: Bytes -> Bytes, w: World, pid: nat)
    requires Good(h, w) && Enabled(w, pid)
    ensures Good(h, SetPhase(w, pid, Faulted(w.processes[pid].phase)))
  {
    assert ProcessOk(h, w.tree, w.sources, pid, w.processes[pid]);
    GoodAssemble(h, w, SetPhase(w, pid, Faulted(w.processes[pid].phase)), pid);
  }

  lemma GoodStop(h: Bytes -> Bytes, w: World, pid: nat)
    requires Good(h, w)
    ensures Good(h, w.(processes := w.processes - {pid}))
  {
    var ps := w.processes - {pid};
    assert forall n, q :: Holds(ps, n, q) ==> Holds(w.processes, n, q);
  }

  lemma GoodSpawn(h: Bytes -> Bytes, w: World, pid: nat, n: string)
    requires Good(h, w) && pid !in w.processes && n in w.sources && IsWalName(n)
    ensures Good(h, w.(processes := w.processes[pid := Process(n, HashSource([]))]))
  {
    var ps := w.processes[pid := Process(n, HashSource([]))];
    assert forall m, q :: Holds(ps, m, q) ==> Holds(w.processes, m, q);
  }

  lemma GoodExec(h: Bytes -> Bytes, w: World, a: Action)
    requires Good(h, w) && IsHonest(a)
    ensures Good(h, Exec(h, w, a)) && Exec(h, w, a).sources == w.sources
  {
    match a
    case Spawn(pid, n) =>
      if pid !in w.processes && n in w.sources && IsWalName(n) {
        GoodSpawn(h, w, pid, n);
      }
    case Advance(pid, block) =>
      if Enabled(w, pid) {
        GoodAdvance(h, w, pid, block);
        NextFrame(h, w, pid, block);
      }
    case Fault(pid) =>
      if Enabled(w, pid) {
        GoodFault(h, w, pid);
      }
    case Stop(pid) => GoodStop(h, w, pid);
  }

  lemma {:induction false} GoodRun(h: Bytes -> Bytes, w: World, acts: seq<Action>)
    requires Good(h, w) && Honest(acts)
    ensures Good(h, Run(h, w, acts)) && Run(h, w, acts).sources == w.sources
  {
    if acts != [] {
      var init := acts[..|acts| - 1];
      GoodRun(h, w, init);
      GoodExec(h, Run(h, w, init), acts[|acts| - 1]);
    }
  }

  // ----- the theorem -----

  /** No archiver is running and nothing is archived; stale copy partials may lie around. */
  ghost predicate Fresh(w: World) {
    && w.processes == map[]
    && forall p | p in w.tree :: p.CopyPartial?
  }

  /** For any number of archivers of any number of segments, interleaved system call by system call,
      with exceptions and crashes anywhere: in every reachable state the destination is absent or the
      full segment, the sidecar is absent or the line holding its digest, a sidecar never stands
      without its destination, and the sidecar partial has at most one live owner. */
  lemma SafetyOverAllRuns(h: Bytes -> Bytes, w: World, acts: seq<Action>, n: string)
    requires Fresh(w) && Honest(acts)
    ensures var w' := Run(h, w, acts);
            && (Segment(n) in w'.tree ==> n in w.sources && w'.tree[Segment(n)] == File(w.sources[n]))
            && (Sidecar(n) in w'.tree ==>
                  && Segment(n) in w'.tree
                  && w'.tree[Sidecar(n)] == File(DigestLine(h(w.sources[n]))))
            && (forall p, q :: Holds(w'.processes, n, p) && Holds(w'.processes, n, q) ==> p == q)
  {
    assert Good(h, w);
    GoodRun(h, w, acts);
  }

  // ----- hashes, with the sources changing and published files tampered with -----

  // What holds of a process's own partials, whoever writes elsewhere.
  ghost predicate PartialsOk(h: Bytes -> Bytes, tree: Tree, pid: nat, p: Process) {
    var part, lock := CopyPartial(p.name, pid), SidecarPartial(p.name);
    match p.phase
    case Publish(d) => OwnPartial(tree, p.name, pid) && h(tree[part].data) == d
    case CreateSidecar(_) => part !in tree
    case WriteSidecar(_) => part !in tree && lock in tree
    case PublishSidecar(d) => part !in tree && lock in tree && tree[lock] == File(DigestLine(d))
    case Finish(_) => part !in tree
    case Reraised(_) => part !in tree
    case _ => true
  }

  ghost predicate Disciplined(h: Bytes -> Bytes, w: World) {
    && (forall pid | pid in w.processes :: PartialsOk(h, w.tree, pid, w.processes[pid]))
    && LockOk(w.processes)
  }

  lemma NextKeepsOwnPartials(h: Bytes -> Bytes, w: World, pid: nat, block: BlockSize)
    requires Enabled(w, pid) && PartialsOk(h, w.tree, pid, w.processes[pid])
    ensures var w' := Next(h, w, pid, block);
            pid in w'.processes && PartialsOk(h, w'.tree, pid, w'.processes[pid])
  {
  }

  lemma NextKeepsOtherPartials(h: Bytes -> Bytes, w: World, pid: nat, block: BlockSize, q: nat)
    requires Enabled(w, pid) && q in w.processes && q != pid
    requires Holds(w.processes, w.processes[pid].name, pid) ==> !Holds(w.processes, w.processes[pid].name, q)
    requires PartialsOk(h, w.tree, q, w.processes[q])
    ensures PartialsOk(h, Next(h, w, pid, block).tree, q, w.processes[q])
  {
  }

  lemma DisciplinedNext(h: Bytes -> Bytes, w: World, pid: nat, block: BlockSize)
    requires Disciplined(h, w) && Enabled(w, pid)
    ensures Disciplined(h, Next(h, w, pid, block))
  {
    var w' := Next(h, w, pid, block);
    NextFrame(h, w, pid, block);
    forall q | Holds(w.processes, w.processes[pid].name, q)
      ensures SidecarPartial(w.processes[pid].name) in w.tree
    {
      assert PartialsOk(h, w.tree, q, w.processes[q]);
    }
    LockKept(w, w', pid);
    forall q | q in w'.processes ensures PartialsOk(h, w'.tree, q, w'.processes[q]) {
      assert PartialsOk(h, w.tree, q, w.processes[q]);
      if q == pid {
        NextKeepsOwnPartials(h, w, pid, block);
      } else {
        NextKeepsOtherPartials(h, w, pid, block, q);
      }
    }
  }

  lemma DisciplinedExec(h: Bytes -> Bytes, w: World, a: Action)
    requires Disciplined(h, w)
    ensures Disciplined(h, Exec(h, w, a))
  {
    if a.Advance? {
      if Enabled(w, a.pid) {
        DisciplinedNext(h, w, a.pid, a.block);
      }
    } else {
      var w' := Exec(h, w, a);
      assert forall n, q :: Holds(w'.processes, n, q) ==> Holds(w.processes, n, q);
      forall q | q in w'.processes ensures PartialsOk(h, w'.tree, q, w'.processes[q]) {
        assert q in w.processes ==> PartialsOk(h, w.tree, q, w.processes[q]);
      }
    }
  }

  lemma {:induction false} DisciplinedRun(h: Bytes -> Bytes, w: World, acts: seq<Action>)
    requires Disciplined(h, w)
    ensures Disciplined(h, Run(h, w, acts))
  {
    if acts != [] {
      DisciplinedRun(h, w, acts[..|acts| - 1]);
      DisciplinedExec(h, Run(h, w, acts[..|acts| - 1]), acts[|acts| - 1]);
    }
  }

  ghost predicate Changes(tree: Tree, tree': Tree, p: ArchivePath) {
    (p in tree) != (p in tree') || (p in tree && tree[p] != tree'[p])
  }

  ghost predicate Publishes(a: Action, w: World, n: string) {
    a.Advance? && a.pid in w.processes && w.processes[a.pid].name == n
  }

  // Only an archiver's own publish steps change segments and sidecars, and what they publish.
  ghost predicate PublishedByHash(h: Bytes -> Bytes, w: World, a: Action, tree': Tree, n: string) {
    && (Changes(w.tree, tree', Segment(n)) ==>
          && Publishes(a, w, n) && w.processes[a.pid].phase.Publish?
          && Segment(n) in tree' && tree'[Segment(n)].File?
          && h(tree'[Segment(n)].data) == w.processes[a.pid].phase.digest)
    && (Changes(w.tree, tree', Sidecar(n)) ==>
          && Publishes(a, w, n) && w.processes[a.pid].phase.PublishSidecar?
          && Sidecar(n) in tree'
          && tree'[Sidecar(n)] == File(DigestLine(w.processes[a.pid].phase.digest)))
  }

  lemma NextPublishesByHash(h: Bytes -> Bytes, w: World, pid: nat, block: BlockSize, n: string)
    requires Enabled(w, pid) && PartialsOk(h, w.tree, pid, w.processes[pid])
    ensures PublishedByHash(h, w, Advance(pid, block), Next(h, w, pid, block).tree, n)
  {
  }

  /** Even while sources change under the archivers and published files are tampered with: only an
      archiver's own publish step changes a segment, to bytes that hash to the digest it took of its
      source; and only its own publish step changes a sidecar, to the line of that digest. */
  lemma PublishesWhatItHashed(h: Bytes -> Bytes, w: World, acts: seq<Action>, a: Action, n: string)
    requires w.processes == map[] && !a.Tamper?
    ensures PublishedByHash(h, Run(h, w, acts), a, Exec(h, Run(h, w, acts), a).tree, n)
  {
    DisciplinedRun(h, w, acts);
    var w1 := Run(h, w, acts);
    if a.Advance? && Enabled(w1, a.pid) {
      assert PartialsOk(h, w1.tree, a.pid, w1.processes[a.pid]);
      NextPublishesByHash(h, w1, a.pid, a.block, n);
    }
  }

  // ----- attempts that fail -----

  // Some archiver of n stands right behind its rename to the destination.
  ghost predicate JustPublished(w: World, n: string) {
    exists pid :: pid in w.processes && w.processes[pid].name == n && w.processes[pid].phase.CreateSidecar?
  }

  /** However many attempts there are and however each of them fails, even with sources changing under
      them: until one of them has got past its rename, the destination is what it was. */
  lemma {:induction false} DestinationUntilPublish(h: Bytes -> Bytes, w: World, acts: seq<Action>, n: string)
    requires w.processes == map[] && forall i | 0 <= i < |acts| :: !acts[i].Tamper?
    requires forall i | 0 <= i <= |acts| :: !JustPublished(Run(h, w, acts[..i]), n)
    ensures !Changes(w.tree, Run(h, w, acts).tree, Segment(n))
  {
    if acts != [] {
      var m := |acts| - 1;
      forall i | 0 <= i <= m ensures !JustPublished(Run(h, w, acts[..m][..i]), n) {
        assert acts[..m][..i] == acts[..i];
      }
      DestinationUntilPublish(h, w, acts[..m], n);
      assert acts[..|acts|] == acts;
      PublishStepShows(h, Run(h, w, acts[..m]), acts[m], n);
    }
  }

  lemma PublishStepShows(h: Bytes -> Bytes, w: World, a: Action, n: string)
    requires !a.Tamper?
    ensures Changes(w.tree, Exec(h, w, a).tree, Segment(n)) ==> JustPublished(Exec(h, w, a), n)
  {
    var w' := Exec(h, w, a);
    if Changes(w.tree, w'.tree, Segment(n)) {
      assert a.pid in w'.processes && w'.processes[a.pid].name == n && w'.processes[a.pid].phase.CreateSidecar?;
    }
  }

  /** However the run went, an attempt whose handler has finished left no copy partial of its own; and a
      stale partial that blocks the exclusive create costs this attempt: two steps later the process has
      raised, the partial is gone, and nothing else has changed. Only a directory of that name stays. */
  lemma FailedAttemptLeavesNothing(h: Bytes -> Bytes, w: World, acts: seq<Action>, pid: nat, block: BlockSize)
    requires w.processes == map[] && Enabled(Run(h, w, acts), pid)
    ensures var w1 := Run(h, w, acts);
            var p, part := w1.processes[pid], CopyPartial(w1.processes[pid].name, pid);
            && (p.phase.Reraised? ==> part !in w1.tree)
            && (p.phase.CreatePartial? && part in w1.tree ==>
                  var w2 := Run(h, w, acts + [Advance(pid, block), Advance(pid, block)]);
                  && pid in w2.processes
                  && if w1.tree[part].Directory? then w2.processes[pid].phase.Abandoned? && w2.tree == w1.tree
                     else w2.processes[pid].phase.Reraised? && w2.tree == w1.tree - {part})
  {
    DisciplinedRun(h, w, acts);
    var w1 := Run(h, w, acts);
    assert PartialsOk(h, w1.tree, pid, w1.processes[pid]);
    var two := [Advance(pid, block), Advance(pid, block)];
    RunConcat(h, w, acts, two);
    assert two[..1] == [Advance(pid, block)];
    RunOne(h, w1, Advance(pid, block));
  }
}
