/** archive_wal_segment as code that changes the archive root. Between any two system calls the other
    processes run, and the next call may raise. */
module WalHost {
  import opened Options
  import opened ByteStrings
  import opened WalNames
  import opened WalProtocol
  import opened WalSafety

  datatype Outcome = Ok(digest: Bytes) | Err(error: Error)

  // Quiet: nobody else runs and no call fails. Calm: archivers run, and nobody else writes the
  // archive root or the sources. Hostile: anything.
  datatype Environment = Quiet | Calm | Hostile

  predicate ByOthers(a: Action, pid: nat) {
    match a
    case Spawn(p, _) => p != pid
    case Advance(p, _) => p != pid
    case Fault(p) => p != pid
    case Stop(p) => p != pid
    case _ => true
  }

  lemma {:induction false} OthersKeepProcess(h: Bytes -> Bytes, w: World, acts: seq<Action>, pid: nat)
    requires Enabled(w, pid) && forall i | 0 <= i < |acts| :: ByOthers(acts[i], pid)
    ensures var w' := Run(h, w, acts); Enabled(w', pid) && w'.processes[pid] == w.processes[pid]
  {
    if acts != [] {
      var init := acts[..|acts| - 1];
      OthersKeepProcess(h, w, init, pid);
      var a, w' := acts[|acts| - 1], Run(h, w, init);
      if a.Advance? && Enabled(w', a.pid) {
        NextFrame(h, w', a.pid, a.block);
      }
    }
  }

  lemma {:induction false} HonestKeepsSources(h: Bytes -> Bytes, w: World, acts: seq<Action>)
    requires Honest(acts)
    ensures Run(h, w, acts).sources == w.sources
  {
    if acts != [] {
      var init := acts[..|acts| - 1];
      HonestKeepsSources(h, w, init);
      var a, w' := acts[|acts| - 1], Run(h, w, init);
      if a.Advance? && Enabled(w', a.pid) {
        NextFrame(h, w', a.pid, a.block);
      }
    }
  }

  // ----- what an undisturbed archive attempt does -----

  function SequentialArchive(h: Bytes -> Bytes, tree: Tree, source: Bytes, n: string, pid: nat): (Outcome, Tree) {
    var seg, side, part, lock := Segment(n), Sidecar(n), CopyPartial(n, pid), SidecarPartial(n);
    var line := File(DigestLine(h(source)));
    if seg in tree && Exists(tree[seg]) then
      (if IsSymlink(tree[seg]) then Err(Collision)
       else if tree[seg].Directory? then Err(OsError)
       else if h(tree[seg].data) != h(source) then Err(Collision)
       else Ok(h(source)), tree)
    else if part in tree then (Err(OsError), if tree[part].Directory? then tree else tree - {part})
    else if lock in tree then (Err(OsError), tree[seg := File(source)])
    else if side in tree && tree[side].Directory? then (Err(OsError), tree[seg := File(source)][lock := line])
    else (Ok(h(source)), tree[seg := File(source)][side := line])
  }

  /** For every archive state, an undisturbed archive call that returns success leaves a segment a
      restore accepts if and only if the destination was absent before the call, or was already
      restorable. The early return repairs nothing. */
  lemma SuccessRestorableIff(h: Bytes -> Bytes, tree: Tree, source: Bytes, n: string, pid: nat)
    requires HexValued(h) && SequentialArchive(h, tree, source, n, pid).0.Ok?
    ensures var tree' := SequentialArchive(h, tree, source, n, pid).1;
            RestoreChecks(h, tree', n) <==>
            !(Segment(n) in tree && Exists(tree[Segment(n)])) || RestoreChecks(h, tree, n)
  {
    StripDigestLine(h(source));
  }

  /** An undisturbed archive call never changes a segment that is there, nor anything but the files of its
      own segment; what it says it has archived is there with that digest; and it reports a collision
      exactly for a destination that is a symlink or a file with another digest. */
  lemma SequentialArchiveKeeps(h: Bytes -> Bytes, tree: Tree, source: Bytes, n: string, pid: nat)
    ensures var (r, tree') := SequentialArchive(h, tree, source, n, pid);
            var there := Segment(n) in tree && Exists(tree[Segment(n)]);
            && (there ==> tree' == tree)
            && (forall p | p in tree && p.name != n :: p in tree' && tree'[p] == tree[p])
            && (forall p | p in tree' && p.name != n :: p in tree)
            && (r.Ok? ==>
                  && r.digest == h(source) && Segment(n) in tree' && tree'[Segment(n)].File?
                  && h(tree'[Segment(n)].data) == h(source))
            && (r.Ok? && !there ==>
                  && tree'[Segment(n)] == File(source)
                  && Sidecar(n) in tree' && tree'[Sidecar(n)] == File(DigestLine(h(source))))
            && (r == Err(Collision) <==>
                  there && (IsSymlink(tree[Segment(n)])
                            || (tree[Segment(n)].File? && h(tree[Segment(n)].data) != h(source))))
            && (r.Err? ==> r.error.Collision? || r.error.OsError?)
  {
  }

  class Host {
    const h: Bytes -> Bytes
    const environment: Environment
    const rootIsSymlink: bool
    var tree: Tree
    var sources: map<string, Bytes>
    var processes: map<nat, Process>
    // The run of the transition system that this host has gone through.
    ghost var origin: World
    ghost var trace: seq<Action>

    ghost function State(): World
      reads this
    {
      World(tree, sources, processes)
    }

    ghost predicate Valid()
      reads this
    {
      && State() == Run(h, origin, trace)
      && (!environment.Hostile? ==> Honest(trace))
    }

    constructor (h: Bytes -> Bytes, environment: Environment, rootIsSymlink: bool, w: World)
      ensures Valid() && State() == origin == w && trace == []
      ensures this.h == h && this.environment == environment && this.rootIsSymlink == rootIsSymlink
    {
      this.h, this.environment, this.rootIsSymlink := h, environment, rootIsSymlink;
      tree, sources, processes := w.tree, w.sources, w.processes;
      origin, trace := w, [];
    }

    // One action of the transition system has just been carried out on the fields.
    ghost method Record(before: World, a: Action)
      requires before == Run(h, origin, trace) && State() == Exec(h, before, a)
      requires !environment.Hostile? ==> Honest(trace) && IsHonest(a)
      modifies this`trace
      ensures Valid() && trace == old(trace) + [a]
    {
      trace := trace + [a];
      assert trace[..|trace| - 1] == old(trace);
    }

    // The actions of others are carried out.
    method Perform(acts: seq<Action>)
      requires Valid() && (!environment.Hostile? ==> Honest(acts))
      modifies this`tree, this`sources, this`processes, this`trace
      ensures Valid() && State() == Run(h, old(State()), acts) && trace == old(trace) + acts
      ensures !environment.Hostile? ==> sources == old(sources)
    {
      var w := Run(h, World(tree, sources, processes), acts);
      RunConcat(h, origin, trace, acts);
      if !environment.Hostile? {
        HonestKeepsSources(h, State(), acts);
      }
      tree, sources, processes := w.tree, w.sources, w.processes;
      trace := trace + acts;
    }

    // Any number of actions of everyone but process pid.
    method Interfere(pid: nat)
      requires Valid() && Enabled(State(), pid)
      modifies this`tree, this`sources, this`processes, this`trace
      ensures Valid() && old(trace) <= trace
      ensures Enabled(State(), pid) && processes[pid] == old(processes)[pid]
      ensures environment.Quiet? ==> State() == old(State()) && trace == old(trace)
      ensures !environment.Hostile? ==> sources == old(sources)
    {
      var none: seq<Action> := [];
      assert Honest(none);
      var acts: seq<Action> :|
        && (forall i | 0 <= i < |acts| :: ByOthers(acts[i], pid))
        && (environment.Quiet? ==> acts == none)
        && (!environment.Hostile? ==> Honest(acts));
      OthersKeepProcess(h, State(), acts, pid);
      Perform(acts);
    }

    // Any number of actions of any archiver, and of the environment.
    method InterfereFreely()
      requires Valid()
      modifies this`tree, this`sources, this`processes, this`trace
      ensures Valid() && old(trace) <= trace
      ensures environment.Quiet? ==> State() == old(State()) && trace == old(trace)
      ensures !environment.Hostile? ==> sources == old(sources)
    {
      var none: seq<Action> := [];
      assert Honest(none);
      var acts: seq<Action> :|
        (environment.Quiet? ==> acts == none) && (!environment.Hostile? ==> Honest(acts));
      Perform(acts);
    }

    // The others run, and then the next system call of pid may raise.
    method Yield(pid: nat) returns (raised: bool)
      requires Valid() && Enabled(State(), pid)
      modifies this`tree, this`sources, this`processes, this`trace
      ensures Valid() && old(trace) <= trace
      ensures Enabled(State(), pid) && processes[pid].name == old(processes)[pid].name
      ensures processes[pid].phase ==
              (if raised then Faulted(old(processes)[pid].phase) else old(processes)[pid].phase)
      ensures environment.Quiet? ==> !raised && State() == old(State()) && trace == old(trace)
      ensures !environment.Hostile? ==> sources == old(sources)
    {
      Interfere(pid);
      if environment.Quiet? {
        return false;
      }
      raised := *;
      if raised {
        Raise(pid);
      }
    }

    method Raise(pid: nat)
      requires Valid() && Enabled(State(), pid)
      modifies this`processes, this`trace
      ensures Valid() && trace == old(trace) + [Fault(pid)]
      ensures old(trace) <= trace && Enabled(State(), pid)
      ensures processes == old(processes)[pid := old(processes)[pid].(phase := Faulted(old(processes)[pid].phase))]
    {
      ghost var before := State();
      processes := processes[pid := processes[pid].(phase := Faulted(processes[pid].phase))];
      Record(before, Fault(pid));
    }

    // Process pid completes a system call: the tree becomes `tree'`, and pid goes on at `phase`.
    method Complete(pid: nat, tree': Tree, phase: Phase, block: BlockSize)
      requires Valid() && Enabled(State(), pid)
      requires SetPhase(State().(tree := tree'), pid, phase) == Next(h, State(), pid, block)
      modifies this`tree, this`processes, this`trace
      ensures Valid() && trace == old(trace) + [Advance(pid, block)]
      ensures tree == tree' && processes == old(processes)[pid := old(processes)[pid].(phase := phase)]
    {
      ghost var before := State();
      tree := tree';
      processes := processes[pid := processes[pid].(phase := phase)];
      Record(before, Advance(pid, block));
    }

    // _sha256(source): block by block, each block read from the file as it then is.
    method HashSourceFile(n: string, pid: nat) returns (r: Outcome)
      requires Valid() && Enabled(State(), pid) && processes[pid] == Process(n, HashSource([]))
      modifies this`tree, this`sources, this`processes, this`trace
      ensures Valid() && old(trace) <= trace && Enabled(State(), pid)
      ensures processes[pid] == Process(n, if r.Ok? then CheckDestination(r.digest) else Raised(r.error))
      ensures environment.Quiet? ==>
                r == Ok(h(old(sources)[n])) && tree == old(tree) && sources == old(sources)
      ensures !environment.Hostile? ==> sources == old(sources)
    {
      var read: Bytes := [];
      // A source that keeps growing is read for some number of blocks until the call is interrupted.
      var fuel: nat := *;
      while true
        invariant Valid() && old(trace) <= trace && Enabled(State(), pid)
        invariant processes[pid] == Process(n, HashSource(read))
        invariant environment.Quiet? ==> tree == old(tree)
        invariant !environment.Hostile? ==> sources == old(sources) && read <= sources[n]
        decreases if environment.Hostile? then fuel else |sources[n]| - |read|
      {
        var raised := Yield(pid);
        if raised {
          return Err(OsError);
        }
        if environment.Hostile? && fuel == 0 {
          Raise(pid);
          return Err(OsError);
        }
        fuel := if fuel == 0 then 0 else fuel - 1;
        var block: BlockSize := *;
        var b := ReadBlock(sources[n], |read|, block);
        if !environment.Hostile? {
          ReadBlockExtends(sources[n], read, block);
        }
        if b == [] {
          Complete(pid, tree, CheckDestination(h(read)), block);
          return Ok(h(read));
        }
        read := read + b;
        Complete(pid, tree, HashSource(read), block);
      }
    }

    // archive_postgres_wal.py:29-32: the destination exists already.
    method CompareWithDestination(n: string, pid: nat, d: Bytes) returns (r: Outcome)
      requires Valid() && Enabled(State(), pid) && processes[pid] == Process(n, CompareDestination(d))
      modifies this`tree, this`sources, this`processes, this`trace
      ensures Valid() && old(trace) <= trace && Enabled(State(), pid)
      ensures processes[pid] == Process(n, if r.Ok? then Returned(d) else Raised(r.error))
      ensures r.Ok? ==> r.digest == d
      ensures environment.Quiet? ==> tree == old(tree)
      ensures environment.Quiet? && Segment(n) in old(tree) && Exists(old(tree)[Segment(n)]) ==>
                r == (if IsSymlink(tree[Segment(n)]) then Err(Collision)
                      else if tree[Segment(n)].Directory? then Err(OsError)
                      else if h(tree[Segment(n)].data) != d then Err(Collision) else Ok(d))
    {
      var raised := Yield(pid);
      if raised {
        return Err(OsError);
      }
      if Segment(n) in tree && IsSymlink(tree[Segment(n)]) {
        Complete(pid, tree, Raised(Collision), 1);
        return Err(Collision);
      }
      if !(Segment(n) in tree && tree[Segment(n)].File?) {
        Complete(pid, tree, Raised(OsError), 1);
        return Err(OsError);
      }
      var actual := HashFile(tree[Segment(n)].data);
      if actual != d {
        Complete(pid, tree, Raised(Collision), 1);
        return Err(Collision);
      }
      Complete(pid, tree, Returned(d), 1);
      r := Ok(d);
    }

    // _sha256 of an opened file nobody writes in place: the digest object absorbs it block by block.
    method HashFile(content: Bytes) returns (d: Bytes)
      ensures d == h(content)
    {
      var absorbed: Bytes := [];
      while true
        invariant absorbed <= content
        decreases |content| - |absorbed|
      {
        var block: BlockSize := *;
        var b := ReadBlock(content, |absorbed|, block);
        ReadBlockExtends(content, absorbed, block);
        if b == [] {
          return h(absorbed);
        }
        absorbed := absorbed + b;
      }
    }

    // partial.open("xb").
    method CreateCopyPartial(n: string, pid: nat, d: Bytes) returns (r: Outcome)
      requires Valid() && Enabled(State(), pid) && processes[pid] == Process(n, CreatePartial(d))
      modifies this`tree, this`sources, this`processes, this`trace
      ensures Valid() && old(trace) <= trace && Enabled(State(), pid)
      ensures processes[pid] == Process(n, if r.Ok? then Copy(d) else CleanUp(r.error))
      ensures environment.Quiet? ==>
                if CopyPartial(n, pid) in old(tree) then r == Err(OsError) && tree == old(tree)
                else r == Ok(d) && tree == old(tree)[CopyPartial(n, pid) := File([])]
      ensures !environment.Hostile? ==> sources == old(sources)
    {
      var raised := Yield(pid);
      if raised {
        r := Err(OsError);
      } else if CopyPartial(n, pid) in tree {
        Complete(pid, tree, CleanUp(OsError), 1);
        r := Err(OsError);
      } else {
        Complete(pid, tree[CopyPartial(n, pid) := File([])], Copy(d), 1);
        r := Ok(d);
      }
    }

    ghost predicate Holding(tree: Tree, p: ArchivePath, d: Bytes) {
      p in tree && tree[p].File? && h(tree[p].data) == d
    }

    ghost predicate IsOther(tree: Tree, p: ArchivePath, d: Bytes) {
      p in tree && tree[p].File? && h(tree[p].data) != d
    }

    // _sha256(partial) != source_digest.
    method CheckCopy(n: string, pid: nat, d: Bytes) returns (r: Outcome)
      requires Valid() && Enabled(State(), pid) && processes[pid] == Process(n, HashPartial(d))
      modifies this`tree, this`sources, this`processes, this`trace
      ensures Valid() && old(trace) <= trace && Enabled(State(), pid)
      ensures processes[pid] == Process(n, if r.Ok? then Publish(d) else CleanUp(r.error))
      ensures environment.Quiet? ==> tree == old(tree)
      ensures environment.Quiet? && Holding(tree, CopyPartial(n, pid), d) ==> r == Ok(d)
      ensures environment.Quiet? && IsOther(tree, CopyPartial(n, pid), d) ==> r == Err(CopyHashMismatch)
      ensures !environment.Hostile? ==> sources == old(sources)
    {
      var part := CopyPartial(n, pid);
      var raised := Yield(pid);
      if raised {
        return Err(OsError);
      }
      if !(part in tree && tree[part].File?) {
        Complete(pid, tree, CleanUp(OsError), 1);
        return Err(OsError);
      }
      var actual := HashFile(tree[part].data);
      var error := CleanUp(CopyHashMismatch);
      Complete(pid, tree, if actual == d then Publish(d) else error, 1);
      r := if actual == d then Ok(d) else Err(CopyHashMismatch);
    }

    // archive_postgres_wal.py:35-41: exclusive create, copy block by block, hash the copy.
    method CopyToPartial(n: string, pid: nat, d: Bytes) returns (r: Outcome)
      requires Valid() && Enabled(State(), pid) && processes[pid] == Process(n, CreatePartial(d))
      modifies this`tree, this`sources, this`processes, this`trace
      ensures Valid() && old(trace) <= trace && Enabled(State(), pid)
      ensures processes[pid] == Process(n, if r.Ok? then Publish(d) else CleanUp(r.error))
      ensures environment.Quiet? && d == h(old(sources)[n]) ==>
                if CopyPartial(n, pid) in old(tree) then r == Err(OsError) && tree == old(tree)
                else r == Ok(d) && tree == old(tree)[CopyPartial(n, pid) := File(old(sources)[n])]
      ensures !environment.Hostile? ==> sources == old(sources)
    {
      r := CreateCopyPartial(n, pid, d);
      if r.Ok? {
        r := CopyLoop(n, pid, d);
      }
      if r.Ok? {
        r := CheckCopy(n, pid, d);
      }
    }

    // shutil.copyfileobj(input_file, output_file, 1024 * 1024).
    method CopyLoop(n: string, pid: nat, d: Bytes) returns (r: Outcome)
      requires Valid() && Enabled(State(), pid) && processes[pid] == Process(n, Copy(d))
      requires environment.Quiet? ==> CopyPartial(n, pid) in tree && tree[CopyPartial(n, pid)] == File([])
      modifies this`tree, this`sources, this`processes, this`trace
      ensures Valid() && old(trace) <= trace && Enabled(State(), pid)
      ensures processes[pid] == Process(n, if r.Ok? then HashPartial(d) else CleanUp(r.error))
      ensures environment.Quiet? ==> r == Ok(d) && tree == old(tree)[CopyPartial(n, pid) := File(old(sources)[n])]
      ensures !environment.Hostile? ==> sources == old(sources)
    {
      var part := CopyPartial(n, pid);
      ghost var written: Bytes := [];
      var fuel: nat := *;
      while true
        invariant Valid() && old(trace) <= trace && Enabled(State(), pid)
        invariant processes[pid] == Process(n, Copy(d))
        invariant environment.Quiet? ==> tree == old(tree)[part := File(written)] && written <= sources[n]
        invariant !environment.Hostile? ==> sources == old(sources)
        decreases if environment.Quiet? then |sources[n]| - |written| else fuel
      {
        var raised := Yield(pid);
        if raised {
          return Err(OsError);
        }
        if !environment.Quiet? && fuel == 0 {
          Raise(pid);
          return Err(OsError);
        }
        fuel := if fuel == 0 then 0 else fuel - 1;
        if !(part in tree && tree[part].File?) {
          Complete(pid, tree, CleanUp(OsError), 1);
          return Err(OsError);
        }
        var block: BlockSize := *;
        var b := ReadBlock(sources[n], |tree[part].data|, block);
        if environment.Quiet? {
          ReadBlockExtends(sources[n], written, block);
        }
        if b == [] {
          Complete(pid, tree, HashPartial(d), block);
          return Ok(d);
        }
        written := tree[part].data + b;
        Complete(pid, tree[part := File(tree[part].data + b)], Copy(d), block);
      }
    }

    // os.replace(partial, destination).
    method RenameToDestination(n: string, pid: nat, d: Bytes) returns (r: Outcome)
      requires Valid() && Enabled(State(), pid) && processes[pid] == Process(n, Publish(d))
      modifies this`tree, this`sources, this`processes, this`trace
      ensures Valid() && old(trace) <= trace && Enabled(State(), pid)
      ensures processes[pid] == Process(n, if r.Ok? then CreateSidecar(d) else CleanUp(r.error))
      ensures environment.Quiet? && CanReplace(old(tree), CopyPartial(n, pid), Segment(n)) ==>
                r == Ok(d) && tree == Replace(old(tree), CopyPartial(n, pid), Segment(n))
      ensures !environment.Hostile? ==> sources == old(sources)
    {
      var raised := Yield(pid);
      if raised {
        r := Err(OsError);
      } else if !CanReplace(tree, CopyPartial(n, pid), Segment(n)) {
        Complete(pid, tree, CleanUp(OsError), 1);
        r := Err(OsError);
      } else {
        Complete(pid, Replace(tree, CopyPartial(n, pid), Segment(n)), CreateSidecar(d), 1);
        r := Ok(d);
      }
    }

    // partial.open("x").
    method CreateSidecarPartial(n: string, pid: nat, d: Bytes) returns (r: Outcome)
      requires Valid() && Enabled(State(), pid) && processes[pid] == Process(n, CreateSidecar(d))
      modifies this`tree, this`sources, this`processes, this`trace
      ensures Valid() && old(trace) <= trace && Enabled(State(), pid)
      ensures processes[pid] == Process(n, if r.Ok? then WriteSidecar(d) else CleanUp(r.error))
      ensures environment.Quiet? ==>
                if SidecarPartial(n) in old(tree) then r == Err(OsError) && tree == old(tree)
                else r == Ok(d) && tree == old(tree)[SidecarPartial(n) := File([])]
      ensures !environment.Hostile? ==> sources == old(sources)
    {
      var raised := Yield(pid);
      if raised {
        r := Err(OsError);
      } else if SidecarPartial(n) in tree {
        Complete(pid, tree, CleanUp(OsError), 1);
        r := Err(OsError);
      } else {
        Complete(pid, tree[SidecarPartial(n) := File([])], WriteSidecar(d), 1);
        r := Ok(d);
      }
    }

    // output.write(f"{digest}\n").
    method WriteSidecarLine(n: string, pid: nat, d: Bytes) returns (r: Outcome)
      requires Valid() && Enabled(State(), pid) && processes[pid] == Process(n, WriteSidecar(d))
      modifies this`tree, this`sources, this`processes, this`trace
      ensures Valid() && old(trace) <= trace && Enabled(State(), pid)
      ensures processes[pid] == Process(n, if r.Ok? then PublishSidecar(d) else CleanUp(r.error))
      ensures environment.Quiet? ==> r == Ok(d) && tree == old(tree)[SidecarPartial(n) := File(DigestLine(d))]
      ensures !environment.Hostile? ==> sources == old(sources)
    {
      var raised := Yield(pid);
      if raised {
        return Err(OsError);
      }
      Complete(pid, tree[SidecarPartial(n) := File(DigestLine(d))], PublishSidecar(d), 1);
      r := Ok(d);
    }

    // os.replace(partial, path).
    method RenameSidecar(n: string, pid: nat, d: Bytes) returns (r: Outcome)
      requires Valid() && Enabled(State(), pid) && processes[pid] == Process(n, PublishSidecar(d))
      modifies this`tree, this`sources, this`processes, this`trace
      ensures Valid() && old(trace) <= trace && Enabled(State(), pid)
      ensures processes[pid] == Process(n, if r.Ok? then Finish(d) else CleanUp(r.error))
      ensures environment.Quiet? && SidecarPartial(n) in old(tree) ==>
                if Sidecar(n) in old(tree) && old(tree)[Sidecar(n)].Directory?
                then r == Err(OsError) && tree == old(tree)
                else r == Ok(d) && tree == Replace(old(tree), SidecarPartial(n), Sidecar(n))
      ensures !environment.Hostile? ==> sources == old(sources)
    {
      var raised := Yield(pid);
      if raised {
        r := Err(OsError);
      } else if !CanReplace(tree, SidecarPartial(n), Sidecar(n)) {
        Complete(pid, tree, CleanUp(OsError), 1);
        r := Err(OsError);
      } else {
        Complete(pid, Replace(tree, SidecarPartial(n), Sidecar(n)), Finish(d), 1);
        r := Ok(d);
      }
    }

    // return source_digest.
    method ReturnDigest(n: string, pid: nat, d: Bytes) returns (r: Outcome)
      requires Valid() && Enabled(State(), pid) && processes[pid] == Process(n, Finish(d))
      modifies this`tree, this`sources, this`processes, this`trace
      ensures Valid() && old(trace) <= trace && Enabled(State(), pid)
      ensures processes[pid] == Process(n, if r.Ok? then Returned(d) else CleanUp(r.error))
      ensures environment.Quiet? ==> r == Ok(d) && tree == old(tree)
      ensures r.Ok? ==> r.digest == d
    {
      var raised := Yield(pid);
      if raised {
        return Err(OsError);
      }
      Complete(pid, tree, Returned(d), 1);
      r := Ok(d);
    }

    method WriteDigest(n: string, pid: nat, d: Bytes) returns (r: Outcome)
      requires Valid() && Enabled(State(), pid) && processes[pid] == Process(n, CreateSidecar(d))
      modifies this`tree, this`sources, this`processes, this`trace
      ensures Valid() && old(trace) <= trace && Enabled(State(), pid)
      ensures processes[pid] == Process(n, if r.Ok? then Returned(d) else CleanUp(r.error))
      ensures r.Ok? ==> r.digest == d
      ensures environment.Quiet? ==>
                if SidecarPartial(n) in old(tree) then r == Err(OsError) && tree == old(tree)
                else if Sidecar(n) in old(tree) && old(tree)[Sidecar(n)].Directory?
                then r == Err(OsError) && tree == old(tree)[SidecarPartial(n) := File(DigestLine(d))]
                else r == Ok(d) && tree == old(tree)[Sidecar(n) := File(DigestLine(d))]
    {
      r := CreateSidecarPartial(n, pid, d);
      if r.Ok? {
        r := WriteSidecarLine(n, pid, d);
      }
      if r.Ok? {
        r := RenameSidecar(n, pid, d);
      }
      if r.Ok? {
        r := ReturnDigest(n, pid, d);
      }
    }

    // How an attempt on n by pid has failed inside the try block: its handler removed its copy partial and
    // raised the error again, or could not remove it, and raised that.
    ghost predicate FailedWith(n: string, pid: nat, error: Error)
      reads this
    {
      && pid in processes && processes[pid].name == n
      && if processes[pid].phase.Abandoned? then error == OsError
         else processes[pid].phase == Reraised(error) && CopyPartial(n, pid) !in tree
    }

    // partial.unlink(missing_ok=True); raise.
    method HandleError(n: string, pid: nat, error: Error) returns (r: Error)
      requires Valid() && Enabled(State(), pid) && processes[pid] == Process(n, CleanUp(error))
      modifies this`tree, this`sources, this`processes, this`trace
      ensures Valid() && old(trace) <= trace && Enabled(State(), pid)
      ensures FailedWith(n, pid, r) && (processes[pid].phase.Reraised? ==> r == error)
      ensures environment.Quiet? ==>
                var part := CopyPartial(n, pid);
                if part in old(tree) && old(tree)[part].Directory? then r == OsError && tree == old(tree)
                else r == error && tree == old(tree) - {part}
    {
      var part := CopyPartial(n, pid);
      var raised := Yield(pid);
      if raised {
        r := OsError;
      } else if part in tree && tree[part].Directory? {
        Complete(pid, tree, Abandoned, 1);
        r := OsError;
      } else {
        Complete(pid, tree - {part}, Reraised(error), 1);
        r := error;
      }
    }

    // archive_postgres_wal.py:35-42: copy and rename.
    method CopyAndRename(n: string, pid: nat, d: Bytes) returns (r: Outcome)
      requires Valid() && Enabled(State(), pid) && processes[pid] == Process(n, CreatePartial(d))
      modifies this`tree, this`sources, this`processes, this`trace
      ensures Valid() && old(trace) <= trace && Enabled(State(), pid)
      ensures processes[pid] == Process(n, if r.Ok? then CreateSidecar(d) else CleanUp(r.error))
      ensures environment.Quiet? && d == h(old(sources)[n])
              && !(Segment(n) in old(tree) && old(tree)[Segment(n)].Directory?) ==>
                if CopyPartial(n, pid) in old(tree) then r == Err(OsError) && tree == old(tree)
                else r == Ok(d) && tree == old(tree)[Segment(n) := File(old(sources)[n])]
    {
      r := CopyToPartial(n, pid, d);
      if r.Ok? {
        r := RenameToDestination(n, pid, d);
      }
      assert CopyPartial(n, pid) !in old(tree) ==>
          Replace(old(tree)[CopyPartial(n, pid) := File(old(sources)[n])], CopyPartial(n, pid), Segment(n))
          == old(tree)[Segment(n) := File(old(sources)[n])];
    }

    // archive_postgres_wal.py:34-47: the try block and its handler.
    method CopyAndPublish(n: string, pid: nat, d: Bytes) returns (r: Outcome)
      requires Valid() && Enabled(State(), pid) && processes[pid] == Process(n, CreatePartial(d))
      modifies this`tree, this`sources, this`processes, this`trace
      ensures Valid() && old(trace) <= trace && Enabled(State(), pid)
      ensures r.Ok? ==> r.digest == d && processes[pid] == Process(n, Returned(d))
      ensures r.Err? ==> FailedWith(n, pid, r.error)
      ensures environment.Quiet? && d == h(old(sources)[n])
              && !(Segment(n) in old(tree) && Exists(old(tree)[Segment(n)])) ==>
                (r, tree) == SequentialArchive(h, old(tree), old(sources)[n], n, pid)
    {
      r := CopyAndRename(n, pid, d);
      if r.Ok? {
        r := WriteDigest(n, pid, d);
      }
      if r.Err? {
        ghost var was := tree;
        var error := HandleError(n, pid, r.error);
        assert CopyPartial(n, pid) !in was ==> was - {CopyPartial(n, pid)} == was;
        r := Err(error);
      }
    }

    method Start(n: string, pid: nat)
      requires Valid() && pid !in processes && n in sources && IsWalName(n)
      modifies this`processes, this`trace
      ensures Valid() && trace == old(trace) + [Spawn(pid, n)]
      ensures processes == old(processes)[pid := Process(n, HashSource([]))]
    {
      ghost var before := State();
      processes := processes[pid := Process(n, HashSource([]))];
      Record(before, Spawn(pid, n));
    }

    // destination.exists().
    method CheckDestinationExists(n: string, pid: nat, d: Bytes) returns (raised: bool, found: bool)
      requires Valid() && Enabled(State(), pid) && processes[pid] == Process(n, CheckDestination(d))
      modifies this`tree, this`sources, this`processes, this`trace
      ensures Valid() && old(trace) <= trace && Enabled(State(), pid)
      ensures processes[pid] ==
              Process(n, if raised then Raised(OsError) else if found then CompareDestination(d) else CreatePartial(d))
      ensures environment.Quiet? ==>
                !raised && tree == old(tree) && (found <==> Segment(n) in tree && Exists(tree[Segment(n)]))
      ensures !environment.Hostile? ==> sources == old(sources)
    {
      found := false;
      raised := Yield(pid);
      if !raised {
        found := Segment(n) in tree && Exists(tree[Segment(n)]);
        Complete(pid, tree, if found then CompareDestination(d) else CreatePartial(d), 1);
      }
    }

    // archive_postgres_wal.py:29-47: what follows the hash of the source.
    method ArchiveHashed(n: string, pid: nat, d: Bytes) returns (r: Outcome)
      requires Valid() && Enabled(State(), pid) && processes[pid] == Process(n, CheckDestination(d))
      modifies this`tree, this`sources, this`processes, this`trace
      ensures Valid() && old(trace) <= trace && Enabled(State(), pid)
      ensures processes[pid].name == n
      ensures r.Ok? ==> r.digest == d && processes[pid].phase == Returned(d)
      ensures r.Err? ==> processes[pid].phase == Raised(r.error) || FailedWith(n, pid, r.error)
      ensures environment.Quiet? && d == h(old(sources)[n]) ==>
                (r, tree) == SequentialArchive(h, old(tree), old(sources)[n], n, pid)
    {
      var raised, found := CheckDestinationExists(n, pid, d);
      if raised {
        r := Err(OsError);
      } else if found {
        r := CompareWithDestination(n, pid, d);
      } else {
        r := CopyAndPublish(n, pid, d);
      }
    }

    /** archive_wal_segment. A call is refused, and then changes nothing, exactly for a name that is no WAL
        name or not the source's own, a source that is no regular file, or an archive root that is a
        symlink; the error is that of the first of these. Otherwise, whatever the other processes do,
        whatever changes under it and whichever call raises, what it does to the archive root is a run of
        the transition system in which its process returns, or raises, as it does; undisturbed, it does
        exactly what SequentialArchive says. */
    method ArchiveWalSegment(sourceName: string, n: string, pid: nat) returns (r: Outcome)
      requires Valid() && pid !in processes
      modifies this`tree, this`sources, this`processes, this`trace
      ensures Valid() && old(trace) <= trace
      ensures trace == old(trace) <==>
              !IsWalName(n) || sourceName != n || n !in old(sources) || rootIsSymlink
      ensures !IsWalName(n) || sourceName != n ==> r == Err(NameInvalid)
      ensures IsWalName(n) && sourceName == n && n !in old(sources) ==> r == Err(SourceInvalid)
      ensures IsWalName(n) && sourceName == n && n in old(sources) && rootIsSymlink ==> r == Err(RootSymlink)
      ensures r.Ok? ==> IsWalName(n) && sourceName == n && n in old(sources) && !rootIsSymlink
      ensures trace == old(trace) ==> State() == old(State())
      ensures trace != old(trace) ==>
                && Spawn(pid, n) in trace[|old(trace)|..]
                && pid in processes && processes[pid].name == n
                && (r.Ok? ==> processes[pid].phase == Returned(r.digest))
                && (r.Err? ==> processes[pid].phase == Raised(r.error) || FailedWith(n, pid, r.error))
                && (environment.Quiet? ==>
                      (r, tree) == SequentialArchive(h, old(tree), old(sources)[n], n, pid))
    {
      if !IsWalName(n) || sourceName != n {
        return Err(NameInvalid);
      }
      if n !in sources {
        return Err(SourceInvalid);
      }
      if rootIsSymlink {
        return Err(RootSymlink);
      }
      Start(n, pid);
      r := HashSourceFile(n, pid);
      if r.Ok? {
        r := ArchiveHashed(n, pid, r.digest);
      }
    }
  }
}
