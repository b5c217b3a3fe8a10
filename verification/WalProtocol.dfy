/** The WAL archiver as a transition system: one action is one system call of one archiver process,
    an exception raised in it, its end, or a change made by the environment. */
module WalProtocol {
  import opened Options
  import opened ByteStrings
  import opened WalNames

  datatype Node = File(data: Bytes) | Directory | Link(target: Node) | Dangling

  function Resolve(n: Node): Node {
    match n
    case Link(t) => Resolve(t)
    case _ => n
  }

  // pathlib's exists(), is_symlink() and is_file() on a directory entry.
  predicate Exists(n: Node) { !Resolve(n).Dangling? }
  predicate IsSymlink(n: Node) { n.Link? || n.Dangling? }
  predicate IsFile(n: Node) { Resolve(n).File? }

  /** exists() and is_file() follow links, and is_symlink() tells them from files and directories. */
  lemma LinksAreFollowed(t: Node, data: Bytes)
    ensures Exists(Link(t)) <==> Exists(t)
    ensures IsFile(Link(t)) <==> IsFile(t)
    ensures IsSymlink(Link(t)) && IsSymlink(Dangling) && !IsSymlink(File(data)) && !IsSymlink(Directory)
    ensures Exists(File(data)) && Exists(Directory) && !Exists(Dangling)
    ensures IsFile(File(data)) && !IsFile(Directory) && !IsFile(Dangling)
    ensures Resolve(Link(t)) == Resolve(t) && Resolve(File(data)) == File(data)
  {
  }

  type Tree = map<ArchivePath, Node>

  datatype Error = NameInvalid | SourceInvalid | RootSymlink | Collision | CopyHashMismatch | OsError

  /** Where a process is in archive_wal_segment. */
  datatype Phase =
    | HashSource(read: Bytes)
    | CheckDestination(digest: Bytes)
    | CompareDestination(digest: Bytes)
    | CreatePartial(digest: Bytes)
    | Copy(digest: Bytes)
    | HashPartial(digest: Bytes)
    | Publish(digest: Bytes)
    | CreateSidecar(digest: Bytes)
    | WriteSidecar(digest: Bytes)
    | PublishSidecar(digest: Bytes)
    | Finish(digest: Bytes)
    | CleanUp(error: Error)
    | Returned(digest: Bytes)
    | Raised(error: Error)     // before the try block
    | Reraised(error: Error)   // by the handler of the try block
    | Abandoned                // in that handler: its own unlink raised

  datatype Process = Process(name: string, phase: Phase)

  /** The archive root, the regular files PostgreSQL offers for archiving, the live archivers by pid. */
  datatype World = World(tree: Tree, sources: map<string, Bytes>, processes: map<nat, Process>)

  type BlockSize = n: nat | n > 0 witness 1

  datatype Action =
    | Spawn(pid: nat, name: string)
    | Advance(pid: nat, block: BlockSize)   // the next system call succeeds; block bounds a read
    | Fault(pid: nat)                       // the next system call raises, or an interrupt arrives
    | Stop(pid: nat)                        // the process is gone: killed anywhere, or after finishing
    | ChangeSource(name: string, data: Bytes)
    | Tamper(path: ArchivePath, node: Option<Node>)

  // ----- one step -----

  // One read of at most `block` bytes at offset |read|; empty at the end of the file.
  function ReadBlock(source: Bytes, offset: nat, block: BlockSize): Bytes {
    if offset >= |source| then []
    else if offset + block >= |source| then source[offset..]
    else source[offset..offset + block]
  }

  // Reading on from a prefix of the file reads a longer prefix, and stops only at the whole file.
  lemma ReadBlockExtends(source: Bytes, read: Bytes, block: BlockSize)
    requires read <= source
    ensures read + ReadBlock(source, |read|, block) <= source
    ensures ReadBlock(source, |read|, block) == [] <==> read == source
    ensures |ReadBlock(source, |read|, block)| <= block
  {
    assert read == source[..|read|];
  }

  function SetPhase(w: World, pid: nat, phase: Phase): World
    requires pid in w.processes
  {
    w.(processes := w.processes[pid := w.processes[pid].(phase := phase)])
  }

  predicate CanReplace(tree: Tree, from: ArchivePath, to: ArchivePath) {
    from in tree && !(to in tree && tree[to].Directory?)
  }

  function Replace(tree: Tree, from: ArchivePath, to: ArchivePath): Tree
    requires from in tree
  {
    (tree - {from})[to := tree[from]]
  }

  function Next(h: Bytes -> Bytes, w: World, pid: nat, block: BlockSize): World
    requires pid in w.processes && w.processes[pid].name in w.sources
  {
    var Process(n, phase) := w.processes[pid];
    var tree := w.tree;
    var seg, side, part, lock := Segment(n), Sidecar(n), CopyPartial(n, pid), SidecarPartial(n);
    match phase
    case HashSource(read) =>
      var b := ReadBlock(w.sources[n], |read|, block);
      SetPhase(w, pid, if b == [] then CheckDestination(h(read)) else HashSource(read + b))
    case CheckDestination(d) =>
      SetPhase(w, pid, if seg in tree && Exists(tree[seg]) then CompareDestination(d) else CreatePartial(d))
    case CompareDestination(d) =>
      SetPhase(w, pid,
        if seg in tree && IsSymlink(tree[seg]) then Raised(Collision)
        else if !(seg in tree && tree[seg].File?) then Raised(OsError)
        else if h(tree[seg].data) != d then Raised(Collision)
        else Returned(d))
    case CreatePartial(d) =>
      if part in tree then SetPhase(w, pid, CleanUp(OsError))
      else SetPhase(w.(tree := tree[part := File([])]), pid, Copy(d))
    case Copy(d) =>
      if !(part in tree && tree[part].File?) then SetPhase(w, pid, CleanUp(OsError)) else
      var b := ReadBlock(w.sources[n], |tree[part].data|, block);
      if b == [] then SetPhase(w, pid, HashPartial(d))
      else w.(tree := tree[part := File(tree[part].data + b)])
    case HashPartial(d) =>
      if !(part in tree && tree[part].File?) then SetPhase(w, pid, CleanUp(OsError))
      else SetPhase(w, pid, if h(tree[part].data) == d then Publish(d) else CleanUp(CopyHashMismatch))
    case Publish(d) =>
      if !CanReplace(tree, part, seg) then SetPhase(w, pid, CleanUp(OsError))
      else SetPhase(w.(tree := Replace(tree, part, seg)), pid, CreateSidecar(d))
    case CreateSidecar(d) =>
      if lock in tree then SetPhase(w, pid, CleanUp(OsError))
      else SetPhase(w.(tree := tree[lock := File([])]), pid, WriteSidecar(d))
    case WriteSidecar(d) =>
      SetPhase(w.(tree := tree[lock := File(DigestLine(d))]), pid, PublishSidecar(d))
    case PublishSidecar(d) =>
      if !CanReplace(tree, lock, side) then SetPhase(w, pid, CleanUp(OsError))
      else SetPhase(w.(tree := Replace(tree, lock, side)), pid, Finish(d))
    case Finish(d) => SetPhase(w, pid, Returned(d))
    case CleanUp(e) =>
      if part in tree && tree[part].Directory? then SetPhase(w, pid, Abandoned)
      else SetPhase(w.(tree := tree - {part}), pid, Reraised(e))
    case Returned(_) => w
    case Raised(_) => w
    case Reraised(_) => w
    case Abandoned => w
  }

  // An exception leaves the try block through its handler; before the try block, and in the handler, it
  // just propagates.
  function Faulted(p: Phase): Phase {
    match p
    case HashSource(_) => Raised(OsError)
    case CheckDestination(_) => Raised(OsError)
    case CompareDestination(_) => Raised(OsError)
    case CleanUp(_) => Abandoned
    case Returned(_) => p
    case Raised(_) => p
    case Reraised(_) => p
    case Abandoned => p
    case _ => CleanUp(OsError)
  }

  predicate Enabled(w: World, pid: nat) {
    pid in w.processes && w.processes[pid].name in w.sources
  }

  function Exec(h: Bytes -> Bytes, w: World, a: Action): World {
    match a
    case Spawn(pid, n) =>
      if pid in w.processes || n !in w.sources || !IsWalName(n) then w
      else w.(processes := w.processes[pid := Process(n, HashSource([]))])
    case Advance(pid, block) => if Enabled(w, pid) then Next(h, w, pid, block) else w
    case Fault(pid) => if Enabled(w, pid) then SetPhase(w, pid, Faulted(w.processes[pid].phase)) else w
    case Stop(pid) => w.(processes := w.processes - {pid})
    case ChangeSource(n, data) => if n in w.sources then w.(sources := w.sources[n := data]) else w
    case Tamper(p, node) =>
      if p.CopyPartial? || p.SidecarPartial? then w
      else if node.None? then w.(tree := w.tree - {p})
      else w.(tree := w.tree[p := node.value])
  }

  function Run(h: Bytes -> Bytes, w: World, acts: seq<Action>): World {
    if acts == [] then w else Exec(h, Run(h, w, acts[..|acts| - 1]), acts[|acts| - 1])
  }

  // The archivers' own steps, with nobody changing a source or the published files.
  predicate IsHonest(a: Action) { !a.ChangeSource? && !a.Tamper? }

  predicate Honest(acts: seq<Action>) { forall i | 0 <= i < |acts| :: IsHonest(acts[i]) }

  lemma {:induction false} RunConcat(h: Bytes -> Bytes, w: World, a: seq<Action>, b: seq<Action>)
    ensures Run(h, w, a + b) == Run(h, Run(h, w, a), b)
  {
    if b == [] {
      assert a + b == a;
    } else {
      var m := |b| - 1;
      assert (a + b)[..|a + b| - 1] == a + b[..m];
      RunConcat(h, w, a, b[..m]);
    }
  }

  lemma RunOne(h: Bytes -> Bytes, w: World, a: Action)
    ensures Run(h, w, [a]) == Exec(h, w, a)
  {
    assert [a][..0] == [];
    assert Run(h, w, []) == w;
  }

  // ----- what a restore checks before it copies -----

  /** The archived file is a regular file, its sidecar is readable and names its digest. */
  predicate RestoreChecks(h: Bytes -> Bytes, tree: Tree, n: string) {
    && Segment(n) in tree && tree[Segment(n)].File?
    && SidecarText(tree, n).Some?
    && Strip(SidecarText(tree, n).value) == h(tree[Segment(n)].data)
  }

  // read_text(encoding="ascii") of the sidecar.
  function SidecarText(tree: Tree, n: string): Option<Bytes> {
    if Sidecar(n) in tree && IsFile(tree[Sidecar(n)]) && IsAscii(Resolve(tree[Sidecar(n)]).data)
    then Some(Resolve(tree[Sidecar(n)]).data)
    else None
  }
}
