/** restore_wal_segment as code: it reads the archive root while archivers and the environment go on
    changing it, and delivers into a directory outside it. */
module WalRestore {
  import opened Options
  import opened ByteStrings
  import opened WalNames
  import opened WalProtocol
  import opened WalSafety
  import opened WalHost

  datatype TargetPath = Delivered(name: string) | DeliveryPartial(name: string, pid: nat)

  type Target = map<TargetPath, Node>

  datatype RestoreError =
    | TargetInvalid | SegmentMissing | Undecodable | DigestMismatch | DestinationUnsafe
    | RestoreCopyHashMismatch | RestoreOsError

  datatype Restored = Success(digest: Bytes) | Failure(error: RestoreError)

  // How far a call has got: refused before the try block; ended by its handler, which removed the partial,
  // or could not; or past the rename to the destination.
  datatype Stage = Refused | CleanedUp | LeftBehind | Published

  predicate IsAcceptedTarget(n: string, dest: string) {
    dest == n || dest == "RECOVERYXLOG" || dest == "RECOVERYHISTORY"
  }

  predicate Occupied(target: Target, dest: string) {
    Delivered(dest) in target && Exists(target[Delivered(dest)])
  }

  // The sidecar, as it stands in this tree, names digest d.
  ghost predicate SidecarNames(tree: Tree, n: string, d: Bytes) {
    SidecarText(tree, n).Some? && Strip(SidecarText(tree, n).value) == d
  }

  // ----- what an undisturbed restore call does -----

  function CheckedArchive(h: Bytes -> Bytes, tree: Tree, n: string): Restored {
    if !(Segment(n) in tree && tree[Segment(n)].File? && Sidecar(n) in tree && IsFile(tree[Sidecar(n)]))
    then Failure(SegmentMissing)
    else if SidecarText(tree, n).None? then Failure(Undecodable)
    else if Strip(SidecarText(tree, n).value) != h(tree[Segment(n)].data) then Failure(DigestMismatch)
    else Success(h(tree[Segment(n)].data))
  }

  function SequentialRestore(h: Bytes -> Bytes, tree: Tree, target: Target, parentIsSymlink: bool,
                             n: string, dest: string, pid: nat): Restored {
    if !IsWalName(n) || !IsAcceptedTarget(n, dest) then Failure(TargetInvalid)
    else
      var checked := CheckedArchive(h, tree, n);
      if checked.Failure? then checked
      else if Occupied(target, dest) || parentIsSymlink then Failure(DestinationUnsafe)
      else if DeliveryPartial(dest, pid) in target then Failure(RestoreOsError)
      else checked
  }

  /** When an undisturbed restore succeeds, and for what each of its errors stands. */
  lemma SequentialRestoreIff(h: Bytes -> Bytes, tree: Tree, target: Target, parentIsSymlink: bool,
                             n: string, dest: string, pid: nat)
    ensures var r := SequentialRestore(h, tree, target, parentIsSymlink, n, dest, pid);
            var named := IsWalName(n) && dest in {n, "RECOVERYXLOG", "RECOVERYHISTORY"};
            var seg, side := Segment(n), Sidecar(n);
            var present := seg in tree && !IsSymlink(tree[seg]) && IsFile(tree[seg])
                           && side in tree && IsFile(tree[side]);
            var free := !(Delivered(dest) in target && Exists(target[Delivered(dest)])) && !parentIsSymlink;
            && (r.Success? <==>
                  named && RestoreChecks(h, tree, n) && free && DeliveryPartial(dest, pid) !in target)
            && (r.Success? ==> r.digest == h(tree[seg].data))
            && (r == Failure(TargetInvalid) <==> !named)
            && (r == Failure(SegmentMissing) <==> named && !present)
            && (r == Failure(Undecodable) <==> named && present && !IsAscii(Resolve(tree[side]).data))
            && (r == Failure(DigestMismatch) <==>
                  && named && present && IsAscii(Resolve(tree[side]).data)
                  && Strip(Resolve(tree[side]).data) != h(tree[seg].data))
            && (r == Failure(DestinationUnsafe) <==> named && RestoreChecks(h, tree, n) && !free)
  {
  }

  /** After an archive call that has returned success, an undisturbed restore of that segment to a
      fresh destination succeeds if and only if the destination of the archive call was absent before
      it, or was already restorable; and it then returns the same digest. */
  lemma ArchivedRestoresIff(h: Bytes -> Bytes, tree: Tree, source: Bytes, n: string, pid: nat,
                            target: Target, dest: string)
    requires HexValued(h) && IsWalName(n) && IsAcceptedTarget(n, dest)
    requires SequentialArchive(h, tree, source, n, pid).0.Ok?
    requires !Occupied(target, dest) && DeliveryPartial(dest, pid) !in target
    ensures var (archived, tree') := SequentialArchive(h, tree, source, n, pid);
            var r := SequentialRestore(h, tree', target, false, n, dest, pid);
            && (r.Success? <==> !(Segment(n) in tree && Exists(tree[Segment(n)])) || RestoreChecks(h, tree, n))
            && (r.Success? ==> r.digest == archived.digest)
  {
    SuccessRestorableIff(h, tree, source, n, pid);
    StripDigestLine(h(source));
  }

  // From version `from` on, version k is the first that differs from `t` at more than `part`, and the last change.
  ghost predicate PublishedAt(versions: seq<Target>, from: nat, k: nat, t: Target, final: Target, part: TargetPath) {
    && from <= k < |versions|
    && (forall i | from <= i < k :: versions[i] - {part} == t - {part})
    && (forall i | k <= i < |versions| :: versions[i] == final)
  }

  // A destination that was free is not any more.
  lemma DeliveredDiffers(t: Target, final: Target, dest: string, part: TargetPath)
    requires !Occupied(t, dest) && part.DeliveryPartial?
    requires Delivered(dest) in final && final[Delivered(dest)].File?
    ensures final - {part} != t - {part}
  {
    assert Delivered(dest) in final - {part} && (final - {part})[Delivered(dest)].File?;
  }

  class Restorer {
    const host: Host
    const parentIsSymlink: bool
    // An interrupt is on its way that arrives when the rename to the destination has returned.
    const lateInterrupt: bool
    var target: Target
    // The target directory after each change made to it.
    ghost var history: seq<Target>

    constructor (host: Host, parentIsSymlink: bool, lateInterrupt: bool, target: Target)
      ensures this.host == host && this.parentIsSymlink == parentIsSymlink && this.lateInterrupt == lateInterrupt
      ensures this.target == target && history == []
    {
      this.host, this.parentIsSymlink, this.lateInterrupt := host, parentIsSymlink, lateInterrupt;
      this.target := target;
      history := [];
    }

    // Others run, and the next call may raise.
    method Pause() returns (raised: bool)
      requires host.Valid()
      modifies host`tree, host`sources, host`processes, host`trace
      ensures host.Valid() && old(host.trace) <= host.trace
      ensures host.environment.Quiet? ==> !raised && host.State() == old(host.State()) && host.trace == old(host.trace)
    {
      host.InterfereFreely();
      raised := *;
      if host.environment.Quiet? {
        raised := false;
      }
    }

    method Change(target': Target)
      modifies this
      ensures target == target' && history == old(history) + [target']
    {
      target := target';
      history := history + [target'];
    }

    // restore_postgres_wal.py:19-20: the two files are there.
    method CheckPresence(n: string) returns (r: Option<RestoreError>)
      requires host.Valid()
      modifies host`tree, host`sources, host`processes, host`trace
      ensures host.Valid() && old(host.trace) <= host.trace
      ensures host.environment.Quiet? ==> host.State() == old(host.State()) && host.trace == old(host.trace)
      ensures r.Some? ==> r.value.RestoreOsError? || r.value.SegmentMissing?
      ensures host.environment.Quiet? ==>
                r == if Segment(n) in host.tree && host.tree[Segment(n)].File?
                        && Sidecar(n) in host.tree && IsFile(host.tree[Sidecar(n)])
                     then None else Some(SegmentMissing)
    {
      var raised := Pause();
      if raised {
        return Some(RestoreOsError);
      }
      if !(Segment(n) in host.tree && host.tree[Segment(n)].File?) {
        return Some(SegmentMissing);
      }
      raised := Pause();
      if raised {
        return Some(RestoreOsError);
      }
      r := if Sidecar(n) in host.tree && IsFile(host.tree[Sidecar(n)]) then None else Some(SegmentMissing);
    }

    // Some tree of the run, from position `from` on, had a sidecar naming digest d.
    ghost predicate Named(n: string, d: Bytes, from: nat)
      reads host
    {
      exists i :: from <= i <= |host.trace|
                  && SidecarNames(Run(host.h, host.origin, host.trace[..i]).tree, n, d)
    }

    // digest_path.read_text(encoding="ascii").strip().
    method ReadExpected(n: string) returns (r: Restored)
      requires host.Valid()
      modifies host`tree, host`sources, host`processes, host`trace
      ensures host.Valid() && old(host.trace) <= host.trace
      ensures host.environment.Quiet? ==> host.State() == old(host.State()) && host.trace == old(host.trace)
      ensures r.Success? ==> Named(n, r.digest, |old(host.trace)|)
      ensures r.Failure? ==> r.error.RestoreOsError? || r.error.Undecodable?
      ensures host.environment.Quiet? && Sidecar(n) in host.tree && IsFile(host.tree[Sidecar(n)]) ==>
                r == if SidecarText(host.tree, n).None? then Failure(Undecodable)
                     else Success(Strip(SidecarText(host.tree, n).value))
    {
      var raised := Pause();
      if raised || !(Sidecar(n) in host.tree && IsFile(host.tree[Sidecar(n)])) {
        return Failure(RestoreOsError);
      }
      var text := SidecarText(host.tree, n);
      if text.None? {
        return Failure(Undecodable);
      }
      assert host.trace[..|host.trace|] == host.trace;
      assert SidecarNames(Run(host.h, host.origin, host.trace[..|host.trace|]).tree, n, Strip(text.value));
      r := Success(Strip(text.value));
    }

    // What a file open for reading gives: the content of the archived file as it is by then.
    method OpenSegment(n: string) returns (r: Option<Bytes>)
      requires host.Valid()
      modifies host`tree, host`sources, host`processes, host`trace
      ensures host.Valid() && old(host.trace) <= host.trace
      ensures host.environment.Quiet? ==> host.State() == old(host.State()) && host.trace == old(host.trace)
      ensures host.environment.Quiet? && Segment(n) in host.tree && host.tree[Segment(n)].File? ==>
                r == Some(host.tree[Segment(n)].data)
      ensures r.Some? ==> Segment(n) in host.tree && Resolve(host.tree[Segment(n)]) == File(r.value)
    {
      var raised := Pause();
      if raised || !(Segment(n) in host.tree && IsFile(host.tree[Segment(n)])) {
        return None;
      }
      r := Some(Resolve(host.tree[Segment(n)]).data);
    }

    // restore_postgres_wal.py:17-24: the archived segment and its sidecar, checked against each other.
    method CheckArchive(n: string) returns (r: Restored)
      requires host.Valid()
      modifies host`tree, host`sources, host`processes, host`trace
      ensures host.Valid() && old(host.trace) <= host.trace
      ensures host.environment.Quiet? ==> host.State() == old(host.State()) && host.trace == old(host.trace)
      ensures r.Success? ==> Named(n, r.digest, |old(host.trace)|)
      ensures r.Failure? ==> !r.error.TargetInvalid? && !r.error.DestinationUnsafe?
      ensures host.environment.Quiet? ==> r == CheckedArchive(host.h, host.tree, n)
    {
      var missing := CheckPresence(n);
      if missing.Some? {
        return Failure(missing.value);
      }
      r := ReadExpected(n);
      if r.Failure? {
        return;
      }
      ghost var trace0 := host.trace;
      var content := OpenSegment(n);
      NamedLater(n, r.digest, |old(host.trace)|, trace0);
      if content.None? {
        return Failure(RestoreOsError);
      }
      var actual := host.HashFile(content.value);
      if r.digest != actual {
        r := Failure(DigestMismatch);
      }
    }

    lemma NamedLater(n: string, d: Bytes, from: nat, trace0: seq<Action>)
      requires trace0 <= host.trace
      requires exists i :: from <= i <= |trace0| && SidecarNames(Run(host.h, host.origin, trace0[..i]).tree, n, d)
      ensures Named(n, d, from)
    {
      var i :| from <= i <= |trace0| && SidecarNames(Run(host.h, host.origin, trace0[..i]).tree, n, d);
      assert trace0[..i] == host.trace[..i];
    }

    // While only archivers write the archive, the archived file is the segment whenever it is looked at.
    ghost predicate Archived(n: string)
      reads host
    {
      !host.environment.Hostile? && Good(host.h, host.origin) && n in host.origin.sources
    }

    lemma ArchivedContent(n: string)
      requires host.Valid() && Archived(n) && Segment(n) in host.tree
      ensures host.tree[Segment(n)] == File(host.origin.sources[n])
    {
      GoodRun(host.h, host.origin, host.trace);
    }

    // Every version of the target since `from` differs from `t` at `part` alone.
    ghost predicate Untouched(t: Target, from: nat, part: TargetPath)
      reads this
    {
      && target - {part} == t - {part}
      && from <= |history|
      && forall i | from <= i < |history| :: history[i] - {part} == t - {part}
    }

    // shutil.copyfileobj into the partial: the archived file may change before every read.
    method CopyLoop(n: string, part: TargetPath, content: Bytes) returns (r: Option<Bytes>)
      requires host.Valid() && part in target && target[part] == File([])
      requires host.environment.Quiet? ==>
                 Segment(n) in host.tree && host.tree[Segment(n)] == File(content)
      requires Archived(n) ==> content == host.origin.sources[n]
      modifies host`tree, host`sources, host`processes, host`trace, this
      ensures host.Valid() && old(host.trace) <= host.trace
      ensures host.environment.Quiet? ==> host.State() == old(host.State())
      ensures old(history) <= history && Untouched(old(target), |old(history)|, part)
      ensures r.Some? ==> part in target && target[part] == File(r.value)
      ensures host.environment.Quiet? ==> r == Some(content)
      ensures Archived(n) && r.Some? ==> r.value == host.origin.sources[n]
    {
      var data, written := content, [];
      var fuel: nat := *;
      while true
        invariant host.Valid() && old(host.trace) <= host.trace && host.origin == old(host.origin)
        invariant host.environment.Quiet? ==> host.State() == old(host.State()) && data == content
        invariant Archived(n) ==> data == host.origin.sources[n]
        invariant host.environment.Quiet? || Archived(n) ==> written <= data
        invariant old(history) <= history && Untouched(old(target), |old(history)|, part)
        invariant part in target && target[part] == File(written)
        decreases if host.environment.Quiet? then |data| - |written| else fuel
      {
        var raised := Pause();
        if raised || (!host.environment.Quiet? && fuel == 0) {
          return None;
        }
        fuel := if fuel == 0 then 0 else fuel - 1;
        if Segment(n) in host.tree && host.tree[Segment(n)].File? {
          if Archived(n) {
            ArchivedContent(n);
          }
          data := host.tree[Segment(n)].data;
        }
        var block: BlockSize := *;
        var b := ReadBlock(data, |written|, block);
        if host.environment.Quiet? || Archived(n) {
          ReadBlockExtends(data, written, block);
        }
        if b == [] {
          return Some(written);
        }
        written := written + b;
        Change(target[part := File(written)]);
      }
    }

    // partial.open("xb").
    method CreatePartialFile(part: TargetPath) returns (ok: bool)
      requires host.Valid()
      modifies host`tree, host`sources, host`processes, host`trace, this
      ensures host.Valid() && old(host.trace) <= host.trace
      ensures host.environment.Quiet? ==> host.State() == old(host.State())
      ensures old(history) <= history && Untouched(old(target), |old(history)|, part)
      ensures ok ==> part !in old(target) && part in target && target[part] == File([])
      ensures host.environment.Quiet? ==> (ok <==> part !in old(target))
      ensures !ok ==> target == old(target)
    {
      var raised := Pause();
      ok := !raised && part !in target;
      if ok {
        Change(target[part := File([])]);
      }
    }

    // restore_postgres_wal.py:29-35: exclusive create, copy, hash the copy.
    method FillPartial(n: string, part: TargetPath, actual: Bytes) returns (r: Option<RestoreError>)
      requires host.Valid()
      requires host.environment.Quiet? ==>
                 Segment(n) in host.tree && host.tree[Segment(n)].File? && host.h(host.tree[Segment(n)].data) == actual
      modifies host`tree, host`sources, host`processes, host`trace, this
      ensures host.Valid() && old(host.trace) <= host.trace
      ensures host.environment.Quiet? ==> host.State() == old(host.State())
      ensures old(history) <= history && Untouched(old(target), |old(history)|, part)
      ensures r.None? ==>
                && part !in old(target) && part in target && target[part].File?
                && host.h(target[part].data) == actual
                && (Archived(n) ==> target[part] == File(host.origin.sources[n]))
      ensures host.environment.Quiet? ==>
                && r == (if part in old(target) then Some(RestoreOsError) else None)
                && (r.Some? ==> target == old(target))
                && (r.None? ==> target[part] == host.tree[Segment(n)])
    {
      var content := OpenSegment(n);
      if content.None? {
        return Some(RestoreOsError);
      }
      if Archived(n) {
        ArchivedContent(n);
      }
      var created := CreatePartialFile(part);
      if !created {
        return Some(RestoreOsError);
      }
      var copied := CopyLoop(n, part, content.value);
      if copied.None? {
        return Some(RestoreOsError);
      }
      r := CheckCopy(copied.value, actual);
    }

    // _sha256(partial) != actual.
    method CheckCopy(copied: Bytes, actual: Bytes) returns (r: Option<RestoreError>)
      ensures host.h(copied) == actual ==> r == None
      ensures host.h(copied) != actual ==> r == Some(RestoreCopyHashMismatch)
    {
      var digest := host.HashFile(copied);
      r := if digest == actual then None else Some(RestoreCopyHashMismatch);
    }

    // From version `from` on, the target `t` changed at `part` alone; or it did so until one step put the
    // destination there for good.
    ghost predicate CameOut(t: Target, from: nat, dest: string, part: TargetPath, published: bool)
      reads this
    {
      if !published then Untouched(t, from, part)
      else
        && part !in t && Delivered(dest) in target && target[Delivered(dest)].File?
        && target == t[Delivered(dest) := target[Delivered(dest)]]
        && exists k :: PublishedAt(history, from, k, t, target, part)
    }

    // partial.unlink(missing_ok=True).
    method CleanUp(part: TargetPath) returns (cleaned: bool)
      requires host.Valid()
      modifies host`tree, host`sources, host`processes, host`trace, this
      ensures host.Valid() && old(host.trace) <= host.trace
      ensures host.environment.Quiet? ==> host.State() == old(host.State())
      ensures target == if cleaned then old(target) - {part} else old(target)
      ensures history == if cleaned then old(history) + [target] else old(history)
      ensures host.environment.Quiet? ==> (cleaned <==> !(part in old(target) && old(target)[part].Directory?))
    {
      var raised := Pause();
      cleaned := !raised && !(part in target && target[part].Directory?);
      if cleaned {
        Change(target - {part});
      }
    }

    // The handler of an exception raised before the rename.
    method HandleEarly(part: TargetPath, error: RestoreError) returns (r: Restored, ghost stage: Stage)
      requires host.Valid()
      modifies host`tree, host`sources, host`processes, host`trace, this
      ensures host.Valid() && old(host.trace) <= host.trace
      ensures host.environment.Quiet? ==> host.State() == old(host.State())
      ensures old(history) <= history
      ensures stage.CleanedUp? || stage.LeftBehind?
      ensures r == Failure(if stage.CleanedUp? then error else RestoreOsError)
      ensures target == if stage.CleanedUp? then old(target) - {part} else old(target)
      ensures history == if stage.CleanedUp? then old(history) + [target] else old(history)
      ensures host.environment.Quiet? ==>
                (stage.LeftBehind? <==> part in old(target) && old(target)[part].Directory?)
    {
      var cleaned := CleanUp(part);
      r := Failure(if cleaned then error else RestoreOsError);
      stage := if cleaned then CleanedUp else LeftBehind;
    }

    // os.replace(partial, destination) and return actual. An exception raised after the rename still runs
    // the handler, which finds no partial.
    method Publish(n: string, dest: string, part: TargetPath, actual: Bytes) returns (r: Restored)
      requires host.Valid() && part.DeliveryPartial? && part in target
      modifies host`tree, host`sources, host`processes, host`trace, this
      ensures host.Valid() && old(host.trace) <= host.trace
      ensures host.environment.Quiet? ==> host.State() == old(host.State())
      ensures old(history) <= history && |old(history)| < |history|
      ensures target == (old(target) - {part})[Delivered(dest) := old(target)[part]]
      ensures forall i | |old(history)| <= i < |history| :: history[i] == target
      ensures r == Success(actual) || r == Failure(RestoreOsError)
      ensures host.environment.Quiet? ==> r == if lateInterrupt then Failure(RestoreOsError) else Success(actual)
    {
      Change((target - {part})[Delivered(dest) := target[part]]);
      ghost var published := target;
      r := Success(actual);
      var raised := Pause();
      if raised || lateInterrupt {
        assert published - {part} == published;
        var cleaned := CleanUp(part);
        r := Failure(RestoreOsError);
      }
    }

    // restore_postgres_wal.py:28-40: the try block and its handler.
    method Deliver(n: string, dest: string, part: TargetPath, actual: Bytes) returns (r: Restored, ghost stage: Stage)
      requires host.Valid() && part.DeliveryPartial?
      requires host.environment.Quiet? ==>
                 Segment(n) in host.tree && host.tree[Segment(n)].File? && host.h(host.tree[Segment(n)].data) == actual
      modifies host`tree, host`sources, host`processes, host`trace, this
      ensures host.Valid() && old(host.trace) <= host.trace
      ensures host.environment.Quiet? ==> host.State() == old(host.State())
      ensures old(history) <= history && !stage.Refused?
      ensures CameOut(old(target), |old(history)|, dest, part, stage.Published?)
      ensures stage.CleanedUp? ==> r.Failure? && part !in target
      ensures stage.LeftBehind? ==> r == Failure(RestoreOsError)
      ensures stage.Published? ==>
                && (r == Success(actual) || r == Failure(RestoreOsError))
                && host.h(target[Delivered(dest)].data) == actual
                && (Archived(n) ==> target[Delivered(dest)] == File(host.origin.sources[n]))
      ensures host.environment.Quiet? ==>
                && (stage.Published? <==> part !in old(target))
                && (stage.Published? ==>
                      && r == (if lateInterrupt then Failure(RestoreOsError) else Success(actual))
                      && target[Delivered(dest)] == host.tree[Segment(n)])
                && (!stage.Published? ==>
                      && r == Failure(RestoreOsError)
                      && (stage.LeftBehind? <==> old(target)[part].Directory?))
    {
      var failed := FillPartial(n, part, actual);
      var raised := Pause();
      if failed.Some? || raised {
        r, stage := HandleEarly(part, if failed.Some? then failed.value else RestoreOsError);
        return;
      }
      ghost var k := |history|;
      r := Publish(n, dest, part, actual);
      stage := Published;
      assert PublishedAt(history, |old(history)|, k, old(target), target, part);
    }

    // restore_postgres_wal.py:14-26: everything checked before the try block.
    method Check(n: string, dest: string) returns (r: Restored)
      requires host.Valid()
      modifies host`tree, host`sources, host`processes, host`trace
      ensures host.Valid() && old(host.trace) <= host.trace
      ensures host.environment.Quiet? ==> host.State() == old(host.State())
      ensures r == Failure(TargetInvalid) <==> !IsWalName(n) || dest !in {n, "RECOVERYXLOG", "RECOVERYHISTORY"}
      ensures r.Success? ==>
                && IsWalName(n) && dest in {n, "RECOVERYXLOG", "RECOVERYHISTORY"}
                && Named(n, r.digest, |old(host.trace)|) && !Occupied(target, dest)
      ensures host.environment.Quiet? ==>
                r == if !IsWalName(n) || !IsAcceptedTarget(n, dest) then Failure(TargetInvalid)
                     else if CheckedArchive(host.h, host.tree, n).Success?
                             && (Occupied(target, dest) || parentIsSymlink)
                     then Failure(DestinationUnsafe)
                     else CheckedArchive(host.h, host.tree, n)
    {
      if !IsWalName(n) || !IsAcceptedTarget(n, dest) {
        return Failure(TargetInvalid);
      }
      r := CheckArchive(n);
      if r.Failure? {
        return;
      }
      ghost var trace0 := host.trace;
      var raised := Pause();
      NamedLater(n, r.digest, |old(host.trace)|, trace0);
      if raised {
        return Failure(RestoreOsError);
      }
      if Occupied(target, dest) || parentIsSymlink {
        r := Failure(DestinationUnsafe);
      }
    }

    /** restore_wal_segment. Whatever happens to the archive meanwhile: the target directory changes in
        nothing but this call's own partial, until one step publishes a destination whose hash is the
        digest some sidecar of the archive named, and after which nothing changes. A call that fails has
        left the directory as it was, less its partial, if and only if it failed before that step: an
        exception that arrives behind the rename fails the call with the destination delivered. While only
        archivers write the archive, what is delivered is the segment's bytes; undisturbed, the call ends
        as SequentialRestore says, but for an interrupt behind the rename. */
    method RestoreWalSegment(n: string, dest: string, pid: nat) returns (r: Restored, ghost stage: Stage)
      requires host.Valid()
      modifies host`tree, host`sources, host`processes, host`trace, this
      ensures host.Valid() && old(host.trace) <= host.trace
      ensures host.environment.Quiet? ==> host.State() == old(host.State())
      ensures old(history) <= history
      ensures var part := DeliveryPartial(dest, pid);
              && CameOut(old(target), |old(history)|, dest, part, stage.Published?)
              && (stage.Published? <==> target - {part} != old(target) - {part})
              && (r.Success? ==> stage.Published?)
              && (stage.Refused? ==> target == old(target) && history == old(history))
              && (stage.CleanedUp? ==> target == old(target) - {part})
              && (!IsWalName(n) || dest !in {n, "RECOVERYXLOG", "RECOVERYHISTORY"} ==>
                    r == Failure(TargetInvalid) && stage.Refused?)
              && (stage.LeftBehind? ==> r == Failure(RestoreOsError))
      ensures stage.Published? ==>
                && IsWalName(n) && dest in {n, "RECOVERYXLOG", "RECOVERYHISTORY"} && !Occupied(old(target), dest)
                && Named(n, host.h(target[Delivered(dest)].data), |old(host.trace)|)
                && (r.Success? ==> r.digest == host.h(target[Delivered(dest)].data))
                && (r.Failure? ==> r.error == RestoreOsError)
                && (Archived(n) ==> target[Delivered(dest)] == File(host.origin.sources[n]))
      ensures host.environment.Quiet? ==>
                var expected := SequentialRestore(host.h, host.tree, old(target), parentIsSymlink, n, dest, pid);
                && (stage.Published? <==> expected.Success?)
                && (stage.Refused? <==> expected.Failure? && expected.error != RestoreOsError)
                && r == (if expected.Success? && lateInterrupt then Failure(RestoreOsError) else expected)
                && (stage.Published? ==> target[Delivered(dest)] == host.tree[Segment(n)])
    {
      r := Check(n, dest);
      stage := Refused;
      if r.Success? {
        ghost var trace0 := host.trace;
        var d := r.digest;
        r, stage := Deliver(n, dest, DeliveryPartial(dest, pid), d);
        NamedLater(n, d, |old(host.trace)|, trace0);
        if stage.Published? {
          DeliveredDiffers(old(target), target, dest, DeliveryPartial(dest, pid));
        }
      }
    }
  }

  lemma FreshArchiveRestores(h: Bytes -> Bytes, tree: Tree, source: Bytes, n: string, pid: nat, target: Target,
                             dest: string)
    requires HexValued(h) && IsWalName(n) && IsAcceptedTarget(n, dest)
    requires !Occupied(target, dest) && DeliveryPartial(dest, pid) !in target
    requires forall p | p in tree :: p.name != n
    ensures var tree' := tree[Segment(n) := File(source)][Sidecar(n) := File(DigestLine(h(source)))];
            && SequentialArchive(h, tree, source, n, pid) == (Ok(h(source)), tree')
            && SequentialRestore(h, tree', target, false, n, dest, pid) == Success(h(source))
  {
    StripDigestLine(h(source));
  }

  /** Undisturbed, archiving a segment into a root free of its files and restoring it to a fresh
      destination succeeds, both return the same digest, and the delivered bytes are the source's. */
  method ArchiveThenRestore(host: Host, restorer: Restorer, n: string, dest: string, pid: nat)
    returns (archived: Outcome, restored: Restored)
    requires host.Valid() && host.environment.Quiet? && HexValued(host.h)
    requires restorer.host == host && !restorer.lateInterrupt
    requires IsWalName(n) && n in host.sources && !host.rootIsSymlink && pid !in host.processes
    requires IsAcceptedTarget(n, dest) && !Occupied(restorer.target, dest) && !restorer.parentIsSymlink
    requires DeliveryPartial(dest, pid) !in restorer.target
    requires forall p | p in host.tree :: p.name != n
    modifies host, restorer
    ensures archived == Ok(host.h(old(host.sources)[n]))
    ensures restored == Success(archived.digest)
    ensures restorer.target == old(restorer.target)[Delivered(dest) := File(old(host.sources)[n])]
    ensures host.tree == old(host.tree)[Segment(n) := File(old(host.sources)[n])]
                                       [Sidecar(n) := File(DigestLine(archived.digest))]
  {
    FreshArchiveRestores(host.h, host.tree, host.sources[n], n, pid, restorer.target, dest);
    archived := host.ArchiveWalSegment(n, n, pid);
    ghost var stage;
    restored, stage := restorer.RestoreWalSegment(n, dest, pid);
  }

  /** With an interrupt behind the rename and nothing else amiss, a restore of a restorable segment to a
      fresh destination fails and has delivered the segment; and a retry, by any process, is refused
      because of that destination. */
  method InterruptedRestoreDelivers(restorer: Restorer, n: string, dest: string, pid: nat, again: nat)
    returns (first: Restored, second: Restored)
    requires restorer.host.Valid() && restorer.host.environment.Quiet? && restorer.lateInterrupt
    requires SequentialRestore(restorer.host.h, restorer.host.tree, restorer.target, restorer.parentIsSymlink,
                               n, dest, pid).Success?
    modifies restorer.host, restorer
    ensures first == Failure(RestoreOsError) && second == Failure(DestinationUnsafe)
    ensures restorer.target == old(restorer.target)[Delivered(dest) := old(restorer.host.tree)[Segment(n)]]
  {
    ghost var stage;
    first, stage := restorer.RestoreWalSegment(n, dest, pid);
    second, stage := restorer.RestoreWalSegment(n, dest, again);
  }
}
