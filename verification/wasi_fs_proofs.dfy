/** Properties of the compositor stated against independent reference
    definitions: the descriptions resolved one by one (`Resolutions`), the
    non-null handles among them in order (`Present`), and the descriptors an
    allocator hands out when asked repeatedly (`HandedOut`). */
module WasiFsProofs {
  import opened Wrappers
  import opened Memfs
  import opened WasiFs

  /** Each description resolved on its own, in input order. */
  function Resolutions(specs: seq<Spec>, env: Env): (rs: seq<Resolved>)
    ensures |rs| == |specs|
  {
    seq(|specs|, i requires 0 <= i < |specs| => SpecToFs(specs[i], env))
  }

  /** The handles of `rs` with the `null` results removed, order kept. */
  function Present(rs: seq<Resolved>): seq<Instance> {
    if rs == [] then []
    else (if rs[0].Fs? then [rs[0].instance] else []) + Present(rs[1..])
  }

  ghost predicate NoError(rs: seq<Resolved>) {
    forall i :: 0 <= i < |rs| ==> !rs[i].Error?
  }

  /** `rs[k]` is the first throw in `rs`. */
  ghost predicate FirstErrorAt(rs: seq<Resolved>, k: int) {
    0 <= k < |rs| && rs[k].Error? && forall i :: 0 <= i < k ==> !rs[i].Error?
  }

  /** `specs[k]` is the first archive reference in `specs`. */
  ghost predicate FirstArchiveRefAt(specs: seq<Spec>, k: int) {
    0 <= k < |specs| && IsArchiveRef(specs[k]) && forall i :: 0 <= i < k ==> !IsArchiveRef(specs[i])
  }

  lemma ResolutionsTail(specs: seq<Spec>, env: Env)
    requires |specs| > 0
    ensures Resolutions(specs, env)[0] == SpecToFs(specs[0], env)
    ensures Resolutions(specs[1..], env) == Resolutions(specs, env)[1..]
  {
  }

  /** The union after one description's result has been `use`d. */
  function Next(ufs: Instance, r: Resolved): Instance
    requires ufs.Union?
  {
    if r.Fs? then Use(ufs, r.instance) else ufs
  }

  lemma UseEachStep(ufs: Instance, specs: seq<Spec>, env: Env)
    requires ufs.Union? && specs != []
    requires !SpecToFs(specs[0], env).Error?
    ensures UseEach(ufs, specs, env) == UseEach(Next(ufs, SpecToFs(specs[0], env)), specs[1..], env)
  {
  }

  /** When nothing throws, the loop appends exactly the non-null handles, in
      input order, after the layers the union already had. */
  lemma {:induction false} UseEachLayers(ufs: Instance, specs: seq<Spec>, env: Env)
    requires ufs.Union?
    requires NoError(Resolutions(specs, env))
    ensures UseEach(ufs, specs, env) == Fs(ufs.(layers := ufs.layers + Present(Resolutions(specs, env))))
    decreases |specs|
  {
    if specs == [] {
      assert ufs.layers + [] == ufs.layers;
    } else {
      var rs := Resolutions(specs, env);
      ResolutionsTail(specs, env);
      assert !rs[0].Error?;
      assert NoError(Resolutions(specs[1..], env)) by {
        forall i | 0 <= i < |specs[1..]|
          ensures !Resolutions(specs[1..], env)[i].Error?
        {
          assert Resolutions(specs[1..], env)[i] == rs[i + 1];
        }
      }
      UseEachStep(ufs, specs, env);
      var ufs' := Next(ufs, rs[0]);
      UseEachLayers(ufs', specs[1..], env);
      if rs[0].Fs? {
        assert ufs.layers + [rs[0].instance] + Present(rs[1..]) == ufs.layers + ([rs[0].instance] + Present(rs[1..]));
      }
    }
  }

  /** The loop stops at the first throw and propagates it unchanged. */
  lemma {:induction false} UseEachAborts(ufs: Instance, specs: seq<Spec>, env: Env, k: int)
    requires ufs.Union?
    requires FirstErrorAt(Resolutions(specs, env), k)
    ensures UseEach(ufs, specs, env) == Resolutions(specs, env)[k]
    decreases |specs|
  {
    var rs := Resolutions(specs, env);
    ResolutionsTail(specs, env);
    if k > 0 {
      assert !rs[0].Error?;
      assert FirstErrorAt(Resolutions(specs[1..], env), k - 1) by {
        forall i | 0 <= i < k - 1
          ensures !Resolutions(specs[1..], env)[i].Error?
        {
          assert Resolutions(specs[1..], env)[i] == rs[i + 1];
        }
        assert Resolutions(specs[1..], env)[k - 1] == rs[k];
      }
      UseEachStep(ufs, specs, env);
      UseEachAborts(Next(ufs, rs[0]), specs[1..], env, k - 1);
    }
  }

  /** Two or more descriptions, none throwing: the union's layers are the
      resolved handles in input order with the nulls removed, and the union
      carries the volume library's constants. */
  lemma ManySpecsLayers(specs: seq<Spec>, env: Env)
    requires |specs| >= 2
    requires NoError(Resolutions(specs, env))
    ensures CreateFileSystem(specs, env) == Fs(Union(Present(Resolutions(specs, env)), Some(MemfsConstants)))
  {
    UseEachLayers(Union([], Some(MemfsConstants)), specs, env);
  }

  /** Any throw aborts the whole composition with the first throw's error;
      no partial union is returned. */
  lemma FirstErrorAborts(specs: seq<Spec>, env: Env, k: int)
    requires FirstErrorAt(Resolutions(specs, env), k)
    ensures CreateFileSystem(specs, env) == Resolutions(specs, env)[k]
  {
    if |specs| >= 2 {
      UseEachAborts(Union([], Some(MemfsConstants)), specs, env, k);
    }
  }

  /** Under the allocator assumption, and when every archive and seed before
      it is accepted, the first archive reference aborts the composition with
      the error naming it. */
  lemma ArchiveRefAborts(specs: seq<Spec>, env: Env, k: int)
    requires PopsFromEnd(env.newFd)
    requires FirstArchiveRefAt(specs, k)
    requires forall i :: 0 <= i < k ==> LibraryAccepts(specs[i], env)
    ensures CreateFileSystem(specs, env) == Error(RefError(specs[k]))
  {
    var rs := Resolutions(specs, env);
    assert FirstErrorAt(rs, k) by {
      forall i | 0 <= i < k
        ensures !rs[i].Error?
      {
        assert rs[i] == SpecToFs(specs[i], env);
      }
      assert rs[k] == SpecToFs(specs[k], env);
    }
    FirstErrorAborts(specs, env, k);
  }

  /** Under the allocator assumption, a list without archive references
      whose archives and seeds are all accepted never throws. */
  lemma NoArchiveRefNoError(specs: seq<Spec>, env: Env)
    requires PopsFromEnd(env.newFd)
    requires forall i :: 0 <= i < |specs| ==> !IsArchiveRef(specs[i]) && LibraryAccepts(specs[i], env)
    ensures !CreateFileSystem(specs, env).Error?
  {
    var rs := Resolutions(specs, env);
    assert NoError(rs) by {
      forall i | 0 <= i < |rs|
        ensures !rs[i].Error?
      {
        assert rs[i] == SpecToFs(specs[i], env);
      }
    }
    if |specs| >= 2 {
      ManySpecsLayers(specs, env);
    }
  }

  lemma {:induction false} PresentOfNulls(rs: seq<Resolved>)
    requires forall i :: 0 <= i < |rs| ==> rs[i].Null?
    ensures Present(rs) == []
  {
    if rs != [] {
      PresentOfNulls(rs[1..]);
    }
  }

  /** Two or more descriptions that all resolve to null give an empty union,
      not an error. */
  lemma AllNullGivesEmptyUnion(specs: seq<Spec>, env: Env)
    requires |specs| >= 2
    requires forall i :: 0 <= i < |specs| ==> specs[i].NativeSpec?
    requires env.bindings.fs.None?
    ensures CreateFileSystem(specs, env) == Fs(Union([], Some(MemfsConstants)))
  {
    var rs := Resolutions(specs, env);
    assert forall i :: 0 <= i < |rs| ==> rs[i].Null? by {
      forall i | 0 <= i < |rs|
        ensures rs[i].Null?
      {
        assert rs[i] == SpecToFs(specs[i], env);
      }
    }
    PresentOfNulls(rs);
    ManySpecsLayers(specs, env);
  }

  /** Positions of the non-null handles in `rs`, from `from` on. */
  function FsIndices(rs: seq<Resolved>, from: nat): seq<nat>
    requires from <= |rs|
    decreases |rs| - from
  {
    if from == |rs| then []
    else (if rs[from].Fs? then [from] else []) + FsIndices(rs, from + 1)
  }

  lemma PresentUnfold(rs: seq<Resolved>, from: nat)
    requires from < |rs|
    ensures Present(rs[from..]) == (if rs[from].Fs? then [rs[from].instance] else []) + Present(rs[from + 1..])
  {
  }

  /** Every position `FsIndices` yields holds a non-null handle, and the
      handles are those `Present` keeps, in the same order. */
  lemma {:induction false} FsIndicesSelectPresent(rs: seq<Resolved>, from: nat)
    requires from <= |rs|
    ensures var idx := FsIndices(rs, from);
      && |idx| == |Present(rs[from..])|
      && (forall k :: 0 <= k < |idx| ==> from <= idx[k] < |rs| && rs[idx[k]] == Fs(Present(rs[from..])[k]))
    decreases |rs| - from
  {
    if from < |rs| {
      FsIndicesSelectPresent(rs, from + 1);
      PresentUnfold(rs, from);
    }
  }

  /** `FsIndices` yields strictly increasing positions. */
  lemma {:induction false} FsIndicesIncreasing(rs: seq<Resolved>, from: nat)
    requires from <= |rs|
    ensures var idx := FsIndices(rs, from);
      forall k, l :: 0 <= k < l < |idx| ==> from <= idx[k] < idx[l]
    decreases |rs| - from
  {
    if from < |rs| {
      FsIndicesIncreasing(rs, from + 1);
      FsIndicesSelectPresent(rs, from + 1);
      var tail := FsIndices(rs, from + 1);
      var head: seq<nat> := if rs[from].Fs? then [from] else [];
      var idx := FsIndices(rs, from);
      assert idx == head + tail;
      forall k, l | 0 <= k < l < |idx|
        ensures from <= idx[k] < idx[l]
      {
        if k < |head| {
          assert idx[k] == from && idx[l] == tail[l - |head|];
        } else {
          assert idx[k] == tail[k - |head|] && idx[l] == tail[l - |head|];
        }
      }
    }
  }

  /** `FsIndices` misses no non-null position. */
  lemma {:induction false} FsIndicesComplete(rs: seq<Resolved>, from: nat)
    requires from <= |rs|
    ensures forall j :: from <= j < |rs| && rs[j].Fs? ==> j in FsIndices(rs, from)
    decreases |rs| - from
  {
    if from < |rs| {
      FsIndicesComplete(rs, from + 1);
    }
  }

  /** `Present` keeps exactly the non-null handles: it takes them at strictly
      increasing positions (nothing reordered or duplicated), each is the
      handle found there (nothing added), and every non-null position is
      taken (nothing dropped). */
  lemma PresentIsOrderedSelection(rs: seq<Resolved>)
    ensures var idx := FsIndices(rs, 0);
      && |idx| == |Present(rs)|
      && (forall k :: 0 <= k < |idx| ==> idx[k] < |rs| && rs[idx[k]] == Fs(Present(rs)[k]))
      && (forall k, l :: 0 <= k < l < |idx| ==> idx[k] < idx[l])
      && (forall j :: 0 <= j < |rs| && rs[j].Fs? ==> j in idx)
  {
    assert rs[0..] == rs;
    FsIndicesSelectPresent(rs, 0);
    FsIndicesIncreasing(rs, 0);
    FsIndicesComplete(rs, 0);
  }

  /** The layers of a many-description union are the non-null resolutions
      taken at strictly increasing input positions, missing none. */
  lemma LayersAreOrderedSelection(specs: seq<Spec>, env: Env)
    requires |specs| >= 2
    requires NoError(Resolutions(specs, env))
    ensures CreateFileSystem(specs, env).Fs? && CreateFileSystem(specs, env).instance.Union?
    ensures var rs := Resolutions(specs, env);
      var layers := CreateFileSystem(specs, env).instance.layers;
      var idx := FsIndices(rs, 0);
      && |layers| == |idx|
      && (forall k :: 0 <= k < |idx| ==> idx[k] < |rs| && rs[idx[k]] == Fs(layers[k]))
      && (forall k, l :: 0 <= k < l < |idx| ==> idx[k] < idx[l])
      && (forall j :: 0 <= j < |rs| && rs[j].Fs? ==> j in idx)
  {
    var rs := Resolutions(specs, env);
    ManySpecsLayers(specs, env);
    PresentIsOrderedSelection(rs);
  }

  /** The descriptors an allocator hands out when asked `n` times in a row. */
  function HandedOut(alloc: Allocator, pool: FdPool, n: nat): (fds: seq<int>)
    ensures |fds| == n
    decreases n
  {
    if n == 0 then []
    else
      var a := alloc(pool);
      [a.fd] + HandedOut(alloc, a.pool, n - 1)
  }

  function Reverse(s: seq<int>): (r: seq<int>)
    ensures |r| == |s|
  {
    if s == [] then [] else [s[|s| - 1]] + Reverse(s[..|s| - 1])
  }

  /** Under the assumption, draining a released pool hands its descriptors
      out last first. */
  lemma {:induction false} PopsFromEndHandsOutReversed(alloc: Allocator, released: seq<int>, counter: int)
    requires PopsFromEnd(alloc)
    ensures HandedOut(alloc, FdPool(released, counter), |released|) == Reverse(released)
    decreases |released|
  {
    if released != [] {
      var p := FdPool(released, counter);
      assert alloc(p) == Allocation(released[|released| - 1], FdPool(released[..|released| - 1], counter));
      PopsFromEndHandsOutReversed(alloc, released[..|released| - 1], counter);
    }
  }

  /** The device volume is returned exactly when the allocator, started from
      the released pool [0, 1, 2], hands out 2, 1, 0 to the three opens.
      Otherwise the first failing check, in the order stderr, stdout, stdin,
      is reported with the descriptor that stream received. */
  lemma DevFsSucceedsIff(env: Env)
    ensures DevFs(env).Fs? <==> HandedOut(env.newFd, FdPool([0, 1, 2], env.fdCounter), 3) == [2, 1, 0]
    ensures var fds := HandedOut(env.newFd, FdPool([0, 1, 2], env.fdCounter), 3);
      fds[0] != 2 ==> DevFs(env) == Error(InvalidHandle(Stderr, fds[0]))
    ensures var fds := HandedOut(env.newFd, FdPool([0, 1, 2], env.fdCounter), 3);
      fds[0] == 2 && fds[1] != 1 ==> DevFs(env) == Error(InvalidHandle(Stdout, fds[1]))
    ensures var fds := HandedOut(env.newFd, FdPool([0, 1, 2], env.fdCounter), 3);
      fds[0] == 2 && fds[1] == 1 && fds[2] != 0 ==> DevFs(env) == Error(InvalidHandle(Stdin, fds[2]))
    ensures DevFs(env).Fs? ==> DevFs(env).instance.volume.files == DevSeed
  {
    var a1 := env.newFd(FdPool([0, 1, 2], env.fdCounter));
    var a2 := env.newFd(a1.pool);
    var a3 := env.newFd(a2.pool);
    assert HandedOut(env.newFd, a3.pool, 0) == [];
    assert HandedOut(env.newFd, FdPool([0, 1, 2], env.fdCounter), 3) == [a1.fd, a2.fd, a3.fd];
  }

  /** Under the pop-from-end assumption the three checks never throw. */
  lemma DevFsSucceedsUnderAssumption(env: Env)
    requires PopsFromEnd(env.newFd)
    ensures HandedOut(env.newFd, FdPool([0, 1, 2], env.fdCounter), 3) == [2, 1, 0]
    ensures DevFs(env).Fs?
  {
  }

  /** An allocator that hands out the released pool first in, first out. */
  function PopFront(p: FdPool): Allocation {
    if |p.released| > 0 then Allocation(p.released[0], p.(released := p.released[1..]))
    else Allocation(p.counter, p.(counter := p.counter + 1))
  }

  /** An allocator that ignores the pool and counts upwards. */
  function CountUp(p: FdPool): Allocation {
    Allocation(p.counter, p.(counter := p.counter + 1))
  }

  /** The checks catch an allocator that breaks the assumption: a first in,
      first out pool gives stderr descriptor 0, and the first check throws. */
  lemma PopFrontIsCaught(env: Env)
    ensures !PopsFromEnd(PopFront)
    ensures DevFs(env.(newFd := PopFront)) == Error(InvalidHandle(Stderr, 0))
  {
    var p := FdPool([0, 1], env.fdCounter);
    assert PopFront(p).fd == 0;
  }

  /** The checks catch an allocator that ignores the pool and numbers opens
      upwards from 0: stderr gets 0, and the first check throws. */
  lemma CountUpIsCaught(env: Env)
    ensures !PopsFromEnd(CountUp)
    ensures DevFs(env.(newFd := CountUp, fdCounter := 0)) == Error(InvalidHandle(Stderr, 0))
  {
    var p := FdPool([5], 0);
    assert CountUp(p).fd == 0;
  }

  /** An allocator that swaps the first two descriptors gets past the stderr
      check but is caught by the stdout check. */
  lemma StdoutCheckCatchesSwap(env: Env, counter: int)
    ensures DevFs(env.(newFd := (p: FdPool) => if p.released == [0, 1, 2] then Allocation(2, FdPool([1], counter))
                                              else if p.released == [1] then Allocation(0, FdPool([], counter))
                                              else Allocation(1, FdPool([], counter))))
            == Error(InvalidHandle(Stdout, 0))
  {
  }

  /** Omitting an archive's mountpoint is the same as mounting it at `/`. */
  lemma ZipMountDefaultsToRoot(data: Bytes, env: Env)
    ensures ZipFs(data, None, env) == ZipFs(data, Some("/"), env)
    ensures SpecToFs(ZipSpec(data, None), env) == SpecToFs(ZipSpec(data, Some("/")), env)
  {
  }

  /** A `mem` description without contents is the same as one seeded with
      the empty mapping, provided the library accepts the empty seed. */
  lemma MemAbsentSeedIsEmpty(env: Env)
    requires env.seedError(map[]).None?
    ensures MemFs(None, env) == MemFs(Some(map[]), env)
    ensures SpecToFs(MemSpec(None), env) == SpecToFs(MemSpec(Some(map[])), env)
    ensures CreateFileSystem([], env) == SpecToFs(MemSpec(None), env)
  {
  }

  /** `native` passes the bindings' filesystem through unchanged: it never
      throws, and the bindings can be read back from the result. */
  lemma NativePassthrough(env: Env)
    ensures !SpecToFs(NativeSpec, env).Error?
    ensures var r := SpecToFs(NativeSpec, env);
      env.bindings == (if r.Null? then Bindings(None) else Bindings(Some(r.instance.host)))
  {
  }
}
