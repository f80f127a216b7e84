/** The part of the in-memory volume library that the compositor relies on.

    Volumes are opaque here: a volume records the flat seed it was built from,
    its descriptor allocator state and its table of open descriptors. Nothing
    about reading or writing file contents is modelled.

    The descriptor allocator belongs to the library, not to the compositor, so
    it is a parameter (`Allocator`). The one behaviour the compositor depends
    on is stated as the predicate `PopsFromEnd`. */
module Memfs {

  type Path = string
  type Bytes = seq<bv8>

  /** One value of a flat seed mapping: file text, or `null` for a directory. */
  datatype Entry = Text(text: string) | Directory

  /** A flat seed mapping from absolute path to entry. */
  type DirectoryJson = map<Path, Entry>

  /** Open flags used by the compositor: "r" and "w". */
  datatype Mode = Read | Write

  datatype OpenFile = OpenFile(path: Path, mode: Mode)

  /** Allocator state: the pool of released descriptors, and the counter the
      library falls back to when the pool is empty. */
  datatype FdPool = FdPool(released: seq<int>, counter: int)

  /** A descriptor handed out, and the allocator state after handing it out. */
  datatype Allocation = Allocation(fd: int, pool: FdPool)

  /** The library's descriptor allocator, as a pure state transformer. */
  type Allocator = FdPool -> Allocation

  /** The numeric flag bundle the library exports as `constants`; opaque. */
  datatype ConstantsBundle = MemfsConstants

  datatype Volume = Volume(files: DirectoryJson, pool: FdPool, open: map<int, OpenFile>)

  /** A volume seeded from a flat mapping, with no released descriptors and
      nothing open. */
  function FromJson(seed: DirectoryJson, counter: int): (v: Volume)
    ensures v.files == seed && v.pool.released == [] && v.open == map[]
  {
    Volume(seed, FdPool([], counter), map[])
  }

  datatype Opened = Opened(fd: int, volume: Volume)

  /** Opens `path`: takes the descriptor the allocator hands out, keeps the
      allocator's new state, and records the descriptor in the table. Only
      that descriptor's entry changes. */
  function OpenSync(v: Volume, path: Path, mode: Mode, alloc: Allocator): (r: Opened)
    ensures r.fd == alloc(v.pool).fd && r.volume.pool == alloc(v.pool).pool
    ensures r.fd in r.volume.open && r.volume.open[r.fd] == OpenFile(path, mode)
    ensures forall fd :: fd in v.open && fd != r.fd ==> fd in r.volume.open && r.volume.open[fd] == v.open[fd]
    ensures r.volume.open.Keys == v.open.Keys + {r.fd}
    ensures r.volume.files == v.files
  {
    var a := alloc(v.pool);
    Opened(a.fd, v.(pool := a.pool, open := v.open[a.fd := OpenFile(path, mode)]))
  }

  /** The pool with its last released descriptor taken off. */
  function Popped(p: FdPool): FdPool
    requires |p.released| > 0
  {
    p.(released := p.released[..|p.released| - 1])
  }

  /** The allocator assumption: whenever the released pool is non-empty, the
      allocator hands out its LAST element and removes exactly that element. */
  ghost predicate PopsFromEnd(alloc: Allocator) {
    forall p: FdPool :: |p.released| > 0 ==>
      alloc(p) == Allocation(p.released[|p.released| - 1], Popped(p))
  }

  /** An allocator of the shape the library uses: pop a released descriptor
      if there is one, otherwise take the counter's value and move the counter
      on (downwards, as the library counts). */
  function PopOrCount(p: FdPool): (a: Allocation)
    ensures |p.released| == 0 ==> a.fd == p.counter && a.pool.counter != p.counter
    ensures |p.released| > 0 ==> a.fd in p.released && |a.pool.released| == |p.released| - 1
  {
    if |p.released| > 0 then Allocation(p.released[|p.released| - 1], Popped(p))
    else Allocation(p.counter, p.(counter := p.counter - 1))
  }

  /** The assumption is met by an allocator of the library's shape. */
  lemma PopOrCountPopsFromEnd()
    ensures PopsFromEnd(PopOrCount)
  {
  }
}
