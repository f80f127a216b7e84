# Filesystem-spec compositor of the WASI runtime, in Dafny

This project models the compositor in `packages/wasi/src/fs.ts`. It turns an ordered list of
tagged source descriptions (`native`, `dev`, `zip`, `zipfile`, `zipurl`, `mem`) into a single
filesystem handle before the WebAssembly interpreter starts. The model proves what the
compositor promises about that list:

- No description gives a fresh, empty in-memory volume.
- One description gives that description's own handle, with no union wrapper. This can be
  `null` when the description is `native` and the bindings supply no filesystem.
- Two or more descriptions give a union. Its layers are the resolved handles, in input order,
  with the `null` results removed. The union carries the memory library's `constants` bundle.
  The first throw aborts the whole composition.
- `zipfile` and `zipurl` always throw, naming the path or URL. A `zip` description throws
  when its archive cannot be extracted, and a seeded `mem` description throws when the
  volume library rejects its seed. Both library outcomes are inputs of the model. An unknown
  `type` tag is proved unreachable.
- The device volume opens stderr, stdout and stdin in that order from the released pool
  `[0, 1, 2]`, then checks the descriptors it got. If the volume is returned at all,
  descriptors 0, 1 and 2 are stdin, stdout and stderr, whatever the allocator does.
  Under the pop-from-end allocator assumption the checks never throw. An allocator that
  does not hand out 2, 1, 0 from `[0, 1, 2]` is rejected by the first failing check. An
  allocator that breaks the assumption only on other pools goes unnoticed, since the
  device volume never asks it about them.

Files:

- `wrappers.dfy` (module `Wrappers`) defines `Option`, a value that may be missing. Each
  use says which JavaScript absence it stands for.
- `memfs.dfy` (module `Memfs`) covers what the compositor needs from the in-memory volume
  library: volumes as seed plus descriptor table, the descriptor allocator as a parameter,
  and the allocator assumption `PopsFromEnd`.
- `wasi_fs.dfy` (module `WasiFs`) holds the source descriptions, handles, errors,
  `SpecToFs`, `DevFs`, `ZipFs`, `MemFs`, the `use` loop and `CreateFileSystem`.
- `wasi_fs_proofs.dfy` (module `WasiFsProofs`) holds the reference definitions and the
  lemmas relating them to the compositor. The references are `Resolutions` (each
  description resolved alone), `Present` (the non-null handles in order) and `HandedOut`
  (what an allocator hands out when asked repeatedly).

Handles are recorded by how they were built. `Mem(files)` is a volume seeded from a flat
mapping. `Zip(data, mount)` is a fresh volume into which `data` was extracted under `mount`.
`Dev(volume)` is the device volume with its descriptor table. `Native(host)` is the host
filesystem from the bindings. `Union(layers, constants)` is the union built by successive
`use` calls.

The device volume sets the released pool to `[0, 1, 2]`. It relies on the allocator taking
the last released descriptor first, so stderr gets 2, stdout 1 and stdin 0.
`CountUpIsCaught` shows that an allocator counting upwards from 0 would give stderr
descriptor 0 and be rejected by the first check.

## Model

| member | source | states |
|---|---|---|
| `WasiFs.CreateFileSystem` | packages/wasi/src/fs.ts:62-83 | With no description the result is an empty in-memory volume. With one, it is exactly that description's resolution. The result is `null` only for a single `native` description whose bindings have no filesystem. With two or more, a returned handle is a union carrying the memory library's constants, with at most one layer per description. Only a union built from two or more descriptions is ever returned. |
| `WasiFs.UseEach` | packages/wasi/src/fs.ts:75-82 | The loop over the descriptions never yields `null`. A returned union keeps the layers and constants it started with and adds at most one layer per description. |
| `WasiFs.SpecToFs` | packages/wasi/src/fs.ts:85-103 | Dispatch on the `type` tag, in source order. `zipfile` and `zipurl` throw, naming their path or URL. Besides those, only a rejected archive, a rejected seed or a failing device volume throws. Under the allocator assumption, and when the archive and seed are accepted, exactly the archive references throw. `native` returns the bindings' filesystem, or `null` exactly when it is absent. An accepted `zip` gives the archive mounted at its mountpoint, or `/` when omitted, and a rejected one throws the extraction error carrying the library's message unchanged. `mem` gives a volume seeded from its contents, or an empty one, and a rejected seed throws the seeding error carrying the library's message unchanged. `dev` gives the device volume. The result is never a union, and the unknown-tag throw is unreachable. |
| `WasiFs.Message` | packages/wasi/src/fs.ts:91-118 | The text thrown for an archive reference contains the path or URL. The descriptor-check text names the stream and ends with the descriptor's decimal rendering, which reads back as the descriptor. A library's own message is passed on unchanged. |
| `WasiFs.DecimalRoundTrip` | packages/wasi/src/fs.ts:116-118 | The decimal rendering of a descriptor in the check messages reads back as that descriptor, negative ones included. |
| `WasiFs.DevFs` | packages/wasi/src/fs.ts:106-120 | The device volume is either returned or rejected with an invalid-handle error. If it is returned, its seed is the three empty device files, exactly descriptors 0, 1 and 2 are open, and each is its stream's device file in that stream's direction. The error names a stream whose descriptor differs from the fixed number. Under the pop-from-end assumption the volume is always returned and the released pool has been drained. |
| `WasiFs.Tag` | packages/wasi/src/fs.ts:54-60 | Every description carries one of the six `type` tags. |
| `Memfs.OpenSync` | packages/wasi/src/fs.ts:113-115 | An open returns the descriptor the allocator hands out for the volume's pool, keeps the allocator's new state, and records that descriptor for the path and mode. It leaves every other descriptor and the files unchanged. |
| `Memfs.PopOrCount` | packages/wasi/src/fs.ts:112-115 | An allocator of the volume library's shape takes a released descriptor while there is one, otherwise takes the counter's value and moves the counter. |
| `Memfs.PopOrCountPopsFromEnd` | packages/wasi/src/fs.ts:112-115 | The pop-from-end assumption can be met: the library-shaped allocator satisfies it. |
| `WasiFsProofs.UseEachLayers` | packages/wasi/src/fs.ts:75-82 | When no description throws, the loop appends exactly the non-null resolutions, in input order, after the existing layers. |
| `WasiFsProofs.UseEachAborts` | packages/wasi/src/fs.ts:75-76 | The loop returns the first throw among the resolutions unchanged. |
| `WasiFsProofs.ManySpecsLayers` | packages/wasi/src/fs.ts:66-82 | With two or more descriptions and no throw, the result is the union of the non-null resolutions in input order, with the constants bundle attached. |
| `WasiFsProofs.FirstErrorAborts` | packages/wasi/src/fs.ts:71-82 | For any non-empty list, the first throw among the resolutions is the result of the whole composition. |
| `WasiFsProofs.ArchiveRefAborts` | packages/wasi/src/fs.ts:75-93 | Under the allocator assumption, when every archive and seed before it is accepted, a list containing an archive reference fails with the error naming the first such reference. |
| `WasiFsProofs.NoArchiveRefNoError` | packages/wasi/src/fs.ts:85-101 | Under the allocator assumption, a list without archive references whose archives and seeds are all accepted never throws. |
| `WasiFsProofs.AllNullGivesEmptyUnion` | packages/wasi/src/fs.ts:75-82 | Two or more `native` descriptions with no bindings filesystem give an empty union, not an error. |
| `WasiFsProofs.PresentIsOrderedSelection` | packages/wasi/src/fs.ts:77-80 | The non-null filter takes handles at strictly increasing positions, each equal to the handle resolved there, and takes every non-null position. Nothing is reordered, duplicated, added or dropped. |
| `WasiFsProofs.LayersAreOrderedSelection` | packages/wasi/src/fs.ts:75-82 | The layers of a many-description union are the non-null resolutions at strictly increasing input positions, missing none. |
| `WasiFsProofs.PopsFromEndHandsOutReversed` | packages/wasi/src/fs.ts:112-115 | Under the assumption, draining a released pool hands its descriptors out last first. |
| `WasiFsProofs.DevFsSucceedsIff` | packages/wasi/src/fs.ts:113-118 | The device volume is returned exactly when the three opens receive 2, 1 and 0. Otherwise the first failing check, in the order stderr, stdout, stdin, is reported with the descriptor that stream received. |
| `WasiFsProofs.DevFsSucceedsUnderAssumption` | packages/wasi/src/fs.ts:112-118 | Under the pop-from-end assumption the opens receive 2, 1, 0 and the checks never throw. |
| `WasiFsProofs.PopFrontIsCaught` | packages/wasi/src/fs.ts:116 | A first-in, first-out pool breaks the assumption, gives stderr 0, and is rejected by the stderr check. |
| `WasiFsProofs.CountUpIsCaught` | packages/wasi/src/fs.ts:116 | An allocator counting upwards from 0 breaks the assumption and is rejected by the stderr check. |
| `WasiFsProofs.StdoutCheckCatchesSwap` | packages/wasi/src/fs.ts:117 | An allocator that gives stderr 2 but stdout 0 passes the first check and is rejected by the stdout check. |
| `WasiFsProofs.ZipMountDefaultsToRoot` | packages/wasi/src/fs.ts:122-126 | Omitting an archive's mountpoint resolves exactly as mounting it at `/`, whether or not the extraction succeeds. |
| `WasiFsProofs.MemAbsentSeedIsEmpty` | packages/wasi/src/fs.ts:128-131 | A `mem` description without contents resolves exactly as one seeded with the empty mapping, provided the library accepts the empty seed. The empty list resolves exactly as a `mem` description without contents. |
| `WasiFsProofs.NativePassthrough` | packages/wasi/src/fs.ts:94-96 | `native` never throws, and the bindings can be read back from its result. |

## Left out

- The union library's lookup order and fall-through belong to that third-party library, which is not part of this model. Only the ordered sequence of `use` calls is modelled.
- Volume internals (building the tree from a seed, reading and writing files, path resolution, the open flags' effect) belong to the in-memory volume library. Volumes are recorded by their seed and descriptor table only. Opening a file that does not exist is not modelled, because the device volume opens only files it has just seeded.
- The allocator is a parameter (`Env.newFd`), and the pop-from-end rule is the explicit assumption `PopsFromEnd`. The library keeps its fallback counter in one static field shared by all volumes. The model starts each device volume from `Env.fdCounter` and does not thread the counter between volumes. Under the assumption the counter is never consulted.
- Archive extraction (`./unzip`) is not part of this model. Whether it throws, and with what message, is the input `Env.unzipError`. A `zip` handle records the data and mount directory it was given.
- Building a volume from a seed is not modelled. Whether the library rejects a seed, for example one with a file path also used as a directory, is the input `Env.seedError`. The device volume's seed is fixed and well formed, so its seeding is taken to succeed and is not routed through `Env.seedError`.
- A `zip` mountpoint of `null` is not modelled. The parameter default replaces only an omitted (`undefined`) mountpoint, so `null` would reach extraction as `null`. `ZipSpec.mountpoint` is `None` only when the mountpoint is omitted.
- Freshness, meaning a new object on every call, is not observable in a value model. "Fresh empty volume" is modelled as an empty seed.
- `WasiFs.Message`: the text of the unknown-tag error shows the tag instead of the whole description serialised to JSON. Serialisation is not modelled, and the branch is proved unreachable.
- The host filesystem object and the rest of the runtime bindings are opaque (`HostFs`). Only whether `bindings.fs` is present matters.
- Node's `Buffer` is modelled as a byte sequence. The structural `FileSystem` type has no counterpart.
- `packages/python-wasm/src/python/python.test.ts` runs the Python interpreter end to end and asynchronously. Nothing in it concerns the compositor.
