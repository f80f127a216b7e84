/** The filesystem-spec compositor of the WASI runtime: it turns an ordered
    list of source descriptions into one filesystem handle before the
    interpreter starts.

    Filesystem handles are modelled by how they were built (`Instance`);
    union lookup and file contents belong to other libraries. */
module WasiFs {
  import opened Wrappers
  import opened Memfs

  /** The host's own filesystem object, supplied through the bindings. */
  datatype HostFs = HostFs(id: nat)

  /** The runtime bindings; only `fs` is consulted. `None` merges its two
      absences, `null` and `undefined`: the loop's `!= null` test treats them
      alike, while the one-description path returns the value as it is. */
  datatype Bindings = Bindings(fs: Option<HostFs>)

  /** Everything resolution depends on: the bindings; the volume library's
      descriptor allocator with the counter value it starts from; and the
      outcome of the two library calls that can throw on bad input, archive
      extraction into a directory and building a volume from a seed (each
      gives the thrown message, or `None` when the call succeeds). */
  datatype Env = Env(
    bindings: Bindings,
    newFd: Allocator,
    fdCounter: int,
    unzipError: (Bytes, Path) -> Option<string>,
    seedError: DirectoryJson -> Option<string>)

  /** One source description. `ZipSpec`'s mountpoint is `None` when it is
      omitted (`undefined`); a `null` mountpoint has no counterpart. A
      `MemSpec`'s contents are `None` when `null` or `undefined`. */
  datatype Spec =
    | NativeSpec
    | DevSpec
    | ZipFileSpec(zipfile: string, fileMountpoint: Path)
    | ZipUrlSpec(zipurl: string, urlMountpoint: Path)
    | ZipSpec(data: Bytes, mountpoint: Option<Path>)
    | MemSpec(contents: Option<DirectoryJson>)

  /** A filesystem handle, recorded by how it was built. */
  datatype Instance =
    | Mem(files: DirectoryJson)
    | Zip(data: Bytes, mount: Path)
    | Dev(volume: Volume)
    | Native(host: HostFs)
    | Union(layers: seq<Instance>, constants: Option<ConstantsBundle>)

  datatype Stream = Stdin | Stdout | Stderr

  datatype FsError =
    | MustConvert(variant: string, location: string)
    | InvalidHandle(stream: Stream, fd: int)
    | UnknownSpec(tag: string)
    | ExtractFailed(message: string)
    | SeedFailed(message: string)

  /** What resolving or composing yields: a handle, `null`, or a throw. */
  datatype Resolved = Fs(instance: Instance) | Null | Error(error: FsError)

  /** The `type` discriminant a description carries. */
  function Tag(s: Spec): (t: string)
    ensures t in {"native", "dev", "zipfile", "zipurl", "zip", "mem"}
  {
    match s
    case NativeSpec => "native"
    case DevSpec => "dev"
    case ZipFileSpec(_, _) => "zipfile"
    case ZipUrlSpec(_, _) => "zipurl"
    case ZipSpec(_, _) => "zip"
    case MemSpec(_) => "mem"
  }

  /** The two descriptions that must be read into memory by the caller. */
  predicate IsArchiveRef(s: Spec) {
    s.ZipFileSpec? || s.ZipUrlSpec?
  }

  /** The error an archive reference is rejected with. */
  function RefError(s: Spec): (e: FsError)
    requires IsArchiveRef(s)
    ensures e.MustConvert? && e.variant == Tag(s)
    ensures e.location == (if s.ZipFileSpec? then s.zipfile else s.zipurl)
  {
    if s.ZipFileSpec? then MustConvert("zipfile", s.zipfile) else MustConvert("zipurl", s.zipurl)
  }

  /** A fresh in-memory volume: built from `contents` when given, which
      throws when the library rejects the seed, and otherwise a new empty
      volume, which cannot throw. */
  function MemFs(contents: Option<DirectoryJson>, env: Env): (r: Resolved)
    ensures !r.Null?
    ensures r.Error? <==> contents.Some? && env.seedError(contents.value).Some?
    ensures r.Error? ==> r.error == SeedFailed(env.seedError(contents.value).value)
    ensures r.Fs? ==> r.instance.Mem?
  {
    if contents.Some? then
      match env.seedError(contents.value)
      case Some(msg) => Error(SeedFailed(msg))
      case None => Fs(Mem(contents.value))
    else Fs(Mem(map[]))
  }

  /** The directory an archive is extracted under: the parameter default
      applies when it is omitted. */
  function MountOf(directory: Option<Path>): Path {
    match directory
    case Some(d) => d
    case None => "/"
  }

  /** A fresh volume with the archive extracted under `directory` (root by
      default). Extraction itself is opaque; it throws exactly when the
      library rejects the data. */
  function ZipFs(data: Bytes, directory: Option<Path>, env: Env): (r: Resolved)
    ensures !r.Null?
    ensures r.Error? <==> env.unzipError(data, MountOf(directory)).Some?
    ensures r.Error? ==> r.error == ExtractFailed(env.unzipError(data, MountOf(directory)).value)
    ensures r.Fs? ==> r.instance.Zip? && r.instance.data == data && r.instance.mount == MountOf(directory)
  {
    var mount := MountOf(directory);
    match env.unzipError(data, mount)
    case Some(msg) => Error(ExtractFailed(msg))
    case None => Fs(Zip(data, mount))
  }

  function StreamFd(s: Stream): nat {
    match s
    case Stdin => 0
    case Stdout => 1
    case Stderr => 2
  }

  function StreamPath(s: Stream): Path {
    match s
    case Stdin => "/dev/stdin"
    case Stdout => "/dev/stdout"
    case Stderr => "/dev/stderr"
  }

  function StreamMode(s: Stream): Mode {
    if s == Stdin then Read else Write
  }

  /** The three empty device files the device volume is seeded with. */
  const DevSeed: DirectoryJson :=
    map[StreamPath(Stdin) := Text(""), StreamPath(Stdout) := Text(""), StreamPath(Stderr) := Text("")]

  /** Each standard stream is open at its fixed descriptor, on its device
      file, in its direction. */
  ghost predicate StdioOpen(v: Volume) {
    forall s: Stream :: StreamFd(s) in v.open && v.open[StreamFd(s)] == OpenFile(StreamPath(s), StreamMode(s))
  }

  /** The device volume: seed three files, release descriptors 0, 1, 2, open
      stderr, stdout, stdin in that order, and check the descriptors got.
      Whatever the allocator does, a returned volume has the standard streams
      at 0, 1, 2; under the pop-from-end assumption it is always returned. */
  function DevFs(env: Env): (r: Resolved)
    ensures r.Fs? || r.Error?
    ensures r.Fs? ==> r.instance.Dev? && StdioOpen(r.instance.volume)
    ensures r.Fs? ==> r.instance.volume.files == DevSeed && r.instance.volume.open.Keys == {0, 1, 2}
    ensures r.Error? ==> r.error.InvalidHandle? && r.error.fd != StreamFd(r.error.stream)
    ensures PopsFromEnd(env.newFd) ==> r.Fs? && r.instance.volume.pool.released == []
  {
    var vol := FromJson(DevSeed, env.fdCounter).(pool := FdPool([0, 1, 2], env.fdCounter));
    var err := OpenSync(vol, StreamPath(Stderr), Write, env.newFd);
    var out := OpenSync(err.volume, StreamPath(Stdout), Write, env.newFd);
    var inp := OpenSync(out.volume, StreamPath(Stdin), Read, env.newFd);
    if err.fd != 2 then Error(InvalidHandle(Stderr, err.fd))
    else if out.fd != 1 then Error(InvalidHandle(Stdout, out.fd))
    else if inp.fd != 0 then Error(InvalidHandle(Stdin, inp.fd))
    else Fs(Dev(inp.volume))
  }

  /** `native` stands for whatever filesystem the bindings supply, which may
      be absent. */
  function NativeFs(b: Bindings): (r: Resolved)
    ensures r.Null? <==> b.fs.None?
    ensures r.Fs? ==> r.instance == Native(b.fs.value)
  {
    match b.fs
    case Some(h) => Fs(Native(h))
    case None => Null
  }

  /** The library calls a description makes succeed: its archive extracts
      and its seed is accepted. */
  ghost predicate LibraryAccepts(spec: Spec, env: Env) {
    && (spec.ZipSpec? ==> env.unzipError(spec.data, MountOf(spec.mountpoint)).None?)
    && (spec.MemSpec? && spec.contents.Some? ==> env.seedError(spec.contents.value).None?)
  }

  /** Resolves one description, testing its `type` tag in the same order as
      the source. Archive references fail naming their path or URL; an
      unknown tag cannot occur. Besides archive references, only a rejected
      archive, a rejected seed, or a device volume whose descriptor checks
      fail can throw. */
  function SpecToFs(spec: Spec, env: Env): (r: Resolved)
    ensures IsArchiveRef(spec) ==> r == Error(RefError(spec))
    ensures r.Error? ==> IsArchiveRef(spec) || spec.DevSpec? || !LibraryAccepts(spec, env)
    ensures PopsFromEnd(env.newFd) && LibraryAccepts(spec, env) ==> (r.Error? <==> IsArchiveRef(spec))
    ensures r.Null? <==> spec.NativeSpec? && env.bindings.fs.None?
    ensures spec.NativeSpec? && env.bindings.fs.Some? ==> r == Fs(Native(env.bindings.fs.value))
    ensures spec.ZipSpec? && LibraryAccepts(spec, env) ==> r == Fs(Zip(spec.data, MountOf(spec.mountpoint)))
    ensures spec.ZipSpec? && !LibraryAccepts(spec, env) ==>
      r == Error(ExtractFailed(env.unzipError(spec.data, MountOf(spec.mountpoint)).value))
    ensures spec.MemSpec? && spec.contents.None? ==> r == Fs(Mem(map[]))
    ensures spec.MemSpec? && spec.contents.Some? && LibraryAccepts(spec, env) ==> r == Fs(Mem(spec.contents.value))
    ensures spec.MemSpec? && spec.contents.Some? && !LibraryAccepts(spec, env) ==>
      r == Error(SeedFailed(env.seedError(spec.contents.value).value))
    ensures spec.DevSpec? ==> r == DevFs(env)
    ensures r.Fs? ==> !r.instance.Union?
  {
    var tag := Tag(spec);
    if tag == "zip" then ZipFs(spec.data, spec.mountpoint, env)
    else if tag == "zipfile" then Error(MustConvert("zipfile", spec.zipfile))
    else if tag == "zipurl" then Error(MustConvert("zipurl", spec.zipurl))
    else if tag == "native" then NativeFs(env.bindings)
    else if tag == "mem" then MemFs(spec.contents, env)
    else if tag == "dev" then DevFs(env)
    else assert false; Error(UnknownSpec(tag))
  }

  /** `use`: appends one more layer to a union. */
  function Use(u: Instance, layer: Instance): (r: Instance)
    requires u.Union?
    ensures r.Union? && r.constants == u.constants
    ensures r.layers == u.layers + [layer]
  {
    u.(layers := u.layers + [layer])
  }

  /** The loop over two or more descriptions: resolve each in order, `use`
      every non-null result, and stop at the first throw. */
  function UseEach(ufs: Instance, specs: seq<Spec>, env: Env): (r: Resolved)
    requires ufs.Union?
    ensures !r.Null?
    ensures r.Fs? ==> r.instance.Union? && r.instance.constants == ufs.constants
    ensures r.Fs? ==> ufs.layers <= r.instance.layers
    ensures r.Fs? ==> |r.instance.layers| <= |ufs.layers| + |specs|
    decreases |specs|
  {
    if specs == [] then Fs(ufs)
    else
      match SpecToFs(specs[0], env)
      case Error(e) => Error(e)
      case Null => UseEach(ufs, specs[1..], env)
      case Fs(fs) => UseEach(Use(ufs, fs), specs[1..], env)
  }

  /** The compositor: no description gives an empty in-memory volume, one
      description gives that description's own handle, and more give a union
      carrying the volume library's constants. */
  function CreateFileSystem(specs: seq<Spec>, env: Env): (r: Resolved)
    ensures |specs| == 0 ==> r == Fs(Mem(map[]))
    ensures |specs| == 1 ==> r == SpecToFs(specs[0], env)
    ensures r.Null? <==> |specs| == 1 && specs[0].NativeSpec? && env.bindings.fs.None?
    ensures |specs| >= 2 && r.Fs? ==> r.instance.Union? && r.instance.constants == Some(MemfsConstants)
    ensures |specs| >= 2 && r.Fs? ==> |r.instance.layers| <= |specs|
    ensures r.Fs? && r.instance.Union? ==> |specs| >= 2
  {
    var ufs := Union([], Some(MemfsConstants));
    if |specs| == 0 then MemFs(None, env)
    else if |specs| == 1 then SpecToFs(specs[0], env)
    else UseEach(ufs, specs, env)
  }

  /** The text of the error thrown for each failure. The archive-reference
      text names the path or URL; the descriptor text names the stream and
      the descriptor it got; a library's own message is passed on as is. */
  function Message(e: FsError): (m: string)
    ensures e.MustConvert? ==> Contains(m, e.location)
    ensures e.InvalidHandle? ==> Contains(m, StreamName(e.stream))
    ensures e.InvalidHandle? ==> |m| >= |Decimal(e.fd)| && m[|m| - |Decimal(e.fd)|..] == Decimal(e.fd)
    ensures e.InvalidHandle? ==> ParseDecimal(m[|m| - |Decimal(e.fd)|..]) == e.fd
    ensures e.ExtractFailed? || e.SeedFailed? ==> m == e.message
  {
    match e
    case MustConvert(variant, location) =>
      var m := "you must convert " + variant + " -- read " + location + " into memory";
      assert m[|"you must convert " + variant + " -- read "|..][..|location|] == location;
      m
    case InvalidHandle(stream, fd) =>
      var prefix := "invalid handle for " + StreamName(stream);
      var m := prefix + ": " + Decimal(fd);
      assert m[|"invalid handle for "|..][..|StreamName(stream)|] == StreamName(stream);
      assert m[|m| - |Decimal(fd)|..] == Decimal(fd);
      DecimalRoundTrip(fd);
      m
    case UnknownSpec(tag) => "unknown spec type - " + tag
    case ExtractFailed(message) => message
    case SeedFailed(message) => message
  }

  function StreamName(s: Stream): string {
    match s
    case Stdin => "stdin"
    case Stdout => "stdout"
    case Stderr => "stderr"
  }

  predicate Contains(s: string, part: string) {
    exists i :: 0 <= i <= |s| - |part| && s[i..][..|part|] == part
  }

  const DigitChars := "0123456789"

  /** The decimal digits of `n`, most significant first, without leading
      zeros. */
  function Digits(n: nat): (s: string)
    ensures |s| >= 1 && (n > 0 ==> s[0] != '0')
    ensures forall k :: 0 <= k < |s| ==> s[k] in DigitChars
    decreases n
  {
    if n < 10 then [DigitChars[n]] else Digits(n / 10) + [DigitChars[n % 10]]
  }

  /** How JavaScript renders an integer in a template string. */
  function Decimal(i: int): string {
    if i < 0 then "-" + Digits(-i) else Digits(i)
  }

  function DigitValue(c: char): nat {
    if '0' <= c <= '9' then (c - '0') as nat else 0
  }

  /** Reads back a run of decimal digits, last digit least significant. */
  function ParseDigits(s: string): nat {
    if s == [] then 0 else ParseDigits(s[..|s| - 1]) * 10 + DigitValue(s[|s| - 1])
  }

  function ParseDecimal(s: string): int {
    if |s| > 0 && s[0] == '-' then -(ParseDigits(s[1..]) as int) else ParseDigits(s)
  }

  lemma {:induction false} DigitsRoundTrip(n: nat)
    ensures ParseDigits(Digits(n)) == n
    decreases n
  {
    var d := Digits(n);
    if n >= 10 {
      DigitsRoundTrip(n / 10);
      assert d[..|d| - 1] == Digits(n / 10);
      assert d[|d| - 1] == DigitChars[n % 10];
    } else {
      assert d == [DigitChars[n]];
    }
  }

  /** The rendered descriptor reads back as the descriptor. */
  lemma DecimalRoundTrip(i: int)
    ensures ParseDecimal(Decimal(i)) == i
  {
    if i < 0 {
      DigitsRoundTrip(-i);
      assert Decimal(i)[1..] == Digits(-i);
    } else {
      DigitsRoundTrip(i);
    }
  }
}
