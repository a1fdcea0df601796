/**
 * The per-worker cache of open backing files: a bounded LRU map from path to
 * an open read/write handle. The operating system's `open` is an oracle from
 * path to a handle or an I/O error; the caller's action is an oracle from
 * handle to its result. `opens` records every `open` call and `closes` every
 * handle the cache lets go of.
 */
module Fd {
  import opened Wrappers
  import Lru

  type Path = string

  /** An open file handle. */
  datatype File = File(fd: nat)

  /** `std::io::ErrorKind`: only `NotFound` is told apart. */
  datatype ErrorKind = NotFound | Other(code: int)

  datatype IoError = IoError(kind: ErrorKind, msg: string)

  /** The capacity `FDCACHE` starts with. */
  const FDCACHE_CAPACITY: nat := 32

  /** The error `use_file` reports for a missing file. */
  function NotFoundError(path: Path): (e: IoError)
    ensures e.kind == NotFound
  {
    IoError(NotFound, "use_file: file not found: path=" + path)
  }

  /** What one `do_use_file` call returns and leaves behind. */
  datatype Step<T, E> = Step(result: Option<Result<T, E>>, entries: seq<(Path, File)>,
                             opens: seq<Path>, closes: seq<File>)

  /**
   * `do_use_file` on a cache with `entries` and capacity `cap`: a hit runs
   * `act` on the cached handle; a miss opens the file, and a missing file
   * yields `None`, another open error `Some(Err(..))`, and a successful open
   * runs `act` and caches the handle whatever `act` returned.
   */
  function UseFileStep<T, E>(entries: seq<(Path, File)>, cap: nat, path: Path,
                             open: Path -> Result<File, IoError>, act: File -> Result<T, E>,
                             fromIo: IoError -> E): (st: Step<T, E>)
    ensures st.opens == [] <==> Lru.Lookup(entries, path).Some?
    ensures st.opens != [] ==> st.opens == [path]
    ensures st.result.None? <==>
      Lru.Lookup(entries, path).None? && open(path).Err? && open(path).error.kind == NotFound
    ensures st.closes != [] ==> Lru.Lookup(entries, path).None? && open(path).Ok?
  {
    match Lru.Lookup(entries, path)
    case Some(f) => Step(Some(act(f)), Lru.Touch(entries, path), [], [])
    case None =>
      match open(path)
      case Err(err) =>
        if err.kind == NotFound then Step(None, entries, [path], [])
        else Step(Some(Err(fromIo(err))), entries, [path], [])
      case Ok(f) =>
        Step(Some(act(f)), Lru.Put(entries, cap, path, f), [path], Lru.Displaced(entries, cap, path, f))
  }

  /** A hit runs the action on the cached handle, opens nothing and keeps every handle. */
  lemma HitUsesCachedHandle<T, E>(entries: seq<(Path, File)>, cap: nat, path: Path,
                                  open: Path -> Result<File, IoError>, act: File -> Result<T, E>,
                                  fromIo: IoError -> E)
    requires Lru.Lookup(entries, path).Some?
    ensures var st := UseFileStep(entries, cap, path, open, act, fromIo);
      st.result == Some(act(Lru.Lookup(entries, path).value)) &&
      st.opens == [] && st.closes == [] &&
      multiset(st.entries) == multiset(entries) &&
      st.entries[|st.entries| - 1] == (path, Lru.Lookup(entries, path).value)
  {
    Lru.TouchPermutes(entries, path);
  }

  /** A miss on a missing file returns `None`, runs nothing and leaves the cache as it was. */
  lemma MissingFileLeavesCache<T, E>(entries: seq<(Path, File)>, cap: nat, path: Path,
                                     open: Path -> Result<File, IoError>, act: File -> Result<T, E>,
                                     fromIo: IoError -> E)
    requires Lru.Lookup(entries, path).None?
    ensures var st := UseFileStep(entries, cap, path, open, act, fromIo);
      (st.result == None <==> open(path).Err? && open(path).error.kind == NotFound) &&
      (open(path).Err? ==> st.entries == entries && st.closes == []) &&
      st.opens == [path]
  {
  }

  /** A miss whose open fails otherwise returns that error, converted, and leaves the cache as it was. */
  lemma OpenErrorPassedOn<T, E>(entries: seq<(Path, File)>, cap: nat, path: Path,
                                open: Path -> Result<File, IoError>, act: File -> Result<T, E>,
                                fromIo: IoError -> E)
    requires Lru.Lookup(entries, path).None? && open(path).Err? && open(path).error.kind != NotFound
    ensures var st := UseFileStep(entries, cap, path, open, act, fromIo);
      st.result == Some(Err(fromIo(open(path).error))) && st.entries == entries && st.closes == []
  {
  }

  /**
   * A miss whose open succeeds returns the action's result and caches the
   * new handle, as the most recent entry, whether the action failed or not;
   * the cache stays within capacity and loses no handle.
   */
  lemma OpenedHandleIsCached<T, E>(entries: seq<(Path, File)>, cap: nat, path: Path,
                                   open: Path -> Result<File, IoError>, act: File -> Result<T, E>,
                                   fromIo: IoError -> E)
    requires Lru.Lookup(entries, path).None? && open(path).Ok?
    requires |entries| <= cap && Lru.KeysDistinct(entries)
    ensures var st := UseFileStep(entries, cap, path, open, act, fromIo);
      st.result == Some(act(open(path).value)) && st.opens == [path] &&
      (cap > 0 ==> st.entries[|st.entries| - 1] == (path, open(path).value) &&
                   Lru.Lookup(st.entries, path) == Some(open(path).value)) &&
      |st.entries| <= cap &&
      multiset(Lru.Values(st.entries)) + multiset(st.closes)
        == multiset(Lru.Values(entries)) + multiset{open(path).value}
  {
    Lru.PutKeepsInvariant(entries, cap, path, open(path).value);
    Lru.PutConserves(entries, cap, path, open(path).value);
    if cap > 0 {
      Lru.PutThenLookup(entries, cap, path, open(path).value);
    }
  }

  /** Every outcome keeps the cache within its capacity and its paths distinct. */
  lemma UseFileKeepsInvariant<T, E>(entries: seq<(Path, File)>, cap: nat, path: Path,
                                    open: Path -> Result<File, IoError>, act: File -> Result<T, E>,
                                    fromIo: IoError -> E)
    requires |entries| <= cap && Lru.KeysDistinct(entries)
    ensures var st := UseFileStep(entries, cap, path, open, act, fromIo);
      |st.entries| <= cap && Lru.KeysDistinct(st.entries)
  {
    Lru.TouchPermutes(entries, path);
    if Lru.Lookup(entries, path).None? && open(path).Ok? {
      Lru.PutKeepsInvariant(entries, cap, path, open(path).value);
    }
  }

  /**
   * Once a file has been opened into a cache of non-zero capacity, the next
   * use of the same path is a hit: no second open, and the action runs on
   * the handle opened the first time.
   */
  lemma SecondUseReusesHandle<T, E>(entries: seq<(Path, File)>, cap: nat, path: Path,
                                    open: Path -> Result<File, IoError>, act1: File -> Result<T, E>,
                                    act2: File -> Result<T, E>, fromIo: IoError -> E)
    requires cap > 0 && |entries| <= cap && Lru.KeysDistinct(entries)
    requires Lru.Lookup(entries, path).None? && open(path).Ok?
    ensures var first := UseFileStep(entries, cap, path, open, act1, fromIo);
      var second := UseFileStep(first.entries, cap, path, open, act2, fromIo);
      second.opens == [] && second.result == Some(act2(open(path).value))
  {
    Lru.PutThenLookup(entries, cap, path, open(path).value);
  }

  /**
   * `use_file` on top of `try_use_file`: a missing file becomes a `NotFound`
   * error, anything else is passed through.
   */
  function OrNotFound<T, E>(path: Path, o: Option<Result<T, E>>, fromIo: IoError -> E): (r: Result<T, E>)
    ensures o.Some? ==> r == o.value
    ensures o.None? ==> r == Err(fromIo(NotFoundError(path)))
  {
    match o
    case None => Err(fromIo(NotFoundError(path)))
    case Some(v) => v
  }

  /** `use_file` succeeds exactly when the file was usable and the action succeeded. */
  lemma UseFileOkIffActionOk<T, E>(path: Path, o: Option<Result<T, E>>, fromIo: IoError -> E)
    ensures OrNotFound(path, o, fromIo).Ok? <==> o.Some? && o.value.Ok?
    ensures OrNotFound(path, o, fromIo).Ok? ==> OrNotFound(path, o, fromIo).value == o.value.value
  {
  }

  /** Rust's `as usize` on a signed integer of at most 64 bits: two's-complement wrap. */
  function AsUsize(v: int): (r: nat)
    ensures r < 0x1_0000_0000_0000_0000
    ensures 0 <= v < 0x1_0000_0000_0000_0000 ==> r == v
    ensures -0x8000_0000_0000_0000 <= v < 0 ==> r == v + 0x1_0000_0000_0000_0000
  {
    v % 0x1_0000_0000_0000_0000
  }

  /** One worker's `FDCACHE`. */
  class FdCache {
    var entries: seq<(Path, File)>
    var cap: nat
    var opens: seq<Path>
    var closes: seq<File>

    ghost predicate Valid()
      reads this
    {
      |entries| <= cap && Lru.KeysDistinct(entries)
    }

    /** `LruCache::new(32)`. */
    constructor ()
      ensures Valid()
      ensures entries == [] && cap == FDCACHE_CAPACITY && opens == [] && closes == []
    {
      entries := [];
      cap := FDCACHE_CAPACITY;
      opens := [];
      closes := [];
    }

    /** `LruCache::get`: the cached handle, promoted to most recent. */
    method Get(path: Path) returns (f: Option<File>)
      requires Valid()
      modifies this
      ensures Valid()
      ensures f == Lru.Lookup(old(entries), path) && entries == Lru.Touch(old(entries), path)
      ensures cap == old(cap) && opens == old(opens) && closes == old(closes)
    {
      Lru.TouchPermutes(entries, path);
      f := Lru.Lookup(entries, path);
      entries := Lru.Touch(entries, path);
    }

    /** `LruCache::put`; the handles it lets go of are dropped, which closes them. */
    method Put(path: Path, file: File)
      requires Valid()
      modifies this
      ensures Valid()
      ensures entries == Lru.Put(old(entries), cap, path, file)
      ensures closes == old(closes) + Lru.Displaced(old(entries), cap, path, file)
      ensures cap == old(cap) && opens == old(opens)
    {
      Lru.PutKeepsInvariant(entries, cap, path, file);
      closes := closes + Lru.Displaced(entries, cap, path, file);
      entries := Lru.Put(entries, cap, path, file);
    }

    /**
     * `LruCache::resize`: drops least recently used entries, closing their
     * handles, until at most `n` are left, then sets the capacity.
     */
    method Resize(n: nat)
      requires Valid()
      modifies this
      ensures Valid() && cap == n
      ensures entries == Lru.Truncate(old(entries), n)
      ensures closes == old(closes) + Lru.Values(old(entries)[..|old(entries)| - |entries|])
      ensures opens == old(opens)
    {
      while |entries| > n
        invariant |entries| <= |old(entries)|
        invariant |entries| == |old(entries)| || |entries| >= n
        invariant entries == old(entries)[|old(entries)| - |entries|..]
        invariant closes == old(closes) + Lru.Values(old(entries)[..|old(entries)| - |entries|])
        invariant Lru.KeysDistinct(entries)
        invariant opens == old(opens)
        decreases |entries|
      {
        ghost var gone := |old(entries)| - |entries|;
        assert old(entries)[..gone + 1] == old(entries)[..gone] + [entries[0]];
        Lru.ValuesConcat(old(entries)[..gone], [entries[0]]);
        closes := closes + [entries[0].1];
        entries := entries[1..];
      }
      cap := n;
    }

    /** `do_use_file`. */
    method DoUseFile<T, E>(path: Path, open: Path -> Result<File, IoError>,
                           act: File -> Result<T, E>, fromIo: IoError -> E)
      returns (r: Option<Result<T, E>>)
      requires Valid()
      modifies this
      ensures Valid() && cap == old(cap)
      ensures var st := UseFileStep(old(entries), old(cap), path, open, act, fromIo);
        r == st.result && entries == st.entries &&
        opens == old(opens) + st.opens && closes == old(closes) + st.closes
    {
      var cached := Get(path);
      if cached.Some? {
        return Some(act(cached.value));
      }
      opens := opens + [path];
      var file: File;
      match open(path) {
        case Ok(f) =>
          file := f;
        case Err(err) =>
          if err.kind == NotFound {
            return None;
          }
          return Some(Err(fromIo(err)));
      }
      var ret := act(file);
      Put(path, file);
      return Some(ret);
    }
  }

  /** `try_use_file` on the worker's own cache. */
  method TryUseFile<T, E>(cache: FdCache, path: Path, open: Path -> Result<File, IoError>,
                          act: File -> Result<T, E>, fromIo: IoError -> E)
    returns (r: Option<Result<T, E>>)
    requires cache.Valid()
    modifies cache
    ensures cache.Valid() && cache.cap == old(cache.cap)
    ensures var st := UseFileStep(old(cache.entries), old(cache.cap), path, open, act, fromIo);
      r == st.result && cache.entries == st.entries &&
      cache.opens == old(cache.opens) + st.opens && cache.closes == old(cache.closes) + st.closes
  {
    r := cache.DoUseFile(path, open, act, fromIo);
  }

  /** `use_file` on the worker's own cache. */
  method UseFile<T, E>(cache: FdCache, path: Path, open: Path -> Result<File, IoError>,
                       act: File -> Result<T, E>, fromIo: IoError -> E)
    returns (r: Result<T, E>)
    requires cache.Valid()
    modifies cache
    ensures cache.Valid() && cache.cap == old(cache.cap)
    ensures var st := UseFileStep(old(cache.entries), old(cache.cap), path, open, act, fromIo);
      r == OrNotFound(path, st.result, fromIo) && cache.entries == st.entries &&
      cache.opens == old(cache.opens) + st.opens && cache.closes == old(cache.closes) + st.closes
  {
    var o := TryUseFile(cache, path, open, act, fromIo);
    r := OrNotFound(path, o, fromIo);
  }

  /**
   * `do_resize_fdcache`: resizes the worker's cache to the configured
   * `max_files_per_process`, converted with `as usize`.
   */
  method ResizeFdCache(cache: FdCache, maxFilesPerProcess: int)
    requires cache.Valid()
    modifies cache
    ensures cache.Valid() && cache.cap == AsUsize(maxFilesPerProcess)
    ensures |cache.entries| <= AsUsize(maxFilesPerProcess)
    ensures cache.entries == Lru.Truncate(old(cache.entries), AsUsize(maxFilesPerProcess))
    ensures cache.closes == old(cache.closes) + Lru.Values(old(cache.entries)[..|old(cache.entries)| - |cache.entries|])
    ensures cache.opens == old(cache.opens)
  {
    cache.Resize(AsUsize(maxFilesPerProcess));
  }
}
