# KuiBaDB: `Marc` and the per-worker file-handle cache

This project models two pieces of KuiBaDB's storage layer in Dafny.

- **`Marc<T>`** (`src/utils/marc.rs`) is a manually reference-counted shared
  handle. Its payload is torn down by an explicit `destory(ctx)` callback
  when the last `unref` brings the count to zero. It also offers a
  copy-on-write `make_mut`. Module `Marc` (`marc.dfy`) holds class `Heap`.
  - Its `cells` map each cell id to an `Inner(rc, data)`.
  - `next` is the next fresh id; ids are never reused.
  - `log` records every `destory` call as `Teardown(cell, payload, ctx)`.
  - A handle is the value `Marc(ptr)`.
  - The heap invariant `HeapInv` says three things. Every live cell has a
    count between 1 and `usize::MAX`. Every torn-down cell is freed. No
    cell is torn down twice.
- **The file-handle cache** (`src/access/fd.rs`) is each worker's bounded LRU
  map from path to an open read/write `File`. Its initial capacity is 32,
  and it is resized from the `max_files_per_process` setting.
  - Module `Lru` (`lru.dfy`) states the behaviour of the `lru` crate's
    `get`, `put` and `resize` that the cache relies on. It works on the
    recency-ordered sequence of entries, least recently used first.
  - Module `Fd` (`fd.dfy`) holds class `FdCache` and the cache's entry
    points.
  - `open` and the caller's action are function parameters.
  - `FdCache.opens` logs every `open` call, and `FdCache.closes` logs every
    handle the cache drops, which closes it.
- `wrappers.dfy` holds the `Option` and `Result` datatypes.

Rust panics (`assert!` in `clone` and `drop`) are returned as values: `None`
from `Heap.Clone` and `true` from `Heap.Drop`.

`clone` behaves as the code does, not as a plain reading of its intent. The
counter is incremented (modulo 2^64, as `fetch_add` does) before the bound
is checked. A prior count above `MAX_REFCOUNT` therefore leaves the
incremented count behind and then panics.

## Model

| member | source | states |
|---|---|---|
| Marc.TeardownCount | src/utils/marc.rs:61 | counts the `destory` calls logged for a cell; it is zero exactly when no log entry names that cell |
| Marc.TeardownAtMostOnce | src/utils/marc.rs:54-66 | a teardown log with no repeated cell counts every cell's teardown at most once |
| Marc.LiveNotTornDown | src/utils/marc.rs:54-66 | in a heap satisfying the invariant, a cell that is still live has never had `destory` called on it |
| Marc.TornDownAtMostOnce | src/utils/marc.rs:54-66 | in every heap satisfying the invariant, each payload has been torn down at most once |
| Marc.Heap.New | src/utils/marc.rs:31-37 | allocates a fresh, never-used cell with count 1 holding `v`; the handle derefs to `v`; nothing else changes; the invariant is kept |
| Marc.Heap.Deref | src/utils/marc.rs:121-126 | the payload of the handle's live cell |
| Marc.Heap.Clone | src/utils/marc.rs:111-119 | the count is incremented modulo 2^64; panics exactly when the prior count exceeds `isize::MAX`; otherwise returns a handle to the same cell with the invariant kept |
| Marc.Heap.Unref | src/utils/marc.rs:54-73 | a prior count other than 1 is decremented and nothing is torn down; a prior count of 1 calls `destory(ctx)` once on the payload and frees the cell; afterwards the cell's teardown count is 1 or 0 accordingly; the invariant is kept |
| Marc.Heap.Drop | src/utils/marc.rs:98-108 | panics, changing nothing, exactly when the count exceeds 1; otherwise frees the cell; never calls `destory` |
| Marc.Heap.MakeMut | src/utils/marc.rs:77-95 | the returned handle's cell has count 1 and holds the updated payload; a sole owner is updated in place; a shared cell is copied into a fresh cell and loses one count, and other holders still see the old payload; nothing is torn down |
| Marc.UnrefScenario | src/utils/marc.rs:152-161 | un-ref'ing a clone tears nothing down; un-ref'ing the last handle tears the payload down exactly once |
| Marc.DropScenario | src/utils/marc.rs:163-167 | dropping a fresh handle without `unref` does not panic and tears nothing down |
| Marc.CopyOnWriteScenario | src/utils/marc.rs:77-95 | a writer sharing its cell forks a copy (reader sees 3, writer sees 4, the reader is left sole owner); a sole owner then writes in place |
| Lru.IndexOf | src/access/fd.rs:30 | a found index holds the key; no index means the key is absent |
| Lru.Lookup | src/access/fd.rs:30 | a found value is cached under the key; none means the key is absent; with distinct keys it is the key's value |
| Lru.Touch | src/access/fd.rs:30 | `get` keeps the length; a miss changes nothing; a hit moves the key's entry to the most recent end (the order of the others: `Lru.TouchKeepsOrder`) |
| Lru.TouchPermutes | src/access/fd.rs:30 | `get` permutes the entries, keeps keys distinct, changes nothing on a miss and makes a hit the most recent entry |
| Lru.TouchKeepsOrder | src/access/fd.rs:30 | `get` of a cached key (distinct keys) is the other entries in their old recency order followed by the key's entry, so the least recently used entry stays first |
| Lru.Put | src/access/fd.rs:43 | at non-zero capacity the new entry is the most recent one; at capacity 0 a new key is not stored; the length grows by one exactly when a new key enters a cache that is not full (the order of the others: `Lru.PutKeepsOrder`) |
| Lru.PutKeepsInvariant | src/access/fd.rs:43 | `put` keeps the cache within capacity and its keys distinct |
| Lru.PutThenLookup | src/access/fd.rs:43 | after `put` at non-zero capacity the key is the most recent entry and maps to the new value |
| Lru.PutKeepsOthers | src/access/fd.rs:43 | `put` adds only the new entry and keeps every other key's entry except the least recently used one it evicts from a full cache |
| Lru.PutKeepsOrder | src/access/fd.rs:43 | `put` at non-zero capacity (distinct keys) is the other entries in their old recency order, minus the least recently used one when a new key meets a full cache, followed by the new entry |
| Lru.Displaced | src/access/fd.rs:43 | `put` drops at most one handle, the replaced value when the key was cached; the number of entries kept plus the number of handles dropped is one more than the old number of entries |
| Lru.PutConserves | src/access/fd.rs:43 | the values still cached plus the values `put` drops are exactly the old values plus the new one, so no handle is lost or duplicated |
| Lru.Truncate | src/access/fd.rs:76 | `resize(n)` keeps the `min(len, n)` most recent entries, in order, with keys still distinct |
| Fd.NotFoundError | src/access/fd.rs:52-55 | the error `use_file` reports for a missing file has kind `NotFound` |
| Fd.UseFileStep | src/access/fd.rs:25-45 | `do_use_file` opens the file (once, by its path) exactly on a miss; the outcome is "missing" exactly on a miss whose open fails with `NotFound`; handles are closed only after a successful open |
| Fd.HitUsesCachedHandle | src/access/fd.rs:30-32 | a hit runs the action on the cached handle, opens and closes nothing, permutes the cache and makes the path most recent |
| Fd.MissingFileLeavesCache | src/access/fd.rs:33-38 | on a miss the file is opened once; the outcome is "missing" exactly when the open fails with `NotFound`; a failed open leaves the cache unchanged |
| Fd.OpenErrorPassedOn | src/access/fd.rs:39 | another open failure is returned, converted, as the error, with the cache unchanged |
| Fd.OpenedHandleIsCached | src/access/fd.rs:42-44 | after a successful open the action's result is returned, whatever it is; the new handle is cached under the path as the most recent entry (capacity > 0); the cache stays within capacity; cached plus closed handles are the old ones plus the new one |
| Fd.UseFileKeepsInvariant | src/access/fd.rs:25-45 | every outcome keeps the cache within capacity with distinct paths |
| Fd.SecondUseReusesHandle | src/access/fd.rs:25-45 | after a first use opens a file, a second use of the same path is a hit: no second open, and the action runs on the first handle |
| Fd.OrNotFound | src/access/fd.rs:51-58 | "missing" becomes a `NotFound` error naming the path; any other outcome is passed through |
| Fd.UseFileOkIffActionOk | src/access/fd.rs:47-59 | `use_file` succeeds exactly when the file was usable and the action succeeded, with the action's value |
| Fd.AsUsize | src/access/fd.rs:73 | `as usize` is the identity on non-negative values below 2^64 and adds 2^64 to negative 64-bit values |
| Fd.FdCache.constructor | src/access/fd.rs:22 | a fresh cache is empty with capacity 32 |
| Fd.FdCache.Get | src/access/fd.rs:30 | returns the cached handle and promotes it; the capacity and logs are unchanged; the invariant is kept |
| Fd.FdCache.Put | src/access/fd.rs:43 | inserts the handle as `put` does and closes exactly the handles `put` drops; the invariant is kept |
| Fd.FdCache.Resize | src/access/fd.rs:76 | sets the capacity to `n`, keeps the `n` most recent entries and closes the evicted ones, oldest first |
| Fd.FdCache.DoUseFile | src/access/fd.rs:25-45 | result, new entries, opens and closes are those of `UseFileStep` (hit, missing, open error, opened and cached); capacity and invariant kept |
| Fd.TryUseFile | src/access/fd.rs:61-69 | runs `do_use_file` on the worker's cache, with the same outcome and effects |
| Fd.UseFile | src/access/fd.rs:47-59 | the outcome of `try_use_file`, with "missing" converted to a `NotFound` error |
| Fd.ResizeFdCache | src/access/fd.rs:71-78 | resizes the cache to `max_files_per_process as usize`: at most that many entries remain, the most recent ones, and the evicted ones are closed |

## Left out

- Atomic memory orderings (`Relaxed`, `Release`, the `Acquire` fence) and concurrent interleavings. Each `Marc` operation is one sequential step; the compare-exchange and store in `make_mut` are two consecutive writes.
- Rust's ownership of handles. The model does not track which handles are outstanding. A handle may be passed to `Unref`, `Drop` or `MakeMut` while its cell is live, and the caller must not reuse a consumed handle. So the count is not proved to equal the number of outstanding handles.
- Raw-pointer mechanics (`Box::leak`, `Box::from_raw`, `NonNull`, `PhantomData`, `mem::forget`, `ptr::write`). Freeing is removal from the heap map. `ptr::write` is `MakeMut` returning the handle to use from then on.
- The `debug_assert_eq!` in `make_mut`: `Heap.MakeMut` proves the count is 1 instead.
- `make_mut`'s `&mut T` result: the write through it is the `update` function argument.
- The payload's `Clone`: a value copy.
- The `Destory` trait: each call is recorded in the heap's log. What the callback does with the payload and context is the caller's code and is not modelled.
- `Send`/`Sync` implementations: concurrency is out of scope.
- The `lru` crate's internals (hash map plus linked list): only the behaviour the cache depends on is stated, over the recency-ordered sequence. `put` at capacity 0 stores nothing and drops the handle.
- `thread_local!` and `RefCell`: the worker's cache is an `FdCache` object passed explicitly. Reentrant use of the cache from inside the action (a `RefCell` borrow panic) is not modelled.
- `OpenOptions::open`, the action, `From<io::Error>` and `File`: these are the function parameters `open`, `act` and `fromIo`. `Drop` of a `File` is an entry in `closes`. The action is assumed not to touch the cache.
- The GUC lookup `guc::get_int`: its value is the `maxFilesPerProcess` parameter of `ResizeFdCache`. `SessionExt` and `WorkerExt` only forward to it.
- Messages of panics and I/O errors other than the `use_file` not-found message.
