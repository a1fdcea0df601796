/**
 * `Marc<T>`: a manually reference-counted shared handle whose payload is torn
 * down by an explicit `destory(ctx)` call on the last `unref`, with a
 * copy-on-write `make_mut`.
 *
 * Each operation is one sequential atomic step. The heap of `Inner` cells is a
 * map from cell id to (count, payload); a handle is the id of the cell it
 * points to. The payload's `destory` callback is recorded in `log`, one entry
 * per call, with the payload and the context it was given.
 */
module Marc {
  import opened Wrappers

  /** `usize::MAX` on a 64-bit target: the counter is an `AtomicUsize`. */
  const USIZE_MAX: nat := 0xFFFF_FFFF_FFFF_FFFF

  /** `isize::MAX as usize`: the largest prior count `clone` accepts. */
  const MAX_REFCOUNT: nat := 0x7FFF_FFFF_FFFF_FFFF

  type CellId = nat

  /** A heap cell: the atomic counter `rc` and the payload. */
  datatype Inner<T> = Inner(rc: nat, data: T)

  /** A handle: the address of the cell it shares. */
  datatype Marc = Marc(ptr: CellId)

  /** One call of the payload's `destory(ctx)`. */
  datatype Teardown<T, C> = Teardown(cell: CellId, payload: T, ctx: C)

  /**
   * How many times the payload of cell `c` has been torn down: never exactly
   * when no log entry names `c`.
   */
  function TeardownCount<T, C>(log: seq<Teardown<T, C>>, c: CellId): (n: nat)
    ensures n <= |log|
    ensures n == 0 <==> forall i :: 0 <= i < |log| ==> log[i].cell != c
  {
    if log == [] then 0
    else (if log[0].cell == c then 1 else 0) + TeardownCount(log[1..], c)
  }

  /** No cell appears twice in the teardown log. */
  ghost predicate DistinctCells<T, C>(log: seq<Teardown<T, C>>) {
    forall i, j :: 0 <= i < j < |log| ==> log[i].cell != log[j].cell
  }

  lemma {:induction false} TeardownCountAppend<T, C>(log: seq<Teardown<T, C>>, e: Teardown<T, C>, c: CellId)
    ensures TeardownCount(log + [e], c) == TeardownCount(log, c) + (if e.cell == c then 1 else 0)
  {
    if log == [] {
      assert [e][1..] == [];
    } else {
      assert (log + [e])[1..] == log[1..] + [e];
      TeardownCountAppend(log[1..], e, c);
    }
  }

  /** A log without repeated cells tears each cell down at most once. */
  lemma {:induction false} TeardownAtMostOnce<T, C>(log: seq<Teardown<T, C>>, c: CellId)
    requires DistinctCells(log)
    ensures TeardownCount(log, c) <= 1
  {
    if log != [] {
      if log[0].cell == c {
        forall i | 0 <= i < |log[1..]| ensures log[1..][i].cell != c {
          assert log[1..][i] == log[i + 1];
        }
      } else {
        forall i, j | 0 <= i < j < |log[1..]| ensures log[1..][i].cell != log[1..][j].cell {
          assert log[1..][i] == log[i + 1] && log[1..][j] == log[j + 1];
        }
        TeardownAtMostOnce(log[1..], c);
      }
    }
  }

  /**
   * Every live cell has a count of at least 1 that fits a `usize`; cell ids
   * are never reused; a torn-down cell is freed and appears once in the log.
   */
  ghost predicate HeapInv<T, C>(cells: map<CellId, Inner<T>>, next: CellId,
                                log: seq<Teardown<T, C>>)
  {
    (forall c :: c in cells ==>
       c < next && 1 <= cells[c].rc <= USIZE_MAX) &&
    (forall i :: 0 <= i < |log| ==> log[i].cell < next && log[i].cell !in cells) &&
    DistinctCells(log)
  }

  /** A live cell has never been torn down. */
  lemma LiveNotTornDown<T, C>(cells: map<CellId, Inner<T>>, next: CellId, log: seq<Teardown<T, C>>, c: CellId)
    requires HeapInv(cells, next, log) && c in cells
    ensures TeardownCount(log, c) == 0
  {
  }

  /** In any reachable heap, no payload has been torn down twice. */
  lemma TornDownAtMostOnce<T, C>(cells: map<CellId, Inner<T>>, next: CellId, log: seq<Teardown<T, C>>, c: CellId)
    requires HeapInv(cells, next, log)
    ensures TeardownCount(log, c) <= 1
  {
    TeardownAtMostOnce(log, c);
  }

  /**
   * The heap of `Marc` cells. A handle may be used while its cell is live;
   * `unref`, `drop` and `make_mut`'s rebinding consume it.
   */
  class Heap<T, C> {
    var cells: map<CellId, Inner<T>>
    var next: CellId
    var log: seq<Teardown<T, C>>

    /** The heap invariant, `HeapInv`, over this heap's fields. */
    ghost predicate Valid()
      reads this
    {
      HeapInv(cells, next, log)
    }

    constructor ()
      ensures Valid()
      ensures cells == map[] && log == [] && next == 0
    {
      cells := map[];
      next := 0;
      log := [];
    }

    /** `Deref::deref`: the payload the handle shares. */
    function Deref(h: Marc): (r: T)
      reads this
      requires h.ptr in cells
      ensures r == cells[h.ptr].data
    {
      cells[h.ptr].data
    }

    /** `Marc::new`: a fresh cell with count 1 holding `v`. */
    method New(v: T) returns (r: Marc)
      requires Valid()
      modifies this
      ensures Valid()
      ensures r.ptr == old(next) && r.ptr !in old(cells)
      ensures cells == old(cells)[r.ptr := Inner(1, v)] && Deref(r) == v
      ensures next == old(next) + 1 && log == old(log)
    {
      r := Marc(next);
      cells := cells[next := Inner(1, v)];
      next := next + 1;
    }

    /**
     * `Clone::clone`: one more handle to the same cell. The counter is bumped
     * (modulo 2^64, as `fetch_add` does) before the overflow check; a prior
     * count above `MAX_REFCOUNT` panics, returned here as `None`.
     */
    method Clone(h: Marc) returns (r: Option<Marc>)
      requires Valid() && h.ptr in cells
      modifies this
      ensures r.None? <==> old(cells[h.ptr].rc) > MAX_REFCOUNT
      ensures cells == old(cells)[h.ptr := Inner((old(cells[h.ptr].rc) + 1) % (USIZE_MAX + 1), old(cells[h.ptr].data))]
      ensures r.Some? ==> r.value == h && Valid()
      ensures next == old(next) && log == old(log)
    {
      var prior := cells[h.ptr].rc;
      cells := cells[h.ptr := cells[h.ptr].(rc := (prior + 1) % (USIZE_MAX + 1))];
      if prior > MAX_REFCOUNT {
        r := None;
        return;
      }
      r := Some(h);
    }

    /**
     * `unref` (through `do_unref`): consumes the handle. A prior count other
     * than 1 is only decremented; the transition 1 -> 0 calls `destory(ctx)`
     * once on the payload and frees the cell.
     */
    method Unref(h: Marc, ctx: C)
      requires Valid() && h.ptr in cells
      modifies this
      ensures Valid()
      ensures next == old(next)
      ensures old(cells[h.ptr].rc) != 1 ==>
        cells == old(cells)[h.ptr := Inner(old(cells[h.ptr].rc) - 1, old(cells[h.ptr].data))] &&
        log == old(log)
      ensures old(cells[h.ptr].rc) == 1 ==>
        cells == old(cells) - {h.ptr} &&
        log == old(log) + [Teardown(h.ptr, old(cells[h.ptr].data), ctx)]
      ensures TeardownCount(log, h.ptr) == if old(cells[h.ptr].rc) == 1 then 1 else 0
    {
      var cells0: map<CellId, Inner<T>> := cells;
      var prior := cells[h.ptr].rc;
      var data := cells[h.ptr].data;
      if prior != 1 {
        // fetch_sub(1) saw another holder
        cells := cells0[h.ptr := Inner(prior - 1, data)];
      } else {
        // fetch_sub(1) saw the last holder: destory(ctx), then free the cell
        TeardownCountAppend(log, Teardown(h.ptr, data, ctx), h.ptr);
        log := log + [Teardown(h.ptr, data, ctx)];
        cells := cells0 - {h.ptr};
      }
    }

    /**
     * `Drop::drop`: disposing of a handle without `unref`. It panics (and
     * changes nothing) when the count exceeds 1; otherwise it frees the cell.
     * It never calls `destory`.
     */
    method Drop(h: Marc) returns (panicked: bool)
      requires Valid() && h.ptr in cells
      modifies this
      ensures Valid()
      ensures panicked <==> old(cells[h.ptr].rc) > 1
      ensures panicked ==> cells == old(cells)
      ensures !panicked ==> cells == old(cells) - {h.ptr}
      ensures log == old(log) && next == old(next)
    {
      var rc := cells[h.ptr].rc;
      if rc > 1 {
        return true;
      }
      cells := cells - {h.ptr};
      return false;
    }

    /**
     * `make_mut` followed by a write through the returned reference, given as
     * `update`. A sole owner claims the cell (compare-exchange 1 -> 0, then
     * store 1) and is updated in place. Otherwise the payload is cloned into a
     * new cell, the old reference is released with `unref(ctx)`, and the
     * handle is rebound to the copy, so the other holders keep the old
     * payload. The returned handle replaces `h`.
     */
    method MakeMut(h: Marc, ctx: C, update: T -> T) returns (h': Marc)
      requires Valid() && h.ptr in cells
      modifies this
      ensures Valid()
      ensures h'.ptr in cells && cells[h'.ptr].rc == 1
      ensures Deref(h') == update(old(cells[h.ptr].data))
      ensures log == old(log)
      ensures old(cells[h.ptr].rc) == 1 ==>
        h' == h && next == old(next) &&
        cells == old(cells)[h.ptr := Inner(1, update(old(cells[h.ptr].data)))]
      ensures old(cells[h.ptr].rc) != 1 ==>
        h'.ptr == old(next) && h'.ptr !in old(cells) && next == old(next) + 1 &&
        cells == old(cells)[h.ptr := Inner(old(cells[h.ptr].rc) - 1, old(cells[h.ptr].data))]
                           [h'.ptr := Inner(1, update(old(cells[h.ptr].data)))]
      ensures old(cells[h.ptr].rc) != 1 ==> h.ptr in cells && Deref(h) == old(Deref(h))
    {
      var cur := cells[h.ptr];
      if cur.rc != 1 {
        // compare_exchange(1, 0) failed: clone the payload into a new cell,
        // release this reference, and rebind the handle to the copy
        var bak := New(cur.data);
        Unref(h, ctx);
        h' := bak;
      } else {
        // compare_exchange(1, 0) claimed the cell; store(1) gives the count back
        cells := cells[h.ptr := Inner(1, cur.data)];
        h' := h;
      }
      // the caller's write through the returned `&mut T`
      cells := cells[h'.ptr := cells[h'.ptr].(data := update(cells[h'.ptr].data))];
    }
  }

  /** The teardown context of the module's own test: a marker value. */
  datatype TestCtx = TestCtx

  /**
   * The first half of the module's test: un-ref'ing a clone tears nothing
   * down; un-ref'ing the last handle tears the payload down exactly once.
   */
  method UnrefScenario() returns (afterCloneUnref: nat, afterLastUnref: nat)
    ensures afterCloneUnref == 0 && afterLastUnref == 1
  {
    var heap := new Heap<nat, TestCtx>();
    var marc1 := heap.New(3);
    var marc2 := heap.Clone(marc1);
    heap.Unref(marc2.value, TestCtx);
    afterCloneUnref := TeardownCount(heap.log, marc1.ptr);
    heap.Unref(marc1, TestCtx);
    afterLastUnref := TeardownCount(heap.log, marc1.ptr);
  }

  /**
   * The second half of the module's test: dropping a fresh handle without
   * `unref` neither panics nor tears the payload down.
   */
  method DropScenario() returns (dropPanicked: bool, afterDrop: nat)
    ensures !dropPanicked && afterDrop == 0
  {
    var heap := new Heap<nat, TestCtx>();
    var marc := heap.New(7);
    dropPanicked := heap.Drop(marc);
    afterDrop := TeardownCount(heap.log, marc.ptr);
  }

  /**
   * Copy-on-write through `make_mut`: a writer
   * that shares its cell with a reader forks a copy, and the reader still sees
   * the old payload; a sole owner writes in place.
   */
  method CopyOnWriteScenario() returns (reader: nat, writer: nat, forked: bool, inPlace: bool)
    ensures reader == 3 && writer == 4 && forked && inPlace
  {
    var heap := new Heap<nat, TestCtx>();
    var marc1 := heap.New(3);
    var marc2 := heap.Clone(marc1);
    var written := heap.MakeMut(marc1, TestCtx, x => x + 1);
    reader := heap.Deref(marc2.value);
    writer := heap.Deref(written);
    forked := written != marc2.value && heap.cells[marc2.value.ptr].rc == 1;
    var again := heap.MakeMut(written, TestCtx, x => x);
    inPlace := again == written;
  }
}
