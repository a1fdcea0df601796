/**
 * The bounded LRU map the file-handle cache is built on, as the recency-ordered
 * sequence of its entries, least recently used first. These functions state
 * the documented behaviour of the cache's `get`, `put` and `resize`.
 */
module Lru {
  import opened Wrappers

  /** No key occurs twice. */
  ghost predicate KeysDistinct<K, V>(s: seq<(K, V)>) {
    forall i, j :: 0 <= i < j < |s| ==> s[i].0 != s[j].0
  }

  /** The position of `k`, if it is cached. */
  function IndexOf<K(==), V>(s: seq<(K, V)>, k: K): (r: Option<nat>)
    ensures r.Some? ==> r.value < |s| && s[r.value].0 == k
    ensures r.None? ==> forall i :: 0 <= i < |s| ==> s[i].0 != k
  {
    if s == [] then None
    else if s[0].0 == k then Some(0)
    else match IndexOf(s[1..], k)
      case None => None
      case Some(i) => Some(i + 1)
  }

  /** The value cached under `k`, without touching the recency order. */
  function Lookup<K(==), V>(s: seq<(K, V)>, k: K): (r: Option<V>)
    ensures r.Some? ==> (k, r.value) in s
    ensures r.None? ==> forall i :: 0 <= i < |s| ==> s[i].0 != k
    ensures KeysDistinct(s) ==> forall i :: 0 <= i < |s| && s[i].0 == k ==> r == Some(s[i].1)
  {
    match IndexOf(s, k)
    case None => None
    case Some(i) => Some(s[i].1)
  }

  /** The cached values, in recency order. */
  function Values<K, V>(s: seq<(K, V)>): (r: seq<V>)
    ensures |r| == |s| && forall i :: 0 <= i < |s| ==> r[i] == s[i].1
  {
    seq(|s|, i requires 0 <= i < |s| => s[i].1)
  }

  lemma ValuesConcat<K, V>(a: seq<(K, V)>, b: seq<(K, V)>)
    ensures Values(a + b) == Values(a) + Values(b)
  {
  }

  /** Removing the entry at `i` keeps the other keys distinct, and none of them is `s[i]`'s. */
  lemma DistinctWithout<K, V>(s: seq<(K, V)>, i: nat, t: seq<(K, V)>)
    requires KeysDistinct(s) && i < |s| && t == s[..i] + s[i + 1..]
    ensures KeysDistinct(t)
    ensures forall j :: 0 <= j < |t| ==> t[j].0 != s[i].0
  {
    forall j | 0 <= j < |t| ensures t[j] == s[if j < i then j else j + 1] {
    }
  }

  /** Appending an entry whose key is not cached keeps the keys distinct. */
  lemma DistinctAppend<K, V>(s: seq<(K, V)>, e: (K, V))
    requires KeysDistinct(s) && forall j :: 0 <= j < |s| ==> s[j].0 != e.0
    ensures KeysDistinct(s + [e])
  {
  }

  /**
   * `get`: a cached key is moved to the most-recent end; an absent key
   * changes nothing.
   */
  function Touch<K(==), V>(s: seq<(K, V)>, k: K): (r: seq<(K, V)>)
    ensures |r| == |s|
    ensures Lookup(s, k).None? ==> r == s
    ensures Lookup(s, k).Some? ==> r[|r| - 1] == (k, Lookup(s, k).value)
  {
    match IndexOf(s, k)
    case None => s
    case Some(i) => s[..i] + s[i + 1..] + [s[i]]
  }

  /** The entries whose key is not `k`, in their original order. */
  function Without<K(==), V>(s: seq<(K, V)>, k: K): (r: seq<(K, V)>)
    ensures |r| <= |s|
    ensures forall i :: 0 <= i < |r| ==> r[i].0 != k
  {
    if s == [] then []
    else (if s[0].0 == k then [] else [s[0]]) + Without(s[1..], k)
  }

  lemma {:induction false} WithoutAbsent<K, V>(s: seq<(K, V)>, k: K)
    requires forall i :: 0 <= i < |s| ==> s[i].0 != k
    ensures Without(s, k) == s
  {
    if s != [] {
      assert forall i :: 0 <= i < |s[1..]| ==> s[1..][i] == s[i + 1];
      WithoutAbsent(s[1..], k);
      assert s == [s[0]] + s[1..];
    }
  }

  lemma {:induction false} WithoutConcat<K, V>(a: seq<(K, V)>, b: seq<(K, V)>, k: K)
    ensures Without(a + b, k) == Without(a, k) + Without(b, k)
  {
    if a != [] {
      assert (a + b)[1..] == a[1..] + b;
      WithoutConcat(a[1..], b, k);
    } else {
      assert a + b == b;
    }
  }

  /** With distinct keys, cutting out the entry at `i` is filtering out its key. */
  lemma SplitAt<K, V>(s: seq<(K, V)>, i: nat)
    requires i < |s|
    ensures s == s[..i] + ([s[i]] + s[i + 1..])
  {
  }

  lemma WithoutCons<K, V>(e: (K, V), b: seq<(K, V)>, k: K)
    ensures Without([e] + b, k) == (if e.0 == k then [] else [e]) + Without(b, k)
  {
    assert ([e] + b)[0] == e && ([e] + b)[1..] == b;
  }

  /** Filtering out the key of the one entry between `a` and `b` that has it leaves `a + b`. */
  lemma WithoutMiddle<K, V>(a: seq<(K, V)>, e: (K, V), b: seq<(K, V)>)
    requires forall j :: 0 <= j < |a| ==> a[j].0 != e.0
    requires forall j :: 0 <= j < |b| ==> b[j].0 != e.0
    ensures Without(a + ([e] + b), e.0) == a + b
  {
    var k := e.0;
    calc {
      Without(a + ([e] + b), k);
      { WithoutConcat(a, [e] + b, k); }
      Without(a, k) + Without([e] + b, k);
      { WithoutCons(e, b, k); }
      Without(a, k) + Without(b, k);
      { WithoutAbsent(a, k); WithoutAbsent(b, k); }
      a + b;
    }
  }

  lemma WithoutAt<K, V>(s: seq<(K, V)>, i: nat)
    requires KeysDistinct(s) && i < |s|
    ensures Without(s, s[i].0) == s[..i] + s[i + 1..]
  {
    SplitAt(s, i);
    WithoutMiddle(s[..i], s[i], s[i + 1..]);
  }

  /**
   * `get` of a cached key moves only that entry: the others keep their
   * relative order, so the least recently used entry stays first.
   */
  lemma TouchKeepsOrder<K, V>(s: seq<(K, V)>, k: K)
    requires KeysDistinct(s) && Lookup(s, k).Some?
    ensures Touch(s, k) == Without(s, k) + [(k, Lookup(s, k).value)]
  {
    WithoutAt(s, IndexOf(s, k).value);
  }

  /** `get` reorders the entries without adding, losing or duplicating any. */
  lemma TouchPermutes<K, V>(s: seq<(K, V)>, k: K)
    ensures multiset(Touch(s, k)) == multiset(s)
    ensures KeysDistinct(s) ==> KeysDistinct(Touch(s, k))
    ensures Lookup(s, k).None? ==> Touch(s, k) == s
    ensures Lookup(s, k).Some? ==> |Touch(s, k)| > 0 && Touch(s, k)[|Touch(s, k)| - 1] == (k, Lookup(s, k).value)
  {
    match IndexOf(s, k)
    case None =>
    case Some(i) =>
      assert s == s[..i] + [s[i]] + s[i + 1..];
      if KeysDistinct(s) {
        DistinctWithout(s, i, s[..i] + s[i + 1..]);
        DistinctAppend(s[..i] + s[i + 1..], s[i]);
      }
  }

  /** `put` must evict the least recently used entry to make room for `k`. */
  predicate Evicts<K(==), V>(s: seq<(K, V)>, cap: nat, k: K) {
    IndexOf(s, k).None? && cap > 0 && |s| == cap
  }

  /**
   * `put`: an existing key gets the new value and becomes most recent; a new
   * key is appended as most recent after the least recently used entry is
   * evicted from a full cache. A cache of capacity 0 keeps nothing.
   */
  function Put<K(==), V>(s: seq<(K, V)>, cap: nat, k: K, v: V): (r: seq<(K, V)>)
    ensures cap > 0 ==> |r| > 0 && r[|r| - 1] == (k, v)
    ensures cap == 0 && Lookup(s, k).None? ==> r == s
    ensures |r| == if Lookup(s, k).None? && cap > 0 && |s| != cap then |s| + 1 else |s|
  {
    match IndexOf(s, k)
    case Some(i) => s[..i] + s[i + 1..] + [(k, v)]
    case None =>
      if cap == 0 then s
      else if |s| == cap then s[1..] + [(k, v)]
      else s + [(k, v)]
  }

  /** `put` keeps the cache within its capacity and its keys distinct. */
  lemma PutKeepsInvariant<K, V>(s: seq<(K, V)>, cap: nat, k: K, v: V)
    requires |s| <= cap && KeysDistinct(s)
    ensures |Put(s, cap, k, v)| <= cap && KeysDistinct(Put(s, cap, k, v))
  {
    match IndexOf(s, k)
    case Some(i) =>
      DistinctWithout(s, i, s[..i] + s[i + 1..]);
      DistinctAppend(s[..i] + s[i + 1..], (k, v));
    case None =>
      if cap > 0 && |s| == cap {
        assert forall j :: 0 <= j < |s[1..]| ==> s[1..][j] == s[j + 1];
        DistinctAppend(s[1..], (k, v));
      } else if cap > 0 {
        DistinctAppend(s, (k, v));
      }
  }

  /** After `put` into a cache of non-zero capacity, `k` is the most recent entry and maps to `v`. */
  lemma PutThenLookup<K, V>(s: seq<(K, V)>, cap: nat, k: K, v: V)
    requires cap > 0 && |s| <= cap && KeysDistinct(s)
    ensures |Put(s, cap, k, v)| > 0 && Put(s, cap, k, v)[|Put(s, cap, k, v)| - 1] == (k, v)
    ensures Lookup(Put(s, cap, k, v), k) == Some(v)
  {
    PutKeepsInvariant(s, cap, k, v);
  }

  /**
   * `put` adds only `(k, v)` and keeps every entry of another key, except the
   * least recently used one when it has to evict.
   */
  lemma PutKeepsOthers<K, V>(s: seq<(K, V)>, cap: nat, k: K, v: V)
    ensures forall e :: e in Put(s, cap, k, v) ==> e in s || e == (k, v)
    ensures forall e :: e in s && e.0 != k && !(Evicts(s, cap, k) && e == s[0]) ==> e in Put(s, cap, k, v)
  {
    match IndexOf(s, k)
    case Some(i) =>
      assert s == s[..i] + [s[i]] + s[i + 1..];
    case None =>
      if cap > 0 && |s| == cap {
        assert s == [s[0]] + s[1..];
      }
  }

  /**
   * `put` into a cache of non-zero capacity keeps the other entries in their
   * recency order, drops the least recently used one when it must evict, and
   * appends the new entry as the most recent.
   */
  lemma PutKeepsOrder<K, V>(s: seq<(K, V)>, cap: nat, k: K, v: V)
    requires cap > 0 && KeysDistinct(s)
    ensures Put(s, cap, k, v) == (if Evicts(s, cap, k) then Without(s, k)[1..] else Without(s, k)) + [(k, v)]
  {
    match IndexOf(s, k)
    case Some(i) =>
      WithoutAt(s, i);
    case None =>
      WithoutAbsent(s, k);
  }

  /**
   * The handles `put` lets go of: the value it replaces, the evicted least
   * recently used value, or, at capacity 0, the value it was given.
   */
  function Displaced<K(==), V>(s: seq<(K, V)>, cap: nat, k: K, v: V): (r: seq<V>)
    ensures |r| <= 1
    ensures |Put(s, cap, k, v)| + |r| == |s| + 1
    ensures Lookup(s, k).Some? ==> r == [Lookup(s, k).value]
  {
    match IndexOf(s, k)
    case Some(i) => [s[i].1]
    case None =>
      if cap == 0 then [v]
      else if |s| == cap then [s[0].1]
      else []
  }

  /** Taking `x` out from between `a` and `b` and appending `y` trades `x`'s value for `y`'s. */
  lemma ValuesReplace<K, V>(a: seq<(K, V)>, x: (K, V), b: seq<(K, V)>, y: (K, V))
    ensures multiset(Values(a + b + [y])) + multiset{x.1} == multiset(Values(a + [x] + b)) + multiset{y.1}
  {
    ValuesConcat(a + [x], b);
    ValuesConcat(a, [x]);
    ValuesConcat(a + b, [y]);
    ValuesConcat(a, b);
    assert Values([x]) == [x.1] && Values([y]) == [y.1];
  }

  /**
   * `put` loses no handle: what stays cached and what it lets go of are
   * together the old contents plus the new value.
   */
  lemma {:induction false} PutConserves<K, V>(s: seq<(K, V)>, cap: nat, k: K, v: V)
    requires |s| <= cap
    ensures multiset(Values(Put(s, cap, k, v))) + multiset(Displaced(s, cap, k, v))
         == multiset(Values(s)) + multiset{v}
  {
    match IndexOf(s, k)
    case Some(i) =>
      assert s == s[..i] + [s[i]] + s[i + 1..];
      ValuesReplace(s[..i], s[i], s[i + 1..], (k, v));
    case None =>
      if cap == 0 {
      } else if |s| == cap {
        ValuesReplace([], s[0], s[1..], (k, v));
        assert [] + [s[0]] + s[1..] == s;
        assert [] + s[1..] + [(k, v)] == Put(s, cap, k, v);
      } else {
        ValuesConcat(s, [(k, v)]);
        assert Values([(k, v)]) == [v];
      }
  }

  /**
   * `resize`: the cache keeps its `n` most recently used entries, evicting
   * from the least recent end.
   */
  function Truncate<K, V>(s: seq<(K, V)>, n: nat): (r: seq<(K, V)>)
    ensures |r| == if |s| <= n then |s| else n
    ensures r == s[|s| - |r|..]
    ensures KeysDistinct(s) ==> KeysDistinct(r)
  {
    if |s| <= n then s else s[|s| - n..]
  }
}
