/**
 * Iterator positions over the two-level adjacency index.
 *
 * The C++ iterator holds `curr_map_iter_` (which bucket) and
 * `curr_set_iter_` (which entry of that bucket); here they are the indices
 * `outer` and `inner`. The end iterator is `(|adj|, 0)`: past the last
 * bucket, with a value-initialised inner iterator. `Index` maps a position
 * to its place in the flattened edge sequence, which is how the lemmas below
 * state what `++`, `--`, `*` and erasure do.
 */
module Positions {
  import opened Ordering
  import opened Adjacency

  datatype Pos = Pos(outer: nat, inner: nat)

  /** A position at an entry of some bucket, or the end position. */
  predicate ValidPos(adj: seq<Bucket>, p: Pos) {
    if p.outer < |adj| then p.inner < |adj[p.outer].outs| else p.outer == |adj| && p.inner == 0
  }

  /** `begin()`: the first entry of the first bucket; with no buckets this is `end()`. */
  function Begin(adj: seq<Bucket>): Pos {
    Pos(0, 0)
  }

  /** `end()`. */
  function End(adj: seq<Bucket>): Pos {
    Pos(|adj|, 0)
  }

  /** `operator*`: the triple at a position that is not the end. */
  function Deref(adj: seq<Bucket>, p: Pos): Edge
    requires ValidPos(adj, p) && p.outer < |adj|
  {
    Edge(adj[p.outer].src, adj[p.outer].outs[p.inner].dst, adj[p.outer].outs[p.inner].w)
  }

  /** The prefix up to and including bucket `k` lists that bucket's edges last. */
  lemma PrefixStep(adj: seq<Bucket>, k: int)
    requires 0 <= k < |adj|
    ensures Flatten(adj[..k + 1]) == Flatten(adj[..k]) + Spread(adj[k])
  {
    assert adj[..k + 1] == adj[..k] + [adj[k]];
    FlattenConcat(adj[..k], [adj[k]]);
    assert [adj[k]][1..] == [];
  }

  /** The listing splits around bucket `k`. */
  lemma Split(adj: seq<Bucket>, k: int)
    requires 0 <= k < |adj|
    ensures Flatten(adj) == Flatten(adj[..k]) + Spread(adj[k]) + Flatten(adj[k + 1..])
  {
    assert adj == adj[..k + 1] + adj[k + 1..];
    FlattenConcat(adj[..k + 1], adj[k + 1..]);
    PrefixStep(adj, k);
  }

  /** Positions in later buckets have larger indices. */
  lemma {:induction false} PrefixGrows(adj: seq<Bucket>, j: int, k: int)
    requires 0 <= j < k <= |adj|
    ensures |Flatten(adj[..j])| + |adj[j].outs| <= |Flatten(adj[..k])|
    decreases k - j
  {
    PrefixStep(adj, j);
    if j + 1 < k {
      PrefixGrows(adj, j + 1, k);
    }
  }

  /** The place of a position in the flattened edge sequence; the end comes after every edge. */
  function Index(adj: seq<Bucket>, p: Pos): (n: nat)
    requires ValidPos(adj, p)
    ensures p.outer < |adj| ==> n < |Flatten(adj)|
    ensures p.outer == |adj| ==> n == |Flatten(adj)|
  {
    assert adj[..|adj|] == adj;
    if p.outer < |adj| then
      PrefixGrows(adj, p.outer, |adj|);
      |Flatten(adj[..p.outer])| + p.inner
    else
      |Flatten(adj[..p.outer])| + p.inner
  }

  /** `*it` is the element of the flattened listing at the iterator's index. */
  lemma DerefIsIndexed(adj: seq<Bucket>, p: Pos)
    requires ValidPos(adj, p) && p.outer < |adj|
    ensures Index(adj, p) < |Flatten(adj)|
    ensures Flatten(adj)[Index(adj, p)] == Deref(adj, p)
  {
    Split(adj, p.outer);
  }

  /** With no empty bucket, distinct positions have distinct indices. */
  lemma IndexInjective(adj: seq<Bucket>, p: Pos, q: Pos)
    requires ValidAdj(adj) && ValidPos(adj, p) && ValidPos(adj, q)
    ensures Index(adj, p) == Index(adj, q) <==> p == q
    ensures p.outer < q.outer ==> Index(adj, p) < Index(adj, q)
  {
    if p.outer < q.outer {
      PrefixGrows(adj, p.outer, q.outer);
    } else if q.outer < p.outer {
      PrefixGrows(adj, q.outer, p.outer);
    }
  }

  /** `begin() == end()` exactly when the graph has no edges. */
  lemma BeginIsEnd(adj: seq<Bucket>)
    requires ValidAdj(adj)
    ensures ValidPos(adj, Begin(adj)) && Index(adj, Begin(adj)) == 0
    ensures Begin(adj) == End(adj) <==> Flatten(adj) == []
  {
    assert adj[..0] == [];
    if adj != [] {
      assert |Spread(adj[0])| > 0;
    }
  }

  /**
   * `operator++`: the next entry of the bucket, or else the first entry of
   * the next bucket, or else the end.
   */
  function Next(adj: seq<Bucket>, p: Pos): (r: Pos)
    requires ValidAdj(adj) && ValidPos(adj, p) && p.outer < |adj|
    ensures ValidPos(adj, r) && Index(adj, r) == Index(adj, p) + 1
  {
    PrefixStep(adj, p.outer);
    if p.inner + 1 < |adj[p.outer].outs| then Pos(p.outer, p.inner + 1) else Pos(p.outer + 1, 0)
  }

  /**
   * `operator--`: from the end, the last entry of the last bucket; otherwise
   * the previous entry of the bucket, or the last entry of the previous
   * bucket; at the first entry of the first bucket it stays put. The end of
   * a graph without edges cannot be decremented (`std::prev` on an empty map).
   */
  function Prev(adj: seq<Bucket>, p: Pos): (r: Pos)
    requires ValidAdj(adj) && ValidPos(adj, p) && adj != []
    ensures ValidPos(adj, r)
    ensures Index(adj, p) > 0 ==> Index(adj, r) == Index(adj, p) - 1
    ensures Index(adj, p) == 0 ==> r == p
  {
    if p.outer == |adj| then
      PrefixStep(adj, |adj| - 1);
      assert adj[..|adj|] == adj;
      Pos(|adj| - 1, |adj[|adj| - 1].outs| - 1)
    else if p.inner == 0 then
      if p.outer != 0 then
        PrefixStep(adj, p.outer - 1);
        Pos(p.outer - 1, |adj[p.outer - 1].outs| - 1)
      else
        p
    else
      Pos(p.outer, p.inner - 1)
  }

  /** `--` undoes `++`. */
  lemma PrevUndoesNext(adj: seq<Bucket>, p: Pos)
    requires ValidAdj(adj) && ValidPos(adj, p) && p.outer < |adj|
    ensures Prev(adj, Next(adj, p)) == p
  {
    IndexInjective(adj, Prev(adj, Next(adj, p)), p);
  }

  /** `++` undoes `--` everywhere except at `begin()`, where `--` has no effect. */
  lemma NextUndoesPrev(adj: seq<Bucket>, p: Pos)
    requires ValidAdj(adj) && ValidPos(adj, p) && adj != [] && Index(adj, p) > 0
    ensures Prev(adj, p).outer < |adj| && Next(adj, Prev(adj, p)) == p
  {
    var q := Prev(adj, p);
    IndexInjective(adj, Next(adj, q), p);
  }

  /** `--end()` is the last edge in iteration order. */
  lemma PrevOfEndIsLast(adj: seq<Bucket>)
    requires ValidAdj(adj) && adj != []
    ensures Prev(adj, End(adj)).outer < |adj|
    ensures Deref(adj, Prev(adj, End(adj))) == Flatten(adj)[|Flatten(adj)| - 1]
  {
    var q := Prev(adj, End(adj));
    assert |Flatten(adj)| > 0 by {
      assert |Spread(adj[0])| == |adj[0].outs| > 0;
    }
    assert Index(adj, q) == |Flatten(adj)| - 1;
    DerefIsIndexed(adj, q);
  }

  /** The edges met by stepping `++` from `p` until the end. */
  function Walk(adj: seq<Bucket>, p: Pos): seq<Edge>
    requires ValidAdj(adj) && ValidPos(adj, p)
    decreases |Flatten(adj)| - Index(adj, p)
  {
    if p.outer == |adj| then [] else [Deref(adj, p)] + Walk(adj, Next(adj, p))
  }

  /** Stepping from `p` visits the listing from `p`'s index on, each edge once. */
  lemma {:induction false} WalkIsSuffix(adj: seq<Bucket>, p: Pos)
    requires ValidAdj(adj) && ValidPos(adj, p)
    ensures Walk(adj, p) == Flatten(adj)[Index(adj, p)..]
    decreases |Flatten(adj)| - Index(adj, p)
  {
    if p.outer < |adj| {
      DerefIsIndexed(adj, p);
      WalkIsSuffix(adj, Next(adj, p));
    }
  }

  /**
   * Stepping `++` from `begin()` to `end()` visits every edge exactly once,
   * in strictly ascending (from, to, weight) order.
   */
  lemma Traversal(adj: seq<Bucket>)
    requires ValidAdj(adj)
    ensures Walk(adj, Begin(adj)) == Flatten(adj)
    ensures Ascending(Walk(adj, Begin(adj)), EdgeLt)
    ensures Elems(Walk(adj, Begin(adj))) == Edges(adj)
  {
    BeginIsEnd(adj);
    WalkIsSuffix(adj, Begin(adj));
    FlattenAscending(adj);
  }

  /**
   * The buckets after `std::set::erase` of the entry at `p`, with the bucket
   * itself erased from the map when that leaves it empty.
   */
  function EraseEntry(adj: seq<Bucket>, p: Pos): seq<Bucket>
    requires ValidPos(adj, p) && p.outer < |adj|
  {
    var b := adj[p.outer];
    var rest := b.outs[..p.inner] + b.outs[p.inner + 1..];
    if rest == [] then adj[..p.outer] + adj[p.outer + 1..] else adj[p.outer := Bucket(b.src, rest)]
  }

  lemma PrefixAround(adj: seq<Bucket>, o: int, k: int)
    requires 0 <= o < k <= |adj|
    ensures Flatten(adj[..k]) == Flatten(adj[..o]) + Spread(adj[o]) + Flatten(adj[o + 1..k])
  {
    Split(adj[..k], o);
    assert adj[..k][..o] == adj[..o] && adj[..k][o + 1..] == adj[o + 1..k];
  }

  /** Cutting one element out of the middle part of a three-part sequence. */
  lemma CutMiddle<T>(f: seq<T>, a: seq<T>, m: seq<T>, c: seq<T>, n: int, i: int)
    requires f == a + m + c && 0 <= i < |m| && n == |a| + i
    ensures f[..n] + f[n + 1..] == a + (m[..i] + m[i + 1..]) + c
  {
    assert f[..n] == a + m[..i];
    assert f[n + 1..] == m[i + 1..] + c;
  }

  /**
   * Erasing the element at `lo` from a sequence that lacks the slice
   * `[lo, k)` of `f` widens the missing slice by one.
   */
  lemma WidenGap<T>(f: seq<T>, g: seq<T>, lo: int, k: int)
    requires 0 <= lo <= k < |f| && g == f[..lo] + f[k..]
    ensures g[..lo] + g[lo + 1..] == f[..lo] + f[k + 1..]
  {
    assert g[..lo] == f[..lo];
    assert g[lo + 1..] == f[k + 1..];
  }

  /** Erasing one entry keeps buckets ordered, non-empty and keyed in ascending order. */
  lemma EraseEntryValid(adj: seq<Bucket>, p: Pos)
    requires ValidAdj(adj) && ValidPos(adj, p) && p.outer < |adj|
    ensures ValidAdj(EraseEntry(adj, p))
  {
    var o, i := p.outer, p.inner;
    var b := adj[o];
    var rest := b.outs[..i] + b.outs[i + 1..];
    var adj' := EraseEntry(adj, p);
    if rest == [] {
      RemoveBucket(adj, o);
      forall t | 0 <= t < |adj'| ensures adj'[t].outs != [] && Ascending(adj'[t].outs, OutLt) {
        assert adj'[t] == if t < o then adj[t] else adj[t + 1];
      }
    } else {
      ReplaceBucket(adj, o, rest);
      OrdersAreStrictTotal();
      DropAt(b.outs, OutLt, i);
    }
  }

  /** Erasing one entry drops exactly that element of the listing. */
  lemma EraseEntryFlatten(adj: seq<Bucket>, p: Pos)
    requires ValidPos(adj, p) && p.outer < |adj|
    ensures Flatten(EraseEntry(adj, p)) ==
      Flatten(adj)[..Index(adj, p)] + Flatten(adj)[Index(adj, p) + 1..]
  {
    var o, i := p.outer, p.inner;
    var f, g := Flatten(adj), Flatten(EraseEntry(adj, p));
    var a, m, c := Flatten(adj[..o]), Spread(adj[o]), Flatten(adj[o + 1..]);
    assert f == a + m + c by {
      Split(adj, o);
    }
    assert g == a + (m[..i] + m[i + 1..]) + c by {
      EraseEntrySplit(adj, p);
    }
    CutEqual(f, g, a, m, c, Index(adj, p), i);
  }

  /** A sequence built like `f` but without the `i`-th element of its middle part is `f` without element `n`. */
  lemma CutEqual<T>(f: seq<T>, g: seq<T>, a: seq<T>, m: seq<T>, c: seq<T>, n: int, i: int)
    requires f == a + m + c && 0 <= i < |m| && n == |a| + i
    requires g == a + (m[..i] + m[i + 1..]) + c
    ensures g == f[..n] + f[n + 1..]
  {
    CutMiddle(f, a, m, c, n, i);
  }

  lemma EraseEntrySplit(adj: seq<Bucket>, p: Pos)
    requires ValidPos(adj, p) && p.outer < |adj|
    ensures Flatten(EraseEntry(adj, p)) ==
      Flatten(adj[..p.outer]) + (Spread(adj[p.outer])[..p.inner] + Spread(adj[p.outer])[p.inner + 1..])
        + Flatten(adj[p.outer + 1..])
  {
    if |adj[p.outer].outs| == 1 {
      EraseBucketFlatten(adj, p);
    } else {
      EraseInBucketFlatten(adj, p);
    }
  }

  lemma EraseBucketFlatten(adj: seq<Bucket>, p: Pos)
    requires ValidPos(adj, p) && p.outer < |adj| && |adj[p.outer].outs| == 1
    ensures Flatten(EraseEntry(adj, p)) ==
      Flatten(adj[..p.outer]) + (Spread(adj[p.outer])[..p.inner] + Spread(adj[p.outer])[p.inner + 1..])
        + Flatten(adj[p.outer + 1..])
  {
    var o, i := p.outer, p.inner;
    var b := adj[o];
    assert b.outs[..i] + b.outs[i + 1..] == [];
    assert EraseEntry(adj, p) == adj[..o] + adj[o + 1..];
    FlattenConcat(adj[..o], adj[o + 1..]);
    assert Spread(b)[..i] + Spread(b)[i + 1..] == [];
  }

  lemma EraseInBucketFlatten(adj: seq<Bucket>, p: Pos)
    requires ValidPos(adj, p) && p.outer < |adj| && |adj[p.outer].outs| > 1
    ensures Flatten(EraseEntry(adj, p)) ==
      Flatten(adj[..p.outer]) + (Spread(adj[p.outer])[..p.inner] + Spread(adj[p.outer])[p.inner + 1..])
        + Flatten(adj[p.outer + 1..])
  {
    var o, i := p.outer, p.inner;
    var b := adj[o];
    var rest := b.outs[..i] + b.outs[i + 1..];
    assert |rest| == |b.outs| - 1;
    var adj' := EraseEntry(adj, p);
    assert adj' == adj[o := Bucket(b.src, rest)];
    Split(adj', o);
    assert adj'[..o] == adj[..o] && adj'[o + 1..] == adj[o + 1..];
    assert Spread(adj'[o]) == Spread(b)[..i] + Spread(b)[i + 1..];
  }

  /** How the prefix before bucket `k > p.outer` shrinks when the entry at `p` is erased. */
  lemma ErasedPrefix(adj: seq<Bucket>, p: Pos, k: int)
    requires ValidPos(adj, p) && p.outer < k <= |adj|
    ensures var removed := |adj[p.outer].outs| == 1;
      var adj' := EraseEntry(adj, p);
      var k' := if removed then k - 1 else k;
      && k' <= |adj'| && |adj'| == |adj| - (if removed then 1 else 0)
      && |Flatten(adj'[..k'])| + 1 == |Flatten(adj[..k])|
      && (k < |adj| ==> adj'[k'] == adj[k])
  {
    var o, i := p.outer, p.inner;
    var b := adj[o];
    var rest := b.outs[..i] + b.outs[i + 1..];
    var adj' := EraseEntry(adj, p);
    PrefixAround(adj, o, k);
    if |b.outs| == 1 {
      assert rest == [];
      assert adj'[..k - 1] == adj[..o] + adj[o + 1..k];
      FlattenConcat(adj[..o], adj[o + 1..k]);
    } else {
      assert |rest| == |b.outs| - 1;
      PrefixAround(adj', o, k);
      assert adj'[..o] == adj[..o] && adj'[o + 1..k] == adj[o + 1..k];
    }
  }

  /**
   * Where the element at `q`, later than `p`, sits once the entry at `p` is
   * erased: the C++ iterators stay attached to their element, so the index
   * model re-derives its position.
   */
  function Relocate(adj: seq<Bucket>, p: Pos, q: Pos): (r: Pos)
    requires ValidAdj(adj) && ValidPos(adj, p) && p.outer < |adj| && ValidPos(adj, q)
    requires Index(adj, p) < Index(adj, q)
    ensures ValidPos(EraseEntry(adj, p), r)
    ensures Index(EraseEntry(adj, p), r) == Index(adj, q) - 1
  {
    IndexInjective(adj, q, p);
    var adj' := EraseEntry(adj, p);
    if q.outer == p.outer then
      assert adj'[..p.outer] == adj[..p.outer];
      Pos(q.outer, q.inner - 1)
    else if |adj[p.outer].outs| == 1 then
      ErasedPrefix(adj, p, q.outer);
      Pos(q.outer - 1, q.inner)
    else
      ErasedPrefix(adj, p, q.outer);
      q
  }

  /** `find`'s position for an edge: its entry, or the end when the edge is absent. */
  function Locate(adj: seq<Bucket>, e: Edge): (r: Pos)
    requires ValidAdj(adj)
    ensures ValidPos(adj, r)
    ensures r == End(adj) <==> e !in Flatten(adj)
    ensures r != End(adj) ==> r.outer < |adj| && Deref(adj, r) == e
  {
    match FindBucket(adj, e.from)
    case None =>
      NoBucketNoEdges(adj, e);
      End(adj)
    case Some(k) =>
      BucketEdges(adj, k, e);
      match FindOut(adj[k].outs, Out(e.to, e.weight))
      case None => End(adj)
      case Some(i) => Pos(k, i)
  }
}
