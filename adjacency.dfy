/**
 * The graph's representation as values: the adjacency index `edges_rep_` is a
 * sequence of buckets in ascending source order, each bucket a strictly
 * ascending sequence of `(dst, weight)` entries. Nodes are compared by value
 * everywhere (`node_compare`, `edge_compare`), so the node addresses held in the
 * C++ representation are replaced by the node values themselves.
 */
module Adjacency {
  import opened Ordering
  import opened Results

  /** One entry of a source's bucket: `std::pair<N const*, E>`. */
  datatype Out = Out(dst: int, w: int)

  /** One entry of `edges_rep_`: a source node and its ordered bucket. */
  datatype Bucket = Bucket(src: int, outs: seq<Out>)

  /** The graph's `value_type`: the triple an iterator dereferences to. */
  datatype Edge = Edge(from: int, to: int, weight: int)

  /** `node_compare`. */
  function NodeLt(a: int, b: int): bool {
    a < b
  }

  /** The order of weights: `E`'s `<`. */
  function WeightLt(a: int, b: int): bool {
    a < b
  }

  /** `edge_compare`: destination first, then weight. */
  function OutLt(x: Out, y: Out): bool {
    if x.dst != y.dst then x.dst < y.dst else x.w < y.w
  }

  /** The order in which iteration presents edges: source, destination, weight. */
  function EdgeLt(x: Edge, y: Edge): bool {
    if x.from != y.from then x.from < y.from
    else if x.to != y.to then x.to < y.to
    else x.weight < y.weight
  }

  lemma OrdersAreStrictTotal()
    ensures IsStrictTotal(NodeLt) && IsStrictTotal(WeightLt) && IsStrictTotal(OutLt) && IsStrictTotal(EdgeLt)
  {
  }

  /** The outer map is ordered by source and holds each source once. */
  predicate KeysAscending(adj: seq<Bucket>) {
    forall i, j :: 0 <= i < j < |adj| ==> adj[i].src < adj[j].src
  }

  /** Every bucket is non-empty and ordered by destination, then weight. */
  predicate BucketsWellFormed(adj: seq<Bucket>) {
    forall i :: 0 <= i < |adj| ==> adj[i].outs != [] && Ascending(adj[i].outs, OutLt)
  }

  predicate ValidAdj(adj: seq<Bucket>) {
    KeysAscending(adj) && BucketsWellFormed(adj)
  }

  /** The edges of one bucket, in bucket order. */
  function Spread(b: Bucket): seq<Edge> {
    seq(|b.outs|, i requires 0 <= i < |b.outs| => Edge(b.src, b.outs[i].dst, b.outs[i].w))
  }

  /** All edges, bucket after bucket: the order in which the iterator visits them. */
  function Flatten(adj: seq<Bucket>): seq<Edge> {
    if adj == [] then [] else Spread(adj[0]) + Flatten(adj[1..])
  }

  /** The edge set of the graph. */
  ghost function Edges(adj: seq<Bucket>): set<Edge> {
    Elems(Flatten(adj))
  }

  /** The position of the first bucket whose source is not below `s`: `std::map::lower_bound`. */
  function LowerBound(adj: seq<Bucket>, s: int): (p: nat)
    requires KeysAscending(adj)
    ensures p <= |adj|
    ensures forall i :: 0 <= i < p ==> adj[i].src < s
    ensures forall i :: p <= i < |adj| ==> s <= adj[i].src
  {
    if adj == [] || s <= adj[0].src then 0 else 1 + LowerBound(adj[1..], s)
  }

  /** `edges_rep_.find(&s)`: the index of `s`'s bucket, if it has one. */
  function FindBucket(adj: seq<Bucket>, s: int): (r: Option<nat>)
    requires KeysAscending(adj)
    ensures r.Some? ==> r.value < |adj| && adj[r.value].src == s
    ensures r.None? ==> forall i :: 0 <= i < |adj| ==> adj[i].src != s
  {
    var p := LowerBound(adj, s);
    if p < |adj| && adj[p].src == s then Some(p) else None
  }

  /** `std::set::find` on a bucket: the index of entry `o`, if present. */
  function FindOut(outs: seq<Out>, o: Out): (r: Option<nat>)
    ensures r.Some? ==> r.value < |outs| && outs[r.value] == o
    ensures r.None? ==> o !in outs
  {
    if outs == [] then None
    else if outs[0] == o then Some(0)
    else match FindOut(outs[1..], o)
      case None => None
      case Some(i) => Some(i + 1)
  }

  lemma SpreadMember(b: Bucket, e: Edge)
    ensures e in Spread(b) <==> e.from == b.src && Out(e.to, e.weight) in b.outs
  {
    if Out(e.to, e.weight) in b.outs {
      var i :| 0 <= i < |b.outs| && b.outs[i] == Out(e.to, e.weight);
      assert Spread(b)[i] == Edge(b.src, e.to, e.weight);
    }
  }

  lemma {:induction false} FlattenConcat(a: seq<Bucket>, b: seq<Bucket>)
    ensures Flatten(a + b) == Flatten(a) + Flatten(b)
  {
    if a == [] {
      assert a + b == b;
    } else {
      assert (a + b)[0] == a[0];
      assert (a + b)[1..] == a[1..] + b;
      FlattenConcat(a[1..], b);
    }
  }

  /** An edge is listed exactly when its source has a bucket that holds `(to, weight)`. */
  lemma {:induction false} FlattenMember(adj: seq<Bucket>, e: Edge)
    ensures e in Flatten(adj) <==>
      exists k :: 0 <= k < |adj| && adj[k].src == e.from && Out(e.to, e.weight) in adj[k].outs
  {
    if adj != [] {
      FlattenMember(adj[1..], e);
      SpreadMember(adj[0], e);
      if e in Flatten(adj[1..]) {
        var k :| 0 <= k < |adj[1..]| && adj[1..][k].src == e.from && Out(e.to, e.weight) in adj[1..][k].outs;
        assert adj[k + 1] == adj[1..][k];
      }
      if exists k :: 0 <= k < |adj| && adj[k].src == e.from && Out(e.to, e.weight) in adj[k].outs {
        var k :| 0 <= k < |adj| && adj[k].src == e.from && Out(e.to, e.weight) in adj[k].outs;
        if k > 0 {
          assert adj[1..][k - 1] == adj[k];
        }
      }
    }
  }

  /** With sources unique, the edges from bucket `k`'s source are exactly that bucket's entries. */
  lemma BucketEdges(adj: seq<Bucket>, k: int, e: Edge)
    requires KeysAscending(adj) && 0 <= k < |adj| && e.from == adj[k].src
    ensures e in Flatten(adj) <==> Out(e.to, e.weight) in adj[k].outs
  {
    FlattenMember(adj, e);
  }

  /** A source without a bucket has no outgoing edge. */
  lemma NoBucketNoEdges(adj: seq<Bucket>, e: Edge)
    requires forall i :: 0 <= i < |adj| ==> adj[i].src != e.from
    ensures e !in Flatten(adj)
  {
    FlattenMember(adj, e);
  }

  /** The source of a listed edge has a bucket. */
  lemma HasBucket(adj: seq<Bucket>, e: Edge)
    requires KeysAscending(adj) && e in Flatten(adj)
    ensures FindBucket(adj, e.from).Some?
  {
    FlattenMember(adj, e);
  }

  /** A source without a bucket starts no edge. */
  lemma NoBucketNoSource(adj: seq<Bucket>, s: int)
    requires forall i :: 0 <= i < |adj| ==> adj[i].src != s
    ensures forall e :: e in Flatten(adj) ==> e.from != s
  {
    forall e | e in Flatten(adj) ensures e.from != s {
      FlattenMember(adj, e);
    }
  }

  /** `edges_rep_.erase` of bucket `k` keeps the index well formed and drops exactly the edges out of its source. */
  lemma DropBucket(adj: seq<Bucket>, k: int)
    requires ValidAdj(adj) && 0 <= k < |adj|
    ensures ValidAdj(adj[..k] + adj[k + 1..])
    ensures forall e :: e in Flatten(adj[..k] + adj[k + 1..]) <==>
      e in Flatten(adj) && e.from != adj[k].src
  {
    var adj' := adj[..k] + adj[k + 1..];
    RemoveBucket(adj, k);
    forall t | 0 <= t < |adj'| ensures adj'[t].outs != [] && Ascending(adj'[t].outs, OutLt) {
      assert adj'[t] == adj[if t < k then t else t + 1];
    }
  }

  /** Replacing the entries of bucket `k` changes exactly the edges out of its source. */
  lemma ReplaceBucket(adj: seq<Bucket>, k: int, outs: seq<Out>)
    requires KeysAscending(adj) && 0 <= k < |adj|
    ensures KeysAscending(adj[k := Bucket(adj[k].src, outs)])
    ensures forall e :: e in Flatten(adj[k := Bucket(adj[k].src, outs)]) <==>
      if e.from == adj[k].src then Out(e.to, e.weight) in outs else e in Flatten(adj)
  {
    var adj' := adj[k := Bucket(adj[k].src, outs)];
    forall e ensures e in Flatten(adj') <==>
      if e.from == adj[k].src then Out(e.to, e.weight) in outs else e in Flatten(adj)
    {
      FlattenMember(adj, e);
      FlattenMember(adj', e);
      if e.from != adj[k].src && e in Flatten(adj) {
        var i :| 0 <= i < |adj| && adj[i].src == e.from && Out(e.to, e.weight) in adj[i].outs;
        assert adj'[i] == adj[i];
      }
      if e.from != adj[k].src && e in Flatten(adj') {
        var i :| 0 <= i < |adj'| && adj'[i].src == e.from && Out(e.to, e.weight) in adj'[i].outs;
        assert adj'[i] == adj[i];
      }
      if e.from == adj[k].src && Out(e.to, e.weight) in outs {
        assert adj'[k].src == e.from && Out(e.to, e.weight) in adj'[k].outs;
      }
    }
  }

  /** Placing a bucket for a new source at its ordered position keeps the sources ascending. */
  lemma InsertBucketKeys(adj: seq<Bucket>, p: int, b: Bucket)
    requires KeysAscending(adj) && 0 <= p <= |adj|
    requires forall i :: 0 <= i < p ==> adj[i].src < b.src
    requires forall i :: p <= i < |adj| ==> b.src < adj[i].src
    ensures KeysAscending(adj[..p] + [b] + adj[p..])
  {
    var adj' := adj[..p] + [b] + adj[p..];
    forall i, j | 0 <= i < j < |adj'| ensures adj'[i].src < adj'[j].src {
      var x := if i < p then adj[i] else if i == p then b else adj[i - 1];
      var y := if j < p then adj[j] else if j == p then b else adj[j - 1];
      assert adj'[i] == x && adj'[j] == y;
    }
  }

  /** A bucket placed anywhere adds exactly its own edges. */
  lemma InsertBucket(adj: seq<Bucket>, p: int, b: Bucket)
    requires 0 <= p <= |adj|
    ensures forall e :: e in Flatten(adj[..p] + [b] + adj[p..]) <==>
      e in Flatten(adj) || (e.from == b.src && Out(e.to, e.weight) in b.outs)
  {
    FlattenConcat(adj[..p] + [b], adj[p..]);
    FlattenConcat(adj[..p], [b]);
    FlattenConcat(adj[..p], adj[p..]);
    assert adj[..p] + adj[p..] == adj;
    assert Flatten([b]) == Spread(b) by {
      assert [b][1..] == [];
    }
    forall e ensures e in Spread(b) <==> e.from == b.src && Out(e.to, e.weight) in b.outs {
      SpreadMember(b, e);
    }
  }

  /** Every bucket except possibly bucket `k` is non-empty and ordered. */
  predicate WellFormedExcept(adj: seq<Bucket>, k: int) {
    forall t :: 0 <= t < |adj| && t != k ==> adj[t].outs != [] && Ascending(adj[t].outs, OutLt)
  }

  /**
   * The empty bucket `insert_edge` emplaces for a source without one, at the
   * source's ordered position: no edge changes and only that bucket is empty.
   */
  lemma OpenBucket(adj: seq<Bucket>, src: int)
    requires ValidAdj(adj) && FindBucket(adj, src).None?
    ensures var p := LowerBound(adj, src);
      var adj' := adj[..p] + [Bucket(src, [])] + adj[p..];
      && p < |adj'| && adj'[p] == Bucket(src, [])
      && KeysAscending(adj') && WellFormedExcept(adj', p)
      && forall e :: e in Flatten(adj') <==> e in Flatten(adj)
  {
    var p := LowerBound(adj, src);
    var adj' := adj[..p] + [Bucket(src, [])] + adj[p..];
    InsertBucketKeys(adj, p, Bucket(src, []));
    InsertBucket(adj, p, Bucket(src, []));
    forall t | 0 <= t < |adj'| && t != p ensures adj'[t].outs != [] && Ascending(adj'[t].outs, OutLt) {
      assert adj'[t] == if t < p then adj[t] else adj[t - 1];
    }
  }

  /**
   * Replacing bucket `k`'s entries by an ordered set that adds `x` adds exactly
   * the edge from `k`'s source through `x`.
   */
  lemma AddToBucket(adj: seq<Bucket>, k: int, x: Out, outs: seq<Out>)
    requires KeysAscending(adj) && 0 <= k < |adj| && WellFormedExcept(adj, k)
    requires outs != [] && Ascending(outs, OutLt)
    requires Elems(outs) == Elems(adj[k].outs) + {x}
    ensures ValidAdj(adj[k := Bucket(adj[k].src, outs)])
    ensures forall e :: e in Flatten(adj[k := Bucket(adj[k].src, outs)]) <==>
      e in Flatten(adj) || e == Edge(adj[k].src, x.dst, x.w)
  {
    var adj' := adj[k := Bucket(adj[k].src, outs)];
    ReplaceBucket(adj, k, outs);
    forall t | 0 <= t < |adj'| ensures adj'[t].outs != [] && Ascending(adj'[t].outs, OutLt) {
      if t != k {
        assert adj'[t] == adj[t];
      }
    }
    forall e ensures e in Flatten(adj') <==> e in Flatten(adj) || e == Edge(adj[k].src, x.dst, x.w) {
      if e.from == adj[k].src {
        BucketEdges(adj, k, e);
        assert Out(e.to, e.weight) in outs <==> Out(e.to, e.weight) in Elems(outs);
      }
    }
  }

  /** Dropping bucket `k` removes exactly the edges out of its source. */
  lemma RemoveBucket(adj: seq<Bucket>, k: int)
    requires KeysAscending(adj) && 0 <= k < |adj|
    ensures KeysAscending(adj[..k] + adj[k + 1..])
    ensures forall e :: e in Flatten(adj[..k] + adj[k + 1..]) <==>
      e in Flatten(adj) && e.from != adj[k].src
  {
    var adj' := adj[..k] + adj[k + 1..];
    forall i, j | 0 <= i < j < |adj'| ensures adj'[i].src < adj'[j].src {
      var i' := if i < k then i else i + 1;
      var j' := if j < k then j else j + 1;
      assert adj'[i] == adj[i'] && adj'[j] == adj[j'];
    }
    forall e ensures e in Flatten(adj') <==> e in Flatten(adj) && e.from != adj[k].src {
      RemoveBucketMember(adj, k, e);
    }
  }

  lemma RemoveBucketMember(adj: seq<Bucket>, k: int, e: Edge)
    requires KeysAscending(adj) && 0 <= k < |adj|
    ensures e in Flatten(adj[..k] + adj[k + 1..]) <==> e in Flatten(adj) && e.from != adj[k].src
  {
    if e in Flatten(adj) && e.from != adj[k].src {
      KeptByRemoval(adj, k, e);
    }
    if e in Flatten(adj[..k] + adj[k + 1..]) {
      KeptBeforeRemoval(adj, k, e);
    }
  }

  lemma KeptByRemoval(adj: seq<Bucket>, k: int, e: Edge)
    requires 0 <= k < |adj| && e in Flatten(adj) && e.from != adj[k].src
    ensures e in Flatten(adj[..k] + adj[k + 1..])
  {
    var adj' := adj[..k] + adj[k + 1..];
    FlattenMember(adj, e);
    var i :| 0 <= i < |adj| && adj[i].src == e.from && Out(e.to, e.weight) in adj[i].outs;
    assert i != k;
    var i' := if i < k then i else i - 1;
    assert adj'[i'] == adj[i] by {
      DropIndex(adj, k, i');
    }
    InBucket(adj', i', e);
  }

  lemma KeptBeforeRemoval(adj: seq<Bucket>, k: int, e: Edge)
    requires KeysAscending(adj) && 0 <= k < |adj| && e in Flatten(adj[..k] + adj[k + 1..])
    ensures e in Flatten(adj) && e.from != adj[k].src
  {
    var adj' := adj[..k] + adj[k + 1..];
    FlattenMember(adj', e);
    var i :| 0 <= i < |adj'| && adj'[i].src == e.from && Out(e.to, e.weight) in adj'[i].outs;
    DropIndex(adj, k, i);
    InBucket(adj, if i < k then i else i + 1, e);
  }

  /** An entry of a bucket is listed as an edge out of the bucket's source. */
  lemma InBucket(adj: seq<Bucket>, i: int, e: Edge)
    requires 0 <= i < |adj| && adj[i].src == e.from && Out(e.to, e.weight) in adj[i].outs
    ensures e in Flatten(adj)
  {
    FlattenMember(adj, e);
  }

  /** Every listed edge comes after every edge of an earlier bucket. */
  lemma {:induction false} FlattenAscending(adj: seq<Bucket>)
    requires ValidAdj(adj)
    ensures Ascending(Flatten(adj), EdgeLt)
  {
    if adj != [] {
      var b := adj[0];
      FlattenAscending(adj[1..]);
      OrdersAreStrictTotal();
      forall i, j | 0 <= i < j < |Spread(b)| ensures EdgeLt(Spread(b)[i], Spread(b)[j]) {
        assert OutLt(b.outs[i], b.outs[j]);
      }
      forall x, y | x in Spread(b) && y in Flatten(adj[1..]) ensures EdgeLt(x, y) {
        FlattenMember(adj[1..], y);
        var k :| 0 <= k < |adj[1..]| && adj[1..][k].src == y.from && Out(y.to, y.weight) in adj[1..][k].outs;
        assert adj[1..][k] == adj[k + 1];
        SpreadMember(b, x);
      }
      Concat(Spread(b), Flatten(adj[1..]), EdgeLt);
    }
  }
}
