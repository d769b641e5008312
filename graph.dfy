/**
 * `gdwg::graph<int, int>`: a directed weighted multigraph whose node store
 * (`nodes_rep_`) and adjacency index (`edges_rep_`) are fields that the
 * operations update in place, and its bidirectional edge iterator.
 */
module Gdwg {
  import opened Ordering
  import opened Results
  import opened Adjacency
  import opened Positions
  import opened GraphState
  import opened Printing

  /**
   * The re-pointing loop of `replace_node` and `merge_replace_node` over one
   * bucket: every entry aimed at `o` is extracted and re-inserted aimed at
   * `n`; a re-inserted entry that is already present is dropped, as
   * `std::set::insert` of a node handle does.
   */
  method RetargetBucket(outs: seq<Out>, o: int, n: int) returns (r: seq<Out>)
    requires Ascending(outs, OutLt) && o != n
    ensures Ascending(r, OutLt)
    ensures Elems(r) == RetargetAll(outs, o, n)
  {
    OrdersAreStrictTotal();
    r := outs;
    var j := 0;
    while j < |outs|
      invariant 0 <= j <= |outs|
      invariant Ascending(r, OutLt)
      invariant Elems(r) == RetargetAll(outs[..j], o, n) + Elems(outs[j..])
    {
      var x := outs[j];
      assert outs[..j + 1] == outs[..j] + [x];
      assert outs[j..] == [x] + outs[j + 1..];
      if x.dst == o {
        NoDuplicates(outs, OutLt);
        assert x !in outs[j + 1..];
        assert x !in RetargetAll(outs[..j], o, n);
        RemoveAscending(r, x, OutLt);
        r := Insert(Remove(r, x), Out(n, x.w), OutLt);
      }
      RetargetAllSnoc(outs[..j], x, o, n);
      j := j + 1;
    }
    assert outs[..j] == outs;
  }

  /** The inner loop of `erase_node` over one bucket: every entry aimed at `v` is erased. */
  method FilterBucket(outs: seq<Out>, v: int) returns (r: seq<Out>)
    requires Ascending(outs, OutLt)
    ensures Ascending(r, OutLt)
    ensures Elems(r) == set x | x in outs && x.dst != v
    ensures r == [] ==> forall x :: x in outs ==> x.dst == v
  {
    r := outs;
    var j := 0;
    while j < |outs|
      invariant 0 <= j <= |outs|
      invariant Ascending(r, OutLt)
      invariant Elems(r) == (set x | x in outs[..j] && x.dst != v) + Elems(outs[j..])
    {
      var x := outs[j];
      assert outs[..j + 1] == outs[..j] + [x];
      assert outs[j..] == [x] + outs[j + 1..];
      if x.dst == v {
        OrdersAreStrictTotal();
        NoDuplicates(outs, OutLt);
        assert x !in outs[j + 1..];
        RemoveAscending(r, x, OutLt);
        r := Remove(r, x);
      }
      j := j + 1;
    }
    assert outs[..j] == outs;
    assert forall x :: x in outs && x.dst != v ==> x in Elems(r);
  }

  /** The text has two lines per node and one line per edge. */
  lemma PrintedLines(nodes: seq<int>, adj: seq<Bucket>)
    requires ValidState(nodes, adj)
    ensures multiset(Render(nodes, adj))['\n'] == 2 * |nodes| + |Flatten(adj)|
  {
    SourcesAreNodes(nodes, adj);
    RenderLines(nodes, adj);
  }

  class Graph {
    /** `nodes_rep_`: the node values in ascending order. */
    var nodes: seq<int>
    /** `edges_rep_`: one bucket per source that has outgoing edges. */
    var adj: seq<Bucket>

    ghost predicate Valid()
      reads this
    {
      ValidState(nodes, adj)
    }

    ghost function NodeSet(): set<int>
      reads this
    {
      Elems(nodes)
    }

    ghost function EdgeSet(): set<Edge>
      reads this
    {
      Edges(adj)
    }

    /** `graph()`: no nodes and no edges. */
    constructor ()
      ensures Valid() && NodeSet() == {} && EdgeSet() == {}
    {
      nodes := [];
      adj := [];
    }

    /** `is_node`. */
    method IsNode(v: int) returns (r: bool)
      ensures r <==> v in NodeSet()
    {
      r := v in nodes;
    }

    /** `empty`: there are no nodes (and hence no edges). */
    method IsEmpty() returns (r: bool)
      requires Valid()
      ensures r <==> NodeSet() == {}
      ensures r ==> EdgeSet() == {}
    {
      r := |nodes| == 0;
      if !r {
        assert nodes[0] in NodeSet();
      }
    }

    /** `insert_node`: adds `v` unless it is already a node. */
    method InsertNode(v: int) returns (r: bool)
      requires Valid()
      modifies this
      ensures Valid()
      ensures r <==> v !in old(NodeSet())
      ensures NodeSet() == old(NodeSet()) + {v}
      ensures adj == old(adj)
    {
      var present := IsNode(v);
      if present {
        return false;
      }
      OrdersAreStrictTotal();
      nodes := Insert(nodes, v, NodeLt);
      assert forall u :: u in old(nodes) ==> u in old(NodeSet()) && u in NodeSet();
      return true;
    }

    /**
     * `insert_edge`: fails when an endpoint is not a node; otherwise adds the
     * edge, creating `src`'s bucket when it has none, and reports whether the
     * edge is new.
     */
    method InsertEdge(src: int, dst: int, w: int) returns (r: Result<bool>)
      requires Valid()
      modifies this
      ensures Valid()
      ensures nodes == old(nodes)
      ensures src !in old(NodeSet()) || dst !in old(NodeSet()) ==> r == NodeMissing && adj == old(adj)
      ensures src in old(NodeSet()) && dst in old(NodeSet()) ==>
        && r == Ok(Edge(src, dst, w) !in old(EdgeSet()))
        && EdgeSet() == old(EdgeSet()) + {Edge(src, dst, w)}
    {
      var hasSrc := IsNode(src);
      var hasDst := IsNode(dst);
      if !hasSrc || !hasDst {
        return NodeMissing;
      }
      ghost var before := adj;
      var k: nat;
      match FindBucket(adj, src) {
        case None =>
          OpenBucket(adj, src);
          var p := LowerBound(adj, src);
          adj := adj[..p] + [Bucket(src, [])] + adj[p..];
          k := p;
        case Some(i) =>
          k := i;
      }
      var outs := adj[k].outs;
      var entry := Out(dst, w);
      BucketEdges(adj, k, Edge(src, dst, w));
      if FindOut(outs, entry).Some? {
        return Ok(false);
      }
      OrdersAreStrictTotal();
      var outs' := Insert(outs, entry, OutLt);
      AddToBucket(adj, k, entry, outs');
      adj := adj[k := Bucket(src, outs')];
      r := Ok(true);
    }

    /**
     * `is_connected`: fails when an endpoint is not a node; otherwise tells
     * whether some edge, of any weight, runs from `src` to `dst`.
     */
    method IsConnected(src: int, dst: int) returns (r: Result<bool>)
      requires Valid()
      ensures src !in NodeSet() || dst !in NodeSet() ==> r == NodeMissing
      ensures src in NodeSet() && dst in NodeSet() ==>
        r == Ok(exists e :: e in EdgeSet() && e.from == src && e.to == dst)
    {
      var hasSrc := IsNode(src);
      var hasDst := IsNode(dst);
      if !hasSrc || !hasDst {
        return NodeMissing;
      }
      match FindBucket(adj, src) {
        case None =>
          forall e: Edge | e.from == src ensures e !in Flatten(adj) {
            NoBucketNoEdges(adj, e);
          }
          return Ok(false);
        case Some(k) =>
          var outs := adj[k].outs;
          var j := 0;
          while j < |outs|
            invariant 0 <= j <= |outs|
            invariant forall t :: 0 <= t < j ==> outs[t].dst != dst
          {
            if outs[j].dst == dst {
              BucketEdges(adj, k, Edge(src, dst, outs[j].w));
              return Ok(true);
            }
            j := j + 1;
          }
          forall e | e in Flatten(adj) && e.from == src ensures e.to != dst {
            BucketEdges(adj, k, e);
          }
          return Ok(false);
      }
    }

    /** `nodes`: every node once, in ascending order. */
    method Nodes() returns (r: seq<int>)
      requires Valid()
      ensures Ascending(r, NodeLt) && Elems(r) == NodeSet()
    {
      r := [];
      var i := 0;
      while i < |nodes|
        invariant 0 <= i <= |nodes|
        invariant r == nodes[..i]
      {
        r := r + [nodes[i]];
        i := i + 1;
      }
      assert nodes[..i] == nodes;
    }

    /**
     * `weights`: fails when an endpoint is not a node; otherwise the weights
     * of the edges from `src` to `dst`, in ascending order.
     */
    method Weights(src: int, dst: int) returns (r: Result<seq<int>>)
      requires Valid()
      ensures src !in NodeSet() || dst !in NodeSet() ==> r == NodeMissing
      ensures src in NodeSet() && dst in NodeSet() ==>
        && r.Ok? && Ascending(r.value, WeightLt)
        && forall w :: w in r.value <==> Edge(src, dst, w) in EdgeSet()
    {
      var hasSrc := IsNode(src);
      var hasDst := IsNode(dst);
      if !hasSrc || !hasDst {
        return NodeMissing;
      }
      match FindBucket(adj, src) {
        case None =>
          forall w ensures Edge(src, dst, w) !in Flatten(adj) {
            NoBucketNoEdges(adj, Edge(src, dst, w));
          }
          return Ok([]);
        case Some(k) =>
          var outs := adj[k].outs;
          var ws: seq<int> := [];
          assert Ascending(outs, OutLt);
          var j := 0;
          while j < |outs|
            invariant 0 <= j <= |outs|
            invariant Ascending(ws, WeightLt)
            invariant forall w :: w in ws <==> Out(dst, w) in outs[..j]
          {
            assert outs[..j + 1] == outs[..j] + [outs[j]];
            if outs[j].dst == dst {
              forall u | u in ws ensures u < outs[j].w {
                var t :| 0 <= t < j && outs[t] == Out(dst, u);
                assert OutLt(outs[t], outs[j]);
              }
              Concat(ws, [outs[j].w], WeightLt);
              ws := ws + [outs[j].w];
            }
            j := j + 1;
          }
          assert outs[..j] == outs;
          forall w ensures Out(dst, w) in outs <==> Edge(src, dst, w) in Flatten(adj) {
            BucketEdges(adj, k, Edge(src, dst, w));
          }
          return Ok(ws);
      }
    }

    /**
     * `connections`: fails when `src` is not a node; otherwise the distinct
     * destinations of `src`'s edges, in ascending order.
     */
    method Connections(src: int) returns (r: Result<seq<int>>)
      requires Valid()
      ensures src !in NodeSet() ==> r == NodeMissing
      ensures src in NodeSet() ==>
        && r.Ok? && Ascending(r.value, NodeLt)
        && forall d :: d in r.value <==> exists e :: e in EdgeSet() && e.from == src && e.to == d
    {
      var hasSrc := IsNode(src);
      if !hasSrc {
        return NodeMissing;
      }
      match FindBucket(adj, src) {
        case None =>
          forall e: Edge | e.from == src ensures e !in Flatten(adj) {
            NoBucketNoEdges(adj, e);
          }
          return Ok([]);
        case Some(k) =>
          var outs := adj[k].outs;
          var ds: seq<int> := [];
          var prev := outs[0].dst;
          assert Ascending(outs, OutLt);
          var j := 0;
          while j < |outs|
            invariant 0 <= j <= |outs|
            invariant Ascending(ds, NodeLt)
            invariant forall d :: d in ds <==> exists t :: 0 <= t < j && outs[t].dst == d
            invariant (j == 0) == (ds == [])
            invariant j > 0 ==> prev == outs[j - 1].dst && ds[|ds| - 1] == prev
          {
            if ds == [] || outs[j].dst != prev {
              if ds != [] {
                assert OutLt(outs[j - 1], outs[j]);
                forall u | u in ds ensures u < outs[j].dst {
                  var i :| 0 <= i < |ds| && ds[i] == u;
                  assert i == |ds| - 1 || ds[i] < ds[|ds| - 1];
                }
              }
              ds := ds + [outs[j].dst];
            }
            prev := outs[j].dst;
            j := j + 1;
          }
          forall d ensures d in ds <==> exists e :: e in Flatten(adj) && e.from == src && e.to == d {
            if d in ds {
              var t :| 0 <= t < |outs| && outs[t].dst == d;
              BucketEdges(adj, k, Edge(src, d, outs[t].w));
            }
            if exists e :: e in Flatten(adj) && e.from == src && e.to == d {
              var e :| e in Flatten(adj) && e.from == src && e.to == d;
              BucketEdges(adj, k, e);
              var t :| 0 <= t < |outs| && outs[t] == Out(e.to, e.weight);
            }
          }
          return Ok(ds);
      }
    }

    /** `clear`: no nodes and no edges remain. */
    method Clear()
      modifies this
      ensures Valid() && NodeSet() == {} && EdgeSet() == {}
    {
      nodes := [];
      adj := [];
    }

    /** `begin`: the first edge in iteration order; it is `end()` exactly when there are no edges. */
    method Begin() returns (it: Iterator)
      requires Valid()
      ensures fresh(it) && it.g == this && it.Valid()
      ensures it.Offset() == 0
      ensures it.pos == Positions.End(adj) <==> EdgeSet() == {}
    {
      BeginIsEnd(adj);
      if Flatten(adj) != [] {
        assert Flatten(adj)[0] in EdgeSet();
      }
      it := new Iterator.At(this, Positions.Begin(adj));
    }

    /** `end`: one past the last edge. */
    method End() returns (it: Iterator)
      requires Valid()
      ensures fresh(it) && it.g == this && it.Valid()
      ensures it.Offset() == |Flatten(adj)|
    {
      it := new Iterator.At(this, Positions.End(adj));
    }

    /**
     * `find`: the iterator at edge `(src, dst, w)`, or `end()` when there is no
     * such edge; a missing node is not an error here.
     */
    method Find(src: int, dst: int, w: int) returns (it: Iterator)
      requires Valid()
      ensures fresh(it) && it.g == this && it.Valid()
      ensures it.pos == Positions.End(adj) <==> Edge(src, dst, w) !in EdgeSet()
      ensures it.pos != Positions.End(adj) ==> it.pos.outer < |adj| && it.Current() == Edge(src, dst, w)
    {
      var hasDst := IsNode(dst);
      var p := if hasDst then Locate(adj, Edge(src, dst, w)) else Positions.End(adj);
      it := new Iterator.At(this, p);
    }

    /**
     * The body of `erase_edge(iterator)` on positions: steps a copy of the
     * position forward, erases the entry at `p` (and its bucket when that
     * empties it) and returns where the following edge now sits, which is the
     * erased edge's place in iteration order.
     */
    method EraseAt(p: Pos) returns (succ: Pos)
      requires Valid() && ValidPos(adj, p) && p.outer < |adj|
      modifies this
      ensures Valid() && nodes == old(nodes)
      ensures adj == EraseEntry(old(adj), p)
      ensures Flatten(adj) == old(Flatten(adj)[..Positions.Index(adj, p)] + Flatten(adj)[Positions.Index(adj, p) + 1..])
      ensures EdgeSet() == old(EdgeSet()) - {old(Positions.Deref(adj, p))}
      ensures ValidPos(adj, succ) && Positions.Index(adj, succ) == old(Positions.Index(adj, p))
    {
      var next := Next(adj, p);
      succ := Relocate(adj, p, next);
      EraseEntryState(nodes, adj, p);
      EraseEntryFlatten(adj, p);
      var o := p.outer;
      var rest := adj[o].outs[..p.inner] + adj[o].outs[p.inner + 1..];
      if rest == [] {
        adj := adj[..o] + adj[o + 1..];
      } else {
        adj := adj[o := Bucket(adj[o].src, rest)];
      }
      assert adj == EraseEntry(old(adj), p);
    }

    /**
     * `erase_edge(iterator)`: erases the edge at `i` and returns the iterator
     * at the edge that followed it.
     */
    method EraseEdgeAt(i: Iterator) returns (it: Iterator)
      requires Valid() && i.g == this && i.Valid() && i.pos.outer < |adj|
      modifies this
      ensures Valid() && nodes == old(nodes)
      ensures Flatten(adj) == old(Flatten(adj)[..i.Offset()] + Flatten(adj)[i.Offset() + 1..])
      ensures EdgeSet() == old(EdgeSet()) - {old(i.Current())}
      ensures fresh(it) && it.g == this && it.Valid() && it.Offset() == old(i.Offset())
    {
      var succ := EraseAt(i.pos);
      it := new Iterator.At(this, succ);
    }

    /**
     * `erase_edge(src, dst, weight)`: fails when an endpoint is not a node;
     * otherwise erases that edge and tells whether it existed.
     */
    method EraseEdge(src: int, dst: int, w: int) returns (r: Result<bool>)
      requires Valid()
      modifies this
      ensures Valid() && nodes == old(nodes)
      ensures src !in old(NodeSet()) || dst !in old(NodeSet()) ==> r == NodeMissing && adj == old(adj)
      ensures src in old(NodeSet()) && dst in old(NodeSet()) ==>
        && r == Ok(Edge(src, dst, w) in old(EdgeSet()))
        && EdgeSet() == old(EdgeSet()) - {Edge(src, dst, w)}
    {
      var hasSrc := IsNode(src);
      var hasDst := IsNode(dst);
      if !hasSrc || !hasDst {
        return NodeMissing;
      }
      var i := Find(src, dst, w);
      var last := End();
      var atEnd := i.Equals(last);
      if atEnd {
        return Ok(false);
      }
      var _ := EraseEdgeAt(i);
      return Ok(true);
    }

    /**
     * One round of `erase_edge(first, last)`: erases the edge at `p`, which
     * comes before `q`, and tells where `p`'s successor and `q`'s edge now
     * sit. The listing, which lacked the slice `[lo, k)` of `F`, now lacks
     * `[lo, k + 1)`.
     */
    method EraseBefore(p: Pos, q: Pos, ghost F: seq<Edge>, ghost lo: nat, ghost k: nat) returns (p': Pos, q': Pos)
      requires Valid() && ValidPos(adj, p) && ValidPos(adj, q) && p != q
      requires Positions.Index(adj, p) == lo && lo <= Positions.Index(adj, q)
      requires lo <= k <= |F| && Flatten(adj) == F[..lo] + F[k..]
      modifies this
      ensures Valid() && nodes == old(nodes)
      ensures k < |F| && Flatten(adj) == F[..lo] + F[k + 1..]
      ensures ValidPos(adj, p') && Positions.Index(adj, p') == lo
      ensures ValidPos(adj, q') && lo <= Positions.Index(adj, q') == old(Positions.Index(adj, q)) - 1
    {
      IndexInjective(adj, p, q);
      ghost var G := Flatten(adj);
      q' := Relocate(adj, p, q);
      p' := EraseAt(p);
      WidenGap(F, G, lo, k);
    }

    /**
     * The loop of `erase_edge(first, last)` on positions: erases the edge at
     * `p` until `p` reaches `q`, keeping `q` attached to its edge.
     */
    method EraseBetween(p: Pos, q: Pos) returns (r: Pos)
      requires Valid() && ValidPos(adj, p) && ValidPos(adj, q)
      requires Positions.Index(adj, p) <= Positions.Index(adj, q)
      modifies this
      ensures Valid() && nodes == old(nodes)
      ensures Flatten(adj) ==
        old(Flatten(adj)[..Positions.Index(adj, p)] + Flatten(adj)[Positions.Index(adj, q)..])
      ensures ValidPos(adj, r) && Positions.Index(adj, r) == old(Positions.Index(adj, p))
    {
      ghost var F := Flatten(adj);
      ghost var lo, hi := Positions.Index(adj, p), Positions.Index(adj, q);
      var stop := q;
      r := p;
      ghost var k := lo;
      assert F[..lo] + F[lo..] == F;
      while r != stop
        invariant Valid() && nodes == old(nodes)
        invariant lo <= k <= hi
        invariant Flatten(adj) == F[..lo] + F[k..]
        invariant ValidPos(adj, r) && Positions.Index(adj, r) == lo
        invariant ValidPos(adj, stop) && Positions.Index(adj, stop) == lo + (hi - k)
        decreases hi - k
      {
        r, stop := EraseBefore(r, stop, F, lo, k);
        k := k + 1;
      }
      IndexInjective(adj, r, stop);
    }

    /**
     * `erase_edge(first, last)`: erases every edge from `first` up to, not
     * including, `last`, one `erase_edge(iterator)` at a time, and returns the
     * iterator at the edge `last` denoted.
     */
    method EraseRange(first: Iterator, last: Iterator) returns (it: Iterator)
      requires Valid() && first.g == this && last.g == this && first.Valid() && last.Valid()
      requires first.Offset() <= last.Offset()
      modifies this
      ensures Valid() && nodes == old(nodes)
      ensures Flatten(adj) == old(Flatten(adj)[..first.Offset()] + Flatten(adj)[last.Offset()..])
      ensures EdgeSet() == old(EdgeSet()) - old(Elems(Flatten(adj)[first.Offset()..last.Offset()]))
      ensures fresh(it) && it.g == this && it.Valid() && it.Offset() == old(first.Offset())
    {
      var pos := EraseBetween(first.pos, last.pos);
      EraseSliceEdges(old(adj), old(first.Offset()), old(last.Offset()));
      it := new Iterator.At(this, pos);
    }

    /**
     * The re-pointing pass shared by `replace_node` and `merge_replace_node`:
     * every bucket's entries aimed at `o` are re-aimed at `n`.
     */
    method RetargetEdges(o: int, n: int)
      requires ValidAdj(adj) && o != n
      modifies this
      ensures nodes == old(nodes) && ValidAdj(adj)
      ensures Keys(adj) == old(Keys(adj))
      ensures EdgeSet() == RenameTargets(old(EdgeSet()), o, n)
    {
      ghost var adj0 := adj;
      var i := 0;
      while i < |adj|
        invariant nodes == old(nodes)
        invariant 0 <= i <= |adj| == |adj0|
        invariant Retargeted(adj0, adj, o, n, i)
      {
        assert adj[i] == adj0[i];
        var outs := RetargetBucket(adj[i].outs, o, n);
        assert Retarget(adj[i].outs[0], o, n) in Elems(outs);
        adj := adj[i := Bucket(adj[i].src, outs)];
        i := i + 1;
      }
      RetargetedEdges(adj0, adj, o, n);
    }

    /**
     * The sweep of `erase_node` over the buckets: every entry aimed at `v` is
     * erased, and a bucket that this empties is erased from the map.
     */
    method SweepTargets(v: int)
      requires ValidAdj(adj)
      modifies this
      ensures nodes == old(nodes) && ValidAdj(adj)
      ensures EdgeSet() == set e | e in old(EdgeSet()) && e.to != v
    {
      ghost var adj0 := adj;
      var i := 0;
      ghost var j := 0;
      assert Swept(adj, adj0, i, j, v);
      while i < |adj|
        invariant nodes == old(nodes)
        invariant Swept(adj, adj0, i, j, v)
        decreases |adj| - i, |adj0| - j
      {
        var outs := FilterBucket(adj[i].outs, v);
        if outs == [] {
          SweepDrop(adj, adj0, i, j, v);
          adj := adj[..i] + adj[i + 1..];
        } else {
          SweepKeep(adj, adj0, i, j, v, outs);
          adj := adj[i := Bucket(adj[i].src, outs)];
          i := i + 1;
        }
        j := j + 1;
      }
      SweepDone(adj, adj0, i, j, v);
    }

    /**
     * `erase_node`: reports `false` when `v` is not a node; otherwise erases
     * `v`'s bucket, every entry aimed at `v` (and any bucket that empties),
     * and then `v` itself.
     */
    method EraseNode(v: int) returns (r: bool)
      requires Valid()
      modifies this
      ensures Valid()
      ensures r <==> v in old(NodeSet())
      ensures !r ==> nodes == old(nodes) && adj == old(adj)
      ensures NodeSet() == old(NodeSet()) - {v}
      ensures EdgeSet() == set e | e in old(EdgeSet()) && e.from != v && e.to != v
    {
      var present := IsNode(v);
      if !present {
        return false;
      }
      match FindBucket(adj, v) {
        case Some(k) =>
          DropBucket(adj, k);
          adj := adj[..k] + adj[k + 1..];
        case None =>
          NoBucketNoSource(adj, v);
      }
      assert EdgeSet() == set e | e in old(EdgeSet()) && e.from != v;
      SweepTargets(v);
      ErasedNodeState(nodes, old(adj), v, adj);
      nodes := Remove(nodes, v);
      return true;
    }

    /**
     * `replace_node`: fails when `o` is not a node and reports `false`,
     * changing nothing, when `n` already is; otherwise `n` takes `o`'s place
     * as a node, as the source of `o`'s edges and as the destination of the
     * edges into `o`.
     */
    method ReplaceNode(o: int, n: int) returns (r: Result<bool>)
      requires Valid()
      modifies this
      ensures Valid()
      ensures o !in old(NodeSet()) ==> r == NodeMissing && nodes == old(nodes) && adj == old(adj)
      ensures o in old(NodeSet()) && n in old(NodeSet()) ==> r == Ok(false) && nodes == old(nodes) && adj == old(adj)
      ensures o in old(NodeSet()) && n !in old(NodeSet()) ==>
        && r == Ok(true)
        && NodeSet() == old(NodeSet()) - {o} + {n}
        && |nodes| == old(|nodes|)
        && EdgeSet() == RenameAll(old(EdgeSet()), o, n)
    {
      var hasOld := IsNode(o);
      if !hasOld {
        return NodeMissing;
      }
      var hasNew := IsNode(n);
      if hasNew {
        return Ok(false);
      }
      OrdersAreStrictTotal();
      nodes := Insert(nodes, n, NodeLt);
      assert FindBucket(adj, n).None? by {
        SourcesAreNodes(old(nodes), adj);
      }
      match FindBucket(adj, o) {
        case Some(k) =>
          MoveBucket(adj, k, n);
          var b := adj[k];
          adj := adj[..k] + adj[k + 1..];
          var p := LowerBound(adj, n);
          adj := adj[..p] + [Bucket(n, b.outs)] + adj[p..];
        case None =>
          NoBucketNoSource(adj, o);
          RenameSourcesAbsent(Edges(adj), o, n);
      }
      assert EdgeSet() == RenameSources(old(EdgeSet()), o, n);
      RetargetEdges(o, n);
      assert EdgeSet() == RenameAll(old(EdgeSet()), o, n) by {
        SourcesThenTargets(old(EdgeSet()), o, n);
      }
      ReplacedState(old(nodes), old(adj), o, n, adj);
      nodes := Remove(nodes, o);
      return Ok(true);
    }

    /**
     * `merge_replace_node`: fails unless both `o` and `n` are nodes;
     * otherwise every edge is renamed from `o` to `n`, edges that become
     * equal collapse into one, and `o` is erased.
     */
    method MergeReplaceNode(o: int, n: int) returns (r: Result<()>)
      requires Valid() && o != n
      modifies this
      ensures Valid()
      ensures o !in old(NodeSet()) || n !in old(NodeSet()) ==>
        r == NodeMissing && nodes == old(nodes) && adj == old(adj)
      ensures o in old(NodeSet()) && n in old(NodeSet()) ==>
        && r == Ok(())
        && NodeSet() == old(NodeSet()) - {o}
        && EdgeSet() == RenameAll(old(EdgeSet()), o, n)
    {
      var hasOld := IsNode(o);
      var hasNew := IsNode(n);
      if !hasOld || !hasNew {
        return NodeMissing;
      }
      RetargetEdges(o, n);
      assert Valid() by {
        forall e | e in Flatten(adj) ensures e.from in nodes && e.to in nodes {
          assert e in RenameTargets(old(EdgeSet()), o, n);
        }
      }
      match FindBucket(adj, o) {
        case Some(k) =>
          MoveEntries(o, n, k);
        case None =>
          NoBucketNoSource(adj, o);
          RenameSourcesAbsent(EdgeSet(), o, n);
      }
      assert EdgeSet() == RenameAll(old(EdgeSet()), o, n) by {
        TargetsThenSources(old(EdgeSet()), o, n);
      }
      MergedState(old(nodes), old(adj), o, n, adj);
      nodes := Remove(nodes, o);
      return Ok(());
    }

    /**
     * The second half of `merge_replace_node`: each entry of `o`'s bucket
     * (bucket `k`) is inserted as an edge out of `n`, then `o`'s bucket is
     * erased.
     */
    method MoveEntries(o: int, n: int, k: nat)
      requires Valid() && o != n && n in NodeSet() && k < |adj| && adj[k].src == o
      modifies this
      ensures Valid() && nodes == old(nodes)
      ensures EdgeSet() == RenameSources(old(EdgeSet()), o, n)
    {
      ghost var E1 := EdgeSet();
      var oldOuts := adj[k].outs;
      forall x ensures x in oldOuts <==> Edge(o, x.dst, x.w) in E1 {
        BucketEdges(adj, k, Edge(o, x.dst, x.w));
      }
      var j := 0;
      while j < |oldOuts|
        invariant 0 <= j <= |oldOuts|
        invariant Valid() && nodes == old(nodes)
        invariant EdgeSet() == E1 + Sourced(oldOuts[..j], n)
      {
        var x := oldOuts[j];
        assert x.dst in NodeSet() by {
          assert Edge(o, x.dst, x.w) in Flatten(adj);
        }
        assert Sourced(oldOuts[..j + 1], n) == Sourced(oldOuts[..j], n) + {Edge(n, x.dst, x.w)} by {
          assert oldOuts[..j + 1] == oldOuts[..j] + [x];
          SourcedSnoc(oldOuts[..j], x, n);
        }
        var _ := InsertEdge(n, x.dst, x.w);
        j := j + 1;
      }
      assert oldOuts[..j] == oldOuts;
      ghost var E2 := EdgeSet();
      assert FindBucket(adj, o).Some? by {
        HasBucket(adj, Edge(o, oldOuts[0].dst, oldOuts[0].w));
      }
      var k2 := FindBucket(adj, o).value;
      DropBucket(adj, k2);
      adj := adj[..k2] + adj[k2 + 1..];
      MergeSources(E1, E2, EdgeSet(), oldOuts, o, n);
    }

    /**
     * `operator==`: compares the node stores element by element, then the
     * adjacency indexes bucket by bucket and entry by entry. Since a valid
     * representation is canonical, this is equality of node sets and edge sets.
     */
    method Equals(other: Graph) returns (r: bool)
      requires Valid() && other.Valid()
      ensures r <==> nodes == other.nodes && adj == other.adj
      ensures r <==> NodeSet() == other.NodeSet() && EdgeSet() == other.EdgeSet()
    {
      Canonicity(nodes, adj, other.nodes, other.adj);
      if |adj| != |other.adj| || |nodes| != |other.nodes| {
        return false;
      }
      var i := 0;
      while i < |nodes|
        invariant 0 <= i <= |nodes|
        invariant nodes[..i] == other.nodes[..i]
      {
        if nodes[i] != other.nodes[i] {
          return false;
        }
        i := i + 1;
      }
      assert nodes == nodes[..i] && other.nodes == other.nodes[..i];
      i := 0;
      while i < |adj|
        invariant 0 <= i <= |adj|
        invariant adj[..i] == other.adj[..i]
      {
        if adj[i].src != other.adj[i].src {
          return false;
        }
        var outs, others := adj[i].outs, other.adj[i].outs;
        if |outs| != |others| {
          return false;
        }
        var j := 0;
        while j < |outs|
          invariant 0 <= j <= |outs|
          invariant outs[..j] == others[..j]
        {
          if outs[j].dst != others[j].dst || outs[j].w != others[j].w {
            return false;
          }
          j := j + 1;
        }
        assert outs == outs[..j] && others == others[..j];
        assert adj[..i + 1] == adj[..i] + [adj[i]];
        assert other.adj[..i + 1] == other.adj[..i] + [other.adj[i]];
        i := i + 1;
      }
      assert adj == adj[..i] && other.adj == other.adj[..i];
      return true;
    }

    /** The lines `operator<<` writes for the entries of one bucket. */
    static method PrintEntries(outs: seq<Out>) returns (t: string)
      ensures t == EntryLines(outs)
      ensures multiset(t)['\n'] == |outs|
    {
      t := "";
      var j := 0;
      while j < |outs|
        invariant 0 <= j <= |outs|
        invariant t + EntryLines(outs[j..]) == EntryLines(outs)
      {
        var line := "  " + IntToString(outs[j].dst) + " | " + IntToString(outs[j].w) + "\n";
        assert EntryLines(outs[j..]) == line + EntryLines(outs[j + 1..]) by {
          assert outs[j..][1..] == outs[j + 1..];
        }
        Regroup(t, line, EntryLines(outs[j + 1..]));
        t := t + line;
        j := j + 1;
      }
      assert outs[j..] == [];
      EntryLinesCount(outs);
    }

    /** `edges.find(v)` and the lines for the entries of `v`'s bucket, if it has one. */
    method BucketLines(v: int) returns (lines: string)
      requires Valid()
      ensures lines == EntryLines(Entries(adj, v))
    {
      match FindBucket(adj, v) {
        case Some(k) =>
          EntriesAt(adj, k);
          lines := PrintEntries(adj[k].outs);
        case None =>
          EntriesAbsent(adj, v);
          lines := "";
      }
    }

    /** The block `operator<<` writes for node `v`. */
    method PrintBlock(v: int) returns (b: string)
      requires Valid()
      ensures b == Block(v, Entries(adj, v))
    {
      var lines := BucketLines(v);
      b := IntToString(v) + " (\n" + lines + ")\n";
    }

    /**
     * `operator<<`: for each node in ascending order, the node and ` (`, one
     * line `  <dst> | <weight>` per entry of its bucket, and `)`.
     */
    method Print() returns (s: string)
      requires Valid()
      ensures s == Render(nodes, adj)
    {
      s := "";
      var i := 0;
      while i < |nodes|
        invariant 0 <= i <= |nodes|
        invariant s + Render(nodes[i..], adj) == Render(nodes, adj)
      {
        var b := PrintBlock(nodes[i]);
        assert s + b + Render(nodes[i + 1..], adj) == Render(nodes, adj) by {
          RenderAt(nodes, i, adj);
          Regroup(s, b, Render(nodes[i + 1..], adj));
        }
        s := s + b;
        i := i + 1;
      }
      assert s == Render(nodes, adj) by {
        assert nodes[i..] == [];
      }
    }

    /** The inner loop of the copy constructor: every edge of bucket `b` is inserted. */
    method CopyBucket(b: Bucket)
      requires Valid()
      requires forall e :: e in Spread(b) ==> e.from in NodeSet() && e.to in NodeSet()
      modifies this
      ensures Valid() && nodes == old(nodes)
      ensures EdgeSet() == old(EdgeSet()) + Elems(Spread(b))
    {
      var j := 0;
      while j < |b.outs|
        invariant 0 <= j <= |b.outs|
        invariant Valid() && nodes == old(nodes)
        invariant EdgeSet() == old(EdgeSet()) + Sourced(b.outs[..j], b.src)
      {
        var x := b.outs[j];
        assert Edge(b.src, x.dst, x.w) in Spread(b) by {
          SpreadMember(b, Edge(b.src, x.dst, x.w));
        }
        assert Sourced(b.outs[..j + 1], b.src) == Sourced(b.outs[..j], b.src) + {Edge(b.src, x.dst, x.w)} by {
          assert b.outs[..j + 1] == b.outs[..j] + [x];
          SourcedSnoc(b.outs[..j], x, b.src);
        }
        var _ := InsertEdge(b.src, x.dst, x.w);
        j := j + 1;
      }
      assert b.outs[..j] == b.outs;
      SpreadSourced(b);
    }

    /** The range constructor: each value of `vs` is inserted as a node. */
    constructor FromNodes(vs: seq<int>)
      ensures Valid() && NodeSet() == Elems(vs) && EdgeSet() == {}
    {
      nodes := [];
      adj := [];
      new;
      var i := 0;
      while i < |vs|
        invariant 0 <= i <= |vs|
        invariant Valid() && NodeSet() == Elems(vs[..i]) && adj == []
      {
        assert vs[..i + 1] == vs[..i] + [vs[i]];
        var _ := InsertNode(vs[i]);
        i := i + 1;
      }
      assert vs[..i] == vs;
    }

    /**
     * The copy constructor: every node of `other` is inserted, then every
     * edge, bucket by bucket; the copy is equal to `other`.
     */
    constructor Copy(other: Graph)
      requires other.Valid()
      ensures Valid() && nodes == other.nodes && adj == other.adj
    {
      nodes := [];
      adj := [];
      new;
      var i := 0;
      while i < |other.nodes|
        invariant 0 <= i <= |other.nodes|
        invariant Valid() && NodeSet() == Elems(other.nodes[..i]) && adj == []
      {
        assert other.nodes[..i + 1] == other.nodes[..i] + [other.nodes[i]];
        var _ := InsertNode(other.nodes[i]);
        i := i + 1;
      }
      assert other.nodes[..i] == other.nodes;
      i := 0;
      while i < |other.adj|
        invariant 0 <= i <= |other.adj|
        invariant Valid() && NodeSet() == other.NodeSet()
        invariant EdgeSet() == Elems(Flatten(other.adj[..i]))
      {
        forall e | e in Spread(other.adj[i]) ensures e.from in NodeSet() && e.to in NodeSet() {
          assert e in Flatten(other.adj) by {
            Split(other.adj, i);
          }
        }
        assert Elems(Flatten(other.adj[..i + 1])) == EdgeSet() + Elems(Spread(other.adj[i])) by {
          PrefixStep(other.adj, i);
          ElemsConcat(Flatten(other.adj[..i]), Spread(other.adj[i]));
        }
        CopyBucket(other.adj[i]);
        i := i + 1;
      }
      assert other.adj[..i] == other.adj;
      Canonicity(nodes, adj, other.nodes, other.adj);
    }
  }

  /**
   * The graph's iterator: `curr_map_iter_` and `curr_set_iter_` as a position
   * `(bucket, entry)` in the adjacency index, the end being one past the last
   * bucket. It walks the edges in ascending (source, destination, weight) order.
   * An iterator stays usable only while the adjacency index it was made over is
   * unchanged: `made` records that index.
   */
  class Iterator {
    const g: Graph
    ghost const made: seq<Bucket>
    var pos: Pos

    ghost predicate Valid()
      reads this, g
    {
      g.Valid() && g.adj == made && ValidPos(g.adj, pos)
    }

    /** How many edges come before the iterator's position in iteration order. */
    ghost function Offset(): nat
      reads this, g
      requires Valid()
    {
      Positions.Index(g.adj, pos)
    }

    /** The edge the iterator points at. */
    ghost function Current(): Edge
      reads this, g
      requires Valid() && pos.outer < |g.adj|
    {
      Positions.Deref(g.adj, pos)
    }

    constructor At(g: Graph, p: Pos)
      requires g.Valid() && ValidPos(g.adj, p)
      ensures this.g == g && made == g.adj && pos == p && Valid()
    {
      this.g := g;
      made := g.adj;
      pos := p;
    }

    /** `operator*`: the edge at the iterator's place in iteration order; `end()` is excluded. */
    method Deref() returns (e: Edge)
      requires Valid() && pos.outer < |g.adj|
      ensures e == Flatten(g.adj)[Offset()]
      ensures e in g.EdgeSet()
    {
      e := Positions.Deref(g.adj, pos);
      DerefIsIndexed(g.adj, pos);
    }

    /** `operator++`: one edge further in iteration order. */
    method Increment()
      requires Valid() && pos.outer < |g.adj|
      modifies this
      ensures Valid() && Offset() == old(Offset()) + 1
    {
      pos := Next(g.adj, pos);
    }

    /**
     * `operator--`: one edge back in iteration order; at the first edge it
     * stays put. An empty adjacency index is excluded.
     */
    method Decrement()
      requires Valid() && g.adj != []
      modifies this
      ensures Valid()
      ensures old(Offset()) > 0 ==> Offset() == old(Offset()) - 1
      ensures old(Offset()) == 0 ==> pos == old(pos)
    {
      pos := Prev(g.adj, pos);
    }

    /** `operator==` on iterators of the same graph: the same place in iteration order. */
    method Equals(other: Iterator) returns (r: bool)
      requires Valid() && other.Valid() && other.g == g
      ensures r <==> Offset() == other.Offset()
    {
      IndexInjective(g.adj, pos, other.pos);
      r := pos == other.pos;
    }
  }
}
