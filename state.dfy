/**
 * The whole graph as a pair of values (node store, adjacency index), the
 * invariant every public operation keeps, and the facts about that pair on
 * which the operations' contracts rest: a valid pair is determined by its
 * node set and its edge set, and the renaming done by `replace_node` and
 * `merge_replace_node` acts on the edge set as a plain relabelling.
 */
module GraphState {
  import opened Ordering
  import opened Adjacency
  import opened Positions

  /**
   * The class invariant: the node store is strictly ascending, the adjacency
   * index is well formed, and both endpoints of every edge are nodes.
   */
  ghost predicate ValidState(nodes: seq<int>, adj: seq<Bucket>) {
    && Ascending(nodes, NodeLt)
    && ValidAdj(adj)
    && forall e :: e in Flatten(adj) ==> e.from in nodes && e.to in nodes
  }

  /** Every bucket belongs to a node: a bucket is non-empty, so its source starts an edge. */
  lemma SourcesAreNodes(nodes: seq<int>, adj: seq<Bucket>)
    requires ValidState(nodes, adj)
    ensures forall k :: 0 <= k < |adj| ==> adj[k].src in nodes
  {
    forall k | 0 <= k < |adj| ensures adj[k].src in nodes {
      var x := adj[k].outs[0];
      FlattenMember(adj, Edge(adj[k].src, x.dst, x.w));
    }
  }

  /** The sources of the adjacency index, in order. */
  function Keys(adj: seq<Bucket>): seq<int> {
    seq(|adj|, i requires 0 <= i < |adj| => adj[i].src)
  }

  /** A bucket exists for exactly the sources of edges, so fewer edges never means more buckets. */
  lemma KeysFollowEdges(a: seq<Bucket>, b: seq<Bucket>)
    requires ValidAdj(a) && ValidAdj(b) && Edges(a) <= Edges(b)
    ensures Elems(Keys(a)) <= Elems(Keys(b))
  {
    forall s | s in Keys(a) ensures s in Keys(b) {
      var k :| 0 <= k < |a| && a[k].src == s;
      var x := a[k].outs[0];
      var e := Edge(s, x.dst, x.w);
      FlattenMember(a, e);
      assert e in Edges(b);
      FlattenMember(b, e);
      var k' :| 0 <= k' < |b| && b[k'].src == s && Out(e.to, e.weight) in b[k'].outs;
      assert Keys(b)[k'] == s;
    }
  }

  /** Two bucket entries of the same source hold the same entries when the edge sets agree. */
  lemma BucketsAgree(a: seq<Bucket>, b: seq<Bucket>, k: int)
    requires ValidAdj(a) && ValidAdj(b) && Edges(a) == Edges(b)
    requires 0 <= k < |a| && k < |b| && a[k].src == b[k].src
    ensures a[k] == b[k]
  {
    forall x ensures x in a[k].outs <==> x in b[k].outs {
      var e := Edge(a[k].src, x.dst, x.w);
      BucketEdges(a, k, e);
      BucketEdges(b, k, e);
      assert e in Flatten(a) <==> e in Edges(a);
      assert e in Flatten(b) <==> e in Edges(b);
    }
    OrdersAreStrictTotal();
    assert Elems(a[k].outs) == Elems(b[k].outs);
    Canonical(a[k].outs, b[k].outs, OutLt);
  }

  /**
   * Canonicity: a valid representation is determined by its node set and its
   * edge set. Structural equality (what `operator==` compares) is therefore
   * equality of the graphs as sets of nodes and edges.
   */
  lemma Canonicity(n1: seq<int>, a1: seq<Bucket>, n2: seq<int>, a2: seq<Bucket>)
    requires ValidState(n1, a1) && ValidState(n2, a2)
    ensures (n1 == n2 && a1 == a2) <==> (Elems(n1) == Elems(n2) && Edges(a1) == Edges(a2))
  {
    if Elems(n1) == Elems(n2) && Edges(a1) == Edges(a2) {
      OrdersAreStrictTotal();
      Canonical(n1, n2, NodeLt);
      KeysFollowEdges(a1, a2);
      KeysFollowEdges(a2, a1);
      var k1, k2 := Keys(a1), Keys(a2);
      assert Ascending(k1, NodeLt) && Ascending(k2, NodeLt);
      Canonical(k1, k2, NodeLt);
      assert |a1| == |k1| == |k2| == |a2|;
      forall k | 0 <= k < |a1| ensures a1[k] == a2[k] {
        assert k1[k] == k2[k];
        BucketsAgree(a1, a2, k);
      }
    }
  }

  /** The node renaming of `replace_node` and `merge_replace_node`: `o` becomes `n`. */
  function RenameNode(x: int, o: int, n: int): int {
    if x == o then n else x
  }

  /** An edge with every occurrence of `o` renamed to `n`. */
  function Rename(e: Edge, o: int, n: int): Edge {
    Edge(RenameNode(e.from, o, n), RenameNode(e.to, o, n), e.weight)
  }

  /** An edge with its source renamed: the effect of re-keying `o`'s bucket. */
  function RenameSource(e: Edge, o: int, n: int): Edge {
    Edge(RenameNode(e.from, o, n), e.to, e.weight)
  }

  /** An edge with its destination renamed: the effect of re-pointing a bucket entry. */
  function RenameTarget(e: Edge, o: int, n: int): Edge {
    Edge(e.from, RenameNode(e.to, o, n), e.weight)
  }

  /** A bucket entry re-pointed from `o` to `n`. */
  function Retarget(x: Out, o: int, n: int): Out {
    Out(RenameNode(x.dst, o, n), x.w)
  }

  ghost function RenameAll(E: set<Edge>, o: int, n: int): set<Edge> {
    set e | e in E :: Rename(e, o, n)
  }

  ghost function RenameSources(E: set<Edge>, o: int, n: int): set<Edge> {
    set e | e in E :: RenameSource(e, o, n)
  }

  ghost function RenameTargets(E: set<Edge>, o: int, n: int): set<Edge> {
    set e | e in E :: RenameTarget(e, o, n)
  }

  ghost function RetargetAll(outs: seq<Out>, o: int, n: int): set<Out> {
    set x | x in outs :: Retarget(x, o, n)
  }

  lemma RetargetAllSnoc(s: seq<Out>, x: Out, o: int, n: int)
    ensures RetargetAll(s + [x], o, n) == RetargetAll(s, o, n) + {Retarget(x, o, n)}
  {
    assert forall y :: y in s + [x] <==> y in s || y == x;
  }

  /** Re-keying first and re-pointing second (`replace_node`) is the full renaming. */
  lemma SourcesThenTargets(E: set<Edge>, o: int, n: int)
    ensures RenameTargets(RenameSources(E, o, n), o, n) == RenameAll(E, o, n)
  {
    forall x | x in RenameAll(E, o, n) ensures x in RenameTargets(RenameSources(E, o, n), o, n) {
      var e :| e in E && Rename(e, o, n) == x;
      assert RenameSource(e, o, n) in RenameSources(E, o, n);
      assert RenameTarget(RenameSource(e, o, n), o, n) == x;
    }
  }

  /** Re-pointing first and re-keying second (`merge_replace_node`) is the full renaming. */
  lemma TargetsThenSources(E: set<Edge>, o: int, n: int)
    ensures RenameSources(RenameTargets(E, o, n), o, n) == RenameAll(E, o, n)
  {
    forall x | x in RenameAll(E, o, n) ensures x in RenameSources(RenameTargets(E, o, n), o, n) {
      var e :| e in E && Rename(e, o, n) == x;
      assert RenameTarget(e, o, n) in RenameTargets(E, o, n);
      assert RenameSource(RenameTarget(e, o, n), o, n) == x;
    }
  }

  /**
   * The adjacency index after every bucket's entries were re-pointed: same
   * sources, each bucket holding the re-pointed entries of the original.
   */
  ghost predicate Retargeted(before: seq<Bucket>, after: seq<Bucket>, o: int, n: int, upto: int)
    requires 0 <= upto <= |before| == |after|
  {
    && (forall t :: 0 <= t < |after| ==> after[t].src == before[t].src)
    && (forall t :: 0 <= t < upto ==>
          after[t].outs != [] && Ascending(after[t].outs, OutLt) &&
          Elems(after[t].outs) == RetargetAll(before[t].outs, o, n))
    && (forall t :: upto <= t < |after| ==> after[t] == before[t])
  }

  /** Re-pointing every bucket's entries re-points the destinations of the edge set. */
  lemma RetargetedEdges(before: seq<Bucket>, after: seq<Bucket>, o: int, n: int)
    requires ValidAdj(before) && |before| == |after| && Retargeted(before, after, o, n, |after|)
    ensures ValidAdj(after)
    ensures Edges(after) == RenameTargets(Edges(before), o, n)
  {
    assert KeysAscending(after) by {
      forall i, j | 0 <= i < j < |after| ensures after[i].src < after[j].src {
        assert before[i].src < before[j].src;
      }
    }
    forall e | e in Edges(after) ensures e in RenameTargets(Edges(before), o, n) {
      FlattenMember(after, e);
      var k :| 0 <= k < |after| && after[k].src == e.from && Out(e.to, e.weight) in after[k].outs;
      assert Out(e.to, e.weight) in Elems(after[k].outs);
      var x :| x in before[k].outs && Retarget(x, o, n) == Out(e.to, e.weight);
      var e' := Edge(e.from, x.dst, x.w);
      FlattenMember(before, e');
      assert e' in Edges(before) && RenameTarget(e', o, n) == e;
    }
    forall e | e in RenameTargets(Edges(before), o, n) ensures e in Edges(after) {
      var e' :| e' in Edges(before) && RenameTarget(e', o, n) == e;
      FlattenMember(before, e');
      var k :| 0 <= k < |before| && before[k].src == e'.from && Out(e'.to, e'.weight) in before[k].outs;
      assert Retarget(Out(e'.to, e'.weight), o, n) in RetargetAll(before[k].outs, o, n);
      assert Out(e.to, e.weight) in Elems(after[k].outs);
      FlattenMember(after, e);
    }
  }

  /** Erasing the entry at a position removes exactly the edge there and keeps the invariant. */
  lemma EraseEntryState(nodes: seq<int>, adj: seq<Bucket>, p: Pos)
    requires ValidState(nodes, adj) && ValidPos(adj, p) && p.outer < |adj|
    ensures ValidState(nodes, EraseEntry(adj, p))
    ensures Edges(EraseEntry(adj, p)) == Edges(adj) - {Deref(adj, p)}
  {
    var F, n := Flatten(adj), Index(adj, p);
    EraseEntryValid(adj, p);
    EraseEntryFlatten(adj, p);
    DerefIsIndexed(adj, p);
    FlattenAscending(adj);
    OrdersAreStrictTotal();
    DropAt(F, EdgeLt, n);
  }

  /** Cutting the slice `[lo, hi)` out of the iteration order removes exactly those edges. */
  lemma EraseSliceEdges(adj: seq<Bucket>, lo: int, hi: int)
    requires ValidAdj(adj) && 0 <= lo <= hi <= |Flatten(adj)|
    ensures Elems(Flatten(adj)[..lo] + Flatten(adj)[hi..]) == Edges(adj) - Elems(Flatten(adj)[lo..hi])
  {
    FlattenAscending(adj);
    OrdersAreStrictTotal();
    DropRange(Flatten(adj), EdgeLt, lo, hi);
  }

  /** Renaming leaves a set alone when no edge starts at the renamed node. */
  lemma RenameSourcesAbsent(E: set<Edge>, o: int, n: int)
    requires forall e :: e in E ==> e.from != o
    ensures RenameSources(E, o, n) == E
  {
    forall e | e in E ensures e in RenameSources(E, o, n) {
      assert RenameSource(e, o, n) == e;
    }
  }

  /** After a renaming of `o` to `n`, every endpoint is an old endpoint other than `o`, or `n`. */
  lemma RenamedEndpoints(E: set<Edge>, N: set<int>, o: int, n: int)
    requires o != n && n in N
    requires forall e :: e in E ==> e.from in N && e.to in N
    ensures forall e :: e in RenameAll(E, o, n) ==> e.from in N - {o} && e.to in N - {o}
  {
  }

  /**
   * `replace_node` re-keys `o`'s bucket under the new node `n`: extracted from
   * the map and inserted again at `n`'s ordered position.
   */
  lemma MoveBucket(adj: seq<Bucket>, k: int, n: int)
    requires ValidAdj(adj) && 0 <= k < |adj| && FindBucket(adj, n).None?
    ensures var rest := adj[..k] + adj[k + 1..];
      var p := LowerBound(rest, n);
      var adj' := rest[..p] + [Bucket(n, adj[k].outs)] + rest[p..];
      && ValidAdj(adj')
      && Edges(adj') == RenameSources(Edges(adj), adj[k].src, n)
  {
    var o := adj[k].src;
    var rest := adj[..k] + adj[k + 1..];
    RemoveBucket(adj, k);
    var p := LowerBound(rest, n);
    var b := Bucket(n, adj[k].outs);
    var adj' := rest[..p] + [b] + rest[p..];
    forall i | 0 <= i < p ensures rest[i].src < n {
      assert rest[i] == adj[if i < k then i else i + 1];
    }
    forall i | p <= i < |rest| ensures n < rest[i].src {
      assert rest[i] == adj[if i < k then i else i + 1];
    }
    InsertBucketKeys(rest, p, b);
    InsertBucket(rest, p, b);
    forall t | 0 <= t < |adj'| ensures adj'[t].outs != [] && Ascending(adj'[t].outs, OutLt) {
      if t != p {
        var t' := if t < p then t else t - 1;
        assert adj'[t] == rest[t'];
        assert rest[t'] == adj[if t' < k then t' else t' + 1];
      }
    }
    forall e | e in Edges(adj') ensures e in RenameSources(Edges(adj), o, n) {
      if e.from == n && Out(e.to, e.weight) in b.outs {
        var e' := Edge(o, e.to, e.weight);
        BucketEdges(adj, k, e');
        assert e' in Edges(adj) && RenameSource(e', o, n) == e;
      } else {
        assert e in Flatten(adj) && e.from != o;
        assert RenameSource(e, o, n) == e;
      }
    }
    forall e | e in RenameSources(Edges(adj), o, n) ensures e in Edges(adj') {
      var e' :| e' in Edges(adj) && RenameSource(e', o, n) == e;
      if e'.from == o {
        BucketEdges(adj, k, e');
      } else {
        NoBucketNoEdges(adj, Edge(n, e'.to, e'.weight));
      }
    }
  }

  /** The edges out of `n` that a bucket's entries describe. */
  ghost function Sourced(outs: seq<Out>, n: int): set<Edge> {
    set x | x in outs :: Edge(n, x.dst, x.w)
  }

  /** A bucket lists exactly the edges its entries describe. */
  lemma SpreadSourced(b: Bucket)
    ensures Elems(Spread(b)) == Sourced(b.outs, b.src)
  {
    forall e ensures e in Spread(b) <==> e in Sourced(b.outs, b.src) {
      SpreadMember(b, e);
    }
  }

  lemma SourcedSnoc(s: seq<Out>, x: Out, n: int)
    ensures Sourced(s + [x], n) == Sourced(s, n) + {Edge(n, x.dst, x.w)}
  {
    assert forall y :: y in s + [x] <==> y in s || y == x;
  }

  /**
   * `merge_replace_node` moves the entries of `o`'s bucket into `n`'s and then
   * erases `o`'s bucket: the result re-keys every edge out of `o` to `n`.
   */
  lemma MergeSources(E1: set<Edge>, E2: set<Edge>, E3: set<Edge>, oldOuts: seq<Out>, o: int, n: int)
    requires o != n
    requires forall x :: x in oldOuts <==> Edge(o, x.dst, x.w) in E1
    requires E2 == E1 + Sourced(oldOuts, n)
    requires forall e :: e in E3 <==> e in E2 && e.from != o
    ensures E3 == RenameSources(E1, o, n)
  {
    forall e | e in E3 ensures e in RenameSources(E1, o, n) {
      if e in E1 {
        assert RenameSource(e, o, n) == e;
      } else {
        var x :| x in oldOuts && e == Edge(n, x.dst, x.w);
        assert RenameSource(Edge(o, x.dst, x.w), o, n) == e;
      }
    }
    forall e | e in RenameSources(E1, o, n) ensures e in E3 {
      var e' :| e' in E1 && RenameSource(e', o, n) == e;
      if e'.from == o {
        assert Out(e'.to, e'.weight) in oldOuts;
      }
    }
  }

  /**
   * The state of `erase_node`'s sweep over the buckets: the first `i` buckets
   * of `adj` are the first `j` buckets of `adj0` with the entries aimed at `v`
   * erased and emptied buckets dropped; the rest are untouched.
   */
  ghost predicate Swept(adj: seq<Bucket>, adj0: seq<Bucket>, i: int, j: int, v: int) {
    && 0 <= i <= |adj| && 0 <= j <= |adj0|
    && adj[i..] == adj0[j..]
    && ValidAdj(adj)
    && forall e :: e in Flatten(adj[..i]) <==> e in Flatten(adj0[..j]) && e.to != v
  }

  /** A bucket that keeps some entries after the sweep stays, filtered. */
  lemma SweepKeep(adj: seq<Bucket>, adj0: seq<Bucket>, i: int, j: int, v: int, outs: seq<Out>)
    requires Swept(adj, adj0, i, j, v) && i < |adj|
    requires outs != [] && Ascending(outs, OutLt)
    requires Elems(outs) == set x | x in adj[i].outs && x.dst != v
    ensures Swept(adj[i := Bucket(adj[i].src, outs)], adj0, i + 1, j + 1, v)
  {
    var adj' := adj[i := Bucket(adj[i].src, outs)];
    assert adj[i] == adj0[j] by {
      assert adj[i..][0] == adj0[j..][0];
    }
    ReplaceBucket(adj, i, outs);
    forall t | 0 <= t < |adj'| ensures adj'[t].outs != [] && Ascending(adj'[t].outs, OutLt) {
      if t != i {
        assert adj'[t] == adj[t];
      }
    }
    assert adj'[i + 1..] == adj[i + 1..] == adj0[j + 1..] by {
      assert adj[i + 1..] == adj[i..][1..];
    }
    PrefixStep(adj', i);
    PrefixStep(adj0, j);
    assert adj'[..i] == adj[..i];
    forall e ensures e in Spread(adj'[i]) <==> e in Spread(adj0[j]) && e.to != v {
      SpreadMember(adj'[i], e);
      SpreadMember(adj0[j], e);
      assert Out(e.to, e.weight) in outs <==> Out(e.to, e.weight) in Elems(outs);
    }
  }

  /** A bucket that the sweep empties is erased from the map. */
  lemma SweepDrop(adj: seq<Bucket>, adj0: seq<Bucket>, i: int, j: int, v: int)
    requires Swept(adj, adj0, i, j, v) && i < |adj|
    requires forall x :: x in adj[i].outs ==> x.dst == v
    ensures Swept(adj[..i] + adj[i + 1..], adj0, i, j + 1, v)
  {
    var adj' := adj[..i] + adj[i + 1..];
    assert adj[i] == adj0[j] by {
      assert adj[i..][0] == adj0[j..][0];
    }
    RemoveBucket(adj, i);
    forall t | 0 <= t < |adj'| ensures adj'[t].outs != [] && Ascending(adj'[t].outs, OutLt) {
      assert adj'[t] == adj[if t < i then t else t + 1];
    }
    assert adj'[i..] == adj0[j + 1..] by {
      assert adj'[i..] == adj[i + 1..] == adj[i..][1..];
    }
    assert adj'[..i] == adj[..i];
    PrefixStep(adj0, j);
    forall e | e in Spread(adj0[j]) ensures e.to == v {
      SpreadMember(adj0[j], e);
    }
  }

  /** When the sweep has passed every bucket, exactly the edges into `v` are gone. */
  lemma SweepDone(adj: seq<Bucket>, adj0: seq<Bucket>, i: int, j: int, v: int)
    requires Swept(adj, adj0, i, j, v) && i == |adj|
    ensures ValidAdj(adj)
    ensures Edges(adj) == set e | e in Edges(adj0) && e.to != v
  {
    assert adj0[j..] == [];
    assert adj[..i] == adj && adj0[..j] == adj0;
  }

  /** `erase_node`'s outcome: without `v` and the edges touching it, the rest is still a valid graph. */
  lemma ErasedNodeState(nodes: seq<int>, adj: seq<Bucket>, v: int, adj': seq<Bucket>)
    requires ValidState(nodes, adj) && ValidAdj(adj')
    requires Edges(adj') == set e | e in Edges(adj) && e.from != v && e.to != v
    ensures ValidState(Remove(nodes, v), adj')
  {
    RemoveAscending(nodes, v, NodeLt);
    var nodes' := Remove(nodes, v);
    forall e | e in Flatten(adj') ensures e.from in nodes' && e.to in nodes' {
      assert e in Edges(adj');
      assert e in Flatten(adj);
      assert e.from in Elems(nodes') && e.to in Elems(nodes');
    }
  }

  /** `replace_node`'s outcome: `n` takes `o`'s place in the node store, which keeps its size. */
  lemma ReplacedState(nodes: seq<int>, adj: seq<Bucket>, o: int, n: int, adj': seq<Bucket>)
    requires ValidState(nodes, adj) && o in nodes && n !in nodes && ValidAdj(adj')
    requires Edges(adj') == RenameAll(Edges(adj), o, n)
    ensures var nodes' := Remove(Insert(nodes, n, NodeLt), o);
      && ValidState(nodes', adj')
      && |nodes'| == |nodes|
      && Elems(nodes') == Elems(nodes) - {o} + {n}
  {
    OrdersAreStrictTotal();
    var mid := Insert(nodes, n, NodeLt);
    var nodes' := Remove(mid, o);
    RemoveAscending(mid, o, NodeLt);
    RenamedEndpoints(Edges(adj), Elems(mid), o, n);
    assert forall e :: e in Flatten(adj') ==> e in Edges(adj');
    DistinctCount(nodes', NodeLt);
    DistinctCount(nodes, NodeLt);
    assert Elems(nodes') == Elems(nodes) - {o} + {n};
  }

  /** `merge_replace_node`'s outcome: without `o`, the renamed graph is valid. */
  lemma MergedState(nodes: seq<int>, adj: seq<Bucket>, o: int, n: int, adj': seq<Bucket>)
    requires ValidState(nodes, adj) && o in nodes && n in nodes && o != n && ValidAdj(adj')
    requires Edges(adj') == RenameAll(Edges(adj), o, n)
    ensures ValidState(Remove(nodes, o), adj')
  {
    OrdersAreStrictTotal();
    RemoveAscending(nodes, o, NodeLt);
    RenamedEndpoints(Edges(adj), Elems(nodes), o, n);
    assert forall e :: e in Flatten(adj') ==> e in Edges(adj');
  }
}
