/**
 * The text that `operator<<` writes for a graph: for each node in ascending
 * order, a line `<node> (`, one line `  <dst> | <weight>` per entry of the
 * node's bucket in bucket order, and a line `)`. Node values and weights are
 * integers, written in decimal with a leading `-` when negative.
 */
module Printing {
  import opened Ordering
  import opened Adjacency

  /** The character of decimal digit `d`. */
  function Digit(d: nat): (c: char)
    requires d < 10
    ensures '0' <= c <= '9' && c as int - '0' as int == d
  {
    ('0' as int + d) as char
  }

  /** The decimal digits of `n`, most significant first, without leading zeros. */
  function DigitString(n: nat): (s: string)
    ensures |s| > 0 && forall i :: 0 <= i < |s| ==> '0' <= s[i] <= '9'
    ensures n > 0 ==> s[0] != '0'
  {
    if n < 10 then [Digit(n)] else DigitString(n / 10) + [Digit(n % 10)]
  }

  /** The value a string of decimal digits denotes. */
  function DigitsValue(s: string): int {
    if s == [] then 0 else DigitsValue(s[..|s| - 1]) * 10 + (s[|s| - 1] as int - '0' as int)
  }

  /** Reading the digits of `n` back gives `n`. */
  lemma {:induction false} DigitStringValue(n: nat)
    ensures DigitsValue(DigitString(n)) == n
  {
    var s := DigitString(n);
    if n >= 10 {
      DigitStringValue(n / 10);
      assert s[..|s| - 1] == DigitString(n / 10);
    } else {
      assert s[..|s| - 1] == [];
    }
  }

  /** `os << x` for an integer `x`. */
  function IntToString(x: int): (s: string)
    ensures |s| > 0 && '\n' !in s
    ensures s[0] == '-' <==> x < 0
  {
    if x < 0 then "-" + DigitString(-x) else DigitString(x)
  }

  /** `IntToString` is read back by an optional `-` followed by the digits. */
  lemma IntToStringValue(x: int)
    ensures var s := IntToString(x);
      if s[0] == '-' then -DigitsValue(s[1..]) == x else DigitsValue(s) == x
  {
    var s := IntToString(x);
    if x < 0 {
      assert s[1..] == DigitString(-x);
      DigitStringValue(-x);
    } else {
      DigitStringValue(x);
    }
  }

  lemma Regroup<T>(a: seq<T>, b: seq<T>, c: seq<T>)
    ensures (a + b) + c == a + (b + c)
  {
  }

  /** `edges.find(v)->second`, or nothing when `v` has no bucket. */
  function Entries(adj: seq<Bucket>, v: int): seq<Out> {
    if adj == [] then [] else if adj[0].src == v then adj[0].outs else Entries(adj[1..], v)
  }

  /** The bucket lines: `  <dst> | <weight>` per entry. */
  function EntryLines(outs: seq<Out>): string {
    if outs == [] then ""
    else "  " + IntToString(outs[0].dst) + " | " + IntToString(outs[0].w) + "\n" + EntryLines(outs[1..])
  }

  /** The block of node `v` whose bucket holds `outs`. */
  function Block(v: int, outs: seq<Out>): string {
    IntToString(v) + " (\n" + EntryLines(outs) + ")\n"
  }

  /** The whole text for nodes `ns`, in order, over the adjacency index `adj`. */
  function Render(ns: seq<int>, adj: seq<Bucket>): string {
    if ns == [] then "" else Block(ns[0], Entries(adj, ns[0])) + Render(ns[1..], adj)
  }

  /** The text for `ns[i..]` starts with the block of `ns[i]`. */
  lemma RenderAt(ns: seq<int>, i: int, adj: seq<Bucket>)
    requires 0 <= i < |ns|
    ensures Render(ns[i..], adj) == Block(ns[i], Entries(adj, ns[i])) + Render(ns[i + 1..], adj)
  {
    assert ns[i..][1..] == ns[i + 1..];
  }

  /** `Entries` is the bucket that `edges.find` locates. */
  lemma {:induction false} EntriesAt(adj: seq<Bucket>, k: int)
    requires KeysAscending(adj) && 0 <= k < |adj|
    ensures Entries(adj, adj[k].src) == adj[k].outs
  {
    if k > 0 {
      assert adj[0].src < adj[k].src;
      assert adj[1..][k - 1] == adj[k];
      EntriesAt(adj[1..], k - 1);
    }
  }

  /** A node without a bucket has no entry lines. */
  lemma {:induction false} EntriesAbsent(adj: seq<Bucket>, v: int)
    requires forall i :: 0 <= i < |adj| ==> adj[i].src != v
    ensures Entries(adj, v) == []
  {
    if adj != [] {
      assert forall i :: 0 <= i < |adj| - 1 ==> adj[1..][i] == adj[i + 1];
      EntriesAbsent(adj[1..], v);
    }
  }

  /** One line per entry. */
  lemma {:induction false} EntryLinesCount(outs: seq<Out>)
    ensures multiset(EntryLines(outs))['\n'] == |outs|
  {
    if outs != [] {
      EntryLinesCount(outs[1..]);
      var x := outs[0];
      assert multiset(IntToString(x.dst))['\n'] == 0;
      assert multiset(IntToString(x.w))['\n'] == 0;
    }
  }

  /** The number of bucket entries printed for the nodes `ns`. */
  function EntryCount(ns: seq<int>, adj: seq<Bucket>): nat {
    if ns == [] then 0 else |Entries(adj, ns[0])| + EntryCount(ns[1..], adj)
  }

  /** A bucket whose source none of `ns` is can be left out of the index. */
  lemma {:induction false} EntryCountSkip(ns: seq<int>, adj: seq<Bucket>)
    requires adj != [] && forall i :: 0 <= i < |ns| ==> ns[i] != adj[0].src
    ensures EntryCount(ns, adj) == EntryCount(ns, adj[1..])
  {
    if ns != [] {
      EntryCountSkip(ns[1..], adj);
    }
  }

  /** A block has its two framing lines and one line per entry. */
  lemma BlockLines(v: int, outs: seq<Out>)
    ensures multiset(Block(v, outs))['\n'] == 2 + |outs|
  {
    assert multiset(IntToString(v))['\n'] == 0;
    EntryLinesCount(outs);
  }

  /** When the first node owns the first bucket, the other buckets belong to the other nodes. */
  lemma OwnedRest(ns: seq<int>, adj: seq<Bucket>)
    requires Ascending(ns, NodeLt) && KeysAscending(adj) && ns != [] && adj != [] && adj[0].src == ns[0]
    requires forall k :: 0 <= k < |adj| ==> adj[k].src in ns
    ensures forall i :: 0 <= i < |ns| - 1 ==> ns[1..][i] != adj[0].src
    ensures forall k :: 0 <= k < |adj| - 1 ==> adj[1..][k].src in ns[1..]
  {
    forall k | 0 <= k < |adj| - 1 ensures adj[1..][k].src in ns[1..] {
      assert adj[1..][k] == adj[k + 1];
      assert ns[0] < adj[k + 1].src;
      var t :| 0 <= t < |ns| && ns[t] == adj[k + 1].src;
      assert ns[1..][t - 1] == ns[t];
    }
  }

  /** When the first node owns no bucket, every bucket belongs to the other nodes. */
  lemma UnownedRest(ns: seq<int>, adj: seq<Bucket>)
    requires Ascending(ns, NodeLt) && KeysAscending(adj) && ns != [] && (adj == [] || adj[0].src != ns[0])
    requires forall k :: 0 <= k < |adj| ==> adj[k].src in ns
    ensures forall k :: 0 <= k < |adj| ==> adj[k].src != ns[0]
    ensures forall k :: 0 <= k < |adj| ==> adj[k].src in ns[1..]
  {
    forall k | 0 <= k < |adj| ensures adj[k].src != ns[0] && adj[k].src in ns[1..] {
      var t0 :| 0 <= t0 < |ns| && ns[t0] == adj[0].src;
      assert ns[0] < adj[0].src;
      assert ns[0] < adj[k].src;
      var t :| 0 <= t < |ns| && ns[t] == adj[k].src;
      assert ns[1..][t - 1] == ns[t];
    }
  }

  /** The first node's block contributes its two framing lines and one line per entry. */
  lemma RenderHead(ns: seq<int>, adj: seq<Bucket>)
    requires ns != []
    ensures multiset(Render(ns, adj))['\n'] ==
      2 + |Entries(adj, ns[0])| + multiset(Render(ns[1..], adj))['\n']
  {
    var block, rest := Block(ns[0], Entries(adj, ns[0])), Render(ns[1..], adj);
    assert Render(ns, adj) == block + rest;
    assert multiset(block + rest)['\n'] == multiset(block)['\n'] + multiset(rest)['\n'];
    BlockLines(ns[0], Entries(adj, ns[0]));
  }

  /** The text has two lines per node and one per entry printed. */
  lemma {:induction false} RenderCount(ns: seq<int>, adj: seq<Bucket>)
    ensures multiset(Render(ns, adj))['\n'] == 2 * |ns| + EntryCount(ns, adj)
  {
    if ns != [] {
      RenderHead(ns, adj);
      RenderCount(ns[1..], adj);
    }
  }

  /** When every bucket belongs to one of the ascending nodes, every edge is printed once. */
  lemma {:induction false} EntryCountFlatten(ns: seq<int>, adj: seq<Bucket>)
    requires Ascending(ns, NodeLt) && KeysAscending(adj)
    requires forall k :: 0 <= k < |adj| ==> adj[k].src in ns
    ensures EntryCount(ns, adj) == |Flatten(adj)|
  {
    assert |adj| > 0 ==> adj[0].src in ns;
    if ns != [] {
      var v := ns[0];
      assert Ascending(ns[1..], NodeLt);
      if adj != [] && adj[0].src == v {
        OwnedRest(ns, adj);
        EntryCountSkip(ns[1..], adj);
        EntryCountFlatten(ns[1..], adj[1..]);
      } else {
        UnownedRest(ns, adj);
        EntriesAbsent(adj, v);
        EntryCountFlatten(ns[1..], adj);
      }
    }
  }

  /**
   * The text has two lines per node and one per edge, provided every bucket
   * belongs to one of the nodes.
   */
  lemma RenderLines(ns: seq<int>, adj: seq<Bucket>)
    requires Ascending(ns, NodeLt) && KeysAscending(adj)
    requires forall k :: 0 <= k < |adj| ==> adj[k].src in ns
    ensures multiset(Render(ns, adj))['\n'] == 2 * |ns| + |Flatten(adj)|
  {
    RenderCount(ns, adj);
    EntryCountFlatten(ns, adj);
  }
}
