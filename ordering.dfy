/**
 * Strictly ascending sequences under a strict total order `lt`.
 *
 * Both `std::set` instances of the graph are kept in this shape: the node
 * store (ordered by `node_compare`) and each source's edge bucket (ordered by
 * `edge_compare`). A strictly ascending sequence is the canonical listing of
 * its element set, so equality of such sequences is equality of the sets.
 */
module Ordering {

  /** `lt` is irreflexive, transitive and total on distinct values. */
  ghost predicate IsStrictTotal<T(!new)>(lt: (T, T) -> bool) {
    && (forall a :: !lt(a, a))
    && (forall a, b, c :: lt(a, b) && lt(b, c) ==> lt(a, c))
    && (forall a, b :: a != b ==> lt(a, b) || lt(b, a))
  }

  /** Every earlier element is `lt` every later one. */
  predicate Ascending<T>(s: seq<T>, lt: (T, T) -> bool) {
    forall i, j :: 0 <= i < j < |s| ==> lt(s[i], s[j])
  }

  ghost function Elems<T>(s: seq<T>): set<T> {
    set x | x in s
  }

  /** The set insertion `emplace`: `x` is placed at its ordered position unless already present. */
  function Insert<T(==,!new)>(s: seq<T>, x: T, lt: (T, T) -> bool): (r: seq<T>)
    requires IsStrictTotal(lt) && Ascending(s, lt)
    ensures Ascending(r, lt)
    ensures Elems(r) == Elems(s) + {x}
    ensures x in s ==> r == s
    ensures x !in s ==> |r| == |s| + 1
  {
    if s == [] then [x]
    else if x == s[0] then s
    else if lt(x, s[0]) then
      InsertFront(s, x, lt);
      [x] + s
    else
      var rest := Insert(s[1..], x, lt);
      InsertBehind(s, x, lt, rest);
      [s[0]] + rest
  }

  /** Insertion before the first element. */
  lemma InsertFront<T(!new)>(s: seq<T>, x: T, lt: (T, T) -> bool)
    requires IsStrictTotal(lt) && Ascending(s, lt) && s != [] && lt(x, s[0])
    ensures Ascending([x] + s, lt) && x !in s
    ensures Elems([x] + s) == Elems(s) + {x}
  {
    assert forall j :: 0 < j < |s| ==> lt(s[0], s[j]);
  }

  /** Insertion behind the first element, given the insertion into the rest. */
  lemma InsertBehind<T(!new)>(s: seq<T>, x: T, lt: (T, T) -> bool, rest: seq<T>)
    requires IsStrictTotal(lt) && Ascending(s, lt) && s != [] && x != s[0] && !lt(x, s[0])
    requires Ascending(rest, lt) && Elems(rest) == Elems(s[1..]) + {x}
    requires x in s[1..] ==> rest == s[1..]
    requires x !in s[1..] ==> |rest| == |s[1..]| + 1
    ensures Ascending([s[0]] + rest, lt)
    ensures Elems([s[0]] + rest) == Elems(s) + {x}
    ensures x in s ==> [s[0]] + rest == s
    ensures x !in s ==> |[s[0]] + rest| == |s| + 1
  {
    assert s == [s[0]] + s[1..];
    forall y | y in rest ensures lt(s[0], y) {
      assert y in Elems(rest);
      if y != x {
        var k :| 1 <= k < |s| && s[k] == y;
      }
    }
  }

  /** The set erasure by value: every copy of `x` is dropped and the order is kept. */
  function Remove<T(==)>(s: seq<T>, x: T): (r: seq<T>)
    ensures Elems(r) == Elems(s) - {x}
    ensures x !in s ==> r == s
    ensures |r| <= |s|
  {
    if s == [] then []
    else if s[0] == x then Remove(s[1..], x)
    else
      var rest := Remove(s[1..], x);
      assert Elems([s[0]] + rest) == {s[0]} + Elems(rest);
      [s[0]] + rest
  }

  /** Erasure by value keeps a sequence ascending. */
  lemma {:induction false} RemoveAscending<T>(s: seq<T>, x: T, lt: (T, T) -> bool)
    requires Ascending(s, lt)
    ensures Ascending(Remove(s, x), lt)
  {
    if s != [] {
      var rest := Remove(s[1..], x);
      RemoveAscending(s[1..], x, lt);
      if s[0] != x {
        forall y | y in rest ensures lt(s[0], y) {
          assert y in Elems(rest);
          var k :| 1 <= k < |s| && s[k] == y;
        }
      }
    }
  }

  /** A strictly ascending sequence holds each value at most once. */
  lemma NoDuplicates<T(!new)>(s: seq<T>, lt: (T, T) -> bool)
    requires IsStrictTotal(lt) && Ascending(s, lt)
    ensures forall i, j :: 0 <= i < |s| && 0 <= j < |s| && s[i] == s[j] ==> i == j
  {
    forall i, j | 0 <= i < |s| && 0 <= j < |s| && s[i] == s[j] ensures i == j {
      assert lt(s[i], s[j]) || j <= i;
      assert lt(s[j], s[i]) || i <= j;
    }
  }

  /** Dropping the element at position `i` keeps a sequence ascending and removes exactly that value. */
  lemma DropAt<T(!new)>(s: seq<T>, lt: (T, T) -> bool, i: int)
    requires IsStrictTotal(lt) && Ascending(s, lt) && 0 <= i < |s|
    ensures Ascending(s[..i] + s[i + 1..], lt)
    ensures Elems(s[..i] + s[i + 1..]) == Elems(s) - {s[i]}
  {
    var r := s[..i] + s[i + 1..];
    forall a, b | 0 <= a < b < |r| ensures lt(r[a], r[b]) {
      var a' := if a < i then a else a + 1;
      var b' := if b < i then b else b + 1;
      assert r[a] == s[a'] && r[b] == s[b'];
    }
    NoDuplicates(s, lt);
    forall y | y in r ensures y != s[i] {
      var k :| 0 <= k < |r| && r[k] == y;
      var k' := if k < i then k else k + 1;
      assert r[k] == s[k'] && k' != i;
    }
    forall y | y in s && y != s[i] ensures y in r {
      var k :| 0 <= k < |s| && s[k] == y;
      if k < i {
        assert r[k] == y;
      } else {
        assert k > i && r[k - 1] == y;
      }
    }
  }

  /** Two ascending sequences with the same elements are the same sequence. */
  lemma {:induction false} Canonical<T(!new)>(a: seq<T>, b: seq<T>, lt: (T, T) -> bool)
    requires IsStrictTotal(lt) && Ascending(a, lt) && Ascending(b, lt)
    requires Elems(a) == Elems(b)
    ensures a == b
  {
    if a != [] {
      assert a[0] in Elems(b);
    }
    if b != [] {
      assert b[0] in Elems(a);
    }
    if a != [] && b != [] {
      NoDuplicates(a, lt);
      NoDuplicates(b, lt);
      var i :| 0 <= i < |b| && b[i] == a[0];
      var j :| 0 <= j < |a| && a[j] == b[0];
      assert lt(b[0], b[i]) || i == 0;
      assert lt(a[0], a[j]) || j == 0;
      assert a[0] == b[0];
      forall y | y in a[1..] ensures y in b[1..] {
        var k :| 1 <= k < |a| && a[k] == y;
        assert y in Elems(b);
        var m :| 0 <= m < |b| && b[m] == y;
        assert m != 0;
      }
      forall y | y in b[1..] ensures y in a[1..] {
        var k :| 1 <= k < |b| && b[k] == y;
        assert y in Elems(a);
        var m :| 0 <= m < |a| && a[m] == y;
        assert m != 0;
      }
      assert Elems(a[1..]) == Elems(b[1..]);
      Canonical(a[1..], b[1..], lt);
      assert a == [a[0]] + a[1..] && b == [b[0]] + b[1..];
    }
  }

  /** Concatenating two ascending sequences whose parts are ordered across the seam. */
  lemma Concat<T(!new)>(a: seq<T>, b: seq<T>, lt: (T, T) -> bool)
    requires Ascending(a, lt) && Ascending(b, lt)
    requires forall x, y :: x in a && y in b ==> lt(x, y)
    ensures Ascending(a + b, lt)
  {
    var r := a + b;
    forall i, j | 0 <= i < j < |r| ensures lt(r[i], r[j]) {
      if j < |a| {
        assert r[i] == a[i] && r[j] == a[j];
      } else if i >= |a| {
        assert r[i] == b[i - |a|] && r[j] == b[j - |a|];
      } else {
        assert r[i] == a[i] && r[j] == b[j - |a|];
        assert r[i] in a && r[j] in b;
      }
    }
  }

  /** Cutting out a slice of an ascending sequence removes exactly the slice's elements. */
  lemma DropRange<T(!new)>(s: seq<T>, lt: (T, T) -> bool, lo: int, hi: int)
    requires IsStrictTotal(lt) && Ascending(s, lt) && 0 <= lo <= hi <= |s|
    ensures Elems(s[..lo] + s[hi..]) == Elems(s) - Elems(s[lo..hi])
  {
    NoDuplicates(s, lt);
    var r := s[..lo] + s[hi..];
    forall x | x in r ensures x in s && x !in s[lo..hi] {
      var i :| 0 <= i < |r| && r[i] == x;
      var i' := if i < lo then i else i + hi - lo;
      assert s[i'] == x;
      assert forall t :: 0 <= t < hi - lo ==> s[lo..hi][t] == s[lo + t] && lo + t != i';
    }
    assert forall t :: lo <= t < hi ==> s[lo..hi][t - lo] == s[t];
    forall x | x in s && x !in s[lo..hi] ensures x in r {
      var i :| 0 <= i < |s| && s[i] == x;
      if i < lo {
        assert r[i] == x;
      } else if i >= hi {
        assert r[i - (hi - lo)] == x;
      }
    }
  }

  /** A strictly ascending sequence has as many elements as values. */
  lemma {:induction false} DistinctCount<T(!new)>(s: seq<T>, lt: (T, T) -> bool)
    requires IsStrictTotal(lt) && Ascending(s, lt)
    ensures |Elems(s)| == |s|
  {
    if s != [] {
      DistinctCount(s[1..], lt);
      assert Elems(s) == {s[0]} + Elems(s[1..]);
      assert s[0] !in Elems(s[1..]);
    }
  }

  /** Indexing into a sequence with element `k` erased. */
  lemma DropIndex<T>(s: seq<T>, k: int, i: int)
    requires 0 <= k < |s| && 0 <= i < |s| - 1
    ensures (s[..k] + s[k + 1..])[i] == s[if i < k then i else i + 1]
  {
    if i >= k {
      assert (s[..k] + s[k + 1..])[i] == s[k + 1..][i - k];
    }
  }

  lemma ElemsConcat<T>(a: seq<T>, b: seq<T>)
    ensures Elems(a + b) == Elems(a) + Elems(b)
  {
  }
}
