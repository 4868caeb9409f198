/** What `RTree::rebuild` computes, as functions: the stable sort of the
    values by the Morton key of their centres, and the bottom-up tiling of
    the sorted rectangles into leaves and inner nodes of at most
    `FANOUT_SIZE` entries each, the root last. */
module RTreeBuild {
  import opened Ints
  import opened Morton
  import opened Rect

  const FANOUT_SIZE: nat := 8

  datatype PointsAt = Leaf | Inner

  /** A leaf covers `values[start..stop]`; an inner node covers
      `nodes[start..stop]`. */
  datatype Node = Node(rect: Rectangle, leaf: PointsAt, start: nat, stop: nat)

  // ---- ordering the values by centre ----

  /** The sort key of a stored pair: the centre of its rectangle's Morton
      corners. */
  function Key<T>(v: (Rectangle, T)): UInt32 {
    Center(ToMorton(v.0))
  }

  /** `values.sort_by(|a, b| center(a).cmp(&center(b)))`. */
  function SortByCenter<T>(values: seq<(Rectangle, T)>): seq<(Rectangle, T)> {
    SortBy(values, Key)
  }

  predicate SortedByCenter<T>(values: seq<(Rectangle, T)>) {
    SortedBy(values, Key)
  }

  // The library's stable sort, for any key. It is written as an insertion
  // sort; every stable sort gives the same result (`StableSortUnique`).

  predicate SortedBy<X>(s: seq<X>, key: X -> int) {
    forall i, j :: 0 <= i < j < |s| ==> key(s[i]) <= key(s[j])
  }

  /** The entries of `s` with key `k`, in their order in `s`. */
  function WithKey<X>(s: seq<X>, key: X -> int, k: int): (r: seq<X>)
    ensures forall x :: x in r ==> x in s && key(x) == k
  {
    if |s| == 0 then []
    else (if key(s[0]) == k then [s[0]] else []) + WithKey(s[1..], key, k)
  }

  /** Places `v` before the first entry whose key is not smaller. */
  function InsertBy<X>(v: X, s: seq<X>, key: X -> int): (r: seq<X>)
    ensures multiset(r) == multiset(s) + multiset{v}
  {
    if |s| == 0 || key(v) <= key(s[0]) then [v] + s
    else
      assert s == [s[0]] + s[1..];
      [s[0]] + InsertBy(v, s[1..], key)
  }

  function SortBy<X>(s: seq<X>, key: X -> int): (r: seq<X>)
    ensures multiset(r) == multiset(s)
    ensures |r| == |s|
  {
    if |s| == 0 then []
    else
      assert s == [s[0]] + s[1..];
      InsertBy(s[0], SortBy(s[1..], key), key)
  }

  lemma {:induction false} InsertSorted<X>(v: X, s: seq<X>, key: X -> int)
    requires SortedBy(s, key)
    ensures SortedBy(InsertBy(v, s, key), key)
  {
    if |s| > 0 && key(v) > key(s[0]) {
      InsertSorted(v, s[1..], key);
      var t := InsertBy(v, s[1..], key);
      forall x | x in t
        ensures key(s[0]) <= key(x)
      {
        assert x in multiset(t);
      }
    }
  }

  /** The sort orders by key. */
  lemma {:induction false} SortSorted<X>(s: seq<X>, key: X -> int)
    ensures SortedBy(SortBy(s, key), key)
  {
    if |s| > 0 {
      SortSorted(s[1..], key);
      InsertSorted(s[0], SortBy(s[1..], key), key);
    }
  }

  /** Inserting `v` puts it ahead of the entries with its key. */
  lemma {:induction false} InsertStable<X>(v: X, s: seq<X>, key: X -> int, k: int)
    ensures WithKey(InsertBy(v, s, key), key, k) == (if key(v) == k then [v] else []) + WithKey(s, key, k)
  {
    var pv := if key(v) == k then [v] else [];
    if |s| == 0 || key(v) <= key(s[0]) {
      assert InsertBy(v, s, key) == [v] + s;
      WithKeyCons(v, s, key, k);
    } else {
      var t := InsertBy(v, s[1..], key);
      var p0 := if key(s[0]) == k then [s[0]] else [];
      var w := WithKey(s[1..], key, k);
      assert InsertBy(v, s, key) == [s[0]] + t;
      assert p0 == [] || pv == [];
      calc {
        WithKey(InsertBy(v, s, key), key, k);
        == { WithKeyCons(s[0], t, key, k); }
        p0 + WithKey(t, key, k);
        == { InsertStable(v, s[1..], key, k); }
        p0 + (pv + w);
        == { SwapEmpty(p0, pv, w); }
        pv + (p0 + w);
        == { WithKeyCons(s[0], s[1..], key, k); HeadTail(s); }
        pv + WithKey(s, key, k);
      }
    }
  }

  lemma SwapEmpty<X>(a: seq<X>, b: seq<X>, c: seq<X>)
    requires a == [] || b == []
    ensures a + (b + c) == b + (a + c)
  {
    if a == [] {
      assert a + (b + c) == b + c;
    } else {
      assert b + (a + c) == a + c;
    }
  }

  lemma HeadTail<X>(s: seq<X>)
    requires |s| > 0
    ensures s == [s[0]] + s[1..]
  {}

  lemma WithKeyCons<X>(x: X, t: seq<X>, key: X -> int, k: int)
    ensures WithKey([x] + t, key, k) == (if key(x) == k then [x] else []) + WithKey(t, key, k)
  {
    assert ([x] + t)[1..] == t;
  }

  /** The sort is stable: the entries with any one key keep their order. */
  lemma {:induction false} SortStable<X>(s: seq<X>, key: X -> int, k: int)
    ensures WithKey(SortBy(s, key), key, k) == WithKey(s, key, k)
  {
    if |s| > 0 {
      SortStable(s[1..], key, k);
      InsertStable(s[0], SortBy(s[1..], key), key, k);
    }
  }

  lemma {:induction false} WithKeyMember<X>(s: seq<X>, key: X -> int, i: nat)
    requires i < |s|
    ensures s[i] in WithKey(s, key, key(s[i]))
  {
    if i > 0 {
      WithKeyMember(s[1..], key, i - 1);
    }
  }

  /** The head of a sorted `a` has a key no larger than that of any entry
      of `a`; so also of `b`'s head when `a` has `b`'s entries with that key. */
  lemma HeadLeast<X>(a: seq<X>, b: seq<X>, key: X -> int)
    requires SortedBy(a, key) && |a| > 0 && |b| > 0
    requires WithKey(a, key, key(b[0])) == WithKey(b, key, key(b[0]))
    ensures key(a[0]) <= key(b[0])
  {
    WithKeyMember(b, key, 0);
    assert b[0] in WithKey(a, key, key(b[0]));
    var i :| 0 <= i < |a| && a[i] == b[0];
    assert i == 0 || key(a[0]) <= key(a[i]);
  }

  /** Two sequences sorted by key, with the same entries per key in the
      same order, are equal. */
  lemma {:induction false} SortedUnique<X>(a: seq<X>, b: seq<X>, key: X -> int)
    requires SortedBy(a, key) && SortedBy(b, key)
    requires forall k :: WithKey(a, key, k) == WithKey(b, key, k)
    ensures a == b
    decreases |a|
  {
    if |a| == 0 || |b| == 0 {
      if |b| > 0 {
        WithKeyMember(b, key, 0);
      } else if |a| > 0 {
        WithKeyMember(a, key, 0);
      }
    } else {
      var ka, kb := key(a[0]), key(b[0]);
      assert WithKey(a, key, ka) == WithKey(b, key, ka);
      assert WithKey(a, key, kb) == WithKey(b, key, kb);
      SameHead(a, b, key);
      forall k
        ensures WithKey(a[1..], key, k) == WithKey(b[1..], key, k)
      {
        SameTail(a, b, key, k);
      }
      SortedTail(a, key);
      SortedTail(b, key);
      SortedUnique(a[1..], b[1..], key);
      assert a == [a[0]] + a[1..] && b == [b[0]] + b[1..];
    }
  }

  lemma SameHead<X>(a: seq<X>, b: seq<X>, key: X -> int)
    requires SortedBy(a, key) && SortedBy(b, key) && |a| > 0 && |b| > 0
    requires WithKey(a, key, key(a[0])) == WithKey(b, key, key(a[0]))
    requires WithKey(a, key, key(b[0])) == WithKey(b, key, key(b[0]))
    ensures a[0] == b[0]
  {
    HeadLeast(a, b, key);
    HeadLeast(b, a, key);
    var k := key(a[0]);
    assert key(b[0]) == k;
    assert WithKey(a, key, k) == [a[0]] + WithKey(a[1..], key, k);
    assert WithKey(b, key, k) == [b[0]] + WithKey(b[1..], key, k);
    assert WithKey(a, key, k)[0] == a[0];
  }

  lemma SameTail<X>(a: seq<X>, b: seq<X>, key: X -> int, k: int)
    requires |a| > 0 && |b| > 0 && a[0] == b[0]
    requires WithKey(a, key, k) == WithKey(b, key, k)
    ensures WithKey(a[1..], key, k) == WithKey(b[1..], key, k)
  {
    var p := if key(a[0]) == k then [a[0]] else [];
    var x, y := WithKey(a[1..], key, k), WithKey(b[1..], key, k);
    assert p + x == p + y;
    assert x == (p + x)[|p|..];
    assert y == (p + y)[|p|..];
  }

  lemma SortedTail<X>(a: seq<X>, key: X -> int)
    requires SortedBy(a, key) && |a| > 0
    ensures SortedBy(a[1..], key)
  {
    forall i, j | 0 <= i < j < |a| - 1
      ensures key(a[1..][i]) <= key(a[1..][j])
    {
      assert a[1..][i] == a[i + 1] && a[1..][j] == a[j + 1];
    }
  }

  /** Any result that is sorted by key and keeps the order of each key's
      entries is the result of `SortBy`. */
  lemma StableSortUnique<X>(s: seq<X>, r: seq<X>, key: X -> int)
    requires SortedBy(r, key)
    requires forall k :: WithKey(r, key, k) == WithKey(s, key, k)
    ensures r == SortBy(s, key)
  {
    SortSorted(s, key);
    forall k
      ensures WithKey(r, key, k) == WithKey(SortBy(s, key), key, k)
    {
      SortStable(s, key, k);
    }
    SortedUnique(r, SortBy(s, key), key);
  }

  // ---- bounding boxes ----

  /** The rectangles of the stored pairs. */
  function Rects<T>(values: seq<(Rectangle, T)>): (r: seq<Rectangle>)
    ensures |r| == |values|
  {
    seq(|values|, i requires 0 <= i < |values| => values[i].0)
  }

  /** The rectangles of the nodes. */
  function NodeRects(nodes: seq<Node>): (r: seq<Rectangle>)
    ensures |r| == |nodes|
  {
    seq(|nodes|, i requires 0 <= i < |nodes| => nodes[i].rect)
  }

  /** `rs[0].extend(rs[1]).extend(rs[2])...`: the bounding box of a
      non-empty run, folded from the left as the rebuild loops do. */
  function Bound(rs: seq<Rectangle>): (r: Rectangle)
    requires |rs| > 0
  {
    if |rs| == 1 then rs[0] else Extend(Bound(rs[..|rs| - 1]), rs[|rs| - 1])
  }

  /** The bound contains every element. */
  lemma {:induction false} BoundContains(rs: seq<Rectangle>)
    requires |rs| > 0
    ensures forall i :: 0 <= i < |rs| ==> Contains(Bound(rs), rs[i])
  {
    if |rs| > 1 {
      var init := rs[..|rs| - 1];
      BoundContains(init);
      forall i | 0 <= i < |rs|
        ensures Contains(Bound(rs), rs[i])
      {
        if i < |rs| - 1 {
          assert rs[i] == init[i];
        }
      }
    }
  }

  /** The bound is the least rectangle containing every element. */
  lemma {:induction false} BoundLeast(rs: seq<Rectangle>, c: Rectangle)
    requires |rs| > 0
    requires forall i :: 0 <= i < |rs| ==> Contains(c, rs[i])
    ensures Contains(c, Bound(rs))
  {
    if |rs| > 1 {
      BoundLeast(rs[..|rs| - 1], c);
      ExtendLeast(Bound(rs[..|rs| - 1]), rs[|rs| - 1], c);
    }
  }

  /** Bounding a concatenation extends the two bounds. */
  lemma {:induction false} BoundConcat(xs: seq<Rectangle>, ys: seq<Rectangle>)
    requires |xs| > 0 && |ys| > 0
    ensures Bound(xs + ys) == Extend(Bound(xs), Bound(ys))
    decreases |ys|
  {
    var zs := xs + ys;
    if |ys| > 1 {
      var ys' := ys[..|ys| - 1];
      assert zs[..|zs| - 1] == xs + ys';
      BoundConcat(xs, ys');
      ExtendAssociates(Bound(xs), Bound(ys'), ys[|ys| - 1]);
    } else {
      assert zs[..|zs| - 1] == xs;
    }
  }

  /** One more step of the left fold over a run. */
  lemma BoundSnoc(rs: seq<Rectangle>, a: nat, i: nat)
    requires a < i < |rs|
    ensures Bound(rs[a..i + 1]) == Extend(Bound(rs[a..i]), rs[i])
  {
    assert rs[a..i + 1][..i - a] == rs[a..i];
  }

  // ---- tiling ----

  function MinNat(a: nat, b: nat): nat { if a <= b then a else b }

  /** The node covering `rs[start..]` up to `FANOUT_SIZE` entries, cut at `stop`. */
  function TileNode(rs: seq<Rectangle>, start: nat, stop: nat, kind: PointsAt): Node
    requires start < stop <= |rs|
  {
    var end := MinNat(stop, start + FANOUT_SIZE);
    Node(Bound(rs[start..end]), kind, start, end)
  }

  /** One level: `rs[start..stop]` cut into runs of `FANOUT_SIZE` (the last
      one shorter), one node per run. */
  function Tile(rs: seq<Rectangle>, start: nat, stop: nat, kind: PointsAt): (r: seq<Node>)
    requires start <= stop <= |rs|
    ensures |r| == (stop - start + FANOUT_SIZE - 1) / FANOUT_SIZE
    decreases stop - start
  {
    if start == stop then []
    else
      var first := TileNode(rs, start, stop, kind);
      [first] + Tile(rs, first.stop, stop, kind)
  }

  /** The `k`-th node of a level covers the `k`-th run of `FANOUT_SIZE`. */
  lemma {:induction false} TileAt(rs: seq<Rectangle>, start: nat, stop: nat, kind: PointsAt, k: nat)
    requires start <= stop <= |rs| && k < |Tile(rs, start, stop, kind)|
    ensures start + FANOUT_SIZE * k < stop
    ensures Tile(rs, start, stop, kind)[k] == TileNode(rs, start + FANOUT_SIZE * k, stop, kind)
    decreases k
  {
    var first := TileNode(rs, start, stop, kind);
    if k > 0 {
      TileAt(rs, first.stop, stop, kind, k - 1);
      assert first.stop == start + FANOUT_SIZE;
    }
  }

  /** Appending the node of the next run continues the tiling. */
  lemma TileAppend(prefix: seq<Node>, rs: seq<Rectangle>, start: nat, stop: nat, kind: PointsAt, rect: Rectangle)
    requires start < stop <= |rs|
    requires rect == Bound(rs[start..MinNat(stop, start + FANOUT_SIZE)])
    ensures var end := MinNat(stop, start + FANOUT_SIZE);
      (prefix + [Node(rect, kind, start, end)]) + Tile(rs, end, stop, kind) == prefix + Tile(rs, start, stop, kind)
  {
    var end := MinNat(stop, start + FANOUT_SIZE);
    assert Tile(rs, start, stop, kind) == [Node(rect, kind, start, end)] + Tile(rs, end, stop, kind);
  }

  /** The levels above the one at `nodes[start..]`, each tiling the level
      below, until a level has a single node. */
  function Levels(nodes: seq<Node>, start: nat): (r: seq<Node>)
    requires start <= |nodes|
    ensures |nodes| <= |r| && r[..|nodes|] == nodes
    decreases |nodes| - start
  {
    if |nodes| - start <= 1 then nodes
    else Levels(nodes + Tile(NodeRects(nodes), start, |nodes|, Inner), |nodes|)
  }

  /** The nodes `rebuild` leaves for the sorted rectangles `rs`. */
  function Build(rs: seq<Rectangle>): seq<Node> {
    Levels(Tile(rs, 0, |rs|, Leaf), 0)
  }
}
