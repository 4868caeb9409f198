/** The shape of the nodes `rebuild` produces. Each node covers a run
    `rs[lo..hi]` of the sorted rectangles (its span): a leaf covers the
    values it points at, an inner node the union of the spans of the
    consecutive nodes it points at, which lie before it. Every node's
    rectangle is the bound of its span, and the last node's span is
    everything. */
module RTreeShape {
  import opened Rect
  import opened RTreeBuild

  /** The spans of `sp[a..b]` follow one another without gaps. */
  predicate Contiguous(sp: seq<(nat, nat)>, a: nat, b: nat)
    requires a <= b <= |sp|
  {
    forall j :: a <= j < b - 1 ==> sp[j].1 == sp[j + 1].0
  }

  lemma ContiguousTail(sp: seq<(nat, nat)>, a: nat, b: nat)
    requires a < b <= |sp| && Contiguous(sp, a, b)
    ensures Contiguous(sp, a + 1, b) && (b - a > 1 ==> sp[a].1 == sp[a + 1].0)
  {}

  /** Node `i` is well shaped, with span `sp[i]`. */
  predicate NodeOk(nodes: seq<Node>, rs: seq<Rectangle>, sp: seq<(nat, nat)>, i: nat)
    requires i < |nodes| && i < |sp|
  {
    var nd := nodes[i];
    && nd.start < nd.stop <= nd.start + FANOUT_SIZE
    && sp[i].0 < sp[i].1 <= |rs|
    && nd.rect == Bound(rs[sp[i].0..sp[i].1])
    && (nd.leaf == Leaf ==> sp[i] == (nd.start, nd.stop))
    && (nd.leaf == Inner ==>
          && nd.stop <= i
          && sp[i] == (sp[nd.start].0, sp[nd.stop - 1].1)
          && Contiguous(sp, nd.start, nd.stop))
  }

  /** Every node is well shaped, with spans `sp`. */
  predicate TreeWith(nodes: seq<Node>, rs: seq<Rectangle>, sp: seq<(nat, nat)>) {
    |sp| == |nodes| && forall i :: 0 <= i < |nodes| ==> NodeOk(nodes, rs, sp, i)
  }

  /** The level `sp[from..]` covers `[0, n)` in consecutive spans. */
  predicate Covers(sp: seq<(nat, nat)>, from: nat, n: nat) {
    from < |sp| && sp[from].0 == 0 && sp[|sp| - 1].1 == n && Contiguous(sp, from, |sp|)
  }

  /** The leaves tile `[0, |rs|)` in consecutive runs of 1 to `FANOUT_SIZE`. */
  lemma LeavesOk(rs: seq<Rectangle>) returns (sp: seq<(nat, nat)>)
    requires |rs| > 0
    ensures TreeWith(Tile(rs, 0, |rs|, Leaf), rs, sp)
    ensures Covers(sp, 0, |rs|)
  {
    var n := |rs|;
    var nodes := Tile(rs, 0, n, Leaf);
    TileChain(rs, 0, n, Leaf);
    TilesBound(rs, 0, n, Leaf);
    sp := Spans(nodes);
    LeafNodesOk(nodes, rs, sp);
    SpansCover(nodes, sp, n);
  }

  /** The runs the nodes point at. */
  function Spans(nodes: seq<Node>): (sp: seq<(nat, nat)>)
    ensures |sp| == |nodes|
    ensures forall k :: 0 <= k < |nodes| ==> sp[k] == (nodes[k].start, nodes[k].stop)
  {
    seq(|nodes|, k requires 0 <= k < |nodes| => (nodes[k].start, nodes[k].stop))
  }

  /** Leaves that bound their runs of at most `FANOUT_SIZE`, with those
      runs as spans, are well shaped. */
  lemma LeafNodesOk(nodes: seq<Node>, rs: seq<Rectangle>, sp: seq<(nat, nat)>)
    requires |sp| == |nodes|
    requires forall k :: 0 <= k < |nodes| ==> sp[k] == (nodes[k].start, nodes[k].stop)
    requires forall k :: 0 <= k < |nodes| ==>
      BoundsRun(rs, nodes[k]) && nodes[k].leaf == Leaf && nodes[k].stop <= nodes[k].start + FANOUT_SIZE
    ensures TreeWith(nodes, rs, sp)
  {
    forall i | 0 <= i < |nodes|
      ensures NodeOk(nodes, rs, sp, i)
    {
      LeafOk(nodes, rs, sp, i);
    }
  }

  /** A leaf that bounds its run, with that run as its span, is well shaped. */
  lemma LeafOk(nodes: seq<Node>, rs: seq<Rectangle>, sp: seq<(nat, nat)>, i: nat)
    requires i < |nodes| && i < |sp|
    requires BoundsRun(rs, nodes[i]) && nodes[i].leaf == Leaf
    requires nodes[i].stop <= nodes[i].start + FANOUT_SIZE
    requires sp[i] == (nodes[i].start, nodes[i].stop)
    ensures NodeOk(nodes, rs, sp, i)
  {}

  /** Nodes whose runs follow one another from 0 to `n` give spans that
      cover `[0, n)`. */
  lemma SpansCover(nodes: seq<Node>, sp: seq<(nat, nat)>, n: nat)
    requires |sp| == |nodes| > 0
    requires forall k :: 0 <= k < |nodes| ==> sp[k] == (nodes[k].start, nodes[k].stop)
    requires nodes[0].start == 0 && nodes[|nodes| - 1].stop == n
    requires forall k :: 0 <= k < |nodes| - 1 ==> nodes[k].stop == nodes[k + 1].start
    ensures Covers(sp, 0, n)
  {}

  /** Extending the nodes and spans keeps the old nodes well shaped. */
  lemma KeepOk(nodes: seq<Node>, more: seq<Node>, rs: seq<Rectangle>, sp: seq<(nat, nat)>, spMore: seq<(nat, nat)>)
    requires TreeWith(nodes, rs, sp) && |more| == |spMore|
    ensures forall i :: 0 <= i < |nodes| ==> NodeOk(nodes + more, rs, sp + spMore, i)
  {
    forall i | 0 <= i < |nodes|
      ensures NodeOk(nodes + more, rs, sp + spMore, i)
    {
      assert NodeOk(nodes, rs, sp, i);
      var nd := nodes[i];
      assert (nodes + more)[i] == nd;
      assert forall j :: 0 <= j <= i ==> (sp + spMore)[j] == sp[j];
    }
  }

  /** Node `j` has a non-empty span within `rs` and bounds its rectangles. */
  predicate SpanBound(nodes: seq<Node>, rs: seq<Rectangle>, sp: seq<(nat, nat)>, j: nat)
    requires j < |nodes| && j < |sp|
  {
    sp[j].0 < sp[j].1 <= |rs| && nodes[j].rect == Bound(rs[sp[j].0..sp[j].1])
  }

  /** The nodes `nodes[a..b]` of one level, with consecutive spans, bound
      the rectangles of the union of their spans. */
  lemma {:induction false} ChildrenBound(nodes: seq<Node>, rs: seq<Rectangle>, sp: seq<(nat, nat)>, a: nat, b: nat)
    requires a < b <= |nodes| && |sp| == |nodes| && Contiguous(sp, a, b)
    requires forall j :: a <= j < b ==> SpanBound(nodes, rs, sp, j)
    ensures sp[a].0 < sp[b - 1].1 <= |rs|
    ensures Bound(NodeRects(nodes)[a..b]) == Bound(rs[sp[a].0..sp[b - 1].1])
    decreases b
  {
    var nr := NodeRects(nodes);
    assert SpanBound(nodes, rs, sp, b - 1);
    if b - a == 1 {
      assert nr[a..b] == [nodes[a].rect];
    } else {
      ChildrenBound(nodes, rs, sp, a, b - 1);
      assert sp[b - 2].1 == sp[b - 1].0;
      BoundStep(nr, rs, a, b, sp[a].0, sp[b - 1].0, sp[b - 1].1);
    }
  }

  /** One more child: bounding `nr[a..b]` adds the last child's run
      `rs[mid..hi]` to the runs `rs[lo..mid]` of the others. */
  lemma BoundStep(nr: seq<Rectangle>, rs: seq<Rectangle>, a: nat, b: nat, lo: nat, mid: nat, hi: nat)
    requires a + 1 < b <= |nr| && lo < mid < hi <= |rs|
    requires Bound(nr[a..b - 1]) == Bound(rs[lo..mid])
    requires nr[b - 1] == Bound(rs[mid..hi])
    ensures Bound(nr[a..b]) == Bound(rs[lo..hi])
  {
    assert nr[a..b][..b - a - 1] == nr[a..b - 1];
    assert rs[lo..hi] == rs[lo..mid] + rs[mid..hi];
    BoundConcat(rs[lo..mid], rs[mid..hi]);
  }

  /** The spans an inner level gets from the level `sp[start..]` below. */
  function UpperSpans(tiles: seq<Node>, sp: seq<(nat, nat)>): (r: seq<(nat, nat)>)
    requires forall k :: 0 <= k < |tiles| ==> tiles[k].start < tiles[k].stop <= |sp|
    ensures |r| == |tiles|
    ensures forall k :: 0 <= k < |tiles| ==> r[k] == (sp[tiles[k].start].0, sp[tiles[k].stop - 1].1)
  {
    seq(|tiles|, k requires 0 <= k < |tiles| => (sp[tiles[k].start].0, sp[tiles[k].stop - 1].1))
  }

  lemma TreeSpanBound(nodes: seq<Node>, rs: seq<Rectangle>, sp: seq<(nat, nat)>, a: nat, b: nat)
    requires TreeWith(nodes, rs, sp) && a <= b <= |nodes|
    ensures forall j :: a <= j < b ==> SpanBound(nodes, rs, sp, j)
  {
    forall j | a <= j < b
      ensures SpanBound(nodes, rs, sp, j)
    {
      assert NodeOk(nodes, rs, sp, j);
    }
  }

  /** A new inner node over `nodes[nd.start..nd.stop]`, placed at `i` with
      the union of their spans, is well shaped. */
  lemma NewNodeOk(nodes: seq<Node>, rs: seq<Rectangle>, sp: seq<(nat, nat)>,
                  nd: Node, nodes': seq<Node>, sp': seq<(nat, nat)>, i: nat)
    requires TreeWith(nodes, rs, sp)
    requires nd.leaf == Inner && nd.start < nd.stop <= |nodes| && nd.stop <= nd.start + FANOUT_SIZE
    requires nd.rect == Bound(NodeRects(nodes)[nd.start..nd.stop]) && Contiguous(sp, nd.start, nd.stop)
    requires |nodes| <= i < |nodes'| == |sp'| && nodes'[i] == nd
    requires sp'[..|nodes|] == sp && sp'[i] == (sp[nd.start].0, sp[nd.stop - 1].1)
    ensures NodeOk(nodes', rs, sp', i)
  {
    TreeSpanBound(nodes, rs, sp, nd.start, nd.stop);
    ChildrenBound(nodes, rs, sp, nd.start, nd.stop);
    assert forall j :: 0 <= j < |nodes| ==> sp'[j] == sp[j] by {
      forall j | 0 <= j < |nodes|
        ensures sp'[j] == sp[j]
      {
        assert sp'[..|nodes|][j] == sp'[j];
      }
    }
  }

  /** The nodes of a new level over `nodes[start..]`, each with the union
      of its children's spans, are well shaped. */
  lemma NewLevelOk(nodes: seq<Node>, rs: seq<Rectangle>, sp: seq<(nat, nat)>, start: nat,
                   tiles: seq<Node>, up: seq<(nat, nat)>)
    requires TreeWith(nodes, rs, sp) && start < |nodes| && Covers(sp, start, |rs|)
    requires |up| == |tiles|
    requires forall k :: 0 <= k < |tiles| ==>
      && tiles[k].leaf == Inner && start <= tiles[k].start < tiles[k].stop <= |nodes|
      && tiles[k].stop <= tiles[k].start + FANOUT_SIZE
      && tiles[k].rect == Bound(NodeRects(nodes)[tiles[k].start..tiles[k].stop])
      && up[k] == (sp[tiles[k].start].0, sp[tiles[k].stop - 1].1)
    ensures forall i :: |nodes| <= i < |nodes| + |tiles| ==> NodeOk(nodes + tiles, rs, sp + up, i)
  {
    forall i | |nodes| <= i < |nodes| + |tiles|
      ensures NodeOk(nodes + tiles, rs, sp + up, i)
    {
      var nd := tiles[i - |nodes|];
      assert Contiguous(sp, nd.start, nd.stop);
      assert (sp + up)[..|nodes|] == sp;
      NewNodeOk(nodes, rs, sp, nd, nodes + tiles, sp + up, i);
    }
  }

  /** One more level keeps the tree well shaped and covers `[0, |rs|)`. */
  lemma LevelOk(nodes: seq<Node>, rs: seq<Rectangle>, sp: seq<(nat, nat)>, start: nat) returns (sp': seq<(nat, nat)>)
    requires TreeWith(nodes, rs, sp) && start < |nodes| && Covers(sp, start, |rs|)
    ensures var tiles := Tile(NodeRects(nodes), start, |nodes|, Inner);
      TreeWith(nodes + tiles, rs, sp') && Covers(sp', |nodes|, |rs|)
  {
    var tiles := Tile(NodeRects(nodes), start, |nodes|, Inner);
    TileChain(NodeRects(nodes), start, |nodes|, Inner);
    TilesBound(NodeRects(nodes), start, |nodes|, Inner);
    var up := UpperSpans(tiles, sp);
    KeepOk(nodes, tiles, rs, sp, up);
    NewLevelOk(nodes, rs, sp, start, tiles, up);
    LevelCovers(nodes, sp, start, tiles);
    sp' := sp + up;
  }

  /** The node bounds the run of `rs` it covers. */
  predicate BoundsRun(rs: seq<Rectangle>, n: Node) {
    n.start < n.stop <= |rs| && n.rect == Bound(rs[n.start..n.stop])
  }

  /** Each tile of a level bounds its run. */
  lemma TilesBound(rs: seq<Rectangle>, start: nat, stop: nat, kind: PointsAt)
    requires start <= stop <= |rs|
    ensures forall k :: 0 <= k < |Tile(rs, start, stop, kind)| ==> BoundsRun(rs, Tile(rs, start, stop, kind)[k])
  {
    forall k | 0 <= k < |Tile(rs, start, stop, kind)|
      ensures BoundsRun(rs, Tile(rs, start, stop, kind)[k])
    {
      TileAt(rs, start, stop, kind, k);
    }
  }

  /** The tiles of a level are non-empty runs of at most `FANOUT_SIZE`, one
      after the other, from `start` to `stop`. */
  lemma {:induction false} TileChain(rs: seq<Rectangle>, start: nat, stop: nat, kind: PointsAt)
    requires start <= stop <= |rs|
    ensures var tiles := Tile(rs, start, stop, kind);
      && (start < stop ==> |tiles| > 0 && tiles[0].start == start && tiles[|tiles| - 1].stop == stop)
      && (forall k :: 0 <= k < |tiles| ==>
            start <= tiles[k].start < tiles[k].stop <= stop
            && tiles[k].stop <= tiles[k].start + FANOUT_SIZE && tiles[k].leaf == kind)
      && (forall k :: 0 <= k < |tiles| - 1 ==> tiles[k].stop == tiles[k + 1].start)
    decreases stop - start
  {
    if start < stop {
      var first := TileNode(rs, start, stop, kind);
      TileChain(rs, first.stop, stop, kind);
      var rest := Tile(rs, first.stop, stop, kind);
      var tiles := Tile(rs, start, stop, kind);
      assert tiles == [first] + rest;
      forall k | 0 <= k < |tiles| - 1
        ensures tiles[k].stop == tiles[k + 1].start
      {
        if k > 0 {
          assert tiles[k] == rest[k - 1] && tiles[k + 1] == rest[k];
        }
      }
    }
  }

  lemma LevelCovers(nodes: seq<Node>, sp: seq<(nat, nat)>, start: nat, tiles: seq<Node>)
    requires |sp| == |nodes| && start < |nodes| && Covers(sp, start, sp[|sp| - 1].1)
    requires |tiles| > 0 && tiles[0].start == start && tiles[|tiles| - 1].stop == |nodes|
    requires forall k :: 0 <= k < |tiles| ==> start <= tiles[k].start < tiles[k].stop <= |nodes|
    requires forall k :: 0 <= k < |tiles| - 1 ==> tiles[k].stop == tiles[k + 1].start
    ensures Covers(sp + UpperSpans(tiles, sp), |nodes|, sp[|sp| - 1].1)
  {
    var n := |nodes|;
    var sp' := sp + UpperSpans(tiles, sp);
    forall j | n <= j < |sp'| - 1
      ensures sp'[j].1 == sp'[j + 1].0
    {
      assert tiles[j - n].stop == tiles[j - n + 1].start;
    }
  }

  /** The levels above a well-shaped level keep the tree well shaped, and
      the last node spans everything. */
  lemma {:induction false} LevelsOk(nodes: seq<Node>, start: nat, rs: seq<Rectangle>, sp: seq<(nat, nat)>)
    returns (sp': seq<(nat, nat)>)
    requires TreeWith(nodes, rs, sp) && start < |nodes| && Covers(sp, start, |rs|)
    ensures var r := Levels(nodes, start);
      TreeWith(r, rs, sp') && |r| > 0 && sp'[|r| - 1] == (0, |rs|)
    decreases |nodes| - start
  {
    if |nodes| - start <= 1 {
      sp' := sp;
    } else {
      var sp1 := LevelOk(nodes, rs, sp, start);
      var next := nodes + Tile(NodeRects(nodes), start, |nodes|, Inner);
      sp' := LevelsOk(next, |nodes|, rs, sp1);
    }
  }

  /** `rebuild` leaves no node exactly when there is no value; otherwise the
      tree is well shaped and its last node, the root, bounds every value's
      rectangle. */
  lemma BuildOk(rs: seq<Rectangle>) returns (sp: seq<(nat, nat)>)
    ensures TreeWith(Build(rs), rs, sp)
    ensures |Build(rs)| == 0 <==> |rs| == 0
    ensures |rs| > 0 ==> sp[|sp| - 1] == (0, |rs|) && Build(rs)[|sp| - 1].rect == Bound(rs)
  {
    if |rs| == 0 {
      sp := [];
    } else {
      var sp0 := LeavesOk(rs);
      sp := LevelsOk(Tile(rs, 0, |rs|, Leaf), 0, rs, sp0);
      assert NodeOk(Build(rs), rs, sp, |sp| - 1);
      assert rs[0..|rs|] == rs;
    }
  }

  /** The levels above `nodes` add only inner nodes. */
  lemma {:induction false} LevelsInner(nodes: seq<Node>, start: nat)
    requires start <= |nodes|
    ensures forall i :: |nodes| <= i < |Levels(nodes, start)| ==> Levels(nodes, start)[i].leaf == Inner
    decreases |nodes| - start
  {
    if |nodes| - start > 1 {
      var tiles := Tile(NodeRects(nodes), start, |nodes|, Inner);
      var next := nodes + tiles;
      LevelsInner(next, |nodes|);
      var r := Levels(nodes, start);
      assert r == Levels(next, |nodes|);
      forall i | |nodes| <= i < |next|
        ensures r[i].leaf == Inner
      {
        assert r[i] == next[i] == tiles[i - |nodes|];
        TileAt(NodeRects(nodes), start, |nodes|, Inner, i - |nodes|);
      }
    }
  }

  /** The first nodes are leaves over `[0, 8)`, `[8, 16)`, ..., the last one
      cut at the number of values; all later nodes are inner nodes. */
  lemma LeavesFirst(rs: seq<Rectangle>)
    ensures var leaves := (|rs| + FANOUT_SIZE - 1) / FANOUT_SIZE;
      && leaves <= |Build(rs)|
      && (forall k :: 0 <= k < leaves ==>
            Build(rs)[k] == Node(Bound(rs[FANOUT_SIZE * k..MinNat(|rs|, FANOUT_SIZE * k + FANOUT_SIZE)]),
                                 Leaf, FANOUT_SIZE * k, MinNat(|rs|, FANOUT_SIZE * k + FANOUT_SIZE)))
      && (forall i :: leaves <= i < |Build(rs)| ==> Build(rs)[i].leaf == Inner)
  {
    var tiles := Tile(rs, 0, |rs|, Leaf);
    LevelsInner(tiles, 0);
    assert Build(rs)[..|tiles|] == tiles;
    forall k | 0 <= k < |tiles|
      ensures Build(rs)[k] == Node(Bound(rs[FANOUT_SIZE * k..MinNat(|rs|, FANOUT_SIZE * k + FANOUT_SIZE)]),
                                   Leaf, FANOUT_SIZE * k, MinNat(|rs|, FANOUT_SIZE * k + FANOUT_SIZE))
    {
      assert Build(rs)[..|tiles|][k] == tiles[k];
      TileAt(rs, 0, |rs|, Leaf, k);
    }
  }
}
