/** The static R-tree: the stored pairs, sorted by the Morton key of their
    centres, and the nodes `rebuild` derives from them, leaves first and the
    root last; and the query iterator, which walks the nodes depth first
    with a stack of partly visited nodes. */
module RTree {
  import opened Rect
  import opened RTreeBuild
  import opened RTreeShape
  import opened RTreeQuery
  import opened Options

  class RTree<T> {
    var nodes: seq<Node>
    var values: seq<(Rectangle, T)>

    /** The values are in centre order and the nodes are the ones `rebuild`
        derives from them. Every public operation keeps this. */
    ghost predicate Valid()
      reads this
    {
      SortedByCenter(values) && nodes == Build(Rects(values))
    }

    /** `RTree::new`: no values, no nodes. */
    constructor()
      ensures values == [] && nodes == [] && Valid()
    {
      values := [];
      nodes := [];
    }

    /** `RTree::rebuild`: sorts the values by centre, stably, then tiles
        them into leaves and the leaves into levels of inner nodes. */
    method Rebuild()
      modifies this
      ensures values == SortByCenter(old(values)) && nodes == Build(Rects(values))
      ensures multiset(values) == multiset(old(values)) && Valid()
    {
      var vs := SortByCenter(values);
      SortSorted(values, Key);
      var ns := Leaves(vs);
      var start: nat, stop: nat := 0, |ns|;
      while stop - start > 1
        invariant start <= stop == |ns|
        invariant Levels(ns, start) == Build(Rects(vs))
        decreases stop - start
      {
        ns := Level(ns, start);
        start, stop := stop, |ns|;
      }
      values, nodes := vs, ns;
    }

    /** `RTree::clear`. */
    method Clear()
      modifies this
      ensures values == [] && nodes == [] && Valid()
    {
      values := [];
      nodes := [];
    }

    /** `RTree::extend`: appends the batch and rebuilds. */
    method Extend(batch: seq<(Rectangle, T)>)
      modifies this
      ensures values == SortByCenter(old(values) + batch) && Valid()
      ensures multiset(values) == multiset(old(values)) + multiset(batch)
    {
      values := values + batch;
      Rebuild();
    }

    /** `RTree::query`: an iterator that starts at the root, if there is
        one and it intersects `q`. What it will yield is exactly the stored
        pairs whose rectangle intersects `q`, in stored order. */
    method Query(q: Rectangle) returns (it: Iter<T>)
      requires Valid()
      ensures fresh(it) && it.Valid() && it.query == q && it.values == values && it.nodes == nodes
      ensures it.Remaining() == Matching(values, q)
    {
      RootYield(values, nodes, q);
      var toCheck := Start(values, nodes, q);
      it := new Iter(q, values, nodes, toCheck);
    }
  }

  /** The stack a query starts from: the root alone when there is one and
      it intersects `q`, otherwise nothing. */
  method Start<T>(values: seq<(Rectangle, T)>, nodes: seq<Node>, q: Rectangle) returns (toCheck: seq<Node>)
    requires NodesFit(nodes, |values|)
    ensures StackFits(toCheck, |nodes|, |values|)
    ensures Pending(values, nodes, q, toCheck) == FromRoot(values, nodes, q)
  {
    toCheck := [];
    if |nodes| >= 1 && Intersects(nodes[|nodes| - 1].rect, q) {
      var root := nodes[|nodes| - 1];
      PendingPush(values, nodes, q, toCheck, root);
      toCheck := toCheck + [root];
      assert Pending(values, nodes, q, toCheck) == Yield(values, nodes, q, root) + [];
      assert Pending(values, nodes, q, toCheck) == FromRoot(values, nodes, q);
    }
  }

  /** The bounding box of the rectangles of `vs[start..end]`, extended one
      value at a time as the leaf pass of `RTree::rebuild` does. */
  method LeafBound<T>(vs: seq<(Rectangle, T)>, start: nat, end: nat) returns (rect: Rectangle)
    requires start < end <= |vs|
    ensures rect == Bound(Rects(vs)[start..end])
  {
    ghost var rs := Rects(vs);
    rect := vs[start].0;
    for i := start + 1 to end
      invariant rect == Bound(rs[start..i])
    {
      BoundSnoc(rs, start, i);
      rect := Rect.Extend(rect, vs[i].0);
    }
  }

  /** The same over the rectangles of the nodes `ns[start..end]`. */
  method InnerBound(ns: seq<Node>, start: nat, end: nat) returns (rect: Rectangle)
    requires start < end <= |ns|
    ensures rect == Bound(NodeRects(ns)[start..end])
  {
    ghost var rs := NodeRects(ns);
    rect := ns[start].rect;
    for i := start + 1 to end
      invariant rect == Bound(rs[start..i])
    {
      BoundSnoc(rs, start, i);
      rect := Rect.Extend(rect, ns[i].rect);
    }
  }

  /** The leaf pass of `RTree::rebuild`: one leaf per run of `FANOUT_SIZE`
      consecutive values, bounding their rectangles. */
  method Leaves<T>(vs: seq<(Rectangle, T)>) returns (ns: seq<Node>)
    ensures ns == Tile(Rects(vs), 0, |vs|, Leaf)
  {
    ghost var rs := Rects(vs);
    ns := [];
    var start, stop := 0, |vs|;
    while start != stop
      invariant start <= stop == |vs| == |rs|
      invariant ns + Tile(rs, start, stop, Leaf) == Tile(rs, 0, stop, Leaf)
      decreases stop - start
    {
      var end := MinNat(stop, start + FANOUT_SIZE);
      var rect := LeafBound(vs, start, end);
      TileAppend(ns, rs, start, stop, Leaf, rect);
      ns := ns + [Node(rect, Leaf, start, end)];
      start := end;
    }
    assert Tile(rs, stop, stop, Leaf) == [];
  }

  /** One inner pass of `RTree::rebuild`: the nodes of the last level,
      `ns[start..]`, are grouped in runs of `FANOUT_SIZE` under new inner
      nodes appended after them. The runs read only the nodes that were
      there before the pass, so they are read from `ns`. */
  method Level(ns: seq<Node>, start: nat) returns (ns': seq<Node>)
    requires start <= |ns|
    ensures ns' == ns + Tile(NodeRects(ns), start, |ns|, Inner)
  {
    ghost var below := NodeRects(ns);
    ns' := ns;
    var lo, stop := start, |ns|;
    while lo != stop
      invariant start <= lo <= stop == |ns| == |below|
      invariant ns' + Tile(below, lo, stop, Inner) == ns + Tile(below, start, stop, Inner)
      decreases stop - lo
    {
      var end := MinNat(stop, lo + FANOUT_SIZE);
      var rect := InnerBound(ns, lo, end);
      TileAppend(ns', below, lo, stop, Inner, rect);
      ns' := ns' + [Node(rect, Inner, lo, end)];
      lo := end;
    }
    assert Tile(below, stop, stop, Inner) == [];
  }

  /** `FromIterator for RTree`: a new tree extended by the batch. */
  method FromSeq<T>(batch: seq<(Rectangle, T)>) returns (tree: RTree<T>)
    ensures fresh(tree) && tree.Valid() && tree.values == SortByCenter(batch)
  {
    tree := new RTree();
    assert tree.values + batch == batch;
    tree.Extend(batch);
  }

  /** The leaf branch of `Iter::next`: advances the leaf's cursor to just
      past the first value that intersects `q`, or to its end. */
  method ScanLeaf<T>(values: seq<(Rectangle, T)>, nodes: seq<Node>, q: Rectangle, nd: Node)
      returns (ret: Option<(Rectangle, T)>, rest: Node)
    requires NodesFit(nodes, |values|) && Fits(nd, |nodes|, |values|) && nd.leaf == Leaf
    ensures rest.leaf == Leaf && Fits(rest, |nodes|, |values|)
    ensures Work(nodes, |values|, rest) <= Work(nodes, |values|, nd)
    ensures ret.None? ==> rest.start == rest.stop && Yield(values, nodes, q, nd) == []
    ensures ret.Some? ==> Yield(values, nodes, q, nd) == [ret.value] + Yield(values, nodes, q, rest)
  {
    rest := nd;
    ret := None;
    while ret.None? && rest.start != rest.stop
      invariant rest.leaf == Leaf && Fits(rest, |nodes|, |values|) && rest.stop == nd.stop && nd.start <= rest.start
      invariant ret.None? ==> Yield(values, nodes, q, nd) == Yield(values, nodes, q, rest)
      invariant ret.Some? ==> Yield(values, nodes, q, nd) == [ret.value] + Yield(values, nodes, q, rest)
      decreases rest.stop - rest.start
    {
      LeafStep(values, nodes, q, rest);
      var idx := rest.start;
      rest := rest.(start := rest.start + 1);
      if Intersects(values[idx].0, q) {
        ret := Some(values[idx]);
      }
    }
    if ret.None? {
      assert Yield(values, nodes, q, rest) == [];
    }
  }

  /** The inner branch of `Iter::next`: advances the node's cursor to just
      past the first child whose rectangle intersects `q`; when there is
      none the node is spent and yields nothing. */
  method ScanInner<T>(values: seq<(Rectangle, T)>, nodes: seq<Node>, q: Rectangle, nd: Node)
      returns (found: bool, idx: nat, rest: Node)
    requires NodesFit(nodes, |values|) && Fits(nd, |nodes|, |values|) && nd.leaf == Inner
    ensures found ==> idx < |nodes| && Intersects(nodes[idx].rect, q)
    ensures found ==> rest.leaf == Inner && Fits(rest, |nodes|, |values|) && Fits(nodes[idx], |nodes|, |values|)
    ensures found ==> Yield(values, nodes, q, nd) == Yield(values, nodes, q, nodes[idx]) + Yield(values, nodes, q, rest)
    ensures found ==> Work(nodes, |values|, nodes[idx]) + Work(nodes, |values|, rest) < Work(nodes, |values|, nd)
    ensures !found ==> Yield(values, nodes, q, nd) == []
  {
    rest := nd;
    while true
      invariant rest.leaf == Inner && Fits(rest, |nodes|, |values|)
      invariant Yield(values, nodes, q, nd) == Yield(values, nodes, q, rest)
      invariant Work(nodes, |values|, rest) <= Work(nodes, |values|, nd)
      decreases rest.stop - rest.start
    {
      idx := rest.start;
      ghost var before := rest;
      rest := rest.(start := rest.start + 1);
      if idx == rest.stop {
        assert Yield(values, nodes, q, before) == [];
        return false, idx, rest;
      }
      InnerStep(values, nodes, q, before);
      if Intersects(nodes[idx].rect, q) {
        return true, idx, rest;
      }
    }
  }

  /** The loop of `Iter::next` over the stack of partly walked nodes (top
      last): pops nodes, scanning leaves for the next match and descending
      into the next intersecting child of inner nodes, until a match is
      found or the stack is empty. */
  method Advance<T>(values: seq<(Rectangle, T)>, nodes: seq<Node>, q: Rectangle, stack0: seq<Node>)
      returns (r: Option<(Rectangle, T)>, stack: seq<Node>)
    requires NodesFit(nodes, |values|) && StackFits(stack0, |nodes|, |values|)
    ensures StackFits(stack, |nodes|, |values|)
    ensures Pending(values, nodes, q, stack0) == [] ==> r == None && Pending(values, nodes, q, stack) == []
    ensures Pending(values, nodes, q, stack0) != [] ==>
      r == Some(Pending(values, nodes, q, stack0)[0]) && Pending(values, nodes, q, stack) == Pending(values, nodes, q, stack0)[1..]
  {
    ghost var want := Pending(values, nodes, q, stack0);
    stack := stack0;
    while true
      invariant StackFits(stack, |nodes|, |values|)
      invariant Pending(values, nodes, q, stack) == want
      decreases StackWork(nodes, |values|, stack)
    {
      if |stack| == 0 {
        return None, stack;
      }
      if stack[|stack| - 1].leaf == Leaf {
        var ret;
        ret, stack := StepLeaf(values, nodes, q, stack);
        if ret.Some? {
          assert want == [ret.value] + Pending(values, nodes, q, stack);
          return ret, stack;
        }
      } else {
        stack := StepInner(values, nodes, q, stack);
      }
    }
  }

  /** One round of `Iter::next` on a leaf on top of the stack: the leaf is
      popped, scanned to its next match, and pushed back if values remain. */
  method StepLeaf<T>(values: seq<(Rectangle, T)>, nodes: seq<Node>, q: Rectangle, stack: seq<Node>)
      returns (ret: Option<(Rectangle, T)>, stack': seq<Node>)
    requires NodesFit(nodes, |values|) && StackFits(stack, |nodes|, |values|)
    requires |stack| > 0 && stack[|stack| - 1].leaf == Leaf
    ensures StackFits(stack', |nodes|, |values|)
    ensures ret.None? ==> StackWork(nodes, |values|, stack') < StackWork(nodes, |values|, stack)
    ensures ret.None? ==> Pending(values, nodes, q, stack') == Pending(values, nodes, q, stack)
    ensures ret.Some? ==> Pending(values, nodes, q, stack) == [ret.value] + Pending(values, nodes, q, stack')
  {
    var last := stack[|stack| - 1];
    PendingPop(values, nodes, q, stack);
    stack' := stack[..|stack| - 1];
    var rest;
    ret, rest := ScanLeaf(values, nodes, q, last);
    if rest.start != rest.stop {
      PendingPush(values, nodes, q, stack', rest);
      stack' := stack' + [rest];
    }
  }

  /** One round of `Iter::next` on an inner node on top of the stack: the
      node is popped; if a further child intersects the query, the node
      (advanced past that child) and then the child are pushed. */
  method StepInner<T>(values: seq<(Rectangle, T)>, nodes: seq<Node>, q: Rectangle, stack: seq<Node>)
      returns (stack': seq<Node>)
    requires NodesFit(nodes, |values|) && StackFits(stack, |nodes|, |values|)
    requires |stack| > 0 && stack[|stack| - 1].leaf == Inner
    ensures StackFits(stack', |nodes|, |values|)
    ensures StackWork(nodes, |values|, stack') < StackWork(nodes, |values|, stack)
    ensures Pending(values, nodes, q, stack') == Pending(values, nodes, q, stack)
  {
    var last := stack[|stack| - 1];
    PendingPop(values, nodes, q, stack);
    stack' := stack[..|stack| - 1];
    var found, idx, rest := ScanInner(values, nodes, q, last);
    if found {
      var below := stack';
      PendingPush(values, nodes, q, below, rest);
      var mid := below + [rest];
      PendingPush(values, nodes, q, mid, nodes[idx]);
      stack' := mid + [nodes[idx]];
      calc {
        Pending(values, nodes, q, stack');
        Yield(values, nodes, q, nodes[idx]) + (Yield(values, nodes, q, rest) + Pending(values, nodes, q, below));
        (Yield(values, nodes, q, nodes[idx]) + Yield(values, nodes, q, rest)) + Pending(values, nodes, q, below);
        Pending(values, nodes, q, stack);
      }
    }
  }

  /** The query iterator over a snapshot of the tree; the tree is borrowed
      for the iterator's lifetime, so the snapshot stays current. */
  class Iter<T> {
    const query: Rectangle
    const values: seq<(Rectangle, T)>
    const nodes: seq<Node>
    var toCheck: seq<Node>

    ghost predicate Valid()
      reads this
    {
      NodesFit(nodes, |values|) && StackFits(toCheck, |nodes|, |values|)
    }

    /** What the iterator has left to yield. */
    ghost function Remaining(): seq<(Rectangle, T)>
      reads this
      requires Valid()
    {
      Pending(values, nodes, query, toCheck)
    }

    constructor(query: Rectangle, values: seq<(Rectangle, T)>, nodes: seq<Node>, toCheck: seq<Node>)
      requires NodesFit(nodes, |values|) && StackFits(toCheck, |nodes|, |values|)
      ensures this.query == query && this.values == values && this.nodes == nodes && this.toCheck == toCheck
      ensures Valid()
    {
      this.query := query;
      this.values := values;
      this.nodes := nodes;
      this.toCheck := toCheck;
    }

    /** `Iter::next`: yields the first remaining pair, or `None` when there
        is none left. */
    method Next() returns (r: Option<(Rectangle, T)>)
      requires Valid()
      modifies this
      ensures Valid()
      ensures old(Remaining()) == [] ==> r == None && Remaining() == []
      ensures old(Remaining()) != [] ==> r == Some(old(Remaining())[0]) && Remaining() == old(Remaining())[1..]
    {
      r, toCheck := Advance(values, nodes, query, toCheck);
    }

    /** Drains the iterator: everything it had left, in order. */
    method Collect() returns (all: seq<(Rectangle, T)>)
      requires Valid()
      modifies this
      ensures all == old(Remaining())
    {
      all := [];
      while true
        invariant Valid() && all + Remaining() == old(Remaining())
        decreases |Remaining()|
      {
        var r := Next();
        if r.None? {
          return;
        }
        all := all + [r.value];
      }
    }
  }
}
