/** What a query of the R-tree yields, as functions: the brute-force filter
    of the stored pairs by `intersects`, and the depth-first walk the
    iterator makes, which visits the children of an inner node left to
    right and descends only into nodes whose rectangle intersects the
    query. On a tree of the shape `rebuild` gives, the two agree. */
module RTreeQuery {
  import opened Rect
  import opened RTreeBuild
  import opened RTreeShape

  /** The stored pairs whose rectangle intersects `q`, in stored order. */
  function Matching<T>(values: seq<(Rectangle, T)>, q: Rectangle): (r: seq<(Rectangle, T)>)
    ensures |r| <= |values|
  {
    if |values| == 0 then []
    else
      (if Intersects(values[0].0, q) then [values[0]] else []) + Matching(values[1..], q)
  }

  /** The filter keeps exactly the pairs whose rectangle intersects `q`. */
  lemma {:induction false} MatchingMembers<T>(values: seq<(Rectangle, T)>, q: Rectangle)
    ensures forall x :: x in Matching(values, q) <==> x in values && Intersects(x.0, q)
  {
    if |values| > 0 {
      MatchingMembers(values[1..], q);
      assert values == [values[0]] + values[1..];
      var h := if Intersects(values[0].0, q) then [values[0]] else [];
      assert Matching(values, q) == h + Matching(values[1..], q);
    }
  }

  /** Each matching pair is yielded as many times as it is stored, the
      others never. */
  lemma {:induction false} MatchingCount<T>(values: seq<(Rectangle, T)>, q: Rectangle)
    ensures forall x :: multiset(Matching(values, q))[x] ==
                        (if Intersects(x.0, q) then multiset(values)[x] else 0)
  {
    if |values| > 0 {
      MatchingCount(values[1..], q);
      assert values == [values[0]] + values[1..];
    }
  }

  lemma {:induction false} MatchingConcat<T>(a: seq<(Rectangle, T)>, b: seq<(Rectangle, T)>, q: Rectangle)
    ensures Matching(a + b, q) == Matching(a, q) + Matching(b, q)
  {
    if |a| == 0 {
      assert a + b == b;
    } else {
      var h := if Intersects(a[0].0, q) then [a[0]] else [];
      var ab := a + b;
      assert ab[0] == a[0] && ab[1..] == a[1..] + b;
      assert Matching(ab, q) == h + Matching(a[1..] + b, q);
      assert Matching(a, q) == h + Matching(a[1..], q);
      MatchingConcat(a[1..], b, q);
      AppendAssoc(h, Matching(a[1..], q), Matching(b, q));
    }
  }

  lemma AppendAssoc<X>(x: seq<X>, y: seq<X>, z: seq<X>)
    ensures x + (y + z) == (x + y) + z
  {}

  /** Nothing matches under a rectangle the query misses. */
  lemma MatchingMissed<T>(values: seq<(Rectangle, T)>, q: Rectangle, c: Rectangle)
    requires forall i :: 0 <= i < |values| ==> Contains(c, values[i].0)
    requires !Intersects(c, q)
    ensures Matching(values, q) == []
  {
    if Matching(values, q) != [] {
      MatchingMembers(values, q);
      var x := Matching(values, q)[0];
      assert x in values;
      var i :| 0 <= i < |values| && values[i] == x;
      ContainsIntersects(c, x.0, q);
    }
  }

  /** A node points into the tree: a leaf at values, an inner node at nodes. */
  predicate Fits(nd: Node, nn: nat, nv: nat) {
    nd.start <= nd.stop && nd.stop <= (if nd.leaf == Leaf then nv else nn)
  }

  /** Every node fits, and an inner node points only at nodes before it. */
  predicate NodesFit(nodes: seq<Node>, nv: nat) {
    forall i :: 0 <= i < |nodes| ==>
      Fits(nodes[i], |nodes|, nv) && (nodes[i].leaf == Inner ==> nodes[i].stop <= i)
  }

  /** The pairs the walk yields below `nd`: the matching pairs of a leaf's
      values, or what the intersecting children of an inner node yield. */
  function Yield<T>(values: seq<(Rectangle, T)>, nodes: seq<Node>, q: Rectangle, nd: Node): seq<(Rectangle, T)>
    requires NodesFit(nodes, |values|) && Fits(nd, |nodes|, |values|)
    decreases if nd.leaf == Leaf then 0 else nd.stop, 1, 0
  {
    if nd.leaf == Leaf then Matching(values[nd.start..nd.stop], q)
    else Children(values, nodes, q, nd.start, nd.stop)
  }

  /** What the children `nodes[lo..hi]` yield, left to right. */
  function Children<T>(values: seq<(Rectangle, T)>, nodes: seq<Node>, q: Rectangle, lo: nat, hi: nat): seq<(Rectangle, T)>
    requires NodesFit(nodes, |values|) && lo <= hi <= |nodes|
    decreases hi, 0, hi - lo
  {
    if lo == hi then []
    else
      (if Intersects(nodes[lo].rect, q) then Yield(values, nodes, q, nodes[lo]) else [])
      + Children(values, nodes, q, lo + 1, hi)
  }

  /** An upper bound on the steps the walk takes below `nd`. */
  function Work(nodes: seq<Node>, nv: nat, nd: Node): nat
    requires NodesFit(nodes, nv) && Fits(nd, |nodes|, nv)
    decreases if nd.leaf == Leaf then 0 else nd.stop, 1, 0
  {
    if nd.leaf == Leaf then 1 + nd.stop - nd.start
    else 1 + ChildrenWork(nodes, nv, nd.start, nd.stop)
  }

  function ChildrenWork(nodes: seq<Node>, nv: nat, lo: nat, hi: nat): nat
    requires NodesFit(nodes, nv) && lo <= hi <= |nodes|
    decreases hi, 0, hi - lo
  {
    if lo == hi then 0
    else 1 + Work(nodes, nv, nodes[lo]) + ChildrenWork(nodes, nv, lo + 1, hi)
  }

  /** Every node on the stack points into the tree. */
  predicate StackFits(stack: seq<Node>, nn: nat, nv: nat) {
    forall i :: 0 <= i < |stack| ==> Fits(stack[i], nn, nv)
  }

  /** What is left to yield from a stack of partly walked nodes, the top
      (last) first. */
  function Pending<T>(values: seq<(Rectangle, T)>, nodes: seq<Node>, q: Rectangle, stack: seq<Node>): seq<(Rectangle, T)>
    requires NodesFit(nodes, |values|) && StackFits(stack, |nodes|, |values|)
  {
    if |stack| == 0 then []
    else Yield(values, nodes, q, stack[|stack| - 1]) + Pending(values, nodes, q, stack[..|stack| - 1])
  }

  function StackWork(nodes: seq<Node>, nv: nat, stack: seq<Node>): nat
    requires NodesFit(nodes, nv) && StackFits(stack, |nodes|, nv)
  {
    if |stack| == 0 then 0
    else Work(nodes, nv, stack[|stack| - 1]) + StackWork(nodes, nv, stack[..|stack| - 1])
  }

  /** Advancing a leaf's cursor past one value drops that value, if it
      matches, from what the leaf yields. */
  lemma LeafStep<T>(values: seq<(Rectangle, T)>, nodes: seq<Node>, q: Rectangle, nd: Node)
    requires NodesFit(nodes, |values|) && Fits(nd, |nodes|, |values|)
    requires nd.leaf == Leaf && nd.start < nd.stop
    ensures Fits(nd.(start := nd.start + 1), |nodes|, |values|)
    ensures Yield(values, nodes, q, nd) ==
      (if Intersects(values[nd.start].0, q) then [values[nd.start]] else [])
      + Yield(values, nodes, q, nd.(start := nd.start + 1))
  {
    assert values[nd.start..nd.stop][1..] == values[nd.start + 1..nd.stop];
  }

  /** Advancing an inner node's cursor past one child drops what that
      child yields, if it is entered, and the child's work. */
  lemma InnerStep<T>(values: seq<(Rectangle, T)>, nodes: seq<Node>, q: Rectangle, nd: Node)
    requires NodesFit(nodes, |values|) && Fits(nd, |nodes|, |values|)
    requires nd.leaf == Inner && nd.start < nd.stop
    ensures Fits(nd.(start := nd.start + 1), |nodes|, |values|) && Fits(nodes[nd.start], |nodes|, |values|)
    ensures Yield(values, nodes, q, nd) ==
      (if Intersects(nodes[nd.start].rect, q) then Yield(values, nodes, q, nodes[nd.start]) else [])
      + Yield(values, nodes, q, nd.(start := nd.start + 1))
    ensures Work(nodes, |values|, nd) ==
      1 + Work(nodes, |values|, nodes[nd.start]) + Work(nodes, |values|, nd.(start := nd.start + 1))
  {}

  /** Pushing `x` puts what it yields in front of what is pending. */
  lemma PendingPush<T>(values: seq<(Rectangle, T)>, nodes: seq<Node>, q: Rectangle, stack: seq<Node>, x: Node)
    requires NodesFit(nodes, |values|) && StackFits(stack, |nodes|, |values|) && Fits(x, |nodes|, |values|)
    ensures StackFits(stack + [x], |nodes|, |values|)
    ensures Pending(values, nodes, q, stack + [x]) == Yield(values, nodes, q, x) + Pending(values, nodes, q, stack)
    ensures StackWork(nodes, |values|, stack + [x]) == Work(nodes, |values|, x) + StackWork(nodes, |values|, stack)
  {
    assert (stack + [x])[..|stack|] == stack;
  }

  /** Popping the top leaves what is pending below it. */
  lemma PendingPop<T>(values: seq<(Rectangle, T)>, nodes: seq<Node>, q: Rectangle, stack: seq<Node>)
    requires NodesFit(nodes, |values|) && StackFits(stack, |nodes|, |values|) && |stack| > 0
    ensures StackFits(stack[..|stack| - 1], |nodes|, |values|) && Fits(stack[|stack| - 1], |nodes|, |values|)
    ensures Pending(values, nodes, q, stack)
            == Yield(values, nodes, q, stack[|stack| - 1]) + Pending(values, nodes, q, stack[..|stack| - 1])
    ensures StackWork(nodes, |values|, stack)
            == Work(nodes, |values|, stack[|stack| - 1]) + StackWork(nodes, |values|, stack[..|stack| - 1])
  {}

  /** A well-shaped tree points only into itself. */
  lemma TreeFits(nodes: seq<Node>, rs: seq<Rectangle>, sp: seq<(nat, nat)>)
    requires TreeWith(nodes, rs, sp)
    ensures NodesFit(nodes, |rs|)
  {
    forall i | 0 <= i < |nodes|
      ensures Fits(nodes[i], |nodes|, |rs|) && (nodes[i].leaf == Inner ==> nodes[i].stop <= i)
    {
      assert NodeOk(nodes, rs, sp, i);
    }
  }

  /** A node's rectangle contains the rectangle of every value in its span. */
  lemma SpanContains<T>(values: seq<(Rectangle, T)>, nodes: seq<Node>, sp: seq<(nat, nat)>, j: nat)
    requires TreeWith(nodes, Rects(values), sp) && j < |nodes|
    ensures sp[j].0 < sp[j].1 <= |values|
    ensures forall i :: 0 <= i < |values[sp[j].0..sp[j].1]| ==>
      Contains(nodes[j].rect, values[sp[j].0..sp[j].1][i].0)
  {
    assert NodeOk(nodes, Rects(values), sp, j);
    var rs := Rects(values)[sp[j].0..sp[j].1];
    BoundContains(rs);
    forall i | 0 <= i < |values[sp[j].0..sp[j].1]|
      ensures Contains(nodes[j].rect, values[sp[j].0..sp[j].1][i].0)
    {
      assert rs[i] == values[sp[j].0..sp[j].1][i].0;
    }
  }

  /** Below a node of a well-shaped tree, the walk yields the matching
      pairs of the node's span. */
  lemma {:induction false} YieldSpan<T>(values: seq<(Rectangle, T)>, nodes: seq<Node>, q: Rectangle, sp: seq<(nat, nat)>, i: nat)
    requires TreeWith(nodes, Rects(values), sp) && NodesFit(nodes, |values|) && i < |nodes|
    ensures NodeOk(nodes, Rects(values), sp, i) && Fits(nodes[i], |nodes|, |values|)
    ensures Yield(values, nodes, q, nodes[i]) == Matching(values[sp[i].0..sp[i].1], q)
    decreases i, 1, 0
  {
    var nd := nodes[i];
    assert NodeOk(nodes, Rects(values), sp, i);
    if nd.leaf == Inner {
      ChildrenSpan(values, nodes, q, sp, nd.start, nd.stop);
    }
  }

  /** What the walk takes from child `j`, entered only when its rectangle
      intersects the query, is the matching pairs of its span. */
  lemma {:induction false} NodePart<T>(values: seq<(Rectangle, T)>, nodes: seq<Node>, q: Rectangle, sp: seq<(nat, nat)>, j: nat)
    requires TreeWith(nodes, Rects(values), sp) && NodesFit(nodes, |values|) && j < |nodes|
    ensures sp[j].0 < sp[j].1 <= |values|
    ensures (if Intersects(nodes[j].rect, q) then Yield(values, nodes, q, nodes[j]) else [])
            == Matching(values[sp[j].0..sp[j].1], q)
    decreases j, 2, 0
  {
    SpanContains(values, nodes, sp, j);
    if Intersects(nodes[j].rect, q) {
      YieldSpan(values, nodes, q, sp, j);
    } else {
      MatchingMissed(values[sp[j].0..sp[j].1], q, nodes[j].rect);
    }
  }

  /** The walk over `nodes[lo..hi]` takes the matches of the first child's
      span, then walks the rest. */
  lemma {:induction false} ChildrenHead<T>(values: seq<(Rectangle, T)>, nodes: seq<Node>, q: Rectangle, sp: seq<(nat, nat)>, lo: nat, hi: nat)
    requires TreeWith(nodes, Rects(values), sp) && NodesFit(nodes, |values|) && lo < hi <= |nodes|
    ensures sp[lo].0 < sp[lo].1 <= |values|
    ensures Children(values, nodes, q, lo, hi)
            == Matching(values[sp[lo].0..sp[lo].1], q) + Children(values, nodes, q, lo + 1, hi)
    decreases hi, 0, 1
  {
    NodePart(values, nodes, q, sp, lo);
  }

  /** The same for the consecutive children `nodes[lo..hi]`. */
  lemma {:induction false} ChildrenSpan<T>(values: seq<(Rectangle, T)>, nodes: seq<Node>, q: Rectangle, sp: seq<(nat, nat)>, lo: nat, hi: nat)
    requires TreeWith(nodes, Rects(values), sp) && NodesFit(nodes, |values|)
    requires lo < hi <= |nodes| && Contiguous(sp, lo, hi)
    ensures sp[lo].0 <= sp[hi - 1].1 <= |values|
    ensures Children(values, nodes, q, lo, hi) == Matching(values[sp[lo].0..sp[hi - 1].1], q)
    decreases hi, 0, 2 + hi - lo
  {
    ChildrenHead(values, nodes, q, sp, lo, hi);
    if hi - lo > 1 {
      ContiguousTail(sp, lo, hi);
      ChildrenSpan(values, nodes, q, sp, lo + 1, hi);
      JoinSpans(values, q, sp[lo].0, sp[lo].1, sp[hi - 1].1);
    } else {
      assert Children(values, nodes, q, hi, hi) == [];
    }
  }

  /** The matches of two adjacent runs make up the matches of their union. */
  lemma JoinSpans<T>(values: seq<(Rectangle, T)>, q: Rectangle, a: nat, b: nat, c: nat)
    requires a <= b <= c <= |values|
    ensures Matching(values[a..b], q) + Matching(values[b..c], q) == Matching(values[a..c], q)
  {
    assert values[a..c] == values[a..b] + values[b..c];
    MatchingConcat(values[a..b], values[b..c], q);
  }

  /** The walk from the root, entered only when the root's rectangle
      intersects the query; an empty tree yields nothing. */
  function FromRoot<T>(values: seq<(Rectangle, T)>, nodes: seq<Node>, q: Rectangle): seq<(Rectangle, T)>
    requires NodesFit(nodes, |values|)
  {
    if |nodes| == 0 || !Intersects(nodes[|nodes| - 1].rect, q) then []
    else Yield(values, nodes, q, nodes[|nodes| - 1])
  }

  /** On the tree `rebuild` makes, the walk from the root yields exactly
      the matching pairs. */
  lemma RootYield<T>(values: seq<(Rectangle, T)>, nodes: seq<Node>, q: Rectangle)
    requires nodes == Build(Rects(values))
    ensures NodesFit(nodes, |values|)
    ensures |nodes| == 0 <==> |values| == 0
    ensures FromRoot(values, nodes, q) == Matching(values, q)
  {
    var rs := Rects(values);
    var sp := BuildOk(rs);
    TreeFits(nodes, rs, sp);
    if |nodes| > 0 {
      RootSpan(values, nodes, q, sp);
    }
  }

  /** The root of a nonempty tree spans every pair, so the walk from it
      yields all the matches. */
  lemma RootSpan<T>(values: seq<(Rectangle, T)>, nodes: seq<Node>, q: Rectangle, sp: seq<(nat, nat)>)
    requires TreeWith(nodes, Rects(values), sp) && NodesFit(nodes, |values|)
    requires |nodes| > 0 && sp[|sp| - 1] == (0, |values|)
    ensures FromRoot(values, nodes, q) == Matching(values, q)
  {
    var last := |nodes| - 1;
    assert values[sp[last].0..sp[last].1] == values;
    NodePart(values, nodes, q, sp, last);
  }
}
