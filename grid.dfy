/** The spatial hash grid: space is cut into square cells of `BIN_SIZE`
    units, each cell is hashed to one of `GRID_COUNT` bins, and a bin holds
    the ids of every stored rectangle that covers one of its cells. A query
    visits the bins of the cells under the query rectangle and yields the
    ids whose stored rectangle intersects it. */
module Grid {
  import opened Ints
  import opened Options

  const HASH_X: int := 1888347217
  const HASH_Y: int := 1424909897
  const BIN_SIZE: int := 8
  const GRID_COUNT: nat := 1024

  // ---- hashing a cell to its bin ----

  /** `bin`: the wrapping `i32` hash `x * HASH_X + y * HASH_Y`, taken as
      `usize` and reduced modulo `GRID_COUNT`. */
  function Bin(x: Int32, y: Int32): (r: nat)
    ensures r < GRID_COUNT
  {
    var coord := AsInt32(AsInt32(x * HASH_X) + AsInt32(y * HASH_Y));
    AsUSize(coord) % GRID_COUNT
  }

  /** `v` and `r` differ by a multiple of `m`. */
  lemma Multiple(v: int, r: int, m: int) returns (k: int)
    requires m > 0 && (r - v) % m == 0
    ensures r == v + m * k
  {
    k := (r - v) / m;
  }

  /** Since `GRID_COUNT` divides 2^32 and 2^64, the wrap-arounds and the cast
      do not matter: the bin is the exact hash modulo `GRID_COUNT`, which is
      its low 10 bits. */
  lemma BinLinear(x: Int32, y: Int32)
    ensures Bin(x, y) == (x * HASH_X + y * HASH_Y) % GRID_COUNT
  {
    var a, b := x * HASH_X, y * HASH_Y;
    var ra: int, rb: int := AsInt32(a), AsInt32(b);
    var c := AsInt32(ra + rb);
    var u := AsUSize(c);
    var ka := Multiple(a, ra, 0x1_0000_0000);
    var kb := Multiple(b, rb, 0x1_0000_0000);
    var kc := Multiple(ra + rb, c, 0x1_0000_0000);
    var ku := Multiple(c, u, 0x1_0000_0000_0000_0000);
    var k := 0x40_0000 * (ka + kb + kc) + 0x40_0000_0000_0000 * ku;
    assert u == a + b + GRID_COUNT * k;
    var s := a + b;
    assert s == GRID_COUNT * (s / GRID_COUNT) + s % GRID_COUNT;
    DivModUnique(u, GRID_COUNT, s / GRID_COUNT + k, s % GRID_COUNT);
  }

  // ---- rectangles ----

  /** A grid rectangle: the corner `(x, y)` and the extent `width` by
      `height`; it covers the points `x <= px < x + width`,
      `y <= py < y + height`. */
  datatype Rectangle = Rectangle(x: Int32, y: Int32, width: Int32, height: Int32) {

    /** The far corner is an `i32`: Rust's `+` panics on overflow in debug
        builds, so `max` and `iter` demand this. */
    predicate Fits() {
      InInt32(x + width) && InInt32(y + height)
    }

    /** `Rectangle::max`: the far corner. */
    function Max(): (Int32, Int32)
      requires Fits()
    {
      (x + width, y + height)
    }

    predicate Covers(px: int, py: int) {
      x <= px < x + width && y <= py < y + height
    }

    /** Positive width and height: the rectangle covers some point. */
    predicate NonEmpty() {
      width > 0 && height > 0
    }

    /** No negative width or height. */
    predicate Upright() {
      width >= 0 && height >= 0
    }

    /** `Rectangle::intersects`: strict on both axes. */
    predicate Intersects(b: Rectangle)
      requires Fits() && b.Fits()
    {
      var (aMaxX, aMaxY) := Max();
      var (bMaxX, bMaxY) := b.Max();
      !(x >= bMaxX || y >= bMaxY || b.x >= aMaxX || b.y >= aMaxY)
    }
  }

  /** Rectangles with a common point intersect, and non-empty rectangles
      intersect only when they have one; so rectangles that only share an
      edge do not intersect. (An empty rectangle, of zero or negative extent,
      can still pass the test.) */
  lemma IntersectsPoint(a: Rectangle, b: Rectangle)
    requires a.Fits() && b.Fits()
    ensures (exists px, py :: a.Covers(px, py) && b.Covers(px, py)) ==> a.Intersects(b)
    ensures a.NonEmpty() && b.NonEmpty() && a.Intersects(b) ==>
      exists px, py :: a.Covers(px, py) && b.Covers(px, py)
  {
    if a.NonEmpty() && b.NonEmpty() && a.Intersects(b) {
      var px := if a.x < b.x then b.x else a.x;
      var py := if a.y < b.y then b.y else a.y;
      assert a.Covers(px, py) && b.Covers(px, py);
    }
  }

  lemma IntersectsSymmetric(a: Rectangle, b: Rectangle)
    requires a.Fits() && b.Fits()
    ensures a.Intersects(b) <==> b.Intersects(a)
  {}

  /** The test is strict: a rectangle and its neighbour across the right
      edge do not intersect. */
  lemma SharedEdgeApart(a: Rectangle, w: Int32)
    requires a.Fits() && Rectangle(a.x + a.width, a.y, w, a.height).Fits()
    ensures !a.Intersects(Rectangle(a.x + a.width, a.y, w, a.height))
  {}

  /** A non-empty rectangle intersects itself. */
  lemma IntersectsSelf(r: Rectangle)
    requires r.Fits() && r.NonEmpty()
    ensures r.Intersects(r)
  {
    assert r.Covers(r.x, r.y);
    IntersectsPoint(r, r);
  }

  // ---- cells ----

  /** `v / BIN_SIZE` in Rust: the cell of a coordinate, the quotient
      rounded toward zero, so cell 0 spans `-7..=7`. */
  function CellOf(v: Int32): (c: Int32)
    ensures 0 <= v ==> BIN_SIZE * c <= v < BIN_SIZE * c + BIN_SIZE
    ensures v < 0 ==> BIN_SIZE * c - BIN_SIZE < v <= BIN_SIZE * c
    ensures -0x1000_0000 <= c <= 0x1000_0000
  {
    TruncDivBounds(v, BIN_SIZE);
    TruncDiv(v, BIN_SIZE)
  }

  lemma CellOfMonotone(a: Int32, b: Int32)
    requires a <= b
    ensures CellOf(a) <= CellOf(b)
  {}

  /** The cells `(cx, y)` for `lo <= cx < hi`, left to right. */
  function Row(lo: Int32, hi: Int32, y: Int32): seq<(Int32, Int32)>
    decreases hi - lo
  {
    if lo >= hi then [] else [(lo, y)] + Row(lo + 1, hi, y)
  }

  /** The cells of the columns `xlo..xhi` and rows `ylo..yhi`, row by row. */
  function Cells(xlo: Int32, xhi: Int32, ylo: Int32, yhi: Int32): seq<(Int32, Int32)>
    decreases yhi - ylo
  {
    if ylo >= yhi then [] else Row(xlo, xhi, ylo) + Cells(xlo, xhi, ylo + 1, yhi)
  }

  /** The half-open cell ranges `Rectangle::iter` walks: from the cell of
      the near corner to one past the cell of the far corner. */
  function CellRanges(r: Rectangle): (Int32, Int32, Int32, Int32)
    requires r.Fits()
  {
    (CellOf(r.x), CellOf(r.x + r.width) + 1, CellOf(r.y), CellOf(r.y + r.height) + 1)
  }

  function CellsOf(r: Rectangle): seq<(Int32, Int32)>
    requires r.Fits()
  {
    var (xlo, xhi, ylo, yhi) := CellRanges(r);
    Cells(xlo, xhi, ylo, yhi)
  }

  lemma {:induction false} RowMembers(lo: Int32, hi: Int32, y: Int32)
    ensures forall c :: c in Row(lo, hi, y) <==> lo <= c.0 < hi && c.1 == y
    decreases hi - lo
  {
    if lo < hi {
      RowMembers(lo + 1, hi, y);
    }
  }

  /** The cells are exactly those of the column and row ranges. */
  lemma {:induction false} CellsMembers(xlo: Int32, xhi: Int32, ylo: Int32, yhi: Int32)
    ensures forall c :: c in Cells(xlo, xhi, ylo, yhi) <==> xlo <= c.0 < xhi && ylo <= c.1 < yhi
    decreases yhi - ylo
  {
    if ylo < yhi {
      RowMembers(xlo, xhi, ylo);
      CellsMembers(xlo, xhi, ylo + 1, yhi);
    }
  }

  predicate Distinct<X(==)>(s: seq<X>) {
    forall i, j :: 0 <= i < j < |s| ==> s[i] != s[j]
  }

  lemma {:induction false} RowDistinct(lo: Int32, hi: Int32, y: Int32)
    ensures Distinct(Row(lo, hi, y))
    decreases hi - lo
  {
    if lo < hi {
      RowDistinct(lo + 1, hi, y);
      RowMembers(lo + 1, hi, y);
      var r := Row(lo, hi, y);
      assert r == [(lo, y)] + Row(lo + 1, hi, y);
      forall i, j | 0 <= i < j < |r|
        ensures r[i] != r[j]
      {
        if i == 0 {
          assert r[j] in Row(lo + 1, hi, y);
        }
      }
    }
  }

  lemma DistinctConcat<X>(a: seq<X>, b: seq<X>)
    requires Distinct(a) && Distinct(b)
    requires forall x :: x in a ==> x !in b
    ensures Distinct(a + b)
  {
    forall i, j | 0 <= i < j < |a + b|
      ensures (a + b)[i] != (a + b)[j]
    {
      if j < |a| {
        assert (a + b)[i] == a[i] && (a + b)[j] == a[j];
      } else if i < |a| {
        assert (a + b)[i] == a[i] && (a + b)[j] == b[j - |a|];
        assert a[i] in a && b[j - |a|] in b;
      } else {
        assert (a + b)[i] == b[i - |a|] && (a + b)[j] == b[j - |a|];
      }
    }
  }

  /** Every cell is listed once. */
  lemma {:induction false} CellsDistinct(xlo: Int32, xhi: Int32, ylo: Int32, yhi: Int32)
    ensures Distinct(Cells(xlo, xhi, ylo, yhi))
    decreases yhi - ylo
  {
    if ylo < yhi {
      RowDistinct(xlo, xhi, ylo);
      CellsDistinct(xlo, xhi, ylo + 1, yhi);
      RowMembers(xlo, xhi, ylo);
      CellsMembers(xlo, xhi, ylo + 1, yhi);
      DistinctConcat(Row(xlo, xhi, ylo), Cells(xlo, xhi, ylo + 1, yhi));
    }
  }

  /** Row by row, and left to right within a row. */
  predicate RowMajor(s: seq<(Int32, Int32)>) {
    forall i, j :: 0 <= i < j < |s| ==> s[i].1 < s[j].1 || (s[i].1 == s[j].1 && s[i].0 < s[j].0)
  }

  lemma {:induction false} RowOrdered(lo: Int32, hi: Int32, y: Int32)
    ensures RowMajor(Row(lo, hi, y))
    decreases hi - lo
  {
    if lo < hi {
      var t := Row(lo + 1, hi, y);
      RowOrdered(lo + 1, hi, y);
      RowMembers(lo + 1, hi, y);
      var s := Row(lo, hi, y);
      assert s == [(lo, y)] + t;
      forall i, j | 0 <= i < j < |s|
        ensures s[i].1 < s[j].1 || (s[i].1 == s[j].1 && s[i].0 < s[j].0)
      {
        if i == 0 {
          assert s[j] == t[j - 1] && t[j - 1] in t;
        } else {
          assert s[i] == t[i - 1] && s[j] == t[j - 1];
        }
      }
    }
  }

  /** The cells are listed row by row, and left to right within a row. */
  lemma {:induction false} CellsOrdered(xlo: Int32, xhi: Int32, ylo: Int32, yhi: Int32)
    ensures RowMajor(Cells(xlo, xhi, ylo, yhi))
    decreases yhi - ylo
  {
    if ylo < yhi {
      var a, b := Row(xlo, xhi, ylo), Cells(xlo, xhi, ylo + 1, yhi);
      CellsOrdered(xlo, xhi, ylo + 1, yhi);
      RowOrdered(xlo, xhi, ylo);
      RowMembers(xlo, xhi, ylo);
      CellsMembers(xlo, xhi, ylo + 1, yhi);
      var s := a + b;
      assert s == Cells(xlo, xhi, ylo, yhi);
      forall i, j | 0 <= i < j < |s|
        ensures s[i].1 < s[j].1 || (s[i].1 == s[j].1 && s[i].0 < s[j].0)
      {
        if j < |a| {
          assert s[i] == a[i] && s[j] == a[j];
        } else if i < |a| {
          assert s[i] == a[i] && a[i] in a && s[j] == b[j - |a|] && b[j - |a|] in b;
        } else {
          assert s[i] == b[i - |a|] && s[j] == b[j - |a|];
        }
      }
    }
  }

  /** The cell of any point of a rectangle, its far edges included, is
      among the rectangle's cells. */
  lemma CellCovers(r: Rectangle, px: Int32, py: Int32)
    requires r.Fits() && r.x <= px <= r.x + r.width && r.y <= py <= r.y + r.height
    ensures (CellOf(px), CellOf(py)) in CellsOf(r)
  {
    CellOfMonotone(r.x, px);
    CellOfMonotone(px, r.x + r.width);
    CellOfMonotone(r.y, py);
    CellOfMonotone(py, r.y + r.height);
    var (xlo, xhi, ylo, yhi) := CellRanges(r);
    CellsMembers(xlo, xhi, ylo, yhi);
  }

  /** Intersecting rectangles of non-negative extent share a cell. */
  lemma SharedCell(a: Rectangle, b: Rectangle)
    requires a.Fits() && b.Fits() && a.Upright() && b.Upright() && a.Intersects(b)
    ensures exists c :: c in CellsOf(a) && c in CellsOf(b)
  {
    var px := if a.x < b.x then b.x else a.x;
    var py := if a.y < b.y then b.y else a.y;
    CellCovers(a, px, py);
    CellCovers(b, px, py);
  }

  // ---- walking the cells of a rectangle ----

  /** The length of the range `lo..hi`. */
  function Len(lo: Int32, hi: Int32): nat {
    if lo < hi then hi - lo else 0
  }

  /** `RecIter`: the cursor `cx` over the current row `cy`, the column range
      `x` every row restarts from, and the rows `y` still to start. */
  class RecIter {
    var cxLo: Int32
    var cxHi: Int32
    var cy: Int32
    var xLo: Int32
    var xHi: Int32
    var yLo: Int32
    var yHi: Int32

    /** The cells still to come: the rest of the current row, then the
        rows not yet started. */
    ghost function Remaining(): seq<(Int32, Int32)>
      reads this
    {
      Row(cxLo, cxHi, cy) + Cells(xLo, xHi, yLo, yHi)
    }

    /** `Rectangle::iter`: an empty current row, and the cell ranges of
        `r`. */
    constructor(r: Rectangle)
      requires r.Fits()
      ensures Remaining() == CellsOf(r)
    {
      var (xlo, xhi, ylo, yhi) := CellRanges(r);
      cxLo, cxHi, cy := 0, 0, 0;
      xLo, xHi := xlo, xhi;
      yLo, yHi := ylo, yhi;
    }

    /** `RecIter::next`: the next cell of the rest of the row, else the
        first cell of the next non-empty row, else `None`. */
    method Next() returns (c: Option<(Int32, Int32)>)
      modifies this
      ensures old(Remaining()) == [] ==> c == None && Remaining() == []
      ensures old(Remaining()) != [] ==> c == Some(old(Remaining())[0]) && Remaining() == old(Remaining())[1..]
    {
      while true
        invariant Remaining() == old(Remaining())
        decreases Len(yLo, yHi), Len(cxLo, cxHi)
      {
        if cxLo < cxHi {
          c := Some((cxLo, cy));
          cxLo := cxLo + 1;
          return;
        }
        if yLo < yHi {
          cy := yLo;
          yLo := yLo + 1;
          cxLo, cxHi := xLo, xHi;
        } else {
          return None;
        }
      }
    }
  }

  // ---- the grid ----

  /** The bins of a sequence of cells. */
  function BinsOf(cells: seq<(Int32, Int32)>): set<nat> {
    set c | c in cells :: Bin(c.0, c.1)
  }

  lemma BinsOfSnoc(cells: seq<(Int32, Int32)>, c: (Int32, Int32))
    ensures BinsOf(cells + [c]) == BinsOf(cells) + {Bin(c.0, c.1)}
  {
    assert forall d :: d in cells + [c] <==> d in cells || d == c;
  }

  /** The grid's index: `GRID_COUNT` bins; every stored rectangle fits;
      the bin of every cell of a stored rectangle lists its id; and every
      id in a bin is stored, so looking a binned id up cannot fail. */
  ghost predicate Indexed<T>(eids: map<T, Rectangle>, bins: seq<set<T>>) {
    && |bins| == GRID_COUNT
    && (forall e :: e in eids ==> eids[e].Fits())
    && (forall e, c :: e in eids && c in CellsOf(eids[e]) ==> e in bins[Bin(c.0, c.1)])
    && (forall i, e :: 0 <= i < |bins| && e in bins[i] ==> e in eids)
  }

  /** Adding `eid` to the bins of the cells of `rec` and storing `rec` under
      `eid` keeps the index. */
  lemma InsertIndexed<T>(eids: map<T, Rectangle>, bins: seq<set<T>>, bins': seq<set<T>>, rec: Rectangle, eid: T)
    requires Indexed(eids, bins) && rec.Fits() && Marked(bins, bins', CellsOf(rec), eid)
    ensures Indexed(eids[eid := rec], bins')
  {
    var eids' := eids[eid := rec];
    forall e, c | e in eids' && c in CellsOf(eids'[e])
      ensures e in bins'[Bin(c.0, c.1)]
    {
      if e == eid {
        assert Bin(c.0, c.1) in BinsOf(CellsOf(rec));
      }
    }
  }

  /** `e` is stored and its rectangle intersects `rec`. */
  ghost predicate Hits<T>(eids: map<T, Rectangle>, rec: Rectangle, e: T) {
    e in eids && eids[e].Fits() && rec.Fits() && eids[e].Intersects(rec)
  }

  /** `bs` is `bins` with `eid` added to the bin of each of `cells`. */
  predicate Marked<T>(bins: seq<set<T>>, bs: seq<set<T>>, cells: seq<(Int32, Int32)>, eid: T) {
    && |bins| == GRID_COUNT && |bs| == GRID_COUNT
    && forall i :: 0 <= i < GRID_COUNT ==>
         bs[i] == if i in BinsOf(cells) then bins[i] + {eid} else bins[i]
  }

  lemma MarkStep<T>(bins: seq<set<T>>, bs: seq<set<T>>, cells: seq<(Int32, Int32)>, eid: T, c: (Int32, Int32))
    requires Marked(bins, bs, cells, eid)
    ensures var b := Bin(c.0, c.1); Marked(bins, bs[b := bs[b] + {eid}], cells + [c], eid)
  {
    BinsOfSnoc(cells, c);
  }

  lemma Shift<X>(done: seq<X>, rest: seq<X>)
    requires |rest| > 0
    ensures done + rest == (done + [rest[0]]) + rest[1..]
  {}

  /** The loop of `Grid::insert`: `eid` goes into the bin of every cell
      `rec.iter()` yields. */
  method AddToBins<T>(bins: seq<set<T>>, rec: Rectangle, eid: T) returns (bs: seq<set<T>>)
    requires |bins| == GRID_COUNT && rec.Fits()
    ensures Marked(bins, bs, CellsOf(rec), eid)
  {
    var it := new RecIter(rec);
    ghost var seen: seq<(Int32, Int32)> := [];
    bs := bins;
    while true
      invariant seen + it.Remaining() == CellsOf(rec)
      invariant Marked(bins, bs, seen, eid)
      decreases |it.Remaining()|
    {
      ghost var cells := it.Remaining();
      var c := it.Next();
      if c.None? {
        break;
      }
      var (x, y) := c.value;
      var b := Bin(x, y);
      MarkStep(bins, bs, seen, eid, c.value);
      bs := bs[b := bs[b] + {eid}];
      Shift(seen, cells);
      seen := seen + [c.value];
    }
  }

  class Grid<T(==)> {
    var eids: map<T, Rectangle>
    var bins: seq<set<T>>

    ghost predicate Valid()
      reads this
    {
      Indexed(eids, bins)
    }

    /** `Grid::new`: `GRID_COUNT` empty bins, nothing stored. */
    constructor()
      ensures Valid()
      ensures eids == map[] && |bins| == GRID_COUNT
      ensures forall i :: 0 <= i < GRID_COUNT ==> bins[i] == {}
    {
      eids := map[];
      bins := seq(GRID_COUNT, _ => {});
    }

    /** `Grid::insert`: `eid` goes into the bin of every cell of `rec`, in
        the order `rec.iter()` visits them, and `rec` is stored under `eid`,
        replacing any earlier rectangle. No id leaves any bin. */
    method Insert(rec: Rectangle, eid: T)
      requires Valid() && rec.Fits()
      modifies this
      ensures Valid()
      ensures eids == old(eids)[eid := rec]
      ensures Marked(old(bins), bins, CellsOf(rec), eid)
    {
      var bs := AddToBins(bins, rec, eid);
      InsertIndexed(eids, bins, bs, rec, eid);
      bins := bs;
      eids := eids[eid := rec];
    }

    /** `Grid::intersects`: an iterator over the ids whose rectangle
        intersects `rec`, starting with no bin and the first cell of `rec`. */
    method Intersects(rec: Rectangle) returns (it: Iter<T>)
      requires Valid() && rec.Fits()
      ensures fresh(it) && fresh(it.iter) && it.Valid()
      ensures it.eids == eids && it.bins == bins && it.rec == rec && it.yielded == {}
      ensures it.bin == None && it.done == [] && it.iter.Remaining() == CellsOf(rec)
    {
      it := new Iter(eids, bins, rec);
    }
  }

  /** `Iter::next`'s inner loop: walks `rest` to the first id whose stored
      rectangle intersects `rec`, and returns what is left after it. */
  method Scan<T>(eids: map<T, Rectangle>, rec: Rectangle, rest: seq<T>) returns (found: Option<T>, rest': seq<T>)
    requires forall e :: e in eids ==> eids[e].Fits()
    requires rec.Fits()
    requires forall e :: e in rest ==> e in eids
    ensures forall e :: e in rest' ==> e in rest
    ensures found.Some? ==> Hits(eids, rec, found.value)
    ensures found.None? ==> rest' == []
    ensures forall e :: e in rest && Hits(eids, rec, e) ==> e in rest' || found == Some(e)
  {
    rest' := rest;
    while |rest'| > 0
      invariant forall e :: e in rest' ==> e in rest
      invariant forall e :: e in rest && Hits(eids, rec, e) ==> e in rest'
    {
      var e := rest'[0];
      assert rest' == [e] + rest'[1..];
      rest' := rest'[1..];
      if eids[e].Intersects(rec) {
        return Some(e), rest';
      }
    }
    found := None;
  }

  /** The ids of a bin, in some order: the iteration order of a `HashSet`
      is not modelled. */
  method Elements<T>(s: set<T>) returns (q: seq<T>)
    ensures forall e :: e in q <==> e in s
  {
    q := [];
    var left := s;
    while left != {}
      invariant forall e :: e in s <==> e in q || e in left
      decreases |left|
    {
      var e :| e in left;
      q := q + [e];
      left := left - {e};
    }
  }

  /** The query iterator's invariant, on its state as values: the opened
      cells `done` and the cells still to come `rest` make up the cells of
      `rec`; every id in the current bin is stored; and every id stored under
      an opened cell's bin whose rectangle hits the query has been yielded
      or is still ahead in the current bin. */
  ghost predicate QueryInv<T>(eids: map<T, Rectangle>, bins: seq<set<T>>, rec: Rectangle,
                              done: seq<(Int32, Int32)>, rest: seq<(Int32, Int32)>,
                              bin: Option<seq<T>>, yielded: set<T>)
  {
    && Indexed(eids, bins) && rec.Fits()
    && done + rest == CellsOf(rec)
    && (bin.Some? ==> forall e :: e in bin.value ==> e in eids)
    && Accounted(eids, bins, rec, done, bin, yielded)
  }

  /** Every id stored under an opened cell's bin whose rectangle hits the
      query has been yielded or is still ahead in the current bin. */
  ghost predicate Accounted<T>(eids: map<T, Rectangle>, bins: seq<set<T>>, rec: Rectangle,
                               done: seq<(Int32, Int32)>, bin: Option<seq<T>>, yielded: set<T>)
    requires |bins| == GRID_COUNT
  {
    forall c, e :: c in done && e in bins[Bin(c.0, c.1)] && Hits(eids, rec, e) ==>
      e in yielded || (bin.Some? && e in bin.value)
  }

  lemma UseAccounted<T>(eids: map<T, Rectangle>, bins: seq<set<T>>, rec: Rectangle,
                        done: seq<(Int32, Int32)>, bin: Option<seq<T>>, yielded: set<T>,
                        c: (Int32, Int32), e: T)
    requires |bins| == GRID_COUNT && Accounted(eids, bins, rec, done, bin, yielded)
    requires c in done && e in bins[Bin(c.0, c.1)] && Hits(eids, rec, e)
    ensures e in yielded || (bin.Some? && e in bin.value)
  {}

  /** A stored rectangle's id is in the bin of each of its cells. */
  lemma UseIndexed<T>(eids: map<T, Rectangle>, bins: seq<set<T>>, e: T, c: (Int32, Int32))
    requires Indexed(eids, bins) && e in eids && c in CellsOf(eids[e])
    ensures e in bins[Bin(c.0, c.1)]
  {}

  /** No bin open, or the open one scanned to its end. */
  predicate Drained<T>(bin: Option<seq<T>>) {
    bin.None? || bin.value == []
  }

  /** Scanning the current bin keeps the invariant; a hit found is yielded. */
  lemma ScanStep<T>(eids: map<T, Rectangle>, bins: seq<set<T>>, rec: Rectangle,
                    done: seq<(Int32, Int32)>, rest: seq<(Int32, Int32)>,
                    bin: seq<T>, yielded: set<T>, found: Option<T>, bin': seq<T>)
    requires QueryInv(eids, bins, rec, done, rest, Some(bin), yielded)
    requires forall e :: e in bin' ==> e in bin
    requires found.None? ==> bin' == []
    requires forall e :: e in bin && Hits(eids, rec, e) ==> e in bin' || found == Some(e)
    ensures QueryInv(eids, bins, rec, done, rest, Some(bin'),
                     if found.Some? then yielded + {found.value} else yielded)
  {}

  /** Opening the bin of the next cell keeps the invariant. */
  lemma OpenStep<T>(eids: map<T, Rectangle>, bins: seq<set<T>>, rec: Rectangle,
                    done: seq<(Int32, Int32)>, rest: seq<(Int32, Int32)>,
                    bin: Option<seq<T>>, yielded: set<T>, items: seq<T>)
    requires QueryInv(eids, bins, rec, done, rest, bin, yielded) && Drained(bin) && |rest| > 0
    requires forall e :: e in items <==> e in bins[Bin(rest[0].0, rest[0].1)]
    ensures QueryInv(eids, bins, rec, done + [rest[0]], rest[1..], Some(items), yielded)
  {
    var c0 := rest[0];
    var done' := done + [c0];
    Shift(done, rest);
    forall e | e in items
      ensures e in eids
    {
      assert e in bins[Bin(c0.0, c0.1)];
    }
    forall c, e | c in done' && e in bins[Bin(c.0, c.1)] && Hits(eids, rec, e)
      ensures e in yielded || e in items
    {
      if c != c0 {
        assert c in done;
        UseAccounted(eids, bins, rec, done, bin, yielded, c, e);
      }
    }
  }

  /** Once every cell of the query is opened and every opened bin scanned,
      every hit of non-negative extent has been yielded. */
  lemma Complete<T>(eids: map<T, Rectangle>, bins: seq<set<T>>, rec: Rectangle,
                    done: seq<(Int32, Int32)>, bin: Option<seq<T>>, yielded: set<T>)
    requires QueryInv(eids, bins, rec, done, [], bin, yielded) && Drained(bin)
    ensures forall e :: Hits(eids, rec, e) && eids[e].Upright() && rec.Upright() ==> e in yielded
  {
    assert done == CellsOf(rec);
    forall e | Hits(eids, rec, e) && eids[e].Upright() && rec.Upright()
      ensures e in yielded
    {
      SharedCell(eids[e], rec);
      var c :| c in CellsOf(eids[e]) && c in CellsOf(rec);
      UseIndexed(eids, bins, e, c);
      UseAccounted(eids, bins, rec, done, bin, yielded, c, e);
    }
  }

  /** The grid query iterator, over a snapshot of the grid: the grid is
      borrowed for the iterator's lifetime, so the snapshot stays current. */
  class Iter<T(==)> {
    const eids: map<T, Rectangle>
    const bins: seq<set<T>>
    const rec: Rectangle
    const iter: RecIter
    var bin: Option<seq<T>>
    /** The cells whose bins have been opened, and the ids yielded. */
    ghost var done: seq<(Int32, Int32)>
    ghost var yielded: set<T>

    ghost predicate Valid()
      reads this, iter
    {
      QueryInv(eids, bins, rec, done, iter.Remaining(), bin, yielded)
    }

    constructor(eids: map<T, Rectangle>, bins: seq<set<T>>, rec: Rectangle)
      requires Indexed(eids, bins) && rec.Fits()
      ensures fresh(iter) && Valid()
      ensures this.eids == eids && this.bins == bins && this.rec == rec && yielded == {}
      ensures bin == None && done == [] && iter.Remaining() == CellsOf(rec)
    {
      this.eids := eids;
      this.bins := bins;
      this.rec := rec;
      iter := new RecIter(rec);
      bin := None;
      done := [];
      yielded := {};
    }

    /** `Iter::next`: scans the rest of the current bin, then opens the bin
        of the next cell, until an id hits the query or the cells run out.
        A yielded id hits the query. When it returns `None`, every stored
        rectangle of non-negative extent that intersects a query of
        non-negative extent has had its id yielded. */
    method Next() returns (r: Option<T>)
      requires Valid()
      modifies this, iter
      ensures Valid()
      ensures r.Some? ==> Hits(eids, rec, r.value) && yielded == old(yielded) + {r.value}
      ensures r.None? ==> yielded == old(yielded)
      ensures r.None? ==> forall e :: Hits(eids, rec, e) && eids[e].Upright() && rec.Upright() ==> e in yielded
    {
      while true
        invariant Valid() && yielded == old(yielded)
        decreases |iter.Remaining()|
      {
        if bin.Some? {
          var found, rest := Scan(eids, rec, bin.value);
          ScanStep(eids, bins, rec, done, iter.Remaining(), bin.value, yielded, found, rest);
          bin := Some(rest);
          if found.Some? {
            yielded := yielded + {found.value};
            return found;
          }
        }
        ghost var cells := iter.Remaining();
        var c := iter.Next();
        if c.None? {
          Complete(eids, bins, rec, done, bin, yielded);
          return None;
        }
        var (x, y) := c.value;
        var items := Elements(bins[Bin(x, y)]);
        OpenStep(eids, bins, rec, done, cells, bin, yielded, items);
        done := done + [c.value];
        bin := Some(items);
      }
    }
  }

  /** Querying the grid with a stored non-empty rectangle yields an id
      whose rectangle intersects it. */
  method QueryStored<T(==)>(g: Grid<T>, e: T) returns (r: Option<T>)
    requires g.Valid() && e in g.eids && g.eids[e].NonEmpty()
    ensures r.Some? && Hits(g.eids, g.eids[e], r.value)
  {
    var rec := g.eids[e];
    var it := g.Intersects(rec);
    IntersectsSelf(rec);
    r := it.Next();
    if r.None? {
      assert Hits(it.eids, rec, e);
      assert false;
    }
  }
}
