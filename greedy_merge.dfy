/**
 * The greedy rectangle merger: scans one slice's mask in row-major order, grows
 * a rectangle from each remaining true cell (width along the row first, then
 * whole rows downward), records it, clears it from the mask and skips past it.
 */
module GreedyMerge {
  import opened Geometry
  import opened MaskIndex

  /** Cell (u, v) of a flat mask with rows of `cols` cells; cells off the plane read as false. */
  function CellAt(m: seq<bool>, cols: nat, u: int, v: int): bool {
    0 <= u < cols && 0 <= v && ToIndex(u, v, cols) < |m| && m[ToIndex(u, v, cols)]
  }

  /** Writing one cell of the mask changes that cell and no other. */
  lemma CellAtUpdate(m: seq<bool>, cols: nat, a: nat, b: nat, val: bool, u: int, v: int)
    requires a < cols && ToIndex(a, b, cols) < |m|
    ensures CellAt(m[ToIndex(a, b, cols) := val], cols, u, v)
         == if u == a && v == b then val else CellAt(m, cols, u, v)
  {
    if 0 <= u < cols && 0 <= v && (u != a || v != b) && ToIndex(u, v, cols) == ToIndex(a, b, cols) {
      ToIndexInjective(u, v, a, b, cols);
    }
  }

  /** The number of true cells of a mask. */
  function CountTrue(s: seq<bool>): (n: nat)
    ensures n <= |s|
  {
    if s == [] then 0 else CountTrue(s[..|s| - 1]) + (if s[|s| - 1] then 1 else 0)
  }

  /** Clearing one true cell lowers the count of true cells by exactly one. */
  lemma {:induction false} CountTrueClear(s: seq<bool>, i: nat)
    requires i < |s| && s[i]
    ensures CountTrue(s[i := false]) == CountTrue(s) - 1
  {
    var t := s[i := false];
    if i < |s| - 1 {
      assert t[..|t| - 1] == s[..|s| - 1][i := false];
      CountTrueClear(s[..|s| - 1], i);
    } else {
      assert t[..|t| - 1] == s[..|s| - 1];
    }
  }

  /** A mask has no true cell exactly when its count of true cells is zero. */
  lemma {:induction false} CountTrueZero(s: seq<bool>)
    ensures CountTrue(s) == 0 <==> forall i :: 0 <= i < |s| ==> !s[i]
  {
    if s != [] {
      CountTrueZero(s[..|s| - 1]);
      assert forall i :: 0 <= i < |s| - 1 ==> s[..|s| - 1][i] == s[i];
    }
  }

  /** The rectangle is non-empty and lies inside the `cols` by `rows` plane. */
  predicate InGrid(r: Rect, cols: nat, rows: nat) {
    0 <= r.x && 0 <= r.y && 1 <= r.w && 1 <= r.h && r.x + r.w <= cols && r.y + r.h <= rows
  }

  /** Every cell of the rectangle is true in the mask. */
  ghost predicate AllTrue(m: seq<bool>, cols: nat, r: Rect) {
    forall u, v :: r.Contains(u, v) ==> CellAt(m, cols, u, v)
  }

  /** Some rectangle of `rects` contains the cell (u, v). */
  predicate Covered(rects: seq<Rect>, u: int, v: int) {
    rects != [] && (Covered(rects[..|rects| - 1], u, v) || rects[|rects| - 1].Contains(u, v))
  }

  /** A cell of any member of `rects` is covered by `rects`. */
  lemma {:induction false} CoveredByMember(rects: seq<Rect>, j: nat, u: int, v: int)
    requires j < |rects| && rects[j].Contains(u, v)
    ensures Covered(rects, u, v)
  {
    if j < |rects| - 1 {
      CoveredByMember(rects[..|rects| - 1], j, u, v);
    }
  }

  /** A covered cell belongs to some member of `rects`. */
  lemma {:induction false} CoveredHasMember(rects: seq<Rect>, u: int, v: int) returns (j: nat)
    requires Covered(rects, u, v)
    ensures j < |rects| && rects[j].Contains(u, v)
  {
    if rects[|rects| - 1].Contains(u, v) {
      j := |rects| - 1;
    } else {
      j := CoveredHasMember(rects[..|rects| - 1], u, v);
    }
  }

  /** No two rectangles of `rects` share a cell. */
  predicate PairwiseDisjoint(rects: seq<Rect>) {
    forall i, j :: 0 <= i < j < |rects| ==> !rects[i].Overlaps(rects[j])
  }

  /** The anchor (x, y) of `r` comes strictly before cell (u, v) in row-major order. */
  predicate AnchoredBefore(r: Rect, u: int, v: int) {
    r.y < v || (r.y == v && r.x < u)
  }

  /** The rectangles appear in the row-major order of their anchors. */
  predicate InScanOrder(rects: seq<Rect>) {
    forall i, j :: 0 <= i < j < |rects| ==> AnchoredBefore(rects[i], rects[j].x, rects[j].y)
  }

  /** The total number of cells of the rectangles. */
  function SumArea(rects: seq<Rect>): int {
    if rects == [] then 0 else SumArea(rects[..|rects| - 1]) + rects[|rects| - 1].Area()
  }

  /** Each non-empty rectangle has at least one cell, so the areas add up to at least the count. */
  lemma {:induction false} SumAreaAtLeastCount(rects: seq<Rect>, cols: nat, rows: nat)
    requires forall j :: 0 <= j < |rects| ==> InGrid(rects[j], cols, rows)
    ensures SumArea(rects) >= |rects|
  {
    if rects != [] {
      var r := rects[|rects| - 1];
      assert InGrid(r, cols, rows);
      assert r.w * r.h >= r.w * 1 >= 1;
      SumAreaAtLeastCount(rects[..|rects| - 1], cols, rows);
    }
  }

  /** Cells x0 .. x1 - 1 of row v are all true. */
  ghost predicate StripTrue(m: seq<bool>, cols: nat, x0: int, x1: int, v: int) {
    forall u :: x0 <= u < x1 ==> CellAt(m, cols, u, v)
  }

  /**
   * The width growth of the merger: from the true cell (x, y), extend along the
   * row while the next cell is inside the plane and true.
   */
  method GrowWidth(mask: array<bool>, cols: nat, rows: nat, x: nat, y: nat) returns (width: nat)
    requires mask.Length == cols * rows
    requires x < cols && y < rows && CellAt(mask[..], cols, x, y)
    ensures 1 <= width && x + width <= cols
    ensures StripTrue(mask[..], cols, x, x + width, y)
    ensures x + width == cols || !CellAt(mask[..], cols, x + width, y)
  {
    RowStartInBounds(y + 1, cols, rows);
    ToIndexNextRow(y, cols);
    width := 1;
    while x + width < cols && mask[ToIndex(x + width, y, cols)]
      invariant 1 <= width && x + width <= cols
      invariant StripTrue(mask[..], cols, x, x + width, y)
    {
      width := width + 1;
    }
  }

  /**
   * The height growth of the merger: extend the strip of columns [x, x + width)
   * one whole row at a time, stopping at the last row or at the first row that
   * has a false cell in the strip (the early exit of the scan).
   */
  method GrowHeight(mask: array<bool>, cols: nat, rows: nat, x: nat, y: nat, width: nat)
    returns (height: nat)
    requires mask.Length == cols * rows
    requires y < rows && 1 <= width && x + width <= cols
    ensures 1 <= height && y + height <= rows
    ensures AllTrue(mask[..], cols, Rect(x, y + 1, width, height - 1))
    ensures y + height == rows || !StripTrue(mask[..], cols, x, x + width, y + height)
  {
    height := 1;
    label grow:
    while y + height < rows
      invariant 1 <= height && y + height <= rows
      invariant AllTrue(mask[..], cols, Rect(x, y + 1, width, height - 1))
    {
      RowStartInBounds(y + height + 1, cols, rows);
      ToIndexNextRow(y + height, cols);
      var k := x;
      while k < x + width
        invariant x <= k <= x + width
        invariant StripTrue(mask[..], cols, x, k, y + height)
      {
        if !mask[ToIndex(k, y + height, cols)] {
          assert !CellAt(mask[..], cols, k, y + height);
          break grow;
        }
        k := k + 1;
      }
      height := height + 1;
    }
  }

  /** A rectangle whose first row and whose remaining rows are all true is all true. */
  lemma StackRows(m: seq<bool>, cols: nat, r: Rect)
    requires StripTrue(m, cols, r.x, r.x + r.w, r.y)
    requires AllTrue(m, cols, Rect(r.x, r.y + 1, r.w, r.h - 1))
    ensures AllTrue(m, cols, r)
  {
    forall u, v | r.Contains(u, v)
      ensures CellAt(m, cols, u, v)
    {
      if v > r.y {
        assert Rect(r.x, r.y + 1, r.w, r.h - 1).Contains(u, v);
      }
    }
  }

  /**
   * One row of the clearing step: sets cells x .. x + width - 1 of row v to
   * false and leaves every other cell as it was. When those cells were all
   * true, exactly `width` true cells disappear.
   */
  method ClearRow(mask: array<bool>, cols: nat, rows: nat, x: nat, v: nat, width: nat)
    requires mask.Length == cols * rows
    requires x + width <= cols && v < rows
    modifies mask
    ensures forall u, w :: CellAt(mask[..], cols, u, w)
                        == (CellAt(old(mask[..]), cols, u, w) && !(w == v && x <= u < x + width))
    ensures StripTrue(old(mask[..]), cols, x, x + width, v)
        ==> CountTrue(mask[..]) == CountTrue(old(mask[..])) - width
  {
    ghost var m0 := mask[..];
    ghost var full := StripTrue(m0, cols, x, x + width, v);
    var k := 0;
    while k < width
      invariant 0 <= k <= width
      invariant forall u, w :: CellAt(mask[..], cols, u, w)
                          == (CellAt(m0, cols, u, w) && !(w == v && x <= u < x + k))
      invariant full ==> CountTrue(mask[..]) + k == CountTrue(m0)
    {
      ToIndexInBounds(x + k, v, cols, rows);
      var i := ToIndex(x + k, v, cols);
      ghost var before := mask[..];
      if full {
        assert CellAt(before, cols, x + k, v);
        CountTrueClear(before, i);
      }
      mask[i] := false;
      assert mask[..] == before[i := false];
      forall u, w
        ensures CellAt(mask[..], cols, u, w)
             == (CellAt(m0, cols, u, w) && !(w == v && x <= u < x + k + 1))
      {
        CellAtUpdate(before, cols, x + k, v, false, u, w);
      }
      k := k + 1;
    }
  }

  /**
   * The clearing step: sets every cell of the `width` by `height` rectangle at
   * (x, y) to false, row by row, and leaves every other cell as it was. When the
   * rectangle was all true, exactly its area's worth of true cells disappears.
   */
  method ClearRect(mask: array<bool>, cols: nat, rows: nat, x: nat, y: nat, width: nat, height: nat)
    requires mask.Length == cols * rows
    requires x + width <= cols && y + height <= rows
    modifies mask
    ensures forall u, v :: CellAt(mask[..], cols, u, v)
                        == (CellAt(old(mask[..]), cols, u, v) && !Rect(x, y, width, height).Contains(u, v))
    ensures AllTrue(old(mask[..]), cols, Rect(x, y, width, height))
        ==> CountTrue(mask[..]) == CountTrue(old(mask[..])) - width * height
  {
    ghost var m0 := mask[..];
    ghost var full := AllTrue(m0, cols, Rect(x, y, width, height));
    ghost var cleared := 0;  // the number of cells cleared so far: l * width
    var l := 0;
    while l < height
      invariant 0 <= l <= height
      invariant forall u, v :: CellAt(mask[..], cols, u, v)
                          == (CellAt(m0, cols, u, v) && !Rect(x, y, width, l).Contains(u, v))
      invariant full ==> CountTrue(mask[..]) + cleared == CountTrue(m0)
      invariant cleared == l * width
    {
      ghost var before := mask[..];
      if full {
        ghost var row := y + l;
        forall u | x <= u < x + width
          ensures CellAt(before, cols, u, row)
        {
          assert Rect(x, y, width, height).Contains(u, row);
        }
      }
      ClearRow(mask, cols, rows, x, y + l, width);
      MulSucc(l, width);
      l, cleared := l + 1, cleared + width;
    }
    assert cleared == width * height;
  }

  /** Cell (u, v) of the plane comes before the scan position (x, y) in row-major order. */
  predicate Scanned(cols: nat, x: int, y: int, u: int, v: int) {
    0 <= u < cols && 0 <= v && (v < y || (v == y && u < x))
  }

  /**
   * The invariant of the scan at position (x, y), with `m0` the mask before
   * merging, `cur` the mask now and `rects` the rectangles emitted so far.
   */
  ghost predicate MergeInv(cur: seq<bool>, m0: seq<bool>, rects: seq<Rect>, cols: nat, rows: nat, x: int, y: int) {
    && |cur| == |m0| == cols * rows
    // a cell is still set exactly when it was set and no rectangle has taken it
    && (forall u, v :: CellAt(cur, cols, u, v) == (CellAt(m0, cols, u, v) && !Covered(rects, u, v)))
    // rectangles take only cells that were set
    && (forall u, v :: Covered(rects, u, v) ==> CellAt(m0, cols, u, v))
    // everything before the scan position is clear
    && (forall u, v :: Scanned(cols, x, y, u, v) ==> !CellAt(cur, cols, u, v))
    && (forall j :: 0 <= j < |rects| ==> InGrid(rects[j], cols, rows))
    && PairwiseDisjoint(rects)
    && InScanOrder(rects)
    && (forall j :: 0 <= j < |rects| ==> AnchoredBefore(rects[j], x, y))
    && SumArea(rects) + CountTrue(cur) == CountTrue(m0)
  }

  /** Appending a rectangle covers its cells in addition to those covered before. */
  lemma CoveredAppend(rects: seq<Rect>, r: Rect, u: int, v: int)
    ensures Covered(rects + [r], u, v) == (Covered(rects, u, v) || r.Contains(u, v))
  {
    assert (rects + [r])[..|rects|] == rects;
  }

  /** Appending a rectangle adds its area. */
  lemma SumAreaAppend(rects: seq<Rect>, r: Rect)
    ensures SumArea(rects + [r]) == SumArea(rects) + r.Area()
  {
    assert (rects + [r])[..|rects|] == rects;
  }

  /** Before the scan starts nothing is covered and the whole mask remains. */
  lemma MergeStart(m0: seq<bool>, cols: nat, rows: nat)
    requires |m0| == cols * rows
    ensures MergeInv(m0, m0, [], cols, rows, 0, 0)
  {
  }

  /** Passing over a clear cell keeps the invariant. */
  lemma MergeSkip(cur: seq<bool>, m0: seq<bool>, rects: seq<Rect>, cols: nat, rows: nat, x: nat, y: nat)
    requires MergeInv(cur, m0, rects, cols, rows, x, y)
    requires x < cols && !CellAt(cur, cols, x, y)
    ensures MergeInv(cur, m0, rects, cols, rows, x + 1, y)
  {
  }

  /** Finishing a row moves the scan to the start of the next one. */
  lemma MergeNextRow(cur: seq<bool>, m0: seq<bool>, rects: seq<Rect>, cols: nat, rows: nat, y: nat)
    requires MergeInv(cur, m0, rects, cols, rows, cols, y)
    ensures MergeInv(cur, m0, rects, cols, rows, 0, y + 1)
  {
  }

  /**
   * Emitting the all-true rectangle `r` anchored at the scan position and
   * clearing it keeps the invariant, with the scan moved past the rectangle.
   */
  lemma MergeEmit(cur: seq<bool>, next: seq<bool>, m0: seq<bool>, rects: seq<Rect>, cols: nat, rows: nat, r: Rect)
    requires MergeInv(cur, m0, rects, cols, rows, r.x, r.y)
    requires InGrid(r, cols, rows) && AllTrue(cur, cols, r)
    requires |next| == |cur|
    requires forall u, v :: CellAt(next, cols, u, v) == (CellAt(cur, cols, u, v) && !r.Contains(u, v))
    requires CountTrue(next) == CountTrue(cur) - r.w * r.h
    ensures MergeInv(next, m0, rects + [r], cols, rows, r.x + r.w, r.y)
  {
    var rs := rects + [r];
    forall u, v
      ensures CellAt(next, cols, u, v) == (CellAt(m0, cols, u, v) && !Covered(rs, u, v))
      ensures Covered(rs, u, v) ==> CellAt(m0, cols, u, v)
    {
      CoveredAppend(rects, r, u, v);
    }
    FreshRectDisjoint(cur, m0, rects, cols, r);
    SumAreaAppend(rects, r);
  }

  /** A non-empty rectangle all of whose cells remain set shares no cell with the rectangles emitted before. */
  lemma FreshRectDisjoint(cur: seq<bool>, m0: seq<bool>, rects: seq<Rect>, cols: nat, r: Rect)
    requires forall u, v :: CellAt(cur, cols, u, v) == (CellAt(m0, cols, u, v) && !Covered(rects, u, v))
    requires forall j :: 0 <= j < |rects| ==> 1 <= rects[j].w && 1 <= rects[j].h
    requires 1 <= r.w && 1 <= r.h && AllTrue(cur, cols, r)
    ensures forall j :: 0 <= j < |rects| ==> !rects[j].Overlaps(r)
  {
    forall j | 0 <= j < |rects|
      ensures !rects[j].Overlaps(r)
    {
      if rects[j].Overlaps(r) {
        var u, v := if rects[j].x < r.x then r.x else rects[j].x, if rects[j].y < r.y then r.y else rects[j].y;
        OverlapWitness(rects[j], r);
        CoveredByMember(rects, j, u, v);
        assert false;
      }
    }
  }

  /** At the end of the scan the mask is clear and the rectangles cover exactly the cells that were set. */
  lemma MergeDone(cur: seq<bool>, m0: seq<bool>, rects: seq<Rect>, cols: nat, rows: nat)
    requires MergeInv(cur, m0, rects, cols, rows, 0, rows)
    ensures forall i :: 0 <= i < |cur| ==> !cur[i]
    ensures forall u, v :: 0 <= u < cols && 0 <= v < rows ==> (CellAt(m0, cols, u, v) <==> Covered(rects, u, v))
    ensures SumArea(rects) == CountTrue(m0)
  {
    forall i | 0 <= i < |cur|
      ensures !cur[i]
    {
      ToIndexOnto(i, cols, rows);
      assert Scanned(cols, 0, rows, i % cols, i / cols);
    }
    CountTrueZero(cur);
  }

  /**
   * The merge pass over one slice's mask: scans the cells row by row; at each
   * set cell it grows a rectangle (width first, then whole rows), emits it,
   * clears it, and resumes after it. The returned rectangles are disjoint, lie
   * in the plane, come in scan order, together cover exactly the cells that
   * were set, and add up to their number; the mask is left clear.
   */
  method MergeSlice(mask: array<bool>, cols: nat, rows: nat) returns (rects: seq<Rect>)
    requires mask.Length == cols * rows
    modifies mask
    ensures forall i :: 0 <= i < mask.Length ==> !mask[i]
    ensures forall j :: 0 <= j < |rects| ==> InGrid(rects[j], cols, rows)
    ensures PairwiseDisjoint(rects) && InScanOrder(rects)
    ensures forall u, v :: 0 <= u < cols && 0 <= v < rows
                       ==> (CellAt(old(mask[..]), cols, u, v) <==> Covered(rects, u, v))
    ensures SumArea(rects) == CountTrue(old(mask[..]))
  {
    ghost var m0 := mask[..];
    rects := [];
    MergeStart(m0, cols, rows);
    var y := 0;
    while y < rows
      invariant 0 <= y <= rows
      invariant MergeInv(mask[..], m0, rects, cols, rows, 0, y)
    {
      var x := 0;
      while x < cols
        invariant 0 <= x <= cols
        invariant MergeInv(mask[..], m0, rects, cols, rows, x, y)
      {
        ToIndexInBounds(x, y, cols, rows);
        if !mask[ToIndex(x, y, cols)] {
          MergeSkip(mask[..], m0, rects, cols, rows, x, y);
          x := x + 1;
        } else {
          var width := GrowWidth(mask, cols, rows, x, y);
          var height := GrowHeight(mask, cols, rows, x, y, width);
          var r := Rect(x, y, width, height);
          ghost var cur := mask[..];
          StackRows(cur, cols, r);
          ClearRect(mask, cols, rows, x, y, width, height);
          MergeEmit(cur, mask[..], m0, rects, cols, rows, r);
          rects := rects + [r];
          x := x + width;
        }
      }
      MergeNextRow(mask[..], m0, rects, cols, rows, y);
      y := y + 1;
    }
    MergeDone(mask[..], m0, rects, cols, rows);
  }
}
