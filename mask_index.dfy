/**
 * The mask's flat indexing: cell (u, v) of a slice plane whose rows are `sz`
 * cells long lives at `v * sz + u`. One helper, used by both the fill and the
 * merge passes.
 */
module MaskIndex {

  function ToIndex(u: nat, v: nat, sz: nat): nat {
    v * sz + u
  }

  /** `(a + 1) * b` distributes: the step the index proofs rest on. */
  lemma MulSucc(a: nat, b: nat)
    ensures (a + 1) * b == a * b + b
  {
  }

  /** Row `a` of a plane with rows of `b` cells starts at index `b * a`. */
  lemma RowStartIsProduct(a: nat, b: nat)
    ensures ToIndex(0, a, b) == b * a
  {
  }

  /** Row `v2` starts at least one whole row after row `v1` when `v1 < v2`. */
  lemma {:induction false} RowsApart(v1: nat, v2: nat, sz: nat)
    requires v1 < v2
    ensures v1 * sz + sz <= v2 * sz
    decreases v2 - v1
  {
    if v1 + 1 < v2 {
      RowsApart(v1 + 1, v2, sz);
    }
    MulSucc(v1, sz);
  }

  /** Every in-range cell of a `sz`-by-`rows` plane has an index inside the buffer. */
  lemma ToIndexInBounds(u: nat, v: nat, sz: nat, rows: nat)
    requires u < sz && v < rows
    ensures ToIndex(u, v, sz) < sz * rows
  {
    RowsApart(v, rows, sz);
    assert rows * sz == sz * rows;
  }

  /** Distinct in-range cells have distinct indices. */
  lemma ToIndexInjective(u1: nat, v1: nat, u2: nat, v2: nat, sz: nat)
    requires u1 < sz && u2 < sz
    requires ToIndex(u1, v1, sz) == ToIndex(u2, v2, sz)
    ensures u1 == u2 && v1 == v2
  {
    if v1 < v2 {
      RowsApart(v1, v2, sz);
    } else if v2 < v1 {
      RowsApart(v2, v1, sz);
    }
  }

  /** Every index of the buffer is the index of exactly the cell (i % sz, i / sz). */
  lemma ToIndexOnto(i: nat, sz: nat, rows: nat)
    requires i < sz * rows
    ensures sz > 0 && i % sz < sz && i / sz < rows
    ensures ToIndex(i % sz, i / sz, sz) == i
  {
    var u, v := i % sz, i / sz;
    assert v * sz + u == i;
  }

  /** The first cell of any row up to `rows` is at most the buffer's length. */
  lemma RowStartInBounds(v: nat, sz: nat, rows: nat)
    requires v <= rows
    ensures ToIndex(0, v, sz) <= sz * rows
  {
    if v < rows {
      RowsApart(v, rows, sz);
    }
    assert rows * sz == sz * rows;
  }

  /** Cell (u, v) is the only cell stored at its index: the index's quotient and remainder give it back. */
  lemma ToIndexRoundTrip(u: nat, v: nat, sz: nat)
    requires u < sz
    ensures ToIndex(u, v, sz) % sz == u && ToIndex(u, v, sz) / sz == v
  {
    var i := ToIndex(u, v, sz);
    ToIndexOnto(i, sz, v + 1);
    ToIndexInjective(i % sz, i / sz, u, v, sz);
  }

  /** The index after the last cell of row `v` is the first cell of row `v + 1`. */
  lemma ToIndexNextRow(v: nat, sz: nat)
    ensures ToIndex(sz, v, sz) == ToIndex(0, v + 1, sz)
  {
    MulSucc(v, sz);
  }
}
