/**
 * The column-major slot map of the cell loader: the cell at (irow, icol) of an
 * nrow x ncol grid goes to flat slot `icol*nrow+irow`.
 */
module Grid {

  /** The flat slot of (irow, icol) in a grid with `nrow` rows. */
  function Flat(irow: nat, icol: nat, nrow: nat): nat {
    icol * nrow + irow
  }

  /** Multiplication by a natural number is monotonic. */
  lemma MulMonotone(a: nat, b: nat, n: nat)
    requires a <= b
    ensures a * n <= b * n
  {
    var d: nat := b - a;
    assert b * n == a * n + d * n;
  }

  /** A smaller product with the same factor has the smaller other factor. */
  lemma {:induction false} LessFromMul(a: nat, b: nat, n: nat)
    requires a * n < b * n
    ensures a < b
  {
    assert b > 0;
    if a > 0 {
      assert a * n == (a - 1) * n + n;
      assert b * n == (b - 1) * n + n;
      LessFromMul(a - 1, b - 1, n);
    }
  }

  /** Euclidean division has one quotient and one remainder. */
  lemma DivModUnique(k: nat, n: nat, q: nat, r: nat)
    requires 0 <= r < n
    requires k == q * n + r
    ensures k / n == q && k % n == r
  {
    var q', r' := k / n, k % n;
    assert k == q' * n + r';
    assert (q' + 1) * n == q' * n + n;
    assert (q + 1) * n == q * n + n;
    LessFromMul(q, q' + 1, n);
    LessFromMul(q', q + 1, n);
  }

  /** The row of flat slot `k`; zero for a grid without rows. */
  function RowOf(k: nat, nrow: nat): nat {
    if nrow == 0 then 0 else k % nrow
  }

  /** The column of flat slot `k`; zero for a grid without rows. */
  function ColOf(k: nat, nrow: nat): nat {
    if nrow == 0 then 0 else k / nrow
  }

  /** A slot of a non-empty grid lies inside the grid. */
  lemma FlatInRange(irow: nat, icol: nat, nrow: nat, ncol: nat)
    requires irow < nrow && icol < ncol
    ensures Flat(irow, icol, nrow) < nrow * ncol
  {
    MulMonotone(icol + 1, ncol, nrow);
    assert (icol + 1) * nrow == icol * nrow + nrow;
  }

  /** The row and column a slot came from can be read back from the slot. */
  lemma FlatInverse(irow: nat, icol: nat, nrow: nat)
    requires irow < nrow
    ensures Flat(irow, icol, nrow) / nrow == icol
    ensures Flat(irow, icol, nrow) % nrow == irow
  {
    DivModUnique(Flat(irow, icol, nrow), nrow, icol, irow);
  }

  /** Every slot below nrow*ncol is the slot of one (row, col) pair inside the grid. */
  lemma FlatOnto(k: nat, nrow: nat, ncol: nat)
    requires k < nrow * ncol
    ensures nrow > 0 && ncol > 0
    ensures RowOf(k, nrow) == k % nrow && ColOf(k, nrow) == k / nrow
    ensures RowOf(k, nrow) < nrow && ColOf(k, nrow) < ncol
    ensures Flat(RowOf(k, nrow), ColOf(k, nrow), nrow) == k
  {
    assert nrow > 0;
    assert k == (k / nrow) * nrow + k % nrow;
    LessFromMul(k / nrow, ncol, nrow);
  }

  /**
   * The map (irow, icol) |-> icol*nrow+irow is a bijection from the grid's
   * positions onto [0, nrow*ncol).
   */
  lemma ColumnMajorBijection(nrow: nat, ncol: nat)
    ensures forall irow: nat, icol: nat :: irow < nrow && icol < ncol ==>
      Flat(irow, icol, nrow) < nrow * ncol
    ensures forall irow: nat, icol: nat, irow': nat, icol': nat ::
      (irow < nrow && icol < ncol && irow' < nrow && icol' < ncol &&
       Flat(irow, icol, nrow) == Flat(irow', icol', nrow)) ==> irow == irow' && icol == icol'
    ensures forall k: nat :: k < nrow * ncol ==>
      RowOf(k, nrow) < nrow && ColOf(k, nrow) < ncol &&
      Flat(RowOf(k, nrow), ColOf(k, nrow), nrow) == k
  {
    forall irow: nat, icol: nat | irow < nrow && icol < ncol
      ensures Flat(irow, icol, nrow) < nrow * ncol
    {
      FlatInRange(irow, icol, nrow, ncol);
    }
    forall irow: nat, icol: nat, irow': nat, icol': nat |
      irow < nrow && icol < ncol && irow' < nrow && icol' < ncol &&
      Flat(irow, icol, nrow) == Flat(irow', icol', nrow)
      ensures irow == irow' && icol == icol'
    {
      FlatInverse(irow, icol, nrow);
      FlatInverse(irow', icol', nrow);
    }
    forall k: nat | k < nrow * ncol
      ensures RowOf(k, nrow) < nrow && ColOf(k, nrow) < ncol &&
        Flat(RowOf(k, nrow), ColOf(k, nrow), nrow) == k
    {
      FlatOnto(k, nrow, ncol);
    }
  }

  /** Slot `k` of an nrow-row grid has been written once the row-by-row loops reach (irow, icol). */
  predicate Visited(k: nat, nrow: nat, irow: nat, icol: nat) {
    RowOf(k, nrow) < irow || (RowOf(k, nrow) == irow && ColOf(k, nrow) < icol)
  }

  /** One step of the inner loop adds exactly the slot of (irow, icol). */
  lemma VisitedNext(nrow: nat, ncol: nat, irow: nat, icol: nat)
    requires irow < nrow && icol < ncol
    ensures forall k :: 0 <= k < nrow * ncol ==>
      (Visited(k, nrow, irow, icol + 1) <==> Visited(k, nrow, irow, icol) || k == Flat(irow, icol, nrow))
  {
    FlatInverse(irow, icol, nrow);
    forall k | 0 <= k < nrow * ncol
      ensures Visited(k, nrow, irow, icol + 1) <==> Visited(k, nrow, irow, icol) || k == Flat(irow, icol, nrow)
    {
      FlatOnto(k, nrow, ncol);
    }
  }

  /** Finishing row irow is the same as starting row irow + 1. */
  lemma VisitedRowEnd(nrow: nat, ncol: nat, irow: nat)
    ensures forall k :: 0 <= k < nrow * ncol ==>
      (Visited(k, nrow, irow, ncol) <==> Visited(k, nrow, irow + 1, 0))
  {
    forall k | 0 <= k < nrow * ncol
      ensures Visited(k, nrow, irow, ncol) <==> Visited(k, nrow, irow + 1, 0)
    {
      FlatOnto(k, nrow, ncol);
    }
  }

  /** After the last row every slot has been written. */
  lemma VisitedAll(nrow: nat, ncol: nat)
    ensures forall k :: 0 <= k < nrow * ncol ==> Visited(k, nrow, nrow, 0)
  {
    forall k | 0 <= k < nrow * ncol
      ensures Visited(k, nrow, nrow, 0)
    {
      FlatOnto(k, nrow, ncol);
    }
  }

  /**
   * The slots in the order the loader's loops visit them: rows outermost, so visit
   * `t` is the cell at (t / ncol, t % ncol).
   */
  function VisitOrder(nrow: nat, ncol: nat): (order: seq<nat>)
    ensures |order| == nrow * ncol
  {
    seq(nrow * ncol, t requires 0 <= t < nrow * ncol =>
      FlatOnto(t, ncol, nrow);
      Flat(t / ncol, t % ncol, nrow))
  }

  /** Visit number `irow*ncol+icol` of the loops is the slot of (irow, icol). */
  lemma VisitOrderAt(nrow: nat, ncol: nat, irow: nat, icol: nat)
    requires irow < nrow && icol < ncol
    ensures irow * ncol + icol < nrow * ncol
    ensures VisitOrder(nrow, ncol)[irow * ncol + icol] == Flat(irow, icol, nrow)
  {
    FlatInRange(icol, irow, ncol, nrow);
    FlatInverse(icol, irow, ncol);
  }

  /** One step of the inner loop extends the visits so far by the slot of (irow, icol). */
  lemma VisitOrderNext(nrow: nat, ncol: nat, irow: nat, icol: nat)
    requires irow < nrow && icol < ncol
    ensures irow * ncol + icol + 1 <= nrow * ncol
    ensures VisitOrder(nrow, ncol)[..irow * ncol + icol + 1] ==
      VisitOrder(nrow, ncol)[..irow * ncol + icol] + [Flat(irow, icol, nrow)]
  {
    VisitOrderAt(nrow, ncol, irow, icol);
  }

  /** The visits up to the end of row irow are those before row irow + 1. */
  lemma VisitOrderRowEnd(nrow: nat, ncol: nat, irow: nat)
    requires irow < nrow
    ensures irow * ncol + ncol == (irow + 1) * ncol <= nrow * ncol
  {
    MulMonotone(irow + 1, nrow, ncol);
  }

  /**
   * The loops write every slot of the grid exactly once: the visit order has no
   * repeats and reaches every slot; an empty grid is visited nowhere.
   */
  lemma VisitOrderCoversEachSlotOnce(nrow: nat, ncol: nat)
    ensures nrow == 0 || ncol == 0 ==> VisitOrder(nrow, ncol) == []
    ensures forall t :: 0 <= t < nrow * ncol ==> VisitOrder(nrow, ncol)[t] < nrow * ncol
    ensures forall t, t' :: 0 <= t < t' < nrow * ncol ==>
      VisitOrder(nrow, ncol)[t] != VisitOrder(nrow, ncol)[t']
    ensures forall k :: 0 <= k < nrow * ncol ==> k in VisitOrder(nrow, ncol)
  {
    var order := VisitOrder(nrow, ncol);
    forall t | 0 <= t < nrow * ncol
      ensures order[t] < nrow * ncol
    {
      FlatOnto(t, ncol, nrow);
      FlatInRange(t / ncol, t % ncol, nrow, ncol);
    }
    forall t, t' | 0 <= t < t' < nrow * ncol
      ensures order[t] != order[t']
    {
      FlatOnto(t, ncol, nrow);
      FlatOnto(t', ncol, nrow);
      FlatInverse(t / ncol, t % ncol, nrow);
      FlatInverse(t' / ncol, t' % ncol, nrow);
      assert t / ncol != t' / ncol || t % ncol != t' % ncol;
    }
    forall k | 0 <= k < nrow * ncol
      ensures k in order
    {
      FlatOnto(k, nrow, ncol);
      var irow, icol := k % nrow, k / nrow;
      var t := Flat(icol, irow, ncol);
      FlatInRange(icol, irow, ncol, nrow);
      FlatInverse(icol, irow, ncol);
      assert order[t] == k;
    }
  }
}
