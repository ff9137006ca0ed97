/**
 * What the converter computes, as functions over the reader's tree: the value each
 * field or cell becomes, the struct `loadStruct` builds and the cell array
 * `loadCell` builds.
 */
module Conversion {
  import opened Values
  import opened Tags
  import opened Classification
  import opened Source
  import opened Grid

  /** `loadLogicalScalar`: the value is read as `unsigned` and is true when non-zero. */
  function LogicalScalar(val: int): ValueNode {
    VLogical(1, 1, [val != 0])
  }

  /** `loadRealScalar<T>`: a 1x1 array of class `k` holding the value read. */
  function RealScalar(k: Kind, val: int): ValueNode {
    VNumeric(k, 1, 1, [val])
  }

  /** `loadLogicalMatrix`: an nrow x ncol logical array; each element read is true when non-zero. */
  function LogicalMatrix(nrow: nat, ncol: nat, data: seq<int>): ValueNode {
    VLogical(nrow, ncol, seq(|data|, i requires 0 <= i < |data| => data[i] != 0))
  }

  /** `loadRealMatrix<T>`: an nrow x ncol array of class `k` holding the block read. */
  function RealMatrix(k: Kind, nrow: nat, ncol: nat, data: seq<int>): ValueNode {
    VNumeric(k, nrow, ncol, data)
  }

  /** The scalar branch: resolve the tag, then the logical or the real loader. */
  function ScalarLeaf(tag: string, val: int): ValueNode {
    var k := ResolveTag(tag);
    if k == Logical then LogicalScalar(val) else RealScalar(k, val)
  }

  /** The matrix branch: resolve the tag, then the logical or the real loader. */
  function MatrixLeaf(tag: string, nrow: nat, ncol: nat, data: seq<int>): ValueNode {
    var k := ResolveTag(tag);
    if k == Logical then LogicalMatrix(nrow, ncol, data) else RealMatrix(k, nrow, ncol, data)
  }

  /**
   * The value a field or cell becomes. `pos` is the number the unrecognised branch
   * stores: the field's position, or the cell's flat slot.
   */
  function Convert(n: SNode, pos: nat): ValueNode
    requires Valid(n)
    decreases n, 1
  {
    match Classify(ProbeOf(n))
    case StructField => ConvertStruct(n)
    case CellField => ConvertCell(n)
    case StringField => VText(CText(n.str))
    case ScalarField => ScalarLeaf(n.tag, n.payload)
    case MatrixField => MatrixLeaf(n.tag, n.nrow, n.ncol, n.data)
    case Unrecognised => DoubleScalar(pos)
  }

  /** The 1x1 struct `loadStruct` builds: field `i` holds the conversion of the i-th field. */
  function ConvertStruct(s: SNode): ValueNode
    requires s.SStruct? && Valid(s)
    decreases s, 0
  {
    VStruct(Variables(s), seq(|s.fields|, i requires 0 <= i < |s.fields| => Convert(s.fields[i].1, i)))
  }

  /** The nrow x ncol cell array `loadCell` builds: slot `k` holds the cell it is the column-major slot of. */
  function ConvertCell(c: SNode): ValueNode
    requires c.SCell? && Valid(c)
    decreases c, 0
  {
    VCell(c.nrow, c.ncol, seq(c.nrow * c.ncol, k requires 0 <= k < c.nrow * c.ncol =>
      FlatOnto(k, c.nrow, c.ncol);
      Convert(c.grid[RowOf(k, c.nrow)].cells[ColOf(k, c.nrow)], k)))
  }

  /**
   * The struct has exactly the fields `variables()` reports, in that order, and the
   * field called `names[i]` holds the conversion of the node the reader finds under
   * that name, with fallback position `i`.
   */
  lemma StructShape(s: SNode)
    requires s.SStruct? && Valid(s)
    ensures ConvertStruct(s).VStruct?
    ensures ConvertStruct(s).names == Variables(s)
    ensures |ConvertStruct(s).values| == |s.fields|
    ensures forall i :: 0 <= i < |s.fields| ==>
      ConvertStruct(s).names[i] == s.fields[i].0 &&
      s.fields[i].0 in Variables(s) &&
      ConvertStruct(s).values[i] == Convert(Lookup(s.fields, s.fields[i].0), i)
  {
    forall i | 0 <= i < |s.fields|
      ensures s.fields[i].0 in Variables(s)
      ensures ConvertStruct(s).values[i] == Convert(Lookup(s.fields, s.fields[i].0), i)
    {
      LookupAt(s.fields, i);
    }
  }

  /**
   * The cell array is nrow x ncol as the reader reports; the cell at (irow, icol)
   * lands in slot `icol*nrow+irow`, converted with that slot as fallback number;
   * an empty grid has no slots.
   */
  lemma CellShape(c: SNode)
    requires c.SCell? && Valid(c)
    ensures ConvertCell(c).VCell?
    ensures ConvertCell(c).rows == c.nrow && ConvertCell(c).cols == c.ncol
    ensures |ConvertCell(c).slots| == c.nrow * c.ncol
    ensures c.nrow == 0 || c.ncol == 0 ==> ConvertCell(c).slots == []
    ensures forall irow: nat, icol: nat :: irow < c.nrow && icol < c.ncol ==>
      Flat(irow, icol, c.nrow) < c.nrow * c.ncol &&
      ConvertCell(c).slots[Flat(irow, icol, c.nrow)] ==
        Convert(c.grid[irow].cells[icol], Flat(irow, icol, c.nrow))
  {
    if c.nrow == 0 || c.ncol == 0 {
      assert c.nrow * c.ncol == 0;
    }
    forall irow: nat, icol: nat | irow < c.nrow && icol < c.ncol
      ensures Flat(irow, icol, c.nrow) < c.nrow * c.ncol
      ensures ConvertCell(c).slots[Flat(irow, icol, c.nrow)] ==
        Convert(c.grid[irow].cells[icol], Flat(irow, icol, c.nrow))
    {
      FlatInRange(irow, icol, c.nrow, c.ncol);
      FlatInverse(irow, icol, c.nrow);
    }
  }

  /** The cell at (irow, icol) is converted into slot `icol*nrow+irow`, with that slot as fallback number. */
  lemma CellSlot(c: SNode, irow: nat, icol: nat)
    requires c.SCell? && Valid(c) && irow < c.nrow && icol < c.ncol
    ensures |ConvertCell(c).slots| == c.nrow * c.ncol
    ensures Flat(irow, icol, c.nrow) < c.nrow * c.ncol
    ensures ConvertCell(c).slots[Flat(irow, icol, c.nrow)] ==
      Convert(c.grid[irow].cells[icol], Flat(irow, icol, c.nrow))
  {
    FlatInRange(irow, icol, c.nrow, c.ncol);
    FlatInverse(irow, icol, c.nrow);
  }

  /** A struct field none of the five predicates accepts becomes the double scalar of its position. */
  lemma UnrecognisedFieldFallback(s: SNode)
    requires s.SStruct? && Valid(s)
    ensures forall i :: 0 <= i < |s.fields| && s.fields[i].1 == SOther ==>
      i < |ConvertStruct(s).values| && ConvertStruct(s).values[i] == VNumeric(Double, 1, 1, [i])
  {
  }

  /** A cell none of the five predicates accepts becomes the double scalar of its column-major slot. */
  lemma UnrecognisedCellFallback(c: SNode)
    requires c.SCell? && Valid(c)
    ensures forall irow: nat, icol: nat :: irow < c.nrow && icol < c.ncol && c.grid[irow].cells[icol] == SOther ==>
      Flat(irow, icol, c.nrow) < |ConvertCell(c).slots| &&
      ConvertCell(c).slots[Flat(irow, icol, c.nrow)] == VNumeric(Double, 1, 1, [icol * c.nrow + irow])
  {
    CellShape(c);
  }

  /** The unrecognised branch is taken for exactly the nodes the reader classifies as none of the five. */
  lemma UnrecognisedExactly(n: SNode, pos: nat)
    requires Valid(n)
    ensures Classify(ProbeOf(n)) == Unrecognised <==> n.SOther?
    ensures n.SOther? ==> Convert(n, pos) == DoubleScalar(pos)
  {
  }

  /**
   * A scalar is a 1x1 array of the kind its tag resolves to; a logical scalar is true
   * exactly when the value read is non-zero.
   */
  lemma ScalarLeafShape(n: SNode, pos: nat)
    requires n.SScalar?
    ensures ResolveTag(n.tag) == Logical ==> Convert(n, pos) == VLogical(1, 1, [n.payload != 0])
    ensures ResolveTag(n.tag) != Logical ==> Convert(n, pos) == VNumeric(ResolveTag(n.tag), 1, 1, [n.payload])
  {
  }

  /**
   * A matrix keeps the dimensions the reader reports, zero ones included, and its
   * whole block of nrow*ncol elements in order, as the kind its tag resolves to.
   */
  lemma MatrixLeafShape(n: SNode, pos: nat)
    requires n.SMatrix? && Valid(n)
    ensures Convert(n, pos).rows == n.nrow && Convert(n, pos).cols == n.ncol
    ensures ResolveTag(n.tag) == Logical ==>
      Convert(n, pos).VLogical? && |Convert(n, pos).bits| == n.nrow * n.ncol &&
      forall i :: 0 <= i < n.nrow * n.ncol ==> Convert(n, pos).bits[i] == (n.data[i] != 0)
    ensures ResolveTag(n.tag) != Logical ==>
      Convert(n, pos) == VNumeric(ResolveTag(n.tag), n.nrow, n.ncol, n.data)
  {
  }

  /**
   * Every tree the converter builds is well shaped, has no single-precision array
   * (no tag resolves to Single), keeps the distinct field names of the file and has
   * no NUL inside a text (the C string ends there) or a field name.
   */
  lemma {:induction false} ConvertWellFormed(n: SNode, pos: nat)
    requires Valid(n)
    ensures WellShaped(Convert(n, pos))
    ensures NoSingle(Convert(n, pos))
    ensures UniqueFieldNames(Convert(n, pos))
    ensures NulFree(Convert(n, pos))
    decreases n, 1
  {
    match n
    case SStruct(_) => StructWellFormed(n);
    case SCell(_, _, _) => CellWellFormed(n);
    case SMatrix(tag, nrow, ncol, data) =>
      MatrixLeafShape(n, pos);
    case _ =>
  }

  lemma {:induction false} StructWellFormed(s: SNode)
    requires s.SStruct? && Valid(s)
    ensures WellShaped(ConvertStruct(s))
    ensures NoSingle(ConvertStruct(s))
    ensures UniqueFieldNames(ConvertStruct(s))
    ensures NulFree(ConvertStruct(s))
    decreases s, 0
  {
    var v := ConvertStruct(s);
    forall i | 0 <= i < |s.fields|
      ensures WellShaped(v.values[i]) && NoSingle(v.values[i]) && UniqueFieldNames(v.values[i])
        && NulFree(v.values[i])
    {
      ConvertWellFormed(s.fields[i].1, i);
    }
  }

  lemma {:induction false} CellWellFormed(c: SNode)
    requires c.SCell? && Valid(c)
    ensures WellShaped(ConvertCell(c))
    ensures NoSingle(ConvertCell(c))
    ensures UniqueFieldNames(ConvertCell(c))
    ensures NulFree(ConvertCell(c))
    decreases c, 0
  {
    var v := ConvertCell(c);
    forall k | 0 <= k < |v.slots|
      ensures WellShaped(v.slots[k]) && NoSingle(v.slots[k]) && UniqueFieldNames(v.slots[k])
        && NulFree(v.slots[k])
    {
      FlatOnto(k, c.nrow, c.ncol);
      ConvertWellFormed(c.grid[RowOf(k, c.nrow)].cells[ColOf(k, c.nrow)], k);
    }
  }
}
