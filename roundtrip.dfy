/**
 * The converter inverted: any tree it can build, written back as a reader tree, is
 * loaded back to itself. This ties the loaders to an independent description of
 * the file format they read.
 */
module RoundTrip {
  import opened Values
  import opened Tags
  import opened Source
  import opened Grid
  import opened Conversion

  /** The trees the converter can produce. */
  predicate Representable(v: ValueNode) {
    WellShaped(v) && NoSingle(v) && UniqueFieldNames(v) && NulFree(v)
  }

  /**
   * A reader tree for `v`: text as a string, logical arrays as "bool" matrices of 0/1,
   * numeric arrays as matrices tagged with their class, cell slots put back at the
   * (row, col) they are the column-major slot of, struct fields in order.
   */
  function Encode(v: ValueNode): SNode
    requires WellShaped(v)
  {
    match v
    case VText(s) => SString(s)
    case VLogical(r, c, bits) =>
      SMatrix("bool", r, c, seq(|bits|, i requires 0 <= i < |bits| => if bits[i] then 1 else 0))
    case VNumeric(k, r, c, data) => SMatrix(TagName(k), r, c, data)
    case VCell(r, c, slots) =>
      SCell(r, c, seq(r, i requires 0 <= i < r =>
        SRow(seq(c, j requires 0 <= j < c =>
          FlatInRange(i, j, r, c);
          Encode(slots[Flat(i, j, r)])))))
    case VStruct(names, values) =>
      SStruct(seq(|names|, i requires 0 <= i < |names| => (names[i], Encode(values[i]))))
  }

  /** The encoding is a tree a consistent reader could report. */
  lemma {:induction false} EncodeValid(v: ValueNode)
    requires WellShaped(v) && UniqueFieldNames(v) && NulFree(v)
    ensures Valid(Encode(v))
  {
    match v
    case VCell(r, c, slots) =>
      var e := Encode(v);
      forall i, j | 0 <= i < r && 0 <= j < c
        ensures Valid(e.grid[i].cells[j])
      {
        FlatInRange(i, j, r, c);
        EncodeValid(slots[Flat(i, j, r)]);
      }
    case VStruct(names, values) =>
      var e := Encode(v);
      forall i | 0 <= i < |values|
        ensures Valid(e.fields[i].1)
      {
        EncodeValid(values[i]);
      }
    case _ =>
  }

  /** Loading the encoding of a tree the converter can produce gives back that tree. */
  lemma {:induction false} LoadEncoded(v: ValueNode, pos: nat)
    requires Representable(v)
    ensures Valid(Encode(v))
    ensures Convert(Encode(v), pos) == v
  {
    EncodeValid(v);
    match v
    case VText(_) =>
    case VLogical(r, c, bits) =>
      assert Convert(Encode(v), pos).bits == bits;
    case VNumeric(k, r, c, data) =>
      ResolveTagName(k);
    case VCell(r, c, slots) =>
      var e := Encode(v);
      var back := ConvertCell(e);
      assert |back.slots| == |slots|;
      forall k | 0 <= k < |slots|
        ensures back.slots[k] == slots[k]
      {
        FlatOnto(k, r, c);
        LoadEncoded(slots[k], k);
      }
    case VStruct(names, values) =>
      var e := Encode(v);
      var back := ConvertStruct(e);
      assert back.names == names;
      forall i | 0 <= i < |values|
        ensures back.values[i] == values[i]
      {
        LoadEncoded(values[i], i);
      }
  }

  /**
   * Loading, writing the result back and loading again changes nothing: the
   * converter's output is a fixed point of the round trip.
   */
  lemma ReloadIsIdentity(n: SNode, pos: nat, pos': nat)
    requires Valid(n)
    ensures WellShaped(Convert(n, pos))
    ensures Valid(Encode(Convert(n, pos)))
    ensures Convert(Encode(Convert(n, pos)), pos') == Convert(n, pos)
  {
    ConvertWellFormed(n, pos);
    LoadEncoded(Convert(n, pos), pos');
  }
}
