/**
 * The reader's view of the file (`VSOctaveH5ReaderStruct` and
 * `VSOctaveH5ReaderCellArray`) as a tree. Decoding the file is not modelled: each
 * node carries what the reader reports about it.
 */
module Source {
  import opened Values
  import opened Classification

  /**
   * A node of the file. A struct lists its fields in the order `variables()` reports
   * them; a cell array is addressed by (row, col), `grid[row].cells[col]`; scalars and
   * matrices carry their element-type tag and opaque payloads, a matrix's payloads in
   * the column-major order `readMatrix` delivers them. `SOther` is a node none of the
   * reader's five predicates accepts.
   */
  datatype SNode =
    | SStruct(fields: seq<(string, SNode)>)
    | SCell(nrow: nat, ncol: nat, grid: seq<SRow>)
    | SString(str: string)
    | SScalar(tag: string, payload: int)
    | SMatrix(tag: string, nrow: nat, ncol: nat, data: seq<int>)
    | SOther

  /** One row of a cell array; `cells[col]` is the cell at (row, col). */
  datatype SRow = SRow(cells: seq<SNode>)

  /** The field names of a struct, in enumeration order. */
  function Names(fields: seq<(string, SNode)>): (names: seq<string>)
    ensures |names| == |fields|
    ensures forall i :: 0 <= i < |fields| ==> names[i] == fields[i].0
  {
    seq(|fields|, i requires 0 <= i < |fields| => fields[i].0)
  }

  /**
   * What a consistent reader reports: field names are distinct (members of one group)
   * and hold no NUL (HDF5 link names are C strings), a cell grid has `nrow` rows of `ncol` cells, a matrix holds `nrow*ncol` payloads.
   */
  predicate Valid(n: SNode) {
    match n
    case SStruct(fields) =>
      DistinctNames(Names(fields)) &&
      (forall i :: 0 <= i < |fields| ==> '\0' !in fields[i].0) &&
      forall i :: 0 <= i < |fields| ==> Valid(fields[i].1)
    case SCell(nrow, ncol, grid) =>
      |grid| == nrow &&
      (forall i :: 0 <= i < nrow ==> |grid[i].cells| == ncol) &&
      forall i, j :: 0 <= i < nrow && 0 <= j < ncol ==> Valid(grid[i].cells[j])
    case SMatrix(_, nrow, ncol, data) => |data| == nrow * ncol
    case _ => true
  }

  /** The answers of the reader's five shape predicates for a node. */
  function ProbeOf(n: SNode): Probe {
    Probe(n.SStruct?, n.SCell?, n.SString?, n.SScalar?, n.SMatrix?)
  }

  /** `variables()`: the field names of a struct node. */
  function Variables(s: SNode): (names: seq<string>)
    requires s.SStruct?
    ensures |names| == |s.fields|
  {
    Names(s.fields)
  }

  /** The first field called `name`: how the reader resolves `isStruct(fn)`, `readStruct(fn)`, ... */
  function Lookup(fields: seq<(string, SNode)>, name: string): (child: SNode)
    requires name in Names(fields)
    ensures exists i :: 0 <= i < |fields| && fields[i] == (name, child)
  {
    if fields[0].0 == name then fields[0].1
    else
      assert Names(fields) == [fields[0].0] + Names(fields[1..]);
      Lookup(fields[1..], name)
  }

  /** With distinct names, looking a field up by its name finds the field at its own position. */
  lemma {:induction false} LookupAt(fields: seq<(string, SNode)>, i: nat)
    requires i < |fields|
    requires DistinctNames(Names(fields))
    ensures fields[i].0 in Names(fields)
    ensures Lookup(fields, fields[i].0) == fields[i].1
  {
    assert Names(fields)[i] == fields[i].0;
    if i > 0 {
      assert Names(fields)[0] != Names(fields)[i];
      assert Names(fields[1..]) == Names(fields)[1..];
      LookupAt(fields[1..], i - 1);
    }
  }
}
