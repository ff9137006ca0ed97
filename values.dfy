/** The value tree the converter builds in the host runtime (MATLAB's mxArray model). */
module Values {

  /** The element classes a numeric or logical host array can have. */
  datatype Kind =
    | Logical
    | UInt8 | UInt16 | UInt32 | UInt64
    | Int8 | Int16 | Int32 | Int64
    | Single | Double

  /**
   * One converted node. Leaf payloads are opaque integers: the converter never does
   * arithmetic on them. A scalar is a 1x1 array, as in the host runtime. A struct is
   * always 1x1, so it is given by its field names and the value of each field.
   * Cell slots and array elements are stored column-major.
   */
  datatype ValueNode =
    | VText(text: string)
    | VLogical(rows: nat, cols: nat, bits: seq<bool>)
    | VNumeric(cls: Kind, rows: nat, cols: nat, data: seq<int>)
    | VCell(rows: nat, cols: nat, slots: seq<ValueNode>)
    | VStruct(names: seq<string>, values: seq<ValueNode>)

  /**
   * The text the host runtime builds for `mxCreateString(str.c_str())`: the C string
   * ends at the first NUL, so the text is the part of `s` before its first `'\0'`.
   */
  function CText(s: string): (t: string)
    ensures |t| <= |s| && t == s[..|t|]
    ensures '\0' !in t
    ensures |t| < |s| ==> s[|t|] == '\0'
    ensures '\0' !in s ==> t == s
  {
    if |s| == 0 || s[0] == '\0' then ""
    else [s[0]] + CText(s[1..])
  }

  /** The double scalar the host runtime builds for `mxCreateDoubleScalar(x)`. */
  function DoubleScalar(x: nat): ValueNode {
    VNumeric(Double, 1, 1, [x])
  }

  /** Every buffer holds rows*cols elements and every struct one value per name. */
  predicate WellShaped(v: ValueNode) {
    match v
    case VText(_) => true
    case VLogical(r, c, bits) => |bits| == r * c
    case VNumeric(k, r, c, data) => k != Logical && |data| == r * c
    case VCell(r, c, slots) =>
      |slots| == r * c && forall k :: 0 <= k < |slots| ==> WellShaped(slots[k])
    case VStruct(names, values) =>
      |names| == |values| && forall i :: 0 <= i < |values| ==> WellShaped(values[i])
  }

  /** No numeric array anywhere in the tree has class Single. */
  predicate NoSingle(v: ValueNode) {
    match v
    case VNumeric(k, _, _, _) => k != Single
    case VCell(_, _, slots) => forall k :: 0 <= k < |slots| ==> NoSingle(slots[k])
    case VStruct(_, values) => forall i :: 0 <= i < |values| ==> NoSingle(values[i])
    case _ => true
  }

  /** Field names that are pairwise distinct. */
  predicate DistinctNames(names: seq<string>) {
    forall i, j :: 0 <= i < j < |names| ==> names[i] != names[j]
  }

  /** No text and no field name anywhere in the tree contains a NUL character. */
  predicate NulFree(v: ValueNode) {
    match v
    case VText(t) => '\0' !in t
    case VCell(_, _, slots) => forall k :: 0 <= k < |slots| ==> NulFree(slots[k])
    case VStruct(names, values) =>
      (forall i :: 0 <= i < |names| ==> '\0' !in names[i]) &&
      forall i :: 0 <= i < |values| ==> NulFree(values[i])
    case _ => true
  }

  /** Every struct in the tree has pairwise distinct field names. */
  predicate UniqueFieldNames(v: ValueNode) {
    match v
    case VCell(_, _, slots) => forall k :: 0 <= k < |slots| ==> UniqueFieldNames(slots[k])
    case VStruct(names, values) =>
      DistinctNames(names) && forall i :: 0 <= i < |values| ==> UniqueFieldNames(values[i])
    case _ => true
  }
}
