/**
 * The loaders of loadh5.cpp as methods: each allocates the host array, fills it slot
 * by slot, and is proved to build the value the functions of `Conversion` describe.
 */
module Loaders {
  import opened Values
  import opened Tags
  import opened Classification
  import opened Source
  import opened Grid
  import opened Conversion

  /** The reader's `readMatrix` into a buffer of a real class: the block, element by element. */
  method ReadRealBlock(data: seq<int>, buf: array<int>)
    requires buf.Length == |data|
    modifies buf
    ensures buf[..] == data
  {
    for i := 0 to buf.Length
      invariant buf[..i] == data[..i]
    {
      buf[i] := data[i];
    }
  }

  /** The reader's `readMatrix` into a logical buffer: an element is true when non-zero. */
  method ReadLogicalBlock(data: seq<int>, buf: array<bool>)
    requires buf.Length == |data|
    modifies buf
    ensures forall i :: 0 <= i < |data| ==> buf[i] == (data[i] != 0)
  {
    for i := 0 to buf.Length
      invariant forall j :: 0 <= j < i ==> buf[j] == (data[j] != 0)
    {
      buf[i] := data[i] != 0;
    }
  }

  /** `loadLogicalScalar`: read one `unsigned`, build a logical scalar that is true when it is non-zero. */
  method LoadLogicalScalar(val: int) returns (v: ValueNode)
    ensures v == LogicalScalar(val)
  {
    var buf := new bool[1];
    buf[0] := val != 0;
    v := VLogical(1, 1, buf[..]);
  }

  /** `loadLogicalMatrix`: allocate an nrow x ncol logical array and read the whole block into it. */
  method LoadLogicalMatrix(nrow: nat, ncol: nat, data: seq<int>) returns (v: ValueNode)
    requires |data| == nrow * ncol
    ensures v == LogicalMatrix(nrow, ncol, data)
  {
    var buf := new bool[nrow * ncol];
    ReadLogicalBlock(data, buf);
    assert buf[..] == LogicalMatrix(nrow, ncol, data).bits;
    v := VLogical(nrow, ncol, buf[..]);
  }

  /** `loadRealScalar<T>`: allocate a 1x1 array of class `k` and read the value into it. */
  method LoadRealScalar(k: Kind, val: int) returns (v: ValueNode)
    ensures v == RealScalar(k, val)
  {
    var buf := new int[1];
    buf[0] := val;
    v := VNumeric(k, 1, 1, buf[..]);
  }

  /** `loadRealMatrix<T>`: allocate an nrow x ncol array of class `k` and read the whole block into it. */
  method LoadRealMatrix(k: Kind, nrow: nat, ncol: nat, data: seq<int>) returns (v: ValueNode)
    requires |data| == nrow * ncol
    ensures v == RealMatrix(k, nrow, ncol, data)
  {
    var buf := new int[nrow * ncol];
    ReadRealBlock(data, buf);
    v := VNumeric(k, nrow, ncol, buf[..]);
  }

  /**
   * The body of both loaders' loops for one field or cell: ask the five predicates in
   * order and convert by the first that holds; `pos` is the number stored when none does.
   */
  method LoadElement(n: SNode, pos: nat) returns (ev: ValueNode)
    requires Valid(n)
    ensures ev == Convert(n, pos)
    decreases n, 1
  {
    var p := ProbeOf(n);
    if p.isStruct {
      ev := LoadStruct(n);
    } else if p.isCellArray {
      ghost var order;
      ev, order := LoadCell(n);
    } else if p.isString {
      ev := VText(CText(n.str));
    } else if p.isScalar {
      var k := ResolveTag(n.tag);
      if k == Logical {
        ev := LoadLogicalScalar(n.payload);
      } else {
        ev := LoadRealScalar(k, n.payload);
      }
    } else if p.isMatrix {
      var k := ResolveTag(n.tag);
      if k == Logical {
        ev := LoadLogicalMatrix(n.nrow, n.ncol, n.data);
      } else {
        ev := LoadRealMatrix(k, n.nrow, n.ncol, n.data);
      }
    } else {
      ev := DoubleScalar(pos);
    }
  }

  /**
   * `loadStruct`: read the field names, allocate a 1x1 struct with those fields, then
   * fill field `ifield` with the conversion of the node found under its name.
   */
  method LoadStruct(s: SNode) returns (sv: ValueNode)
    requires s.SStruct? && Valid(s)
    ensures sv == ConvertStruct(s)
    decreases s, 0
  {
    var fieldnames := Variables(s);
    var nfield := |fieldnames|;
    var values := new ValueNode[nfield];
    for ifield := 0 to nfield
      invariant forall j :: 0 <= j < ifield ==> values[j] == Convert(s.fields[j].1, j)
    {
      var fn := fieldnames[ifield];
      LookupAt(s.fields, ifield);
      var child := Lookup(s.fields, fn);
      var ev := LoadElement(child, ifield);
      values[ifield] := ev;
    }
    sv := VStruct(fieldnames, values[..]);
  }

  /**
   * `loadCell`: allocate an nrow x ncol cell array, then visit the grid row by row,
   * storing the conversion of the cell at (irow, icol) in slot `icol*nrow+irow`.
   * The ghost `written` records the slots in the order they are written: it is
   * `VisitOrder(nrow, ncol)`, which visits each slot exactly once.
   */
  method LoadCell(c: SNode) returns (cv: ValueNode, ghost written: seq<nat>)
    requires c.SCell? && Valid(c)
    ensures cv == ConvertCell(c)
    ensures written == VisitOrder(c.nrow, c.ncol)
    decreases c, 0
  {
    var nrow, ncol := c.nrow, c.ncol;
    ghost var want := ConvertCell(c).slots;
    written := [];
    assert |want| == nrow * ncol;
    var slots := new ValueNode[nrow * ncol];
    for irow := 0 to nrow
      invariant forall k :: 0 <= k < nrow * ncol && Visited(k, nrow, irow, 0) ==> slots[k] == want[k]
      invariant irow * ncol <= nrow * ncol
      invariant written == VisitOrder(nrow, ncol)[..irow * ncol]
    {
      for icol := 0 to ncol
        invariant forall k :: 0 <= k < nrow * ncol && Visited(k, nrow, irow, icol) ==> slots[k] == want[k]
        invariant irow * ncol + icol <= nrow * ncol
        invariant written == VisitOrder(nrow, ncol)[..irow * ncol + icol]
      {
        var ifield := icol * nrow + irow;
        CellSlot(c, irow, icol);
        VisitOrderNext(nrow, ncol, irow, icol);
        var ev := LoadElement(c.grid[irow].cells[icol], ifield);
        slots[ifield] := ev;
        written := written + [ifield];
        VisitedNext(nrow, ncol, irow, icol);
      }
      VisitOrderRowEnd(nrow, ncol, irow);
      VisitedRowEnd(nrow, ncol, irow);
    }
    VisitedAll(nrow, ncol);
    assert VisitOrder(nrow, ncol)[..nrow * ncol] == VisitOrder(nrow, ncol);
    assert slots[..] == want;
    cv := VCell(nrow, ncol, slots[..]);
  }
}
