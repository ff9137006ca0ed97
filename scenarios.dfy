/** Two small files and the values the converter builds from them. */
module Scenarios {
  import opened Values
  import opened Source
  import opened Grid
  import opened Conversion

  /** A struct with a string, a 2x3 double matrix and a logical scalar. */
  function SensorSource(): SNode {
    SStruct([("name", SString("s1")),
             ("readings", SMatrix("double", 2, 3, [1, 2, 3, 4, 5, 6])),
             ("calibrated", SScalar("bool", 1))])
  }

  /** The reader's view of it is consistent, with the names in file order. */
  lemma SensorNames()
    ensures Valid(SensorSource())
    ensures Variables(SensorSource()) == ["name", "readings", "calibrated"]
  {
  }

  /** Text without a NUL is loaded whole. */
  lemma SensorName()
    ensures Convert(SString("s1"), 0) == VText("s1")
  {
    assert forall i :: 0 <= i < |"s1"| ==> "s1"[i] != '\0';
  }

  /** Text is cut at its first NUL, as the host's C string ends there. */
  lemma EmbeddedNul()
    ensures Convert(SString("a\0b"), 0) == VText("a")
  {
    assert CText("\0b") == "";
  }

  /** The other two fields convert on their own: the double matrix unchanged, a true logical. */
  lemma SensorFields()
    ensures Convert(SMatrix("double", 2, 3, [1, 2, 3, 4, 5, 6]), 1) ==
      VNumeric(Double, 2, 3, [1, 2, 3, 4, 5, 6])
    ensures Convert(SScalar("bool", 1), 2) == VLogical(1, 1, [true])
  {
    Tags.UnrecognisedTagsAreDouble();
  }

  /** Field i of the struct holds the conversion of the i-th field of the file. */
  lemma SensorValues()
    ensures Valid(SensorSource())
    ensures ConvertStruct(SensorSource()).values ==
      [VText("s1"), VNumeric(Double, 2, 3, [1, 2, 3, 4, 5, 6]), VLogical(1, 1, [true])]
  {
    SensorNames();
    SensorName();
    SensorFields();
    var s := SensorSource();
    var vs := ConvertStruct(s).values;
    assert |vs| == 3;
    assert vs[0] == Convert(s.fields[0].1, 0);
    assert vs[1] == Convert(s.fields[1].1, 1);
    assert vs[2] == Convert(s.fields[2].1, 2);
  }

  /** The struct keeps its three fields in file order with those values. */
  lemma SensorRecord()
    ensures Valid(SensorSource())
    ensures ConvertStruct(SensorSource()) ==
      VStruct(["name", "readings", "calibrated"],
              [VText("s1"), VNumeric(Double, 2, 3, [1, 2, 3, 4, 5, 6]), VLogical(1, 1, [true])])
  {
    SensorNames();
    SensorValues();
  }

  /** A struct with a float field and a field the reader cannot classify. */
  function InnerStruct(): SNode {
    SStruct([("x", SScalar("float", 15)), ("y", SOther)])
  }

  /** A 1x2 cell holding an int32 scalar and that struct. */
  function MixedCellSource(): SNode {
    SCell(1, 2, [SRow([SScalar("int32", 42), InnerStruct()])])
  }

  /** The float field is loaded as a double and the unclassified field becomes its position, 1. */
  lemma InnerStructLoads()
    ensures Valid(InnerStruct())
    ensures ConvertStruct(InnerStruct()) ==
      VStruct(["x", "y"], [VNumeric(Double, 1, 1, [15]), VNumeric(Double, 1, 1, [1])])
  {
    var inner := InnerStruct();
    assert Convert(inner.fields[0].1, 0) == VNumeric(Double, 1, 1, [15]);
    assert Convert(inner.fields[1].1, 1) == DoubleScalar(1);
    assert Variables(inner) == ["x", "y"];
  }

  /** The 1x2 grid is consistent: one row of two cells. */
  lemma MixedCellValid()
    ensures Valid(MixedCellSource())
  {
    InnerStructLoads();
  }

  /** The cells keep their places: (0, 0) in slot 0, (0, 1) in slot 1. */
  lemma MixedCell()
    ensures Valid(MixedCellSource())
    ensures ConvertCell(MixedCellSource()) ==
      VCell(1, 2, [VNumeric(Int32, 1, 1, [42]),
                   VStruct(["x", "y"], [VNumeric(Double, 1, 1, [15]), VNumeric(Double, 1, 1, [1])])])
  {
    MixedCellValid();
    InnerStructLoads();
    var c := MixedCellSource();
    var v := ConvertCell(c);
    assert RowOf(0, 1) == 0 && ColOf(0, 1) == 0 && RowOf(1, 1) == 0 && ColOf(1, 1) == 1;
    assert |v.slots| == 2;
    assert v.slots[0] == Convert(SScalar("int32", 42), 0);
    assert v.slots[1] == Convert(InnerStruct(), 1);
    assert v.slots == [v.slots[0], v.slots[1]];
  }
}
