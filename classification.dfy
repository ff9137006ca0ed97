/**
 * The shape classification both loaders apply to each field or cell: five reader
 * predicates asked in a fixed order, the first that holds deciding the branch.
 */
module Classification {

  /** The branch taken for one field or cell. */
  datatype Category = StructField | CellField | StringField | ScalarField | MatrixField | Unrecognised

  /** What the reader's `isStruct`, `isCellArray`, `isString`, `isScalar`, `isMatrix` answer. */
  datatype Probe = Probe(isStruct: bool, isCellArray: bool, isString: bool, isScalar: bool, isMatrix: bool)

  /** The `if ... else if ...` chain over the five answers. */
  function Classify(p: Probe): Category {
    if p.isStruct then StructField
    else if p.isCellArray then CellField
    else if p.isString then StringField
    else if p.isScalar then ScalarField
    else if p.isMatrix then MatrixField
    else Unrecognised
  }

  /** The order in which the predicates are asked. */
  const Precedence: seq<Category> := [StructField, CellField, StringField, ScalarField, MatrixField]

  /** Whether the predicate that belongs to category `c` holds. */
  predicate Answers(p: Probe, c: Category) {
    match c
    case StructField => p.isStruct
    case CellField => p.isCellArray
    case StringField => p.isString
    case ScalarField => p.isScalar
    case MatrixField => p.isMatrix
    case Unrecognised => false
  }

  /** Category `Precedence[i]` is the first in the order whose predicate holds. */
  predicate FirstAnswer(p: Probe, i: int) {
    0 <= i < |Precedence| && Answers(p, Precedence[i]) &&
    forall j :: 0 <= j < i ==> !Answers(p, Precedence[j])
  }

  /**
   * The chain picks the earliest predicate that holds, whatever later ones say, and
   * reports Unrecognised exactly when none holds.
   */
  lemma ClassifyIsFirstMatch(p: Probe)
    ensures forall i :: FirstAnswer(p, i) ==> Classify(p) == Precedence[i]
    ensures Classify(p) != Unrecognised ==>
      exists i :: FirstAnswer(p, i) && Classify(p) == Precedence[i]
    ensures Classify(p) == Unrecognised <==>
      forall i :: 0 <= i < |Precedence| ==> !Answers(p, Precedence[i])
  {
    if p.isStruct {
      assert FirstAnswer(p, 0);
    } else if p.isCellArray {
      assert FirstAnswer(p, 1);
    } else if p.isString {
      assert FirstAnswer(p, 2);
    } else if p.isScalar {
      assert FirstAnswer(p, 3);
    } else if p.isMatrix {
      assert FirstAnswer(p, 4);
    }
  }
}
