# loadh5 converter, modelled in Dafny

`loadh5.cpp` is a MATLAB MEX routine that loads an Octave HDF5 file into MATLAB.
Its core is a recursive converter. `loadStruct` takes a struct node of the file and
builds a 1x1 MATLAB struct. `loadCell` takes a cell-array node and builds an
nrow x ncol MATLAB cell array. Each field or cell is classified by five reader
predicates (struct, cell array, string, scalar, matrix), asked in that order. It is
then converted by recursing, by reading the string, or by one of the leaf loaders.
A leaf loader chooses the element class from the element-type tag.

This project models that converter and proves what it builds.

- `Source`: the reader's view of the file (`VSOctaveH5ReaderStruct`,
  `VSOctaveH5ReaderCellArray`), written as the datatype `SNode`. A struct is a list of
  named fields in `variables()` order. A cell array is nrow rows of ncol cells. Scalars
  and matrices carry their tag and opaque payloads. `Valid` states what a consistent
  reader reports: distinct field names without NUL, full grids, and nrow*ncol payloads
  per matrix.
- `Values`: the MATLAB value tree (`ValueNode`), the element classes (`Kind`), and the
  two host constructors the loop body calls for a text or an unrecognised element
  (`mxCreateString`, `mxCreateDoubleScalar`).
- `Tags`: the tag chain `"bool"`, `"uint8"`, ..., `"int64"`, falling back to double.
- `Classification`: the five-predicate chain and its first-match precedence.
- `Grid`: the column-major slot map `icol*nrow+irow` and the loop visit order.
- `Conversion`: what the converter computes, as functions (`Convert`,
  `ConvertStruct`, `ConvertCell`), with lemmas on shapes, order, fallbacks and leaves.
- `Loaders`: the loaders as methods. Each allocates its host array and fills it slot
  by slot, as `mxSetFieldByNumber` and `readMatrix` do. Each is proved to build
  exactly what the matching `Conversion` function describes.
- `RoundTrip`: an encoder from value trees back to reader trees. Loading an encoded
  tree gives back the tree, so the converter's output is a fixed point of the round trip.
- `Scenarios`: two concrete files and the values they load to.

Termination of the recursion is proved by `decreases` on the source tree. Every
recursive call is on a field or cell of the current node.

The two overloads of each leaf loader are modelled by one method each. The cell
overload (lines 51-87) and the struct overload (lines 93-127) differ only in how they
address the reader. The model hands the loader the addressed node itself.

Three behaviours of the code are easy to misread:

- The code recognises nine tags. Any other tag, `"float"` included, is loaded as
  double. `ClassID<float>` (line 37) is defined but never used, so no array of class
  single is ever produced (`Conversion.ConvertWellFormed`, `Scenarios.InnerStructLoads`).
- An unrecognised field or cell is not a null placeholder. It becomes the double
  scalar holding its position or column-major slot (lines 194-197, 280-283).
- A string is handed to the host as a C string (`mxCreateString(str.c_str())`, lines
  164 and 250), so its text ends at the first NUL (`Values.CText`, `Scenarios.EmbeddedNul`).

## Model

| member | source | states |
|---|---|---|
| Tags.ResolveTag | loadh5.cpp:168-178 | never Single; Double exactly when the tag is none of the nine names `bool`, `uint8`..`uint64`, `int8`..`int64`; otherwise the tag is the exact name of the kind chosen (the same chain at 182-192, 254-264, 268-278) |
| Tags.ResolveTagName | loadh5.cpp:182-192 | each of the nine tags selects its own kind by exact match; the name `double` selects Double |
| Tags.UnrecognisedTagsAreDouble | loadh5.cpp:264 | `float`, `single`, `double`, differently cased tags and the empty tag all fall back to Double (ClassID<float> at line 37 is never reached) |
| Values.CText | loadh5.cpp:164 | the text kept from `mxCreateString(str.c_str())`: the prefix of the string up to its first NUL, holding no NUL, followed in the string by a NUL when shorter, and the whole string when there is none (same call at 250); the byte-to-character conversion is not modelled |
| Values.DoubleScalar | loadh5.cpp:196 | `mxCreateDoubleScalar(double(ifield))` is a 1x1 double array holding the number (same call at 282) |
| Classification.ClassifyIsFirstMatch | loadh5.cpp:150-197 | the chain picks the earliest of struct, cell, string, scalar, matrix whose predicate holds, whatever later predicates answer; it reports unrecognised exactly when none holds (same chain at 236-283) |
| Classification.Classify | loadh5.cpp:150-197 | the branch is decided by struct, cell array, string, scalar, matrix asked in that order, unrecognised when none holds (same chain at 236-283); its precedence is `ClassifyIsFirstMatch` |
| Source.ProbeOf | loadh5.cpp:150-180 | the five predicates `isStruct`, `isCellArray`, `isString`, `isScalar`, `isMatrix` answer whether the node is of that shape; in a consistent file exactly one or none holds |
| Source.Variables | loadh5.cpp:212-213 | `variables()` yields as many names as the struct has fields |
| Source.Lookup | loadh5.cpp:233-236 | looking a field up by name yields a node stored under that name |
| Source.LookupAt | loadh5.cpp:233-243 | with distinct names, the node found under `fieldnames[ifield]` is the field at position `ifield` |
| Grid.ColumnMajorBijection | loadh5.cpp:147 | `(irow,icol) -> icol*nrow+irow` maps the grid into `[0, nrow*ncol)`, is injective, and reaches every slot with row `k % nrow`, column `k / nrow` |
| Grid.Flat | loadh5.cpp:147 | the cell at (irow, icol) of an nrow-row grid goes to slot `icol*nrow+irow`; its properties are `FlatInRange`, `FlatInverse`, `FlatOnto` and `ColumnMajorBijection` |
| Grid.VisitOrderCoversEachSlotOnce | loadh5.cpp:144-147 | the row-by-row loops visit slots without repeats, reach every slot of `[0, nrow*ncol)`, and visit nothing for a 0 x n or n x 0 grid |
| Grid.VisitOrder | loadh5.cpp:144-147 | the slots in the order the row-outer, column-inner loops write them: visit `t` is the cell at (t / ncol, t % ncol); it has nrow*ncol entries |
| Grid.VisitOrderAt | loadh5.cpp:144-147 | visit number `irow*ncol+icol` lies inside the grid and is the slot of (irow, icol) |
| Grid.VisitOrderNext | loadh5.cpp:145-147 | one pass of the inner loop extends the visits so far by exactly the slot `icol*nrow+irow` |
| Grid.VisitOrderRowEnd | loadh5.cpp:144-145 | the visit index at the end of row irow, `irow*ncol+ncol`, equals the index `(irow+1)*ncol` at the start of row irow+1, and stays within nrow*ncol |
| Grid.FlatInRange | loadh5.cpp:147 | the slot of a grid position lies below nrow*ncol |
| Grid.FlatInverse | loadh5.cpp:147 | row and column are recovered from the slot as remainder and quotient by nrow |
| Grid.FlatOnto | loadh5.cpp:147 | every slot below nrow*ncol is the slot of one grid position |
| Grid.VisitedNext | loadh5.cpp:145-200 | one pass of the inner loop body adds exactly the slot `icol*nrow+irow` to the slots written |
| Grid.VisitedRowEnd | loadh5.cpp:144-145 | finishing row irow writes exactly the slots of rows up to irow |
| Grid.VisitedAll | loadh5.cpp:144 | after the last row every slot has been written |
| Conversion.LogicalScalar | loadh5.cpp:51-57 | a 1x1 logical that is the non-zero test of the `unsigned` read (struct overload 93-98); its shape in context is `ScalarLeafShape` |
| Conversion.RealScalar | loadh5.cpp:70-76 | a 1x1 array of the requested class holding the value read (struct overload 110-116) |
| Conversion.LogicalMatrix | loadh5.cpp:59-68 | an nrow x ncol logical whose i-th element is the non-zero test of payload i (struct overload 100-108); its shape in context is `MatrixLeafShape` |
| Conversion.RealMatrix | loadh5.cpp:78-87 | an nrow x ncol array of the requested class holding the block read, in order (struct overload 118-127) |
| Conversion.ScalarLeaf | loadh5.cpp:166-179 | the scalar branch resolves the tag and calls the logical loader for `bool`, the real loader of the resolved class otherwise (same branch at 252-265) |
| Conversion.MatrixLeaf | loadh5.cpp:180-193 | the matrix branch resolves the tag and calls the logical loader for `bool`, the real loader of the resolved class otherwise (same branch at 266-279) |
| Conversion.Convert | loadh5.cpp:148-197 | the value one field or cell becomes: recursion for a struct or cell, the C-string text for a string, a leaf for a scalar or matrix, the double of `pos` otherwise (same body at 233-283); every loader is proved equal to it or to the two below |
| Conversion.ConvertStruct | loadh5.cpp:210-290 | the 1x1 struct `loadStruct` builds: the `variables()` names, and for field i the conversion of field i with fallback number i; its properties are `StructShape` and `StructWellFormed` |
| Conversion.ConvertCell | loadh5.cpp:135-204 | the nrow x ncol cell array `loadCell` builds: slot k holds the conversion of the cell it is the column-major slot of, with fallback number k; its properties are `CellShape` and `CellWellFormed` |
| Conversion.StructShape | loadh5.cpp:231-287 | the struct has exactly the `variables()` names in order; field `ifield` holds the conversion of the node found under `fieldnames[ifield]`, with fallback number `ifield` |
| Conversion.CellShape | loadh5.cpp:137-200 | the cell array is nrow x ncol as `dimensions` reports; the cell at (irow, icol) lands in slot `icol*nrow+irow`, converted with that slot as fallback number; an empty grid has no slots |
| Conversion.CellSlot | loadh5.cpp:145-200 | the cell at (irow, icol) is converted into slot `icol*nrow+irow`, which lies in the grid, with that slot as fallback number |
| Conversion.UnrecognisedFieldFallback | loadh5.cpp:280-283 | an unclassified field at position `ifield` becomes the double scalar `ifield` |
| Conversion.UnrecognisedCellFallback | loadh5.cpp:194-197 | an unclassified cell at (irow, icol) becomes the double scalar of its slot `icol*nrow+irow` |
| Conversion.UnrecognisedExactly | loadh5.cpp:280-283 | the fallback branch is taken exactly for nodes none of the five predicates accepts, and then yields the double scalar of the position |
| Conversion.ScalarLeafShape | loadh5.cpp:166-179 | a scalar is 1x1 of the kind its tag resolves to; a logical scalar is true exactly when the value read is non-zero |
| Conversion.MatrixLeafShape | loadh5.cpp:180-193 | a matrix keeps the reported nrow and ncol, zero ones included, and the whole nrow*ncol block in order, as the resolved kind; logical elements are true when non-zero |
| Conversion.ConvertWellFormed | loadh5.cpp:135-290 | every converted tree is well shaped (buffers of rows*cols elements, one value per field name), has no single-precision array (`ClassID<float>`, line 37, is never used), keeps distinct field names and has no NUL inside a text or a field name |
| Conversion.StructWellFormed | loadh5.cpp:210-290 | the struct `loadStruct` builds is well shaped, free of Single, has distinct names and no NUL in its texts or names |
| Conversion.CellWellFormed | loadh5.cpp:135-204 | the cell array `loadCell` builds is well shaped, free of Single, has distinct names and no NUL in its texts or names |
| Loaders.ReadRealBlock | loadh5.cpp:85 | `readMatrix` into a real buffer leaves the buffer equal to the block read |
| Loaders.ReadLogicalBlock | loadh5.cpp:66 | `readMatrix` into a logical buffer makes each element true exactly when the value read is non-zero |
| Loaders.LoadLogicalScalar | loadh5.cpp:51-57 | builds exactly `LogicalScalar(val)`: a 1x1 logical, true exactly when the `unsigned` read is non-zero (struct overload 93-98) |
| Loaders.LoadLogicalMatrix | loadh5.cpp:59-68 | filling the allocated buffer through `readMatrix` builds exactly `LogicalMatrix(nrow, ncol, data)` (struct overload 100-108) |
| Loaders.LoadRealScalar | loadh5.cpp:70-76 | builds exactly `RealScalar(k, val)`: a 1x1 array of the requested class holding the value read (struct overload 110-116) |
| Loaders.LoadRealMatrix | loadh5.cpp:78-87 | filling the allocated buffer through `readMatrix` builds exactly `RealMatrix(k, nrow, ncol, data)`, the whole block in order (struct overload 118-127) |
| Loaders.LoadElement | loadh5.cpp:148-197 | the loop body for one field or cell builds exactly `Convert(n, pos)`: first matching predicate, C-string text, tag resolution, leaf loader or recursion, fallback number otherwise (struct loop body 233-283) |
| Loaders.LoadStruct | loadh5.cpp:210-290 | filling the pre-allocated 1x1 struct field by field, each looked up by name, yields exactly `ConvertStruct(s)` |
| Loaders.LoadCell | loadh5.cpp:135-204 | filling the pre-allocated nrow x ncol cell array through the nested row/column loops yields exactly `ConvertCell(c)`; its ghost result, the slots in the order written, is `VisitOrder(nrow, ncol)`, so each slot is written exactly once (`VisitOrderCoversEachSlotOnce`) |
| RoundTrip.EncodeValid | loadh5.cpp:210-290 | the encoding of a well-shaped tree with distinct names is a consistent reader tree |
| RoundTrip.LoadEncoded | loadh5.cpp:135-290 | loading the encoding of any tree the converter can produce (well shaped, no Single, distinct names, no NUL in texts or names) gives that tree back: order, shapes, classes and column-major slots all survive |
| RoundTrip.ReloadIsIdentity | loadh5.cpp:210-290 | loading, encoding the result and loading again yields the first result |
| Scenarios.SensorNames | loadh5.cpp:212-213 | a three-field struct reports its names in file order |
| Scenarios.SensorName | loadh5.cpp:246-251 | a string without a NUL is loaded as the whole text |
| Scenarios.EmbeddedNul | loadh5.cpp:160-165 | a string `a`, NUL, `b` is loaded as the text `a`: what follows the NUL is lost |
| Scenarios.SensorFields | loadh5.cpp:252-279 | a 2x3 `double` matrix and a `bool` scalar of 1 convert to the unchanged matrix and a true logical |
| Scenarios.SensorValues | loadh5.cpp:231-287 | the three fields of that struct hold the text, the unchanged matrix and the true logical, in file order |
| Scenarios.SensorRecord | loadh5.cpp:231-287 | that struct loads to exactly those three fields in that order |
| Scenarios.InnerStructLoads | loadh5.cpp:254-283 | a `float` scalar field loads as a double, an unclassified second field as the double 1 |
| Scenarios.MixedCellValid | loadh5.cpp:139 | a 1x2 grid with one row of two cells is consistent |
| Scenarios.MixedCell | loadh5.cpp:144-200 | a 1x2 cell of an `int32` scalar and that struct loads to slot 0 and slot 1 in place |

## Left out

- `mexFunction` (lines 293-331): argument checks, copying the file name, opening the file and reporting errors are host I/O. It is not modelled.
- `newStrCpy` and the `mxCalloc`/`mxFree` copying of field names (lines 40-45, 215-228) are host memory handling. Only their effect is kept: the names reach the struct unchanged and in order.
- The allocation check `sv==0` -> `mexErrMsgTxt` (line 223) is not modelled. Allocation always succeeds in the model.
- Exceptions thrown by the reader propagate out of the loaders to the gateway's `catch`. The model has no failure outcome for them; `Source.Valid` stands for a reader that does not fail.
- The reader library `VSOctaveH5Reader` is not part of this model: HDF5 decoding, `dimensions`, `readScalar`, `readMatrix` and `readString`. Its five predicates are modelled as tests on the node's constructor, so in the files the model describes they never overlap. The precedence of the chain is still proved for arbitrary, overlapping answers (`Classification.ClassifyIsFirstMatch`).
- Payloads are opaque integers. The reader's conversion of stored data to the requested C type (including floating point) is not modelled.
- Loaders.ReadLogicalBlock: the reader's `readMatrix` into an `mxLogical` buffer is assumed to normalise each element as "non-zero is true", the same as the scalar path. Its real behaviour is in the reader, which is not part of this model.
- The numeric values of `mxClassID` (lines 24-38) are host constants. An enumeration of classes (`Kind`) stands for them.
- `mxSetFieldByNumber` on a cell array (line 200) is modelled as writing slot `ifield` of the cell.
- Loaders.LoadCell: `icol*nrow+irow` and `ifield` are `unsigned` in the source. The model's counters are unbounded, so 32-bit wrap-around for grids of 2^32 or more cells is not modelled.
- Field names are copied for the host with `strcpy` (`newStrCpy`, lines 40-45), which would stop at a NUL. HDF5 link names are NUL-terminated C strings, so the reader never reports a name with an embedded NUL; `Source.Valid` states this, and the names reach the struct whole.
- Values.CText: the reader's string is taken as a sequence of characters. The host's conversion of the C string's bytes into MATLAB characters (its character encoding, multibyte sequences) is not modelled, only the cut at the first NUL.
- Ownership of the child arrays placed in the struct or cell (the host frees them with their parent) is not modelled.
