# FastR core operations in Dafny

This project models six pieces of FastR, the Truffle-based implementation of
the R language, and proves what they promise:

- **PositionCheck** (`position_check.dfy`): `PositionCheckNode`. It prepares one
  position of `x[i]`, `x[[i]]` or their replacement forms. It rejects a missing,
  empty or symbol subscript on a non-list container. It computes the length of
  the indexed dimension and decides whether a character position gets a name
  lookup. It converts an integer coordinate matrix `x[m]` into linear offsets
  (`mat2indsub`), failing on a negative coordinate or one past its dimension.
  Every proof about the conversion goes through a specification by rows
  (`Collapse`) and a mixed-radix offset.
- **PMinMax** (`pminmax.dfy`): the `pmax` and `pmin` builtins. This covers
  dispatch on the precedence of the arguments, and the in-place cast of the
  argument array, which stops at the first empty argument. It covers the
  integer fold with recycling, `na.rm` and the single recycling warning, and
  the character fold through the recursive `MultiElemStringHandler`. The
  integer results are proved to be the maximum or minimum of each row, or NA.
  The character results are proved to be the fold of the row's non-NA strings.
- **Inherits** (`inherits.dfy`): the `inherits` builtin. It answers membership,
  or the 1-based position of the last occurrence of each requested class, with
  0 for an absent class.
- **UpdateNames** (`update_names.dfy`): the `names<-` builtin. This covers
  padding with NA, the length error, clearing on NULL (the dimnames of a
  one-dimensional array), and the NULL-target and non-vector errors.
- **CallArguments** (`call_arguments.dfy`): `CallArgumentsNode`. `Create` wraps
  the arguments and records where `...` is read. `executeFlatten` splices the
  values and names of `...` into the argument list in place of each `...`
  read, resizing its arrays. `createSignature` builds the varargs signature.
  The flattening is proved equal to a specification of the result
  (`FlatValues`, `FlatNames`). Lemmas say where every original argument and
  every `...` entry ends up.
- **RBaseObject** (`rbase_object.dfy`): the header word of an R object. The GP
  bits are bits 8..23 and the S4 flag is GP bit 4. The model covers the special
  cases of a promise (writes are ignored) and of an args-values-and-names
  object (writes are an internal error).

`runtime.dfy` (module `RRuntime`) holds the shared vocabulary:
- the 32-bit R integer, with `INT_NA` = -2^31 and the extremes ±(2^31-1);
- R's three-valued logical;
- strings that may be NA;
- the `Option` and `Result` wrappers.

The runtime class that defines these constants in FastR is not part of this
model. Their values are the Java constants R's integer type uses.

The recycling warning follows the code of `PMinMax.java`. It is raised only for
an argument whose length lies strictly between 1 and the result length (lines
149-152). It is raised only for arguments the fold actually visits. Without
`na.rm`, the fold stops at the first NA (lines 154-160). So `pmax(5L, 1:3)`
raises no warning (`PMinMax.NoFractionalArgumentNoWarning`). A leading NA hides
the warning of later arguments (`PMinMax.LeadingNASuppressesWarning`).

## Model

| member | source | states |
|---|---|---|
| PositionCheck.IgnoreDimensionIsMissing | com.oracle.truffle.r.nodes/src/com/oracle/truffle/r/nodes/access/vector/PositionCheckNode.java:111-113 | A position that selects the whole axis is a missing position |
| PositionCheck.NAForNotFoundExcludesMissingError | com.oracle.truffle.r.nodes/src/com/oracle/truffle/r/nodes/access/vector/PositionCheckNode.java:83-98 | NA-for-absent-name is set only for `[[` on list-like containers, so such a node never raises the missing-subscript error; a non-replacing `[[` on a non-list never gets it |
| PositionCheck.EmptyPositionIsNotMissing | com.oracle.truffle.r.nodes/src/com/oracle/truffle/r/nodes/access/vector/PositionCheckNode.java:305-311 | For a position of the node's class: it is empty exactly when it is a zero-length vector; an empty position is never missing; missing, empty-argument and symbol positions are never empty |
| PositionCheck.ScanValidPrefix | com.oracle.truffle.r.nodes/src/com/oracle/truffle/r/nodes/access/vector/PositionCheckNode.java:229-251 | Scanning a row over in-range coordinates accumulates exactly their mixed-radix offset |
| PositionCheck.MixedRadixBounds | com.oracle.truffle.r.nodes/src/com/oracle/truffle/r/nodes/access/vector/PositionCheckNode.java:243-249 | The offset of an in-range prefix of coordinates lies between 1 and the product of those dimensions |
| PositionCheck.ValidRowOffset | com.oracle.truffle.r.nodes/src/com/oracle/truffle/r/nodes/access/vector/PositionCheckNode.java:229-251 | A fully in-range row maps to its mixed-radix offset, which is within 1..prod(dim) |
| PositionCheck.TwoDimRowOffset | com.oracle.truffle.r.nodes/src/com/oracle/truffle/r/nodes/access/vector/PositionCheckNode.java:229-251 | For a matrix, row (k0, k1) in range maps to k0 + (k1 - 1) * dim[0] |
| PositionCheck.FirstZeroOrNAWins | com.oracle.truffle.r.nodes/src/com/oracle/truffle/r/nodes/access/vector/PositionCheckNode.java:233-237 | The first zero or NA coordinate, after only in-range ones, becomes the row's result unchanged |
| PositionCheck.NegativeCoordinateFails | com.oracle.truffle.r.nodes/src/com/oracle/truffle/r/nodes/access/vector/PositionCheckNode.java:239-242 | A negative non-NA coordinate reached before any zero or NA fails with the negative-subscript error |
| PositionCheck.CoordinatePastDimensionFails | com.oracle.truffle.r.nodes/src/com/oracle/truffle/r/nodes/access/vector/PositionCheckNode.java:243-247 | A coordinate past its dimension, reached before any zero or NA, fails with subscript out of bounds |
| PositionCheck.CollapseRows | com.oracle.truffle.r.nodes/src/com/oracle/truffle/r/nodes/access/vector/PositionCheckNode.java:226-252 | A successful conversion has one offset per matrix row, each that row's offset |
| PositionCheck.CollapseFailsAtFirstBadRow | com.oracle.truffle.r.nodes/src/com/oracle/truffle/r/nodes/access/vector/PositionCheckNode.java:226-252 | The conversion fails exactly when some row fails, with the error of the first failing row |
| PositionCheck.CollapseExample | com.oracle.truffle.r.nodes/src/com/oracle/truffle/r/nodes/access/vector/PositionCheckNode.java:219-253 | On a 3x3 container, coordinate rows (1,1) and (2,2) give offsets [1, 5] |
| PositionCheck.Mat2indsub | com.oracle.truffle.r.nodes/src/com/oracle/truffle/r/nodes/access/vector/PositionCheckNode.java:219-253 | The loop returns the row-by-row conversion or its first error; the result keeps the completeness flag |
| PositionCheck.Execute | com.oracle.truffle.r.nodes/src/com/oracle/truffle/r/nodes/access/vector/PositionCheckNode.java:135-186 | A missing subscript on a non-list is out of bounds; otherwise an integer coordinate matrix is converted row by row, a double coordinate matrix fails with its conversion's error or becomes a double vector with one entry per row, a character position is replaced by the name lookup's result and anything else passes through, with the dimension length and the position length (-1 for missing) recorded |
| PMinMax.IntStart | com.oracle.truffle.r.nodes.builtin/src/com/oracle/truffle/r/nodes/builtin/base/PMinMax.java:256-272 | The start value of the integer fold is never NA (INT_MIN_VALUE for pmax, INT_MAX_VALUE for pmin) |
| PMinMax.Precedence | com.oracle.truffle.r.nodes.builtin/src/com/oracle/truffle/r/nodes/builtin/base/PMinMax.java:302-309 | The precedence is -1 exactly for no arguments, bounds every argument's rank and is attained |
| PMinMax.ComputePrecedence | com.oracle.truffle.r.nodes.builtin/src/com/oracle/truffle/r/nodes/builtin/base/PMinMax.java:302-309 | The loop computes that precedence |
| PMinMax.SelectPath | com.oracle.truffle.r.nodes.builtin/src/com/oracle/truffle/r/nodes/builtin/base/PMinMax.java:130-254 | The character fold is taken exactly for two or more arguments with a character one; the double fold exactly for two or more with a double one and no character or complex one |
| PMinMax.SingleArgumentUnchanged | com.oracle.truffle.r.nodes.builtin/src/com/oracle/truffle/r/nodes/builtin/base/PMinMax.java:130-133 | A single argument is returned unchanged exactly when it is neither complex nor raw |
| PMinMax.InvalidInputCases | com.oracle.truffle.r.nodes.builtin/src/com/oracle/truffle/r/nodes/builtin/base/PMinMax.java:244-254 | "invalid input type" exactly for all-raw arguments, or a complex argument with no character one |
| PMinMax.IntegerPathCases | com.oracle.truffle.r.nodes.builtin/src/com/oracle/truffle/r/nodes/builtin/base/PMinMax.java:135-179 | Two or more raw, logical or integer arguments, not all raw, take the integer fold |
| PMinMax.NoArgumentsNoPath | com.oracle.truffle.r.nodes.builtin/src/com/oracle/truffle/r/nodes/builtin/base/PMinMax.java:274-309 | Among the six modelled argument kinds, no specialisation applies exactly when there are no arguments |
| PMinMax.LargestBounds | com.oracle.truffle.r.nodes.builtin/src/com/oracle/truffle/r/nodes/builtin/base/PMinMax.java:124 | The running maximum of the lengths bounds every length and is one of them |
| PMinMax.MaxLength | com.oracle.truffle.r.nodes.builtin/src/com/oracle/truffle/r/nodes/builtin/base/PMinMax.java:113-128 | The result length is 0 exactly when there are no arguments or one is empty; otherwise it is the largest length |
| PMinMax.FirstEmpty | com.oracle.truffle.r.nodes.builtin/src/com/oracle/truffle/r/nodes/builtin/base/PMinMax.java:116-123 | The index where the cast loop stops: no argument before it is empty, and it is empty unless it is the end |
| PMinMax.MaxLengthEmptyArgument | com.oracle.truffle.r.nodes.builtin/src/com/oracle/truffle/r/nodes/builtin/base/PMinMax.java:120-123 | An empty argument makes the result length 0 |
| PMinMax.MaxLengthNoEmptyArgument | com.oracle.truffle.r.nodes.builtin/src/com/oracle/truffle/r/nodes/builtin/base/PMinMax.java:124-127 | Without empty arguments the result length is the largest length |
| PMinMax.ConvertToVector | com.oracle.truffle.r.nodes.builtin/src/com/oracle/truffle/r/nodes/builtin/base/PMinMax.java:113-128 | Returns the result length; casts in place exactly the arguments before the first empty one (all of them when the length is positive) and leaves the rest as they were |
| PMinMax.RowFromNA | com.oracle.truffle.r.nodes.builtin/src/com/oracle/truffle/r/nodes/builtin/base/PMinMax.java:154-160 | Without na.rm and from a non-NA accumulator, the fold from argument j on is NA exactly when one of the remaining elements is NA |
| PMinMax.RowIsNAIffSomeNA | com.oracle.truffle.r.nodes.builtin/src/com/oracle/truffle/r/nodes/builtin/base/PMinMax.java:145-166 | Without na.rm, result[i] is NA exactly when one of row i's recycled elements is NA |
| PMinMax.RowFromBest | com.oracle.truffle.r.nodes.builtin/src/com/oracle/truffle/r/nodes/builtin/base/PMinMax.java:145-166 | With na.rm, or with no NA ahead, the fold is never NA, dominates the accumulator and every non-NA element it meets, and equals one of them |
| PMinMax.RowIsExtremum | com.oracle.truffle.r.nodes.builtin/src/com/oracle/truffle/r/nodes/builtin/base/PMinMax.java:145-166 | With na.rm, or with no NA in the row, result[i] is the maximum (pmax) or minimum (pmin) of the row's non-NA elements and the start value |
| PMinMax.RowFromAllNA | com.oracle.truffle.r.nodes.builtin/src/com/oracle/truffle/r/nodes/builtin/base/PMinMax.java:154-160 | With na.rm, folding only NAs keeps the accumulator |
| PMinMax.AllNARowIsStart | com.oracle.truffle.r.nodes.builtin/src/com/oracle/truffle/r/nodes/builtin/base/PMinMax.java:145-166 | With na.rm, a row of only NAs yields the start value |
| PMinMax.LeadingNASuppressesWarning | com.oracle.truffle.r.nodes.builtin/src/com/oracle/truffle/r/nodes/builtin/base/PMinMax.java:149-160 | Without na.rm, an NA first argument stops the fold before a fractionally recycled argument can warn |
| PMinMax.NoFractionalArgumentNoWarning | com.oracle.truffle.r.nodes.builtin/src/com/oracle/truffle/r/nodes/builtin/base/PMinMax.java:149-152 | Arguments of length 1 or of full length never warn |
| PMinMax.FoldIntRows | com.oracle.truffle.r.nodes.builtin/src/com/oracle/truffle/r/nodes/builtin/base/PMinMax.java:145-166 | Each result element is its row's fold; the warning is emitted at most once, and exactly when some visited argument is fractionally recycled |
| PMinMax.PMinMaxInt | com.oracle.truffle.r.nodes.builtin/src/com/oracle/truffle/r/nodes/builtin/base/PMinMax.java:135-169 | Empty result and no warning when an argument is empty; otherwise the row folds of the integer-cast arguments, with the warning rule; the argument array holds the integer cast of the arguments before the first empty one |
| PMinMax.StringScanNaRm | com.oracle.truffle.r.nodes.builtin/src/com/oracle/truffle/r/nodes/builtin/base/PMinMax.java:373-393 | With na.rm the scan is the fold of the remaining non-NA strings |
| PMinMax.StringFromNaRm | com.oracle.truffle.r.nodes.builtin/src/com/oracle/truffle/r/nodes/builtin/base/PMinMax.java:354-364 | With na.rm, the row from argument offset on is the fold of its non-NA strings, or the start value when there are none |
| PMinMax.StringRowNaRm | com.oracle.truffle.r.nodes.builtin/src/com/oracle/truffle/r/nodes/builtin/base/PMinMax.java:342-396 | With na.rm a character row is the fold of its non-NA strings, or the start value when there are none |
| PMinMax.StringScanNoNaRm | com.oracle.truffle.r.nodes.builtin/src/com/oracle/truffle/r/nodes/builtin/base/PMinMax.java:373-393 | Without na.rm the scan is NA when a later element is NA, and the fold otherwise |
| PMinMax.StringRowNoNaRm | com.oracle.truffle.r.nodes.builtin/src/com/oracle/truffle/r/nodes/builtin/base/PMinMax.java:365-393 | Without na.rm a character row is NA exactly when it holds an NA, and the fold of its strings otherwise |
| PMinMax.StringHandler | com.oracle.truffle.r.nodes.builtin/src/com/oracle/truffle/r/nodes/builtin/base/PMinMax.java:342-396 | Writes data[ind] as the specified row value and nothing else; the warning flag and the emission count follow the row's warning rule |
| PMinMax.ScanRow | com.oracle.truffle.r.nodes.builtin/src/com/oracle/truffle/r/nodes/builtin/base/PMinMax.java:373-393 | The loop over the remaining arguments computes the row value and its warning |
| PMinMax.FoldStringRows | com.oracle.truffle.r.nodes.builtin/src/com/oracle/truffle/r/nodes/builtin/base/PMinMax.java:227-242 | Each character result element is its row's fold; the warning is emitted at most once, exactly when some row warns |
| PMinMax.PMinMaxString | com.oracle.truffle.r.nodes.builtin/src/com/oracle/truffle/r/nodes/builtin/base/PMinMax.java:227-242 | Empty result when an argument is empty; otherwise the character row folds with the warning rule; the argument array is left as it was |
| Inherits.LastIndexMeaning | com.oracle.truffle.r.nodes/src/com/oracle/truffle/r/nodes/builtin/base/Inherits.java:32-35 | The class-to-position map holds -1 exactly for absent names, otherwise an occurrence with no later one |
| Inherits.ClassPositions | com.oracle.truffle.r.nodes/src/com/oracle/truffle/r/nodes/builtin/base/Inherits.java:36-46 | One position per requested name |
| Inherits.PositionsMeaning | com.oracle.truffle.r.nodes/src/com/oracle/truffle/r/nodes/builtin/base/Inherits.java:36-46 | Each position is in 0..length of the hierarchy, 0 exactly for an absent name, else the 1-based last occurrence |
| Inherits.DuplicateReportsLast | com.oracle.truffle.r.nodes/src/com/oracle/truffle/r/nodes/builtin/base/Inherits.java:32-46 | With a duplicated class name the later position is reported |
| Inherits.MembershipAgreesWithPositions | com.oracle.truffle.r.nodes/src/com/oracle/truffle/r/nodes/builtin/base/Inherits.java:36-54 | The logical answer is TRUE exactly when some position is non-zero |
| Inherits.DoesInherit | com.oracle.truffle.r.nodes/src/com/oracle/truffle/r/nodes/builtin/base/Inherits.java:57-70 | Non-character what and non-logical which are errors; a missing which answers membership |
| Inherits.DoesInheritLogical | com.oracle.truffle.r.nodes/src/com/oracle/truffle/r/nodes/builtin/base/Inherits.java:25-55 | which = TRUE gives the position vector; FALSE or NA give the membership answer |
| UpdateNames.NewNamesMeaning | com.oracle.truffle.r.nodes.builtin/src/com/oracle/truffle/r/nodes/builtin/base/UpdateNames.java:113-119 | Longer names are rejected with both lengths; otherwise the names have the container's length, start with the given names and are NA beyond them |
| UpdateNames.NewNamesIdempotent | com.oracle.truffle.r.nodes.builtin/src/com/oracle/truffle/r/nodes/builtin/base/UpdateNames.java:113-123 | Assigning the stored names again changes nothing |
| UpdateNames.UpdateContainerNames | com.oracle.truffle.r.nodes.builtin/src/com/oracle/truffle/r/nodes/builtin/base/UpdateNames.java:77-125 | NULL clears the dimnames of a one-dimensional array, else the names; otherwise the padded names are stored or the container is unchanged on error; length and dims never change |
| UpdateNames.UpdateNames | com.oracle.truffle.r.nodes.builtin/src/com/oracle/truffle/r/nodes/builtin/base/UpdateNames.java:137-150 | A NULL target accepts only NULL names; any other non-container is an error; on a container the names (or the dimnames of a 1-D array) are set as `UpdateContainerNames` states, while its length, dims and the other attribute stay as they were |
| CallArguments.Create | com.oracle.truffle.r.nodes/src/com/oracle/truffle/r/nodes/function/CallArgumentsNode.java:101-135 | Wraps each provided argument with its mode-change flag, records exactly the `...` reads, and pads the names with no-name |
| CallArguments.ContainsVarArgsSymbolMeaning | com.oracle.truffle.r.nodes/src/com/oracle/truffle/r/nodes/function/CallArgumentsNode.java:256-258 | `...` is read exactly when some argument index is recorded as a `...` read |
| CallArguments.FlatLengths | com.oracle.truffle.r.nodes/src/com/oracle/truffle/r/nodes/function/CallArgumentsNode.java:216-237 | The flattened values and names of the first n arguments both have n + slots * (m - 1) entries, for content of length m |
| CallArguments.FlattenLength | com.oracle.truffle.r.nodes/src/com/oracle/truffle/r/nodes/function/CallArgumentsNode.java:216-232 | The flattened list has n + slots * (m - 1) entries, aligned with its names |
| CallArguments.MissingContentKeepsArguments | com.oracle.truffle.r.nodes/src/com/oracle/truffle/r/nodes/function/CallArgumentsNode.java:208-215 | When `...` is missing every argument and name is kept |
| CallArguments.PiecePrefix | com.oracle.truffle.r.nodes/src/com/oracle/truffle/r/nodes/function/CallArgumentsNode.java:216-237 | Argument i's piece follows the pieces of the arguments before it |
| CallArguments.FlatAligned | com.oracle.truffle.r.nodes/src/com/oracle/truffle/r/nodes/function/CallArgumentsNode.java:216-237 | Flattened values and names have the same length |
| CallArguments.PieceInPlace | com.oracle.truffle.r.nodes/src/com/oracle/truffle/r/nodes/function/CallArgumentsNode.java:216-237 | Argument i's piece starts at its original index shifted by (m - 1) per earlier `...` slot |
| CallArguments.OrdinaryArgumentPlacement | com.oracle.truffle.r.nodes/src/com/oracle/truffle/r/nodes/function/CallArgumentsNode.java:233-237 | An ordinary argument keeps its value and name at its shifted position |
| CallArguments.SlotContentPlacement | com.oracle.truffle.r.nodes/src/com/oracle/truffle/r/nodes/function/CallArgumentsNode.java:221-231 | Entry j of `...` lands at the slot's shifted position plus j, with its name |
| CallArguments.WriteEntries | com.oracle.truffle.r.nodes/src/com/oracle/truffle/r/nodes/function/CallArgumentsNode.java:221-231 | Writes the `...` values and names from the index on and keeps the prefix |
| CallArguments.SpliceContent | com.oracle.truffle.r.nodes/src/com/oracle/truffle/r/nodes/function/CallArgumentsNode.java:216-232 | Grows both arrays by m - 1 and places the `...` entries after the kept prefix |
| CallArguments.FlattenArgument | com.oracle.truffle.r.nodes/src/com/oracle/truffle/r/nodes/function/CallArgumentsNode.java:206-237 | One loop step extends the flattened prefix by argument i's piece |
| CallArguments.ExecuteFlatten | com.oracle.truffle.r.nodes/src/com/oracle/truffle/r/nodes/function/CallArgumentsNode.java:192-242 | Without `...` the arguments and names come back as they are; otherwise the result is the specified flattening |
| CallArguments.CreateSignature | com.oracle.truffle.r.nodes/src/com/oracle/truffle/r/nodes/function/CallArgumentsNode.java:156-189 | No varargs exactly without `...`; otherwise the content's entries (or a missing marker) repeated once per `...` read |
| CallArguments.SignatureTimesCountsVarArgReads | com.oracle.truffle.r.nodes/src/com/oracle/truffle/r/nodes/function/CallArgumentsNode.java:186-188 | For arguments built by Create, the repeat count is the number of `...` reads |
| RBaseObject.GPBitsOf | com.oracle.truffle.r.runtime/src/com/oracle/truffle/r/runtime/data/RBaseObject.java:107-109 | The GP bits read back fit in 16 bits |
| RBaseObject.GPBitsRoundTrip | com.oracle.truffle.r.runtime/src/com/oracle/truffle/r/runtime/data/RBaseObject.java:107-113 | A 16-bit GP value reads back unchanged and the bits outside the field are kept |
| RBaseObject.GPBitsRewrite | com.oracle.truffle.r.runtime/src/com/oracle/truffle/r/runtime/data/RBaseObject.java:107-113 | Writing back the GP bits as read leaves the header unchanged |
| RBaseObject.WideGPBitsSpill | com.oracle.truffle.r.runtime/src/com/oracle/truffle/r/runtime/data/RBaseObject.java:111-113 | A GP value wider than 16 bits is shifted unmasked and spills past the field |
| RBaseObject.S4IsGPBit4 | com.oracle.truffle.r.runtime/src/com/oracle/truffle/r/runtime/data/RBaseObject.java:43-47 | The S4 flag is GP bit 4 |
| RBaseObject.SetS4Effect | com.oracle.truffle.r.runtime/src/com/oracle/truffle/r/runtime/data/RBaseObject.java:119-121 | Setting S4 makes it true and keeps every other bit |
| RBaseObject.UnsetS4Effect | com.oracle.truffle.r.runtime/src/com/oracle/truffle/r/runtime/data/RBaseObject.java:123-125 | Clearing S4 makes it false and keeps every other bit |
| RBaseObject.S4Idempotent | com.oracle.truffle.r.runtime/src/com/oracle/truffle/r/runtime/data/RBaseObject.java:115-125 | Setting and clearing S4 are each idempotent |
| RBaseObject.RObject.GetGPBits | com.oracle.truffle.r.runtime/src/com/oracle/truffle/r/runtime/data/RBaseObject.java:107-109 | The object's GP bits fit in 16 bits |
| RBaseObject.RObject.IsS4 | com.oracle.truffle.r.runtime/src/com/oracle/truffle/r/runtime/data/RBaseObject.java:115-117 | The object is S4 exactly when bit 4 of its GP bits is set |
| RBaseObject.RObject.SetTypedValueInfo | com.oracle.truffle.r.runtime/src/com/oracle/truffle/r/runtime/data/RBaseObject.java:90-105 | A promise ignores the write, an args-values-and-names object fails, any other object stores it |
| RBaseObject.RObject.SetGPBits | com.oracle.truffle.r.runtime/src/com/oracle/truffle/r/runtime/data/RBaseObject.java:111-113 | Replaces the GP field; a 16-bit value reads back and the rest of the header is kept |
| RBaseObject.RObject.SetS4 | com.oracle.truffle.r.runtime/src/com/oracle/truffle/r/runtime/data/RBaseObject.java:119-121 | An ordinary object becomes S4 with only that bit changed |
| RBaseObject.RObject.UnsetS4 | com.oracle.truffle.r.runtime/src/com/oracle/truffle/r/runtime/data/RBaseObject.java:123-125 | An ordinary object stops being S4 with only that bit changed |

## Left out

- The double path of `pmax`/`pmin` (`pMinMaxDouble`) and the double positions of `PositionCheckNode` (`doDouble`) involve floating point. Double arguments are kept only by length.
- PositionCheck.Execute: the conversion of a double coordinate matrix is not computed. Whether it fails (a negative coordinate, or one past its dimension) is an input, `doubleError`, and on success only the result's length is modelled, not its values.
- PMinMax.NoArgumentsNoPath: arguments are limited to raw, logical, integer, double, complex and character vectors, with the precedence node's ranks taken as 0 to 5 in that order. A NULL, list or other argument, whose precedence no guard tests, would also reach no specialisation; the model does not capture that case.
- PMinMaxString: the character path requires every argument to be a character vector already. The string cast of logical, integer or raw arguments is not modelled.
- The string comparison of `pmax`/`pmin` and the start value of the character fold are parameters, not R's collation.
- Truffle value profiles, `NACheck` and the completeness flag of the `pmax`/`pmin` result are not modelled.
- Warnings are modelled as a count of emissions, not as output.
- Delegated nodes are outside the model:
  - `PositionCastNode` (the cast is an input of `Execute`);
  - the character name lookup (only whether it applies, and its NA-for-not-found flag);
  - `GetDimAttributeNode` and `RemoveFixedAttributeNode`;
  - factor conversion in `names<-`;
  - the string cast of the new names in `names<-` (`castString`, UpdateNames.java line 90): the names arrive already as NULL, one string or a character vector;
  - the container's `setNames` (UpdateNames.java lines 102 and 123), which `names<-` calls to store or clear the names;
  - the precedence node (a rank per argument type);
  - the variable-read node behind `...`.
- UpdateNames.UpdateContainerNames: how the container's `setNames` stores names on a one-dimensional array is not modelled. The model always stores non-NULL names in `names` and leaves the dimnames as they were, also for a one-dimensional array.
- UpdateNames.UpdateNames: it inherits the same simplification for a one-dimensional array through `UpdateContainerNames`.
- `names<-` makes non-shared copies and materialises vectors, and it copies the string vector. Reference counts and sharing are not modelled: the container is updated in place.
- The class hierarchy of `x` in `inherits` is an input. Computing it from the class attribute and the implicit class is not modelled.
- The native mirror and the interop messages of `RBaseObject` (lines 60-84) are foreign calls and are not modelled.
- RBaseObject.RObject.SetGPBits: the read-back property is stated only for values that fit in 16 bits. A wider value is not masked by the source and spills out of the field (`WideGPBitsSpill`).
- The runtime class that defines `INT_NA`, `INT_MIN_VALUE` and `INT_MAX_VALUE` is not part of this model. Their values are written out in `RRuntime`.
