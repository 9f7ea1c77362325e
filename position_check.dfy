/** The integer side of position checking for `x[i]`, `x[[i]]` and their
    replacement forms: the coordinate-matrix collapse ("mat2indsub"), the
    per-dimension preparation done by `execute`, and the small predicates
    callers use to special-case whole-axis and missing positions. */
module PositionCheck {
  import opened RRuntime

  /** Element-access mode: `[` is subset, `[[` is subscript. */
  datatype ElementAccessMode = Subset | Subscript

  /** The R types that matter for position checking; `OtherType` stands for the rest. */
  datatype RType =
    | Null | Logical | Integer | Double | Complex | Character | Raw
    | List | Expression | PairList | Language | OtherType

  datatype PosError =
    | SubscriptBounds            // "subscript out of bounds"
    | NegativeMatrixSubscript    // "negative values are not allowed in a matrix subscript"

  /** A raw position value as it reaches the node, before casting. */
  datatype RawPosition =
    | RMissing
    | REmpty
    | RSymbol(name: string)
    | JavaString(s: string)
    | RVector(elementType: RType, length: nat)
    | JavaScalar

  /** The runtime class of a raw position; a node is specialised for one class. */
  datatype PositionClass =
    | MissingClass | EmptyClass | SymbolClass | StringClass
    | VectorClass(elementType: RType) | ScalarClass

  function ClassOf(p: RawPosition): PositionClass
  {
    match p
    case RMissing => MissingClass
    case REmpty => EmptyClass
    case RSymbol(_) => SymbolClass
    case JavaString(_) => StringClass
    case RVector(t, _) => VectorClass(t)
    case JavaScalar => ScalarClass
  }

  /** The immutable configuration of one position-check node. */
  datatype CheckNode = CheckNode(
    mode: ElementAccessMode,
    containerType: RType,
    positionClass: PositionClass,
    dimensionIndex: nat,
    numDimensions: nat,
    exact: bool,
    replace: bool)

  /** A position after casting (the cast itself is performed elsewhere). Double
      positions keep only their length: their values are not modelled. */
  datatype CastPosition =
    | CMissing
    | CNull
    | CInt(ints: seq<int>, dims: Option<seq<int>>, complete: bool)
    | CDouble(length: nat, dims: Option<seq<int>>, complete: bool)
    | CLogical(logicals: seq<Logical>, dims: Option<seq<int>>)
    | CString(strings: seq<RString>, dims: Option<seq<int>>)

  /** What `execute` hands on to the mode-specific resolution. */
  datatype Prepared = Prepared(dimensionLength: int, position: CastPosition, positionLength: int)

  /** The container being indexed, as far as position checking looks at it. */
  datatype Container = Container(isVector: bool, dims: Option<seq<int>>)

  // ---------------------------------------------------------------------------
  // Predicates

  predicate IsListLike(t: RType)
  {
    t == Language || t == Expression || t == PairList || t == List
  }

  /** A missing position selects the whole axis. */
  predicate IsIgnoreDimension(node: CheckNode)
  {
    node.positionClass == MissingClass
  }

  predicate IsMissing(node: CheckNode)
  {
    node.positionClass == MissingClass || node.positionClass == EmptyClass
      || node.positionClass == SymbolClass
  }

  /** A position that is a container of length zero; a node specialised for the
      empty-argument class never reports one. */
  predicate IsEmptyPosition(node: CheckNode, position: RawPosition)
  {
    node.positionClass != EmptyClass && position.RVector? && position.length == 0
  }

  /** For a position of the node's own class: it is empty exactly when it is a
      zero-length vector, and an empty position is never a missing one. */
  lemma EmptyPositionIsNotMissing(node: CheckNode, position: RawPosition)
    requires ClassOf(position) == node.positionClass
    ensures IsEmptyPosition(node, position) <==> position.RVector? && position.length == 0
    ensures IsEmptyPosition(node, position) ==> !IsMissing(node)
    ensures position.REmpty? || position.RMissing? || position.RSymbol? ==> !IsEmptyPosition(node, position)
  {
  }

  /** A character position gets a name lookup; strings are Java strings or character vectors. */
  predicate HasCharacterLookup(node: CheckNode)
  {
    node.positionClass == StringClass || node.positionClass == VectorClass(Character)
  }

  /** The flag handed to the name lookup: an absent name yields NA instead of an error. */
  predicate UseNAForNotFound(node: CheckNode)
  {
    !node.replace && IsListLike(node.containerType) && node.mode == Subscript
  }

  /** Subscripting with a missing, empty or symbol position is only allowed on list-like containers. */
  predicate MissingSubscriptError(node: CheckNode)
  {
    node.mode == Subscript && IsMissing(node) && !IsListLike(node.containerType)
  }

  lemma IgnoreDimensionIsMissing(node: CheckNode)
    ensures IsIgnoreDimension(node) ==> IsMissing(node)
  {
  }

  /** A node that answers NA for absent names is never one that rejects a missing
      subscript: both depend on list-likeness in opposite directions. */
  lemma NAForNotFoundExcludesMissingError(node: CheckNode)
    ensures UseNAForNotFound(node) ==> IsListLike(node.containerType) && node.mode == Subscript
    ensures UseNAForNotFound(node) ==> !MissingSubscriptError(node)
    ensures !node.replace && node.mode == Subscript && !UseNAForNotFound(node) ==> !IsListLike(node.containerType)
  {
  }

  // ---------------------------------------------------------------------------
  // mat2indsub: the specification

  lemma CellInRange(nrs: nat, cols: nat, i: nat, j: nat)
    requires i < nrs && j < cols
    ensures 0 <= i + j * nrs < nrs * cols
  {
    assert (j + 1) * nrs <= cols * nrs by {
      MulMonotone(j + 1, cols, nrs);
    }
  }

  lemma MulMonotone(a: nat, b: nat, c: nat)
    requires a <= b
    ensures a * c <= b * c
  {
  }

  /** The matrix has `nrs` rows and one column per dimension, stored column by column. */
  predicate Shaped(dims: seq<int>, pos: seq<int>, nrs: nat)
  {
    |pos| == nrs * |dims|
  }

  /** Coordinate of row `i` along dimension `j`. */
  function Coord(dims: seq<int>, pos: seq<int>, nrs: nat, i: nat, j: nat): int
    requires Shaped(dims, pos, nrs) && i < nrs && j < |dims|
  {
    CellInRange(nrs, |dims|, i, j);
    pos[i + j * nrs]
  }

  /** A coordinate that contributes to the offset: inside 1..dims[j]. */
  predicate InRange(dims: seq<int>, pos: seq<int>, nrs: nat, i: nat, j: nat)
    requires Shaped(dims, pos, nrs) && i < nrs && j < |dims|
  {
    1 <= Coord(dims, pos, nrs, i, j) <= dims[j]
  }

  /** Scans row `i` from column `j` with running offset `acc` and stride `tdim`. */
  function RowScan(dims: seq<int>, pos: seq<int>, nrs: nat, i: nat, j: nat, acc: int, tdim: int): Result<int, PosError>
    requires Shaped(dims, pos, nrs) && i < nrs && j <= |dims|
    decreases |dims| - j
  {
    if j == |dims| then Ok(acc)
    else
      var k := Coord(dims, pos, nrs, i, j);
      if k == INT_NA || k == 0 then Ok(k)
      else if k < 0 then Err(NegativeMatrixSubscript)
      else if k > dims[j] then Err(SubscriptBounds)
      else RowScan(dims, pos, nrs, i, j + 1, acc + (k - 1) * tdim, tdim * dims[j])
  }

  /** The collapsed offset of row `i`, or the error that row raises. */
  function RowOffset(dims: seq<int>, pos: seq<int>, nrs: nat, i: nat): Result<int, PosError>
    requires Shaped(dims, pos, nrs) && i < nrs
  {
    RowScan(dims, pos, nrs, i, 0, 1, 1)
  }

  /** Rows `i..nrs` collapsed in order; the first failing row decides the error. */
  function CollapseFrom(dims: seq<int>, pos: seq<int>, nrs: nat, i: nat): Result<seq<int>, PosError>
    requires Shaped(dims, pos, nrs) && i <= nrs
    decreases nrs - i
  {
    if i == nrs then Ok([])
    else
      match RowOffset(dims, pos, nrs, i)
      case Err(e) => Err(e)
      case Ok(v) =>
        match CollapseFrom(dims, pos, nrs, i + 1)
        case Err(e) => Err(e)
        case Ok(s) => Ok([v] + s)
  }

  function Collapse(dims: seq<int>, pos: seq<int>, nrs: nat): Result<seq<int>, PosError>
    requires Shaped(dims, pos, nrs)
  {
    CollapseFrom(dims, pos, nrs, 0)
  }

  function Prepend(p: seq<int>, r: Result<seq<int>, PosError>): Result<seq<int>, PosError>
  {
    match r
    case Ok(s) => Ok(p + s)
    case Err(e) => Err(e)
  }

  /** One more collapsed row moves from the pending rest to the finished prefix. */
  lemma PrependRow(dims: seq<int>, pos: seq<int>, nrs: nat, i: nat, p: seq<int>, v: int)
    requires Shaped(dims, pos, nrs) && i < nrs
    requires RowOffset(dims, pos, nrs, i) == Ok(v)
    ensures Prepend(p, CollapseFrom(dims, pos, nrs, i)) == Prepend(p + [v], CollapseFrom(dims, pos, nrs, i + 1))
  {
    match CollapseFrom(dims, pos, nrs, i + 1)
    case Err(_) =>
    case Ok(s) => assert p + ([v] + s) == (p + [v]) + s;
  }

  /** Product of the first dimensions: the stride of the next dimension. */
  function Prod(s: seq<int>): int
  {
    if s == [] then 1 else Prod(s[..|s| - 1]) * s[|s| - 1]
  }

  /** The mixed-radix offset of the first `j` coordinates of row `i`, 1-based. */
  function MixedRadix(dims: seq<int>, pos: seq<int>, nrs: nat, i: nat, j: nat): int
    requires Shaped(dims, pos, nrs) && i < nrs && j <= |dims|
  {
    if j == 0 then 1
    else MixedRadix(dims, pos, nrs, i, j - 1) + (Coord(dims, pos, nrs, i, j - 1) - 1) * Prod(dims[..j - 1])
  }

  // ---------------------------------------------------------------------------
  // mat2indsub: properties

  /** Scanning a row across a prefix of in-range coordinates reaches column `j`
      with the mixed-radix offset and stride of that prefix. */
  lemma {:induction false} ScanValidPrefix(dims: seq<int>, pos: seq<int>, nrs: nat, i: nat, j: nat)
    requires Shaped(dims, pos, nrs) && i < nrs && j <= |dims|
    requires forall c :: 0 <= c < j ==> InRange(dims, pos, nrs, i, c)
    ensures RowOffset(dims, pos, nrs, i)
         == RowScan(dims, pos, nrs, i, j, MixedRadix(dims, pos, nrs, i, j), Prod(dims[..j]))
  {
    if j > 0 {
      ScanValidPrefix(dims, pos, nrs, i, j - 1);
      assert InRange(dims, pos, nrs, i, j - 1);
      assert dims[..j][..j - 1] == dims[..j - 1];
      assert Prod(dims[..j]) == Prod(dims[..j - 1]) * dims[j - 1];
    } else {
      assert dims[..0] == [];
    }
  }

  /** The mixed-radix offset of an in-range prefix lies in 1..product of its dimensions. */
  lemma {:induction false} MixedRadixBounds(dims: seq<int>, pos: seq<int>, nrs: nat, i: nat, j: nat)
    requires Shaped(dims, pos, nrs) && i < nrs && j <= |dims|
    requires forall c :: 0 <= c < j ==> InRange(dims, pos, nrs, i, c)
    ensures 1 <= MixedRadix(dims, pos, nrs, i, j) <= Prod(dims[..j])
  {
    if j == 0 {
      assert dims[..0] == [];
    } else {
      MixedRadixBounds(dims, pos, nrs, i, j - 1);
      assert InRange(dims, pos, nrs, i, j - 1);
      var p := Prod(dims[..j - 1]);
      var k := Coord(dims, pos, nrs, i, j - 1);
      var d := dims[j - 1];
      assert dims[..j][..j - 1] == dims[..j - 1];
      assert Prod(dims[..j]) == p * d;
      assert 0 <= (k - 1) * p <= (d - 1) * p by {
        MulMonotone(k - 1, d - 1, p);
      }
    }
  }

  /** A row whose coordinates are all in range collapses to its mixed-radix offset,
      which lies in 1..product of the dimensions. */
  lemma ValidRowOffset(dims: seq<int>, pos: seq<int>, nrs: nat, i: nat)
    requires Shaped(dims, pos, nrs) && i < nrs
    requires forall c :: 0 <= c < |dims| ==> InRange(dims, pos, nrs, i, c)
    ensures RowOffset(dims, pos, nrs, i) == Ok(MixedRadix(dims, pos, nrs, i, |dims|))
    ensures 1 <= MixedRadix(dims, pos, nrs, i, |dims|) <= Prod(dims)
  {
    ScanValidPrefix(dims, pos, nrs, i, |dims|);
    MixedRadixBounds(dims, pos, nrs, i, |dims|);
    assert dims[..|dims|] == dims;
  }

  /** For a two-dimensional container: row (k0, k1) in range maps to
      1 + (k0-1) + (k1-1)*dims[0], within 1..dims[0]*dims[1]. */
  lemma TwoDimRowOffset(dims: seq<int>, pos: seq<int>, nrs: nat, i: nat)
    requires Shaped(dims, pos, nrs) && i < nrs && |dims| == 2
    requires InRange(dims, pos, nrs, i, 0) && InRange(dims, pos, nrs, i, 1)
    ensures var k0, k1 := Coord(dims, pos, nrs, i, 0), Coord(dims, pos, nrs, i, 1);
      RowOffset(dims, pos, nrs, i) == Ok(1 + (k0 - 1) + (k1 - 1) * dims[0])
      && 1 <= 1 + (k0 - 1) + (k1 - 1) * dims[0] <= dims[0] * dims[1]
  {
    ValidRowOffset(dims, pos, nrs, i);
    var k0, k1 := Coord(dims, pos, nrs, i, 0), Coord(dims, pos, nrs, i, 1);
    assert dims[..0] == [] && dims[..1] == [dims[0]];
    assert [dims[0]][..0] == [];
    assert Prod(dims[..1]) == dims[0];
    assert MixedRadix(dims, pos, nrs, i, 1) == 1 + (k0 - 1);
    assert MixedRadix(dims, pos, nrs, i, 2) == 1 + (k0 - 1) + (k1 - 1) * dims[0];
    assert dims[..1] == dims[..|dims| - 1];
    assert Prod(dims) == dims[0] * dims[1];
  }

  /** The first zero or NA met in a row, after in-range coordinates only, is the
      row's whole result: what was accumulated is dropped and later columns are
      not looked at. */
  lemma FirstZeroOrNAWins(dims: seq<int>, pos: seq<int>, nrs: nat, i: nat, j: nat)
    requires Shaped(dims, pos, nrs) && i < nrs && j < |dims|
    requires forall c :: 0 <= c < j ==> InRange(dims, pos, nrs, i, c)
    requires Coord(dims, pos, nrs, i, j) == INT_NA || Coord(dims, pos, nrs, i, j) == 0
    ensures RowOffset(dims, pos, nrs, i) == Ok(Coord(dims, pos, nrs, i, j))
  {
    ScanValidPrefix(dims, pos, nrs, i, j);
  }

  /** A negative (non-NA) coordinate reached before any zero or NA fails the row. */
  lemma NegativeCoordinateFails(dims: seq<int>, pos: seq<int>, nrs: nat, i: nat, j: nat)
    requires Shaped(dims, pos, nrs) && i < nrs && j < |dims|
    requires forall c :: 0 <= c < j ==> InRange(dims, pos, nrs, i, c)
    requires Coord(dims, pos, nrs, i, j) < 0 && Coord(dims, pos, nrs, i, j) != INT_NA
    ensures RowOffset(dims, pos, nrs, i) == Err(NegativeMatrixSubscript)
  {
    ScanValidPrefix(dims, pos, nrs, i, j);
  }

  /** A coordinate past its dimension, reached before any zero or NA, fails the row. */
  lemma CoordinatePastDimensionFails(dims: seq<int>, pos: seq<int>, nrs: nat, i: nat, j: nat)
    requires Shaped(dims, pos, nrs) && i < nrs && j < |dims|
    requires forall c :: 0 <= c < j ==> InRange(dims, pos, nrs, i, c)
    requires dims[j] >= 0 && Coord(dims, pos, nrs, i, j) > dims[j]
    ensures RowOffset(dims, pos, nrs, i) == Err(SubscriptBounds)
  {
    ScanValidPrefix(dims, pos, nrs, i, j);
  }

  /** A successful collapse has one entry per row, each that row's offset. */
  lemma {:induction false} CollapseRows(dims: seq<int>, pos: seq<int>, nrs: nat, i: nat)
    requires Shaped(dims, pos, nrs) && i <= nrs
    requires CollapseFrom(dims, pos, nrs, i).Ok?
    ensures |CollapseFrom(dims, pos, nrs, i).value| == nrs - i
    ensures forall m :: i <= m < nrs ==> RowOffset(dims, pos, nrs, m) == Ok(CollapseFrom(dims, pos, nrs, i).value[m - i])
    decreases nrs - i
  {
    if i < nrs {
      CollapseRows(dims, pos, nrs, i + 1);
    }
  }

  /** The collapse fails exactly when some row fails, and then with the error of the
      first failing row. */
  lemma {:induction false} CollapseFailsAtFirstBadRow(dims: seq<int>, pos: seq<int>, nrs: nat, i: nat)
    requires Shaped(dims, pos, nrs) && i <= nrs
    ensures CollapseFrom(dims, pos, nrs, i).Err? <==> exists m :: i <= m < nrs && RowOffset(dims, pos, nrs, m).Err?
    ensures CollapseFrom(dims, pos, nrs, i).Err? ==>
      exists m :: i <= m < nrs && RowOffset(dims, pos, nrs, m) == Err(CollapseFrom(dims, pos, nrs, i).error)
        && forall p :: i <= p < m ==> RowOffset(dims, pos, nrs, p).Ok?
    decreases nrs - i
  {
    if i < nrs {
      CollapseFailsAtFirstBadRow(dims, pos, nrs, i + 1);
    }
  }

  /** The worked example: dims [3,3], rows (1,1) and (2,2) give offsets [1,5]. */
  lemma CollapseExample()
    ensures Collapse([3, 3], [1, 2, 1, 2], 2) == Ok([1, 5])
  {
    var dims, pos := [3, 3], [1, 2, 1, 2];
    assert Coord(dims, pos, 2, 0, 0) == 1 && Coord(dims, pos, 2, 0, 1) == 1;
    assert Coord(dims, pos, 2, 1, 0) == 2 && Coord(dims, pos, 2, 1, 1) == 2;
    TwoDimRowOffset(dims, pos, 2, 0);
    TwoDimRowOffset(dims, pos, 2, 1);
    assert RowOffset(dims, pos, 2, 0) == Ok(1) && RowOffset(dims, pos, 2, 1) == Ok(5);
    assert CollapseFrom(dims, pos, 2, 2) == Ok([]);
    assert [5] + [] == [5] && [1] + [5] == [1, 5];
    assert CollapseFrom(dims, pos, 2, 1) == Ok([5]);
  }

  // ---------------------------------------------------------------------------
  // mat2indsub: the integer specialisation

  /** `x[m]` for an integer coordinate matrix `m` with `positionDimensions[0]` rows:
      each row becomes a linear offset, or the whole call fails. The result keeps
      the completeness flag of the input and carries no dimensions. */
  method Mat2indsub(vectorDimensions: seq<int>, intPos: seq<int>, complete: bool, positionDimensions: seq<int>)
    returns (r: Result<CastPosition, PosError>)
    requires |positionDimensions| == 2 && positionDimensions[0] >= 0
    requires Shaped(vectorDimensions, intPos, positionDimensions[0])
    ensures match Collapse(vectorDimensions, intPos, positionDimensions[0])
            case Ok(iv) => r == Ok(CInt(iv, None, complete))
            case Err(e) => r == Err(e)
  {
    var nrs: nat := positionDimensions[0];
    var iv := new int[nrs];
    for i := 0 to nrs
      invariant forall m :: 0 <= m < i ==> iv[m] == 1
    {
      iv[i] := 1;
    }
    ghost var dims := vectorDimensions;
    var i := 0;
    assert iv[..0] == [];
    assert Prepend([], Collapse(dims, intPos, nrs)) == Collapse(dims, intPos, nrs) by {
      match Collapse(dims, intPos, nrs)
      case Err(_) =>
      case Ok(s) => assert [] + s == s;
    }
    while i < nrs
      invariant 0 <= i <= nrs
      invariant forall m :: i <= m < nrs ==> iv[m] == 1
      invariant Collapse(dims, intPos, nrs) == Prepend(iv[..i], CollapseFrom(dims, intPos, nrs, i))
    {
      var tdim := 1;
      var j := 0;
      while j < |vectorDimensions|
        invariant 0 <= j <= |dims|
        invariant forall m :: i < m < nrs ==> iv[m] == 1
        invariant Collapse(dims, intPos, nrs) == Prepend(iv[..i], CollapseFrom(dims, intPos, nrs, i))
        invariant RowOffset(dims, intPos, nrs, i) == RowScan(dims, intPos, nrs, i, j, iv[i], tdim)
      {
        CellInRange(nrs, |dims|, i, j);
        var k := intPos[i + j * nrs];
        if k == INT_NA || k == 0 {
          iv[i] := k;
          break;
        }
        if k < 0 {
          return Err(NegativeMatrixSubscript);
        }
        var dim := vectorDimensions[j];
        if k > dim {
          return Err(SubscriptBounds);
        }
        iv[i] := iv[i] + (k - 1) * tdim;
        tdim := tdim * dim;
        j := j + 1;
      }
      assert RowOffset(dims, intPos, nrs, i) == Ok(iv[i]);
      PrependRow(dims, intPos, nrs, i, iv[..i], iv[i]);
      assert iv[..i + 1] == iv[..i] + [iv[i]];
      i := i + 1;
    }
    assert CollapseFrom(dims, intPos, nrs, nrs) == Ok([]);
    assert iv[..nrs] + [] == iv[..];
    return Ok(CInt(iv[..], None, complete));
  }

  // ---------------------------------------------------------------------------
  // execute

  function Length(p: CastPosition): nat
  {
    match p
    case CMissing => 0
    case CNull => 0
    case CInt(ints, _, _) => |ints|
    case CDouble(length, _, _) => length
    case CLogical(logicals, _) => |logicals|
    case CString(strings, _) => |strings|
  }

  function DimsOf(p: CastPosition): Option<seq<int>>
  {
    match p
    case CInt(_, dims, _) => dims
    case CDouble(_, dims, _) => dims
    case CLogical(_, dims) => dims
    case CString(_, dims) => dims
    case _ => None
  }

  /** An R matrix stores exactly rows*columns elements. */
  predicate WellFormed(p: CastPosition)
  {
    DimsOf(p).Some? && |DimsOf(p).value| == 2 ==>
      DimsOf(p).value[0] >= 0 && DimsOf(p).value[1] >= 0
      && Length(p) == DimsOf(p).value[0] * DimsOf(p).value[1]
  }

  /** The coordinate-matrix rule applies to subset with one index, a rank-2
      container, and a rank-2 integer or double position with as many columns as
      the container has dimensions. */
  predicate MatrixRuleApplies(node: CheckNode, vector: Container, cast: CastPosition)
  {
    && node.mode == Subset && node.numDimensions == 1
    && vector.dims.Some? && |vector.dims.value| == 2
    && vector.isVector
    && (cast.CInt? || cast.CDouble?)
    && DimsOf(cast).Some? && |DimsOf(cast).value| == 2
    && DimsOf(cast).value[1] == |vector.dims.value|
  }

  /** Length of the dimension this node indexes. */
  function DimensionLength(node: CheckNode, vectorDimensions: Option<seq<int>>, vectorLength: int): int
    requires node.numDimensions != 1 ==>
      vectorDimensions.Some? && node.dimensionIndex < |vectorDimensions.value|
  {
    if node.numDimensions == 1 then vectorLength else vectorDimensions.value[node.dimensionIndex]
  }

  /** Prepares one position for the mode-specific resolution. `cast` is what the
      cast node produced for the raw position and `lookup` what the name lookup
      produces for it; both are computed outside this model. `doubleError` is the
      error the double conversion of a coordinate matrix raises, if any: double
      coordinates are not modelled, so that outcome is an input too. */
  method Execute(node: CheckNode, vector: Container, vectorDimensions: Option<seq<int>>, vectorLength: int,
                 cast: CastPosition, lookup: Result<CastPosition, PosError>, doubleError: Option<PosError>)
    returns (r: Result<Prepared, PosError>)
    requires node.numDimensions != 1 ==>
      vectorDimensions.Some? && |vectorDimensions.value| == node.numDimensions
      && node.dimensionIndex < node.numDimensions
    requires WellFormed(cast)
    requires HasCharacterLookup(node) ==> cast.CString?
    // a missing subscript on a vector-like container is out of bounds
    ensures MissingSubscriptError(node) ==> r == Err(SubscriptBounds)
    ensures r.Ok? ==> r.value.dimensionLength == DimensionLength(node, vectorDimensions, vectorLength)
    ensures r.Ok? ==> r.value.positionLength == (if r.value.position.CMissing? then -1 else Length(r.value.position))
    // the integer coordinate matrix is collapsed
    ensures (!MissingSubscriptError(node) && MatrixRuleApplies(node, vector, cast) && cast.CInt?) ==>
        match Collapse(vector.dims.value, cast.ints, DimsOf(cast).value[0])
        case Ok(iv) => r.Ok? && r.value.position == CInt(iv, None, cast.complete)
        case Err(e) => r == Err(e)
    // a double coordinate matrix fails with the conversion's error, or becomes a
    // plain double vector with one entry per row
    ensures (!MissingSubscriptError(node) && MatrixRuleApplies(node, vector, cast) && cast.CDouble?) ==>
        match doubleError
        case Some(e) => r == Err(e)
        case None => r.Ok? && r.value.position == CDouble(DimsOf(cast).value[0], None, cast.complete)
    // a character position is replaced by the result of the name lookup
    ensures (!MissingSubscriptError(node) && HasCharacterLookup(node)) ==>
        match lookup
        case Ok(p) => r.Ok? && r.value.position == p
        case Err(e) => r == Err(e)
    // everything else passes through unchanged
    ensures (!MissingSubscriptError(node) && !MatrixRuleApplies(node, vector, cast) && !HasCharacterLookup(node)) ==>
        r.Ok? && r.value.position == cast
  {
    var castPosition := cast;

    if node.mode == Subscript && IsMissing(node) {
      if !IsListLike(node.containerType) {
        return Err(SubscriptBounds);
      }
    }

    var dimensionLength: int;
    if node.numDimensions == 1 {
      dimensionLength := vectorLength;
    } else {
      dimensionLength := vectorDimensions.value[node.dimensionIndex];
    }

    if node.mode == Subset && node.numDimensions == 1 {
      var vectorDim := vector.dims;
      if vectorDim.Some? && |vectorDim.value| == 2 {
        if vector.isVector {
          if !castPosition.CMissing? && !castPosition.CNull? {
            var posDim := DimsOf(castPosition);
            if posDim.Some? && |posDim.value| == 2 && posDim.value[1] == |vectorDim.value| {
              if castPosition.CInt? {
                var collapsed := Mat2indsub(vectorDim.value, castPosition.ints, castPosition.complete, posDim.value);
                if collapsed.Err? {
                  return Err(collapsed.error);
                }
                castPosition := collapsed.value;
              } else if castPosition.CDouble? {
                if doubleError.Some? {
                  return Err(doubleError.value);
                }
                castPosition := CDouble(posDim.value[0], None, castPosition.complete);
              }
            }
          }
        }
      }
    }

    if HasCharacterLookup(node) {
      if lookup.Err? {
        return Err(lookup.error);
      }
      castPosition := lookup.value;
    }

    var positionLength: int;
    if castPosition.CMissing? {
      positionLength := -1;
    } else {
      positionLength := Length(castPosition);
    }
    return Ok(Prepared(dimensionLength, castPosition, positionLength));
  }
}
