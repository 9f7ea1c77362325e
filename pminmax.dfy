/** `pmax` and `pmin`: element-wise maximum and minimum over recycled argument
    vectors, with NA propagation, `na.rm` skipping and a recycling warning that
    is raised at most once per call. The integer path (also taken by logical
    and raw arguments) and the character path are modelled. */
module PMinMax {
  import opened RRuntime

  /** Which builtin: `pmax` folds with maximum, `pmin` with minimum. */
  datatype Semantics = PMax | PMin

  /** The integer start value of the fold: the smallest non-NA R integer for
      `pmax`, the largest for `pmin`. */
  function IntStart(sem: Semantics): (r: RInt)
    ensures r != INT_NA
  {
    if sem == PMax then INT_MIN_VALUE else INT_MAX_VALUE
  }

  function Op(sem: Semantics, a: RInt, b: RInt): RInt
  {
    if sem == PMax then Max(a, b) else Min(a, b)
  }

  /** `a` is at least as good as `b` for this fold. */
  predicate Dominates(sem: Semantics, a: int, b: int)
  {
    if sem == PMax then a >= b else a <= b
  }

  datatype PError = InvalidInputType

  /** An argument vector as it reaches the builtin. Double and complex values are
      not modelled, only their lengths. */
  datatype ArgVector =
    | RawArg(raws: seq<bv8>)
    | LogicalArg(logicals: seq<Logical>)
    | IntArg(ints: seq<RInt>)
    | DoubleArg(doubleLength: nat)
    | ComplexArg(complexLength: nat)
    | StringArg(strings: seq<RString>)

  function ArgLength(a: ArgVector): nat
  {
    match a
    case RawArg(v) => |v|
    case LogicalArg(v) => |v|
    case IntArg(v) => |v|
    case DoubleArg(n) => n
    case ComplexArg(n) => n
    case StringArg(v) => |v|
  }

  // ---------------------------------------------------------------------------
  // Dispatch on the precedence of the arguments

  const RAW_PRECEDENCE := 0
  const LOGICAL_PRECEDENCE := 1
  const INT_PRECEDENCE := 2
  const DOUBLE_PRECEDENCE := 3
  const COMPLEX_PRECEDENCE := 4
  const STRING_PRECEDENCE := 5

  function Rank(a: ArgVector): int
  {
    match a
    case RawArg(_) => RAW_PRECEDENCE
    case LogicalArg(_) => LOGICAL_PRECEDENCE
    case IntArg(_) => INT_PRECEDENCE
    case DoubleArg(_) => DOUBLE_PRECEDENCE
    case ComplexArg(_) => COMPLEX_PRECEDENCE
    case StringArg(_) => STRING_PRECEDENCE
  }

  /** The highest rank among the arguments, -1 when there are none. */
  function Precedence(args: seq<ArgVector>): (p: int)
    ensures p == -1 <==> args == []
    ensures forall j :: 0 <= j < |args| ==> Rank(args[j]) <= p
    ensures args != [] ==> exists j :: 0 <= j < |args| && Rank(args[j]) == p
  {
    if args == [] then -1
    else
      var p := Precedence(args[..|args| - 1]);
      assert forall j :: 0 <= j < |args| - 1 ==> args[..|args| - 1][j] == args[j];
      Max(p, Rank(args[|args| - 1]))
  }

  /** The precedence loop of the builtin: the running maximum of the ranks, from -1. */
  method ComputePrecedence(args: array<ArgVector>) returns (p: int)
    ensures p == Precedence(args[..])
  {
    p := -1;
    for i := 0 to args.Length
      invariant p == Precedence(args[..i])
    {
      assert args[..i + 1][..i] == args[..i];
      p := Max(p, Rank(args[i]));
    }
    assert args[..args.Length] == args[..];
  }

  /** The specialisation that handles a call. */
  datatype Path =
    | OneVector          // the single argument is returned unchanged
    | IntPath            // integer fold (integer and logical precedence)
    | DoublePath         // double fold (not modelled)
    | StringPath         // character fold
    | InvalidInput       // complex or raw precedence: "invalid input type"
    | NoSpecialization   // no argument at all: no specialisation applies

  /** The guards of the specialisations: the precedence picks the kind of fold,
      and a single argument of a foldable kind is returned as it is. */
  function SelectPath(args: seq<ArgVector>): (r: Path)
    ensures r == OneVector || r == InvalidInput ==> |args| >= 1
    ensures r == StringPath <==> |args| >= 2 && exists j :: 0 <= j < |args| && args[j].StringArg?
    ensures r == DoublePath <==>
      |args| >= 2 && (forall j :: 0 <= j < |args| ==> !args[j].StringArg? && !args[j].ComplexArg?)
      && exists j :: 0 <= j < |args| && args[j].DoubleArg?
  {
    var p := Precedence(args);
    if p == COMPLEX_PRECEDENCE || p == RAW_PRECEDENCE then InvalidInput
    else if p == INT_PRECEDENCE || p == LOGICAL_PRECEDENCE || p == DOUBLE_PRECEDENCE || p == STRING_PRECEDENCE then
      if |args| == 1 then OneVector
      else if p == DOUBLE_PRECEDENCE then DoublePath
      else if p == STRING_PRECEDENCE then StringPath
      else IntPath
    else NoSpecialization
  }

  /** A single argument is returned as it is unless it is complex or raw. */
  lemma SingleArgumentUnchanged(args: seq<ArgVector>)
    ensures SelectPath(args) == OneVector <==>
      |args| == 1 && !args[0].ComplexArg? && !args[0].RawArg?
  {
    if |args| == 1 {
      assert Precedence(args) == Rank(args[0]);
    }
  }

  /** Complex precedence (a complex argument and no character one) and raw
      precedence (only raw arguments) are errors, even for a single argument. */
  lemma InvalidInputCases(args: seq<ArgVector>)
    ensures SelectPath(args) == InvalidInput <==>
      args != [] &&
      ((forall j :: 0 <= j < |args| ==> args[j].RawArg?) ||
       ((forall j :: 0 <= j < |args| ==> !args[j].StringArg?) && exists j :: 0 <= j < |args| && args[j].ComplexArg?))
  {
    var p := Precedence(args);
    if p == RAW_PRECEDENCE {
      assert forall j :: 0 <= j < |args| ==> args[j].RawArg?;
    }
    if args != [] && forall j :: 0 <= j < |args| ==> args[j].RawArg? {
      assert p == RAW_PRECEDENCE;
    }
  }

  /** Two or more arguments that are raw, logical or integer, not all raw, take
      the integer path: logical arguments are folded as integers. */
  lemma IntegerPathCases(args: seq<ArgVector>)
    ensures SelectPath(args) == IntPath <==>
      |args| >= 2 && (forall j :: 0 <= j < |args| ==> Rank(args[j]) <= INT_PRECEDENCE)
      && exists j :: 0 <= j < |args| && !args[j].RawArg?
  {
    var p := Precedence(args);
    if p == RAW_PRECEDENCE {
      assert forall j :: 0 <= j < |args| ==> args[j].RawArg?;
    }
  }

  /** Without arguments no specialisation applies. */
  lemma NoArgumentsNoPath(args: seq<ArgVector>)
    ensures SelectPath(args) == NoSpecialization <==> args == []
  {
  }

  // ---------------------------------------------------------------------------
  // Lengths and the cast to the fold's element type

  /** Largest of the lengths, 0 for none. */
  function Largest(lengths: seq<nat>): nat
  {
    if lengths == [] then 0
    else Max(Largest(lengths[..|lengths| - 1]), lengths[|lengths| - 1])
  }

  /** `Largest` bounds every length and is one of them. */
  lemma {:induction false} LargestBounds(lengths: seq<nat>)
    ensures forall j :: 0 <= j < |lengths| ==> lengths[j] <= Largest(lengths)
    ensures lengths != [] ==> exists j :: 0 <= j < |lengths| && lengths[j] == Largest(lengths)
  {
    if lengths != [] {
      var init := lengths[..|lengths| - 1];
      LargestBounds(init);
      assert forall j :: 0 <= j < |init| ==> init[j] == lengths[j];
      if init != [] && Largest(init) >= lengths[|lengths| - 1] {
        var w :| 0 <= w < |init| && init[w] == Largest(init);
        assert lengths[w] == Largest(lengths);
      } else {
        assert lengths[|lengths| - 1] == Largest(lengths);
      }
    }
  }

  lemma LargestStep(lengths: seq<nat>, i: nat)
    requires i < |lengths|
    ensures Largest(lengths[..i + 1]) == Max(Largest(lengths[..i]), lengths[i])
  {
    assert lengths[..i + 1][..i] == lengths[..i];
  }

  /** Result length: 0 when there is no argument or one argument is empty, else
      the longest length. */
  function MaxLength(lengths: seq<nat>): (n: nat)
    ensures n == 0 <==> lengths == [] || exists j :: 0 <= j < |lengths| && lengths[j] == 0
    ensures n > 0 ==> forall j :: 0 <= j < |lengths| ==> lengths[j] <= n
    ensures n > 0 ==> exists j :: 0 <= j < |lengths| && lengths[j] == n
  {
    LargestBounds(lengths);
    if lengths == [] || 0 in lengths then 0 else Largest(lengths)
  }

  /** An empty argument makes the result empty. */
  lemma MaxLengthEmptyArgument(lengths: seq<nat>, i: nat)
    requires i < |lengths| && lengths[i] == 0
    ensures MaxLength(lengths) == 0
  {
  }

  /** Without empty arguments the result length is the largest length. */
  lemma MaxLengthNoEmptyArgument(lengths: seq<nat>)
    requires forall j :: 0 <= j < |lengths| ==> lengths[j] > 0
    ensures MaxLength(lengths) == Largest(lengths)
  {
  }

  /** Index of the first empty argument, or the number of arguments when none is empty. */
  function FirstEmpty(lengths: seq<nat>): (k: nat)
    ensures k <= |lengths|
    ensures forall j :: 0 <= j < k ==> lengths[j] != 0
    ensures k < |lengths| ==> lengths[k] == 0
  {
    if lengths == [] then 0
    else if lengths[0] == 0 then 0
    else 1 + FirstEmpty(lengths[1..])
  }

  /** The first empty argument is the only index with no empty one before it and
      itself empty (or the end). */
  lemma FirstEmptyUnique(lengths: seq<nat>, i: nat)
    requires i <= |lengths|
    requires forall j :: 0 <= j < i ==> lengths[j] != 0
    requires i < |lengths| ==> lengths[i] == 0
    ensures FirstEmpty(lengths) == i
  {
  }

  function Lengths(args: seq<ArgVector>): (ls: seq<nat>)
    ensures |ls| == |args| && forall j :: 0 <= j < |args| ==> ls[j] == ArgLength(args[j])
  {
    seq(|args|, j requires 0 <= j < |args| => ArgLength(args[j]))
  }

  function LogicalToInt(l: Logical): RInt
  {
    match l
    case LTrue => 1
    case LFalse => 0
    case LNA => INT_NA
  }

  /** The integer cast: raw bytes and logicals become integers, integers stay. */
  function AsInts(a: ArgVector): (r: seq<RInt>)
    requires Rank(a) <= INT_PRECEDENCE
    ensures |r| == ArgLength(a)
  {
    match a
    case RawArg(v) => seq(|v|, k requires 0 <= k < |v| => v[k] as int)
    case LogicalArg(v) => seq(|v|, k requires 0 <= k < |v| => LogicalToInt(v[k]))
    case IntArg(v) => v
  }

  datatype CastTarget = ToInteger | ToCharacter

  predicate Castable(a: ArgVector, target: CastTarget)
  {
    if target == ToInteger then Rank(a) <= INT_PRECEDENCE else a.StringArg?
  }

  function CastTo(a: ArgVector, target: CastTarget): ArgVector
    requires Castable(a, target)
  {
    if target == ToInteger then IntArg(AsInts(a)) else a
  }

  /** The arguments with the first `i` cast. */
  function PartlyCast(args: seq<ArgVector>, target: CastTarget, i: nat): (r: seq<ArgVector>)
    requires forall j :: 0 <= j < |args| ==> Castable(args[j], target)
    ensures |r| == |args|
    ensures forall j :: 0 <= j < |args| ==> r[j] == if j < i then CastTo(args[j], target) else args[j]
  {
    seq(|args|, j requires 0 <= j < |args| && Castable(args[j], target) =>
      if j < i then CastTo(args[j], target) else args[j])
  }

  /** Casts the arguments in place, stopping at the first empty one, and returns
      the result length. Exactly the arguments before the first empty one are cast. */
  method ConvertToVector(argValues: array<ArgVector>, target: CastTarget) returns (length: nat)
    requires forall j :: 0 <= j < argValues.Length ==> Castable(argValues[j], target)
    modifies argValues
    ensures length == MaxLength(Lengths(old(argValues[..])))
    ensures length > 0 ==> argValues[..] == PartlyCast(old(argValues[..]), target, argValues.Length)
    ensures exists i :: 0 <= i <= argValues.Length && argValues[..] == PartlyCast(old(argValues[..]), target, i)
    ensures argValues[..] == PartlyCast(old(argValues[..]), target, FirstEmpty(Lengths(old(argValues[..]))))
  {
    ghost var before := argValues[..];
    ghost var ls := Lengths(before);
    length := 0;
    var i := 0;
    while i < argValues.Length
      invariant 0 <= i <= argValues.Length
      invariant argValues[..] == PartlyCast(before, target, i)
      invariant 0 !in ls[..i]
      invariant length == Largest(ls[..i])
    {
      var v := argValues[i];
      var vecLength := ArgLength(v);
      if vecLength == 0 {
        MaxLengthEmptyArgument(ls, i);
        FirstEmptyUnique(ls, i);
        return vecLength;
      }
      LargestStep(ls, i);
      length := Max(length, vecLength);
      argValues[i] := CastTo(v, target);
      assert argValues[..] == PartlyCast(before, target, i + 1);
      i := i + 1;
    }
    assert ls[..i] == ls;
    MaxLengthNoEmptyArgument(ls);
    FirstEmptyUnique(ls, i);
  }

  /** The arguments after the integer cast. */
  function IntArgs(args: seq<ArgVector>): (r: seq<seq<RInt>>)
    requires forall j :: 0 <= j < |args| ==> Rank(args[j]) <= INT_PRECEDENCE
    ensures |r| == |args| && forall j :: 0 <= j < |args| ==> r[j] == AsInts(args[j])
  {
    seq(|args|, j requires 0 <= j < |args| && Rank(args[j]) <= INT_PRECEDENCE => AsInts(args[j]))
  }

  /** The contents of character arguments. */
  function StringArgs(args: seq<ArgVector>): (r: seq<seq<RString>>)
    requires forall j :: 0 <= j < |args| ==> args[j].StringArg?
    ensures |r| == |args| && forall j :: 0 <= j < |args| ==> r[j] == args[j].strings
  {
    seq(|args|, j requires 0 <= j < |args| && args[j].StringArg? => args[j].strings)
  }

  // ---------------------------------------------------------------------------
  // Recycling and the warning

  /** The recycling warning condition for one argument. */
  predicate Recycled(len: nat, maxLength: nat)
  {
    len > 1 && len < maxLength
  }

  // ---------------------------------------------------------------------------
  // The integer fold: specification

  predicate NonEmpty<T>(args: seq<seq<T>>)
  {
    forall j :: 0 <= j < |args| ==> |args[j]| > 0
  }

  /** Element of argument `j` used for result position `i` (recycling). */
  function Elem<T>(args: seq<seq<T>>, j: nat, i: nat): T
    requires NonEmpty(args) && j < |args|
  {
    args[j][i % |args[j]|]
  }

  /** Argument `j` is looked at for row `i`: without `na.rm` the scan stops at the first NA. */
  predicate Visited(naRm: bool, args: seq<seq<RInt>>, i: nat, j: nat)
    requires NonEmpty(args) && j <= |args|
  {
    naRm || forall c :: 0 <= c < j ==> Elem(args, c, i) != INT_NA
  }

  /** Some argument visited for row `i`, among the first `upTo`, triggers the warning. */
  predicate RowWarns(naRm: bool, args: seq<seq<RInt>>, maxLength: nat, i: nat, upTo: nat)
    requires NonEmpty(args) && upTo <= |args|
  {
    exists j :: 0 <= j < upTo && Visited(naRm, args, i, j) && Recycled(|args[j]|, maxLength)
  }

  /** One of the first `n` rows triggers the warning. */
  predicate RowsWarn(naRm: bool, args: seq<seq<RInt>>, maxLength: nat, n: nat)
    requires NonEmpty(args)
  {
    exists i :: 0 <= i < n && RowWarns(naRm, args, maxLength, i, |args|)
  }

  /** The fold of row `i` from argument `j` on, with accumulator `acc`. */
  function RowFrom(sem: Semantics, naRm: bool, args: seq<seq<RInt>>, i: nat, j: nat, acc: RInt): RInt
    requires NonEmpty(args) && j <= |args|
    decreases |args| - j
  {
    if j == |args| then acc
    else
      var v := Elem(args, j, i);
      if v == INT_NA then
        if naRm then RowFrom(sem, naRm, args, i, j + 1, acc) else INT_NA
      else RowFrom(sem, naRm, args, i, j + 1, Op(sem, acc, v))
  }

  /** `result[i]` of `pmax`/`pmin` on the integer path. */
  function Row(sem: Semantics, naRm: bool, args: seq<seq<RInt>>, i: nat): RInt
    requires NonEmpty(args)
  {
    RowFrom(sem, naRm, args, i, 0, IntStart(sem))
  }

  // ---------------------------------------------------------------------------
  // The integer fold: properties

  lemma {:induction false} RowFromNA(sem: Semantics, naRm: bool, args: seq<seq<RInt>>, i: nat, j: nat, acc: RInt)
    requires NonEmpty(args) && j <= |args| && acc != INT_NA && !naRm
    ensures RowFrom(sem, naRm, args, i, j, acc) == INT_NA <==>
      exists c :: j <= c < |args| && Elem(args, c, i) == INT_NA
    decreases |args| - j
  {
    if j < |args| {
      RowFromNA(sem, naRm, args, i, j + 1, if Elem(args, j, i) == INT_NA then acc else Op(sem, acc, Elem(args, j, i)));
    }
  }

  /** Without `na.rm`, `result[i]` is NA exactly when one of row `i`'s recycled elements is NA. */
  lemma RowIsNAIffSomeNA(sem: Semantics, args: seq<seq<RInt>>, i: nat)
    requires NonEmpty(args)
    ensures Row(sem, false, args, i) == INT_NA <==> exists j :: 0 <= j < |args| && Elem(args, j, i) == INT_NA
  {
    RowFromNA(sem, false, args, i, 0, IntStart(sem));
  }

  lemma {:induction false} RowFromBest(sem: Semantics, naRm: bool, args: seq<seq<RInt>>, i: nat, j: nat, acc: RInt)
    requires NonEmpty(args) && j <= |args| && acc != INT_NA
    requires naRm || forall c :: j <= c < |args| ==> Elem(args, c, i) != INT_NA
    ensures var r := RowFrom(sem, naRm, args, i, j, acc);
      && r != INT_NA
      && Dominates(sem, r, acc)
      && (forall c :: j <= c < |args| && Elem(args, c, i) != INT_NA ==> Dominates(sem, r, Elem(args, c, i)))
      && (r == acc || exists c :: j <= c < |args| && Elem(args, c, i) != INT_NA && r == Elem(args, c, i))
    decreases |args| - j
  {
    if j < |args| {
      var v := Elem(args, j, i);
      var next := if v == INT_NA then acc else Op(sem, acc, v);
      RowFromBest(sem, naRm, args, i, j + 1, next);
    }
  }

  /** With `na.rm`, or when row `i` has no NA, `result[i]` is the maximum (pmax)
      or minimum (pmin) of the row's non-NA elements and the start value: it
      dominates each of them and equals one of them or the start value. */
  lemma RowIsExtremum(sem: Semantics, naRm: bool, args: seq<seq<RInt>>, i: nat)
    requires NonEmpty(args)
    requires naRm || forall j :: 0 <= j < |args| ==> Elem(args, j, i) != INT_NA
    ensures var r := Row(sem, naRm, args, i);
      && r != INT_NA
      && (forall j :: 0 <= j < |args| && Elem(args, j, i) != INT_NA ==> Dominates(sem, r, Elem(args, j, i)))
      && (r == IntStart(sem) || exists j :: 0 <= j < |args| && Elem(args, j, i) != INT_NA && r == Elem(args, j, i))
  {
    RowFromBest(sem, naRm, args, i, 0, IntStart(sem));
  }

  lemma {:induction false} RowFromAllNA(sem: Semantics, args: seq<seq<RInt>>, i: nat, j: nat, acc: RInt)
    requires NonEmpty(args) && j <= |args|
    requires forall c :: j <= c < |args| ==> Elem(args, c, i) == INT_NA
    ensures RowFrom(sem, true, args, i, j, acc) == acc
    decreases |args| - j
  {
    if j < |args| {
      RowFromAllNA(sem, args, i, j + 1, acc);
    }
  }

  /** With `na.rm`, a row made only of NAs yields the start value. */
  lemma AllNARowIsStart(sem: Semantics, args: seq<seq<RInt>>, i: nat)
    requires NonEmpty(args)
    requires forall j :: 0 <= j < |args| ==> Elem(args, j, i) == INT_NA
    ensures Row(sem, true, args, i) == IntStart(sem)
  {
    RowFromAllNA(sem, args, i, 0, IntStart(sem));
  }

  /** Without `na.rm` an NA in the first argument stops every row before any other
      argument is looked at, so even a fractionally recycled argument raises no
      warning: pmax(NA, 1:2, 1:3) is silent. */
  lemma LeadingNASuppressesWarning()
    ensures var args: seq<seq<RInt>> := [[INT_NA], [1, 2], [1, 2, 3]];
      Recycled(|args[1]|, 3) && !RowsWarn(false, args, 3, 3)
  {
    var args: seq<seq<RInt>> := [[INT_NA], [1, 2], [1, 2, 3]];
    forall i, j | 0 <= i < 3 && 0 < j < 3
      ensures !Visited(false, args, i, j)
    {
      assert Elem(args, 0, i) == INT_NA;
    }
  }

  /** Only a length strictly between 1 and the result length warns: arguments of
      length 1 and of full length, as in pmax(5L, 1:3), raise no warning. */
  lemma NoFractionalArgumentNoWarning(naRm: bool, args: seq<seq<RInt>>, maxLength: nat, n: nat)
    requires NonEmpty(args)
    requires forall j :: 0 <= j < |args| ==> |args[j]| == 1 || |args[j]| >= maxLength
    ensures !RowsWarn(naRm, args, maxLength, n)
  {
  }

  // ---------------------------------------------------------------------------
  // The integer fold: the loop

  /** Fills the result row by row; the warning is emitted at most once, the first
      time a visited argument is fractionally recycled. */
  method FoldIntRows(sem: Semantics, naRm: bool, args: seq<seq<RInt>>, maxLength: nat)
    returns (data: seq<RInt>, warnings: nat)
    requires NonEmpty(args)
    ensures |data| == maxLength
    ensures forall i :: 0 <= i < maxLength ==> data[i] == Row(sem, naRm, args, i)
    ensures warnings <= 1
    ensures warnings == 1 <==> RowsWarn(naRm, args, maxLength, maxLength)
  {
    var out := new RInt[maxLength];
    var warningAdded := false;
    warnings := 0;
    for i := 0 to maxLength
      invariant forall m :: 0 <= m < i ==> out[m] == Row(sem, naRm, args, m)
      invariant warnings == (if warningAdded then 1 else 0)
      invariant warningAdded <==> RowsWarn(naRm, args, maxLength, i)
    {
      var result: RInt := IntStart(sem);
      var j := 0;
      while j < |args|
        invariant 0 <= j <= |args|
        invariant Visited(naRm, args, i, j)
        invariant result != INT_NA
        invariant Row(sem, naRm, args, i) == RowFrom(sem, naRm, args, i, j, result)
        invariant warnings == (if warningAdded then 1 else 0)
        invariant warningAdded <==> RowsWarn(naRm, args, maxLength, i) || RowWarns(naRm, args, maxLength, i, j)
      {
        var vec := args[j];
        if |vec| > 1 && |vec| < maxLength && !warningAdded {
          warningAdded := true;
          warnings := warnings + 1;
        }
        var v := vec[i % |vec|];
        if v == INT_NA {
          if naRm {
            j := j + 1;
            continue;
          } else {
            result := INT_NA;
            assert forall c :: j < c <= |args| ==> !Visited(naRm, args, i, c);
            assert RowWarns(naRm, args, maxLength, i, |args|) <==> RowWarns(naRm, args, maxLength, i, j + 1);
            break;
          }
        } else {
          result := Op(sem, result, v);
        }
        j := j + 1;
      }
      assert Row(sem, naRm, args, i) == result;
      assert warningAdded <==> RowsWarn(naRm, args, maxLength, i) || RowWarns(naRm, args, maxLength, i, |args|);
      out[i] := result;
    }
    data := out[..];
  }

  /** The integer (and logical) path: casts the arguments in place, returns an
      empty vector when one of them is empty, and folds otherwise. */
  method PMinMaxInt(sem: Semantics, naRm: Logical, argValues: array<ArgVector>)
    returns (r: seq<RInt>, warnings: nat)
    requires argValues.Length >= 2
    requires forall j :: 0 <= j < argValues.Length ==> Rank(argValues[j]) <= INT_PRECEDENCE
    modifies argValues
    ensures MaxLength(Lengths(old(argValues[..]))) == 0 ==> r == [] && warnings == 0
    ensures MaxLength(Lengths(old(argValues[..]))) > 0 ==>
      var args := IntArgs(old(argValues[..]));
      NonEmpty(args)
      && |r| == MaxLength(Lengths(old(argValues[..])))
      && (forall i :: 0 <= i < |r| ==> r[i] == Row(sem, naRm == LTrue, args, i))
      && warnings <= 1
      && (warnings == 1 <==> RowsWarn(naRm == LTrue, args, |r|, |r|))
    ensures argValues[..] == PartlyCast(old(argValues[..]), ToInteger, FirstEmpty(Lengths(old(argValues[..]))))
  {
    ghost var before := argValues[..];
    var maxLength := ConvertToVector(argValues, ToInteger);
    if maxLength == 0 {
      return [], 0;
    }
    var profiledNaRm := naRm == LTrue;
    assert forall j :: 0 <= j < argValues.Length ==> argValues[..][j] == IntArg(AsInts(before[j]));
    var args := IntArgs(argValues[..]);
    assert args == IntArgs(before);
    forall j | 0 <= j < |args| ensures |args[j]| > 0 {
      assert Lengths(before)[j] > 0;
    }
    r, warnings := FoldIntRows(sem, profiledNaRm, args, maxLength);
  }

  // ---------------------------------------------------------------------------
  // The character path: specification

  /** Left fold of the string comparison operator. */
  function FoldLeft(op: (string, string) -> string, acc: string, xs: seq<string>): string
    decreases |xs|
  {
    if xs == [] then acc else FoldLeft(op, op(acc, xs[0]), xs[1..])
  }

  /** The non-NA strings of row `i`, from argument `j` on, in argument order. */
  function NonNA(args: seq<seq<RString>>, i: nat, j: nat): seq<string>
    requires NonEmpty(args) && j <= |args|
    decreases |args| - j
  {
    if j == |args| then []
    else match Elem(args, j, i)
      case NAString => NonNA(args, i, j + 1)
      case Str(s) => [s] + NonNA(args, i, j + 1)
  }

  /** The scan after the first non-NA element: `na.rm` skips NAs, otherwise the
      first NA makes the row NA. */
  function StringScan(op: (string, string) -> string, naRm: bool, args: seq<seq<RString>>, i: nat, j: nat, result: string): RString
    requires NonEmpty(args) && j <= |args|
    decreases |args| - j
  {
    if j == |args| then Str(result)
    else match Elem(args, j, i)
      case NAString => if naRm then StringScan(op, naRm, args, i, j + 1, result) else NAString
      case Str(c) => StringScan(op, naRm, args, i, j + 1, op(result, c))
  }

  /** Row `i` handled from argument `offset` on: with `na.rm` leading NAs are
      skipped and an all-NA row gets the start value. */
  function StringFrom(op: (string, string) -> string, naRm: bool, start: RString, args: seq<seq<RString>>, i: nat, offset: nat): RString
    requires NonEmpty(args) && offset < |args|
    decreases |args| - offset
  {
    match Elem(args, offset, i)
    case NAString =>
      if naRm then
        if offset == |args| - 1 then start else StringFrom(op, naRm, start, args, i, offset + 1)
      else NAString
    case Str(s) => StringScan(op, naRm, args, i, offset + 1, s)
  }

  /** Argument `j` is looked at for row `i` when the handler starts at `offset`. */
  predicate StringVisited(naRm: bool, args: seq<seq<RString>>, i: nat, offset: nat, j: nat)
    requires NonEmpty(args) && j <= |args|
  {
    naRm || forall c :: offset <= c < j ==> Elem(args, c, i) != NAString
  }

  predicate StringRowWarns(naRm: bool, args: seq<seq<RString>>, maxLength: nat, i: nat, offset: nat, upTo: nat)
    requires NonEmpty(args) && upTo <= |args|
  {
    exists j :: offset <= j < upTo && StringVisited(naRm, args, i, offset, j) && Recycled(|args[j]|, maxLength)
  }

  predicate StringRowsWarn(naRm: bool, args: seq<seq<RString>>, maxLength: nat, n: nat)
    requires NonEmpty(args)
  {
    exists i :: 0 <= i < n && StringRowWarns(naRm, args, maxLength, i, 0, |args|)
  }

  // ---------------------------------------------------------------------------
  // The character path: properties

  lemma {:induction false} StringScanNaRm(op: (string, string) -> string, args: seq<seq<RString>>, i: nat, j: nat, result: string)
    requires NonEmpty(args) && j <= |args|
    ensures StringScan(op, true, args, i, j, result) == Str(FoldLeft(op, result, NonNA(args, i, j)))
    decreases |args| - j
  {
    if j < |args| {
      match Elem(args, j, i)
      case NAString => StringScanNaRm(op, args, i, j + 1, result);
      case Str(c) => StringScanNaRm(op, args, i, j + 1, op(result, c));
    }
  }

  lemma {:induction false} StringFromNaRm(op: (string, string) -> string, start: RString, args: seq<seq<RString>>, i: nat, offset: nat)
    requires NonEmpty(args) && offset < |args|
    ensures var xs := NonNA(args, i, offset);
      StringFrom(op, true, start, args, i, offset) == if xs == [] then start else Str(FoldLeft(op, xs[0], xs[1..]))
    decreases |args| - offset
  {
    match Elem(args, offset, i)
    case NAString =>
      if offset < |args| - 1 {
        StringFromNaRm(op, start, args, i, offset + 1);
      }
    case Str(s) =>
      StringScanNaRm(op, args, i, offset + 1, s);
      assert NonNA(args, i, offset) == [s] + NonNA(args, i, offset + 1);
  }

  /** With `na.rm`, a character row is the fold of its non-NA elements from the
      first one on, or the start value when every element is NA. */
  lemma StringRowNaRm(op: (string, string) -> string, start: RString, args: seq<seq<RString>>, i: nat)
    requires NonEmpty(args) && |args| > 0
    ensures var xs := NonNA(args, i, 0);
      StringFrom(op, true, start, args, i, 0) == if xs == [] then start else Str(FoldLeft(op, xs[0], xs[1..]))
  {
    StringFromNaRm(op, start, args, i, 0);
  }

  lemma {:induction false} StringScanNoNaRm(op: (string, string) -> string, args: seq<seq<RString>>, i: nat, j: nat, result: string)
    requires NonEmpty(args) && j <= |args|
    ensures StringScan(op, false, args, i, j, result) ==
      if exists c :: j <= c < |args| && Elem(args, c, i) == NAString then NAString
      else Str(FoldLeft(op, result, NonNA(args, i, j)))
    decreases |args| - j
  {
    if j < |args| {
      match Elem(args, j, i)
      case NAString =>
      case Str(c) => StringScanNoNaRm(op, args, i, j + 1, op(result, c));
    }
  }

  /** Without `na.rm`, a character row is NA when one of its elements is NA and
      otherwise the fold of all its elements. */
  lemma StringRowNoNaRm(op: (string, string) -> string, start: RString, args: seq<seq<RString>>, i: nat)
    requires NonEmpty(args) && |args| > 0
    ensures var xs := NonNA(args, i, 0);
      StringFrom(op, false, start, args, i, 0) ==
        if exists j :: 0 <= j < |args| && Elem(args, j, i) == NAString then NAString
        else Str(FoldLeft(op, xs[0], xs[1..]))
  {
    match Elem(args, 0, i)
    case NAString =>
    case Str(s) =>
      StringScanNoNaRm(op, args, i, 1, s);
      assert NonNA(args, i, 0) == [s] + NonNA(args, i, 1);
  }

  // ---------------------------------------------------------------------------
  // The character path: the handler and its driver

  lemma StringWarnsExtend(naRm: bool, args: seq<seq<RString>>, maxLength: nat, ind: nat, offset: nat, i: nat)
    requires NonEmpty(args) && offset <= i < |args|
    requires StringVisited(naRm, args, ind, offset, i)
    ensures StringRowWarns(naRm, args, maxLength, ind, offset, i + 1) <==>
      StringRowWarns(naRm, args, maxLength, ind, offset, i) || Recycled(|args[i]|, maxLength)
  {
  }

  lemma StringWarnsStop(args: seq<seq<RString>>, maxLength: nat, ind: nat, offset: nat, i: nat)
    requires NonEmpty(args) && offset <= i < |args|
    requires Elem(args, i, ind) == NAString
    ensures StringRowWarns(false, args, maxLength, ind, offset, |args|) <==>
      StringRowWarns(false, args, maxLength, ind, offset, i + 1)
  {
    assert forall c :: i < c <= |args| ==> !StringVisited(false, args, ind, offset, c);
  }

  lemma StringWarnsSkip(args: seq<seq<RString>>, maxLength: nat, ind: nat, offset: nat)
    requires NonEmpty(args) && offset < |args|
    ensures StringRowWarns(true, args, maxLength, ind, offset, |args|) <==>
      Recycled(|args[offset]|, maxLength) || StringRowWarns(true, args, maxLength, ind, offset + 1, |args|)
  {
    if StringRowWarns(true, args, maxLength, ind, offset, |args|) && !Recycled(|args[offset]|, maxLength) {
      var j :| offset <= j < |args| && StringVisited(true, args, ind, offset, j) && Recycled(|args[j]|, maxLength);
      assert StringVisited(true, args, ind, offset + 1, j);
    }
    if StringRowWarns(true, args, maxLength, ind, offset + 1, |args|) {
      var j :| offset + 1 <= j < |args| && StringVisited(true, args, ind, offset + 1, j) && Recycled(|args[j]|, maxLength);
      assert StringVisited(true, args, ind, offset, j);
    }
    if Recycled(|args[offset]|, maxLength) {
      assert StringVisited(true, args, ind, offset, offset);
    }
  }

  /** Handles row `ind` from argument `offset` on and writes `data[ind]`; recurses
      past leading NAs when `na.rm` is set. Returns the updated warning flag and
      how many warnings this call emitted. */
  method StringHandler(op: (string, string) -> string, start: RString, args: seq<seq<RString>>, naRm: Logical,
                       offset: nat, ind: nat, maxLength: nat, warning: bool, data: array<RString>)
    returns (warningAdded: bool, emitted: nat)
    requires NonEmpty(args) && offset < |args| && ind < data.Length
    modifies data
    ensures data[ind] == StringFrom(op, naRm == LTrue, start, args, ind, offset)
    ensures forall m :: 0 <= m < data.Length && m != ind ==> data[m] == old(data[m])
    ensures warningAdded <==> warning || StringRowWarns(naRm == LTrue, args, maxLength, ind, offset, |args|)
    ensures emitted == (if warningAdded && !warning then 1 else 0)
    decreases |args| - offset
  {
    var profiledNaRm := naRm == LTrue;
    warningAdded := warning;
    emitted := 0;
    var vec := args[offset];
    if |vec| > 1 && |vec| < maxLength && !warningAdded {
      warningAdded := true;
      emitted := 1;
    }
    StringWarnsExtend(profiledNaRm, args, maxLength, ind, offset, offset);
    var result := vec[ind % |vec|];
    if result == NAString {
      if profiledNaRm {
        StringWarnsSkip(args, maxLength, ind, offset);
        if offset == |args| - 1 {
          data[ind] := start;
        } else {
          var more: nat;
          warningAdded, more := StringHandler(op, start, args, naRm, offset + 1, ind, maxLength, warningAdded, data);
          emitted := emitted + more;
        }
      } else {
        StringWarnsStop(args, maxLength, ind, offset, offset);
        data[ind] := result;
      }
      return;
    }
    var value;
    value, warningAdded, emitted := ScanRow(op, start, args, profiledNaRm, offset, ind, maxLength,
                                            warning, warningAdded, emitted, result.s);
    data[ind] := value;
  }

  /** The handler's loop over the arguments after `offset`, once row `ind` has the
      non-NA value `first` there: the row's value, with the warning flag and the
      warning count carried along. */
  method ScanRow(op: (string, string) -> string, start: RString, args: seq<seq<RString>>, naRm: bool,
                 offset: nat, ind: nat, maxLength: nat, warning: bool, warning0: bool, emitted0: nat, first: string)
    returns (value: RString, warningAdded: bool, emitted: nat)
    requires NonEmpty(args) && offset < |args|
    requires args[offset][ind % |args[offset]|] == Str(first)
    requires emitted0 == (if warning0 && !warning then 1 else 0)
    requires warning0 <==> warning || StringRowWarns(naRm, args, maxLength, ind, offset, offset + 1)
    ensures value == StringFrom(op, naRm, start, args, ind, offset)
    ensures warningAdded <==> warning || StringRowWarns(naRm, args, maxLength, ind, offset, |args|)
    ensures emitted == (if warningAdded && !warning then 1 else 0)
  {
    warningAdded, emitted := warning0, emitted0;
    var acc := first;
    var i := offset + 1;
    while i < |args|
      invariant offset + 1 <= i <= |args|
      invariant StringVisited(naRm, args, ind, offset, i)
      invariant StringFrom(op, naRm, start, args, ind, offset) == StringScan(op, naRm, args, ind, i, acc)
      invariant emitted == (if warningAdded && !warning then 1 else 0)
      invariant warningAdded <==> warning || StringRowWarns(naRm, args, maxLength, ind, offset, i)
    {
      var vec := args[i];
      StringWarnsExtend(naRm, args, maxLength, ind, offset, i);
      if |vec| > 1 && |vec| < maxLength && !warningAdded {
        warningAdded := true;
        emitted := 1;
      }
      var current := vec[ind % |vec|];
      if current == NAString {
        if naRm {
          i := i + 1;
          continue;
        }
        StringWarnsStop(args, maxLength, ind, offset, i);
        return NAString, warningAdded, emitted;
      }
      acc := op(acc, current.s);
      i := i + 1;
    }
    value := Str(acc);
  }

  /** Fills the character result row by row through the handler. */
  method FoldStringRows(op: (string, string) -> string, start: RString, args: seq<seq<RString>>, naRm: Logical, maxLength: nat)
    returns (data: seq<RString>, warnings: nat)
    requires NonEmpty(args) && |args| > 0
    ensures |data| == maxLength
    ensures forall i :: 0 <= i < maxLength ==> data[i] == StringFrom(op, naRm == LTrue, start, args, i, 0)
    ensures warnings <= 1
    ensures warnings == 1 <==> StringRowsWarn(naRm == LTrue, args, maxLength, maxLength)
  {
    var out := new RString[maxLength](_ => NAString);
    var warningAdded := false;
    warnings := 0;
    for i := 0 to maxLength
      invariant forall m :: 0 <= m < i ==> out[m] == StringFrom(op, naRm == LTrue, start, args, m, 0)
      invariant warnings == (if warningAdded then 1 else 0)
      invariant warningAdded <==> StringRowsWarn(naRm == LTrue, args, maxLength, i)
    {
      var emitted;
      warningAdded, emitted := StringHandler(op, start, args, naRm, 0, i, maxLength, warningAdded, out);
      warnings := warnings + emitted;
    }
    data := out[..];
  }

  /** The character path: returns an empty vector when an argument is empty and
      folds otherwise. Character arguments need no cast, so the array is left as it was. */
  method PMinMaxString(op: (string, string) -> string, start: RString, naRm: Logical, argValues: array<ArgVector>)
    returns (r: seq<RString>, warnings: nat)
    requires argValues.Length >= 2
    requires forall j :: 0 <= j < argValues.Length ==> argValues[j].StringArg?
    modifies argValues
    ensures MaxLength(Lengths(old(argValues[..]))) == 0 ==> r == [] && warnings == 0
    ensures MaxLength(Lengths(old(argValues[..]))) > 0 ==>
      var args := StringArgs(old(argValues[..]));
      NonEmpty(args)
      && |r| == MaxLength(Lengths(old(argValues[..])))
      && (forall i :: 0 <= i < |r| ==> r[i] == StringFrom(op, naRm == LTrue, start, args, i, 0))
      && warnings <= 1
      && (warnings == 1 <==> StringRowsWarn(naRm == LTrue, args, |r|, |r|))
    ensures argValues[..] == old(argValues[..])
  {
    ghost var before := argValues[..];
    var maxLength := ConvertToVector(argValues, ToCharacter);
    assert argValues[..] == before;
    if maxLength == 0 {
      return [], 0;
    }
    var args := StringArgs(argValues[..]);
    forall j | 0 <= j < |args| ensures |args[j]| > 0 {
      assert Lengths(before)[j] > 0;
    }
    r, warnings := FoldStringRows(op, start, args, naRm, maxLength);
  }
}
