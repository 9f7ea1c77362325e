/** The argument list of a call site: wrapping of the supplied arguments, name
    padding, the positions of `...` reads, and the flattening that splices the
    current contents of `...` into the argument and name arrays. */
module CallArguments {
  import opened RRuntime

  const VARARG_NAME: string := "..."

  /** A supplied argument expression: a variable read or some other node. */
  datatype Node = ReadVariable(name: string) | OtherNode(id: nat)

  /** An argument wrapped with its mode-change flag. */
  datatype WrappedArg = WrapArgument(node: Node, modeChange: bool)

  /** The call-site arguments; a `None` argument is one that was not provided,
      a `None` name is an unnamed argument. */
  datatype CallArgs = CallArgs(
    arguments: seq<Option<WrappedArg>>,
    names: seq<Option<string>>,
    varArgsSymbolIndices: seq<nat>,
    modeChange: bool,
    modeChangeForAll: bool)

  /** A value bound to `...`: a promise (identified by its expression) or missing. */
  datatype VarArgValue = PromiseValue(rep: nat) | MissingValue

  datatype VarArgEntry = VarArgEntry(value: VarArgValue, name: Option<string>)

  /** What reading `...` yields at the call: missing, or its values with their names. */
  datatype VarArgContent = ContentMissing | Content(entries: seq<VarArgEntry>)

  /** An element of a flattened argument list: an original argument, or a value
      unrolled from `...` (wrapped as a promise or constant node). */
  datatype FlatArg = Original(arg: Option<WrappedArg>) | Unrolled(value: VarArgValue)

  predicate IsVarArgSymbol(arg: Option<Node>)
  {
    arg == Some(ReadVariable(VARARG_NAME))
  }

  predicate StrictlyIncreasing(s: seq<nat>)
  {
    forall a, b :: 0 <= a < b < |s| ==> s[a] < s[b]
  }

  /** The shape `Create` establishes and flattening relies on. */
  predicate Valid(c: CallArgs)
  {
    && StrictlyIncreasing(c.varArgsSymbolIndices)
    && (forall k :: 0 <= k < |c.varArgsSymbolIndices| ==> c.varArgsSymbolIndices[k] < |c.arguments|)
    && |c.names| >= |c.arguments|
  }

  predicate ContainsVarArgsSymbol(c: CallArgs)
  {
    |c.varArgsSymbolIndices| > 0
  }

  /** On a valid argument list, `...` is read exactly when some argument index is
      recorded as a `...` read. */
  lemma ContainsVarArgsSymbolMeaning(c: CallArgs)
    requires Valid(c)
    ensures ContainsVarArgsSymbol(c) <==> exists i :: 0 <= i < |c.arguments| && i in c.varArgsSymbolIndices
  {
    if ContainsVarArgsSymbol(c) {
      assert c.varArgsSymbolIndices[0] in c.varArgsSymbolIndices;
    }
  }

  // ---------------------------------------------------------------------------
  // Creation

  /** Wraps every provided argument (the first one, or all when
      `modeChangeForAll`, with `modeChange`, the others with `true`), records the
      `...` reads in order and pads the names with "no name". */
  method Create(modeChange: bool, modeChangeForAll: bool, args: seq<Option<Node>>, names: Option<seq<Option<string>>>)
    returns (c: CallArgs)
    ensures Valid(c)
    ensures c.modeChange == modeChange && c.modeChangeForAll == modeChangeForAll
    ensures |c.arguments| == |args|
    ensures forall i :: 0 <= i < |args| ==> (c.arguments[i] == None <==> args[i] == None)
    ensures forall i :: 0 <= i < |args| && args[i].Some? ==>
      c.arguments[i] == Some(WrapArgument(args[i].value, if i == 0 || modeChangeForAll then modeChange else true))
    ensures forall i :: 0 <= i < |args| ==> (i in c.varArgsSymbolIndices <==> IsVarArgSymbol(args[i]))
    ensures ContainsVarArgsSymbol(c) <==> exists i :: 0 <= i < |args| && IsVarArgSymbol(args[i])
    ensures names.None? ==> c.names == seq(|args|, _ => None)
    ensures names.Some? && |names.value| < |args| ==>
      |c.names| == |args| && c.names[..|names.value|] == names.value
      && forall k :: |names.value| <= k < |args| ==> c.names[k] == None
    ensures names.Some? && |names.value| >= |args| ==> c.names == names.value
  {
    var wrappedArgs := new Option<WrappedArg>[|args|](_ => None);
    var varArgsSymbolIndices: seq<nat> := [];
    for i := 0 to |args|
      invariant forall m :: 0 <= m < i ==> (wrappedArgs[m] == None <==> args[m] == None)
      invariant forall m :: 0 <= m < i && args[m].Some? ==>
        wrappedArgs[m] == Some(WrapArgument(args[m].value, if m == 0 || modeChangeForAll then modeChange else true))
      invariant StrictlyIncreasing(varArgsSymbolIndices)
      invariant forall k :: 0 <= k < |varArgsSymbolIndices| ==> varArgsSymbolIndices[k] < i
      invariant forall m :: 0 <= m < i ==> (m in varArgsSymbolIndices <==> IsVarArgSymbol(args[m]))
    {
      var arg := args[i];
      if arg == None {
        wrappedArgs[i] := None;
      } else {
        if arg.value.ReadVariable? && arg.value.name == VARARG_NAME {
          varArgsSymbolIndices := varArgsSymbolIndices + [i];
        }
        wrappedArgs[i] := Some(WrapArgument(arg.value, if i == 0 || modeChangeForAll then modeChange else true));
      }
    }
    var resolvedNames: seq<Option<string>>;
    if names.None? {
      resolvedNames := seq(|args|, _ => None);
    } else if |names.value| < |args| {
      resolvedNames := names.value + seq(|args| - |names.value|, _ => None);
    } else {
      resolvedNames := names.value;
    }
    c := CallArgs(wrappedArgs[..], resolvedNames, varArgsSymbolIndices, modeChange, modeChangeForAll);
    assert varArgsSymbolIndices != [] ==> IsVarArgSymbol(args[varArgsSymbolIndices[0]]);
    if exists i :: 0 <= i < |args| && IsVarArgSymbol(args[i]) {
      var i :| 0 <= i < |args| && IsVarArgSymbol(args[i]);
      assert i in varArgsSymbolIndices;
    }
  }

  // ---------------------------------------------------------------------------
  // Flattening: specification

  function UnrolledValues(entries: seq<VarArgEntry>): (r: seq<FlatArg>)
    ensures |r| == |entries| && forall j :: 0 <= j < |entries| ==> r[j] == Unrolled(entries[j].value)
  {
    seq(|entries|, j requires 0 <= j < |entries| => Unrolled(entries[j].value))
  }

  function UnrolledNames(entries: seq<VarArgEntry>): (r: seq<Option<string>>)
    ensures |r| == |entries| && forall j :: 0 <= j < |entries| ==> r[j] == entries[j].name
  {
    seq(|entries|, j requires 0 <= j < |entries| => entries[j].name)
  }

  /** What argument `i` becomes: a `...` slot with content is replaced by the
      content's values, anything else stays. */
  function PieceValues(c: CallArgs, content: VarArgContent, i: nat): seq<FlatArg>
    requires i < |c.arguments|
  {
    if i in c.varArgsSymbolIndices && content.Content? then UnrolledValues(content.entries)
    else [Original(c.arguments[i])]
  }

  /** The names that go with `PieceValues`. */
  function PieceNames(c: CallArgs, content: VarArgContent, i: nat): seq<Option<string>>
    requires i < |c.arguments| <= |c.names|
  {
    if i in c.varArgsSymbolIndices && content.Content? then UnrolledNames(content.entries)
    else [c.names[i]]
  }

  /** The flattened values of the first `n` arguments, in order. */
  function FlatValues(c: CallArgs, content: VarArgContent, n: nat): seq<FlatArg>
    requires n <= |c.arguments|
  {
    if n == 0 then [] else FlatValues(c, content, n - 1) + PieceValues(c, content, n - 1)
  }

  /** The flattened names of the first `n` arguments, in order. */
  function FlatNames(c: CallArgs, content: VarArgContent, n: nat): seq<Option<string>>
    requires n <= |c.arguments| <= |c.names|
  {
    if n == 0 then [] else FlatNames(c, content, n - 1) + PieceNames(c, content, n - 1)
  }

  function Originals(args: seq<Option<WrappedArg>>): (r: seq<FlatArg>)
    ensures |r| == |args| && forall i :: 0 <= i < |args| ==> r[i] == Original(args[i])
  {
    seq(|args|, i requires 0 <= i < |args| => Original(args[i]))
  }

  /** Number of `...` slots among the first `i` arguments. */
  function SlotCount(idx: seq<nat>, i: nat): nat
  {
    if i == 0 then 0 else SlotCount(idx, i - 1) + (if i - 1 in idx then 1 else 0)
  }

  function ContentLength(content: VarArgContent): nat
  {
    if content.Content? then |content.entries| else 1
  }

  // ---------------------------------------------------------------------------
  // Flattening: properties

  lemma {:induction false} SlotCountSame(s: seq<nat>, t: seq<nat>, i: nat)
    requires forall j :: 0 <= j < i ==> (j in s <==> j in t)
    ensures SlotCount(s, i) == SlotCount(t, i)
  {
    if i > 0 {
      SlotCountSame(s, t, i - 1);
    }
  }

  /** With strictly increasing indices below `i`, every index is counted once. */
  lemma {:induction false} SlotCountAll(idx: seq<nat>, i: nat)
    requires StrictlyIncreasing(idx)
    requires forall k :: 0 <= k < |idx| ==> idx[k] < i
    ensures SlotCount(idx, i) == |idx|
  {
    if idx == [] {
      SlotCountZero(i);
    } else {
      var init := idx[..|idx| - 1];
      var last := idx[|idx| - 1];
      assert last < i;
      if last == i - 1 {
        forall j | 0 <= j < i - 1 ensures j in idx <==> j in init {
          if j in idx {
            var k :| 0 <= k < |idx| && idx[k] == j;
            assert k != |idx| - 1;
            assert init[k] == j;
          }
        }
        SlotCountSame(idx, init, i - 1);
        SlotCountAll(init, i - 1);
      } else {
        assert forall k :: 0 <= k < |idx| ==> idx[k] <= last;
        assert i - 1 !in idx;
        SlotCountAll(idx, i - 1);
      }
    }
  }

  lemma {:induction false} SlotCountZero(i: nat)
    ensures SlotCount([], i) == 0
  {
    if i > 0 {
      SlotCountZero(i - 1);
    }
  }

  lemma PieceLengths(c: CallArgs, content: VarArgContent, i: nat)
    requires i < |c.arguments| <= |c.names|
    ensures |PieceValues(c, content, i)| == |PieceNames(c, content, i)|
      == if i in c.varArgsSymbolIndices then ContentLength(content) else 1
  {
  }

  /** One more argument adds its piece: `b` says whether it is a `...` slot. */
  lemma LengthStep(n: nat, s: nat, d: int, b: bool)
    requires n > 0
    ensures (n - 1 + s * d) + (if b then 1 + d else 1) == n + (s + if b then 1 else 0) * d
  {
    if b {
      assert (s + 1) * d == s * d + d;
    }
  }

  lemma {:induction false} FlatLengths(c: CallArgs, content: VarArgContent, n: nat)
    requires n <= |c.arguments| <= |c.names|
    ensures |FlatValues(c, content, n)| == |FlatNames(c, content, n)|
      == n + SlotCount(c.varArgsSymbolIndices, n) * (ContentLength(content) - 1)
  {
    if n > 0 {
      FlatLengths(c, content, n - 1);
      PieceLengths(c, content, n - 1);
      LengthStep(n, SlotCount(c.varArgsSymbolIndices, n - 1), ContentLength(content) - 1,
                 n - 1 in c.varArgsSymbolIndices);
    }
  }

  /** Flattening keeps values and names aligned; with content of length m, each
      of the k `...` slots grows the list by m - 1. */
  lemma FlattenLength(c: CallArgs, content: VarArgContent)
    requires Valid(c)
    ensures var n := |c.arguments|;
      |FlatValues(c, content, n)| == |FlatNames(c, content, n)|
      == n + |c.varArgsSymbolIndices| * (ContentLength(content) - 1)
  {
    FlatLengths(c, content, |c.arguments|);
    SlotCountAll(c.varArgsSymbolIndices, |c.arguments|);
  }

  /** When `...` is missing every slot keeps its `...` argument and name. */
  lemma {:induction false} MissingContentKeepsArguments(c: CallArgs, n: nat)
    requires n <= |c.arguments| <= |c.names|
    ensures FlatValues(c, ContentMissing, n) == Originals(c.arguments[..n])
    ensures FlatNames(c, ContentMissing, n) == c.names[..n]
  {
    if n > 0 {
      MissingContentKeepsArguments(c, n - 1);
      assert c.names[..n] == c.names[..n - 1] + [c.names[n - 1]];
    }
  }

  /** Argument `i`'s piece follows the pieces before it in the flattening of
      any longer prefix of the arguments. */
  lemma {:induction false} PiecePrefix(c: CallArgs, content: VarArgContent, i: nat, n: nat)
    requires i < n <= |c.arguments| <= |c.names|
    ensures FlatValues(c, content, i) + PieceValues(c, content, i) <= FlatValues(c, content, n)
    ensures FlatNames(c, content, i) + PieceNames(c, content, i) <= FlatNames(c, content, n)
  {
    if i + 1 < n {
      PiecePrefix(c, content, i, n - 1);
      var vs := FlatValues(c, content, n - 1);
      var ns := FlatNames(c, content, n - 1);
      assert FlatValues(c, content, n) == vs + PieceValues(c, content, n - 1);
      assert FlatNames(c, content, n) == ns + PieceNames(c, content, n - 1);
    }
  }

  /** Where argument `i`'s piece starts in the flattened list: its original
      position shifted by m - 1 per earlier `...` slot. */
  function Placement(c: CallArgs, content: VarArgContent, i: nat): int
  {
    i + SlotCount(c.varArgsSymbolIndices, i) * (ContentLength(content) - 1)
  }

  /** The flattened values and names of the first `n` arguments are aligned. */
  lemma {:induction false} FlatAligned(c: CallArgs, content: VarArgContent, n: nat)
    requires n <= |c.arguments| <= |c.names|
    ensures |FlatValues(c, content, n)| == |FlatNames(c, content, n)|
  {
    if n > 0 {
      FlatAligned(c, content, n - 1);
      PieceLengths(c, content, n - 1);
    }
  }

  lemma PieceInPlace(c: CallArgs, content: VarArgContent, i: nat)
    requires Valid(c) && i < |c.arguments|
    ensures Placement(c, content, i) == |FlatValues(c, content, i)|
    ensures FlatValues(c, content, i) + PieceValues(c, content, i) <= FlatValues(c, content, |c.arguments|)
    ensures FlatNames(c, content, i) + PieceNames(c, content, i) <= FlatNames(c, content, |c.arguments|)
    ensures |FlatValues(c, content, |c.arguments|)| == |FlatNames(c, content, |c.arguments|)|
  {
    PiecePrefix(c, content, i, |c.arguments|);
    FlatLengths(c, content, i);
    FlatAligned(c, content, |c.arguments|);
  }

  /** An ordinary argument, or a `...` slot when `...` is missing, keeps its value
      and name at its shifted position. */
  lemma OrdinaryArgumentPlacement(c: CallArgs, content: VarArgContent, i: nat)
    requires Valid(c) && i < |c.arguments|
    requires !(i in c.varArgsSymbolIndices && content.Content?)
    ensures var at := Placement(c, content, i);
      0 <= at < |FlatValues(c, content, |c.arguments|)| == |FlatNames(c, content, |c.arguments|)|
      && FlatValues(c, content, |c.arguments|)[at] == Original(c.arguments[i])
      && FlatNames(c, content, |c.arguments|)[at] == c.names[i]
  {
    PieceInPlace(c, content, i);
    var at := Placement(c, content, i);
    var vs := FlatValues(c, content, i) + PieceValues(c, content, i);
    var ns := FlatNames(c, content, i) + PieceNames(c, content, i);
    assert vs[at] == Original(c.arguments[i]);
    FlatLengths(c, content, i);
    assert ns[at] == c.names[i];
  }

  /** A `...` slot with content is replaced, from its shifted position on, by the
      content's values and names in order. */
  lemma SlotContentPlacement(c: CallArgs, content: VarArgContent, i: nat, j: nat)
    requires Valid(c) && i < |c.arguments|
    requires i in c.varArgsSymbolIndices && content.Content? && j < |content.entries|
    ensures var at := Placement(c, content, i);
      0 <= at && at + j < |FlatValues(c, content, |c.arguments|)| == |FlatNames(c, content, |c.arguments|)|
      && FlatValues(c, content, |c.arguments|)[at + j] == Unrolled(content.entries[j].value)
      && FlatNames(c, content, |c.arguments|)[at + j] == content.entries[j].name
  {
    PieceInPlace(c, content, i);
    var at := Placement(c, content, i);
    var vs := FlatValues(c, content, i) + PieceValues(c, content, i);
    var ns := FlatNames(c, content, i) + PieceNames(c, content, i);
    assert vs[at + j] == Unrolled(content.entries[j].value);
    FlatLengths(c, content, i);
    assert ns[at + j] == content.entries[j].name;
  }

  // ---------------------------------------------------------------------------
  // Flattening: the loop

  /** A copy of `a` with the new length; extra cells hold `fill`. */
  method ResizeArray<T>(a: array<T>, newLength: nat, fill: T) returns (b: array<T>)
    ensures fresh(b) && b.Length == newLength
    ensures forall k :: 0 <= k < a.Length && k < newLength ==> b[k] == a[k]
  {
    b := new T[newLength](_ => fill);
    for k := 0 to Min(a.Length, newLength)
      invariant forall m :: 0 <= m < k ==> b[m] == a[m]
    {
      b[k] := a[k];
    }
  }

  /** The cursor `v` into the slot indices sits at argument `i`: the indices
      before it are below `i`, the rest are not. */
  predicate Cursor(idx: seq<nat>, v: nat, i: nat)
  {
    && v <= |idx|
    && (forall k :: 0 <= k < v ==> idx[k] < i)
    && (forall k :: v <= k < |idx| ==> idx[k] >= i)
  }

  /** Walking the increasing slot indices with a cursor: argument `i` is a slot
      exactly when the cursor points at it, and stepping past it keeps the cursor
      in place for `i + 1`. */
  lemma SlotCursor(idx: seq<nat>, v: nat, i: nat)
    requires StrictlyIncreasing(idx) && Cursor(idx, v, i)
    ensures i in idx <==> v < |idx| && idx[v] == i
    ensures Cursor(idx, if v < |idx| && idx[v] == i then v + 1 else v, i + 1)
  {
  }

  lemma ExtendOriginal(c: CallArgs, content: VarArgContent, i: nat, vs: seq<FlatArg>, ns: seq<Option<string>>)
    requires i < |c.arguments| <= |c.names|
    requires !(i in c.varArgsSymbolIndices && content.Content?)
    requires vs == FlatValues(c, content, i) && ns == FlatNames(c, content, i)
    ensures vs + [Original(c.arguments[i])] == FlatValues(c, content, i + 1)
    ensures ns + [c.names[i]] == FlatNames(c, content, i + 1)
  {
  }

  lemma ExtendContent(c: CallArgs, content: VarArgContent, i: nat, vs: seq<FlatArg>, ns: seq<Option<string>>)
    requires i < |c.arguments| <= |c.names|
    requires i in c.varArgsSymbolIndices && content.Content?
    requires vs == FlatValues(c, content, i) && ns == FlatNames(c, content, i)
    ensures vs + UnrolledValues(content.entries) == FlatValues(c, content, i + 1)
    ensures ns + UnrolledNames(content.entries) == FlatNames(c, content, i + 1)
  {
  }

  /** Writes the values and names of `...` into both arrays from `index` on. */
  method WriteEntries(vals: array<FlatArg>, nms: array<Option<string>>, index: nat, entries: seq<VarArgEntry>)
    requires index + |entries| <= vals.Length == nms.Length
    modifies vals, nms
    ensures vals[..index] == old(vals[..index]) && nms[..index] == old(nms[..index])
    ensures forall m :: 0 <= m < |entries| ==> vals[index + m] == Unrolled(entries[m].value)
    ensures forall m :: 0 <= m < |entries| ==> nms[index + m] == entries[m].name
  {
    var k := index;
    for j := 0 to |entries|
      invariant k == index + j
      invariant vals[..index] == old(vals[..index]) && nms[..index] == old(nms[..index])
      invariant forall m :: 0 <= m < j ==> vals[index + m] == Unrolled(entries[m].value)
      invariant forall m :: 0 <= m < j ==> nms[index + m] == entries[m].name
    {
      vals[k] := Unrolled(entries[j].value);
      nms[k] := entries[j].name;
      k := k + 1;
    }
  }

  /** Grows both arrays by `|entries| - 1` and writes the values and names of
      `...` from `index` on. */
  method SpliceContent(vals: array<FlatArg>, nms: array<Option<string>>, index: nat, entries: seq<VarArgEntry>)
    returns (vals': array<FlatArg>, nms': array<Option<string>>)
    requires index < vals.Length == nms.Length
    ensures fresh(vals') && fresh(nms')
    ensures vals'.Length == nms'.Length == vals.Length + |entries| - 1
    ensures vals'[..index] == vals[..index] && nms'[..index] == nms[..index]
    ensures vals'[..index + |entries|] == vals[..index] + UnrolledValues(entries)
    ensures nms'[..index + |entries|] == nms[..index] + UnrolledNames(entries)
  {
    vals' := ResizeArray(vals, vals.Length + |entries| - 1, Original(None));
    nms' := ResizeArray(nms, nms.Length + |entries| - 1, None);
    assert vals'[..index] == vals[..index];
    assert nms'[..index] == nms[..index];
    WriteEntries(vals', nms', index, entries);
    assert vals'[..index + |entries|] == vals[..index] + UnrolledValues(entries);
    assert nms'[..index + |entries|] == nms[..index] + UnrolledNames(entries);
  }

  /** One step of the flattening loop: argument `i` goes to `index` on, as the
      content of `...` when it is a slot and `...` has content, as itself
      otherwise. */
  method FlattenArgument(c: CallArgs, content: VarArgContent, vals: array<FlatArg>, nms: array<Option<string>>,
                         index: nat, i: nat, slot: bool)
    returns (vals': array<FlatArg>, nms': array<Option<string>>, index': nat)
    requires Valid(c) && i < |c.arguments|
    requires slot <==> i in c.varArgsSymbolIndices
    requires vals.Length == nms.Length == index + (|c.arguments| - i)
    requires vals[..index] == FlatValues(c, content, i) && nms[..index] == FlatNames(c, content, i)
    modifies vals, nms
    ensures vals' == vals || fresh(vals')
    ensures nms' == nms || fresh(nms')
    ensures vals'.Length == nms'.Length == index' + (|c.arguments| - i - 1)
    ensures vals'[..index'] == FlatValues(c, content, i + 1) && nms'[..index'] == FlatNames(c, content, i + 1)
  {
    if slot && content.Content? {
      var entries := content.entries;
      ExtendContent(c, content, i, vals[..index], nms[..index]);
      vals', nms' := SpliceContent(vals, nms, index, entries);
      index' := index + |entries|;
    } else {
      // an ordinary argument, or a `...` slot whose content is missing
      vals[index] := Original(c.arguments[i]);
      nms[index] := c.names[i];
      ExtendOriginal(c, content, i, vals[..index], nms[..index]);
      assert vals[..index + 1] == vals[..index] + [vals[index]];
      assert nms[..index + 1] == nms[..index] + [nms[index]];
      vals', nms', index' := vals, nms, index + 1;
    }
  }

  /** Unrolls `...`: without a `...` argument the arguments and names are returned
      as they are; otherwise the list is rebuilt slot by slot. */
  method ExecuteFlatten(c: CallArgs, content: VarArgContent) returns (values: seq<FlatArg>, newNames: seq<Option<string>>)
    requires Valid(c)
    ensures !ContainsVarArgsSymbol(c) ==> values == Originals(c.arguments) && newNames == c.names
    ensures ContainsVarArgsSymbol(c) ==>
      values == FlatValues(c, content, |c.arguments|) && newNames == FlatNames(c, content, |c.arguments|)
  {
    var idx := c.varArgsSymbolIndices;
    if |idx| == 0 {
      return Originals(c.arguments), c.names;
    }
    var n := |c.arguments|;
    var vals := new FlatArg[n](_ => Original(None));
    var nms := new Option<string>[n](_ => None);
    var vargsSymbolsIndex := 0;
    var index: nat := 0;
    for i := 0 to n
      invariant Cursor(idx, vargsSymbolsIndex, i)
      invariant fresh(vals) && fresh(nms)
      invariant vals.Length == nms.Length == index + (n - i)
      invariant vals[..index] == FlatValues(c, content, i)
      invariant nms[..index] == FlatNames(c, content, i)
    {
      SlotCursor(idx, vargsSymbolsIndex, i);
      var slot := vargsSymbolsIndex < |idx| && idx[vargsSymbolsIndex] == i;
      vals, nms, index := FlattenArgument(c, content, vals, nms, index, i, slot);
      if slot {
        vargsSymbolsIndex := vargsSymbolsIndex + 1;
      }
    }
    values := vals[..];
    newNames := nms[..];
  }

  // ---------------------------------------------------------------------------
  // The variadic signature

  datatype SignatureEntry = Rep(id: nat) | NoVarArgs

  datatype VarArgsSignature = TakesNoVarargs | Signature(content: seq<SignatureEntry>, times: nat)

  function SignatureEntryOf(v: VarArgValue): SignatureEntry
  {
    match v
    case PromiseValue(r) => Rep(r)
    case MissingValue => NoVarArgs
  }

  /** Without `...` the call takes no varargs; otherwise the signature lists each
      `...` value's expression (or the no-varargs marker) and repeats once per
      `...` slot. */
  method CreateSignature(c: CallArgs, content: VarArgContent) returns (s: VarArgsSignature)
    ensures !ContainsVarArgsSymbol(c) <==> s == TakesNoVarargs
    ensures ContainsVarArgsSymbol(c) && content.ContentMissing? ==> s == Signature([NoVarArgs], |c.varArgsSymbolIndices|)
    ensures ContainsVarArgsSymbol(c) && content.Content? ==>
      s.Signature? && s.times == |c.varArgsSymbolIndices| && |s.content| == |content.entries|
      && forall i :: 0 <= i < |content.entries| ==> s.content[i] == SignatureEntryOf(content.entries[i].value)
  {
    if !ContainsVarArgsSymbol(c) {
      return TakesNoVarargs;
    }
    var entries: seq<SignatureEntry>;
    if content.ContentMissing? {
      entries := [NoVarArgs];
    } else {
      var varArgs := content.entries;
      var arr := new SignatureEntry[|varArgs|](_ => NoVarArgs);
      for i := 0 to |varArgs|
        invariant forall m :: 0 <= m < i ==> arr[m] == SignatureEntryOf(varArgs[m].value)
      {
        match varArgs[i].value
        case PromiseValue(r) => arr[i] := Rep(r);
        case MissingValue => arr[i] := NoVarArgs;
      }
      entries := arr[..];
    }
    var times := |c.varArgsSymbolIndices|;
    return Signature(entries, times);
  }

  /** For arguments built by `Create`, the signature's repeat count is the number
      of `...` reads among them. */
  lemma SignatureTimesCountsVarArgReads(c: CallArgs, args: seq<Option<Node>>)
    requires Valid(c) && |c.arguments| == |args|
    requires forall i :: 0 <= i < |args| ==> (i in c.varArgsSymbolIndices <==> IsVarArgSymbol(args[i]))
    ensures |c.varArgsSymbolIndices| == |set i | 0 <= i < |args| && IsVarArgSymbol(args[i])|
  {
    var idx := c.varArgsSymbolIndices;
    var readSet := set i | 0 <= i < |args| && IsVarArgSymbol(args[i]);
    assert readSet == set k | 0 <= k < |idx| :: idx[k];
    DistinctCount(idx);
  }

  lemma {:induction false} DistinctCount(idx: seq<nat>)
    requires StrictlyIncreasing(idx)
    ensures |set k | 0 <= k < |idx| :: idx[k]| == |idx|
  {
    if idx != [] {
      var init := idx[..|idx| - 1];
      DistinctCount(init);
      var all := set k | 0 <= k < |idx| :: idx[k];
      var prefix := set k | 0 <= k < |init| :: init[k];
      assert all == prefix + {idx[|idx| - 1]};
      assert idx[|idx| - 1] !in prefix;
    }
  }
}
