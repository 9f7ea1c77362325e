/** The `inherits` builtin: looks each requested class name up in an object's
    class hierarchy and answers either whether any of them occurs or, with
    `which = TRUE`, the 1-based position of each (0 when absent). */
module Inherits {
  import opened RRuntime

  /** The `which` argument: a logical byte, missing, or anything else. */
  datatype WhichArg = WhichLogical(l: Logical) | WhichMissing | WhichOther

  /** The `what` argument: a character vector or anything else. */
  datatype WhatArg = WhatStrings(names: seq<string>) | WhatOther

  /** The builtin's value: a position vector or a logical. */
  datatype InheritsValue = Positions(positions: seq<int>) | Membership(found: Logical)

  datatype InheritsError =
    | NotLengthOneLogical   // `which` is not a logical
    | NotCharacterVector    // `what` is not a character vector

  /** Index of the last occurrence of `s` in `klass`, -1 when it does not occur. */
  function LastIndex(klass: seq<string>, s: string): int
    decreases |klass|
  {
    if klass == [] then -1
    else if klass[|klass| - 1] == s then |klass| - 1
    else LastIndex(klass[..|klass| - 1], s)
  }

  /** `LastIndex` is -1 exactly for absent names, and otherwise an occurrence with
      no later one. */
  lemma {:induction false} LastIndexMeaning(klass: seq<string>, s: string)
    ensures LastIndex(klass, s) == -1 <==> s !in klass
    ensures LastIndex(klass, s) != -1 ==>
      0 <= LastIndex(klass, s) < |klass| && klass[LastIndex(klass, s)] == s
      && forall k :: LastIndex(klass, s) < k < |klass| ==> klass[k] != s
    decreases |klass|
  {
    if klass != [] && klass[|klass| - 1] != s {
      var init := klass[..|klass| - 1];
      LastIndexMeaning(init, s);
      assert klass == init + [klass[|klass| - 1]];
    }
  }

  lemma LastIndexSnoc(klass: seq<string>, i: nat, s: string)
    requires i < |klass|
    ensures LastIndex(klass[..i + 1], s) == if klass[i] == s then i else LastIndex(klass[..i], s)
  {
    assert klass[..i + 1][..i] == klass[..i];
  }

  /** The 1-based position of each requested name, 0 when absent. */
  function ClassPositions(klass: seq<string>, what: seq<string>): (r: seq<int>)
    ensures |r| == |what|
  {
    seq(|what|, i requires 0 <= i < |what| => LastIndex(klass, what[i]) + 1)
  }

  /** `which = TRUE`: one entry per requested name, never NA, 0 exactly for an
      absent name, otherwise the 1-based position of its last occurrence. */
  lemma PositionsMeaning(klass: seq<string>, what: seq<string>)
    ensures |ClassPositions(klass, what)| == |what|
    ensures forall i :: 0 <= i < |what| ==> 0 <= ClassPositions(klass, what)[i] <= |klass|
    ensures forall i :: 0 <= i < |what| ==> (ClassPositions(klass, what)[i] == 0 <==> what[i] !in klass)
    ensures forall i :: 0 <= i < |what| && ClassPositions(klass, what)[i] > 0 ==>
      var p := ClassPositions(klass, what)[i];
      klass[p - 1] == what[i] && forall k :: p <= k < |klass| ==> klass[k] != what[i]
  {
    forall i | 0 <= i < |what| {
      LastIndexMeaning(klass, what[i]);
    }
  }

  /** With a duplicated class name the reported position is the later one. */
  lemma DuplicateReportsLast()
    ensures ClassPositions(["a", "b", "a"], ["a", "c"]) == [3, 0]
  {
    var klass := ["a", "b", "a"];
    assert LastIndex(klass, "a") == 2;
    assert LastIndex(klass, "c") == -1 by {
      LastIndexMeaning(klass, "c");
    }
  }

  /** `which = FALSE`: some requested name occurs in the hierarchy. */
  predicate AnyInherited(klass: seq<string>, what: seq<string>)
  {
    exists i :: 0 <= i < |what| && what[i] in klass
  }

  /** The two answers agree: the logical is TRUE exactly when some position is non-zero. */
  lemma MembershipAgreesWithPositions(klass: seq<string>, what: seq<string>)
    ensures AnyInherited(klass, what) <==> exists i :: 0 <= i < |what| && ClassPositions(klass, what)[i] != 0
  {
    PositionsMeaning(klass, what);
  }

  function AsLogical(b: bool): Logical
  {
    if b then LTrue else LFalse
  }

  /** `inherits(x, what, which)` where `klass` is the class hierarchy of `x`. A
      missing `which`, FALSE and NA all answer the membership question. */
  method DoesInherit(klass: seq<string>, what: WhatArg, which: WhichArg) returns (r: Result<InheritsValue, InheritsError>)
    ensures what.WhatOther? ==> r == Err(NotCharacterVector)
    ensures what.WhatStrings? && which.WhichOther? ==> r == Err(NotLengthOneLogical)
    ensures what.WhatStrings? && which == WhichLogical(LTrue) ==>
      r == Ok(Positions(ClassPositions(klass, what.names)))
    ensures what.WhatStrings? && (which.WhichMissing? || which == WhichLogical(LFalse) || which == WhichLogical(LNA)) ==>
      r == Ok(Membership(AsLogical(AnyInherited(klass, what.names))))
  {
    if what.WhatOther? {
      return Err(NotCharacterVector);
    }
    match which
    case WhichOther =>
      return Err(NotLengthOneLogical);
    case WhichMissing =>
      var v := DoesInheritLogical(klass, what.names, LFalse);
      return Ok(v);
    case WhichLogical(l) =>
      var v := DoesInheritLogical(klass, what.names, l);
      return Ok(v);
  }

  /** The specialisation for a character `what` and a logical `which`. */
  method DoesInheritLogical(klass: seq<string>, what: seq<string>, which: Logical) returns (r: InheritsValue)
    ensures which == LTrue ==> r == Positions(ClassPositions(klass, what))
    ensures which != LTrue ==> r == Membership(AsLogical(AnyInherited(klass, what)))
  {
    var isWhich := which == LTrue;
    var classToPos: map<string, nat> := map[];
    for i := 0 to |klass|
      invariant forall s :: s in classToPos ==> classToPos[s] == LastIndex(klass[..i], s)
      invariant forall s :: s !in classToPos ==> LastIndex(klass[..i], s) == -1
    {
      forall s ensures LastIndex(klass[..i + 1], s) == if klass[i] == s then i else LastIndex(klass[..i], s) {
        LastIndexSnoc(klass, i, s);
      }
      classToPos := classToPos[klass[i] := i];
    }
    assert klass[..|klass|] == klass;
    if isWhich {
      var result := new int[|what|];
      for i := 0 to |what|
        invariant forall m :: 0 <= m < i ==> result[m] == LastIndex(klass, what[m]) + 1
      {
        if what[i] !in classToPos {
          result[i] := 0;
        } else {
          result[i] := classToPos[what[i]] + 1;
        }
      }
      return Positions(result[..]);
    } else {
      for i := 0 to |what|
        invariant forall m :: 0 <= m < i ==> what[m] !in klass
      {
        LastIndexMeaning(klass, what[i]);
        if what[i] in classToPos {
          return Membership(LTrue);
        }
      }
      return Membership(LFalse);
    }
  }
}
