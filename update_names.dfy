/** The `names<-` builtin: the length rules for a new names vector (pad with NA
    when shorter, error when longer), clearing on NULL, and the NULL-target and
    non-vector errors. */
module UpdateNames {
  import opened RRuntime

  /** The attribute state of a materialised container that `names<-` touches. */
  class RContainer {
    var length: nat
    var dims: Option<seq<int>>
    var names: Option<seq<RString>>
    var dimNames: Option<seq<Option<seq<RString>>>>

    constructor (length: nat, dims: Option<seq<int>>)
      ensures this.length == length && this.dims == dims
      ensures names == None && dimNames == None
    {
      this.length := length;
      this.dims := dims;
      names := None;
      dimNames := None;
    }

    /** `dim` has exactly one entry: names live in the dimnames. */
    predicate IsOneDimArray()
      reads this
    {
      dims.Some? && |dims.value| == 1
    }
  }

  /** The value assigned, after factor conversion and the string cast: NULL, a
      single string, or a character vector. */
  datatype NamesArg = NamesNull | NamesString(s: RString) | NamesVector(v: seq<RString>)

  /** The target `x` of `names(x) <- value`. */
  datatype Target = TargetContainer(c: RContainer) | TargetNull | TargetOther

  datatype NamesError =
    | NamesLonger(namesLength: nat, length: nat)   // 'names' attribute must be the same length as the vector
    | SetAttributesOnNull                          // attempt to set an attribute on NULL
    | NamesNonvector                               // names() applied to a non-vector

  datatype UpdateValue = ReturnsContainer(c: RContainer) | ReturnsNull

  /** The names vector the container ends up with, or the length error. */
  function NewNames(length: nat, v: seq<RString>): Result<seq<RString>, NamesError>
  {
    if |v| < length then Ok(v + seq(length - |v|, _ => NAString))
    else if |v| > length then Err(NamesLonger(|v|, length))
    else Ok(v)
  }

  /** Names longer than the container are rejected with both lengths; otherwise
      the stored names have the container's length, start with the given names
      and are NA beyond them. */
  lemma NewNamesMeaning(length: nat, v: seq<RString>)
    ensures NewNames(length, v).Err? <==> |v| > length
    ensures NewNames(length, v).Err? ==> NewNames(length, v).error == NamesLonger(|v|, length)
    ensures NewNames(length, v).Ok? ==>
      var n := NewNames(length, v).value;
      |n| == length && n[..|v|] == v && forall k :: |v| <= k < length ==> n[k] == NAString
  {
  }

  /** Assigning the stored names again changes nothing. */
  lemma NewNamesIdempotent(length: nat, v: seq<RString>)
    requires NewNames(length, v).Ok?
    ensures NewNames(length, NewNames(length, v).value) == NewNames(length, v)
  {
  }

  /** A single string is a one-element names vector. */
  function AsVector(names: NamesArg): seq<RString>
    requires !names.NamesNull?
  {
    match names
    case NamesString(s) => [s]
    case NamesVector(v) => v
  }

  /** `names<-` on a container: NULL removes the dimnames of a one-dimensional
      array and clears the names of anything else; otherwise the names are
      padded to the container's length, or rejected when longer. The
      container's length and dims never change. */
  method UpdateContainerNames(c: RContainer, namesArg: NamesArg) returns (r: Result<RContainer, NamesError>)
    modifies c
    ensures c.length == old(c.length) && c.dims == old(c.dims)
    ensures namesArg.NamesNull? && old(c.IsOneDimArray()) ==>
      r == Ok(c) && c.dimNames == None && c.names == old(c.names)
    ensures namesArg.NamesNull? && !old(c.IsOneDimArray()) ==>
      r == Ok(c) && c.names == None && c.dimNames == old(c.dimNames)
    ensures !namesArg.NamesNull? ==>
      match NewNames(old(c.length), AsVector(namesArg))
      case Ok(n) => r == Ok(c) && c.names == Some(n) && c.dimNames == old(c.dimNames)
      case Err(e) => r == Err(e) && unchanged(c)
  {
    if namesArg.NamesNull? {
      if c.dims.Some? && |c.dims.value| == 1 {
        c.dimNames := None;
      } else {
        c.names := None;
      }
      return Ok(c);
    }
    var stringVector: seq<RString>;
    if namesArg.NamesString? {
      stringVector := [namesArg.s];
    } else {
      stringVector := namesArg.v;
    }
    if |stringVector| < c.length {
      stringVector := stringVector + seq(c.length - |stringVector|, _ => NAString);
    } else if |stringVector| > c.length {
      return Err(NamesLonger(|stringVector|, c.length));
    }
    c.names := Some(stringVector);
    return Ok(c);
  }

  /** The three specialisations: a container target, a NULL target (NULL names
      give NULL back, anything else is an error) and any other target. */
  method UpdateNames(target: Target, namesArg: NamesArg) returns (r: Result<UpdateValue, NamesError>)
    modifies if target.TargetContainer? then {target.c} else {}
    ensures target.TargetNull? ==>
      r == (if namesArg.NamesNull? then Ok(ReturnsNull) else Err(SetAttributesOnNull))
    ensures target.TargetOther? ==> r == Err(NamesNonvector)
    ensures target.TargetContainer? && !namesArg.NamesNull? ==>
      match NewNames(old(target.c.length), AsVector(namesArg))
      case Ok(n) => r == Ok(ReturnsContainer(target.c)) && target.c.names == Some(n)
      case Err(e) => r == Err(e) && unchanged(target.c)
    ensures target.TargetContainer? && namesArg.NamesNull? ==>
      r == Ok(ReturnsContainer(target.c)) &&
      (if old(target.c.IsOneDimArray()) then target.c.dimNames == None else target.c.names == None)
    ensures target.TargetContainer? ==> target.c.length == old(target.c.length)
    ensures target.TargetContainer? ==> target.c.dims == old(target.c.dims)
    ensures target.TargetContainer? && namesArg.NamesNull? ==>
      if old(target.c.IsOneDimArray()) then target.c.names == old(target.c.names)
      else target.c.dimNames == old(target.c.dimNames)
    ensures target.TargetContainer? && !namesArg.NamesNull? ==> target.c.dimNames == old(target.c.dimNames)
  {
    match target
    case TargetNull =>
      if namesArg.NamesNull? {
        return Ok(ReturnsNull);
      }
      return Err(SetAttributesOnNull);
    case TargetOther =>
      return Err(NamesNonvector);
    case TargetContainer(c) =>
      var res := UpdateContainerNames(c, namesArg);
      match res
      case Ok(d) => return Ok(ReturnsContainer(d));
      case Err(e) => return Err(e);
  }
}
