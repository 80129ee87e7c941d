/**
 * src/Types/ArrayOf.php: the element-type descriptor "array of T". It holds nothing, one type or
 * a list of types; a value passes when it is an array whose every element passes the type, or
 * at least one of the listed types, in loose (`validate`) or strict (`strictValidate`) mode.
 */
module ArrayOfTypes {
  import opened Wrappers
  import opened Php

  /**
   * A DataTypeInterface: a basic type given by its name and its loose and strict checks, or an
   * ArrayOf holding its own types.
   */
  datatype ElementType =
    | Basic(name: string, loose: Value -> bool, strict: Value -> bool)
    | ArrayOfType(types: Types)

  /** What an ArrayOf holds: null, one type, or a list of types. */
  datatype Types = NoType | Single(t: ElementType) | Several(ts: seq<ElementType>)

  /** What the constructor receives: null, one type, or a list of types. */
  datatype TypeArg = NullArg | OneArg(t: ElementType) | ListArg(ts: seq<ElementType>)

  /** The exceptions: NoTypeSentException and InvalidDataTypeException. */
  datatype ArrayOfError = NoTypeSent | InvalidDataType

  /** `!$this->types`: null or an empty list. */
  predicate Falsy(types: Types) {
    types == NoType || (types.Several? && types.ts == [])
  }

  /** The constructor: an empty list throws, anything else is stored as given. */
  function NewArrayOf(arg: TypeArg): (r: Result<ElementType, ArrayOfError>)
    ensures r.Err? <==> arg == ListArg([])
    ensures r.Err? ==> r.error == NoTypeSent
    ensures r.Ok? ==> r.value.ArrayOfType? && (Falsy(r.value.types) <==> arg == NullArg)
  {
    match arg
    case NullArg => Ok(ArrayOfType(NoType))
    case OneArg(t) => Ok(ArrayOfType(Single(t)))
    case ListArg(ts) => if ts == [] then Err(NoTypeSent) else Ok(ArrayOfType(Several(ts)))
  }

  /** getType: the stored type or types. */
  function GetType(a: ElementType): Types
    requires a.ArrayOfType?
  {
    a.types
  }

  // ---------------------------------------------------------------------------------------
  // Specification

  /** `validate` (loose) or `strictValidate` (strict) of an element type. */
  predicate Accepts(t: ElementType, v: Value, strict: bool)
    decreases t
  {
    match t
    case Basic(_, loose, strictCheck) => if strict then strictCheck(v) else loose(v)
    case ArrayOfType(types) => ArrayAccepts(types, v, strict)
  }

  /** validateArray: an array, and every element passes the type or one of the listed types. */
  predicate ArrayAccepts(types: Types, v: Value, strict: bool)
    decreases types
  {
    v.Arr? &&
    (Falsy(types) ||
     match types
     case Single(t) => forall k :: 0 <= k < |v.entries| ==> Accepts(t, v.entries[k].val, strict)
     case Several(ts) => forall k :: 0 <= k < |v.entries| ==> AcceptsSome(ts, v.entries[k].val, strict)
     case NoType => true)
  }

  /** Some listed type accepts the element. */
  predicate AcceptsSome(ts: seq<ElementType>, v: Value, strict: bool)
    decreases ts
  {
    exists j :: 0 <= j < |ts| && Accepts(ts[j], v, strict)
  }

  // ---------------------------------------------------------------------------------------
  // The loops

  /** `validate` / `strictValidate` of one element type. */
  method ValidateElement(t: ElementType, v: Value, strict: bool) returns (ok: bool)
    ensures ok == Accepts(t, v, strict)
    decreases t, 2
  {
    match t
    case Basic(_, loose, strictCheck) =>
      ok := if strict then strictCheck(v) else loose(v);
    case ArrayOfType(types) =>
      ok := ValidateArray(types, v, strict);
  }

  /** validateArray: the element loop, returning false at the first element that fails. */
  method ValidateArray(types: Types, v: Value, strict: bool) returns (ok: bool)
    ensures ok == ArrayAccepts(types, v, strict)
    decreases types, 1
  {
    if !v.Arr? {
      return false;
    }
    if Falsy(types) {
      return true;
    }
    var es := v.entries;
    var k := 0;
    while k < |es|
      invariant 0 <= k <= |es|
      invariant types.Single? ==> forall i :: 0 <= i < k ==> Accepts(types.t, es[i].val, strict)
      invariant types.Several? ==> forall i :: 0 <= i < k ==> AcceptsSome(types.ts, es[i].val, strict)
    {
      if types.Several? {
        var r := ValidateAgainstTypes(types, es[k].val, strict);
        if !r.value {
          return false;
        }
      } else {
        var passed := ValidateElement(types.t, es[k].val, strict);
        if !passed {
          return false;
        }
      }
      k := k + 1;
    }
    return true;
  }

  /**
   * validateAgainstTypes: throws unless the types are a list; otherwise checks the element
   * against every listed type, with no early exit, and reports whether one accepted it.
   */
  method ValidateAgainstTypes(types: Types, element: Value, strict: bool) returns (r: Result<bool, ArrayOfError>)
    ensures !types.Several? ==> r == Err(InvalidDataType)
    ensures types.Several? ==> r == Ok(AcceptsSome(types.ts, element, strict))
    decreases types, 0
  {
    if !types.Several? {
      return Err(InvalidDataType);
    }
    var ts := types.ts;
    var valid := false;
    var j := 0;
    while j < |ts|
      invariant 0 <= j <= |ts|
      invariant valid <==> exists i :: 0 <= i < j && Accepts(ts[i], element, strict)
    {
      var passed := ValidateElement(ts[j], element, strict);
      if passed {
        valid := true;
      }
      j := j + 1;
    }
    r := Ok(valid);
  }

  // ---------------------------------------------------------------------------------------
  // Names

  /** getName of an element type. */
  function Name(t: ElementType): string
    decreases t
  {
    match t
    case Basic(name, _, _) => name
    case ArrayOfType(types) => TypesName(types)
  }

  /** ArrayOf::getName: "array" when falsy, "t[]" for one type, "(a|b)[]" for a list. */
  function TypesName(types: Types): string
    decreases types
  {
    if Falsy(types) then "array"
    else match types
      case Single(t) => Name(t) + "[]"
      case Several(ts) => "(" + JoinNames(ts) + ")[]"
      case NoType => "array"
  }

  /** `join("|", ...)` of the names. */
  function JoinNames(ts: seq<ElementType>): string
    decreases ts
  {
    if ts == [] then ""
    else if |ts| == 1 then Name(ts[0])
    else Name(ts[0]) + "|" + JoinNames(ts[1..])
  }

  /** The names of the examples: "int[]", "int[][]" for an array of arrays, "(int|string)[]". */
  lemma NameExamples(a: ElementType, b: ElementType)
    requires a.Basic? && b.Basic?
    ensures TypesName(NoType) == "array"
    ensures TypesName(Single(a)) == a.name + "[]"
    ensures TypesName(Single(ArrayOfType(Single(a)))) == a.name + "[]" + "[]"
    ensures TypesName(Several([a, b])) == "(" + a.name + "|" + b.name + ")[]"
  {
    assert [a, b][1..] == [b];
    assert JoinNames([b]) == b.name;
    assert JoinNames([a, b]) == a.name + "|" + b.name;
  }

  /** The name is the bare "array" exactly when the ArrayOf holds no type. */
  lemma NameArrayIffFalsy(types: Types)
    ensures TypesName(types) == "array" <==> Falsy(types)
  {
    if !Falsy(types) {
      var n := TypesName(types);
      match types {
        case Single(t) => assert n == Name(t) + "[]";
        case Several(ts) => assert n == "(" + JoinNames(ts) + ")" + "[]";
      }
      assert n[|n| - 1] == ']' != "array"[4];
    }
  }

  /** Nesting an ArrayOf that holds something adds one "[]" suffix per level. */
  lemma NameNests(types: Types)
    requires !Falsy(types)
    ensures TypesName(Single(ArrayOfType(types))) == TypesName(types) + "[]"
  {
    match types
    case Single(t) => assert TypesName(types) == Name(t) + "[]";
    case Several(ts) => assert TypesName(types) == "(" + JoinNames(ts) + ")" + "[]";
  }

  // ---------------------------------------------------------------------------------------
  // Properties

  /** A value that is not an array fails in both modes, whatever the types. */
  lemma NonArrayRejected(types: Types, v: Value)
    requires !v.Arr?
    ensures !ArrayAccepts(types, v, false) && !ArrayAccepts(types, v, true)
  {
  }

  /** With no type every array passes, the empty one included; the empty array passes any types. */
  lemma NoTypeAcceptsArrays(types: Types, es: seq<Entry>, strict: bool)
    ensures ArrayAccepts(NoType, Arr(es), strict)
    ensures ArrayAccepts(types, Arr([]), strict)
  {
  }

  /** The constructor keeps what it was given: getType returns it unchanged. */
  lemma GetTypeKeeps(arg: TypeArg)
    requires arg != ListArg([])
    ensures NewArrayOf(arg).Ok?
    ensures GetType(NewArrayOf(arg).value) ==
      match arg
      case NullArg => NoType
      case OneArg(t) => Single(t)
      case ListArg(ts) => Several(ts)
  {
  }

  /** A single type acts as a one-element list of types. */
  lemma SingleAsList(t: ElementType, v: Value, strict: bool)
    ensures ArrayAccepts(Single(t), v, strict) <==> ArrayAccepts(Several([t]), v, strict)
  {
    if v.Arr? {
      forall x
        ensures AcceptsSome([t], x, strict) <==> Accepts(t, x, strict)
      {
        if Accepts(t, x, strict) {
          assert [t][0] == t;
        }
      }
    }
  }

  /** Listing one more type never rejects an array the shorter list accepted. */
  lemma MoreTypesAcceptMore(ts: seq<ElementType>, u: ElementType, v: Value, strict: bool)
    requires ts != []
    requires ArrayAccepts(Several(ts), v, strict)
    ensures ArrayAccepts(Several(ts + [u]), v, strict)
  {
    var us := ts + [u];
    forall k | 0 <= k < |v.entries|
      ensures AcceptsSome(us, v.entries[k].val, strict)
    {
      var j :| 0 <= j < |ts| && Accepts(ts[j], v.entries[k].val, strict);
      assert us[j] == ts[j];
    }
  }

  /** Every basic type in the tree accepts in loose mode whatever it accepts in strict mode. */
  ghost predicate StrictWithin(t: ElementType)
    decreases t
  {
    match t
    case Basic(_, loose, strictCheck) => forall v :: strictCheck(v) ==> loose(v)
    case ArrayOfType(types) => TypesStrictWithin(types)
  }

  /** StrictWithin for every type an ArrayOf holds. */
  ghost predicate TypesStrictWithin(types: Types)
    decreases types
  {
    match types
    case NoType => true
    case Single(t) => StrictWithin(t)
    case Several(ts) => forall j :: 0 <= j < |ts| ==> StrictWithin(ts[j])
  }

  /** When every basic type's strict check implies its loose one, strict acceptance implies loose acceptance. */
  lemma {:induction false} StrictImpliesLoose(t: ElementType, v: Value)
    requires StrictWithin(t)
    ensures Accepts(t, v, true) ==> Accepts(t, v, false)
    decreases t
  {
    match t
    case Basic(_, _, _) =>
    case ArrayOfType(types) => ArrayStrictImpliesLoose(types, v);
  }

  /** The same for the array check: strict acceptance of every element implies loose acceptance. */
  lemma {:induction false} ArrayStrictImpliesLoose(types: Types, v: Value)
    requires TypesStrictWithin(types)
    ensures ArrayAccepts(types, v, true) ==> ArrayAccepts(types, v, false)
    decreases types
  {
    if v.Arr? && !Falsy(types) && ArrayAccepts(types, v, true) {
      match types
      case Single(t) =>
        forall k | 0 <= k < |v.entries|
          ensures Accepts(t, v.entries[k].val, false)
        {
          StrictImpliesLoose(t, v.entries[k].val);
        }
      case Several(ts) =>
        forall k | 0 <= k < |v.entries|
          ensures AcceptsSome(ts, v.entries[k].val, false)
        {
          assert AcceptsSome(ts, v.entries[k].val, true);
          var j :| 0 <= j < |ts| && Accepts(ts[j], v.entries[k].val, true);
          StrictImpliesLoose(ts[j], v.entries[k].val);
        }
    }
  }
}
