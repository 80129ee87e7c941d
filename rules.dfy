/**
 * The concrete validation rules of src/Rules/ as one closed family. A rule is its kind (with
 * the parameters the constructor stored), its message template after the custom-message
 * override, and its custom placeholders.
 */
module Rules {
  import opened Wrappers
  import opened FileTypes
  import opened Php
  import opened Messages

  /** The paths `file_exists` reports as existing while the rules run. */
  type Paths = set<string>

  /** A condition given either as a bool or as a closure returning a bool. */
  datatype Condition = Fixed(b: bool) | Deferred(f: () -> bool)

  /** The constructors evaluate a closure condition once, when the rule is built. */
  function Evaluated(c: Condition): bool {
    match c
    case Fixed(b) => b
    case Deferred(f) => f()
  }

  datatype RuleKind =
    | Required(condition: bool)                   // IsRequiredRule
    | Prohibited(condition: bool)                 // IsProhibitedRule
    | NotEmpty                                    // NotEmptyRule
    | IsArray                                     // IsArrayRule
    | Min(min: int)                               // MinRule
    | Max(max: int)                               // MaxRule
    | MinLength(min: int)                         // MinLengthRule
    | MaxLength(max: int)                         // MaxLengthRule
    | FileTypeIn(types: seq<FileType>)            // FileTypeRule
    | MaxFileSize(size: int)                      // MaxFileSizeRule
    | IsFile                                      // IsFileRule
    | AnyOf(rules: seq<Rule>, exclusive: bool)    // ValidateOrRule
    | UserDefined(pred: Value -> bool, major: bool) // a subclass of ValidationRule, or CustomRule

  datatype Rule = Rule(kind: RuleKind, message: string, params: Params)

  /** isMajor: false unless the rule class overrides it. */
  predicate IsMajor(r: Rule) {
    match r.kind
    case Required(_) => true
    case Prohibited(_) => true
    case NotEmpty => true
    case IsArray => true
    case MinLength(_) => true
    case MaxLength(_) => true
    case IsFile => true
    case UserDefined(_, major) => major
    case _ => false
  }

  /** Number of rules in `rs` that accept `v`. */
  function CountPassing(rs: seq<Rule>, v: Value, fs: Paths): nat
    decreases rs
  {
    if rs == [] then 0
    else CountPassing(rs[..|rs| - 1], v, fs) + (if Passes(rs[|rs| - 1], v, fs) then 1 else 0)
  }

  /** At least one (or, when exclusive, exactly one) of the counted items holds. */
  predicate Chosen(count: nat, exclusive: bool) {
    if exclusive then count == 1 else count >= 1
  }

  /** `$rule->validate($value)` for every rule kind. */
  predicate Passes(r: Rule, v: Value, fs: Paths)
    decreases r
  {
    match r.kind
    case Required(c) => !c || IsSet(v)
    case Prohibited(c) => if !c then true else !IsSet(v)
    case NotEmpty => !IsEmpty(v)
    case IsArray => v.Arr?
    case Min(m) =>
      (match v
       case Int(i) => i >= m
       case Str(s) => |s| >= m
       case _ => false)
    case Max(m) => v.Str? && |v.s| <= m
    case MinLength(m) => v.Arr? && |v.entries| >= m
    case MaxLength(m) => v.Arr? && |v.entries| <= m
    case FileTypeIn(ts) => v.FileV? && v.file.fileType.Some? && v.file.fileType.value in ts
    case MaxFileSize(n) => v.FileV? && v.file.size <= n
    case IsFile =>
      v.FileV? && v.file.name != "" && v.file.path != "" && v.file.fileType.Some? &&
      v.file.tempName in fs && v.file.error == UploadErrOk
    case AnyOf(rs, exclusive) => Chosen(CountPassing(rs, v, fs), exclusive)
    case UserDefined(pred, _) => pred(v)
  }

  /** The message of a failing rule, resolved for the attribute. */
  function MessageFor(r: Rule, attribute: Attribute): string {
    Resolved(r.message, r.params, attribute)
  }

  // ---------------------------------------------------------------------------------------
  // Constructors (one per rule class): default template, custom override, stored parameters.

  // Each template is written as the text around its `:`-words: the built-in `:fieldName`, the
  // rule's own `:min` / `:max`, and the words `:name` / `:attributeName`, which no rule
  // declares as a param and which therefore stay in the message as they are.

  const MinKey := ":min"
  const MaxKey := ":max"

  const RequiredTemplate := "field " + FieldNameKey + " is required"
  const ProhibitedTemplate := "field " + FieldNameKey + " is prohibited"
  const NotEmptyTemplate := "field " + ":name" + " cannot be empty"
  const IsArrayTemplate := "field " + ":name" + " is not an array"
  const MinTemplate := "field " + ":attributeName" + " length is lower than " + MinKey
  const MaxTemplate := "field " + FieldNameKey + " length is bigger than " + MaxKey
  const MinLengthTemplate := "array " + ":name" + " length is lower than " + MinKey
  const MaxLengthTemplate := "array " + ":name" + " length is bigger than " + MaxKey
  const FileTypeTemplate := "file " + ":attributeName" + " has an invalid type."
  const MaxFileSizeTemplate := "file " + ":attributeName" + " size is bigger than maximum."
  const IsFileTemplate := "field " + ":attributeName" + " is not a valid file"

  function NewRequired(custom: Option<string> := None, condition: Condition := Fixed(true)): Rule {
    Rule(Required(Evaluated(condition)), Template(RequiredTemplate, custom), [])
  }

  function NewProhibited(condition: Condition, custom: Option<string> := None): Rule {
    Rule(Prohibited(Evaluated(condition)), Template(ProhibitedTemplate, custom), [])
  }

  function NewNotEmpty(custom: Option<string> := None): Rule {
    Rule(NotEmpty, Template(NotEmptyTemplate, custom), [])
  }

  function NewIsArray(custom: Option<string> := None): Rule {
    Rule(IsArray, Template(IsArrayTemplate, custom), [])
  }

  function NewMin(min: int, custom: Option<string> := None): Rule {
    Rule(Min(min), Template(MinTemplate, custom), [(MinKey, Int(min))])
  }

  function NewMax(max: int, custom: Option<string> := None): Rule {
    Rule(Max(max), Template(MaxTemplate, custom), [(MaxKey, Int(max))])
  }

  function NewMinLength(min: int, custom: Option<string> := None): Rule {
    Rule(MinLength(min), Template(MinLengthTemplate, custom), [(MinKey, Int(min))])
  }

  function NewMaxLength(max: int, custom: Option<string> := None): Rule {
    Rule(MaxLength(max), Template(MaxLengthTemplate, custom), [(MaxKey, Int(max))])
  }

  /** The allowed types of a FileTypeRule: one type or a list of types. */
  datatype AllowedTypes = OneType(t: FileType) | TypeList(ts: seq<FileType>)

  function NewFileType(types: AllowedTypes, custom: Option<string> := None): Rule {
    var ts := match types case OneType(t) => [t] case TypeList(ts) => ts;
    Rule(FileTypeIn(ts), Template(FileTypeTemplate, custom), [])
  }

  function NewMaxFileSize(size: int, custom: Option<string> := None): Rule {
    Rule(MaxFileSize(size), Template(MaxFileSizeTemplate, custom), [])
  }

  function NewIsFile(custom: Option<string> := None): Rule {
    Rule(IsFile, Template(IsFileTemplate, custom), [])
  }

  function NewValidateOr(rules: seq<Rule>, custom: Option<string> := None, exclusive: bool := false): Rule {
    Rule(AnyOf(rules, exclusive), Template(DefaultTemplate, custom), [])
  }

  function NewCustom(condition: Value -> bool, custom: Option<string> := None): Rule {
    Rule(UserDefined(condition, false), Template(DefaultTemplate, custom), [])
  }

  /** ValidateOrRule::getRules. */
  function SubRules(r: Rule): seq<Rule>
    requires r.kind.AnyOf?
  {
    r.kind.rules
  }

  /** ValidateOrRule::isExclusive. */
  function IsExclusive(r: Rule): bool
    requires r.kind.AnyOf?
  {
    r.kind.exclusive
  }

  // ---------------------------------------------------------------------------------------
  // Evaluation as the source runs it.

  /** `$rule->validate($value)`: dispatches on the rule; ValidateOrRule runs its loop. */
  method Check(r: Rule, v: Value, fs: Paths) returns (ok: bool)
    ensures ok == Passes(r, v, fs)
    decreases r, 1
  {
    match r.kind {
      case AnyOf(rs, exclusive) =>
        ok := ValidateAnyOf(rs, exclusive, v, fs);
      case _ =>
        ok := Passes(r, v, fs);
    }
  }

  /** Counting the first i+1 rules adds the (i+1)-th rule's verdict to the first i. */
  lemma CountPassingStep(rs: seq<Rule>, i: nat, v: Value, fs: Paths)
    requires i < |rs|
    ensures CountPassing(rs[..i + 1], v, fs) == CountPassing(rs[..i], v, fs) + (if Passes(rs[i], v, fs) then 1 else 0)
  {
    assert rs[..i + 1][..i] == rs[..i];
  }

  /** Counting a prefix never gives more than counting the whole list. */
  lemma {:induction false} CountPassingPrefix(rs: seq<Rule>, i: nat, v: Value, fs: Paths)
    requires i <= |rs|
    ensures CountPassing(rs[..i], v, fs) <= CountPassing(rs, v, fs)
    decreases |rs| - i
  {
    if i < |rs| {
      CountPassingStep(rs, i, v, fs);
      CountPassingPrefix(rs, i + 1, v, fs);
      assert rs[..|rs|] == rs;
    } else {
      assert rs[..i] == rs;
    }
  }

  /**
   * ValidateOrRule::validate: a flag loop over the sub-rules that stops at the first passing
   * one, or, when exclusive, at the second.
   */
  method ValidateAnyOf(rs: seq<Rule>, exclusive: bool, v: Value, fs: Paths) returns (valid: bool)
    ensures valid == Chosen(CountPassing(rs, v, fs), exclusive)
    decreases rs, 0
  {
    valid := false;
    var i := 0;
    while i < |rs|
      invariant 0 <= i <= |rs|
      invariant CountPassing(rs[..i], v, fs) <= 1
      invariant valid == (CountPassing(rs[..i], v, fs) == 1)
      invariant !exclusive ==> !valid
    {
      var ok := Check(rs[i], v, fs);
      CountPassingStep(rs, i, v, fs);
      if ok {
        if valid && exclusive {
          CountPassingPrefix(rs, i + 1, v, fs);
          valid := false;
          return;
        }
        valid := true;
        if !exclusive {
          CountPassingPrefix(rs, i + 1, v, fs);
          return;
        }
      }
      i := i + 1;
    }
    assert rs[..i] == rs;
  }
}
