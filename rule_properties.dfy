/**
 * What each rule class of src/Rules/ promises: its predicate, whether it is major, its default
 * template and how that template resolves, and the OR / exclusive-OR meaning of
 * ValidateOrRule.
 */
module RuleProperties {
  import opened Wrappers
  import opened FileTypes
  import opened Php
  import opened Text
  import opened Messages
  import opened Rules

  // ---------------------------------------------------------------------------------------
  // ValidateOrRule

  /** Exactly one rule of `rs` accepts `v`. */
  ghost predicate ExactlyOnePasses(rs: seq<Rule>, v: Value, fs: Paths) {
    exists i :: 0 <= i < |rs| && Passes(rs[i], v, fs) &&
      forall j :: 0 <= j < |rs| && j != i ==> !Passes(rs[j], v, fs)
  }

  /** The count is zero exactly when no rule accepts the value. */
  lemma {:induction false} NoneCounted(rs: seq<Rule>, v: Value, fs: Paths)
    ensures CountPassing(rs, v, fs) == 0 <==> forall i :: 0 <= i < |rs| ==> !Passes(rs[i], v, fs)
    decreases rs
  {
    if rs != [] {
      var init := rs[..|rs| - 1];
      NoneCounted(init, v, fs);
      assert forall i :: 0 <= i < |init| ==> init[i] == rs[i];
    }
  }

  /** The count is one exactly when one rule, and no other, accepts the value. */
  lemma {:induction false} OneCounted(rs: seq<Rule>, v: Value, fs: Paths)
    ensures CountPassing(rs, v, fs) == 1 <==> ExactlyOnePasses(rs, v, fs)
    decreases rs
  {
    if rs != [] {
      var init := rs[..|rs| - 1];
      NoneCounted(init, v, fs);
      OneCounted(init, v, fs);
      assert forall i :: 0 <= i < |init| ==> init[i] == rs[i];
      if Passes(rs[|rs| - 1], v, fs) {
        OneCountedLastPasses(rs, v, fs);
      } else {
        OneCountedLastFails(rs, v, fs);
      }
    }
  }

  /** When the last rule accepts, exactly one accepts if and only if no earlier rule does. */
  lemma OneCountedLastPasses(rs: seq<Rule>, v: Value, fs: Paths)
    requires rs != [] && Passes(rs[|rs| - 1], v, fs)
    ensures ExactlyOnePasses(rs, v, fs) <==>
      forall i :: 0 <= i < |rs| - 1 ==> !Passes(rs[i], v, fs)
  {
    var n := |rs| - 1;
    if ExactlyOnePasses(rs, v, fs) {
      var i :| 0 <= i < |rs| && Passes(rs[i], v, fs) &&
        forall j :: 0 <= j < |rs| && j != i ==> !Passes(rs[j], v, fs);
      assert i == n;
    }
  }

  /** When the last rule rejects, exactly one accepts if and only if exactly one earlier rule does. */
  lemma OneCountedLastFails(rs: seq<Rule>, v: Value, fs: Paths)
    requires rs != [] && !Passes(rs[|rs| - 1], v, fs)
    ensures ExactlyOnePasses(rs, v, fs) <==> ExactlyOnePasses(rs[..|rs| - 1], v, fs)
  {
    if ExactlyOnePasses(rs[..|rs| - 1], v, fs) {
      OneEarlierExtends(rs, v, fs);
    }
    if ExactlyOnePasses(rs, v, fs) {
      OneOfAllRestricts(rs, v, fs);
    }
  }

  /** The one accepting rule of the prefix stays the only one when a rejecting rule follows. */
  lemma OneEarlierExtends(rs: seq<Rule>, v: Value, fs: Paths)
    requires rs != [] && !Passes(rs[|rs| - 1], v, fs)
    requires ExactlyOnePasses(rs[..|rs| - 1], v, fs)
    ensures ExactlyOnePasses(rs, v, fs)
  {
    var n := |rs| - 1;
    var init := rs[..n];
    var i :| 0 <= i < n && Passes(init[i], v, fs) &&
      forall j :: 0 <= j < n && j != i ==> !Passes(init[j], v, fs);
    forall j | 0 <= j < |rs| && j != i ensures !Passes(rs[j], v, fs) {
      if j < n {
        assert init[j] == rs[j];
      }
    }
    assert init[i] == rs[i];
  }

  /** The one accepting rule, when it is not the last, is the one accepting rule of the prefix. */
  lemma OneOfAllRestricts(rs: seq<Rule>, v: Value, fs: Paths)
    requires rs != [] && !Passes(rs[|rs| - 1], v, fs)
    requires ExactlyOnePasses(rs, v, fs)
    ensures ExactlyOnePasses(rs[..|rs| - 1], v, fs)
  {
    var n := |rs| - 1;
    var init := rs[..n];
    var i :| 0 <= i < |rs| && Passes(rs[i], v, fs) &&
      forall j :: 0 <= j < |rs| && j != i ==> !Passes(rs[j], v, fs);
    assert i < n;
    forall j | 0 <= j < n && j != i ensures !Passes(init[j], v, fs) {
      assert init[j] == rs[j];
    }
    assert init[i] == rs[i];
  }

  /** Non-exclusive ValidateOrRule: the value passes if and only if some sub-rule accepts it. */
  lemma ValidateOrAtLeastOne(rs: seq<Rule>, custom: Option<string>, v: Value, fs: Paths)
    ensures Passes(NewValidateOr(rs, custom), v, fs) <==>
      exists i :: 0 <= i < |rs| && Passes(rs[i], v, fs)
  {
    NoneCounted(rs, v, fs);
  }

  /** Exclusive ValidateOrRule: the value passes if and only if exactly one sub-rule accepts it. */
  lemma ValidateOrExactlyOne(rs: seq<Rule>, custom: Option<string>, v: Value, fs: Paths)
    ensures Passes(NewValidateOr(rs, custom, true), v, fs) <==> ExactlyOnePasses(rs, v, fs)
  {
    var r := NewValidateOr(rs, custom, true);
    assert r.kind == AnyOf(rs, true);
    assert Passes(r, v, fs) <==> CountPassing(rs, v, fs) == 1;
    OneCounted(rs, v, fs);
  }

  /** With no sub-rules, ValidateOrRule fails in both modes. */
  lemma ValidateOrEmptyFails(custom: Option<string>, exclusive: bool, v: Value, fs: Paths)
    ensures !Passes(NewValidateOr([], custom, exclusive), v, fs)
  {
  }

  /** getRules and isExclusive give back the constructor arguments; exclusive defaults to false. */
  lemma ValidateOrAccessors(rs: seq<Rule>, custom: Option<string>, exclusive: bool)
    ensures SubRules(NewValidateOr(rs, custom, exclusive)) == rs
    ensures IsExclusive(NewValidateOr(rs, custom, exclusive)) == exclusive
    ensures !IsExclusive(NewValidateOr(rs, custom))
    ensures !IsMajor(NewValidateOr(rs, custom, exclusive))
    ensures NewValidateOr(rs, custom, exclusive).message == Template(DefaultTemplate, custom)
  {
  }

  // ---------------------------------------------------------------------------------------
  // IsRequiredRule and IsProhibitedRule

  /** IsRequiredRule accepts a value unless the condition holds and the value is null. */
  lemma RequiredSemantics(custom: Option<string>, c: Condition, v: Value, fs: Paths)
    ensures Passes(NewRequired(custom, c), v, fs) <==> !Evaluated(c) || v != Null
    ensures Passes(NewRequired(custom), v, fs) <==> v != Null
    ensures IsMajor(NewRequired(custom, c))
  {
  }

  /** A closure condition is called once, by the constructor: the rule stores its result. */
  lemma RequiredEvaluatesOnce(custom: Option<string>, f: () -> bool)
    ensures NewRequired(custom, Deferred(f)) == NewRequired(custom, Fixed(f()))
  {
  }

  /** IsProhibitedRule accepts anything when the condition is false, and only null otherwise. */
  lemma ProhibitedSemantics(c: Condition, custom: Option<string>, v: Value, fs: Paths)
    ensures !Evaluated(c) ==> Passes(NewProhibited(c, custom), v, fs)
    ensures Evaluated(c) ==> (Passes(NewProhibited(c, custom), v, fs) <==> v == Null)
    ensures IsMajor(NewProhibited(c, custom))
  {
  }

  lemma ProhibitedEvaluatesOnce(f: () -> bool, custom: Option<string>)
    ensures NewProhibited(Deferred(f), custom) == NewProhibited(Fixed(f()), custom)
  {
  }

  // ---------------------------------------------------------------------------------------
  // NotEmptyRule and IsArrayRule

  /** NotEmptyRule rejects exactly PHP's empty values. */
  lemma NotEmptySemantics(custom: Option<string>, v: Value, fs: Paths)
    ensures !Passes(NewNotEmpty(custom), v, fs) <==> v in {Null, Bool(false), Int(0), Str(""), Str("0"), Arr([])}
    ensures Passes(NewNotEmpty(custom), v, fs) <==> !IsEmpty(v)
    ensures !Passes(NewNotEmpty(custom), Int(0), fs)
    ensures !Passes(NewNotEmpty(custom), Str("0"), fs)
    ensures !Passes(NewNotEmpty(custom), Null, fs)
    ensures !Passes(NewNotEmpty(custom), Str(""), fs)
    ensures !Passes(NewNotEmpty(custom), Arr([]), fs)
    ensures !Passes(NewNotEmpty(custom), Bool(false), fs)
    ensures Passes(NewNotEmpty(custom), Int(1), fs)
    ensures Passes(NewNotEmpty(custom), Str("1"), fs)
    ensures Passes(NewNotEmpty(custom), Bool(true), fs)
    ensures Passes(NewNotEmpty(custom), Obj, fs)
    ensures forall es :: es != [] ==> Passes(NewNotEmpty(custom), Arr(es), fs)
    ensures IsMajor(NewNotEmpty(custom))
    ensures custom.Some? ==> NewNotEmpty(custom).message == custom.value
    ensures NewNotEmpty().message == "field " + ":name" + " cannot be empty"
  {
  }

  /** IsArrayRule accepts arrays, the empty one included, and nothing else; it is major. */
  lemma IsArraySemantics(custom: Option<string>, v: Value, fs: Paths)
    ensures Passes(NewIsArray(custom), v, fs) <==> v.Arr?
    ensures Passes(NewIsArray(custom), Arr([]), fs)
    ensures !Passes(NewIsArray(custom), Str("1"), fs) && !Passes(NewIsArray(custom), Int(1), fs)
    ensures !Passes(NewIsArray(custom), Str("value"), fs) && !Passes(NewIsArray(custom), Bool(true), fs)
    ensures IsMajor(NewIsArray(custom))
    ensures custom.Some? ==> NewIsArray(custom).message == custom.value
    ensures NewIsArray().message == "field " + ":name" + " is not an array"
  {
  }

  // ---------------------------------------------------------------------------------------
  // MinRule and MaxRule

  /** MinRule: an int at least `min`, or a string of at least `min` characters; nothing else. */
  lemma MinSemantics(min: int, custom: Option<string>, v: Value, fs: Paths)
    ensures v.Int? ==> (Passes(NewMin(min, custom), v, fs) <==> v.i >= min)
    ensures v.Str? ==> (Passes(NewMin(min, custom), v, fs) <==> |v.s| >= min)
    ensures !v.Int? && !v.Str? ==> !Passes(NewMin(min, custom), v, fs)
    ensures !IsMajor(NewMin(min, custom))
  {
  }

  /** MaxRule: a string of at most `max` characters; every other value fails, ints included. */
  lemma MaxSemantics(max: int, custom: Option<string>, v: Value, fs: Paths)
    ensures Passes(NewMax(max, custom), v, fs) <==> v.Str? && |v.s| <= max
    ensures !Passes(NewMax(max, custom), Int(0), fs)
    ensures !IsMajor(NewMax(max, custom))
  {
  }

  // ---------------------------------------------------------------------------------------
  // MinLengthRule and MaxLengthRule

  /** MinLengthRule: an array with at least `min` elements; a non-array fails. Major. */
  lemma MinLengthSemantics(min: int, custom: Option<string>, v: Value, fs: Paths)
    ensures Passes(NewMinLength(min, custom), v, fs) <==> v.Arr? && |v.entries| >= min
    ensures IsMajor(NewMinLength(min, custom))
    ensures NewMinLength(min, custom).kind.min == min
  {
  }

  /** MaxLengthRule: an array with at most `max` elements; a non-array fails. Major. */
  lemma MaxLengthSemantics(max: int, custom: Option<string>, v: Value, fs: Paths)
    ensures Passes(NewMaxLength(max, custom), v, fs) <==> v.Arr? && |v.entries| <= max
    ensures IsMajor(NewMaxLength(max, custom))
    ensures NewMaxLength(max, custom).kind.max == max
  {
  }

  // ---------------------------------------------------------------------------------------
  // FileTypeRule, MaxFileSizeRule and IsFileRule

  /** FileTypeRule: a file whose type is one of the allowed ones; a single type acts as [type]. */
  lemma FileTypeSemantics(types: AllowedTypes, custom: Option<string>, v: Value, fs: Paths)
    ensures !v.FileV? ==> !Passes(NewFileType(types, custom), v, fs)
    ensures v.FileV? && v.file.fileType.None? ==> !Passes(NewFileType(types, custom), v, fs)
    ensures v.FileV? && v.file.fileType.Some? ==>
      (Passes(NewFileType(types, custom), v, fs) <==>
       v.file.fileType.value in (if types.OneType? then [types.t] else types.ts))
    ensures types.OneType? ==> NewFileType(types, custom) == NewFileType(TypeList([types.t]), custom)
    ensures !IsMajor(NewFileType(types, custom))
    ensures custom.Some? ==> NewFileType(types, custom).message == custom.value
    ensures NewFileType(types).message == "file " + ":attributeName" + " has an invalid type."
  {
  }

  /** MaxFileSizeRule: a file of at most `size` bytes, the bound included; not major. */
  lemma MaxFileSizeSemantics(size: int, custom: Option<string>, v: Value, fs: Paths)
    ensures Passes(NewMaxFileSize(size, custom), v, fs) <==> v.FileV? && v.file.size <= size
    ensures !IsMajor(NewMaxFileSize(size, custom))
    ensures custom.Some? ==> NewMaxFileSize(size, custom).message == custom.value
    ensures NewMaxFileSize(size).message == "file " + ":attributeName" + " size is bigger than maximum."
  {
  }

  /**
   * IsFileRule accepts exactly a file with a name, a full path, a known type, an existing
   * temporary file and no upload error; it is major.
   */
  lemma IsFileSemantics(custom: Option<string>, v: Value, fs: Paths)
    ensures !v.FileV? ==> !Passes(NewIsFile(custom), v, fs)
    ensures v.FileV? ==>
      (Passes(NewIsFile(custom), v, fs) <==>
        v.file.name != "" && v.file.path != "" && v.file.fileType.Some? &&
        v.file.tempName in fs && v.file.error == UploadErrOk)
    ensures IsMajor(NewIsFile(custom))
  {
  }

  // ---------------------------------------------------------------------------------------
  // ValidationRule

  /** A rule class that does not override isMajor is not major. */
  lemma CustomRuleDefaults(condition: Value -> bool, custom: Option<string>, v: Value, fs: Paths)
    ensures !IsMajor(NewCustom(condition, custom))
    ensures Passes(NewCustom(condition, custom), v, fs) == condition(v)
    ensures NewCustom(condition, custom).message == if custom.Some? then custom.value else DefaultTemplate
  {
  }
}
