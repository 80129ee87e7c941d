/**
 * The per-attribute validators of src/Validator.php, src/ArrayValidator.php and
 * src/FileValidator.php: two ordered rule lists (major and normal), the evaluation policy that
 * stops at the first failing major rule, and the memoised error list.
 */
module Validators {
  import opened Wrappers
  import opened FileTypes
  import opened Php
  import opened Messages
  import opened Rules

  /** Which validator class: FieldValidator, ArrayValidator or FileValidator. */
  datatype Kind = FieldKind | ArrayKind | FileKind

  /** What one run of validate() leaves behind: its return value, the stored isValid, the errors. */
  datatype Outcome = Outcome(returned: bool, isValid: bool, errors: seq<string>)

  // ---------------------------------------------------------------------------------------
  // The specification of validate()

  /** The major rules of `added`, in the order they were added. */
  function Majors(added: seq<Rule>): (ms: seq<Rule>)
    decreases |added|
  {
    if added == [] then []
    else
      var last := added[|added| - 1];
      Majors(added[..|added| - 1]) + (if IsMajor(last) then [last] else [])
  }

  /** The normal (not major) rules of `added`, in the order they were added. */
  function Normals(added: seq<Rule>): (ns: seq<Rule>)
    decreases |added|
  {
    if added == [] then []
    else
      var last := added[|added| - 1];
      Normals(added[..|added| - 1]) + (if IsMajor(last) then [] else [last])
  }

  /** The index of the first rule that rejects `v`, if any. */
  function FirstFailing(rs: seq<Rule>, v: Value, fs: Paths): (r: Option<nat>)
    ensures r.Some? ==> r.value < |rs| && !Passes(rs[r.value], v, fs) &&
                        forall j :: 0 <= j < r.value ==> Passes(rs[j], v, fs)
    ensures r.None? ==> forall j :: 0 <= j < |rs| ==> Passes(rs[j], v, fs)
    decreases |rs|
  {
    if rs == [] then None
    else if !Passes(rs[0], v, fs) then Some(0)
    else
      var r := FirstFailing(rs[1..], v, fs);
      assert forall j :: 1 <= j < |rs| ==> rs[j] == rs[1..][j - 1];
      if r.Some? then Some(r.value + 1) else None
  }

  /** The resolved messages of the rules of `rs` that reject the attribute's value, in order. */
  function NormalErrors(rs: seq<Rule>, attribute: Attribute, fs: Paths): seq<string>
    decreases |rs|
  {
    if rs == [] then []
    else
      var last := rs[|rs| - 1];
      NormalErrors(rs[..|rs| - 1], attribute, fs) +
        (if Passes(last, attribute.value, fs) then [] else [MessageFor(last, attribute)])
  }

  /** For one rule, the message of every element of `es` it rejects, by increasing index. */
  function ElementErrors(r: Rule, attribute: Attribute, es: seq<Entry>, fs: Paths): seq<string>
    decreases |es|
  {
    if es == [] then []
    else
      var last := es[|es| - 1];
      ElementErrors(r, attribute, es[..|es| - 1], fs) +
        (if Passes(r, last.val, fs) then [] else [ResolvedForElement(r.message, r.params, attribute, last.key)])
  }

  /** ArrayValidator's errors: rule by rule, and within a rule element by element. */
  function ArrayErrors(rs: seq<Rule>, attribute: Attribute, es: seq<Entry>, fs: Paths): seq<string>
    decreases |rs|
  {
    if rs == [] then []
    else ArrayErrors(rs[..|rs| - 1], attribute, es, fs) + ElementErrors(rs[|rs| - 1], attribute, es, fs)
  }

  /** validate() of each validator class, on its rule lists and attribute. */
  function Evaluate(kind: Kind, majors: seq<Rule>, normals: seq<Rule>, attribute: Attribute, fs: Paths): Outcome {
    var v := attribute.value;
    match FirstFailing(majors, v, fs)
    case Some(i) => Outcome(false, false, [MessageFor(majors[i], attribute)])
    case None =>
      if kind != ArrayKind then
        if v == Null then Outcome(true, true, [])
        else
          var errs := NormalErrors(normals, attribute, fs);
          Outcome(errs == [], errs == [], errs)
      else if v == Null || IsEmpty(v) then Outcome(true, true, [])
      else if !v.Arr? then Outcome(false, true, [])
      else
        var errs := ArrayErrors(normals, attribute, v.entries, fs);
        Outcome(errs == [], errs == [], errs)
  }

  // ---------------------------------------------------------------------------------------
  // Properties of the specification

  /** getRules lists every added rule exactly once: the normal ones, then the major ones. */
  lemma {:induction false} RulesPermutation(added: seq<Rule>)
    ensures multiset(Normals(added) + Majors(added)) == multiset(added)
    decreases |added|
  {
    if added != [] {
      var init := added[..|added| - 1];
      var last := added[|added| - 1];
      RulesPermutation(init);
      assert added == init + [last];
      var n := Normals(init);
      var m := Majors(init);
      if IsMajor(last) {
        assert Majors(added) == m + [last] && Normals(added) == n;
        assert multiset(n + (m + [last])) == multiset(n + m) + multiset{last};
      } else {
        assert Normals(added) == n + [last] && Majors(added) == m;
        assert multiset(n + [last] + m) == multiset(n + m) + multiset{last};
      }
    }
  }

  /** A single added rule lands in the list its kind selects. */
  lemma SplitOne(r: Rule)
    ensures Majors([r]) == (if IsMajor(r) then [r] else [])
    ensures Normals([r]) == (if IsMajor(r) then [] else [r])
  {
    assert [r][..0] == [];
  }

  /** The major list holds exactly the added major rules, the normal list exactly the others. */
  lemma {:induction false} RulesPartition(added: seq<Rule>)
    ensures forall r :: r in Majors(added) <==> r in added && IsMajor(r)
    ensures forall r :: r in Normals(added) <==> r in added && !IsMajor(r)
    decreases |added|
  {
    if added != [] {
      var init := added[..|added| - 1];
      var last := added[|added| - 1];
      RulesPartition(init);
      assert added == init + [last];
    }
  }

  /** The first rule that rejects the value is the one FirstFailing reports. */
  lemma FirstFailingAt(rs: seq<Rule>, v: Value, fs: Paths, i: nat)
    requires i < |rs| && !Passes(rs[i], v, fs)
    requires forall j :: 0 <= j < i ==> Passes(rs[j], v, fs)
    ensures FirstFailing(rs, v, fs) == Some(i)
  {
  }

  /** A failing major rule gives exactly its own message, and the rules after it do not matter. */
  lemma MajorShortCircuit(kind: Kind, majors: seq<Rule>, normals: seq<Rule>, attribute: Attribute, fs: Paths, i: nat)
    requires i < |majors| && !Passes(majors[i], attribute.value, fs)
    requires forall j :: 0 <= j < i ==> Passes(majors[j], attribute.value, fs)
    ensures Evaluate(kind, majors, normals, attribute, fs) == Outcome(false, false, [MessageFor(majors[i], attribute)])
    ensures Evaluate(kind, majors, normals, attribute, fs) == Evaluate(kind, majors[..i + 1], [], attribute, fs)
  {
    FirstFailingAt(majors, attribute.value, fs, i);
    var prefix := majors[..i + 1];
    assert forall j :: 0 <= j <= i ==> prefix[j] == majors[j];
    FirstFailingAt(prefix, attribute.value, fs, i);
  }

  /** Once every major rule passes, a null value is valid whatever the normal rules say. */
  lemma NullIsValid(kind: Kind, majors: seq<Rule>, normals: seq<Rule>, name: string, fs: Paths)
    requires forall j :: 0 <= j < |majors| ==> Passes(majors[j], Null, fs)
    ensures Evaluate(kind, majors, normals, Attribute(name, Null), fs) == Outcome(true, true, [])
  {
  }

  /** There is at most one error per normal rule. */
  lemma {:induction false} NormalErrorsLength(rs: seq<Rule>, attribute: Attribute, fs: Paths)
    ensures |NormalErrors(rs, attribute, fs)| <= |rs|
    decreases |rs|
  {
    if rs != [] {
      NormalErrorsLength(rs[..|rs| - 1], attribute, fs);
    }
  }

  /** The normal rules report no error exactly when every one of them accepts the value. */
  lemma {:induction false} NormalErrorsEmpty(rs: seq<Rule>, attribute: Attribute, fs: Paths)
    ensures NormalErrors(rs, attribute, fs) == [] <==> forall i :: 0 <= i < |rs| ==> Passes(rs[i], attribute.value, fs)
    decreases |rs|
  {
    if rs != [] {
      var init := rs[..|rs| - 1];
      NormalErrorsEmpty(init, attribute, fs);
      assert forall i :: 0 <= i < |init| ==> init[i] == rs[i];
    }
  }

  /** A message is reported exactly when it is the resolved message of a rule that rejects the value. */
  lemma {:induction false} NormalErrorsMembers(rs: seq<Rule>, attribute: Attribute, fs: Paths)
    ensures forall m :: m in NormalErrors(rs, attribute, fs) <==>
      exists i :: 0 <= i < |rs| && !Passes(rs[i], attribute.value, fs) && m == MessageFor(rs[i], attribute)
    decreases |rs|
  {
    if rs != [] {
      var init := rs[..|rs| - 1];
      NormalErrorsMembers(init, attribute, fs);
      assert forall i :: 0 <= i < |init| ==> init[i] == rs[i];
    }
  }

  /** For a field or a file, a value that passes the major rules is valid exactly when no normal rule rejects it. */
  lemma FieldOutcome(kind: Kind, majors: seq<Rule>, normals: seq<Rule>, attribute: Attribute, fs: Paths)
    requires kind != ArrayKind
    requires forall j :: 0 <= j < |majors| ==> Passes(majors[j], attribute.value, fs)
    ensures var o := Evaluate(kind, majors, normals, attribute, fs);
      o.returned == o.isValid == (o.errors == []) &&
      (o.returned <==> attribute.value == Null || forall i :: 0 <= i < |normals| ==> Passes(normals[i], attribute.value, fs))
  {
    NormalErrorsEmpty(normals, attribute, fs);
  }

  /** For a field or a file, the return value always says whether errors were recorded. */
  lemma ReturnedIffNoErrors(kind: Kind, majors: seq<Rule>, normals: seq<Rule>, attribute: Attribute, fs: Paths)
    requires kind != ArrayKind
    ensures var o := Evaluate(kind, majors, normals, attribute, fs);
      o.returned == o.isValid == (o.errors == [])
  {
  }

  /** A field or file validator without rules is valid with no errors. */
  lemma NoRulesValid(kind: Kind, attribute: Attribute, fs: Paths)
    requires kind != ArrayKind
    ensures Evaluate(kind, [], [], attribute, fs) == Outcome(true, true, [])
  {
  }

  /** One rule reports no element error exactly when it accepts every element. */
  lemma {:induction false} ElementErrorsEmpty(r: Rule, attribute: Attribute, es: seq<Entry>, fs: Paths)
    ensures ElementErrors(r, attribute, es, fs) == [] <==> forall k :: 0 <= k < |es| ==> Passes(r, es[k].val, fs)
    decreases |es|
  {
    if es != [] {
      var init := es[..|es| - 1];
      ElementErrorsEmpty(r, attribute, init, fs);
      assert forall k :: 0 <= k < |init| ==> init[k] == es[k];
    }
  }

  /** One rule reports the element message of exactly the elements it rejects. */
  lemma ElementErrorsMembers(r: Rule, attribute: Attribute, es: seq<Entry>, fs: Paths)
    ensures forall m :: m in ElementErrors(r, attribute, es, fs) <==>
      exists k :: 0 <= k < |es| && !Passes(r, es[k].val, fs) &&
                  m == ResolvedForElement(r.message, r.params, attribute, es[k].key)
  {
    ElementErrorsSound(r, attribute, es, fs);
    ElementErrorsComplete(r, attribute, es, fs);
  }

  /** Every element message a rule reports belongs to an element it rejects. */
  lemma {:induction false} ElementErrorsSound(r: Rule, attribute: Attribute, es: seq<Entry>, fs: Paths)
    ensures forall m :: m in ElementErrors(r, attribute, es, fs) ==>
      exists k :: 0 <= k < |es| && !Passes(r, es[k].val, fs) &&
                  m == ResolvedForElement(r.message, r.params, attribute, es[k].key)
    decreases |es|
  {
    if es != [] {
      var init := es[..|es| - 1];
      ElementErrorsSound(r, attribute, init, fs);
      assert forall k :: 0 <= k < |init| ==> init[k] == es[k];
    }
  }

  /** Every element a rule rejects is reported with its element message. */
  lemma ElementErrorsComplete(r: Rule, attribute: Attribute, es: seq<Entry>, fs: Paths)
    ensures forall k :: 0 <= k < |es| && !Passes(r, es[k].val, fs) ==>
      ResolvedForElement(r.message, r.params, attribute, es[k].key) in ElementErrors(r, attribute, es, fs)
  {
    forall k | 0 <= k < |es| && !Passes(r, es[k].val, fs)
      ensures ResolvedForElement(r.message, r.params, attribute, es[k].key) in ElementErrors(r, attribute, es, fs)
    {
      ElementErrorReported(r, attribute, es, fs, k);
    }
  }

  /** The element errors of `es` are those of all but its last element, then the last one's. */
  lemma ElementErrorsStep(r: Rule, attribute: Attribute, es: seq<Entry>, fs: Paths)
    requires es != []
    ensures var n := |es| - 1;
      ElementErrors(r, attribute, es, fs) == ElementErrors(r, attribute, es[..n], fs) +
        (if Passes(r, es[n].val, fs) then [] else [ResolvedForElement(r.message, r.params, attribute, es[n].key)])
  {
  }

  /** The rejection of element `k` by rule `r` is among that rule's element errors. */
  lemma ElementErrorReported(r: Rule, attribute: Attribute, es: seq<Entry>, fs: Paths, k: nat)
    requires k < |es| && !Passes(r, es[k].val, fs)
    ensures ResolvedForElement(r.message, r.params, attribute, es[k].key) in ElementErrors(r, attribute, es, fs)
  {
    var upto := es[..k + 1];
    assert upto[..k] == es[..k] && upto[k] == es[k];
    ElementErrorsStep(r, attribute, upto, fs);
    ElementErrorsPrefix(r, attribute, es, fs, k + 1);
  }

  /** The element errors of the first `j` elements come first among a rule's element errors. */
  lemma {:induction false} ElementErrorsPrefix(r: Rule, attribute: Attribute, es: seq<Entry>, fs: Paths, j: nat)
    requires j <= |es|
    ensures ElementErrors(r, attribute, es[..j], fs) <= ElementErrors(r, attribute, es, fs)
    decreases |es|
  {
    if j < |es| {
      var init := es[..|es| - 1];
      ElementErrorsPrefix(r, attribute, init, fs, j);
      assert init[..j] == es[..j];
    } else {
      assert es[..j] == es;
    }
  }

  /** The array errors are empty exactly when every normal rule accepts every element. */
  lemma {:induction false} ArrayErrorsEmpty(rs: seq<Rule>, attribute: Attribute, es: seq<Entry>, fs: Paths)
    ensures ArrayErrors(rs, attribute, es, fs) == [] <==>
      forall i, k :: 0 <= i < |rs| && 0 <= k < |es| ==> Passes(rs[i], es[k].val, fs)
    decreases |rs|
  {
    if rs != [] {
      var init := rs[..|rs| - 1];
      ArrayErrorsEmpty(init, attribute, es, fs);
      ElementErrorsEmpty(rs[|rs| - 1], attribute, es, fs);
      assert forall i :: 0 <= i < |init| ==> init[i] == rs[i];
    }
  }

  /** A message is reported exactly when some normal rule rejects some element. */
  lemma ArrayErrorsMembers(rs: seq<Rule>, attribute: Attribute, es: seq<Entry>, fs: Paths)
    ensures forall m :: m in ArrayErrors(rs, attribute, es, fs) <==>
      exists i, k :: 0 <= i < |rs| && 0 <= k < |es| && !Passes(rs[i], es[k].val, fs) &&
                     m == ResolvedForElement(rs[i].message, rs[i].params, attribute, es[k].key)
  {
    ArrayErrorsSound(rs, attribute, es, fs);
    ArrayErrorsComplete(rs, attribute, es, fs);
  }

  /** Every reported message is the element message of a rule that rejects that element. */
  lemma {:induction false} ArrayErrorsSound(rs: seq<Rule>, attribute: Attribute, es: seq<Entry>, fs: Paths)
    ensures forall m :: m in ArrayErrors(rs, attribute, es, fs) ==>
      exists i, k :: 0 <= i < |rs| && 0 <= k < |es| && !Passes(rs[i], es[k].val, fs) &&
                     m == ResolvedForElement(rs[i].message, rs[i].params, attribute, es[k].key)
    decreases |rs|
  {
    if rs != [] {
      var n := |rs| - 1;
      var init := rs[..n];
      ArrayErrorsSound(init, attribute, es, fs);
      ElementErrorsSound(rs[n], attribute, es, fs);
      forall m | m in ArrayErrors(init, attribute, es, fs)
        ensures exists i, k :: 0 <= i < |rs| && 0 <= k < |es| && !Passes(rs[i], es[k].val, fs) &&
                               m == ResolvedForElement(rs[i].message, rs[i].params, attribute, es[k].key)
      {
        var i, k :| 0 <= i < |init| && 0 <= k < |es| && !Passes(init[i], es[k].val, fs) &&
                    m == ResolvedForElement(init[i].message, init[i].params, attribute, es[k].key);
        assert init[i] == rs[i];
      }
    }
  }

  /** Every rejection of an element by a normal rule is reported with that element's message. */
  lemma ArrayErrorsComplete(rs: seq<Rule>, attribute: Attribute, es: seq<Entry>, fs: Paths)
    ensures forall i, k :: 0 <= i < |rs| && 0 <= k < |es| && !Passes(rs[i], es[k].val, fs) ==>
      ResolvedForElement(rs[i].message, rs[i].params, attribute, es[k].key) in ArrayErrors(rs, attribute, es, fs)
  {
    forall i, k | 0 <= i < |rs| && 0 <= k < |es| && !Passes(rs[i], es[k].val, fs)
      ensures ResolvedForElement(rs[i].message, rs[i].params, attribute, es[k].key) in ArrayErrors(rs, attribute, es, fs)
    {
      ArrayErrorReported(rs, attribute, es, fs, i, k);
    }
  }

  /** The rejection of element `k` by rule `i` is among the array errors. */
  lemma ArrayErrorReported(rs: seq<Rule>, attribute: Attribute, es: seq<Entry>, fs: Paths, i: nat, k: nat)
    requires i < |rs| && k < |es| && !Passes(rs[i], es[k].val, fs)
    ensures ResolvedForElement(rs[i].message, rs[i].params, attribute, es[k].key) in ArrayErrors(rs, attribute, es, fs)
  {
    var upto := rs[..i + 1];
    assert upto[..i] == rs[..i] && upto[i] == rs[i];
    ElementErrorReported(rs[i], attribute, es, fs, k);
    assert ArrayErrors(upto, attribute, es, fs) ==
           ArrayErrors(rs[..i], attribute, es, fs) + ElementErrors(rs[i], attribute, es, fs);
    ArrayErrorsPrefix(rs, attribute, es, fs, i + 1);
  }

  /** The errors of the first `j` rules come first among the array errors. */
  lemma {:induction false} ArrayErrorsPrefix(rs: seq<Rule>, attribute: Attribute, es: seq<Entry>, fs: Paths, j: nat)
    requires j <= |rs|
    ensures ArrayErrors(rs[..j], attribute, es, fs) <= ArrayErrors(rs, attribute, es, fs)
    decreases |rs|
  {
    if j < |rs| {
      var init := rs[..|rs| - 1];
      ArrayErrorsPrefix(init, attribute, es, fs, j);
      assert init[..j] == rs[..j];
    } else {
      assert rs[..j] == rs;
    }
  }

  /** The indices of the normal rules that reject the value. */
  function FailingRules(rs: seq<Rule>, v: Value, fs: Paths): set<int> {
    set i | 0 <= i < |rs| && !Passes(rs[i], v, fs)
  }

  /** The indices of the elements that rule `r` rejects. */
  function RejectedElements(r: Rule, es: seq<Entry>, fs: Paths): set<int> {
    set k | 0 <= k < |es| && !Passes(r, es[k].val, fs)
  }

  /** The number of (rule, element) rejections, summed rule by rule. */
  function RejectionCount(rs: seq<Rule>, es: seq<Entry>, fs: Paths): nat
    decreases |rs|
  {
    if rs == [] then 0
    else RejectionCount(rs[..|rs| - 1], es, fs) + |RejectedElements(rs[|rs| - 1], es, fs)|
  }

  /** Extending the rules by one adds its index to the failing ones exactly when it rejects the value. */
  lemma FailingRulesStep(rs: seq<Rule>, v: Value, fs: Paths)
    requires rs != []
    ensures var n := |rs| - 1;
      FailingRules(rs, v, fs) == FailingRules(rs[..n], v, fs) + (if Passes(rs[n], v, fs) then {} else {n})
  {
    var n := |rs| - 1;
    assert forall i :: 0 <= i < n ==> rs[..n][i] == rs[i];
  }

  /** There is exactly one error per normal rule that rejects the value. */
  lemma {:induction false} NormalErrorsCount(rs: seq<Rule>, attribute: Attribute, fs: Paths)
    ensures |NormalErrors(rs, attribute, fs)| == |FailingRules(rs, attribute.value, fs)|
    decreases |rs|
  {
    if rs == [] {
      assert FailingRules(rs, attribute.value, fs) == {};
    } else {
      var n := |rs| - 1;
      NormalErrorsCount(rs[..n], attribute, fs);
      FailingRulesStep(rs, attribute.value, fs);
      assert n !in FailingRules(rs[..n], attribute.value, fs);
    }
  }

  /** Extending the elements by one adds its index to the rejected ones exactly when the rule rejects it. */
  lemma RejectedElementsStep(r: Rule, es: seq<Entry>, fs: Paths)
    requires es != []
    ensures var n := |es| - 1;
      RejectedElements(r, es, fs) == RejectedElements(r, es[..n], fs) + (if Passes(r, es[n].val, fs) then {} else {n})
  {
    var n := |es| - 1;
    assert forall k :: 0 <= k < n ==> es[..n][k] == es[k];
  }

  /** One rule reports exactly one element message per element it rejects. */
  lemma {:induction false} ElementErrorsCount(r: Rule, attribute: Attribute, es: seq<Entry>, fs: Paths)
    ensures |ElementErrors(r, attribute, es, fs)| == |RejectedElements(r, es, fs)|
    decreases |es|
  {
    if es == [] {
      assert RejectedElements(r, es, fs) == {};
    } else {
      var n := |es| - 1;
      ElementErrorsCount(r, attribute, es[..n], fs);
      ElementErrorsStep(r, attribute, es, fs);
      RejectedElementsStep(r, es, fs);
      assert n !in RejectedElements(r, es[..n], fs);
    }
  }

  /** ArrayValidator reports one message per rule and element that rule rejects. */
  lemma {:induction false} ArrayErrorsCount(rs: seq<Rule>, attribute: Attribute, es: seq<Entry>, fs: Paths)
    ensures |ArrayErrors(rs, attribute, es, fs)| == RejectionCount(rs, es, fs)
    decreases |rs|
  {
    if rs != [] {
      ArrayErrorsCount(rs[..|rs| - 1], attribute, es, fs);
      ElementErrorsCount(rs[|rs| - 1], attribute, es, fs);
    }
  }

  /**
   * In a well-formed array, the element message of `resolveArrayMessage` is the rule's message
   * with `:fieldValue` bound to the rejected element.
   */
  lemma ElementMessage(r: Rule, name: string, es: seq<Entry>, k: nat)
    requires UniqueKeys(es) && k < |es|
    ensures ResolvedForElement(r.message, r.params, Attribute(name, Arr(es)), es[k].key) ==
            MessageFor(r, Attribute(name, es[k].val))
  {
    LookupOwnKey(es, k);
  }

  /** An array validator's null or empty value that passes the major rules is valid. */
  lemma ArrayNullOrEmptyValid(majors: seq<Rule>, normals: seq<Rule>, attribute: Attribute, fs: Paths)
    requires attribute.value == Null || attribute.value == Arr([])
    requires forall j :: 0 <= j < |majors| ==> Passes(majors[j], attribute.value, fs)
    ensures Evaluate(ArrayKind, majors, normals, attribute, fs) == Outcome(true, true, [])
  {
  }

  /** A non-empty array that passes the major rules is valid exactly when no element fails a normal rule. */
  lemma ArrayOutcome(majors: seq<Rule>, normals: seq<Rule>, name: string, es: seq<Entry>, fs: Paths)
    requires es != []
    requires forall j :: 0 <= j < |majors| ==> Passes(majors[j], Arr(es), fs)
    ensures var o := Evaluate(ArrayKind, majors, normals, Attribute(name, Arr(es)), fs);
      o.returned == o.isValid == (o.errors == []) &&
      (o.returned <==> forall i, k :: 0 <= i < |normals| && 0 <= k < |es| ==> Passes(normals[i], es[k].val, fs))
  {
    ArrayErrorsEmpty(normals, Attribute(name, Arr(es)), es, fs);
  }

  /**
   * With the seeded IsArrayRule among the major rules, a value that is neither null nor an
   * array is rejected with one error, whatever the other rules, and the return value agrees
   * with the errors on every path.
   */
  lemma ArrayRejectsNonArray(majors: seq<Rule>, normals: seq<Rule>, attribute: Attribute, fs: Paths, custom: Option<string>)
    requires NewIsArray(custom) in majors
    ensures var o := Evaluate(ArrayKind, majors, normals, attribute, fs);
      o.returned == o.isValid == (o.errors == [])
    ensures attribute.value != Null && !attribute.value.Arr? ==>
      !Evaluate(ArrayKind, majors, normals, attribute, fs).returned &&
      |Evaluate(ArrayKind, majors, normals, attribute, fs).errors| == 1
  {
    var v := attribute.value;
    var i :| 0 <= i < |majors| && majors[i] == NewIsArray(custom);
    if FirstFailing(majors, v, fs).None? {
      assert Passes(majors[i], v, fs);
      assert v.Arr?;
      ArrayErrorsEmpty(normals, attribute, v.entries, fs);
    }
  }

  // ---------------------------------------------------------------------------------------
  // The validator object

  class Validator {
    const kind: Kind
    const attribute: Attribute
    var majorRules: seq<Rule>
    var rules: seq<Rule>
    var errors: seq<string>
    /** null until validate() has run. */
    var isValid: Option<bool>
    /** Every rule handed to addRule, in call order. */
    ghost var added: seq<Rule>

    /** The two lists split `added` by isMajor, each in call order. */
    ghost predicate Valid()
      reads this
    {
      majorRules == Majors(added) && rules == Normals(added)
    }

    /** getName and getValue: the attribute's. */
    function GetName(): string {
      attribute.name
    }

    function GetValue(): Value {
      attribute.value
    }

    /** FieldValidator: no rule to begin with. */
    constructor Field(attribute: Attribute)
      ensures Valid() && kind == FieldKind && this.attribute == attribute
      ensures added == [] && errors == [] && isValid == None
    {
      kind := FieldKind;
      this.attribute := attribute;
      majorRules := [];
      rules := [];
      errors := [];
      isValid := None;
      added := [];
    }

    /** ArrayValidator: an IsArrayRule, with the custom message, exactly when the value is not null. */
    constructor Array(attribute: Attribute, custom: Option<string> := None)
      ensures Valid() && kind == ArrayKind && this.attribute == attribute
      ensures added == (if attribute.value != Null then [NewIsArray(custom)] else [])
      ensures errors == [] && isValid == None
    {
      kind := ArrayKind;
      this.attribute := attribute;
      rules := [];
      errors := [];
      isValid := None;
      if attribute.value != Null {
        SplitOne(NewIsArray(custom));
        majorRules := [NewIsArray(custom)];
        added := [NewIsArray(custom)];
      } else {
        majorRules := [];
        added := [];
      }
    }

    /** FileValidator: an IsFileRule, with the custom message, exactly when the value is not null. */
    constructor File(attribute: Attribute, custom: Option<string> := None)
      ensures Valid() && kind == FileKind && this.attribute == attribute
      ensures added == (if attribute.value != Null then [NewIsFile(custom)] else [])
      ensures errors == [] && isValid == None
    {
      kind := FileKind;
      this.attribute := attribute;
      rules := [];
      errors := [];
      isValid := None;
      if attribute.value != Null {
        SplitOne(NewIsFile(custom));
        majorRules := [NewIsFile(custom)];
        added := [NewIsFile(custom)];
      } else {
        majorRules := [];
        added := [];
      }
    }

    /** addRule: a major rule joins majorRules, any other joins rules; both keep call order. */
    method AddRule(r: Rule) returns (self: Validator)
      requires Valid()
      modifies this
      ensures Valid() && self == this
      ensures added == old(added) + [r]
      ensures IsMajor(r) ==> majorRules == old(majorRules) + [r] && rules == old(rules)
      ensures !IsMajor(r) ==> rules == old(rules) + [r] && majorRules == old(majorRules)
      ensures errors == old(errors) && isValid == old(isValid)
    {
      assert (old(added) + [r])[..|old(added)|] == old(added);
      if IsMajor(r) {
        majorRules := majorRules + [r];
      } else {
        rules := rules + [r];
      }
      added := added + [r];
      self := this;
    }

    /** getRules: the normal rules, then the major rules. */
    function GetRules(): (rs: seq<Rule>)
      reads this
      requires Valid()
      ensures multiset(rs) == multiset(added)
      ensures rs == Normals(added) + Majors(added)
    {
      RulesPermutation(added);
      rules + majorRules
    }

    /** isRequired: adds an IsRequiredRule with condition true. */
    method IsRequired(custom: Option<string> := None) returns (self: Validator)
      requires Valid()
      modifies this
      ensures Valid() && self == this
      ensures added == old(added) + [NewRequired(custom)]
      ensures majorRules == old(majorRules) + [NewRequired(custom)] && rules == old(rules)
      ensures errors == old(errors) && isValid == old(isValid)
    {
      self := AddRule(NewRequired(custom));
    }

    /** isRequiredIf: adds an IsRequiredRule with the given condition. */
    method IsRequiredIf(condition: Condition, custom: Option<string> := None) returns (self: Validator)
      requires Valid()
      modifies this
      ensures Valid() && self == this
      ensures added == old(added) + [NewRequired(custom, condition)]
      ensures majorRules == old(majorRules) + [NewRequired(custom, condition)] && rules == old(rules)
      ensures errors == old(errors) && isValid == old(isValid)
    {
      self := AddRule(NewRequired(custom, condition));
    }

    /** prohibitedIf: adds an IsProhibitedRule with the given condition. */
    method ProhibitedIf(condition: Condition, custom: Option<string> := None) returns (self: Validator)
      requires Valid()
      modifies this
      ensures Valid() && self == this
      ensures added == old(added) + [NewProhibited(condition, custom)]
      ensures majorRules == old(majorRules) + [NewProhibited(condition, custom)] && rules == old(rules)
      ensures errors == old(errors) && isValid == old(isValid)
    {
      self := AddRule(NewProhibited(condition, custom));
    }

    /** ArrayValidator::maxLength: one major MaxLengthRule. */
    method MaxLength(max: int, custom: Option<string> := None) returns (self: Validator)
      requires Valid() && kind == ArrayKind
      modifies this
      ensures Valid() && self == this
      ensures added == old(added) + [NewMaxLength(max, custom)]
      ensures majorRules == old(majorRules) + [NewMaxLength(max, custom)] && rules == old(rules)
      ensures errors == old(errors) && isValid == old(isValid)
    {
      self := AddRule(NewMaxLength(max, custom));
    }

    /** ArrayValidator::minLength: one major MinLengthRule. */
    method MinLength(min: int, custom: Option<string> := None) returns (self: Validator)
      requires Valid() && kind == ArrayKind
      modifies this
      ensures Valid() && self == this
      ensures added == old(added) + [NewMinLength(min, custom)]
      ensures majorRules == old(majorRules) + [NewMinLength(min, custom)] && rules == old(rules)
      ensures errors == old(errors) && isValid == old(isValid)
    {
      self := AddRule(NewMinLength(min, custom));
    }

    /** FileValidator::type: one normal FileTypeRule over the given type or types. */
    method Type(types: AllowedTypes, custom: Option<string> := None) returns (self: Validator)
      requires Valid() && kind == FileKind
      modifies this
      ensures Valid() && self == this
      ensures added == old(added) + [NewFileType(types, custom)]
      ensures rules == old(rules) + [NewFileType(types, custom)] && majorRules == old(majorRules)
      ensures errors == old(errors) && isValid == old(isValid)
    {
      self := AddRule(NewFileType(types, custom));
    }

    /** FileValidator::maxSize: one normal MaxFileSizeRule with the byte limit. */
    method MaxSize(size: int, custom: Option<string> := None) returns (self: Validator)
      requires Valid() && kind == FileKind
      modifies this
      ensures Valid() && self == this
      ensures added == old(added) + [NewMaxFileSize(size, custom)]
      ensures rules == old(rules) + [NewMaxFileSize(size, custom)] && majorRules == old(majorRules)
      ensures errors == old(errors) && isValid == old(isValid)
    {
      self := AddRule(NewMaxFileSize(size, custom));
    }

    /** The outcome validate() produces on the current rules. */
    function Expected(fs: Paths): Outcome
      reads this
    {
      Evaluate(kind, majorRules, rules, attribute, fs)
    }

    /** validate(): the major rules, then the null check, then the normal rules. */
    method Validate(fs: Paths) returns (ok: bool)
      modifies this
      ensures majorRules == old(majorRules) && rules == old(rules) && added == old(added)
      ensures ok == Expected(fs).returned
      ensures errors == Expected(fs).errors && isValid == Some(Expected(fs).isValid)
    {
      isValid := Some(true);
      errors := [];
      var v := attribute.value;
      var i := 0;
      while i < |majorRules|
        invariant 0 <= i <= |majorRules|
        invariant forall j :: 0 <= j < i ==> Passes(majorRules[j], v, fs)
        invariant errors == [] && isValid == Some(true)
        invariant majorRules == old(majorRules) && rules == old(rules) && added == old(added)
      {
        var passed := Check(majorRules[i], v, fs);
        if !passed {
          var m := ResolveMessage(majorRules[i].message, majorRules[i].params, attribute);
          errors := errors + [m];
          isValid := Some(false);
          MajorShortCircuit(kind, majorRules, rules, attribute, fs, i);
          return false;
        }
        i := i + 1;
      }
      assert FirstFailing(majorRules, v, fs).None?;
      if kind == ArrayKind {
        ok := ValidateElements(fs);
      } else {
        if v == Null {
          return true;
        }
        var k := 0;
        while k < |rules|
          invariant 0 <= k <= |rules|
          invariant errors == NormalErrors(rules[..k], attribute, fs) && isValid == Some(true)
          invariant majorRules == old(majorRules) && rules == old(rules) && added == old(added)
        {
          var passed := Check(rules[k], v, fs);
          assert rules[..k + 1][..k] == rules[..k];
          if !passed {
            var m := ResolveMessage(rules[k].message, rules[k].params, attribute);
            errors := errors + [m];
          }
          k := k + 1;
        }
        assert rules[..k] == rules;
        isValid := Some(errors == []);
        ok := errors == [];
      }
    }

    /** The tail of ArrayValidator::validate(), once every major rule has passed. */
    method ValidateElements(fs: Paths) returns (ok: bool)
      requires kind == ArrayKind && errors == [] && isValid == Some(true)
      requires FirstFailing(majorRules, attribute.value, fs).None?
      modifies this
      ensures majorRules == old(majorRules) && rules == old(rules) && added == old(added)
      ensures ok == Expected(fs).returned
      ensures errors == Expected(fs).errors && isValid == Some(Expected(fs).isValid)
    {
      var v := attribute.value;
      if v == Null || IsEmpty(v) {
        return true;
      }
      if !v.Arr? {
        return false;
      }
      var es := v.entries;
      var i := 0;
      while i < |rules|
        invariant 0 <= i <= |rules|
        invariant majorRules == old(majorRules) && rules == old(rules) && added == old(added)
        invariant errors == ArrayErrors(rules[..i], attribute, es, fs) && isValid == Some(true)
      {
        CheckElements(rules[i], es, fs);
        assert rules[..i + 1][..i] == rules[..i];
        i := i + 1;
      }
      assert rules[..i] == rules;
      isValid := Some(errors == []);
      ok := errors == [];
    }

    /** The inner loop of ArrayValidator::validate(): one rule against every element. */
    method CheckElements(r: Rule, es: seq<Entry>, fs: Paths)
      modifies this
      ensures majorRules == old(majorRules) && rules == old(rules) && added == old(added)
      ensures isValid == old(isValid)
      ensures errors == old(errors) + ElementErrors(r, attribute, es, fs)
    {
      var k := 0;
      while k < |es|
        invariant 0 <= k <= |es|
        invariant majorRules == old(majorRules) && rules == old(rules) && added == old(added)
        invariant isValid == old(isValid)
        invariant errors == old(errors) + ElementErrors(r, attribute, es[..k], fs)
      {
        var passed := Check(r, es[k].val, fs);
        assert es[..k + 1][..k] == es[..k];
        if !passed {
          errors := errors + [ResolvedForElement(r.message, r.params, attribute, es[k].key)];
        }
        k := k + 1;
      }
      assert es[..k] == es;
    }

    /** getErrors: validates only while isValid is null; afterwards returns the stored errors. */
    method GetErrors(fs: Paths) returns (es: seq<string>)
      modifies this
      ensures majorRules == old(majorRules) && rules == old(rules) && added == old(added)
      ensures old(isValid).Some? ==> es == old(errors) && errors == old(errors) && isValid == old(isValid)
      ensures old(isValid).None? ==> es == old(Expected(fs)).errors && errors == es &&
                                     isValid == Some(old(Expected(fs)).isValid)
      ensures isValid.Some? && es == errors
    {
      if isValid.None? {
        var ok := Validate(fs);
      }
      es := errors;
    }
  }

  /** isRequired on a null attribute reports exactly the rule's message, custom or default. */
  lemma RequiredOnNull(majors: seq<Rule>, normals: seq<Rule>, kind: Kind, name: string, custom: Option<string>, fs: Paths)
    requires forall j :: 0 <= j < |majors| ==> Passes(majors[j], Null, fs)
    ensures Evaluate(kind, majors + [NewRequired(custom)], normals, Attribute(name, Null), fs).errors ==
      [MessageFor(NewRequired(custom), Attribute(name, Null))]
  {
    var ms := majors + [NewRequired(custom)];
    assert forall j :: 0 <= j < |majors| ==> ms[j] == majors[j];
    MajorShortCircuit(kind, ms, normals, Attribute(name, Null), fs, |majors|);
  }
}
