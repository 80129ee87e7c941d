/**
 * What the three request classes share: the request data held by reference, the blank-input
 * test of checkEmpty, the flag count behind requireOr, and the errors gathered from a list of
 * validators.
 */
module RequestData {
  import opened Wrappers
  import opened Php
  import opened Rules
  import opened Validators
  import opened Files

  /** The request data array, shared with the caller: checkEmpty writes into it. */
  class DataRef {
    var data: map<string, Value>

    constructor (data: map<string, Value>)
      ensures this.data == data
    {
      this.data := data;
    }
  }

  /** The `$nullables` list: strings checkEmpty treats like a missing value. */
  const Nullables: seq<string> := ["null", "", "undefined"]

  /** `isset($data[$name])`: the key is present and its value is not null. */
  predicate IsSetIn(data: map<string, Value>, name: string) {
    name in data && data[name] != Null
  }

  /** checkEmpty's test: not set, or strictly equal to one of the nullable strings. */
  predicate Blank(data: map<string, Value>, name: string) {
    !IsSetIn(data, name) || (data[name].Str? && data[name].s in Nullables)
  }

  /** The value the validator receives: null for a blank input, the data's value otherwise. */
  function Normalised(data: map<string, Value>, name: string): (v: Value)
    ensures Blank(data, name) ==> v == Null
    ensures !Blank(data, name) ==> name in data && v == data[name] && v != Null
  {
    if Blank(data, name) then Null else data[name]
  }

  /** The data after checkEmpty: a blank input is overwritten with null, anything else is kept. */
  function AfterCheck(data: map<string, Value>, name: string): (d: map<string, Value>)
    ensures name in d && d[name] == Normalised(data, name)
    ensures forall k :: k != name ==> (k in d <==> k in data) && (k in data ==> d[k] == data[k])
  {
    if Blank(data, name) then data[name := Null] else data
  }

  /**
   * The value validateFile hands to its validator: null for a blank input, otherwise the File
   * built from the data's value, or the TypeError that construction raises.
   */
  function UploadedValue(data: map<string, Value>, name: string): (r: Result<Value, FileError>)
    ensures Blank(data, name) ==> r == Ok(Null)
    ensures !Blank(data, name) ==>
      (r.Ok? <==> FromUpload(data[name]).Ok?) && (r.Ok? ==> r.value == FileV(FromUpload(data[name]).value))
  {
    if Blank(data, name) then Ok(Null)
    else match FromUpload(data[name])
      case Ok(f) => Ok(FileV(f))
      case Err(e) => Err(e)
  }

  /** Exactly the missing key, null and the three nullable strings are blank. */
  lemma BlankValues(data: map<string, Value>, name: string)
    ensures name !in data ==> Blank(data, name)
    ensures name in data ==>
      (Blank(data, name) <==> data[name] in {Null, Str("null"), Str(""), Str("undefined")})
  {
  }

  /** After checkEmpty the input is no longer blank unless it was null, and checking twice changes nothing. */
  lemma AfterCheckIdempotent(data: map<string, Value>, name: string)
    ensures AfterCheck(AfterCheck(data, name), name) == AfterCheck(data, name)
    ensures Normalised(AfterCheck(data, name), name) == Normalised(data, name)
  {
  }

  // ---------------------------------------------------------------------------------------
  // The requireOr count

  /** How many of the flags are set. */
  function CountTrue(bs: seq<bool>): nat
    decreases |bs|
  {
    if bs == [] then 0 else CountTrue(bs[..|bs| - 1]) + (if bs[|bs| - 1] then 1 else 0)
  }

  /** Exactly one flag is set. */
  ghost predicate ExactlyOne(bs: seq<bool>) {
    exists i :: 0 <= i < |bs| && bs[i] && forall j :: 0 <= j < |bs| && j != i ==> !bs[j]
  }

  /** requireOr's verdict on the flags: at least one set, or, when exclusive, exactly one. */
  predicate Satisfied(bs: seq<bool>, exclusive: bool) {
    if exclusive then CountTrue(bs) == 1 else CountTrue(bs) >= 1
  }

  /** Counting one more flag adds that flag. */
  lemma CountTrueStep(bs: seq<bool>, i: nat)
    requires i < |bs|
    ensures CountTrue(bs[..i + 1]) == CountTrue(bs[..i]) + (if bs[i] then 1 else 0)
  {
    assert bs[..i + 1][..i] == bs[..i];
  }

  /** A prefix never counts more than the whole. */
  lemma {:induction false} CountTruePrefix(bs: seq<bool>, i: nat)
    requires i <= |bs|
    ensures CountTrue(bs[..i]) <= CountTrue(bs)
    decreases |bs| - i
  {
    if i < |bs| {
      CountTrueStep(bs, i);
      CountTruePrefix(bs, i + 1);
      assert bs[..|bs|] == bs;
    } else {
      assert bs[..i] == bs;
    }
  }

  /** The count is zero exactly when no flag is set. */
  lemma {:induction false} CountTrueZero(bs: seq<bool>)
    ensures CountTrue(bs) == 0 <==> forall i :: 0 <= i < |bs| ==> !bs[i]
    decreases |bs|
  {
    if bs != [] {
      var init := bs[..|bs| - 1];
      CountTrueZero(init);
      assert forall i :: 0 <= i < |init| ==> init[i] == bs[i];
    }
  }

  /** The count is one exactly when one flag, and no other, is set. */
  lemma {:induction false} CountTrueOne(bs: seq<bool>)
    ensures CountTrue(bs) == 1 <==> ExactlyOne(bs)
    decreases |bs|
  {
    if bs != [] {
      var n := |bs| - 1;
      var init := bs[..n];
      CountTrueZero(init);
      CountTrueOne(init);
      assert forall i :: 0 <= i < n ==> init[i] == bs[i];
      if ExactlyOne(bs) {
        var i :| 0 <= i < |bs| && bs[i] && forall j :: 0 <= j < |bs| && j != i ==> !bs[j];
        if i < n {
          assert ExactlyOne(init) by {
            assert forall j :: 0 <= j < n && j != i ==> !init[j];
          }
        }
      }
      if bs[n] && CountTrue(init) == 0 {
        assert forall j :: 0 <= j < |bs| && j != n ==> !bs[j];
      }
      if !bs[n] && ExactlyOne(init) {
        var i :| 0 <= i < n && init[i] && forall j :: 0 <= j < n && j != i ==> !init[j];
        assert forall j :: 0 <= j < |bs| && j != i ==> !bs[j];
      }
    }
  }

  /** Non-exclusive requireOr is satisfied exactly when some flag is set. */
  lemma SatisfiedAtLeastOne(bs: seq<bool>)
    ensures Satisfied(bs, false) <==> exists i :: 0 <= i < |bs| && bs[i]
  {
    CountTrueZero(bs);
  }

  /** Exclusive requireOr is satisfied exactly when one flag, and no other, is set. */
  lemma SatisfiedExactlyOne(bs: seq<bool>)
    ensures Satisfied(bs, true) <==> ExactlyOne(bs)
  {
    CountTrueOne(bs);
  }

  /**
   * The flag loop of requireOr: stops at the first set flag, or, when exclusive, fails at the
   * second one.
   */
  method FlagLoop(bs: seq<bool>, exclusive: bool) returns (valid: bool)
    ensures valid == Satisfied(bs, exclusive)
  {
    valid := false;
    var i := 0;
    while i < |bs|
      invariant 0 <= i <= |bs|
      invariant CountTrue(bs[..i]) <= 1
      invariant valid == (CountTrue(bs[..i]) == 1)
      invariant !exclusive ==> !valid
    {
      CountTrueStep(bs, i);
      if bs[i] {
        if valid && exclusive {
          CountTruePrefix(bs, i + 1);
          valid := false;
          return;
        }
        valid := true;
        if !exclusive {
          CountTruePrefix(bs, i + 1);
          return;
        }
      }
      i := i + 1;
    }
    assert bs[..i] == bs;
  }

  /** requireOr over data keys: one flag per listed key, set when `isset($data[$key])`. */
  function KeyFlags(data: map<string, Value>, fields: seq<string>): (bs: seq<bool>)
    ensures |bs| == |fields|
    ensures forall i :: 0 <= i < |fields| ==> bs[i] == IsSetIn(data, fields[i])
  {
    seq(|fields|, i requires 0 <= i < |fields| => IsSetIn(data, fields[i]))
  }

  /** requireOr over validators: one flag per validator, set when `getValue() !== null`. */
  function ValueFlags(vs: seq<Validator>): (bs: seq<bool>)
    ensures |bs| == |vs|
    ensures forall i :: 0 <= i < |vs| ==> bs[i] == (vs[i].GetValue() != Null)
  {
    seq(|vs|, i requires 0 <= i < |vs| => vs[i].GetValue() != Null)
  }

  /** Non-exclusive requireOr over keys holds exactly when some listed key is set. */
  lemma KeysAtLeastOne(data: map<string, Value>, fields: seq<string>)
    ensures Satisfied(KeyFlags(data, fields), false) <==> exists i :: 0 <= i < |fields| && IsSetIn(data, fields[i])
  {
    var bs := KeyFlags(data, fields);
    SatisfiedAtLeastOne(bs);
    if exists i :: 0 <= i < |fields| && IsSetIn(data, fields[i]) {
      var i :| 0 <= i < |fields| && IsSetIn(data, fields[i]);
      assert bs[i];
    }
  }

  /** Exclusive requireOr over keys holds exactly when one listed position, and no other, is set. */
  lemma KeysExactlyOne(data: map<string, Value>, fields: seq<string>)
    ensures Satisfied(KeyFlags(data, fields), true) <==>
      exists i :: 0 <= i < |fields| && IsSetIn(data, fields[i]) &&
        forall j :: 0 <= j < |fields| && j != i ==> !IsSetIn(data, fields[j])
  {
    var bs := KeyFlags(data, fields);
    SatisfiedExactlyOne(bs);
    if exists i :: 0 <= i < |fields| && IsSetIn(data, fields[i]) &&
        forall j :: 0 <= j < |fields| && j != i ==> !IsSetIn(data, fields[j]) {
      var i :| 0 <= i < |fields| && IsSetIn(data, fields[i]) &&
        forall j :: 0 <= j < |fields| && j != i ==> !IsSetIn(data, fields[j]);
      assert bs[i] && forall j :: 0 <= j < |bs| && j != i ==> !bs[j];
    }
  }

  /** A key listed twice counts twice: exclusive requireOr then fails even with that key alone set. */
  lemma RepeatedKeyFailsExclusive(data: map<string, Value>, name: string)
    requires IsSetIn(data, name)
    ensures !Satisfied(KeyFlags(data, [name, name]), true)
    ensures Satisfied(KeyFlags(data, [name, name]), false)
  {
    var bs := KeyFlags(data, [name, name]);
    assert bs == [true, true];
    CountTrueStep(bs, 0);
    CountTrueStep(bs, 1);
    assert bs[..0] == [] && bs[..2] == bs;
  }

  // ---------------------------------------------------------------------------------------
  // Errors gathered from validators

  /** What getErrors() of one validator returns: the stored errors once it has validated. */
  ghost function ErrorsOf(v: Validator, fs: Paths): seq<string>
    reads v
  {
    if v.isValid.Some? then v.errors else v.Expected(fs).errors
  }

  /** The lists concatenated in order. */
  function Concat(ess: seq<seq<string>>): seq<string>
    decreases |ess|
  {
    if ess == [] then [] else Concat(ess[..|ess| - 1]) + ess[|ess| - 1]
  }

  /** Each validator's getErrors() result, one list per validator. */
  ghost function ErrorLists(vs: seq<Validator>, fs: Paths): (ess: seq<seq<string>>)
    reads set i | 0 <= i < |vs| :: vs[i]
    ensures |ess| == |vs|
    ensures forall i :: 0 <= i < |vs| ==> ess[i] == ErrorsOf(vs[i], fs)
  {
    seq(|vs|, i requires 0 <= i < |vs| reads set j | 0 <= j < |vs| :: vs[j] => ErrorsOf(vs[i], fs))
  }

  /** The errors of each validator in turn, concatenated. */
  ghost function Collected(vs: seq<Validator>, fs: Paths): seq<string>
    reads set i | 0 <= i < |vs| :: vs[i]
  {
    Concat(ErrorLists(vs, fs))
  }

  /** Concatenating one more list appends it. */
  lemma ConcatStep(ess: seq<seq<string>>, i: nat)
    requires i < |ess|
    ensures Concat(ess[..i + 1]) == Concat(ess[..i]) + ess[i]
  {
    assert ess[..i + 1][..i] == ess[..i];
  }

  /**
   * The loop shared by the getErrors of the three request classes: each validator's errors, in
   * order. Asking again gives the same lists, since a validator keeps the errors it computed.
   */
  method CollectErrors(vs: seq<Validator>, fs: Paths) returns (errors: seq<string>)
    modifies set i | 0 <= i < |vs| :: vs[i]
    ensures errors == old(Collected(vs, fs))
    ensures ErrorLists(vs, fs) == old(ErrorLists(vs, fs))
    ensures forall i :: 0 <= i < |vs| ==> vs[i].majorRules == old(vs[i].majorRules) && vs[i].rules == old(vs[i].rules)
  {
    ghost var lists := ErrorLists(vs, fs);
    errors := [];
    var i := 0;
    while i < |vs|
      invariant 0 <= i <= |vs|
      invariant forall j :: 0 <= j < |vs| ==> ErrorsOf(vs[j], fs) == lists[j]
      invariant forall j :: 0 <= j < |vs| ==> vs[j].majorRules == old(vs[j].majorRules) && vs[j].rules == old(vs[j].rules)
      invariant errors == Concat(lists[..i])
    {
      var es := vs[i].GetErrors(fs);
      ConcatStep(lists, i);
      errors := errors + es;
      i := i + 1;
    }
    assert lists[..i] == lists;
    assert ErrorLists(vs, fs) == lists;
  }

  /** A message is in the concatenation exactly when it is in one of the lists. */
  lemma {:induction false} ConcatMembers(ess: seq<seq<string>>)
    ensures forall m :: m in Concat(ess) <==> exists i :: 0 <= i < |ess| && m in ess[i]
    decreases |ess|
  {
    if ess != [] {
      var init := ess[..|ess| - 1];
      ConcatMembers(init);
      assert forall i :: 0 <= i < |init| ==> init[i] == ess[i];
    }
  }

  /** The concatenation is empty exactly when every list is. */
  lemma {:induction false} ConcatEmpty(ess: seq<seq<string>>)
    ensures Concat(ess) == [] <==> forall i :: 0 <= i < |ess| ==> ess[i] == []
    decreases |ess|
  {
    if ess != [] {
      var init := ess[..|ess| - 1];
      ConcatEmpty(init);
      assert forall i :: 0 <= i < |init| ==> init[i] == ess[i];
    }
  }

  /** A message is gathered exactly when some validator reports it. */
  lemma CollectedMembers(vs: seq<Validator>, fs: Paths)
    ensures forall m :: m in Collected(vs, fs) <==> exists i :: 0 <= i < |vs| && m in ErrorsOf(vs[i], fs)
  {
    ConcatMembers(ErrorLists(vs, fs));
  }

  /** Nothing is gathered exactly when no validator reports anything. */
  lemma CollectedEmpty(vs: seq<Validator>, fs: Paths)
    ensures Collected(vs, fs) == [] <==> forall i :: 0 <= i < |vs| ==> ErrorsOf(vs[i], fs) == []
  {
    ConcatEmpty(ErrorLists(vs, fs));
  }
}
