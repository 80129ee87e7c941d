/**
 * src/Abstract/RequestValidator.php: the older, abstract request validator. Its builder methods
 * do not register the validators they create; the subclass's rules() returns them instead, so
 * here the validators rules() returned are a parameter of getErrors, validate and requireOr.
 */
module AbstractRequests {
  import opened Wrappers
  import opened Php
  import opened Files
  import opened Dedup
  import opened Rules
  import opened Validators
  import opened RequestData

  class RequestValidator {
    /** The caller's data array, shared: checkEmpty writes null into it. */
    const dataRef: DataRef
    /** Every message recorded so far; getErrors appends to it on every call. */
    var errors: seq<string>

    constructor (dataRef: DataRef)
      ensures this.dataRef == dataRef && errors == []
    {
      this.dataRef := dataRef;
      errors := [];
    }

    /** getErrors over the validators rules() returned: appends their errors and deduplicates. */
    method GetErrors(validators: seq<Validator>, fs: Paths) returns (es: seq<string>)
      modifies this, set i | 0 <= i < |validators| :: validators[i]
      ensures errors == old(errors) + old(Collected(validators, fs))
      ensures es == Unique(errors)
      ensures ErrorLists(validators, fs) == old(ErrorLists(validators, fs))
    {
      var collected := CollectErrors(validators, fs);
      errors := errors + collected;
      es := Unique(errors);
    }

    /** validate: true exactly when nothing was recorded and no returned validator reports an error. */
    method Validate(validators: seq<Validator>, fs: Paths) returns (ok: bool)
      modifies this, set i | 0 <= i < |validators| :: validators[i]
      ensures errors == old(errors) + old(Collected(validators, fs))
      ensures ok <==> old(errors) == [] && forall i :: 0 <= i < |validators| ==> old(ErrorsOf(validators[i], fs)) == []
    {
      CollectedEmpty(validators, fs);
      var es := GetErrors(validators, fs);
      UniqueEmpty(errors);
      ok := es == [];
    }

    /**
     * requireOr over validators: records the message unless some validator holds a non-null
     * value, or, when exclusive, unless exactly one of them does.
     */
    method RequireOr(validators: seq<Validator>, message: string, exclusive: bool := false)
      modifies this
      ensures errors == old(errors) + (if Satisfied(ValueFlags(validators), exclusive) then [] else [message])
    {
      var valid := FlagLoop(ValueFlags(validators), exclusive);
      if !valid {
        errors := errors + [message];
      }
    }

    /** checkEmpty: reports a blank input and overwrites it with null in the shared data. */
    method CheckEmpty(name: string) returns (blank: bool)
      modifies dataRef
      ensures blank == Blank(old(dataRef.data), name)
      ensures dataRef.data == AfterCheck(old(dataRef.data), name)
    {
      blank := Blank(dataRef.data, name);
      if blank {
        dataRef.data := dataRef.data[name := Null];
      }
    }

    /** validateField: a new field validator over the normalised value; nothing is registered. */
    method ValidateField(name: string) returns (v: Validator)
      modifies dataRef
      ensures fresh(v) && v.Valid() && v.kind == FieldKind && v.added == []
      ensures v.attribute == Attribute(name, Normalised(old(dataRef.data), name))
      ensures v.errors == [] && v.isValid == None
      ensures dataRef.data == AfterCheck(old(dataRef.data), name)
    {
      var blank := CheckEmpty(name);
      var value := Null;
      if !blank {
        value := dataRef.data[name];
      }
      v := new Validator.Field(Attribute(name, value));
    }

    /** validateFile: a new file validator over the File built from the input, or its TypeError. */
    method ValidateFile(name: string, custom: Option<string> := None) returns (r: Result<Validator, FileError>)
      modifies dataRef
      ensures dataRef.data == AfterCheck(old(dataRef.data), name)
      ensures r.Err? <==> UploadedValue(old(dataRef.data), name).Err?
      ensures r.Err? ==> r.error == UploadedValue(old(dataRef.data), name).error
      ensures r.Ok? ==>
        var v := r.value;
        fresh(v) && v.Valid() && v.kind == FileKind &&
        v.attribute == Attribute(name, UploadedValue(old(dataRef.data), name).value) &&
        v.added == (if v.attribute.value != Null then [NewIsFile(custom)] else []) &&
        v.errors == [] && v.isValid == None
    {
      var blank := CheckEmpty(name);
      var value := Null;
      if !blank {
        var file := FromUpload(dataRef.data[name]);
        if file.Err? {
          return Err(file.error);
        }
        value := FileV(file.value);
      }
      var v := new Validator.File(Attribute(name, value), custom);
      r := Ok(v);
    }
  }

  /** Non-exclusive requireOr over validators is satisfied exactly when one of them holds a value. */
  lemma ValuesAtLeastOne(validators: seq<Validator>)
    ensures Satisfied(ValueFlags(validators), false) <==> exists i :: 0 <= i < |validators| && validators[i].GetValue() != Null
  {
    var bs := ValueFlags(validators);
    SatisfiedAtLeastOne(bs);
    if exists i :: 0 <= i < |validators| && validators[i].GetValue() != Null {
      var i :| 0 <= i < |validators| && validators[i].GetValue() != Null;
      assert bs[i];
    }
  }

  /** Exclusive requireOr over validators is satisfied exactly when one of them, and no other, holds a value. */
  lemma ValuesExactlyOne(validators: seq<Validator>)
    ensures Satisfied(ValueFlags(validators), true) <==>
      exists i :: 0 <= i < |validators| && validators[i].GetValue() != Null &&
        forall j :: 0 <= j < |validators| && j != i ==> validators[j].GetValue() == Null
  {
    var bs := ValueFlags(validators);
    SatisfiedExactlyOne(bs);
    if Satisfied(bs, true) {
      var i :| 0 <= i < |bs| && bs[i] && forall j :: 0 <= j < |bs| && j != i ==> !bs[j];
      assert forall j :: 0 <= j < |validators| && j != i ==> validators[j].GetValue() == Null;
    } else {
      forall i | 0 <= i < |validators| && validators[i].GetValue() != Null
        ensures exists j :: 0 <= j < |validators| && j != i && validators[j].GetValue() != Null
      {
        assert bs[i];
        var j :| 0 <= j < |bs| && j != i && bs[j];
      }
    }
  }
}
