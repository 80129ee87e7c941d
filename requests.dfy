/**
 * src/RequestValidator.php: the concrete request validator. It holds the request data by
 * reference, registers every validator its builder methods create, and gathers their errors,
 * together with the requireOr messages, into one deduplicated list.
 */
module Requests {
  import opened Wrappers
  import opened Php
  import opened Files
  import opened Dedup
  import opened Rules
  import opened Validators
  import opened RequestData

  class RequestValidator {
    /** The caller's data array, shared: checkEmpty writes null into it. */
    const dataRef: DataRef
    /** Every message recorded so far; getErrors appends to it on every call. */
    var errors: seq<string>
    /** The validators created by validateField, validateFile and validateArray, in order. */
    var validators: seq<Validator>

    constructor (dataRef: DataRef)
      ensures this.dataRef == dataRef && errors == [] && validators == []
    {
      this.dataRef := dataRef;
      errors := [];
      validators := [];
    }

    /** getValidators. */
    function GetValidators(): seq<Validator>
      reads this
    {
      validators
    }

    /**
     * getErrors: appends every validator's errors to the stored list and returns that list
     * without repetitions. The validators keep their errors, so what they report does not change.
     */
    method GetErrors(fs: Paths) returns (es: seq<string>)
      modifies this, set i | 0 <= i < |validators| :: validators[i]
      ensures validators == old(validators)
      ensures errors == old(errors) + old(Collected(validators, fs))
      ensures es == Unique(errors)
      ensures Collected(validators, fs) == old(Collected(validators, fs))
    {
      var collected := CollectErrors(validators, fs);
      errors := errors + collected;
      es := Unique(errors);
    }

    /** validate: true exactly when getErrors returns nothing, i.e. nothing was ever recorded. */
    method Validate(fs: Paths) returns (ok: bool)
      modifies this, set i | 0 <= i < |validators| :: validators[i]
      ensures validators == old(validators)
      ensures errors == old(errors) + old(Collected(validators, fs))
      ensures ok <==> errors == []
      ensures ok <==> old(errors) == [] && forall i :: 0 <= i < |validators| ==> old(ErrorsOf(validators[i], fs)) == []
    {
      CollectedEmpty(validators, fs);
      var es := GetErrors(fs);
      UniqueEmpty(errors);
      ok := es == [];
    }

    /**
     * requireOr: records the message unless one of the keys is set, or, when exclusive, unless
     * exactly one listed key is set.
     */
    method RequireOr(fields: seq<string>, message: string, exclusive: bool := false)
      modifies this
      ensures validators == old(validators)
      ensures errors == old(errors) + (if Satisfied(KeyFlags(dataRef.data, fields), exclusive) then [] else [message])
    {
      var valid := FlagLoop(KeyFlags(dataRef.data, fields), exclusive);
      if !valid {
        errors := errors + [message];
      }
    }

    /** checkEmpty: reports a blank input and overwrites it with null in the shared data. */
    method CheckEmpty(name: string) returns (blank: bool)
      modifies dataRef
      ensures blank == Blank(old(dataRef.data), name)
      ensures dataRef.data == AfterCheck(old(dataRef.data), name)
    {
      blank := Blank(dataRef.data, name);
      if blank {
        dataRef.data := dataRef.data[name := Null];
      }
    }

    /** validateField: a new field validator over the normalised value, registered last. */
    method ValidateField(name: string) returns (v: Validator)
      modifies this, dataRef
      ensures fresh(v) && v.Valid() && v.kind == FieldKind && v.added == []
      ensures v.attribute == Attribute(name, Normalised(old(dataRef.data), name))
      ensures v.errors == [] && v.isValid == None
      ensures dataRef.data == AfterCheck(old(dataRef.data), name)
      ensures validators == old(validators) + [v] && errors == old(errors)
    {
      var blank := CheckEmpty(name);
      var value := Null;
      if !blank {
        value := dataRef.data[name];
      }
      v := new Validator.Field(Attribute(name, value));
      validators := validators + [v];
    }

    /**
     * validateFile: a new file validator over the File built from the input, registered last. When
     * building the File raises a TypeError no validator is created, but the data was checked.
     */
    method ValidateFile(name: string, custom: Option<string> := None) returns (r: Result<Validator, FileError>)
      modifies this, dataRef
      ensures dataRef.data == AfterCheck(old(dataRef.data), name)
      ensures errors == old(errors)
      ensures r.Err? <==> UploadedValue(old(dataRef.data), name).Err?
      ensures r.Err? ==> r.error == UploadedValue(old(dataRef.data), name).error && validators == old(validators)
      ensures r.Ok? ==>
        var v := r.value;
        fresh(v) && v.Valid() && v.kind == FileKind &&
        v.attribute == Attribute(name, UploadedValue(old(dataRef.data), name).value) &&
        v.added == (if v.attribute.value != Null then [NewIsFile(custom)] else []) &&
        v.errors == [] && v.isValid == None && validators == old(validators) + [v]
    {
      var blank := CheckEmpty(name);
      var value := Null;
      if !blank {
        var file := FromUpload(dataRef.data[name]);
        if file.Err? {
          return Err(file.error);
        }
        value := FileV(file.value);
      }
      var v := new Validator.File(Attribute(name, value), custom);
      validators := validators + [v];
      r := Ok(v);
    }

    /** validateArray: a new array validator over the normalised value, registered last. */
    method ValidateArray(name: string, custom: Option<string> := None) returns (v: Validator)
      modifies this, dataRef
      ensures fresh(v) && v.Valid() && v.kind == ArrayKind
      ensures v.attribute == Attribute(name, Normalised(old(dataRef.data), name))
      ensures v.added == (if v.attribute.value != Null then [NewIsArray(custom)] else [])
      ensures v.errors == [] && v.isValid == None
      ensures dataRef.data == AfterCheck(old(dataRef.data), name)
      ensures validators == old(validators) + [v] && errors == old(errors)
    {
      var blank := CheckEmpty(name);
      var value := Null;
      if !blank {
        value := dataRef.data[name];
      }
      v := new Validator.Array(Attribute(name, value), custom);
      validators := validators + [v];
    }
  }

  /**
   * Calling getErrors a second time returns the same list: the stored errors grow by the same
   * messages again, and those are already present.
   */
  method GetErrorsTwice(rv: RequestValidator, fs: Paths) returns (first: seq<string>, second: seq<string>)
    modifies rv, set i | 0 <= i < |rv.validators| :: rv.validators[i]
    ensures first == second
  {
    first := rv.GetErrors(fs);
    ghost var stored := rv.errors;
    second := rv.GetErrors(fs);
    UniqueAppendKnown(stored, Collected(rv.validators, fs));
  }
}
