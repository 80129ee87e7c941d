/**
 * src/Abstract/Request.php: a stateless request. The subclass's rules($data) returns the
 * validators, which are a parameter here; getErrors keeps nothing between calls.
 */
module Request {
  import opened Dedup
  import opened Rules
  import opened Validators
  import opened RequestData

  /** getErrors: the returned validators' errors in order, without repetitions. */
  method GetErrors(validators: seq<Validator>, fs: Paths) returns (es: seq<string>)
    modifies set i | 0 <= i < |validators| :: validators[i]
    ensures es == Unique(old(Collected(validators, fs)))
    ensures ErrorLists(validators, fs) == old(ErrorLists(validators, fs))
  {
    var errors := CollectErrors(validators, fs);
    es := Unique(errors);
  }

  /** validate: true exactly when no validator reports an error. */
  method Validate(validators: seq<Validator>, fs: Paths) returns (ok: bool)
    modifies set i | 0 <= i < |validators| :: validators[i]
    ensures ok <==> forall i :: 0 <= i < |validators| ==> old(ErrorsOf(validators[i], fs)) == []
  {
    CollectedEmpty(validators, fs);
    ghost var collected := Collected(validators, fs);
    var es := GetErrors(validators, fs);
    UniqueEmpty(collected);
    ok := es == [];
  }

  /**
   * The list getErrors returns holds each reported message once, and exactly the messages some
   * validator reports.
   */
  lemma ReportedErrors(validators: seq<Validator>, fs: Paths)
    ensures NoDuplicates(Unique(Collected(validators, fs)))
    ensures forall m :: m in Unique(Collected(validators, fs)) <==>
      exists i :: 0 <= i < |validators| && m in ErrorsOf(validators[i], fs)
  {
    UniqueNoDuplicates(Collected(validators, fs));
    UniqueSameElements(Collected(validators, fs));
    CollectedMembers(validators, fs);
  }
}
