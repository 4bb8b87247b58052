/** The validate.clear example of src/validate.test.js: after a failing
    call the log holds an entry, and clear leaves it empty. */
module LogTests {
  import opened Input
  import opened Validate

  /** src/validate.test.js:178-183, with the failing calls of the earlier
      tests reduced to one. */
  method ClearEmptiesLog() returns (before: nat, after: map<string, string>)
    ensures before > 0
    ensures after == map[]
  {
    var validator := new Validator();
    var ok := validator.Email(Str(""));
    assert EmailKey in validator.log;
    before := |validator.log|;
    validator.Clear();
    after := validator.log;
  }

  /** Whatever the log held, a failing call leaves it non-empty and a clear
      empties it. */
  method FailureThenClear(validator: Validator, v: Value) returns (before: nat, after: map<string, string>)
    requires CheckText(v).Fail?
    modifies validator
    ensures before > 0
    ensures after == map[] && validator.log == map[]
  {
    var ok := validator.Mobile(v);
    assert MobileKey in validator.log;
    before := |validator.log|;
    validator.Clear();
    after := validator.log;
  }
}
