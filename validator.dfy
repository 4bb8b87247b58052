/** The validate object: the four predicates and the diagnostic log they
    write to. A predicate's answer depends on its arguments alone; a failing
    call also records its reason in the log under the predicate's name, and
    Clear empties the log. */
module Validate {
  import opened Input
  import EmailRule
  import MobileRule
  import PasswordRule
  import StringRule

  const EmailKey := "email"
  const MobileKey := "mobile"
  const PasswordKey := "password"
  const StringKey := "string"

  class Validator {
    /** Predicate name to the reason of its last failure. */
    var log: map<string, string>

    constructor()
      ensures log == map[]
    {
      log := map[];
    }

    /** Answers r and, when r is a failure, logs its reason under field.
        What a success does to that key is left open. */
    method Record(field: string, r: Verdict) returns (ok: bool)
      modifies this
      ensures ok <==> r == Pass
      ensures !ok ==> log == old(log)[field := Message(field, r.reason)]
      ensures ok ==> log - {field} == old(log) - {field}
    {
      if r.Fail? {
        log := log[field := Message(field, r.reason)];
      }
      ok := r == Pass;
    }

    method Email(v: Value) returns (ok: bool)
      modifies this
      ensures ok <==> EmailRule.Email(v) == Pass
      ensures !ok ==> log == old(log)[EmailKey := Message(EmailKey, EmailRule.Email(v).reason)]
      ensures ok ==> log - {EmailKey} == old(log) - {EmailKey}
    {
      ok := Record(EmailKey, EmailRule.Email(v));
    }

    method Mobile(v: Value) returns (ok: bool)
      modifies this
      ensures ok <==> MobileRule.Mobile(v) == Pass
      ensures !ok ==> log == old(log)[MobileKey := Message(MobileKey, MobileRule.Mobile(v).reason)]
      ensures ok ==> log - {MobileKey} == old(log) - {MobileKey}
    {
      ok := Record(MobileKey, MobileRule.Mobile(v));
    }

    method Password(v: Value, minStrength: int) returns (ok: bool)
      modifies this
      ensures ok <==> PasswordRule.Password(v, minStrength) == Pass
      ensures !ok ==> log == old(log)[PasswordKey := Message(PasswordKey, PasswordRule.Password(v, minStrength).reason)]
      ensures ok ==> log - {PasswordKey} == old(log) - {PasswordKey}
    {
      ok := Record(PasswordKey, PasswordRule.Password(v, minStrength));
    }

    method String(v: Value, options: StringRule.Options) returns (ok: bool)
      modifies this
      ensures ok <==> StringRule.String(v, options) == Pass
      ensures !ok ==> log == old(log)[StringKey := Message(StringKey, StringRule.String(v, options).reason)]
      ensures ok ==> log - {StringKey} == old(log) - {StringKey}
    {
      ok := Record(StringKey, StringRule.String(v, options));
    }

    /** Removes every entry of the log. */
    method Clear()
      modifies this
      ensures log == map[]
    {
      log := map[];
    }
  }
}
