/**
 Validation of one action input. The runner's raw value is a parameter here
 (the runner lookup itself is not modelled); the validator substitutes the
 default for an empty value and otherwise checks the value against the
 allowed list, when that list is non-empty.
 */
module ActionInput {
  import opened Wrappers
  import opened Data

  /** `value` passes the allowed list: the list is empty (no restriction) or names it. */
  predicate Allowed(value: string, restricted: seq<string>) {
    |restricted| == 0 || value in restricted
  }

  /**
   The value an input takes: the default when the raw value is empty and a
   default is given; otherwise the raw value, unless a non-empty allowed list
   does not contain it, which is an InvalidInput error naming the input and
   the rejected value. The default itself is never checked against the list.
   */
  function GetActionInput(name: string, raw: string, restricted: seq<string>, default: Option<string>): (r: Result<string, Error>)
    ensures raw == "" && default.Some? ==> r == Success(default.value)
    ensures r.Failure? <==> !(raw == "" && default.Some?) && !Allowed(raw, restricted)
    ensures r.Failure? ==> r.error == InvalidInput(name, raw)
    ensures r.Success? ==> (r.value == raw && Allowed(raw, restricted)) || (raw == "" && default == Some(r.value))
  {
    if raw == "" && default.Some? then
      Success(default.value)
    else if |restricted| > 0 && raw !in restricted then
      Failure(InvalidInput(name, raw))
    else
      Success(raw)
  }

  /**
   When the default (if any) passes the allowed list, every accepted value
   passes it too, and validating an accepted value again returns it unchanged.
   */
  lemma AcceptedValueIsStable(name: string, raw: string, restricted: seq<string>, default: Option<string>)
    requires default.Some? ==> Allowed(default.value, restricted)
    requires GetActionInput(name, raw, restricted, default).Success?
    ensures var v := GetActionInput(name, raw, restricted, default).value;
            Allowed(v, restricted) && GetActionInput(name, v, restricted, default) == Success(v)
  {
  }
}
