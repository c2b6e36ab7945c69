/**
 The rule the compose and edit units apply to a message before touching the
 store: `required|string|max:255` on the field `message`.
 */
module Validation {
  import opened Chirps

  const MaxMessageLength: nat := 255

  /** The name of the only validated field. */
  const MessageField: string := "message"

  /** The failing rule, reported as the framework keys it. */
  datatype Rule = Required | Max

  datatype FieldError = FieldError(field: string, rule: Rule)

  predicate ValidMessage(m: string) {
    0 < |m| <= MaxMessageLength
  }

  /**
   The first failing rule for `m`, if any. `required` is checked before `max`,
   and the two cannot fail together.
   */
  function ValidateMessage(m: string): (r: Option<FieldError>)
    ensures r.None? <==> ValidMessage(m)
    ensures r.Some? ==> r.value.field == MessageField
    ensures r.Some? ==> (r.value.rule == Required <==> |m| == 0)
    ensures r.Some? ==> (r.value.rule == Max <==> |m| > MaxMessageLength)
  {
    if |m| == 0 then Some(FieldError(MessageField, Required))
    else if |m| > MaxMessageLength then Some(FieldError(MessageField, Max))
    else None
  }

  /** The three messages the feature tests submit. */
  lemma ValidationExamples(long: string)
    requires |long| == 256
    ensures ValidateMessage("This is a message") == None
    ensures ValidateMessage("") == Some(FieldError(MessageField, Required))
    ensures ValidateMessage(long) == Some(FieldError(MessageField, Max))
  {
  }
}
