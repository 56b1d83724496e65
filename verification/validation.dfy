/** The input-validation endpoint: a message is rejected when it has no
    visible character and reported as too long when it exceeds the limit. */
module Validation {
  import opened Text
  import opened Schema

  /** The limit used when the request gives none, or gives 0. */
  const DEFAULT_MAX_LENGTH: int := 10000

  const EMPTY_ERROR: string := "Input cannot be empty"

  /** The response of the endpoint. */
  datatype Verdict =
    | Rejected(error: string)
    | Oversized(error: string, currentLength: nat, maxLength: int)
    | Accepted(messageLength: nat)

  /** `max_length or 10000`: an absent limit and a limit of 0 both mean
      10000; any other value, negative ones included, is used as it is. */
  function EffectiveMax(maxLength: Option<int>): (m: int)
    ensures m != 0
    ensures maxLength.Some? && maxLength.value != 0 ==> m == maxLength.value
    ensures maxLength.None? || maxLength.value == 0 ==> m == DEFAULT_MAX_LENGTH
  {
    match maxLength
    case Some(v) => if v != 0 then v else DEFAULT_MAX_LENGTH
    case None => DEFAULT_MAX_LENGTH
  }

  function OversizedError(max: int): string {
    "Input exceeds maximum length of " + IntToString(max) + " characters"
  }

  function Validate(message: string, maxLength: Option<int>): (v: Verdict)
    ensures v.Rejected? <==> Blank(message)
    ensures v.Rejected? ==> v.error == EMPTY_ERROR
    ensures v.Oversized? <==> !Blank(message) && |message| > EffectiveMax(maxLength)
    ensures v.Oversized? ==> v.currentLength == |message| && v.maxLength == EffectiveMax(maxLength)
                             && v.error == OversizedError(EffectiveMax(maxLength))
    ensures v.Accepted? ==> v.messageLength == |message| && |message| <= EffectiveMax(maxLength)
  {
    var max := EffectiveMax(maxLength);
    if Blank(message) then Rejected(EMPTY_ERROR)
    else if |message| > max then Oversized(OversizedError(max), |message|, max)
    else Accepted(|message|)
  }

  /** Raising the limit never turns an accepted message into a rejected one. */
  lemma AcceptedUnderLargerLimit(message: string, a: int, b: int)
    requires a != 0 && a <= b
    requires Validate(message, Some(a)).Accepted?
    ensures Validate(message, Some(b)) == Validate(message, Some(a))
  {
  }

  /** A negative limit makes every message with a visible character too long. */
  lemma NegativeLimitRejectsAll(message: string, limit: int)
    requires limit < 0 && !Blank(message)
    ensures Validate(message, Some(limit)).Oversized?
  {
  }

  /** Without a limit, a message of 10001 visible characters is too long and
      one of 10000 is accepted. */
  lemma DefaultLimitBoundary(message: string)
    requires !Blank(message)
    ensures |message| == 10001 ==> Validate(message, None) == Oversized(OversizedError(10000), 10001, 10000)
    ensures |message| == 10000 ==> Validate(message, None) == Accepted(10000)
  {
  }
}
