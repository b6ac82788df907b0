/**
 * The collaborators the handlers call but whose code is not part of this
 * model: the four validators of the `validation` module and JavaScript's
 * `new Date(...)`. They are carried as function values, so every property of
 * the handlers holds for whatever these functions answer.
 */
module Validation {
  import opened Base
  import opened StudentSchema

  /** What a validator returns: `{ isValid, message }`. */
  datatype Check = Check(isValid: bool, message: string)

  datatype Env = Env(
    validateNameAndPhone: (Option<Text>, Option<Text>) -> Check,
    validateDob: Option<Text> -> Check,
    validateClass: Option<Text> -> Check,
    validateFeePaid: Option<bool> -> Check,
    toDate: Text -> Date)

  /**
   * One step of a handler's validation chain: the validator's answer and
   * whether the handler acts on it (an update only acts on the answers for
   * fields the body provides).
   */
  datatype Gate = Gate(guarded: bool, check: Check)

  predicate Rejects(g: Gate) {
    g.guarded && !g.check.isValid
  }

  /** Step `i` is the first one of the chain that rejects. */
  ghost predicate IsFirstRejection(gates: seq<Gate>, i: int) {
    && 0 <= i < |gates|
    && Rejects(gates[i])
    && forall j :: 0 <= j < i ==> !Rejects(gates[j])
  }

  /**
   * The message of the first step that rejects, which is the message a
   * short-circuiting chain reports; nothing when every step lets the input through.
   */
  function FirstRejection(gates: seq<Gate>): (r: Option<string>)
    ensures r.None? <==> forall i :: 0 <= i < |gates| ==> !Rejects(gates[i])
    ensures r.Some? ==> exists i :: IsFirstRejection(gates, i) && r.value == gates[i].check.message
  {
    if |gates| == 0 then None
    else if Rejects(gates[0]) then
      assert IsFirstRejection(gates, 0);
      Some(gates[0].check.message)
    else
      var rest := FirstRejection(gates[1..]);
      if rest.Some? then
        assert exists i :: IsFirstRejection(gates, i) && rest.value == gates[i].check.message by {
          var i :| IsFirstRejection(gates[1..], i) && rest.value == gates[1..][i].check.message;
          assert IsFirstRejection(gates, i + 1);
        }
        rest
      else
        assert forall i :: 1 <= i < |gates| ==> gates[i] == gates[1..][i - 1];
        rest
  }

  /** The first rejecting step is unique, so the reported message is determined. */
  lemma FirstRejectionAt(gates: seq<Gate>, i: int)
    requires IsFirstRejection(gates, i)
    ensures FirstRejection(gates) == Some(gates[i].check.message)
  {
  }
}
