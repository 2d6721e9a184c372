/** SASL mechanisms (`auth::sasl`): the mechanism names the servers accept
    and what one step of a mechanism can answer. */
module Sasl {
  import opened Wrappers
  import opened Text
  import opened Auth

  datatype MechanismKind = Plain

  /** `MechanismKind::from_str`: the name is matched after ASCII
      upper-casing, so `plain` and `PlAiN` name PLAIN too. */
  function ParseMechanism(s: string): Option<MechanismKind>
  {
    if Upper(s) == "PLAIN" then Some(Plain) else None
  }

  /** A name is accepted exactly when it spells PLAIN in any ASCII case. */
  lemma ParseMechanismCases(s: string)
    ensures ParseMechanism(s).Some? <==>
      |s| == 5 && forall i :: 0 <= i < 5 ==> UpperChar(s[i]) == "PLAIN"[i]
  {
    if |s| == 5 && forall i :: 0 <= i < 5 ==> UpperChar(s[i]) == "PLAIN"[i] {
      assert Upper(s) == "PLAIN";
    }
    if ParseMechanism(s).Some? {
      assert forall i :: 0 <= i < 5 ==> Upper(s)[i] == "PLAIN"[i];
    }
  }

  datatype Response = Success(identity: Identity) | Proceed(challenge: seq<byte>)

  datatype MechanismError = Validation(error: ValidationError) | Decode
}
