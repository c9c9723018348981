/** Results of the protocol steps (src/error.rs): a value, an identifiable abort naming parties,
    or one of the errors that name nobody
    (`BadSignature`: a zero component, refused by the signature type). */
module Outcomes {
  datatype Outcome<+T> =
    | Ok(value: T)
    | Abort(blamed: seq<nat>)
    | NotEnoughShares(got: nat, need: nat)
    | ZeroValue
    | InvalidParams
    | BadSignature
}
