/** Long-term key shares (src/protocol/dkg.rs, src/protocol/presign.rs): one committed key, one
    share per member. */
module Keys {
  import opened Field
  import opened Polynomials
  import opened Vss

  datatype KeyShare = KeyShare(index: nat, share: Scalar, com: Poly)

  /** All shares are on one commitment of the given length. */
  ghost predicate KeySet(keys: seq<KeyShare>, len: nat) {
    && keys != []
    && forall k :: 0 <= k < |keys| ==>
      keys[k].com == keys[0].com && |keys[k].com| == len && VerifyShare(keys[k].com, keys[k].index, keys[k].share)
  }

  /** The public key. */
  ghost function PublicKey(keys: seq<KeyShare>): Scalar
    requires keys != []
  {
    At(keys[0].com, 0)
  }

  /** Per-party arrays match the id list by position. */
  predicate Matches(ids: seq<nat>, keys: seq<KeyShare>) {
    |keys| == |ids| && forall k :: 0 <= k < |keys| ==> keys[k].index == ids[k]
  }

  method CheckInputs(ids: seq<nat>, keys: seq<KeyShare>) returns (ok: bool)
    ensures ok == Matches(ids, keys)
  {
    if |keys| != |ids| {
      return false;
    }
    for k := 0 to |ids|
      invariant forall i :: 0 <= i < k ==> keys[i].index == ids[i]
    {
      if keys[k].index != ids[k] {
        return false;
      }
    }
    return true;
  }
}
