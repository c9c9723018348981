# Threshold ECDSA with packed presigning: a verified model

This project models the protocols of OHM-ECDSA: threshold ECDSA over a prime-order group with Shamir
sharing, Feldman commitments, Beaver triples and identifiable aborts, together with the echo broadcast,
the wire formats and the JSON codec around them. Every property below holds for all committees,
thresholds, inputs and adversarial messages that its lemma or contract admits.

`dafny verify dfyconfig.toml` checks the project.

## How the system is modelled

- Scalars are the integers modulo an arbitrary prime `Q` (`Field`). A point of the group is its discrete
  logarithm, so a Feldman commitment is its coefficient vector and share verification is equality with
  its evaluation (`Polynomials`, `Lagrange`, `Shamir`, `Vss`). Products and residues are kept abstract
  behind their ring laws.
- The hash is an arbitrary collision-free function, `F` (the x-coordinate of a point) an arbitrary
  function with `F(-R) = F(R)`, and the point encoding an arbitrary injective 33-byte code.
- Randomness is a parameter: dealt polynomials, nonces and masks are whatever the caller supplies. The
  places where the program offers a tamper hook take arbitrary values instead: a map from member to the
  value it broadcasts (`Broadcasts`), and arbitrary dealing messages (`Dkg`, `Triples`).
- The loops over vectors are methods with loops, proved against functions of the commitments
  (`Opening`, `Dkg`, `Triples`, `Presign`, `Sign`, `KiSigning`, `Refresh`). Records and nodes that are changed in
  place are classes: `KeyBinding.Holder`, `Acceptance.Acceptor`, `Mesh.Node` and `JsonParser.Parser`.
- The fault-free run is a function of what was dealt (`Presign.Ideal`, `Triples.Reduced`). The plain
  protocols equal it or abort; the robust ones equal it whatever the cheaters send.
- `KiSigning` covers key-independent records and their online signing for any assignment of triple positions.
- `EndToEnd` joins the phases: key generation, dealing, presigning, tweaks, signing, in base, robust,
  re-randomised, key-independent and packed mode, and after any chain of refreshes and re-sharings. Its
  `bad` parameter is the set of members that may misbehave: blame never leaves it.
- `EchoBroadcast` is a step system of honest nodes and a network that may deliver any authentic message
  to anybody in any order, any number of times. `Acceptance` states what an acceptor accepts as a
  property of the set of messages it received; `Mesh` is the receive path and the journal.
- `JsonStrings`, `JsonNumbers` and `JsonGrammar` define JSON texts as parse trees apart from the parser
  (`Json`, and as methods `JsonParser`), and `WireFormat` defines the wire bytes as field lists apart from
  the codec (`Wire`, `Framing`).
- `Restart` takes an attempt to be an arbitrary function of its number, its committee and the survivors'
  own state, which on abort names at least one member; `KeygenRestart` instantiates it with key generation.

## Model

| member | source | states |
|---|---|---|
| `Shamir.EvalAt` | src/primitives/shamir.rs:48-54 | the Horner loop returns the value of the polynomial at the point |
| `Lagrange.InterpolationExact` | src/primitives/shamir.rs:107-141 | weights at any point, over any distinct points (mod q), applied to the values of a polynomial with no more coefficients than points give its value at that point |
| `Shamir.InterpolateAt` | src/primitives/shamir.rs:133-141 | the loop computes the weighted sum that `Shamir.InterpolatedIs` shows to be the polynomial's value |
| `Shamir.InterpolatedIs` | src/primitives/shamir.rs:107-141 | interpolation is independent of which distinct points are used: it returns p(x) for every p of low enough degree |
| `Shamir.LagrangeCoeffsAt` | src/primitives/shamir.rs:107-125 | the double loop computes exactly the Lagrange weights at the given point |
| `Shamir.VanishingPoly` | src/primitives/shamir.rs:67-76 | the coefficient loop builds the product of (x + i) over the slots, as a function of every point |
| `Shamir.RandomPackedConst` | src/primitives/shamir.rs:64-91 | the result has t + B - 1 coefficients, equals value + vanishing(x) * r(x) everywhere, and is `value` at every slot point |
| `Lagrange.Recombine` | src/protocol/triples.rs:363-421 | if each dealer's commitment agrees at y with f at that dealer's id, the Lagrange-weighted sum of the commitments agrees at y with f at e: degree reduction and re-sharing are both instances |
| `Polynomials.AgreeSame` | src/primitives/shamir.rs:128-141 | two polynomials of one length that agree on that many distinct points are the same |
| `Secrecy.ShamirSecrecy` | src/primitives/shamir.rs:31-38 | for any t - 1 distinct party points and share values, every secret is explained by exactly one polynomial of length t |
| `Secrecy.PackedConstSecrecy` | src/primitives/shamir.rs:64-91 | for any t - 1 shares of a constant pack, every constant is explained by exactly one mask polynomial |
| `Secrecy.PackedVectorSecrecy` | src/protocol/dkg.rs:315-328 | for any t - 1 shares of a packed sharing, every vector of B slot values is explained by exactly one polynomial of degree t + B - 2 |
| `Vss.EvalAtPoint` | src/primitives/vss.rs:37-45 | the running-power loop evaluates the commitment at the point |
| `Vss.AddPoints` | src/primitives/vss.rs:56-67 | adding commitments of different lengths pads with zeros: the result evaluates to the sum everywhere |
| `Vss.HomomorphicShares` | src/primitives/vss.rs:56-81 | sum, scaling and constant shift of commitments act on evaluations as the same operation on values |
| `Opening.BlamedExactly` | src/primitives/open.rs:42-82 | the blame list holds the sender of every share off the committed polynomial and nobody else |
| `Opening.OpensToCommitted` | src/primitives/open.rs:42-118 | whichever t valid shares of distinct senders come first, interpolating them at any point gives the committed value |
| `Opening.Filter` | src/primitives/open.rs:42-82 | the sorting loop splits shares into the valid ones, in order, and the senders of the others |
| `Opening.OpenAt` | src/primitives/open.rs:42-82 | aborts naming every invalid sender, else fails below the quorum, else returns the committed value at the point |
| `Opening.OpenRobust` | src/primitives/open.rs:92-118 | drops invalid shares, fails below t valid ones, else returns the committed value at 0 with exactly the invalid senders |
| `Broadcasts.OpenRound` | src/primitives/open.rs:42-82 | an opening over members that may replace their shares depends only on the commitment and on who cheated |
| `Broadcasts.OpenRoundRobust` | src/primitives/open.rs:92-118 | the same for the robust opening, whose blame list is the cheaters |
| `Broadcasts.BlamedAreCheaters` | src/primitives/open.rs:42-118 | when everybody else sends its committed share, the blamed are those that replaced theirs by an invalid value |
| `Committees.New` | src/lib.rs:92-109 | succeeds exactly when t >= 1, n >= 2t - 1, no id is 0 and none repeats; the result is the same ids in increasing order |
| `Dkg.RevealUnique` | src/lib.rs:174-192 | a round-1 hash is opened by at most one reveal of the agreed shape, for a collision-free hash and self-delimiting point encodings |
| `Dkg.HashBinds` | src/lib.rs:174-192 | two round-1 hashes are equal only if session, tag, party and every commitment are, for sessions and tags of equal length and reveals of the agreed shape |
| `Dkg.CopiedRefused` | src/protocol/dkg.rs:423-442 | a dealer that publishes the hash of another party or another session cannot open it, whatever it reveals, and is itself blamed |
| `Sessions.RunSeparate` | src/protocol/presign.rs:213-246 | the six dealings of a run, each of one polynomial of t coefficients, are apart: a hash made for one of them, by anybody over anything, opens in no other, and its publisher is blamed |
| `Sessions.PackedSeparate` | src/protocol/presign.rs:818-862 | the same for the three dealings of a packed run: two of two packs and one of three |
| `Sessions.DomainsApart` | src/lib.rs:140-153 | texts hashed or signed under two different domain tags never coincide, whatever follows the tags |
| `Dkg.Finalize` | src/protocol/dkg.rs:402-471 | fails on missing messages exactly when some are missing, aborts naming the culprit of the first faulty dealer, else returns the joint commitment (a function of the reveals alone) with a share on it; it never succeeds over a dealer whose round-1 hash is another member's or another session's |
| `Dkg.ResolveComplaint` | src/protocol/dkg.rs:482-510 | blames the accuser when the dealer's defence verifies, and the dealer otherwise |
| `Dkg.HonestDealerNotBlamed` | src/protocol/dkg.rs:402-471 | a dealer that commits, reveals and defends one vector of polynomials is never the culprit, whatever happened to its shares |
| `Dkg.JointDeal` | src/protocol/triples.rs:73-203 | the session succeeds exactly when every member accepts every dealer; then each index has one commitment, the sum of the reveals, with every member's share on it |
| `Dkg.BlameIsEarned` | src/protocol/dkg.rs:402-510 | if everybody outside a set behaves and a private share is its sender's word, an abort of the session names one party, and it is in that set |
| `Dkg.HonestAccepted` | src/protocol/triples.rs:73-203 | with nobody misbehaving every member accepts |
| `Dleq.Completeness` | src/primitives/dleq.rs:51-82 | an honest proof verifies for every witness, base pair and nonce |
| `Dleq.TranscriptBinds` | src/primitives/dleq.rs:30-49 | the challenge is the digest modulo q of a text that determines the session, the tag, the statement and the commitment |
| `Dleq.RhoBinds` | src/primitives/dleq.rs:107-135 | a batch weight is the digest modulo q of a text that determines the session, the prover, every statement and proof of the batch, and the index |
| `Dleq.SpecialSoundness` | src/primitives/dleq.rs:70-82 | two accepting responses to different challenges for one commitment yield the common logarithm |
| `Dleq.FalseStatement` | src/primitives/dleq.rs:70-82 | for a false statement and fixed (t1, t2) at most one challenge has an accepting response |
| `Dleq.ProductRelation` | src/protocol/triples.rs:354-372 | for the statement of a re-sharing proof, a common logarithm means the committed product is the product of the two shares |
| `Dleq.VerifyBatch` | src/primitives/dleq.rs:107-151 | the two multi-scalar sums vanish exactly when the weighted sums of the individual misses do; unequal lengths are rejected |
| `Dleq.FallbackComplete` | src/primitives/dleq.rs:107-151 | a rejected batch holds a proof that `verify` rejects |
| `Dleq.SingleBadProofCaught` | src/primitives/dleq.rs:107-151 | one bad proof among good ones is always caught unless its weight is 0 |
| `Triples.Generate` | src/protocol/triples.rs:351-421 | succeeds exactly when every dealer passes the proof and share checks, otherwise names the first that does not; the triple is the one the commitments determine, every share is on it, and it multiplies at 0 |
| `Triples.ReducedMultiplies` | src/protocol/triples.rs:363-421 | recombining commitments that carry the product polynomial's values at the dealers gives alpha(e) * beta(e), whenever there are enough dealers for the product's degree |
| `Triples.GenerateRun` | src/protocol/triples.rs:295-421 | from the first dealing message: there is a triple exactly when both dealings are accepted and all re-sharings pass; an abort names misbehaving members only, and if nobody misbehaves there is a triple |
| `Triples.HonestDealerAccepted` | src/protocol/triples.rs:315-336 | an honest dealer's re-sharing passes the proof and share checks of everybody |
| `Triples.GenerateRobust` | src/protocol/triples.rs:457-614 | continues exactly while each dealer's proof passes and it has t valid shares; blames exactly the dealers with a bad share; the result is the fault-free triple without the blamed members' records |
| `Triples.BadSharersExactly` | src/protocol/triples.rs:500-614 | the robust blame list is the set of dealers with at least one bad re-shared share |
| `Triples.RobustRefinesPlain` | src/protocol/triples.rs:457-614 | commitments and surviving shares are those of the plain protocol on the untampered matrix, and no record of a fully honest dealer is lost |
| `Triples.GenerateRobustRun` | src/protocol/triples.rs:457-614 | the robust session from its first message: there is a triple exactly when both dealings are accepted and every dealer is continuable; aborts and blame name misbehaving members only |
| `Triples.GeneratePacked` | src/protocol/triples.rs:901-1047 | for n >= 2t + 2B - 3: succeeds exactly when each dealer passes the product, slot-binding and share checks; slot b's product commitment has length t + B - 1, equals alpha(e_b) * beta(e_b) at every slot point, and carries every member's share |
| `Triples.PackedTripleGood` | src/protocol/triples.rs:901-1047 | what the accepted re-sharings of a packed session commit to at each slot: the product of the operands there, at every slot point, with all shares committed |
| `Triples.GeneratePackedRun` | src/protocol/triples.rs:876-1047 | the packed session from its first message, with the same accountability as `Triples.GenerateRun` |
| `TriplesBatch.CheckBatchDealer` | src/protocol/triples.rs:719-794 | the aggregate check with its per-index fallback blames the dealer exactly when some check of some index fails |
| `TriplesBatch.RejectedAggregateFails` | src/protocol/triples.rs:719-794 | when the aggregate is rejected the fallback loop always finds the bad index, so it cannot run off its end |
| `TriplesBatch.GenerateBatch` | src/protocol/triples.rs:648-825 | every index of an accepted batch is a multiplicative triple with all shares on it; otherwise the first faulty dealer is named |
| `TriplesBatch.GenerateBatchRun` | src/protocol/triples.rs:648-825 | the batch session from its first message, with the same accountability |
| `Beaver.ProductValue` | src/protocol/presign.rs:252-283 | opening the two masks and combining them with a multiplicative triple commits to the product of the masked values at the opened point |
| `Beaver.MaskAt` | src/protocol/presign.rs:252-266 | the difference of two commitments commits to the difference of the values |
| `Beaver.ProductShareVerifies` | src/protocol/sign.rs:283-296 | every member's product share is on that commitment |
| `Ecdsa.VerifyIff` | src/runtime/sim.rs:402-420 | if s * k = m + r * x, the signature (r, s) verifies (section 4.1.4 of SEC 1) exactly when r and k are nonzero and r is the x-coordinate of k |
| `Ecdsa.NormalizeVerifies` | src/runtime/sim.rs:402-420 | low-s normalisation keeps validity both ways and gives a nonzero s in the lower half |
| `Sign.SignShareVerifies` | src/protocol/sign.rs:55-60 | the share of a good record is on m * A[u] + r * A[z] |
| `Sign.SignatureValid` | src/protocol/sign.rs:83-136 | if a record is bound to x at the point, the committed signature value verifies under x, normalised or not |
| `Sign.CombineAt` | src/protocol/sign.rs:83-92 | the outcome for any shares of distinct senders: abort naming every bad sender, too few, or the committed signature value at the point |
| `Sign.CombineVerified` | src/protocol/sign.rs:97-136 | the shared combination loop has that outcome for any signature commitment |
| `Sign.CombineRobust` | src/protocol/sign.rs:356-383 | bad shares are excluded and their senders returned; t good ones give the committed value |
| `Sign.SignableExactly` | src/runtime/sim.rs:402-420 | a record bound to x has nonzero r and signature value exactly when r and m + r * x are nonzero mod q |
| `Sign.RunSign` | src/runtime/sim.rs:402-445 | whatever values holders substitute, it aborts exactly when one lied and names the liars; otherwise a quorum gets a signature exactly when r and m + r * x are nonzero; it is (r, s) with s in the lower half, and it verifies under any key the records are bound to |
| `Sign.LiarsExactly` | src/runtime/sim.rs:402-420 | over honest records the blamed are the holders that broadcast something else, and there is blame exactly if one did |
| `Sign.RunSignRobust` | src/runtime/sim.rs:483-504 | fails exactly when fewer than t holders told the truth, names each liar once, and otherwise there is a signature exactly when r and m + r * x are nonzero; it is low-s and verifies |
| `KeyBinding.Holder.ApplyTweaks` | src/protocol/presign.rs:82-85 | any sequence of tweaks leaves the record of the model function, in place |
| `KeyBinding.TweaksKeep` | src/protocol/presign.rs:82-85 | after any tweaks the record is still good and bound to the key plus their sum, with u, R and r unchanged |
| `KeyBinding.ChildIs` | src/protocol/presign.rs:79-86 | the child key is the key plus the sum of the tweaks |
| `KeyBinding.TweakedSetSigns` | src/protocol/presign.rs:79-86 | so the holders' tweaked records are together a presignature of the child key |
| `KeyBinding.Holder.ApplyTweak` | src/protocol/presign.rs:82-85 | one tweak adds tau times the u-share and the u-commitment to the record in place |
| `KeyBinding.CombineRerand` | src/protocol/sign.rs:251-267 | re-randomised combination is ordinary combination of the tweaked record with nonce gamma * k |
| `KeyBinding.RerandIsTweakThenScale` | src/protocol/sign.rs:217-236 | a re-randomised share is the ordinary share of the record tweaked first and scaled after |
| `KeyBinding.RerandBinds` | src/protocol/sign.rs:191-267 | that record is good and bound to the child key for every nonzero gamma |
| `KiSigning.OpenMasks` | src/runtime/sim.rs:591-617 | the outcome of the two online openings in terms of what is broadcast |
| `KiSigning.RunSignKi` | src/runtime/sim.rs:568-641 | the outcome for any triple, whoever owns its positions, and any replaced values; a signature always verifies under the supplied key; if the triple agrees at every holder and the owner of its position, an abort names only those that replaced a value |
| `KiSigning.KiAlignment` | src/runtime/sim.rs:596-628 | a mask formed from another member's triple share verifies exactly when the operand polynomial takes the same value at both members |
| `KiSigning.HonestSession` | src/runtime/sim.rs:596-641 | when nobody replaces a value the session aborts exactly when an operand, or (with t holders, both openings passed and r nonzero) the product, differs between some holder and the owner of its position, and it blames exactly the holders at which it differs |
| `KiSigning.HonestNeverBlamed` | src/runtime/sim.rs:568-641 | whatever triple comes up honest holders are never blamed: exactly when t = 1 or every holder is the owner of its position modulo q |
| `KiSigning.SurvivorsBlamed` | src/runtime/sim.rs:596-641 | a whole session of holders 2 and 3 with t = 2 and a triple over 1, 2, 3 whose operand is the identity aborts and blames both honest holders |
| `KiSigning.ProductsBlamed` | src/runtime/sim.rs:618-641 | the same holders with constant operands: both openings pass and the combination blames honest holders |
| `Presign.WithCommittee` | src/protocol/presign.rs:203-372 | without cheaters the outcome is the fault-free one; an abort names cheaters only; a returned set of records is a presignature of the key: R = 1/u (never the identity), z = u * x, r nonzero, every share committed |
| `Presign.NonceExactly` | src/protocol/presign.rs:285-331 | the opened v is zero exactly when u * a is, and otherwise the nonce is the inverse of u |
| `Presign.IdealExactly` | src/protocol/presign.rs:203-372 | the fault-free outcome is a zero value exactly when u * a = 0 or the x-coordinate of 1/u is 0, and otherwise records numbered like the committee whose nonce is 1/u |
| `Presign.IdealIsPresignature` | src/protocol/presign.rs:203-372 | the fault-free records of any Beaver-consistent run are a presignature of the key at the opening point |
| `Presign.NoncePhase` | src/protocol/presign.rs:252-331 | R is the committed k at the point with r nonzero; v or r zero is reported as such; an abort names somebody that cheated in these rounds |
| `Presign.OpenV` | src/protocol/presign.rs:252-297 | v opens to its committed value exactly when nobody cheats in the three openings; an abort lists all cheaters of one of them |
| `Presign.NonceRound` | src/protocol/presign.rs:299-324 | the per-point check passes exactly when nobody cheats, and then the points interpolate to the committed nonce point; otherwise one cheater is named |
| `Presign.BindKey` | src/protocol/presign.rs:333-352 | both masks open to their committed values, or an abort names cheaters |
| `Presign.KeyIndependent` | src/protocol/presign.rs:397-534 | records with R = 1/u and every u-share committed, in which no key occurs; an abort names members that cheated in the rounds this protocol has |
| `PresignRobust.Expel` | src/protocol/presign.rs:140-147 | the blamed list gains exactly the caught, without repeats, and the active list loses exactly them, keeping its order |
| `PresignRobust.ActiveShares` | src/protocol/presign.rs:151-163 | the values of the active members, each taken from its own position |
| `PresignRobust.BooksPartition` | src/protocol/presign.rs:140-163 | blamed and active never overlap and together are the committee |
| `PresignRobust.WithCommittee` | src/protocol/presign.rs:576-738 | whatever is broadcast after dealing it never aborts; it runs out of shares only if fewer than t members never cheat; otherwise the records are the fault-free ones of exactly the members that never cheat, and exactly the others are blamed |
| `PresignRobust.FewCheaters` | src/protocol/presign.rs:576-738 | with at most n - t cheaters enough members are left, so too few shares cannot be reported |
| `PresignRobust.RobustIsPresignature` | src/protocol/presign.rs:576-738 | the survivors' records are a presignature of the key, held by unblamed members |
| `PresignPacked.CheckKeySlots` | src/protocol/presign.rs:862-880 | passes exactly when every dealer's key re-sharing is its weighted key share at every slot, else names the first dealer that fails |
| `PresignPacked.PackedKey` | src/protocol/presign.rs:862-880 | then the summed re-sharing has the secret key at every slot point |
| `PresignPacked.WithCommittee` | src/protocol/presign.rs:786-1058 | wrong parameters are rejected exactly when the code's guards say so; otherwise each slot's records are the fault-free presignature of the key at that slot point, or an abort names a faulty dealer or cheaters of a slot |
| `PresignPacked.SomeZeroMeans` | src/protocol/presign.rs:895-980 | a zero value is reported only if at some slot point u * a = 0 or the x-coordinate of 1/u is 0 |
| `PresignPacked.SlotNonce` | src/protocol/presign.rs:895-1058 | the records of a slot have the inverse of u's value at that slot point as their nonce |
| `EndToEnd.KeyGen` | src/runtime/sim.rs:45-68 | key generation succeeds exactly when the dealing session is accepted; all key shares are on one commitment, and the key is the joint commitment's constant |
| `EndToEnd.Deal` | src/protocol/presign.rs:203-250 | the dealing phases give multiplicative triples and committed sharings of u and a; aborts name misbehaving members only, and with none there is a result |
| `EndToEnd.SignWith` | src/runtime/sim.rs:402-420 | any distinct holders of a presignature, after any tweaks: what comes out verifies under the child key, and t truthful ones get a signature exactly when r and m + r * child are nonzero |
| `EndToEnd.SignersHold` | src/runtime/sim.rs:402-420 | any distinct holders of one presignature are together a presignature of the same key |
| `EndToEnd.BaseRun` | src/runtime/sim.rs:71-79 | from the first dealing message to the signature: it verifies under the tweaked key; aborts name misbehaving members only; if nobody misbehaves the outcome is a signature, v or r zero, or s zero, and which of them follows from the dealt reveals of u and a, the message and the child key |
| `EndToEnd.ExplainedSigns` | src/protocol/presign.rs:285-331 | with u and a the dealt reveals' joint values at 0: a run that did not abort reports a zero value exactly when u * a = 0 or F(1/u) = 0, and yields a signature exactly when neither is so and m + F(1/u) * key is nonzero |
| `EndToEnd.EpochRun` | src/runtime/sim.rs:365-390 | a base run after any chain of refreshes and re-sharings, with the same promises, under the key of the first epoch |
| `EndToEnd.RobustRun` | src/runtime/sim.rs:84-92 | from the first dealing message: dealing stops at a fault and names who caused it; after that at most n - t corrupt members cannot prevent a signature, which comes out exactly when the dealt u and a, the message and the key allow it; nobody else is ever named |
| `EndToEnd.RobustFrom` | src/protocol/presign.rs:626-738 | the part after dealing: too few shares are reported only if more than n - t members are corrupt |
| `EndToEnd.PackedDeal` | src/protocol/presign.rs:826-862 | the packed dealing phases give slot-wise multiplicative triples and committed packs of u, a and the key re-sharings, with fair blame |
| `EndToEnd.RerandRun` | src/runtime/sim.rs:522-551 | a re-randomised run returns the x-coordinate of gamma * R and a signature under the child key |
| `EndToEnd.KiRun` | src/runtime/sim.rs:568-641 | from the first dealing message, any committee presigning and signing with a triple that 1..n generates: the signature verifies under the supplied key, the outcome follows from the dealt reveals, and aborts name misbehaving members only if every holder is at its own position or t = 1 |
| `EndToEnd.KiDeal` | src/protocol/presign.rs:410-436 | the dealing phases of key-independent presigning, with fair blame |
| `EndToEnd.PackedRun` | src/runtime/sim.rs:428-454 | a packed run from its first message to a signature at any slot, by any members present: it verifies under the key, at least t + B - 1 present members are necessary, too few is reported only below that, and aborts name misbehaving members only |
| `Refresh.RefreshKeys` | src/protocol/refresh.rs:130-169 | succeeds exactly when the keys match, the session is accepted and every dealer committed to a zero constant; otherwise the first dealer that did not is named; the new shares are on one polynomial with the old key; aborts name misbehaving members only, and with none it succeeds |
| `Refresh.RefreshRenews` | src/protocol/refresh.rs:130-169 | a successful refresh moves every share and commitment by the joint zero polynomial of that session: a share stays as it was exactly where that polynomial is zero |
| `Refresh.JointZero` | src/protocol/refresh.rs:141-160 | zero constants sum to a joint sharing of zero, so the first assertion cannot fire |
| `Refresh.Reshare` | src/protocol/refresh.rs:224-358 | the new committee holds shares on one polynomial of the new length with the old key, each the weighted sum of checked sub-shares; an abort names who failed the first check, a misbehaving member, and with none it succeeds |
| `Refresh.ReshareMember` | src/protocol/refresh.rs:286-355 | one new member's loop: first failing check, or the recombined share and commitment |
| `Refresh.ReshareKeeps` | src/protocol/refresh.rs:300-346 | if every dealer's constant is its old share, the recombined commitment has the old key at 0, so the second assertion cannot fire |
| `Refresh.StepKeepsKey` | src/protocol/refresh.rs:130-358 | any successful refresh or re-sharing, described only by what was dealt, checked and summed, keeps the key |
| `Refresh.HistoryKeepsKey` | src/protocol/refresh.rs:130-358 | through any chain of such steps every epoch's shares are on one polynomial of its length with the first epoch's key at 0 |
| `Restart.RestartCommittee` | src/runtime/policy.rs:18-38 | returns the unblamed ids in order exactly when t >= 1 and at least 2t - 1 are left |
| `Restart.PoisonedSidsDiffer` | src/runtime/sim.rs:146-151 | attempts have pairwise different session ids, the first the caller's and all of them extensions of it |
| `Restart.SurvivorPositions` | src/runtime/sim.rs:155-165 | each survivor's position in the current list |
| `Restart.RunRenumbered` | src/runtime/sim.rs:175-283 | the loop ends; every expulsion is exactly the blame of one aborted attempt, run over the then survivors with their own generators and that attempt's session id, mapped back to original ids; the result is the last attempt's |
| `Restart.RunKeepingIds` | src/runtime/sim.rs:301-353 | the same with original ids and key shares; attempt k used presignature id first + k |
| `Restart.HistoryPartitions` | src/runtime/sim.rs:175-353 | at every point the current committee and everybody blamed so far partition the original ids |
| `Restart.CommitteesShrink` | src/runtime/sim.rs:175-353 | each restart shrinks the committee, which never drops below 2t - 1 |
| `Restart.NeverAborts` | src/runtime/sim.rs:175-283 | if attempts only ever blame members of a set of at most t - 1 and n >= 3t - 2, no abort reaches the caller; the blame list and the expelled stay inside that set |
| `Restart.OwnNeverAborts` | src/runtime/sim.rs:301-353 | the same for the loop that keeps ids |
| `KeygenRestart.KeygenWithRestart` | src/runtime/sim.rs:175-215 | the loop over key generation itself: with n >= 3t - 2 and at most t - 1 misbehaving parties, none of them silent, it ends with key shares on one commitment, and whoever was blamed misbehaved |
| `KeygenRestart.KeyGenAttempt` | src/runtime/sim.rs:45-68 | one attempt by the protocol has the result that the loop is proved for |
| `Restart.FinalPartition` | src/runtime/sim.rs:226-353 | the final blame list and the last committee's unblamed members partition the original ids |
| `Restart.LocalBlameIsRight` | src/runtime/sim.rs:204-206 | blame in an attempt's own numbering names the right parties exactly when everybody expelled earlier has a larger id than everybody named |
| `Restart.PropagatedAbort` | src/runtime/sim.rs:204-215 | so a propagated abort names whom the last attempt blamed exactly under that condition |
| `Restart.FirstAbortIsRight` | src/runtime/sim.rs:175-283 | if no attempt after the first aborts, a propagated abort is the first attempt's and names the right parties |
| `Restart.OwnPropagatedAbort` | src/runtime/sim.rs:301-353 | the loop that keeps ids always propagates the right parties |
| `Restart.WrongPartyNamed` | src/runtime/sim.rs:204-215 | and it fails for n = 2, t = 1 when each attempt blames its first member: the caller is told 1, the blamed party is 2 |
| `Acceptance.Acceptor.InsertCandidate` | node/src/net/transport.rs:126-148 | a candidate is added unless present, and a second one poisons the sender's session |
| `Acceptance.Acceptor.Process` | node/src/net/transport.rs:150-189 | after any message sequence the candidate maps and poison set are the ones the set of received messages determines |
| `Acceptance.SeenIs` | node/src/net/transport.rs:126-189 | a value counts as seen if a broadcast original or anybody's echo bears it |
| `Acceptance.Acceptor.BcastSet` | node/src/net/transport.rs:194-223 | returns exactly the values whose session, phase, round and sender are those asked for and that are accepted, and is complete exactly when no listed sender is missing |
| `Acceptance.Acceptor.FindAccepted` | node/src/net/transport.rs:194-223 | a value with the four fields asked for is found exactly when it is accepted: seen, t - 1 echoers other than the sender, and no two values of that sender and session that share phase and round |
| `Acceptance.Acceptor.P2pSet` | node/src/net/transport.rs:228-253 | the first private message of each sender, and complete exactly when all have one |
| `Acceptance.OnlyTheSetMatters` | node/src/net/transport.rs:126-222 | acceptance depends only on the set of received messages: order and repetition are irrelevant |
| `Acceptance.OneValue` | node/src/net/transport.rs:126-222 | an acceptor never has two accepted values for one slot |
| `Acceptance.NeverAnotherValue` | node/src/net/transport.rs:126-222 | as more arrives an accepted value stays or is withdrawn by equivocation for good; it is never replaced |
| `Mesh.Node.Handle` | node/src/net/mesh.rs:956-1018 | refused messages and private ones for others change nothing; the first value of a session, phase, round and sender is echoed once, journalled, looped back and delivered; everything else is only delivered |
| `Mesh.Node.Send` | node/src/net/mesh.rs:559-571 | every message sent is journalled under its session, before it is written |
| `Mesh.Node.RetireSession` | node/src/net/mesh.rs:416-427 | the journal keeps exactly the messages of sessions that do not start with the prefix, in order |
| `Mesh.Node.Resend` | node/src/net/mesh.rs:686-718 | re-delivery sends exactly the unretired messages, each session's in its original order |
| `Mesh.HandleIsStep` | node/src/net/mesh.rs:956-1018 | the receive path refines the steps of the echo-broadcast system |
| `Mesh.ReplayChangesNothing` | node/src/net/mesh.rs:686-718 | re-delivering received messages changes no acceptance |
| `EchoBroadcast.ReachableInv` | node/src/net/mesh.rs:956-1018 | in every reachable state honest nodes echoed at most one value per slot, acceptors hold authentic messages only, and own echoes are heard |
| `EchoBroadcast.Agreement` | node/src/net/transport.rs:19-30 | in every reachable state in which messages between honest nodes are delivered, two honest acceptors that accept values for a slot accept the same one |
| `EchoBroadcast.AgreeIffHeard` | node/src/net/transport.rs:4-27 | in any state, two accepted values of a slot agree exactly when the second node has received the first node's value |
| `EchoBroadcast.EarlyDisagreement` | node/src/net/transport.rs:19-27 | a run in which two honest nodes accept different values before their echoes cross |
| `EchoBroadcast.Validity` | node/src/net/transport.rs:26-27 | in a delivered state every honest acceptor accepts an honest sender's value exactly when there is a second node |
| `EchoBroadcast.RoundCompletes` | node/src/net/transport.rs:19-30 | in a delivered state of at least two nodes every honest acceptor accepts, for any session, phase and round, exactly what each honest sender signed for it, however many rounds it signed for |
| `EchoBroadcast.LoneBroadcast` | node/src/net/transport.rs:366-372 | the excluded input: a single node's own broadcast is never accepted |
| `Wire.TakeCommitment` | src/runtime/transport.rs:412-433 | the counting loop decodes what the recursive description of the format says, and fails on the same inputs |
| `Wire.CommitmentRoundTrip` | src/runtime/transport.rs:403-433 | decoding an encoding followed by anything returns the value and the encoding's length |
| `Wire.CommitmentCanonical` | src/runtime/transport.rs:412-433 | whatever decodes as a commitment is the encoding of what it decodes to |
| `Wire.NoCommitmentPrefix` | src/runtime/transport.rs:403-433 | no strict prefix of a commitment decodes |
| `Wire.MessageRoundTrip` | src/runtime/transport.rs:506-546 | round trip for the three dealing messages |
| `Wire.MessageCanonical` | src/runtime/transport.rs:506-546 | whatever decodes as a message is, byte for byte, the encoding of what it decodes to |
| `Wire.NoMessagePrefix` | src/runtime/transport.rs:506-546 | no strict prefix of a dealing message decodes |
| `Wire.EnvelopeRoundTrip` | src/runtime/transport.rs:548-610 | round trip for envelopes, with or without an addressee |
| `Wire.EnvelopeCanonical` | src/runtime/transport.rs:548-610 | canonicity for envelopes |
| `Wire.NoEnvelopePrefix` | src/runtime/transport.rs:548-610 | no strict prefix of an envelope decodes |
| `Wire.SignedRoundTrip` | src/runtime/transport.rs:612-632 | round trip for signed envelopes |
| `Wire.SignedCanonical` | src/runtime/transport.rs:612-632 | canonicity for signed envelopes |
| `Wire.NoSignedPrefix` | src/runtime/transport.rs:612-632 | no strict prefix of a signed envelope decodes |
| `Wire.SignaturesBind` | src/runtime/transport.rs:636-640 | the bytes signed determine the envelope, the bytes signed for an echo determine echoer and original, and no envelope signature is an echo signature |
| `WireFormat.MessageFormat` | node/src/net/wire.rs:174-193 | every wire message is its fields in order, read off the bytes without the codec: kind, session length and session, phase, round, sender, addressee, payload length and payload, signatures; numbers are eight bytes, most significant first |
| `WireFormat.DecodedFormat` | node/src/net/wire.rs:195-224 | and so is every byte string that decodes |
| `WireFormat.MessageLaid` | src/runtime/transport.rs:436-546 | the dealing messages: kind 1, 2 or 3, then sender and hash, commitment or share |
| `WireFormat.FrameFormat` | node/src/net/wire.rs:232-245 | a frame is the message's length in four bytes, most significant first, and the message |
| `WireFormat.SigningFormat` | src/runtime/transport.rs:636-640 | what a sender signs is the transport tag and the envelope's fields |
| `WireFormat.EchoFormat` | node/src/net/wire.rs:150-158 | what an echoer signs is the echo tag, its number, and the sender's envelope with its signature |
| `Framing.RoundTrip` | node/src/net/wire.rs:174-224 | round trip for originals and echoes |
| `Framing.Canonical` | node/src/net/wire.rs:195-224 | canonicity for originals and echoes |
| `Framing.NoPrefixDecodes` | node/src/net/wire.rs:174-224 | no strict prefix of an encoding decodes |
| `Framing.EncodeInjective` | node/src/net/wire.rs:174-193 | different messages have different encodings |
| `Framing.ReadBack` | node/src/net/wire.rs:232-281 | a frame followed by anything reads back as its message, leaving the rest |
| `Framing.ReadCanonical` | node/src/net/wire.rs:255-281 | a frame that is read is the frame of the message returned, within the limit |
| `Framing.ReadAll` | node/src/net/wire.rs:255-281 | reading until it stops consumes a sequence of frames, and the rest is empty or not a frame |
| `Framing.ReadsBackInOrder` | node/src/net/wire.rs:232-281 | so a concatenation of sendable frames reads back in order and completely |
| `Framing.Caps` | node/src/net/wire.rs:54-86 | the frame cap is 40n + 392 bytes, or all that four bytes can say; the cap for one message is 256 bytes for an original and 328 for an echo, plus 64, or 40n + 64 for a reveal |
| `Framing.LegitimateFits` | node/src/net/wire.rs:54-86 | a message with a sid of at most 128 bytes and at most n commitment points fits its variant's limit and the frame limit |
| `JsonGrammar.ParseIff` | demo-evm/src/json.rs:158-177 | the parser accepts a text, with a value, exactly when the text is a parse tree of the grammar between white space, nested at most 64 deep, that denotes the value; it then consumes everything |
| `JsonGrammar.ValueReads` | demo-evm/src/json.rs:196-229 | every tree of the grammar, wherever it stands, is read to its end, with its value; white space (bytes 32, 9, 10, 13) may stand around every element, key, colon and value |
| `JsonGrammar.ValueOnly` | demo-evm/src/json.rs:196-229 | whatever is read as a value is the text of a tree with that value, nested no deeper than allowed |
| `JsonStrings.LiteralReads` | demo-evm/src/json.rs:302-336 | every literal, plain characters, letter escapes, four-digit escapes and surrogate pairs, is read as the UTF-8 form of the code points it denotes |
| `JsonStrings.LiteralOnly` | demo-evm/src/json.rs:302-336 | nothing else is read as a literal; in particular no control character, no lone surrogate and no malformed UTF-8 |
| `JsonStrings.WideCharIs` | demo-evm/src/json.rs:320-334 | the byte tests for multi-byte characters accept exactly the UTF-8 forms of the code points from 128 on, surrogates excluded, and the first byte gives the length |
| `JsonStrings.Utf8Iff` | demo-evm/src/json.rs:302-371 | the strings a parser can return are exactly the proper UTF-8 strings |
| `JsonStrings.CharEncodes` | demo-evm/src/json.rs:338-371 | the bytes appended for an escape decode, by their bits, to its code point |
| `JsonNumbers.NumReads` | demo-evm/src/json.rs:242-300 | every number of the grammar is read: without fraction and exponent to its 128-bit integer, otherwise to its text |
| `JsonNumbers.NumOnly` | demo-evm/src/json.rs:242-300 | nothing else is read as a number: no leading zeros, no bare point or exponent mark, no integer beyond 128 bits |
| `JsonGrammar.ValueWritten` | demo-evm/src/json.rs:41-131 | every writable value is written as a tree of the grammar that denotes it, without white space, with the mandatory escapes only and in their short or lower-case form |
| `JsonGrammar.ParseWritten` | demo-evm/src/json.rs:41-177 | for every value without floats, with 128-bit integers, valid UTF-8 and depth at most 64, parsing what was written gives the value back, with any white space around it |
| `JsonGrammar.SpacingIgnored` | demo-evm/src/json.rs:190-229 | and so does any text from which removing the white space between tokens leaves what was written |
| `JsonGrammar.FractionAccepted` | demo-evm/src/json.rs:6-8 | a fraction is read, as a float, although the module's description says that it is rejected |
| `JsonGrammar.IntegerIff` | demo-evm/src/json.rs:242-300 | a number is read as an integer exactly when it has neither fraction nor exponent, and as a float otherwise |
| `JsonParser.AppendStr` | demo-evm/src/json.rs:115-131 | the escaping loop appends the written form of the string |
| `JsonParser.Append` | demo-evm/src/json.rs:41-71 | the writer appends the written form of the value |
| `JsonParser.Parser.ParseNext` | demo-evm/src/json.rs:196-229 | the recursive-descent method, its position and depth fields included, computes the specified parse, and restores the depth |
| `JsonParser.Parser.Number` | demo-evm/src/json.rs:242-300 | the number scanner computes the specified parse |
| `JsonParser.Parser.String` | demo-evm/src/json.rs:302-336 | the string loop computes the specified parse |
| `JsonParser.Parser.Escape` | demo-evm/src/json.rs:338-371 | escapes with surrogate pairs are computed as specified |
| `JsonParser.Parser.FourHex` | demo-evm/src/json.rs:373-390 | the four-digit loop computes the specified parse |
| `JsonParser.Parser.Items` | demo-evm/src/json.rs:392-416 | the array loop computes the specified parse |
| `JsonParser.Parser.Pairs` | demo-evm/src/json.rs:418-464 | the object loop computes the specified parse |
| `JsonParser.ParseText` | demo-evm/src/json.rs:158-177 | the whole parser: it returns a value exactly when the text denotes it in the grammar, and computes the specified error otherwise |

## Findings

Properties that the code does not have in general. Each has an input for which it fails and the exact
condition under which it holds.

| where | as written | input | intended, and when it holds |
|---|---|---|---|
| src/runtime/sim.rs:204-215 | `run_keygen_with_restart` and `run_triples_with_restart` propagate a refused abort in the attempt's own numbering | n = 2, t = 1, each attempt blames its first member: the caller is told 1, the blamed party is 2 (`Restart.WrongPartyNamed`, `Restart.WrongAbort`). The adversary has to act in the retry too; the fault-injection hooks reach the first attempt only | a propagated abort names the parties to blame, as the returned blame list does; it does exactly when everybody expelled in an earlier attempt has a larger id than everybody named (`Restart.LocalBlameIsRight`, `Restart.PropagatedAbort`), so always if no attempt after the first aborts (`Restart.FirstAbortIsRight`), and always in `run_presign_with_restart`, which keeps original ids (`Restart.OwnPropagatedAbort`) |
| node/src/net/transport.rs:19-25 | an acceptor reports a value before a conflicting echo arrives | t = 2, three nodes, sender 1 corrupt, before the echoes of nodes 2 and 3 cross (`EchoBroadcast.EarlyDisagreement`) | two honest acceptors never accept different values for a slot; they agree exactly when the second node has received the first node's value (`EchoBroadcast.AgreeIffHeard`), which is so in every delivered state (`EchoBroadcast.Agreement`) |
| node/src/net/transport.rs:26-27 | a sender hears its own broadcast only through its peers | a committee of one node (`EchoBroadcast.LoneBroadcast`) | an honest sender's value is accepted by every honest acceptor once everything is delivered; exactly when there is a second node (`EchoBroadcast.Validity`) |
| src/runtime/sim.rs:596-641 | the online triple over 1..n is used by position | t = 2, holders 2 and 3 with a triple over 1, 2, 3: with the identity as operand both openings fail and both holders are blamed (`KiSigning.SurvivorsBlamed`); with constant operands the openings pass and the combination blames honest holders (`KiSigning.ProductsBlamed`); nobody cheats in either | key-independent signing blames no honest holder, whatever triple comes up: exactly when t = 1 or each `presigs[k].index` is k + 1 modulo q (`KiSigning.HonestNeverBlamed`); for a given triple, `KiSigning.HonestSession` says exactly whom it blames |
| demo-evm/src/json.rs:6-8 | the module is described as reading integers only, fractions and exponents rejected | the text `1.5` is read as a float (`JsonGrammar.FractionAccepted`) | a number that is read is an integer; exactly when its text has neither fraction nor exponent (`JsonGrammar.IntegerIff`) |

## Left out

- Elliptic-curve arithmetic, SEC 1 point decompression, SHA-256 and ECDSA signing of envelopes: points are logarithms, the hash is an arbitrary collision-free function, and a signature check is a parameter.
- Ids and packing positions are smaller than the group order, as they are for every real committee; the code compares machine integers.
- Committees.New: takes ids below the group order, because the model evaluates polynomials at them.
- Triples.Generate: takes the product relation from an accepted proof (and re-sharing commitments of t points, or t + B - 1 when packed, which the dealing code produces and the receiving code does not check) as given; the algebra that justifies the former is in Dleq.
- TriplesBatch.GenerateBatch: takes the product relation of a row from an accepted aggregate in the same way.
- Sign.CombineAt: takes a list whose first t valid shares have distinct senders, when it gets as far as interpolating; the interpolation of the code panics on repeated ids.
- Dkg.BlameIsEarned: takes a private share to be its sender's word, as signed envelopes make it; without that a dealer can send one share, defend another and have the receiver blamed.
- Restart.RunRenumbered: attempts are an arbitrary function and an abort names at least one member of its attempt; KeygenRestart puts key generation in its place, the other loops stay general.
- EchoBroadcast.Agreement: assumes that no mailbox overflows; authentic messages are those an honest node signed or any a corrupt node signs.
- Probabilistic claims: acceptance of a batch implies all proofs (its converse is Dleq.FallbackComplete), Fiat-Shamir soundness, the distribution of shares beyond exact counting, and the retry loop of `rerand_gamma` (gamma is taken to be nonzero).
- JsonGrammar.ParseWritten: floats are kept as the text of their number, because printing them does not round-trip by design.
- JsonParser.Parser.String: the opening quote is consumed inside `debug_assert_eq!` (demo-evm/src/json.rs:303); the model follows the build with debug assertions, in which it is consumed.
- KeyBinding.Holder.ApplyTweak: a holder owns a record value; zeroisation on drop is not modelled.
- `presign_batch_with_committee` repeats the base protocol per index over batched triples.
- `BlameToken`, the signed driver, the presignature and key-independent stores, and the second acceptor with memory caps in the party runtime.
- Sockets, TLS, threads, timeouts, rate limits, reconnection back-off, metrics, the command line, the drivers, the wasm wrapper, RLP, hex and EIP-1559 assembly.
