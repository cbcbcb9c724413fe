# Guillotine: probabilistic payment vouchers

A Dafny model of the part of Guillotine that decides whether a lottery voucher is paid: the chain
pallet that records randomness and judges claims, and the client code that schedules, packs and signs
the vouchers.

- `Arithmetic.dfy`, `Wrappers.dfy`: shared arithmetic and result types.
- `Bytes.dfy`: byte strings, little- and big-endian integers.
- `VoucherCodec.dfy`: the 192-byte voucher, read and written.
- `Lottery.dfy`: the 256-bit threshold and exact counting of the winning hashes.
- `Claiming.dfy`: the decision of one `claim` call.
- `Runs.dfy`: whole runs, that is any interleaving of block initialisations and claims from genesis.
- `Pallet.dfy`: the pallet as a class; its `Valid` ties storage to the run recorded so far, so the theorems
  about runs hold in every state the object reaches.
- `Redeeming.dfy`: the window of blocks in which a good voucher is accepted.
- `Packing.dfy`: the client's in-place packer and what the pallet reads from its result.
- `Numbers.dfy`, `Scheduling.dfy`: JavaScript numbers and the client's choice of oracle and redeem block.
- `ClientVouchers.dfy`: schedule, packer and pallet put together.

The Blake2-256 hash and signature verification are the two total functions of `Claiming.Crypto`; their
lengths (32-byte hash, 64-byte signature, 32-byte account) are in the types. The randomness source is a function
that comes with each block. Accounts are `AccountId32` and signatures are sr25519, as the runtime configures them,
so the fixed-size decodes in `parse` cannot run out of bytes. Block numbers are 32 bits: a run has at most
2^32 - 1 blocks (`Runs.Fits`).

Reaching the threshold division with difficulty 0 panics. The model reports `Panicked` and leaves the state as
it was, since a call that traps never becomes part of a block; runs without such attempts are a special case.

Where the code does not do what the repository's documentation says, the code is modelled:

- `README.md:43` says difficulty 1 always pays. The comparison is strict, so exactly one hash loses
  (`Lottery.DifficultyOne`).
- `README.md:58` puts the oracle block in the next era. The client takes the current era and a redeem delay of 2048 blocks, so
  a voucher that carries these numbers in the pallet's own layout has lost its randomness before redeeming opens
  (`Scheduling.ClientVoucherNeverAccepted`). The documented schedule opens a window only for some nonces
  (`Scheduling.DocumentedWindow`).
- What the client sends goes through its packer, and the pallet reads both block numbers byte-reversed. The window it
  then applies is open exactly at the heights given by `ClientVouchers.ReadsOpenWindow`: for keys and nonces of full size,
  every 256th block of the last two eras in each cycle of 64 (`ClientVouchers.ClientVoucherEverAccepted`,
  `ClientVouchers.FullSizeWindow`). Height 63488 is one of them (`ClientVouchers.WindowsCanDiffer`).
- `README.md:48` defines the session number as the XOR of the keys modulo 2^10. The code rounds both keys to doubles and keeps the
  sign of a 32-bit integer, and agrees with the definition exactly when neither matters
  (`Scheduling.SessionNumberAsDocumented`, `Scheduling.SessionNumberCanDiffer`).
- `README.md:56` states an XOR relation. `parseInt` rounds the nonce to a double, and the relation holds exactly when that
  rounding drops no set bit among the last ten (`Scheduling.RelationHoldsWhenNothingIsLost`).
- `README.md:34-41` fixes the layout and the signed bytes. The packer writes the numbers most significant byte first and signs
  192 bytes; the pallet reads them least significant byte first and verifies 128 (`Packing.NumbersAgree`). It accepts a packed
  voucher exactly under the conditions of `Packing.PackedAccepted`.

## Model

| member | source | states |
|---|---|---|
| VoucherCodec.ParseEncode | blockchain/pallets/probabilistic-payments/src/lib.rs:49-82 | Parsing an encoded voucher returns exactly that voucher, whatever bytes follow the 192. |
| VoucherCodec.EncodeParse | blockchain/pallets/probabilistic-payments/src/tests.rs:25-45 | Encoding what a string of at least 192 bytes parses to gives back its first 192 bytes; with the row above, parse is a bijection on 192-byte strings. |
| VoucherCodec.ParseFailsOnlyWhenShort | blockchain/pallets/probabilistic-payments/src/lib.rs:50-52 | Parsing fails if and only if fewer than 192 bytes are given, and then with code 0: codes 1 to 3 never occur. |
| VoucherCodec.ParsedFields | blockchain/pallets/probabilistic-payments/src/lib.rs:53-69 | Each field is the little-endian value or the raw bytes of its documented range. |
| VoucherCodec.ParseCanonical | blockchain/pallets/probabilistic-payments/src/lib.rs:49-82 | Two strings parse to the same voucher exactly when their first 192 bytes agree. |
| Lottery.WinCount | blockchain/pallets/probabilistic-payments/src/lib.rs:200-202 | Of the 2^256 possible hashes exactly floor((2^256 - 1) / difficulty) win, for every nonzero difficulty. |
| Lottery.WinProbability | README.md:43-45 | Under a uniform hash the chance to win lies in [1/d - 2^-256, 1/d). |
| Lottery.WinsAntitone | blockchain/pallets/probabilistic-payments/src/lib.rs:202 | A hash that wins at some difficulty wins at every lower one. |
| Lottery.DifficultyOne | README.md:43 | At difficulty 1 every hash wins except the all-ones one. |
| Lottery.DifficultyOneCanLose | README.md:43 | The concrete losing hash: the promise of certain payment is false. |
| Claiming.DifficultyOneClaim | README.md:43 | A claim at difficulty 1 that passes the checks before the draw fails with VoucherDidNotWin if and only if its draw hash is all ones, and is accepted otherwise. |
| Claiming.DecisionTable | blockchain/pallets/probabilistic-payments/src/lib.rs:179-207 | Every outcome, each error, the panic and acceptance, occurs if and only if its check, read off the raw bytes, is the first to fail; the only panic is a reached zero difficulty. |
| Claiming.TailIgnored | blockchain/pallets/probabilistic-payments/src/lib.rs:181-202 | Bytes after the 192nd never change the outcome of a claim. |
| Claiming.DrawInputCanonical | blockchain/pallets/probabilistic-payments/src/lib.rs:196-199 | Two hash inputs are equal exactly when the eight unsigned fields and the randomness are; signatures do not enter. |
| Pallet.ProbabilisticPayments.constructor | blockchain/pallets/probabilistic-payments/src/lib.rs:114 | Genesis: block 0, empty storage, no events and an empty log. |
| Pallet.ProbabilisticPayments.OnInitialize | blockchain/pallets/probabilistic-payments/src/lib.rs:142-155 | For every n: stores under n the randomness drawn on the four little-endian bytes of n followed by the eight literal bytes of the emoji, removes key n - 1024 when n exceeds 1024, and changes no other key. |
| Pallet.ProbabilisticPayments.InitializeBlock | blockchain/pallets/probabilistic-payments/src/lib.rs:142-152 | A block step advances the number, clears the block's events, runs the hook, and keeps storage equal to the execution of the recorded run. |
| Pallet.ProbabilisticPayments.Dispatch | blockchain/pallets/probabilistic-payments/src/lib.rs:175-208 | The imperative body with its in-place 160-byte buffer computes the specified outcome, appends its event and changes nothing else; all slices and copies are in bounds. |
| Pallet.ProbabilisticPayments.Claim | blockchain/pallets/probabilistic-payments/src/lib.rs:175-208 | From every reachable state a claim returns the outcome defined by the run so far and extends run and log accordingly. |
| Runs.TopicBytes | blockchain/pallets/probabilistic-payments/src/lib.rs:143-145 | Every topic has twelve bytes: the first four read as the block number, least significant first, the rest are F09F8EB2 F09F919B. |
| Runs.TopicsDiffer | blockchain/pallets/probabilistic-payments/src/lib.rs:143-146 | Different blocks ask for randomness under different topics. |
| Runs.RetentionInvariant | blockchain/pallets/probabilistic-payments/src/lib.rs:147-152 | After n blocks the stored keys are exactly max(1, n - 1023) to n, min(n, 1024) of them. |
| Runs.StoredAtInitialisation | blockchain/pallets/probabilistic-payments/src/lib.rs:146-147 | Each stored value is the one drawn by the initialisation of that very block. |
| Runs.PrunedRefinesFullLog | blockchain/pallets/probabilistic-payments/src/lib.rs:147-152 | In every reachable state a claim against the pruned storage has the same outcome as one against all randomness ever recorded plus an age test. |
| Runs.TraceSoundness | blockchain/pallets/probabilistic-payments/src/lib.rs:142-208 | In every run the log lists, in order, exactly the claims that earn their event by their bytes, signature, block number and the randomness drawn before them; none is unjustified and none missing. |
| Runs.JustifyingDraw | blockchain/pallets/probabilistic-payments/src/lib.rs:195-202 | The randomness a justified claim wins on was drawn, earlier in the run, by the initialisation of its oracle block. |
| Runs.DrawIsFixed | blockchain/pallets/probabilistic-payments/src/lib.rs:195-202 | From the initialisation of the oracle block on, one draw of the 128-byte prefix decides every call that carries it, at every later point: accepted only if it wins, VoucherDidNotWin only if it loses. |
| Runs.LifeOfVoucher | blockchain/pallets/probabilistic-payments/src/lib.rs:184-202 | The exact outcome of a signed voucher in its recipient's hands at every point from the initialisation of its oracle block: too soon, then one verdict, then too late. |
| Runs.VerdictPersists | blockchain/pallets/probabilistic-payments/src/lib.rs:195-202 | Any call whose draw was once reached, by whomever, keeps that verdict until oracle + 1023 and is too late from then on. |
| Runs.ExpiredForever | blockchain/pallets/probabilistic-payments/src/lib.rs:149-152 | A voucher whose oracle block left the window is never accepted again, and its randomness never returns. |
| Runs.ClaimInsertion | blockchain/pallets/probabilistic-payments/src/lib.rs:175-208 | Inserting or deleting a claim anywhere changes no block number, no storage and no other call's outcome, and only its own event in the log. |
| Runs.BlockOfClaims | blockchain/pallets/probabilistic-payments/src/lib.rs:175-208 | All claims of a block are judged as if each came first. |
| Runs.Replay | blockchain/pallets/probabilistic-payments/src/lib.rs:195-207 | No record of claimed vouchers is kept: k copies of an accepted claim log k copies of its event. |
| Runs.ClaimPermutation | blockchain/pallets/probabilistic-payments/src/lib.rs:175-208 | Reordering a block's claims keeps storage, later outcomes, the multiset of events and the total paid. |
| Runs.Conservation | blockchain/pallets/probabilistic-payments/src/lib.rs:204 | The values in the log add up to the value bytes of the justified vouchers. |
| Redeeming.RedeemWindow | blockchain/pallets/probabilistic-payments/src/lib.rs:185-202 | A properly signed voucher with a winning draw is accepted from its recipient if and only if oracle >= 1 and max(oracle, noRedeem) <= now <= oracle + 1023; otherwise it is too soon or too late. |
| Redeeming.SigningIsProper | blockchain/pallets/probabilistic-payments/src/tests.rs:43-45 | Signing the first 128 bytes and appending the signature gives a properly signed voucher that parses back. |
| Redeeming.WindowSize | blockchain/pallets/probabilistic-payments/src/lib.rs:185-195 | The number of accepting blocks, max(0, min(1024, oracle + 1024 - noRedeem)) away from the end of the 32-bit range. |
| Redeeming.Liveness | blockchain/pallets/probabilistic-payments/src/lib.rs:185-202 | Every long enough run passes through every reached block of the window, and the claim would be accepted there. |
| Packing.PackAndSignVoucher | guillotine-local-node/express/src/helpers/packAndSignVoucher.js:7-41 | The in-place buffer with its overlapping writes ends as the stated non-overlapping layout, its last 64 bytes the signature of its own first 128 followed by 64 zeros; any other scheme is refused. |
| Packing.SignedBytes | guillotine-local-node/express/src/helpers/packAndSignVoucher.js:37-38 | A packed voucher ends in the signature of its own first 128 bytes, nonce included, followed by 64 zeros. |
| Packing.PaddedHexIsBigEndian | guillotine-local-node/express/src/helpers/packAndSignVoucher.js:24-29 | Hexadecimal text padded with zeros and read in pairs is the number most significant byte first. |
| Packing.OverlappingWrites | guillotine-local-node/express/src/helpers/packAndSignVoucher.js:30-33 | The sender key covers the upper half of the 32-byte price-list hash and nothing else is lost. |
| Packing.ParsePacked | guillotine-local-node/express/src/helpers/packAndSignVoucher.js:23-40 | The pallet reads each number byte-reversed, the commitment as hash modulo 2^128, and keys, nonce and signature unchanged. |
| Packing.SwapTwice | guillotine-local-node/express/src/helpers/packAndSignVoucher.js:24-29 | Reversing a number's bytes twice restores it. |
| Packing.NumbersAgree | guillotine-local-node/express/src/helpers/packAndSignVoucher.js:24-29 | Client and pallet agree on a number if and only if its four bytes are a palindrome. |
| Packing.NumbersCanDisagree | guillotine-local-node/express/src/helpers/packAndSignVoucher.js:24-29 | Oracle block 1 is read as 16777216. |
| Packing.SwappedPackingIsEncoding | README.md:34-41 | With the numbers byte-reversed first, the packer writes the pallet's own layout and the intended voucher parses back. |
| Packing.PackedAccepted | blockchain/pallets/probabilistic-payments/src/lib.rs:179-207 | In every run and from every caller, a packed voucher is accepted if and only if the recipient claims it, the signature of the 192-byte message verifies for the first 128 bytes, the block lies in the window of the byte-reversed numbers, and the byte-reversed difficulty is nonzero and won. |
| Packing.PackedSignatureCheck | guillotine-local-node/express/src/helpers/packAndSignVoucher.js:37-38 | A packed voucher fails with InvalidVoucherSignature if and only if the recipient claims it, the redeem block the pallet reads is reached, and the signature of the 192-byte message does not verify for the first 128 bytes. |
| Packing.PackedNeverAccepted | guillotine-local-node/express/src/helpers/packAndSignVoucher.js:37-38 | If the signature does not verify for the first 128 bytes, the packed voucher is never accepted, in any run, from any caller. |
| Numbers.Round53IsNearest | guillotine-local-node/express/src/payments/payPaymentRequest.js:38 | The rounding `parseInt` applies is correct: no 53-bit number is nearer. |
| Numbers.Round53Representable | guillotine-local-node/express/src/payments/payPaymentRequest.js:38 | The rounded number has a 53-bit significand, the even one on a tie. |
| Scheduling.ScheduleOfAnySession | guillotine-local-node/express/src/payments/payPaymentRequest.js:36-39 | For every height, session number and nonce: the redeem block is two eras on at the same position in its era, and the oracle block's position is the XOR of the low ten bits of session number and rounded nonce. |
| Scheduling.CurrentEraWindow | guillotine-local-node/express/src/payments/payPaymentRequest.js:36-39 | For any offset, the client's schedule can be redeemed if and only if the offset is at least 1025 + currentBlock % 1024. |
| Scheduling.ClientWindowIsEmpty | guillotine-local-node/express/src/payments/payPaymentRequest.js:36-39 | With a session number of either sign below 1024 in size, the oracle block is in the current era (the one before if negative) and its window is empty. |
| Scheduling.ClientVoucherNeverAccepted | guillotine-local-node/express/src/payments/payPaymentRequest.js:36-39 | In every run a voucher from which the pallet reads that schedule, as one in its own layout, is never accepted, whoever claims it and whoever signed it. |
| Scheduling.DocumentedScheduleIsNextEra | README.md:56-60 | The documented schedule: oracle block at the offset in the next era, redeem block two eras on from the current one. |
| Scheduling.DocumentedWindow | README.md:58-60 | Under the documented next-era schedule the window has max(0, offset - currentBlock % 1024) blocks, and is nonempty if and only if the offset is larger. |
| Scheduling.OracleBlockOfResidue | README.md:56-58 | In exact arithmetic the nonce's residue determines a block of the era, is recovered from it, and satisfies the XOR relation. |
| Scheduling.ResidueOfOracleBlock | README.md:56-58 | Every block of the era comes from some residue, so the choice is a permutation of the era. |
| Scheduling.RelationHoldsWhenNothingIsLost | guillotine-local-node/express/src/payments/payPaymentRequest.js:38 | The documented XOR relation holds if and only if the nonce is a multiple of 2^min(10, bits beyond 53). |
| Scheduling.LargeNonceIsIgnored | guillotine-local-node/express/src/payments/payPaymentRequest.js:38 | From 2^63 up the offset is the session number alone, and the relation holds only for multiples of 1024. |
| Scheduling.RelationCanFail | README.md:56 | The nonce 2^63 + 1 breaks the documented relation. |
| Scheduling.SessionNumber | guillotine-local-node/express/src/forwardRequest.js:21 | For all key parts the session number is the XOR of the rounded parts modulo 1024, less 1024 when that is nonzero and the 32-bit signs differ. |
| Scheduling.SessionNumberAsDocumented | README.md:48 | It is the documented XOR modulo 2^10 if and only if rounding leaves that XOR unchanged and it is zero or the signs agree. |
| Scheduling.SessionNumberIsZero | guillotine-local-node/express/src/forwardRequest.js:21 | In particular, for key parts from 2^84 up it is 0, and equals the documented one only when the keys agree modulo 1024. |
| Scheduling.SessionNumberCanDiffer | README.md:48 | Two keys whose session number is not the documented one. |
| ClientVouchers.PackedEverAccepted | blockchain/pallets/probabilistic-payments/src/lib.rs:184-202 | With a good signature and draw, a long enough run passes a point where a packed voucher is accepted if and only if the window of its byte-reversed numbers is not empty. |
| ClientVouchers.BigEndianReads | guillotine-local-node/express/src/payments/payPaymentRequest.js:38 | Reading the big-endian bytes of a number gives the number. |
| ClientVouchers.BigEndianReadsHex | guillotine-local-node/express/src/payments/payPaymentRequest.js:38 | Reading padded hexadecimal text, as the nonce is, gives the number it spells. |
| ClientVouchers.KeyPartReads | guillotine-local-node/express/src/forwardRequest.js:21 | The key part is the number spelled by the last 30 bytes of the key, all of them. |
| ClientVouchers.ClientScheduleReads | guillotine-local-node/express/src/payments/payPaymentRequest.js:36-39 | The client's schedule is the one computed from the numbers that both keys and the nonce spell. |
| ClientVouchers.FullSizeKeyPart | guillotine-local-node/express/src/forwardRequest.js:21 | A key's leading bytes show whether its part is 2^84 or more: a nonzero byte among 2 to 20, or byte 21 at least 16. |
| ClientVouchers.FullSizeNonceNumber | guillotine-local-node/express/src/payments/payPaymentRequest.js:38 | A nonce's leading bytes show whether it is 2^63 or more: a nonzero byte among the first 24, or byte 24 at least 128. |
| ClientVouchers.VectorOracleBlock | blockchain/pallets/probabilistic-payments/src/tests.rs:80-88 | For keys and nonces that start as the test vector's, height 6568 gives oracle block 6144, the vector's 00001800, and redeem block 8616. |
| ClientVouchers.ClientOracleBlock | guillotine-local-node/express/src/payments/payPaymentRequest.js:36-39 | For keys and nonce of full size, as told by their leading bytes, the oracle block is the first of the current era, whatever the session and the url. |
| ClientVouchers.ReversedWindow | guillotine-local-node/express/src/payments/payPaymentRequest.js:36-52 | For every height and offset, the window of the byte-reversed schedule is open if and only if the offset's low byte exceeds the height's, or equals it and the second byte of the height is at least 248 (or below 4 with a negative offset). |
| ClientVouchers.FullSizeWindow | guillotine-local-node/express/src/payments/payPaymentRequest.js:36-52 | For keys and nonce of full size, as told by their leading bytes, that is every 256th block of the last two eras in each cycle of 64. |
| ClientVouchers.ClientVoucherEverAccepted | guillotine-local-node/express/src/payments/payPaymentRequest.js:36-52 | End to end: for all keys and nonces, a voucher the client schedules and packs, with a good signature and draw, is accepted somewhere in a long enough run if and only if it was made at such a height. |
| ClientVouchers.ClientVoucherRejected | guillotine-local-node/express/src/payments/payPaymentRequest.js:36-52 | Made at any other height it is never accepted, in any run, from any caller, whatever the signature and the draw. |
| ClientVouchers.WindowsCanDiffer | guillotine-local-node/express/src/helpers/packAndSignVoucher.js:24-29 | At height 63488 the client's numbers leave no window and the numbers the pallet reads leave one. |

## Left out

- Blake2-256, sr25519, collective-flip randomness and the limb arithmetic of U256: functions and natural numbers stand for them.
- Storage hashing of `RandomnessHistory` keys: the storage is a map.
- Dispatch weights, benchmarking, metadata and the chain node: no effect on what a claim decides.
- Payout of balances: the pallet only emits an event.
- `Vec` capacities in `on_initialize`: hints without effect.
- Packing.PackAndSignVoucher: fields are 32-bit numbers and 32-byte keys, as the layout demands; longer hexadecimal text would go through library code that is not part of this model. The hard-coded signing key is a parameter.
- Scheduling.PayPaymentRequest: `currentBlock` is a number; a string from the block service would concatenate instead of add. A missing or non-numeric session number is not modelled; `ClientVouchers` takes the formula of `forwardRequest.js:21`.
- The default session number of `payPaymentRequest.js:12` and the session code of the remote node: slices of hexadecimal text used as numbers, in unfinished code.
- HTTP servers, page fetching and session opening: network code that does not touch vouchers.
