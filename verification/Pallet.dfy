/**
 The pallet as an object: its storage, the current block's events, and a ghost record of the run so
 far. `Valid` says the fields are what `Runs.Exec` computes for that run, so every theorem about
 runs is about every state the object can reach.
 */
module Pallet {
  import opened Wrappers
  import opened Bytes
  import opened VoucherCodec
  import opened Claiming
  import opened Runs

  class ProbabilisticPayments {
    const crypto: Crypto
    var blockNumber: U32
    var randomnessHistory: map<U32, H256>
    var events: seq<Event>
    ghost var log: seq<Event>
    ghost var run: seq<Action>

    ghost predicate Valid()
      reads this
    {
      Fits(run) && Exec(crypto, run) == State(blockNumber, randomnessHistory, events, log)
    }

    constructor (crypto: Crypto)
      ensures Valid() && run == [] && this.crypto == crypto
      ensures blockNumber == 0 && randomnessHistory == map[] && events == [] && log == []
    {
      this.crypto := crypto;
      blockNumber, randomnessHistory, events := 0, map[], [];
      log, run := [], [];
    }

    method OnInitialize(n: U32, flip: seq<Byte> -> H256)
      modifies this`randomnessHistory
      ensures randomnessHistory == Record(old(randomnessHistory), n, flip(Topic(n)))
      ensures n in randomnessHistory
      ensures randomnessHistory[n] == flip(ToLE(n, 4) + [0xF0, 0x9F, 0x8E, 0xB2, 0xF0, 0x9F, 0x91, 0x9B])
      ensures n > EPOCH_LENGTH ==> n - EPOCH_LENGTH !in randomnessHistory
      ensures forall k: U32 | k != n && !(n > EPOCH_LENGTH && k == n - EPOCH_LENGTH) ::
                Get(randomnessHistory, k) == old(Get(randomnessHistory, k))
    {
      var topic: seq<Byte> := [];
      topic := topic + ToLE(n, 4);
      topic := topic + TOPIC_SUFFIX;
      assert topic == Topic(n);
      var rand := flip(topic);
      randomnessHistory := randomnessHistory[n := rand];

      var expired := SaturatingSub(n, EPOCH_LENGTH);
      if expired > 0 {
        randomnessHistory := randomnessHistory - {expired};
      }
    }

    // The frame around a block: the number advances, the last block's events are dropped, the hook runs.
    method InitializeBlock(flip: seq<Byte> -> H256)
      requires Valid() && blockNumber < U32_MAX
      modifies this
      ensures Valid() && run == old(run) + [Block(flip)]
      ensures blockNumber == old(blockNumber) + 1
      ensures randomnessHistory == Record(old(randomnessHistory), blockNumber, flip(Topic(blockNumber)))
      ensures events == [] && log == old(log)
    {
      ExecBlock(crypto, run, flip);
      blockNumber := blockNumber + 1;
      events := [];
      OnInitialize(blockNumber, flip);
      run := run + [Block(flip)];
    }

    method Claim(origin: Origin, voucher: VoucherBytes) returns (r: Outcome)
      requires Valid()
      modifies this`events, this`log, this`run
      ensures Valid() && run == old(run) + [Action.Claim(Call(origin, voucher))]
      ensures r == OutcomeAfter(crypto, old(run), Call(origin, voucher))
      ensures events == old(events) + Emitted(r) && log == old(log) + Emitted(r)
    {
      r := Dispatch(origin, voucher);
      ghost var action := Action.Claim(Call(origin, voucher));
      RecordedSnoc(run, action);
      ExecSnoc(crypto, run, action);
      log := log + Emitted(r);
      run := run + [action];
    }

    // The body of the dispatchable: checks in order, then the event. The call's only effect is on `events`.
    method Dispatch(origin: Origin, voucher: VoucherBytes) returns (r: Outcome)
      modifies this`events
      ensures r == ClaimOutcome(crypto, blockNumber, randomnessHistory, Call(origin, voucher))
      ensures events == old(events) + Emitted(r)
    {
      if !origin.Signed? {
        return Failed(BadOrigin);
      }
      var who := origin.who;

      var parsed := Parse(voucher);
      if parsed.Failure? {
        return Failed(InvalidVoucher(parsed.error));
      }
      var v := parsed.value;

      if v.recipientPk != who {
        return Failed(InvalidRecipient);
      }
      if !(blockNumber >= v.noRedeemBeforeBlock) {
        return Failed(ClaimedTooSoonOrLate);
      }
      var unsignedVoucher := voucher[0..128];
      if !crypto.verify(unsignedVoucher, v.signature, v.senderPk) {
        return Failed(InvalidVoucherSignature);
      }

      if v.oracleBlock !in randomnessHistory {
        return Failed(ClaimedTooSoonOrLate);
      }
      var rand := randomnessHistory[v.oracleBlock];
      var input := new Byte[160](_ => 0);
      CopyInto(input, 0, unsignedVoucher);
      CopyInto(input, 128, rand);
      assert input[..] == DrawInput(voucher, rand);
      var hash := crypto.blake2(input[..]);

      if v.difficulty == 0 {
        return Panicked;
      }
      if !(FromLE(hash) < U256_MAX / v.difficulty) {
        return Failed(VoucherDidNotWin);
      }

      r := Accepted(VoucherClaimed(v.valueIfPaid, who));
      events := events + [r.event];
    }
  }
}
