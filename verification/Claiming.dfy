/**
 The decision `claim` takes, as a function of the caller, the voucher, the block number and the
 stored randomness. The hash and the signature check are parameters.
 */
module Claiming {
  import opened Wrappers
  import opened Bytes
  import opened VoucherCodec
  import Lottery

  datatype Crypto = Crypto(
    blake2: seq<Byte> -> H256,
    verify: (seq<Byte>, Signature, AccountId) -> bool)

  datatype Origin = Signed(who: AccountId) | Unsigned | Root

  datatype Event = VoucherClaimed(value: U32, who: AccountId)

  datatype Error =
    | BadOrigin
    | InvalidVoucher(code: Byte)
    | InvalidRecipient
    | InvalidVoucherSignature
    | ClaimedTooSoonOrLate
    | VoucherDidNotWin

  // `Panicked`: the division by a zero difficulty aborts the call.
  datatype Outcome = Accepted(event: Event) | Failed(error: Error) | Panicked

  datatype Call = Call(origin: Origin, voucher: VoucherBytes)

  function Get(history: map<U32, H256>, block: U32): Option<H256> {
    if block in history then Some(history[block]) else None
  }

  function DrawInput(voucher: seq<Byte>, rand: H256): (input: seq<Byte>)
    requires |voucher| >= SIGNED_LENGTH
    ensures |input| == 160
  {
    voucher[..SIGNED_LENGTH] + rand
  }

  // The checks after parsing, in code order.
  function Judge(c: Crypto, now: U32, who: AccountId, voucher: seq<Byte>, v: Voucher, rand: Option<H256>): Outcome
    requires |voucher| >= SIGNED_LENGTH
  {
    if v.recipientPk != who then Failed(InvalidRecipient)
    else if now < v.noRedeemBeforeBlock then Failed(ClaimedTooSoonOrLate)
    else if !c.verify(voucher[..SIGNED_LENGTH], v.signature, v.senderPk) then Failed(InvalidVoucherSignature)
    else if rand.None? then Failed(ClaimedTooSoonOrLate)
    else if v.difficulty == 0 then Panicked
    else if !Lottery.Wins(c.blake2(DrawInput(voucher, rand.value)), v.difficulty) then Failed(VoucherDidNotWin)
    else Accepted(VoucherClaimed(v.valueIfPaid, who))
  }

  lemma JudgeAccepts(c: Crypto, now: U32, who: AccountId, voucher: seq<Byte>, v: Voucher, rand: Option<H256>)
    requires |voucher| >= SIGNED_LENGTH
    ensures Judge(c, now, who, voucher, v, rand).Accepted?
       <==> && v.recipientPk == who
            && v.noRedeemBeforeBlock <= now
            && c.verify(voucher[..SIGNED_LENGTH], v.signature, v.senderPk)
            && rand.Some?
            && v.difficulty > 0
            && Lottery.Wins(c.blake2(DrawInput(voucher, rand.value)), v.difficulty)
  {
  }

  function ClaimOutcome(c: Crypto, now: U32, history: map<U32, H256>, call: Call): Outcome {
    if !call.origin.Signed? then Failed(BadOrigin)
    else match Parse(call.voucher)
      case Failure(code) => Failed(InvalidVoucher(code))
      case Success(v) => Judge(c, now, call.origin.who, call.voucher, v, Get(history, v.oracleBlock))
  }

  // The voucher's fields as byte ranges.
  function OracleBlockOf(b: seq<Byte>): U32
    requires |b| >= VOUCHER_LENGTH
  {
    U32FromLE(b[0..4])
  }

  function DifficultyOf(b: seq<Byte>): U32
    requires |b| >= VOUCHER_LENGTH
  {
    U32FromLE(b[4..8])
  }

  function NoRedeemBeforeOf(b: seq<Byte>): U32
    requires |b| >= VOUCHER_LENGTH
  {
    U32FromLE(b[8..12])
  }

  function ValueIfPaidOf(b: seq<Byte>): U32
    requires |b| >= VOUCHER_LENGTH
  {
    U32FromLE(b[12..16])
  }

  // `Passes(..., k)`: the first k of the eight checks hold, each read off the bytes.
  ghost predicate Passes(c: Crypto, now: U32, history: map<U32, H256>, call: Call, k: nat) {
    var b := call.voucher;
    && (k >= 1 ==> call.origin.Signed?)
    && (k >= 2 ==> |b| >= VOUCHER_LENGTH)
    && (k >= 3 ==> b[64..96] == call.origin.who)
    && (k >= 4 ==> NoRedeemBeforeOf(b) <= now)
    && (k >= 5 ==> c.verify(b[..128], b[128..192], b[32..64]))
    && (k >= 6 ==> OracleBlockOf(b) in history)
    && (k >= 7 ==> DifficultyOf(b) > 0)
    && (k >= 8 ==> FromLE(c.blake2(b[..128] + history[OracleBlockOf(b)])) < U256_MAX / DifficultyOf(b))
  }

  // Each outcome occurs exactly when the check it belongs to is the first to fail.
  lemma DecisionTable(c: Crypto, now: U32, history: map<U32, H256>, call: Call)
    ensures var r := ClaimOutcome(c, now, history, call);
            var P := (k: nat) => Passes(c, now, history, call, k);
            && (r == Failed(BadOrigin) <==> !P(1))
            && (r.Failed? && r.error.InvalidVoucher? <==> P(1) && !P(2))
            && (r == Failed(InvalidVoucher(0)) <==> P(1) && !P(2))
            && (r == Failed(InvalidRecipient) <==> P(2) && !P(3))
            && (r == Failed(InvalidVoucherSignature) <==> P(4) && !P(5))
            && (r == Failed(ClaimedTooSoonOrLate) <==> (P(3) && !P(4)) || (P(5) && !P(6)))
            && (r.Panicked? <==> P(6) && !P(7))
            && (r == Failed(VoucherDidNotWin) <==> P(7) && !P(8))
            && (r.Accepted? <==> P(8))
            && (r.Accepted? ==> r.event == VoucherClaimed(ValueIfPaidOf(call.voucher), call.origin.who))
  {
    if |call.voucher| >= VOUCHER_LENGTH {
      ParsedFields(call.voucher);
    }
  }

  // A claim at difficulty 1 that gets as far as the draw loses exactly on the all-ones hash.
  lemma DifficultyOneClaim(c: Crypto, now: U32, history: map<U32, H256>, call: Call)
    requires Passes(c, now, history, call, 7) && DifficultyOf(call.voucher) == 1
    ensures var r, b := ClaimOutcome(c, now, history, call), call.voucher;
            && (r == Failed(VoucherDidNotWin)
                <==> c.blake2(b[..128] + history[OracleBlockOf(b)]) == seq(32, _ => 255))
            && (r != Failed(VoucherDidNotWin) ==> r.Accepted?)
  {
    DecisionTable(c, now, history, call);
    var b := call.voucher;
    Lottery.DifficultyOne(c.blake2(b[..128] + history[OracleBlockOf(b)]));
  }

  // The bytes after the 192nd never matter.
  lemma TailIgnored(c: Crypto, now: U32, history: map<U32, H256>, origin: Origin, a: VoucherBytes, b: VoucherBytes)
    requires |a| >= VOUCHER_LENGTH && |b| >= VOUCHER_LENGTH && a[..VOUCHER_LENGTH] == b[..VOUCHER_LENGTH]
    ensures ClaimOutcome(c, now, history, Call(origin, a)) == ClaimOutcome(c, now, history, Call(origin, b))
  {
    ParseCanonical(a, b);
    assert a[..SIGNED_LENGTH] == a[..VOUCHER_LENGTH][..SIGNED_LENGTH];
    assert b[..SIGNED_LENGTH] == b[..VOUCHER_LENGTH][..SIGNED_LENGTH];
  }

  // The hash input determines, and is determined by, the eight unsigned fields and the randomness.
  lemma DrawInputCanonical(v: Voucher, w: Voucher, r: H256, s: H256)
    ensures DrawInput(Encode(v), r) == DrawInput(Encode(w), s)
       <==> v.(signature := w.signature) == w && r == s
  {
    var a, b := DrawInput(Encode(v), r), DrawInput(Encode(w), s);
    assert a[..SIGNED_LENGTH] == EncodeUnsigned(v) && a[SIGNED_LENGTH..] == r;
    assert b[..SIGNED_LENGTH] == EncodeUnsigned(w) && b[SIGNED_LENGTH..] == s;
    var u := v.(signature := w.signature);
    if a == b {
      assert Encode(u) == Encode(w);
      ParseEncode(u, []);
      ParseEncode(w, []);
      assert Encode(u) + [] == Encode(w) + [];
    }
    if u == w {
      assert EncodeUnsigned(v) == EncodeUnsigned(u);
    }
  }
}
