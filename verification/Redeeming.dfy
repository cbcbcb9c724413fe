/**
 When a good voucher can be claimed: a little-endian voucher that its sender signed, with a nonzero
 difficulty and a winning draw, is accepted from its recipient in exactly one window of blocks.
 */
module Redeeming {
  import opened Arithmetic
  import opened Wrappers
  import opened Bytes
  import opened VoucherCodec
  import opened Claiming
  import opened Runs
  import Lottery

  ghost predicate ProperlySigned(c: Crypto, v: Voucher) {
    c.verify(EncodeUnsigned(v), v.signature, v.senderPk)
  }

  // The voucher wins on the randomness of its oracle block, if the run has got that far.
  ghost predicate DrawWins(c: Crypto, run: seq<Action>, v: Voucher)
    requires v.difficulty > 0
  {
    1 <= v.oracleBlock <= |Recorded(run)| ==>
      Lottery.Wins(c.blake2(EncodeUnsigned(v) + Recorded(run)[v.oracleBlock - 1]), v.difficulty)
  }

  predicate InWindow(oracle: nat, noRedeem: nat, now: nat) {
    oracle >= 1 && Max(oracle, noRedeem) <= now <= oracle + 1023
  }

  ghost predicate Redeemable(oracle: nat, noRedeem: nat) {
    exists now: nat :: InWindow(oracle, noRedeem, now)
  }

  lemma RedeemableWhen(oracle: nat, noRedeem: nat)
    ensures Redeemable(oracle, noRedeem) <==> oracle >= 1 && noRedeem <= oracle + 1023
  {
    if oracle >= 1 && noRedeem <= oracle + 1023 {
      assert InWindow(oracle, noRedeem, oracle + 1023);
    }
  }

  function ClaimByRecipient(v: Voucher): Call {
    Call(Signed(v.recipientPk), Encode(v))
  }

  lemma RedeemWindow(c: Crypto, run: seq<Action>, v: Voucher)
    requires Fits(run) && v.difficulty > 0
    requires ProperlySigned(c, v) && DrawWins(c, run, v)
    ensures OutcomeAfter(c, run, ClaimByRecipient(v)) ==
            if InWindow(v.oracleBlock, v.noRedeemBeforeBlock, |Recorded(run)|)
            then Accepted(VoucherClaimed(v.valueIfPaid, v.recipientPk))
            else Failed(ClaimedTooSoonOrLate)
  {
    PrunedRefinesFullLog(c, run, ClaimByRecipient(v));
    EncodedIsJudged(c, Recorded(run), v);
    if 1 <= v.oracleBlock <= |Recorded(run)| {
      EncodedDraw(v, Recorded(run)[v.oracleBlock - 1]);
    }
    assert Encode(v)[..SIGNED_LENGTH] == EncodeUnsigned(v);
  }

  lemma EncodedIsJudged(c: Crypto, recorded: seq<H256>, v: Voucher)
    requires |recorded| <= U32_MAX
    ensures ClaimUnpruned(c, recorded, ClaimByRecipient(v))
         == Judge(c, |recorded|, v.recipientPk, Encode(v), v, Aged(recorded, v.oracleBlock))
  {
    ParseEncode(v, []);
    assert Encode(v) + [] == Encode(v);
  }

  lemma EncodedDraw(v: Voucher, rand: H256)
    ensures DrawInput(Encode(v), rand) == EncodeUnsigned(v) + rand
  {
    assert Encode(v)[..SIGNED_LENGTH] == EncodeUnsigned(v);
  }

  // Signing the first 128 bytes with a key pair that works is signing properly.
  lemma SigningIsProper(c: Crypto, sign: seq<Byte> -> Signature, v: Voucher)
    requires forall m: seq<Byte> :: c.verify(m, sign(m), v.senderPk)
    ensures var signed := v.(signature := sign(EncodeUnsigned(v)));
            ProperlySigned(c, signed) && Parse(Encode(signed)) == Success(signed)
  {
    var signed := v.(signature := sign(EncodeUnsigned(v)));
    assert EncodeUnsigned(signed) == EncodeUnsigned(v);
    ParseEncode(signed, []);
    assert Encode(signed) + [] == Encode(signed);
  }

  // The blocks of the window that 32-bit block numbers can reach.
  function Window(oracle: U32, noRedeem: U32): (w: set<nat>)
    ensures forall now: U32 :: now in w <==> InWindow(oracle, noRedeem, now)
  {
    if oracle == 0 then {} else Interval(Max(oracle, noRedeem), Min(oracle + 1023, U32_MAX) + 1)
  }

  lemma WindowSize(oracle: U32, noRedeem: U32)
    ensures |Window(oracle, noRedeem)| ==
            if oracle == 0 then 0 else Max(0, Min(oracle + 1023, U32_MAX) + 1 - Max(oracle, noRedeem))
    ensures 1 <= oracle <= U32_MAX - 1023 ==>
              |Window(oracle, noRedeem)| == Max(0, Min(1024, oracle + 1024 - noRedeem))
  {
    if oracle > 0 {
      IntervalSize(Max(oracle, noRedeem), Min(oracle + 1023, U32_MAX) + 1);
    }
  }

  // Every block a run has passed was once its current block.
  lemma {:induction false} PassesThrough(run: seq<Action>, block: nat) returns (i: nat)
    requires block <= |Recorded(run)|
    ensures i <= |run| && |Recorded(run[..i])| == block
  {
    if block == 0 {
      i := 0;
    } else {
      var j := RecordedAtInitialisation(run, block);
      i := j + 1;
    }
  }

  // Liveness: a run that is long enough passes through every block of the window, and the claim would
  // have been accepted there; if the window is nonempty there is such a point.
  lemma Liveness(c: Crypto, run: seq<Action>, v: Voucher)
    requires Fits(run) && v.difficulty > 0
    requires ProperlySigned(c, v) && DrawWins(c, run, v)
    requires Window(v.oracleBlock, v.noRedeemBeforeBlock) != {}
    requires |Recorded(run)| >= Max(v.oracleBlock, v.noRedeemBeforeBlock)
    ensures forall block: nat | block in Window(v.oracleBlock, v.noRedeemBeforeBlock) && block <= |Recorded(run)| ::
              exists i: nat :: AcceptedAt(c, run, v, i, block)
    ensures exists i: nat, block: nat :: AcceptedAt(c, run, v, i, block)
  {
    var w := Window(v.oracleBlock, v.noRedeemBeforeBlock);
    forall block: nat | block in w && block <= |Recorded(run)|
      ensures exists i: nat :: AcceptedAt(c, run, v, i, block)
    {
      var i := PassesThrough(run, block);
      PrefixFits(run, i);
      RedeemWindow(c, run[..i], v);
      assert AcceptedAt(c, run, v, i, block);
    }
    var first := Max(v.oracleBlock, v.noRedeemBeforeBlock);
    var some :| some in w;
    assert first in w;
    var i :| AcceptedAt(c, run, v, i, first);
  }

  // After i actions the run is at `block`, and the recipient's claim would be accepted.
  ghost predicate AcceptedAt(c: Crypto, run: seq<Action>, v: Voucher, i: nat, block: nat) {
    && i <= |run|
    && |Recorded(run[..i])| == block
    && Fits(run[..i])
    && OutcomeAfter(c, run[..i], ClaimByRecipient(v)) == Accepted(VoucherClaimed(v.valueIfPaid, v.recipientPk))
  }
}
