/**
 The client's choice of oracle block and redeem block, against the pallet's retention window and
 against the relations the repository's documentation states for them.
 */
module Scheduling {
  import opened Arithmetic
  import opened Bytes
  import opened VoucherCodec
  import opened Claiming
  import opened Numbers
  import opened Runs
  import opened Redeeming

  datatype Schedule = Schedule(oracleBlock: int, noRedeemBeforeBlock: nat)

  const REDEEM_DELAY := 2048

  // The nonce is a hash read by `parseInt(nonce, 16)`: a double.
  function OracleOffset(sesh: int, nonce: nat): int {
    JsXor(sesh, JsRem(Round53(nonce), 1024))
  }

  function PayPaymentRequest(currentBlock: nat, sesh: int, nonce: nat): Schedule {
    var era := currentBlock / 1024;
    Schedule(era * 1024 + OracleOffset(sesh, nonce), currentBlock + REDEEM_DELAY)
  }

  // The session number, from the low 240 bits of the two public keys.
  function Sesh(selfKey: nat, nodeKey: nat): int {
    JsRem(JsXor(Round53(selfKey), Round53(nodeKey)), 1024)
  }

  lemma OffsetOfSession(sesh: nat, nonce: nat)
    requires sesh < 1024
    ensures OracleOffset(sesh, nonce) == Xor(sesh, Round53(nonce) % 1024)
    ensures 0 <= OracleOffset(sesh, nonce) < 1024
  {
    Round53NonNegative(nonce);
    JsXorOfSmall(sesh, Round53(nonce) % 1024);
  }

  // A session number of either sign moves the oracle block by less than an era, back if it is negative.
  lemma OffsetRange(sesh: int, nonce: nat)
    requires -1024 < sesh < 1024
    ensures if sesh < 0 then -1024 <= OracleOffset(sesh, nonce) < 0 else 0 <= OracleOffset(sesh, nonce) < 1024
  {
    if sesh < 0 {
      Round53NonNegative(nonce);
      NegativeMask(sesh, Round53(nonce) % 1024);
    } else {
      OffsetOfSession(sesh, nonce);
    }
  }

  lemma NegativeMask(s: int, r: nat)
    requires -1024 < s < 0 && r < 1024
    ensures -1024 <= JsXor(s, r) < 0
  {
    var u := TWO_32 + s;
    SmallFitsInt32(r);
    HighPartKept(u, r);
  }

  lemma ShiftTen(n: nat)
    ensures Shift(n, 10) == n / 1024
  {
    Pow2Values();
    ShiftDivides(n, 10);
  }

  lemma ShiftSign(n: nat)
    ensures Shift(n, 31) == n / 0x8000_0000
  {
    Pow2Values();
    ShiftDivides(n, 31);
  }

  lemma HighPartKept(u: nat, r: nat)
    requires r < 1024
    ensures Xor(u, r) / 1024 == u / 1024
  {
    XorShift(u, r, 10);
    ShiftTen(u);
    ShiftTen(r);
    ShiftTen(Xor(u, r));
    XorCommutes(u / 1024, 0);
    XorWithZero(u / 1024);
  }

  lemma Round53NonNegative(n: nat)
    ensures Round53(n) >= 0
  {
    var m := RoundToMultiple(n, Pow2(ExtraBits(n)));
  }

  // What the client computes, for every height, session number and nonce: the redeem block is two eras
  // on, at the current position in the era; the position of the oracle block in its era is the XOR of the
  // low ten bits of the session number and of the rounded nonce.
  lemma ScheduleOfAnySession(currentBlock: nat, sesh: int, nonce: nat)
    ensures var s := PayPaymentRequest(currentBlock, sesh, nonce);
            && s.noRedeemBeforeBlock / 1024 == currentBlock / 1024 + 2
            && s.noRedeemBeforeBlock % 1024 == currentBlock % 1024
            && s.oracleBlock % 1024 == Xor(sesh % 1024, Round53(nonce) % 1024)
            && -0x8000_0000 <= s.oracleBlock - currentBlock / 1024 * 1024 < 0x8000_0000
  {
    OffsetBits(sesh, nonce);
    SameResidue(currentBlock / 1024, OracleOffset(sesh, nonce));
  }

  lemma OffsetBits(sesh: int, nonce: nat)
    ensures OracleOffset(sesh, nonce) % 1024 == Xor(sesh % 1024, Round53(nonce) % 1024)
    ensures -0x8000_0000 <= OracleOffset(sesh, nonce) < 0x8000_0000
  {
    Round53NonNegative(nonce);
    XorBitsOfSmall(sesh, Round53(nonce) % 1024);
  }

  lemma XorBitsOfSmall(a: int, r: nat)
    requires r < 1024
    ensures JsXor(a, r) % 1024 == Xor(a % 1024, r)
    ensures -0x8000_0000 <= JsXor(a, r) < 0x8000_0000
  {
    JsXorBits(a, r);
    SmallFitsInt32(r);
    LowTenOfInt32(a);
    LowTenOfXor(JsXor(a, r), a % TWO_32, r);
  }

  lemma LowTenOfXor(x: int, u: nat, r: nat)
    requires r < 1024 && x % TWO_32 == Xor(u, r)
    ensures x % 1024 == Xor(u % 1024, r)
  {
    LowTen(u, r);
    Residues(x, Xor(u, r), r);
  }

  lemma Residues(x: int, y: nat, r: nat)
    requires r < 1024 && x % TWO_32 == y
    ensures x % 1024 == y % 1024 && r % 1024 == r
  {
    LowTenOfInt32(x);
  }

  lemma SameResidue(era: nat, offset: int)
    ensures (era * 1024 + offset) % 1024 == offset % 1024
  {
  }

  // ---------- The schedule against the retention window ----------

  // With the oracle block `offset` blocks into the current era, some block lies in the redeem window
  // exactly when the offset overshoots the era by more than the current position in it.
  lemma CurrentEraWindow(currentBlock: nat, offset: nat)
    ensures Redeemable(currentBlock / 1024 * 1024 + offset, currentBlock + REDEEM_DELAY)
       <==> offset >= 1025 + currentBlock % 1024
  {
    RedeemableWhen(currentBlock / 1024 * 1024 + offset, currentBlock + REDEEM_DELAY);
  }

  // A session number of less than an era never gets there: the oracle's randomness is gone before
  // redeeming opens.
  lemma ClientWindowIsEmpty(currentBlock: nat, sesh: int, nonce: nat)
    requires -1024 < sesh < 1024
    ensures var s := PayPaymentRequest(currentBlock, sesh, nonce);
            && s.oracleBlock / 1024 == currentBlock / 1024 - (if sesh < 0 then 1 else 0)
            && s.oracleBlock + 1023 < s.noRedeemBeforeBlock
            && (s.oracleBlock >= 0 ==> !Redeemable(s.oracleBlock, s.noRedeemBeforeBlock))
  {
    OffsetRange(sesh, nonce);
  }

  // So in every run, whoever claims it, however it is signed, a voucher from which the pallet reads the
  // client's schedule is never accepted.
  lemma ClientVoucherNeverAccepted(c: Crypto, run: seq<Action>, call: Call,
                                   currentBlock: nat, sesh: int, nonce: nat)
    requires Fits(run) && -1024 < sesh < 1024 && |call.voucher| >= VOUCHER_LENGTH
    requires PayPaymentRequest(currentBlock, sesh, nonce)
          == Schedule(OracleBlockOf(call.voucher), NoRedeemBeforeOf(call.voucher))
    ensures !OutcomeAfter(c, run, call).Accepted?
  {
    ClientWindowIsEmpty(currentBlock, sesh, nonce);
    PrunedRefinesFullLog(c, run, call);
    ParsedFields(call.voucher);
  }

  // The documented schedule puts the oracle block in the next era.
  function DocumentedSchedule(currentBlock: nat, offset: nat): Schedule {
    Schedule((currentBlock / 1024 + 1) * 1024 + offset, currentBlock + REDEEM_DELAY)
  }

  // It is what the documentation describes: the next era, and two eras on from the current block.
  lemma DocumentedScheduleIsNextEra(currentBlock: nat, offset: nat)
    requires offset < 1024
    ensures var s := DocumentedSchedule(currentBlock, offset);
            && s.oracleBlock / 1024 == currentBlock / 1024 + 1 && s.oracleBlock % 1024 == offset
            && s.noRedeemBeforeBlock / 1024 == currentBlock / 1024 + 2
            && s.noRedeemBeforeBlock % 1024 == currentBlock % 1024
  {
    BlockInEra(currentBlock / 1024 + 1, offset);
  }

  // Its window has offset - currentBlock % 1024 blocks: none unless the oracle block comes later in its
  // era than the current block in this one.
  lemma DocumentedWindow(currentBlock: nat, offset: nat)
    requires offset < 1024
    requires var s := DocumentedSchedule(currentBlock, offset);
             s.oracleBlock + 1023 <= U32_MAX && s.noRedeemBeforeBlock <= U32_MAX
    ensures var s := DocumentedSchedule(currentBlock, offset);
            && |Window(s.oracleBlock, s.noRedeemBeforeBlock)| == Max(0, offset - currentBlock % 1024)
            && (Window(s.oracleBlock, s.noRedeemBeforeBlock) != {} <==> offset > currentBlock % 1024)
  {
    var s := DocumentedSchedule(currentBlock, offset);
    WindowSize(s.oracleBlock, s.noRedeemBeforeBlock);
  }

  // ---------- The oracle block as a permutation of its era ----------

  // In exact arithmetic the nonce's residue r selects the block, and is recovered from it.
  lemma OracleBlockOfResidue(era: nat, sesh: nat, r: nat)
    requires sesh < 1024 && r < 1024
    ensures var oracle := era * 1024 + Xor(sesh, r);
            && oracle / 1024 == era
            && Xor(sesh, oracle % 1024) == r
            && Xor(Xor(sesh, r), oracle % 1024) == 0
  {
    XorOfSmall(sesh, r);
    XorCancel(sesh, r);
    XorSelf(Xor(sesh, r));
  }

  // Every block of the era is some residue's.
  lemma ResidueOfOracleBlock(oracle: nat, sesh: nat)
    requires sesh < 1024
    ensures var r := Xor(sesh, oracle % 1024);
            r < 1024 && oracle / 1024 * 1024 + Xor(sesh, r) == oracle
  {
    XorOfSmall(sesh, oracle % 1024);
    XorCancel(sesh, oracle % 1024);
  }

  // ---------- The documented XOR relation ----------

  ghost predicate DocumentedRelation(sesh: nat, nonce: nat, oracleBlock: int) {
    Xor(Xor(sesh, nonce % 1024), oracleBlock % 1024) == 0
  }

  // The client's oracle block satisfies the relation exactly when `parseInt` drops no set bit among
  // the nonce's last ten.
  lemma RelationHoldsWhenNothingIsLost(currentBlock: nat, sesh: nat, nonce: nat)
    requires sesh < 1024
    ensures DocumentedRelation(sesh, nonce, PayPaymentRequest(currentBlock, sesh, nonce).oracleBlock)
       <==> nonce % Pow2(Min(10, ExtraBits(nonce))) == 0
  {
    OracleResidue(currentBlock, sesh, nonce);
    RoundingKeepsResidue(nonce);
    SameMaskSameNumber(sesh, nonce % 1024, Round53(nonce) % 1024);
  }

  lemma OracleResidue(currentBlock: nat, sesh: nat, nonce: nat)
    requires sesh < 1024
    ensures PayPaymentRequest(currentBlock, sesh, nonce).oracleBlock % 1024 == Xor(sesh, Round53(nonce) % 1024)
  {
    OffsetOfSession(sesh, nonce);
    BlockInEra(currentBlock / 1024, OracleOffset(sesh, nonce));
  }

  lemma BlockInEra(era: nat, offset: int)
    requires 0 <= offset < 1024
    ensures (era * 1024 + offset) % 1024 == offset && (era * 1024 + offset) / 1024 == era
  {
  }

  lemma SameMaskSameNumber(s: nat, x: nat, y: nat)
    ensures Xor(Xor(s, x), Xor(s, y)) == 0 <==> x == y
  {
    XorSelf(Xor(s, x));
    if Xor(Xor(s, x), Xor(s, y)) == 0 {
      XorZeroMeansEqual(Xor(s, x), Xor(s, y));
      XorCancel(s, x);
      XorCancel(s, y);
    }
  }

  // From 2^63 up, which is all but one in 2^193 of the 256-bit nonces, the offset is the session number
  // alone, and the relation holds only for nonces that are multiples of 1024.
  lemma LargeNonceIsIgnored(currentBlock: nat, sesh: nat, nonce: nat)
    requires sesh < 1024 && nonce >= Pow2(63)
    ensures OracleOffset(sesh, nonce) == sesh
    ensures DocumentedRelation(sesh, nonce, PayPaymentRequest(currentBlock, sesh, nonce).oracleBlock)
       <==> nonce % 1024 == 0
  {
    ExtraBitsAtLeast(nonce, 11);
    LowBitsLost(nonce, 10);
    Pow2Values();
    OffsetOfSession(sesh, nonce);
    XorCommutes(sesh, 0);
    XorWithZero(sesh);
    RelationHoldsWhenNothingIsLost(currentBlock, sesh, nonce);
  }

  // A nonce for which it fails.
  lemma RelationCanFail(currentBlock: nat, sesh: nat) returns (nonce: nat)
    requires sesh < 1024
    ensures nonce == Pow2(63) + 1
    ensures !DocumentedRelation(sesh, nonce, PayPaymentRequest(currentBlock, sesh, nonce).oracleBlock)
  {
    nonce := OddResidue();
    LargeNonceIsIgnored(currentBlock, sesh, nonce);
  }

  lemma OddResidue() returns (nonce: nat)
    ensures nonce == Pow2(63) + 1 && nonce % 1024 == 1
  {
    Pow2Add(53, 10);
    Pow2Values();
    nonce := Pow2(63) + 1;
    DivModUnique(nonce, 1024, Pow2(53), 1);
  }

  // ---------- The session number ----------

  // Do the rounded key parts agree in bit 31, the sign bit of a 32-bit integer?
  predicate SameSign(selfKey: nat, nodeKey: nat) {
    Odd(Round53(selfKey) % TWO_32 / 0x8000_0000) == Odd(Round53(nodeKey) % TWO_32 / 0x8000_0000)
  }

  // The session number of any two key parts: the XOR of what rounding leaves of their low ten bits,
  // less 1024 if it is nonzero and the signs differ.
  lemma SessionNumber(selfKey: nat, nodeKey: nat)
    ensures var low := Xor(Round53(selfKey) % 1024, Round53(nodeKey) % 1024);
            Sesh(selfKey, nodeKey) == if low == 0 || SameSign(selfKey, nodeKey) then low else low - 1024
  {
    Round53NonNegative(selfKey);
    Round53NonNegative(nodeKey);
    SignedRemainder(Round53(selfKey), Round53(nodeKey));
  }

  // It is the documented one exactly when rounding leaves that XOR alone and the sign does not matter.
  lemma SessionNumberAsDocumented(selfKey: nat, nodeKey: nat)
    ensures var low := Xor(Round53(selfKey) % 1024, Round53(nodeKey) % 1024);
            Sesh(selfKey, nodeKey) == Xor(selfKey, nodeKey) % 1024
            <==> Xor(selfKey % 1024, nodeKey % 1024) == low && (low == 0 || SameSign(selfKey, nodeKey))
  {
    SessionNumber(selfKey, nodeKey);
    Round53NonNegative(selfKey);
    Round53NonNegative(nodeKey);
    XorOfSmall(Round53(selfKey) % 1024, Round53(nodeKey) % 1024);
    LowTen(selfKey, nodeKey);
  }

  lemma LowTen(a: nat, b: nat)
    ensures Xor(a, b) % 1024 == Xor(a % 1024, b % 1024)
  {
    Pow2Values();
    XorLowBits(a, b, 10);
  }

  lemma SignedRemainder(a: nat, b: nat)
    ensures var low := Xor(a % 1024, b % 1024);
            JsRem(JsXor(a, b), 1024)
            == if low == 0 || Odd(a % TWO_32 / 0x8000_0000) == Odd(b % TWO_32 / 0x8000_0000) then low else low - 1024
  {
    var u, v := a % TWO_32, b % TWO_32;
    var x := Xor(u, v);
    LowTenOfInt32(a);
    LowTenOfInt32(b);
    LowTen(u, v);
    TopBit(u, v);
    SignedRemainderOf(x);
  }

  lemma LowTenOfInt32(a: int)
    ensures a % TWO_32 % 1024 == a % 1024
  {
  }

  lemma TopBit(u: nat, v: nat)
    requires u < TWO_32 && v < TWO_32
    ensures Xor(u, v) < TWO_32
    ensures Xor(u, v) < 0x8000_0000 <==> Odd(u / 0x8000_0000) == Odd(v / 0x8000_0000)
  {
    Pow2Values();
    XorBound(u, v, 32);
    XorShift(u, v, 31);
    ShiftSign(u);
    ShiftSign(v);
    ShiftSign(Xor(u, v));
    XorHalf(u / 0x8000_0000, v / 0x8000_0000);
  }

  lemma SignedRemainderOf(x: nat)
    requires x < TWO_32
    ensures JsRem(ToInt32(x), 1024) == if x % 1024 == 0 || x < 0x8000_0000 then x % 1024 else x % 1024 - 1024
  {
    if x < 0x8000_0000 {
      SmallFitsInt32(x);
    } else {
      assert ToInt32(x) == x - TWO_32;
      RemainderOfComplement(x / 1024, x % 1024);
    }
  }

  lemma RemainderOfComplement(k: nat, y: nat)
    requires y < 1024
    ensures (TWO_32 - (1024 * k + y)) % 1024 == if y == 0 then 0 else 1024 - y
  {
  }

  // Rounding clears the low 32 bits of any key part from 2^84 up, and `^` sees nothing else, so the
  // session number is always 0. The documented one, XOR modulo 2^10, is 0 only for keys that agree there.
  lemma SessionNumberIsZero(selfKey: nat, nodeKey: nat)
    requires selfKey >= Pow2(84) && nodeKey >= Pow2(84)
    ensures Sesh(selfKey, nodeKey) == 0
    ensures Sesh(selfKey, nodeKey) == Xor(selfKey, nodeKey) % 1024 <==> selfKey % 1024 == nodeKey % 1024
  {
    LargeKeyVanishes(selfKey);
    LargeKeyVanishes(nodeKey);
    NothingLeft(Round53(selfKey), Round53(nodeKey));
    XorResidueZero(selfKey, nodeKey);
  }

  // Two large key parts whose session number is not the documented one.
  lemma SessionNumberCanDiffer() returns (selfKey: nat, nodeKey: nat)
    ensures selfKey == Pow2(84) && nodeKey == Pow2(84) + 1
    ensures Sesh(selfKey, nodeKey) == 0 && Xor(selfKey, nodeKey) % 1024 != 0
  {
    selfKey, nodeKey := Pow2(84), Pow2(84) + 1;
    SessionNumberIsZero(selfKey, nodeKey);
    Congruent(selfKey, nodeKey);
  }

  lemma NothingLeft(a: int, b: int)
    requires a % TWO_32 == 0 && b % TWO_32 == 0
    ensures JsRem(JsXor(a, b), 1024) == 0
  {
  }

  lemma LargeKeyVanishes(key: nat)
    requires key >= Pow2(84)
    ensures Round53(key) % TWO_32 == 0
  {
    ExtraBitsAtLeast(key, 32);
    LowBitsLost(key, 32);
    Pow2Values();
  }

  lemma XorResidueZero(a: nat, b: nat)
    ensures Xor(a, b) % 1024 == 0 <==> a % 1024 == b % 1024
  {
    var x, y := a % 1024, b % 1024;
    LowTen(a, b);
    XorSelf(x);
    if Xor(x, y) == 0 {
      XorZeroMeansEqual(x, y);
    }
  }
}
