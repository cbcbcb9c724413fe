/**
 End to end: the client's schedule, written by the client's packer, judged by the pallet. The pallet
 reads every number byte-reversed, so the window it applies is not the one the client computed.
 */
module ClientVouchers {
  import opened Arithmetic
  import opened Bytes
  import opened VoucherCodec
  import opened Claiming
  import opened Numbers
  import opened Runs
  import opened Redeeming
  import opened Packing
  import opened Scheduling

  // ---------- When a packed voucher is ever accepted ----------

  // After i actions the recipient's claim of the packed voucher would be accepted.
  ghost predicate PackedAcceptedAt(c: Crypto, run: seq<Action>, i: nat,
                                   d: VoucherData, sign: seq<Byte> -> Signature)
  {
    && i <= |run|
    && Fits(run[..i])
    && OutcomeAfter(c, run[..i], Call(Signed(d.recipientPubKey), Packed(d, sign))).Accepted?
  }

  // The packed voucher wins on the randomness of the block the pallet reads, if the run got that far.
  ghost predicate PackedDrawWins(c: Crypto, run: seq<Action>, d: VoucherData) {
    && Swap32(d.difficulty) > 0
    && (1 <= Swap32(d.oracleBlock) <= |Recorded(run)| ==> PackedWins(c, Recorded(run), d))
  }

  // A run that reaches both blocks, and in which signature and draw are good, passes a point where the
  // packed voucher is accepted exactly when the window the pallet reads is not empty.
  lemma PackedEverAccepted(c: Crypto, run: seq<Action>, d: VoucherData, sign: seq<Byte> -> Signature)
    requires Fits(run) && ShortMessageVerifies(c, d, sign) && PackedDrawWins(c, run, d)
    requires |Recorded(run)| >= Max(Swap32(d.oracleBlock), Swap32(d.noRedeemBeforeBlock))
    ensures (exists i: nat :: PackedAcceptedAt(c, run, i, d, sign))
       <==> Redeemable(Swap32(d.oracleBlock), Swap32(d.noRedeemBeforeBlock))
  {
    var oracle, noRedeem := Swap32(d.oracleBlock), Swap32(d.noRedeemBeforeBlock);
    var origin := Signed(d.recipientPubKey);
    RedeemableWhen(oracle, noRedeem);
    if i: nat :| PackedAcceptedAt(c, run, i, d, sign) {
      PackedAccepted(c, run[..i], origin, d, sign);
      assert InWindow(oracle, noRedeem, |Recorded(run[..i])|);
    }
    if Redeemable(oracle, noRedeem) {
      var i := PassesThrough(run, Max(oracle, noRedeem));
      PrefixFits(run, i);
      PackedAccepted(c, run[..i], origin, d, sign);
      assert PackedAcceptedAt(c, run, i, d, sign);
    }
  }

  // ---------- The client's own numbers ----------

  // A byte string read as hexadecimal text.
  function BigEndian(s: seq<Byte>): nat {
    FromLE(Reverse(s))
  }

  // `slice(6)` drops "0x" and the first two bytes of a key.
  function KeyPart(key: AccountId): nat {
    BigEndian(key[2..])
  }

  function ClientSchedule(d: VoucherData, currentBlock: nat): Schedule {
    var sesh := Sesh(KeyPart(d.senderPubKey), KeyPart(d.recipientPubKey));
    PayPaymentRequest(currentBlock, sesh, BigEndian(d.nonce))
  }

  ghost predicate FollowsSchedule(d: VoucherData, currentBlock: nat) {
    Schedule(d.oracleBlock, d.noRedeemBeforeBlock) == ClientSchedule(d, currentBlock)
  }

  // Reading big-endian bytes gives the number back ...
  lemma BigEndianReads(n: nat, len: nat)
    requires n < Pow256(len)
    ensures BigEndian(ToBE(n, len)) == n
  {
    ToBEReversesToLE(n, len);
    ReverseTwice(ToLE(n, len));
    RoundTripLE(n, len);
  }

  // ... and so does reading its padded hexadecimal text.
  lemma BigEndianReadsHex(n: nat, len: nat)
    requires len > 0 && n < Pow16(2 * len)
    ensures |PadStart(ToHex(n), 2 * len)| == 2 * len
    ensures BigEndian(HexToU8a(PadStart(ToHex(n), 2 * len))) == n
  {
    PaddedHexIsBigEndian(n, len);
    Pow16Pairs(len);
    BigEndianReads(n, len);
  }

  lemma {:induction false} Pow16Pairs(len: nat)
    ensures Pow16(2 * len) == Pow256(len)
  {
    if len > 0 {
      Pow16Pairs(len - 1);
      assert Pow16(2 * len) == 16 * Pow16(2 * len - 1);
    }
  }

  // The last 30 bytes of a key, all of them and no others, are its part.
  lemma KeyPartReads(front: seq<Byte>, n: nat)
    requires |front| == 2 && n < Pow256(30)
    ensures KeyPart(front + ToBE(n, 30)) == n
  {
    assert (front + ToBE(n, 30))[2..] == ToBE(n, 30);
    BigEndianReads(n, 30);
  }

  // The schedule in terms of the numbers the texts spell.
  lemma ClientScheduleReads(d: VoucherData, currentBlock: nat, f: seq<Byte>, g: seq<Byte>, j: nat, k: nat, n: nat)
    requires |f| == 2 && |g| == 2 && j < Pow256(30) && k < Pow256(30) && n < Pow256(32)
    requires d.senderPubKey == f + ToBE(j, 30) && d.recipientPubKey == g + ToBE(k, 30) && d.nonce == ToBE(n, 32)
    ensures ClientSchedule(d, currentBlock) == PayPaymentRequest(currentBlock, Sesh(j, k), n)
  {
    KeyPartReads(f, j);
    KeyPartReads(g, k);
    BigEndianReads(n, 32);
  }

  // Keys and nonce without an improbably long run of leading zeros: the part of each key has a bit from
  // 2^84 up, and the nonce one from 2^63 up.
  ghost predicate FullSize(d: VoucherData) {
    && FullSizeKey(d.senderPubKey)
    && FullSizeKey(d.recipientPubKey)
    && FullSizeNonce(d.nonce)
  }

  ghost predicate FullSizeKey(key: AccountId) {
    (exists i: nat :: 2 <= i < 21 && key[i] != 0) || key[21] >= 16
  }

  ghost predicate FullSizeNonce(nonce: H256) {
    (exists i: nat :: i < 24 && nonce[i] != 0) || nonce[24] >= 128
  }

  lemma BigEndianConcat(a: seq<Byte>, b: seq<Byte>)
    ensures BigEndian(a + b) == Pow256(|b|) * BigEndian(a) + BigEndian(b)
  {
    ReverseConcat(a, b);
    FromLEConcat(Reverse(b), Reverse(a));
  }

  lemma {:induction false} FromLEPositive(s: seq<Byte>)
    ensures FromLE(s) > 0 <==> exists i :: 0 <= i < |s| && s[i] != 0
  {
    if s != [] {
      FromLEPositive(s[1..]);
      assert forall i :: 1 <= i < |s| ==> s[i] == s[1..][i - 1];
      if i :| 0 <= i < |s[1..]| && s[1..][i] != 0 {
        assert s[i + 1] != 0;
      }
    }
  }

  lemma BigEndianPositive(s: seq<Byte>)
    ensures BigEndian(s) > 0 <==> exists i :: 0 <= i < |s| && s[i] != 0
  {
    var r := Reverse(s);
    FromLEPositive(r);
    if i :| 0 <= i < |r| && r[i] != 0 {
      assert s[|s| - 1 - i] != 0;
    }
    if i :| 0 <= i < |s| && s[i] != 0 {
      assert r[|s| - 1 - i] != 0;
    }
  }

  // How large a number is shows in its leading bytes.
  lemma LeadingBytes(head: seq<Byte>, next: Byte, tail: seq<Byte>, t: Byte)
    requires t > 0
    ensures BigEndian(head + [next] + tail) >= t * Pow256(|tail|)
       <==> (exists i :: 0 <= i < |head| && head[i] != 0) || next >= t
  {
    var p, m := Pow256(|tail|), BigEndian(head + [next]);
    BigEndianConcat(head + [next], tail);
    FromLEBound(Reverse(tail));
    AtLeastMultiple(m, BigEndian(tail), p, t);
    LastByte(head, next, t);
  }

  lemma LastByte(head: seq<Byte>, next: Byte, t: Byte)
    requires t > 0
    ensures BigEndian(head + [next]) >= t <==> (exists i :: 0 <= i < |head| && head[i] != 0) || next >= t
  {
    BigEndianConcat(head, [next]);
    var one: seq<Byte> := [next];
    assert Reverse(one) == one && one[1..] == [];
    assert FromLE(one) == next + 256 * FromLE(one[1..]);
    assert Pow256(1) == 256;
    assert BigEndian(head + one) == 256 * BigEndian(head) + next;
    BigEndianPositive(head);
  }

  lemma AtLeastMultiple(m: nat, rest: nat, p: nat, t: nat)
    requires rest < p
    ensures p * m + rest >= t * p <==> m >= t
  {
    if m >= t {
      MultipleAtMost(t, m, p);
    } else {
      MultipleAtMost(m + 1, t, p);
      assert (m + 1) * p == p * m + p;
    }
  }

  lemma FullSizeKeyPart(key: AccountId)
    ensures FullSizeKey(key) <==> KeyPart(key) >= Pow2(84)
  {
    var head, tail := key[2..21], key[22..];
    assert key[2..] == head + [key[21]] + tail;
    LeadingBytes(head, key[21], tail, 16);
    BytesAreBits(10);
    Pow2Add(4, 80);
    assert Pow2(4) == 16;
    ShiftedWitness(key, head, 2);
  }

  lemma FullSizeNonceNumber(nonce: H256)
    ensures FullSizeNonce(nonce) <==> BigEndian(nonce) >= Pow2(63)
  {
    var head, tail := nonce[..24], nonce[25..];
    assert nonce == head + [nonce[24]] + tail;
    LeadingBytes(head, nonce[24], tail, 128);
    BytesAreBits(7);
    Pow2Add(7, 56);
    assert Pow2(7) == 128;
    ShiftedWitness(nonce, head, 0);
  }

  lemma ShiftedWitness(s: seq<Byte>, part: seq<Byte>, at: nat)
    requires at + |part| <= |s| && part == s[at..at + |part|]
    ensures (exists i :: 0 <= i < |part| && part[i] != 0)
       <==> (exists i: nat :: at <= i < at + |part| && s[i] != 0)
  {
    if i :| 0 <= i < |part| && part[i] != 0 {
      assert s[at + i] != 0;
    }
    if i: nat :| at <= i < at + |part| && s[i] != 0 {
      assert part[i - at] != 0;
    }
  }

  lemma {:induction false} BytesAreBits(n: nat)
    ensures Pow256(n) == Pow2(8 * n)
  {
    if n > 0 {
      BytesAreBits(n - 1);
      Pow2Add(8, 8 * (n - 1));
      assert Pow2(8) == 256;
    }
  }

  // Neither the session nor the nonce is left in the schedule: it is the start of the current era.
  lemma ClientOracleBlock(d: VoucherData, currentBlock: nat)
    requires FullSize(d)
    ensures ClientSchedule(d, currentBlock)
         == Schedule(currentBlock / 1024 * 1024, currentBlock + REDEEM_DELAY)
  {
    FullSizeKeyPart(d.senderPubKey);
    FullSizeKeyPart(d.recipientPubKey);
    FullSizeNonceNumber(d.nonce);
    ScheduleIgnoresKeysAndNonce(currentBlock, KeyPart(d.senderPubKey), KeyPart(d.recipientPubKey), BigEndian(d.nonce));
  }

  // With the leading bytes of keys and nonce in the pallet's test vector, height 6568 gives the vector's
  // own oracle block, 00001800.
  lemma VectorOracleBlock(d: VoucherData)
    requires d.senderPubKey[..4] == [0xd4, 0x35, 0x93, 0xc7] && d.recipientPubKey[..4] == [0xd4, 0x35, 0x93, 0xc7]
    requires d.nonce[..4] == [0xa9, 0x31, 0x24, 0x26]
    ensures ClientSchedule(d, 6568) == Schedule(6144, 8616)
    ensures ToBE(6144, 4) == [0x00, 0x00, 0x18, 0x00]
  {
    assert d.senderPubKey[2] != 0 && d.recipientPubKey[2] != 0 && d.nonce[0] != 0;
    ClientOracleBlock(d, 6568);
  }

  lemma ScheduleIgnoresKeysAndNonce(currentBlock: nat, selfKey: nat, nodeKey: nat, nonce: nat)
    requires selfKey >= Pow2(84) && nodeKey >= Pow2(84) && nonce >= Pow2(63)
    ensures PayPaymentRequest(currentBlock, Sesh(selfKey, nodeKey), nonce)
         == Schedule(currentBlock / 1024 * 1024, currentBlock + REDEEM_DELAY)
  {
    SessionNumberIsZero(selfKey, nodeKey);
    LargeNonceIsIgnored(currentBlock, 0, nonce);
  }

  // ---------- The numbers the pallet reads ----------

  // A 32-bit number with the given low bytes, reversed: the low bytes come out on top.
  lemma SwapLowBytes(high: nat, second: Byte, first: Byte) returns (low: nat)
    requires 0x1_0000 * high + 0x100 * second + first <= U32_MAX
    ensures low < 0x1_0000
    ensures Swap32(0x1_0000 * high + 0x100 * second + first)
         == 0x100_0000 * first + 0x1_0000 * second + low
  {
    var n := 0x1_0000 * high + 0x100 * second + first;
    var head := ToBE(high, 2);
    assert n / 256 == 256 * high + second && n / 256 / 256 == high;
    assert ToBE(n / 256, 3) == head + [second];
    assert ToBE(n, 4) == head + [second, first];
    low := FromLE(head);
    FromLEBound(head);
    assert Pow256(2) == 0x1_0000;
    FromLEConcat(head, [second, first]);
    var tail: seq<Byte> := [second, first];
    assert tail[1..] == [first] && tail[1..][1..] == [];
    assert FromLE(tail[1..]) == first;
    assert FromLE(tail) == second + 256 * first;
  }

  // Which windows are open, in the pallet's reading: the low byte of the oracle block, reversed to the
  // top, decides, and on a tie the second byte does.
  predicate ReadsOpenWindow(currentBlock: nat, offset: int) {
    var second := currentBlock / 0x100 % 256;
    || offset % 256 > currentBlock % 256
    || (offset % 256 == currentBlock % 256 && (second >= 248 || (offset < 0 && second < 4)))
  }

  lemma ReversedWindow(currentBlock: nat, offset: int)
    requires -1024 <= offset < 1024
    requires 0 <= currentBlock / 1024 * 1024 + offset && currentBlock + REDEEM_DELAY <= U32_MAX
    ensures Redeemable(Swap32(currentBlock / 1024 * 1024 + offset), Swap32(currentBlock + REDEEM_DELAY))
       <==> ReadsOpenWindow(currentBlock, offset)
  {
    var high, second, first := currentBlock / 0x1_0000, currentBlock / 0x100 % 256, currentBlock % 256;
    SplitBlock(currentBlock, high, second, first);
    var oracleHigh, oracleSecond := SplitOracle(currentBlock, offset);
    var x := SwapLowBytes(oracleHigh, oracleSecond, offset % 256);
    // Adding the delay of 8 * 256 moves the second byte, with a carry from 248 on.
    var redeemHigh, redeemSecond := high, second + 8;
    if second >= 248 {
      redeemHigh, redeemSecond := high + 1, second - 248;
    }
    var y := SwapLowBytes(redeemHigh, redeemSecond, first);
    CompareReversed(offset % 256, oracleSecond, x, first, redeemSecond, y);
    RedeemableWhen(Swap32(currentBlock / 1024 * 1024 + offset), Swap32(currentBlock + REDEEM_DELAY));
  }

  lemma CompareReversed(first: Byte, second: Byte, low: nat, first': Byte, second': Byte, low': nat)
    requires low < 0x1_0000 && low' < 0x1_0000
    requires second' < second || second' >= second + 2
    requires second' == 0 ==> second <= 253
    ensures 0x100_0000 * first' + 0x1_0000 * second' + low'
         <= 0x100_0000 * first + 0x1_0000 * second + low + 1023
       <==> first > first' || (first == first' && second' < second)
  {
  }

  lemma SplitBlock(n: nat, high: nat, second: nat, first: nat)
    requires high == n / 0x1_0000 && second == n / 0x100 % 256 && first == n % 256
    ensures n == 0x1_0000 * high + 0x100 * second + first
    ensures n / 1024 * 1024 == 0x1_0000 * high + 0x100 * (second - second % 4)
    ensures n / 1024 % 64 >= 62 <==> second >= 248
  {
    BytesOf(n);
    EraOf(high, second, first);
  }

  lemma BytesOf(n: nat)
    ensures n == 0x1_0000 * (n / 0x1_0000) + 0x100 * (n / 0x100 % 256) + n % 256
  {
    assert n / 0x100 / 256 == n / 0x1_0000;
  }

  lemma EraOf(high: nat, second: nat, first: nat)
    requires second < 256 && first < 256
    ensures (0x1_0000 * high + 0x100 * second + first) / 1024 == 64 * high + second / 4
    ensures (64 * high + second / 4) % 64 >= 62 <==> second >= 248
  {
  }

  // The bytes of the oracle block: an offset below zero reaches back into the era before.
  lemma SplitOracle(currentBlock: nat, offset: int) returns (high: nat, second: Byte)
    requires -1024 <= offset < 1024 && 0 <= currentBlock / 1024 * 1024 + offset
    ensures currentBlock / 1024 * 1024 + offset == 0x1_0000 * high + 0x100 * second + offset % 256
    ensures var s := currentBlock / 0x100 % 256;
            if offset < 0 && s < 4 then second >= 252 && currentBlock >= 0x1_0000
            else if offset < 0 then s - 7 <= second < s
            else s - 3 <= second <= s + 3
  {
    var h, s, f := currentBlock / 0x1_0000, currentBlock / 0x100 % 256, currentBlock % 256;
    SplitBlock(currentBlock, h, s, f);
    var start := s - s % 4;
    if offset >= 0 {
      high, second := h, start + offset / 256;
    } else if s >= 4 {
      high, second := h, start - 4 + (offset + 1024) / 256;
    } else {
      high, second := h - 1, 252 + (offset + 1024) / 256;
    }
  }

  // ---------- The client's voucher ----------

  function ClientOffset(d: VoucherData): int {
    OracleOffset(Sesh(KeyPart(d.senderPubKey), KeyPart(d.recipientPubKey)), BigEndian(d.nonce))
  }

  lemma ClientWindow(currentBlock: nat, d: VoucherData)
    requires FollowsSchedule(d, currentBlock)
    ensures Redeemable(Swap32(d.oracleBlock), Swap32(d.noRedeemBeforeBlock))
       <==> ReadsOpenWindow(currentBlock, ClientOffset(d))
  {
    OffsetRange(Sesh(KeyPart(d.senderPubKey), KeyPart(d.recipientPubKey)), BigEndian(d.nonce));
    ReversedWindow(currentBlock, ClientOffset(d));
  }

  // For keys and nonces of full size: every 256th block of the last two eras in each cycle of 64.
  lemma FullSizeWindow(currentBlock: nat, d: VoucherData)
    requires FullSize(d)
    ensures ReadsOpenWindow(currentBlock, ClientOffset(d))
       <==> currentBlock % 256 == 0 && currentBlock / 1024 % 64 >= 62
  {
    ClientOracleBlock(d, currentBlock);
    assert ClientSchedule(d, currentBlock).oracleBlock == currentBlock / 1024 * 1024 + ClientOffset(d);
    ZeroOffsetWindow(currentBlock);
  }

  lemma ZeroOffsetWindow(currentBlock: nat)
    ensures ReadsOpenWindow(currentBlock, 0) <==> currentBlock % 256 == 0 && currentBlock / 1024 % 64 >= 62
  {
    SplitBlock(currentBlock, currentBlock / 0x1_0000, currentBlock / 0x100 % 256, currentBlock % 256);
  }

  // A voucher the client schedules and packs, with a good signature and draw, is accepted somewhere in a
  // long enough run exactly when the height it was made at leaves a window in the pallet's reading.
  lemma ClientVoucherEverAccepted(c: Crypto, run: seq<Action>, currentBlock: nat,
                                  d: VoucherData, sign: seq<Byte> -> Signature)
    requires FollowsSchedule(d, currentBlock)
    requires Fits(run) && ShortMessageVerifies(c, d, sign) && PackedDrawWins(c, run, d)
    requires |Recorded(run)| >= Max(Swap32(d.oracleBlock), Swap32(d.noRedeemBeforeBlock))
    ensures (exists i: nat :: PackedAcceptedAt(c, run, i, d, sign))
       <==> ReadsOpenWindow(currentBlock, ClientOffset(d))
  {
    ClientWindow(currentBlock, d);
    PackedEverAccepted(c, run, d, sign);
  }

  // At any other height nothing else matters: no run, caller, signature or draw gets it accepted.
  lemma ClientVoucherRejected(c: Crypto, run: seq<Action>, origin: Origin, currentBlock: nat,
                              d: VoucherData, sign: seq<Byte> -> Signature)
    requires FollowsSchedule(d, currentBlock) && Fits(run)
    requires !ReadsOpenWindow(currentBlock, ClientOffset(d))
    ensures !OutcomeAfter(c, run, Call(origin, Packed(d, sign))).Accepted?
  {
    ClientWindow(currentBlock, d);
    PackedAccepted(c, run, origin, d, sign);
    if InWindow(Swap32(d.oracleBlock), Swap32(d.noRedeemBeforeBlock), |Recorded(run)|) {
      assert Redeemable(Swap32(d.oracleBlock), Swap32(d.noRedeemBeforeBlock));
    }
  }

  // A height at which the client's numbers leave no window and the numbers the pallet reads leave one.
  lemma WindowsCanDiffer()
    ensures !Redeemable(63488, 65536)
    ensures Swap32(63488) == 16252928 && Swap32(65536) == 256 && Redeemable(16252928, 256)
  {
    var x := SwapLowBytes(0, 248, 0);
    var y := SwapLowBytes(1, 0, 0);
    assert Swap32(63488) == 16252928 && Swap32(65536) == 256;
    RedeemableWhen(63488, 65536);
    RedeemableWhen(16252928, 256);
  }
}
