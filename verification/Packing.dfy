/**
 The client's packer: one 192-byte buffer filled by overlapping writes, signed as a whole, then
 overwritten with the signature. What the pallet reads back from it is stated field by field.
 */
module Packing {
  import opened Wrappers
  import opened Bytes
  import opened VoucherCodec
  import opened Claiming
  import opened Runs
  import opened Redeeming
  import Lottery

  datatype VoucherData = VoucherData(
    oracleBlock: U32,
    difficulty: U32,
    noRedeemBeforeBlock: U32,
    valueIfPaid: U32,
    priceListCommit: Bytes32,
    senderPubKey: AccountId,
    recipientPubKey: AccountId,
    nonce: H256)

  // ---------- Hexadecimal text ----------

  type Digit = d: int | 0 <= d < 16

  // `num.toString(16)`: no leading zeros, "0" for zero.
  function ToHex(n: nat): (s: seq<Digit>)
    ensures |s| > 0
  {
    if n < 16 then [n] else ToHex(n / 16) + [n % 16]
  }

  // `padStart(len, '0')`
  function PadStart(s: seq<Digit>, len: nat): seq<Digit> {
    if |s| >= len then s else seq(len - |s|, _ => 0) + s
  }

  // `hexToU8a` on an even number of digits.
  function HexToU8a(s: seq<Digit>): (b: seq<Byte>)
    requires |s| % 2 == 0
    ensures |b| == |s| / 2
  {
    if s == [] then []
    else
      var high: int, low: int := s[0], s[1];
      [16 * high + low] + HexToU8a(s[2..])
  }

  function Pow16(n: nat): (p: nat)
    ensures p > 0
  {
    if n == 0 then 1 else 16 * Pow16(n - 1)
  }

  lemma {:induction false} ToHexLength(n: nat, len: nat)
    requires len > 0 && n < Pow16(len)
    ensures |ToHex(n)| <= len
  {
    if n >= 16 {
      assert n / 16 < Pow16(len - 1);
      ToHexLength(n / 16, len - 1);
    }
  }

  lemma {:induction false} HexToU8aConcat(s: seq<Digit>, t: seq<Digit>)
    requires |s| % 2 == 0 && |t| % 2 == 0
    ensures HexToU8a(s + t) == HexToU8a(s) + HexToU8a(t)
  {
    if s == [] {
      assert s + t == t;
    } else {
      HexToU8aConcat(s[2..], t);
      assert (s + t)[2..] == s[2..] + t;
      var head := HexToU8a(s)[..1];
      assert HexToU8a(s + t) == head + HexToU8a((s + t)[2..]);
      ConcatAssociative(head, HexToU8a(s[2..]), HexToU8a(t));
    }
  }

  // The number's last `len` digits, zeros included.
  function FixedHex(n: nat, len: nat): (s: seq<Digit>)
    ensures |s| == len
  {
    if len == 0 then [] else FixedHex(n / 16, len - 1) + [n % 16]
  }

  lemma {:induction false} FixedHexZero(len: nat)
    ensures FixedHex(0, len) == seq(len, _ => 0)
  {
    if len > 0 {
      FixedHexZero(len - 1);
    }
  }

  lemma {:induction false} PaddedHexIsFixed(n: nat, len: nat)
    requires |ToHex(n)| <= len
    ensures PadStart(ToHex(n), len) == FixedHex(n, len)
  {
    if n < 16 {
      FixedHexZero(len - 1);
      assert n / 16 == 0 && n % 16 == n;
    } else {
      PaddedHexIsFixed(n / 16, len - 1);
      var s := ToHex(n / 16);
      assert PadStart(s + [n % 16], len) == PadStart(s, len - 1) + [n % 16];
    }
  }

  lemma {:induction false} FixedHexIsBigEndian(n: nat, len: nat)
    ensures HexToU8a(FixedHex(n, 2 * len)) == ToBE(n, len)
  {
    if len > 0 {
      var front := FixedHex(n / 256, 2 * len - 2);
      var back: seq<Digit> := [n / 16 % 16, n % 16];
      assert n / 16 / 16 == n / 256;
      assert FixedHex(n / 16, 2 * len - 1) == front + [n / 16 % 16];
      assert FixedHex(n, 2 * len) == front + back;
      HexToU8aConcat(front, back);
      FixedHexIsBigEndian(n / 256, len - 1);
      assert HexToU8a(back) == [n % 256] + HexToU8a(back[2..]);
      assert back[2..] == [];
    }
  }

  // Padding to 2 * len digits writes the number big-endian in len bytes.
  lemma PaddedHexIsBigEndian(n: nat, len: nat)
    requires len > 0 && n < Pow16(2 * len)
    ensures |PadStart(ToHex(n), 2 * len)| == 2 * len
    ensures HexToU8a(PadStart(ToHex(n), 2 * len)) == ToBE(n, len)
  {
    ToHexLength(n, 2 * len);
    PaddedHexIsFixed(n, 2 * len);
    FixedHexIsBigEndian(n, len);
  }

  // ---------- The packer ----------

  function NumbersHex(d: VoucherData): seq<Digit> {
    PadStart(ToHex(d.oracleBlock), 8) + PadStart(ToHex(d.difficulty), 8)
    + PadStart(ToHex(d.noRedeemBeforeBlock), 8) + PadStart(ToHex(d.valueIfPaid), 8)
  }

  // The first 128 bytes of the result: no range overlaps another.
  function PackedPrefix(d: VoucherData): (b: seq<Byte>)
    ensures |b| == SIGNED_LENGTH
  {
    ToBE(d.oracleBlock, 4) + ToBE(d.difficulty, 4) + ToBE(d.noRedeemBeforeBlock, 4) + ToBE(d.valueIfPaid, 4)
    + d.priceListCommit[..16] + d.senderPubKey + d.recipientPubKey + d.nonce
  }

  // The signed message is the whole buffer, its last 64 bytes still zero.
  function SignedMessage(d: VoucherData): (b: seq<Byte>)
    ensures |b| == VOUCHER_LENGTH
  {
    PackedPrefix(d) + seq(64, _ => 0)
  }

  function Packed(d: VoucherData, sign: seq<Byte> -> Signature): (b: VoucherBytes)
    ensures |b| == VOUCHER_LENGTH
  {
    PackedPrefix(d) + sign(SignedMessage(d))
  }

  // The signature ends the voucher, over the 128 bytes before it followed by 64 zeros.
  lemma SignedBytes(d: VoucherData, sign: seq<Byte> -> Signature)
    ensures Packed(d, sign)[128..] == sign(Packed(d, sign)[..128] + seq(64, _ => 0))
  {
    assert Packed(d, sign)[..128] == PackedPrefix(d);
  }

  lemma NumbersHexBytes(d: VoucherData)
    ensures |NumbersHex(d)| == 32
    ensures HexToU8a(NumbersHex(d)) == ToBE(d.oracleBlock, 4) + ToBE(d.difficulty, 4)
                                       + ToBE(d.noRedeemBeforeBlock, 4) + ToBE(d.valueIfPaid, 4)
  {
    assert Pow16(8) == U32_MAX + 1;
    PaddedHexIsBigEndian(d.oracleBlock, 4);
    PaddedHexIsBigEndian(d.difficulty, 4);
    PaddedHexIsBigEndian(d.noRedeemBeforeBlock, 4);
    PaddedHexIsBigEndian(d.valueIfPaid, 4);
    var o, f := PadStart(ToHex(d.oracleBlock), 8), PadStart(ToHex(d.difficulty), 8);
    var r, v := PadStart(ToHex(d.noRedeemBeforeBlock), 8), PadStart(ToHex(d.valueIfPaid), 8);
    HexToU8aConcat(o, f);
    HexToU8aConcat(o + f, r);
    HexToU8aConcat(o + f + r, v);
  }

  // The five writes, in order: the sender key covers the upper half of the 32-byte hash.
  lemma OverlappingWrites(numbers: seq<Byte>, hash: Bytes32, sender: Bytes32, recipient: Bytes32, nonce: Bytes32)
    requires |numbers| == 16
    ensures var b := Overwrite(Overwrite(seq(192, _ => 0), 0, numbers), 16, hash);
            Overwrite(Overwrite(Overwrite(b, 32, sender), 64, recipient), 96, nonce)
            == numbers + hash[..16] + sender + recipient + nonce + seq(64, _ => 0)
  {
    var b1: seq<Byte> := Overwrite(seq(192, _ => 0), 0, numbers);
    assert b1 == numbers + seq(176, _ => 0);
    var b2 := Overwrite(b1, 16, hash);
    assert b2 == numbers + hash + seq(144, _ => 0);
    var b3 := Overwrite(b2, 32, sender);
    assert b3 == numbers + hash[..16] + sender + seq(128, _ => 0);
    var b4 := Overwrite(b3, 64, recipient);
    assert b4 == numbers + hash[..16] + sender + recipient + seq(96, _ => 0);
  }

  method PackAndSignVoucher(d: VoucherData, scheme: string, sign: seq<Byte> -> Signature)
    returns (r: Option<array<Byte>>)
    ensures r.Some? <==> scheme == "sr25519"
    ensures r.Some? ==> fresh(r.value) && r.value[..] == Packed(d, sign)
    ensures r.Some? ==> r.value.Length == 192 && r.value[128..] == sign(r.value[..128] + seq(64, _ => 0))
  {
    if scheme != "sr25519" {
      return None;
    }
    NumbersHexBytes(d);
    var buffer := new Byte[192](_ => 0);
    assert buffer[..] == seq(192, _ => 0);
    CopyInto(buffer, 0, HexToU8a(NumbersHex(d)));
    CopyInto(buffer, 16, d.priceListCommit);
    CopyInto(buffer, 32, d.senderPubKey);
    CopyInto(buffer, 64, d.recipientPubKey);
    CopyInto(buffer, 96, d.nonce);
    OverlappingWrites(HexToU8a(NumbersHex(d)), d.priceListCommit, d.senderPubKey, d.recipientPubKey, d.nonce);
    assert buffer[..] == SignedMessage(d);
    var sig := sign(buffer[..]);
    CopyInto(buffer, 128, sig);
    assert buffer[..] == Packed(d, sign);
    SignedBytes(d, sign);
    assert buffer[..128] == buffer[..][..128] && buffer[128..] == buffer[..][128..];
    r := Some(buffer);
  }

  // ---------- What the pallet reads ----------

  // The number whose four bytes are n's in reverse.
  function Swap32(n: U32): U32 {
    U32FromLE(ToBE(n, 4))
  }

  lemma SwapTwice(n: U32)
    ensures Swap32(Swap32(n)) == n
    ensures ToBE(Swap32(n), 4) == ToLE(n, 4)
  {
    ToBEReversesToLE(n, 4);
    ToLEFromLE(ToBE(n, 4));
    ToBEReversesToLE(Swap32(n), 4);
    ReverseTwice(ToLE(n, 4));
    Pow256Values();
    RoundTripLE(n, 4);
  }

  predicate Palindrome(n: U32) {
    var b := ToLE(n, 4);
    b[0] == b[3] && b[1] == b[2]
  }

  lemma SwapFixesPalindromes(n: U32)
    ensures Swap32(n) == n <==> Palindrome(n)
  {
    var b := ToLE(n, 4);
    ToBEReversesToLE(n, 4);
    assert Reverse(b) == [b[3], b[2], b[1], b[0]];
    assert b == [b[0], b[1], b[2], b[3]];
    Pow256Values();
    RoundTripLE(n, 4);
    ToLEFromLE(Reverse(b));
  }

  // The voucher the client means.
  function Intended(d: VoucherData, signature: Signature): Voucher {
    Pow256Values();
    Voucher(d.oracleBlock, d.difficulty, d.noRedeemBeforeBlock, d.valueIfPaid,
            FromLE(d.priceListCommit) % (U128_MAX + 1), d.senderPubKey, d.recipientPubKey, d.nonce, signature)
  }

  function SwapNumbers(d: VoucherData): VoucherData {
    d.(oracleBlock := Swap32(d.oracleBlock), difficulty := Swap32(d.difficulty),
       noRedeemBeforeBlock := Swap32(d.noRedeemBeforeBlock), valueIfPaid := Swap32(d.valueIfPaid))
  }

  // The voucher the pallet reads.
  function PackedVoucher(d: VoucherData, sign: seq<Byte> -> Signature): Voucher {
    Intended(SwapNumbers(d), sign(SignedMessage(d)))
  }

  // Parsing a packed voucher: each number comes out byte-reversed, the commitment is the price-list
  // hash modulo 2^128 (the overlap with the sender key cuts it), and the rest is unchanged.
  lemma ParsePacked(d: VoucherData, sign: seq<Byte> -> Signature)
    ensures FromLE(d.priceListCommit) % (U128_MAX + 1) <= U128_MAX
    ensures Parse(Packed(d, sign)) == Success(Voucher(
              Swap32(d.oracleBlock), Swap32(d.difficulty), Swap32(d.noRedeemBeforeBlock), Swap32(d.valueIfPaid),
              FromLE(d.priceListCommit) % (U128_MAX + 1),
              d.senderPubKey, d.recipientPubKey, d.nonce, sign(SignedMessage(d))))
  {
    var b := Packed(d, sign);
    Pow256Values();
    var h := d.priceListCommit;
    FromLEPrefix(h[..16], h[16..]);
    assert h[..16] + h[16..] == h;
    PackedRanges(d, sign);
    ParsedFields(b);
  }

  lemma PackedRanges(d: VoucherData, sign: seq<Byte> -> Signature)
    ensures var b := Packed(d, sign);
            && b[0..4] == ToBE(d.oracleBlock, 4) && b[4..8] == ToBE(d.difficulty, 4)
            && b[8..12] == ToBE(d.noRedeemBeforeBlock, 4) && b[12..16] == ToBE(d.valueIfPaid, 4)
            && b[16..32] == d.priceListCommit[..16]
            && b[32..64] == d.senderPubKey && b[64..96] == d.recipientPubKey && b[96..128] == d.nonce
            && b[128..192] == sign(SignedMessage(d))
            && b[..128] == PackedPrefix(d)
  {
  }

  // The two sides agree on all four numbers exactly when each reads the same from both ends.
  lemma NumbersAgree(d: VoucherData, sign: seq<Byte> -> Signature)
    ensures Parse(Packed(d, sign)).Success?
    ensures var v := Parse(Packed(d, sign)).value;
            (v.oracleBlock == d.oracleBlock <==> Palindrome(d.oracleBlock))
            && (v.difficulty == d.difficulty <==> Palindrome(d.difficulty))
            && (v.noRedeemBeforeBlock == d.noRedeemBeforeBlock <==> Palindrome(d.noRedeemBeforeBlock))
            && (v.valueIfPaid == d.valueIfPaid <==> Palindrome(d.valueIfPaid))
  {
    ParsePacked(d, sign);
    SwapFixesPalindromes(d.oracleBlock);
    SwapFixesPalindromes(d.difficulty);
    SwapFixesPalindromes(d.noRedeemBeforeBlock);
    SwapFixesPalindromes(d.valueIfPaid);
  }

  // Block 1 is not read as block 1.
  lemma NumbersCanDisagree(d: VoucherData, sign: seq<Byte> -> Signature)
    requires d.oracleBlock == 1
    ensures Parse(Packed(d, sign)).Success? && Parse(Packed(d, sign)).value.oracleBlock == 0x0100_0000
  {
    ParsePacked(d, sign);
    assert ToBE(1, 4) == [0, 0, 0, 1];
  }

  // Reversing the numbers first makes the packer write the pallet's own layout.
  lemma SwappedPackingIsEncoding(d: VoucherData, sign: seq<Byte> -> Signature, signature: Signature)
    ensures PackedPrefix(SwapNumbers(d)) == EncodeUnsigned(Intended(d, signature))
    ensures Parse(Packed(SwapNumbers(d), sign)) == Success(Intended(d, sign(SignedMessage(SwapNumbers(d)))))
  {
    SwapTwice(d.oracleBlock);
    SwapTwice(d.difficulty);
    SwapTwice(d.noRedeemBeforeBlock);
    SwapTwice(d.valueIfPaid);
    ParsePacked(SwapNumbers(d), sign);
    CommitBytes(d.priceListCommit);
  }

  lemma CommitBytes(h: Bytes32)
    ensures ToLE(FromLE(h) % (U128_MAX + 1), 16) == h[..16]
  {
    Pow256Values();
    FromLEPrefix(h[..16], h[16..]);
    assert h[..16] + h[16..] == h;
    ToLEFromLE(h[..16]);
  }

  // The draw of a packed voucher, on the randomness of the oracle block the pallet reads.
  predicate PackedWins(c: Crypto, recorded: seq<H256>, d: VoucherData)
    requires 1 <= Swap32(d.oracleBlock) <= |recorded| && Swap32(d.difficulty) > 0
  {
    Lottery.Wins(c.blake2(PackedPrefix(d) + recorded[Swap32(d.oracleBlock) - 1]), Swap32(d.difficulty))
  }

  // The signature is made over 192 bytes and checked against the first 128 of them.
  ghost predicate ShortMessageVerifies(c: Crypto, d: VoucherData, sign: seq<Byte> -> Signature) {
    c.verify(PackedPrefix(d), sign(SignedMessage(d)), d.senderPubKey)
  }

  // Exactly when the pallet accepts what the client packed.
  lemma PackedAccepted(c: Crypto, run: seq<Action>, origin: Origin, d: VoucherData, sign: seq<Byte> -> Signature)
    requires Fits(run)
    ensures OutcomeAfter(c, run, Call(origin, Packed(d, sign))).Accepted?
       <==> && origin == Signed(d.recipientPubKey)
            && ShortMessageVerifies(c, d, sign)
            && InWindow(Swap32(d.oracleBlock), Swap32(d.noRedeemBeforeBlock), |Recorded(run)|)
            && Swap32(d.difficulty) > 0
            && PackedWins(c, Recorded(run), d)
  {
    PrunedRefinesFullLog(c, run, Call(origin, Packed(d, sign)));
    PackedAcceptedUnpruned(c, Recorded(run), origin, d, sign);
  }

  lemma PackedAcceptedUnpruned(c: Crypto, recorded: seq<H256>, origin: Origin,
                               d: VoucherData, sign: seq<Byte> -> Signature)
    requires |recorded| <= U32_MAX
    ensures ClaimUnpruned(c, recorded, Call(origin, Packed(d, sign))).Accepted?
       <==> && origin == Signed(d.recipientPubKey)
            && ShortMessageVerifies(c, d, sign)
            && InWindow(Swap32(d.oracleBlock), Swap32(d.noRedeemBeforeBlock), |recorded|)
            && Swap32(d.difficulty) > 0
            && PackedWins(c, recorded, d)
  {
    if origin.Signed? {
      var v := PackedVoucher(d, sign);
      PackedIsJudged(c, recorded, origin, d, sign);
      assert Packed(d, sign)[..SIGNED_LENGTH] == PackedPrefix(d);
      JudgeAccepts(c, |recorded|, origin.who, Packed(d, sign), v, Aged(recorded, v.oracleBlock));
    }
  }

  lemma PackedIsJudged(c: Crypto, recorded: seq<H256>, origin: Origin, d: VoucherData, sign: seq<Byte> -> Signature)
    requires |recorded| <= U32_MAX && origin.Signed?
    ensures var v := PackedVoucher(d, sign);
            ClaimUnpruned(c, recorded, Call(origin, Packed(d, sign)))
            == Judge(c, |recorded|, origin.who, Packed(d, sign), v, Aged(recorded, v.oracleBlock))
  {
    ParsePacked(d, sign);
  }

  // A signature that does not fit the shorter message keeps a packed voucher from ever being accepted,
  // whatever its numbers, from anyone, in any run.
  lemma PackedNeverAccepted(c: Crypto, run: seq<Action>, origin: Origin,
                            d: VoucherData, sign: seq<Byte> -> Signature)
    requires Fits(run) && !ShortMessageVerifies(c, d, sign)
    ensures !OutcomeAfter(c, run, Call(origin, Packed(d, sign))).Accepted?
  {
    PackedAccepted(c, run, origin, d, sign);
  }

  // The signature error itself: the recipient claims no earlier than the redeem block the pallet reads,
  // and the shorter message does not verify.
  lemma PackedSignatureCheck(c: Crypto, run: seq<Action>, origin: Origin,
                             d: VoucherData, sign: seq<Byte> -> Signature)
    requires Fits(run)
    ensures OutcomeAfter(c, run, Call(origin, Packed(d, sign))) == Failed(InvalidVoucherSignature)
       <==> && origin == Signed(d.recipientPubKey)
            && Swap32(d.noRedeemBeforeBlock) <= |Recorded(run)|
            && !ShortMessageVerifies(c, d, sign)
  {
    ParsePacked(d, sign);
    PackedRanges(d, sign);
  }
}
