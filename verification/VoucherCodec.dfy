/**
 The 192-byte voucher: `Parse` is the pallet's reader, `Encode` the little-endian layout the
 pallet's own test builds. The two are inverse to each other.
 */
module VoucherCodec {
  import opened Wrappers
  import opened Bytes

  type AccountId = Bytes32
  type H256 = Bytes32
  type Signature = Bytes64

  const SIGNED_LENGTH := 128
  const VOUCHER_LENGTH := 192
  const MAX_VOUCHER_LENGTH := 256

  // BoundedVec<u8, MaxVoucherLength>
  type VoucherBytes = b: seq<Byte> | |b| <= MAX_VOUCHER_LENGTH

  datatype Voucher = Voucher(
    oracleBlock: U32,
    difficulty: U32,
    noRedeemBeforeBlock: U32,
    valueIfPaid: U32,
    priceListCommit: U128,
    senderPk: AccountId,
    recipientPk: AccountId,
    nonce: H256,
    signature: Signature)

  function U32FromLE(s: seq<Byte>): (n: U32)
    requires |s| == 4
  {
    FromLEBound(s);
    Pow256Values();
    FromLE(s)
  }

  function U128FromLE(s: seq<Byte>): (n: U128)
    requires |s| == 16
  {
    FromLEBound(s);
    Pow256Values();
    FromLE(s)
  }

  // Decoding a fixed array of `size` bytes fails only when the input runs out.
  function DecodeFixed(s: seq<Byte>, size: nat, code: Byte): (r: Result<seq<Byte>, Byte>)
    ensures r == if |s| < size then Failure(code) else Success(s[..size])
  {
    if |s| < size then Failure(code) else Success(s[..size])
  }

  function Parse(voucher: seq<Byte>): Result<Voucher, Byte> {
    if |voucher| < VOUCHER_LENGTH then Failure(0)
    else
      var oracleBlock := U32FromLE(voucher[0..4]);
      var difficulty := U32FromLE(voucher[4..8]);
      var noRedeemBeforeBlock := U32FromLE(voucher[8..12]);
      var valueIfPaid := U32FromLE(voucher[12..16]);
      var priceListCommit := U128FromLE(voucher[16..32]);
      var senderPk :- DecodeFixed(voucher[32..64], 32, 1);
      var recipientPk :- DecodeFixed(voucher[64..96], 32, 2);
      var nonce := voucher[96..128];
      var signature :- DecodeFixed(voucher[128..192], 64, 3);
      Success(Voucher(oracleBlock, difficulty, noRedeemBeforeBlock, valueIfPaid, priceListCommit,
                      senderPk, recipientPk, nonce, signature))
  }

  function EncodeUnsigned(v: Voucher): (b: seq<Byte>)
    ensures |b| == SIGNED_LENGTH
  {
    ToLE(v.oracleBlock, 4) + ToLE(v.difficulty, 4) + ToLE(v.noRedeemBeforeBlock, 4) + ToLE(v.valueIfPaid, 4)
    + ToLE(v.priceListCommit, 16) + v.senderPk + v.recipientPk + v.nonce
  }

  function Encode(v: Voucher): (b: VoucherBytes)
    ensures |b| == VOUCHER_LENGTH
  {
    EncodeUnsigned(v) + v.signature
  }

  // What each byte range of an encoded voucher holds.
  lemma EncodedFields(v: Voucher, b: seq<Byte>)
    requires |b| >= SIGNED_LENGTH && b[..SIGNED_LENGTH] == EncodeUnsigned(v)
    ensures b[0..4] == ToLE(v.oracleBlock, 4) && b[4..8] == ToLE(v.difficulty, 4)
    ensures b[8..12] == ToLE(v.noRedeemBeforeBlock, 4) && b[12..16] == ToLE(v.valueIfPaid, 4)
    ensures b[16..32] == ToLE(v.priceListCommit, 16)
    ensures b[32..64] == v.senderPk && b[64..96] == v.recipientPk && b[96..128] == v.nonce
  {
    SliceOfPrefix(b, 0, 4);
    SliceOfPrefix(b, 4, 8);
    SliceOfPrefix(b, 8, 12);
    SliceOfPrefix(b, 12, 16);
    SliceOfPrefix(b, 16, 32);
    SliceOfPrefix(b, 32, 64);
    SliceOfPrefix(b, 64, 96);
    SliceOfPrefix(b, 96, 128);
    UnsignedRanges(v);
  }

  lemma SliceOfPrefix(b: seq<Byte>, lo: nat, hi: nat)
    requires lo <= hi <= SIGNED_LENGTH <= |b|
    ensures b[lo..hi] == b[..SIGNED_LENGTH][lo..hi]
  {
  }

  lemma UnsignedRanges(v: Voucher)
    ensures var u := EncodeUnsigned(v);
            && u[0..4] == ToLE(v.oracleBlock, 4) && u[4..8] == ToLE(v.difficulty, 4)
            && u[8..12] == ToLE(v.noRedeemBeforeBlock, 4) && u[12..16] == ToLE(v.valueIfPaid, 4)
            && u[16..32] == ToLE(v.priceListCommit, 16)
            && u[32..64] == v.senderPk && u[64..96] == v.recipientPk && u[96..128] == v.nonce
  {
  }

  lemma NumbersRoundTrip(v: Voucher)
    ensures FromLE(ToLE(v.oracleBlock, 4)) == v.oracleBlock
    ensures FromLE(ToLE(v.difficulty, 4)) == v.difficulty
    ensures FromLE(ToLE(v.noRedeemBeforeBlock, 4)) == v.noRedeemBeforeBlock
    ensures FromLE(ToLE(v.valueIfPaid, 4)) == v.valueIfPaid
    ensures FromLE(ToLE(v.priceListCommit, 16)) == v.priceListCommit
  {
    Pow256Values();
    RoundTripLE(v.oracleBlock, 4);
    RoundTripLE(v.difficulty, 4);
    RoundTripLE(v.noRedeemBeforeBlock, 4);
    RoundTripLE(v.valueIfPaid, 4);
    RoundTripLE(v.priceListCommit, 16);
  }

  // What a parsed voucher's fields hold, in terms of the bytes.
  lemma ParsedFields(b: seq<Byte>)
    requires |b| >= VOUCHER_LENGTH
    ensures Parse(b).Success?
    ensures var v := Parse(b).value;
            && v.oracleBlock == FromLE(b[0..4]) && v.difficulty == FromLE(b[4..8])
            && v.noRedeemBeforeBlock == FromLE(b[8..12]) && v.valueIfPaid == FromLE(b[12..16])
            && v.priceListCommit == FromLE(b[16..32])
            && v.senderPk == b[32..64] && v.recipientPk == b[64..96] && v.nonce == b[96..128]
            && v.signature == b[128..192]
  {
    assert b[32..64][..32] == b[32..64];
    assert b[64..96][..32] == b[64..96];
    assert b[128..192][..64] == b[128..192];
  }

  lemma JoinFields(b: seq<Byte>)
    requires |b| >= VOUCHER_LENGTH
    ensures b[0..4] + b[4..8] + b[8..12] + b[12..16] + b[16..32] + b[32..64] + b[64..96] + b[96..128]
            == b[..SIGNED_LENGTH]
    ensures b[..SIGNED_LENGTH] + b[SIGNED_LENGTH..VOUCHER_LENGTH] == b[..VOUCHER_LENGTH]
  {
  }

  // Reading back an encoded voucher gives it unchanged, whatever follows its 192 bytes.
  lemma ParseEncode(v: Voucher, rest: seq<Byte>)
    ensures Parse(Encode(v) + rest) == Success(v)
  {
    var b := Encode(v) + rest;
    assert b[..SIGNED_LENGTH] == EncodeUnsigned(v);
    EncodedFields(v, b);
    NumbersRoundTrip(v);
    assert b[128..192] == v.signature;
    ParsedFields(b);
  }

  // Parsing fails exactly on short input, always with code 0.
  lemma ParseFailsOnlyWhenShort(b: seq<Byte>)
    ensures Parse(b).Failure? <==> |b| < VOUCHER_LENGTH
    ensures Parse(b).Failure? ==> Parse(b).error == 0
  {
  }

  // Every string of at least 192 bytes starts with the encoding of what it parses to.
  lemma EncodeParse(b: seq<Byte>)
    requires |b| >= VOUCHER_LENGTH
    ensures Parse(b).Success? && Encode(Parse(b).value) == b[..VOUCHER_LENGTH]
  {
    ParsedFields(b);
    JoinFields(b);
    ToLEFromLE(b[0..4]);
    ToLEFromLE(b[4..8]);
    ToLEFromLE(b[8..12]);
    ToLEFromLE(b[12..16]);
    ToLEFromLE(b[16..32]);
  }

  // Two strings parse to the same voucher exactly when their first 192 bytes agree.
  lemma ParseCanonical(a: seq<Byte>, b: seq<Byte>)
    requires |a| >= VOUCHER_LENGTH && |b| >= VOUCHER_LENGTH
    ensures Parse(a) == Parse(b) <==> a[..VOUCHER_LENGTH] == b[..VOUCHER_LENGTH]
  {
    EncodeParse(a);
    EncodeParse(b);
    ParseEncode(Parse(a).value, a[VOUCHER_LENGTH..]);
    ParseEncode(Parse(b).value, b[VOUCHER_LENGTH..]);
    assert a == a[..VOUCHER_LENGTH] + a[VOUCHER_LENGTH..];
    assert b == b[..VOUCHER_LENGTH] + b[VOUCHER_LENGTH..];
    if a[..VOUCHER_LENGTH] == b[..VOUCHER_LENGTH] {
      assert Parse(a) == Success(Parse(a).value);
      ParseEncode(Parse(a).value, b[VOUCHER_LENGTH..]);
    }
  }
}
