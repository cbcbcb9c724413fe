/**
 Byte strings and the two integer encodings the voucher protocol uses: the pallet reads numbers
 least significant byte first, the client writes them most significant byte first.
 */
module Bytes {
  import opened Arithmetic

  type Byte = b: int | 0 <= b < 256

  const U32_MAX: nat := 0xFFFF_FFFF
  const U128_MAX: nat := 0xFFFF_FFFF_FFFF_FFFF_FFFF_FFFF_FFFF_FFFF
  const U256_MAX: nat := 0xFFFF_FFFF_FFFF_FFFF_FFFF_FFFF_FFFF_FFFF_FFFF_FFFF_FFFF_FFFF_FFFF_FFFF_FFFF_FFFF

  type U32 = n: int | 0 <= n <= U32_MAX
  type U128 = n: int | 0 <= n <= U128_MAX

  type Bytes32 = s: seq<Byte> | |s| == 32 witness seq(32, _ => 0)
  type Bytes64 = s: seq<Byte> | |s| == 64 witness seq(64, _ => 0)

  function Pow256(n: nat): (p: nat)
    ensures p > 0
  {
    if n == 0 then 1 else 256 * Pow256(n - 1)
  }

  lemma Pow256Values()
    ensures Pow256(4) == U32_MAX + 1
    ensures Pow256(16) == U128_MAX + 1
    ensures Pow256(32) == U256_MAX + 1
  {
    assert Pow256(4) == U32_MAX + 1;
    Pow256Add(4, 4);
    Pow256Add(8, 8);
    Pow256Add(16, 16);
  }

  lemma {:induction false} Pow256Add(m: nat, n: nat)
    ensures Pow256(m + n) == Pow256(m) * Pow256(n)
  {
    if m > 0 {
      Pow256Add(m - 1, n);
      MulAssoc(256, Pow256(m - 1), Pow256(n));
    }
  }

  // `from_le_bytes`: the first byte is the least significant.
  function FromLE(s: seq<Byte>): nat {
    if s == [] then 0 else s[0] + 256 * FromLE(s[1..])
  }

  // `encode` of an unsigned integer of `len` bytes.
  function ToLE(n: nat, len: nat): (s: seq<Byte>)
    ensures |s| == len
  {
    if len == 0 then [] else [n % 256] + ToLE(n / 256, len - 1)
  }

  // The same bytes, most significant first.
  function ToBE(n: nat, len: nat): (s: seq<Byte>)
    ensures |s| == len
  {
    if len == 0 then [] else ToBE(n / 256, len - 1) + [n % 256]
  }

  function Reverse(s: seq<Byte>): (r: seq<Byte>)
    ensures |r| == |s|
  {
    seq(|s|, i requires 0 <= i < |s| => s[|s| - 1 - i])
  }

  lemma {:induction false} FromLEBound(s: seq<Byte>)
    ensures FromLE(s) < Pow256(|s|)
  {
    if s != [] {
      FromLEBound(s[1..]);
    }
  }

  // Encoding keeps the number modulo the width ...
  lemma {:induction false} FromLEToLE(n: nat, len: nat)
    ensures FromLE(ToLE(n, len)) == n % Pow256(len)
  {
    if len == 0 {
    } else {
      FromLEToLE(n / 256, len - 1);
      assert ToLE(n, len)[1..] == ToLE(n / 256, len - 1);
      DivModCompose(n, Pow256(len - 1));
    }
  }

  lemma DivModCompose(n: nat, p: nat)
    requires p > 0
    ensures n % (256 * p) == n % 256 + 256 * (n / 256 % p)
  {
    var m := n / 256;
    var q, r := m / p, m % p;
    assert m == q * p + r;
    MulAssoc(256, q, p);
    MulAssoc(q, 256, p);
    DivModUnique(n, 256 * p, q, n % 256 + 256 * r);
  }

  // ... and a number that fits is read back.
  lemma RoundTripLE(n: nat, len: nat)
    requires n < Pow256(len)
    ensures FromLE(ToLE(n, len)) == n
  {
    FromLEToLE(n, len);
    assert n % Pow256(len) == n by {
      DivModUnique(n, Pow256(len), 0, n);
    }
  }

  lemma {:induction false} ToLEFromLE(s: seq<Byte>)
    ensures ToLE(FromLE(s), |s|) == s
  {
    if s != [] {
      ToLEFromLE(s[1..]);
      assert FromLE(s) % 256 == s[0] && FromLE(s) / 256 == FromLE(s[1..]);
    }
  }

  lemma FromLEInjective(s: seq<Byte>, t: seq<Byte>)
    requires |s| == |t| && FromLE(s) == FromLE(t)
    ensures s == t
  {
    ToLEFromLE(s);
    ToLEFromLE(t);
  }

  lemma {:induction false} FromLEConcat(s: seq<Byte>, t: seq<Byte>)
    ensures FromLE(s + t) == FromLE(s) + Pow256(|s|) * FromLE(t)
  {
    if s == [] {
      assert s + t == t;
    } else {
      FromLEConcat(s[1..], t);
      assert (s + t)[1..] == s[1..] + t;
      MulAssoc(256, Pow256(|s| - 1), FromLE(t));
    }
  }

  // Keeping the first bytes is reduction modulo their width.
  lemma FromLEPrefix(s: seq<Byte>, t: seq<Byte>)
    ensures FromLE(s) == FromLE(s + t) % Pow256(|s|)
  {
    FromLEConcat(s, t);
    FromLEBound(s);
    RemainderOfSum(FromLE(s + t), Pow256(|s|), FromLE(t), FromLE(s));
  }

  lemma RemainderOfSum(n: nat, p: nat, high: nat, low: nat)
    requires n == low + p * high && low < p
    ensures n % p == low
  {
    assert high * p == p * high;
    DivModUnique(n, p, high, low);
  }

  lemma {:induction false} ToBEReversesToLE(n: nat, len: nat)
    ensures ToBE(n, len) == Reverse(ToLE(n, len))
  {
    if len > 0 {
      ToBEReversesToLE(n / 256, len - 1);
    }
  }

  lemma ReverseConcat(s: seq<Byte>, t: seq<Byte>)
    ensures Reverse(s + t) == Reverse(t) + Reverse(s)
  {
  }

  lemma ReverseTwice(s: seq<Byte>)
    ensures Reverse(Reverse(s)) == s
  {
  }

  lemma {:induction false} FromLEAllOnes(n: nat)
    ensures FromLE(seq(n, _ => 255)) == Pow256(n) - 1
  {
    if n > 0 {
      FromLEAllOnes(n - 1);
      var s: seq<Byte> := seq(n, _ => 255);
      assert s[1..] == seq(n - 1, _ => 255);
    }
  }

  function Overwrite(s: seq<Byte>, at: nat, t: seq<Byte>): (r: seq<Byte>)
    requires at + |t| <= |s|
    ensures |r| == |s|
  {
    s[..at] + t + s[at + |t|..]
  }

  // Overwrite a[at..] with `source`, as `copy_from_slice` and `Uint8Array.set` do.
  method CopyInto(a: array<Byte>, at: nat, source: seq<Byte>)
    requires at + |source| <= a.Length
    modifies a
    ensures a[..] == Overwrite(old(a[..]), at, source)
  {
    forall i | 0 <= i < |source| {
      a[at + i] := source[i];
    }
  }
}
