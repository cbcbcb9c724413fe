/**
 The lottery: a 32-byte hash, read as a little-endian 256-bit number, wins when it is strictly
 below `U256::MAX / difficulty`. The chance of winning is found exactly, by counting hashes.
 */
module Lottery {
  import opened Arithmetic
  import opened Bytes

  predicate Wins(hash: Bytes32, difficulty: U32)
    requires difficulty > 0
  {
    FromLE(hash) < U256_MAX / difficulty
  }

  // The 32-byte strings that read as a number below `t`.
  ghost function HashesBelow(t: nat): set<seq<Byte>> {
    set v | v in Interval(0, t) :: ToLE(v, 32)
  }

  ghost function AllHashes(): set<seq<Byte>> {
    HashesBelow(U256_MAX + 1)
  }

  ghost function WinningHashes(difficulty: U32): set<seq<Byte>>
    requires difficulty > 0
  {
    HashesBelow(U256_MAX / difficulty)
  }

  lemma HashesBelowMembers(t: nat, h: seq<Byte>)
    requires t <= U256_MAX + 1
    ensures h in HashesBelow(t) <==> |h| == 32 && FromLE(h) < t
  {
    Pow256Values();
    if h in HashesBelow(t) {
      var v :| v in Interval(0, t) && ToLE(v, 32) == h;
      RoundTripLE(v, 32);
    }
    if |h| == 32 && FromLE(h) < t {
      ToLEFromLE(h);
      assert FromLE(h) in Interval(0, t);
    }
  }

  lemma {:induction false} HashesBelowCount(t: nat)
    requires t <= U256_MAX + 1
    ensures |HashesBelow(t)| == t
    decreases t
  {
    if t == 0 {
      assert HashesBelow(t) == {};
    } else {
      HashesBelowCount(t - 1);
      var last := ToLE(t - 1, 32);
      assert HashesBelow(t) == HashesBelow(t - 1) + {last};
      assert last !in HashesBelow(t - 1) by {
        Pow256Values();
        RoundTripLE(t - 1, 32);
        HashesBelowMembers(t - 1, last);
      }
    }
  }

  // Of the 2^256 hashes, exactly floor((2^256 - 1) / difficulty) win.
  lemma WinCount(difficulty: U32)
    requires difficulty > 0
    ensures forall h: seq<Byte> :: h in WinningHashes(difficulty) <==> |h| == 32 && Wins(h, difficulty)
    ensures |WinningHashes(difficulty)| == U256_MAX / difficulty
    ensures forall h: seq<Byte> :: h in AllHashes() <==> |h| == 32
    ensures |AllHashes()| == U256_MAX + 1
  {
    QuotientBounds(U256_MAX, difficulty);
    forall h: seq<Byte>
      ensures h in WinningHashes(difficulty) <==> |h| == 32 && Wins(h, difficulty)
    {
      HashesBelowMembers(U256_MAX / difficulty, h);
    }
    forall h: seq<Byte>
      ensures h in AllHashes() <==> |h| == 32
    {
      HashesBelowMembers(U256_MAX + 1, h);
      if |h| == 32 {
        FromLEBound(h);
        Pow256Values();
      }
    }
    HashesBelowCount(U256_MAX / difficulty);
    HashesBelowCount(U256_MAX + 1);
  }

  // Under a uniform hash the chance to win lies in [1/difficulty - 2^-256, 1/difficulty).
  lemma WinProbability(difficulty: U32)
    requires difficulty > 0
    ensures |AllHashes()| > 0
    ensures var p := |WinningHashes(difficulty)| as real / |AllHashes()| as real;
            1.0 / difficulty as real - 1.0 / (U256_MAX + 1) as real <= p < 1.0 / difficulty as real
  {
    WinCount(difficulty);
    QuotientBounds(U256_MAX, difficulty);
    RatioBounds(U256_MAX / difficulty, U256_MAX + 1, difficulty);
  }

  lemma RatioBounds(count: nat, total: nat, d: nat)
    requires d > 0 && total > 0 && count * d < total <= count * d + d
    ensures 1.0 / d as real - 1.0 / total as real <= count as real / total as real < 1.0 / d as real
  {
    var c, n, x := count as real, total as real, d as real;
    ProductOfCasts(count, d);
    RealRatioBounds(c, n, x);
  }

  // Raising the difficulty only removes winning hashes.
  lemma WinsAntitone(hash: Bytes32, low: U32, high: U32)
    requires 0 < low <= high && Wins(hash, high)
    ensures Wins(hash, low)
  {
    QuotientAntitone(U256_MAX, low, high);
  }

  // "A difficulty of 1 implies P(payment) = 1" holds of every hash but one: the comparison is strict.
  lemma DifficultyOne(hash: Bytes32)
    ensures Wins(hash, 1) <==> hash != seq(32, _ => 255)
  {
    Pow256Values();
    FromLEBound(hash);
    FromLEAllOnes(32);
    if FromLE(hash) == U256_MAX {
      FromLEInjective(hash, seq(32, _ => 255));
    }
  }

  // The losing draw that shows it.
  lemma DifficultyOneCanLose()
    ensures !Wins(seq(32, _ => 255), 1)
  {
    DifficultyOne(seq(32, _ => 255));
  }
}
