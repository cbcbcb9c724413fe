/**
 Whole runs of the chain: any interleaving of block initialisations and claims from genesis.
 `Exec` executes a run step by step on the pruned storage; the theorems describe what it reaches
 in terms of the actions alone.
 */
module Runs {
  import opened Arithmetic
  import opened Wrappers
  import opened Bytes
  import opened VoucherCodec
  import opened Claiming
  import Lottery

  const EPOCH_LENGTH: U32 := 1024

  // A block comes with the randomness source its initialisation reads.
  datatype Action = Block(flip: seq<Byte> -> H256) | Claim(call: Call)

  // `events` are the current block's; `log` keeps every event of the run.
  datatype State = State(now: U32, history: map<U32, H256>, events: seq<Event>, log: seq<Event>)

  const GENESIS := State(0, map[], [], [])

  // The UTF-8 bytes of the two emoji (U+1F3B2, U+1F45B) that end every randomness topic.
  const TOPIC_SUFFIX: seq<Byte> := [0xF0, 0x9F, 0x8E, 0xB2, 0xF0, 0x9F, 0x91, 0x9B]

  function Topic(n: nat): seq<Byte> {
    ToLE(n, 4) + TOPIC_SUFFIX
  }

  function SaturatingSub(a: U32, b: U32): U32 {
    if a < b then 0 else a - b
  }

  // `on_initialize`: store block n's randomness, drop the entry that leaves the window.
  function Record(history: map<U32, H256>, n: U32, rand: H256): map<U32, H256> {
    var expired := SaturatingSub(n, EPOCH_LENGTH);
    if expired > 0 then history[n := rand] - {expired} else history[n := rand]
  }

  function Emitted(r: Outcome): seq<Event> {
    if r.Accepted? then [r.event] else []
  }

  function Step(c: Crypto, s: State, a: Action): State
    requires a.Block? ==> s.now < U32_MAX
  {
    match a
    case Block(flip) => State(s.now + 1, Record(s.history, s.now + 1, flip(Topic(s.now + 1))), [], s.log)
    case Claim(call) =>
      var e := Emitted(ClaimOutcome(c, s.now, s.history, call));
      s.(events := s.events + e, log := s.log + e)
  }

  // All randomness a run produced, unpruned: block o's is at index o - 1.
  function Recorded(run: seq<Action>): seq<H256> {
    if run == [] then []
    else
      var before := Recorded(run[..|run| - 1]);
      match run[|run| - 1]
      case Block(flip) => before + [flip(Topic(|before| + 1))]
      case Claim(_) => before
  }

  // Block numbers are 32 bits wide.
  predicate Fits(run: seq<Action>) {
    |Recorded(run)| <= U32_MAX
  }

  function Exec(c: Crypto, run: seq<Action>): (s: State)
    requires Fits(run)
    ensures s.now == |Recorded(run)|
  {
    if run == [] then GENESIS else Step(c, Exec(c, run[..|run| - 1]), run[|run| - 1])
  }

  // ---------- Composition ----------

  lemma RecordedSnoc(run: seq<Action>, a: Action)
    ensures Recorded(run + [a]) ==
            Recorded(run) + if a.Block? then [a.flip(Topic(|Recorded(run)| + 1))] else []
  {
    assert (run + [a])[..|run|] == run;
  }

  lemma ExecSnoc(c: Crypto, run: seq<Action>, a: Action)
    requires Fits(run + [a])
    ensures Fits(run) && (a.Block? ==> |Recorded(run)| < U32_MAX)
    ensures Exec(c, run + [a]) == Step(c, Exec(c, run), a)
  {
    RecordedSnoc(run, a);
    assert (run + [a])[..|run|] == run;
  }

  lemma ExecBlock(c: Crypto, run: seq<Action>, flip: seq<Byte> -> H256)
    requires |Recorded(run)| < U32_MAX
    ensures Fits(run + [Block(flip)])
    ensures var s := Exec(c, run);
            Exec(c, run + [Block(flip)])
            == State(s.now + 1, Record(s.history, s.now + 1, flip(Topic(s.now + 1))), [], s.log)
  {
    RecordedSnoc(run, Block(flip));
    ExecSnoc(c, run, Block(flip));
  }

  lemma {:induction false} RecordedTake(run: seq<Action>, i: nat)
    requires i <= |run|
    ensures Recorded(run[..i]) <= Recorded(run)
    decreases |run|
  {
    if i == |run| {
      assert run[..i] == run;
    } else {
      var front := run[..|run| - 1];
      RecordedTake(front, i);
      assert front[..i] == run[..i];
      assert Recorded(front) <= Recorded(run);
    }
  }

  lemma RecordedPrefix(pre: seq<Action>, post: seq<Action>)
    ensures Recorded(pre) <= Recorded(pre + post)
  {
    RecordedTake(pre + post, |pre|);
    assert (pre + post)[..|pre|] == pre;
  }

  // What later actions record does not depend on the claims before them.
  lemma {:induction false} RecordedSuffix(a: seq<Action>, b: seq<Action>, post: seq<Action>)
    requires Recorded(a) == Recorded(b)
    ensures Recorded(a + post) == Recorded(b + post)
    decreases |post|
  {
    if post == [] {
      assert a + post == a && b + post == b;
    } else {
      var front, last := post[..|post| - 1], post[|post| - 1];
      RecordedSuffix(a, b, front);
      assert a + post == (a + front) + [last] && b + post == (b + front) + [last];
      RecordedSnoc(a + front, last);
      RecordedSnoc(b + front, last);
    }
  }

  lemma PrefixFits(run: seq<Action>, i: nat)
    requires Fits(run) && i <= |run|
    ensures Fits(run[..i]) && Recorded(run[..i]) <= Recorded(run)
  {
    RecordedTake(run, i);
  }

  // The topic: the block number in four little-endian bytes, then the UTF-8 bytes of the two emoji.
  lemma TopicBytes(n: U32)
    ensures |Topic(n)| == 12
    ensures FromLE(Topic(n)[..4]) == n
    ensures Topic(n)[4..] == [0xF0, 0x9F, 0x8E, 0xB2, 0xF0, 0x9F, 0x91, 0x9B]
  {
    assert Topic(n)[..4] == ToLE(n, 4);
    Pow256Values();
    RoundTripLE(n, 4);
  }

  // No two blocks ask for randomness under the same topic.
  lemma TopicsDiffer(m: U32, n: U32)
    requires Topic(m) == Topic(n)
    ensures m == n
  {
    TopicBytes(m);
    TopicBytes(n);
  }

  // Action j initialises block o, drawing r.
  predicate InitialisedAt(run: seq<Action>, j: nat, o: nat, r: H256) {
    j < |run| && run[j].Block? && |Recorded(run[..j])| == o - 1 && r == run[j].flip(Topic(o))
  }

  // Every recorded value is the one the initialisation of that very block drew, on its own topic.
  lemma {:induction false} RecordedAtInitialisation(run: seq<Action>, o: nat) returns (j: nat)
    requires 1 <= o <= |Recorded(run)|
    ensures InitialisedAt(run, j, o, Recorded(run)[o - 1])
    ensures |Recorded(run[..j + 1])| == o
    decreases |run|
  {
    var front := run[..|run| - 1];
    assert run == front + [run[|run| - 1]];
    RecordedSnoc(front, run[|run| - 1]);
    if o <= |Recorded(front)| {
      j := RecordedAtInitialisation(front, o);
      assert run[..j] == front[..j] && run[..j + 1] == front[..j + 1];
    } else {
      j := |run| - 1;
      assert run[..j + 1] == run;
    }
  }

  // ---------- Retention ----------

  // Exactly the last 1024 blocks, each with its own randomness.
  function Retained(recorded: seq<H256>): map<U32, H256> {
    var window := Interval(Max(1, |recorded| - 1023), |recorded| + 1);
    map k: U32 | k in window :: recorded[k - 1]
  }

  lemma RecordRetained(recorded: seq<H256>, rand: H256)
    requires |recorded| < U32_MAX
    ensures Record(Retained(recorded), |recorded| + 1, rand) == Retained(recorded + [rand])
  {
  }

  lemma {:induction false} HistoryIsRetained(c: Crypto, run: seq<Action>)
    requires Fits(run)
    ensures Exec(c, run).history == Retained(Recorded(run))
  {
    if run != [] {
      var front, last := run[..|run| - 1], run[|run| - 1];
      assert run == front + [last];
      ExecSnoc(c, front, last);
      RecordedSnoc(front, last);
      HistoryIsRetained(c, front);
      if last.Block? {
        RecordRetained(Recorded(front), last.flip(Topic(|Recorded(front)| + 1)));
      }
    }
  }

  lemma RetainedSize(recorded: seq<H256>)
    requires |recorded| <= U32_MAX
    ensures |Retained(recorded)| == Min(|recorded|, 1024)
  {
    var lo, hi := Max(1, |recorded| - 1023), |recorded| + 1;
    assert Retained(recorded).Keys == Interval(lo, hi);
    IntervalSize(lo, hi);
  }

  // After n blocks the stored keys are exactly max(1, n - 1023) .. n, min(n, 1024) in number ...
  lemma RetentionInvariant(c: Crypto, run: seq<Action>)
    requires Fits(run)
    ensures var n, h := |Recorded(run)|, Exec(c, run).history;
            && Exec(c, run).now == n
            && (forall k: U32 :: k in h <==> Max(1, n - 1023) <= k <= n)
            && |h| == Min(n, 1024)
  {
    HistoryIsRetained(c, run);
    RetainedSize(Recorded(run));
  }

  // ... and each stored value is the one drawn by the initialisation of its own block.
  lemma StoredAtInitialisation(c: Crypto, run: seq<Action>, k: U32) returns (j: nat)
    requires Fits(run) && k in Exec(c, run).history
    ensures InitialisedAt(run, j, k, Exec(c, run).history[k])
  {
    HistoryIsRetained(c, run);
    j := RecordedAtInitialisation(run, k);
  }

  // ---------- The pruned storage refines the unpruned log ----------

  // Look-up in the full log behind the age test.
  function Aged(recorded: seq<H256>, oracle: U32): Option<H256> {
    if 1 <= oracle <= |recorded| && |recorded| - oracle < 1024 then Some(recorded[oracle - 1]) else None
  }

  function ClaimUnpruned(c: Crypto, recorded: seq<H256>, call: Call): Outcome
    requires |recorded| <= U32_MAX
  {
    if !call.origin.Signed? then Failed(BadOrigin)
    else match Parse(call.voucher)
      case Failure(code) => Failed(InvalidVoucher(code))
      case Success(v) => Judge(c, |recorded|, call.origin.who, call.voucher, v, Aged(recorded, v.oracleBlock))
  }

  // The outcome of a call made at the end of a run.
  function OutcomeAfter(c: Crypto, run: seq<Action>, call: Call): Outcome
    requires Fits(run)
  {
    var s := Exec(c, run);
    ClaimOutcome(c, s.now, s.history, call)
  }

  lemma PrunedRefinesFullLog(c: Crypto, run: seq<Action>, call: Call)
    requires Fits(run)
    ensures OutcomeAfter(c, run, call) == ClaimUnpruned(c, Recorded(run), call)
  {
    HistoryIsRetained(c, run);
  }

  // ---------- Trace soundness and completeness ----------

  // The call earns event e, given all randomness drawn so far. Only the voucher's bytes are consulted:
  // no storage, no parser.
  ghost predicate Earns(c: Crypto, recorded: seq<H256>, call: Call, e: Event) {
    var b, now := call.voucher, |recorded|;
    && call.origin == Signed(e.who)
    && |b| >= VOUCHER_LENGTH
    && FromLE(b[12..16]) == e.value
    && b[64..96] == e.who
    && c.verify(b[..128], b[128..192], b[32..64])
    && FromLE(b[8..12]) <= now
    && var oracle, difficulty := FromLE(b[0..4]), FromLE(b[4..8]);
    && 1 <= oracle <= now <= oracle + 1023
    && difficulty > 0
    && FromLE(c.blake2(b[..128] + recorded[oracle - 1])) < U256_MAX / difficulty
  }

  // Action i of the run is a claim that earns event e.
  ghost predicate Justifies(c: Crypto, run: seq<Action>, i: nat, e: Event)
    requires i < |run|
  {
    run[i].Claim? && Earns(c, Recorded(run[..i]), run[i].call, e)
  }

  lemma UnprunedAcceptsWhatEarns(c: Crypto, recorded: seq<H256>, call: Call, e: Event)
    requires |recorded| <= U32_MAX
    ensures Earns(c, recorded, call, e) <==> ClaimUnpruned(c, recorded, call) == Accepted(e)
  {
    if |call.voucher| >= VOUCHER_LENGTH {
      ParsedFields(call.voucher);
    }
  }

  lemma AcceptedIsJustified(c: Crypto, run: seq<Action>, i: nat, e: Event)
    requires Fits(run) && i < |run|
    ensures Fits(run[..i])
    ensures Justifies(c, run, i, e) <==> run[i].Claim? && OutcomeAfter(c, run[..i], run[i].call) == Accepted(e)
  {
    PrefixFits(run, i);
    if run[i].Claim? {
      PrunedRefinesFullLog(c, run[..i], run[i].call);
      UnprunedAcceptsWhatEarns(c, Recorded(run[..i]), run[i].call, e);
    }
  }

  // A step logs event e exactly when it is a claim that deserves e, and nothing otherwise.
  lemma LogStep(c: Crypto, run: seq<Action>)
    requires Fits(run) && run != []
    ensures Fits(run[..|run| - 1])
    ensures var n, log, before := |run| - 1, Exec(c, run).log, Exec(c, run[..|run| - 1]).log;
            && (log == before || exists e :: Justifies(c, run, n, e) && log == before + [e])
            && (forall e :: Justifies(c, run, n, e) ==> log == before + [e])
  {
    var n := |run| - 1;
    PrefixFits(run, n);
    var log, before := Exec(c, run).log, Exec(c, run[..n]).log;
    forall e | Justifies(c, run, n, e)
      ensures log == before + [e]
    {
      AcceptedIsJustified(c, run, n, e);
    }
    if run[n].Claim? {
      var r := OutcomeAfter(c, run[..n], run[n].call);
      assert log == before + Emitted(r);
      if r.Accepted? {
        AcceptedIsJustified(c, run, n, r.event);
      }
    }
  }

  // `claims` lists, in order, the position of every claim that earned an entry of `log`, and of no other.
  ghost predicate Traces(justified: (nat, Event) -> bool, n: nat, claims: seq<nat>, log: seq<Event>) {
    && |claims| == |log|
    && (forall k | 0 <= k < |log| :: claims[k] < n && justified(claims[k], log[k]))
    && (forall k, l | 0 <= k < l < |log| :: claims[k] < claims[l])
    && (forall i: nat, e | i < n && justified(i, e) :: i in claims)
  }

  ghost function Justified(c: Crypto, run: seq<Action>): (nat, Event) -> bool {
    (i: nat, e: Event) => i < |run| && Justifies(c, run, i, e)
  }

  lemma JustifiesFront(c: Crypto, run: seq<Action>, i: nat, e: Event)
    requires i < |run| - 1
    ensures Justifies(c, run, i, e) <==> Justifies(c, run[..|run| - 1], i, e)
  {
    assert run[..|run| - 1][..i] == run[..i];
  }

  lemma TracesExtend(f: (nat, Event) -> bool, g: (nat, Event) -> bool, n: nat,
                     claims: seq<nat>, log: seq<Event>, longer: seq<Event>) returns (r: seq<nat>)
    requires Traces(f, n, claims, log)
    requires forall i: nat, e | i < n :: f(i, e) <==> g(i, e)
    requires longer == log || exists e :: g(n, e) && longer == log + [e]
    requires forall e | g(n, e) :: longer == log + [e]
    ensures Traces(g, n + 1, r, longer)
  {
    if longer == log {
      r := claims;
      forall e
        ensures !g(n, e)
      {
        assert |log + [e]| != |log|;
      }
    } else {
      r := claims + [n];
      var e :| g(n, e) && longer == log + [e];
      assert r[|log|] == n && longer[|log|] == e;
      assert forall k | 0 <= k < |log| :: r[k] == claims[k] && longer[k] == log[k];
      assert forall i | i in claims :: i in r;
    }
  }

  // The log lists the justified claims: each event comes from its own claim, in order, and no
  // justified claim is missing.
  lemma {:induction false} TraceSoundness(c: Crypto, run: seq<Action>) returns (claims: seq<nat>)
    requires Fits(run)
    ensures Traces(Justified(c, run), |run|, claims, Exec(c, run).log)
    decreases |run|
  {
    if run == [] {
      claims := [];
    } else {
      var n := |run| - 1;
      LogStep(c, run);
      claims := TraceSoundness(c, run[..n]);
      var f, g := Justified(c, run[..n]), Justified(c, run);
      forall i: nat, e | i < n
        ensures f(i, e) <==> g(i, e)
      {
        JustifiesFront(c, run, i, e);
      }
      claims := TracesExtend(f, g, n, claims, Exec(c, run[..n]).log, Exec(c, run).log);
    }
  }

  // The winning randomness was drawn, before the claim, by the initialisation of the oracle block.
  lemma JustifyingDraw(c: Crypto, run: seq<Action>, i: nat, e: Event) returns (j: nat)
    requires i < |run| && Justifies(c, run, i, e)
    ensures j < i
    ensures var oracle := FromLE(run[i].call.voucher[0..4]);
            InitialisedAt(run, j, oracle, Recorded(run[..i])[oracle - 1])
  {
    j := RecordedAtInitialisation(run[..i], FromLE(run[i].call.voucher[0..4]));
    assert run[..i][..j] == run[..j];
  }

  // ---------- Draw stability ----------

  // The draw of a 128-byte prefix on the randomness of its oracle block.
  predicate PrefixWins(c: Crypto, recorded: seq<H256>, prefix: seq<Byte>)
    requires |prefix| == SIGNED_LENGTH && U32FromLE(prefix[4..8]) > 0
    requires 1 <= U32FromLE(prefix[0..4]) <= |recorded|
  {
    Lottery.Wins(c.blake2(prefix + recorded[U32FromLE(prefix[0..4]) - 1]), U32FromLE(prefix[4..8]))
  }

  // The draw is fixed when the oracle block is initialised: what any call with this prefix can come to at
  // any later point, before redeeming opens or after, is decided by the randomness recorded by then.
  lemma DrawIsFixed(c: Crypto, run: seq<Action>, i: nat, j: nat, prefix: seq<Byte>, call: Call)
    requires Fits(run) && i <= j <= |run| && |prefix| == SIGNED_LENGTH
    requires 1 <= U32FromLE(prefix[0..4]) <= |Recorded(run[..i])|
    requires |call.voucher| >= VOUCHER_LENGTH && call.voucher[..SIGNED_LENGTH] == prefix
    ensures Fits(run[..j])
    ensures var r, difficulty := OutcomeAfter(c, run[..j], call), U32FromLE(prefix[4..8]);
            && (r.Panicked? ==> difficulty == 0)
            && (r.Accepted? ==> difficulty > 0 && PrefixWins(c, Recorded(run[..i]), prefix))
            && (r == Failed(VoucherDidNotWin) ==> difficulty > 0 && !PrefixWins(c, Recorded(run[..i]), prefix))
  {
    PrefixFits(run, j);
    PrefixFits(run[..j], i);
    assert run[..j][..i] == run[..i];
    PrunedRefinesFullLog(c, run[..j], call);
    DrawDecides(c, Recorded(run[..j]), prefix, call);
  }

  lemma DrawDecides(c: Crypto, recorded: seq<H256>, prefix: seq<Byte>, call: Call)
    requires |recorded| <= U32_MAX && |prefix| == SIGNED_LENGTH
    requires 1 <= U32FromLE(prefix[0..4]) <= |recorded|
    requires |call.voucher| >= VOUCHER_LENGTH && call.voucher[..SIGNED_LENGTH] == prefix
    ensures var r, difficulty := ClaimUnpruned(c, recorded, call), U32FromLE(prefix[4..8]);
            && (r.Panicked? ==> difficulty == 0)
            && (r.Accepted? ==> difficulty > 0 && PrefixWins(c, recorded, prefix))
            && (r == Failed(VoucherDidNotWin) ==> difficulty > 0 && !PrefixWins(c, recorded, prefix))
  {
    ParsedFields(call.voucher);
    PrefixFields(call.voucher, prefix);
  }

  lemma PrefixFields(b: seq<Byte>, prefix: seq<Byte>)
    requires |b| >= VOUCHER_LENGTH && b[..SIGNED_LENGTH] == prefix
    ensures prefix[0..4] == b[0..4] && prefix[4..8] == b[4..8]
  {
  }

  // The whole life of a signed voucher in its recipient's hands, from the initialisation of its oracle
  // block on: too soon, then one verdict, then too late.
  lemma LifeOfVoucher(c: Crypto, run: seq<Action>, i: nat, j: nat, call: Call)
    requires Fits(run) && i <= j <= |run| && |call.voucher| >= VOUCHER_LENGTH
    requires 1 <= OracleBlockOf(call.voucher) <= |Recorded(run[..i])|
    requires call.origin == Signed(call.voucher[64..96])
    requires c.verify(call.voucher[..128], call.voucher[128..192], call.voucher[32..64])
    ensures Fits(run[..j])
    ensures var b, now := call.voucher, |Recorded(run[..j])|;
            var oracle, difficulty := OracleBlockOf(b), DifficultyOf(b);
            OutcomeAfter(c, run[..j], call) ==
              if now < NoRedeemBeforeOf(b) || now > oracle + 1023 then Failed(ClaimedTooSoonOrLate)
              else if difficulty == 0 then Panicked
              else if Lottery.Wins(c.blake2(b[..128] + Recorded(run[..i])[oracle - 1]), difficulty)
              then Accepted(VoucherClaimed(ValueIfPaidOf(b), b[64..96]))
              else Failed(VoucherDidNotWin)
  {
    PrefixFits(run, j);
    PrefixFits(run[..j], i);
    assert run[..j][..i] == run[..i];
    PrunedRefinesFullLog(c, run[..j], call);
    ParsedFields(call.voucher);
  }

  // Once the draw of a call has been reached, its verdict stands at every later point of the run
  // until the randomness expires, and from then on the call is too late for good.
  lemma VerdictPersists(c: Crypto, run: seq<Action>, i: nat, j: nat, call: Call)
    requires Fits(run) && i <= j <= |run|
    ensures Fits(run[..i]) && Fits(run[..j])
    ensures var verdict := OutcomeAfter(c, run[..i], call);
            verdict.Accepted? || verdict.Panicked? || verdict == Failed(VoucherDidNotWin) ==>
              && |call.voucher| >= VOUCHER_LENGTH
              && OutcomeAfter(c, run[..j], call) ==
                 if |Recorded(run[..j])| <= OracleBlockOf(call.voucher) + 1023 then verdict
                 else Failed(ClaimedTooSoonOrLate)
  {
    PrefixFits(run, j);
    PrefixFits(run[..j], i);
    assert run[..j][..i] == run[..i];
    PrunedRefinesFullLog(c, run[..i], call);
    PrunedRefinesFullLog(c, run[..j], call);
    if |call.voucher| >= VOUCHER_LENGTH {
      ParsedFields(call.voucher);
    }
  }

  // A voucher whose oracle block has left the window is never claimable again, by anyone.
  lemma ExpiredForever(c: Crypto, run: seq<Action>, i: nat, j: nat, call: Call)
    requires Fits(run) && i <= j <= |run| && |call.voucher| >= VOUCHER_LENGTH
    requires |Recorded(run[..i])| > OracleBlockOf(call.voucher) + 1023
    ensures Fits(run[..j]) && !OutcomeAfter(c, run[..j], call).Accepted?
    ensures OracleBlockOf(call.voucher) !in Exec(c, run[..j]).history
  {
    PrefixFits(run, j);
    PrefixFits(run[..j], i);
    assert run[..j][..i] == run[..i];
    PrunedRefinesFullLog(c, run[..j], call);
    HistoryIsRetained(c, run[..j]);
    ParsedFields(call.voucher);
  }

  // ---------- Claims do not interfere ----------

  lemma SameRecordSameOutcome(c: Crypto, a: seq<Action>, b: seq<Action>, call: Call)
    requires Recorded(a) == Recorded(b) && Fits(a)
    ensures Exec(c, a).now == Exec(c, b).now && Exec(c, a).history == Exec(c, b).history
    ensures OutcomeAfter(c, a, call) == OutcomeAfter(c, b, call)
  {
    HistoryIsRetained(c, a);
    HistoryIsRetained(c, b);
  }

  lemma SameRecordSameStep(c: Crypto, a: seq<Action>, b: seq<Action>, last: Action) returns (added: seq<Event>)
    requires Recorded(a) == Recorded(b) && Fits(a + [last])
    ensures Fits(a) && Fits(b) && Fits(b + [last])
    ensures Exec(c, a + [last]).log == Exec(c, a).log + added
    ensures Exec(c, b + [last]).log == Exec(c, b).log + added
  {
    RecordedSnoc(a, last);
    RecordedSnoc(b, last);
    ExecSnoc(c, a, last);
    ExecSnoc(c, b, last);
    added := [];
    if last.Claim? {
      SameRecordSameOutcome(c, a, b, last.call);
      added := Emitted(OutcomeAfter(c, a, last.call));
    }
  }

  // Two runs with the same randomness so far log the same events from here on.
  lemma {:induction false} SameRecordSameLog(c: Crypto, a: seq<Action>, b: seq<Action>, post: seq<Action>)
    returns (later: seq<Event>)
    requires Recorded(a) == Recorded(b) && Fits(a + post)
    ensures Fits(a) && Fits(b) && Fits(b + post)
    ensures Exec(c, a + post).log == Exec(c, a).log + later
    ensures Exec(c, b + post).log == Exec(c, b).log + later
    decreases |post|
  {
    if post == [] {
      assert a + post == a && b + post == b;
      later := [];
    } else {
      var front, last := post[..|post| - 1], post[|post| - 1];
      assert a + post == (a + front) + [last] && b + post == (b + front) + [last];
      RecordedSuffix(a, b, front);
      var added := SameRecordSameStep(c, a + front, b + front, last);
      var earlier := SameRecordSameLog(c, a, b, front);
      later := earlier + added;
      ConcatAssociative(Exec(c, a).log, earlier, added);
      ConcatAssociative(Exec(c, b).log, earlier, added);
    }
  }

  // Inserting (or, read backwards, deleting) a claim leaves block number, storage and the outcome of
  // every other call unchanged, and adds at most its own event to the log, in its place.
  lemma ClaimInsertion(c: Crypto, pre: seq<Action>, call: Call, post: seq<Action>)
    requires Fits(pre + post)
    ensures var without, with := pre + post, pre + [Claim(call)] + post;
            && Fits(pre) && Fits(with)
            && Exec(c, with).now == Exec(c, without).now
            && Exec(c, with).history == Exec(c, without).history
            && (forall other: Call :: OutcomeAfter(c, with, other) == OutcomeAfter(c, without, other))
            && Exec(c, pre).log <= Exec(c, without).log
            && Exec(c, with).log == Exec(c, pre).log + Emitted(OutcomeAfter(c, pre, call))
                                    + Exec(c, without).log[|Exec(c, pre).log|..]
  {
    var mid := pre + [Claim(call)];
    RecordedPrefix(pre, post);
    RecordedSnoc(pre, Claim(call));
    RecordedSuffix(pre, mid, post);
    var later := SameRecordSameLog(c, pre, mid, post);
    ExecSnoc(c, pre, Claim(call));
    forall other: Call
      ensures OutcomeAfter(c, mid + post, other) == OutcomeAfter(c, pre + post, other)
    {
      SameRecordSameOutcome(c, mid + post, pre + post, other);
    }
    SameRecordSameOutcome(c, mid + post, pre + post, call);
  }

  function Claims(calls: seq<Call>): (run: seq<Action>)
    ensures |run| == |calls|
  {
    seq(|calls|, i requires 0 <= i < |calls| => Claim(calls[i]))
  }

  // What each call would log at the end of the run.
  function Judged(c: Crypto, run: seq<Action>): Call -> seq<Event>
    requires Fits(run)
  {
    var s := Exec(c, run);
    (call: Call) => Emitted(ClaimOutcome(c, s.now, s.history, call))
  }

  function Gather(emit: Call -> seq<Event>, calls: seq<Call>): seq<Event> {
    if calls == [] then [] else Gather(emit, calls[..|calls| - 1]) + emit(calls[|calls| - 1])
  }

  lemma JudgedSame(c: Crypto, a: seq<Action>, b: seq<Action>, call: Call)
    requires Recorded(a) == Recorded(b) && Fits(a)
    ensures Judged(c, a)(call) == Judged(c, b)(call)
  {
    SameRecordSameOutcome(c, a, b, call);
  }

  lemma LogAfterClaim(c: Crypto, pre: seq<Action>, mid: seq<Action>, call: Call)
    requires Fits(pre) && Recorded(mid) == Recorded(pre)
    ensures Recorded(mid + [Claim(call)]) == Recorded(pre)
    ensures Exec(c, mid + [Claim(call)]).log == Exec(c, mid).log + Judged(c, pre)(call)
  {
    RecordedSnoc(mid, Claim(call));
    ExecSnoc(c, mid, Claim(call));
    JudgedSame(c, pre, mid, call);
  }

  lemma ClaimsSnoc(pre: seq<Action>, calls: seq<Call>, last: Call)
    ensures pre + Claims(calls + [last]) == (pre + Claims(calls)) + [Claim(last)]
  {
  }

  // A block's claims are all judged as if each came first.
  lemma {:induction false} BlockOfClaims(c: Crypto, pre: seq<Action>, calls: seq<Call>)
    requires Fits(pre)
    ensures Recorded(pre + Claims(calls)) == Recorded(pre)
    ensures Exec(c, pre + Claims(calls)).log == Exec(c, pre).log + Gather(Judged(c, pre), calls)
    decreases |calls|
  {
    if calls == [] {
      assert pre + Claims(calls) == pre;
    } else {
      var front, last := calls[..|calls| - 1], calls[|calls| - 1];
      BlockOfClaims(c, pre, front);
      assert calls == front + [last];
      ClaimsSnoc(pre, front, last);
      LogAfterClaim(c, pre, pre + Claims(front), last);
      ConcatAssociative(Exec(c, pre).log, Gather(Judged(c, pre), front), Judged(c, pre)(last));
    }
  }

  // There is no record of spent vouchers: k copies of an accepted claim log k copies of its event.
  lemma Replay(c: Crypto, pre: seq<Action>, call: Call, e: Event, k: nat)
    requires Fits(pre) && OutcomeAfter(c, pre, call) == Accepted(e)
    ensures Fits(pre + Claims(seq(k, _ => call)))
    ensures Exec(c, pre + Claims(seq(k, _ => call))).log == Exec(c, pre).log + seq(k, _ => e)
  {
    BlockOfClaims(c, pre, seq(k, _ => call));
    GatherCopies(Judged(c, pre), call, e, k);
  }

  lemma {:induction false} GatherCopies(emit: Call -> seq<Event>, call: Call, e: Event, k: nat)
    requires emit(call) == [e]
    ensures Gather(emit, seq(k, _ => call)) == seq(k, _ => e)
  {
    if k > 0 {
      GatherCopies(emit, call, e, k - 1);
      assert seq(k, _ => call)[..k - 1] == seq(k - 1, _ => call);
    }
  }

  lemma {:induction false} GatherConcat(emit: Call -> seq<Event>, xs: seq<Call>, ys: seq<Call>)
    ensures Gather(emit, xs + ys) == Gather(emit, xs) + Gather(emit, ys)
    decreases |ys|
  {
    if ys == [] {
      assert xs + ys == xs;
    } else {
      GatherConcat(emit, xs, ys[..|ys| - 1]);
      ConcatAssociative(Gather(emit, xs), Gather(emit, ys[..|ys| - 1]), emit(ys[|ys| - 1]));
      assert (xs + ys)[..|xs + ys| - 1] == xs + ys[..|ys| - 1];
    }
  }

  // Taking one occurrence of the last element of xs out of a permutation ys of xs.
  lemma TakeOut<T>(xs: seq<T>, ys: seq<T>) returns (before: seq<T>, after: seq<T>)
    requires xs != [] && multiset(xs) == multiset(ys)
    ensures ys == before + [xs[|xs| - 1]] + after
    ensures multiset(xs[..|xs| - 1]) == multiset(before + after)
  {
    var front, last := xs[..|xs| - 1], xs[|xs| - 1];
    assert xs == front + [last];
    assert last in multiset(ys);
    var k :| 0 <= k < |ys| && ys[k] == last;
    before, after := ys[..k], ys[k + 1..];
    assert ys == before + [last] + after;
    assert multiset(front) == multiset(xs) - multiset{last};
    assert multiset(before + after) == multiset(ys) - multiset{last};
  }

  lemma {:induction false} GatherPermutation(emit: Call -> seq<Event>, xs: seq<Call>, ys: seq<Call>)
    requires multiset(xs) == multiset(ys)
    ensures multiset(Gather(emit, xs)) == multiset(Gather(emit, ys))
    decreases |xs|
  {
    if xs == [] {
      assert |multiset(ys)| == 0;
    } else {
      var before, after := TakeOut(xs, ys);
      GatherPermutation(emit, xs[..|xs| - 1], before + after);
      GatherConcat(emit, before, after);
      GatherConcat(emit, before + [xs[|xs| - 1]], after);
      GatherConcat(emit, before, [xs[|xs| - 1]]);
    }
  }

  // Reordering the claims of a block changes nothing but the order of their events.
  lemma ClaimPermutation(c: Crypto, pre: seq<Action>, xs: seq<Call>, ys: seq<Call>, post: seq<Action>)
    requires Fits(pre + Claims(xs) + post) && multiset(xs) == multiset(ys)
    ensures var a, b := pre + Claims(xs) + post, pre + Claims(ys) + post;
            && Fits(b)
            && Exec(c, a).history == Exec(c, b).history
            && (forall other: Call :: OutcomeAfter(c, a, other) == OutcomeAfter(c, b, other))
            && multiset(Exec(c, a).log) == multiset(Exec(c, b).log)
            && Total(Exec(c, a).log) == Total(Exec(c, b).log)
  {
    RecordedPrefix(pre, Claims(xs) + post);
    assert pre + (Claims(xs) + post) == pre + Claims(xs) + post;
    BlockOfClaims(c, pre, xs);
    BlockOfClaims(c, pre, ys);
    GatherPermutation(Judged(c, pre), xs, ys);
    var a, b := pre + Claims(xs), pre + Claims(ys);
    RecordedSuffix(a, b, post);
    var later := SameRecordSameLog(c, a, b, post);
    forall other: Call
      ensures OutcomeAfter(c, a + post, other) == OutcomeAfter(c, b + post, other)
    {
      SameRecordSameOutcome(c, a + post, b + post, other);
    }
    SameRecordSameOutcome(c, a + post, b + post, Call(Root, []));
    TotalPermutation(Exec(c, a + post).log, Exec(c, b + post).log);
  }

  // ---------- Conservation ----------

  function Total(events: seq<Event>): nat {
    if events == [] then 0 else Total(events[..|events| - 1]) + events[|events| - 1].value
  }

  lemma {:induction false} TotalConcat(xs: seq<Event>, ys: seq<Event>)
    ensures Total(xs + ys) == Total(xs) + Total(ys)
    decreases |ys|
  {
    if ys == [] {
      assert xs + ys == xs;
    } else {
      TotalConcat(xs, ys[..|ys| - 1]);
      assert (xs + ys)[..|xs + ys| - 1] == xs + ys[..|ys| - 1];
    }
  }

  lemma {:induction false} TotalPermutation(xs: seq<Event>, ys: seq<Event>)
    requires multiset(xs) == multiset(ys)
    ensures Total(xs) == Total(ys)
    decreases |xs|
  {
    if xs == [] {
      assert |multiset(ys)| == 0;
    } else {
      var before, after := TakeOut(xs, ys);
      TotalPermutation(xs[..|xs| - 1], before + after);
      TotalConcat(before, after);
      TotalConcat(before + [xs[|xs| - 1]], after);
      TotalConcat(before, [xs[|xs| - 1]]);
    }
  }

  // The `value_if_paid` bytes of every justified claim, summed over the run.
  ghost function Paid(c: Crypto, run: seq<Action>): nat {
    if run == [] then 0
    else
      var n := |run| - 1;
      Paid(c, run[..n]) +
      if exists e :: Justifies(c, run, n, e) then FromLE(run[n].call.voucher[12..16]) else 0
  }

  // What the log pays out is what the justified vouchers promised, no more and no less.
  lemma {:induction false} Conservation(c: Crypto, run: seq<Action>)
    requires Fits(run)
    ensures Total(Exec(c, run).log) == Paid(c, run)
    decreases |run|
  {
    if run != [] {
      var n := |run| - 1;
      var front := run[..n];
      LogStep(c, run);
      Conservation(c, front);
      if e :| Justifies(c, run, n, e) {
        TotalConcat(Exec(c, front).log, [e]);
      }
    }
  }
}
