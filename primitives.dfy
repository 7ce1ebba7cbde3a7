/** The primitives every predictor in my_predictor.h is built from: the
    machine integers it computes with, a table of two-bit saturating counters
    (each an `unsigned char`) and a 15-bit global history register (held in an
    `unsigned int`). The source's shifts and masks are written out as
    arithmetic on naturals, with the 32-bit wrap-around made explicit where it
    can occur. */
module Primitives {

  /** `unsigned char` and `unsigned int`. */
  type uint8 = x: int | 0 <= x < 0x100
  type uint32 = x: int | 0 <= x < 0x1_0000_0000

  /** HISTORY_LENGTH and TABLE_BITS. */
  const HistoryLength: nat := 15
  const TableBits: nat := 15

  /** 1 << TABLE_BITS: the number of counters in a table; an index is kept
      below it by `& ((1 << TABLE_BITS) - 1)`, which on naturals is `% TableSize`. */
  const TableSize: nat := 0x8000

  /** 1 << HISTORY_LENGTH: the history is kept below it by
      `&= (1 << HISTORY_LENGTH) - 1`, which on naturals is `% HistoryLimit`. */
  const HistoryLimit: nat := 0x8000

  function Pow2(n: nat): (p: nat)
    ensures p >= 1
  {
    if n == 0 then 1 else 2 * Pow2(n - 1)
  }

  /** `x << n` on an `unsigned int`: one doubling per place, bits shifted
      past bit 31 are lost. */
  function ShiftLeft(x: uint32, n: nat): (r: uint32)
    ensures n == 0 ==> r == x
    ensures n == 1 ==> r / 2 == x % 0x8000_0000
    ensures n > 0 ==> r % 2 == 0
    decreases n
  {
    if n == 0 then x else ShiftLeft((2 * x) % 0x1_0000_0000, n - 1)
  }

  /** Bit `i` of `x`, counting from the least significant bit. */
  predicate Bit(x: nat, i: nat)
  {
    if i == 0 then x % 2 == 1 else Bit(x / 2, i - 1)
  }

  // ---------------------------------------------------------------------
  // Bitwise exclusive or
  // ---------------------------------------------------------------------

  /** `a ^ b` on naturals: bit i of the result is set exactly when bit i is
      set in one of `a` and `b` but not both (see XorBit). */
  function Xor(a: nat, b: nat): (r: nat)
    ensures r == 0 <==> a == b
    decreases a + b
  {
    if a == 0 && b == 0 then 0
    else 2 * Xor(a / 2, b / 2) + (if a % 2 == b % 2 then 0 else 1)
  }

  lemma {:induction false} XorBit(a: nat, b: nat, i: nat)
    ensures Bit(Xor(a, b), i) == (Bit(a, i) != Bit(b, i))
    decreases i
  {
    if a == 0 && b == 0 {
      ZeroHasNoBits(i);
    } else if i > 0 {
      XorBit(a / 2, b / 2, i - 1);
    }
  }

  lemma {:induction false} ZeroHasNoBits(i: nat)
    ensures !Bit(0, i)
    decreases i
  {
    if i > 0 {
      ZeroHasNoBits(i - 1);
    }
  }

  /** XOR of two numbers below 2^k stays below 2^k. */
  lemma {:induction false} XorBound(a: nat, b: nat, k: nat)
    requires a < Pow2(k) && b < Pow2(k)
    ensures Xor(a, b) < Pow2(k)
    decreases k
  {
    if k > 0 && !(a == 0 && b == 0) {
      XorBound(a / 2, b / 2, k - 1);
    }
  }

  lemma {:induction false} XorZero(a: nat)
    ensures Xor(a, 0) == a
    decreases a
  {
    if a > 0 {
      XorZero(a / 2);
    }
  }

  lemma {:induction false} XorCommutes(a: nat, b: nat)
    ensures Xor(a, b) == Xor(b, a)
    decreases a + b
  {
    if !(a == 0 && b == 0) {
      XorCommutes(a / 2, b / 2);
    }
  }

  /** XORing the same value twice gives the original back. */
  lemma {:induction false} XorCancel(a: nat, b: nat)
    ensures Xor(Xor(a, b), b) == a
    decreases a + b
  {
    if b == 0 {
      XorZero(a);
    } else {
      var x := Xor(a, b);
      assert x / 2 == Xor(a / 2, b / 2) && x % 2 == (if a % 2 == b % 2 then 0 else 1);
      XorCancel(a / 2, b / 2);
      assert Xor(x, b) == 2 * Xor(x / 2, b / 2) + (if x % 2 == b % 2 then 0 else 1);
    }
  }

  // ---------------------------------------------------------------------
  // Saturating counters
  // ---------------------------------------------------------------------

  /** A counter value the tables may hold: 0 (strongly not-taken) to 3 (strongly taken). */
  predicate InRange(c: uint8) {
    c <= 3
  }

  /** The direction a counter predicts: its high bit, `c >> 1`, read as a
      boolean. 0 and 1 predict not-taken, 2 and 3 predict taken. */
  function Direction(c: uint8): (taken: bool)
    requires InRange(c)
    ensures taken <==> c >= 2
    ensures !taken <==> c == 0 || c == 1
  {
    c / 2 != 0
  }

  /** The counter after one resolved branch: one step towards 3 when taken,
      one step towards 0 when not taken, never past either end. */
  function Step(c: uint8, taken: bool): (r: uint8)
    requires InRange(c)
    ensures InRange(r)
    ensures taken ==> c <= r && (r == c <==> c == 3)
    ensures !taken ==> r <= c && (r == c <==> c == 0)
    ensures -1 <= r - c <= 1
  {
    if taken then
      (if c < 3 then c + 1 else c)
    else
      (if c > 0 then c - 1 else c)
  }

  /** The saturating counter table's update: the counter at `i` takes one
      step towards the outcome; no other counter changes. */
  method UpdateCounter(table: array<uint8>, i: int, taken: bool)
    requires 0 <= i < table.Length && InRange(table[i])
    modifies table
    ensures table[..] == old(table[..])[i := Step(old(table[i]), taken)]
  {
    var c := table[i];
    if taken {
      if c < 3 {
        table[i] := c + 1;
      }
    } else {
      if c > 0 {
        table[i] := c - 1;
      }
    }
  }

  /** A counter after a whole sequence of outcomes, oldest first. */
  function RunCounter(c: uint8, outcomes: seq<bool>): (r: uint8)
    requires InRange(c)
    ensures InRange(r)
    decreases |outcomes|
  {
    if outcomes == [] then c
    else Step(RunCounter(c, outcomes[..|outcomes| - 1]), outcomes[|outcomes| - 1])
  }

  /** Outcomes that all go the same way. */
  predicate AllSame(outcomes: seq<bool>, taken: bool) {
    forall k :: 0 <= k < |outcomes| ==> outcomes[k] == taken
  }

  /** Three outcomes in the same direction saturate any counter at that end:
      3 after three taken branches, 0 after three not-taken ones. */
  lemma {:induction false} RunCounterSaturates(c: uint8, outcomes: seq<bool>, taken: bool)
    requires InRange(c)
    requires AllSame(outcomes, taken) && |outcomes| >= 3
    ensures RunCounter(c, outcomes) == if taken then 3 else 0
  {
    var n := |outcomes|;
    if n > 3 {
      RunCounterSaturates(c, outcomes[..n - 1], taken);
    } else {
      var r1 := Step(c, taken);
      var r2 := Step(r1, taken);
      assert outcomes[..0] == [];
      assert RunCounter(c, outcomes[..1]) == r1 by {
        assert outcomes[..1][..0] == [];
      }
      assert RunCounter(c, outcomes[..2]) == r2 by {
        assert outcomes[..2][..1] == outcomes[..1];
      }
      assert outcomes[..3][..2] == outcomes[..2];
      assert outcomes == outcomes[..3];
    }
  }

  /** Updating with the outcome a counter already predicts never changes
      that prediction. */
  lemma UpdateKeepsAgreeingPrediction(c: uint8, taken: bool)
    requires InRange(c)
    requires Direction(c) == taken
    ensures Direction(Step(c, taken)) == taken
  {
  }

  /** A strong counter (0 or 3) survives one contrary outcome without changing
      its prediction: the hysteresis that makes the counter two bits wide. */
  lemma StrongCounterHysteresis(c: uint8, taken: bool)
    requires c == 0 || c == 3
    ensures Direction(Step(c, taken)) == Direction(c)
  {
  }

  // ---------------------------------------------------------------------
  // Global history register
  // ---------------------------------------------------------------------

  /** The register after one conditional outcome:
      history <<= 1; history |= taken; history &= (1 << HISTORY_LENGTH) - 1.
      After the shift bit 0 is clear, so `|= taken` adds the outcome. */
  function ShiftHistory(history: uint32, taken: bool): (r: uint32)
    ensures r < HistoryLimit
  {
    (ShiftLeft(history, 1) + (if taken then 1 else 0)) % HistoryLimit
  }

  /** One shift moves bits 0..13 up one place, drops everything from bit 14
      up and puts the outcome in bit 0. */
  lemma ShiftHistoryMovesBits(history: uint32, taken: bool)
    ensures ShiftHistory(history, taken) == 2 * (history % 0x4000) + (if taken then 1 else 0)
    ensures Bit(ShiftHistory(history, taken), 0) == taken
    ensures ShiftHistory(history, taken) / 2 == history % 0x4000
  {
    var d := if taken then 1 else 0;
    var w := (2 * history) % 0x1_0000_0000;
    assert ShiftLeft(history, 1) == ShiftLeft(w, 0) == w;
    var q := history / 0x4000;
    var low := 2 * (history % 0x4000) + d;
    assert 2 * history + d == 0x8000 * q + low;
    if 2 * history < 0x1_0000_0000 {
      assert w == 2 * history;
      ModOfSplit(w + d, q, low);
    } else {
      assert w == 2 * history - 0x1_0000_0000;
      ModOfSplit(w + d, q - 0x2_0000, low);
    }
  }

  /** x % 2^15 is the remainder of any split of x into whole 2^15 blocks and a
      rest below 2^15. */
  lemma ModOfSplit(x: int, q: int, low: int)
    requires 0 <= low < 0x8000 && x == 0x8000 * q + low
    ensures x % 0x8000 == low && x / 0x8000 == q
  {
  }

  /** The register after a sequence of conditional outcomes, oldest first. */
  function HistoryAfter(history: uint32, outcomes: seq<bool>): (r: uint32)
    decreases |outcomes|
  {
    if outcomes == [] then history
    else ShiftHistory(HistoryAfter(history, outcomes[..|outcomes| - 1]), outcomes[|outcomes| - 1])
  }

  /** A register that has seen at least one outcome fits in HISTORY_LENGTH
      bits, whatever it started with. */
  lemma HistoryStaysInWidth(history: uint32, outcomes: seq<bool>)
    requires history < HistoryLimit || |outcomes| > 0
    ensures HistoryAfter(history, outcomes) < HistoryLimit
  {
  }

  /** Outcomes read as a binary number, the newest in bit 0. */
  function Pack(outcomes: seq<bool>): (r: nat)
    decreases |outcomes|
  {
    if outcomes == [] then 0
    else 2 * Pack(outcomes[..|outcomes| - 1]) + (if outcomes[|outcomes| - 1] then 1 else 0)
  }

  /** The last HISTORY_LENGTH outcomes, or all of them while there are fewer. */
  function Recent(outcomes: seq<bool>): (r: seq<bool>)
    ensures |r| <= HistoryLength
  {
    if |outcomes| <= HistoryLength then outcomes else outcomes[|outcomes| - HistoryLength..]
  }

  /** Bit i of a packed sequence is the outcome i places from its end; no
      bit is set beyond its length. */
  lemma {:induction false} PackBit(outcomes: seq<bool>, i: nat)
    ensures Bit(Pack(outcomes), i) == (i < |outcomes| && outcomes[|outcomes| - 1 - i])
    decreases |outcomes|
  {
    var n := |outcomes|;
    if n == 0 {
      ZeroHasNoBits(i);
    } else if i > 0 {
      PackBit(outcomes[..n - 1], i - 1);
    }
  }

  lemma {:induction false} PackBound(outcomes: seq<bool>)
    ensures Pack(outcomes) < Pow2(|outcomes|)
    decreases |outcomes|
  {
    if outcomes != [] {
      PackBound(outcomes[..|outcomes| - 1]);
    }
  }

  /** The oldest outcome of a packed sequence is its top bit. */
  lemma {:induction false} PackFront(outcomes: seq<bool>)
    requires outcomes != []
    ensures Pack(outcomes) == (if outcomes[0] then Pow2(|outcomes| - 1) else 0) + Pack(outcomes[1..])
    decreases |outcomes|
  {
    var n := |outcomes|;
    if n > 1 {
      PackFront(outcomes[..n - 1]);
      assert outcomes[..n - 1][1..] == outcomes[1..][..n - 2];
    } else {
      assert outcomes[1..] == [];
    }
  }

  lemma Pow2Values()
    ensures Pow2(14) == 0x4000 && Pow2(15) == 0x8000
  {
    assert Pow2(4) == 16;
    assert Pow2(8) == 256;
    assert Pow2(12) == 0x1000;
  }

  /** Recent outcomes packed fit in HISTORY_LENGTH bits. */
  lemma PackedRecentInWidth(outcomes: seq<bool>)
    ensures Pack(Recent(outcomes)) < HistoryLimit
  {
    PackBound(Recent(outcomes));
    Pow2Monotone(|Recent(outcomes)|, 15);
    Pow2Values();
  }

  lemma {:induction false} Pow2Monotone(i: nat, j: nat)
    requires i <= j
    ensures Pow2(i) <= Pow2(j)
    decreases j
  {
    if i < j {
      Pow2Monotone(i, j - 1);
    }
  }

  /** Shifting one more outcome into the packed recent outcomes gives the
      packed recent outcomes of the longer sequence. */
  lemma RecentShift(outcomes: seq<bool>, last: bool)
    ensures Pack(Recent(outcomes)) < HistoryLimit
    ensures ShiftHistory(Pack(Recent(outcomes)), last) == Pack(Recent(outcomes + [last]))
  {
    var r := Recent(outcomes);
    PackedRecentInWidth(outcomes);
    ShiftHistoryMovesBits(Pack(r), last);
    if |r| < HistoryLength {
      RecentShiftShort(r, last);
      assert Recent(outcomes + [last]) == r + [last];
    } else {
      RecentShiftFull(r, last);
      assert Recent(outcomes + [last]) == r[1..] + [last];
    }
  }

  lemma RecentShiftShort(r: seq<bool>, last: bool)
    requires |r| < HistoryLength
    ensures 2 * (Pack(r) % 0x4000) + (if last then 1 else 0) == Pack(r + [last])
  {
    PackBound(r);
    Pow2Monotone(|r|, 14);
    Pow2Values();
    assert Pack(r) % 0x4000 == Pack(r);
    assert (r + [last])[..|r|] == r;
  }

  lemma RecentShiftFull(r: seq<bool>, last: bool)
    requires |r| == HistoryLength
    ensures 2 * (Pack(r) % 0x4000) + (if last then 1 else 0) == Pack(r[1..] + [last])
  {
    PackFront(r);
    PackBound(r[1..]);
    Pow2Values();
    assert Pack(r) == Pack(r[1..]) || Pack(r) == 0x4000 + Pack(r[1..]);
    assert Pack(r) % 0x4000 == Pack(r[1..]);
    assert (r[1..] + [last])[..|r| - 1] == r[1..];
  }

  /** The register of a predictor that started at 0 is the last
      HISTORY_LENGTH outcomes (all of them while there are fewer) packed
      newest-first into bits 0..14. */
  lemma {:induction false} HistoryIsRecentOutcomes(outcomes: seq<bool>)
    ensures HistoryAfter(0, outcomes) == Pack(Recent(outcomes))
    decreases |outcomes|
  {
    var n := |outcomes|;
    if n > 0 {
      HistoryIsRecentOutcomes(outcomes[..n - 1]);
      RecentShift(outcomes[..n - 1], outcomes[n - 1]);
      assert outcomes[..n - 1] + [outcomes[n - 1]] == outcomes;
    }
  }

  /** Bit i of the register (i < HISTORY_LENGTH) is the outcome of the
      conditional branch i branches ago, and is clear while fewer than i + 1
      branches have been seen. */
  lemma HistoryHoldsRecentOutcomes(outcomes: seq<bool>, i: nat)
    requires i < HistoryLength
    ensures Bit(HistoryAfter(0, outcomes), i) <==> i < |outcomes| && outcomes[|outcomes| - 1 - i]
  {
    HistoryIsRecentOutcomes(outcomes);
    PackBit(Recent(outcomes), i);
  }
}
