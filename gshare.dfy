/** gshare_predictor: one table of 2^15 saturating counters indexed by the
    global history XORed into the low 15 bits of the branch address. */
module Gshare {
  import opened Primitives
  import opened Branch

  /** The index predict computes:
      (history << (TABLE_BITS - HISTORY_LENGTH)) ^ (address & ((1 << TABLE_BITS) - 1)).
      The two widths are equal, so the shift is by zero and the index is the
      history XORed with the address's low 15 bits; it stays inside the table
      as long as the history fits in HISTORY_LENGTH bits. */
  function Index(history: uint32, address: uint32): (r: nat)
    ensures r == Xor(history, address % TableSize)
    ensures history < HistoryLimit ==> r < TableSize
  {
    var shifted := ShiftLeft(history, TableBits - HistoryLength);
    var low := address % TableSize;
    IndexBound(shifted, low);
    Xor(shifted, low)
  }

  lemma IndexBound(history: nat, low: nat)
    requires low < TableSize
    ensures history < HistoryLimit ==> Xor(history, low) < TableSize
  {
    if history < HistoryLimit {
      Pow2Values();
      XorBound(history, low, 15);
    }
  }

  /** Under one history, the index tells the address's low 15 bits back:
      XORing the history out again recovers them. */
  lemma IndexRecoversAddress(history: uint32, address: uint32)
    ensures Xor(Index(history, address), history) == address % TableSize
  {
    XorCommutes(history, address % TableSize);
    XorCancel(address % TableSize, history);
  }

  /** Two branches share a counter under the same history exactly when their
      addresses agree in the low 15 bits; one branch lands on the same counter
      under two histories exactly when the histories are equal. */
  lemma IndexCollisions(h1: uint32, a1: uint32, h2: uint32, a2: uint32)
    ensures h1 == h2 ==> (Index(h1, a1) == Index(h2, a2) <==> a1 % TableSize == a2 % TableSize)
    ensures a1 % TableSize == a2 % TableSize ==> (Index(h1, a1) == Index(h2, a2) <==> h1 == h2)
  {
    IndexRecoversAddress(h1, a1);
    IndexRecoversAddress(h2, a2);
    XorCancel(h1, a1 % TableSize);
    XorCancel(h2, a2 % TableSize);
  }

  class GsharePredictor {
    /** The global history register. */
    var history: uint32
    /** The counter table `tab`. */
    const tab: array<uint8>
    /** `bi`: the branch most recently passed to predict. */
    var lastBranch: BranchInfo
    /** `u.index`: the index predict computed for the most recent conditional branch. */
    var index: nat

    ghost predicate Valid()
      reads this, tab
    {
      tab.Length == TableSize &&
      history < HistoryLimit &&
      index < TableSize &&
      forall i :: 0 <= i < tab.Length ==> InRange(tab[i])
    }

    /** gshare_predictor(): history 0 and every counter 0 (strongly not-taken). */
    constructor ()
      ensures Valid() && fresh(tab)
      ensures history == 0
      ensures forall i :: 0 <= i < tab.Length ==> tab[i] == 0
      ensures !lastBranch.isConditional
    {
      history := 0;
      tab := new uint8[TableSize](_ => 0);
      lastBranch := BranchInfo(0, false);
      index := 0;
    }

    /** predict: remember the branch; for a conditional branch, compute and
        remember its index and predict the direction of that counter; any other
        branch is predicted taken. The target is always 0. */
    method Predict(b: BranchInfo) returns (p: Prediction)
      requires Valid()
      modifies this`lastBranch, this`index
      ensures Valid()
      ensures lastBranch == b
      ensures p.target == 0
      ensures b.isConditional ==>
                index == Index(history, b.address) &&
                p.taken == Direction(tab[index])
      ensures !b.isConditional ==> p == AlwaysTaken && index == old(index)
    {
      lastBranch := b;
      var taken: bool;
      if b.isConditional {
        index := Index(history, b.address);
        taken := Direction(tab[index]);
      } else {
        taken := true;
      }
      p := Prediction(taken, 0);
    }

    /** update: when the branch seen by the last predict was conditional, move
        the counter at the stored index one step towards the outcome and shift
        the outcome into the history; otherwise change nothing. `target` is
        not used. */
    method Update(taken: bool, target: uint32)
      requires Valid()
      modifies this`history, tab
      ensures Valid()
      ensures old(lastBranch).isConditional ==>
                tab[..] == old(tab[..])[index := Step(old(tab[index]), taken)] &&
                history == ShiftHistory(old(history), taken)
      ensures !old(lastBranch).isConditional ==>
                tab[..] == old(tab[..]) && history == old(history)
    {
      if lastBranch.isConditional {
        UpdateCounter(tab, index, taken);
        history := ShiftHistory(history, taken);
      }
    }
  }
}
