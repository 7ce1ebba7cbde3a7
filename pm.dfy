/** pm_predictor: a hybrid of a bimodal table (indexed by the branch address
    alone) and a global table (indexed by the history alone), after the
    Pentium M's branch outcome predictor. A fixed rule picks which table's
    counter gives the prediction; both tables learn from every conditional
    outcome. */
module PmHybrid {
  import opened Primitives
  import opened Branch

  /** bimodal_Iindex = address & ((1 << TABLE_BITS) - 1): the address's low
      15 bits, always inside the table. */
  function BimodalIndex(address: uint32): (r: nat)
    ensures r < TableSize
    ensures (address - r) % TableSize == 0
  {
    address % TableSize
  }

  /** Two branches share a bimodal counter exactly when their addresses differ
      by a multiple of 2^15. */
  lemma BimodalAliasing(a1: uint32, a2: uint32)
    ensures BimodalIndex(a1) == BimodalIndex(a2) <==> (a1 - a2) % TableSize == 0
  {
  }

  /** global_Index = history << (TABLE_BITS - HISTORY_LENGTH). The widths are
      equal, so the index is the history itself, whatever bits it holds. */
  function GlobalIndex(history: uint32): (r: nat)
    ensures r == history
  {
    ShiftLeft(history, TableBits - HistoryLength)
  }

  /** The selector: rightMostBit = (history >> 0) & 1; the global table is
      trusted when it is 1, the bimodal table otherwise. */
  function SelectsGlobal(history: uint32): (useGlobal: bool)
    ensures useGlobal <==> Bit(history, 0)
  {
    history % 2 == 1
  }

  /** Bit 0 of the history is the outcome of the latest conditional branch, so
      the global table is consulted exactly when that branch was taken. */
  lemma SelectorFollowsLastOutcome(history: uint32, taken: bool)
    ensures SelectsGlobal(ShiftHistory(history, taken)) == taken
  {
    ShiftHistoryMovesBits(history, taken);
  }

  /** For a predictor that started with history 0, the global table is
      consulted exactly when there was a previous conditional branch and it
      was taken. */
  lemma SelectorAfterOutcomes(outcomes: seq<bool>)
    ensures SelectsGlobal(HistoryAfter(0, outcomes)) <==> |outcomes| > 0 && outcomes[|outcomes| - 1]
  {
    HistoryHoldsRecentOutcomes(outcomes, 0);
  }

  /** The global index stays inside the table only because the history does:
      any history from 2^15 up, such as one the constructor left
      uninitialised, indexes past the end of globalTable. A history of
      0x8001 has bit 0 set, so predict itself reads that entry. */
  lemma GlobalIndexEscapesTable(history: uint32)
    ensures GlobalIndex(history) < TableSize <==> history < HistoryLimit
    ensures SelectsGlobal(0x8001) && GlobalIndex(0x8001) >= TableSize
  {
  }

  class PmPredictor {
    /** The global history register. */
    var history: uint32
    /** The counter table indexed by address. */
    const bimodalTable: array<uint8>
    /** The counter table indexed by history. */
    const globalTable: array<uint8>
    /** `bi`: the branch most recently passed to predict. */
    var lastBranch: BranchInfo
    /** `u.bimodal_Iindex` and `u.global_Index`: the indices predict computed
        for the most recent conditional branch. */
    var bimodalIndex: nat
    var globalIndex: nat

    ghost predicate Valid()
      reads this, bimodalTable, globalTable
    {
      bimodalTable.Length == TableSize && globalTable.Length == TableSize &&
      bimodalTable != globalTable &&
      history < HistoryLimit &&
      bimodalIndex < TableSize && globalIndex < TableSize &&
      (forall i :: 0 <= i < bimodalTable.Length ==> InRange(bimodalTable[i])) &&
      (forall i :: 0 <= i < globalTable.Length ==> InRange(globalTable[i]))
    }

    /** pm_predictor(): both tables zeroed. The source leaves the history
        uninitialised; here it starts at 0, which keeps global_Index inside
        globalTable (see GlobalIndexEscapesTable). */
    constructor ()
      ensures Valid() && fresh(bimodalTable) && fresh(globalTable)
      ensures history == 0
      ensures forall i :: 0 <= i < bimodalTable.Length ==> bimodalTable[i] == 0
      ensures forall i :: 0 <= i < globalTable.Length ==> globalTable[i] == 0
      ensures !lastBranch.isConditional
    {
      history := 0;
      bimodalTable := new uint8[TableSize](_ => 0);
      globalTable := new uint8[TableSize](_ => 0);
      lastBranch := BranchInfo(0, false);
      bimodalIndex, globalIndex := 0, 0;
    }

    /** predict: remember the branch; for a conditional branch, compute and
        remember both indices and predict from the global counter when history
        bit 0 is set, from the bimodal counter otherwise; any other branch is
        predicted taken. The target is always 0. */
    method Predict(b: BranchInfo) returns (p: Prediction)
      requires Valid()
      modifies this`lastBranch, this`bimodalIndex, this`globalIndex
      ensures Valid()
      ensures lastBranch == b
      ensures p.target == 0
      ensures b.isConditional ==>
                bimodalIndex == BimodalIndex(b.address) &&
                globalIndex == GlobalIndex(history) &&
                p.taken == if SelectsGlobal(history) then Direction(globalTable[globalIndex])
                           else Direction(bimodalTable[bimodalIndex])
      ensures !b.isConditional ==>
                p == AlwaysTaken &&
                bimodalIndex == old(bimodalIndex) && globalIndex == old(globalIndex)
    {
      lastBranch := b;
      var taken: bool;
      if b.isConditional {
        bimodalIndex := BimodalIndex(b.address);
        globalIndex := GlobalIndex(history);
        if SelectsGlobal(history) {
          taken := Direction(globalTable[globalIndex]);
        } else {
          taken := Direction(bimodalTable[bimodalIndex]);
        }
      } else {
        taken := true;
      }
      p := Prediction(taken, 0);
    }

    /** update: when the branch seen by the last predict was conditional, move
        both stored counters one step towards the outcome, whichever table gave
        the prediction, and shift the outcome into the history; otherwise
        change nothing. `target` is not used. */
    method Update(taken: bool, target: uint32)
      requires Valid()
      modifies this`history, bimodalTable, globalTable
      ensures Valid()
      ensures old(lastBranch).isConditional ==>
                globalTable[..] ==
                  old(globalTable[..])[globalIndex := Step(old(globalTable[globalIndex]), taken)] &&
                bimodalTable[..] ==
                  old(bimodalTable[..])[bimodalIndex := Step(old(bimodalTable[bimodalIndex]), taken)] &&
                history == ShiftHistory(old(history), taken)
      // Both stored counters move the same way, whichever table predicted.
      ensures old(lastBranch).isConditional && taken ==>
                bimodalTable[bimodalIndex] >= old(bimodalTable[bimodalIndex]) &&
                globalTable[globalIndex] >= old(globalTable[globalIndex])
      ensures old(lastBranch).isConditional && !taken ==>
                bimodalTable[bimodalIndex] <= old(bimodalTable[bimodalIndex]) &&
                globalTable[globalIndex] <= old(globalTable[globalIndex])
      ensures !old(lastBranch).isConditional ==>
                bimodalTable[..] == old(bimodalTable[..]) &&
                globalTable[..] == old(globalTable[..]) &&
                history == old(history)
    {
      if lastBranch.isConditional {
        UpdateCounter(globalTable, globalIndex, taken);
        UpdateCounter(bimodalTable, bimodalIndex, taken);
        history := ShiftHistory(history, taken);
      }
    }
  }
}
