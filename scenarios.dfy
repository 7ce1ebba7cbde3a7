/** Whole runs of a freshly constructed predictor on a single conditional
    branch, as the simulator drives it: predict, then update with the outcome,
    once per dynamic branch. Each run counts the mispredictions. */
module Scenarios {
  import opened Primitives
  import opened Branch
  import Gshare
  import PmHybrid

  /** The history register after k taken outcomes from 0: the low min(k, 15)
      bits set. */
  function AllTakenHistory(k: nat): (h: uint32)
    ensures h < HistoryLimit
  {
    var m := if k < HistoryLength then k else HistoryLength;
    Pow2Monotone(m, 15);
    Pow2Values();
    Pow2(m) - 1
  }

  lemma AllTakenStep(k: nat)
    ensures ShiftHistory(AllTakenHistory(k), true) == AllTakenHistory(k + 1)
  {
    var h := AllTakenHistory(k);
    ShiftHistoryMovesBits(h, true);
    if k < HistoryLength {
      Pow2Monotone(k, 14);
      Pow2Values();
      assert h == Pow2(k) - 1 < 0x4000;
      assert h % 0x4000 == h;
      assert Pow2(k + 1) == 2 * Pow2(k);
    } else {
      assert h == 0x7FFF by {
        Pow2Values();
      }
      assert AllTakenHistory(k + 1) == 0x7FFF by {
        Pow2Values();
      }
    }
  }

  lemma AllTakenDistinct(j: nat, k: nat)
    requires j < k <= HistoryLength
    ensures AllTakenHistory(j) != AllTakenHistory(k)
  {
    Pow2Monotone(j, k - 1);
  }

  /** The number of mispredictions in the first k executions of an
      always-taken branch: every one of the first 17 is missed. */
  function WarmUpMisses(k: nat): (misses: nat) {
    if k <= 17 then k else 17
  }

  /** The count of the counter every execution from the 16th on selects,
      after k executions. */
  function SettledCount(k: nat): (c: uint8) {
    if k <= HistoryLength then 0 else if k - HistoryLength < 3 then k - HistoryLength else 3
  }

  /** gshare's table after k executions of an always-taken branch at
      `address`: the counters the coming warm-up histories select are still
      0, and the counter of the all-ones history holds SettledCount(k). */
  ghost predicate GshareWarmTable(t: seq<uint8>, address: uint32, k: nat)
  {
    |t| == TableSize &&
    (forall j :: k <= j < HistoryLength ==> t[Gshare.Index(AllTakenHistory(j), address)] == 0) &&
    t[Gshare.Index(AllTakenHistory(HistoryLength), address)] == SettledCount(k)
  }

  /** One execution: the counter selected after k executions predicts taken
      exactly from the 18th execution on, and its update keeps the table in
      the shape for k + 1. */
  lemma GshareWarmStep(t: seq<uint8>, address: uint32, k: nat)
    requires GshareWarmTable(t, address, k)
    ensures var i := Gshare.Index(AllTakenHistory(k), address);
            InRange(t[i]) &&
            (Direction(t[i]) <==> k >= 17) &&
            GshareWarmTable(t[i := Step(t[i], true)], address, k + 1)
  {
    var i := Gshare.Index(AllTakenHistory(k), address);
    var settled := Gshare.Index(AllTakenHistory(HistoryLength), address);
    var t' := t[i := Step(t[i], true)];
    forall j | k < j <= HistoryLength
      ensures Gshare.Index(AllTakenHistory(j), address) != i
    {
      AllTakenDistinct(k, j);
      Gshare.IndexCollisions(AllTakenHistory(j), address, AllTakenHistory(k), address);
    }
    if k >= HistoryLength {
      assert AllTakenHistory(k) == AllTakenHistory(HistoryLength);
      assert i == settled;
    }
    assert forall j :: k + 1 <= j < HistoryLength ==> t'[Gshare.Index(AllTakenHistory(j), address)] == 0;
  }

  /** gshare on an always-taken branch: for the first 15 executions each
      history is new, so each selects an untouched (not-taken) counter; from
      then on the history is all ones and its counter needs two taken
      updates before it predicts taken. So exactly the first 17 executions
      are mispredicted. */
  method GshareAlwaysTaken(address: uint32, n: nat) returns (mispredictions: nat)
    ensures mispredictions == WarmUpMisses(n)
  {
    var g := new Gshare.GsharePredictor();
    var b := BranchInfo(address, true);
    mispredictions := 0;
    var k := 0;
    while k < n
      invariant k <= n
      invariant g.Valid() && fresh(g.tab)
      invariant g.history == AllTakenHistory(k)
      invariant mispredictions == WarmUpMisses(k)
      invariant GshareWarmTable(g.tab[..], address, k)
    {
      GshareWarmStep(g.tab[..], address, k);
      var p := g.Predict(b);
      if !p.taken {
        mispredictions := mispredictions + 1;
      }
      g.Update(true, 0);
      AllTakenStep(k);
      k := k + 1;
    }
  }

  /** The pm predictor's global table after k executions of an always-taken
      branch: the counters the coming warm-up histories index are still 0, and
      the counter of the all-ones history holds SettledCount(k). */
  ghost predicate PmWarmTable(t: seq<uint8>, k: nat)
  {
    |t| == TableSize &&
    (forall j :: k <= j < HistoryLength ==> t[AllTakenHistory(j)] == 0) &&
    t[AllTakenHistory(HistoryLength)] == SettledCount(k)
  }

  lemma PmWarmStep(t: seq<uint8>, k: nat)
    requires PmWarmTable(t, k)
    ensures var i := AllTakenHistory(k);
            InRange(t[i]) &&
            (Direction(t[i]) <==> k >= 17) &&
            PmWarmTable(t[i := Step(t[i], true)], k + 1)
  {
    var i := AllTakenHistory(k);
    var t' := t[i := Step(t[i], true)];
    forall j | k < j <= HistoryLength
      ensures AllTakenHistory(j) != i
    {
      AllTakenDistinct(k, j);
    }
    if k >= HistoryLength {
      assert i == AllTakenHistory(HistoryLength);
    }
    assert forall j :: k + 1 <= j < HistoryLength ==> t'[AllTakenHistory(j)] == 0;
  }

  /** What the hybrid predicts for the (k+1)-th execution: bimodal the first
      time, global afterwards; taken exactly from the 18th on. */
  lemma PmWarmPrediction(bimodal: seq<uint8>, global: seq<uint8>, address: uint32, k: nat)
    requires PmWarmTable(global, k) && |bimodal| == TableSize
    requires forall i :: 0 <= i < |bimodal| ==> InRange(bimodal[i])
    requires k == 0 ==> bimodal[PmHybrid.BimodalIndex(address)] == 0
    ensures var h := AllTakenHistory(k);
            InRange(global[PmHybrid.GlobalIndex(h)]) &&
            ((if PmHybrid.SelectsGlobal(h) then Direction(global[PmHybrid.GlobalIndex(h)])
              else Direction(bimodal[PmHybrid.BimodalIndex(address)])) <==> k >= 17)
  {
    PmWarmStep(global, k);
    if k > 0 {
      PmHybrid.SelectorFollowsLastOutcome(AllTakenHistory(k - 1), true);
      AllTakenStep(k - 1);
    }
  }

  /** The hybrid on an always-taken branch: the first execution is predicted
      by the (untouched) bimodal counter; every later one finds history bit 0
      set and is predicted by the global counter the history indexes, which
      warms up exactly as gshare's does. So it, too, mispredicts exactly the
      first 17 executions, although its bimodal counter is saturated from the
      third on. */
  method PmAlwaysTaken(address: uint32, n: nat) returns (mispredictions: nat)
    ensures mispredictions == WarmUpMisses(n)
  {
    var pm := new PmHybrid.PmPredictor();
    mispredictions := 0;
    var k := 0;
    while k < n
      invariant k <= n
      invariant pm.Valid() && fresh(pm.bimodalTable) && fresh(pm.globalTable)
      invariant pm.history == AllTakenHistory(k)
      invariant k == 0 ==> pm.bimodalTable[PmHybrid.BimodalIndex(address)] == 0
      invariant mispredictions == WarmUpMisses(k)
      invariant PmWarmTable(pm.globalTable[..], k)
    {
      var missed := PmTakenOnce(pm, address, k);
      if missed {
        mispredictions := mispredictions + 1;
      }
      k := k + 1;
    }
  }

  /** The (k+1)-th execution of the always-taken branch on the hybrid. */
  method PmTakenOnce(pm: PmHybrid.PmPredictor, address: uint32, k: nat) returns (missed: bool)
    requires pm.Valid() && pm.history == AllTakenHistory(k)
    requires k == 0 ==> pm.bimodalTable[PmHybrid.BimodalIndex(address)] == 0
    requires PmWarmTable(pm.globalTable[..], k)
    modifies pm, pm.bimodalTable, pm.globalTable
    ensures pm.Valid() && pm.history == AllTakenHistory(k + 1)
    ensures PmWarmTable(pm.globalTable[..], k + 1)
    ensures missed <==> k < 17
  {
    ghost var global := pm.globalTable[..];
    PmWarmPrediction(pm.bimodalTable[..], global, address, k);
    PmWarmStep(global, k);
    var p := pm.Predict(BranchInfo(address, true));
    missed := !p.taken;
    pm.Update(true, 0);
    AllTakenStep(k);
  }

  /** A branch that is never taken is never mispredicted by a fresh gshare
      predictor: the history stays 0, so every execution selects the same
      counter, which stays at 0. */
  method GshareNeverTaken(address: uint32, n: nat) returns (mispredictions: nat)
    ensures mispredictions == 0
  {
    var g := new Gshare.GsharePredictor();
    var b := BranchInfo(address, true);
    var i := Gshare.Index(0, address);
    mispredictions := 0;
    var k := 0;
    while k < n
      invariant k <= n
      invariant g.Valid() && fresh(g.tab)
      invariant g.history == 0 && g.tab[i] == 0
      invariant mispredictions == 0
    {
      var p := g.Predict(b);
      var missed := if p.taken then 1 else 0;
      mispredictions := mispredictions + missed;
      g.Update(false, 0);
      ShiftHistoryMovesBits(0, false);
      k := k + 1;
    }
  }

  /** The same for the hybrid: with the history at 0 the selector always
      picks the bimodal counter, which stays at 0; the global counter of
      history 0, updated every time but never consulted, stays at 0 too. */
  method PmNeverTaken(address: uint32, n: nat) returns (mispredictions: nat, bimodal: uint8, global: uint8)
    ensures mispredictions == 0
    ensures bimodal == 0 && global == 0
  {
    var pm := new PmHybrid.PmPredictor();
    var b := BranchInfo(address, true);
    var i := PmHybrid.BimodalIndex(address);
    mispredictions := 0;
    var k := 0;
    while k < n
      invariant k <= n
      invariant pm.Valid() && fresh(pm.bimodalTable) && fresh(pm.globalTable)
      invariant pm.history == 0 && pm.bimodalTable[i] == 0 && pm.globalTable[0] == 0
      invariant mispredictions == 0
    {
      var p := pm.Predict(b);
      var missed := if p.taken then 1 else 0;
      mispredictions := mispredictions + missed;
      pm.Update(false, 0);
      ShiftHistoryMovesBits(0, false);
      k := k + 1;
    }
    bimodal, global := pm.bimodalTable[i], pm.globalTable[0];
  }

  /** A fresh gshare predictor predicts every conditional branch not-taken
      and every other branch taken. */
  method GshareFirstPrediction(b: BranchInfo) returns (p: Prediction)
    ensures p.taken <==> !b.isConditional
    ensures p.target == 0
  {
    var g := new Gshare.GsharePredictor();
    p := g.Predict(b);
  }

  /** The same for a fresh hybrid predictor. */
  method PmFirstPrediction(b: BranchInfo) returns (p: Prediction)
    ensures p.taken <==> !b.isConditional
    ensures p.target == 0
  {
    var pm := new PmHybrid.PmPredictor();
    p := pm.Predict(b);
  }
}
