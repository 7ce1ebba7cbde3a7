# Branch direction predictors of the CBP2 sample infrastructure

This project models `my_predictor.h` of the CBP2 (Championship Branch
Prediction) infrastructure: three predictors that a trace-driven simulator
drives by calling `predict` for every dynamic branch and then `update` with
its real outcome.

- `gshare_predictor`: one table of 2^15 two-bit saturating counters, indexed
  by a 15-bit global history XORed with the low 15 bits of the branch address.
- `pm_predictor`: a hybrid after the Pentium M's outcome predictor. A bimodal
  table is indexed by the address alone and a global table by the history
  alone. History bit 0 picks which counter gives the prediction, and both
  counters learn from every conditional outcome.
- `cpm_predictor`: a stub that predicts every branch taken and never learns.

Each predictor is a class. The fields are the history register, the counter
tables (arrays of `uint8`), the branch seen by the last `predict` (`bi`) and
the index or indices that `predict` stored for `update` (`u.index`,
`u.bimodal_Iindex`, `u.global_Index`). The source's shifts, masks and XOR on
`unsigned int` are written as arithmetic on naturals:

- `& ((1 << 15) - 1)` is `% 0x8000`;
- `<< 1` on an `unsigned int` is doubling modulo 2^32;
- `^` is `Primitives.Xor`, whose bit-level meaning is proved (`XorBit`).

Modules:

- `Primitives`: counters, history register, XOR.
- `Branch`: what the simulator passes in and gets back.
- `Gshare`, `PmHybrid`, `CpmStub`: the three predictors.
- `Scenarios`: whole runs of a fresh predictor on one branch.

Two of the runs show how the code behaves on a branch that is always taken.
Each update shifts the outcome into the history, so the same branch selects a
new gshare counter each time until the history is all ones. A fresh gshare
predictor therefore mispredicts such a branch exactly 17 times, not 2. The
hybrid also misses it exactly 17 times: after the first execution it consults
the global table, which warms up the same way. One might expect the third
prediction of a repeatedly taken branch to be taken; that holds only if the
history did not change between predictions, and the code shifts it on every
update.

## Model

| member | source | states |
|---|---|---|
| Primitives.Direction | cbp2-infrastructure-v2/src/my_predictor.h:34 | a counter predicts taken exactly when it is 2 or 3 (`>> 1`), not-taken exactly when it is 0 or 1 |
| Primitives.Step | cbp2-infrastructure-v2/src/my_predictor.h:49-58 | the saturating update: a taken outcome never lowers the counter and leaves it unchanged only at 3; a not-taken outcome never raises it and leaves it unchanged only at 0; the counter stays in 0..3 and moves by at most 1 |
| Primitives.UpdateCounter | cbp2-infrastructure-v2/src/my_predictor.h:48-58 | the in-place update of one table entry: the entry at the index takes one Step and every other entry is unchanged |
| Primitives.RunCounter | cbp2-infrastructure-v2/src/my_predictor.h:49-58 | after any sequence of outcomes a counter is still in 0..3 |
| Primitives.RunCounterSaturates | cbp2-infrastructure-v2/src/my_predictor.h:49-58 | three or more outcomes in one direction leave any counter at 3 (taken) or 0 (not taken) |
| Primitives.UpdateKeepsAgreeingPrediction | cbp2-infrastructure-v2/src/my_predictor.h:49-58 | updating with the outcome the counter already predicts keeps that prediction |
| Primitives.StrongCounterHysteresis | cbp2-infrastructure-v2/src/my_predictor.h:49-58 | a counter at 0 or 3 keeps its prediction after one contrary outcome |
| Primitives.ShiftLeft | cbp2-infrastructure-v2/src/my_predictor.h:33 | `x << n` on an `unsigned int`: a shift by 0 leaves x unchanged; a shift by 1 keeps the low 31 bits of x, moved up one place (bit 31 is lost); any shift by at least 1 leaves bit 0 clear |
| Primitives.Xor | cbp2-infrastructure-v2/src/my_predictor.h:33 | the `^` of the index: the result is 0 exactly when both operands are equal (its bitwise meaning is XorBit) |
| Primitives.XorBit | cbp2-infrastructure-v2/src/my_predictor.h:33 | bit i of Xor(a, b) is set exactly when bit i is set in one of a, b but not both |
| Primitives.XorBound | cbp2-infrastructure-v2/src/my_predictor.h:33 | XOR of two values below 2^k is below 2^k |
| Primitives.XorCommutes | cbp2-infrastructure-v2/src/my_predictor.h:33 | XOR is commutative |
| Primitives.XorCancel | cbp2-infrastructure-v2/src/my_predictor.h:33 | XORing the same value twice gives the original back |
| Primitives.ShiftHistory | cbp2-infrastructure-v2/src/my_predictor.h:59-61 | the history after one conditional outcome is below 2^15 |
| Primitives.ShiftHistoryMovesBits | cbp2-infrastructure-v2/src/my_predictor.h:59-61 | the new history is 2 * (old mod 2^14) + outcome: bit 0 is the outcome, bits 1..14 are the old bits 0..13, old bit 14 and every higher bit are dropped |
| Primitives.HistoryStaysInWidth | cbp2-infrastructure-v2/src/my_predictor.h:59-61 | after any non-empty sequence of outcomes the history is below 2^15, whatever it started from |
| Primitives.HistoryIsRecentOutcomes | cbp2-infrastructure-v2/src/my_predictor.h:59-61 | a history that starts at 0 is the last 15 outcomes (all of them while there are fewer), packed with the newest in bit 0 |
| Primitives.HistoryHoldsRecentOutcomes | cbp2-infrastructure-v2/src/my_predictor.h:59-61 | bit i of such a history (i < 15) is set exactly when a branch i places back exists and was taken |
| Gshare.Index | cbp2-infrastructure-v2/src/my_predictor.h:32-33 | the index is history XOR (address mod 2^15), because the shift is by TABLE_BITS - HISTORY_LENGTH = 0; it is inside the table whenever the history is below 2^15 |
| Gshare.IndexRecoversAddress | cbp2-infrastructure-v2/src/my_predictor.h:32-33 | XORing the history out of the index gives back the address's low 15 bits |
| Gshare.IndexCollisions | cbp2-infrastructure-v2/src/my_predictor.h:32-33 | under one history, two branches share a counter exactly when their low 15 address bits agree; for one address, two histories select the same counter exactly when they are equal |
| Gshare.GsharePredictor.constructor | cbp2-infrastructure-v2/src/my_predictor.h:22-25 | history 0, every counter 0, and no conditional branch pending |
| Gshare.GsharePredictor.Predict | cbp2-infrastructure-v2/src/my_predictor.h:27-42 | stores the branch; for a conditional branch stores Index(history, address) and predicts that counter's direction; otherwise predicts taken and keeps the stored index; target 0 |
| Gshare.GsharePredictor.Update | cbp2-infrastructure-v2/src/my_predictor.h:44-63 | if the stored branch is conditional: only the counter at the stored index changes, by one Step, and the history becomes ShiftHistory(history, taken); otherwise the table and history are unchanged |
| PmHybrid.BimodalIndex | cbp2-infrastructure-v2/src/my_predictor.h:118-119 | the bimodal index is inside the table and differs from the address by a multiple of 2^15 |
| PmHybrid.BimodalAliasing | cbp2-infrastructure-v2/src/my_predictor.h:118-119 | two addresses share a bimodal counter exactly when they differ by a multiple of 2^15 |
| PmHybrid.GlobalIndex | cbp2-infrastructure-v2/src/my_predictor.h:121-122 | the global index is the history itself (shift by 0) |
| PmHybrid.SelectsGlobal | cbp2-infrastructure-v2/src/my_predictor.h:129-130 | the global table is chosen exactly when history bit 0 is set |
| PmHybrid.SelectorFollowsLastOutcome | cbp2-infrastructure-v2/src/my_predictor.h:129-130 | after an update the selector bit is that update's outcome, so the global table is used exactly after a taken conditional branch |
| PmHybrid.SelectorAfterOutcomes | cbp2-infrastructure-v2/src/my_predictor.h:129-137 | from history 0, the global table is consulted exactly when a previous conditional branch exists and was taken |
| PmHybrid.GlobalIndexEscapesTable | cbp2-infrastructure-v2/src/my_predictor.h:99-104 | the global index is inside globalTable exactly when the history is below 2^15; a history of 0x8001, which the constructor does not rule out, selects the global table and indexes past its end |
| PmHybrid.PmPredictor.constructor | cbp2-infrastructure-v2/src/my_predictor.h:99-104 | both tables zeroed and distinct; history 0 (see Findings); no conditional branch pending |
| PmHybrid.PmPredictor.Predict | cbp2-infrastructure-v2/src/my_predictor.h:106-154 | stores the branch; for a conditional branch stores both indices and predicts from the global counter when history bit 0 is set and from the bimodal counter otherwise; otherwise predicts taken and keeps the stored indices; target 0 |
| PmHybrid.PmPredictor.Update | cbp2-infrastructure-v2/src/my_predictor.h:156-212 | if the stored branch is conditional: exactly the two stored counters take one Step each, whichever gave the prediction, and the history is shifted; both stored counters rise on a taken outcome and both fall on a not-taken one (each saturating on its own, since each takes a Step); otherwise both tables and the history are unchanged |
| CpmStub.CpmPredictor.constructor | cbp2-infrastructure-v2/src/my_predictor.h:230-232 | sets nothing: the stub has no state it reads, and `u.index` keeps whatever value it has |
| CpmStub.CpmPredictor.Predict | cbp2-infrastructure-v2/src/my_predictor.h:234-239 | every branch, conditional or not, gets the same prediction: taken with target 0 |
| CpmStub.CpmPredictor.Update | cbp2-infrastructure-v2/src/my_predictor.h:241-243 | changes nothing in the predictor |
| Scenarios.GshareFirstPrediction | cbp2-infrastructure-v2/src/my_predictor.h:22-42 | a fresh gshare predictor predicts a branch taken exactly when it is not conditional |
| Scenarios.PmFirstPrediction | cbp2-infrastructure-v2/src/my_predictor.h:99-154 | the same for a fresh hybrid predictor |
| Scenarios.GshareWarmStep | cbp2-infrastructure-v2/src/my_predictor.h:32-58 | after k executions of an always-taken branch, the counter gshare selects predicts taken exactly from the 18th execution on, and its update keeps the table in the shape for k + 1 |
| Scenarios.GshareAlwaysTaken | cbp2-infrastructure-v2/src/my_predictor.h:22-63 | a fresh gshare predictor mispredicts an always-taken branch on exactly its first 17 executions |
| Scenarios.PmWarmStep | cbp2-infrastructure-v2/src/my_predictor.h:121-122 | the same warm-up shape for the hybrid's global table, indexed by the history alone |
| Scenarios.PmWarmPrediction | cbp2-infrastructure-v2/src/my_predictor.h:118-137 | the hybrid's (k+1)-th prediction of an always-taken branch is taken exactly from the 18th on: the bimodal counter answers the first time, the global counter afterwards |
| Scenarios.PmAlwaysTaken | cbp2-infrastructure-v2/src/my_predictor.h:99-212 | a fresh hybrid predictor also mispredicts an always-taken branch on exactly its first 17 executions |
| Scenarios.GshareNeverTaken | cbp2-infrastructure-v2/src/my_predictor.h:22-63 | a fresh gshare predictor never mispredicts a never-taken branch |
| Scenarios.PmNeverTaken | cbp2-infrastructure-v2/src/my_predictor.h:99-212 | a fresh hybrid predictor never mispredicts a never-taken branch; its bimodal counter and the global counter of history 0 stay at 0 |

## Left out

- The simulator's `branch_info`, `branch_update` and `branch_predictor` classes are not part of this model. A branch is its address plus whether BR_CONDITIONAL is set, and a prediction is a direction and a target.
- The `branch_update *u` argument of `update` is not modelled. `update` reads the record it is passed; the simulator passes back the pointer `predict` returned, which is the predictor's own `u`, so the model's `Update` reads the indices stored in the predictor.
- The predictors do no target prediction: the target is always 0 and `update`'s `target` argument is unused. This includes `cpm_predictor`, whatever its comment says.
- `memset` is modelled as arrays created with every entry 0. Pointer aliasing of the shared `u` member is replaced by plain fields.
- The simulator driving `predict` and `update`, trace reading and statistics are not part of this model. Scenarios drive a predictor the way the simulator would: one predict, then one update, per branch.
- The initial `bi` is not modelled: the default constructor of `branch_info` is not part of this model. Here it is a non-conditional branch at address 0, with stored indices 0, so an `update` before any `predict` changes nothing.
- Commented-out code in the source is dead and is not modelled.

## Findings

| source | as written | input that shows it | evidently intended | confidence | as-written member | corrected member |
|---|---|---|---|---|---|---|
| cbp2-infrastructure-v2/src/my_predictor.h:99-104 | `pm_predictor()` zeroes both tables but never initialises `history`, unlike `gshare_predictor()`, which sets `history(0)` | a new `pm_predictor` whose indeterminate `history` holds 0x8001: bit 0 is set, so its first conditional `predict` computes `global_Index` = 0x8001 and reads `globalTable[0x8001]` past the end (:122, :129-132); the matching `update` then reads, and may change, that entry (:164, :181-195) | `history` starts at 0, as in gshare | not executed | PmHybrid.GlobalIndexEscapesTable | PmHybrid.PmPredictor.constructor |
