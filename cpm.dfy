/** cpm_predictor: the placeholder for a complete Pentium M predictor. Every
    branch is predicted taken with target 0 and updates are ignored. */
module CpmStub {
  import opened Primitives
  import opened Branch

  class CpmPredictor {
    /** `u.index` of the cpm_update record: declared, never written or read. */
    var index: uint32

    /** cpm_predictor(): does nothing, so `index` starts with whatever value
        it happens to have. */
    constructor ()
    {
    }

    /** predict: taken with target 0, whatever the branch, conditional or not. */
    method Predict(b: BranchInfo) returns (p: Prediction)
      ensures p.taken && p.target == 0
    {
      p := AlwaysTaken;
    }

    /** update: does nothing; the stub never learns. */
    method Update(taken: bool, target: uint32)
      modifies this
      ensures unchanged(this)
    {
    }
  }
}
