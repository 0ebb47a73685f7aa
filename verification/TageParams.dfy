/**
 The predictor's construction parameters. The constructor and init() of the source fix them once;
 the assertions made there, and the ranges without which its shifts are undefined, are Valid.
 */
module TageParams {

  datatype Params = Params(
    nHistoryTables: nat,
    histBufferSize: nat,
    maxHist: nat,
    pathHistBits: nat,
    instShiftAmt: nat,
    speculativeHistUpdate: bool,
    histLengths: seq<nat>,
    logTagTableSizes: seq<nat>,
    tagTableTagWidths: seq<nat>,
    noSkip: seq<bool>,
    logRatioBiModalHystEntries: nat,
    tagTableCounterBits: nat,
    tagTableUBits: nat,
    useAltOnNaBits: nat,
    maxNumAlloc: nat,
    logUResetPeriod: nat,
    initialTCounterValue: nat)
  {
    predicate Valid() {
      && histBufferSize > 2 * maxHist
      && pathHistBits <= 32
      && |histLengths| == nHistoryTables + 1
      && |logTagTableSizes| == nHistoryTables + 1
      && |tagTableTagWidths| == nHistoryTables + 1
      && |noSkip| == nHistoryTables + 1
      && (forall i | 1 <= i <= nHistoryTables :: 1 <= histLengths[i] <= maxHist)
      && (forall i | 0 <= i <= nHistoryTables :: 1 <= logTagTableSizes[i] <= 31)
      && (forall i | 1 <= i <= nHistoryTables :: 2 <= tagTableTagWidths[i] <= 16)
      && (forall i | 1 <= i <= nHistoryTables :: i <= logTagTableSizes[i])
      && logRatioBiModalHystEntries <= logTagTableSizes[0]
      && 1 <= tagTableCounterBits <= 8
      && 1 <= tagTableUBits <= 2
      && 1 <= useAltOnNaBits <= 8
      && 1 <= maxNumAlloc
      && logUResetPeriod != 0
    }
  }
}
