/**
 * The fixed catalog of pulse-ratio protocols. Every timing is a multiple
 * of the protocol's pulse length; a `HighLow` gives the number of pulse
 * lengths spent at the first and at the second logic level.
 */
module Protocols {

  datatype HighLow = HighLow(high: nat, low: nat)

  datatype Protocol = Protocol(
    pulseLength: int,
    startSyncFactor: HighLow,
    zero: HighLow,
    one: HighLow,
    stopSyncFactor: HighLow,
    invertedSignal: bool)

  /** The seven protocols `proto[]`, protocol n at index n-1. */
  const Catalog: seq<Protocol> := [
    Protocol(350, HighLow(0, 0), HighLow(1, 3), HighLow(3, 1), HighLow(1, 31), false),
    Protocol(650, HighLow(0, 0), HighLow(1, 2), HighLow(2, 1), HighLow(1, 10), false),
    Protocol(100, HighLow(0, 0), HighLow(4, 11), HighLow(9, 6), HighLow(30, 71), false),
    Protocol(380, HighLow(0, 0), HighLow(1, 3), HighLow(3, 1), HighLow(1, 6), false),
    Protocol(500, HighLow(0, 0), HighLow(1, 2), HighLow(2, 1), HighLow(6, 14), false),
    Protocol(450, HighLow(0, 0), HighLow(1, 2), HighLow(2, 1), HighLow(23, 1), true),   // HT6P20B
    Protocol(250, HighLow(1, 10), HighLow(1, 1), HighLow(1, 5), HighLow(1, 40), false)  // new kaku
  ]

  /** `numProto`, the number of catalog entries. */
  const NumProto: nat := 7

  /** A start sync is declared only when both of its halves are nonzero. */
  predicate HasStartSync(pro: Protocol) {
    pro.startSyncFactor.high != 0 && pro.startSyncFactor.low != 0
  }

  /** The longer half of the stop sync, in pulse lengths. */
  function SyncLengthInPulses(pro: Protocol): nat {
    if pro.stopSyncFactor.low > pro.stopSyncFactor.high then pro.stopSyncFactor.low else pro.stopSyncFactor.high
  }

  /**
   * The shape every catalog entry has, and that the decoder relies on:
   * every pulse count fits a byte, the data and stop halves are nonzero,
   * a start sync is either absent or complete, "0" and "1" differ, and the
   * long half of the stop sync comes second unless the signal is inverted.
   */
  predicate WellFormed(pro: Protocol) {
    && pro.startSyncFactor.high < 256 && pro.startSyncFactor.low < 256
    && 0 < pro.zero.high < 256 && 0 < pro.zero.low < 256
    && 0 < pro.one.high < 256 && 0 < pro.one.low < 256
    && 0 < pro.stopSyncFactor.high < 256 && 0 < pro.stopSyncFactor.low < 256
    && (pro.startSyncFactor.high == 0 <==> pro.startSyncFactor.low == 0)
    && pro.zero != pro.one
    && (if pro.invertedSignal then pro.stopSyncFactor.high >= pro.stopSyncFactor.low
        else pro.stopSyncFactor.low >= pro.stopSyncFactor.high)
  }

  lemma CatalogWellFormed()
    ensures |Catalog| == NumProto
    ensures forall i :: 0 <= i < NumProto ==> WellFormed(Catalog[i]) && Catalog[i].pulseLength > 0
  {
  }

  /** Protocol number `p` of the catalog (`proto[p-1]`). */
  function ProtocolNo(p: nat): (pro: Protocol)
    requires 1 <= p <= NumProto
    ensures WellFormed(pro) && pro.pulseLength > 0 && SyncLengthInPulses(pro) > 0
  {
    CatalogWellFormed();
    Catalog[p - 1]
  }
}
