/** The counters a single-step decoder keeps, and the two rates derived
    from them. */
module DecodingStatistics {

  datatype Stats = Stats(
    totalDecodes: nat,
    successfulDecodes: nat,
    failedDecodes: nat,
    bitsProcessed: nat,
    singleSymbolDecodes: nat)
  {
    /** Every call is counted once, as a success or as a failure, and a
        one-bit decode from a symbol-holding root is a success. */
    predicate Valid() {
      && totalDecodes == successfulDecodes + failedDecodes
      && singleSymbolDecodes <= successfulDecodes
    }
  }

  /** A fresh record: every counter starts at zero. */
  function Default(): (s: Stats)
    ensures s.totalDecodes == 0 && s.successfulDecodes == 0 && s.failedDecodes == 0
    ensures s.bitsProcessed == 0 && s.singleSymbolDecodes == 0
    ensures s.Valid()
  {
    Stats(0, 0, 0, 0, 0)
  }

  /** `reset`: all five counters back to zero, whatever they held. */
  function Reset(s: Stats): (r: Stats)
    ensures r == Default()
    ensures r.Valid()
  {
    Stats(0, 0, 0, 0, 0)
  }

  /** Successful calls per call; 0 before the first call. */
  function SuccessRate(s: Stats): (rate: real)
    ensures s.totalDecodes == 0 ==> rate == 0.0
    ensures s.totalDecodes > 0 ==> rate * (s.totalDecodes as real) == s.successfulDecodes as real
    ensures s.Valid() ==> 0.0 <= rate <= 1.0
  {
    if s.totalDecodes == 0 then 0.0
    else (s.successfulDecodes as real) / (s.totalDecodes as real)
  }

  /** Bits consumed per call; 0 before the first call. */
  function AverageBitsPerDecode(s: Stats): (avg: real)
    ensures s.totalDecodes == 0 ==> avg == 0.0
    ensures s.totalDecodes > 0 ==> avg * (s.totalDecodes as real) == s.bitsProcessed as real
    ensures avg >= 0.0
  {
    if s.totalDecodes == 0 then 0.0
    else (s.bitsProcessed as real) / (s.totalDecodes as real)
  }

  /** The dictionary `to_dict` returns, as a record. */
  datatype Summary = Summary(
    totalDecodes: nat,
    successfulDecodes: nat,
    failedDecodes: nat,
    bitsProcessed: nat,
    singleSymbolDecodes: nat,
    successRate: real,
    averageBitsPerDecode: real)

  /** `to_dict`: the five counters unchanged and the two rates. */
  function ToDict(s: Stats): (d: Summary)
    ensures d.totalDecodes == s.totalDecodes && d.successfulDecodes == s.successfulDecodes
    ensures d.failedDecodes == s.failedDecodes && d.bitsProcessed == s.bitsProcessed
    ensures d.singleSymbolDecodes == s.singleSymbolDecodes
    ensures d.successRate == SuccessRate(s) && d.averageBitsPerDecode == AverageBitsPerDecode(s)
  {
    Summary(s.totalDecodes, s.successfulDecodes, s.failedDecodes, s.bitsProcessed,
            s.singleSymbolDecodes, SuccessRate(s), AverageBitsPerDecode(s))
  }
}
