/**
 * What `receiveProtocol` computes from one buffered run of edge-to-edge
 * durations for one protocol, before its debounce: the unit delay derived
 * from the run's opening gap, the tolerance, the start-sync check and the
 * pair-by-pair reconstruction of the bits.
 */
module Decoder {
  import opened Width
  import opened Protocols
  import opened TriState

  /** `diff(A, B)`: the distance between two `int`s. */
  function Diff(a: int, b: int): nat {
    if a >= b then a - b else b - a
  }

  /** The derived pulse length: the gap that opened the run over the long stop half. */
  function UnitDelay(pro: Protocol, gap: u32): u32
    requires SyncLengthInPulses(pro) > 0
  {
    gap / SyncLengthInPulses(pro)
  }

  /** `delay * nReceiveTolerance / 100`, computed in `unsigned int`. */
  function DelayTolerance(delay: u32, percent: int): u32 {
    U32(Mul(delay, U32(percent))) / 100
  }

  /** How far a recorded duration is from `delay * factor`, as `diff` measures it. */
  function Deviation(t: u32, delay: u32, factor: nat): nat {
    Diff(Int32(t), Int32(U32(Mul(delay, factor))))
  }

  /** A recorded pair matches a pattern when both halves deviate by strictly less than the tolerance. */
  predicate PairMatches(hi: u32, lo: u32, pattern: HighLow, delay: u32, tol: u32) {
    Deviation(hi, delay, pattern.high) < tol && Deviation(lo, delay, pattern.low) < tol
  }

  /** Inverted protocols have one more recorded duration before the data. */
  function FirstDataTiming(pro: Protocol): nat {
    if pro.invertedSignal then 2 else 1
  }

  /** The start sync is rejected only when a half deviates by more than the tolerance. */
  predicate StartSyncMatches(pro: Protocol, ts: seq<u32>, first: nat, delay: u32, tol: u32)
    requires first + 1 < |ts|
  {
    !(Deviation(ts[first], delay, pro.startSyncFactor.high) > tol
      || Deviation(ts[first + 1], delay, pro.startSyncFactor.low) > tol)
  }

  /** Bits read so far, and whether every pair up to the end of the run matched. */
  datatype Scan = Scan(bits: seq<char>, complete: bool)

  function Prepend(c: char, s: Scan): Scan {
    Scan([c] + s.bits, s.complete)
  }

  /** The number of pairs the loop `for (i = first; i < changeCount - 1; i += 2)` visits. */
  function PairCount(i: nat, cc: nat): nat {
    if i + 1 >= cc then 0 else (cc - i) / 2
  }

  /**
   * The pair loop from index `i`: a pair is '0' when it matches the zero
   * pattern, else '1' when it matches the one pattern, else the scan stops.
   */
  function ScanPairs(pro: Protocol, ts: seq<u32>, i: nat, cc: nat, delay: u32, tol: u32): (r: Scan)
    requires i <= cc <= |ts|
    decreases cc - i
  {
    if i + 1 >= cc then Scan([], true)
    else if PairMatches(ts[i], ts[i + 1], pro.zero, delay, tol) then Prepend('0', ScanPairs(pro, ts, i + 2, cc, delay, tol))
    else if PairMatches(ts[i], ts[i + 1], pro.one, delay, tol) then Prepend('1', ScanPairs(pro, ts, i + 2, cc, delay, tol))
    else Scan([], false)
  }

  /** The pair at `j`, inside the first `cc` durations, reads as bit `c`: '0' on the zero pattern, else '1' on the one pattern. */
  predicate PairReads(pro: Protocol, ts: seq<u32>, cc: nat, j: nat, delay: u32, tol: u32, c: char) {
    j + 1 < cc <= |ts|
    && (c == '0' <==> PairMatches(ts[j], ts[j + 1], pro.zero, delay, tol))
    && (c == '1' ==> PairMatches(ts[j], ts[j + 1], pro.one, delay, tol))
  }

  /** The pair at `j`, inside the first `cc` durations, matches neither pattern. */
  predicate PairStops(pro: Protocol, ts: seq<u32>, cc: nat, j: nat, delay: u32, tol: u32) {
    j + 1 < cc <= |ts|
    && !PairMatches(ts[j], ts[j + 1], pro.zero, delay, tol)
    && !PairMatches(ts[j], ts[j + 1], pro.one, delay, tol)
  }

  /**
   * The scan reads one '0'/'1' per matched pair, reads every pair when it
   * completes, and otherwise stops at a pair that matches neither pattern.
   */
  lemma {:induction false} ScanPairsShape(pro: Protocol, ts: seq<u32>, i: nat, cc: nat, delay: u32, tol: u32)
    requires i <= cc <= |ts|
    ensures var r := ScanPairs(pro, ts, i, cc, delay, tol);
      IsBinary(r.bits)
      && (r.complete ==> |r.bits| == PairCount(i, cc))
      && (!r.complete ==> |r.bits| < PairCount(i, cc) && PairStops(pro, ts, cc, i + 2 * |r.bits|, delay, tol))
    decreases cc - i
  {
    if i + 1 < cc {
      ScanPairsShape(pro, ts, i + 2, cc, delay, tol);
      var r, r' := ScanPairs(pro, ts, i, cc, delay, tol), ScanPairs(pro, ts, i + 2, cc, delay, tol);
      assert PairCount(i, cc) == PairCount(i + 2, cc) + 1;
      if PairMatches(ts[i], ts[i + 1], pro.zero, delay, tol) {
        assert r == Prepend('0', r');
      } else if PairMatches(ts[i], ts[i + 1], pro.one, delay, tol) {
        assert r == Prepend('1', r');
      }
    }
  }

  /** Bit `k` of `bits` is read from the pair at `i + 2k`. */
  predicate ReadsFrom(pro: Protocol, ts: seq<u32>, cc: nat, i: nat, delay: u32, tol: u32, bits: seq<char>) {
    forall k :: 0 <= k < |bits| ==> PairReads(pro, ts, cc, i + 2 * k, delay, tol, bits[k])
  }

  /** Bit `k` of the scan is read from the pair at `i + 2k`: '0' exactly on the zero pattern, '1' on the one pattern. */
  lemma {:induction false} ScanPairsReads(pro: Protocol, ts: seq<u32>, i: nat, cc: nat, delay: u32, tol: u32)
    requires i <= cc <= |ts|
    ensures ReadsFrom(pro, ts, cc, i, delay, tol, ScanPairs(pro, ts, i, cc, delay, tol).bits)
    decreases cc - i
  {
    if i + 1 < cc {
      ScanPairsReads(pro, ts, i + 2, cc, delay, tol);
      var bits := ScanPairs(pro, ts, i + 2, cc, delay, tol).bits;
      if PairMatches(ts[i], ts[i + 1], pro.zero, delay, tol) {
        ReadsShift(pro, ts, cc, i, delay, tol, '0', bits);
      } else if PairMatches(ts[i], ts[i + 1], pro.one, delay, tol) {
        ReadsShift(pro, ts, cc, i, delay, tol, '1', bits);
      }
    }
  }

  /** Reading one more pair in front of a run of read pairs. */
  lemma ReadsShift(pro: Protocol, ts: seq<u32>, cc: nat, i: nat, delay: u32, tol: u32, c: char, bits: seq<char>)
    requires PairReads(pro, ts, cc, i, delay, tol, c)
    requires ReadsFrom(pro, ts, cc, i + 2, delay, tol, bits)
    ensures ReadsFrom(pro, ts, cc, i, delay, tol, [c] + bits)
  {
    forall k | 0 < k < |[c] + bits|
      ensures PairReads(pro, ts, cc, i + 2 * k, delay, tol, ([c] + bits)[k])
    {
      assert ([c] + bits)[k] == bits[k - 1] && i + 2 * k == i + 2 + 2 * (k - 1);
    }
  }

  /** The outcome of decoding one run with one protocol. */
  datatype Decoded =
    | TooShort
    | SyncMismatch
    | PairMismatch(partial: seq<char>)
    | Match(bits: seq<char>, code: u32, delay: u32)

  /** Index of the first data duration: after the optional start sync. */
  function DataStart(pro: Protocol): nat {
    if HasStartSync(pro) then FirstDataTiming(pro) + 2 else FirstDataTiming(pro)
  }

  function Decode(pro: Protocol, ts: seq<u32>, cc: nat, percent: int): Decoded
    requires SyncLengthInPulses(pro) > 0 && cc <= |ts|
  {
    if cc < 8 then TooShort
    else
      var delay := UnitDelay(pro, ts[0]);
      var tol := DelayTolerance(delay, percent);
      if HasStartSync(pro) && !StartSyncMatches(pro, ts, FirstDataTiming(pro), delay, tol) then SyncMismatch
      else
        var scan := ScanPairs(pro, ts, DataStart(pro), cc, delay, tol);
        if scan.complete then Match(scan.bits, U32(BitsValue(scan.bits)), delay) else PairMismatch(scan.bits)
  }

  /**
   * What a decode can report: runs shorter than 8 durations are ignored, a
   * start-sync mismatch needs a start sync, and a match holds one bit per
   * pair after the start sync, their value and the derived pulse length.
   */
  lemma DecodeShape(pro: Protocol, ts: seq<u32>, cc: nat, percent: int)
    requires SyncLengthInPulses(pro) > 0 && cc <= |ts|
    ensures var r := Decode(pro, ts, cc, percent);
      (r.TooShort? <==> cc < 8)
      && (r.SyncMismatch? ==> HasStartSync(pro))
      && (r.PairMismatch? ==> IsBinary(r.partial) && |r.partial| < PairCount(DataStart(pro), cc))
      && (r.Match? ==> IsBinary(r.bits) && |r.bits| == PairCount(DataStart(pro), cc)
                       && r.code == U32(BitsValue(r.bits)) && r.delay == UnitDelay(pro, ts[0]))
  {
    if cc >= 8 {
      var delay := UnitDelay(pro, ts[0]);
      ScanPairsShape(pro, ts, DataStart(pro), cc, delay, DelayTolerance(delay, percent));
    }
  }

  /** The scan reads only the durations below `cc`. */
  lemma {:induction false} ScanReadsBelow(pro: Protocol, ts: seq<u32>, ts': seq<u32>, i: nat, cc: nat, delay: u32, tol: u32)
    requires i <= cc <= |ts| && cc <= |ts'| && ts[..cc] == ts'[..cc]
    ensures ScanPairs(pro, ts, i, cc, delay, tol) == ScanPairs(pro, ts', i, cc, delay, tol)
    decreases cc - i
  {
    if i + 1 < cc {
      assert ts[i] == ts[..cc][i] && ts[i + 1] == ts[..cc][i + 1];
      assert ts'[i] == ts'[..cc][i] && ts'[i + 1] == ts'[..cc][i + 1];
      ScanReadsBelow(pro, ts, ts', i + 2, cc, delay, tol);
    }
  }

  /** Decoding depends only on the first `cc` recorded durations, so it never reads past them. */
  lemma DecodeReadsBelow(pro: Protocol, ts: seq<u32>, ts': seq<u32>, cc: nat, percent: int)
    requires SyncLengthInPulses(pro) > 0 && cc <= |ts| && cc <= |ts'| && ts[..cc] == ts'[..cc]
    ensures Decode(pro, ts, cc, percent) == Decode(pro, ts', cc, percent)
  {
    if cc >= 8 {
      assert ts[0] == ts[..cc][0] == ts'[0];
      var f := FirstDataTiming(pro);
      assert ts[f] == ts[..cc][f] == ts'[f] && ts[f + 1] == ts[..cc][f + 1] == ts'[f + 1];
      var delay := UnitDelay(pro, ts[0]);
      ScanReadsBelow(pro, ts, ts', DataStart(pro), cc, delay, DelayTolerance(delay, percent));
    }
  }

  /**
   * The tolerance window: for durations and ideal lengths that fit a
   * positive `int`, a data half matches exactly inside the open interval of
   * width `tol` around `delay * factor`, and the start sync is accepted
   * inside the closed one.
   */
  lemma ToleranceWindow(t: u32, delay: u32, factor: nat, tol: u32)
    requires t < 0x8000_0000 && delay * factor < 0x8000_0000
    ensures Deviation(t, delay, factor) < tol <==> delay * factor - tol < t < delay * factor + tol
    ensures !(Deviation(t, delay, factor) > tol) <==> delay * factor - tol <= t <= delay * factor + tol
  {
    var ideal := delay * factor;
    MulIsProduct(delay, factor);
    assert U32(ideal) == ideal;
    assert Int32(U32(ideal)) == ideal && Int32(t) == t;
  }

  // ---------------------------------------------------------------------
  // The durations an ideal, jitter-free transmission leaves in the buffer

  /** Largest pulse length for which every ideal duration fits a positive `int`. */
  const MaxUnit: nat := 0x40_0000

  /** The two durations of one data bit at pulse length `u`. */
  function BitDurations(pro: Protocol, u: nat, c: char): seq<u32>
    requires WellFormed(pro) && u < MaxUnit
  {
    var p := if c == '1' then pro.one else pro.zero;
    ScaledBound(u, p.high);
    ScaledBound(u, p.low);
    [u * p.high, u * p.low]
  }

  function DataDurations(pro: Protocol, u: nat, bits: seq<char>): (r: seq<u32>)
    requires WellFormed(pro) && u < MaxUnit
    ensures |r| == 2 * |bits|
  {
    if bits == [] then [] else BitDurations(pro, u, bits[0]) + DataDurations(pro, u, bits[1..])
  }

  /**
   * The run between two gaps of a repeated ideal transmission: the gap
   * (the long stop half), for an inverted protocol the short stop half, the
   * start sync if any, the data pairs, and for a non-inverted protocol the
   * short stop half that precedes the next gap.
   */
  function IdealRun(pro: Protocol, u: nat, bits: seq<char>): (r: seq<u32>)
    requires WellFormed(pro) && u < MaxUnit
    ensures |r| == 2 + (if HasStartSync(pro) then 2 else 0) + 2 * |bits|
  {
    ScaledBound(u, pro.stopSyncFactor.high);
    ScaledBound(u, pro.stopSyncFactor.low);
    ScaledBound(u, pro.startSyncFactor.high);
    ScaledBound(u, pro.startSyncFactor.low);
    (if pro.invertedSignal then [u * pro.stopSyncFactor.high, u * pro.stopSyncFactor.low] else [u * pro.stopSyncFactor.low])
    + (if HasStartSync(pro) then [u * pro.startSyncFactor.high, u * pro.startSyncFactor.low] else [])
    + DataDurations(pro, u, bits)
    + (if pro.invertedSignal then [] else [u * pro.stopSyncFactor.high])
  }

  lemma TolerancePositiveAndBelowUnit(u: nat, percent: int)
    requires 0 < u < MaxUnit && 1 <= percent <= 100 && u * percent >= 100
    ensures 0 < DelayTolerance(u, percent) <= u
  {
    MulMono(percent, 100, u);
    ScaledBound(u, 100);
    MulIsProduct(u, percent);
    assert U32(percent) == percent;
    assert U32(u * percent) == u * percent;
    assert (u * 100) / 100 == u;
  }

  /** An exact duration matches its own half and misses a different half by at least a unit. */
  lemma DeviationOfIdeal(u: nat, f: nat, g: nat)
    requires 0 < u < MaxUnit && f < 256 && g < 256
    ensures Deviation(u * f, u, g) == if f >= g then u * (f - g) else u * (g - f)
    ensures f != g ==> Deviation(u * f, u, g) >= u
  {
    ScaledBound(u, f);
    ScaledBound(u, g);
    MulIsProduct(u, g);
    assert U32(u * g) == u * g;
    if f > g {
      MulAtLeast(u, f - g);
      assert u * f - u * g == u * (f - g);
    } else if g > f {
      MulAtLeast(u, g - f);
      assert u * g - u * f == u * (g - f);
    }
  }

  /** The two ideal durations of a bit match that bit's pattern, and a one does not match the zero pattern. */
  lemma PairOfIdeal(pro: Protocol, u: nat, tol: u32, c: char, hi: u32, lo: u32)
    requires WellFormed(pro) && 0 < u < MaxUnit && 0 < tol <= u && (c == '0' || c == '1')
    requires hi == BitDurations(pro, u, c)[0] && lo == BitDurations(pro, u, c)[1]
    ensures PairMatches(hi, lo, pro.zero, u, tol) <==> c == '0'
    ensures c == '1' ==> PairMatches(hi, lo, pro.one, u, tol)
  {
    var p := if c == '1' then pro.one else pro.zero;
    assert hi == u * p.high && lo == u * p.low;
    HalfOfIdeal(u, p.high, pro.zero.high, tol);
    HalfOfIdeal(u, p.low, pro.zero.low, tol);
    HalfOfIdeal(u, p.high, pro.one.high, tol);
    HalfOfIdeal(u, p.low, pro.one.low, tol);
  }

  /** An ideal half is within a tolerance of at most one unit of exactly one factor. */
  lemma HalfOfIdeal(u: nat, f: nat, g: nat, tol: u32)
    requires 0 < u < MaxUnit && f < 256 && g < 256 && 0 < tol <= u
    ensures Deviation(u * f, u, g) < tol <==> f == g
  {
    DeviationOfIdeal(u, f, g);
  }

  /** The ideal start sync passes the start-sync check at any tolerance. */
  lemma SyncOfIdeal(pro: Protocol, u: nat, tol: u32, ts: seq<u32>, f: nat)
    requires WellFormed(pro) && 0 < u < MaxUnit && f + 1 < |ts|
    requires ts[f] == u * pro.startSyncFactor.high && ts[f + 1] == u * pro.startSyncFactor.low
    ensures StartSyncMatches(pro, ts, f, u, tol)
  {
    DeviationOfIdeal(u, pro.startSyncFactor.high, pro.startSyncFactor.high);
    DeviationOfIdeal(u, pro.startSyncFactor.low, pro.startSyncFactor.low);
  }

  /** The pair scan over ideal durations reads back every bit. */
  lemma {:induction false} ScanIdeal(pro: Protocol, u: nat, tol: u32, bits: seq<char>, ts: seq<u32>, i: nat, cc: nat)
    requires WellFormed(pro) && 0 < u < MaxUnit && 0 < tol <= u && IsBinary(bits)
    requires i + 2 * |bits| <= cc <= i + 2 * |bits| + 1 && cc <= |ts|
    requires ts[i..i + 2 * |bits|] == DataDurations(pro, u, bits)
    ensures ScanPairs(pro, ts, i, cc, u, tol) == Scan(bits, true)
    decreases |bits|
  {
    if bits != [] {
      var c := bits[0];
      var run, pair := ts[i..i + 2 * |bits|], BitDurations(pro, u, c);
      assert run == pair + DataDurations(pro, u, bits[1..]);
      assert ts[i] == run[0] == pair[0] && ts[i + 1] == run[1] == pair[1];
      PairOfIdeal(pro, u, tol, c, ts[i], ts[i + 1]);
      assert ts[i + 2..i + 2 * |bits|] == run[2..] == DataDurations(pro, u, bits[1..]);
      assert IsBinary(bits[1..]);
      ScanIdeal(pro, u, tol, bits[1..], ts, i + 2, cc);
      assert [c] + bits[1..] == bits;
    }
  }

  /**
   * Round trip: decoding the run an ideal transmission of a bit string
   * leaves in the buffer gives back that bit string, its value (modulo
   * 2^32) and the pulse length, for any tolerance between 1% and 100% that
   * leaves at least one microsecond of slack.
   */
  lemma DecodeIdealRun(pro: Protocol, u: nat, bits: seq<char>, ts: seq<u32>, percent: int)
    requires WellFormed(pro) && 0 < u < MaxUnit && IsBinary(bits) && |bits| >= 3
    requires 1 <= percent <= 100 && u * percent >= 100
    requires |ts| >= |IdealRun(pro, u, bits)| && ts[..|IdealRun(pro, u, bits)|] == IdealRun(pro, u, bits)
    ensures Decode(pro, ts, |IdealRun(pro, u, bits)|, percent) == Match(bits, U32(BitsValue(bits)), u)
  {
    var run := IdealRun(pro, u, bits);
    var cc := |run|;
    IdealRunLayout(pro, u, bits);
    var tol := DelayTolerance(u, percent);
    TolerancePositiveAndBelowUnit(u, percent);
    var f, s := FirstDataTiming(pro), DataStart(pro);
    assert ts[0] == run[0];
    assert UnitDelay(pro, ts[0]) == u;
    if HasStartSync(pro) {
      assert ts[f] == run[f] && ts[f + 1] == run[f + 1];
      SyncOfIdeal(pro, u, tol, ts, f);
    }
    SliceOfPrefix(ts, run, s, s + 2 * |bits|);
    ScanIdeal(pro, u, tol, bits, ts, s, cc);
  }

  /** A buffer that starts with a run agrees with it on every slice of the run. */
  lemma SliceOfPrefix(ts: seq<u32>, run: seq<u32>, i: nat, j: nat)
    requires i <= j <= |run| <= |ts| && ts[..|run|] == run
    ensures ts[i..j] == run[i..j]
  {
    forall k | i <= k < j
      ensures ts[k] == run[k]
    {
      assert ts[..|run|][k] == ts[k];
    }
  }

  /** Where the parts of an ideal run sit, and the unit delay its opening gap gives back. */
  lemma IdealRunLayout(pro: Protocol, u: nat, bits: seq<char>)
    requires WellFormed(pro) && 0 < u < MaxUnit
    ensures var run, f, s := IdealRun(pro, u, bits), FirstDataTiming(pro), DataStart(pro);
      UnitDelay(pro, run[0]) == u
      && (HasStartSync(pro) ==> run[f] == u * pro.startSyncFactor.high && run[f + 1] == u * pro.startSyncFactor.low)
      && s + 2 * |bits| <= |run| && run[s..s + 2 * |bits|] == DataDurations(pro, u, bits)
  {
    var run, g := IdealRun(pro, u, bits), SyncLengthInPulses(pro);
    assert run[0] == u * g;
    DivModUnique(u * g, g, u, 0);
  }

  /**
   * The bit length `(changeCount - 1) / 2` that `receiveProtocol` publishes
   * counts the start-sync pair as a bit: for an ideal run it exceeds the
   * number of decoded bits by one exactly when the protocol has a start sync.
   */
  lemma IdealBitLength(pro: Protocol, u: nat, bits: seq<char>)
    requires WellFormed(pro) && u < MaxUnit
    ensures (|IdealRun(pro, u, bits)| - 1) / 2 == |bits| + (if HasStartSync(pro) then 1 else 0)
  {
  }
}
