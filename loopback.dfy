/**
 * Transmitter against receiver: the durations one repetition of `send`
 * puts on the air, seen from one gap to the next as the interrupt handler
 * buffers them, are exactly the ideal run the decoder reads back.
 */
module Loopback {
  import opened Width
  import opened Protocols
  import opened TriState
  import opened Pulses
  import opened Decoder
  import Receiver

  lemma DurationsConcat(a: seq<Pulse>, b: seq<Pulse>)
    ensures Durations(a + b) == Durations(a) + Durations(b)
  {
  }

  /** One data symbol lasts its pattern's two durations. */
  lemma SymbolDurations(pro: Protocol, c: char)
    requires WellFormed(pro) && 0 < pro.pulseLength < MaxUnit && (c == '0' || c == '1')
    ensures Durations(SymbolPulses(pro, c)) == BitDurations(pro, pro.pulseLength, c)
  {
    FullPair(pro, if c == '1' then pro.one else pro.zero);
  }

  lemma {:induction false} WordDurations(pro: Protocol, w: seq<char>)
    requires WellFormed(pro) && 0 < pro.pulseLength < MaxUnit && IsBinary(w)
    ensures Durations(WordPulses(pro, w)) == DataDurations(pro, pro.pulseLength, w)
    decreases |w|
  {
    if w != [] {
      WordPulsesCons(pro, w);
      SymbolDurations(pro, w[0]);
      DurationsConcat(SymbolPulses(pro, w[0]), WordPulses(pro, w[1..]));
      assert IsBinary(w[1..]);
      WordDurations(pro, w[1..]);
    }
  }

  /**
   * What the handler buffers from one repetition of `send(w)`: the
   * durations from the long stop half, which it takes as the gap, up to the
   * next gap. The trailing stop sync (its long half only, or both halves for
   * an inverted protocol) comes first.
   */
  function Received(pro: Protocol, w: seq<char>): (r: seq<int>)
    requires WellFormed(pro)
    ensures |r| == |RepetitionPulses(pro, w)|
  {
    var d := Durations(RepetitionPulses(pro, w));
    FullPair(pro, pro.stopSyncFactor);
    var k := if pro.invertedSignal then 2 else 1;
    d[|d| - k..] + d[..|d| - k]
  }

  /** The durations of one repetition: start sync if any, the data pairs, the stop sync. */
  lemma RepetitionDurations(pro: Protocol, w: seq<char>)
    requires WellFormed(pro) && 0 < pro.pulseLength < MaxUnit && IsBinary(w)
    ensures var u := pro.pulseLength;
      Durations(RepetitionPulses(pro, w))
      == (if HasStartSync(pro) then [u * pro.startSyncFactor.high, u * pro.startSyncFactor.low] else [])
         + DataDurations(pro, u, w) + [u * pro.stopSyncFactor.high, u * pro.stopSyncFactor.low]
  {
    var start, data, stop := PulsePair(pro, pro.startSyncFactor), WordPulses(pro, w), PulsePair(pro, pro.stopSyncFactor);
    DurationsConcat(start + data, stop);
    DurationsConcat(start, data);
    WordDurations(pro, w);
    FullPair(pro, pro.stopSyncFactor);
    if HasStartSync(pro) {
      FullPair(pro, pro.startSyncFactor);
    }
  }

  /** One repetition, as the handler buffers it, is the ideal run of the word at the protocol's pulse length. */
  lemma RepetitionIsIdealRun(pro: Protocol, w: seq<char>)
    requires WellFormed(pro) && 0 < pro.pulseLength < MaxUnit && IsBinary(w)
    ensures Received(pro, w) == IdealRun(pro, pro.pulseLength, w)
  {
    var u := pro.pulseLength;
    RepetitionDurations(pro, w);
    var ds: seq<int> := if HasStartSync(pro) then [u * pro.startSyncFactor.high, u * pro.startSyncFactor.low] else [];
    var body, hi, lo := ds + DataDurations(pro, u, w), u * pro.stopSyncFactor.high, u * pro.stopSyncFactor.low;
    var d := body + [hi, lo];
    if pro.invertedSignal {
      assert d[|d| - 2..] == [hi, lo] && d[..|d| - 2] == body;
    } else {
      assert d[|d| - 1..] == [lo] && d[..|d| - 1] == body + [hi];
    }
  }

  /**
   * Round trip: a buffer holding what the handler records of one
   * repetition of `send(w)` decodes, at any tolerance between 1% and 100%
   * that leaves a microsecond of slack, to `w`, its value and the pulse length.
   */
  lemma SentWordDecodes(pro: Protocol, w: seq<char>, ts: seq<u32>, percent: int)
    requires WellFormed(pro) && 0 < pro.pulseLength < MaxUnit && IsBinary(w) && |w| >= 3
    requires 1 <= percent <= 100 && pro.pulseLength * percent >= 100
    requires |Received(pro, w)| <= |ts| && ts[..|Received(pro, w)|] == Received(pro, w)
    ensures SyncLengthInPulses(pro) > 0
    ensures Decode(pro, ts, |Received(pro, w)|, percent) == Match(w, U32(BitsValue(w)), pro.pulseLength)
  {
    RepetitionIsIdealRun(pro, w);
    DecodeIdealRun(pro, pro.pulseLength, w, ts, percent);
  }

  /**
   * `send(code, length)` (with the corrected buffer) is received as the
   * same `length` bits and the same code, for 3 to 32 bits.
   */
  lemma SentCodeDecodes(pro: Protocol, code: u32, length: nat, ts: seq<u32>, percent: int)
    requires WellFormed(pro) && 0 < pro.pulseLength < MaxUnit && 3 <= length <= 32 && code < Pow2(length)
    requires 1 <= percent <= 100 && pro.pulseLength * percent >= 100
    requires var run := Received(pro, Bits(code, length)); |run| <= |ts| && ts[..|run|] == run
    ensures SyncLengthInPulses(pro) > 0
    ensures Decode(pro, ts, |Received(pro, Bits(code, length))|, percent) == Match(Bits(code, length), code, pro.pulseLength)
  {
    SentWordDecodes(pro, Bits(code, length), ts, percent);
    BitsValueOfBits(code, length);
    DivModUnique(code, Pow2(length), 0, code);
  }

  /**
   * `sendTriState(w)` is received as the symbols' 2-bit patterns, and the
   * decoded code is the `code` that `sendTriState` computed.
   */
  lemma SentTriStateDecodes(pro: Protocol, w: seq<char>, ts: seq<u32>, percent: int)
    requires WellFormed(pro) && 0 < pro.pulseLength < MaxUnit && 2 <= |w| <= 16
    requires 1 <= percent <= 100 && pro.pulseLength * percent >= 100
    requires var run := Received(pro, TriStateBits(w)); |run| <= |ts| && ts[..|run|] == run
    ensures SyncLengthInPulses(pro) > 0
    ensures Decode(pro, ts, |Received(pro, TriStateBits(w))|, percent) == Match(TriStateBits(w), U32(BitsValue(TriStateBits(w))), pro.pulseLength)
  {
    TriStateRoundTrip(w);
    SentWordDecodes(pro, TriStateBits(w), ts, percent);
  }

  /**
   * The durations the handler needs to see one repetition as one run at
   * pulse length `u`: the long stop half above the separation limit, every
   * other half at or below it.
   */
  predicate GapBounds(pro: Protocol, u: nat) {
    var stop := pro.stopSyncFactor;
    var long := if pro.invertedSignal then stop.high else stop.low;
    var short := if pro.invertedSignal then stop.low else stop.high;
    u * long > Receiver.SeparationLimit
    && u * short <= Receiver.SeparationLimit
    && u * pro.startSyncFactor.high <= Receiver.SeparationLimit && u * pro.startSyncFactor.low <= Receiver.SeparationLimit
    && u * pro.zero.high <= Receiver.SeparationLimit && u * pro.zero.low <= Receiver.SeparationLimit
    && u * pro.one.high <= Receiver.SeparationLimit && u * pro.one.low <= Receiver.SeparationLimit
  }

  predicate AllShort(xs: seq<int>) {
    forall k :: 0 <= k < |xs| ==> xs[k] <= Receiver.SeparationLimit
  }

  lemma AllShortConcat(a: seq<int>, b: seq<int>)
    requires AllShort(a) && AllShort(b)
    ensures AllShort(a + b)
  {
    assert forall k :: 0 <= k < |a + b| ==> (a + b)[k] == if k < |a| then a[k] else b[k - |a|];
  }

  lemma {:induction false} DataDurationsShort(pro: Protocol, u: nat, bits: seq<char>)
    requires WellFormed(pro) && u < MaxUnit && GapBounds(pro, u)
    ensures AllShort(DataDurations(pro, u, bits))
  {
    if bits != [] {
      DataDurationsShort(pro, u, bits[1..]);
      AllShortConcat(BitDurations(pro, u, bits[0]), DataDurations(pro, u, bits[1..]));
    }
  }

  /** Under the gap bounds an ideal run opens with its only gap. */
  lemma IdealRunGaps(pro: Protocol, u: nat, bits: seq<char>)
    requires WellFormed(pro) && u < MaxUnit && GapBounds(pro, u)
    ensures var run := IdealRun(pro, u, bits);
      Receiver.SeparationLimit < run[0] < TwoTo32 && AllShort(run[1..])
  {
    var stop, start := pro.stopSyncFactor, pro.startSyncFactor;
    var head: seq<int> := if pro.invertedSignal then [u * stop.high, u * stop.low] else [u * stop.low];
    var b: seq<int> := if HasStartSync(pro) then [u * start.high, u * start.low] else [];
    var c: seq<int> := if pro.invertedSignal then [] else [u * stop.high];
    var d := DataDurations(pro, u, bits);
    assert AllShort(head[1..] + b + d + c) by {
      DataDurationsShort(pro, u, bits);
      AllShortConcat(head[1..], b);
      AllShortConcat(head[1..] + b, d);
      AllShortConcat(head[1..] + b + d, c);
    }
    var run := IdealRun(pro, u, bits);
    assert run[0] == head[0] && run[1..] == head[1..] + b + d + c by {
      assert run == head + b + d + c;
    }
  }

  /**
   * The stretch of two back-to-back repetitions of `send(w)` from the first
   * one's long stop half up to the second one's: the durations between
   * the two edges the handler takes as gaps.
   */
  function Window(pro: Protocol, w: seq<char>): (r: seq<int>)
    requires WellFormed(pro)
    ensures |r| == |RepetitionPulses(pro, w)|
  {
    var n, k := |RepetitionPulses(pro, w)|, (if pro.invertedSignal then 2 else 1);
    FullPair(pro, pro.stopSyncFactor);
    Durations(SendPulses(pro, w, 2))[n - k .. 2 * n - k]
  }

  /** `Received` is that stretch: the rotation of one repetition's durations is read off the trace of two. */
  lemma ReceivedIsWindow(pro: Protocol, w: seq<char>)
    requires WellFormed(pro)
    ensures Received(pro, w) == Window(pro, w)
  {
    var d := Durations(RepetitionPulses(pro, w));
    var k := if pro.invertedSignal then 2 else 1;
    assert Received(pro, w) == d[|d| - k..] + d[..|d| - k] by {
      FullPair(pro, pro.stopSyncFactor);
    }
    assert Window(pro, w) == (d + d)[|d| - k .. 2 * |d| - k] by {
      FullPair(pro, pro.stopSyncFactor);
      TwoRepetitions(pro, w);
    }
    RotationWindow(d, k);
  }

  /** Rotating a sequence left is reading a window of it written twice. */
  lemma RotationWindow(d: seq<int>, k: nat)
    requires k <= |d|
    ensures (d + d)[|d| - k .. 2 * |d| - k] == d[|d| - k..] + d[..|d| - k]
  {
  }

  /**
   * From whatever state the handler is in, the edges of two back-to-back
   * repetitions of `send(w)`, from the first one's long stop half to the
   * second's, leave exactly `Received` in its buffer, when the durations
   * keep the gap bounds and one repetition fits the buffer.
   */
  lemma HandlerBuffersRepetition(s: Receiver.RxState, pro: Protocol, w: seq<char>)
    requires WellFormed(pro) && 0 < pro.pulseLength < MaxUnit && IsBinary(w) && GapBounds(pro, pro.pulseLength)
    requires Receiver.RxValid(s) && s.enabled && |RepetitionPulses(pro, w)| <= Receiver.MaxChanges
    ensures var t := Receiver.Feed(s, Window(pro, w));
      t.changeCount == |Window(pro, w)| && t.timings[..t.changeCount] == Received(pro, w)
  {
    ReceivedIsWindow(pro, w);
    RepetitionIsIdealRun(pro, w);
    IdealRunGaps(pro, pro.pulseLength, w);
    var run := Received(pro, w);
    assert forall k :: 1 <= k < |run| ==> run[k] == run[1..][k - 1];
    Receiver.FeedRecordsRun(s, run);
  }

  /**
   * The round trip through the handler: the run it has buffered when the
   * second repetition's gap arrives decodes, at the receiver's tolerance,
   * to the word that was sent, its value and the pulse length.
   */
  lemma HandlerRunDecodes(s: Receiver.RxState, pro: Protocol, w: seq<char>)
    requires WellFormed(pro) && 0 < pro.pulseLength < MaxUnit && IsBinary(w) && |w| >= 3 && GapBounds(pro, pro.pulseLength)
    requires Receiver.RxValid(s) && s.enabled && |RepetitionPulses(pro, w)| <= Receiver.MaxChanges
    requires 1 <= s.tolerance <= 100 && pro.pulseLength * s.tolerance >= 100
    ensures SyncLengthInPulses(pro) > 0
    ensures var t := Receiver.Feed(s, Window(pro, w));
      Decode(pro, t.timings, t.changeCount, s.tolerance) == Match(w, U32(BitsValue(w)), pro.pulseLength)
  {
    var t := Receiver.Feed(s, Window(pro, w));
    HandlerBuffersRepetition(s, pro, w);
    SentWordDecodes(pro, w, t.timings, s.tolerance);
  }

  /**
   * Every catalog protocol but protocol 4 keeps the gap bounds at its
   * nominal pulse length; protocol 4's long stop half, 6 * 380 = 2280
   * microseconds, is below the separation limit, so its repetitions never
   * open a run.
   */
  lemma NominalGapBounds(p: nat)
    requires 1 <= p <= NumProto
    ensures GapBounds(ProtocolNo(p), ProtocolNo(p).pulseLength) <==> p != 4
  {
  }

  /**
   * A run of protocol 1, at any pulse length the tolerance allows, is
   * reported as protocol 1: the handler tries protocol 1 first, and the
   * second decode of the same bits publishes it.
   */
  lemma Protocol1ReportedAsProtocol1(w: seq<char>, u: nat, ts: seq<u32>, percent: int, o: Receiver.Output)
    requires IsBinary(w) && |w| >= 3 && 0 < u < MaxUnit && 1 <= percent <= 100 && u * percent >= 100
    requires var run := IdealRun(ProtocolNo(1), u, w); |run| <= |ts| && ts[..|run|] == run
    requires o.lastBinString == w
    ensures var o' := Receiver.TryFrom(ts, percent, o, 1, |IdealRun(ProtocolNo(1), u, w)|);
      o'.protocol == 1 && o'.value == U32(BitsValue(w)) && o'.delay == u && o'.binString == w
  {
    var cc := |IdealRun(ProtocolNo(1), u, w)|;
    DecodeIdealRun(ProtocolNo(1), u, w, ts, percent);
    Receiver.ReceivePublishesIff(ts, percent, o, 1, cc);
    Receiver.TryFromStopsAtFirst(ts, percent, o, 1, cc);
  }
}
