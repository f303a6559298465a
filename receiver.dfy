/**
 * The receiving half of RCSwitch: the interrupt handler that records the
 * durations between signal edges, detects the gap between two repetitions
 * of a transmission, and decodes the buffered run with every protocol; and
 * `receiveProtocol`, which publishes a decoded value only when the same bit
 * string was decoded twice in a row.
 *
 * The source keeps this state in static members shared by every RCSwitch
 * object; here it is one `ReceiverState` object.
 */
module Receiver {
  import opened Width
  import opened TriState
  import opened Protocols
  import opened Decoder

  /** RCSWITCH_MAX_CHANGES: the capacity of the duration buffer. */
  const MaxChanges: nat := 67

  /** nSeparationLimit: a duration longer than this (microseconds) is taken as a gap. */
  const SeparationLimit: nat := 3500

  /** How close (microseconds) a gap must be to the previous one to count as a repetition. */
  const GapSimilarity: nat := 200

  /** What decoding writes: the two bit-string buffers and what the getters report. */
  datatype Output = Output(
    binString: seq<char>,
    lastBinString: seq<char>,
    value: u32,
    bitlength: nat,
    delay: u32,
    protocol: nat)

  /** The receiver's state as a value: the handler's run and counters, and the decoder's output. */
  datatype RxState = RxState(
    enabled: bool,
    tolerance: int,
    timings: seq<u32>,
    changeCount: nat,
    repeatCount: nat,
    lastTime: u32,
    out: Output)

  /** The bit strings fit their buffers of `MaxChanges / 2 + 1` characters (with the terminator). */
  predicate OutputValid(o: Output) {
    |o.binString| <= MaxChanges / 2 && |o.lastBinString| <= MaxChanges / 2
  }

  /** What the handler keeps true between interrupts. */
  predicate RxValid(s: RxState) {
    |s.timings| == MaxChanges && s.changeCount <= MaxChanges && s.repeatCount < 2 && OutputValid(s.out)
  }

  /** Nothing that `available()` and the getters report differs between the two outputs. */
  predicate SamePublished(o: Output, o': Output) {
    o.value == o'.value && o.bitlength == o'.bitlength && o.delay == o'.delay && o.protocol == o'.protocol
  }

  /** The decoder's verdict on the first `cc` durations of `ts` for protocol `p` at tolerance `percent`. */
  function Verdict(ts: seq<u32>, percent: int, p: nat, cc: nat): Decoded
    requires 1 <= p <= NumProto && cc <= |ts|
  {
    Decode(ProtocolNo(p), ts, cc, percent)
  }

  /**
   * `receiveProtocol(p, changeCount)` on the run `ts` at tolerance
   * `percent`: on a decoded bit string equal to the previous one publish it,
   * otherwise remember it. Returns the new output and whether it published.
   */
  function ReceiveSpec(ts: seq<u32>, percent: int, o: Output, p: nat, cc: nat): (Output, bool)
    requires 1 <= p <= NumProto && cc <= |ts|
  {
    match Verdict(ts, percent, p, cc)
    case TooShort => (o, false)
    case SyncMismatch => (o, false)
    case PairMismatch(partial) => (o.(binString := partial), false)
    case Match(bits, code, delay) =>
      if bits != o.lastBinString then (o.(binString := bits, lastBinString := bits), false)
      else (o.(binString := bits, value := code, bitlength := (cc - 1) / 2, delay := delay, protocol := p), true)
  }

  /** The protocol loop of the handler: protocols `p`, `p + 1`, ..., up to the first that publishes. */
  function TryFrom(ts: seq<u32>, percent: int, o: Output, p: nat, cc: nat): Output
    requires 1 <= p <= NumProto + 1 && cc <= |ts|
    decreases NumProto + 1 - p
  {
    if p > NumProto then o
    else
      var (o', ok) := ReceiveSpec(ts, percent, o, p, cc);
      if ok then o' else TryFrom(ts, percent, o', p + 1, cc)
  }

  /** A gap after the buffered run: count a repetition when it resembles the gap that opened the run, then start over. */
  function AfterGap(s: RxState, duration: u32): (r: RxState)
    requires |s.timings| == MaxChanges && s.changeCount <= MaxChanges
    ensures r.timings == s.timings && r.changeCount == 0 && r.enabled == s.enabled
    ensures r.tolerance == s.tolerance && r.lastTime == s.lastTime
  {
    if Diff(Int32(duration), Int32(s.timings[0])) < GapSimilarity then
      if s.repeatCount + 1 == 2 then
        s.(repeatCount := 0, changeCount := 0, out := TryFrom(s.timings, s.tolerance, s.out, 1, s.changeCount))
      else s.(repeatCount := s.repeatCount + 1, changeCount := 0)
    else s.(changeCount := 0)
  }

  /** Store a duration at the end of the run, first discarding a full buffer. */
  function Record(s: RxState, duration: u32, time: u32): (r: RxState)
    requires |s.timings| == MaxChanges && s.changeCount <= MaxChanges
    ensures |r.timings| == MaxChanges && 1 <= r.changeCount <= MaxChanges
    ensures r.out == s.out && r.enabled == s.enabled && r.tolerance == s.tolerance
  {
    var s2 := if s.changeCount >= MaxChanges then s.(changeCount := 0, repeatCount := 0) else s;
    s2.(timings := s2.timings[s2.changeCount := duration], changeCount := s2.changeCount + 1, lastTime := time)
  }

  /** `handleInterrupt()` at time `time` (the value of `micros()`). */
  function InterruptSpec(s: RxState, time: u32): RxState
    requires |s.timings| == MaxChanges && s.changeCount <= MaxChanges
  {
    if !s.enabled then s
    else
      var duration := U32(time - s.lastTime);
      Record(if duration > SeparationLimit then AfterGap(s, duration) else s, duration, time)
  }

  /**
   * The handler run once per edge, the edges `ds[0]`, `ds[1]`, ...
   * microseconds apart, the first `ds[0]` after the last edge it saw.
   */
  function Feed(s: RxState, ds: seq<int>): (r: RxState)
    requires RxValid(s)
    ensures RxValid(r) && r.enabled == s.enabled && r.tolerance == s.tolerance
    decreases |ds|
  {
    if ds == [] then s else Feed(Edge(s, ds[0]), ds[1..])
  }

  /** The handler run at the edge `d` microseconds after the previous one. */
  function Edge(s: RxState, d: int): (r: RxState)
    requires RxValid(s)
    ensures RxValid(r) && r.enabled == s.enabled && r.tolerance == s.tolerance
  {
    InterruptKeepsValid(s, U32(s.lastTime + d));
    InterruptSpec(s, U32(s.lastTime + d))
  }

  // ---------------------------------------------------------------------
  // Properties of receiveProtocol

  /** A decode publishes exactly when it reads a complete bit string equal to the remembered one. */
  lemma ReceivePublishesIff(ts: seq<u32>, percent: int, o: Output, p: nat, cc: nat)
    requires 1 <= p <= NumProto && cc <= |ts|
    ensures var d := Verdict(ts, percent, p, cc);
      ReceiveSpec(ts, percent, o, p, cc).1 <==> d.Match? && d.bits == o.lastBinString
    ensures var d, o' := Verdict(ts, percent, p, cc), ReceiveSpec(ts, percent, o, p, cc).0;
      ReceiveSpec(ts, percent, o, p, cc).1 ==>
      o'.value == d.code && o'.delay == d.delay && o'.bitlength == (cc - 1) / 2 && o'.protocol == p
  {
  }

  /**
   * `available()` tells a published value by its being non-zero, so a run
   * that decodes twice to all '0' bits is published (the decode reports
   * success) with the value 0, which `available()` cannot tell from none.
   */
  lemma ZeroCodeLooksUnavailable(ts: seq<u32>, percent: int, o: Output, p: nat, cc: nat)
    requires 1 <= p <= NumProto && cc <= |ts|
    requires Verdict(ts, percent, p, cc).Match? && Verdict(ts, percent, p, cc).bits == o.lastBinString
    requires forall k :: 0 <= k < |o.lastBinString| ==> o.lastBinString[k] == '0'
    ensures ReceiveSpec(ts, percent, o, p, cc).1 && ReceiveSpec(ts, percent, o, p, cc).0.value == 0
  {
    DecodeShape(ProtocolNo(p), ts, cc, percent);
    ZerosValue(o.lastBinString);
  }

  /** A failed decode never changes what is published. */
  lemma ReceiveFailureKeepsPublished(ts: seq<u32>, percent: int, o: Output, p: nat, cc: nat)
    requires 1 <= p <= NumProto && cc <= |ts|
    ensures !ReceiveSpec(ts, percent, o, p, cc).1 ==> SamePublished(o, ReceiveSpec(ts, percent, o, p, cc).0)
  {
  }

  /**
   * Debounce: the first decode of a bit string that differs from the
   * remembered one publishes nothing; decoding the same buffer once more
   * then publishes its value.
   */
  lemma DebounceNeedsTwoDecodes(ts: seq<u32>, percent: int, o: Output, p: nat, cc: nat)
    requires 1 <= p <= NumProto && cc <= |ts|
    requires Verdict(ts, percent, p, cc).Match? && Verdict(ts, percent, p, cc).bits != o.lastBinString
    ensures var (o1, ok1) := ReceiveSpec(ts, percent, o, p, cc);
      !ok1 && SamePublished(o, o1)
      && ReceiveSpec(ts, percent, o1, p, cc).1
      && ReceiveSpec(ts, percent, o1, p, cc).0.value == Verdict(ts, percent, p, cc).code
  {
    var o1 := ReceiveSpec(ts, percent, o, p, cc).0;
    ReceivePublishesIff(ts, percent, o1, p, cc);
  }

  /** The bit strings stay within their buffers. */
  lemma ReceiveKeepsValid(ts: seq<u32>, percent: int, o: Output, p: nat, cc: nat)
    requires OutputValid(o) && 1 <= p <= NumProto && cc <= |ts| && cc <= MaxChanges
    ensures OutputValid(ReceiveSpec(ts, percent, o, p, cc).0)
  {
    DecodeShape(ProtocolNo(p), ts, cc, percent);
  }

  /** Trying several protocols keeps the invariant too. */
  lemma {:induction false} TryFromKeepsValid(ts: seq<u32>, percent: int, o: Output, p: nat, cc: nat)
    requires OutputValid(o) && 1 <= p <= NumProto + 1 && cc <= |ts| && cc <= MaxChanges
    ensures OutputValid(TryFrom(ts, percent, o, p, cc))
    decreases NumProto + 1 - p
  {
    if p <= NumProto {
      ReceiveKeepsValid(ts, percent, o, p, cc);
      var (o', ok) := ReceiveSpec(ts, percent, o, p, cc);
      if !ok {
        TryFromKeepsValid(ts, percent, o', p + 1, cc);
        assert TryFrom(ts, percent, o, p, cc) == TryFrom(ts, percent, o', p + 1, cc);
      }
    }
  }

  /** The loop stops at the first protocol that publishes. */
  lemma TryFromStopsAtFirst(ts: seq<u32>, percent: int, o: Output, p: nat, cc: nat)
    requires 1 <= p <= NumProto && cc <= |ts| && ReceiveSpec(ts, percent, o, p, cc).1
    ensures TryFrom(ts, percent, o, p, cc) == ReceiveSpec(ts, percent, o, p, cc).0
  {
  }

  /** One protocol of the loop. */
  lemma TryFromStep(ts: seq<u32>, percent: int, o: Output, p: nat, cc: nat)
    requires 1 <= p <= NumProto && cc <= |ts|
    ensures var (o', ok) := ReceiveSpec(ts, percent, o, p, cc);
      TryFrom(ts, percent, o, p, cc) == if ok then o' else TryFrom(ts, percent, o', p + 1, cc)
  {
  }

  /** When no protocol publishes, the published value is left as it was. */
  lemma {:induction false} TryFromNonePublishes(ts: seq<u32>, percent: int, o: Output, p: nat, cc: nat)
    requires 1 <= p <= NumProto + 1 && cc <= |ts|
    requires forall q :: p <= q <= NumProto ==> !Verdict(ts, percent, q, cc).Match?
    ensures SamePublished(o, TryFrom(ts, percent, o, p, cc))
    decreases NumProto + 1 - p
  {
    if p <= NumProto {
      var (o', ok) := ReceiveSpec(ts, percent, o, p, cc);
      TryFromNonePublishes(ts, percent, o', p + 1, cc);
    }
  }

  // ---------------------------------------------------------------------
  // Properties of handleInterrupt

  /** With the receiver disabled an interrupt changes nothing. */
  lemma InterruptWhenDisabled(s: RxState, time: u32)
    requires |s.timings| == MaxChanges && s.changeCount <= MaxChanges && !s.enabled
    ensures InterruptSpec(s, time) == s
  {
  }

  /**
   * Every enabled interrupt keeps the invariant, records the duration since
   * the previous edge at the end of the run, and remembers the time.
   */
  lemma InterruptKeepsValid(s: RxState, time: u32)
    requires RxValid(s)
    ensures RxValid(InterruptSpec(s, time))
    ensures var t := InterruptSpec(s, time);
      s.enabled ==> 1 <= t.changeCount && t.timings[t.changeCount - 1] == U32(time - s.lastTime) && t.lastTime == time
  {
    TryFromKeepsValid(s.timings, s.tolerance, s.out, 1, s.changeCount);
  }

  lemma AfterGapKeepsValid(s: RxState, duration: u32)
    requires RxValid(s)
    ensures RxValid(AfterGap(s, duration))
  {
    TryFromKeepsValid(s.timings, s.tolerance, s.out, 1, s.changeCount);
  }

  /** A short duration in a run that still has room is appended and nothing else changes. */
  lemma InterruptAppends(s: RxState, time: u32)
    requires RxValid(s) && s.enabled && U32(time - s.lastTime) <= SeparationLimit && s.changeCount < MaxChanges
    ensures InterruptSpec(s, time)
         == s.(timings := s.timings[s.changeCount := U32(time - s.lastTime)], changeCount := s.changeCount + 1, lastTime := time)
  {
    assert InterruptSpec(s, time) == Record(s, U32(time - s.lastTime), time);
  }

  /** A short duration arriving with the buffer full discards the run and starts a new one. */
  lemma InterruptOverflowDiscards(s: RxState, time: u32)
    requires RxValid(s) && s.enabled && U32(time - s.lastTime) <= SeparationLimit && s.changeCount == MaxChanges
    ensures var t := InterruptSpec(s, time);
      t.changeCount == 1 && t.repeatCount == 0 && t.timings[0] == U32(time - s.lastTime) && t.out == s.out
  {
  }

  /** A gap always starts a new run with the gap itself as its first duration. */
  lemma InterruptGapRestarts(s: RxState, time: u32)
    requires RxValid(s) && s.enabled && U32(time - s.lastTime) > SeparationLimit
    ensures var t := InterruptSpec(s, time);
      t.changeCount == 1 && t.timings[0] == U32(time - s.lastTime) && t.lastTime == time
  {
  }

  /** A gap unlike the one that opened the buffered run is not counted as a repetition. */
  lemma InterruptUnlikeGap(s: RxState, time: u32)
    requires RxValid(s) && s.enabled && U32(time - s.lastTime) > SeparationLimit
    requires Diff(Int32(U32(time - s.lastTime)), Int32(s.timings[0])) >= GapSimilarity
    ensures var t := InterruptSpec(s, time);
      t.out == s.out && t.repeatCount == s.repeatCount
  {
  }

  /** The first similar gap in a row is counted; nothing is decoded yet. */
  lemma InterruptFirstSimilarGap(s: RxState, time: u32)
    requires RxValid(s) && s.enabled && U32(time - s.lastTime) > SeparationLimit
    requires Diff(Int32(U32(time - s.lastTime)), Int32(s.timings[0])) < GapSimilarity && s.repeatCount == 0
    ensures var t := InterruptSpec(s, time);
      t.out == s.out && t.repeatCount == 1
  {
  }

  /**
   * The second similar gap in a row decodes the buffered run with the
   * protocols in order, up to the first that publishes, and resets the count.
   */
  lemma InterruptSecondSimilarGap(s: RxState, time: u32)
    requires RxValid(s) && s.enabled && U32(time - s.lastTime) > SeparationLimit
    requires Diff(Int32(U32(time - s.lastTime)), Int32(s.timings[0])) < GapSimilarity && s.repeatCount == 1
    ensures var t := InterruptSpec(s, time);
      t.repeatCount == 0 && t.out == TryFrom(s.timings, s.tolerance, s.out, 1, s.changeCount)
  {
    var d := U32(time - s.lastTime);
    var a := AfterGap(s, d);
    assert a.out == TryFrom(s.timings, s.tolerance, s.out, 1, s.changeCount) && a.repeatCount == 0;
    assert InterruptSpec(s, time) == Record(a, d, time);
  }

  lemma {:induction false} FeedStep(s: RxState, ds: seq<int>)
    requires RxValid(s) && ds != []
    ensures Feed(s, ds) == Feed(Edge(s, ds[0]), ds[1..])
  {
  }

  /** A short edge with room in the buffer appends its duration. */
  lemma EdgeAppends(s: RxState, d: int)
    requires RxValid(s) && s.enabled && 0 <= d <= SeparationLimit && s.changeCount < MaxChanges
    ensures Edge(s, d) == s.(timings := s.timings[s.changeCount := d], changeCount := s.changeCount + 1, lastTime := U32(s.lastTime + d))
  {
    ElapsedAcrossWrap(s.lastTime, d);
    InterruptAppends(s, U32(s.lastTime + d));
  }

  /** A gap starts the buffer over with the gap's duration. */
  lemma EdgeAfterGap(s: RxState, d: int)
    requires RxValid(s) && s.enabled && SeparationLimit < d < TwoTo32
    ensures Edge(s, d).changeCount == 1 && Edge(s, d).timings[0] == d
  {
    ElapsedAcrossWrap(s.lastTime, d);
    InterruptGapRestarts(s, U32(s.lastTime + d));
  }

  /** Short durations with room in the buffer are appended in order, and nothing published changes. */
  lemma {:induction false} FeedAppends(s: RxState, ds: seq<int>)
    requires RxValid(s) && s.enabled && s.changeCount + |ds| <= MaxChanges
    requires forall k :: 0 <= k < |ds| ==> 0 <= ds[k] <= SeparationLimit
    ensures var t := Feed(s, ds);
      t.changeCount == s.changeCount + |ds| && t.timings[..t.changeCount] == s.timings[..s.changeCount] + ds
      && t.out == s.out && t.repeatCount == s.repeatCount
    decreases |ds|
  {
    if ds == [] {
      assert s.timings[..s.changeCount] + ds == s.timings[..s.changeCount];
    } else {
      FeedStep(s, ds);
      EdgeAppends(s, ds[0]);
      var s1 := Edge(s, ds[0]);
      FeedAppends(s1, ds[1..]);
      StoreThenSlice(s.timings, s.changeCount, ds);
    }
  }

  lemma StoreThenSlice(ts: seq<u32>, cc: nat, ds: seq<int>)
    requires cc < |ts| && ds != [] && 0 <= ds[0] < TwoTo32
    ensures ts[cc := ds[0]][..cc + 1] + ds[1..] == ts[..cc] + ds
  {
    assert ts[cc := ds[0]][..cc + 1] == ts[..cc] + [ds[0]];
    assert ds == [ds[0]] + ds[1..];
  }

  /**
   * From any state, a gap followed by durations no longer than the
   * separation limit, 67 durations at most in all, leaves exactly those
   * durations, gap first, as the buffered run.
   */
  lemma {:induction false} FeedRecordsRun(s: RxState, run: seq<int>)
    requires RxValid(s) && s.enabled && 1 <= |run| <= MaxChanges
    requires SeparationLimit < run[0] < TwoTo32
    requires forall k :: 1 <= k < |run| ==> 0 <= run[k] <= SeparationLimit
    ensures var t := Feed(s, run);
      RxValid(t) && t.enabled && t.changeCount == |run| && t.timings[..|run|] == run
  {
    FeedStep(s, run);
    EdgeAfterGap(s, run[0]);
    var s1 := Edge(s, run[0]);
    FeedAppends(s1, run[1..]);
    FirstOfRun(s1.timings, run);
  }

  lemma FirstOfRun(ts: seq<u32>, run: seq<int>)
    requires 1 <= |ts| && 1 <= |run| && ts[0] == run[0]
    ensures ts[..1] + run[1..] == run
  {
    assert ts[..1] == [run[0]];
  }

  // The steps of `receiveProtocol`, each against the decoder's functions

  /** One iteration of the pair loop that reads a bit. */
  lemma ScanStep(pro: Protocol, ts: seq<u32>, i: nat, cc: nat, delay: u32, tol: u32, full: Scan, bits: seq<char>, c: char)
    requires i + 1 < cc <= |ts|
    requires full == Scan(bits + ScanPairs(pro, ts, i, cc, delay, tol).bits, ScanPairs(pro, ts, i, cc, delay, tol).complete)
    requires (c == '0' && PairMatches(ts[i], ts[i + 1], pro.zero, delay, tol))
          || (c == '1' && !PairMatches(ts[i], ts[i + 1], pro.zero, delay, tol) && PairMatches(ts[i], ts[i + 1], pro.one, delay, tol))
    ensures full == Scan((bits + [c]) + ScanPairs(pro, ts, i + 2, cc, delay, tol).bits, ScanPairs(pro, ts, i + 2, cc, delay, tol).complete)
  {
    var rest := ScanPairs(pro, ts, i + 2, cc, delay, tol);
    assert ScanPairs(pro, ts, i, cc, delay, tol) == Prepend(c, rest);
    assert (bits + [c]) + rest.bits == bits + ([c] + rest.bits);
  }

  /** The pair loop stops without a value at a pair that matches neither pattern. */
  lemma ScanStops(pro: Protocol, ts: seq<u32>, i: nat, cc: nat, delay: u32, tol: u32, full: Scan, bits: seq<char>)
    requires i + 1 < cc <= |ts|
    requires full == Scan(bits + ScanPairs(pro, ts, i, cc, delay, tol).bits, ScanPairs(pro, ts, i, cc, delay, tol).complete)
    requires !PairMatches(ts[i], ts[i + 1], pro.zero, delay, tol) && !PairMatches(ts[i], ts[i + 1], pro.one, delay, tol)
    ensures full == Scan(bits, false)
  {
    assert bits + [] == bits;
  }

  /** The pair loop ends with every pair read. */
  lemma ScanEnds(pro: Protocol, ts: seq<u32>, i: nat, cc: nat, delay: u32, tol: u32, full: Scan, bits: seq<char>)
    requires i <= cc <= |ts| && i + 1 >= cc
    requires full == Scan(bits + ScanPairs(pro, ts, i, cc, delay, tol).bits, ScanPairs(pro, ts, i, cc, delay, tol).complete)
    ensures full == Scan(bits, true)
  {
    assert bits + [] == bits;
  }

  /** Where the decode of a long enough run goes once the start sync is settled. */
  lemma DecodeByScan(ts: seq<u32>, percent: int, p: nat, cc: nat, delay: u32, tol: u32, first: nat)
    requires 1 <= p <= NumProto && 8 <= cc <= |ts|
    requires delay == UnitDelay(ProtocolNo(p), ts[0]) && tol == DelayTolerance(delay, percent)
    requires first == DataStart(ProtocolNo(p))
    requires HasStartSync(ProtocolNo(p)) ==> StartSyncMatches(ProtocolNo(p), ts, FirstDataTiming(ProtocolNo(p)), delay, tol)
    ensures var full := ScanPairs(ProtocolNo(p), ts, first, cc, delay, tol);
      Verdict(ts, percent, p, cc) == if full.complete then Match(full.bits, U32(BitsValue(full.bits)), delay) else PairMismatch(full.bits)
  {
  }

  /** The decode stops at a start sync that does not match. */
  lemma DecodeBySync(ts: seq<u32>, percent: int, o: Output, p: nat, cc: nat, delay: u32, tol: u32)
    requires 1 <= p <= NumProto && 8 <= cc <= |ts|
    requires delay == UnitDelay(ProtocolNo(p), ts[0]) && tol == DelayTolerance(delay, percent)
    requires HasStartSync(ProtocolNo(p)) && !StartSyncMatches(ProtocolNo(p), ts, FirstDataTiming(ProtocolNo(p)), delay, tol)
    ensures ReceiveSpec(ts, percent, o, p, cc) == (o, false)
  {
  }

  // ---------------------------------------------------------------------
  // The receiver object

  class ReceiverState {
    /** EnableReceiver: whether the interrupt handler does anything. */
    var enabled: bool
    /** nReceiveTolerance, in percent. */
    var receiveTolerance: int
    /** timings: the durations of the current run; `getReceivedRawdata` returns it. */
    const timings: array<u32>
    /** The handler's function-static counters. */
    var changeCount: nat
    var repeatCount: nat
    var lastTime: u32
    /** nReceiveBinString / nLastReceiveBinString, as the C strings they hold. */
    var receiveBinString: seq<char>
    var lastReceiveBinString: seq<char>
    /** What `available()` and the getters report. */
    var receivedValue: u32
    var receivedBitlength: nat
    var receivedDelay: u32
    var receivedProtocol: nat

    /** The decoder's output fields as a value. */
    function Out(): Output
      reads this
    {
      Output(receiveBinString, lastReceiveBinString, receivedValue, receivedBitlength, receivedDelay, receivedProtocol)
    }

    function Snapshot(): RxState
      reads this, timings
    {
      RxState(enabled, receiveTolerance, timings[..], changeCount, repeatCount, lastTime, Out())
    }

    predicate Valid()
      reads this, timings
    {
      timings.Length == MaxChanges && RxValid(Snapshot())
    }

    /** The static initialisers together with what the RCSwitch constructor sets. */
    constructor ()
      ensures Valid() && fresh(timings)
      ensures Snapshot() == RxState(false, 60, seq(MaxChanges, _ => 0), 0, 0, 0, Output([], [], 0, 0, 0, 0))
    {
      enabled := false;
      receiveTolerance := 60;
      timings := new u32[MaxChanges](_ => 0);
      changeCount, repeatCount, lastTime := 0, 0, 0;
      receiveBinString, lastReceiveBinString := [], [];
      receivedValue, receivedBitlength, receivedDelay, receivedProtocol := 0, 0, 0, 0;
    }

    /** `available()`: a value has been published and not yet reset. */
    function Available(): bool
      reads this
    {
      receivedValue != 0
    }

    method ResetAvailable()
      modifies this`receivedValue
      ensures Out() == old(Out()).(value := 0)
    {
      receivedValue := 0;
    }

    method SetReceiveTolerance(percent: int)
      modifies this`receiveTolerance
      ensures receiveTolerance == percent
    {
      receiveTolerance := percent;
    }

    /** `receiveProtocol(p, changeCount)`. */
    method ReceiveProtocol(p: nat, changeCount: nat) returns (ok: bool)
      requires timings.Length == MaxChanges && 1 <= p <= NumProto && changeCount <= MaxChanges
      modifies this`receiveBinString, this`lastReceiveBinString, this`receivedValue
      modifies this`receivedBitlength, this`receivedDelay, this`receivedProtocol
      ensures (Out(), ok) == ReceiveSpec(timings[..], receiveTolerance, old(Out()), p, changeCount)
    {
      ghost var ts, o := timings[..], Out();
      if changeCount < 8 {
        return false;
      }
      var pro := ProtocolNo(p);
      var syncLengthInPulses := if pro.stopSyncFactor.low > pro.stopSyncFactor.high then pro.stopSyncFactor.low else pro.stopSyncFactor.high;
      var delay := timings[0] / syncLengthInPulses;
      var delayTolerance := DelayTolerance(delay, receiveTolerance);
      var firstDataTiming := if pro.invertedSignal then 2 else 1;
      if pro.startSyncFactor.high != 0 && pro.startSyncFactor.low != 0 {
        if Deviation(timings[firstDataTiming], delay, pro.startSyncFactor.high) > delayTolerance
           || Deviation(timings[firstDataTiming + 1], delay, pro.startSyncFactor.low) > delayTolerance {
          DecodeBySync(ts, receiveTolerance, o, p, changeCount, delay, delayTolerance);
          return false;
        }
        firstDataTiming := firstDataTiming + 2;
      }
      DecodeByScan(ts, receiveTolerance, p, changeCount, delay, delayTolerance, firstDataTiming);
      var code, bits, failed := ScanRun(pro, changeCount, delay, delayTolerance, firstDataTiming);
      receiveBinString := bits;
      if failed {
        return false;
      }
      if lastReceiveBinString != receiveBinString {
        lastReceiveBinString := receiveBinString;
        return false;
      }
      receivedValue := code;
      receivedBitlength := (changeCount - 1) / 2;
      receivedDelay := delay;
      receivedProtocol := p;
      return true;
    }

    /**
     * The pair loop of `receiveProtocol`: the bits it writes to
     * nReceiveBinString, the `code` they build, and whether it stopped at a
     * pair that matches neither pattern.
     */
    method ScanRun(pro: Protocol, changeCount: nat, delay: u32, delayTolerance: u32, firstDataTiming: nat)
      returns (code: u32, bits: seq<char>, failed: bool)
      requires firstDataTiming <= changeCount <= timings.Length
      ensures ScanPairs(pro, timings[..], firstDataTiming, changeCount, delay, delayTolerance) == Scan(bits, !failed)
      ensures code == U32(BitsValue(bits))
    {
      ghost var ts := timings[..];
      ghost var full := ScanPairs(pro, ts, firstDataTiming, changeCount, delay, delayTolerance);
      assert full == Scan([] + full.bits, full.complete);
      code, bits, failed := 0, [], false;
      var i := firstDataTiming;
      while i + 1 < changeCount
        invariant firstDataTiming <= i <= changeCount
        invariant code == U32(BitsValue(bits))
        invariant full == Scan(bits + ScanPairs(pro, ts, i, changeCount, delay, delayTolerance).bits,
                               ScanPairs(pro, ts, i, changeCount, delay, delayTolerance).complete)
        decreases changeCount - i
      {
        var c: char;
        if PairMatches(timings[i], timings[i + 1], pro.zero, delay, delayTolerance) {
          c := '0';
        } else if PairMatches(timings[i], timings[i + 1], pro.one, delay, delayTolerance) {
          c := '1';
        } else {
          ScanStops(pro, ts, i, changeCount, delay, delayTolerance, full, bits);
          return code, bits, true;
        }
        // `code <<= 1`, then `code |= 1` for a one: the shift leaves bit 0 clear
        ShiftInBit(bits, c);
        ScanStep(pro, ts, i, changeCount, delay, delayTolerance, full, bits, c);
        code := U32(code * 2 + Digit(c));
        bits := bits + [c];
        i := i + 2;
      }
      ScanEnds(pro, ts, i, changeCount, delay, delayTolerance, full, bits);
    }

    /**
     * The protocol loop of `handleInterrupt`: `receiveProtocol` with
     * protocols 1, 2, ... until one publishes.
     */
    method TryProtocols(changeCount: nat)
      requires timings.Length == MaxChanges && changeCount <= MaxChanges
      modifies this`receiveBinString, this`lastReceiveBinString, this`receivedValue
      modifies this`receivedBitlength, this`receivedDelay, this`receivedProtocol
      ensures Out() == TryFrom(timings[..], receiveTolerance, old(Out()), 1, changeCount)
    {
      ghost var ts, percent, o := timings[..], receiveTolerance, Out();
      var p := 1;
      while p <= NumProto
        invariant 1 <= p <= NumProto + 1 && ts == timings[..] && percent == receiveTolerance
        invariant TryFrom(ts, percent, Out(), p, changeCount) == TryFrom(ts, percent, o, 1, changeCount)
        decreases NumProto + 1 - p
      {
        var ok := ReceiveProtocol(p, changeCount);
        if ok {
          break;
        }
        p := p + 1;
      }
    }

    /** The gap branch of `handleInterrupt`: count a similar gap, decode on the second, start the run over. */
    method HandleGap(duration: u32)
      requires Valid()
      modifies this`repeatCount, this`changeCount
      modifies this`receiveBinString, this`lastReceiveBinString, this`receivedValue
      modifies this`receivedBitlength, this`receivedDelay, this`receivedProtocol
      ensures Valid()
      ensures Snapshot() == AfterGap(old(Snapshot()), duration)
    {
      ghost var s := Snapshot();
      AfterGapKeepsValid(s, duration);
      if Diff(Int32(duration), Int32(timings[0])) < GapSimilarity {
        repeatCount := repeatCount + 1;
        if repeatCount == 2 {
          TryProtocols(changeCount);
          repeatCount := 0;
        }
      }
      changeCount := 0;
    }

    /** `handleInterrupt()`, with `micros()` passed in as `time`. */
    method HandleInterrupt(time: u32)
      requires Valid()
      modifies this, timings
      ensures Valid()
      ensures Snapshot() == InterruptSpec(old(Snapshot()), time)
    {
      ghost var s := Snapshot();
      InterruptKeepsValid(s, time);
      if !enabled {
        return;
      }
      var duration := U32(time - lastTime);
      if duration > SeparationLimit {
        HandleGap(duration);
      }
      assert Snapshot() == if duration > SeparationLimit then AfterGap(s, duration) else s;
      if changeCount >= MaxChanges {
        changeCount := 0;
        repeatCount := 0;
      }
      timings[changeCount] := duration;
      changeCount := changeCount + 1;
      lastTime := time;
    }
  }
}
