/**
 * What the transmitter puts on its pin, as a trace of pulses: each
 * `digitalWrite` of a level followed by `delayMicroseconds` becomes one
 * pulse of that level and duration.
 */
module Pulses {
  import opened Protocols
  import opened TriState
  import opened CStrings

  datatype Level = High | Low

  /** The pin held at `level` for `micros` microseconds. */
  datatype Pulse = Pulse(level: Level, micros: int)

  function Opposite(l: Level): Level {
    if l == High then Low else High
  }

  /** The level of the first half of every pair: `HIGH`, or `LOW` for an inverted protocol. */
  function FirstLevel(pro: Protocol): Level {
    if pro.invertedSignal then Low else High
  }

  /**
   * `transmit(pulses)`: the first half at the first level, then the second
   * half at the other level, each `pulseLength * factor` long; a half with
   * factor 0 is not sent.
   */
  function PulsePair(pro: Protocol, hl: HighLow): seq<Pulse> {
    (if hl.high > 0 then [Pulse(FirstLevel(pro), pro.pulseLength * hl.high)] else [])
    + (if hl.low > 0 then [Pulse(Opposite(FirstLevel(pro)), pro.pulseLength * hl.low)] else [])
  }

  /** The pulses of one character of the word: '0' and '1' send their pattern, anything else nothing. */
  function SymbolPulses(pro: Protocol, c: char): seq<Pulse> {
    if c == '0' then PulsePair(pro, pro.zero)
    else if c == '1' then PulsePair(pro, pro.one)
    else []
  }

  /** The data pulses of a word, character by character. */
  function WordPulses(pro: Protocol, w: seq<char>): seq<Pulse> {
    if w == [] then [] else WordPulses(pro, w[..|w| - 1]) + SymbolPulses(pro, w[|w| - 1])
  }

  /** One repetition of a transmission: start sync, the word, stop sync. */
  function RepetitionPulses(pro: Protocol, w: seq<char>): seq<Pulse> {
    PulsePair(pro, pro.startSyncFactor) + WordPulses(pro, w) + PulsePair(pro, pro.stopSyncFactor)
  }

  /** `n` copies of `s`, one after the other. */
  function Repeated(s: seq<Pulse>, n: nat): (r: seq<Pulse>)
    ensures |r| == n * |s|
  {
    if n == 0 then [] else Repeated(s, n - 1) + s
  }

  /** The whole trace of `send(word)`: `nRepeatTransmit` repetitions, none when it is not positive. */
  function SendPulses(pro: Protocol, w: seq<char>, repeat: int): seq<Pulse> {
    Repeated(RepetitionPulses(pro, w), if repeat > 0 then repeat else 0)
  }

  lemma {:induction false} WordPulsesConcat(pro: Protocol, a: seq<char>, b: seq<char>)
    ensures WordPulses(pro, a + b) == WordPulses(pro, a) + WordPulses(pro, b)
    decreases |b|
  {
    if b == [] {
      assert a + b == a;
    } else {
      var b', c := b[..|b| - 1], b[|b| - 1];
      assert (a + b)[..|a + b| - 1] == a + b' && (a + b)[|a + b| - 1] == c;
      WordPulsesConcat(pro, a, b');
    }
  }

  /** The first symbol's pulses come first. */
  lemma WordPulsesCons(pro: Protocol, w: seq<char>)
    requires w != []
    ensures WordPulses(pro, w) == SymbolPulses(pro, w[0]) + WordPulses(pro, w[1..])
  {
    var c, rest := w[0], w[1..];
    assert w == [c] + rest;
    WordPulsesConcat(pro, [c], rest);
    assert WordPulses(pro, [c]) == SymbolPulses(pro, c) by {
      assert [c][..0] == [];
    }
  }

  /** Characters other than '0' and '1' send nothing at all. */
  lemma {:induction false} NoDataPulses(pro: Protocol, w: seq<char>)
    requires forall k :: 0 <= k < |w| ==> w[k] != '0' && w[k] != '1'
    ensures WordPulses(pro, w) == []
  {
    if w != [] {
      NoDataPulses(pro, w[..|w| - 1]);
    }
  }

  // ---------------------------------------------------------------------
  // The trace as the receiver sees it

  /** How long the pin stays at each level: the pulse durations. */
  function Durations(ps: seq<Pulse>): (r: seq<int>)
    ensures |r| == |ps|
  {
    seq(|ps|, k requires 0 <= k < |ps| => ps[k].micros)
  }

  /** Two repetitions last what one lasts, twice over. */
  lemma TwoRepetitions(pro: Protocol, w: seq<char>)
    ensures var d := Durations(RepetitionPulses(pro, w));
      Durations(SendPulses(pro, w, 2)) == d + d
  {
    var rep := RepetitionPulses(pro, w);
    assert Repeated(rep, 1) == Repeated(rep, 0) + rep;
    assert Repeated(rep, 0) + rep == rep;
    assert SendPulses(pro, w, 2) == rep + rep;
  }

  /** Every pulse changes the level, so every pulse ends with an edge the receiver times. */
  predicate Alternates(ps: seq<Pulse>) {
    forall k :: 0 < k < |ps| ==> ps[k].level != ps[k - 1].level
  }

  /** A trace of pairs: alternating, starting at the first level and ending at the other. */
  predicate PairTrace(pro: Protocol, ps: seq<Pulse>) {
    Alternates(ps) && |ps| % 2 == 0
    && (ps != [] ==> ps[0].level == FirstLevel(pro) && ps[|ps| - 1].level == Opposite(FirstLevel(pro)))
  }

  lemma PairTraceConcat(pro: Protocol, a: seq<Pulse>, b: seq<Pulse>)
    requires PairTrace(pro, a) && PairTrace(pro, b)
    ensures PairTrace(pro, a + b)
  {
    if a != [] && b != [] {
      forall k | 0 < k < |a + b| ensures (a + b)[k].level != (a + b)[k - 1].level {
        if k < |a| {
          assert (a + b)[k] == a[k] && (a + b)[k - 1] == a[k - 1];
        } else if k == |a| {
          assert (a + b)[k] == b[0] && (a + b)[k - 1] == a[|a| - 1];
        } else {
          assert (a + b)[k] == b[k - |a|] && (a + b)[k - 1] == b[k - 1 - |a|];
        }
      }
    }
    if a == [] {
      assert a + b == b;
    } else if b == [] {
      assert a + b == a;
    }
  }

  /** A pair with both halves nonzero is two pulses of opposite levels. */
  lemma FullPair(pro: Protocol, hl: HighLow)
    requires hl.high > 0 && hl.low > 0
    ensures PairTrace(pro, PulsePair(pro, hl))
    ensures Durations(PulsePair(pro, hl)) == [pro.pulseLength * hl.high, pro.pulseLength * hl.low]
  {
  }

  lemma {:induction false} WordPairTrace(pro: Protocol, w: seq<char>)
    requires WellFormed(pro) && IsBinary(w)
    ensures PairTrace(pro, WordPulses(pro, w)) && |WordPulses(pro, w)| == 2 * |w|
  {
    if w != [] {
      var c := w[|w| - 1];
      WordPairTrace(pro, w[..|w| - 1]);
      FullPair(pro, if c == '0' then pro.zero else pro.one);
      PairTraceConcat(pro, WordPulses(pro, w[..|w| - 1]), SymbolPulses(pro, c));
    }
  }

  lemma RepetitionPairTrace(pro: Protocol, w: seq<char>)
    requires WellFormed(pro) && IsBinary(w)
    ensures PairTrace(pro, RepetitionPulses(pro, w))
  {
    var start := PulsePair(pro, pro.startSyncFactor);
    assert PairTrace(pro, start) by {
      if HasStartSync(pro) {
        FullPair(pro, pro.startSyncFactor);
      }
    }
    WordPairTrace(pro, w);
    FullPair(pro, pro.stopSyncFactor);
    PairTraceConcat(pro, start, WordPulses(pro, w));
    PairTraceConcat(pro, start + WordPulses(pro, w), PulsePair(pro, pro.stopSyncFactor));
  }

  /**
   * With a well-formed protocol and a word of '0'/'1', every pulse of a
   * transmission, across repetitions too, switches the level: the
   * receiver's interrupt sees one edge per pulse.
   */
  lemma {:induction false} SendAlternates(pro: Protocol, w: seq<char>, n: nat)
    requires WellFormed(pro) && IsBinary(w)
    ensures PairTrace(pro, Repeated(RepetitionPulses(pro, w), n))
  {
    if n > 0 {
      SendAlternates(pro, w, n - 1);
      RepetitionPairTrace(pro, w);
      PairTraceConcat(pro, Repeated(RepetitionPulses(pro, w), n - 1), RepetitionPulses(pro, w));
    }
  }
}
