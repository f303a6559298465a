/**
 * The RCSwitch object: the transmit configuration, `send` in its three
 * forms, and the receiver switches `enableReceive` / `disableReceive`.
 * The pin is the trace `output`; the receiver's shared state is the
 * `ReceiverState` object `rx`.
 */
module Transmitter {
  import opened Width
  import opened Protocols
  import opened TriState
  import opened Pulses
  import opened CStrings
  import opened Receiver

  class RCSwitch {
    var nTransmitterPin: int
    var nRepeatTransmit: int
    var protocol: Protocol
    var nReceiverInterrupt: int
    /** Everything written to the transmitter pin so far. */
    var output: seq<Pulse>
    /** The receiver state, which the source keeps in static members shared by all objects. */
    const rx: ReceiverState

    /** `RCSwitch()`: no pins, 10 repetitions, protocol 1; clears the published value and the bit string. */
    constructor (shared: ReceiverState)
      modifies shared`receiveTolerance, shared`receivedValue, shared`receiveBinString
      ensures rx == shared && output == []
      ensures nTransmitterPin == -1 && nRepeatTransmit == 10 && protocol == Catalog[0] && nReceiverInterrupt == -1
      ensures shared.receiveTolerance == 60 && shared.receivedValue == 0 && shared.receiveBinString == []
    {
      rx := shared;
      nTransmitterPin := -1;
      nRepeatTransmit := 10;
      protocol := Catalog[0];
      nReceiverInterrupt := -1;
      output := [];
      new;
      shared.receiveTolerance := 60;
      shared.receivedValue := 0;
      shared.receiveBinString := [];
    }

    /** `setProtocol(Protocol)`. */
    method SetProtocol(pro: Protocol)
      modifies this`protocol
      ensures protocol == pro
    {
      protocol := pro;
    }

    /** `setProtocol(int)`: a number outside 1..numProto selects protocol 1. */
    method SetProtocolNumber(n: int)
      modifies this`protocol
      ensures protocol == if 1 <= n <= NumProto then Catalog[n - 1] else Catalog[0]
    {
      var p := n;
      if p < 1 || p > NumProto {
        p := 1;
      }
      protocol := Catalog[p - 1];
    }

    /** `setProtocol(int, int)`. */
    method SetProtocolWithPulseLength(n: int, pulseLength: int)
      modifies this`protocol
      ensures protocol == (if 1 <= n <= NumProto then Catalog[n - 1] else Catalog[0]).(pulseLength := pulseLength)
    {
      SetProtocolNumber(n);
      SetPulseLength(pulseLength);
    }

    /** `setPulseLength`: only the pulse length changes. */
    method SetPulseLength(pulseLength: int)
      modifies this`protocol
      ensures protocol == old(protocol).(pulseLength := pulseLength)
    {
      protocol := protocol.(pulseLength := pulseLength);
    }

    method SetRepeatTransmit(n: int)
      modifies this`nRepeatTransmit
      ensures nRepeatTransmit == n
    {
      nRepeatTransmit := n;
    }

    /** `enableTransmit`: remember the pin (`pinMode` is not modelled). */
    method EnableTransmit(pin: int)
      modifies this`nTransmitterPin
      ensures nTransmitterPin == pin
    {
      nTransmitterPin := pin;
    }

    method DisableTransmit()
      modifies this`nTransmitterPin
      ensures nTransmitterPin == -1
    {
      nTransmitterPin := -1;
    }

    /** `transmit(pulses)`: one high-low pair on the pin. */
    method Transmit(pulses: HighLow)
      modifies this`output
      ensures output == old(output) + PulsePair(protocol, pulses)
    {
      var firstLogicLevel := if protocol.invertedSignal then Low else High;
      var secondLogicLevel := if protocol.invertedSignal then High else Low;
      if pulses.high > 0 {
        output := output + [Pulse(firstLogicLevel, protocol.pulseLength * pulses.high)];
      }
      if pulses.low > 0 {
        output := output + [Pulse(secondLogicLevel, protocol.pulseLength * pulses.low)];
      }
    }

    /** `enableReceive(interrupt)`. */
    method EnableReceiveOn(interrupt: int)
      modifies this`nReceiverInterrupt, rx`enabled, rx`receivedValue, rx`receivedBitlength
      ensures nReceiverInterrupt == interrupt && rx.enabled
      ensures interrupt != -1 ==> rx.receivedValue == 0 && rx.receivedBitlength == 0
      ensures interrupt == -1 ==> rx.receivedValue == old(rx.receivedValue) && rx.receivedBitlength == old(rx.receivedBitlength)
    {
      nReceiverInterrupt := interrupt;
      EnableReceive();
    }

    /**
     * `enableReceive()`: with an interrupt set, clear the published value
     * and bit length (attaching the handler is not modelled); then let the
     * handler run.
     */
    method EnableReceive()
      modifies rx`enabled, rx`receivedValue, rx`receivedBitlength
      ensures rx.enabled
      ensures nReceiverInterrupt != -1 ==> rx.receivedValue == 0 && rx.receivedBitlength == 0
      ensures nReceiverInterrupt == -1 ==> rx.receivedValue == old(rx.receivedValue) && rx.receivedBitlength == old(rx.receivedBitlength)
    {
      if nReceiverInterrupt != -1 {
        rx.receivedValue := 0;
        rx.receivedBitlength := 0;
      }
      rx.enabled := true;
    }

    /** `disableReceive()`: forget the interrupt and stop the handler. */
    method DisableReceive()
      modifies this`nReceiverInterrupt, rx`enabled
      ensures nReceiverInterrupt == -1 && !rx.enabled
    {
      nReceiverInterrupt := -1;
      rx.enabled := false;
    }

    /**
     * `send(const char* word)`: nothing without a transmitter pin; otherwise
     * the receiver is switched off, `nRepeatTransmit` repetitions of start
     * sync, the C string's '0'/'1' characters and stop sync go out, and the
     * receiver is switched back on with its interrupt.
     */
    method Send(word: seq<char>)
      modifies this`output, this`nReceiverInterrupt, rx`enabled, rx`receivedValue, rx`receivedBitlength
      ensures nTransmitterPin == -1 ==> output == old(output)
      ensures nTransmitterPin != -1 ==> output == old(output) + SendPulses(protocol, CString(word), nRepeatTransmit)
      ensures nReceiverInterrupt == old(nReceiverInterrupt)
      ensures nTransmitterPin != -1 && nReceiverInterrupt != -1 ==>
        rx.enabled && rx.receivedValue == 0 && rx.receivedBitlength == 0
      ensures nTransmitterPin == -1 || nReceiverInterrupt == -1 ==>
        rx.enabled == old(rx.enabled) && rx.receivedValue == old(rx.receivedValue) && rx.receivedBitlength == old(rx.receivedBitlength)
    {
      if nTransmitterPin == -1 {
        return;
      }
      var backup := nReceiverInterrupt;
      if backup != -1 {
        DisableReceive();
      }
      TransmitRepeated(word);
      if backup != -1 {
        EnableReceiveOn(backup);
      }
    }

    /** The repeat loop of `send`. */
    method TransmitRepeated(word: seq<char>)
      modifies this`output
      ensures output == old(output) + SendPulses(protocol, CString(word), nRepeatTransmit)
    {
      ghost var rep := RepetitionPulses(protocol, CString(word));
      ghost var before := output;
      var nRepeat := 0;
      while nRepeat < nRepeatTransmit
        invariant 0 <= nRepeat && (nRepeat <= nRepeatTransmit || nRepeat == 0)
        invariant output == before + Repeated(rep, nRepeat)
      {
        TransmitWord(word);
        AppendAssoc(before, Repeated(rep, nRepeat), rep);
        nRepeat := nRepeat + 1;
      }
    }

    /** The body of the repeat loop of `send`: one repetition. */
    method TransmitWord(word: seq<char>)
      modifies this`output
      ensures output == old(output) + RepetitionPulses(protocol, CString(word))
    {
      ghost var o := output;
      Transmit(protocol.startSyncFactor);
      ghost var o1 := output;
      TransmitData(word);
      ghost var o2 := output;
      Transmit(protocol.stopSyncFactor);
      AppendAssoc(o, PulsePair(protocol, protocol.startSyncFactor), WordPulses(protocol, CString(word)));
      AppendAssoc(o, PulsePair(protocol, protocol.startSyncFactor) + WordPulses(protocol, CString(word)), PulsePair(protocol, protocol.stopSyncFactor));
    }

    /** The character loop of `send`: up to the terminating NUL, '0' and '1' send their pattern. */
    method TransmitData(word: seq<char>)
      modifies this`output
      ensures output == old(output) + WordPulses(protocol, CString(word))
    {
      ghost var pro, start := protocol, output;
      var i := 0;
      while i < |word| && word[i] != NUL
        invariant i <= |word| && NUL !in word[..i] && pro == protocol
        invariant output == start + WordPulses(pro, word[..i])
      {
        WordPulsesStep(pro, word, i);
        ghost var prev := output;
        if word[i] == '0' {
          Transmit(protocol.zero);
        }
        if word[i] == '1' {
          Transmit(protocol.one);
        }
        assert output == prev + SymbolPulses(pro, word[i]);
        AppendAssoc(start, WordPulses(pro, word[..i]), SymbolPulses(pro, word[i]));
        i := i + 1;
      }
      CStringAt(word, i);
    }

    /**
     * `send(code, length)` with the buffer holding the characters '0' and
     * '1': bit `length-1` of `code` first, down to bit 0.
     */
    method SendCode(code: u32, length: u32)
      requires length <= 32
      modifies this`output, this`nReceiverInterrupt, rx`enabled, rx`receivedValue, rx`receivedBitlength
      ensures nTransmitterPin == -1 ==> output == old(output)
      ensures nTransmitterPin != -1 ==> output == old(output) + SendPulses(protocol, Bits(code, length), nRepeatTransmit)
      ensures nReceiverInterrupt == old(nReceiverInterrupt)
      ensures nTransmitterPin != -1 && nReceiverInterrupt != -1 ==>
        rx.enabled && rx.receivedValue == 0 && rx.receivedBitlength == 0
      ensures nTransmitterPin == -1 || nReceiverInterrupt == -1 ==>
        rx.enabled == old(rx.enabled) && rx.receivedValue == old(rx.receivedValue) && rx.receivedBitlength == old(rx.receivedBitlength)
    {
      var sendBinString := BinaryString(code, length);
      BitsAreString(code, length);
      Send(sendBinString);
    }

    /**
     * `sendTriState(word)`: each symbol becomes two bits ('0' 00, 'F' 01,
     * '1' 11, any other 00), up to the word's terminating NUL, sent as
     * `send(code, length)`. The 34-byte buffer of `send(code, length)` and
     * the 32-bit `code` hold 16 symbols.
     */
    method SendTriState(word: seq<char>)
      requires |CString(word)| <= 16
      modifies this`output, this`nReceiverInterrupt, rx`enabled, rx`receivedValue, rx`receivedBitlength
      ensures nTransmitterPin == -1 ==> output == old(output)
      ensures nTransmitterPin != -1 ==> output == old(output) + SendPulses(protocol, TriStateBits(CString(word)), nRepeatTransmit)
      ensures nReceiverInterrupt == old(nReceiverInterrupt)
      ensures nTransmitterPin != -1 && nReceiverInterrupt != -1 ==>
        rx.enabled && rx.receivedValue == 0 && rx.receivedBitlength == 0
      ensures nTransmitterPin == -1 || nReceiverInterrupt == -1 ==>
        rx.enabled == old(rx.enabled) && rx.receivedValue == old(rx.receivedValue) && rx.receivedBitlength == old(rx.receivedBitlength)
    {
      var code, length := TriStateEncode(word);
      TriStateRoundTrip(CString(word));
      assert length == 2 * |CString(word)|;
      SendCode(code, length);
    }
  }

  lemma AppendAssoc(a: seq<Pulse>, b: seq<Pulse>, c: seq<Pulse>)
    ensures (a + b) + c == a + (b + c)
  {
  }

  lemma WordPulsesStep(pro: Protocol, word: seq<char>, i: nat)
    requires i < |word| && NUL !in word[..i] && word[i] != NUL
    ensures WordPulses(pro, word[..i + 1]) == WordPulses(pro, word[..i]) + SymbolPulses(pro, word[i])
    ensures NUL !in word[..i + 1]
  {
    assert word[..i + 1][..i] == word[..i] && word[..i + 1] == word[..i] + [word[i]];
  }

  /**
   * As written, `send(code, length)` stores the numbers 1 and 0 rather than
   * the characters '1' and '0', and no terminator after them; `rest` stands
   * for whatever the bytes after the written ones hold. When some written
   * byte is 0 the C string ends there and its bytes are not '0'/'1'
   * characters, so no data pulse is sent. When none is (every one of the
   * `length` bits set, or `length` 0), `send` runs on into `rest`.
   */
  lemma AsWrittenSendsNoData(pro: Protocol, code: u32, length: u32, rest: seq<char>)
    requires length <= 32
    ensures var buf := BinaryBufferAsWritten(code, length);
      WordPulses(pro, CString(buf + rest)) == if NUL in buf then [] else WordPulses(pro, CString(rest))
  {
    var buf := BinaryBufferAsWritten(code, length);
    CStringConcat(buf, rest);
    if NUL in buf {
      CStringShape(buf);
      var s := CString(buf);
      forall k | 0 <= k < |s|
        ensures s[k] != '0' && s[k] != '1'
      {
        assert s[k] == buf[k];
      }
      NoDataPulses(pro, s);
    } else {
      NoDataPulses(pro, buf);
      WordPulsesConcat(pro, buf, CString(rest));
      assert [] + WordPulses(pro, CString(rest)) == WordPulses(pro, CString(rest));
    }
  }

  /** Code 2 of length 2: the source sends only the two syncs where the bits "10" were meant. */
  lemma AsWrittenCounterexample(pro: Protocol, rest: seq<char>)
    requires WellFormed(pro)
    ensures RepetitionPulses(pro, CString(BinaryBufferAsWritten(2, 2) + rest))
         == PulsePair(pro, pro.startSyncFactor) + PulsePair(pro, pro.stopSyncFactor)
    ensures Bits(2, 2) == "10"
    ensures |RepetitionPulses(pro, Bits(2, 2))| == |PulsePair(pro, pro.startSyncFactor)| + 6
  {
    assert BinaryBufferAsWritten(2, 2)[1] == NUL;
    AsWrittenSendsNoData(pro, 2, 2, rest);
    TwoBits();
    RepetitionLength(pro, "10");
  }

  lemma TwoBits()
    ensures Bits(2, 2) == "10"
  {
    assert Bit(2, 1) && !Bit(2, 0);
  }

  /** A repetition of a binary word: the start sync, two pulses per bit and the two stop pulses. */
  lemma RepetitionLength(pro: Protocol, w: seq<char>)
    requires WellFormed(pro) && IsBinary(w)
    ensures |RepetitionPulses(pro, w)| == |PulsePair(pro, pro.startSyncFactor)| + 2 * |w| + 2
  {
    WordPairTrace(pro, w);
    FullPair(pro, pro.stopSyncFactor);
  }

  /** The corrected buffer is a proper C string: it holds no NUL. */
  lemma BitsAreString(code: nat, length: nat)
    ensures CString(Bits(code, length)) == Bits(code, length)
  {
    BitsBinary(code, length);
    CStringOfString(Bits(code, length));
  }

  lemma {:induction false} BitsBinary(v: nat, n: nat)
    ensures IsBinary(Bits(v, n)) && NUL !in Bits(v, n)
  {
    if n > 0 {
      BitsBinary(v, n - 1);
    }
  }
}
