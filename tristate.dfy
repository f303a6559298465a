/**
 * The tri-state codec of RCSwitch: a code word over {0, 1, F} becomes a
 * 2-bit-per-symbol integer (`sendTriState`), and an integer of `length`
 * bits becomes the most-significant-bit-first string of '0'/'1' characters
 * that `send(unsigned long, unsigned int)` hands to the transmitter.
 */
module TriState {
  import opened Width
  import opened CStrings

  /** A string that holds only the characters '0' and '1'. */
  predicate IsBinary(s: seq<char>) {
    forall i :: 0 <= i < |s| ==> s[i] == '0' || s[i] == '1'
  }

  function Digit(c: char): nat {
    if c == '1' then 1 else 0
  }

  /** The number a binary string denotes, its first character the most significant. */
  function BitsValue(s: seq<char>): nat {
    if s == [] then 0 else 2 * BitsValue(s[..|s| - 1]) + Digit(s[|s| - 1])
  }

  /** Bit `i` of `v`; the source tests it as `v & (1L << i)`. */
  predicate Bit(v: nat, i: nat) {
    (v / Pow2(i)) % 2 == 1
  }

  function BitChar(b: bool): char {
    if b then '1' else '0'
  }

  /**
   * The low `n` bits of `v` as characters, sent from most to least
   * significant: first the bit at position n-1, last the bit at position 0.
   */
  function Bits(v: nat, n: nat): (r: seq<char>)
    ensures |r| == n && IsBinary(r)
    ensures forall k :: 0 <= k < n ==> r[k] == BitChar(Bit(v, n - 1 - k))
  {
    if n == 0 then [] else [BitChar(Bit(v, n - 1))] + Bits(v, n - 1)
  }

  lemma {:induction false} BitsValueBound(s: seq<char>)
    ensures BitsValue(s) < Pow2(|s|)
  {
    if s != [] {
      BitsValueBound(s[..|s| - 1]);
    }
  }

  /** A string of '0' characters denotes 0. */
  lemma {:induction false} ZerosValue(s: seq<char>)
    requires forall k :: 0 <= k < |s| ==> s[k] == '0'
    ensures BitsValue(s) == 0
  {
    if s != [] {
      ZerosValue(s[..|s| - 1]);
    }
  }

  /** Appending a string shifts the value of the prefix by the length of the suffix. */
  lemma {:induction false} BitsValueConcat(a: seq<char>, b: seq<char>)
    ensures BitsValue(a + b) == BitsValue(a) * Pow2(|b|) + BitsValue(b)
  {
    if b != [] {
      var b' := b[..|b| - 1];
      assert (a + b)[..|a + b| - 1] == a + b';
      BitsValueConcat(a, b');
      var x, y, d, p := BitsValue(a), BitsValue(b'), Digit(b[|b| - 1]), Pow2(|b'|);
      assert (a + b)[|a + b| - 1] == b[|b| - 1];
      assert BitsValue(a + b) == 2 * (x * p + y) + d;
      MulTwice(x, p);
      assert BitsValue(b) == 2 * y + d;
    } else {
      assert a + b == a;
    }
  }

  /** Reading back the MSB-first string of `v` gives the low `n` bits of `v`. */
  lemma {:induction false} BitsValueOfBits(v: nat, n: nat)
    ensures BitsValue(Bits(v, n)) == v % Pow2(n)
  {
    if n > 0 {
      var c := BitChar(Bit(v, n - 1));
      BitsValueOfBits(v, n - 1);
      BitsValueConcat([c], Bits(v, n - 1));
      assert BitsValue([c]) == (v / Pow2(n - 1)) % 2 by {
        assert [c][..0] == [];
      }
      ModDouble(v, Pow2(n - 1));
    }
  }

  /** Two binary strings of one length with one value are the same string. */
  lemma {:induction false} BitsValueInjective(s: seq<char>, t: seq<char>)
    requires IsBinary(s) && IsBinary(t) && |s| == |t|
    requires BitsValue(s) == BitsValue(t)
    ensures s == t
  {
    if s != [] {
      var n := |s| - 1;
      assert IsBinary(s[..n]) && IsBinary(t[..n]);
      assert Digit(s[n]) == Digit(t[n]);
      BitsValueInjective(s[..n], t[..n]);
      assert s == s[..n] + [s[n]] && t == t[..n] + [t[n]];
    }
  }

  /** Writing out the value of a binary string reproduces the string. */
  lemma BitsOfBitsValue(s: seq<char>)
    requires IsBinary(s)
    ensures Bits(BitsValue(s), |s|) == s
  {
    BitsValueOfBits(BitsValue(s), |s|);
    BitsValueBound(s);
    DivModUnique(BitsValue(s), Pow2(|s|), 0, BitsValue(s));
    BitsValueInjective(Bits(BitsValue(s), |s|), s);
  }

  /** Two numbers below 2^n with the same n low bits are equal. */
  lemma BitsDetermineValue(u: nat, v: nat, n: nat)
    requires u < Pow2(n) && v < Pow2(n)
    requires forall k :: 0 <= k < n ==> Bit(u, k) == Bit(v, k)
    ensures u == v
  {
    assert Bits(u, n) == Bits(v, n);
    BitsValueOfBits(u, n);
    BitsValueOfBits(v, n);
    DivModUnique(u, Pow2(n), 0, u);
    DivModUnique(v, Pow2(n), 0, v);
  }

  /** The 2-bit pattern of one tri-state symbol; any other character is sent as "00". */
  function SymbolPair(c: char): seq<char> {
    if c == 'F' then "01" else if c == '1' then "11" else "00"
  }

  /** The bit string a tri-state code word stands for, two bits per symbol. */
  function TriStateBits(w: seq<char>): (r: seq<char>)
    ensures |r| == 2 * |w| && IsBinary(r)
  {
    if w == [] then [] else TriStateBits(w[..|w| - 1]) + SymbolPair(w[|w| - 1])
  }

  lemma {:induction false} TriStateBitsConcat(a: seq<char>, b: seq<char>)
    ensures TriStateBits(a + b) == TriStateBits(a) + TriStateBits(b)
  {
    if b == [] {
      assert a + b == a;
    } else {
      var b', c := b[..|b| - 1], b[|b| - 1];
      assert (a + b)[..|a + b| - 1] == a + b' && (a + b)[|a + b| - 1] == c;
      assert TriStateBits(a + b) == TriStateBits(a + b') + SymbolPair(c);
      TriStateBitsConcat(a, b');
      assert TriStateBits(b) == TriStateBits(b') + SymbolPair(c);
      assert (TriStateBits(a) + TriStateBits(b')) + SymbolPair(c) == TriStateBits(a) + (TriStateBits(b') + SymbolPair(c));
    }
  }

  lemma PairValue(c: char)
    ensures BitsValue(SymbolPair(c)) == if c == 'F' then 1 else if c == '1' then 3 else 0
  {
    var p := SymbolPair(c);
    assert |p| == 2 && p[..1][..0] == [];
    assert BitsValue(p[..1]) == Digit(p[0]);
    assert BitsValue(p) == 2 * Digit(p[0]) + Digit(p[1]);
  }

  /** One step of the `sendTriState` loop: shift by two and OR in the symbol's pattern. */
  lemma TriStateStep(w: seq<char>, c: char)
    ensures U32(U32(BitsValue(TriStateBits(w))) * 4 + (if c == 'F' then 1 else if c == '1' then 3 else 0))
         == U32(BitsValue(TriStateBits(w + [c])))
  {
    var prefix, pattern := TriStateBits(w), if c == 'F' then 1 else if c == '1' then 3 else 0;
    assert (w + [c])[..|w|] == w;
    assert TriStateBits(w + [c]) == prefix + SymbolPair(c);
    BitsValueConcat(prefix, SymbolPair(c));
    PairValue(c);
    ModAffine(BitsValue(prefix), 4, pattern);
  }

  lemma EncodeStep(w: seq<char>, i: nat, code: int, length: int)
    requires i < |w|
    requires length == U32(2 * i) && code == U32(BitsValue(TriStateBits(w[..i])))
    ensures U32(length + 2) == U32(2 * (i + 1))
    ensures U32(code * 4 + (if w[i] == 'F' then 1 else if w[i] == '1' then 3 else 0))
         == U32(BitsValue(TriStateBits(w[..i + 1])))
  {
    assert w[..i + 1] == w[..i] + [w[i]];
    TriStateStep(w[..i], w[i]);
    ModAffine(2 * i, 1, 2);
  }

  /**
   * `sendTriState` folds the code word, up to its terminating NUL, into a
   * 32-bit `code`, two bits per symbol, and counts `length` up by two per symbol.
   */
  method TriStateEncode(w: seq<char>) returns (code: u32, length: u32)
    ensures length == U32(2 * |CString(w)|)
    ensures code == U32(BitsValue(TriStateBits(CString(w))))
  {
    code, length := 0, 0;
    var i := 0;
    while i < |w| && w[i] != NUL
      invariant 0 <= i <= |w| && NUL !in w[..i]
      invariant length == U32(2 * i)
      invariant code == U32(BitsValue(TriStateBits(w[..i])))
    {
      var c := w[i];
      // `code <<= 2` leaves the two low bits clear, so the OR of the pattern is an addition
      var pattern := if c == 'F' then 1 else if c == '1' then 3 else 0;
      EncodeStep(w, i, code, length);
      code := U32(code * 4 + pattern);
      length := U32(length + 2);
      i := i + 1;
    }
    CStringAt(w, i);
  }

  /**
   * The code word needs no more than the 32 bits of `code` when it has at
   * most 16 symbols: then writing out `length` bits of `code` gives back
   * exactly the symbols' 2-bit patterns in order.
   */
  lemma TriStateRoundTrip(w: seq<char>)
    requires |w| <= 16
    ensures BitsValue(TriStateBits(w)) < TwoTo32
    ensures Bits(U32(BitsValue(TriStateBits(w))), 2 * |w|) == TriStateBits(w)
  {
    BitsValueBound(TriStateBits(w));
    Pow2Mono(2 * |w|, 32);
    Pow2Is32();
    BitsOfBitsValue(TriStateBits(w));
  }

  /**
   * With more than 16 symbols the early ones are shifted out of the 32-bit
   * `code`: only the last 16 symbols remain in it.
   */
  lemma TriStateCodeKeepsLast16(w: seq<char>)
    requires |w| > 16
    ensures U32(BitsValue(TriStateBits(w))) == BitsValue(TriStateBits(w[|w| - 16..]))
  {
    var k := |w| - 16;
    assert w == w[..k] + w[k..];
    TriStateBitsConcat(w[..k], w[k..]);
    DropHighPart(TriStateBits(w[..k]), TriStateBits(w[k..]));
  }

  /** Only the last 32 bits of a bit string survive in a 32-bit value. */
  lemma DropHighPart(hi: seq<char>, lo: seq<char>)
    requires |lo| == 32
    ensures U32(BitsValue(hi + lo)) == BitsValue(lo)
  {
    BitsValueConcat(hi, lo);
    BitsValueBound(lo);
    Pow2Is32();
    assert BitsValue(hi) * Pow2(|lo|) == TwoTo32 * BitsValue(hi);
    DivModUnique(BitsValue(hi + lo), TwoTo32, BitsValue(hi), BitsValue(lo));
  }

  /** One step of the receiver's `code <<= 1; code |= 1` on a 32-bit `code`. */
  lemma ShiftInBit(bits: seq<char>, c: char)
    ensures U32(U32(BitsValue(bits)) * 2 + Digit(c)) == U32(BitsValue(bits + [c]))
  {
    assert (bits + [c])[..|bits|] == bits;
    ModAffine(BitsValue(bits), 2, Digit(c));
  }

  lemma BitsStep(s: seq<char>, v: nat, i: nat)
    ensures s + Bits(v, i + 1) == (s + [BitChar(Bit(v, i))]) + Bits(v, i)
  {
  }

  /**
   * The corrected `send(code, length)` buffer: `length` characters '0'/'1',
   * bit `length-1` of `code` first. (The source stores the numbers 0 and 1
   * instead of the characters; see `BinaryBufferAsWritten`.)
   */
  method BinaryString(code: u32, length: u32) returns (s: seq<char>)
    requires length <= 32
    ensures s == Bits(code, length)
  {
    s := [];
    var i: int := length - 1;
    while i >= 0
      invariant -1 <= i < length
      invariant s + Bits(code, i + 1) == Bits(code, length)
    {
      BitsStep(s, code, i);
      s := s + [BitChar(Bit(code, i))];
      i := i - 1;
    }
  }

  /**
   * The buffer `send(code, length)` fills as written: the byte values 1 and 0
   * (not the characters '1' and '0'), with no terminating NUL after them.
   */
  function BinaryBufferAsWritten(code: u32, length: u32): (r: seq<char>)
    requires length <= 32
    ensures |r| == length
    ensures forall k :: 0 <= k < |r| ==> r[k] != '0' && r[k] != '1'
    ensures forall k :: 0 <= k < |r| ==> (r[k] == NUL <==> !Bit(code, length - 1 - k))
  {
    seq(length, k requires 0 <= k < length => if (code / Pow2(length - 1 - k)) % 2 == 1 then 1 as char else 0 as char)
  }
}
