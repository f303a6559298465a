/**
 * The code-word builders `getCodeWordA` .. `getCodeWordD`: each maps the
 * address and device of one switch family and the wanted on/off state to
 * a 12-symbol tri-state word over {0, 1, F}, or to no word (the source's
 * null pointer) when an argument is out of range.
 */
module CodeWords {
  import opened Wrappers
  import TriState
  import Width

  /** A word over the tri-state alphabet {0, 1, F}. */
  predicate IsTriState(w: seq<char>) {
    forall i :: 0 <= i < |w| ==> w[i] == '0' || w[i] == '1' || w[i] == 'F'
  }

  /** `n` symbols: `hit` at (0-based) position `pos`, `miss` everywhere else. */
  function OneHot(n: nat, pos: int, hit: char, miss: char): seq<char> {
    seq(n, k => if k == pos then hit else miss)
  }

  /** Five DIP switch positions: a switch set to '0' sends 'F', any other sends '0'. */
  function DipField(dip: seq<char>): seq<char>
    requires |dip| >= 5
  {
    seq(5, k requires 0 <= k < 5 => if dip[k] == '0' then 'F' else '0')
  }

  /** Bits 0 .. n-1 of `v`, lowest first: a set bit is 'F', a clear one '0'. */
  function BitField(v: nat, n: nat): seq<char> {
    seq(n, k requires 0 <= k => if TriState.Bit(v, k) then 'F' else '0')
  }

  /** Type A (10-pole DIP switches): group field, device field, then on "0F" / off "F0". */
  function CodeWordA(group: seq<char>, device: seq<char>, on: bool): (w: seq<char>)
    requires |group| >= 5 && |device| >= 5
    ensures |w| == 12 && IsTriState(w)
    ensures w[10] != w[11]
  {
    DipField(group) + DipField(device) + (if on then "0F" else "F0")
  }

  predicate InRangeB(address: int, channel: int) {
    1 <= address <= 4 && 1 <= channel <= 4
  }

  /**
   * Type B (two rotary switches): address and channel as one '0' among
   * four 'F', three unused 'F', then on 'F' / off '0'.
   */
  function CodeWordB(address: int, channel: int, on: bool): (r: Option<seq<char>>)
    ensures r.Some? <==> InRangeB(address, channel)
    ensures r.Some? ==> |r.value| == 12 && IsTriState(r.value)
  {
    if !InRangeB(address, channel) then None
    else Some(OneHot(4, address - 1, '0', 'F') + OneHot(4, channel - 1, '0', 'F') + "FFF" + [if on then 'F' else '0'])
  }

  /** The family number of a type C family letter: 'a' is 0. */
  function FamilyNumber(family: char): int {
    family as int - 'a' as int
  }

  predicate InRangeC(family: char, group: int, device: int) {
    0 <= FamilyNumber(family) <= 15 && 1 <= group <= 4 && 1 <= device <= 4
  }

  /**
   * Type C (Intertechno): family in four bits, device-1 and group-1 in two
   * bits each (a set bit is 'F'), then "0FF" and on 'F' / off '0'.
   */
  function CodeWordC(family: char, group: int, device: int, on: bool): (r: Option<seq<char>>)
    ensures r.Some? <==> InRangeC(family, group, device)
    ensures r.Some? ==> |r.value| == 12 && IsTriState(r.value)
  {
    if !InRangeC(family, group, device) then None
    else Some(BitField(FamilyNumber(family), 4) + BitField(device - 1, 2) + BitField(group - 1, 2)
              + "0FF" + [if on then 'F' else '0'])
  }

  /** The group number of a type D group letter: 'a'/'A' is 0 (letters from 'a' on are lower case). */
  function GroupNumber(group: char): int {
    if group >= 'a' then group as int - 'a' as int else group as int - 'A' as int
  }

  predicate InRangeD(group: char, device: int) {
    0 <= GroupNumber(group) <= 3 && 1 <= device <= 3
  }

  /**
   * Type D (REV): group as one '1' among four 'F', device as one '1' among
   * three 'F', "000", then on "10" / off "01".
   */
  function CodeWordD(group: char, device: int, on: bool): (r: Option<seq<char>>)
    ensures r.Some? <==> InRangeD(group, device)
    ensures r.Some? ==> |r.value| == 12 && IsTriState(r.value)
  {
    if !InRangeD(group, device) then None
    else Some(OneHot(4, GroupNumber(group), '1', 'F') + OneHot(3, device - 1, '1', 'F') + "000"
              + (if on then "10" else "01"))
  }

  /** A DIP setting written with '0' (off) and '1' (on) only. */
  predicate IsDipSetting(dip: seq<char>) {
    |dip| == 5 && forall i :: 0 <= i < 5 ==> dip[i] == '0' || dip[i] == '1'
  }

  /** Different DIP settings or states of type A switches give different words. */
  lemma CodeWordAInjective(g1: seq<char>, d1: seq<char>, on1: bool, g2: seq<char>, d2: seq<char>, on2: bool)
    requires IsDipSetting(g1) && IsDipSetting(d1) && IsDipSetting(g2) && IsDipSetting(d2)
    requires CodeWordA(g1, d1, on1) == CodeWordA(g2, d2, on2)
    ensures g1 == g2 && d1 == d2 && on1 == on2
  {
    var w1, w2 := CodeWordA(g1, d1, on1), CodeWordA(g2, d2, on2);
    forall i | 0 <= i < 5 ensures g1[i] == g2[i] && d1[i] == d2[i] {
      assert w1[i] == w2[i] && w1[5 + i] == w2[5 + i];
    }
    assert w1[10] == w2[10];
  }

  /** Different addresses, channels or states of type B switches give different words. */
  lemma CodeWordBInjective(a1: int, c1: int, on1: bool, a2: int, c2: int, on2: bool)
    requires CodeWordB(a1, c1, on1).Some? && CodeWordB(a1, c1, on1) == CodeWordB(a2, c2, on2)
    ensures a1 == a2 && c1 == c2 && on1 == on2
  {
    var w1, w2 := CodeWordB(a1, c1, on1).value, CodeWordB(a2, c2, on2).value;
    assert w1[a1 - 1] == '0' && w2[a2 - 1] == '0';
    assert w1[4 + c1 - 1] == '0' && w2[4 + c2 - 1] == '0';
    assert w1[11] == w2[11];
  }

  /** A field of `n` bits determines the low `n` bits of its value. */
  lemma BitFieldInjective(u: nat, v: nat, n: nat)
    requires u < Width.Pow2(n) && v < Width.Pow2(n)
    requires BitField(u, n) == BitField(v, n)
    ensures u == v
  {
    forall k | 0 <= k < n ensures TriState.Bit(u, k) == TriState.Bit(v, k) {
      assert BitField(u, n)[k] == BitField(v, n)[k];
    }
    TriState.BitsDetermineValue(u, v, n);
  }

  /** Different families, groups, devices or states of type C switches give different words. */
  lemma CodeWordCInjective(f1: char, g1: int, d1: int, on1: bool, f2: char, g2: int, d2: int, on2: bool)
    requires CodeWordC(f1, g1, d1, on1).Some? && CodeWordC(f1, g1, d1, on1) == CodeWordC(f2, g2, d2, on2)
    ensures f1 == f2 && g1 == g2 && d1 == d2 && on1 == on2
  {
    var w1, w2 := CodeWordC(f1, g1, d1, on1).value, CodeWordC(f2, g2, d2, on2).value;
    assert w1[..4] == BitField(FamilyNumber(f1), 4) && w2[..4] == BitField(FamilyNumber(f2), 4);
    assert w1[4..6] == BitField(d1 - 1, 2) && w2[4..6] == BitField(d2 - 1, 2);
    assert w1[6..8] == BitField(g1 - 1, 2) && w2[6..8] == BitField(g2 - 1, 2);
    assert Width.Pow2(2) == 4 && Width.Pow2(4) == 16;
    BitFieldInjective(FamilyNumber(f1), FamilyNumber(f2), 4);
    BitFieldInjective(d1 - 1, d2 - 1, 2);
    BitFieldInjective(g1 - 1, g2 - 1, 2);
    assert w1[11] == w2[11];
  }

  /**
   * Different groups, devices or states of type D switches give different
   * words; the group letter is told apart up to its case.
   */
  lemma CodeWordDInjective(g1: char, d1: int, on1: bool, g2: char, d2: int, on2: bool)
    requires CodeWordD(g1, d1, on1).Some? && CodeWordD(g1, d1, on1) == CodeWordD(g2, d2, on2)
    ensures GroupNumber(g1) == GroupNumber(g2) && d1 == d2 && on1 == on2
  {
    var w1, w2 := CodeWordD(g1, d1, on1).value, CodeWordD(g2, d2, on2).value;
    assert w1[GroupNumber(g1)] == '1' && w2[GroupNumber(g2)] == '1';
    assert w1[4 + d1 - 1] == '1' && w2[4 + d2 - 1] == '1';
    assert w1[10] == w2[10];
  }

  /** `getCodeWordA`: the ten DIP positions one by one, then the two status symbols. */
  method GetCodeWordA(group: seq<char>, device: seq<char>, on: bool) returns (w: seq<char>)
    requires |group| >= 5 && |device| >= 5
    ensures w == CodeWordA(group, device, on)
  {
    w := [];
    for i := 0 to 5
      invariant w == DipField(group)[..i]
    {
      w := w + [if group[i] == '0' then 'F' else '0'];
    }
    for i := 0 to 5
      invariant w == DipField(group) + DipField(device)[..i]
    {
      w := w + [if device[i] == '0' then 'F' else '0'];
    }
    w := w + [if on then '0' else 'F'];
    w := w + [if on then 'F' else '0'];
  }

  /** `getCodeWordB`: null when out of range, else the word for the address and channel. */
  method GetCodeWordB(address: int, channel: int, on: bool) returns (r: Option<seq<char>>)
    ensures r == CodeWordB(address, channel, on)
  {
    if address < 1 || address > 4 || channel < 1 || channel > 4 {
      return None;
    }
    var w := [];
    for i := 1 to 5
      invariant w == OneHot(i - 1, address - 1, '0', 'F')
    {
      w := w + [if address == i then '0' else 'F'];
    }
    for i := 1 to 5
      invariant w == OneHot(4, address - 1, '0', 'F') + OneHot(i - 1, channel - 1, '0', 'F')
    {
      w := w + [if channel == i then '0' else 'F'];
    }
    w := w + ['F'];
    w := w + ['F'];
    w := w + ['F'];
    w := w + [if on then 'F' else '0'];
    assert w == OneHot(4, address - 1, '0', 'F') + OneHot(4, channel - 1, '0', 'F') + "FFF" + [if on then 'F' else '0'];
    r := Some(w);
  }

  /** `getCodeWordC`: null when out of range, else family, device, group and status. */
  method GetCodeWordC(family: char, group: int, device: int, on: bool) returns (r: Option<seq<char>>)
    ensures r == CodeWordC(family, group, device, on)
  {
    var nFamily := family as int - 'a' as int;
    if nFamily < 0 || nFamily > 15 || group < 1 || group > 4 || device < 1 || device > 4 {
      return None;
    }
    var w := [];
    for k := 0 to 4
      invariant w == BitField(nFamily, k)
    {
      w := w + [if TriState.Bit(nFamily, k) then 'F' else '0'];
    }
    for k := 0 to 2
      invariant w == BitField(nFamily, 4) + BitField(device - 1, k)
    {
      w := w + [if TriState.Bit(device - 1, k) then 'F' else '0'];
    }
    for k := 0 to 2
      invariant w == BitField(nFamily, 4) + BitField(device - 1, 2) + BitField(group - 1, k)
    {
      w := w + [if TriState.Bit(group - 1, k) then 'F' else '0'];
    }
    w := w + ['0'];
    w := w + ['F'];
    w := w + ['F'];
    w := w + [if on then 'F' else '0'];
    assert w == BitField(nFamily, 4) + BitField(device - 1, 2) + BitField(group - 1, 2) + "0FF" + [if on then 'F' else '0'];
    r := Some(w);
  }

  /** `getCodeWordD`: null when out of range, else group, device, "000" and status. */
  method GetCodeWordD(group: char, device: int, on: bool) returns (r: Option<seq<char>>)
    ensures r == CodeWordD(group, device, on)
  {
    var nGroup := if group >= 'a' then group as int - 'a' as int else group as int - 'A' as int;
    if nGroup < 0 || nGroup > 3 || device < 1 || device > 3 {
      return None;
    }
    var w := [];
    for i := 0 to 4
      invariant w == OneHot(i, nGroup, '1', 'F')
    {
      w := w + [if nGroup == i then '1' else 'F'];
    }
    for i := 1 to 4
      invariant w == OneHot(4, nGroup, '1', 'F') + OneHot(i - 1, device - 1, '1', 'F')
    {
      w := w + [if device == i then '1' else 'F'];
    }
    w := w + ['0'];
    w := w + ['0'];
    w := w + ['0'];
    w := w + [if on then '1' else '0'];
    w := w + [if on then '0' else '1'];
    assert w == OneHot(4, nGroup, '1', 'F') + OneHot(3, device - 1, '1', 'F') + "000" + (if on then "10" else "01");
    r := Some(w);
  }
}
