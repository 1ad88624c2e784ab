/**
 * The 16-bit checksum that guards a stored configuration record.
 *
 * Parameters: initial value 0xFFFF, reflected polynomial 0xA001, each byte
 * consumed least-significant bit first in eight shift/xor rounds, no final
 * XOR. That is the CRC-16/MODBUS checksum of section 6.2.2 of the MODBUS over
 * Serial Line Specification V1.02.
 */
module Crc16 {

  const Init: bv16 := 0xFFFF
  const Poly: bv16 := 0xA001

  /** One shift round: shift right, and fold in the polynomial if a 1 fell out. */
  function Round(c: bv16): bv16 {
    if c & 0x01 == 0x01 then (c >> 1) ^ Poly else c >> 1
  }

  /** `k` successive shift rounds. */
  function Rounds(c: bv16, k: nat): bv16 {
    if k == 0 then c else Round(Rounds(c, k - 1))
  }

  /** Absorb one byte: xor it into the low byte, then eight rounds. */
  function Step(c: bv16, b: bv8): bv16 {
    Rounds(c ^ (b as bv16), 8)
  }

  /** Left fold of `Step` over `s`, starting from `c`. */
  function Fold(c: bv16, s: seq<bv8>): bv16
    decreases |s|
  {
    if |s| == 0 then c else Fold(Step(c, s[0]), s[1..])
  }

  /** The checksum of a byte sequence. */
  function Checksum(s: seq<bv8>): bv16 {
    Fold(Init, s)
  }

  /** The checksum of nothing is the initial value. */
  lemma ChecksumEmpty()
    ensures Checksum([]) == 0xFFFF
  {
  }

  /** Folding over a concatenation is folding over the parts in turn. */
  lemma {:induction false} FoldAppend(c: bv16, a: seq<bv8>, b: seq<bv8>)
    ensures Fold(c, a + b) == Fold(Fold(c, a), b)
    decreases |a|
  {
    if |a| == 0 {
      assert a + b == b;
    } else {
      assert (a + b)[1..] == a[1..] + b;
      FoldAppend(Step(c, a[0]), a[1..], b);
    }
  }

  /** Appending one byte continues the checksum by one step. */
  lemma FoldSnoc(c: bv16, a: seq<bv8>, x: bv8)
    ensures Fold(c, a + [x]) == Step(Fold(c, a), x)
  {
    FoldAppend(c, a, [x]);
  }

  /** The checksum is incremental: checksum(a ++ b) continues from checksum(a). */
  lemma ChecksumAppend(a: seq<bv8>, b: seq<bv8>)
    ensures Checksum(a + b) == Fold(Checksum(a), b)
  {
    FoldAppend(Init, a, b);
  }

  /** Eight rounds written out, so that a concrete byte can be evaluated. */
  lemma EightRounds(c: bv16)
    ensures Rounds(c, 8) == Round(Round(Round(Round(Round(Round(Round(Round(c))))))))
  {
    assert Rounds(c, 1) == Round(c);
    assert Rounds(c, 2) == Round(Rounds(c, 1));
    assert Rounds(c, 3) == Round(Rounds(c, 2));
    assert Rounds(c, 4) == Round(Rounds(c, 3));
    assert Rounds(c, 5) == Round(Rounds(c, 4));
    assert Rounds(c, 6) == Round(Rounds(c, 5));
    assert Rounds(c, 7) == Round(Rounds(c, 6));
  }

  /** `Step` on concrete values. */
  lemma StepIs(c: bv16, b: bv8, r: bv16)
    requires Round(Round(Round(Round(Round(Round(Round(Round(c ^ (b as bv16))))))))) == r
    ensures Step(c, b) == r
  {
    EightRounds(c ^ (b as bv16));
  }

  /** The published CRC-16/MODBUS check value: the ASCII digits "123456789" give 0x4B37. */
  lemma CheckValue()
    ensures Checksum([0x31, 0x32, 0x33, 0x34, 0x35, 0x36, 0x37, 0x38, 0x39]) == 0x4B37
  {
    var s: seq<bv8> := [0x31, 0x32, 0x33, 0x34, 0x35, 0x36, 0x37, 0x38, 0x39];
    StepIs(0xFFFF, 0x31, 0x947E);
    StepIs(0x947E, 0x32, 0xF595);
    StepIs(0xF595, 0x33, 0x7A75);
    StepIs(0x7A75, 0x34, 0x30BA);
    StepIs(0x30BA, 0x35, 0xA471);
    StepIs(0xA471, 0x36, 0x32E4);
    StepIs(0x32E4, 0x37, 0x9D73);
    StepIs(0x9D73, 0x38, 0x37DD);
    StepIs(0x37DD, 0x39, 0x4B37);
    assert s[9..] == [];
  }

  /** Two zero bytes give 0xB001. */
  lemma TwoZeroBytes()
    ensures Checksum([0x00, 0x00]) == 0xB001
  {
    StepIs(0xFFFF, 0x00, 0x40BF);
    StepIs(0x40BF, 0x00, 0xB001);
  }

  /**
   * The loop of the firmware: `crc` starts at 0xFFFF and, while the remaining
   * length counts down, absorbs the byte under the advancing pointer with
   * eight conditional shift/xor rounds. Reads the first `len` cells of `a`.
   */
  method Compute(a: array<bv8>, len: nat) returns (crc: bv16)
    requires len <= a.Length
    ensures crc == Checksum(a[..len])
  {
    crc := 0xFFFF;
    var p := 0;
    var remaining := len;
    while remaining > 0
      invariant p + remaining == len
      invariant crc == Fold(Init, a[..p])
    {
      remaining := remaining - 1;
      crc := crc ^ (a[p] as bv16);
      ghost var start := crc;
      for i := 0 to 8
        invariant crc == Rounds(start, i)
      {
        if crc & 0x01 == 0x01 {
          crc := crc >> 1;
          crc := crc ^ 0xA001;
        } else {
          crc := crc >> 1;
        }
      }
      assert a[..p + 1] == a[..p] + [a[p]];
      FoldSnoc(Init, a[..p], a[p]);
      p := p + 1;
    }
  }
}
