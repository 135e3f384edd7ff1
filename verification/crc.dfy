/** The 8-bit checksum that guards every 16-bit word the SHTC3 sends:
    CRC-8 with generator polynomial 0x31 (x^8 + x^5 + x^4 + 1), register
    initialised to 0xFF, bits processed most significant first, no
    reflection of input or output and no final XOR (Sensirion's sensor CRC,
    also catalogued as CRC-8/NRSC-5).
 */
module Crc {

  /** Generator polynomial without its x^8 term. */
  const Polynomial: bv8 := 0x31

  /** Value of the register before the first byte. */
  const Init: bv8 := 0xFF

  /** One iteration of the inner (bit) loop. The source computes on unbounded
      Python integers and masks the shifted value with 0xFF; the shift is done
      here in 16 bits and masked the same way, so the dropped top bit is explicit. */
  function BitStep(crc: bv8): bv8 {
    var wide := crc as bv16;
    if (crc & 0x80) == 0x80 then
      (((wide << 1) ^ (Polynomial as bv16)) & 0xFF) as bv8
    else
      ((wide << 1) & 0xFF) as bv8
  }

  /** k iterations of the bit loop. */
  function BitSteps(crc: bv8, k: nat): bv8
    decreases k
  {
    if k == 0 then crc else BitStep(BitSteps(crc, k - 1))
  }

  /** One iteration of the outer (byte) loop: XOR the byte into the register,
      then run the bit loop eight times. */
  function ByteStep(crc: bv8, b: bv8): bv8 {
    BitSteps(crc ^ b, 8)
  }

  /** The checksum of a byte sequence: the register after every byte has been
      fed in order, starting from Init. */
  function Crc8(data: seq<bv8>): bv8
    decreases |data|
  {
    if |data| == 0 then Init
    else ByteStep(Crc8(data[..|data| - 1]), data[|data| - 1])
  }

  /** The source's two nested loops, one register update per bit. The
      initial value and the polynomial are written as the literals 0xFF and
      0x31, as in the source; the ensures tie them to Init and Polynomial. */
  method ComputeCrc8(data: seq<bv8>) returns (crc: bv8)
    ensures crc == Crc8(data)
    ensures |data| == 0 ==> crc == 0xFF
  {
    crc := 0xFF;
    for i := 0 to |data|
      invariant crc == Crc8(data[..i])
    {
      assert data[..i + 1][..i] == data[..i];
      crc := crc ^ data[i];
      ghost var fed := crc;
      for iBit := 0 to 8
        invariant crc == BitSteps(fed, iBit)
      {
        var wide := crc as bv16;
        if (crc & 0x80) == 0x80 {
          crc := (((wide << 1) ^ 0x31) & 0xFF) as bv8;
        } else {
          crc := ((wide << 1) & 0xFF) as bv8;
        }
      }
    }
    assert data[..|data|] == data;
  }

  /** A three-byte group (two data bytes and their checksum) is intact when
      the checksum of the first two bytes equals the third. Only the first
      three bytes are looked at. */
  predicate CheckCrc(data: seq<bv8>)
    requires |data| >= 3
  {
    Crc8(data[0..2]) == data[2]
  }

  /** For every pair of data bytes exactly one third byte passes the check:
      the checksum of the pair. */
  lemma CheckCrcExactlyOne(a: bv8, b: bv8, c: bv8)
    ensures CheckCrc([a, b, Crc8([a, b])])
    ensures CheckCrc([a, b, c]) <==> c == Crc8([a, b])
  {
    assert [a, b, c][0..2] == [a, b];
    assert [a, b, Crc8([a, b])][0..2] == [a, b];
  }

  /** The register update of one bit is a bijection: the low bit of the result
      tells whether the polynomial was XORed in, i.e. the dropped top bit. */
  lemma BitStepInjective(x: bv8, y: bv8)
    requires BitStep(x) == BitStep(y)
    ensures x == y
  {
  }

  lemma {:induction false} BitStepsInjective(x: bv8, y: bv8, k: nat)
    requires BitSteps(x, k) == BitSteps(y, k)
    ensures x == y
    decreases k
  {
    if k > 0 {
      BitStepInjective(BitSteps(x, k - 1), BitSteps(y, k - 1));
      BitStepsInjective(x, y, k - 1);
    }
  }

  /** Feeding one byte cannot map two different registers, or two different
      bytes, to the same register. */
  lemma ByteStepInjective(r: bv8, b: bv8, r': bv8, b': bv8)
    requires ByteStep(r, b) == ByteStep(r', b')
    ensures r == r' <==> b == b'
  {
    BitStepsInjective(r ^ b, r' ^ b', 8);
    XorCancels(r, b, r', b');
  }

  lemma XorCancels(r: bv8, b: bv8, r': bv8, b': bv8)
    requires r ^ b == r' ^ b'
    ensures r == r' <==> b == b'
  {
  }

  /** The checksum of a two-byte word, unfolded into its two byte steps. */
  lemma Crc8OfPair(a: bv8, b: bv8)
    ensures Crc8([a, b]) == ByteStep(ByteStep(Init, a), b)
  {
    assert [a, b][..1] == [a];
    assert [a][..0] == [];
    assert Crc8([a]) == ByteStep(Crc8([]), a);
  }

  /** The checksum of a two-byte word changes whenever exactly one of its two
      bytes changes. */
  lemma Crc8PairSeparates(a: bv8, b: bv8, a': bv8, b': bv8)
    requires a == a' || b == b'
    requires [a, b] != [a', b']
    ensures Crc8([a, b]) != Crc8([a', b'])
  {
    Crc8OfPair(a, b);
    Crc8OfPair(a', b');
    var r, r' := ByteStep(Init, a), ByteStep(Init, a');
    if ByteStep(r, b) == ByteStep(r', b') {
      ByteStepInjective(r, b, r', b');
      if b == b' {
        ByteStepInjective(Init, a, Init, a');
      }
      assert false;
    }
  }

  /** Two three-byte groups that differ in exactly one position. */
  predicate DifferInOnePosition(w: seq<bv8>, w': seq<bv8>)
    requires |w| == 3 && |w'| == 3
  {
    exists k :: 0 <= k < 3 && w[k] != w'[k] &&
      forall j :: 0 <= j < 3 && j != k ==> w[j] == w'[j]
  }

  /** Any single corrupted byte in an intact group makes the check fail. */
  lemma SingleByteErrorDetected(w: seq<bv8>, w': seq<bv8>)
    requires |w| == 3 && |w'| == 3
    requires CheckCrc(w)
    requires DifferInOnePosition(w, w')
    ensures !CheckCrc(w')
  {
    var k :| 0 <= k < 3 && w[k] != w'[k] &&
      forall j :: 0 <= j < 3 && j != k ==> w[j] == w'[j];
    assert w[0..2] == [w[0], w[1]] && w'[0..2] == [w'[0], w'[1]];
    if k < 2 {
      Crc8PairSeparates(w[0], w[1], w'[0], w'[1]);
    }
  }

  /** The worked example of the sensor's data sheet: the checksum of 0xBEEF
      is 0x92. */
  lemma DatasheetExample()
    ensures Crc8([0xBE, 0xEF]) == 0x92
  {
  }
}
