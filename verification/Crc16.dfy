/** CRC-16 as the program computes it, bit by bit and by lookup table. */
module Crc16 {
  import opened BitDivision
  import opened CrcRegister
  import opened MachineWords

  const GENERATOR: bv16 := 0x1021

  /** The coefficients of x^12 + x^5 + 1, from x^15 down. */
  const GENERATOR_BITS: Bits := [false, false, false, true, false, false, false, false,
                                 false, false, true, false, false, false, false, true]

  function Checksum(data: seq<bv8>): bv16 {
    Crc(R16, GENERATOR, data)
  }

  function Entry(i: bv8): bv16 {
    TableEntry(R16, GENERATOR, i)
  }

  function EntryAt(k: nat): bv16 {
    if k < 256 then Entry(k as bv8) else 0
  }

  ghost predicate TableFilled(table: seq<bv16>) {
    |table| == 256 && forall k: nat :: k < 256 ==> table[k] == EntryAt(k)
  }

  // ---- the programs ----

  /** The inner loop: shifts eight bits out of the register. */
  method ShiftByte(start: bv16) returns (crc: bv16)
    ensures crc == Steps(W16, GENERATOR, start, W8.width)
  {
    crc := start;
    ghost var goal, n := Steps(W16, GENERATOR, start, W8.width), W8.width;
    for j := 0 to 8
      invariant n == 8 && Steps(W16, GENERATOR, crc, n - j) == goal
    {
      ghost var before := crc;
      var msb := crc & 0x8000;
      crc := crc << 1;
      ghost var shifted := crc;
      if msb != 0 {
        crc := crc ^ GENERATOR;
      }
      StepIs16(GENERATOR, before, shifted, crc);
      StepsUnfold(W16, GENERATOR, before, n - j);
    }
  }

  method GenLookupTable(table: array<bv16>)
    requires table.Length == 256
    modifies table
    ensures TableFilled(table[..])
  {
    for i := 0 to 256
      invariant Filled(table[..i], EntryAt)
    {
      var entry := ShiftIndex(i);
      ghost var front := table[..i];
      table[i] := entry;
      FilledSnoc(front, EntryAt, entry);
      assert table[..i + 1] == front + [entry];
    }
    assert table[..256] == table[..];
    AllFilled(table[..], EntryAt);
  }

  /** One entry of the table. */
  method ShiftIndex(i: nat) returns (crc: bv16)
    requires i < 256
    ensures crc == EntryAt(i)
  {
    crc := (i as bv16) << 8;
    ghost var start := crc;
    crc := ShiftByte(crc);
    FilledEntry(i, start, crc);
  }

  lemma WordFromIndex(i: nat)
    requires i < 256
    ensures (i as bv16) << 8 == ByteOnTop(i as bv8)
  {
  }

  lemma FilledEntry(i: nat, start: bv16, crc: bv16)
    requires i < 256 && start == (i as bv16) << 8 && crc == Steps(W16, GENERATOR, start, W8.width)
    ensures crc == EntryAt(i)
  {
    WordFromIndex(i);
  }

  lemma ByteAsIndex(b: bv8)
    ensures (b as nat) < 256 && (b as nat) as bv8 == b
  {
  }

  lemma TableHolds(table: seq<bv16>, pos: bv8)
    requires TableFilled(table)
    ensures (pos as nat) < 256 && table[pos as nat] == Entry(pos)
  {
    ByteAsIndex(pos);
    assert table[pos as nat] == EntryAt(pos as nat);
  }

  lemma OneMoreByte(data: seq<bv8>, i: nat)
    requires i < |data|
    ensures Checksum(data[..i + 1]) == ByteStep(R16, GENERATOR, Checksum(data[..i]), data[i])
  {
    CrcSnoc(R16, GENERATOR, data, i);
  }

  /** One turn of the bitwise program's outer loop. */
  lemma BitwiseTurn(data: seq<bv8>, i: nat, crc: bv16)
    requires i < |data| && crc == Checksum(data[..i])
    ensures Steps(W16, GENERATOR, crc ^ ByteOnTop(data[i]), W8.width) == Checksum(data[..i + 1])
  {
    OneMoreByte(data, i);
    IntakeIs16(GENERATOR, crc, data[i]);
  }

  method Crc16Simple(data: array<bv8>, len: nat) returns (crc: bv16)
    requires len <= data.Length
    ensures crc == Checksum(data[..len])
  {
    crc := 0;
    ghost var message := data[..len];
    for i := 0 to len
      invariant crc == Checksum(message[..i])
    {
      ghost var front := crc;
      crc := crc ^ ByteOnTop(data[i]);
      crc := ShiftByte(crc);
      BitwiseTurn(message, i, front);
    }
    assert message[..len] == message;
  }

  /** One turn of the table program's loop. */
  lemma LookupTurn(data: seq<bv8>, i: nat, crc: bv16, next: bv16)
    requires i < |data| && crc == Checksum(data[..i])
    requires next == (crc << 8) ^ Entry(TopByteXor(crc, data[i]))
    ensures next == Checksum(data[..i + 1])
  {
    OneMoreByte(data, i);
    LookupIs16(GENERATOR, crc, data[i], crc << 8, Entry(TopByteXor(crc, data[i])), next);
  }

  method LookupByte(table: array<bv16>, crc: bv16, b: bv8) returns (next: bv16)
    requires TableFilled(table[..])
    ensures next == (crc << 8) ^ Entry(TopByteXor(crc, b))
  {
    var pos := TopByteXor(crc, b);
    TableHolds(table[..], pos);
    next := (crc << 8) ^ table[pos as nat];
  }

  method Crc16LookupTable(table: array<bv16>, data: array<bv8>, len: nat) returns (crc: bv16)
    requires len <= data.Length && TableFilled(table[..])
    ensures crc == Checksum(data[..len])
  {
    crc := 0;
    ghost var message := data[..len];
    for i := 0 to len
      invariant crc == Checksum(message[..i])
    {
      ghost var front := crc;
      crc := LookupByte(table, crc, data[i]);
      LookupTurn(message, i, front, crc);
    }
    assert message[..len] == message;
  }

  // ---- what the checksum means ----

  lemma GeneratorBits()
    ensures WordBits(W16, GENERATOR) == GENERATOR_BITS
  {
    TopBitsSplit(W16, 0x1021, 8, 8);
    assert Left(W16, 0x1021, 8) == 0x2100;
    assert TopBits(W16, 0x1021, 8) == [false, false, false, true, false, false, false, false];
    assert TopBits(W16, 0x2100, 8) == [false, false, true, false, false, false, false, true];
  }

  /** The checksum is the remainder of M(x) * x^16 by x^16 + x^12 + x^5 + 1, and nothing else is. */
  lemma ChecksumIsRemainder(data: seq<bv8>, r: bv16)
    ensures IsRemainder(GENERATOR_BITS, BitsOf(W8, data), WordBits(W16, r)) <==> r == Checksum(data)
  {
    Lawful16();
    GeneratorBits();
    CrcIsRemainder(R16, GENERATOR, data, r);
  }

  lemma ChecksumIsLinear(a: seq<bv8>, b: seq<bv8>)
    requires |a| == |b|
    ensures Checksum(XorBytes(W8, a, b)) == Checksum(a) ^ Checksum(b)
  {
    SumIsXor(a, b);
    XorIs16(Checksum(a), Checksum(b));
  }

  lemma SumIsXor(a: seq<bv8>, b: seq<bv8>)
    requires |a| == |b|
    ensures Checksum(XorBytes(W8, a, b)) == W16.xor(Checksum(a), Checksum(b))
  {
    Lawful16();
    CrcIsLinear(R16, GENERATOR, a, b);
  }

  /** Every change confined to 16 consecutive bits is noticed. */
  lemma BurstIsDetected(a: seq<bv8>, b: seq<bv8>, start: nat)
    requires |a| == |b| && DifferWithin(BitsOf(W8, a), BitsOf(W8, b), start, 16)
    ensures Checksum(a) != Checksum(b)
  {
    Lawful16();
    GeneratorBits();
    BurstChangesCrc(R16, GENERATOR, a, b, start);
  }

  /** Of the changes that span 17 bits, the generator is the only one that is missed. */
  lemma SeventeenBitBurst(a: seq<bv8>, b: seq<bv8>, before: nat, burst: Bits, after: nat)
    requires |a| == |b| && |burst| == 16
    requires Xor(BitsOf(W8, a), BitsOf(W8, b)) == Zeros(before) + ([true] + (burst + Zeros(after)))
    ensures Checksum(a) == Checksum(b) <==> burst == GENERATOR_BITS
  {
    Lawful16();
    GeneratorBits();
    WiderBurstChangesCrc(R16, GENERATOR, a, b, before, burst, after, GENERATOR_BITS);
  }

  lemma ParityOfFour(a: bool, b: bool, c: bool, d: bool)
    ensures Parity([a, b, c, d]) == (a != (b != (c != d)))
  {
    assert [a, b, c, d][1..] == [b, c, d] && [b, c, d][1..] == [c, d] && [c, d][1..] == [d];
    assert Parity([c, d]) == (c != Parity([d])) && Parity([d]) == (d != Parity([]));
  }

  lemma GeneratorParity()
    ensures Parity(GENERATOR_BITS)
  {
    var n0, n1, n2 := [false, false, false, true], [false, false, false, false], [false, false, true, false];
    ParityOfFour(false, false, false, true);
    ParityOfFour(false, false, false, false);
    ParityOfFour(false, false, true, false);
    ParityConcat(n0, n1);
    ParityConcat(n2, n0);
    ParityConcat(n0 + n1, n2 + n0);
    assert GENERATOR_BITS == (n0 + n1) + (n2 + n0);
  }

  /** The number of 1 bits of the checksum is odd exactly when that of the message is. */
  lemma ChecksumKeepsParity(data: seq<bv8>)
    ensures Parity(WordBits(W16, Checksum(data))) == Parity(BitsOf(W8, data))
  {
    Lawful16();
    GeneratorBits();
    GeneratorParity();
    CrcKeepsParity(R16, GENERATOR, data);
  }

  /** Two appended bytes make the checksum zero only if they are its big-endian bytes. */
  lemma AppendedChecksum(data: seq<bv8>, high: bv8, low: bv8)
    ensures Checksum(data + [high, low]) == 0 <==>
              high == HighByte(Checksum(data)) && low == LowByte(Checksum(data))
  {
    AppendedBits(data, [high, low]);
    TwoBytes(high, low);
    BytesOfWord(Checksum(data));
    SameBytes(high, low, HighByte(Checksum(data)), LowByte(Checksum(data)));
  }

  function HighByte(x: bv16): bv8 {
    (x >> 8) as bv8
  }

  function LowByte(x: bv16): bv8 {
    (x & 0x00ff) as bv8
  }

  lemma AppendedBits(data: seq<bv8>, tail: seq<bv8>)
    requires |tail| == 2
    ensures Checksum(data + tail) == 0 <==> BitsOf(W8, tail) == WordBits(W16, Checksum(data))
  {
    Lawful16();
    GeneratorBits();
    AppendedCrc(R16, GENERATOR, data, tail);
  }

  lemma TwoBytes(high: bv8, low: bv8)
    ensures BitsOf(W8, [high, low]) == WordBits(W8, high) + WordBits(W8, low)
  {
    assert [high, low][..1] == [high];
    BitsOfOne(W8, high);
  }

  lemma SameBytes(a: bv8, b: bv8, c: bv8, d: bv8)
    ensures WordBits(W8, a) + WordBits(W8, b) == WordBits(W8, c) + WordBits(W8, d) <==> a == c && b == d
  {
    LawfulWord8();
    var left, right := WordBits(W8, a) + WordBits(W8, b), WordBits(W8, c) + WordBits(W8, d);
    if left == right {
      assert WordBits(W8, a) == left[..8] == right[..8] == WordBits(W8, c);
      assert WordBits(W8, b) == left[8..] == right[8..] == WordBits(W8, d);
      SameBitsSameWord(W8, a, c);
      SameBitsSameWord(W8, b, d);
    }
  }

  lemma WordHalves(x: bv16, low: bv16)
    requires low == x & 0x00ff
    ensures x == low ^ ByteOnTop(HighByte(x)) && low & 0xff00 == 0
    ensures x << 8 == ByteOnTop(LowByte(x))
  {
  }

  lemma BytesOfWord(x: bv16)
    ensures WordBits(W16, x) == WordBits(W8, HighByte(x)) + WordBits(W8, LowByte(x))
  {
    TopBitsSplit(W16, x, 8, 8);
    LeftEight(x);
    WordHalves(x, x & 0x00ff);
    ByteAtTopBits(LowByte(x), ByteOnTop(LowByte(x)), 8);
    TopByteBits(x, x & 0x00ff, ByteOnTop(HighByte(x)));
  }

  lemma TopByteBits(x: bv16, low: bv16, top: bv16)
    requires x == low ^ top && low & 0xff00 == 0 && top == ByteOnTop(HighByte(x))
    ensures TopBits(W16, x, 8) == WordBits(W8, HighByte(x))
  {
    LawfulWord16();
    XorIs16(low, top);
    XorTopBits(W16, low, top, 8);
    LowByteIsClear(low);
    ByteAtTopBits(HighByte(x), top, 8);
    XorZeros(TopBits(W16, top, 8));
  }

  lemma XorZeros(a: Bits)
    ensures Xor(Zeros(|a|), a) == a
  {
  }
}
