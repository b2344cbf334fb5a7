/** CRC-8 as the program computes it, bit by bit and by lookup table. */
module Crc8 {
  import opened BitDivision
  import opened CrcRegister
  import opened MachineWords

  const GENERATOR: bv8 := 0x1d

  /** The coefficients of x^4 + x^3 + x^2 + 1, from x^7 down. */
  const GENERATOR_BITS: Bits := [false, false, false, true, true, true, false, true]

  function Checksum(data: seq<bv8>): bv8 {
    Crc(R8, GENERATOR, data)
  }

  function Entry(i: bv8): bv8 {
    TableEntry(R8, GENERATOR, i)
  }

  function EntryAt(k: nat): bv8 {
    if k < 256 then Entry(k as bv8) else 0
  }

  ghost predicate TableFilled(table: seq<bv8>) {
    |table| == 256 && forall k: nat :: k < 256 ==> table[k] == EntryAt(k)
  }

  // ---- the programs ----

  /** The inner loop: shifts eight bits out of the register. */
  method ShiftByte(start: bv8) returns (crc: bv8)
    ensures crc == Steps(W8, GENERATOR, start, W8.width)
  {
    crc := start;
    ghost var goal, n := Steps(W8, GENERATOR, start, W8.width), W8.width;
    for j := 0 to 8
      invariant n == 8 && Steps(W8, GENERATOR, crc, n - j) == goal
    {
      ghost var before := crc;
      var msb := crc & 0x80;
      crc := crc << 1;
      ghost var shifted := crc;
      if msb != 0 {
        crc := crc ^ GENERATOR;
      }
      StepIs8(GENERATOR, before, shifted, crc);
      StepsUnfold(W8, GENERATOR, before, n - j);
    }
  }

  lemma EntryIs(i: bv8)
    ensures Entry(i) == Steps(W8, GENERATOR, i, W8.width)
  {
  }

  method GenLookupTable(table: array<bv8>)
    requires table.Length == 256
    modifies table
    ensures TableFilled(table[..])
  {
    for i := 0 to 256
      invariant Filled(table[..i], EntryAt)
    {
      var entry := ShiftIndex(i);
      ghost var front := table[..i];
      table[i] := entry;
      FilledSnoc(front, EntryAt, entry);
      assert table[..i + 1] == front + [entry];
    }
    assert table[..256] == table[..];
    AllFilled(table[..], EntryAt);
  }

  /** One entry of the table. */
  method ShiftIndex(i: nat) returns (crc: bv8)
    requires i < 256
    ensures crc == EntryAt(i)
  {
    crc := i as bv8;
    EntryIs(crc);
    crc := ShiftByte(crc);
  }

  lemma ByteAsIndex(b: bv8)
    ensures (b as nat) < 256 && (b as nat) as bv8 == b
  {
  }

  lemma TableHolds(table: seq<bv8>, pos: bv8)
    requires TableFilled(table)
    ensures (pos as nat) < 256 && table[pos as nat] == Entry(pos)
  {
    ByteAsIndex(pos);
    assert table[pos as nat] == EntryAt(pos as nat);
  }

  /** One turn of the table program's loop. */
  lemma LookupTurn(data: seq<bv8>, i: nat, crc: bv8, mixed: bv8)
    requires i < |data| && crc == Checksum(data[..i]) && mixed == crc ^ data[i]
    ensures Entry(mixed) == Checksum(data[..i + 1])
  {
    XorIs8(crc, data[i]);
    CrcSnocAt(R8, GENERATOR, data, i, mixed);
  }

  /** One turn of the bitwise program's outer loop. */
  lemma BitwiseTurn(data: seq<bv8>, i: nat, crc: bv8, mixed: bv8)
    requires i < |data| && crc == Checksum(data[..i]) && mixed == crc ^ data[i]
    ensures Steps(W8, GENERATOR, mixed, W8.width) == Checksum(data[..i + 1])
  {
    LookupTurn(data, i, crc, mixed);
    EntryIs(mixed);
  }

  method Crc8Simple(data: array<bv8>, len: nat) returns (crc: bv8)
    requires len <= data.Length
    ensures crc == Checksum(data[..len])
  {
    crc := 0;
    ghost var message := data[..len];
    for i := 0 to len
      invariant crc == Checksum(message[..i])
    {
      ghost var front := crc;
      crc := crc ^ data[i];
      ghost var mixed := crc;
      crc := ShiftByte(crc);
      BitwiseTurn(message, i, front, mixed);
    }
    assert message[..len] == message;
  }

  method LookupByte(table: array<bv8>, pos: bv8) returns (entry: bv8)
    requires TableFilled(table[..])
    ensures entry == Entry(pos)
  {
    TableHolds(table[..], pos);
    entry := table[pos as nat];
  }

  method Crc8LookupTable(table: array<bv8>, data: array<bv8>, len: nat) returns (crc: bv8)
    requires len <= data.Length && TableFilled(table[..])
    ensures crc == Checksum(data[..len])
  {
    crc := 0;
    ghost var message := data[..len];
    for i := 0 to len
      invariant crc == Checksum(message[..i])
    {
      ghost var front := crc;
      crc := crc ^ data[i];
      ghost var mixed := crc;
      crc := LookupByte(table, crc);
      LookupTurn(message, i, front, mixed);
    }
    assert message[..len] == message;
  }

  // ---- what the checksum means ----

  lemma GeneratorBits()
    ensures WordBits(W8, GENERATOR) == GENERATOR_BITS
  {
    assert TopBits(W8, 0x1d, 8) == [false, false, false, true, true, true, false, true];
  }

  /** The checksum is the remainder of M(x) * x^8 by x^8 + x^4 + x^3 + x^2 + 1, and nothing else is. */
  lemma ChecksumIsRemainder(data: seq<bv8>, r: bv8)
    ensures IsRemainder(GENERATOR_BITS, BitsOf(W8, data), WordBits(W8, r)) <==> r == Checksum(data)
  {
    Lawful8();
    GeneratorBits();
    CrcIsRemainder(R8, GENERATOR, data, r);
  }

  lemma ChecksumIsLinear(a: seq<bv8>, b: seq<bv8>)
    requires |a| == |b|
    ensures Checksum(XorBytes(W8, a, b)) == Checksum(a) ^ Checksum(b)
  {
    SumIsXor(a, b);
    XorIs8(Checksum(a), Checksum(b));
  }

  lemma SumIsXor(a: seq<bv8>, b: seq<bv8>)
    requires |a| == |b|
    ensures Checksum(XorBytes(W8, a, b)) == W8.xor(Checksum(a), Checksum(b))
  {
    Lawful8();
    CrcIsLinear(R8, GENERATOR, a, b);
  }

  /** Every change confined to 8 consecutive bits is noticed. */
  lemma BurstIsDetected(a: seq<bv8>, b: seq<bv8>, start: nat)
    requires |a| == |b| && DifferWithin(BitsOf(W8, a), BitsOf(W8, b), start, 8)
    ensures Checksum(a) != Checksum(b)
  {
    Lawful8();
    GeneratorBits();
    BurstChangesCrc(R8, GENERATOR, a, b, start);
  }

  /** Of the changes that span 9 bits, the generator is the only one that is missed. */
  lemma NineBitBurst(a: seq<bv8>, b: seq<bv8>, before: nat, burst: Bits, after: nat)
    requires |a| == |b| && |burst| == 8
    requires Xor(BitsOf(W8, a), BitsOf(W8, b)) == Zeros(before) + ([true] + (burst + Zeros(after)))
    ensures Checksum(a) == Checksum(b) <==> burst == GENERATOR_BITS
  {
    Lawful8();
    GeneratorBits();
    WiderBurstChangesCrc(R8, GENERATOR, a, b, before, burst, after, GENERATOR_BITS);
  }

  /** One appended byte makes the checksum zero only if it is the checksum. */
  lemma AppendedChecksum(data: seq<bv8>, last: bv8)
    ensures Checksum(data + [last]) == 0 <==> last == Checksum(data)
  {
    AppendedBits(data, last);
    LawfulWord8();
    if WordBits(W8, last) == WordBits(W8, Checksum(data)) {
      SameBitsSameWord(W8, last, Checksum(data));
    }
  }

  lemma AppendedBits(data: seq<bv8>, last: bv8)
    ensures Checksum(data + [last]) == 0 <==> WordBits(W8, last) == WordBits(W8, Checksum(data))
  {
    Lawful8();
    GeneratorBits();
    BitsOfOne(W8, last);
    AppendedCrc(R8, GENERATOR, data, [last]);
  }
}
