/** The kernel module's hash: CRC-16 by a constant table, applied to a flow's 4-tuple. */
module FlowHash {
  import opened BitDivision
  import opened CrcRegister
  import opened MachineWords
  import Crc16

  // ---- CRC_HASH_TABLE, eight entries to a row as in the header file ----

  function RowA(r: nat): (row: seq<bv16>)
    requires 0 <= r < 8
    ensures |row| == 8
  {
    if r == 0 then [0x0000, 0x1021, 0x2042, 0x3063, 0x4084, 0x50a5, 0x60c6, 0x70e7]
    else if r == 1 then [0x8108, 0x9129, 0xa14a, 0xb16b, 0xc18c, 0xd1ad, 0xe1ce, 0xf1ef]
    else if r == 2 then [0x1231, 0x0210, 0x3273, 0x2252, 0x52b5, 0x4294, 0x72f7, 0x62d6]
    else if r == 3 then [0x9339, 0x8318, 0xb37b, 0xa35a, 0xd3bd, 0xc39c, 0xf3ff, 0xe3de]
    else if r == 4 then [0x2462, 0x3443, 0x0420, 0x1401, 0x64e6, 0x74c7, 0x44a4, 0x5485]
    else if r == 5 then [0xa56a, 0xb54b, 0x8528, 0x9509, 0xe5ee, 0xf5cf, 0xc5ac, 0xd58d]
    else if r == 6 then [0x3653, 0x2672, 0x1611, 0x0630, 0x76d7, 0x66f6, 0x5695, 0x46b4]
    else [0xb75b, 0xa77a, 0x9719, 0x8738, 0xf7df, 0xe7fe, 0xd79d, 0xc7bc]
  }

  function RowB(r: nat): (row: seq<bv16>)
    requires 8 <= r < 16
    ensures |row| == 8
  {
    if r == 8 then [0x48c4, 0x58e5, 0x6886, 0x78a7, 0x0840, 0x1861, 0x2802, 0x3823]
    else if r == 9 then [0xc9cc, 0xd9ed, 0xe98e, 0xf9af, 0x8948, 0x9969, 0xa90a, 0xb92b]
    else if r == 10 then [0x5af5, 0x4ad4, 0x7ab7, 0x6a96, 0x1a71, 0x0a50, 0x3a33, 0x2a12]
    else if r == 11 then [0xdbfd, 0xcbdc, 0xfbbf, 0xeb9e, 0x9b79, 0x8b58, 0xbb3b, 0xab1a]
    else if r == 12 then [0x6ca6, 0x7c87, 0x4ce4, 0x5cc5, 0x2c22, 0x3c03, 0x0c60, 0x1c41]
    else if r == 13 then [0xedae, 0xfd8f, 0xcdec, 0xddcd, 0xad2a, 0xbd0b, 0x8d68, 0x9d49]
    else if r == 14 then [0x7e97, 0x6eb6, 0x5ed5, 0x4ef4, 0x3e13, 0x2e32, 0x1e51, 0x0e70]
    else [0xff9f, 0xefbe, 0xdfdd, 0xcffc, 0xbf1b, 0xaf3a, 0x9f59, 0x8f78]
  }

  function RowC(r: nat): (row: seq<bv16>)
    requires 16 <= r < 24
    ensures |row| == 8
  {
    if r == 16 then [0x9188, 0x81a9, 0xb1ca, 0xa1eb, 0xd10c, 0xc12d, 0xf14e, 0xe16f]
    else if r == 17 then [0x1080, 0x00a1, 0x30c2, 0x20e3, 0x5004, 0x4025, 0x7046, 0x6067]
    else if r == 18 then [0x83b9, 0x9398, 0xa3fb, 0xb3da, 0xc33d, 0xd31c, 0xe37f, 0xf35e]
    else if r == 19 then [0x02b1, 0x1290, 0x22f3, 0x32d2, 0x4235, 0x5214, 0x6277, 0x7256]
    else if r == 20 then [0xb5ea, 0xa5cb, 0x95a8, 0x8589, 0xf56e, 0xe54f, 0xd52c, 0xc50d]
    else if r == 21 then [0x34e2, 0x24c3, 0x14a0, 0x0481, 0x7466, 0x6447, 0x5424, 0x4405]
    else if r == 22 then [0xa7db, 0xb7fa, 0x8799, 0x97b8, 0xe75f, 0xf77e, 0xc71d, 0xd73c]
    else [0x26d3, 0x36f2, 0x0691, 0x16b0, 0x6657, 0x7676, 0x4615, 0x5634]
  }

  function RowD(r: nat): (row: seq<bv16>)
    requires 24 <= r < 32
    ensures |row| == 8
  {
    if r == 24 then [0xd94c, 0xc96d, 0xf90e, 0xe92f, 0x99c8, 0x89e9, 0xb98a, 0xa9ab]
    else if r == 25 then [0x5844, 0x4865, 0x7806, 0x6827, 0x18c0, 0x08e1, 0x3882, 0x28a3]
    else if r == 26 then [0xcb7d, 0xdb5c, 0xeb3f, 0xfb1e, 0x8bf9, 0x9bd8, 0xabbb, 0xbb9a]
    else if r == 27 then [0x4a75, 0x5a54, 0x6a37, 0x7a16, 0x0af1, 0x1ad0, 0x2ab3, 0x3a92]
    else if r == 28 then [0xfd2e, 0xed0f, 0xdd6c, 0xcd4d, 0xbdaa, 0xad8b, 0x9de8, 0x8dc9]
    else if r == 29 then [0x7c26, 0x6c07, 0x5c64, 0x4c45, 0x3ca2, 0x2c83, 0x1ce0, 0x0cc1]
    else if r == 30 then [0xef1f, 0xff3e, 0xcf5d, 0xdf7c, 0xaf9b, 0xbfba, 0x8fd9, 0x9ff8]
    else [0x6e17, 0x7e36, 0x4e55, 0x5e74, 0x2e93, 0x3eb2, 0x0ed1, 0x1ef0]
  }

  function Row(r: nat): (row: seq<bv16>)
    requires r < 32
    ensures |row| == 8
  {
    if r < 8 then RowA(r) else if r < 16 then RowB(r) else if r < 24 then RowC(r) else RowD(r)
  }

  function Constant(k: nat): bv16
    requires k < 256
  {
    Row(k / 8)[k % 8]
  }

  // ---- the constant table is the generated one ----

  /** Entries 2i and 2i + 1 of a CRC table follow from entry i. */
  predicate Follows<W(==)>(o: Word<W>, g: W, half: seq<W>, from: nat, row: seq<W>)
    requires |half| == 8 && from <= 4
  {
    && |row| == 8
    && row[0] == Step(o, g, half[from]) && row[1] == o.xor(row[0], g)
    && row[2] == Step(o, g, half[from + 1]) && row[3] == o.xor(row[2], g)
    && row[4] == Step(o, g, half[from + 2]) && row[5] == o.xor(row[4], g)
    && row[6] == Step(o, g, half[from + 3]) && row[7] == o.xor(row[6], g)
  }

  predicate RowFollows(r: nat)
    requires r < 32
  {
    Follows(W16, 0x1021, Row(r / 2), 4 * (r % 2), Row(r))
  }

  lemma RowsOfA(r: nat)
    requires 0 <= r < 8
    ensures RowFollows(r)
  {
    assert Follows(W16, 0x1021, Row(r / 2), 4 * (r % 2), Row(r));
  }

  lemma RowsOfB(r: nat)
    requires 8 <= r < 16
    ensures RowFollows(r)
  {
    assert Follows(W16, 0x1021, Row(r / 2), 4 * (r % 2), Row(r));
  }

  lemma RowsOfC(r: nat)
    requires 16 <= r < 24
    ensures RowFollows(r)
  {
    assert Follows(W16, 0x1021, Row(r / 2), 4 * (r % 2), Row(r));
  }

  lemma RowsOfD(r: nat)
    requires 24 <= r < 32
    ensures RowFollows(r)
  {
    assert Follows(W16, 0x1021, Row(r / 2), 4 * (r % 2), Row(r));
  }

  lemma EveryRowFollows(r: nat)
    requires r < 32
    ensures RowFollows(r)
  {
    if r < 8 {
      RowsOfA(r);
    } else if r < 16 {
      RowsOfB(r);
    } else if r < 24 {
      RowsOfC(r);
    } else {
      RowsOfD(r);
    }
  }

  lemma FollowsAt<W>(o: Word<W>, g: W, half: seq<W>, from: nat, row: seq<W>, c: nat)
    requires |half| == 8 && from <= 4 && c < 4 && Follows(o, g, half, from, row)
    ensures row[2 * c] == Step(o, g, half[from + c]) && row[2 * c + 1] == o.xor(row[2 * c], g)
  {
    if c == 0 {
    } else if c == 1 {
    } else if c == 2 {
    } else {
    }
  }

  lemma ConstantDoubles(i: nat)
    requires i < 128
    ensures Constant(2 * i) == Step(W16, 0x1021, Constant(i))
    ensures Constant(2 * i + 1) == W16.xor(Constant(2 * i), 0x1021)
  {
    var r, c := i / 4, i % 4;
    EveryRowFollows(r);
    assert (2 * i) / 8 == r && (2 * i) % 8 == 2 * c;
    assert (2 * i + 1) / 8 == r && (2 * i + 1) % 8 == 2 * c + 1;
    assert i / 8 == r / 2 && i % 8 == 4 * (r % 2) + c;
    FollowsAt(W16, 0x1021, Row(r / 2), 4 * (r % 2), Row(r), c);
  }

  lemma TopOfDouble(h: bv8, d: bv8)
    requires h & 0x80 == 0 && d == h << 1
    ensures ByteOnTop(d) == W16.left(ByteOnTop(h)) && !W16.top(ByteOnTop(h))
  {
  }

  lemma EntryDoubles(h: bv8, d: bv8)
    requires h & 0x80 == 0 && d == h << 1
    ensures Crc16.Entry(d) == Step(W16, 0x1021, Crc16.Entry(h))
  {
    TopOfDouble(h, d);
    StepsOfLeft(W16, 0x1021, ByteOnTop(h), W8.width);
  }

  lemma TopOfOdd(d: bv8, odd: bv8)
    requires d & 1 == 0 && odd == d ^ 1
    ensures ByteOnTop(odd) == W16.xor(ByteOnTop(d), 0x0100)
  {
  }

  lemma EntryOfOne()
    ensures Steps(W16, 0x1021, 0x0100, W8.width) == 0x1021
  {
    assert TopBits(W16, 0x0100, 7) == [false, false, false, false, false, false, false] == Zeros(7);
    StepsLeft(W16, 0x1021, 0x0100, 7);
    assert Left(W16, 0x0100, 7) == 0x8000;
    StepsSnoc(W16, 0x1021, 0x0100, 7);
  }

  lemma EntryOfOdd(d: bv8, odd: bv8)
    requires d & 1 == 0 && odd == d ^ 1
    ensures Crc16.Entry(odd) == W16.xor(Crc16.Entry(d), 0x1021)
  {
    TopOfOdd(d, odd);
    EntryOfOne();
    LawfulWord16();
    Tabular16();
    StepsXor(W16, 0x1021, ByteOnTop(d), 0x0100, W8.width);
  }

  lemma EntryOfZero()
    ensures Crc16.Entry(0) == 0
  {
    LawfulWord16();
    LeftOfZero(W16);
    StepsOfZero(W16, 0x1021, W8.width);
  }

  lemma Halves(b: bv8, h: bv8, d: bv8)
    requires h == b >> 1 && d == h << 1
    ensures h & 0x80 == 0 && d & 1 == 0 && (b == d || b == d ^ 1)
    ensures (d as nat) == 2 * (h as nat) && ((d ^ 1) as nat) == 2 * (h as nat) + 1
    ensures (h as nat) < 128 && (b != 0 ==> (h as nat) < (b as nat))
  {
  }

  lemma ConstantOfZero()
    ensures Constant(0) == 0
  {
  }

  /** The table in the header file is the one that the generator computes. */
  lemma {:induction false} ConstantIsEntry(b: bv8)
    ensures (b as nat) < 256 && Constant(b as nat) == Crc16.Entry(b)
    decreases b as nat
  {
    if b == 0 {
      EntryOfZero();
      ConstantOfZero();
    } else {
      var h := b >> 1;
      var d := h << 1;
      Halves(b, h, d);
      ConstantIsEntry(h);
      ConstantDoubles(h as nat);
      EntryDoubles(h, d);
      EntryOfOdd(d, d ^ 1);
    }
  }

  /** crc16 of the kernel module; a null pointer hashes to zero. */
  method KernelCrc16(data: array?<bv8>, len: nat) returns (crc: bv16)
    requires data != null ==> len <= data.Length
    ensures data == null ==> crc == 0
    ensures data != null ==> crc == Crc16.Checksum(data[..len])
  {
    crc := 0;
    if data == null {
      return;
    }
    ghost var message := data[..len];
    for i := 0 to len
      invariant crc == Crc16.Checksum(message[..i])
    {
      ghost var front := crc;
      var pos := TopByteXor(crc, data[i]);
      ConstantIsEntry(pos);
      crc := (crc << 8) ^ Constant(pos as nat);
      Crc16.LookupTurn(message, i, front, crc);
    }
    assert message[..len] == message;
  }

  // ---- the hash of a flow ----

  datatype FlowKey = FlowKey(localIp: bv32, remoteIp: bv32, localPort: bv16, remotePort: bv16)

  /** How a u16 lies in memory. */
  function HalfwordBytes(x: bv16, bigEndian: bool): (r: seq<bv8>)
    ensures |r| == 2
  {
    if bigEndian then [Crc16.HighByte(x), Crc16.LowByte(x)] else [Crc16.LowByte(x), Crc16.HighByte(x)]
  }

  function UpperHalf(x: bv32): bv16 {
    (x >> 16) as bv16
  }

  function LowerHalf(x: bv32): bv16 {
    (x & 0xffff) as bv16
  }

  /** The six u16 that flow_hash puts side by side. */
  function Halfword(flow: FlowKey, i: nat): bv16
    requires i < 6
  {
    if i == 0 then UpperHalf(flow.localIp)
    else if i == 1 then LowerHalf(flow.localIp)
    else if i == 2 then UpperHalf(flow.remoteIp)
    else if i == 3 then LowerHalf(flow.remoteIp)
    else if i == 4 then flow.localPort
    else flow.remotePort
  }

  /** Those from lo up to hi, viewed as bytes. */
  function Halfwords(flow: FlowKey, lo: nat, hi: nat, bigEndian: bool): (r: seq<bv8>)
    requires lo <= hi <= 6
    ensures |r| == 2 * (hi - lo)
    decreases hi
  {
    if lo == hi then []
    else Halfwords(flow, lo, hi - 1, bigEndian) + HalfwordBytes(Halfword(flow, hi - 1), bigEndian)
  }

  function TupleBytes(flow: FlowKey, bigEndian: bool): (r: seq<bv8>)
    ensures |r| == 12
  {
    Halfwords(flow, 0, 6, bigEndian)
  }

  function Hash(flow: FlowKey, bigEndian: bool): bv16 {
    Crc16.Checksum(TupleBytes(flow, bigEndian))
  }

  function WordValue(x: bv16): (v: nat)
    ensures v < 0x1_0000
  {
    x as nat
  }

  function HashValue(flow: FlowKey, bigEndian: bool): (v: nat)
    ensures v < 0x1_0000
  {
    WordValue(Hash(flow, bigEndian))
  }

  // ---- what is hashed: the four fields, byte by byte ----

  function Paired(high: bv8, low: bv8): bv16 {
    ((high as bv16) << 8) | (low as bv16)
  }

  lemma PairedValue(high: bv8, low: bv8)
    ensures WordValue(Paired(high, low)) == 256 * high as nat + low as nat
  {
  }

  lemma HalvesMakeWord(x: bv16)
    ensures Paired(Crc16.HighByte(x), Crc16.LowByte(x)) == x
  {
  }

  lemma SwappedHalves(x: bv16)
    ensures Paired(Crc16.LowByte(x), Crc16.HighByte(x)) == (x << 8) | (x >> 8)
  {
  }

  /** Which byte comes first in memory. */
  lemma HalfwordValue(x: bv16)
    ensures var big, little := HalfwordBytes(x, true), HalfwordBytes(x, false);
            WordValue(x) == 256 * big[0] as nat + big[1] as nat == little[0] as nat + 256 * little[1] as nat
  {
    HalvesMakeWord(x);
    PairedValue(Crc16.HighByte(x), Crc16.LowByte(x));
  }

  lemma HalvesMakeAddress(x: bv32)
    ensures x == ((UpperHalf(x) as bv32) << 16) | (LowerHalf(x) as bv32)
  {
  }

  function HalfwordBits(flow: FlowKey, n: nat): Bits
    requires n <= 6
  {
    if n == 0 then [] else HalfwordBits(flow, n - 1) + WordBits(W16, Halfword(flow, n - 1))
  }

  lemma {:induction false} BitsOfHalfwords(flow: FlowKey, n: nat)
    requires n <= 6
    ensures BitsOf(W8, Halfwords(flow, 0, n, true)) == HalfwordBits(flow, n)
  {
    if n > 0 {
      var x := Halfword(flow, n - 1);
      BitsOfHalfwords(flow, n - 1);
      BitsOfConcat(W8, Halfwords(flow, 0, n - 1, true), HalfwordBytes(x, true));
      Crc16.TwoBytes(Crc16.HighByte(x), Crc16.LowByte(x));
      Crc16.BytesOfWord(x);
    }
  }

  function AddressBits(x: bv32): Bits {
    WordBits(W16, UpperHalf(x)) + WordBits(W16, LowerHalf(x))
  }

  /** On a big-endian host the hashed message is the four fields side by side, each from its top bit down. */
  lemma FieldsInOrder(flow: FlowKey)
    ensures BitsOf(W8, TupleBytes(flow, true)) ==
            AddressBits(flow.localIp) + AddressBits(flow.remoteIp) +
            WordBits(W16, flow.localPort) + WordBits(W16, flow.remotePort)
  {
    var none: nat := 0;
    BitsOfHalfwords(flow, none + 6);
    FourFields(flow, none);
  }

  lemma FourWords(a: Bits, b: Bits, c: Bits, d: Bits)
    ensures [] + a + b + c + d == (a + b) + (c + d)
  {
  }

  lemma OneMoreWord(flow: FlowKey, n: nat, x: bv16)
    requires n < 6 && x == Halfword(flow, n)
    ensures HalfwordBits(flow, n + 1) == HalfwordBits(flow, n) + WordBits(W16, x)
  {
  }

  lemma FourFields(flow: FlowKey, none: nat)
    requires none == 0
    ensures HalfwordBits(flow, none + 6) ==
            AddressBits(flow.localIp) + AddressBits(flow.remoteIp) +
            WordBits(W16, flow.localPort) + WordBits(W16, flow.remotePort)
  {
    var a, b, c, d := UpperHalf(flow.localIp), LowerHalf(flow.localIp), UpperHalf(flow.remoteIp), LowerHalf(flow.remoteIp);
    OneMoreWord(flow, none, a);
    OneMoreWord(flow, none + 1, b);
    OneMoreWord(flow, none + 2, c);
    OneMoreWord(flow, none + 3, d);
    OneMoreWord(flow, none + 4, flow.localPort);
    OneMoreWord(flow, none + 5, flow.remotePort);
    FourWords(WordBits(W16, a), WordBits(W16, b), WordBits(W16, c), WordBits(W16, d));
  }

  // ---- flows that differ in one half-word never collide in the hash ----

  lemma OneHalfwordDiffers(front: seq<bv8>, a: bv16, b: bv16, back: seq<bv8>, bigEndian: bool)
    requires a != b
    ensures Crc16.Checksum(front + HalfwordBytes(a, bigEndian) + back) !=
            Crc16.Checksum(front + HalfwordBytes(b, bigEndian) + back)
  {
    var p, q := HalfwordBytes(a, bigEndian), HalfwordBytes(b, bigEndian);
    BitsOfConcat(W8, front + p, back);
    BitsOfConcat(W8, front + q, back);
    BitsOfConcat(W8, front, p);
    BitsOfConcat(W8, front, q);
    HalfwordBitsDiffer(a, b, bigEndian);
    MiddleDiffers(BitsOf(W8, front), BitsOf(W8, p), BitsOf(W8, q), BitsOf(W8, back));
    Crc16.BurstIsDetected(front + p + back, front + q + back, |BitsOf(W8, front)|);
  }

  lemma MiddleDiffers(front: Bits, p: Bits, q: Bits, back: Bits)
    requires |p| == |q| && p != q
    ensures DifferWithin(front + p + back, front + q + back, |front|, |p|)
  {
    assert (front + p + back)[|front|..|front| + |p|] == p;
    assert (front + q + back)[|front|..|front| + |p|] == q;
  }

  lemma HalfwordBitsDiffer(a: bv16, b: bv16, bigEndian: bool)
    requires a != b
    ensures BitsOf(W8, HalfwordBytes(a, bigEndian)) != BitsOf(W8, HalfwordBytes(b, bigEndian))
  {
    var ah, al, bh, bl := Crc16.HighByte(a), Crc16.LowByte(a), Crc16.HighByte(b), Crc16.LowByte(b);
    Crc16.TwoBytes(ah, al);
    Crc16.TwoBytes(bh, bl);
    Crc16.TwoBytes(al, ah);
    Crc16.TwoBytes(bl, bh);
    Crc16.SameBytes(ah, al, bh, bl);
    Crc16.SameBytes(al, ah, bl, bh);
    SameHalvesSameWord(a, b);
  }

  lemma SameHalvesSameWord(a: bv16, b: bv16)
    ensures Crc16.HighByte(a) == Crc16.HighByte(b) && Crc16.LowByte(a) == Crc16.LowByte(b) ==> a == b
  {
  }

  lemma {:induction false} SplitHalfwords(flow: FlowKey, lo: nat, mid: nat, hi: nat, bigEndian: bool)
    requires lo <= mid <= hi <= 6
    ensures Halfwords(flow, lo, hi, bigEndian) ==
            Halfwords(flow, lo, mid, bigEndian) + Halfwords(flow, mid, hi, bigEndian)
    decreases hi
  {
    if mid == hi {
      assert Halfwords(flow, mid, hi, bigEndian) == [];
    } else {
      SplitHalfwords(flow, lo, mid, hi - 1, bigEndian);
      Regroup(Halfwords(flow, lo, mid, bigEndian), Halfwords(flow, mid, hi - 1, bigEndian),
              HalfwordBytes(Halfword(flow, hi - 1), bigEndian));
    }
  }

  lemma Regroup(a: seq<bv8>, b: seq<bv8>, c: seq<bv8>)
    ensures (a + b) + c == a + (b + c)
  {
  }

  lemma {:induction false} SameHalfwords(a: FlowKey, b: FlowKey, lo: nat, hi: nat, bigEndian: bool)
    requires lo <= hi <= 6 && forall k :: lo <= k < hi ==> Halfword(a, k) == Halfword(b, k)
    ensures Halfwords(a, lo, hi, bigEndian) == Halfwords(b, lo, hi, bigEndian)
    decreases hi
  {
    if lo < hi {
      SameHalfwords(a, b, lo, hi - 1, bigEndian);
    }
  }

  lemma AroundHalfword(flow: FlowKey, i: nat, bigEndian: bool)
    requires i < 6
    ensures TupleBytes(flow, bigEndian) ==
            Halfwords(flow, 0, i, bigEndian) + HalfwordBytes(Halfword(flow, i), bigEndian) +
            Halfwords(flow, i + 1, 6, bigEndian)
  {
    var six: nat := 6;
    SplitHalfwords(flow, 0, i + 1, six, bigEndian);
  }

  /** Flows whose hashed half-words differ in exactly one place, be it half of an address or a
      port, have different hashes, on hosts of either byte order. */
  lemma OneHalfwordSeparates(a: FlowKey, b: FlowKey, i: nat, bigEndian: bool)
    requires i < 6 && Halfword(a, i) != Halfword(b, i)
    requires forall k: nat :: k < 6 && k != i ==> Halfword(a, k) == Halfword(b, k)
    ensures Hash(a, bigEndian) != Hash(b, bigEndian)
  {
    AroundHalfword(a, i, bigEndian);
    AroundHalfword(b, i, bigEndian);
    SameHalfwords(a, b, 0, i, bigEndian);
    SameHalfwords(a, b, i + 1, 6, bigEndian);
    OneHalfwordDiffers(Halfwords(a, 0, i, bigEndian), Halfword(a, i), Halfword(b, i),
                       Halfwords(a, i + 1, 6, bigEndian), bigEndian);
  }

  lemma RemotePortsSeparate(flow: FlowKey, port: bv16, bigEndian: bool)
    requires port != flow.remotePort
    ensures Hash(flow.(remotePort := port), bigEndian) != Hash(flow, bigEndian)
  {
    OneHalfwordSeparates(flow.(remotePort := port), flow, 5, bigEndian);
  }

  lemma LocalPortsSeparate(flow: FlowKey, port: bv16, bigEndian: bool)
    requires port != flow.localPort
    ensures Hash(flow.(localPort := port), bigEndian) != Hash(flow, bigEndian)
  {
    OneHalfwordSeparates(flow.(localPort := port), flow, 4, bigEndian);
  }
}
