/** The bv16 and bv8 registers obey the laws that `CrcRegister` asks for.

    Facts about single machine operations are stated apart from the laws that use them. */
module MachineWords {
  import opened BitDivision
  import opened CrcRegister

  const W16: Word<bv16> :=
    Word(16, 0, (x: bv16) => x & 0x8000 != 0, (x: bv16) => x << 1, (a: bv16, b: bv16) => a ^ b)

  const W8: Word<bv8> :=
    Word(8, 0, (x: bv8) => x & 0x80 != 0, (x: bv8) => x << 1, (a: bv8, b: bv8) => a ^ b)

  /** A byte enters at the top of the 16-bit register. */
  const R16: Register<bv16, bv8> :=
    Register(W16, W8,
             (b: bv8) => ByteOnTop(b), (x: bv16, b: bv8) => TopByteXor(x, b),
             (x: bv16) => x & 0x00ff, (x: bv16) => x << 8)

  function ByteOnTop(b: bv8): bv16 {
    (b as bv16) << 8
  }

  function TopByteXor(x: bv16, b: bv8): bv8 {
    ((x >> 8) as bv8) ^ b
  }

  /** A byte fills the 8-bit register, so a table look-up leaves nothing alone. */
  const R8: Register<bv8, bv8> :=
    Register(W8, W8, (b: bv8) => b, (x: bv8, b: bv8) => x ^ b, (x: bv8) => 0, (x: bv8) => 0)

  // ---- bv16 ----

  lemma TopXor16(a: bv16, b: bv16)
    ensures ((a ^ b) & 0x8000 != 0) == ((a & 0x8000 != 0) != (b & 0x8000 != 0))
  {
  }

  lemma LeftXor16(a: bv16, b: bv16)
    ensures (a ^ b) << 1 == (a << 1) ^ (b << 1)
  {
  }

  lemma Blank16(x: bv16)
    requires x & 0x8000 == 0 && x << 1 == 0
    ensures x == 0
  {
  }

  lemma XorUndo16(a: bv16, b: bv16)
    ensures (a ^ b) ^ b == a
  {
  }

  lemma XorSwap16(a: bv16, b: bv16, c: bv16)
    ensures (a ^ c) ^ b == (a ^ b) ^ c
  {
  }

  lemma XorMove16(a: bv16, b: bv16, c: bv16)
    ensures a ^ (b ^ c) == (a ^ b) ^ c
  {
  }

  lemma XorCommute16(a: bv16, b: bv16)
    ensures a ^ b == b ^ a
  {
  }

  lemma TopIsLinear16()
    ensures TopIsLinear(W16)
  {
    forall a, b ensures W16.top(W16.xor(a, b)) == (W16.top(a) != W16.top(b)) {
      TopXor16(a, b);
    }
  }

  lemma LeftIsLinear16()
    ensures LeftIsLinear(W16)
  {
    forall a, b ensures W16.left(W16.xor(a, b)) == W16.xor(W16.left(a), W16.left(b)) {
      LeftXor16(a, b);
    }
  }

  lemma OnlyZeroIsBlank16()
    ensures OnlyZeroIsBlank(W16)
  {
    forall x | !W16.top(x) && W16.left(x) == W16.zero ensures x == W16.zero {
      Blank16(x);
    }
  }

  lemma XorUndoes16()
    ensures XorUndoes(W16)
  {
    forall a, c ensures W16.xor(W16.xor(a, c), c) == a {
      XorUndo16(a, c);
    }
  }

  lemma XorSwaps16()
    ensures XorSwaps(W16)
  {
    forall a, b, c ensures W16.xor(W16.xor(a, c), b) == W16.xor(W16.xor(a, b), c) {
      XorSwap16(a, b, c);
    }
  }

  lemma XorMoves16()
    ensures XorMoves(W16)
  {
    forall a, b, c ensures W16.xor(a, W16.xor(b, c)) == W16.xor(W16.xor(a, b), c) {
      XorMove16(a, b, c);
    }
  }

  lemma XorCommutes16()
    ensures XorCommutes(W16)
  {
    forall a, b ensures W16.xor(a, b) == W16.xor(b, a) {
      XorCommute16(a, b);
    }
  }

  lemma LawfulWord16()
    ensures LawfulWord(W16)
  {
    ShiftsOut16();
    TopIsLinear16();
    LeftIsLinear16();
    OnlyZeroIsBlank16();
    XorUndoes16();
  }

  lemma LeftEight(x: bv16)
    ensures Left(W16, x, 8) == x << 8
  {
  }

  lemma ShiftsOut16()
    ensures ShiftsOut(W16)
  {
    forall x ensures Left(W16, x, W16.width) == W16.zero {
      LeftEight(x);
      LeftEight(x << 8);
      LeftAdd(W16, x, 8, 8);
    }
  }

  // ---- bv8 ----

  lemma TopXor8(a: bv8, b: bv8)
    ensures ((a ^ b) & 0x80 != 0) == ((a & 0x80 != 0) != (b & 0x80 != 0))
  {
  }

  lemma LeftXor8(a: bv8, b: bv8)
    ensures (a ^ b) << 1 == (a << 1) ^ (b << 1)
  {
  }

  lemma Blank8(x: bv8)
    requires x & 0x80 == 0 && x << 1 == 0
    ensures x == 0
  {
  }

  lemma XorUndo8(a: bv8, b: bv8)
    ensures (a ^ b) ^ b == a
  {
  }

  lemma TopIsLinear8()
    ensures TopIsLinear(W8)
  {
    forall a, b ensures W8.top(W8.xor(a, b)) == (W8.top(a) != W8.top(b)) {
      TopXor8(a, b);
    }
  }

  lemma LeftIsLinear8()
    ensures LeftIsLinear(W8)
  {
    forall a, b ensures W8.left(W8.xor(a, b)) == W8.xor(W8.left(a), W8.left(b)) {
      LeftXor8(a, b);
    }
  }

  lemma OnlyZeroIsBlank8()
    ensures OnlyZeroIsBlank(W8)
  {
    forall x | !W8.top(x) && W8.left(x) == W8.zero ensures x == W8.zero {
      Blank8(x);
    }
  }

  lemma XorUndoes8()
    ensures XorUndoes(W8)
  {
    forall a, c ensures W8.xor(W8.xor(a, c), c) == a {
      XorUndo8(a, c);
    }
  }

  lemma XorSwap8(a: bv8, b: bv8, c: bv8)
    ensures (a ^ c) ^ b == (a ^ b) ^ c
  {
  }

  lemma XorMove8(a: bv8, b: bv8, c: bv8)
    ensures a ^ (b ^ c) == (a ^ b) ^ c
  {
  }

  lemma XorCommute8(a: bv8, b: bv8)
    ensures a ^ b == b ^ a
  {
  }

  lemma XorSwaps8()
    ensures XorSwaps(W8)
  {
    forall a, b, c ensures W8.xor(W8.xor(a, c), b) == W8.xor(W8.xor(a, b), c) {
      XorSwap8(a, b, c);
    }
  }

  lemma XorMoves8()
    ensures XorMoves(W8)
  {
    forall a, b, c ensures W8.xor(a, W8.xor(b, c)) == W8.xor(W8.xor(a, b), c) {
      XorMove8(a, b, c);
    }
  }

  lemma XorCommutes8()
    ensures XorCommutes(W8)
  {
    forall a, b ensures W8.xor(a, b) == W8.xor(b, a) {
      XorCommute8(a, b);
    }
  }

  lemma XorRegroups8()
    ensures XorRegroups(W8)
  {
    XorSwaps8();
    XorMoves8();
    XorCommutes8();
  }

  lemma LawfulWord8()
    ensures LawfulWord(W8)
  {
    ShiftsOut8();
    TopIsLinear8();
    LeftIsLinear8();
    OnlyZeroIsBlank8();
    XorUndoes8();
  }

  lemma LeftByte(x: bv8)
    ensures Left(W8, x, 8) == 0
  {
  }

  lemma ShiftsOut8()
    ensures ShiftsOut(W8)
  {
    forall x ensures Left(W8, x, W8.width) == W8.zero {
      LeftByte(x);
    }
  }

  // ---- the 16-bit register ----

  lemma ByteAtTop(b: bv8, w: bv16)
    requires w == (b as bv16) << 8
    ensures w << 1 == ((b << 1) as bv16) << 8
    ensures (w & 0x8000 != 0) == (b & 0x80 != 0)
  {
  }

  lemma {:induction false} ByteAtTopBits(b: bv8, w: bv16, n: nat)
    requires w == (b as bv16) << 8
    ensures TopBits(W16, w, n) == TopBits(W8, b, n)
    decreases n
  {
    if n > 0 {
      ByteAtTop(b, w);
      ByteAtTopBits(b << 1, w << 1, n - 1);
    }
  }

  lemma TakesInAtTop16()
    ensures TakesInAtTop(R16)
  {
    LawfulWord8();
    LeftOfZero(W8);
    ZeroTopBits(W8, 8);
    forall b ensures WordBits(W16, R16.intake(b)) == WordBits(W8, b) + Zeros(8) {
      ByteAtTopBits(b, R16.intake(b), 16);
      TopBitsSplit(W8, b, 8, 8);
    }
  }

  lemma SplitBytes(x: bv16, b: bv8)
    ensures x ^ ((b as bv16) << 8) == (x & 0x00ff) ^ (((((x >> 8) as bv8) ^ b) as bv16) << 8)
  {
  }

  lemma TableSplits16()
    ensures TableSplits(R16)
  {
    forall x, b ensures W16.xor(x, R16.intake(b)) == W16.xor(R16.low(x), R16.intake(R16.index(x, b))) {
      SplitBytes(x, b);
    }
  }

  lemma LowByte(x: bv16, low: bv16)
    requires low == x & 0x00ff
    ensures low & 0xff00 == 0 && low << 8 == x << 8
  {
  }

  lemma LowByteIsClear(low: bv16)
    requires low & 0xff00 == 0
    ensures TopBits(W16, low, 8) == Zeros(8)
  {
    assert TopBits(W16, low, 8) == [false, false, false, false, false, false, false, false];
  }

  lemma LowIsClear16()
    ensures LowIsClear(R16)
  {
    forall x
      ensures TopBits(W16, R16.low(x), W8.width) == Zeros(W8.width)
      ensures Left(W16, R16.low(x), W8.width) == R16.rest(x)
    {
      LowByte(x, R16.low(x));
      LowByteIsClear(R16.low(x));
      LeftEight(R16.low(x));
    }
  }

  lemma Lawful16()
    ensures Lawful(R16)
  {
    LawfulWord16();
    LawfulWord8();
    TakesInAtTop16();
  }

  lemma Tabular16()
    ensures Tabular(R16)
  {
    XorSwaps16();
    XorMoves16();
    XorCommutes16();
    TableSplits16();
    LowIsClear16();
  }

  // ---- the 8-bit register ----

  lemma Lawful8()
    ensures Lawful(R8)
  {
    LawfulWord8();
    assert TakesInAtTop(R8) by {
      forall b ensures WordBits(W8, R8.intake(b)) == WordBits(W8, b) + Zeros(0) {
      }
    }
  }

  // ---- the operations the programs spell out ----

  lemma XorIs16(a: bv16, b: bv16)
    ensures W16.xor(a, b) == a ^ b
  {
  }

  lemma LeftIs16(a: bv16)
    ensures W16.left(a) == a << 1
  {
  }

  lemma TopIs16(a: bv16)
    ensures W16.top(a) == (a & 0x8000 != 0)
  {
  }

  /** One turn of the inner loop of the 16-bit programs. */
  lemma StepIs16(g: bv16, crc: bv16, shifted: bv16, next: bv16)
    requires shifted == crc << 1
    requires next == if crc & 0x8000 != 0 then shifted ^ g else shifted
    ensures Step(W16, g, crc) == next
  {
    XorIs16(shifted, g);
    LeftIs16(crc);
    TopIs16(crc);
  }

  lemma XorIs8(a: bv8, b: bv8)
    ensures W8.xor(a, b) == a ^ b
  {
  }

  lemma LeftIs8(a: bv8)
    ensures W8.left(a) == a << 1
  {
  }

  lemma TopIs8(a: bv8)
    ensures W8.top(a) == (a & 0x80 != 0)
  {
  }

  /** One turn of the inner loop of the 8-bit programs. */
  lemma StepIs8(g: bv8, crc: bv8, shifted: bv8, next: bv8)
    requires shifted == crc << 1
    requires next == if crc & 0x80 != 0 then shifted ^ g else shifted
    ensures Step(W8, g, crc) == next
  {
    XorIs8(shifted, g);
    LeftIs8(crc);
    TopIs8(crc);
  }

  lemma LookupLaw16(g: bv16, crc: bv16, b: bv8)
    ensures ByteStep(R16, g, crc, b) == W16.xor(R16.rest(crc), TableEntry(R16, g, R16.index(crc, b)))
  {
    Lawful16();
    Tabular16();
    LookupIsByteStep(R16, g, crc, b);
  }

  /** One table look-up of the 16-bit programs. */
  lemma LookupIs16(g: bv16, crc: bv16, b: bv8, rest: bv16, entry: bv16, next: bv16)
    requires entry == TableEntry(R16, g, TopByteXor(crc, b))
    requires rest == crc << 8 && next == rest ^ entry
    ensures ByteStep(R16, g, crc, b) == next
  {
    LookupLaw16(g, crc, b);
    XorIs16(rest, entry);
    RestIs16(crc);
    IndexIs16(crc, b);
  }

  lemma IndexIs16(x: bv16, b: bv8)
    ensures R16.index(x, b) == TopByteXor(x, b)
  {
  }

  lemma RestIs16(x: bv16)
    ensures R16.rest(x) == x << 8
  {
  }

  /** Taking in a byte, as the 16-bit bitwise program does it. */
  lemma IntakeIs16(g: bv16, crc: bv16, b: bv8)
    ensures ByteStep(R16, g, crc, b) == Steps(W16, g, crc ^ ByteOnTop(b), W8.width)
  {
    XorIs16(crc, ByteOnTop(b));
  }
}
