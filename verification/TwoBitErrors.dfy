/** Two flipped bits: a CRC misses them exactly if their distance is a multiple of the order of x
    modulo the generator polynomial. */
module TwoBitErrors {
  import opened BitDivision
  import opened CrcRegister
  import opened MachineWords
  import opened Periods
  import Crc16
  import Crc8

  // ---- products modulo the generator ----

  /** One step of Horner's rule: the top bit of z decides whether y is added. */
  function MulStep<W>(o: Word<W>, g: W, z: W, y: W, acc: W): W {
    if o.top(z) then o.xor(Step(o, g, acc), y) else Step(o, g, acc)
  }

  function Mul4<W>(o: Word<W>, g: W, z: W, y: W, acc: W): W {
    var z1 := o.left(z);
    var z2 := o.left(z1);
    MulStep(o, g, o.left(z2), y, MulStep(o, g, z2, y, MulStep(o, g, z1, y, MulStep(o, g, z, y, acc))))
  }

  function Left4<W>(o: Word<W>, z: W): W {
    o.left(o.left(o.left(o.left(z))))
  }

  function Mul8<W>(o: Word<W>, g: W, z: W, y: W, acc: W): W {
    Mul4(o, g, Left4(o, z), y, Mul4(o, g, z, y, acc))
  }

  function Mul16<W>(o: Word<W>, g: W, z: W, y: W): W {
    Mul8(o, g, Left4(o, Left4(o, z)), y, Mul8(o, g, z, y, o.zero))
  }

  lemma StepsCommute<W>(o: Word<W>, g: W, x: W, n: nat)
    ensures Steps(o, g, Step(o, g, x), n) == Step(o, g, Steps(o, g, x, n))
  {
    StepsSnoc(o, g, x, n);
  }

  lemma {:induction false} StepsAdd<W>(o: Word<W>, g: W, x: W, a: nat, b: nat)
    ensures Steps(o, g, Steps(o, g, x, a), b) == Steps(o, g, x, a + b)
    decreases a
  {
    if a > 0 {
      StepsAdd(o, g, Step(o, g, x), a - 1, b);
    }
  }

  lemma StepsOfMulStep<W(!new)>(o: Word<W>, g: W, z: W, y: W, acc: W, n: nat)
    requires LawfulWord(o) && XorRegroups(o)
    ensures Steps(o, g, MulStep(o, g, z, y, acc), n) == MulStep(o, g, z, Steps(o, g, y, n), Steps(o, g, acc, n))
  {
    StepsXor(o, g, Step(o, g, acc), y, n);
    StepsCommute(o, g, acc, n);
  }

  lemma StepsOfMul4<W(!new)>(o: Word<W>, g: W, z: W, y: W, acc: W, n: nat)
    requires LawfulWord(o) && XorRegroups(o)
    ensures Steps(o, g, Mul4(o, g, z, y, acc), n) == Mul4(o, g, z, Steps(o, g, y, n), Steps(o, g, acc, n))
  {
    var z1 := o.left(z);
    var z2 := o.left(z1);
    var a := MulStep(o, g, z, y, acc);
    var b := MulStep(o, g, z1, y, a);
    var c := MulStep(o, g, z2, y, b);
    StepsOfMulStep(o, g, z, y, acc, n);
    StepsOfMulStep(o, g, z1, y, a, n);
    StepsOfMulStep(o, g, z2, y, b, n);
    StepsOfMulStep(o, g, o.left(z2), y, c, n);
  }

  lemma StepsOfMul8<W(!new)>(o: Word<W>, g: W, z: W, y: W, acc: W, n: nat)
    requires LawfulWord(o) && XorRegroups(o)
    ensures Steps(o, g, Mul8(o, g, z, y, acc), n) == Mul8(o, g, z, Steps(o, g, y, n), Steps(o, g, acc, n))
  {
    StepsOfMul4(o, g, z, y, acc, n);
    StepsOfMul4(o, g, Left4(o, z), y, Mul4(o, g, z, y, acc), n);
  }

  lemma StepsOfNothing<W(!new)>(o: Word<W>, g: W, n: nat)
    requires LawfulWord(o)
    ensures Steps(o, g, o.zero, n) == o.zero
  {
    LeftOfZero(o);
    StepsOfZero(o, g, n);
  }

  lemma StepsOfMul16<W(!new)>(o: Word<W>, g: W, z: W, y: W, n: nat)
    requires LawfulWord(o) && XorRegroups(o)
    ensures Steps(o, g, Mul16(o, g, z, y), n) == Mul16(o, g, z, Steps(o, g, y, n))
  {
    StepsOfMul8(o, g, z, y, o.zero, n);
    StepsOfMul8(o, g, Left4(o, Left4(o, z)), y, Mul8(o, g, z, y, o.zero), n);
    StepsOfNothing(o, g, n);
  }

  // ---- powers of x ----

  /** x^n modulo the generator is c. */
  ghost predicate Power<W>(o: Word<W>, g: W, one: W, n: nat, c: W) {
    Steps(o, g, one, n) == c
  }

  /** Powers of x multiply like polynomials. */
  lemma Times16<W>(o: Word<W>, g: W, one: W, a: nat, ca: W, b: nat, cb: W, c: W)
    requires Steps(o, g, Mul16(o, g, ca, one), b) == Mul16(o, g, ca, Steps(o, g, one, b))
    requires Power(o, g, one, a, ca) && Power(o, g, one, b, cb)
    requires Mul16(o, g, ca, one) == ca && Mul16(o, g, ca, cb) == c
    ensures Power(o, g, one, a + b, c)
  {
    StepsAdd(o, g, one, a, b);
  }

  lemma Times8<W>(o: Word<W>, g: W, one: W, a: nat, ca: W, b: nat, cb: W, c: W)
    requires Steps(o, g, Mul8(o, g, ca, one, o.zero), b) == Mul8(o, g, ca, Steps(o, g, one, b), Steps(o, g, o.zero, b))
    requires Steps(o, g, o.zero, b) == o.zero
    requires Power(o, g, one, a, ca) && Power(o, g, one, b, cb)
    requires Mul8(o, g, ca, one, o.zero) == ca && Mul8(o, g, ca, cb, o.zero) == c
    ensures Power(o, g, one, a + b, c)
  {
    StepsAdd(o, g, one, a, b);
  }

  // ---- the powers that are 1 ----

  ghost function Period<W(!new)>(o: Word<W>, g: W, one: W): nat -> bool {
    (k: nat) => Steps(o, g, one, k) == one
  }

  lemma PeriodSums<W(!new)>(o: Word<W>, g: W, one: W)
    ensures HasSums(Period(o, g, one))
  {
    forall a: nat, b: nat | Steps(o, g, one, a) == one && Steps(o, g, one, b) == one
      ensures Steps(o, g, one, a + b) == one
    {
      StepsAdd(o, g, one, a, b);
    }
  }

  lemma PeriodDifferences<W(!new)>(o: Word<W>, g: W, one: W)
    ensures HasDifferences(Period(o, g, one))
  {
    forall a: nat, b: nat | Steps(o, g, one, a) == one && Steps(o, g, one, b) == one && a >= b
      ensures Steps(o, g, one, a - b) == one
    {
      StepsAdd(o, g, one, b, a - b);
    }
  }

  lemma PeriodsClosed<W(!new)>(o: Word<W>, g: W, one: W)
    ensures Closed(Period(o, g, one))
  {
    PeriodSums(o, g, one);
    PeriodDifferences(o, g, one);
  }

  /** Once some power comes back to 1, a power of x repeats exactly after a period. */
  lemma PeriodOfPower<W(!new)>(o: Word<W>, g: W, one: W, w: nat, c: W, n: nat, d: nat)
    requires Power(o, g, one, w, c) && w <= n && Steps(o, g, one, n) == one
    ensures Steps(o, g, c, d) == c <==> Steps(o, g, one, d) == one
  {
    StepsAdd(o, g, one, w, d);
    StepsAdd(o, g, one, d, w);
    StepsAdd(o, g, one, w, n - w);
    StepsAdd(o, g, one, w + d, n - w);
    StepsAdd(o, g, one, n, d);
  }

  // ---- messages ----

  /** The generator's remainder comes back after exactly the multiples of n. */
  ghost predicate Repeats<W(!new)>(o: Word<W>, g: W, n: nat)
    requires n > 0
  {
    forall d: nat :: Steps(o, g, g, d) == g <==> d % n == 0
  }

  lemma SameBits<W(!new)>(o: Word<W>, a: W, b: W)
    requires LawfulWord(o)
    ensures WordBits(o, a) == WordBits(o, b) <==> a == b
  {
    if WordBits(o, a) == WordBits(o, b) {
      SameBitsSameWord(o, a, b);
    }
  }

  lemma TwoBitsInBits<W(!new), B(!new)>(c: Register<W, B>, g: W, a: seq<B>, b: seq<B>, before: nat, d: nat, after: nat)
    requires Lawful(c) && WordBits(c.word, g)[c.word.width - 1] && |a| == |b| && d > 0
    requires Xor(BitsOf(c.byte, a), BitsOf(c.byte, b)) == TwoBits(before, d, after)
    ensures WordBits(c.word, Crc(c, g, a)) == WordBits(c.word, Crc(c, g, b)) <==>
              WordBits(c.word, Steps(c.word, g, g, d)) == WordBits(c.word, g)
  {
    CrcBits(c, g, a);
    CrcBits(c, g, b);
    StepsBits(c.word, g, g, d);
    TwoBitsDetected(WordBits(c.word, g), BitsOf(c.byte, a), BitsOf(c.byte, b), before, d, after);
  }

  lemma TwoBitsMissed<W(!new), B(!new)>(c: Register<W, B>, g: W, a: seq<B>, b: seq<B>, before: nat, d: nat, after: nat,
                                        n: nat)
    requires Lawful(c) && WordBits(c.word, g)[c.word.width - 1] && |a| == |b| && d > 0
    requires n > 0 && Repeats(c.word, g, n)
    requires Xor(BitsOf(c.byte, a), BitsOf(c.byte, b)) == TwoBits(before, d, after)
    ensures Crc(c, g, a) == Crc(c, g, b) <==> d % n == 0
  {
    TwoBitsInBits(c, g, a, b, before, d, after);
    SameBits(c.word, Crc(c, g, a), Crc(c, g, b));
    SameBits(c.word, Steps(c.word, g, g, d), g);
  }

  // ---- CRC-16: the order of x is 32767 ----

  lemma Linear16(z: bv16, y: bv16, n: nat)
    ensures Steps(W16, 0x1021, Mul16(W16, 0x1021, z, y), n) == Mul16(W16, 0x1021, z, Steps(W16, 0x1021, y, n))
  {
    LawfulWord16();
    Tabular16();
    StepsOfMul16(W16, 0x1021, z, y, n);
  }

  ghost predicate Power16(n: nat, c: bv16) {
    Power(W16, 0x1021, 1, n, c)
  }

  predicate Makes16(ca: bv16, cb: bv16, c: bv16) {
    Mul16(W16, 0x1021, ca, 1) == ca && Mul16(W16, 0x1021, ca, cb) == c
  }

  lemma Product16(a: nat, ca: bv16, b: nat, cb: bv16, n: nat, c: bv16)
    requires Power16(a, ca) && Power16(b, cb) && n == a + b && Makes16(ca, cb, c)
    ensures Power16(n, c)
  {
    Linear16(ca, 1, b);
    Times16(W16, 0x1021, 1, a, ca, b, cb, c);
  }

  lemma PowersOne16()
    ensures Power16(1, 0x0002)
  {
    StepsUnfold(W16, 0x1021, 1, 1);
  }

  lemma SquareProducts16()
    ensures Makes16(0x0002, 0x0002, 0x0004)
    ensures Makes16(0x0004, 0x0004, 0x0010)
    ensures Makes16(0x0010, 0x0010, 0x0100)
    ensures Makes16(0x0100, 0x0100, 0x1021)
    ensures Makes16(0x1021, 0x1021, 0x3730)
    ensures Makes16(0x3730, 0x3730, 0xb861)
    ensures Makes16(0xb861, 0xb861, 0xaefc)
    ensures Makes16(0xaefc, 0xaefc, 0x8e29)
  {
  }

  lemma SquarePowers16()
    ensures Power16(8, 0x0100)
    ensures Power16(16, 0x1021)
    ensures Power16(32, 0x3730)
    ensures Power16(64, 0xb861)
    ensures Power16(128, 0xaefc)
    ensures Power16(256, 0x8e29)
  {
    PowersOne16();
    SquareProducts16();
    Product16(1, 0x0002, 1, 0x0002, 2, 0x0004);
    Product16(2, 0x0004, 2, 0x0004, 4, 0x0010);
    Product16(4, 0x0010, 4, 0x0010, 8, 0x0100);
    Product16(8, 0x0100, 8, 0x0100, 16, 0x1021);
    Product16(16, 0x1021, 16, 0x1021, 32, 0x3730);
    Product16(32, 0x3730, 32, 0x3730, 64, 0xb861);
    Product16(64, 0xb861, 64, 0xb861, 128, 0xaefc);
    Product16(128, 0xaefc, 128, 0xaefc, 256, 0x8e29);
  }

  lemma ProductsTo4096()
    ensures Makes16(0x8e29, 0x8e29, 0x13fc)
    ensures Makes16(0x13fc, 0x13fc, 0x36c4)
    ensures Makes16(0x36c4, 0x36c4, 0xfd50)
    ensures Makes16(0xfd50, 0xfd50, 0xaa9e)
    ensures Makes16(0x0100, 0x0002, 0x0200)
    ensures Makes16(0x1021, 0x0200, 0x6662)
    ensures Makes16(0xaefc, 0xb861, 0x650b)
    ensures Makes16(0x650b, 0x6662, 0x48e3)
  {
  }

  lemma PowersTo4096()
    ensures Power16(9, 0x0200)
    ensures Power16(217, 0x48e3)
    ensures Power16(512, 0x13fc)
    ensures Power16(1024, 0x36c4)
    ensures Power16(4096, 0xaa9e)
  {
    PowersOne16();
    SquarePowers16();
    ProductsTo4096();
    Product16(256, 0x8e29, 256, 0x8e29, 512, 0x13fc);
    Product16(512, 0x13fc, 512, 0x13fc, 1024, 0x36c4);
    Product16(1024, 0x36c4, 1024, 0x36c4, 2048, 0xfd50);
    Product16(2048, 0xfd50, 2048, 0xfd50, 4096, 0xaa9e);
    Product16(8, 0x0100, 1, 0x0002, 9, 0x0200);
    Product16(16, 0x1021, 9, 0x0200, 25, 0x6662);
    Product16(128, 0xaefc, 64, 0xb861, 192, 0x650b);
    Product16(192, 0x650b, 25, 0x6662, 217, 0x48e3);
  }

  lemma ProductsTo32767()
    ensures Makes16(0x36c4, 0x3730, 0xf147)
    ensures Makes16(0xf147, 0x0002, 0xf2af)
    ensures Makes16(0xaa9e, 0x13fc, 0x54a0)
    ensures Makes16(0x54a0, 0xb861, 0x0106)
    ensures Makes16(0x0106, 0x0200, 0x2c42)
    ensures Makes16(0x2c42, 0x2c42, 0x8635)
    ensures Makes16(0x8635, 0x2c42, 0xdc5c)
    ensures Makes16(0xdc5c, 0xdc5c, 0x762b)
    ensures Makes16(0x762b, 0x2c42, 0x0001)
  {
  }

  lemma PowersTo32767()
    ensures Power16(1057, 0xf2af)
    ensures Power16(4681, 0x2c42)
    ensures Power16(32767, 0x0001)
  {
    PowersOne16();
    SquarePowers16();
    PowersTo4096();
    ProductsTo32767();
    Product16(1024, 0x36c4, 32, 0x3730, 1056, 0xf147);
    Product16(1056, 0xf147, 1, 0x0002, 1057, 0xf2af);
    Product16(4096, 0xaa9e, 512, 0x13fc, 4608, 0x54a0);
    Product16(4608, 0x54a0, 64, 0xb861, 4672, 0x0106);
    Product16(4672, 0x0106, 9, 0x0200, 4681, 0x2c42);
    Product16(4681, 0x2c42, 4681, 0x2c42, 9362, 0x8635);
    Product16(9362, 0x8635, 4681, 0x2c42, 14043, 0xdc5c);
    Product16(14043, 0xdc5c, 14043, 0xdc5c, 28086, 0x762b);
    Product16(28086, 0x762b, 4681, 0x2c42, 32767, 0x0001);
  }

  lemma Order16()
    ensures IsLeast(Period(W16, 0x1021, 1), 32767)
  {
    var p := Period(W16, 0x1021, 1);
    PeriodsClosed(W16, 0x1021, 1);
    ArePrime(7);
    ArePrime(31);
    ArePrime(151);
    PowersTo4096();
    PowersTo32767();
    LeastOfThreePrimes(p, 7, 31, 151, 32767, 4681, 1057, 217);
  }

  lemma Repeats16()
    ensures Repeats(W16, 0x1021, 32767)
  {
    Order16();
    SquarePowers16();
    PeriodsClosed(W16, 0x1021, 1);
    forall d: nat ensures Steps(W16, 0x1021, 0x1021, d) == 0x1021 <==> d % 32767 == 0 {
      PeriodOfPower(W16, 0x1021, 1, 16, 0x1021, 32767, d);
      DividesIsModulo(32767, d);
      MultiplesOfLeast(Period(W16, 0x1021, 1), 32767, d);
    }
  }

  /** CRC-16 misses two flipped bits exactly if their distance is a multiple of 32767. */
  lemma MissedByCrc16(a: seq<bv8>, b: seq<bv8>, before: nat, d: nat, after: nat)
    requires |a| == |b| && d > 0 && Xor(BitsOf(W8, a), BitsOf(W8, b)) == TwoBits(before, d, after)
    ensures Crc16.Checksum(a) == Crc16.Checksum(b) <==> d % 32767 == 0
  {
    Lawful16();
    Crc16.GeneratorBits();
    Repeats16();
    TwoBitsMissed(R16, Crc16.GENERATOR, a, b, before, d, after, 32767);
  }

  // ---- CRC-8: the order of x is 255 ----

  lemma Linear8(z: bv8, y: bv8, n: nat)
    ensures Steps(W8, 0x1d, Mul8(W8, 0x1d, z, y, 0), n) ==
            Mul8(W8, 0x1d, z, Steps(W8, 0x1d, y, n), Steps(W8, 0x1d, 0, n))
    ensures Steps(W8, 0x1d, 0, n) == 0
  {
    LawfulWord8();
    XorRegroups8();
    StepsOfMul8(W8, 0x1d, z, y, 0, n);
    StepsOfNothing(W8, 0x1d, n);
  }

  ghost predicate Power8(n: nat, c: bv8) {
    Power(W8, 0x1d, 1, n, c)
  }

  predicate Makes8(ca: bv8, cb: bv8, c: bv8) {
    Mul8(W8, 0x1d, ca, 1, 0) == ca && Mul8(W8, 0x1d, ca, cb, 0) == c
  }

  lemma Product8(a: nat, ca: bv8, b: nat, cb: bv8, n: nat, c: bv8)
    requires Power8(a, ca) && Power8(b, cb) && n == a + b && Makes8(ca, cb, c)
    ensures Power8(n, c)
  {
    Linear8(ca, 1, b);
    Times8(W8, 0x1d, 1, a, ca, b, cb, c);
  }

  lemma PowersOne8()
    ensures Power8(1, 0x02)
  {
    StepsUnfold(W8, 0x1d, 1, 1);
  }

  lemma SquareProducts8()
    ensures Makes8(0x02, 0x02, 0x04)
    ensures Makes8(0x04, 0x04, 0x10)
    ensures Makes8(0x10, 0x10, 0x1d)
    ensures Makes8(0x1d, 0x1d, 0x4c)
    ensures Makes8(0x4c, 0x4c, 0x9d)
    ensures Makes8(0x9d, 0x9d, 0x5f)
  {
  }

  lemma SquarePowers8()
    ensures Power8(2, 0x04)
    ensures Power8(4, 0x10)
    ensures Power8(8, 0x1d)
    ensures Power8(16, 0x4c)
    ensures Power8(32, 0x9d)
    ensures Power8(64, 0x5f)
  {
    PowersOne8();
    SquareProducts8();
    Product8(1, 0x02, 1, 0x02, 2, 0x04);
    Product8(2, 0x04, 2, 0x04, 4, 0x10);
    Product8(4, 0x10, 4, 0x10, 8, 0x1d);
    Product8(8, 0x1d, 8, 0x1d, 16, 0x4c);
    Product8(16, 0x4c, 16, 0x4c, 32, 0x9d);
    Product8(32, 0x9d, 32, 0x9d, 64, 0x5f);
  }

  lemma ProductsTo51()
    ensures Makes8(0x1d, 0x10, 0xcd)
    ensures Makes8(0xcd, 0x04, 0x13)
    ensures Makes8(0x13, 0x02, 0x26)
    ensures Makes8(0x9d, 0x4c, 0x46)
    ensures Makes8(0x46, 0x04, 0x05)
    ensures Makes8(0x05, 0x02, 0x0a)
  {
  }

  lemma PowersTo51()
    ensures Power8(15, 0x26)
    ensures Power8(51, 0x0a)
  {
    PowersOne8();
    SquarePowers8();
    ProductsTo51();
    Product8(8, 0x1d, 4, 0x10, 12, 0xcd);
    Product8(12, 0xcd, 2, 0x04, 14, 0x13);
    Product8(14, 0x13, 1, 0x02, 15, 0x26);
    Product8(32, 0x9d, 16, 0x4c, 48, 0x46);
    Product8(48, 0x46, 2, 0x04, 50, 0x05);
    Product8(50, 0x05, 1, 0x02, 51, 0x0a);
  }

  lemma ProductsTo255()
    ensures Makes8(0x5f, 0x4c, 0xfd)
    ensures Makes8(0xfd, 0x10, 0x6b)
    ensures Makes8(0x6b, 0x02, 0xd6)
    ensures Makes8(0xd6, 0xd6, 0xd7)
    ensures Makes8(0xd7, 0xd6, 0x01)
  {
  }

  lemma PowersTo255()
    ensures Power8(85, 0xd6)
    ensures Power8(255, 0x01)
  {
    PowersOne8();
    SquarePowers8();
    ProductsTo255();
    Product8(64, 0x5f, 16, 0x4c, 80, 0xfd);
    Product8(80, 0xfd, 4, 0x10, 84, 0x6b);
    Product8(84, 0x6b, 1, 0x02, 85, 0xd6);
    Product8(85, 0xd6, 85, 0xd6, 170, 0xd7);
    Product8(170, 0xd7, 85, 0xd6, 255, 0x01);
  }

  lemma Order8()
    ensures IsLeast(Period(W8, 0x1d, 1), 255)
  {
    var p := Period(W8, 0x1d, 1);
    PeriodsClosed(W8, 0x1d, 1);
    ArePrime(3);
    ArePrime(5);
    ArePrime(17);
    PowersTo51();
    PowersTo255();
    LeastOfThreePrimes(p, 3, 5, 17, 255, 85, 51, 15);
  }

  lemma Repeats8()
    ensures Repeats(W8, 0x1d, 255)
  {
    Order8();
    SquarePowers8();
    PeriodsClosed(W8, 0x1d, 1);
    forall d: nat ensures Steps(W8, 0x1d, 0x1d, d) == 0x1d <==> d % 255 == 0 {
      PeriodOfPower(W8, 0x1d, 1, 8, 0x1d, 255, d);
      DividesIsModulo(255, d);
      MultiplesOfLeast(Period(W8, 0x1d, 1), 255, d);
    }
  }

  /** CRC-8 misses two flipped bits exactly if their distance is a multiple of 255. */
  lemma MissedByCrc8(a: seq<bv8>, b: seq<bv8>, before: nat, d: nat, after: nat)
    requires |a| == |b| && d > 0 && Xor(BitsOf(W8, a), BitsOf(W8, b)) == TwoBits(before, d, after)
    ensures Crc8.Checksum(a) == Crc8.Checksum(b) <==> d % 255 == 0
  {
    Lawful8();
    Crc8.GeneratorBits();
    Repeats8();
    TwoBitsMissed(R8, Crc8.GENERATOR, a, b, before, d, after, 255);
  }
}
