/** The CRC shift register on machine words, and its meaning as polynomial division.

    Everything here is stated for any kind of word that has the operations the programs
    use and obeys the laws below; `Crc16` and `Crc8` supply bv16 and bv8. */
module CrcRegister {
  import opened BitDivision

  datatype Word<!W> = Word(
    width: nat,
    zero: W,
    top: W -> bool,            // is the most significant bit set?
    left: W -> W,              // shift left by one
    xor: (W, W) -> W)

  datatype Register<!W, !B> = Register(
    word: Word<W>,
    byte: Word<B>,
    intake: B -> W,            // an input byte, moved to the top of a word
    index: (W, B) -> B,        // the table position for a register and an input byte
    low: W -> W,               // the part of the register that a table look-up leaves alone
    rest: W -> W)              // that part, moved to the top

  // ---- words as bit strings, top bit first ----

  function Left<W>(o: Word<W>, x: W, n: nat): W
    decreases n
  {
    if n == 0 then x else Left(o, o.left(x), n - 1)
  }

  function TopBits<W>(o: Word<W>, x: W, n: nat): (r: Bits)
    ensures |r| == n
    decreases n
  {
    if n == 0 then [] else [o.top(x)] + TopBits(o, o.left(x), n - 1)
  }

  function WordBits<W>(o: Word<W>, x: W): (r: Bits)
    ensures |r| == o.width
  {
    TopBits(o, x, o.width)
  }

  /** The bits of a message, first byte first. */
  function BitsOf<B>(byte: Word<B>, data: seq<B>): (r: Bits)
    ensures |r| == byte.width * |data|
  {
    if data == [] then []
    else BitsOf(byte, data[..|data| - 1]) + WordBits(byte, data[|data| - 1])
  }

  // ---- the register ----

  function Step<W>(o: Word<W>, g: W, x: W): W {
    if o.top(x) then o.xor(o.left(x), g) else o.left(x)
  }

  function Steps<W>(o: Word<W>, g: W, x: W, n: nat): W
    decreases n
  {
    if n == 0 then x else Steps(o, g, Step(o, g, x), n - 1)
  }

  lemma StepsUnfold<W>(o: Word<W>, g: W, x: W, n: nat)
    requires n > 0
    ensures Steps(o, g, x, n) == Steps(o, g, Step(o, g, x), n - 1)
  {
  }

  function ByteStep<W, B>(c: Register<W, B>, g: W, x: W, b: B): W {
    Steps(c.word, g, c.word.xor(x, c.intake(b)), c.byte.width)
  }

  /** The CRC of a message: the register starts at zero and takes in byte after byte. */
  function Crc<W, B>(c: Register<W, B>, g: W, data: seq<B>): W {
    if data == [] then c.word.zero
    else ByteStep(c, g, Crc(c, g, data[..|data| - 1]), data[|data| - 1])
  }

  /** What a lookup table must hold at position i. */
  function TableEntry<W, B>(c: Register<W, B>, g: W, i: B): W {
    Steps(c.word, g, c.intake(i), c.byte.width)
  }

  /** The entries of a table so far. */
  ghost predicate Filled<W>(table: seq<W>, entry: nat -> W) {
    table == [] ||
    var n := |table| - 1;
    Filled(table[..n], entry) && table[n] == entry(n)
  }

  lemma {:induction false} FilledAt<W>(table: seq<W>, entry: nat -> W, k: nat)
    requires k < |table| && Filled(table, entry)
    ensures table[k] == entry(k)
  {
    var n := |table| - 1;
    if k < n {
      FilledAt(table[..n], entry, k);
    }
  }

  lemma AllFilled<W>(table: seq<W>, entry: nat -> W)
    requires Filled(table, entry)
    ensures forall k: nat :: k < |table| ==> table[k] == entry(k)
  {
    forall k: nat | k < |table| ensures table[k] == entry(k) {
      FilledAt(table, entry, k);
    }
  }

  lemma FilledSnoc<W>(table: seq<W>, entry: nat -> W, w: W)
    requires Filled(table, entry) && w == entry(|table|)
    ensures Filled(table + [w], entry)
  {
    assert (table + [w])[..|table|] == table;
  }

  // ---- the laws ----

  ghost predicate LawfulWord<W(!new)>(o: Word<W>) {
    && o.width > 0 && !o.top(o.zero)
    && ShiftsOut(o) && TopIsLinear(o) && LeftIsLinear(o) && OnlyZeroIsBlank(o) && XorUndoes(o)
  }

  ghost predicate Lawful<W(!new), B(!new)>(c: Register<W, B>) {
    LawfulWord(c.word) && LawfulWord(c.byte) && c.byte.width <= c.word.width && TakesInAtTop(c)
  }

  /** What the table form needs beyond that. */
  ghost predicate Tabular<W(!new), B(!new)>(c: Register<W, B>) {
    XorRegroups(c.word) && TableSplits(c) && LowIsClear(c)
  }

  ghost predicate XorRegroups<W(!new)>(o: Word<W>) {
    XorSwaps(o) && XorMoves(o) && XorCommutes(o)
  }

  ghost predicate ShiftsOut<W(!new)>(o: Word<W>) {
    forall x :: Left(o, x, o.width) == o.zero
  }

  ghost predicate TopIsLinear<W(!new)>(o: Word<W>) {
    forall a, b :: o.top(o.xor(a, b)) == (o.top(a) != o.top(b))
  }

  ghost predicate LeftIsLinear<W(!new)>(o: Word<W>) {
    forall a, b :: o.left(o.xor(a, b)) == o.xor(o.left(a), o.left(b))
  }

  ghost predicate OnlyZeroIsBlank<W(!new)>(o: Word<W>) {
    forall x :: !o.top(x) && o.left(x) == o.zero ==> x == o.zero
  }

  ghost predicate XorUndoes<W(!new)>(o: Word<W>) {
    forall a, c :: o.xor(o.xor(a, c), c) == a
  }

  ghost predicate XorSwaps<W(!new)>(o: Word<W>) {
    forall a, b, c :: o.xor(o.xor(a, c), b) == o.xor(o.xor(a, b), c)
  }

  ghost predicate XorMoves<W(!new)>(o: Word<W>) {
    forall a, b, c :: o.xor(a, o.xor(b, c)) == o.xor(o.xor(a, b), c)
  }

  ghost predicate XorCommutes<W(!new)>(o: Word<W>) {
    forall a, b :: o.xor(a, b) == o.xor(b, a)
  }

  ghost predicate TakesInAtTop<W, B(!new)>(c: Register<W, B>)
    requires c.byte.width <= c.word.width
  {
    forall b :: WordBits(c.word, c.intake(b)) == WordBits(c.byte, b) + Zeros(c.word.width - c.byte.width)
  }

  ghost predicate TableSplits<W(!new), B(!new)>(c: Register<W, B>) {
    forall x, b :: c.word.xor(x, c.intake(b)) == c.word.xor(c.low(x), c.intake(c.index(x, b)))
  }

  ghost predicate LowIsClear<W(!new), B>(c: Register<W, B>) {
    forall x :: TopBits(c.word, c.low(x), c.byte.width) == Zeros(c.byte.width) &&
                Left(c.word, c.low(x), c.byte.width) == c.rest(x)
  }

  // ---- word operations on bits ----

  lemma {:induction false} XorTopBits<W(!new)>(o: Word<W>, a: W, b: W, n: nat)
    requires TopIsLinear(o) && LeftIsLinear(o)
    ensures TopBits(o, o.xor(a, b), n) == Xor(TopBits(o, a, n), TopBits(o, b, n))
    decreases n
  {
    if n > 0 {
      XorTopBits(o, o.left(a), o.left(b), n - 1);
    }
  }

  lemma {:induction false} TopBitsSplit<W>(o: Word<W>, x: W, n: nat, m: nat)
    ensures TopBits(o, x, n + m) == TopBits(o, x, n) + TopBits(o, Left(o, x, n), m)
    decreases n
  {
    if n > 0 {
      TopBitsSplit(o, o.left(x), n - 1, m);
    }
  }

  lemma {:induction false} LeftAdd<W>(o: Word<W>, x: W, n: nat, m: nat)
    ensures Left(o, x, n + m) == Left(o, Left(o, x, n), m)
    decreases n
  {
    if n > 0 {
      LeftAdd(o, o.left(x), n - 1, m);
    }
  }

  lemma LeftBits<W(!new)>(o: Word<W>, x: W)
    requires o.width > 0 && ShiftsOut(o) && !o.top(o.zero)
    ensures WordBits(o, o.left(x)) == WordBits(o, x)[1..] + [false]
  {
    var w := o.width;
    TopBitsSplit(o, o.left(x), w - 1, 1);
    assert Left(o, o.left(x), w - 1) == Left(o, x, w) == o.zero;
    assert TopBits(o, o.zero, 1) == [false];
  }

  lemma {:induction false} BlankTopIsZero<W(!new)>(o: Word<W>, x: W, n: nat)
    requires OnlyZeroIsBlank(o) && TopBits(o, x, n) == Zeros(n) && Left(o, x, n) == o.zero
    ensures x == o.zero
    decreases n
  {
    if n > 0 {
      var bits := TopBits(o, x, n);
      assert !bits[0];
      assert bits[1..] == Zeros(n)[1..] == Zeros(n - 1);
      BlankTopIsZero(o, o.left(x), n - 1);
    }
  }

  lemma SameBitsSameWord<W(!new)>(o: Word<W>, a: W, b: W)
    requires LawfulWord(o) && WordBits(o, a) == WordBits(o, b)
    ensures a == b
  {
    XorTopBits(o, a, b, o.width);
    XorSelf(WordBits(o, a));
    BlankTopIsZero(o, o.xor(a, b), o.width);
    XorTopBits(o, b, b, o.width);
    BlankTopIsZero(o, o.xor(b, b), o.width);
    assert a == o.xor(o.xor(a, b), b) == o.xor(o.xor(b, b), b) == b;
  }

  lemma {:induction false} ZeroBits<W(!new)>(o: Word<W>)
    requires o.width > 0 && ShiftsOut(o) && !o.top(o.zero)
    ensures WordBits(o, o.zero) == Zeros(o.width)
  {
    LeftOfZero(o);
    ZeroTopBits(o, o.width);
  }

  lemma {:induction false} ZeroTopBits<W(!new)>(o: Word<W>, n: nat)
    requires !o.top(o.zero) && o.left(o.zero) == o.zero
    ensures TopBits(o, o.zero, n) == Zeros(n)
  {
    if n > 0 {
      ZeroTopBits(o, n - 1);
    }
  }

  lemma LeftOfZero<W(!new)>(o: Word<W>)
    requires o.width > 0 && ShiftsOut(o)
    ensures o.left(o.zero) == o.zero
  {
    LeftAdd(o, o.zero, o.width, 1);
    LeftAdd(o, o.zero, 1, o.width);
    assert Left(o, o.zero, 1) == o.left(o.zero);
    assert Left(o, Left(o, o.zero, o.width), 1) == Left(o, o.zero, 1);
  }

  // ---- the table form ----

  lemma StepXor<W(!new)>(o: Word<W>, g: W, a: W, b: W)
    requires LawfulWord(o) && XorRegroups(o)
    ensures Step(o, g, o.xor(a, b)) == o.xor(Step(o, g, a), Step(o, g, b))
  {
    var p, q := o.left(a), o.left(b);
    assert o.xor(o.xor(p, g), o.xor(q, g)) == o.xor(o.xor(o.xor(p, q), g), g) == o.xor(p, q);
  }

  lemma {:induction false} StepsXor<W(!new)>(o: Word<W>, g: W, a: W, b: W, n: nat)
    requires LawfulWord(o) && XorRegroups(o)
    ensures Steps(o, g, o.xor(a, b), n) == o.xor(Steps(o, g, a, n), Steps(o, g, b, n))
    decreases n
  {
    if n > 0 {
      StepXor(o, g, a, b);
      StepsXor(o, g, Step(o, g, a), Step(o, g, b), n - 1);
    }
  }

  /** Bits that never reach the top are only moved. */
  lemma {:induction false} StepsLeft<W>(o: Word<W>, g: W, x: W, n: nat)
    requires TopBits(o, x, n) == Zeros(n)
    ensures Steps(o, g, x, n) == Left(o, x, n)
    decreases n
  {
    if n > 0 {
      var bits := TopBits(o, x, n);
      assert !bits[0];
      assert bits[1..] == Zeros(n)[1..] == Zeros(n - 1);
      StepsLeft(o, g, o.left(x), n - 1);
    }
  }

  lemma {:induction false} StepsSnoc<W>(o: Word<W>, g: W, x: W, n: nat)
    ensures Steps(o, g, x, n + 1) == Step(o, g, Steps(o, g, x, n))
    decreases n
  {
    if n > 0 {
      StepsSnoc(o, g, Step(o, g, x), n - 1);
    }
  }

  lemma {:induction false} StepsOfZero<W>(o: Word<W>, g: W, n: nat)
    requires !o.top(o.zero) && o.left(o.zero) == o.zero
    ensures Steps(o, g, o.zero, n) == o.zero
    decreases n
  {
    if n > 0 {
      StepsOfZero(o, g, n - 1);
    }
  }

  /** Shifting before or after makes no difference. */
  lemma StepsOfLeft<W>(o: Word<W>, g: W, x: W, n: nat)
    requires !o.top(x)
    ensures Steps(o, g, o.left(x), n) == Step(o, g, Steps(o, g, x, n))
  {
    StepsSnoc(o, g, x, n);
  }

  /** A table look-up does the work of a byte's worth of shifts. */
  lemma LookupIsByteStep<W(!new), B(!new)>(c: Register<W, B>, g: W, x: W, b: B)
    requires Lawful(c) && Tabular(c)
    ensures ByteStep(c, g, x, b) == c.word.xor(c.rest(x), TableEntry(c, g, c.index(x, b)))
  {
    assert c.word.xor(x, c.intake(b)) == c.word.xor(c.low(x), c.intake(c.index(x, b)));
    StepsXor(c.word, g, c.low(x), c.intake(c.index(x, b)), c.byte.width);
    StepsLeft(c.word, g, c.low(x), c.byte.width);
  }

  lemma CrcSnoc<W, B>(c: Register<W, B>, g: W, data: seq<B>, i: nat)
    requires i < |data|
    ensures Crc(c, g, data[..i + 1]) == ByteStep(c, g, Crc(c, g, data[..i]), data[i])
  {
    assert data[..i + 1][..i] == data[..i];
  }

  /** One more byte, when the register with the byte taken in is what a table position stands for. */
  lemma CrcSnocAt<W, B>(c: Register<W, B>, g: W, data: seq<B>, i: nat, pos: B)
    requires i < |data| && c.intake(pos) == c.word.xor(Crc(c, g, data[..i]), c.intake(data[i]))
    ensures TableEntry(c, g, pos) == Crc(c, g, data[..i + 1])
  {
    CrcSnoc(c, g, data, i);
  }

  // ---- the register divides ----

  lemma StepBits<W(!new)>(o: Word<W>, g: W, x: W)
    requires LawfulWord(o)
    ensures WordBits(o, Step(o, g, x)) == Shift(WordBits(o, g), WordBits(o, x), false)
  {
    LeftBits(o, x);
    XorTopBits(o, o.left(x), g, o.width);
  }

  lemma {:induction false} StepsBits<W(!new)>(o: Word<W>, g: W, x: W, n: nat)
    requires LawfulWord(o)
    ensures WordBits(o, Steps(o, g, x, n)) == Divide(WordBits(o, g), WordBits(o, x), Zeros(n))
    decreases n
  {
    if n == 0 {
      assert Zeros(n) == [];
    } else {
      StepBits(o, g, x);
      StepsBits(o, g, Step(o, g, x), n - 1);
      StepsUnfold(o, g, x, n);
      DivideOneZero(WordBits(o, g), WordBits(o, x), n);
    }
  }

  lemma IntakeBits<W(!new), B(!new)>(c: Register<W, B>, x: W, b: B)
    requires Lawful(c)
    ensures WordBits(c.word, c.word.xor(x, c.intake(b))) ==
            Xor(WordBits(c.word, x), WordBits(c.byte, b) + Zeros(c.word.width - c.byte.width))
  {
    XorTopBits(c.word, x, c.intake(b), c.word.width);
  }

  lemma ByteStepBits<W(!new), B(!new)>(c: Register<W, B>, g: W, x: W, b: B)
    requires Lawful(c)
    ensures WordBits(c.word, ByteStep(c, g, x, b)) ==
            Divide(WordBits(c.word, g), WordBits(c.word, x), WordBits(c.byte, b))
  {
    StepsBits(c.word, g, c.word.xor(x, c.intake(b)), c.byte.width);
    Preload(WordBits(c.word, g), WordBits(c.word, x), WordBits(c.byte, b));
    IntakeBits(c, x, b);
  }

  /** The bits of the CRC are what the division register holds after the message's bits. */
  lemma {:induction false} CrcBits<W(!new), B(!new)>(c: Register<W, B>, g: W, data: seq<B>)
    requires Lawful(c)
    ensures WordBits(c.word, Crc(c, g, data)) ==
            Divide(WordBits(c.word, g), Zeros(c.word.width), BitsOf(c.byte, data))
    decreases |data|
  {
    ZeroBits(c.word);
    if data != [] {
      var front, b := data[..|data| - 1], data[|data| - 1];
      CrcBits(c, g, front);
      ByteStepBits(c, g, Crc(c, g, front), b);
      DivideConcat(WordBits(c.word, g), Zeros(c.word.width), BitsOf(c.byte, front), WordBits(c.byte, b));
    }
  }

  /** A word is the remainder of the message if and only if it is the CRC. */
  lemma CrcIsRemainder<W(!new), B(!new)>(c: Register<W, B>, g: W, data: seq<B>, r: W)
    requires Lawful(c)
    ensures IsRemainder(WordBits(c.word, g), BitsOf(c.byte, data), WordBits(c.word, r)) <==>
              r == Crc(c, g, data)
  {
    CrcBits(c, g, data);
    DivideIsRemainder(WordBits(c.word, g), BitsOf(c.byte, data), WordBits(c.word, r));
    if WordBits(c.word, r) == WordBits(c.word, Crc(c, g, data)) {
      SameBitsSameWord(c.word, r, Crc(c, g, data));
    }
  }

  // ---- laws over messages of every length ----

  function XorBytes<B>(byte: Word<B>, a: seq<B>, b: seq<B>): (r: seq<B>)
    requires |a| == |b|
    ensures |r| == |a|
  {
    seq(|a|, i requires 0 <= i < |a| => byte.xor(a[i], b[i]))
  }

  lemma XorConcat(a: Bits, b: Bits, p: Bits, q: Bits)
    requires |a| == |b| && |p| == |q|
    ensures Xor(a + p, b + q) == Xor(a, b) + Xor(p, q)
  {
  }

  lemma {:induction false} BitsOfXor<B(!new)>(byte: Word<B>, a: seq<B>, b: seq<B>)
    requires LawfulWord(byte) && |a| == |b|
    ensures BitsOf(byte, XorBytes(byte, a, b)) == Xor(BitsOf(byte, a), BitsOf(byte, b))
    decreases |a|
  {
    if a != [] {
      var n := |a| - 1;
      assert XorBytes(byte, a, b)[..n] == XorBytes(byte, a[..n], b[..n]);
      BitsOfXor(byte, a[..n], b[..n]);
      XorTopBits(byte, a[n], b[n], byte.width);
      XorConcat(BitsOf(byte, a[..n]), BitsOf(byte, b[..n]), WordBits(byte, a[n]), WordBits(byte, b[n]));
    }
  }

  lemma {:induction false} BitsOfConcat<B>(byte: Word<B>, a: seq<B>, b: seq<B>)
    ensures BitsOf(byte, a + b) == BitsOf(byte, a) + BitsOf(byte, b)
    decreases |b|
  {
    if b == [] {
      assert a + b == a;
    } else {
      var n, ab := |b| - 1, a + b;
      assert ab[..|ab| - 1] == a + b[..n] && ab[|ab| - 1] == b[n];
      BitsOfConcat(byte, a, b[..n]);
    }
  }

  /** CRCs of equal-length messages add up. */
  lemma CrcIsLinear<W(!new), B(!new)>(c: Register<W, B>, g: W, a: seq<B>, b: seq<B>)
    requires Lawful(c) && |a| == |b|
    ensures Crc(c, g, XorBytes(c.byte, a, b)) == c.word.xor(Crc(c, g, a), Crc(c, g, b))
  {
    var p, q := Crc(c, g, a), Crc(c, g, b);
    var zero := Zeros(c.word.width);
    CrcBits(c, g, a);
    CrcBits(c, g, b);
    CrcBits(c, g, XorBytes(c.byte, a, b));
    BitsOfXor(c.byte, a, b);
    XorSelf(zero);
    DivideXor(WordBits(c.word, g), zero, zero, BitsOf(c.byte, a), BitsOf(c.byte, b));
    XorTopBits(c.word, p, q, c.word.width);
    SameBitsSameWord(c.word, Crc(c, g, XorBytes(c.byte, a, b)), c.word.xor(p, q));
  }

  /** Messages that differ only within `width` consecutive bits have different CRCs. */
  lemma BurstChangesCrc<W(!new), B(!new)>(c: Register<W, B>, g: W, a: seq<B>, b: seq<B>, start: nat)
    requires Lawful(c) && WordBits(c.word, g)[c.word.width - 1] && |a| == |b|
    requires DifferWithin(BitsOf(c.byte, a), BitsOf(c.byte, b), start, c.word.width)
    ensures Crc(c, g, a) != Crc(c, g, b)
  {
    BurstDetected(WordBits(c.word, g), BitsOf(c.byte, a), BitsOf(c.byte, b), start);
    CrcBits(c, g, a);
    CrcBits(c, g, b);
  }

  /** A change that spans one bit more goes unnoticed only if it is the generator itself. */
  lemma WiderBurstChangesCrc<W(!new), B(!new)>(c: Register<W, B>, g: W, a: seq<B>, b: seq<B>,
                                               before: nat, burst: Bits, after: nat, gBits: Bits)
    requires Lawful(c) && gBits == WordBits(c.word, g) && gBits[c.word.width - 1] && |a| == |b|
    requires |burst| == c.word.width
    requires Xor(BitsOf(c.byte, a), BitsOf(c.byte, b)) == Zeros(before) + ([true] + (burst + Zeros(after)))
    ensures Crc(c, g, a) == Crc(c, g, b) <==> burst == gBits
  {
    XorTwice(BitsOf(c.byte, a), BitsOf(c.byte, b));
    WiderBurst(gBits, BitsOf(c.byte, a), before, burst, after);
    CrcBits(c, g, a);
    CrcBits(c, g, b);
    if WordBits(c.word, Crc(c, g, a)) == WordBits(c.word, Crc(c, g, b)) {
      SameBitsSameWord(c.word, Crc(c, g, a), Crc(c, g, b));
    }
  }

  /** Appending exactly the CRC, and nothing else of its length, makes the CRC zero. */
  lemma AppendedCrc<W(!new), B(!new)>(c: Register<W, B>, g: W, data: seq<B>, tail: seq<B>)
    requires Lawful(c) && WordBits(c.word, g)[c.word.width - 1] && c.byte.width * |tail| == c.word.width
    ensures Crc(c, g, data + tail) == c.word.zero <==>
              BitsOf(c.byte, tail) == WordBits(c.word, Crc(c, g, data))
  {
    CrcBits(c, g, data);
    CrcBits(c, g, data + tail);
    BitsOfConcat(c.byte, data, tail);
    DivideConcat(WordBits(c.word, g), Zeros(c.word.width), BitsOf(c.byte, data), BitsOf(c.byte, tail));
    ClearedOnlyByItself(WordBits(c.word, g), WordBits(c.word, Crc(c, g, data)), BitsOf(c.byte, tail));
    ZeroBits(c.word);
    if WordBits(c.word, Crc(c, g, data + tail)) == Zeros(c.word.width) {
      BlankTopIsZero(c.word, Crc(c, g, data + tail), c.word.width);
    }
  }

  lemma BitsOfOne<B>(byte: Word<B>, b: B)
    ensures BitsOf(byte, [b]) == WordBits(byte, b)
  {
    assert BitsOf(byte, [b]) == [] + WordBits(byte, b);
  }

  /** With an odd number of low coefficients in the generator, the CRC has the message's parity. */
  lemma CrcKeepsParity<W(!new), B(!new)>(c: Register<W, B>, g: W, data: seq<B>)
    requires Lawful(c) && Parity(WordBits(c.word, g))
    ensures Parity(WordBits(c.word, Crc(c, g, data))) == Parity(BitsOf(c.byte, data))
  {
    CrcBits(c, g, data);
    DivideParity(WordBits(c.word, g), Zeros(c.word.width), BitsOf(c.byte, data));
    ParityZeros(c.word.width);
  }
}
