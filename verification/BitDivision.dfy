/** Polynomial division over GF(2), for registers of any width.

    A polynomial is the sequence of its coefficients, highest degree first, and adding two
    of the same length is taking their exclusive or. A generator of degree w is written
    without its leading coefficient, as the CRC programs write it. */
module BitDivision {

  type Bits = seq<bool>

  function Zeros(n: nat): (r: Bits)
    ensures |r| == n
  {
    seq(n, _ => false)
  }

  function Xor(a: Bits, b: Bits): (r: Bits)
    requires |a| == |b|
    ensures |r| == |a|
  {
    seq(|a|, i requires 0 <= i < |a| => a[i] != b[i])
  }

  /** The division register after one more message bit: the bit is added at the top, the
      register shifts, and the generator is subtracted when a 1 falls out. */
  function Shift(g: Bits, r: Bits, bit: bool): (r': Bits)
    requires |g| == |r| > 0
    ensures |r'| == |r|
  {
    var shifted := r[1..] + [false];
    if r[0] != bit then Xor(shifted, g) else shifted
  }

  function Divide(g: Bits, r: Bits, message: Bits): (r': Bits)
    requires |g| == |r| > 0
    ensures |r'| == |r|
    decreases |message|
  {
    if message == [] then r else Divide(g, Shift(g, r, message[0]), message[1..])
  }

  // ---- basic laws ----

  lemma DivideOneZero(g: Bits, r: Bits, n: nat)
    requires |g| == |r| > 0 && n > 0
    ensures Divide(g, r, Zeros(n)) == Divide(g, Shift(g, r, false), Zeros(n - 1))
  {
    assert Zeros(n)[1..] == Zeros(n - 1);
  }

  lemma {:induction false} DivideConcat(g: Bits, r: Bits, a: Bits, b: Bits)
    requires |g| == |r| > 0
    ensures Divide(g, r, a + b) == Divide(g, Divide(g, r, a), b)
    decreases |a|
  {
    if a == [] {
      assert a + b == b;
    } else {
      assert (a + b)[1..] == a[1..] + b;
      DivideConcat(g, Shift(g, r, a[0]), a[1..], b);
    }
  }

  lemma ShiftXor(g: Bits, r: Bits, s: Bits, a: bool, b: bool)
    requires |g| == |r| == |s| > 0
    ensures Shift(g, Xor(r, s), a != b) == Xor(Shift(g, r, a), Shift(g, s, b))
  {
  }

  /** Division is linear: sums of registers and messages give sums of remainders. */
  lemma {:induction false} DivideXor(g: Bits, r: Bits, s: Bits, a: Bits, b: Bits)
    requires |g| == |r| == |s| > 0 && |a| == |b|
    ensures Divide(g, Xor(r, s), Xor(a, b)) == Xor(Divide(g, r, a), Divide(g, s, b))
    decreases |a|
  {
    if a != [] {
      ShiftXor(g, r, s, a[0], b[0]);
      assert Xor(a, b)[1..] == Xor(a[1..], b[1..]);
      DivideXor(g, Shift(g, r, a[0]), Shift(g, s, b[0]), a[1..], b[1..]);
    }
  }

  lemma XorSelf(a: Bits)
    ensures Xor(a, a) == Zeros(|a|)
  {
  }

  lemma XorTwice(a: Bits, b: Bits)
    requires |a| == |b|
    ensures Xor(a, Xor(a, b)) == b
  {
  }

  lemma XorZeroIsEqual(a: Bits, b: Bits)
    requires |a| == |b|
    ensures Xor(a, b) == Zeros(|a|) <==> a == b
  {
    if Xor(a, b) == Zeros(|a|) {
      forall i | 0 <= i < |a| ensures a[i] == b[i] {
        assert !Xor(a, b)[i];
      }
    }
  }

  lemma {:induction false} DivideZeros(g: Bits, n: nat)
    requires |g| > 0
    ensures Divide(g, Zeros(|g|), Zeros(n)) == Zeros(|g|)
  {
    if n > 0 {
      assert Shift(g, Zeros(|g|), false) == Zeros(|g|);
      assert Zeros(n)[1..] == Zeros(n - 1);
      DivideZeros(g, n - 1);
    }
  }

  // ---- the remainder ----

  /** The product of q with the polynomial x^w + g, by Horner's rule on q. */
  function Times(q: Bits, g: Bits): (p: Bits)
    ensures |p| == |q| + |g|
  {
    if q == [] then Zeros(|g|)
    else
      var n := |q| - 1;
      Xor(Times(q[..n], g) + [false],
          Zeros(n) + (if q[n] then [true] + g else Zeros(|g| + 1)))
  }

  /** message(x) * x^w == quotient(x) * (x^w + g(x)) + r(x). */
  predicate IsDivision(g: Bits, message: Bits, quotient: Bits, r: Bits) {
    && |r| == |g| && |quotient| == |message|
    && message + Zeros(|g|) == Xor(Times(quotient, g), Zeros(|message|) + r)
  }

  ghost predicate IsRemainder(g: Bits, message: Bits, r: Bits) {
    exists quotient :: IsDivision(g, message, quotient, r)
  }

  /** The feedback bits of the register are the quotient. */
  lemma {:induction false} DivideDivides(g: Bits, message: Bits) returns (quotient: Bits)
    requires |g| > 0
    ensures IsDivision(g, message, quotient, Divide(g, Zeros(|g|), message))
    decreases |message|
  {
    var w := |g|;
    if message == [] {
      quotient := [];
      assert [] + Zeros(w) == Xor(Zeros(w), Zeros(0) + Zeros(w));
    } else {
      var n := |message| - 1;
      var front, b := message[..n], message[n];
      var q := DivideDivides(g, front);
      var r := Divide(g, Zeros(w), front);
      assert message == front + [b];
      DivideConcat(g, Zeros(w), front, [b]);
      assert Divide(g, r, [b]) == Shift(g, r, b);
      quotient := q + [r[0] != b];
      assert quotient[..n] == q;
      DivisionStep(g, front, q, r, b);
    }
  }

  /** One register step, as an equation between polynomials of degree w. */
  lemma ShiftSubtracts(g: Bits, r: Bits, b: bool)
    requires |g| == |r| > 0
    ensures Xor(r + [false], [b] + Zeros(|g|)) ==
            Xor(if r[0] != b then [true] + g else Zeros(|g| + 1), [false] + Shift(g, r, b))
  {
    var w, grown, r' := |g|, r + [false], Shift(g, r, b);
    if r[0] != b {
      assert forall i :: 0 <= i < w ==> r'[i] == (grown[i + 1] != g[i]);
      assert Xor(grown, [b] + Zeros(w)) == Xor([true] + g, [false] + r');
    } else {
      assert r' == grown[1..];
      assert Xor(grown, [b] + Zeros(w)) == Xor(Zeros(w + 1), [false] + r');
    }
  }

  lemma DivisionStep(g: Bits, front: Bits, q: Bits, r: Bits, b: bool)
    requires |g| == |r| > 0 && IsDivision(g, front, q, r)
    ensures IsDivision(g, front + [b], q + [r[0] != b], Shift(g, r, b))
  {
    var n, w, r' := |front|, |g|, Shift(g, r, b);
    var low := if r[0] != b then [true] + g else Zeros(w + 1);
    assert (q + [r[0] != b])[..n] == q;
    var product := Xor(Times(q, g) + [false], Zeros(n) + low);
    assert Times(q + [r[0] != b], g) == product;
    ShiftSubtracts(g, r, b);
    StepBits(front + [b] + Zeros(w), product, front + Zeros(w), Times(q, g), low, n, w, b, r, r');
  }

  /** The bookkeeping of DivisionStep, position by position. */
  lemma StepBits(whole: Bits, product: Bits, shorter: Bits, p: Bits, low: Bits,
                 n: nat, w: nat, b: bool, r: Bits, r': Bits)
    requires |shorter| == |p| == n + w && |low| == w + 1 && |r| == |r'| == w
    requires whole == shorter[..n] + [b] + Zeros(w)
    requires shorter == Xor(p, Zeros(n) + r) && shorter[n..] == Zeros(w)
    requires product == Xor(p + [false], Zeros(n) + low)
    requires Xor(r + [false], [b] + Zeros(w)) == Xor(low, [false] + r')
    ensures whole == Xor(product, Zeros(n + 1) + r')
  {
    var right := Xor(product, Zeros(n + 1) + r');
    forall i | 0 <= i < n + 1 + w ensures whole[i] == right[i] {
      if i < n {
        assert shorter[i] == p[i];
      } else {
        var k := i - n;
        assert Xor(r + [false], [b] + Zeros(w))[k] == Xor(low, [false] + r')[k];
        assert k < w ==> !shorter[n..][k] && !shorter[i] && p[i] == r[k];
        assert (Zeros(n + 1) + r')[i] == ([false] + r')[k];
      }
    }
  }

  lemma {:induction false} TimesTop(q: Bits, g: Bits)
    requires |g| > 0 && Times(q, g)[..|q|] == Zeros(|q|)
    ensures q == Zeros(|q|) && Times(q, g) == Zeros(|q| + |g|)
  {
    if q != [] {
      var n := |q| - 1;
      var p := Times(q[..n], g);
      forall i | 0 <= i < n ensures !p[i] {
        assert !Times(q, g)[..|q|][i];
      }
      assert p[..n] == Zeros(n);
      TimesTop(q[..n], g);
      assert !Times(q, g)[..|q|][n];
      assert q == q[..n] + [q[n]];
    }
  }

  lemma {:induction false} TimesXor(p: Bits, q: Bits, g: Bits)
    requires |p| == |q|
    ensures Times(Xor(p, q), g) == Xor(Times(p, g), Times(q, g))
  {
    if p != [] {
      var n := |p| - 1;
      assert Xor(p, q)[..n] == Xor(p[..n], q[..n]);
      TimesXor(p[..n], q[..n], g);
    }
  }

  lemma RemainderIsUnique(g: Bits, message: Bits, q: Bits, r: Bits, q0: Bits, r0: Bits)
    requires |g| > 0 && IsDivision(g, message, q, r) && IsDivision(g, message, q0, r0)
    ensures r == r0
  {
    var n := |message|;
    TimesXor(q, q0, g);
    var d := Times(Xor(q, q0), g);
    var p, p0 := Times(q, g), Times(q0, g);
    forall i | 0 <= i < n + |g|
      ensures d[i] == ((Zeros(n) + r)[i] != (Zeros(n) + r0)[i])
    {
      assert (p[i] != (Zeros(n) + r)[i]) == (message + Zeros(|g|))[i] == (p0[i] != (Zeros(n) + r0)[i]);
    }
    assert d[..n] == Zeros(n);
    TimesTop(Xor(q, q0), g);
    forall i | 0 <= i < |g| ensures r[i] == r0[i] {
      assert !d[n + i];
    }
  }

  /** The register ends as the remainder, and as nothing else. */
  lemma DivideIsRemainder(g: Bits, message: Bits, r: Bits)
    requires |g| > 0
    ensures IsRemainder(g, message, r) <==> r == Divide(g, Zeros(|g|), message)
  {
    var r0 := Divide(g, Zeros(|g|), message);
    var q0 := DivideDivides(g, message);
    forall q | IsDivision(g, message, q, r)
      ensures r == r0
    {
      RemainderIsUnique(g, message, q, r, q0, r0);
    }
  }

  // ---- what the register can tell apart ----

  /** A nonzero register stays nonzero while zeros are fed in, if g has a constant term. */
  lemma {:induction false} NonzeroStays(g: Bits, r: Bits, n: nat)
    requires |g| == |r| > 0 && g[|g| - 1] && r != Zeros(|r|)
    ensures Divide(g, r, Zeros(n)) != Zeros(|r|)
    decreases n
  {
    if n > 0 {
      var w := |g|;
      var r' := Shift(g, r, false);
      if r' == Zeros(w) {
        assert !r'[w - 1];
        forall i | 0 <= i < w ensures !r[i] {
          if i > 0 {
            assert !r'[i - 1];
          }
        }
        assert false;
      }
      assert Zeros(n)[1..] == Zeros(n - 1);
      NonzeroStays(g, r', n - 1);
    }
  }

  /** Feeding d is the same as adding d to the top of the register and feeding zeros. */
  lemma {:induction false} Preload(g: Bits, r: Bits, d: Bits)
    requires |g| == |r| > 0 && |d| <= |g|
    ensures Divide(g, r, d) == Divide(g, Xor(r, d + Zeros(|g| - |d|)), Zeros(|d|))
    decreases |d|
  {
    if d != [] {
      var w := |g|;
      var mask := d + Zeros(w - |d|);
      var rest := d[1..] + Zeros(w - |d| + 1);
      assert Shift(g, Xor(r, mask), false) == Xor(Shift(g, r, d[0]), rest);
      DivideOneZero(g, Xor(r, mask), |d|);
      Preload(g, Shift(g, r, d[0]), d[1..]);
    } else {
      assert Xor(r, d + Zeros(|g|)) == r;
      assert Zeros(0) == [];
    }
  }

  /** A full register's worth of further bits clears the register only if it repeats it. */
  lemma ClearedOnlyByItself(g: Bits, r: Bits, t: Bits)
    requires |g| == |r| == |t| > 0 && g[|g| - 1]
    ensures Divide(g, r, t) == Zeros(|g|) <==> t == r
  {
    var w := |g|;
    Preload(g, r, t);
    assert t + Zeros(0) == t;
    XorZeroIsEqual(r, t);
    if t == r {
      DivideZeros(g, w);
    } else {
      NonzeroStays(g, Xor(r, t), w);
    }
  }

  /** Bits that differ lie in a window of `width` positions starting at `start`. */
  predicate DifferWithin(a: Bits, b: Bits, start: nat, width: nat)
    requires |a| == |b|
  {
    a != b && forall i :: 0 <= i < |a| && a[i] != b[i] ==> start <= i < start + width
  }

  lemma LeadingZeros(g: Bits, n: nat, message: Bits)
    requires |g| > 0
    ensures Divide(g, Zeros(|g|), Zeros(n) + message) == Divide(g, Zeros(|g|), message)
  {
    DivideConcat(g, Zeros(|g|), Zeros(n), message);
    DivideZeros(g, n);
  }

  /** A nonzero message no longer than the register leaves it nonzero. */
  lemma ShortMessage(g: Bits, burst: Bits)
    requires |g| > 0 && g[|g| - 1] && |burst| <= |g| && burst != Zeros(|burst|)
    ensures Divide(g, Zeros(|g|), burst) != Zeros(|g|)
  {
    var mask := burst + Zeros(|g| - |burst|);
    Preload(g, Zeros(|g|), burst);
    Padded(burst, |g|);
    NonzeroStays(g, mask, |burst|);
  }

  lemma Padded(burst: Bits, w: nat)
    requires |burst| <= w && burst != Zeros(|burst|)
    ensures var mask := burst + Zeros(w - |burst|); Xor(Zeros(w), mask) == mask && mask != Zeros(w)
  {
    var mask := burst + Zeros(w - |burst|);
    assert Xor(Zeros(w), mask) == mask;
    assert mask[..|burst|] == burst && Zeros(w)[..|burst|] == Zeros(|burst|);
  }

  lemma BurstSurvives(g: Bits, before: nat, burst: Bits, after: nat)
    requires |g| > 0 && g[|g| - 1] && |burst| <= |g| && burst != Zeros(|burst|)
    ensures Divide(g, Zeros(|g|), Zeros(before) + (burst + Zeros(after))) != Zeros(|g|)
  {
    LeadingZeros(g, before, burst + Zeros(after));
    DivideConcat(g, Zeros(|g|), burst, Zeros(after));
    ShortMessage(g, burst);
    NonzeroStays(g, Divide(g, Zeros(|g|), burst), after);
  }

  lemma DifferenceShape(a: Bits, b: Bits, start: nat, width: nat) returns (burst: Bits, after: nat)
    requires |a| == |b| && DifferWithin(a, b, start, width)
    ensures |burst| <= width && burst != Zeros(|burst|)
    ensures Xor(a, b) == Zeros(start) + (burst + Zeros(after))
    ensures Xor(a, Xor(a, b)) == b
  {
    var n, d := |a|, Xor(a, b);
    var k :| 0 <= k < n && a[k] != b[k];
    var end := if start + width <= n then start + width else n;
    burst, after := d[start..end], n - end;
    assert burst[k - start];
    assert Xor(a, Xor(a, b)) == b;
  }

  /** Adding d to a message leaves the remainder alone exactly when d divides evenly. */
  lemma SameRemainder(g: Bits, a: Bits, d: Bits)
    requires |g| > 0 && |a| == |d|
    ensures Divide(g, Zeros(|g|), Xor(a, d)) == Divide(g, Zeros(|g|), a) <==>
              Divide(g, Zeros(|g|), d) == Zeros(|g|)
  {
    var zero := Zeros(|g|);
    XorSelf(zero);
    DivideXor(g, zero, zero, a, d);
    XorCancels(Divide(g, zero, a), Divide(g, zero, d));
  }

  /** Any change confined to w consecutive bits changes the remainder. */
  lemma BurstDetected(g: Bits, a: Bits, b: Bits, start: nat)
    requires |g| > 0 && g[|g| - 1] && |a| == |b|
    requires DifferWithin(a, b, start, |g|)
    ensures Divide(g, Zeros(|g|), a) != Divide(g, Zeros(|g|), b)
  {
    var burst, after := DifferenceShape(a, b, start, |g|);
    BurstSurvives(g, start, burst, after);
    SameRemainder(g, a, Xor(a, b));
  }

  /** The message consisting of 1 and w more bits is divisible only if it is the generator. */
  lemma DivisibleWord(g: Bits, burst: Bits, after: nat)
    requires |g| > 0 && g[|g| - 1] && |burst| == |g|
    ensures (Divide(g, Zeros(|g|), [true] + (burst + Zeros(after))) == Zeros(|g|)) <==> burst == g
  {
    var tail := burst + Zeros(after);
    assert Shift(g, Zeros(|g|), true) == g;
    assert ([true] + tail)[1..] == tail;
    DivideConcat(g, g, burst, Zeros(after));
    ClearedOnlyByItself(g, g, burst);
    if burst == g {
      DivideZeros(g, after);
    } else {
      NonzeroStays(g, Divide(g, g, burst), after);
    }
  }

  /** One bit wider, exactly one pattern slips through: the generator itself. */
  lemma WiderBurst(g: Bits, a: Bits, before: nat, burst: Bits, after: nat)
    requires |g| > 0 && g[|g| - 1] && |burst| == |g| && |a| == before + 1 + |burst| + after
    ensures (Divide(g, Zeros(|g|), Xor(a, Zeros(before) + ([true] + (burst + Zeros(after))))) ==
             Divide(g, Zeros(|g|), a)) <==> burst == g
  {
    SameRemainder(g, a, Zeros(before) + ([true] + (burst + Zeros(after))));
    LeadingZeros(g, before, [true] + (burst + Zeros(after)));
    DivisibleWord(g, burst, after);
  }

  lemma ShiftOne(g: Bits, r: Bits)
    requires |g| == |r| > 0
    ensures Shift(g, r, true) == Xor(Shift(g, r, false), g)
  {
  }

  lemma DivideOne(g: Bits, r: Bits, bit: bool)
    requires |g| == |r| > 0
    ensures Divide(g, r, [bit]) == Shift(g, r, bit)
  {
    assert [bit][1..] == [];
  }

  lemma MoreZeros(g: Bits, r: Bits, d: nat)
    requires |g| == |r| > 0 && d > 0
    ensures Shift(g, Divide(g, r, Zeros(d - 1)), false) == Divide(g, r, Zeros(d))
  {
    DivideConcat(g, r, Zeros(d - 1), [false]);
    DivideOne(g, Divide(g, r, Zeros(d - 1)), false);
    assert Zeros(d - 1) + [false] == Zeros(d);
  }

  lemma OneFirst(g: Bits, rest: Bits)
    requires |g| > 0
    ensures Divide(g, Zeros(|g|), [true] + rest) == Divide(g, g, rest)
  {
    assert Shift(g, Zeros(|g|), true) == g;
    assert ([true] + rest)[1..] == rest;
  }

  /** Feeding 1, zeros and another 1: what is left is the first 1 moved on, plus the second. */
  lemma OneZerosOne(g: Bits, d: nat)
    requires |g| > 0 && d > 0
    ensures Divide(g, Zeros(|g|), [true] + (Zeros(d - 1) + [true])) == Xor(Divide(g, g, Zeros(d)), g)
  {
    var r := Divide(g, g, Zeros(d - 1));
    OneFirst(g, Zeros(d - 1) + [true]);
    DivideConcat(g, g, Zeros(d - 1), [true]);
    DivideOne(g, r, true);
    ShiftOne(g, r);
    MoreZeros(g, g, d);
  }

  lemma ZerosDecideNothing(g: Bits, r: Bits, n: nat)
    requires |g| == |r| > 0 && g[|g| - 1]
    ensures Divide(g, r, Zeros(n)) == Zeros(|g|) <==> r == Zeros(|g|)
  {
    if r == Zeros(|g|) {
      DivideZeros(g, n);
    } else {
      NonzeroStays(g, r, n);
    }
  }

  lemma TwoBitsDivide(g: Bits, before: nat, d: nat, n: nat)
    requires |g| > 0 && g[|g| - 1] && d > 0
    ensures Divide(g, Zeros(|g|), Zeros(before) + ([true] + (Zeros(d - 1) + [true]) + Zeros(n))) == Zeros(|g|) <==>
              Divide(g, g, Zeros(d)) == g
  {
    var core := [true] + (Zeros(d - 1) + [true]);
    LeadingZeros(g, before, core + Zeros(n));
    DivideConcat(g, Zeros(|g|), core, Zeros(n));
    OneZerosOne(g, d);
    ZerosDecideNothing(g, Divide(g, Zeros(|g|), core), n);
    XorZeroIsEqual(Divide(g, g, Zeros(d)), g);
  }

  lemma RegroupTwoBits(a: Bits, b: Bits)
    ensures [true] + (a + ([true] + b)) == [true] + (a + [true]) + b
  {
  }

  /** The difference of two messages that differ in two bits, d apart. */
  function TwoBits(before: nat, d: nat, after: nat): Bits
    requires d > 0
  {
    Zeros(before) + ([true] + (Zeros(d - 1) + ([true] + Zeros(after))))
  }

  /** Two flipped bits leave the remainder alone exactly if the generator's own remainder comes
      back after as many steps as they are apart. */
  lemma TwoBitsDetected(g: Bits, a: Bits, b: Bits, before: nat, d: nat, after: nat)
    requires |g| > 0 && g[|g| - 1] && |a| == |b| && d > 0 && Xor(a, b) == TwoBits(before, d, after)
    ensures Divide(g, Zeros(|g|), a) == Divide(g, Zeros(|g|), b) <==> Divide(g, g, Zeros(d)) == g
  {
    RegroupTwoBits(Zeros(d - 1), Zeros(after));
    XorTwice(a, b);
    SameRemainder(g, a, Xor(a, b));
    TwoBitsDivide(g, before, d, after);
  }

  lemma XorCancels(a: Bits, b: Bits)
    requires |a| == |b|
    ensures Xor(a, b) == a <==> b == Zeros(|a|)
  {
    if Xor(a, b) == a {
      forall i | 0 <= i < |b| ensures !b[i] {
        assert Xor(a, b)[i] == a[i];
      }
    }
  }

  // ---- parity ----

  function Parity(a: Bits): bool {
    if a == [] then false else a[0] != Parity(a[1..])
  }

  lemma {:induction false} ParityXor(a: Bits, b: Bits)
    requires |a| == |b|
    ensures Parity(Xor(a, b)) == (Parity(a) != Parity(b))
  {
    if a != [] {
      assert Xor(a, b)[1..] == Xor(a[1..], b[1..]);
      ParityXor(a[1..], b[1..]);
    }
  }

  lemma {:induction false} ParityConcat(a: Bits, b: Bits)
    ensures Parity(a + b) == (Parity(a) != Parity(b))
  {
    if a == [] {
      assert a + b == b;
    } else {
      assert (a + b)[1..] == a[1..] + b;
      ParityConcat(a[1..], b);
    }
  }

  /** If x^w + g has an even number of terms, the remainder has the message's parity. */
  lemma {:induction false} DivideParity(g: Bits, r: Bits, message: Bits)
    requires |g| == |r| > 0 && Parity(g)
    ensures Parity(Divide(g, r, message)) == (Parity(r) != Parity(message))
    decreases |message|
  {
    if message != [] {
      ParityConcat(r[1..], [false]);
      ParityXor(r[1..] + [false], g);
      DivideParity(g, Shift(g, r, message[0]), message[1..]);
    }
  }

  // ---- Times is multiplication ----

  /** The terms q[i] * G[k - i] that make up coefficient k of q times G = x^w + g. */
  function Terms(q: Bits, g: Bits, k: nat): Bits {
    seq(|q|, i requires 0 <= i < |q| => q[i] && 0 <= k - i <= |g| && ([true] + g)[k - i])
  }

  lemma TermsSnoc(q: Bits, g: Bits, k: nat)
    requires q != []
    ensures var n := |q| - 1; Terms(q, g, k) == Terms(q[..n], g, k) + [Terms(q, g, k)[n]]
    ensures k >= |q| - 1 + |g| ==> Terms(q[..|q| - 1], g, k) == Zeros(|q| - 1)
  {
  }

  /** One more bit of q adds its own term. */
  lemma TimesSnoc(q: Bits, g: Bits, k: nat)
    requires q != [] && k < |q| + |g|
    ensures var n := |q| - 1;
            Times(q, g)[k] == ((k < n + |g| && Times(q[..n], g)[k]) != Terms(q, g, k)[n])
  {
    var n := |q| - 1;
    var last := Zeros(n) + (if q[n] then [true] + g else Zeros(|g| + 1));
    assert last[k] == Terms(q, g, k)[n];
    assert (Times(q[..n], g) + [false])[k] == (k < n + |g| && Times(q[..n], g)[k]);
  }

  lemma {:induction false} TimesIsConvolution(q: Bits, g: Bits, k: nat)
    requires k < |q| + |g|
    ensures Times(q, g)[k] == Parity(Terms(q, g, k))
    decreases |q|
  {
    if q != [] {
      var n := |q| - 1;
      var last := Terms(q, g, k)[n];
      TermsSnoc(q, g, k);
      TimesSnoc(q, g, k);
      ParityConcat(Terms(q[..n], g, k), [last]);
      ParityOfOne(last);
      if k < n + |g| {
        TimesIsConvolution(q[..n], g, k);
      } else {
        ParityZeros(n);
      }
    } else {
      assert Terms(q, g, k) == [];
    }
  }

  lemma ParityOfOne(b: bool)
    ensures Parity([b]) == b
  {
    assert [b][1..] == [];
  }

  lemma {:induction false} ParityZeros(n: nat)
    ensures !Parity(Zeros(n))
  {
    if n > 0 {
      assert Zeros(n)[1..] == Zeros(n - 1);
      ParityZeros(n - 1);
    }
  }
}
