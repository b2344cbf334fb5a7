/** How the flow table's lists share out the ports of otherwise equal flows. */
module PortSpread {
  import opened Basics
  import opened FlowHash
  import opened FlowTables

  // ---- injective maps on the first n numbers ----

  ghost predicate Injective(f: nat -> nat, n: nat) {
    && (forall p: nat :: p < n ==> f(p) < n)
    && (forall p: nat, q: nat :: p < q < n ==> f(p) != f(q))
  }

  ghost function Image(f: nat -> nat, m: nat): set<nat> {
    if m == 0 then {} else Image(f, m - 1) + {f(m - 1)}
  }

  lemma {:induction false} InImage(f: nat -> nat, m: nat, v: nat)
    ensures v in Image(f, m) <==> exists p: nat :: p < m && f(p) == v
  {
    if m > 0 {
      InImage(f, m - 1, v);
    }
  }

  lemma NewInImage(f: nat -> nat, n: nat, m: nat)
    requires Injective(f, n) && m < n
    ensures f(m) < n && f(m) !in Image(f, m)
  {
    InImage(f, m, f(m));
  }

  lemma {:induction false} ImageSize(f: nat -> nat, n: nat, m: nat)
    requires Injective(f, n) && m <= n
    ensures |Image(f, m)| == m
  {
    if m > 0 {
      ImageSize(f, n, m - 1);
      NewInImage(f, n, m - 1);
    }
  }

  /** Every value below n is taken. */
  lemma Onto(f: nat -> nat, n: nat, v: nat) returns (p: nat)
    requires Injective(f, n) && v < n
    ensures p < n && f(p) == v
  {
    ImageSize(f, n, n);
    forall w | w in Image(f, n) ensures w in Below(n) {
      InImage(f, n, w);
    }
    if v !in Image(f, n) {
      ProperSubsetIsSmaller(Image(f, n), Below(n));
      assert false;
    }
    InImage(f, n, v);
    p :| p < n && f(p) == v;
  }

  ghost function Preimage(f: nat -> nat, n: nat, lo: nat, hi: nat): set<nat> {
    set p: nat | p < n && lo <= f(p) < hi
  }

  lemma {:induction false} PreimageSize(f: nat -> nat, n: nat, lo: nat, hi: nat)
    requires Injective(f, n) && lo <= hi <= n
    ensures |Preimage(f, n, lo, hi)| == hi - lo
    decreases hi
  {
    if lo == hi {
      assert Preimage(f, n, lo, hi) == {};
    } else {
      PreimageSize(f, n, lo, hi - 1);
      var last := Onto(f, n, hi - 1);
      PreimageStep(f, n, lo, hi, last);
    }
  }

  lemma PreimageStep(f: nat -> nat, n: nat, lo: nat, hi: nat, last: nat)
    requires Injective(f, n) && lo < hi <= n && last < n && f(last) == hi - 1
    ensures Preimage(f, n, lo, hi) == Preimage(f, n, lo, hi - 1) + {last}
    ensures last !in Preimage(f, n, lo, hi - 1)
  {
    forall p: nat | p < n ensures f(p) == hi - 1 <==> p == last {
    }
  }

  // ---- lists ----

  lemma {:induction false} ShiftRightIs(h: nat, n: nat, i: nat)
    ensures ShiftRight(h, n) == i <==> i * Pow2(n) <= h < (i + 1) * Pow2(n)
    decreases n
  {
    if n > 0 {
      ShiftRightIs(h / 2, n - 1, i);
      Doubled(h, i * Pow2(n - 1), (i + 1) * Pow2(n - 1));
      TwiceAsWide(i, Pow2(n - 1));
      TwiceAsWide(i + 1, Pow2(n - 1));
    }
  }

  lemma TwiceAsWide(i: nat, width: nat)
    ensures i * (2 * width) == 2 * (i * width)
  {
  }

  lemma Doubled(h: nat, lo: nat, hi: nat)
    ensures lo <= h / 2 < hi <==> 2 * lo <= h < 2 * hi
  {
  }

  lemma {:induction false} Pow2Sum(a: nat, b: nat)
    ensures Pow2(a + b) == Pow2(a) * Pow2(b)
  {
    if a > 0 {
      Pow2Sum(a - 1, b);
      assert Pow2(a) * Pow2(b) == 2 * (Pow2(a - 1) * Pow2(b));
    }
  }

  // ---- ports ----

  datatype End = Local | Remote

  lemma TopIsClear(w: bv16)
    requires WordValue(w) < 0x8000
    ensures w & 0x8000 == 0
  {
  }

  lemma EvenValue(w: bv16, even: bv16)
    requires w & 0x8000 == 0 && even == w << 1
    ensures WordValue(even) == 2 * WordValue(w)
  {
  }

  lemma OddValue(w: bv16, odd: bv16)
    requires w & 0x8000 == 0 && odd == (w << 1) | 1
    ensures WordValue(odd) == 2 * WordValue(w) + 1
  {
  }

  /** Every number below 2^16 is a port. */
  lemma {:induction false} SomeWord(p: nat) returns (w: bv16)
    requires p < 0x1_0000
    ensures WordValue(w) == p
    decreases p
  {
    if p == 0 {
      w := 0;
    } else {
      var h := SomeWord(p / 2);
      TopIsClear(h);
      if p % 2 == 0 {
        w := h << 1;
        EvenValue(h, w);
      } else {
        w := (h << 1) | 1;
        OddValue(h, w);
      }
    }
  }

  function Port(p: nat): bv16 {
    if p < 0x1_0000 then p as bv16 else 0
  }

  lemma PortIs(p: nat, w: bv16)
    requires WordValue(w) == p < 0x1_0000
    ensures Port(p) == w
  {
  }

  lemma DifferentPorts(p: nat, q: nat)
    requires p < q < 0x1_0000
    ensures Port(p) != Port(q)
  {
    var v := SomeWord(p);
    var w := SomeWord(q);
    PortIs(p, v);
    PortIs(q, w);
  }

  function WithPort(flow: FlowKey, end: End, p: nat): FlowKey {
    if end.Local? then flow.(localPort := Port(p)) else flow.(remotePort := Port(p))
  }

  /** The flow's hash as a function of one of its ports. */
  function PortHash(flow: FlowKey, end: End, bigEndian: bool): nat -> nat {
    (p: nat) => HashValue(WithPort(flow, end, p), bigEndian)
  }

  lemma SameValueSameWord(a: bv16, b: bv16)
    requires WordValue(a) == WordValue(b)
    ensures a == b
  {
    assert (a as nat) as bv16 == a && (b as nat) as bv16 == b;
  }

  lemma PortsDiffer(flow: FlowKey, end: End, bigEndian: bool, p: nat, q: nat)
    requires p < q < 0x1_0000
    ensures PortHash(flow, end, bigEndian)(p) != PortHash(flow, end, bigEndian)(q)
  {
    var a, b := WithPort(flow, end, p), WithPort(flow, end, q);
    DifferentPorts(p, q);
    if end.Local? {
      LocalPortsSeparate(b, Port(p), bigEndian);
    } else {
      RemotePortsSeparate(b, Port(p), bigEndian);
    }
    if WordValue(Hash(a, bigEndian)) == WordValue(Hash(b, bigEndian)) {
      SameValueSameWord(Hash(a, bigEndian), Hash(b, bigEndian));
    }
  }

  lemma PortHashInjective(flow: FlowKey, end: End, bigEndian: bool)
    ensures Injective(PortHash(flow, end, bigEndian), 0x1_0000)
  {
    forall p: nat, q: nat | p < q < 0x1_0000
      ensures PortHash(flow, end, bigEndian)(p) != PortHash(flow, end, bigEndian)(q)
    {
      PortsDiffer(flow, end, bigEndian, p, q);
    }
  }

  /** The ports that put the flow into a given list. */
  ghost function PortsOfList(f: nat -> nat, bits: nat, list: nat): set<nat>
    requires bits <= 16
  {
    set p: nat | p < 0x1_0000 && Bucket(f(p), bits) == list
  }

  /** A list stands for as many of the 65536 hash values as all others. */
  lemma ListBounds(bits: nat, list: nat)
    requires bits <= 16 && list < Pow2(bits)
    ensures (list + 1) * Pow2(16 - bits) <= 0x1_0000
    ensures (list + 1) * Pow2(16 - bits) == list * Pow2(16 - bits) + Pow2(16 - bits)
  {
    Pow2Sum(bits, 16 - bits);
    SixteenBits();
    MulMono(list + 1, Pow2(bits), Pow2(16 - bits));
  }

  lemma ListIsInterval(f: nat -> nat, bits: nat, list: nat)
    requires bits <= 16 && list < Pow2(bits) && Injective(f, 0x1_0000)
    ensures |PortsOfList(f, bits, list)| == Pow2(16 - bits)
  {
    var n := 16 - bits;
    var lo, hi := list * Pow2(n), (list + 1) * Pow2(n);
    ListBounds(bits, list);
    forall p: nat
      ensures Bucket(f(p), bits) == list <==> lo <= f(p) < hi
    {
      ShiftRightIs(f(p), n, list);
    }
    PreimageSize(f, 0x1_0000, lo, hi);
    assert PortsOfList(f, bits, list) == Preimage(f, 0x1_0000, lo, hi);
  }

  lemma SixteenBits()
    ensures Pow2(16) == 0x1_0000
  {
    assert Pow2(4) == 16;
    assert Pow2(8) == 256;
    assert Pow2(12) == 4096;
  }

  /** Of the 65536 flows that differ in one port only, every list gets the same number. */
  lemma PortsAreSpreadEvenly(flow: FlowKey, end: End, bigEndian: bool, bits: nat, list: nat)
    requires bits <= 16 && list < Pow2(bits)
    ensures |PortsOfList(PortHash(flow, end, bigEndian), bits, list)| == Pow2(16 - bits)
  {
    PortHashInjective(flow, end, bigEndian);
    ListIsInterval(PortHash(flow, end, bigEndian), bits, list);
  }
}
