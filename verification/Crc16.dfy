/** The table-driven CRC-16 of common/crc16.c against division of polynomials over GF(2). */
module Crc16 {
  import opened DivMod
  import opened Crc16Table

  type byte = b: int | 0 <= b < 256

  // ---------------------------------------------------------------- polynomials over GF(2)

  /** A polynomial is the set of the exponents with coefficient one. */
  type Poly = set<nat>

  function Add(a: Poly, b: Poly): Poly { (a - b) + (b - a) }

  function Shift(a: Poly, n: nat): Poly { set k | k in a :: k + n }

  /** x^16 + x^12 + x^5 + 1. */
  const P: Poly := {16, 12, 5, 0}

  /** The product with P. */
  function Times(q: Poly): Poly { Add(Add(Shift(q, 16), Shift(q, 12)), Add(Shift(q, 5), q)) }

  predicate At(a: Poly, k: int) { 0 <= k && k in a }

  /** Equal up to a multiple of P. */
  ghost predicate Congruent(a: Poly, b: Poly) { exists q :: a == Add(Times(q), b) }

  ghost predicate Small(r: Poly) { forall k :: k in r ==> k < 16 }

  ghost predicate IsRemainder(m: Poly, r: Poly) { Small(r) && Congruent(m, r) }

  lemma ShiftAt(a: Poly, n: nat, k: nat)
    ensures k in Shift(a, n) <==> At(a, k - n)
  {
    if At(a, k - n) {
      assert k - n in a && k == (k - n) + n;
    }
  }

  predicate ProductAt(q: Poly, k: int) { ((At(q, k - 16) != At(q, k - 12)) != At(q, k - 5)) != At(q, k) }

  lemma TimesAt(q: Poly, k: nat)
    ensures k in Times(q) <==> ProductAt(q, k)
  {
    ShiftAt(q, 16, k);
    ShiftAt(q, 12, k);
    ShiftAt(q, 5, k);
  }

  lemma Same(a: Poly, b: Poly)
    requires forall k: nat :: k in a <==> k in b
    ensures a == b
  {}

  lemma TimesOne()
    ensures Times({0}) == P && Times({}) == {}
  {
    forall k: nat ensures k in Times({0}) <==> k in P {
      TimesAt({0}, k);
    }
    Same(Times({0}), P);
  }

  lemma ShiftAdd(a: Poly, b: Poly, n: nat)
    ensures Shift(Add(a, b), n) == Add(Shift(a, n), Shift(b, n))
  {
    forall k: nat ensures k in Shift(Add(a, b), n) <==> k in Add(Shift(a, n), Shift(b, n)) {
      ShiftAt(Add(a, b), n, k);
      ShiftAt(a, n, k);
      ShiftAt(b, n, k);
    }
    Same(Shift(Add(a, b), n), Add(Shift(a, n), Shift(b, n)));
  }

  lemma ShiftShift(a: Poly, m: nat, n: nat)
    ensures Shift(Shift(a, m), n) == Shift(a, m + n)
  {
    forall k: nat ensures k in Shift(Shift(a, m), n) <==> k in Shift(a, m + n) {
      ShiftAt(Shift(a, m), n, k);
      ShiftAt(a, m + n, k);
      if k >= n { ShiftAt(a, m, k - n); }
    }
    Same(Shift(Shift(a, m), n), Shift(a, m + n));
  }

  /** (a + b) + (c + d) == (a + c) + (b + d). */
  lemma Swap(a: Poly, b: Poly, c: Poly, d: Poly)
    ensures Add(Add(a, b), Add(c, d)) == Add(Add(a, c), Add(b, d))
  {
    Same(Add(Add(a, b), Add(c, d)), Add(Add(a, c), Add(b, d)));
  }

  lemma AddAssoc(a: Poly, b: Poly, c: Poly)
    ensures Add(Add(a, b), c) == Add(a, Add(b, c))
  {
    Same(Add(Add(a, b), c), Add(a, Add(b, c)));
  }

  lemma Cancel(a: Poly, b: Poly)
    requires Add(a, b) == {}
    ensures a == b
  {
    forall k: nat ensures k in a <==> k in b {
      assert k !in Add(a, b);
    }
    Same(a, b);
  }

  lemma TimesAdd(a: Poly, b: Poly)
    ensures Times(Add(a, b)) == Add(Times(a), Times(b))
  {
    ShiftAdd(a, b, 16);
    ShiftAdd(a, b, 12);
    ShiftAdd(a, b, 5);
    Swap(Shift(a, 16), Shift(b, 16), Shift(a, 12), Shift(b, 12));
    Swap(Shift(a, 5), Shift(b, 5), a, b);
    var x, y := Add(Shift(a, 16), Shift(a, 12)), Add(Shift(b, 16), Shift(b, 12));
    Swap(x, y, Add(Shift(a, 5), a), Add(Shift(b, 5), b));
  }

  lemma ShiftSwap(q: Poly, m: nat, n: nat)
    ensures Shift(Shift(q, n), m) == Shift(Shift(q, m), n)
  {
    ShiftShift(q, n, m);
    ShiftShift(q, m, n);
  }

  lemma TimesShift(q: Poly, n: nat)
    ensures Times(Shift(q, n)) == Shift(Times(q), n)
  {
    ShiftSwap(q, 16, n);
    ShiftSwap(q, 12, n);
    ShiftSwap(q, 5, n);
    ShiftAdd(Shift(q, 16), Shift(q, 12), n);
    ShiftAdd(Shift(q, 5), q, n);
    ShiftAdd(Add(Shift(q, 16), Shift(q, 12)), Add(Shift(q, 5), q), n);
  }

  // ---------------------------------------------------------------- congruence

  lemma CongruentRefl(a: Poly)
    ensures Congruent(a, a)
  {
    TimesOne();
    assert a == Add(Times({}), a);
  }

  lemma CongruentAdd(a: Poly, b: Poly, c: Poly, d: Poly)
    requires Congruent(a, b) && Congruent(c, d)
    ensures Congruent(Add(a, c), Add(b, d))
  {
    var q1 :| a == Add(Times(q1), b);
    var q2 :| c == Add(Times(q2), d);
    Swap(Times(q1), b, Times(q2), d);
    TimesAdd(q1, q2);
    assert Add(a, c) == Add(Times(Add(q1, q2)), Add(b, d));
  }

  lemma CongruentTrans(a: Poly, b: Poly, c: Poly)
    requires Congruent(a, b) && Congruent(b, c)
    ensures Congruent(a, c)
  {
    var q1 :| a == Add(Times(q1), b);
    var q2 :| b == Add(Times(q2), c);
    AddAssoc(Times(q1), Times(q2), c);
    TimesAdd(q1, q2);
    assert a == Add(Times(Add(q1, q2)), c);
  }

  lemma CongruentShift(a: Poly, b: Poly, n: nat)
    requires Congruent(a, b)
    ensures Congruent(Shift(a, n), Shift(b, n))
  {
    var q :| a == Add(Times(q), b);
    ShiftAdd(Times(q), b, n);
    TimesShift(q, n);
    assert Shift(a, n) == Add(Times(Shift(q, n)), Shift(b, n));
  }

  lemma {:induction false} Highest(q: Poly) returns (m: nat)
    requires q != {}
    ensures m in q && forall k :: k in q ==> k <= m
    decreases |q|
  {
    var x :| x in q;
    var rest := q - {x};
    m := x;
    if rest != {} {
      var n := Highest(rest);
      if n > x { m := n; }
    }
    forall k | k in q ensures k <= m {
      assert k == x || k in rest;
    }
  }

  /** A multiple of P with no exponent of 16 or more is zero. */
  lemma SmallMultiple(q: Poly)
    requires Small(Times(q))
    ensures q == {}
  {
    if q != {} {
      var m := Highest(q);
      TimesAt(q, m + 16);
    }
  }

  /** Two small congruent polynomials are equal. */
  lemma SmallCongruent(r1: Poly, r2: Poly)
    requires Small(r1) && Small(r2) && Congruent(r1, r2)
    ensures r1 == r2
  {
    var q :| r1 == Add(Times(q), r2);
    forall k | k in Times(q) ensures k < 16 {
      assert k in r1 || k in r2;
    }
    SmallMultiple(q);
    TimesOne();
    assert Add({}, r2) == r2;
  }

  lemma CongruentSym(a: Poly, b: Poly)
    requires Congruent(a, b)
    ensures Congruent(b, a)
  {
    var q :| a == Add(Times(q), b);
    Same(b, Add(Times(q), a));
  }

  /** Remainders are unique. */
  lemma RemainderUnique(m: Poly, r1: Poly, r2: Poly)
    requires IsRemainder(m, r1) && IsRemainder(m, r2)
    ensures r1 == r2
  {
    CongruentSym(m, r1);
    CongruentTrans(r1, m, r2);
    SmallCongruent(r1, r2);
  }

  // ---------------------------------------------------------------- numbers as polynomials

  /** Bitwise exclusive or. */
  function Xor(a: nat, b: nat): nat
    decreases a + b
  {
    if a == 0 && b == 0 then 0 else 2 * Xor(a / 2, b / 2) + (a + b) % 2
  }

  function Term(on: bool, k: nat): Poly { if on then {k} else {} }

  /** The exponents whose bit is set in a number. */
  function Coeffs(c: nat): Poly { if c == 0 then {} else Term(c % 2 == 1, 0) + Shift(Coeffs(c / 2), 1) }

  lemma {:induction false} CoeffsAt(c: nat, k: nat)
    ensures k in Coeffs(c) <==> if k == 0 then c % 2 == 1 else k - 1 in Coeffs(c / 2)
  {
    if c != 0 {
      ShiftAt(Coeffs(c / 2), 1, k);
    }
  }

  lemma {:induction false} XorHalves(a: nat, b: nat)
    ensures Xor(a, b) % 2 == (a + b) % 2 && Xor(a, b) / 2 == Xor(a / 2, b / 2)
  {
    Halves(Xor(a / 2, b / 2), (a + b) % 2);
  }

  lemma Halves(x: nat, r: nat)
    requires r < 2
    ensures (2 * x + r) / 2 == x && (2 * x + r) % 2 == r
  {}

  lemma {:induction false} XorAt(a: nat, b: nat, k: nat)
    ensures k in Coeffs(Xor(a, b)) <==> ((k in Coeffs(a)) != (k in Coeffs(b)))
    decreases k
  {
    CoeffsAt(Xor(a, b), k);
    CoeffsAt(a, k);
    CoeffsAt(b, k);
    XorHalves(a, b);
    if k > 0 {
      XorAt(a / 2, b / 2, k - 1);
    } else {
      ParityAdds(a, b);
    }
  }

  lemma ParityAdds(a: nat, b: nat)
    ensures (a + b) % 2 == 1 <==> ((a % 2 == 1) != (b % 2 == 1))
  {}

  lemma CoeffsXor(a: nat, b: nat)
    ensures Coeffs(Xor(a, b)) == Add(Coeffs(a), Coeffs(b))
  {
    forall k: nat ensures k in Coeffs(Xor(a, b)) <==> k in Add(Coeffs(a), Coeffs(b)) {
      XorAt(a, b, k);
    }
    Same(Coeffs(Xor(a, b)), Add(Coeffs(a), Coeffs(b)));
  }

  lemma {:induction false} CoeffsInjective(a: nat, b: nat)
    requires Coeffs(a) == Coeffs(b)
    ensures a == b
    decreases a + b
  {
    if a != 0 || b != 0 {
      CoeffsAt(a, 0);
      CoeffsAt(b, 0);
      forall k: nat ensures k in Coeffs(a / 2) <==> k in Coeffs(b / 2) {
        CoeffsAt(a, k + 1);
        CoeffsAt(b, k + 1);
      }
      Same(Coeffs(a / 2), Coeffs(b / 2));
      CoeffsInjective(a / 2, b / 2);
    }
  }

  lemma {:induction false} CoeffsBound(c: nat, n: nat, k: nat)
    requires c < Pow2(n) && k in Coeffs(c)
    ensures k < n
    decreases n
  {
    CoeffsAt(c, k);
    if n > 0 && k > 0 {
      CoeffsBound(c / 2, n - 1, k - 1);
    }
  }

  lemma {:induction false} XorBound(a: nat, b: nat, n: nat)
    requires a < Pow2(n) && b < Pow2(n)
    ensures Xor(a, b) < Pow2(n)
    decreases n
  {
    if n > 0 {
      XorHalves(a, b);
      XorBound(a / 2, b / 2, n - 1);
    }
  }

  lemma Powers()
    ensures Pow2(5) == 32 && Pow2(8) == 256 && Pow2(12) == 4096 && Pow2(16) == 0x1_0000
  {
    assert Pow2(4) == 16;
    assert Pow2(12) == 16 * Pow2(8) by { assert Pow2(10) == 4 * Pow2(8); }
    assert Pow2(16) == 16 * Pow2(12) by { assert Pow2(14) == 4 * Pow2(12); }
  }

  /** c is h followed by the n bits of l. */
  predicate Joined(c: nat, h: nat, l: nat, n: nat) {
    if n == 0 then c == h && l == 0 else c % 2 == l % 2 && Joined(c / 2, h, l / 2, n - 1)
  }

  lemma {:induction false} JoinedNumber(h: nat, l: nat, n: nat)
    requires l < Pow2(n)
    ensures Joined(h * Pow2(n) + l, h, l, n)
    decreases n
  {
    if n > 0 {
      JoinHalf(h, l, Pow2(n - 1));
      JoinedNumber(h, l / 2, n - 1);
    }
  }

  lemma JoinHalf(h: nat, l: nat, p: nat)
    ensures (h * (2 * p) + l) / 2 == h * p + l / 2 && (h * (2 * p) + l) % 2 == l % 2
  {
    var m := h * p;
    assert h * (2 * p) == 2 * m;
  }

  lemma {:induction false} JoinedAt(c: nat, h: nat, l: nat, n: nat, k: nat)
    requires Joined(c, h, l, n)
    ensures k in Coeffs(c) <==> ((k >= n && k - n in Coeffs(h)) != (k in Coeffs(l)))
    decreases n
  {
    CoeffsAt(c, k);
    CoeffsAt(l, k);
    if n == 0 {
      CoeffsZero(0);
    } else if k > 0 {
      JoinedAt(c / 2, h, l / 2, n - 1, k - 1);
    }
  }

  /** The numbers 2^n * h + l, with l below 2^n. */
  lemma {:induction false} CoeffsJoin(h: nat, l: nat, n: nat)
    requires l < Pow2(n)
    ensures Coeffs(h * Pow2(n) + l) == Add(Shift(Coeffs(h), n), Coeffs(l))
  {
    JoinedNumber(h, l, n);
    JoinedCoeffs(h * Pow2(n) + l, h, l, n);
  }

  lemma {:induction false} JoinedCoeffs(c: nat, h: nat, l: nat, n: nat)
    requires Joined(c, h, l, n)
    ensures Coeffs(c) == Add(Shift(Coeffs(h), n), Coeffs(l))
  {
    var r := Add(Shift(Coeffs(h), n), Coeffs(l));
    forall k: nat ensures k in Coeffs(c) <==> k in r {
      JoinedAt(c, h, l, n, k);
      ShiftAt(Coeffs(h), n, k);
    }
    Same(Coeffs(c), r);
  }

  lemma CoeffsZero(n: nat)
    ensures Coeffs(0) == {} && Shift({}, n) == {}
  {}

  lemma {:induction false} CoeffsUp(c: nat, n: nat)
    ensures Coeffs(c * Pow2(n)) == Shift(Coeffs(c), n)
  {
    CoeffsJoin(c, 0, n);
    assert Add(Shift(Coeffs(c), n), {}) == Shift(Coeffs(c), n);
  }

  lemma CoeffsSmall(c: nat)
    requires c < 0x1_0000
    ensures Small(Coeffs(c))
  {
    Powers();
    forall k | k in Coeffs(c) ensures k < 16 {
      CoeffsBound(c, 16, k);
    }
  }

  // ---------------------------------------------------------------- doubling

  lemma HalfQuotient(v: nat, p: nat)
    requires p > 0
    ensures v / (2 * p) == v / 2 / p
  {
    var q, r := v / (2 * p), v % (2 * p);
    assert v == q * (2 * p) + r;
    assert q * (2 * p) == 2 * (q * p);
    assert v / 2 == q * p + r / 2;
    QuotientUnique(v / 2, p, q, r / 2);
  }

  lemma SetBitHere(v: nat, p: nat)
    requires p > 0 && v / p % 2 == 1
    ensures v >= p
  {
    if v < p {
      QuotientUnique(v, p, 0, v);
    }
  }

  lemma ToggleHalf(v: nat, p: nat)
    requires p > 0
    ensures Toggle(v, 2 * p) / 2 == Toggle(v / 2, p) && Toggle(v, 2 * p) % 2 == v % 2
  {
    HalfQuotient(v, p);
    if v / 2 / p % 2 == 1 {
      SetBitHere(v / 2, p);
    }
  }

  lemma {:induction false} ToggleAt(v: nat, j: nat, k: nat)
    ensures k in Coeffs(Toggle(v, Pow2(j))) <==> ((k in Coeffs(v)) != (k == j))
    decreases j
  {
    if j == 0 {
      ToggleLow(v, k);
    } else {
      ToggleHalf(v, Pow2(j - 1));
      CoeffsAt(Toggle(v, Pow2(j)), k);
      CoeffsAt(v, k);
      if k > 0 {
        ToggleAt(v / 2, j - 1, k - 1);
      }
    }
  }

  lemma {:induction false} ToggleLow(v: nat, k: nat)
    ensures k in Coeffs(Toggle(v, 1)) <==> ((k in Coeffs(v)) != (k == 0))
  {
    var t := Toggle(v, 1);
    assert v / 1 == v;
    assert t / 2 == v / 2 && (t % 2 == 1 <==> v % 2 == 0);
    CoeffsAt(t, k);
    CoeffsAt(v, k);
  }

  lemma ToggleCoeffs(v: nat, j: nat)
    ensures Coeffs(Toggle(v, Pow2(j))) == Add(Coeffs(v), {j})
  {
    forall k: nat ensures k in Coeffs(Toggle(v, Pow2(j))) <==> k in Add(Coeffs(v), {j}) {
      ToggleAt(v, j, k);
    }
    Same(Coeffs(Toggle(v, Pow2(j))), Add(Coeffs(v), {j}));
  }

  const TAIL: Poly := {12, 5, 0}

  lemma FeedCoeffs(v: nat)
    ensures Coeffs(Feed(v)) == Add(Coeffs(v), TAIL)
  {
    Powers();
    assert Pow2(0) == 1;
    var a := Toggle(v, 1);
    var b := Toggle(a, 32);
    ToggleCoeffs(v, 0);
    ToggleCoeffs(a, 5);
    ToggleCoeffs(b, 12);
    Same(Add(Add(Add(Coeffs(v), {0}), {5}), {12}), Add(Coeffs(v), TAIL));
  }

  function Feedback(on: bool): Poly { if on then P else {} }

  lemma DoubleCoeffs(c: nat)
    requires c < 0x1_0000
    ensures Shift(Coeffs(c), 1) == Add(Feedback(c >= 0x8000), Coeffs(Double(c)))
  {
    OddCoeffs(c);
    if c < 0x8000 {
      assert Add({}, Coeffs(2 * c)) == Coeffs(2 * c);
    } else {
      DoubleOver(2 * c - 0x1_0000);
    }
  }

  lemma DoubleOver(w: nat)
    requires w < 0x1_0000
    ensures Coeffs(0x1_0000 + w) == Add(P, Coeffs(Feed(w)))
  {
    OverflowCoeffs(w);
    FeedCoeffs(w);
    Reduce(Coeffs(w));
  }

  lemma OverflowCoeffs(w: nat)
    requires w < 0x1_0000
    ensures Coeffs(0x1_0000 + w) == Add({16}, Coeffs(w))
  {
    Powers();
    CoeffsJoin(1, w, 16);
    OneCoeffs();
  }

  lemma OneCoeffs()
    ensures Coeffs(1) == {0} && Shift({0}, 16) == {16}
  {
    assert Coeffs(1) == Term(true, 0) + Shift(Coeffs(0), 1);
  }

  lemma Reduce(w: Poly)
    ensures Add({16}, w) == Add(P, Add(w, TAIL))
  {
    Same(Add({16}, w), Add(P, Add(w, TAIL)));
  }

  lemma FeedbackTimes(on: bool)
    ensures Feedback(on) == Times(if on then {0} else {})
  {
    TimesOne();
  }

  lemma DoubleRemainder(m: Poly, c: nat)
    requires c < 0x1_0000 && Congruent(m, Coeffs(c))
    ensures Congruent(Shift(m, 1), Coeffs(Double(c)))
  {
    CongruentShift(m, Coeffs(c), 1);
    DoubleCoeffs(c);
    FeedbackTimes(c >= 0x8000);
    CongruentTrans(Shift(m, 1), Shift(Coeffs(c), 1), Coeffs(Double(c)));
  }

  // ---------------------------------------------------------------- the table

  lemma {:induction false} OddCoeffs(j: nat)
    ensures Coeffs(2 * j) == Shift(Coeffs(j), 1) && Coeffs(2 * j + 1) == Add(Shift(Coeffs(j), 1), {0})
  {
    assert Pow2(1) == 2;
    OneCoeffs();
    CoeffsZero(1);
    CoeffsJoin(j, 0, 1);
    CoeffsJoin(j, 1, 1);
    assert Add(Shift(Coeffs(j), 1), {}) == Shift(Coeffs(j), 1);
  }

  /** x^16 is x^12 + x^5 + 1. */
  lemma Sixteen()
    ensures Congruent({16}, TAIL)
  {
    TimesOne();
    assert {16} == Add(Times({0}), TAIL);
  }

  /** The entry for i is the remainder of i times x^16. */
  lemma {:induction false} TableCongruent(i: nat)
    requires i < 0x100
    ensures Congruent(Shift(Coeffs(i), 16), Coeffs(Table(i)))
  {
    if i == 0 {
      ZeroEntry();
      CoeffsZero(16);
      CongruentRefl({});
    } else {
      TableCongruent(i / 2);
      TableDoubles(i / 2);
      TableBound(i / 2);
      EntryStep(i / 2, i, Table(i / 2), Table(2 * (i / 2)), Table(i));
    }
  }

  lemma {:induction false} EntryStep(j: nat, i: nat, t: nat, even: nat, t1: nat)
    requires t < 0x1_0000 && Congruent(Shift(Coeffs(j), 16), Coeffs(t)) && even == Double(t)
    requires if i == 2 * j then t1 == even else i == 2 * j + 1 && t1 == Feed(even)
    ensures Congruent(Shift(Coeffs(i), 16), Coeffs(t1))
  {
    DoubleRemainder(Shift(Coeffs(j), 16), t);
    ShiftShift(Coeffs(j), 16, 1);
    ShiftShift(Coeffs(j), 1, 16);
    OddCoeffs(j);
    if i != 2 * j {
      OneCoeffs();
      ShiftAdd(Shift(Coeffs(j), 1), {0}, 16);
      Sixteen();
      CongruentAdd(Shift(Shift(Coeffs(j), 1), 16), Coeffs(even), {16}, TAIL);
      FeedCoeffs(even);
    }
  }

  lemma TableRemainder(i: nat)
    requires i < 0x100
    ensures IsRemainder(Shift(Coeffs(i), 16), Coeffs(Table(i)))
  {
    TableBound(i);
    CoeffsSmall(Table(i));
    TableCongruent(i);
  }

  // ---------------------------------------------------------------- one byte

  /** The body of the loop of cyg_crc16, in 16 bits. */
  function TableStep(c: nat, b: byte): nat { Xor(Table(Xor(c / 256 % 256, b)), c * 256 % 0x1_0000) }

  lemma IndexBound(h: nat, b: byte)
    requires h < 256
    ensures Xor(h, b) < 256
  {
    Powers();
    XorBound(h, b, 8);
  }

  /** The register shifted by a byte, with the new byte added at x^16, splits into the table
      index times x^16 and the low byte moved up. */
  lemma {:induction false} StepSplit(h: nat, l: nat, b: byte)
    requires h < 256 && l < 256
    ensures Add(Shift(Coeffs(256 * h + l), 8), Shift(Coeffs(b), 16))
         == Add(Shift(Coeffs(Xor(h, b)), 16), Coeffs(256 * l))
  {
    var hi, lo, w := Coeffs(h), Coeffs(l), Coeffs(b);
    RegisterUp(h, l);
    IndexUp(h, b);
    Move(Shift(hi, 16), Shift(lo, 8), Shift(w, 16));
  }

  lemma {:induction false} RegisterUp(h: nat, l: nat)
    requires l < 256
    ensures Shift(Coeffs(256 * h + l), 8) == Add(Shift(Coeffs(h), 16), Shift(Coeffs(l), 8))
    ensures Coeffs(256 * l) == Shift(Coeffs(l), 8)
  {
    Powers();
    CoeffsJoin(h, l, 8);
    ShiftAdd(Shift(Coeffs(h), 8), Coeffs(l), 8);
    ShiftShift(Coeffs(h), 8, 8);
    CoeffsUp(l, 8);
  }

  lemma {:induction false} IndexUp(h: nat, b: byte)
    ensures Shift(Coeffs(Xor(h, b)), 16) == Add(Shift(Coeffs(h), 16), Shift(Coeffs(b), 16))
  {
    CoeffsXor(h, b);
    ShiftAdd(Coeffs(h), Coeffs(b), 16);
  }

  lemma Move(a: Poly, b: Poly, c: Poly)
    ensures Add(Add(a, b), c) == Add(Add(a, c), b)
  {
    Same(Add(Add(a, b), c), Add(Add(a, c), b));
  }

  lemma {:induction false} ByteStep(m: Poly, h: nat, l: nat, b: byte, t: nat)
    requires h < 256 && l < 256 && Congruent(m, Coeffs(256 * h + l))
    requires Congruent(Shift(Coeffs(Xor(h, b)), 16), Coeffs(t))
    ensures Congruent(Add(Shift(m, 8), Shift(Coeffs(b), 16)), Coeffs(Xor(t, 256 * l)))
  {
    var w := Shift(Coeffs(b), 16);
    ShiftIn(m, Coeffs(256 * h + l), w);
    StepSplit(h, l, b);
    LookedUp(Xor(h, b), t, 256 * l);
    CongruentTrans(Add(Shift(m, 8), w), Add(Shift(Coeffs(256 * h + l), 8), w), Coeffs(Xor(t, 256 * l)));
  }

  lemma ShiftIn(m: Poly, c: Poly, w: Poly)
    requires Congruent(m, c)
    ensures Congruent(Add(Shift(m, 8), w), Add(Shift(c, 8), w))
  {
    CongruentShift(m, c, 8);
    CongruentRefl(w);
    CongruentAdd(Shift(m, 8), Shift(c, 8), w, w);
  }

  lemma LookedUp(i: nat, t: nat, low: nat)
    requires Congruent(Shift(Coeffs(i), 16), Coeffs(t))
    ensures Congruent(Add(Shift(Coeffs(i), 16), Coeffs(low)), Coeffs(Xor(t, low)))
  {
    CongruentRefl(Coeffs(low));
    CongruentAdd(Shift(Coeffs(i), 16), Coeffs(t), Coeffs(low), Coeffs(low));
    CoeffsXor(t, low);
  }

  lemma SplitRegister(c: nat)
    requires c < 0x1_0000
    ensures c == 256 * (c / 256) + c % 256 && c / 256 < 256 && c / 256 % 256 == c / 256 && c * 256 % 0x1_0000 == 256 * (c % 256)
  {}

  /** One table look-up takes the remainder of a message to that of the message with one
      more byte, and stays in 16 bits. */
  lemma {:induction false} TableByte(m: Poly, c: nat, b: byte)
    requires c < 0x1_0000 && Congruent(m, Coeffs(c))
    ensures TableStep(c, b) < 0x1_0000
    ensures Congruent(Add(Shift(m, 8), Shift(Coeffs(b), 16)), Coeffs(TableStep(c, b)))
  {
    SplitRegister(c);
    var h, l := c / 256, c % 256;
    IndexBound(h, b);
    LookUp(m, h, l, b, Xor(h, b));
  }

  lemma {:induction false} LookUp(m: Poly, h: nat, l: nat, b: byte, i: nat)
    requires h < 256 && l < 256 && Congruent(m, Coeffs(256 * h + l)) && i == Xor(h, b) && i < 256
    ensures Xor(Table(i), 256 * l) < 0x1_0000
    ensures Congruent(Add(Shift(m, 8), Shift(Coeffs(b), 16)), Coeffs(Xor(Table(i), 256 * l)))
  {
    TableCongruent(i);
    TableBound(i);
    Powers();
    XorBound(Table(i), 256 * l, 16);
    ByteStep(m, h, l, b, Table(i));
  }

  // ---------------------------------------------------------------- messages

  /** The low n bits, the highest first. */
  function LowBits(p: Poly, n: nat): (r: seq<bool>)
    ensures |r| == n
  {
    if n == 0 then [] else [n - 1 in p] + LowBits(p, n - 1)
  }

  /** The bits of a message in transmission order. */
  function Bits(buf: seq<byte>): (r: seq<bool>)
    ensures |r| == 8 * |buf|
  {
    if buf == [] then [] else Bits(buf[..|buf| - 1]) + ByteBits(buf[|buf| - 1])
  }

  /** The polynomial of a bit sequence, highest power first. */
  function Message(bits: seq<bool>): Poly { set k: nat | k < |bits| && Coefficient(bits, k) }

  predicate Coefficient(bits: seq<bool>, k: nat)
    requires k < |bits|
  {
    bits[|bits| - 1 - k]
  }

  lemma {:induction false} LowBitsAt(p: Poly, n: nat, k: nat)
    requires k < n
    ensures LowBits(p, n)[n - 1 - k] == (k in p)
  {
    if k < n - 1 {
      LowBitsAt(p, n - 1, k);
    }
  }

  /** The bits of a byte in transmission order. */
  function ByteBits(b: byte): (r: seq<bool>)
    ensures |r| == 8
  {
    LowBits(Coeffs(b), 8)
  }

  lemma NarrowByte(b: byte, k: nat)
    requires 8 <= k
    ensures k !in Coeffs(b)
  {
    Powers();
    if k in Coeffs(b) {
      CoeffsBound(b, 8, k);
    }
  }

  lemma {:induction false} MessageByte(bits: seq<bool>, b: byte)
    ensures Message(bits + ByteBits(b)) == Add(Shift(Message(bits), 8), Coeffs(b))
  {
    var s := bits + ByteBits(b);
    var r := Add(Shift(Message(bits), 8), Coeffs(b));
    forall k: nat ensures k in Message(s) <==> k in r {
      ShiftAt(Message(bits), 8, k);
      if k < 8 { LowBitsAt(Coeffs(b), 8, k); } else { NarrowByte(b, k); }
    }
    Same(Message(s), r);
  }

  lemma {:induction false} ShiftedMessage(bits: seq<bool>, b: byte)
    ensures Shift(Message(bits + ByteBits(b)), 16) == Add(Shift(Shift(Message(bits), 16), 8), Shift(Coeffs(b), 16))
  {
    var m := Message(bits);
    MessageByte(bits, b);
    ShiftAdd(Shift(m, 8), Coeffs(b), 16);
    ShiftShift(m, 8, 16);
    ShiftShift(m, 16, 8);
  }

  function TableCrc(buf: seq<byte>): nat {
    if buf == [] then 0 else TableStep(TableCrc(buf[..|buf| - 1]), buf[|buf| - 1])
  }

  lemma {:induction false} CrcCongruent(buf: seq<byte>)
    ensures TableCrc(buf) < 0x1_0000 && Congruent(Shift(Message(Bits(buf)), 16), Coeffs(TableCrc(buf)))
  {
    if buf == [] {
      CoeffsZero(16);
      CongruentRefl({});
      assert Message([]) == {};
    } else {
      var init, last := buf[..|buf| - 1], buf[|buf| - 1];
      CrcCongruent(init);
      ShiftedMessage(Bits(init), last);
      TableByte(Shift(Message(Bits(init)), 16), TableCrc(init), last);
    }
  }

  /** The checksum is the remainder of the message times x^16, and nothing else is. */
  lemma TableIsRemainder(buf: seq<byte>)
    ensures IsRemainder(Shift(Message(Bits(buf)), 16), Coeffs(TableCrc(buf)))
    ensures forall r :: IsRemainder(Shift(Message(Bits(buf)), 16), r) ==> r == Coeffs(TableCrc(buf))
  {
    var m := Shift(Message(Bits(buf)), 16);
    CrcCongruent(buf);
    CoeffsSmall(TableCrc(buf));
    forall r | IsRemainder(m, r) ensures r == Coeffs(TableCrc(buf)) {
      RemainderUnique(m, r, Coeffs(TableCrc(buf)));
    }
  }

  /** cyg_crc16. */
  method CygCrc16(buf: seq<byte>) returns (cksum: nat)
    ensures cksum == TableCrc(buf) < 0x1_0000
    ensures IsRemainder(Shift(Message(Bits(buf)), 16), Coeffs(cksum))
  {
    cksum := 0;
    for i := 0 to |buf|
      invariant cksum == TableCrc(buf[..i])
    {
      CrcSnoc(buf[..i], buf[i]);
      assert buf[..i + 1] == buf[..i] + [buf[i]];
      cksum := TableStep(cksum, buf[i]);
    }
    assert buf[..|buf|] == buf;
    TableIsRemainder(buf);
    CrcCongruent(buf);
  }

  lemma {:induction false} CrcSnoc(buf: seq<byte>, b: byte)
    ensures TableCrc(buf + [b]) == TableStep(TableCrc(buf), b)
  {
    assert (buf + [b])[..|buf|] == buf;
  }

  // ---------------------------------------------------------------- bit-serial division

  /** One step of long division: shift, bring in the bit at x^16, subtract P if it fits. */
  function BitStep(r: Poly, bit: bool): Poly {
    var s := Add(Shift(r, 1), Term(bit, 16));
    if 16 in s then Add(s, P) else s
  }

  function Serial(bits: seq<bool>): Poly {
    if bits == [] then {} else BitStep(Serial(bits[..|bits| - 1]), bits[|bits| - 1])
  }

  lemma BitStepSmall(r: Poly, bit: bool)
    requires Small(r)
    ensures Small(BitStep(r, bit))
    ensures Congruent(Add(Shift(r, 1), Term(bit, 16)), BitStep(r, bit))
  {
    var s := Add(Shift(r, 1), Term(bit, 16));
    forall k | k in s ensures k <= 16 {
      ShiftAt(r, 1, k);
    }
    TimesOne();
    if 16 in s {
      Same(s, Add(P, Add(s, P)));
    } else {
      CongruentRefl(s);
    }
  }

  lemma {:induction false} MessageBit(bits: seq<bool>, bit: bool)
    ensures Message(bits + [bit]) == Add(Shift(Message(bits), 1), Term(bit, 0))
  {
    var s := bits + [bit];
    var r := Add(Shift(Message(bits), 1), Term(bit, 0));
    forall k: nat ensures k in Message(s) <==> k in r {
      ShiftAt(Message(bits), 1, k);
    }
    Same(Message(s), r);
  }

  lemma ShiftTerm(bit: bool)
    ensures Shift(Term(bit, 0), 16) == Term(bit, 16)
  {}

  lemma {:induction false} SerialRemainder(bits: seq<bool>)
    ensures IsRemainder(Shift(Message(bits), 16), Serial(bits))
  {
    if bits == [] {
      CongruentRefl({});
      assert Shift(Message([]), 16) == {};
    } else {
      var init, bit := bits[..|bits| - 1], bits[|bits| - 1];
      SerialRemainder(init);
      assert bits == init + [bit];
      MessageBit(init, bit);
      var m, r := Message(init), Serial(init);
      ShiftAdd(Shift(m, 1), Term(bit, 0), 16);
      ShiftTerm(bit);
      ShiftShift(m, 1, 16);
      ShiftShift(m, 16, 1);
      NextBit(Shift(m, 16), r, bit);
    }
  }

  lemma NextBit(m: Poly, r: Poly, bit: bool)
    requires IsRemainder(m, r)
    ensures IsRemainder(Add(Shift(m, 1), Term(bit, 16)), BitStep(r, bit))
  {
    BitStepSmall(r, bit);
    CongruentShift(m, r, 1);
    CongruentRefl(Term(bit, 16));
    CongruentAdd(Shift(m, 1), Shift(r, 1), Term(bit, 16), Term(bit, 16));
    CongruentTrans(Add(Shift(m, 1), Term(bit, 16)), Add(Shift(r, 1), Term(bit, 16)), BitStep(r, bit));
  }

  /** The table-driven checksum of every message is the bit-serial one. */
  lemma TableIsSerial(buf: seq<byte>)
    ensures Coeffs(TableCrc(buf)) == Serial(Bits(buf))
  {
    TableIsRemainder(buf);
    SerialRemainder(Bits(buf));
  }

  // ---------------------------------------------------------------- checking a received message

  lemma {:induction false} BitsSnoc(buf: seq<byte>, b: byte)
    ensures Bits(buf + [b]) == Bits(buf) + ByteBits(b)
  {
    assert (buf + [b])[..|buf|] == buf;
  }

  /** Two more bytes behind a message, as one number of 16 bits. */
  lemma {:induction false} AppendTwo(buf: seq<byte>, h: byte, l: byte)
    ensures Message(Bits(buf + [h] + [l])) == Add(Shift(Message(Bits(buf)), 16), Coeffs(256 * h + l))
  {
    BitsSnoc(buf, h);
    BitsSnoc(buf + [h], l);
    MessageByte(Bits(buf), h);
    MessageByte(Bits(buf) + ByteBits(h), l);
    TwoBytes(Message(Bits(buf)), h, l);
  }

  lemma {:induction false} TwoBytes(m: Poly, h: byte, l: byte)
    ensures Add(Shift(Add(Shift(m, 8), Coeffs(h)), 8), Coeffs(l)) == Add(Shift(m, 16), Coeffs(256 * h + l))
  {
    ShiftAdd(Shift(m, 8), Coeffs(h), 8);
    ShiftShift(m, 8, 8);
    Powers();
    CoeffsJoin(h, l, 8);
    AddAssoc(Shift(m, 16), Shift(Coeffs(h), 8), Coeffs(l));
  }

  /** A message followed by two bytes has checksum zero exactly when these are the checksum
      of the message, high byte first. */
  lemma {:induction false} AppendedChecksum(buf: seq<byte>, h: byte, l: byte)
    ensures TableCrc(buf + [h] + [l]) == 0 <==> h == TableCrc(buf) / 256 && l == TableCrc(buf) % 256
  {
    AppendTwo(buf, h, l);
    Longer(buf, buf + [h] + [l], 256 * h + l);
    BytesOf(TableCrc(buf), h, l);
  }

  lemma {:induction false} Longer(buf: seq<byte>, long: seq<byte>, w: nat)
    requires w < 0x1_0000 && Message(Bits(long)) == Add(Shift(Message(Bits(buf)), 16), Coeffs(w))
    ensures TableCrc(long) == 0 <==> TableCrc(buf) == w
  {
    CrcCongruent(buf);
    CrcCongruent(long);
    ZeroDifference(Shift(Message(Bits(buf)), 16), TableCrc(buf), w, TableCrc(long));
  }

  lemma BytesOf(c: nat, h: byte, l: byte)
    ensures c == 256 * h + l <==> h == c / 256 && l == c % 256
  {}

  /** The checksum of the longer message is zero exactly when the appended number is the
      remainder. */
  lemma {:induction false} ZeroDifference(m: Poly, c: nat, w: nat, r: nat)
    requires c < 0x1_0000 && w < 0x1_0000 && r < 0x1_0000
    requires Congruent(m, Coeffs(c)) && Congruent(Shift(Add(m, Coeffs(w)), 16), Coeffs(r))
    ensures r == 0 <==> c == w
  {
    var d := Add(Coeffs(c), Coeffs(w));
    CongruentRefl(Coeffs(w));
    CongruentAdd(m, Coeffs(c), Coeffs(w), Coeffs(w));
    CongruentShift(Add(m, Coeffs(w)), d, 16);
    CongruentSym(Shift(Add(m, Coeffs(w)), 16), Shift(d, 16));
    CongruentTrans(Shift(d, 16), Shift(Add(m, Coeffs(w)), 16), Coeffs(r));
    CoeffsSmall(c);
    CoeffsSmall(w);
    CoeffsSmall(r);
    CoeffsZero(16);
    if r == 0 {
      UnshiftN(d, 16);
      SmallCongruent(d, {});
      Cancel(Coeffs(c), Coeffs(w));
      CoeffsInjective(c, w);
    }
    if c == w {
      assert d == {};
      CongruentSym({}, Coeffs(r));
      SmallCongruent(Coeffs(r), {});
      CoeffsInjective(r, 0);
    }
  }

  function Down(q: Poly): Poly { set k | k in q && k >= 1 :: k - 1 }

  lemma DownShift(q: Poly)
    requires 0 !in q
    ensures Shift(Down(q), 1) == q
  {
    forall k: nat ensures k in q <==> k in Shift(Down(q), 1) {
      ShiftAt(Down(q), 1, k);
      if k in q { assert k - 1 in Down(q); }
    }
    Same(q, Shift(Down(q), 1));
  }

  lemma ShiftInjective(a: Poly, b: Poly)
    requires Shift(a, 1) == Shift(b, 1)
    ensures a == b
  {
    forall k: nat ensures k in a <==> k in b {
      ShiftAt(a, 1, k + 1);
      ShiftAt(b, 1, k + 1);
    }
    Same(a, b);
  }

  /** P is not divisible by x: a multiple of P that is a multiple of x stays one without it. */
  lemma Unshift(s: Poly)
    requires Congruent(Shift(s, 1), {})
    ensures Congruent(s, {})
  {
    var q :| Shift(s, 1) == Add(Times(q), {});
    assert Add(Times(q), {}) == Times(q);
    ShiftAt(s, 1, 0);
    TimesAt(q, 0);
    DownShift(q);
    TimesShift(Down(q), 1);
    ShiftInjective(s, Times(Down(q)));
    assert s == Add(Times(Down(q)), {});
  }

  lemma {:induction false} UnshiftN(s: Poly, n: nat)
    requires Congruent(Shift(s, n), {})
    ensures Congruent(s, {})
    decreases n
  {
    if n == 0 {
      assert Shift(s, 0) == s;
    } else {
      ShiftShift(s, n - 1, 1);
      Unshift(Shift(s, n - 1));
      UnshiftN(s, n - 1);
    }
  }

  /** Two bit sequences of one length that differ only within sixteen adjacent positions. */
  predicate Burst(a: seq<bool>, b: seq<bool>, j: nat) {
    |a| == |b| && forall i :: 0 <= i < |a| && a[i] != b[i] ==> j <= i < j + 16
  }

  /** The difference of the two polynomials, moved down to x^0, is small. */
  lemma BurstSmall(a: seq<bool>, b: seq<bool>, j: nat) returns (e: Poly, n: nat)
    requires Burst(a, b, j)
    ensures Small(e) && Add(Message(a), Message(b)) == Shift(e, n)
  {
    var d := Add(Message(a), Message(b));
    n := if |a| >= j + 16 then |a| - j - 16 else 0;
    e := set k | k in d && k >= n :: k - n;
    forall k | k in d ensures n <= k < n + 16 {
      assert a[|a| - 1 - k] != b[|a| - 1 - k];
    }
    forall k: nat ensures k in d <==> k in Shift(e, n) {
      ShiftAt(e, n, k);
    }
    Same(d, Shift(e, n));
  }

  lemma SameBits(a: seq<bool>, b: seq<bool>)
    requires |a| == |b| && Message(a) == Message(b)
    ensures a == b
  {
    forall i | 0 <= i < |a| ensures a[i] == b[i] {
      var k: nat := |a| - 1 - i;
      assert k in Message(a) <==> a[i];
      assert k in Message(b) <==> b[i];
    }
  }

  lemma SameChecksum(a: seq<byte>, b: seq<byte>)
    requires TableCrc(a) == TableCrc(b)
    ensures Congruent(Shift(Add(Message(Bits(a)), Message(Bits(b))), 16), {})
  {
    var x, y := Message(Bits(a)), Message(Bits(b));
    var c := Coeffs(TableCrc(a));
    CrcCongruent(a);
    CrcCongruent(b);
    CongruentAdd(Shift(x, 16), c, Shift(y, 16), c);
    ShiftAdd(x, y, 16);
    assert Add(c, c) == {};
  }

  lemma BurstZero(a: seq<bool>, b: seq<bool>, j: nat)
    requires Burst(a, b, j) && Congruent(Shift(Add(Message(a), Message(b)), 16), {})
    ensures a == b
  {
    var e, n := BurstSmall(a, b, j);
    ShiftShift(e, n, 16);
    UnshiftN(e, n + 16);
    SmallCongruent(e, {});
    assert Shift(e, n) == {};
    Cancel(Message(a), Message(b));
    SameBits(a, b);
  }

  lemma {:induction false} ByteOfBits(b: byte)
    ensures Message(ByteBits(b)) == Coeffs(b)
  {
    var none: seq<bool> := [];
    MessageByte(none, b);
    assert none + ByteBits(b) == ByteBits(b);
    assert Shift(Message(none), 8) == {};
  }

  /** A message is determined by its bits. */
  lemma {:induction false} BitsInjective(a: seq<byte>, b: seq<byte>)
    requires Bits(a) == Bits(b)
    ensures a == b
    decreases |a|
  {
    if a != [] {
      var n := |a| - 1;
      LastBits(Bits(a[..n]), ByteBits(a[n]), Bits(b[..n]), ByteBits(b[n]));
      BitsInjective(a[..n], b[..n]);
      ByteOfBits(a[n]);
      ByteOfBits(b[n]);
      CoeffsInjective(a[n], b[n]);
      assert a == a[..n] + [a[n]] && b == b[..n] + [b[n]];
    }
  }

  lemma LastBits(x: seq<bool>, y: seq<bool>, u: seq<bool>, v: seq<bool>)
    requires x + y == u + v && |x| == |u|
    ensures x == u && y == v
  {
    assert x == (x + y)[..|x|] && u == (u + v)[..|u|];
    assert y == (x + y)[|x|..] && v == (u + v)[|u|..];
  }

  /** Any change confined to sixteen adjacent bits of a message changes its checksum. */
  lemma BurstDetected(a: seq<byte>, b: seq<byte>, j: nat)
    requires Burst(Bits(a), Bits(b), j) && TableCrc(a) == TableCrc(b)
    ensures a == b
  {
    SameChecksum(a, b);
    BurstZero(Bits(a), Bits(b), j);
    BitsInjective(a, b);
  }
}
