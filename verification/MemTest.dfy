/** The alternative memory test of common/cmd_mem.c over a faulty memory: every offset is
    decoded to a cell, several offsets may share one, and bits of a cell may be stuck. */
module MemTest {
  import opened DivMod

  /** A 32-bit word as the set of its one bits. */
  datatype Word = Word(ones: set<nat>)

  const BITS := set i: nat | i < 32
  const ZERO := Word({})

  predicate Wide(w: Word) { w.ones <= BITS }

  function Not(w: Word): Word { Word(BITS - w.ones) }

  /** A memory and its faults: bits that always read zero, and bits that always read one. */
  datatype Faults = Faults(decode: nat -> nat, zero: nat -> Word, one: nat -> Word) {

    /** What a cell shows after v was written to it. */
    function Show(c: nat, v: Word): Word { Word((v.ones - zero(c).ones) + one(c).ones) }

    predicate Healthy(c: nat) { zero(c) == ZERO && one(c) == ZERO }

    ghost predicate Valid() { forall c :: Wide(zero(c)) && Wide(one(c)) }
  }

  /** A cell that shows a word and its complement has no stuck bit, and holds that word. */
  lemma BothWays(f: Faults, c: nat, v: Word, p: Word)
    requires f.Valid() && Wide(v) && Wide(p) && f.Show(c, v) == p && f.Show(c, Not(v)) == Not(p)
    ensures f.Healthy(c) && v == p
  {
    var z, o := f.zero(c).ones, f.one(c).ones;
    assert o <= p.ones && o <= Not(p).ones;
    assert o == {};
    assert z * p.ones == {} && z * Not(p).ones == {};
    assert z == {};
    assert v.ones - {} + {} == v.ones;
  }

  lemma HealthyShows(f: Faults, c: nat, v: Word)
    requires f.Healthy(c)
    ensures f.Show(c, v) == v
  {
    assert v.ones - {} + {} == v.ones;
  }

  predicate Bit(n: nat, i: nat) { if i == 0 then n % 2 == 1 else Bit(n / 2, i - 1) }

  /** The number n as a word. */
  function Num(n: nat): (w: Word)
    ensures Wide(w)
  {
    Word(set i: nat | i < 32 && Bit(n, i))
  }

  lemma {:induction false} BitsDetermine(m: nat, n: nat, w: nat)
    requires m < Pow2(w) && n < Pow2(w) && forall i :: 0 <= i < w ==> Bit(m, i) == Bit(n, i)
    ensures m == n
    decreases w
  {
    if w > 0 {
      assert Bit(m, 0) == Bit(n, 0);
      forall i | 0 <= i < w - 1
        ensures Bit(m / 2, i) == Bit(n / 2, i)
      {
        assert Bit(m, i + 1) == Bit(n, i + 1);
      }
      BitsDetermine(m / 2, n / 2, w - 1);
    }
  }

  lemma Pow32()
    ensures Pow2(32) == 0x1_0000_0000
  {
    assert Pow2(8) == 256;
    assert Pow2(16) == 65536 by { assert Pow2(12) == 4096; }
    assert Pow2(24) == 16777216 by { assert Pow2(20) == 1048576; }
    assert Pow2(28) == 268435456;
  }

  lemma NumInjective(m: nat, n: nat)
    requires m < 0x1_0000_0000 && n < 0x1_0000_0000 && Num(m) == Num(n)
    ensures m == n
  {
    Pow32();
    forall i | 0 <= i < 32
      ensures Bit(m, i) == Bit(n, i)
    {
      assert i in Num(m).ones <==> i in Num(n).ones;
    }
    BitsDetermine(m, n, 32);
  }

  // ---------------------------------------------------------------- increment/decrement

  /** One more than the last offset below n that decodes to cell c; zero if there is none. */
  function Last(f: Faults, n: nat, c: nat): (k: nat)
    ensures k <= n && (k != 0 ==> f.decode(k - 1) == c)
    ensures forall o :: 0 <= o < n && f.decode(o) == c ==> o < k
  {
    if n == 0 then 0 else if f.decode(n - 1) == c then n else Last(f, n - 1, c)
  }

  ghost predicate Injective(f: Faults, n: nat) {
    forall a, b :: 0 <= a < n && 0 <= b < n && f.decode(a) == f.decode(b) ==> a == b
  }

  ghost predicate AllHealthy(f: Faults, n: nat) { forall a :: 0 <= a < n ==> f.Healthy(f.decode(a)) }

  /** What was last written to cell c when the second or third pass stands at offset o. */
  function Second(f: Faults, n: nat, o: nat, c: nat): Word {
    if Last(f, o, c) != 0 then Not(Num(Last(f, o, c))) else Num(Last(f, n, c))
  }

  function Third(f: Faults, n: nat, o: nat, c: nat): Word {
    if Last(f, o, c) != 0 then ZERO else Not(Num(Last(f, n, c)))
  }

  /** The read of the word at offset o in the second, and in the third pass. */
  predicate SecondOk(f: Faults, n: nat, o: nat) {
    f.Show(f.decode(o), Second(f, n, o, f.decode(o))) == Num(o + 1)
  }

  predicate ThirdOk(f: Faults, n: nat, o: nat) {
    f.Show(f.decode(o), Third(f, n, o, f.decode(o))) == Not(Num(o + 1))
  }

  predicate WordPasses(f: Faults, n: nat, o: nat) { SecondOk(f, n, o) && ThirdOk(f, n, o) }

  ghost predicate AllPass(f: Faults, n: nat) { forall o :: 0 <= o < n ==> WordPasses(f, n, o) }

  /** The first k reads of the second, and of the third pass. */
  ghost predicate SecondsOk(f: Faults, n: nat, k: nat) { forall o :: 0 <= o < k ==> SecondOk(f, n, o) }

  ghost predicate ThirdsOk(f: Faults, n: nat, k: nat) { forall o :: 0 <= o < k ==> ThirdOk(f, n, o) }

  lemma PassesSplit(f: Faults, n: nat)
    ensures AllPass(f, n) <==> SecondsOk(f, n, n) && ThirdsOk(f, n, n)
  {
    if AllPass(f, n) {
      forall o | 0 <= o < n
        ensures SecondOk(f, n, o) && ThirdOk(f, n, o)
      {
        assert WordPasses(f, n, o);
      }
    }
    if SecondsOk(f, n, n) && ThirdsOk(f, n, n) {
      forall o | 0 <= o < n
        ensures WordPasses(f, n, o)
      {
        assert SecondOk(f, n, o) && ThirdOk(f, n, o);
      }
    }
  }

  /** The cells of the first n offsets as the second and third pass find them at offset o. */
  ghost predicate InSecond(f: Faults, n: nat, o: nat, cells: seq<Word>) {
    forall c :: 0 <= c < |cells| && Last(f, n, c) != 0 ==> cells[c] == Second(f, n, o, c)
  }

  ghost predicate InThird(f: Faults, n: nat, o: nat, cells: seq<Word>) {
    forall c :: 0 <= c < |cells| && Last(f, n, c) != 0 ==> cells[c] == Third(f, n, o, c)
  }

  /** Every offset decodes to one of the cells. */
  ghost predicate Decodes(f: Faults, size: nat) { forall o {:trigger f.decode(o)} :: f.decode(o) < size }

  lemma {:induction false} SecondStep(f: Faults, n: nat, o: nat, cells: seq<Word>)
    requires o < n && f.decode(o) < |cells| && InSecond(f, n, o, cells)
    ensures f.Show(f.decode(o), cells[f.decode(o)]) == Num(o + 1) <==> SecondOk(f, n, o)
    ensures InSecond(f, n, o + 1, cells[f.decode(o) := Not(Num(o + 1))])
  {
    var after := cells[f.decode(o) := Not(Num(o + 1))];
    forall c | 0 <= c < |after| && Last(f, n, c) != 0
      ensures after[c] == Second(f, n, o + 1, c)
    {
      assert Last(f, o + 1, c) == if f.decode(o) == c then o + 1 else Last(f, o, c);
    }
  }

  lemma {:induction false} SecondDone(f: Faults, n: nat, cells: seq<Word>)
    requires InSecond(f, n, n, cells)
    ensures InThird(f, n, 0, cells)
  {}

  lemma {:induction false} ThirdStep(f: Faults, n: nat, o: nat, cells: seq<Word>)
    requires o < n && f.decode(o) < |cells| && InThird(f, n, o, cells)
    ensures f.Show(f.decode(o), cells[f.decode(o)]) == Not(Num(o + 1)) <==> ThirdOk(f, n, o)
    ensures InThird(f, n, o + 1, cells[f.decode(o) := ZERO])
  {
    var after := cells[f.decode(o) := ZERO];
    forall c | 0 <= c < |after| && Last(f, n, c) != 0
      ensures after[c] == Third(f, n, o + 1, c)
    {
      assert Last(f, o + 1, c) == if f.decode(o) == c then o + 1 else Last(f, o, c);
    }
  }

  /** If every word passes, no offset shares its cell with a smaller one. */
  lemma {:induction false} FirstOfItsCell(f: Faults, n: nat, o: nat)
    requires f.Valid() && AllPass(f, n) && o < n < 0x1_0000_0000
    ensures Last(f, o, f.decode(o)) == 0 && Last(f, n, f.decode(o)) == o + 1 && f.Healthy(f.decode(o))
    decreases o
  {
    var c := f.decode(o);
    assert WordPasses(f, n, o);
    var k := Last(f, o, c);
    if k != 0 {
      FirstOfItsCell(f, n, k - 1);
    }
    BothWays(f, c, Num(Last(f, n, c)), Num(o + 1));
    NumInjective(Last(f, n, c), o + 1);
  }

  lemma {:induction false} PassSound(f: Faults, n: nat)
    requires f.Valid() && n < 0x1_0000_0000 && AllPass(f, n)
    ensures Injective(f, n) && AllHealthy(f, n)
  {
    forall a | 0 <= a < n
      ensures Last(f, n, f.decode(a)) == a + 1 && f.Healthy(f.decode(a))
    {
      FirstOfItsCell(f, n, a);
    }
    forall a, b | 0 <= a < n && 0 <= b < n && f.decode(a) == f.decode(b)
      ensures a == b
    {
      assert Last(f, n, f.decode(a)) == a + 1 && Last(f, n, f.decode(b)) == b + 1;
    }
  }

  lemma {:induction false} SoundWord(f: Faults, n: nat, o: nat)
    requires Injective(f, n) && AllHealthy(f, n) && o < n
    ensures WordPasses(f, n, o)
  {
    var c := f.decode(o);
    assert f.Healthy(c);
    assert Last(f, o, c) == 0 && Last(f, n, c) == o + 1;
    HealthyShows(f, c, Second(f, n, o, c));
    HealthyShows(f, c, Third(f, n, o, c));
  }

  /** The passes find a fault exactly when there is one. */
  lemma {:induction false} PassIffSound(f: Faults, n: nat)
    requires f.Valid() && n < 0x1_0000_0000
    ensures AllPass(f, n) <==> Injective(f, n) && AllHealthy(f, n)
  {
    if AllPass(f, n) {
      PassSound(f, n);
    }
    if Injective(f, n) && AllHealthy(f, n) {
      forall o | 0 <= o < n
        ensures WordPasses(f, n, o)
      {
        SoundWord(f, n, o);
      }
    }
  }

  // ---------------------------------------------------------------- address lines

  const W := 0x1_0000_0000

  /** 0xaaaaaaaa and 0x55555555. */
  const PATTERN := Word(set i: nat | i < 32 && i % 2 == 1)
  const ANTI := Word(set i: nat | i < 32 && i % 2 == 0)

  lemma Complementary()
    ensures ANTI == Not(PATTERN) && ANTI != PATTERN
  {
    assert 0 in ANTI.ones && 0 !in PATTERN.ones;
  }

  /** offset & mask is not zero, for an offset that is a power of two or zero. */
  predicate Masked(mask: nat, offset: nat) { offset != 0 && mask / offset % 2 == 1 }

  /** The pattern and the anti-pattern as numbers. */
  lemma {:induction false} PatternNumbers()
    ensures PATTERN == Num(0xAAAA_AAAA) && ANTI == Num(0x5555_5555)
  {
    forall i: nat | i < 32
      ensures Bit(0xAAAA_AAAA, i) == (i % 2 == 1) && Bit(0x5555_5555, i) == (i % 2 == 0)
    {
      PatternBit(i);
    }
  }

  lemma {:induction false} PatternBit(i: nat)
    requires i < 32
    ensures Bit(0xAAAA_AAAA, i) == (i % 2 == 1) && Bit(0x5555_5555, i) == (i % 2 == 0)
  {
    Pow32();
    AlternateBits(0xAAAA_AAAA, 32, i);
    if i < 31 {
      AlternateBits(0xAAAA_AAAA, 32, i + 1);
    } else {
      SmallBits(0x5555_5555, 31);
    }
  }

  lemma {:induction false} AlternateBits(n: nat, w: nat, i: nat)
    requires 3 * n == 2 * (Pow2(w) - 1) && i < w && w % 2 == 0
    ensures Bit(n, i) == (i % 2 == 1)
  {
    TwoDoublings(w - 2);
    Quarter(n, Pow2(w - 2));
    if i > 1 {
      AlternateBits(n / 2 / 2, w - 2, i - 2);
      assert Bit(n, i) == Bit(n / 2, i - 1) == Bit(n / 2 / 2, i - 2);
    } else if i == 1 {
      assert Bit(n, 1) == Bit(n / 2, 0);
    }
  }

  lemma TwoDoublings(w: nat)
    ensures Pow2(w + 2) == 4 * Pow2(w)
  {
    assert Pow2(w + 1) == 2 * Pow2(w);
  }

  lemma Quarter(n: nat, q: nat)
    requires 3 * n == 2 * (4 * q - 1)
    ensures 3 * (n / 2 / 2) == 2 * (q - 1) && n % 2 == 0 && n / 2 % 2 == 1
  {
    assert n == 2 * (n / 2) && n / 2 == 2 * (n / 2 / 2) + 1;
  }

  lemma {:induction false} SmallBits(n: nat, i: nat)
    requires n < Pow2(i)
    ensures !Bit(n, i)
  {
    if i > 0 {
      SmallBits(n / 2, i - 1);
    }
  }

  lemma {:induction false} MaskedBit(mask: nat, k: nat)
    ensures Masked(mask, Pow2(k)) == (mask / Pow2(k) % 2 == 1) == Bit(mask, k)
  {
    if k > 0 {
      MaskedBit(mask / 2, k - 1);
      HalfQuotient(mask, Pow2(k - 1));
    }
  }

  lemma HalfQuotient(x: nat, p: nat)
    requires p > 0
    ensures x / 2 / p == x / (2 * p)
  {
    var h := x / 2;
    DoubleProduct(h / p, p);
    QuotientUnique(x, 2 * p, h / p, 2 * (h % p) + x % 2);
  }

  lemma DoubleProduct(q: nat, p: nat)
    ensures q * (2 * p) == 2 * (q * p)
  {}

  /** The number of address lines the mask lets the test walk. */
  function Lines(mask: nat, i: nat): (n: nat)
    requires i <= 32
    ensures i <= n <= 32
    ensures forall k :: i <= k < n ==> Masked(mask, Pow2(k))
    ensures n < 32 ==> !Masked(mask, Pow2(n))
    decreases 32 - i
  {
    if i == 32 || !Masked(mask, Pow2(i)) then i else Lines(mask, i + 1)
  }

  /** The lines walked are the lowest bits of the mask, as long as they are one: n of them
      if its low n bits are ones with a zero above, and 32 at most. */
  lemma {:induction false} LinesOfMask(mask: nat, n: nat)
    requires n <= 32 && mask % Pow2(n) == Pow2(n) - 1 && (n < 32 ==> mask / Pow2(n) % 2 == 0)
    ensures Lines(mask, 0) == n
  {
    var m := Lines(mask, 0);
    if m < n {
      LowOnes(mask, n, m);
      MaskedBit(mask, m);
    } else if n < m {
      MaskedBit(mask, n);
    }
  }

  lemma {:induction false} LowOnes(mask: nat, n: nat, i: nat)
    requires i < n && mask % Pow2(n) == Pow2(n) - 1
    ensures Bit(mask, i)
  {
    HalfOnes(mask, Pow2(n - 1));
    if i > 0 {
      LowOnes(mask / 2, n - 1, i - 1);
    }
  }

  lemma HalfOnes(x: nat, p: nat)
    requires p > 0 && x % (2 * p) == 2 * p - 1
    ensures x % 2 == 1 && x / 2 % p == p - 1
  {
    var q := x / (2 * p);
    DoubleProduct(q, p);
    HalfOdd(x, q * p, p);
    QuotientUnique(x / 2, p, q, p - 1);
  }

  lemma HalfOdd(x: nat, m: nat, p: nat)
    requires x == 2 * m + (2 * p - 1)
    ensures x % 2 == 1 && x / 2 == m + (p - 1)
  {}

  /** The walk over the lines of the mask stops after n of them. */
  ghost predicate Walks(mask: nat, n: nat) {
    && n <= 32 && (forall k :: 0 <= k < n ==> Masked(mask, Pow2(k)))
    && (n < 32 ==> !Masked(mask, Pow2(n)))
  }

  /** Tested offset number k: zero, then the powers of two. */
  function Off(k: nat): nat { if k == 0 then 0 else Pow2(k - 1) }

  function Cell(f: Faults, k: nat): nat { f.decode(Off(k)) }

  /** What line k shows while the anti-pattern stands at tested offset t. */
  function Line(f: Faults, t: nat, k: nat): Word {
    f.Show(Cell(f, k), if Cell(f, k) == Cell(f, t) then ANTI else PATTERN)
  }

  ghost predicate LinesPass(f: Faults, n: nat) {
    forall t, k :: 0 <= t <= n && 1 <= k <= n && k != t ==> Line(f, t, k) == PATTERN
  }

  /** A cell whose every bit is stuck so that it shows the pattern whatever is written. */
  predicate Frozen(f: Faults, c: nat) { f.Show(c, ANTI) == PATTERN }

  ghost predicate HoldsPattern(f: Faults, n: nat) {
    forall k :: 1 <= k <= n ==> f.Show(Cell(f, k), PATTERN) == PATTERN
  }

  /** Two tested offsets share a cell only where that cell is frozen at the pattern. */
  ghost predicate AliasFree(f: Faults, n: nat) {
    forall a, b :: 0 <= a < b <= n && Cell(f, a) == Cell(f, b) ==> Frozen(f, Cell(f, b))
  }

  ghost predicate InjectiveOnLines(f: Faults, n: nat) {
    forall a, b :: 0 <= a < b <= n ==> Cell(f, a) != Cell(f, b)
  }

  lemma FrozenShows(f: Faults, c: nat, v: Word)
    requires Frozen(f, c) && Wide(v)
    ensures f.Show(c, v) == PATTERN
  {
    Complementary();
    var z, o, p, q := f.zero(c).ones, f.one(c).ones, PATTERN.ones, ANTI.ones;
    assert (q - z) + o == p;
    assert p * q == {} && p + q == BITS;
    assert o == p && q <= z;
    assert v.ones - z <= p;
  }

  /** The exact verdict of the address-line test on any memory: every line cell can show
      the pattern, and aliasing is seen unless the shared cell is frozen at it. */
  lemma {:induction false} LinesPassIff(f: Faults, n: nat)
    ensures LinesPass(f, n) <==> HoldsPattern(f, n) && AliasFree(f, n)
  {
    if LinesPass(f, n) {
      forall a, b | 0 <= a < b <= n && Cell(f, a) == Cell(f, b)
        ensures Frozen(f, Cell(f, b))
      {
        assert Line(f, a, b) == PATTERN;
      }
      forall k | 1 <= k <= n
        ensures f.Show(Cell(f, k), PATTERN) == PATTERN
      {
        assert Line(f, 0, k) == PATTERN;
        if Cell(f, k) == Cell(f, 0) {
          FrozenShows(f, Cell(f, k), PATTERN);
        }
      }
    }
    if HoldsPattern(f, n) && AliasFree(f, n) {
      forall t, k | 0 <= t <= n && 1 <= k <= n && k != t
        ensures Line(f, t, k) == PATTERN
      {
        if Cell(f, t) == Cell(f, k) {
          assert Frozen(f, Cell(f, if t < k then k else t));
        }
      }
    }
  }

  /** Where the tested cells have no stuck bit, the test reports no failure exactly when
      decoding is injective on the tested offsets. */
  lemma {:induction false} LinesPassInjective(f: Faults, n: nat)
    requires forall k :: 0 <= k <= n ==> f.Healthy(Cell(f, k))
    ensures LinesPass(f, n) <==> InjectiveOnLines(f, n)
  {
    LinesPassIff(f, n);
    Complementary();
    forall k | 0 <= k <= n
      ensures f.Show(Cell(f, k), PATTERN) == PATTERN && f.Show(Cell(f, k), ANTI) == ANTI
    {
      HealthyShows(f, Cell(f, k), PATTERN);
      HealthyShows(f, Cell(f, k), ANTI);
    }
  }

  /** Stuck bits can hide aliasing: one frozen cell behind every offset passes. */
  lemma FrozenExample(n: nat)
    requires n > 0
    ensures var f := Faults(_ => 0, _ => ANTI, _ => PATTERN); LinesPass(f, n) && !InjectiveOnLines(f, n)
  {
    var f := Faults(_ => 0, _ => ANTI, _ => PATTERN);
    Complementary();
    assert Cell(f, 0) == Cell(f, 1);
    forall t, k | 0 <= t <= n && 1 <= k <= n && k != t
      ensures Line(f, t, k) == PATTERN
    {
      assert Frozen(f, 0);
    }
  }

  lemma {:induction false} Pow2Increases(a: nat, b: nat)
    requires a < b
    ensures 0 < Pow2(a) < Pow2(b)
    decreases b
  {
    if a < b - 1 {
      Pow2Increases(a, b - 1);
    }
  }

  /** The walking offset after line i: it leaves the 32 bits behind line 31. */
  function Walk(i: nat): nat { if i < 32 then Pow2(i) else 0 }

  lemma WalkStep(i: nat)
    requires i < 32
    ensures Walk(i) * 2 % W == Walk(i + 1)
  {
    Pow32();
    if i < 31 {
      Pow2Increases(i + 1, 32);
    }
  }

  lemma SameOffset(a: nat, b: nat)
    requires 1 <= a
    ensures Off(a) == Off(b) <==> a == b
  {
    if a < b {
      Pow2Increases(a - 1, b - 1);
    } else if 0 < b < a {
      Pow2Increases(b - 1, a - 1);
    }
  }

  /** The lines hold the pattern, except those that share the cell of tested offset t. */
  ghost predicate Marked(f: Faults, n: nat, t: nat, cells: seq<Word>) {
    forall k :: 1 <= k <= n ==> Cell(f, k) < |cells| && cells[Cell(f, k)] == if Cell(f, k) == Cell(f, t) then ANTI else PATTERN
  }

  ghost predicate Unmarked(f: Faults, n: nat, cells: seq<Word>) {
    forall k :: 1 <= k <= n ==> Cell(f, k) < |cells| && cells[Cell(f, k)] == PATTERN
  }

  ghost predicate LinesOk(f: Faults, n: nat, t: nat) {
    forall k :: 1 <= k <= n && k != t ==> Line(f, t, k) == PATTERN
  }

  lemma UnmarkedNext(f: Faults, i: nat, was: seq<Word>, cells: seq<Word>)
    requires Unmarked(f, i, was) && Cell(f, i + 1) < |was| && cells == was[Cell(f, i + 1) := PATTERN]
    ensures Unmarked(f, i + 1, cells)
  {}

  lemma LinesOkNext(f: Faults, n: nat, i: nat, t: nat)
    requires i < n
    ensures LinesOk(f, i + 1, t) <==> LinesOk(f, i, t) && (i + 1 == t || Line(f, t, i + 1) == PATTERN)
    ensures LinesOk(f, n, t) ==> LinesOk(f, i + 1, t)
  {}

  // ---------------------------------------------------------------- the code

  class Ram {
    const f: Faults
    var cells: seq<Word>

    constructor (faults: Faults, contents: seq<Word>)
      requires faults.Valid() && Decodes(faults, |contents|)
      ensures Valid() && f == faults && cells == contents
    {
      f := faults;
      cells := contents;
    }

    ghost predicate Valid()
      reads this
    {
      f.Valid() && Decodes(f, |cells|)
    }

    method Write(o: nat, v: Word)
      requires Valid()
      modifies this
      ensures Valid() && cells == old(cells)[f.decode(o) := v]
    {
      cells := cells[f.decode(o) := v];
    }

    method Read(o: nat) returns (v: Word)
      requires Valid()
      ensures v == f.Show(f.decode(o), cells[f.decode(o)])
    {
      v := f.Show(f.decode(o), cells[f.decode(o)]);
    }

    /** First pass: word o is given the number o + 1. */
    method FillPass(n: nat)
      requires Valid()
      modifies this
      ensures Valid() && InSecond(f, n, 0, cells)
    {
      var pattern, offset := 1, 0;
      while offset < n
        invariant offset <= n && pattern == offset + 1
        invariant Valid() && InSecond(f, offset, 0, cells)
      {
        Write(offset, Num(pattern));
        pattern, offset := pattern + 1, offset + 1;
      }
    }

    /** Second pass: each word must still show its number, and is given the complement. */
    method InvertPass(n: nat) returns (ok: bool)
      requires Valid() && InSecond(f, n, 0, cells)
      modifies this
      ensures Valid()
      ensures ok ==> InThird(f, n, 0, cells)
      ensures ok <==> SecondsOk(f, n, n)
    {
      var pattern, offset := 1, 0;
      while offset < n
        invariant Valid() && offset <= n && pattern == offset + 1 && InSecond(f, n, offset, cells)
        invariant SecondsOk(f, n, offset)
      {
        SecondStep(f, n, offset, cells);
        var temp := Read(offset);
        if temp != Num(pattern) {
          return false;
        }
        Write(offset, Not(Num(pattern)));
        pattern, offset := pattern + 1, offset + 1;
      }
      SecondDone(f, n, cells);
      return true;
    }

    /** Third pass: each word must show the complement of its number, and is cleared. */
    method ZeroPass(n: nat) returns (ok: bool)
      requires Valid() && InThird(f, n, 0, cells)
      modifies this
      ensures Valid()
      ensures ok <==> ThirdsOk(f, n, n)
    {
      var pattern, offset := 1, 0;
      while offset < n
        invariant Valid() && offset <= n && pattern == offset + 1 && InThird(f, n, offset, cells)
        invariant ThirdsOk(f, n, offset)
      {
        ThirdStep(f, n, offset, cells);
        var temp := Read(offset);
        if temp != Not(Num(pattern)) {
          return false;
        }
        Write(offset, ZERO);
        pattern, offset := pattern + 1, offset + 1;
      }
      return true;
    }

    /** The increment/decrement test over n words reports no failure exactly when all of
        them are distinct cells without a stuck bit, whatever the memory held before. */
    method IncDecTest(n: nat) returns (ok: bool)
      requires Valid() && n < W
      modifies this
      ensures Valid()
      ensures ok <==> Injective(f, n) && AllHealthy(f, n)
    {
      FillPass(n);
      ok := InvertPass(n);
      if ok {
        ok := ZeroPass(n);
      }
      PassIffSound(f, n);
      PassesSplit(f, n);
    }

    /** All lines of the mask are given the pattern. */
    method WritePatterns(mask: nat, ghost n: nat)
      requires Valid() && Walks(mask, n)
      modifies this
      ensures Valid() && Unmarked(f, n, cells)
    {
      var offset, more := FirstOffset(mask, n);
      ghost var i := 0;
      while more
        invariant Valid() && i <= n && OffsetAt(mask, n, i, offset, more) && Unmarked(f, i, cells)
        decreases n - i
      {
        ghost var was := cells;
        Write(offset, PATTERN);
        UnmarkedNext(f, i, was, cells);
        offset, more := NextOffset(mask, offset, n, i);
        i := i + 1;
      }
    }

    /** Look at every line while the anti-pattern stands at tested offset number t. */
    method CheckLines(mask: nat, testOffset: nat, ghost t: nat, ghost n: nat) returns (ok: bool)
      requires Valid() && Walks(mask, n) && t <= n && testOffset == Off(t) && Marked(f, n, t, cells)
      ensures ok <==> LinesOk(f, n, t)
    {
      var offset, more := FirstOffset(mask, n);
      ghost var i := 0;
      while more
        invariant i <= n && OffsetAt(mask, n, i, offset, more) && LinesOk(f, i, t)
        decreases n - i
      {
        var temp := Read(offset);
        SameOffset(i + 1, t);
        LinesOkNext(f, n, i, t);
        if temp != PATTERN && offset != testOffset {
          return false;
        }
        offset, more := NextOffset(mask, offset, n, i);
        i := i + 1;
      }
      return true;
    }

    /** Put the anti-pattern at tested offset number t, look at the lines, take it back. */
    method OneOffset(mask: nat, testOffset: nat, ghost t: nat, ghost n: nat) returns (ok: bool)
      requires Valid() && Walks(mask, n) && t <= n && testOffset == Off(t) && Unmarked(f, n, cells)
      modifies this
      ensures Valid() && (ok <==> LinesOk(f, n, t))
      ensures ok ==> Unmarked(f, n, cells)
    {
      Write(testOffset, ANTI);
      ok := CheckLines(mask, testOffset, t, n);
      if ok {
        Write(testOffset, PATTERN);
      }
    }

    /** The anti-pattern visits every line in turn. */
    method VisitLines(mask: nat, ghost n: nat) returns (ok: bool)
      requires Valid() && Walks(mask, n) && Unmarked(f, n, cells) && LinesOk(f, n, 0)
      modifies this
      ensures Valid() && (ok <==> AllLinesOk(f, n, n))
    {
      var testOffset, more := FirstOffset(mask, n);
      ghost var t := 0;
      while more
        invariant Valid() && t <= n && OffsetAt(mask, n, t, testOffset, more)
        invariant Unmarked(f, n, cells) && AllLinesOk(f, n, t)
        decreases n - t
      {
        ok := OneOffset(mask, testOffset, t + 1, n);
        if !ok {
          if AllLinesOk(f, n, n) {
            AllLinesAt(f, n, n, t + 1);
          }
          return;
        }
        testOffset, more := NextOffset(mask, testOffset, n, t);
        t := t + 1;
      }
      ok := true;
    }

    /** The address-line test. */
    method LineTest(mask: nat) returns (ok: bool)
      requires Valid()
      modifies this
      ensures Valid() && (ok <==> LinesPass(f, Lines(mask, 0)))
    {
      ghost var n := Lines(mask, 0);
      AllLines(f, n);
      WritePatterns(mask, n);
      ok := OneOffset(mask, 0, 0, n);
      if ok {
        ok := VisitLines(mask, n);
      }
    }
  }

  /** The state of a walk over the lines of the mask before line i. */
  ghost predicate OffsetAt(mask: nat, n: nat, i: nat, offset: nat, more: bool) {
    (more <==> i < n) && (more ==> offset == Off(i + 1))
  }

  method FirstOffset(mask: nat, ghost n: nat) returns (offset: nat, more: bool)
    requires Walks(mask, n)
    ensures OffsetAt(mask, n, 0, offset, more)
  {
    offset := 1;
    assert Pow2(0) == 1;
    more := Masked(mask, offset);
  }

  method NextOffset(mask: nat, offset: nat, ghost n: nat, ghost i: nat) returns (next: nat, more: bool)
    requires Walks(mask, n) && i < n && offset == Off(i + 1)
    ensures OffsetAt(mask, n, i + 1, next, more)
  {
    WalkStep(i);
    next := offset * 2 % W;
    more := Masked(mask, next);
  }

  ghost predicate AllLinesOk(f: Faults, n: nat, t: nat) { LinesOk(f, n, t) && (t > 0 ==> AllLinesOk(f, n, t - 1)) }

  lemma {:induction false} AllLinesAt(f: Faults, n: nat, t: nat, u: nat)
    requires AllLinesOk(f, n, t) && u <= t
    ensures LinesOk(f, n, u)
  {
    if u < t {
      AllLinesAt(f, n, t - 1, u);
    }
  }

  lemma {:induction false} AllLinesFrom(f: Faults, n: nat, t: nat)
    requires LinesPass(f, n) && t <= n
    ensures AllLinesOk(f, n, t)
  {
    if t > 0 {
      AllLinesFrom(f, n, t - 1);
    }
  }

  lemma AllLines(f: Faults, n: nat)
    ensures AllLinesOk(f, n, n) <==> LinesPass(f, n)
  {
    if AllLinesOk(f, n, n) {
      forall t, k | 0 <= t <= n && 1 <= k <= n && k != t
        ensures Line(f, t, k) == PATTERN
      {
        AllLinesAt(f, n, n, t);
      }
    }
    if LinesPass(f, n) {
      AllLinesFrom(f, n, n);
    }
  }
}
