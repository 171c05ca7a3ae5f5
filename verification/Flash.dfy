/** Flash range selection of common/cmd_flash.c: an address range becomes one sector range
    per bank, which is then erased or protected. Addresses are 32 bits wide. */
module Flash {

  const W := 0x1_0000_0000

  /** A flash bank: the start address of every sector, and the size of the bank.
      `known` is false for FLASH_UNKNOWN. */
  datatype Bank = Bank(known: bool, start: seq<int>, size: nat)

  /** A bank as a driver fills it in: at least one sector, ascending, within 32 bits. */
  predicate Geometry(b: Bank) {
    && b.start != [] && 0 <= b.start[0] && b.start[0] + b.size <= W
    && (forall i, j :: 0 <= i < j < |b.start| ==> b.start[i] < b.start[j])
    && b.start[|b.start| - 1] < b.start[0] + b.size
  }

  predicate Sensible(banks: seq<Bank>) {
    forall i :: 0 <= i < |banks| && banks[i].known ==> Geometry(banks[i])
  }

  /** The address behind the bank. */
  function Limit(b: Bank): int
    requires b.start != []
  {
    b.start[0] + b.size
  }

  function BankEnd(b: Bank): int
    requires b.start != []
  {
    Limit(b) - 1
  }

  /** The last address of sector s. */
  function End(b: Bank, s: nat): int
    requires s < |b.start|
  {
    if s == |b.start| - 1 then BankEnd(b) else b.start[s + 1] - 1
  }

  /** Sector s has an address in [first, last]. */
  predicate Meets(b: Bank, s: nat, first: int, last: int)
    requires s < |b.start|
  {
    b.start[s] <= last && first <= End(b, s)
  }

  // ---------------------------------------------------------------- one bank

  /** What the bank loop decides about one bank. */
  datatype Verdict = Skip | Select(lo: nat, hi: nat) | Fail

  /** The last of the first n sectors that starts at a, or -1. */
  function StartOf(b: Bank, a: int, n: nat): (s: int)
    requires n <= |b.start|
    ensures -1 <= s < n && (s >= 0 ==> b.start[s] == a)
    ensures s == -1 ==> forall i :: 0 <= i < n ==> b.start[i] != a
  {
    if n == 0 then -1 else if b.start[n - 1] == a then n - 1 else StartOf(b, a, n - 1)
  }

  /** The last of the first n sectors that ends at a, or -1. */
  function EndOf(b: Bank, a: int, n: nat): (s: int)
    requires n <= |b.start|
    ensures -1 <= s < n && (s >= 0 ==> End(b, s) == a)
    ensures s == -1 ==> forall i :: 0 <= i < n ==> End(b, i) != a
  {
    if n == 0 then -1 else if End(b, n - 1) == a then n - 1 else EndOf(b, a, n - 1)
  }

  function Judge(b: Bank, first: int, last: int): Verdict
    requires b.known ==> b.start != []
  {
    if !b.known then Skip
    else
      var n := |b.start|;
      var lo, hi := StartOf(b, first, n), EndOf(b, last, n);
      if lo >= 0 then
        var hi1 := if hi < 0 && last > BankEnd(b) then n - 1 else hi;
        if hi1 < 0 || hi1 < lo then Fail else Select(lo, hi1)
      else if b.start[0] <= first < BankEnd(b) || hi >= 0 then Fail
      else Skip
  }

  /** Where the search goes on behind sector hi, with 32-bit wrap-around. */
  function NextAddr(b: Bank, hi: nat): int
    requires hi < |b.start|
  {
    if hi == |b.start| - 1 then Limit(b) % W else b.start[hi + 1]
  }

  function AddrAfter(b: Bank, first: int, v: Verdict): int
    requires v.Select? ==> v.hi < |b.start|
  {
    if v.Select? then NextAddr(b, v.hi) else first
  }

  /** The number of sectors a verdict selects. */
  function Width(v: Verdict): int { if v.Select? then v.hi - v.lo + 1 else 0 }

  function Skips(n: nat): seq<Verdict> { seq(n, _ => Skip) }

  /** The bank loop: the verdict on every bank, or failure. */
  function Fill(banks: seq<Bank>, first: int, last: int): (r: (bool, seq<Verdict>))
    requires Sensible(banks)
    ensures |r.1| == |banks|
    ensures r.0 ==> forall i :: 0 <= i < |banks| ==> !r.1[i].Fail?
    ensures forall i :: 0 <= i < |banks| && r.1[i].Select? ==>
      banks[i].known && r.1[i].lo <= r.1[i].hi < |banks[i].start|
    decreases |banks|
  {
    if banks == [] || first > last then (true, Skips(|banks|))
    else
      var v := Judge(banks[0], first, last);
      if v.Fail? then (false, [v] + Skips(|banks| - 1))
      else
        var (ok, vs) := Fill(banks[1..], AddrAfter(banks[0], first, v), last);
        (ok, [v] + vs)
  }

  function Count(vs: seq<Verdict>): int {
    if vs == [] then 0
    else Width(vs[0]) + Count(vs[1..])
  }

  predicate Chosen(v: Verdict, s: int) { v.Select? && v.lo <= s <= v.hi }

  // ---------------------------------------------------------------- contiguous banks

  /** Known banks lie one behind the other from address e on. */
  predicate Contiguous(banks: seq<Bank>, e: int)
    requires Sensible(banks)
    decreases |banks|
  {
    banks == [] ||
    if banks[0].known then banks[0].start[0] == e && Contiguous(banks[1..], Limit(banks[0]))
    else Contiguous(banks[1..], e)
  }

  function FlashLimit(banks: seq<Bank>, e: int): int
    requires Sensible(banks)
    decreases |banks|
  {
    if banks == [] then e
    else FlashLimit(banks[1..], if banks[0].known then Limit(banks[0]) else e)
  }

  predicate SectorStart(banks: seq<Bank>, a: int) {
    banks != [] &&
    ((banks[0].known && StartOf(banks[0], a, |banks[0].start|) >= 0) || SectorStart(banks[1..], a))
  }

  predicate SectorEnd(banks: seq<Bank>, a: int) {
    banks != [] &&
    ((banks[0].known && EndOf(banks[0], a, |banks[0].start|) >= 0) || SectorEnd(banks[1..], a))
  }

  /** Exactly the sectors that meet the range are chosen, and each lies inside it. */
  predicate Exact(banks: seq<Bank>, vs: seq<Verdict>, first: int, last: int)
    requires |vs| == |banks|
  {
    forall i, s :: 0 <= i < |banks| && 0 <= s < |banks[i].start| ==>
      && (Chosen(vs[i], s) <==> banks[i].known && Meets(banks[i], s, first, last))
      && (Chosen(vs[i], s) ==> first <= banks[i].start[s] && End(banks[i], s) <= last)
  }

  /** The first n sectors of the bank that meet the range. */
  function MeetCount(b: Bank, n: nat, first: int, last: int): nat
    requires n <= |b.start|
  {
    if n == 0 then 0 else MeetCount(b, n - 1, first, last) + if Meets(b, n - 1, first, last) then 1 else 0
  }

  /** The sectors of known banks that meet the range. */
  function Meeting(banks: seq<Bank>, first: int, last: int): nat {
    if banks == [] then 0
    else (if banks[0].known then MeetCount(banks[0], |banks[0].start|, first, last) else 0) + Meeting(banks[1..], first, last)
  }

  lemma SectorOrder(b: Bank, s: nat)
    requires Geometry(b) && s < |b.start|
    ensures b.start[0] <= b.start[s] <= End(b, s) <= BankEnd(b)
    ensures s + 1 < |b.start| ==> End(b, s) + 1 == b.start[s + 1]
  {}

  /** A selection inside one bank is exact for that bank. */
  lemma SelectExact(b: Bank, first: int, last: int, s: nat)
    requires b.known && Geometry(b) && first <= last && s < |b.start|
    requires Judge(b, first, last).Select?
    ensures Chosen(Judge(b, first, last), s) <==> Meets(b, s, first, last)
    ensures Chosen(Judge(b, first, last), s) ==> first <= b.start[s] && End(b, s) <= last
  {
    var v := Judge(b, first, last);
    SectorOrder(b, s);
    SectorOrder(b, v.lo);
    SectorOrder(b, v.hi);
    if s < v.lo {
      assert b.start[s + 1] <= b.start[v.lo];
    } else if s > v.hi {
      assert b.start[v.hi + 1] <= b.start[s];
    } else if s < v.hi {
      assert b.start[s + 1] <= b.start[v.hi];
    }
  }

  lemma {:induction false} CountSkips(n: nat)
    ensures Count(Skips(n)) == 0
  {
    if n > 0 {
      assert Skips(n)[1..] == Skips(n - 1);
      CountSkips(n - 1);
    }
  }

  /** Nothing of contiguous banks lies below their base. */
  lemma {:induction false} Beyond(banks: seq<Bank>, e: int, a: int)
    requires Sensible(banks) && Contiguous(banks, e) && a < e
    ensures FlashLimit(banks, e) >= e && !SectorEnd(banks, a) && !SectorStart(banks, a)
    ensures forall i, s :: 0 <= i < |banks| && 0 <= s < |banks[i].start| && banks[i].known ==>
      e <= banks[i].start[s] <= End(banks[i], s)
    decreases |banks|
  {
    if banks != [] {
      var b := banks[0];
      Beyond(banks[1..], if b.known then Limit(b) else e, a);
      if b.known {
        forall s | 0 <= s < |b.start|
          ensures e <= b.start[s] <= End(b, s)
        {
          SectorOrder(b, s);
        }
      }
      forall i, s | 0 <= i < |banks| && 0 <= s < |banks[i].start| && banks[i].known
        ensures e <= banks[i].start[s] <= End(banks[i], s)
      {
        if i > 0 {
          assert banks[i] == banks[1..][i - 1];
        }
      }
    }
  }

  /** Behind a bank that ends the address space there is no known bank, so the wrapped
      search address does no harm. */
  lemma {:induction false} AfterTop(banks: seq<Bank>, first: int, last: int)
    requires Sensible(banks) && Contiguous(banks, W)
    ensures Fill(banks, first, last) == (true, Skips(|banks|))
    ensures forall i :: 0 <= i < |banks| ==> !banks[i].known
    decreases |banks|
  {
    if banks != [] {
      assert !banks[0].known;
      AfterTop(banks[1..], first, last);
      assert [Skip] + Skips(|banks| - 1) == Skips(|banks|);
      forall i | 0 <= i < |banks|
        ensures !banks[i].known
      {
        if i > 0 {
          assert banks[i] == banks[1..][i - 1];
        }
      }
    }
  }

  predicate ExactBank(b: Bank, v: Verdict, first: int, last: int) {
    forall s :: 0 <= s < |b.start| ==>
      && (Chosen(v, s) <==> b.known && Meets(b, s, first, last))
      && (Chosen(v, s) ==> first <= b.start[s] && End(b, s) <= last)
  }

  lemma ExactCons(banks: seq<Bank>, v: Verdict, vs: seq<Verdict>, first: int, last: int)
    requires banks != [] && |vs| == |banks| - 1
    requires ExactBank(banks[0], v, first, last) && Exact(banks[1..], vs, first, last)
    ensures Exact(banks, [v] + vs, first, last)
  {
    forall i, s | 0 <= i < |banks| && 0 <= s < |banks[i].start|
      ensures Chosen(([v] + vs)[i], s) <==> banks[i].known && Meets(banks[i], s, first, last)
      ensures Chosen(([v] + vs)[i], s) ==> first <= banks[i].start[s] && End(banks[i], s) <= last
    {
      if i > 0 {
        assert banks[i] == banks[1..][i - 1] && ([v] + vs)[i] == vs[i - 1];
      }
    }
  }

  /** The range ends before these banks: nothing more is selected. */
  lemma {:induction false} PastRange(banks: seq<Bank>, e: int, first: int, last: int)
    requires Sensible(banks) && Contiguous(banks, e) && 0 <= last < e <= W
    ensures Fill(banks, e % W, last) == (true, Skips(|banks|))
    ensures Exact(banks, Skips(|banks|), first, last)
    ensures !SectorEnd(banks, last) && FlashLimit(banks, e) > last
  {
    Beyond(banks, e, last);
    if e == W {
      AfterTop(banks, 0, last);
    }
  }

  /** Raising the lower end up to the base of the banks changes nothing. */
  lemma ExactLower(banks: seq<Bank>, vs: seq<Verdict>, e: int, first: int, last: int)
    requires Sensible(banks) && Contiguous(banks, e) && first <= e && |vs| == |banks|
    requires Exact(banks, vs, e, last)
    ensures Exact(banks, vs, first, last)
  {
    Beyond(banks, e, e - 1);
    forall i, s | 0 <= i < |banks| && 0 <= s < |banks[i].start|
      ensures Chosen(vs[i], s) <==> banks[i].known && Meets(banks[i], s, first, last)
      ensures Chosen(vs[i], s) ==> first <= banks[i].start[s] && End(banks[i], s) <= last
    {
      assert Chosen(vs[i], s) <==> banks[i].known && Meets(banks[i], s, e, last);
    }
  }

  /** A bank that holds the start of the range, and what follows it. */
  lemma {:induction false} FillHere(banks: seq<Bank>, first: int, last: int)
    requires Sensible(banks) && banks != [] && banks[0].known && Contiguous(banks, banks[0].start[0])
    requires 0 <= first <= last < W && StartOf(banks[0], first, |banks[0].start|) >= 0
    ensures var (ok, vs) := Fill(banks, first, last);
      && (ok <==> SectorEnd(banks, last) || last >= FlashLimit(banks, banks[0].start[0]))
      && (ok ==> Exact(banks, vs, first, last) && vs[0].Select?)
    decreases |banks|, 0
  {
    var b, rest := banks[0], banks[1..];
    var e, v := Limit(b), Judge(b, first, last);
    if v.Select? {
      SelectBank(b, first, last);
      if last < e {
        PastRange(rest, e, first, last);
        ExactCons(banks, v, Skips(|rest|), first, last);
      } else {
        FillAligned(rest, e, last);
        var (ok, vs) := Fill(rest, e, last);
        if ok {
          ExactLower(rest, vs, e, first, last);
          ExactCons(banks, v, vs, first, last);
        }
        NoEndHere(b, last);
      }
    } else {
      HereFails(banks, first, last);
    }
  }

  lemma NoEndHere(b: Bank, last: int)
    requires Geometry(b) && last >= Limit(b)
    ensures EndOf(b, last, |b.start|) == -1
  {
    var hi := EndOf(b, last, |b.start|);
    if hi >= 0 {
      SectorOrder(b, hi);
    }
  }

  /** A selected bank: exact, and the search goes on behind the range or behind the bank. */
  lemma SelectBank(b: Bank, first: int, last: int)
    requires b.known && Geometry(b) && 0 <= first <= last < W && Judge(b, first, last).Select?
    ensures ExactBank(b, Judge(b, first, last), first, last)
    ensures var next := NextAddr(b, Judge(b, first, last).hi);
      if last < Limit(b) then next > last || next == Limit(b) % W else next == Limit(b)
    ensures last < Limit(b) ==> EndOf(b, last, |b.start|) >= 0
  {
    SelectedExact(b, first, last);
    SelectedNext(b, first, last);
  }

  lemma SelectedExact(b: Bank, first: int, last: int)
    requires b.known && Geometry(b) && 0 <= first <= last < W && Judge(b, first, last).Select?
    ensures ExactBank(b, Judge(b, first, last), first, last)
  {
    var v := Judge(b, first, last);
    forall s | 0 <= s < |b.start|
      ensures Chosen(v, s) <==> Meets(b, s, first, last)
      ensures Chosen(v, s) ==> first <= b.start[s] && End(b, s) <= last
    {
      SelectExact(b, first, last, s);
    }
  }

  lemma SelectedNext(b: Bank, first: int, last: int)
    requires b.known && Geometry(b) && 0 <= first <= last < W && Judge(b, first, last).Select?
    ensures var next := NextAddr(b, Judge(b, first, last).hi);
      if last < Limit(b) then next > last || next == Limit(b) % W else next == Limit(b)
    ensures last < Limit(b) ==> EndOf(b, last, |b.start|) >= 0
  {
    SectorOrder(b, Judge(b, first, last).hi);
    if last >= Limit(b) {
      NoEndHere(b, last);
    }
  }

  lemma {:induction false} HereFails(banks: seq<Bank>, first: int, last: int)
    requires Sensible(banks) && banks != [] && banks[0].known && Contiguous(banks, banks[0].start[0])
    requires 0 <= first <= last < W && StartOf(banks[0], first, |banks[0].start|) >= 0
    requires !Judge(banks[0], first, last).Select?
    ensures Judge(banks[0], first, last).Fail?
    ensures !SectorEnd(banks, last) && last < FlashLimit(banks, banks[0].start[0])
  {
    var b := banks[0];
    var lo, hi := StartOf(b, first, |b.start|), EndOf(b, last, |b.start|);
    SectorOrder(b, lo);
    if hi >= 0 {
      SectorOrder(b, hi);
    }
    Beyond(banks[1..], Limit(b), last);
  }

  /** The range starts where the banks start. */
  lemma {:induction false} FillAligned(banks: seq<Bank>, e: int, last: int)
    requires Sensible(banks) && Contiguous(banks, e) && 0 <= e <= last < W
    ensures var (ok, vs) := Fill(banks, e, last);
      && (ok <==> SectorEnd(banks, last) || last >= FlashLimit(banks, e))
      && (ok ==> Exact(banks, vs, e, last))
    decreases |banks|, 1
  {
    if banks != [] {
      if banks[0].known {
        var b := banks[0];
        assert StartOf(b, e, |b.start|) >= 0;
        FillHere(banks, e, last);
      } else {
        FillAligned(banks[1..], e, last);
        var (ok, vs) := Fill(banks[1..], e, last);
        if ok {
          ExactCons(banks, Skip, vs, e, last);
        }
      }
    }
  }

  /** A bank the range has already passed, or does not reach from a sector start. */
  lemma JudgeElsewhere(b: Bank, first: int, last: int)
    requires b.known && Geometry(b) && first <= last && StartOf(b, first, |b.start|) < 0
    ensures !Judge(b, first, last).Select?
    ensures first >= Limit(b) ==> Judge(b, first, last).Skip? && ExactBank(b, Skip, first, last)
  {
    if first >= Limit(b) {
      NoEndHere(b, last);
      forall s | 0 <= s < |b.start|
        ensures !Meets(b, s, first, last)
      {
        SectorOrder(b, s);
      }
    }
  }

  /** From a sector start, banks before it are skipped. */
  lemma {:induction false} FillFrom(banks: seq<Bank>, e: int, first: int, last: int)
    requires Sensible(banks) && Contiguous(banks, e) && 0 <= first <= last < W && SectorStart(banks, first)
    ensures var (ok, vs) := Fill(banks, first, last);
      && (ok <==> SectorEnd(banks, last) || last >= FlashLimit(banks, e))
      && (ok ==> Exact(banks, vs, first, last) && exists i :: 0 <= i < |vs| && vs[i].Select?)
    decreases |banks|
  {
    var b, rest := banks[0], banks[1..];
    if b.known && StartOf(b, first, |b.start|) >= 0 {
      FillHere(banks, first, last);
    } else {
      var e1 := if b.known then Limit(b) else e;
      StartsLater(banks, e, first, last);
      FillFrom(rest, e1, first, last);
      SkipFirst(banks, e, first, last);
      var (ok, vs) := Fill(rest, first, last);
      if ok {
        ExactCons(banks, Skip, vs, first, last);
        var i :| 0 <= i < |vs| && vs[i].Select?;
        assert ([Skip] + vs)[i + 1].Select?;
      }
    }
  }

  /** A range that starts at a sector, but not of the first bank, starts behind that bank. */
  lemma {:induction false} StartsLater(banks: seq<Bank>, e: int, first: int, last: int)
    requires Sensible(banks) && Contiguous(banks, e) && SectorStart(banks, first) && first <= last
    requires banks != [] && !(banks[0].known && StartOf(banks[0], first, |banks[0].start|) >= 0)
    ensures SectorStart(banks[1..], first)
    ensures banks[0].known ==> first >= Limit(banks[0])
    ensures Judge(banks[0], first, last).Skip? && ExactBank(banks[0], Skip, first, last)
  {
    var b, rest := banks[0], banks[1..];
    if b.known {
      if first < Limit(b) {
        Beyond(rest, Limit(b), first);
      }
      JudgeElsewhere(b, first, last);
    }
  }

  /** Skipping the first bank leaves the verdicts of the others. */
  lemma {:induction false} SkipFirst(banks: seq<Bank>, e: int, first: int, last: int)
    requires Sensible(banks) && Contiguous(banks, e) && banks != [] && first <= last
    requires Judge(banks[0], first, last).Skip? && (banks[0].known ==> first >= Limit(banks[0]))
    ensures var e1 := if banks[0].known then Limit(banks[0]) else e;
      && Fill(banks, first, last) == (Fill(banks[1..], first, last).0, [Skip] + Fill(banks[1..], first, last).1)
      && (SectorEnd(banks, last) <==> SectorEnd(banks[1..], last))
      && FlashLimit(banks, e) == FlashLimit(banks[1..], e1)
  {
    var b, rest := banks[0], banks[1..];
    if b.known {
      NoEndHere(b, last);
    }
    assert forall i :: 0 <= i < |rest| ==> rest[i] == banks[i + 1];
  }

  /** Away from every sector start nothing is selected. */
  lemma {:induction false} FillNowhere(banks: seq<Bank>, first: int, last: int)
    requires Sensible(banks) && !SectorStart(banks, first)
    ensures var (ok, vs) := Fill(banks, first, last); ok ==> Count(vs) == 0
    decreases |banks|
  {
    CountSkips(|banks|);
    if banks != [] && first <= last {
      if banks[0].known {
        JudgeElsewhere(banks[0], first, last);
      }
      FillNowhere(banks[1..], first, last);
      var vs := Fill(banks[1..], first, last).1;
      assert ([Skip] + vs)[1..] == vs;
    }
  }

  lemma {:induction false} CountPositive(vs: seq<Verdict>, i: nat)
    requires forall j :: 0 <= j < |vs| && vs[j].Select? ==> vs[j].lo <= vs[j].hi
    requires i < |vs| && vs[i].Select?
    ensures Count(vs) > 0
    decreases |vs|
  {
    CountNonNegative(vs[1..]);
    if i > 0 {
      assert vs[1..][i - 1] == vs[i];
      CountPositive(vs[1..], i - 1);
    }
  }

  lemma {:induction false} CountNonNegative(vs: seq<Verdict>)
    requires forall j :: 0 <= j < |vs| && vs[j].Select? ==> vs[j].lo <= vs[j].hi
    ensures Count(vs) >= 0
  {
    if vs != [] {
      CountNonNegative(vs[1..]);
    }
  }

  function Max(a: int, b: int): int { if a < b then b else a }

  function Min(a: int, b: int): int { if a < b then a else b }

  lemma {:induction false} MeetCountRange(b: Bank, v: Verdict, n: nat, first: int, last: int)
    requires b.known && ExactBank(b, v, first, last) && n <= |b.start|
    requires v.Select? ==> v.lo <= v.hi < |b.start|
    ensures MeetCount(b, n, first, last) == if v.Select? then Max(0, Min(n, v.hi + 1) - v.lo) else 0
  {
    if n > 0 {
      MeetCountRange(b, v, n - 1, first, last);
      assert Chosen(v, n - 1) <==> Meets(b, n - 1, first, last);
    }
  }

  lemma {:induction false} ExactCount(banks: seq<Bank>, vs: seq<Verdict>, first: int, last: int)
    requires |vs| == |banks| && Exact(banks, vs, first, last)
    requires forall i :: 0 <= i < |banks| && vs[i].Select? ==> banks[i].known && vs[i].lo <= vs[i].hi < |banks[i].start|
    ensures Count(vs) == Meeting(banks, first, last)
  {
    if banks != [] {
      var b, v := banks[0], vs[0];
      assert ExactBank(b, v, first, last);
      if b.known {
        MeetCountRange(b, v, |b.start|, first, last);
      }
      ExactTail(banks, vs, first, last);
      ExactCount(banks[1..], vs[1..], first, last);
    }
  }

  lemma ExactTail(banks: seq<Bank>, vs: seq<Verdict>, first: int, last: int)
    requires |vs| == |banks| > 0 && Exact(banks, vs, first, last)
    ensures Exact(banks[1..], vs[1..], first, last)
  {
    forall i, s | 0 <= i < |banks[1..]| && 0 <= s < |banks[1..][i].start|
      ensures Chosen(vs[1..][i], s) <==> banks[1..][i].known && Meets(banks[1..][i], s, first, last)
      ensures Chosen(vs[1..][i], s) ==> first <= banks[1..][i].start[s] && End(banks[1..][i], s) <= last
    {
      assert banks[1..][i] == banks[i + 1] && vs[1..][i] == vs[i + 1];
    }
  }

  /** Range selection on contiguous banks. A range is accepted exactly when it starts at a
      sector start and ends at a sector end or behind the flash; then exactly the sectors
      that meet it are selected, each lies inside it, and the count is their number. */
  lemma {:induction false} RangeSelection(banks: seq<Bank>, e: int, first: int, last: int)
    requires Sensible(banks) && Contiguous(banks, e) && 0 <= first <= last < W
    ensures var (ok, vs) := Fill(banks, first, last);
      && (ok && Count(vs) > 0 <==>
            SectorStart(banks, first) && (SectorEnd(banks, last) || last >= FlashLimit(banks, e)))
      && (ok && Count(vs) > 0 ==> Exact(banks, vs, first, last) && Count(vs) == Meeting(banks, first, last))
  {
    var (ok, vs) := Fill(banks, first, last);
    if SectorStart(banks, first) {
      FillFrom(banks, e, first, last);
      if ok {
        var i :| 0 <= i < |vs| && vs[i].Select?;
        CountPositive(vs, i);
        ExactCount(banks, vs, first, last);
      }
    } else {
      FillNowhere(banks, first, last);
    }
  }

  // ---------------------------------------------------------------- the code

  /** The two array entries of a bank show its verdict. */
  predicate Shows(v: Verdict, sFirst: int, sLast: int) {
    match v
    case Skip => sFirst == -1 && sLast == -1
    case Select(lo, hi) => sFirst == lo && sLast == hi
    case Fail => true
  }

  /** The sector loop over one bank. */
  method ScanBank(b: Bank, first: int, last: int) returns (lo: int, hi: int)
    requires Geometry(b) && first <= last
    ensures lo == StartOf(b, first, |b.start|) && hi == EndOf(b, last, |b.start|)
  {
    var bEnd, sEnd := b.start[0] + b.size - 1, |b.start| - 1;
    lo, hi := -1, -1;
    for sect := 0 to |b.start|
      invariant lo == StartOf(b, first, sect) && hi == EndOf(b, last, sect)
    {
      SectorOrder(b, sect);
      var end := if sect == sEnd then bEnd else b.start[sect + 1] - 1;
      if first > end {
        continue;
      }
      if last < b.start[sect] {
        continue;
      }
      if first == b.start[sect] {
        lo := sect;
      }
      if last == end {
        hi := sect;
      }
    }
  }

  lemma {:induction false} CountAppend(a: seq<Verdict>, b: seq<Verdict>)
    ensures Count(a + b) == Count(a) + Count(b)
  {
    if a == [] {
      assert a + b == b;
    } else {
      assert (a + b)[1..] == a[1..] + b;
      CountAppend(a[1..], b);
    }
  }

  /** One round of the bank loop: the array entries, the new search address and the number
      of sectors selected. */
  method BankRound(b: Bank, first: int, last: int) returns (fail: bool, lo: int, hi: int, next: int, n: int)
    requires b.known ==> Geometry(b)
    requires first <= last
    ensures fail == Judge(b, first, last).Fail?
    ensures !fail ==> Shows(Judge(b, first, last), lo, hi)
    ensures next == AddrAfter(b, first, Judge(b, first, last)) && n == Width(Judge(b, first, last))
  {
    fail, lo, hi, next, n := false, -1, -1, first, 0;
    if !b.known {
      return;
    }
    var bEnd, sEnd := b.start[0] + b.size - 1, |b.start| - 1;
    lo, hi := ScanBank(b, first, last);
    if lo >= 0 {
      if hi < 0 {
        if last > bEnd {
          hi := sEnd;
        } else {
          fail := true;
          return;
        }
      }
      if hi < lo {
        fail := true;
        return;
      }
      next := if hi == sEnd then (bEnd + 1) % W else b.start[hi + 1];
      n := hi - lo + 1;
    } else if first >= b.start[0] && first < bEnd {
      fail := true;
    } else if hi >= 0 {
      fail := true;
    }
  }

  /** The rounds of the bank loop: round k looks at bank k from address addrs[k]. The loop
      stops after m rounds, because the banks or the range are used up or bank m fails. */
  predicate Rounds(banks: seq<Bank>, last: int, addrs: seq<int>, vs: seq<Verdict>, m: nat)
    requires Sensible(banks)
  {
    && m <= |banks| == |vs| && |addrs| == m + 1
    && forall k :: 0 <= k < m ==>
         && addrs[k] <= last && vs[k] == Judge(banks[k], addrs[k], last) && !vs[k].Fail?
         && addrs[k + 1] == AddrAfter(banks[k], addrs[k], vs[k])
  }

  lemma {:induction false} FillRounds(banks: seq<Bank>, first: int, last: int) returns (addrs: seq<int>, m: nat)
    requires Sensible(banks)
    ensures var (ok, vs) := Fill(banks, first, last);
      && Rounds(banks, last, addrs, vs, m) && addrs[0] == first
      && (ok ==> (m == |banks| || addrs[m] > last) && forall i :: m <= i < |banks| ==> vs[i] == Skip)
      && (!ok ==> m < |banks| && addrs[m] <= last && Judge(banks[m], addrs[m], last).Fail?)
    decreases |banks|
  {
    if banks == [] || first > last || Judge(banks[0], first, last).Fail? {
      addrs, m := [first], 0;
    } else {
      var v := Judge(banks[0], first, last);
      var rest := banks[1..];
      var as1, m1 := FillRounds(rest, AddrAfter(banks[0], first, v), last);
      addrs, m := [first] + as1, m1 + 1;
      RoundsCons(banks, first, last, as1, Fill(rest, AddrAfter(banks[0], first, v), last).1, m1);
    }
  }

  /** One more round in front. */
  lemma {:induction false} RoundsCons(banks: seq<Bank>, first: int, last: int, addrs: seq<int>, vs: seq<Verdict>, m: nat)
    requires Sensible(banks) && banks != [] && first <= last && Rounds(banks[1..], last, addrs, vs, m)
    requires var v := Judge(banks[0], first, last); !v.Fail? && addrs[0] == AddrAfter(banks[0], first, v)
    ensures Rounds(banks, last, [first] + addrs, [Judge(banks[0], first, last)] + vs, m + 1)
  {
    var rest, v := banks[1..], Judge(banks[0], first, last);
    var as1, vs1 := [first] + addrs, [v] + vs;
    forall k | 0 <= k < m + 1
      ensures as1[k] <= last && vs1[k] == Judge(banks[k], as1[k], last) && !vs1[k].Fail?
      ensures as1[k + 1] == AddrAfter(banks[k], as1[k], vs1[k])
    {
      if k > 0 {
        assert rest[k - 1] == banks[k] && vs1[k] == vs[k - 1] && as1[k] == addrs[k - 1] && as1[k + 1] == addrs[k];
      }
    }
  }

  lemma {:induction false} CountTake(vs: seq<Verdict>, m: nat)
    requires m <= |vs|
    ensures m < |vs| ==> Count(vs[..m + 1]) == Count(vs[..m]) + Width(vs[m])
    ensures (forall i :: m <= i < |vs| ==> vs[i] == Skip) ==> Count(vs) == Count(vs[..m])
  {
    if m < |vs| {
      CountAppend(vs[..m], [vs[m]]);
      assert vs[..m + 1] == vs[..m] + [vs[m]] && [vs[m]][1..] == [];
    }
    if forall i :: m <= i < |vs| ==> vs[i] == Skip {
      CountAppend(vs[..m], vs[m..]);
      assert vs == vs[..m] + vs[m..] && vs[m..] == Skips(|vs| - m);
      CountSkips(|vs| - m);
    }
  }

  /** flash_fill_sect_ranges. */
  method FillSectRanges(banks: seq<Bank>, addrFirst: int, addrLast: int, sFirst: array<int>, sLast: array<int>)
    returns (rcode: int, sCount: int)
    requires Sensible(banks) && 0 <= addrFirst < W && 0 <= addrLast < W
    requires sFirst.Length == sLast.Length == |banks| && sFirst != sLast
    modifies sFirst, sLast
    ensures var (ok, vs) := Fill(banks, addrFirst, addrLast);
      && rcode == (if ok then 0 else 1)
      && (ok ==> sCount == Count(vs) && forall i :: 0 <= i < |banks| ==> Shows(vs[i], sFirst[i], sLast[i]))
  {
    ClearRanges(sFirst, sLast);
    ghost var addrs, m := FillRounds(banks, addrFirst, addrLast);
    ghost var (ok, vs) := Fill(banks, addrFirst, addrLast);
    rcode, sCount := BankLoop(banks, addrFirst, addrLast, sFirst, sLast, addrs, vs, m, ok);
  }

  /** The entries of the first banks show their verdicts, the others are still unset. */
  ghost predicate Marked(vs: seq<Verdict>, bank: nat, sFirst: seq<int>, sLast: seq<int>) {
    && bank <= |vs| == |sFirst| == |sLast|
    && (forall i :: 0 <= i < bank ==> Shows(vs[i], sFirst[i], sLast[i]))
    && (forall i :: bank <= i < |vs| ==> sFirst[i] == -1 && sLast[i] == -1)
  }

  lemma MarkNext(vs: seq<Verdict>, bank: nat, sFirst: seq<int>, sLast: seq<int>, lo: int, hi: int)
    requires Marked(vs, bank, sFirst, sLast) && bank < |vs| && Shows(vs[bank], lo, hi)
    ensures Marked(vs, bank + 1, sFirst[bank := lo], sLast[bank := hi])
  {}

  /** The bank loop, along the rounds it will make. */
  method BankLoop(banks: seq<Bank>, addrFirst: int, addrLast: int, sFirst: array<int>, sLast: array<int>,
                  ghost addrs: seq<int>, ghost vs: seq<Verdict>, ghost m: nat, ghost ok: bool)
    returns (rcode: int, sCount: int)
    requires Sensible(banks) && Rounds(banks, addrLast, addrs, vs, m) && addrs[0] == addrFirst
    requires if ok then (m == |banks| || addrs[m] > addrLast) && forall i :: m <= i < |banks| ==> vs[i] == Skip
             else m < |banks| && addrs[m] <= addrLast && Judge(banks[m], addrs[m], addrLast).Fail?
    requires sFirst.Length == sLast.Length == |banks| && sFirst != sLast
    requires forall i :: 0 <= i < |banks| ==> sFirst[i] == -1 && sLast[i] == -1
    modifies sFirst, sLast
    ensures rcode == if ok then 0 else 1
    ensures ok ==> sCount == Count(vs) && forall i :: 0 <= i < |banks| ==> Shows(vs[i], sFirst[i], sLast[i])
  {
    var first, bank := addrFirst, 0;
    sCount := 0;
    while bank < |banks| && first <= addrLast
      invariant bank <= m && first == addrs[bank] && sCount == Count(vs[..bank])
      invariant Marked(vs, bank, sFirst[..], sLast[..])
    {
      var fail, lo, hi, next, n := BankRound(banks[bank], first, addrLast);
      ghost var f, l := sFirst[..], sLast[..];
      sFirst[bank], sLast[bank] := lo, hi;
      if fail {
        return 1, sCount;
      }
      MarkNext(vs, bank, f, l, lo, hi);
      assert sFirst[..] == f[bank := lo] && sLast[..] == l[bank := hi];
      CountTake(vs, bank);
      first, sCount := next, sCount + n;
      bank := bank + 1;
    }
    CountTake(vs, bank);
    return 0, sCount;
  }

  method ClearRanges(sFirst: array<int>, sLast: array<int>)
    requires sFirst.Length == sLast.Length && sFirst != sLast
    modifies sFirst, sLast
    ensures forall i :: 0 <= i < sFirst.Length ==> sFirst[i] == -1 && sLast[i] == -1
  {
    for bank := 0 to sFirst.Length
      invariant forall i :: 0 <= i < bank ==> sFirst[i] == -1 && sLast[i] == -1
    {
      sFirst[bank] := -1;
      sLast[bank] := -1;
    }
  }

  /** One call of flash_erase. */
  datatype Erase = Erase(bank: nat, lo: int, hi: int)

  /** The erase calls for banks k on, up to the first that reports an error, and the code
      returned; rcs[i] is what the driver answers for bank i. */
  function Erases(vs: seq<Verdict>, rcs: seq<int>, k: nat): (seq<Erase>, int)
    requires |rcs| == |vs|
    decreases |vs| - k
  {
    if k >= |vs| then ([], 0)
    else if !vs[k].Select? then Erases(vs, rcs, k + 1)
    else
      var here := [Erase(k, vs[k].lo, vs[k].hi)];
      if rcs[k] != 0 then (here, rcs[k])
      else
        var (more, rc) := Erases(vs, rcs, k + 1);
        (here + more, rc)
  }

  /** All ranges selected in banks k on, in the order of the banks. */
  function Ranges(vs: seq<Verdict>, k: nat): seq<Erase>
    decreases |vs| - k
  {
    if k >= |vs| then []
    else (if vs[k].Select? then [Erase(k, vs[k].lo, vs[k].hi)] else []) + Ranges(vs, k + 1)
  }

  /** The ranges of the selections in banks k on, each once and by ascending bank. */
  ghost predicate Listing(all: seq<Erase>, vs: seq<Verdict>, k: nat) {
    (forall e :: e in all <==> k <= e.bank < |vs| && vs[e.bank].Select? && vs[e.bank].lo == e.lo && vs[e.bank].hi == e.hi) &&
    forall i, j :: 0 <= i < j < |all| ==> all[i].bank < all[j].bank
  }

  lemma {:induction false} RangesExact(vs: seq<Verdict>, k: nat)
    ensures Listing(Ranges(vs, k), vs, k)
    decreases |vs| - k
  {
    if k < |vs| {
      RangesExact(vs, k + 1);
      if vs[k].Select? {
        ListingCons(Ranges(vs, k + 1), vs, k);
      } else {
        assert [] + Ranges(vs, k + 1) == Ranges(vs, k + 1);
      }
    }
  }

  lemma ListingCons(rest: seq<Erase>, vs: seq<Verdict>, k: nat)
    requires k < |vs| && vs[k].Select? && Listing(rest, vs, k + 1)
    ensures Listing([Erase(k, vs[k].lo, vs[k].hi)] + rest, vs, k)
  {
    var all := [Erase(k, vs[k].lo, vs[k].hi)] + rest;
    forall i, j | 0 <= i < j < |all| ensures all[i].bank < all[j].bank {
      assert all[j] == rest[j - 1] && rest[j - 1] in rest;
      if i > 0 {
        assert all[i] == rest[i - 1];
      }
    }
  }

  /** Calls made for the first of all ranges, up to an error, and the code returned. */
  predicate UpTo(calls: seq<Erase>, rc: int, all: seq<Erase>, rcs: seq<int>) {
    var n := |calls|;
    && calls <= all
    && (forall i :: 0 <= i < n ==> calls[i].bank < |rcs|)
    && (forall i :: 0 <= i < n - 1 ==> rcs[calls[i].bank] == 0)
    && (if rc == 0 then calls == all && forall i :: 0 <= i < n ==> rcs[calls[i].bank] == 0
        else n > 0 && rcs[calls[n - 1].bank] == rc)
  }

  lemma UpToCons(e: Erase, calls: seq<Erase>, rc: int, all: seq<Erase>, rcs: seq<int>)
    requires UpTo(calls, rc, all, rcs) && e.bank < |rcs| && rcs[e.bank] == 0
    ensures UpTo([e] + calls, rc, [e] + all, rcs)
  {
    var c := [e] + calls;
    assert forall i :: 0 < i < |c| ==> c[i] == calls[i - 1];
    assert ([e] + all)[..|c|] == [e] + all[..|calls|];
  }

  /** The driver is called for the selected ranges in order up to the first for which it
      reports an error, whose code is returned; without an error for all of them. */
  lemma {:induction false} ErasesUpTo(vs: seq<Verdict>, rcs: seq<int>, k: nat)
    requires |rcs| == |vs|
    ensures UpTo(Erases(vs, rcs, k).0, Erases(vs, rcs, k).1, Ranges(vs, k), rcs)
    decreases |vs| - k
  {
    if k < |vs| {
      var rest := Ranges(vs, k + 1);
      if !vs[k].Select? {
        ErasesUpTo(vs, rcs, k + 1);
        assert [] + rest == rest;
      } else {
        var e := Erase(k, vs[k].lo, vs[k].hi);
        if rcs[k] == 0 {
          ErasesUpTo(vs, rcs, k + 1);
          UpToCons(e, Erases(vs, rcs, k + 1).0, Erases(vs, rcs, k + 1).1, rest, rcs);
        } else {
          assert ([e] + rest)[..1] == [e];
        }
      }
    }
  }

  class Chips {
    const banks: seq<Bank>
    var protect: seq<seq<bool>>
    var calls: seq<Erase>

    constructor (bs: seq<Bank>, flags: seq<seq<bool>>)
      requires Sensible(bs) && Shaped(bs, flags)
      ensures Valid() && banks == bs && protect == flags && calls == []
    {
      banks, protect, calls := bs, flags, [];
    }

    static predicate Shaped(bs: seq<Bank>, flags: seq<seq<bool>>) {
      |flags| == |bs| && forall i :: 0 <= i < |bs| ==> |flags[i]| == |bs[i].start|
    }

    predicate Valid()
      reads this
    {
      Sensible(banks) && Shaped(banks, protect)
    }

    /** flash_sect_erase. */
    method SectErase(addrFirst: int, addrLast: int, rcs: seq<int>) returns (rcode: int)
      requires Valid() && 0 <= addrFirst < W && 0 <= addrLast < W && |rcs| == |banks|
      modifies this`calls
      ensures var (ok, vs) := Fill(banks, addrFirst, addrLast);
        if ok && Count(vs) != 0 then (calls, rcode) == (old(calls) + Erases(vs, rcs, 0).0, Erases(vs, rcs, 0).1)
        else calls == old(calls) && rcode == 1
      ensures var (ok, vs) := Fill(banks, addrFirst, addrLast);
        ok && Count(vs) != 0 ==> old(calls) <= calls && UpTo(calls[|old(calls)|..], rcode, Ranges(vs, 0), rcs)
    {
      var sFirst, sLast := new int[|banks|], new int[|banks|];
      var planned;
      rcode, planned := FillSectRanges(banks, addrFirst, addrLast, sFirst, sLast);
      if planned != 0 && rcode == 0 {
        rcode := EraseLoop(sFirst, sLast, rcs, Fill(banks, addrFirst, addrLast).1);
        ErasesUpTo(Fill(banks, addrFirst, addrLast).1, rcs, 0);
      } else if rcode == 0 {
        rcode := 1;
      }
    }

    method EraseLoop(sFirst: array<int>, sLast: array<int>, rcs: seq<int>, ghost vs: seq<Verdict>) returns (rcode: int)
      requires sFirst.Length == sLast.Length == |rcs| == |vs|
      requires forall i :: 0 <= i < |vs| ==> Shows(vs[i], sFirst[i], sLast[i]) && !vs[i].Fail?
      modifies this`calls
      ensures (calls, rcode) == (old(calls) + Erases(vs, rcs, 0).0, Erases(vs, rcs, 0).1)
    {
      rcode := 0;
      var bank := 0;
      while bank < sFirst.Length && rcode == 0
        invariant bank <= |vs|
        invariant if rcode == 0 then
            && calls + Erases(vs, rcs, bank).0 == old(calls) + Erases(vs, rcs, 0).0
            && Erases(vs, rcs, bank).1 == Erases(vs, rcs, 0).1
          else (calls, rcode) == (old(calls) + Erases(vs, rcs, 0).0, Erases(vs, rcs, 0).1)
      {
        if sFirst[bank] >= 0 {
          calls := calls + [Erase(bank, sFirst[bank], sLast[bank])];
          rcode := rcs[bank];
        }
        bank := bank + 1;
      }
      assert calls + [] == calls;
    }

    /** flash_sect_protect, software protection. */
    method SectProtect(p: bool, addrFirst: int, addrLast: int) returns (rcode: int)
      requires Valid() && 0 <= addrFirst < W && 0 <= addrLast < W
      modifies this`protect
      ensures Valid()
      ensures var (ok, vs) := Fill(banks, addrFirst, addrLast);
        if ok && Count(vs) != 0 then
          rcode == 0 && forall i, s :: 0 <= i < |banks| && 0 <= s < |protect[i]| ==>
            protect[i][s] == if Chosen(vs[i], s) then p else old(protect)[i][s]
        else rcode == 1 && protect == old(protect)
    {
      var sFirst, sLast := new int[|banks|], new int[|banks|];
      var planned;
      rcode, planned := FillSectRanges(banks, addrFirst, addrLast, sFirst, sLast);
      if planned != 0 && rcode == 0 {
        ProtectLoop(p, sFirst, sLast, Fill(banks, addrFirst, addrLast).1);
      } else if rcode == 0 {
        rcode := 1;
      }
    }

    method ProtectLoop(p: bool, sFirst: array<int>, sLast: array<int>, ghost vs: seq<Verdict>)
      requires Valid() && sFirst.Length == sLast.Length == |banks| == |vs|
      requires forall i :: 0 <= i < |vs| ==> Shows(vs[i], sFirst[i], sLast[i]) && !vs[i].Fail?
      requires forall i :: 0 <= i < |vs| && vs[i].Select? ==> banks[i].known && vs[i].hi < |banks[i].start|
      modifies this`protect
      ensures Valid()
      ensures forall i, s :: 0 <= i < |banks| && 0 <= s < |protect[i]| ==>
        protect[i][s] == if Chosen(vs[i], s) then p else old(protect)[i][s]
    {
      for bank := 0 to |banks|
        invariant Valid()
        invariant forall i :: bank <= i < |banks| ==> protect[i] == old(protect)[i]
        invariant forall i, s :: 0 <= i < bank && 0 <= s < |protect[i]| ==>
          protect[i][s] == if Chosen(vs[i], s) then p else old(protect)[i][s]
      {
        if banks[bank].known && sFirst[bank] >= 0 && sFirst[bank] <= sLast[bank] {
          var flags := SetFlags(protect[bank], sFirst[bank], sLast[bank], p);
          protect := protect[bank := flags];
        }
      }
    }
  }

  /** The inner loop of flash_sect_protect. */
  method SetFlags(flags: seq<bool>, lo: int, hi: int, p: bool) returns (r: seq<bool>)
    requires 0 <= lo <= hi < |flags|
    ensures |r| == |flags|
    ensures forall s :: 0 <= s < |r| ==> r[s] == if lo <= s <= hi then p else flags[s]
  {
    r := flags;
    for i := lo to hi + 1
      invariant |r| == |flags|
      invariant forall s :: 0 <= s < |r| ==> r[s] == if lo <= s < i then p else flags[s]
    {
      r := r[i := p];
    }
  }
}
