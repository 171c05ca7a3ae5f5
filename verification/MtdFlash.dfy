/** Erasing a partition: a NOR partition that part_validate accepts, passed to the range
    selection of cmd_flash.c the way do_flerase does. */
module MtdFlash {
  import opened Wrappers
  import opened Flash
  import MtdParts

  predicate Apart(a: Bank, b: Bank)
    requires a.start != [] && b.start != []
  {
    Limit(a) <= b.start[0] || Limit(b) <= a.start[0]
  }

  predicate Disjoint(banks: seq<Bank>)
    requires Sensible(banks)
  {
    forall i, j :: 0 <= i < |banks| && 0 <= j < |banks| && i != j && banks[i].known && banks[j].known ==>
      Apart(banks[i], banks[j])
  }

  /** The range ends the address space and a later bank starts it. */
  predicate WrapsIntoBank(banks: seq<Bank>, n: nat, last: int)
    requires Sensible(banks) && n < |banks|
  {
    last == W - 1 && exists i :: n < i < |banks| && banks[i].known && banks[i].start[0] == 0
  }

  /** Exactly sectors lo..hi of bank n are chosen. */
  predicate OnlyOwn(vs: seq<Verdict>, n: nat, lo: nat, hi: nat) {
    n < |vs| && forall i :: 0 <= i < |vs| ==> vs[i] == if i == n then Select(lo, hi) else Skip
  }

  /** The range is accepted and selects exactly sectors lo..hi of bank n. */
  predicate SelectsOnly(banks: seq<Bank>, first: int, last: int, n: nat, lo: nat, hi: nat)
    requires Sensible(banks)
  {
    Fill(banks, first, last).0 && OnlyOwn(Fill(banks, first, last).1, n, lo, hi)
  }

  lemma JudgeOwn(b: Bank, lo: nat, hi: nat)
    requires b.known && Geometry(b) && lo <= hi < |b.start|
    ensures Judge(b, b.start[lo], End(b, hi)) == Select(lo, hi)
  {
    var n := |b.start|;
    var l, h := StartOf(b, b.start[lo], n), EndOf(b, End(b, hi), n);
    SectorOrder(b, hi);
    SectorOrder(b, h);
  }

  lemma JudgeOther(b: Bank, first: int, last: int)
    requires b.known && Geometry(b) && first <= last && (last < b.start[0] || Limit(b) <= first)
    ensures Judge(b, first, last) == Skip
  {
    var n := |b.start|;
    var l, h := StartOf(b, first, n), EndOf(b, last, n);
    if l >= 0 {
      SectorOrder(b, l);
    }
    if h >= 0 {
      SectorOrder(b, h);
    }
  }

  /** The search that wrapped to address 0: it stops nowhere unless a bank starts there. */
  lemma {:induction false} Wrapped(banks: seq<Bank>)
    requires Sensible(banks) && forall i :: 0 <= i < |banks| && banks[i].known ==> Limit(banks[i]) < W
    ensures var (ok, vs) := Fill(banks, 0, W - 1);
      ok && vs == Skips(|banks|) <==> forall i :: 0 <= i < |banks| && banks[i].known ==> banks[i].start[0] != 0
  {
    if banks != [] {
      var b, rest := banks[0], banks[1..];
      assert forall i :: 0 < i < |banks| ==> banks[i] == rest[i - 1];
      assert [Skip] + Skips(|rest|) == Skips(|banks|);
      Wrapped(rest);
      if b.known {
        JudgeFromZero(b);
        if b.start[0] == 0 {
          var v := Judge(b, 0, W - 1);
          var vs := Fill(rest, AddrAfter(b, 0, v), W - 1).1;
          assert ([v] + vs)[0].Select?;
          assert !Skips(|banks|)[0].Select?;
        }
      }
      var vs := Fill(rest, 0, W - 1).1;
      assert ([Skip] + vs)[1..] == vs && Skips(|banks|)[1..] == Skips(|rest|);
    }
  }

  lemma JudgeFromZero(b: Bank)
    requires b.known && Geometry(b) && Limit(b) < W
    ensures Judge(b, 0, W - 1) == if b.start[0] == 0 then Select(0, |b.start| - 1) else Skip
  {
    var n := |b.start|;
    var l, h := StartOf(b, 0, n), EndOf(b, W - 1, n);
    if l >= 0 {
      SectorOrder(b, l);
    }
    if h >= 0 {
      SectorOrder(b, h);
    }
  }

  /** From its own bank on: the rest of the address range is empty, or wraps to zero. */
  lemma {:induction false} FillFirst(banks: seq<Bank>, lo: nat, hi: nat)
    requires Sensible(banks) && Disjoint(banks) && banks != [] && banks[0].known && lo <= hi < |banks[0].start|
    ensures var last := End(banks[0], hi); var (ok, vs) := Fill(banks, banks[0].start[lo], last);
      ok && OnlyOwn(vs, 0, lo, hi) <==> !WrapsIntoBank(banks, 0, last)
  {
    var rest, last := banks[1..], End(banks[0], hi);
    FirstRound(banks, lo, hi);
    var (ok, vs) := Fill(rest, NextAddr(banks[0], hi), last);
    OwnHead(vs, lo, hi);
    assert forall i :: 0 < i < |banks| ==> banks[i] == rest[i - 1];
    if last == W - 1 {
      BelowTop(banks);
      Wrapped(rest);
      assert WrapsIntoBank(banks, 0, last) <==> exists i :: 0 <= i < |rest| && rest[i].known && rest[i].start[0] == 0;
    }
  }

  lemma BelowTop(banks: seq<Bank>)
    requires Sensible(banks) && Disjoint(banks) && banks != [] && banks[0].known && Limit(banks[0]) == W
    ensures forall i :: 0 <= i < |banks[1..]| && banks[1..][i].known ==> Limit(banks[1..][i]) < W
  {
    forall i | 0 <= i < |banks[1..]| && banks[1..][i].known
      ensures Limit(banks[1..][i]) < W
    {
      assert Apart(banks[0], banks[i + 1]);
      SectorOrder(banks[0], 0);
      SectorOrder(banks[i + 1], 0);
    }
  }

  /** The round of the bank that holds the range. */
  lemma {:induction false} FirstRound(banks: seq<Bank>, lo: nat, hi: nat)
    requires Sensible(banks) && banks != [] && banks[0].known && lo <= hi < |banks[0].start|
    ensures var b := banks[0]; var last := End(b, hi); var next := NextAddr(b, hi);
      var (ok, vs) := Fill(banks[1..], next, last);
      && Fill(banks, b.start[lo], last) == (ok, [Select(lo, hi)] + vs)
      && (last < W - 1 ==> next > last && ok && vs == Skips(|vs|))
      && (last == W - 1 ==> next == 0 && Limit(b) == W)
  {
    var b := banks[0];
    JudgeOwn(b, lo, hi);
    SectorOrder(b, lo);
    SectorOrder(b, hi);
    if lo < hi {
      assert b.start[lo] < b.start[hi];
    }
  }

  lemma OwnHead(vs: seq<Verdict>, lo: nat, hi: nat)
    ensures OnlyOwn([Select(lo, hi)] + vs, 0, lo, hi) <==> vs == Skips(|vs|)
  {
    var ws := [Select(lo, hi)] + vs;
    assert forall i :: 0 < i < |ws| ==> ws[i] == vs[i - 1];
    if OnlyOwn(ws, 0, lo, hi) {
      forall i | 0 <= i < |vs|
        ensures vs[i] == Skip
      {
        assert ws[i + 1] == vs[i];
      }
    }
  }

  lemma OwnTail(vs: seq<Verdict>, n: nat, lo: nat, hi: nat)
    ensures OnlyOwn([Skip] + vs, n + 1, lo, hi) <==> OnlyOwn(vs, n, lo, hi)
  {
    var ws := [Skip] + vs;
    assert forall i :: 0 < i < |ws| ==> ws[i] == vs[i - 1];
    assert forall i :: 0 <= i < |vs| ==> vs[i] == ws[i + 1];
  }

  /** A whole-sector range of one bank selects exactly its own sectors, unless it ends the
      address space and a later bank starts at address zero. */
  lemma {:induction false} FillOwn(banks: seq<Bank>, n: nat, lo: nat, hi: nat, first: int, last: int)
    requires Sensible(banks) && Disjoint(banks) && n < |banks| && banks[n].known && lo <= hi < |banks[n].start|
    requires first == banks[n].start[lo] && last == End(banks[n], hi)
    ensures SelectsOnly(banks, first, last, n, lo, hi) <==> !WrapsIntoBank(banks, n, last)
    decreases n
  {
    if n == 0 {
      FillFirst(banks, lo, hi);
    } else {
      var b, rest := banks[0], banks[1..];
      var own := banks[n];
      SectorOrder(own, lo);
      SectorOrder(own, hi);
      if lo < hi {
        assert own.start[lo] < own.start[hi];
      }
      if b.known {
        assert Apart(banks[0], banks[n]);
        JudgeOther(b, first, last);
      }
      DisjointTail(banks);
      FillOwn(rest, n - 1, lo, hi, first, last);
      var vs := Fill(rest, first, last).1;
      OwnTail(vs, n - 1, lo, hi);
      WrapsTail(banks, n, last);
    }
  }

  lemma DisjointTail(banks: seq<Bank>)
    requires Sensible(banks) && Disjoint(banks) && banks != []
    ensures Disjoint(banks[1..])
  {
    var rest := banks[1..];
    forall i, j | 0 <= i < |rest| && 0 <= j < |rest| && i != j && rest[i].known && rest[j].known
      ensures Apart(rest[i], rest[j])
    {
      assert Apart(banks[i + 1], banks[j + 1]);
    }
  }

  lemma WrapsTail(banks: seq<Bank>, n: nat, last: int)
    requires Sensible(banks) && 0 < n < |banks|
    ensures WrapsIntoBank(banks, n, last) <==> WrapsIntoBank(banks[1..], n - 1, last)
  {
    var rest := banks[1..];
    assert forall i :: 0 < i < |banks| ==> banks[i] == rest[i - 1];
    assert forall i :: 0 <= i < |rest| ==> rest[i] == banks[i + 1];
  }

  /** The sectors a validated NOR partition consists of. */
  lemma PartitionSectors(b: Bank, p: MtdParts.Part) returns (lo: nat, hi: nat)
    requires Geometry(b) && p.offset < p.offset + p.size <= b.size < W
    requires MtdParts.OnSector(b, p.offset) && (MtdParts.OnSector(b, p.offset + p.size) || b.size == p.offset + p.size)
    ensures lo <= hi < |b.start|
    ensures b.start[lo] == b.start[0] + p.offset && End(b, hi) == b.start[0] + p.offset + p.size - 1
  {
    lo := SectorAt(b, p.offset);
    if b.size == p.offset + p.size {
      hi := |b.start| - 1;
    } else {
      var k := SectorAt(b, p.offset + p.size);
      assert lo < k;
      hi := k - 1;
    }
  }

  lemma SectorAt(b: Bank, o: nat) returns (k: nat)
    requires Geometry(b) && MtdParts.OnSector(b, o)
    ensures k < |b.start| && b.start[k] == b.start[0] + o
  {
    k :| 0 <= k < |b.start| && (b.start[k] - b.start[0]) % W == o;
    Offset32(b, k);
  }

  lemma Offset32(b: Bank, k: nat)
    requires Geometry(b) && k < |b.start|
    ensures (b.start[k] - b.start[0]) % W == b.start[k] - b.start[0]
  {
    SectorOrder(b, k);
  }

  /** The first and the last address of the partition. */
  function Ends(b: Bank, q: MtdParts.Part): (int, int)
    requires b.start != []
  {
    (b.start[0] + q.offset, b.start[0] + q.offset + q.size - 1)
  }

  /** Sectors lo..hi of the bank are those of the partition. */
  predicate Covers(b: Bank, q: MtdParts.Part, lo: nat, hi: nat)
    requires b.start != []
  {
    lo <= hi < |b.start| && (b.start[lo], End(b, hi)) == Ends(b, q)
  }

  lemma AcceptedSectors(chips: MtdParts.Chips, id: MtdParts.Id, p: MtdParts.Part, q: MtdParts.Part)
    returns (lo: nat, hi: nat)
    requires MtdParts.Backed(chips, id) && id.nor && p.size < W && p.offset < W
    requires Geometry(chips.nor[id.num]) && MtdParts.Validate(chips, id, p) == Some(q)
    ensures Covers(chips.nor[id.num], q, lo, hi)
  {
    AcceptedNor(chips, id, p, q);
    lo, hi := PartitionSectors(chips.nor[id.num], q);
  }

  lemma CoveredRange(b: Bank, q: MtdParts.Part, lo: nat, hi: nat)
    requires Geometry(b) && Covers(b, q, lo, hi)
    ensures 0 <= b.start[0] + q.offset <= End(b, hi) < W
  {
    SectorOrder(b, lo);
    SectorOrder(b, hi);
    if lo < hi {
      assert b.start[lo] < b.start[hi];
    }
  }

  /** Erasing or protecting a partition that was accepted: the call succeeds and selects
      exactly the partition's own sectors, except when the partition ends at 2^32 and a
      later bank starts at address zero. */
  lemma {:induction false} PartitionSelection(chips: MtdParts.Chips, id: MtdParts.Id, p: MtdParts.Part, q: MtdParts.Part)
    returns (lo: nat, hi: nat)
    requires MtdParts.Backed(chips, id) && id.nor && p.size < W && p.offset < W
    requires Sensible(chips.nor) && Disjoint(chips.nor) && chips.nor[id.num].known
    requires MtdParts.Validate(chips, id, p) == Some(q)
    ensures Covers(chips.nor[id.num], q, lo, hi)
    ensures var (first, last) := Ends(chips.nor[id.num], q);
      SelectsOnly(chips.nor, first, last, id.num, lo, hi) <==> !WrapsIntoBank(chips.nor, id.num, last)
  {
    lo, hi := AcceptedSectors(chips, id, p, q);
    CoveredSelection(chips.nor, id.num, q, lo, hi);
  }

  lemma {:induction false} CoveredSelection(banks: seq<Bank>, n: nat, q: MtdParts.Part, lo: nat, hi: nat)
    requires Sensible(banks) && Disjoint(banks) && n < |banks| && banks[n].known && Covers(banks[n], q, lo, hi)
    ensures var (first, last) := Ends(banks[n], q);
      SelectsOnly(banks, first, last, n, lo, hi) <==> !WrapsIntoBank(banks, n, last)
  {
    var (first, last) := Ends(banks[n], q);
    FillOwn(banks, n, lo, hi, first, last);
  }

  lemma AcceptedNor(chips: MtdParts.Chips, id: MtdParts.Id, p: MtdParts.Part, q: MtdParts.Part)
    requires MtdParts.Backed(chips, id) && id.nor && p.size < W && p.offset < W
    requires MtdParts.Validate(chips, id, p) == Some(q)
    ensures var b := chips.nor[id.num];
      && q.offset < q.offset + q.size <= b.size < W && MtdParts.OnSector(b, q.offset)
      && (MtdParts.OnSector(b, q.offset + q.size) || b.size == q.offset + q.size)
  {
    MtdParts.ValidateRange(chips, id, p);
    assert MtdParts.Add32(q.offset, q.size) == q.offset + q.size;
  }

  // ---------------------------------------------------------------- the erase command

  lemma {:induction false} NoErases(vs: seq<Verdict>, rcs: seq<int>, k: nat)
    requires |rcs| == |vs|
    ensures Erases(vs, rcs, k).0 == [] ==> forall i :: k <= i < |vs| ==> !vs[i].Select?
    ensures (forall i :: k <= i < |vs| ==> !vs[i].Select?) ==> Erases(vs, rcs, k) == ([], 0)
    decreases |vs| - k
  {
    if k < |vs| {
      if vs[k].Select? {
        assert Erases(vs, rcs, k).0[0] == Erase(k, vs[k].lo, vs[k].hi);
      } else {
        NoErases(vs, rcs, k + 1);
      }
    }
  }

  /** The calls for a selection of one range. */
  lemma {:induction false} ErasesOwn(vs: seq<Verdict>, rcs: seq<int>, k: nat, n: nat, lo: nat, hi: nat)
    requires |rcs| == |vs| && OnlyOwn(vs, n, lo, hi) && k <= n
    ensures Erases(vs, rcs, k) == ([Erase(n, lo, hi)], rcs[n])
    decreases n - k
  {
    if k < n {
      ErasesOwn(vs, rcs, k + 1, n, lo, hi);
    } else {
      NoErases(vs, rcs, k + 1);
      assert [Erase(n, lo, hi)] + [] == [Erase(n, lo, hi)];
    }
  }

  /** One call alone comes from a selection of that range alone, unless the driver failed. */
  lemma {:induction false} OneErase(vs: seq<Verdict>, rcs: seq<int>, k: nat, n: nat, lo: nat, hi: nat)
    requires |rcs| == |vs| && (forall i :: 0 <= i < |rcs| ==> rcs[i] == 0)
    requires Erases(vs, rcs, k).0 == [Erase(n, lo, hi)]
    ensures k <= n < |vs| && vs[n] == Select(lo, hi) && forall i :: k <= i < |vs| && i != n ==> !vs[i].Select?
    decreases |vs| - k
  {
    if vs[k].Select? {
      var more := Erases(vs, rcs, k + 1).0;
      assert ([Erase(k, vs[k].lo, vs[k].hi)] + more)[0] == Erase(k, vs[k].lo, vs[k].hi);
      assert more == [];
      NoErases(vs, rcs, k + 1);
    } else {
      OneErase(vs, rcs, k + 1, n, lo, hi);
    }
  }

  lemma {:induction false} OwnCount(vs: seq<Verdict>, n: nat, lo: nat, hi: nat)
    requires OnlyOwn(vs, n, lo, hi) && lo <= hi
    ensures Count(vs) > 0
  {
    CountPositive(vs, n);
  }

  /** The erase command on an accepted NOR partition: the driver is called for the sectors of
      the partition and for nothing else, under the same condition, and the driver's code is
      returned. */
  method ErasePartition(c: Flash.Chips, chips: MtdParts.Chips, id: MtdParts.Id, ghost p: MtdParts.Part, q: MtdParts.Part, rcs: seq<int>)
    returns (rcode: int, ghost lo: nat, ghost hi: nat)
    requires c.Valid() && c.banks == chips.nor && |rcs| == |chips.nor|
    requires MtdParts.Backed(chips, id) && id.nor && p.size < W && p.offset < W
    requires Disjoint(chips.nor) && chips.nor[id.num].known && MtdParts.Validate(chips, id, p) == Some(q)
    modifies c`calls
    ensures Covers(chips.nor[id.num], q, lo, hi)
    ensures !WrapsIntoBank(chips.nor, id.num, End(chips.nor[id.num], hi)) ==>
      c.calls == old(c.calls) + [Erase(id.num, lo, hi)] && rcode == rcs[id.num]
    ensures (forall i :: 0 <= i < |rcs| ==> rcs[i] == 0) && c.calls == old(c.calls) + [Erase(id.num, lo, hi)] ==>
      !WrapsIntoBank(chips.nor, id.num, End(chips.nor[id.num], hi))
  {
    lo, hi := PartitionSelection(chips, id, p, q);
    rcode := EraseRange(c, id.num, q, rcs, lo, hi);
  }

  /** Its addresses, formed as do_flerase forms them, and the call of flash_sect_erase. */
  method EraseRange(c: Flash.Chips, n: nat, q: MtdParts.Part, rcs: seq<int>, ghost lo: nat, ghost hi: nat) returns (rcode: int)
    requires c.Valid() && |rcs| == |c.banks| && n < |c.banks| && c.banks[n].known && Covers(c.banks[n], q, lo, hi)
    modifies c`calls
    ensures var (first, last) := Ends(c.banks[n], q);
      SelectsOnly(c.banks, first, last, n, lo, hi) ==> c.calls == old(c.calls) + [Erase(n, lo, hi)] && rcode == rcs[n]
    ensures var (first, last) := Ends(c.banks[n], q);
      (forall i :: 0 <= i < |rcs| ==> rcs[i] == 0) && c.calls == old(c.calls) + [Erase(n, lo, hi)] ==>
        SelectsOnly(c.banks, first, last, n, lo, hi)
  {
    var (first, last) := Ends(c.banks[n], q);
    CoveredRange(c.banks[n], q, lo, hi);
    ghost var before := c.calls;
    rcode := c.SectErase(first, last, rcs);
    EraseOutcome(c.banks, first, last, rcs, n, lo, hi, before, c.calls, rcode);
  }

  /** What the calls of flash_sect_erase say about the selection. */
  lemma {:induction false} EraseOutcome(banks: seq<Bank>, first: int, last: int, rcs: seq<int>, n: nat, lo: nat, hi: nat,
                                        before: seq<Erase>, calls: seq<Erase>, rcode: int)
    requires Sensible(banks) && |rcs| == |banks| && lo <= hi
    requires var (ok, vs) := Fill(banks, first, last);
      if ok && Count(vs) != 0 then (calls, rcode) == (before + Erases(vs, rcs, 0).0, Erases(vs, rcs, 0).1)
      else calls == before && rcode == 1
    ensures SelectsOnly(banks, first, last, n, lo, hi) ==> calls == before + [Erase(n, lo, hi)] && rcode == rcs[n]
    ensures (forall i :: 0 <= i < |rcs| ==> rcs[i] == 0) && calls == before + [Erase(n, lo, hi)] ==>
      SelectsOnly(banks, first, last, n, lo, hi)
  {
    var (ok, vs) := Fill(banks, first, last);
    if SelectsOnly(banks, first, last, n, lo, hi) {
      OwnCount(vs, n, lo, hi);
      ErasesOwn(vs, rcs, 0, n, lo, hi);
    }
    if (forall i :: 0 <= i < |rcs| ==> rcs[i] == 0) && calls == before + [Erase(n, lo, hi)] {
      SameTail(before, Erases(vs, rcs, 0).0, [Erase(n, lo, hi)]);
      OneErase(vs, rcs, 0, n, lo, hi);
    }
  }

  lemma SameTail(a: seq<Erase>, b: seq<Erase>, c: seq<Erase>)
    ensures a + b == a + c ==> b == c
  {
    if a + b == a + c {
      assert b == (a + b)[|a|..] && c == (a + c)[|a|..];
    }
  }

  /** The exception is real: a bank that ends the address space, then a bank at zero, and a
      partition of the whole first bank that is accepted. */
  lemma WrapExample()
    ensures var banks := [Bank(true, [0xFFFF_0000], 0x1_0000), Bank(true, [0], 0x1_0000)];
      var chips, id := MtdParts.Chips(banks, []), MtdParts.Id("nor0", true, 0, 0x1_0000);
      var p := MtdParts.Part(0x1_0000, 0, "all", false, false);
      && Sensible(banks) && Disjoint(banks) && MtdParts.Backed(chips, id) && MtdParts.Validate(chips, id, p) == Some(p)
      && Ends(banks[0], p) == (0xFFFF_0000, 0xFFFF_FFFF) && Fill(banks, 0xFFFF_0000, 0xFFFF_FFFF).1[1] == Select(0, 0)
  {
    var a, b := Bank(true, [0xFFFF_0000], 0x1_0000), Bank(true, [0], 0x1_0000);
    WholeAccepted(a, b);
    WrapSelects([a, b], a, b);
  }

  lemma WholeAccepted(a: Bank, b: Bank)
    requires a == Bank(true, [0xFFFF_0000], 0x1_0000)
    ensures var chips, id := MtdParts.Chips([a, b], []), MtdParts.Id("nor0", true, 0, 0x1_0000);
      var p := MtdParts.Part(0x1_0000, 0, "all", false, false);
      MtdParts.Backed(chips, id) && MtdParts.Validate(chips, id, p) == Some(p)
  {
    assert a.start[0] == 0xFFFF_0000;
    assert MtdParts.OnSector(a, 0);
  }

  lemma WrapSelects(banks: seq<Bank>, a: Bank, b: Bank)
    requires a == Bank(true, [0xFFFF_0000], 0x1_0000) && b == Bank(true, [0], 0x1_0000) && banks == [a, b]
    ensures Sensible(banks) && Disjoint(banks) && Fill(banks, 0xFFFF_0000, 0xFFFF_FFFF).1[1] == Select(0, 0)
  {
    FirstRound(banks, 0, 0);
    JudgeFromZero(b);
    assert banks[1..][0] == b;
  }
}
