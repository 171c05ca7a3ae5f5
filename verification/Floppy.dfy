/** Floppy reads of common/cmd_fdc.c: block addresses, runs within one track side, and the
    retry counters. */
module Floppy {
  import opened DivMod

  type byte = b: int | 0 <= b < 256

  /** sect sectors per side, head sides per track, sectors of `size` bytes. */
  datatype Geometry = Geometry(sect: nat, head: nat, size: nat)

  predicate Good(g: Geometry) { g.sect > 0 && g.head > 0 && g.size > 0 && g.sect * g.head > 0 }

  datatype Chs = Chs(track: nat, head: nat, sector: nat)

  /** The address computation of fdc_issue_cmd; sectors count from one. */
  function Address(g: Geometry, blnr: nat): Chs
    requires Good(g)
  {
    Split(blnr, g.sect * g.head, g.sect)
  }

  function Split(blnr: nat, perTrack: nat, perSide: nat): Chs
    requires perTrack > 0 && perSide > 0
  {
    Chs(blnr / perTrack, blnr % perTrack / perSide, blnr % perTrack % perSide + 1)
  }

  function BlockOf(g: Geometry, a: Chs): int { (a.track * g.head + a.head) * g.sect + a.sector - 1 }

  /** The address is a sector of the disk and stands for the block. */
  lemma AddressBack(g: Geometry, blnr: nat)
    requires Good(g)
    ensures var a := Address(g, blnr);
      a.head < g.head && 1 <= a.sector <= g.sect && BlockOf(g, a) == blnr && a.sector - 1 == blnr % g.sect
  {
    assert g.sect * g.head == g.head * g.sect;
    SplitBack(blnr, g.sect * g.head, g.sect, g.head);
  }

  lemma SplitBack(blnr: nat, m: nat, d: nat, n: nat)
    requires m == n * d && m > 0 && d > 0
    ensures var a := Split(blnr, m, d);
      a.head < n && 1 <= a.sector <= d && (a.track * n + a.head) * d + a.sector - 1 == blnr && a.sector - 1 == blnr % d
  {
    var t, rest := blnr / m, blnr % m;
    var h, s := rest / d, rest % d;
    SideBound(h, s, d, n);
    Collect(t, n, h, d, s);
    QuotientUnique(blnr, d, t * n + h, s);
  }

  lemma SideBound(h: nat, s: nat, d: nat, n: nat)
    requires d > 0 && h * d + s < d * n
    ensures h < n
  {
    MulBound(d, h - n);
    assert d * (h - n) == h * d - d * n;
  }

  /** Only one address stands for a block. */
  lemma AddressUnique(g: Geometry, a: Chs, blnr: nat)
    requires Good(g) && a.head < g.head && 1 <= a.sector <= g.sect && BlockOf(g, a) == blnr
    ensures a == Address(g, blnr)
  {
    var m := g.sect * g.head;
    var s := a.sector - 1;
    assert m == g.head * g.sect;
    Collect(a.track, g.head, a.head, g.sect, s);
    assert blnr == a.track * m + (a.head * g.sect + s);
    InSide(a.head, g.head, g.sect, s);
    QuotientUnique(blnr, m, a.track, a.head * g.sect + s);
    QuotientUnique(a.head * g.sect + s, g.sect, a.head, s);
  }

  lemma InSide(h: nat, n: nat, d: nat, s: nat)
    requires h < n && s < d
    ensures h * d + s < d * n
  {
    MulBound(d, n - h);
    assert d * (n - h) == d * n - h * d;
  }

  /** Blocks that stay on the side are the next sectors of the same track and head. */
  lemma SameSide(g: Geometry, blnr: nat, i: nat)
    requires Good(g) && i < g.sect - blnr % g.sect
    ensures var a := Address(g, blnr); Address(g, blnr + i) == Chs(a.track, a.head, a.sector + i)
  {
    var a := Address(g, blnr);
    AddressBack(g, blnr);
    AddressUnique(g, Chs(a.track, a.head, a.sector + i), blnr + i);
  }

  /** The command bytes: track, head and sector as unsigned characters. */
  function Issued(g: Geometry, blnr: nat): Chs
    requires Good(g)
  {
    var a := Address(g, blnr);
    Chs(a.track % 256, a.head % 256, a.sector % 256)
  }

  /** Sides and sectors fit a command byte. */
  predicate ByteSized(g: Geometry) { g.sect < 256 && g.head <= 256 }

  /** The command names the sector of the block exactly for the blocks of the first 256
      tracks. */
  lemma IssuedExact(g: Geometry, blnr: nat)
    requires Good(g) && ByteSized(g)
    ensures Issued(g, blnr) == Address(g, blnr) <==> blnr < 256 * (g.sect * g.head)
  {
    AddressBack(g, blnr);
    QuotientBelow(blnr, g.sect * g.head, 256);
  }

  lemma QuotientBelow(x: nat, m: nat, n: nat)
    requires m > 0
    ensures x / m < n <==> x < n * m
  {
    var q := x / m;
    assert x == q * m + x % m;
    MulBound(m, n - q);
    assert m * (n - q) == n * m - q * m;
    MulBound(m, q - n + 1);
    assert m * (q - n + 1) == q * m - n * m + m;
  }

  // ---------------------------------------------------------------- the disk

  /** The contents of a disk, sector by sector. */
  type Disk = (nat, nat, nat) -> seq<byte>

  /** The block with a number. */
  function Sector(g: Geometry, d: Disk, blnr: nat): seq<byte>
    requires Good(g)
  {
    var a := Address(g, blnr);
    d(a.track, a.head, a.sector)
  }

  function Blocks(g: Geometry, d: Disk, blnr: nat, n: nat): seq<byte>
    requires Good(g)
  {
    if n == 0 then [] else Blocks(g, d, blnr, n - 1) + Sector(g, d, blnr + n - 1)
  }

  /** What the controller transfers: n sectors of one side, from one on. */
  function SideRun(d: Disk, a: Chs, n: nat): seq<byte> {
    if n == 0 then [] else SideRun(d, a, n - 1) + d(a.track, a.head, a.sector + n - 1)
  }

  ghost predicate AllFormatted(g: Geometry, d: Disk)
    requires Good(g)
  {
    forall b: nat :: |Sector(g, d, b)| == g.size
  }

  lemma {:induction false} BlocksLen(g: Geometry, d: Disk, blnr: nat, n: nat)
    requires Good(g) && AllFormatted(g, d)
    ensures |Blocks(g, d, blnr, n)| == g.size * n
  {
    if n > 0 {
      BlocksLen(g, d, blnr, n - 1);
      assert |Sector(g, d, blnr + n - 1)| == g.size;
      assert g.size * n == g.size * (n - 1) + g.size;
    }
  }

  lemma {:induction false} BlocksJoin(g: Geometry, d: Disk, blnr: nat, m: nat, n: nat)
    requires Good(g)
    ensures Blocks(g, d, blnr, m + n) == Blocks(g, d, blnr, m) + Blocks(g, d, blnr + m, n)
    decreases n
  {
    if n > 0 {
      BlocksJoin(g, d, blnr, m, n - 1);
      assert blnr + (m + n) - 1 == (blnr + m) + n - 1;
      Join(Blocks(g, d, blnr, m), Blocks(g, d, blnr + m, n - 1), Sector(g, d, blnr + (m + n) - 1));
    }
  }

  lemma Join(a: seq<byte>, b: seq<byte>, c: seq<byte>)
    ensures (a + b) + c == a + (b + c)
  {}

  /** A run that stays on its side transfers the blocks asked for. */
  lemma {:induction false} RunIsBlocks(g: Geometry, d: Disk, blnr: nat, n: nat)
    requires Good(g) && n <= g.sect - blnr % g.sect
    ensures SideRun(d, Address(g, blnr), n) == Blocks(g, d, blnr, n)
    decreases n
  {
    if n > 0 {
      RunIsBlocks(g, d, blnr, n - 1);
      SameSide(g, blnr, n - 1);
    }
  }

  /** The length of the next run. */
  function RunLen(g: Geometry, blnr: nat, blocks: nat): (n: nat)
    requires Good(g)
    ensures n <= blocks && (blocks > 0 ==> n > 0)
  {
    if g.sect - blnr % g.sect > blocks then blocks else g.sect - blnr % g.sect
  }

  /** After a run that is not the last the next block starts a side. */
  lemma NextSide(g: Geometry, blnr: nat, blocks: nat)
    requires Good(g) && RunLen(g, blnr, blocks) < blocks
    ensures (blnr + RunLen(g, blnr, blocks)) % g.sect == 0
  {
    var q := blnr / g.sect;
    assert blnr + (g.sect - blnr % g.sect) == (q + 1) * g.sect;
    QuotientUnique(blnr + (g.sect - blnr % g.sect), g.sect, q + 1, 0);
  }

  /** So the code need not look at the block number again. */
  lemma NextRun(g: Geometry, blnr: nat, blocks: nat)
    requires Good(g)
    ensures var n := RunLen(g, blnr, blocks);
      RunLen(g, blnr + n, blocks - n) == if g.sect > blocks - n then blocks - n else g.sect
  {
    if RunLen(g, blnr, blocks) < blocks {
      NextSide(g, blnr, blocks);
    }
  }

  // ---------------------------------------------------------------- retries

  const FDC_RW_RETRIES := 3
  const FDC_CAL_RETRIES := 3

  /** How a read command goes: all bytes arrive, or the controller stops after some. */
  datatype Attempt = Complete | StopsAt(k: nat)

  function Errors(plan: seq<Attempt>): nat {
    if plan == [] then 0 else Errors(plan[1..]) + (if plan[0].Complete? then 0 else 1)
  }

  /** The number of runs that a request is split into. */
  function Runs(g: Geometry, blnr: nat, blocks: nat): nat
    requires Good(g)
    decreases blocks
  {
    if blocks == 0 then 0
    else 1 + Runs(g, blnr + RunLen(g, blnr, blocks), blocks - RunLen(g, blnr, blocks))
  }

  /** Whether so many runs get through; attempts beyond the plan are complete. */
  function Verdict(plan: seq<Attempt>, runs: nat, errors: nat): bool {
    if runs == 0 || plan == [] then true
    else if plan[0].Complete? then Verdict(plan[1..], runs - 1, errors)
    else if errors >= 24 then false
    else Verdict(plan[1..], runs, errors + 1)
  }

  /** The first n attempts bring the number of errors to 25 before the runs are through. */
  ghost predicate GivesUp(plan: seq<Attempt>, runs: nat, errors: nat, n: nat) {
    n <= |plan| && errors + Errors(plan[..n]) == 25 && n - Errors(plan[..n]) < runs
  }

  lemma {:induction false} ErrorsFirst(plan: seq<Attempt>, n: nat)
    requires 0 < n <= |plan|
    ensures Errors(plan[..n]) == Errors(plan[1..][..n - 1]) + (if plan[0].Complete? then 0 else 1)
  {
    assert plan[..n][1..] == plan[1..][..n - 1];
  }

  lemma {:induction false} ErrorsBound(plan: seq<Attempt>)
    ensures Errors(plan) <= |plan|
  {
    if plan != [] {
      ErrorsBound(plan[1..]);
    }
  }

  lemma {:induction false} GivesUpNext(plan: seq<Attempt>, runs: nat, errors: nat, n: nat)
    requires plan != [] && errors < 25 && 0 < n <= |plan| && runs > 0
    ensures plan[0].Complete? ==> (GivesUp(plan, runs, errors, n) <==> GivesUp(plan[1..], runs - 1, errors, n - 1))
    ensures !plan[0].Complete? ==> (GivesUp(plan, runs, errors, n) <==> GivesUp(plan[1..], runs, errors + 1, n - 1))
  {
    ErrorsFirst(plan, n);
  }

  /** A request fails exactly when 25 attempts fail before its last run is complete. */
  lemma {:induction false} VerdictExact(plan: seq<Attempt>, runs: nat, errors: nat)
    requires errors < 25
    ensures !Verdict(plan, runs, errors) <==> exists n: nat :: GivesUp(plan, runs, errors, n)
    decreases |plan|
  {
    if plan == [] || runs == 0 {
      forall n | 0 <= n <= |plan| ensures !GivesUp(plan, runs, errors, n) {
        ErrorsBound(plan[..n]);
      }
    } else if !plan[0].Complete? && errors == 24 {
      ErrorsFirst(plan, 1);
      assert Errors(plan[1..][..0]) == 0;
      assert GivesUp(plan, runs, errors, 1);
    } else {
      var r, e := if plan[0].Complete? then runs - 1 else runs, if plan[0].Complete? then errors else errors + 1;
      VerdictExact(plan[1..], r, e);
      if exists n: nat :: GivesUp(plan[1..], r, e, n) {
        var n: nat :| GivesUp(plan[1..], r, e, n);
        GivesUpNext(plan, runs, errors, n + 1);
        assert GivesUp(plan, runs, errors, n + 1);
      }
      forall n: nat | GivesUp(plan, runs, errors, n) ensures exists m: nat :: GivesUp(plan[1..], r, e, m) {
        assert plan[..0] == [];
        GivesUpNext(plan, runs, errors, n);
        assert GivesUp(plan[1..], r, e, n - 1);
      }
    }
  }

  // ---------------------------------------------------------------- the code

  /** The byte loop: all of the run arrives, or some of it and an error. */
  method Transfer(buffer: array<byte>, offset: nat, data: seq<byte>, attempt: Attempt) returns (err: bool)
    requires offset + |data| <= buffer.Length && |data| > 0
    modifies buffer
    ensures err == attempt.StopsAt?
    ensures !err ==> buffer[offset..offset + |data|] == data
    ensures buffer[..offset] == old(buffer[..offset])
    ensures buffer[offset + |data|..] == old(buffer[offset + |data|..])
  {
    var stop := match attempt case Complete => |data| case StopsAt(k) => if k < |data| then k else |data| - 1;
    for i := 0 to |data|
      invariant i <= stop
      invariant buffer[offset..offset + i] == data[..i]
      invariant buffer[..offset] == old(buffer[..offset])
      invariant buffer[offset + |data|..] == old(buffer[offset + |data|..])
    {
      if i == stop {
        return true;
      }
      buffer[offset + i] := data[i];
      assert buffer[offset..offset + i + 1] == buffer[offset..offset + i] + [data[i]];
      assert data[..i + 1] == data[..i] + [data[i]];
    }
    assert data[..|data|] == data;
    return false;
  }

  /** The first `offset` bytes of the buffer are so many blocks. */
  ghost predicate Holds(g: Geometry, d: Disk, buffer: seq<byte>, first: nat, blocks: nat, offset: nat)
    requires Good(g)
  {
    offset <= |buffer| && buffer[..offset] == Blocks(g, d, first, blocks)
  }

  /** One read command into its place behind the blocks already there. */
  method ReadRun(g: Geometry, d: Disk, buffer: array<byte>, offset: nat, blnr: nat, readblk: nat, attempt: Attempt,
                 ghost first: nat, ghost total: nat)
    returns (err: bool, len: nat)
    requires Good(g) && ByteSized(g) && blnr < 256 * (g.sect * g.head)
    requires AllFormatted(g, d) && first <= blnr && 0 < readblk <= g.sect - blnr % g.sect
    requires |Blocks(g, d, first, blnr - first + readblk)| <= total <= buffer.Length
    requires Holds(g, d, buffer[..], first, blnr - first, offset)
    modifies buffer
    ensures err == attempt.StopsAt? && len == g.size * readblk
    ensures err ==> Holds(g, d, buffer[..], first, blnr - first, offset)
    ensures !err ==> Holds(g, d, buffer[..], first, blnr - first + readblk, offset + len)
    ensures buffer[total..] == old(buffer[total..])
  {
    var data := SideRun(d, Issued(g, blnr), readblk);
    IssuedExact(g, blnr);
    RunIsBlocks(g, d, blnr, readblk);
    BlocksLen(g, d, blnr, readblk);
    BlocksJoin(g, d, first, blnr - first, readblk);
    MulBound(g.size, readblk);
    len := g.size * readblk;
    ghost var before := buffer[..];
    err := Transfer(buffer, offset, data, attempt);
    TailKept(before, buffer[..], offset + len, total);
    if !err {
      assert buffer[..offset + len] == buffer[..offset] + buffer[offset..offset + len];
    }
  }

  lemma TailKept(a: seq<byte>, b: seq<byte>, m: nat, n: nat)
    requires m <= n <= |a| == |b| && a[m..] == b[m..]
    ensures a[n..] == b[n..]
  {
    assert a[n..] == a[m..][n - m..] && b[n..] == b[m..][n - m..];
  }

  /** The counters after an error: four more tries, then a recalibration, at most four. */
  method CountError(rw: nat, cal: nat) returns (rw1: nat, cal1: nat, giveUp: bool)
    requires rw <= 4 && cal <= 4
    ensures giveUp <==> 5 * cal + rw == 24
    ensures !giveUp ==> rw1 <= 4 && cal1 <= 4 && 5 * cal1 + rw1 == 5 * cal + rw + 1
  {
    rw1, cal1, giveUp := rw + 1, cal, false;
    if rw > FDC_RW_RETRIES {
      cal1 := cal + 1;
      if cal > FDC_CAL_RETRIES {
        giveUp := true;
      } else {
        rw1 := 0;
      }
    }
  }

  function AttemptAt(plan: seq<Attempt>, next: nat): Attempt { if next < |plan| then plan[next] else Complete }

  lemma {:induction false} VerdictNext(plan: seq<Attempt>, next: nat, rest: seq<Attempt>, runs: nat, errors: nat)
    requires runs > 0 && next <= |plan| && rest == plan[next..] && errors <= 24
    ensures var later := if next < |plan| then rest[1..] else rest;
      Verdict(rest, runs, errors) ==
        if AttemptAt(plan, next).Complete? then Verdict(later, runs - 1, errors)
        else errors < 24 && Verdict(later, runs, errors + 1)
  {}

  lemma {:induction false} MoreBlocks(g: Geometry, d: Disk, blnr: nat, m: nat, n: nat)
    requires Good(g) && m <= n
    ensures |Blocks(g, d, blnr, m)| <= |Blocks(g, d, blnr, n)|
  {
    BlocksJoin(g, d, blnr, m, n - m);
  }

  /** The counters after a run. */
  method Advance(g: Geometry, blnr: nat, blocks: nat, readblk: nat) returns (blnr1: nat, blocks1: nat, readblk1: nat)
    requires Good(g) && blocks > 0 && readblk == RunLen(g, blnr, blocks)
    ensures blnr1 == blnr + readblk && blocks1 == blocks - readblk && blocks1 < blocks
    ensures readblk1 == RunLen(g, blnr1, blocks1) && Runs(g, blnr, blocks) == Runs(g, blnr1, blocks1) + 1
  {
    NextRun(g, blnr, blocks);
    blnr1, blocks1 := blnr + readblk, blocks - readblk;
    readblk1 := if g.sect > blocks1 then blocks1 else g.sect;
  }

  lemma RunFits(g: Geometry, blnr: nat, blocks: nat)
    requires Good(g) && blocks > 0
    ensures 0 < RunLen(g, blnr, blocks) <= g.sect - blnr % g.sect && RunLen(g, blnr, blocks) <= blocks
    ensures Runs(g, blnr, blocks) > 0
  {}

  /** The next run of a request of which so many blocks are left. */
  method NextRead(g: Geometry, d: Disk, buffer: array<byte>, offset: nat, blnr: nat, readblk: nat, attempt: Attempt,
                  ghost first: nat, ghost blocks: nat)
    returns (err: bool, len: nat)
    requires Good(g) && ByteSized(g) && blnr + blocks <= 256 * (g.sect * g.head) && AllFormatted(g, d)
    requires first <= blnr && blocks > 0 && readblk == RunLen(g, blnr, blocks)
    requires |Blocks(g, d, first, blnr - first + blocks)| <= buffer.Length
    requires Holds(g, d, buffer[..], first, blnr - first, offset)
    modifies buffer
    ensures err == attempt.StopsAt? && Runs(g, blnr, blocks) > 0
    ensures Holds(g, d, buffer[..], first, if err then blnr - first else blnr - first + readblk, if err then offset else offset + len)
    ensures var total := |Blocks(g, d, first, blnr - first + blocks)|; buffer[total..] == old(buffer[total..])
  {
    RunFits(g, blnr, blocks);
    MoreBlocks(g, d, first, blnr - first + readblk, blnr - first + blocks);
    err, len := ReadRun(g, d, buffer, offset, blnr, readblk, attempt, first, |Blocks(g, d, first, blnr - first + blocks)|);
  }

  /** The verdict on the whole request is still that on the runs and attempts to come. */
  ghost predicate Pending(plan: seq<Attempt>, next: nat, rw: nat, cal: nat, runs: nat, verdict: bool) {
    next <= |plan| && rw <= 4 && cal <= 4 && verdict == Verdict(plan[next..], runs, 5 * cal + rw)
  }

  /** The bookkeeping of the retry counters after an attempt. */
  method NoteAttempt(plan: seq<Attempt>, next: nat, rw: nat, cal: nat, err: bool, ghost runs: nat, ghost verdict: bool)
    returns (next1: nat, rw1: nat, cal1: nat, giveUp: bool)
    requires Pending(plan, next, rw, cal, runs, verdict) && runs > 0 && err == AttemptAt(plan, next).StopsAt?
    ensures giveUp ==> !verdict
    ensures !giveUp ==> Pending(plan, next1, rw1, cal1, if err then runs else runs - 1, verdict)
    ensures next <= next1 <= |plan| && (err ==> next < next1)
  {
    VerdictNext(plan, next, plan[next..], runs, 5 * cal + rw);
    next1, rw1, cal1, giveUp := next, rw, cal, false;
    if next < |plan| {
      next1 := next + 1;
      assert plan[next..][1..] == plan[next1..];
    }
    if err {
      rw1, cal1, giveUp := CountError(rw, cal);
    }
  }

  /** fdc_read_data, with seeks and recalibrations succeeding. It fails exactly at the 25th
      error; otherwise the blocks lie in the buffer in order, and nothing behind them. */
  method ReadData(g: Geometry, d: Disk, buffer: array<byte>, first: nat, count: nat, plan: seq<Attempt>) returns (ok: bool)
    requires Good(g) && ByteSized(g) && first + count <= 256 * (g.sect * g.head)
    requires AllFormatted(g, d) && |Blocks(g, d, first, count)| <= buffer.Length
    modifies buffer
    ensures ok == Verdict(plan, Runs(g, first, count), 0)
    ensures ok ==> buffer[..|Blocks(g, d, first, count)|] == Blocks(g, d, first, count)
    ensures buffer[|Blocks(g, d, first, count)|..] == old(buffer[|Blocks(g, d, first, count)|..])
  {
    var blnr: nat, blocks: nat, offset: nat, next: nat := first, count, 0, 0;
    var retriesrw: nat, retriescal: nat := 0, 0;
    var readblk := RunLen(g, blnr, blocks);
    ghost var total := |Blocks(g, d, first, count)|;
    ghost var tail, verdict := buffer[total..], Verdict(plan, Runs(g, first, count), 0);
    assert plan[0..] == plan;
    while blocks > 0
      invariant blnr + blocks == first + count && first <= blnr && readblk == RunLen(g, blnr, blocks)
      invariant Holds(g, d, buffer[..], first, blnr - first, offset) && buffer[total..] == tail
      invariant Pending(plan, next, retriesrw, retriescal, Runs(g, blnr, blocks), verdict)
      decreases blocks, |plan| - next
    {
      var err, len := NextRead(g, d, buffer, offset, blnr, readblk, AttemptAt(plan, next), first, blocks);
      var giveUp: bool;
      next, retriesrw, retriescal, giveUp := NoteAttempt(plan, next, retriesrw, retriescal, err, Runs(g, blnr, blocks), verdict);
      if giveUp {
        return false;
      }
      if !err {
        offset := offset + len;
        blnr, blocks, readblk := Advance(g, blnr, blocks, readblk);
      }
    }
    return true;
  }
}
