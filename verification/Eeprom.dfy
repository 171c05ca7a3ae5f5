/** Paged EEPROM transfers of common/cmd_eeprom.c, over a bus of chips whose address counter
    wraps inside a write page. */
module Eeprom {
  import opened DivMod

  type byte = b: int | 0 <= b < 256

  // ---------------------------------------------------------------- configuration

  /** wide: two-byte array addresses; page: the write page assumed by the code; chipPage: the
      page of the device; rxtx: the longest transfer of the bus driver; dev: the device
      address; selectBits: how many low bits of the chip address select a block. */
  datatype Config = Config(wide: bool, page: nat, chipPage: nat, rxtx: nat, dev: nat, selectBits: nat)

  /** The page divides the 256-byte block and the device's own page; the device address has
      no bit in common with the block number. */
  ghost predicate Good(g: Config) {
    g.page > 0 && 256 % g.page == 0 && g.chipPage > 0 && g.chipPage % g.page == 0 && g.rxtx > 0 &&
    g.selectBits <= 8 && Pow2(g.selectBits) <= 256 && g.dev < 256 && LowClear(g.dev, g.selectBits)
  }

  function Span(g: Config): nat { if g.wide then 0x1_0000 else 0x100 }

  function Block(g: Config, o: nat): nat { if g.wide then o / 0x1_0000 else o / 0x100 }

  function Inner(g: Config, o: nat): nat { if g.wide then o % 0x1_0000 else o % 0x100 }

  /** Bitwise or. */
  function Or(a: nat, b: nat): nat {
    if a == 0 then b else if b == 0 then a
    else 2 * Or(a / 2, b / 2) + (if a % 2 == 1 || b % 2 == 1 then 1 else 0)
  }

  /** addr[0]: the block number as an unsigned char, with the device address inserted. */
  function Chip(g: Config, o: nat): nat { Or(Block(g, o) % 256, g.dev) }

  /** The number of offsets the selectors can reach. */
  function Size(g: Config): nat { Pow2(g.selectBits) * Span(g) }

  /** The low n bits are clear. */
  predicate LowClear(b: nat, n: nat) { n == 0 || (b % 2 == 0 && LowClear(b / 2, n - 1)) }

  /** Numbers without a common bit are added by or. */
  lemma {:induction false} OrDisjoint(a: nat, b: nat, n: nat)
    requires a < Pow2(n) && LowClear(b, n)
    ensures Or(a, b) == a + b
    decreases n
  {
    if a != 0 && b != 0 {
      OrDisjoint(a / 2, b / 2, n - 1);
    }
  }

  lemma BlockBound(g: Config, o: nat)
    requires Good(g) && o < Size(g)
    ensures Block(g, o) < Pow2(g.selectBits)
  {}

  /** The chip and the inner address determine the offset. */
  lemma CellInjective(g: Config, o1: nat, o2: nat)
    requires Good(g) && o1 < Size(g) && o2 < Size(g) && Chip(g, o1) == Chip(g, o2) && Inner(g, o1) == Inner(g, o2)
    ensures o1 == o2
  {
    ChipSum(g, o1);
    ChipSum(g, o2);
    Recompose(g, o1);
    Recompose(g, o2);
  }

  lemma ChipSum(g: Config, o: nat)
    requires Good(g) && o < Size(g)
    ensures Chip(g, o) == Block(g, o) + g.dev
  {
    BlockBound(g, o);
    ChipOf(Block(g, o), g.dev, g.selectBits);
  }

  lemma ChipOf(b: nat, dev: nat, n: nat)
    requires b < Pow2(n) <= 256 && LowClear(dev, n)
    ensures Or(b % 256, dev) == b + dev
  {
    OrDisjoint(b, dev, n);
  }

  lemma Recompose(g: Config, o: nat)
    ensures o == Block(g, o) * Span(g) + Inner(g, o)
  {}

  // ---------------------------------------------------------------- the device

  type Cells = map<(int, int), byte>

  /** A cell never written reads as erased. */
  function Get(mem: Cells, chip: int, a: int): byte { if (chip, a) in mem then mem[(chip, a)] else 255 }

  /** The address counter after one byte: it stays in the page. */
  function Next(a: nat, page: nat): nat
    requires page > 0
  {
    if a % page == page - 1 then a - (page - 1) else a + 1
  }

  /** A page write as the device executes it. */
  function Program(mem: Cells, chip: int, a: nat, page: nat, data: seq<byte>): Cells
    requires page > 0
    decreases |data|
  {
    if data == [] then mem else Program(mem[(chip, a) := data[0]], chip, Next(a, page), page, data[1..])
  }

  lemma StepInPage(a: nat, page: nat, n: nat)
    requires page > 0 && n > 1 && a % page + n <= page
    ensures Next(a, page) == a + 1 && (a + 1) % page + (n - 1) <= page
  {
    var q, r := a / page, a % page;
    assert a + 1 == q * page + (r + 1);
    assert (a + 1) % page == r + 1 by { QuotientUnique(a + 1, page, q, r + 1); }
  }

  /** A write that does not leave its page stores exactly its data. */
  lemma {:induction false} ProgramCell(mem: Cells, chip: int, a: nat, page: nat, data: seq<byte>, c: int, x: int)
    requires page > 0 && a % page + |data| <= page
    ensures Get(Program(mem, chip, a, page, data), c, x)
         == if c == chip && a <= x < a + |data| then data[x - a] else Get(mem, c, x)
    decreases |data|
  {
    if |data| > 1 {
      StepInPage(a, page, |data|);
      ProgramCell(mem[(chip, a) := data[0]], chip, a + 1, page, data[1..], c, x);
    } else if |data| == 1 {
      assert data[1..] == [];
    }
  }

  /** Why writes stop at the end of a page: behind its last byte the counter is at its first. */
  lemma PageWraps(mem: Cells, chip: int, a: nat, page: nat, x: byte, y: byte)
    requires page > 1 && a % page == page - 1
    ensures var now := Program(mem, chip, a, page, [x, y]);
      Get(now, chip, a) == x && Get(now, chip, a - (page - 1)) == y
  {
    var m, b := mem[(chip, a) := x], a - (page - 1);
    assert [x, y][1..] == [y] && [y][1..] == [];
    assert Program(m, chip, b, page, [y]) == Program(m[(chip, b) := y], chip, Next(b, page), page, []);
  }

  // ---------------------------------------------------------------- chunks

  /** The length of the next write. */
  function WriteLen(g: Config, offset: nat, end: nat): nat
    requires Good(g) && offset < end
  {
    Min(end - offset, Min(g.page - offset % 256 % g.page, g.rxtx))
  }

  /** The length of the next read. */
  function ReadLen(g: Config, offset: nat, end: nat): nat
    requires Good(g) && offset < end
  {
    Min(end - offset, Min(0x100 - offset % 256, g.rxtx))
  }

  function Min(a: nat, b: nat): nat { if a < b then a else b }

  /** A transfer is as long as it may be: it ends with the data, with the longest transfer of
      the bus driver, or, for a write, at a page end and, for a read, at the end of 256 bytes. */
  lemma ChunkLongest(g: Config, offset: nat, end: nat)
    requires Good(g) && offset < end
    ensures var n := WriteLen(g, offset, end);
      && 0 < n <= end - offset && n <= g.rxtx && offset % g.page + n <= g.page
      && (n == end - offset || n == g.rxtx || offset % g.page + n == g.page)
    ensures var n := ReadLen(g, offset, end);
      && 0 < n <= end - offset && n <= g.rxtx && offset % 256 + n <= 256
      && (n == end - offset || n == g.rxtx || offset % 256 + n == 256)
  {
    ModMod(offset, 256, g.page);
  }

  /** The bytes that address an offset: the block number added to the device address, and the
      offset in the block, of 256 bytes or, with two-byte addresses, of 64 KB. */
  lemma Addressed(g: Config, o: nat)
    requires Good(g) && o < Size(g)
    ensures g.wide ==> Chip(g, o) == o / 0x1_0000 + g.dev && Inner(g, o) == o % 0x1_0000
    ensures !g.wide ==> Chip(g, o) == o / 0x100 + g.dev && Inner(g, o) == o % 0x100
  {
    ChipSum(g, o);
  }

  /** A run inside a page of size d is inside a page of any multiple of d. */
  lemma CoarserPage(x: nat, d: nat, m: nat, n: nat)
    requires m > 0 && d > 0 && m % d == 0 && x % d + n <= d
    ensures x % m + n <= m
  {
    ModMod(x, m, d);
    var r, k := x % m, m / d;
    var j := r / d;
    assert r == j * d + r % d && m == k * d;
    WholePages(j, k, d, r % d, n);
  }

  lemma WholePages(j: nat, k: nat, d: nat, s: nat, n: nat)
    requires j * d + s < k * d && s + n <= d && d > 0
    ensures j * d + s + n <= k * d
  {
    assert d * (j - k) == j * d - k * d;
    MulBound(d, j - k);
    assert j < k;
    assert d * (k - j) == k * d - j * d;
    MulBound(d, k - j);
  }

  lemma InnerLow(g: Config, o: nat)
    ensures Inner(g, o) % 256 == o % 256
  {}

  /** A chunk stays in one page of the device. */
  lemma ChunkInPage(g: Config, o: nat, n: nat)
    requires Good(g) && n <= g.page - o % 256 % g.page
    ensures Inner(g, o) % g.chipPage + n <= g.chipPage && n <= 256 - o % 256
  {
    var i := Inner(g, o);
    InnerLow(g, o);
    ModMod(i, 256, g.page);
    CoarserPage(i, g.page, g.chipPage, n);
    CoarserPage(i, g.page, 256, n);
  }

  /** The offsets of a chunk are adjacent cells of one chip, and no other offset is there. */
  lemma ChunkCells(g: Config, o: nat, n: nat, p: nat)
    requires Good(g) && n <= 256 - o % 256 && o + n <= Size(g) && p < Size(g) && n > 0
    ensures (Chip(g, p) == Chip(g, o) && Inner(g, o) <= Inner(g, p) < Inner(g, o) + n) <==> o <= p < o + n
    ensures o <= p < o + n ==> Inner(g, p) - Inner(g, o) == p - o
  {
    if o <= p < o + n {
      SameBlock(g, o, p);
    } else if Chip(g, p) == Chip(g, o) && Inner(g, o) <= Inner(g, p) < Inner(g, o) + n {
      var p1 := o + (Inner(g, p) - Inner(g, o));
      SameBlock(g, o, p1);
      CellInjective(g, p, p1);
    }
  }

  lemma SameBlock(g: Config, o: nat, p: nat)
    requires o <= p < o + (256 - o % 256)
    ensures Block(g, p) == Block(g, o) && Inner(g, p) - Inner(g, o) == p - o
  {
    assert p / 256 == o / 256;
    Octets(o);
    Octets(p);
  }

  lemma Octets(x: nat)
    ensures x / 0x1_0000 == x / 256 / 256
  {}

  // ---------------------------------------------------------------- the flat view

  function Flat(g: Config, mem: Cells, o: nat): byte { Get(mem, Chip(g, o), Inner(g, o)) }

  /** A cell that no offset of the device reaches. */
  ghost predicate Foreign(g: Config, chip: int, a: int) {
    forall o: nat :: o < Size(g) ==> !(Chip(g, o) == chip && Inner(g, o) == a)
  }

  /** `now` is `was` with the first n bytes of the buffer written flat at `start`. */
  ghost predicate Written(g: Config, was: Cells, now: Cells, start: nat, data: seq<byte>, n: nat)
    requires n <= |data|
  {
    (forall o: nat :: o < Size(g) ==>
      Flat(g, now, o) == if start <= o < start + n then data[o - start] else Flat(g, was, o)) &&
    (forall c, a :: Foreign(g, c, a) ==> Get(now, c, a) == Get(was, c, a))
  }

  /** Every byte of the range is old or new, and no other byte has changed. */
  ghost predicate Touched(g: Config, was: Cells, now: Cells, start: nat, data: seq<byte>, n: nat)
    requires n <= |data|
  {
    (forall o: nat :: o < Size(g) ==>
      OldOrNew(Flat(g, now, o), Flat(g, was, o), start, data, n, o)) &&
    (forall c, a :: Foreign(g, c, a) ==> Get(now, c, a) == Get(was, c, a))
  }

  /** One chunk is a flat write of the chunk. */
  lemma {:induction false} ChunkFlat(g: Config, mem: Cells, o: nat, data: seq<byte>, p: nat)
    requires Good(g) && 0 < |data| <= g.page - o % 256 % g.page && o + |data| <= Size(g) && p < Size(g)
    ensures Flat(g, Program(mem, Chip(g, o), Inner(g, o), g.chipPage, data), p)
         == if o <= p < o + |data| then data[p - o] else Flat(g, mem, p)
  {
    ChunkInPage(g, o, |data|);
    ChunkCells(g, o, |data|, p);
    ProgramCell(mem, Chip(g, o), Inner(g, o), g.chipPage, data, Chip(g, p), Inner(g, p));
  }

  lemma {:induction false} ChunkForeign(g: Config, mem: Cells, o: nat, data: seq<byte>, c: int, a: int)
    requires Good(g) && 0 < |data| <= g.page - o % 256 % g.page && o + |data| <= Size(g) && Foreign(g, c, a)
    ensures Get(Program(mem, Chip(g, o), Inner(g, o), g.chipPage, data), c, a) == Get(mem, c, a)
  {
    ChunkInPage(g, o, |data|);
    ProgramCell(mem, Chip(g, o), Inner(g, o), g.chipPage, data, c, a);
    if c == Chip(g, o) && Inner(g, o) <= a < Inner(g, o) + |data| {
      Reached(g, o, |data|, a);
    }
  }

  lemma Reached(g: Config, o: nat, n: nat, a: int)
    requires Good(g) && n <= 256 - o % 256 && o + n <= Size(g) && Inner(g, o) <= a < Inner(g, o) + n
    ensures !Foreign(g, Chip(g, o), a)
  {
    var p := o + (a - Inner(g, o));
    SameBlock(g, o, p);
    assert Chip(g, p) == Chip(g, o) && Inner(g, p) == a;
  }

  lemma {:induction false} WrittenChunk(g: Config, was: Cells, now: Cells, start: nat, data: seq<byte>, n: nat, len: nat)
    requires Good(g) && start + |data| <= Size(g) && n + len <= |data|
    requires 0 < len <= g.page - (start + n) % 256 % g.page
    requires Written(g, was, now, start, data, n)
    ensures Written(g, was, Program(now, Chip(g, start + n), Inner(g, start + n), g.chipPage, data[n..n + len]), start, data, n + len)
  {
    var o, chunk := start + n, data[n..n + len];
    var next := Program(now, Chip(g, o), Inner(g, o), g.chipPage, chunk);
    forall p: nat | p < Size(g)
      ensures Flat(g, next, p) == if start <= p < start + (n + len) then data[p - start] else Flat(g, was, p)
    {
      ChunkFlat(g, now, o, chunk, p);
    }
    forall c, a | Foreign(g, c, a) ensures Get(next, c, a) == Get(was, c, a) {
      ChunkForeign(g, now, o, chunk, c, a);
    }
  }

  /** A byte before or after another transfer of the same call. */
  predicate OldOrNew(now: byte, was: byte, start: nat, data: seq<byte>, n: nat, o: nat)
    requires n <= |data|
  {
    now == was || (start <= o < start + n && now == data[o - start])
  }

  lemma {:induction false} TouchedChunk(g: Config, was: Cells, now: Cells, start: nat, data: seq<byte>, n: nat, len: nat)
    requires Good(g) && start + |data| <= Size(g) && n + len <= |data|
    requires 0 < len <= g.page - (start + n) % 256 % g.page
    requires Touched(g, was, now, start, data, n)
    ensures Touched(g, was, Program(now, Chip(g, start + n), Inner(g, start + n), g.chipPage, data[n..n + len]), start, data, n + len)
  {
    var o, chunk := start + n, data[n..n + len];
    var next := Program(now, Chip(g, o), Inner(g, o), g.chipPage, chunk);
    forall p: nat | p < Size(g)
      ensures OldOrNew(Flat(g, next, p), Flat(g, was, p), start, data, n + len, p)
    {
      assert OldOrNew(Flat(g, now, p), Flat(g, was, p), start, data, n, p);
      ChunkFlat(g, now, o, chunk, p);
    }
    forall c, a | Foreign(g, c, a) ensures Get(next, c, a) == Get(was, c, a) {
      ChunkForeign(g, now, o, chunk, c, a);
    }
  }

  // ---------------------------------------------------------------- reading

  /** A sequential read as the device executes it: the counter runs through the whole array. */
  function Fetch(g: Config, mem: Cells, chip: int, a: nat, n: nat): (r: seq<byte>)
    ensures |r| == n
    decreases n
  {
    if n == 0 then [] else [Get(mem, chip, a)] + Fetch(g, mem, chip, if a + 1 == Span(g) then 0 else a + 1, n - 1)
  }

  lemma {:induction false} FetchAt(g: Config, mem: Cells, chip: int, a: nat, n: nat, k: nat)
    requires a + n <= Span(g) && k < n
    ensures Fetch(g, mem, chip, a, n)[k] == Get(mem, chip, a + k)
    decreases n
  {
    if k > 0 {
      FetchAt(g, mem, chip, a + 1, n - 1, k - 1);
    }
  }

  lemma BlockRoom(g: Config, o: nat, n: nat)
    requires n <= 256 - o % 256
    ensures Inner(g, o) + n <= Span(g)
  {
    var h := o / 256;
    assert o == 256 * h + o % 256;
    assert o % 0x1_0000 == 256 * (h % 256) + o % 256;
  }

  lemma {:induction false} FetchFlat(g: Config, mem: Cells, o: nat, n: nat, k: nat)
    requires n <= 256 - o % 256 && k < n
    ensures Fetch(g, mem, Chip(g, o), Inner(g, o), n)[k] == Flat(g, mem, o + k)
  {
    BlockRoom(g, o, n);
    FetchAt(g, mem, Chip(g, o), Inner(g, o), n, k);
    SameBlock(g, o, o + k);
  }

  // ---------------------------------------------------------------- the code

  /** Some of the first n transfers fails. */
  ghost predicate Fails(plan: seq<bool>, n: nat) { exists i :: 0 <= i < n && i < |plan| && !plan[i] }

  /** The bus: the cells behind it and the outcomes of the transfers to come. */
  class Bus {
    var mem: Cells
    var plan: seq<bool>

    constructor (m: Cells, p: seq<bool>)
      ensures mem == m && plan == p
    {
      mem, plan := m, p;
    }

    /** One transfer is granted or fails. */
    method Transfer() returns (ok: bool)
      modifies this`plan
      ensures plan == if old(plan) == [] then [] else old(plan)[1..]
      ensures ok == (old(plan) == [] || old(plan)[0])
    {
      ok := plan == [] || plan[0];
      if plan != [] { plan := plan[1..]; }
    }

    /** i2c_write: on success the device programs the bytes. */
    method I2cWrite(g: Config, chip: int, a: nat, data: seq<byte>) returns (err: bool)
      requires Good(g)
      modifies this
      ensures plan == if old(plan) == [] then [] else old(plan)[1..]
      ensures err == (old(plan) != [] && !old(plan)[0])
      ensures mem == if err then old(mem) else Program(old(mem), chip, a, g.chipPage, data)
    {
      var ok := Transfer();
      err := !ok;
      if ok { mem := Program(mem, chip, a, g.chipPage, data); }
    }

    /** One turn of the write loop. */
    method WriteChunk(g: Config, ghost first: Cells, start: nat, data: seq<byte>, n: nat, ghost clean: bool)
      returns (err: bool, len: nat)
      requires Good(g) && start + |data| <= Size(g) && n < |data|
      requires Touched(g, first, mem, start, data, n) && (clean ==> Written(g, first, mem, start, data, n))
      modifies this
      ensures 0 < len && n + len <= |data|
      ensures plan == if old(plan) == [] then [] else old(plan)[1..]
      ensures err == (old(plan) != [] && !old(plan)[0])
      ensures Touched(g, first, mem, start, data, n + len)
      ensures clean && !err ==> Written(g, first, mem, start, data, n + len)
    {
      var offset, end := start + n, start + |data|;
      len := WriteLen(g, offset, end);
      ChunkStart(g, offset, end);
      ghost var was := mem;
      err := I2cWrite(g, Chip(g, offset), Inner(g, offset), data[n..n + len]);
      if !err {
        TouchedChunk(g, first, was, start, data, n, len);
        if clean {
          WrittenChunk(g, first, was, start, data, n, len);
        }
      }
    }

    /** eeprom_write. Reports an error if and only if a transfer failed; without one the
        chunks amount to one flat update, and with one every byte is still old or new. */
    method EepromWrite(g: Config, start: nat, data: seq<byte>) returns (rcode: nat, ghost used: nat)
      requires Good(g) && start + |data| <= Size(g)
      modifies this
      ensures plan == if used <= |old(plan)| then old(plan)[used..] else []
      ensures rcode == if Fails(old(plan), used) then 1 else 0
      ensures rcode == 0 ==> Written(g, old(mem), mem, start, data, |data|)
      ensures Touched(g, old(mem), mem, start, data, |data|)
    {
      var end := start + |data|;
      var offset := start;
      used := 0;
      rcode := 0;
      while offset < end
        invariant start <= offset <= end
        invariant plan == if used <= |old(plan)| then old(plan)[used..] else []
        invariant rcode == if Fails(old(plan), used) then 1 else 0
        invariant rcode == 0 ==> Written(g, old(mem), mem, start, data, offset - start)
        invariant Touched(g, old(mem), mem, start, data, offset - start)
      {
        var err, len := WriteChunk(g, old(mem), start, data, offset - start, rcode == 0);
        if err {
          rcode := 1;
        }
        NextFails(old(plan), used, err);
        used := used + 1;
        offset := offset + len;
      }
    }

    /** i2c_read: on success the bytes arrive in the buffer. */
    method I2cRead(g: Config, chip: int, a: nat, buffer: array<byte>, at: nat, len: nat) returns (err: bool)
      requires at + len <= buffer.Length
      modifies this`plan, buffer
      ensures plan == if old(plan) == [] then [] else old(plan)[1..]
      ensures err == (old(plan) != [] && !old(plan)[0])
      ensures forall k :: 0 <= k < buffer.Length ==>
        buffer[k] == if !err && at <= k < at + len then Fetch(g, mem, chip, a, len)[k - at] else old(buffer[k])
    {
      var ok := Transfer();
      err := !ok;
      if ok {
        var bytes := Fetch(g, mem, chip, a, len);
        ghost var left := plan;
        for k := 0 to len
          invariant plan == left
          invariant forall j :: 0 <= j < buffer.Length ==>
            buffer[j] == if at <= j < at + k then bytes[j - at] else old(buffer[j])
        {
          buffer[at + k] := bytes[k];
        }
      }
    }

    /** eeprom_read. Reports an error if and only if a transfer failed; without one the
        buffer holds the flat contents, and nothing behind the count is touched. */
    method EepromRead(g: Config, start: nat, buffer: array<byte>, cnt: nat) returns (rcode: nat, ghost used: nat)
      requires Good(g) && start + cnt <= Size(g) && cnt <= buffer.Length
      modifies this`plan, buffer
      ensures plan == if used <= |old(plan)| then old(plan)[used..] else []
      ensures rcode == if Fails(old(plan), used) then 1 else 0
      ensures rcode == 0 ==> forall k :: 0 <= k < cnt ==> buffer[k] == Flat(g, mem, start + k)
      ensures forall k :: 0 <= k < cnt ==> buffer[k] == Flat(g, mem, start + k) || buffer[k] == old(buffer[k])
      ensures forall k :: cnt <= k < buffer.Length ==> buffer[k] == old(buffer[k])
    {
      var end := start + cnt;
      var offset := start;
      used := 0;
      rcode := 0;
      while offset < end
        invariant start <= offset <= end
        invariant plan == if used <= |old(plan)| then old(plan)[used..] else []
        invariant rcode == if Fails(old(plan), used) then 1 else 0
        invariant rcode == 0 ==> forall k :: 0 <= k < offset - start ==> buffer[k] == Flat(g, mem, start + k)
        invariant forall k :: 0 <= k < offset - start ==> buffer[k] == Flat(g, mem, start + k) || buffer[k] == old(buffer[k])
        invariant forall k :: offset - start <= k < buffer.Length ==> buffer[k] == old(buffer[k])
      {
        var len := ReadLen(g, offset, end);
        var err := I2cRead(g, Chip(g, offset), Inner(g, offset), buffer, offset - start, len);
        if err {
          rcode := 1;
        } else {
          forall k | offset - start <= k < offset - start + len ensures buffer[k] == Flat(g, mem, start + k) {
            FetchFlat(g, mem, offset, len, k - (offset - start));
          }
        }
        NextFails(old(plan), used, err);
        used := used + 1;
        offset := offset + len;
      }
    }

    /** What was written is read back, on every subrange. */
    method WriteThenRead(g: Config, start: nat, data: seq<byte>, from: nat, buffer: array<byte>, cnt: nat)
      returns (wrote: nat, read: nat)
      requires Good(g) && start + |data| <= Size(g) && from + cnt <= |data| && cnt <= buffer.Length
      modifies this, buffer
      ensures wrote == 0 && read == 0 ==> buffer[..cnt] == data[from..from + cnt]
    {
      ghost var used: nat;
      wrote, used := EepromWrite(g, start, data);
      read, used := EepromRead(g, start + from, buffer, cnt);
      if wrote == 0 && read == 0 {
        forall k | 0 <= k < cnt ensures buffer[k] == data[from + k] {
          assert Flat(g, mem, start + from + k) == data[from + k];
        }
      }
    }
  }

  lemma ChunkStart(g: Config, offset: nat, end: nat)
    requires Good(g) && offset < end
    ensures 0 < WriteLen(g, offset, end) <= g.page - offset % 256 % g.page && offset + WriteLen(g, offset, end) <= end
  {}

  lemma NextFails(plan: seq<bool>, used: nat, err: bool)
    requires err == (used < |plan| && !plan[used])
    ensures Fails(plan, used + 1) <==> Fails(plan, used) || err
  {
    if Fails(plan, used) {
      var i :| 0 <= i < used && i < |plan| && !plan[i];
      assert 0 <= i < used + 1;
    }
  }
}
