/** The copying of images in common/cmd_bootm.c on systems with a watchdog: memmove in chunks,
    in a memory in which both areas lie. */
module BootCopy {

  type byte = b: int | 0 <= b < 256

  const CHUNKSZ := 65536

  predicate Inside(size: nat, dst: nat, src: nat, len: nat) { dst + len <= size && src + len <= size }

  /** Byte a of the memory after one memmove of the whole area. */
  function Moved(m: seq<byte>, dst: nat, src: nat, len: nat, a: nat): byte
    requires Inside(|m|, dst, src, len) && a < |m|
  {
    if dst <= a < dst + len then m[src + (a - dst)] else m[a]
  }

  function Move(m: seq<byte>, dst: nat, src: nat, len: nat): (r: seq<byte>)
    requires Inside(|m|, dst, src, len)
    ensures |r| == |m|
  {
    seq(|m|, a requires 0 <= a < |m| => Moved(m, dst, src, len, a))
  }

  /** The loop: a memmove of at most one chunk at a time, from the start of the area on. */
  function Chunks(m: seq<byte>, dst: nat, src: nat, len: nat): (r: seq<byte>)
    requires Inside(|m|, dst, src, len)
    ensures |r| == |m|
    decreases len
  {
    if len == 0 then m
    else
      var tail := Least(len, CHUNKSZ);
      Chunks(Move(m, dst, src, tail), dst + tail, src + tail, len - tail)
  }

  // ---------------------------------------------------------------- what arrives

  /** What arrives as byte i of the copy, d being the distance from source to destination: an
      earlier chunk has already overwritten byte i of the source when it lies in the part of
      the destination that precedes the chunk of i; then byte i - d is seen in its place. */
  function Echo(m: seq<byte>, src: nat, d: int, i: nat): byte
    requires src + i < |m|
    decreases i
  {
    if i % CHUNKSZ < d <= i then Echo(m, src, d, i - d) else m[src + i]
  }

  /** The copy has been made up to byte k, and nothing else has changed. */
  ghost predicate CopiedTo(m: seq<byte>, now: seq<byte>, dst: nat, src: nat, k: nat) {
    && |now| == |m| && Inside(|m|, dst, src, k)
    && forall a :: 0 <= a < |now| ==> now[a] == if dst <= a < dst + k then Echo(m, src, dst - src, a - dst) else m[a]
  }

  /** What stands at byte i of the source when its chunk comes. */
  lemma SourceSeen(m: seq<byte>, now: seq<byte>, dst: nat, src: nat, k: nat, i: nat)
    requires CopiedTo(m, now, dst, src, k) && k % CHUNKSZ == 0 && k <= i < k + CHUNKSZ && src + i < |m|
    ensures now[src + i] == Echo(m, src, dst - src, i)
  {
    var d := dst - src;
    assert i % CHUNKSZ == i - k;
    if i - k < d <= i {
      assert now[dst + (i - d)] == Echo(m, src, d, i - d);
    }
  }

  lemma NextByte(m: seq<byte>, now: seq<byte>, dst: nat, src: nat, k: nat, n: nat, a: nat)
    requires CopiedTo(m, now, dst, src, k) && k % CHUNKSZ == 0 && n <= CHUNKSZ && Inside(|m|, dst, src, k + n) && a < |m|
    ensures Moved(now, dst + k, src + k, n, a) == if dst <= a < dst + (k + n) then Echo(m, src, dst - src, a - dst) else m[a]
  {
    if dst + k <= a < dst + k + n {
      SourceSeen(m, now, dst, src, k, a - dst);
    } else {
      assert now[a] == if dst <= a < dst + k then Echo(m, src, dst - src, a - dst) else m[a];
    }
  }

  lemma NextChunk(m: seq<byte>, now: seq<byte>, next: seq<byte>, dst: nat, src: nat, k: nat, n: nat)
    requires CopiedTo(m, now, dst, src, k) && k % CHUNKSZ == 0 && n <= CHUNKSZ && Inside(|m|, dst, src, k + n)
    requires next == Move(now, dst + k, src + k, n)
    ensures CopiedTo(m, next, dst, src, k + n)
  {
    forall a | 0 <= a < |m|
      ensures next[a] == if dst <= a < dst + (k + n) then Echo(m, src, dst - src, a - dst) else m[a]
    {
      assert next[a] == Moved(now, dst + k, src + k, n, a);
      NextByte(m, now, dst, src, k, n, a);
    }
  }

  function Least(a: nat, b: nat): nat { if a > b then b else a }

  lemma WholeChunk(k: nat)
    requires k % CHUNKSZ == 0
    ensures (k + CHUNKSZ) % CHUNKSZ == 0
  {}

  lemma {:induction false} ChunksStep(m: seq<byte>, dst: nat, src: nat, len: nat)
    requires Inside(|m|, dst, src, len) && len > 0
    ensures var tail := Least(len, CHUNKSZ);
      Chunks(m, dst, src, len) == Chunks(Move(m, dst, src, tail), dst + tail, src + tail, len - tail)
  {}

  lemma {:induction false} ChunksFrom(m: seq<byte>, now: seq<byte>, r: seq<byte>, dst: nat, src: nat, k: nat, len: nat)
    requires CopiedTo(m, now, dst, src, k) && (len == 0 || k % CHUNKSZ == 0) && Inside(|m|, dst, src, k + len)
    requires r == Chunks(now, dst + k, src + k, len)
    ensures CopiedTo(m, r, dst, src, k + len)
    decreases len
  {
    if len > 0 {
      var tail := Least(len, CHUNKSZ);
      var next := Move(now, dst + k, src + k, tail);
      NextChunk(m, now, next, dst, src, k, tail);
      WholeChunk(k);
      ChunksStep(now, dst + k, src + k, len);
      ChunksFrom(m, next, r, dst, src, k + tail, len - tail);
    }
  }

  /** The loop leaves the echo of the source in the destination, and all else as it was. */
  lemma {:induction false} ChunksEcho(m: seq<byte>, dst: nat, src: nat, len: nat)
    requires Inside(|m|, dst, src, len)
    ensures CopiedTo(m, Chunks(m, dst, src, len), dst, src, len)
  {
    ChunksFrom(m, m, Chunks(m, dst, src, len), dst, src, 0, len);
  }

  // ---------------------------------------------------------------- when that is the source

  /** The destination starts inside the source, behind its start, and one chunk does not do. */
  predicate Overruns(dst: nat, src: nat, len: nat) { src < dst < src + len && len > CHUNKSZ }

  /** Without that, the loop is one memmove, whatever the memory holds. */
  lemma {:induction false} ChunksMove(m: seq<byte>, dst: nat, src: nat, len: nat)
    requires Inside(|m|, dst, src, len) && !Overruns(dst, src, len)
    ensures Chunks(m, dst, src, len) == Move(m, dst, src, len)
  {
    ChunksEcho(m, dst, src, len);
    var now, moved := Chunks(m, dst, src, len), Move(m, dst, src, len);
    forall a | 0 <= a < |m|
      ensures now[a] == moved[a]
    {
      assert now[a] == if dst <= a < dst + len then Echo(m, src, dst - src, a - dst) else m[a];
    }
  }

  /** With it, a byte of the source arrives twice, in place of a later one. */
  lemma {:induction false} ArrivesTwice(m: seq<byte>, dst: nat, src: nat, len: nat)
    requires Inside(|m|, dst, src, len) && Overruns(dst, src, len)
    ensures var d := dst - src; var q := if d > CHUNKSZ then d else CHUNKSZ;
      q < len && Chunks(m, dst, src, len)[dst + q] == m[src + (q - d)] && Move(m, dst, src, len)[dst + q] == m[src + q]
  {
    var d := dst - src;
    var q := if d > CHUNKSZ then d else CHUNKSZ;
    ChunksEcho(m, dst, src, len);
    assert Echo(m, src, d, q) == Echo(m, src, d, q - d);
  }

  /** A memory with a single byte that is not zero. */
  function Single(size: nat, a: nat): (m: seq<byte>)
    ensures |m| == size
  {
    seq(size, i => if i == a then 1 else 0)
  }

  lemma {:induction false} ChunksDiffer(size: nat, dst: nat, src: nat, len: nat) returns (m: seq<byte>)
    requires Inside(size, dst, src, len) && Overruns(dst, src, len)
    ensures |m| == size && Chunks(m, dst, src, len) != Move(m, dst, src, len)
  {
    var d := dst - src;
    var q := if d > CHUNKSZ then d else CHUNKSZ;
    m := Single(size, src + (q - d));
    ArrivesTwice(m, dst, src, len);
    assert m[src + (q - d)] == 1 && m[src + q] == 0;
  }

  /** The loop is one memmove on every memory if and only if it does not overrun its source:
      the destination does not start inside the source behind its start, or the length is at
      most one chunk of 64 KB. */
  lemma {:induction false} ChunksExact(size: nat, dst: nat, src: nat, len: nat)
    requires Inside(size, dst, src, len)
    ensures (forall m: seq<byte> :: |m| == size ==> Chunks(m, dst, src, len) == Move(m, dst, src, len)) <==>
            !(src < dst < src + len && len > 65536)
  {
    if Overruns(dst, src, len) {
      var m := ChunksDiffer(size, dst, src, len);
    } else {
      forall m: seq<byte> | |m| == size
        ensures Chunks(m, dst, src, len) == Move(m, dst, src, len)
      {
        ChunksMove(m, dst, src, len);
      }
    }
  }

  // ---------------------------------------------------------------- the code

  /** memmove: from the start when the destination lies lower, else from the end. */
  method MemMove(mem: array<byte>, dst: nat, src: nat, count: nat)
    requires Inside(mem.Length, dst, src, count)
    modifies mem
    ensures mem[..] == Move(old(mem[..]), dst, src, count)
  {
    ghost var was := mem[..];
    if dst <= src {
      for i := 0 to count
        invariant forall a :: 0 <= a < mem.Length ==> mem[a] == Moved(was, dst, src, i, a)
      {
        mem[dst + i] := mem[src + i];
      }
    } else {
      for i := count downto 0
        invariant forall a :: 0 <= a < mem.Length ==> mem[a] == Moved(was, dst + i, src + i, count - i, a)
      {
        mem[dst + i] := mem[src + i];
      }
    }
  }

  /** The copying loop. */
  method CopyChunks(mem: array<byte>, dst: nat, src: nat, len: nat)
    requires Inside(mem.Length, dst, src, len)
    modifies mem
    ensures mem[..] == Chunks(old(mem[..]), dst, src, len)
    ensures !(src < dst < src + len && len > 65536) ==> mem[..] == Move(old(mem[..]), dst, src, len)
  {
    ghost var was := mem[..];
    var l: nat, d: nat, s: nat := len, dst, src;
    ghost var k := 0;
    while l > 0
      invariant k + l == len && d == dst + k && s == src + k
      invariant (l == 0 || k % CHUNKSZ == 0) && CopiedTo(was, mem[..], dst, src, k)
      decreases l
    {
      var tail := CopyOne(mem, d, s, l, was, dst, src, k);
      k := k + tail;
      d, s, l := d + tail, s + tail, l - tail;
    }
    IsChunks(was, mem[..], dst, src, len);
  }

  /** One turn of it. */
  method CopyOne(mem: array<byte>, d: nat, s: nat, l: nat, ghost was: seq<byte>, ghost dst: nat, ghost src: nat, ghost k: nat) returns (tail: nat)
    requires l > 0 && d == dst + k && s == src + k && Inside(mem.Length, dst, src, k + l)
    requires k % CHUNKSZ == 0 && CopiedTo(was, mem[..], dst, src, k)
    modifies mem
    ensures 0 < tail <= l && (tail == l || (k + tail) % CHUNKSZ == 0)
    ensures CopiedTo(was, mem[..], dst, src, k + tail)
  {
    tail := if l > CHUNKSZ then CHUNKSZ else l;
    ghost var now := mem[..];
    MemMove(mem, d, s, tail);
    NextChunk(was, now, mem[..], dst, src, k, tail);
    WholeChunk(k);
  }

  lemma IsChunks(m: seq<byte>, now: seq<byte>, dst: nat, src: nat, len: nat)
    requires CopiedTo(m, now, dst, src, len)
    ensures now == Chunks(m, dst, src, len)
    ensures !Overruns(dst, src, len) ==> now == Move(m, dst, src, len)
  {
    ChunksEcho(m, dst, src, len);
    SameCopy(m, now, Chunks(m, dst, src, len), dst, src, len);
    if !Overruns(dst, src, len) {
      ChunksMove(m, dst, src, len);
    }
  }

  lemma SameCopy(m: seq<byte>, x: seq<byte>, y: seq<byte>, dst: nat, src: nat, len: nat)
    requires CopiedTo(m, x, dst, src, len) && CopiedTo(m, y, dst, src, len)
    ensures x == y
  {
    forall a | 0 <= a < |x|
      ensures x[a] == y[a]
    {
      assert x[a] == if dst <= a < dst + len then Echo(m, src, dst - src, a - dst) else m[a];
      assert y[a] == if dst <= a < dst + len then Echo(m, src, dst - src, a - dst) else m[a];
    }
  }
}
