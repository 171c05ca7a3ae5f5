/** The circular buffer of common/circbuf.c. */
module Circbuf {
  import opened Ring

  class Buffer {
    var data: array<char>
    var top: nat
    var tail: nat
    var size: nat

    ghost predicate Valid()
      reads this, data
    {
      0 < data.Length && top < data.Length && size <= data.Length && tail == Tail(top, size, data.Length)
    }

    ghost function Contents(): string
      reads this, data
      requires Valid()
    {
      Window(data[..], top, size)
    }

    /** buf_init. */
    constructor (totalsize: nat)
      requires totalsize > 0
      ensures Valid() && fresh(data) && data.Length == totalsize && Contents() == ""
    {
      data := new char[totalsize];
      top, tail, size := 0, 0, 0;
    }

    /** One turn of the loop of buf_push. */
    method PushOne(c: char)
      requires Valid()
      modifies this`top, this`tail, this`size, data
      ensures Valid() && Contents() == Last(old(Contents()) + [c], data.Length)
    {
      ghost var d := data[..];
      LastSnoc(Contents(), c, data.Length);
      if size < data.Length {
        Grow(d, top, size, c);
        TailStep(top, size, data.Length);
      } else {
        Roll(d, top, c);
        WrapTail(top, data.Length);
      }
      data[tail] := c;
      assert data[..] == d[tail := c];
      tail := Step(tail, data.Length);
      if size < data.Length {
        size := size + 1;
      } else {
        top := Step(top, data.Length);
      }
    }

    /** buf_push: the newest bytes stay, the oldest give way. */
    method Push(src: string) returns (n: nat)
      requires Valid()
      modifies this`top, this`tail, this`size, data
      ensures Valid() && n == |src|
      ensures Contents() == Last(old(Contents()) + src, data.Length)
    {
      n := |src|;
      ghost var was, held, room := Contents(), Contents(), data.Length;
      assert was + src[..0] == was;
      for i := 0 to n
        invariant Valid() && Contents() == held
        invariant held == Last(was + src[..i], room)
      {
        PushOne(src[i]);
        LastNext(was, src, i, room);
        held := Last(held + [src[i]], room);
      }
      assert src[..n] == src;
    }

    /** One more byte of the contents at its place. */
    static method PutByte(dest: array<char>, i: nat, c: char, ghost was: string, ghost before: string)
      requires i < |was| && i < |before| && dest[..] == was[..i] + before[i..] && c == was[i]
      modifies dest
      ensures dest[..] == was[..i + 1] + before[i + 1..]
    {
      NextByte(was, before, i);
      ghost var now := dest[..];
      dest[i] := c;
      assert dest[..] == now[i := c];
    }

    /** The copying loop of buf_pop; p is where it leaves the window. */
    method CopyOut(dest: array<char>, n: nat) returns (p: nat)
      requires Valid() && dest != data && n <= dest.Length && n <= size
      modifies dest
      ensures p < data.Length && tail == Tail(p, size - n, data.Length)
      ensures Window(data[..], p, size - n) == Contents()[n..]
      ensures dest[..n] == Contents()[..n] && dest[n..] == old(dest[n..])
    {
      ghost var was, d, before := Contents(), data[..], dest[..];
      p := top;
      for i := 0 to n
        invariant data[..] == d && p < data.Length && tail == Tail(p, size - i, data.Length)
        invariant Window(d, p, size - i) == was[i..]
        invariant dest[..] == was[..i] + before[i..]
      {
        Drop(d, p, size - i);
        TailStep(p, size - i - 1, data.Length);
        PutByte(dest, i, data[p], was, before);
        p := Step(p, data.Length);
      }
    }

    /** buf_pop: the oldest bytes come out in order. */
    method Pop(dest: array<char>, len: nat) returns (n: nat)
      requires Valid() && dest != data && len <= dest.Length
      modifies this`top, this`size, dest
      ensures Valid() && n == if len < |old(Contents())| then len else |old(Contents())|
      ensures dest[..n] == old(Contents())[..n] && dest[n..] == old(dest[n..])
      ensures Contents() == old(Contents())[n..]
    {
      n := if len > size then size else len;
      var p := CopyOut(dest, n);
      top, size := p, size - n;
    }
  }

  lemma LastNext(was: string, src: string, i: nat, n: nat)
    requires i < |src|
    ensures Last(Last(was + src[..i], n) + [src[i]], n) == Last(was + src[..i + 1], n)
  {
    LastLast(was + src[..i], [src[i]], n);
    assert was + src[..i] + [src[i]] == was + src[..i + 1];
  }

  lemma NextByte(was: string, before: string, i: nat)
    requires i < |was| && i < |before|
    ensures (was[..i] + before[i..])[i := was[i]] == was[..i + 1] + before[i + 1..]
  {}

  lemma WrapTail(top: nat, n: nat)
    requires top < n
    ensures Tail(Step(top, n), n, n) == Step(Tail(top, n, n), n)
  {}

  // ---------------------------------------------------------------- runs

  datatype Op = Push(s: string) | Pop(len: nat)

  /** The contents; everything popped and everything pushed; whether a push lost bytes; the
      index in the stream of every byte popped, and the index behind the last of them. */
  datatype History = History(contents: string, popped: string, pushed: string, lost: bool, taken: seq<int>, front: int)

  const NEW := History("", "", "", false, [], 0)

  function Range(base: int, k: nat): (r: seq<int>)
    ensures |r| == k && forall i :: 0 <= i < k ==> r[i] == base + i
  {
    seq(k, i => base + i)
  }

  /** One operation on the history; ExecuteOne shows that the buffer methods do this. The
      bytes held are counted from the end of the stream. */
  function Apply(h: History, op: Op, n: nat): History {
    match op
    case Push(s) => h.(contents := Last(h.contents + s, n), pushed := h.pushed + s, lost := h.lost || |h.contents + s| > n)
    case Pop(len) => Take(h, if len < |h.contents| then len else |h.contents|)
  }

  function Take(h: History, k: nat): History
    requires k <= |h.contents|
  {
    if k == 0 then h
    else
      var base := |h.pushed| - |h.contents|;
      History(h.contents[k..], h.popped + h.contents[..k], h.pushed, h.lost, h.taken + Range(base, k), base + k)
  }

  function Run(ops: seq<Op>, n: nat): History {
    if ops == [] then NEW else Apply(Run(ops[..|ops| - 1], n), ops[|ops| - 1], n)
  }

  /** The popped bytes are bytes of the stream, each from behind the one before. */
  predicate TakenInOrder(popped: string, pushed: string, taken: seq<int>, front: int) {
    && |taken| == |popped| && 0 <= front <= |pushed|
    && (forall i, j :: 0 <= i < j < |taken| ==> taken[i] < taken[j])
    && (forall i :: 0 <= i < |taken| ==> 0 <= taken[i] < front && popped[i] == pushed[taken[i]])
    && front == if taken == [] then 0 else taken[|taken| - 1] + 1
  }

  /** The buffer holds the last n bytes of the stream behind what was popped. */
  predicate HoldsUnpopped(h: History, n: nat) {
    0 <= h.front <= |h.pushed| && h.contents == Last(h.pushed[h.front..], n)
  }

  predicate NothingLost(h: History) { h.popped + h.contents == h.pushed }

  /** Over every run the buffer holds the last n bytes of the stream that were not popped; the
      bytes popped are bytes of the stream in their order; and none is missing if and only if no
      push overflowed. */
  lemma {:induction false} RunFifo(ops: seq<Op>, n: nat)
    ensures HoldsUnpopped(Run(ops, n), n)
    ensures var h := Run(ops, n); TakenInOrder(h.popped, h.pushed, h.taken, h.front)
    ensures NothingLost(Run(ops, n)) <==> !Run(ops, n).lost
  {
    RunHolds(ops, n);
    RunTakes(ops, n);
    RunKeeps(ops, n);
    RunLoses(ops, n);
  }

  /** Bytes that were lost are missing. */
  lemma {:induction false} RunLoses(ops: seq<Op>, n: nat)
    ensures var h := Run(ops, n);
      |h.popped| + |h.contents| <= |h.pushed| && (h.lost <==> |h.popped| + |h.contents| < |h.pushed|)
  {
    if ops != [] {
      RunLoses(ops[..|ops| - 1], n);
    }
  }

  lemma {:induction false} RunHolds(ops: seq<Op>, n: nat)
    ensures HoldsUnpopped(Run(ops, n), n)
  {
    if ops != [] {
      var h := Run(ops[..|ops| - 1], n);
      RunHolds(ops[..|ops| - 1], n);
      match ops[|ops| - 1]
      case Push(s) =>
        LastLast(h.pushed[h.front..], s, n);
        assert (h.pushed + s)[h.front..] == h.pushed[h.front..] + s;
      case Pop(len) =>
        TakeHolds(h, n, if len < |h.contents| then len else |h.contents|);
    }
  }

  lemma {:induction false} TakeHolds(h: History, n: nat, k: nat)
    requires HoldsUnpopped(h, n) && k <= |h.contents|
    ensures HoldsUnpopped(Take(h, k), n)
  {
    HeldAt(h.contents, h.pushed, n, h.front, k);
  }

  /** What the buffer holds is the end of the stream, at or behind the front. */
  lemma HeldAt(contents: string, pushed: string, n: nat, front: int, k: nat)
    requires 0 <= front <= |pushed| && contents == Last(pushed[front..], n) && k <= |contents|
    ensures var base := |pushed| - |contents|;
      front <= base && contents[..k] == pushed[base..base + k] && contents[k..] == Last(pushed[base + k..], n)
  {
    var base := |pushed| - |contents|;
    assert contents == pushed[base..];
    assert pushed[base..][..k] == pushed[base..base + k];
    assert pushed[base..][k..] == pushed[base + k..];
  }

  lemma NoneTaken(popped: string, contents: string)
    ensures popped + contents[..0] == popped && contents[0..] == contents
  {}

  lemma {:induction false} RunTakes(ops: seq<Op>, n: nat)
    ensures var h := Run(ops, n); TakenInOrder(h.popped, h.pushed, h.taken, h.front)
  {
    if ops != [] {
      var h := Run(ops[..|ops| - 1], n);
      RunTakes(ops[..|ops| - 1], n);
      RunHolds(ops[..|ops| - 1], n);
      match ops[|ops| - 1]
      case Push(s) => PushTaken(h.popped, h.pushed, s, h.taken, h.front);
      case Pop(len) => TakeTaken(h, n, if len < |h.contents| then len else |h.contents|);
    }
  }

  lemma PushTaken(popped: string, pushed: string, s: string, taken: seq<int>, front: int)
    requires TakenInOrder(popped, pushed, taken, front)
    ensures TakenInOrder(popped, pushed + s, taken, front)
  {}

  lemma {:induction false} TakeTaken(h: History, n: nat, k: nat)
    requires HoldsUnpopped(h, n) && k <= |h.contents| && TakenInOrder(h.popped, h.pushed, h.taken, h.front)
    ensures var g := Take(h, k); TakenInOrder(g.popped, g.pushed, g.taken, g.front)
  {
    if k > 0 {
      HeldAt(h.contents, h.pushed, n, h.front, k);
      var g := Take(h, k);
      AppendTaken(h.popped, h.pushed, h.taken, h.front, |h.pushed| - |h.contents|, k, g.popped, g.taken);
    }
  }

  lemma AppendTaken(popped: string, pushed: string, taken: seq<int>, front: int, base: int, k: nat, more: string, later: seq<int>)
    requires TakenInOrder(popped, pushed, taken, front) && front <= base && 0 < k && base + k <= |pushed|
    requires more == popped + pushed[base..base + k] && later == taken + Range(base, k)
    ensures TakenInOrder(more, pushed, later, base + k)
  {}

  lemma {:induction false} RunKeeps(ops: seq<Op>, n: nat)
    ensures !Run(ops, n).lost ==> NothingLost(Run(ops, n))
  {
    if ops != [] {
      var h := Run(ops[..|ops| - 1], n);
      RunKeeps(ops[..|ops| - 1], n);
      match ops[|ops| - 1]
      case Push(s) => Rejoin(h.popped, h.contents, s);
      case Pop(len) => Resplit(h.popped, h.contents, if len < |h.contents| then len else |h.contents|);
    }
  }

  lemma Rejoin(p: string, c: string, s: string)
    ensures (p + c) + s == p + (c + s)
  {}

  lemma Resplit(p: string, c: string, k: nat)
    requires k <= |c|
    ensures (p + c[..k]) + c[k..] == p + c
  {}

  lemma {:induction false} NeverPopped(ops: seq<Op>, n: nat)
    requires forall i :: 0 <= i < |ops| ==> ops[i].Push?
    ensures Run(ops, n).front == 0
  {
    if ops != [] {
      NeverPopped(ops[..|ops| - 1], n);
    }
  }

  /** A run that never pops holds the last n bytes of the whole stream. */
  lemma {:induction false} RunLast(ops: seq<Op>, n: nat)
    requires forall i :: 0 <= i < |ops| ==> ops[i].Push?
    ensures Run(ops, n).contents == Last(Run(ops, n).pushed, n)
  {
    RunHolds(ops, n);
    NeverPopped(ops, n);
    assert Run(ops, n).pushed[0..] == Run(ops, n).pushed;
  }

  /** Any sequence of operations on a new buffer: its contents and the bytes it hands out are
      those of the run. */
  method Execute(b: Buffer, ops: seq<Op>) returns (popped: string)
    requires b.Valid() && b.Contents() == ""
    modifies b, b.data
    ensures b.Valid() && b.data == old(b.data)
    ensures b.Contents() == Run(ops, b.data.Length).contents && popped == Run(ops, b.data.Length).popped
  {
    popped := "";
    ghost var data, n := b.data, b.data.Length;
    for i := 0 to |ops|
      invariant b.data == data && b.Valid()
      invariant b.Contents() == Run(ops[..i], n).contents && popped == Run(ops[..i], n).popped
    {
      RunNext(ops, i, n);
      popped := ExecuteOne(b, ops[i], popped, Run(ops[..i], n));
    }
    assert ops[..|ops|] == ops;
  }

  method ExecuteOne(b: Buffer, op: Op, before: string, ghost h: History) returns (popped: string)
    requires b.Valid() && b.Contents() == h.contents && before == h.popped
    modifies b, b.data
    ensures b.data == old(b.data) && b.Valid()
    ensures var g := Apply(h, op, b.data.Length); b.Contents() == g.contents && popped == g.popped
  {
    match op {
      case Push(s) =>
        var n := b.Push(s);
        popped := before;
      case Pop(len) =>
        var dest := new char[len];
        var n := b.Pop(dest, len);
        NoneTaken(h.popped, h.contents);
        popped := before + dest[..n];
    }
  }

  lemma {:induction false} RunNext(ops: seq<Op>, i: nat, n: nat)
    requires i < |ops|
    ensures Run(ops[..i + 1], n) == Apply(Run(ops[..i], n), ops[i], n)
  {
    assert ops[..i + 1][..i] == ops[..i];
  }
}
