/** Windows of a ring: size cells from an index on, going round at the end. */
module Ring {

  function Window(d: seq<char>, top: nat, size: nat): (w: string)
    requires top < |d| && size <= |d|
    ensures |w| == size
  {
    if top + size <= |d| then d[top..top + size] else d[top..] + d[..top + size - |d|]
  }

  /** The index behind i. */
  function Step(i: nat, n: nat): (j: nat)
    requires i < n
    ensures j < n
  {
    if i + 1 == n then 0 else i + 1
  }

  /** The cell behind the window. */
  function Tail(top: nat, size: nat, n: nat): (j: nat)
    requires top < n && size <= n
    ensures j < n
  {
    if top + size >= n then top + size - n else top + size
  }

  /** The last n characters. */
  function Last(s: string, n: nat): (r: string)
    ensures |r| == if |s| <= n then |s| else n
  {
    if |s| <= n then s else s[|s| - n..]
  }

  lemma WindowAt(d: seq<char>, top: nat, size: nat, i: nat)
    requires top < |d| && size <= |d| && i < size
    ensures Window(d, top, size)[i] == d[Tail(top, i, |d|)]
  {}

  lemma TailStep(top: nat, size: nat, n: nat)
    requires top < n && size < n
    ensures Tail(top, size + 1, n) == Step(Tail(top, size, n), n)
    ensures Tail(Step(top, n), size, n) == Tail(top, size + 1, n)
  {}

  /** A character stored behind a window that is not full becomes its last one. */
  lemma {:induction false} Grow(d: seq<char>, top: nat, size: nat, c: char)
    requires top < |d| && size < |d|
    ensures Window(d[Tail(top, size, |d|) := c], top, size + 1) == Window(d, top, size) + [c]
  {
    var e := d[Tail(top, size, |d|) := c];
    forall i | 0 <= i < size + 1 ensures Window(e, top, size + 1)[i] == (Window(d, top, size) + [c])[i] {
      WindowAt(e, top, size + 1, i);
      if i < size { WindowAt(d, top, size, i); }
    }
  }

  /** A character stored behind a full window replaces the first one. */
  lemma {:induction false} Roll(d: seq<char>, top: nat, c: char)
    requires top < |d|
    ensures Window(d[Tail(top, |d|, |d|) := c], Step(top, |d|), |d|) == Window(d, top, |d|)[1..] + [c]
  {
    var n := |d|;
    var e := d[top := c];
    forall i | 0 <= i < n ensures Window(e, Step(top, n), n)[i] == (Window(d, top, n)[1..] + [c])[i] {
      WindowAt(e, Step(top, n), n, i);
      TailStep(top, i, n);
      if i < n - 1 { WindowAt(d, top, n, i + 1); }
    }
  }

  /** A character taken from the front leaves the rest of the window. */
  lemma {:induction false} Drop(d: seq<char>, top: nat, size: nat)
    requires top < |d| && 0 < size <= |d|
    ensures Window(d, Step(top, |d|), size - 1) == Window(d, top, size)[1..]
    ensures Window(d, top, size)[0] == d[top]
  {
    forall i | 0 <= i < size - 1 ensures Window(d, Step(top, |d|), size - 1)[i] == Window(d, top, size)[1..][i] {
      WindowAt(d, Step(top, |d|), size - 1, i);
      WindowAt(d, top, size, i + 1);
      TailStep(top, i, |d|);
    }
  }

  lemma LastSnoc(s: string, c: char, n: nat)
    requires n > 0
    ensures Last(s + [c], n) == if |Last(s, n)| < n then Last(s, n) + [c] else Last(s, n)[1..] + [c]
  {}

  /** Dropping old characters early makes no difference. */
  lemma LastLast(s: string, t: string, n: nat)
    ensures Last(Last(s, n) + t, n) == Last(s + t, n)
  {}
}
