/** The order in which part_sort_add of common/cmd_jffs2.c keeps the partitions of a device:
    by offset, a new partition before those at the same offset. */
module MtdOrder {
  import opened Wrappers
  import opened MtdParts

  predicate Sorted(ps: seq<Part>) { forall i, j :: 0 <= i < j < |ps| ==> ps[i].offset <= ps[j].offset }

  /** A list as the code builds it: sorted, with at most one partition at offset zero. */
  predicate Ordered(ps: seq<Part>) { Sorted(ps) && (|ps| > 1 ==> ps[1].offset > 0) }

  predicate DistinctOffsets(ps: seq<Part>) { forall i, j :: 0 <= i < j < |ps| ==> ps[i].offset != ps[j].offset }

  /** The first index with an offset of at least o. */
  function FirstFrom(ps: seq<Part>, o: nat): (k: nat)
    ensures k <= |ps|
    ensures forall i :: 0 <= i < k ==> ps[i].offset < o
    ensures k < |ps| ==> o <= ps[k].offset
  {
    if ps == [] || o <= ps[0].offset then 0 else 1 + FirstFrom(ps[1..], o)
  }

  function Insert<T>(s: seq<T>, k: nat, x: T): seq<T>
    requires k <= |s|
  {
    s[..k] + [x] + s[k..]
  }

  function Cut<T>(s: seq<T>, k: nat): seq<T>
    requires k < |s|
  {
    s[..k] + s[k + 1..]
  }

  // ---------------------------------------------------------------- sorted insertion

  predicate SecondAtZero(ps: seq<Part>, p: Part) { ps != [] && p.offset == 0 && ps[0].offset == 0 }

  /** part_sort_add inserts before the first partition that does not lie below, unless that
      makes a second partition at zero. */
  lemma {:induction false} SortAddSlot(ps: seq<Part>, p: Part)
    requires Sorted(ps)
    ensures SortAdd(ps, p) == if SecondAtZero(ps, p) then None else Some(Insert(ps, FirstFrom(ps, p.offset), p))
  {
    if ps == [] {
      assert Insert(ps, 0, p) == [p];
    } else if p.offset <= ps[0].offset {
      assert Insert(ps, 0, p) == [p] + ps;
    } else {
      SortAddSlot(ps[1..], p);
      var k := FirstFrom(ps[1..], p.offset);
      assert Insert(ps, k + 1, p) == [ps[0]] + Insert(ps[1..], k, p);
    }
  }

  lemma InsertAt<T>(s: seq<T>, k: nat, x: T, i: nat)
    requires k <= |s| && i <= |s|
    ensures Insert(s, k, x)[i] == if i < k then s[i] else if i == k then x else s[i - 1]
  {}

  lemma InsertOrdered(ps: seq<Part>, p: Part)
    requires Ordered(ps) && !SecondAtZero(ps, p)
    ensures Ordered(Insert(ps, FirstFrom(ps, p.offset), p))
  {
    var k := FirstFrom(ps, p.offset);
    var qs := Insert(ps, k, p);
    forall i, j | 0 <= i < j < |qs|
      ensures qs[i].offset <= qs[j].offset
    {
      InsertAt(ps, k, p, i);
      InsertAt(ps, k, p, j);
      if i == k < |ps| {
        assert p.offset <= ps[k].offset <= ps[j - 1].offset;
      }
    }
    if |qs| > 1 {
      InsertAt(ps, k, p, 1);
    }
  }

  lemma CutOrdered(ps: seq<Part>, k: nat)
    requires Ordered(ps) && k < |ps|
    ensures Ordered(Cut(ps, k))
  {
    var qs := Cut(ps, k);
    assert forall i :: 0 <= i < |qs| ==> qs[i] == if i < k then ps[i] else ps[i + 1];
  }

  // ---------------------------------------------------------------- partitions at one offset

  /** The index that i gets when the partitions at its offset are put in reverse order. */
  function Mirror(ps: seq<Part>, i: nat): (m: nat)
    requires Sorted(ps) && i < |ps|
    ensures m < |ps| && ps[m].offset == ps[i].offset
  {
    var o := ps[i].offset;
    FirstFrom(ps, o) + FirstFrom(ps, o + 1) - 1 - i
  }

  /** The list with the partitions at each offset in reverse order. */
  function Flip(ps: seq<Part>): (r: seq<Part>)
    requires Sorted(ps)
    ensures |r| == |ps| && forall i {:trigger r[i]} :: 0 <= i < |ps| ==> r[i].offset == ps[i].offset
  {
    seq(|ps|, i requires 0 <= i < |ps| => ps[Mirror(ps, i)])
  }

  lemma {:induction false} FirstFromSame(ps: seq<Part>, qs: seq<Part>, o: nat)
    requires |ps| == |qs| && forall i :: 0 <= i < |ps| ==> ps[i].offset == qs[i].offset
    ensures FirstFrom(ps, o) == FirstFrom(qs, o)
  {
    var k, l := FirstFrom(ps, o), FirstFrom(qs, o);
  }

  lemma MirrorSame(ps: seq<Part>, qs: seq<Part>, i: nat)
    requires Sorted(ps) && Sorted(qs) && i < |ps|
    requires |ps| == |qs| && forall i :: 0 <= i < |ps| ==> ps[i].offset == qs[i].offset
    ensures Mirror(ps, i) == Mirror(qs, i)
  {
    FirstFromSame(ps, qs, ps[i].offset);
    FirstFromSame(ps, qs, ps[i].offset + 1);
  }

  lemma FlipAt(ps: seq<Part>, i: nat)
    requires Sorted(ps) && i < |ps|
    ensures Flip(ps)[i] == ps[Mirror(ps, i)]
  {}

  lemma MirrorTwice(ps: seq<Part>, i: nat)
    requires Sorted(ps) && i < |ps|
    ensures Mirror(ps, Mirror(ps, i)) == i
  {}

  lemma FlipSorted(ps: seq<Part>)
    requires Sorted(ps)
    ensures Sorted(Flip(ps))
  {
    var qs := Flip(ps);
    assert forall i, j :: 0 <= i < j < |qs| ==> qs[i].offset == ps[i].offset <= ps[j].offset == qs[j].offset;
  }

  lemma FlipTwiceAt(ps: seq<Part>, qs: seq<Part>, i: nat)
    requires Sorted(ps) && Sorted(qs) && qs == Flip(ps) && i < |ps|
    ensures Flip(qs)[i] == ps[i]
  {
    FlipAt(qs, i);
    MirrorSame(ps, qs, i);
    FlipAt(ps, Mirror(ps, i));
    MirrorTwice(ps, i);
  }

  /** Reversing twice restores the list. */
  lemma FlipTwice(ps: seq<Part>)
    requires Sorted(ps)
    ensures Sorted(Flip(ps)) && Flip(Flip(ps)) == ps
  {
    FlipSorted(ps);
    forall i | 0 <= i < |ps|
      ensures Flip(Flip(ps))[i] == ps[i]
    {
      FlipTwiceAt(ps, Flip(ps), i);
    }
  }

  /** The first index is found among the first partitions when the last one does not lie below. */
  lemma FirstFromSnoc(ps: seq<Part>, p: Part, o: nat)
    ensures FirstFrom(ps + [p], o) == if FirstFrom(ps, o) == |ps| && p.offset < o then |ps| + 1 else FirstFrom(ps, o)
  {
    var qs := ps + [p];
    var k, l := FirstFrom(ps, o), FirstFrom(qs, o);
    assert forall i :: 0 <= i < |ps| ==> qs[i] == ps[i];
  }

  /** A last partition leaves the partitions at smaller offsets where they are. */
  lemma {:induction false} MirrorBelow(ps: seq<Part>, p: Part, qs: seq<Part>, i: nat)
    requires Sorted(ps) && Sorted(qs) && qs == ps + [p] && i < FirstFrom(ps, p.offset)
    ensures Mirror(qs, i) == Mirror(ps, i)
  {
    SnocSorted(ps, p);
    FirstFromSnoc(ps, p, ps[i].offset);
    FirstFromSnoc(ps, p, ps[i].offset + 1);
  }

  lemma {:induction false} MirrorTop(ps: seq<Part>, p: Part, qs: seq<Part>, i: nat)
    requires Sorted(ps) && Sorted(qs) && qs == ps + [p] && FirstFrom(ps, p.offset) <= i <= |ps|
    ensures Mirror(qs, i) == FirstFrom(ps, p.offset) + |ps| - i
  {
    SnocSorted(ps, p);
    TopGroup(ps, p);
    FirstFromSnoc(ps, p, p.offset);
    FirstFromSnoc(ps, p, p.offset + 1);
    assert qs[i].offset == p.offset;
  }

  lemma {:induction false} MirrorOld(ps: seq<Part>, p: Part, i: nat)
    requires Sorted(ps) && Sorted(ps + [p]) && FirstFrom(ps, p.offset) < i <= |ps|
    ensures Mirror(ps, i - 1) == FirstFrom(ps, p.offset) + |ps| - i
  {
    SnocSorted(ps, p);
    TopGroup(ps, p);
  }

  lemma SnocSorted(ps: seq<Part>, p: Part)
    requires Sorted(ps + [p])
    ensures forall j :: 0 <= j < |ps| ==> ps[j].offset <= p.offset
  {
    var qs := ps + [p];
    assert forall j :: 0 <= j < |ps| ==> qs[j] == ps[j] && qs[j].offset <= qs[|ps|].offset;
  }

  /** The partitions from that index on lie at the offset of the last one. */
  lemma TopGroup(ps: seq<Part>, p: Part)
    requires Sorted(ps) && forall j :: 0 <= j < |ps| ==> ps[j].offset <= p.offset
    ensures forall j :: FirstFrom(ps, p.offset) <= j < |ps| ==> ps[j].offset == p.offset
    ensures FirstFrom(ps, p.offset + 1) == |ps|
  {}

  lemma {:induction false} FlipBelow(ps: seq<Part>, p: Part, qs: seq<Part>, i: nat)
    requires Sorted(ps) && Sorted(qs) && qs == ps + [p] && i < FirstFrom(ps, p.offset)
    ensures Flip(qs)[i] == Flip(ps)[i]
  {
    MirrorBelow(ps, p, qs, i);
    FlipAt(qs, i);
    FlipAt(ps, i);
  }

  lemma {:induction false} MirrorAbove(ps: seq<Part>, p: Part, qs: seq<Part>, i: nat)
    requires Sorted(ps) && Sorted(qs) && qs == ps + [p] && FirstFrom(ps, p.offset) < i <= |ps|
    ensures Mirror(qs, i) == Mirror(ps, i - 1)
  {
    MirrorTop(ps, p, qs, i);
    MirrorOld(ps, p, i);
  }

  lemma {:induction false} FlipAbove(ps: seq<Part>, p: Part, qs: seq<Part>, i: nat)
    requires Sorted(ps) && Sorted(qs) && qs == ps + [p] && FirstFrom(ps, p.offset) < i <= |ps|
    ensures Flip(qs)[i] == Flip(ps)[i - 1]
  {
    MirrorAbove(ps, p, qs, i);
    FlipAt(qs, i);
    FlipAt(ps, i - 1);
  }

  lemma {:induction false} FlipNew(ps: seq<Part>, p: Part, qs: seq<Part>, i: nat)
    requires Sorted(ps) && Sorted(qs) && qs == ps + [p] && FirstFrom(ps, p.offset) == i
    ensures Flip(qs)[i] == p
  {
    MirrorTop(ps, p, qs, i);
    FlipAt(qs, i);
  }

  lemma {:induction false} FlipSnoc(ps: seq<Part>, p: Part)
    requires Sorted(ps + [p]) && Sorted(ps)
    ensures Flip(ps + [p]) == Insert(Flip(ps), FirstFrom(ps, p.offset), p)
  {
    var k := FirstFrom(ps, p.offset);
    var f, g := Flip(ps), Flip(ps + [p]);
    forall i | 0 <= i <= |ps|
      ensures g[i] == Insert(f, k, p)[i]
    {
      if i < k {
        FlipBelow(ps, p, ps + [p], i);
      } else if i == k {
        FlipNew(ps, p, ps + [p], i);
      } else {
        FlipAbove(ps, p, ps + [p], i);
      }
      InsertAt(f, k, p, i);
    }
  }

  lemma {:induction false} SortAddAllSnoc(ps: seq<Part>, more: seq<Part>, p: Part)
    ensures SortAddAll(ps, more + [p]) == match SortAddAll(ps, more) case None => None case Some(qs) => SortAdd(qs, p)
    decreases |more|
  {
    if more == [] {
      assert (more + [p])[1..] == [];
    } else {
      assert (more + [p])[0] == more[0] && (more + [p])[1..] == more[1..] + [p];
      if SortAdd(ps, more[0]).Some? {
        SortAddAllSnoc(SortAdd(ps, more[0]).value, more[1..], p);
      }
    }
  }

  /** Adding the partitions of a list one after the other, in its order, reverses those at one
      offset. */
  lemma {:induction false} SortAddAllFlips(ps: seq<Part>)
    requires Ordered(ps)
    ensures SortAddAll([], ps) == Some(Flip(ps))
    decreases |ps|
  {
    if ps == [] {
      assert Flip(ps) == [];
    } else {
      var init, p := ps[..|ps| - 1], ps[|ps| - 1];
      assert ps == init + [p];
      SortAddAllFlips(init);
      SortAddAllSnoc([], init, p);
      FlipSnoc(init, p);
      FlipTwice(init);
      SortAddSlot(Flip(init), p);
      FirstFromSame(init, Flip(init), p.offset);
    }
  }
}
