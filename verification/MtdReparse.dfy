/** Every table parse_mtdparts builds is one that generate_mtdparts writes faithfully: the
    hypotheses of the round trip are what the parser itself establishes. */
module MtdReparse {
  import opened Wrappers
  import opened Memsize
  import opened MtdParts
  import opened MtdOrder
  import opened MtdRoundTrip

  lemma {:induction false} ScanBound(s: string, base: nat, acc: nat)
    requires acc < W
    ensures Scan(s, base, acc).0 < W
    decreases |s|
  {
    if s != "" && IsXDigit(s[0]) && DigitValue(s[0]) < base {
      ScanBound(s[1..], base, (acc * base + DigitValue(s[0])) % W);
    }
  }

  lemma {:induction false} MemsizeBound(s: string)
    ensures MemsizeParse(s).0 < W
  {
    if s != "" && s[0] == '0' {
      if |s| > 2 && s[1] == 'x' && IsXDigit(s[2]) {
        ScanBound(s[2..], 16, 0);
      } else {
        ScanBound(s[1..], 8, 0);
      }
    } else {
      ScanBound(s, 10, 0);
    }
  }

  lemma {:induction false} PartParseLegal(s: string)
    requires PartParse(s).Some?
    ensures var p := PartParse(s).value.0; LegalName(p) && p.size < W && p.offset < W
  {
    MemsizeBound(s);
    var (size, s1) := ParseSize(s).value;
    if StartsWith(s1, '@') {
      MemsizeBound(s1[1..]);
    }
  }

  lemma PlacedGood(chips: Chips, id: Id, p: Part)
    requires Backed(chips, id) && p.offset < W && p.size < W && LegalName(p) && Validate(chips, id, p).Some?
    ensures GoodPart(chips, id, Validate(chips, id, p).value)
  {
    ValidateRange(chips, id, p);
  }

  lemma ConsGood(chips: Chips, id: Id, p: Part, ps: seq<Part>)
    requires Backed(chips, id) && GoodPart(chips, id, p) && GoodParts(chips, id, ps)
    ensures GoodParts(chips, id, [p] + ps)
  {
    assert forall i :: 0 < i < |[p] + ps| ==> ([p] + ps)[i] == ps[i - 1];
  }

  lemma {:induction false} ParsePartsGood(chips: Chips, id: Id, s: string, offset: nat)
    requires Backed(chips, id) && offset < W && ParseParts(chips, id, s, offset).Some?
    ensures GoodParts(chips, id, ParseParts(chips, id, s, offset).value.0)
    decreases |s|
  {
    if s != "" && s[0] != ';' {
      PartParseLegal(s);
      var (p, t) := PartParse(s).value;
      var placed := if p.offset == OFFSET_NOT_SPECIFIED then p.(offset := offset) else p;
      PlacedGood(chips, id, placed);
      var q := Validate(chips, id, placed).value;
      ParsePartsGood(chips, id, t, Add32(q.offset, q.size));
      ConsGood(chips, id, q, ParseParts(chips, id, t, Add32(q.offset, q.size)).value.0);
    }
  }

  lemma {:induction false} SortAddSet(ps: seq<Part>, p: Part)
    requires SortAdd(ps, p).Some?
    ensures multiset(SortAdd(ps, p).value) == multiset(ps) + multiset{p}
  {
    if ps != [] && p.offset > ps[0].offset {
      SortAddSet(ps[1..], p);
      assert ps == [ps[0]] + ps[1..];
    }
  }

  /** Insertion keeps the list in order, with at most one partition at offset zero, and adds
      exactly the new partition. */
  lemma {:induction false} SortAddSortedSet(ps: seq<Part>, p: Part)
    requires Ordered(ps) && SortAdd(ps, p).Some?
    ensures var qs := SortAdd(ps, p).value;
      Ordered(qs) && multiset(qs) == multiset(ps) + multiset{p}
  {
    SortAddSlot(ps, p);
    InsertOrdered(ps, p);
    SortAddSet(ps, p);
  }

  lemma {:induction false} SortAddAllSortedSet(ps: seq<Part>, more: seq<Part>)
    requires Ordered(ps) && SortAddAll(ps, more).Some?
    ensures var qs := SortAddAll(ps, more).value;
      Ordered(qs) && multiset(qs) == multiset(ps) + multiset(more)
    decreases |more|
  {
    if more != [] {
      SortAddSortedSet(ps, more[0]);
      SortAddAllSortedSet(SortAdd(ps, more[0]).value, more[1..]);
      assert more == [more[0]] + more[1..];
    }
  }

  lemma {:induction false} FindIdName(ids: seq<Id>, mtdId: string)
    requires FindId(ids, mtdId).Some?
    ensures FindId(ids, mtdId).value.mtdId == mtdId
  {
    if ids[0].mtdId != mtdId {
      FindIdName(ids[1..], mtdId);
    }
  }

  lemma {:induction false} DeviceParseGood(chips: Chips, ids: seq<Id>, devs: seq<Device>, s: string)
    requires AllBacked(chips, ids) && DeviceParse(chips, ids, devs, s).Some?
    ensures GoodDevice(chips, ids, DeviceParse(chips, ids, devs, s).value.0)
  {
    var k := IndexOf(s, ':');
    FindIdName(ids, s[..k]);
    FindIdBacked(chips, ids, s[..k]);
    var id := FindId(ids, s[..k]).value;
    var start := StartOffset(devs, id);
    ParsePartsGood(chips, id, s[k + 1..], start);
    var ps := ParseParts(chips, id, s[k + 1..], start).value.0;
    SortAddAllSortedSet([], ps);
    var qs := SortAddAll([], ps).value;
    assert multiset(qs) == multiset(ps);
    forall i | 0 <= i < |qs|
      ensures GoodPart(chips, id, qs[i])
    {
      assert qs[i] in multiset(qs) && qs[i] in ps;
    }
    assert |qs| == |multiset(qs)| == |ps|;
  }

  lemma {:induction false} NotFoundAbsent(devs: seq<Device>, d: Device)
    requires FindDevice(devs, d.id.nor, d.id.num) == None
    ensures Absent(devs, d)
  {
    if devs != [] {
      NotFoundAbsent(devs[1..], d);
      assert forall i :: 0 < i < |devs| ==> devs[i] == devs[1..][i - 1];
    }
  }

  lemma {:induction false} ParseDevicesGood(chips: Chips, ids: seq<Id>, devs: seq<Device>, s: string)
    requires AllBacked(chips, ids) && ParseDevices(chips, ids, devs, s).Some?
    requires GoodDevices(chips, ids, devs)
    ensures devs <= ParseDevices(chips, ids, devs, s).value && GoodDevices(chips, ids, ParseDevices(chips, ids, devs, s).value)
    decreases |s|
  {
    if s != "" {
      var (d, t) := DeviceParse(chips, ids, devs, s).value;
      DeviceParseGood(chips, ids, devs, s);
      NotFoundAbsent(devs, d);
      ParseDevicesGood(chips, ids, devs + [d], t);
    }
  }

  lemma {:induction false} Extends(chips: Chips, ids: seq<Id>, devs: seq<Device>, s: string)
    requires AllBacked(chips, ids) && ParseDevices(chips, ids, devs, s).Some?
    ensures devs <= ParseDevices(chips, ids, devs, s).value
    decreases |s|
  {
    if s != "" {
      var (d, t) := DeviceParse(chips, ids, devs, s).value;
      Extends(chips, ids, devs + [d], t);
    }
  }

  lemma {:induction false} ParseGood(chips: Chips, ids: seq<Id>, s: string)
    requires AllBacked(chips, ids) && s != "" && ParseDevices(chips, ids, [], s).Some?
    ensures ParseDevices(chips, ids, [], s).value != [] && GoodDevices(chips, ids, ParseDevices(chips, ids, [], s).value)
  {
    ParseDevicesGood(chips, ids, [], s);
    var (d, t) := DeviceParse(chips, ids, [], s).value;
    assert [] + [d] == [d];
    Extends(chips, ids, [d], t);
  }

  /** A table read from any text and written again is read, exactly when its sizes can be
      written, as the table with the partitions at one offset in reverse order. */
  lemma {:induction false} Reparse(chips: Chips, ids: seq<Id>, s: string, ds: seq<Device>)
    requires AllBacked(chips, ids) && ParseMtdparts(chips, ids, s) == Some(ds)
    ensures var again := ParseMtdparts(chips, ids, Generate(ds));
      && AllSorted(ds) && (again.Some? <==> AllReadable(ds))
      && (again.Some? ==> SameDevices(again.value, FlipDevices(ds)) && (SameDevices(again.value, ds) <==> AllSymmetric(ds)))
      && (again.Some? && AllDistinct(ds) ==> SameDevices(again.value, ds))
  {
    ParseGood(chips, ids, s[9..]);
    MtdpartsRoundTrip(chips, ids, ds);
  }

  // ---------------------------------------------------------------- written and read twice

  /** A partition of the size that is also written '-' lies at offset zero. */
  lemma RemainingAtZero(chips: Chips, id: Id, p: Part)
    requires Backed(chips, id) && GoodPart(chips, id, p) && p.size == SIZE_REMAINING
    ensures p.offset == 0
  {}

  /** Reversing partitions at one offset keeps a list writable. */
  lemma FlipReadable(chips: Chips, id: Id, ps: seq<Part>)
    requires Backed(chips, id) && Ordered(ps) && GoodParts(chips, id, ps) && Readable(ps)
    ensures Readable(Flip(ps))
  {
    forall i | 0 <= i < |ps|
      ensures MIN_PART_SIZE <= Flip(ps)[i].size && (i < |ps| - 1 ==> Flip(ps)[i].size != SIZE_REMAINING)
    {
      FlipAt(ps, i);
      var m := Mirror(ps, i);
      if ps[m].size == SIZE_REMAINING {
        RemainingAtZero(chips, id, ps[m]);
        assert m == 0 && i == 0;
      }
    }
  }

  lemma FlipAllReadable(chips: Chips, ids: seq<Id>, ds: seq<Device>, es: seq<Device>)
    requires AllBacked(chips, ids) && GoodDevices(chips, ids, ds) && AllReadable(ds) && AllSorted(ds)
    requires SameDevices(es, FlipDevices(ds))
    ensures AllReadable(es)
  {
    forall i | 0 <= i < |es|
      ensures Readable(es[i].parts)
    {
      assert GoodDevice(chips, ids, ds[i]) && Readable(ds[i].parts);
      FlipReadable(chips, ds[i].id, ds[i].parts);
      var fs := Flip(ds[i].parts);
      assert SameParts(es[i].parts, fs);
      assert forall j :: 0 <= j < |fs| ==> SamePart(es[i].parts[j], fs[j]);
    }
  }

  /** The tables a and b differ in the order at one offset, as c and a do. */
  lemma FlipBack(a: seq<Device>, b: seq<Device>, c: seq<Device>)
    requires AllSorted(a) && AllSorted(b) && SameDevices(b, FlipDevices(a)) && SameDevices(c, FlipDevices(b))
    ensures SameDevices(c, a)
  {
    forall i | 0 <= i < |a|
      ensures c[i].id == a[i].id && SameParts(c[i].parts, a[i].parts)
    {
      PartsBack(a[i].parts, b[i].parts, c[i].parts);
    }
  }

  lemma PartsBack(a: seq<Part>, b: seq<Part>, c: seq<Part>)
    requires Sorted(a) && Sorted(b) && SameParts(b, Flip(a)) && SameParts(c, Flip(b))
    ensures SameParts(c, a)
  {
    FlipTwice(a);
    FlipSame(b, Flip(a));
    SameTransitive(c, Flip(b), a);
  }

  lemma SameTransitive(a: seq<Part>, b: seq<Part>, c: seq<Part>)
    requires SameParts(a, b) && SameParts(b, c)
    ensures SameParts(a, c)
  {
    forall i | 0 <= i < |a|
      ensures SamePart(a[i], c[i])
    {
      assert SamePart(a[i], b[i]) && SamePart(b[i], c[i]);
    }
  }

  /** A table that can be written and read at all is the same again after the second time. */
  lemma {:induction false} ReparseTwice(chips: Chips, ids: seq<Id>, ds: seq<Device>, es: seq<Device>)
    requires AllBacked(chips, ids) && GoodDevices(chips, ids, ds) && ds != []
    requires ParseMtdparts(chips, ids, Generate(ds)) == Some(es)
    ensures var again := ParseMtdparts(chips, ids, Generate(es)); again.Some? && SameDevices(again.value, ds)
  {
    MtdpartsRoundTrip(chips, ids, ds);
    FlipAllReadable(chips, ids, ds, es);
    Reparse(chips, ids, Generate(ds), es);
    FlipBack(ds, es, ParseMtdparts(chips, ids, Generate(es)).value);
  }
}
