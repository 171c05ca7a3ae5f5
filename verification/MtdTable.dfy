/** The device list of common/cmd_jffs2.c as the code keeps it: partitions sorted by
    offset, a counter per device, a current partition and its global index. */
module MtdTable {
  import opened Wrappers
  import opened Memsize
  import opened MtdParts
  import opened MtdOrder

  // ---------------------------------------------------------------- global positions

  function Before(ds: seq<Device>, k: nat): nat
    requires k <= |ds|
  {
    if k == 0 then 0 else Before(ds, k - 1) + |ds[k - 1].parts|
  }

  /** All partitions of all devices, in order. */
  function AllParts(ds: seq<Device>): seq<Part> {
    if ds == [] then [] else AllParts(ds[..|ds| - 1]) + ds[|ds| - 1].parts
  }

  lemma {:induction false} BeforeTake(ds: seq<Device>, n: nat, k: nat)
    requires k <= n <= |ds|
    ensures Before(ds[..n], k) == Before(ds, k)
  {
    if k > 0 {
      BeforeTake(ds, n, k - 1);
    }
  }

  /** Partition j of device k stands at Before(k) + j in the concatenation of all lists. */
  lemma {:induction false} PositionOf(ds: seq<Device>, k: nat, j: nat)
    requires k < |ds| && j < |ds[k].parts|
    ensures Before(ds, k) + j < |AllParts(ds)| == Before(ds, |ds|)
    ensures AllParts(ds)[Before(ds, k) + j] == ds[k].parts[j]
    decreases |ds|
  {
    var n := |ds| - 1;
    AllPartsSize(ds);
    AllPartsSize(ds[..n]);
    BeforeTake(ds, n, n);
    if k < n {
      PositionOf(ds[..n], k, j);
      BeforeTake(ds, n, k);
    }
  }

  lemma {:induction false} AllPartsSize(ds: seq<Device>)
    ensures |AllParts(ds)| == Before(ds, |ds|)
  {
    if ds != [] {
      AllPartsSize(ds[..|ds| - 1]);
      BeforeTake(ds, |ds| - 1, |ds| - 1);
    }
  }

  // ---------------------------------------------------------------- the current index

  /** What one insertion does to the index of the current partition. */
  lemma TrackInsert(ps: seq<Part>, p: Part, cur: nat)
    requires Sorted(ps) && cur < |ps|
    ensures var k := FirstFrom(ps, p.offset);
      && Insert(ps, k, p)[if k <= cur then cur + 1 else cur] == ps[cur]
      && (k <= cur <==> k < |ps| && ps[k].offset <= ps[cur].offset)
  {}

  /** Partition j stands behind partition cur, at the same offset. */
  predicate Behind(ps: seq<Part>, j: nat, cur: nat) {
    cur < j < |ps| && ps[j].offset == ps[cur].offset
  }

  /** What one deletion does to it: comparing offsets decides whether the deleted partition
      stood before the current one, unless it stood behind it at the same offset. */
  lemma TrackCut(ps: seq<Part>, j: nat, cur: nat)
    requires Sorted(ps) && cur < |ps| && j < |ps| && j != cur
    ensures Cut(ps, j)[if j < cur then cur - 1 else cur] == ps[cur]
    ensures ps[j].offset <= ps[cur].offset <==> j < cur || Behind(ps, j, cur)
  {}

  lemma {:induction false} BeforeGrows(ds: seq<Device>, j: nat, k: nat)
    requires j <= k <= |ds|
    ensures Before(ds, j) <= Before(ds, k)
  {
    if j < k {
      BeforeGrows(ds, j, k - 1);
    }
  }

  // ---------------------------------------------------------------- the code

  /** Is a an offset at which a sector of the bank starts. */
  method FindSector(starts: seq<int>, a: nat) returns (found: bool)
    requires starts != []
    ensures found == exists i :: 0 <= i < |starts| && (starts[i] - starts[0]) % W == a
  {
    found := false;
    for i := 0 to |starts|
      invariant !found
      invariant forall j :: 0 <= j < i ==> (starts[j] - starts[0]) % W != a
    {
      if (starts[i] - starts[0]) % W == a {
        return true;
      }
    }
  }

  /** part_validate with part_validate_nor and part_validate_nand. */
  method PartValidate(chips: Chips, id: Id, p: Part) returns (r: Option<Part>)
    requires Backed(chips, id)
    ensures r == Validate(chips, id, p)
  {
    var q := if p.size == SIZE_REMAINING then p.(size := (id.size - p.offset) % W) else p;
    var end := (q.offset + q.size) % W;
    if q.offset > id.size || end <= q.offset || end > id.size {
      return None;
    }
    if id.nor {
      var b := chips.nor[id.num];
      var aligned := FindSector(b.start, q.offset);
      if !aligned {
        return None;
      }
      aligned := FindSector(b.start, end);
      if aligned || b.size == end {
        return Some(q);
      }
      return None;
    } else {
      if q.offset % chips.nand[id.num] != 0 || q.size % chips.nand[id.num] != 0 {
        return None;
      }
      return Some(q);
    }
  }

  /** The list loop of part_sort_add: where to link p, or refusal. */
  method FindSlot(ps: seq<Part>, p: Part) returns (refused: bool, k: nat)
    requires Sorted(ps)
    ensures refused == SecondAtZero(ps, p)
    ensures !refused ==> k == FirstFrom(ps, p.offset)
  {
    k := 0;
    while k < |ps|
      invariant k <= |ps| && forall i :: 0 <= i < k ==> ps[i].offset < p.offset
      invariant k > 0 ==> !SecondAtZero(ps, p)
    {
      if p.offset == ps[k].offset && ps[k].offset == 0 {
        return true, k;
      }
      if p.offset <= ps[k].offset {
        return false, k;
      }
      k := k + 1;
    }
    return false, k;
  }

  /** The index of the current partition that part_del leaves. */
  method AfterCut(ps: seq<Part>, j: nat, cur: nat) returns (c: nat)
    requires Sorted(ps) && |ps| <= 255 && cur < |ps| && j < |ps| && |ps| > 1
    ensures j == cur ==> c == 0
    ensures j != cur && !Behind(ps, j, cur) ==> c < |Cut(ps, j)| && Cut(ps, j)[c] == ps[cur]
    ensures Behind(ps, j, cur) ==> c == (cur + 255) % 256
    ensures Behind(ps, j, cur) && cur > 0 ==> c < |Cut(ps, j)| && Cut(ps, j)[c] == ps[cur - 1]
  {
    if cur == j {
      return 0;
    }
    TrackCut(ps, j, cur);
    c := cur;
    if ps[j].offset <= ps[cur].offset {
      c := (c + 255) % 256;
    }
  }

  class Table {
    var devices: seq<Device>
    var numParts: seq<nat>
    var currentDev: int
    var currentPart: nat
    var mtddevnum: Option<nat>

    constructor ()
      ensures Valid() && devices == []
    {
      devices, numParts, currentDev, currentPart, mtddevnum := [], [], -1, 0, None;
    }

    /** Every device has a non-empty list in order of offset, its counter is the length of
        that list, and the indices fit their 8 and 16 bits. */
    static predicate Listed(ds: seq<Device>, counts: seq<nat>) {
      && |counts| == |ds|
      && (forall i :: 0 <= i < |ds| ==>
            0 < |ds[i].parts| <= 255 && Ordered(ds[i].parts) && counts[i] == |ds[i].parts|)
      && Before(ds, |ds|) < 0x10000
    }

    /** currentDev is the position of current_dev in the list, -1 when it is null. */
    static predicate Pointed(ds: seq<Device>, dev: int, part: nat) {
      -1 <= dev < |ds| && (dev >= 0 ==> part < |ds[dev].parts|)
    }

    static function Index(ds: seq<Device>, dev: int, part: nat): Option<nat>
      requires Pointed(ds, dev, part)
    {
      if dev < 0 then None else Some(Before(ds, dev) + part)
    }

    predicate Valid()
      reads this
    {
      && Listed(devices, numParts) && Pointed(devices, currentDev, currentPart)
      && mtddevnum == Index(devices, currentDev, currentPart)
    }

    /** The current partition. */
    function Current(): Part
      requires Valid() && currentDev >= 0
      reads this
    {
      devices[currentDev].parts[currentPart]
    }

    /** mtddevnum is the position of the current partition among all partitions. */
    lemma IndexIsPosition()
      requires Valid() && currentDev >= 0
      ensures mtddevnum.Some? && mtddevnum.value < |AllParts(devices)|
      ensures AllParts(devices)[mtddevnum.value] == Current()
    {
      PositionOf(devices, currentDev, currentPart);
    }

    /** index_partitions, with its 16-bit sum. */
    method IndexPartitions()
      requires Listed(devices, numParts) && -1 <= currentDev < |devices|
      modifies this`mtddevnum
      ensures mtddevnum == if currentDev < 0 then None else Some((Before(devices, currentDev) + currentPart) % 0x10000)
      ensures Valid() <==> Pointed(devices, currentDev, currentPart)
    {
      if currentDev >= 0 {
        var num := 0;
        for d := 0 to |devices|
          invariant num == Before(devices, d) && d <= currentDev
        {
          if d == currentDev {
            num := (num + currentPart) % 0x10000;
            mtddevnum := Some(num);
            IndexFits(devices, numParts, currentDev, currentPart);
            return;
          }
          BeforeGrows(devices, d + 1, |devices|);
          num := (num + numParts[d]) % 0x10000;
        }
      } else {
        mtddevnum := None;
      }
    }

    /** part_sort_add on device i. */
    method PartSortAdd(i: nat, p: Part) returns (rc: int)
      requires Valid() && i < |devices| && |devices[i].parts| < 255 && Before(devices, |devices|) < 0xFFFF
      modifies this
      ensures Valid()
      ensures rc == if SortAdd(old(devices)[i].parts, p).Some? then 0 else 1
      ensures rc == 1 ==> devices == old(devices) && currentPart == old(currentPart)
      ensures rc == 0 ==> devices == old(devices)[i := Device(old(devices)[i].id, SortAdd(old(devices)[i].parts, p).value)]
      ensures currentDev == old(currentDev)
      ensures currentDev >= 0 ==> Current() == old(Current())
    {
      var ps := devices[i].parts;
      SortAddSlot(ps, p);
      var refused, k := FindSlot(ps, p);
      if refused {
        return 1;
      }
      InsertOrdered(ps, p);
      var cur := currentPart;
      if currentDev == i {
        TrackInsert(ps, p, currentPart);
        if k < |ps| && ps[k].offset <= ps[currentPart].offset {
          cur := cur + 1;
        }
      }
      Relist(i, ps[..k] + [p] + ps[k..], cur);
      return 0;
    }

    /** The list, the counter and the current index of a changed device are stored, and the
        global index is computed again. */
    method Relist(i: nat, ps: seq<Part>, cur: nat)
      requires Valid() && i < |devices|
      requires 0 < |ps| <= 255 && Ordered(ps)
      requires Before(devices, |devices|) + |ps| - |devices[i].parts| < 0x10000
      requires if currentDev == i then cur < 256 else cur == currentPart
      modifies this
      ensures devices == old(devices)[i := Device(old(devices)[i].id, ps)]
      ensures currentDev == old(currentDev) && currentPart == cur
      ensures Valid() <==> (currentDev == i ==> cur < |ps|)
    {
      ListedUpdate(devices, numParts, i, ps);
      devices := devices[i := Device(devices[i].id, ps)];
      numParts := numParts[i := |ps|];
      currentPart := cur;
      IndexPartitions();
    }

    /** The current partition stands before the one to be deleted, at the same offset. */
    predicate Strays(i: nat, j: nat)
      requires Valid() && i < |devices|
      reads this
    {
      currentDev == i && Behind(devices[i].parts, j, currentPart)
    }

    /** part_del of partition j of device i. The current partition stays the same one, unless
        it was deleted or strays: then the one before it becomes current, or none is, with the
        8-bit index at 255. */
    method PartDel(i: nat, j: nat)
      requires Valid() && i < |devices| && j < |devices[i].parts|
      modifies this
      ensures Valid() <==> !(old(Strays(i, j)) && old(currentPart) == 0)
      ensures |old(devices)[i].parts| == 1 ==> devices == Cut(old(devices), i)
      ensures |old(devices)[i].parts| == 1 && old(currentDev) == i ==>
        if devices == [] then currentDev == -1 else currentDev == 0 && currentPart == 0
      ensures |old(devices)[i].parts| == 1 && old(currentDev) == -1 ==> currentDev == -1
      ensures |old(devices)[i].parts| > 1 ==>
        && devices == old(devices)[i := Device(old(devices)[i].id, Cut(old(devices)[i].parts, j))]
        && currentDev == old(currentDev)
        && (currentDev == i && old(currentPart) == j ==> currentPart == 0)
      ensures 0 <= old(currentDev) != i ==> currentDev >= 0 && Current() == old(Current())
      ensures old(currentDev) == i && old(currentPart) != j && !old(Strays(i, j)) ==> Current() == old(Current())
      ensures old(Strays(i, j)) ==> currentPart == (old(currentPart) + 255) % 256
      ensures old(Strays(i, j)) && Valid() ==> Current() == old(devices)[i].parts[old(currentPart) - 1]
    {
      if numParts[i] == 1 {
        DeviceDel(i);
        return;
      }
      var ps := devices[i].parts;
      CutOrdered(ps, j);
      var cur := currentPart;
      if currentDev == i {
        cur := AfterCut(ps, j, currentPart);
      }
      Relist(i, ps[..j] + ps[j + 1..], cur);
    }

    /** device_del. */
    method DeviceDel(i: nat)
      requires Valid() && i < |devices|
      modifies this
      ensures Valid() && devices == Cut(old(devices), i)
      ensures old(currentDev) == i ==>
        (if devices == [] then currentDev == -1 else currentDev == 0 && currentPart == 0)
      ensures 0 <= old(currentDev) != i ==> currentDev >= 0 && Current() == old(Current())
      ensures old(currentDev) == -1 ==> currentDev == -1
    {
      ListedCut(devices, numParts, i);
      devices := devices[..i] + devices[i + 1..];
      numParts := numParts[..i] + numParts[i + 1..];
      if currentDev == i {
        if devices == [] {
          currentDev := -1;
        } else {
          currentDev := 0;
          currentPart := 0;
        }
      } else if currentDev > i {
        currentDev := currentDev - 1;
      }
      IndexPartitions();
    }

    /** device_add. */
    method DeviceAdd(d: Device)
      requires Valid() && 0 < |d.parts| <= 255 && Ordered(d.parts)
      requires Before(devices, |devices|) + |d.parts| < 0x10000
      modifies this
      ensures Valid() && devices == old(devices) + [d]
      ensures if old(devices) == [] then currentDev == 0 && currentPart == 0
              else currentDev == old(currentDev) && currentPart == old(currentPart)
    {
      ListedSnoc(devices, numParts, d);
      if devices == [] {
        currentDev := 0;
        currentPart := 0;
      }
      devices := devices + [d];
      numParts := numParts + [|d.parts|];
      IndexPartitions();
    }
  }

  lemma {:induction false} ListedUpdate(ds: seq<Device>, counts: seq<nat>, i: nat, ps: seq<Part>)
    requires Table.Listed(ds, counts) && i < |ds| && 0 < |ps| <= 255 && Ordered(ps)
    requires Before(ds, |ds|) + |ps| - |ds[i].parts| < 0x10000
    ensures Table.Listed(ds[i := Device(ds[i].id, ps)], counts[i := |ps|])
  {
    BeforeUpdateAt(ds, i, ps, |ds|);
  }

  lemma {:induction false} BeforeCut(ds: seq<Device>, i: nat, k: nat)
    requires i < |ds| && k < |ds|
    ensures Before(Cut(ds, i), k) == if k <= i then Before(ds, k) else Before(ds, k + 1) - |ds[i].parts|
  {
    if k > 0 {
      BeforeCut(ds, i, k - 1);
    }
  }

  lemma {:induction false} ListedCut(ds: seq<Device>, counts: seq<nat>, i: nat)
    requires Table.Listed(ds, counts) && i < |ds|
    ensures Table.Listed(Cut(ds, i), Cut(counts, i))
  {
    BeforeCut(ds, i, |ds| - 1);
    var es, cs := Cut(ds, i), Cut(counts, i);
    forall k | 0 <= k < |es|
      ensures 0 < |es[k].parts| <= 255 && Ordered(es[k].parts) && cs[k] == |es[k].parts|
    {
      CutAt(ds, i, k);
      CutAt(counts, i, k);
    }
  }

  lemma CutAt<T>(s: seq<T>, i: nat, k: nat)
    requires i < |s| && k < |s| - 1
    ensures Cut(s, i)[k] == s[if k < i then k else k + 1]
  {}

  lemma {:induction false} ListedSnoc(ds: seq<Device>, counts: seq<nat>, d: Device)
    requires Table.Listed(ds, counts) && 0 < |d.parts| <= 255 && Ordered(d.parts)
    requires Before(ds, |ds|) + |d.parts| < 0x10000
    ensures Table.Listed(ds + [d], counts + [|d.parts|])
  {
    var es := ds + [d];
    assert es[..|ds|] == ds;
    BeforeTake(es, |ds|, |ds|);
  }

  lemma IndexFits(ds: seq<Device>, counts: seq<nat>, dev: nat, part: nat)
    requires Table.Listed(ds, counts) && dev < |ds|
    ensures Table.Pointed(ds, dev, part) ==> Before(ds, dev) + part < 0x10000
  {
    BeforeGrows(ds, dev + 1, |ds|);
  }

  /** Replacing one device's list shifts the devices behind it. */
  lemma {:induction false} BeforeUpdateAt(ds: seq<Device>, i: nat, ps: seq<Part>, k: nat)
    requires i < |ds| && k <= |ds|
    ensures Before(ds[i := Device(ds[i].id, ps)], k) == Before(ds, k) + if k <= i then 0 else |ps| - |ds[i].parts|
  {
    if k > 0 {
      BeforeUpdateAt(ds, i, ps, k - 1);
    }
  }

  /** Two partitions at one offset, the first current: when the second is deleted, the index
      names no partition. */
  method StrayExample() returns (t: Table)
    ensures fresh(t) && t.devices == [Device(Id("nand0", false, 0, 65536), [Part(4096, 4096, "a", false, false)])]
    ensures t.currentDev == 0 && t.currentPart == 255
  {
    var a, b := Part(4096, 4096, "a", false, false), Part(8192, 4096, "b", false, false);
    var d := Device(Id("nand0", false, 0, 65536), [a, b]);
    t := new Table();
    assert Before([d], 1) == 2;
    t.DeviceAdd(d);
    assert t.devices == [d] && t.Strays(0, 1);
    t.PartDel(0, 1);
    assert Cut([a, b], 1) == [a];
  }
}
