/** generate_mtdparts of common/cmd_jffs2.c, and the proof that parsing its output rebuilds
    the devices it was generated from. */
module MtdRoundTrip {
  import opened Wrappers
  import Flash
  import opened Memsize
  import opened MtdParts
  import opened MtdOrder

  // ---------------------------------------------------------------- printing

  /** The offset is printed only where there is a gap. */
  function OffsetText(p: Part, expected: nat): string {
    if p.offset == expected then "" else "@" + MemsizeFormat(p.offset)
  }

  function NameText(p: Part): string { if p.autoName then "" else "(" + p.name + ")" }

  function RoText(p: Part): string { if p.ro then "ro" else "" }

  function PrintPart(p: Part, expected: nat): string {
    MemsizeFormat(p.size) + (OffsetText(p, expected) + (NameText(p) + RoText(p)))
  }

  function PrintParts(ps: seq<Part>, expected: nat): string {
    if ps == [] then ""
    else if |ps| == 1 then PrintPart(ps[0], expected)
    else PrintPart(ps[0], expected) + "," + PrintParts(ps[1..], Add32(ps[0].offset, ps[0].size))
  }

  function PrintDevice(d: Device): string { d.id.mtdId + ":" + PrintParts(d.parts, 0) }

  function PrintDevices(ds: seq<Device>): string {
    if ds == [] then ""
    else if |ds| == 1 then PrintDevice(ds[0])
    else PrintDevice(ds[0]) + ";" + PrintDevices(ds[1..])
  }

  function Generate(ds: seq<Device>): string {
    if ds == [] then "" else PREFIX + PrintDevices(ds)
  }

  // ---------------------------------------------------------------- what comes back

  /** The partition the parser builds from a printed one, before it is placed. */
  function Raw(p: Part, expected: nat): Part {
    var offset := if p.offset == expected then OFFSET_NOT_SPECIFIED else p.offset;
    Part(p.size, offset, if p.autoName then AutoName(p.size, offset) else p.name, p.autoName, p.ro)
  }

  /** The same partition again; only a generated name may differ. */
  function Rebuilt(p: Part, expected: nat): Part { p.(name := Raw(p, expected).name) }

  function RebuiltParts(ps: seq<Part>, expected: nat): (r: seq<Part>)
    ensures |r| == |ps| && forall i {:trigger r[i]} :: 0 <= i < |ps| ==> r[i].offset == ps[i].offset
  {
    if ps == [] then [] else [Rebuilt(ps[0], expected)] + RebuiltParts(ps[1..], Add32(ps[0].offset, ps[0].size))
  }

  lemma RebuiltPartsSorted(ps: seq<Part>)
    requires Sorted(ps)
    ensures Sorted(RebuiltParts(ps, 0))
  {
    var r := RebuiltParts(ps, 0);
    assert forall i, j :: 0 <= i < j < |r| ==> r[i].offset == ps[i].offset <= ps[j].offset == r[j].offset;
  }

  /** The device the parser builds: partitions at one offset come back in reverse order. */
  function RebuiltDevice(d: Device): Device
    requires Sorted(d.parts)
  {
    RebuiltPartsSorted(d.parts);
    Device(d.id, Flip(RebuiltParts(d.parts, 0)))
  }

  predicate AllSorted(ds: seq<Device>) { forall i :: 0 <= i < |ds| ==> Sorted(ds[i].parts) }

  function RebuiltDevices(ds: seq<Device>): (r: seq<Device>)
    requires AllSorted(ds)
    ensures |r| == |ds|
  {
    if ds == [] then [] else [RebuiltDevice(ds[0])] + RebuiltDevices(ds[1..])
  }

  /** Equal size, offset, read-only flag and user-given name. */
  predicate SamePart(p: Part, q: Part) {
    && p.size == q.size && p.offset == q.offset && p.ro == q.ro && p.autoName == q.autoName
    && (!p.autoName ==> p.name == q.name)
  }

  predicate SameParts(ps: seq<Part>, qs: seq<Part>) {
    |ps| == |qs| && forall j :: 0 <= j < |ps| ==> SamePart(ps[j], qs[j])
  }

  predicate SameDevices(a: seq<Device>, b: seq<Device>) {
    |a| == |b| && forall i :: 0 <= i < |a| ==> a[i].id == b[i].id && SameParts(a[i].parts, b[i].parts)
  }

  /** Every device with the partitions at one offset in reverse order. */
  function FlipDevices(ds: seq<Device>): (r: seq<Device>)
    requires AllSorted(ds)
    ensures |r| == |ds| && forall i :: 0 <= i < |ds| ==> r[i] == Device(ds[i].id, Flip(ds[i].parts))
  {
    seq(|ds|, i requires 0 <= i < |ds| => Device(ds[i].id, Flip(ds[i].parts)))
  }

  lemma {:induction false} RebuiltPartsSame(ps: seq<Part>, expected: nat, j: nat)
    requires j < |ps|
    ensures SamePart(RebuiltParts(ps, expected)[j], ps[j])
  {
    if j > 0 {
      RebuiltPartsSame(ps[1..], Add32(ps[0].offset, ps[0].size), j - 1);
    }
  }

  lemma {:induction false} RebuiltAt(ds: seq<Device>, i: nat)
    requires AllSorted(ds) && i < |ds|
    ensures RebuiltDevices(ds)[i] == RebuiltDevice(ds[i])
  {
    if i > 0 {
      RebuiltAt(ds[1..], i - 1);
    }
  }

  /** Lists of the same partitions are reversed alike. */
  lemma FlipSame(ps: seq<Part>, qs: seq<Part>)
    requires Sorted(ps) && Sorted(qs) && SameParts(ps, qs)
    ensures SameParts(Flip(ps), Flip(qs))
  {
    assert forall i :: 0 <= i < |ps| ==> SamePart(ps[i], qs[i]) && ps[i].offset == qs[i].offset;
    forall i | 0 <= i < |ps|
      ensures SamePart(Flip(ps)[i], Flip(qs)[i])
    {
      FlipAt(ps, i);
      FlipAt(qs, i);
      MirrorSame(ps, qs, i);
      assert SamePart(ps[Mirror(ps, i)], qs[Mirror(ps, i)]);
    }
  }

  lemma {:induction false} RebuiltDeviceSame(d: Device)
    requires Sorted(d.parts)
    ensures SameParts(RebuiltDevice(d).parts, Flip(d.parts))
  {
    var r := RebuiltParts(d.parts, 0);
    forall j | 0 <= j < |r|
      ensures SamePart(r[j], d.parts[j])
    {
      RebuiltPartsSame(d.parts, 0, j);
    }
    RebuiltPartsSorted(d.parts);
    FlipSame(r, d.parts);
  }

  lemma {:induction false} RebuiltSame(ds: seq<Device>)
    requires AllSorted(ds)
    ensures SameDevices(RebuiltDevices(ds), FlipDevices(ds))
  {
    forall i | 0 <= i < |ds|
      ensures RebuiltDevices(ds)[i] == RebuiltDevice(ds[i]) && SameParts(RebuiltDevice(ds[i]).parts, Flip(ds[i].parts))
    {
      RebuiltAt(ds, i);
      RebuiltDeviceSame(ds[i]);
    }
  }

  // ---------------------------------------------------------------- one partition

  predicate LegalName(p: Part) { p.autoName || (p.name != "" && ')' !in p.name) }

  predicate Printable(p: Part) {
    p.size < W && p.offset < OFFSET_NOT_SPECIFIED && LegalName(p)
  }

  predicate AfterPart(rest: string) { rest == "" || rest[0] == ',' || rest[0] == ';' }

  lemma {:induction false} IndexOfAfter(s: string, c: char, rest: string)
    requires c !in s
    ensures IndexOf(s + [c] + rest, c) == |s|
  {
    var t := s + [c] + rest;
    if s != "" {
      assert t[0] == s[0] && t[1..] == s[1..] + [c] + rest;
      IndexOfAfter(s[1..], c, rest);
    }
  }

  lemma {:induction false} NameRoundTrip(p: Part, rest: string)
    requires LegalName(p) && !StartsWith(rest, '(')
    ensures ParseName(NameText(p) + rest) == Some((if p.autoName then "" else p.name, rest))
  {
    if p.autoName {
      assert "" + rest == rest;
    } else {
      var s := NameText(p) + rest;
      var t := p.name + [')'] + rest;
      assert s[1..] == t;
      IndexOfAfter(p.name, ')', rest);
      assert t[..|p.name|] == p.name && t[|p.name| + 1..] == rest;
    }
  }

  lemma {:induction false} RoRoundTrip(p: Part, rest: string)
    requires AfterPart(rest)
    ensures ParseRo(RoText(p) + rest) == (p.ro, rest)
  {
    var s := RoText(p) + rest;
    if p.ro {
      assert s[..2] == "ro" && s[2..] == rest;
    } else {
      assert s == rest;
      if |s| >= 2 {
        assert s[..2][0] == s[0];
      }
    }
  }

  lemma {:induction false} OffsetRoundTrip(p: Part, expected: nat, rest: string)
    requires p.offset < W && Ends(rest) && !StartsWith(rest, '@')
    ensures ParseOffset(OffsetText(p, expected) + rest) == (Raw(p, expected).offset, rest)
  {
    var s := OffsetText(p, expected) + rest;
    if p.offset == expected {
      assert s == rest;
    } else {
      assert s[1..] == MemsizeFormat(p.offset) + rest;
      MemsizeRoundTrip(p.offset, rest);
    }
  }

  lemma {:induction false} SizeRoundTrip(size: nat, rest: string)
    requires size < W && Ends(rest)
    ensures ParseSize(MemsizeFormat(size) + rest) == if size < MIN_PART_SIZE then None else Some((size, rest))
    ensures IsDigit((MemsizeFormat(size) + rest)[0])
  {
    MemsizeRoundTrip(size, rest);
    FormatHead(size);
    assert (MemsizeFormat(size) + rest)[0] == MemsizeFormat(size)[0];
  }

  lemma {:induction false} DecHeadDigit(n: nat)
    ensures IsDigit(Dec(n)[0])
    decreases n
  {
    DigitLaws(n % 10);
    if n >= 10 {
      DecHeadDigit(n / 10);
    }
  }

  lemma {:induction false} FormatHead(size: nat)
    ensures MemsizeFormat(size) != "" && IsDigit(MemsizeFormat(size)[0])
  {
    DecHeadDigit(size / SIZE_GB);
    DecHeadDigit(size / SIZE_MB);
    DecHeadDigit(size / SIZE_KB);
    DecHeadDigit(size);
  }

  /** part_parse reads back one printed definition. */
  lemma {:induction false} PartRoundTrip(p: Part, expected: nat, rest: string)
    requires Printable(p) && AfterPart(rest)
    ensures PartParse(PrintPart(p, expected) + rest) ==
      if p.size < MIN_PART_SIZE || (StartsWith(rest, ',') && p.size == SIZE_REMAINING) then None
      else Some((Raw(p, expected), if StartsWith(rest, ',') then rest[1..] else rest))
    ensures IsDigit((PrintPart(p, expected) + rest)[0])
  {
    var r := RoText(p) + rest;
    var n := NameText(p) + r;
    var o := OffsetText(p, expected) + n;
    PartText(p, expected, rest);
    RestEnds(p, expected, rest);
    SizeRoundTrip(p.size, o);
    if p.size >= MIN_PART_SIZE {
      OffsetRoundTrip(p, expected, n);
      NameRoundTrip(p, r);
      RoRoundTrip(p, rest);
      PartFields(p, expected, MemsizeFormat(p.size) + o, o, n, r, rest);
    }
  }

  lemma PartText(p: Part, expected: nat, rest: string)
    ensures PrintPart(p, expected) + rest ==
      MemsizeFormat(p.size) + (OffsetText(p, expected) + (NameText(p) + (RoText(p) + rest)))
  {}

  /** The fields of a definition in the order in which part_parse reads them. */
  lemma PartFields(p: Part, expected: nat, s: string, o: string, n: string, r: string, rest: string)
    requires AfterPart(rest) && LegalName(p)
    requires ParseSize(s) == Some((p.size, o)) && ParseOffset(o) == (Raw(p, expected).offset, n)
    requires ParseName(n) == Some((if p.autoName then "" else p.name, r)) && ParseRo(r) == (p.ro, rest)
    ensures PartParse(s) == if StartsWith(rest, ',') && p.size == SIZE_REMAINING then None
                            else Some((Raw(p, expected), if StartsWith(rest, ',') then rest[1..] else rest))
  {}

  lemma RestEnds(p: Part, expected: nat, rest: string)
    requires AfterPart(rest)
    ensures var r := RoText(p) + rest; var n := NameText(p) + r; var o := OffsetText(p, expected) + n;
      !StartsWith(r, '(') && Ends(n) && !StartsWith(n, '@') && Ends(o)
  {}

  // ---------------------------------------------------------------- a device

  predicate GoodPart(chips: Chips, id: Id, p: Part)
    requires Backed(chips, id)
  {
    p.size < W && LegalName(p) && Validate(chips, id, p) == Some(p)
  }

  predicate GoodParts(chips: Chips, id: Id, ps: seq<Part>)
    requires Backed(chips, id)
  {
    forall i :: 0 <= i < |ps| ==> GoodPart(chips, id, ps[i])
  }

  /** Sizes that are read back: not below the minimum a definition may give, and only the
      last one equal to the size that is also written '-'. */
  predicate Readable(ps: seq<Part>) {
    forall i :: 0 <= i < |ps| ==> MIN_PART_SIZE <= ps[i].size && (i < |ps| - 1 ==> ps[i].size != SIZE_REMAINING)
  }

  /** The name of a partition plays no part in its validation. */
  lemma ValidateName(chips: Chips, id: Id, p: Part, name: string)
    requires Backed(chips, id) && Validate(chips, id, p) == Some(p) && p.size < W
    ensures p.offset < OFFSET_NOT_SPECIFIED
    ensures Validate(chips, id, p.(name := name)) == Some(p.(name := name))
  {
    var q := p.(name := name);
    assert Resolved(id, q) == Resolved(id, p).(name := name);
  }

  /** One definition of a device is read, placed and validated. */
  lemma {:induction false} OnePart(chips: Chips, id: Id, p: Part, expected: nat, rest: string)
    requires Backed(chips, id) && GoodPart(chips, id, p) && AfterPart(rest)
    ensures Printable(p)
    ensures var r := Raw(p, expected);
      Validate(chips, id, if r.offset == OFFSET_NOT_SPECIFIED then r.(offset := expected) else r) == Some(Rebuilt(p, expected))
  {
    ValidateName(chips, id, p, Raw(p, expected).name);
  }

  function Cons(p: Part, r: Option<(seq<Part>, string)>): Option<(seq<Part>, string)> {
    match r
    case None => None
    case Some((ps, t)) => Some(([p] + ps, t))
  }

  /** The partition loop over one printed definition. */
  lemma {:induction false} PartsStep(chips: Chips, id: Id, p: Part, expected: nat, rest: string)
    requires Backed(chips, id) && GoodPart(chips, id, p) && AfterPart(rest)
    ensures ParseParts(chips, id, PrintPart(p, expected) + rest, expected) ==
      if p.size < MIN_PART_SIZE || (StartsWith(rest, ',') && p.size == SIZE_REMAINING) then None
      else Cons(Rebuilt(p, expected),
                ParseParts(chips, id, if StartsWith(rest, ',') then rest[1..] else rest, Add32(p.offset, p.size)))
  {
    OnePart(chips, id, p, expected, rest);
    PartRoundTrip(p, expected, rest);
  }

  lemma {:induction false} PartsRoundTrip(chips: Chips, id: Id, ps: seq<Part>, expected: nat, rest: string)
    requires Backed(chips, id) && GoodParts(chips, id, ps) && ps != [] && (rest == "" || rest[0] == ';')
    ensures ParseParts(chips, id, PrintParts(ps, expected) + rest, expected) ==
      if Readable(ps) then Some((RebuiltParts(ps, expected), rest)) else None
    decreases |ps|
  {
    var p, next := ps[0], Add32(ps[0].offset, ps[0].size);
    if |ps| == 1 {
      PartsStep(chips, id, p, expected, rest);
      assert RebuiltParts(ps, expected) == [Rebuilt(p, expected)] + [];
      assert Readable(ps) <==> p.size >= MIN_PART_SIZE;
    } else {
      var tail := PrintParts(ps[1..], next) + rest;
      PrintPartsCons(ps, expected, rest);
      PartsStep(chips, id, p, expected, "," + tail);
      assert ("," + tail)[1..] == tail;
      PartsRoundTrip(chips, id, ps[1..], next, rest);
      ReadableTail(ps);
    }
  }

  lemma PrintPartsCons(ps: seq<Part>, expected: nat, rest: string)
    requires |ps| > 1
    ensures PrintParts(ps, expected) + rest ==
      PrintPart(ps[0], expected) + ("," + (PrintParts(ps[1..], Add32(ps[0].offset, ps[0].size)) + rest))
  {}

  lemma ReadableTail(ps: seq<Part>)
    requires |ps| > 1
    ensures Readable(ps) <==> MIN_PART_SIZE <= ps[0].size != SIZE_REMAINING && Readable(ps[1..])
  {
    assert forall i :: 0 < i < |ps| ==> ps[i] == ps[1..][i - 1];
    assert forall i :: 0 <= i < |ps| - 1 ==> ps[1..][i] == ps[i + 1];
  }

  /** A device whose list can be generated: known, with valid sorted partitions. */
  predicate GoodDevice(chips: Chips, ids: seq<Id>, d: Device)
    requires AllBacked(chips, ids)
  {
    && FindId(ids, d.id.mtdId) == Some(d.id) && ':' !in d.id.mtdId && Backed(chips, d.id)
    && d.parts != [] && Ordered(d.parts) && GoodParts(chips, d.id, d.parts)
  }

  lemma {:induction false} DeviceRoundTrip(chips: Chips, ids: seq<Id>, devs: seq<Device>, d: Device, rest: string)
    requires AllBacked(chips, ids) && GoodDevice(chips, ids, d) && (rest == "" || rest[0] == ';')
    requires FindDevice(devs, d.id.nor, d.id.num) == None
    ensures DeviceParse(chips, ids, devs, PrintDevice(d) + rest) ==
      if Readable(d.parts) then Some((RebuiltDevice(d), if rest == "" then rest else rest[1..])) else None
  {
    DeviceText(d, rest);
    PartsRoundTrip(chips, d.id, d.parts, 0, rest);
    FinishRebuilt(d, rest);
  }

  /** The id and the partitions of a printed device. */
  lemma {:induction false} DeviceText(d: Device, rest: string)
    requires ':' !in d.id.mtdId
    ensures var s := PrintDevice(d) + rest; var k := |d.id.mtdId|;
      IndexOf(s, ':') == k < |s| && s[..k] == d.id.mtdId && s[k + 1..] == PrintParts(d.parts, 0) + rest
  {
    ColonText(d.id.mtdId, PrintParts(d.parts, 0), rest);
    IndexOfAfter(d.id.mtdId, ':', PrintParts(d.parts, 0) + rest);
  }

  lemma ColonText(id: string, parts: string, rest: string)
    ensures var s := (id + ":" + parts) + rest; var k := |id|;
      s == id + [':'] + (parts + rest) && k < |s| && s[..k] == id && s[k + 1..] == parts + rest
  {}

  lemma {:induction false} FinishRebuilt(d: Device, rest: string)
    requires d.parts != [] && Ordered(d.parts)
    ensures FinishDevice(d.id, Some((RebuiltParts(d.parts, 0), rest))) ==
      Some((RebuiltDevice(d), if rest == "" then rest else rest[1..]))
  {
    RebuiltPartsSorted(d.parts);
    SortAddAllFlips(RebuiltParts(d.parts, 0));
  }

  // ---------------------------------------------------------------- all devices

  predicate GoodDevices(chips: Chips, ids: seq<Id>, ds: seq<Device>)
    requires AllBacked(chips, ids)
  {
    && (forall i :: 0 <= i < |ds| ==> GoodDevice(chips, ids, ds[i]))
    && forall i, j :: 0 <= i < j < |ds| ==> (ds[i].id.nor, ds[i].id.num) != (ds[j].id.nor, ds[j].id.num)
  }

  predicate AllReadable(ds: seq<Device>) { forall i :: 0 <= i < |ds| ==> Readable(ds[i].parts) }

  predicate Absent(devs: seq<Device>, d: Device) {
    forall i :: 0 <= i < |devs| ==> (devs[i].id.nor, devs[i].id.num) != (d.id.nor, d.id.num)
  }

  lemma {:induction false} FindAbsent(devs: seq<Device>, d: Device)
    requires Absent(devs, d)
    ensures FindDevice(devs, d.id.nor, d.id.num) == None
  {
    if devs != [] {
      FindAbsent(devs[1..], d);
    }
  }

  lemma DevicesSorted(chips: Chips, ids: seq<Id>, ds: seq<Device>)
    requires AllBacked(chips, ids) && GoodDevices(chips, ids, ds)
    ensures AllSorted(ds)
  {
    forall i | 0 <= i < |ds|
      ensures Sorted(ds[i].parts)
    {
      assert GoodDevice(chips, ids, ds[i]);
    }
  }

  lemma {:induction false} DevicesRoundTrip(chips: Chips, ids: seq<Id>, devs: seq<Device>, ds: seq<Device>)
    requires AllBacked(chips, ids) && GoodDevices(chips, ids, ds) && ds != []
    requires forall i :: 0 <= i < |ds| ==> Absent(devs, ds[i])
    ensures AllSorted(ds) && ParseDevices(chips, ids, devs, PrintDevices(ds)) ==
      if AllReadable(ds) then Some(devs + RebuiltDevices(ds)) else None
    decreases |ds|
  {
    var d := ds[0];
    var r := RebuiltDevice(d);
    DevicesSorted(chips, ids, ds);
    PrintDevicesCons(ds);
    RebuiltCons(devs, ds);
    AllReadableCons(ds);
    if |ds| == 1 {
      DevicesStep(chips, ids, devs, d, "");
      assert RebuiltDevices(ds[1..]) == [] && devs + [r] + [] == devs + [r];
      assert ParseDevices(chips, ids, devs + [r], "") == Some(devs + [r]);
    } else {
      var tail := PrintDevices(ds[1..]);
      var rest := ";" + tail;
      assert rest[1..] == tail;
      DevicesStep(chips, ids, devs, d, rest);
      NextDevices(chips, ids, devs, ds, r);
      DevicesRoundTrip(chips, ids, devs + [r], ds[1..]);
    }
  }

  lemma {:induction false} RebuiltCons(devs: seq<Device>, ds: seq<Device>)
    requires ds != [] && AllSorted(ds)
    ensures devs + [RebuiltDevice(ds[0])] + RebuiltDevices(ds[1..]) == devs + RebuiltDevices(ds)
  {}

  lemma {:induction false} AllReadableCons(ds: seq<Device>)
    requires ds != []
    ensures AllReadable(ds) <==> Readable(ds[0].parts) && AllReadable(ds[1..])
  {
    assert forall i :: 0 < i < |ds| ==> ds[i] == ds[1..][i - 1];
  }

  lemma PrintDevicesCons(ds: seq<Device>)
    requires ds != []
    ensures PrintDevices(ds) == PrintDevice(ds[0]) + if |ds| == 1 then "" else ";" + PrintDevices(ds[1..])
  {}

  /** The device loop over one printed device. */
  lemma {:induction false} DevicesStep(chips: Chips, ids: seq<Id>, devs: seq<Device>, d: Device, rest: string)
    requires AllBacked(chips, ids) && GoodDevice(chips, ids, d) && Absent(devs, d) && (rest == "" || rest[0] == ';')
    ensures ParseDevices(chips, ids, devs, PrintDevice(d) + rest) ==
      if Readable(d.parts) then
        ParseDevices(chips, ids, devs + [RebuiltDevice(d)], if rest == "" then rest else rest[1..])
      else None
  {
    FindAbsent(devs, d);
    DeviceRoundTrip(chips, ids, devs, d, rest);
    assert PrintDevice(d) + rest != "";
  }

  lemma NextDevices(chips: Chips, ids: seq<Id>, devs: seq<Device>, ds: seq<Device>, r: Device)
    requires AllBacked(chips, ids) && GoodDevices(chips, ids, ds) && |ds| > 1 && r.id == ds[0].id
    requires forall i :: 0 <= i < |ds| ==> Absent(devs, ds[i])
    ensures GoodDevices(chips, ids, ds[1..])
    ensures forall i :: 0 <= i < |ds[1..]| ==> Absent(devs + [r], ds[1..][i])
  {
    forall i | 0 <= i < |ds[1..]|
      ensures Absent(devs + [r], ds[1..][i])
    {
      assert ds[1..][i] == ds[i + 1] && Absent(devs, ds[i + 1]);
    }
  }

  /** Partitions at one offset that are the same in both orders. */
  predicate Symmetric(ps: seq<Part>)
    requires Sorted(ps)
  {
    forall i :: 0 <= i < |ps| ==> SamePart(ps[Mirror(ps, i)], ps[i])
  }

  predicate AllSymmetric(ds: seq<Device>)
    requires AllSorted(ds)
  {
    forall i :: 0 <= i < |ds| ==> Symmetric(ds[i].parts)
  }

  predicate AllDistinct(ds: seq<Device>) { forall i :: 0 <= i < |ds| ==> DistinctOffsets(ds[i].parts) }

  lemma DistinctSymmetric(ds: seq<Device>)
    requires AllSorted(ds) && AllDistinct(ds)
    ensures AllSymmetric(ds)
  {
    forall i, j | 0 <= i < |ds| && 0 <= j < |ds[i].parts|
      ensures Mirror(ds[i].parts, j) == j
    {
      assert DistinctOffsets(ds[i].parts);
    }
  }

  lemma SymmetricFlip(ps: seq<Part>, qs: seq<Part>)
    requires Sorted(ps) && SameParts(qs, Flip(ps))
    ensures SameParts(qs, ps) <==> Symmetric(ps)
  {
    forall i | 0 <= i < |ps|
      ensures SamePart(qs[i], ps[i]) <==> SamePart(ps[Mirror(ps, i)], ps[i])
    {
      FlipAt(ps, i);
      assert SamePart(qs[i], Flip(ps)[i]);
    }
  }

  lemma SymmetricDevices(ds: seq<Device>, es: seq<Device>)
    requires AllSorted(ds) && SameDevices(es, FlipDevices(ds))
    ensures SameDevices(es, ds) <==> AllSymmetric(ds)
  {
    forall i | 0 <= i < |ds|
      ensures es[i].id == ds[i].id && (SameParts(es[i].parts, ds[i].parts) <==> Symmetric(ds[i].parts))
    {
      SymmetricFlip(ds[i].parts, es[i].parts);
    }
  }

  /** Printing then parsing, on every table of validated devices and up to generated names,
      reverses the order of partitions at one offset and changes nothing else; so it is the
      identity exactly when those are alike, and always when all offsets differ. It fails exactly when a partition is smaller than
      a definition may be, or one of the size that doubles as '-' is followed by another. */
  lemma {:induction false} MtdpartsRoundTrip(chips: Chips, ids: seq<Id>, ds: seq<Device>)
    requires AllBacked(chips, ids) && GoodDevices(chips, ids, ds) && ds != []
    ensures ParseMtdparts(chips, ids, Generate(ds)).Some? <==> AllReadable(ds)
    ensures AllSorted(ds)
    ensures AllReadable(ds) ==> SameDevices(ParseMtdparts(chips, ids, Generate(ds)).value, FlipDevices(ds))
    ensures AllReadable(ds) ==> (SameDevices(ParseMtdparts(chips, ids, Generate(ds)).value, ds) <==> AllSymmetric(ds))
    ensures AllReadable(ds) && AllDistinct(ds) ==> SameDevices(ParseMtdparts(chips, ids, Generate(ds)).value, ds)
  {
    GenerateText(ds);
    DevicesRoundTrip(chips, ids, [], ds);
    if AllReadable(ds) {
      var es := ParseMtdparts(chips, ids, Generate(ds)).value;
      assert es == [] + RebuiltDevices(ds) == RebuiltDevices(ds);
      RebuiltSame(ds);
      SymmetricDevices(ds, es);
      if AllDistinct(ds) {
        DistinctSymmetric(ds);
      }
    }
  }

  lemma GenerateText(ds: seq<Device>)
    requires ds != []
    ensures var s := Generate(ds); |s| > 9 && s[..9] == PREFIX && s[9..] == PrintDevices(ds)
  {
    assert PrintDevices(ds) != "";
  }

  /** A table that fails: a bank with a sector of 2048 bytes, and a partition of just that. It
      is accepted and printed, and the text is refused. */
  lemma {:induction false} SmallPartExample()
    ensures var chips := Chips([Flash.Bank(true, [0, 2048, 8192], 16384)], []);
      var id := Id("nor0", true, 0, 16384);
      var ds := [Device(id, [Part(2048, 0, "a", false, false)])];
      AllBacked(chips, [id]) && GoodDevices(chips, [id], ds) && ParseMtdparts(chips, [id], Generate(ds)) == None
  {
    var chips := Chips([Flash.Bank(true, [0, 2048, 8192], 16384)], []);
    var id := Id("nor0", true, 0, 16384);
    var p := Part(2048, 0, "a", false, false);
    var ds := [Device(id, [p])];
    SmallPartGood(chips, id, p);
    assert !Readable(ds[0].parts) by { assert ds[0].parts[0].size < MIN_PART_SIZE; }
    MtdpartsRoundTrip(chips, [id], ds);
  }

  lemma SmallPartGood(chips: Chips, id: Id, p: Part)
    requires chips == Chips([Flash.Bank(true, [0, 2048, 8192], 16384)], [])
    requires id == Id("nor0", true, 0, 16384) && p == Part(2048, 0, "a", false, false)
    ensures AllBacked(chips, [id]) && GoodDevices(chips, [id], [Device(id, [p])])
  {
    var b := chips.nor[0];
    assert b.start[0] == 0 && b.start[1] == 2048;
    assert OnSector(b, 0) && OnSector(b, 2048);
    assert FindId([id], id.mtdId) == Some(id);
  }

  /** Two partitions at one offset come back in the other order. */
  lemma {:induction false} TieExample()
    ensures var chips, id := Chips([], [4096]), Id("nand0", false, 0, 65536);
      var ds := [Device(id, [Part(4096, 4096, "a", false, false), Part(8192, 4096, "b", false, false)])];
      && AllBacked(chips, [id]) && GoodDevices(chips, [id], ds)
      && var again := ParseMtdparts(chips, [id], Generate(ds)); again.Some? && !SameDevices(again.value, ds)
  {
    var chips, id := Chips([], [4096]), Id("nand0", false, 0, 65536);
    var a, b := Part(4096, 4096, "a", false, false), Part(8192, 4096, "b", false, false);
    var ds := [Device(id, [a, b])];
    TieGood(chips, id, a, b);
    MtdpartsRoundTrip(chips, [id], ds);
    TieMirror(ds[0].parts);
    assert !Symmetric(ds[0].parts);
  }

  lemma TieGood(chips: Chips, id: Id, a: Part, b: Part)
    requires chips == Chips([], [4096]) && id == Id("nand0", false, 0, 65536)
    requires a == Part(4096, 4096, "a", false, false) && b == Part(8192, 4096, "b", false, false)
    ensures AllBacked(chips, [id]) && GoodDevices(chips, [id], [Device(id, [a, b])])
    ensures AllReadable([Device(id, [a, b])])
  {
    assert FindId([id], id.mtdId) == Some(id);
    assert GoodPart(chips, id, a) && GoodPart(chips, id, b);
  }

  lemma TieMirror(ps: seq<Part>)
    requires |ps| == 2 && ps[0].offset == ps[1].offset && Sorted(ps)
    ensures Mirror(ps, 0) == 1
  {}
}
