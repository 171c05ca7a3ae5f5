/** Partition definitions of common/cmd_jffs2.c: validation, the text of a partition, a
    device and the whole mtdparts string, and the parser that reads it back. */
module MtdParts {
  import opened Wrappers
  import opened Memsize
  import Flash

  const SIZE_REMAINING := 0xFFFFFFFF
  const OFFSET_NOT_SPECIFIED := 0xFFFFFFFF
  const MIN_PART_SIZE := 4096

  datatype Part = Part(size: nat, offset: nat, name: string, autoName: bool, ro: bool)

  /** An entry of mtdids: the kernel's name of a device, its kind, number and size. */
  datatype Id = Id(mtdId: string, nor: bool, num: nat, size: nat)

  /** The chips behind the ids: flash_info[], and the erase size of every NAND device. */
  datatype Chips = Chips(nor: seq<Flash.Bank>, nand: seq<nat>)

  datatype Device = Device(id: Id, parts: seq<Part>)

  /** The id names a chip that exists, with its size (device_validate). */
  predicate Backed(chips: Chips, id: Id) {
    && id.size < W
    && if id.nor then id.num < |chips.nor| && chips.nor[id.num].start != [] && chips.nor[id.num].size == id.size
       else id.num < |chips.nand| && chips.nand[id.num] > 0
  }

  // ---------------------------------------------------------------- validation

  function Add32(a: nat, b: nat): nat { (a + b) % W }

  /** A size of '-' means all space from the offset on. */
  function Resolved(id: Id, p: Part): Part {
    if p.size == SIZE_REMAINING then p.(size := (id.size - p.offset) % W) else p
  }

  predicate InRange(id: Id, p: Part) {
    p.offset <= id.size && p.offset < Add32(p.offset, p.size) <= id.size
  }

  /** The offset lies on the start of a sector. */
  predicate OnSector(b: Flash.Bank, a: nat) {
    exists i :: 0 <= i < |b.start| && (b.start[i] - b.start[0]) % W == a
  }

  predicate Aligned(chips: Chips, id: Id, p: Part)
    requires Backed(chips, id)
  {
    if id.nor then
      var b, end := chips.nor[id.num], Add32(p.offset, p.size);
      OnSector(b, p.offset) && (OnSector(b, end) || b.size == end)
    else
      p.offset % chips.nand[id.num] == 0 && p.size % chips.nand[id.num] == 0
  }

  /** part_validate: the accepted partition with its final size. */
  function Validate(chips: Chips, id: Id, p: Part): Option<Part>
    requires Backed(chips, id)
  {
    var q := Resolved(id, p);
    if InRange(id, q) && Aligned(chips, id, q) then Some(q) else None
  }

  /** An accepted partition lies in its device, without 32-bit wrap-around. */
  lemma ValidateRange(chips: Chips, id: Id, p: Part)
    requires Backed(chips, id) && p.size < W && p.offset < W
    ensures Validate(chips, id, p).Some? ==>
      var q := Validate(chips, id, p).value;
      && q.offset == p.offset < q.offset + q.size <= id.size
      && (p.size == SIZE_REMAINING ==> q.offset + q.size == id.size)
      && (p.size != SIZE_REMAINING ==> q == p)
      && Validate(chips, id, q) == Some(q)
  {
    var q := Resolved(id, p);
    if q.offset + q.size >= W {
      assert Add32(q.offset, q.size) == q.offset + q.size - W;
    }
  }

  // ---------------------------------------------------------------- parsing

  /** Index of the first c in s, or |s|. */
  function IndexOf(s: string, c: char): (k: nat)
    ensures k <= |s| && c !in s[..k] && (k < |s| ==> s[k] == c)
  {
    if s == "" || s[0] == c then 0 else
      var k := IndexOf(s[1..], c) + 1;
      assert s[..k] == [s[0]] + s[1..][..k - 1];
      k
  }

  function HexDigit(d: nat): char
    requires d < 16
  {
    if d < 10 then '0' + d as char else 'a' + (d - 10) as char
  }

  function Hex(n: nat, width: nat): string
  {
    if width == 0 then "" else Hex(n / 16, width - 1) + [HexDigit(n % 16)]
  }

  function AutoName(size: nat, offset: nat): string { "0x" + Hex(size, 8) + "@0x" + Hex(offset, 8) }

  /** Size field of a partition definition. */
  function ParseSize(s: string): (r: Option<(nat, string)>)
    ensures r.Some? ==> |r.value.1| < |s|
  {
    if StartsWith(s, '-') then Some((SIZE_REMAINING, s[1..]))
    else
      var (size, t) := MemsizeParse(s);
      if size < MIN_PART_SIZE then None else Some((size, t))
  }

  function ParseOffset(s: string): (r: (nat, string))
    ensures |r.1| <= |s|
  {
    if StartsWith(s, '@') then MemsizeParse(s[1..]) else (OFFSET_NOT_SPECIFIED, s)
  }

  /** Name field: None is an error, an absent name is Some(("", s)). */
  function ParseName(s: string): (r: Option<(string, string)>)
    ensures r.Some? ==> |r.value.1| <= |s|
  {
    if StartsWith(s, '(') then
      var t := s[1..];
      var k := IndexOf(t, ')');
      if k == |t| || k == 0 then None else Some((t[..k], t[k + 1..]))
    else Some(("", s))
  }

  function ParseRo(s: string): (r: (bool, string))
    ensures |r.1| <= |s|
  {
    if |s| >= 2 && s[..2] == "ro" then (true, s[2..]) else (false, s)
  }

  /** part_parse: one definition and the text where the next one starts. */
  function PartParse(s: string): (r: Option<(Part, string)>)
    ensures r.Some? ==> |r.value.1| < |s|
  {
    match ParseSize(s)
    case None => None
    case Some((size, s1)) =>
      var (offset, s2) := ParseOffset(s1);
      match ParseName(s2)
      case None => None
      case Some((name, s3)) =>
        var (ro, s4) := ParseRo(s3);
        var p := Part(size, offset, if name == "" then AutoName(size, offset) else name, name == "", ro);
        if StartsWith(s4, ',') then
          if size == SIZE_REMAINING then None else Some((p, s4[1..]))
        else if s4 == "" || s4[0] == ';' then Some((p, s4))
        else None
  }

  /** The partition loop of device_parse: offset is where a definition without one goes. */
  function ParseParts(chips: Chips, id: Id, s: string, offset: nat): (r: Option<(seq<Part>, string)>)
    requires Backed(chips, id)
    ensures r.Some? ==> |r.value.1| <= |s| && (r.value.1 == "" || r.value.1[0] == ';')
    decreases |s|
  {
    if s == "" || s[0] == ';' then Some(([], s))
    else
      match PartParse(s)
      case None => None
      case Some((p, t)) =>
        match Validate(chips, id, if p.offset == OFFSET_NOT_SPECIFIED then p.(offset := offset) else p)
        case None => None
        case Some(q) =>
          match ParseParts(chips, id, t, Add32(q.offset, q.size))
          case None => None
          case Some((qs, u)) => Some(([q] + qs, u))
  }

  /** part_sort_add on the list of a device; None when it would be a second partition at
      offset zero. */
  function SortAdd(parts: seq<Part>, p: Part): Option<seq<Part>> {
    if parts == [] then Some([p])
    else if p.offset == parts[0].offset == 0 then None
    else if p.offset <= parts[0].offset then Some([p] + parts)
    else
      match SortAdd(parts[1..], p)
      case None => None
      case Some(ps) => Some([parts[0]] + ps)
  }

  function SortAddAll(parts: seq<Part>, ps: seq<Part>): Option<seq<Part>>
    decreases |ps|
  {
    if ps == [] then Some(parts)
    else
      match SortAdd(parts, ps[0])
      case None => None
      case Some(qs) => SortAddAll(qs, ps[1..])
  }

  /** id_find_by_mtd_id. */
  function FindId(ids: seq<Id>, mtdId: string): Option<Id> {
    if ids == [] then None else if ids[0].mtdId == mtdId then Some(ids[0]) else FindId(ids[1..], mtdId)
  }

  /** device_find. */
  function FindDevice(devs: seq<Device>, nor: bool, num: nat): Option<Device> {
    if devs == [] then None
    else if devs[0].id.nor == nor && devs[0].id.num == num then Some(devs[0])
    else FindDevice(devs[1..], nor, num)
  }

  predicate AllBacked(chips: Chips, ids: seq<Id>) { forall i :: 0 <= i < |ids| ==> Backed(chips, ids[i]) }

  lemma FindIdBacked(chips: Chips, ids: seq<Id>, mtdId: string)
    requires AllBacked(chips, ids)
    ensures FindId(ids, mtdId).Some? ==> Backed(chips, FindId(ids, mtdId).value)
  {}

  /** Where the first definition without an offset goes. */
  function StartOffset(devs: seq<Device>, id: Id): nat {
    match FindDevice(devs, id.nor, id.num)
    case None => 0
    case Some(d) => if d.parts == [] then 0 else Add32(d.parts[|d.parts| - 1].offset, d.parts[|d.parts| - 1].size)
  }

  /** device_parse: one device and the text where the next one starts. */
  function DeviceParse(chips: Chips, ids: seq<Id>, devs: seq<Device>, s: string): (r: Option<(Device, string)>)
    requires AllBacked(chips, ids)
    ensures r.Some? ==> |r.value.1| < |s|
  {
    var k := IndexOf(s, ':');
    if k == |s| then None else DeviceOf(chips, ids, devs, s[..k], s[k + 1..])
  }

  /** The device with that name, and the text of its partitions. */
  function DeviceOf(chips: Chips, ids: seq<Id>, devs: seq<Device>, mtdId: string, text: string): (r: Option<(Device, string)>)
    requires AllBacked(chips, ids)
    ensures r.Some? ==> |r.value.1| <= |text|
  {
    match FindId(ids, mtdId)
    case None => None
    case Some(id) =>
      FindIdBacked(chips, ids, mtdId);
      FinishDevice(id, ParseParts(chips, id, text, StartOffset(devs, id)))
  }

  /** The partitions that were read become the sorted list of the device. */
  function FinishDevice(id: Id, parts: Option<(seq<Part>, string)>): (r: Option<(Device, string)>)
    ensures r.Some? ==> parts.Some? && |r.value.1| <= |parts.value.1|
  {
    match parts
    case None => None
    case Some((ps, t)) =>
      if ps == [] then None
      else
        match SortAddAll([], ps)
        case None => None
        case Some(qs) => Some((Device(id, qs), if t == "" then t else t[1..]))
  }

  /** The device loop of parse_mtdparts. */
  function ParseDevices(chips: Chips, ids: seq<Id>, devs: seq<Device>, s: string): Option<seq<Device>>
    requires AllBacked(chips, ids)
    decreases |s|
  {
    if s == "" then Some(devs)
    else
      match DeviceParse(chips, ids, devs, s)
      case None => None
      case Some((d, t)) =>
        if FindDevice(devs, d.id.nor, d.id.num).Some? then None
        else ParseDevices(chips, ids, devs + [d], t)
  }

  const PREFIX := "mtdparts="

  /** parse_mtdparts: the new device list, or None when the list is left empty. */
  function ParseMtdparts(chips: Chips, ids: seq<Id>, s: string): Option<seq<Device>>
    requires AllBacked(chips, ids)
  {
    if |s| <= 9 || s[..9] != PREFIX then None else ParseDevices(chips, ids, [], s[9..])
  }
}
