/** The text loops of common/cmd_jffs2.c: generate_mtdparts, device_parse and
    parse_mtdparts, proved against the functions that describe their text. */
module MtdCode {
  import opened Wrappers
  import opened Memsize
  import opened MtdParts
  import opened MtdRoundTrip
  import opened MtdTable

  /** One definition; prevEnd is the end of the partition before it, if any. */
  method WritePart(p: Part, prevEnd: Option<nat>) returns (t: string)
    ensures t == PrintPart(p, if prevEnd.Some? then prevEnd.value else 0)
  {
    t := MemsizeFormat(p.size);
    if (prevEnd.None? && p.offset != 0) || (prevEnd.Some? && prevEnd.value != p.offset) {
      t := t + "@" + MemsizeFormat(p.offset);
    }
    if !p.autoName {
      t := t + "(" + p.name + ")";
    }
    if p.ro {
      t := t + "ro";
    }
    PartTextIs(p, if prevEnd.Some? then prevEnd.value else 0, t);
  }

  /** The partition loop of generate_mtdparts. */
  method WriteParts(buf0: string, ps: seq<Part>, numParts: nat) returns (buf: string)
    requires numParts == |ps|
    ensures buf == buf0 + PrintParts(ps, 0)
  {
    buf := buf0;
    var prevEnd: Option<nat> := None;
    ghost var expected := 0;
    assert ps[0..] == ps;
    for j := 0 to |ps|
      invariant expected == if prevEnd.Some? then prevEnd.value else 0
      invariant buf + PrintParts(ps[j..], expected) == buf0 + PrintParts(ps, 0)
    {
      var t := WritePart(ps[j], prevEnd);
      if numParts > j + 1 {
        t := t + ",";
      }
      PartsFrom(ps, j, expected, buf, t);
      buf := buf + t;
      prevEnd := Some(Add32(ps[j].offset, ps[j].size));
      expected := Add32(ps[j].offset, ps[j].size);
    }
    assert buf + "" == buf;
  }

  lemma PartTextIs(p: Part, expected: nat, t: string)
    requires t == (if p.offset == expected then MemsizeFormat(p.size) else MemsizeFormat(p.size) + "@" + MemsizeFormat(p.offset))
                  + (if p.autoName then "" else "(" + p.name + ")") + (if p.ro then "ro" else "")
    ensures t == PrintPart(p, expected)
  {}

  lemma PartsFrom(ps: seq<Part>, j: nat, expected: nat, buf: string, t: string)
    requires j < |ps| && t == PrintPart(ps[j], expected) + if j + 1 < |ps| then "," else ""
    ensures buf + t + PrintParts(ps[j + 1..], Add32(ps[j].offset, ps[j].size)) == buf + PrintParts(ps[j..], expected)
  {
    var rest := PrintParts(ps[j + 1..], Add32(ps[j].offset, ps[j].size));
    assert ps[j..][0] == ps[j] && ps[j..][1..] == ps[j + 1..];
    PrintFirst(ps[j..], expected);
    Join(buf, t, rest);
  }

  lemma PrintFirst(ps: seq<Part>, expected: nat)
    requires ps != []
    ensures PrintParts(ps, expected) ==
      (PrintPart(ps[0], expected) + if |ps| > 1 then "," else "") + PrintParts(ps[1..], Add32(ps[0].offset, ps[0].size))
  {
    if |ps| == 1 {
      assert PrintPart(ps[0], expected) + "" + "" == PrintPart(ps[0], expected);
    }
  }

  lemma Join(a: string, b: string, c: string)
    ensures (a + b) + c == a + (b + c)
  {}

  /** generate_mtdparts, on its success path. */
  method WriteMtdparts(ds: seq<Device>, numParts: seq<nat>) returns (buf: string)
    requires |numParts| == |ds| && forall i :: 0 <= i < |ds| ==> numParts[i] == |ds[i].parts|
    ensures buf == Generate(ds)
  {
    if ds == [] {
      return "";
    }
    buf := PREFIX;
    assert ds[0..] == ds;
    for i := 0 to |ds|
      invariant buf + PrintDevices(ds[i..]) == PREFIX + PrintDevices(ds)
    {
      DevicesFrom(ds, i, buf);
      buf := buf + ds[i].id.mtdId + ":";
      buf := WriteParts(buf, ds[i].parts, numParts[i]);
      if i + 1 < |ds| {
        buf := buf + ";";
      }
    }
    assert buf + "" == buf;
  }

  lemma DevicesFrom(ds: seq<Device>, i: nat, buf: string)
    requires i < |ds|
    ensures buf + PrintDevices(ds[i..]) ==
      buf + ds[i].id.mtdId + ":" + PrintParts(ds[i].parts, 0) + (if i + 1 < |ds| then ";" else "") + PrintDevices(ds[i + 1..])
  {
    var id, parts, sep, rest := ds[i].id.mtdId, PrintParts(ds[i].parts, 0), if i + 1 < |ds| then ";" else "", PrintDevices(ds[i + 1..]);
    assert ds[i..][0] == ds[i] && ds[i..][1..] == ds[i + 1..];
    PrintDevicesCons(ds[i..]);
    if i + 1 < |ds| {
      FourTexts(buf, id, parts, sep, rest);
    } else {
      FourTexts(buf, id, parts, "", "");
    }
  }

  lemma FourTexts(a: string, b: string, c: string, d: string, e: string)
    ensures a + b + ":" + c + d + e == a + (b + ":" + c + (d + e))
  {}

  function Prepend(ps: seq<Part>, r: Option<(seq<Part>, string)>): Option<(seq<Part>, string)> {
    match r
    case None => None
    case Some((qs, t)) => Some((ps + qs, t))
  }

  /** The partition loop of device_parse. */
  method ReadParts(chips: Chips, id: Id, s: string, start: nat) returns (r: Option<(seq<Part>, string)>)
    requires Backed(chips, id)
    ensures r == ParseParts(chips, id, s, start)
  {
    var p, offset := s, start;
    var tmpList: seq<Part> := [];
    ghost var goal := ParseParts(chips, id, s, start);
    PrependNothing(goal);
    while p != "" && p[0] != ';'
      invariant goal == Prepend(tmpList, ParseParts(chips, id, p, offset))
      decreases |p|
    {
      var parsed := PartParse(p);
      if parsed.None? {
        return None;
      }
      var (part, rest) := parsed.value;
      if part.offset == OFFSET_NOT_SPECIFIED {
        part := part.(offset := offset);
      } else {
        offset := part.offset;
      }
      var valid := PartValidate(chips, id, part);
      if valid.None? {
        return None;
      }
      part := valid.value;
      PrependMore(tmpList, part, ParseParts(chips, id, rest, Add32(part.offset, part.size)));
      offset := Add32(part.offset, part.size);
      tmpList := tmpList + [part];
      p := rest;
    }
    assert tmpList + [] == tmpList;
    return Some((tmpList, p));
  }

  lemma PrependNothing(r: Option<(seq<Part>, string)>)
    ensures Prepend([], r) == r
  {
    if r.Some? {
      assert [] + r.value.0 == r.value.0;
    }
  }

  lemma PrependMore(ps: seq<Part>, p: Part, r: Option<(seq<Part>, string)>)
    ensures Prepend(ps, Prepend([p], r)) == Prepend(ps + [p], r)
  {
    if r.Some? {
      assert ps + ([p] + r.value.0) == ps + [p] + r.value.0;
    }
  }

  /** The list part_sort_add builds from partitions in any order. */
  method SortAll(ps: seq<Part>) returns (r: Option<seq<Part>>)
    ensures r == SortAddAll([], ps)
  {
    var list: seq<Part> := [];
    assert ps[0..] == ps;
    for i := 0 to |ps|
      invariant SortAddAll([], ps) == SortAddAll(list, ps[i..])
    {
      assert ps[i..][0] == ps[i] && ps[i..][1..] == ps[i + 1..];
      var next := SortAdd(list, ps[i]);
      if next.None? {
        return None;
      }
      list := next.value;
    }
    return Some(list);
  }

  /** device_parse. */
  method ReadDevice(chips: Chips, ids: seq<Id>, devs: seq<Device>, s: string) returns (r: Option<(Device, string)>)
    requires AllBacked(chips, ids)
    ensures r == DeviceParse(chips, ids, devs, s)
  {
    var k := IndexOf(s, ':');
    if k == |s| {
      return None;
    }
    r := ReadDeviceOf(chips, ids, devs, s[..k], s[k + 1..]);
  }

  /** Its part behind the search for the colon. */
  method ReadDeviceOf(chips: Chips, ids: seq<Id>, devs: seq<Device>, mtdId: string, text: string) returns (r: Option<(Device, string)>)
    requires AllBacked(chips, ids)
    ensures r == DeviceOf(chips, ids, devs, mtdId, text)
  {
    var found := FindId(ids, mtdId);
    if found.None? {
      return None;
    }
    FindIdBacked(chips, ids, mtdId);
    var parts := ReadParts(chips, found.value, text, StartOffset(devs, found.value));
    r := SortDevice(found.value, parts);
  }

  /** The end of device_parse: the partitions are linked in order. */
  method SortDevice(id: Id, parts: Option<(seq<Part>, string)>) returns (r: Option<(Device, string)>)
    ensures r == FinishDevice(id, parts)
  {
    if parts.None? || parts.value.0 == [] {
      return None;
    }
    var (ps, t) := parts.value;
    var sorted := SortAll(ps);
    if sorted.None? {
      return None;
    }
    return Some((Device(id, sorted.value), if t == "" then t else t[1..]));
  }

  /** parse_mtdparts. */
  method ReadMtdparts(chips: Chips, ids: seq<Id>, s: string) returns (r: Option<seq<Device>>)
    requires AllBacked(chips, ids)
    ensures r == ParseMtdparts(chips, ids, s)
  {
    if |s| < 9 || s[..9] != PREFIX {
      return None;
    }
    var p, err := s[9..], true;
    var devices: seq<Device> := [];
    while p != ""
      invariant ParseDevices(chips, ids, [], s[9..]) == ParseDevices(chips, ids, devices, p)
      invariant err <==> p == s[9..] && devices == []
      decreases |p|
    {
      var parsed := ReadDevice(chips, ids, devices, p);
      if parsed.None? {
        return None;
      }
      var (dev, rest) := parsed.value;
      if FindDevice(devices, dev.id.nor, dev.id.num).Some? {
        return None;
      }
      devices := devices + [dev];
      p := rest;
      err := false;
    }
    if err {
      return None;
    }
    return Some(devices);
  }
}
