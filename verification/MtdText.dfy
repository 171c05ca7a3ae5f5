/** Definitions that are written but never printed: sizes of '-', and what the name of a
    partition without one says. */
module MtdText {
  import opened Wrappers
  import opened Memsize
  import opened MtdParts
  import opened MtdOrder
  import opened MtdRoundTrip

  /** The size '-' stands for all that is left, wherever the definition goes; no other
      definition may follow, and no other size is below 4096. */
  lemma FillSize(s: string)
    requires s != ""
    ensures s[0] == '-' && PartParse(s).Some? ==>
      var (p, t) := PartParse(s).value; p.size == 0xFFFF_FFFF && (t == "" || t[0] == ';')
    ensures s[0] != '-' && PartParse(s).Some? ==> PartParse(s).value.0.size >= 4096
  {}

  /** The text t is a number n, in decimal, octal or hexadecimal, with a suffix or none, and
      stands for v bytes. */
  predicate Written(t: string, x: string, n: nat, v: nat) {
    NumberText(x, n) && n < W &&
    ((t == x && v == n)
     || ((t == x + ['k'] || t == x + ['K']) && v == n * 1024 % 0x1_0000_0000)
     || ((t == x + ['m'] || t == x + ['M']) && v == n * 1048576 % 0x1_0000_0000)
     || ((t == x + ['g'] || t == x + ['G']) && v == n * 1073741824 % 0x1_0000_0000))
  }

  lemma {:induction false} WrittenRead(t: string, x: string, n: nat, v: nat, rest: string)
    requires Written(t, x, n, v) && rest != "" && (rest[0] == '@' || rest[0] == '(')
    ensures MemsizeParse(t + rest) == (v, rest) && t != "" && IsDigit(t[0])
  {
    NumberHead(x, n);
    if t == x {
      SizeText(x, n, ' ', rest);
    } else {
      var c := t[|x|];
      assert t == x + [c] && t + rest == x + ([c] + rest);
      SizeText(x, n, c, rest);
    }
  }

  lemma {:induction false} NumberHead(x: string, n: nat)
    requires NumberText(x, n)
    ensures x != "" && IsDigit(x[0])
  {
    DecHeadDigit(n);
  }

  /** However size and offset are written, the definition is that of their numbers. */
  lemma {:induction false} PartWritten(t: string, x: string, n: nat, size: nat, u: string, y: string, m: nat, offset: nat, name: string)
    requires Written(t, x, n, size) && Written(u, y, m, offset) && name != "" && ')' !in name
    ensures PartParse(t + ("@" + (u + ("(" + name + ")")))) ==
      if size < 4096 then None else Some((Part(size, offset, name, false, false), ""))
  {
    var q := "(" + name + ")";
    var o := "@" + (u + q);
    WrittenRead(t, x, n, size, o);
    WrittenRead(u, y, m, offset, q);
    assert o[1..] == u + q && (t + o)[0] == t[0] && q + "" == q;
    NameRead(name, "");
  }

  /** A name in parentheses, and what follows it. */
  lemma {:induction false} NameRead(name: string, t: string)
    requires name != "" && ')' !in name
    ensures ParseName("(" + name + ")" + t) == Some((name, t))
  {
    var s := "(" + name + ")" + t;
    var u := name + [')'] + t;
    assert s[1..] == u;
    IndexOfAfter(name, ')', t);
    assert u[..|name|] == name && u[|name| + 1..] == t;
  }

  /** A definition of '-' with a name ends its device. */
  lemma {:induction false} FillPart(name: string, t: string)
    requires name != "" && ')' !in name
    ensures t == "" || t[0] == ';' ==> PartParse("-(" + name + ")" + t) == Some((Part(0xFFFF_FFFF, 0xFFFF_FFFF, name, false, false), t))
    ensures t != "" && t[0] == ',' ==> PartParse("-(" + name + ")" + t) == None
  {
    var s := "-(" + name + ")" + t;
    assert s[0] == '-' && s[1..] == "(" + name + ")" + t;
    NameRead(name, t);
    if |t| >= 2 {
      assert t[..2][0] == t[0];
    }
  }

  /** There is space from the offset on, and on a NAND device it is made of whole erase blocks. */
  predicate FillFits(chips: Chips, id: Id, offset: nat)
    requires Backed(chips, id)
  {
    offset < id.size && (id.nor || (offset % chips.nand[id.num] == 0 && (id.size - offset) % chips.nand[id.num] == 0))
  }

  /** The partition that takes all space from an offset on is accepted if that fits. */
  lemma FillAccepted(chips: Chips, id: Id, offset: nat, name: string)
    requires Backed(chips, id) && offset <= id.size && (id.nor && offset < id.size ==> OnSector(chips.nor[id.num], offset))
    ensures Validate(chips, id, Part(0xFFFF_FFFF, offset, name, false, false)) ==
      if FillFits(chips, id, offset)
      then Some(Part(id.size - offset, offset, name, false, false)) else None
  {}

  lemma FirstSector(chips: Chips, id: Id)
    requires Backed(chips, id) && id.nor
    ensures OnSector(chips.nor[id.num], 0)
  {
    var b := chips.nor[id.num];
    var i := 0;
    assert 0 <= i < |b.start| && (b.start[i] - b.start[0]) % W == 0;
  }

  /** Such a definition alone, placed at an offset. */
  lemma {:induction false} FillList(chips: Chips, id: Id, offset: nat, name: string)
    requires Backed(chips, id) && offset <= id.size && (id.nor && offset < id.size ==> OnSector(chips.nor[id.num], offset))
    requires name != "" && ')' !in name
    ensures ParseParts(chips, id, "-(" + name + ")", offset) ==
      if FillFits(chips, id, offset)
      then Some(([Part(id.size - offset, offset, name, false, false)], "")) else None
  {
    var s := "-(" + name + ")";
    FillPart(name, "");
    assert s + "" == s && s[0] == '-';
    FillAccepted(chips, id, offset, name);
    LastPart(chips, id, s, Part(0xFFFF_FFFF, 0xFFFF_FFFF, name, false, false), offset);
  }

  /** The partition loop on a text of one definition without an offset. */
  lemma LastPart(chips: Chips, id: Id, s: string, p: Part, offset: nat)
    requires Backed(chips, id) && s != "" && s[0] != ';' && PartParse(s) == Some((p, "")) && p.offset == OFFSET_NOT_SPECIFIED
    ensures ParseParts(chips, id, s, offset) ==
      match Validate(chips, id, p.(offset := offset))
      case None => None
      case Some(q) => Some(([q], ""))
  {
    var none: seq<Part> := [];
    forall q: Part ensures [q] + none == [q] {}
  }

  /** A comma behind it makes the device unreadable. */
  lemma {:induction false} FillThenMore(chips: Chips, id: Id, offset: nat, name: string, more: string)
    requires Backed(chips, id) && name != "" && ')' !in name
    ensures ParseParts(chips, id, "-(" + name + ")," + more, offset) == None
  {
    FillPart(name, "," + more);
    assert "-(" + name + ")," + more == "-(" + name + ")" + ("," + more);
  }

  // ---------------------------------------------------------------- devices and tables

  /** The id and the definitions of a device. */
  lemma {:induction false} DeviceRead(chips: Chips, ids: seq<Id>, devs: seq<Device>, id: Id, text: string)
    requires AllBacked(chips, ids) && FindId(ids, id.mtdId) == Some(id) && Backed(chips, id) && ':' !in id.mtdId
    ensures DeviceParse(chips, ids, devs, id.mtdId + ":" + text) ==
      FinishDevice(id, ParseParts(chips, id, text, StartOffset(devs, id)))
  {
    var s, n := id.mtdId + ":" + text, |id.mtdId|;
    assert s == id.mtdId + [':'] + text;
    IndexOfAfter(id.mtdId, ':', text);
    assert s[..n] == id.mtdId && s[n + 1..] == text;
  }

  /** The text of one device in an empty table. */
  lemma {:induction false} OneDevice(chips: Chips, ids: seq<Id>, id: Id, text: string)
    requires AllBacked(chips, ids) && FindId(ids, id.mtdId) == Some(id) && Backed(chips, id) && ':' !in id.mtdId
    requires var r := ParseParts(chips, id, text, 0);
      r.Some? ==> r.value.1 == "" && r.value.0 != [] && Ordered(r.value.0) && DistinctOffsets(r.value.0)
    ensures var r := ParseParts(chips, id, text, 0);
      ParseMtdparts(chips, ids, "mtdparts=" + (id.mtdId + ":" + text)) ==
        if r.None? then None else Some([Device(id, r.value.0)])
  {
    DeviceRead(chips, ids, [], id, text);
    var s := id.mtdId + ":" + text;
    AfterPrefix(chips, ids, s);
    var r := ParseParts(chips, id, text, 0);
    if r.Some? {
      SortedStays(r.value.0);
      LastDevice(chips, ids, s, Device(id, r.value.0));
    }
  }

  lemma AfterPrefix(chips: Chips, ids: seq<Id>, s: string)
    requires AllBacked(chips, ids) && s != ""
    ensures ParseMtdparts(chips, ids, "mtdparts=" + s) == ParseDevices(chips, ids, [], s)
  {
    assert ("mtdparts=" + s)[..9] == "mtdparts=" && ("mtdparts=" + s)[9..] == s;
  }

  lemma LastDevice(chips: Chips, ids: seq<Id>, s: string, d: Device)
    requires AllBacked(chips, ids) && s != "" && DeviceParse(chips, ids, [], s) == Some((d, ""))
    ensures ParseDevices(chips, ids, [], s) == Some([d])
  {
    var none: seq<Device> := [];
    assert none + [d] == [d];
    assert ParseDevices(chips, ids, [d], "") == Some([d]);
  }

  lemma {:induction false} SortedStays(ps: seq<Part>)
    requires Ordered(ps) && DistinctOffsets(ps)
    ensures SortAddAll([], ps) == Some(ps)
  {
    SortAddAllFlips(ps);
    assert Flip(ps) == ps;
  }

  /** Such a definition as the only one of a device. */
  lemma {:induction false} FillAt(chips: Chips, ids: seq<Id>, devs: seq<Device>, id: Id, start: nat, name: string)
    requires AllBacked(chips, ids) && FindId(ids, id.mtdId) == Some(id) && Backed(chips, id) && ':' !in id.mtdId
    requires start == StartOffset(devs, id) <= id.size && (id.nor && start < id.size ==> OnSector(chips.nor[id.num], start))
    requires name != "" && ')' !in name
    ensures DeviceParse(chips, ids, devs, id.mtdId + ":" + ("-(" + name + ")")) ==
      if FillFits(chips, id, start) then Some((Device(id, [Part(id.size - start, start, name, false, false)]), "")) else None
  {
    DeviceRead(chips, ids, devs, id, "-(" + name + ")");
    FillList(chips, id, start, name);
    if FillFits(chips, id, start) {
      OneFinished(id, Part(id.size - start, start, name, false, false));
    }
  }

  lemma OneFinished(id: Id, p: Part)
    ensures FinishDevice(id, Some(([p], ""))) == Some((Device(id, [p]), ""))
  {
    var none: seq<Part> := [];
    assert SortAdd(none, p) == Some([p]) && [p][0] == p && [p][1..] == none;
    assert SortAddAll([p], none) == Some([p]);
  }

  /** `<id>:-(<name>)` is one partition from the start of the device to its end, if it has
      any bytes, on NAND a multiple of the erase size. */
  lemma {:induction false} FillDevice(chips: Chips, ids: seq<Id>, id: Id, name: string)
    requires AllBacked(chips, ids) && FindId(ids, id.mtdId) == Some(id) && Backed(chips, id) && ':' !in id.mtdId
    requires name != "" && ')' !in name
    ensures ParseMtdparts(chips, ids, "mtdparts=" + (id.mtdId + ":" + ("-(" + name + ")"))) ==
      if id.size > 0 && (id.nor || id.size % chips.nand[id.num] == 0)
      then Some([Device(id, [Part(id.size, 0, name, false, false)])]) else None
  {
    if id.nor {
      FirstSector(chips, id);
    }
    var s := id.mtdId + ":" + ("-(" + name + ")");
    AfterPrefix(chips, ids, s);
    FillAt(chips, ids, [], id, 0, name);
    if FillFits(chips, id, 0) {
      LastDevice(chips, ids, s, Device(id, [Part(id.size, 0, name, false, false)]));
    }
  }

  /** `<id>:-(<name>),...` is refused whatever follows. */
  lemma {:induction false} FillRefused(chips: Chips, ids: seq<Id>, id: Id, name: string, more: string)
    requires AllBacked(chips, ids) && FindId(ids, id.mtdId) == Some(id) && Backed(chips, id) && ':' !in id.mtdId
    requires name != "" && ')' !in name
    ensures ParseMtdparts(chips, ids, "mtdparts=" + (id.mtdId + ":" + ("-(" + name + ")," + more))) == None
  {
    FillThenMore(chips, id, 0, name, more);
    OneDevice(chips, ids, id, "-(" + name + ")," + more);
  }

  /** A partition of n bytes at the start, then one that takes the rest. */
  function Halves(id: Id, n: nat, a: string, b: string): seq<Part>
    requires n <= id.size
  {
    [Part(n, 0, a, false, false), Part(id.size - n, n, b, false, false)]
  }

  /** The condition under which the rest is accepted. */
  predicate RestFits(chips: Chips, id: Id, n: nat)
    requires Backed(chips, id) && n <= id.size
  {
    n < id.size && (id.nor || (id.size - n) % chips.nand[id.num] == 0)
  }

  /** `<size>(<a>),-(<b>)` is a partition at the start of the device and one from its end to
      the end of the device, if the first is accepted and the rest is. */
  lemma {:induction false} SizeThenFill(chips: Chips, id: Id, n: nat, a: string, b: string)
    requires Backed(chips, id) && 4096 <= n < 0xFFFF_FFFF && a != "" && ')' !in a && b != "" && ')' !in b
    requires Validate(chips, id, Part(n, 0, a, false, false)) == Some(Part(n, 0, a, false, false))
    ensures n <= id.size
    ensures ParseParts(chips, id, MemsizeFormat(n) + "(" + a + ")" + ("," + ("-(" + b + ")")), 0) ==
      if RestFits(chips, id, n) then Some((Halves(id, n, a, b), "")) else None
  {
    var p, fill := Part(n, 0, a, false, false), "-(" + b + ")";
    ValidateRange(chips, id, p);
    FirstRead(chips, id, p, fill);
    NorSector(chips, id, p);
    FillList(chips, id, n, b);
    if RestFits(chips, id, n) {
      assert [p] + [Part(id.size - n, n, b, false, false)] == Halves(id, n, a, b);
    }
  }

  lemma {:induction false} FirstRead(chips: Chips, id: Id, p: Part, rest: string)
    requires Backed(chips, id) && !p.autoName && p.name != "" && ')' !in p.name && !p.ro && p.offset == 0
    requires 4096 <= p.size < 0xFFFF_FFFF && Validate(chips, id, p) == Some(p)
    ensures ParseParts(chips, id, MemsizeFormat(p.size) + "(" + p.name + ")" + ("," + rest), 0) ==
      Cons(p, ParseParts(chips, id, rest, p.size))
  {
    var t := "," + rest;
    calc {
      ParseParts(chips, id, MemsizeFormat(p.size) + "(" + p.name + ")" + t, 0);
      { FirstText(p, t); }
      ParseParts(chips, id, PrintPart(p, 0) + t, 0);
      { PartsStep(chips, id, p, 0, t); FirstSame(p); assert t[0] == ',' && t[1..] == rest; }
      Cons(p, ParseParts(chips, id, rest, p.size));
    }
  }

  lemma FirstSame(p: Part)
    requires !p.autoName && p.offset == 0 && p.size < W
    ensures Rebuilt(p, 0) == p && Add32(p.offset, p.size) == p.size
  {}

  lemma FirstText(p: Part, rest: string)
    requires !p.autoName && !p.ro && p.offset == 0
    ensures PrintPart(p, 0) + rest == MemsizeFormat(p.size) + "(" + p.name + ")" + rest
  {}

  /** An accepted partition ends at a sector or at the end of the device, and on a multiple of
      the erase size. */
  lemma NorSector(chips: Chips, id: Id, p: Part)
    requires Backed(chips, id) && p.offset == 0 && p.size < W && Validate(chips, id, p) == Some(p)
    ensures id.nor ==> p.size == id.size || OnSector(chips.nor[id.num], p.size)
    ensures !id.nor ==> p.size % chips.nand[id.num] == 0
  {}

  /** The same as a table of one device. */
  lemma {:induction false} SizeThenFillDevice(chips: Chips, ids: seq<Id>, id: Id, n: nat, a: string, b: string)
    requires AllBacked(chips, ids) && FindId(ids, id.mtdId) == Some(id) && Backed(chips, id) && ':' !in id.mtdId
    requires 4096 <= n < 0xFFFF_FFFF && a != "" && ')' !in a && b != "" && ')' !in b
    requires Validate(chips, id, Part(n, 0, a, false, false)) == Some(Part(n, 0, a, false, false))
    ensures n <= id.size
    ensures ParseMtdparts(chips, ids, "mtdparts=" + (id.mtdId + ":" + (MemsizeFormat(n) + "(" + a + ")" + ("," + ("-(" + b + ")"))))) ==
      if RestFits(chips, id, n) then Some([Device(id, Halves(id, n, a, b))]) else None
  {
    SizeThenFill(chips, id, n, a, b);
    OneDevice(chips, ids, id, MemsizeFormat(n) + "(" + a + ")" + ("," + ("-(" + b + ")")));
  }

  /** When the table already has the device, a definition without an offset goes behind its last
      partition. */
  lemma {:induction false} FillBehind(chips: Chips, ids: seq<Id>, devs: seq<Device>, d: Device, q: Part, name: string)
    requires AllBacked(chips, ids) && FindId(ids, d.id.mtdId) == Some(d.id) && Backed(chips, d.id) && ':' !in d.id.mtdId
    requires d in devs && forall e :: e in devs && e.id.nor == d.id.nor && e.id.num == d.id.num ==> e == d
    requires d.parts != [] && q == d.parts[|d.parts| - 1] && q.size < W && Validate(chips, d.id, q) == Some(q)
    requires name != "" && ')' !in name
    ensures var end := q.offset + q.size;
      && end <= d.id.size
      && DeviceParse(chips, ids, devs, d.id.mtdId + ":" + ("-(" + name + ")")) ==
           if FillFits(chips, d.id, end) then Some((Device(d.id, [Part(d.id.size - end, end, name, false, false)]), "")) else None
  {
    StartBehind(chips, devs, d, q);
    LastSector(chips, d.id, q);
    FillAt(chips, ids, devs, d.id, q.offset + q.size, name);
  }

  lemma {:induction false} StartBehind(chips: Chips, devs: seq<Device>, d: Device, q: Part)
    requires Backed(chips, d.id)
    requires d in devs && forall e :: e in devs && e.id.nor == d.id.nor && e.id.num == d.id.num ==> e == d
    requires d.parts != [] && q == d.parts[|d.parts| - 1] && q.size < W && Validate(chips, d.id, q) == Some(q)
    ensures StartOffset(devs, d.id) == q.offset + q.size <= d.id.size
  {
    ValidateRange(chips, d.id, q);
    FoundDevice(devs, d);
  }

  lemma LastSector(chips: Chips, id: Id, q: Part)
    requires Backed(chips, id) && q.size < W && q.offset + q.size <= id.size && Validate(chips, id, q) == Some(q)
    ensures id.nor && q.offset + q.size < id.size ==> OnSector(chips.nor[id.num], q.offset + q.size)
  {}

  lemma {:induction false} FoundDevice(devs: seq<Device>, d: Device)
    requires d in devs && forall e :: e in devs && e.id.nor == d.id.nor && e.id.num == d.id.num ==> e == d
    ensures FindDevice(devs, d.id.nor, d.id.num) == Some(d)
  {
    assert devs[0] in devs;
    if devs[0] != d {
      assert forall e :: e in devs[1..] ==> e in devs;
      FoundDevice(devs[1..], d);
    }
  }

  // ---------------------------------------------------------------- names that are made up

  function Power16(w: nat): nat { if w == 0 then 1 else 16 * Power16(w - 1) }

  lemma {:induction false} HexScan(n: nat, w: nat, rest: string)
    requires n < Power16(w) && n < W
    ensures |Hex(n, w)| == w && Scan(Hex(n, w) + rest, 16, 0) == Scan(rest, 16, n)
    decreases w
  {
    if w == 0 {
      assert "" + rest == rest;
    } else {
      HexScan(n / 16, w - 1, [HexDigit(n % 16)] + rest);
      HexStep(n / 16, n % 16, rest);
      HexText(n, w, rest);
    }
  }

  lemma HexText(n: nat, w: nat, rest: string)
    requires w > 0
    ensures Hex(n, w) + rest == Hex(n / 16, w - 1) + ([HexDigit(n % 16)] + rest)
  {}

  lemma HexStep(h: nat, d: nat, rest: string)
    requires d < 16 && h * 16 + d < W
    ensures Scan([HexDigit(d)] + rest, 16, h) == Scan(rest, 16, h * 16 + d)
  {
    DigitTextLaws(d, false, ' ');
    assert HexDigit(d) == DigitText(d, false);
    BasedStep(d, 16, false, rest, h);
  }

  /** A partition without a name is called by its size and its offset: `0x` and eight
      hexadecimal digits each, with an `@` between. */
  lemma {:induction false} AutoNameRead(size: nat, offset: nat)
    requires size < W && offset < W
    ensures var t := AutoName(size, offset);
      && |t| == 21 && t[..2] == "0x" && t[10..13] == "@0x"
      && Scan(t[2..10], 16, 0) == (size, "") && Scan(t[13..], 16, 0) == (offset, "")
  {
    EightDigits(size);
    EightDigits(offset);
    var t, a, b := AutoName(size, offset), Hex(size, 8), Hex(offset, 8);
    assert t == "0x" + a + "@0x" + b;
    assert t[2..10] == a && t[13..] == b;
  }

  lemma {:induction false} EightDigits(n: nat)
    requires n < W
    ensures |Hex(n, 8)| == 8 && Scan(Hex(n, 8), 16, 0) == (n, "")
  {
    assert Power16(2) == 256 && Power16(4) == 0x1_0000 && Power16(6) == 0x100_0000 && Power16(8) == 0x1_0000_0000;
    HexScan(n, 8, "");
    assert Hex(n, 8) + "" == Hex(n, 8);
  }
}
