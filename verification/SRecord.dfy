/** S-record upload and download of common/cmd_load.c with the decoder of common/s_record.c. */
module SRecord {
  import opened Wrappers

  type byte = b: int | 0 <= b < 256

  const W := 0x1_0000_0000

  /** The 32-bit unsigned long of the target. */
  type word = x: int | 0 <= x < 0x1_0000_0000

  const BYTES_PER_RECORD := 16
  const MAXRECLEN := 516
  const CTRL_C := 3 as char

  // ---------------------------------------------------------------- hexadecimal text

  function HexChar(d: nat): char
    requires d < 16
  {
    if d < 10 then '0' + d as char else 'A' + (d - 10) as char
  }

  /** hex1_bin: the value of a hexadecimal digit. */
  function HexValue(c: char): Option<nat> {
    if '0' <= c <= '9' then Some((c - '0') as int)
    else if 'a' <= c <= 'f' then Some((c - 'a') as int + 10)
    else if 'A' <= c <= 'F' then Some((c - 'A') as int + 10)
    else None
  }

  /** The %02X conversion. */
  function Hex2(b: byte): string { [HexChar(b / 16), HexChar(b % 16)] }

  function HexText(bs: seq<byte>): string {
    if bs == [] then "" else Hex2(bs[0]) + HexText(bs[1..])
  }

  lemma HexDigit(d: nat)
    requires d < 16
    ensures HexValue(HexChar(d)) == Some(d)
    ensures HexChar(d) != 'S' && HexChar(d) != '\n' && HexChar(d) != '\r' && HexChar(d) != '\0' && HexChar(d) != CTRL_C
  {}

  /** hex2_bin and the step behind it. */
  function ReadByte(s: string): Option<(byte, string)> {
    if |s| < 2 then None
    else
      match (HexValue(s[0]), HexValue(s[1]))
      case (Some(i), Some(j)) => if i < 16 && j < 16 then Some((16 * i + j, s[2..])) else None
      case _ => None
  }

  function ReadBytes(s: string, n: nat): (r: Option<(seq<byte>, string)>)
    ensures r.Some? ==> |r.value.0| == n
  {
    if n == 0 then Some(([], s))
    else
      match ReadByte(s)
      case None => None
      case Some((b, t)) =>
        match ReadBytes(t, n - 1)
        case None => None
        case Some((bs, u)) => Some(([b] + bs, u))
  }

  lemma ReadHex2(b: byte, rest: string)
    ensures ReadByte(Hex2(b) + rest) == Some((b, rest))
  {
    HexDigit(b / 16);
    HexDigit(b % 16);
    var s := Hex2(b) + rest;
    assert s[0] == HexChar(b / 16) && s[1] == HexChar(b % 16) && s[2..] == rest;
  }

  lemma {:induction false} ReadHexText(bs: seq<byte>, rest: string)
    ensures ReadBytes(HexText(bs) + rest, |bs|) == Some((bs, rest))
  {
    if bs == [] {
      assert HexText(bs) + rest == rest;
    } else {
      ReadHexText(bs[1..], rest);
      ReadHex2(bs[0], HexText(bs[1..]) + rest);
      JoinText(Hex2(bs[0]), HexText(bs[1..]), rest);
      ReadCons(Hex2(bs[0]) + (HexText(bs[1..]) + rest), bs[0], HexText(bs[1..]) + rest, bs[1..], rest);
      assert bs == [bs[0]] + bs[1..];
    }
  }

  lemma {:induction false} ReadCons(s: string, b: byte, t: string, bs: seq<byte>, u: string)
    requires ReadByte(s) == Some((b, t)) && ReadBytes(t, |bs|) == Some((bs, u))
    ensures ReadBytes(s, |bs| + 1) == Some(([b] + bs, u))
  {}

  lemma {:induction false} HexTextConcat(a: seq<byte>, b: seq<byte>)
    ensures HexText(a + b) == HexText(a) + HexText(b)
  {
    if a == [] {
      assert a + b == b;
    } else {
      assert (a + b)[1..] == a[1..] + b;
      HexTextConcat(a[1..], b);
    }
  }

  // ---------------------------------------------------------------- records

  function Sum(bs: seq<byte>): nat {
    if bs == [] then 0 else bs[0] + Sum(bs[1..])
  }

  lemma {:induction false} SumConcat(a: seq<byte>, b: seq<byte>)
    ensures Sum(a + b) == Sum(a) + Sum(b)
  {
    if a == [] {
      assert a + b == b;
    } else {
      assert (a + b)[1..] == a[1..] + b;
      SumConcat(a[1..], b);
    }
  }

  /** The low n bytes of a number, most significant first. */
  function Big(a: nat, n: nat): (bs: seq<byte>)
    ensures |bs| == n
  {
    if n == 0 then [] else Big(a / 256, n - 1) + [a % 256]
  }

  function FromBig(bs: seq<byte>): nat {
    if bs == [] then 0 else FromBig(bs[..|bs| - 1]) * 256 + bs[|bs| - 1]
  }

  function Pow256(n: nat): nat { if n == 0 then 1 else 256 * Pow256(n - 1) }

  lemma {:induction false} BigValue(a: nat, n: nat)
    requires a < Pow256(n)
    ensures FromBig(Big(a, n)) == a
  {
    if n > 0 {
      BigValue(a / 256, n - 1);
      assert Big(a, n)[..n - 1] == Big(a / 256, n - 1);
    }
  }

  /** The four address bytes of a record. */
  function Big4(a: nat): (bs: seq<byte>)
    ensures |bs| == 4
  {
    Big(a, 4)
  }

  lemma Big4Value(a: word)
    ensures FromBig(Big4(a)) == a
  {
    assert Pow256(1) == 256 && Pow256(2) == 0x1_0000 && Pow256(3) == 0x100_0000 && Pow256(4) == W;
    BigValue(a, 4);
  }

  /** The bytes of a record: length, address and data. */
  function Fields(ab: seq<byte>, data: seq<byte>): seq<byte>
    requires |ab| + |data| < 255
  {
    [|ab| + |data| + 1] + ab + data
  }

  /** The complement that brings the sum of all bytes to 0xFF. */
  function Checksum(bs: seq<byte>): byte { 255 - Sum(bs) % 256 }

  /** A record with any checksum byte. */
  function Checked(v: char, ab: seq<byte>, data: seq<byte>, c: byte): string
    requires |ab| + |data| < 255
  {
    "S" + [v] + HexText(Fields(ab, data)) + Hex2(c)
  }

  function Line(v: char, ab: seq<byte>, data: seq<byte>): string
    requires |ab| + |data| < 255
  {
    Checked(v, ab, data, Checksum(Fields(ab, data)))
  }

  /** A data record with a four-byte address. */
  function Record(addr: nat, data: seq<byte>): string
    requires |data| <= BYTES_PER_RECORD
  {
    Line('3', Big4(addr), data)
  }

  const HEADER := "S0030000FC\n"
  const TRAILER := "S70500000000FA\n"

  /** The data records of a block, sixteen bytes each. */
  function Records(addr: nat, data: seq<byte>): string
    decreases |data|
  {
    if data == [] then ""
    else if |data| <= BYTES_PER_RECORD then Record(addr, data) + "\n"
    else Record(addr, data[..BYTES_PER_RECORD]) + "\n" + Records(addr + BYTES_PER_RECORD, data[BYTES_PER_RECORD..])
  }

  /** What save_serial sends. */
  function Save(addr: nat, data: seq<byte>): string { HEADER + Records(addr, data) + TRAILER }

  /** The bytes of every record, checksum included, sum to 0xFF modulo 256. */
  lemma RecordSum(ab: seq<byte>, data: seq<byte>)
    requires |ab| + |data| < 255
    ensures Sum(Fields(ab, data) + [Checksum(Fields(ab, data))]) % 256 == 255
  {
    var b := Fields(ab, data);
    SumConcat(b, [Checksum(b)]);
    assert Sum([Checksum(b)]) == Checksum(b) + Sum([Checksum(b)][1..]);
  }

  // ---------------------------------------------------------------- decoding

  datatype Kind = Start | Data | Count | End | Empty

  datatype Decoded = Bad | Rec(kind: Kind, addr: nat, data: seq<byte>)

  /** The length of the address field, for the record types that exist. */
  function AddrLen(v: char): Option<nat> {
    if v == '0' || v == '1' || v == '5' || v == '9' then Some(2)
    else if v == '2' || v == '8' then Some(3)
    else if v == '3' || v == '7' then Some(4)
    else None
  }

  function KindOf(v: char): Kind {
    if v == '0' then Start else if v == '5' then Count else if v in "123" then Data else End
  }

  /** Skip everything up to and including the first S. */
  function AfterS(s: string): string {
    if s == "" then "" else if s[0] == 'S' then s[1..] else AfterS(s[1..])
  }

  /** srec_decode. */
  function Decode(line: string): Decoded {
    var t := AfterS(line);
    if t == "" then Rec(Empty, 0, [])
    else
      match ReadByte(t[1..])
      case None => Bad
      case Some((count, t1)) =>
        match AddrLen(t[0])
        case None => Bad
        case Some(k) =>
          var n := if t[0] == '5' || count < k + 1 then 0 else count - (k + 1);
          match ReadBytes(t1, k)
          case None => Bad
          case Some((ab, t2)) =>
            match ReadBytes(t2, n)
            case None => Bad
            case Some((data, t3)) =>
              match ReadByte(t3)
              case None => Bad
              case Some((c, _)) =>
                if c == Checksum([count] + ab + data) then Rec(KindOf(t[0]), FromBig(ab), data) else Bad
  }

  lemma {:induction false} FieldsText(ab: seq<byte>, data: seq<byte>)
    requires |ab| + |data| < 255
    ensures HexText(Fields(ab, data)) == Hex2(|ab| + |data| + 1) + (HexText(ab) + HexText(data))
  {
    var count: byte := |ab| + |data| + 1;
    assert Fields(ab, data) == [count] + (ab + data);
    HexTextConcat(ab, data);
    HexCons(count, ab + data);
  }

  /** The fields of a record behind its S. */
  lemma {:induction false} LineFields(v: char, ab: seq<byte>, data: seq<byte>, c: byte)
    requires |ab| + |data| < 255
    ensures AfterS(Checked(v, ab, data, c)) ==
      [v] + (Hex2(|ab| + |data| + 1) + (HexText(ab) + (HexText(data) + (Hex2(c) + ""))))
  {
    FieldsText(ab, data);
    AfterFirstS([v] + HexText(Fields(ab, data)) + Hex2(c));
  }

  lemma AfterFirstS(t: string)
    ensures AfterS("S" + t) == t
  {
    assert ("S" + t)[1..] == t;
  }

  /** A record with the right length is decoded to its fields if its bytes, checksum
      included, sum to 0xFF modulo 256; it is refused if they do not. */
  lemma {:induction false} DecodeLine(v: char, ab: seq<byte>, data: seq<byte>, c: byte)
    requires |ab| + |data| < 255 && AddrLen(v) == Some(|ab|) && (v == '5' ==> data == [])
    ensures Decode(Checked(v, ab, data, c)) ==
      if Sum(Fields(ab, data) + [c]) % 256 == 255 then Rec(KindOf(v), FromBig(ab), data) else Bad
  {
    var t, t1, t2, t3 := LineTexts(v, ab, data, c);
    SumFits(Fields(ab, data), c);
    DecodeFields(Checked(v, ab, data, c), v, t, ab, t1, data, t2, t3, c);
  }

  /** The checksum is the only byte that brings the sum to 0xFF. */
  lemma {:induction false} SumFits(b: seq<byte>, c: byte)
    ensures Sum(b + [c]) % 256 == 255 <==> c == Checksum(b)
  {
    SumConcat(b, [c]);
    HexCons(c, []);
    assert [c] + [] == [c];
    Complement(Sum(b), c);
  }

  lemma Complement(s: nat, c: byte)
    ensures (s + c) % 256 == 255 <==> c == 255 - s % 256
  {}

  /** The text behind the S, and what each reader leaves of it. */
  lemma {:induction false} LineTexts(v: char, ab: seq<byte>, data: seq<byte>, c: byte) returns (t: string, t1: string, t2: string, t3: string)
    requires |ab| + |data| < 255
    ensures AfterS(Checked(v, ab, data, c)) == [v] + t
    ensures ReadByte(t) == Some((|ab| + |data| + 1, t1)) && ReadBytes(t1, |ab|) == Some((ab, t2))
    ensures ReadBytes(t2, |data|) == Some((data, t3)) && ReadByte(t3) == Some((c, ""))
  {
    t3 := Hex2(c) + "";
    t2 := HexText(data) + t3;
    t1 := HexText(ab) + t2;
    t := Hex2(|ab| + |data| + 1) + t1;
    LineFields(v, ab, data, c);
    FieldsRead(|ab| + |data| + 1, ab, data, c);
  }

  /** What the readers find in the text of the fields. */
  lemma {:induction false} FieldsRead(count: byte, ab: seq<byte>, data: seq<byte>, c: byte)
    ensures var t3 := Hex2(c) + ""; var t2 := HexText(data) + t3; var t1 := HexText(ab) + t2;
      && ReadByte(Hex2(count) + t1) == Some((count, t1)) && ReadBytes(t1, |ab|) == Some((ab, t2))
      && ReadBytes(t2, |data|) == Some((data, t3)) && ReadByte(t3) == Some((c, ""))
  {
    var t3 := Hex2(c) + "";
    var t2 := HexText(data) + t3;
    ReadHex2(count, HexText(ab) + t2);
    ReadHexText(ab, t2);
    ReadHexText(data, t3);
    ReadHex2(c, "");
  }

  lemma TypeFirst(v: char, t: string)
    ensures ([v] + t)[0] == v && ([v] + t)[1..] == t
  {}

  /** The fields in the order in which srec_decode reads them. */
  lemma {:induction false} DecodeFields(line: string, v: char, t: string, ab: seq<byte>, t1: string, data: seq<byte>, t2: string, t3: string, c: byte)
    requires |ab| + |data| < 255 && AddrLen(v) == Some(|ab|) && (v == '5' ==> data == [])
    requires AfterS(line) == [v] + t
    requires ReadByte(t) == Some((|ab| + |data| + 1, t1)) && ReadBytes(t1, |ab|) == Some((ab, t2))
    requires ReadBytes(t2, |data|) == Some((data, t3)) && ReadByte(t3) == Some((c, ""))
    ensures Decode(line) == if c == Checksum(Fields(ab, data)) then Rec(KindOf(v), FromBig(ab), data) else Bad
  {
    TypeFirst(v, t);
  }

  /** The digits that are read, in either case, and no others. */
  lemma HexDigits(c: char, d: nat)
    requires d < 16
    ensures HexValue("0123456789ABCDEF"[d]) == Some(d) && HexValue("0123456789abcdef"[d]) == Some(d)
    ensures HexValue(c).Some? <==> c in "0123456789ABCDEFabcdef"
  {}

  /** Whatever is decoded, and is not a line without S, has the type, the address length,
      the count and the sum of a record. */
  lemma DecodeSound(line: string) returns (v: char, count: byte, t1: string, ab: seq<byte>, t2: string, t3: string, c: byte)
    requires Decode(line).Rec? && !Decode(line).kind.Empty?
    ensures var data := Decode(line).data; var t := AfterS(line);
      && t != "" && t[0] == v
      && ((v in "0159" && |ab| == 2) || (v in "28" && |ab| == 3) || (v in "37" && |ab| == 4))
      && ReadByte(t[1..]) == Some((count, t1)) && ReadBytes(t1, |ab|) == Some((ab, t2))
      && ReadBytes(t2, |data|) == Some((data, t3)) && ReadByte(t3).Some? && ReadByte(t3).value.0 == c
      && |data| == (if v == '5' || count < |ab| + 1 then 0 else count - |ab| - 1)
      && Sum([count] + ab + data + [c]) % 256 == 255
  {
    var t := AfterS(line);
    v := t[0];
    count, t1 := ReadByte(t[1..]).value.0, ReadByte(t[1..]).value.1;
    var k := AddrLen(v).value;
    ab, t2 := ReadBytes(t1, k).value.0, ReadBytes(t1, k).value.1;
    var n := if v == '5' || count < k + 1 then 0 else count - (k + 1);
    t3 := ReadBytes(t2, n).value.1;
    c := ReadByte(t3).value.0;
    SumFits([count] + ab + Decode(line).data, c);
  }

  /** What stands before the first S is skipped, and a line without S is empty. */
  lemma {:induction false} DecodeSkips(g: string, line: string)
    requires 'S' !in g
    ensures Decode(g + line) == Decode(line) && Decode(g) == Rec(Empty, 0, [])
  {
    AfterSkips(g, line);
    AfterSkips(g, "");
    assert g + "" == g;
  }

  lemma {:induction false} AfterSkips(g: string, line: string)
    requires 'S' !in g
    ensures AfterS(g + line) == AfterS(line)
  {
    if g == "" {
      assert g + line == line;
    } else {
      assert (g + line)[1..] == g[1..] + line && g[0] in g;
      AfterSkips(g[1..], line);
    }
  }

  // ---------------------------------------------------------------- loading

  datatype Input = Blocked | Abort | Text(line: string, rest: string)

  /** read_record: the next line, at most `room` characters of it. */
  function ReadRecord(s: string, room: nat): (r: Input)
    ensures r.Text? ==> |r.rest| <= |s| && (room > 0 ==> |r.rest| < |s|)
  {
    if room == 0 then Text("", s)
    else if s == "" then Blocked
    else if s[0] == '\r' || s[0] == '\n' then Text("", s[1..])
    else if s[0] == '\0' || s[0] == CTRL_C then Abort
    else
      match ReadRecord(s[1..], room - 1)
      case Text(line, rest) => Text([s[0]] + line, rest)
      case other => other
  }

  /** Memory after data was copied to address a. */
  function Put(mem: map<int, byte>, a: int, data: seq<byte>): map<int, byte>
    decreases |data|
  {
    if data == [] then mem else Put(mem[a % W := data[0]], a + 1, data[1..])
  }

  /** The variables of load_serial. */
  datatype Load = Load(mem: map<int, byte>, start: word, end: word)

  /** 32-bit arithmetic. */
  function Wrap(x: int): word
    decreases if x < 0 then W - x else x
  {
    if x < 0 then Wrap(x + W) else if x < W then x else Wrap(x - W)
  }

  lemma {:induction false} WrapIsMod(x: int)
    ensures Wrap(x) == x % 0x1_0000_0000
    decreases if x < 0 then W - x else x
  {
    if x < 0 {
      WrapIsMod(x + W);
    } else if x >= W {
      WrapIsMod(x - W);
    }
  }

  function Store(l: Load, a: nat, data: seq<byte>): Load {
    var last := Wrap(a + |data| - 1);
    Load(Put(l.mem, a, data), if a < l.start then a else l.start, if last > l.end then last else l.end)
  }

  /** What load_serial comes to: still reading, ~0, or an entry address and a file size. */
  datatype Outcome = Pending | Failed | Done(l: Load, entry: nat, size: nat)

  /** One line of the session: it ends, or the loop goes on. */
  datatype Step = Stop(o: Outcome) | Go(l: Load, rest: string)

  function LoadStep(l: Load, offset: nat, s: string): (r: Step)
    ensures r.Go? ==> |r.rest| < |s|
  {
    match ReadRecord(s, MAXRECLEN)
    case Blocked => Stop(Pending)
    case Abort => Stop(Failed)
    case Text(line, rest) => LineStep(l, offset, Decode(line), rest)
  }

  function LineStep(l: Load, offset: nat, d: Decoded, rest: string): (r: Step)
    ensures r.Go? ==> r.rest == rest
  {
    match d
    case Bad => Stop(Failed)
    case Rec(Data, addr, data) => Go(Store(l, Wrap(addr + offset), data), rest)
    case Rec(End, addr, _) => Stop(Done(l, addr, Wrap(l.end - l.start + 1)))
    case Rec(_, _, _) => Go(l, rest)
  }

  function LoadLines(l: Load, offset: nat, s: string): Outcome
    decreases |s|
  {
    match LoadStep(l, offset, s)
    case Stop(o) => o
    case Go(l1, rest) => LoadLines(l1, offset, rest)
  }

  const NO_START := 0xFFFF_FFFF

  function Begin(mem: map<int, byte>): Load { Load(mem, NO_START, 0) }

  predicate Plain(s: string) { forall i :: 0 <= i < |s| ==> s[i] != '\r' && s[i] != '\n' && s[i] != '\0' && s[i] != CTRL_C }

  lemma {:induction false} ReadPlain(line: string, rest: string, room: nat)
    requires Plain(line) && |line| < room
    ensures ReadRecord(line + "\n" + rest, room) == Text(line, rest)
  {
    var s := line + "\n" + rest;
    if line == "" {
      assert s[1..] == rest;
    } else {
      assert s[0] == line[0] && s[1..] == line[1..] + "\n" + rest;
      ReadPlain(line[1..], rest, room - 1);
      assert line == [line[0]] + line[1..];
    }
  }

  /** Characters that belong to a line. */
  predicate OneLine(s: string) { forall i :: 0 <= i < |s| ==> s[i] as int != 13 && s[i] as int != 10 && s[i] as int != 0 && s[i] as int != 3 }

  lemma {:induction false} ReadSome(line: string, more: string, room: nat)
    requires OneLine(line) && |line| <= room
    ensures ReadRecord(line + more, room) ==
      match ReadRecord(more, room - |line|)
      case Text(l1, rest) => Text(line + l1, rest)
      case other => other
  {
    if line == "" {
      assert line + more == more;
      if ReadRecord(more, room).Text? {
        assert line + ReadRecord(more, room).line == ReadRecord(more, room).line;
      }
    } else {
      assert (line + more)[0] == line[0] && (line + more)[1..] == line[1..] + more;
      ReadSome(line[1..], more, room - 1);
      var r := ReadRecord(more, room - |line|);
      if r.Text? {
        assert line + r.line == [line[0]] + (line[1..] + r.line);
      }
    }
  }

  /** A line ends at CR or LF, and after 516 characters; NUL and control-C abort the download,
      and without any of them more is awaited. */
  lemma {:induction false} LineEnds(l: Load, offset: nat, line: string, c: char, rest: string)
    requires OneLine(line)
    ensures |line| < 516 && (c as int == 13 || c as int == 10) ==>
      LoadStep(l, offset, line + ([c] + rest)) == LineStep(l, offset, Decode(line), rest)
    ensures |line| < 516 && (c as int == 0 || c as int == 3) ==> LoadStep(l, offset, line + ([c] + rest)) == Stop(Failed)
    ensures |line| < 516 ==> LoadStep(l, offset, line + "") == Stop(Pending)
    ensures |line| == 516 ==> LoadStep(l, offset, line + rest) == LineStep(l, offset, Decode(line), rest)
  {
    if |line| < 516 {
      ReadSome(line, [c] + rest, 516);
      ReadSome(line, "", 516);
      assert ([c] + rest)[1..] == rest && line + "" == line;
    } else if |line| == 516 {
      ReadSome(line, rest, 516);
      assert line + "" == line;
    }
  }

  lemma {:induction false} HexPlain(bs: seq<byte>)
    ensures Plain(HexText(bs)) && |HexText(bs)| == 2 * |bs|
  {
    if bs != [] {
      HexDigit(bs[0] / 16);
      HexDigit(bs[0] % 16);
      HexPlain(bs[1..]);
    }
  }

  /** One line of a session that is a whole record, behind any characters that are no S. */
  lemma {:induction false} LoadLine(l: Load, offset: nat, v: char, ab: seq<byte>, data: seq<byte>, rest: string)
    requires |ab| + |data| < 255 && AddrLen(v) == Some(|ab|) && v in "01235789" && (v == '5' ==> data == [])
    ensures LoadStep(l, offset, Line(v, ab, data) + "\n" + rest)
         == LineStep(l, offset, Rec(KindOf(v), FromBig(ab), data), rest)
  {
    var c := Checksum(Fields(ab, data));
    CheckedStep(l, offset, v, ab, data, c, rest);
    SumFits(Fields(ab, data), c);
    DecodeLine(v, ab, data, c);
  }

  lemma {:induction false} LinePlain(v: char, ab: seq<byte>, data: seq<byte>, c: byte)
    requires |ab| + |data| < 255 && Plain([v])
    ensures Plain(Checked(v, ab, data, c)) && |Checked(v, ab, data, c)| <= 514
  {
    var b := Fields(ab, data);
    HexPlain(b);
    HexDigit(c / 16);
    HexDigit(c % 16);
    assert [v][0] == v;
    var line := Checked(v, ab, data, c);
    assert line == "S" + [v] + HexText(b) + Hex2(c);
  }

  /** The number that an address field of two, three or four bytes stands for. */
  function Number(ab: seq<byte>): nat
    requires 2 <= |ab| <= 4
  {
    if |ab| == 2 then ab[0] as int * 0x100 + ab[1]
    else if |ab| == 3 then ab[0] as int * 0x1_0000 + ab[1] as int * 0x100 + ab[2]
    else ab[0] as int * 0x100_0000 + ab[1] as int * 0x1_0000 + ab[2] as int * 0x100 + ab[3]
  }

  lemma {:induction false} NumberIs(ab: seq<byte>)
    requires 2 <= |ab| <= 4
    ensures FromBig(ab) == Number(ab)
  {
    var n := |ab|;
    FromBigSnoc([], ab[0]);
    FromBigSnoc(ab[..1], ab[1]);
    assert [] + [ab[0]] == ab[..1] && ab[..1] + [ab[1]] == ab[..2];
    if n > 2 {
      FromBigSnoc(ab[..2], ab[2]);
      assert ab[..2] + [ab[2]] == ab[..3];
    }
    if n > 3 {
      FromBigSnoc(ab[..3], ab[3]);
      assert ab[..3] + [ab[3]] == ab[..4];
    }
    assert ab[..n] == ab;
  }

  lemma FromBigSnoc(a: seq<byte>, b: byte)
    ensures FromBig(a + [b]) == FromBig(a) * 256 + b
  {
    assert (a + [b])[..|a|] == a;
  }

  /** S1, S2 and S3 records have an address of two, three and four bytes and are stored there,
      plus the offset; one with a wrong sum aborts the download. */
  lemma {:induction false} DataRecord(l: Load, offset: nat, v: char, ab: seq<byte>, data: seq<byte>, c: byte, rest: string)
    requires |ab| + |data| < 255 && ((v == '1' && |ab| == 2) || (v == '2' && |ab| == 3) || (v == '3' && |ab| == 4))
    ensures LoadStep(l, offset, Checked(v, ab, data, c) + "\n" + rest) ==
      if FitsSum(ab, data, c) then Go(Store(l, (Number(ab) + offset) % 0x1_0000_0000, data), rest) else Stop(Failed)
  {
    DataStep(l, offset, v, Number(ab), data, rest);
    KnownOutcome(l, offset, v, ab, data, c, rest, Go(Store(l, (Number(ab) + offset) % 0x1_0000_0000, data), rest));
  }

  /** S7, S8 and S9 records have an address of four, three and two bytes; they end the download
      with it, and with the number of bytes from the first to the last address stored at. */
  lemma {:induction false} EndRecord(l: Load, offset: nat, v: char, ab: seq<byte>, data: seq<byte>, c: byte, rest: string)
    requires |ab| + |data| < 255 && ((v == '7' && |ab| == 4) || (v == '8' && |ab| == 3) || (v == '9' && |ab| == 2))
    ensures LoadStep(l, offset, Checked(v, ab, data, c) + "\n" + rest) ==
      Stop(if FitsSum(ab, data, c) then Done(l, Number(ab), (l.end - l.start + 1) % 0x1_0000_0000) else Failed)
  {
    TypeStep(l, offset, v, Number(ab), data, rest);
    KnownOutcome(l, offset, v, ab, data, c, rest, Stop(Done(l, Number(ab), (l.end - l.start + 1) % 0x1_0000_0000)));
  }

  /** S0 and S5 records change nothing. */
  lemma {:induction false} PassedRecord(l: Load, offset: nat, v: char, ab: seq<byte>, data: seq<byte>, c: byte, rest: string)
    requires |ab| + |data| < 255 && |ab| == 2 && (v == '0' || (v == '5' && data == []))
    ensures LoadStep(l, offset, Checked(v, ab, data, c) + "\n" + rest) ==
      if FitsSum(ab, data, c) then Go(l, rest) else Stop(Failed)
  {
    TypeStep(l, offset, v, Number(ab), data, rest);
    KnownOutcome(l, offset, v, ab, data, c, rest, Go(l, rest));
  }

  /** A record of any other type aborts the download. */
  lemma {:induction false} UnknownRecord(l: Load, offset: nat, v: char, ab: seq<byte>, data: seq<byte>, c: byte, rest: string)
    requires |ab| + |data| < 255 && Plain([v]) && v !in "01235789"
    ensures LoadStep(l, offset, Checked(v, ab, data, c) + "\n" + rest) == Stop(Failed)
  {
    CheckedStep(l, offset, v, ab, data, c, rest);
    DecodeOther(v, ab, data, c);
  }

  /** The bytes of the record, checksum included, sum to 0xFF modulo 256. */
  predicate FitsSum(ab: seq<byte>, data: seq<byte>, c: byte) { (|ab| + |data| + 1 + Sum(ab) + Sum(data) + c) % 256 == 255 }

  lemma {:induction false} KnownStep(l: Load, offset: nat, v: char, ab: seq<byte>, data: seq<byte>, c: byte, rest: string)
    requires |ab| + |data| < 255 && AddrLen(v) == Some(|ab|) && (v == '5' ==> data == [])
    ensures var st := LoadStep(l, offset, Checked(v, ab, data, c) + "\n" + rest);
      if FitsSum(ab, data, c) then st == LineStep(l, offset, Rec(KindOf(v), Number(ab), data), rest) else st == Stop(Failed)
  {
    CheckedStep(l, offset, v, ab, data, c, rest);
    KnownDecoded(v, ab, data, c);
  }

  lemma {:induction false} KnownDecoded(v: char, ab: seq<byte>, data: seq<byte>, c: byte)
    requires |ab| + |data| < 255 && AddrLen(v) == Some(|ab|) && (v == '5' ==> data == [])
    ensures Decode(Checked(v, ab, data, c)) == if FitsSum(ab, data, c) then Rec(KindOf(v), Number(ab), data) else Bad
  {
    FieldsSum(ab, data, c);
    DecodeLine(v, ab, data, c);
    NumberIs(ab);
  }

  lemma {:induction false} CheckedStep(l: Load, offset: nat, v: char, ab: seq<byte>, data: seq<byte>, c: byte, rest: string)
    requires |ab| + |data| < 255 && Plain([v])
    ensures LoadStep(l, offset, Checked(v, ab, data, c) + "\n" + rest) == LineStep(l, offset, Decode(Checked(v, ab, data, c)), rest)
  {
    LinePlain(v, ab, data, c);
    ReadPlain(Checked(v, ab, data, c), rest, MAXRECLEN);
  }

  lemma {:induction false} TypeStep(l: Load, offset: nat, v: char, addr: nat, data: seq<byte>, rest: string)
    requires AddrLen(v).Some?
    ensures LineStep(l, offset, Rec(KindOf(v), addr, data), rest) ==
      if v == '1' || v == '2' || v == '3' then Go(Store(l, (addr + offset) % 0x1_0000_0000, data), rest)
      else if v == '7' || v == '8' || v == '9' then Stop(Done(l, addr, (l.end - l.start + 1) % 0x1_0000_0000))
      else Go(l, rest)
  {
    WrapIsMod(addr + offset);
    WrapIsMod(l.end - l.start + 1);
  }

  /** What a record comes to, from what it means when its sum fits. */
  lemma {:induction false} KnownOutcome(l: Load, offset: nat, v: char, ab: seq<byte>, data: seq<byte>, c: byte, rest: string, next: Step)
    requires |ab| + |data| < 255 && AddrLen(v) == Some(|ab|) && (v == '5' ==> data == [])
    requires LineStep(l, offset, Rec(KindOf(v), Number(ab), data), rest) == next
    ensures LoadStep(l, offset, Checked(v, ab, data, c) + "\n" + rest) == if FitsSum(ab, data, c) then next else Stop(Failed)
  {
    KnownStep(l, offset, v, ab, data, c, rest);
  }

  lemma {:induction false} DataStep(l: Load, offset: nat, v: char, addr: nat, data: seq<byte>, rest: string)
    requires v == '1' || v == '2' || v == '3'
    ensures LineStep(l, offset, Rec(KindOf(v), addr, data), rest) == Go(Store(l, (addr + offset) % 0x1_0000_0000, data), rest)
  {
    TypeStep(l, offset, v, addr, data, rest);
  }

  lemma {:induction false} FieldsSum(ab: seq<byte>, data: seq<byte>, c: byte)
    requires |ab| + |data| < 255
    ensures Sum(Fields(ab, data) + [c]) == |ab| + |data| + 1 + Sum(ab) + Sum(data) + c
  {
    var count: byte := |ab| + |data| + 1;
    assert Fields(ab, data) == [count] + (ab + data);
    SumConcat(Fields(ab, data), [c]);
    HexCons(c, []);
    HexCons(count, ab + data);
    SumConcat(ab, data);
    assert [c] + [] == [c];
  }

  lemma {:induction false} DecodeOther(v: char, ab: seq<byte>, data: seq<byte>, c: byte)
    requires |ab| + |data| < 255 && v !in "01235789"
    ensures Decode(Checked(v, ab, data, c)) == Bad
  {
    var t, t1, t2, t3 := LineTexts(v, ab, data, c);
    TypeFirst(v, t);
  }

  // ---------------------------------------------------------------- the text of an upload

  lemma {:induction false} RecordLength(addr: nat, data: seq<byte>)
    requires |data| <= 16
    ensures |Record(addr, data) + "\n"| == 15 + 2 * |data|
  {
    var b := Fields(Big4(addr), data);
    HexPlain(b);
    HexPlain([Checksum(b)]);
    assert Record(addr, data) == "S" + ['3'] + HexText(b) + Hex2(Checksum(b));
  }

  /** The bytes of record k. */
  function Share(data: seq<byte>, k: nat): seq<byte>
    requires 16 * k < |data|
  {
    data[16 * k..if 16 * k + 16 <= |data| then 16 * k + 16 else |data|]
  }

  /** A record for every sixteen bytes, each of 15 characters and two for every byte. */
  lemma {:induction false} RecordsLine(addr: nat, data: seq<byte>, k: nat)
    requires 16 * k < |data|
    ensures 47 * k <= |Records(addr, data)|
    ensures Line('3', Big4(addr + 16 * k), Share(data, k)) + "\n" <= Records(addr, data)[47 * k..]
    decreases k
  {
    if |data| <= 16 {
      assert Share(data, 0) == data;
    } else if k == 0 {
      FirstShare(addr, data);
    } else {
      RecordsLine(addr + 16, data[16..], k - 1);
      LaterShare(addr, data, k);
    }
  }

  lemma {:induction false} FirstShare(addr: nat, data: seq<byte>)
    requires |data| > 16
    ensures Line('3', Big4(addr), Share(data, 0)) + "\n" <= Records(addr, data)
  {
    assert Share(data, 0) == data[..16];
  }

  lemma {:induction false} LaterShare(addr: nat, data: seq<byte>, k: nat)
    requires |data| > 16 && k > 0 && 16 * k < |data| && 47 * (k - 1) <= |Records(addr + 16, data[16..])|
    ensures Share(data, k) == Share(data[16..], k - 1)
    ensures 47 * k <= |Records(addr, data)| && Records(addr, data)[47 * k..] == Records(addr + 16, data[16..])[47 * (k - 1)..]
  {
    RecordLength(addr, data[..16]);
    DropJoined(Record(addr, data[..16]) + "\n", Records(addr + 16, data[16..]), 47 * (k - 1));
    SliceBehind(data, 16 * k, if 16 * k + 16 <= |data| then 16 * k + 16 else |data|);
  }

  lemma SliceBehind(data: seq<byte>, i: nat, j: nat)
    requires 16 <= i <= j <= |data|
    ensures data[16..][i - 16..j - 16] == data[i..j]
  {}

  lemma DropJoined(a: string, b: string, i: nat)
    requires i <= |b|
    ensures (a + b)[|a| + i..] == b[i..]
  {}

  lemma {:induction false} RecordsLength(addr: nat, data: seq<byte>)
    ensures |Records(addr, data)| == 2 * |data| + 15 * ((|data| + 15) / 16)
    decreases |data|
  {
    if |data| > 16 {
      RecordLength(addr, data[..16]);
      RecordsLength(addr + 16, data[16..]);
    } else if data != [] {
      RecordLength(addr, data);
    }
  }

  /** An upload line by line: the header, an S3 record for every sixteen bytes, and an end
      record with the address zero. */
  lemma {:induction false} SaveLines(addr: nat, data: seq<byte>, k: nat)
    ensures var s := Save(addr, data); var m := 2 * |data| + 15 * ((|data| + 15) / 16);
      && |s| == 26 + m && s[..11] == "S0030000FC\n" && s[11 + m..] == "S70500000000FA\n"
      && (16 * k < |data| ==>
            var n := if 16 * k + 16 <= |data| then 16 * k + 16 else |data|;
            11 + 47 * k <= |s| && Line('3', Big4(addr + 16 * k), data[16 * k..n]) + "\n" <= s[11 + 47 * k..])
  {
    RecordsLength(addr, data);
    var r := Records(addr, data);
    assert Save(addr, data) == "S0030000FC\n" + (r + "S70500000000FA\n");
    if 16 * k < |data| {
      RecordsLine(addr, data, k);
      DropJoined("S0030000FC\n", r + "S70500000000FA\n", 47 * k);
      var n := if 16 * k + 16 <= |data| then 16 * k + 16 else |data|;
      StartKept(Line('3', Big4(addr + 16 * k), data[16 * k..n]) + "\n", r, 47 * k, "S70500000000FA\n");
    }
  }

  lemma {:induction false} AddressExample()
    ensures Big4(0x1000) == [0x00, 0x00] + [0x10, 0x00]
  {
    assert Big(0, 1) == [] + [0];
    assert Big(0, 2) == [0, 0];
    assert Big(0x10, 3) == Big(0, 2) + [0x10];
    assert Big4(0x1000) == Big(0x10, 3) + [0];
  }

  lemma {:induction false} ExampleFields()
    ensures HexText([0x00, 0x00] + [0x10, 0x00]) == "00001000" && Sum([0x00, 0x00] + [0x10, 0x00]) == 0x10
    ensures HexText([0xAB]) == "AB" && Sum([0xAB]) == 0xAB
  {
    PairSum(0x00, 0x00);
    PairSum(0x10, 0x00);
    HexTextConcat([0x00, 0x00], [0x10, 0x00]);
    SumConcat([0x00, 0x00], [0x10, 0x00]);
    HexCons(0xAB, []);
    assert [0xAB] + [] == [0xAB];
    assert Hex2(0) == "00" && Hex2(0x10) == "10" && Hex2(0xAB) == "AB";
  }

  lemma {:induction false} LineText(ab: seq<byte>, data: seq<byte>, sum: byte)
    requires |ab| + |data| < 255 && FitsSum(ab, data, sum)
    ensures Line('3', ab, data) == "S3" + (Hex2(|ab| + |data| + 1) + (HexText(ab) + HexText(data))) + Hex2(sum)
  {
    FieldsText(ab, data);
    FitsExact(ab, data, sum);
    assert "S" + ['3'] == "S3";
  }

  lemma {:induction false} FitsExact(ab: seq<byte>, data: seq<byte>, sum: byte)
    requires |ab| + |data| < 255 && FitsSum(ab, data, sum)
    ensures Checksum(Fields(ab, data)) == sum
  {
    FieldsSum(ab, data, sum);
    SumFits(Fields(ab, data), sum);
  }

  lemma {:induction false} ExampleFits(ab: seq<byte>, data: seq<byte>)
    requires |ab| == 4 && |data| == 1 && Sum(ab) == 0x10 && Sum(data) == 0xAB
    ensures FitsSum(ab, data, 0x3E) && Hex2(|ab| + |data| + 1) == "06" && Hex2(0x3E) == "3E"
  {}

  /** The record of one byte 0xAB at address 0x1000. */
  lemma {:induction false} LineExample()
    ensures Line('3', Big4(0x1000), [0xAB]) == "S30600001000AB3E"
  {
    AddressExample();
    ExampleFields();
    var ab: seq<byte>, data: seq<byte> := [0x00, 0x00] + [0x10, 0x00], [0xAB];
    ExampleFits(ab, data);
    LineText(ab, data, 0x3E);
    ExampleJoined();
  }

  lemma ExampleJoined()
    ensures "S3" + ("06" + ("00001000" + "AB")) + "3E" == "S30600001000AB3E"
  {}

  lemma StartKept(line: string, r: string, i: nat, t: string)
    requires i <= |r| && line <= r[i..]
    ensures line <= (r + t)[i..]
  {
    assert (r + t)[i..] == r[i..] + t;
  }

  /** An ordinary record: two bytes at address 0x1000. */
  lemma {:induction false} RecordExample(l: Load, rest: string)
    ensures LoadStep(l, 0, "S1051000AABB85" + "\n" + rest) == Go(Store(l, 0x1000, [0xAA, 0xBB]), rest)
  {
    ExampleText();
    HexCons(0xAA, [0xBB]);
    HexCons(0xBB, []);
    HexCons(0x10, [0x00]);
    HexCons(0x00, []);
    PairSum(0xAA, 0xBB);
    PairSum(0x10, 0x00);
    DataRecord(l, 0, '1', [0x10, 0x00], [0xAA, 0xBB], 0x85, rest);
  }

  lemma PairSum(a: byte, b: byte)
    ensures HexText([a, b]) == Hex2(a) + Hex2(b) && Sum([a, b]) == a as int + b
  {
    HexCons(a, [b]);
    HexCons(b, []);
    assert [a] + [b] == [a, b] && [b] + [] == [b];
  }

  lemma {:induction false} ExampleText()
    ensures Checked('1', [0x10, 0x00], [0xAA, 0xBB], 0x85) == "S1051000AABB85"
  {
    FieldsText([0x10, 0x00], [0xAA, 0xBB]);
    PairSum(0x10, 0x00);
    PairSum(0xAA, 0xBB);
    assert Hex2(5) == "05" && Hex2(0x10) == "10" && Hex2(0x00) == "00" && Hex2(0xAA) == "AA" && Hex2(0xBB) == "BB" && Hex2(0x85) == "85";
  }

  lemma {:induction false} PutConcat(mem: map<int, byte>, a: int, x: seq<byte>, y: seq<byte>)
    ensures Put(Put(mem, a, x), a + |x|, y) == Put(mem, a, x + y)
    decreases |x|
  {
    if x == [] {
      assert x + y == y;
    } else {
      assert (x + y)[1..] == x[1..] + y;
      PutConcat(mem[a % W := x[0]], a + 1, x[1..], y);
    }
  }

  lemma {:induction false} StoreConcat(l: Load, a: nat, x: seq<byte>, y: seq<byte>)
    requires x != [] && y != [] && a + |x| + |y| <= W
    ensures Store(Store(l, a, x), a + |x|, y) == Store(l, a, x + y)
  {
    PutConcat(l.mem, a, x, y);
  }

  /** The address a record is stored at. */
  function Placed(addr: nat, offset: nat): word { (addr + offset) % 0x1_0000_0000 }

  lemma {:induction false} LoadData(l: Load, offset: nat, ab: seq<byte>, data: seq<byte>, rest: string)
    requires |data| <= BYTES_PER_RECORD && |ab| == 4
    ensures LoadStep(l, offset, Line('3', ab, data) + "\n" + rest) == Go(Store(l, Placed(FromBig(ab), offset), data), rest)
  {
    LoadLine(l, offset, '3', ab, data, rest);
    WrapIsMod(FromBig(ab) + offset);
  }

  lemma {:induction false} LoadRecord(l: Load, offset: nat, addr: nat, data: seq<byte>, rest: string)
    requires |data| <= BYTES_PER_RECORD && addr < W
    ensures LoadLines(l, offset, Record(addr, data) + "\n" + rest) == LoadLines(Store(l, Placed(addr, offset), data), offset, rest)
  {
    Big4Value(addr);
    var ab := Big4(addr);
    LoadData(l, offset, ab, data, rest);
    GoOn(l, offset, Line('3', ab, data) + "\n" + rest, Store(l, Placed(addr, offset), data), rest);
  }

  lemma {:induction false} GoOn(l: Load, offset: nat, s: string, l1: Load, rest: string)
    requires LoadStep(l, offset, s) == Go(l1, rest)
    ensures LoadLines(l, offset, s) == LoadLines(l1, offset, rest)
  {}

  lemma {:induction false} FirstRecord(addr: nat, data: seq<byte>, rest: string)
    requires |data| > BYTES_PER_RECORD
    ensures var y := data[BYTES_PER_RECORD..];
      Records(addr, data) + rest == Record(addr, data[..BYTES_PER_RECORD]) + "\n" + (Records(addr + BYTES_PER_RECORD, y) + rest)
  {}

  lemma PlacedNext(addr: nat, offset: nat, at: nat, n: nat)
    requires at == Placed(addr, offset) && at + n < W
    ensures at + n == Placed(addr + n, offset)
  {}

  /** Replaying the data records stores the block, whatever its length and the offset, when
      neither the addresses written nor those stored at wrap round. */
  lemma {:induction false} LoadRecords(l: Load, offset: nat, addr: nat, at: nat, data: seq<byte>, rest: string)
    requires data != [] && addr + |data| <= W && at == Placed(addr, offset) && at + |data| <= W
    ensures LoadLines(l, offset, Records(addr, data) + rest) == LoadLines(Store(l, at, data), offset, rest)
    decreases |data|
  {
    if |data| <= BYTES_PER_RECORD {
      LoadLast(l, offset, addr, at, data, rest);
    } else {
      var x, y := data[..BYTES_PER_RECORD], data[BYTES_PER_RECORD..];
      PlacedNext(addr, offset, at, BYTES_PER_RECORD);
      calc {
        LoadLines(l, offset, Records(addr, data) + rest);
        { LoadFirst(l, offset, addr, at, x, y, data, rest); }
        LoadLines(Store(l, at, x), offset, Records(addr + BYTES_PER_RECORD, y) + rest);
        { LoadRecords(Store(l, at, x), offset, addr + BYTES_PER_RECORD, at + BYTES_PER_RECORD, y, rest); }
        LoadLines(Store(Store(l, at, x), at + BYTES_PER_RECORD, y), offset, rest);
        { StoreBoth(l, at, x, y, data); }
        LoadLines(Store(l, at, data), offset, rest);
      }
    }
  }

  lemma StoreBoth(l: Load, at: nat, x: seq<byte>, y: seq<byte>, data: seq<byte>)
    requires |x| == BYTES_PER_RECORD && y != [] && x + y == data && at + |data| <= W
    ensures Store(Store(l, at, x), at + BYTES_PER_RECORD, y) == Store(l, at, data)
  {
    StoreConcat(l, at, x, y);
  }

  lemma {:induction false} LoadLast(l: Load, offset: nat, addr: nat, at: nat, data: seq<byte>, rest: string)
    requires 0 < |data| <= BYTES_PER_RECORD && addr < W && at == Placed(addr, offset)
    ensures LoadLines(l, offset, Records(addr, data) + rest) == LoadLines(Store(l, at, data), offset, rest)
  {
    LoadRecord(l, offset, addr, data, rest);
  }

  lemma {:induction false} LoadFirst(l: Load, offset: nat, addr: nat, at: nat, x: seq<byte>, y: seq<byte>, data: seq<byte>, rest: string)
    requires |x| == BYTES_PER_RECORD && y != [] && x + y == data && addr < W && at == Placed(addr, offset)
    ensures LoadLines(l, offset, Records(addr, data) + rest) ==
            LoadLines(Store(l, at, x), offset, Records(addr + BYTES_PER_RECORD, y) + rest)
  {
    assert data[..BYTES_PER_RECORD] == x && data[BYTES_PER_RECORD..] == y;
    FirstRecord(addr, data, rest);
    LoadRecord(l, offset, addr, x, Records(addr + BYTES_PER_RECORD, y) + rest);
  }

  lemma HexCons(b: byte, bs: seq<byte>)
    ensures HexText([b] + bs) == Hex2(b) + HexText(bs) && Sum([b] + bs) == b + Sum(bs)
  {
    assert ([b] + bs)[1..] == bs;
  }

  lemma ZeroPair()
    ensures HexText([0, 0]) == "0000" && Sum([0, 0]) == 0
  {
    HexCons(0, []);
    HexCons(0, [0]);
    assert [0] + [] == [0] && [0] + [0] == [0, 0];
  }

  lemma HeaderLine()
    ensures HEADER == Line('0', [0, 0], []) + "\n"
  {
    ZeroPair();
    HexCons(3, [0, 0]);
    assert Fields([0, 0], []) == [3] + [0, 0];
    assert Hex2(252) == "FC";
  }

  lemma TrailerLine()
    ensures TRAILER == Line('7', [0, 0, 0, 0], []) + "\n"
  {
    ZeroPair();
    HexTextConcat([0, 0], [0, 0]);
    SumConcat([0, 0], [0, 0]);
    assert [0, 0] + [0, 0] == [0, 0, 0, 0];
    HexCons(5, [0, 0, 0, 0]);
    assert Fields([0, 0, 0, 0], []) == [5] + [0, 0, 0, 0];
    assert Hex2(250) == "FA";
  }

  lemma {:induction false} LoadHeader(l: Load, offset: nat, rest: string)
    ensures LoadLines(l, offset, HEADER + rest) == LoadLines(l, offset, rest)
  {
    HeaderLine();
    LoadLine(l, offset, '0', [0, 0], [], rest);
    GoOn(l, offset, Line('0', [0, 0], []) + "\n" + rest, l, rest);
  }

  lemma {:induction false} LoadTrailer(l: Load, offset: nat, rest: string)
    ensures LoadLines(l, offset, TRAILER + rest) == Done(l, 0, Wrap(l.end - l.start + 1))
  {
    TrailerLine();
    FromZeros();
    ZeroEnd(l, offset, [0, 0, 0, 0], rest);
    StopHere(l, offset, Line('7', [0, 0, 0, 0], []) + "\n" + rest, Done(l, 0, Wrap(l.end - l.start + 1)));
  }

  lemma {:induction false} ZeroEnd(l: Load, offset: nat, ab: seq<byte>, rest: string)
    requires |ab| == 4 && FromBig(ab) == 0
    ensures LoadStep(l, offset, Line('7', ab, []) + "\n" + rest) == Stop(Done(l, 0, Wrap(l.end - l.start + 1)))
  {
    LoadLine(l, offset, '7', ab, [], rest);
  }

  lemma {:induction false} StopHere(l: Load, offset: nat, s: string, o: Outcome)
    requires LoadStep(l, offset, s) == Stop(o)
    ensures LoadLines(l, offset, s) == o
  {}

  lemma {:induction false} StoreFirst(mem: map<int, byte>, addr: nat, data: seq<byte>)
    requires data != [] && addr + |data| <= W
    ensures Store(Begin(mem), addr, data) == Load(Put(mem, addr, data), addr, addr + |data| - 1)
  {}

  function Restored(mem: map<int, byte>, addr: word, data: seq<byte>): Load
    requires data != [] && addr + |data| <= W
  {
    Load(Put(mem, addr, data), addr, addr + |data| - 1)
  }

  lemma {:induction false} ReplayBlock(mem: map<int, byte>, addr: word, offset: nat, at: word, data: seq<byte>, rest: string)
    requires data != [] && addr + |data| <= W && at == Placed(addr, offset) && at + |data| <= W
    ensures LoadLines(Begin(mem), offset, Records(addr, data) + rest) == LoadLines(Restored(mem, at, data), offset, rest)
  {
    LoadRecords(Begin(mem), offset, addr, at, data, rest);
    StoreFirst(mem, at, data);
  }

  lemma {:induction false} ReplayTail(mem: map<int, byte>, addr: word, offset: nat, data: seq<byte>, rest: string)
    requires data != [] && addr + |data| <= W
    ensures |data| < W ==> LoadLines(Restored(mem, addr, data), offset, TRAILER + rest) == Done(Restored(mem, addr, data), 0, |data|)
    ensures |data| == W ==> LoadLines(Restored(mem, addr, data), offset, TRAILER + rest) == Done(Restored(mem, addr, data), 0, 0)
  {
    LoadTrailer(Restored(mem, addr, data), offset, rest);
  }

  /** The reported size is the byte count as a 32-bit number. */
  function Replayed(mem: map<int, byte>, addr: word, data: seq<byte>): Outcome
    requires addr + |data| <= W
  {
    if data == [] then Done(Begin(mem), 0, 2) else Done(Restored(mem, addr, data), 0, if |data| < W then |data| else 0)
  }

  lemma {:induction false} ReplayBody(mem: map<int, byte>, addr: word, offset: nat, data: seq<byte>, rest: string)
    requires addr + |data| <= W && Placed(addr, offset) + |data| <= W
    ensures LoadLines(Begin(mem), offset, Records(addr, data) + (TRAILER + rest)) == Replayed(mem, Placed(addr, offset), data)
  {
    var t := TRAILER + rest;
    if data == [] {
      LoadTrailer(Begin(mem), offset, rest);
      assert Records(addr, data) + t == t;
    } else {
      ReplayBlock(mem, addr, offset, Placed(addr, offset), data, t);
      ReplayTail(mem, Placed(addr, offset), offset, data, rest);
    }
  }

  /** What the records of save_serial do to load_serial at any offset. A block of at least
      one byte is restored at its address plus the offset and its size reported; the empty
      block reports a size of 2. */
  lemma {:induction false} SaveLoad(mem: map<int, byte>, addr: word, offset: nat, data: seq<byte>, rest: string)
    requires addr + |data| <= W && Placed(addr, offset) + |data| <= W
    ensures LoadLines(Begin(mem), offset, Save(addr, data) + rest) == Replayed(mem, Placed(addr, offset), data)
  {
    ReplayBody(mem, addr, offset, data, rest);
    LoadHeader(Begin(mem), offset, Records(addr, data) + (TRAILER + rest));
    SavedText(addr, data, rest);
  }

  lemma {:induction false} SavedText(addr: nat, data: seq<byte>, rest: string)
    ensures Save(addr, data) + rest == HEADER + (Records(addr, data) + (TRAILER + rest))
  {}

  lemma FromZeros()
    ensures FromBig([0, 0, 0, 0]) == 0
  {
    assert Big(0, 1) == [0] && Big(0, 2) == [0, 0] && Big(0, 3) == [0, 0, 0];
    Big4Value(0);
    assert Big4(0) == [0, 0, 0, 0];
  }

  /** A byte of the block is where it belongs afterwards. */
  lemma {:induction false} PutInside(mem: map<int, byte>, a: nat, data: seq<byte>, i: nat)
    requires a + |data| <= W && i < |data|
    ensures a + i in Put(mem, a, data) && Put(mem, a, data)[a + i] == data[i]
    decreases |data|
  {
    var m := mem[a % W := data[0]];
    if i > 0 {
      PutInside(m, a + 1, data[1..], i - 1);
    } else {
      PutOutside(m, a + 1, data[1..], a);
    }
  }

  predicate ByteAt(mem: map<int, byte>, a: int, b: byte) { a in mem && mem[a] == b }

  /** The block lies in memory from address a on. */
  predicate Contains(mem: map<int, byte>, a: nat, data: seq<byte>) {
    forall i :: 0 <= i < |data| ==> ByteAt(mem, a + i, data[i])
  }

  lemma {:induction false} PutContains(mem: map<int, byte>, a: nat, data: seq<byte>)
    requires a + |data| <= W
    ensures Contains(Put(mem, a, data), a, data)
  {
    forall i | 0 <= i < |data| ensures ByteAt(Put(mem, a, data), a + i, data[i]) {
      PutInside(mem, a, data, i);
    }
  }

  /** Nothing else is touched. */
  lemma {:induction false} PutOutside(mem: map<int, byte>, a: nat, data: seq<byte>, x: int)
    requires a + |data| <= W && !(a <= x < a + |data|)
    ensures x in Put(mem, a, data) <==> x in mem
    ensures x in mem ==> Put(mem, a, data)[x] == mem[x]
    decreases |data|
  {
    if data != [] {
      PutOutside(mem[a % W := data[0]], a + 1, data[1..], x);
    }
  }

  // ---------------------------------------------------------------- the code

  lemma {:induction false} SumBig(a: nat, n: nat)
    requires n > 0
    ensures Sum(Big(a, n)) == Sum(Big(a / 256, n - 1)) + a % 256
  {
    SumConcat(Big(a / 256, n - 1), [a % 256]);
    HexCons(a % 256, []);
  }

  lemma {:induction false} SumFields(addr: nat, data: seq<byte>)
    requires |data| <= BYTES_PER_RECORD
    ensures Sum(Fields(Big4(addr), data)) == |data| + 5 + Sum(Big4(addr)) + Sum(data)
  {
    var ab := Big4(addr);
    var count: byte := |ab| + |data| + 1;
    assert Fields(ab, data) == [count] + (ab + data);
    HexCons(count, ab + data);
    SumConcat(ab, data);
  }

  /** The loop that adds the address bytes, the lowest first. */
  method AddAddress(addr: word, start: nat) returns (checksum: nat)
    ensures checksum == start + Sum(Big4(addr))
  {
    checksum := start;
    var shifted: nat := addr;
    for i := 0 to 4
      invariant checksum + Sum(Big(shifted, 4 - i)) == start + Sum(Big(addr, 4))
    {
      SumBig(shifted, 4 - i);
      checksum := checksum + shifted % 256;
      shifted := shifted / 256;
    }
  }

  lemma {:induction false} RecordText(addr: nat, data: seq<byte>, length: byte, checksum: byte)
    requires length == |data| + 5 <= BYTES_PER_RECORD + 5 && checksum == Checksum(Fields(Big4(addr), data))
    ensures "S3" + Hex2(length) + HexText(Big4(addr)) + HexText(data) + Hex2(checksum) == Record(addr, data)
  {
    FieldsText(Big4(addr), data);
    assert "S" + ['3'] == "S3";
  }

  /** The checksum and the sprintf that format one record. */
  method FormatRecord(addr: word, ghost data: seq<byte>, hex: string, reclen: nat, sum: nat) returns (line: string)
    requires reclen == |data| <= BYTES_PER_RECORD && hex == HexText(data) && sum == Sum(data)
    ensures line == Record(addr, data) + "\n"
  {
    var length := 4 + reclen + 1;
    var checksum := AddAddress(addr, sum + length % 256 + length / 256 % 256);
    SumFields(addr, data);
    RecordText(addr, data, length, 255 - checksum % 256);
    line := "S3" + Hex2(length) + HexText(Big4(addr)) + hex + Hex2(255 - checksum % 256) + "\n";
  }

  lemma {:induction false} Collect(chunk: seq<byte>, c: byte)
    ensures HexText(chunk + [c]) == HexText(chunk) + Hex2(c) && Sum(chunk + [c]) == Sum(chunk) + c
  {
    HexTextConcat(chunk, [c]);
    SumConcat(chunk, [c]);
    HexCons(c, []);
  }

  lemma {:induction false} NextRecord(addr: nat, chunk: seq<byte>, rest: seq<byte>)
    requires chunk != [] && (|chunk| == BYTES_PER_RECORD || (rest == [] && |chunk| <= BYTES_PER_RECORD))
    ensures Records(addr, chunk + rest) == Record(addr, chunk) + "\n" + Records(addr + |chunk|, rest)
  {
    assert rest == [] ==> chunk + rest == chunk;
    assert (chunk + rest)[..|chunk|] == chunk && (chunk + rest)[|chunk|..] == rest;
  }

  /** What is still to be sent, given the bytes collected and those not yet read. */
  ghost predicate Remaining(out: string, addr: nat, chunk: seq<byte>, rest: seq<byte>, all: string) {
    out + Records(addr, chunk + rest) == all
  }

  lemma {:induction false} CollectRemaining(out: string, addr: nat, chunk: seq<byte>, rest: seq<byte>, all: string)
    requires rest != [] && Remaining(out, addr, chunk, rest, all)
    ensures Remaining(out, addr, chunk + [rest[0]], rest[1..], all)
  {
    assert chunk + rest == chunk + [rest[0]] + rest[1..];
  }

  lemma {:induction false} SendRemaining(out: string, addr: nat, chunk: seq<byte>, rest: seq<byte>, all: string)
    requires chunk != [] && (|chunk| == BYTES_PER_RECORD || (rest == [] && |chunk| <= BYTES_PER_RECORD))
    requires Remaining(out, addr, chunk, rest, all)
    ensures Remaining(out + (Record(addr, chunk) + "\n"), addr + |chunk|, [], rest, all)
  {
    NextRecord(addr, chunk, rest);
    assert [] + rest == rest;
    JoinText(out, Record(addr, chunk) + "\n", Records(addr + |chunk|, rest));
  }

  /** A record being collected: its text, its length and its sum, and what is to be sent. */
  ghost predicate Saving(out: string, addr: nat, hex: string, reclen: nat, checksum: nat, chunk: seq<byte>, rest: seq<byte>, all: string) {
    |chunk| == reclen && hex == HexText(chunk) && checksum == Sum(chunk) && Remaining(out, addr, chunk, rest, all)
  }

  /** The branch that writes the record collected, if there is anything in it. */
  method Dump(out: string, addr: nat, hex: string, reclen: nat, checksum: nat,
              ghost chunk: seq<byte>, ghost rest: seq<byte>, ghost all: string) returns (sent: string)
    requires addr + reclen <= W && Saving(out, addr, hex, reclen, checksum, chunk, rest, all)
    requires reclen == BYTES_PER_RECORD || (rest == [] && reclen <= BYTES_PER_RECORD)
    ensures Saving(sent, addr + reclen, "", 0, 0, [], rest, all)
  {
    if reclen == 0 {
      return out;
    }
    var line := FormatRecord(addr, chunk, hex, reclen, checksum);
    SendRemaining(out, addr, chunk, rest, all);
    return out + line;
  }

  /** The branch that collects one byte. */
  method CollectByte(c: byte, out: string, addr: nat, hex: string, reclen: nat, checksum: nat,
                     ghost chunk: seq<byte>, ghost rest: seq<byte>, ghost all: string) returns (hex1: string, checksum1: nat)
    requires rest != [] && rest[0] == c && Saving(out, addr, hex, reclen, checksum, chunk, rest, all)
    ensures Saving(out, addr, hex1, reclen + 1, checksum1, chunk + [c], rest[1..], all)
  {
    Collect(chunk, c);
    CollectRemaining(out, addr, chunk, rest, all);
    hex1, checksum1 := hex + Hex2(c), checksum + c;
  }

  lemma RestNext(block: seq<byte>, i: nat)
    requires i < |block|
    ensures block[i..][0] == block[i] && block[i..][1..] == block[i + 1..]
  {}

  /** The variables of save_serial. */
  datatype Saver = Saver(addr: nat, count: nat, reclen: nat, checksum: nat, hex: string)

  /** A record is being collected from the block at the address, with `count` bytes to come. */
  ghost predicate Collecting(out: string, v: Saver, address: nat, block: seq<byte>, chunk: seq<byte>, all: string) {
    && v.count <= |block| && v.addr + v.reclen + v.count == address + |block| <= W
    && Saving(out, v.addr, v.hex, v.reclen, v.checksum, chunk, block[|block| - v.count..], all)
  }

  /** The first half of a turn: one more byte, if there is one. */
  method CollectTurn(out: string, v: Saver, address: nat, block: seq<byte>, ghost chunk: seq<byte>, ghost all: string)
    returns (v1: Saver, ghost chunk1: seq<byte>)
    requires Collecting(out, v, address, block, chunk, all)
    ensures Collecting(out, v1, address, block, chunk1, all)
    ensures if v.count > 0 then v1.count == v.count - 1 && v1.reclen == v.reclen + 1 else v1 == v
  {
    v1, chunk1 := v, chunk;
    if v.count > 0 {
      var c := block[v.addr + v.reclen - address];
      RestNext(block, |block| - v.count);
      var hex, checksum := CollectByte(c, out, v.addr, v.hex, v.reclen, v.checksum, chunk, block[|block| - v.count..], all);
      v1, chunk1 := Saver(v.addr, v.count - 1, v.reclen + 1, checksum, hex), chunk + [c];
    }
  }

  /** The second half: a full record, or the last one, is sent. */
  method DumpTurn(out: string, v: Saver, ghost address: nat, ghost block: seq<byte>, ghost chunk: seq<byte>, ghost all: string)
    returns (out1: string, v1: Saver, ghost chunk1: seq<byte>)
    requires Collecting(out, v, address, block, chunk, all) && v.reclen <= BYTES_PER_RECORD
    ensures Collecting(out1, v1, address, block, chunk1, all) && v1.count == v.count
    ensures v1.reclen == if v.reclen == BYTES_PER_RECORD || v.count == 0 then 0 else v.reclen
  {
    out1, v1, chunk1 := out, v, chunk;
    if v.reclen == BYTES_PER_RECORD || v.count == 0 {
      out1 := Dump(out, v.addr, v.hex, v.reclen, v.checksum, chunk, block[|block| - v.count..], all);
      v1, chunk1 := Saver(v.addr + v.reclen, v.count, 0, 0, ""), [];
    }
  }

  /** The do loop of save_serial: collect bytes, dump full records and the last one. */
  method SaveLoop(sent: string, address: word, block: seq<byte>, ghost all: string) returns (out: string)
    requires address + |block| <= W && Remaining(sent, address, [], block, all)
    ensures Remaining(out, address + |block|, [], [], all)
  {
    out := sent;
    var v := Saver(address, |block|, 0, 0, "");
    ghost var chunk: seq<byte> := [];
    var more := true;
    while more
      invariant Collecting(out, v, address, block, chunk, all) && v.reclen < BYTES_PER_RECORD
      invariant !more ==> v.count == 0 && v.reclen == 0
      decreases v.count, more
    {
      v, chunk := CollectTurn(out, v, address, block, chunk, all);
      out, v, chunk := DumpTurn(out, v, address, block, chunk, all);
      more := v.count > 0;
    }
    NothingLeft(out, v.addr, v.hex, v.checksum, chunk, block, all);
  }

  lemma NothingLeft(out: string, addr: nat, hex: string, checksum: nat, chunk: seq<byte>, block: seq<byte>, all: string)
    requires Saving(out, addr, hex, 0, checksum, chunk, block[|block|..], all)
    ensures Remaining(out, addr, [], [], all)
  {
    assert block[|block|..] == [];
  }

  /** save_serial on the block found at the address: what it sends is the header, the
      sixteen-byte records in order, and the end record. */
  method SaveSerial(address: word, block: seq<byte>) returns (out: string)
    requires address + |block| <= W
    ensures out == Save(address, block)
  {
    ghost var none: seq<byte> := [];
    assert none + block == block && none + none == none;
    out := SaveLoop(HEADER, address, block, HEADER + Records(address, block));
    out := out + TRAILER;
  }

  lemma JoinText(a: string, b: string, c: string)
    ensures a + (b + c) == (a + b) + c
  {}

  /** The input seen by a loop that has already stored some characters of the line. */
  function Prefixed(line: string, r: Input): Input {
    match r
    case Text(l, rest) => Text(line + l, rest)
    case other => other
  }

  lemma {:induction false} ReadOne(line: string, s: string, room: nat)
    requires s != "" && room > 0 && s[0] != '\r' && s[0] != '\n' && s[0] != '\0' && s[0] != CTRL_C
    ensures Prefixed(line, ReadRecord(s, room)) == Prefixed(line + [s[0]], ReadRecord(s[1..], room - 1))
  {
    var r := ReadRecord(s[1..], room - 1);
    if r.Text? {
      assert line + ([s[0]] + r.line) == line + [s[0]] + r.line;
    }
  }

  /** read_record: the loop over the characters received. */
  method ReadLine(s: string) returns (r: Input)
    ensures r == ReadRecord(s, MAXRECLEN)
  {
    var line, rest, room := "", s, MAXRECLEN;
    assert Prefixed("", ReadRecord(s, MAXRECLEN)) == ReadRecord(s, MAXRECLEN);
    while room > 0
      invariant 0 <= room <= MAXRECLEN
      invariant ReadRecord(s, MAXRECLEN) == Prefixed(line, ReadRecord(rest, room))
    {
      if rest == "" {
        return Blocked;
      }
      var c := rest[0];
      if c == '\r' || c == '\n' {
        assert line + "" == line;
        return Text(line, rest[1..]);
      }
      if c == '\0' || c == CTRL_C {
        return Abort;
      }
      ReadOne(line, rest, room);
      line, rest, room := line + [c], rest[1..], room - 1;
    }
    assert line + "" == line;
    return Text(line, rest);
  }

  /** The target that a download writes to. */
  class Target {
    var mem: map<int, byte>

    constructor (m: map<int, byte>)
      ensures mem == m
    {
      mem := m;
    }

    /** The switch over the type of one record. */
    method TakeRecord(offset: nat, start: word, end: word, d: Decoded, rest: string) returns (st: Step)
      modifies this
      ensures st == LineStep(Load(old(mem), start, end), offset, d, rest)
      ensures mem == if st.Go? then st.l.mem else old(mem)
    {
      match d {
        case Bad =>
          st := Stop(Failed);
        case Rec(Data, addr, data) =>
          var store := Wrap(addr + offset);
          var last := Wrap(store + |data| - 1);
          mem := Put(mem, store, data);
          st := Go(Load(mem, if store < start then store else start, if last > end then last else end), rest);
        case Rec(End, addr, _) =>
          st := Stop(Done(Load(mem, start, end), addr, Wrap(end - start + 1)));
        case Rec(_, _, _) =>
          st := Go(Load(mem, start, end), rest);
      }
    }

    /** One turn of the loop: read a line, decode it, act on it. */
    method TakeLine(offset: nat, start: word, end: word, s: string) returns (st: Step)
      modifies this
      ensures st == LoadStep(Load(old(mem), start, end), offset, s)
      ensures mem == if st.Go? then st.l.mem else old(mem)
    {
      var r := ReadLine(s);
      match r {
        case Blocked => st := Stop(Pending);
        case Abort => st := Stop(Failed);
        case Text(line, rest) => st := TakeRecord(offset, start, end, Decode(line), rest);
      }
    }

    /** load_serial: the loop over the records received. */
    method LoadSerial(offset: nat, s: string) returns (o: Outcome)
      modifies this
      ensures o == LoadLines(Begin(old(mem)), offset, s)
      ensures o.Done? ==> mem == o.l.mem
    {
      var start: word, end: word := NO_START, 0;
      var rest := s;
      while true
        invariant LoadLines(Begin(old(mem)), offset, s) == LoadLines(Load(mem, start, end), offset, rest)
        decreases |rest|
      {
        ghost var l := Load(mem, start, end);
        var st := TakeLine(offset, start, end, rest);
        if st.Stop? {
          return st.o;
        }
        start, end, rest := st.l.start, st.l.end, st.rest;
      }
    }
  }

  method SaveForReplay(ghost mem: map<int, byte>, address: word, offset: nat, block: seq<byte>) returns (text: string)
    requires address + |block| <= W && Placed(address, offset) + |block| <= W
    ensures LoadLines(Begin(mem), offset, text) == Replayed(mem, Placed(address, offset), block)
  {
    text := SaveSerial(address, block);
    SaveLoad(mem, address, offset, block, "");
    assert text + "" == text;
  }

  /** An upload replayed as a download: the block is in memory, at its address plus the
      offset, nothing else has changed, and the reported size is its length. */
  method SaveAndLoad(t: Target, address: word, offset: nat, block: seq<byte>) returns (o: Outcome)
    requires address + |block| <= W && (address + offset) % 0x1_0000_0000 + |block| <= W
    modifies t
    ensures var at := (address + offset) % 0x1_0000_0000;
      && o == Replayed(old(t.mem), at, block) && t.mem == Put(old(t.mem), at, block)
      && Contains(t.mem, at, block)
  {
    ghost var was := t.mem;
    var text := SaveForReplay(was, address, offset, block);
    o := t.LoadSerial(offset, text);
    PutContains(was, Placed(address, offset), block);
  }
}
