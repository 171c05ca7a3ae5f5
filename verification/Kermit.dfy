/** The Kermit receiver of common/cmd_load.c: framing, block checks, control unquoting, and
    the checkpoint that lets a repeated packet be replayed.

    The functions are the receiver as a state machine over the incoming bytes; class
    Receiver is the code with its globals, proved to follow them. */
module Kermit {

  type byte = b: int | 0 <= b < 256

  const START: byte := 0x01
  const ETX: byte := 0x03
  const END: byte := 0x0D
  const SPACE := 0x20
  const K_ESCAPE: byte := 0x23
  const SEND_TYPE: byte := 83
  const DATA_TYPE: byte := 68
  const BREAK_TYPE: byte := 66

  function ToChar(x: int): byte { (x + SPACE) % 256 }

  function UnChar(c: byte): nat { (c - SPACE) % 256 }

  /** A character below space never occurs inside a packet. */
  predicate Control(c: byte) { c < SPACE }

  /** Escaped Kermit character to binary character. Bits 5 and 6 equal to 10 lose bit 6;
      a low part of 0x3f gains it. */
  function KTrans(c: byte): byte {
    if c / 32 % 4 == 2 then c - 64
    else if c % 128 == 63 then c + 64
    else c
  }

  /** The type-1 block check of a sum of characters. */
  function Check(sum: nat): byte { ToChar((sum + sum / 64 % 4) % 64) }

  function Sum(s: seq<byte>): nat {
    if s == [] then 0 else s[0] + Sum(s[1..])
  }

  // ---------------------------------------------------------------- the receiver

  /** The variables of k_data_*, os_data_* and k_recv. `mem` holds the bytes written from
      the start address on; `addr` is the write pointer relative to it. */
  datatype Rx = Rx(
    escape: bool, addr: nat, mem: seq<byte>,
    savedEscape: bool, savedAddr: nat,
    quote: byte, n: int, lastN: int)

  const INIT := Rx(false, 0, [], false, 0, K_ESCAPE, 0, -1)

  predicate Sane(rx: Rx) { rx.savedAddr <= rx.addr <= |rx.mem| }

  function Poke(mem: seq<byte>, a: nat, c: byte): seq<byte>
    requires a <= |mem|
  {
    if a < |mem| then mem[a := c] else mem + [c]
  }

  function StoreChar(rx: Rx, c: byte): Rx
    requires Sane(rx)
  {
    rx.(mem := Poke(rx.mem, rx.addr, c), addr := rx.addr + 1)
  }

  function DataChar(rx: Rx, c: byte): (r: Rx)
    requires Sane(rx)
    ensures Sane(r)
  {
    if rx.escape then StoreChar(rx, KTrans(c)).(escape := false)
    else if c == rx.quote then rx.(escape := true)
    else StoreChar(rx, c)
  }

  function Save(rx: Rx): Rx { rx.(savedEscape := rx.escape, savedAddr := rx.addr) }

  function Restore(rx: Rx): Rx { rx.(escape := rx.savedEscape, addr := rx.savedAddr) }

  datatype Reply = Ack(n: int) | Nak(n: int)

  /** What reading one packet comes to: the input ran out, or the receiver answered. */
  datatype Outcome = Starved | Next(rx: Rx, rest: seq<byte>, reply: Reply, done: bool)

  function Error(rx: Rx, rest: seq<byte>): Outcome { Next(Restore(rx), rest, Nak(rx.n), false) }

  /** A new sequence number checkpoints the download, a repeated one returns to it. */
  function Enter(rx: Rx, n: nat): (r: Rx)
    requires Sane(rx)
    ensures Sane(r)
  {
    if n == rx.lastN then Restore(rx.(n := n)) else Save(rx.(n := n, lastN := n))
  }

  /** The quote character announced by a send-initiate packet. */
  function QuoteOf(parms: seq<byte>): byte { if |parms| >= 6 then parms[5] else K_ESCAPE }

  function Finish(rx: Rx, typ: byte, parms: seq<byte>, rest: seq<byte>): Outcome {
    Next(if typ == SEND_TYPE then rx.(quote := QuoteOf(parms)) else rx, rest, Ack(rx.n), typ == BREAK_TYPE)
  }

  /** Block check and end of line. */
  function Tail(rx: Rx, typ: byte, sum: nat, parms: seq<byte>, s: seq<byte>): (r: Outcome)
    requires Sane(rx)
    ensures r.Next? ==> |r.rest| < |s| && Sane(r.rx)
  {
    if s == [] then Starved
    else if Control(s[0]) || s[0] != Check(sum) then Error(rx, s[1..])
    else if |s| == 1 then Starved
    else if s[1] != END then Error(rx, s[2..])
    else Finish(rx, typ, parms, s[2..])
  }

  /** The rest of a packet, `length` characters including the block check. */
  function Data(rx: Rx, typ: byte, length: int, sum: nat, parms: seq<byte>, s: seq<byte>): (r: Outcome)
    requires Sane(rx)
    ensures r.Next? ==> |r.rest| < |s| && Sane(r.rx)
    decreases |s|
  {
    if length <= 1 then Tail(rx, typ, sum, parms, s)
    else if s == [] then Starved
    else if Control(s[0]) then Error(rx, s[1..])
    else
      var rx1 := if typ == DATA_TYPE then DataChar(rx, s[0]) else rx;
      var parms1 := if typ == SEND_TYPE then parms + [s[0]] else parms;
      Data(rx1, typ, length - 1, sum + s[0], parms1, s[1..])
  }

  /** The extended header: two length characters and a header check. */
  function LongHeader(rx: Rx, typ: byte, sum: nat, s: seq<byte>): (r: Outcome)
    requires Sane(rx)
    ensures r.Next? ==> |r.rest| < |s| && Sane(r.rx)
  {
    if s == [] then Starved
    else if Control(s[0]) then Error(rx, s[1..])
    else if |s| == 1 then Starved
    else if Control(s[1]) then Error(rx, s[2..])
    else if |s| == 2 then Starved
    else if Control(s[2]) || s[2] != Check(sum + s[0] + s[1]) then Error(rx, s[3..])
    else Data(rx, typ, UnChar(s[0]) * 95 + UnChar(s[1]), sum + s[0] + s[1] + s[2], [], s[3..])
  }

  /** A packet after its length and sequence characters. */
  function Body(rx: Rx, length: int, sum: nat, s: seq<byte>): (r: Outcome)
    requires Sane(rx)
    ensures r.Next? ==> |r.rest| < |s| && Sane(r.rx)
  {
    if s == [] then Starved
    else if Control(s[0]) then Error(rx, s[1..])
    else if length - 1 == -2 then LongHeader(rx, s[0], sum + s[0], s[1..])
    else Data(rx, s[0], length - 1, sum + s[0], [], s[1..])
  }

  /** A packet after its start character. */
  function Packet(rx: Rx, s: seq<byte>): (r: Outcome)
    requires Sane(rx)
    ensures r.Next? ==> |r.rest| < |s| && Sane(r.rx)
  {
    if s == [] then Starved
    else if Control(s[0]) then Error(rx, s[1..])
    else if |s| == 1 then Starved
    else if Control(s[1]) then Error(rx, s[2..])
    else
      var n := UnChar(s[1]);
      Body(Enter(rx, n), UnChar(s[0]) - 1, s[0] as int + s[1], s[2..])
  }

  /** A whole call of k_recv: it waits for more input, was aborted by the operator, or
      has seen the end of the transmission. */
  datatype Session =
    | Waiting(rx: Rx, replies: seq<Reply>)
    | Aborted(rx: Rx, replies: seq<Reply>)
    | Complete(rx: Rx, replies: seq<Reply>)

  function Recv(rx: Rx, s: seq<byte>, replies: seq<Reply>): Session
    requires Sane(rx)
    decreases |s|
  {
    if s == [] then Waiting(rx, replies)
    else if s[0] == ETX then Aborted(rx, replies)
    else if s[0] != START then Recv(rx, s[1..], replies)
    else
      match Packet(rx, s[1..])
      case Starved => Waiting(rx, replies)
      case Next(rx1, rest, reply, done) =>
        if done then Complete(rx1, replies + [reply]) else Recv(rx1, rest, replies + [reply])
  }

  // ---------------------------------------------------------------- unquoting

  /** The binary characters a run of data characters stands for, and whether the run ends
      inside an escape. */
  function Unquote(quote: byte, escape: bool, s: seq<byte>): (seq<byte>, bool)
    decreases |s|
  {
    if s == [] then ([], escape)
    else if escape then
      var (out, e) := Unquote(quote, false, s[1..]);
      ([KTrans(s[0])] + out, e)
    else if s[0] == quote then Unquote(quote, true, s[1..])
    else
      var (out, e) := Unquote(quote, false, s[1..]);
      ([s[0]] + out, e)
  }

  lemma Assoc(x: seq<byte>, y: seq<byte>, z: seq<byte>)
    ensures (x + y) + z == x + (y + z)
  {}

  lemma {:induction false} UnquoteConcat(quote: byte, escape: bool, a: seq<byte>, b: seq<byte>)
    ensures var (x, e) := Unquote(quote, escape, a); var (y, f) := Unquote(quote, e, b);
      Unquote(quote, escape, a + b) == (x + y, f)
    decreases |a|
  {
    if a == [] {
      assert a + b == b;
      var y := Unquote(quote, escape, b).0;
      assert [] + y == y;
    } else {
      assert (a + b)[1..] == a[1..] + b;
      var e1 := !escape && a[0] == quote;
      UnquoteConcat(quote, e1, a[1..], b);
      var (x, e) := Unquote(quote, e1, a[1..]);
      var (y, f) := Unquote(quote, e, b);
      var h := if e1 then [] else [if escape then KTrans(a[0]) else a[0]];
      assert h + (x + y) == (h + x) + y;
    }
  }

  lemma UnquoteOne(quote: byte, escape: bool, c: byte)
    ensures Unquote(quote, escape, [c]) ==
      if escape then ([KTrans(c)], false) else if c == quote then ([], true) else ([c], false)
  {
    assert [c][1..] == [];
    assert Unquote(quote, false, []) == ([], false) && Unquote(quote, true, []) == ([], true);
    assert [c] + [] == [c] && [KTrans(c)] + [] == [KTrans(c)];
  }

  /** The sender's control prefixing. */
  function QuoteChar(quote: byte, c: byte): seq<byte> {
    if c % 128 < 32 then [quote, c + 64]
    else if c % 128 == 127 then [quote, c - 64]
    else if c % 128 == quote then [quote, c]
    else [c]
  }

  function Quote(quote: byte, s: seq<byte>): seq<byte> {
    if s == [] then [] else QuoteChar(quote, s[0]) + Quote(quote, s[1..])
  }

  /** A character usable as the control prefix: printable, and not a prefixed letter. */
  predicate GoodQuote(quote: byte) { 33 <= quote <= 62 || 96 <= quote <= 126 }

  lemma KTransBack(quote: byte, c: byte)
    requires GoodQuote(quote) && |QuoteChar(quote, c)| == 2
    ensures QuoteChar(quote, c)[0] == quote && KTrans(QuoteChar(quote, c)[1]) == c
  {
    var low: int := if c < 128 then c else c - 128;
    assert c % 128 == low;
    var e: int := QuoteChar(quote, c)[1];
    assert e % 128 == if e < 128 then e else e - 128;
    assert e / 32 % 4 == (if e < 128 then e else e - 128) / 32;
  }

  lemma {:induction false} QuoteCharRoundTrip(quote: byte, c: byte)
    requires GoodQuote(quote)
    ensures Unquote(quote, false, QuoteChar(quote, c)) == ([c], false)
    ensures forall i :: 0 <= i < |QuoteChar(quote, c)| ==> !Control(QuoteChar(quote, c)[i])
  {
    var h := QuoteChar(quote, c);
    if |h| == 2 {
      KTransBack(quote, c);
      UnquoteConcat(quote, false, [quote], [h[1]]);
      assert h == [quote] + [h[1]];
      UnquoteOne(quote, true, h[1]);
      UnquoteOne(quote, false, quote);
    } else {
      UnquoteOne(quote, false, c);
    }
  }

  lemma {:induction false} QuoteRoundTrip(quote: byte, s: seq<byte>)
    requires GoodQuote(quote)
    ensures Unquote(quote, false, Quote(quote, s)) == (s, false)
    ensures forall i :: 0 <= i < |Quote(quote, s)| ==> !Control(Quote(quote, s)[i])
  {
    if s != [] {
      QuoteRoundTrip(quote, s[1..]);
      var h, t := QuoteChar(quote, s[0]), Quote(quote, s[1..]);
      UnquoteConcat(quote, false, h, t);
      QuoteCharRoundTrip(quote, s[0]);
      assert s == [s[0]] + s[1..];
    }
  }

  // ---------------------------------------------------------------- views of a state

  /** The bytes delivered so far and the escape state: current, and at the checkpoint. */
  function Now(rx: Rx): (seq<byte>, bool)
    requires Sane(rx)
  {
    (rx.mem[..rx.addr], rx.escape)
  }

  function Then(rx: Rx): (seq<byte>, bool)
    requires Sane(rx)
  {
    (rx.mem[..rx.savedAddr], rx.savedEscape)
  }

  /** A later state of the same packet: same checkpoint, numbers and quote. */
  predicate SameCheckpoint(a: Rx, b: Rx)
    requires Sane(a) && Sane(b)
  {
    Then(a) == Then(b) && a.n == b.n && a.lastN == b.lastN && a.quote == b.quote
  }

  function FeedAll(rx: Rx, s: seq<byte>): (r: Rx)
    requires Sane(rx)
    ensures Sane(r)
    decreases |s|
  {
    if s == [] then rx else FeedAll(DataChar(rx, s[0]), s[1..])
  }

  lemma PokeView(mem: seq<byte>, a: nat, c: byte, k: nat)
    requires k <= a <= |mem|
    ensures Poke(mem, a, c)[..a + 1] == mem[..a] + [c]
    ensures Poke(mem, a, c)[..k] == mem[..k]
  {}

  lemma DataCharView(rx: Rx, c: byte)
    requires Sane(rx)
    ensures SameCheckpoint(DataChar(rx, c), rx)
    ensures var r := DataChar(rx, c);
      Now(r).0 == Now(rx).0 + Unquote(rx.quote, rx.escape, [c]).0 && Now(r).1 == Unquote(rx.quote, rx.escape, [c]).1
  {
    UnquoteOne(rx.quote, rx.escape, c);
    PokeView(rx.mem, rx.addr, c, rx.savedAddr);
    PokeView(rx.mem, rx.addr, KTrans(c), rx.savedAddr);
    assert Now(rx).0 + [] == Now(rx).0;
  }

  lemma {:induction false} FeedAllView(rx: Rx, s: seq<byte>)
    requires Sane(rx)
    ensures SameCheckpoint(FeedAll(rx, s), rx)
    ensures var (out, e) := Unquote(rx.quote, rx.escape, s);
      Now(FeedAll(rx, s)) == (Now(rx).0 + out, e)
    decreases |s|
  {
    if s == [] {
      assert Now(rx).0 + [] == Now(rx).0;
    } else {
      var c := s[0];
      DataCharView(rx, c);
      FeedAllView(DataChar(rx, c), s[1..]);
      assert s == [c] + s[1..];
      UnquoteConcat(rx.quote, rx.escape, [c], s[1..]);
      var (x, e) := Unquote(rx.quote, rx.escape, [c]);
      Assoc(Now(rx).0, x, Unquote(rx.quote, e, s[1..]).0);
    }
  }

  // ---------------------------------------------------------------- packets of a sender

  datatype Pkt = Pkt(n: nat, typ: byte, data: seq<byte>, long: bool)

  predicate Clean(s: seq<byte>) { forall i :: 0 <= i < |s| ==> !Control(s[i]) }

  predicate ValidPkt(p: Pkt) {
    && p.n < 64 && !Control(p.typ) && Clean(p.data)
    && (if p.long then |p.data| + 1 < 95 * 95 else |p.data| <= 91)
  }

  function LenChar(p: Pkt): byte { ToChar(if p.long then 0 else |p.data| + 3) }

  function SeqChar(p: Pkt): byte { ToChar(p.n) }

  function HeadSum(p: Pkt): nat { LenChar(p) as int + SeqChar(p) }

  /** The extended length characters. */
  function LenX(p: Pkt): (byte, byte) { (ToChar((|p.data| + 1) / 95), ToChar((|p.data| + 1) % 95)) }

  /** What stands between the sequence character and the data. */
  function Header(p: Pkt): seq<byte> {
    if p.long then
      var (hi, lo) := LenX(p);
      [p.typ, hi, lo, Check(HeadSum(p) + p.typ + hi + lo)]
    else [p.typ]
  }

  /** The packet after its sequence character. */
  function Rest(p: Pkt): seq<byte> {
    Header(p) + (p.data + [Check(HeadSum(p) + Sum(Header(p)) + Sum(p.data)), END])
  }

  lemma CheckRange(sum: nat)
    ensures 32 <= Check(sum) < 96
  {}

  /** Data, block check and end of line as a receiver may accept them after sum. */
  predicate DataOk(sum: nat, b: seq<byte>)
    requires |b| >= 2
  {
    Clean(b[..|b| - 1]) && b[|b| - 2] == Check(sum + Sum(b[..|b| - 2])) && b[|b| - 1] == END
  }

  function Fed(rx: Rx, typ: byte, d: seq<byte>): (r: Rx)
    requires Sane(rx)
    ensures Sane(r)
  {
    if typ == DATA_TYPE then FeedAll(rx, d) else rx
  }

  lemma SplitFirst(d: seq<byte>, c: seq<byte>, tail: seq<byte>)
    requires d != []
    ensures (d + c + tail)[0] == d[0] && (d + c + tail)[1..] == d[1..] + c + tail
  {}

  lemma SplitMiddle(x: seq<byte>, d: seq<byte>)
    requires d != []
    ensures x + d == x + [d[0]] + d[1..]
  {}

  lemma {:induction false} DataGood(rx: Rx, typ: byte, sum: nat, parms: seq<byte>, d: seq<byte>, tail: seq<byte>)
    requires Sane(rx) && Clean(d)
    ensures Data(rx, typ, |d| + 1, sum, parms, d + [Check(sum + Sum(d)), END] + tail) ==
            Finish(Fed(rx, typ, d), typ, if typ == SEND_TYPE then parms + d else parms, tail)
    decreases |d|
  {
    var s := d + [Check(sum + Sum(d)), END] + tail;
    if d == [] {
      assert s == [Check(sum), END] + tail && s[2..] == tail;
      CheckRange(sum);
      assert parms + d == parms;
    } else {
      var rx1 := if typ == DATA_TYPE then DataChar(rx, d[0]) else rx;
      var parms1 := if typ == SEND_TYPE then parms + [d[0]] else parms;
      DataGood(rx1, typ, sum + d[0], parms1, d[1..], tail);
      SplitFirst(d, [Check(sum + Sum(d)), END], tail);
      SplitMiddle(parms, d);
    }
  }

  /** How many characters of a damaged data part are read when its first error shows. */
  function DataFound(sum: nat, b: seq<byte>): (k: nat)
    requires |b| >= 2
    ensures 0 < k <= |b|
    decreases |b|
  {
    if |b| == 2 then (if Control(b[0]) || b[0] != Check(sum) then 1 else 2)
    else if Control(b[0]) then 1
    else 1 + DataFound(sum + b[0], b[1..])
  }

  /** Damage in the data part is found before the packet ends, and undoes the packet. */
  lemma {:induction false} DataBad(rx: Rx, typ: byte, sum: nat, parms: seq<byte>, b: seq<byte>, tail: seq<byte>)
    requires Sane(rx) && |b| >= 2 && !DataOk(sum, b)
    ensures Undone(rx, Data(rx, typ, |b| - 1, sum, parms, b + tail), b[DataFound(sum, b)..] + tail)
    decreases |b|
  {
    if |b| == 2 {
      TailBad(rx, typ, sum, parms, b, tail);
    } else if Control(b[0]) {
      DropBoth(b, tail, 1);
    } else {
      var rx1 := if typ == DATA_TYPE then DataChar(rx, b[0]) else rx;
      var parms1 := if typ == SEND_TYPE then parms + [b[0]] else parms;
      if typ == DATA_TYPE {
        DataCharView(rx, b[0]);
      }
      DataOkTail(sum, b);
      DataBad(rx1, typ, sum + b[0], parms1, b[1..], tail);
      DropBoth(b, tail, 1);
      assert b[1..][DataFound(sum + b[0], b[1..])..] == b[DataFound(sum, b)..];
    }
  }

  lemma DropBoth(b: seq<byte>, tail: seq<byte>, k: nat)
    requires k <= |b|
    ensures (b + tail)[k..] == b[k..] + tail
  {}

  lemma {:induction false} TailBad(rx: Rx, typ: byte, sum: nat, parms: seq<byte>, b: seq<byte>, tail: seq<byte>)
    requires Sane(rx) && |b| == 2 && !DataOk(sum, b)
    ensures Undone(rx, Tail(rx, typ, sum, parms, b + tail), b[DataFound(sum, b)..] + tail)
  {
    assert b[..1] == [b[0]] && b[..0] == [];
    DropBoth(b, tail, DataFound(sum, b));
  }

  lemma DataOkTail(sum: nat, b: seq<byte>)
    requires |b| > 2 && !Control(b[0])
    ensures DataOk(sum, b) == DataOk(sum + b[0], b[1..])
  {
    var m := |b|;
    assert b[..m - 2][1..] == b[1..][..m - 3];
    assert b[..m - 1] == [b[0]] + b[1..][..m - 2];
  }

  /** The receiver answered with a NAK and stands at its checkpoint again. */
  predicate Undone(rx: Rx, o: Outcome, rest: seq<byte>)
    requires Sane(rx)
  {
    && o.Next? && !o.done && o.reply == Nak(rx.n) && o.rest == rest
    && Sane(o.rx) && SameCheckpoint(o.rx, rx) && Now(o.rx) == Then(rx)
  }

  lemma LenCharRange(p: Pkt)
    requires ValidPkt(p)
    ensures !Control(LenChar(p)) && !Control(SeqChar(p)) && UnChar(SeqChar(p)) == p.n
    ensures UnChar(LenChar(p)) == if p.long then 0 else |p.data| + 3
  {}

  lemma LenXRange(p: Pkt)
    requires ValidPkt(p) && p.long
    ensures var (hi, lo) := LenX(p);
      !Control(hi) && !Control(lo) && UnChar(hi) * 95 + UnChar(lo) == |p.data| + 1
  {
    var m := |p.data| + 1;
    assert m / 95 < 95;
    assert UnChar(ToChar(m / 95)) == m / 95 && UnChar(ToChar(m % 95)) == m % 95;
  }

  function Opening(p: Pkt): seq<byte> { [LenChar(p), SeqChar(p)] }

  lemma {:induction false} GoodLong(rx: Rx, p: Pkt, d: seq<byte>)
    requires Sane(rx) && ValidPkt(p) && p.long
    ensures Body(rx, -1, HeadSum(p), Header(p) + d) ==
            Data(rx, p.typ, |p.data| + 1, HeadSum(p) + Sum(Header(p)), [], d)
  {
    var h := Header(p);
    LenXRange(p);
    SumFour(h[0], h[1], h[2], h[3]);
    CheckRange(HeadSum(p) + h[0] + h[1] + h[2]);
    var t := (h + d)[1..];
    assert t[0] == h[1] && t[1] == h[2] && t[2] == h[3] && t[3..] == d;
  }

  lemma {:induction false} GoodShort(rx: Rx, p: Pkt, d: seq<byte>)
    requires Sane(rx) && ValidPkt(p) && !p.long
    ensures Body(rx, |p.data| + 2, HeadSum(p), Header(p) + d) ==
            Data(rx, p.typ, |p.data| + 1, HeadSum(p) + Sum(Header(p)), [], d)
  {
    SumCons(p.typ, []);
    assert [p.typ] + [] == [p.typ];
    assert (Header(p) + d)[1..] == d;
  }

  /** An intact packet is accepted, and only its own data is fed. */
  lemma {:induction false} GoodPacket(rx: Rx, p: Pkt, tail: seq<byte>)
    requires Sane(rx) && ValidPkt(p)
    ensures Packet(rx, Opening(p) + (Rest(p) + tail)) ==
            Finish(Fed(Enter(rx, p.n), p.typ, p.data), p.typ, p.data, tail)
  {
    OpeningRead(rx, p, Rest(p) + tail);
    GoodBody(Enter(rx, p.n), p, tail);
  }

  /** The length that the length character gives to what follows it, or -1. */
  function BodyLen(p: Pkt): int { if p.long then -1 else |p.data| + 2 }

  lemma {:induction false} GoodBody(rx: Rx, p: Pkt, tail: seq<byte>)
    requires Sane(rx) && ValidPkt(p)
    ensures Body(rx, BodyLen(p), HeadSum(p), Rest(p) + tail) == Finish(Fed(rx, p.typ, p.data), p.typ, p.data, tail)
  {
    var sum := HeadSum(p) + Sum(Header(p));
    var d := p.data + [Check(sum + Sum(p.data)), END] + tail;
    RestText(p, tail);
    HeaderRead(rx, p, d);
    DataGood(rx, p.typ, sum, [], p.data, tail);
    assert [] + p.data == p.data;
  }

  lemma RestText(p: Pkt, tail: seq<byte>)
    ensures Rest(p) + tail == Header(p) + (p.data + [Check(HeadSum(p) + Sum(Header(p)) + Sum(p.data)), END] + tail)
  {}

  lemma {:induction false} HeaderRead(rx: Rx, p: Pkt, d: seq<byte>)
    requires Sane(rx) && ValidPkt(p)
    ensures Body(rx, BodyLen(p), HeadSum(p), Header(p) + d) == Data(rx, p.typ, |p.data| + 1, HeadSum(p) + Sum(Header(p)), [], d)
  {
    if p.long {
      GoodLong(rx, p, d);
    } else {
      GoodShort(rx, p, d);
    }
  }

  /** Length and sequence character of a packet. */
  lemma OpeningRead(rx: Rx, p: Pkt, t: seq<byte>)
    requires Sane(rx) && ValidPkt(p)
    ensures Packet(rx, Opening(p) + t) == Body(Enter(rx, p.n), BodyLen(p), HeadSum(p), t)
  {
    LenCharRange(p);
    assert (Opening(p) + t)[2..] == t;
  }

  lemma SumCons(c: byte, t: seq<byte>)
    ensures Sum([c] + t) == c + Sum(t)
  {
    assert ([c] + t)[1..] == t;
  }

  lemma SumFour(a: byte, b: byte, c: byte, d: byte)
    ensures Sum([a, b, c, d]) == a as int + b + c + d
  {
    SumCons(a, [b, c, d]);
    SumCons(b, [c, d]);
    SumCons(c, [d]);
    SumCons(d, []);
    assert [a, b, c, d] == [a] + [b, c, d] && [b, c, d] == [b] + [c, d] && [c, d] == [c] + [d] && [d] == [d] + [];
  }

  predicate NoMarks(s: seq<byte>) { forall i :: 0 <= i < |s| ==> s[i] != START && s[i] != ETX }

  predicate HeaderOk(sum: nat, h: seq<byte>)
    requires |h| == 4
  {
    Clean(h) && h[3] == Check(sum + h[0] + h[1] + h[2])
  }

  /** Damage to a packet behind its sequence character that its checks can show: characters
      were replaced, and a control character, a block check or the end of line is wrong.
      In an extended packet either the header shows it or the length is intact. */
  predicate Damaged(p: Pkt, b: seq<byte>)
    requires ValidPkt(p)
  {
    && |b| == |Rest(p)|
    && if p.long then
         || !HeaderOk(HeadSum(p), b[..4])
         || ((b[1], b[2]) == LenX(p) && !DataOk(LongSum(p, b), b[4..]))
       else Control(b[0]) || !DataOk(HeadSum(p) + b[0], b[1..])
  }

  function LongSum(p: Pkt, b: seq<byte>): nat
    requires |b| >= 4
  {
    HeadSum(p) + b[0] + b[1] + b[2] + b[3]
  }

  /** How many characters behind the sequence character are read when the first error shows. */
  function Found(p: Pkt, b: seq<byte>): (k: nat)
    requires |b| == |Rest(p)|
    ensures 0 < k <= |b|
  {
    if Control(b[0]) then 1
    else if !p.long then 1 + DataFound(HeadSum(p) + b[0], b[1..])
    else if Control(b[1]) then 2
    else if Control(b[2]) then 3
    else if !HeaderOk(HeadSum(p), b[..4]) then 4
    else 4 + DataFound(LongSum(p, b), b[4..])
  }

  /** Every damaged packet is refused where its first error shows, and undone. */
  lemma {:induction false} BadPacket(rx: Rx, p: Pkt, b: seq<byte>, tail: seq<byte>)
    requires Sane(rx) && ValidPkt(p) && Damaged(p, b)
    ensures Undone(Enter(rx, p.n), Packet(rx, Opening(p) + (b + tail)), b[Found(p, b)..] + tail)
  {
    LenCharRange(p);
    var s := Opening(p) + (b + tail);
    var rx1 := Enter(rx, p.n);
    assert s[2..] == b + tail;
    DropBoth(b, tail, 1);
    if !Control(b[0]) {
      if p.long {
        BadLong(rx1, p, b, tail);
      } else {
        BadShort(rx1, p, b, tail);
      }
    }
  }

  lemma {:induction false} BadShort(rx: Rx, p: Pkt, b: seq<byte>, tail: seq<byte>)
    requires Sane(rx) && ValidPkt(p) && !p.long && Damaged(p, b) && !Control(b[0])
    ensures Undone(rx, Data(rx, b[0], |p.data| + 1, HeadSum(p) + b[0], [], b[1..] + tail), b[Found(p, b)..] + tail)
  {
    DataBad(rx, b[0], HeadSum(p) + b[0], [], b[1..], tail);
    DropTwice(b, 1, DataFound(HeadSum(p) + b[0], b[1..]));
  }

  lemma DropTwice(b: seq<byte>, i: nat, j: nat)
    requires i + j <= |b|
    ensures b[i..][j..] == b[i + j..]
  {}

  lemma {:induction false} BadLong(rx: Rx, p: Pkt, b: seq<byte>, tail: seq<byte>)
    requires Sane(rx) && ValidPkt(p) && p.long && Damaged(p, b) && !Control(b[0])
    ensures Undone(rx, LongHeader(rx, b[0], HeadSum(p) + b[0], b[1..] + tail), b[Found(p, b)..] + tail)
  {
    HeadOf(b, tail);
    if Control(b[1]) || Control(b[2]) || !HeaderOk(HeadSum(p), b[..4]) {
      BadHeader(rx, p, b, tail);
    } else {
      BadLongData(rx, p, b, tail);
    }
  }

  /** The three characters behind the type, and what is left behind each of them. */
  lemma HeadOf(b: seq<byte>, tail: seq<byte>)
    requires |b| >= 4
    ensures var t := b[1..] + tail;
      && t[0] == b[1] && t[1] == b[2] && t[2] == b[3]
      && t[1..] == b[2..] + tail && t[2..] == b[3..] + tail && t[3..] == b[4..] + tail
    ensures b[..4] == [b[0], b[1], b[2], b[3]]
  {}

  lemma {:induction false} BadHeader(rx: Rx, p: Pkt, b: seq<byte>, tail: seq<byte>)
    requires Sane(rx) && ValidPkt(p) && p.long && |b| == |Rest(p)| && !Control(b[0])
    requires Control(b[1]) || Control(b[2]) || !HeaderOk(HeadSum(p), b[..4])
    ensures Undone(rx, LongHeader(rx, b[0], HeadSum(p) + b[0], b[1..] + tail), b[Found(p, b)..] + tail)
  {
    HeadOf(b, tail);
  }

  lemma {:induction false} BadLongData(rx: Rx, p: Pkt, b: seq<byte>, tail: seq<byte>)
    requires Sane(rx) && ValidPkt(p) && p.long && Damaged(p, b) && HeaderOk(HeadSum(p), b[..4])
    ensures Undone(rx, LongHeader(rx, b[0], HeadSum(p) + b[0], b[1..] + tail), b[Found(p, b)..] + tail)
  {
    HeadOf(b, tail);
    LenXRange(p);
    DataBad(rx, b[0], LongSum(p, b), [], b[4..], tail);
    DropTwice(b, 4, DataFound(LongSum(p, b), b[4..]));
  }

  // ---------------------------------------------------------------- what the block check detects

  /** Two characters of which one may be the other with one bit inverted. */
  predicate BitApart(x: int, y: int) { (if x < y then y - x else x - y) in {1, 2, 4, 8, 16, 32, 64, 128} }

  /** A text with one character replaced by one that is a bit apart. */
  predicate OneBit(s: seq<byte>, b: seq<byte>, i: nat) {
    i < |s| == |b| && BitApart(s[i], b[i]) && forall j :: 0 <= j < |s| && j != i ==> b[j] == s[j]
  }

  lemma CheckOneBit(s: nat, t: nat)
    requires BitApart(s, t)
    ensures Check(s) != Check(t)
  {
    CheckNear(if s < t then s else t, if s < t then t - s else s - t);
  }

  lemma CheckNear(s: nat, d: nat)
    requires d in {1, 2, 4, 8, 16, 32, 64, 128}
    ensures Check(s) != Check(s + d)
  {
    var h, l := s / 64, s % 64;
    NextQuarter(h);
    CheckOf(h, l);
    if d >= 64 {
      NextQuarter(h + 1);
      CheckOf(h + d / 64, l);
    } else if l + d < 64 {
      CheckOf(h, l + d);
    } else {
      CheckOf(h + 1, l + d - 64);
    }
  }

  lemma NextQuarter(h: nat)
    ensures (h + 1) % 4 == if h % 4 == 3 then 0 else h % 4 + 1
  {}

  /** The check character in terms of the low six bits of the sum and the two above them. */
  lemma CheckOf(h: nat, l: nat)
    requires l < 64
    ensures var m := l + h % 4; Check(64 * h + l) == 32 + if m < 64 then m else m - 64
  {
    LowSix(h, l);
    var m := l + h % 4;
    if m < 64 {
      LowSix(h, m);
    } else {
      LowSix(h + 1, m - 64);
    }
  }

  lemma LowSix(h: nat, l: nat)
    requires l < 64
    ensures (64 * h + l) / 64 == h && (64 * h + l) % 64 == l
  {}

  lemma {:induction false} SumOneBit(s: seq<byte>, b: seq<byte>, i: nat)
    requires OneBit(s, b, i)
    ensures Sum(b) - Sum(s) == b[i] as int - s[i]
  {
    if i > 0 {
      assert OneBit(s[1..], b[1..], i - 1);
      SumOneBit(s[1..], b[1..], i - 1);
    } else {
      assert s[1..] == b[1..];
    }
  }

  /** One inverted bit in data, block check or end of line shows. */
  lemma {:induction false} DataOneBit(sum: nat, d: seq<byte>, b: seq<byte>, i: nat)
    requires OneBit(d + [Check(sum + Sum(d)), END], b, i)
    ensures !DataOk(sum, b)
  {
    var s := d + [Check(sum + Sum(d)), END];
    if i < |d| {
      assert OneBit(d, b[..|d|], i);
      SumOneBit(d, b[..|d|], i);
      CheckOneBit(sum + Sum(d), sum + Sum(b[..|d|]));
    } else {
      assert b[..|d|] == d;
    }
  }

  /** One inverted bit in type, extended length or header check shows. */
  lemma {:induction false} HeaderOneBit(sum: nat, h: seq<byte>, b: seq<byte>, i: nat)
    requires |h| == 4 && h[3] == Check(sum + h[0] + h[1] + h[2]) && OneBit(h, b, i)
    ensures !HeaderOk(sum, b)
  {
    if i < 3 {
      CheckOneBit(sum + h[0] + h[1] + h[2], sum + b[0] + b[1] + b[2]);
    }
  }

  lemma {:induction false} BitDamagesShort(p: Pkt, b: seq<byte>, i: nat)
    requires ValidPkt(p) && !p.long && OneBit(Rest(p), b, i)
    ensures Damaged(p, b)
  {
    var s, sum := Rest(p), HeadSum(p) + Sum(Header(p));
    ShortRest(p);
    if i > 0 {
      assert OneBit(s[1..], b[1..], i - 1);
      DataOneBit(sum, p.data, b[1..], i - 1);
    } else {
      assert b[1..] == s[1..];
      TypeOneBit(HeadSum(p), p.typ, b[0], p.data, b[1..]);
    }
  }

  lemma ShortRest(p: Pkt)
    requires !p.long
    ensures var sum := HeadSum(p) + p.typ;
      Sum(Header(p)) == p.typ && Rest(p)[0] == p.typ && Rest(p)[1..] == p.data + [Check(sum + Sum(p.data)), END]
  {
    SumCons(p.typ, []);
    assert [p.typ] + [] == [p.typ];
  }

  /** A wrong type makes the block check of the same data wrong. */
  lemma TypeOneBit(sum: nat, x: byte, y: byte, d: seq<byte>, b: seq<byte>)
    requires BitApart(x, y) && b == d + [Check(sum + x + Sum(d)), END]
    ensures !DataOk(sum + y, b)
  {
    assert b[..|b| - 2] == d;
    CheckOneBit(sum + x + Sum(d), sum + y + Sum(d));
  }

  lemma {:induction false} BitDamagesLong(p: Pkt, b: seq<byte>, i: nat)
    requires ValidPkt(p) && p.long && OneBit(Rest(p), b, i)
    ensures Damaged(p, b)
  {
    var s, h := Rest(p), Header(p);
    LongRest(p);
    OneBitParts(s, b, i, 4);
    if i < 4 {
      HeaderOneBit(HeadSum(p), h, b[..4], i);
    } else {
      SumFour(h[0], h[1], h[2], h[3]);
      DataOneBit(HeadSum(p) + Sum(h), p.data, b[4..], i - 4);
    }
  }

  lemma LongRest(p: Pkt)
    requires p.long
    ensures var h := Header(p);
      |h| == 4 && Rest(p)[..4] == h && Rest(p)[4..] == p.data + [Check(HeadSum(p) + Sum(h) + Sum(p.data)), END]
  {}

  lemma OneBitParts(s: seq<byte>, b: seq<byte>, i: nat, k: nat)
    requires OneBit(s, b, i) && k <= |s|
    ensures if i < k then OneBit(s[..k], b[..k], i) else b[..k] == s[..k] && OneBit(s[k..], b[k..], i - k)
  {}

  /** Whichever bit of whichever character behind the sequence character is inverted, the
      packet is refused and nothing of it is kept. */
  lemma {:induction false} OneBitRefused(rx: Rx, p: Pkt, b: seq<byte>, i: nat, tail: seq<byte>)
    requires Sane(rx) && ValidPkt(p) && OneBit(Rest(p), b, i)
    ensures var o := Packet(rx, Opening(p) + (b + tail));
      o.Next? && o.reply == Nak(p.n) && !o.done && Sane(o.rx) && Now(o.rx) == Then(Enter(rx, p.n))
  {
    if p.long {
      BitDamagesLong(p, b, i);
    } else {
      BitDamagesShort(p, b, i);
    }
    BadPacket(rx, p, b, tail);
  }

  /** The same for the sequence character: the packet is refused, under the number it seems
      to have. */
  lemma {:induction false} SequenceBitRefused(rx: Rx, p: Pkt, c: byte, tail: seq<byte>)
    requires Sane(rx) && ValidPkt(p) && BitApart(SeqChar(p), c)
    ensures var o := Packet(rx, [LenChar(p), c] + (Rest(p) + tail));
      o.Next? && o.reply.Nak? && !o.done
  {
    LenCharRange(p);
    assert ([LenChar(p), c] + (Rest(p) + tail))[2..] == Rest(p) + tail;
    if !Control(c) {
      var rx1, sum := Enter(rx, UnChar(c)), LenChar(p) as int + c;
      if p.long {
        LongRefused(rx1, p, sum, tail);
      } else {
        ShortRefused(rx1, p, sum, tail);
      }
    }
  }

  lemma {:induction false} ShortRefused(rx: Rx, p: Pkt, sum: nat, tail: seq<byte>)
    requires Sane(rx) && ValidPkt(p) && !p.long && BitApart(HeadSum(p), sum)
    ensures var o := Body(rx, |p.data| + 2, sum, Rest(p) + tail); o.Next? && o.reply.Nak? && !o.done
  {
    ShortRest(p);
    var b := Rest(p)[1..];
    assert (Rest(p) + tail)[1..] == b + tail && b[..|p.data|] == p.data;
    CheckOneBit(HeadSum(p) + p.typ + Sum(p.data), sum + p.typ + Sum(p.data));
    DataBad(rx, p.typ, sum + p.typ, [], b, tail);
  }

  lemma {:induction false} LongRefused(rx: Rx, p: Pkt, sum: nat, tail: seq<byte>)
    requires Sane(rx) && ValidPkt(p) && p.long && BitApart(HeadSum(p), sum)
    ensures var o := Body(rx, -1, sum, Rest(p) + tail); o.Next? && o.reply.Nak? && !o.done
  {
    LongRest(p);
    HeadOf(Rest(p), tail);
    var h := Header(p);
    assert Rest(p)[0] == h[0] && Rest(p)[1] == h[1] && Rest(p)[2] == h[2] && Rest(p)[3] == h[3];
    CheckOneBit(HeadSum(p) + h[0] + h[1] + h[2], sum + h[0] + h[1] + h[2]);
  }

  // ---------------------------------------------------------------- sessions

  /** One transmission of a packet, after any noise on the line. */
  datatype Attempt = Good(noise: seq<byte>) | Bad(noise: seq<byte>, damage: seq<byte>)

  /** No start or abort character behind the place where the damage shows. One that is
      itself the error, or comes before it, is read as part of the packet. */
  predicate Harmless(p: Pkt, b: seq<byte>)
    requires |b| == |Rest(p)|
  {
    NoMarks(b[Found(p, b)..])
  }

  predicate ValidAttempt(p: Pkt, a: Attempt)
    requires ValidPkt(p)
  {
    NoMarks(a.noise) && (a.Bad? ==> Damaged(p, a.damage) && Harmless(p, a.damage))
  }

  function Frame(p: Pkt, a: Attempt): seq<byte> {
    a.noise + [START] + Opening(p) + Sent(p, a)
  }

  function Frames(p: Pkt, atts: seq<Attempt>): seq<byte> {
    if atts == [] then [] else Frame(p, atts[0]) + Frames(p, atts[1..])
  }

  function Answer(p: Pkt, a: Attempt): Reply { if a.Good? then Ack(p.n) else Nak(p.n) }

  function Answers(p: Pkt, atts: seq<Attempt>): seq<Reply> {
    if atts == [] then [] else [Answer(p, atts[0])] + Answers(p, atts[1..])
  }

  lemma {:induction false} SkipNoise(rx: Rx, noise: seq<byte>, s: seq<byte>, replies: seq<Reply>)
    requires Sane(rx) && NoMarks(noise)
    ensures Recv(rx, noise + s, replies) == Recv(rx, s, replies)
  {
    if noise == [] {
      assert noise + s == s;
    } else {
      assert (noise + s)[1..] == noise[1..] + s;
      SkipNoise(rx, noise[1..], s, replies);
    }
  }

  /** The receiver is about to see packet number n, with v delivered before it. */
  predicate Ready(rx: Rx, n: nat, v: (seq<byte>, bool)) {
    Sane(rx) && if rx.lastN == n then Then(rx) == v else Now(rx) == v
  }

  /** The receiver has seen packet number n at least once. */
  predicate Seen(rx: Rx, n: nat, v: (seq<byte>, bool)) {
    Sane(rx) && rx.lastN == n && Then(rx) == v
  }

  /** What an accepted packet adds. */
  function After(v: (seq<byte>, bool), quote: byte, p: Pkt): (seq<byte>, bool) {
    if p.typ == DATA_TYPE then
      var (out, e) := Unquote(quote, v.1, p.data);
      (v.0 + out, e)
    else v
  }

  function QuoteAfter(quote: byte, p: Pkt): byte {
    if p.typ == SEND_TYPE then QuoteOf(p.data) else quote
  }

  lemma EnterReady(rx: Rx, n: nat, v: (seq<byte>, bool))
    requires Ready(rx, n, v)
    ensures var r := Enter(rx, n);
      Seen(r, n, v) && Now(r) == v && r.n == n && r.quote == rx.quote
  {}

  /** What follows the sequence character in a transmission. */
  function Sent(p: Pkt, a: Attempt): seq<byte> { if a.Good? then Rest(p) else a.damage }

  /** The receiver finds the start of a transmission and reads one packet. */
  lemma {:induction false} FrameRead(rx: Rx, p: Pkt, a: Attempt, tail: seq<byte>, replies: seq<Reply>)
    requires Sane(rx) && NoMarks(a.noise)
    ensures Recv(rx, Frame(p, a) + tail, replies) ==
      match Packet(rx, Opening(p) + (Sent(p, a) + tail))
      case Starved => Waiting(rx, replies)
      case Next(rx1, rest, reply, done) =>
        if done then Complete(rx1, replies + [reply]) else Recv(rx1, rest, replies + [reply])
  {
    var t := Opening(p) + (Sent(p, a) + tail);
    var s := [START] + t;
    assert Frame(p, a) + tail == a.noise + s;
    SkipNoise(rx, a.noise, s, replies);
    assert s[1..] == t;
  }

  /** One intact transmission, whatever came before it. */
  lemma {:induction false} GoodStep(rx: Rx, p: Pkt, noise: seq<byte>, tail: seq<byte>, v: (seq<byte>, bool), replies: seq<Reply>)
    returns (rx1: Rx)
    requires ValidPkt(p) && NoMarks(noise) && Ready(rx, p.n, v)
    ensures Seen(rx1, p.n, v) && rx1.quote == QuoteAfter(rx.quote, p)
    ensures Now(rx1) == After(v, rx.quote, p)
    ensures Recv(rx, Frame(p, Good(noise)) + tail, replies) ==
      if p.typ == BREAK_TYPE then Complete(rx1, replies + [Ack(p.n)]) else Recv(rx1, tail, replies + [Ack(p.n)])
  {
    EnterReady(rx, p.n, v);
    var r := Enter(rx, p.n);
    GoodPacket(rx, p, tail);
    FrameRead(rx, p, Good(noise), tail, replies);
    if p.typ == DATA_TYPE {
      FeedAllView(r, p.data);
    }
    rx1 := Finish(Fed(r, p.typ, p.data), p.typ, p.data, tail).rx;
  }

  /** Any damaged transmission: the receiver asks again, has kept nothing of it, and goes on
      behind the place where the damage shows. */
  lemma {:induction false} BadFrame(rx: Rx, p: Pkt, a: Attempt, tail: seq<byte>, v: (seq<byte>, bool), replies: seq<Reply>)
    returns (rx1: Rx)
    requires ValidPkt(p) && a.Bad? && NoMarks(a.noise) && Damaged(p, a.damage) && Ready(rx, p.n, v)
    ensures Seen(rx1, p.n, v) && rx1.quote == rx.quote && Now(rx1) == v
    ensures Recv(rx, Frame(p, a) + tail, replies) ==
            Recv(rx1, a.damage[Found(p, a.damage)..] + tail, replies + [Nak(p.n)])
  {
    EnterReady(rx, p.n, v);
    var b := a.damage;
    BadPacket(rx, p, b, tail);
    FrameRead(rx, p, a, tail, replies);
    rx1 := Packet(rx, Opening(p) + (b + tail)).rx;
  }

  /** One harmless damaged transmission: the next one is looked for behind it. */
  lemma {:induction false} BadStep(rx: Rx, p: Pkt, a: Attempt, tail: seq<byte>, v: (seq<byte>, bool), replies: seq<Reply>)
    returns (rx1: Rx)
    requires ValidPkt(p) && a.Bad? && ValidAttempt(p, a) && Ready(rx, p.n, v)
    ensures Seen(rx1, p.n, v) && rx1.quote == rx.quote && Now(rx1) == v
    ensures Recv(rx, Frame(p, a) + tail, replies) == Recv(rx1, tail, replies + [Nak(p.n)])
  {
    rx1 := BadFrame(rx, p, a, tail, v, replies);
    SkipNoise(rx1, a.damage[Found(p, a.damage)..], tail, replies + [Nak(p.n)]);
  }

  // ---------------------------------------------------------------- marks inside damage

  /** The index of the first start or abort character, or |s|. */
  function FirstMark(s: seq<byte>): (m: nat)
    ensures m <= |s| && NoMarks(s[..m]) && (m < |s| ==> s[m] == START || s[m] == ETX)
    ensures m == |s| <==> NoMarks(s)
  {
    if s == [] || s[0] == START || s[0] == ETX then 0
    else
      var m := FirstMark(s[1..]);
      assert s[..m + 1] == [s[0]] + s[1..][..m];
      assert NoMarks(s[1..]) <==> NoMarks(s);
      m + 1
  }

  /** What the receiver makes of a line from its first mark on: nothing, an abort, or the
      packet that seems to start there. */
  lemma {:induction false} MarkDecides(rx: Rx, s: seq<byte>, tail: seq<byte>, replies: seq<Reply>)
    requires Sane(rx)
    ensures var m := FirstMark(s);
      Recv(rx, s + tail, replies) ==
        if m == |s| then Recv(rx, tail, replies)
        else if s[m] == ETX then Aborted(rx, replies)
        else Recv(rx, s[m..] + tail, replies)
  {
    var m := FirstMark(s);
    assert s + tail == s[..m] + (s[m..] + tail);
    SkipNoise(rx, s[..m], s[m..] + tail, replies);
    if m == |s| {
      assert s[m..] + tail == tail;
    }
  }

  /** Any damaged transmission, whatever its characters became. The packet is refused and
      undone; behind the place where the damage shows, the first mark decides. */
  lemma {:induction false} DamageDecides(rx: Rx, p: Pkt, a: Attempt, tail: seq<byte>, v: (seq<byte>, bool), replies: seq<Reply>)
    returns (rx1: Rx)
    requires ValidPkt(p) && a.Bad? && NoMarks(a.noise) && Damaged(p, a.damage) && Ready(rx, p.n, v)
    ensures Seen(rx1, p.n, v) && rx1.quote == rx.quote && Now(rx1) == v
    ensures var left := a.damage[Found(p, a.damage)..];
      var m := FirstMark(left);
      Recv(rx, Frame(p, a) + tail, replies) ==
        if m == |left| then Recv(rx1, tail, replies + [Nak(p.n)])
        else if left[m] == ETX then Aborted(rx1, replies + [Nak(p.n)])
        else Recv(rx1, left[m..] + tail, replies + [Nak(p.n)])
  {
    rx1 := BadFrame(rx, p, a, tail, v, replies);
    MarkDecides(rx1, a.damage[Found(p, a.damage)..], tail, replies + [Nak(p.n)]);
  }

  /** A control character ends whatever packet is being read. */
  lemma {:induction false} ZeroEndsData(rx: Rx, typ: byte, length: int, sum: nat, parms: seq<byte>, s: seq<byte>)
    requires Sane(rx)
    ensures Data(rx, typ, length, sum, parms, s + [0]).Next?
    decreases |s|
  {
    if length > 1 && s != [] && !Control(s[0]) {
      assert (s + [0])[1..] == s[1..] + [0];
      var rx1 := if typ == DATA_TYPE then DataChar(rx, s[0]) else rx;
      var parms1 := if typ == SEND_TYPE then parms + [s[0]] else parms;
      ZeroEndsData(rx1, typ, length - 1, sum + s[0], parms1, s[1..]);
    }
  }

  lemma {:induction false} ZeroEndsBody(rx: Rx, length: int, sum: nat, s: seq<byte>)
    requires Sane(rx)
    ensures Body(rx, length, sum, s + [0]).Next?
  {
    var t := s + [0];
    if s != [] && !Control(s[0]) {
      assert t[1..] == s[1..] + [0];
      if length - 1 == -2 {
        ZeroEndsHeader(rx, s[0], sum + s[0], s[1..]);
      } else {
        ZeroEndsData(rx, s[0], length - 1, sum + s[0], [], s[1..]);
      }
    }
  }

  lemma {:induction false} ZeroEndsHeader(rx: Rx, typ: byte, sum: nat, s: seq<byte>)
    requires Sane(rx)
    ensures LongHeader(rx, typ, sum, s + [0]).Next?
  {
    if |s| >= 3 {
      assert (s + [0])[3..] == s[3..] + [0];
      ZeroEndsData(rx, typ, UnChar(s[0]) * 95 + UnChar(s[1]), sum + s[0] + s[1] + s[2], [], s[3..]);
    }
  }

  lemma {:induction false} ZeroEndsPacket(rx: Rx, s: seq<byte>)
    requires Sane(rx)
    ensures Packet(rx, s + [0]).Next?
  {
    if |s| >= 2 && !Control(s[0]) && !Control(s[1]) {
      assert (s + [0])[2..] == s[2..] + [0];
      ZeroEndsBody(Enter(rx, UnChar(s[1])), UnChar(s[0]) - 1, s[0] as int + s[1], s[2..]);
    }
  }

  /** Answers once given are not taken back. */
  lemma {:induction false} AnswersGrow(rx: Rx, s: seq<byte>, replies: seq<Reply>)
    requires Sane(rx)
    ensures |Recv(rx, s, replies).replies| >= |replies|
    decreases |s|
  {
    if s != [] && s[0] != ETX {
      if s[0] != START {
        AnswersGrow(rx, s[1..], replies);
      } else {
        var o := Packet(rx, s[1..]);
        if o.Next? && !o.done {
          AnswersGrow(o.rx, o.rest, replies + [o.reply]);
        }
      }
    }
  }

  /** A start character makes the receiver answer once more. */
  lemma {:induction false} StartAnswers(rx: Rx, s: seq<byte>, replies: seq<Reply>)
    requires Sane(rx) && s != [] && s[0] == START
    ensures |Recv(rx, s + [0], replies).replies| > |replies|
  {
    var t := s + [0];
    assert t[1..] == s[1..] + [0];
    ZeroEndsPacket(rx, s[1..]);
    var o := Packet(rx, t[1..]);
    if !o.done {
      AnswersGrow(o.rx, o.rest, replies + [o.reply]);
    }
  }

  /** Exactly the harmless damage costs one refusal and nothing else: with an idle character
      behind the transmission, the receiver then waits for the next one. */
  lemma {:induction false} HarmlessExact(rx: Rx, p: Pkt, a: Attempt, v: (seq<byte>, bool), replies: seq<Reply>)
    requires ValidPkt(p) && a.Bad? && NoMarks(a.noise) && Damaged(p, a.damage) && Ready(rx, p.n, v)
    ensures var r := Recv(rx, Frame(p, a) + [0], replies);
      Harmless(p, a.damage) <==> r.Waiting? && r.replies == replies + [Nak(p.n)]
  {
    var left := a.damage[Found(p, a.damage)..];
    var rx1 := DamageDecides(rx, p, a, [0], v, replies);
    var m := FirstMark(left);
    if m == |left| {
      var none: seq<byte> := [];
      SkipNoise(rx1, [0], none, replies + [Nak(p.n)]);
      assert [0] + none == [0];
    } else if left[m] == START {
      StartAnswers(rx1, left[m..], replies + [Nak(p.n)]);
    }
  }

  /** Damage that fails: one bad character, and behind it one that became the abort
      character. The receiver gives up, and k_recv returns 0. */
  lemma {:induction false} AbortExample(tail: seq<byte>)
    ensures var p := Pkt(0, SEND_TYPE, [], false); var b := [2, ETX, END];
      ValidPkt(p) && Damaged(p, b) && !Harmless(p, b) && Recv(INIT, Frame(p, Bad([], b)) + tail, []).Aborted?
  {
    var p, b := Pkt(0, SEND_TYPE, [], false), [2, ETX, END];
    assert b[Found(p, b)..] == [ETX, END];
    var rx1 := DamageDecides(INIT, p, Bad([], b), tail, ([], false), []);
  }

  lemma {:induction false} AnyStep(rx: Rx, p: Pkt, a: Attempt, tail: seq<byte>, v: (seq<byte>, bool), replies: seq<Reply>)
    returns (rx1: Rx)
    requires ValidPkt(p) && p.typ != BREAK_TYPE && ValidAttempt(p, a) && Ready(rx, p.n, v)
    ensures Seen(rx1, p.n, v)
    ensures Now(rx1) == if a.Good? then After(v, rx.quote, p) else v
    ensures rx1.quote == if a.Good? then QuoteAfter(rx.quote, p) else rx.quote
    ensures Recv(rx, Frame(p, a) + tail, replies) == Recv(rx1, tail, replies + [Answer(p, a)])
  {
    if a.Good? {
      rx1 := GoodStep(rx, p, a.noise, tail, v, replies);
    } else {
      rx1 := BadStep(rx, p, a, tail, v, replies);
    }
  }

  /** Any number of transmissions of one packet. The data is delivered, once, exactly when
      the last transmission was intact: damage in a later repetition takes it back. */
  lemma {:induction false} PacketAttempts(rx: Rx, p: Pkt, atts: seq<Attempt>, tail: seq<byte>, v: (seq<byte>, bool), quote: byte, replies: seq<Reply>)
    returns (rx1: Rx)
    requires ValidPkt(p) && p.typ != BREAK_TYPE && Ready(rx, p.n, v) && atts != []
    requires forall i :: 0 <= i < |atts| ==> ValidAttempt(p, atts[i])
    requires rx.quote == quote || (p.typ == SEND_TYPE && rx.quote == QuoteAfter(quote, p))
    ensures Seen(rx1, p.n, v)
    ensures Now(rx1) == if atts[|atts| - 1].Good? then After(v, quote, p) else v
    ensures atts[|atts| - 1].Good? ==> rx1.quote == QuoteAfter(quote, p)
    ensures Recv(rx, Frames(p, atts) + tail, replies) == Recv(rx1, tail, replies + Answers(p, atts))
    decreases |atts|
  {
    var a, rest := atts[0], Frames(p, atts[1..]) + tail;
    assert Frames(p, atts) + tail == Frame(p, a) + rest;
    var mid := AnyStep(rx, p, a, rest, v, replies);
    if |atts| == 1 {
      rx1 := mid;
      assert rest == tail;
      OneAnswer(p, atts);
    } else {
      AnswersFirst(p, atts, replies);
      rx1 := PacketAttempts(mid, p, atts[1..], tail, v, quote, replies + [Answer(p, a)]);
    }
  }

  lemma OneAnswer(p: Pkt, atts: seq<Attempt>)
    requires |atts| == 1
    ensures Answers(p, atts) == [Answer(p, atts[0])]
  {}

  lemma AnswersFirst(p: Pkt, atts: seq<Attempt>, replies: seq<Reply>)
    requires atts != []
    ensures replies + [Answer(p, atts[0])] + Answers(p, atts[1..]) == replies + Answers(p, atts)
  {}

  /** The end-of-transmission packet: damaged any number of times, then intact. */
  lemma {:induction false} BreakAttempts(rx: Rx, p: Pkt, atts: seq<Attempt>, tail: seq<byte>, v: (seq<byte>, bool), replies: seq<Reply>)
    returns (rx1: Rx)
    requires ValidPkt(p) && p.typ == BREAK_TYPE && Ready(rx, p.n, v) && atts != []
    requires forall i :: 0 <= i < |atts| ==> ValidAttempt(p, atts[i]) && (atts[i].Good? <==> i == |atts| - 1)
    ensures Sane(rx1) && Now(rx1) == v
    ensures Recv(rx, Frames(p, atts) + tail, replies) == Complete(rx1, replies + Answers(p, atts))
    decreases |atts|
  {
    var a, rest := atts[0], Frames(p, atts[1..]) + tail;
    assert Frames(p, atts) + tail == Frame(p, a) + rest;
    if |atts| == 1 {
      rx1 := GoodStep(rx, p, a.noise, rest, v, replies);
      OneAnswer(p, atts);
    } else {
      AnswersFirst(p, atts, replies);
      var mid := BadStep(rx, p, a, rest, v, replies);
      rx1 := BreakAttempts(mid, p, atts[1..], tail, v, replies + [Nak(p.n)]);
    }
  }

  /** A packet with all its transmissions; the sender moves on after an intact one. */
  datatype Sending = Sending(p: Pkt, atts: seq<Attempt>)

  predicate ValidSending(x: Sending) {
    && ValidPkt(x.p) && x.atts != [] && x.atts[|x.atts| - 1].Good?
    && (forall i :: 0 <= i < |x.atts| ==> ValidAttempt(x.p, x.atts[i]))
    && (x.p.typ == BREAK_TYPE ==> forall i :: 0 <= i < |x.atts| - 1 ==> x.atts[i].Bad?)
  }

  /** A run of a stop-and-wait sender from sequence number n, counting modulo 64 and
      ended by a break. */
  predicate ValidRun(run: seq<Sending>, n: nat)
    decreases |run|
  {
    && run != [] && ValidSending(run[0]) && run[0].p.n == n
    && if |run| == 1 then run[0].p.typ == BREAK_TYPE
       else run[0].p.typ != BREAK_TYPE && ValidRun(run[1..], (n + 1) % 64)
  }

  function Stream(run: seq<Sending>): seq<byte> {
    if run == [] then [] else Frames(run[0].p, run[0].atts) + Stream(run[1..])
  }

  function AllAnswers(run: seq<Sending>): seq<Reply> {
    if run == [] then [] else Answers(run[0].p, run[0].atts) + AllAnswers(run[1..])
  }

  /** What the distinct packets of a run deliver, each taken once and in order. */
  function Deliver(v: (seq<byte>, bool), quote: byte, run: seq<Sending>): (seq<byte>, bool)
    decreases |run|
  {
    if run == [] then v else Deliver(After(v, quote, run[0].p), QuoteAfter(quote, run[0].p), run[1..])
  }

  lemma {:induction false} RunStep(rx: Rx, x: Sending, rest: seq<byte>, v: (seq<byte>, bool), replies: seq<Reply>)
    returns (rx1: Rx)
    requires ValidSending(x) && x.p.typ != BREAK_TYPE && Ready(rx, x.p.n, v)
    ensures Ready(rx1, (x.p.n + 1) % 64, After(v, rx.quote, x.p)) && rx1.quote == QuoteAfter(rx.quote, x.p)
    ensures Recv(rx, Frames(x.p, x.atts) + rest, replies) == Recv(rx1, rest, replies + Answers(x.p, x.atts))
  {
    rx1 := PacketAttempts(rx, x.p, x.atts, rest, v, rx.quote, replies);
  }

  lemma StreamCons(run: seq<Sending>, tail: seq<byte>)
    requires run != []
    ensures Stream(run) + tail == Frames(run[0].p, run[0].atts) + (Stream(run[1..]) + tail)
  {}

  lemma AnswersCons(run: seq<Sending>, replies: seq<Reply>)
    requires run != []
    ensures replies + AllAnswers(run) == (replies + Answers(run[0].p, run[0].atts)) + AllAnswers(run[1..])
  {}

  lemma {:induction false} SessionFrom(rx: Rx, run: seq<Sending>, n: nat, v: (seq<byte>, bool), tail: seq<byte>, replies: seq<Reply>)
    returns (rx1: Rx)
    requires ValidRun(run, n) && Ready(rx, n, v)
    ensures Sane(rx1) && Now(rx1) == Deliver(v, rx.quote, run)
    ensures Recv(rx, Stream(run) + tail, replies) == Complete(rx1, replies + AllAnswers(run))
    decreases |run|
  {
    if |run| == 1 {
      rx1 := SessionLast(rx, run[0], v, tail, replies);
      assert run == [run[0]];
    } else {
      var x := run[0];
      var mid := SessionNext(rx, run, n, v, tail, replies);
      rx1 := SessionFrom(mid, run[1..], (n + 1) % 64, After(v, rx.quote, x.p), tail, replies + Answers(x.p, x.atts));
    }
  }

  lemma {:induction false} SessionNext(rx: Rx, run: seq<Sending>, n: nat, v: (seq<byte>, bool), tail: seq<byte>, replies: seq<Reply>)
    returns (mid: Rx)
    requires ValidRun(run, n) && |run| > 1 && Ready(rx, n, v)
    ensures Ready(mid, (n + 1) % 64, After(v, rx.quote, run[0].p)) && ValidRun(run[1..], (n + 1) % 64)
    ensures Deliver(v, rx.quote, run) == Deliver(After(v, rx.quote, run[0].p), mid.quote, run[1..])
    ensures var more := replies + Answers(run[0].p, run[0].atts);
      && Recv(rx, Stream(run) + tail, replies) == Recv(mid, Stream(run[1..]) + tail, more)
      && replies + AllAnswers(run) == more + AllAnswers(run[1..])
  {
    StreamCons(run, tail);
    AnswersCons(run, replies);
    mid := RunStep(rx, run[0], Stream(run[1..]) + tail, v, replies);
  }

  lemma {:induction false} SessionLast(rx: Rx, x: Sending, v: (seq<byte>, bool), tail: seq<byte>, replies: seq<Reply>)
    returns (rx1: Rx)
    requires ValidSending(x) && x.p.typ == BREAK_TYPE && Ready(rx, x.p.n, v)
    ensures Sane(rx1) && Now(rx1) == Deliver(v, rx.quote, [x])
    ensures Recv(rx, Stream([x]) + tail, replies) == Complete(rx1, replies + AllAnswers([x]))
  {
    rx1 := BreakAttempts(rx, x.p, x.atts, tail, v, replies);
    OneSending(x, tail);
  }

  lemma OneSending(x: Sending, tail: seq<byte>)
    ensures Stream([x]) + tail == Frames(x.p, x.atts) + tail && AllAnswers([x]) == Answers(x.p, x.atts)
  {
    assert [x][1..] == [];
  }

  /** Delivery: whatever is repeated or detectably damaged, k_recv ends with the unquoted
      payloads of the distinct data packets from the start address to the returned size,
      and has acknowledged exactly the intact transmissions. */
  lemma {:induction false} Delivery(run: seq<Sending>, tail: seq<byte>)
    requires ValidRun(run, 0)
    ensures var r := Recv(INIT, Stream(run) + tail, []);
      && r.Complete? && r.rx.addr <= |r.rx.mem|
      && r.rx.mem[..r.rx.addr] == Deliver(([], false), K_ESCAPE, run).0
      && r.replies == AllAnswers(run)
  {
    ReadyAtStart();
    SessionEnds(INIT, run, ([], false), tail, []);
  }

  lemma ReadyAtStart()
    ensures Ready(INIT, 0, ([], false)) && INIT.quote == K_ESCAPE
  {}

  /** A session from any state that is ready for packet 0, and without earlier answers. */
  lemma {:induction false} SessionEnds(rx: Rx, run: seq<Sending>, v: (seq<byte>, bool), tail: seq<byte>, none: seq<Reply>)
    requires ValidRun(run, 0) && Ready(rx, 0, v) && none == []
    ensures var r := Recv(rx, Stream(run) + tail, none);
      && r.Complete? && r.rx.addr <= |r.rx.mem|
      && r.rx.mem[..r.rx.addr] == Deliver(v, rx.quote, run).0
      && r.replies == AllAnswers(run)
  {
    var rx1 := SessionFrom(rx, run, 0, v, tail, none);
    assert none + AllAnswers(run) == AllAnswers(run);
  }

  /** The two transmissions of a packet that arrives intact and is then repeated damaged. */
  function Repeated(damage: seq<byte>): seq<Attempt> { [Good([]), Bad([], damage)] }

  lemma {:induction false} RepeatedAnswers(p: Pkt, damage: seq<byte>)
    ensures Answers(p, Repeated(damage)) == [Ack(p.n), Nak(p.n)]
  {
    var atts := Repeated(damage);
    AnswersFirst(p, atts, []);
    OneAnswer(p, atts[1..]);
  }

  /** A damaged repetition of the first packet takes it back although it was acknowledged:
      when the sender goes on to its end packet, the session completes without the data. */
  lemma {:induction false} RepetitionLoses(p: Pkt, damage: seq<byte>, q: Pkt, tail: seq<byte>)
    requires ValidPkt(p) && p.typ == DATA_TYPE && p.n == 0 && Damaged(p, damage) && Harmless(p, damage)
    requires ValidPkt(q) && q.typ == BREAK_TYPE && q.n == 1
    ensures var r := Recv(INIT, Frames(p, Repeated(damage)) + (Frames(q, [Good([])]) + tail), []);
      r.Complete? && r.rx.addr == 0 && r.replies == [Ack(0), Nak(0), Ack(1)]
  {
    var atts, last := Repeated(damage), [Good([])];
    var mid := PacketAttempts(INIT, p, atts, Frames(q, last) + tail, ([], false), K_ESCAPE, []);
    var rx1 := BreakAttempts(mid, q, last, tail, ([], false), [] + Answers(p, atts));
    RepeatedAnswers(p, damage);
    OneAnswer(q, last);
  }

  /** Such a session: a packet with one byte of data, and a repetition with a control
      character in place of its type. */
  lemma {:induction false} RepetitionExample(tail: seq<byte>) returns (p: Pkt, damage: seq<byte>, q: Pkt)
    ensures p == Pkt(0, DATA_TYPE, [65], false) && damage == [2, 32, 32, 32] && q == Pkt(1, BREAK_TYPE, [], false)
    ensures After(([], false), K_ESCAPE, p) == ([65], false)
    ensures Recv(INIT, Frames(p, Repeated(damage)) + (Frames(q, [Good([])]) + tail), []).rx.addr == 0
  {
    p, damage, q := RepetitionInput();
    RepetitionLoses(p, damage, q, tail);
  }

  lemma RepetitionInput() returns (p: Pkt, damage: seq<byte>, q: Pkt)
    ensures p == Pkt(0, DATA_TYPE, [65], false) && damage == [2, 32, 32, 32] && q == Pkt(1, BREAK_TYPE, [], false)
    ensures ValidPkt(p) && Damaged(p, damage) && Harmless(p, damage) && ValidPkt(q)
    ensures After(([], false), K_ESCAPE, p) == ([65], false)
  {
    p, damage, q := Pkt(0, DATA_TYPE, [65], false), [2, 32, 32, 32], Pkt(1, BREAK_TYPE, [], false);
    assert damage[Found(p, damage)..] == [32, 32, 32];
    UnquoteOne(K_ESCAPE, false, 65);
    var none: seq<byte> := [];
    assert none + p.data == p.data;
  }

  /** The data characters of a run. */
  function Payload(run: seq<Sending>): seq<byte> {
    if run == [] then []
    else (if run[0].p.typ == DATA_TYPE then run[0].p.data else []) + Payload(run[1..])
  }

  lemma {:induction false} DeliverPayload(v: (seq<byte>, bool), quote: byte, run: seq<Sending>)
    requires forall i :: 0 <= i < |run| ==> run[i].p.typ != SEND_TYPE
    ensures var (out, e) := Unquote(quote, v.1, Payload(run));
      Deliver(v, quote, run) == (v.0 + out, e)
    decreases |run|
  {
    if run == [] {
      assert v.0 + [] == v.0;
    } else {
      var p := run[0].p;
      DeliverPayload(After(v, quote, p), quote, run[1..]);
      if p.typ == DATA_TYPE {
        UnquoteConcat(quote, v.1, p.data, Payload(run[1..]));
        var (x, e) := Unquote(quote, v.1, p.data);
        Assoc(v.0, x, Unquote(quote, e, Payload(run[1..])).0);
      } else {
        assert [] + Payload(run[1..]) == Payload(run[1..]);
      }
    }
  }

  /** A file sent with control prefixing, cut into packets anywhere, arrives unchanged. */
  lemma {:induction false} FileDelivery(run: seq<Sending>, file: seq<byte>, tail: seq<byte>)
    requires ValidRun(run, 0) && run[0].p.typ == SEND_TYPE
    requires forall i :: 1 <= i < |run| ==> run[i].p.typ != SEND_TYPE
    requires var quote := QuoteOf(run[0].p.data); GoodQuote(quote) && Payload(run) == Quote(quote, file)
    ensures var r := Recv(INIT, Stream(run) + tail, []);
      r.Complete? && r.rx.addr == |file| <= |r.rx.mem| && r.rx.mem[..|file|] == file
  {
    RunDelivers(run, file);
    Delivery(run, tail);
  }

  lemma {:induction false} RunDelivers(run: seq<Sending>, file: seq<byte>)
    requires ValidRun(run, 0) && run[0].p.typ == SEND_TYPE
    requires forall i :: 1 <= i < |run| ==> run[i].p.typ != SEND_TYPE
    requires var quote := QuoteOf(run[0].p.data); GoodQuote(quote) && Payload(run) == Quote(quote, file)
    ensures Deliver(([], false), K_ESCAPE, run) == (file, false)
  {
    var quote := QuoteOf(run[0].p.data);
    DeliverPayload(([], false), quote, run[1..]);
    assert Payload(run) == [] + Payload(run[1..]);
    assert Payload(run) == Payload(run[1..]);
    QuoteRoundTrip(quote, file);
    assert [] + file == file;
  }

  /** The abort character, 3, between packets ends the session, and any character but it and
      the start character, 1, is skipped. */
  lemma BetweenPackets(rx: Rx, c: byte, tail: seq<byte>, replies: seq<Reply>)
    requires Sane(rx)
    ensures c == 3 ==> Recv(rx, [c] + tail, replies) == Aborted(rx, replies)
    ensures c != 3 && c != 1 ==> Recv(rx, [c] + tail, replies) == Recv(rx, tail, replies)
  {
    assert ([c] + tail)[1..] == tail;
  }

  /** An intact send-init packet sets the control prefix to its sixth parameter, or to `#`. */
  lemma {:induction false} SendInitQuote(rx: Rx, p: Pkt, noise: seq<byte>, tail: seq<byte>, v: (seq<byte>, bool), replies: seq<Reply>)
    returns (rx1: Rx)
    requires ValidPkt(p) && p.typ == SEND_TYPE && NoMarks(noise) && Ready(rx, p.n, v)
    ensures Sane(rx1) && Now(rx1) == v && rx1.quote == if |p.data| < 6 then 35 else p.data[5]
    ensures Recv(rx, Frame(p, Good(noise)) + tail, replies) == Recv(rx1, tail, replies + [Ack(p.n)])
  {
    rx1 := GoodStep(rx, p, noise, tail, v, replies);
  }

  // ---------------------------------------------------------------- a session, character by character

  /** Send-init 0, extended packet 1 with the data `A#MB`, packet 2 with `~`, and end packet 3,
      as any Kermit sends them. */
  const INIT_TEXT: seq<byte> := [1, 35, 32, 83, 56, 13]
  const LONG_TEXT: seq<byte> := [1, 32, 33, 68, 32, 37, 45, 65, 35, 77, 66, 77, 13]
  const SHORT_TEXT: seq<byte> := [1, 36, 34, 68, 126, 40, 13]
  const BREAK_TEXT: seq<byte> := [1, 35, 35, 66, 42, 13]
  const SESSION := INIT_TEXT + (LONG_TEXT + (SHORT_TEXT + BREAK_TEXT))

  lemma EmptyRest(p: Pkt, c: byte)
    requires !p.long && p.data == [] && Check(HeadSum(p) + p.typ) == c
    ensures Rest(p) == [p.typ, c, END]
  {
    SumCons(p.typ, []);
    assert [p.typ] + [] == [p.typ];
  }

  lemma EmptyText(p: Pkt, c: byte)
    requires !p.long && p.data == [] && p.n < 64 && Check(67 + p.n + p.typ) == c
    ensures Frame(p, Good([])) == [START, 35, p.n + 32, p.typ, c, END]
  {
    assert Opening(p) == [35, p.n + 32];
    EmptyRest(p, c);
  }

  lemma CharRest(p: Pkt, x: byte, c: byte)
    requires !p.long && p.data == [x] && Check(HeadSum(p) + p.typ + x) == c
    ensures Rest(p) == [p.typ, x, c, END]
  {
    SumCons(p.typ, []);
    SumCons(x, []);
    assert [p.typ] + [] == [p.typ] && [x] + [] == [x];
  }

  lemma CharText(p: Pkt, x: byte, c: byte)
    requires !p.long && p.data == [x] && p.n < 64 && Check(68 + p.n + p.typ + x) == c
    ensures Frame(p, Good([])) == [START, 36, p.n + 32, p.typ, x, c, END]
  {
    assert Opening(p) == [36, p.n + 32];
    CharRest(p, x, c);
  }

  lemma LongText(p: Pkt)
    requires p == Pkt(1, DATA_TYPE, [65, 35, 77, 66], true)
    ensures Frame(p, Good([])) == LONG_TEXT
  {
    assert HeadSum(p) == 65 && LenX(p) == (32, 37);
    assert Header(p) == [68, 32, 37, 45];
    SumFour(68, 32, 37, 45);
    SumFour(65, 35, 77, 66);
    assert Check(490) == 77;
  }

  /** A packet that is sent once. */
  function Once(p: Pkt): Sending { Sending(p, [Good([])]) }

  /** A run of four packets, each sent once. */
  function Four(p: Pkt, q: Pkt, r: Pkt, last: Pkt): seq<Sending> {
    [Once(p)] + ([Once(q)] + ([Once(r)] + ([Once(last)] + [])))
  }

  /** One more packet in front of a run. */
  lemma OnceMore(p: Pkt, rest: seq<Sending>)
    ensures Stream([Once(p)] + rest) == Frame(p, Good([])) + Stream(rest)
    ensures AllAnswers([Once(p)] + rest) == [Ack(p.n)] + AllAnswers(rest)
  {
    var run := [Once(p)] + rest;
    assert run[1..] == rest && [Good([])][1..] == [];
    assert Frames(p, [Good([])]) == Frame(p, Good([]));
    OneAnswer(p, [Good([])]);
  }

  lemma DeliverOnce(v: (seq<byte>, bool), quote: byte, p: Pkt, rest: seq<Sending>)
    ensures Deliver(v, quote, [Once(p)] + rest) == Deliver(After(v, quote, p), QuoteAfter(quote, p), rest)
  {
    assert ([Once(p)] + rest)[1..] == rest;
  }

  lemma {:induction false} FourText(p: Pkt, q: Pkt, r: Pkt, last: Pkt)
    ensures Stream(Four(p, q, r, last)) ==
      Frame(p, Good([])) + (Frame(q, Good([])) + (Frame(r, Good([])) + Frame(last, Good([]))))
    ensures AllAnswers(Four(p, q, r, last)) == [Ack(p.n), Ack(q.n), Ack(r.n), Ack(last.n)]
  {
    var c := [Once(last)] + [];
    var b := [Once(r)] + c;
    OnceMore(last, []);
    OnceMore(r, c);
    OnceMore(q, b);
    OnceMore(p, [Once(q)] + b);
    assert Frame(last, Good([])) + [] == Frame(last, Good([]));
  }

  lemma {:induction false} FourValid(p: Pkt, q: Pkt, r: Pkt, last: Pkt)
    requires ValidPkt(p) && ValidPkt(q) && ValidPkt(r) && ValidPkt(last)
    requires p.n == 0 && q.n == 1 && r.n == 2 && last.n == 3
    requires p.typ != BREAK_TYPE && q.typ != BREAK_TYPE && r.typ != BREAK_TYPE && last.typ == BREAK_TYPE
    ensures ValidRun(Four(p, q, r, last), 0)
  {
    var c := [Once(last)] + [];
    OnceLast(last, []);
    OnceValid(r, c);
    OnceValid(q, [Once(r)] + c);
    OnceValid(p, [Once(q)] + ([Once(r)] + c));
  }

  lemma OnceValid(p: Pkt, rest: seq<Sending>)
    requires ValidPkt(p) && rest != [] && p.typ != BREAK_TYPE && ValidRun(rest, (p.n + 1) % 64)
    ensures ValidRun([Once(p)] + rest, p.n)
  {
    assert ([Once(p)] + rest)[1..] == rest;
  }

  lemma OnceLast(p: Pkt, rest: seq<Sending>)
    requires ValidPkt(p) && rest == [] && p.typ == BREAK_TYPE
    ensures ValidRun([Once(p)] + rest, p.n)
  {}

  lemma {:induction false} FourDeliver(quote: byte, p: Pkt, q: Pkt, r: Pkt, last: Pkt)
    requires p.typ == SEND_TYPE && q.typ == DATA_TYPE && r.typ == DATA_TYPE && last.typ == BREAK_TYPE && QuoteOf(p.data) == quote
    requires !Unquote(quote, false, q.data).1 && !Unquote(quote, false, r.data).1
    ensures Deliver(([], false), quote, Four(p, q, r, last)) ==
      (Unquote(quote, false, q.data).0 + Unquote(quote, false, r.data).0, false)
  {
    var c := [Once(last)] + [];
    var b := [Once(r)] + c;
    var v, w := ([], false), Unquote(quote, false, q.data);
    assert v.0 + w.0 == w.0;
    DeliverOnce(v, quote, p, [Once(q)] + b);
    DeliverOnce(v, quote, q, b);
    DeliverOnce(w, quote, r, c);
    DeliverOnce((w.0 + Unquote(quote, false, r.data).0, false), quote, last, []);
  }

  /** Four data characters of which the second is the control prefix. */
  lemma {:induction false} PrefixedText(quote: byte)
    requires quote == 35
    ensures Unquote(quote, false, [65, 35, 77, 66]) == ([65, 13, 66], false)
  {
    var x: seq<byte>, y: seq<byte>, z: seq<byte> := [66], [77, 66], [35, 77, 66];
    UnquoteOne(quote, false, 66);
    assert y[1..] == x && z[1..] == y && [65, 35, 77, 66][1..] == z;
    var cr: seq<byte> := [13];
    assert cr + x == [13, 66] && [65] + [13, 66] == [65, 13, 66];
    assert Unquote(quote, true, y) == (cr + x, false);
    assert Unquote(quote, false, z) == Unquote(quote, true, y);
  }

  lemma EndsText(p: Pkt, last: Pkt)
    requires p == Pkt(0, SEND_TYPE, [], false) && last == Pkt(3, BREAK_TYPE, [], false)
    ensures Frame(p, Good([])) == INIT_TEXT && Frame(last, Good([])) == BREAK_TEXT
  {
    EmptyText(p, 56);
    EmptyText(last, 42);
  }

  lemma TildeText(p: Pkt)
    requires p == Pkt(2, DATA_TYPE, [126], false)
    ensures Frame(p, Good([])) == SHORT_TEXT
  {
    CharText(p, 126, 40);
  }

  lemma {:induction false} LiteralPayload(quote: byte, q: Pkt, r: Pkt)
    requires quote == 35 && q.data == [65, 35, 77, 66] && r.data == [126]
    ensures Unquote(quote, false, q.data) == ([65, 13, 66], false) && Unquote(quote, false, r.data) == ([126], false)
    ensures Unquote(quote, false, q.data).0 + Unquote(quote, false, r.data).0 == [65, 13, 66, 126]
  {
    PrefixedText(quote);
    UnquoteOne(quote, false, 126);
  }

  /** These characters are acknowledged packet by packet, and the four bytes they stand for
      are delivered. */
  lemma {:induction false} LiteralSession(tail: seq<byte>)
    ensures var r := Recv(INIT, SESSION + tail, []);
      && r.Complete? && r.replies == [Ack(0), Ack(1), Ack(2), Ack(3)]
      && r.rx.addr == 4 <= |r.rx.mem| && r.rx.mem[..4] == [65, 13, 66, 126]
  {
    var p, q := Pkt(0, SEND_TYPE, [], false), Pkt(1, DATA_TYPE, [65, 35, 77, 66], true);
    var r, last := Pkt(2, DATA_TYPE, [126], false), Pkt(3, BREAK_TYPE, [], false);
    EndsText(p, last);
    LongText(q);
    TildeText(r);
    LiteralPayload(K_ESCAPE, q, r);
    FourRun(p, q, r, last, tail);
  }

  /** What becomes of four packets that are sent once each. */
  lemma {:induction false} FourRun(p: Pkt, q: Pkt, r: Pkt, last: Pkt, tail: seq<byte>)
    requires ValidPkt(p) && ValidPkt(q) && ValidPkt(r) && ValidPkt(last)
    requires p.n == 0 && q.n == 1 && r.n == 2 && last.n == 3
    requires p.typ == SEND_TYPE && q.typ == DATA_TYPE && r.typ == DATA_TYPE && last.typ == BREAK_TYPE && QuoteOf(p.data) == K_ESCAPE
    requires !Unquote(K_ESCAPE, false, q.data).1 && !Unquote(K_ESCAPE, false, r.data).1
    ensures var text := Frame(p, Good([])) + (Frame(q, Good([])) + (Frame(r, Good([])) + Frame(last, Good([]))));
      var out := Unquote(K_ESCAPE, false, q.data).0 + Unquote(K_ESCAPE, false, r.data).0;
      var s := Recv(INIT, text + tail, []);
      && s.Complete? && s.replies == [Ack(0), Ack(1), Ack(2), Ack(3)]
      && s.rx.addr <= |s.rx.mem| && s.rx.mem[..s.rx.addr] == out
  {
    var run := Four(p, q, r, last);
    FourText(p, q, r, last);
    FourValid(p, q, r, last);
    FourDeliver(K_ESCAPE, p, q, r, last);
    Delivery(run, tail);
  }
}
