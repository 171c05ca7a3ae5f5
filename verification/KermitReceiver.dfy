/** k_recv of common/cmd_load.c with its globals, proved to follow the state machine of
    module Kermit on every input. */
module KermitReceiver {
  import opened Kermit

  /** How far a call got: blocked in getc, ready for the next packet, or finished. */
  datatype Status = Blocked | Continue | Done

  /** What k_recv comes to: it never returns, or it returns a byte count. */
  datatype Result = Pending | Returned(size: nat)

  class Receiver {
    var escape: bool
    var escapeSaved: bool
    var addr: nat
    var addrSaved: nat
    var mem: seq<byte>
    var hisQuote: byte
    var n: int
    var lastN: int
    var replies: seq<Reply>

    constructor ()
      ensures State() == INIT && replies == []
    {
      escape, escapeSaved, addr, addrSaved, mem := false, false, 0, 0, [];
      hisQuote, n, lastN, replies := K_ESCAPE, 0, -1, [];
    }

    function State(): Rx
      reads this
    {
      Rx(escape, addr, mem, escapeSaved, addrSaved, hisQuote, n, lastN)
    }

    method KDataSave()
      modifies this
      ensures State() == Save(old(State())) && replies == old(replies)
    {
      escapeSaved := escape;
      addrSaved := addr;
    }

    method KDataRestore()
      modifies this
      ensures State() == Restore(old(State())) && replies == old(replies)
    {
      escape := escapeSaved;
      addr := addrSaved;
    }

    method BinDataChar(c: byte)
      requires Sane(State())
      modifies this
      ensures State() == StoreChar(old(State()), c) && replies == old(replies)
    {
      mem := if addr < |mem| then mem[addr := c] else mem + [c];
      addr := addr + 1;
    }

    method KDataChar(c: byte)
      requires Sane(State())
      modifies this
      ensures State() == DataChar(old(State()), c) && replies == old(replies)
    {
      if escape {
        BinDataChar(KTrans(c));
        escape := false;
      } else if c == hisQuote {
        escape := true;
      } else {
        BinDataChar(c);
      }
    }

    /** The packet_error label. */
    method PacketError(ghost s: seq<byte>)
      modifies this
      ensures State() == Error(old(State()), s).rx
      ensures replies == old(replies) + [Error(old(State()), s).reply]
    {
      KDataRestore();
      replies := replies + [Nak(n)];
    }

    /** The outcome o, as it shows in the fields, the remaining input and the status. */
    ghost predicate Matches(o: Outcome, before: seq<Reply>, status: Status, s: seq<byte>)
      reads this
    {
      match o
      case Starved => status == Blocked
      case Next(rx, rest, reply, done) =>
        State() == rx && s == rest && replies == before + [reply] && status == if done then Done else Continue
    }

    /** Data characters, block check and end of line. */
    method ReadData(typ: byte, len: int, sum0: nat, s0: seq<byte>) returns (status: Status, s: seq<byte>)
      requires Sane(State())
      modifies this
      ensures Matches(Data(old(State()), typ, len, sum0, [], s0), old(replies), status, s)
    {
      s := s0;
      var sendParms: seq<byte> := [];
      var length: int, sum: nat := len, sum0;
      while length > 1
        invariant Sane(State()) && replies == old(replies)
        invariant Data(old(State()), typ, len, sum0, [], s0) == Data(State(), typ, length, sum, sendParms, s)
        decreases |s|
      {
        if s == [] {
          return Blocked, s;
        }
        var c := s[0];
        s := s[1..];
        if Control(c) {
          PacketError(s);
          return Continue, s;
        }
        sum := sum + c;
        length := length - 1;
        if typ == DATA_TYPE {
          KDataChar(c);
        } else if typ == SEND_TYPE {
          sendParms := sendParms + [c];
        }
      }
      if s == [] {
        return Blocked, s;
      }
      var c := s[0];
      s := s[1..];
      if Control(c) || c != Check(sum) {
        PacketError(s);
        return Continue, s;
      }
      if s == [] {
        return Blocked, s;
      }
      c := s[0];
      s := s[1..];
      if c != END {
        PacketError(s);
        return Continue, s;
      }
      if typ == SEND_TYPE {
        hisQuote := QuoteOf(sendParms);
      }
      replies := replies + [Ack(n)];
      status := if typ == BREAK_TYPE then Done else Continue;
    }

    /** The two extended length characters and the header check. */
    method ReadLong(typ: byte, sum: nat, s0: seq<byte>) returns (status: Status, s: seq<byte>)
      requires Sane(State())
      modifies this
      ensures Matches(LongHeader(old(State()), typ, sum, s0), old(replies), status, s)
    {
      s := s0;
      if s == [] {
        return Blocked, s;
      }
      var hi := s[0];
      s := s[1..];
      if Control(hi) {
        PacketError(s);
        return Continue, s;
      }
      if s == [] {
        return Blocked, s;
      }
      var lo := s[0];
      s := s[1..];
      if Control(lo) {
        PacketError(s);
        return Continue, s;
      }
      if s == [] {
        return Blocked, s;
      }
      var c := s[0];
      s := s[1..];
      if Control(c) || c != Check(sum + hi + lo) {
        PacketError(s);
        return Continue, s;
      }
      status, s := ReadData(typ, UnChar(hi) * 95 + UnChar(lo), sum + hi + lo + c, s);
    }

    /** One packet after its start character. */
    method ReadPacket(s0: seq<byte>) returns (status: Status, s: seq<byte>)
      requires Sane(State())
      modifies this
      ensures Matches(Packet(old(State()), s0), old(replies), status, s)
    {
      s := s0;
      if s == [] {
        return Blocked, s;
      }
      var c := s[0];
      s := s[1..];
      if Control(c) {
        PacketError(s);
        return Continue, s;
      }
      var sum: nat, length: int := c, UnChar(c);
      if s == [] {
        return Blocked, s;
      }
      c := s[0];
      s := s[1..];
      if Control(c) {
        PacketError(s);
        return Continue, s;
      }
      sum := sum + c;
      n := UnChar(c);
      length := length - 1;
      if n == lastN {
        KDataRestore();
      } else {
        lastN := n;
        KDataSave();
      }
      if s == [] {
        return Blocked, s;
      }
      c := s[0];
      s := s[1..];
      if Control(c) {
        PacketError(s);
        return Continue, s;
      }
      sum := sum + c;
      length := length - 1;
      if length == -2 {
        status, s := ReadLong(c, sum, s);
      } else {
        status, s := ReadData(c, length, sum, s);
      }
    }

    /** k_recv over the characters that will arrive. */
    method KRecv(input: seq<byte>) returns (r: Result)
      requires State() == INIT && replies == []
      modifies this
      ensures match Recv(INIT, input, [])
        case Waiting(_, _) => r == Pending
        case Aborted(_, _) => r == Returned(0)
        case Complete(rx, answers) => r == Returned(rx.addr) && State() == rx && replies == answers
    {
      var s := input;
      while true
        invariant Sane(State()) && Recv(State(), s, replies) == Recv(INIT, input, [])
        decreases |s|
      {
        if s == [] {
          return Pending;
        }
        var c := s[0];
        s := s[1..];
        if c == ETX {
          return Returned(0);
        }
        if c == START {
          var status, rest := ReadPacket(s);
          if status == Blocked {
            return Pending;
          }
          s := rest;
          if status == Done {
            return Returned(addr);
          }
        }
      }
    }
  }

  /** The whole claim for the code: a sender's run, with repetitions and detectable damage,
      leaves the file in memory, from the start address to the size returned. */
  method ReceiveFile(run: seq<Sending>, file: seq<byte>) returns (image: seq<byte>)
    requires ValidRun(run, 0) && run[0].p.typ == SEND_TYPE
    requires forall i :: 1 <= i < |run| ==> run[i].p.typ != SEND_TYPE
    requires var quote := QuoteOf(run[0].p.data); GoodQuote(quote) && Payload(run) == Quote(quote, file)
    ensures image == file
  {
    FileDelivery(run, file, []);
    assert Stream(run) + [] == Stream(run);
    var k := new Receiver();
    var r := k.KRecv(Stream(run));
    image := k.mem[..r.size];
  }

  /** A session given by its characters: k_recv returns 4, and the bytes are in memory. */
  method ReceiveSession() returns (image: seq<byte>)
    ensures image == [65, 13, 66, 126]
  {
    LiteralSession([]);
    assert SESSION + [] == SESSION;
    var k := new Receiver();
    var r := k.KRecv(SESSION);
    image := k.mem[..r.size];
  }
}
