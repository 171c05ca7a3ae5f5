/** The log buffer of common/cmd_log.c: level prefixes and the 16 KB ring. */
module LogBuffer {
  import opened Ring

  const LOGBUFF_LEN := 16384
  const W := 0x1_0000_0000

  // ---------------------------------------------------------------- the text that is logged

  const PREFIX := "<4>"

  predicate HasLevel(s: string) { |s| >= 3 && s[0] == '<' && '0' <= s[1] <= '7' && s[2] == '>' }

  /** What one call logs; `atStart` says that no line is open. */
  function Logged(atStart: bool, s: string): string
    decreases |s|, atStart
  {
    if s == "" then ""
    else if atStart && HasLevel(s) then s[..3] + Logged(false, s[3..])
    else if atStart then PREFIX + Logged(false, s)
    else [s[0]] + Logged(s[0] == '\n', s[1..])
  }

  function StartAfter(atStart: bool, s: string): bool { if s == "" then atStart else s[|s| - 1] == '\n' }

  /** The message without the level prefixes that are already there. */
  function Bare(atStart: bool, s: string): string
    decreases |s|, atStart
  {
    if s == "" then ""
    else if atStart && HasLevel(s) then Bare(false, s[3..])
    else if atStart then Bare(false, s)
    else [s[0]] + Bare(s[0] == '\n', s[1..])
  }

  function LoggedAll(atStart: bool, calls: seq<string>): string
    decreases |calls|
  {
    if calls == [] then "" else Logged(atStart, calls[0]) + LoggedAll(StartAfter(atStart, calls[0]), calls[1..])
  }

  function BareAll(atStart: bool, calls: seq<string>): string
    decreases |calls|
  {
    if calls == [] then "" else Bare(atStart, calls[0]) + BareAll(StartAfter(atStart, calls[0]), calls[1..])
  }

  /** Every line of the text has a level prefix; at the start of a line the first one too. */
  predicate Tagged(atStart: bool, t: string)
    decreases |t|
  {
    t == "" || (if atStart then HasLevel(t) && Tagged(false, t[3..]) else Tagged(t[0] == '\n', t[1..]))
  }

  /** The text without the prefixes of its lines. */
  function Strip(atStart: bool, t: string): string
    requires Tagged(atStart, t)
    decreases |t|
  {
    if t == "" then ""
    else if atStart then Strip(false, t[3..])
    else [t[0]] + Strip(t[0] == '\n', t[1..])
  }

  lemma {:induction false} TaggedPrefix(p: string, u: string)
    requires |p| == 3 && HasLevel(p) && Tagged(false, u)
    ensures Tagged(true, p + u) && Strip(true, p + u) == Strip(false, u)
  {
    assert (p + u)[3..] == u;
  }

  lemma {:induction false} TaggedChar(c: char, u: string)
    requires Tagged(c == '\n', u)
    ensures Tagged(false, [c] + u) && Strip(false, [c] + u) == [c] + Strip(c == '\n', u)
  {
    assert ([c] + u)[1..] == u;
  }

  /** What a call adds, in front of a log that continues after it. */
  ghost predicate Adds(atStart: bool, s: string, more: string)
    requires Tagged(StartAfter(atStart, s), more)
  {
    Tagged(atStart, Logged(atStart, s) + more) &&
    Strip(atStart, Logged(atStart, s) + more) == Bare(atStart, s) + Strip(StartAfter(atStart, s), more)
  }

  lemma {:induction false} AddsAtStart(s: string, rest: string, tag: string, more: string)
    requires s != "" && Tagged(StartAfter(true, s), more)
    requires if HasLevel(s) then tag == s[..3] && rest == s[3..] else tag == PREFIX && rest == s
    requires StartAfter(false, rest) == StartAfter(true, s) && Adds(false, rest, more)
    ensures Adds(true, s, more)
  {
    TaggedPrefix(tag, Logged(false, rest) + more);
    Join(tag, Logged(false, rest), more);
  }

  lemma {:induction false} AddsInLine(c: char, rest: string, more: string)
    requires Tagged(StartAfter(c == '\n', rest), more) && Adds(c == '\n', rest, more)
    ensures StartAfter(false, [c] + rest) == StartAfter(c == '\n', rest) && Adds(false, [c] + rest, more)
  {
    assert ([c] + rest)[1..] == rest;
    TaggedChar(c, Logged(c == '\n', rest) + more);
    Join([c], Logged(c == '\n', rest), more);
    Join([c], Bare(c == '\n', rest), Strip(StartAfter(c == '\n', rest), more));
  }

  lemma {:induction false} LoggedCall(atStart: bool, s: string, more: string)
    requires Tagged(StartAfter(atStart, s), more)
    ensures Adds(atStart, s, more)
    decreases |s|, atStart
  {
    if s == "" {
      assert Logged(atStart, s) + more == more;
    } else if atStart {
      var tag, rest := if HasLevel(s) then s[..3] else PREFIX, if HasLevel(s) then s[3..] else s;
      LoggedCall(false, rest, more);
      AddsAtStart(s, rest, tag, more);
    } else {
      var c, rest := s[0], s[1..];
      assert s == [c] + rest;
      LoggedCall(c == '\n', rest, more);
      AddsInLine(c, rest, more);
    }
  }

  lemma Join(a: string, b: string, c: string)
    ensures (a + b) + c == a + (b + c)
  {}

  /** Over every sequence of calls each line of the log starts with a level prefix, and
      without these prefixes the log is the messages without theirs: none is doubled or lost. */
  lemma {:induction false} LinesTagged(atStart: bool, calls: seq<string>)
    ensures Tagged(atStart, LoggedAll(atStart, calls))
    ensures Strip(atStart, LoggedAll(atStart, calls)) == BareAll(atStart, calls)
    decreases |calls|
  {
    if calls != [] {
      var next := StartAfter(atStart, calls[0]);
      LinesTagged(next, calls[1..]);
      LoggedCall(atStart, calls[0], LoggedAll(next, calls[1..]));
    }
  }

  /** A line that starts without a level gets level 4, and one with a level keeps it. */
  lemma FirstLevel(s: string)
    requires s != ""
    ensures Logged(true, s) ==
      if |s| >= 3 && s[0] == '<' && '0' <= s[1] <= '7' && s[2] == '>' then s[..3] + Logged(false, s[3..])
      else "<4>" + Logged(false, s)
  {}

  /** Behind a line feed the next line starts. */
  lemma {:induction false} NextLine(line: string, s: string)
    requires '\n' !in line
    ensures Logged(false, line + "\n" + s) == line + "\n" + Logged(true, s)
  {
    var t := line + "\n" + s;
    if line == "" {
      assert t[1..] == s;
    } else {
      assert t[0] == line[0] && t[0] in line && t[1..] == line[1..] + "\n" + s;
      NextLine(line[1..], s);
      assert [line[0]] + (line[1..] + "\n" + Logged(true, s)) == line + "\n" + Logged(true, s);
    }
  }

  // ---------------------------------------------------------------- lines

  /** The text up to and including the first line feed. */
  function FirstLine(s: string): (r: string)
    ensures |r| <= |s| && r == s[..|r|]
  {
    if s == "" then "" else if s[0] == '\n' then "\n" else [s[0]] + FirstLine(s[1..])
  }

  predicate Ended(line: string) { line != "" && line[|line| - 1] == '\n' }

  lemma {:induction false} OpenLine(s: string)
    ensures Logged(false, s) == FirstLine(s) + Logged(Ended(FirstLine(s)), s[|FirstLine(s)|..])
    ensures s != "" ==> FirstLine(s) != ""
  {
    if s != "" && s[0] != '\n' {
      OpenLine(s[1..]);
      OpenLineCons(s[0], s[1..]);
      assert s == [s[0]] + s[1..];
    }
  }

  lemma {:induction false} OpenLineCons(c: char, u: string)
    requires c != '\n' && Logged(false, u) == FirstLine(u) + Logged(Ended(FirstLine(u)), u[|FirstLine(u)|..])
    ensures var s := [c] + u;
      Logged(false, s) == FirstLine(s) + Logged(Ended(FirstLine(s)), s[|FirstLine(s)|..])
  {
    var s, r := [c] + u, FirstLine(u);
    assert s[1..] == u;
    FirstLineCons(c, u);
    EndedCons(c, r);
    assert s[|r| + 1..] == u[|r|..];
    Join([c], r, Logged(Ended(r), u[|r|..]));
  }

  lemma EndedCons(c: char, r: string)
    requires c != '\n'
    ensures Ended([c] + r) == Ended(r)
  {}

  lemma {:induction false} FirstLineCons(a: char, s: string)
    requires a != '\n'
    ensures FirstLine([a] + s) == [a] + FirstLine(s)
  {
    assert ([a] + s)[1..] == s;
  }

  lemma {:induction false} FirstLineTag(a: char, b: char, c: char, s: string)
    requires a != '\n' && b != '\n' && c != '\n'
    ensures FirstLine([a, b, c] + s) == [a, b, c] + FirstLine(s)
  {
    FirstLineCons(c, s);
    FirstLineCons(b, [c] + s);
    FirstLineCons(a, [b] + ([c] + s));
    assert [a, b, c] + s == [a] + ([b] + ([c] + s));
  }

  /** What one turn of the outer loop copies from: the rest of the message, with a prefix put
      in front of it when a line starts without one. */
  function Turn(atStart: bool, s: string): string { if atStart && !HasLevel(s) then PREFIX + s else s }

  function Extra(atStart: bool, s: string): nat { if atStart && !HasLevel(s) then 3 else 0 }

  /** One turn logs the first line of that, and the rest of the message remains. */
  lemma {:induction false} TurnLogged(atStart: bool, s: string)
    requires s != ""
    ensures var line := FirstLine(Turn(atStart, s));
      var used := |line| - Extra(atStart, s);
      0 < used <= |s| && Logged(atStart, s) == line + Logged(Ended(line), s[used..])
  {
    if !atStart {
      OpenLine(s);
    } else if HasLevel(s) {
      var t := s[3..];
      assert s == [s[0], s[1], s[2]] + t;
      TagTurn(s[0], s[1], s[2], t);
    } else {
      TagTurn('<', '4', '>', s);
      assert PREFIX == ['<', '4', '>'];
    }
  }

  /** A level prefix and the line behind it. */
  lemma {:induction false} TagTurn(a: char, b: char, c: char, s: string)
    requires a != '\n' && b != '\n' && c != '\n'
    ensures var line := FirstLine([a, b, c] + s);
      3 <= |line| <= |s| + 3 && (s != "" ==> |line| > 3) &&
      [a, b, c] + Logged(false, s) == line + Logged(Ended(line), s[|line| - 3..])
  {
    FirstLineTag(a, b, c, s);
    OpenLine(s);
    TagLogged(a, b, c, s);
  }

  lemma {:induction false} TurnUsed(atStart: bool, s: string)
    requires s != ""
    ensures Extra(atStart, s) < |FirstLine(Turn(atStart, s))| <= |s| + Extra(atStart, s)
  {
    TurnLogged(atStart, s);
  }

  lemma {:induction false} TurnStart(atStart: bool, s: string)
    requires s != ""
    ensures var line := FirstLine(Turn(atStart, s));
      var used := |line| - Extra(atStart, s);
      0 < used <= |s| && StartAfter(atStart, s) == StartAfter(Ended(line), s[used..])
  {
    TurnUsed(atStart, s);
    SameEnd(FirstLine(Turn(atStart, s)), s, Turn(atStart, s), Extra(atStart, s));
  }

  lemma SameEnd(line: string, s: string, t: string, extra: nat)
    requires |t| == |s| + extra && t[extra..] == s && extra < |line| <= |t| && line == t[..|line|]
    ensures StartAfter(true, s) == StartAfter(Ended(line), s[|line| - extra..])
  {
    assert t[|t| - 1] == s[|s| - 1];
    assert line[|line| - 1] == t[|line| - 1];
  }

  lemma {:induction false} TagLogged(a: char, b: char, c: char, s: string)
    requires c != '\n'
    ensures var r := FirstLine(s);
      [a, b, c] + Logged(false, s) == ([a, b, c] + r) + Logged(Ended([a, b, c] + r), s[|r|..])
  {
    OpenLine(s);
    var r := FirstLine(s);
    assert Ended([a, b, c] + r) == Ended(r) || r == "";
  }

  // ---------------------------------------------------------------- the code

  lemma MaskTail(start: nat, size: nat)
    requires start < W && size <= LOGBUFF_LEN
    ensures (start + size) % 0x1_0000_0000 % 16384 == Tail(start % 16384, size, 16384)
  {}

  lemma CountNext(n: nat)
    ensures (n % 0x1_0000_0000 + 1) % 0x1_0000_0000 == (n + 1) % 0x1_0000_0000
  {}

  lemma MaskStep(start: nat)
    requires start < W
    ensures (start + 1) % 0x1_0000_0000 % 16384 == Step(start % 16384, 16384)
  {}

  /** Character i of the ring that starts at log_start. */
  function Cell(d: seq<char>, start: nat, i: nat): char
    requires |d| == LOGBUFF_LEN && i <= LOGBUFF_LEN
  {
    d[Tail(start % 16384, i, 16384)]
  }

  /** The ring that starts at log_start, modulo 2^32, shows the last characters of the stream. */
  ghost predicate Shows(d: seq<char>, start: nat, size: nat, stream: string) {
    |d| == LOGBUFF_LEN && size == (if |stream| < LOGBUFF_LEN then |stream| else LOGBUFF_LEN) &&
    start == (|stream| - size) % 0x1_0000_0000 &&
    forall i :: 0 <= i < size ==> Cell(d, start, i) == stream[|stream| - size + i]
  }

  /** Read round from log_start, the ring is the last 16384 characters of the stream. */
  lemma {:induction false} ShowsWindow(d: seq<char>, start: nat, size: nat, stream: string)
    requires Shows(d, start, size, stream)
    ensures Window(d, start % 16384, size) == Last(stream, LOGBUFF_LEN)
  {
    forall i | 0 <= i < size ensures Window(d, start % 16384, size)[i] == Last(stream, LOGBUFF_LEN)[i] {
      WindowAt(d, start % 16384, size, i);
      assert Cell(d, start, i) == stream[|stream| - size + i];
    }
  }

  lemma {:induction false} ShowsGrow(d: seq<char>, start: nat, size: nat, stream: string, c: char)
    requires Shows(d, start, size, stream) && size < LOGBUFF_LEN
    ensures Shows(d[(start + size) % 0x1_0000_0000 % 16384 := c], start, size + 1, stream + [c])
  {
    MaskTail(start, size);
    var e, t := d[Tail(start % 16384, size, 16384) := c], stream + [c];
    forall i | 0 <= i < size + 1 ensures Cell(e, start, i) == t[|t| - (size + 1) + i] {
      if i < size {
        assert Cell(d, start, i) == stream[|stream| - size + i];
      }
    }
  }

  lemma {:induction false} ShowsRoll(d: seq<char>, start: nat, stream: string, c: char)
    requires Shows(d, start, LOGBUFF_LEN, stream)
    ensures Shows(d[(start + LOGBUFF_LEN) % 0x1_0000_0000 % 16384 := c], (start + 1) % 0x1_0000_0000, LOGBUFF_LEN, stream + [c])
  {
    MaskTail(start, LOGBUFF_LEN);
    MaskStep(start);
    CountNext(|stream| - LOGBUFF_LEN);
    var next := (start + 1) % 0x1_0000_0000;
    var e, t := d[Tail(start % 16384, LOGBUFF_LEN, 16384) := c], stream + [c];
    forall i | 0 <= i < LOGBUFF_LEN ensures Cell(e, next, i) == t[|t| - LOGBUFF_LEN + i] {
      TailStep(start % 16384, i, 16384);
      if i + 1 < LOGBUFF_LEN {
        assert Cell(d, start, i + 1) == stream[|stream| - LOGBUFF_LEN + (i + 1)];
      }
    }
  }

  class Log {
    var logBuf: array<char>
    var logStart: nat
    var logSize: nat
    var loggedChars: nat
    var msgLevel: int
    ghost var stream: string

    ghost predicate Valid()
      reads this, logBuf
    {
      logBuf.Length == LOGBUFF_LEN && Shows(logBuf[..], logStart, logSize, stream) &&
      loggedChars == |stream| % 0x1_0000_0000 && msgLevel >= -1
    }

    constructor ()
      ensures Valid() && fresh(logBuf) && stream == "" && msgLevel == -1
    {
      logBuf := new char[LOGBUFF_LEN];
      logStart, logSize, loggedChars, msgLevel, stream := 0, 0, 0, -1, "";
    }

    /** The reset subcommand. */
    method Reset()
      requires Valid()
      modifies this`logStart, this`logSize, this`loggedChars, this`stream
      ensures Valid() && stream == ""
    {
      logStart, logSize, loggedChars, stream := 0, 0, 0, "";
    }

    /** One character into the ring. */
    method PutChar(c: char)
      requires Valid()
      modifies this`logStart, this`logSize, this`loggedChars, this`stream, logBuf
      ensures Valid() && stream == old(stream) + [c]
    {
      ghost var d := logBuf[..];
      var at := (logStart + logSize) % 0x1_0000_0000 % 16384;
      logBuf[at] := c;
      assert logBuf[..] == d[at := c];
      CountNext(|stream|);
      if logSize < LOGBUFF_LEN {
        ShowsGrow(d, logStart, logSize, stream, c);
        logSize := logSize + 1;
      } else {
        ShowsRoll(d, logStart, stream, c);
        logStart := (logStart + 1) % 0x1_0000_0000;
      }
      loggedChars := (loggedChars + 1) % 0x1_0000_0000;
      stream := stream + [c];
      assert Shows(logBuf[..], logStart, logSize, stream);
    }

    /** The inner loop: characters up to a line feed or the end of the message. */
    method CopyLine(buf: string, p: nat, end: nat) returns (q: nat, lineFeed: bool)
      requires Valid() && p < end <= |buf|
      modifies this`logStart, this`logSize, this`loggedChars, this`stream, logBuf
      ensures Valid()
      ensures var line := FirstLine(buf[p..end]);
        stream == old(stream) + line && lineFeed == Ended(line) && q == p + |line| - (if lineFeed then 1 else 0)
    {
      ghost var was, text, done := stream, buf[p..end], "";
      q := p;
      while q < end
        invariant p <= q <= end && Valid() && stream == was + done && |done| == q - p
        invariant Partial(text, done, buf[q..end])
      {
        RestOf(buf, q, end);
        lineFeed := CopyChar(buf[q], was, text, done, buf[q..end]);
        done := done + [buf[q]];
        if lineFeed {
          return;
        }
        q := q + 1;
      }
      PartialEnd(text, done);
      lineFeed := false;
    }

    /** One character of the line. */
    method CopyChar(c: char, ghost was: string, ghost text: string, ghost done: string, ghost rest: string) returns (lineFeed: bool)
      requires Valid() && stream == was + done && rest != "" && rest[0] == c && Partial(text, done, rest)
      modifies this`logStart, this`logSize, this`loggedChars, this`stream, logBuf
      ensures Valid() && stream == was + (done + [c]) && lineFeed == (c == '\n')
      ensures lineFeed ==> FirstLine(text) == done + [c] && Ended(done + [c])
      ensures !lineFeed ==> Partial(text, done + [c], rest[1..])
    {
      PartialNext(text, done, rest);
      Join(was, done, [c]);
      PutChar(c);
      lineFeed := c == '\n';
    }

    /** The start of a turn: a line without a level gets one, written over what lies in
        front of it in the work buffer. */
    method Prepare(buf: string, p: nat, end: nat) returns (buf1: string, q: nat)
      requires 3 <= p < end && |buf| == end + 1 && buf[end] == '\0'
      modifies this`msgLevel
      ensures msgLevel >= 0 && |buf1| == |buf| && buf1[p..] == buf[p..]
      ensures q == p - Extra(old(msgLevel) < 0, buf[p..end])
      ensures buf1[q..end] == Turn(old(msgLevel) < 0, buf[p..end])
    {
      buf1, q := buf, p;
      if msgLevel < 0 {
        if buf[p] != '<' || buf[p + 1] < '0' || buf[p + 1] > '7' || buf[p + 2] != '>' {
          q := p - 3;
          buf1 := buf[q := '<'][q + 1 := '4'][q + 2 := '>'];
          assert buf1[q..end] == PREFIX + buf[p..end];
        }
        msgLevel := (buf1[q + 1] - '0') as int;
      }
    }

    /** One turn of the outer loop. */
    method LogTurn(buf: string, p: nat, end: nat) returns (buf1: string, next: nat)
      requires Valid() && 3 <= p < end && |buf| == end + 1 && buf[end] == '\0'
      modifies this`logStart, this`logSize, this`loggedChars, this`stream, this`msgLevel, logBuf
      ensures Valid() && |buf1| == end + 1 && buf1[end] == '\0' && p < next
      ensures var rest, atStart := buf[p..end], old(msgLevel) < 0;
        var line := FirstLine(Turn(atStart, rest));
        var used := |line| - Extra(atStart, rest);
        stream == old(stream) + line && (msgLevel < 0) == Ended(line) && 0 < used <= |rest| &&
        rest[used..] == Unread(buf1, next, end)
    {
      ghost var rest, atStart := buf[p..end], msgLevel < 0;
      TurnUsed(atStart, rest);
      var q: nat;
      buf1, q := Prepare(buf, p, end);
      var stop, lineFeed := CopyLine(buf1, q, end);
      if lineFeed {
        msgLevel := -1;
      }
      next := stop + 1;
      LogRest(buf, buf1, p, end, atStart, next);
    }

    /** The append subcommand. */
    method Append(args: seq<string>)
      requires Valid() && forall i :: 0 <= i < |args| ==> Message(args[i])
      modifies this`logStart, this`logSize, this`loggedChars, this`stream, this`msgLevel, logBuf
      ensures Valid()
      ensures stream == old(stream) + LoggedAll(old(msgLevel) < 0, AppendCalls(args))
    {
      ghost var first, out, was := msgLevel < 0, "", stream;
      for i := 0 to |args|
        invariant Valid() && stream == was + out
        invariant LoggedAll(first, AppendCalls(args)) == out + LoggedAll(msgLevel < 0, AppendCalls(args[i..]))
      {
        ghost var start := msgLevel < 0;
        var sep := if i < |args| - 1 then " " else "\n";
        NextArgument(start, args, i, sep, out);
        Printk(args[i]);
        ghost var a, mid := Logged(start, args[i]), msgLevel < 0;
        Printk(sep);
        ghost var b := Logged(mid, sep);
        Join(was, out, a);
        Join(was, out + a, b);
        out := out + a + b;
      }
    }

    /** logbuff_printk: the stream grows by the message with its level prefixes. */
    method Printk(line: string)
      requires Valid() && Message(line)
      modifies this`logStart, this`logSize, this`loggedChars, this`stream, this`msgLevel, logBuf
      ensures Valid()
      ensures stream == old(stream) + Logged(old(msgLevel) < 0, line)
      ensures (msgLevel < 0) == StartAfter(old(msgLevel) < 0, line)
    {
      var buf := "\0\0\0" + line + "\0";
      var end := 3 + |line|;
      var p := 3;
      ghost var out, first, was := "", msgLevel < 0, stream;
      assert Unread(buf, p, end) == line;
      while p < end
        invariant Valid() && stream == was + out
        invariant |buf| == end + 1 && buf[end] == '\0' && p >= 3
        invariant Progress(first, line, out, msgLevel < 0, Unread(buf, p, end))
        decreases end - p
      {
        buf, p, out := LogNext(buf, p, end, first, line, out, was);
      }
    }

    /** One turn, as progress of the whole message. */
    method LogNext(buf: string, p: nat, end: nat, ghost first: bool, ghost line: string, ghost out: string, ghost was: string)
      returns (buf1: string, next: nat, ghost out1: string)
      requires Valid() && 3 <= p < end && |buf| == end + 1 && buf[end] == '\0' && stream == was + out
      requires Progress(first, line, out, msgLevel < 0, Unread(buf, p, end))
      modifies this`logStart, this`logSize, this`loggedChars, this`stream, this`msgLevel, logBuf
      ensures Valid() && |buf1| == end + 1 && buf1[end] == '\0' && p < next && stream == was + out1
      ensures Progress(first, line, out1, msgLevel < 0, Unread(buf1, next, end))
    {
      ghost var rest, start := buf[p..end], msgLevel < 0;
      buf1, next := LogTurn(buf, p, end);
      ghost var logged := FirstLine(Turn(start, rest));
      NextProgress(first, line, out, start, rest, logged, msgLevel < 0, Unread(buf1, next, end));
      Join(was, out, logged);
      out1 := out + logged;
    }

    /** Any sequence of messages: the stream grows by what they log, one after the other. */
    method PrintAll(calls: seq<string>)
      requires Valid() && forall i :: 0 <= i < |calls| ==> Message(calls[i])
      modifies this`logStart, this`logSize, this`loggedChars, this`stream, this`msgLevel, logBuf
      ensures Valid()
      ensures stream == old(stream) + LoggedAll(old(msgLevel) < 0, calls)
    {
      ghost var first, out, was := msgLevel < 0, "", stream;
      for i := 0 to |calls|
        invariant Valid() && stream == was + out
        invariant LoggedAll(first, calls) == out + LoggedAll(msgLevel < 0, calls[i..])
      {
        ghost var start := msgLevel < 0;
        NextCall(start, calls, i, out);
        Printk(calls[i]);
        Join(was, out, Logged(start, calls[i]));
        out := out + Logged(start, calls[i]);
      }
    }
  }

  /** A C string that fits the work buffer behind the room for a prefix. */
  predicate Message(line: string) { '\0' !in line && |line| + 4 <= 1024 }

  /** What the outer loop has not reached yet. */
  function Unread(buf: string, p: nat, end: nat): string
    requires end <= |buf|
  {
    if p < end then buf[p..end] else ""
  }

  /** Part of a message has been logged; the rest is still to come. */
  ghost predicate Progress(first: bool, line: string, out: string, atStart: bool, rest: string) {
    Logged(first, line) == out + Logged(atStart, rest) && StartAfter(first, line) == StartAfter(atStart, rest)
  }

  lemma {:induction false} NextProgress(first: bool, line: string, out: string, atStart: bool, rest: string, logged: string, again: bool, left: string)
    requires Progress(first, line, out, atStart, rest) && rest != "" && logged == FirstLine(Turn(atStart, rest))
    requires var used := |logged| - Extra(atStart, rest); 0 < used <= |rest| && left == rest[used..] && again == Ended(logged)
    ensures Progress(first, line, out + logged, again, left)
  {
    TurnLogged(atStart, rest);
    TurnStart(atStart, rest);
    Join(out, logged, Logged(again, left));
  }

  lemma {:induction false} NextCall(atStart: bool, calls: seq<string>, i: nat, out: string)
    requires i < |calls|
    ensures out + LoggedAll(atStart, calls[i..]) ==
      (out + Logged(atStart, calls[i])) + LoggedAll(StartAfter(atStart, calls[i]), calls[i + 1..])
  {
    assert calls[i..][1..] == calls[i + 1..];
    Join(out, Logged(atStart, calls[i]), LoggedAll(StartAfter(atStart, calls[i]), calls[i + 1..]));
  }

  /** The messages of the append subcommand: the arguments, spaces between, a line feed. */
  function AppendCalls(args: seq<string>): seq<string> {
    if args == [] then []
    else [args[0], if |args| > 1 then " " else "\n"] + AppendCalls(args[1..])
  }

  /** One argument and what separates it from the next. */
  lemma {:induction false} NextArgument(atStart: bool, args: seq<string>, i: nat, sep: string, out: string)
    requires i < |args| && sep == if i < |args| - 1 then " " else "\n"
    ensures var mid := StartAfter(atStart, args[i]); var next := StartAfter(mid, sep);
      out + LoggedAll(atStart, AppendCalls(args[i..])) ==
        (out + Logged(atStart, args[i]) + Logged(mid, sep)) + LoggedAll(next, AppendCalls(args[i + 1..]))
  {
    var a, more := args[i], AppendCalls(args[i + 1..]);
    assert args[i..][1..] == args[i + 1..];
    var calls := [a, sep] + more;
    assert AppendCalls(args[i..]) == calls;
    NextCall(atStart, calls, 0, out);
    NextCall(StartAfter(atStart, a), calls, 1, out + Logged(atStart, a));
    assert calls[0..] == calls && calls[2..] == more;
  }

  /** The rest of the message after a turn. */
  lemma {:induction false} LogRest(buf: string, buf1: string, p: nat, end: nat, atStart: bool, next: nat)
    requires p < end <= |buf| == |buf1| && buf1[p..] == buf[p..]
    requires var line := FirstLine(Turn(atStart, buf[p..end]));
      next == p - Extra(atStart, buf[p..end]) + |line| + (if Ended(line) then 0 else 1)
    ensures var used := |FirstLine(Turn(atStart, buf[p..end]))| - Extra(atStart, buf[p..end]);
      0 < used <= end - p && buf[p..end][used..] == (if next < end then buf1[next..end] else "") && p < next
  {
    var rest := buf[p..end];
    TurnUsed(atStart, rest);
    var line := FirstLine(Turn(atStart, rest));
    SuffixKept(buf, buf1, p, end, |line| - Extra(atStart, rest));
    if !Ended(line) {
      WholeLine(Turn(atStart, rest));
    }
  }

  lemma {:induction false} SuffixKept(buf: string, buf1: string, p: nat, end: nat, used: nat)
    requires p < end <= |buf| == |buf1| && buf1[p..] == buf[p..] && used <= end - p
    ensures buf[p..end][used..] == buf1[p + used..end]
  {
    assert buf1[p..][..end - p] == buf1[p..end] && buf[p..][..end - p] == buf[p..end];
  }

  /** A line that is not ended is all there is. */
  lemma {:induction false} WholeLine(s: string)
    requires !Ended(FirstLine(s))
    ensures FirstLine(s) == s
  {
    if s != "" {
      if s[0] != '\n' {
        EndedCons(s[0], FirstLine(s[1..]));
        WholeLine(s[1..]);
      }
    }
  }

  /** Part of the first line has been copied. */
  ghost predicate Partial(text: string, done: string, rest: string) {
    FirstLine(text) == done + FirstLine(rest) && !Ended(done)
  }

  lemma {:induction false} PartialEnd(text: string, done: string)
    requires Partial(text, done, "")
    ensures FirstLine(text) == done && !Ended(done)
  {}

  lemma RestOf(buf: string, q: nat, end: nat)
    requires q < end <= |buf|
    ensures buf[q..end][0] == buf[q] && buf[q..end][1..] == buf[q + 1..end]
  {}

  lemma {:induction false} PartialNext(text: string, done: string, rest: string)
    requires rest != "" && Partial(text, done, rest)
    ensures rest[0] == '\n' ==> FirstLine(text) == done + [rest[0]] && Ended(done + [rest[0]])
    ensures rest[0] != '\n' ==> Partial(text, done + [rest[0]], rest[1..])
  {
    if rest[0] != '\n' {
      Join(done, [rest[0]], FirstLine(rest[1..]));
    }
  }
}
