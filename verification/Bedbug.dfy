/** The PowerPC assembler, operand decoder and single-step logic of common/bedbug.c. */
module Bedbug {
  import opened DivMod

  // ---------------------------------------------------------------- words as sets of bits

  /** A machine word is the set of its one bits, counted from the low end. */
  type Word = set<nat>

  function Up(s: Word, n: nat): Word { set k | k in s :: k + n }

  function Down(s: Word, n: nat): Word { set k | k in s && k >= n :: k - n }

  /** The low n bits of a number in two's complement. */
  function BitsOf(v: int, n: nat): Word
    decreases n
  {
    if n == 0 then {} else (if v % 2 == 1 then {0} else {}) + Up(BitsOf(v / 2, n - 1), 1)
  }

  /** The number made of the low n bits. */
  function ValueOf(s: Word, n: nat): nat
    decreases n
  {
    if n == 0 then 0 else (if 0 in s then 1 else 0) + 2 * ValueOf(Down(s, 1), n - 1)
  }

  /** A number cut to n bits. */
  function Low(v: int, n: nat): (r: nat)
    ensures r < Pow2(n)
    decreases n
  {
    if n == 0 then 0 else v % 2 + 2 * Low(v / 2, n - 1)
  }

  lemma UpAt(s: Word, n: nat, k: nat)
    ensures k in Up(s, n) <==> k >= n && k - n in s
  {
    if k >= n && k - n in s {
      assert k == (k - n) + n;
    }
  }

  lemma DownAt(s: Word, n: nat, k: nat)
    ensures k in Down(s, n) <==> k + n in s
  {
    if k + n in s {
      assert k == (k + n) - n;
    }
  }

  lemma {:induction false} BitsBound(v: int, n: nat, k: nat)
    requires k in BitsOf(v, n)
    ensures k < n
    decreases n
  {
    if k > 0 {
      UpAt(BitsOf(v / 2, n - 1), 1, k);
      BitsBound(v / 2, n - 1, k - 1);
    }
  }

  /** Only the low n bits matter. */
  lemma {:induction false} ValueAgree(s: Word, t: Word, n: nat)
    requires forall k: nat :: k < n ==> (k in s <==> k in t)
    ensures ValueOf(s, n) == ValueOf(t, n)
    decreases n
  {
    if n > 0 {
      forall k: nat | k < n - 1 ensures k in Down(s, 1) <==> k in Down(t, 1) {
        DownAt(s, 1, k);
        DownAt(t, 1, k);
      }
      ValueAgree(Down(s, 1), Down(t, 1), n - 1);
    }
  }

  lemma {:induction false} ValueBits(v: int, n: nat)
    ensures ValueOf(BitsOf(v, n), n) == Low(v, n)
    decreases n
  {
    if n > 0 {
      var s, h := BitsOf(v, n), BitsOf(v / 2, n - 1);
      UpAt(h, 1, 0);
      forall k: nat | k < n - 1 ensures k in Down(s, 1) <==> k in h {
        DownAt(s, 1, k);
        UpAt(h, 1, k + 1);
      }
      ValueAgree(Down(s, 1), h, n - 1);
      ValueBits(v / 2, n - 1);
    }
  }

  lemma {:induction false} LowSmall(v: int, n: nat)
    requires 0 - Pow2(n) <= v < Pow2(n)
    ensures Low(v, n) == if v < 0 then v + Pow2(n) else v
    decreases n
  {
    if n > 0 {
      LowSmall(v / 2, n - 1);
    }
  }

  // ---------------------------------------------------------------- operands

  datatype Kind = Addr | Reg | Spr | Tbr | Plain

  datatype Operand = Operand(bits: nat, shift: nat, silent: bool, kind: Kind)

  /** fields: identifiers of operands, counted from one; relative: the H_RELATIVE hint. */
  datatype Opcode = Opcode(opcode: Word, fields: seq<nat>, relative: bool)

  /** A word of the command line as read_number or the register maps read it. */
  datatype Arg = Num(v: int) | Unknown

  datatype Error = NumOperands | BadRegister | BadSpr | BadTbr

  datatype Result<T> = Ok(value: T) | Err(error: Error)

  const W := 0x1_0000_0000

  /** The 32-bit signed number congruent to x. */
  function Signed(x: int): int { (x + 0x8000_0000) % 0x1_0000_0000 - 0x8000_0000 }

  function Unsigned(x: int): nat { x % 0x1_0000_0000 }

  /** The reversal of the two five-bit halves of a register number. */
  function Swap(v: int): nat { v / 32 % 32 + v % 32 * 32 }

  /** parse_operand: the contents of the field. */
  function Encode(memaddr: nat, relative: bool, o: Operand, a: Arg): Result<nat>
    requires o.bits > 0
  {
    var v := if a.Num? then a.v else 0;
    match o.kind
    case Addr =>
      var d := Signed(v - (if relative then memaddr else 0));
      Ok(Low(d / 4, o.bits - 1) + (if d < 0 then Pow2(o.bits - 1) else 0))
    case Reg => if v > 31 then Err(BadRegister) else Ok(Low(v, o.bits))
    case Spr => if Swap(v) == 0 then Err(BadSpr) else Ok(Low(Swap(v), o.bits))
    case Tbr => if v != 268 && v != 269 then Err(BadTbr) else Ok(Low(Swap(v), o.bits))
    case Plain => Ok(Low(v, o.bits))
  }

  lemma EncodeBound(memaddr: nat, relative: bool, o: Operand, a: Arg)
    requires o.bits > 0 && Encode(memaddr, relative, o, a).Ok?
    ensures Encode(memaddr, relative, o, a).value < Pow2(o.bits)
  {}

  /** A field of a word, as get_operand_value and print_operands extract it. */
  function Field(w: Word, o: Operand): nat { ValueOf(Down(w, o.shift), o.bits) }

  function Insert(w: Word, o: Operand, v: nat): Word { w + Up(BitsOf(v, o.bits), o.shift) }

  predicate InField(o: Operand, k: nat) { o.shift <= k < o.shift + o.bits }

  lemma InsertAt(w: Word, o: Operand, v: nat, k: nat)
    ensures k in Insert(w, o, v) <==> k in w || (k >= o.shift && k - o.shift in BitsOf(v, o.bits))
    ensures !InField(o, k) ==> (k in Insert(w, o, v) <==> k in w)
  {
    UpAt(BitsOf(v, o.bits), o.shift, k);
    if k >= o.shift && k - o.shift in BitsOf(v, o.bits) {
      BitsBound(v, o.bits, k - o.shift);
    }
  }

  /** What is put into a clear field is found there. */
  lemma {:induction false} FieldInsert(w: Word, o: Operand, v: nat)
    requires v < Pow2(o.bits) && forall k: nat :: InField(o, k) ==> k !in w
    ensures Field(Insert(w, o, v), o) == v
  {
    var b := BitsOf(v, o.bits);
    forall k: nat | k < o.bits ensures k in Down(Insert(w, o, v), o.shift) <==> k in b {
      DownAt(Insert(w, o, v), o.shift, k);
      InsertAt(w, o, v, k + o.shift);
      assert InField(o, k + o.shift);
    }
    ValueAgree(Down(Insert(w, o, v), o.shift), b, o.bits);
    ValueBits(v, o.bits);
    LowSmall(v, o.bits);
  }

  predicate Disjoint(o: Operand, p: Operand) { o.shift + o.bits <= p.shift || p.shift + p.bits <= o.shift }

  lemma {:induction false} FieldFrame(w: Word, o: Operand, v: nat, p: Operand)
    requires Disjoint(o, p)
    ensures Field(Insert(w, o, v), p) == Field(w, p)
  {
    forall k: nat | k < p.bits ensures k in Down(Insert(w, o, v), p.shift) <==> k in Down(w, p.shift) {
      DownAt(Insert(w, o, v), p.shift, k);
      DownAt(w, p.shift, k);
      InsertAt(w, o, v, k + p.shift);
    }
    ValueAgree(Down(Insert(w, o, v), p.shift), Down(w, p.shift), p.bits);
  }

  // ---------------------------------------------------------------- the assembler

  predicate KnownFields(table: seq<Operand>, fields: seq<nat>) {
    forall i :: 0 <= i < |fields| ==> 1 <= fields[i] <= |table| && table[fields[i] - 1].bits > 0
  }

  /** The fields of an opcode that are still to be read, against the words still there. */
  function Assemble(table: seq<Operand>, memaddr: nat, relative: bool, w: Word, fields: seq<nat>, args: seq<Arg>): Result<Word>
    requires KnownFields(table, fields)
    decreases |fields|
  {
    if fields == [] then Ok(w)
    else
      var o := table[fields[0] - 1];
      if o.silent then Assemble(table, memaddr, relative, w, fields[1..], args)
      else if args == [] then Err(NumOperands)
      else
        match Encode(memaddr, relative, o, args[0])
        case Err(e) => Err(e)
        case Ok(v) => Assemble(table, memaddr, relative, Insert(w, o, v), fields[1..], args[1..])
  }

  /** One field, from any place in the fields and in the operands. */
  lemma {:induction false} AssembleNext(table: seq<Operand>, memaddr: nat, relative: bool, w: Word, fields: seq<nat>, n: nat, args: seq<Arg>, next: nat)
    requires KnownFields(table, fields) && n < |fields| && next <= |args|
    ensures var o := table[fields[n] - 1];
      Assemble(table, memaddr, relative, w, fields[n..], args[next..]) ==
        if o.silent then Assemble(table, memaddr, relative, w, fields[n + 1..], args[next..])
        else if next == |args| then Err(NumOperands)
        else match Encode(memaddr, relative, o, args[next])
          case Err(e) => Err(e)
          case Ok(v) => Assemble(table, memaddr, relative, Insert(w, o, v), fields[n + 1..], args[next + 1..])
  {
    assert fields[n..][0] == fields[n] && fields[n..][1..] == fields[n + 1..];
    if next < |args| {
      assert args[next..][0] == args[next] && args[next..][1..] == args[next + 1..];
    }
  }

  /** asmppc, behind the look-up of the opcode. */
  method Asmppc(table: seq<Operand>, memaddr: nat, op: Opcode, args: seq<Arg>) returns (r: Result<Word>)
    requires KnownFields(table, op.fields)
    ensures r == Assemble(table, memaddr, op.relative, op.opcode, op.fields, args)
  {
    var instr, n, next := op.opcode, 0, 0;
    assert op.fields[0..] == op.fields && args[0..] == args;
    while n < |op.fields|
      invariant 0 <= n <= |op.fields| && 0 <= next <= |args|
      invariant Assemble(table, memaddr, op.relative, op.opcode, op.fields, args)
             == Assemble(table, memaddr, op.relative, instr, op.fields[n..], args[next..])
    {
      var o := table[op.fields[n] - 1];
      AssembleNext(table, memaddr, op.relative, instr, op.fields, n, args, next);
      if !o.silent {
        if next == |args| {
          return Err(NumOperands);
        }
        var e := Encode(memaddr, op.relative, o, args[next]);
        if e.Err? {
          return Err(e.error);
        }
        instr := Insert(instr, o, e.value);
        next := next + 1;
      }
      n := n + 1;
    }
    return Ok(instr);
  }

  /** get_operand_value: the field of the first operand with that identifier. */
  method GetOperandValue(table: seq<Operand>, op: Opcode, instr: Word, field: nat) returns (found: bool, value: nat)
    requires KnownFields(table, op.fields)
    ensures found <==> field in op.fields
    ensures found ==> 1 <= field <= |table| && value == Field(instr, table[field - 1])
  {
    if field > |table| {
      return false, 0;
    }
    for i := 0 to |op.fields|
      invariant field !in op.fields[..i]
    {
      if op.fields[i] == field {
        return true, Field(instr, table[field - 1]);
      }
    }
    return false, 0;
  }

  // ---------------------------------------------------------------- operands are recovered

  /** The fields of an opcode do not overlap, and those that are read are clear in it. */
  predicate WellFormed(table: seq<Operand>, w: Word, fields: seq<nat>)
    requires KnownFields(table, fields)
  {
    (forall i, j :: 0 <= i < j < |fields| ==> Disjoint(table[fields[i] - 1], table[fields[j] - 1])) &&
    (forall i :: 0 <= i < |fields| && !table[fields[i] - 1].silent ==> Clear(w, table[fields[i] - 1]))
  }

  predicate Clear(w: Word, o: Operand) { forall k :: k in w ==> !InField(o, k) }

  /** The index of the word that operand i takes. */
  function ArgIndex(table: seq<Operand>, fields: seq<nat>, i: nat): (n: nat)
    requires KnownFields(table, fields) && i <= |fields|
    ensures n <= i
  {
    if i == 0 then 0
    else ArgIndex(table, fields[1..], i - 1) + (if table[fields[0] - 1].silent then 0 else 1)
  }

  lemma {:induction false} AssembleFrame(table: seq<Operand>, memaddr: nat, relative: bool, w: Word, fields: seq<nat>, args: seq<Arg>, o: Operand)
    requires KnownFields(table, fields)
    requires forall i :: 0 <= i < |fields| ==> Disjoint(table[fields[i] - 1], o)
    ensures var r := Assemble(table, memaddr, relative, w, fields, args); r.Ok? ==> Field(r.value, o) == Field(w, o)
    decreases |fields|
  {
    if fields != [] {
      var p := table[fields[0] - 1];
      if p.silent {
        AssembleFrame(table, memaddr, relative, w, fields[1..], args, o);
      } else if args != [] {
        var e := Encode(memaddr, relative, p, args[0]);
        if e.Ok? {
          FieldFrame(w, p, e.value, o);
          AssembleFrame(table, memaddr, relative, Insert(w, p, e.value), fields[1..], args[1..], o);
        }
      }
    }
  }

  lemma ClearInsert(w: Word, p: Operand, v: nat, o: Operand)
    requires Disjoint(p, o) && Clear(w, o)
    ensures Clear(Insert(w, p, v), o)
  {
    forall k | k in Insert(w, p, v) ensures !InField(o, k) {
      InsertAt(w, p, v, k);
    }
  }

  lemma {:induction false} StillWellFormed(table: seq<Operand>, w: Word, fields: seq<nat>, v: nat)
    requires KnownFields(table, fields) && fields != [] && WellFormed(table, w, fields)
    ensures WellFormed(table, w, fields[1..]) && WellFormed(table, Insert(w, table[fields[0] - 1], v), fields[1..])
  {
    var p, rest := table[fields[0] - 1], fields[1..];
    forall i | 0 <= i < |rest| && !table[rest[i] - 1].silent
      ensures Clear(w, table[rest[i] - 1]) && Clear(Insert(w, p, v), table[rest[i] - 1])
    {
      assert rest[i] == fields[i + 1];
      ClearInsert(w, p, v, table[rest[i] - 1]);
    }
  }

  /** Operand i of the word r: a silent one is what the opcode has, another is what its
      word of the command line encodes. */
  predicate Recovered(table: seq<Operand>, memaddr: nat, relative: bool, w: Word, fields: seq<nat>, args: seq<Arg>, i: nat, r: Word)
    requires KnownFields(table, fields) && i < |fields|
  {
    var o := table[fields[i] - 1];
    var n := ArgIndex(table, fields, i);
    if o.silent then Field(r, o) == Field(w, o)
    else n < |args| && Encode(memaddr, relative, o, args[n]) == Ok(Field(r, o))
  }

  lemma {:induction false} LaterSilent(table: seq<Operand>, memaddr: nat, relative: bool, w: Word, fields: seq<nat>, args: seq<Arg>, i: nat, r: Word)
    requires KnownFields(table, fields) && 0 < i < |fields| && table[fields[0] - 1].silent
    requires Recovered(table, memaddr, relative, w, fields[1..], args, i - 1, r)
    ensures Recovered(table, memaddr, relative, w, fields, args, i, r)
  {}

  lemma {:induction false} LaterRead(table: seq<Operand>, memaddr: nat, relative: bool, w: Word, fields: seq<nat>, args: seq<Arg>, i: nat, v: nat, r: Word)
    requires KnownFields(table, fields) && 0 < i < |fields| && !table[fields[0] - 1].silent && args != []
    requires WellFormed(table, w, fields)
    requires Recovered(table, memaddr, relative, Insert(w, table[fields[0] - 1], v), fields[1..], args[1..], i - 1, r)
    ensures Recovered(table, memaddr, relative, w, fields, args, i, r)
  {
    FieldFrame(w, table[fields[0] - 1], v, table[fields[i] - 1]);
  }

  lemma {:induction false} HeadRecovered(table: seq<Operand>, memaddr: nat, relative: bool, w: Word, fields: seq<nat>, args: seq<Arg>)
    requires KnownFields(table, fields) && fields != [] && WellFormed(table, w, fields)
    requires Assemble(table, memaddr, relative, w, fields, args).Ok?
    ensures Recovered(table, memaddr, relative, w, fields, args, 0, Assemble(table, memaddr, relative, w, fields, args).value)
  {
    var p, rest := table[fields[0] - 1], fields[1..];
    DisjointHead(table, fields, w);
    if p.silent {
      AssembleFrame(table, memaddr, relative, w, rest, args, p);
    } else {
      var v := Encode(memaddr, relative, p, args[0]).value;
      EncodeBound(memaddr, relative, p, args[0]);
      InsertKept(table, memaddr, relative, w, rest, args[1..], p, v);
    }
  }

  /** A value put into its field is still there when other fields have been read. */
  lemma {:induction false} InsertKept(table: seq<Operand>, memaddr: nat, relative: bool, w: Word, fields: seq<nat>, args: seq<Arg>, p: Operand, v: nat)
    requires KnownFields(table, fields) && v < Pow2(p.bits) && (forall k :: InField(p, k) ==> k !in w)
    requires forall i :: 0 <= i < |fields| ==> Disjoint(table[fields[i] - 1], p)
    ensures var r := Assemble(table, memaddr, relative, Insert(w, p, v), fields, args); r.Ok? ==> Field(r.value, p) == v
  {
    FieldInsert(w, p, v);
    AssembleFrame(table, memaddr, relative, Insert(w, p, v), fields, args, p);
  }

  lemma {:induction false} RestKnown(table: seq<Operand>, fields: seq<nat>)
    requires KnownFields(table, fields) && fields != []
    ensures KnownFields(table, fields[1..])
  {}

  /** From an assembled word every operand is recovered. */
  lemma {:induction false} OperandRecovered(table: seq<Operand>, memaddr: nat, relative: bool, w: Word, fields: seq<nat>, args: seq<Arg>, i: nat)
    requires KnownFields(table, fields) && WellFormed(table, w, fields) && i < |fields|
    requires Assemble(table, memaddr, relative, w, fields, args).Ok?
    ensures Recovered(table, memaddr, relative, w, fields, args, i, Assemble(table, memaddr, relative, w, fields, args).value)
    decreases |fields|, 1
  {
    RestKnown(table, fields);
    if i == 0 {
      HeadRecovered(table, memaddr, relative, w, fields, args);
    } else if table[fields[0] - 1].silent {
      StillWellFormed(table, w, fields, 0);
      OperandRecovered(table, memaddr, relative, w, fields[1..], args, i - 1);
      LaterSilent(table, memaddr, relative, w, fields, args, i, Assemble(table, memaddr, relative, w, fields, args).value);
    } else {
      ReadRecovered(table, memaddr, relative, w, fields, args, i);
    }
  }

  lemma {:induction false} ReadRecovered(table: seq<Operand>, memaddr: nat, relative: bool, w: Word, fields: seq<nat>, args: seq<Arg>, i: nat)
    requires KnownFields(table, fields) && WellFormed(table, w, fields) && 0 < i < |fields|
    requires !table[fields[0] - 1].silent && Assemble(table, memaddr, relative, w, fields, args).Ok?
    ensures Recovered(table, memaddr, relative, w, fields, args, i, Assemble(table, memaddr, relative, w, fields, args).value)
    decreases |fields|, 0
  {
    RestKnown(table, fields);
    var p := table[fields[0] - 1];
    var v := Encode(memaddr, relative, p, args[0]).value;
    StillWellFormed(table, w, fields, v);
    OperandRecovered(table, memaddr, relative, Insert(w, p, v), fields[1..], args[1..], i - 1);
    LaterRead(table, memaddr, relative, w, fields, args, i, v, Assemble(table, memaddr, relative, w, fields, args).value);
  }

  lemma DisjointHead(table: seq<Operand>, fields: seq<nat>, w: Word)
    requires KnownFields(table, fields) && fields != [] && WellFormed(table, w, fields)
    ensures forall i :: 0 <= i < |fields[1..]| ==> Disjoint(table[fields[1..][i] - 1], table[fields[0] - 1])
  {
    forall i | 0 <= i < |fields[1..]| ensures Disjoint(table[fields[1..][i] - 1], table[fields[0] - 1]) {
      assert Disjoint(table[fields[0] - 1], table[fields[i + 1] - 1]);
    }
  }

  /** The reversal of the register halves undoes itself. */
  lemma SwapTwice(v: nat)
    requires v < 1024
    ensures Swap(v) < 1024 && Swap(Swap(v)) == v
  {}

  /** The low half of a register number becomes the high one; what is above ten bits is lost. */
  lemma SwapHalves(top: nat, high: nat, low: nat)
    requires high < 32 && low < 32
    ensures Swap(1024 * top + 32 * high + low) == 32 * low + high
  {
    var v := 1024 * top + 32 * high + low;
    assert v / 32 == 32 * top + high && v % 32 == low;
  }

  /** Exactly when the text of an operand is refused, and the error: a register above 31, a
      special register that is unknown or whose ten bits are zero, a time base register other
      than 268 and 269. Everything else is encoded; a negative number is cut to the field. */
  lemma EncodeRefused(memaddr: nat, relative: bool, o: Operand, a: Arg)
    requires o.bits > 0
    ensures var r := Encode(memaddr, relative, o, a);
      match o.kind
      case Addr => r.Ok?
      case Reg => if a.Num? && a.v >= 32 then r == Err(BadRegister) else r == Ok(if a.Num? then Low(a.v, o.bits) else Low(0, o.bits))
      case Spr => if a.Unknown? || a.v % 1024 == 0 then r == Err(BadSpr) else r.Ok?
      case Tbr => if a.Unknown? || (a.v != 268 && a.v != 269) then r == Err(BadTbr) else r.Ok?
      case Plain => r == Ok(if a.Num? then Low(a.v, o.bits) else Low(0, o.bits))
  {
    if a.Num? {
      SwapZero(a.v);
    }
  }

  lemma SwapZero(v: int)
    ensures Swap(v) == 0 <==> v % 1024 == 0
  {
    assert v % 32 + v / 32 % 32 * 32 == v % 1024;
  }

  // ---------------------------------------------------------------- displacements

  /** The address that print_operands computes from an address field. */
  function Decode(f: nat, bits: nat, base: nat): nat
    requires bits > 0
  {
    Unsigned((if f >= Pow2(bits - 1) then f - Pow2(bits) else f) * 4 + base)
  }

  /** The displacement is a multiple of four that the field can hold. */
  predicate Reachable(target: nat, base: nat, bits: nat)
    requires bits > 0
  {
    var d := Signed(target - base);
    d % 4 == 0 && 0 - Pow2(bits - 1) <= d / 4 < Pow2(bits - 1)
  }

  lemma {:induction false} Pow2Mono(m: nat, n: nat)
    requires m <= n
    ensures Pow2(m) <= Pow2(n)
    decreases n
  {
    if m < n {
      Pow2Mono(m, n - 1);
    }
  }

  lemma Pow2At()
    ensures Pow2(23) == 0x80_0000
  {
    assert Pow2(4) == 16;
    assert Pow2(8) == 256;
    assert Pow2(12) == 0x1000;
    assert Pow2(16) == 0x1_0000;
    assert Pow2(20) == 0x10_0000;
  }

  /** The number that the sign-extended field stands for is the displacement over four
      exactly when that fits. */
  lemma {:induction false} SignExtend(x: int, bits: nat)
    requires bits > 0
    ensures var f := Low(x, bits - 1) + (if x < 0 then Pow2(bits - 1) else 0);
      var v := if f >= Pow2(bits - 1) then f - Pow2(bits) else f;
      0 - Pow2(bits - 1) <= v < Pow2(bits - 1) && (v == x <==> 0 - Pow2(bits - 1) <= x < Pow2(bits - 1))
  {
    var h := Pow2(bits - 1);
    assert Pow2(bits) == 2 * h;
    if -h <= x < h {
      LowSmall(x, bits - 1);
    }
  }

  /** Encoding an address and decoding it gives the address back if and only if the
      displacement is a multiple of four in the range of the field. */
  lemma {:induction false} AddressRoundTrip(target: nat, memaddr: nat, relative: bool, o: Operand)
    requires target < W && memaddr < W && o.kind.Addr? && 0 < o.bits <= 24
    ensures var base := if relative then memaddr else 0;
      Decode(Encode(memaddr, relative, o, Num(target)).value, o.bits, base) == target <==> Reachable(target, base, o.bits)
  {
    RoundTripFrom(target, if relative then memaddr else 0, o.bits);
  }

  lemma {:induction false} RoundTripFrom(target: nat, base: nat, bits: nat)
    requires target < W && base < W && 0 < bits <= 24
    ensures var d := Signed(target - base);
      Decode(Low(d / 4, bits - 1) + (if d < 0 then Pow2(bits - 1) else 0), bits, base) == target <==> Reachable(target, base, bits)
  {
    Pow2Mono(bits - 1, 23);
    Pow2At();
    FieldRoundTrip(target, base, bits, Signed(target - base));
  }

  lemma {:induction false} FieldRoundTrip(target: nat, base: nat, bits: nat, d: int)
    requires target < W && base < W && bits > 0 && Pow2(bits - 1) <= 0x80_0000 && d == Signed(target - base)
    ensures Decode(Low(d / 4, bits - 1) + (if d < 0 then Pow2(bits - 1) else 0), bits, base) == target <==>
      d % 4 == 0 && 0 - Pow2(bits - 1) <= d / 4 < Pow2(bits - 1)
  {
    var x := d / 4;
    SignExtend(x, bits);
    var f := Low(x, bits - 1) + (if x < 0 then Pow2(bits - 1) else 0);
    var v := if f >= Pow2(bits - 1) then f - Pow2(bits) else f;
    SameAddress(v * 4, target, base);
  }

  /** Within the signed range the displacement is determined by the address it leads to. */
  lemma SameAddress(e: int, target: nat, base: nat)
    requires target < W && base < W && -0x8000_0000 <= e < 0x8000_0000
    ensures Unsigned(e + base) == target <==> e == Signed(target - base)
  {}

  /** Outside the fields that were read the word is the opcode. */
  lemma {:induction false} OpcodeKept(table: seq<Operand>, memaddr: nat, relative: bool, w: Word, fields: seq<nat>, args: seq<Arg>, k: nat)
    requires KnownFields(table, fields) && Assemble(table, memaddr, relative, w, fields, args).Ok?
    requires forall i :: 0 <= i < |fields| && !table[fields[i] - 1].silent ==> !InField(table[fields[i] - 1], k)
    ensures k in Assemble(table, memaddr, relative, w, fields, args).value <==> k in w
    decreases |fields|
  {
    if fields != [] {
      var o, rest := table[fields[0] - 1], fields[1..];
      if o.silent {
        OpcodeKept(table, memaddr, relative, w, rest, args, k);
      } else {
        var v := Encode(memaddr, relative, o, args[0]).value;
        InsertAt(w, o, v, k);
        OpcodeKept(table, memaddr, relative, Insert(w, o, v), rest, args[1..], k);
      }
    }
  }

  // ---------------------------------------------------------------- the numbers written

  /** What a field stands for: an address, a register number with its halves reversed, or
      the field itself. */
  function Shown(o: Operand, f: nat, base: nat): nat
    requires o.bits > 0
  {
    match o.kind
    case Addr => Decode(f, o.bits, base)
    case Spr => Swap(f)
    case Tbr => Swap(f)
    case _ => f
  }

  /** The numbers an operand can hold. */
  predicate Holdable(o: Operand, v: int, base: nat)
    requires o.bits > 0
  {
    match o.kind
    case Addr => 0 <= v < W && o.bits <= 24 && Reachable(v, base, o.bits)
    case Reg => 0 <= v <= 31 && v < Pow2(o.bits)
    case Spr => o.bits == 10 && 0 < v < 1024
    case Tbr => o.bits == 10 && (v == 268 || v == 269)
    case Plain => 0 <= v < Pow2(o.bits)
  }

  /** A number is encoded, and the field stands for it, exactly if the operand can hold it. */
  lemma {:induction false} ShownBack(memaddr: nat, relative: bool, o: Operand, v: int)
    requires o.bits > 0 && memaddr < W && (o.kind.Addr? ==> 0 <= v < W && o.bits <= 24) && (o.kind.Spr? || o.kind.Tbr? ==> o.bits == 10)
    ensures var e := Encode(memaddr, relative, o, Num(v));
      e.Ok? && Shown(o, e.value, if relative then memaddr else 0) == v <==> Holdable(o, v, if relative then memaddr else 0)
  {
    match o.kind
    case Addr => AddressRoundTrip(v, memaddr, relative, o);
    case Reg => LowExact(v, o.bits);
    case Plain => LowExact(v, o.bits);
    case _ => SwapExact(memaddr, relative, o, v);
  }

  lemma {:induction false} SwapExact(memaddr: nat, relative: bool, o: Operand, v: int)
    requires o.bits == 10 && (o.kind.Spr? || o.kind.Tbr?)
    ensures var e := Encode(memaddr, relative, o, Num(v));
      e.Ok? && Swap(e.value) == v <==> if o.kind.Spr? then 0 < v < 1024 else v == 268 || v == 269
  {
    if 0 < v < 1024 && (o.kind.Tbr? ==> v == 268 || v == 269) {
      SwapShown(memaddr, relative, o, v, Swap(v));
    } else if o.kind.Spr? {
      SwapOutside(v, Low(Swap(v), 10));
    }
  }

  lemma SwapOutside(v: int, s: nat)
    requires v <= 0 || v >= 1024
    ensures v != 0 ==> Swap(s) != v
    ensures Swap(0) == 0
  {
    assert 0 <= Swap(s) < 1024;
  }

  lemma {:induction false} LowExact(v: int, n: nat)
    ensures Low(v, n) == v <==> 0 <= v < Pow2(n)
  {
    if 0 <= v < Pow2(n) {
      LowSmall(v, n);
    }
  }

  /** The case of a special register or a time base register; s is its number as encoded. */
  lemma {:induction false} SwapShown(memaddr: nat, relative: bool, o: Operand, v: nat, s: nat)
    requires o.bits == 10 && (o.kind.Spr? || (o.kind.Tbr? && (v == 268 || v == 269))) && 0 < v < 1024 && s == Swap(v)
    ensures Encode(memaddr, relative, o, Num(v)) == Ok(s) && Swap(s) == v
  {
    SwapBack(v, s, o.bits);
  }

  lemma {:induction false} SwapBack(v: nat, s: nat, bits: nat)
    requires 0 < v < 1024 && s == Swap(v) && bits == 10
    ensures s != 0 && Low(s, bits) == s && Swap(s) == v
  {
    SwapTwice(v);
    SwapNonzero(v);
    Pow2Ten();
    LowSmall(s, bits);
  }

  lemma SwapNonzero(v: nat)
    requires 0 < v < 1024
    ensures Swap(v) != 0
  {}

  lemma Pow2Ten()
    ensures Pow2(10) == 1024
  {
    assert Pow2(4) == 16;
    assert Pow2(8) == 256;
  }

  /** Every number written in range is what the field of the assembled word stands for. */
  lemma {:induction false} WrittenRecovered(table: seq<Operand>, memaddr: nat, relative: bool, w: Word, fields: seq<nat>, args: seq<Arg>, i: nat, v: int)
    requires KnownFields(table, fields) && WellFormed(table, w, fields) && i < |fields| && memaddr < W
    requires Assemble(table, memaddr, relative, w, fields, args).Ok? && !table[fields[i] - 1].silent
    requires ArgIndex(table, fields, i) < |args| && args[ArgIndex(table, fields, i)] == Num(v)
    requires Holdable(table[fields[i] - 1], v, if relative then memaddr else 0)
    ensures var o := table[fields[i] - 1];
      Shown(o, Field(Assemble(table, memaddr, relative, w, fields, args).value, o), if relative then memaddr else 0) == v
  {
    OperandRecovered(table, memaddr, relative, w, fields, args, i);
    ShownBack(memaddr, relative, table[fields[i] - 1], v);
  }
}
