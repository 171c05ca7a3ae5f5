/** find_next_address of common/bedbug.c: which branches are taken and where they lead. */
module BedbugStep {
  import opened DivMod
  import opened Bedbug

  // ---------------------------------------------------------------- stepping

  const AA := Operand(1, 1, true, Plain)
  const BD := Operand(14, 2, false, Addr)
  const BI := Operand(5, 16, false, Plain)
  const BO := Operand(5, 21, false, Plain)
  const LI := Operand(24, 2, false, Addr)
  const LK := Operand(1, 0, true, Plain)

  const OPCD := Operand(6, 26, true, Plain)
  const XO := Operand(10, 1, true, Plain)

  /** The opcodes that find_next_address tells apart. */
  datatype Branch = Bc | B | Bcctr | Bclr | Other

  /** The opcode a word belongs to, by its primary and extended opcode fields. */
  function BranchOf(w: Word): Branch {
    var opcd, xo := Field(w, OPCD), Field(w, XO);
    if opcd == 16 then Bc
    else if opcd == 18 then B
    else if opcd == 19 && xo == 528 then Bcctr
    else if opcd == 19 && xo == 16 then Bclr
    else Other
  }

  datatype Regs = Regs(nip: nat, ctr: nat, ccr: Word, link: nat)

  /** Bit i of a five-bit BO field, counted from the high end. */
  predicate BoBit(bo: nat, i: nat)
    requires i < 5
  {
    match i
    case 0 => bo / 16 % 2 == 1
    case 1 => bo / 8 % 2 == 1
    case 2 => bo / 4 % 2 == 1
    case 3 => bo / 2 % 2 == 1
    case 4 => bo % 2 == 1
  }

  /** When a conditional branch is taken, by the rules of section 2.4 of Power ISA Book I. */
  predicate IsaTaken(bo: nat, bi: nat, cr: Word, ctr: nat)
    requires bi < 32
  {
    var count := Unsigned(ctr - 1);
    (BoBit(bo, 2) || ((count != 0) != BoBit(bo, 3))) && (BoBit(bo, 0) || ((31 - bi) in cr) == BoBit(bo, 1))
  }

  /** The BO encodings that the switch of find_next_address lists: those with z bits zero. */
  predicate Listed(bo: nat) { bo / 2 in {0, 1, 2, 4, 5, 6, 8, 9, 10} }

  /** What a branch does: where it goes when taken, whether it is taken, whether it links. */
  function Target(kind: Branch, w: Word, pc: nat, r: Regs): nat {
    match kind
    case Bc => Decode(Field(w, BD), 14, if Field(w, AA) != 0 then 0 else pc)
    case B => Decode(Field(w, LI), 24, if Field(w, AA) != 0 then 0 else pc)
    case Bcctr => r.ctr
    case Bclr => r.link
    case Other => pc
  }

  lemma FieldBound(w: Word, o: Operand)
    ensures Field(w, o) < Pow2(o.bits)
  {
    ValueBound(Down(w, o.shift), o.bits);
  }

  lemma {:induction false} ValueBound(s: Word, n: nat)
    ensures ValueOf(s, n) < Pow2(n)
    decreases n
  {
    if n > 0 {
      ValueBound(Down(s, 1), n - 1);
    }
  }

  ghost predicate Jumps(kind: Branch, w: Word, r: Regs) {
    kind.B? || (!kind.Other? && Field(w, BI) < 32 && Listed(Field(w, BO)) && IsaTaken(Field(w, BO), Field(w, BI), r.ccr, r.ctr))
  }

  /** The switch over the BO field. */
  method Condition(bo: nat, bi: nat, cr: Word, ctr0: nat) returns (taken: bool)
    requires bo < 32 && bi < 32
    ensures taken <==> Listed(bo) && IsaTaken(bo, bi, cr, ctr0)
  {
    var ctrOk, condOk := false, false;
    var bit := (31 - bi) in cr;
    var ctr := Unsigned(ctr0 - 1);
    var c := bo / 2;
    if c == 0 {
      ctrOk, condOk := ctr != 0, !bit;
    } else if c == 1 {
      ctrOk, condOk := ctr == 0, !bit;
    } else if c == 2 {
      ctrOk, condOk := true, !bit;
    } else if c == 4 {
      ctrOk, condOk := ctr != 0, bit;
    } else if c == 5 {
      ctrOk, condOk := ctr == 0, bit;
    } else if c == 6 {
      ctrOk, condOk := true, bit;
    } else if c == 8 {
      if ctr != 0 { ctrOk, condOk := true, true; }
    } else if c == 9 {
      if ctr == 0 { ctrOk, condOk := true, true; }
    } else if c == 10 {
      ctrOk, condOk := true, true;
    }
    taken := ctrOk && condOk;
  }

  /** Reserved z bits set: for every such encoding some registers make the code and the
      architecture differ, and for no other encoding any do. */
  lemma {:induction false} ListedExact(bo: nat, bi: nat)
    requires bo < 32 && bi < 32
    ensures Listed(bo) <==> forall cr: Word, ctr: nat :: ctr < W ==> ((Listed(bo) && IsaTaken(bo, bi, cr, ctr)) <==> IsaTaken(bo, bi, cr, ctr))
  {
    if !Listed(bo) {
      var cr: Word := if bo / 2 == 7 then {31 - bi} else {};
      var ctr := if bo / 2 == 13 then 1 else 2;
      UnlistedTaken(bo, bi, cr, ctr);
    }
  }

  lemma UnlistedTaken(bo: nat, bi: nat, cr: Word, ctr: nat)
    requires bo < 32 && bi < 32 && !Listed(bo)
    requires cr == (if bo / 2 == 7 then {31 - bi} else {}) && ctr == (if bo / 2 == 13 then 1 else 2)
    ensures IsaTaken(bo, bi, cr, ctr)
  {
    assert bo / 16 == bo / 2 / 8 && bo / 8 == bo / 2 / 4 && bo / 4 == bo / 2 / 2;
    assert bo / 2 in {3, 7, 11, 12, 13, 14, 15};
  }

  /** Sign extension and scaling of an address field, in unsigned arithmetic, and the address
      it leads to: from zero when absolute, else from the branch. */
  method FieldTarget(f: nat, bits: nat, aa: nat, pc: nat) returns (step: nat)
    requires 0 < bits <= 24
    ensures step == Decode(f, bits, if aa != 0 then 0 else pc)
  {
    var x := if f >= Pow2(bits - 1) then f - Pow2(bits) else f;
    var addr := Unsigned(x * 4);
    if aa != 0 {
      step := addr;
    } else {
      AddMod(x * 4, pc);
      step := Unsigned(addr + pc);
    }
  }

  lemma AddMod(x: int, y: int)
    ensures (x % 0x1_0000_0000 + y) % 0x1_0000_0000 == (x + y) % 0x1_0000_0000
  {}

  /** Where a branch leads when it jumps. */
  method BranchStep(kind: Branch, w: Word, pc: nat, r: Regs) returns (step: nat)
    requires !kind.Other?
    ensures step == Target(kind, w, pc, r)
  {
    match kind {
      case Bc => step := FieldTarget(Field(w, BD), 14, Field(w, AA), pc);
      case B => step := FieldTarget(Field(w, LI), 24, Field(w, AA), pc);
      case Bcctr => step := r.ctr;
      case Bclr => step := r.link;
    }
  }

  /** Whether the instruction changes the flow. */
  method Decide(kind: Branch, w: Word, r: Regs) returns (jump: bool)
    ensures jump <==> Jumps(kind, w, r)
  {
    if kind.B? || kind.Other? {
      return kind.B?;
    }
    FiveBits(w);
    jump := Condition(Field(w, BO), Field(w, BI), r.ccr, r.ctr);
  }

  /** Where the flow goes after the word at pc, for both ways of stepping. A branch that
      jumps leads to its target, except that a linking branch is stepped over; all else
      leads to the next word. */
  function NextOf(kind: Branch, w: Word, pc: nat, r: Regs, jump: bool, stepOver: bool): nat {
    if jump && !(stepOver && Field(w, LK) != 0) then Target(kind, w, pc, r) else Unsigned(pc + 4)
  }

  method Choose(kind: Branch, w: Word, pc: nat, r: Regs, jump: bool, stepOver: bool) returns (address: nat)
    requires jump ==> !kind.Other?
    ensures address == NextOf(kind, w, pc, r, jump, stepOver)
  {
    var next, step := Unsigned(pc + 4), Unsigned(pc + 4);
    if jump {
      step := BranchStep(kind, w, pc, r);
      next := if Field(w, LK) != 0 then Unsigned(pc + 4) else step;
    }
    address := if stepOver then next else step;
  }

  /** find_next_address. */
  method FindNextAddress(w: Word, r: Regs, stepOver: bool) returns (address: nat)
    ensures var jump := Jumps(BranchOf(w), w, r);
      address == NextOf(BranchOf(w), w, r.nip / 4 * 4, r, jump, stepOver)
  {
    var kind := BranchOf(w);
    var jump := Decide(kind, w, r);
    address := Choose(kind, w, r.nip / 4 * 4, r, jump, stepOver);
  }

  lemma FiveBits(w: Word)
    ensures Field(w, BO) < 32 && Field(w, BI) < 32
  {
    FieldBound(w, BO);
    FieldBound(w, BI);
    assert Pow2(5) == 32;
  }

  // ---------------------------------------------------------------- assembled branches

  const OPERANDS := [AA, BD, BI, BO, LI, LK]

  /** I_OPCODE(18, aa, lk) with the fields LI, AA, LK. */
  function BranchOpcode(aa: bool, lk: bool): Opcode {
    Opcode({27, 30} + (if aa then {1} else {}) + (if lk then {0} else {}), [5, 1, 6], !aa)
  }

  lemma {:induction false} SilentTail(pc: nat, relative: bool, w: Word)
    ensures Assemble(OPERANDS, pc, relative, w, [1, 6], []) == Ok(w)
  {
    assert [1, 6][1..] == [6] && [6][1..] == [];
    assert Assemble(OPERANDS, pc, relative, w, [6], []) == Ok(w);
  }

  lemma {:induction false} BranchWord(pc: nat, aa: bool, lk: bool, target: nat)
    ensures var op := BranchOpcode(aa, lk);
      var v := Encode(pc, !aa, LI, Num(target)).value;
      Assemble(OPERANDS, pc, op.relative, op.opcode, op.fields, [Num(target)]) == Ok(Insert(op.opcode, LI, v))
  {
    FirstField(pc, !aa, BranchOpcode(aa, lk).opcode, Num(target));
  }

  lemma {:induction false} FirstField(pc: nat, relative: bool, w: Word, a: Arg)
    ensures Assemble(OPERANDS, pc, relative, w, [5, 1, 6], [a]) == Ok(Insert(w, LI, Encode(pc, relative, LI, a).value))
  {
    SilentTail(pc, relative, Insert(w, LI, Encode(pc, relative, LI, a).value));
    assert [a][1..] == [] && [5, 1, 6][1..] == [1, 6];
    assert OPERANDS[4] == LI;
  }

  lemma FlagField(w: Word, o: Operand)
    requires o.bits == 1
    ensures Field(w, o) != 0 <==> o.shift in w
  {
    DownAt(w, o.shift, 0);
    assert ValueOf(Down(Down(w, o.shift), 1), 0) == 0;
  }

  /** The fields of a word that the opcode of a branch leaves clear between bits 2 and 25. */
  lemma {:induction false} WordFields(c: Word, v: nat)
    requires v < Pow2(24) && forall k :: k in c ==> k < 2 || k > 25
    ensures Field(Insert(c, LI, v), LI) == v
    ensures Field(Insert(c, LI, v), AA) != 0 <==> 1 in c
    ensures Field(Insert(c, LI, v), LK) != 0 <==> 0 in c
    ensures Field(Insert(c, LI, v), OPCD) == Field(c, OPCD)
  {
    FieldInsert(c, LI, v);
    FieldFrame(c, LI, v, AA);
    FieldFrame(c, LI, v, LK);
    FieldFrame(c, LI, v, OPCD);
    FlagField(c, AA);
    FlagField(c, LK);
  }

  lemma Eighteen()
    ensures ValueOf({1, 4}, 6) == 18
  {
    assert Down({0}, 1) == {} && Down({1}, 1) == {0} && Down({2}, 1) == {1} && Down({0, 3}, 1) == {2} && Down({1, 4}, 1) == {0, 3};
    assert ValueOf({0}, 2) == 1 + 2 * ValueOf({}, 1);
    assert ValueOf({2}, 4) == 2 * ValueOf({1}, 3);
    assert ValueOf({0, 3}, 5) == 9;
  }

  /** The opcode of an unconditional branch, and the bits of its two flags. */
  lemma {:induction false} BranchBits(aa: bool, lk: bool)
    ensures var c := BranchOpcode(aa, lk).opcode;
      && Field(c, OPCD) == 18 && (1 in c <==> aa) && (0 in c <==> lk)
      && forall k :: k in c ==> k < 2 || k > 25
  {
    var c := BranchOpcode(aa, lk).opcode;
    Eighteen();
    forall k: nat ensures k in Down(c, 26) <==> k in {1, 4} {
      DownAt(c, 26, k);
    }
    assert Down(c, 26) == {1, 4};
  }

  /** A word with these fields is a branch that jumps to what its address field stands for. */
  ghost predicate BranchTo(w: Word, aa: bool, lk: bool, v: nat) {
    BranchOf(w) == B && Field(w, LI) == v && (Field(w, AA) != 0 <==> aa) && (Field(w, LK) != 0 <==> lk)
  }

  lemma {:induction false} BranchFields(aa: bool, lk: bool, v: nat)
    requires v < Pow2(24)
    ensures BranchTo(Insert(BranchOpcode(aa, lk).opcode, LI, v), aa, lk, v)
  {
    BranchBits(aa, lk);
    WordFields(BranchOpcode(aa, lk).opcode, v);
  }

  /** The word assembled for an unconditional branch. */
  lemma {:induction false} AssembledWord(pc: nat, aa: bool, lk: bool, target: nat) returns (w: Word)
    ensures var op := BranchOpcode(aa, lk);
      Assemble(OPERANDS, pc, op.relative, op.opcode, op.fields, [Num(target)]) == Ok(w)
    ensures BranchTo(w, aa, lk, Encode(pc, !aa, LI, Num(target)).value)
  {
    var v := Encode(pc, !aa, LI, Num(target)).value;
    w := Insert(BranchOpcode(aa, lk).opcode, LI, v);
    BranchWord(pc, aa, lk, target);
    EncodeBound(pc, !aa, LI, Num(target));
    BranchFields(aa, lk, v);
  }

  /** The target of such a word is the address that was written if and only if the field can
      hold it. */
  lemma {:induction false} BranchTarget(w: Word, pc: nat, aa: bool, lk: bool, target: nat, r: Regs)
    requires target < W && pc < W && BranchTo(w, aa, lk, Encode(pc, !aa, LI, Num(target)).value)
    ensures Jumps(BranchOf(w), w, r)
    ensures Target(BranchOf(w), w, pc, r) == target <==> Reachable(target, if aa then 0 else pc, 24)
  {
    AddressRoundTrip(target, pc, !aa, LI);
  }

  /** Stepping at an assembled unconditional branch leads to the address that was written if
      and only if the field can hold it; whether the branch links is as written. */
  lemma {:induction false} AssembledBranch(pc: nat, aa: bool, lk: bool, target: nat, r: Regs) returns (w: Word)
    requires target < W && pc < W
    ensures var op := BranchOpcode(aa, lk);
      Assemble(OPERANDS, pc, op.relative, op.opcode, op.fields, [Num(target)]) == Ok(w)
    ensures Jumps(BranchOf(w), w, r) && (Field(w, LK) != 0 <==> lk)
    ensures Target(BranchOf(w), w, pc, r) == target <==> Reachable(target, if aa then 0 else pc, 24)
  {
    w := AssembledWord(pc, aa, lk, target);
    BranchTarget(w, pc, aa, lk, target, r);
  }

  /** asmppc followed by find_next_address at the same address. */
  method AssembleAndStep(pc: nat, aa: bool, lk: bool, target: nat, r: Regs, stepOver: bool) returns (address: nat)
    requires target < W && pc < W && pc % 4 == 0 && r.nip == pc
    ensures stepOver && lk ==> address == Unsigned(pc + 4)
    ensures !(stepOver && lk) ==> (address == target <==> Reachable(target, if aa then 0 else pc, 24))
  {
    var w := AssembleBranch(pc, aa, lk, target);
    BranchTarget(w, pc, aa, lk, target, r);
    address := FindNextAddress(w, r, stepOver);
  }

  method AssembleBranch(pc: nat, aa: bool, lk: bool, target: nat) returns (w: Word)
    ensures BranchTo(w, aa, lk, Encode(pc, !aa, LI, Num(target)).value)
  {
    var op := BranchOpcode(aa, lk);
    BranchKnown(aa, lk);
    ghost var word := AssembledWord(pc, aa, lk, target);
    w := AssembleTo(OPERANDS, pc, op, [Num(target)], word);
  }

  lemma BranchKnown(aa: bool, lk: bool)
    ensures KnownFields(OPERANDS, BranchOpcode(aa, lk).fields)
  {}

  /** asmppc on operands that are known to assemble. */
  method AssembleTo(table: seq<Operand>, pc: nat, op: Opcode, args: seq<Arg>, ghost word: Word) returns (w: Word)
    requires KnownFields(table, op.fields) && Assemble(table, pc, op.relative, op.opcode, op.fields, args) == Ok(word)
    ensures w == word
  {
    var r := Asmppc(table, pc, op, args);
    w := r.value;
  }

  // ---------------------------------------------------------------- words by their bits

  /** The n bits of the word from bit `shift` on are those of v. */
  ghost predicate BitsAt(w: Word, shift: nat, n: nat, v: nat) {
    v < Pow2(n) && forall k: nat :: k < n ==> (k + shift in w <==> k in BitsOf(v, n))
  }

  lemma {:induction false} FieldAt(w: Word, o: Operand, v: nat)
    requires BitsAt(w, o.shift, o.bits, v)
    ensures Field(w, o) == v
  {
    forall k: nat | k < o.bits ensures k in Down(w, o.shift) <==> k in BitsOf(v, o.bits) {
      DownAt(w, o.shift, k);
    }
    ValueAgree(Down(w, o.shift), BitsOf(v, o.bits), o.bits);
    ValueBits(v, o.bits);
    LowSmall(v, o.bits);
  }

  /** The fields of an instruction, at the places of the B, I and XL forms of Power ISA Book I:
      opcode, extended opcode, BO, BI, and the displacements of 14 and of 24 bits. */
  datatype Fields = Fields(opcd: nat, xo: nat, bo: nat, bi: nat, bd: nat, li: nat)

  ghost predicate HasFields(w: Word, f: Fields) {
    BitsAt(w, 26, 6, f.opcd) && BitsAt(w, 1, 10, f.xo) && BitsAt(w, 21, 5, f.bo) && BitsAt(w, 16, 5, f.bi) &&
    BitsAt(w, 2, 14, f.bd) && BitsAt(w, 2, 24, f.li)
  }

  lemma {:induction false} ReadFields(w: Word, f: Fields)
    requires HasFields(w, f)
    ensures Field(w, OPCD) == f.opcd && Field(w, XO) == f.xo && Field(w, BO) == f.bo && Field(w, BI) == f.bi
    ensures Field(w, BD) == f.bd && Field(w, LI) == f.li
    ensures f.bo < 32 && f.bi < 32
  {
    FieldAt(w, OPCD, f.opcd);
    FieldAt(w, XO, f.xo);
    FieldAt(w, BO, f.bo);
    FieldAt(w, BI, f.bi);
    FieldAt(w, BD, f.bd);
    FieldAt(w, LI, f.li);
    FiveBits(w);
  }

  /** The address a displacement of so many bits stands for. */
  function Displaced(base: nat, d: nat, half: nat): nat {
    (base + 4 * (if d >= half then d - 2 * half else d)) % 0x1_0000_0000
  }

  /** find_next_address on a word given by its fields: where a branch that is taken leads, for
      each of the four opcodes, and that everything else leads to the next word. */
  method StepAt(w: Word, r: Regs, stepOver: bool, ghost f: Fields) returns (address: nat)
    requires HasFields(w, f)
    ensures f.bo < 32 && f.bi < 32
    ensures var pc := r.nip / 4 * 4;
      var base := if 1 in w then 0 else pc;
      var taken := f.bo / 2 in {0, 1, 2, 4, 5, 6, 8, 9, 10} && IsaTaken(f.bo, f.bi, r.ccr, r.ctr);
      address ==
        if stepOver && 0 in w then (pc + 4) % 0x1_0000_0000
        else if f.opcd == 18 then Displaced(base, f.li, 0x80_0000)
        else if f.opcd == 16 && taken then Displaced(base, f.bd, 0x2000)
        else if f.opcd == 19 && f.xo == 528 && taken then r.ctr
        else if f.opcd == 19 && f.xo == 16 && taken then r.link
        else (pc + 4) % 0x1_0000_0000
  {
    KindAt(w, r.nip / 4 * 4, r, f);
    FlagField(w, LK);
    address := FindNextAddress(w, r, stepOver);
  }

  /** The branch a word is, whether it jumps, and where to. */
  lemma {:induction false} KindAt(w: Word, pc: nat, r: Regs, f: Fields)
    requires HasFields(w, f)
    ensures f.bo < 32 && f.bi < 32
    ensures var kind := BranchOf(w); var base := if 1 in w then 0 else pc;
      var taken := f.bo / 2 in {0, 1, 2, 4, 5, 6, 8, 9, 10} && IsaTaken(f.bo, f.bi, r.ccr, r.ctr);
      && (f.opcd == 18 ==> Jumps(kind, w, r) && Target(kind, w, pc, r) == Displaced(base, f.li, 0x80_0000))
      && (f.opcd == 16 ==> (Jumps(kind, w, r) <==> taken) && Target(kind, w, pc, r) == Displaced(base, f.bd, 0x2000))
      && (f.opcd == 19 && f.xo == 528 ==> (Jumps(kind, w, r) <==> taken) && Target(kind, w, pc, r) == r.ctr)
      && (f.opcd == 19 && f.xo == 16 ==> (Jumps(kind, w, r) <==> taken) && Target(kind, w, pc, r) == r.link)
      && (f.opcd !in {16, 18, 19} || (f.opcd == 19 && f.xo !in {16, 528}) ==> !Jumps(kind, w, r))
  {
    ReadFields(w, f);
    FlagField(w, AA);
    FieldTargets(w, pc, f);
  }

  /** The two kinds of displacement, from the branch or absolute. */
  lemma {:induction false} FieldTargets(w: Word, pc: nat, f: Fields)
    requires HasFields(w, f)
    ensures var base := if 1 in w then 0 else pc;
      Decode(Field(w, BD), 14, base) == Displaced(base, f.bd, 0x2000) && Decode(Field(w, LI), 24, base) == Displaced(base, f.li, 0x80_0000)
  {
    ReadFields(w, f);
    DisplacementBits();
  }

  lemma DisplacementBits()
    ensures Pow2(13) == 0x2000 && Pow2(14) == 0x4000 && Pow2(23) == 0x80_0000 && Pow2(24) == 0x100_0000
  {
    Pow2At();
    assert Pow2(4) == 16;
    assert Pow2(8) == 256;
    assert Pow2(12) == 0x1000;
  }

  /** Every word has such fields. */
  lemma {:induction false} EveryWord(w: Word) returns (f: Fields)
    ensures HasFields(w, f)
  {
    f := Fields(Field(w, OPCD), Field(w, XO), Field(w, BO), Field(w, BI), Field(w, BD), Field(w, LI));
    BitsBack(w, OPCD);
    BitsBack(w, XO);
    BitsBack(w, BO);
    BitsBack(w, BI);
    BitsBack(w, BD);
    BitsBack(w, LI);
  }

  lemma {:induction false} BitsBack(w: Word, o: Operand)
    ensures BitsAt(w, o.shift, o.bits, Field(w, o))
  {
    FieldBound(w, o);
    forall k: nat | k < o.bits ensures k + o.shift in w <==> k in BitsOf(Field(w, o), o.bits) {
      DownAt(w, o.shift, k);
      ValueBit(Down(w, o.shift), o.bits, k);
    }
  }

  lemma {:induction false} ValueBit(s: Word, n: nat, k: nat)
    requires k < n
    ensures k in BitsOf(ValueOf(s, n), n) <==> k in s
    decreases n
  {
    var v := ValueOf(s, n);
    assert v / 2 == ValueOf(Down(s, 1), n - 1);
    UpAt(BitsOf(v / 2, n - 1), 1, k);
    if k > 0 {
      ValueBit(Down(s, 1), n - 1, k - 1);
      DownAt(s, 1, k - 1);
    }
  }

  /** The word 0x4E800020, `blr`: stepping leads to the link register. */
  method StepAtBlr(r: Regs, stepOver: bool) returns (address: nat)
    ensures address == r.link
  {
    var w: Word := {30, 27, 26, 25, 23, 5};
    ghost var f := BlrFields(w);
    address := StepAt(w, r, stepOver, f);
  }

  lemma BlrFields(w: Word) returns (f: Fields)
    requires w == {30, 27, 26, 25, 23, 5}
    ensures HasFields(w, f) && f.opcd == 19 && f.xo == 16 && f.bo == 20 && f.bi == 0
  {
    f := EveryWord(w);
    ReadFields(w, f);
    BlrOpcode(w, 0, 1, 4);
    BlrExtended(w, 4);
    BlrOperands(w, 2, 4);
  }

  lemma {:induction false} BlrOpcode(w: Word, a: nat, b: nat, d: nat)
    requires w == {30, 27, 26, 25, 23, 5} && a == 0 && b == 1 && d == 4
    ensures Field(w, OPCD) == 19
  {
    ThreeBits(a, b, d, 6);
    assert Pow2(a) == 1 && Pow2(b) == 2 && Pow2(d) == 16;
    FieldOf(w, OPCD, {a, b, d}, 19);
  }

  lemma {:induction false} BlrExtended(w: Word, d: nat)
    requires w == {30, 27, 26, 25, 23, 5} && d == 4
    ensures Field(w, XO) == 16
  {
    TwoBits(d, d + 1, 10);
    assert Pow2(d) == 16;
    FieldOf(w, XO, {d}, 16);
  }

  lemma {:induction false} BlrOperands(w: Word, c: nat, d: nat)
    requires w == {30, 27, 26, 25, 23, 5} && c == 2 && d == 4
    ensures Field(w, BO) == 20 && Field(w, BI) == 0
  {
    TwoBits(c, d, 5);
    assert Pow2(c) == 4 && Pow2(d) == 16;
    FieldOf(w, BO, {c, d}, 20);
    FieldOf(w, BI, {}, 0);
  }

  /** One more bit in a field adds its power of two. */
  lemma {:induction false} AddBit(s: Word, t: Word, k: nat, n: nat)
    requires k < n && k !in s && forall j: nat :: j < n ==> (j in t <==> j in s || j == k)
    ensures ValueOf(t, n) == ValueOf(s, n) + Pow2(k)
    decreases n
  {
    forall j: nat | j < n - 1 ensures (j in Down(t, 1) <==> j + 1 in t) && (j in Down(s, 1) <==> j + 1 in s) {
      DownAt(t, 1, j);
      DownAt(s, 1, j);
    }
    if k == 0 {
      ValueAgree(Down(t, 1), Down(s, 1), n - 1);
    } else {
      DownAt(s, 1, k - 1);
      AddBit(Down(s, 1), Down(t, 1), k - 1, n - 1);
    }
  }

  lemma {:induction false} NoValue(s: Word, n: nat)
    requires forall j: nat :: j < n ==> j !in s
    ensures ValueOf(s, n) == 0
    decreases n
  {
    if n > 0 {
      forall j: nat | j < n - 1 ensures j !in Down(s, 1) {
        DownAt(s, 1, j);
      }
      NoValue(Down(s, 1), n - 1);
    }
  }

  /** A field with these bits has this value. */
  lemma {:induction false} FieldOf(w: Word, o: Operand, s: Word, v: nat)
    requires (forall k: nat :: InField(o, k) ==> (k in w <==> k - o.shift in s)) && ValueOf(s, o.bits) == v
    ensures Field(w, o) == v
  {
    forall j: nat | j < o.bits ensures j in Down(w, o.shift) <==> j in s {
      DownAt(w, o.shift, j);
      assert InField(o, j + o.shift);
    }
    ValueAgree(Down(w, o.shift), s, o.bits);
  }

  lemma {:induction false} TwoBits(a: nat, b: nat, n: nat)
    requires a < b < n
    ensures ValueOf({}, n) == 0 && ValueOf({a}, n) == Pow2(a) && ValueOf({a, b}, n) == Pow2(a) + Pow2(b)
  {
    NoValue({}, n);
    AddBit({}, {a}, a, n);
    AddBit({a}, {a, b}, b, n);
  }

  lemma {:induction false} ThreeBits(a: nat, b: nat, c: nat, n: nat)
    requires a < b < c < n
    ensures ValueOf({a, b, c}, n) == Pow2(a) + Pow2(b) + Pow2(c)
  {
    TwoBits(a, b, n);
    AddBit({a, b}, {a, b, c}, c, n);
  }
}
