/**
 Single-stepping: `find_next_address` of common/bedbug.c against the branch rules of section 2.4
 (Branch Facility) of Book I of the Power ISA.
 */
module BedbugStep {
  import opened Arith
  import opened Basics
  import opened Bedbug

  /** The registers a branch looks at; the condition register as its bits, least significant first. */
  datatype Regs = Regs(nip: nat, ctr: nat, cr: Bits, link: nat)

  ghost predicate ValidRegs(r: Regs) {
    r.nip < WORD_LIMIT && r.ctr < WORD_LIMIT && |r.cr| == 32 && r.link < WORD_LIMIT
  }

  datatype Form = BForm | IForm | ToCtr | ToLr | NoBranch

  /** The cases of the switch on the opcode word. */
  function FormOf(word: Bits): Form {
    var v := Val(word);
    if 0x4000_0000 <= v <= 0x4000_0003 then BForm        // bc, bcl, bca, bcla
    else if 0x4800_0000 <= v <= 0x4800_0003 then IForm   // b, bl, ba, bla
    else if v == 0x4C00_0420 || v == 0x4C00_0421 then ToCtr
    else if v == 0x4C00_0020 || v == 0x4C00_0021 then ToLr
    else NoBranch
  }

  /** `get_operand_value`: the first field of that name. */
  function OperandValue(fields: seq<Operand>, w: Bits, name: Name): Option<Bits>
    requires |w| == 32 && forall i :: 0 <= i < |fields| ==> fields[i].shift + fields[i].bits <= 32
  {
    if fields == [] then None
    else if fields[0].name == name then Some(Get(fields[0], w))
    else OperandValue(fields[1..], w, name)
  }

  /** What the switch extracts: whether the branch is conditional, where it goes, and its flags. */
  datatype Branch = Branch(conditional: bool, addr: int, absolute: bool, link: bool, bo: Bits, bi: Bits)

  function IsSet(b: Bits): bool { Val(b) != 0 }

  /** The operands of an instruction with the given opcode, or None when the table row lacks one. */
  function Extract(op: Opcode, w: Bits, r: Regs): Option<Branch>
    requires WellFormed(op) && |w| == 32
  {
    var aa, lk := OperandValue(op.fields, w, AA), OperandValue(op.fields, w, LK);
    var bo, bi := OperandValue(op.fields, w, BO), OperandValue(op.fields, w, BI);
    match FormOf(op.word)
    case BForm =>
      var bd := OperandValue(op.fields, w, BD);
      if bd.None? || bo.None? || bi.None? || aa.None? || lk.None? then None
      else Some(Branch(true, 4 * Signed(bd.value), IsSet(aa.value), IsSet(lk.value), bo.value, bi.value))
    case IForm =>
      var li := OperandValue(op.fields, w, LI);
      if li.None? || aa.None? || lk.None? then None
      else Some(Branch(false, 4 * Signed(li.value), IsSet(aa.value), IsSet(lk.value), [], []))
    case ToCtr =>
      if bo.None? || bi.None? || lk.None? then None
      else Some(Branch(true, r.ctr, true, IsSet(lk.value), bo.value, bi.value))
    case ToLr =>
      if bo.None? || bi.None? || lk.None? then None
      else Some(Branch(true, r.link, true, IsSet(lk.value), bo.value, bi.value))
    case NoBranch => None
  }

  /** The condition register bit BI, counted from the most significant. */
  function CrBit(cr: Bits, bi: Bits): bool
    requires |cr| == 32 && |bi| == 5
  {
    assert Pow2(5) == 32;
    cr[31 - Val(bi)]
  }

  /** The switch on BO: whether a conditional branch is taken. */
  function Taken(bo: Bits, bi: Bits, ctr: nat, cr: Bits): bool
    requires |bo| == 5 && |bi| == 5 && |cr| == 32
  {
    var left := (ctr - 1) % WORD_LIMIT;
    var cond := CrBit(cr, bi);
    match Val(bo[1..])
    case 0 => left != 0 && !cond
    case 1 => left == 0 && !cond
    case 2 => !cond
    case 4 => left != 0 && cond
    case 5 => left == 0 && cond
    case 6 => cond
    case 8 => left != 0
    case 9 => left == 0
    case 10 => true
    case _ => false
  }

  /** `find_next_address`; `op` is the table row of the instruction at the program counter. */
  function FindNext(op: Opcode, w: Bits, r: Regs, stepOver: bool): Option<int>
    requires WellFormed(op) && |w| == 32 && ValidRegs(r) && SizesOk(op)
  {
    var pc := r.nip - r.nip % 4;
    if FormOf(op.word) == NoBranch then Some((pc + 4) % WORD_LIMIT)
    else
      var b := Extract(op, w, r);
      if b.None? then None
      else
        FieldSizes(op, w, r);
        Some(Successor(b.value, pc, r.ctr, r.cr, stepOver))
  }

  lemma FindNextOf(op: Opcode, w: Bits, r: Regs, b: Branch, stepOver: bool)
    requires WellFormed(op) && |w| == 32 && ValidRegs(r) && SizesOk(op) && FormOf(op.word) != NoBranch
    requires b.conditional ==> |b.bo| == 5 && |b.bi| == 5
    ensures Extract(op, w, r) == Some(b) ==>
              FindNext(op, w, r, stepOver) == Some(Successor(b, r.nip - r.nip % 4, r.ctr, r.cr, stepOver))
  {
  }

  function Successor(b: Branch, pc: nat, ctr: nat, cr: Bits, stepOver: bool): int
    requires |cr| == 32 && (b.conditional ==> |b.bo| == 5 && |b.bi| == 5)
  {
    if !b.conditional || Taken(b.bo, b.bi, ctr, cr) then
      if stepOver && b.link then (pc + 4) % WORD_LIMIT
      else if b.absolute then b.addr % WORD_LIMIT
      else (b.addr + pc) % WORD_LIMIT
    else (pc + 4) % WORD_LIMIT
  }

  /** BO and BI are five-bit fields wherever they occur. */
  ghost predicate SizesOk(op: Opcode) {
    forall i :: 0 <= i < |op.fields| && (op.fields[i].name == BO || op.fields[i].name == BI) ==> op.fields[i].bits == 5
  }

  lemma {:induction false} OperandSize(fields: seq<Operand>, w: Bits, name: Name)
    requires |w| == 32 && forall i :: 0 <= i < |fields| ==> fields[i].shift + fields[i].bits <= 32
    requires forall i :: 0 <= i < |fields| && fields[i].name == name ==> fields[i].bits == 5
    ensures OperandValue(fields, w, name).Some? ==> |OperandValue(fields, w, name).value| == 5
  {
    if fields != [] && fields[0].name != name {
      OperandSize(fields[1..], w, name);
    }
  }

  lemma FieldSizes(op: Opcode, w: Bits, r: Regs)
    requires WellFormed(op) && |w| == 32 && SizesOk(op)
    ensures Extract(op, w, r).Some? && Extract(op, w, r).value.conditional ==>
              |Extract(op, w, r).value.bo| == 5 && |Extract(op, w, r).value.bi| == 5
  {
    OperandSize(op.fields, w, BO);
    OperandSize(op.fields, w, BI);
  }

  // ----- the architecture's rule

  /** A number shifted right k times is odd. */
  ghost predicate OddAfter(v: nat, k: nat) {
    if k == 0 then v % 2 == 1 else OddAfter(v / 2, k - 1)
  }

  /** The condition that BI names: CR holds 32 bits, of which bit 0 has the weight 2^31. */
  ghost predicate IsaCondition(cr: Bits, bi: Bits)
    requires |cr| == 32 && |bi| == 5
  {
    assert Pow2(5) == 32;
    OddAfter(Val(cr), 31 - Val(bi))
  }

  /** BO_0 .. BO_4 of the architecture are bo[4] .. bo[0] here. */
  ghost predicate IsaTaken(bo: Bits, bi: Bits, ctr: nat, cr: Bits)
    requires |bo| == 5 && |bi| == 5 && |cr| == 32
  {
    var ctrOk := bo[2] || ((ctr - 1) % WORD_LIMIT != 0) != bo[1];
    var condOk := bo[4] || IsaCondition(cr, bi) == bo[3];
    ctrOk && condOk
  }

  /** The reserved z bits of 001zy, 011zy, 1z00y, 1z01y and 1z1zz, other than the last, are zero. */
  ghost predicate ZeroZ(bo: Bits)
    requires |bo| == 5
  {
    (bo[4] ==> !bo[3]) && (bo[2] ==> !bo[1])
  }

  lemma ValOfBo(bo: Bits)
    requires |bo| == 5
    ensures Val(bo[1..]) == (if bo[1] then 1 else 0) + (if bo[2] then 2 else 0) + (if bo[3] then 4 else 0) + if bo[4] then 8 else 0
  {
    var b1, b2, b3, b4 := bo[1..], bo[2..], bo[3..], bo[4..];
    assert b1[1..] == b2 && b2[1..] == b3 && b3[1..] == b4 && b4[1..] == [];
    assert Val(b4) == if bo[4] then 1 else 0;
    assert Val(b3) == (if bo[3] then 1 else 0) + 2 * Val(b4);
    assert Val(b2) == (if bo[2] then 1 else 0) + 2 * Val(b3);
  }

  lemma {:induction false} ValSplit(b: Bits, k: nat)
    requires k <= |b|
    ensures Val(b) == Val(b[k..]) * Pow2(k) + Val(b[..k])
  {
    if k == 0 {
      assert b[0..] == b;
    } else {
      ValSplit(b[1..], k - 1);
      assert b[1..][k - 1..] == b[k..] && b[1..][..k - 1] == b[..k][1..];
      Doubled(Val(b[1..]), Val(b[k..]), Pow2(k - 1), Val(b[..k][1..]));
    }
  }

  lemma Doubled(w: int, high: int, p: int, low: int)
    requires w == high * p + low
    ensures 2 * w == high * (2 * p) + 2 * low
  {
    Associate(high, 2, p);
    Associate(2, high, p);
  }

  /** The bit of weight 2^k. */
  lemma {:induction false} BitOfWeight(b: Bits, k: nat)
    requires k < |b|
    ensures OddAfter(Val(b), k) <==> b[k]
  {
    OddIs(b);
    if k > 0 {
      BitOfWeight(b[1..], k - 1);
    }
  }

  lemma OddIsWeight(b: Bits, k: nat)
    requires k < |b|
    ensures OddAfter(Val(b), k) <==> Val(b) / Pow2(k) % 2 == 1
  {
    BitOfWeight(b, k);
    ValSplit(b, k);
    Quotient(Val(b), Val(b[k..]), Pow2(k), Val(b[..k]));
    OddIs(b[k..]);
  }

  lemma OddIs(b: Bits)
    requires b != []
    ensures Val(b) % 2 == 1 <==> b[0]
    ensures Val(b) / 2 == Val(b[1..])
  {
  }

  lemma CrBitIsIsa(cr: Bits, bi: Bits)
    requires |cr| == 32 && |bi| == 5
    ensures CrBit(cr, bi) == IsaCondition(cr, bi)
  {
    assert Pow2(5) == 32;
    BitOfWeight(cr, 31 - Val(bi));
  }

  /** The stepper decides as the architecture does unless a z bit is set in a branch that is taken. */
  lemma DecisionIsIsa(bo: Bits, bi: Bits, ctr: nat, cr: Bits)
    requires |bo| == 5 && |bi| == 5 && |cr| == 32
    ensures Taken(bo, bi, ctr, cr) == IsaTaken(bo, bi, ctr, cr) <==> ZeroZ(bo) || !IsaTaken(bo, bi, ctr, cr)
  {
    ValOfBo(bo);
    CrBitIsIsa(cr, bi);
  }

  ghost predicate Goes(b: Branch, ctr: nat, cr: Bits)
    requires |cr| == 32 && (b.conditional ==> |b.bo| == 5 && |b.bi| == 5)
  {
    !b.conditional || IsaTaken(b.bo, b.bi, ctr, cr)
  }

  /** The next instruction address: the target with its two low bits cleared, or the next word. */
  ghost function IsaNext(b: Branch, pc: nat, ctr: nat, cr: Bits): int
    requires |cr| == 32 && (b.conditional ==> |b.bo| == 5 && |b.bi| == 5)
  {
    var target := if b.absolute then b.addr else b.addr + pc;
    if Goes(b, ctr, cr) then (target - target % 4) % WORD_LIMIT else (pc + 4) % WORD_LIMIT
  }

  /** When "step" goes where the processor goes: a taken branch with a z bit set has to lead to the next word anyway, and
      one without to a word-aligned address. */
  lemma SuccessorIsIsa(b: Branch, pc: nat, ctr: nat, cr: Bits)
    requires |cr| == 32 && (b.conditional ==> |b.bo| == 5 && |b.bi| == 5)
    requires pc % 4 == 0 && (!b.absolute ==> b.addr % 4 == 0)
    ensures Successor(b, pc, ctr, cr, false) == IsaNext(b, pc, ctr, cr) <==>
            !Goes(b, ctr, cr)
            || (if b.conditional && !ZeroZ(b.bo) then IsaNext(b, pc, ctr, cr) == (pc + 4) % WORD_LIMIT
                else b.absolute ==> b.addr % 4 == 0)
  {
    if b.conditional {
      DecisionIsIsa(b.bo, b.bi, ctr, cr);
    }
    if b.absolute {
      LowBits(b.addr);
    } else {
      assert (b.addr + pc) % 4 == 0;
    }
  }

  lemma LowBits(x: int)
    ensures (x - x % 4) % WORD_LIMIT == x % WORD_LIMIT <==> x % 4 == 0
  {
    ModMod(x);
    ModMod(x - x % 4);
  }

  lemma ModMod(x: int)
    ensures x % WORD_LIMIT % 4 == x % 4
  {
    var q, y := x / WORD_LIMIT, x % WORD_LIMIT;
    var k, r := y / 4, y % 4;
    Remainder(0x4000_0000 * q + k, r);
    assert x == 4 * (0x4000_0000 * q + k) + r;
  }

  lemma Remainder(m: int, r: int)
    requires 0 <= r < 4
    ensures (4 * m + r) % 4 == r
  {
  }

  /** Field j is the one that `get_operand_value` finds under its name. */
  ghost predicate FirstNamed(fields: seq<Operand>, j: nat) {
    j < |fields| && forall i :: 0 <= i < j ==> fields[i].name != fields[j].name
  }

  lemma {:induction false} FirstIsFound(fields: seq<Operand>, w: Bits, j: nat)
    requires |w| == 32 && forall i :: 0 <= i < |fields| ==> fields[i].shift + fields[i].bits <= 32
    requires FirstNamed(fields, j)
    ensures OperandValue(fields, w, fields[j].name) == Some(Get(fields[j], w))
  {
    if j > 0 {
      FirstIsFound(fields[1..], w, j - 1);
    }
  }

  /** A branch row of the table: its address field is at index j and its AA operand, at index a, is silent and set
      exactly when the row is not marked relative. */
  ghost predicate BranchRow(op: Opcode, j: nat, a: nat) {
    && WellFormed(op) && SizesOk(op) && FirstNamed(op.fields, j) && FirstNamed(op.fields, a)
    && op.fields[j].hint == AddrHint && op.fields[a].hint == SilentHint && op.fields[a].name == AA
    && IsSet(Get(op.fields[a], op.word)) == !op.relative
    && op.fields[j].name == (if FormOf(op.word) == BForm then BD else LI)
    && (FormOf(op.word) == BForm || FormOf(op.word) == IForm)
  }

  /** What the stepper extracts from a branch agrees with what the disassembler prints for it. */
  lemma TargetIsPrinted(op: Opcode, j: nat, a: nat, w: Bits, r: Regs)
    requires BranchRow(op, j, a) && ValidRegs(r) && |w| == 32
    requires Get(op.fields[a], w) == Get(op.fields[a], op.word)
    requires Extract(op, w, r).Some?
    ensures var b := Extract(op, w, r).value;
            (if b.absolute then b.addr else b.addr + r.nip) % WORD_LIMIT == Printed(op, op.fields[j], w, r.nip)
  {
    FirstIsFound(op.fields, w, j);
    FirstIsFound(op.fields, w, a);
  }

  lemma FindNextBranch(op: Opcode, w: Bits, r: Regs, b: Branch, stepOver: bool)
    requires WellFormed(op) && |w| == 32 && ValidRegs(r) && SizesOk(op)
    requires FormOf(op.word) != NoBranch && Extract(op, w, r) == Some(b)
    ensures b.conditional ==> |b.bo| == 5 && |b.bi| == 5
    ensures FindNext(op, w, r, stepOver) == Some(Successor(b, r.nip - r.nip % 4, r.ctr, r.cr, stepOver))
  {
    FieldSizes(op, w, r);
    FindNextOf(op, w, r, b, stepOver);
  }

  /** The instruction at the program counter is a branch that is taken. */
  ghost predicate TakenBranch(op: Opcode, w: Bits, r: Regs)
    requires WellFormed(op) && |w| == 32 && ValidRegs(r)
  {
    var b := Extract(op, w, r);
    b.Some? && (b.value.conditional ==>
                  |b.value.bo| == 5 && |b.value.bi| == 5 && Taken(b.value.bo, b.value.bi, r.ctr, r.cr))
  }

  /** A taken branch steps to the address the disassembler prints for it. */
  lemma StepsToPrinted(op: Opcode, j: nat, a: nat, w: Bits, r: Regs)
    requires BranchRow(op, j, a) && ValidRegs(r) && r.nip % 4 == 0 && |w| == 32
    requires Get(op.fields[a], w) == Get(op.fields[a], op.word) && TakenBranch(op, w, r)
    ensures FindNext(op, w, r, false) == Some(Printed(op, op.fields[j], w, r.nip))
  {
    var b := Extract(op, w, r).value;
    FindNextBranch(op, w, r, b, false);
    TargetIsPrinted(op, j, a, w, r);
    TakenGoes(b, r);
  }

  lemma TakenGoes(b: Branch, r: Regs)
    requires ValidRegs(r) && r.nip % 4 == 0
    requires b.conditional ==> |b.bo| == 5 && |b.bi| == 5 && Taken(b.bo, b.bi, r.ctr, r.cr)
    ensures Successor(b, r.nip - r.nip % 4, r.ctr, r.cr, false)
         == (if b.absolute then b.addr else b.addr + r.nip) % WORD_LIMIT
  {
  }

  /** The branch assembled at A to a representable T steps to T whenever it is taken. */
  lemma AssembledBranchSteps(op: Opcode, j: nat, a: nat, values: seq<int>, r: Regs)
    requires BranchRow(op, j, a) && ValidRegs(r) && r.nip % 4 == 0
    requires ArgIndex(op.fields, |op.fields|) <= |values| && ArgIndex(op.fields, j) < |values|
    requires Representable(op, op.fields[j], r.nip, values[ArgIndex(op.fields, j)])
    requires TakenBranch(op, Assembled(op, r.nip, values, |op.fields|), r)
    ensures FindNext(op, Assembled(op, r.nip, values, |op.fields|), r, false) == Some(values[ArgIndex(op.fields, j)])
  {
    AssembledPrints(op, r.nip, values, j);
    SilentOperand(op, r.nip, values, a);
    StepsToPrinted(op, j, a, Assembled(op, r.nip, values, |op.fields|), r);
  }

  // ----- the branch rows of the table

  const OPERAND_AA := Operand(AA, 1, 1, SilentHint)
  const OPERAND_BD := Operand(BD, 14, 2, AddrHint)
  const OPERAND_BI := Operand(BI, 5, 16, PlainHint)
  const OPERAND_BO := Operand(BO, 5, 21, PlainHint)
  const OPERAND_LI := Operand(LI, 24, 2, AddrHint)
  const OPERAND_LK := Operand(LK, 1, 0, SilentHint)

  function Zeros(n: nat): (b: Bits)
    ensures |b| == n && forall k :: 0 <= k < n ==> !b[k]
  {
    seq(n, k => false)
  }

  /** bc, bcl, bca, bcla: primary opcode 16 */
  function RowBc(aa: bool, lk: bool): Opcode {
    Opcode(Zeros(32)[30 := true][1 := aa][0 := lk], [OPERAND_BO, OPERAND_BI, OPERAND_BD, OPERAND_AA, OPERAND_LK], !aa)
  }

  /** b, bl, ba, bla: primary opcode 18 */
  function RowB(aa: bool, lk: bool): Opcode {
    Opcode(Zeros(32)[30 := true][27 := true][1 := aa][0 := lk], [OPERAND_LI, OPERAND_AA, OPERAND_LK], !aa)
  }

  lemma {:induction false} ValZeros(b: Bits)
    requires forall k :: 0 <= k < |b| ==> !b[k]
    ensures Val(b) == 0
  {
    if b != [] {
      ValZeros(b[1..]);
    }
  }

  lemma {:induction false} ValSet(b: Bits, i: nat, v: bool)
    requires i < |b| && !b[i]
    ensures Val(b[i := v]) == Val(b) + if v then Pow2(i) else 0
  {
    if i > 0 {
      ValSet(b[1..], i - 1, v);
      assert b[i := v][1..] == b[1..][i - 1 := v];
    } else {
      assert b[i := v][1..] == b[1..];
    }
  }

  lemma PowersUsed()
    ensures Pow2(1) == 2 && Pow2(27) == 0x800_0000 && Pow2(30) == 0x4000_0000
  {
    assert Pow2(8) == 256 && Pow2(16) == 65536 && Pow2(24) == 16777216;
  }

  lemma AaOfRows(aa: bool, lk: bool)
    ensures IsSet(Get(OPERAND_AA, RowBc(aa, lk).word)) == aa && IsSet(Get(OPERAND_AA, RowB(aa, lk).word)) == aa
  {
    assert [aa][1..] == [];
    assert Get(OPERAND_AA, RowBc(aa, lk).word) == [aa];
    assert Get(OPERAND_AA, RowB(aa, lk).word) == [aa];
  }

  lemma RowBcForm(aa: bool, lk: bool)
    ensures FormOf(RowBc(aa, lk).word) == BForm
  {
    ValZeros(Zeros(32));
    ValSet(Zeros(32), 30, true);
    ValSet(Zeros(32)[30 := true], 1, aa);
    ValSet(Zeros(32)[30 := true][1 := aa], 0, lk);
    PowersUsed();
  }

  lemma RowBForm(aa: bool, lk: bool)
    ensures FormOf(RowB(aa, lk).word) == IForm
  {
    ValZeros(Zeros(32));
    ValSet(Zeros(32), 30, true);
    ValSet(Zeros(32)[30 := true], 27, true);
    ValSet(Zeros(32)[30 := true][27 := true], 1, aa);
    ValSet(Zeros(32)[30 := true][27 := true][1 := aa], 0, lk);
    PowersUsed();
  }

  lemma RowsWellFormed(aa: bool, lk: bool)
    ensures WellFormed(RowBc(aa, lk)) && WellFormed(RowB(aa, lk))
  {
  }

  /** The rows for bc and b with any AA and LK are branch rows, so the results above hold of them. */
  lemma RowBcIsBranch(aa: bool, lk: bool)
    ensures BranchRow(RowBc(aa, lk), 2, 3)
  {
    RowBcForm(aa, lk);
    RowsWellFormed(aa, lk);
    AaOfRows(aa, lk);
  }

  lemma RowBIsBranch(aa: bool, lk: bool)
    ensures BranchRow(RowB(aa, lk), 0, 1)
  {
    RowBForm(aa, lk);
    RowsWellFormed(aa, lk);
    AaOfRows(aa, lk);
  }
}
