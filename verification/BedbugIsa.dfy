/**
 `find_next_address` of common/bedbug.c on instruction words, against the branch instructions as section 2.4 (Branch
 Facility) of Book I of the Power ISA defines them by the bits of the word. Bit k of the word here is bit 31 - k there.
 */
module BedbugIsa {
  import opened Arith
  import opened Basics
  import opened Bedbug
  import opened BedbugStep

  // ----- the architecture

  datatype Kind = BranchI | BranchBc | BranchLr | BranchCtr | NotABranch

  /** Primary opcode in bits 0..5 of the word, extended opcode in bits 21..30. */
  function KindOf(w: Bits): Kind
    requires |w| == 32
  {
    var primary, extended := Val(w[26..]), Val(w[1..11]);
    if primary == 16 then BranchBc
    else if primary == 18 then BranchI
    else if primary == 19 && extended == 16 then BranchLr
    else if primary == 19 && extended == 528 then BranchCtr
    else NotABranch
  }

  function FieldBo(w: Bits): (bo: Bits)
    requires |w| == 32
    ensures |bo| == 5
  {
    w[21..26]
  }

  function FieldBi(w: Bits): (bi: Bits)
    requires |w| == 32
    ensures |bi| == 5
  {
    w[16..21]
  }

  /** The address of the instruction; its two low bits do not exist. */
  function Cia(r: Regs): nat { r.nip - r.nip % 4 }

  function Aligned(x: int): int { x - x % 4 }

  /** Whether the processor takes the branch; also for bcctr with the option to decrement CTR, an invalid form. */
  ghost predicate IsaGoes(w: Bits, r: Regs)
    requires |w| == 32 && |r.cr| == 32
  {
    KindOf(w) == BranchI || IsaTaken(FieldBo(w), FieldBi(w), r.ctr, r.cr)
  }

  /** The target before it is cut to a word address: a displacement, an address, or a register. */
  ghost function IsaTarget(w: Bits, r: Regs): int
    requires |w| == 32
  {
    match KindOf(w)
    case BranchI => 4 * Signed(w[2..26]) + if w[1] then 0 else Cia(r)
    case BranchBc => 4 * Signed(w[2..16]) + if w[1] then 0 else Cia(r)
    case BranchLr => r.link
    case BranchCtr => r.ctr
    case NotABranch => Cia(r) + 4
  }

  /** The next instruction address. */
  ghost function IsaNia(w: Bits, r: Regs): int
    requires |w| == 32 && |r.cr| == 32
  {
    if KindOf(w) != NotABranch && IsaGoes(w, r) then Aligned(IsaTarget(w, r)) % WORD_LIMIT else (Cia(r) + 4) % WORD_LIMIT
  }

  // ----- the table rows

  /** The opcode word of bclr: primary opcode 19, extended opcode 16. */
  function WordLr(): (w: Bits)
    ensures |w| == 32 && !w[0] && !w[10]
  {
    Zeros(32)[30 := true][27 := true][26 := true][5 := true]
  }

  /** bclr, bclrl */
  function RowLr(lk: bool): Opcode {
    Opcode(WordLr()[0 := lk], [OPERAND_BO, OPERAND_BI, OPERAND_LK], false)
  }

  /** bcctr, bcctrl: extended opcode 528 */
  function RowCtr(lk: bool): Opcode {
    Opcode(WordLr()[10 := true][0 := lk], [OPERAND_BO, OPERAND_BI, OPERAND_LK], false)
  }

  /** The row that matches a branch word: the same opcodes, AA and LK. */
  function RowOf(w: Bits): Opcode
    requires |w| == 32 && KindOf(w) != NotABranch
  {
    match KindOf(w)
    case BranchI => RowB(w[1], w[0])
    case BranchBc => RowBc(w[1], w[0])
    case BranchLr => RowLr(w[0])
    case BranchCtr => RowCtr(w[0])
  }

  lemma MorePowers()
    ensures Pow2(5) == 0x20 && Pow2(10) == 0x400 && Pow2(26) == 0x400_0000
  {
    assert Pow2(8) == 256 && Pow2(16) == 65536 && Pow2(24) == 16777216;
  }

  lemma WordLrIs()
    ensures Val(WordLr()) == 0x4C00_0020
  {
    SumOfPowers();
    PowersUsed();
    MorePowers();
  }

  lemma SumOfPowers()
    ensures Val(WordLr()) == Pow2(30) + Pow2(27) + Pow2(26) + Pow2(5)
  {
    var z := Zeros(32);
    var y := z[30 := true][27 := true];
    NoneSet(z);
    SetTwo(z, 30, 27);
    SetMore(y, WordLr(), 26, 5);
  }

  lemma NoneSet(z: Bits)
    requires z == Zeros(32)
    ensures Val(z) == 0
  {
    ValZeros(z);
  }

  lemma SetMore(y: Bits, w: Bits, i: nat, j: nat)
    requires i < |y| && j < |y| && i != j && !y[i] && !y[j] && w == y[i := true][j := true]
    ensures Val(w) == Val(y) + Pow2(i) + Pow2(j)
  {
    SetTwo(y, i, j);
  }

  lemma SetTwo(z: Bits, i: nat, j: nat)
    requires i < |z| && j < |z| && i != j && !z[i] && !z[j]
    ensures Val(z[i := true][j := true]) == Val(z) + Pow2(i) + Pow2(j)
  {
    ValSet(z, i, true);
    ValSet(z[i := true], j, true);
  }

  lemma LinkedForm(word: Bits, lk: bool)
    requires |word| == 32 && !word[0]
    ensures Val(word) == 0x4C00_0020 ==> FormOf(word[0 := lk]) == ToLr
    ensures Val(word) == 0x4C00_0420 ==> FormOf(word[0 := lk]) == ToCtr
  {
    ValSet(word, 0, lk);
  }

  lemma ExtendedWord(word: Bits)
    requires |word| == 32 && !word[10] && Val(word) == 0x4C00_0020
    ensures Val(word[10 := true]) == 0x4C00_0420
  {
    ValSet(word, 10, true);
    MorePowers();
  }

  lemma RowLrForm(lk: bool)
    ensures FormOf(RowLr(lk).word) == ToLr
  {
    var word := WordLr();
    WordLrIs();
    LinkedForm(word, lk);
  }

  lemma RowCtrForm(lk: bool)
    ensures FormOf(RowCtr(lk).word) == ToCtr
  {
    WordLrIs();
    ExtendedWord(WordLr());
    LinkedForm(WordLr()[10 := true], lk);
  }

  lemma XlRowsWellFormed(lk: bool)
    ensures WellFormed(RowLr(lk)) && WellFormed(RowCtr(lk))
  {
  }

  lemma XlSizes(lk: bool)
    ensures SizesOk(RowLr(lk)) && SizesOk(RowCtr(lk))
  {
  }

  lemma RowIsWellFormed(w: Bits)
    requires |w| == 32 && KindOf(w) != NotABranch
    ensures WellFormed(RowOf(w)) && SizesOk(RowOf(w))
  {
    XlRowsWellFormed(w[0]);
    XlSizes(w[0]);
    RowsWellFormed(w[1], w[0]);
  }

  lemma RowIsBranch(w: Bits)
    requires |w| == 32 && KindOf(w) != NotABranch
    ensures FormOf(RowOf(w).word) != NoBranch
  {
    RowBForm(w[1], w[0]);
    RowBcForm(w[1], w[0]);
    RowLrForm(w[0]);
    RowCtrForm(w[0]);
  }

  // ----- decoding

  lemma OneBit(b: bool)
    ensures IsSet([b]) == b
  {
    assert [b][1..] == [];
  }

  lemma FlagAt(w: Bits, k: nat)
    requires k < |w|
    ensures IsSet(w[k..k + 1]) == w[k]
  {
    assert w[k..k + 1] == [w[k]];
    OneBit(w[k]);
  }

  /** The branch the architecture reads from the bits of the word. */
  ghost function Decoded(w: Bits, r: Regs): Branch
    requires |w| == 32 && KindOf(w) != NotABranch
  {
    match KindOf(w)
    case BranchI => Branch(false, 4 * Signed(w[2..26]), w[1], w[0], [], [])
    case BranchBc => Branch(true, 4 * Signed(w[2..16]), w[1], w[0], FieldBo(w), FieldBi(w))
    case BranchLr => Branch(true, r.link, true, w[0], FieldBo(w), FieldBi(w))
    case BranchCtr => Branch(true, r.ctr, true, w[0], FieldBo(w), FieldBi(w))
  }

  lemma ExtractI(w: Bits, r: Regs)
    requires |w| == 32 && KindOf(w) == BranchI
    ensures WellFormed(RowOf(w)) && Extract(RowOf(w), w, r) == Some(Decoded(w, r))
  {
    RowsWellFormed(w[1], w[0]);
    RowBForm(w[1], w[0]);
    FieldsI(w);
    FlagAt(w, 1);
    FlagAt(w, 0);
  }

  lemma FieldsI(w: Bits)
    requires |w| == 32
    ensures var fields := [OPERAND_LI, OPERAND_AA, OPERAND_LK];
            && OperandValue(fields, w, LI) == Some(w[2..26])
            && OperandValue(fields, w, AA) == Some(w[1..2]) && OperandValue(fields, w, LK) == Some(w[0..1])
  {
    var fields := [OPERAND_LI, OPERAND_AA, OPERAND_LK];
    FirstIsFound(fields, w, 0);
    FirstIsFound(fields, w, 1);
    FirstIsFound(fields, w, 2);
  }

  lemma ExtractBc(w: Bits, r: Regs)
    requires |w| == 32 && KindOf(w) == BranchBc
    ensures WellFormed(RowOf(w)) && Extract(RowOf(w), w, r) == Some(Decoded(w, r))
  {
    RowsWellFormed(w[1], w[0]);
    RowBcForm(w[1], w[0]);
    FieldsBc(w);
    FlagAt(w, 1);
    FlagAt(w, 0);
  }

  lemma FieldsBc(w: Bits)
    requires |w| == 32
    ensures var fields := [OPERAND_BO, OPERAND_BI, OPERAND_BD, OPERAND_AA, OPERAND_LK];
            && OperandValue(fields, w, BO) == Some(w[21..26]) && OperandValue(fields, w, BI) == Some(w[16..21])
            && OperandValue(fields, w, BD) == Some(w[2..16])
            && OperandValue(fields, w, AA) == Some(w[1..2]) && OperandValue(fields, w, LK) == Some(w[0..1])
  {
    var fields := [OPERAND_BO, OPERAND_BI, OPERAND_BD, OPERAND_AA, OPERAND_LK];
    FirstIsFound(fields, w, 0);
    FirstIsFound(fields, w, 1);
    FirstIsFound(fields, w, 2);
    FirstIsFound(fields, w, 3);
    FirstIsFound(fields, w, 4);
  }

  lemma FieldsXl(w: Bits)
    requires |w| == 32
    ensures var fields := [OPERAND_BO, OPERAND_BI, OPERAND_LK];
            && OperandValue(fields, w, BO) == Some(w[21..26]) && OperandValue(fields, w, BI) == Some(w[16..21])
            && OperandValue(fields, w, LK) == Some(w[0..1])
  {
    var fields := [OPERAND_BO, OPERAND_BI, OPERAND_LK];
    FirstIsFound(fields, w, 0);
    FirstIsFound(fields, w, 1);
    FirstIsFound(fields, w, 2);
  }

  lemma ExtractLr(w: Bits, r: Regs)
    requires |w| == 32 && KindOf(w) == BranchLr
    ensures WellFormed(RowOf(w)) && Extract(RowOf(w), w, r) == Some(Decoded(w, r))
  {
    XlRowsWellFormed(w[0]);
    RowLrForm(w[0]);
    FieldsXl(w);
    FlagAt(w, 0);
  }

  lemma ExtractCtr(w: Bits, r: Regs)
    requires |w| == 32 && KindOf(w) == BranchCtr
    ensures WellFormed(RowOf(w)) && Extract(RowOf(w), w, r) == Some(Decoded(w, r))
  {
    XlRowsWellFormed(w[0]);
    RowCtrForm(w[0]);
    FieldsXl(w);
    FlagAt(w, 0);
  }

  /** The stepper extracts from every branch what the architecture reads from its bits. */
  lemma ExtractIsDecoded(w: Bits, r: Regs)
    requires |w| == 32 && KindOf(w) != NotABranch
    ensures WellFormed(RowOf(w)) && Extract(RowOf(w), w, r) == Some(Decoded(w, r))
  {
    match KindOf(w)
    case BranchI => ExtractI(w, r);
    case BranchBc => ExtractBc(w, r);
    case BranchLr => ExtractLr(w, r);
    case BranchCtr => ExtractCtr(w, r);
  }

  /** A table row from which the stepper extracts what the architecture reads from the word. */
  ghost predicate Matches(op: Opcode, w: Bits, r: Regs)
    requires |w| == 32 && KindOf(w) != NotABranch
  {
    && WellFormed(op) && SizesOk(op) && FormOf(op.word) != NoBranch
    && Extract(op, w, r) == Some(Decoded(w, r))
  }

  /** The rows of the table for b, bc, bclr and bcctr are such rows. */
  lemma RowMatches(w: Bits, r: Regs)
    requires |w| == 32 && KindOf(w) != NotABranch
    ensures Matches(RowOf(w), w, r)
  {
    RowIsWellFormed(w);
    RowIsBranch(w);
    ExtractIsDecoded(w, r);
  }

  lemma FindNextIs(op: Opcode, w: Bits, r: Regs, b: Branch, stepOver: bool)
    requires |w| == 32 && ValidRegs(r) && WellFormed(op) && SizesOk(op) && FormOf(op.word) != NoBranch
    requires b.conditional ==> |b.bo| == 5 && |b.bi| == 5
    ensures Extract(op, w, r) == Some(b) ==>
              FindNext(op, w, r, stepOver) == Some(Successor(b, Cia(r), r.ctr, r.cr, stepOver))
  {
    FindNextOf(op, w, r, b, stepOver);
  }

  // ----- the comparison

  /** A z bit of BO is set although the architecture reserves it. */
  ghost predicate ReservedSet(w: Bits)
    requires |w| == 32
  {
    KindOf(w) != BranchI && !ZeroZ(FieldBo(w))
  }

  lemma DecodedNia(w: Bits, r: Regs)
    requires |w| == 32 && KindOf(w) != NotABranch && ValidRegs(r)
    ensures IsaNext(Decoded(w, r), Cia(r), r.ctr, r.cr) == IsaNia(w, r)
    ensures Goes(Decoded(w, r), r.ctr, r.cr) == IsaGoes(w, r)
  {
  }

  lemma TargetAligned(w: Bits, r: Regs)
    requires |w| == 32 && KindOf(w) != NotABranch
    ensures var b := Decoded(w, r);
            && (!b.absolute ==> b.addr % 4 == 0)
            && ((b.absolute ==> b.addr % 4 == 0) <==> IsaTarget(w, r) % 4 == 0)
  {
    var b := Decoded(w, r);
    if KindOf(w) == BranchI || KindOf(w) == BranchBc {
      var d := if KindOf(w) == BranchI then Signed(w[2..26]) else Signed(w[2..16]);
      Remainder(d, 0);
      Remainder(d + r.nip / 4, 0);
      assert Cia(r) == 4 * (r.nip / 4);
    }
  }

  /**
   For every b, bc, bclr and bcctr with any AA and LK and every state of the registers: the single-stepper finds the
   address the processor goes to if and only if the branch is not taken, or has no reserved bit of BO set and a
   word-aligned target, or has one set and leads to the next word anyway.
   */
  lemma StepIsIsa(op: Opcode, w: Bits, r: Regs)
    requires |w| == 32 && KindOf(w) != NotABranch && ValidRegs(r) && Matches(op, w, r)
    ensures FindNext(op, w, r, false) == Some(IsaNia(w, r)) <==>
            !IsaGoes(w, r)
            || if ReservedSet(w) then IsaNia(w, r) == (Cia(r) + 4) % WORD_LIMIT else IsaTarget(w, r) % 4 == 0
  {
    FindNextIs(op, w, r, Decoded(w, r), false);
    StepOfDecoded(w, r, Decoded(w, r), IsaNia(w, r), IsaGoes(w, r), ReservedSet(w), IsaTarget(w, r));
  }

  /** The same for the row that the table has for the word. */
  lemma TableStepIsIsa(w: Bits, r: Regs)
    requires |w| == 32 && KindOf(w) != NotABranch && ValidRegs(r)
    ensures Matches(RowOf(w), w, r)
    ensures FindNext(RowOf(w), w, r, false) == Some(IsaNia(w, r)) <==>
            !IsaGoes(w, r)
            || if ReservedSet(w) then IsaNia(w, r) == (Cia(r) + 4) % WORD_LIMIT else IsaTarget(w, r) % 4 == 0
  {
    RowMatches(w, r);
    StepIsIsa(RowOf(w), w, r);
  }

  lemma StepOfDecoded(w: Bits, r: Regs, b: Branch, nia: int, goes: bool, reserved: bool, target: int)
    requires |w| == 32 && KindOf(w) != NotABranch && ValidRegs(r) && b == Decoded(w, r)
    requires nia == IsaNia(w, r) && goes == IsaGoes(w, r) && reserved == ReservedSet(w) && target == IsaTarget(w, r)
    ensures b.conditional ==> |b.bo| == 5 && |b.bi| == 5
    ensures Successor(b, Cia(r), r.ctr, r.cr, false) == nia <==>
            !goes || if reserved then nia == (Cia(r) + 4) % WORD_LIMIT else target % 4 == 0
  {
    DecodedAgrees(w, r, b, nia, goes, reserved, target);
    Compare(b, Cia(r), r.ctr, r.cr, nia, goes, reserved, target);
  }

  /** The architecture's side of a branch in terms of the fields the stepper extracts. */
  ghost predicate Agrees(b: Branch, pc: nat, ctr: nat, cr: Bits, nia: int, goes: bool, reserved: bool, target: int)
    requires |cr| == 32 && (b.conditional ==> |b.bo| == 5 && |b.bi| == 5)
  {
    && nia == IsaNext(b, pc, ctr, cr) && goes == Goes(b, ctr, cr) && reserved == (b.conditional && !ZeroZ(b.bo))
    && (!b.absolute ==> b.addr % 4 == 0) && ((b.absolute ==> b.addr % 4 == 0) <==> target % 4 == 0)
  }

  lemma DecodedAgrees(w: Bits, r: Regs, b: Branch, nia: int, goes: bool, reserved: bool, target: int)
    requires |w| == 32 && KindOf(w) != NotABranch && ValidRegs(r) && b == Decoded(w, r)
    requires nia == IsaNia(w, r) && goes == IsaGoes(w, r) && reserved == ReservedSet(w) && target == IsaTarget(w, r)
    ensures b.conditional ==> |b.bo| == 5 && |b.bi| == 5
    ensures Agrees(b, Cia(r), r.ctr, r.cr, nia, goes, reserved, target)
  {
    DecodedNia(w, r);
    TargetAligned(w, r);
  }

  lemma Compare(b: Branch, pc: nat, ctr: nat, cr: Bits, nia: int, goes: bool, reserved: bool, target: int)
    requires |cr| == 32 && (b.conditional ==> |b.bo| == 5 && |b.bi| == 5) && pc % 4 == 0
    ensures Agrees(b, pc, ctr, cr, nia, goes, reserved, target) ==>
              (Successor(b, pc, ctr, cr, false) == nia <==>
               !goes || if reserved then nia == (pc + 4) % WORD_LIMIT else target % 4 == 0)
  {
    if !b.absolute ==> b.addr % 4 == 0 {
      SuccessorIsIsa(b, pc, ctr, cr);
    }
  }

  /** The high bits of a word. */
  lemma HighBits(w: Bits, k: nat, high: nat, low: nat)
    requires k <= |w| && Val(w) == high * Pow2(k) + low && low < Pow2(k)
    ensures Val(w[k..]) == high && Val(w[..k]) == low
  {
    ValSplit(w, k);
    Quotient(Val(w), Val(w[k..]), Pow2(k), Val(w[..k]));
    Quotient(Val(w), high, Pow2(k), low);
  }

  lemma KindByValue(w: Bits, primary: nat, low: nat)
    requires |w| == 32 && Val(w) == primary * 0x400_0000 + low && low < 0x800
    ensures Val(w[26..]) == primary && Val(w[1..11]) == low / 2
  {
    var v := w[..26];
    PrimaryBits(w, v, primary, low);
    MiddleBits(v, low);
    SameMiddle(w, v);
  }

  lemma PrimaryBits(w: Bits, v: Bits, primary: nat, low: nat)
    requires |w| == 32 && v == w[..26] && Val(w) == primary * 0x400_0000 + low && low < 0x800
    ensures Val(w[26..]) == primary && Val(v) == low
  {
    MorePowers();
    HighBits(w, 26, primary, low);
  }

  lemma SameMiddle(w: Bits, v: Bits)
    requires |w| == 32 && v == w[..26]
    ensures v[1..11] == w[1..11]
  {
  }

  lemma MiddleBits(v: Bits, low: nat)
    requires |v| == 26 && Val(v) == low < 0x800
    ensures Val(v[1..11]) == low / 2
  {
    PowerOf11();
    HighBits(v, 11, 0, low);
    OddIs(v[..11]);
    assert v[..11][1..] == v[1..11];
  }

  lemma PowerOf11()
    ensures Pow2(11) == 0x800
  {
    MorePowers();
  }

  /** The stepper takes an instruction for a branch only if the architecture does. */
  lemma OrdinaryForm(word: Bits)
    requires |word| == 32 && KindOf(word) == NotABranch
    ensures FormOf(word) == NoBranch
  {
    var v := Val(word);
    if 0x4000_0000 <= v <= 0x4000_0003 {
      KindByValue(word, 16, v - 0x4000_0000);
    } else if 0x4800_0000 <= v <= 0x4800_0003 {
      KindByValue(word, 18, v - 0x4800_0000);
    } else if FormOf(word) != NoBranch {
      KindByValue(word, 19, v - 0x4C00_0000);
    }
  }

  /** An instruction that is no branch: "step" and "next" both stop where the processor goes, at the next word. */
  lemma OrdinaryStep(op: Opcode, w: Bits, r: Regs, stepOver: bool)
    requires WellFormed(op) && SizesOk(op) && |w| == 32 && ValidRegs(r)
    requires KindOf(op.word) == NotABranch && KindOf(w) == NotABranch
    ensures FindNext(op, w, r, stepOver) == Some(IsaNia(w, r)) && IsaNia(w, r) == (Cia(r) + 4) % WORD_LIMIT
  {
    OrdinaryForm(op.word);
  }

  /** "next" stops behind a branch with LK set and is "step" otherwise; they differ only for one that is taken. */
  lemma NextVersusStep(op: Opcode, w: Bits, r: Regs)
    requires |w| == 32 && KindOf(w) != NotABranch && ValidRegs(r) && Matches(op, w, r)
    ensures FindNext(op, w, r, true) == if w[0] then Some((Cia(r) + 4) % WORD_LIMIT) else FindNext(op, w, r, false)
    ensures FindNext(op, w, r, true) != FindNext(op, w, r, false) ==> w[0] && IsaGoes(w, r)
  {
    var b := Decoded(w, r);
    FindNextIs(op, w, r, b, true);
    FindNextIs(op, w, r, b, false);
    OverIsFlat(b, Cia(r), r.ctr, r.cr);
    DecodedNia(w, r);
  }

  lemma OverIsFlat(b: Branch, pc: nat, ctr: nat, cr: Bits)
    requires |cr| == 32 && (b.conditional ==> |b.bo| == 5 && |b.bi| == 5)
    ensures Successor(b, pc, ctr, cr, true) == if b.link then (pc + 4) % WORD_LIMIT else Successor(b, pc, ctr, cr, false)
    ensures Successor(b, pc, ctr, cr, true) != Successor(b, pc, ctr, cr, false) ==> b.link && Goes(b, ctr, cr)
  {
    if b.conditional {
      DecisionIsIsa(b.bo, b.bi, ctr, cr);
    }
  }

  /** A bclr that always branches, with 2 in LR, goes to 2 here and to 0 on the processor. */
  lemma UnalignedWitness(op: Opcode, w: Bits, r: Regs)
    requires |w| == 32 && KindOf(w) == BranchLr && FieldBo(w) == [false, false, true, false, true]
    requires ValidRegs(r) && r.link == 2 && Matches(op, w, r)
    ensures FindNext(op, w, r, false) == Some(2) && IsaNia(w, r) == 0
  {
    FindNextIs(op, w, r, Decoded(w, r), false);
    UnalignedSides(w, r);
  }

  lemma UnalignedSides(w: Bits, r: Regs)
    requires |w| == 32 && KindOf(w) == BranchLr && FieldBo(w) == [false, false, true, false, true]
    requires ValidRegs(r) && r.link == 2
    ensures Successor(Decoded(w, r), Cia(r), r.ctr, r.cr, false) == 2 && IsaNia(w, r) == 0
  {
    AlwaysGoes(FieldBo(w), FieldBi(w), r.ctr, r.cr);
  }

  lemma AlwaysGoes(bo: Bits, bi: Bits, ctr: nat, cr: Bits)
    requires bo == [false, false, true, false, true] && |bi| == 5 && |cr| == 32
    ensures Taken(bo, bi, ctr, cr) && IsaTaken(bo, bi, ctr, cr)
  {
    ValOfBo(bo);
  }

  /** A bclr that always branches with all bits of BO set, the reserved ones too: at address 0 and with 256 in LR it goes
      to 4 here and to 256 on the processor. */
  lemma ReservedWitness(op: Opcode, w: Bits, r: Regs)
    requires |w| == 32 && KindOf(w) == BranchLr && FieldBo(w) == [true, true, true, true, true]
    requires ValidRegs(r) && r.nip == 0 && r.link == 256 && Matches(op, w, r)
    ensures FindNext(op, w, r, false) == Some(4) && IsaNia(w, r) == 256
  {
    FindNextIs(op, w, r, Decoded(w, r), false);
    ReservedSides(w, r);
  }

  lemma ReservedSides(w: Bits, r: Regs)
    requires |w| == 32 && KindOf(w) == BranchLr && FieldBo(w) == [true, true, true, true, true]
    requires ValidRegs(r) && r.nip == 0 && r.link == 256
    ensures Successor(Decoded(w, r), Cia(r), r.ctr, r.cr, false) == 4 && IsaNia(w, r) == 256
  {
    ValOfBo(FieldBo(w));
  }
}
