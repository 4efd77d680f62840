/**
 The PowerPC assembler, disassembler and single-stepper of common/bedbug.c.

 A machine word is its 32 bits, least significant first, so masking and shifting a field is
 taking a slice; operands and addresses are integers.  The opcode table is arbitrary as long
 as its fields do not overlap.
 */
module Bedbug {
  import opened Arith
  import opened Basics

  type Bits = seq<bool>

  /** The n low bits of a number, negative numbers being in two's complement. */
  function ToBits(x: int, n: nat): (b: Bits)
    ensures |b| == n
    decreases n
  {
    if n == 0 then [] else [x % 2 == 1] + ToBits(x / 2, n - 1)
  }

  function Val(b: Bits): (v: nat)
    ensures v < Pow2(|b|)
  {
    if b == [] then 0 else (if b[0] then 1 else 0) + 2 * Val(b[1..])
  }

  /** The two's complement value. */
  function Signed(b: Bits): int {
    if b != [] && b[|b| - 1] then Val(b) - Pow2(|b|) else Val(b)
  }

  predicate FitsSigned(x: int, n: nat)
    requires n >= 1
  {
    0 - Pow2(n - 1) <= x < Pow2(n - 1)
  }

  lemma {:induction false} ValOfBits(x: int, n: nat)
    ensures 0 <= x < Pow2(n) <==> Val(ToBits(x, n)) == x
    decreases n
  {
    if n > 0 {
      ValOfBits(x / 2, n - 1);
      assert ToBits(x, n)[1..] == ToBits(x / 2, n - 1);
    }
  }

  lemma {:induction false} SignBit(x: int, n: nat)
    requires n >= 1 && FitsSigned(x, n)
    ensures ToBits(x, n)[n - 1] == (x < 0)
    decreases n
  {
    if n > 1 {
      SignBit(x / 2, n - 1);
    }
  }

  lemma {:induction false} SignedRange(b: Bits)
    requires |b| >= 1
    ensures FitsSigned(Signed(b), |b|)
    ensures |b| > 1 ==> Signed(b) == (if b[0] then 1 else 0) + 2 * Signed(b[1..])
  {
    if |b| > 1 {
      SignedRange(b[1..]);
    }
  }

  lemma {:induction false} SignedOfBits(x: int, n: nat)
    requires n >= 1
    ensures FitsSigned(x, n) <==> Signed(ToBits(x, n)) == x
    decreases n
  {
    var b := ToBits(x, n);
    SignedRange(b);
    if n > 1 {
      SignedOfBits(x / 2, n - 1);
      assert b[1..] == ToBits(x / 2, n - 1);
    }
  }

  lemma {:induction false} BitsPrefix(x: int, m: nat, n: nat)
    requires m <= n
    ensures ToBits(x, n)[..m] == ToBits(x, m)
    decreases n
  {
    if m > 0 {
      BitsPrefix(x / 2, m - 1, n - 1);
    }
  }

  datatype Hint = SilentHint | AddrHint | RegHint | PlainHint

  /** Names of the operands the single-stepper asks for; the others do not matter to it. */
  datatype Name = AA | BD | BI | BO | LI | LK | OtherName(id: nat)

  datatype Operand = Operand(name: Name, bits: nat, shift: nat, hint: Hint)

  datatype Opcode = Opcode(word: Bits, fields: seq<Operand>, relative: bool)

  /** A field of the word; those for registers have at most five bits. */
  ghost predicate ValidOperand(o: Operand) {
    1 <= o.bits <= 29 && o.shift + o.bits <= 32 && (o.hint == RegHint ==> o.bits <= 5)
  }

  ghost predicate Covers(o: Operand, k: nat) {
    o.shift <= k < o.shift + o.bits
  }

  ghost predicate Apart(o: Operand, p: Operand) {
    o.shift + o.bits <= p.shift || p.shift + p.bits <= o.shift
  }

  ghost predicate ClearIn(o: Operand, w: Bits)
    requires o.shift + o.bits <= |w|
  {
    forall k :: o.shift <= k < o.shift + o.bits ==> !w[k]
  }

  /** Fields lie inside the word and do not overlap; those the assembler fills in are clear in the opcode word. */
  ghost predicate WellFormed(op: Opcode) {
    && |op.word| == 32
    && (forall i :: 0 <= i < |op.fields| ==> ValidOperand(op.fields[i]))
    && (forall i, j :: 0 <= i < j < |op.fields| ==> Apart(op.fields[i], op.fields[j]))
    && (forall i :: 0 <= i < |op.fields| && op.fields[i].hint != SilentHint ==> ClearIn(op.fields[i], op.word))
  }

  /** `(instr >> shift) & ((1 << bits) - 1)` */
  function Get(o: Operand, w: Bits): Bits
    requires o.shift + o.bits <= |w|
  {
    w[o.shift..o.shift + o.bits]
  }

  /** `data << shift` of data already cut to the field, as a whole word. */
  function Put(o: Operand, d: Bits): (w: Bits)
    requires |d| == o.bits && o.shift + o.bits <= 32
    ensures |w| == 32
  {
    seq(32, k requires 0 <= k < 32 => o.shift <= k < o.shift + o.bits && d[k - o.shift])
  }

  function OrWords(a: Bits, b: Bits): (w: Bits)
    requires |a| == |b| == 32
    ensures |w| == 32
  {
    seq(32, k requires 0 <= k < 32 => a[k] || b[k])
  }

  /** A difference of addresses as the 32-bit signed number it is in the source. */
  function Long(d: int): (r: int)
    ensures -0x8000_0000 <= r < 0x8000_0000
  {
    if d % WORD_LIMIT < 0x8000_0000 then d % WORD_LIMIT else d % WORD_LIMIT - WORD_LIMIT
  }

  /** The address field `parse_operand` makes of a displacement: the low bits of a quarter of it, and its sign. */
  function AddressBits(bits: nat, d: int): (b: Bits)
    requires 1 <= bits <= 29
    ensures |b| == bits
  {
    ToBits(Long(d) / 4, bits - 1) + [Long(d) < 0]
  }

  function Base(op: Opcode, memaddr: int): int {
    if op.relative then memaddr else 0
  }

  /** The bits an operand's text, read as the number v, puts into its field. */
  function OperandBits(op: Opcode, o: Operand, memaddr: int, v: int): (b: Bits)
    requires 1 <= o.bits <= 29
    ensures |b| == o.bits
  {
    if o.hint == AddrHint then AddressBits(o.bits, v - Base(op, memaddr)) else ToBits(v, o.bits)
  }

  /** The number `print_operands` prints for an operand of the instruction at address `at`; plain ones as a short. */
  function Printed(op: Opcode, o: Operand, w: Bits, at: int): int
    requires ValidOperand(o) && |w| == 32
  {
    if o.hint == AddrHint then (4 * Signed(Get(o, w)) + Base(op, at)) % WORD_LIMIT else Val(Get(o, w)) % 0x1_0000
  }

  /** The displacement is a multiple of 4 that an address field of this size can hold. */
  ghost predicate InReach(bits: nat, d: int)
    requires bits >= 1
  {
    Long(d) % 4 == 0 && FitsSigned(Long(d) / 4, bits)
  }

  /** The operand survives encoding and printing: an aligned address in the reach of the field, or a short that fits it. */
  ghost predicate Representable(op: Opcode, o: Operand, memaddr: int, v: int)
    requires ValidOperand(o)
  {
    if o.hint == AddrHint then
      0 <= v < WORD_LIMIT && InReach(o.bits, v - Base(op, memaddr))
    else
      0 <= v < Pow2(o.bits) && v < 0x1_0000
  }

  lemma {:induction false} Wider(x: int, m: nat, n: nat)
    requires 1 <= m <= n && FitsSigned(x, m)
    ensures FitsSigned(x, n)
    decreases n
  {
    if m < n {
      Wider(x, m, n - 1);
    }
  }

  lemma AddressBitsSigned(bits: nat, d: int)
    requires 1 <= bits <= 29 && InReach(bits, d)
    ensures 4 * Signed(AddressBits(bits, d)) == Long(d)
  {
    var x := Long(d) / 4;
    SignBit(x, bits);
    BitsPrefix(x, bits - 1, bits);
    assert ToBits(x, bits) == ToBits(x, bits)[..bits - 1] + [ToBits(x, bits)[bits - 1]];
    SignedOfBits(x, bits);
  }

  lemma ReachOfField(b: Bits)
    requires 1 <= |b| <= 29
    ensures -0x4000_0000 <= 4 * Signed(b) < 0x4000_0000
  {
    SignedRange(b);
    Wider(Signed(b), |b|, 29);
    Pow2At28();
  }

  lemma Pow2At28()
    ensures Pow2(28) == 0x1000_0000
  {
    assert Pow2(8) == 256 && Pow2(16) == 65536 && Pow2(24) == 16777216;
  }

  /** Two small displacements that lead from base to the same 32-bit address are equal. */
  lemma SameTarget(x: int, t: int, base: int)
    requires 0 <= t < WORD_LIMIT && -0x8000_0000 <= x < 0x8000_0000
    ensures (x + base) % WORD_LIMIT == t <==> x == Long(t - base)
  {
    var p := (x + base) / WORD_LIMIT;
    var q := (t - base) / WORD_LIMIT;
    assert x + base == p * WORD_LIMIT + (x + base) % WORD_LIMIT;
    assert t - base == q * WORD_LIMIT + (t - base) % WORD_LIMIT;
  }

  /** An address operand prints as the address it was written as exactly when that is in reach. */
  lemma AddressRoundTrip(bits: nat, t: int, base: int)
    requires 1 <= bits <= 29 && 0 <= t < WORD_LIMIT
    ensures (4 * Signed(AddressBits(bits, t - base)) + base) % WORD_LIMIT == t <==> InReach(bits, t - base)
  {
    var e := AddressBits(bits, t - base);
    ReachOfField(e);
    SameTarget(4 * Signed(e), t, base);
    SignedRange(e);
    if InReach(bits, t - base) {
      AddressBitsSigned(bits, t - base);
    }
  }

  datatype AsmError = NumOperands | BadRegister
  datatype Asm = Instruction(word: Bits) | Failed(error: AsmError)

  /** How many operands before the j-th are written out. */
  function ArgIndex(fields: seq<Operand>, j: nat): nat
    requires j <= |fields|
  {
    if j == 0 then 0 else ArgIndex(fields, j - 1) + if fields[j - 1].hint == SilentHint then 0 else 1
  }

  /** No register operand among the first n is above 31. */
  predicate RegistersOk(op: Opcode, values: seq<int>, n: nat)
    requires n <= |op.fields|
  {
    n == 0
    || (&& RegistersOk(op, values, n - 1)
        && (op.fields[n - 1].hint == RegHint && ArgIndex(op.fields, n - 1) < |values| ==>
              values[ArgIndex(op.fields, n - 1)] <= 31))
  }

  /** The instruction after n of its fields: the opcode word with the written operands put in. */
  function Assembled(op: Opcode, memaddr: int, values: seq<int>, n: nat): (w: Bits)
    requires WellFormed(op) && n <= |op.fields| && ArgIndex(op.fields, n) <= |values|
    ensures |w| == 32
  {
    if n == 0 then op.word
    else
      var o := op.fields[n - 1];
      var w := Assembled(op, memaddr, values, n - 1);
      if o.hint == SilentHint then w
      else OrWords(w, Put(o, OperandBits(op, o, memaddr, values[ArgIndex(op.fields, n - 1)])))
  }

  /** A bit no filled-in field covers is the opcode word's. */
  lemma {:induction false} AssembledElsewhere(op: Opcode, memaddr: int, values: seq<int>, n: nat, k: nat)
    requires WellFormed(op) && n <= |op.fields| && ArgIndex(op.fields, n) <= |values| && k < 32
    requires forall j :: 0 <= j < n && op.fields[j].hint != SilentHint ==> !Covers(op.fields[j], k)
    ensures Assembled(op, memaddr, values, n)[k] == op.word[k]
  {
    if n > 0 {
      AssembledElsewhere(op, memaddr, values, n - 1, k);
    }
  }

  lemma {:induction false} AssembledBit(op: Opcode, memaddr: int, values: seq<int>, n: nat, j: nat, k: nat)
    requires WellFormed(op) && j < n <= |op.fields| && ArgIndex(op.fields, n) <= |values| && k < 32
    requires op.fields[j].hint != SilentHint && Covers(op.fields[j], k)
    ensures ArgIndex(op.fields, j) < |values|
    ensures var o := op.fields[j];
            Assembled(op, memaddr, values, n)[k]
            == OperandBits(op, o, memaddr, values[ArgIndex(op.fields, j)])[k - o.shift]
  {
    if j == n - 1 {
      AssembledElsewhere(op, memaddr, values, j, k);
    } else {
      AssembledBit(op, memaddr, values, n - 1, j, k);
    }
  }

  lemma SliceIs(o: Operand, w: Bits, d: Bits)
    requires o.shift + o.bits <= |w| && |d| == o.bits
    requires forall k :: o.shift <= k < o.shift + o.bits ==> w[k] == d[k - o.shift]
    ensures Get(o, w) == d
  {
  }

  /** A written operand can be read back from the instruction. */
  lemma WrittenOperand(op: Opcode, memaddr: int, values: seq<int>, j: nat)
    requires WellFormed(op) && j < |op.fields| && ArgIndex(op.fields, |op.fields|) <= |values|
    requires op.fields[j].hint != SilentHint
    ensures ArgIndex(op.fields, j) < |values|
    ensures Get(op.fields[j], Assembled(op, memaddr, values, |op.fields|))
            == OperandBits(op, op.fields[j], memaddr, values[ArgIndex(op.fields, j)])
  {
    var o := op.fields[j];
    var w := Assembled(op, memaddr, values, |op.fields|);
    AssembledBit(op, memaddr, values, |op.fields|, j, o.shift);
    var d := OperandBits(op, o, memaddr, values[ArgIndex(op.fields, j)]);
    forall k | o.shift <= k < o.shift + o.bits
      ensures w[k] == d[k - o.shift]
    {
      AssembledBit(op, memaddr, values, |op.fields|, j, k);
    }
    SliceIs(o, w, d);
  }

  /** The operands written before field j: one text for each field that is not silent. */
  function WrittenBefore(fields: seq<Operand>, j: nat): set<nat>
    requires j <= |fields|
  {
    set i | 0 <= i < j && fields[i].hint != SilentHint
  }

  lemma {:induction false} ArgIndexIs(fields: seq<Operand>, j: nat)
    requires j <= |fields|
    ensures ArgIndex(fields, j) == |WrittenBefore(fields, j)|
  {
    if j > 0 {
      ArgIndexIs(fields, j - 1);
      var before := WrittenBefore(fields, j - 1);
      if fields[j - 1].hint != SilentHint {
        assert WrittenBefore(fields, j) == before + {j - 1};
      } else {
        assert WrittenBefore(fields, j) == before;
      }
    }
  }

  /** A register that the assembler accepts is the one in the instruction. */
  lemma RegisterIsKept(op: Opcode, memaddr: int, values: seq<int>, j: nat)
    requires WellFormed(op) && j < |op.fields| && ArgIndex(op.fields, |op.fields|) <= |values|
    requires op.fields[j].hint == RegHint && op.fields[j].bits == 5 && RegistersOk(op, values, |op.fields|)
    ensures ArgIndex(op.fields, j) < |values|
    ensures values[ArgIndex(op.fields, j)] >= 0 ==>
              Val(Get(op.fields[j], Assembled(op, memaddr, values, |op.fields|))) == values[ArgIndex(op.fields, j)]
  {
    WrittenOperand(op, memaddr, values, j);
    RegisterChecked(op, values, j, |op.fields|);
    assert Pow2(5) == 32;
    ValOfBits(values[ArgIndex(op.fields, j)], 5);
  }

  lemma {:induction false} RegisterChecked(op: Opcode, values: seq<int>, j: nat, n: nat)
    requires j < n <= |op.fields| && op.fields[j].hint == RegHint && ArgIndex(op.fields, j) < |values|
    requires RegistersOk(op, values, n)
    ensures values[ArgIndex(op.fields, j)] < 32
  {
    if j < n - 1 {
      RegisterChecked(op, values, j, n - 1);
    }
  }

  /** A silent operand has the value the opcode word gives it. */
  lemma SilentOperand(op: Opcode, memaddr: int, values: seq<int>, j: nat)
    requires WellFormed(op) && j < |op.fields| && ArgIndex(op.fields, |op.fields|) <= |values|
    requires op.fields[j].hint == SilentHint
    ensures Get(op.fields[j], Assembled(op, memaddr, values, |op.fields|)) == Get(op.fields[j], op.word)
  {
    var o := op.fields[j];
    var w := Assembled(op, memaddr, values, |op.fields|);
    var d := Get(o, op.word);
    forall k | o.shift <= k < o.shift + o.bits
      ensures w[k] == d[k - o.shift]
    {
      AssembledElsewhere(op, memaddr, values, |op.fields|, k);
    }
    SliceIs(o, w, d);
  }

  /** `asmppc` once the mnemonic is found and the operand texts are read as numbers. */
  method Assemble(op: Opcode, memaddr: int, values: seq<int>) returns (r: Asm)
    requires WellFormed(op)
    ensures r.Instruction? <==> ArgIndex(op.fields, |op.fields|) <= |values| && RegistersOk(op, values, |op.fields|)
    ensures r.Instruction? ==> r.word == Assembled(op, memaddr, values, |op.fields|)
    ensures r == Failed(BadRegister) <==> !RegistersOk(op, values, |op.fields|)
  {
    var instr := op.word;
    var n, arg := 0, 0;
    while n < |op.fields|
      invariant n <= |op.fields| && arg == ArgIndex(op.fields, n) <= |values|
      invariant instr == Assembled(op, memaddr, values, n)
      invariant RegistersOk(op, values, n)
    {
      var o := op.fields[n];
      if o.hint != SilentHint {
        if arg == |values| {
          TooFew(op, values, n);
          return Failed(NumOperands);
        }
        if o.hint == RegHint && values[arg] > 31 {
          WrongRegister(op, values, n);
          return Failed(BadRegister);
        }
        instr := OrWords(instr, Put(o, OperandBits(op, o, memaddr, values[arg])));
        arg := arg + 1;
      }
      n := n + 1;
    }
    return Instruction(instr);
  }

  lemma TooFew(op: Opcode, values: seq<int>, n: nat)
    requires n < |op.fields| && op.fields[n].hint != SilentHint
    requires ArgIndex(op.fields, n) == |values| && RegistersOk(op, values, n)
    ensures ArgIndex(op.fields, |op.fields|) > |values| && RegistersOk(op, values, |op.fields|)
  {
    StopsEarly(op, values, n, |op.fields|);
    StopsEarly(op, values, n + 1, |op.fields|);
  }

  lemma WrongRegister(op: Opcode, values: seq<int>, n: nat)
    requires n < |op.fields| && op.fields[n].hint == RegHint
    requires ArgIndex(op.fields, n) < |values| && values[ArgIndex(op.fields, n)] > 31
    ensures !RegistersOk(op, values, |op.fields|)
  {
    StopsEarly(op, values, n + 1, |op.fields|);
  }

  /** What holds of the operands read so far when the assembler stops early still holds of all of them. */
  lemma {:induction false} StopsEarly(op: Opcode, values: seq<int>, n: nat, m: nat)
    requires n <= m <= |op.fields|
    ensures ArgIndex(op.fields, n) <= ArgIndex(op.fields, m)
    ensures !RegistersOk(op, values, n) ==> !RegistersOk(op, values, m)
    ensures RegistersOk(op, values, n) && ArgIndex(op.fields, n) >= |values| ==> RegistersOk(op, values, m)
    decreases m
  {
    if n < m {
      StopsEarly(op, values, n, m - 1);
    }
  }

  /** A written operand of an assembled instruction prints as it was written exactly when it is representable. */
  lemma AssembledPrints(op: Opcode, memaddr: int, values: seq<int>, j: nat)
    requires WellFormed(op) && j < |op.fields| && ArgIndex(op.fields, |op.fields|) <= |values|
    requires op.fields[j].hint != SilentHint
    requires ArgIndex(op.fields, j) < |values|
    requires op.fields[j].hint == AddrHint ==> 0 <= values[ArgIndex(op.fields, j)] < WORD_LIMIT
    ensures var o := op.fields[j]; var v := values[ArgIndex(op.fields, j)];
            Printed(op, o, Assembled(op, memaddr, values, |op.fields|), memaddr) == v
            <==> Representable(op, o, memaddr, v)
  {
    WrittenOperand(op, memaddr, values, j);
    var o, v := op.fields[j], values[ArgIndex(op.fields, j)];
    PrintsBack(op, o, memaddr, v, Assembled(op, memaddr, values, |op.fields|));
  }

  lemma PrintsBack(op: Opcode, o: Operand, memaddr: int, v: int, w: Bits)
    requires ValidOperand(o) && |w| == 32 && Get(o, w) == OperandBits(op, o, memaddr, v)
    requires o.hint == AddrHint ==> 0 <= v < WORD_LIMIT
    ensures Printed(op, o, w, memaddr) == v <==> Representable(op, o, memaddr, v)
  {
    if o.hint == AddrHint {
      AddressRoundTrip(o.bits, v, Base(op, memaddr));
    } else {
      ValOfBits(v, o.bits);
      ValAtMost(v, o.bits);
    }
  }

  /** Cutting a number to a field does not make it larger. */
  lemma {:induction false} ValAtMost(x: int, n: nat)
    ensures x >= 0 ==> Val(ToBits(x, n)) <= x
    decreases n
  {
    if n > 0 {
      ValAtMost(x / 2, n - 1);
    }
  }
}
