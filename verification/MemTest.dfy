/**
 The RAM test of common/cmd_mem.c.

 RAM is an address decoder (word offset to physical cell) in front of an array of
 32-bit cells, each of whose bits may be stuck.  Nothing is assumed about the decoder
 or about the faults: several offsets may share one cell, and any bits of any cell may
 be stuck at either level.
 */
module MemTest {
  import opened Arith
  import opened Basics

  const MAX_WORDS := 0x4000_0000  // a 32-bit address space holds 2^30 words

  type Word = w: int | 0 <= w < WORD_LIMIT

  /** One storage bit: it either holds what is written or always reads as `level`. */
  datatype Bit = Sound | Stuck(level: bool)

  lemma {:induction false} Pow2Strict(j: nat, k: nat)
    requires j < k
    ensures 2 * Pow2(j) <= Pow2(k)
  {
    if j + 1 < k {
      Pow2Strict(j, k - 1);
    }
  }

  lemma Pow2Values()
    ensures Pow2(30) == MAX_WORDS && Pow2(32) == WORD_LIMIT
  {
    assert Pow2(8) == 256;
    assert Pow2(16) == 65536;
    assert Pow2(24) == 16777216;
  }

  /** What a cell with the given bits (least significant first) reads after `w` was written to it. */
  function Sense(w: nat, bits: seq<Bit>): (r: nat)
    ensures r < Pow2(|bits|)
  {
    if bits == [] then
      0
    else
      var low := if bits[0].Stuck? then (if bits[0].level then 1 else 0) else w % 2;
      low + 2 * Sense(w / 2, bits[1..])
  }

  ghost predicate AllSound(bits: seq<Bit>) {
    forall k :: 0 <= k < |bits| ==> bits[k].Sound?
  }

  lemma {:induction false} SoundCellHolds(w: nat, bits: seq<Bit>)
    requires AllSound(bits) && w < Pow2(|bits|)
    ensures Sense(w, bits) == w
  {
    if bits != [] {
      SoundCellHolds(w / 2, bits[1..]);
    }
  }

  /** A stuck bit reads alike for a word and its complement, so a cell that answers `x` to `w`
      and the complement of `x` to the complement of `w` has no stuck bit and was asked for `x`. */
  lemma {:induction false} ComplementPairExposesFaults(w: nat, x: nat, bits: seq<Bit>)
    requires w < Pow2(|bits|) && x < Pow2(|bits|)
    requires Sense(w, bits) == x
    requires Sense(Pow2(|bits|) - 1 - w, bits) == Pow2(|bits|) - 1 - x
    ensures AllSound(bits) && w == x
  {
    if bits != [] {
      var n := Pow2(|bits| - 1);
      assert (2 * n - 1 - w) / 2 == n - 1 - w / 2;
      assert (2 * n - 1 - x) / 2 == n - 1 - x / 2;
      ComplementPairExposesFaults(w / 2, x / 2, bits[1..]);
      assert forall k :: 0 < k < |bits| ==> bits[k] == bits[1..][k - 1];
    }
  }

  function Complement(w: Word): Word {
    WORD_LIMIT - 1 - w
  }

  /** The word the last three passes expect at an offset. */
  function Pattern(i: nat, inverted: bool): Word
    requires i < MAX_WORDS
  {
    if inverted then Complement(i + 1) else i + 1
  }

  lemma CellIsExposed(w: Word, x: Word, bits: seq<Bit>)
    requires |bits| == 32
    requires Sense(w, bits) == x && Sense(Complement(w), bits) == Complement(x)
    ensures AllSound(bits) && w == x
  {
    Pow2Values();
    ComplementPairExposesFaults(w, x, bits);
  }

  /** `w` shifted left once, the bit shifted out being lost. */
  function ShiftLeft(w: Word): Word {
    2 * w % WORD_LIMIT
  }

  // ---------------------------------------------------------------- the accesses of the test, in order

  /** A store to a word of the region or to address 0, or a load from a word. */
  datatype Access = Store(word: nat, value: Word) | Dummy(value: Word) | Fetch(word: nat)

  function FillTrace(i: nat, n: nat): seq<Access>
    requires n <= MAX_WORDS
    decreases n - i
  {
    if i >= n then [] else [Store(i, i + 1)] + FillTrace(i + 1, n)
  }

  function InvertTrace(i: nat, n: nat): seq<Access>
    requires n <= MAX_WORDS
    decreases n - i
  {
    if i >= n then [] else [Fetch(i), Store(i, 0xFFFF_FFFF - (i + 1))] + InvertTrace(i + 1, n)
  }

  function ZeroTrace(i: nat, n: nat): seq<Access>
    decreases n - i
  {
    if i >= n then [] else [Fetch(i), Store(i, 0)] + ZeroTrace(i + 1, n)
  }

  function ProbeTrace(val: Word): seq<Access> {
    [Store(0, val), Dummy(0xFFFF_FFFF - val), Fetch(0)]
  }

  /** A value and its complement, shifted left until nothing is left of it, n times at most. */
  function WalkTrace(val: Word, n: nat): seq<Access>
    decreases n
  {
    if val == 0 || n == 0 then []
    else ProbeTrace(val) + ProbeTrace(0xFFFF_FFFF - val) + WalkTrace(2 * val % 0x1_0000_0000, n - 1)
  }

  function DataTrace(vals: seq<Word>): seq<Access> {
    if vals == [] then [] else WalkTrace(vals[0], 32) + DataTrace(vals[1..])
  }

  /** The default pattern at the offsets that are powers of two, from one on. */
  function PowersTrace(offset: nat, len: nat): seq<Access>
    requires offset > 0
    decreases len - offset
  {
    if offset >= len then [] else [Store(offset, 0xAAAA_AAAA)] + PowersTrace(2 * offset, len)
  }

  function LookTrace(offset: nat, len: nat): seq<Access>
    requires offset > 0
    decreases len - offset
  {
    if offset >= len then [] else [Fetch(offset)] + LookTrace(2 * offset, len)
  }

  /** The anti-pattern at one offset while all the others are looked at. */
  function ToggleTrace(t: nat, len: nat): seq<Access> {
    [Store(t, 0x5555_5555)] + LookTrace(1, len) + [Store(t, 0xAAAA_AAAA)]
  }

  function ShortsTrace(t: nat, len: nat): seq<Access>
    requires t > 0
    decreases len - t
  {
    if t >= len then [] else ToggleTrace(t, len) + ShortsTrace(2 * t, len)
  }

  /** The address lines of a region of len + 1 words. */
  function AddressTrace(len: nat): seq<Access> {
    PowersTrace(1, len) + ToggleTrace(0, len) + ShortsTrace(1, len)
  }

  /** Everything `do_mem_test` does to a region of n words, whatever it reads. */
  function TestTrace(n: nat): seq<Access>
    requires 1 <= n <= MAX_WORDS
  {
    DataTrace(BIT_PATTERNS) + AddressTrace(n - 1) + FillTrace(0, n) + InvertTrace(0, n) + ZeroTrace(0, n)
  }

  /** What is done and what is still to come. */
  ghost predicate Ahead(all: seq<Access>, done: seq<Access>, rest: seq<Access>) {
    all == done + rest
  }

  lemma AheadStep(all: seq<Access>, done: seq<Access>, x: seq<Access>, rest: seq<Access>)
    requires Ahead(all, done, x + rest)
    ensures Ahead(all, done + x, rest)
  {
    assert done + (x + rest) == done + x + rest;
  }

  lemma AheadDone(all: seq<Access>, done: seq<Access>)
    requires Ahead(all, done, [])
    ensures done == all
  {
    assert done + [] == done;
  }

  lemma InvertAhead(all: seq<Access>, done: seq<Access>, done': seq<Access>, i: nat, j: nat, n: nat, w: Word)
    requires i < n <= MAX_WORDS && Ahead(all, done, InvertTrace(i, n)) && w == WORD_LIMIT - 1 - (i + 1)
    requires j == i + 1 && done' == done + [Fetch(i)] + [Store(i, w)]
    ensures Ahead(all, done', InvertTrace(j, n))
  {
    TwoSteps(all, done, Fetch(i), Store(i, w), InvertTrace(i + 1, n));
  }

  lemma ZeroAhead(all: seq<Access>, done: seq<Access>, done': seq<Access>, i: nat, j: nat, n: nat)
    requires i < n && Ahead(all, done, ZeroTrace(i, n)) && j == i + 1 && done' == done + [Fetch(i)] + [Store(i, 0)]
    ensures Ahead(all, done', ZeroTrace(j, n))
  {
    TwoSteps(all, done, Fetch(i), Store(i, 0), ZeroTrace(i + 1, n));
  }

  lemma LookAhead(all: seq<Access>, done: seq<Access>, offset: nat, len: nat)
    requires 0 < offset < len && Ahead(all, done, LookTrace(offset, len))
    ensures Ahead(all, done + [Fetch(offset)], LookTrace(2 * offset, len))
  {
    AheadStep(all, done, [Fetch(offset)], LookTrace(2 * offset, len));
  }

  lemma TwoSteps(all: seq<Access>, done: seq<Access>, x: Access, y: Access, rest: seq<Access>)
    requires Ahead(all, done, [x, y] + rest)
    ensures Ahead(all, done + [x] + [y], rest)
  {
    assert done + [x] + [y] == done + [x, y];
    AheadStep(all, done, [x, y], rest);
  }

  class Ram {
    const decode: seq<nat>      // physical cell behind each word of the region, start[0] first
    const scratch: nat          // physical cell behind address 0, which `dummy` points to
    const bits: seq<seq<Bit>>   // the storage bits of each physical cell
    const cells: array<Word>    // last word written to each physical cell
    ghost var trace: seq<Access>

    constructor (decode: seq<nat>, scratch: nat, bits: seq<seq<Bit>>, cells: array<Word>)
      ensures this.decode == decode && this.scratch == scratch && this.bits == bits && this.cells == cells && trace == []
    {
      this.decode, this.scratch, this.bits, this.cells := decode, scratch, bits, cells;
      trace := [];
    }

    ghost predicate Valid() {
      && 1 <= |decode| <= MAX_WORDS
      && |bits| == cells.Length
      && (forall c :: 0 <= c < |bits| ==> |bits[c]| == 32)
      && (forall i :: 0 <= i < |decode| ==> decode[i] < cells.Length)
      && scratch < cells.Length
    }

    ghost predicate Injective() {
      forall i, j :: 0 <= i < j < |decode| ==> decode[i] != decode[j]
    }

    /** No two words of the region share a cell and no bit of their cells is stuck. */
    ghost predicate Healthy()
      requires Valid()
    {
      Injective() && forall i :: 0 <= i < |decode| ==> AllSound(bits[decode[i]])
    }

    ghost predicate FirstAlias(i: nat)
      requires i < |decode|
    {
      forall j :: 0 <= j < i ==> decode[j] != decode[i]
    }

    /** No word in i+1 .. hi-1 shares the cell of word i. */
    ghost predicate LastAlias(i: nat, hi: nat)
      requires i < hi <= |decode|
    {
      forall j :: i < j < hi ==> decode[j] != decode[i]
    }

    /** No word below `lo` shares the cell of word i. */
    ghost predicate Untouched(i: nat, lo: nat)
      requires i < |decode| && lo <= |decode|
    {
      forall j :: 0 <= j < lo ==> decode[j] != decode[i]
    }

    /** Each cell written by the words below `hi` holds the pattern of the last of them. */
    ghost predicate WrittenBelow(now: seq<Word>, hi: nat, inverted: bool)
      requires Valid() && |now| == cells.Length && hi <= |decode|
    {
      forall i :: 0 <= i < hi && LastAlias(i, hi) ==> now[decode[i]] == Pattern(i, inverted)
    }

    /** Each cell no word below `lo` uses still holds the pattern of its last user. */
    ghost predicate WaitingFrom(now: seq<Word>, lo: nat, inverted: bool)
      requires Valid() && |now| == cells.Length && lo <= |decode|
    {
      forall i :: lo <= i < |decode| && LastAlias(i, |decode|) && Untouched(i, lo)
                  ==> now[decode[i]] == Pattern(i, inverted)
    }

    ghost predicate ZeroBelow(now: seq<Word>, hi: nat)
      requires Valid() && |now| == cells.Length && hi <= |decode|
    {
      forall i :: 0 <= i < hi ==> now[decode[i]] == 0
    }

    /** The cell of word i, when i is its first and m its last user, answers the pattern of i to that of m. */
    ghost predicate Answers(i: nat, m: nat, inverted: bool)
      requires Valid() && i < |decode| && m < |decode|
    {
      FirstAlias(i) && LastAlias(m, |decode|) && decode[i] == decode[m]
      ==> Sense(Pattern(m, inverted), bits[decode[i]]) == Pattern(i, inverted)
    }

    ghost predicate AnswersBelow(hi: nat, inverted: bool)
      requires Valid() && hi <= |decode|
    {
      forall i, m :: 0 <= i < hi && 0 <= m < |decode| ==> Answers(i, m, inverted)
    }

    method Read(i: nat) returns (w: Word)
      requires Valid() && i < |decode|
      modifies this`trace
      ensures trace == old(trace) + [Fetch(i)]
      ensures w == Sense(cells[decode[i]], bits[decode[i]])
      ensures AllSound(bits[decode[i]]) ==> w == cells[decode[i]]
    {
      Pow2Values();
      if AllSound(bits[decode[i]]) {
        SoundCellHolds(cells[decode[i]], bits[decode[i]]);
      }
      trace := trace + [Fetch(i)];
      w := Sense(cells[decode[i]], bits[decode[i]]);
    }

    method Write(i: nat, w: Word)
      requires Valid() && i < |decode|
      modifies cells, this`trace
      ensures cells[..] == old(cells[..])[decode[i] := w] && trace == old(trace) + [Store(i, w)]
    {
      trace := trace + [Store(i, w)];
      cells[decode[i]] := w;
    }

    /** A store to address 0. */
    method WriteDummy(w: Word)
      requires Valid()
      modifies cells, this`trace
      ensures cells[..] == old(cells[..])[scratch := w] && trace == old(trace) + [Dummy(w)]
    {
      trace := trace + [Dummy(w)];
      cells[scratch] := w;
    }
  }

  /** A first user that is not the last one, or a stuck bit, would have been reported. */
  lemma PassMeansHealthy(ram: Ram)
    requires ram.Valid()
    requires ram.AnswersBelow(|ram.decode|, false) && ram.AnswersBelow(|ram.decode|, true)
    ensures ram.Healthy()
  {
    forall i, j | 0 <= i <= j < |ram.decode| && ram.decode[i] == ram.decode[j]
      ensures i == j && AllSound(ram.bits[ram.decode[i]])
    {
      var first := FindFirst(ram, i);
      var last := FindLast(ram, j);
      assert ram.Answers(first, last, false) && ram.Answers(first, last, true);
      CellIsExposed(last + 1, first + 1, ram.bits[ram.decode[i]]);
    }
  }

  lemma FindFirst(ram: Ram, i: nat) returns (first: nat)
    requires ram.Valid() && i < |ram.decode|
    ensures first <= i && ram.decode[first] == ram.decode[i] && ram.FirstAlias(first)
  {
    first := 0;
    while ram.decode[first] != ram.decode[i]
      invariant first <= i
      invariant forall j :: 0 <= j < first ==> ram.decode[j] != ram.decode[i]
      decreases i - first
    {
      first := first + 1;
    }
  }

  lemma FindLast(ram: Ram, i: nat) returns (last: nat)
    requires ram.Valid() && i < |ram.decode|
    ensures i <= last < |ram.decode| && ram.decode[last] == ram.decode[i] && ram.LastAlias(last, |ram.decode|)
  {
    last := |ram.decode| - 1;
    while ram.decode[last] != ram.decode[i]
      invariant i <= last < |ram.decode|
      invariant forall j :: last < j < |ram.decode| ==> ram.decode[j] != ram.decode[i]
      decreases last
    {
      last := last - 1;
    }
  }

  lemma WriteStep(ram: Ram, now: seq<Word>, offset: nat, inverted: bool)
    requires ram.Valid() && |now| == ram.cells.Length && offset < |ram.decode|
    requires ram.WrittenBelow(now, offset, inverted)
    ensures ram.WrittenBelow(now[ram.decode[offset] := Pattern(offset, inverted)], offset + 1, inverted)
  {
    forall i | 0 <= i < offset && ram.LastAlias(i, offset + 1)
      ensures ram.LastAlias(i, offset)
    {
    }
  }

  lemma WaitStep(ram: Ram, now: seq<Word>, offset: nat, inverted: bool, w: Word)
    requires ram.Valid() && |now| == ram.cells.Length && offset < |ram.decode|
    requires ram.WaitingFrom(now, offset, inverted)
    ensures ram.WaitingFrom(now[ram.decode[offset] := w], offset + 1, inverted)
  {
    forall i | offset < i < |ram.decode| && ram.Untouched(i, offset + 1)
      ensures ram.Untouched(i, offset) && ram.decode[i] != ram.decode[offset]
    {
    }
  }

  lemma ZeroStep(ram: Ram, now: seq<Word>, offset: nat)
    requires ram.Valid() && |now| == ram.cells.Length && offset < |ram.decode|
    requires ram.ZeroBelow(now, offset)
    ensures ram.ZeroBelow(now[ram.decode[offset] := 0], offset + 1)
  {
  }

  /** A read that finds its pattern extends the answers; on healthy RAM every read finds it. */
  lemma ReadStep(ram: Ram, now: seq<Word>, offset: nat, inverted: bool)
    requires ram.Valid() && |now| == ram.cells.Length && offset < |ram.decode|
    requires ram.WaitingFrom(now, offset, inverted)
    ensures ram.AnswersBelow(offset, inverted)
            && Sense(now[ram.decode[offset]], ram.bits[ram.decode[offset]]) == Pattern(offset, inverted)
            ==> ram.AnswersBelow(offset + 1, inverted)
    ensures ram.Healthy() ==> now[ram.decode[offset]] == Pattern(offset, inverted)
  {
    forall m | 0 <= m < |ram.decode| && ram.FirstAlias(offset) && ram.LastAlias(m, |ram.decode|)
               && ram.decode[m] == ram.decode[offset]
      ensures now[ram.decode[offset]] == Pattern(m, inverted)
    {
      assert ram.Untouched(m, offset);
    }
    if ram.Healthy() {
      assert ram.LastAlias(offset, |ram.decode|) && ram.Untouched(offset, offset);
    }
  }

  method FillCells(ram: Ram)
    requires ram.Valid()
    modifies ram.cells, ram`trace
    ensures ram.WrittenBelow(ram.cells[..], |ram.decode|, false)
    ensures ram.trace == old(ram.trace) + FillTrace(0, |ram.decode|)
  {
    var pattern, offset := 1, 0;
    ghost var all := ram.trace + FillTrace(0, |ram.decode|);
    while offset < |ram.decode|
      invariant offset <= |ram.decode| && pattern == offset + 1
      invariant ram.WrittenBelow(ram.cells[..], offset, false)
      invariant Ahead(all, ram.trace, FillTrace(offset, |ram.decode|))
    {
      WriteStep(ram, ram.cells[..], offset, false);
      AheadStep(all, ram.trace, [Store(offset, pattern)], FillTrace(offset + 1, |ram.decode|));
      ram.Write(offset, pattern);
      pattern, offset := pattern + 1, offset + 1;
    }
  }

  /** Looks whether a word is as expected, and stores the next one. */
  method CheckAndStore(ram: Ram, offset: nat, expected: Word, next: Word) returns (bad: bool)
    requires ram.Valid() && offset < |ram.decode|
    modifies ram.cells, ram`trace
    ensures bad <==> Sense(old(ram.cells[ram.decode[offset]]), ram.bits[ram.decode[offset]]) != expected
    ensures ram.cells[..] == old(ram.cells[..])[ram.decode[offset] := next]
    ensures ram.trace == old(ram.trace) + [Fetch(offset)] + [Store(offset, next)]
  {
    var temp := ram.Read(offset);
    bad := temp != expected;
    ram.Write(offset, next);
  }

  /** The second pass before a word: the errors counted say whether the first users below it answered. */
  ghost predicate Inverting(ram: Ram, now: seq<Word>, offset: nat, errs: nat)
    requires ram.Valid() && offset <= |ram.decode| && |now| == ram.cells.Length
  {
    && errs <= offset && ram.WaitingFrom(now, offset, false) && ram.WrittenBelow(now, offset, true)
    && (errs == 0 ==> ram.AnswersBelow(offset, false)) && (ram.Healthy() ==> errs == 0)
  }

  /** The answer of a cell differs from what is expected. */
  ghost predicate IsBad(ram: Ram, now: seq<Word>, offset: nat, inverted: bool)
    requires ram.Valid() && offset < |ram.decode| && |now| == ram.cells.Length
  {
    Sense(now[ram.decode[offset]], ram.bits[ram.decode[offset]]) != Pattern(offset, inverted)
  }

  lemma HealthyIsGood(ram: Ram, now: seq<Word>, offset: nat, inverted: bool)
    requires ram.Valid() && offset < |ram.decode| && |now| == ram.cells.Length
    requires ram.Healthy() && now[ram.decode[offset]] == Pattern(offset, inverted)
    ensures !IsBad(ram, now, offset, inverted)
  {
    Pow2Values();
    SoundCellHolds(now[ram.decode[offset]], ram.bits[ram.decode[offset]]);
  }

  lemma InvertBegins(ram: Ram, now: seq<Word>)
    requires ram.Valid() && |now| == ram.cells.Length && ram.WrittenBelow(now, |ram.decode|, false)
    ensures Inverting(ram, now, 0, 0)
  {
  }

  lemma InvertStep(ram: Ram, now: seq<Word>, next: seq<Word>, offset: nat, offset': nat, errs: nat, errs': nat)
    requires ram.Valid() && offset < |ram.decode| && |now| == |next| == ram.cells.Length && Inverting(ram, now, offset, errs)
    requires next == now[ram.decode[offset] := Pattern(offset, true)] && offset' == offset + 1
    requires errs' == if IsBad(ram, now, offset, false) then errs + 1 else errs
    ensures Inverting(ram, next, offset', errs')
  {
    ReadStep(ram, now, offset, false);
    WriteStep(ram, now, offset, true);
    WaitStep(ram, now, offset, false, Pattern(offset, true));
    if ram.Healthy() {
      HealthyIsGood(ram, now, offset, false);
    }
  }

  method InvertOne(ram: Ram, pattern: Word, offset: nat, errs: nat, ghost all: seq<Access>)
    returns (pattern': int, offset': nat, errs': nat)
    requires ram.Valid() && offset < |ram.decode| && pattern == offset + 1 && Inverting(ram, ram.cells[..], offset, errs)
    requires Ahead(all, ram.trace, InvertTrace(offset, |ram.decode|))
    modifies ram.cells, ram`trace
    ensures offset' == offset + 1 && pattern' == offset' + 1 && Inverting(ram, ram.cells[..], offset', errs')
    ensures Ahead(all, ram.trace, InvertTrace(offset', |ram.decode|))
  {
    ghost var now, done := ram.cells[..], ram.trace;
    var bad := CheckAndStore(ram, offset, pattern, Complement(pattern));
    pattern', offset', errs' := pattern + 1, offset + 1, if bad then errs + 1 else errs;
    InvertStep(ram, now, ram.cells[..], offset, offset', errs, errs');
    InvertAhead(all, done, ram.trace, offset, offset', |ram.decode|, Complement(pattern));
  }

  method CheckAndInvertCells(ram: Ram) returns (errs: nat)
    requires ram.Valid() && ram.WrittenBelow(ram.cells[..], |ram.decode|, false)
    modifies ram.cells, ram`trace
    ensures ram.WrittenBelow(ram.cells[..], |ram.decode|, true)
    ensures errs == 0 ==> ram.AnswersBelow(|ram.decode|, false)
    ensures ram.Healthy() ==> errs == 0
    ensures errs <= |ram.decode|
    ensures ram.trace == old(ram.trace) + InvertTrace(0, |ram.decode|)
  {
    errs := 0;
    var pattern, offset := 1, 0;
    ghost var all := ram.trace + InvertTrace(0, |ram.decode|);
    InvertBegins(ram, ram.cells[..]);
    while offset < |ram.decode|
      invariant 0 <= offset <= |ram.decode| && pattern == offset + 1 && Inverting(ram, ram.cells[..], offset, errs)
      invariant Ahead(all, ram.trace, InvertTrace(offset, |ram.decode|))
    {
      pattern, offset, errs := InvertOne(ram, pattern, offset, errs, all);
    }
    AheadDone(all, ram.trace);
  }

  /** The third pass before a word. */
  ghost predicate Zeroing(ram: Ram, now: seq<Word>, offset: nat, errs: nat)
    requires ram.Valid() && offset <= |ram.decode| && |now| == ram.cells.Length
  {
    && errs <= offset && ram.WaitingFrom(now, offset, true) && ram.ZeroBelow(now, offset)
    && (errs == 0 ==> ram.AnswersBelow(offset, true)) && (ram.Healthy() ==> errs == 0)
  }

  lemma ZeroBegins(ram: Ram, now: seq<Word>)
    requires ram.Valid() && |now| == ram.cells.Length && ram.WrittenBelow(now, |ram.decode|, true)
    ensures Zeroing(ram, now, 0, 0)
  {
  }

  lemma ZeroOne(ram: Ram, now: seq<Word>, next: seq<Word>, offset: nat, offset': nat, errs: nat, errs': nat)
    requires ram.Valid() && offset < |ram.decode| && |now| == |next| == ram.cells.Length && Zeroing(ram, now, offset, errs)
    requires next == now[ram.decode[offset] := 0] && offset' == offset + 1
    requires errs' == if IsBad(ram, now, offset, true) then errs + 1 else errs
    ensures Zeroing(ram, next, offset', errs')
  {
    ReadStep(ram, now, offset, true);
    WaitStep(ram, now, offset, true, 0);
    ZeroStep(ram, now, offset);
    if ram.Healthy() {
      HealthyIsGood(ram, now, offset, true);
    }
  }

  method ClearOne(ram: Ram, pattern: Word, offset: nat, errs: nat, ghost all: seq<Access>)
    returns (pattern': int, offset': nat, errs': nat)
    requires ram.Valid() && offset < |ram.decode| && pattern == offset + 1 && Zeroing(ram, ram.cells[..], offset, errs)
    requires Ahead(all, ram.trace, ZeroTrace(offset, |ram.decode|))
    modifies ram.cells, ram`trace
    ensures offset' == offset + 1 && pattern' == offset' + 1 && Zeroing(ram, ram.cells[..], offset', errs')
    ensures Ahead(all, ram.trace, ZeroTrace(offset', |ram.decode|))
  {
    ghost var now, done := ram.cells[..], ram.trace;
    var bad := CheckAndStore(ram, offset, Complement(pattern), 0);
    pattern', offset', errs' := pattern + 1, offset + 1, if bad then errs + 1 else errs;
    ZeroOne(ram, now, ram.cells[..], offset, offset', errs, errs');
    ZeroAhead(all, done, ram.trace, offset, offset', |ram.decode|);
  }

  method CheckAndZeroCells(ram: Ram) returns (errs: nat)
    requires ram.Valid() && ram.WrittenBelow(ram.cells[..], |ram.decode|, true)
    modifies ram.cells, ram`trace
    ensures errs == 0 ==> ram.AnswersBelow(|ram.decode|, true)
    ensures ram.Healthy() ==> errs == 0
    ensures ram.ZeroBelow(ram.cells[..], |ram.decode|)
    ensures errs <= |ram.decode|
    ensures ram.trace == old(ram.trace) + ZeroTrace(0, |ram.decode|)
  {
    errs := 0;
    var pattern, offset := 1, 0;
    ZeroBegins(ram, ram.cells[..]);
    ghost var all := ram.trace + ZeroTrace(0, |ram.decode|);
    while offset < |ram.decode|
      invariant 0 <= offset <= |ram.decode| && pattern == offset + 1 && Zeroing(ram, ram.cells[..], offset, errs)
      invariant Ahead(all, ram.trace, ZeroTrace(offset, |ram.decode|))
    {
      pattern, offset, errs := ClearOne(ram, pattern, offset, errs, all);
    }
    AheadDone(all, ram.trace);
  }

  const BIT_PATTERNS: seq<Word> :=
    [0x00000001, 0x00000003, 0x00000007, 0x0000000F, 0x00000005, 0x00000015, 0x00000055, 0xaaaaaaaa]

  /** `w` shifted left k times: its value times 2^k, kept to 32 bits. */
  function Shifted(w: Word, k: nat): Word {
    if k == 0 then w else ShiftLeft(Shifted(w, k - 1))
  }

  lemma {:induction false} ShiftedValue(w: Word, k: nat)
    ensures Shifted(w, k) == w * Pow2(k) % WORD_LIMIT
  {
    if k > 0 {
      ShiftedValue(w, k - 1);
      DoubleMod(w * Pow2(k - 1));
      assert w * Pow2(k) == 2 * (w * Pow2(k - 1));
    }
  }

  lemma DoubleMod(x: nat)
    ensures 2 * (x % WORD_LIMIT) % WORD_LIMIT == 2 * x % WORD_LIMIT
  {
    var q := x / WORD_LIMIT;
    assert 2 * x == 2 * (x % WORD_LIMIT) + 2 * q * WORD_LIMIT;
  }

  lemma ShiftedOut(w: Word, k: nat)
    ensures Pow2(k) == WORD_LIMIT ==> Shifted(w, k) == 0
  {
    ShiftedValue(w, k);
    Quotient(w * WORD_LIMIT, w, WORD_LIMIT, 0);
  }

  /** One round of the data-line test: write a value to start[0] and its complement to address 0, read back. */
  method ProbeDataLine(ram: Ram, val: Word) returns (errs: nat)
    requires ram.Valid()
    modifies ram.cells, ram`trace
    ensures errs <= 1
    ensures errs == 0 <==> ProbePasses(ram, val)
    ensures ram.trace == old(ram.trace) + ProbeTrace(val)
  {
    ram.Write(0, val);
    ram.WriteDummy(Complement(val));
    var readback := ram.Read(0);
    errs := if readback != val then 1 else 0;
  }

  /** What the data lines can show: word 0 has a cell of its own, and no bit of it is stuck. */
  ghost predicate FirstWordSound(ram: Ram)
    requires ram.Valid()
  {
    ram.decode[0] != ram.scratch && AllSound(ram.bits[ram.decode[0]])
  }

  method CheckDataLines(ram: Ram) returns (errs: nat)
    requires ram.Valid()
    modifies ram.cells, ram`trace
    ensures errs <= 512
    ensures errs == 0 <==> FirstWordSound(ram)
    ensures ram.trace == old(ram.trace) + DataTrace(BIT_PATTERNS)
  {
    errs := WalkAll(ram, BIT_PATTERNS);
  }

  method WalkAll(ram: Ram, vals: seq<Word>) returns (errs: nat)
    requires ram.Valid() && vals != [] && forall j :: 0 <= j < |vals| ==> vals[j] != 0
    modifies ram.cells, ram`trace
    ensures errs <= 64 * |vals| && (errs == 0 <==> FirstWordSound(ram))
    ensures ram.trace == old(ram.trace) + DataTrace(vals)
  {
    errs := 0;
    ghost var all := ram.trace + DataTrace(vals);
    assert vals[0..] == vals;
    for j := 0 to |vals|
      invariant errs <= 64 * j && Ahead(all, ram.trace, DataTrace(vals[j..]))
      invariant FirstWordSound(ram) ==> errs == 0
      invariant j > 0 && errs == 0 ==> FirstWordSound(ram)
    {
      assert vals[j..][1..] == vals[j + 1..];
      AheadStep(all, ram.trace, WalkTrace(vals[j], 32), DataTrace(vals[j + 1..]));
      var more := WalkDataLines(ram, vals[j]);
      errs := errs + more;
    }
    AheadDone(all, ram.trace);
  }

  /** The probes with one value, shifted left until nothing is left of it. */
  method WalkDataLines(ram: Ram, start: Word) returns (errs: nat)
    requires ram.Valid() && start != 0
    modifies ram.cells, ram`trace
    ensures errs <= 64 && (errs == 0 <==> FirstWordSound(ram))
    ensures ram.trace == old(ram.trace) + WalkTrace(start, 32)
  {
    errs := 0;
    var val := start;
    ghost var k := 0;
    ghost var all := ram.trace + WalkTrace(start, 32);
    ghost var left := 32;
    while val != 0
      invariant k <= 32 && left == 32 - k && val == Shifted(start, k) && errs <= 2 * k
      invariant Ahead(all, ram.trace, WalkTrace(val, left))
      invariant FirstWordSound(ram) ==> errs == 0
      invariant k > 0 && errs == 0 ==> FirstWordSound(ram)
      decreases left
    {
      ghost var done, was := ram.trace, val;
      NotShiftedOut(start, k);
      DataLineRound(ram, val);
      var more := ProbeTwice(ram, val);
      errs := errs + more;
      val := ShiftLeft(val);
      k, left := k + 1, left - 1;
      WalkStep(all, done, ram.trace, was, val, left + 1, left);
    }
    AheadDone(all, ram.trace);
  }

  lemma NotShiftedOut(w: Word, k: nat)
    requires k <= 32 && Shifted(w, k) != 0
    ensures k < 32
  {
    ShiftedOut(w, k);
    Pow2Values();
  }

  /** A value and its complement. */
  method ProbeTwice(ram: Ram, val: Word) returns (errs: nat)
    requires ram.Valid()
    modifies ram.cells, ram`trace
    ensures errs <= 2 && (errs == 0 <==> ProbePasses(ram, val) && ProbePasses(ram, Complement(val)))
    ensures ram.trace == old(ram.trace) + ProbeTrace(val) + ProbeTrace(Complement(val))
  {
    var first := ProbeDataLine(ram, val);
    var second := ProbeDataLine(ram, Complement(val));
    errs := first + second;
  }

  lemma WalkStep(all: seq<Access>, done: seq<Access>, done': seq<Access>, val: Word, val': Word, n: nat, n': nat)
    requires val != 0 && n > 0 && Ahead(all, done, WalkTrace(val, n)) && val' == ShiftLeft(val) && n' == n - 1
    requires done' == done + ProbeTrace(val) + ProbeTrace(Complement(val))
    ensures Ahead(all, done', WalkTrace(val', n'))
  {
    ThreeParts(all, done, ProbeTrace(val), ProbeTrace(Complement(val)), WalkTrace(ShiftLeft(val), n - 1));
  }

  lemma ThreeParts(all: seq<Access>, done: seq<Access>, x: seq<Access>, y: seq<Access>, z: seq<Access>)
    requires Ahead(all, done, x + y + z)
    ensures Ahead(all, done + x + y, z)
  {
    assert done + (x + y + z) == done + x + y + z;
  }

  /** A probe of start[0] with this value finds it again. */
  ghost predicate ProbePasses(ram: Ram, val: Word)
    requires ram.Valid()
  {
    Sense(if ram.scratch == ram.decode[0] then Complement(val) else val, ram.bits[ram.decode[0]]) == val
  }

  /** The two probes of a round both pass exactly when word 0 is sound and not the cell behind address 0. */
  lemma DataLineRound(ram: Ram, val: Word)
    requires ram.Valid()
    ensures ProbePasses(ram, val) && ProbePasses(ram, Complement(val)) <==> FirstWordSound(ram)
  {
    var bits := ram.bits[ram.decode[0]];
    Pow2Values();
    if ProbePasses(ram, val) && ProbePasses(ram, Complement(val)) {
      if ram.scratch == ram.decode[0] {
        CellIsExposed(Complement(val), val, bits);
      } else {
        CellIsExposed(val, val, bits);
      }
    }
    if FirstWordSound(ram) {
      SoundCellHolds(val, bits);
      SoundCellHolds(Complement(val), bits);
    }
  }

  const PATTERN: Word := 0xaaaaaaaa
  const ANTI_PATTERN: Word := 0x55555555

  /** Every power-of-two offset below 2^k and below the last word, other than 2^skip, holds the pattern. */
  ghost predicate PowersHold(ram: Ram, now: seq<Word>, k: nat, skip: int)
    requires ram.Valid() && |now| == ram.cells.Length
  {
    forall t: nat :: t < k && t != skip && Pow2(t) < |ram.decode| - 1 ==> now[ram.decode[Pow2(t)]] == PATTERN
  }

  /** Word 0 and the words at power-of-two offsets below the last word all have cells of their own. */
  ghost predicate PowersDistinct(ram: Ram)
    requires ram.Valid()
  {
    forall t: nat :: Pow2(t) < |ram.decode| - 1 ==> ram.decode[Pow2(t)] != ram.decode[0] && DistinctFrom(ram, t)
  }

  /** No other power-of-two offset shares the cell of offset 2^t. */
  ghost predicate DistinctFrom(ram: Ram, t: nat)
    requires ram.Valid() && Pow2(t) < |ram.decode| - 1
  {
    forall u: nat :: u != t && Pow2(u) < |ram.decode| - 1 ==> ram.decode[Pow2(u)] != ram.decode[Pow2(t)]
  }

  ghost predicate PowersSound(ram: Ram)
    requires ram.Valid()
  {
    forall t: nat :: Pow2(t) < |ram.decode| - 1 ==> AllSound(ram.bits[ram.decode[Pow2(t)]])
  }

  lemma HealthyPowers(ram: Ram)
    requires ram.Valid() && ram.Healthy()
    ensures PowersSound(ram) && PowersDistinct(ram)
  {
    forall t: nat | Pow2(t) < |ram.decode| - 1
      ensures DistinctFrom(ram, t)
    {
      forall u: nat | u != t && Pow2(u) < |ram.decode| - 1
        ensures ram.decode[Pow2(u)] != ram.decode[Pow2(t)]
      {
        if u < t {
          Pow2Strict(u, t);
        } else {
          Pow2Strict(t, u);
        }
      }
    }
  }

  /** Writing one power-of-two offset leaves the others alone if they are distinct. */
  lemma WritePower(ram: Ram, now: seq<Word>, k: nat, t: nat, w: Word)
    requires ram.Valid() && |now| == ram.cells.Length && PowersDistinct(ram) && Pow2(t) < |ram.decode| - 1
    ensures PowersHold(ram, now, k, -1) ==> PowersHold(ram, now[ram.decode[Pow2(t)] := w], k, t)
    ensures PowersHold(ram, now, k, t) && w == PATTERN ==>
              PowersHold(ram, now[ram.decode[Pow2(t)] := w], if k == t then k + 1 else k, -1)
  {
    assert DistinctFrom(ram, t);
  }

  /** Every power-of-two offset below 2^k and below the last word, other than 2^skip, reads as the pattern. */
  ghost predicate PowersRead(ram: Ram, now: seq<Word>, k: nat, skip: int)
    requires ram.Valid() && |now| == ram.cells.Length
  {
    forall t: nat :: t < k && t != skip && Pow2(t) < |ram.decode| - 1 ==>
      Sense(now[ram.decode[Pow2(t)]], ram.bits[ram.decode[Pow2(t)]]) == PATTERN
  }

  lemma SoundPowersRead(ram: Ram, now: seq<Word>, k: nat, skip: int)
    requires ram.Valid() && |now| == ram.cells.Length && PowersSound(ram)
    ensures PowersRead(ram, now, k, skip) <==> PowersHold(ram, now, k, skip)
  {
    Pow2Values();
    forall t: nat | t < k && t != skip && Pow2(t) < |ram.decode| - 1
      ensures Sense(now[ram.decode[Pow2(t)]], ram.bits[ram.decode[Pow2(t)]]) == now[ram.decode[Pow2(t)]]
    {
      SoundCellHolds(now[ram.decode[Pow2(t)]], ram.bits[ram.decode[Pow2(t)]]);
    }
  }

  lemma OtherPower(k: nat, skip: int, testOffset: nat)
    requires if skip >= 0 then testOffset == Pow2(skip) else testOffset == 0
    ensures k == skip <==> Pow2(k) == testOffset
  {
    if 0 <= skip < k {
      Pow2Strict(skip, k);
    } else if k < skip {
      Pow2Strict(k, skip);
    }
  }

  method CheckPowers(ram: Ram, ghost now: seq<Word>, ghost kMax: nat, ghost skip: int, testOffset: nat) returns (errs: nat)
    requires ram.Valid() && now == ram.cells[..]
    requires if skip >= 0 then testOffset == Pow2(skip) else testOffset == 0
    requires Pow2(kMax) >= |ram.decode| - 1
    modifies ram`trace
    ensures errs == 0 <==> PowersRead(ram, now, kMax, skip)
    ensures errs <= 30
    ensures ram.trace == old(ram.trace) + LookTrace(1, |ram.decode| - 1)
  {
    errs := 0;
    var offset := 1;
    ghost var len := |ram.decode| - 1;
    ghost var all := ram.trace + LookTrace(1, len);
    ghost var k := 0;
    LookBegins(ram, now, skip);
    while offset < |ram.decode| - 1
      invariant Looking(ram, now, k, skip, offset, errs) && Ahead(all, ram.trace, LookTrace(offset, len))
      decreases |ram.decode| - 1 - offset
    {
      errs := LookAt(ram, now, k, kMax, skip, testOffset, offset, errs, all);
      offset, k := 2 * offset, k + 1;
    }
    LookDone(ram, now, k, kMax, skip, offset, errs);
    AheadDone(all, ram.trace);
  }

  lemma LookDone(ram: Ram, now: seq<Word>, k: nat, kMax: nat, skip: int, offset: nat, errs: nat)
    requires ram.Valid() && |now| == ram.cells.Length && Looking(ram, now, k, skip, offset, errs)
    requires offset >= |ram.decode| - 1 && Pow2(kMax) >= |ram.decode| - 1
    ensures errs == 0 <==> PowersRead(ram, now, kMax, skip)
  {
    AllPowersRead(ram, now, k, kMax, skip);
  }

  lemma LookBegins(ram: Ram, now: seq<Word>, skip: int)
    requires ram.Valid() && |now| == ram.cells.Length
    ensures Looking(ram, now, 0, skip, 1, 0)
  {
  }

  /** Looks at one offset. */
  method LookAt(ram: Ram, ghost now: seq<Word>, ghost k: nat, ghost kMax: nat, ghost skip: int, testOffset: nat,
                offset: nat, errs: nat, ghost all: seq<Access>) returns (errs': nat)
    requires ram.Valid() && now == ram.cells[..] && Looking(ram, now, k, skip, offset, errs)
    requires offset < |ram.decode| - 1 <= Pow2(kMax) && if skip >= 0 then testOffset == Pow2(skip) else testOffset == 0
    requires Ahead(all, ram.trace, LookTrace(offset, |ram.decode| - 1))
    modifies ram`trace
    ensures Looking(ram, now, k + 1, skip, 2 * offset, errs')
    ensures Ahead(all, ram.trace, LookTrace(2 * offset, |ram.decode| - 1))
  {
    LookStep(ram, now, k, kMax, skip, testOffset, offset, errs);
    LookAhead(all, ram.trace, offset, |ram.decode| - 1);
    var temp := ram.Read(offset);
    errs' := if temp != PATTERN && offset != testOffset then errs + 1 else errs;
  }

  /** The offsets below 2^k were looked at. */
  ghost predicate Looking(ram: Ram, now: seq<Word>, k: nat, skip: int, offset: int, errs: int)
    requires ram.Valid() && |now| == ram.cells.Length
  {
    offset == Pow2(k) && 0 <= errs <= k <= 30 && (errs == 0 <==> PowersRead(ram, now, k, skip))
  }

  lemma LookStep(ram: Ram, now: seq<Word>, k: nat, kMax: nat, skip: int, testOffset: nat, offset: nat, errs: nat)
    requires ram.Valid() && |now| == ram.cells.Length && Looking(ram, now, k, skip, offset, errs)
    requires offset < |ram.decode| - 1 <= Pow2(kMax) && if skip >= 0 then testOffset == Pow2(skip) else testOffset == 0
    ensures var bad := Sense(now[ram.decode[offset]], ram.bits[ram.decode[offset]]) != PATTERN && offset != testOffset;
            Looking(ram, now, k + 1, skip, 2 * offset, if bad then errs + 1 else errs)
  {
    Exponents(k, kMax, |ram.decode| - 1);
    OtherPower(k, skip, testOffset);
    PowersReadNext(ram, now, k, skip);
  }

  lemma PowersReadNext(ram: Ram, now: seq<Word>, k: nat, skip: int)
    requires ram.Valid() && |now| == ram.cells.Length && Pow2(k) < |ram.decode| - 1
    ensures PowersRead(ram, now, k + 1, skip) <==>
            PowersRead(ram, now, k, skip)
            && (k == skip || Sense(now[ram.decode[Pow2(k)]], ram.bits[ram.decode[Pow2(k)]]) == PATTERN)
  {
  }

  lemma AllPowersRead(ram: Ram, now: seq<Word>, k: nat, kMax: nat, skip: int)
    requires ram.Valid() && |now| == ram.cells.Length && Pow2(k) >= |ram.decode| - 1 && Pow2(kMax) >= |ram.decode| - 1
    ensures PowersRead(ram, now, k, skip) <==> PowersRead(ram, now, kMax, skip)
  {
    NoMorePowers(ram, k);
    NoMorePowers(ram, kMax);
  }

  lemma NoMorePowers(ram: Ram, k: nat)
    requires ram.Valid() && Pow2(k) >= |ram.decode| - 1
    ensures forall t: nat :: Pow2(t) < |ram.decode| - 1 ==> t < k
  {
    forall t: nat | t >= k
      ensures Pow2(t) >= |ram.decode| - 1
    {
      if t > k {
        Pow2Strict(k, t);
      }
    }
  }

  lemma {:induction false} Pow2Large(k: nat)
    ensures k >= 30 ==> Pow2(k) >= MAX_WORDS
  {
    if k == 30 {
      Pow2Values();
    } else if k > 30 {
      Pow2Large(k - 1);
    }
  }

  lemma Exponents(k: nat, kMax: nat, len: nat)
    requires Pow2(k) < len <= Pow2(kMax) && len < MAX_WORDS
    ensures k < kMax && k < 30
  {
    if kMax < k {
      Pow2Strict(kMax, k);
    }
    Pow2Large(k);
  }

  /** Word 0, and the power-of-two offsets below 2^k, are distinct from all other power-of-two offsets. */
  ghost predicate DistinctBelow(ram: Ram, k: nat)
    requires ram.Valid()
  {
    forall t: nat :: Pow2(t) < |ram.decode| - 1 ==>
      ram.decode[Pow2(t)] != ram.decode[0] && (t < k ==> DistinctFrom(ram, t))
  }

  lemma AllDistinct(ram: Ram, k: nat)
    requires ram.Valid() && Pow2(k) >= |ram.decode| - 1
    ensures DistinctBelow(ram, k) <==> PowersDistinct(ram)
  {
    NoMorePowers(ram, k);
  }

  /** No word at a power-of-two offset shares the cell of word 0 if all read as the pattern beside its anti-pattern. */
  lemma ZeroIsDistinct(ram: Ram, now: seq<Word>, k: nat)
    requires ram.Valid() && |now| == ram.cells.Length && Pow2(k) >= |ram.decode| - 1
    requires now[ram.decode[0]] == ANTI_PATTERN && PowersHold(ram, now, k, -1)
    ensures DistinctBelow(ram, 0)
  {
    NoMorePowers(ram, k);
  }

  lemma PowerIsDistinct(ram: Ram, now: seq<Word>, k: nat, t: nat)
    requires ram.Valid() && |now| == ram.cells.Length && Pow2(k) >= |ram.decode| - 1 && Pow2(t) < |ram.decode| - 1
    requires now[ram.decode[Pow2(t)]] == ANTI_PATTERN && PowersHold(ram, now, k, t)
    ensures DistinctFrom(ram, t)
  {
    NoMorePowers(ram, k);
  }

  /** Writes the default pattern at each of the power-of-two offsets. */
  method FillPowers(ram: Ram) returns (ghost kMax: nat)
    requires ram.Valid()
    modifies ram.cells, ram`trace
    ensures Pow2(kMax) >= |ram.decode| - 1
    ensures PowersDistinct(ram) ==> PowersHold(ram, ram.cells[..], kMax, -1)
    ensures ram.trace == old(ram.trace) + PowersTrace(1, |ram.decode| - 1)
  {
    var len := |ram.decode| - 1;
    var offset := 1;
    ghost var all := ram.trace + PowersTrace(1, len);
    kMax := 0;
    while offset < len
      invariant offset == Pow2(kMax) && Ahead(all, ram.trace, PowersTrace(offset, len))
      invariant PowersDistinct(ram) ==> PowersHold(ram, ram.cells[..], kMax, -1)
      decreases len - offset
    {
      if PowersDistinct(ram) {
        WritePower(ram, ram.cells[..], kMax, kMax, PATTERN);
      }
      AheadStep(all, ram.trace, [Store(offset, PATTERN)], PowersTrace(2 * offset, len));
      ram.Write(offset, PATTERN);
      offset, kMax := 2 * offset, kMax + 1;
    }
  }

  /** Address bits stuck high: word 0 gets the anti-pattern for a while. */
  method CheckStuckHigh(ram: Ram, ghost kMax: nat) returns (errs: nat)
    requires ram.Valid() && Pow2(kMax) >= |ram.decode| - 1
    modifies ram.cells, ram`trace
    ensures errs <= 30
    ensures PowersDistinct(ram) && old(PowersHold(ram, ram.cells[..], kMax, -1)) ==> PowersHold(ram, ram.cells[..], kMax, -1)
    ensures PowersSound(ram) && PowersDistinct(ram) && old(PowersHold(ram, ram.cells[..], kMax, -1)) ==> errs == 0
    ensures PowersSound(ram) && errs == 0 ==> DistinctBelow(ram, 0)
    ensures ram.trace == old(ram.trace) + ToggleTrace(0, |ram.decode| - 1)
  {
    ghost var before := ram.cells[..];
    ghost var mid;
    errs, mid := Toggle(ram, kMax, -1, 0);
    StuckHighIs(ram, before, mid, kMax, errs);
  }

  /** One word holds the anti-pattern while the power-of-two offsets but one are looked at. */
  method Toggle(ram: Ram, ghost kMax: nat, ghost skip: int, t: nat) returns (errs: nat, ghost mid: seq<Word>)
    requires ram.Valid() && Pow2(kMax) >= |ram.decode| - 1 && t < |ram.decode|
    requires if skip >= 0 then t == Pow2(skip) else t == 0
    modifies ram.cells, ram`trace
    ensures errs <= 30 && mid == old(ram.cells[..])[ram.decode[t] := ANTI_PATTERN]
    ensures ram.cells[..] == mid[ram.decode[t] := PATTERN]
    ensures errs == 0 <==> PowersRead(ram, mid, kMax, skip)
    ensures ram.trace == old(ram.trace) + ToggleTrace(t, |ram.decode| - 1)
  {
    ram.Write(t, ANTI_PATTERN);
    mid := ram.cells[..];
    errs := CheckPowers(ram, mid, kMax, skip, t);
    ram.Write(t, PATTERN);
    Toggled(old(ram.trace), t, |ram.decode| - 1);
  }

  lemma StuckHighIs(ram: Ram, before: seq<Word>, mid: seq<Word>, kMax: nat, errs: nat)
    requires ram.Valid() && |before| == ram.cells.Length && Pow2(kMax) >= |ram.decode| - 1
    requires mid == before[ram.decode[0] := ANTI_PATTERN] && (errs == 0 <==> PowersRead(ram, mid, kMax, -1))
    ensures PowersDistinct(ram) && PowersHold(ram, before, kMax, -1) ==>
              PowersHold(ram, mid[ram.decode[0] := PATTERN], kMax, -1)
    ensures PowersSound(ram) && PowersDistinct(ram) && PowersHold(ram, before, kMax, -1) ==> errs == 0
    ensures PowersSound(ram) && errs == 0 ==> DistinctBelow(ram, 0)
  {
    if PowersSound(ram) {
      SoundPowersRead(ram, mid, kMax, -1);
      if errs == 0 {
        ZeroIsDistinct(ram, mid, kMax);
      }
    }
  }

  lemma ShortedIs(ram: Ram, before: seq<Word>, mid: seq<Word>, kMax: nat, k: nat, errs: nat)
    requires ram.Valid() && |before| == ram.cells.Length && Pow2(k) < |ram.decode| - 1 <= Pow2(kMax)
    requires mid == before[ram.decode[Pow2(k)] := ANTI_PATTERN] && (errs == 0 <==> PowersRead(ram, mid, kMax, k))
    ensures PowersDistinct(ram) && PowersHold(ram, before, kMax, -1) ==>
              PowersHold(ram, mid[ram.decode[Pow2(k)] := PATTERN], kMax, -1)
    ensures PowersSound(ram) && PowersDistinct(ram) && PowersHold(ram, before, kMax, -1) ==> errs == 0
    ensures PowersSound(ram) && errs == 0 ==> DistinctFrom(ram, k)
  {
    Exponents(k, kMax, |ram.decode| - 1);
    if PowersDistinct(ram) {
      WritePower(ram, before, kMax, k, ANTI_PATTERN);
      WritePower(ram, mid, kMax, k, PATTERN);
    }
    if PowersSound(ram) {
      SoundPowersRead(ram, mid, kMax, k);
      if errs == 0 {
        PowerIsDistinct(ram, mid, kMax, k);
      }
    }
  }

  lemma Toggled(before: seq<Access>, t: nat, len: nat)
    ensures before + [Store(t, ANTI_PATTERN)] + LookTrace(1, len) + [Store(t, PATTERN)] == before + ToggleTrace(t, len)
  {
    var x, y, z := [Store(t, ANTI_PATTERN)], LookTrace(1, len), [Store(t, PATTERN)];
    assert before + x + y + z == before + (x + y + z);
  }

  /** Address bits stuck low or shorted: one power-of-two offset gets the anti-pattern for a while. */
  method CheckShorted(ram: Ram, ghost kMax: nat, ghost k: nat, testOffset: nat) returns (errs: nat)
    requires ram.Valid() && Pow2(kMax) >= |ram.decode| - 1 && testOffset == Pow2(k) < |ram.decode| - 1
    modifies ram.cells, ram`trace
    ensures errs <= 30
    ensures PowersDistinct(ram) && old(PowersHold(ram, ram.cells[..], kMax, -1)) ==> PowersHold(ram, ram.cells[..], kMax, -1)
    ensures PowersSound(ram) && PowersDistinct(ram) && old(PowersHold(ram, ram.cells[..], kMax, -1)) ==> errs == 0
    ensures PowersSound(ram) && errs == 0 ==> DistinctFrom(ram, k)
    ensures ram.trace == old(ram.trace) + ToggleTrace(testOffset, |ram.decode| - 1)
  {
    ghost var before := ram.cells[..];
    ghost var mid;
    errs, mid := Toggle(ram, kMax, k, testOffset);
    ShortedIs(ram, before, mid, kMax, k, errs);
  }

  /** On sound cells the address line phase reports nothing exactly when the words it uses have cells of their own. */
  method CheckAddressLines(ram: Ram) returns (errs: nat)
    requires ram.Valid()
    modifies ram.cells, ram`trace
    ensures PowersSound(ram) ==> (errs == 0 <==> PowersDistinct(ram))
    ensures errs <= 930
    ensures ram.trace == old(ram.trace) + AddressTrace(|ram.decode| - 1)
  {
    ghost var len := |ram.decode| - 1;
    ghost var all := ram.trace + AddressTrace(len);
    ghost var kMax := FillPowers(ram);
    errs := CheckStuckHigh(ram, kMax);
    assert old(ram.trace) + AddressTrace(len) == ram.trace + ShortsTrace(1, len);
    var testOffset := 1;
    ghost var k := 0;
    while testOffset < |ram.decode| - 1
      invariant testOffset == Pow2(k) && k <= 30 && errs <= 30 + 30 * k && Ahead(all, ram.trace, ShortsTrace(testOffset, len))
      invariant PowersDistinct(ram) ==> PowersHold(ram, ram.cells[..], kMax, -1)
      invariant PowersSound(ram) && PowersDistinct(ram) ==> errs == 0
      invariant PowersSound(ram) && errs == 0 ==> DistinctBelow(ram, k)
      decreases |ram.decode| - 1 - testOffset
    {
      Exponents(k, kMax, |ram.decode| - 1);
      AheadStep(all, ram.trace, ToggleTrace(testOffset, len), ShortsTrace(2 * testOffset, len));
      var found := CheckShorted(ram, kMax, k, testOffset);
      errs := errs + found;
      testOffset, k := 2 * testOffset, k + 1;
    }
    AllDistinct(ram, k);
  }

  /** `do_mem_test`: it passes exactly when the region is healthy and does not start at address 0's cell. */
  method DoMemTest(ram: Ram) returns (ret: int, errs: nat)
    requires ram.Valid()
    modifies ram.cells, ram`trace
    ensures ret == 0 <==> ram.Healthy() && ram.decode[0] != ram.scratch
    ensures ret == 0 || ret == 1
    ensures ram.ZeroBelow(ram.cells[..], |ram.decode|)
    ensures ram.trace == old(ram.trace) + TestTrace(|ram.decode|)
    ensures errs < WORD_LIMIT  // the 32-bit error counter cannot wrap round to 0
  {
    ghost var n := |ram.decode|;
    errs := CheckDataLines(ram);
    var more := CheckAddressLines(ram);
    if ram.Healthy() {
      HealthyPowers(ram);
    }
    errs := errs + more;
    FillCells(ram);
    more := CheckAndInvertCells(ram);
    errs := errs + more;
    more := CheckAndZeroCells(ram);
    errs := errs + more;
    if errs == 0 {
      PassMeansHealthy(ram);
    }
    PhasesInOrder(old(ram.trace), DataTrace(BIT_PATTERNS), AddressTrace(n - 1), FillTrace(0, n), InvertTrace(0, n),
                  ZeroTrace(0, n));
    ret := if errs != 0 then 1 else 0;
  }

  lemma PhasesInOrder(before: seq<Access>, a: seq<Access>, b: seq<Access>, c: seq<Access>, d: seq<Access>, e: seq<Access>)
    ensures before + a + b + c + d + e == before + (a + b + c + d + e)
  {
  }
}
