/** Files of S-records of every type, and what loading them does: the format stated with its own numbers. */
module SRecordFiles {
  import opened Arith
  import opened Basics
  import opened SRecord
  import opened SRecordTransfer

  // ---------------------------------------------------------------- hexadecimal digits

  /** The character is the digit for n, in either case. */
  ghost predicate IsDigitFor(c: Byte, n: int) {
    (0 <= n < 10 && c == 0x30 + n) || (10 <= n < 16 && (c == 0x41 + n - 10 || c == 0x61 + n - 10))
  }

  lemma DigitIsRead(c: Byte, n: nat)
    ensures Hex1(c) == n <==> IsDigitFor(c, n)
  {
  }

  lemma DigitIsWritten(n: nat)
    requires n < 16
    ensures IsDigitFor(UpperDigit(n), n) && !(0x61 <= UpperDigit(n))
  {
  }

  // ---------------------------------------------------------------- records

  /** A record: the digit of its type, its address and its data. */
  datatype Entry = Entry(kind: nat, addr: nat, data: seq<Byte>)

  /** S1, S2 and S3 have 2, 3 and 4 address bytes, S7, S8 and S9 have 4, 3 and 2, and S0 and S5 have 2. */
  function Width(kind: nat): nat {
    if kind == 1 then 2 else if kind == 2 then 3 else if kind == 3 then 4
    else if kind == 7 then 4 else if kind == 8 then 3 else if kind == 9 then 2
    else 2
  }

  /** The n low bytes of a number, the most significant first. */
  function Big(a: nat, n: nat): (bs: seq<Byte>)
    ensures |bs| == n
  {
    if n == 0 then [] else Big(a / 256, n - 1) + [a % 256]
  }

  function Capacity(n: nat): nat {
    if n == 0 then 1 else 256 * Capacity(n - 1)
  }

  lemma {:induction false} BigReadsBack(a: nat, n: nat)
    requires a < Capacity(n)
    ensures BigEndian(Big(a, n)) == a
  {
    if n > 0 {
      BigReadsBack(a / 256, n - 1);
      assert Big(a, n)[..n - 1] == Big(a / 256, n - 1);
    }
  }

  /** A record that can be written: count records (S5) have no data. */
  ghost predicate Writable(e: Entry) {
    && e.kind in {0, 1, 2, 3, 5, 7, 8, 9} && e.addr < Capacity(Width(e.kind))
    && Width(e.kind) + |e.data| < 255 && (e.kind == 5 ==> e.data == [])
  }

  /** S, type, length, address, data and checksum. */
  function EntryText(e: Entry): Text
    requires Writable(e)
  {
    var address := Big(e.addr, Width(e.kind));
    var n := LengthField(address, e.data);
    RecordText(0x30 + e.kind, n, Body(n, address, e.data))
  }

  lemma WidthIsRead(kind: nat)
    requires kind in {0, 1, 2, 3, 5, 7, 8, 9}
    ensures AddressLength(0x30 + kind) == Width(kind)
  {
  }

  lemma EntryIsRead(e: Entry, eol: Text, rest: Text)
    requires Writable(e) && IsEol(eol)
    ensures ReadLine(EntryText(e) + eol + rest, LINE_ROOM) == Line(EntryText(e), eol[1..] + rest)
    ensures Decode(EntryText(e)) == Record(e.kind, |e.data|, e.addr, e.data)
  {
    var v, address := 0x30 + e.kind, Big(e.addr, Width(e.kind));
    var n := LengthField(address, e.data);
    WidthIsRead(e.kind);
    BigReadsBack(e.addr, Width(e.kind));
    RecordReadsBack(v, address, e.data);
    RecordIsPlain(v, n, Body(n, address, e.data));
    LineIsRead(EntryText(e), eol, rest);
  }

  // ---------------------------------------------------------------- files

  /** Records one after the other, each on its line. */
  function FileText(es: seq<Entry>, eol: Text): Text
    requires forall k :: 0 <= k < |es| ==> Writable(es[k])
  {
    if es == [] then [] else EntryText(es[0]) + eol + FileText(es[1..], eol)
  }

  /** Data records are those of types 1, 2 and 3. */
  predicate HasData(e: Entry) { 1 <= e.kind <= 3 }

  /** Where the data of a record goes: its address plus the offset, in 32 bits. */
  function Target(e: Entry, offset: int): nat { (e.addr + offset) % 0x1_0000_0000 }

  /** The loader after a record. */
  function After(l: Loader, e: Entry, offset: int): Loader {
    if HasData(e) then Take(l, e.addr, e.data, offset) else l
  }

  function AfterAll(l: Loader, es: seq<Entry>, offset: int): Loader
    decreases |es|
  {
    if es == [] then l else AfterAll(After(l, es[0], offset), es[1..], offset)
  }

  lemma EntryStep(e: Entry, eol: Text, rest: Text, l: Loader, offset: int)
    requires Writable(e) && e.kind < 7 && IsEol(eol)
    ensures Load(EntryText(e) + eol + rest, l, offset) == Load(rest, After(l, e, offset), offset)
  {
    EntryIsRead(e, eol, rest);
    LineEndIsSkipped(eol, rest, After(l, e, offset), offset);
  }

  lemma LastStep(e: Entry, eol: Text, rest: Text, l: Loader, offset: int)
    requires Writable(e) && e.kind >= 7 && IsEol(eol)
    ensures Load(EntryText(e) + eol + rest, l, offset) == Loaded(e.addr, Size(l), l, eol[1..] + rest)
  {
    EntryIsRead(e, eol, rest);
  }

  /** Records that do not end the file. */
  ghost predicate Open(es: seq<Entry>) {
    forall k :: 0 <= k < |es| ==> Writable(es[k]) && es[k].kind < 7
  }

  lemma {:induction false} RecordsAreTaken(es: seq<Entry>, eol: Text, rest: Text, l: Loader, offset: int)
    requires Open(es) && IsEol(eol)
    ensures Load(FileText(es, eol) + rest, l, offset) == Load(rest, AfterAll(l, es, offset), offset)
  {
    if es == [] {
      assert [] + rest == rest;
    } else {
      var first, more := EntryText(es[0]) + eol, FileText(es[1..], eol);
      assert first + more + rest == first + (more + rest);
      EntryStep(es[0], eol, more + rest, l, offset);
      RecordsAreTaken(es[1..], eol, rest, After(l, es[0], offset), offset);
    }
  }

  // ---------------------------------------------------------------- what is in memory then

  /** The record puts a byte at p. */
  ghost predicate Covers(e: Entry, offset: int, p: nat) {
    HasData(e) && Target(e, offset) <= p < Target(e, offset) + |e.data|
  }

  ghost predicate NoneCovers(es: seq<Entry>, offset: int, p: nat) {
    forall k :: 0 <= k < |es| ==> !Covers(es[k], offset, p)
  }

  /** Record k is the last one to put a byte at p. */
  ghost predicate LastCovers(es: seq<Entry>, offset: int, k: nat, p: nat) {
    k < |es| && Covers(es[k], offset, p) && NoneCovers(es[k + 1..], offset, p)
  }

  lemma {:induction false} Untouched(l: Loader, es: seq<Entry>, offset: int, p: nat)
    requires NoneCovers(es, offset, p)
    ensures p in AfterAll(l, es, offset).mem <==> p in l.mem
    ensures p in l.mem ==> AfterAll(l, es, offset).mem[p] == l.mem[p]
    decreases |es|
  {
    if es != [] {
      if HasData(es[0]) {
        StoredAt(l.mem, Target(es[0], offset), es[0].data, p);
      }
      Untouched(After(l, es[0], offset), es[1..], offset, p);
    }
  }

  lemma {:induction false} Overwritten(l: Loader, es: seq<Entry>, offset: int, k: nat, p: nat)
    requires LastCovers(es, offset, k, p)
    ensures p in AfterAll(l, es, offset).mem
    ensures AfterAll(l, es, offset).mem[p] == es[k].data[p - Target(es[k], offset)]
    decreases |es|
  {
    if k == 0 {
      StoredAt(l.mem, Target(es[0], offset), es[0].data, p);
      Untouched(After(l, es[0], offset), es[1..], offset, p);
    } else {
      assert es[1..][k - 1] == es[k] && es[1..][k..] == es[k + 1..];
      Overwritten(After(l, es[0], offset), es[1..], offset, k - 1, p);
    }
  }

  /** Each address holds what the last record for it brought, and what it held before if there is none. */
  ghost predicate InPlace(before: Memory, after: Memory, es: seq<Entry>, offset: int) {
    && (forall k: nat, p: nat :: LastCovers(es, offset, k, p) ==>
          p in after && after[p] == es[k].data[p - Target(es[k], offset)])
    && forall p: nat :: NoneCovers(es, offset, p) ==> (p in after <==> p in before) && (p in before ==> after[p] == before[p])
  }

  lemma AllInPlace(l: Loader, es: seq<Entry>, offset: int)
    ensures InPlace(l.mem, AfterAll(l, es, offset).mem, es, offset)
  {
    var after := AfterAll(l, es, offset).mem;
    forall k: nat, p: nat | LastCovers(es, offset, k, p)
      ensures p in after && after[p] == es[k].data[p - Target(es[k], offset)]
    {
      Overwritten(l, es, offset, k, p);
    }
    forall p: nat | NoneCovers(es, offset, p)
      ensures (p in after <==> p in l.mem) && (p in l.mem ==> after[p] == l.mem[p])
    {
      Untouched(l, es, offset, p);
    }
  }

  // ---------------------------------------------------------------- what is reported

  function LastByte(e: Entry, offset: int): nat { (Target(e, offset) + |e.data| - 1) % 0x1_0000_0000 }

  /** The lowest of the first addresses and the highest of the last ones, from 2^32 - 1 and 0 on. */
  ghost predicate Bounds(start: nat, end: nat, start0: nat, end0: nat, es: seq<Entry>, offset: int) {
    && start <= start0 && end >= end0
    && (forall k :: 0 <= k < |es| && HasData(es[k]) ==> start <= Target(es[k], offset) && LastByte(es[k], offset) <= end)
    && (start == start0 || exists k :: 0 <= k < |es| && HasData(es[k]) && start == Target(es[k], offset))
    && (end == end0 || exists k :: 0 <= k < |es| && HasData(es[k]) && end == LastByte(es[k], offset))
  }

  lemma {:induction false} BoundsOf(l: Loader, es: seq<Entry>, offset: int)
    ensures var m := AfterAll(l, es, offset); Bounds(m.start, m.end, l.start, l.end, es, offset)
    decreases |es|
  {
    if es != [] {
      var n := After(l, es[0], offset);
      BoundsOf(n, es[1..], offset);
      BoundsMore(l, n, AfterAll(l, es, offset), es, offset);
    }
  }

  lemma BoundsMore(l: Loader, n: Loader, m: Loader, es: seq<Entry>, offset: int)
    requires es != [] && n == After(l, es[0], offset) && Bounds(m.start, m.end, n.start, n.end, es[1..], offset)
    ensures Bounds(m.start, m.end, l.start, l.end, es, offset)
  {
    var more := es[1..];
    assert forall k :: 1 <= k < |es| ==> es[k] == more[k - 1];
    if m.start != n.start {
      var k :| 0 <= k < |more| && HasData(more[k]) && m.start == Target(more[k], offset);
      assert es[k + 1] == more[k];
    }
    if m.end != n.end {
      var k :| 0 <= k < |more| && HasData(more[k]) && m.end == LastByte(more[k], offset);
      assert es[k + 1] == more[k];
    }
  }

  // ---------------------------------------------------------------- the laws of loading

  lemma FileEnds(es: seq<Entry>, last: Entry, eol: Text, rest: Text, l: Loader, offset: int)
    requires Open(es) && Writable(last) && last.kind >= 7 && IsEol(eol)
    ensures var m := AfterAll(l, es, offset);
            Load(FileText(es, eol) + (EntryText(last) + eol + rest), l, offset)
            == Loaded(last.addr, Size(m), m, eol[1..] + rest)
  {
    RecordsAreTaken(es, eol, EntryText(last) + eol + rest, l, offset);
    LastStep(last, eol, rest, AfterAll(l, es, offset), offset);
  }

  /**
   A file of records of any types, closed by an S7, S8 or S9: the data of every S1, S2 and S3 is put at its address plus the
   offset, later records winning, and nothing else changes. The address of the closing record is returned, and the
   size spans the lowest and the highest address loaded.
   */
  lemma FileIsLoaded(es: seq<Entry>, last: Entry, eol: Text, rest: Text, mem: Memory, offset: int)
    requires Open(es) && Writable(last) && last.kind >= 7 && IsEol(eol)
    ensures exists m: Loader ::
              && Load(FileText(es, eol) + (EntryText(last) + eol + rest), Fresh(mem), offset)
                 == Loaded(last.addr, (m.end - m.start + 1) % 0x1_0000_0000, m, eol[1..] + rest)
              && InPlace(mem, m.mem, es, offset) && Bounds(m.start, m.end, 0xFFFF_FFFF, 0, es, offset)
  {
    FileEnds(es, last, eol, rest, Fresh(mem), offset);
    var m := AfterFresh(mem, es, offset);
  }

  lemma AfterFresh(mem: Memory, es: seq<Entry>, offset: int) returns (m: Loader)
    ensures m == AfterAll(Fresh(mem), es, offset) && Size(m) == (m.end - m.start + 1) % 0x1_0000_0000
    ensures InPlace(mem, m.mem, es, offset) && Bounds(m.start, m.end, 0xFFFF_FFFF, 0, es, offset)
  {
    m := AfterAll(Fresh(mem), es, offset);
    AllInPlace(Fresh(mem), es, offset);
    BoundsOf(Fresh(mem), es, offset);
  }

  /** A record with its k-th byte behind the length field replaced by b. */
  function DamagedText(e: Entry, k: nat, b: Byte): Text
    requires Writable(e) && k <= Width(e.kind) + |e.data|
  {
    var address := Big(e.addr, Width(e.kind));
    var n := LengthField(address, e.data);
    RecordText(0x30 + e.kind, n, Body(n, address, e.data)[k := b])
  }

  lemma DamagedIsPlain(e: Entry, k: nat, b: Byte)
    requires Writable(e) && k <= Width(e.kind) + |e.data|
    ensures Plain(DamagedText(e, k, b)) && |DamagedText(e, k, b)| < LINE_ROOM
  {
    var address := Big(e.addr, Width(e.kind));
    var n := LengthField(address, e.data);
    RecordIsPlain(0x30 + e.kind, n, Body(n, address, e.data)[k := b]);
  }

  lemma DamagedIsBad(e: Entry, k: nat, b: Byte)
    requires Writable(e) && k <= Width(e.kind) + |e.data| && DamagedText(e, k, b) != EntryText(e)
    ensures Decode(DamagedText(e, k, b)) == BadChecksum
  {
    var address := Big(e.addr, Width(e.kind));
    var n := LengthField(address, e.data);
    var body := Body(n, address, e.data);
    assert body[k := body[k]] == body;
    WidthIsRead(e.kind);
    DamageIsNoticed(0x30 + e.kind, address, e.data, k, b);
  }

  lemma DamageStep(e: Entry, k: nat, b: Byte, eol: Text, rest: Text, l: Loader, offset: int)
    requires Writable(e) && k <= Width(e.kind) + |e.data| && IsEol(eol) && DamagedText(e, k, b) != EntryText(e)
    ensures Load(DamagedText(e, k, b) + eol + rest, l, offset) == Aborted(l, eol[1..] + rest)
  {
    DamagedIsPlain(e, k, b);
    DamagedIsBad(e, k, b);
    LineIsRead(DamagedText(e, k, b), eol, rest);
  }

  /** A record with one byte behind its length field replaced ends the download there; what came before it stays. */
  lemma DamageAborts(es: seq<Entry>, e: Entry, k: nat, b: Byte, eol: Text, rest: Text, mem: Memory, offset: int)
    requires Open(es) && Writable(e) && IsEol(eol) && k <= Width(e.kind) + |e.data| && DamagedText(e, k, b) != EntryText(e)
    ensures exists m: Loader ::
              && Load(FileText(es, eol) + (DamagedText(e, k, b) + eol + rest), Fresh(mem), offset)
                 == Aborted(m, eol[1..] + rest)
              && InPlace(mem, m.mem, es, offset)
  {
    var m := AfterAll(Fresh(mem), es, offset);
    RecordsAreTaken(es, eol, DamagedText(e, k, b) + eol + rest, Fresh(mem), offset);
    DamageStep(e, k, b, eol, rest, m, offset);
    AllInPlace(Fresh(mem), es, offset);
    assert InPlace(mem, m.mem, es, offset);
  }

  /** A zero or ^C in a line ends the download there. */
  lemma {:induction false} StopsAt(t: Text, c: Byte, rest: Text, room: nat)
    requires Plain(t) && |t| < room && (c == 0 || c == 3)
    ensures ReadLine(t + ([c] + rest), room) == Abort(rest)
  {
    var input := t + ([c] + rest);
    if t == [] {
      assert input[1..] == rest;
    } else {
      assert input[1..] == t[1..] + ([c] + rest);
      StopsAt(t[1..], c, rest, room - 1);
    }
  }

  lemma ControlAborts(es: seq<Entry>, t: Text, c: Byte, eol: Text, rest: Text, mem: Memory, offset: int)
    requires Open(es) && IsEol(eol) && Plain(t) && |t| < LINE_ROOM && (c == 0 || c == 3)
    ensures exists m: Loader ::
              && Load(FileText(es, eol) + (t + ([c] + rest)), Fresh(mem), offset) == Aborted(m, rest)
              && InPlace(mem, m.mem, es, offset)
  {
    var m := AfterAll(Fresh(mem), es, offset);
    StopsAt(t, c, rest, LINE_ROOM);
    RecordsAreTaken(es, eol, t + ([c] + rest), Fresh(mem), offset);
    AllInPlace(Fresh(mem), es, offset);
    assert InPlace(mem, m.mem, es, offset);
  }

  /** A line that fills the buffer is cut there, and what follows is taken for the next line. */
  lemma {:induction false} LongLine(t: Text, rest: Text)
    requires Plain(t)
    ensures ReadLine(t + rest, |t|) == Line(t, rest)
  {
    if t == [] {
      assert t + rest == rest;
    } else {
      assert (t + rest)[1..] == t[1..] + rest;
      LongLine(t[1..], rest);
      assert [t[0]] + t[1..] == t;
    }
  }

  // ---------------------------------------------------------------- records in writing

  lemma {:induction false} HexAt(bs: seq<Byte>, i: nat)
    requires i < |bs|
    ensures HexBytes(bs)[2 * i] == UpperDigit(bs[i] / 16) && HexBytes(bs)[2 * i + 1] == UpperDigit(bs[i] % 16)
  {
    if i < |bs| - 1 {
      HexAt(bs[..|bs| - 1], i);
    }
  }

  /** Every record as it stands on its line: S, the type, and two digits for each byte from the length on. */
  lemma RecordSpelled(v: Byte, n: Byte, body: seq<Byte>, i: nat)
    requires i < |body|
    ensures var t := RecordText(v, n, body);
            && t[0] == 'S' as int && t[1] == v && IsDigitFor(t[2], n / 16) && IsDigitFor(t[3], n % 16)
            && IsDigitFor(t[4 + 2 * i], body[i] / 16) && IsDigitFor(t[5 + 2 * i], body[i] % 16)
  {
    var x, h := [0x53, v] + UpperByte(n), HexBytes(body);
    HexAt(body, i);
    assert (x + h)[4 + 2 * i] == h[2 * i] && (x + h)[5 + 2 * i] == h[2 * i + 1];
  }

  /** The first and the last record of every save: S0030000FC and S70500000000FA. */
  lemma SavedFrame()
    ensures StartRecord() == RecordText('0' as int, 3, [0, 0, 0xFC])
    ensures EndRecord() == RecordText('7' as int, 5, [0, 0, 0, 0, 0xFA])
  {
    SumOfZeros([0, 0] + []);
    SumOfZeros(WordBytes(0) + []);
    assert Body(3, [0, 0], []) == [0, 0, 0xFC] && Body(5, WordBytes(0), []) == [0, 0, 0, 0, 0xFA];
  }

  lemma {:induction false} SumOfZeros(bs: seq<Byte>)
    requires forall i :: 0 <= i < |bs| ==> bs[i] == 0
    ensures Sum(bs) == 0
  {
    if bs != [] {
      SumOfZeros(bs[..|bs| - 1]);
    }
  }
}
