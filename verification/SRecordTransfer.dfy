/** Saving memory as S-records and loading it again, common/cmd_load.c. */
module SRecordTransfer {
  import opened Basics
  import opened SRecord

  const LINE_ROOM := 516          // SREC_MAXRECLEN
  const BYTES_PER_RECORD := 16    // SREC_BYTES_PER_RECORD
  const RECORD_BUFFER := 2 * BYTES_PER_RECORD + 16

  type Memory = map<nat, Byte>

  // ---------------------------------------------------------------- lines

  /** A line taken from the pending input, an abort, or input that has run out. */
  datatype Line = Line(text: Text, rest: Text) | Abort(rest: Text) | Starved

  /** The next line, cut after `room` characters. */
  function ReadLine(input: Text, room: nat): (r: Line)
    ensures r.Line? && room > 0 ==> |r.rest| < |input|
  {
    if room == 0 then Line([], input)
    else if input == [] then Starved
    else
      var c := input[0];
      if c == 13 || c == 10 then Line([], input[1..])
      else if c == 0 || c == 3 then Abort(input[1..])
      else
        var r := ReadLine(input[1..], room - 1);
        if r.Line? then r.(text := [c] + r.text) else r
  }

  /** Text that goes through `ReadLine` unchanged. */
  ghost predicate Plain(t: Text) {
    forall i :: 0 <= i < |t| ==> t[i] > 0x20
  }

  lemma {:induction false} PlainLine(t: Text, c: Byte, rest: Text, room: nat)
    requires Plain(t) && |t| < room && (c == 13 || c == 10)
    ensures ReadLine(t + ([c] + rest), room) == Line(t, rest)
  {
    var input := t + ([c] + rest);
    if t == [] {
      assert input[1..] == rest;
    } else {
      assert input[1..] == t[1..] + ([c] + rest);
      PlainLine(t[1..], c, rest, room - 1);
      assert [t[0]] + t[1..] == t;
    }
  }

  lemma {:induction false} HexIsPlain(bs: seq<Byte>)
    ensures Plain(HexBytes(bs))
  {
    if bs != [] {
      HexIsPlain(bs[..|bs| - 1]);
    }
  }

  // ---------------------------------------------------------------- loading

  /** Memory with data copied to address a. */
  function Store(mem: Memory, a: nat, data: seq<Byte>): Memory {
    if data == [] then mem else Store(mem, a, data[..|data| - 1])[a + |data| - 1 := data[|data| - 1]]
  }

  lemma {:induction false} StoreConcat(mem: Memory, a: nat, x: seq<Byte>, y: seq<Byte>)
    ensures Store(Store(mem, a, x), a + |x|, y) == Store(mem, a, x + y)
  {
    if y == [] {
      assert x + y == x;
    } else {
      var init := y[..|y| - 1];
      assert (x + y)[..|x + y| - 1] == x + init;
      StoreConcat(mem, a, x, init);
    }
  }

  /** What a store does to each address: the data from a on, nothing elsewhere. */
  lemma {:induction false} StoredAt(mem: Memory, a: nat, data: seq<Byte>, p: nat)
    ensures a <= p < a + |data| ==> p in Store(mem, a, data) && Store(mem, a, data)[p] == data[p - a]
    ensures !(a <= p < a + |data|) ==>
              (p in Store(mem, a, data) <==> p in mem) && (p in mem ==> Store(mem, a, data)[p] == mem[p])
  {
    if data != [] {
      StoredAt(mem, a, data[..|data| - 1], p);
    }
  }

  /** Memory, and the lowest and highest address loaded so far. */
  datatype Loader = Loader(mem: Memory, start: nat, end: nat)

  /** How a download ends; `Wild` is a data record whose length field is too small for its own address. */
  datatype Outcome =
    | Loaded(entry: nat, size: nat, l: Loader, rest: Text)
    | Aborted(l: Loader, rest: Text)
    | Waiting(l: Loader)
    | Wild(l: Loader)

  predicate IsData(kind: nat) { kind == 1 || kind == 2 || kind == 3 }
  predicate IsEnd(kind: nat) { kind == 7 || kind == 8 || kind == 9 }

  /** A data record stored. */
  function Take(l: Loader, addr: nat, data: seq<Byte>, offset: int): Loader {
    var a := (addr + offset) % WORD_LIMIT;
    var last := (a + |data| - 1) % WORD_LIMIT;
    Loader(Store(l.mem, a, data), if a < l.start then a else l.start, if last > l.end then last else l.end)
  }

  function Size(l: Loader): nat {
    (l.end - l.start + 1) % WORD_LIMIT
  }

  /** What one decoded line does to a download. */
  datatype Step = More(l: Loader) | Finished(entry: nat) | Refused | Runaway

  function Next(d: Decoded, l: Loader, offset: int): Step {
    match d
    case Record(kind, count, addr, data) =>
      if IsData(kind) then if count < 0 then Runaway else More(Take(l, addr, data, offset))
      else if IsEnd(kind) then Finished(addr)
      else More(l)
    case Empty => More(l)
    case _ => Refused
  }

  /** The whole of `load_serial` on pending input. */
  function Load(input: Text, l: Loader, offset: int): Outcome
    decreases |input|
  {
    match ReadLine(input, LINE_ROOM)
    case Starved => Waiting(l)
    case Abort(rest) => Aborted(l, rest)
    case Line(text, rest) =>
      match Next(Decode(text), l, offset)
      case More(m) => Load(rest, m, offset)
      case Finished(entry) => Loaded(entry, Size(l), l, rest)
      case Refused => Aborted(l, rest)
      case Runaway => Wild(l)
  }

  // ---------------------------------------------------------------- saving

  /** One record of at most 16 bytes, as written. */
  function DataRecord(address: nat, data: seq<Byte>): (t: Text)
    requires |data| <= BYTES_PER_RECORD
    ensures |t| == 14 + 2 * |data|
  {
    var n := LengthField(WordBytes(address), data);
    RecordText(0x33, n, Body(n, WordBytes(address), data))
  }

  /** S0030000FC */
  function StartRecord(): Text { RecordText(0x30, 3, Body(3, [0, 0], [])) }

  /** S70500000000FA */
  function EndRecord(): Text { RecordText(0x37, 5, Body(5, WordBytes(0), [])) }

  /** The data records for the bytes from `address` on. */
  function DataRecords(address: nat, bytes: seq<Byte>, eol: Text): Text
    decreases |bytes|
  {
    if bytes == [] then []
    else if |bytes| <= BYTES_PER_RECORD then DataRecord(address, bytes) + eol
    else DataRecord(address, bytes[..BYTES_PER_RECORD]) + eol
         + DataRecords(address + BYTES_PER_RECORD, bytes[BYTES_PER_RECORD..], eol)
  }

  /** Everything a save sends. */
  function Saved(address: nat, bytes: seq<Byte>, eol: Text): Text {
    StartRecord() + eol + (DataRecords(address, bytes, eol) + (EndRecord() + eol))
  }

  /** The line end as written, or as a console driver may expand it. */
  ghost predicate IsEol(eol: Text) {
    eol == [10] || eol == [13] || eol == [13, 10]
  }

  /** A data record with its line end and the terminating zero fits its buffer; a full one fills it. */
  lemma RecordFits(address: nat, data: seq<Byte>)
    requires |data| <= BYTES_PER_RECORD
    ensures |DataRecord(address, data)| + 2 <= RECORD_BUFFER
    ensures |DataRecord(address, data)| + 2 == RECORD_BUFFER <==> |data| == BYTES_PER_RECORD
  {
  }

  lemma LineIsRead(t: Text, eol: Text, rest: Text)
    requires Plain(t) && |t| < LINE_ROOM && IsEol(eol)
    ensures ReadLine(t + eol + rest, LINE_ROOM) == Line(t, eol[1..] + rest)
  {
    var r := eol[1..] + rest;
    assert t + eol + rest == t + ([eol[0]] + r);
    PlainLine(t, eol[0], r, LINE_ROOM);
  }

  /** What is left of a line end makes no difference: it is an empty line. */
  lemma LineEndIsSkipped(eol: Text, rest: Text, l: Loader, offset: int)
    requires IsEol(eol)
    ensures Load(eol[1..] + rest, l, offset) == Load(rest, l, offset)
  {
    var r := eol[1..] + rest;
    if |eol| == 1 {
      assert r == rest;
    } else {
      assert r == [] + ([10] + rest);
      PlainLine([], 10, rest, LINE_ROOM);
      assert Decode([]) == Empty;
    }
  }

  lemma RecordIsPlain(v: Byte, n: Byte, body: seq<Byte>)
    requires v > 0x20
    ensures Plain(RecordText(v, n, body))
  {
    HexIsPlain(body);
  }

  lemma RecordIsRead(v: Byte, address: seq<Byte>, data: seq<Byte>, eol: Text, rest: Text)
    requires AddressLength(v) == |address| > 0 && |address| + |data| < 255 && v != 0x35 && IsEol(eol)
    ensures var n := LengthField(address, data);
            var t := RecordText(v, n, Body(n, address, data));
            && ReadLine(t + eol + rest, LINE_ROOM) == Line(t, eol[1..] + rest)
            && Decode(t) == Record(v - 0x30, |data|, BigEndian(address), data)
  {
    var n := LengthField(address, data);
    RecordIsPlain(v, n, Body(n, address, data));
    RecordReadsBack(v, address, data);
    LineIsRead(RecordText(v, n, Body(n, address, data)), eol, rest);
  }

  lemma DataStep(address: nat, data: seq<Byte>, eol: Text, rest: Text, l: Loader, offset: int)
    requires address < WORD_LIMIT && |data| <= BYTES_PER_RECORD && IsEol(eol)
    ensures Load(DataRecord(address, data) + eol + rest, l, offset) == Load(rest, Take(l, address, data, offset), offset)
  {
    RecordIsRead(0x33, WordBytes(address), data, eol, rest);
    AddressReadsBack(address);
    LineEndIsSkipped(eol, rest, Take(l, address, data, offset), offset);
  }

  lemma StartStep(eol: Text, rest: Text, l: Loader, offset: int)
    requires IsEol(eol)
    ensures Load(StartRecord() + eol + rest, l, offset) == Load(rest, l, offset)
  {
    RecordIsRead(0x30, [0, 0], [], eol, rest);
    LineEndIsSkipped(eol, rest, l, offset);
  }

  lemma EndStep(eol: Text, rest: Text, l: Loader, offset: int)
    requires IsEol(eol)
    ensures Load(EndRecord() + eol + rest, l, offset) == Loaded(0, Size(l), l, eol[1..] + rest)
  {
    RecordIsRead(0x37, WordBytes(0), [], eol, rest);
    AddressReadsBack(0);
  }

  /** All bytes taken at once, at address a. */
  function TakeAll(l: Loader, a: nat, bytes: seq<Byte>): Loader {
    if bytes == [] then l
    else Loader(Store(l.mem, a, bytes), if a < l.start then a else l.start,
                if a + |bytes| - 1 > l.end then a + |bytes| - 1 else l.end)
  }

  lemma TakeIsTakeAll(l: Loader, address: nat, data: seq<Byte>, offset: int, a: nat)
    requires data != [] && a == address + offset && a + |data| <= WORD_LIMIT
    ensures Take(l, address, data, offset) == TakeAll(l, a, data)
  {
  }

  lemma DataIsTaken(address: nat, data: seq<Byte>, eol: Text, rest: Text, l: Loader, offset: int, a: nat)
    requires address < WORD_LIMIT && 0 < |data| <= BYTES_PER_RECORD && IsEol(eol)
    requires a == address + offset && a + |data| <= WORD_LIMIT
    ensures Load(DataRecord(address, data) + eol + rest, l, offset) == Load(rest, TakeAll(l, a, data), offset)
  {
    DataStep(address, data, eol, rest, l, offset);
    TakeIsTakeAll(l, address, data, offset, a);
  }

  lemma FirstDataRecord(address: nat, bytes: seq<Byte>, eol: Text, rest: Text)
    requires |bytes| > BYTES_PER_RECORD
    ensures DataRecords(address, bytes, eol) + rest
         == DataRecord(address, bytes[..BYTES_PER_RECORD]) + eol
            + (DataRecords(address + BYTES_PER_RECORD, bytes[BYTES_PER_RECORD..], eol) + rest)
  {
    var r := DataRecord(address, bytes[..BYTES_PER_RECORD]) + eol;
    var more := DataRecords(address + BYTES_PER_RECORD, bytes[BYTES_PER_RECORD..], eol);
    assert r + more + rest == r + (more + rest);
  }

  lemma TakeAllConcat(l: Loader, a: nat, x: seq<Byte>, y: seq<Byte>)
    requires x != []
    ensures TakeAll(TakeAll(l, a, x), a + |x|, y) == TakeAll(l, a, x + y)
  {
    StoreConcat(l.mem, a, x, y);
    if y == [] {
      assert x + y == x;
    }
  }

  /** Two downloads that end alike. */
  ghost predicate Alike(x: Text, l: Loader, y: Text, m: Loader, offset: int) {
    Load(x, l, offset) == Load(y, m, offset)
  }

  lemma FirstIsTaken(address: nat, bytes: seq<Byte>, eol: Text, rest: Text, l: Loader, offset: int, a: nat)
    requires BYTES_PER_RECORD < |bytes| && address + |bytes| <= WORD_LIMIT && IsEol(eol)
    requires a == address + offset && a + |bytes| <= WORD_LIMIT
    ensures Alike(DataRecords(address, bytes, eol) + rest, l,
                  DataRecords(address + BYTES_PER_RECORD, bytes[BYTES_PER_RECORD..], eol) + rest,
                  TakeAll(l, a, bytes[..BYTES_PER_RECORD]), offset)
  {
    FirstDataRecord(address, bytes, eol, rest);
    DataIsTaken(address, bytes[..BYTES_PER_RECORD], eol,
                DataRecords(address + BYTES_PER_RECORD, bytes[BYTES_PER_RECORD..], eol) + rest, l, offset, a);
  }

  lemma LastIsTaken(address: nat, bytes: seq<Byte>, eol: Text, rest: Text, l: Loader, offset: int, a: nat)
    requires |bytes| <= BYTES_PER_RECORD && address + |bytes| <= WORD_LIMIT && IsEol(eol)
    requires a == address + offset && a + |bytes| <= WORD_LIMIT
    ensures Alike(DataRecords(address, bytes, eol) + rest, l, rest, TakeAll(l, a, bytes), offset)
  {
    if bytes == [] {
      assert [] + rest == rest;
    } else {
      DataIsTaken(address, bytes, eol, rest, l, offset, a);
    }
  }

  /** Loading data records puts their bytes in place, however many records there are. */
  lemma {:induction false} DataIsLoaded(address: nat, bytes: seq<Byte>, eol: Text, rest: Text, l: Loader, offset: int,
                                        a: nat)
    requires address + |bytes| <= WORD_LIMIT && IsEol(eol) && a == address + offset && a + |bytes| <= WORD_LIMIT
    ensures Alike(DataRecords(address, bytes, eol) + rest, l, rest, TakeAll(l, a, bytes), offset)
    decreases |bytes|
  {
    if |bytes| <= BYTES_PER_RECORD {
      LastIsTaken(address, bytes, eol, rest, l, offset, a);
    } else {
      var x, y := bytes[..BYTES_PER_RECORD], bytes[BYTES_PER_RECORD..];
      FirstIsTaken(address, bytes, eol, rest, l, offset, a);
      DataIsLoaded(address + BYTES_PER_RECORD, y, eol, rest, TakeAll(l, a, x), offset, a + BYTES_PER_RECORD);
      TakeAllConcat(l, a, x, y);
      assert x + y == bytes;
    }
  }

  /** The loader before the first record. */
  function Fresh(mem: Memory): Loader { Loader(mem, WORD_LIMIT - 1, 0) }

  lemma SavedConcat(address: nat, bytes: seq<Byte>, eol: Text, rest: Text)
    ensures Saved(address, bytes, eol) + rest
         == StartRecord() + eol + (DataRecords(address, bytes, eol) + (EndRecord() + eol + rest))
  {
    var x, y, z := StartRecord() + eol, DataRecords(address, bytes, eol), EndRecord() + eol;
    assert x + (y + z) + rest == x + (y + (z + rest));
  }

  lemma SavedIsLoaded(address: nat, bytes: seq<Byte>, eol: Text, rest: Text, mem: Memory, offset: int, a: nat)
    requires address + |bytes| <= WORD_LIMIT && IsEol(eol) && a == address + offset && a + |bytes| <= WORD_LIMIT
    ensures var l := TakeAll(Fresh(mem), a, bytes);
            Load(Saved(address, bytes, eol) + rest, Fresh(mem), offset) == Loaded(0, Size(l), l, eol[1..] + rest)
  {
    var records, end := DataRecords(address, bytes, eol), EndRecord() + eol + rest;
    SavedConcat(address, bytes, eol, rest);
    StartStep(eol, records + end, Fresh(mem), offset);
    DataIsLoaded(address, bytes, eol, end, Fresh(mem), offset, a);
    EndStep(eol, rest, TakeAll(Fresh(mem), a, bytes), offset);
  }

  /** The bytes stand at a, and everything else is as before. */
  ghost predicate OnlyStored(before: Memory, after: Memory, a: nat, bytes: seq<Byte>) {
    forall p: nat ::
      if a <= p < a + |bytes| then p in after && after[p] == bytes[p - a]
      else (p in after <==> p in before) && (p in before ==> after[p] == before[p])
  }

  lemma StoreIsOnlyStored(mem: Memory, a: nat, bytes: seq<Byte>)
    ensures OnlyStored(mem, Store(mem, a, bytes), a, bytes)
  {
    forall p: nat
      ensures var after := Store(mem, a, bytes);
              if a <= p < a + |bytes| then p in after && after[p] == bytes[p - a]
              else (p in after <==> p in mem) && (p in mem ==> after[p] == mem[p])
    {
      StoredAt(mem, a, bytes, p);
    }
  }

  /** The size a download of these bytes reports; the counters for no data at all give 2. */
  function ReportedSize(bytes: seq<Byte>): nat {
    if bytes == [] then 2 else |bytes| % WORD_LIMIT
  }

  lemma AllTaken(mem: Memory, a: nat, bytes: seq<Byte>)
    requires a + |bytes| <= WORD_LIMIT
    ensures TakeAll(Fresh(mem), a, bytes).mem == Store(mem, a, bytes)
    ensures Size(TakeAll(Fresh(mem), a, bytes)) == ReportedSize(bytes)
  {
  }

  /**
   Loading what was saved puts the same bytes at the same place, shifted by the offset, and changes nothing else.
   It reports the number of bytes as the size (modulo 2^32), unless there were none: then it reports two.
   Nothing behind the last record is read.
   */
  lemma SaveThenLoad(address: nat, bytes: seq<Byte>, eol: Text, rest: Text, mem: Memory, offset: int, a: nat)
    requires address + |bytes| <= WORD_LIMIT && IsEol(eol) && a == address + offset && a + |bytes| <= WORD_LIMIT
    ensures exists l: Loader :: OnlyStored(mem, l.mem, a, bytes)
              && Load(Saved(address, bytes, eol) + rest, Fresh(mem), offset)
              == Loaded(0, ReportedSize(bytes), l, eol[1..] + rest)
  {
    SavedIsLoaded(address, bytes, eol, rest, mem, offset, a);
    AllTaken(mem, a, bytes);
    StoreIsOnlyStored(mem, a, bytes);
    assert OnlyStored(mem, TakeAll(Fresh(mem), a, bytes).mem, a, bytes);
  }

  // ---------------------------------------------------------------- the save loop

  lemma {:induction false} HexConcat(x: seq<Byte>, y: seq<Byte>)
    ensures HexBytes(x + y) == HexBytes(x) + HexBytes(y)
  {
    if y == [] {
      assert x + y == x;
    } else {
      assert (x + y)[..|x + y| - 1] == x + y[..|y| - 1];
      HexConcat(x, y[..|y| - 1]);
    }
  }

  lemma HexSnoc(x: seq<Byte>, b: Byte)
    ensures HexBytes(x + [b]) == HexBytes(x) + UpperByte(b) && Sum(x + [b]) == Sum(x) + b
  {
    assert (x + [b])[..|x|] == x;
  }

  /** The fields printed one after the other make the record. */
  lemma PrintedFields(v: Byte, n: Byte, address: seq<Byte>, data: seq<Byte>, checksum: Byte)
    requires checksum == Checksum(n, address + data)
    ensures [0x53, v] + UpperByte(n) + HexBytes(address) + HexBytes(data) + UpperByte(checksum)
         == RecordText(v, n, Body(n, address, data))
  {
    HexConcat(address, data);
    HexSnoc(address + data, checksum);
    Regroup([0x53, v] + UpperByte(n), HexBytes(address), HexBytes(data), UpperByte(checksum));
  }

  lemma Regroup(x: Text, y: Text, z: Text, w: Text)
    ensures x + y + z + w == x + (y + z + w)
  {
  }

  lemma AddressSum(a: nat)
    ensures Sum(WordBytes(a)) == a % 256 + a / 256 % 256 + a / 256 / 256 % 256 + a / 256 / 256 / 256 % 256
  {
    var bs := WordBytes(a);
    assert bs == [] + [bs[0]] + [bs[1]] + [bs[2]] + [bs[3]];
    HexSnoc([], bs[0]);
    HexSnoc([] + [bs[0]], bs[1]);
    HexSnoc([] + [bs[0]] + [bs[1]], bs[2]);
    HexSnoc([] + [bs[0]] + [bs[1]] + [bs[2]], bs[3]);
  }

  lemma PrintedData(a: nat, data: seq<Byte>, length: Byte, checksum: Byte)
    requires |data| <= BYTES_PER_RECORD && length == 5 + |data|
    requires checksum == 255 - (Sum(data) + length + a % 256 + a / 256 % 256 + a / 256 / 256 % 256
                                + a / 256 / 256 / 256 % 256) % 256
    ensures [0x53, 0x33] + UpperByte(length) + HexBytes(WordBytes(a)) + HexBytes(data) + UpperByte(checksum)
         == DataRecord(a, data)
  {
    ChecksumIs(a, data, length);
    PrintedFields(0x33, length, WordBytes(a), data, checksum);
  }

  lemma ChecksumIs(a: nat, data: seq<Byte>, length: Byte)
    ensures Checksum(length, WordBytes(a) + data)
         == 255 - (Sum(data) + length + a % 256 + a / 256 % 256 + a / 256 / 256 % 256 + a / 256 / 256 / 256 % 256) % 256
  {
    AddressSum(a);
    SumConcat(WordBytes(a), data);
    assert length + Sum(WordBytes(a) + data)
        == Sum(data) + length + a % 256 + a / 256 % 256 + a / 256 / 256 % 256 + a / 256 / 256 / 256 % 256;
  }

  /** The n bytes of memory from address a on. */
  function Bytes(mem: Memory, a: nat, n: nat): (bs: seq<Byte>)
    requires forall p :: a <= p < a + n ==> p in mem
    ensures |bs| == n
  {
    if n == 0 then [] else Bytes(mem, a, n - 1) + [mem[a + n - 1]]
  }

  lemma {:induction false} BytesAt(mem: Memory, a: nat, n: nat, i: nat)
    requires i < n && forall p :: a <= p < a + n ==> p in mem
    ensures Bytes(mem, a, n)[i] == mem[a + i]
  {
    if i < n - 1 {
      BytesAt(mem, a, n - 1, i);
    }
  }

  /** The output of a save in progress: a record more takes the bytes still to be sent past it. */
  ghost predicate Sending(all: Text, out: Text, a: nat, left: seq<Byte>) {
    all == out + DataRecords(a, left, [10])
  }

  lemma RecordsFrom(a: nat, left: seq<Byte>, n: nat)
    requires 0 < n <= |left| && n <= BYTES_PER_RECORD && (n == BYTES_PER_RECORD || n == |left|)
    ensures DataRecords(a, left, [10]) == DataRecord(a, left[..n]) + [10] + DataRecords(a + n, left[n..], [10])
  {
    if n == |left| {
      assert left[..n] == left && left[n..] == [];
      assert DataRecords(a + n, left[n..], [10]) == [];
    }
  }

  lemma RecordSent(all: Text, out: Text, a: nat, left: seq<Byte>, n: nat)
    requires Sending(all, out, a, left) && 0 < n <= |left| && n <= BYTES_PER_RECORD
    requires n == BYTES_PER_RECORD || n == |left|
    ensures Sending(all, out + (DataRecord(a, left[..n]) + [10]), a + n, left[n..])
  {
    RecordsFrom(a, left, n);
    Reassociate(out, DataRecord(a, left[..n]) + [10], DataRecords(a + n, left[n..], [10]));
  }

  lemma Reassociate(x: Text, y: Text, z: Text)
    ensures x + (y + z) == x + y + z
  {
  }

  // ---------------------------------------------------------------- the two commands

  /** Memory holds the bytes from address a on. */
  ghost predicate Holds(mem: Memory, a: nat, bytes: seq<Byte>) {
    forall p :: a <= p < a + |bytes| ==> p in mem && mem[p] == bytes[p - a]
  }

  lemma BytesHold(mem: Memory, a: nat, n: nat)
    requires forall p :: a <= p < a + n ==> p in mem
    ensures Holds(mem, a, Bytes(mem, a, n))
  {
    forall p | a <= p < a + n
      ensures mem[p] == Bytes(mem, a, n)[p - a]
    {
      BytesAt(mem, a, n, p - a);
    }
  }

  lemma HoldsLater(mem: Memory, a: nat, bytes: seq<Byte>, n: nat)
    requires Holds(mem, a, bytes) && n <= |bytes|
    ensures Holds(mem, a + n, bytes[n..])
  {
  }

  /** Digits and sum of the first n of the bytes to send. */
  ghost predicate Collected(digits: Text, sum: nat, bytes: seq<Byte>, n: nat) {
    n <= |bytes| && digits == HexBytes(bytes[..n]) && sum == Sum(bytes[..n])
  }

  lemma CollectMore(digits: Text, sum: nat, bytes: seq<Byte>, n: nat, c: Byte)
    requires n < |bytes| && Collected(digits, sum, bytes, n) && c == bytes[n]
    ensures Collected(digits + UpperByte(c), sum + c, bytes, n + 1)
  {
    assert bytes[..n + 1] == bytes[..n] + [c];
    HexSnoc(bytes[..n], c);
  }

  lemma NothingCollected(bytes: seq<Byte>)
    ensures Collected([], 0, bytes, 0)
  {
    assert bytes[..0] == [];
  }

  /** A save in progress: reclen bytes collected of those not yet sent, `left` still to be fetched. */
  ghost predicate Saving(all: Text, out: Text, mem: Memory, a: nat, left: nat, reclen: nat, digits: Text, sum: nat,
                         rest: seq<Byte>)
  {
    && reclen <= BYTES_PER_RECORD && reclen + left == |rest|
    && Holds(mem, a, rest) && Collected(digits, sum, rest, reclen) && Sending(all, out, a, rest)
  }

  lemma SaveBegins(out: Text, mem: Memory, a: nat, n: nat)
    requires forall p :: a <= p < a + n ==> p in mem
    ensures var bytes := Bytes(mem, a, n);
            Saving(out + DataRecords(a, bytes, [10]), out, mem, a, n, 0, [], 0, bytes)
  {
    BytesHold(mem, a, n);
    NothingCollected(Bytes(mem, a, n));
  }

  lemma SaveByte(all: Text, out: Text, mem: Memory, a: nat, left: nat, reclen: nat, digits: Text, sum: nat,
                 rest: seq<Byte>)
    requires Saving(all, out, mem, a, left, reclen, digits, sum, rest) && left > 0 && reclen < BYTES_PER_RECORD
    ensures a + reclen in mem
    ensures var c := mem[a + reclen];
            Saving(all, out, mem, a, left - 1, reclen + 1, digits + UpperByte(c), sum + c, rest)
  {
    assert mem[a + reclen] == rest[reclen];
    CollectMore(digits, sum, rest, reclen, rest[reclen]);
  }

  lemma AllSent(all: Text, out: Text, mem: Memory, a: nat, reclen: nat, digits: Text, sum: nat, rest: seq<Byte>)
    requires Saving(all, out, mem, a, 0, reclen, digits, sum, rest) && reclen == 0
    ensures all == out
  {
  }

  lemma SaveEnds(before: Text, x: Text, y: Text, z: Text)
    ensures before + x + y + z == before + (x + (y + z))
  {
  }

  /** How a download in progress will end. */
  ghost predicate WillEnd(o: Outcome, input: Text, l: Loader, offset: int) {
    o == Load(input, l, offset)
  }

  lemma LineHandled(o: Outcome, input: Text, l: Loader, offset: int, line: Line, step: Step)
    requires WillEnd(o, input, l, offset) && ReadLine(input, LINE_ROOM) == line
    requires line.Line? ==> Next(Decode(line.text), l, offset) == step
    ensures match line
            case Starved => o == Waiting(l)
            case Abort(rest) => o == Aborted(l, rest)
            case Line(text, rest) =>
              match step
              case More(m) => WillEnd(o, rest, m, offset)
              case Finished(entry) => o == Loaded(entry, Size(l), l, rest)
              case Refused => o == Aborted(l, rest)
              case Runaway => o == Wild(l)
  {
  }

  class Board {
    var mem: Memory
    var input: Text       // characters the console has yet to deliver
    var output: Text      // characters sent so far

    constructor (mem: Memory, input: Text)
      ensures this.mem == mem && this.input == input && output == []
    {
      this.mem, this.input, output := mem, input, [];
    }

    /** Completes the checksum and prints a data record; `digits` and `sum` were collected from the data. */
    method WriteDataRecord(a: nat, digits: Text, sum: nat, ghost data: seq<Byte>)
      requires |data| <= BYTES_PER_RECORD && digits == HexBytes(data) && sum == Sum(data)
      modifies this`output
      ensures output == old(output) + (DataRecord(a, data) + [10])
    {
      var length := 4 + |digits| / 2 + 1;
      var checksum := sum + length;
      checksum := checksum + a % 256 + a / 256 % 256 + a / 256 / 256 % 256 + a / 256 / 256 / 256 % 256;
      checksum := 255 - checksum % 256;
      PrintedData(a, data, length, checksum);
      output := output
        + ([0x53, 0x33] + UpperByte(length) + HexBytes(WordBytes(a)) + digits + UpperByte(checksum) + [10]);
    }

    /** Sends the collected bytes as one record, if there are any. */
    method Dump(a: nat, ghost left: nat, reclen: nat, digits: Text, sum: nat, ghost rest: seq<Byte>, ghost all: Text)
      requires Saving(all, output, mem, a, left, reclen, digits, sum, rest)
      requires reclen == BYTES_PER_RECORD || left == 0
      modifies this`output
      ensures Saving(all, output, mem, a + reclen, left, 0, [], 0, rest[reclen..])
    {
      HoldsLater(mem, a, rest, reclen);
      NothingCollected(rest[reclen..]);
      if reclen != 0 {
        RecordSent(all, output, a, rest, reclen);
        WriteDataRecord(a, digits, sum, rest[..reclen]);
      } else {
        assert rest[0..] == rest;
      }
    }

    /** Dumps the record once it is full or the data ends, and starts the next one. */
    method DumpIfReady(a: nat, left: nat, reclen: nat, digits: Text, sum: nat, ghost rest: seq<Byte>, ghost all: Text)
      returns (a': nat, reclen': nat, digits': Text, sum': nat, ghost rest': seq<Byte>)
      requires Saving(all, output, mem, a, left, reclen, digits, sum, rest)
      modifies this`output
      ensures Saving(all, output, mem, a', left, reclen', digits', sum', rest')
      ensures reclen' < BYTES_PER_RECORD && (left == 0 ==> reclen' == 0)
    {
      a', reclen', digits', sum', rest' := a, reclen, digits, sum, rest;
      if reclen == BYTES_PER_RECORD || left == 0 {
        Dump(a, left, reclen, digits, sum, rest, all);
        a', reclen', digits', sum', rest' := a + reclen, 0, [], 0, rest[reclen..];
      }
    }

    /** Takes one more byte of memory into the record. */
    method Collect(a: nat, ghost left: nat, reclen: nat, digits: Text, sum: nat, ghost rest: seq<Byte>, ghost all: Text)
      returns (digits': Text, sum': nat)
      requires Saving(all, output, mem, a, left, reclen, digits, sum, rest) && left > 0 && reclen < BYTES_PER_RECORD
      ensures Saving(all, output, mem, a, left - 1, reclen + 1, digits', sum', rest)
    {
      SaveByte(all, output, mem, a, left, reclen, digits, sum, rest);
      var c := mem[a + reclen];
      digits', sum' := digits + UpperByte(c), sum + c;
    }

    /** `save_serial`. */
    method SaveSerial(address: nat, count: nat)
      requires forall p :: address <= p < address + count ==> p in mem
      modifies this`output
      ensures output == old(output) + Saved(address, Bytes(mem, address, count), [10])
    {
      ghost var before, y := output, DataRecords(address, Bytes(mem, address, count), [10]);
      ghost var x, z := StartRecord() + [10], EndRecord() + [10];
      output := output + (StartRecord() + [10]);
      SendData(address, count);
      output := output + (EndRecord() + [10]);
      SaveEnds(before, x, y, z);
    }

    /** The loop of `save_serial`. */
    method SendData(address: nat, count: nat)
      requires forall p :: address <= p < address + count ==> p in mem
      modifies this`output
      ensures output == old(output) + DataRecords(address, Bytes(mem, address, count), [10])
    {
      ghost var rest := Bytes(mem, address, count);
      ghost var all := output + DataRecords(address, rest, [10]);
      SaveBegins(output, mem, address, count);
      var a: nat, left: nat, reclen: nat, sum: nat, digits: Text := address, count, 0, 0, [];
      var more := true;
      while more
        invariant reclen < BYTES_PER_RECORD && (left == 0 ==> reclen == 0) && (!more ==> left == 0)
        invariant Saving(all, output, mem, a, left, reclen, digits, sum, rest)
        decreases more, left
      {
        if left != 0 {
          digits, sum := Collect(a, left, reclen, digits, sum, rest, all);
          reclen, left := reclen + 1, left - 1;
        }
        a, reclen, digits, sum, rest := DumpIfReady(a, left, reclen, digits, sum, rest, all);
        more := left != 0;
      }
      AllSent(all, output, mem, a, reclen, digits, sum, rest);
    }

    /** `read_record`: the next line, or nothing if it was aborted or the input ran out. */
    method ReadRecord() returns (r: Line)
      modifies this`input
      ensures r == ReadLine(old(input), LINE_ROOM)
      ensures input == if r.Starved? then [] else r.rest
    {
      ghost var all := input;
      var text: Text := [];
      for p := 0 to LINE_ROOM
        invariant ReadLine(all, LINE_ROOM) == Prefixed(text, ReadLine(input, LINE_ROOM - p))
      {
        if input == [] { return Starved; }
        var c := input[0];
        input := input[1..];
        if c == 13 || c == 10 { return Line(text, input); }
        if c == 0 || c == 3 { return Abort(input); }
        PrefixMore(text, c, ReadLine(input, LINE_ROOM - p - 1));
        text := text + [c];
      }
      r := Line(text, input);
    }

    /** `load_serial`; the cases of the source's switch on the record type. */
    method LoadSerial(offset: int) returns (o: Outcome)
      modifies this`input, this`mem
      ensures o == Load(old(input), Fresh(old(mem)), offset) && mem == o.l.mem
      ensures o.Loaded? || o.Aborted? ==> input == o.rest
    {
      ghost var outcome := Load(input, Fresh(mem), offset);
      var l := Fresh(mem);
      while true
        invariant mem == l.mem && WillEnd(outcome, input, l, offset)
        decreases |input|
      {
        ghost var pending := input;
        var line := ReadRecord();
        if !line.Line? {
          LineHandled(outcome, pending, l, offset, line, Refused);
          return if line.Starved? then Waiting(l) else Aborted(l, input);
        }
        var d := SrecDecode(line.text);
        var step := TakeRecord(d, l, offset);
        LineHandled(outcome, pending, l, offset, line, step);
        match step
        case More(m) => l := m;
        case Finished(entry) => return Loaded(entry, Size(l), l, input);
        case Refused => return Aborted(l, input);
        case Runaway => return Wild(l);
      }
    }

    /** The source's switch on the record type. */
    method TakeRecord(d: Decoded, l: Loader, offset: int) returns (step: Step)
      requires mem == l.mem
      modifies this`mem
      ensures step == Next(d, l, offset)
      ensures mem == if step.More? then step.l.mem else l.mem
    {
      if d.Empty? { return More(l); }
      if !d.Record? { return Refused; }
      if IsData(d.kind) {
        if d.count < 0 { return Runaway; }
        var a := (d.addr + offset) % WORD_LIMIT;
        var last := (a + |d.data| - 1) % WORD_LIMIT;
        mem := CopyTo(mem, a, d.data);
        return More(Loader(mem, if a < l.start then a else l.start, if last > l.end then last else l.end));
      }
      step := if IsEnd(d.kind) then Finished(d.addr) else More(l);
    }
  }

  method CopyTo(mem: Memory, a: nat, data: seq<Byte>) returns (mem': Memory)
    ensures mem' == Store(mem, a, data)
  {
    mem' := mem;
    for i := 0 to |data|
      invariant mem' == Store(mem, a, data[..i])
    {
      assert data[..i + 1][..i] == data[..i];
      mem' := mem'[a + i := data[i]];
    }
    assert data[..|data|] == data;
  }

  /** A line with text put before it. */
  function Prefixed(text: Text, r: Line): Line {
    if r.Line? then r.(text := text + r.text) else r
  }

  lemma PrefixMore(text: Text, c: Byte, r: Line)
    ensures Prefixed(text, if r.Line? then r.(text := [c] + r.text) else r) == Prefixed(text + [c], r)
  {
    if r.Line? {
      assert text + ([c] + r.text) == text + [c] + r.text;
    }
  }
}
