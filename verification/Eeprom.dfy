/**
 Reading and writing an I2C EEPROM in pieces, common/cmd_eeprom.c.
 The EEPROM is a bank of blocks behind consecutive chip addresses; its address counter stays inside a page.
 */
module Eeprom {
  import opened Arith
  import opened Basics

  const BLOCK := 0x100
  const I2C_RXTX_LEN := 128

  /** Pages of up to eight bits: they divide a block. */
  predicate IsPage(page: nat) {
    page > 0 && BLOCK % page == 0
  }

  function Min(a: nat, b: nat): nat { if a < b then a else b }

  /** Length of the next transfer: what is left, but no more than a buffer and not beyond the page. */
  function PieceLength(page: nat, offset: nat, left: nat): nat
    requires page > 0
  {
    var maxlen := page - offset % BLOCK % page;
    Min(left, Min(maxlen, I2C_RXTX_LEN))
  }

  lemma OffsetInPage(page: nat, offset: nat)
    requires IsPage(page)
    ensures offset % BLOCK % page == offset % page
  {
    var q, r, m := offset / BLOCK, offset % BLOCK, BLOCK / page;
    Divided(BLOCK, page);
    Associate(q, m, page);
    SameRemainder(page, q * m, r);
  }

  lemma SameRemainder(d: nat, k: nat, r: nat)
    requires d > 0
    ensures (k * d + r) % d == r % d
  {
    Divided(r, d);
    Distribute(k, r / d, d);
    Quotient(k * d + r, k + r / d, d, r % d);
  }

  /** A piece stays inside its page. */
  lemma PieceInPage(page: nat, offset: nat, left: nat)
    requires IsPage(page) && left > 0
    ensures 0 < PieceLength(page, offset, left) <= Min(left, I2C_RXTX_LEN)
    ensures offset % page + PieceLength(page, offset, left) <= page
  {
    OffsetInPage(page, offset);
  }

  /** A piece is no shorter than it has to be: it is the rest, a full buffer, or goes to the end of its page. */
  lemma PieceIsLargest(page: nat, offset: nat, left: nat)
    requires IsPage(page)
    ensures var n := PieceLength(page, offset, left); n == left || n == 128 || offset % page + n == page
  {
    OffsetInPage(page, offset);
  }

  /** Where a device whose counter stays inside the page puts the i-th byte sent to address a. */
  function Wrapped(page: nat, a: nat, i: nat): nat
    requires page > 0
  {
    a - a % page + (a % page + i) % page
  }

  function DeviceWrite(cells: seq<Byte>, page: nat, a: nat, data: seq<Byte>): (r: seq<Byte>)
    requires page > 0
    ensures |r| == |cells|
  {
    if data == [] then cells
    else
      var k, p := |data| - 1, Wrapped(page, a, |data| - 1);
      var r := DeviceWrite(cells, page, a, data[..k]);
      if p < |r| then r[p := data[k]] else r
  }

  /** One write to a flat array. */
  function FlatWrite(cells: seq<Byte>, a: nat, data: seq<Byte>): (r: seq<Byte>)
    requires a + |data| <= |cells|
    ensures |r| == |cells|
  {
    cells[..a] + data + cells[a + |data|..]
  }

  lemma WithinPage(page: nat, a: nat, i: nat)
    requires page > 0 && a % page + i < page
    ensures Wrapped(page, a, i) == a + i
  {
    Quotient(a % page + i, 0, page, a % page + i);
  }

  /** Inside a page the device behaves like a flat array. */
  lemma {:induction false} DeviceIsFlat(cells: seq<Byte>, page: nat, a: nat, data: seq<Byte>)
    requires page > 0 && a % page + |data| <= page && a + |data| <= |cells|
    ensures DeviceWrite(cells, page, a, data) == FlatWrite(cells, a, data)
  {
    if data == [] {
      assert cells[..a] + [] + cells[a..] == cells;
    } else {
      var k := |data| - 1;
      DeviceIsFlat(cells, page, a, data[..k]);
      WithinPage(page, a, k);
      assert FlatWrite(cells, a, data[..k])[a + k := data[k]] == FlatWrite(cells, a, data);
    }
  }

  /** Two flat writes in a row make one. */
  lemma FlatConcat(cells: seq<Byte>, a: nat, x: seq<Byte>, y: seq<Byte>)
    requires a + |x| + |y| <= |cells|
    ensures FlatWrite(FlatWrite(cells, a, x), a + |x|, y) == FlatWrite(cells, a, x + y)
  {
  }

  /** A device read returns the bytes of one block. */
  function DeviceRead(cells: seq<Byte>, a: nat, n: nat): (r: seq<Byte>)
    ensures |r| == n
  {
    if n == 0 then []
    else
      var p := Wrapped(BLOCK, a, n - 1);
      DeviceRead(cells, a, n - 1) + [if p < |cells| then cells[p] else 0xff]
  }

  lemma {:induction false} ReadIsFlat(cells: seq<Byte>, a: nat, n: nat)
    requires a % BLOCK + n <= BLOCK && a + n <= |cells|
    ensures DeviceRead(cells, a, n) == cells[a..a + n]
  {
    if n > 0 {
      ReadIsFlat(cells, a, n - 1);
      WithinPage(BLOCK, a, n - 1);
    }
  }

  /** One transfer on the bus. */
  datatype Transfer = Transfer(offset: nat, length: nat)

  /** The transfers are not empty, fit a buffer and follow one another from offset to end. */
  predicate Tiles(ts: seq<Transfer>, offset: nat, end: nat) {
    if ts == [] then offset == end
    else
      var t := ts[|ts| - 1];
      0 < t.length <= I2C_RXTX_LEN && t.offset + t.length == end && Tiles(ts[..|ts| - 1], offset, t.offset)
  }

  predicate InPage(t: Transfer, page: nat)
    requires page > 0
  {
    t.offset % page + t.length <= page
  }

  /** The transfers since `was` tile the range. */
  ghost predicate Logged(was: seq<Transfer>, log: seq<Transfer>, offset: nat, end: nat) {
    |was| <= |log| && log[..|was|] == was && Tiles(log[|was|..], offset, end)
  }

  /** A transfer that is not the last of a request is a full buffer or ends with its page. */
  predicate IsFull(t: Transfer, page: nat, end: nat)
    requires page > 0
  {
    t.length == 128 || t.offset % page + t.length == page || t.offset + t.length == end
  }

  ghost predicate AllFull(was: seq<Transfer>, log: seq<Transfer>, page: nat, end: nat)
    requires page > 0
  {
    forall k :: |was| <= k < |log| ==> IsFull(log[k], page, end)
  }

  /** Each of the transfers since `was` stays inside its page. */
  ghost predicate InPages(was: seq<Transfer>, log: seq<Transfer>, page: nat)
    requires page > 0
  {
    forall k :: |was| <= k < |log| ==> InPage(log[k], page)
  }

  lemma LoggedMore(was: seq<Transfer>, log: seq<Transfer>, page: nat, offset: nat, end: nat, n: nat)
    requires page > 0 && Logged(was, log, offset, end) && 0 < n <= I2C_RXTX_LEN
    ensures Logged(was, log + [Transfer(end, n)], offset, end + n)
    ensures InPages(was, log + [Transfer(end, n)], page) <==> InPages(was, log, page) && InPage(Transfer(end, n), page)
  {
    var ts, t := log[|was|..], Transfer(end, n);
    assert (log + [t])[|was|..] == ts + [t];
    assert (ts + [t])[..|ts|] == ts;
    assert forall k :: |was| <= k < |log| ==> (log + [t])[k] == log[k];
    assert (log + [t])[|log|] == t;
  }

  // ---------------------------------------------------------------- a request, piece by piece

  /** Every piece of a request stays inside its page. */
  predicate StaysInPages(page: nat, offset: nat, left: nat)
    requires page > 0
    decreases left
  {
    left == 0 ||
    (var n := PieceLength(page, offset, left); offset % page + n <= page && StaysInPages(page, offset + n, left - n))
  }

  /** The effect on the device of a request sent piece by piece, every transfer being acknowledged. */
  function WritePieces(cells: seq<Byte>, page: nat, offset: nat, data: seq<Byte>): (r: seq<Byte>)
    requires page > 0
    ensures |r| == |cells|
    decreases |data|
  {
    if data == [] then cells
    else
      var n := PieceLength(page, offset, |data|);
      WritePieces(DeviceWrite(cells, page, offset, data[..n]), page, offset + n, data[n..])
  }

  /** The pieces whose transfer is acknowledged, from the t-th transfer on, are sent to the device; the others are not. */
  function Acked(cells: seq<Byte>, page: nat, offset: nat, data: seq<Byte>, t: nat, answers: nat -> bool): (r: seq<Byte>)
    requires page > 0
    ensures |r| == |cells|
    decreases |data|
  {
    if data == [] then cells
    else
      var n := PieceLength(page, offset, |data|);
      Acked(if answers(t) then DeviceWrite(cells, page, offset, data[..n]) else cells, page, offset + n, data[n..], t + 1,
            answers)
  }

  lemma PiecesStart(cells: seq<Byte>, page: nat, offset: nat, data: seq<Byte>, n: nat)
    requires page > 0 && data != [] && n == PieceLength(page, offset, |data|)
    ensures n <= |data|
    ensures WritePieces(cells, page, offset, data)
         == WritePieces(DeviceWrite(cells, page, offset, data[..n]), page, offset + n, data[n..])
  {
  }

  lemma LengthInPage(page: nat, offset: nat, left: nat) returns (n: nat)
    requires page > 0 && left > 0 && StaysInPages(page, offset, left)
    ensures 0 < n <= left && n == PieceLength(page, offset, left)
    ensures offset % page + n <= page && StaysInPages(page, offset + n, left - n)
  {
    n := PieceLength(page, offset, left);
  }

  lemma {:induction false} FlatIfInPages(cells: seq<Byte>, page: nat, offset: nat, data: seq<Byte>)
    requires page > 0 && offset + |data| <= |cells| && StaysInPages(page, offset, |data|)
    ensures WritePieces(cells, page, offset, data) == FlatWrite(cells, offset, data)
    decreases |data|
  {
    if data == [] {
      assert cells[..offset] + data + cells[offset..] == cells;
    } else {
      var n := LengthInPage(page, offset, |data|);
      var x, y := data[..n], data[n..];
      PiecesStart(cells, page, offset, data, n);
      DeviceIsFlat(cells, page, offset, x);
      FlatIfInPages(FlatWrite(cells, offset, x), page, offset + n, y);
      FlatConcat(cells, offset, x, y);
      assert x + y == data;
    }
  }

  /** Two contents agree outside the n bytes from offset on. */
  ghost predicate SameOutside(now: seq<Byte>, before: seq<Byte>, offset: nat, n: nat) {
    && |now| == |before| && offset + n <= |before|
    && now[..offset] == before[..offset] && now[offset + n..] == before[offset + n..]
  }

  lemma OutsideWider(now: seq<Byte>, before: seq<Byte>, offset: nat, n: nat, a: nat, m: nat)
    requires SameOutside(now, before, a, m) && offset <= a && a + m <= offset + n <= |before|
    ensures SameOutside(now, before, offset, n)
  {
    assert now[..a][..offset] == now[..offset] && before[..a][..offset] == before[..offset];
    var k := offset + n - (a + m);
    assert now[a + m..][k..] == now[offset + n..] && before[a + m..][k..] == before[offset + n..];
  }

  lemma FlatOutside(cells: seq<Byte>, a: nat, data: seq<Byte>)
    requires a + |data| <= |cells|
    ensures SameOutside(FlatWrite(cells, a, data), cells, a, |data|)
  {
  }

  /** Nothing outside a request that stays inside its pages is touched, whichever pieces are acknowledged. */
  lemma {:induction false} AckedOutside(cells: seq<Byte>, page: nat, offset: nat, data: seq<Byte>, t: nat,
                                        answers: nat -> bool)
    requires page > 0 && offset + |data| <= |cells| && StaysInPages(page, offset, |data|)
    ensures SameOutside(Acked(cells, page, offset, data, t, answers), cells, offset, |data|)
    decreases |data|
  {
    if data != [] {
      var n := LengthInPage(page, offset, |data|);
      var x, y := data[..n], data[n..];
      var next := if answers(t) then DeviceWrite(cells, page, offset, x) else cells;
      var last := Acked(next, page, offset + n, y, t + 1, answers);
      AckedStart(cells, page, offset, data, t, answers, n, next);
      PieceOutside(cells, page, offset, x, next, |data|);
      AckedOutside(next, page, offset + n, y, t + 1, answers);
      OutsideWider(last, next, offset, |data|, offset + n, |y|);
    }
  }

  lemma AckedStart(cells: seq<Byte>, page: nat, offset: nat, data: seq<Byte>, t: nat, answers: nat -> bool, n: nat,
                   next: seq<Byte>)
    requires page > 0 && data != [] && n == PieceLength(page, offset, |data|)
    ensures n <= |data|
    ensures next == (if answers(t) then DeviceWrite(cells, page, offset, data[..n]) else cells) ==>
              Acked(cells, page, offset, data, t, answers) == Acked(next, page, offset + n, data[n..], t + 1, answers)
  {
  }

  lemma PieceOutside(cells: seq<Byte>, page: nat, offset: nat, x: seq<Byte>, next: seq<Byte>, n: nat)
    requires page > 0 && offset % page + |x| <= page && |x| <= n && offset + n <= |cells|
    requires next == cells || next == DeviceWrite(cells, page, offset, x)
    ensures SameOutside(next, cells, offset, n)
  {
    DeviceIsFlat(cells, page, offset, x);
    FlatOutside(cells, offset, x);
    OutsideWider(next, cells, offset, n, offset, |x|);
  }

  lemma BlockOf(offset: nat, blocks: nat, span: nat)
    requires (span == 0x100 || span == 0x1_0000) && offset < blocks * span && blocks <= 0x100
    ensures offset / span < blocks && offset / span % 0x100 == offset / span
    ensures offset / span * span + offset % span == offset
  {
    if span == 0x100 {
      assert offset < 0x100 * blocks;
    } else {
      assert offset < 0x1_0000 * blocks;
    }
  }

  /** Bitwise or. */
  function Or(a: nat, b: nat): nat
    decreases a
  {
    if a == 0 then b else if b == 0 then a else (if a % 2 == 1 || b % 2 == 1 then 1 else 0) + 2 * Or(a / 2, b / 2)
  }

  /** Numbers without a bit in common are added by it. */
  lemma {:induction false} OrIsSum(k: nat, m: nat, b: nat)
    requires b < Pow2(k)
    ensures Or(m * Pow2(k), b) == m * Pow2(k) + b
  {
    if k > 0 {
      Associate(m, 2, Pow2(k - 1));
      Associate(2, m, Pow2(k - 1));
      OrIsSum(k - 1, m, b / 2);
    }
  }

  class Bank {
    const addressLength: nat      // CONFIG_SYS_I2C_EEPROM_ADDR_LEN
    const page: nat               // EEPROM_PAGE_SIZE
    const device: Byte            // the device address
    const selectBits: nat         // number of its low bits that select a block, zero in the device address
    const high: nat               // the rest of it
    const answers: nat -> bool    // whether the n-th transfer is acknowledged
    var count: nat                // transfers so far
    var cells: seq<Byte>
    ghost var log: seq<Transfer>

    constructor (addressLength: nat, page: nat, selectBits: nat, high: nat, answers: nat -> bool, cells: seq<Byte>)
      requires (addressLength == 1 || addressLength == 2) && page > 0
      requires high * Pow2(selectBits) + Pow2(selectBits) <= 0x100
      requires |cells| <= Pow2(selectBits) * if addressLength == 1 then 0x100 else 0x1_0000
      ensures Valid() && this.cells == cells && count == 0 && log == []
    {
      this.addressLength, this.page, this.answers := addressLength, page, answers;
      this.device, this.selectBits, this.high := high * Pow2(selectBits), selectBits, high;
      this.cells, count, log := cells, 0, [];
    }

    ghost predicate Valid()
      reads this
    {
      && (addressLength == 1 || addressLength == 2) && page > 0
      && device == high * Pow2(selectBits) && device + Pow2(selectBits) <= 0x100
      && |cells| <= Pow2(selectBits) * Span()
    }

    /** Size of what one chip address covers. */
    function Span(): nat { if addressLength == 1 then 0x100 else 0x1_0000 }

    /** The chip address sent for an offset: the block number, cut to eight bits, with the device address put in. */
    function Chip(offset: nat): nat { Or(device, offset / Span() % 0x100) }

    /** The cell behind a chip and a word address, of which the device sees the low bytes. */
    function Cell(chip: nat, word: nat): nat
      requires chip >= device
    {
      if addressLength == 1 then (chip - device) * 0x100 + word % 0x100 else (chip - device) * 0x1_0000 + word % 0x1_0000
    }

    /** Chip and word address select the cell at the offset. */
    lemma CellIsOffset(offset: nat)
      requires Valid() && offset < |cells|
      ensures Chip(offset) >= device && Cell(Chip(offset), offset) == offset
    {
      var block := offset / Span();
      BlockOf(offset, Pow2(selectBits), Span());
      OrIsSum(selectBits, high, block);
      assert Chip(offset) == device + block;
    }

    /** Whether all transfers from the first to before the second were acknowledged. */
    ghost predicate Answered(from: nat, to: nat) {
      forall t :: from <= t < to ==> answers(t)
    }

    lemma AnsweredNext(from: nat, to: nat)
      requires from <= to
      ensures Answered(from, to + 1) <==> Answered(from, to) && answers(to)
    {
    }

    method I2cWrite(chip: nat, word: nat, data: seq<Byte>) returns (ok: bool)
      requires chip >= device && Valid()
      modifies this
      ensures Valid() && count == old(count) + 1 && ok == answers(old(count))
      ensures log == old(log) + [Transfer(Cell(chip, word), |data|)]
      ensures cells == if ok then DeviceWrite(old(cells), page, Cell(chip, word), data) else old(cells)
    {
      ok := answers(count);
      log := log + [Transfer(Cell(chip, word), |data|)];
      count := count + 1;
      if ok { cells := DeviceWrite(cells, page, Cell(chip, word), data); }
    }

    method I2cRead(chip: nat, word: nat, n: nat) returns (ok: bool, data: seq<Byte>)
      requires chip >= device && Valid()
      modifies this`count, this`log
      ensures Valid() && count == old(count) + 1 && ok == answers(old(count)) && |data| == n
      ensures log == old(log) + [Transfer(Cell(chip, word), n)]
      ensures ok ==> data == DeviceRead(cells, Cell(chip, word), n)
    {
      ok := answers(count);
      log := log + [Transfer(Cell(chip, word), n)];
      count := count + 1;
      data := if ok then DeviceRead(cells, Cell(chip, word), n) else seq(n, _ => 0);
    }

    method ReadPiece(at: nat, n: nat) returns (ok: bool, data: seq<Byte>)
      requires Valid() && n > 0 && at % BLOCK + n <= BLOCK && at + n <= |cells|
      modifies this`count, this`log
      ensures count == old(count) + 1 && ok == answers(old(count)) && log == old(log) + [Transfer(at, n)]
      ensures |data| == n && (ok ==> data == cells[at..at + n])
    {
      CellIsOffset(at);
      ReadIsFlat(cells, at, n);
      ok, data := I2cRead(Chip(at), at, n);
    }

    /**
     `eeprom_write`, with pages of any size: the device gets the pieces that are acknowledged. A request whose pieces stay
     inside their pages acts as one flat write if every transfer is acknowledged, and touches nothing outside.
     */
    method Write(offset: nat, buffer: seq<Byte>) returns (rcode: int)
      requires Valid() && offset + |buffer| <= |cells|
      modifies this
      ensures Valid() && |cells| == old(|cells|) && (rcode == 0 || rcode == 1)
      ensures rcode == 0 <==> Answered(old(count), count)
      ensures cells == Acked(old(cells), page, offset, buffer, old(count), answers)
      ensures rcode == 0 ==> cells == WritePieces(old(cells), page, offset, buffer)
      ensures StaysInPages(page, offset, |buffer|) ==> Written(old(cells), cells, offset, buffer, rcode)
      ensures Logged(old(log), log, offset, offset + |buffer|)
      ensures InPages(old(log), log, page) <==> StaysInPages(page, offset, |buffer|)
    {
      rcode := 0;
      var at, end := offset, offset + |buffer|;
      ghost var before, was := cells, log;
      assert buffer[0..] == buffer;
      while at < end
        invariant offset <= at <= end && Progress(offset, buffer, at, rcode, before, was, old(count))
        decreases end - at
      {
        at, rcode := WriteNext(offset, buffer, at, rcode, before, was, old(count));
      }
      if StaysInPages(page, offset, |buffer|) {
        FlatIfInPages(before, page, offset, buffer);
        AckedOutside(before, page, offset, buffer, old(count), answers);
      }
    }

    /** A write that has reached address `at`. */
    ghost predicate Progress(offset: nat, buffer: seq<Byte>, at: nat, rcode: int, before: seq<Byte>, was: seq<Transfer>,
                             first: nat)
      reads this
    {
      && Valid() && (rcode == 0 || rcode == 1) && first <= count && (rcode == 0 <==> Answered(first, count))
      && Reached(before, cells, page, offset, buffer, at, rcode, first, count, answers)
      && Sent(was, log, page, offset, |buffer|, at)
    }

    method WriteNext(offset: nat, buffer: seq<Byte>, at: nat, rcode: int, ghost before: seq<Byte>,
                     ghost was: seq<Transfer>, ghost first: nat) returns (at': nat, rcode': int)
      requires offset <= at < offset + |buffer| && Progress(offset, buffer, at, rcode, before, was, first)
      modifies this
      ensures at < at' <= offset + |buffer| && Progress(offset, buffer, at', rcode', before, was, first)
    {
      ghost var now, t := cells, count;
      SentMore(was, log, page, offset, |buffer|, at);
      var len, ok := SendPiece(at, buffer[at - offset..]);
      rcode' := if ok then rcode else 1;
      AnsweredNext(first, t);
      ReachedMore(before, now, cells, page, offset, buffer, at, len, rcode, first, t, answers);
      at' := at + len;
    }

    /** Sends as much of the data as one transfer may hold. */
    method SendPiece(at: nat, data: seq<Byte>) returns (len: nat, ok: bool)
      requires Valid() && data != [] && at + |data| <= |cells|
      modifies this
      ensures Valid() && count == old(count) + 1 && ok == answers(old(count)) && 0 < len <= |data|
      ensures len == PieceLength(page, at, |data|) && log == old(log) + [Transfer(at, len)]
      ensures cells == if ok then DeviceWrite(old(cells), page, at, data[..len]) else old(cells)
    {
      len := PieceLength(page, at, |data|);
      CellIsOffset(at);
      ok := I2cWrite(Chip(at), at, data[..len]);
    }

    /** Reads as much as one transfer may hold. */
    method ReadNext(at: nat, ghost offset: nat, end: nat, ghost was: seq<Transfer>) returns (ok: bool, at': nat, data: seq<Byte>)
      requires Valid() && at < end <= |cells| && Logged(was, log, offset, at) && InPages(was, log, BLOCK)
      requires AllFull(was, log, BLOCK, end)
      modifies this`count, this`log
      ensures count == old(count) + 1 && ok == answers(old(count)) && at < at' <= end
      ensures |data| == at' - at && (ok ==> data == cells[at..at'])
      ensures Logged(was, log, offset, at') && InPages(was, log, BLOCK) && AllFull(was, log, BLOCK, end)
    {
      var len := PieceLength(BLOCK, at, end - at);
      PieceInPage(BLOCK, at, end - at);
      PieceIsLargest(BLOCK, at, end - at);
      LoggedMore(was, log, BLOCK, offset, at, len);
      ok, data := ReadPiece(at, len);
      at' := at + len;
    }

    /** `eeprom_read`: returns what stands in the array if every transfer is acknowledged. */
    method Read(offset: nat, cnt: nat) returns (rcode: int, buffer: seq<Byte>)
      requires Valid() && offset + cnt <= |cells|
      modifies this`count, this`log
      ensures |buffer| == cnt && (rcode == 0 || rcode == 1)
      ensures rcode == 0 <==> Answered(old(count), count)
      ensures rcode == 0 ==> buffer == cells[offset..offset + cnt]
      ensures Logged(old(log), log, offset, offset + cnt) && InPages(old(log), log, BLOCK)
      ensures AllFull(old(log), log, BLOCK, offset + cnt)
    {
      rcode, buffer := 0, [];
      var at, end := offset, offset + cnt;
      ghost var was := log;
      while at < end
        invariant offset <= at <= end && |buffer| == at - offset && (rcode == 0 || rcode == 1)
        invariant old(count) <= count
        invariant rcode == 0 <==> Answered(old(count), count)
        invariant rcode == 0 ==> buffer == cells[offset..at]
        invariant Logged(was, log, offset, at) && InPages(was, log, BLOCK) && AllFull(was, log, BLOCK, end)
      {
        ghost var from, t := at, count;
        var ok, data;
        ok, at, data := ReadNext(at, offset, end, was);
        if !ok { rcode := 1; }
        AnsweredNext(old(count), t);
        BytesNext(cells, offset, from, at);
        buffer := buffer + data;
      }
    }
  }

  lemma BytesNext(cells: seq<Byte>, offset: nat, from: nat, at: nat)
    requires offset <= from <= at <= |cells|
    ensures cells[offset..from] + cells[from..at] == cells[offset..at]
  {
  }

  /** The buffer is written, unless a transfer failed; nothing outside the request is touched. */
  ghost predicate Written(before: seq<Byte>, now: seq<Byte>, offset: nat, buffer: seq<Byte>, rcode: int) {
    SameOutside(now, before, offset, |buffer|) && (rcode == 0 ==> now == FlatWrite(before, offset, buffer))
  }

  /** The transfers so far tile the request up to `at`, and all of them stay inside their pages exactly if they and those
      to come do. */
  ghost predicate Sent(was: seq<Transfer>, log: seq<Transfer>, page: nat, offset: nat, n: nat, at: nat)
    requires page > 0
  {
    && at <= offset + n && Logged(was, log, offset, at)
    && (InPages(was, log, page) && StaysInPages(page, at, offset + n - at) <==> StaysInPages(page, offset, n))
  }

  lemma SentMore(was: seq<Transfer>, log: seq<Transfer>, page: nat, offset: nat, n: nat, at: nat)
    requires page > 0 && Sent(was, log, page, offset, n, at) && at < offset + n
    ensures var len := PieceLength(page, at, offset + n - at);
            Sent(was, log + [Transfer(at, len)], page, offset, n, at + len)
  {
    LoggedMore(was, log, page, offset, at, PieceLength(page, at, offset + n - at));
  }

  /** What is still to be written brings the array where the whole write brings it. */
  ghost predicate Reached(before: seq<Byte>, now: seq<Byte>, page: nat, offset: nat, buffer: seq<Byte>, at: nat, rcode: int,
                          first: nat, t: nat, answers: nat -> bool)
    requires page > 0
  {
    && offset <= at <= offset + |buffer| <= |before| == |now|
    && Acked(before, page, offset, buffer, first, answers) == Acked(now, page, at, buffer[at - offset..], t, answers)
    && (rcode == 0 ==> WritePieces(before, page, offset, buffer) == WritePieces(now, page, at, buffer[at - offset..]))
  }

  lemma ReachedMore(before: seq<Byte>, now: seq<Byte>, next: seq<Byte>, page: nat, offset: nat, buffer: seq<Byte>, at: nat,
                    len: nat, rcode: int, first: nat, t: nat, answers: nat -> bool)
    requires page > 0 && Reached(before, now, page, offset, buffer, at, rcode, first, t, answers) && at < offset + |buffer|
    requires len == PieceLength(page, at, |buffer[at - offset..]|)
    requires next == if answers(t) then DeviceWrite(now, page, at, buffer[at - offset..][..len]) else now
    ensures Reached(before, next, page, offset, buffer, at + len, if answers(t) then rcode else 1, first, t + 1, answers)
  {
    var rest := buffer[at - offset..];
    assert rest[len..] == buffer[at + len - offset..];
  }

  /** What was written stands in the range afterwards. */
  lemma WrittenAll(before: seq<Byte>, now: seq<Byte>, offset: nat, buffer: seq<Byte>)
    requires Written(before, now, offset, buffer, 0)
    ensures now[offset..offset + |buffer|] == buffer
  {
  }
}
