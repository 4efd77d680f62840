/** The boot stage table itself: stash and unstash, common/bootstage.c. */
module BootstageStash {
  import opened Basics
  import opened Bootstage

  /** A stash that wrote everything leaves the image behind the completed header. */
  lemma Completed(rs: seq<Record>, names: seq<Name>, before: seq<Byte>, now: seq<Byte>, after: seq<Byte>, size: nat,
                  x: seq<Byte>)
    requires x == Header(|rs|, 0) + RecordArea(rs) + Joined(names) && Wrote(before, now, size, x) && |x| <= size
    requires after == now[..8] + Word(|x|) + now[12..]
    ensures Stashed(rs, names, before, after, size, 0)
  {
    ImageIs(rs, names, x);
    CompletedBytes(|rs|, |x|, RecordArea(rs), Joined(names), before[|x|..]);
    StashedIs(rs, names, before, after, size);
  }

  lemma ImageIs(rs: seq<Record>, names: seq<Name>, x: seq<Byte>)
    requires x == Header(|rs|, 0) + RecordArea(rs) + Joined(names)
    ensures Image(rs, names) == Header(|rs|, |x|) + (RecordArea(rs) + Joined(names)) && |Image(rs, names)| == |x|
  {
  }

  lemma StashedIs(rs: seq<Record>, names: seq<Name>, before: seq<Byte>, after: seq<Byte>, size: nat)
    requires |Image(rs, names)| <= size <= |before|
    requires after == Image(rs, names) + before[|Image(rs, names)|..]
    ensures Stashed(rs, names, before, after, size, 0)
  {
  }

  lemma CompletedBytes(count: nat, size: nat, x: seq<Byte>, y: seq<Byte>, rest: seq<Byte>)
    ensures var b := Header(count, 0) + x + y + rest;
            b[..8] + Word(size) + b[12..] == Header(count, size) + (x + y) + rest
  {
    HeaderCompleted(count, size, x + y + rest);
    assert Header(count, 0) + x + y + rest == Header(count, 0) + (x + y + rest);
    assert Header(count, size) + (x + y) + rest == Header(count, size) + (x + y + rest);
  }

  lemma Unfinished(rs: seq<Record>, names: seq<Name>, before: seq<Byte>, now: seq<Byte>, size: nat, x: seq<Byte>)
    requires x == Header(|rs|, 0) + RecordArea(rs) + Joined(names) && Wrote(before, now, size, x) && |x| > size
    requires |rs| == |names|
    ensures Stashed(rs, names, before, now, size, -1)
  {
    assert |Image(rs, names)| == |x|;
    assert x[..HDR_SIZE] == Header(|rs|, 0);
    assert now[0..HDR_SIZE] == now[..HDR_SIZE];
  }

  /** The four stores that write the unfinished header. */
  lemma HeaderStored(count: nat, b0: seq<Byte>, b1: seq<Byte>, b2: seq<Byte>, b3: seq<Byte>, b4: seq<Byte>, size: nat)
    requires HDR_SIZE <= size <= |b0|
    requires b1 == b0[..0] + Word(BOOTSTAGE_VERSION) + b0[4..]
    requires b2 == b1[..4] + Word(count) + b1[8..]
    requires b3 == b2[..8] + Word(0) + b2[12..]
    requires b4 == b3[..12] + Word(BOOTSTAGE_MAGIC) + b3[16..]
    ensures RecordsWritten(b0, b4, size, Header(count, 0), [], HDR_SIZE)
  {
    FourStores(Word(BOOTSTAGE_VERSION), Word(count), Word(0), Word(BOOTSTAGE_MAGIC), b0, b1, b2, b3, b4);
    HeaderIs(count, 0);
    assert Header(count, 0) + [] == Header(count, 0);
  }

  lemma FourStores(v: seq<Byte>, c: seq<Byte>, z: seq<Byte>, m: seq<Byte>,
                   b0: seq<Byte>, b1: seq<Byte>, b2: seq<Byte>, b3: seq<Byte>, b4: seq<Byte>)
    requires |v| == |c| == |z| == |m| == 4 && HDR_SIZE <= |b0|
    requires b1 == b0[..0] + v + b0[4..] && b2 == b1[..4] + c + b1[8..]
    requires b3 == b2[..8] + z + b2[12..] && b4 == b3[..12] + m + b3[16..]
    ensures b4 == v + c + z + m + b0[HDR_SIZE..]
  {
    assert b1 == v + b0[4..];
    assert b2 == v + c + b0[8..];
    assert b3 == v + c + z + b0[12..];
  }

  /** Header and records of the table up to rs are written, ptr is behind them. */
  ghost predicate RecordsWritten(before: seq<Byte>, now: seq<Byte>, size: nat, h: seq<Byte>, rs: seq<Record>, ptr: nat) {
    var x := h + RecordArea(Kept(rs));
    ptr == |x| && Wrote(before, now, size, x)
  }

  lemma WroteBehind(before: seq<Byte>, now: seq<Byte>, next: seq<Byte>, size: nat, h: seq<Byte>, x: seq<Byte>,
                    data: seq<Byte>)
    requires Wrote(before, now, size, h + x) && Appended(now, next, |h + x|, size, data)
    ensures Wrote(before, next, size, h + (x + data)) && |h + (x + data)| == |h + x| + |data|
  {
    WroteMore(before, now, next, size, h + x, data);
    assert h + x + data == h + (x + data);
  }

  lemma RecordsStep(before: seq<Byte>, now: seq<Byte>, next: seq<Byte>, size: nat, h: seq<Byte>, rs: seq<Record>,
                    k: nat, ptr: nat, ptr': nat)
    requires k < |rs| && RecordsWritten(before, now, size, h, rs[..k], ptr)
    requires if rs[k].time != 0 then Appended(now, next, ptr, size, RecordBytes(rs[k])) && ptr' == ptr + REC_SIZE
             else next == now && ptr' == ptr
    ensures RecordsWritten(before, next, size, h, rs[..k + 1], ptr')
  {
    KeptSnoc(rs, k);
    if rs[k].time != 0 {
      var kept := Kept(rs[..k]);
      WroteBehind(before, now, next, size, h, RecordArea(kept), RecordBytes(rs[k]));
      AreaSnoc(kept, rs[k]);
    }
  }

  /** The names of the table up to rs are written behind h, ptr is behind them. */
  ghost predicate NamesWritten(before: seq<Byte>, now: seq<Byte>, size: nat, h: seq<Byte>, userBase: nat, rs: seq<Record>,
                               ptr: nat)
  {
    var x := h + Joined(PrintableNames(userBase, Kept(rs)));
    ptr == |x| && Wrote(before, now, size, x)
  }

  lemma NamesStep(before: seq<Byte>, now: seq<Byte>, next: seq<Byte>, size: nat, h: seq<Byte>, userBase: nat,
                  rs: seq<Record>, k: nat, ptr: nat, ptr': nat, data: seq<Byte>)
    requires k < |rs| && NamesWritten(before, now, size, h, userBase, rs[..k], ptr)
    requires data == PrintableName(userBase, rs[k]) + [0]
    requires if rs[k].time != 0 then Appended(now, next, ptr, size, data) && ptr' == ptr + |data|
             else next == now && ptr' == ptr
    ensures NamesWritten(before, next, size, h, userBase, rs[..k + 1], ptr')
  {
    KeptSnoc(rs, k);
    if rs[k].time != 0 {
      var kept := Kept(rs[..k]);
      WroteBehind(before, now, next, size, h, Joined(PrintableNames(userBase, kept)), data);
      NamesSnoc(userBase, kept, rs[k]);
    }
  }

  /** Where the records end the names begin. */
  lemma NamesBegin(before: seq<Byte>, now: seq<Byte>, size: nat, h: seq<Byte>, userBase: nat, rs: seq<Record>, ptr: nat)
    requires RecordsWritten(before, now, size, h, rs, ptr)
    ensures NamesWritten(before, now, size, h + RecordArea(Kept(rs)), userBase, [], ptr)
  {
    var x := h + RecordArea(Kept(rs));
    assert x + [] == x;
  }

  /** The end of a stash: it is completed if everything was written, and unfinished otherwise. */
  lemma StashEnds(table: seq<Record>, userBase: nat, before: seq<Byte>, now: seq<Byte>, after: seq<Byte>, size: nat,
                  ptr: nat)
    requires NamesWritten(before, now, size, Header(|Kept(table)|, 0) + RecordArea(Kept(table)), userBase, table, ptr)
    requires after == if ptr > size then now else now[..8] + Word(ptr) + now[12..]
    ensures Stashed(Kept(table), PrintableNames(userBase, Kept(table)), before, after, size, if ptr > size then -1 else 0)
  {
    var rs := Kept(table);
    var names := PrintableNames(userBase, rs);
    var x := Header(|rs|, 0) + RecordArea(rs) + Joined(names);
    if ptr > size {
      Unfinished(rs, names, before, now, size, x);
    } else {
      Completed(rs, names, before, now, after, size, x);
    }
  }

  /** What an unstash leaves in the table. */
  ghost predicate Restored(before: seq<Record>, after: seq<Record>, first: nat, next: nat,
                           b: seq<Byte>, base: nat, size: int, ret: int)
    requires (size == -1 || HDR_SIZE <= size) ==> HDR_SIZE <= |b|
  {
    if Accepted(b, size, first, |before|) then
      var count := WordAt(b, 4);
      ret == 0 && next == first + count && Filled(before, after, first, count, b, base, HDR_SIZE + REC_SIZE * count)
    else ret == -1 && after == before && next == first
  }

  lemma RestoredIs(table: seq<Record>, after: seq<Record>, first: nat, b: seq<Byte>, base: nat, size: int, count: nat,
                   start: nat)
    requires HDR_SIZE <= |b| && Accepted(b, size, first, |table|)
    requires count == WordAt(b, 4) && start == HDR_SIZE + REC_SIZE * count
    requires Filled(table, after, first, count, b, base, start)
    ensures Restored(table, after, first, first + count, b, base, size, 0)
  {
  }

  /** The first n of the stored records. */
  function StoredRecords(b: seq<Byte>, base: nat, start: nat, n: nat): (rs: seq<Record>)
    requires HDR_SIZE + REC_SIZE * n <= |b| && start <= |b|
    ensures |rs| == n
  {
    if n == 0 then [] else StoredRecords(b, base, start, n - 1) + [StoredRecord(b, base, start, n - 1)]
  }

  lemma {:induction false} StoredRecordsAt(b: seq<Byte>, base: nat, start: nat, n: nat, k: nat)
    requires HDR_SIZE + REC_SIZE * n <= |b| && start <= |b| && k < n
    ensures StoredRecords(b, base, start, n)[k] == StoredRecord(b, base, start, k)
  {
    if k < n - 1 {
      StoredRecordsAt(b, base, start, n - 1, k);
    }
  }

  /** The first n stored records stand in the table from `first` on; the rest of the table is as before. */
  ghost predicate Filled(before: seq<Record>, now: seq<Record>, first: nat, n: nat, b: seq<Byte>, base: nat, start: nat) {
    && HDR_SIZE + REC_SIZE * n <= |b| && start <= |b| && first + n <= |before|
    && now == before[..first] + StoredRecords(b, base, start, n) + before[first + n..]
  }

  lemma ReplaceNext(before: seq<Record>, first: nat, xs: seq<Record>, r: Record)
    requires first + |xs| < |before|
    ensures (before[..first] + xs + before[first + |xs|..])[first + |xs| := r]
         == before[..first] + (xs + [r]) + before[first + |xs| + 1..]
  {
  }

  lemma {:induction false} TerminatedBefore(b: seq<Byte>, i: nat, count: nat, k: nat)
    requires i <= |b| && Terminated(b, i, count) && k < count
    ensures NameOffset(b, i, k) + StrLen(b, NameOffset(b, i, k)) < |b|
    ensures NameOffset(b, i, k + 1) == NameOffset(b, i, k) + StrLen(b, NameOffset(b, i, k)) + 1
  {
    if k < count - 1 {
      TerminatedBefore(b, i, count - 1, k);
    }
  }

  /** One record read with its name from ptr. */
  lemma ReadStep(before: seq<Record>, now: seq<Record>, first: nat, n: nat, b: seq<Byte>, base: nat, start: nat,
                 count: nat, ptr: nat, r: Record)
    requires Filled(before, now, first, n, b, base, start) && first + n < |now| && n < count
    requires start == HDR_SIZE + REC_SIZE * count <= |b| && Terminated(b, start, count)
    requires ptr == NameOffset(b, start, n)
    requires r == RecordAt(b, HDR_SIZE + REC_SIZE * n, To(base + ptr, b[ptr..ptr + StrLen(b, ptr)]))
    ensures Filled(before, now[first + n := r], first, n + 1, b, base, start)
    ensures ptr + StrLen(b, ptr) + 1 == NameOffset(b, start, n + 1)
  {
    TerminatedBefore(b, start, count, n);
    assert HDR_SIZE + REC_SIZE * (n + 1) <= |b|;
    assert r == StoredRecord(b, base, start, n);
    FilledNext(before, now, first, n, b, base, start, r);
  }

  lemma FilledNext(before: seq<Record>, now: seq<Record>, first: nat, n: nat, b: seq<Byte>, base: nat, start: nat,
                   r: Record)
    requires Filled(before, now, first, n, b, base, start) && first + n < |now|
    requires HDR_SIZE + REC_SIZE * (n + 1) <= |b| && r == StoredRecord(b, base, start, n)
    ensures Filled(before, now[first + n := r], first, n + 1, b, base, start)
  {
    ReplaceNext(before, first, StoredRecords(b, base, start, n), r);
  }

  /** Nothing wraps in the tests of data that is readable. */
  lemma AcceptedFits(b: seq<Byte>, size: int, nextId: nat, idCount: nat)
    requires HDR_SIZE <= |b| <= WORD_LIMIT && nextId < WORD_LIMIT / 2
    requires Accepted(b, size, nextId, idCount) && Readable(b)
    ensures nextId + WordAt(b, 4) <= idCount
  {
  }

  lemma StoredIsValid(b: seq<Byte>, base: nat, start: nat, count: nat, k: nat)
    requires HDR_SIZE + REC_SIZE * count == start <= |b| && k < count && base + |b| <= WORD_LIMIT
    requires Terminated(b, start, count)
    ensures ValidRecord(StoredRecord(b, base, start, k))
  {
    TerminatedBefore(b, start, count, k);
    StringHasNoZero(b, NameOffset(b, start, k));
  }

  lemma StoredAreValid(b: seq<Byte>, base: nat, start: nat, count: nat)
    requires HDR_SIZE + REC_SIZE * count == start <= |b| && base + |b| <= WORD_LIMIT
    requires Terminated(b, start, count)
    ensures AllValid(StoredRecords(b, base, start, count))
  {
    var rs := StoredRecords(b, base, start, count);
    forall k | 0 <= k < |rs|
      ensures ValidRecord(rs[k])
    {
      StoredRecordsAt(b, base, start, count, k);
      StoredIsValid(b, base, start, count, k);
    }
  }

  lemma FilledIsValid(before: seq<Record>, now: seq<Record>, first: nat, n: nat, b: seq<Byte>, base: nat, start: nat)
    requires start == HDR_SIZE + REC_SIZE * n <= |b| && base + |b| <= WORD_LIMIT
    requires Filled(before, now, first, n, b, base, start) && Terminated(b, start, n) && AllValid(before)
    ensures AllValid(now)
  {
    StoredAreValid(b, base, start, n);
  }

  class Stages {
    const record: array<Record>
    const userBase: nat         // BOOTSTAGE_ID_USER; record.Length is BOOTSTAGE_ID_COUNT
    var nextId: nat

    constructor (record: array<Record>, userBase: nat)
      ensures this.record == record && this.userBase == userBase && nextId == userBase
    {
      this.record, this.userBase, nextId := record, userBase, userBase;
    }

    ghost predicate Valid()
      reads this, record
    {
      record.Length < 0x1000 && nextId < WORD_LIMIT / 2 && AllValid(record[..])
    }

    method CountKept() returns (count: nat)
      ensures count == |Kept(record[..])|
    {
      ghost var rs := record[..];
      count := 0;
      for id := 0 to record.Length
        invariant count == |Kept(rs[..id])|
      {
        KeptSnoc(rs, id);
        if record[id].time != 0 { count := count + 1; }
      }
      assert rs[..record.Length] == rs;
    }

    method AppendRecords(buf: array<Byte>, end: nat, ghost before: seq<Byte>, ghost h: seq<Byte>) returns (ptr: nat)
      requires end <= buf.Length && RecordsWritten(before, buf[..], end, h, [], HDR_SIZE)
      modifies buf
      ensures RecordsWritten(before, buf[..], end, h, record[..], ptr)
    {
      ghost var rs := record[..];
      ptr := HDR_SIZE;
      for id := 0 to record.Length
        invariant RecordsWritten(before, buf[..], end, h, rs[..id], ptr)
      {
        ghost var now, was := buf[..], ptr;
        if record[id].time != 0 {
          ptr := AppendData(buf, ptr, end, RecordBytes(record[id]));
        }
        RecordsStep(before, now, buf[..], end, h, rs, id, was, ptr);
      }
      assert rs[..record.Length] == rs;
    }

    method AppendNames(buf: array<Byte>, start: nat, end: nat, ghost before: seq<Byte>, ghost h: seq<Byte>)
      returns (ptr: nat)
      requires end <= buf.Length && NamesWritten(before, buf[..], end, h, userBase, [], start)
      modifies buf
      ensures NamesWritten(before, buf[..], end, h, userBase, record[..], ptr)
    {
      ghost var rs := record[..];
      ptr := start;
      for id := 0 to record.Length
        invariant NamesWritten(before, buf[..], end, h, userBase, rs[..id], ptr)
      {
        ghost var now, was := buf[..], ptr;
        var name := PrintableName(userBase, record[id]) + [0];
        if record[id].time != 0 {
          ptr := AppendData(buf, ptr, end, name);
        }
        NamesStep(before, now, buf[..], end, h, userBase, rs, id, was, ptr, name);
      }
      assert rs[..record.Length] == rs;
    }

    method PutHeader(buf: array<Byte>, count: nat, size: nat)
      requires HDR_SIZE <= size <= buf.Length
      modifies buf
      ensures RecordsWritten(old(buf[..]), buf[..], size, Header(count, 0), [], HDR_SIZE)
    {
      ghost var b0 := buf[..];
      PutWord(buf, 0, BOOTSTAGE_VERSION);
      ghost var b1 := buf[..];
      PutWord(buf, 4, count);
      ghost var b2 := buf[..];
      PutWord(buf, 8, 0);
      ghost var b3 := buf[..];
      PutWord(buf, 12, BOOTSTAGE_MAGIC);
      HeaderStored(count, b0, b1, b2, b3, buf[..], size);
    }

    /** `bootstage_stash`. */
    method Stash(buf: array<Byte>, size: int) returns (ret: int)
      requires Valid() && size <= buf.Length
      modifies buf
      ensures Valid()
      ensures Stashed(Kept(record[..]), PrintableNames(userBase, Kept(record[..])), old(buf[..]), buf[..], size, ret)
    {
      ghost var before, table := buf[..], record[..];
      if HDR_SIZE > size { return -1; }
      var count := CountKept();
      PutHeader(buf, count, size);
      var ptr := AppendRecords(buf, size, before, Header(count, 0));
      NamesBegin(before, buf[..], size, Header(count, 0), userBase, table, ptr);
      ptr := AppendNames(buf, ptr, size, before, Header(count, 0) + RecordArea(Kept(table)));
      ghost var now := buf[..];
      if ptr > size {
        ret := -1;
      } else {
        PutWord(buf, 8, ptr);
        ret := 0;
      }
      StashEnds(table, userBase, before, now, buf[..], size, ptr);
    }

    /** `bootstage_unstash`; the buffer begins at address `base`. */
    method Unstash(buf: array<Byte>, base: nat, size: int) returns (ret: int)
      requires Valid() && size <= buf.Length && base + buf.Length <= WORD_LIMIT
      requires size == -1 ==> HDR_SIZE <= buf.Length
      requires Accepted(buf[..], size, nextId, record.Length) ==> Readable(buf[..])
      modifies this`nextId, record
      ensures Valid()
      ensures Restored(old(record[..]), record[..], old(nextId), nextId, buf[..], base, size, ret)
    {
      ret := -1;
      if Accepted(buf[..], size, nextId, record.Length) {
        AcceptedFits(buf[..], size, nextId, record.Length);
        ret := Restore(buf[..], base, size);
      }
    }

    /** Takes over the records of data that is accepted. */
    method Restore(b: seq<Byte>, base: nat, ghost size: int) returns (ret: int)
      requires Valid() && base + |b| <= WORD_LIMIT && HDR_SIZE <= |b|
      requires Accepted(b, size, nextId, record.Length) && Readable(b) && nextId + WordAt(b, 4) <= record.Length
      modifies this`nextId, record
      ensures Valid()
      ensures Restored(old(record[..]), record[..], old(nextId), nextId, b, base, size, ret)
    {
      ghost var table, first := record[..], nextId;
      var count := WordAt(b, 4);
      ReadRecords(b, base, count);
      RestoredIs(table, record[..], first, b, base, size, count, HDR_SIZE + REC_SIZE * count);
      nextId := nextId + count;
      ret := 0;
    }

    method ReadRecords(b: seq<Byte>, base: nat, count: nat)
      requires nextId + count <= record.Length && HDR_SIZE + REC_SIZE * count <= |b|
      requires Terminated(b, HDR_SIZE + REC_SIZE * count, count) && base + |b| <= WORD_LIMIT && AllValid(record[..])
      modifies record
      ensures AllValid(record[..])
      ensures Filled(old(record[..]), record[..], nextId, count, b, base, HDR_SIZE + REC_SIZE * count)
    {
      var start := HDR_SIZE + REC_SIZE * count;
      ghost var before := record[..];
      CopyRecords(b, base, count, start);
      FilledIsValid(before, record[..], nextId, count, b, base, start);
    }

    /** Copies the records, each with a pointer to its name in the buffer instead of the one stored. */
    method CopyRecords(b: seq<Byte>, base: nat, count: nat, start: nat)
      requires nextId + count <= record.Length && start == HDR_SIZE + REC_SIZE * count <= |b|
      requires Terminated(b, start, count)
      modifies record
      ensures Filled(old(record[..]), record[..], nextId, count, b, base, start)
    {
      ghost var before := record[..];
      var ptr := start;
      for id := 0 to count
        invariant ptr == NameOffset(b, start, id)
        invariant Filled(before, record[..], nextId, id, b, base, start)
      {
        ptr := ReadRecord(b, base, count, start, id, ptr, before);
      }
    }

    method ReadRecord(b: seq<Byte>, base: nat, count: nat, start: nat, id: nat, ptr: nat, ghost before: seq<Record>)
      returns (ptr': nat)
      requires start == HDR_SIZE + REC_SIZE * count <= |b| && Terminated(b, start, count)
      requires id < count && nextId + count <= record.Length && ptr == NameOffset(b, start, id)
      requires Filled(before, record[..], nextId, id, b, base, start)
      modifies record
      ensures Filled(before, record[..], nextId, id + 1, b, base, start) && ptr' == NameOffset(b, start, id + 1)
    {
      var r := RecordAt(b, HDR_SIZE + REC_SIZE * id, To(base + ptr, b[ptr..ptr + StrLen(b, ptr)]));
      ghost var now := record[..];
      ReadStep(before, now, nextId, id, b, base, start, count, ptr, r);
      record[nextId + id] := r;
      assert record[..] == now[nextId + id := r];
      ptr' := ptr + StrLen(b, ptr) + 1;
    }
  }

  /** The k-th stashed record stands at its place in the table, under its printable name. */
  ghost predicate Back(rs: seq<Record>, names: seq<Name>, table: seq<Record>, first: nat, base: nat, start: nat, k: nat)
    requires k < |rs| == |names|
  {
    first + k < |table| && table[first + k] == Renamed(rs[k], base + start + |Joined(names[..k])|, names[k])
  }

  lemma FilledComesBack(rs: seq<Record>, names: seq<Name>, b: seq<Byte>, base: nat, start: nat,
                        table: seq<Record>, after: seq<Record>, first: nat, k: nat)
    requires k < |rs| == |names| && Filled(table, after, first, |rs|, b, base, start)
    requires ComesBack(rs, names, b, base, start, k)
    ensures Back(rs, names, after, first, base, start, k)
  {
    StoredRecordsAt(b, base, start, |rs|, k);
  }

  /** The table with the stashed records appended at `first`, and nothing else changed. */
  ghost predicate AllBack(rs: seq<Record>, names: seq<Name>, table: seq<Record>, after: seq<Record>, first: nat, next: nat,
                          base: nat, start: nat)
  {
    && |rs| == |names| && next == first + |rs| <= |table| == |after|
    && after[..first] == table[..first] && after[next..] == table[next..]
    && forall k :: 0 <= k < |rs| ==> Back(rs, names, after, first, base, start, k)
  }

  lemma FilledIsAllBack(rs: seq<Record>, names: seq<Name>, b: seq<Byte>, base: nat, start: nat,
                        table: seq<Record>, after: seq<Record>, first: nat, next: nat)
    requires |rs| == |names| && next == first + |rs| && Filled(table, after, first, |rs|, b, base, start)
    requires forall k :: 0 <= k < |rs| ==> ComesBack(rs, names, b, base, start, k)
    ensures AllBack(rs, names, table, after, first, next, base, start)
  {
    forall k | 0 <= k < |rs|
      ensures Back(rs, names, after, first, base, start, k)
    {
      FilledComesBack(rs, names, b, base, start, table, after, first, k);
    }
  }

  lemma RestoredIsAllBack(rs: seq<Record>, names: seq<Name>, b: seq<Byte>, base: nat, start: nat, size: int,
                          table: seq<Record>, after: seq<Record>, first: nat, next: nat, ret: int)
    requires HDR_SIZE <= |b| && WordAt(b, 4) == |rs| == |names|
    requires Restored(table, after, first, next, b, base, size, ret) && start == HDR_SIZE + REC_SIZE * |rs|
    requires forall k :: 0 <= k < |rs| ==> ComesBack(rs, names, b, base, start, k)
    ensures if Accepted(b, size, first, |table|)
            then ret == 0 && AllBack(rs, names, table, after, first, next, base, start)
            else ret == -1 && after == table && next == first
  {
    if Accepted(b, size, first, |table|) {
      FilledIsAllBack(rs, names, b, base, start, table, after, first, next);
    }
  }

  lemma ImageIsReadable(rs: seq<Record>, names: seq<Name>, b: seq<Byte>)
    requires AllValid(rs) && |rs| == |names| && Has(b, 0, Image(rs, names)) && HDR_SIZE <= |b| < WORD_LIMIT
    requires forall j :: 0 <= j < |names| ==> 0 !in names[j]
    ensures Readable(b)
  {
    ImageIsAccepted(rs, names, b, 0, 0, 0);
    ImageReadsBack(rs, names, b, 0, HDR_SIZE + REC_SIZE * |rs|);
  }

  /** Unstashing a finished image of n bytes. */
  lemma UnstashImage(rs: seq<Record>, names: seq<Name>, b: seq<Byte>, n: nat, base: nat, start: nat, size: int,
                     table: seq<Record>, after: seq<Record>, first: nat, next: nat, ret: int)
    requires start == HDR_SIZE + REC_SIZE * |rs| && AllValid(rs) && |rs| == |names| && n == |Image(rs, names)|
    requires Has(b, 0, Image(rs, names)) && forall j :: 0 <= j < |names| ==> 0 !in names[j]
    requires HDR_SIZE <= |b| < WORD_LIMIT && size <= |b| && first < WORD_LIMIT / 2
    requires Restored(table, after, first, next, b, base, size, ret)
    ensures if (size == -1 || n <= size) && first + |rs| <= |table|
            then ret == 0 && AllBack(rs, names, table, after, first, next, base, start)
            else ret == -1 && after == table && next == first
  {
    ImageIsAccepted(rs, names, b, size, first, |table|);
    ImageReadsBack(rs, names, b, base, start);
    RestoredIsAllBack(rs, names, b, base, start, size, table, after, first, next, ret);
  }

  /**
   Stash, then unstash. If the stash succeeded, the unstash succeeds exactly when it may read the whole image and has
   enough free slots, and then appends the stashed records, in order, each under its printable name, and changes
   nothing else. If the stash ran out of room, no unstash of the buffer succeeds; if there was not even room for a
   header, none of the same size does.
   */
  lemma StashThenUnstash(rs: seq<Record>, names: seq<Name>, before: seq<Byte>, b: seq<Byte>, stashSize: int, stashRet: int,
                         base: nat, start: nat, size: int, table: seq<Record>, after: seq<Record>, first: nat, next: nat,
                         ret: int)
    requires start == HDR_SIZE + REC_SIZE * |rs| && AllValid(rs) && |rs| == |names| < 0x1000
    requires Stashed(rs, names, before, b, stashSize, stashRet) && forall j :: 0 <= j < |names| ==> 0 !in names[j]
    requires HDR_SIZE <= |b| < WORD_LIMIT && size <= |b| && first < WORD_LIMIT / 2
    requires Restored(table, after, first, next, b, base, size, ret)
    ensures stashRet == 0 ==>
      && Readable(b)
      && if (size == -1 || |Image(rs, names)| <= size) && first + |rs| <= |table|
         then ret == 0 && AllBack(rs, names, table, after, first, next, base, start)
         else ret == -1 && after == table && next == first
    ensures stashRet != 0 && (HDR_SIZE <= stashSize || size == stashSize != -1) ==>
      ret == -1 && after == table && next == first
  {
    if stashRet == 0 {
      assert Has(b, 0, Image(rs, names));
      ImageIsReadable(rs, names, b);
      UnstashImage(rs, names, b, |Image(rs, names)|, base, start, size, table, after, first, next, ret);
    } else if HDR_SIZE <= stashSize {
      UnfinishedIsRejected(|rs|, b, size, first, |table|);
    }
  }

  /** The records and names `Stash` writes meet the demands of the lemma above. */
  lemma TableCanBeStashed(table: seq<Record>, userBase: nat)
    requires AllValid(table) && |table| < 0x1000
    ensures var rs := Kept(table);
            var names := PrintableNames(userBase, rs);
            && AllValid(rs) && |rs| == |names| < 0x1000 && (forall j :: 0 <= j < |names| ==> 0 !in names[j])
            && forall j :: 0 <= j < |rs| ==> rs[j].time != 0
  {
    KeptIsValid(table);
    NamesHaveNoZero(userBase, Kept(table));
  }
}
