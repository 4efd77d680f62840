/**
 Stashing boot stage records in memory and reading them back, common/bootstage.c.
 Words are 32 bits, stored least significant byte first.
 */
module Bootstage {
  import opened Basics

  const BOOTSTAGE_VERSION := 0
  const BOOTSTAGE_MAGIC := 0xb00757a3
  const HDR_SIZE := 16
  const REC_SIZE := 20

  /** A string without its terminator. */
  type Name = seq<Byte>

  /** A pointer to a string, with the string it points to. */
  datatype Pointer = Null | To(address: nat, text: Name)

  datatype Record = Record(time: nat, start: nat, name: Pointer, flags: nat, id: nat)

  ghost predicate ValidRecord(r: Record) {
    && r.time < WORD_LIMIT && r.start < WORD_LIMIT && r.flags < WORD_LIMIT && r.id < WORD_LIMIT
    && (r.name.To? ==> r.name.address < WORD_LIMIT && 0 !in r.name.text)
  }

  ghost predicate AllValid(rs: seq<Record>) {
    forall k :: 0 <= k < |rs| ==> ValidRecord(rs[k])
  }

  // ---------------------------------------------------------------- words

  /** A 32-bit word, least significant byte first. */
  function Word(x: nat): (b: seq<Byte>)
    ensures |b| == 4
  {
    [x % 256, x / 256 % 256, x / 256 / 256 % 256, x / 256 / 256 / 256 % 256]
  }

  function Words(xs: seq<nat>): (b: seq<Byte>)
    ensures |b| == 4 * |xs|
  {
    if xs == [] then [] else Words(xs[..|xs| - 1]) + Word(xs[|xs| - 1])
  }

  /** The number whose bytes are w, least significant first. */
  function Value(w: seq<Byte>): nat {
    if w == [] then 0 else w[0] + 256 * Value(w[1..])
  }

  lemma ValueOfWord(w: seq<Byte>)
    requires |w| == 4
    ensures Value(w) == w[0] as int + 256 * w[1] as int + 65536 * w[2] as int + 16777216 * w[3] as int < WORD_LIMIT
  {
    assert w[1..][1..] == w[2..] && w[2..][1..] == w[3..] && w[3..][1..] == [];
    assert Value(w[3..]) == w[3];
    assert Value(w[2..]) == w[2] + 256 * Value(w[3..]);
    assert Value(w[1..]) == w[1] + 256 * Value(w[2..]);
  }

  function WordAt(b: seq<Byte>, i: nat): (x: nat)
    requires i + 4 <= |b|
    ensures x < WORD_LIMIT
  {
    ValueOfWord(b[i..i + 4]);
    Value(b[i..i + 4])
  }

  lemma FourDigits(x: nat)
    requires x < WORD_LIMIT
    ensures x == x % 256 + 256 * (x / 256 % 256) + 65536 * (x / 256 / 256 % 256) + 16777216 * (x / 256 / 256 / 256 % 256)
  {
    var y := x / 256;
    var z := y / 256;
    var w := z / 256;
    assert x == x % 256 + 256 * y && y == y % 256 + 256 * z && z == z % 256 + 256 * w;
    assert w < 256;
  }

  lemma WordReadsBack(x: nat, b: seq<Byte>, i: nat)
    requires x < WORD_LIMIT && Has(b, i, Word(x))
    ensures WordAt(b, i) == x
  {
    ValueOfWord(Word(x));
    FourDigits(x);
  }

  lemma {:induction false} WordsReadBack(xs: seq<nat>, b: seq<Byte>, i: nat, k: nat)
    requires k < |xs| && xs[k] < WORD_LIMIT && Has(b, i, Words(xs))
    ensures i + 4 * k + 4 <= |b| && WordAt(b, i + 4 * k) == xs[k]
  {
    var init, last := xs[..|xs| - 1], xs[|xs| - 1];
    HasConcat(b, i, Words(init), Word(last));
    if k < |init| {
      WordsReadBack(init, b, i, k);
    } else {
      WordReadsBack(last, b, i + 4 * k);
    }
  }

  // ---------------------------------------------------------------- the image of a set of records

  function Header(count: nat, size: nat): (b: seq<Byte>)
    ensures |b| == HDR_SIZE
  {
    Words([BOOTSTAGE_VERSION, count, size, BOOTSTAGE_MAGIC])
  }

  function RecordBytes(r: Record): (b: seq<Byte>)
    ensures |b| == REC_SIZE
  {
    Words([r.time, r.start, if r.name.Null? then 0 else r.name.address, r.flags, r.id])
  }

  function Decimal(n: nat): Name {
    if n < 10 then [0x30 + n] else Decimal(n / 10) + [0x30 + n % 10]
  }

  /** A 32-bit word printed as a signed number. */
  function Printed(x: nat): Name {
    if x < WORD_LIMIT / 2 || x >= WORD_LIMIT then Decimal(x) else [0x2d] + Decimal(WORD_LIMIT - x)
  }

  /** `get_record_name`: the record's own name, "user_<n>" or "id=<n>". */
  function PrintableName(userBase: nat, r: Record): Name {
    if r.name.To? then r.name.text
    else if r.id >= userBase then [0x75, 0x73, 0x65, 0x72, 0x5f] + Printed(r.id - userBase)
    else [0x69, 0x64, 0x3d] + Printed(r.id)
  }

  lemma {:induction false} DecimalHasNoZero(n: nat)
    ensures 0 !in Decimal(n)
  {
    if n >= 10 {
      DecimalHasNoZero(n / 10);
    }
  }

  lemma PrintableNameHasNoZero(userBase: nat, r: Record)
    requires ValidRecord(r)
    ensures 0 !in PrintableName(userBase, r)
  {
    if r.name.Null? {
      var n := if r.id >= userBase then r.id - userBase else r.id;
      DecimalHasNoZero(n);
      DecimalHasNoZero(WORD_LIMIT - n);
    }
  }

  /** The records worth keeping, in order. */
  function Kept(rs: seq<Record>): seq<Record> {
    if rs == [] then []
    else Kept(rs[..|rs| - 1]) + if rs[|rs| - 1].time != 0 then [rs[|rs| - 1]] else []
  }

  function RecordArea(rs: seq<Record>): seq<Byte> {
    if rs == [] then [] else RecordArea(rs[..|rs| - 1]) + RecordBytes(rs[|rs| - 1])
  }

  function PrintableNames(userBase: nat, rs: seq<Record>): (ns: seq<Name>)
    ensures |ns| == |rs| && forall k :: 0 <= k < |rs| ==> ns[k] == PrintableName(userBase, rs[k])
  {
    if rs == [] then [] else PrintableNames(userBase, rs[..|rs| - 1]) + [PrintableName(userBase, rs[|rs| - 1])]
  }

  /** Strings one after the other, each with its terminator. */
  function Joined(ns: seq<Name>): seq<Byte> {
    if ns == [] then [] else Joined(ns[..|ns| - 1]) + (ns[|ns| - 1] + [0])
  }

  /** Header, records and names; the size field counts all of it. */
  function Image(rs: seq<Record>, names: seq<Name>): seq<Byte> {
    var body := RecordArea(rs) + Joined(names);
    Header(|rs|, HDR_SIZE + |body|) + body
  }

  lemma {:induction false} RecordAreaLength(rs: seq<Record>)
    ensures |RecordArea(rs)| == REC_SIZE * |rs|
  {
    if rs != [] {
      RecordAreaLength(rs[..|rs| - 1]);
    }
  }

  lemma {:induction false} KeptIsValid(rs: seq<Record>)
    requires AllValid(rs)
    ensures AllValid(Kept(rs)) && |Kept(rs)| <= |rs| && forall r :: 0 <= r < |Kept(rs)| ==> Kept(rs)[r].time != 0
  {
    if rs != [] {
      KeptIsValid(rs[..|rs| - 1]);
    }
  }

  // ---------------------------------------------------------------- reading an image

  /** Length of the string at i, up to a zero byte. */
  function StrLen(b: seq<Byte>, i: nat): (n: nat)
    requires i <= |b|
    ensures i + n <= |b|
    decreases |b| - i
  {
    if i == |b| || b[i] == 0 then 0 else 1 + StrLen(b, i + 1)
  }

  lemma {:induction false} StringHasNoZero(b: seq<Byte>, i: nat)
    requires i <= |b|
    ensures 0 !in b[i..i + StrLen(b, i)]
    decreases |b| - i
  {
    if i < |b| && b[i] != 0 {
      StringHasNoZero(b, i + 1);
      assert b[i..i + StrLen(b, i)] == [b[i]] + b[i + 1..i + 1 + StrLen(b, i + 1)];
    }
  }

  /** Where the k-th of the strings that follow one another from i on begins. */
  function NameOffset(b: seq<Byte>, i: nat, k: nat): (j: nat)
    requires i <= |b|
    ensures j <= |b|
  {
    if k == 0 then i
    else
      var j := NameOffset(b, i, k - 1);
      if j + StrLen(b, j) < |b| then j + StrLen(b, j) + 1 else |b|
  }

  /** There are k terminated strings from i on. */
  ghost predicate Terminated(b: seq<Byte>, i: nat, k: nat)
    requires i <= |b|
  {
    k == 0 || (Terminated(b, i, k - 1) && var j := NameOffset(b, i, k - 1); j + StrLen(b, j) < |b|)
  }

  function NameAt(b: seq<Byte>, i: nat, k: nat): Name
    requires i <= |b|
  {
    var j := NameOffset(b, i, k);
    b[j..j + StrLen(b, j)]
  }

  /** The k-th of the records stored behind the header of b, which begins at address `base`; names from `start` on. */
  function StoredRecord(b: seq<Byte>, base: nat, start: nat, k: nat): Record
    requires HDR_SIZE + REC_SIZE * k + REC_SIZE <= |b| && start <= |b|
  {
    RecordAt(b, HDR_SIZE + REC_SIZE * k, To(base + NameOffset(b, start, k), NameAt(b, start, k)))
  }

  function RecordAt(b: seq<Byte>, i: nat, name: Pointer): Record
    requires i + REC_SIZE <= |b|
  {
    Record(WordAt(b, i), WordAt(b, i + 4), name, WordAt(b, i + 12), WordAt(b, i + 16))
  }

  lemma {:induction false} StrLenIs(b: seq<Byte>, i: nat, x: Name)
    requires 0 !in x && Has(b, i, x + [0])
    ensures i + |x| < |b| && StrLen(b, i) == |x| && Has(b, i, x)
    decreases |x|
  {
    HasConcat(b, i, x, [0]);
    if x == [] {
      assert b[i] == b[i..i + 1][0];
    } else {
      assert x + [0] == [x[0]] + (x[1..] + [0]);
      HasConcat(b, i, [x[0]], x[1..] + [0]);
      assert b[i] == b[i..i + 1][0];
      StrLenIs(b, i + 1, x[1..]);
    }
  }

  /** The strings of a joined area are found where they were put. */
  lemma {:induction false} JoinedEnd(ns: seq<Name>, b: seq<Byte>, i: nat)
    requires Has(b, i, Joined(ns)) && i <= |b| && forall k :: 0 <= k < |ns| ==> 0 !in ns[k]
    ensures Terminated(b, i, |ns|) && NameOffset(b, i, |ns|) == i + |Joined(ns)|
    ensures ns != [] ==> NameAt(b, i, |ns| - 1) == ns[|ns| - 1]
  {
    if ns != [] {
      var init, last := ns[..|ns| - 1], ns[|ns| - 1];
      HasConcat(b, i, Joined(init), last + [0]);
      JoinedEnd(init, b, i);
      StrLenIs(b, i + |Joined(init)|, last);
    }
  }

  /** Reading the k-th string from a joined area gives the k-th string it was made from. */
  lemma {:induction false} JoinedReadsBack(ns: seq<Name>, b: seq<Byte>, i: nat, k: nat)
    requires Has(b, i, Joined(ns)) && i <= |b| && k < |ns| && forall j :: 0 <= j < |ns| ==> 0 !in ns[j]
    ensures NameAt(b, i, k) == ns[k] && NameOffset(b, i, k) == i + |Joined(ns[..k])|
  {
    var init := ns[..|ns| - 1];
    HasConcat(b, i, Joined(init), ns[|ns| - 1] + [0]);
    if k == |ns| - 1 {
      JoinedEnd(ns, b, i);
      JoinedEnd(init, b, i);
    } else {
      JoinedReadsBack(init, b, i, k);
      assert init[..k] == ns[..k];
    }
  }

  lemma NamesHaveNoZero(userBase: nat, rs: seq<Record>)
    requires AllValid(rs)
    ensures forall j :: 0 <= j < |rs| ==> 0 !in PrintableNames(userBase, rs)[j]
  {
    forall j | 0 <= j < |rs|
      ensures 0 !in PrintableNames(userBase, rs)[j]
    {
      PrintableNameHasNoZero(userBase, rs[j]);
    }
  }

  lemma RecordReadsBack(r: Record, b: seq<Byte>, i: nat, name: Pointer)
    requires ValidRecord(r) && Has(b, i, RecordBytes(r))
    ensures RecordAt(b, i, name) == r.(name := name)
  {
    var xs := [r.time, r.start, if r.name.Null? then 0 else r.name.address, r.flags, r.id];
    WordsReadBack(xs, b, i, 0);
    WordsReadBack(xs, b, i, 1);
    WordsReadBack(xs, b, i, 3);
    WordsReadBack(xs, b, i, 4);
  }

  lemma HeaderReadsBack(count: nat, size: nat, b: seq<Byte>)
    requires count < WORD_LIMIT && size < WORD_LIMIT && Has(b, 0, Header(count, size))
    ensures WordAt(b, 0) == BOOTSTAGE_VERSION && WordAt(b, 4) == count && WordAt(b, 8) == size
            && WordAt(b, 12) == BOOTSTAGE_MAGIC
  {
    var xs := [BOOTSTAGE_VERSION, count, size, BOOTSTAGE_MAGIC];
    WordsReadBack(xs, b, 0, 0);
    WordsReadBack(xs, b, 0, 1);
    WordsReadBack(xs, b, 0, 2);
    WordsReadBack(xs, b, 0, 3);
  }

  lemma {:induction false} RecordsReadBack(rs: seq<Record>, b: seq<Byte>, i: nat, k: nat)
    requires Has(b, i, RecordArea(rs)) && k < |rs|
    ensures Has(b, i + REC_SIZE * k, RecordBytes(rs[k]))
  {
    var init := rs[..|rs| - 1];
    RecordAreaLength(init);
    HasConcat(b, i, RecordArea(init), RecordBytes(rs[|rs| - 1]));
    if k < |init| {
      RecordsReadBack(init, b, i, k);
    }
  }

  lemma HasThree(b: seq<Byte>, h: seq<Byte>, x: seq<Byte>, y: seq<Byte>)
    ensures Has(b, 0, h + (x + y)) <==> Has(b, 0, h) && Has(b, |h|, x) && Has(b, |h| + |x|, y)
  {
    HasConcat(b, 0, h, x + y);
    HasConcat(b, |h|, x, y);
  }

  /** Header, record area and name area of an image. */
  lemma ImageParts(rs: seq<Record>, names: seq<Name>, b: seq<Byte>)
    ensures |Image(rs, names)| == HDR_SIZE + REC_SIZE * |rs| + |Joined(names)|
    ensures Has(b, 0, Image(rs, names)) ==>
              && Has(b, 0, Header(|rs|, |Image(rs, names)|))
              && Has(b, HDR_SIZE, RecordArea(rs))
              && Has(b, HDR_SIZE + REC_SIZE * |rs|, Joined(names))
  {
    var x, y := RecordArea(rs), Joined(names);
    HasThree(b, Header(|rs|, HDR_SIZE + |x + y|), x, y);
    RecordAreaLength(rs);
  }

  /** A stashed record as it comes back: everything but the name kept, the name a copy in the stash. */
  function Renamed(r: Record, address: nat, text: Name): Record {
    r.(name := To(address, text))
  }

  /** The k-th record comes back with everything but its name, and with the k-th name as found in the stash. */
  ghost predicate ComesBack(rs: seq<Record>, names: seq<Name>, b: seq<Byte>, base: nat, start: nat, k: nat) {
    && k < |rs| == |names| && HDR_SIZE + REC_SIZE * k + REC_SIZE <= |b| && start <= |b|
    && StoredRecord(b, base, start, k) == Renamed(rs[k], base + start + |Joined(names[..k])|, names[k])
  }

  lemma StoredReadsBack(rs: seq<Record>, names: seq<Name>, b: seq<Byte>, base: nat, start: nat, k: nat)
    requires k < |rs| == |names| && ValidRecord(rs[k]) && start <= |b|
    requires Has(b, HDR_SIZE + REC_SIZE * k, RecordBytes(rs[k]))
    requires NameAt(b, start, k) == names[k] && NameOffset(b, start, k) == start + |Joined(names[..k])|
    ensures ComesBack(rs, names, b, base, start, k)
  {
    RecordReadsBack(rs[k], b, HDR_SIZE + REC_SIZE * k, To(base + NameOffset(b, start, k), names[k]));
  }

  lemma StoredReadsBackAt(rs: seq<Record>, names: seq<Name>, b: seq<Byte>, base: nat, start: nat, k: nat)
    requires AllValid(rs) && k < |rs| == |names| && start <= |b|
    requires forall j :: 0 <= j < |names| ==> 0 !in names[j]
    requires Has(b, HDR_SIZE, RecordArea(rs)) && Has(b, start, Joined(names))
    ensures ComesBack(rs, names, b, base, start, k)
  {
    JoinedReadsBack(names, b, start, k);
    RecordsReadBack(rs, b, HDR_SIZE, k);
    StoredReadsBack(rs, names, b, base, start, k);
  }

  /** Whether unstash accepts what it finds; `size` is -1 for a buffer of unknown size. */
  predicate Accepted(b: seq<Byte>, size: int, nextId: nat, idCount: nat)
    requires (size == -1 || HDR_SIZE <= size) ==> HDR_SIZE <= |b|
  {
    && (size == -1 || HDR_SIZE <= size)
    && WordAt(b, 12) == BOOTSTAGE_MAGIC
    && (size == -1 || WordAt(b, 8) <= size)
    && REC_SIZE * WordAt(b, 4) % WORD_LIMIT <= WordAt(b, 8)
    && WordAt(b, 0) == BOOTSTAGE_VERSION
    && (nextId + WordAt(b, 4)) % WORD_LIMIT <= idCount
  }

  /** The header asks for so many records that the sum with the next slot wraps, and declares enough bytes for them. */
  predicate WrapsCount(b: seq<Byte>, nextId: nat)
    requires HDR_SIZE <= |b|
  {
    && WordAt(b, 12) == BOOTSTAGE_MAGIC && WordAt(b, 0) == BOOTSTAGE_VERSION
    && nextId + WordAt(b, 4) >= WORD_LIMIT && WORD_LIMIT - REC_SIZE * (WORD_LIMIT - WordAt(b, 4)) <= WordAt(b, 8)
  }

  /** The tests protect the table in a buffer of known size; in one of unknown size they let through exactly the headers
      whose count wraps. */
  lemma TableIsProtected(b: seq<Byte>, size: int, nextId: nat, idCount: nat)
    requires HDR_SIZE <= |b| && size < WORD_LIMIT / 2 && nextId <= idCount < 0x1000
    ensures Accepted(b, size, nextId, idCount) && nextId + WordAt(b, 4) > idCount <==>
            size == -1 && WrapsCount(b, nextId)
  {
    var count := WordAt(b, 4);
    if nextId + count >= WORD_LIMIT {
      var gap := WORD_LIMIT - count;
      assert REC_SIZE * count == WORD_LIMIT * 19 + (WORD_LIMIT - REC_SIZE * gap);
    }
  }

  /** A header of 2^32 - 1 records is accepted in a buffer of unknown size, whatever free slots there are. */
  lemma WrapsCountWitness(b: seq<Byte>, nextId: nat, idCount: nat)
    requires Has(b, 0, Header(0xFFFF_FFFF, 0xFFFF_FFEC)) && 0 < nextId <= idCount < 0x1000
    ensures Accepted(b, -1, nextId, idCount) && nextId + WordAt(b, 4) > idCount
  {
    HeaderReadsBack(0xFFFF_FFFF, 0xFFFF_FFEC, b);
    TableIsProtected(b, -1, nextId, idCount);
  }

  /** What unstash takes for granted of data it accepts: the records and the ends of their names are there. */
  ghost predicate Readable(b: seq<Byte>)
    requires HDR_SIZE <= |b|
  {
    var names := HDR_SIZE + REC_SIZE * WordAt(b, 4);
    names <= |b| && Terminated(b, names, WordAt(b, 4))
  }

  /** The image of a set of records is accepted if and only if it lies inside the buffer and there are enough free slots. */
  lemma ImageIsAccepted(rs: seq<Record>, names: seq<Name>, b: seq<Byte>, size: int, nextId: nat, idCount: nat)
    requires Has(b, 0, Image(rs, names)) && |Image(rs, names)| < WORD_LIMIT
    requires nextId < WORD_LIMIT / 2 && size <= |b|
    ensures |b| >= HDR_SIZE + REC_SIZE * |rs| && WordAt(b, 4) == |rs|
    ensures Accepted(b, size, nextId, idCount) <==>
            (size == -1 || |Image(rs, names)| <= size) && nextId + |rs| <= idCount
  {
    ImageParts(rs, names, b);
    HeaderReadsBack(|rs|, |Image(rs, names)|, b);
  }

  /** Such an image holds exactly these records, in order and under these names. */
  lemma ImageReadsBack(rs: seq<Record>, names: seq<Name>, b: seq<Byte>, base: nat, start: nat)
    requires AllValid(rs) && |rs| == |names| && Has(b, 0, Image(rs, names)) && start == HDR_SIZE + REC_SIZE * |rs|
    requires forall j :: 0 <= j < |names| ==> 0 !in names[j]
    ensures start <= |b| && Terminated(b, start, |rs|)
    ensures forall k :: 0 <= k < |rs| ==> ComesBack(rs, names, b, base, start, k)
  {
    ImageParts(rs, names, b);
    JoinedEnd(names, b, start);
    forall k | 0 <= k < |rs|
      ensures ComesBack(rs, names, b, base, start, k)
    {
      StoredReadsBackAt(rs, names, b, base, start, k);
    }
  }

  /** A header that was never completed is never accepted. */
  lemma UnfinishedIsRejected(count: nat, b: seq<Byte>, size: int, nextId: nat, idCount: nat)
    requires 0 < count && REC_SIZE * count < WORD_LIMIT && Has(b, 0, Header(count, 0))
    ensures !Accepted(b, size, nextId, idCount)
  {
    HeaderReadsBack(count, 0, b);
  }

  // ---------------------------------------------------------------- writing an image

  /** What appending data at ptr does to the buffer. */
  ghost predicate Appended(before: seq<Byte>, after: seq<Byte>, ptr: nat, end: nat, data: seq<Byte>)
    requires end <= |before|
  {
    after == if ptr + |data| <= end then before[..ptr] + data + before[ptr + |data|..] else before
  }

  /** What is left of an attempt to write x over the first `size` bytes: all of x if it fits, its header at least. */
  ghost predicate Wrote(before: seq<Byte>, now: seq<Byte>, size: nat, x: seq<Byte>) {
    && |now| == |before| && HDR_SIZE <= size <= |before| && HDR_SIZE <= |x|
    && now[size..] == before[size..]
    && (|x| <= size ==> now == x + before[|x|..])
    && now[..HDR_SIZE] == x[..HDR_SIZE]
  }

  lemma WroteMore(before: seq<Byte>, now: seq<Byte>, next: seq<Byte>, size: nat, x: seq<Byte>, data: seq<Byte>)
    requires Wrote(before, now, size, x) && Appended(now, next, |x|, size, data)
    ensures Wrote(before, next, size, x + data)
  {
    assert (x + data)[..HDR_SIZE] == x[..HDR_SIZE];
    if |x| + |data| <= size {
      assert now[..|x|] == x && now[|x| + |data|..] == before[|x| + |data|..];
      assert next == x + data + before[|x| + |data|..];
      assert next[size..] == before[size..];
      assert next[..HDR_SIZE] == x[..HDR_SIZE];
    }
  }

  lemma HeaderIs(count: nat, size: nat)
    ensures Header(count, size) == Word(BOOTSTAGE_VERSION) + Word(count) + Word(size) + Word(BOOTSTAGE_MAGIC)
  {
    var v, c, z, m := BOOTSTAGE_VERSION, count, size, BOOTSTAGE_MAGIC;
    assert [v, c, z, m][..3] == [v, c, z] && [v, c, z][..2] == [v, c] && [v, c][..1] == [v] && [v][..0] == [];
    assert Words([v]) == Word(v);
    assert Words([v, c]) == Word(v) + Word(c);
    assert Words([v, c, z]) == Word(v) + Word(c) + Word(z);
  }

  /** Filling in the size field completes the header. */
  lemma HeaderCompleted(count: nat, size: nat, rest: seq<Byte>)
    ensures var b := Header(count, 0) + rest; b[..8] + Word(size) + b[12..] == Header(count, size) + rest
  {
    HeaderIs(count, 0);
    HeaderIs(count, size);
  }

  lemma KeptSnoc(rs: seq<Record>, k: nat)
    requires k < |rs|
    ensures Kept(rs[..k + 1]) == if rs[k].time != 0 then Kept(rs[..k]) + [rs[k]] else Kept(rs[..k])
  {
    assert rs[..k + 1][..k] == rs[..k];
  }

  lemma AreaSnoc(rs: seq<Record>, r: Record)
    ensures RecordArea(rs + [r]) == RecordArea(rs) + RecordBytes(r)
  {
    assert (rs + [r])[..|rs|] == rs;
  }

  lemma NamesSnoc(userBase: nat, rs: seq<Record>, r: Record)
    ensures Joined(PrintableNames(userBase, rs + [r]))
         == Joined(PrintableNames(userBase, rs)) + (PrintableName(userBase, r) + [0])
  {
    assert (rs + [r])[..|rs|] == rs;
    var ns := PrintableNames(userBase, rs);
    assert (ns + [PrintableName(userBase, r)])[..|ns|] == ns;
  }

  /** `append_data`: writes the data if it ends inside the buffer, and moves on in any case. */
  method AppendData(buf: array<Byte>, ptr: nat, end: nat, data: seq<Byte>) returns (ptr': nat)
    requires end <= buf.Length
    modifies buf
    ensures ptr' == ptr + |data| && Appended(old(buf[..]), buf[..], ptr, end, data)
  {
    ptr' := ptr + |data|;
    if ptr' > end { return; }
    forall k | ptr <= k < ptr + |data| {
      buf[k] := data[k - ptr];
    }
  }

  method PutWord(buf: array<Byte>, i: nat, x: nat)
    requires i + 4 <= buf.Length
    modifies buf
    ensures buf[..] == old(buf[..i]) + Word(x) + old(buf[i + 4..])
  {
    var w := Word(x);
    buf[i], buf[i + 1], buf[i + 2], buf[i + 3] := w[0], w[1], w[2], w[3];
  }

  /** What a stash of the records with a time leaves in the buffer. */
  ghost predicate Stashed(rs: seq<Record>, names: seq<Name>, before: seq<Byte>, after: seq<Byte>, size: int, ret: int) {
    && |after| == |before| && size <= |before|
    && ret == (if |Image(rs, names)| <= size then 0 else -1)
    && (ret == 0 ==> after == Image(rs, names) + before[|Image(rs, names)|..])
    && (ret != 0 && size < HDR_SIZE ==> after == before)
    && (ret != 0 && HDR_SIZE <= size ==> rs != [] && Has(after, 0, Header(|rs|, 0)) && after[size..] == before[size..])
  }
}
