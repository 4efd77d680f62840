/** What comes back from a stash, record by record: which records, with which fields and under which names. */
module BootstageNames {
  import opened Basics
  import opened Bootstage
  import opened BootstageStash

  // ---------------------------------------------------------------- which records are kept

  /** The records before index n that have a time. */
  function TimedBefore(rs: seq<Record>, n: nat): set<nat>
    requires n <= |rs|
  {
    set i | 0 <= i < n && rs[i].time != 0
  }

  lemma TimedNext(rs: seq<Record>, n: nat)
    requires n < |rs|
    ensures |TimedBefore(rs, n + 1)| == |TimedBefore(rs, n)| + if rs[n].time != 0 then 1 else 0
  {
    if rs[n].time != 0 {
      assert TimedBefore(rs, n + 1) == TimedBefore(rs, n) + {n};
    } else {
      assert TimedBefore(rs, n + 1) == TimedBefore(rs, n);
    }
  }

  lemma TimedPrefix(rs: seq<Record>, m: nat, n: nat)
    requires n <= m <= |rs|
    ensures TimedBefore(rs[..m], n) == TimedBefore(rs, n)
  {
  }

  /** Every record with a time is kept, at the place given by the number of those before it, and no other is. */
  lemma {:induction false} KeptExactly(rs: seq<Record>)
    ensures |Kept(rs)| == |TimedBefore(rs, |rs|)|
    ensures forall k :: 0 <= k < |rs| && rs[k].time != 0 ==>
              |TimedBefore(rs, k)| < |Kept(rs)| && Kept(rs)[|TimedBefore(rs, k)|] == rs[k]
  {
    if rs != [] {
      var m := |rs| - 1;
      var init := rs[..m];
      KeptExactly(init);
      TimedNext(rs, m);
      TimedPrefix(rs, m, m);
      forall k | 0 <= k < |rs| && rs[k].time != 0
        ensures |TimedBefore(rs, k)| < |Kept(rs)| && Kept(rs)[|TimedBefore(rs, k)|] == rs[k]
      {
        if k < m {
          TimedPrefix(rs, m, k);
          assert init[k] == rs[k];
        }
      }
    }
  }

  // ---------------------------------------------------------------- names

  predicate IsDigit(c: Byte) { 0x30 <= c <= 0x39 }

  /** Digits, and no zero in front of another digit. */
  ghost predicate IsNumeral(t: Name) {
    t != [] && (forall i :: 0 <= i < |t| ==> IsDigit(t[i])) && (|t| > 1 ==> t[0] != 0x30)
  }

  /** The number that digits denote. */
  function ReadNumeral(t: Name): int {
    if t == [] then 0 else 10 * ReadNumeral(t[..|t| - 1]) + (t[|t| - 1] as int - 0x30)
  }

  lemma {:induction false} DecimalReads(n: nat)
    ensures IsNumeral(Decimal(n)) && ReadNumeral(Decimal(n)) == n && (n > 0 ==> Decimal(n)[0] != 0x30)
  {
    var t := Decimal(n);
    if n < 10 {
      assert t[..0] == [];
    } else {
      DecimalReads(n / 10);
      assert t[..|t| - 1] == Decimal(n / 10);
      assert forall i :: 0 <= i < |t| - 1 ==> t[i] == Decimal(n / 10)[i];
    }
  }

  /** A 32-bit word written as a signed decimal number. */
  ghost predicate Denotes(t: Name, x: nat) {
    if x < 0x8000_0000 then IsNumeral(t) && ReadNumeral(t) == x
    else t != [] && t[0] == 0x2d && IsNumeral(t[1..]) && ReadNumeral(t[1..]) == 0x1_0000_0000 - x
  }

  lemma PrintedDenotes(x: nat)
    requires x < WORD_LIMIT
    ensures Denotes(Printed(x), x)
  {
    if x < 0x8000_0000 {
      DecimalReads(x);
    } else {
      DecimalReads(0x1_0000_0000 - x);
      assert Printed(x)[1..] == Decimal(0x1_0000_0000 - x);
    }
  }

  /** The text begins with the characters of s, and a number follows. */
  ghost predicate Labelled(t: Name, s: string, x: nat) {
    && |t| >= |s| && (forall i :: 0 <= i < |s| ==> t[i] == s[i] as int)
    && Denotes(t[|s|..], x)
  }

  /** The name a record goes by: its own; or "user_" with the number behind the first user id; or "id=" with its id. */
  ghost predicate GoesBy(userBase: nat, r: Record, t: Name) {
    if r.name.To? then t == r.name.text
    else if r.id >= userBase then Labelled(t, "user_", r.id - userBase)
    else Labelled(t, "id=", r.id)
  }

  lemma NameIsRight(userBase: nat, r: Record)
    requires ValidRecord(r)
    ensures GoesBy(userBase, r, PrintableName(userBase, r))
  {
    if r.name.Null? {
      var x := if r.id >= userBase then r.id - userBase else r.id;
      PrintedDenotes(x);
      var t, n := PrintableName(userBase, r), if r.id >= userBase then 5 else 3;
      assert t[n..] == Printed(x);
    }
  }

  // ---------------------------------------------------------------- records in memory

  /** The stored form of a record is that of `struct bootstage_record`. */
  lemma RecordLayout(r: Record)
    requires ValidRecord(r)
    ensures var b := RecordBytes(r);
            && WordAt(b, 0) == r.time && WordAt(b, 4) == r.start && WordAt(b, 12) == r.flags && WordAt(b, 16) == r.id
            && WordAt(b, 8) == if r.name.Null? then 0 else r.name.address
  {
    var b, name := RecordBytes(r), if r.name.Null? then 0 else r.name.address;
    var xs := [r.time, r.start, name, r.flags, r.id];
    assert b[0..0 + |Words(xs)|] == Words(xs);
    WordsReadBack(xs, b, 0, 0);
    WordsReadBack(xs, b, 0, 1);
    WordsReadBack(xs, b, 0, 2);
    WordsReadBack(xs, b, 0, 3);
    WordsReadBack(xs, b, 0, 4);
  }

  // ---------------------------------------------------------------- the round trip, record by record

  /** The same record under a name it goes by. */
  ghost predicate SameRecord(userBase: nat, r: Record, back: Record) {
    && back.time == r.time && back.start == r.start && back.flags == r.flags && back.id == r.id
    && back.name.To? && GoesBy(userBase, r, back.name.text)
  }

  /**
   A table that was stashed and is unstashed into another: each record with a time comes back, in the order of the table,
   with its time, start, flags and id, and under its own name if it has one.
   */
  lemma EachComesBack(source: seq<Record>, userBase: nat, before: seq<Byte>, b: seq<Byte>, stashSize: int, base: nat,
                      size: int, table: seq<Record>, after: seq<Record>, first: nat, next: nat)
    requires AllValid(source) && |source| < 0x1000
    requires Stashed(Kept(source), PrintableNames(userBase, Kept(source)), before, b, stashSize, 0)
    requires HDR_SIZE <= |b| < WORD_LIMIT && size <= |b| && first < WORD_LIMIT / 2
    requires Restored(table, after, first, next, b, base, size, 0)
    ensures next == first + |TimedBefore(source, |source|)| <= |after|
    ensures forall k :: 0 <= k < |source| && source[k].time != 0 ==>
              && first + |TimedBefore(source, k)| < next
              && SameRecord(userBase, source[k], after[first + |TimedBefore(source, k)|])
  {
    var rs := Kept(source);
    var names := PrintableNames(userBase, rs);
    TableCanBeStashed(source, userBase);
    StashThenUnstash(rs, names, before, b, stashSize, 0, base, HDR_SIZE + REC_SIZE * |rs|, size, table, after, first, next, 0);
    KeptExactly(source);
    forall k | 0 <= k < |source| && source[k].time != 0
      ensures first + |TimedBefore(source, k)| < next
      ensures SameRecord(userBase, source[k], after[first + |TimedBefore(source, k)|])
    {
      var j := |TimedBefore(source, k)|;
      assert Back(rs, names, after, first, base, HDR_SIZE + REC_SIZE * |rs|, j);
      NameIsRight(userBase, rs[j]);
    }
  }
}
