/**
 I2C buses behind multiplexers, common/cmd_i2c.c: strings such as "pca9547:70:8:pca9544a:72:a" that name the
 multiplexers on the way to a bus, with the chip address and the channel to select on each.
 */
module I2cMux {
  import opened Basics
  import opened Numbers

  const COLON: Byte := 0x3a

  datatype Mux = Mux(name: Text, chip: Byte, channel: Byte)

  datatype Device = Device(busid: nat, muxes: seq<Mux>)

  /** One byte sent to a multiplexer. */
  datatype Write = Write(chip: Byte, channel: Byte)

  // ---------------------------------------------------------------- mux strings

  /** Index of the first colon, or the end. */
  function Colon(t: Text): (n: nat)
    ensures n <= |t| && (n < |t| ==> t[n] == COLON)
  {
    if t == [] || t[0] == COLON then 0 else 1 + Colon(t[1..])
  }

  /** The fields between the colons. */
  function Fields(t: Text): (fs: seq<Text>)
    ensures fs != []
    decreases |t|
  {
    var n := Colon(t);
    if n == |t| then [t] else [t[..n]] + Fields(t[n + 1..])
  }

  /** Name, address and channel of one or more multiplexers, and nothing else. */
  predicate WellFormed(fs: seq<Text>) {
    |fs| == 3 || (|fs| > 3 && WellFormed(fs[3..]))
  }

  /** The number at the front of a text, as a byte. */
  function ByteOf(t: Text): Byte {
    Strtoul(t, 16).value % 256
  }

  /** A field, or nothing in the place of one that is missing. */
  function FieldOr(fs: seq<Text>, k: nat): Text { if k < |fs| then fs[k] else [] }

  /** The first multiplexer named by fields; a number that is missing is read as 0. */
  function FirstMux(fs: seq<Text>): Mux {
    Mux(FieldOr(fs, 0), ByteOf(FieldOr(fs, 1)), ByteOf(FieldOr(fs, 2)))
  }

  /** The fields behind the first multiplexer. */
  function RestOf(fs: seq<Text>): seq<Text> { if |fs| <= 3 then [] else fs[3..] }

  /** The multiplexers named by fields. */
  function Muxes(fs: seq<Text>): seq<Mux>
    decreases |fs|
  {
    if fs == [] then [] else [FirstMux(fs)] + Muxes(RestOf(fs))
  }

  /** Fields with colons between them. */
  function Join(fs: seq<Text>): Text
    requires fs != []
  {
    if |fs| == 1 then fs[0] else fs[0] + ([COLON] + Join(fs[1..]))
  }

  /** The fields of a string written from multiplexers, with two hexadecimal digits for each number. */
  function FieldsOf(ms: seq<Mux>): (fs: seq<Text>)
    ensures |fs| == 3 * |ms|
  {
    if ms == [] then [] else [ms[0].name, HexByte(ms[0].chip), HexByte(ms[0].channel)] + FieldsOf(ms[1..])
  }

  lemma {:induction false} ColonBehind(x: Text, rest: Text)
    requires COLON !in x && (rest == [] || rest[0] == COLON)
    ensures Colon(x + rest) == |x|
  {
    if x == [] {
      assert x + rest == rest;
    } else {
      assert (x + rest)[1..] == x[1..] + rest;
      ColonBehind(x[1..], rest);
    }
  }

  lemma FirstField(x: Text, rest: Text)
    requires COLON !in x
    ensures Fields(x + ([COLON] + rest)) == [x] + Fields(rest)
  {
    var t := x + ([COLON] + rest);
    ColonBehind(x, [COLON] + rest);
    assert t[..|x|] == x && t[|x| + 1..] == rest;
  }

  lemma OnlyField(x: Text)
    requires COLON !in x
    ensures Fields(x) == [x]
  {
    ColonBehind(x, []);
    assert x + [] == x;
  }

  lemma HexHasNoColon(b: Byte)
    ensures COLON !in HexByte(b) && ByteOf(HexByte(b)) == b
  {
    ByteIsRead(b, []);
    assert HexByte(b) + [] == HexByte(b);
  }

  ghost predicate Plain(fs: seq<Text>) {
    forall k :: 0 <= k < |fs| ==> COLON !in fs[k]
  }

  /** Splitting joined fields gives the fields. */
  lemma {:induction false} JoinedReadsBack(fs: seq<Text>)
    requires fs != [] && Plain(fs)
    ensures Fields(Join(fs)) == fs
  {
    if |fs| == 1 {
      OnlyField(fs[0]);
    } else {
      JoinedReadsBack(fs[1..]);
      FirstField(fs[0], Join(fs[1..]));
    }
  }

  lemma {:induction false} FieldsReadBack(ms: seq<Mux>)
    requires forall k :: 0 <= k < |ms| ==> COLON !in ms[k].name
    ensures Plain(FieldsOf(ms)) && Muxes(FieldsOf(ms)) == ms && (ms != [] ==> WellFormed(FieldsOf(ms)))
  {
    if ms != [] {
      var m, rest := ms[0], FieldsOf(ms[1..]);
      FieldsReadBack(ms[1..]);
      HexHasNoColon(m.chip);
      HexHasNoColon(m.channel);
      ThreeMore(m.name, HexByte(m.chip), HexByte(m.channel), rest);
      assert [m] + ms[1..] == ms;
    }
  }

  lemma ThreeMore(x: Text, y: Text, z: Text, rest: seq<Text>)
    requires COLON !in x && COLON !in y && COLON !in z && Plain(rest) && (rest == [] || WellFormed(rest))
    ensures var fs := [x, y, z] + rest;
            Plain(fs) && WellFormed(fs) && Muxes(fs) == [Mux(x, ByteOf(y), ByteOf(z))] + Muxes(rest)
  {
    var fs := [x, y, z] + rest;
    assert fs[3..] == rest && RestOf(fs) == rest;
    assert forall k :: 3 <= k < |fs| ==> fs[k] == rest[k - 3];
  }

  /** Reading a string written from multiplexers gives these multiplexers. */
  lemma ShownReadsBack(ms: seq<Mux>)
    requires ms != [] && forall k :: 0 <= k < |ms| ==> COLON !in ms[k].name
    ensures WellFormed(Fields(Join(FieldsOf(ms)))) && Muxes(Fields(Join(FieldsOf(ms)))) == ms
  {
    FieldsReadBack(ms);
    JoinedReadsBack(FieldsOf(ms));
  }

  // ---------------------------------------------------------------- what is sent

  /** The writes attempted for a list of multiplexers when n writes were attempted before: up to the first failure. */
  function Attempts(ms: seq<Mux>, n: nat, answers: nat -> bool): seq<Write> {
    if ms == [] then []
    else [Write(ms[0].chip, ms[0].channel)] + if answers(n) then Attempts(ms[1..], n + 1, answers) else []
  }

  predicate Succeeds(ms: seq<Mux>, n: nat, answers: nat -> bool) {
    ms == [] || (answers(n) && Succeeds(ms[1..], n + 1, answers))
  }

  /** The writes are those of the multiplexers, in order; a selection that succeeds reaches all of them. */
  lemma {:induction false} AttemptsAll(ms: seq<Mux>, n: nat, answers: nat -> bool)
    ensures |Attempts(ms, n, answers)| <= |ms|
    ensures forall k :: 0 <= k < |Attempts(ms, n, answers)| ==>
              Attempts(ms, n, answers)[k] == Write(ms[k].chip, ms[k].channel)
    ensures Succeeds(ms, n, answers) ==> |Attempts(ms, n, answers)| == |ms|
    ensures Succeeds(ms, n, answers) <==> forall k :: n <= k < n + |ms| ==> answers(k)
  {
    if ms != [] {
      AttemptsAll(ms[1..], n + 1, answers);
      var later := Attempts(ms[1..], n + 1, answers);
      var w := Write(ms[0].chip, ms[0].channel);
      assert forall k :: 1 <= k < |[w] + later| ==> ([w] + later)[k] == later[k - 1];
      assert forall k :: 1 <= k < |ms| ==> ms[k] == ms[1..][k - 1];
    }
  }

  // ---------------------------------------------------------------- walking over a string in place

  /** The buffer holds the string, its terminator and at least two bytes more. */
  ghost predicate Holds(b: Text, s: Text) {
    |s| + 2 < |b| && b[..|s|] == s && b[|s|] == 0 && 0 !in s
  }

  lemma HeldString(b: Text, s: Text)
    requires Holds(b, s)
    ensures CString(b) == s
  {
    CStringIs(b, |s|);
  }

  lemma {:induction false} CStringIs(t: Text, n: nat)
    requires n < |t| && t[n] == 0 && 0 !in t[..n]
    ensures CString(t) == t[..n]
  {
    if n > 0 {
      assert t[..n] == [t[0]] + t[1..][..n - 1];
      CStringIs(t[1..], n - 1);
    }
  }

  /** The fields from pos on; none behind the end. */
  function FieldsAt(s: Text, pos: nat): seq<Text> { if pos <= |s| then Fields(s[pos..]) else [] }

  /** The field at pos ends at n; behind the end of the string a field is empty. */
  ghost predicate EndAt(s: Text, pos: nat, n: nat) {
    if pos > |s| then n == pos
    else pos <= n <= |s| && (n < |s| ==> s[n] == COLON) && forall i :: pos <= i < n ==> s[i] != COLON
  }

  lemma {:induction false} ColonFrom(t: Text, i: nat)
    requires i <= |t| && COLON !in t[..i]
    ensures Colon(t) == i + Colon(t[i..])
  {
    if i == 0 {
      assert t[0..] == t;
    } else {
      assert t[0] == t[..i][0];
      assert t[1..][..i - 1] == t[..i][1..];
      ColonFrom(t[1..], i - 1);
      assert t[1..][i - 1..] == t[i..];
    }
  }

  lemma ColonAt(s: Text, pos: nat, n: nat)
    requires EndAt(s, pos, n) && pos <= |s|
    ensures Colon(s[pos..]) == n - pos
  {
    var t := s[pos..];
    ColonFrom(t, n - pos);
    assert n < |s| ==> t[n - pos..][0] == s[n];
  }

  /** The field at pos ends at n, and the other fields begin behind n. */
  lemma FieldStep(s: Text, pos: nat, n: nat)
    requires EndAt(s, pos, n)
    ensures pos <= |s| ==> FieldsAt(s, pos) == [s[pos..n]] + FieldsAt(s, n + 1)
    ensures n >= |s| <==> FieldsAt(s, n + 1) == []
  {
    if pos <= |s| {
      var t := s[pos..];
      ColonAt(s, pos, n);
      assert t[..n - pos] == s[pos..n];
      if n < |s| {
        assert t[n - pos + 1..] == s[n + 1..];
      } else {
        assert t == s[pos..n] && [t] + [] == [t];
      }
    }
  }

  /** `i2c_mux_search_next`: 0 with the place of the next colon, or 1 at the end or behind it. */
  method SearchNext(buf: array<Byte>, pos: nat, len: nat) returns (n: nat, ret: int)
    requires pos < buf.Length && len < buf.Length
    ensures EndAt(buf[..len], pos, n) && ret == if n >= len then 1 else 0
  {
    n := pos;
    while buf[n] != COLON && n < len
      invariant pos <= n < buf.Length && (pos <= len ==> n <= len) && (pos > len ==> n == pos)
      invariant forall i :: pos <= i < n ==> buf[i] != COLON
      decreases len - n
    {
      n := n + 1;
    }
    ret := if n >= len then 1 else 0;
  }

  /** The string at pos, once it is ended at n, reads as what is between. */
  lemma EndedAt(t: Text, pos: nat, n: nat)
    requires pos <= n < |t| && t[n] == 0 && 0 !in t[pos..n]
    ensures CString(t[pos..]) == t[pos..n]
  {
    assert t[pos..][..n - pos] == t[pos..n];
    CStringIs(t[pos..], n - pos);
  }

  /** The address: ends the field at n, reads the number in it and puts a colon there. */
  method AddressAt(buf: array<Byte>, pos: nat, n: nat) returns (v: Byte)
    requires pos <= n < buf.Length && 0 !in buf[pos..n]
    modifies buf
    ensures buf[..] == old(buf[..])[n := COLON] && v == ByteOf(old(buf[pos..n]))
  {
    buf[n] := 0;
    assert buf[..][pos..n] == old(buf[pos..n]);
    EndedAt(buf[..], pos, n);
    v := ByteOf(CString(buf[..][pos..]));
    buf[n] := COLON;
  }

  /** The channel: the same, but a terminator stays one. */
  method ChannelAt(buf: array<Byte>, pos: nat, n: nat) returns (v: Byte)
    requires pos <= n < buf.Length && 0 !in buf[pos..n]
    modifies buf
    ensures buf[..] == Closed(old(buf[..]), n) && v == ByteOf(old(buf[pos..n]))
  {
    var was := buf[n] != 0;
    if was { buf[n] := 0; }
    assert buf[..][pos..n] == old(buf[pos..n]);
    EndedAt(buf[..], pos, n);
    v := ByteOf(CString(buf[..][pos..]));
    if was { buf[n] := COLON; }
  }

  /** What the channel leaves at n. */
  function Closed(b: Text, n: nat): (r: Text)
    requires n < |b|
    ensures |r| == |b|
  {
    if b[n] == 0 then b else b[n := COLON]
  }

  /** What a round leaves in memory if it finds k fields in a string that ends at len. */
  function Spoilt(b: Text, len: nat, k: nat): (r: Text)
    requires len + 2 < |b|
    ensures |r| == |b|
  {
    if k == 1 then Closed(b[len + 1 := COLON], len + 2)
    else if k == 2 then Closed(b[len := COLON], len + 1)
    else b
  }

  /** What either parser leaves in memory: it is the last round that may find too few fields. */
  function Left(b: Text, s: Text): (r: Text)
    requires |s| + 2 < |b|
    ensures |r| == |b|
  {
    Spoilt(b, |s|, |Fields(s)| % 3)
  }

  lemma {:induction false} WellFormedIsThrees(fs: seq<Text>)
    ensures WellFormed(fs) <==> fs != [] && |fs| % 3 == 0
  {
    if |fs| > 3 {
      WellFormedIsThrees(fs[3..]);
    }
  }

  /** Memory is left unchanged exactly by well-formed strings, and by those that miss two fields of the last multiplexer
      and are followed by a colon and then a colon or a zero. */
  lemma UnchangedExactly(b: Text, s: Text)
    requires Holds(b, s)
    ensures Left(b, s) == b <==>
            || WellFormed(Fields(s))
            || (|Fields(s)| % 3 == 1 && b[|s| + 1] == COLON && (b[|s| + 2] == 0 || b[|s| + 2] == COLON))
  {
    WellFormedIsThrees(Fields(s));
    var k, n := |Fields(s)| % 3, |s|;
    var r := Left(b, s);
    if k == 1 {
      assert r[n + 1] == COLON && (b[n + 2] != 0 ==> r[n + 2] == COLON);
      assert forall i :: 0 <= i < |b| && i != n + 1 && i != n + 2 ==> r[i] == b[i];
    } else if k == 2 {
      assert r[n] == COLON;
    }
  }

  /** The string keeps its terminator exactly if it does not miss the last channel alone. */
  lemma TerminatorKept(b: Text, s: Text)
    requires Holds(b, s)
    ensures Left(b, s)[..|s|] == s && (Left(b, s)[|s|] == 0 <==> |Fields(s)| % 3 != 2)
  {
  }

  /** "a:70" names the multiplexer at 0x70 with channel 0, and loses its terminator to a colon. */
  lemma NoChannelWitness(b: Text)
    requires Holds(b, [0x61, COLON, 0x37, 0x30])
    ensures Muxes(Fields([0x61, COLON, 0x37, 0x30])) == [Mux([0x61], 0x70, 0)]
    ensures Left(b, [0x61, COLON, 0x37, 0x30])[4] == COLON
  {
    var fs, s := [[0x61], [0x37, 0x30]], [0x61, COLON, 0x37, 0x30];
    assert fs[1..] == [[0x37, 0x30]] && Join([[0x37, 0x30]]) == [0x37, 0x30];
    assert Join(fs) == s;
    JoinedReadsBack(fs);
    assert HexByte(0x70) == [0x37, 0x30];
    HexHasNoColon(0x70);
    assert ByteOf([]) == 0 && Muxes([]) == [];
    TerminatorKept(b, s);
  }

  /** What one round of either parser finds: fs are the fields from pos on. */
  ghost predicate Round(s: Text, fs: seq<Text>, m: Mux, next: nat, ret: int) {
    && m == FirstMux(fs)
    && FieldsAt(s, next) == RestOf(fs) && ret == if |fs| > 3 then 0 else 1
  }

  /** The string seen through the buffer. */
  lemma SamePrefix(b: Text, s: Text, pos: nat, n: nat)
    requires |s| <= |b| && b[..|s|] == s && 0 !in s && pos <= n <= |s|
    ensures b[pos..n] == s[pos..n] && 0 !in b[pos..n]
  {
    assert forall i :: 0 <= i < |s| ==> b[i] == b[..|s|][i];
  }

  /** The three fields of a round end at a, b and c. */
  ghost predicate Ends(s: Text, pos: nat, a: nat, b: nat, c: nat) {
    pos <= |s| && EndAt(s, pos, a) && EndAt(s, a + 1, b) && EndAt(s, b + 1, c)
  }

  /** The text from a to b, unless b is behind the end. */
  function Between(s: Text, a: nat, b: nat): Text
    requires a <= b
  {
    if b <= |s| then s[a..b] else []
  }

  /** Where fields are missing, the places where they would end are counted on behind the string. */
  lemma FewFields(s: Text, pos: nat, a: nat, b: nat, c: nat)
    requires Ends(s, pos, a, b, c)
    ensures a <= |s| && b > a && c > b
    ensures a == |s| ==> b == |s| + 1 && c == |s| + 2 && FieldsAt(s, pos) == [s[pos..a]]
    ensures a < |s| && b == |s| ==> c == |s| + 1 && FieldsAt(s, pos) == [s[pos..a], s[a + 1..b]]
    ensures a < |s| ==> b <= |s|
  {
    FieldStep(s, pos, a);
    FieldStep(s, a + 1, b);
    if a == |s| {
      assert [s[pos..a]] + [] == [s[pos..a]];
    } else if b == |s| {
      assert [s[a + 1..b]] + [] == [s[a + 1..b]];
    }
  }

  lemma ManyEnds(s: Text, pos: nat, a: nat, b: nat, c: nat)
    requires Ends(s, pos, a, b, c) && a < |s| && b < |s|
    ensures a < b < c <= |s| && s[b] == COLON && (c < |s| ==> s[c] == COLON)
    ensures FieldsAt(s, c + 1) == [] <==> c == |s|
  {
    FieldStep(s, a + 1, b);
    FieldStep(s, b + 1, c);
  }

  lemma FirstAt(s: Text, pos: nat, n: nat)
    requires pos <= n <= |s| && EndAt(s, pos, n)
    ensures var fs := FieldsAt(s, pos); fs != [] && fs[0] == s[pos..n] && fs[1..] == FieldsAt(s, n + 1)
  {
    FieldStep(s, pos, n);
  }

  lemma TwoFields(s: Text, pos: nat, a: nat, b: nat)
    requires pos <= a < b <= |s| && EndAt(s, pos, a) && EndAt(s, a + 1, b)
    ensures var fs := FieldsAt(s, pos);
            |fs| >= 2 && fs[0] == s[pos..a] && fs[1] == s[a + 1..b] && fs[2..] == FieldsAt(s, b + 1)
  {
    FirstAt(s, pos, a);
    FirstAt(s, a + 1, b);
    var fs := FieldsAt(s, pos);
    assert fs[1] == fs[1..][0] && fs[2..] == fs[1..][1..];
  }

  lemma ManyFields(s: Text, pos: nat, a: nat, b: nat, c: nat)
    requires Ends(s, pos, a, b, c) && a < b < c <= |s|
    ensures var fs := FieldsAt(s, pos);
            && |fs| >= 3 && fs[0] == s[pos..a] && fs[1] == s[a + 1..b] && fs[2] == s[b + 1..c]
            && fs[3..] == FieldsAt(s, c + 1)
  {
    TwoFields(s, pos, a, b);
    FirstAt(s, b + 1, c);
    ThirdOf(FieldsAt(s, pos), FieldsAt(s, b + 1));
  }

  lemma ThirdOf(fs: seq<Text>, hs: seq<Text>)
    ensures |fs| >= 2 && fs[2..] == hs && hs != [] ==> |fs| >= 3 && fs[2] == hs[0] && fs[3..] == hs[1..]
  {
  }

  /** The colon put behind the address does not disturb the string. */
  lemma AddressKeeps(t: Text, s: Text, pos: nat, a: nat, b: nat)
    requires Holds(t, s) && pos <= |s| && EndAt(s, pos, a) && EndAt(s, a + 1, b)
    ensures a < b <= |s| + 1 && t[b := COLON][..|s|] == s
  {
    FieldStep(s, pos, a);
    FieldStep(s, a + 1, b);
    if b < |s| {
      assert t[b] == t[..|s|][b] == COLON;
    }
  }

  lemma RoundOf(s: Text, pos: nat, a: nat, b: nat, c: nat, m: Mux, next: nat, ret: int)
    requires Ends(s, pos, a, b, c) && a < b < c && next == c + 1 && ret == if c >= |s| then 1 else 0
    requires m == Mux(Between(s, pos, a), ByteOf(Between(s, a + 1, b)), ByteOf(Between(s, b + 1, c)))
    ensures Round(s, FieldsAt(s, pos), m, next, ret)
  {
    assert FieldsAt(s, next) == FieldsAt(s, c + 1);
    FewFields(s, pos, a, b, c);
    if a < |s| && b < |s| {
      ManyEnds(s, pos, a, b, c);
      ManyFields(s, pos, a, b, c);
    }
  }

  /** What address and channel leave in memory. */
  lemma RoundLeaves(t: Text, s: Text, pos: nat, a: nat, b: nat, c: nat)
    requires Holds(t, s) && Ends(s, pos, a, b, c)
    ensures a < b < c <= |s| + 2 && Closed(t[b := COLON], c) == Spoilt(t, |s|, |FieldsAt(s, pos)|)
  {
    FewFields(s, pos, a, b, c);
    if a < |s| && b < |s| {
      ManyEnds(s, pos, a, b, c);
      ManyFields(s, pos, a, b, c);
      KeepsColons(t, s, b, c);
    }
  }

  /** A round read this multiplexer from fields that end at a, b and c, and left r in memory. */
  ghost predicate ReadFrom(t: Text, r: Text, s: Text, pos: nat, a: nat, b: nat, c: nat, m: Mux, next: nat, ret: int) {
    && next == c + 1
    && Ends(s, pos, a, b, c) && a < b < c <= |s| + 2 && ret == (if c >= |s| then 1 else 0)
    && m == Mux(Between(s, pos, a), ByteOf(Between(s, a + 1, b)), ByteOf(Between(s, b + 1, c)))
    && Holds(t, s) && r == Closed(t[b := COLON], c)
  }

  lemma RoundIs(t: Text, r: Text, s: Text, pos: nat, a: nat, b: nat, c: nat, m: Mux, next: nat, ret: int)
    ensures ReadFrom(t, r, s, pos, a, b, c, m, next, ret) ==>
              |s| + 2 < |t| && r == Spoilt(t, |s|, |FieldsAt(s, pos)|) && Round(s, FieldsAt(s, pos), m, next, ret)
  {
    if ReadFrom(t, r, s, pos, a, b, c, m, next, ret) {
      RoundLeaves(t, s, pos, a, b, c);
      RoundOf(s, pos, a, b, c, m, next, ret);
    }
  }

  lemma KeepsColons(t: Text, s: Text, b: nat, c: nat)
    requires Holds(t, s) && b < c <= |s| && s[b] == COLON && (c < |s| ==> s[c] == COLON)
    ensures Closed(t[b := COLON], c) == t
  {
    assert t[b] == t[..|s|][b] && (c < |s| ==> t[c] == t[..|s|][c]);
    assert t[b := COLON] == t;
  }

  /** Looks for the end of the field at pos. */
  method FieldEnd(buf: array<Byte>, pos: nat, len: nat, ghost s: Text) returns (n: nat, ret: int)
    requires pos < buf.Length && len == |s| < buf.Length && buf[..len] == s
    ensures EndAt(s, pos, n) && ret == if n >= len then 1 else 0
  {
    n, ret := SearchNext(buf, pos, len);
  }

  method NextAddress(buf: array<Byte>, pos: nat, len: nat, ghost s: Text) returns (v: Byte, n: nat)
    requires Holds(buf[..], s) && pos <= len + 1 && len == |s|
    modifies buf
    ensures EndAt(s, pos, n) && n <= len + 1 && v == ByteOf(Between(s, pos, n))
    ensures buf[..] == old(buf[..])[n := COLON]
  {
    var found;
    n, found := FieldEnd(buf, pos, len, s);
    if n <= len {
      SamePrefix(buf[..], s, pos, n);
    }
    v := AddressAt(buf, pos, n);
  }

  method NextChannel(buf: array<Byte>, pos: nat, len: nat, ghost s: Text) returns (v: Byte, n: nat, ret: int)
    requires len == |s| && len + 2 < buf.Length && pos <= len + 2 && buf[..len] == s && 0 !in s
    modifies buf
    ensures EndAt(s, pos, n) && n <= len + 2 && v == ByteOf(Between(s, pos, n))
    ensures buf[..] == Closed(old(buf[..]), n) && ret == if n >= len then 1 else 0
  {
    n, ret := FieldEnd(buf, pos, len, s);
    if n <= len {
      SamePrefix(buf[..], s, pos, n);
    }
    v := ChannelAt(buf, pos, n);
  }

  /** The searches and numbers of one round, with the places where its fields end. */
  method ReadMux(buf: array<Byte>, pos: nat, len: nat, ghost s: Text)
    returns (m: Mux, next: nat, ret: int, ghost a: nat, ghost b: nat, ghost c: nat)
    requires Holds(buf[..], s) && pos <= len == |s|
    modifies buf
    ensures ReadFrom(old(buf[..]), buf[..], s, pos, a, b, c, m, next, ret)
  {
    var n, found := FieldEnd(buf, pos, len, s);
    SamePrefix(buf[..], s, pos, n);
    var name := buf[..][pos..n];
    var chip, k := NextAddress(buf, n + 1, len, s);
    AddressKeeps(old(buf[..]), s, pos, n, k);
    var channel, l;
    channel, l, ret := NextChannel(buf, k + 1, len, s);
    m, next, a, b, c := Mux(name, chip, channel), l + 1, n, k, l;
  }

  /** One round of either parser: name, address and channel of a multiplexer, or what there is of them. */
  method NextMux(buf: array<Byte>, pos: nat, len: nat, ghost s: Text) returns (m: Mux, next: nat, ret: int)
    requires Holds(buf[..], s) && pos <= len == |s|
    modifies buf
    ensures buf[..] == Spoilt(old(buf[..]), len, |FieldsAt(s, pos)|)
    ensures Round(s, FieldsAt(s, pos), m, next, ret)
  {
    ghost var a, b, c;
    m, next, ret, a, b, c := ReadMux(buf, pos, len, s);
    RoundIs(old(buf[..]), buf[..], s, pos, a, b, c, m, next, ret);
  }

  // ---------------------------------------------------------------- the table of buses

  class MuxTable {
    var devices: seq<Device>         // i2c_mux_devices, in the order of the list
    var nextBus: nat                 // i2c_mux_busid
    var writes: seq<Write>           // writes attempted so far
    const answers: nat -> bool       // whether the n-th write is acknowledged

    constructor (firstBus: nat, answers: nat -> bool)
      ensures Valid() && devices == [] && nextBus == firstBus && writes == []
    {
      devices, nextBus, writes := [], firstBus, [];
      this.answers := answers;
    }

    /** Bus numbers are unique: each device has a higher one than the device before it. */
    ghost predicate Valid()
      reads this
    {
      && (forall k :: 0 <= k < |devices| ==> devices[k].busid < nextBus)
      && forall j, k :: 0 <= j < k < |devices| ==> devices[j].busid < devices[k].busid
    }

    method I2cWrite(m: Mux) returns (ok: bool)
      modifies this`writes
      ensures writes == old(writes) + [Write(m.chip, m.channel)] && ok == answers(old(|writes|))
    {
      ok := answers(|writes|);
      writes := writes + [Write(m.chip, m.channel)];
    }

    /** `i2c_mux_ident_muxstring_f`: sends the writes while it reads the string. Memory is left as if it had only read it,
        unless the last multiplexer misses fields and is reached. */
    method IdentImmediately(buf: array<Byte>, ghost s: Text) returns (ret: int)
      requires Holds(buf[..], s)
      modifies buf, this`writes
      ensures Sent(old(writes), writes, Muxes(Fields(s)), ret)
      ensures buf[..] == if |writes| == |old(writes)| + |Muxes(Fields(s))| then Left(old(buf[..]), s) else old(buf[..])
    {
      HeldString(buf[..], s);
      var pos, len, found := 0, |CString(buf[..])|, 0;
      ghost var fs, before := Fields(s), writes;
      assert s[0..] == s;
      while found == 0
        invariant found >= 0 && |writes| + |Muxes(fs)| == |before| + |Muxes(Fields(s))|
        invariant found == 0 ==> buf[..] == old(buf[..]) && Reading(s, pos, len, fs)
        invariant found != 0 ==> buf[..] == Left(old(buf[..]), s) && fs == []
        invariant Selecting(before, writes, Muxes(Fields(s)), Muxes(fs), answers)
        decreases |fs|
      {
        ghost var at := pos;
        var m;
        m, pos, found := NextMux(buf, pos, len, s);
        ReadingStep(s, at, len, fs, old(buf[..]), m, pos, found);
        ghost var rest := RestOf(fs);
        assert Muxes(fs) == [m] + Muxes(rest);
        SelectingStep(before, writes, Muxes(Fields(s)), m, Muxes(rest), answers);
        var ok := I2cWrite(m);
        if !ok { return -1; }
        fs := rest;
      }
      SelectingEnds(before, writes, Muxes(Fields(s)), answers);
      ret := 0;
    }

    /** `i2c_mux_ident_muxstring`: adds a bus behind the multiplexers of the string, whatever the string. */
    method Ident(buf: array<Byte>, ghost s: Text) returns (device: Device)
      requires Valid() && Holds(buf[..], s)
      modifies buf, this`devices, this`nextBus
      ensures Valid() && buf[..] == Left(old(buf[..]), s)
      ensures device == Device(old(nextBus), Muxes(Fields(s))) && nextBus == old(nextBus) + 1
      ensures devices == old(devices) + [device]
    {
      var busid := nextBus;
      nextBus := nextBus + 1;
      var muxes := Collect(buf, s);
      device := Device(busid, muxes);
      devices := devices + [device];
    }

    /** `i2c_mux_search_device`: the device with this bus number, if there is one. */
    method SearchDevice(id: nat) returns (found: bool, k: nat)
      requires Valid()
      ensures found ==> k < |devices| && devices[k].busid == id
      ensures found <==> exists j :: 0 <= j < |devices| && devices[j].busid == id
    {
      k := 0;
      while k < |devices|
        invariant k <= |devices| && forall j :: 0 <= j < k ==> devices[j].busid != id
      {
        if devices[k].busid == id { return true, k; }
        k := k + 1;
      }
      found := false;
    }

    /** The bus number of a device leads to this device and no other. */
    lemma OnlyDevice(j: nat, k: nat)
      requires Valid() && j < |devices| && k < |devices| && devices[j].busid == devices[k].busid
      ensures j == k
    {
    }

    /** The writes for these multiplexers were sent up to the first failure, which the return value shows. */
    ghost predicate Sent(before: seq<Write>, after: seq<Write>, muxes: seq<Mux>, ret: int) {
      && after == before + Attempts(muxes, |before|, answers)
      && ret == if Succeeds(muxes, |before|, answers) then 0 else -1
    }

    /** `i2x_mux_select_mux`: sends the writes for a bus that was added before. */
    method Select(bus: nat) returns (ret: int)
      requires Valid()
      modifies this`writes
      ensures (forall k :: 0 <= k < |devices| ==> devices[k].busid != bus) ==> ret == -1 && writes == old(writes)
      ensures forall k :: 0 <= k < |devices| && devices[k].busid == bus ==>
                Sent(old(writes), writes, devices[k].muxes, ret)
    {
      var found, k := SearchDevice(bus);
      if !found {
        assert forall j :: 0 <= j < |devices| ==> devices[j].busid != bus;
        return -1;
      }
      forall j | 0 <= j < |devices| && devices[j].busid == bus
        ensures j == k
      {
        OnlyDevice(j, k);
      }
      ret := SelectAll(devices[k].muxes);
      assert devices[k].busid == bus;
    }

    /** Adding a bus and selecting it sends what the immediate form sends, and ends alike. */
    method IdentAndSelect(buf: array<Byte>, ghost s: Text) returns (ret: int)
      requires Valid() && Holds(buf[..], s)
      modifies buf, this
      ensures Valid() && buf[..] == Left(old(buf[..]), s)
      ensures Sent(old(writes), writes, Muxes(Fields(s)), ret)
    {
      var device := Ident(buf, s);
      ghost var k := |devices| - 1;
      assert devices[k] == device && device.muxes == Muxes(Fields(s)) && writes == old(writes);
      ret := Select(device.busid);
      assert devices[k].busid == device.busid;
    }

    method SelectAll(muxes: seq<Mux>) returns (ret: int)
      modifies this`writes
      ensures Sent(old(writes), writes, muxes, ret)
    {
      ghost var before := writes;
      var left := muxes;
      while left != []
        invariant Selecting(before, writes, muxes, left, answers)
      {
        assert left == [left[0]] + left[1..];
        SelectingStep(before, writes, muxes, left[0], left[1..], answers);
        var ok := I2cWrite(left[0]);
        if !ok { return -1; }
        left := left[1..];
      }
      SelectingEnds(before, writes, muxes, answers);
      ret := 0;
    }
  }

  /** The multiplexers of the fields fs are still to be added. */
  ghost predicate Collecting(muxes: seq<Mux>, fs: seq<Text>, all: seq<Mux>) {
    muxes + Muxes(fs) == all
  }

  lemma CollectingStep(muxes: seq<Mux>, fs: seq<Text>, m: Mux, all: seq<Mux>)
    requires Collecting(muxes, fs, all) && fs != [] && m == FirstMux(fs)
    ensures Collecting(muxes + [m], RestOf(fs), all)
  {
    assert Muxes(fs) == [m] + Muxes(RestOf(fs));
    assert muxes + ([m] + Muxes(RestOf(fs))) == muxes + [m] + Muxes(RestOf(fs));
  }

  /** A parser before a round: fs are the fields left, whose number is right but for whole multiplexers. */
  ghost predicate Reading(s: Text, pos: int, len: int, fs: seq<Text>) {
    0 <= pos <= len == |s| && fs == FieldsAt(s, pos) && fs != [] && |fs| % 3 == |Fields(s)| % 3
  }

  /** After a round: either fields are left and memory is unchanged, or not and it is as the whole string leaves it. */
  lemma ReadingStep(s: Text, pos: nat, len: nat, fs: seq<Text>, b: Text, m: Mux, next: nat, ret: int)
    requires Reading(s, pos, len, fs) && Round(s, fs, m, next, ret) && |s| + 2 < |b|
    ensures ret == 0 ==> Spoilt(b, len, |fs|) == b && Reading(s, next, len, RestOf(fs))
    ensures ret != 0 ==> Spoilt(b, len, |fs|) == Left(b, s) && RestOf(fs) == []
  {
  }

  /** The loop of `i2c_mux_ident_muxstring`: each multiplexer is put at the end of the list. */
  method Collect(buf: array<Byte>, ghost s: Text) returns (muxes: seq<Mux>)
    requires Holds(buf[..], s)
    modifies buf
    ensures buf[..] == Left(old(buf[..]), s) && muxes == Muxes(Fields(s))
  {
    HeldString(buf[..], s);
    var pos, len, found := 0, |CString(buf[..])|, 0;
    ghost var fs := Fields(s);
    assert s[0..] == s;
    muxes := [];
    while found == 0
      invariant found == 0 ==> buf[..] == old(buf[..]) && Reading(s, pos, len, fs)
      invariant found != 0 ==> buf[..] == Left(old(buf[..]), s) && fs == []
      invariant Collecting(muxes, fs, Muxes(Fields(s)))
      decreases |fs|
    {
      ghost var at := pos;
      var m;
      m, pos, found := NextMux(buf, pos, len, s);
      ReadingStep(s, at, len, fs, old(buf[..]), m, pos, found);
      CollectingStep(muxes, fs, m, Muxes(Fields(s)));
      muxes := muxes + [m];
      fs := RestOf(fs);
    }
  }

  /** The writes so far are right, and the multiplexers `left` are still to be selected. */
  ghost predicate Selecting(before: seq<Write>, writes: seq<Write>, all: seq<Mux>, left: seq<Mux>, answers: nat -> bool) {
    && before + Attempts(all, |before|, answers) == writes + Attempts(left, |writes|, answers)
    && (Succeeds(all, |before|, answers) <==> Succeeds(left, |writes|, answers))
  }

  lemma SelectingStep(before: seq<Write>, writes: seq<Write>, all: seq<Mux>, m: Mux, left: seq<Mux>, answers: nat -> bool)
    requires Selecting(before, writes, all, [m] + left, answers)
    ensures var next := writes + [Write(m.chip, m.channel)];
            if answers(|writes|) then Selecting(before, next, all, left, answers)
            else next == before + Attempts(all, |before|, answers) && !Succeeds(all, |before|, answers)
  {
    var w := Write(m.chip, m.channel);
    assert ([m] + left)[1..] == left;
    if answers(|writes|) {
      assert writes + ([w] + Attempts(left, |writes| + 1, answers)) == writes + [w] + Attempts(left, |writes| + 1, answers);
    } else {
      assert [w] + [] == [w];
    }
  }

  lemma SelectingEnds(before: seq<Write>, writes: seq<Write>, all: seq<Mux>, answers: nat -> bool)
    requires Selecting(before, writes, all, [], answers)
    ensures writes == before + Attempts(all, |before|, answers) && Succeeds(all, |before|, answers)
  {
  }
}
