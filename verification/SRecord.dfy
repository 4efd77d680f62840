/** The Motorola S-record format, common/s_record.c and include/s_record.h. */
module SRecord {
  import opened Basics

  /** Result of decoding a line: the record type, the count of data bytes as computed, address and data. */
  datatype Decoded =
    | Record(kind: nat, count: int, addr: nat, data: seq<Byte>)
    | Empty
    | BadType
    | NoRecord
    | BadChecksum

  // ---------------------------------------------------------------- hexadecimal text

  function UpperDigit(n: nat): (c: Byte)
    requires n < 16
    ensures Hex1(c) == n && c != 0x53 && c > 0x20
  {
    if n < 10 then 0x30 + n else 0x41 + (n - 10)
  }

  /** Value of a digit, -1 if it is none. */
  function Hex1(c: Byte): int {
    if 0x30 <= c <= 0x39 then c - 0x30
    else if 0x61 <= c <= 0x66 then c + 10 - 0x61
    else if 0x41 <= c <= 0x46 then c + 10 - 0x41
    else -1
  }

  function UpperByte(b: Byte): (t: Text)
    ensures |t| == 2
  {
    [UpperDigit(b / 16), UpperDigit(b % 16)]
  }

  function HexBytes(bs: seq<Byte>): (t: Text)
    ensures |t| == 2 * |bs|
  {
    if bs == [] then [] else HexBytes(bs[..|bs| - 1]) + UpperByte(bs[|bs| - 1])
  }

  /** The byte written as two digits at i. */
  function Hex2(line: Text, i: nat): Option<Byte> {
    if i + 1 < |line| && Hex1(line[i]) >= 0 && Hex1(line[i + 1]) >= 0
    then Some(16 * Hex1(line[i]) + Hex1(line[i + 1]))
    else None
  }

  /** The n bytes written from i on. */
  function ReadBytes(line: Text, i: nat, n: nat): (r: Option<seq<Byte>>)
    ensures r.Some? ==> |r.value| == n
  {
    if n == 0 then Some([])
    else
      var init, last := ReadBytes(line, i, n - 1), Hex2(line, i + 2 * (n - 1));
      if init.Some? && last.Some? then Some(init.value + [last.value]) else None
  }

  lemma ByteReadsBack(line: Text, i: nat, b: Byte)
    requires Has(line, i, UpperByte(b))
    ensures Hex2(line, i) == Some(b)
  {
    var t := line[i..i + 2];
    assert line[i] == t[0] && line[i + 1] == t[1];
  }

  /** Reading hexadecimal text gives the bytes it was written from. */
  lemma {:induction false} HexReadsBack(line: Text, i: nat, bs: seq<Byte>)
    requires Has(line, i, HexBytes(bs))
    ensures ReadBytes(line, i, |bs|) == Some(bs)
  {
    if bs != [] {
      var init, last := bs[..|bs| - 1], bs[|bs| - 1];
      HasConcat(line, i, HexBytes(init), UpperByte(last));
      HexReadsBack(line, i, init);
      ByteReadsBack(line, i + 2 * |init|, last);
      assert init + [last] == bs;
    }
  }

  // ---------------------------------------------------------------- fields

  function BigEndian(bs: seq<Byte>): nat {
    if bs == [] then 0 else 256 * BigEndian(bs[..|bs| - 1]) + bs[|bs| - 1]
  }

  lemma {:induction false} SumConcat(x: seq<Byte>, y: seq<Byte>)
    ensures Sum(x + y) == Sum(x) + Sum(y)
  {
    if y == [] {
      assert x + y == x;
    } else {
      assert (x + y)[..|x + y| - 1] == x + y[..|y| - 1];
      SumConcat(x, y[..|y| - 1]);
    }
  }

  lemma AddressReadsBack(a: nat)
    requires a < 0x1_0000_0000
    ensures BigEndian(WordBytes(a)) == a
  {
    var y := a / 256;
    var z := y / 256;
    var w := z / 256;
    var bs := WordBytes(a);
    assert bs[..3] == [w % 256, z % 256, y % 256] && bs[..3][..2] == [w % 256, z % 256] && bs[..3][..2][..1] == [w % 256];
    assert BigEndian([w % 256]) == w;
    assert BigEndian([w % 256, z % 256]) == z by { assert [w % 256, z % 256][..1] == [w % 256]; }
    assert BigEndian([w % 256, z % 256, y % 256]) == y by {
      assert [w % 256, z % 256, y % 256][..2] == [w % 256, z % 256];
    }
  }

  /** Number of address bytes of a record type character, 0 for one that is not supported. */
  function AddressLength(v: Byte): nat {
    if v == 0x33 || v == 0x37 then 4
    else if v == 0x32 || v == 0x38 then 3
    else if v == 0x30 || v == 0x31 || v == 0x35 || v == 0x39 then 2
    else 0
  }

  /** Number of data bytes, from the length field; count records have none. */
  function DataCount(v: Byte, n: Byte): int {
    if v == 0x35 then 0 else n - AddressLength(v) - 1
  }

  // ---------------------------------------------------------------- decoding

  /** Index behind the first 'S' from i on, or the end of the line. */
  function AfterS(line: Text, i: nat): (j: nat)
    requires i <= |line|
    ensures i <= j <= |line|
    decreases |line| - i
  {
    if i == |line| then i else if line[i] == 0x53 then i + 1 else AfterS(line, i + 1)
  }

  function Decode(line: Text): Decoded {
    var i := AfterS(line, 0);
    if i == |line| then Empty else DecodeFields(line, i)
  }

  /** Decodes a line whose type character is at i. */
  function DecodeFields(line: Text, i: nat): Decoded
    requires i < |line|
  {
    var v, n := line[i], Hex2(line, i + 1);
    if n.None? then NoRecord
    else if AddressLength(v) == 0 then BadType
    else DecodeBody(v, n.value, ReadBytes(line, i + 3, BodyLength(v, n.value)))
  }

  /** Number of bytes read behind the length field. */
  function BodyLength(v: Byte, n: Byte): nat {
    AddressLength(v) + (if DataCount(v, n) < 0 then 0 else DataCount(v, n)) + 1
  }

  function DecodeBody(v: Byte, n: Byte, body: Option<seq<Byte>>): Decoded
    requires AddressLength(v) > 0 && (body.Some? ==> |body.value| == BodyLength(v, n))
  {
    if body.None? then NoRecord
    else if (n + Sum(body.value)) % 256 != 255 then BadChecksum
    else
      var bs, a := body.value, AddressLength(v);
      Record(v - 0x30, DataCount(v, n), BigEndian(bs[..a]), bs[a..|bs| - 1])
  }

  // ---------------------------------------------------------------- encoding

  /** The length field: everything behind it is counted. */
  function LengthField(address: seq<Byte>, data: seq<Byte>): Byte
    requires |address| + |data| < 255
  {
    |address| + |data| + 1
  }

  /** What makes the bytes of a record add up to 0xff. */
  function Checksum(n: Byte, bs: seq<Byte>): Byte {
    255 - (n + Sum(bs)) % 256
  }

  /** Everything behind the length field n: address, data, checksum. */
  function Body(n: Byte, address: seq<Byte>, data: seq<Byte>): (body: seq<Byte>)
    ensures |body| == |address| + |data| + 1
    ensures body[..|address|] == address && body[|address|..|body| - 1] == data
  {
    address + data + [Checksum(n, address + data)]
  }

  /** A record as text, without the end of the line. */
  function RecordText(v: Byte, n: Byte, body: seq<Byte>): (t: Text)
    ensures |t| == 4 + 2 * |body|
  {
    [0x53, v] + UpperByte(n) + HexBytes(body)
  }

  /** The bytes of every record, checksum included, add up to 0xff modulo 256. */
  lemma RecordSum(n: Byte, address: seq<Byte>, data: seq<Byte>)
    ensures (n + Sum(Body(n, address, data))) % 256 == 255
  {
    var bs := address + data;
    assert (bs + [Checksum(n, bs)])[..|bs|] == bs;
  }

  lemma RecordStart(v: Byte, rest: Text)
    ensures AfterS([0x53, v] + rest, 0) == 1 && ([0x53, v] + rest)[1] == v
  {
  }

  lemma HasParts(x: Text, y: Text, z: Text)
    ensures Has(x + y + z, |x|, y) && Has(x + y + z, |x| + |y|, z)
  {
  }

  lemma DecodeIs(v: Byte, n: Byte, body: seq<Byte>)
    requires AddressLength(v) > 0 && |body| == BodyLength(v, n)
    ensures Decode(RecordText(v, n, body)) == DecodeBody(v, n, Some(body))
  {
    var t, x, y, z := RecordText(v, n, body), [0x53, v], UpperByte(n), HexBytes(body);
    assert t == x + (y + z);
    RecordStart(v, y + z);
    HasParts(x, y, z);
    ByteReadsBack(t, 2, n);
    HexReadsBack(t, 4, body);
  }

  lemma BodyDecodes(v: Byte, n: Byte, address: seq<Byte>, data: seq<Byte>, body: seq<Byte>)
    requires AddressLength(v) == |address| > 0 && DataCount(v, n) == |data| && |body| == BodyLength(v, n)
    requires body[..|address|] == address && body[|address|..|body| - 1] == data && (n + Sum(body)) % 256 == 255
    ensures DecodeBody(v, n, Some(body)) == Record(v - 0x30, |data|, BigEndian(address), data)
  {
  }

  lemma RecordDecodes(v: Byte, n: Byte, address: seq<Byte>, data: seq<Byte>, body: seq<Byte>)
    requires AddressLength(v) == |address| > 0 && DataCount(v, n) == |data| && |body| == BodyLength(v, n)
    requires body[..|address|] == address && body[|address|..|body| - 1] == data && (n + Sum(body)) % 256 == 255
    ensures Decode(RecordText(v, n, body)) == Record(v - 0x30, |data|, BigEndian(address), data)
  {
    DecodeIs(v, n, body);
    BodyDecodes(v, n, address, data, body);
  }

  lemma Lengths(v: Byte, address: seq<Byte>, data: seq<Byte>)
    requires AddressLength(v) == |address| && |address| + |data| < 255 && (v == 0x35 ==> data == [])
    ensures var n := LengthField(address, data); DataCount(v, n) == |data| && BodyLength(v, n) == |address| + |data| + 1
  {
  }

  /** Decoding a record gives back its type, address and data. */
  lemma RecordReadsBack(v: Byte, address: seq<Byte>, data: seq<Byte>)
    requires AddressLength(v) == |address| > 0 && |address| + |data| < 255 && (v == 0x35 ==> data == [])
    ensures var n := LengthField(address, data);
            Decode(RecordText(v, n, Body(n, address, data))) == Record(v - 0x30, |data|, BigEndian(address), data)
  {
    var n := LengthField(address, data);
    Lengths(v, address, data);
    RecordSum(n, address, data);
    RecordDecodes(v, n, address, data, Body(n, address, data));
  }

  /** A record in which one byte behind the length field is replaced is refused. */
  lemma DamageIsNoticed(v: Byte, address: seq<Byte>, data: seq<Byte>, k: nat, b: Byte)
    requires AddressLength(v) == |address| > 0 && |address| + |data| < 255 && (v == 0x35 ==> data == [])
    requires k <= |address| + |data| && Body(LengthField(address, data), address, data)[k] != b
    ensures var n := LengthField(address, data);
            Decode(RecordText(v, n, Body(n, address, data)[k := b])) == BadChecksum
  {
    var n := LengthField(address, data);
    var body := Body(n, address, data);
    Lengths(v, address, data);
    RecordSum(n, address, data);
    SumUpdate(body, k, b);
    BadSumIsRefused(v, n, body[k := b]);
  }

  lemma BadSumIsRefused(v: Byte, n: Byte, body: seq<Byte>)
    requires AddressLength(v) > 0 && |body| == BodyLength(v, n) && (n + Sum(body)) % 256 != 255
    ensures Decode(RecordText(v, n, body)) == BadChecksum
  {
    DecodeIs(v, n, body);
  }

  // ---------------------------------------------------------------- the decoder

  /** `srec_decode`. */
  method SrecDecode(line: Text) returns (d: Decoded)
    ensures d == Decode(line)
  {
    var i := 0;
    while i < |line| && line[i] != 0x53
      invariant 0 <= i <= |line| && AfterS(line, 0) == AfterS(line, i)
    {
      i := i + 1;
    }
    if i < |line| { i := i + 1; }
    if i == |line| { return Empty; }
    d := FieldsOf(line, i);
  }

  method FieldsOf(line: Text, i: nat) returns (d: Decoded)
    requires i < |line|
    ensures d == DecodeFields(line, i)
  {
    var v, n := line[i], Hex2(line, i + 1);
    if n.None? { return NoRecord; }
    if AddressLength(v) == 0 { return BadType; }
    var body := ReadBody(line, i + 3, BodyLength(v, n.value));
    d := CheckBody(v, n.value, body);
  }

  method CheckBody(v: Byte, n: Byte, body: Option<seq<Byte>>) returns (d: Decoded)
    requires AddressLength(v) > 0 && (body.Some? ==> |body.value| == BodyLength(v, n))
    ensures d == DecodeBody(v, n, body)
  {
    if body.None? { return NoRecord; }
    var bs, a := body.value, AddressLength(v);
    var addr, sum := AddressAndSum(bs, a, n);
    if sum != 255 { return BadChecksum; }
    d := Record(v - 0x30, DataCount(v, n), addr, bs[a..|bs| - 1]);
  }

  method ReadBody(line: Text, i: nat, n: nat) returns (r: Option<seq<Byte>>)
    ensures r == ReadBytes(line, i, n)
  {
    var bs: seq<Byte> := [];
    for k := 0 to n
      invariant ReadBytes(line, i, k) == Some(bs)
    {
      var b := Hex2(line, i + 2 * k);
      if b.None? {
        ReadStops(line, i, k, n);
        return None;
      }
      bs := bs + [b.value];
    }
    r := Some(bs);
  }

  lemma {:induction false} ReadStops(line: Text, i: nat, k: nat, n: nat)
    requires k < n && Hex2(line, i + 2 * k).None?
    ensures ReadBytes(line, i, n).None?
  {
    if k < n - 1 {
      ReadStops(line, i, k, n - 1);
    }
  }

  lemma AddModulo(x: nat, y: nat)
    ensures (x % 256 + y) % 256 == (x + y) % 256
  {
  }

  /** Shifts in the address and adds up the checksum, in eight bits. */
  method AddressAndSum(bs: seq<Byte>, a: nat, n: Byte) returns (addr: nat, sum: Byte)
    requires a < |bs|
    ensures addr == BigEndian(bs[..a]) && sum == (n + Sum(bs)) % 256
  {
    addr, sum := 0, n;
    for k := 0 to |bs|
      invariant addr == BigEndian(bs[..if k < a then k else a]) && sum == (n + Sum(bs[..k])) % 256
    {
      assert bs[..k + 1][..k] == bs[..k];
      if k < a { addr := 256 * addr + bs[k]; }
      AddModulo(n + Sum(bs[..k]), bs[k]);
      sum := (sum + bs[k]) % 256;
    }
    assert bs[..|bs|] == bs;
  }
}
