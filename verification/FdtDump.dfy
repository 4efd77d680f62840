/** Device tree properties in writing: every character that is printed, and numbers wider than their place. */
module FdtDump {
  import opened Basics
  import opened Numbers
  import opened FdtProp

  // ---------------------------------------------------------------- what is printed

  /** The character is the lower-case hexadecimal digit for n. */
  ghost predicate IsLower(c: Byte, n: int) {
    (0 <= n < 10 && c == '0' as int + n) || (10 <= n < 16 && c == 'a' as int + n - 10)
  }

  lemma HexByteIs(b: Byte)
    ensures IsLower(HexByte(b)[0], b / 16) && IsLower(HexByte(b)[1], b % 16)
  {
  }

  /** Three characters for each byte: two digits, and a space or the closing bracket. */
  lemma {:induction false} BytesTextAt(data: Text, k: nat)
    requires k < |data|
    ensures |BytesText(data)| == 3 * |data|
    ensures IsLower(BytesText(data)[3 * k], data[k] / 16) && IsLower(BytesText(data)[3 * k + 1], data[k] % 16)
    ensures BytesText(data)[3 * k + 2] == if k == |data| - 1 then ']' as int else ' ' as int
    decreases |data|
  {
    HexByteIs(data[0]);
    if |data| > 1 {
      var rest := BytesText(data[1..]);
      BytesTextAt(data[1..], if k == 0 then 0 else k - 1);
      assert BytesText(data) == HexByte(data[0]) + ([SPACE] + rest);
      if k > 0 {
        assert BytesText(data)[3 * k] == rest[3 * (k - 1)];
        assert BytesText(data)[3 * k + 1] == rest[3 * (k - 1) + 1] && BytesText(data)[3 * k + 2] == rest[3 * (k - 1) + 2];
      }
    }
  }

  lemma HexCellIs(w: Cell)
    ensures var t, bs := HexCell(w), w.Bytes();
            && t[0] == '0' as int && t[1] == 'x' as int
            && forall j :: 0 <= j < 4 ==> IsLower(t[2 + 2 * j], bs[j] / 16) && IsLower(t[3 + 2 * j], bs[j] % 16)
  {
    HexByteIs(w.a);
    HexByteIs(w.b);
    HexByteIs(w.c);
    HexByteIs(w.d);
  }

  /** Eleven characters for each cell: 0x, eight digits, and a space or the closing bracket. */
  lemma {:induction false} CellsTextAt(ws: seq<Cell>, k: nat)
    requires k < |ws|
    ensures |CellsText(ws)| == 11 * |ws|
    ensures CellsText(ws)[11 * k..11 * k + 10] == HexCell(ws[k])
    ensures CellsText(ws)[11 * k + 10] == if k == |ws| - 1 then '>' as int else ' ' as int
    decreases |ws|
  {
    if |ws| > 1 {
      var t, rest := CellsText(ws), CellsText(ws[1..]);
      CellsTextAt(ws[1..], if k == 0 then 0 else k - 1);
      Onward(t, HexCell(ws[0]), rest, k);
    }
  }

  lemma Onward(t: Text, x: Text, rest: Text, k: nat)
    requires t == x + ([SPACE] + rest) && |x| == 10 && 11 * k + 10 < |t|
    ensures t[..10] == x && t[10] == SPACE
    ensures k > 0 ==> t[11 * k..11 * k + 10] == rest[11 * (k - 1)..11 * (k - 1) + 10] && t[11 * k + 10] == rest[11 * (k - 1) + 10]
  {
  }

  lemma {:induction false} GroupedAt(data: Text, k: nat)
    requires |data| % 4 == 0 && 4 * k < |data|
    ensures |Grouped(data)| == |data| / 4 && Grouped(data)[k].Bytes() == data[4 * k..4 * k + 4]
    decreases |data|
  {
    if k > 0 {
      GroupedAt(data[4..], k - 1);
      assert data[4..][4 * (k - 1)..4 * (k - 1) + 4] == data[4 * k..4 * k + 4];
    } else if |data| > 4 {
      GroupedAt(data[4..], 0);
    }
  }

  /** A dump of single bytes, character by character. */
  ghost predicate IsByteDump(t: Text, data: Text) {
    && |t| == 1 + 3 * |data| && t[0] == '[' as int
    && forall k :: 0 <= k < |data| ==> ByteDumped(t, data, k)
  }

  ghost predicate ByteDumped(t: Text, data: Text, k: nat)
    requires |t| == 1 + 3 * |data| && k < |data|
  {
    && IsLower(t[1 + 3 * k], data[k] / 16) && IsLower(t[2 + 3 * k], data[k] % 16)
    && t[3 + 3 * k] == if k == |data| - 1 then ']' as int else ' ' as int
  }

  /** A dump of 32-bit words, the first byte the most significant. */
  ghost predicate IsCellDump(t: Text, data: Text) {
    && |t| == 1 + 11 * (|data| / 4) && t[0] == '<' as int
    && forall k :: 0 <= k < |data| / 4 ==> CellDumped(t, k, data[4 * k..4 * k + 4], k == |data| / 4 - 1)
  }

  ghost predicate CellDumped(t: Text, k: nat, word: Text, last: bool) {
    && 11 + 11 * k < |t| && |word| == 4 && t[1 + 11 * k] == '0' as int && t[2 + 11 * k] == 'x' as int
    && (forall j :: 0 <= j < 4 ==>
          IsLower(t[3 + 11 * k + 2 * j], word[j] / 16) && IsLower(t[4 + 11 * k + 2 * j], word[j] % 16))
    && t[11 + 11 * k] == if last then '>' as int else ' ' as int
  }

  lemma ByteDumpIs(data: Text)
    requires data != []
    ensures IsByteDump([OPEN] + BytesText(data), data)
  {
    var t := [OPEN] + BytesText(data);
    BytesTextAt(data, 0);
    forall k | 0 <= k < |data|
      ensures ByteDumped(t, data, k)
    {
      BytesTextAt(data, k);
    }
  }

  lemma CellDumpedAt(data: Text, k: nat, t: Text)
    requires data != [] && |data| % 4 == 0 && k < |data| / 4 && t == [LESS] + CellsText(Grouped(data))
    ensures |t| == 1 + 11 * (|data| / 4) && CellDumped(t, k, data[4 * k..4 * k + 4], k == |data| / 4 - 1)
  {
    var ws := Grouped(data);
    GroupedAt(data, k);
    CellsTextAt(ws, k);
    CellInText(t, CellsText(ws), ws[k], k, data[4 * k..4 * k + 4], k == |data| / 4 - 1);
  }

  /** The characters of the k-th cell, in their place. */
  lemma CellInText(t: Text, cells: Text, w: Cell, k: nat, word: Text, last: bool)
    requires t == [LESS] + cells && 11 * k + 10 < |cells| && cells[11 * k..11 * k + 10] == HexCell(w) && word == w.Bytes()
    requires cells[11 * k + 10] == if last then '>' as int else ' ' as int
    ensures CellDumped(t, k, word, last)
  {
    var cell := HexCell(w);
    HexCellIs(w);
    SliceAt(t, cells, cell, k);
    forall j | 0 <= j < 4
      ensures IsLower(t[3 + 11 * k + 2 * j], word[j] / 16) && IsLower(t[4 + 11 * k + 2 * j], word[j] % 16)
    {
      assert t[1 + 11 * k + (2 + 2 * j)] == cell[2 + 2 * j] && t[1 + 11 * k + (3 + 2 * j)] == cell[3 + 2 * j];
    }
  }

  lemma SliceAt(t: Text, cells: Text, cell: Text, k: nat)
    requires t == [LESS] + cells && 11 * k + 10 < |cells| && |cell| == 10 && cells[11 * k..11 * k + 10] == cell
    ensures forall i :: 0 <= i < 10 ==> cell[i] == t[1 + 11 * k + i]
  {
    assert forall i :: 0 <= i < 10 ==> cell[i] == cells[11 * k + i];
  }

  lemma CellDumpIs(data: Text)
    requires data != [] && |data| % 4 == 0
    ensures IsCellDump([LESS] + CellsText(Grouped(data)), data)
  {
    var t := [LESS] + CellsText(Grouped(data));
    CellDumpedAt(data, 0, t);
    forall k | 0 <= k < |data| / 4
      ensures CellDumped(t, k, data[4 * k..4 * k + 4], k == |data| / 4 - 1)
    {
      CellDumpedAt(data, k, t);
    }
  }

  /** What is printed for data that is no string: words if it is made of them, bytes otherwise, and only a summary for more
      than 64 bytes. */
  lemma DumpIs(data: Text, next: Byte)
    requires data != [] && !IsPrintable(data, next)
    ensures if |data| > 64 then Print(data, next) == Summary
            else Print(data, next).Shown? && if |data| % 4 == 0 then IsCellDump(Print(data, next).text, data)
                                             else IsByteDump(Print(data, next).text, data)
  {
    if |data| <= 64 {
      if |data| % 4 == 0 {
        CellDumpIs(data);
      } else {
        ByteDumpIs(data);
      }
    }
  }

  /** The strings "a" and "b" print as "a", "b" with their quotes. */
  lemma TwoStrings(next: Byte)
    ensures var t := Print(['a' as int, 0, 'b' as int, 0], next); var s := "\"a\", \"b\"";
            t.Shown? && |t.text| == |s| && forall i :: 0 <= i < |s| ==> t.text[i] == s[i] as int
  {
    var x, y: Text := ['a' as int], ['b' as int];
    var args := [x, y];
    TwoAre(x, y);
    ParseThenPrint(args, next);
  }

  lemma TwoAre(x: Text, y: Text)
    requires |x| == |y| == 1 && Visible(x[0]) && Visible(y[0])
    ensures Strings([x, y]) == [x[0], 0, y[0], 0] && Clean([x, y])
    ensures Quoted([x, y]) == [x[0], QUOTE, ',' as int, SPACE, QUOTE, y[0]]
  {
    var args := [x, y];
    assert args[1..] == [y] && [y][1..] == [] && Strings([]) == [];
    assert Strings([y]) == y + [0] + [];
    assert Clean([y]);
    assert Quoted([y]) == y;
  }

  // ---------------------------------------------------------------- numbers that are too wide

  ghost predicate AllHex(x: Text) {
    forall i :: 0 <= i < |x| ==> IsXDigit(x[i])
  }

  /** Digits in front only change what has been read so far. */
  lemma {:induction false} DigitsInFront(x: Text, y: Text, acc: nat) returns (acc': nat)
    requires AllHex(x)
    ensures Digits(x + y, 16, acc) == Digits(y, 16, acc')
  {
    if x == [] {
      assert x + y == y;
      acc' := acc;
    } else {
      assert (x + y)[1..] == x[1..] + y;
      acc' := DigitsInFront(x[1..], y, (acc * 16 + DigitValue(x[0])) % WORD_LIMIT);
    }
  }

  lemma LowByte(x: nat)
    ensures x % WORD_LIMIT % 256 == x % 256
  {
    assert x == 256 * (0x100_0000 * (x / WORD_LIMIT) + x % WORD_LIMIT / 256) + x % WORD_LIMIT % 256;
  }

  /** The last two digits are the low byte, whatever was read before. */
  lemma LastTwo(b: Byte, r: Text, acc: nat)
    requires NoDigit(r)
    ensures Digits(HexByte(b) + r, 16, acc).value % 256 == b && Digits(HexByte(b) + r, 16, acc).rest == r
  {
    var hi, lo := HexDigit(b / 16), HexDigit(b % 16);
    var t := HexByte(b) + r;
    var u := [lo] + r;
    var m := (acc * 16 + b / 16) % WORD_LIMIT;
    assert t[1..] == u && u[1..] == r;
    assert Digits(t, 16, acc) == Digits(u, 16, m);
    assert Digits(u, 16, m) == Digits(r, 16, (m * 16 + b % 16) % WORD_LIMIT);
    TwoNibbles(acc, b);
  }

  lemma TwoNibbles(acc: nat, b: Byte)
    ensures ((acc * 16 + b / 16) % WORD_LIMIT * 16 + b % 16) % WORD_LIMIT % 256 == b
  {
    var n := acc * 16 + b / 16;
    var q, v := n / WORD_LIMIT, n % WORD_LIMIT * 16 + b % 16;
    assert v == 256 * (acc - 0x1000_0000 * q) + b;
    LowByte(v);
    ByteOfSum(acc - 0x1000_0000 * q, b);
  }

  lemma ByteOfSum(k: int, b: Byte)
    ensures (256 * k + b) % 256 == b
  {
  }

  /** A number of three digits or more in a byte stream counts with its last two. */
  lemma WideByte(x: Text, b: Byte, r: Text, more: seq<Text>)
    requires x != [] && AllHex(x) && NoDigit(r)
    ensures Bytes(x + (HexByte(b) + r), more) == Behind([b], Bytes(r, more))
  {
    var y := HexByte(b) + r;
    var t := x + y;
    assert SkipSpaces(t) == t;
    StrtoulAdvances(t);
    var n := Strtoul(t, 16);
    var first := if t[0] == ZERO then x[1..] else x;
    assert t[0] == ZERO ==> t[1..] == first + y;
    assert t[0] == ZERO ==> !(|t[1..]| > 1 && t[1..][0] == LETTER_X) by {
      assert first == [] ==> (first + y)[0] == y[0];
      assert first != [] ==> (first + y)[0] == first[0];
    }
    var acc := DigitsInFront(first, y, 0);
    LastTwo(b, r, acc);
  }
}
