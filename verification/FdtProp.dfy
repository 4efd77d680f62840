/** Printing device tree properties and parsing them from the command line, common/cmd_fdt.c. */
module FdtProp {
  import opened Basics
  import opened Numbers

  const MAX_DUMP := 64          // CONFIG_CMD_FDT_MAX_DUMP

  const SPACE: Byte := 0x20
  const QUOTE: Byte := 0x22
  const LESS: Byte := 0x3c
  const GREATER: Byte := 0x3e
  const OPEN: Byte := 0x5b
  const CLOSE: Byte := 0x5d

  // ---------------------------------------------------------------- cells

  /** A big-endian word. */
  datatype Cell = Cell(a: Byte, b: Byte, c: Byte, d: Byte) {
    function Bytes(): Text { [a, b, c, d] }
    function Value(): nat { ((a * 256 + b) * 256 + c) * 256 + d }
  }

  /** `0x%08x` */
  function HexCell(w: Cell): (t: Text)
    ensures |t| == 10
  {
    [ZERO, LETTER_X] + (HexByte(w.a) + (HexByte(w.b) + (HexByte(w.c) + HexByte(w.d))))
  }

  lemma CellDigits(a: Byte, b: Byte, c: Byte, d: Byte, rest: Text)
    requires NoDigit(rest)
    ensures Digits(HexByte(a) + (HexByte(b) + (HexByte(c) + (HexByte(d) + rest))), 16, 0)
         == Number(((a * 256 + b) * 256 + c) * 256 + d, rest)
  {
    DigitsOfByte(a, HexByte(b) + (HexByte(c) + (HexByte(d) + rest)), 0);
    DigitsOfByte(b, HexByte(c) + (HexByte(d) + rest), a);
    DigitsOfByte(c, HexByte(d) + rest, a * 256 + b);
    DigitsOfByte(d, rest, (a * 256 + b) * 256 + c);
  }

  lemma CellIsRead(w: Cell, rest: Text)
    requires NoDigit(rest)
    ensures Strtoul(HexCell(w) + rest, 0) == Number(w.Value(), rest)
  {
    var digits := HexByte(w.a) + (HexByte(w.b) + (HexByte(w.c) + (HexByte(w.d) + rest)));
    var t := HexCell(w) + rest;
    assert t == [ZERO, LETTER_X] + digits;
    assert t[1..] == [LETTER_X] + digits && t[1..][1..] == digits && digits[0] == HexDigit(w.a / 16);
    CellDigits(w.a, w.b, w.c, w.d, rest);
  }

  lemma WordReadsBack(w: Cell)
    ensures WordBytes(w.Value()) == w.Bytes()
  {
    var x: nat := w.a * 256 + w.b;
    var y: nat := x * 256 + w.c;
    var v: nat := y * 256 + w.d;
    assert v / 256 == y && v % 256 == w.d && y / 256 == x && y % 256 == w.c && x / 256 == w.a && x % 256 == w.b;
  }

  // ---------------------------------------------------------------- the command line

  /** The arguments put together again, with a space at each cut. */
  function Joined(cur: Text, more: seq<Text>): Text
    decreases |more|
  {
    if more == [] then cur else cur + ([SPACE] + Joined(more[0], more[1..]))
  }

  /** A token without spaces at the front of the joined arguments is at the front of the first. */
  lemma TokenAtFront(token: Text, tail: Text, cur: Text, more: seq<Text>)
    requires Joined(cur, more) == token + tail && forall i :: 0 <= i < |token| ==> token[i] != SPACE
    ensures exists r :: cur == token + r && Joined(r, more) == tail
  {
    var all := token + tail;
    assert more != [] ==> |all| > |cur| && all[|cur|] == SPACE;
    assert forall i :: 0 <= i < |token| ==> all[i] == token[i];
    assert |cur| >= |token|;
    var r := cur[|token|..];
    assert cur == all[..|cur|];
    assert cur[..|token|] == token;
    assert cur == token + r;
    if more == [] {
      assert all[|token|..] == tail;
    } else {
      var rest := [SPACE] + Joined(more[0], more[1..]);
      assert all == token + (r + rest);
      assert all[|token|..] == tail && all[|token|..] == r + rest;
    }
  }

  /** What follows a token in the arguments: the end of an argument, or the character that follows in the text. */
  lemma AfterToken(r: Text, more: seq<Text>, tail: Text)
    requires Joined(r, more) == tail && tail != []
    ensures r != [] ==> r[0] == tail[0] && Joined(r[1..], more) == tail[1..]
    ensures r == [] ==> more != [] && tail[0] == SPACE && Joined(more[0], more[1..]) == tail[1..]
  {
    if more != [] {
      var rest := [SPACE] + Joined(more[0], more[1..]);
      if r != [] {
        assert (r + rest)[1..] == r[1..] + rest;
      } else {
        assert r + rest == rest;
        assert rest[1..] == Joined(more[0], more[1..]);
      }
    }
  }

  // ---------------------------------------------------------------- parsing

  /** Parsed data, a refusal, or a run past the last argument in search of a closing bracket. */
  datatype Parsed = Data(bytes: Text) | Refused | Overrun

  function Behind(x: Text, p: Parsed): Parsed {
    if p.Data? then Data(x + p.bytes) else p
  }

  function SkipSpaces(t: Text): (u: Text)
    ensures |u| <= |t| && (u == [] || u[0] != SPACE)
  {
    if t != [] && t[0] == SPACE then SkipSpaces(t[1..]) else t
  }

  /** Cells from the rest of one argument and the arguments after it. */
  function Cells(cur: Text, more: seq<Text>): Parsed
    decreases |more|, |cur|
  {
    if cur == [] then (if more == [] then Overrun else Cells(more[0], more[1..]))
    else if cur[0] == GREATER then Data([])
    else
      var n := Strtoul(cur, 0);
      if |n.rest| == |cur| then Refused
      else Behind(WordBytes(n.value), Cells(SkipSpaces(n.rest), more))
  }

  /** Single bytes from the rest of one argument and the arguments after it. */
  function Bytes(cur: Text, more: seq<Text>): Parsed
    decreases |more|, |cur|
  {
    var t := SkipSpaces(cur);
    if t == [] then (if more == [] then Overrun else Bytes(more[0], more[1..]))
    else if t[0] == CLOSE then Data([])
    else if !IsXDigit(t[0]) then Refused
    else
      StrtoulAdvances(t);
      var n := Strtoul(t, 16);
      Behind([n.value % 256], Bytes(n.rest, more))
  }

  lemma StrtoulAdvances(t: Text)
    requires t != [] && IsXDigit(t[0])
    ensures |Strtoul(t, 16).rest| < |t|
  {
  }

  /** Strings with their terminators. */
  function Strings(args: seq<Text>): Text {
    if args == [] then [] else args[0] + [0] + Strings(args[1..])
  }

  /** `fdt_parse_prop`. */
  function Parse(args: seq<Text>): Parsed
    requires args != []
  {
    var first := args[0];
    if first != [] && first[0] == LESS then Cells(first[1..], args[1..])
    else if first != [] && first[0] == OPEN then Bytes(first[1..], args[1..])
    else Data(Strings(args))
  }

  // ---------------------------------------------------------------- printing

  /** Bytes in groups of four, and back. */
  function Grouped(data: Text): (ws: seq<Cell>)
    requires |data| % 4 == 0
    ensures data != [] ==> ws != []
  {
    if data == [] then [] else [Cell(data[0], data[1], data[2], data[3])] + Grouped(data[4..])
  }

  function Flat(ws: seq<Cell>): Text {
    if ws == [] then [] else ws[0].Bytes() + Flat(ws[1..])
  }

  lemma {:induction false} GroupedFlat(data: Text)
    requires |data| % 4 == 0
    ensures Flat(Grouped(data)) == data
  {
    if data != [] {
      GroupedFlat(data[4..]);
      var w := Cell(data[0], data[1], data[2], data[3]);
      assert ([w] + Grouped(data[4..]))[1..] == Grouped(data[4..]);
      assert w.Bytes() + data[4..] == data;
    }
  }

  function CellsText(ws: seq<Cell>): Text
    requires ws != []
  {
    if |ws| == 1 then HexCell(ws[0]) + [GREATER] else HexCell(ws[0]) + ([SPACE] + CellsText(ws[1..]))
  }

  function BytesText(data: Text): Text
    requires data != []
  {
    if |data| == 1 then HexByte(data[0]) + [CLOSE] else HexByte(data[0]) + ([SPACE] + BytesText(data[1..]))
  }

  lemma CellHasNoSpace(w: Cell)
    ensures forall i :: 0 <= i < |HexCell(w)| ==> HexCell(w)[i] != SPACE
  {
  }

  /** A cell at the front of an argument is read, and the spaces behind it. */
  lemma CellStep(w: Cell, r: Text, more: seq<Text>)
    requires NoDigit(r)
    ensures Cells(HexCell(w) + r, more) == Behind(w.Bytes(), Cells(SkipSpaces(r), more))
  {
    CellIsRead(w, r);
    WordReadsBack(w);
    assert (HexCell(w) + r)[0] == ZERO;
  }

  /** Behind a token the parser goes on with the next one, in the same argument or in the next. */
  lemma CellsGoOn(r: Text, more: seq<Text>, rest: Text)
    requires Joined(r, more) == [SPACE] + rest && rest != [] && rest[0] != SPACE
    ensures NoDigit(r)
    ensures exists cur, more' :: Joined(cur, more') == rest && Cells(SkipSpaces(r), more) == Cells(cur, more')
  {
    var tail := [SPACE] + rest;
    AfterToken(r, more, tail);
    assert tail[1..] == rest;
    if r == [] {
      assert Joined(more[0], more[1..]) == rest && Cells(SkipSpaces(r), more) == Cells(more[0], more[1..]);
    } else {
      AfterToken(r[1..], more, rest);
      assert SkipSpaces(r) == r[1..];
      assert Joined(r[1..], more) == rest && Cells(SkipSpaces(r), more) == Cells(r[1..], more);
    }
  }

  lemma LastCell(w: Cell, cur: Text, more: seq<Text>)
    requires Joined(cur, more) == HexCell(w) + [GREATER]
    ensures Cells(cur, more) == Data(w.Bytes())
  {
    CellHasNoSpace(w);
    TokenAtFront(HexCell(w), [GREATER], cur, more);
    var r :| cur == HexCell(w) + r && Joined(r, more) == [GREATER];
    AfterToken(r, more, [GREATER]);
    CellStep(w, r, more);
    assert Cells(r, more) == Data([]);
  }

  lemma FirstCell(w: Cell, rest: Text, cur: Text, more: seq<Text>)
    requires Joined(cur, more) == HexCell(w) + ([SPACE] + rest) && rest != [] && rest[0] != SPACE
    ensures exists cur', more' :: Joined(cur', more') == rest && Cells(cur, more) == Behind(w.Bytes(), Cells(cur', more'))
  {
    CellHasNoSpace(w);
    TokenAtFront(HexCell(w), [SPACE] + rest, cur, more);
    var r :| cur == HexCell(w) + r && Joined(r, more) == [SPACE] + rest;
    CellsGoOn(r, more, rest);
    CellStep(w, r, more);
  }

  lemma CellsTextStarts(ws: seq<Cell>)
    requires ws != []
    ensures CellsText(ws) != [] && CellsText(ws)[0] == ZERO
  {
  }

  /** However the text of the cells is cut at spaces, it is read as the cells. */
  lemma {:induction false} CellsReadBack(ws: seq<Cell>, cur: Text, more: seq<Text>)
    requires ws != [] && Joined(cur, more) == CellsText(ws)
    ensures Cells(cur, more) == Data(Flat(ws))
    decreases |ws|
  {
    var rest := ws[1..];
    if rest == [] {
      LastCell(ws[0], cur, more);
    } else {
      CellsTextStarts(rest);
      FirstCell(ws[0], CellsText(rest), cur, more);
      var cur', more' :| Joined(cur', more') == CellsText(rest)
                         && Cells(cur, more) == Behind(ws[0].Bytes(), Cells(cur', more'));
      CellsReadBack(rest, cur', more');
    }
  }

  /** A byte at the front of an argument is read. */
  lemma ByteStep(b: Byte, r: Text, more: seq<Text>)
    requires NoDigit(r)
    ensures Bytes(HexByte(b) + r, more) == Behind([b], Bytes(r, more))
  {
    var t := HexByte(b) + r;
    ByteIsRead(b, r);
    assert t[0] == HexDigit(b / 16) && SkipSpaces(t) == t;
  }

  lemma BytesGoOn(r: Text, more: seq<Text>, rest: Text)
    requires Joined(r, more) == [SPACE] + rest
    ensures NoDigit(r)
    ensures exists cur, more' :: Joined(cur, more') == rest && Bytes(r, more) == Bytes(cur, more')
  {
    AfterToken(r, more, [SPACE] + rest);
    assert ([SPACE] + rest)[1..] == rest;
    if r == [] {
      assert Joined(more[0], more[1..]) == rest && Bytes(r, more) == Bytes(more[0], more[1..]);
    } else {
      assert SkipSpaces(r) == SkipSpaces(r[1..]);
      assert Joined(r[1..], more) == rest && Bytes(r, more) == Bytes(r[1..], more);
    }
  }

  lemma LastByte(b: Byte, cur: Text, more: seq<Text>)
    requires Joined(cur, more) == HexByte(b) + [CLOSE]
    ensures Bytes(cur, more) == Data([b])
  {
    TokenAtFront(HexByte(b), [CLOSE], cur, more);
    var r :| cur == HexByte(b) + r && Joined(r, more) == [CLOSE];
    AfterToken(r, more, [CLOSE]);
    ByteStep(b, r, more);
    assert Bytes(r, more) == Data([]);
  }

  lemma FirstByte(b: Byte, rest: Text, cur: Text, more: seq<Text>)
    requires Joined(cur, more) == HexByte(b) + ([SPACE] + rest)
    ensures exists cur', more' :: Joined(cur', more') == rest && Bytes(cur, more) == Behind([b], Bytes(cur', more'))
  {
    TokenAtFront(HexByte(b), [SPACE] + rest, cur, more);
    var r :| cur == HexByte(b) + r && Joined(r, more) == [SPACE] + rest;
    BytesGoOn(r, more, rest);
    ByteStep(b, r, more);
  }

  /** However the text of the bytes is cut at spaces, it is read as the bytes. */
  lemma {:induction false} BytesReadBack(data: Text, cur: Text, more: seq<Text>)
    requires data != [] && Joined(cur, more) == BytesText(data)
    ensures Bytes(cur, more) == Data(data)
    decreases |data|
  {
    var rest := data[1..];
    if rest == [] {
      assert data == [data[0]];
      LastByte(data[0], cur, more);
    } else {
      FirstByte(data[0], BytesText(rest), cur, more);
      var cur', more' :| Joined(cur', more') == BytesText(rest)
                         && Bytes(cur, more) == Behind([data[0]], Bytes(cur', more'));
      BytesReadBack(rest, cur', more');
      assert [data[0]] + rest == data;
    }
  }

  // ---------------------------------------------------------------- strings

  /** Printable or white space, in the character table of lib/ctype.c. */
  predicate Visible(c: Byte) {
    9 <= c <= 13 || 0x20 <= c <= 0x7e || 0xa0 <= c
  }

  /** The loop of `is_printable_string`; `next` is the byte behind the data, which it looks at too. */
  function Scan(s: Text, next: Byte): bool {
    if s == [] then next == 0
    else if s[0] != 0 && !Visible(s[0]) then false
    else if s[0] == 0 && |s| == 1 then true
    else if s[0] == 0 && s[1] == 0 then false
    else Scan(s[1..], next)
  }

  predicate IsPrintable(data: Text, next: Byte) {
    data != [] && (data[|data| - 1] == 0 || data[|data| - 1] == 10) && Scan(data, next)
  }

  function StrLen(t: Text): (n: nat)
    ensures n <= |t|
  {
    if t == [] || t[0] == 0 then 0 else 1 + StrLen(t[1..])
  }

  /** The strings one after the other in the data. */
  function Split(data: Text): (ss: seq<Text>)
    ensures data != [] ==> ss != []
    decreases |data|
  {
    if data == [] then []
    else
      var n := StrLen(data);
      [data[..n]] + Split(if n == |data| then [] else data[n + 1..])
  }

  /** Strings between quotes, separated by commas, without the first and the last quote. */
  function Quoted(ss: seq<Text>): Text
    requires ss != []
  {
    if |ss| == 1 then ss[0] else ss[0] + [QUOTE, 0x2c, SPACE, QUOTE] + Quoted(ss[1..])
  }

  /** Nothing, a text, or only the place and size of data that is too long. */
  datatype Printed = Nothing | Shown(text: Text) | Summary

  /** `print_data`. */
  function Print(data: Text, next: Byte): Printed {
    if data == [] then Nothing
    else if IsPrintable(data, next) then Shown([QUOTE] + Quoted(Split(data)) + [QUOTE])
    else if |data| > MAX_DUMP then Summary
    else if |data| % 4 == 0 then Shown([LESS] + CellsText(Grouped(data)))
    else Shown([OPEN] + BytesText(data))
  }

  /**
   Data that is not a printable string and short enough to be dumped is parsed back from what is printed, however the
   text is cut at spaces into arguments.
   */
  lemma PrintThenParse(data: Text, next: Byte, args: seq<Text>)
    requires 0 < |data| <= MAX_DUMP && !IsPrintable(data, next) && args != []
    requires Print(data, next) == Shown(Joined(args[0], args[1..]))
    ensures Parse(args) == Data(data)
  {
    var cur, more := args[0], args[1..];
    if |data| % 4 == 0 {
      TokenAtFront([LESS], CellsText(Grouped(data)), cur, more);
      var r :| cur == [LESS] + r && Joined(r, more) == CellsText(Grouped(data));
      CellsReadBack(Grouped(data), r, more);
      GroupedFlat(data);
      assert cur[1..] == r;
    } else {
      TokenAtFront([OPEN], BytesText(data), cur, more);
      var r :| cur == [OPEN] + r && Joined(r, more) == BytesText(data);
      BytesReadBack(data, r, more);
      assert cur[1..] == r;
    }
  }

  /** Strings that print as such: visible, and none of them empty but the first. */
  predicate Clean(args: seq<Text>) {
    args == [] ||
    ((forall i :: 0 <= i < |args[0]| ==> Visible(args[0][i])) && (|args| > 1 ==> args[1] != []) && Clean(args[1..]))
  }

  ghost predicate AreStrings(args: seq<Text>) {
    forall k :: 0 <= k < |args| ==> 0 !in args[k]
  }

  lemma {:induction false} ScanText(x: Text, y: Text, next: Byte)
    requires 0 !in x
    ensures Scan(x + y, next) <==> (forall i :: 0 <= i < |x| ==> Visible(x[i])) && Scan(y, next)
  {
    if x == [] {
      assert x + y == y;
    } else {
      assert (x + y)[1..] == x[1..] + y;
      ScanText(x[1..], y, next);
      assert forall i :: 1 <= i < |x| ==> x[i] == x[1..][i - 1];
    }
  }

  lemma {:induction false} ScanStrings(args: seq<Text>, next: Byte)
    requires args != [] && AreStrings(args)
    ensures Scan(Strings(args), next) <==> Clean(args)
  {
    var x, rest := args[0], Strings(args[1..]);
    var y := [0] + rest;
    assert Strings(args) == x + y;
    ScanText(x, y, next);
    assert y[1..] == rest;
    if |args| > 1 {
      ScanStrings(args[1..], next);
      assert args[1..][0] == args[1];
      assert rest == args[1] + [0] + Strings(args[1..][1..]);
    }
  }

  lemma {:induction false} StringsEnd(args: seq<Text>)
    requires args != []
    ensures Strings(args) != [] && Strings(args)[|Strings(args)| - 1] == 0
  {
    if |args| > 1 {
      StringsEnd(args[1..]);
    }
  }

  lemma {:induction false} StrLenIs(x: Text, rest: Text)
    requires 0 !in x
    ensures StrLen(x + ([0] + rest)) == |x|
  {
    if x != [] {
      assert (x + ([0] + rest))[1..] == x[1..] + ([0] + rest);
      StrLenIs(x[1..], rest);
    }
  }

  lemma {:induction false} SplitStrings(args: seq<Text>)
    requires AreStrings(args)
    ensures Split(Strings(args)) == args
  {
    if args != [] {
      var x, rest := args[0], Strings(args[1..]);
      var data := x + ([0] + rest);
      assert Strings(args) == data;
      StrLenIs(x, rest);
      SplitStrings(args[1..]);
      assert data[..|x|] == x && data[|x| + 1..] == rest;
      assert [x] + args[1..] == args;
    }
  }

  /** Parsed strings print as the same strings if and only if they are clean; otherwise they are dumped as numbers. */
  lemma ParseThenPrint(args: seq<Text>, next: Byte)
    requires args != [] && AreStrings(args) && (args[0] == [] || (args[0][0] != LESS && args[0][0] != OPEN))
    ensures Parse(args) == Data(Strings(args))
    ensures IsPrintable(Strings(args), next) <==> Clean(args)
    ensures Clean(args) ==> Print(Strings(args), next) == Shown([QUOTE] + Quoted(args) + [QUOTE])
  {
    ScanStrings(args, next);
    StringsEnd(args);
    SplitStrings(args);
  }

  // ---------------------------------------------------------------- the loops

  lemma BehindTwice(x: Text, y: Text, p: Parsed)
    ensures Behind(x, Behind(y, p)) == Behind(x + y, p)
  {
    if p.Data? {
      assert x + (y + p.bytes) == x + y + p.bytes;
    }
  }

  method ParseProp(args: seq<Text>) returns (p: Parsed)
    requires args != []
    ensures p == Parse(args)
  {
    var newp := args[0];
    if newp != [] && newp[0] == LESS {
      p := ParseCells(args, newp[1..]);
    } else if newp != [] && newp[0] == OPEN {
      p := ParseBytes(args, newp[1..]);
    } else {
      p := ParseStrings(args);
    }
  }

  method SkipSpaceAt(t: Text) returns (u: Text)
    ensures u == SkipSpaces(t)
  {
    u := t;
    while u != [] && u[0] == SPACE
      invariant SkipSpaces(t) == SkipSpaces(u)
    {
      u := u[1..];
    }
  }

  method ParseCells(args: seq<Text>, first: Text) returns (p: Parsed)
    requires args != []
    ensures p == Cells(first, args[1..])
  {
    var newp, stridx, data: Text := first, 0, [];
    while newp == [] || newp[0] != GREATER
      invariant 0 <= stridx < |args|
      invariant Cells(first, args[1..]) == Behind(data, Cells(newp, args[stridx + 1..]))
      decreases |args| - stridx, |newp|
    {
      if newp == [] {
        stridx := stridx + 1;
        if stridx == |args| { return Overrun; }
        newp := args[stridx];
      } else {
        var n := Strtoul(newp, 0);
        if |n.rest| == |newp| { return Refused; }
        BehindTwice(data, WordBytes(n.value), Cells(SkipSpaces(n.rest), args[stridx + 1..]));
        data := data + WordBytes(n.value);
        newp := SkipSpaceAt(n.rest);
      }
    }
    p := Data(data);
  }

  method ParseBytes(args: seq<Text>, first: Text) returns (p: Parsed)
    requires args != []
    ensures p == Bytes(first, args[1..])
  {
    var newp, stridx, data: Text := first, 0, [];
    while newp == [] || newp[0] != CLOSE
      invariant 0 <= stridx < |args|
      invariant Bytes(first, args[1..]) == Behind(data, Bytes(newp, args[stridx + 1..]))
      decreases |args| - stridx, |newp|
    {
      newp := SkipSpaceAt(newp);
      if newp == [] {
        stridx := stridx + 1;
        if stridx == |args| { return Overrun; }
        newp := args[stridx];
      } else if !IsXDigit(newp[0]) {
        return if newp[0] == CLOSE then Data(data) else Refused;
      } else {
        StrtoulAdvances(newp);
        var n := Strtoul(newp, 16);
        BehindTwice(data, [n.value % 256], Bytes(n.rest, args[stridx + 1..]));
        data := data + [n.value % 256];
        newp := n.rest;
      }
    }
    p := Data(data);
  }

  method ParseStrings(args: seq<Text>) returns (p: Parsed)
    ensures p == Data(Strings(args))
  {
    var data: Text := [];
    for stridx := 0 to |args|
      invariant data + Strings(args[stridx..]) == Strings(args)
    {
      assert args[stridx..][1..] == args[stridx + 1..];
      assert data + (args[stridx] + [0] + Strings(args[stridx + 1..])) == data + (args[stridx] + [0]) + Strings(args[stridx + 1..]);
      data := data + (args[stridx] + [0]);
    }
    p := Data(data);
  }

  method IsPrintableString(data: Text, next: Byte) returns (r: bool)
    ensures r == IsPrintable(data, next)
  {
    if |data| == 0 { return false; }
    if data[|data| - 1] != 0 && data[|data| - 1] != 10 { return false; }
    var s := data;
    while s != [] && (s[0] == 0 || Visible(s[0]))
      invariant Scan(data, next) == Scan(s, next)
    {
      if s[0] == 0 {
        if |s| == 1 { return true; }
        if s[1] == 0 { return false; }
      }
      s := s[1..];
    }
    r := s == [] && next == 0;
  }

  method PrintData(data: Text, next: Byte) returns (p: Printed)
    ensures p == Print(data, next)
  {
    if data == [] { return Nothing; }
    var strings := IsPrintableString(data, next);
    if strings {
      var t := PrintStrings(data);
      return Shown([QUOTE] + t + [QUOTE]);
    }
    if |data| > MAX_DUMP { return Summary; }
    var t: Text;
    if |data| % 4 == 0 {
      t := PrintCells(data);
      return Shown([LESS] + t);
    }
    t := PrintBytes(data);
    return Shown([OPEN] + t);
  }

  method PrintStrings(data: Text) returns (t: Text)
    requires data != []
    ensures t == Quoted(Split(data))
  {
    var s := data;
    t := [];
    while true
      invariant s != [] && t + Quoted(Split(s)) == Quoted(Split(data))
      decreases |s|
    {
      var n := StrLen(s);
      var rest := if n == |s| then [] else s[n + 1..];
      assert Split(s)[1..] == Split(rest);
      if rest == [] { return t + s[..n]; }
      assert t + (s[..n] + [QUOTE, 0x2c, SPACE, QUOTE] + Quoted(Split(rest)))
          == t + (s[..n] + [QUOTE, 0x2c, SPACE, QUOTE]) + Quoted(Split(rest));
      t := t + (s[..n] + [QUOTE, 0x2c, SPACE, QUOTE]);
      s := rest;
    }
  }

  method PrintCells(data: Text) returns (t: Text)
    requires |data| % 4 == 0 && data != []
    ensures t == CellsText(Grouped(data))
  {
    var s := data;
    t := [];
    ghost var all := CellsText(Grouped(data));
    while |s| > 4
      invariant CellsToPrint(t, s, all)
    {
      NextCell(t, s, all);
      t := t + HexCell(Cell(s[0], s[1], s[2], s[3])) + [SPACE];
      s := s[4..];
    }
    FinalCell(t, s, all);
    t := t + HexCell(Cell(s[0], s[1], s[2], s[3])) + [GREATER];
  }

  /** Of the whole text, t is printed and the cells of s are still to come. */
  ghost predicate CellsToPrint(t: Text, s: Text, all: Text) {
    |s| % 4 == 0 && s != [] && t + CellsText(Grouped(s)) == all
  }

  lemma NextCell(t: Text, s: Text, all: Text)
    requires CellsToPrint(t, s, all) && |s| > 4
    ensures CellsToPrint(t + HexCell(Cell(s[0], s[1], s[2], s[3])) + [SPACE], s[4..], all)
  {
    var w, ws := Cell(s[0], s[1], s[2], s[3]), Grouped(s[4..]);
    assert ([w] + ws)[1..] == ws;
    assert CellsText(Grouped(s)) == HexCell(w) + ([SPACE] + CellsText(ws));
    RegroupText(t, HexCell(w), [SPACE], CellsText(ws));
  }

  lemma FinalCell(t: Text, s: Text, all: Text)
    requires CellsToPrint(t, s, all) && |s| <= 4
    ensures |s| == 4 && t + HexCell(Cell(s[0], s[1], s[2], s[3])) + [GREATER] == all
  {
    OneCellText(s);
    RegroupText(t, HexCell(Cell(s[0], s[1], s[2], s[3])), [GREATER], []);
  }

  lemma OneCellText(s: Text)
    requires |s| == 4
    ensures CellsText(Grouped(s)) == HexCell(Cell(s[0], s[1], s[2], s[3])) + [GREATER]
  {
    var w := Cell(s[0], s[1], s[2], s[3]);
    assert s[4..] == [];
    assert Grouped(s[4..]) == [];
    assert Grouped(s) == [w] + [] == [w];
  }

  lemma RegroupText(a: Text, b: Text, c: Text, d: Text)
    ensures a + (b + (c + d)) == a + b + c + d && a + (b + c) == a + b + c
  {
  }

  method PrintBytes(data: Text) returns (t: Text)
    requires data != []
    ensures t == BytesText(data)
  {
    t := [];
    for j := 0 to |data| - 1
      invariant t + BytesText(data[j..]) == BytesText(data)
    {
      assert data[j..][1..] == data[j + 1..];
      assert t + (HexByte(data[j]) + ([SPACE] + BytesText(data[j + 1..]))) == t + HexByte(data[j]) + [SPACE] + BytesText(data[j + 1..]);
      t := t + HexByte(data[j]) + [SPACE];
    }
    t := t + HexByte(data[|data| - 1]) + [CLOSE];
  }
}
