/** Where property text is ambiguous or not closed: the edges of the formats of common/cmd_fdt.c. */
module FdtEdges {
  import opened Basics
  import opened Numbers
  import opened FdtProp

  // ---------------------------------------------------------------- strings that end in a newline

  /** Visible bytes and zeros, no two zeros side by side. */
  ghost predicate Smooth(s: Text) {
    && (forall i :: 0 <= i < |s| ==> s[i] == 0 || Visible(s[i]))
    && forall i :: 0 < i < |s| ==> s[i - 1] != 0 || s[i] != 0
  }

  lemma SmoothTail(s: Text)
    requires s != []
    ensures Smooth(s) <==>
            (s[0] == 0 || Visible(s[0])) && (|s| > 1 ==> s[0] != 0 || s[1] != 0) && Smooth(s[1..])
  {
    assert forall i :: 0 < i < |s| ==> s[i] == s[1..][i - 1];
    assert forall i :: 0 <= i < |s| - 1 ==> s[1..][i] == s[i + 1];
  }

  /** What the scan makes of data that ends as a string has to: only behind a newline does the next byte count. */
  lemma {:induction false} ScanIs(s: Text, next: Byte)
    requires s != [] && (s[|s| - 1] == 0 || s[|s| - 1] == 10)
    ensures Scan(s, next) <==> Smooth(s) && (s[|s| - 1] == 10 ==> next == 0)
  {
    SmoothTail(s);
    if |s| > 1 {
      ScanIs(s[1..], next);
    }
  }

  /** The byte behind the data decides whether it is a string exactly for smooth data that ends in a newline. */
  lemma NextByteDecides(data: Text, next: Byte)
    requires next != 0
    ensures IsPrintable(data, 0) != IsPrintable(data, next) <==> data != [] && data[|data| - 1] == 10 && Smooth(data)
  {
    if data != [] && (data[|data| - 1] == 0 || data[|data| - 1] == 10) {
      ScanIs(data, 0);
      ScanIs(data, next);
    }
  }

  /** The property "a\n" prints as a string before a zero byte and as the bytes 61 and 0a before any other. */
  lemma NewlineWitness(next: Byte)
    ensures Print([0x61, 10], 0) == Shown([QUOTE, 0x61, 10, QUOTE])
    ensures next != 0 ==> Print([0x61, 10], next) == Shown([OPEN] + BytesText([0x61, 10]))
  {
    var data := [0x61, 10];
    ScanIs(data, 0);
    ScanIs(data, next);
    assert StrLen([10]) == 1 by { assert [10][1..] == []; }
    assert data[1..] == [10] && StrLen(data) == 2;
    assert data[..2] == data && Split(data) == [data];
  }

  // ---------------------------------------------------------------- brackets that are not closed

  /** Number of digits of the base at the front of a text. */
  function Run(t: Text, base: nat): (n: nat)
    ensures n <= |t|
  {
    if t != [] && IsXDigit(t[0]) && DigitValue(t[0]) < base then 1 + Run(t[1..], base) else 0
  }

  lemma {:induction false} DigitsEnd(t: Text, base: nat, acc: nat)
    ensures Digits(t, base, acc).rest == t[Run(t, base)..]
  {
    if t != [] && IsXDigit(t[0]) && DigitValue(t[0]) < base {
      DigitsEnd(t[1..], base, (acc * base + DigitValue(t[0])) % WORD_LIMIT);
    }
  }

  lemma {:induction false} RunIs(t: Text, base: nat)
    ensures forall i :: 0 <= i < Run(t, base) ==> IsXDigit(t[i]) && DigitValue(t[i]) < base
    ensures Run(t, base) < |t| ==> !(IsXDigit(t[Run(t, base)]) && DigitValue(t[Run(t, base)]) < base)
  {
    if t != [] && IsXDigit(t[0]) && DigitValue(t[0]) < base {
      RunIs(t[1..], base);
      assert forall i :: 1 <= i < |t| ==> t[i] == t[1..][i - 1];
    }
  }

  /** A text consists of words with spaces between them; this is the end of the word at its front. */
  function WordEnd(t: Text): (n: nat)
    ensures n <= |t|
  {
    if t == [] || t[0] == SPACE then 0 else 1 + WordEnd(t[1..])
  }

  lemma {:induction false} WordEndIs(t: Text, n: nat)
    requires n <= |t| && (forall i :: 0 <= i < n ==> t[i] != SPACE) && (n == |t| || t[n] == SPACE)
    ensures WordEnd(t) == n
  {
    if n > 0 {
      WordEndIs(t[1..], n - 1);
    }
  }

  predicate AllDigits(w: Text, base: nat) {
    forall i :: 0 <= i < |w| ==> IsXDigit(w[i]) && DigitValue(w[i]) < base
  }

  /** A number as it may stand in brackets: digits of the base, or 0x and hexadecimal digits. */
  predicate IsNumber(w: Text, base: nat) {
    w != [] && (AllDigits(w, base) || (|w| > 2 && w[0] == ZERO && w[1] == LETTER_X && AllDigits(w[2..], 16)))
  }

  /** All words of a text are numbers. */
  predicate AllNumbers(t: Text, base: nat)
    decreases |t|
  {
    if t == [] then true
    else if t[0] == SPACE then AllNumbers(t[1..], base)
    else IsNumber(t[..WordEnd(t)], base) && AllNumbers(t[WordEnd(t)..], base)
  }

  lemma {:induction false} WordCovers(t: Text)
    ensures forall i :: 0 <= i < WordEnd(t) ==> t[i] != SPACE
    ensures WordEnd(t) < |t| ==> t[WordEnd(t)] == SPACE
  {
    if t != [] && t[0] != SPACE {
      WordCovers(t[1..]);
      assert forall i :: 1 <= i < |t| ==> t[i] == t[1..][i - 1];
    }
  }

  /** The digits at the front of a text end with their word, or something else follows in it. */
  lemma RunWord(t: Text, base: nat)
    ensures var n := Run(t, base);
            if n == |t| || t[n] == SPACE then WordEnd(t) == n && AllDigits(t[..n], base)
            else WordEnd(t) > n && !AllDigits(t[..WordEnd(t)], base)
  {
    var n := Run(t, base);
    RunIs(t, base);
    if n == |t| || t[n] == SPACE {
      WordEndIs(t, n);
    } else {
      WordCovers(t);
      assert WordEnd(t) > n;
      assert t[..WordEnd(t)][n] == t[n];
    }
  }

  predicate HasPrefix(t: Text) {
    |t| > 2 && t[0] == ZERO && t[1] == LETTER_X && IsXDigit(t[2])
  }

  /** Where the number at the front of a text ends, with the base of the bracket 16 or, from the prefix, 0. */
  function NumberEnd(t: Text, base: nat): (n: nat)
    ensures n <= |t|
  {
    if HasPrefix(t) then 2 + Run(t[2..], 16)
    else if base == 16 then Run(t, 16)
    else if t != [] && t[0] == ZERO then 1 + Run(t[1..], 8)
    else Run(t, 10)
  }

  lemma NumberEnds(t: Text, base: nat)
    requires base == 0 || base == 16
    ensures Strtoul(t, base).rest == t[NumberEnd(t, base)..]
  {
    if HasPrefix(t) {
      assert t[1..][1..] == t[2..];
      DigitsEnd(t[2..], 16, 0);
    } else if t != [] && t[0] == ZERO {
      DigitsEnd(t[1..], if base == 0 then 8 else 16, 0);
    } else {
      DigitsEnd(t, if base == 0 then 10 else 16, 0);
    }
  }

  /** A number with the prefix ends with its word, or something that is no digit follows in it. */
  lemma PrefixWord(t: Text, base: nat)
    requires HasPrefix(t) && (base == 10 || base == 16)
    ensures var n := 2 + Run(t[2..], 16);
            if n == |t| || t[n] == SPACE then WordEnd(t) == n && IsNumber(t[..n], base)
            else !IsXDigit(t[n]) && !IsNumber(t[..WordEnd(t)], base)
  {
    var u := t[2..];
    RunWord(u, 16);
    RunIs(u, 16);
    PrefixShift(t);
    var w := t[..WordEnd(t)];
    assert w[1] == LETTER_X && !IsXDigit(LETTER_X);
    assert w[2..] == u[..WordEnd(u)];
  }

  lemma PrefixShift(t: Text)
    requires HasPrefix(t)
    ensures WordEnd(t) == 2 + WordEnd(t[2..]) && WordEnd(t[2..]) > 0
  {
    assert t[1..][1..] == t[2..];
    assert WordEnd(t[1..]) == 1 + WordEnd(t[2..]);
  }

  /** The same without the prefix. */
  lemma PlainWord(t: Text, base: nat)
    requires !HasPrefix(t) && (base == 10 || base == 16) && Run(t, base) > 0
    ensures var n := Run(t, base);
            if n == |t| || t[n] == SPACE then WordEnd(t) == n && IsNumber(t[..n], base)
            else !(IsXDigit(t[n]) && DigitValue(t[n]) < base) && !IsNumber(t[..WordEnd(t)], base)
  {
    RunWord(t, base);
    RunIs(t, base);
    var w := t[..WordEnd(t)];
    assert |w| > 2 && AllDigits(w[2..], 16) ==> IsXDigit(w[2..][0]);
  }

  lemma {:induction false} SkipKeepsNumbers(t: Text, base: nat)
    ensures AllNumbers(SkipSpaces(t), base) == AllNumbers(t, base)
  {
    if t != [] && t[0] == SPACE {
      SkipKeepsNumbers(t[1..], base);
    }
  }

  lemma FirstWordIsNone(t: Text, base: nat)
    requires t != [] && t[0] != SPACE && !(IsXDigit(t[0]) && DigitValue(t[0]) < base) && base > 0
    ensures !AllNumbers(t, base)
  {
    assert t[..WordEnd(t)][0] == t[0];
  }

  ghost predicate NoneHas(args: seq<Text>, c: Byte) {
    forall k :: 0 <= k < |args| ==> c !in args[k]
  }

  ghost predicate AllBytes(args: seq<Text>) {
    forall k :: 0 <= k < |args| ==> AllNumbers(args[k], 16)
  }

  /** What follows the number at the front of a text, if that does not end its word, is refused. */
  lemma BytesStuck(r: Text, more: seq<Text>)
    requires r != [] && r[0] != SPACE && r[0] != CLOSE && !IsXDigit(r[0])
    ensures Bytes(r, more) == Refused
  {
  }

  lemma FirstByteNumber(t: Text)
    requires t != [] && IsXDigit(t[0])
    ensures var n := NumberEnd(t, 16);
            && n > 0
            && if n == |t| || t[n] == SPACE then AllNumbers(t, 16) == AllNumbers(t[n..], 16)
               else !IsXDigit(t[n]) && !AllNumbers(t, 16)
  {
    var n := NumberEnd(t, 16);
    if HasPrefix(t) {
      PrefixWord(t, 16);
    } else {
      PlainWord(t, 16);
    }
    FirstWord(t, 16, n);
  }

  lemma FirstWord(t: Text, base: nat, n: nat)
    requires 0 < n <= |t| && t[0] != SPACE
    ensures WordEnd(t) == n && IsNumber(t[..n], base) ==> AllNumbers(t, base) == AllNumbers(t[n..], base)
    ensures !IsNumber(t[..WordEnd(t)], base) ==> !AllNumbers(t, base)
  {
  }

  /** A byte stream that is never closed: every argument is read to its end exactly if it holds nothing but numbers. */
  lemma {:induction false} BytesUnclosed(cur: Text, more: seq<Text>)
    requires CLOSE !in cur && NoneHas(more, CLOSE)
    ensures Bytes(cur, more) == if AllNumbers(cur, 16) && AllBytes(more) then Overrun else Refused
    decreases |more|, |cur|
  {
    var t := SkipSpaces(cur);
    SkipKeepsNumbers(cur, 16);
    SkipIsTail(cur);
    if t == [] {
      if more != [] {
        BytesUnclosed(more[0], more[1..]);
        assert AllBytes(more) <==> AllNumbers(more[0], 16) && AllBytes(more[1..]) by { AllBytesSplit(more); }
      }
    } else if !IsXDigit(t[0]) {
      FirstWordIsNone(t, 16);
    } else {
      var n := NumberEnd(t, 16);
      NumberEnds(t, 16);
      FirstByteNumber(t);
      if n == |t| || t[n] == SPACE {
        BytesUnclosed(t[n..], more);
      } else {
        BytesStuck(t[n..], more);
      }
    }
  }

  lemma AllBytesSplit(args: seq<Text>)
    requires args != []
    ensures AllBytes(args) <==> AllNumbers(args[0], 16) && AllBytes(args[1..])
  {
    assert forall k :: 1 <= k < |args| ==> args[k] == args[1..][k - 1];
  }

  lemma {:induction false} SkipIsTail(t: Text)
    ensures forall c :: c in SkipSpaces(t) ==> c in t
    ensures |SkipSpaces(t)| <= |t|
  {
    if t != [] && t[0] == SPACE {
      SkipIsTail(t[1..]);
    }
  }

  // cells: the argument must not begin with a space, because spaces are skipped behind numbers only

  predicate CellNumbers(t: Text) {
    (t == [] || t[0] != SPACE) && AllNumbers(t, 10)
  }

  ghost predicate AllCells(args: seq<Text>) {
    forall k :: 0 <= k < |args| ==> CellNumbers(args[k])
  }

  lemma AllCellsSplit(args: seq<Text>)
    requires args != []
    ensures AllCells(args) <==> CellNumbers(args[0]) && AllCells(args[1..])
  {
    assert forall k :: 1 <= k < |args| ==> args[k] == args[1..][k - 1];
  }

  predicate IsDecimal(c: Byte) { IsXDigit(c) && DigitValue(c) < 10 }

  lemma CellsStuck(r: Text, more: seq<Text>)
    requires r != [] && r[0] != GREATER && !IsDecimal(r[0])
    ensures Cells(r, more) == Refused
  {
    NumberEnds(r, 0);
  }

  /** An octal number may end before an 8 or a 9; a decimal number then begins in the same word. */
  lemma OctalWord(t: Text)
    requires t != [] && t[0] == ZERO && !HasPrefix(t)
    ensures var n := 1 + Run(t[1..], 8);
            && n <= |t|
            && if n == |t| || t[n] == SPACE then AllNumbers(t, 10) == AllNumbers(t[n..], 10)
               else if IsDecimal(t[n]) then AllNumbers(t, 10) == AllNumbers(t[n..], 10)
               else !AllNumbers(t, 10)
  {
    var u, n := t[1..], 1 + Run(t[1..], 8);
    RunIs(u, 8);
    assert forall i :: 1 <= i < |t| ==> t[i] == u[i - 1];
    OctalIsDecimal(t, n);
    if n == |t| || t[n] == SPACE || !IsDecimal(t[n]) {
      PlainWord(t, 10);
    } else {
      OctalThenDecimal(t, n);
    }
  }

  lemma {:induction false} OctalIsDecimal(t: Text, n: nat)
    requires n <= |t| && forall i :: 0 <= i < n ==> IsDecimal(t[i])
    ensures Run(t, 10) == n + Run(t[n..], 10)
  {
    if n == 0 {
      assert t[0..] == t;
    } else {
      OctalIsDecimal(t[1..], n - 1);
      assert t[1..][n - 1..] == t[n..];
    }
  }

  lemma OctalThenDecimal(t: Text, n: nat)
    requires 0 < n < |t| && (forall i :: 0 <= i < n ==> IsDecimal(t[i])) && IsDecimal(t[n]) && t[n] != ZERO
    ensures AllNumbers(t, 10) == AllNumbers(t[n..], 10)
  {
    var r := t[n..];
    WordShift(t, n);
    var w, v := t[..WordEnd(t)], r[..WordEnd(r)];
    assert w == t[..n] + v;
    assert t[WordEnd(t)..] == r[WordEnd(r)..];
    assert v[0] == t[n] && w[0] == t[0];
    assert AllDigits(w, 10) <==> AllDigits(v, 10) by {
      assert forall i :: 0 <= i < |v| ==> v[i] == w[n + i];
      assert forall i :: n <= i < |w| ==> w[i] == v[i - n];
    }
    assert |w| > 1 ==> w[1] == t[1] && t[1] != LETTER_X;
  }

  lemma {:induction false} WordShift(t: Text, n: nat)
    requires n <= |t| && forall i :: 0 <= i < n ==> t[i] != SPACE
    ensures WordEnd(t) == n + WordEnd(t[n..])
  {
    if n == 0 {
      assert t[0..] == t;
    } else {
      WordShift(t[1..], n - 1);
      assert t[1..][n - 1..] == t[n..];
    }
  }

  /** Where the first number of a cell argument ends, and what that means for the argument. */
  lemma FirstCellNumber(t: Text)
    requires t != [] && IsDecimal(t[0])
    ensures var n := NumberEnd(t, 0);
            && n > 0
            && if n == |t| || t[n] == SPACE || IsDecimal(t[n]) then AllNumbers(t, 10) == AllNumbers(t[n..], 10)
               else !AllNumbers(t, 10)
  {
    var n := NumberEnd(t, 0);
    if HasPrefix(t) {
      PrefixWord(t, 10);
      FirstWord(t, 10, n);
    } else if t[0] == ZERO {
      OctalWord(t);
    } else {
      PlainWord(t, 10);
      FirstWord(t, 10, n);
    }
  }

  lemma CellsNext(t: Text, more: seq<Text>)
    requires t != [] && t[0] != GREATER && NumberEnd(t, 0) > 0
    ensures Cells(t, more) == Behind(WordBytes(Strtoul(t, 0).value), Cells(SkipSpaces(t[NumberEnd(t, 0)..]), more))
  {
    NumberEnds(t, 0);
  }

  /** Cells that are never closed. */
  lemma {:induction false} CellsUnclosed(cur: Text, more: seq<Text>)
    requires GREATER !in cur && NoneHas(more, GREATER)
    ensures Cells(cur, more) == if CellNumbers(cur) && AllCells(more) then Overrun else Refused
    decreases |more|, |cur|
  {
    if cur == [] {
      if more != [] {
        CellsUnclosed(more[0], more[1..]);
        AllCellsSplit(more);
      }
    } else if !IsDecimal(cur[0]) {
      CellsStuck(cur, more);
      if cur[0] != SPACE {
        FirstWordIsNone(cur, 10);
      }
    } else {
      var r := cur[NumberEnd(cur, 0)..];
      FirstCellNumber(cur);
      CellsNext(cur, more);
      if r == [] || r[0] == SPACE || IsDecimal(r[0]) {
        SkipIsTail(r);
        SkipKeepsNumbers(r, 10);
        CellsUnclosed(SkipSpaces(r), more);
      } else {
        CellsStuck(r, more);
      }
    }
  }

  /**
   A bracket that is opened and never closed: the parser runs past the last argument if everything in the arguments
   converts, and refuses the value otherwise. It never returns data.
   */
  lemma UnclosedBracket(args: seq<Text>)
    requires args != [] && args[0] != []
    ensures args[0][0] == LESS && NoneHas(args, GREATER) ==>
              Parse(args) == if CellNumbers(args[0][1..]) && AllCells(args[1..]) then Overrun else Refused
    ensures args[0][0] == OPEN && NoneHas(args, CLOSE) ==>
              Parse(args) == if AllNumbers(args[0][1..], 16) && AllBytes(args[1..]) then Overrun else Refused
  {
    var cur, more := args[0][1..], args[1..];
    if args[0][0] == LESS && NoneHas(args, GREATER) {
      CellsUnclosed(cur, more);
    }
    if args[0][0] == OPEN && NoneHas(args, CLOSE) {
      BytesUnclosed(cur, more);
    }
  }

  // a closing bracket is no digit and no space, so it cannot be skipped

  predicate IsClosing(c: Byte) { c == GREATER || c == CLOSE }

  lemma {:induction false} DigitsKeep(t: Text, base: nat, acc: nat, c: Byte)
    requires IsClosing(c) && c in t
    ensures c in Digits(t, base, acc).rest
  {
    if IsXDigit(t[0]) && DigitValue(t[0]) < base {
      DigitsKeep(t[1..], base, (acc * base + DigitValue(t[0])) % WORD_LIMIT, c);
    }
  }

  lemma StrtoulKeeps(t: Text, base: nat, c: Byte)
    requires IsClosing(c) && c in t
    ensures c in Strtoul(t, base).rest
  {
    if t[0] != ZERO {
      DigitsKeep(t, if base == 0 then 10 else base, 0, c);
    } else if HasPrefix(t) {
      assert c in t[1..] && c in t[1..][1..];
      DigitsKeep(t[1..][1..], 16, 0, c);
    } else {
      DigitsKeep(t[1..], if base == 0 then 8 else base, 0, c);
    }
  }

  lemma {:induction false} SkipKeeps(t: Text, c: Byte)
    requires IsClosing(c) && c in t
    ensures c in SkipSpaces(t)
  {
    if t[0] == SPACE {
      SkipKeeps(t[1..], c);
    }
  }

  lemma NoneHasSplit(args: seq<Text>, c: Byte)
    requires args != []
    ensures NoneHas(args, c) <==> c !in args[0] && NoneHas(args[1..], c)
  {
    assert forall k :: 1 <= k < |args| ==> args[k] == args[1..][k - 1];
  }

  lemma {:induction false} CellsClosed(cur: Text, more: seq<Text>)
    requires GREATER in cur || !NoneHas(more, GREATER)
    ensures Cells(cur, more) != Overrun
    decreases |more|, |cur|
  {
    if cur == [] {
      NoneHasSplit(more, GREATER);
      CellsClosed(more[0], more[1..]);
    } else if cur[0] != GREATER {
      var n := Strtoul(cur, 0);
      if |n.rest| < |cur| {
        if GREATER in cur {
          StrtoulKeeps(cur, 0, GREATER);
          SkipKeeps(n.rest, GREATER);
        }
        CellsClosed(SkipSpaces(n.rest), more);
      }
    }
  }

  lemma {:induction false} BytesClosed(cur: Text, more: seq<Text>)
    requires CLOSE in cur || !NoneHas(more, CLOSE)
    ensures Bytes(cur, more) != Overrun
    decreases |more|, |cur|
  {
    var t := SkipSpaces(cur);
    if CLOSE in cur {
      SkipKeeps(cur, CLOSE);
    }
    if t == [] {
      NoneHasSplit(more, CLOSE);
      BytesClosed(more[0], more[1..]);
    } else if t[0] != CLOSE && IsXDigit(t[0]) {
      StrtoulAdvances(t);
      if CLOSE in t {
        StrtoulKeeps(t, 16, CLOSE);
      }
      BytesClosed(Strtoul(t, 16).rest, more);
    }
  }

  /** An opened value without its bracket in which everything converts. */
  ghost predicate NeverClosed(args: seq<Text>)
    requires args != []
  {
    && args[0] != []
    && (|| (args[0][0] == LESS && NoneHas(args, GREATER) && CellNumbers(args[0][1..]) && AllCells(args[1..]))
        || (args[0][0] == OPEN && NoneHas(args, CLOSE) && AllNumbers(args[0][1..], 16) && AllBytes(args[1..])))
  }

  /** The parser runs past the last argument exactly for such a value: a closed one, right or wrong, ends inside. */
  lemma OverrunExactly(args: seq<Text>)
    requires args != []
    ensures Parse(args) == Overrun <==> NeverClosed(args)
  {
    if args[0] != [] {
      var cur, more := args[0][1..], args[1..];
      assert forall c :: c in args[0] <==> c == args[0][0] || c in cur;
      UnclosedBracket(args);
      if args[0][0] == LESS && !NoneHas(args, GREATER) {
        NoneHasSplit(args, GREATER);
        CellsClosed(cur, more);
      }
      if args[0][0] == OPEN && !NoneHas(args, CLOSE) {
        NoneHasSplit(args, CLOSE);
        BytesClosed(cur, more);
      }
    }
  }

  /** Data parsed from a bracketed value was closed by its bracket. */
  lemma DataIsClosed(args: seq<Text>)
    requires args != [] && args[0] != [] && Parse(args).Data?
    ensures args[0][0] == LESS ==> exists k :: 0 <= k < |args| && GREATER in args[k]
    ensures args[0][0] == OPEN ==> exists k :: 0 <= k < |args| && CLOSE in args[k]
  {
    UnclosedBracket(args);
  }

  /** `fdt set <path> <prop> [00 11` and `fdt set <path> <prop> <1 2` run past the last argument. */
  lemma UnclosedWitness()
    ensures Parse([[OPEN, 0x30, 0x30], [0x31, 0x31]]) == Overrun
    ensures Parse([[LESS, 0x31], [0x32]]) == Overrun
  {
    var a, b := [[OPEN, 0x30, 0x30], [0x31, 0x31]], [[LESS, 0x31], [0x32]];
    DigitsAreNumbers([0x30, 0x30], 16);
    DigitsAreNumbers([0x31, 0x31], 16);
    DigitsAreNumbers([0x31], 10);
    DigitsAreNumbers([0x32], 10);
    assert a[0][1..] == [0x30, 0x30] && a[1..] == [[0x31, 0x31]];
    assert b[0][1..] == [0x31] && b[1..] == [[0x32]];
    UnclosedBracket(a);
    UnclosedBracket(b);
  }

  lemma DigitsAreNumbers(w: Text, base: nat)
    requires w != [] && AllDigits(w, base)
    ensures AllNumbers(w, base) && w[0] != SPACE
  {
    WordEndIs(w, |w|);
    assert w[..|w|] == w && w[|w|..] == [];
  }
}
