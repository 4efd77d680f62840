/** Parsing INI text, common/cmd_ini.c. */
module Ini {
  import opened Basics

  const MAX_LINE := 200
  const MAX_SECTION := 50
  const MAX_NAME := 50

  const NEWLINE: Byte := 10
  const QUOTE: Byte := 0x22
  const HASH: Byte := 0x23
  const COLON: Byte := 0x3a
  const SEMICOLON: Byte := 0x3b
  const EQUALS: Byte := 0x3d
  const OPEN: Byte := 0x5b
  const CLOSE: Byte := 0x5d

  /** White space in the character table of lib/ctype.c. */
  predicate IsSpace(c: Byte) {
    9 <= c <= 13 || c == 0x20 || c == 0xa0
  }

  ghost predicate AllSpace(t: Text) {
    forall i :: 0 <= i < |t| ==> IsSpace(t[i])
  }

  // ---------------------------------------------------------------- strings

  function RStrip(t: Text): (r: Text)
    ensures |r| <= |t|
  {
    if t != [] && IsSpace(t[|t| - 1]) then RStrip(t[..|t| - 1]) else t
  }

  function LSkip(t: Text): (r: Text)
    ensures |r| <= |t|
  {
    if t != [] && IsSpace(t[0]) then LSkip(t[1..]) else t
  }

  /** Index of the first c, or of a ';' behind white space, or the end. */
  function Find(t: Text, c: Byte, space: bool): (n: nat)
    ensures n <= |t|
  {
    if t == [] || t[0] == c || (space && t[0] == SEMICOLON) then 0
    else 1 + Find(t[1..], c, IsSpace(t[0]))
  }

  /** No comment begins inside t. */
  predicate NoComment(t: Text, space: bool) {
    t == [] || (!(space && t[0] == SEMICOLON) && NoComment(t[1..], IsSpace(t[0])))
  }

  lemma {:induction false} RStripSpace(x: Text, pad: Text)
    requires AllSpace(pad)
    ensures RStrip(x + pad) == RStrip(x)
  {
    if pad == [] {
      assert x + pad == x;
    } else {
      assert (x + pad)[..|x + pad| - 1] == x + pad[..|pad| - 1];
      RStripSpace(x, pad[..|pad| - 1]);
    }
  }

  lemma {:induction false} LSkipSpace(pad: Text, x: Text)
    requires AllSpace(pad)
    ensures LSkip(pad + x) == LSkip(x)
  {
    if pad == [] {
      assert pad + x == x;
    } else {
      assert (pad + x)[1..] == pad[1..] + x;
      LSkipSpace(pad[1..], x);
    }
  }

  /** A character that does not occur before is found where it stands. */
  lemma {:induction false} FindIn(x: Text, c: Byte, y: Text, space: bool)
    requires c !in x && NoComment(x, space) && c != SEMICOLON
    ensures Find(x + ([c] + y), c, space) == |x|
  {
    if x != [] {
      assert (x + ([c] + y))[1..] == x[1..] + ([c] + y);
      FindIn(x[1..], c, y, IsSpace(x[0]));
    }
  }

  /** A character that does not occur is not found. */
  lemma {:induction false} FindMiss(x: Text, c: Byte, space: bool)
    requires c !in x
    ensures Find(x, c, space) == |x| || x[Find(x, c, space)] == SEMICOLON
    ensures NoComment(x, space) ==> Find(x, c, space) == |x|
  {
    if x != [] {
      FindMiss(x[1..], c, IsSpace(x[0]));
    }
  }

  lemma {:induction false} NoCommentConcat(x: Text, y: Text, space: bool)
    requires NoComment(x, space) && SEMICOLON !in y
    ensures NoComment(x + y, space)
  {
    if x == [] {
      assert x + y == y;
      NoSemicolon(y, space);
    } else {
      assert (x + y)[1..] == x[1..] + y;
      NoCommentConcat(x[1..], y, IsSpace(x[0]));
    }
  }

  lemma {:induction false} NoSemicolon(y: Text, space: bool)
    requires SEMICOLON !in y
    ensures NoComment(y, space)
  {
    if y != [] {
      NoSemicolon(y[1..], IsSpace(y[0]));
    }
  }

  // ---------------------------------------------------------------- lines in memory

  function IndexOfNewline(t: Text): (n: nat)
    ensures n <= |t| && NEWLINE !in t[..n] && (n < |t| ==> t[n] == NEWLINE)
  {
    if t == [] || t[0] == NEWLINE then 0
    else
      var n := IndexOfNewline(t[1..]);
      assert t[..1 + n] == [t[0]] + t[1..][..n];
      1 + n
  }

  /** Length of the next line, with its newline if it has one. */
  function LineLength(mem: Text): (n: nat)
    requires mem != []
    ensures 0 < n <= |mem|
  {
    var n := IndexOfNewline(mem);
    if n < |mem| then n + 1 else n
  }

  /** The pieces `memgets` takes one after the other. */
  function Pieces(mem: Text): seq<Text> {
    if mem == [] then [] else [mem[..LineLength(mem)]] + Pieces(mem[LineLength(mem)..])
  }

  function Concat(ts: seq<Text>): Text {
    if ts == [] then [] else ts[0] + Concat(ts[1..])
  }

  /** Every piece is one line: nothing but its last character is a newline, and all but the last piece end with one. */
  ghost predicate AreLines(ts: seq<Text>) {
    ts == [] || (IsLine(ts[0], |ts| == 1) && AreLines(ts[1..]))
  }

  ghost predicate IsLine(t: Text, last: bool) {
    t != [] && NEWLINE !in t[..|t| - 1] && (t[|t| - 1] == NEWLINE || last)
  }

  lemma FirstPiece(mem: Text)
    requires mem != []
    ensures IsLine(mem[..LineLength(mem)], LineLength(mem) == |mem|)
  {
    var n, i := LineLength(mem), IndexOfNewline(mem);
    assert mem[..n][..n - 1] == mem[..i][..n - 1];
  }

  /** The pieces tile the memory. */
  lemma {:induction false} PiecesTile(mem: Text)
    ensures Concat(Pieces(mem)) == mem
  {
    if mem != [] {
      var n := LineLength(mem);
      PiecesTile(mem[n..]);
      assert ([mem[..n]] + Pieces(mem[n..]))[1..] == Pieces(mem[n..]);
      assert mem[..n] + mem[n..] == mem;
    }
  }

  /** Each piece is a line. */
  lemma {:induction false} PiecesAreLines(mem: Text)
    ensures AreLines(Pieces(mem)) && (mem != [] ==> Pieces(mem) != [])
  {
    if mem != [] {
      var n := LineLength(mem);
      PiecesAreLines(mem[n..]);
      FirstPiece(mem);
      assert ([mem[..n]] + Pieces(mem[n..]))[1..] == Pieces(mem[n..]);
    }
  }

  // ---------------------------------------------------------------- one line

  /** A call of the handler. */
  datatype Call = Call(section: Text, name: Text, value: Text)

  /** Section and previous name as the parser keeps them, the calls made, and whether the last line was wrong. */
  datatype State = State(section: Text, prev: Text, calls: seq<Call>, wrong: bool)

  /** `strncpy0`: at most size - 1 characters. */
  function Cut(t: Text, size: nat): Text
    requires size > 0
  {
    if |t| < size then t else t[..size - 1]
  }

  function Unquote(v: Text): Text {
    if |v| > 0 && v[0] == QUOTE && v[|v| - 1] == QUOTE then (if |v| == 1 then [] else v[1..|v| - 1]) else v
  }

  /** The value behind a separator: without white space around it, comment and quotes. */
  function ValueOf(t: Text): Text {
    var v := LSkip(t);
    Unquote(RStrip(v[..Find(v, 0, false)]))
  }

  /** Where the name ends: at '=' or else at ':'. */
  function Separator(t: Text): (n: nat)
    ensures n <= |t|
  {
    var e := Find(t, EQUALS, false);
    if e < |t| && t[e] == EQUALS then e else Find(t, COLON, false)
  }

  predicate IsSeparator(t: Text, e: nat) {
    e < |t| && (t[e] == EQUALS || t[e] == COLON)
  }

  /** What a line does; `multiline` is CONFIG_INI_ALLOW_MULTILINE, `accepts` what the handler answers. */
  function Handle(line: Text, s: State, multiline: bool, accepts: Call -> bool): State {
    var start := LSkip(RStrip(line));
    if start == [] || start[0] == SEMICOLON || start[0] == HASH then s.(wrong := false)
    else if multiline && s.prev != [] && IsSpace(line[0]) then Report(s, Call(s.section, s.prev, start), accepts)
    else if start[0] == OPEN then HandleSection(start[1..], s)
    else HandlePair(start, s, accepts)
  }

  function Report(s: State, c: Call, accepts: Call -> bool): State {
    s.(calls := s.calls + [c], wrong := !accepts(c))
  }

  function HandleSection(t: Text, s: State): State {
    var e := Find(t, CLOSE, false);
    if e < |t| && t[e] == CLOSE then s.(section := Cut(t[..e], MAX_SECTION), prev := [], wrong := false)
    else s.(wrong := true)
  }

  function HandlePair(t: Text, s: State, accepts: Call -> bool): State {
    PairFrom(t, Separator(t), s, accepts)
  }

  function PairFrom(t: Text, e: nat, s: State, accepts: Call -> bool): State {
    if IsSeparator(t, e) then
      var name := RStrip(t[..e]);
      Report(s.(prev := Cut(name, MAX_NAME)), Call(s.section, name, ValueOf(t[e + 1..])), accepts)
    else s.(wrong := true)
  }

  // ---------------------------------------------------------------- the whole text

  /** The calls made and the number of the first wrong line, or a line that leaves its buffer without a terminator. */
  datatype Outcome = Parsed(calls: seq<Call>, error: nat) | Overlong(calls: seq<Call>)

  /** A line, newline included, that fills the buffer and has no zero in the part that fits. */
  predicate IsOverlong(t: Text) {
    |t| >= MAX_LINE && 0 !in t[..MAX_LINE]
  }

  function ParseLines(ts: seq<Text>, s: State, lineno: nat, error: nat, multiline: bool, accepts: Call -> bool): Outcome
    decreases |ts|
  {
    if ts == [] then Parsed(s.calls, error)
    else if IsOverlong(ts[0]) then Overlong(s.calls)
    else
      var s' := Handle(CString(ts[0]), s, multiline, accepts);
      ParseLines(ts[1..], s', lineno + 1, if error == 0 && s'.wrong then lineno + 1 else error, multiline, accepts)
  }

  function Parse(mem: Text, multiline: bool, accepts: Call -> bool): Outcome {
    ParseLines(Pieces(mem), State([], [], [], false), 0, 0, multiline, accepts)
  }

  // ---------------------------------------------------------------- rendering

  /** What a line of a well-formed text means; padding and comments are free. */
  datatype Item =
    | Section(name: Text)
    | Pair(name: Text, left: Text, separator: Byte, right: Text, value: Text, quoted: bool)
    | Remark(pad: Text, mark: Byte, text: Text)
    | Blank(pad: Text)

  function Line(item: Item): Text {
    match item
    case Section(name) => [OPEN] + name + [CLOSE]
    case Pair(name, left, separator, right, value, quoted) =>
      name + left + ([separator] + (right + Shown(value, quoted)))
    case Remark(pad, mark, text) => pad + ([mark] + text)
    case Blank(pad) => pad
  }

  /** Text that is on one line and ends nowhere early. */
  ghost predicate OneLine(t: Text) {
    0 !in t && NEWLINE !in t
  }

  ghost predicate Trimmed(t: Text) {
    t == [] || (!IsSpace(t[0]) && !IsSpace(t[|t| - 1]))
  }

  ghost predicate CleanPair(name: Text, separator: Byte, value: Text, quoted: bool) {
    && name != [] && Trimmed(name) && NoComment(name, false) && NoComment(value, false)
    && name[0] != OPEN && name[0] != SEMICOLON && name[0] != HASH && separator !in name
    && (separator == EQUALS || (separator == COLON && EQUALS !in name && EQUALS !in value))
    && (!quoted ==> Trimmed(value) && !(value != [] && value[0] == QUOTE && value[|value| - 1] == QUOTE))
  }

  ghost predicate Clean(item: Item) {
    && OneLine(Line(item)) && |Line(item)| + 1 < MAX_LINE
    && match item
       case Section(name) => CLOSE !in name && NoComment(name, false) && |name| < MAX_SECTION
       case Pair(name, left, separator, right, value, quoted) =>
         AllSpace(left) && AllSpace(right) && CleanPair(name, separator, value, quoted)
       case Remark(pad, mark, text) => AllSpace(pad) && (mark == SEMICOLON || mark == HASH)
       case Blank(pad) => AllSpace(pad)
  }

  /** The lines, each with its newline. */
  function Render(items: seq<Item>): Text {
    if items == [] then [] else Line(items[0]) + [NEWLINE] + Render(items[1..])
  }

  /** What the text says: one call for each pair, under the section it stands in. */
  function Meaning(items: seq<Item>, section: Text): seq<Call> {
    if items == [] then []
    else
      match items[0]
      case Section(name) => Meaning(items[1..], name)
      case Pair(name, _, _, _, value, _) => [Call(section, name, value)] + Meaning(items[1..], section)
      case Remark(_, _, _) => Meaning(items[1..], section)
      case Blank(_) => Meaning(items[1..], section)
  }

  // ---------------------------------------------------------------- a rendered line is handled as it is meant

  /** The state behind a well-formed line. */
  function After(item: Item, s: State, accepts: Call -> bool): State {
    match item
    case Section(name) => s.(section := name, prev := [], wrong := false)
    case Pair(name, _, _, _, value, _) =>
      Report(s.(prev := Cut(name, MAX_NAME)), Call(s.section, name, value), accepts)
    case Remark(_, _, _) => s.(wrong := false)
    case Blank(_) => s.(wrong := false)
  }

  lemma {:induction false} TrimmedStays(t: Text)
    requires Trimmed(t)
    ensures RStrip(t) == t && LSkip(t) == t
  {
  }

  lemma LineStripped(t: Text)
    ensures RStrip(t + [NEWLINE]) == RStrip(t)
  {
    RStripSpace(t, [NEWLINE]);
  }

  lemma {:induction false} AllSpaceStripped(pad: Text)
    requires AllSpace(pad)
    ensures RStrip(pad) == []
  {
    RStripSpace([], pad);
    assert [] + pad == pad;
  }

  lemma BlankHandled(pad: Text, s: State, multiline: bool, accepts: Call -> bool)
    requires AllSpace(pad)
    ensures Handle(pad + [NEWLINE], s, multiline, accepts) == s.(wrong := false)
  {
    LineStripped(pad);
    AllSpaceStripped(pad);
  }

  lemma {:induction false} StripKeepsStart(x: Text, c: Byte, y: Text)
    requires !IsSpace(c)
    ensures exists z :: RStrip(x + ([c] + y)) == x + ([c] + z)
  {
    var t := x + ([c] + y);
    if y == [] || !IsSpace(y[|y| - 1]) {
      assert y != [] ==> t[|t| - 1] == y[|y| - 1];
      assert RStrip(t) == x + ([c] + y);
    } else {
      assert t[..|t| - 1] == x + ([c] + y[..|y| - 1]);
      StripKeepsStart(x, c, y[..|y| - 1]);
    }
  }

  lemma RemarkHandled(pad: Text, mark: Byte, text: Text, s: State, multiline: bool, accepts: Call -> bool)
    requires AllSpace(pad) && (mark == SEMICOLON || mark == HASH)
    ensures Handle(pad + ([mark] + text) + [NEWLINE], s, multiline, accepts) == s.(wrong := false)
  {
    LineStripped(pad + ([mark] + text));
    StripKeepsStart(pad, mark, text);
    var z :| RStrip(pad + ([mark] + text)) == pad + ([mark] + z);
    LSkipSpace(pad, [mark] + z);
  }

  /** A line that begins with something else than white space or a comment is a section or a pair. */
  lemma HandleIs(line: Text, start: Text, s: State, multiline: bool, accepts: Call -> bool)
    requires start != [] && RStrip(line) == start && !IsSpace(start[0]) && start[0] != SEMICOLON && start[0] != HASH
    requires line != [] && line[0] == start[0]
    ensures Handle(line, s, multiline, accepts)
         == if start[0] == OPEN then HandleSection(start[1..], s) else HandlePair(start, s, accepts)
  {
  }

  lemma SectionFound(name: Text, s: State)
    requires CLOSE !in name && NoComment(name, false) && |name| < MAX_SECTION
    ensures HandleSection(name + [CLOSE], s) == s.(section := name, prev := [], wrong := false)
  {
    assert name + [CLOSE] == name + ([CLOSE] + []);
    FindIn(name, CLOSE, [], false);
    assert (name + [CLOSE])[..|name|] == name;
  }

  lemma SectionLine(line: Text, start: Text, name: Text, s: State, multiline: bool, accepts: Call -> bool)
    requires CLOSE !in name && NoComment(name, false) && |name| < MAX_SECTION
    requires line != [] && start != [] && line[0] == start[0] == OPEN && RStrip(line) == start && start[1..] == name + [CLOSE]
    ensures Handle(line, s, multiline, accepts) == s.(section := name, prev := [], wrong := false)
  {
    SectionFound(name, s);
    HandleIs(line, start, s, multiline, accepts);
  }

  lemma SectionStripped(name: Text)
    ensures var t := [OPEN] + name + [CLOSE]; RStrip(t + [NEWLINE]) == t && t[1..] == name + [CLOSE]
  {
    LineStripped([OPEN] + name + [CLOSE]);
    TrimmedStays([OPEN] + name + [CLOSE]);
  }

  lemma SectionHandled(name: Text, s: State, multiline: bool, accepts: Call -> bool)
    requires CLOSE !in name && NoComment(name, false) && |name| < MAX_SECTION
    ensures Handle([OPEN] + name + [CLOSE] + [NEWLINE], s, multiline, accepts)
         == s.(section := name, prev := [], wrong := false)
  {
    SectionStripped(name);
    SectionLine([OPEN] + name + [CLOSE] + [NEWLINE], [OPEN] + name + [CLOSE], name, s, multiline, accepts);
  }

  /** A pair as shown: its name with the padding before the separator, and the value as shown. */
  lemma SeparatorFound(x: Text, separator: Byte, y: Text)
    requires separator !in x && NoComment(x, false)
    requires separator == EQUALS || (separator == COLON && EQUALS !in x && EQUALS !in y)
    ensures Separator(x + ([separator] + y)) == |x|
  {
    var t := x + ([separator] + y);
    FindIn(x, separator, y, false);
    if separator == COLON {
      assert EQUALS !in t;
      FindMiss(t, EQUALS, false);
    }
  }

  lemma ValueFound(right: Text, v: Text)
    requires AllSpace(right) && Trimmed(v) && NoComment(v, false) && 0 !in v
    ensures ValueOf(right + v) == Unquote(v)
  {
    LSkipSpace(right, v);
    TrimmedStays(v);
    FindMiss(v, 0, false);
    assert v[..|v|] == v;
  }

  lemma NameFound(name: Text, left: Text)
    requires Trimmed(name) && AllSpace(left) && NoComment(name, false)
    ensures RStrip(name + left) == name && NoComment(name + left, false)
  {
    RStripSpace(name, left);
    TrimmedStays(name);
    NoCommentConcat(name, left, false);
  }

  lemma PairAt(x: Text, separator: Byte, y: Text, s: State, accepts: Call -> bool)
    requires separator == EQUALS || separator == COLON
    ensures PairFrom(x + ([separator] + y), |x|, s, accepts)
         == Report(s.(prev := Cut(RStrip(x), MAX_NAME)), Call(s.section, RStrip(x), ValueOf(y)), accepts)
  {
    SplitAt(x, separator, y);
    PairIs(x + ([separator] + y), x, y, s, accepts);
  }

  lemma SplitAt(x: Text, c: Byte, y: Text)
    ensures var t := x + ([c] + y); t[..|x|] == x && t[|x|] == c && t[|x| + 1..] == y
  {
  }

  lemma PairIs(t: Text, x: Text, y: Text, s: State, accepts: Call -> bool)
    requires |x| < |t| && t[..|x|] == x && t[|x| + 1..] == y && IsSeparator(t, |x|)
    ensures PairFrom(t, |x|, s, accepts)
         == Report(s.(prev := Cut(RStrip(x), MAX_NAME)), Call(s.section, RStrip(x), ValueOf(y)), accepts)
  {
  }

  /** A pair is found with its name and with the value behind the padding. */
  lemma PairFound(name: Text, left: Text, separator: Byte, right: Text, v: Text, s: State, accepts: Call -> bool)
    requires name != [] && Trimmed(name) && NoComment(name, false) && AllSpace(left) && AllSpace(right)
    requires Trimmed(v) && NoComment(v, false) && 0 !in v && separator !in name
    requires separator == EQUALS || (separator == COLON && EQUALS !in name && EQUALS !in v)
    ensures HandlePair(name + left + ([separator] + (right + v)), s, accepts)
         == Report(s.(prev := Cut(name, MAX_NAME)), Call(s.section, name, Unquote(v)), accepts)
  {
    NameFound(name, left);
    SeparatorFound(name + left, separator, right + v);
    ValueFound(right, v);
    PairAt(name + left, separator, right + v, s, accepts);
  }

  /** The value as shown on the line. */
  function Shown(value: Text, quoted: bool): Text {
    if quoted then [QUOTE] + value + [QUOTE] else value
  }

  lemma ShownValue(value: Text, quoted: bool)
    requires NoComment(value, false)
    requires !quoted ==> Trimmed(value) && !(value != [] && value[0] == QUOTE && value[|value| - 1] == QUOTE)
    ensures Trimmed(Shown(value, quoted)) && NoComment(Shown(value, quoted), false) && Unquote(Shown(value, quoted)) == value
  {
    if quoted {
      var v := [QUOTE] + value + [QUOTE];
      NoCommentConcat(value, [QUOTE], false);
      assert v[1..] == value + [QUOTE];
      assert v[1..|v| - 1] == value;
    }
  }

  /** The end of the line is stripped, and with it the padding if there is no value. */
  lemma PairStripped(head: Text, c: Byte, right: Text, v: Text)
    requires !IsSpace(c) && AllSpace(right) && Trimmed(v)
    ensures var right' := if v == [] then [] else right;
            RStrip(head + ([c] + (right + v))) == head + ([c] + (right' + v))
  {
    var t := head + ([c] + (right + v));
    if v == [] {
      assert t == head + [c] + right && head + ([c] + ([] + v)) == head + [c];
      RStripSpace(head + [c], right);
    } else {
      assert t[|t| - 1] == v[|v| - 1];
    }
  }

  lemma PairHandled(name: Text, left: Text, separator: Byte, right: Text, value: Text, quoted: bool,
                    s: State, multiline: bool, accepts: Call -> bool)
    requires AllSpace(left) && AllSpace(right) && CleanPair(name, separator, value, quoted) && 0 !in value
    ensures Handle(name + left + ([separator] + (right + Shown(value, quoted))) + [NEWLINE], s, multiline, accepts)
         == Report(s.(prev := Cut(name, MAX_NAME)), Call(s.section, name, value), accepts)
  {
    var v := Shown(value, quoted);
    var right' := if v == [] then [] else right;
    var line := name + left + ([separator] + (right + v));
    var start := name + left + ([separator] + (right' + v));
    ShownValue(value, quoted);
    LineStripped(line);
    PairStripped(name + left, separator, right, v);
    HandleIs(line + [NEWLINE], start, s, multiline, accepts);
    PairFound(name, left, separator, right', v, s, accepts);
  }

  /** A clean line is handled as it is meant. */
  lemma LineHandled(item: Item, s: State, multiline: bool, accepts: Call -> bool)
    requires Clean(item)
    ensures Handle(Line(item) + [NEWLINE], s, multiline, accepts) == After(item, s, accepts)
  {
    match item
    case Section(name) => SectionHandled(name, s, multiline, accepts);
    case Pair(name, left, separator, right, value, quoted) =>
      assert forall i :: 0 <= i < |value| ==> value[i] in Shown(value, quoted);
      assert forall c :: c in Shown(value, quoted) ==> c in Line(item);
      PairHandled(name, left, separator, right, value, quoted, s, multiline, accepts);
    case Remark(pad, mark, text) => RemarkHandled(pad, mark, text, s, multiline, accepts);
    case Blank(pad) => BlankHandled(pad, s, multiline, accepts);
  }

  // ---------------------------------------------------------------- a rendered text is parsed as it is meant

  lemma {:induction false} CStringIs(t: Text)
    requires 0 !in t
    ensures CString(t) == t
  {
    if t != [] {
      CStringIs(t[1..]);
    }
  }

  lemma PieceIs(line: Text, rest: Text)
    requires NEWLINE !in line
    ensures Pieces(line + [NEWLINE] + rest) == [line + [NEWLINE]] + Pieces(rest)
  {
    var mem := line + [NEWLINE] + rest;
    var n := IndexOfNewline(mem);
    assert mem[|line|] == NEWLINE;
    assert mem[..|line|] == line;
    assert mem[..|line| + 1] == line + [NEWLINE] && mem[|line| + 1..] == rest;
  }

  ghost predicate AllClean(items: seq<Item>) {
    forall k :: 0 <= k < |items| ==> Clean(items[k])
  }

  ghost predicate AllAccepted(calls: seq<Call>, accepts: Call -> bool) {
    forall k :: 0 <= k < |calls| ==> accepts(calls[k])
  }

  /** One clean line of a text. */
  lemma FirstLine(item: Item, rest: Text, s: State, lineno: nat, multiline: bool, accepts: Call -> bool)
    requires Clean(item) && !After(item, s, accepts).wrong
    ensures ParseLines(Pieces(Line(item) + [NEWLINE] + rest), s, lineno, 0, multiline, accepts)
         == ParseLines(Pieces(rest), After(item, s, accepts), lineno + 1, 0, multiline, accepts)
  {
    var line := Line(item) + [NEWLINE];
    PieceIs(Line(item), rest);
    assert ([line] + Pieces(rest))[1..] == Pieces(rest);
    CStringIs(line);
    LineHandled(item, s, multiline, accepts);
  }

  lemma {:induction false} TextIsParsed(items: seq<Item>, s: State, lineno: nat, multiline: bool, accepts: Call -> bool)
    requires AllClean(items) && AllAccepted(Meaning(items, s.section), accepts)
    ensures ParseLines(Pieces(Render(items)), s, lineno, 0, multiline, accepts)
         == Parsed(s.calls + Meaning(items, s.section), 0)
  {
    if items == [] {
      assert s.calls + [] == s.calls;
    } else {
      var item, rest := items[0], items[1..];
      var s' := After(item, s, accepts);
      MeaningStep(items, s, accepts);
      FirstLine(item, Render(rest), s, lineno, multiline, accepts);
      TextIsParsed(rest, s', lineno + 1, multiline, accepts);
    }
  }

  lemma MeaningStep(items: seq<Item>, s: State, accepts: Call -> bool)
    requires items != [] && AllAccepted(Meaning(items, s.section), accepts)
    ensures var s' := After(items[0], s, accepts);
            && !s'.wrong && AllAccepted(Meaning(items[1..], s'.section), accepts)
            && s'.calls + Meaning(items[1..], s'.section) == s.calls + Meaning(items, s.section)
  {
    if items[0].Pair? {
      var c, more := Call(s.section, items[0].name, items[0].value), Meaning(items[1..], s.section);
      assert Meaning(items, s.section) == [c] + more;
      FirstCall(s.calls, c, more, accepts);
    }
  }

  lemma FirstCall(calls: seq<Call>, c: Call, more: seq<Call>, accepts: Call -> bool)
    requires AllAccepted([c] + more, accepts)
    ensures accepts(c) && AllAccepted(more, accepts) && calls + [c] + more == calls + ([c] + more)
  {
    assert ([c] + more)[0] == c;
    assert forall k :: 0 <= k < |more| ==> more[k] == ([c] + more)[k + 1];
  }

  /** Text rendered from clean lines: the handler is called once for each pair, in order, and there is no error. */
  lemma RenderedIsParsed(items: seq<Item>, multiline: bool, accepts: Call -> bool)
    requires AllClean(items) && AllAccepted(Meaning(items, []), accepts)
    ensures Parse(Render(items), multiline, accepts) == Parsed(Meaning(items, []), 0)
  {
    TextIsParsed(items, State([], [], [], false), 0, multiline, accepts);
    assert [] + Meaning(items, []) == Meaning(items, []);
  }

  // ---------------------------------------------------------------- blank lines and comments in any text

  /** A line that is blank or a comment. */
  predicate IsNoise(piece: Text) {
    var start := LSkip(RStrip(CString(piece)));
    !IsOverlong(piece) && (start == [] || start[0] == SEMICOLON || start[0] == HASH)
  }

  /** A line number when a line is put in behind line `at`. */
  function Renumbered(n: nat, at: nat): nat {
    if n > at then n + 1 else n
  }

  function Shifted(o: Outcome, at: nat): Outcome {
    if o.Parsed? then o.(error := Renumbered(o.error, at)) else o
  }

  lemma HandleForgets(line: Text, s: State, wrong: bool, multiline: bool, accepts: Call -> bool)
    ensures Handle(line, s.(wrong := wrong), multiline, accepts) == Handle(line, s, multiline, accepts)
  {
  }

  /** Lines counted from one more, behind the place where a line was put in. */
  lemma {:induction false} CountedOn(ts: seq<Text>, s: State, wrong: bool, lineno: nat, error: nat, at: nat, multiline: bool,
                                     accepts: Call -> bool)
    requires at <= lineno
    ensures ParseLines(ts, s.(wrong := wrong), lineno + 1, Renumbered(error, at), multiline, accepts)
         == Shifted(ParseLines(ts, s, lineno, error, multiline, accepts), at)
    decreases |ts|
  {
    if ts != [] && !IsOverlong(ts[0]) {
      var s' := Handle(CString(ts[0]), s, multiline, accepts);
      HandleForgets(CString(ts[0]), s, wrong, multiline, accepts);
      var error' := if error == 0 && s'.wrong then lineno + 1 else error;
      CountedOn(ts[1..], s', s'.wrong, lineno + 1, error', at, multiline, accepts);
    }
  }

  /**
   A blank line or a comment put in anywhere in any text: the handler is called as before, and only the number of a
   wrong line behind it goes up by one.
   */
  lemma {:induction false} NoiseInLines(xs: seq<Text>, noise: Text, ys: seq<Text>, s: State, lineno: nat, error: nat,
                                        multiline: bool, accepts: Call -> bool)
    requires IsNoise(noise) && error <= lineno
    ensures ParseLines(xs + ([noise] + ys), s, lineno, error, multiline, accepts)
         == Shifted(ParseLines(xs + ys, s, lineno, error, multiline, accepts), lineno + |xs|)
    decreases |xs|
  {
    if xs == [] {
      var ts := [noise] + ys;
      assert xs + ts == ts && ts[1..] == ys && xs + ys == ys;
      CountedOn(ys, s, false, lineno, error, lineno, multiline, accepts);
    } else {
      assert (xs + ([noise] + ys))[1..] == xs[1..] + ([noise] + ys) && (xs + ys)[1..] == xs[1..] + ys;
      if !IsOverlong(xs[0]) {
        var s' := Handle(CString(xs[0]), s, multiline, accepts);
        var error' := if error == 0 && s'.wrong then lineno + 1 else error;
        NoiseInLines(xs[1..], noise, ys, s', lineno + 1, error', multiline, accepts);
      }
    }
  }

  /** Text that ends with its last line. */
  ghost predicate EndsLine(t: Text) {
    t == [] || t[|t| - 1] == NEWLINE
  }

  lemma FirstOfLines(x: Text) returns (line: Text, rest: Text)
    requires x != [] && EndsLine(x)
    ensures x == line + [NEWLINE] + rest && NEWLINE !in line && EndsLine(rest)
  {
    var i := IndexOfNewline(x);
    assert x[|x| - 1] in x;
    line, rest := x[..i], x[i + 1..];
  }

  lemma {:induction false} PiecesConcat(x: Text, y: Text)
    requires EndsLine(x)
    ensures Pieces(x + y) == Pieces(x) + Pieces(y)
    decreases |x|
  {
    if x == [] {
      assert x + y == y;
    } else {
      var line, rest := FirstOfLines(x);
      PieceIs(line, rest);
      PieceIs(line, rest + y);
      PiecesConcat(rest, y);
      Regroup(line + [NEWLINE], rest, y);
      Regroup([line + [NEWLINE]], Pieces(rest), Pieces(y));
    }
  }

  lemma Regroup<T>(a: seq<T>, b: seq<T>, c: seq<T>)
    ensures a + b + c == a + (b + c)
  {
  }

  lemma LineBetween(x: Text, line: Text, y: Text)
    requires EndsLine(x) && IsLine(line, false)
    ensures Pieces(x + (line + y)) == Pieces(x) + ([line] + Pieces(y))
  {
    var t := line[..|line| - 1];
    assert line == t + [NEWLINE];
    PieceIs(t, y);
    PiecesConcat(x, line + y);
  }

  /** The same in memory: a blank or comment line between any two lines of any text. */
  lemma NoiseChangesNothing(x: Text, noise: Text, y: Text, multiline: bool, accepts: Call -> bool)
    requires EndsLine(x) && IsLine(noise, false) && IsNoise(noise)
    ensures Parse(x + (noise + y), multiline, accepts) == Shifted(Parse(x + y, multiline, accepts), |Pieces(x)|)
  {
    LineBetween(x, noise, y);
    PiecesConcat(x, y);
    NoiseInPieces(Pieces(x + (noise + y)), Pieces(x + y), Pieces(x), noise, Pieces(y), multiline, accepts);
  }

  lemma NoiseInPieces(all: seq<Text>, both: seq<Text>, xs: seq<Text>, noise: Text, ys: seq<Text>, multiline: bool,
                      accepts: Call -> bool)
    requires IsNoise(noise) && all == xs + ([noise] + ys) && both == xs + ys
    ensures var s := State([], [], [], false);
            ParseLines(all, s, 0, 0, multiline, accepts) == Shifted(ParseLines(both, s, 0, 0, multiline, accepts), |xs|)
  {
    NoiseInLines(xs, noise, ys, State([], [], [], false), 0, 0, multiline, accepts);
  }

  // ---------------------------------------------------------------- the line buffer

  /** What `memgets` leaves in the line buffer: the piece cut to its size, and a terminator if there is room for one. */
  function Buffered(piece: Text, was: Text): (r: Text)
    requires |was| == MAX_LINE
    ensures |r| == MAX_LINE
  {
    if |piece| >= MAX_LINE then piece[..MAX_LINE] else piece + [0] + was[|piece| + 1..]
  }

  lemma {:induction false} CStringStops(x: Text, y: Text)
    ensures CString(x + [0] + y) == CString(x)
  {
    if x == [] {
      assert (x + [0] + y)[0] == 0;
    } else {
      assert (x + [0] + y)[1..] == x[1..] + [0] + y;
      CStringStops(x[1..], y);
    }
  }

  lemma {:induction false} CStringCut(t: Text, n: nat)
    requires n <= |t| && 0 in t[..n]
    ensures CString(t[..n]) == CString(t)
  {
    if t[0] != 0 {
      assert t[..n][1..] == t[1..][..n - 1];
      CStringCut(t[1..], n - 1);
    }
  }

  /**
   Whatever was in the buffer before, it holds a terminator afterwards exactly if the piece is not overlong, and then
   reads as the piece does.
   */
  lemma BufferTerminated(piece: Text, was: Text)
    requires |was| == MAX_LINE
    ensures 0 in Buffered(piece, was) <==> !IsOverlong(piece)
    ensures !IsOverlong(piece) ==> CString(Buffered(piece, was)) == CString(piece)
  {
    if |piece| < MAX_LINE {
      assert Buffered(piece, was)[|piece|] == 0;
      CStringStops(piece, was[|piece| + 1..]);
    } else if !IsOverlong(piece) {
      CStringCut(piece, MAX_LINE);
    }
  }

  /** 199 characters and a newline leave no room for the terminator; 198 do. */
  lemma OverlongWitness(was: Text, multiline: bool, accepts: Call -> bool)
    requires |was| == MAX_LINE
    ensures var line := seq(MAX_LINE - 1, _ => 0x61);
            && 0 !in Buffered(line + [NEWLINE], was) && 0 in Buffered(line[1..] + [NEWLINE], was)
            && Parse(line + [NEWLINE], multiline, accepts) == Overlong([])
  {
    var line: Text := seq(MAX_LINE - 1, _ => 0x61);
    BufferTerminated(line + [NEWLINE], was);
    BufferTerminated(line[1..] + [NEWLINE], was);
    PieceIs(line, []);
    assert line + [NEWLINE] + [] == line + [NEWLINE];
  }

  // ---------------------------------------------------------------- the loops

  method RStripped(t: Text) returns (r: Text)
    ensures r == RStrip(t)
  {
    r := t;
    while r != [] && IsSpace(r[|r| - 1])
      invariant RStrip(t) == RStrip(r)
    {
      r := r[..|r| - 1];
    }
  }

  method LSkipped(t: Text) returns (r: Text)
    ensures r == LSkip(t)
  {
    r := t;
    while r != [] && IsSpace(r[0])
      invariant LSkip(t) == LSkip(r)
    {
      r := r[1..];
    }
  }

  /** `find_char_or_comment`. */
  method FindCharOrComment(t: Text, c: Byte) returns (n: nat)
    ensures n == Find(t, c, false)
  {
    n := 0;
    var wasWhitespace := false;
    while n < |t| && t[n] != c && !(wasWhitespace && t[n] == SEMICOLON)
      invariant n <= |t| && Find(t, c, false) == n + Find(t[n..], c, wasWhitespace)
    {
      assert t[n..][1..] == t[n + 1..];
      wasWhitespace := IsSpace(t[n]);
      n := n + 1;
    }
  }

  /** `memgets`: copies the next line into the buffer, as far as it fits, and moves on behind it. */
  method MemGets(line: array<Byte>, mem: Text) returns (rest: Text)
    requires line.Length == MAX_LINE && mem != []
    modifies line
    ensures rest == mem[LineLength(mem)..] && |rest| < |mem|
    ensures line[..] == Buffered(mem[..LineLength(mem)], old(line[..]))
  {
    var end := EndOfLine(mem);
    var newline := if end < |mem| then 1 else 0;
    var len := if end + newline < line.Length then end + newline else line.Length;
    forall i | 0 <= i < len {
      line[i] := mem[i];
    }
    if len < line.Length { line[len] := 0; }
    rest := mem[end + newline..];
  }

  /** The `memchr` for a newline. */
  method EndOfLine(mem: Text) returns (n: nat)
    ensures n == IndexOfNewline(mem)
  {
    n := 0;
    while n < |mem| && mem[n] != NEWLINE
      invariant n <= |mem| && IndexOfNewline(mem) == n + IndexOfNewline(mem[n..])
    {
      assert mem[n..][1..] == mem[n + 1..];
      n := n + 1;
    }
    assert IndexOfNewline(mem[n..]) == 0;
  }

  method SeparatorIn(t: Text) returns (e: nat)
    ensures e == Separator(t)
  {
    e := FindCharOrComment(t, EQUALS);
    if !(e < |t| && t[e] == EQUALS) {
      e := FindCharOrComment(t, COLON);
    }
  }

  method ValueIn(t: Text) returns (v: Text)
    ensures v == ValueOf(t)
  {
    var value := LSkipped(t);
    var end := FindCharOrComment(value, 0);
    value := RStripped(value[..end]);
    v := Unquote(value);
  }

  method PairOf(start: Text, s: State, accepts: Call -> bool) returns (r: State)
    ensures r == HandlePair(start, s, accepts)
  {
    var end := SeparatorIn(start);
    if end < |start| && (start[end] == EQUALS || start[end] == COLON) {
      var name := RStripped(start[..end]);
      var value := ValueIn(start[end + 1..]);
      var c := Call(s.section, name, value);
      r := s.(prev := Cut(name, MAX_NAME), calls := s.calls + [c], wrong := !accepts(c));
    } else {
      r := s.(wrong := true);
    }
  }

  method LineOf(line: Text, s: State, multiline: bool, accepts: Call -> bool) returns (r: State)
    ensures r == Handle(line, s, multiline, accepts)
  {
    var start := RStripped(line);
    start := LSkipped(start);
    if start == [] || start[0] == SEMICOLON || start[0] == HASH { return s.(wrong := false); }
    if multiline && s.prev != [] && IsSpace(line[0]) {
      var c := Call(s.section, s.prev, start);
      return s.(calls := s.calls + [c], wrong := !accepts(c));
    }
    if start[0] != OPEN {
      r := PairOf(start, s, accepts);
      return;
    }
    var end := FindCharOrComment(start[1..], CLOSE);
    var t := start[1..];
    if end < |t| && t[end] == CLOSE {
      r := s.(section := Cut(t[..end], MAX_SECTION), prev := [], wrong := false);
    } else {
      r := s.(wrong := true);
    }
  }

  /** `ini_parse`. */
  method IniParse(file: Text, multiline: bool, accepts: Call -> bool) returns (o: Outcome)
    ensures o == Parse(file, multiline, accepts)
  {
    var line := new Byte[MAX_LINE];
    var mem, s, lineno, error := file, State([], [], [], false), 0, 0;
    while mem != []
      invariant 0 <= lineno && 0 <= error
      invariant Parse(file, multiline, accepts) == ParseLines(Pieces(mem), s, lineno, error, multiline, accepts)
      decreases |mem|
    {
      ghost var piece := mem[..LineLength(mem)];
      BufferTerminated(piece, line[..]);
      var rest := MemGets(line, mem);
      assert ([piece] + Pieces(rest))[1..] == Pieces(rest);
      if 0 !in line[..] { return Overlong(s.calls); }   // the string functions run on behind the buffer
      lineno := lineno + 1;
      s := LineOf(CString(line[..]), s, multiline, accepts);
      if s.wrong && error == 0 { error := lineno; }
      mem := rest;
    }
    o := Parsed(s.calls, error);
  }
}
