/**
 INI text line by line, right and wrong: what every kind of line does, with indentation, trailing comments, continuation
 lines, names that are too long, lines that cannot be understood and calls that the handler refuses.
 */
module IniRows {
  import opened Basics
  import opened Ini

  // ---------------------------------------------------------------- the kinds of lines

  /** A comment behind the content of a line: white space, a semicolon and text. */
  datatype Note = NoNote | Note(pad: Text, text: Text)

  datatype Content =
    | Header(name: Text, tail: Text)
    | Unclosed(text: Text, note: Note)
    | Setting(name: Text, left: Text, separator: Byte, right: Text, value: Text, quoted: bool, note: Note)
    | Bare(text: Text, note: Note)
    | Comment(mark: Byte, text: Text)
    | Empty

  /** A line with white space around its content. */
  datatype Row = Row(indent: Text, content: Content, trail: Text)

  function NoteText(n: Note): Text {
    if n.NoNote? then [] else n.pad + ([SEMICOLON] + n.text)
  }

  function ContentText(c: Content): Text {
    match c
    case Header(name, tail) => [OPEN] + (name + ([CLOSE] + tail))
    case Unclosed(text, note) => [OPEN] + (text + NoteText(note))
    case Setting(name, left, separator, right, value, quoted, note) =>
      name + left + ([separator] + (right + (Ini.Shown(value, quoted) + NoteText(note))))
    case Bare(text, note) => text + NoteText(note)
    case Comment(mark, text) => [mark] + text
    case Empty => []
  }

  function RowText(r: Row): Text { r.indent + (ContentText(r.content) + r.trail) }

  ghost predicate RightNote(n: Note) {
    n.Note? ==> n.pad != [] && AllSpace(n.pad)
  }

  ghost predicate RightContent(c: Content) {
    match c
    case Header(name, tail) => CLOSE !in name && NoComment(name, false)
    case Unclosed(text, note) => RightNote(note) && CLOSE !in text && NoComment(text, false)
    case Setting(name, left, separator, right, value, quoted, note) =>
      && AllSpace(left) && AllSpace(right) && RightNote(note) && Ini.CleanPair(name, separator, value, quoted)
      && (note.Note? ==> Ini.Shown(value, quoted) != [])
    case Bare(text, note) =>
      && RightNote(note) && text != [] && NoComment(text, false) && EQUALS !in text && COLON !in text
      && text[0] != OPEN && text[0] != SEMICOLON && text[0] != HASH
    case Comment(mark, text) => mark == SEMICOLON || mark == HASH
    case Empty => true
  }

  /** The content begins and ends with something visible, and the line fits the buffer. */
  ghost predicate RightRow(r: Row) {
    && AllSpace(r.indent) && AllSpace(r.trail) && OneLine(RowText(r)) && |RowText(r)| + 1 < 200
    && Trimmed(ContentText(r.content)) && RightContent(r.content)
  }

  // ---------------------------------------------------------------- what they mean

  /** At most 49 characters. */
  function Short(t: Text): Text { if |t| <= 49 then t else t[..49] }

  function Called(s: State, name: Text, value: Text, accepts: Call -> bool): State {
    State(s.section, s.prev, s.calls + [Call(s.section, name, value)], !accepts(Call(s.section, name, value)))
  }

  /** The state behind a line: section, name for continuations, calls, and whether the line was wrong. */
  function Effect(r: Row, s: State, multiline: bool, accepts: Call -> bool): State {
    var right := State(s.section, s.prev, s.calls, false);
    var wrong := State(s.section, s.prev, s.calls, true);
    if r.content.Comment? || r.content.Empty? then right
    else if multiline && s.prev != [] && r.indent != [] then Called(s, s.prev, ContentText(r.content), accepts)
    else
      match r.content
      case Header(name, _) => State(Short(name), [], s.calls, false)
      case Setting(name, _, _, _, value, _, _) => Called(s, name, value, accepts).(prev := Short(name))
      case _ => wrong
  }

  // ---------------------------------------------------------------- finding places

  /** A comment ends the search. */
  lemma {:induction false} FindStops(x: Text, y: Text, c: Byte, space: bool)
    requires c !in x && NoComment(x, space) && (if x == [] then space else IsSpace(x[|x| - 1]))
    ensures Find(x + ([SEMICOLON] + y), c, space) == |x|
  {
    if x != [] {
      assert (x + ([SEMICOLON] + y))[1..] == x[1..] + ([SEMICOLON] + y);
      FindStops(x[1..], y, c, IsSpace(x[0]));
    }
  }

  lemma NoCommentPadded(x: Text, pad: Text)
    requires NoComment(x, false) && AllSpace(pad)
    ensures NoComment(x + pad, false)
  {
    assert SEMICOLON !in pad;
    NoCommentConcat(x, pad, false);
  }

  /** A character that is not in the text before the comment is not found. */
  lemma NotFound(x: Text, note: Note, c: Byte)
    requires c !in x && NoComment(x, false) && RightNote(note) && !IsSpace(c) && c != SEMICOLON
    ensures var t := x + NoteText(note); var e := Find(t, c, false); e == |t| || t[e] == SEMICOLON
  {
    if note.NoNote? {
      assert x + [] == x;
      FindMiss(x, c, false);
    } else {
      var y := x + note.pad;
      NoCommentPadded(x, note.pad);
      assert x + NoteText(note) == y + ([SEMICOLON] + note.text);
      FindStops(y, note.text, c, false);
    }
  }

  // ---------------------------------------------------------------- the content of a line

  lemma HeaderHandled(name: Text, tail: Text, s: State)
    requires CLOSE !in name && NoComment(name, false)
    ensures HandleSection(name + ([CLOSE] + tail), s) == State(Short(name), [], s.calls, false)
  {
    FindIn(name, CLOSE, tail, false);
    assert (name + ([CLOSE] + tail))[..|name|] == name;
  }

  lemma UnclosedHandled(text: Text, note: Note, s: State)
    requires CLOSE !in text && NoComment(text, false) && RightNote(note)
    ensures HandleSection(text + NoteText(note), s) == State(s.section, s.prev, s.calls, true)
  {
    NotFound(text, note, CLOSE);
  }

  lemma BareHandled(text: Text, note: Note, s: State, accepts: Call -> bool)
    requires EQUALS !in text && COLON !in text && NoComment(text, false) && RightNote(note)
    ensures HandlePair(text + NoteText(note), s, accepts) == State(s.section, s.prev, s.calls, true)
  {
    NotFound(text, note, EQUALS);
    NotFound(text, note, COLON);
  }

  /** The separator is found in front of anything: an equals sign, or a colon with no equals sign before the comment. */
  lemma SeparatorIs(x: Text, separator: Byte, y: Text, note: Note)
    requires separator !in x && NoComment(x, false) && RightNote(note)
    requires separator == EQUALS || (separator == COLON && EQUALS !in x && EQUALS !in y)
    ensures Separator(x + ([separator] + (y + NoteText(note)))) == |x|
  {
    FindIn(x, separator, y + NoteText(note), false);
    if separator == COLON {
      EqualsIsHidden(x, y, note);
    }
  }

  lemma EqualsIsHidden(x: Text, y: Text, note: Note)
    requires EQUALS !in x && EQUALS !in y && RightNote(note)
    ensures var t := x + ([COLON] + (y + NoteText(note))); var e := Find(t, EQUALS, false); e == |t| || t[e] != EQUALS
  {
    var z := x + ([COLON] + y);
    var t := x + ([COLON] + (y + NoteText(note)));
    assert t == z + NoteText(note) && EQUALS !in z;
    if note.NoNote? {
      assert t == z;
      FindMiss(z, EQUALS, false);
    } else {
      assert t == (z + note.pad) + ([SEMICOLON] + note.text);
      assert EQUALS !in z + note.pad;
      FindBefore(z + note.pad, note.text, EQUALS, false);
    }
  }

  /** Where a comment begins the search has ended. */
  lemma {:induction false} FindBefore(x: Text, y: Text, c: Byte, space: bool)
    requires c !in x && c != SEMICOLON && (if x == [] then space else IsSpace(x[|x| - 1]))
    ensures var t := x + ([SEMICOLON] + y); Find(t, c, space) <= |x| && t[Find(t, c, space)] == SEMICOLON
  {
    var t := x + ([SEMICOLON] + y);
    if x != [] && !(space && x[0] == SEMICOLON) {
      assert t[1..] == x[1..] + ([SEMICOLON] + y);
      FindBefore(x[1..], y, c, IsSpace(x[0]));
    }
  }

  /** A value is read without the comment behind it. */
  lemma ValueIs(right: Text, v: Text, note: Note)
    requires AllSpace(right) && Trimmed(v) && NoComment(v, false) && 0 !in v && RightNote(note)
    requires note.Note? ==> v != []
    ensures ValueOf(right + (v + NoteText(note))) == Unquote(v)
  {
    if note.NoNote? {
      assert v + [] == v;
      ValueFound(right, v);
    } else {
      var t, u := v + NoteText(note), v + note.pad;
      assert t == u + ([SEMICOLON] + note.text);
      ValueCut(v, note.pad, note.text, t, u);
      LSkipSpace(right, t);
    }
  }

  lemma ValueCut(v: Text, pad: Text, text: Text, t: Text, u: Text)
    requires v != [] && Trimmed(v) && NoComment(v, false) && 0 !in v && pad != [] && AllSpace(pad)
    requires u == v + pad && t == u + ([SEMICOLON] + text)
    ensures LSkip(t) == t && t[..Find(t, 0, false)] == u && RStrip(u) == v
  {
    NoCommentPadded(v, pad);
    FindStops(u, text, 0, false);
    RStripSpace(v, pad);
    TrimmedStays(v);
  }

  lemma SettingSeparator(x: Text, separator: Byte, right: Text, v: Text, note: Note, y: Text)
    requires separator !in x && NoComment(x, false) && RightNote(note) && AllSpace(right)
    requires separator == EQUALS || (separator == COLON && EQUALS !in x && EQUALS !in v)
    requires y == right + (v + NoteText(note))
    ensures Separator(x + ([separator] + y)) == |x|
  {
    assert y == (right + v) + NoteText(note);
    SeparatorIs(x, separator, right + v, note);
  }

  lemma SettingFound(x: Text, separator: Byte, y: Text, s: State, accepts: Call -> bool)
    requires (separator == EQUALS || separator == COLON) && Separator(x + ([separator] + y)) == |x|
    ensures HandlePair(x + ([separator] + y), s, accepts)
         == Report(s.(prev := Cut(RStrip(x), MAX_NAME)), Call(s.section, RStrip(x), ValueOf(y)), accepts)
  {
    PairAt(x, separator, y, s, accepts);
  }

  lemma NameSide(name: Text, left: Text, separator: Byte, x: Text)
    requires x == name + left && Trimmed(name) && AllSpace(left) && NoComment(name, false)
    requires separator == EQUALS || separator == COLON
    ensures RStrip(x) == name && NoComment(x, false)
    ensures (separator in x <==> separator in name) && (EQUALS in x <==> EQUALS in name)
  {
    NameFound(name, left);
    assert EQUALS !in left && COLON !in left;
  }

  lemma ValueSide(value: Text, quoted: bool, v: Text)
    requires v == Ini.Shown(value, quoted)
    ensures (EQUALS in v <==> EQUALS in value) && (0 in v <==> 0 in value)
  {
  }

  lemma SettingHandled(c: Content, s: State, accepts: Call -> bool)
    requires c.Setting? && RightContent(c) && 0 !in c.value
    ensures HandlePair(ContentText(c), s, accepts) == Called(s, c.name, c.value, accepts).(prev := Short(c.name))
  {
    var v := Ini.Shown(c.value, c.quoted);
    var x, y := c.name + c.left, c.right + (v + NoteText(c.note));
    ShownValue(c.value, c.quoted);
    NameSide(c.name, c.left, c.separator, x);
    ValueSide(c.value, c.quoted, v);
    SettingSeparator(x, c.separator, c.right, v, c.note, y);
    ValueIs(c.right, v, c.note);
    SettingFound(x, c.separator, y, s, accepts);
  }

  // ---------------------------------------------------------------- a whole line

  /** White space around the content of a line: which part is looked at, and when the line continues a value. */
  lemma Stripped(indent: Text, body: Text, trail: Text)
    requires AllSpace(indent) && AllSpace(trail) && Trimmed(body)
    ensures LSkip(RStrip(indent + (body + trail))) == body
    ensures body != [] ==> (IsSpace((indent + (body + trail))[0]) <==> indent != [])
  {
    var t := indent + body;
    assert indent + (body + trail) == t + trail;
    RStripSpace(t, trail);
    LSkipSpace(indent, body);
    TrimmedStays(body);
    if body == [] {
      assert t == indent;
      AllSpaceStripped(indent);
    } else {
      assert t[|t| - 1] == body[|body| - 1];
      assert RStrip(t) == t;
    }
  }

  lemma BodyHandled(c: Content, s: State, accepts: Call -> bool)
    requires RightContent(c) && 0 !in ContentText(c) && !c.Comment? && !c.Empty?
    ensures var body := ContentText(c);
            && body != [] && body[0] != SEMICOLON && body[0] != HASH
            && (if body[0] == OPEN then HandleSection(body[1..], s) else HandlePair(body, s, accepts))
               == Effect(Row([], c, []), s, false, accepts)
  {
    var body := ContentText(c);
    match c
    case Header(name, tail) =>
      assert body[1..] == name + ([CLOSE] + tail);
      HeaderHandled(name, tail, s);
    case Unclosed(text, note) =>
      assert body[1..] == text + NoteText(note);
      UnclosedHandled(text, note, s);
    case Setting(name, _, _, _, value, quoted, _) =>
      assert body[0] == name[0];
      assert forall i :: 0 <= i < |value| ==> value[i] in Ini.Shown(value, quoted);
      assert forall x :: x in Ini.Shown(value, quoted) ==> x in body;
      SettingHandled(c, s, accepts);
    case Bare(text, note) =>
      assert body[0] == text[0];
      BareHandled(text, note, s, accepts);
  }

  lemma RowHandled(r: Row, s: State, multiline: bool, accepts: Call -> bool)
    requires RightRow(r)
    ensures Handle(RowText(r) + [NEWLINE], s, multiline, accepts) == Effect(r, s, multiline, accepts)
  {
    var body, trail := ContentText(r.content), r.trail + [NEWLINE];
    var line := RowText(r) + [NEWLINE];
    assert line == r.indent + (body + trail);
    Stripped(r.indent, body, trail);
    if !r.content.Comment? && !r.content.Empty? {
      NoZeroInside(r);
      BodyHandled(r.content, s, accepts);
      HandleFrom(line, body, r.indent != [], s, multiline, accepts);
    }
  }

  lemma NoZeroInside(r: Row)
    requires 0 !in RowText(r)
    ensures 0 !in ContentText(r.content)
  {
    var body := ContentText(r.content);
    assert forall i :: 0 <= i < |body| ==> body[i] == RowText(r)[|r.indent| + i];
  }

  lemma HandleFrom(line: Text, body: Text, indented: bool, s: State, multiline: bool, accepts: Call -> bool)
    requires LSkip(RStrip(line)) == body && body != [] && body[0] != SEMICOLON && body[0] != HASH
    requires line != [] && (IsSpace(line[0]) <==> indented)
    ensures Handle(line, s, multiline, accepts)
         == if multiline && s.prev != [] && indented then Called(s, s.prev, body, accepts)
            else if body[0] == OPEN then HandleSection(body[1..], s)
            else HandlePair(body, s, accepts)
  {
  }

  // ---------------------------------------------------------------- a whole text

  function TextOf(rows: seq<Row>): Text {
    if rows == [] then [] else RowText(rows[0]) + [NEWLINE] + TextOf(rows[1..])
  }

  function EffectAll(rows: seq<Row>, s: State, multiline: bool, accepts: Call -> bool): State
    decreases |rows|
  {
    if rows == [] then s else EffectAll(rows[1..], Effect(rows[0], s, multiline, accepts), multiline, accepts)
  }

  /** Line k (from 1 on) is wrong. */
  ghost predicate WrongAt(rows: seq<Row>, s: State, k: nat, multiline: bool, accepts: Call -> bool) {
    0 < k <= |rows| && EffectAll(rows[..k], s, multiline, accepts).wrong
  }

  /** The number of the first wrong line, and 0 if there is none. */
  ghost predicate FirstWrong(rows: seq<Row>, s: State, error: nat, multiline: bool, accepts: Call -> bool) {
    && (error == 0 || WrongAt(rows, s, error, multiline, accepts))
    && forall k :: 0 < k <= |rows| && (k < error || error == 0) ==> !WrongAt(rows, s, k, multiline, accepts)
  }

  lemma {:induction false} EffectOnward(rows: seq<Row>, s: State, k: nat, multiline: bool, accepts: Call -> bool)
    requires 0 < k <= |rows|
    ensures EffectAll(rows[..k], s, multiline, accepts)
         == EffectAll(rows[1..][..k - 1], Effect(rows[0], s, multiline, accepts), multiline, accepts)
  {
    assert rows[..k][1..] == rows[1..][..k - 1];
  }

  /** Lines numbered from lineno on, when an error was seen before or not. */
  ghost predicate Numbered(rows: seq<Row>, s: State, lineno: nat, before: nat, error: nat, multiline: bool,
                           accepts: Call -> bool)
  {
    if before != 0 then error == before
    else if error == 0 then FirstWrong(rows, s, 0, multiline, accepts)
    else error > lineno && FirstWrong(rows, s, error - lineno, multiline, accepts)
  }

  lemma NumberedStep(rows: seq<Row>, s: State, lineno: nat, error: nat, multiline: bool, accepts: Call -> bool)
    requires rows != []
    requires var s' := Effect(rows[0], s, multiline, accepts);
             Numbered(rows[1..], s', lineno + 1, if s'.wrong then lineno + 1 else 0, error, multiline, accepts)
    ensures Numbered(rows, s, lineno, 0, error, multiline, accepts)
  {
    var s' := Effect(rows[0], s, multiline, accepts);
    forall k | 0 < k <= |rows|
      ensures WrongAt(rows, s, k, multiline, accepts) <==>
              if k == 1 then s'.wrong else WrongAt(rows[1..], s', k - 1, multiline, accepts)
    {
      EffectOnward(rows, s, k, multiline, accepts);
      assert rows[1..][..0] == [];
    }
    if error != 0 && !s'.wrong {
      assert WrongAt(rows[1..], s', error - lineno - 1, multiline, accepts);
    }
  }

  lemma {:induction false} RowsCounted(rows: seq<Row>, s: State, lineno: nat, before: nat, multiline: bool,
                                       accepts: Call -> bool) returns (error: nat)
    requires forall k :: 0 <= k < |rows| ==> RightRow(rows[k])
    ensures ParseLines(Pieces(TextOf(rows)), s, lineno, before, multiline, accepts)
         == Parsed(EffectAll(rows, s, multiline, accepts).calls, error)
    ensures Numbered(rows, s, lineno, before, error, multiline, accepts)
    decreases |rows|
  {
    if rows == [] {
      error := before;
    } else {
      var s' := Effect(rows[0], s, multiline, accepts);
      OneRow(rows[0], TextOf(rows[1..]), s, lineno, before, multiline, accepts);
      error := RowsCounted(rows[1..], s', lineno + 1, if before == 0 && s'.wrong then lineno + 1 else before, multiline,
                           accepts);
      if before == 0 {
        NumberedStep(rows, s, lineno, error, multiline, accepts);
      }
    }
  }

  lemma OneRow(r: Row, rest: Text, s: State, lineno: nat, before: nat, multiline: bool, accepts: Call -> bool)
    requires RightRow(r)
    ensures var s' := Effect(r, s, multiline, accepts);
            ParseLines(Pieces(RowText(r) + [NEWLINE] + rest), s, lineno, before, multiline, accepts)
            == ParseLines(Pieces(rest), s', lineno + 1, if before == 0 && s'.wrong then lineno + 1 else before, multiline,
                          accepts)
  {
    var line := RowText(r) + [NEWLINE];
    PieceIs(RowText(r), rest);
    assert ([line] + Pieces(rest))[1..] == Pieces(rest);
    CStringIs(line);
    RowHandled(r, s, multiline, accepts);
  }

  /**
   Text of lines of every kind: the handler is called as the lines mean, in order, and the number returned is that of the
   first line that is wrong or whose call is refused, and 0 if there is none.
   */
  lemma RowsAreParsed(rows: seq<Row>, multiline: bool, accepts: Call -> bool)
    requires forall k :: 0 <= k < |rows| ==> RightRow(rows[k])
    ensures var s := State([], [], [], false);
            var o := Parse(TextOf(rows), multiline, accepts);
            && o.Parsed? && o.calls == EffectAll(rows, s, multiline, accepts).calls
            && FirstWrong(rows, s, o.error, multiline, accepts)
  {
    var error := RowsCounted(rows, State([], [], [], false), 0, 0, multiline, accepts);
  }

  /** A comment behind an equals sign and white space is no comment: it becomes the value. */
  lemma CommentBecomesValue(right: Text, text: Text)
    requires AllSpace(right) && NoComment(text, false) && 0 !in text && (text == [] || !IsSpace(text[|text| - 1]))
    ensures ValueOf(right + ([SEMICOLON] + text)) == [SEMICOLON] + text
  {
    var v := [SEMICOLON] + text;
    assert v[1..] == text;
    ValueFound(right, v);
  }
}
