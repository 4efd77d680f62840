/**
 The log buffer of common/cmd_log.c: level tags added to messages in place, and a ring
 with two layouts, (start, size) and (start, end), whose 32-bit counters may wrap.
 */
module LogBuffer {
  import opened Basics

  const LOGBUFF_LEN := 16384
  const BUF_SIZE := 1024
  const DEFAULT_LEVEL := 4

  /** The message starts with a level tag `<0>` .. `<7>`. */
  predicate HasTag(s: string) {
    |s| >= 3 && s[0] == '<' && '0' <= s[1] <= '7' && s[2] == '>'
  }

  /** What logging `s` appends when the current line has level `lv`, negative at the start of a line:
      every line of `s`, with the default tag put before a line that starts here without one. */
  function Tagged(lv: int, s: string): string
    decreases |s|, lv < 0
  {
    if s == [] then []
    else if lv >= 0 then [s[0]] + Tagged(if s[0] == '\n' then -1 else lv, s[1..])
    else if HasTag(s) then Tagged(TagLevel(s), s)
    else "<4>" + Tagged(DEFAULT_LEVEL, s)
  }

  function TagLevel(s: string): (lv: int)
    requires HasTag(s)
    ensures 0 <= lv <= 7
  {
    s[1] as int - '0' as int
  }

  /** The level in force after logging `s`. */
  function LevelAfter(lv: int, s: string): int
    decreases |s|, lv < 0
  {
    if s == [] then lv
    else if lv >= 0 then LevelAfter(if s[0] == '\n' then -1 else lv, s[1..])
    else if HasTag(s) then LevelAfter(TagLevel(s), s)
    else LevelAfter(DEFAULT_LEVEL, s)
  }

  /** Cutting a message into s and t cuts a level tag: one starts in the last two characters of s,
      at the start of a line, and ends in t. */
  ghost predicate CutsTag(lv: int, s: string, t: string) {
    exists k :: 0 <= k < |s| && CutAt(lv, s, t, k)
  }

  ghost predicate CutAt(lv: int, s: string, t: string, k: nat)
    requires k < |s|
  {
    |s| - k < 3 && (if k == 0 then lv < 0 else s[k - 1] == '\n') && HasTag(s[k..] + t)
  }

  /** Logging s and then t appends what logging s + t appends. */
  ghost predicate Splits(lv: int, s: string, t: string) {
    Tagged(lv, s + t) == Tagged(lv, s) + Tagged(LevelAfter(lv, s), t)
  }

  lemma {:induction false} LevelOnlyBySign(lv: int, lv': int, s: string)
    requires lv >= 0 && lv' >= 0
    ensures Tagged(lv, s) == Tagged(lv', s)
  {
    if s != [] && s[0] != '\n' {
      LevelOnlyBySign(lv, lv', s[1..]);
    }
  }

  /** A message can be logged in two pieces exactly when the cut does not go through a level tag. */
  lemma {:induction false} SplitLogging(lv: int, s: string, t: string)
    ensures Splits(lv, s, t) <==> !CutsTag(lv, s, t)
    decreases |s|, lv < 0
  {
    if s == [] {
      assert s + t == t;
    } else if lv >= 0 {
      SplitLogging(if s[0] == '\n' then -1 else lv, s[1..], t);
      ShiftSplit(lv, s, t);
      ShiftCut(lv, s, t);
    } else if HasTag(s) == HasTag(s + t) {
      var lv' := if HasTag(s) then TagLevel(s) else DEFAULT_LEVEL;
      assert HasTag(s) ==> TagLevel(s + t) == TagLevel(s);
      SplitLogging(lv', s, t);
      SameCut(lv, lv', s, t);
      var once, twice := Tagged(lv', s + t), Tagged(lv', s) + Tagged(LevelAfter(lv', s), t);
      var tag := if HasTag(s) then "" else "<4>";
      Cancel(tag, once, twice);
      assert Tagged(lv, s + t) == tag + once;
      assert Tagged(lv, s) + Tagged(LevelAfter(lv, s), t) == tag + twice;
    } else {
      TornTag(lv, s, t);
    }
  }

  lemma Cancel(p: string, a: string, b: string)
    ensures p + a == p + b <==> a == b
  {
    assert (p + a)[|p|..] == a && (p + b)[|p|..] == b;
  }

  /** Dropping the first character of s from both ways of logging. */
  lemma ShiftSplit(lv: int, s: string, t: string)
    requires s != [] && lv >= 0
    ensures Splits(lv, s, t) <==> Splits(if s[0] == '\n' then -1 else lv, s[1..], t)
  {
    var lv' := if s[0] == '\n' then -1 else lv;
    assert (s + t)[1..] == s[1..] + t;
    var out, more := Tagged(lv', s[1..]), Tagged(LevelAfter(lv', s[1..]), t);
    assert ([s[0]] + out) + more == [s[0]] + (out + more);
    Cancel([s[0]], Tagged(lv', s[1..] + t), out + more);
  }

  lemma ShiftCut(lv: int, s: string, t: string)
    requires s != [] && lv >= 0
    ensures CutsTag(lv, s, t) <==> CutsTag(if s[0] == '\n' then -1 else lv, s[1..], t)
  {
    var lv' := if s[0] == '\n' then -1 else lv;
    forall k | 0 <= k < |s[1..]|
      ensures CutAt(lv, s, t, k + 1) <==> CutAt(lv', s[1..], t, k)
    {
      assert s[k + 1..] == s[1..][k..];
    }
    if CutsTag(lv, s, t) {
      var k :| 0 <= k < |s| && CutAt(lv, s, t, k);
      assert CutAt(lv', s[1..], t, k - 1);
    }
    if CutsTag(lv', s[1..], t) {
      var k :| 0 <= k < |s[1..]| && CutAt(lv', s[1..], t, k);
      assert CutAt(lv, s, t, k + 1);
    }
  }

  lemma SameCut(lv: int, lv': int, s: string, t: string)
    requires lv < 0 <= lv' && HasTag(s) == HasTag(s + t)
    ensures CutsTag(lv, s, t) <==> CutsTag(lv', s, t)
  {
    if CutsTag(lv', s, t) {
      var k :| 0 <= k < |s| && CutAt(lv', s, t, k);
      assert CutAt(lv, s, t, k);
    }
    if CutsTag(lv, s, t) {
      var k :| 0 <= k < |s| && CutAt(lv, s, t, k);
      assert s[0..] == s;
      assert CutAt(lv', s, t, k);
    }
  }

  /** The failing case: logged in two pieces, the line gets the default tag in front of its torn one. */
  lemma TornTag(lv: int, s: string, t: string)
    requires s != [] && lv < 0 && HasTag(s + t) && !HasTag(s)
    ensures CutsTag(lv, s, t)
    ensures !Splits(lv, s, t)
  {
    assert s[0..] == s;
    assert s[0] == (s + t)[0] && (|s| == 2 ==> s[1] == (s + t)[1]);
    assert CutAt(lv, s, t, 0);
    var d := TagLevel(s + t);
    PlainPrefix(d, s, t);
    PlainPrefix(DEFAULT_LEVEL, s, []);
    assert s + [] == s;
    LevelOnlyBySign(d, DEFAULT_LEVEL, t);
    PlainLevel(DEFAULT_LEVEL, s);
  }

  lemma {:induction false} PlainPrefix(lv: int, s: string, t: string)
    requires lv >= 0 && '\n' !in s
    ensures Tagged(lv, s + t) == s + Tagged(lv, t)
  {
    if s == [] {
      assert s + t == t;
    } else {
      PlainPrefix(lv, s[1..], t);
      assert (s + t)[1..] == s[1..] + t;
    }
  }

  lemma {:induction false} PlainLevel(lv: int, s: string)
    requires lv >= 0 && '\n' !in s
    ensures LevelAfter(lv, s) == lv
  {
    if s != [] {
      PlainLevel(lv, s[1..]);
    }
  }

  lemma {:induction false} SplitLevel(lv: int, s: string, t: string)
    requires !CutsTag(lv, s, t)
    ensures LevelAfter(lv, s + t) == LevelAfter(LevelAfter(lv, s), t)
    decreases |s|, lv < 0
  {
    if s == [] {
      assert s + t == t;
    } else if lv >= 0 {
      ShiftCut(lv, s, t);
      SplitLevel(if s[0] == '\n' then -1 else lv, s[1..], t);
      assert (s + t)[1..] == s[1..] + t;
    } else if HasTag(s) == HasTag(s + t) {
      var lv' := if HasTag(s) then TagLevel(s) else DEFAULT_LEVEL;
      assert HasTag(s) ==> TagLevel(s + t) == TagLevel(s);
      SameCut(lv, lv', s, t);
      SplitLevel(lv', s, t);
    } else {
      TornTag(lv, s, t);
    }
  }

  /** Line by line: a line that starts without a tag gets the default one, any other stays as it is. */
  lemma LineByLine(line: string, rest: string)
    requires '\n' !in line
    ensures Tagged(-1, line + "\n" + rest) == (if HasTag(line) then "" else "<4>") + line + "\n" + Tagged(-1, rest)
  {
    var s := line + "\n" + rest;
    assert HasTag(s) == HasTag(line) by {
      assert forall i :: 0 <= i < |line| ==> s[i] == line[i];
      assert s[|line|] == '\n';
    }
    assert s == line + ("\n" + rest);
    var lv := if HasTag(s) then TagLevel(s) else DEFAULT_LEVEL;
    PlainPrefix(lv, line, "\n" + rest);
    assert ("\n" + rest)[1..] == rest;
  }

  /** The eight tags, and the level each stands for. */
  lemma TagsAre(s: string, d: nat)
    requires d < 8
    ensures HasTag(s) && TagLevel(s) == d <==> |s| >= 3 && s[..3] == ["<0>", "<1>", "<2>", "<3>", "<4>", "<5>", "<6>", "<7>"][d]
  {
    var tags := ["<0>", "<1>", "<2>", "<3>", "<4>", "<5>", "<6>", "<7>"];
    assert |s| >= 3 ==> s[..3] == [s[0], s[1], s[2]];
    assert tags[d] == ['<', tags[d][1], '>'] && tags[d][1] as int == '0' as int + d;
  }

  /** The level in force behind a piece of a line: that of its tag, or 4 without one; behind a line there is none. */
  lemma LevelIs(lv: int, line: string)
    requires '\n' !in line && line != []
    ensures LevelAfter(-1, line) == (if HasTag(line) then TagLevel(line) else 4)
    ensures lv >= 0 ==> LevelAfter(lv, line) == lv
    ensures LevelAfter(lv, line + "\n") == -1
  {
    var lv' := if lv >= 0 then lv else if HasTag(line + "\n") then TagLevel(line + "\n") else DEFAULT_LEVEL;
    PlainLevel(if HasTag(line) then TagLevel(line) else DEFAULT_LEVEL, line);
    if lv >= 0 {
      PlainLevel(lv, line);
    }
    EndOfLine(lv', line);
  }

  lemma {:induction false} EndOfLine(lv: int, line: string)
    requires lv >= 0 && '\n' !in line
    ensures LevelAfter(lv, line + "\n") == -1
  {
    if line == [] {
      assert line + "\n" == "\n" && "\n"[1..] == [];
    } else {
      assert (line + "\n")[1..] == line[1..] + "\n";
      EndOfLine(lv, line[1..]);
    }
  }

  function Dropped(all: string): nat {
    if |all| > LOGBUFF_LEN then |all| - LOGBUFF_LEN else 0
  }

  /** The most recent bytes, as many as the ring holds. */
  function Recent(all: string): string {
    all[Dropped(all)..]
  }

  /** All that was logged, or the last 16384 bytes of it. */
  lemma RecentIs(all: string)
    ensures |all| <= 16384 ==> Recent(all) == all
    ensures |all| > 16384 ==> |Recent(all)| == 16384 && all == all[..|all| - 16384] + Recent(all)
  {
  }

  /** A 32-bit counter that has counted to n. */
  function Wrap(n: int): nat { n % WORD_LIMIT }

  /** The place of byte n in the ring: `n & LOGBUFF_MASK`. */
  function Slot(n: nat): (i: nat)
    ensures i < LOGBUFF_LEN
  {
    n % LOGBUFF_LEN
  }

  lemma WrapAdd(n: nat, i: nat)
    ensures Wrap(Wrap(n) + i) == Wrap(n + i)
  {
    var q := n / WORD_LIMIT;
    assert n == WORD_LIMIT * q + Wrap(n);
  }

  lemma WrapDifference(n: nat, d: nat)
    requires d <= n < d + WORD_LIMIT
    ensures Wrap(Wrap(n) - Wrap(d)) == n - d
  {
    var p, q := n / WORD_LIMIT, d / WORD_LIMIT;
    assert n == WORD_LIMIT * p + Wrap(n) && d == WORD_LIMIT * q + Wrap(d);
    assert p == q || p == q + 1;
  }

  lemma WrapSlot(n: nat)
    ensures Slot(Wrap(n)) == Slot(n)
  {
    var q := n / WORD_LIMIT;
    assert n == LOGBUFF_LEN * (262144 * q) + Wrap(n);
  }

  lemma DistinctSlots(m: nat, n: nat)
    requires m < n < m + LOGBUFF_LEN
    ensures Slot(m) != Slot(n)
  {
  }

  /** The ring holds the most recent bytes, each in its slot. */
  ghost predicate RingHolds(ring: string, all: string) {
    |ring| == LOGBUFF_LEN && forall k :: Dropped(all) <= k < |all| ==> ring[Slot(k)] == all[k]
  }

  lemma RingPut(ring: string, all: string, c: char)
    requires RingHolds(ring, all)
    ensures RingHolds(ring[Slot(|all|) := c], all + [c])
  {
    forall k | Dropped(all + [c]) <= k < |all|
      ensures ring[Slot(|all|) := c][Slot(k)] == all[k]
    {
      DistinctSlots(k, |all|);
    }
  }

  /** The terminator keeps the search for a tag inside the message. */
  lemma TagSeen(b: string, p: nat, bufEnd: nat)
    requires p < bufEnd < |b| && b[bufEnd] == '\0'
    ensures HasTag(b[p..bufEnd]) <==>
            b[p] == '<' && '0' <= b[p + 1] <= '7' && p + 2 < |b| && b[p + 2] == '>'
    ensures '0' <= b[p + 1] <= '7' ==> p + 2 < |b|
  {
  }

  /** A line with its tag in place logs as the line at the start of a line does. */
  lemma TagWritten(line: string)
    requires line != []
    ensures HasTag(line) ==> Tagged(TagLevel(line), line) == Tagged(-1, line)
                             && LevelAfter(TagLevel(line), line) == LevelAfter(-1, line)
    ensures !HasTag(line) ==> Tagged(DEFAULT_LEVEL, "<4>" + line) == Tagged(-1, line)
                              && LevelAfter(DEFAULT_LEVEL, "<4>" + line) == LevelAfter(-1, line)
  {
    PlainPrefix(DEFAULT_LEVEL, "<4>", line);
    PlainLevels(DEFAULT_LEVEL, "<4>", line);
  }

  /** Position k of s is its first line feed, or its end if it has none. */
  ghost predicate UpToLineFeed(s: string, k: nat) {
    k <= |s| && '\n' !in s[..k] && (k < |s| ==> s[k] == '\n')
  }

  /** Logging up to the first line feed and logging the rest after that add up. */
  lemma LineAccounts(before: string, lv: int, s: string, k: nat)
    requires lv >= 0 && UpToLineFeed(s, k)
    ensures k < |s| ==> before + s[..k] + "\n" + Tagged(-1, s[k + 1..]) == before + Tagged(lv, s)
    ensures k < |s| ==> LevelAfter(-1, s[k + 1..]) == LevelAfter(lv, s)
    ensures k == |s| ==> before + s[..k] + "" + Tagged(lv, "") == before + Tagged(lv, s) && LevelAfter(lv, s) == lv
  {
    assert s == s[..k] + s[k..];
    PlainPrefix(lv, s[..k], s[k..]);
    PlainLevels(lv, s[..k], s[k..]);
    if k < |s| {
      assert s[k..][1..] == s[k + 1..];
      assert Tagged(lv, s) == s[..k] + ("\n" + Tagged(-1, s[k + 1..]));
    }
  }

  /** Having logged `now` and logging `rest` next is as good as having logged `before` and logging `s` next. */
  ghost predicate Accounts(before: string, lv: int, s: string, now: string, lv': int, rest: string) {
    now + Tagged(lv', rest) == before + Tagged(lv, s) && LevelAfter(lv', rest) == LevelAfter(lv, s)
  }

  /** The tag that goes before a line, and the level the line then has. */
  ghost predicate TagInPlace(lv: int, lv': int, tag: string, line: string) {
    if lv >= 0 then tag == "" && lv' == lv
    else if HasTag(line) then tag == "" && lv' == TagLevel(line)
    else tag == "<4>" && lv' == DEFAULT_LEVEL
  }

  /** The same for a line with the tag that `TagLine` found or wrote. */
  lemma PrintLineAccounts(before: string, lv: int, lv': int, tag: string, line: string, k: nat)
    requires line != [] && UpToLineFeed(tag + line, k)
    requires lv >= -1 && TagInPlace(lv, lv', tag, line)
    ensures var s := tag + line; var m := k - |tag|;
            && m >= 0
            && (k < |s| ==> Accounts(before, lv, line, before + s[..k] + "\n", -1, line[m + 1..]))
            && (k == |s| ==> Accounts(before, lv, line, before + s[..k] + "", lv', ""))
  {
    TagAccounts(lv, lv', tag, line);
    TagIsBefore(lv, lv', tag, line, k);
    LineAccounts(before, lv', tag + line, k);
  }

  lemma TagAccounts(lv: int, lv': int, tag: string, line: string)
    requires line != [] && lv >= -1 && TagInPlace(lv, lv', tag, line)
    ensures lv' >= 0 && Tagged(lv', tag + line) == Tagged(lv, line) && LevelAfter(lv', tag + line) == LevelAfter(lv, line)
  {
    assert "" + line == line;
    TagWritten(line);
  }

  lemma TagIsBefore(lv: int, lv': int, tag: string, line: string, k: nat)
    requires line != [] && UpToLineFeed(tag + line, k) && TagInPlace(lv, lv', tag, line)
    ensures k >= |tag| && (k < |tag + line| ==> (tag + line)[k + 1..] == line[k - |tag| + 1..])
  {
    assert forall i :: 0 <= i < |tag| ==> (tag + line)[i] == tag[i] != '\n';
  }

  lemma {:induction false} PlainLevels(lv: int, s: string, t: string)
    requires lv >= 0 && '\n' !in s
    ensures LevelAfter(lv, s + t) == LevelAfter(lv, t)
  {
    if s == [] {
      assert s + t == t;
    } else {
      PlainLevels(lv, s[1..], t);
      assert (s + t)[1..] == s[1..] + t;
    }
  }

  datatype Op = Print(line: string) | Clear

  class Log {
    const version: nat
    const lbuf: array<char>
    const buf: array<char>       // scratch buffer of logbuff_printk
    var v1Start: nat
    var v1Size: nat
    var v1Chars: nat
    var v2Start: nat
    var v2Con: nat
    var v2End: nat
    var v2Chars: nat
    var msgLevel: int            // static in logbuff_printk: level of the line being logged, or negative
    ghost var all: string        // everything logged since the last reset

    ghost predicate Valid()
      reads this, lbuf
    {
      && lbuf.Length == LOGBUFF_LEN && buf.Length == BUF_SIZE && lbuf != buf
      && -1 <= msgLevel <= 7
      && (if version == 2 then
            v2Start == Wrap(Dropped(all)) && v2End == Wrap(|all|) && v2Chars == Wrap(|all|)
          else
            v1Start == Wrap(Dropped(all)) && v1Size == |all| - Dropped(all) && v1Chars == Wrap(|all|))
      && RingHolds(lbuf[..], all)
    }

    constructor (version: nat)
      ensures Valid() && this.version == version && all == "" && msgLevel == -1 && fresh(lbuf) && fresh(buf)
    {
      this.version := version;
      lbuf := new char[LOGBUFF_LEN];
      buf := new char[BUF_SIZE];
      v1Start, v1Size, v1Chars, v2Start, v2Con, v2End, v2Chars := 0, 0, 0, 0, 0, 0, 0;
      msgLevel := -1;
      all := "";
    }

    method Reset()
      requires Valid()
      modifies this
      ensures Valid() && all == "" && msgLevel == old(msgLevel)
    {
      v1Start, v1Size, v1Chars, v2Start, v2Con, v2End, v2Chars := 0, 0, 0, 0, 0, 0, 0;
      all := "";
    }

    method PutChar(c: char)
      requires Valid()
      modifies this`v1Start, this`v1Size, this`v1Chars, this`v2Start, this`v2End, this`v2Chars, this`all, lbuf
      ensures Valid() && all == old(all) + [c]
    {
      RingPut(lbuf[..], all, c);
      if version == 2 {
        PutChar2(c);
      } else {
        PutChar1(c);
      }
      all := all + [c];
    }

    method PutChar2(c: char)
      requires Valid() && version == 2
      modifies this`v2Start, this`v2End, this`v2Chars, lbuf
      ensures lbuf[..] == old(lbuf[..])[Slot(|all|) := c]
      ensures v2Start == Wrap(Dropped(all + [c])) && v2End == Wrap(|all| + 1) && v2Chars == Wrap(|all| + 1)
    {
      WrapSlot(|all|);
      WrapAdd(|all|, 1);
      WrapAdd(Dropped(all), 1);
      WrapDifference(|all| + 1, Dropped(all));
      lbuf[Slot(v2End)] := c;
      v2End := Wrap(v2End + 1);
      if Wrap(v2End - v2Start) > LOGBUFF_LEN {
        v2Start := Wrap(v2Start + 1);
      }
      v2Chars := Wrap(v2Chars + 1);
    }

    method PutChar1(c: char)
      requires Valid() && version != 2
      modifies this`v1Start, this`v1Size, this`v1Chars, lbuf
      ensures lbuf[..] == old(lbuf[..])[Slot(|all|) := c]
      ensures v1Start == Wrap(Dropped(all + [c])) && v1Size == |all| + 1 - Dropped(all + [c])
      ensures v1Chars == Wrap(|all| + 1)
    {
      WrapSlot(|all|);
      WrapAdd(|all|, 1);
      WrapAdd(Dropped(all), 1);
      WrapAdd(Dropped(all), |all| - Dropped(all));
      lbuf[Slot(Wrap(v1Start + v1Size))] := c;
      if v1Size < LOGBUFF_LEN {
        v1Size := v1Size + 1;
      } else {
        v1Start := Wrap(v1Start + 1);
      }
      v1Chars := Wrap(v1Chars + 1);
    }

    /** Logs the scratch buffer from p up to and including a line feed, or to its end. */
    method EmitLine(p: nat, bufEnd: nat, ghost text: string) returns (q: nat, lineFeed: bool)
      requires Valid() && p <= bufEnd < buf.Length && text == buf[p..bufEnd]
      modifies this`v1Start, this`v1Size, this`v1Chars, this`v2Start, this`v2End, this`v2Chars, this`all, lbuf
      ensures Valid() && p <= q <= bufEnd && UpToLineFeed(text, q - p)
      ensures lineFeed <==> q < bufEnd
      ensures all == old(all) + text[..q - p] + if lineFeed then "\n" else ""
    {
      q, lineFeed := p, false;
      while q < bufEnd
        invariant Valid() && p <= q <= bufEnd && '\n' !in text[..q - p]
        invariant all == old(all) + text[..q - p]
      {
        assert buf[q] == text[q - p];
        PutChar(buf[q]);
        if buf[q] == '\n' {
          return q, true;
        }
        q := q + 1;
      }
    }

    /** At the start of a line: finds its tag or writes the default one in front of it. */
    method TagLine(p: nat, bufEnd: nat) returns (q: nat)
      requires Valid() && msgLevel < 0 && 3 <= p < bufEnd < buf.Length
      requires buf[bufEnd] == '\0' && '\0' !in buf[p..bufEnd]
      modifies this`msgLevel, buf
      ensures Valid() && msgLevel >= 0 && buf[bufEnd] == '\0'
      ensures buf[p..bufEnd] == old(buf[p..bufEnd])
      ensures if HasTag(old(buf[p..bufEnd])) then q == p && msgLevel == TagLevel(old(buf[p..bufEnd]))
              else q == p - 3 && msgLevel == DEFAULT_LEVEL && buf[q..p] == "<4>"
    {
      TagSeen(buf[..], p, bufEnd);
      q := p;
      if buf[p] != '<' || buf[p + 1] < '0' || buf[p + 1] > '7' || buf[p + 2] != '>' {
        q := p - 3;
        buf[q], buf[q + 1], buf[q + 2] := '<', '4', '>';
      }
      msgLevel := buf[q + 1] as int - '0' as int;
    }

    /** One line of the message, with its tag in place at `start`. */
    method LogLine(start: nat, bufEnd: nat, ghost lv: int, ghost tag: string, ghost line: string) returns (q: nat)
      requires Valid() && start <= bufEnd < buf.Length && buf[start..bufEnd] == tag + line && line != []
      requires lv >= -1 && TagInPlace(lv, msgLevel, tag, line)
      modifies this, lbuf
      ensures Valid() && start + |tag| < q <= bufEnd + 1
      ensures Accounts(old(all), lv, line, all, msgLevel, if q <= bufEnd then line[q - start - |tag|..] else "")
    {
      var end, lineFeed := EmitLine(start, bufEnd, tag + line);
      PrintLineAccounts(old(all), lv, msgLevel, tag, line, end - start);
      if lineFeed {
        msgLevel := -1;
      }
      q := end + 1;
    }

    /** One line of the message: what it logs and what is left to log make up what was left before. */
    method PrintLine(p: nat, bufEnd: nat) returns (q: nat)
      requires Valid() && 3 <= p < bufEnd < buf.Length && buf[bufEnd] == '\0' && '\0' !in buf[p..bufEnd]
      modifies this, lbuf, buf
      ensures Valid() && p < q <= bufEnd + 1 && buf[bufEnd] == '\0'
      ensures Unread(q, bufEnd) == (if q <= bufEnd then old(buf[p..bufEnd])[q - p..] else "")
      ensures Accounts(old(all), old(msgLevel), old(buf[p..bufEnd]), all, msgLevel, Unread(q, bufEnd))
    {
      ghost var line := buf[p..bufEnd];
      var start := p;
      if msgLevel < 0 {
        start := TagLine(p, bufEnd);
      }
      ghost var tag := buf[start..p];
      assert buf[start..bufEnd] == tag + line;
      q := LogLine(start, bufEnd, old(msgLevel), tag, line);
      assert q <= bufEnd ==> line[q - p..] == buf[q..bufEnd];
    }

    /** `logbuff_printk`: the message is tagged in the scratch buffer while it is copied out of it, each missing
        tag overwriting the three bytes before its line. */
    method Printk(line: string) returns (i: int)
      requires Valid() && |line| + 4 <= BUF_SIZE && '\0' !in line
      modifies this, lbuf, buf
      ensures Valid() && i == |line|
      ensures all == old(all) + Tagged(old(msgLevel), line) && msgLevel == LevelAfter(old(msgLevel), line)
    {
      i := |line|;
      var bufEnd := 3 + i;
      forall k | 0 <= k < i {
        buf[3 + k] := line[k];
      }
      buf[bufEnd] := '\0';
      var p := 3;
      assert buf[3..bufEnd] == line;
      while p < bufEnd
        invariant Valid() && 3 <= p <= bufEnd + 1 && buf[bufEnd] == '\0'
        invariant '\0' !in Unread(p, bufEnd)
        invariant Accounts(old(all), old(msgLevel), line, all, msgLevel, Unread(p, bufEnd))
      {
        p := PrintLine(p, bufEnd);
      }
    }

    ghost function Unread(p: nat, bufEnd: nat): string
      requires bufEnd <= buf.Length
      reads buf
    {
      if p <= bufEnd then buf[p..bufEnd] else ""
    }

    /** `log show` */
    method Show() returns (out: string)
      requires Valid()
      ensures out == Recent(all)
    {
      var start, size := v1Start, v1Size;
      if version == 2 {
        WrapDifference(|all|, Dropped(all));
        start, size := v2Start, Wrap(v2End - v2Start);
      }
      if size > LOGBUFF_LEN {
        size := LOGBUFF_LEN;
      }
      out := "";
      for i := 0 to size
        invariant out == all[Dropped(all)..Dropped(all) + i]
      {
        WrapAdd(Dropped(all), i);
        WrapSlot(Dropped(all) + i);
        var c := lbuf[Slot(Wrap(start + i))];
        assert c == lbuf[..][Slot(Dropped(all) + i)] == all[Dropped(all) + i];
        out := out + [c];
      }
    }
  }

  ghost predicate Printable(ops: seq<Op>) {
    forall k :: 0 <= k < |ops| && ops[k].Print? ==> |ops[k].line| + 4 <= BUF_SIZE && '\0' !in ops[k].line
  }

  /** Level and text logged since the last reset after a run of prints and resets. */
  function LoggedBy(ops: seq<Op>): (int, string) {
    if ops == [] then (-1, "")
    else
      var (lv, all) := LoggedBy(ops[..|ops| - 1]);
      match ops[|ops| - 1]
      case Print(line) => (LevelAfter(lv, line), all + Tagged(lv, line))
      case Clear => (lv, "")
  }

  method Replay(log: Log, ops: seq<Op>)
    requires log.Valid() && log.all == "" && log.msgLevel == -1 && Printable(ops)
    modifies log, log.lbuf, log.buf
    ensures log.Valid() && (log.msgLevel, log.all) == LoggedBy(ops)
  {
    for k := 0 to |ops|
      invariant log.Valid() && (log.msgLevel, log.all) == LoggedBy(ops[..k])
    {
      assert ops[..k + 1][..k] == ops[..k];
      match ops[k] {
        case Print(line) => var _ := log.Printk(line);
        case Clear => log.Reset();
      }
    }
    assert ops[..|ops|] == ops;
  }

  /** After any run of prints and resets both layouts show the same: the most recent bytes logged since the reset. */
  method CompareLayouts(ops: seq<Op>) returns (shown1: string, shown2: string)
    requires Printable(ops)
    ensures shown1 == shown2 == Recent(LoggedBy(ops).1)
  {
    var log1 := new Log(1);
    var log2 := new Log(2);
    Replay(log1, ops);
    Replay(log2, ops);
    shown1 := log1.Show();
    shown2 := log2.Show();
  }
}
