/**
 Whole Kermit transfers: a stop-and-wait sender, a line that damages frames and loses replies,
 and the receiver.  Every run keeps the acknowledged data in memory, once and in order.
 */
module KermitTransfer {
  import opened Basics
  import opened Kermit
  import opened KermitFrames

  /** The sender's data as far as it has been decoded. */
  datatype Plain = Plain(quote: Byte, escape: bool, out: seq<Byte>)

  function DecodeChar(t: Plain, c: Byte): Plain {
    if t.escape then t.(escape := false, out := t.out + [KTrans(c)])
    else if c == t.quote then t.(escape := true)
    else t.(out := t.out + [c])
  }

  function Decode(t: Plain, d: seq<Byte>): Plain {
    if d == [] then t else DecodeChar(Decode(t, d[..|d| - 1]), d[|d| - 1])
  }

  function Absorb(t: Plain, p: Packet): Plain {
    if p.kind == DATA_TYPE then Decode(t, p.data)
    else t.(quote := NewQuote(t.quote, p.kind, Params(p.kind, p.data)))
  }

  const BLANK := Plain(K_ESCAPE, false, [])

  function AbsorbAll(ps: seq<Packet>): Plain {
    if ps == [] then BLANK else Absorb(AbsorbAll(ps[..|ps| - 1]), ps[|ps| - 1])
  }

  /** A file transfer: numbered packets, with the break packet last and only there. */
  ghost predicate Session(ps: seq<Packet>) {
    && (forall k :: 0 <= k < |ps| ==> ValidPacket(ps[k]) && ps[k].num == k % 64)
    && (forall k :: 0 <= k < |ps| ==> (ps[k].kind == BREAK_TYPE <==> k == |ps| - 1))
  }

  /** A frame or part of one put on the line after some noise, and whether the receiver's reply reaches the sender. */
  datatype Event = Event(noise: seq<Byte>, frame: seq<Byte>, replyArrives: bool)

  function OnLine(e: Event): seq<Byte> { e.noise + e.frame }

  /** Packets the sender has seen acknowledged; the receiver; the receiver when it last waited for a packet, and what it
      has heard since of the packet it is in. */
  datatype World = World(sent: nat, rx: Rx, idle: Rx, heard: seq<Byte>)

  predicate IsIdle(rx: Rx) { rx.phase == Wait || rx.phase == Done || rx.phase == Aborted }

  /** The line carries a copy of the packet the sender is waiting on, intact, visibly damaged or cut short, or nothing.
      In the middle of a packet, what was heard of it and what comes now is visibly damaged or still cut short. */
  ghost predicate Possible(ps: seq<Packet>, w: World, e: Event) {
    if w.heard == [] then
      && NoMarks(e.noise)
      && (e.frame == [] || (w.sent < |ps| && Copy(e.frame, ps[w.sent])))
    else
      w.sent < |ps| && Spoilt(w.heard + OnLine(e), ps[w.sent])
  }

  ghost predicate Spoilt(c: seq<Byte>, p: Packet) { Damaged(c, p) || Cut(c, p) }

  ghost predicate Copy(c: seq<Byte>, p: Packet) { c == Frame(p) || Spoilt(c, p) }

  /** The receiver reads the line; the sender moves on when an ACK for its packet arrives. */
  function Step(ps: seq<Packet>, w: World, e: Event): World {
    var rx := FeedAll(w.rx, OnLine(e));
    var acked := |rx.replies| > |w.rx.replies| && w.sent < |ps| && rx.replies[|rx.replies| - 1] == Ack(ps[w.sent].num);
    var sent := if acked && e.replyArrives then w.sent + 1 else w.sent;
    if IsIdle(rx) then World(sent, rx, rx, [])
    else World(sent, rx, w.idle, if w.heard == [] then e.frame else w.heard + OnLine(e))
  }

  function Run(ps: seq<Packet>, addr: int, es: seq<Event>): World {
    if es == [] then World(0, Start(addr), Start(addr), []) else Step(ps, Run(ps, addr, es[..|es| - 1]), es[|es| - 1])
  }

  ghost predicate PossibleRun(ps: seq<Packet>, addr: int, es: seq<Event>) {
    forall k :: 0 <= k < |es| ==> Possible(ps, Run(ps, addr, es[..k]), es[k])
  }

  ghost predicate Holds(mem: map<int, Byte>, addr: int, out: seq<Byte>) {
    forall a :: addr <= a < addr + |out| ==> a in mem && mem[a] == out[a - addr]
  }

  ghost predicate Located(at: Mark, addr: int, t: Plain) {
    at == Mark(addr + |t.out|, t.escape)
  }

  /** The receiver's memory and position follow the decoded text. */
  lemma {:induction false} DataRunDecodes(mem: map<int, Byte>, at: Mark, addr: int, t: Plain, d: seq<Byte>)
    requires Holds(mem, addr, t.out) && Located(at, addr, t)
    ensures var (mem', at') := DataRun(mem, at, t.quote, d);
            Holds(mem', addr, Decode(t, d).out) && Located(at', addr, Decode(t, d))
    ensures Decode(t, d).quote == t.quote
  {
    if d != [] {
      DataRunDecodes(mem, at, addr, t, d[..|d| - 1]);
      var t' := Decode(t, d[..|d| - 1]);
      var (mem', at') := DataRun(mem, at, t.quote, d[..|d| - 1]);
      HoldsSnoc(mem', addr, t'.out, KTrans(d[|d| - 1]));
      HoldsSnoc(mem', addr, t'.out, d[|d| - 1]);
    }
  }

  lemma HoldsSnoc(mem: map<int, Byte>, addr: int, out: seq<Byte>, c: Byte)
    requires Holds(mem, addr, out)
    ensures Holds(mem[addr + |out| := c], addr, out + [c])
  {
  }

  lemma HoldsBelow(mem: map<int, Byte>, mem': map<int, Byte>, addr: int, out: seq<Byte>)
    requires Holds(mem, addr, out) && SameBelow(mem, mem', addr + |out|)
    ensures Holds(mem', addr, out)
  {
  }

  /** The next packet has not reached the receiver yet; the checkpoint is before the last one acknowledged. */
  ghost predicate Fresh(ps: seq<Packet>, addr: int, sent: nat, rx: Rx) {
    && sent <= |ps| && (sent < |ps| || ps == [])
    && rx.phase == Wait
    && Located(rx.at, addr, AbsorbAll(ps[..sent])) && rx.quote == AbsorbAll(ps[..sent]).quote
    && Located(rx.saved, addr, AbsorbAll(ps[..if sent == 0 then 0 else sent - 1]))
    && rx.lastN == (if sent == 0 then -1 else ps[sent - 1].num)
  }

  /** The receiver's last reply accepted a packet. */
  predicate LastAccepted(rx: Rx) { rx.replies != [] && rx.replies[|rx.replies| - 1].Ack? }

  /** The receiver has seen the next packet, and is behind it if it accepted it and before it otherwise. */
  ghost predicate Tried(ps: seq<Packet>, addr: int, sent: nat, rx: Rx) {
    && sent < |ps|
    && rx.phase == Wait
    && Located(rx.saved, addr, AbsorbAll(ps[..sent]))
    && (rx.quote == AbsorbAll(ps[..sent]).quote || ps[sent].kind == SEND_TYPE)
    && rx.lastN == ps[sent].num
    && if LastAccepted(rx) then Located(rx.at, addr, AbsorbAll(ps[..sent + 1])) else rx.at == rx.saved
  }

  /** The receiver has accepted the break packet and returned. */
  ghost predicate Finished(ps: seq<Packet>, addr: int, sent: nat, rx: Rx) {
    && sent >= |ps| - 1
    && rx.phase == Done
    && Located(rx.at, addr, AbsorbAll(ps))
    && Holds(rx.mem, addr, AbsorbAll(ps).out)
  }

  /** A receiver that is not in the middle of a packet. */
  ghost predicate Settled(ps: seq<Packet>, addr: int, sent: nat, rx: Rx) {
    && sent <= |ps|
    && Holds(rx.mem, addr, AbsorbAll(ps[..sent]).out)
    && (Fresh(ps, addr, sent, rx) || Tried(ps, addr, sent, rx) || Finished(ps, addr, sent, rx))
  }

  ghost predicate Inv(ps: seq<Packet>, addr: int, w: World) {
    && Settled(ps, addr, w.sent, w.idle)
    && if w.heard == [] then w.rx == w.idle
       else w.sent < |ps| && w.idle.phase == Wait && Cut(w.heard, ps[w.sent]) && w.rx == FeedAll(w.idle, w.heard)
  }

  /** Whether the awaited packet is new or repeated, its data will go right behind the acknowledged data. */
  lemma ResumesAtCheckpoint(ps: seq<Packet>, addr: int, sent: nat, rx: Rx)
    requires Session(ps) && Settled(ps, addr, sent, rx) && sent < |ps| && rx.phase == Wait
    ensures var base := Resume(rx, ps[sent].num); var t := AbsorbAll(ps[..sent]);
            && base.saved == base.at && Located(base.at, addr, t)
            && (base.quote == t.quote || ps[sent].kind == SEND_TYPE)
  {
    if Fresh(ps, addr, sent, rx) && sent > 0 {
      assert rx.lastN == (sent - 1) % 64;
    }
  }

  /** Seeing an intact frame of the awaited packet from a state at or before it. */
  lemma AcceptStep(ps: seq<Packet>, addr: int, sent: nat, st: Rx)
    requires Session(ps) && Settled(ps, addr, sent, st) && sent < |ps| && st.phase == Wait
    ensures var rx := Received(st, ps[sent]);
            && rx.replies == st.replies + [Ack(ps[sent].num)] && IsIdle(rx)
            && Settled(ps, addr, sent, rx) && Settled(ps, addr, sent + 1, rx)
  {
    var p, t := ps[sent], AbsorbAll(ps[..sent]);
    var base := Resume(st, p.num);
    ResumesAtCheckpoint(ps, addr, sent, st);
    var rx := Received(st, p);
    var t' := AbsorbAll(ps[..sent + 1]);
    assert ps[..sent + 1][..sent] == ps[..sent];
    assert t' == Absorb(t, p);
    DataRunDecodes(base.mem, base.at, addr, t, p.data);
    DataRunKeeps(base.mem, base.at, base.quote, p.data);
    HoldsBelow(st.mem, rx.mem, addr, t.out);
    assert Holds(rx.mem, addr, t'.out) && Located(rx.at, addr, t') && rx.quote == t'.quote;
    if p.kind == BREAK_TYPE {
      assert ps[..sent + 1] == ps;
    }
  }

  lemma RejectStep(ps: seq<Packet>, addr: int, sent: nat, st: Rx, c: seq<Byte>)
    requires Session(ps) && Settled(ps, addr, sent, st) && sent < |ps| && st.phase == Wait
    requires Damaged(c, ps[sent])
    ensures var rx := FeedAll(st, c);
            rx.replies == st.replies + [Nack(ps[sent].num)] && rx.phase == Wait && Settled(ps, addr, sent, rx)
  {
    var p, t := ps[sent], AbsorbAll(ps[..sent]);
    var base := Resume(st, p.num);
    ResumesAtCheckpoint(ps, addr, sent, st);
    Rejection(st, c, p);
    var rx := FeedAll(st, c);
    assert rx.lastN == p.num && rx.saved == base.saved && rx.quote == base.quote;
    HoldsBelow(st.mem, rx.mem, addr, t.out);
    assert Tried(ps, addr, sent, rx);
  }

  /** In the middle of a packet the acknowledged data is in place, and there is no new reply. */
  lemma CutStep(ps: seq<Packet>, addr: int, sent: nat, st: Rx, c: seq<Byte>)
    requires Session(ps) && Settled(ps, addr, sent, st) && sent < |ps| && st.phase == Wait
    requires Cut(c, ps[sent])
    ensures var rx := FeedAll(st, c);
            rx.replies == st.replies && !IsIdle(rx) && Holds(rx.mem, addr, AbsorbAll(ps[..sent]).out)
  {
    ResumesAtCheckpoint(ps, addr, sent, st);
    CutFrame(st, c, ps[sent]);
    HoldsBelow(st.mem, FeedAll(st, c).mem, addr, AbsorbAll(ps[..sent]).out);
  }

  /** A copy that is damaged or cut, from a state in which the receiver waits. */
  lemma SpoiltStep(ps: seq<Packet>, addr: int, w: World, e: Event, c: seq<Byte>)
    requires Session(ps) && Settled(ps, addr, w.sent, w.idle) && w.sent < |ps| && w.idle.phase == Wait
    requires Spoilt(c, ps[w.sent]) && w.rx.replies == w.idle.replies && c != []
    requires FeedAll(w.rx, OnLine(e)) == FeedAll(w.idle, c) && c == if w.heard == [] then e.frame else w.heard + OnLine(e)
    ensures Inv(ps, addr, Step(ps, w, e)) && Step(ps, w, e).sent == w.sent
  {
    if Damaged(c, ps[w.sent]) {
      RejectStep(ps, addr, w.sent, w.idle, c);
    } else {
      CutStep(ps, addr, w.sent, w.idle, c);
    }
  }

  lemma InvStep(ps: seq<Packet>, addr: int, w: World, e: Event)
    requires Session(ps) && Inv(ps, addr, w) && Possible(ps, w, e)
    ensures Inv(ps, addr, Step(ps, w, e))
  {
    if w.heard != [] {
      CutStep(ps, addr, w.sent, w.idle, w.heard);
      FeedConcat(w.idle, w.heard, OnLine(e));
      SpoiltStep(ps, addr, w, e, w.heard + OnLine(e));
    } else if w.rx.phase == Done {
      StaysStopped(w.rx, OnLine(e));
    } else {
      FeedConcat(w.rx, e.noise, e.frame);
      SkipNoise(w.rx, e.noise);
      if e.frame == [] {
      } else if e.frame == Frame(ps[w.sent]) {
        Acceptance(w.rx, ps[w.sent]);
        AcceptStep(ps, addr, w.sent, w.rx);
      } else {
        SpoiltStep(ps, addr, w, e, e.frame);
      }
    }
  }

  lemma {:induction false} InvAlways(ps: seq<Packet>, addr: int, es: seq<Event>)
    requires Session(ps) && PossibleRun(ps, addr, es)
    ensures Inv(ps, addr, Run(ps, addr, es))
  {
    if es != [] {
      var before := es[..|es| - 1];
      RunBefore(ps, addr, es);
      InvAlways(ps, addr, before);
      InvStep(ps, addr, Run(ps, addr, before), es[|es| - 1]);
    } else {
      assert ps[..0] == [];
    }
  }

  lemma RunBefore(ps: seq<Packet>, addr: int, es: seq<Event>)
    requires PossibleRun(ps, addr, es) && es != []
    ensures PossibleRun(ps, addr, es[..|es| - 1]) && Possible(ps, Run(ps, addr, es[..|es| - 1]), es[|es| - 1])
  {
    var before := es[..|es| - 1];
    forall k | 0 <= k < |before|
      ensures Possible(ps, Run(ps, addr, before[..k]), before[k])
    {
      EventBefore(ps, addr, es, before, k);
    }
    EventBefore(ps, addr, es, es, |es| - 1);
  }

  lemma EventBefore(ps: seq<Packet>, addr: int, es: seq<Event>, before: seq<Event>, k: nat)
    requires PossibleRun(ps, addr, es) && |before| <= |es| && before == es[..|before|] && k < |before|
    ensures Possible(ps, Run(ps, addr, before[..k]), before[k])
  {
    assert before[..k] == es[..k];
  }

  function Line(es: seq<Event>): seq<Byte> {
    if es == [] then [] else Line(es[..|es| - 1]) + OnLine(es[|es| - 1])
  }

  lemma {:induction false} RunIsFeed(ps: seq<Packet>, addr: int, es: seq<Event>)
    ensures Run(ps, addr, es).rx == FeedAll(Start(addr), Line(es))
  {
    if es != [] {
      RunIsFeed(ps, addr, es[..|es| - 1]);
      FeedConcat(Start(addr), Line(es[..|es| - 1]), OnLine(es[|es| - 1]));
    }
  }

  /** Every run: the acknowledged data is in memory from the load address on, once and in order; and a receiver
      that returned holds the whole file and returns its length. */
  lemma TransferIsSafe(ps: seq<Packet>, addr: int, es: seq<Event>)
    requires Session(ps) && PossibleRun(ps, addr, es)
    ensures var w := Run(ps, addr, es); var rx := FeedAll(Start(addr), Line(es));
            && w.rx == rx
            && w.sent <= |ps|
            && Holds(rx.mem, addr, AbsorbAll(ps[..w.sent]).out)
            && (rx.phase == Done ==>
                  rx.at.addr - addr == |AbsorbAll(ps).out| && Holds(rx.mem, addr, AbsorbAll(ps).out))
            && (|ps| > 0 && w.sent == |ps| ==> rx.phase == Done)
            && rx.phase != Aborted
  {
    RunIsFeed(ps, addr, es);
    InvAlways(ps, addr, es);
    var w := Run(ps, addr, es);
    if w.heard != [] {
      CutStep(ps, addr, w.sent, w.idle, w.heard);
    }
  }

  /** The control quoting a Kermit sender applies to one byte. */
  function QuoteByte(q: Byte, c: Byte): seq<Byte> {
    if c % 128 < 0x20 || c % 128 == 0x7f then [q, if c / 64 % 2 == 1 then c - 0x40 else c + 0x40]
    else if c % 128 == q then [q, c]
    else [c]
  }

  function Quoted(q: Byte, file: seq<Byte>): seq<Byte> {
    if file == [] then [] else Quoted(q, file[..|file| - 1]) + QuoteByte(q, file[|file| - 1])
  }

  /** For a printable quote character, the receiver recovers the byte unless the byte is the quote character
      itself and that looks like a quoted control character to `ktrans`. */
  lemma QuoteByteRoundTrip(q: Byte, out: seq<Byte>, c: Byte)
    requires 0x21 <= q <= 0x7e
    ensures Decode(Plain(q, false, out), QuoteByte(q, c)) == Plain(q, false, out + [c])
            <==> !(c % 128 == q && 0x3f <= q < 0x60)
  {
    var t, d := Plain(q, false, out), QuoteByte(q, c);
    assert d[..|d| - 1][..0] == [];
    assert Decode(t, []) == t;
    if |d| == 1 {
      assert Decode(t, d) == DecodeChar(t, d[0]);
    } else {
      assert d[..1][..0] == [] && d[..1][0] == q;
      assert Decode(t, d[..1]) == DecodeChar(t, q);
      assert Decode(t, d) == DecodeChar(DecodeChar(t, q), d[1]);
      assert (out + [c])[|out|] == c && (out + [KTrans(d[1])])[|out|] == KTrans(d[1]);
    }
  }

  lemma {:induction false} DecodeConcat(t: Plain, x: seq<Byte>, y: seq<Byte>)
    ensures Decode(t, x + y) == Decode(Decode(t, x), y)
  {
    if y == [] {
      assert x + y == x;
    } else {
      DecodeConcat(t, x, y[..|y| - 1]);
      assert (x + y)[..|x + y| - 1] == x + y[..|y| - 1];
    }
  }

  /** Quote characters the Kermit protocol allows. */
  predicate AllowedQuote(q: Byte) {
    0x21 <= q <= 0x3e || 0x60 <= q <= 0x7e
  }

  lemma {:induction false} FileRoundTrip(q: Byte, file: seq<Byte>)
    requires AllowedQuote(q)
    ensures Decode(Plain(q, false, []), Quoted(q, file)) == Plain(q, false, file)
  {
    if file != [] {
      var init, last := file[..|file| - 1], file[|file| - 1];
      calc {
        Decode(Plain(q, false, []), Quoted(q, file));
        { DecodeConcat(Plain(q, false, []), Quoted(q, init), QuoteByte(q, last)); }
        Decode(Decode(Plain(q, false, []), Quoted(q, init)), QuoteByte(q, last));
        { FileRoundTrip(q, init); }
        Decode(Plain(q, false, init), QuoteByte(q, last));
        { QuoteByteRoundTrip(q, init, last); }
        Plain(q, false, init + [last]);
        { assert file == init + [last]; }
        Plain(q, false, file);
      }
    }
  }

  /** The data characters of a session, whatever packets they were cut into. */
  function DataOf(ps: seq<Packet>): seq<Byte> {
    if ps == [] then []
    else DataOf(ps[..|ps| - 1]) + if ps[|ps| - 1].kind == DATA_TYPE then ps[|ps| - 1].data else []
  }

  /** The quote character a send-init packet asks for: its sixth parameter, QCTL, and '#' if it ends before that. */
  function AskedQuote(p: Packet): Byte { if |p.data| >= 6 then p.data[5] else 0x23 }

  lemma {:induction false} CutsDoNotMatter(ps: seq<Packet>)
    requires ps != [] && ps[0].kind == SEND_TYPE
    requires forall k :: 1 <= k < |ps| ==> ps[k].kind != SEND_TYPE
    ensures AbsorbAll(ps) == Decode(Plain(AskedQuote(ps[0]), false, []), DataOf(ps))
  {
    var init := ps[..|ps| - 1];
    if init == [] {
      assert DataOf(ps) == [];
      assert AbsorbAll(init) == BLANK;
    } else {
      CutsDoNotMatter(init);
      assert ps[0] == init[0];
      var t := Plain(AskedQuote(ps[0]), false, []);
      var last := ps[|ps| - 1];
      DecodeConcat(t, DataOf(init), if last.kind == DATA_TYPE then last.data else []);
      if last.kind != DATA_TYPE {
        assert DataOf(ps) == DataOf(init);
      }
    }
  }

  /** A file quoted by the sender, cut into packets anywhere and sent over the bad line, arrives. */
  lemma FileArrives(file: seq<Byte>, ps: seq<Packet>, addr: int, es: seq<Event>)
    requires Session(ps) && PossibleRun(ps, addr, es)
    requires ps != [] && ps[0].kind == SEND_TYPE && (forall k :: 1 <= k < |ps| ==> ps[k].kind != SEND_TYPE)
    requires AllowedQuote(AskedQuote(ps[0])) && DataOf(ps) == Quoted(AskedQuote(ps[0]), file)
    ensures var rx := FeedAll(Start(addr), Line(es));
            rx.phase == Done ==> rx.at.addr - addr == |file| && Holds(rx.mem, addr, file)
  {
    TransferIsSafe(ps, addr, es);
    CutsDoNotMatter(ps);
    FileRoundTrip(AskedQuote(ps[0]), file);
  }
}
