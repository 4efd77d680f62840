/** What a Kermit transfer can and cannot recover from: lost openings, progress, and the last acknowledgement. */
module KermitLimits {
  import opened Basics
  import opened Kermit
  import opened KermitFrames
  import opened KermitTransfer

  // ---------------------------------------------------------------- the opening must arrive

  /** The acknowledged data is in place, and the data of the awaited packet would go right behind it. */
  ghost predicate Lands(ps: seq<Packet>, addr: int, sent: nat, rx: Rx)
    requires sent < |ps|
  {
    && Holds(rx.mem, addr, AbsorbAll(ps[..sent]).out)
    && Located(Resume(rx, ps[sent].num).at, addr, AbsorbAll(ps[..sent]))
  }

  predicate Delivers(p: Packet) { p.kind == DATA_TYPE && p.data != [] }

  /** Grows with every data character. */
  function Measure(t: Plain): nat { 2 * |t.out| + if t.escape then 1 else 0 }

  lemma {:induction false} DecodeMoves(t: Plain, d: seq<Byte>)
    ensures Measure(Decode(t, d)) >= Measure(t) + |d|
  {
    if d != [] {
      DecodeMoves(t, d[..|d| - 1]);
    }
  }

  /** The decoder's position is that before a packet exactly if the packet delivers nothing. */
  lemma SamePlace(at: Mark, addr: int, t: Plain, p: Packet)
    requires Located(at, addr, t)
    ensures Located(at, addr, Absorb(t, p)) <==> !Delivers(p)
  {
    DecodeMoves(t, p.data);
    if p.kind == DATA_TYPE && p.data == [] {
      assert Decode(t, p.data) == t;
    }
  }

  lemma RollbackLands(ps: seq<Packet>, addr: int, sent: nat, rx: Rx)
    requires Session(ps) && Settled(ps, addr, sent, rx) && sent < |ps| && rx.phase == Wait
    ensures Lands(ps, addr, sent, PacketError(rx)) <==>
            rx.lastN == ps[sent].num || sent == 0 || !Delivers(ps[sent - 1])
  {
    if Fresh(ps, addr, sent, rx) && sent > 0 {
      assert ps[..sent][..sent - 1] == ps[..sent - 1];
      SamePlace(rx.saved, addr, AbsorbAll(ps[..sent - 1]), ps[sent - 1]);
      assert rx.lastN == (sent - 1) % 64;
    }
  }

  /**
   In every run: a control character in the place of the length or of the sequence number of a packet leaves the
   transfer right if and only if the receiver has seen a copy of the awaited packet already, or nothing was
   acknowledged yet, or the last packet acknowledged delivered no data. Otherwise that data will be overwritten.
   */
  lemma OpeningMustArrive(ps: seq<Packet>, addr: int, es: seq<Event>, n: Byte, c: Byte)
    requires Session(ps) && PossibleRun(ps, addr, es) && Control(c) && !Control(n)
    requires var w := Run(ps, addr, es); w.sent < |ps| && w.rx.phase == Wait
    ensures var w := Run(ps, addr, es);
            && (Lands(ps, addr, w.sent, FeedAll(w.rx, [START_CHAR, c])) <==>
                w.rx.lastN == ps[w.sent].num || w.sent == 0 || !Delivers(ps[w.sent - 1]))
            && (Lands(ps, addr, w.sent, FeedAll(w.rx, [START_CHAR, n, c])) <==>
                w.rx.lastN == ps[w.sent].num || w.sent == 0 || !Delivers(ps[w.sent - 1]))
  {
    var w := Run(ps, addr, es);
    InvAlways(ps, addr, es);
    if w.heard != [] {
      CutStep(ps, addr, w.sent, w.idle, w.heard);
    }
    DamagedOpening(w.rx, n, c);
    RollbackLands(ps, addr, w.sent, w.rx);
  }

  /** Where a frame that is refused leaves the decoder if its number is not the awaited one. */
  lemma WrongNumberLands(ps: seq<Packet>, addr: int, sent: nat, rx: Rx, n: int, after: Rx)
    requires Session(ps) && Settled(ps, addr, sent, rx) && sent < |ps| && rx.phase == Wait && n >= 0
    requires n != ps[sent].num && Restored(rx, n, after)
    ensures Lands(ps, addr, sent, after) <==>
            if rx.lastN == ps[sent].num then !LastAccepted(rx) || !Delivers(ps[sent])
            else sent == 0 || n != ps[sent - 1].num || !Delivers(ps[sent - 1])
  {
    var t := AbsorbAll(ps[..sent]);
    if rx.lastN == ps[sent].num {
      assert Tried(ps, addr, sent, rx);
      assert ps[..sent + 1][..sent] == ps[..sent];
      SamePlace(rx.saved, addr, t, ps[sent]);
    } else if sent > 0 {
      assert ps[..sent][..sent - 1] == ps[..sent - 1];
      SamePlace(rx.saved, addr, AbsorbAll(ps[..sent - 1]), ps[sent - 1]);
    }
    if Located(Resume(after, ps[sent].num).at, addr, t) {
      HoldsBelow(rx.mem, after.mem, addr, t.out);
    }
  }

  /**
   In every run: a frame that is refused and whose sequence number is not the awaited one leaves the transfer right if and
   only if, where the receiver has answered the awaited packet before, it refused it or the packet delivers no data; and
   where it has not, the number is not that of the last packet acknowledged, or that packet delivered no data.
   */
  lemma NumberMustArrive(ps: seq<Packet>, addr: int, es: seq<Event>, c: seq<Byte>)
    requires Session(ps) && PossibleRun(ps, addr, es) && IsRefused(c)
    requires var w := Run(ps, addr, es); w.sent < |ps| && w.rx.phase == Wait && UnToChar(c[2]) != ps[w.sent].num
    ensures var w := Run(ps, addr, es);
            Lands(ps, addr, w.sent, FeedAll(w.rx, c)) <==>
            if w.rx.lastN == ps[w.sent].num then !LastAccepted(w.rx) || !Delivers(ps[w.sent])
            else w.sent == 0 || UnToChar(c[2]) != ps[w.sent - 1].num || !Delivers(ps[w.sent - 1])
  {
    var w := Run(ps, addr, es);
    InvAlways(ps, addr, es);
    if w.heard != [] {
      CutStep(ps, addr, w.sent, w.idle, w.heard);
    }
    RefusedFrame(w.rx, c);
    WrongNumberLands(ps, addr, w.sent, w.rx, UnToChar(c[2]), FeedAll(w.rx, c));
  }

  /** Of all single flipped bits of a frame after its start, those that may do harm are in the length or the sequence number
      and make it unprintable, or are in the sequence number. */
  lemma OtherBitsDoNoHarm(ps: seq<Packet>, addr: int, es: seq<Event>, j: nat, v: Byte)
    requires Session(ps) && PossibleRun(ps, addr, es)
    requires var w := Run(ps, addr, es);
             && w.sent < |ps| && w.rx.phase == Wait
             && 1 <= j < |Frame(ps[w.sent])| && OneBitApart(Frame(ps[w.sent])[j], v)
             && j != 2 && (j == 1 ==> !Control(v))
    ensures var w := Run(ps, addr, es);
            Lands(ps, addr, w.sent, FeedAll(w.rx, Frame(ps[w.sent])[j := v]))
  {
    var w := Run(ps, addr, es);
    InvAlways(ps, addr, es);
    if w.heard != [] {
      CutStep(ps, addr, w.sent, w.idle, w.heard);
    }
    OneBitIsDamage(ps[w.sent], j, v);
    RejectStep(ps, addr, w.sent, w.rx, Frame(ps[w.sent])[j := v]);
    ResumesAtCheckpoint(ps, addr, w.sent, FeedAll(w.rx, Frame(ps[w.sent])[j := v]));
  }

  /** A data packet and the break packet. */
  function ShortSession(x: Byte): seq<Packet> {
    [Packet(0, DATA_TYPE, [x], false), Packet(1, BREAK_TYPE, [], false)]
  }

  lemma ShortSessionIs(x: Byte)
    requires !Control(x) && x != K_ESCAPE
    ensures Session(ShortSession(x)) && AbsorbAll(ShortSession(x)).out == [x]
  {
    var ps := ShortSession(x);
    assert ps[..1] == [ps[0]] && ps[..1][..0] == [];
    assert AbsorbAll([ps[0]][..0]) == BLANK;
    assert [x][..0] == [] && Decode(BLANK, []) == BLANK;
    assert AbsorbAll([ps[0]]) == Absorb(BLANK, ps[0]);
  }

  /** A file of one byte: the opening of the break packet is damaged once, both packets are acknowledged in the end, and
      the receiver returns the length 0. */
  lemma LostByteWitness(x: Byte, c: Byte, addr: int)
    requires !Control(x) && x != K_ESCAPE && Control(c)
    ensures var ps := ShortSession(x);
            var rx := FeedAll(Start(addr), Frame(ps[0]) + [START_CHAR, c] + Frame(ps[1]));
            && Session(ps) && AbsorbAll(ps).out == [x]
            && rx.phase == Done && rx.at.addr - addr == 0 && rx.replies == [Ack(0), Nack(0), Ack(1)]
  {
    var ps := ShortSession(x);
    ShortSessionIs(x);
    var s0 := Start(addr);
    var s1 := Received(s0, ps[0]);
    var s2 := PacketError(s1);
    Acceptance(s0, ps[0]);
    DamagedOpening(s1, x, c);
    Acceptance(s2, ps[1]);
    FeedConcat(s0, Frame(ps[0]) + [START_CHAR, c], Frame(ps[1]));
    FeedConcat(s0, Frame(ps[0]), [START_CHAR, c]);
    assert FeedAll(s0, Frame(ps[0]) + [START_CHAR, c] + Frame(ps[1])) == Received(s2, ps[1]);
  }

  /** A control character behind length and number: the packet is refused. */
  lemma ShortRefusal(n: Byte, q: Byte, c: Byte)
    requires !Control(n) && !Control(q) && Control(c)
    ensures IsRefused([START_CHAR, n, q, c])
  {
    var x := [END_CHAR, END_CHAR, END_CHAR, END_CHAR, END_CHAR];
    assert RefusedAt([START_CHAR, n, q, c], x, 3);
  }

  /** The same file: the data packet is accepted and its acknowledgement lost; it is sent again, first with a wrong number.
      Every packet is acknowledged in the end, and the receiver returns the length 2. */
  lemma DoubledByteWitness(x: Byte, c: Byte, addr: int)
    requires !Control(x) && x != K_ESCAPE && Control(c)
    ensures var ps := ShortSession(x);
            var rx := FeedAll(Start(addr), Frame(ps[0]) + [START_CHAR, ToChar(4), ToChar(5), c] + Frame(ps[0]) + Frame(ps[1]));
            && Session(ps) && AbsorbAll(ps).out == [x]
            && rx.phase == Done && rx.at.addr - addr == 2 && rx.replies == [Ack(0), Nack(5), Ack(0), Ack(1)]
  {
    var ps, bad := ShortSession(x), [START_CHAR, ToChar(4), ToChar(5), c];
    ShortSessionIs(x);
    var s0 := Start(addr);
    var s1 := OneByteIn(s0, x);
    var s2 := FiveIn(s1, c);
    var s3 := OneByteIn(s2, x);
    BreakIn(s3, x);
    FourPieces(s0, Frame(ps[0]), bad, Frame(ps[0]), Frame(ps[1]));
  }

  lemma FourPieces(st: Rx, a: seq<Byte>, b: seq<Byte>, c: seq<Byte>, d: seq<Byte>)
    ensures FeedAll(st, a + b + c + d) == FeedAll(FeedAll(FeedAll(FeedAll(st, a), b), c), d)
  {
    FeedConcat(st, a + b + c, d);
    FeedConcat(st, a + b, c);
    FeedConcat(st, a, b);
  }

  /** A packet with number 5 instead of 0. */
  lemma FiveIn(st: Rx, c: Byte) returns (rx: Rx)
    requires st.phase == Wait && Control(c) && st.lastN == 0
    ensures rx == FeedAll(st, [START_CHAR, ToChar(4), ToChar(5), c])
    ensures rx.phase == Wait && rx.quote == st.quote && rx.lastN == 5 && rx.at == st.at
    ensures rx.replies == st.replies + [Nack(5)]
  {
    var bad := [START_CHAR, ToChar(4), ToChar(5), c];
    ShortRefusal(ToChar(4), ToChar(5), c);
    RefusedFrame(st, bad);
    rx := FeedAll(st, bad);
  }

  lemma BreakIn(st: Rx, x: Byte)
    requires st.phase == Wait && st.lastN != 1
    ensures var rx := FeedAll(st, Frame(ShortSession(x)[1]));
            rx.phase == Done && rx.at == st.at && rx.replies == st.replies + [Ack(1)]
  {
    Acceptance(st, ShortSession(x)[1]);
  }

  lemma OneByteIn(st: Rx, x: Byte) returns (rx: Rx)
    requires st.phase == Wait && !Control(x) && x != st.quote && st.lastN != 0 && !st.at.escape
    ensures rx == FeedAll(st, Frame(ShortSession(x)[0]))
    ensures rx.phase == Wait && rx.quote == st.quote && rx.lastN == 0 && rx.saved == st.at
    ensures rx.at == Mark(st.at.addr + 1, false) && rx.replies == st.replies + [Ack(0)]
  {
    rx := Received(st, ShortSession(x)[0]);
    Acceptance(st, ShortSession(x)[0]);
    assert [x][..0] == [];
    assert forall m: map<int, Byte>, a, q :: DataRun(m, a, q, [x]) == DataChar(m, a, q, x);
  }

  // ---------------------------------------------------------------- progress

  lemma RunMore(ps: seq<Packet>, addr: int, es: seq<Event>, e: Event)
    requires PossibleRun(ps, addr, es) && Possible(ps, Run(ps, addr, es), e)
    ensures PossibleRun(ps, addr, es + [e]) && Run(ps, addr, es + [e]) == Step(ps, Run(ps, addr, es), e)
  {
    var all := es + [e];
    assert all[..|es|] == es;
    forall k | 0 <= k < |all|
      ensures Possible(ps, Run(ps, addr, all[..k]), all[k])
    {
      if k < |es| {
        assert all[..k] == es[..k];
      }
    }
  }

  /** From a state in which the receiver waits, an intact frame whose reply arrives moves the sender on. */
  lemma FrameAdvances(ps: seq<Packet>, addr: int, es: seq<Event>, noise: seq<Byte>)
    requires Session(ps) && PossibleRun(ps, addr, es) && NoMarks(noise)
    requires var w := Run(ps, addr, es); w.sent < |ps| && w.rx.phase == Wait
    ensures var w := Run(ps, addr, es);
            var e := Event(noise, Frame(ps[w.sent]), true);
            PossibleRun(ps, addr, es + [e]) && Run(ps, addr, es + [e]).sent == w.sent + 1
  {
    var w := Run(ps, addr, es);
    var e := Event(noise, Frame(ps[w.sent]), true);
    InvAlways(ps, addr, es);
    if w.heard != [] {
      CutStep(ps, addr, w.sent, w.idle, w.heard);
    }
    RunMore(ps, addr, es, e);
    FeedConcat(w.rx, noise, e.frame);
    SkipNoise(w.rx, noise);
    Acceptance(w.rx, ps[w.sent]);
    AcceptStep(ps, addr, w.sent, w.rx);
  }

  /** If the reply to the break packet is lost, the receiver returns and the sender waits for ever. */
  lemma LostLastAck(ps: seq<Packet>, addr: int, es: seq<Event>, noise: seq<Byte>, more: seq<Event>)
    requires Session(ps) && PossibleRun(ps, addr, es) && NoMarks(noise)
    requires var w := Run(ps, addr, es); w.sent == |ps| - 1 && w.rx.phase == Wait
    ensures var w := Run(ps, addr, es);
            var es' := es + [Event(noise, Frame(ps[w.sent]), false)];
            && PossibleRun(ps, addr, es') && Run(ps, addr, es').rx.phase == Done
            && Run(ps, addr, es' + more).sent == w.sent
  {
    var w := Run(ps, addr, es);
    var e := Event(noise, Frame(ps[w.sent]), false);
    InvAlways(ps, addr, es);
    if w.heard != [] {
      CutStep(ps, addr, w.sent, w.idle, w.heard);
    }
    RunMore(ps, addr, es, e);
    FeedConcat(w.rx, noise, e.frame);
    SkipNoise(w.rx, noise);
    Acceptance(w.rx, ps[w.sent]);
    ReturnedForGood(ps, addr, es + [e], more);
  }

  /** A receiver left in the middle of a packet is brought back by sending the packet again. */
  lemma FrameWakes(ps: seq<Packet>, addr: int, es: seq<Event>, replyArrives: bool)
    requires Session(ps) && PossibleRun(ps, addr, es) && Run(ps, addr, es).heard != []
    ensures var w := Run(ps, addr, es);
            && w.sent < |ps|
            && var e := Event([], Frame(ps[w.sent]), replyArrives);
               PossibleRun(ps, addr, es + [e]) && Run(ps, addr, es + [e]).rx.phase == Wait
               && Run(ps, addr, es + [e]).sent == w.sent
  {
    var w := Run(ps, addr, es);
    InvAlways(ps, addr, es);
    var e := Event([], Frame(ps[w.sent]), replyArrives);
    SentAgain(w.heard, ps[w.sent]);
    assert OnLine(e) == Frame(ps[w.sent]);
    RunMore(ps, addr, es, e);
    CutStep(ps, addr, w.sent, w.idle, w.heard);
    FeedConcat(w.idle, w.heard, OnLine(e));
    RejectStep(ps, addr, w.sent, w.idle, w.heard + OnLine(e));
  }

  /** A receiver that has returned answers no more. */
  lemma {:induction false} ReturnedForGood(ps: seq<Packet>, addr: int, es: seq<Event>, more: seq<Event>)
    requires Run(ps, addr, es).rx.phase == Done
    ensures Run(ps, addr, es + more).sent == Run(ps, addr, es).sent && Run(ps, addr, es + more).rx == Run(ps, addr, es).rx
  {
    if more == [] {
      assert es + more == es;
    } else {
      var init, e := more[..|more| - 1], more[|more| - 1];
      ReturnedForGood(ps, addr, es, init);
      assert es + more == es + init + [e];
      RunSnoc(ps, addr, es + init, e);
      StepWhenReturned(ps, Run(ps, addr, es + init), e);
    }
  }

  lemma RunSnoc(ps: seq<Packet>, addr: int, es: seq<Event>, e: Event)
    ensures Run(ps, addr, es + [e]) == Step(ps, Run(ps, addr, es), e)
  {
    assert (es + [e])[..|es|] == es;
  }

  lemma StepWhenReturned(ps: seq<Packet>, w: World, e: Event)
    requires w.rx.phase == Done
    ensures Step(ps, w, e).sent == w.sent && Step(ps, w, e).rx == w.rx
  {
    StaysStopped(w.rx, OnLine(e));
  }

  /**
   Whether the sender can still move on: it can exactly if the receiver has not returned. If the acknowledgement of
   the break packet was lost, the sender waits for ever; at no other packet can this happen.
   */
  lemma CanAdvance(ps: seq<Packet>, addr: int, es: seq<Event>)
    requires Session(ps) && PossibleRun(ps, addr, es) && Run(ps, addr, es).sent < |ps|
    ensures var w := Run(ps, addr, es);
            && ((exists more :: PossibleRun(ps, addr, es + more) && Run(ps, addr, es + more).sent > w.sent) <==>
                w.rx.phase != Done)
            && (w.rx.phase == Done ==> w.sent == |ps| - 1)
  {
    var w := Run(ps, addr, es);
    InvAlways(ps, addr, es);
    if w.rx.phase == Done {
      if w.heard != [] {
        CutStep(ps, addr, w.sent, w.idle, w.heard);
      }
      forall more | PossibleRun(ps, addr, es + more)
        ensures Run(ps, addr, es + more).sent == w.sent
      {
        ReturnedForGood(ps, addr, es, more);
      }
    } else {
      var more := Advance(ps, addr, es);
    }
  }

  lemma Advance(ps: seq<Packet>, addr: int, es: seq<Event>) returns (more: seq<Event>)
    requires Session(ps) && PossibleRun(ps, addr, es) && Run(ps, addr, es).sent < |ps|
    requires Run(ps, addr, es).rx.phase != Done
    ensures PossibleRun(ps, addr, es + more) && Run(ps, addr, es + more).sent > Run(ps, addr, es).sent
  {
    var w := Run(ps, addr, es);
    InvAlways(ps, addr, es);
    var frame := Frame(ps[w.sent]);
    if w.heard == [] {
      FrameAdvances(ps, addr, es, []);
      more := [Event([], frame, true)];
    } else {
      FrameWakes(ps, addr, es, true);
      more := TwoFrames(ps, addr, es, Event([], frame, true));
    }
  }

  lemma TwoFrames(ps: seq<Packet>, addr: int, es: seq<Event>, e: Event) returns (more: seq<Event>)
    requires Session(ps) && PossibleRun(ps, addr, es + [e]) && Run(ps, addr, es + [e]).sent < |ps|
    requires Run(ps, addr, es + [e]).rx.phase == Wait
    ensures PossibleRun(ps, addr, es + more) && Run(ps, addr, es + more).sent > Run(ps, addr, es + [e]).sent
  {
    var w := Run(ps, addr, es + [e]);
    var f := Event([], Frame(ps[w.sent]), true);
    FrameAdvances(ps, addr, es + [e], []);
    more := [e, f];
    assert es + [e] + [f] == es + more;
  }
}
