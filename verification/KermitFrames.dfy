/**
 Kermit packets on the line: how a sender frames them, where a receiver can see that a frame is
 damaged, and what the receiver does with an intact and with a damaged frame.
 */
module KermitFrames {
  import opened Basics
  import opened Kermit

  datatype Packet = Packet(num: nat, kind: Byte, data: seq<Byte>, extended: bool)

  ghost predicate NoControl(s: seq<Byte>) {
    forall i :: 0 <= i < |s| ==> !Control(s[i])
  }

  /** Characters the receiver passes over while it waits for a packet. */
  ghost predicate NoMarks(s: seq<Byte>) {
    forall i :: 0 <= i < |s| ==> s[i] != START_CHAR && s[i] != ETX_CHAR
  }

  ghost predicate ValidPacket(p: Packet) {
    && p.num < 64
    && !Control(p.kind)
    && NoControl(p.data)
    && (if p.extended then |p.data| + 1 <= 94 * 95 + 94 else |p.data| + 3 <= 94)
  }

  function Header(p: Packet): seq<Byte> {
    if p.extended then
      var h := [START_CHAR, ToChar(0), ToChar(p.num), p.kind, ToChar((|p.data| + 1) / 95), ToChar((|p.data| + 1) % 95)];
      h + [CheckChar(Sum(h[1..]))]
    else
      [START_CHAR, ToChar(|p.data| + 3), ToChar(p.num), p.kind]
  }

  function Frame(p: Packet): seq<Byte> {
    var s := Header(p) + p.data;
    s + [CheckChar(Sum(s[1..])), END_CHAR]
  }

  predicate Extended(c: seq<Byte>)
    requires |c| >= 2
  {
    UnToChar(c[1]) == 0
  }

  /** Starts like a frame, and is long enough for the shortest packet of its form. */
  ghost predicate Shaped(c: seq<Byte>) {
    && |c| >= 6 && c[0] == START_CHAR && !Control(c[1]) && !Control(c[2])
    && (Extended(c) ==> |c| >= 9)
  }

  function HeadLen(c: seq<Byte>): nat
    requires |c| >= 2
  {
    if Extended(c) then 7 else 4
  }

  /** Data characters plus block check still to come after the header, as the frame declares them. */
  function Declared(c: seq<Byte>): int
    requires |c| >= 6
  {
    if Extended(c) then UnToChar(c[4]) * 95 + UnToChar(c[5]) else UnToChar(c[1]) - 2
  }

  /** Index of the block check character. */
  function CheckAt(c: seq<Byte>): nat
    requires |c| >= 6
  {
    HeadLen(c) + if Declared(c) > 1 then Declared(c) - 1 else 0
  }

  /** The characters up to index i show that the frame is damaged: a control character, a wrong
      header or block check, or a wrong terminator. */
  predicate FailsAt(c: seq<Byte>, i: nat)
    requires |c| >= 6 && i < |c|
  {
    || (i < HeadLen(c) && Control(c[i]))
    || (Extended(c) && i == 6 && c[i] != CheckChar(Sum(c[1..i])))
    || (HeadLen(c) <= i <= CheckAt(c) && Control(c[i]))
    || (i == CheckAt(c) && c[i] != CheckChar(Sum(c[1..i])))
    || (i == CheckAt(c) + 1 && c[i] != END_CHAR)
  }

  ghost predicate Clean(c: seq<Byte>, k: nat)
    requires |c| >= 6 && k <= |c|
  {
    forall i :: 3 <= i < k ==> !FailsAt(c, i)
  }

  function DataRun(mem: map<int, Byte>, at: Mark, quote: Byte, d: seq<Byte>): (map<int, Byte>, Mark) {
    if d == [] then (mem, at)
    else
      var (m, a) := DataRun(mem, at, quote, d[..|d| - 1]);
      DataChar(m, a, quote, d[|d| - 1])
  }

  /** Memory and decoder position once `d` has been received in a packet of the given kind. */
  function Delivered(st: Rx, kind: Byte, d: seq<Byte>): Rx {
    var (mem, at) := if kind == DATA_TYPE then DataRun(st.mem, st.at, st.quote, d) else (st.mem, st.at);
    st.(mem := mem, at := at)
  }

  function Params(kind: Byte, d: seq<Byte>): seq<Byte> {
    if kind == SEND_TYPE then d else []
  }

  /** The receiver after the first k characters of a frame that shows no damage so far. */
  function Expect(st: Rx, c: seq<Byte>, k: nat): Rx
    requires |c| >= 6 && 3 <= k <= |c| && k <= CheckAt(c) + 1
  {
    var base := Resume(st, UnToChar(c[2]));
    var h := HeadLen(c);
    if k == 3 then base.(phase := Kind(Sum(c[1..3]), UnToChar(c[1]) - 1))
    else if k < h then
      base.(phase := if k == 4 then LenHi(Sum(c[1..4]), c[3])
                     else if k == 5 then LenLo(Sum(c[1..5]), c[3], UnToChar(c[4]))
                     else HeadCheck(Sum(c[1..6]), c[3], Declared(c)))
    else if k <= CheckAt(c) then
      Delivered(base, c[3], c[h..k]).(phase := Body(Sum(c[1..k]), c[3], Declared(c) - (k - h), Params(c[3], c[h..k])))
    else
      Delivered(base, c[3], c[h..k - 1]).(phase := Eol(c[3], Params(c[3], c[h..k - 1])))
  }

  lemma SumSnoc(c: seq<Byte>, k: nat)
    requires 1 <= k < |c|
    ensures Sum(c[1..k + 1]) == Sum(c[1..k]) + c[k]
  {
    assert c[1..k + 1][..k - 1 + 1 - 1] == c[1..k];
  }

  lemma {:induction false} Opening(st: Rx, c: seq<Byte>)
    requires st.phase == Wait && Shaped(c)
    ensures FeedAll(st, c[..3]) == Expect(st, c, 3)
  {
    assert c[..3][..2] == c[..2] && c[..2][..1] == c[..1] && c[..1][..0] == [];
    assert FeedAll(st, c[..1][..0]) == st;
    SumSnoc(c, 1);
    SumSnoc(c, 2);
    assert c[1..1] == [];
    var s1 := FeedAll(st, c[..1]);
    var s2 := FeedAll(st, c[..2]);
    assert s1 == st.(phase := Len);
    assert s2 == st.(phase := Num(c[1], UnToChar(c[1])));
  }

  lemma {:induction false} Progress(st: Rx, c: seq<Byte>, k: nat)
    requires st.phase == Wait && Shaped(c)
    requires 3 <= k <= |c| && k <= CheckAt(c) + 1 && Clean(c, k)
    ensures FeedAll(st, c[..k]) == Expect(st, c, k)
  {
    if k == 3 {
      Opening(st, c);
    } else {
      Progress(st, c, k - 1);
      assert c[..k][..k - 1] == c[..k - 1];
      SumSnoc(c, k - 1);
      assert !FailsAt(c, k - 1);
      ProgressStep(st, c, k);
    }
  }

  lemma ProgressStep(st: Rx, c: seq<Byte>, k: nat)
    requires st.phase == Wait && Shaped(c)
    requires 4 <= k <= |c| && k <= CheckAt(c) + 1 && !FailsAt(c, k - 1)
    ensures Feed(Expect(st, c, k - 1), c[k - 1]) == Expect(st, c, k)
  {
    if k <= HeadLen(c) {
      HeaderStep(st, c, k);
    } else if k <= CheckAt(c) {
      DataStep(st, c, k);
    } else {
      CheckStep(st, c, k);
    }
  }

  lemma HeaderStep(st: Rx, c: seq<Byte>, k: nat)
    requires Shaped(c) && 4 <= k <= |c| && k <= HeadLen(c) && !FailsAt(c, k - 1)
    ensures k <= CheckAt(c) + 1 && Feed(Expect(st, c, k - 1), c[k - 1]) == Expect(st, c, k)
  {
    SumSnoc(c, k - 1);
    assert c[HeadLen(c)..HeadLen(c)] == [];
  }

  lemma CheckStep(st: Rx, c: seq<Byte>, k: nat)
    requires Shaped(c) && HeadLen(c) < k == CheckAt(c) + 1 <= |c| && !FailsAt(c, k - 1)
    ensures Feed(Expect(st, c, k - 1), c[k - 1]) == Expect(st, c, k)
  {
  }

  lemma SliceSnoc(c: seq<Byte>, h: nat, k: nat)
    requires h < k <= |c|
    ensures c[h..k] == c[h..k - 1] + [c[k - 1]]
    ensures c[h..k][..|c[h..k]| - 1] == c[h..k - 1]
  {
  }

  lemma DataStep(st: Rx, c: seq<Byte>, k: nat)
    requires Shaped(c)
    requires HeadLen(c) < k <= |c| && k <= CheckAt(c) && !Control(c[k - 1])
    ensures Feed(Expect(st, c, k - 1), c[k - 1]) == Expect(st, c, k)
  {
    SumSnoc(c, k - 1);
    SliceSnoc(c, HeadLen(c), k);
  }

  ghost predicate SameBelow(m: map<int, Byte>, m': map<int, Byte>, addr: int) {
    forall a :: a < addr ==> (a in m <==> a in m') && (a in m ==> m[a] == m'[a])
  }

  /** Decoding only writes at and above the position it starts from. */
  lemma {:induction false} DataRunKeeps(mem: map<int, Byte>, at: Mark, quote: Byte, d: seq<Byte>)
    ensures var (mem', at') := DataRun(mem, at, quote, d); SameBelow(mem, mem', at.addr) && at'.addr >= at.addr
  {
    if d != [] {
      DataRunKeeps(mem, at, quote, d[..|d| - 1]);
    }
  }

  lemma {:induction false} SkipNoise(st: Rx, s: seq<Byte>)
    requires st.phase == Wait && NoMarks(s)
    ensures FeedAll(st, s) == st
  {
    if s != [] {
      SkipNoise(st, s[..|s| - 1]);
    }
  }

  /** What the receiver makes of an intact frame. */
  function Received(st: Rx, p: Packet): Rx {
    Accept(Delivered(Resume(st, p.num), p.kind, p.data), p.kind, Params(p.kind, p.data))
  }

  lemma CharRoundTrip(x: nat)
    requires x <= 94
    ensures UnToChar(ToChar(x)) == x && !Control(ToChar(x)) && ToChar(x) == x + 0x20
  {
  }

  lemma CheckCharPlain(sum: nat)
    ensures !Control(CheckChar(sum)) && CheckChar(sum) == Fold(sum) + 0x20
  {
    CharRoundTrip(Fold(sum));
  }

  lemma FrameLayout(p: Packet)
    requires ValidPacket(p)
    ensures var c := Frame(p); var h := |Header(p)|;
            && |c| == h + |p.data| + 2
            && c[..h] == Header(p) && c[h..h + |p.data|] == p.data
            && c[|c| - 2] == CheckChar(Sum(c[1..|c| - 2])) && c[|c| - 1] == END_CHAR
  {
    var c := Frame(p);
    var body := Header(p) + p.data;
    assert c[..|c| - 2] == body;
    assert c[1..|c| - 2] == body[1..];
  }

  lemma FrameHeader(p: Packet)
    requires ValidPacket(p)
    ensures var c := Frame(p);
            && Shaped(c) && UnToChar(c[2]) == p.num && c[3] == p.kind
            && Extended(c) == p.extended && HeadLen(c) == |Header(p)| && Declared(c) == |p.data| + 1
            && (p.extended ==> c[6] == CheckChar(Sum(c[1..6])))
            && (forall i :: 1 <= i < HeadLen(c) ==> !Control(c[i]))
  {
    FrameLayout(p);
    var c, h := Frame(p), Header(p);
    assert forall i :: 0 <= i < |h| ==> c[i] == c[..|h|][i];
    assert c[1..|h|] == h[1..];
    CharRoundTrip(p.num);
    if p.extended {
      ExtendedHeader(p);
      assert c[1..6] == h[1..6];
    } else {
      CharRoundTrip(|p.data| + 3);
    }
  }

  lemma ExtendedHeader(p: Packet)
    requires ValidPacket(p) && p.extended
    ensures var h := Header(p);
            && |h| == 7 && UnToChar(h[1]) == 0 && UnToChar(h[4]) * 95 + UnToChar(h[5]) == |p.data| + 1
            && h[6] == CheckChar(Sum(h[1..6])) && NoControl(h[1..])
  {
    var h, n := Header(p), |p.data| + 1;
    CharRoundTrip(0);
    CharRoundTrip(p.num);
    CharRoundTrip(n / 95);
    CharRoundTrip(n % 95);
    assert h[..6][1..] == h[1..6];
    CheckCharPlain(Sum(h[1..6]));
  }

  lemma FrameIsClean(p: Packet)
    requires ValidPacket(p)
    ensures |Frame(p)| >= 6 && Clean(Frame(p), |Frame(p)|)
  {
    FrameLayout(p);
    FrameHeader(p);
    var c := Frame(p);
    CheckCharPlain(Sum(c[1..|c| - 2]));
    forall i | HeadLen(c) <= i < CheckAt(c)
      ensures !Control(c[i])
    {
      assert c[i] == c[HeadLen(c)..CheckAt(c)][i - HeadLen(c)];
    }
  }

  lemma Acceptance(st: Rx, p: Packet)
    requires st.phase == Wait && ValidPacket(p)
    ensures FeedAll(st, Frame(p)) == Received(st, p)
  {
    FrameLayout(p);
    FrameHeader(p);
    FrameIsClean(p);
    var c := Frame(p);
    Progress(st, c, |c| - 1);
    FeedSplit(st, c, |c| - 1);
    Terminator(st, p);
    assert FeedAll(st, c) == Feed(Expect(st, c, |c| - 1), c[|c| - 1]);
  }

  lemma Terminator(st: Rx, p: Packet)
    requires ValidPacket(p)
    ensures |Frame(p)| >= 6 && |Frame(p)| - 1 <= CheckAt(Frame(p)) + 1
    ensures Feed(Expect(st, Frame(p), |Frame(p)| - 1), END_CHAR) == Received(st, p)
  {
    FrameLayout(p);
    FrameHeader(p);
  }

  /** The damage shows at character e, and what is left behind it holds no packet start; x is any continuation to a full
      frame's length. */
  ghost predicate RefusedAt(c: seq<Byte>, x: seq<Byte>, e: nat) {
    Shaped(c + x) && 3 <= e < |c| && FailsAt(c + x, e) && Clean(c + x, e) && NoMarks(c[e + 1..])
  }

  /** A frame that the receiver refuses, whatever was sent. */
  ghost predicate IsRefused(c: seq<Byte>) {
    exists x, e :: RefusedAt(c, x, e)
  }

  ghost predicate DamagedAt(c: seq<Byte>, x: seq<Byte>, p: Packet, e: nat) {
    RefusedAt(c, x, e) && c[2] == Frame(p)[2]
  }

  /** A copy of p's frame whose sequence number arrived and whose damage the receiver can see; characters may be changed,
      lost or inserted. */
  ghost predicate Damaged(c: seq<Byte>, p: Packet) {
    exists x, e :: DamagedAt(c, x, p, e)
  }

  ghost predicate CutBefore(c: seq<Byte>, x: seq<Byte>, p: Packet) {
    |c| >= 3 && Shaped(c + x) && c[2] == Frame(p)[2] && |c| <= CheckAt(c + x) + 1 && Clean(c + x, |c|)
  }

  /** A copy of p's frame that stopped after its first three characters or later, with no damage seen so far. */
  ghost predicate Cut(c: seq<Byte>, p: Packet) {
    exists x :: CutBefore(c, x, p)
  }

  /** A frame that is refused is answered with a NAK for the number it carries, leaves the decoder at the checkpoint of
      that number and memory below the checkpoint as it was. */
  lemma RefusedFrame(st: Rx, c: seq<Byte>)
    requires st.phase == Wait && IsRefused(c)
    ensures |c| > 3 && Restored(st, UnToChar(c[2]), FeedAll(st, c))
  {
    var x, e :| RefusedAt(c, x, e);
    RejectAt(st, c, x, e);
    ErrorRestores(st, c + x, e);
  }

  /** So is a damaged frame of a packet, with the packet's number. */
  lemma Rejection(st: Rx, c: seq<Byte>, p: Packet)
    requires st.phase == Wait && ValidPacket(p) && Damaged(c, p)
    ensures Restored(st, p.num, FeedAll(st, c))
  {
    var x, e :| DamagedAt(c, x, p, e);
    FrameHeader(p);
    RefusedFrame(st, c);
  }

  /** The receiver in the middle of a packet that began with number n. */
  ghost predicate Midway(st: Rx, n: int, r: Rx) {
    var base := Resume(st, n);
    && r.phase != Wait && r.phase != Done && r.phase != Aborted
    && r.replies == st.replies && SameBelow(st.mem, r.mem, base.saved.addr)
  }

  /** A frame that was cut leaves the receiver waiting for the rest, with memory below the checkpoint as it was. */
  lemma CutFrame(st: Rx, c: seq<Byte>, p: Packet)
    requires st.phase == Wait && ValidPacket(p) && Cut(c, p)
    ensures Midway(st, p.num, FeedAll(st, c))
  {
    var x :| CutBefore(c, x, p);
    var d := c + x;
    FrameHeader(p);
    Progress(st, d, |c|);
    assert d[..|c|] == c;
    var base := Resume(st, p.num);
    if HeadLen(d) <= |c| {
      DataRunKeeps(base.mem, base.at, base.quote, d[HeadLen(d)..if |c| <= CheckAt(d) then |c| else |c| - 1]);
    }
  }

  ghost predicate Restored(st: Rx, n: int, r: Rx) {
    var base := Resume(st, n);
    && r == base.(mem := r.mem, at := base.saved, replies := st.replies + [Nack(n)])
    && SameBelow(st.mem, r.mem, base.saved.addr)
  }

  lemma ErrorRestores(st: Rx, c: seq<Byte>, e: nat)
    requires st.phase == Wait && Shaped(c) && 3 <= e < |c| && e <= CheckAt(c) + 1
    ensures Restored(st, UnToChar(c[2]), PacketError(Expect(st, c, e)))
  {
    var base := Resume(st, UnToChar(c[2]));
    if HeadLen(c) <= e {
      DataRunKeeps(base.mem, base.at, base.quote, c[HeadLen(c)..if e <= CheckAt(c) then e else e - 1]);
    }
  }

  lemma FailStep(st: Rx, c: seq<Byte>, e: nat)
    requires Shaped(c) && 3 <= e < |c| && FailsAt(c, e)
    ensures e <= CheckAt(c) + 1 && Feed(Expect(st, c, e), c[e]) == PacketError(Expect(st, c, e))
  {
  }

  lemma FeedSplit(st: Rx, c: seq<Byte>, k: nat)
    requires k < |c|
    ensures FeedAll(st, c[..k + 1]) == Feed(FeedAll(st, c[..k]), c[k])
    ensures FeedAll(st, c) == FeedAll(FeedAll(st, c[..k + 1]), c[k + 1..])
  {
    SliceSnoc(c, 0, k + 1);
    FeedConcat(st, c[..k + 1], c[k + 1..]);
    assert c == c[..k + 1] + c[k + 1..];
  }

  lemma RejectAt(st: Rx, c: seq<Byte>, x: seq<Byte>, e: nat)
    requires st.phase == Wait && Shaped(c + x) && 3 <= e < |c|
    requires FailsAt(c + x, e) && Clean(c + x, e) && NoMarks(c[e + 1..])
    ensures e <= CheckAt(c + x) + 1 && FeedAll(st, c) == PacketError(Expect(st, c + x, e))
  {
    var d := c + x;
    FailStep(st, d, e);
    Progress(st, d, e);
    assert d[..e] == c[..e];
    FeedSplit(st, c, e);
    SkipNoise(FeedAll(st, c[..e + 1]), c[e + 1..]);
  }

  /** Up to where two texts agree they fail alike. */
  lemma FailAlike(c: seq<Byte>, d: seq<Byte>, k: nat, i: nat)
    requires |c| >= 6 && |d| >= 6 && 3 <= k <= |c| && k <= |d| && c[..k] == d[..k] && i < k
    ensures FailsAt(c, i) == FailsAt(d, i)
    ensures k >= 6 || !Extended(c) ==> CheckAt(c) == CheckAt(d)
  {
    assert forall j :: 0 <= j < k ==> c[j] == c[..k][j] && d[j] == d[..k][j];
    assert i > 0 ==> c[1..i] == c[..k][1..i] && d[1..i] == d[..k][1..i];
  }

  /** A frame that was cut and then sent again is damage: the second start character ends the first packet. */
  lemma SentAgain(c: seq<Byte>, p: Packet)
    requires ValidPacket(p) && Cut(c, p)
    ensures Damaged(c + Frame(p), p)
  {
    var x :| CutBefore(c, x, p);
    FrameLayout(p);
    FrameHeader(p);
    FrameHasNoMarks(p);
    var d, e := c + Frame(p), |c|;
    assert d[..e] == c == (c + x)[..e] && d + [] == d;
    assert forall i :: 0 <= i < e ==> d[i] == (c + x)[i];
    assert d[e] == START_CHAR && d[e + 1..] == Frame(p)[1..];
    assert Shaped(d);
    forall i | 3 <= i < e
      ensures !FailsAt(d, i)
    {
      FailAlike(c + x, d, e, i);
    }
    FailAlike(c + x, d, e, 0);
    assert DamagedAt(d, [], p, e);
  }

  /** x and y differ in exactly one of their eight bits. */
  ghost predicate OneBitApart(x: Byte, y: Byte) {
    exists b :: b in {1, 2, 4, 8, 16, 32, 64, 128} && (x == y + b || y == x + b) && x / b % 2 != y / b % 2
  }

  /** The 6-bit block check notices a change of its sum by any power of two up to 128. */
  lemma FoldNotices(sum: nat, sum': nat, b: nat)
    requires b in {1, 2, 4, 8, 16, 32, 64, 128}
    requires sum' == sum + b
    ensures Fold(sum) != Fold(sum')
  {
    var q, lo := sum / 64, sum % 64;
    FoldParts(sum, q, lo);
    if b >= 64 {
      FoldParts(sum', q + b / 64, lo);
    } else if lo + b < 64 {
      FoldParts(sum', q, lo + b);
    } else {
      FoldParts(sum', q + 1, lo + b - 64);
    }
  }

  lemma FoldParts(sum: nat, q: nat, lo: nat)
    requires sum == 64 * q + lo && lo < 64
    ensures Fold(sum) == if lo + q % 4 < 64 then lo + q % 4 else lo + q % 4 - 64
  {
    assert sum / 64 == q;
    assert sum + q % 4 == 64 * q + (lo + q % 4);
  }

  /** A changed character before index k changes the check expected at k. */
  lemma CheckNotices(f: seq<Byte>, j: nat, v: Byte, k: nat)
    requires 1 <= j < k < |f| && OneBitApart(f[j], v)
    ensures CheckChar(Sum(f[j := v][1..k])) != CheckChar(Sum(f[1..k]))
  {
    SumUpdate(f[1..k], j - 1, v);
    assert f[1..k][j - 1 := v] == f[j := v][1..k];
    var b: int :| b in {1, 2, 4, 8, 16, 32, 64, 128} && (f[j] == v + b || v == f[j] + b);
    var s, s' := Sum(f[1..k]), Sum(f[j := v][1..k]);
    if s' == s + b {
      FoldNotices(s, s', b);
    } else {
      FoldNotices(s', s, b);
    }
    CheckCharPlain(s);
    CheckCharPlain(s');
  }

  lemma FrameHasNoMarks(p: Packet)
    requires ValidPacket(p)
    ensures NoMarks(Frame(p)[1..])
    ensures forall i :: 3 <= i < |Frame(p)| - 1 ==> !Control(Frame(p)[i])
  {
    FrameLayout(p);
    FrameHeader(p);
    FrameIsClean(p);
    var c := Frame(p);
    forall i | 3 <= i < |c|
      ensures !Control(c[i]) || c[i] == END_CHAR
      ensures i < |c| - 1 ==> !Control(c[i])
    {
      assert !FailsAt(c, i);
    }
  }

  lemma {:induction false} FirstFailure(c: seq<Byte>, k: nat) returns (e: nat)
    requires |c| >= 6 && 3 <= k < |c| && FailsAt(c, k)
    ensures 3 <= e <= k && FailsAt(c, e) && Clean(c, e)
    decreases k
  {
    if j :| 3 <= j < k && FailsAt(c, j) {
      e := FirstFailure(c, j);
    } else {
      e := k;
    }
  }

  /** Printable characters up to a terminator in last place. */
  ghost predicate LooksWhole(c: seq<Byte>) {
    && |c| >= 6 && c[0] == START_CHAR && c[|c| - 1] == END_CHAR
    && forall i :: 1 <= i < |c| - 1 ==> !Control(c[i])
  }

  /** Such a text fails wherever its length field puts the block check, unless that is where it is, and right. */
  lemma WholeFails(c: seq<Byte>, d: seq<Byte>) returns (k: nat)
    requires LooksWhole(c) && |c| <= |d| && d[..|c|] == c
    requires c[|c| - 2] != CheckChar(Sum(c[1..|c| - 2]))
    ensures 3 <= k < |c| && FailsAt(d, k)
  {
    assert forall i :: 0 <= i < |c| ==> d[i] == d[..|c|][i] == c[i];
    var m := CheckAt(d);
    k := if m >= |c| - 1 then |c| - 1 else if m == |c| - 2 then m else m + 1;
    if m == |c| - 2 {
      assert d[1..m] == c[1..m];
    }
  }

  /** Flipping one bit of a frame, so that it stays printable, breaks the block check. */
  lemma FlipBreaksCheck(f: seq<Byte>, j: nat, v: Byte)
    requires |f| >= 6 && 1 <= j < |f| - 1 && OneBitApart(f[j], v)
    requires f[|f| - 2] == CheckChar(Sum(f[1..|f| - 2]))
    ensures f[j := v][|f| - 2] != CheckChar(Sum(f[j := v][1..|f| - 2]))
  {
    if j < |f| - 2 {
      CheckNotices(f, j, v, |f| - 2);
    } else {
      assert f[j := v][1..|f| - 2] == f[1..|f| - 2];
    }
  }

  /** What the frames of valid packets have in common. */
  ghost predicate Sealed(f: seq<Byte>) {
    && Shaped(f) && LooksWhole(f) && NoMarks(f[1..]) && Clean(f, |f|)
    && CheckAt(f) == |f| - 2 && f[|f| - 2] == CheckChar(Sum(f[1..|f| - 2]))
  }

  lemma FrameIsSealed(p: Packet)
    requires ValidPacket(p)
    ensures Sealed(Frame(p))
  {
    FrameLayout(p);
    FrameHeader(p);
    FrameIsClean(p);
    FrameHasNoMarks(p);
  }

  /** A control character, or no terminator, shows at once. */
  lemma FlipOnTheSpot(f: seq<Byte>, j: nat, v: Byte)
    requires Sealed(f) && 3 <= j < |f| && v != f[j] && (j == |f| - 1 || Control(v))
    ensures RefusedAt(f[j := v], [], j)
  {
    var c := f[j := v];
    assert c + [] == c && c[j + 1..] == f[1..][j..];
    CleanBefore(f, j, v);
    FailsHere(f, j, v);
  }

  lemma CleanBefore(f: seq<Byte>, j: nat, v: Byte)
    requires Sealed(f) && 3 <= j < |f|
    ensures Clean(f[j := v], j)
  {
    var c := f[j := v];
    forall i | 3 <= i < j
      ensures !FailsAt(c, i)
    {
      FailAlike(f, c, j, i);
    }
  }

  lemma FailsHere(f: seq<Byte>, j: nat, v: Byte)
    requires |f| >= 6 && CheckAt(f) == |f| - 2 && f[|f| - 1] == END_CHAR
    requires 3 <= j < |f| && v != f[j] && (j == |f| - 1 || Control(v))
    ensures FailsAt(f[j := v], j)
  {
  }

  /** A printable character shows at the latest at the block check or the terminator. */
  lemma FlipBehind(f: seq<Byte>, j: nat, v: Byte) returns (x: seq<Byte>, e: nat)
    requires Sealed(f) && 1 <= j < |f| - 1 && OneBitApart(f[j], v) && !Control(v)
    ensures RefusedAt(f[j := v], x, e)
  {
    var c := f[j := v];
    x := [END_CHAR, END_CHAR, END_CHAR];
    FlipBreaksCheck(f, j, v);
    var k := WholeFails(c, c + x);
    e := FirstFailure(c + x, k);
    NoMarksBehind(f, j, v, e);
  }

  lemma NoMarksBehind(f: seq<Byte>, j: nat, v: Byte, e: nat)
    requires 1 <= j < |f| && e < |f| && NoMarks(f[1..]) && !Control(v)
    ensures NoMarks(f[j := v][e + 1..])
  {
    assert forall i :: 1 <= i < |f| ==> f[i] == f[1..][i - 1];
  }

  lemma FlipIsSeen(f: seq<Byte>, j: nat, v: Byte) returns (x: seq<Byte>, e: nat)
    requires Sealed(f) && 1 <= j < |f| && OneBitApart(f[j], v) && (j < 3 ==> !Control(v))
    ensures RefusedAt(f[j := v], x, e)
  {
    if j == |f| - 1 || Control(v) {
      FlipOnTheSpot(f, j, v);
      x, e := [], j;
    } else {
      x, e := FlipBehind(f, j, v);
    }
  }

  /** Flipping any one bit of any character after the start is damage the receiver sees; the length and the sequence
      number have to stay printable for that. */
  lemma OneBitIsDamage(p: Packet, j: nat, v: Byte)
    requires ValidPacket(p) && 1 <= j < |Frame(p)| && OneBitApart(Frame(p)[j], v) && (j < 3 ==> !Control(v))
    ensures IsRefused(Frame(p)[j := v]) && (j != 2 ==> Damaged(Frame(p)[j := v], p))
  {
    FrameIsSealed(p);
    var x, e := FlipIsSeen(Frame(p), j, v);
    assert j != 2 ==> DamagedAt(Frame(p)[j := v], x, p, e);
  }

  /** Two packets as they stand on the line: a data packet with number 5 and the byte 'A', and an empty long one. */
  lemma KnownFrames()
    ensures Frame(Packet(5, 'D' as int, ['A' as int], false)) == [0x01, 0x24, 0x25, 0x44, 0x41, 0x31, 0x0D]
    ensures Frame(Packet(0, 'D' as int, [], true)) == [0x01, 0x20, 0x20, 0x44, 0x20, 0x21, 0x28, 0x50, 0x0D]
  {
    ShortFrame();
    LongFrame();
  }

  lemma ShortFrame()
    ensures Frame(Packet(5, 'D' as int, ['A' as int], false)) == [0x01, 0x24, 0x25, 0x44, 0x41, 0x31, 0x0D]
  {
    var p, x := Packet(5, 'D' as int, ['A' as int], false), [0x24, 0x25, 0x44, 0x41];
    FourSum(x);
    assert (Header(p) + p.data)[1..] == x;
  }

  lemma LongFrame()
    ensures Frame(Packet(0, 'D' as int, [], true)) == [0x01, 0x20, 0x20, 0x44, 0x20, 0x21, 0x28, 0x50, 0x0D]
  {
    var p := Packet(0, 'D' as int, [], true);
    LongHeader(p);
    LongSums();
    assert (Header(p) + p.data)[1..] == [0x20, 0x20, 0x44, 0x20, 0x21, 0x28];
  }

  lemma LongHeader(p: Packet)
    requires p == Packet(0, 'D' as int, [], true)
    ensures Header(p) == [0x01, 0x20, 0x20, 0x44, 0x20, 0x21, 0x28]
  {
    var h := [START_CHAR, ToChar(0), ToChar(0), 'D' as int, ToChar(0), ToChar(1)];
    LongSums();
    assert h[1..] == [0x20, 0x20, 0x44, 0x20, 0x21];
  }

  lemma LongSums()
    ensures Sum([0x20, 0x20, 0x44, 0x20, 0x21]) == 0xC5 && Sum([0x20, 0x20, 0x44, 0x20, 0x21, 0x28]) == 0xED
  {
    var x, y, z := [0x20, 0x20, 0x44, 0x20], [0x20, 0x20, 0x44, 0x20, 0x21], [0x20, 0x20, 0x44, 0x20, 0x21, 0x28];
    FourSum(x);
    assert y[..4] == x && z[..5] == y;
  }

  lemma FourSum(s: seq<Byte>)
    requires |s| == 4
    ensures Sum(s) == s[0] as int + s[1] as int + s[2] as int + s[3] as int
  {
    assert s[..3][..2] == s[..2] && s[..2][..1] == s[..1] && s[..1][..0] == [];
    assert Sum(s[..1]) == s[0];
    assert Sum(s[..2]) == s[0] as int + s[1] as int;
  }

  /** A control character in the place of the length or of the sequence number throws the decoder back to the last
      checkpoint. */
  lemma DamagedOpening(st: Rx, n: Byte, c: Byte)
    requires st.phase == Wait && Control(c) && !Control(n)
    ensures FeedAll(st, [START_CHAR, c]) == PacketError(st)
    ensures FeedAll(st, [START_CHAR, n, c]) == PacketError(st)
  {
    var s1 := st.(phase := Len);
    assert FeedAll(st, [START_CHAR]) == s1 by { assert [START_CHAR][..0] == [] && FeedAll(st, []) == st; }
    assert [START_CHAR, c][..1] == [START_CHAR];
    assert [START_CHAR, n][..1] == [START_CHAR];
    assert FeedAll(st, [START_CHAR, n]) == st.(phase := Num(n, UnToChar(n)));
    assert [START_CHAR, n, c][..2] == [START_CHAR, n];
  }
}
