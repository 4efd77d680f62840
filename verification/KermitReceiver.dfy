/**
 `k_recv` of common/cmd_load.c with the static variables it works on.  Its error exits, which
 the source writes as jumps to one label, are early returns of `ReceivePacket` here.
 */
module KermitReceiver {
  import opened Basics
  import opened Kermit

  const SEND_DATA_SIZE := 20

  datatype Outcome = Good | Bad | Blocked

  class Receiver {
    const input: seq<Byte>        // everything the serial line will ever deliver
    const binStart: int
    const sendParms: array<Byte>
    var pos: nat                  // characters read from the line
    var mem: map<int, Byte>
    var osDataAddr: int
    var osDataAddrSaved: int
    var kDataEscape: bool
    var kDataEscapeSaved: bool
    var hisQuote: Byte
    var sendPtr: nat
    var replies: seq<Reply>
    ghost var rx: Rx              // the automaton after the characters read so far

    ghost predicate Valid()
      reads this
    {
      && pos <= |input|
      && rx == FeedAll(Start(binStart), input[..pos])
      && sendParms.Length == SEND_DATA_SIZE
    }

    /** The decoder variables are those of the automaton. */
    ghost predicate Tracks()
      reads this
    {
      && rx.mem == mem && rx.quote == hisQuote
      && rx.at == Mark(osDataAddr, kDataEscape)
      && rx.saved == Mark(osDataAddrSaved, kDataEscapeSaved)
    }

    /** The parameter buffer holds the parameters received, the last byte of it being overwritten once it is full. */
    ghost predicate HoldsParams(params: seq<Byte>)
      reads this, sendParms
    {
      && sendParms.Length == SEND_DATA_SIZE
      && sendPtr == (if |params| < SEND_DATA_SIZE - 1 then |params| else SEND_DATA_SIZE - 1)
      && forall i :: 0 <= i < sendPtr ==> sendParms[i] == params[i]
    }

    constructor (input: seq<Byte>, binStart: int)
      ensures Valid() && pos == 0 && this.input == input && this.binStart == binStart
      ensures mem == map[] && replies == [] && fresh(sendParms)
    {
      this.input, this.binStart := input, binStart;
      sendParms := new Byte[SEND_DATA_SIZE];
      pos, mem, replies, sendPtr := 0, map[], [], 0;
      osDataAddr, osDataAddrSaved := binStart, binStart;
      kDataEscape, kDataEscapeSaved := false, false;
      hisQuote := K_ESCAPE;
      rx := Start(binStart);
    }

    /** Next character of the line; `ok` is false when the line falls silent for good. */
    method GetC() returns (c: Byte, ok: bool)
      requires Valid()
      modifies this`pos, this`rx
      ensures Valid()
      ensures ok ==> pos == old(pos) + 1 && rx == Feed(old(rx), c)
      ensures !ok ==> pos == old(pos) == |input| && rx == old(rx)
    {
      ok := pos < |input|;
      c := 0;
      if ok {
        c := input[pos];
        pos := pos + 1;
        assert input[..pos][..pos - 1] == input[..pos - 1];
        rx := Feed(rx, c);
      }
    }

    method KDataSave()
      modifies this`osDataAddrSaved, this`kDataEscapeSaved
      ensures osDataAddrSaved == osDataAddr && kDataEscapeSaved == kDataEscape
    {
      kDataEscapeSaved := kDataEscape;
      osDataAddrSaved := osDataAddr;
    }

    method KDataRestore()
      modifies this`osDataAddr, this`kDataEscape
      ensures osDataAddr == osDataAddrSaved && kDataEscape == kDataEscapeSaved
    {
      kDataEscape := kDataEscapeSaved;
      osDataAddr := osDataAddrSaved;
    }

    method BinDataChar(c: Byte)
      modifies this`mem, this`osDataAddr
      ensures mem == old(mem)[old(osDataAddr) := c] && osDataAddr == old(osDataAddr) + 1
    {
      mem := mem[osDataAddr := c];
      osDataAddr := osDataAddr + 1;
    }

    method KDataChar(c: Byte)
      modifies this`mem, this`osDataAddr, this`kDataEscape
      ensures (mem, Mark(osDataAddr, kDataEscape))
              == DataChar(old(mem), Mark(old(osDataAddr), old(kDataEscape)), hisQuote, c)
    {
      if kDataEscape {
        BinDataChar(KTrans(c));
        kDataEscape := false;
      } else if c == hisQuote {
        kDataEscape := true;
      } else {
        BinDataChar(c);
      }
    }

    method SaveParameter(c: Byte, ghost params: seq<Byte>)
      requires HoldsParams(params)
      modifies this`sendPtr, sendParms
      ensures HoldsParams(params + [c])
    {
      sendParms[sendPtr] := c;
      sendPtr := sendPtr + 1;
      if sendPtr >= SEND_DATA_SIZE {
        sendPtr := sendPtr - 1;
      }
    }

    method HandleSendPacket(n: int, ghost params: seq<Byte>)
      requires HoldsParams(params)
      modifies this`hisQuote, this`sendPtr, this`replies
      ensures hisQuote == if |params| >= 6 then params[5] else 0x23
      ensures replies == old(replies) + [Ack(n)]
    {
      hisQuote := K_ESCAPE;
      if sendPtr == SEND_DATA_SIZE - 1 {
        sendPtr := sendPtr - 1;
      }
      if sendPtr >= 6 {
        hisQuote := sendParms[5];
      }
      replies := replies + [Ack(n)];
    }

    /** In the middle of a packet: nothing to answer yet. */
    ghost predicate Listening(n: int, lastN: int)
      reads this, sendParms
    {
      && Valid() && Tracks() && rx.replies == replies && rx.n == n && rx.lastN == lastN
    }

    /** The line has fallen silent and everything received so far is dealt with. */
    ghost predicate Silent()
      reads this
    {
      && Valid() && pos == |input| && rx.phase != Done && rx.phase != Aborted
      && rx.mem == mem && rx.replies == replies
    }

    /** The automaton has refused the packet; this receiver has yet to roll back and to answer. */
    ghost predicate Refused(n: int, lastN: int)
      reads this, sendParms
    {
      && Valid() && rx.phase == Wait && rx.mem == mem && rx.quote == hisQuote
      && rx.at == rx.saved == Mark(osDataAddrSaved, kDataEscapeSaved)
      && rx.n == n && rx.lastN == lastN && rx.replies == replies + [Nack(n)]
    }

    /** The automaton has accepted the packet; this receiver has yet to answer. */
    ghost predicate Passed(n: int, lastN: int, kState: Byte, params: seq<Byte>)
      reads this, sendParms
    {
      && Valid() && rx.phase == (if kState == BREAK_TYPE then Done else Wait) && rx.mem == mem
      && rx.at == Mark(osDataAddr, kDataEscape)
      && rx.saved == Mark(osDataAddrSaved, kDataEscapeSaved)
      && rx.quote == NewQuote(hisQuote, kState, params) && HoldsParams(params)
      && rx.n == n && rx.lastN == lastN && rx.replies == replies + [Ack(n)]
    }

    method ReceiveBody(n: int, lastN: int, kState: Byte, sum0: nat, length0: int)
      returns (outcome: Outcome, ghost params: seq<Byte>)
      requires Listening(n, lastN) && HoldsParams([]) && rx.phase == Body(sum0, kState, length0, [])
      modifies this`pos, this`rx, this`mem, this`osDataAddr, this`kDataEscape, this`sendPtr, sendParms
      ensures pos >= old(pos)
      ensures outcome == Good ==> Passed(n, lastN, kState, params)
      ensures outcome == Bad ==> Refused(n, lastN)
      ensures outcome == Blocked ==> Silent()
    {
      var sum: nat, length := sum0, length0;
      params := [];
      var newChar, ok;
      while length > 1
        invariant pos >= old(pos) && Listening(n, lastN) && HoldsParams(params)
        invariant rx.phase == Body(sum, kState, length, params)
      {
        newChar, ok := GetC();
        if !ok { return Blocked, params; }
        if Control(newChar) { return Bad, params; }
        sum := sum + newChar as int;
        length := length - 1;
        if kState == DATA_TYPE {
          KDataChar(newChar);
        } else if kState == SEND_TYPE {
          SaveParameter(newChar, params);
          params := params + [newChar];
        }
      }
      outcome := ReceiveCheck(n, lastN, kState, sum, length, params);
    }

    /** The block check and the terminator. */
    method ReceiveCheck(n: int, lastN: int, kState: Byte, sum: nat, length: int, ghost params: seq<Byte>)
      returns (outcome: Outcome)
      requires Listening(n, lastN) && HoldsParams(params) && length <= 1
      requires rx.phase == Body(sum, kState, length, params)
      modifies this`pos, this`rx
      ensures pos >= old(pos)
      ensures outcome == Good ==> Passed(n, lastN, kState, params)
      ensures outcome == Bad ==> Refused(n, lastN)
      ensures outcome == Blocked ==> Silent()
    {
      var newChar, ok := GetC();
      if !ok { return Blocked; }
      if Control(newChar) || newChar != CheckChar(sum) { return Bad; }
      newChar, ok := GetC();
      if !ok { return Blocked; }
      if newChar != END_CHAR { return Bad; }
      return Good;
    }

    /** The two extended length characters and their check. */
    method ReceiveExtendedLength(n: int, lastN: int, kState: Byte, sum0: nat)
      returns (outcome: Outcome, sum: nat, length: int)
      requires Listening(n, lastN) && rx.phase == LenHi(sum0, kState)
      modifies this`pos, this`rx
      ensures pos >= old(pos)
      ensures outcome == Good ==> Listening(n, lastN) && rx.phase == Body(sum, kState, length, [])
      ensures outcome == Bad ==> Refused(n, lastN)
      ensures outcome == Blocked ==> Silent()
    {
      sum, length := sum0, 0;
      var newChar, ok := GetC();
      if !ok { return Blocked, sum, length; }
      if Control(newChar) { return Bad, sum, length; }
      sum := sum + newChar as int;
      var lenHi := UnToChar(newChar);
      newChar, ok := GetC();
      if !ok { return Blocked, sum, length; }
      if Control(newChar) { return Bad, sum, length; }
      sum := sum + newChar as int;
      var lenLo := UnToChar(newChar);
      length := lenHi as int * 95 + lenLo as int;
      outcome, sum := ReceiveHeaderCheck(n, lastN, kState, sum, length);
    }

    method ReceiveHeaderCheck(n: int, lastN: int, kState: Byte, sum0: nat, length: int)
      returns (outcome: Outcome, sum: nat)
      requires Listening(n, lastN) && rx.phase == HeadCheck(sum0, kState, length)
      modifies this`pos, this`rx
      ensures pos >= old(pos)
      ensures outcome == Good ==> Listening(n, lastN) && rx.phase == Body(sum, kState, length, [])
      ensures outcome == Bad ==> Refused(n, lastN)
      ensures outcome == Blocked ==> Silent()
    {
      sum := sum0;
      var newChar, ok := GetC();
      if !ok { return Blocked, sum; }
      if Control(newChar) || newChar != CheckChar(sum) { return Bad, sum; }
      sum := sum + newChar as int;
      outcome := Good;
    }

    /** The length and sequence characters, and the rollback or checkpoint they call for. */
    method ReceiveOpening(n0: int, lastN0: int)
      returns (outcome: Outcome, n: int, lastN: int, sum: nat, length: int)
      requires Listening(n0, lastN0) && rx.phase == Len
      modifies this`pos, this`rx, this`osDataAddr, this`kDataEscape, this`osDataAddrSaved, this`kDataEscapeSaved
      ensures pos >= old(pos)
      ensures outcome == Good ==> Listening(n, lastN) && rx.phase == Kind(sum, length)
      ensures outcome == Bad ==> Refused(n, lastN)
      ensures outcome == Blocked ==> Silent()
    {
      n, lastN, sum, length := n0, lastN0, 0, 0;
      var newChar, ok := GetC();
      if !ok { outcome := Blocked; return; }
      if Control(newChar) { outcome := Bad; return; }
      sum := newChar;
      length := UnToChar(newChar);
      newChar, ok := GetC();
      if !ok { outcome := Blocked; return; }
      if Control(newChar) { outcome := Bad; return; }
      sum := sum + newChar as int;
      n := UnToChar(newChar);
      length := length - 1;
      if n == lastN {
        KDataRestore();
      } else {
        lastN := n;
        KDataSave();
      }
      outcome := Good;
    }

    method ReceivePacket(n0: int, lastN0: int)
      returns (outcome: Outcome, n: int, lastN: int, kState: Byte, ghost params: seq<Byte>)
      requires Listening(n0, lastN0) && HoldsParams([]) && rx.phase == Len
      modifies this`pos, this`rx, this`mem, this`osDataAddr, this`kDataEscape, this`osDataAddrSaved,
               this`kDataEscapeSaved, this`sendPtr, sendParms
      ensures pos >= old(pos)
      ensures outcome == Good ==> Passed(n, lastN, kState, params)
      ensures outcome == Bad ==> Refused(n, lastN)
      ensures outcome == Blocked ==> Silent()
    {
      kState, params := 0, [];
      var sum, length;
      outcome, n, lastN, sum, length := ReceiveOpening(n0, lastN0);
      if outcome != Good { return; }
      var newChar, ok := GetC();
      if !ok { outcome := Blocked; return; }
      if Control(newChar) { outcome := Bad; return; }
      sum := sum + newChar as int;
      kState := newChar;
      length := length - 1;
      if length == -2 {
        outcome, sum, length := ReceiveExtendedLength(n, lastN, kState, sum);
        if outcome != Good { return; }
      }
      outcome, params := ReceiveBody(n, lastN, kState, sum, length);
    }

    /** Passes over the line up to a start character; false at ^C or when the line falls silent. */
    method WaitForStart(n: int, lastN: int) returns (started: bool)
      requires Listening(n, lastN) && rx.phase == Wait
      modifies this`pos, this`rx
      ensures pos >= old(pos)
      ensures started ==> Listening(n, lastN) && rx.phase == Len && pos > old(pos)
      ensures !started ==> Silent() || (Valid() && rx.mem == mem && rx.replies == replies && rx.phase == Aborted)
    {
      while true
        invariant pos >= old(pos) && Listening(n, lastN) && rx.phase == Wait
        decreases |input| - pos
      {
        var c, ok := GetC();
        if !ok { return false; }
        if c == START_CHAR { return true; }
        if c == ETX_CHAR { return false; }
      }
    }

    /** `k_recv` computes the automaton on the whole line: its return value, its replies and its memory. */
    method KRecv() returns (ret: int)
      requires Valid() && pos == 0 && replies == [] && mem == map[]
      modifies this, sendParms
      ensures var end := FeedAll(Start(binStart), input);
              && mem == end.mem && replies == end.replies
              && ret == if end.phase == Done then end.at.addr - binStart else 0
    {
      assert input[..0] == [];
      hisQuote := K_ESCAPE;
      var done := false;
      kDataEscape := false;
      osDataAddr := binStart;
      KDataSave();
      var n, lastN := 0, -1;
      while !done
        invariant Listening(n, lastN) && rx.phase == if done then Done else Wait
        decreases |input| - pos, !done
      {
        sendPtr := 0;
        var started := WaitForStart(n, lastN);
        if !started {
          RestIsIgnored();
          return 0;
        }
        var outcome, kState;
        ghost var params;
        outcome, n, lastN, kState, params := ReceivePacket(n, lastN);
        if outcome == Blocked {
          RestIsIgnored();
          return 0;
        }
        if outcome == Bad {
          KDataRestore();
          replies := replies + [Nack(n)];
        } else if kState == SEND_TYPE {
          HandleSendPacket(n, params);
        } else {
          replies := replies + [Ack(n)];
          if kState == BREAK_TYPE {
            done := true;
          }
        }
      }
      RestIsIgnored();
      ret := osDataAddr - binStart;
    }

    lemma RestIsIgnored()
      requires Valid() && (rx.phase == Done || rx.phase == Aborted || pos == |input|)
      ensures FeedAll(Start(binStart), input) == rx
    {
      assert input == input[..pos] + input[pos..];
      FeedConcat(Start(binStart), input[..pos], input[pos..]);
      if pos < |input| {
        StaysStopped(rx, input[pos..]);
      }
    }
  }
}
