/**
 Reading blocks from a floppy disk, common/cmd_fdc.c: `fdc_read_data` with its two nested
 retry counters, on top of `fdc_issue_cmd`, `fdc_seek` and `fdc_recalibrate`.

 The controller acts on the command bytes it is given.  SEEK and RECALIBRATE move the head.  A READ delivers
 the sectors its command bytes address if the motor runs, the head is over their track and the
 side is selected; an oracle may end it early after delivering anything.  Whether a command is
 taken and how a seek ends is arbitrary as well.
 */
module Floppy {
  import opened Arith
  import opened Basics

  const FDC_CMD_SENSE_INT: Byte := 0x08
  const FDC_CMD_RECALIBRATE: Byte := 0x07
  const FDC_CMD_READ: Byte := 0x06
  const FDC_CMD_SEEK: Byte := 0x0F
  const COMMAND := 0
  const DRIVE := 1
  const TRACK := 2
  const HEAD := 3
  const SECTOR := 4
  const SECTOR_SIZE := 5
  const LAST_TRACK := 6
  const GAP := 7
  const DTL := 8
  const FDC_RW_RETRIES := 3
  const FDC_CAL_RETRIES := 3
  const MAX_ABSORBED := 24  // transfer errors the two counters absorb between them

  /** Disk format: sectors per track side, sides, tracks, bytes per sector. */
  datatype Geometry = Geometry(sect: nat, head: nat, track: nat, sectCode: nat, gap: Byte)

  ghost predicate ValidGeometry(g: Geometry) {
    1 <= g.sect <= 255 && 1 <= g.head <= 2 && 1 <= g.track <= 256 && g.sectCode <= 255
  }

  /** 0x80 << code */
  function SectorSize(code: nat): (n: nat)
    ensures n >= 128
  {
    if code == 0 then 128 else 2 * SectorSize(code - 1)
  }

  /** Bytes in n sectors, `sect_size * n`. */
  function Bytes(g: Geometry, n: nat): nat {
    if n == 0 then 0 else Bytes(g, n - 1) + SectorSize(g.sectCode)
  }

  lemma {:induction false} BytesIsProduct(g: Geometry, n: nat)
    ensures Bytes(g, n) == n * SectorSize(g.sectCode)
  {
    if n > 0 {
      BytesIsProduct(g, n - 1);
      Distribute(n - 1, 1, SectorSize(g.sectCode));
    }
  }

  lemma {:induction false} BytesAdd(g: Geometry, m: nat, n: nat)
    ensures Bytes(g, m + n) == Bytes(g, m) + Bytes(g, n)
  {
    if n > 0 {
      BytesAdd(g, m, n - 1);
    }
  }

  lemma BytesMonotone(g: Geometry, m: nat, n: nat)
    requires m <= n
    ensures Bytes(g, m) <= Bytes(g, n)
  {
    BytesAdd(g, m, n - m);
  }

  /** Sectors per track, both sides together. */
  function PerTrack(g: Geometry): nat {
    if g.head == 2 then 2 * g.sect else g.sect
  }

  function TrackBlocks(g: Geometry, tracks: nat): nat {
    if tracks == 0 then 0 else TrackBlocks(g, tracks - 1) + PerTrack(g)
  }

  function DiskBlocks(g: Geometry): nat {
    TrackBlocks(g, g.track)
  }

  lemma {:induction false} TrackBlocksIsProduct(g: Geometry, tracks: nat)
    ensures TrackBlocks(g, tracks) == tracks * PerTrack(g)
  {
    if tracks > 0 {
      TrackBlocksIsProduct(g, tracks - 1);
      Distribute(tracks - 1, 1, PerTrack(g));
    }
  }

  /** Blocks that precede block b on its track side, `b % sect`. */
  function Within(g: Geometry, b: nat): (r: nat)
    requires ValidGeometry(g)
    ensures r < g.sect
  {
    if b < g.sect then b else Within(g, b - g.sect)
  }

  lemma {:induction false} WithinIsMod(g: Geometry, b: nat)
    requires ValidGeometry(g)
    ensures Within(g, b) == b % g.sect
  {
    Divided(b, g.sect);
    if b < g.sect {
      Quotient(b, 0, g.sect, b);
    } else {
      WithinIsMod(g, b - g.sect);
      Divided(b - g.sect, g.sect);
      Distribute((b - g.sect) / g.sect, 1, g.sect);
      Quotient(b, (b - g.sect) / g.sect + 1, g.sect, (b - g.sect) % g.sect);
    }
  }

  lemma {:induction false} WithinAtSideEnd(g: Geometry, b: nat)
    requires ValidGeometry(g)
    ensures Within(g, b + (g.sect - Within(g, b))) == 0
  {
    if b >= g.sect {
      WithinAtSideEnd(g, b - g.sect);
    }
  }

  /** Where a READ command starts. */
  datatype Place = Place(track: nat, head: nat, sector: nat)

  function PlaceOf(g: Geometry, blnr: nat): Place
    requires ValidGeometry(g)
  {
    Divided(blnr, PerTrack(g));
    var rest := blnr % PerTrack(g);
    Divided(rest, g.sect);
    Place(blnr / PerTrack(g), rest / g.sect, rest % g.sect + 1)
  }

  /** The block stored at a place: tracks, then sides, then sectors counted from 1. */
  function BlockAt(g: Geometry, p: Place): int {
    (p.track * g.head + p.head) * g.sect + p.sector - 1
  }

  lemma PlaceIsOnDisk(g: Geometry, blnr: nat)
    requires ValidGeometry(g) && blnr < DiskBlocks(g)
    ensures var p := PlaceOf(g, blnr);
            && BlockAt(g, p) == blnr
            && p.track < g.track && p.head < g.head && 1 <= p.sector <= g.sect
            && p.sector - 1 == Within(g, blnr)
  {
    var p, c := PlaceOf(g, blnr), PerTrack(g);
    var rest, s := blnr % c, p.sector - 1;
    Divided(blnr, c);
    Divided(rest, g.sect);
    TrackBlocksIsProduct(g, g.track);
    if p.track >= g.track {
      Scale(p.track, g.track, c);
    }
    if p.head >= g.head {
      Scale(p.head, g.head, g.sect);
    }
    Associate(p.track, g.head, g.sect);
    Distribute(p.track * g.head, p.head, g.sect);
    Quotient(blnr, p.track * g.head + p.head, g.sect, s);
    WithinIsMod(g, blnr);
  }

  /** What becomes of one READ transfer: it ends early after `stopsAt` bytes of anything, or (negative) does not. */
  datatype Fate = Fate(stopsAt: int, bytes: nat -> Byte)

  datatype Transfer = Whole | Broken | Refused

  datatype Started = Started(place: Place, block: nat, n: nat)

  datatype Sought = Found | Missed | NotIssued

  datatype Exit = Complete | NotTaken | SeekError(late: bool) | Exhausted

  /** Two buffers agree outside [offset, offset + len). */
  ghost predicate Elsewhere(now: seq<Byte>, before: seq<Byte>, offset: nat, len: nat) {
    |now| == |before| && forall j :: 0 <= j < |now| && !(offset <= j < offset + len) ==> now[j] == before[j]
  }

  /** `len` bytes of the image from `from` on stand in the buffer from `offset` on. */
  ghost predicate Copied(buffer: seq<Byte>, offset: nat, image: seq<Byte>, from: nat, len: nat) {
    && offset + len <= |buffer| && from + len <= |image|
    && forall j :: offset <= j < offset + len ==> buffer[j] == image[from + (j - offset)]
  }

  class Drive {
    const g: Geometry
    const image: seq<Byte>             // the disk, block by block
    const fate: nat -> Fate            // of the n-th READ transfer
    const taken: nat -> bool           // whether the controller takes the n-th command
    const senseStatus: nat -> Byte     // STATUS_0 after the n-th SENSE INTERRUPT
    const astray: nat -> nat           // where the head is after the n-th command, if that is a seek that does not end
    const drive: nat
    const cmd: array<Byte>
    const result: array<Byte>
    var blnr: nat
    var issued: nat
    var transfers: nat
    var senses: nat
    var over: nat                      // the track the head is over
    var motorOn: bool
    var interrupts: bool
    ghost var log: seq<Started>        // READ transfers started
    ghost var seeks: seq<Byte>         // STATUS_0 after each SEEK

    /** STATUS_0 says that the seek has ended. */
    predicate SeekEnded(status: Byte) { status / 32 % 2 == 1 }

    ghost predicate Valid() {
      && ValidGeometry(g) && |image| == Bytes(g, DiskBlocks(g))
      && drive < 4
      && cmd != result && cmd.Length == 16 && result.Length == 11
    }

    /** A drive before its first command, to read from the first block. */
    constructor (g: Geometry, image: seq<Byte>, fate: nat -> Fate, taken: nat -> bool, senseStatus: nat -> Byte,
                 astray: nat -> nat, over: nat, drive: nat)
      requires ValidGeometry(g) && |image| == Bytes(g, DiskBlocks(g)) && drive < 4
      ensures this.g == g && this.image == image && this.fate == fate && this.taken == taken
      ensures this.senseStatus == senseStatus && this.astray == astray && this.over == over && this.drive == drive
      ensures fresh(cmd) && fresh(result) && Valid()
      ensures blnr == 0 && issued == 0 && transfers == 0 && senses == 0 && log == [] && seeks == []
      ensures interrupts && !motorOn
    {
      this.g, this.image, this.fate, this.taken, this.senseStatus, this.drive := g, image, fate, taken, senseStatus, drive;
      this.astray, this.over := astray, over;
      cmd, result := new Byte[16], new Byte[11];
      blnr, issued, transfers, senses, motorOn, interrupts := 0, 0, 0, 0, false, true;
      log, seeks := [], [];
    }

    /** A controller that takes every command and ends every seek well. */
    ghost predicate Cooperative() {
      forall k: nat :: taken(k) && SeekEnded(senseStatus(k))
    }

    /** The track of the current block as a command byte. */
    function TrackByte(): (b: Byte)
      requires Valid()
      reads this
    {
      PlaceOf(g, blnr).track % 256
    }

    /** The command bytes select the drive, the side and the track of the current block. */
    ghost predicate PlaceIsSetUp()
      requires Valid()
      reads this, cmd
    {
      var p := PlaceOf(g, blnr);
      && cmd[DRIVE] == drive + (if p.head == 0 then 0 else 4)
      && cmd[TRACK] == p.track % 256 && cmd[HEAD] == p.head % 256
    }

    /** The command bytes of a READ of the current block, each cut to eight bits. */
    ghost predicate ReadIsSetUp()
      requires Valid()
      reads this, cmd
    {
      && cmd[COMMAND] == FDC_CMD_READ + 0x40 && PlaceIsSetUp()
      && cmd[SECTOR] == PlaceOf(g, blnr).sector % 256 && cmd[SECTOR_SIZE] == g.sectCode
      && cmd[LAST_TRACK] == g.sect && cmd[GAP] == g.gap && cmd[DTL] == 0xFF
    }

    /** The controller takes a command and acts on its bytes: five bits tell the commands apart. */
    method Execute() returns (ok: bool)
      requires Valid()
      modifies result, this`issued, this`senses, this`over
      ensures ok == taken(old(issued)) && issued == old(issued) + 1
      ensures ok && cmd[COMMAND] % 32 == 0x08 ==> result[0] == senseStatus(old(senses))
      ensures senses == old(senses) + if ok && cmd[COMMAND] % 32 == 0x08 then 1 else 0
      ensures over == if !ok then old(over)
                      else if cmd[COMMAND] % 32 == 0x0F then
                        (if SeekEnded(senseStatus(old(senses))) then cmd[TRACK] else astray(old(issued)))
                      else if cmd[COMMAND] % 32 == 0x07 then 0
                      else old(over)
    {
      ok := taken(issued);
      if ok {
        var code := cmd[COMMAND] % 32;
        if code == 0x0F {
          over := if SeekEnded(senseStatus(senses)) then cmd[TRACK] else astray(issued);
        } else if code == 0x07 {
          over := 0;
        } else if code == 0x08 {
          result[0] := senseStatus(senses);
          result[1] := over % 256;
          senses := senses + 1;
        }
      }
      issued := issued + 1;
    }

    /** `fdc_issue_cmd`: writes the command bytes for the current block and issues the command. */
    method IssueCmd(command: Byte) returns (ok: bool)
      requires Valid() && command in {FDC_CMD_READ, FDC_CMD_SEEK, FDC_CMD_RECALIBRATE, FDC_CMD_SENSE_INT}
      modifies cmd, result, this`issued, this`senses, this`over
      ensures ok == taken(old(issued))
      ensures command == FDC_CMD_READ ==> ReadIsSetUp()
      ensures command == FDC_CMD_SEEK ==> cmd[COMMAND] == FDC_CMD_SEEK && PlaceIsSetUp()
      ensures command == FDC_CMD_RECALIBRATE ==> cmd[COMMAND] == FDC_CMD_RECALIBRATE && cmd[DRIVE] == drive
      ensures ok && command == FDC_CMD_SENSE_INT ==> result[0] == senseStatus(old(senses))
      ensures issued == old(issued) + 1
      ensures senses == old(senses) + if ok && command == FDC_CMD_SENSE_INT then 1 else 0
      ensures ok && command == FDC_CMD_SEEK && SeekEnded(senseStatus(senses)) ==> over == TrackByte()
      ensures ok && command == FDC_CMD_RECALIBRATE ==> over == 0
      ensures command == FDC_CMD_READ || command == FDC_CMD_SENSE_INT ==> over == old(over)
    {
      SetUp(command);
      ok := Execute();
    }

    /** The command bytes of `fdc_issue_cmd`. */
    method SetUp(command: Byte)
      requires Valid() && command in {FDC_CMD_READ, FDC_CMD_SEEK, FDC_CMD_RECALIBRATE, FDC_CMD_SENSE_INT}
      modifies cmd
      ensures cmd[COMMAND] % 32 == command
      ensures command == FDC_CMD_READ ==> ReadIsSetUp()
      ensures command == FDC_CMD_SEEK ==> cmd[COMMAND] == FDC_CMD_SEEK && PlaceIsSetUp()
      ensures command == FDC_CMD_RECALIBRATE ==> cmd[COMMAND] == FDC_CMD_RECALIBRATE && cmd[DRIVE] == drive
    {
      var p := PlaceOf(g, blnr);
      cmd[COMMAND] := command;
      cmd[DRIVE] := if p.head != 0 then drive + 4 else drive;
      cmd[HEAD] := p.head % 256;
      cmd[TRACK] := p.track % 256;
      if command == FDC_CMD_READ {
        cmd[SECTOR] := p.sector % 256;
        cmd[SECTOR_SIZE] := g.sectCode;
        cmd[LAST_TRACK] := g.sect;
        cmd[GAP] := g.gap;
        cmd[DTL] := 0xFF;
        cmd[COMMAND] := command + 0x40;
      } else if command == FDC_CMD_RECALIBRATE {
        cmd[DRIVE] := drive;
      }
    }

    /** SEEK or RECALIBRATE followed by SENSE INTERRUPT. */
    method Move(command: Byte) returns (ok: bool)
      requires Valid() && (command == FDC_CMD_SEEK || command == FDC_CMD_RECALIBRATE)
      modifies cmd, result, this`issued, this`senses, this`over
      ensures ok ==> result[0] == senseStatus(old(senses)) && senses == old(senses) + 1
      ensures senses >= old(senses)
      ensures ok == (taken(old(issued)) && taken(old(issued) + 1))
      ensures ok && command == FDC_CMD_SEEK && SeekEnded(result[0]) ==> over == TrackByte()
      ensures ok && command == FDC_CMD_RECALIBRATE ==> over == 0
    {
      ok := IssueCmd(command);
      if ok {
        ok := IssueCmd(FDC_CMD_SENSE_INT);
      }
    }

    /** The controller can reach the sectors that the command bytes ask for: they are of the disk's format, the motor of the
        drive runs, the head is over their track and the side they are on is selected. */
    predicate Reaches()
      requires Valid()
      reads this, cmd
    {
      && cmd[COMMAND] % 32 == 0x06 && cmd[SECTOR_SIZE] == g.sectCode
      && motorOn && cmd[DRIVE] % 4 == drive && over == cmd[TRACK] && cmd[DRIVE] / 4 == cmd[HEAD]
    }

    /** The i-th byte of a READ of `len` bytes from the place in the command bytes, if there is one. */
    function Deliver(len: nat, i: nat): (r: int)
      requires Valid() && i < len && transfers > 0
      reads this, cmd
      ensures r < 256
    {
      var f := fate(transfers - 1);
      var p := Place(cmd[TRACK], cmd[HEAD], cmd[SECTOR]);
      var b, n := BlockAt(g, p), cmd[LAST_TRACK] - p.sector + 1;
      if 0 <= f.stopsAt < len then (if i < f.stopsAt then f.bytes(i) else -1)
      else if Reaches() && n >= 0 && i < Bytes(g, n) && b >= 0 && Bytes(g, b) + i < |image| then image[Bytes(g, b) + i]
      else -1
    }

    /** The command bytes address block `blnr` and the next `n` blocks are on the same side of its track. */
    ghost predicate Addressed(n: nat)
      requires Valid()
      reads this, cmd
    {
      && blnr + n <= DiskBlocks(g) && Within(g, blnr) + n <= g.sect
      && (n > 0 ==> var p := Place(cmd[TRACK], cmd[HEAD], cmd[SECTOR]);
                    Reaches() && p == PlaceOf(g, blnr) && BlockAt(g, p) == blnr && cmd[LAST_TRACK] == g.sect)
    }

    /** A transfer of n blocks from block b on, addressed as block b, that stays on one side of one track. */
    ghost predicate OnOneSide(e: Started)
      requires ValidGeometry(g)
    {
      && e.place == PlaceOf(g, e.block)
      && (e.n > 0 ==> BlockAt(g, e.place) == e.block && e.place.track < g.track && e.place.head < g.head
                      && 1 <= e.place.sector && e.place.sector - 1 + e.n <= g.sect)
    }

    ghost predicate AllOnOneSide(es: seq<Started>)
      requires ValidGeometry(g)
    {
      es == [] || (OnOneSide(es[|es| - 1]) && AllOnOneSide(es[..|es| - 1]))
    }

    /** How many of the transfers, the k-th having the k-th fate, end before all their bytes are delivered. */
    ghost function BrokenIn(es: seq<Started>): nat {
      if es == [] then 0
      else
        BrokenIn(es[..|es| - 1]) + if 0 <= fate(|es| - 1).stopsAt < Bytes(g, es[|es| - 1].n) then 1 else 0
    }

    lemma ReadIsAddressed(n: nat)
      requires Valid() && ReadIsSetUp() && motorOn && over == TrackByte()
      requires blnr + n <= DiskBlocks(g) && Within(g, blnr) + n <= g.sect
      ensures Addressed(n)
    {
      if n > 0 {
        PlaceIsOnDisk(g, blnr);
      }
    }

    lemma DeliversTheDisk(n: nat, i: nat)
      requires Valid() && Addressed(n) && transfers > 0 && i < Bytes(g, n)
      requires !(0 <= fate(transfers - 1).stopsAt < Bytes(g, n))
      ensures Bytes(g, blnr) + i < |image|
      ensures Deliver(Bytes(g, n), i) == image[Bytes(g, blnr) + i]
    {
      PlaceIsOnDisk(g, blnr);
      BytesMonotone(g, n, g.sect - cmd[SECTOR] + 1);
      BytesAdd(g, blnr, n);
      BytesMonotone(g, blnr + n, DiskBlocks(g));
    }

    /** Moves the bytes of the READ in progress to the buffer; false when the controller stops delivering. */
    method ReceiveBytes(buffer: array<Byte>, offset: nat, n: nat) returns (whole: bool)
      requires Valid() && buffer != cmd && buffer != result && transfers > 0
      requires offset + Bytes(g, n) <= buffer.Length && Addressed(n)
      modifies result, buffer
      ensures whole <==> !(0 <= fate(transfers - 1).stopsAt < Bytes(g, n))
      ensures whole ==> Copied(buffer[..], offset, image, Bytes(g, blnr), Bytes(g, n))
      ensures Elsewhere(buffer[..], old(buffer[..]), offset, Bytes(g, n))
      ensures var at := fate(transfers - 1).stopsAt;
              !whole && at > 6 ==> forall ii :: 0 <= ii < 7 ==> result[ii] == buffer[offset + at - 7 + ii]
    {
      var len := Bytes(g, n);
      ghost var from := Bytes(g, blnr);
      BytesAdd(g, blnr, n);
      BytesMonotone(g, blnr + n, DiskBlocks(g));
      ghost var stops := 0 <= fate(transfers - 1).stopsAt < len;
      for i := 0 to len
        invariant !stops ==> Copied(buffer[..], offset, image, from, i)
        invariant stops ==> i <= fate(transfers - 1).stopsAt
        invariant Elsewhere(buffer[..], old(buffer[..]), offset, len)
      {
        var c := Deliver(len, i);
        if !stops {
          DeliversTheDisk(n, i);
        }
        if c < 0 {
          if i > 6 {
            KeepResult(buffer, offset + i - 7);
          }
          return false;
        }
        buffer[offset + i] := c;
      }
      return true;
    }

    /** The last seven bytes transferred are taken for the result. */
    method KeepResult(buffer: array<Byte>, from: nat)
      requires Valid() && buffer != result && from + 7 <= buffer.Length
      modifies result
      ensures forall ii :: 0 <= ii < 7 ==> result[ii] == buffer[from + ii]
    {
      for ii := 0 to 7
        invariant forall k :: 0 <= k < ii ==> result[k] == buffer[from + k]
      {
        result[ii] := buffer[from + ii];
      }
    }

    /** READ `n` sectors into the buffer. */
    method ReadSectors(buffer: array<Byte>, offset: nat, n: nat) returns (t: Transfer)
      requires Valid() && buffer != cmd && buffer != result
      requires offset + Bytes(g, n) <= buffer.Length
      requires blnr + n <= DiskBlocks(g) && Within(g, blnr) + n <= g.sect && transfers == |log|
      requires motorOn && over == TrackByte()
      modifies cmd, result, buffer, this`issued, this`senses, this`over, this`transfers, this`log
      ensures over == old(over)
      ensures t == Refused <==> !taken(old(issued))
      ensures senses == old(senses)
      ensures t == Broken <==> taken(old(issued)) && 0 <= fate(old(transfers)).stopsAt < Bytes(g, n)
      ensures transfers == |log| == old(transfers) + if t == Refused then 0 else 1
      ensures AllOnOneSide(old(log)) ==> AllOnOneSide(log)
      ensures t != Refused ==> log[|old(log)|].n == n && log[|old(log)|].block == blnr
      ensures BrokenIn(log) == BrokenIn(old(log)) + if t == Broken then 1 else 0
      ensures t == Whole ==> Copied(buffer[..], offset, image, Bytes(g, blnr), Bytes(g, n))
      ensures Elsewhere(buffer[..], old(buffer[..]), offset, Bytes(g, n))
    {
      var ok := IssueCmd(FDC_CMD_READ);
      if !ok { return Refused; }
      transfers := transfers + 1;
      ReadIsAddressed(n);
      log := log + [Started(PlaceOf(g, blnr), blnr, n)];
      assert log[..|log| - 1] == old(log);
      if n > 0 {
        PlaceIsOnDisk(g, blnr);
      }
      var whole := ReceiveBytes(buffer, offset, n);
      t := if whole then Whole else Broken;
    }

    /** The first blocks - left of the requested blocks are in the buffer and nothing behind the request is touched. */
    ghost predicate Filled(buffer: seq<Byte>, before: seq<Byte>, start: nat, blocks: nat, left: nat)
      requires Valid() && left <= blocks
    {
      && Copied(buffer, 0, image, Bytes(g, start), Bytes(g, blocks - left))
      && Elsewhere(buffer, before, 0, Bytes(g, blocks))
    }

    ghost predicate Requested(start: nat, blocks: nat, left: nat, readblk: nat)
      requires Valid()
      reads this
    {
      && left <= blocks && start + blocks <= DiskBlocks(g) && blnr == start + (blocks - left)
      && readblk == if g.sect - Within(g, blnr) > left then left else g.sect - Within(g, blnr)
    }

    lemma NothingFilled(buffer: seq<Byte>, start: nat, blocks: nat)
      requires Valid() && start + blocks <= DiskBlocks(g) && Bytes(g, blocks) <= |buffer|
      ensures Filled(buffer, buffer, start, blocks, blocks)
    {
      BytesMonotone(g, start, DiskBlocks(g));
    }

    /** Where the next transfer goes in the buffer and comes from on the disk. */
    lemma NextTransfer(start: nat, blocks: nat, left: nat, readblk: nat)
      requires Valid() && Requested(start, blocks, left, readblk)
      ensures Bytes(g, blocks - left) + Bytes(g, readblk) == Bytes(g, blocks - (left - readblk)) <= Bytes(g, blocks)
      ensures Bytes(g, start) + Bytes(g, blocks - left) == Bytes(g, blnr)
      ensures Bytes(g, blnr) + Bytes(g, readblk) <= |image|
      ensures blnr + readblk <= DiskBlocks(g) && Within(g, blnr) + readblk <= g.sect
    {
      var done := blocks - left;
      BytesAdd(g, start, done);
      BytesAdd(g, done, readblk);
      BytesAdd(g, blnr, readblk);
      BytesMonotone(g, done + readblk, blocks);
      BytesMonotone(g, blnr + readblk, DiskBlocks(g));
    }

    /** A broken transfer leaves what was filled, a whole one extends it. */
    lemma FillStep(now: seq<Byte>, mid: seq<Byte>, before: seq<Byte>, start: nat, blocks: nat, left: nat, readblk: nat)
      requires Valid() && Requested(start, blocks, left, readblk)
      requires Filled(mid, before, start, blocks, left)
      requires Elsewhere(now, mid, Bytes(g, blocks - left), Bytes(g, readblk))
      ensures Filled(now, before, start, blocks, left)
      ensures Copied(now, Bytes(g, blocks - left), image, Bytes(g, blnr), Bytes(g, readblk))
              ==> Filled(now, before, start, blocks, left - readblk)
    {
      NextTransfer(start, blocks, left, readblk);
    }

    /** Blocks to the end of the track side the first block is on, at most those requested. */
    method Chunk(ghost start: nat, ghost blocks: nat, left: nat) returns (readblk: nat)
      requires Valid() && left <= blocks && start + blocks <= DiskBlocks(g) && blnr == start + (blocks - left)
      ensures Requested(start, blocks, left, readblk)
    {
      WithinIsMod(g, blnr);
      readblk := g.sect - blnr % g.sect;
      if readblk > left {
        readblk := left;
      }
    }

    /** After a whole transfer with blocks left, the next block starts a track side. */
    method NextChunk(ghost start: nat, ghost blocks: nat, left: nat, ghost last: nat) returns (readblk: nat)
      requires Valid() && left + last <= blocks && start + blocks <= DiskBlocks(g) && blnr == start + (blocks - left)
      requires left > 0 && last == g.sect - Within(g, blnr - last)
      ensures Requested(start, blocks, left, readblk) && readblk > 0
    {
      WithinAtSideEnd(g, blnr - last);
      readblk := g.sect;
      if readblk > left {
        readblk := left;
      }
    }

    /** The first blocks - left blocks are in the buffer, `errors` transfers were broken, all were on one side of a track. */
    ghost predicate Data(now: seq<Byte>, before: seq<Byte>, start: nat, blocks: nat, left: nat, errors: nat,
                         log0: seq<Started>, block: nat, log1: seq<Started>)
      requires Valid()
    {
      && left <= blocks && start + blocks <= DiskBlocks(g) && block == start + (blocks - left)
      && Filled(now, before, start, blocks, left)
      && errors == BrokenIn(log1) - BrokenIn(log0)
      && (AllOnOneSide(log0) ==> AllOnOneSide(log1))
    }

    /** One transfer; if it was whole, moves on to the next chunk. */
    method ReadChunk(buffer: array<Byte>, ghost before: seq<Byte>, ghost start: nat, blocks: nat, left: nat, readblk: nat,
                     ghost errors: nat, ghost log0: seq<Started>)
      returns (t: Transfer, left': nat, readblk': nat, ghost errors': nat)
      requires Valid() && buffer != cmd && buffer != result && Bytes(g, blocks) <= buffer.Length
      requires transfers == |log| && Requested(start, blocks, left, readblk)
      requires Data(buffer[..], before, start, blocks, left, errors, log0, blnr, log) && motorOn && over == TrackByte()
      modifies cmd, result, buffer, this`issued, this`senses, this`over, this`transfers, this`log, this`blnr
      ensures t == Broken ==> over == TrackByte()
      ensures Data(buffer[..], before, start, blocks, left', errors', log0, blnr, log)
      ensures errors' == errors + if t == Broken then 1 else 0
      ensures t == Refused ==> !AllTaken()
      ensures transfers == |log| && senses == old(senses) && left' == if t == Whole then left - readblk else left
      ensures t != Whole || left' > 0 ==> Requested(start, blocks, left', readblk')
      ensures t == Whole && left' > 0 ==> left' < left
    {
      left', readblk' := left, readblk;
      NextTransfer(start, blocks, left, readblk);
      ghost var mid := buffer[..];
      t := ReadSectors(buffer, Bytes(g, blocks - left), readblk);
      FillStep(buffer[..], mid, before, start, blocks, left, readblk);
      errors' := if t == Broken then errors + 1 else errors;
      if t == Whole {
        blnr := blnr + readblk;
        left' := left - readblk;
        if left' > 0 {
          readblk' := NextChunk(start, blocks, left', readblk);
        }
      }
    }

    method Seek() returns (s: Sought)
      requires Valid()
      modifies cmd, result, this`issued, this`senses, this`over, this`seeks
      ensures s == NotIssued <==> !(taken(old(issued)) && taken(old(issued) + 1))
      ensures s == NotIssued ==> seeks == old(seeks)
      ensures senses >= old(senses) && Heard(old(seeks), seeks)
      ensures s != NotIssued ==> seeks == old(seeks) + [senseStatus(old(senses))] && senses == old(senses) + 1
      ensures s == Found ==> SeekEnded(senseStatus(old(senses)))
      ensures s == Missed ==> !SeekEnded(senseStatus(old(senses)))
      ensures Cooperative() ==> s == Found
      ensures s == Found ==> over == TrackByte()
    {
      var ok := Move(FDC_CMD_SEEK);
      if ok { seeks := seeks + [result[0]]; }
      s := if !ok then NotIssued else if SeekEnded(result[0]) then Found else Missed;
    }

    /** What the two counters decide after a broken transfer. */
    method CountError(retriesrw: nat, retriescal: nat) returns (exit: Exit, retriesrw': nat, retriescal': nat)
      requires Valid() && retriesrw <= 4 && retriescal <= 4
      modifies cmd, result, this`issued, this`senses, this`over
      ensures exit == Exhausted <==> retriesrw == 4 && retriescal == 4
      ensures exit in {Complete, NotTaken, Exhausted} && (exit == NotTaken ==> !AllTaken()) && senses >= old(senses)
      ensures exit == Complete ==> retriesrw' <= 4 && retriescal' <= 4
                                   && 5 * retriescal' + retriesrw' == 5 * retriescal + retriesrw + 1
      ensures exit == Complete ==> over == if retriesrw <= 3 then old(over) else 0
    {
      retriesrw', retriescal' := retriesrw + 1, retriescal;
      if retriesrw <= FDC_RW_RETRIES { return Complete, retriesrw', retriescal'; }
      retriescal' := retriescal + 1;
      if retriescal > FDC_CAL_RETRIES { return Exhausted, retriesrw', retriescal'; }
      var ok := Move(FDC_CMD_RECALIBRATE);
      if !ok { return NotTaken, retriesrw', retriescal'; }
      return Complete, 0, retriescal';
    }

    /**
     `fdc_read_data`.  `errors` counts the transfers that ended early, `left` the blocks not read. Interrupts come back
     unless a seek other than the first failed.
     */
    method ReadData(buffer: array<Byte>, blocks: nat) returns (ok: bool, ghost errors: nat, ghost left: nat, ghost exit: Exit)
      requires Valid() && buffer != cmd && buffer != result
      requires blnr + blocks <= DiskBlocks(g) && Bytes(g, blocks) <= buffer.Length && transfers == |log|
      modifies this, cmd, result, buffer
      ensures Data(buffer[..], old(buffer[..]), old(blnr), blocks, left, errors, old(log), blnr, log) && (ok ==> left == 0)
      ensures (ok <==> exit == Complete) && Counted(exit, errors)
      ensures !motorOn && interrupts == (old(interrupts) && !LostSeek(seeks, |old(seeks)| + 1))
      ensures exit == NotTaken ==> !AllTaken()
      ensures exit == SeekError(false) ==> !SeekEnded(senseStatus(old(senses)))
      ensures Heard(old(seeks), seeks) && (exit == SeekError(true) <==> LostSeek(seeks, |old(seeks)| + 1))
      ensures ok && NoneEnds(old(senses) + 1) ==> blocks <= g.sect - Within(g, old(blnr))
    {
      var flags := interrupts;
      interrupts, motorOn := false, true;
      var e;
      e, errors, left := SeekAndRead(buffer, blocks);
      exit, ok := e, e == Complete;
      motorOn := false;
      if flags && e != SeekError(true) {  // a seek error between chunks leaves interrupts off
        interrupts := true;
      }
    }

    lemma NoData(now: seq<Byte>, start: nat, blocks: nat, log0: seq<Started>)
      requires Valid() && start + blocks <= DiskBlocks(g) && Bytes(g, blocks) <= |now|
      ensures Data(now, now, start, blocks, blocks, 0, log0, start, log0)
    {
      NothingFilled(now, start, blocks);
    }

    /** The first seek, and the retry loop if it ended. */
    method SeekAndRead(buffer: array<Byte>, blocks: nat) returns (exit: Exit, ghost errors: nat, ghost left: nat)
      requires Valid() && buffer != cmd && buffer != result
      requires blnr + blocks <= DiskBlocks(g) && Bytes(g, blocks) <= buffer.Length && transfers == |log|
      requires motorOn && !interrupts
      modifies cmd, result, buffer, this`issued, this`senses, this`over, this`transfers, this`log, this`blnr, this`seeks
      ensures Data(buffer[..], old(buffer[..]), old(blnr), blocks, left, errors, old(log), blnr, log)
      ensures Counted(exit, errors) && (exit == NotTaken ==> !AllTaken())
      ensures exit == SeekError(false) ==> !SeekEnded(senseStatus(old(senses)))
      ensures Heard(old(seeks), seeks) && (exit == SeekError(true) <==> LostSeek(seeks, |old(seeks)| + 1))
      ensures exit == Complete ==> left == 0 && (NoneEnds(old(senses) + 1) ==> blocks <= g.sect - Within(g, old(blnr)))
    {
      NoData(buffer[..], blnr, blocks, log);
      var sought := Seek();
      if sought == Found {
        ghost var made := seeks;
        exit, errors, left := ReadBlocks(buffer, blocks);
        HeardMore(old(seeks), made, seeks);
      } else {
        exit, errors, left := if sought == NotIssued then NotTaken else SeekError(false), 0, blocks;
      }
    }

    /** What the retry counters make of transfer errors: 24 are absorbed, the next one ends the read. */
    ghost predicate Counted(exit: Exit, errors: nat) {
      && errors <= MAX_ABSORBED + 1 && (exit == Exhausted <==> errors == MAX_ABSORBED + 1)
      && (Cooperative() ==> (exit == Complete <==> errors <= MAX_ABSORBED))
    }

    /** The last seek failed, and there were more than n. */
    ghost predicate LostSeek(made: seq<Byte>, n: nat) {
      |made| > n && !SeekEnded(made[|made| - 1])
    }

    /** The log of seeks grew by answers of the controller. */
    ghost predicate Heard(before: seq<Byte>, now: seq<Byte>) {
      && |before| <= |now| && now[..|before|] == before
      && forall k :: |before| <= k < |now| ==> IsStatus(now[k])
    }

    ghost predicate IsStatus(x: Byte) { exists j :: senseStatus(j) == x }

    lemma HeardMore(before: seq<Byte>, now: seq<Byte>, next: seq<Byte>)
      requires Heard(before, now) && Heard(now, next)
      ensures Heard(before, next)
    {
      assert forall k :: 0 <= k < |now| ==> next[k] == next[..|now|][k];
      assert next[..|before|] == next[..|now|][..|before|];
    }

    ghost predicate AllTaken() { forall k: nat :: taken(k) }

    ghost predicate NeverBreaks() { forall k: nat :: fate(k).stopsAt < 0 }

    /** From the n-th on, no seek ends. */
    ghost predicate NoneEnds(n: nat) { forall k: nat :: k >= n ==> !SeekEnded(senseStatus(k)) }

    lemma {:induction false} NothingBroken(es: seq<Started>)
      requires NeverBreaks()
      ensures BrokenIn(es) == 0
    {
      if es != [] {
        NothingBroken(es[..|es| - 1]);
      }
    }

    /** A controller that only ends the first seek: a read of more than the rest of a side fails with interrupts off. */
    method LoseInterrupts(buffer: array<Byte>, blocks: nat) returns (ok: bool)
      requires Valid() && buffer != cmd && buffer != result && interrupts
      requires blnr + blocks <= DiskBlocks(g) && Bytes(g, blocks) <= buffer.Length && transfers == |log|
      requires AllTaken() && NeverBreaks() && SeekEnded(senseStatus(senses)) && NoneEnds(senses + 1)
      requires blocks > g.sect - Within(g, blnr)
      modifies this, cmd, result, buffer
      ensures !ok && !interrupts
    {
      ghost var errors, left, exit;
      ok, errors, left, exit := ReadData(buffer, blocks);
      NothingBroken(log);
      NothingBroken(old(log));
    }

    /** After a transfer that was broken, or whole with more to come: counts the error, and seeks if that is called for. */
    method NextRound(t: Transfer, retriesrw: nat, retriescal: nat, ghost n: nat)
      returns (exit: Exit, retriesrw': nat, retriescal': nat)
      requires Valid() && retriesrw <= 4 && retriescal <= 4 && t != Refused && n <= |seeks| && !LostSeek(seeks, n)
      requires t == Broken ==> over == TrackByte()
      modifies cmd, result, this`issued, this`senses, this`over, this`seeks
      ensures n <= |seeks| && (exit == SeekError(true) <==> LostSeek(seeks, n)) && exit != SeekError(false)
      ensures exit == Exhausted <==> t == Broken && retriesrw == 4 && retriescal == 4
      ensures exit == NotTaken ==> !AllTaken()
      ensures exit == SeekError(true) ==> !Cooperative()
      ensures senses >= old(senses) && (NoneEnds(old(senses)) && exit == Complete ==> seeks == old(seeks) && t == Broken)
      ensures exit == Complete ==>
                && retriesrw' <= 4 && retriescal' <= 4
                && 5 * retriescal' + retriesrw' == 5 * retriescal + retriesrw + if t == Broken then 1 else 0
      ensures Heard(old(seeks), seeks)
      ensures exit == Complete && t == Whole ==> |seeks| > |old(seeks)|
      ensures exit == Complete ==> over == TrackByte()
    {
      exit, retriesrw', retriescal' := Complete, retriesrw, retriescal;
      if t == Broken {
        exit, retriesrw', retriescal' := CountError(retriesrw, retriescal);
        if exit != Complete || retriesrw <= FDC_RW_RETRIES { return; }
      }
      var sought := Seek();
      if sought == NotIssued { exit := NotTaken; }
      if sought == Missed { exit := SeekError(true); }
    }

    /** The seeks of a read in progress, before which the given seeks had been made and s statuses read. */
    ghost predicate Seeking(blocks: nat, left: nat, made: seq<Byte>, s: nat, now: seq<Byte>, read: nat) {
      && Heard(made, now) && !LostSeek(now, |made|) && (|now| == |made| ==> left == blocks)
      && s <= read && (NoneEnds(s) ==> |now| == |made|)
    }

    /** One transfer and what follows it. */
    method Round(buffer: array<Byte>, ghost before: seq<Byte>, ghost start: nat, blocks: nat, left: nat, readblk: nat,
                 retriesrw: nat, retriescal: nat, ghost errors: nat, ghost log0: seq<Started>, ghost made: seq<Byte>, ghost s: nat)
      returns (ended: bool, exit: Exit, left': nat, readblk': nat, retriesrw': nat, retriescal': nat, ghost errors': nat)
      requires Valid() && buffer != cmd && buffer != result && Bytes(g, blocks) <= buffer.Length
      requires transfers == |log| && Requested(start, blocks, left, readblk)
      requires Data(buffer[..], before, start, blocks, left, errors, log0, blnr, log)
      requires errors == 5 * retriescal + retriesrw && retriesrw <= 4 && retriescal <= 4 && Seeking(blocks, left, made, s, seeks, senses)
      requires motorOn && over == TrackByte()
      modifies cmd, result, buffer, this`issued, this`senses, this`over, this`transfers, this`log, this`blnr, this`seeks
      ensures transfers == |log| && Data(buffer[..], before, start, blocks, left', errors', log0, blnr, log)
      ensures ended ==> Counted(exit, errors') && Final(exit, start, blocks, left', made, s, seeks)
      ensures !ended ==>
                && Requested(start, blocks, left', readblk') && Seeking(blocks, left', made, s, seeks, senses)
                && errors' == 5 * retriescal' + retriesrw' && retriesrw' <= 4 && retriescal' <= 4
                && (errors' == errors + 1 || (errors' == errors && left' < left)) && over == TrackByte()
    {
      retriesrw', retriescal' := retriesrw, retriescal;
      var t;
      t, left', readblk', errors' := ReadChunk(buffer, before, start, blocks, left, readblk, errors, log0);
      if t == Refused { return true, NotTaken, left', readblk', retriesrw', retriescal', errors'; }
      if t == Whole && left' == 0 { return true, Complete, left', readblk', retriesrw', retriescal', errors'; }
      ghost var now := buffer[..];
      ended, exit, retriesrw', retriescal' :=
        AfterTransfer(t, start, blocks, left, left', retriesrw, retriescal, errors, errors', made, s);
      assert buffer[..] == now;
    }

    /** Counters and seeks after a transfer that does not end the read. */
    method AfterTransfer(t: Transfer, ghost start: nat, blocks: nat, ghost left: nat, ghost left': nat, retriesrw: nat,
                         retriescal: nat, ghost errors: nat, ghost errors': nat, ghost made: seq<Byte>, ghost s: nat)
      returns (ended: bool, exit: Exit, retriesrw': nat, retriescal': nat)
      requires Valid() && t != Refused && (t == Broken ==> left' == left)
      requires errors == 5 * retriescal + retriesrw && retriesrw <= 4 && retriescal <= 4 && Seeking(blocks, left, made, s, seeks, senses)
      requires (t == Broken ==> over == TrackByte()) && errors' == errors + if t == Broken then 1 else 0
      modifies cmd, result, this`issued, this`senses, this`over, this`seeks
      ensures ended ==> Counted(exit, errors') && Final(exit, start, blocks, left', made, s, seeks)
      ensures !ended ==>
                && over == TrackByte() && Seeking(blocks, left', made, s, seeks, senses)
                && errors' == 5 * retriescal' + retriesrw' && retriesrw' <= 4 && retriescal' <= 4
    {
      ghost var now := seeks;
      exit, retriesrw', retriescal' := NextRound(t, retriesrw, retriescal, |made|);
      ended := exit != Complete;
      HeardMore(made, now, seeks);
    }

    /** How the retry loop ends. */
    ghost predicate Final(exit: Exit, start: nat, blocks: nat, left: nat, made: seq<Byte>, s: nat, now: seq<Byte>)
      requires ValidGeometry(g)
    {
      && exit != SeekError(false) && (exit == NotTaken ==> !AllTaken()) && Heard(made, now)
      && (exit == SeekError(true) <==> LostSeek(now, |made|))
      && (exit == Complete ==> left == 0 && (NoneEnds(s) ==> blocks <= g.sect - Within(g, start)))
    }

    /** The retry loop. */
    method ReadBlocks(buffer: array<Byte>, blocks: nat) returns (exit: Exit, ghost errors: nat, ghost left: nat)
      requires Valid() && buffer != cmd && buffer != result
      requires blnr + blocks <= DiskBlocks(g) && Bytes(g, blocks) <= buffer.Length && transfers == |log|
      requires motorOn && over == TrackByte()
      modifies cmd, result, buffer, this`issued, this`senses, this`over, this`transfers, this`log, this`blnr, this`seeks
      ensures transfers == |log| && Data(buffer[..], old(buffer[..]), old(blnr), blocks, left, errors, old(log), blnr, log)
      ensures Counted(exit, errors) && Final(exit, old(blnr), blocks, left, old(seeks), old(senses), seeks)
    {
      ghost var before, start, log0, made, s := buffer[..], blnr, log, seeks, senses;
      var retriesrw: nat, retriescal: nat, leftNow: nat := 0, 0, blocks;
      var readblk := Chunk(blnr, blocks, blocks);
      NoData(buffer[..], blnr, blocks, log);
      errors, exit := 0, Complete;
      var ended := false;
      while !ended
        invariant transfers == |log| && Data(buffer[..], before, start, blocks, leftNow, errors, log0, blnr, log)
        invariant ended ==> Counted(exit, errors) && Final(exit, start, blocks, leftNow, made, s, seeks)
        invariant !ended ==>
                    && Requested(start, blocks, leftNow, readblk) && Seeking(blocks, leftNow, made, s, seeks, senses)
                    && errors == 5 * retriescal + retriesrw && retriesrw <= 4 && retriescal <= 4 && over == TrackByte()
        decreases !ended, MAX_ABSORBED + 1 - errors, leftNow
      {
        ended, exit, leftNow, readblk, retriesrw, retriescal, errors :=
          Round(buffer, before, start, blocks, leftNow, readblk, retriesrw, retriescal, errors, log0, made, s);
      }
      left := leftNow;
    }
  }

  /** A disk of two tracks with one sector each. */
  function SmallDisk(): (g: Geometry)
    ensures ValidGeometry(g) && DiskBlocks(g) == 2 && Bytes(g, 2) == 256 && Within(g, 0) == 0
  {
    var g := Geometry(1, 1, 2, 0, 0);
    assert Bytes(g, 1) == 128;
    g
  }

  /** Both blocks of it are read, and the second seek does not end. */
  method SmallDiskWitness() returns (ok: bool, interrupts: bool)
    ensures !ok && !interrupts
  {
    var d := new Drive(SmallDisk(), seq(256, _ => 0), _ => Fate(-1, _ => 0), _ => true, k => if k == 0 then 0x20 else 0,
                       _ => 0, 0, 0);
    var buffer := new Byte[256];
    ok := d.LoseInterrupts(buffer, 2);
    interrupts := d.interrupts;
  }
}
