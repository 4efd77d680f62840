# Dafny models of U-Boot's memory, transfer and debugging commands

This project models the algorithms behind a set of U-Boot commands (tree `U-boot.MS120`) and proves what they
promise. Check everything with `dafny verify dfyconfig.toml`.

| files | what they model |
|---|---|
| `MemTest.dfy` | `do_mem_test`: RAM as an address decoder in front of cells with stuck bits; the test of data lines, address lines and cells |
| `Kermit.dfy`, `KermitFrames.dfy`, `KermitTransfer.dfy`, `KermitLimits.dfy`, `KermitReceiver.dfy` | the Kermit receiver as an automaton over characters, packets on the line and their damage, whole transfers against a stop-and-wait sender, what they can and cannot recover from, and the receiver's loops with its static variables |
| `Floppy.dfy` | `fdc_read_data` with its two nested retry counters, against a controller that moves a head, acts on the command bytes and may stop any transfer at any byte |
| `Bedbug.dfy`, `BedbugStep.dfy`, `BedbugIsa.dfy` | the PowerPC assembler, the operand printer and the single-stepper, over any well-formed opcode table, and the stepper against the architecture on instruction words |
| `LogBuffer.dfy` | the log ring in both memory layouts, and the tagging of messages in the scratch buffer |
| `Bootstage.dfy`, `BootstageStash.dfy`, `BootstageNames.dfy` | stashing boot stage records in a buffer and reading them back, and what comes back of each record |
| `FlashPlan.dfy` | from an address range to the sectors of each flash bank, and software protection |
| `SRecord.dfy`, `SRecordTransfer.dfy`, `SRecordFiles.dfy` | Motorola S-records: format, decoder, saving memory and loading it, and files of records of every type |
| `FdtProp.dfy`, `FdtEdges.dfy`, `FdtDump.dfy`, `Numbers.dfy` | printing and parsing device tree properties, the edges of their formats, their text character by character, and `simple_strtoul` |
| `Ini.dfy`, `IniRows.dfy` | the INI parser, and what lines of every kind mean to it |
| `Eeprom.dfy`, `EepromPages.dfy` | reading and writing an I2C EEPROM in pieces, and which requests suit its pages |
| `I2cMux.dfy` | buses behind I2C multiplexers |
| `Basics.dfy`, `Arith.dfy` | bytes, text and arithmetic shared by the others |

The target is a 32-bit machine: `ulong` has 32 bits, and counters and addresses wrap where the code lets them.
Code that changes variables step by step is a method with loops, proved equal to a specification function or to the
property itself; the lemmas are about those functions.

What the proofs found about the code:

- The RAM test uses address 0 as a scratch word, so it always fails on a region that begins there; elsewhere it is exact.
- A byte equal to the Kermit quote character is lost exactly when that character lies in 0x3f..0x5f, outside what the protocol allows.
- The length of a Kermit packet has to arrive printable, and its sequence number has to arrive. A control character in the
  place of either makes the receiver go back over acknowledged data, unless it has seen the awaited packet before, nothing
  was acknowledged yet, or the last packet delivered nothing (`KermitLimits.OpeningMustArrive`); a file of one byte can so
  be received with the length 0 (`KermitLimits.LostByteWitness`). A wrong number in a packet that is refused does harm
  in exactly two cases: the receiver has accepted the awaited packet, which delivers data, and the acknowledgement was lost;
  or it has not seen the awaited packet, and the number is that of the packet before it, which delivered data
  (`KermitLimits.NumberMustArrive`). In the first case data is received twice, and a file of one byte can have the length 2
  (`KermitLimits.DoubledByteWitness`).
- A Kermit sender can always be moved on by sending the awaited packet again until the receiver has returned
  (`KermitLimits.CanAdvance`); if the acknowledgement of the break packet is lost, it waits for ever (`KermitLimits.LostLastAck`).
- A floppy read returns with interrupts still disabled exactly if a seek behind the first one did not end
  (`Floppy.Drive.ReadData`, `Floppy.Drive.LoseInterrupts`, `Floppy.SmallDiskWitness`).
- Logging a message in two pieces differs from logging it whole exactly when the cut goes through a level tag.
- The stepper goes where the processor goes unless a taken branch has a reserved z bit set and does not lead to the
  next word, or goes to an unaligned address in LR or CTR (`BedbugIsa.TableStepIsIsa`, `BedbugIsa.ReservedWitness`, `BedbugIsa.UnalignedWitness`).
- `bootstage_unstash` protects the table of records in a buffer of known size; with size -1 it accepts a count that wraps
  (`Bootstage.TableIsProtected`, `Bootstage.WrapsCountWitness`).
- `i2c_mux_ident_muxstring` adds a bus for every string, although its comment speaks of correct ones. A string whose last
  multiplexer misses fields is changed in memory: the bytes behind it, or its terminator (`I2cMux.UnchangedExactly`,
  `I2cMux.TerminatorKept`, `I2cMux.NoChannelWitness`).
- Loading the S-records of an empty save reports two bytes.
- `print_data` takes a property for a string or not depending on the byte behind it exactly if the property is text that
  ends in a newline (`FdtEdges.NextByteDecides`); `fdt_parse_prop` runs past the last argument exactly if a bracket is
  not closed and everything behind it converts (`FdtEdges.OverrunExactly`).
- With EEPROM pages longer than 256 bytes a write stays inside its pages exactly if every page boundary strictly inside
  it is a multiple of 128 bytes behind its offset; any other request is written wrongly (`EepromPages.LargePages`,
  `EepromPages.FlatExactly`).
- An INI line of 199 characters and its newline already leaves the line buffer without a terminator
  (`Ini.BufferTerminated`, `Ini.OverlongWitness`). A comment behind a separator with no value before it becomes the value
  (`IniRows.CommentBecomesValue`).

## Model

| member | source | states |
|---|---|---|
| `MemTest.Ram.Read` | U-boot.MS120/common/cmd_mem.c:663-676 | a cell answers what its sound bits hold and what its stuck bits are stuck at |
| `MemTest.Ram.Write` | U-boot.MS120/common/cmd_mem.c:659-669 | a write changes the one cell behind the address |
| `MemTest.SoundCellHolds` | U-boot.MS120/common/cmd_mem.c:785-823 | a cell without stuck bits gives back every word |
| `MemTest.ComplementPairExposesFaults` | U-boot.MS120/common/cmd_mem.c:794-823 | a cell that answers x to w and the complement of x to the complement of w has no stuck bit, and w is x: aliasing and stuck bits cannot mask each other |
| `MemTest.PassMeansHealthy` | U-boot.MS120/common/cmd_mem.c:785-823 | if every first user of a cell found its pattern in both passes, no two words share a cell and no bit is stuck |
| `MemTest.FindFirst` | U-boot.MS120/common/cmd_mem.c:785-823 | every alias class has a first member |
| `MemTest.FindLast` | U-boot.MS120/common/cmd_mem.c:785-823 | every alias class has a last member, whose pattern stays in the cell |
| `MemTest.FillCells` | U-boot.MS120/common/cmd_mem.c:785-788 | after the fill each cell holds the pattern of the last word that uses it; the stores are word i getting i + 1, in order |
| `MemTest.CheckAndInvertCells` | U-boot.MS120/common/cmd_mem.c:794-806 | no error means every first user found its pattern; healthy RAM gives no error; afterwards the inverted patterns stand; each word is loaded and stored once, in order |
| `MemTest.CheckAndZeroCells` | U-boot.MS120/common/cmd_mem.c:812-823 | the same for the inverted patterns; all words are zero afterwards |
| `MemTest.ShiftedValue` | U-boot.MS120/common/cmd_mem.c:658-658 | shifting k times multiplies by 2^k in 32 bits |
| `MemTest.ProbeDataLine` | U-boot.MS120/common/cmd_mem.c:659-667 | one probe fails exactly when the cell, written last through start[0] or through address 0, does not return the value |
| `MemTest.DataLineRound` | U-boot.MS120/common/cmd_mem.c:658-677 | a round of two probes passes exactly when start[0] has a cell of its own without stuck bits |
| `MemTest.CheckDataLines` | U-boot.MS120/common/cmd_mem.c:655-678 | no error if and only if the cell of start[0] is not the one behind address 0 and has no stuck bit; the accesses are those of the eight walking patterns and their complements |
| `MemTest.WalkDataLines` | U-boot.MS120/common/cmd_mem.c:656-677 | one pattern, shifted left until nothing is left of it: the same, with its accesses |
| `MemTest.WritePower` | U-boot.MS120/common/cmd_mem.c:726-766 | if the power-of-two offsets have cells of their own, writing one leaves the others alone |
| `MemTest.CheckPowers` | U-boot.MS120/common/cmd_mem.c:737-764 | no error if and only if every power-of-two offset but the skipped one reads as the pattern |
| `MemTest.Toggle` | U-boot.MS120/common/cmd_mem.c:730-765 | a word holds the anti-pattern exactly while the power-of-two offsets are looked at |
| `MemTest.FillPowers` | U-boot.MS120/common/cmd_mem.c:726-728 | distinct power-of-two offsets hold the pattern afterwards |
| `MemTest.CheckStuckHigh` | U-boot.MS120/common/cmd_mem.c:730-747 | on sound cells no error means no power-of-two offset shares the cell of word 0 |
| `MemTest.CheckShorted` | U-boot.MS120/common/cmd_mem.c:753-765 | on sound cells no error means no other power-of-two offset shares the cell of the one under test |
| `MemTest.CheckAddressLines` | U-boot.MS120/common/cmd_mem.c:710-766 | on sound cells no error if and only if word 0 and the words at power-of-two offsets all have cells of their own; the accesses are those of the three address line phases |
| `MemTest.DoMemTest` | U-boot.MS120/common/cmd_mem.c:628-830 | returns 0 if and only if the decoder is injective on the region, no bit of its cells is stuck, and start[0] is not the cell behind address 0; the error count cannot wrap to 0; whatever is read, the accesses are those of all phases in order |
| `Kermit.FeedConcat` | U-boot.MS120/common/cmd_load.c:830-969 | the automaton reads a line piece by piece |
| `Kermit.StaysStopped` | U-boot.MS120/common/cmd_load.c:853-967 | a receiver that returned ignores the rest of the line |
| `KermitFrames.CharRoundTrip` | U-boot.MS120/common/cmd_load.c:860-871 | tochar and untochar are inverse on the numbers a packet may hold |
| `KermitFrames.FrameHeader` | U-boot.MS120/common/cmd_load.c:860-923 | the receiver reads from a frame the number, type and length it was built with, extended or not |
| `KermitFrames.DataRunKeeps` | U-boot.MS120/common/cmd_load.c:649-701 | decoding writes at and above the position it starts from only |
| `KermitFrames.SkipNoise` | U-boot.MS120/common/cmd_load.c:847-858 | characters between packets change nothing |
| `KermitFrames.Acceptance` | U-boot.MS120/common/cmd_load.c:847-969 | an intact frame is acknowledged and its data delivered from the checkpoint or the current position |
| `KermitFrames.RefusedFrame` | U-boot.MS120/common/cmd_load.c:860-958 | any frame the receiver refuses is answered with a NAK for the number it carries, and leaves the decoder at the checkpoint of that number and memory below it unchanged |
| `KermitFrames.Rejection` | U-boot.MS120/common/cmd_load.c:952-958 | a copy of a packet whose number arrived, damaged by changed, lost or inserted characters, is answered with a NAK for the packet; the decoder is at the checkpoint of its packet, memory below it is unchanged |
| `KermitFrames.CutFrame` | U-boot.MS120/common/cmd_load.c:860-951 | a frame that stops short leaves the receiver in the middle of the packet, with no reply and memory below the checkpoint unchanged |
| `KermitFrames.SentAgain` | U-boot.MS120/common/cmd_load.c:860-958 | the frame sent again behind one that stopped short is damage the receiver sees |
| `KermitFrames.FoldNotices` | U-boot.MS120/common/cmd_load.c:579-587 | the 6-bit block check changes when the sum changes by any power of two up to 128 |
| `KermitFrames.CheckNotices` | U-boot.MS120/common/cmd_load.c:943-948 | one flipped bit in any summed character changes the expected check character |
| `KermitFrames.WholeFails` | U-boot.MS120/common/cmd_load.c:894-951 | wherever a wrong length field puts the block check, a text with one terminator in last place and a wrong block check before it shows its damage |
| `KermitFrames.OneBitIsDamage` | U-boot.MS120/common/cmd_load.c:894-951 | one flipped bit in any character behind the start is damage the receiver sees, if length and number stay printable |
| `KermitFrames.KnownFrames` | U-boot.MS120/common/cmd_load.c:579-587 | two frames, a short and a long one, written out in bytes |
| `KermitFrames.DamagedOpening` | U-boot.MS120/common/cmd_load.c:860-892 | a control character for length or number ends the packet at once, like any packet error |
| `KermitTransfer.AcceptStep` | U-boot.MS120/common/cmd_load.c:875-969 | an intact copy of the awaited packet keeps the invariant, whether the ACK arrives or is lost |
| `KermitTransfer.RejectStep` | U-boot.MS120/common/cmd_load.c:875-958 | a damaged copy, of any length, keeps the invariant and is answered with a NAK for its number |
| `KermitTransfer.CutStep` | U-boot.MS120/common/cmd_load.c:860-951 | a copy that stops short leaves the acknowledged data in place and the receiver in the middle of the packet |
| `KermitTransfer.InvStep` | U-boot.MS120/common/cmd_load.c:830-969 | every step of line, receiver and sender keeps the invariant |
| `KermitTransfer.InvAlways` | U-boot.MS120/common/cmd_load.c:830-969 | the invariant holds after every run |
| `KermitTransfer.TransferIsSafe` | U-boot.MS120/common/cmd_load.c:637-969 | in every run memory from the load address on holds the decoded data of the acknowledged packets once and in order; a receiver that returned holds the whole file and returns its length; it returns once the last packet is acknowledged |
| `KermitTransfer.DataRunDecodes` | U-boot.MS120/common/cmd_load.c:649-701 | memory and position follow the decoded text character by character |
| `KermitTransfer.QuoteByteRoundTrip` | U-boot.MS120/common/cmd_load.c:569-577 | a quoted byte is recovered if and only if it is not the quote character in the range `ktrans` takes for a control character |
| `KermitTransfer.FileRoundTrip` | U-boot.MS120/common/cmd_load.c:569-701 | every byte string is recovered from its quoted form |
| `KermitTransfer.CutsDoNotMatter` | U-boot.MS120/common/cmd_load.c:668-701 | the decoded data does not depend on how the quoted text is cut into packets, even between quote and character, and is decoded with the sixth parameter of the send-init packet or # |
| `KermitTransfer.FileArrives` | U-boot.MS120/common/cmd_load.c:637-969 | a file quoted with the sixth parameter of the send-init packet, or with # if it has fewer, cut anywhere and sent over the bad line, is in memory when the receiver returns its length |
| `KermitLimits.OpeningMustArrive` | U-boot.MS120/common/cmd_load.c:860-892 | in every run a control character for length or number leaves the transfer right if and only if the awaited packet was seen before, nothing was acknowledged yet, or the last acknowledged packet delivered nothing |
| `KermitLimits.NumberMustArrive` | U-boot.MS120/common/cmd_load.c:869-892 | in every run a frame that is refused under a wrong number leaves the transfer right if and only if, where the receiver has answered the awaited packet, it refused it or the packet delivers nothing, and where it has not, the number is not that of the packet before or that packet delivered nothing |
| `KermitLimits.OtherBitsDoNoHarm` | U-boot.MS120/common/cmd_load.c:860-958 | in every run one flipped bit elsewhere in a frame, behind its start, leaves the transfer right |
| `KermitLimits.LostByteWitness` | U-boot.MS120/common/cmd_load.c:860-969 | a session of one data byte in which such a character comes once, every packet is acknowledged, and the length returned is 0 |
| `KermitLimits.DoubledByteWitness` | U-boot.MS120/common/cmd_load.c:869-969 | a session of one data byte with a lost acknowledgement and a wrong number, in which every packet is acknowledged and the length returned is 2 |
| `KermitLimits.FrameAdvances` | U-boot.MS120/common/cmd_load.c:830-969 | from every reachable waiting state an intact frame whose reply arrives moves the sender on |
| `KermitLimits.FrameWakes` | U-boot.MS120/common/cmd_load.c:860-958 | a receiver left in the middle of a packet waits for packets again after the next frame |
| `KermitLimits.ReturnedForGood` | U-boot.MS120/common/cmd_load.c:853-967 | once the receiver has returned, nothing that is sent moves the sender on |
| `KermitLimits.CanAdvance` | U-boot.MS120/common/cmd_load.c:796-969 | in every reachable state the sender can move on if and only if the receiver has not returned; stuck it can only be at the break packet |
| `KermitLimits.LostLastAck` | U-boot.MS120/common/cmd_load.c:796-969 | in every run that has come to the break packet, a lost reply to it lets the receiver return and leaves the sender where it is, whatever is sent after |
| `KermitReceiver.Receiver.KDataSave` | U-boot.MS120/common/cmd_load.c:674-678 | the checkpoint takes address and pending quote |
| `KermitReceiver.Receiver.KDataRestore` | U-boot.MS120/common/cmd_load.c:680-684 | the rollback restores both |
| `KermitReceiver.Receiver.KDataChar` | U-boot.MS120/common/cmd_load.c:686-701 | one data character acts as the automaton's decoder |
| `KermitReceiver.Receiver.SaveParameter` | U-boot.MS120/common/cmd_load.c:935-941 | the parameter buffer keeps the first parameters, its last byte being overwritten once it is full |
| `KermitReceiver.Receiver.HandleSendPacket` | U-boot.MS120/common/cmd_load.c:709-793 | the quote character is the sixth parameter if it was sent, and # otherwise; the packet is acknowledged |
| `KermitReceiver.Receiver.ReceiveOpening` | U-boot.MS120/common/cmd_load.c:860-892 | length, number, and rollback or checkpoint as in the automaton |
| `KermitReceiver.Receiver.ReceiveExtendedLength` | U-boot.MS120/common/cmd_load.c:901-923 | the extended length is taken if the header check matches |
| `KermitReceiver.Receiver.ReceiveBody` | U-boot.MS120/common/cmd_load.c:925-942 | data goes to memory, parameters to their buffer |
| `KermitReceiver.Receiver.ReceiveCheck` | U-boot.MS120/common/cmd_load.c:943-951 | block check and terminator decide as in the automaton |
| `KermitReceiver.Receiver.KRecv` | U-boot.MS120/common/cmd_load.c:796-969 | return value, replies and memory are those of the automaton on the whole line |
| `Floppy.PlaceIsOnDisk` | U-boot.MS120/common/cmd_fdc.c:277-281 | track, head and sector of a block map back to the block and lie on the disk |
| `Floppy.BytesIsProduct` | U-boot.MS120/common/cmd_fdc.c:467-467 | the length of a transfer is sectors times sector size |
| `Floppy.WithinIsMod` | U-boot.MS120/common/cmd_fdc.c:459-459 | the position on a track side is the remainder by the sectors per side |
| `Floppy.WithinAtSideEnd` | U-boot.MS120/common/cmd_fdc.c:528-530 | behind the last sector of a side the next side begins |
| `Floppy.Drive.IssueCmd` | U-boot.MS120/common/cmd_fdc.c:273-364 | a READ carries the place of the current block and the format of the disk in its command bytes, a SEEK its drive, side and track; a SEEK that ends puts the head over the track, a RECALIBRATE over track 0 |
| `Floppy.Drive.SetUp` | U-boot.MS120/common/cmd_fdc.c:273-345 | the command bytes: the drive byte has bit 2 set exactly if the side is 1, and never for a RECALIBRATE |
| `Floppy.Drive.Seek` | U-boot.MS120/common/cmd_fdc.c:403-412 | a seek that ends leaves the head over the track of the current block |
| `Floppy.Drive.DeliversTheDisk` | U-boot.MS120/common/cmd_fdc.c:475-482 | a READ that is not cut short delivers the bytes of the image at the block it was issued for, if the motor runs, the head is over its track and its side is selected |
| `Floppy.Drive.ReceiveBytes` | U-boot.MS120/common/cmd_fdc.c:475-516 | a transfer is whole exactly when the controller does not stop; then the slice of the image is in the buffer; nothing outside it changes |
| `Floppy.Drive.ReadSectors` | U-boot.MS120/common/cmd_fdc.c:466-516 | the READ started is addressed as its first block and stays on one side of one track |
| `Floppy.Drive.NextTransfer` | U-boot.MS120/common/cmd_fdc.c:517-530 | buffer position, disk position and block number of the next transfer agree |
| `Floppy.Drive.FillStep` | U-boot.MS120/common/cmd_fdc.c:517-530 | a broken transfer loses nothing read before, a whole one extends it |
| `Floppy.Drive.CountError` | U-boot.MS120/common/cmd_fdc.c:490-512 | the two counters together count errors; they give up exactly at the 25th; the head goes to track 0 exactly when the inner counter is used up |
| `Floppy.Drive.ReadData` | U-boot.MS120/common/cmd_fdc.c:428-549 | on success the buffer holds exactly the requested blocks; the call absorbs at most 24 transfer errors and the 25th ends it; with a controller that takes every command and ends every seek it succeeds if and only if there are at most 24; nothing behind the request is written; interrupts are as before unless the last seek, not being the first, did not end; the seek statuses are answers of the controller |
| `Floppy.Drive.LoseInterrupts` | U-boot.MS120/common/cmd_fdc.c:428-549 | with every controller that ends no seek but the first, a read of more than the rest of a side fails and leaves the interrupts off |
| `Floppy.SmallDiskWitness` | U-boot.MS120/common/cmd_fdc.c:428-549 | a disk of two blocks on which a read leaves the interrupts off |
| `Floppy.Drive.SeekAndRead` | U-boot.MS120/common/cmd_fdc.c:444-544 | a first seek that does not end stops the call before anything is read; otherwise the retry loop decides, with the head over the track of the first block |
| `Floppy.Drive.Round` | U-boot.MS120/common/cmd_fdc.c:457-543 | one transfer and what follows keep the data read, the two counters, the seeks and the head's track in step, and each round reads more or counts an error |
| `Floppy.Drive.NextRound` | U-boot.MS120/common/cmd_fdc.c:485-543 | the loop gives up exactly at a broken transfer with both counters used up, and ends in a seek error exactly if the last seek did not end |
| `Floppy.Drive.ReadBlocks` | U-boot.MS120/common/cmd_fdc.c:456-544 | the retry loop: the same, before motor and interrupts are restored |
| `Bedbug.ValOfBits` | U-boot.MS120/common/bedbug.c:390-395 | a number is read back from n bits if and only if it fits them |
| `Bedbug.SignedOfBits` | U-boot.MS120/common/bedbug.c:263-266 | the same for two's complement |
| `Bedbug.AddressRoundTrip` | U-boot.MS120/common/bedbug.c:863-879 | an address operand prints as written if and only if the displacement is a multiple of 4 in reach of the field |
| `Bedbug.AssembledElsewhere` | U-boot.MS120/common/bedbug.c:795-828 | bits outside the filled-in fields are the opcode word's |
| `Bedbug.WrittenOperand` | U-boot.MS120/common/bedbug.c:373-400 | a written operand is read back from the instruction |
| `Bedbug.SilentOperand` | U-boot.MS120/common/bedbug.c:802-812 | a silent operand has the value the opcode word gives it |
| `Bedbug.ArgIndexIs` | U-boot.MS120/common/bedbug.c:798-812 | the texts are taken by the fields that are not silent, one each, in order |
| `Bedbug.RegisterIsKept` | U-boot.MS120/common/bedbug.c:880-900 | a register the assembler accepts is the one in the instruction |
| `Bedbug.Assemble` | U-boot.MS120/common/bedbug.c:795-840 | an instruction is returned exactly when there are enough operands and no register above 31, and then it is the opcode word with every operand in its field |
| `Bedbug.AssembledPrints` | U-boot.MS120/common/bedbug.c:245-275 | an operand of an assembled instruction prints as it was written if and only if it is representable |
| `BedbugStep.DecisionIsIsa` | U-boot.MS120/common/bedbug.c:1160-1214 | the switch on BO decides like the architecture if and only if the z bits are zero or the branch is not taken |
| `BedbugStep.CrBitIsIsa` | U-boot.MS120/common/bedbug.c:1166-1197 | the condition bit the stepper looks at is the one BI names, counted from the most significant |
| `BedbugStep.SuccessorIsIsa` | U-boot.MS120/common/bedbug.c:1216-1233 | for a branch with given fields, exactly when the successor is the one the architecture defines |
| `BedbugStep.FirstIsFound` | U-boot.MS120/common/bedbug.c:373-400 | the operand found is the first field of that name |
| `BedbugStep.TargetIsPrinted` | U-boot.MS120/common/bedbug.c:1094-1126 | the target the stepper extracts is the address the disassembler prints |
| `BedbugStep.StepsToPrinted` | U-boot.MS120/common/bedbug.c:1105-1233 | a taken branch steps to the address printed for it |
| `BedbugStep.AssembledBranchSteps` | U-boot.MS120/common/bedbug.c:753-1235 | a branch assembled at A to T steps to T whenever it is taken |
| `BedbugStep.RowBcIsBranch` | U-boot.MS120/include/bedbug/tables.h:85-91 | the rows of bc, bcl, bca and bcla satisfy what the lemmas demand of a branch row |
| `BedbugStep.RowBIsBranch` | U-boot.MS120/include/bedbug/tables.h:95-101 | so do those of b, bl, ba and bla |
| `BedbugIsa.ExtractIsDecoded` | U-boot.MS120/common/bedbug.c:1094-1158 | for every b, bc, bclr and bcctr the stepper extracts target, AA, LK, BO and BI as the architecture reads them from the bits of the word |
| `BedbugIsa.RowMatches` | U-boot.MS120/include/bedbug/tables.h:85-131 | the table's rows for b, bc, bclr and bcctr are read as the architecture reads the word |
| `BedbugIsa.StepIsIsa` | U-boot.MS120/common/bedbug.c:1053-1235 | `find_next_address` on a branch word gives the architecture's next address if and only if the branch is not taken, or has no reserved bit set and a word-aligned target, or has one set and leads to the next word anyway |
| `BedbugIsa.TableStepIsIsa` | U-boot.MS120/common/bedbug.c:1053-1235 | the same for the row of the table that the word belongs to |
| `BedbugIsa.OrdinaryForm` | U-boot.MS120/common/bedbug.c:1094-1158 | the stepper takes an opcode for a branch only if the architecture does |
| `BedbugIsa.OrdinaryStep` | U-boot.MS120/common/bedbug.c:1216-1233 | an instruction that is no branch is stepped to the next word, as the processor does, with "step" and "next" alike |
| `BedbugIsa.NextVersusStep` | U-boot.MS120/common/bedbug.c:1216-1233 | on a branch word "next" stops behind a branch with LK set, and is "step" for any other; they differ only for one that the processor takes |
| `BedbugIsa.UnalignedWitness` | U-boot.MS120/common/bedbug.c:1128-1158 | a taken branch to an unaligned link register, where stepper and processor part |
| `BedbugIsa.ReservedWitness` | U-boot.MS120/common/bedbug.c:1160-1214 | a branch that is always taken, with reserved bits set: the processor takes it and the stepper does not |
| `LogBuffer.SplitLogging` | U-boot.MS120/common/cmd_log.c:279-324 | logging s and then t appends what logging s + t does if and only if the cut goes through no level tag at a line start |
| `LogBuffer.SplitLevel` | U-boot.MS120/common/cmd_log.c:274-324 | the level carried over agrees as well |
| `LogBuffer.TornTag` | U-boot.MS120/common/cmd_log.c:282-296 | a tag cut in two gets the default tag in front of it |
| `LogBuffer.LineByLine` | U-boot.MS120/common/cmd_log.c:279-324 | each line without a tag gets the default one, every other stays as it is |
| `LogBuffer.TagsAre` | U-boot.MS120/common/cmd_log.c:282-296 | the tags are <0> to <7>, and their digit is the level |
| `LogBuffer.LevelIs` | U-boot.MS120/common/cmd_log.c:281-318 | the level behind a piece of a line is that of its tag, or 4; behind a line there is none |
| `LogBuffer.WrapDifference` | U-boot.MS120/common/cmd_log.c:216-218 | end - start is right although both counters wrap |
| `LogBuffer.RingPut` | U-boot.MS120/common/cmd_log.c:298-313 | storing one byte keeps the most recent bytes in their slots |
| `LogBuffer.RecentIs` | U-boot.MS120/common/cmd_log.c:215-229 | the bytes shown are all or the last 16384 |
| `LogBuffer.Log.Reset` | U-boot.MS120/common/cmd_log.c:119-141 | nothing is logged any more; the level is kept |
| `LogBuffer.Log.PutChar` | U-boot.MS120/common/cmd_log.c:299-313 | either layout appends one byte |
| `LogBuffer.Log.TagLine` | U-boot.MS120/common/cmd_log.c:281-296 | the tag is found, or written over the three bytes before the line, which is not touched |
| `LogBuffer.Log.EmitLine` | U-boot.MS120/common/cmd_log.c:297-318 | the scratch buffer is logged up to and including the line feed |
| `LogBuffer.Log.PrintLine` | U-boot.MS120/common/cmd_log.c:279-324 | what a round logs and what is left make up what was left before, although the buffer is overwritten |
| `LogBuffer.Log.Printk` | U-boot.MS120/common/cmd_log.c:269-326 | the message is appended with its missing tags, and the level carried over |
| `LogBuffer.Log.Show` | U-boot.MS120/common/cmd_log.c:215-229 | shows the last min(total, LOGBUFF_LEN) bytes logged since the reset |
| `LogBuffer.Replay` | U-boot.MS120/common/cmd_log.c:119-326 | a run of prints and resets leaves what it says, in either layout |
| `LogBuffer.CompareLayouts` | U-boot.MS120/common/cmd_log.c:119-326 | after every run both layouts show the same bytes |
| `Bootstage.WordsReadBack` | U-boot.MS120/common/bootstage.c:36-57 | words stored one after the other are read back |
| `Bootstage.HeaderReadsBack` | U-boot.MS120/common/bootstage.c:52-57 | the four header fields are read back |
| `Bootstage.PrintableNameHasNoZero` | U-boot.MS120/common/bootstage.c:147-158 | a printable name is a string |
| `Bootstage.JoinedReadsBack` | U-boot.MS120/common/bootstage.c:427-435 | the k-th name is found where it was put, by skipping k strings |
| `Bootstage.ImageIsAccepted` | U-boot.MS120/common/bootstage.c:377-420 | an image passes the tests of unstash if and only if it lies in the buffer and there are enough free slots |
| `Bootstage.ImageReadsBack` | U-boot.MS120/common/bootstage.c:421-435 | an image holds exactly its records, in order, each with its name |
| `Bootstage.UnfinishedIsRejected` | U-boot.MS120/common/bootstage.c:402-407 | a header whose size was never filled in is never accepted |
| `Bootstage.TableIsProtected` | U-boot.MS120/common/bootstage.c:377-420 | data that passes the tests fits the table if the size is known; with size -1 exactly the headers whose count wraps do not |
| `Bootstage.WrapsCountWitness` | U-boot.MS120/common/bootstage.c:377-420 | a header of 2^32 - 1 records is accepted with size -1 |
| `Bootstage.WroteMore` | U-boot.MS120/common/bootstage.c:309-318 | appending keeps: all is written if it fits, the header always is, nothing behind the end is touched |
| `Bootstage.AppendData` | U-boot.MS120/common/bootstage.c:309-318 | data that ends inside the buffer is written, and the pointer moves on in any case |
| `BootstageStash.Stages.Stash` | U-boot.MS120/common/bootstage.c:320-375 | returns 0 if and only if header, records with a time and their names fit, and then wrote exactly these; otherwise an unfinished header stands there or nothing was written; bytes behind the size are never touched |
| `BootstageStash.Stages.Unstash` | U-boot.MS120/common/bootstage.c:377-443 | appends the stored records at the next slot exactly when the tests pass, and changes nothing otherwise |
| `BootstageStash.Stages.CopyRecords` | U-boot.MS120/common/bootstage.c:421-435 | each record stands in its slot with a pointer to its name in the stash |
| `BootstageStash.StashThenUnstash` | U-boot.MS120/common/bootstage.c:309-443 | after a successful stash an unstash with room appends exactly the stashed records, in order, under their printable names; after one that ran out of room it always fails |
| `BootstageStash.TableCanBeStashed` | U-boot.MS120/common/bootstage.c:337-365 | the records kept are those with a time, and they and their names meet what `StashThenUnstash` asks |
| `BootstageNames.KeptExactly` | U-boot.MS120/common/bootstage.c:337-365 | every record with a time is kept, at the place given by the number of those before it, and no other |
| `BootstageNames.RecordLayout` | U-boot.MS120/common/bootstage.c:36-50 | time, start, name pointer, flags and id stand in this order in a stored record |
| `BootstageNames.DecimalReads` | U-boot.MS120/common/bootstage.c:147-158 | a number in a name is written in digits that denote it, without leading zeros |
| `BootstageNames.NameIsRight` | U-boot.MS120/common/bootstage.c:147-158 | a record goes by its own name, or by user_ and the number behind the first user id, or by id= and its id |
| `BootstageNames.EachComesBack` | U-boot.MS120/common/bootstage.c:309-443 | after stash and unstash each record with a time is back, in order, with its time, start, flags and id, and under the name it goes by |
| `FlashPlan.ScanBank` | U-boot.MS120/common/cmd_flash.c:235-255 | finds the sector that starts at the first address and the one that ends at the last, if there are any |
| `FlashPlan.PlanBank` | U-boot.MS120/common/cmd_flash.c:231-285 | a choice starts at the cursor and ends with the range or the bank; the planner gives up only on a range that does not fit |
| `FlashPlan.PlanBanks` | U-boot.MS120/common/cmd_flash.c:224-286 | the loop over the banks keeps one contiguous run |
| `FlashPlan.FillSectRanges` | U-boot.MS120/common/cmd_flash.c:209-289 | a plan is one run from `addr_first` that never passes `addr_last`, with `*s_count` its number of sectors; on a gapless map there is a plan if and only if the range is on sector boundaries, and it ends with the range or the map |
| `FlashPlan.ProgressDone` | U-boot.MS120/common/cmd_flash.c:224-288 | on a gapless map sectors are chosen exactly for a range on boundaries |
| `FlashPlan.RunCovers` | U-boot.MS120/common/cmd_flash.c:256-275 | a plan covers exactly the bytes from its first address to its end |
| `FlashPlan.RoundToSectorEnd` | U-boot.MS120/common/cmd_flash.c:112-148 | an address in flash is moved to the end of its sector; any other is refused |
| `FlashPlan.LengthForm` | U-boot.MS120/common/cmd_flash.c:187-203 | the 32-bit sum start + length - 1 is the last byte, or nothing is planned |
| `FlashPlan.FlashInfo.SectProtect` | U-boot.MS120/common/cmd_flash.c:635-682 | exactly the flags of the planned sectors are set, or none |
| `FlashPlan.FlashInfo.ProtectLength` | U-boot.MS120/common/cmd_flash.c:168-206 | "start +len" covers every byte asked for and ends with the sector of the last one; done if and only if start begins a sector and the last byte is in flash |
| `SRecord.HexReadsBack` | U-boot.MS120/common/s_record.c:172-195 | bytes are read back from their hexadecimal text |
| `SRecord.AddressReadsBack` | U-boot.MS120/common/s_record.c:103-140 | an address is read back from its bytes |
| `SRecord.RecordSum` | U-boot.MS120/common/cmd_load.c:357-368 | the bytes of a record with its checksum add up to 0xff modulo 256 |
| `SRecord.RecordReadsBack` | U-boot.MS120/common/s_record.c:30-170 | a record of any supported type decodes to its type, address and data |
| `SRecord.DamageIsNoticed` | U-boot.MS120/common/s_record.c:152-169 | replacing any one byte behind the length field makes the record be refused |
| `SRecord.SrecDecode` | U-boot.MS120/common/s_record.c:30-170 | the decoder's loops compute `Decode`, with every error code |
| `SRecordTransfer.PlainLine` | U-boot.MS120/common/cmd_load.c:219-254 | a line shorter than the buffer is read whole |
| `SRecordTransfer.StoredAt` | U-boot.MS120/common/cmd_load.c:182-182 | a store changes its addresses and no others |
| `SRecordTransfer.RecordFits` | U-boot.MS120/common/cmd_load.c:334-337 | a data record fits its buffer with newline and zero, and a full one fills it |
| `SRecordTransfer.DataIsLoaded` | U-boot.MS120/common/cmd_load.c:160-190 | data records, however many, put their bytes in place |
| `SRecordTransfer.SaveThenLoad` | U-boot.MS120/common/cmd_load.c:145-385 | loading what was saved restores the same bytes at the same place, shifted by the offset, changes nothing else and reports their number; for no bytes it reports two |
| `SRecordTransfer.Board.SaveSerial` | U-boot.MS120/common/cmd_load.c:332-385 | sends start record, the memory in records of 16 bytes, end record |
| `SRecordTransfer.Board.ReadRecord` | U-boot.MS120/common/cmd_load.c:219-254 | takes one line from the console, cut at the buffer's size |
| `SRecordTransfer.Board.LoadSerial` | U-boot.MS120/common/cmd_load.c:145-217 | outcome and memory are those of `Load` on the pending input |
| `SRecordFiles.DigitIsRead` | U-boot.MS120/common/s_record.c:172-195 | a digit is read as its value in either case, and nothing else is |
| `SRecordFiles.RecordSpelled` | U-boot.MS120/common/cmd_load.c:355-372 | every character of a record on its line |
| `SRecordFiles.SavedFrame` | U-boot.MS120/common/cmd_load.c:327-329 | a save begins with S0030000FC and ends with S70500000000FA |
| `SRecordFiles.EntryIsRead` | U-boot.MS120/common/s_record.c:30-170 | records of types 1, 2 and 3 with 2, 3 and 4 address bytes, of types 7, 8 and 9 with 4, 3 and 2, and of types 0 and 5 with 2, decode to their address and data |
| `SRecordFiles.RecordsAreTaken` | U-boot.MS120/common/cmd_load.c:160-210 | a download goes on behind any records that do not end it |
| `SRecordFiles.FileIsLoaded` | U-boot.MS120/common/cmd_load.c:145-217 | a file of records of any types puts the data of every S1, S2 and S3 at its address plus the offset, later ones winning, and changes nothing else; the address of the closing record is returned, and the size spans the lowest and the highest address |
| `SRecordFiles.DamageAborts` | U-boot.MS120/common/cmd_load.c:160-166 | a record with a replaced byte ends the download, with what came before it in place |
| `SRecordFiles.ControlAborts` | U-boot.MS120/common/cmd_load.c:219-254 | so does a zero or ^C in a line |
| `SRecordFiles.LongLine` | U-boot.MS120/common/cmd_load.c:219-254 | a line that fills the buffer is cut there |
| `Numbers.ByteIsRead` | U-boot.MS120/lib/vsprintf.c:42-71 | `simple_strtoul` in base 16 reads back two hexadecimal digits and stops behind them |
| `FdtProp.CellIsRead` | U-boot.MS120/lib/vsprintf.c:42-71 | in base 0 it reads back a word printed as 0x and eight digits |
| `FdtProp.CellsReadBack` | U-boot.MS120/common/cmd_fdt.c:672-702 | the text of cells, cut at any spaces into arguments, parses to the cells |
| `FdtProp.BytesReadBack` | U-boot.MS120/common/cmd_fdt.c:703-724 | the same for a byte stream |
| `FdtProp.PrintThenParse` | U-boot.MS120/common/cmd_fdt.c:659-840 | data up to the dump limit that is not a printable string parses back from what is printed, however it is cut into arguments |
| `FdtProp.ParseThenPrint` | U-boot.MS120/common/cmd_fdt.c:724-811 | parsed strings print as the same strings if and only if they are visible and none but the first is empty |
| `FdtProp.SplitStrings` | U-boot.MS120/common/cmd_fdt.c:799-811 | concatenated strings are split at their terminators |
| `FdtProp.ParseProp` | U-boot.MS120/common/cmd_fdt.c:659-740 | the parser's loops compute `Parse` |
| `FdtProp.IsPrintableString` | U-boot.MS120/common/cmd_fdt.c:748-783 | the scanning loop decides `IsPrintable`, given the byte behind the data |
| `FdtProp.PrintData` | U-boot.MS120/common/cmd_fdt.c:791-840 | the printing loops compute `Print` |
| `FdtEdges.NextByteDecides` | U-boot.MS120/common/cmd_fdt.c:748-783 | the byte behind the data decides whether it is a string if and only if the data is visible text without two zeros side by side that ends in a newline |
| `FdtEdges.NewlineWitness` | U-boot.MS120/common/cmd_fdt.c:748-840 | the property "a" and newline prints as a string before a zero byte and as two bytes before any other |
| `FdtEdges.BytesUnclosed` | U-boot.MS120/common/cmd_fdt.c:703-724 | a byte stream without its bracket runs past the last argument if every word of it is a number, and is refused otherwise |
| `FdtEdges.CellsUnclosed` | U-boot.MS120/common/cmd_fdt.c:672-702 | the same for cells |
| `FdtEdges.UnclosedBracket` | U-boot.MS120/common/cmd_fdt.c:659-740 | a value whose bracket is not closed never gives data: it runs past the last argument exactly if everything converts, and is refused otherwise |
| `FdtEdges.CellsClosed` | U-boot.MS120/common/cmd_fdt.c:672-702 | cells with their bracket still ahead never run past the last argument |
| `FdtEdges.BytesClosed` | U-boot.MS120/common/cmd_fdt.c:703-724 | nor does a byte stream |
| `FdtEdges.OverrunExactly` | U-boot.MS120/common/cmd_fdt.c:659-740 | the parser runs past the last argument if and only if a bracket is opened, never closed, and everything behind it converts |
| `FdtEdges.DataIsClosed` | U-boot.MS120/common/cmd_fdt.c:659-740 | data parsed from a bracketed value was closed by its bracket |
| `FdtEdges.UnclosedWitness` | U-boot.MS120/common/cmd_fdt.c:672-724 | the arguments "[00" and "11", and "<1" and "2", run past the last one |
| `FdtDump.DumpIs` | U-boot.MS120/common/cmd_fdt.c:813-840 | every character printed for data that is no string: words if it is made of them, bytes otherwise, a summary for more than 64 bytes |
| `FdtDump.TwoStrings` | U-boot.MS120/common/cmd_fdt.c:799-811 | two strings print with quotes, a comma and a space between them |
| `FdtDump.WideByte` | U-boot.MS120/common/cmd_fdt.c:703-724 | a number of more than two digits in a byte stream counts with its last two |
| `Ini.PiecesTile` | U-boot.MS120/common/cmd_ini.c:103-126 | the pieces of `memgets` tile the input |
| `Ini.PiecesAreLines` | U-boot.MS120/common/cmd_ini.c:103-126 | each piece is one line |
| `Ini.FindIn` | U-boot.MS120/common/cmd_ini.c:83-92 | a character is found at its first place outside comments |
| `Ini.LineHandled` | U-boot.MS120/common/cmd_ini.c:159-220 | a clean section, pair, comment or blank line acts as it is meant, with or without continuation lines enabled |
| `Ini.RenderedIsParsed` | U-boot.MS120/common/cmd_ini.c:140-224 | text rendered from clean sections and pairs calls the handler once for each pair, in order, with its section, and returns 0 |
| `Ini.NoiseInLines` | U-boot.MS120/common/cmd_ini.c:159-220 | a blank or comment line put anywhere between lines, wrong ones included, leaves the handler's calls as they are, and moves the number of the first wrong line by one exactly if that is behind it |
| `Ini.NoiseChangesNothing` | U-boot.MS120/common/cmd_ini.c:140-224 | the same for any text in memory and whatever the handler answers |
| `Ini.BufferTerminated` | U-boot.MS120/common/cmd_ini.c:103-126 | the buffer holds a terminator if and only if the line with its newline is shorter than it, or has a zero in the part copied; then it reads as the line |
| `Ini.OverlongWitness` | U-boot.MS120/common/cmd_ini.c:103-126 | 199 characters and a newline leave no terminator, 198 do |
| `IniRows.RowHandled` | U-boot.MS120/common/cmd_ini.c:159-220 | a line of any kind does what it means: headers and settings with indentation and trailing comments, continuation lines, names cut to 49 characters, lines that are wrong |
| `IniRows.RowsAreParsed` | U-boot.MS120/common/cmd_ini.c:140-224 | text of such lines calls the handler as they mean, in order, and returns the number of the first line that is wrong or refused, and 0 if there is none |
| `IniRows.CommentBecomesValue` | U-boot.MS120/common/cmd_ini.c:190-200 | a comment behind a separator and white space is taken for the value |
| `Ini.FindCharOrComment` | U-boot.MS120/common/cmd_ini.c:83-92 | the loop computes `Find` |
| `Ini.MemGets` | U-boot.MS120/common/cmd_ini.c:103-126 | copies the next line cut to the buffer, with a terminator if there is room, and leaves the rest |
| `Ini.IniParse` | U-boot.MS120/common/cmd_ini.c:140-224 | the parser's loop over the line buffer computes `Parse`, with the number of the first wrong line |
| `Eeprom.PieceInPage` | U-boot.MS120/common/cmd_eeprom.c:247-275 | a piece is not empty, fits the I2C buffer and stays inside its page, if pages divide 256 |
| `Eeprom.PieceIsLargest` | U-boot.MS120/common/cmd_eeprom.c:247-275 | a piece is the rest, a full buffer, or goes to the end of its page |
| `EepromPages.FlatExactly` | U-boot.MS120/common/cmd_eeprom.c:247-275 | a request acts as one flat write on every content of the device if and only if none of its pieces leaves its page |
| `EepromPages.ByteLost` | U-boot.MS120/common/cmd_eeprom.c:247-275 | a request with a piece that leaves its page loses a byte |
| `EepromPages.SmallPages` | U-boot.MS120/common/cmd_eeprom.c:247-275 | with pages that divide 256 no piece of any request leaves its page |
| `EepromPages.LargePages` | U-boot.MS120/common/cmd_eeprom.c:254-264 | with larger pages, if and only if every page boundary strictly inside the request is a multiple of 128 behind its offset |
| `EepromPages.LargePageWitness` | U-boot.MS120/common/cmd_eeprom.c:254-264 | two bytes at the end of a page of 512: the second overwrites the beginning of the page |
| `Eeprom.DeviceIsFlat` | U-boot.MS120/common/cmd_eeprom.c:220-224 | inside a page a device whose counter wraps in the page acts like a flat array |
| `Eeprom.OrIsSum` | U-boot.MS120/common/cmd_eeprom.c:232-245 | putting in the device address does not disturb the block number if they share no bit |
| `Eeprom.Bank.CellIsOffset` | U-boot.MS120/common/cmd_eeprom.c:230-245 | chip and word address select the cell at the offset |
| `Eeprom.Bank.Write` | U-boot.MS120/common/cmd_eeprom.c:200-374 | with pages of any size exactly the acknowledged pieces reach the device, and it returns 0 exactly when all are; the transfers tile the request, inside their pages if and only if the request suits them; then a write returning 0 acts as one flat write, and nothing outside is touched |
| `Eeprom.FlatIfInPages` | U-boot.MS120/common/cmd_eeprom.c:226-374 | pieces that stay inside their pages make one flat write |
| `Eeprom.AckedOutside` | U-boot.MS120/common/cmd_eeprom.c:226-374 | they touch nothing outside the request, whichever of them are acknowledged |
| `Eeprom.Bank.Read` | U-boot.MS120/common/cmd_eeprom.c:126-189 | a read returning 0 returns what stands in the array; its transfers tile the request inside blocks, and each but the last is a full buffer or ends its block |
| `Eeprom.WrittenAll` | U-boot.MS120/common/cmd_eeprom.c:126-374 | what was written is what stands in the range afterwards |
| `I2cMux.JoinedReadsBack` | U-boot.MS120/common/cmd_i2c.c:2231-2241 | splitting joined fields at the colons gives the fields |
| `I2cMux.ShownReadsBack` | U-boot.MS120/common/cmd_i2c.c:2310-2369 | a string written from multiplexers is well formed and read as these |
| `I2cMux.AttemptsAll` | U-boot.MS120/common/cmd_i2c.c:2402-2415 | the writes are those of the multiplexers in order, up to the first that fails |
| `I2cMux.SearchNext` | U-boot.MS120/common/cmd_i2c.c:2231-2241 | finds the next colon, or reports the end, at once if it starts behind it |
| `I2cMux.AddressAt` | U-boot.MS120/common/cmd_i2c.c:2276-2278 | the field is terminated, read, and a colon put behind it |
| `I2cMux.ChannelAt` | U-boot.MS120/common/cmd_i2c.c:2284-2291 | the same, but a terminator stays one |
| `I2cMux.NextMux` | U-boot.MS120/common/cmd_i2c.c:2263-2302 | one round reads one multiplexer, a missing number as 0; memory is unchanged if no field is missing, and else the bytes at or behind the end are set as stated |
| `I2cMux.UnchangedExactly` | U-boot.MS120/common/cmd_i2c.c:2263-2302 | memory is left unchanged if and only if the string is well formed, or misses two fields and is followed by a colon and then a colon or a zero |
| `I2cMux.TerminatorKept` | U-boot.MS120/common/cmd_i2c.c:2263-2302 | the string keeps its characters, and its terminator if and only if it does not miss the last channel alone |
| `I2cMux.NoChannelWitness` | U-boot.MS120/common/cmd_i2c.c:2263-2302 | "a:70" is read with channel 0 and loses its terminator |
| `I2cMux.MuxTable.IdentImmediately` | U-boot.MS120/common/cmd_i2c.c:2254-2305 | sends the writes of any string in order up to the first failure; memory is as the string leaves it if the last multiplexer is reached, and unchanged otherwise |
| `I2cMux.MuxTable.Ident` | U-boot.MS120/common/cmd_i2c.c:2310-2377 | adds a device with a new bus number and the multiplexers of the string, whatever the string; bus numbers stay unique; memory is as the string leaves it |
| `I2cMux.MuxTable.SearchDevice` | U-boot.MS120/common/cmd_i2c.c:2213-2223 | finds the device with a bus number if there is one |
| `I2cMux.MuxTable.OnlyDevice` | U-boot.MS120/common/cmd_i2c.c:2243-2249 | a bus number belongs to one device |
| `I2cMux.MuxTable.Select` | U-boot.MS120/common/cmd_i2c.c:2379-2416 | sends the writes of the device with that number, and none if there is none |
| `I2cMux.MuxTable.IdentAndSelect` | U-boot.MS120/common/cmd_i2c.c:2310-2416 | adding a bus and selecting it sends what the immediate form sends and ends alike, for every string |

## Left out

- Console output, echo, `printf` layout, LEDs, delays, watchdog, cache flushes and ctrl-C checks.
- `do_mem_mtest`, image verification, decompression, libfdt, file systems, networking, xyzModem, UBI, GPT, register dumps and board initialisation.
- MemTest: faults that depend on time, on neighbouring cells or on the direction of a change; a region of more than 2^30 words.
- KermitReceiver.Receiver.HandleSendPacket: parameters other than the quote character, padding, and the text of replies.
- Kermit: characters of a frame behind its start may be changed, lost or inserted, and frames may stop short, but the sequence number has to arrive and the length to be printable; what happens otherwise is in `KermitLimits.OpeningMustArrive` and `KermitLimits.NumberMustArrive`. Damage that passes the block check and a start character behind the damage are outside the channel model.
- Kermit: addresses are integers without wrap-around.
- Floppy.Drive.ReadData: the polling timeouts are never tested by the code, so the controller is assumed to answer; result bytes of `fdc_terminate` are not modelled.
- Floppy.Drive.ReadData, Floppy.Drive.SeekAndRead, Floppy.Drive.ReadBlocks, Floppy.Drive.Round, Floppy.Drive.ReadSectors: requests past the end of the disk, for which the code computes tracks the disk does not have.
- Floppy: drive selection, configuration and the commands other than READ, SEEK, RECALIBRATE and SENSE INTERRUPT.
- Bedbug.Assemble: special-purpose and time-base register operands with their name lookup and error codes; register fields are at most five bits wide, as in the table.
- Bedbug: splitting of the text into words, finding the table row of a mnemonic or an instruction, simplified mnemonics, symbol names; the table is abstract, with the rows of b, bc, bclr and bcctr as instances.
- Bedbug: `htonl` is the identity, as on the big-endian target.
- LogBuffer: console output of logged messages, `log append` and `log info`, the warm-start handshake of `logbuff_init_ptrs`.
- LogBuffer.Log.Printk: messages longer than the scratch buffer, which `strcpy` would overrun.
- Bootstage: that names read back are pointers into the stash is in the model, that later writes to the stash change them is not; adding records and printing reports.
- BootstageStash.Stages.Unstash: data that passes the tests but whose names are not terminated, which the code says it assumes away, or whose count wraps as in `Bootstage.TableIsProtected`; pointer arithmetic that wraps.
- FlashPlan.FillSectRanges: banks that overlap or end at the top address.
- FlashPlan.FlashInfo.ProtectLength: maps with gaps, and the length 0.
- FlashPlan: erasing, hardware protection, the bank:sector form of addresses.
- SRecordTransfer.Board.LoadSerial: stores into flash; a data record with a length too small for its own address has a negative copy length and is reported as `Wild`.
- SRecordTransfer.SaveThenLoad: ranges that wrap past the top address.
- FdtProp: the scratch pad's size; the address printed for data that is too long.
- Ini: the zero bytes written into the line in place are modelled as shorter values; what the parser makes of an unterminated line; `ini_handler` beyond its answer.
- Eeprom: device addresses with a bit set where blocks are selected; SPI devices, FRAM, the X40430 control register and write delays; offsets beyond the device.
- I2cMux: `i2c_init_board` calls between writes; selection before relocation.
