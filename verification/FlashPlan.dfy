/**
 The flash range planner of common/cmd_flash.c: from an address range to a range of sectors
 in each bank, and the protect command that acts on it.
 */
module FlashPlan {

  const TOP := 0xFFFF_FFFF  // last address

  /** One flash bank: `start` holds the first address of each sector. */
  datatype Bank = Bank(known: bool, start: seq<nat>, size: nat)

  /** A detected bank has sectors in ascending order inside it and does not end at the last address. */
  ghost predicate ValidBank(b: Bank) {
    && |b.start| >= 1
    && (forall i :: 0 <= i < |b.start| - 1 ==> b.start[i] < b.start[i + 1])
    && b.start[|b.start| - 1] < b.start[0] + b.size <= TOP
  }

  ghost predicate ValidMap(banks: seq<Bank>) {
    forall b :: 0 <= b < |banks| && banks[b].known ==> ValidBank(banks[b])
  }

  function BankEnd(b: Bank): int
    requires |b.start| >= 1
  {
    b.start[0] + b.size - 1
  }

  /** Last address of a sector. */
  function SectorEnd(b: Bank, s: nat): int
    requires s < |b.start|
  {
    if s == |b.start| - 1 then BankEnd(b) else (b.start[s + 1] as int) - 1
  }

  lemma {:induction false} StartsAscend(b: Bank, i: nat, j: nat)
    requires ValidBank(b) && i <= j < |b.start|
    ensures b.start[i] <= b.start[j] && SectorEnd(b, i) <= SectorEnd(b, j)
    ensures i < j ==> SectorEnd(b, i) < b.start[j]
    ensures b.start[j] <= SectorEnd(b, j) <= BankEnd(b)
  {
    if i < j {
      StartsAscend(b, i, j - 1);
    }
    if j + 1 < |b.start| {
      LastSector(b, j + 1);
    }
  }

  lemma {:induction false} LastSector(b: Bank, j: nat)
    requires ValidBank(b) && j < |b.start|
    ensures b.start[j] <= b.start[|b.start| - 1]
    decreases |b.start| - j
  {
    if j + 1 < |b.start| {
      LastSector(b, j + 1);
    }
  }

  /** One pass of the planner over the sectors of a bank. */
  method ScanBank(b: Bank, addrFirst: nat, addrLast: nat) returns (sFirst: int, sLast: int)
    requires ValidBank(b) && addrFirst <= addrLast
    ensures -1 <= sFirst < |b.start| && -1 <= sLast < |b.start|
    ensures sFirst >= 0 ==> b.start[sFirst] == addrFirst
    ensures sFirst < 0 ==> forall s :: 0 <= s < |b.start| ==> b.start[s] != addrFirst
    ensures sLast >= 0 ==> SectorEnd(b, sLast) == addrLast
    ensures sLast < 0 ==> forall s :: 0 <= s < |b.start| ==> SectorEnd(b, s) != addrLast
  {
    sFirst, sLast := -1, -1;
    for sect := 0 to |b.start|
      invariant -1 <= sFirst < sect && -1 <= sLast < sect
      invariant sFirst >= 0 ==> b.start[sFirst] == addrFirst
      invariant sFirst < 0 ==> forall s :: 0 <= s < sect ==> b.start[s] != addrFirst
      invariant sLast >= 0 ==> SectorEnd(b, sLast) == addrLast
      invariant sLast < 0 ==> forall s :: 0 <= s < sect ==> SectorEnd(b, s) != addrLast
    {
      StartsAscend(b, sect, sect);
      var end := SectorEnd(b, sect);
      if addrFirst > end { continue; }
      if addrLast < b.start[sect] { continue; }
      if addrFirst == b.start[sect] {
        sFirst := sect;
      }
      if addrLast == end {
        sLast := sect;
      }
    }
  }

  /** The sectors chosen in one bank: none if `first` is negative. */
  datatype Choice = Choice(first: int, last: int)

  const NONE := Choice(-1, -1)

  /** A plan for the first banks of the map. */
  ghost predicate PlanFor(banks: seq<Bank>, plan: seq<Choice>) {
    && |plan| <= |banks|
    && forall b :: 0 <= b < |plan| && plan[b].first >= 0 ==> banks[b].known && plan[b].first <= plan[b].last < |banks[b].start|
  }

  /** The address behind the last sector chosen, or `addr` if there is none. */
  ghost function Cursor(banks: seq<Bank>, plan: seq<Choice>, addr: int): int
    requires PlanFor(banks, plan)
  {
    if plan == [] then addr
    else
      var n := |plan| - 1;
      if plan[n].first >= 0 then SectorEnd(banks[n], plan[n].last) + 1 else Cursor(banks, plan[..n], addr)
  }

  /** Number of sectors chosen. */
  ghost function Chosen(plan: seq<Choice>): int {
    if plan == [] then 0
    else
      var c := plan[|plan| - 1];
      Chosen(plan[..|plan| - 1]) + if c.first >= 0 then c.last - c.first + 1 else 0
  }

  /** The chosen sectors follow one another without a gap, the first starting at `addr`. */
  ghost predicate OneRun(banks: seq<Bank>, plan: seq<Choice>, addr: int)
    requires PlanFor(banks, plan)
  {
    plan == []
    || (var n := |plan| - 1;
        && OneRun(banks, plan[..n], addr)
        && (plan[n].first >= 0 ==> banks[n].start[plan[n].first] == Cursor(banks, plan[..n], addr)))
  }

  lemma Extend(banks: seq<Bank>, plan: seq<Choice>, addr: int, c: Choice)
    requires PlanFor(banks, plan) && |plan| < |banks|
    requires c.first >= 0 ==> banks[|plan|].known && c.first <= c.last < |banks[|plan|].start|
    ensures PlanFor(banks, plan + [c])
    ensures Cursor(banks, plan + [c], addr)
            == if c.first >= 0 then SectorEnd(banks[|plan|], c.last) + 1 else Cursor(banks, plan, addr)
    ensures Chosen(plan + [c]) == Chosen(plan) + if c.first >= 0 then c.last - c.first + 1 else 0
    ensures OneRun(banks, plan + [c], addr) <==>
            OneRun(banks, plan, addr) && (c.first >= 0 ==> banks[|plan|].start[c.first] == Cursor(banks, plan, addr))
  {
    assert (plan + [c])[..|plan|] == plan;
  }

  /** What the planner does with one bank. */
  datatype BankResult = Next(choice: Choice) | Stop

  /** A choice starts at the cursor and ends with the range or with the bank; no choice means no sector of the bank
      starts at the cursor; and the planner gives up only on a range that does not fit the bank. */
  ghost predicate BankPlanned(b: Bank, addrFirst: int, addrLast: int, r: BankResult) {
    match r
    case Stop => b.known && |b.start| >= 1 && !FitsBank(b, addrFirst, addrLast)
    case Next(c) =>
      if c.first < 0 then
        c == NONE && (b.known ==> forall s :: 0 <= s < |b.start| ==> b.start[s] != addrFirst)
      else
        && b.known && c.first <= c.last < |b.start| && b.start[c.first] == addrFirst
        && (SectorEnd(b, c.last) == addrLast || (addrLast > BankEnd(b) && SectorEnd(b, c.last) == BankEnd(b)))
  }

  method PlanBank(b: Bank, addrFirst: nat, addrLast: nat) returns (r: BankResult)
    requires (b.known ==> ValidBank(b)) && addrFirst <= addrLast
    ensures BankPlanned(b, addrFirst, addrLast, r)
  {
    if !b.known { return Next(NONE); }
    var sFirst, sLast := ScanBank(b, addrFirst, addrLast);
    var bEnd, sEnd := BankEnd(b), |b.start| - 1;
    if sFirst >= 0 {
      if sLast < 0 {
        if addrLast > bEnd {
          sLast := sEnd;
        } else {
          return Stop;  // end address not on sector boundary
        }
      }
      StartsAscend(b, sLast, sLast);
      if sLast < sFirst {  // "end sector precedes start sector" cannot happen in ascending order
        StartsAscend(b, sLast, sFirst);
        assert false;
      }
      return Next(Choice(sFirst, sLast));
    } else if addrFirst >= b.start[0] && addrFirst < bEnd {
      return Stop;    // start address not on sector boundary
    } else if sLast >= 0 {
      StartsAscend(b, sLast, sLast);
      return Stop;    // banks mapped in reverse order
    }
    return Next(NONE);
  }

  /** The range lies behind the bank, or starts at a sector of it and ends with one of it or behind it. */
  ghost predicate FitsBank(b: Bank, addrFirst: int, addrLast: int)
    requires |b.start| >= 1
  {
    || addrFirst > BankEnd(b)
    || ((exists s :: 0 <= s < |b.start| && b.start[s] == addrFirst)
        && (addrLast > BankEnd(b) || exists s :: 0 <= s < |b.start| && SectorEnd(b, s) == addrLast))
  }

  /** All banks detected, each starting right behind the one before. */
  ghost predicate Gapless(banks: seq<Bank>) {
    && (forall b :: 0 <= b < |banks| ==> banks[b].known && ValidBank(banks[b]))
    && (forall b :: 0 <= b < |banks| - 1 ==> BankEnd(banks[b]) + 1 == banks[b + 1].start[0])
  }

  ghost predicate StartsSector(banks: seq<Bank>, addr: int) {
    exists b, s :: 0 <= b < |banks| && 0 <= s < |banks[b].start| && banks[b].start[s] == addr
  }

  ghost predicate EndsSector(banks: seq<Bank>, addr: int) {
    exists b, s :: 0 <= b < |banks| && 0 <= s < |banks[b].start| && SectorEnd(banks[b], s) == addr
  }

  lemma {:induction false} BanksAscend(banks: seq<Bank>, b: nat, c: nat)
    requires Gapless(banks) && b < c < |banks|
    ensures BankEnd(banks[b]) < banks[c].start[0] <= BankEnd(banks[c])
  {
    StartsAscend(banks[c], 0, 0);
    if b + 1 < c {
      BanksAscend(banks, b, c - 1);
    }
  }

  ghost function MapEnd(banks: seq<Bank>): int
    requires banks != [] && Gapless(banks)
  {
    BankEnd(banks[|banks| - 1])
  }

  /** The range starts with a sector and ends with one, or behind the map. */
  ghost predicate OnBoundaries(banks: seq<Bank>, addrFirst: int, addrLast: int)
    requires banks != [] && Gapless(banks)
  {
    StartsSector(banks, addrFirst) && addrFirst <= addrLast && (EndsSector(banks, addrLast) || addrLast > MapEnd(banks))
  }

  /** The first n banks lie below the address. */
  ghost predicate Below(banks: seq<Bank>, n: nat, addr: int)
    requires n <= |banks| && Gapless(banks)
  {
    n > 0 ==> BankEnd(banks[n - 1]) < addr
  }

  /** A sector that starts at or above an address the first n banks lie below is not in them. */
  lemma NotBelow(banks: seq<Bank>, n: nat, addr: int, b: nat, s: nat)
    requires Gapless(banks) && n <= |banks| && Below(banks, n, addr)
    requires b < |banks| && s < |banks[b].start| && SectorEnd(banks[b], s) >= addr
    ensures b >= n
  {
    StartsAscend(banks[b], s, s);
    if b < n - 1 {
      BanksAscend(banks, b, n - 1);
    }
  }

  lemma NoneMeansAbove(banks: seq<Bank>, n: nat, addr: int)
    requires Gapless(banks) && n < |banks| && Below(banks, n, addr) && StartsSector(banks, addr)
    requires forall s :: 0 <= s < |banks[n].start| ==> banks[n].start[s] != addr
    ensures Below(banks, n + 1, addr)
  {
    var b, s :| 0 <= b < |banks| && 0 <= s < |banks[b].start| && banks[b].start[s] == addr;
    StartsAscend(banks[b], 0, s);
    StartsAscend(banks[b], s, s);
    NotBelow(banks, n, addr, b, s);
    if n < b {
      BanksAscend(banks, n, b);
    }
  }

  lemma BoundariesFit(banks: seq<Bank>, n: nat, addrFirst: int, addrLast: int)
    requires banks != [] && Gapless(banks) && n < |banks| && Below(banks, n, addrFirst)
    requires OnBoundaries(banks, addrFirst, addrLast)
    ensures FitsBank(banks[n], addrFirst, addrLast)
  {
    var b, s :| 0 <= b < |banks| && 0 <= s < |banks[b].start| && banks[b].start[s] == addrFirst;
    StartsAscend(banks[b], 0, s);
    StartsAscend(banks[b], s, s);
    NotBelow(banks, n, addrFirst, b, s);
    if n < b {
      BanksAscend(banks, n, b);
    } else if addrLast <= BankEnd(banks[n]) {
      if n < |banks| - 1 {
        BanksAscend(banks, n, |banks| - 1);
      }
      var c, t :| 0 <= c < |banks| && 0 <= t < |banks[c].start| && SectorEnd(banks[c], t) == addrLast;
      StartsAscend(banks[c], 0, t);
      StartsAscend(banks[c], t, t);
      NotBelow(banks, n, addrFirst, c, t);
      if n < c {
        BanksAscend(banks, n, c);
      }
    }
  }

  /** How far the planner has come on a gapless map: nothing chosen and the banks seen below the range, or the range
      chosen up to the end of a bank or of the range. */
  ghost predicate Progress(banks: seq<Bank>, n: nat, first: int, last: int, cursor: int, count: int)
    requires banks != [] && Gapless(banks) && n <= |banks|
  {
    && (count == 0 ==> cursor == first && (OnBoundaries(banks, first, last) ==> Below(banks, n, first)))
    && (count > 0 ==> && StartsSector(banks, first)
                      && ((cursor == last + 1 && EndsSector(banks, last)) || (n > 0 && cursor == BankEnd(banks[n - 1]) + 1)))
  }

  lemma ProgressStep(banks: seq<Bank>, n: nat, first: int, last: int, cursor: int, count: int, r: BankResult)
    requires banks != [] && Gapless(banks) && n < |banks| && count >= 0 && cursor <= last && first <= last
    requires Progress(banks, n, first, last, cursor, count) && BankPlanned(banks[n], cursor, last, r)
    ensures r.Stop? ==> !OnBoundaries(banks, first, last)
    ensures r.Next? && r.choice == NONE ==> Progress(banks, n + 1, first, last, cursor, count)
    ensures r.Next? && r.choice.first >= 0 ==>
              Progress(banks, n + 1, first, last, SectorEnd(banks[n], r.choice.last) + 1,
                       count + r.choice.last - r.choice.first + 1)
  {
    if count > 0 {
      assert cursor == banks[n].start[0];
    }
    if OnBoundaries(banks, first, last) {
      BoundariesFit(banks, n, cursor, last);
      if count == 0 && r.Next? && r.choice == NONE {
        NoneMeansAbove(banks, n, first);
      }
    }
  }

  /** On a gapless map a plan is made exactly for a range on sector boundaries, and covers all of it that is mapped. */
  lemma ProgressDone(banks: seq<Bank>, n: nat, first: int, last: int, cursor: int, count: int)
    requires banks != [] && Gapless(banks) && n <= |banks| && count >= 0 && first <= last
    requires Progress(banks, n, first, last, cursor, count) && (cursor == last + 1 || (n == |banks| && cursor <= last))
    ensures count > 0 <==> OnBoundaries(banks, first, last)
    ensures count > 0 ==> cursor == (if last > MapEnd(banks) then MapEnd(banks) else last) + 1
  {
    if OnBoundaries(banks, first, last) && count == 0 {
      var b, s :| 0 <= b < |banks| && 0 <= s < |banks[b].start| && banks[b].start[s] == first;
      StartsAscend(banks[b], s, s);
      NotBelow(banks, n, first, b, s);
    }
    if count > 0 && cursor == last + 1 {
      if n > 0 && last == BankEnd(banks[n - 1]) {
        assert SectorEnd(banks[n - 1], |banks[n - 1].start| - 1) == last;
      }
      var c, t :| 0 <= c < |banks| && 0 <= t < |banks[c].start| && SectorEnd(banks[c], t) == last;
      StartsAscend(banks[c], t, t);
      if c < |banks| - 1 {
        BanksAscend(banks, c, |banks| - 1);
      }
    }
  }

  /** The outcome of planning: a plan for all banks whose sectors form one run from `first` that does not pass `last`. */
  ghost predicate Planned(banks: seq<Bank>, first: int, last: int, plan: seq<Choice>, sCount: int) {
    && |plan| == |banks| && PlanFor(banks, plan) && sCount == Chosen(plan)
    && OneRun(banks, plan, first) && Cursor(banks, plan, first) <= last + 1
  }

  /** A plan for the banks seen so far, with the cursor behind its sectors. */
  ghost predicate Planning(banks: seq<Bank>, plan: seq<Choice>, first: int, last: int, cursor: int, count: int) {
    && PlanFor(banks, plan) && OneRun(banks, plan, first)
    && 0 <= count == Chosen(plan) && cursor == Cursor(banks, plan, first) <= last + 1
    && (banks != [] && Gapless(banks) ==> Progress(banks, |plan|, first, last, cursor, count))
  }

  /** On a gapless map sectors are chosen exactly for a range on boundaries, up to its end or that of the map. */
  ghost predicate ExactPlan(banks: seq<Bank>, first: int, last: int, chosen: bool, cursor: int)
    requires banks != [] && Gapless(banks)
  {
    && (chosen <==> OnBoundaries(banks, first, last))
    && (chosen ==> cursor == (if last > MapEnd(banks) then MapEnd(banks) else last) + 1)
  }

  lemma PlanDone(banks: seq<Bank>, plan: seq<Choice>, first: int, last: int, cursor: int, count: int)
    requires first <= last && Planning(banks, plan, first, last, cursor, count)
    requires |plan| == |banks| || cursor > last
    ensures banks != [] && Gapless(banks) ==> ExactPlan(banks, first, last, count > 0, cursor)
  {
    if banks != [] && Gapless(banks) {
      ProgressDone(banks, |plan|, first, last, cursor, count);
    }
  }

  lemma MapBank(banks: seq<Bank>, n: nat)
    requires ValidMap(banks) && n < |banks|
    ensures banks[n].known ==> ValidBank(banks[n])
  {
  }

  lemma PlanBegins(banks: seq<Bank>, first: int, last: int)
    requires first <= last
    ensures Planning(banks, [], first, last, first, 0)
  {
  }

  lemma PlanStep(banks: seq<Bank>, plan: seq<Choice>, first: int, last: int, cursor: int, count: int, r: BankResult)
    requires ValidMap(banks) && |plan| < |banks| && cursor <= last && first <= last
    requires Planning(banks, plan, first, last, cursor, count) && BankPlanned(banks[|plan|], cursor, last, r)
    ensures r.Stop? && Gapless(banks) ==> !OnBoundaries(banks, first, last)
    ensures r.Next? ==>
      if r.choice.first >= 0
      then Planning(banks, plan + [r.choice], first, last, SectorEnd(banks[|plan|], r.choice.last) + 1,
                    count + r.choice.last - r.choice.first + 1)
      else Planning(banks, plan + [r.choice], first, last, cursor, count)
  {
    if Gapless(banks) {
      ProgressStep(banks, |plan|, first, last, cursor, count, r);
    }
    if r.Next? {
      Extend(banks, plan, first, r.choice);
    }
  }

  /** The loop over the banks; it stops at the first bank behind the range. */
  method PlanBanks(banks: seq<Bank>, addrFirst0: nat, addrLast: nat)
    returns (rcode: int, plan: seq<Choice>, sCount: int, addrFirst: nat)
    requires ValidMap(banks) && addrFirst0 <= addrLast
    ensures rcode == 0 || rcode == 1
    ensures rcode == 0 ==> Planning(banks, plan, addrFirst0, addrLast, addrFirst, sCount)
    ensures banks != [] && Gapless(banks) ==> ExactPlan(banks, addrFirst0, addrLast, rcode == 0 && sCount > 0, addrFirst)
  {
    sCount, rcode, plan, addrFirst := 0, 0, [], addrFirst0;
    PlanBegins(banks, addrFirst0, addrLast);
    while |plan| < |banks| && addrFirst <= addrLast
      invariant Planning(banks, plan, addrFirst0, addrLast, addrFirst, sCount)
    {
      var bank := |plan|;
      MapBank(banks, bank);
      var r := PlanBank(banks[bank], addrFirst, addrLast);
      PlanStep(banks, plan, addrFirst0, addrLast, addrFirst, sCount, r);
      if r.Stop? { return 1, plan, sCount, addrFirst; }
      plan := plan + [r.choice];
      if r.choice.first >= 0 {
        addrFirst := SectorEnd(banks[bank], r.choice.last) + 1;
        sCount := sCount + r.choice.last - r.choice.first + 1;
      }
    }
    PlanDone(banks, plan, addrFirst0, addrLast, addrFirst, sCount);
  }

  lemma {:induction false} Pad(banks: seq<Bank>, plan: seq<Choice>, first: int, n: nat)
    requires PlanFor(banks, plan) && |plan| + n <= |banks|
    ensures var padded := plan + seq(n, _ => NONE);
            && PlanFor(banks, padded) && Cursor(banks, padded, first) == Cursor(banks, plan, first)
            && Chosen(padded) == Chosen(plan) && (OneRun(banks, plan, first) ==> OneRun(banks, padded, first))
  {
    if n == 0 {
      assert plan + seq(0, _ => NONE) == plan;
    } else {
      Pad(banks, plan, first, n - 1);
      assert plan + seq(n, _ => NONE) == plan + seq(n - 1, _ => NONE) + [NONE];
      Extend(banks, plan + seq(n - 1, _ => NONE), first, NONE);
    }
  }

  /** `flash_fill_sect_ranges` */
  method FillSectRanges(banks: seq<Bank>, addrFirst: nat, addrLast: nat) returns (rcode: int, plan: seq<Choice>, sCount: int)
    requires ValidMap(banks)
    ensures rcode == 0 || rcode == 1
    ensures rcode == 0 && addrFirst <= addrLast ==> Planned(banks, addrFirst, addrLast, plan, sCount)
    ensures addrFirst > addrLast ==> rcode == 0 && sCount == 0
    ensures banks != [] && Gapless(banks) && addrFirst <= addrLast ==>
              && (rcode == 0 && sCount > 0 <==> OnBoundaries(banks, addrFirst, addrLast))
              && (rcode == 0 && sCount > 0 ==>
                    Cursor(banks, plan, addrFirst) == (if addrLast > MapEnd(banks) then MapEnd(banks) else addrLast) + 1)
  {
    rcode, plan, sCount := 0, [], 0;
    if addrFirst <= addrLast {
      var cursor;
      rcode, plan, sCount, cursor := PlanBanks(banks, addrFirst, addrLast);
    }
    if rcode == 0 {
      Pad(banks, plan, addrFirst, |banks| - |plan|);
      plan := plan + seq(|banks| - |plan|, _ => NONE);
    }
  }

  ghost predicate InSector(b: Bank, s: nat, a: int)
    requires s < |b.start|
  {
    b.start[s] <= a <= SectorEnd(b, s)
  }

  /** Sector s of bank b is in the plan. */
  predicate Selected(plan: seq<Choice>, b: nat, s: nat)
    requires b < |plan|
  {
    plan[b].first >= 0 && plan[b].first <= s <= plan[b].last
  }

  /** The address lies in a sector of the plan. */
  ghost predicate Covered(banks: seq<Bank>, plan: seq<Choice>, a: int)
    requires PlanFor(banks, plan)
  {
    exists b, s :: 0 <= b < |plan| && 0 <= s < |banks[b].start| && Selected(plan, b, s) && InSector(banks[b], s, a)
  }

  /** The sectors i .. j of a bank leave no gap. */
  lemma {:induction false} SectorsTile(b: Bank, i: nat, j: nat, a: int) returns (s: nat)
    requires ValidBank(b) && i <= j < |b.start| && b.start[i] <= a <= SectorEnd(b, j)
    ensures i <= s <= j && InSector(b, s, a)
  {
    if b.start[j] <= a {
      s := j;
    } else {
      s := SectorsTile(b, i, j - 1, a);
    }
  }

  /** A plan covers exactly the bytes from its first address up to its cursor. */
  lemma {:induction false} RunCovers(banks: seq<Bank>, plan: seq<Choice>, first: int, a: int)
    requires ValidMap(banks) && PlanFor(banks, plan) && OneRun(banks, plan, first)
    ensures Covered(banks, plan, a) <==> first <= a < Cursor(banks, plan, first)
    ensures first <= Cursor(banks, plan, first)
  {
    if plan != [] {
      var n := |plan| - 1;
      var prefix, c := plan[..n], plan[n];
      RunCovers(banks, prefix, first, a);
      if Covered(banks, prefix, a) {
        var b, s :| 0 <= b < n && 0 <= s < |banks[b].start| && Selected(prefix, b, s) && InSector(banks[b], s, a);
        assert Selected(plan, b, s);
      }
      if c.first >= 0 {
        StartsAscend(banks[n], c.first, c.last);
        if banks[n].start[c.first] <= a <= SectorEnd(banks[n], c.last) {
          var s := SectorsTile(banks[n], c.first, c.last, a);
          assert Selected(plan, n, s);
        }
      }
      if Covered(banks, plan, a) {
        var b, s :| 0 <= b < |plan| && 0 <= s < |banks[b].start| && Selected(plan, b, s) && InSector(banks[b], s, a);
        if b < n {
          assert Selected(prefix, b, s);
        } else {
          StartsAscend(banks[n], c.first, s);
          StartsAscend(banks[n], s, c.last);
        }
      }
    }
  }

  /** The sector in which the address lies ends at `end`. */
  ghost predicate EndOfSectorAt(banks: seq<Bank>, addr: int, end: int) {
    exists b, s :: 0 <= b < |banks| && 0 <= s < |banks[b].start| && InSector(banks[b], s, addr) && end == SectorEnd(banks[b], s)
  }

  /** `flash_sect_roundb`: moves an address in flash to the end of its sector. */
  method RoundToSectorEnd(banks: seq<Bank>, addr: nat) returns (found: bool, end: int)
    requires forall b :: 0 <= b < |banks| && banks[b].start != [] ==> ValidBank(banks[b])
    ensures found ==> EndOfSectorAt(banks, addr, end)
    ensures !found ==> forall b, s :: 0 <= b < |banks| && 0 <= s < |banks[b].start| ==> !InSector(banks[b], s, addr)
  {
    found, end := false, addr;
    for bank := 0 to |banks|
      invariant !found ==> forall b, s :: 0 <= b < bank && 0 <= s < |banks[b].start| ==> !InSector(banks[b], s, addr)
      invariant !found
    {
      for i := 0 to |banks[bank].start|
        invariant !found && forall s :: 0 <= s < i ==> !InSector(banks[bank], s, addr)
      {
        var sectorEnd := SectorEnd(banks[bank], i);
        if addr <= sectorEnd && addr >= banks[bank].start[i] {
          return true, sectorEnd;
        }
      }
    }
  }

  const CMD_RET_USAGE := -1

  /** A sector end lies on the map. */
  lemma EndsInFlash(banks: seq<Bank>, addr: int, end: int)
    requires banks != [] && Gapless(banks) && EndOfSectorAt(banks, addr, end)
    ensures addr <= end <= MapEnd(banks) <= TOP && EndsSector(banks, end)
  {
    var b, s :| 0 <= b < |banks| && 0 <= s < |banks[b].start| && InSector(banks[b], s, addr) && end == SectorEnd(banks[b], s);
    StartsAscend(banks[b], s, s);
    if b < |banks| - 1 {
      BanksAscend(banks, b, |banks| - 1);
    }
  }

  /** On a gapless map an address determines its sector, and a sector before a sector start ends before it. */
  lemma SectorOrder(banks: seq<Bank>, b: nat, s: nat, c: nat, t: nat)
    requires Gapless(banks) && b < |banks| && c < |banks| && s < |banks[b].start| && t < |banks[c].start|
    ensures banks[b].start[s] < banks[c].start[t] ==> SectorEnd(banks[b], s) < banks[c].start[t]
    ensures banks[b].start[s] == banks[c].start[t] ==> b == c && s == t
  {
    StartsAscend(banks[b], 0, s);
    StartsAscend(banks[b], s, s);
    StartsAscend(banks[c], 0, t);
    StartsAscend(banks[c], t, t);
    if b < c {
      BanksAscend(banks, b, c);
    } else if c < b {
      BanksAscend(banks, c, b);
    } else if s < t {
      StartsAscend(banks[b], s, t);
    } else if t < s {
      StartsAscend(banks[b], t, s);
    }
  }

  lemma OnlySector(banks: seq<Bank>, addr: int, end: int, end': int)
    requires Gapless(banks) && EndOfSectorAt(banks, addr, end) && EndOfSectorAt(banks, addr, end')
    ensures end == end'
  {
    var b, s :| 0 <= b < |banks| && 0 <= s < |banks[b].start| && InSector(banks[b], s, addr) && end == SectorEnd(banks[b], s);
    var c, t :| 0 <= c < |banks| && 0 <= t < |banks[c].start| && InSector(banks[c], t, addr) && end' == SectorEnd(banks[c], t);
    SectorOrder(banks, b, s, c, t);
    SectorOrder(banks, c, t, b, s);
  }

  /** The sector of an address before a sector start ends before that start. */
  lemma EndsBefore(banks: seq<Bank>, addr: int, end: int, start: int)
    requires Gapless(banks) && EndOfSectorAt(banks, addr, end) && StartsSector(banks, start) && addr < start
    ensures end < start
  {
    var b, s :| 0 <= b < |banks| && 0 <= s < |banks[b].start| && InSector(banks[b], s, addr) && end == SectorEnd(banks[b], s);
    var c, t :| 0 <= c < |banks| && 0 <= t < |banks[c].start| && banks[c].start[t] == start;
    SectorOrder(banks, b, s, c, t);
  }

  /** The last byte is in a sector that ends behind the start. */
  ghost predicate EndsPast(banks: seq<Bank>, last: int, start: int) {
    exists end {:trigger EndOfSectorAt(banks, last, end)} :: end > start && EndOfSectorAt(banks, last, end)
  }

  /** What the wrapped 32-bit sum makes of the length form: either it is the last byte, or nothing will be planned. */
  lemma LengthForm(banks: seq<Bank>, start: int, last: int, addrLast: int, found: bool, end: int)
    requires banks != [] && Gapless(banks) && 0 <= start <= last < start + TOP && start <= TOP
    requires addrLast == if last <= TOP then last else last - TOP - 1
    requires if found then EndOfSectorAt(banks, addrLast, end) else forall e :: !EndOfSectorAt(banks, addrLast, e)
    ensures found && start < end && StartsSector(banks, start) ==> addrLast == last
    ensures !(found && start < end) ==> !(StartsSector(banks, start) && EndsPast(banks, last, start))
  {
    if addrLast != last && found && StartsSector(banks, start) {
      EndsBefore(banks, addrLast, end, start);
    }
    if EndsPast(banks, last, start) {
      var e :| e > start && EndOfSectorAt(banks, last, e);
      EndsInFlash(banks, last, e);
      assert addrLast == last;
      if found {
        OnlySector(banks, last, end, e);
      }
    }
  }

  class FlashInfo {
    const banks: seq<Bank>
    var protect: seq<seq<int>>   // protection status of each sector of each bank

    ghost predicate Valid()
      reads this
    {
      ValidMap(banks) && Shaped(protect)
    }

    ghost predicate Shaped(flags: seq<seq<int>>) {
      |flags| == |banks| && forall b :: 0 <= b < |banks| ==> |flags[b]| == |banks[b].start|
    }

    /** The flags of exactly the sectors of the plan in the first n banks are set to p. */
    ghost predicate Changed(flags: seq<seq<int>>, before: seq<seq<int>>, plan: seq<Choice>, n: nat, p: int)
      requires Shaped(flags) && Shaped(before) && |plan| == |banks|
    {
      forall b, s :: 0 <= b < |banks| && 0 <= s < |banks[b].start| ==>
                       flags[b][s] == if b < n && Selected(plan, b, s) then p else before[b][s]
    }

    constructor (banks: seq<Bank>, protect: seq<seq<int>>)
      requires ValidMap(banks) && |protect| == |banks|
      requires forall b :: 0 <= b < |banks| ==> |protect[b]| == |banks[b].start|
      ensures Valid() && this.banks == banks && this.protect == protect
    {
      this.banks, this.protect := banks, protect;
    }

    method ProtectBank(bank: nat, c: Choice, p: int)
      requires Valid() && bank < |banks| && 0 <= c.first <= c.last < |banks[bank].start|
      modifies this`protect
      ensures Valid()
      ensures forall b :: 0 <= b < |banks| && b != bank ==> protect[b] == old(protect)[b]
      ensures forall s :: 0 <= s < |banks[bank].start| ==>
                            protect[bank][s] == if c.first <= s <= c.last then p else old(protect)[bank][s]
    {
      for i := c.first to c.last + 1
        invariant Valid()
        invariant forall b :: 0 <= b < |banks| && b != bank ==> protect[b] == old(protect)[b]
        invariant forall s :: 0 <= s < |banks[bank].start| ==>
                                protect[bank][s] == if c.first <= s < i then p else old(protect)[bank][s]
      {
        protect := protect[bank := protect[bank][i := p]];
      }
    }

    /** `flash_sect_protect` */
    method SectProtect(p: int, addrFirst: nat, addrLast: nat) returns (rcode: int, plan: seq<Choice>)
      requires Valid()
      modifies this`protect
      ensures Valid() && (rcode == 0 || rcode == 1)
      ensures rcode == 0 ==> addrFirst <= addrLast && Planned(banks, addrFirst, addrLast, plan, Chosen(plan))
                             && Changed(protect, old(protect), plan, |banks|, p)
      ensures rcode != 0 ==> protect == old(protect)
      ensures banks != [] && Gapless(banks) && addrFirst <= addrLast ==>
                && (rcode == 0 <==> OnBoundaries(banks, addrFirst, addrLast))
                && (rcode == 0 ==>
                      Cursor(banks, plan, addrFirst) == (if addrLast > MapEnd(banks) then MapEnd(banks) else addrLast) + 1)
    {
      var planned;
      rcode, plan, planned := FillSectRanges(banks, addrFirst, addrLast);
      if rcode == 0 && planned > 0 {
        for bank := 0 to |banks|
          invariant Valid() && Changed(protect, old(protect), plan, bank, p)
        {
          if banks[bank].known && plan[bank].first >= 0 && plan[bank].first <= plan[bank].last {
            ProtectBank(bank, plan[bank], p);
          }
        }
      } else {
        rcode := 1;
      }
    }

    /** "protect start +len": done exactly when `start` begins a sector and the last byte is in flash, on the sectors
        from `start` to the end of the one that holds the last byte. */
    method ProtectLength(p: int, start: nat, len: nat) returns (rcode: int, plan: seq<Choice>)
      requires Valid() && banks != [] && Gapless(banks) && start <= TOP && 1 <= len <= TOP
      modifies this`protect
      ensures Valid()
      ensures rcode == 0 <==> StartsSector(banks, start) && EndsPast(banks, start + len - 1, start)
      ensures rcode == 0 ==>
                && |plan| == |banks| && PlanFor(banks, plan) && Changed(protect, old(protect), plan, |banks|, p)
                && EndOfSectorAt(banks, start + len - 1, Cursor(banks, plan, start) - 1)
                && forall a :: Covered(banks, plan, a) <==> start <= a < Cursor(banks, plan, start)
      ensures rcode != 0 ==> protect == old(protect)
    {
      var addrLast := (start + len - 1) % (TOP + 1);
      var found, end := RoundToSectorEnd(banks, addrLast);
      plan := [];
      LengthForm(banks, start, start + len - 1, addrLast, found, end);
      if !found { return 1, plan; }
      if start >= end { return CMD_RET_USAGE, plan; }
      assert EndOfSectorAt(banks, addrLast, end);
      EndsInFlash(banks, addrLast, end);
      rcode, plan := SectProtect(p, start, end);
      if rcode == 0 {
        forall a
          ensures Covered(banks, plan, a) <==> start <= a < Cursor(banks, plan, start)
        {
          RunCovers(banks, plan, start, a);
        }
      }
    }
  }
}
