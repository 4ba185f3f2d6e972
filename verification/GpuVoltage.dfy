/** GPU voltage floors: board_volt.cpp, GetMinimumGpuVmin (the minimum GPU voltage that a
    RAM clock needs) and PcvHijackGpuVolts (rewriting the live table of the PCV process). */
module GpuVoltage {
  import opened MachineInts
  import opened FreqTable

  const MARIKO_RAM: seq<seq<nat>> := [
    [2133, 2200, 2266, 2300, 2366, 2400, 2433, 2466, 2533, 2566, 2600, 2633, 2700, 2733, 2766, 2833, 2866, 2900, 2933, 3033, 3066, 3100],
    [2300, 2366, 2433, 2466, 2533, 2566, 2633, 2700, 2733, 2800, 2833, 2900, 2933, 2966, 3033, 3066, 3100, 3133, 3166, 3200, 3233, 3266],
    [2433, 2466, 2533, 2566, 2600, 2666, 2766, 2800, 2833, 2866, 2933, 2966, 3033, 3066, 3100, 3133, 3166, 3200, 3233, 3300, 3333, 3366],
    [2500, 2533, 2600, 2633, 2666, 2733, 2800, 2866, 2900, 2966, 3033, 3100, 3166, 3200, 3233, 3266, 3300, 3333, 3366, 3400, 3400, 3400]]

  const MARIKO_VOLT: seq<nat> := [590, 600, 610, 620, 630, 640, 650, 660, 670, 680, 690, 700, 710, 720, 730, 740, 750, 760, 770, 780, 790, 800]

  // The four Erista brackets share their frequencies; each is 10 mV below the one before.
  const ERISTA_RAM: seq<nat> := [1733, 1800, 1866, 1920, 1958, 1996, 2035, 2073, 2112, 2131, 2150, 2169, 2188, 2227, 2265, 2304, 2342, 2380, 2400]

  const ERISTA_VOLT_0: seq<nat> := [725, 730, 735, 740, 745, 750, 755, 760, 765, 770, 775, 780, 785, 790, 795, 800, 805, 810, 815]
  const ERISTA_VOLT_1: seq<nat> := [715, 720, 725, 730, 735, 740, 745, 750, 755, 760, 765, 770, 775, 780, 785, 790, 795, 800, 805]
  const ERISTA_VOLT_2: seq<nat> := [705, 710, 715, 720, 725, 730, 735, 740, 745, 750, 755, 760, 765, 770, 775, 780, 785, 790, 795]
  const ERISTA_VOLT_3: seq<nat> := [695, 700, 705, 710, 715, 720, 725, 730, 735, 740, 745, 750, 755, 760, 765, 770, 775, 780, 785]

  function EristaVolt(bracket: nat): seq<nat>
    requires bracket < 4
    ensures |EristaVolt(bracket)| == 19
  {
    if bracket == 0 then ERISTA_VOLT_0
    else if bracket == 1 then ERISTA_VOLT_1
    else if bracket == 2 then ERISTA_VOLT_2
    else ERISTA_VOLT_3
  }

  const DVFS_FLOOR_MHZ: nat := 1600
  const RAMP_START_MHZ: nat := 1633

  /** Index of the first table entry at or above mhz; the last index when there is none. */
  function Slot(table: seq<nat>, mhz: nat, i: nat): (r: nat)
    requires i < |table|
    ensures i <= r < |table|
    ensures r == |table| - 1 || mhz <= table[r]
    ensures forall k :: i <= k < r ==> table[k] < mhz
    decreases |table| - i
  {
    if mhz <= table[i] || i == |table| - 1 then i else Slot(table, mhz, i + 1)
  }

  function Bracket(bracket: nat): nat { if bracket >= 4 then 0 else bracket }

  function RampStartVolt(bracket: nat): nat { if bracket == 0 then 535 else 525 }

  function RampStep(bracket: nat, x: nat): nat {
    if bracket == 0 then x * 55 / 500
    else if bracket == 1 then x * 65 / 667
    else if bracket == 2 then x * 65 / 800
    else x * 65 / 867
  }

  /** The ramp below the first table entry, rounded to 5 mV and kept in its range. */
  function RampVolt(bracket: nat, mhz: nat): nat
    requires mhz >= RAMP_START_MHZ
  {
    Snap(RampStartVolt(bracket), RampStartVolt(bracket) + RampStep(bracket, mhz - RAMP_START_MHZ))
  }

  /** Rounding to 5 mV, kept within start..590. */
  function Snap(start: nat, raw: nat): nat {
    var volt := (raw + 2) / 5 * 5;
    if volt < start then start else if volt > 590 then 590 else volt
  }

  /** It is the nearest multiple of 5 inside the range, and the nearer end outside. */
  lemma SnapIsNearest(start: nat, raw: nat)
    requires start == 525 || start == 535
    ensures Snap(start, raw) % 5 == 0 && start <= Snap(start, raw) <= 590
    ensures start <= raw <= 590 ==> raw - 2 <= Snap(start, raw) <= raw + 2
    ensures raw < start ==> Snap(start, raw) == start
    ensures raw > 590 ==> Snap(start, raw) == 590
  {
  }

  /** The ramp starts at 535 or 525 mV and ends at the first voltage of the table. */
  lemma RampEnds(b: nat)
    requires b < 4
    ensures RampVolt(b, RAMP_START_MHZ) == if b == 0 then 535 else 525
    ensures MARIKO_RAM[b][0] > RAMP_START_MHZ && RampVolt(b, MARIKO_RAM[b][0] - 1) == MARIKO_VOLT[0] == 590
  {
    if b == 0 {
    } else if b == 1 {
    } else if b == 2 {
    } else {
    }
  }

  lemma SnapGrows(start: nat, raw: nat, start': nat, raw': nat)
    requires start <= start' <= 590 && raw <= raw'
    ensures Snap(start, raw) <= Snap(start', raw')
  {
  }

  /** The source's formula: the span up to 590 mV spread over the clocks below the
      bracket's first entry. */
  lemma RampStepIsInterpolation(bracket: nat, x: nat)
    requires bracket < 4
    ensures MARIKO_RAM[bracket][0] - RAMP_START_MHZ > 0
    ensures RampStep(bracket, x) == x * (590 - RampStartVolt(bracket)) / (MARIKO_RAM[bracket][0] - RAMP_START_MHZ)
  {
    if bracket == 0 {
    } else if bracket == 1 {
    } else if bracket == 2 {
    } else {
    }
  }

  /** The floor for a RAM clock, by the first matching rule. */
  function MinimumVmin(soc: Soc, mhz: nat, bracket: nat): nat {
    var b := Bracket(bracket);
    if mhz <= DVFS_FLOOR_MHZ then 0
    else if soc == Erista then EristaVolt(b)[Slot(ERISTA_RAM, mhz, 0)]
    else if RAMP_START_MHZ <= mhz < MARIKO_RAM[b][0] then RampVolt(b, mhz)
    else MARIKO_VOLT[Slot(MARIKO_RAM[b], mhz, 0)]
  }

  /** An unknown speedo bracket counts as the first one. */
  lemma UnknownBracket(soc: Soc, mhz: nat, bracket: nat)
    requires bracket >= 4
    ensures MinimumVmin(soc, mhz, bracket) == MinimumVmin(soc, mhz, 0)
  {
  }

  method Ramp(b: nat, mhz: nat) returns (volt: nat)
    requires b < 4 && RAMP_START_MHZ <= mhz < MARIKO_RAM[b][0]
    ensures volt == RampVolt(b, mhz)
  {
    var start := if b == 0 then 535 else 525;
    RampStepIsInterpolation(b, mhz - RAMP_START_MHZ);
    var raw := start + (mhz - RAMP_START_MHZ) * (590 - start) / (MARIKO_RAM[b][0] - RAMP_START_MHZ);
    volt := Snap(start, raw);
  }

  method GetMinimumGpuVmin(soc: Soc, mhz: nat, bracket: nat) returns (volt: nat)
    ensures volt == MinimumVmin(soc, mhz, bracket)
  {
    if mhz <= DVFS_FLOOR_MHZ {
      return 0;
    }
    var b := if bracket >= 4 then 0 else bracket;
    var table, volts := if soc == Mariko then MARIKO_RAM[b] else ERISTA_RAM, if soc == Mariko then MARIKO_VOLT else EristaVolt(b);
    if soc == Mariko && RAMP_START_MHZ <= mhz < table[0] {
      volt := Ramp(b, mhz);
      return;
    }
    volt := LookUp(table, volts, mhz);
  }

  /** The table loop: the voltage of the first entry at or above mhz, else the last one. */
  method LookUp(table: seq<nat>, volts: seq<nat>, mhz: nat) returns (volt: nat)
    requires |table| == |volts| > 0
    ensures volt == volts[Slot(table, mhz, 0)]
  {
    volt := volts[|volts| - 1];
    var i := 0;
    while i < |volts|
      invariant i <= |volts|
      invariant volt == volts[|volts| - 1]
      invariant forall k :: 0 <= k < i ==> table[k] < mhz
    {
      if mhz <= table[i] {
        volt := volts[i];
        return;
      }
      i := i + 1;
    }
  }

  // ---- Shape of the floor -----------------------------------------------------------

  lemma MarikoColumnsGrow(b: nat, i: nat)
    requires b < 3 && i < 22
    ensures MARIKO_RAM[b][i] <= MARIKO_RAM[b + 1][i]
  {
    if b == 0 {
    } else if b == 1 {
    } else {
    }
  }

  lemma MarikoVolts(i: nat)
    requires i < 22
    ensures MARIKO_VOLT[i] == 590 + 10 * i
  {
  }

  lemma EristaVolts(b: nat, i: nat)
    requires b < 4 && i < 19
    ensures EristaVolt(b)[i] == 725 - 10 * b + 5 * i
  {
    if b == 0 {
      EristaRow0(i);
    } else if b == 1 {
      EristaRow1(i);
    } else if b == 2 {
      EristaRow2(i);
    } else {
      EristaRow3(i);
    }
  }

  lemma EristaRow0(i: nat)
    requires i < 19
    ensures ERISTA_VOLT_0[i] == 725 + 5 * i
  {
  }

  lemma EristaRow1(i: nat)
    requires i < 19
    ensures ERISTA_VOLT_1[i] == 715 + 5 * i
  {
  }

  lemma EristaRow2(i: nat)
    requires i < 19
    ensures ERISTA_VOLT_2[i] == 705 + 5 * i
  {
  }

  lemma EristaRow3(i: nat)
    requires i < 19
    ensures ERISTA_VOLT_3[i] == 695 + 5 * i
  {
  }

  lemma RampRange(b: nat, mhz: nat)
    requires b < 4 && RAMP_START_MHZ <= mhz < MARIKO_RAM[b][0]
    ensures 525 <= RampVolt(b, mhz) <= 590
  {
  }

  /** The clock from which the rounded ramp has reached its upper end. */
  function RampTop(b: nat): nat {
    if b == 0 then 2115 else if b == 1 then 2280 else if b == 2 then 2409 else 2474
  }

  lemma RampStepGrows(b: nat, x: nat, y: nat)
    requires x <= y
    ensures RampStep(b, x) <= RampStep(b, y)
  {
    if b == 0 {
    } else if b == 1 {
    } else if b == 2 {
    } else {
    }
  }

  lemma RampGrows(b: nat, m: nat, n: nat)
    requires RAMP_START_MHZ <= m <= n
    ensures RampVolt(b, m) <= RampVolt(b, n)
  {
    var start := RampStartVolt(b);
    RampStepGrows(b, m - RAMP_START_MHZ, n - RAMP_START_MHZ);
    SnapGrows(start, start + RampStep(b, m - RAMP_START_MHZ), start, start + RampStep(b, n - RAMP_START_MHZ));
  }

  lemma RampTopExact(b: nat, mhz: nat)
    requires b < 4 && RAMP_START_MHZ <= mhz < MARIKO_RAM[b][0]
    ensures RampVolt(b, mhz) < 590 <==> mhz < RampTop(b)
  {
    if b == 0 {
      assert RampVolt(0, mhz) < 590 <==> (mhz - 1633) * 55 / 500 < 53;
    } else if b == 1 {
      assert RampVolt(1, mhz) < 590 <==> (mhz - 1633) * 65 / 667 < 63;
    } else if b == 2 {
      assert RampVolt(2, mhz) < 590 <==> (mhz - 1633) * 65 / 800 < 63;
    } else {
      assert RampVolt(3, mhz) < 590 <==> (mhz - 1633) * 65 / 867 < 63;
    }
  }

  lemma RampStepFalls01(x: nat)
    ensures x * 65 / 667 <= x * 55 / 500 + 10
  {
  }

  lemma RampStepFalls12(x: nat)
    ensures x * 65 / 800 <= x * 65 / 667
  {
  }

  lemma RampStepFalls23(x: nat)
    ensures x * 65 / 867 <= x * 65 / 800
  {
  }

  lemma RampFallsWithBracket(b: nat, mhz: nat)
    requires b < 3 && RAMP_START_MHZ <= mhz
    ensures RampVolt(b + 1, mhz) <= RampVolt(b, mhz)
  {
    var x := mhz - 1633;
    RampStepFalls01(x);
    RampStepFalls12(x);
    RampStepFalls23(x);
    SnapGrows(RampStartVolt(b + 1), RampStartVolt(b + 1) + RampStep(b + 1, x), RampStartVolt(b), RampStartVolt(b) + RampStep(b, x));
  }

  /** The floor is off, or lies in 525..815 mV. */
  lemma VminRange(soc: Soc, mhz: nat, bracket: nat)
    ensures MinimumVmin(soc, mhz, bracket) == 0 || 525 <= MinimumVmin(soc, mhz, bracket) <= 815
    ensures MinimumVmin(soc, mhz, bracket) == 0 <==> mhz <= DVFS_FLOOR_MHZ
  {
    var b := Bracket(bracket);
    if mhz > DVFS_FLOOR_MHZ {
      if soc == Erista {
        EristaVolts(b, Slot(ERISTA_RAM, mhz, 0));
      } else if RAMP_START_MHZ <= mhz < MARIKO_RAM[b][0] {
        RampRange(b, mhz);
      } else {
        MarikoVolts(Slot(MARIKO_RAM[b], mhz, 0));
      }
    }
  }

  /** A faster RAM clock never needs a lower floor, with one exception that the Mariko
      ramp leaves open: clocks of 1601..1632 MHz miss the ramp and get its upper end. */
  lemma VminMonotoneExactly(soc: Soc, bracket: nat, m: nat, n: nat)
    requires m <= n
    ensures MinimumVmin(soc, m, bracket) <= MinimumVmin(soc, n, bracket)
       <==> !(soc == Mariko && DVFS_FLOOR_MHZ < m < RAMP_START_MHZ <= n < RampTop(Bracket(bracket)))
  {
    var b := Bracket(bracket);
    VminRange(soc, n, bracket);
    if m > DVFS_FLOOR_MHZ {
      if soc == Erista {
        EristaVolts(b, Slot(ERISTA_RAM, m, 0));
        EristaVolts(b, Slot(ERISTA_RAM, n, 0));
      } else {
        MarikoVmin(b, m);
        MarikoVmin(b, n);
        if RAMP_START_MHZ <= m && n < MARIKO_RAM[b][0] {
          RampGrows(b, m, n);
        }
      }
    }
  }

  lemma MarikoVmin(b: nat, mhz: nat)
    requires b < 4 && mhz > DVFS_FLOOR_MHZ
    ensures RAMP_START_MHZ <= mhz < MARIKO_RAM[b][0] ==>
      MinimumVmin(Mariko, mhz, b) == RampVolt(b, mhz) <= 590 && (MinimumVmin(Mariko, mhz, b) < 590 <==> mhz < RampTop(b))
    ensures !(RAMP_START_MHZ <= mhz < MARIKO_RAM[b][0]) ==>
      MinimumVmin(Mariko, mhz, b) == 590 + 10 * Slot(MARIKO_RAM[b], mhz, 0)
    ensures mhz < RAMP_START_MHZ ==> MinimumVmin(Mariko, mhz, b) == 590
    ensures RampTop(b) < MARIKO_RAM[b][0]
  {
    if RAMP_START_MHZ <= mhz < MARIKO_RAM[b][0] {
      RampRange(b, mhz);
      RampTopExact(b, mhz);
    } else {
      MarikoVolts(Slot(MARIKO_RAM[b], mhz, 0));
    }
  }

  /** A higher speedo bracket never needs a higher floor, ramp rounding included. */
  lemma VminFallsWithBracket(soc: Soc, mhz: nat, b: nat)
    requires b < 3
    ensures MinimumVmin(soc, mhz, b + 1) <= MinimumVmin(soc, mhz, b)
  {
    if mhz > DVFS_FLOOR_MHZ {
      if soc == Erista {
        EristaVolts(b, Slot(ERISTA_RAM, mhz, 0));
        EristaVolts(b + 1, Slot(ERISTA_RAM, mhz, 0));
      } else {
        MarikoVmin(b, mhz);
        MarikoVmin(b + 1, mhz);
        MarikoColumnsGrow(b, Slot(MARIKO_RAM[b], mhz, 0));
        if RAMP_START_MHZ <= mhz < MARIKO_RAM[b][0] {
          RampFallsWithBracket(b, mhz);
        }
      }
    }
  }

  // ---- The value ApplyGpuDvfs writes ------------------------------------------------

  function Max(a: int, b: int): int { if a < b then b else a }

  /** vmin with the configured offset (a signed 32-bit number) in 32-bit arithmetic. */
  function OffsetVmin(vmin: nat, offset: int): nat {
    var raised := if vmin != 0 then (vmin + Max(offset, -80)) % TWO_32 else 0;
    if raised < 1000 then raised else 1000
  }

  function NeededVmin(soc: Soc, bracket: nat, offset: int, hz: nat): nat {
    OffsetVmin(MinimumVmin(soc, hz / 1_000_000, bracket), offset)
  }

  lemma OffsetVminRange(vmin: nat, offset: int)
    requires vmin == 0 || 525 <= vmin <= 815
    requires offset < 0x8000_0000
    ensures OffsetVmin(vmin, offset) == 0 || 445 <= OffsetVmin(vmin, offset) <= 1000
    ensures OffsetVmin(vmin, offset) == 0 <==> vmin == 0
  {
  }

  /** The 32-bit sum never wraps around for a voltage of the tables: the result is the plain
      sum with an offset of at least -80, and at most 1000. */
  lemma OffsetVminExact(vmin: nat, offset: int)
    requires vmin == 0 || 525 <= vmin <= 815
    requires offset < 0x8000_0000
    ensures vmin == 0 ==> OffsetVmin(vmin, offset) == 0
    ensures vmin != 0 && offset <= -80 ==> OffsetVmin(vmin, offset) == vmin - 80
    ensures vmin != 0 && -80 <= offset <= 1000 - vmin ==> OffsetVmin(vmin, offset) == vmin + offset
    ensures vmin != 0 && offset > 1000 - vmin ==> OffsetVmin(vmin, offset) == 1000
  {
  }

  lemma OffsetVminGrows(v: nat, w: nat, offset: int)
    requires v <= w <= 815 && (v == 0 || 525 <= v) && (w == 0 || 525 <= w)
    requires offset < 0x8000_0000
    ensures OffsetVmin(v, offset) <= OffsetVmin(w, offset)
  {
    OffsetVminExact(v, offset);
    OffsetVminExact(w, offset);
    var x, y := OffsetVmin(v, offset), OffsetVmin(w, offset);
    SumGrows(v, w, offset, x, y);
  }

  lemma SumGrows(v: nat, w: nat, offset: int, x: nat, y: nat)
    requires v <= w <= 815
    requires if v == 0 then x == 0 else if offset <= -80 then x == v - 80 else if offset <= 1000 - v then x == v + offset else x == 1000
    requires if w == 0 then y == 0 else if offset <= -80 then y == w - 80 else if offset <= 1000 - w then y == w + offset else y == 1000
    requires v == 0 || 525 <= v
    ensures x <= y
  {
  }

  /** Whatever offset is configured, the table gets 0 or 445..1000 mV. */
  lemma NeededVminRange(soc: Soc, bracket: nat, offset: int, hz: nat)
    requires offset < 0x8000_0000
    ensures NeededVmin(soc, bracket, offset, hz) == 0 || 445 <= NeededVmin(soc, bracket, offset, hz) <= 1000
    ensures NeededVmin(soc, bracket, offset, hz) == 0 <==> hz / 1_000_000 <= DVFS_FLOOR_MHZ
  {
    VminRange(soc, hz / 1_000_000, bracket);
    OffsetVminRange(MinimumVmin(soc, hz / 1_000_000, bracket), offset);
  }

  /** Away from the 1601..1632 MHz gap a faster RAM clock never needs less. */
  lemma NeededVminGrows(soc: Soc, bracket: nat, offset: int, low: nat, high: nat)
    requires offset < 0x8000_0000
    requires low / 1_000_000 <= high / 1_000_000
    requires !(DVFS_FLOOR_MHZ < low / 1_000_000 < RAMP_START_MHZ)
    ensures NeededVmin(soc, bracket, offset, low) <= NeededVmin(soc, bracket, offset, high)
  {
    var m, n := low / 1_000_000, high / 1_000_000;
    VminRange(soc, m, bracket);
    VminRange(soc, n, bracket);
    VminMonotoneExactly(soc, bracket, m, n);
    OffsetVminGrows(MinimumVmin(soc, m, bracket), MinimumVmin(soc, n, bracket), offset);
  }

  // ---- Rewriting the live table -----------------------------------------------------

  /** The pristine table with every nonzero entry raised to at least vmin. */
  function Raised(table: seq<nat>, vmin: nat): (r: seq<nat>)
    ensures |r| == |table|
  {
    seq(|table|, i requires 0 <= i < |table| => if table[i] != 0 && table[i] <= vmin then vmin else table[i])
  }

  class GpuVoltData {
    const voltTable: seq<nat>   // the table cached at start-up
    var ramVmin: nat            // the floor last written
    var live: seq<nat>          // the table inside the PCV process

    ghost predicate Valid()
      reads this
    {
      live == Raised(voltTable, ramVmin)
    }

    constructor (table: seq<nat>)
      ensures Valid() && voltTable == table && live == table && ramVmin == 0
    {
      voltTable := table;
      ramVmin := 0;
      live := table;
    }

    /** handleOk: the PCV process could be opened; writeOk: the write was accepted. */
    method PcvHijackGpuVolts(vmin: nat, handleOk: bool, writeOk: bool)
      requires Valid()
      modifies this
      ensures Valid()
      ensures ramVmin == if handleOk && writeOk then vmin else old(ramVmin)
      ensures handleOk && writeOk ==> live == Raised(voltTable, vmin)
      ensures !(handleOk && writeOk) ==> live == old(live)
    {
      var table := voltTable;
      if ramVmin == vmin {
        return;  // sound because live already is the table raised to vmin
      }
      var i := 0;
      while i < |table|
        invariant |table| == |voltTable| && 0 <= i <= |table|
        invariant forall k :: 0 <= k < i ==> table[k] == Raised(voltTable, vmin)[k]
        invariant forall k :: i <= k < |table| ==> table[k] == voltTable[k]
      {
        if table[i] != 0 && table[i] <= vmin {
          table := table[i := vmin];
        }
        i := i + 1;
      }
      if !handleOk {
        return;
      }
      if writeOk {
        live := table;
        ramVmin := vmin;
      }
    }
  }

  /** A raised table is what one expects of a floor: nothing nonzero below it, nothing
      lowered, unused entries left alone; raising twice is raising to the larger. */
  lemma RaisedIsFloor(table: seq<nat>, v: nat, w: nat)
    ensures forall i :: 0 <= i < |table| ==> (Raised(table, v)[i] == 0 <==> table[i] == 0)
    ensures forall i :: 0 <= i < |table| ==> Raised(table, v)[i] >= table[i]
    ensures forall i :: 0 <= i < |table| && table[i] != 0 ==> Raised(table, v)[i] >= v
    ensures forall i :: 0 <= i < |table| && Raised(table, v)[i] != table[i] ==> Raised(table, v)[i] == v
    ensures Raised(Raised(table, v), w) == Raised(table, Max(v, w))
    ensures Raised(table, 0) == table
  {
    forall i | 0 <= i < |table|
      ensures (Raised(table, v)[i] == 0 <==> table[i] == 0) && Raised(table, v)[i] >= table[i]
      ensures table[i] != 0 ==> Raised(table, v)[i] >= v
    {
    }
  }

  datatype Call = Call(vmin: nat, handleOk: bool, writeOk: bool)

  /** The floor in force after a run of calls: that of the last one that went through. */
  function FloorAfter(calls: seq<Call>): nat {
    if calls == [] then 0
    else
      var last := calls[|calls| - 1];
      if last.handleOk && last.writeOk then last.vmin else FloorAfter(calls[..|calls| - 1])
  }

  /** Call i went through and none after it did. */
  predicate LastSuccess(calls: seq<Call>, i: nat) {
    && i < |calls| && calls[i].handleOk && calls[i].writeOk
    && forall k :: i < k < |calls| ==> !(calls[k].handleOk && calls[k].writeOk)
  }

  /** The floor is that of the last call that went through, and 0 when none did. */
  lemma {:induction false} LastSuccessDecides(calls: seq<Call>)
    ensures forall i: nat :: LastSuccess(calls, i) ==> FloorAfter(calls) == calls[i].vmin
    ensures (forall i :: 0 <= i < |calls| ==> !(calls[i].handleOk && calls[i].writeOk)) ==> FloorAfter(calls) == 0
  {
    if calls != [] {
      var init := calls[..|calls| - 1];
      LastSuccessDecides(init);
      assert forall k :: 0 <= k < |init| ==> init[k] == calls[k];
      forall i: nat | LastSuccess(calls, i)
        ensures FloorAfter(calls) == calls[i].vmin
      {
        assert i < |init| ==> LastSuccess(init, i);
      }
    }
  }

  /** Any sequence of calls, with any failures: raises never accumulate, and a final
      successful 0 restores the pristine table. */
  method RunCalls(data: GpuVoltData, calls: seq<Call>)
    requires data.Valid() && data.ramVmin == 0
    modifies data
    ensures data.live == Raised(data.voltTable, FloorAfter(calls))
    ensures calls != [] && calls[|calls| - 1] == Call(0, true, true) ==> data.live == data.voltTable
  {
    for i := 0 to |calls|
      invariant data.Valid() && data.ramVmin == FloorAfter(calls[..i])
    {
      assert calls[..i + 1][..i] == calls[..i];
      data.PcvHijackGpuVolts(calls[i].vmin, calls[i].handleOk, calls[i].writeOk);
    }
    assert calls[..|calls|] == calls;
    RaisedIsFloor(data.voltTable, 0, 0);
  }
}
