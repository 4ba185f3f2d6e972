/** The order of RAM-clock and GPU-voltage changes: clock_manager.cpp, ApplyGpuDvfs,
    DVFSReset, HandleFreqReset, SetClocks, RefreshContext and Tick, with the resets of
    board_freq.cpp and board_freq.hpp.

    Every hardware action is recorded, so that safety is a statement about every
    intermediate state and not only about the state after a tick. */
module Dvfs {
  import opened MachineInts
  import opened FreqTable
  import opened GpuVoltage

  datatype Profile = Handheld | HandheldCharging | HandheldChargingUSB | HandheldChargingOfficial | Docked

  const MHZ: nat := 1_000_000
  const NO_LIMIT: nat := 0xFFFF_FFFF

  /** The clock wanted for a module by the override, the title and the global profile; 0 for
      none. */
  datatype Choice = Choice(override: Hz, title: Hz, global: Hz) {
    function Target(): (hz: Hz)
      ensures override != 0 ==> hz == override
      ensures override == 0 && title != 0 ==> hz == title
      ensures override == 0 && title == 0 ==> hz == global
    {
      if override != 0 then override else if title != 0 then title else global
    }
  }

  /** What one tick finds outside: the services, the configuration and the governor. */
  datatype TickInput = TickInput(
    applicationId: u64, profile: Profile,
    stockGpuHz: Hz, stockMemHz: Hz,        // the APM configuration of the moment
    isBoost: bool, overwriteBoost: bool,
    safetyTripped: bool,                   // power or thermal limit exceeded
    configRefreshed: bool, realGpuHz: Hz,
    gpu: Choice, mem: Choice,
    otherChange: bool,                     // a clock or override of another module is new
    gpuGoverned: bool, governorDropsGpu: bool)

  /** The mem_hz column of hocclk_g_apm_configurations. */
  predicate StockMem(hz: Hz) {
    hz == 1_600_000_000 || hz == 1_331_200_000 || hz == 1_065_600_000
  }

  function GetMaxAllowedHz(clock: ClockModule, profile: Profile, soc: Soc, uncapped: bool, gpuUv: nat): Hz {
    if uncapped then NO_LIMIT
    else match clock
      case GPU =>
        if profile.Handheld? then
          (if soc == Erista then 460_800_000 else if gpuUv == 1 then 691_200_000 else if gpuUv == 2 then 768_000_000 else 614_400_000)
        else if profile.HandheldCharging? || profile.HandheldChargingUSB? then
          (if soc == Erista then 768_000_000 else if gpuUv == 1 then 921_600_000 else if gpuUv == 2 then 998_400_000 else 844_800_000)
        else 0
      case CPU => if profile.Handheld? && soc == Erista then 1_581_000_000 else NO_LIMIT
      case _ => 0
  }

  /** The caps: none for RAM, none with uncapped clocks; the GPU has one in handheld and USB
      profiles, a lower one on battery, and on Mariko a higher one for the better undervolt
      levels 1 and 2, always a multiple of 76.8 MHz; the CPU has one on Erista on battery. */
  lemma CapShape(profile: Profile, soc: Soc, uncapped: bool, gpuUv: nat)
    ensures GetMaxAllowedHz(MEM, profile, soc, uncapped, gpuUv) in {0, NO_LIMIT}
    ensures uncapped ==> forall c :: GetMaxAllowedHz(c, profile, soc, uncapped, gpuUv) == NO_LIMIT
    ensures !uncapped ==> (GetMaxAllowedHz(GPU, profile, soc, uncapped, gpuUv) == 0 <==>
                           profile.Docked? || profile.HandheldChargingOfficial?)
    ensures !uncapped ==> GetMaxAllowedHz(GPU, Handheld, soc, uncapped, gpuUv)
                          < GetMaxAllowedHz(GPU, HandheldCharging, soc, uncapped, gpuUv)
                          == GetMaxAllowedHz(GPU, HandheldChargingUSB, soc, uncapped, gpuUv)
    ensures GetMaxAllowedHz(GPU, profile, soc, uncapped, 0) <= GetMaxAllowedHz(GPU, profile, soc, uncapped, 1)
            <= GetMaxAllowedHz(GPU, profile, soc, uncapped, 2)
    ensures !uncapped && GetMaxAllowedHz(GPU, profile, soc, uncapped, gpuUv) != 0 ==>
              GetMaxAllowedHz(GPU, profile, soc, uncapped, gpuUv)
              == PCV_STEP * ((if soc == Erista then (if profile.Handheld? then 6 else 10) else if profile.Handheld? then 8 else 11)
                             + if soc == Mariko && gpuUv <= 2 then gpuUv else 0)
    ensures GetMaxAllowedHz(CPU, profile, soc, uncapped, gpuUv)
            == if !uncapped && profile.Handheld? && soc == Erista then 1_581_000_000 else NO_LIMIT
  {
  }

  /** On Erista the battery cap is an entry of the full table. With that entry disabled by
      its voltage setting, and a higher one present, the cap can be exceeded. */
  lemma DisabledEntryLiftsCap(freqs: seq<Hz>, eristaVolt: Hz -> nat, gpuUv: nat)
    requires Ascending(freqs) && eristaVolt(460_800_000) == 2000
    requires exists f :: f in freqs && f > 460_800_000 && Kept(GPU, Erista, f, eristaVolt)
    ensures var table := KeptPart(GPU, Erista, freqs, eristaVolt);
            Exceedable(table, GetMaxAllowedHz(GPU, Handheld, Erista, false, gpuUv))
  {
    var table := KeptPart(GPU, Erista, freqs, eristaVolt);
    KeptPartIsSorted(GPU, Erista, freqs, eristaVolt);
    var f :| f in freqs && f > 460_800_000 && Kept(GPU, Erista, f, eristaVolt);
    assert f in table;
    ExceedableExactly(table, 460_800_000);
  }

  /** A RAM clock outside the 1601..1632 MHz gap in which the floor is not monotone. */
  predicate Regular(hz: Hz) {
    hz / MHZ <= DVFS_FLOOR_MHZ || hz / MHZ >= RAMP_START_MHZ
  }

  /** RAM tables as the hardware gives them: at least 2 MHz between entries, only assignable
      clocks. */
  ghost predicate MemTable(table: seq<Hz>) {
    && |table| > 0
    && (forall i, j :: 0 <= i < j < |table| ==> table[i] + 2 * MHZ <= table[j])
    && (forall i :: 0 <= i < |table| ==> Regular(table[i]) && IsAssignableHz(MEM, table[i]) && table[i] < NO_LIMIT)
  }

  /** The target has the whole MHz of entry e: profiles store that number, overrides the
      entry itself. */
  predicate Names(target: Hz, e: Hz) {
    target / MHZ == e / MHZ
  }

  ghost predicate NamedIn(table: seq<Hz>, target: Hz) {
    exists i :: 0 <= i < |table| && Names(target, table[i])
  }

  /** A target that names an entry is snapped to that entry. */
  lemma SnapsToNamed(table: seq<Hz>, target: Hz, maxHz: Hz, nearest: Hz)
    requires MemTable(table) && NamedIn(table, target)
    requires maxHz == 0 || maxHz == NO_LIMIT
    requires IsNearest(table, target, maxHz, nearest)
    ensures nearest in table && Names(target, nearest)
  {
    var i :| 0 <= i < |table| && Names(target, table[i]);
    var r: nat, reach: nat :| Reach(table, maxHz, reach) && NearestUpTo(table, target, reach, r) && nearest == table[r];
    assert reach == |table| - 1;
    NamedIsClose(target, table[i]);
    assert Distance(table[r], target) <= Distance(table[i], target);
    assert r == i;
  }

  lemma NamedIsClose(target: Hz, e: Hz)
    requires Names(target, e)
    ensures Distance(e, target) < MHZ
  {
  }

  /** Snapping a target below an entry cannot end above that entry. */
  lemma SnapsNotAbove(table: seq<Hz>, target: Hz, maxHz: Hz, nearest: Hz, e: Hz)
    requires MemTable(table) && e in table && target <= e
    requires maxHz == 0 || maxHz == NO_LIMIT
    requires IsNearest(table, target, maxHz, nearest)
    ensures nearest in table && nearest <= e
  {
    var i :| 0 <= i < |table| && table[i] == e;
    var r: nat, reach: nat :| Reach(table, maxHz, reach) && NearestUpTo(table, target, reach, r) && nearest == table[r];
    assert reach == |table| - 1;
    assert Distance(table[r], target) <= Distance(table[i], target);
  }

  lemma MemTableAscends(table: seq<Hz>)
    requires MemTable(table)
    ensures Ascending(table)
  {
  }

  /** A hardware state as far as DVFS is concerned. appliedVmin is the floor of the table
      at the moment the GPU clock was last set: only then is the voltage taken up. */
  datatype Snapshot = Snapshot(ramHz: Hz, tableVmin: nat, appliedVmin: nat)

  datatype Settings = Settings(soc: Soc, bracket: nat, offset: int, uncapped: bool, gpuUv: nat,
                               memTable: seq<Hz>, gpuTable: seq<Hz>)
  {
    ghost predicate Valid() {
      offset < 0x8000_0000 && MemTable(memTable) && |gpuTable| > 0 && Ascending(gpuTable)
    }

    function Needed(hz: Hz): nat { NeededVmin(soc, bracket, offset, hz) }

    /** The GPU voltage floor in force suffices for the RAM clock. */
    predicate Safe(s: Snapshot) {
      Needed(s.ramHz) <= s.tableVmin && Needed(s.ramHz) <= s.appliedVmin
    }

    function MemCap(): Hz { if uncapped then NO_LIMIT else 0 }

    /** The clock a RAM target becomes needs no more than the target. */
    ghost predicate SnapsSafely(target: Hz) {
      forall nearest: Hz :: IsNearest(memTable, target, MemCap(), nearest) ==> Needed(nearest) <= Needed(target)
    }

    /** The clock RAM has at rest: a stock clock or an entry of the table. */
    ghost predicate Settled(hz: Hz) { StockMem(hz) || hz in memTable }

    /** Moving RAM from state s to the clock nearest, for a target, is safe at every step:
        upwards the floor is raised for the target first, downwards it is lowered for the
        target afterwards, and for the present clock it is left alone. */
    predicate MoveIsSafe(s: Snapshot, target: Hz, nearest: Hz) {
      && (target > s.ramHz ==> Needed(nearest) <= Needed(target))
      && (target == s.ramHz ==> Safe(s.(ramHz := nearest)))
      && (target < s.ramHz ==> Safe(s.(ramHz := nearest)) && Needed(nearest) <= Needed(target))
    }
  }

  /** A target that names an entry snaps safely. */
  lemma NamedSnapsSafely(settings: Settings, target: Hz)
    requires settings.Valid() && NamedIn(settings.memTable, target)
    ensures settings.SnapsSafely(target)
  {
    forall nearest: Hz | IsNearest(settings.memTable, target, settings.MemCap(), nearest)
      ensures settings.Needed(nearest) <= settings.Needed(target)
    {
      SnapsToNamed(settings.memTable, target, settings.MemCap(), nearest);
      NeededByName(settings, target, nearest);
    }
  }

  /** From a safe, settled state a move is safe as soon as the snapped clock needs no more
      than the target. */
  lemma SettledMoveIsSafe(settings: Settings, s: Snapshot, target: Hz, nearest: Hz)
    requires settings.Valid() && settings.Safe(s) && settings.Settled(s.ramHz)
    requires IsNearest(settings.memTable, target, settings.MemCap(), nearest)
    requires settings.Needed(nearest) <= settings.Needed(target)
    ensures settings.MoveIsSafe(s, target, nearest)
  {
    if target < s.ramHz {
      if StockMem(s.ramHz) {
        StockNeedsNothing(settings, s.ramHz);
        NeededMonotone(settings, target, s.ramHz);
      } else {
        SnapsNotAbove(settings.memTable, target, settings.MemCap(), nearest, s.ramHz);
        NeededMonotone(settings, nearest, s.ramHz);
      }
    }
  }

  lemma NeededByName(settings: Settings, target: Hz, e: Hz)
    requires Names(target, e)
    ensures settings.Needed(target) == settings.Needed(e)
    ensures target / MHZ == e / MHZ
  {
  }

  lemma NeededMonotone(settings: Settings, low: Hz, high: Hz)
    requires settings.Valid() && Regular(low) && low <= high
    ensures settings.Needed(low) <= settings.Needed(high)
  {
    assert low / MHZ <= high / MHZ;
    NeededVminGrows(settings.soc, settings.bracket, settings.offset, low, high);
  }

  lemma StockNeedsNothing(settings: Settings, hz: Hz)
    requires settings.Valid() && StockMem(hz)
    ensures hz in {1_600_000_000, 1_331_200_000, 1_065_600_000}
    ensures settings.Needed(hz) == 0 && Regular(hz)
  {
    NeededVminRange(settings.soc, settings.bracket, settings.offset, hz);
  }

  // ---- What a tick is to do ---------------------------------------------------------

  datatype Status = Status(now: Snapshot, gpuHz: Hz, applicationId: u64, profile: Profile,
                           memContext: Hz, gpuContext: Hz, memOverride: Hz, gpuOverride: Hz)
  {
    /** Another title or another profile: everything goes to stock. */
    predicate Moves(input: TickInput) { applicationId != input.applicationId || profile != input.profile }

    /** The clocks that are noted in a tick, after any reset. */
    function GpuSeen(input: TickInput): Hz { if Moves(input) || input.safetyTripped then input.stockGpuHz else gpuHz }
    function MemSeen(input: TickInput): Hz { if Moves(input) then input.stockMemHz else now.ramHz }
    function GpuNoted(input: TickInput): Hz { if GpuSeen(input) == 0 then gpuContext else GpuSeen(input) }

    predicate HasChanged(input: TickInput) {
      || Moves(input) || GpuNoted(input) != gpuContext || MemSeen(input) != memContext
      || input.gpu.override != gpuOverride || input.mem.override != memOverride || input.otherChange
    }

    /** When a tick sets the clocks: something is new, the configuration was reloaded or the
        GPU runs at another clock than noted; never in boost mode, unless that is to be
        overwritten, and never beyond a safety limit. */
    predicate SetsClocks(input: TickInput) {
      && (HasChanged(input) || input.configRefreshed || input.realGpuHz != GpuNoted(input))
      && !input.safetyTripped && (input.isBoost ==> input.overwriteBoost)
    }
  }

  /** The GPU entry nearest to a target under the cap of a profile. */
  ghost predicate SnapsGpu(settings: Settings, profile: Profile, target: Hz, hz: Hz) {
    IsNearest(settings.gpuTable, target, GetMaxAllowedHz(GPU, profile, settings.soc, settings.uncapped, settings.gpuUv), hz)
  }

  /** RAM runs at the entry nearest to its target, with the floor for the target if the clock
      had to change; without a target it runs at stock without a floor. */
  ghost predicate MemIsSet(settings: Settings, ramHz: Hz, floor: nat, input: TickInput, after: Snapshot) {
    var target := input.mem.Target();
    if target == 0 then after == Snapshot(input.stockMemHz, 0, 0)
    else
      && IsNearest(settings.memTable, target, settings.MemCap(), after.ramHz)
      && (if after.ramHz != ramHz && target != ramHz then after.tableVmin == after.appliedVmin == settings.Needed(target)
          else after.tableVmin == floor)
  }

  /** The GPU runs at the entry nearest to its target and that is noted; without a target it
      runs at stock, or at the entry nearest to it where RAM made it take up a new floor. A
      governed GPU is only touched for RAM's sake. */
  ghost predicate GpuIsSet(settings: Settings, seen: Hz, noted: Hz, input: TickInput, after: Status) {
    var target := input.gpu.Target();
    if input.governorDropsGpu then after.gpuHz == input.stockGpuHz
    else if input.gpuGoverned then
      && after.gpuContext == noted
      && if input.mem.Target() != 0 then after.gpuHz == seen || SnapsGpu(settings, after.profile, seen, after.gpuHz)
         else if target == 0 then after.gpuHz == input.stockGpuHz
         else SnapsGpu(settings, after.profile, target, after.gpuHz)
    else if target != 0 then
      SnapsGpu(settings, after.profile, target, after.gpuContext) && (seen != 0 ==> after.gpuHz == after.gpuContext)
    else
      after.gpuContext == noted
      && (after.gpuHz == input.stockGpuHz || SnapsGpu(settings, after.profile, input.stockGpuHz, after.gpuHz))
  }

  /** What one tick does. */
  ghost predicate TickEffect(settings: Settings, before: Status, input: TickInput, after: Status) {
    && after.applicationId == input.applicationId && after.profile == input.profile
    && after.gpuOverride == input.gpu.override && after.memOverride == input.mem.override
    && if before.SetsClocks(input) then
         && MemIsSet(settings, before.MemSeen(input), if before.Moves(input) then 0 else before.now.tableVmin, input, after.now)
         && GpuIsSet(settings, before.GpuSeen(input), before.GpuNoted(input), input, after)
       else
         && after.gpuHz == before.GpuSeen(input) && after.gpuContext == before.GpuNoted(input)
         && after.memContext == before.MemSeen(input)
         && if before.Moves(input) then after.now == Snapshot(input.stockMemHz, 0, 0)
            else if input.safetyTripped then after.now == before.now.(appliedVmin := before.now.tableVmin)
            else after.now == before.now
  }

  /** The manager in DVFSMode_Hijack. Every hardware action adds its state to the trace. */
  class ClockManager {
    const settings: Settings
    const voltData: GpuVoltData
    var ramHz: Hz
    var gpuHz: Hz
    var appliedVmin: nat
    var applicationId: u64
    var profile: Profile
    var memContext: Hz        // gContext.freqs[MEM]
    var gpuContext: Hz        // gContext.freqs[GPU]
    var memOverride: Hz       // gContext.overrideFreqs[MEM]
    var gpuOverride: Hz       // gContext.overrideFreqs[GPU]
    ghost var trace: seq<Snapshot>

    /** Everything a tick can change, except the trace. */
    ghost function State(): Status
      reads this, voltData
    {
      Status(Now(), gpuHz, applicationId, profile, memContext, gpuContext, memOverride, gpuOverride)
    }

    ghost function Now(): Snapshot
      reads this, voltData
    {
      Snapshot(ramHz, voltData.ramVmin, appliedVmin)
    }

    ghost predicate Sound()
      reads this, voltData
    {
      settings.Valid() && voltData.Valid() && settings.Settled(ramHz) && trace != [] && trace[|trace| - 1] == Now()
    }

    /** Every state passed so far, the present one included, is safe. */
    ghost predicate AllSafe()
      reads this
    {
      forall s :: s in trace ==> settings.Safe(s)
    }

    ghost predicate Valid()
      reads this, voltData
    {
      Sound() && AllSafe()
    }

    constructor (settings: Settings, table: seq<nat>, stockMemHz: Hz, gpuHz: Hz)
      requires settings.Valid() && StockMem(stockMemHz)
      ensures Valid() && fresh(voltData) && ramHz == stockMemHz
    {
      this.settings := settings;
      var data := new GpuVoltData(table);
      voltData := data;
      ramHz, this.gpuHz, appliedVmin := stockMemHz, gpuHz, 0;
      applicationId, profile := 0, Handheld;
      memContext, gpuContext, memOverride, gpuOverride := 0, 0, 0, 0;
      trace := [Snapshot(stockMemHz, 0, 0)];
      StockNeedsNothing(settings, stockMemHz);
    }

    // ---- Hardware actions: each is one step of the trace ----

    method SetGpuHz(hz: Hz)
      requires Sound()
      modifies this`gpuHz, this`appliedVmin, this`trace
      ensures Sound() && trace == old(trace) + [Now()]
      ensures gpuHz == hz && appliedVmin == voltData.ramVmin
      ensures settings.Safe(old(Now())) ==> settings.Safe(Now())
    {
      gpuHz := hz;
      appliedVmin := voltData.ramVmin;
      trace := trace + [Now()];
    }

    method SetMemHz(hz: Hz)
      requires Sound() && settings.Settled(hz)
      modifies this`ramHz, this`trace
      ensures Sound() && trace == old(trace) + [Now()]
      ensures ramHz == hz
    {
      ramHz := hz;
      trace := trace + [Now()];
    }

    method Hijack(vmin: nat)
      requires Sound()
      modifies this`trace, voltData
      ensures Sound() && trace == old(trace) + [Now()]
      ensures voltData.ramVmin == vmin
    {
      voltData.PcvHijackGpuVolts(vmin, true, true);
      trace := trace + [Now()];
    }

    // ---- clock_manager.cpp ----

    /** The GPU entry nearest to a target under the cap of the profile. */
    ghost predicate Snapped(target: Hz, hz: Hz)
      reads this`profile
    {
      SnapsGpu(settings, profile, target, hz)
    }

    /** Rewrite the voltage table for a RAM clock, then set the GPU clock so that the
        voltage is taken up. */
    method ApplyGpuDvfs(targetHz: Hz, stockGpuHz: Hz)
      requires Sound()
      modifies this`gpuHz, this`appliedVmin, this`trace, voltData
      ensures Sound()
      ensures trace == old(trace) + [Snapshot(ramHz, settings.Needed(targetHz), old(appliedVmin)), Now()]
      ensures voltData.ramVmin == appliedVmin == settings.Needed(targetHz)
      ensures if targetHz == 0 then gpuHz == stockGpuHz else Snapped(old(gpuHz), gpuHz)
    {
      var vmin := GetMinimumGpuVmin(settings.soc, targetHz / MHZ, settings.bracket);
      var maxHz := GetMaxAllowedHz(GPU, profile, settings.soc, settings.uncapped, settings.gpuUv);
      var nearestGpuHz := GetNearestHz(settings.gpuTable, gpuHz, maxHz);
      Hijack(OffsetVmin(vmin, settings.offset));
      if targetHz != 0 {
        SetGpuHz(nearestGpuHz);
      } else {
        SetGpuHz(stockGpuHz);
      }
    }

    method DVFSReset(input: TickInput)
      requires Valid() && settings.Needed(ramHz) == 0
      modifies this`gpuHz, this`appliedVmin, this`trace, voltData
      ensures Valid() && old(trace) <= trace
      ensures voltData.ramVmin == appliedVmin == 0
      ensures if input.gpu.Target() == 0 then gpuHz == input.stockGpuHz else Snapped(input.gpu.Target(), gpuHz)
    {
      Hijack(0);
      var maxHz := GetMaxAllowedHz(GPU, profile, settings.soc, settings.uncapped, settings.gpuUv);
      var nearestHz := GetNearestHz(settings.gpuTable, input.gpu.Target(), maxHz);
      SetGpuHz(input.stockGpuHz);
      if input.gpu.Target() != 0 {
        SetGpuHz(nearestHz);
      }
    }

    /** HandleFreqReset for MEM: stock RAM first, then the voltage goes back. */
    method ResetMem(input: TickInput, didHijackPcv: bool)
      requires Valid() && StockMem(input.stockMemHz)
      modifies this`ramHz, this`gpuHz, this`appliedVmin, this`trace, voltData
      ensures Valid() && old(trace) <= trace
      ensures ramHz == input.stockMemHz
      ensures !didHijackPcv ==> voltData.ramVmin == appliedVmin == 0
      ensures !didHijackPcv ==>
        if input.gpu.Target() == 0 then gpuHz == input.stockGpuHz else Snapped(input.gpu.Target(), gpuHz)
    {
      StockNeedsNothing(settings, input.stockMemHz);
      SetMemHz(input.stockMemHz);
      if !didHijackPcv {
        DVFSReset(input);
      }
    }

    /** The MEM round of SetClocks, for any target. The clock becomes the nearest entry; every
        step on the way is safe exactly when nothing changes or the move is a safe one; and
        when the target differs from the clock so far, the state afterwards is safe exactly
        when the entry needs no more than the target. */
    method SetMemClock(targetHz: Hz, stockGpuHz: Hz) returns (ghost nearest: Hz)
      requires Valid() && targetHz != 0
      modifies this`ramHz, this`gpuHz, this`appliedVmin, this`trace, this`memContext, voltData
      ensures Sound() && old(trace) <= trace
      ensures IsNearest(settings.memTable, targetHz, settings.MemCap(), nearest) && memContext == nearest
      ensures nearest == old(memContext) ==> ramHz == old(ramHz) && trace == old(trace) && gpuHz == old(gpuHz)
      ensures nearest == old(memContext) || targetHz == old(ramHz) ==>
        voltData.ramVmin == old(voltData.ramVmin) && appliedVmin == old(appliedVmin)
      ensures gpuHz == old(gpuHz) || Snapped(old(gpuHz), gpuHz)
      ensures nearest != old(memContext) ==> ramHz == nearest
      ensures nearest != old(memContext) && targetHz != old(ramHz) ==>
        voltData.ramVmin == appliedVmin == settings.Needed(targetHz)
      ensures AllSafe() <==> nearest == old(memContext) || settings.MoveIsSafe(old(Now()), targetHz, nearest)
      ensures nearest != old(memContext) && targetHz != old(ramHz) ==>
        (settings.Safe(Now()) <==> settings.Needed(nearest) <= settings.Needed(targetHz))
    {
      var oldHz := ramHz;
      var maxHz := GetMaxAllowedHz(MEM, profile, settings.soc, settings.uncapped, settings.gpuUv);
      MemTableAscends(settings.memTable);
      var nearestHz := GetNearestHz(settings.memTable, targetHz, maxHz);
      nearest := nearestHz;
      if nearestHz != memContext {
        ghost var was := Now();
        if targetHz > oldHz {
          SettledMonotone(settings, oldHz, targetHz);
          ApplyGpuDvfs(targetHz, stockGpuHz);   // raise the voltage before the clock
        }
        SetMemHz(nearestHz);
        memContext := nearestHz;
        if targetHz < oldHz {
          ApplyGpuDvfs(targetHz, stockGpuHz);   // lower it only after the clock
        }
        StepsOfMove(settings, was, targetHz, nearestHz, old(trace), trace);
      }
    }

    /** The GPU round of SetClocks. */
    method SetGpuClock(input: TickInput)
      requires Valid()
      modifies this`gpuHz, this`appliedVmin, this`trace, this`gpuContext
      ensures Valid() && old(trace) <= trace
      ensures input.gpu.Target() == 0 ==> gpuHz == input.stockGpuHz && gpuContext == old(gpuContext)
      ensures input.gpu.Target() != 0 ==> Snapped(input.gpu.Target(), gpuContext)
      ensures input.gpu.Target() != 0 ==> gpuHz == if gpuContext == old(gpuContext) then old(gpuHz) else gpuContext
      ensures appliedVmin == voltData.ramVmin || appliedVmin == old(appliedVmin)
    {
      if input.gpu.Target() == 0 {
        SetGpuHz(input.stockGpuHz);
        return;
      }
      var maxHz := GetMaxAllowedHz(GPU, profile, settings.soc, settings.uncapped, settings.gpuUv);
      var nearestHz := GetNearestHz(settings.gpuTable, input.gpu.Target(), maxHz);
      if nearestHz != gpuContext {
        SetGpuHz(nearestHz);
        gpuContext := nearestHz;
      }
    }

    ghost predicate InputOk(input: TickInput) {
      StockMem(input.stockMemHz) && (input.mem.Target() == 0 || settings.SnapsSafely(input.mem.Target()))
    }

    /** The module loop in its order: CPU, GPU, MEM, governor, display. CPU and display
        touch neither RAM nor GPU voltage. */
    method SetClocks(input: TickInput)
      requires Valid() && InputOk(input)
      modifies this`ramHz, this`gpuHz, this`appliedVmin, this`trace, this`memContext, this`gpuContext, voltData
      ensures Valid() && old(trace) <= trace
      ensures input.isBoost && !input.overwriteBoost ==> State() == old(State())
      ensures (input.isBoost ==> input.overwriteBoost) && old(memContext) == old(ramHz) ==>
        MemIsSet(settings, old(ramHz), old(voltData.ramVmin), input, Now())
      ensures (input.isBoost ==> input.overwriteBoost) && (old(gpuContext) == old(gpuHz) || old(gpuHz) == 0) ==>
        GpuIsSet(settings, old(gpuHz), old(gpuContext), input, State())
    {
      if input.isBoost && !input.overwriteBoost {
        return;
      }
      var didHijackPcv := false;
      if !input.gpuGoverned {
        SetGpuClock(input);
      }
      ghost var held := gpuHz;
      if input.mem.Target() != 0 {
        ghost var was := Now();
        ghost var nearest := SetMemClock(input.mem.Target(), input.stockGpuHz);
        SettledMoveIsSafe(settings, was, input.mem.Target(), nearest);
      } else {
        ResetMem(input, didHijackPcv);
      }
      StillSnapped(settings, profile, input.gpu.Target(), held, gpuContext, gpuHz);
      if input.governorDropsGpu {
        SetGpuHz(input.stockGpuHz);
      }
    }

    /** Everything goes to stock, RAM before the voltage. */
    method ResetContext(input: TickInput)
      requires Valid() && StockMem(input.stockMemHz)
      modifies this`ramHz, this`gpuHz, this`appliedVmin, this`trace, voltData
      ensures Valid() && old(trace) <= trace
      ensures Now() == Snapshot(input.stockMemHz, 0, 0) && gpuHz == input.stockGpuHz
      ensures var floor := old(voltData.ramVmin);
              trace == old(trace) + [Snapshot(old(ramHz), floor, floor), Snapshot(input.stockMemHz, floor, floor),
                                     Snapshot(input.stockMemHz, 0, floor), Snapshot(input.stockMemHz, 0, 0)]
    {
      StockNeedsNothing(settings, input.stockMemHz);
      SetGpuHz(input.stockGpuHz);
      SetMemHz(input.stockMemHz);
      Hijack(0);
      SetGpuHz(input.stockGpuHz);
    }

    /** On a title or profile change everything is reset; then the real clocks and the
        overrides are noted. */
    method RefreshContext(input: TickInput) returns (hasChanged: bool)
      requires Valid() && StockMem(input.stockMemHz)
      modifies this, voltData
      ensures Valid() && old(trace) <= trace
      ensures applicationId == input.applicationId && profile == input.profile
      ensures gpuOverride == input.gpu.override && memOverride == input.mem.override
      ensures old(State()).Moves(input) ==> Now() == Snapshot(input.stockMemHz, 0, 0) && gpuHz == input.stockGpuHz
      ensures !old(State()).Moves(input) ==> Now() == old(Now()) && gpuHz == old(gpuHz)
      ensures memContext == ramHz && gpuContext == if gpuHz == 0 then old(gpuContext) else gpuHz
      ensures hasChanged <==>
        || old(State()).Moves(input) || gpuContext != old(gpuContext) || memContext != old(memContext)
        || gpuOverride != old(gpuOverride) || memOverride != old(memOverride) || input.otherChange
    {
      hasChanged := false;
      if input.applicationId != applicationId {
        applicationId := input.applicationId;
        hasChanged := true;
      }
      if input.profile != profile {
        profile := input.profile;
        hasChanged := true;
      }
      if hasChanged {
        ResetContext(input);
      }
      var noted := NoteClocks(input);
      hasChanged := hasChanged || noted;
    }

    /** The loop of RefreshContext over the modules. */
    method NoteClocks(input: TickInput) returns (hasChanged: bool)
      modifies this`gpuContext, this`memContext, this`gpuOverride, this`memOverride
      ensures gpuOverride == input.gpu.override && memOverride == input.mem.override
      ensures memContext == if ramHz == 0 then old(memContext) else ramHz
      ensures gpuContext == if gpuHz == 0 then old(gpuContext) else gpuHz
      ensures hasChanged <==>
        || gpuContext != old(gpuContext) || memContext != old(memContext)
        || gpuOverride != old(gpuOverride) || memOverride != old(memOverride) || input.otherChange
    {
      hasChanged := input.otherChange;
      if gpuHz != 0 && gpuHz != gpuContext {
        gpuContext := gpuHz;
        hasChanged := true;
      }
      if input.gpu.override != gpuOverride {
        gpuOverride := input.gpu.override;
        hasChanged := true;
      }
      if ramHz != 0 && ramHz != memContext {
        memContext := ramHz;
        hasChanged := true;
      }
      if input.mem.override != memOverride {
        memOverride := input.mem.override;
        hasChanged := true;
      }
    }

    /** A tick: every state on the way is safe, and afterwards the clocks are those wanted. */
    method Tick(input: TickInput)
      requires Valid() && InputOk(input)
      modifies this, voltData
      ensures Valid() && old(trace) <= trace
      ensures TickEffect(settings, old(State()), input, State())
    {
      if input.safetyTripped {
        SetGpuHz(input.stockGpuHz);
      }
      var hasChanged := RefreshContext(input);
      if (hasChanged || input.configRefreshed || input.realGpuHz != gpuContext) && !input.safetyTripped {
        SetClocks(input);
      }
    }

    /** The system itself puts RAM back to a stock clock between ticks. */
    method SystemResetsRam(hz: Hz)
      requires Valid() && StockMem(hz)
      modifies this`ramHz, this`trace
      ensures Valid() && old(trace) <= trace && ramHz == hz
      ensures State() == old(State()).(now := old(Now()).(ramHz := hz))
    {
      StockNeedsNothing(settings, hz);
      SetMemHz(hz);
    }
  }

  /** Once the GPU is at the entry for its target, setting it again for RAM keeps it there. */
  lemma StillSnapped(settings: Settings, profile: Profile, target: Hz, held: Hz, noted: Hz, gpuHz: Hz)
    ensures SnapsGpu(settings, profile, target, noted) && (held == noted ==> SnapsGpu(settings, profile, held, gpuHz))
            ==> (held == noted ==> gpuHz == noted)
    ensures SnapsGpu(settings, profile, target, noted) && SnapsGpu(settings, profile, target, gpuHz) ==> gpuHz == noted
  {
    var cap := GetMaxAllowedHz(GPU, profile, settings.soc, settings.uncapped, settings.gpuUv);
    if SnapsGpu(settings, profile, target, noted) {
      NearestIsUnique(settings.gpuTable, target, cap, noted, gpuHz);
    }
  }

  /** Raising the target above a settled clock never lowers the floor, even into the gap. */
  lemma SettledMonotone(settings: Settings, oldHz: Hz, targetHz: Hz)
    requires settings.Valid() && settings.Settled(oldHz) && oldHz <= targetHz
    ensures settings.Needed(oldHz) <= settings.Needed(targetHz)
  {
    if StockMem(oldHz) {
      StockNeedsNothing(settings, oldHz);
    }
    NeededMonotone(settings, oldHz, targetHz);
  }

  /** The states that one change of the RAM clock passes. */
  function MoveStates(settings: Settings, s: Snapshot, target: Hz, nearest: Hz): seq<Snapshot> {
    var floor := settings.Needed(target);
    if target > s.ramHz then
      [Snapshot(s.ramHz, floor, s.appliedVmin), Snapshot(s.ramHz, floor, floor), Snapshot(nearest, floor, floor)]
    else if target == s.ramHz then [s.(ramHz := nearest)]
    else [s.(ramHz := nearest), Snapshot(nearest, floor, s.appliedVmin), Snapshot(nearest, floor, floor)]
  }

  /** They are all safe exactly when the move is safe. */
  lemma StepsOfMove(settings: Settings, s: Snapshot, target: Hz, nearest: Hz, before: seq<Snapshot>, after: seq<Snapshot>)
    requires settings.Safe(s) && (forall x :: x in before ==> settings.Safe(x))
    requires target > s.ramHz ==> settings.Needed(s.ramHz) <= settings.Needed(target)
    requires after == before + MoveStates(settings, s, target, nearest)
    ensures (forall x :: x in after ==> settings.Safe(x)) <==> settings.MoveIsSafe(s, target, nearest)
  {
    var steps := MoveStates(settings, s, target, nearest);
    assert forall x :: x in after <==> x in before || x in steps;
    assert steps[|steps| - 1] in steps && steps[0] in steps;
  }

  datatype Event = Ticked(input: TickInput) | RamReset(hz: Hz) | GpuSet(hz: Hz)

  /** A target must snap to an entry that needs no more than the target: every target that
      names an entry does. */
  ghost predicate EventOk(settings: Settings, e: Event) {
    match e
    case Ticked(input) => StockMem(input.stockMemHz) && (input.mem.Target() == 0 || settings.SnapsSafely(input.mem.Target()))
    case RamReset(hz) => StockMem(hz)
    case GpuSet(hz) => true
  }

  ghost predicate EventEffect(settings: Settings, before: Status, e: Event, after: Status) {
    match e
    case Ticked(input) => TickEffect(settings, before, input, after)
    case RamReset(hz) => after == before.(now := before.now.(ramHz := hz))
    case GpuSet(hz) => after == before.(gpuHz := hz, now := before.now.(appliedVmin := before.now.tableVmin))
  }

  ghost predicate Follows(settings: Settings, states: seq<Status>, events: seq<Event>) {
    |states| == |events| + 1 && forall i :: 0 <= i < |events| ==> EventEffect(settings, states[i], events[i], states[i + 1])
  }

  /** The main loop, with clock changes by the system and the governor threads in between:
      in every state of every run the voltage floor in force, and the one the GPU has taken
      up, suffice for the RAM clock; and every event has its effect. */
  method Run(manager: ClockManager, events: seq<Event>) returns (ghost states: seq<Status>)
    requires manager.Valid()
    requires forall i :: 0 <= i < |events| ==> EventOk(manager.settings, events[i])
    modifies manager, manager.voltData
    ensures manager.Valid() && old(manager.trace) <= manager.trace
    ensures forall s :: s in manager.trace ==> manager.settings.Safe(s)
    ensures Follows(manager.settings, states, events)
    ensures states[0] == old(manager.State()) && states[|events|] == manager.State()
  {
    states := [manager.State()];
    for i := 0 to |events|
      invariant manager.Valid() && old(manager.trace) <= manager.trace
      invariant Follows(manager.settings, states, events[..i])
      invariant states[0] == old(manager.State()) && states[i] == manager.State()
    {
      assert EventOk(manager.settings, events[i]);
      assert events[..i + 1] == events[..i] + [events[i]];
      match events[i] {
        case Ticked(input) => manager.Tick(input);
        case RamReset(hz) => manager.SystemResetsRam(hz);
        case GpuSet(hz) => manager.SetGpuHz(hz);
      }
      states := states + [manager.State()];
    }
    assert events[..|events|] == events;
  }

  /** In boost mode that is not to be overwritten, and beyond a safety limit, a tick for the
      same title and profile leaves RAM and the table's floor alone; the limit puts the GPU to
      stock. */
  lemma BoostAndLimitSetNothing(settings: Settings, before: Status, input: TickInput, after: Status)
    requires TickEffect(settings, before, input, after)
    requires before.applicationId == input.applicationId && before.profile == input.profile
    ensures input.isBoost && !input.overwriteBoost && !input.safetyTripped ==>
              after.now == before.now && after.gpuHz == before.gpuHz
    ensures input.safetyTripped ==>
              after.now.ramHz == before.now.ramHz && after.now.tableVmin == before.now.tableVmin && after.gpuHz == input.stockGpuHz
  {
  }

  /** A reloaded configuration makes every tick set the clocks, outside boost mode or with
      boost mode overwritten. */
  lemma RefreshSetsClocks(before: Status, input: TickInput)
    requires input.configRefreshed && !input.safetyTripped && (!input.isBoost || input.overwriteBoost)
    ensures before.SetsClocks(input)
  {
  }

  /** After any run that ends with a tick in which the clocks are set, RAM runs at the entry
      that its target names. */
  lemma NamedTargetIsReached(settings: Settings, states: seq<Status>, events: seq<Event>, input: TickInput)
    requires settings.Valid() && Follows(settings, states, events)
    requires events != [] && events[|events| - 1] == Ticked(input)
    requires states[|events| - 1].SetsClocks(input) && NamedIn(settings.memTable, input.mem.Target()) && input.mem.Target() != 0
    ensures var ramHz := states[|events|].now.ramHz; ramHz in settings.memTable && Names(input.mem.Target(), ramHz)
  {
    var n := |events| - 1;
    assert EventEffect(settings, states[n], events[n], states[n + 1]);
    SnapsToNamed(settings.memTable, input.mem.Target(), settings.MemCap(), states[n + 1].now.ramHz);
  }

  /** Two targets between entries: the first snaps up to an entry that needs more, the second
      down to one that needs nothing. */
  lemma UnnamedTargets(settings: Settings)
    requires settings.memTable == [1_600_000_000, 1_866_000_000, 2_133_000_000]
    requires settings.soc == Mariko && settings.bracket == 0 && settings.offset == 0 && !settings.uncapped
    ensures MemTable(settings.memTable)
    ensures !NamedIn(settings.memTable, 2_000_000_000) && !settings.SnapsSafely(2_000_000_000)
    ensures !NamedIn(settings.memTable, 1_700_000_000) && settings.SnapsSafely(1_700_000_000)
  {
    var table := settings.memTable;
    assert Reach(table, 0, 2) && NearestUpTo(table, 2_000_000_000, 2, 2);
    assert IsNearest(table, 2_000_000_000, settings.MemCap(), table[2]);
    FloorsPart();
    assert !(settings.Needed(table[2]) <= settings.Needed(2_000_000_000));
    forall nearest: Hz | IsNearest(table, 1_700_000_000, 0, nearest)
      ensures settings.Needed(nearest) <= settings.Needed(1_700_000_000)
    {
      var r: nat, reach: nat :| Reach(table, 0, reach) && NearestUpTo(table, 1_700_000_000, reach, r) && nearest == table[r];
      assert Distance(table[r], 1_700_000_000) <= Distance(table[0], 1_700_000_000);
      NeededVminRange(Mariko, 0, 0, nearest);
    }
  }

  lemma FloorsPart()
    ensures NeededVmin(Mariko, 0, 0, 2_000_000_000) < NeededVmin(Mariko, 0, 0, 2_133_000_000)
  {
  }

  /** Why the write must succeed: the clock is raised whether or not it did. */
  lemma FailedRaiseIsUnsafe(settings: Settings, hz: Hz)
    requires settings.Valid()
    ensures settings.Safe(Snapshot(hz, 0, 0)) <==> hz / MHZ <= DVFS_FLOOR_MHZ
  {
    NeededVminRange(settings.soc, settings.bracket, settings.offset, hz);
  }
}
