/** Docked refresh rates (display_refresh_rate.cpp): the choice among the listed rates,
    the timing that is programmed for it, and the rate that GetRate reads back. */
module DockedRefreshRate {
  import opened MachineInts

  // ---- Tables -----------------------------------------------------------------------

  const RATES: seq<nat> := [
    40, 45, 50, 55, 60, 70, 72, 75, 80, 90, 95, 100, 110, 120,
    130, 140, 144, 150, 160, 165, 170, 180, 190, 200, 210, 220, 230, 240]

  datatype Timings = Timings(hFrontPorch: u16, hSyncWidth: u8, hBackPorch: u8,
                             vFrontPorch: u8, vSyncWidth: u8, vBackPorch: u8, pixelClockKHz: u32)

  const TIMINGS_1080P: seq<Timings> := [
    Timings(8, 32, 40, 7, 8, 6, 88080),
    Timings(8, 32, 40, 9, 8, 6, 99270),
    Timings(528, 44, 148, 4, 5, 36, 148500),
    Timings(8, 32, 40, 15, 8, 6, 121990),
    Timings(88, 44, 148, 4, 5, 36, 148500),
    Timings(8, 32, 40, 22, 8, 6, 156240),
    Timings(8, 32, 40, 23, 8, 6, 160848),
    Timings(8, 32, 40, 25, 8, 6, 167850),
    Timings(8, 32, 40, 28, 8, 6, 179520),
    Timings(8, 32, 40, 33, 8, 6, 202860),
    Timings(8, 32, 40, 36, 8, 6, 214700),
    Timings(528, 44, 148, 4, 5, 36, 297000),
    Timings(8, 32, 40, 44, 8, 6, 250360),
    Timings(88, 44, 148, 4, 5, 36, 297000),
    Timings(8, 32, 40, 55, 8, 6, 298750),
    Timings(8, 32, 40, 61, 8, 6, 323400),
    Timings(8, 32, 40, 63, 8, 6, 333216),
    Timings(8, 32, 40, 67, 8, 6, 348300),
    Timings(8, 32, 40, 72, 8, 6, 373120),
    Timings(8, 32, 40, 75, 8, 6, 385770),
    Timings(8, 32, 40, 78, 8, 6, 398480),
    Timings(8, 32, 40, 84, 8, 6, 424080),
    Timings(8, 32, 40, 90, 8, 6, 449920),
    Timings(8, 32, 40, 96, 8, 6, 476000),
    Timings(8, 32, 40, 102, 8, 6, 502320),
    Timings(8, 32, 40, 108, 8, 6, 528880),
    Timings(8, 32, 40, 114, 8, 6, 555680),
    Timings(8, 32, 40, 121, 8, 6, 583200)]

  ghost predicate RateTable(rates: seq<nat>) {
    && 0 < |rates| <= 127 && 60 in rates
    && (forall i :: 0 <= i < |rates| ==> 40 <= rates[i] <= 240)
    && (forall i, j :: 0 <= i < j < |rates| ==> rates[i] < rates[j])
  }

  lemma RatesAreATable()
    ensures RateTable(RATES) && |RATES| == |TIMINGS_1080P| == 28
  {
    assert RATES[4] == 60;
    forall i, j | 0 <= i < j < 28
      ensures RATES[i] < RATES[j]
    {
      RatesAscend(i, j);
    }
  }

  lemma {:induction false} RatesAscend(i: nat, j: nat)
    requires i < j < |RATES|
    ensures RATES[i] < RATES[j]
  {
    NextRateIsHigher(j - 1);
    if i < j - 1 {
      RatesAscend(i, j - 1);
    }
  }

  lemma NextRateIsHigher(i: nat)
    requires i + 1 < |RATES|
    ensures RATES[i] < RATES[i + 1]
  {
  }

  predicate Divides(d: nat, n: nat)
    requires d > 0
  {
    n % d == 0
  }

  lemma SmallerNotMultiple(d: nat, n: nat)
    requires 0 < n < d
    ensures !Divides(d, n)
  {
  }

  // ---- The choice -------------------------------------------------------------------

  /** The rate wanted before the limit of the display is applied: 60 for its divisors, else
      the lowest listed multiple; without one, 60 or the next listed rate above. */
  ghost predicate Wanted(rates: seq<nat>, request: nat, matchLowest: bool, k: nat)
    requires request > 0
  {
    && k < |rates|
    && if request <= 60 && Divides(request, 60) then rates[k] == 60
       else if exists i :: 0 <= i < |rates| && Divides(request, rates[i]) then
         Divides(request, rates[k]) && forall i :: 0 <= i < k ==> !Divides(request, rates[i])
       else if matchLowest && exists i :: 0 <= i < |rates| && request < rates[i] then
         request < rates[k] && forall i :: 0 <= i < k ==> rates[i] <= request
       else rates[k] == 60
  }

  /** The wanted rate, lowered to the highest listed rate that the display allows. */
  ghost predicate Limited(rates: seq<nat>, wanted: nat, highest: nat, k: nat)
    requires wanted < |rates|
  {
    && k <= wanted
    && (rates[wanted] <= highest ==> k == wanted)
    && (rates[wanted] > highest >= rates[0] ==>
          rates[k] <= highest && forall i :: k < i <= wanted ==> rates[i] > highest)
    && (highest < rates[0] ==> k == wanted)
  }

  method FindRate(rates: seq<nat>, rate: nat) returns (k: nat)
    requires rate in rates
    ensures k < |rates| && rates[k] == rate
  {
    k := 0;
    while rates[k] != rate
      invariant k < |rates| && rate in rates[k..]
      decreases |rates| - k
    {
      assert rates[k..] == [rates[k]] + rates[k + 1..];
      k := k + 1;
    }
  }

  method WantedRate(rates: seq<nat>, request: nat, matchLowest: bool) returns (itr: int)
    requires RateTable(rates) && request > 0
    ensures itr >= 0 && Wanted(rates, request, matchLowest, itr)
  {
    itr := -1;
    if request <= 60 && Divides(request, 60) {
      itr := FindRate(rates, 60);
    }
    if itr == -1 {
      var i := 0;
      while i < |rates|
        invariant 0 <= i <= |rates| && itr == -1
        invariant forall k :: 0 <= k < i ==> !Divides(request, rates[k])
      {
        if Divides(request, rates[i]) {
          itr := i;
          break;
        }
        i := i + 1;
      }
    }
    if itr == -1 {
      if !matchLowest {
        itr := FindRate(rates, 60);
      } else {
        var i := 0;
        while i < |rates|
          invariant 0 <= i <= |rates| && itr == -1
          invariant forall k :: 0 <= k < i ==> rates[k] <= request
        {
          if request < rates[i] {
            itr := i;
            break;
          }
          i := i + 1;
        }
      }
    }
    if itr == -1 {
      itr := FindRate(rates, 60);
    }
  }

  ghost predicate Chosen(rates: seq<nat>, request: nat, matchLowest: bool, highest: nat, k: nat)
    requires request > 0
  {
    exists wanted: nat :: Wanted(rates, request, matchLowest, wanted) && Limited(rates, wanted, highest, k)
  }

  method ChooseRate(rates: seq<nat>, request: nat, matchLowest: bool, highest: nat)
    returns (itr: nat, ghost wanted: nat)
    requires RateTable(rates) && request > 0
    ensures Wanted(rates, request, matchLowest, wanted) && Limited(rates, wanted, highest, itr)
    ensures Chosen(rates, request, matchLowest, highest, itr)
  {
    itr := WantedRate(rates, request, matchLowest);
    wanted := itr;
    if rates[itr] > highest {
      var i: int := itr;
      while i >= 0
        invariant -1 <= i <= itr == wanted
        invariant forall k :: i < k <= wanted ==> rates[k] > highest
      {
        if rates[i] <= highest {
          itr := i;
          break;
        }
        i := i - 1;
      }
    }
  }

  /** A listed and allowed request is met exactly; the choice never exceeds the highest
      allowed rate unless that lies below the whole table; and it never exceeds the wanted
      one. */
  lemma ChoiceIsAllowed(rates: seq<nat>, request: nat, matchLowest: bool, highest: nat, wanted: nat, k: nat)
    requires RateTable(rates) && request > 0
    requires Wanted(rates, request, matchLowest, wanted) && Limited(rates, wanted, highest, k)
    ensures k < |rates| && rates[k] <= rates[wanted]
    ensures rates[k] <= highest <==> rates[0] <= highest
    ensures request in rates && request <= highest ==> rates[k] == request
    ensures request > 60 && (forall i :: 0 <= i < |rates| ==> !Divides(request, rates[i])) && !matchLowest ==> rates[wanted] == 60
  {
    assert rates[0] <= rates[k];
    if request in rates && request <= highest {
      ListedIsWanted(rates, request, matchLowest, wanted);
    }
  }

  lemma ListedIsWanted(rates: seq<nat>, request: nat, matchLowest: bool, wanted: nat)
    requires RateTable(rates) && request in rates && request > 0
    requires Wanted(rates, request, matchLowest, wanted)
    ensures rates[wanted] == request
  {
    var i :| 0 <= i < |rates| && rates[i] == request;
    if request <= 60 && Divides(request, 60) {
      OnlySixtyDivides(request);
    } else {
      DividesItself(request);
      assert wanted <= i;
      if wanted < i {
        SmallerNotMultiple(request, rates[wanted]);
      }
    }
  }

  lemma DividesItself(d: nat)
    requires d > 0
    ensures Divides(d, d)
  {
  }

  lemma OnlySixtyDivides(d: nat)
    requires 40 <= d <= 60 && Divides(d, 60)
    ensures d == 60
  {
    assert 60 == d * (60 / d);
    assert 60 / d == 1;
  }

  // ---- The mode ---------------------------------------------------------------------

  function Total(active: u32, front: u32, sync: u32, back: u32): u32 {
    (active + front + sync + back) % TWO_32
  }

  datatype Mode = Mode(hActive: u32, hFrontPorch: u32, hSyncWidth: u32, hBackPorch: u32,
                       vActive: u32, vFrontPorch: u32, vSyncWidth: u32, vBackPorch: u32, pclkKHz: u32)
  {
    function HTotal(): u32 { Total(hActive, hFrontPorch, hSyncWidth, hBackPorch) }
    function VTotal(): u32 { Total(vActive, vFrontPorch, vSyncWidth, vBackPorch) }

    /** Pixels of a whole frame. */
    function Frame(): nat { HTotal() * VTotal() }
  }

  /** The clock in Hz, a 32-bit product, rounded up by the remainder of a kHz. */
  function ClockHz(pclkKHz: u32): u32 { (pclkKHz * 1000 + 999) % TWO_32 }

  function Quotient(clock: nat, pixels: nat): nat
    requires pixels > 0
  {
    clock / pixels
  }

  /** The rate the setter reads: its frame is a 32-bit product. */
  function SetterRate(m: Mode): nat
    requires m.Frame() % TWO_32 > 0
  {
    Quotient(ClockHz(m.pclkKHz), m.Frame() % TWO_32)
  }

  /** The rate GetRate reads: its frame is a 64-bit product. */
  function GetterRate(m: Mode): nat
    requires m.Frame() > 0
  {
    Quotient(ClockHz(m.pclkKHz), m.Frame())
  }

  /** The kHz for a rate, in 32-bit arithmetic. */
  function Clock720(frame: nat, rate: nat): u32 { frame % TWO_32 * rate % TWO_32 / 1000 }

  function With1080(m: Mode, t: Timings): Mode {
    m.(hFrontPorch := t.hFrontPorch, hSyncWidth := t.hSyncWidth, hBackPorch := t.hBackPorch,
       vFrontPorch := t.vFrontPorch, vSyncWidth := t.vSyncWidth, vBackPorch := t.vBackPorch,
       pclkKHz := t.pixelClockKHz)
  }

  /** The mode submitted for the listed rate k. */
  function Retimed(m: Mode, k: nat): Mode
    requires k < |RATES| && k < |TIMINGS_1080P|
  {
    if m.vActive == 720 then m.(pclkKHz := Clock720(m.Frame(), RATES[k]))
    else With1080(m, TIMINGS_1080P[k])
  }

  predicate Supported(m: Mode) {
    || (m.vActive == 480 && m.hActive == 720)
    || (m.vActive == 720 && m.hActive == 1280)
    || (m.vActive == 1080 && m.hActive == 1920)
  }

  /** The submitted mode: at 720p only the clock changes, else the porches, the sync widths
      and the clock are those listed for the rate. */
  lemma SubmittedMode(m: Mode, k: nat)
    requires k < |RATES| && k < |TIMINGS_1080P|
    ensures var q, t := Retimed(m, k), TIMINGS_1080P[k];
            && q.hActive == m.hActive && q.vActive == m.vActive
            && (m.vActive == 720 ==> q == m.(pclkKHz := q.pclkKHz))
            && (m.vActive != 720 ==>
                  && q.hFrontPorch == t.hFrontPorch && q.hSyncWidth == t.hSyncWidth && q.hBackPorch == t.hBackPorch
                  && q.vFrontPorch == t.vFrontPorch && q.vSyncWidth == t.vSyncWidth && q.vBackPorch == t.vBackPorch
                  && q.pclkKHz == t.pixelClockKHz)
  {
  }

  lemma SupportedModes(m: Mode)
    ensures Supported(m) <==> (m.hActive, m.vActive) in {(720, 480), (1280, 720), (1920, 1080)}
  {
  }

  class DockedDisplay {
    var mode: Mode
    var highest: u8
    const isLite: bool
    const matchLowest: bool
    var canChange: bool

    constructor (mode: Mode, highest: u8, isLite: bool, matchLowest: bool, canChange: bool)
      ensures this.mode == mode && this.highest == highest && this.canChange == canChange
      ensures this.isLite == isLite && this.matchLowest == matchLowest
    {
      this.mode, this.highest, this.isLite, this.matchLowest, this.canChange :=
        mode, highest, isLite, matchLowest, canChange;
    }

    /** _setNvDispDockedRefreshRate with a display that answers; accepted says whether the
        driver takes the new mode. The setter divides by the 32-bit frame size, so that must
        not be zero. */
    method SetRate(request: nat, accepted: bool) returns (ok: bool, ghost wanted: nat, ghost k: nat)
      requires request > 0 && (Supported(mode) ==> mode.Frame() % TWO_32 > 0)
      modifies this`mode
      ensures ok <==> !isLite && canChange && old(mode).pclkKHz != 0 && Supported(old(mode))
      ensures !ok ==> mode == old(mode)
      ensures ok ==> Wanted(RATES, request, matchLowest, wanted) && Limited(RATES, wanted, highest, k) && k < 28
      ensures ok ==> mode == Outcome(old(mode), k, accepted)
    {
      RatesAreATable();
      ok, wanted, k := false, 0, 0;
      if isLite || !canChange {
        return;
      }
      if mode.pclkKHz == 0 || !Supported(mode) {
        return;
      }
      var itr;
      itr, wanted := ChooseRate(RATES, request, matchLowest, highest);
      k := itr;
      ok := true;
      if SetterRate(mode) == RATES[itr] {
        return;
      }
      var submitted := Retimed(mode, itr);
      if accepted {
        mode := submitted;
      }
    }
  }

  /** The mode is left alone when it already has the rate or the driver refuses. */
  function Outcome(m: Mode, k: nat, accepted: bool): Mode
    requires m.Frame() % TWO_32 > 0 && k < |RATES| && k < |TIMINGS_1080P|
  {
    if accepted && SetterRate(m) != RATES[k] then Retimed(m, k) else m
  }

  // ---- Read-back --------------------------------------------------------------------

  /** The frame is small enough that no 32-bit product wraps around up to 240 Hz. */
  predicate Sane(frame: nat) { 0 < frame && frame * 240 + 999 < TWO_32 }

  /** The 720p clock is rounded down to kHz; adding 999 makes up for it exactly when the
      frame is longer than the rounding error. */
  lemma Reads720(m: Mode, rate: nat)
    requires Sane(m.Frame()) && rate <= 240
    ensures var q := m.(pclkKHz := Clock720(m.Frame(), rate));
            && q.Frame() == m.Frame()
            && (GetterRate(q) == rate <==> 999 - m.Frame() * rate % 1000 < m.Frame())
            && (m.Frame() > 999 ==> GetterRate(q) == rate)
  {
    ClockReads(m.Frame(), rate);
  }

  lemma ClockReads(frame: nat, rate: nat)
    requires Sane(frame) && rate <= 240
    ensures var reading := Quotient(ClockHz(Clock720(frame, rate)), frame);
            && (reading == rate <==> 999 - frame * rate % 1000 < frame)
            && (frame > 999 ==> reading == rate)
  {
    var rest := ClockFor(frame, rate);
    QuotientIs(frame, rate, rest);
  }

  lemma ClockFor(frame: nat, rate: nat) returns (rest: nat)
    requires Sane(frame) && rate <= 240
    ensures rest == 999 - frame * rate % 1000 && rest <= 999
    ensures ClockHz(Clock720(frame, rate)) == frame * rate + rest
  {
    var x := frame * rate;
    ProductBound(frame, rate);
    assert frame % TWO_32 == frame;
    KilohertzRounding(x);
    rest := 999 - x % 1000;
  }

  lemma ProductBound(p: nat, rate: nat)
    requires rate <= 240
    ensures p * rate <= p * 240
  {
  }

  lemma KilohertzRounding(x: nat)
    requires x + 999 < TWO_32
    ensures ClockHz(x % TWO_32 / 1000) == x + (999 - x % 1000)
  {
    assert x == x / 1000 * 1000 + x % 1000;
  }

  lemma QuotientIs(p: nat, rate: nat, rest: nat)
    requires p > 0
    ensures Quotient(p * rate + rest, p) == rate <==> rest < p
  {
    var q := (p * rate + rest) / p;
    var m := (p * rate + rest) % p;
    assert p * rate + rest == p * q + m;
    assert p * (q - rate) == p * q - p * rate;
    MultipleAtLeast(p, q - rate);
    MultipleAtLeast(p, rate - q);
  }

  /** A 1080p timing gives its rate: the frame times the rate is less than a frame below the
      clock. */
  predicate TimingFits(t: Timings, rate: nat) {
    var frame := (1920 + t.hFrontPorch + t.hSyncWidth + t.hBackPorch) * (1080 + t.vFrontPorch + t.vSyncWidth + t.vBackPorch);
    0 <= t.pixelClockKHz * 1000 + 999 - frame * rate < frame && t.pixelClockKHz * 1000 + 999 < TWO_32
  }

  lemma TimingReads(m: Mode, t: Timings, rate: nat)
    requires m.hActive == 1920 && m.vActive == 1080 && TimingFits(t, rate)
    ensures With1080(m, t).Frame() > 0 && GetterRate(With1080(m, t)) == rate
  {
    var frame := With1080(m, t).Frame();
    QuotientIs(frame, rate, t.pixelClockKHz * 1000 + 999 - frame * rate);
  }

  lemma TimingsFit(k: nat)
    requires k < 28
    ensures |RATES| == |TIMINGS_1080P| == 28 && TimingFits(TIMINGS_1080P[k], RATES[k])
  {
    if k < 14 {
      LowTimingsFit(k);
    } else {
      HighTimingsFit(k);
    }
  }

  lemma LowTimingsFit(k: nat)
    requires k < 14
    ensures TimingFits(TIMINGS_1080P[k], RATES[k])
  {
  }

  lemma HighTimingsFit(k: nat)
    requires 14 <= k < 28
    ensures TimingFits(TIMINGS_1080P[k], RATES[k])
  {
  }

  /** Every listed 1080p timing reads back its listed rate. */
  lemma Reads1080(m: Mode, k: nat)
    requires m.hActive == 1920 && m.vActive == 1080 && k < 28
    ensures |RATES| == |TIMINGS_1080P| == 28
    ensures var q := With1080(m, TIMINGS_1080P[k]); q.Frame() > 0 && GetterRate(q) == RATES[k]
  {
    TimingsFit(k);
    TimingReads(m, TIMINGS_1080P[k], RATES[k]);
  }

  /** What the docked setter programs is what is read back. */
  lemma DockedReadsBack(m: Mode, k: nat)
    requires k < 28
    requires (m.vActive == 720 && m.hActive == 1280 && Sane(m.Frame()) && m.Frame() > 999)
             || (m.vActive == 1080 && m.hActive == 1920)
    ensures |RATES| == |TIMINGS_1080P| == 28
    ensures Retimed(m, k).Frame() > 0 && GetterRate(Retimed(m, k)) == RATES[k]
  {
    RatesAreATable();
    if m.vActive == 720 {
      Reads720(m, RATES[k]);
    } else {
      Reads1080(m, k);
    }
  }

  /** After a call that the driver accepts the display reads the chosen rate, whether the
      mode had to be changed or not. */
  lemma AcceptedReadsBack(m: Mode, k: nat)
    requires k < 28 && 0 < m.Frame() < TWO_32
    requires (m.vActive == 720 && m.hActive == 1280 && Sane(m.Frame()) && m.Frame() > 999)
             || (m.vActive == 1080 && m.hActive == 1920)
    ensures |RATES| == |TIMINGS_1080P| == 28
    ensures Outcome(m, k, true).Frame() > 0 && GetterRate(Outcome(m, k, true)) == RATES[k]
    ensures Outcome(m, k, false) == m
  {
    RatesAreATable();
    assert SetterRate(m) == GetterRate(m);
    DockedReadsBack(m, k);
  }
}
