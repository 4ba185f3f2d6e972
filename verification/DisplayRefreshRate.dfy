/** Handheld refresh rates (display_refresh_rate.cpp): the fixed-point programming of PLLD
    and its read-back. */
module DisplayRefreshRate {
  import opened MachineInts

  const LOWEST := 40
  const HIGHEST := 80
  const DSI_CLOCK_PER_HZ := 3_900_000  // DSI_CLOCK_HZ / 60

  type s16 = x: int | -0x8000 <= x < 0x8000

  // ---- Requests ---------------------------------------------------------------------

  /** The rate a request stands for: itself where the panel can show it, else a multiple. */
  function Normal(request: nat): nat {
    if request > HIGHEST then HIGHEST
    else if request >= LOWEST then request
    else if request == 15 || request == 20 || request == 30 then 60
    else if request >= 20 then 2 * request
    else if request >= 14 then 3 * request
    else if request >= 10 then 4 * request
    else 60
  }

  lemma NormalFitsPanel(request: nat)
    ensures LOWEST <= Normal(request) <= HIGHEST
    ensures request > HIGHEST ==> Normal(request) == HIGHEST
    ensures LOWEST <= request <= HIGHEST ==> Normal(request) == request
    ensures request in {15, 20, 30} || request < 10 ==> Normal(request) == 60
    ensures 10 <= request < LOWEST ==> Normal(request) in {2 * request, 3 * request, 4 * request}
    ensures request !in {15, 20, 30} ==>
      forall i :: 2 <= i <= 4 && request < LOWEST <= i * request <= HIGHEST ==> Normal(request) <= i * request
    ensures Normal(Normal(request)) == Normal(request)
  {
  }

  method Normalise(request: nat) returns (rate: nat)
    ensures rate == Normal(request)
  {
    rate := request;
    if rate > HIGHEST {
      rate := HIGHEST;
    } else if rate < LOWEST {
      var skip := false;
      var i := 2;
      while i <= 4
        invariant 2 <= i <= 5 && !skip && rate == request
        invariant (i > 2 ==> rate != 30) && (i > 3 ==> rate != 20) && (i > 4 ==> rate != 15)
      {
        assert i == 2 || i == 3 || i == 4;
        if rate * i == 60 {
          skip := true;
          rate := 60;
          break;
        }
        i := i + 1;
      }
      if !skip {
        i := 2;
        while i <= 4
          invariant 2 <= i <= 5 && !skip && rate == request
          invariant (i > 2 ==> rate < 20) && (i > 3 ==> rate < 14) && (i > 4 ==> rate < 10)
        {
          assert i == 2 || i == 3 || i == 4;
          if LOWEST <= rate * i && rate * i <= HIGHEST {
            skip := true;
            rate := rate * i;
            break;
          }
          i := i + 1;
        }
      }
      if !skip {
        rate := 60;
      }
    }
  }

  // ---- The PLL ----------------------------------------------------------------------

  /** The fields PLLD_DIVN, PLLD_DIVM and PLLD_SDM_DIN. */
  datatype Plld = Plld(divn: u8, divm: u8, sdm: s16)

  function Scaled(p: Plld): int { 4096 * (2 * p.divn + 1) + p.sdm }

  function Wrapped(x: int, half: nat): int
    requires half > 0
  {
    (x + half) % (2 * half) - half
  }

  function TruncatedQuotient(x: int, y: int): int
    requires y > 0
  {
    if x >= 0 then x / y else -((-x) / y)
  }

  /** The base rate that marks the docked state. */
  function BaseRate(p: Plld): nat
    requires p.divm > 0
  {
    p.divn / p.divm * 10 / 4
  }

  predicate DockedSentinel(p: Plld)
    requires p.divm > 0
  {
    BaseRate(p) == 0 || BaseRate(p) == 80
  }

  /** The divider is below 1, which no handheld rate has, or it is that of 80 Hz. */
  lemma SentinelMeans(p: Plld)
    requires p.divm > 0
    ensures DockedSentinel(p) <==> p.divn < p.divm || p.divn / p.divm == 32
  {
    var ratio := p.divn / p.divm;
    RatioMeans(ratio);
    BelowOne(p.divn, p.divm);
  }

  lemma RatioMeans(ratio: nat)
    ensures ratio * 10 / 4 == 0 <==> ratio == 0
    ensures ratio * 10 / 4 == 80 <==> ratio == 32
  {
  }

  lemma BelowOne(n: nat, m: nat)
    requires m > 0
    ensures n / m == 0 <==> n < m
  {
  }

  /** The rate the setter believes to be in force: its product is a 32-bit int. */
  function RateNow(p: Plld): int
    requires p.divm > 0
  {
    PixelClockNow(p) / DSI_CLOCK_PER_HZ % TWO_16
  }

  function PixelClockNow(p: Plld): int
    requires p.divm > 0
  {
    TruncatedQuotient(Wrapped(9375 * Scaled(p), 0x8000_0000), 8 * p.divm) % TWO_32
  }

  /** The rate GetRate reports outside the docked state: its product is a 64-bit one. */
  function ReportedRate(p: Plld): int
    requires p.divm > 0
  {
    PixelClock(p) / DSI_CLOCK_PER_HZ
  }

  function PixelClock(p: Plld): int
    requires p.divm > 0
  {
    9375 * (Scaled(p) % TWO_64) % TWO_64 / (8 * p.divm) % TWO_32
  }

  /** GetRate outside RETRO mode: no handheld rate while the base rate marks the docked
      state, else the reported one. */
  function HandheldReading(p: Plld): Option<int>
    requires p.divm > 0
  {
    if DockedSentinel(p) then None else Some(ReportedRate(p))
  }

  /** The registers hold exactly the divider for a rate. */
  predicate Programmed(p: Plld, rate: nat) {
    p.divm == 1 && p.divn == 2 * (rate / 5) && Scaled(p) == 3328 * rate
  }

  /** What one call of the setter does to the registers. */
  predicate SetOutcome(before: Plld, request: nat, after: Plld, ok: bool)
    requires before.divm > 0
  {
    if DockedSentinel(before) then !ok && after == before
    else ok && if RateNow(before) == Normal(request) then after == before else Programmed(after, Normal(request))
  }

  class ClockRegisters {
    var base: Plld

    constructor (base: Plld)
      ensures this.base == base
    {
      this.base := base;
    }

    /** _setPLLDHandheldRefreshRate, once the panel was found. */
    method SetHandheldRate(request: u32) returns (ok: bool)
      requires base.divm > 0
      modifies this
      ensures base.divm > 0 && SetOutcome(old(base), request, base, ok)
    {
      var value := base.divn / base.divm * 10 / 4;
      if value == 0 || value == 80 {
        return false;
      }
      var rate := Normalise(request);
      if RateNow(base) == rate {
        return true;
      }
      NormalFitsPanel(request);
      var baseRate := rate - rate % 5;
      var divn := 4 * baseRate / 10;
      var expected := DSI_CLOCK_PER_HZ * 60 * rate / 60;
      var sdm := Wrapped(8 * expected / 9375 - 4096 * (2 * divn + 1), 0x8000);
      DividerFits(rate);
      base := Plld(divn, 1, sdm);
      ok := true;
    }
  }

  /** The divider of every panel rate fits its fields, so no truncation takes place. */
  lemma DividerFits(rate: nat)
    requires LOWEST <= rate <= HIGHEST
    ensures var divn := 4 * (rate - rate % 5) / 10;
            var sdm := 8 * (DSI_CLOCK_PER_HZ * 60 * rate / 60) / 9375 - 4096 * (2 * divn + 1);
            && 0 <= divn < 0x100 && -0x8000 <= sdm < 0x8000
            && Wrapped(sdm, 0x8000) == sdm
            && Programmed(Plld(divn, 1, sdm), rate)
  {
    assert rate == rate / 5 * 5 + rate % 5;
    assert 8 * (DSI_CLOCK_PER_HZ * 60 * rate / 60) / 9375 == 3328 * rate;
  }

  /** A programmed rate reads back exactly, except the highest one, which the read-back and
      the setter both take for the docked state. */
  lemma ReadsBack(p: Plld, rate: nat)
    requires Programmed(p, rate) && LOWEST <= rate <= HIGHEST
    ensures DockedSentinel(p) <==> rate == HIGHEST
    ensures HandheldReading(p) == if rate == HIGHEST then None else Some(rate)
    ensures PixelClock(p) == 3_900_000 * rate
  {
    assert 9375 * (3328 * rate) / 8 == 3_900_000 * rate;
  }

  /** The setter's own reading overflows from 69 Hz on, but never into another panel rate. */
  lemma RateNowOfProgrammed(p: Plld, rate: nat)
    requires Programmed(p, rate) && LOWEST <= rate <= HIGHEST
    ensures rate <= 68 ==> PixelClockNow(p) == 3_900_000 * rate && RateNow(p) == rate
    ensures rate > 68 ==> RateNow(p) > HIGHEST
  {
    var product := 9375 * 3328 * rate;
    if rate <= 68 {
      assert Wrapped(product, 0x8000_0000) == product;
    } else {
      assert Wrapped(product, 0x8000_0000) == product - TWO_32;
    }
  }

  /** From a programmed rate other than the highest every request is met exactly. */
  lemma StepProgramsRequest(before: Plld, rate: nat, request: nat, after: Plld, ok: bool)
    requires Programmed(before, rate) && LOWEST <= rate <= HIGHEST
    requires SetOutcome(before, request, after, ok)
    ensures rate < HIGHEST ==> ok && Programmed(after, Normal(request))
    ensures rate == HIGHEST ==> !ok && after == before
  {
    ReadsBack(before, rate);
    RateNowOfProgrammed(before, rate);
    NormalFitsPanel(request);
  }

  /** The rate in force after a list of requests, starting from 60 Hz. */
  function InForce(requests: seq<nat>): nat {
    if requests == [] then 60
    else if InForce(requests[..|requests| - 1]) == HIGHEST then HIGHEST
    else Normal(requests[|requests| - 1])
  }

  ghost predicate Run(states: seq<Plld>, requests: seq<nat>) {
    && |states| == |requests| + 1 && Programmed(states[0], 60)
    && forall i :: 0 <= i < |requests| ==> RunStep(states, requests, i)
  }

  ghost predicate RunStep(states: seq<Plld>, requests: seq<nat>, i: nat)
    requires i < |requests| && i + 1 < |states|
  {
    && states[i].divm > 0
    && (SetOutcome(states[i], requests[i], states[i + 1], true) || SetOutcome(states[i], requests[i], states[i + 1], false))
  }

  lemma RunExtends(states: seq<Plld>, earlier: seq<nat>, request: nat, next: Plld, ok: bool)
    requires Run(states, earlier) && states[|earlier|].divm > 0
    requires SetOutcome(states[|earlier|], request, next, ok)
    ensures Run(states + [next], earlier + [request])
  {
    var longer, requests := states + [next], earlier + [request];
    forall i | 0 <= i < |requests|
      ensures RunStep(longer, requests, i)
    {
      assert i < |earlier| ==> RunStep(states, earlier, i);
    }
  }

  /** The setter, called for one request after another, makes such a run. */
  method Serve(registers: ClockRegisters, requests: seq<u32>) returns (ghost states: seq<Plld>)
    requires Programmed(registers.base, 60)
    modifies registers
    ensures Run(states, requests) && states[0] == old(registers.base) && states[|requests|] == registers.base
  {
    states := [registers.base];
    for i := 0 to |requests|
      invariant Run(states, requests[..i]) && states[0] == old(registers.base)
      invariant states[i] == registers.base && registers.base.divm > 0
    {
      var ok := registers.SetHandheldRate(requests[i]);
      RunExtends(states, requests[..i], requests[i], registers.base, ok);
      states := states + [registers.base];
      assert requests[..i + 1] == requests[..i] + [requests[i]];
    }
    assert requests[..|requests|] == requests;
  }

  /** Over every run GetRate reads the last request, normalised. A request for the highest
      rate is the last one that is ever met: from then on the panel is taken for docked. */
  lemma {:induction false} RunReadsBack(states: seq<Plld>, requests: seq<nat>)
    requires Run(states, requests)
    ensures LOWEST <= InForce(requests) <= HIGHEST
    ensures Programmed(states[|requests|], InForce(requests))
    ensures HandheldReading(states[|requests|]) == if InForce(requests) == HIGHEST then None else Some(InForce(requests))
  {
    var n := |requests|;
    if n > 0 {
      var earlier := requests[..n - 1];
      forall i | 0 <= i < n - 1
        ensures RunStep(states[..n], earlier, i)
      {
        assert RunStep(states, requests, i);
      }
      RunReadsBack(states[..n], earlier);
      assert RunStep(states, requests, n - 1);
      StepProgramsRequest(states[n - 1], InForce(earlier), requests[n - 1], states[n],
                          SetOutcome(states[n - 1], requests[n - 1], states[n], true));
      NormalFitsPanel(requests[n - 1]);
    }
    ReadsBack(states[n], InForce(requests));
  }
}
