/** The handshake between the MemTester main loop and its workers (MemTesterNX main.c),
    as a step system over the two shared arrays testJobId and testWorkerReport. Every
    load and store of a shared cell is a step of its own; loads and stores are taken to
    be sequentially consistent. */
module MemTesterLockstep {
  const READY: int := -2
  const STUCK: int := -1

  /** Main counts the jobs it has started. Each loop begins with STUCK and then goes
      through the k entries of the selected test list. */
  function JobOf(k: nat, round: nat): (job: int)
    ensures -1 <= job < k || job == STUCK
  {
    if round == 0 then STUCK else Successor(k, JobOf(k, round - 1))
  }

  /** currentJobId++, back to STUCK at the end of the list. */
  function Successor(k: nat, job: int): int { if job + 1 < k then job + 1 else STUCK }

  datatype Main =
    | SetReady(j: nat)     // testJobId[j] = -2
    | Assign(j: nat)       // testJobId[j] = the job of this round
    | Poll(j: nat)         // switch (testWorkerReport[j])
    | Clear(j: nat)        // case 1: testWorkerReport[j] = 0
    | Failed               // case -1: error screen and exit

  datatype Worker =
    | AwaitReady           // while (testJobId[div] != -2)
    | Await(job: int)      // while (testJobId[div] != currentJobId)
    | Running(job: int)    // inside a test function
    | Stopped              // a test failed

  /** log[w] records the jobs worker w has finished, each with its verdict (true for 0). */
  datatype State = State(main: Main, round: nat, jobId: seq<int>, report: seq<int>,
                         workers: seq<Worker>, log: seq<seq<(int, bool)>>)

  ghost predicate Shaped(n: nat, s: State) {
    |s.jobId| == |s.report| == |s.workers| == |s.log| == n
  }

  function Initial(n: nat): State {
    State(SetReady(0), 0, seq(n, _ => 0), seq(n, _ => 0), seq(n, _ => AwaitReady), seq(n, _ => []))
  }

  // ---- Steps ------------------------------------------------------------------------

  /** One step of main. */
  function MainNext(n: nat, k: nat, s: State): State
    requires Shaped(n, s)
  {
    match s.main
    case SetReady(j) =>
      if j < n then s.(main := SetReady(j + 1), jobId := s.jobId[j := READY]) else s.(main := Assign(0))
    case Assign(j) =>
      if j < n then s.(main := Assign(j + 1), jobId := s.jobId[j := JobOf(k, s.round)]) else s.(main := Poll(0))
    case Poll(j) =>
      if j < n then
        if s.report[j] == 0 then s
        else if s.report[j] == 1 then s.(main := Clear(j))
        else s.(main := Failed)
      else
        s.(main := if Successor(k, JobOf(k, s.round)) == STUCK then SetReady(0) else Assign(0), round := s.round + 1)
    case Clear(j) =>
      if j < n then s.(main := Poll(j + 1), report := s.report[j := 0]) else s
    case Failed => s
  }

  /** One step of worker w; ok is the verdict of the test if one ends in this step. */
  function WorkerNext(n: nat, k: nat, s: State, w: nat, ok: bool): State
    requires Shaped(n, s) && w < n
  {
    match s.workers[w]
    case AwaitReady =>
      if s.jobId[w] == READY then s.(workers := s.workers[w := Await(STUCK)]) else s
    case Await(job) =>
      if s.jobId[w] == job then s.(workers := s.workers[w := Running(job)]) else s
    case Running(job) =>
      var after := if !ok then Stopped else Await(Successor(k, job));
      s.(workers := s.workers[w := after], report := s.report[w := if ok then 1 else -1],
         log := s.log[w := s.log[w] + [(job, ok)]])
    case Stopped => s
  }

  datatype Move = MainMove | WorkerMove(w: nat, ok: bool)

  function Next(n: nat, k: nat, s: State, m: Move): State
    requires Shaped(n, s)
    ensures Shaped(n, Next(n, k, s, m))
  {
    match m
    case MainMove => MainNext(n, k, s)
    case WorkerMove(w, ok) => if w < n then WorkerNext(n, k, s, w, ok) else s
  }

  /** The state after a run, one move at a time. */
  function After(n: nat, k: nat, moves: seq<Move>): (s: State)
    ensures Shaped(n, s)
  {
    if moves == [] then Initial(n) else Next(n, k, After(n, k, moves[..|moves| - 1]), moves[|moves| - 1])
  }

  // ---- Invariant --------------------------------------------------------------------

  /** The worker has finished every round before r, and is waiting for round r. */
  predicate IdleBefore(k: nat, r: nat, worker: Worker, log: seq<(int, bool)>) {
    (worker == Await(JobOf(k, r)) || (worker == AwaitReady && r == 0)) && |log| == r
  }

  /** The worker has the job of round r but has not finished it. */
  predicate Working(k: nat, r: nat, worker: Worker, log: seq<(int, bool)>) {
    (IdleBefore(k, r, worker, log) || worker == Running(JobOf(k, r))) && |log| == r
  }

  /** The worker has passed round r. */
  predicate Passed(k: nat, r: nat, worker: Worker, log: seq<(int, bool)>) {
    worker == Await(JobOf(k, r + 1)) && |log| == r + 1
  }

  /** The worker failed the test of round r. */
  predicate FailedIn(k: nat, r: nat, worker: Worker, log: seq<(int, bool)>) {
    worker == Stopped && |log| == r + 1 && !log[r].1
  }

  /** The log is the schedule so far, all verdicts good except possibly the last. */
  ghost predicate OnSchedule(k: nat, worker: Worker, log: seq<(int, bool)>) {
    && (forall i :: 0 <= i < |log| ==> log[i].0 == JobOf(k, i))
    && (forall i :: 0 <= i < |log| ==> log[i].1 || (i == |log| - 1 && worker.Stopped?))
  }

  /** What worker w may look like when its cell holds the job of the round. */
  predicate Engaged(k: nat, r: nat, report: int, worker: Worker, log: seq<(int, bool)>) {
    || (report == 0 && Working(k, r, worker, log))
    || (report == 1 && Passed(k, r, worker, log))
    || (report == -1 && FailedIn(k, r, worker, log))
  }

  /** Cell contents before the job of round r is assigned. */
  predicate OldJob(k: nat, r: nat, jobId: int) {
    if JobOf(k, r) == STUCK then jobId == READY else jobId == JobOf(k, r - 1)
  }

  predicate BeforeReady(k: nat, r: nat, jobId: int) {
    JobOf(k, r) == STUCK && if r == 0 then jobId == 0 else jobId == JobOf(k, r - 1)
  }

  /** Worker w in relation to the phase of main. */
  predicate WorkerOk(k: nat, s: State, w: nat)
    requires w < |s.jobId| && w < |s.report| && w < |s.workers| && w < |s.log|
  {
    var job, report, worker, log := s.jobId[w], s.report[w], s.workers[w], s.log[w];
    var current := JobOf(k, s.round);
    match s.main
    case SetReady(j) =>
      report == 0 && IdleBefore(k, s.round, worker, log)
      && if w < j then current == STUCK && job == READY else BeforeReady(k, s.round, job)
    case Assign(j) =>
      if w < j then job == current && Engaged(k, s.round, report, worker, log)
      else OldJob(k, s.round, job) && report == 0 && IdleBefore(k, s.round, worker, log)
    case Poll(j) =>
      job == current && if w < j then report == 0 && Passed(k, s.round, worker, log)
                        else Engaged(k, s.round, report, worker, log)
    case Clear(j) =>
      job == current && if w < j then report == 0 && Passed(k, s.round, worker, log)
                        else if w == j then report == 1 && Passed(k, s.round, worker, log)
                        else Engaged(k, s.round, report, worker, log)
    case Failed =>
      job == current && (Engaged(k, s.round, report, worker, log) || (report == 0 && Passed(k, s.round, worker, log)))
  }

  predicate MainOk(n: nat, k: nat, s: State) {
    match s.main
    case SetReady(j) => j <= n && JobOf(k, s.round) == STUCK
    case Assign(j) => j <= n
    case Poll(j) => j <= n
    case Clear(j) => j < n
    case Failed => true
  }

  ghost predicate Inv(n: nat, k: nat, s: State) {
    && Shaped(n, s) && MainOk(n, k, s)
    && (forall w :: 0 <= w < n ==> WorkerOk(k, s, w))
    && (forall w :: 0 <= w < n ==> OnSchedule(k, s.workers[w], s.log[w]))
  }

  // ---- Every step keeps the invariant -----------------------------------------------

  lemma InitialInv(n: nat, k: nat)
    ensures Inv(n, k, Initial(n))
  {
  }

  lemma MainKeepsWorker(n: nat, k: nat, s: State, w: nat)
    requires Inv(n, k, s) && w < n
    ensures WorkerOk(k, MainNext(n, k, s), w)
  {
    assert WorkerOk(k, s, w);
  }

  lemma MainKeepsInv(n: nat, k: nat, s: State)
    requires Inv(n, k, s)
    ensures Inv(n, k, MainNext(n, k, s))
  {
    var t := MainNext(n, k, s);
    forall w | 0 <= w < n
      ensures WorkerOk(k, t, w)
    {
      MainKeepsWorker(n, k, s, w);
    }
  }

  lemma ConsecutiveJobsDiffer(k: nat, r: nat)
    requires k > 0
    ensures JobOf(k, r + 1) == Successor(k, JobOf(k, r)) != JobOf(k, r)
  {
  }

  /** What a worker's step may change, given how it stands to round r. */
  lemma EngagedStep(n: nat, k: nat, s: State, w: nat, ok: bool)
    requires k > 0 && Shaped(n, s) && w < n && s.jobId[w] == JobOf(k, s.round)
    requires Engaged(k, s.round, s.report[w], s.workers[w], s.log[w])
    ensures var t := WorkerNext(n, k, s, w, ok);
            Engaged(k, s.round, t.report[w], t.workers[w], t.log[w])
  {
    ConsecutiveJobsDiffer(k, s.round);
  }

  lemma PassedStays(n: nat, k: nat, s: State, w: nat, ok: bool)
    requires k > 0 && Shaped(n, s) && w < n && s.jobId[w] == JobOf(k, s.round)
    requires Passed(k, s.round, s.workers[w], s.log[w])
    ensures WorkerNext(n, k, s, w, ok) == s
  {
    ConsecutiveJobsDiffer(k, s.round);
  }

  lemma IdleStays(n: nat, k: nat, s: State, w: nat, ok: bool)
    requires k > 0 && Shaped(n, s) && w < n
    requires OldJob(k, s.round, s.jobId[w]) || BeforeReady(k, s.round, s.jobId[w])
    requires IdleBefore(k, s.round, s.workers[w], s.log[w])
    ensures var t := WorkerNext(n, k, s, w, ok);
            t.report[w] == s.report[w] && IdleBefore(k, s.round, t.workers[w], t.log[w])
  {
    if s.round > 0 {
      ConsecutiveJobsDiffer(k, s.round - 1);
    }
  }

  lemma WorkerKeepsItself(n: nat, k: nat, s: State, w: nat, ok: bool)
    requires k > 0 && Inv(n, k, s) && w < n
    ensures WorkerOk(k, WorkerNext(n, k, s, w, ok), w)
  {
    assert WorkerOk(k, s, w);
    var r := s.round;
    if s.jobId[w] == JobOf(k, r) && !s.main.SetReady? && Passed(k, r, s.workers[w], s.log[w]) {
      PassedStays(n, k, s, w, ok);
    } else if s.jobId[w] == JobOf(k, r) && !s.main.SetReady? && Engaged(k, r, s.report[w], s.workers[w], s.log[w]) {
      EngagedStep(n, k, s, w, ok);
    } else {
      IdleStays(n, k, s, w, ok);
    }
  }

  lemma WorkerKeepsSchedule(n: nat, k: nat, s: State, w: nat, ok: bool)
    requires Inv(n, k, s) && w < n
    ensures OnSchedule(k, WorkerNext(n, k, s, w, ok).workers[w], WorkerNext(n, k, s, w, ok).log[w])
  {
    assert WorkerOk(k, s, w) && OnSchedule(k, s.workers[w], s.log[w]);
    if s.workers[w].Running? {
      assert |s.log[w]| == s.round && s.workers[w].job == JobOf(k, s.round);
    }
  }

  lemma OthersKept(n: nat, k: nat, s: State, w: nat, ok: bool, v: nat)
    requires Shaped(n, s) && w < n && v < n && v != w && WorkerOk(k, s, v)
    ensures WorkerOk(k, WorkerNext(n, k, s, w, ok), v)
  {
  }

  lemma WorkerKeepsInv(n: nat, k: nat, s: State, w: nat, ok: bool)
    requires k > 0 && Inv(n, k, s) && w < n
    ensures Inv(n, k, WorkerNext(n, k, s, w, ok))
  {
    var t := WorkerNext(n, k, s, w, ok);
    WorkerKeepsItself(n, k, s, w, ok);
    WorkerKeepsSchedule(n, k, s, w, ok);
    forall v | 0 <= v < n
      ensures WorkerOk(k, t, v) && OnSchedule(k, t.workers[v], t.log[v])
    {
      if v != w {
        OthersKept(n, k, s, w, ok, v);
        assert OnSchedule(k, s.workers[v], s.log[v]);
      }
    }
  }

  lemma {:induction false} RunKeepsInv(n: nat, k: nat, moves: seq<Move>)
    requires k > 0
    ensures Inv(n, k, After(n, k, moves))
  {
    if moves == [] {
      InitialInv(n, k);
    } else {
      var s := After(n, k, moves[..|moves| - 1]);
      RunKeepsInv(n, k, moves[..|moves| - 1]);
      match moves[|moves| - 1] {
        case MainMove => MainKeepsInv(n, k, s);
        case WorkerMove(w, ok) =>
          if w < n {
            WorkerKeepsInv(n, k, s, w, ok);
          }
      }
    }
  }

  // ---- Main results -----------------------------------------------------------------

  /** Lockstep: a worker runs a job only while main is in the round of that job and has
      handed it out; so no two workers ever run different jobs. */
  lemma Lockstep(n: nat, k: nat, moves: seq<Move>, v: nat, w: nat)
    requires k > 0 && v < n && w < n
    ensures var s := After(n, k, moves);
            && (s.workers[w].Running? ==> s.workers[w].job == JobOf(k, s.round) == s.jobId[w] && !s.main.SetReady?)
            && (s.workers[v].Running? && s.workers[w].Running? ==> s.workers[v].job == s.workers[w].job)
  {
    RunKeepsInv(n, k, moves);
    var s := After(n, k, moves);
    assert WorkerOk(k, s, v) && WorkerOk(k, s, w);
  }

  /** Whenever main has announced "ok" for round r (it is past that round), every worker
      has run the job of round r exactly once, in its place, and the test returned 0. */
  lemma OkMeansAllPassed(n: nat, k: nat, moves: seq<Move>, w: nat, r: nat)
    requires k > 0 && w < n
    ensures var s := After(n, k, moves);
            && (forall i :: 0 <= i < |s.log[w]| ==> s.log[w][i].0 == JobOf(k, i))
            && s.round <= |s.log[w]| <= s.round + 1
            && (r < s.round ==> s.log[w][r] == (JobOf(k, r), true))
  {
    RunKeepsInv(n, k, moves);
    var s := After(n, k, moves);
    assert WorkerOk(k, s, w) && OnSchedule(k, s.workers[w], s.log[w]);
  }

  lemma MultipleAtLeast(m: nat, d: int)
    ensures d > 0 ==> m * d >= m
  {
  }

  /** A remainder is what is left below the divisor. */
  lemma RemainderIs(m: nat, q: int, rest: nat)
    requires rest < m && m * q + rest >= 0
    ensures (m * q + rest) % m == rest
  {
    var x := m * q + rest;
    var p, left := x / m, x % m;
    assert x == m * p + left;
    assert m * (p - q) == m * p - m * q && m * (q - p) == m * q - m * p;
    MultipleAtLeast(m, p - q);
    MultipleAtLeast(m, q - p);
  }

  lemma NextRemainder(r: nat, m: nat)
    requires m > 0
    ensures (r + 1) % m == if r % m + 1 == m then 0 else r % m + 1
  {
    var q, rest := r / m, r % m;
    assert r == m * q + rest;
    if rest + 1 == m {
      assert r + 1 == m * (q + 1) + 0;
      RemainderIs(m, q + 1, 0);
    } else {
      RemainderIs(m, q, rest + 1);
    }
  }

  /** The jobs handed out: a loop of k + 1 rounds goes from STUCK through the k tests. */
  lemma {:induction false} JobsGoRound(k: nat, r: nat)
    ensures JobOf(k, r) == r % (k + 1) - 1
  {
    if r > 0 {
      JobsGoRound(k, r - 1);
      NextRemainder(r - 1, k + 1);
    }
  }

  lemma RoundInLoop(loop: nat, m: nat, x: nat)
    requires x < m
    ensures (loop * m + x) % m == x && loop * m + x < (loop + 1) * m
  {
    Commutes(loop, m);
    RemainderIs(m, loop, x);
  }

  lemma Commutes(loop: nat, m: nat)
    ensures loop * m == m * loop && (loop + 1) * m == loop * m + m
  {
  }

  lemma RoundOfLoop(k: nat, loop: nat, job: int)
    requires -1 <= job < k
    ensures JobOf(k, loop * (k + 1) + job + 1) == job
    ensures loop * (k + 1) + job + 1 < (loop + 1) * (k + 1)
  {
    var r := loop * (k + 1) + job + 1;
    RoundInLoop(loop, k + 1, job + 1);
    JobsGoRound(k, r);
  }

  /** In every loop that main has completed, every worker ran the stuck-address test and each
      of the k tests exactly once, in the order of the list, and every one returned 0. */
  lemma LoopRunsEveryTest(n: nat, k: nat, moves: seq<Move>, w: nat, loop: nat, job: int)
    requires k > 0 && w < n && -1 <= job < k
    requires (loop + 1) * (k + 1) <= After(n, k, moves).round
    ensures var log := After(n, k, moves).log[w];
            && (loop + 1) * (k + 1) <= |log|
            && log[loop * (k + 1) + job + 1] == (job, true)
            && forall i :: loop * (k + 1) <= i < (loop + 1) * (k + 1) ==> (log[i].0 == job <==> i == loop * (k + 1) + job + 1)
  {
    var r := loop * (k + 1) + job + 1;
    RoundOfLoop(k, loop, job);
    OkMeansAllPassed(n, k, moves, w, r);
    var log := After(n, k, moves).log[w];
    forall i | loop * (k + 1) <= i < (loop + 1) * (k + 1)
      ensures log[i].0 == job <==> i == r
    {
      OkMeansAllPassed(n, k, moves, w, i);
      RoundOfLoop(k, loop, i - loop * (k + 1) - 1);
    }
  }

  /** Main sets READY only between two loops, and polls with the job of the round in every
      cell. */
  lemma ReadyBetweenLoops(n: nat, k: nat, moves: seq<Move>)
    requires k > 0
    ensures var s := After(n, k, moves);
            s.main.SetReady? ==> s.round % (k + 1) == 0
    ensures var s := After(n, k, moves);
            s.main.Poll? ==> forall j :: 0 <= j < n ==> s.jobId[j] == s.round % (k + 1) - 1
  {
    RunKeepsInv(n, k, moves);
    var s := After(n, k, moves);
    JobsGoRound(k, s.round);
    forall j | 0 <= j < n
      ensures s.main.Poll? ==> s.jobId[j] == s.round % (k + 1) - 1
    {
      assert WorkerOk(k, s, j);
    }
  }

  /** Main stops only because some worker's test failed. */
  lemma FailureIsReal(n: nat, k: nat, moves: seq<Move>)
    requires k > 0
    ensures var s := After(n, k, moves);
            s.main.Failed? ==> exists w, i :: 0 <= w < n && 0 <= i < |s.log[w]| && !s.log[w][i].1
    decreases |moves|
  {
    var s := After(n, k, moves);
    RunKeepsInv(n, k, moves);
    if s.main.Failed? {
      var m := |moves| - 1;
      var before := After(n, k, moves[..m]);
      RunKeepsInv(n, k, moves[..m]);
      if before.main.Failed? {
        FailureIsReal(n, k, moves[..m]);
        var w, i :| 0 <= w < n && 0 <= i < |before.log[w]| && !before.log[w][i].1;
        assert s.log[w][i] == before.log[w][i];
      } else {
        assert moves[m] == MainMove && before.main.Poll?;
        var w := before.main.j;
        assert WorkerOk(k, before, w);
        assert !s.log[w][s.round].1;
      }
    }
  }

  /** Worker w waits for a value that its cell does not hold, or has stopped. */
  predicate Rests(s: State, w: nat)
    requires w < |s.workers| && w < |s.jobId|
  {
    match s.workers[w]
    case AwaitReady => s.jobId[w] != READY
    case Await(job) => s.jobId[w] != job
    case Running(_) => false
    case Stopped => true
  }

  /** Main polls a worker that has nothing to report, and every worker rests. */
  ghost predicate Stalled(n: nat, s: State)
    requires Shaped(n, s)
  {
    s.main.Poll? && s.main.j < n && s.report[s.main.j] == 0 && forall w :: 0 <= w < n ==> Rests(s, w)
  }

  /** While main has not failed, some step changes the state exactly when main and workers
      have not stalled. */
  lemma Progress(n: nat, k: nat, s: State)
    requires k > 0 && Inv(n, k, s) && !s.main.Failed?
    ensures (exists m :: Next(n, k, s, m) != s) <==> !Stalled(n, s)
  {
    if Stalled(n, s) {
      forall m
        ensures Next(n, k, s, m) == s
      {
        if m.WorkerMove? && m.w < n {
          assert Rests(s, m.w);
        }
      }
    } else {
      MainOrWorkerMoves(n, k, s);
    }
  }

  lemma MainOrWorkerMoves(n: nat, k: nat, s: State)
    requires k > 0 && Inv(n, k, s) && !s.main.Failed? && !Stalled(n, s)
    ensures exists m :: Next(n, k, s, m) != s
  {
    var m := MainMove;
    if s.main.Poll? && s.main.j < n && s.report[s.main.j] == 0 {
      var w :| 0 <= w < n && !Rests(s, w);
      m := WorkerMove(w, true);
      RestlessMoves(n, k, s, w);
    }
    if s.main.Clear? {
      assert MainNext(n, k, s).main == Poll(s.main.j + 1);
    }
    assert Next(n, k, s, m) != s;
  }

  lemma RestlessMoves(n: nat, k: nat, s: State, w: nat)
    requires Shaped(n, s) && w < n && !Rests(s, w)
    ensures WorkerNext(n, k, s, w, true).workers[w] != s.workers[w]
  {
  }

  /** A stall means that the polled worker has missed the READY phase of the first loop;
      so once every worker has seen that phase there is no stall any more. */
  lemma StallMeansMissed(n: nat, k: nat, s: State)
    requires k > 0 && Inv(n, k, s) && Stalled(n, s)
    ensures s.round == 0 && s.workers[s.main.j] == AwaitReady && s.jobId[s.main.j] == STUCK
  {
    assert WorkerOk(k, s, s.main.j) && Rests(s, s.main.j);
  }

  /** Worker w is still waiting for READY although main has overwritten it. */
  predicate Missed(s: State, w: nat)
    requires w < |s.workers|
  {
    s.round == 0 && s.workers[w] == AwaitReady
    && match s.main
       case SetReady(_) => false
       case Assign(j) => w < j
       case Poll(j) => j <= w
       case Clear(j) => j < w
       case Failed => true
  }

  lemma MissedStays(n: nat, k: nat, s: State, m: Move, w: nat)
    requires Inv(n, k, s) && w < n && Missed(s, w)
    ensures Missed(Next(n, k, s, m), w)
  {
    assert WorkerOk(k, s, w);
  }

  /** A worker that misses READY waits for ever, and main never leaves the first round. */
  lemma {:induction false} MissedForEver(n: nat, k: nat, moves: seq<Move>, more: seq<Move>, w: nat)
    requires k > 0 && w < n && Missed(After(n, k, moves), w)
    ensures Missed(After(n, k, moves + more), w)
  {
    if more == [] {
      assert moves + more == moves;
    } else {
      var last := |more| - 1;
      MissedForEver(n, k, moves, more[..last], w);
      assert (moves + more)[..|moves + more| - 1] == moves + more[..last];
      RunKeepsInv(n, k, moves + more[..last]);
      MissedStays(n, k, After(n, k, moves + more[..last]), more[last], w);
    }
  }

  /** Every run that gets beyond the first round had all workers see READY. */
  lemma LaterRoundsHaveAll(n: nat, k: nat, moves: seq<Move>, w: nat)
    requires k > 0 && w < n && After(n, k, moves).round > 0
    ensures After(n, k, moves).workers[w] != AwaitReady
  {
    RunKeepsInv(n, k, moves);
    assert WorkerOk(k, After(n, k, moves), w);
  }

  // ---- Each round ends --------------------------------------------------------------

  /** Steps worker w can still take in this round. */
  function WorkerRank(k: nat, r: nat, worker: Worker): nat {
    match worker
    case AwaitReady => 3
    case Await(job) => if job == JobOf(k, r) then 2 else 0
    case Running(_) => 1
    case Stopped => 0
  }

  function WorkersRank(k: nat, r: nat, workers: seq<Worker>): nat {
    if workers == [] then 0
    else WorkersRank(k, r, workers[..|workers| - 1]) + WorkerRank(k, r, workers[|workers| - 1])
  }

  /** Steps main can still take in this round. */
  function MainRank(n: nat, main: Main): int {
    match main
    case SetReady(j) => 4 * n + 3 - j
    case Assign(j) => 3 * n + 2 - j
    case Poll(j) => 2 * (n - j) + 1
    case Clear(j) => 2 * (n - j)
    case Failed => 0
  }

  lemma {:induction false} RankUpdate(k: nat, r: nat, workers: seq<Worker>, w: nat, after: Worker)
    requires w < |workers|
    ensures WorkersRank(k, r, workers[w := after]) == WorkersRank(k, r, workers) - WorkerRank(k, r, workers[w]) + WorkerRank(k, r, after)
  {
    var last := |workers| - 1;
    if w < last {
      RankUpdate(k, r, workers[..last], w, after);
      assert workers[w := after][..last] == workers[..last][w := after];
    } else {
      assert workers[w := after][..last] == workers[..last];
    }
  }

  /** Every step that changes anything either starts the next round or uses up part of a
      finite budget; so with fair scheduling every round ends. */
  lemma RoundsEnd(n: nat, k: nat, s: State, m: Move)
    requires k > 0 && Inv(n, k, s) && Next(n, k, s, m) != s
    ensures var t := Next(n, k, s, m);
            || t.round == s.round + 1
            || (t.round == s.round && 0 <= MainRank(n, t.main) <= MainRank(n, s.main)
                && MainRank(n, t.main) + WorkersRank(k, t.round, t.workers) < MainRank(n, s.main) + WorkersRank(k, s.round, s.workers))
  {
    match m {
      case MainMove =>
      case WorkerMove(w, ok) =>
        assert WorkerOk(k, s, w);
        ConsecutiveJobsDiffer(k, s.round);
        RankUpdate(k, s.round, s.workers, w, Next(n, k, s, m).workers[w]);
    }
  }

  // ---- Where the assumptions are needed ---------------------------------------------

  /** Main moves from READY to STUCK without waiting: its first 2n + 1 steps, without any
      worker in between, make every worker miss READY. */
  lemma {:induction false} MainAlone(n: nat, k: nat, moves: seq<Move>, i: nat)
    requires k > 0 && |moves| == i <= 2 * n + 1 && forall x :: 0 <= x < i ==> moves[x] == MainMove
    ensures var s := After(n, k, moves);
            && s.round == 0 && (forall w :: 0 <= w < n ==> s.workers[w] == AwaitReady)
            && s.main == if i <= n then SetReady(i) else Assign(i - n - 1)
  {
    if i > 0 {
      MainAlone(n, k, moves[..i - 1], i - 1);
    }
  }

  /** So for any number of workers and tests the stall is reachable. */
  lemma MissedReadyDeadlocks(n: nat, k: nat, w: nat)
    requires k > 0 && w < n
    ensures exists moves :: Missed(After(n, k, moves), w)
  {
    var moves := seq(2 * n + 1, _ => MainMove);
    MainAlone(n, k, moves, 2 * n + 1);
    assert Missed(After(n, k, moves), w);
  }

  /** With an empty test list consecutive jobs are equal, and a worker runs the
      stuck-address job a second time within one round. */
  lemma EmptyListBreaksLockstep()
    ensures exists moves :: var s := After(1, 0, moves); s.round == 0 && |s.log[0]| == 1 && s.workers[0] == Running(STUCK)
  {
    var go := WorkerMove(0, true);
    var m1 := [MainMove];
    var m2 := m1 + [go];
    var m3 := m2 + [MainMove];
    var m4 := m3 + [MainMove];
    var m5 := m4 + [go];
    var m6 := m5 + [go];
    var m7 := m6 + [go];
    assert m1[..0] == [] && m2[..1] == m1 && m3[..2] == m2 && m4[..3] == m3 && m5[..4] == m4 && m6[..5] == m5 && m7[..6] == m6;
    assert After(1, 0, m1).jobId == [READY];
    assert After(1, 0, m2).workers == [Await(STUCK)];
    assert After(1, 0, m3).main == Assign(0);
    assert After(1, 0, m4).jobId == [STUCK];
    assert After(1, 0, m5).workers == [Running(STUCK)];
    assert After(1, 0, m6).workers == [Await(STUCK)];
    assert After(1, 0, m7).workers == [Running(STUCK)];
  }
}
