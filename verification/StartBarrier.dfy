/** The start barrier of TinyMemBenchNX (main.c: thread_func, parallel_init, parallel_run
    and the fill and join loops around them), as a step system with n workers and any
    number of rounds. A condition variable is the set of its sleepers: waiting releases
    the mutex in the same step, a wake-up only makes the sleeper compete for the mutex
    again, and spurious wake-ups are allowed. */
module StartBarrier {

  datatype Main =
    | Init                 // p_worker_not_ready = threads; p_workers_ready = 0
    | Create(i: nat)       // pthread_create, worker i
    | LockWait             // pthread_mutex_lock in parallel_init
    | CheckReady           // while (p_worker_not_ready != 0)
    | SleepReady           // inside pthread_cond_wait(&p_ready)
    | RelockReady          // woken, wants the mutex back
    | UnlockWait           // parallel_init is about to return
    | Fill(i: nat)         // worker_data[i] = ...
    | LockRun              // parallel_run
    | SetReady             // p_workers_ready = 1
    | UnlockRun
    | Broadcast            // pthread_cond_broadcast(&p_start)
    | Join(i: nat)         // pthread_join, worker i

  datatype Worker =
    | Absent
    | WantLock
    | Enter                // p_worker_not_ready--
    | Announce             // if (!p_worker_not_ready) signal p_ready
    | Check                // while (p_workers_ready != 1)
    | Asleep               // inside pthread_cond_wait(&p_start)
    | WantRelock
    | Leave                // pthread_mutex_unlock
    | Call                 // (data_ptr->func)(...)
    | Done

  datatype Owner = Free | ByMain | ByWorker(w: nat)

  /** data[w] is the round in which main last filled the arguments of worker w, and
      calls[w] counts the calls of its function. */
  datatype State = State(round: nat, main: Main, workers: seq<Worker>, owner: Owner,
                         notReady: int, ready: bool, data: seq<nat>, calls: seq<nat>)

  ghost predicate Shaped(n: nat, s: State) { |s.workers| == |s.data| == |s.calls| == n }

  function Initial(n: nat): State {
    State(1, Init, seq(n, _ => Absent), Free, 0, false, seq(n, _ => 0), seq(n, _ => 0))
  }

  datatype Move = MainMove | WorkerMove(w: nat) | SpuriousMain | SpuriousWorker(w: nat)

  // ---- Steps ------------------------------------------------------------------------

  function WakeAll(workers: seq<Worker>): (r: seq<Worker>)
    ensures |r| == |workers|
  {
    seq(|workers|, i requires 0 <= i < |workers| => if workers[i].Asleep? then WantRelock else workers[i])
  }

  function Take(s: State, owner: Owner, main: Main): State {
    if s.owner.Free? then s.(owner := owner, main := main) else s
  }

  function MainNext(n: nat, s: State): State
    requires Shaped(n, s)
  {
    match s.main
    case Init => s.(notReady := n, ready := false, main := Create(0))
    case Create(i) =>
      if i < n then s.(workers := s.workers[i := WantLock], main := Create(i + 1)) else s.(main := LockWait)
    case LockWait => Take(s, ByMain, CheckReady)
    case CheckReady => if s.notReady != 0 then s.(owner := Free, main := SleepReady) else s.(main := UnlockWait)
    case SleepReady => s
    case RelockReady => Take(s, ByMain, CheckReady)
    case UnlockWait => s.(owner := Free, main := Fill(0))
    case Fill(i) => if i < n then s.(data := s.data[i := s.round], main := Fill(i + 1)) else s.(main := LockRun)
    case LockRun => Take(s, ByMain, SetReady)
    case SetReady => s.(ready := true, main := UnlockRun)
    case UnlockRun => s.(owner := Free, main := Broadcast)
    case Broadcast => s.(workers := WakeAll(s.workers), main := Join(0))
    case Join(i) =>
      if i < n then if s.workers[i].Done? then s.(main := Join(i + 1)) else s
      else s.(main := Init, round := s.round + 1, workers := seq(n, _ => Absent))
  }

  function Becomes(s: State, w: nat, worker: Worker, owner: Owner): State
    requires w < |s.workers|
  {
    s.(workers := s.workers[w := worker], owner := owner)
  }

  function WorkerNext(n: nat, s: State, w: nat): State
    requires Shaped(n, s) && w < n
  {
    match s.workers[w]
    case Absent => s
    case WantLock => if s.owner.Free? then Becomes(s, w, Enter, ByWorker(w)) else s
    case Enter => Becomes(s, w, Announce, s.owner).(notReady := s.notReady - 1)
    case Announce =>
      var t := Becomes(s, w, Check, s.owner);
      if s.notReady == 0 && s.main.SleepReady? then t.(main := RelockReady) else t
    case Check => if s.ready then Becomes(s, w, Leave, s.owner) else Becomes(s, w, Asleep, Free)
    case Asleep => s
    case WantRelock => if s.owner.Free? then Becomes(s, w, Check, ByWorker(w)) else s
    case Leave => Becomes(s, w, Call, Free)
    case Call => Becomes(s, w, Done, s.owner).(calls := s.calls[w := s.calls[w] + 1])
    case Done => s
  }

  function Next(n: nat, s: State, m: Move): State
    requires Shaped(n, s)
    ensures Shaped(n, Next(n, s, m))
  {
    match m
    case MainMove => MainNext(n, s)
    case WorkerMove(w) => if w < n then WorkerNext(n, s, w) else s
    case SpuriousMain => if s.main.SleepReady? then s.(main := RelockReady) else s
    case SpuriousWorker(w) => if w < n && s.workers[w].Asleep? then Becomes(s, w, WantRelock, s.owner) else s
  }

  function After(n: nat, moves: seq<Move>): (s: State)
    ensures Shaped(n, s)
  {
    if moves == [] then Initial(n) else Next(n, After(n, moves[..|moves| - 1]), moves[|moves| - 1])
  }

  // ---- Counting ---------------------------------------------------------------------

  function Sum(f: Worker -> nat, workers: seq<Worker>): nat {
    if workers == [] then 0 else Sum(f, workers[..|workers| - 1]) + f(workers[|workers| - 1])
  }

  lemma {:induction false} SumUpdate(f: Worker -> nat, workers: seq<Worker>, w: nat, worker: Worker)
    requires w < |workers|
    ensures Sum(f, workers[w := worker]) + f(workers[w]) == Sum(f, workers) + f(worker)
  {
    var last := |workers| - 1;
    if w < last {
      SumUpdate(f, workers[..last], w, worker);
      assert workers[w := worker][..last] == workers[..last][w := worker];
    } else {
      assert workers[w := worker][..last] == workers[..last];
    }
  }

  lemma {:induction false} SumConstant(f: Worker -> nat, workers: seq<Worker>, worker: Worker, c: nat)
    requires forall w :: 0 <= w < |workers| ==> workers[w] == worker
    requires f(worker) == c
    ensures Sum(f, workers) == c * |workers|
  {
    if workers != [] {
      SumConstant(f, workers[..|workers| - 1], worker, c);
      assert c * |workers| == c * (|workers| - 1) + c;
    }
  }

  lemma {:induction false} SumCompare(f: Worker -> nat, before: seq<Worker>, g: Worker -> nat, after: seq<Worker>)
    requires |before| == |after|
    requires forall w :: 0 <= w < |before| ==> g(after[w]) <= f(before[w])
    ensures Sum(g, after) <= Sum(f, before)
  {
    if before != [] {
      SumCompare(f, before[..|before| - 1], g, after[..|after| - 1]);
    }
  }

  lemma {:induction false} SumZero(f: Worker -> nat, workers: seq<Worker>, w: nat)
    requires Sum(f, workers) == 0 && w < |workers|
    ensures f(workers[w]) == 0
  {
    if w < |workers| - 1 {
      SumZero(f, workers[..|workers| - 1], w);
    }
  }

  lemma {:induction false} SumPositive(f: Worker -> nat, workers: seq<Worker>) returns (w: nat)
    requires Sum(f, workers) > 0
    ensures w < |workers| && f(workers[w]) > 0
  {
    var last := |workers| - 1;
    if f(workers[last]) > 0 {
      w := last;
    } else {
      w := SumPositive(f, workers[..last]);
    }
  }

  /** A worker that has not yet checked in. */
  function NotIn(worker: Worker): nat {
    if worker.Absent? || worker.WantLock? || worker.Enter? then 1 else 0
  }

  // ---- Invariant --------------------------------------------------------------------

  predicate MainHolds(main: Main) { main.CheckReady? || main.UnlockWait? || main.SetReady? || main.UnlockRun? }

  predicate WorkerHolds(worker: Worker) { worker.Enter? || worker.Announce? || worker.Check? || worker.Leave? }

  /** Main is past the point where every worker has checked in. */
  predicate Gathered(main: Main) {
    main.UnlockWait? || main.Fill? || main.LockRun? || Started(main) || main.SetReady?
  }

  /** Main has set p_workers_ready. */
  predicate Started(main: Main) { main.UnlockRun? || main.Broadcast? || main.Join? }

  predicate MainOk(n: nat, s: State) {
    && (s.owner.ByMain? <==> MainHolds(s.main))
    && (match s.main
        case Create(i) => i <= n
        case Fill(i) => i <= n
        case Join(i) => i <= n
        case _ => true)
    && (!s.main.Init? ==> (s.ready <==> Started(s.main)))
    && (!s.main.Init? ==> s.notReady == Sum(NotIn, s.workers))
    && (Gathered(s.main) ==> s.notReady == 0)
    && s.round > 0
  }

  predicate WorkerOk(s: State, w: nat)
    requires w < |s.workers| && w < |s.data| && w < |s.calls|
  {
    var worker := s.workers[w];
    && (s.owner == ByWorker(w) <==> WorkerHolds(worker))
    && (worker.Leave? || worker.Call? || worker.Done? ==> Started(s.main))
    && (worker.Asleep? ==> !s.main.Join?)
    && (s.main.Join? && w < s.main.i ==> worker.Done?)
    && (worker.Absent? <==> s.main.Init? || (s.main.Create? && w >= s.main.i))
    && (if s.main.Fill? then w < s.main.i ==> s.data[w] == s.round
        else s.main.LockRun? || s.main.SetReady? || Started(s.main) ==> s.data[w] == s.round)
    && s.calls[w] == (if worker.Done? then s.round else s.round - 1)
  }

  /** If main sleeps although everybody is in, the signal is still to come. */
  ghost predicate SignalPending(n: nat, s: State)
    requires Shaped(n, s)
  {
    s.main.SleepReady? && s.notReady == 0 ==> exists w :: 0 <= w < n && s.workers[w].Announce?
  }

  ghost predicate Inv(n: nat, s: State) {
    && Shaped(n, s) && MainOk(n, s) && SignalPending(n, s)
    && (s.owner.ByWorker? ==> s.owner.w < n)
    && (forall w :: 0 <= w < n ==> WorkerOk(s, w))
  }

  lemma InitialInv(n: nat)
    ensures Inv(n, Initial(n))
  {
  }

  lemma MainKeepsWorker(n: nat, s: State, w: nat)
    requires Inv(n, s) && w < n
    ensures WorkerOk(MainNext(n, s), w)
  {
    assert WorkerOk(s, w);
  }

  lemma MainKeepsCount(n: nat, s: State)
    requires Inv(n, s)
    ensures MainOk(n, MainNext(n, s)) && SignalPending(n, MainNext(n, s))
  {
    match s.main {
      case Init =>
        forall w | 0 <= w < n
          ensures s.workers[w] == Absent
        {
          assert WorkerOk(s, w);
        }
        SumConstant(NotIn, s.workers, Absent, 1);
      case Create(i) =>
        if i < n {
          assert WorkerOk(s, i);
          SumUpdate(NotIn, s.workers, i, WantLock);
        }
      case Broadcast =>
        SumCompare(NotIn, s.workers, NotIn, WakeAll(s.workers));
        SumCompare(NotIn, WakeAll(s.workers), NotIn, s.workers);
      case _ =>
    }
  }

  lemma MainKeepsInv(n: nat, s: State)
    requires Inv(n, s)
    ensures Inv(n, MainNext(n, s))
  {
    MainKeepsCount(n, s);
    forall w | 0 <= w < n
      ensures WorkerOk(MainNext(n, s), w)
    {
      MainKeepsWorker(n, s, w);
    }
  }

  /** Only one thread holds the mutex. */
  lemma WorkerKeepsOthers(n: nat, s: State, w: nat, v: nat)
    requires Inv(n, s) && w < n && v < n
    ensures WorkerOk(WorkerNext(n, s, w), v)
  {
    assert WorkerOk(s, w) && WorkerOk(s, v);
  }

  lemma WorkerKeepsCount(n: nat, s: State, w: nat)
    requires Inv(n, s) && w < n
    ensures MainOk(n, WorkerNext(n, s, w)) && SignalPending(n, WorkerNext(n, s, w))
  {
    var t := WorkerNext(n, s, w);
    assert WorkerOk(s, w);
    SumUpdate(NotIn, s.workers, w, t.workers[w]);
    if s.workers[w].Enter? {
      assert t.workers[w].Announce?;
      if Gathered(s.main) {
        SumZero(NotIn, s.workers, w);
      }
    } else if s.main.SleepReady? && s.notReady == 0 && !s.workers[w].Announce? {
      var v :| 0 <= v < n && s.workers[v].Announce?;
      assert WorkerOk(s, v);
      assert t.workers[v].Announce?;
    }
  }

  lemma WorkerKeepsInv(n: nat, s: State, w: nat)
    requires Inv(n, s) && w < n
    ensures Inv(n, WorkerNext(n, s, w))
  {
    WorkerKeepsCount(n, s, w);
    forall v | 0 <= v < n
      ensures WorkerOk(WorkerNext(n, s, w), v)
    {
      WorkerKeepsOthers(n, s, w, v);
    }
  }

  lemma SpuriousKeepsInv(n: nat, s: State, w: nat)
    requires Inv(n, s) && w < n && s.workers[w].Asleep?
    ensures Inv(n, Becomes(s, w, WantRelock, s.owner))
  {
    var t := Becomes(s, w, WantRelock, s.owner);
    SumUpdate(NotIn, s.workers, w, WantRelock);
    forall v | 0 <= v < n
      ensures WorkerOk(t, v)
    {
      assert WorkerOk(s, v);
    }
    if t.main.SleepReady? && t.notReady == 0 {
      var v :| 0 <= v < n && s.workers[v].Announce?;
      assert t.workers[v].Announce?;
    }
  }

  lemma SpuriousMainKeepsInv(n: nat, s: State)
    requires Inv(n, s) && s.main.SleepReady?
    ensures Inv(n, s.(main := RelockReady))
  {
    var t := s.(main := RelockReady);
    forall v | 0 <= v < n
      ensures WorkerOk(t, v)
    {
      assert WorkerOk(s, v);
    }
  }

  lemma {:induction false} RunKeepsInv(n: nat, moves: seq<Move>)
    ensures Inv(n, After(n, moves))
  {
    if moves == [] {
      InitialInv(n);
    } else {
      var s := After(n, moves[..|moves| - 1]);
      RunKeepsInv(n, moves[..|moves| - 1]);
      match moves[|moves| - 1] {
        case MainMove => MainKeepsInv(n, s);
        case WorkerMove(w) =>
          if w < n {
            WorkerKeepsInv(n, s, w);
          }
        case SpuriousMain =>
          if s.main.SleepReady? {
            SpuriousMainKeepsInv(n, s);
          }
        case SpuriousWorker(w) =>
          if w < n && s.workers[w].Asleep? {
            SpuriousKeepsInv(n, s, w);
          }
      }
    }
  }

  // ---- Main results -----------------------------------------------------------------

  /** No worker calls its function before main has filled that worker's data in this very
      round and has set p_workers_ready; and it calls it once per round. */
  lemma NoEarlyCall(n: nat, moves: seq<Move>, w: nat)
    requires w < n
    ensures var s := After(n, moves);
            && (s.workers[w].Call? ==> s.ready && s.data[w] == s.round && Started(s.main))
            && s.calls[w] == if s.workers[w].Done? then s.round else s.round - 1
  {
    RunKeepsInv(n, moves);
    assert WorkerOk(After(n, moves), w);
  }

  /** parallel_init returns only after all workers have checked in. */
  lemma InitWaitsForAll(n: nat, moves: seq<Move>, w: nat)
    requires w < n
    ensures var s := After(n, moves);
            s.main.Fill? ==> NotIn(s.workers[w]) == 0
  {
    RunKeepsInv(n, moves);
    var s := After(n, moves);
    if s.main.Fill? {
      SumZero(NotIn, s.workers, w);
    }
  }

  /** The mutex excludes: at most one thread is inside. */
  lemma MutualExclusion(n: nat, moves: seq<Move>, v: nat, w: nat)
    requires v < n && w < n
    ensures var s := After(n, moves);
            && (WorkerHolds(s.workers[v]) && WorkerHolds(s.workers[w]) ==> v == w)
            && (WorkerHolds(s.workers[w]) ==> !MainHolds(s.main))
  {
    RunKeepsInv(n, moves);
    assert WorkerOk(After(n, moves), v) && WorkerOk(After(n, moves), w);
  }

  lemma NobodyAnnounces(n: nat, s: State)
    requires Inv(n, s) && !s.owner.ByWorker? && s.main.SleepReady?
    ensures s.notReady > 0
  {
    forall w | 0 <= w < n
      ensures !s.workers[w].Announce?
    {
      assert WorkerOk(s, w);
    }
  }

  /** No lost wake-up: in every reachable state somebody can take a real step, without
      the help of a spurious wake-up. */
  lemma NoDeadlock(n: nat, moves: seq<Move>) returns (m: Move)
    ensures m.MainMove? || m.WorkerMove?
    ensures Next(n, After(n, moves), m) != After(n, moves)
  {
    var s := After(n, moves);
    RunKeepsInv(n, moves);
    m := MainMove;
    if s.owner.ByWorker? {
      m := WorkerMove(s.owner.w);
      assert WorkerOk(s, s.owner.w);
    } else if s.main.SleepReady? {
      NobodyAnnounces(n, s);
      var w := SumPositive(NotIn, s.workers);
      m := WorkerMove(w);
      assert WorkerOk(s, w);
    } else if s.main.Join? && s.main.i < n && !s.workers[s.main.i].Done? {
      m := WorkerMove(s.main.i);
      assert WorkerOk(s, s.main.i);
    }
  }

  // ---- Each round ends --------------------------------------------------------------

  /** Steps a worker may still take, before and after p_workers_ready is set. */
  function Left(ready: bool, worker: Worker): nat {
    match worker
    case Absent => 11
    case WantLock => 10
    case Enter => 9
    case Announce => 8
    case Check => if ready then 4 else 6
    case Asleep => 5
    case WantRelock => if ready then 5 else 7
    case Leave => 2
    case Call => 1
    case Done => 0
  }

  function LeftOf(ready: bool): Worker -> nat {
    worker => Left(ready, worker)
  }

  /** Steps main may still take; allIn says that p_worker_not_ready is zero. */
  function MainLeft(n: nat, main: Main, allIn: bool): int {
    match main
    case Init => 3 * n + 14
    case Create(i) => 3 * n + 13 - i
    case LockWait => 2 * n + 12
    case RelockReady => if allIn then 2 * n + 8 else 2 * n + 11
    case CheckReady => if allIn then 2 * n + 7 else 2 * n + 10
    case SleepReady => 2 * n + 9
    case UnlockWait => 2 * n + 6
    case Fill(i) => 2 * n + 5 - i
    case LockRun => n + 4
    case SetReady => n + 3
    case UnlockRun => n + 2
    case Broadcast => n + 1
    case Join(i) => n - i
  }

  function Budget(n: nat, s: State): int {
    MainLeft(n, s.main, s.notReady == 0) + Sum(LeftOf(s.ready), s.workers)
  }

  lemma MainKeepsLeft(n: nat, s: State, w: nat)
    requires Inv(n, s) && w < n && s.main != Join(n)
    ensures Left(MainNext(n, s).ready, MainNext(n, s).workers[w]) <= Left(s.ready, s.workers[w])
  {
    assert WorkerOk(s, w);
  }

  lemma WorkersKeepLeft(n: nat, s: State, t: State)
    requires Inv(n, s) && s.main != Join(n) && t == MainNext(n, s)
    ensures Sum(LeftOf(t.ready), t.workers) <= Sum(LeftOf(s.ready), s.workers)
  {
    forall w | 0 <= w < n
      ensures LeftOf(t.ready)(t.workers[w]) <= LeftOf(s.ready)(s.workers[w])
    {
      MainKeepsLeft(n, s, w);
    }
    SumCompare(LeftOf(s.ready), s.workers, LeftOf(t.ready), t.workers);
  }

  lemma MainAdvances(n: nat, s: State)
    requires Inv(n, s) && MainNext(n, s) != s && s.main != Join(n)
    ensures var t := MainNext(n, s);
            MainLeft(n, t.main, t.notReady == 0) < MainLeft(n, s.main, s.notReady == 0)
  {
  }

  lemma MainUsesBudget(n: nat, s: State)
    requires Inv(n, s) && MainNext(n, s) != s && s.main != Join(n)
    ensures Budget(n, MainNext(n, s)) < Budget(n, s)
  {
    MainAdvances(n, s);
    WorkersKeepLeft(n, s, MainNext(n, s));
  }

  lemma WorkerUsesBudget(n: nat, s: State, w: nat)
    requires Inv(n, s) && w < n && WorkerNext(n, s, w) != s
    ensures Budget(n, WorkerNext(n, s, w)) < Budget(n, s)
  {
    var t := WorkerNext(n, s, w);
    assert WorkerOk(s, w);
    var left := LeftOf(s.ready);
    SumUpdate(left, s.workers, w, t.workers[w]);
    assert left(t.workers[w]) < left(s.workers[w]);
    if s.workers[w].Enter? && s.notReady == 0 {
      SumZero(NotIn, s.workers, w);
    }
  }

  /** Every real step either starts the next round or uses up part of a budget that is
      never negative; so a round with finitely many spurious wake-ups ends. */
  lemma RoundsEnd(n: nat, s: State, m: Move)
    requires Inv(n, s) && (m.MainMove? || m.WorkerMove?) && Next(n, s, m) != s
    ensures 0 <= Budget(n, s)
    ensures Next(n, s, m).round == s.round + 1 || Budget(n, Next(n, s, m)) < Budget(n, s)
  {
    match m {
      case MainMove =>
        if s.main != Join(n) {
          MainUsesBudget(n, s);
        }
      case WorkerMove(w) => WorkerUsesBudget(n, s, w);
    }
  }
}
