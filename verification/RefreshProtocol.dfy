/** The locking protocol of xh_core.c between callers of `xh_core_refresh`, the refresh thread and `xh_core_clear`.

    The state machine takes one step for every lock, unlock, signal, wait, join and every read or
    write of a flag, so it has every interleaving of those. There are any number of callers; as
    the library asks of its users, `xh_core_clear` starts only while no call is in flight, and no
    call starts before it has returned. */
module RefreshProtocol {

  /** Where a call of `xh_core_refresh` is; the flag tells whether the call is asynchronous. */
  datatype Caller =
    | Idle
    | InitCheck(async: bool)     // reads inited without the lock
    | InitLock(async: bool)
    | InitRecheck(async: bool)   // from here to InitUnlock it owns core_mutex
    | InitHandler(async: bool)
    | InitUnlock(async: bool)
    | OkCheck(async: bool)       // reads init_ok without the lock
    | AsyncCheck                 // reads async_inited without the lock
    | AsyncLock
    | AsyncRecheck               // from here to AsyncUnlock it owns core_mutex
    | AsyncRunning
    | AsyncCreate
    | AsyncMarkOk
    | AsyncUnlock
    | AsyncOkCheck               // reads async_init_ok without the lock
    | PostLock
    | PostDo                     // from here to PostUnlock it owns core_mutex
    | PostSignal
    | PostUnlock
    | SyncLock
    | SyncImpl                   // from here to SyncUnlock it owns refresh_mutex
    | SyncUnlock

  /** Where the refresh thread is. */
  datatype Worker =
    | Absent
    | Top                        // while(running)
    | Lock
    | Test                       // from here it owns core_mutex, except while Blocked or Woken
    | Blocked                    // in cond_wait, not signalled
    | Woken                      // in cond_wait, signalled, waiting for core_mutex
    | Decide
    | ExitUnlock
    | Unlock
    | RefreshLock
    | Impl                       // owns refresh_mutex
    | RefreshUnlock
    | Finished

  /** Where `xh_core_clear` is. */
  datatype Clear =
    | Off
    | AsyncOkRead
    | StopLock
    | Stop                       // from here to StopUnlock it owns core_mutex
    | StopSignal
    | StopUnlock
    | Join
    | ResetAsync
    | ResetInit
    | WipeLock
    | WipeRefreshLock            // owns core_mutex
    | Wipe                       // owns both
    | WipeRefreshUnlock          // owns both
    | WipeUnlock                 // owns core_mutex

  datatype Owner = Free | ByCaller(i: nat) | ByWorker | ByClear

  /** `unserved` counts the asynchronous requests accepted since the refresh thread last started a refresh,
      or since the last clear. */
  datatype State = State(
    callers: seq<Caller>, worker: Worker, clear: Clear,
    core: Owner, refresh: Owner,
    inited: bool, initOk: bool, asyncInited: bool, asyncInitOk: bool, running: bool, todo: bool,
    unserved: nat)

  /** `ok` is the answer of `sigaction` or `pthread_create` where one is called. */
  datatype Step = Start(i: nat, async: bool) | Move(i: nat, ok: bool) | Work | Spurious | StartClear | MoveClear

  predicate Init(s: State) {
    && (forall i :: 0 <= i < |s.callers| ==> s.callers[i].Idle?)
    && s == State(s.callers, Absent, Off, Free, Free, false, false, false, false, false, false, 0)
  }

  predicate Enabled(s: State, step: Step) {
    match step
    case Start(i, _) => i < |s.callers| && s.callers[i].Idle? && s.clear.Off?
    case Move(i, _) =>
      && i < |s.callers| && !s.callers[i].Idle?
      && (s.callers[i].InitLock? || (s.callers[i].AsyncLock? || s.callers[i].PostLock?) ==> s.core.Free?)
      && (s.callers[i].SyncLock? ==> s.refresh.Free?)
    case Work =>
      && !(s.worker.Absent? || s.worker.Blocked? || s.worker.Finished?)
      && ((s.worker.Lock? || s.worker.Woken?) ==> s.core.Free?)
      && (s.worker.RefreshLock? ==> s.refresh.Free?)
    case Spurious => s.worker.Blocked?
    case StartClear => s.clear.Off? && forall i :: 0 <= i < |s.callers| ==> s.callers[i].Idle?
    case MoveClear =>
      && !s.clear.Off?
      && ((s.clear.StopLock? || s.clear.WipeLock?) ==> s.core.Free?)
      && (s.clear.WipeRefreshLock? ==> s.refresh.Free?)
      && (s.clear.Join? ==> s.worker.Finished?)
  }

  /** `pthread_cond_signal`: the refresh thread is the only one that ever waits. */
  function Signalled(w: Worker): Worker {
    if w.Blocked? then Woken else w
  }

  function At(s: State, i: nat, pc: Caller): State
    requires i < |s.callers|
  {
    s.(callers := s.callers[i := pc])
  }

  function MoveCaller(s: State, i: nat, ok: bool): State
    requires Enabled(s, Move(i, ok))
  {
    match s.callers[i]
    case InitCheck(a) => At(s, i, if s.inited then OkCheck(a) else InitLock(a))
    case InitLock(a) => At(s, i, InitRecheck(a)).(core := ByCaller(i))
    case InitRecheck(a) => if s.inited then At(s, i, InitUnlock(a)) else At(s, i, InitHandler(a)).(inited := true)
    case InitHandler(a) => if ok then At(s, i, InitUnlock(a)).(initOk := true) else At(s, i, InitUnlock(a))
    case InitUnlock(a) => At(s, i, OkCheck(a)).(core := Free)
    case OkCheck(a) => At(s, i, if !s.initOk then Idle else if a then AsyncCheck else SyncLock)
    case AsyncCheck => At(s, i, if s.asyncInited then AsyncOkCheck else AsyncLock)
    case AsyncLock => At(s, i, AsyncRecheck).(core := ByCaller(i))
    case AsyncRecheck =>
      if s.asyncInited then At(s, i, AsyncUnlock) else At(s, i, AsyncRunning).(asyncInited := true)
    case AsyncRunning => At(s, i, AsyncCreate).(running := true)
    case AsyncCreate =>
      if ok then At(s, i, AsyncMarkOk).(worker := Top) else At(s, i, AsyncUnlock).(running := false)
    case AsyncMarkOk => At(s, i, AsyncUnlock).(asyncInitOk := true)
    case AsyncUnlock => At(s, i, AsyncOkCheck).(core := Free)
    case AsyncOkCheck => At(s, i, if s.asyncInitOk then PostLock else Idle)
    case PostLock => At(s, i, PostDo).(core := ByCaller(i))
    case PostDo => At(s, i, PostSignal).(todo := true, unserved := s.unserved + 1)
    case PostSignal => At(s, i, PostUnlock).(worker := Signalled(s.worker))
    case PostUnlock => At(s, i, Idle).(core := Free)
    case SyncLock => At(s, i, SyncImpl).(refresh := ByCaller(i))
    case SyncImpl => At(s, i, SyncUnlock)
    case SyncUnlock => At(s, i, Idle).(refresh := Free)
  }

  function MoveWorker(s: State): State
    requires Enabled(s, Work)
  {
    match s.worker
    case Top => s.(worker := if s.running then Lock else Finished)
    case Lock => s.(worker := Test, core := ByWorker)
    case Test => if !s.todo && s.running then s.(worker := Blocked, core := Free) else s.(worker := Decide)
    case Woken => s.(worker := Test, core := ByWorker)
    case Decide => if s.running then s.(worker := Unlock, todo := false) else s.(worker := ExitUnlock)
    case ExitUnlock => s.(worker := Finished, core := Free)
    case Unlock => s.(worker := RefreshLock, core := Free)
    case RefreshLock => s.(worker := Impl, refresh := ByWorker, unserved := 0)
    case Impl => s.(worker := RefreshUnlock)
    case RefreshUnlock => s.(worker := Top, refresh := Free)
  }

  function MoveTheClear(s: State): State
    requires Enabled(s, MoveClear)
  {
    match s.clear
    case AsyncOkRead => s.(clear := if s.asyncInitOk then StopLock else ResetAsync)
    case StopLock => s.(clear := Stop, core := ByClear)
    case Stop => s.(clear := StopSignal, running := false)
    case StopSignal => s.(clear := StopUnlock, worker := Signalled(s.worker))
    case StopUnlock => s.(clear := Join, core := Free)
    case Join => s.(clear := ResetAsync, worker := Absent, asyncInitOk := false, unserved := 0)
    case ResetAsync => s.(clear := ResetInit, asyncInited := false)
    case ResetInit => s.(clear := WipeLock, initOk := false, inited := false)
    case WipeLock => s.(clear := WipeRefreshLock, core := ByClear)
    case WipeRefreshLock => s.(clear := Wipe, refresh := ByClear)
    case Wipe => s.(clear := WipeRefreshUnlock)
    case WipeRefreshUnlock => s.(clear := WipeUnlock, refresh := Free)
    case WipeUnlock => s.(clear := Off, core := Free)
  }

  function Next(s: State, step: Step): State
    requires Enabled(s, step)
  {
    match step
    case Start(i, a) => At(s, i, InitCheck(a))
    case Move(i, ok) => MoveCaller(s, i, ok)
    case Work => MoveWorker(s)
    case Spurious => s.(worker := Woken)
    case StartClear => s.(clear := AsyncOkRead)
    case MoveClear => MoveTheClear(s)
  }

  // ----- who owns what

  predicate OwnsCore(c: Caller) {
    || c.InitRecheck? || c.InitHandler? || c.InitUnlock?
    || (c.AsyncRecheck? || c.AsyncRunning? || c.AsyncCreate? || c.AsyncMarkOk? || c.AsyncUnlock? || c.PostDo?
        || c.PostSignal? || c.PostUnlock?)
  }

  predicate OwnsRefresh(c: Caller) {
    (c.SyncImpl? || c.SyncUnlock?)
  }

  predicate WorkerOwnsCore(w: Worker) {
    (w.Test? || w.Decide? || w.ExitUnlock? || w.Unlock?)
  }

  predicate WorkerOwnsRefresh(w: Worker) {
    (w.Impl? || w.RefreshUnlock?)
  }

  predicate ClearOwnsCore(c: Clear) {
    (c.Stop? || c.StopSignal? || c.StopUnlock? || c.WipeRefreshLock? || c.Wipe? || c.WipeRefreshUnlock?
        || c.WipeUnlock?)
  }

  predicate ClearOwnsRefresh(c: Clear) {
    (c.Wipe? || c.WipeRefreshUnlock?)
  }

  /** Each mutex is owned by exactly the thread whose position says so. */
  ghost predicate Ownership(s: State) {
    && (forall i :: 0 <= i < |s.callers| ==> (OwnsCore(s.callers[i]) <==> s.core == ByCaller(i)))
    && (forall i :: 0 <= i < |s.callers| ==> (OwnsRefresh(s.callers[i]) <==> s.refresh == ByCaller(i)))
    && (WorkerOwnsCore(s.worker) <==> s.core == ByWorker)
    && (WorkerOwnsRefresh(s.worker) <==> s.refresh == ByWorker)
    && (ClearOwnsCore(s.clear) <==> s.core == ByClear)
    && (ClearOwnsRefresh(s.clear) <==> s.refresh == ByClear)
    && (s.core.ByCaller? ==> s.core.i < |s.callers|)
    && (s.refresh.ByCaller? ==> s.refresh.i < |s.callers|)
  }

  // ----- the life of the refresh thread

  /** Before the stop flag is lowered. */
  predicate NotStopping(c: Clear) {
    (c.Off? || c.AsyncOkRead? || c.StopLock? || c.Stop?)
  }

  predicate AfterJoin(c: Clear) {
    (c.ResetAsync? || c.ResetInit? || c.WipeLock? || c.WipeRefreshLock? || c.Wipe? || c.WipeRefreshUnlock?
        || c.WipeUnlock?)
  }

  ghost predicate Life(s: State) {
    && (!s.clear.Off? ==> forall i :: 0 <= i < |s.callers| ==> s.callers[i].Idle?)
    && (forall i :: 0 <= i < |s.callers| ==> CallerKnows(s, s.callers[i]))
    && (!s.worker.Absent? ==> s.asyncInited)
    && (s.asyncInitOk ==> !s.worker.Absent?)
    && (!s.worker.Absent? && !s.asyncInitOk ==>
          s.core.ByCaller? && s.core.i < |s.callers| && s.callers[s.core.i].AsyncMarkOk?)
    && (!s.worker.Absent? && NotStopping(s.clear) ==> s.running && !(s.worker.ExitUnlock? || s.worker.Finished?))
    && ((s.clear.StopLock? || s.clear.Stop? || s.clear.StopSignal? || s.clear.StopUnlock? || s.clear.Join?) ==>
          s.asyncInitOk)
    && ((s.clear.StopSignal? || s.clear.StopUnlock? || s.clear.Join?) ==> !s.running)
    && (AfterJoin(s.clear) ==> s.worker.Absent? && !s.asyncInitOk)
  }

  /** What a caller may rely on at its position. */
  ghost predicate CallerKnows(s: State, c: Caller) {
    && ((c.AsyncRunning? || c.AsyncCreate?) ==> s.asyncInited && s.worker.Absent? && !s.asyncInitOk)
    && (c.AsyncCreate? ==> s.running)
    && (c.AsyncMarkOk? ==> !s.worker.Absent?)
    && ((c.PostLock? || c.PostDo? || c.PostSignal? || c.PostUnlock?) ==> s.asyncInitOk)
  }

  // ----- no wake-up and no request is lost

  /** A thread inside its critical section is about to signal. */
  ghost predicate AboutToSignal(s: State) {
    || s.clear.StopSignal?
    || (s.core.ByCaller? && s.core.i < |s.callers| && s.callers[s.core.i].PostSignal?)
  }

  ghost predicate Wakeups(s: State) {
    && (s.worker.Blocked? && !AboutToSignal(s) ==> !s.todo && s.running)
    && (s.core.ByCaller? && s.core.i < |s.callers| && s.callers[s.core.i].PostSignal? ==> s.todo)
    && (s.worker.Decide? ==> s.todo || !s.running)
    && (s.unserved > 0 && NotStopping(s.clear) ==>
          !s.worker.Absent? && (s.todo || (s.worker.Unlock? || s.worker.RefreshLock?)))
    && (AfterJoin(s.clear) ==> s.unserved == 0)
  }

  ghost predicate Inv(s: State) {
    Ownership(s) && Life(s) && Wakeups(s)
  }

  lemma InitInv(s: State)
    requires Init(s)
    ensures Inv(s)
  {
  }

  // ----- what each step costs

  function CallerRank(c: Caller): nat {
    match c
    case Idle => 0
    case PostUnlock => 1
    case PostSignal => 2
    case PostDo => 3
    case PostLock => 4
    case AsyncOkCheck => 5
    case AsyncUnlock => 6
    case AsyncMarkOk => 7
    case AsyncCreate => 8
    case AsyncRunning => 9
    case AsyncRecheck => 10
    case AsyncLock => 11
    case AsyncCheck => 12
    case OkCheck(_) => 13
    case InitUnlock(_) => 14
    case InitHandler(_) => 15
    case InitRecheck(_) => 16
    case InitLock(_) => 17
    case InitCheck(_) => 18
    case SyncUnlock => 1
    case SyncImpl => 2
    case SyncLock => 3
  }

  function ClearRank(c: Clear): nat {
    match c
    case Off => 0
    case WipeUnlock => 1
    case WipeRefreshUnlock => 2
    case Wipe => 3
    case WipeRefreshLock => 4
    case WipeLock => 5
    case ResetInit => 6
    case ResetAsync => 7
    case Join => 8
    case StopUnlock => 9
    case StopSignal => 10
    case Stop => 11
    case StopLock => 12
    case AsyncOkRead => 13
  }

  function WorkerRank(w: Worker): nat {
    match w
    case Absent => 0
    case Blocked => 0
    case Finished => 0
    case ExitUnlock => 1
    case Decide => 2
    case Test => 3
    case Woken => 4
    case Lock => 4
    case Top => 5
    case RefreshUnlock => 6
    case Impl => 7
    case RefreshLock => 8
    case Unlock => 9
  }

  /** A caller gets closer to its return, at the cost of at most one round of the refresh thread. */
  predicate CallerAdvanced(s: State, t: State, i: nat) {
    && i < |t.callers| && i < |s.callers| && t.callers == s.callers[i := t.callers[i]] && t.clear == s.clear
    && CallerRank(t.callers[i]) < CallerRank(s.callers[i])
    && WorkerRank(t.worker) <= WorkerRank(s.worker) + 5 && (t.worker == s.worker || t.todo == s.todo)
    && (t.worker == s.worker || t.worker == Signalled(s.worker) || s.worker.Absent?)
    && t.unserved >= s.unserved
  }

  predicate WorkerAdvanced(s: State, t: State) {
    && t.callers == s.callers && t.clear == s.clear
    && WorkerRank(t.worker) + (if t.todo then 10 else 0) < WorkerRank(s.worker) + (if s.todo then 10 else 0)
    && (t.unserved == s.unserved || s.worker.RefreshLock?)
  }

  predicate ClearAdvanced(s: State, t: State) {
    && t.callers == s.callers && t.todo == s.todo
    && ClearRank(t.clear) < ClearRank(s.clear) && WorkerRank(t.worker) <= WorkerRank(s.worker) + 5
    && (t.unserved == s.unserved || s.clear.Join?)
  }

  // ----- every step keeps the invariant

  lemma StartInv(s: State, i: nat, async: bool)
    requires Inv(s) && Enabled(s, Start(i, async))
    ensures Inv(Next(s, Start(i, async)))
  {
  }

  // One lemma for each position of a call.

  lemma InitCheckInv(s: State, i: nat, ok: bool)
    requires Inv(s) && Enabled(s, Move(i, ok)) && s.callers[i].InitCheck?
    ensures Inv(MoveCaller(s, i, ok)) && CallerAdvanced(s, MoveCaller(s, i, ok), i)
  {
  }

  lemma InitLockInv(s: State, i: nat, ok: bool)
    requires Inv(s) && Enabled(s, Move(i, ok)) && s.callers[i].InitLock?
    ensures Inv(MoveCaller(s, i, ok)) && CallerAdvanced(s, MoveCaller(s, i, ok), i)
  {
  }

  lemma InitRecheckInv(s: State, i: nat, ok: bool)
    requires Inv(s) && Enabled(s, Move(i, ok)) && s.callers[i].InitRecheck?
    ensures Inv(MoveCaller(s, i, ok)) && CallerAdvanced(s, MoveCaller(s, i, ok), i)
  {
    if s.inited {
      InitDoneInv(s, i, ok);
    } else {
      InitFirstInv(s, i, ok);
    }
  }

  lemma InitDoneInv(s: State, i: nat, ok: bool)
    requires Inv(s) && Enabled(s, Move(i, ok)) && s.callers[i].InitRecheck? && s.inited
    ensures Inv(MoveCaller(s, i, ok)) && CallerAdvanced(s, MoveCaller(s, i, ok), i)
  {
  }

  lemma InitFirstInv(s: State, i: nat, ok: bool)
    requires Inv(s) && Enabled(s, Move(i, ok)) && s.callers[i].InitRecheck? && !s.inited
    ensures Inv(MoveCaller(s, i, ok)) && CallerAdvanced(s, MoveCaller(s, i, ok), i)
  {
  }

  lemma InitHandlerInv(s: State, i: nat, ok: bool)
    requires Inv(s) && Enabled(s, Move(i, ok)) && s.callers[i].InitHandler?
    ensures Inv(MoveCaller(s, i, ok)) && CallerAdvanced(s, MoveCaller(s, i, ok), i)
  {
  }

  lemma InitUnlockInv(s: State, i: nat, ok: bool)
    requires Inv(s) && Enabled(s, Move(i, ok)) && s.callers[i].InitUnlock?
    ensures Inv(MoveCaller(s, i, ok)) && CallerAdvanced(s, MoveCaller(s, i, ok), i)
  {
  }

  lemma OkCheckInv(s: State, i: nat, ok: bool)
    requires Inv(s) && Enabled(s, Move(i, ok)) && s.callers[i].OkCheck?
    ensures Inv(MoveCaller(s, i, ok)) && CallerAdvanced(s, MoveCaller(s, i, ok), i)
  {
  }

  lemma AsyncCheckInv(s: State, i: nat, ok: bool)
    requires Inv(s) && Enabled(s, Move(i, ok)) && s.callers[i].AsyncCheck?
    ensures Inv(MoveCaller(s, i, ok)) && CallerAdvanced(s, MoveCaller(s, i, ok), i)
  {
  }

  lemma AsyncLockInv(s: State, i: nat, ok: bool)
    requires Inv(s) && Enabled(s, Move(i, ok)) && s.callers[i].AsyncLock?
    ensures Inv(MoveCaller(s, i, ok)) && CallerAdvanced(s, MoveCaller(s, i, ok), i)
  {
  }

  lemma AsyncRecheckInv(s: State, i: nat, ok: bool)
    requires Inv(s) && Enabled(s, Move(i, ok)) && s.callers[i].AsyncRecheck?
    ensures Inv(MoveCaller(s, i, ok)) && CallerAdvanced(s, MoveCaller(s, i, ok), i)
  {
  }

  lemma AsyncRunningInv(s: State, i: nat, ok: bool)
    requires Inv(s) && Enabled(s, Move(i, ok)) && s.callers[i].AsyncRunning?
    ensures Inv(MoveCaller(s, i, ok)) && CallerAdvanced(s, MoveCaller(s, i, ok), i)
  {
  }

  lemma AsyncCreateInv(s: State, i: nat, ok: bool)
    requires Inv(s) && Enabled(s, Move(i, ok)) && s.callers[i].AsyncCreate?
    ensures Inv(MoveCaller(s, i, ok)) && CallerAdvanced(s, MoveCaller(s, i, ok), i)
  {
  }

  lemma AsyncMarkOkInv(s: State, i: nat, ok: bool)
    requires Inv(s) && Enabled(s, Move(i, ok)) && s.callers[i].AsyncMarkOk?
    ensures Inv(MoveCaller(s, i, ok)) && CallerAdvanced(s, MoveCaller(s, i, ok), i)
  {
  }

  lemma AsyncUnlockInv(s: State, i: nat, ok: bool)
    requires Inv(s) && Enabled(s, Move(i, ok)) && s.callers[i].AsyncUnlock?
    ensures Inv(MoveCaller(s, i, ok)) && CallerAdvanced(s, MoveCaller(s, i, ok), i)
  {
  }

  lemma AsyncOkCheckInv(s: State, i: nat, ok: bool)
    requires Inv(s) && Enabled(s, Move(i, ok)) && s.callers[i].AsyncOkCheck?
    ensures Inv(MoveCaller(s, i, ok)) && CallerAdvanced(s, MoveCaller(s, i, ok), i)
  {
    if s.asyncInitOk {
      AsyncIsOkInv(s, i, ok);
    } else {
      AsyncFailedInv(s, i, ok);
    }
  }

  lemma AsyncIsOkInv(s: State, i: nat, ok: bool)
    requires Inv(s) && Enabled(s, Move(i, ok)) && s.callers[i].AsyncOkCheck? && s.asyncInitOk
    ensures Inv(MoveCaller(s, i, ok)) && CallerAdvanced(s, MoveCaller(s, i, ok), i)
  {
  }

  lemma AsyncFailedInv(s: State, i: nat, ok: bool)
    requires Inv(s) && Enabled(s, Move(i, ok)) && s.callers[i].AsyncOkCheck? && !s.asyncInitOk
    ensures Inv(MoveCaller(s, i, ok)) && CallerAdvanced(s, MoveCaller(s, i, ok), i)
  {
  }

  lemma PostLockInv(s: State, i: nat, ok: bool)
    requires Inv(s) && Enabled(s, Move(i, ok)) && s.callers[i].PostLock?
    ensures Inv(MoveCaller(s, i, ok)) && CallerAdvanced(s, MoveCaller(s, i, ok), i)
  {
  }

  lemma PostDoInv(s: State, i: nat, ok: bool)
    requires Inv(s) && Enabled(s, Move(i, ok)) && s.callers[i].PostDo?
    ensures Inv(MoveCaller(s, i, ok)) && CallerAdvanced(s, MoveCaller(s, i, ok), i)
  {
  }

  lemma PostSignalInv(s: State, i: nat, ok: bool)
    requires Inv(s) && Enabled(s, Move(i, ok)) && s.callers[i].PostSignal?
    ensures Inv(MoveCaller(s, i, ok)) && CallerAdvanced(s, MoveCaller(s, i, ok), i)
  {
  }

  lemma PostUnlockInv(s: State, i: nat, ok: bool)
    requires Inv(s) && Enabled(s, Move(i, ok)) && s.callers[i].PostUnlock?
    ensures Inv(MoveCaller(s, i, ok)) && CallerAdvanced(s, MoveCaller(s, i, ok), i)
  {
  }

  lemma SyncLockInv(s: State, i: nat, ok: bool)
    requires Inv(s) && Enabled(s, Move(i, ok)) && s.callers[i].SyncLock?
    ensures Inv(MoveCaller(s, i, ok)) && CallerAdvanced(s, MoveCaller(s, i, ok), i)
  {
  }

  lemma SyncImplInv(s: State, i: nat, ok: bool)
    requires Inv(s) && Enabled(s, Move(i, ok)) && s.callers[i].SyncImpl?
    ensures Inv(MoveCaller(s, i, ok)) && CallerAdvanced(s, MoveCaller(s, i, ok), i)
  {
  }

  lemma SyncUnlockInv(s: State, i: nat, ok: bool)
    requires Inv(s) && Enabled(s, Move(i, ok)) && s.callers[i].SyncUnlock?
    ensures Inv(MoveCaller(s, i, ok)) && CallerAdvanced(s, MoveCaller(s, i, ok), i)
  {
  }

  lemma WorkerLockInv(s: State)
    requires Inv(s) && Enabled(s, Work)
    requires s.worker.Lock? || s.worker.Woken? || s.worker.RefreshLock?
    ensures Inv(MoveWorker(s)) && WorkerAdvanced(s, MoveWorker(s))
  {
  }

  lemma WorkerUnlockInv(s: State)
    requires Inv(s) && Enabled(s, Work)
    requires s.worker.ExitUnlock? || s.worker.Unlock? || s.worker.RefreshUnlock?
    ensures Inv(MoveWorker(s)) && WorkerAdvanced(s, MoveWorker(s))
  {
  }

  lemma WorkerTestInv(s: State)
    requires Inv(s) && Enabled(s, Work)
    requires s.worker.Top? || s.worker.Test? || s.worker.Decide? || s.worker.Impl?
    ensures Inv(MoveWorker(s)) && WorkerAdvanced(s, MoveWorker(s))
  {
  }

  lemma ClearLockInv(s: State)
    requires Inv(s) && Enabled(s, MoveClear)
    requires s.clear.StopLock? || s.clear.WipeLock? || s.clear.WipeRefreshLock?
    ensures Inv(MoveTheClear(s)) && ClearAdvanced(s, MoveTheClear(s))
  {
  }

  lemma ClearUnlockInv(s: State)
    requires Inv(s) && Enabled(s, MoveClear)
    requires s.clear.StopUnlock? || s.clear.WipeRefreshUnlock? || s.clear.WipeUnlock?
    ensures Inv(MoveTheClear(s)) && ClearAdvanced(s, MoveTheClear(s))
  {
  }

  lemma ClearStopInv(s: State)
    requires Inv(s) && Enabled(s, MoveClear)
    requires s.clear.AsyncOkRead? || s.clear.Stop? || s.clear.StopSignal?
    ensures Inv(MoveTheClear(s)) && ClearAdvanced(s, MoveTheClear(s))
  {
  }

  lemma ClearResetInv(s: State)
    requires Inv(s) && Enabled(s, MoveClear)
    requires s.clear.Join? || s.clear.ResetAsync? || s.clear.ResetInit? || s.clear.Wipe?
    ensures Inv(MoveTheClear(s)) && ClearAdvanced(s, MoveTheClear(s))
  {
  }

  lemma MoveInv(s: State, i: nat, ok: bool)
    requires Inv(s) && Enabled(s, Move(i, ok))
    ensures Inv(MoveCaller(s, i, ok)) && CallerAdvanced(s, MoveCaller(s, i, ok), i)
  {
    match s.callers[i]
    case InitCheck(_) => InitCheckInv(s, i, ok);
    case InitLock(_) => InitLockInv(s, i, ok);
    case InitRecheck(_) => InitRecheckInv(s, i, ok);
    case InitHandler(_) => InitHandlerInv(s, i, ok);
    case InitUnlock(_) => InitUnlockInv(s, i, ok);
    case OkCheck(_) => OkCheckInv(s, i, ok);
    case AsyncCheck => AsyncCheckInv(s, i, ok);
    case AsyncLock => AsyncLockInv(s, i, ok);
    case AsyncRecheck => AsyncRecheckInv(s, i, ok);
    case AsyncRunning => AsyncRunningInv(s, i, ok);
    case AsyncCreate => AsyncCreateInv(s, i, ok);
    case AsyncMarkOk => AsyncMarkOkInv(s, i, ok);
    case AsyncUnlock => AsyncUnlockInv(s, i, ok);
    case AsyncOkCheck => AsyncOkCheckInv(s, i, ok);
    case PostLock => PostLockInv(s, i, ok);
    case PostDo => PostDoInv(s, i, ok);
    case PostSignal => PostSignalInv(s, i, ok);
    case PostUnlock => PostUnlockInv(s, i, ok);
    case SyncLock => SyncLockInv(s, i, ok);
    case SyncImpl => SyncImplInv(s, i, ok);
    case SyncUnlock => SyncUnlockInv(s, i, ok);
  }

  lemma WorkInv(s: State)
    requires Inv(s) && Enabled(s, Work)
    ensures Inv(MoveWorker(s)) && WorkerAdvanced(s, MoveWorker(s))
  {
    if s.worker.Lock? || s.worker.Woken? || s.worker.RefreshLock? {
      WorkerLockInv(s);
    } else if s.worker.ExitUnlock? || s.worker.Unlock? || s.worker.RefreshUnlock? {
      WorkerUnlockInv(s);
    } else {
      WorkerTestInv(s);
    }
  }

  lemma ClearInv(s: State)
    requires Inv(s) && Enabled(s, MoveClear)
    ensures Inv(MoveTheClear(s)) && ClearAdvanced(s, MoveTheClear(s))
  {
    if s.clear.StopLock? || s.clear.WipeLock? || s.clear.WipeRefreshLock? {
      ClearLockInv(s);
    } else if s.clear.StopUnlock? || s.clear.WipeRefreshUnlock? || s.clear.WipeUnlock? {
      ClearUnlockInv(s);
    } else if s.clear.AsyncOkRead? || s.clear.Stop? || s.clear.StopSignal? {
      ClearStopInv(s);
    } else {
      ClearResetInv(s);
    }
  }

  lemma NextInv(s: State, step: Step)
    requires Inv(s) && Enabled(s, step)
    ensures Inv(Next(s, step))
  {
    match step
    case Start(i, a) => StartInv(s, i, a);
    case Move(i, ok) => MoveInv(s, i, ok);
    case Work => WorkInv(s);
    case Spurious =>
    case StartClear =>
    case MoveClear => ClearInv(s);
  }

  // ----- safety over whole runs

  /** `trace` is what the steps make of the state before them. */
  ghost predicate Follows(trace: seq<State>, steps: seq<Step>) {
    && |trace| == |steps| + 1
    && forall k {:trigger steps[k]} :: 0 <= k < |steps| ==>
         Enabled(trace[k], steps[k]) && trace[k + 1] == Next(trace[k], steps[k])
  }

  lemma {:induction false} FollowsInv(trace: seq<State>, steps: seq<Step>, k: nat)
    requires Follows(trace, steps) && Inv(trace[0]) && k < |trace|
    ensures Inv(trace[k])
  {
    if k != 0 {
      FollowsInv(trace, steps, k - 1);
      assert Enabled(trace[k - 1], steps[k - 1]);
      NextInv(trace[k - 1], steps[k - 1]);
    }
  }

  /** The refresh itself is never run by two threads at a time, nor while the index is being wiped. */
  ghost predicate OneRefreshAtATime(s: State) {
    && (forall i, j :: 0 <= i < j < |s.callers| ==> !(s.callers[i].SyncImpl? && s.callers[j].SyncImpl?))
    && (forall i :: 0 <= i < |s.callers| && s.callers[i].SyncImpl? ==> !s.worker.Impl? && !s.clear.Wipe?)
    && !(s.worker.Impl? && s.clear.Wipe?)
  }

  /** Whoever asks for core_mutex does not hold refresh_mutex. */
  ghost predicate LockOrder(s: State) {
    && (forall i :: 0 <= i < |s.callers| ==>
          (s.callers[i].InitLock? || s.callers[i].AsyncLock? || s.callers[i].PostLock? ==> s.refresh != ByCaller(i)))
    && (s.worker.Lock? || s.worker.Woken? ==> s.refresh != ByWorker)
    && (s.clear.StopLock? || s.clear.WipeLock? ==> s.refresh != ByClear)
  }

  /** While the refresh thread sleeps there is nothing to do and nobody wants it gone, except exactly while another
      thread is between changing that and its signal. */
  ghost predicate SleepsOnlyWhenIdle(s: State) {
    s.worker.Blocked? ==> (!s.todo && s.running <==> !AboutToSignal(s))
  }

  lemma SafetyOverRuns(trace: seq<State>, steps: seq<Step>, k: nat)
    requires Follows(trace, steps) && Init(trace[0]) && k < |trace|
    ensures OneRefreshAtATime(trace[k]) && LockOrder(trace[k]) && SleepsOnlyWhenIdle(trace[k])
  {
    InitInv(trace[0]);
    FollowsInv(trace, steps, k);
    InvIsSafe(trace[k]);
  }

  lemma InvIsSafe(s: State)
    requires Inv(s)
    ensures OneRefreshAtATime(s) && LockOrder(s) && SleepsOnlyWhenIdle(s)
  {
    forall i, j | 0 <= i < j < |s.callers| ensures !(s.callers[i].SyncImpl? && s.callers[j].SyncImpl?) {
      assert OwnsRefresh(s.callers[i]) <==> s.refresh == ByCaller(i);
      assert OwnsRefresh(s.callers[j]) <==> s.refresh == ByCaller(j);
    }
  }

  /** A run, and the last state of it. */
  ghost predicate Reaches(trace: seq<State>, steps: seq<Step>, s: State) {
    Follows(trace, steps) && Init(trace[0]) && trace[|steps|] == s
  }

  lemma OneStepOn(trace: seq<State>, steps: seq<Step>, s: State, step: Step)
    returns (trace': seq<State>, steps': seq<Step>)
    requires Reaches(trace, steps, s) && Enabled(s, step)
    ensures Reaches(trace', steps', Next(s, step))
  {
    trace', steps' := trace + [Next(s, step)], steps + [step];
    forall k {:trigger steps'[k]} | 0 <= k < |steps'|
      ensures Enabled(trace'[k], steps'[k]) && trace'[k + 1] == Next(trace'[k], steps'[k])
    {
      assert k < |steps| ==> steps'[k] == steps[k] && Enabled(trace[k], steps[k]);
    }
  }

  /** One asynchronous call, at `pc`; its initialisation has got as far as the flags say. */
  ghost function Single(pc: Caller, worker: Worker, core: Owner, inited: bool, async: bool, todo: bool): State {
    State([pc], worker, Off, core, Free, inited, inited, async, async, async, todo, if todo then 1 else 0)
  }

  lemma ReachOkCheck() returns (trace: seq<State>, steps: seq<Step>)
    ensures Reaches(trace, steps, Single(OkCheck(true), Absent, Free, true, false, false))
  {
    var s := Single(Idle, Absent, Free, false, false, false);
    trace, steps := [s], [];
    trace, steps := OneStepOn(trace, steps, s, Start(0, true));
    s := Single(InitCheck(true), Absent, Free, false, false, false);
    trace, steps := OneStepOn(trace, steps, s, Move(0, true));
    s := Single(InitLock(true), Absent, Free, false, false, false);
    trace, steps := OneStepOn(trace, steps, s, Move(0, true));
    s := Single(InitRecheck(true), Absent, ByCaller(0), false, false, false);
    trace, steps := OneStepOn(trace, steps, s, Move(0, true));
    s := s.(callers := [InitHandler(true)], inited := true);
    trace, steps := OneStepOn(trace, steps, s, Move(0, true));
    s := Single(InitUnlock(true), Absent, ByCaller(0), true, false, false);
    trace, steps := OneStepOn(trace, steps, s, Move(0, true));
  }

  lemma ReachAsyncOkCheck() returns (trace: seq<State>, steps: seq<Step>)
    ensures Reaches(trace, steps, Single(AsyncOkCheck, Top, Free, true, true, false))
  {
    trace, steps := ReachOkCheck();
    var s := Single(OkCheck(true), Absent, Free, true, false, false);
    trace, steps := OneStepOn(trace, steps, s, Move(0, true));
    s := Single(AsyncCheck, Absent, Free, true, false, false);
    trace, steps := OneStepOn(trace, steps, s, Move(0, true));
    s := Single(AsyncLock, Absent, Free, true, false, false);
    trace, steps := OneStepOn(trace, steps, s, Move(0, true));
    s := Single(AsyncRecheck, Absent, ByCaller(0), true, false, false);
    trace, steps := OneStepOn(trace, steps, s, Move(0, true));
    s := s.(callers := [AsyncRunning], asyncInited := true);
    trace, steps := OneStepOn(trace, steps, s, Move(0, true));
    s := s.(callers := [AsyncCreate], running := true);
    trace, steps := OneStepOn(trace, steps, s, Move(0, true));
    s := s.(callers := [AsyncMarkOk], worker := Top);
    trace, steps := OneStepOn(trace, steps, s, Move(0, true));
    s := Single(AsyncUnlock, Top, ByCaller(0), true, true, false);
    trace, steps := OneStepOn(trace, steps, s, Move(0, true));
  }

  /** The exception is real: there is a run into a state where the refresh thread sleeps with something to do. */
  lemma SleepsWithSomethingToDo() returns (trace: seq<State>, steps: seq<Step>)
    ensures Follows(trace, steps) && Init(trace[0])
    ensures trace[|steps|].worker.Blocked? && trace[|steps|].todo
  {
    trace, steps := ReachAsyncOkCheck();
    var s := Single(AsyncOkCheck, Top, Free, true, true, false);
    trace, steps := OneStepOn(trace, steps, s, Work);
    s := Single(AsyncOkCheck, Lock, Free, true, true, false);
    trace, steps := OneStepOn(trace, steps, s, Work);
    s := Single(AsyncOkCheck, Test, ByWorker, true, true, false);
    trace, steps := OneStepOn(trace, steps, s, Work);
    s := Single(AsyncOkCheck, Blocked, Free, true, true, false);
    trace, steps := OneStepOn(trace, steps, s, Move(0, true));
    s := Single(PostLock, Blocked, Free, true, true, false);
    trace, steps := OneStepOn(trace, steps, s, Move(0, true));
    s := Single(PostDo, Blocked, ByCaller(0), true, true, false);
    trace, steps := OneStepOn(trace, steps, s, Move(0, true));
  }

  // ----- every accepted request is served

  /** Steps of calls and threads that are already under way. */
  predicate UnderWay(step: Step) {
    step.Move? || step.Work? || step.MoveClear?
  }

  /** Nothing is under way: no call, no clear, and the refresh thread sleeps or does not exist. */
  ghost predicate Quiet(s: State) {
    && (forall i :: 0 <= i < |s.callers| ==> s.callers[i].Idle?)
    && s.clear.Off? && (s.worker.Absent? || s.worker.Blocked?)
  }

  function TotalRank(callers: seq<Caller>): nat {
    if callers == [] then 0 else CallerRank(callers[0]) + TotalRank(callers[1..])
  }

  lemma {:induction false} TotalRankUpdate(callers: seq<Caller>, i: nat, c: Caller)
    requires i < |callers|
    ensures TotalRank(callers[i := c]) == TotalRank(callers) - CallerRank(callers[i]) + CallerRank(c)
  {
    if i == 0 {
      assert callers[0 := c][1..] == callers[1..];
    } else {
      TotalRankUpdate(callers[1..], i - 1, c);
      assert callers[i := c][1..] == callers[1..][i - 1 := c];
    }
  }

  /** An upper bound for the steps still to come if no further call starts. */
  function Measure(s: State): nat {
    20 * TotalRank(s.callers) + 20 * ClearRank(s.clear) + WorkerRank(s.worker) + (if s.todo then 10 else 0)
  }

  lemma StepsRunOut(s: State, step: Step)
    requires Inv(s) && Enabled(s, step) && UnderWay(step)
    ensures Measure(Next(s, step)) < Measure(s)
  {
    match step
    case Move(i, ok) =>
      MoveInv(s, i, ok);
      TotalRankUpdate(s.callers, i, MoveCaller(s, i, ok).callers[i]);
    case Work => WorkInv(s);
    case MoveClear => ClearInv(s);
  }

  /** The refresh thread starts to run `xh_core_refresh_impl`. */
  predicate StartsRefresh(s: State, t: State) {
    !s.worker.Impl? && t.worker.Impl?
  }

  /** The refresh thread has ended, and a clear has waited for that. */
  predicate Joins(s: State, t: State) {
    s.worker.Finished? && t.worker.Absent?
  }

  predicate Serves(s: State, t: State) {
    StartsRefresh(s, t) || Joins(s, t)
  }

  /** No other step makes requests disappear. */
  lemma OnlyServingClears(s: State, step: Step)
    requires Inv(s) && Enabled(s, step) && s.unserved > 0 && Next(s, step).unserved == 0
    ensures Serves(s, Next(s, step))
  {
    match step
    case Start(_, _) =>
    case Move(i, ok) => MoveInv(s, i, ok);
    case Work => WorkInv(s);
    case Spurious =>
    case StartClear =>
    case MoveClear => ClearInv(s);
  }

  /** No deadlock: unless all is quiet, some thread can take its next step. */
  lemma NeverStuck(s: State) returns (step: Step)
    requires Inv(s) && !Quiet(s)
    ensures UnderWay(step) && Enabled(s, step)
  {
    if s.core.ByCaller? {
      assert OwnsCore(s.callers[s.core.i]);
      step := Move(s.core.i, true);
    } else if s.core.ByClear? {
      step := MoveClear;
    } else if s.core.ByWorker? || s.refresh.ByWorker? {
      step := Work;
    } else if s.refresh.ByCaller? {
      assert OwnsRefresh(s.callers[s.refresh.i]);
      step := Move(s.refresh.i, true);
    } else if i :| 0 <= i < |s.callers| && !s.callers[i].Idle? {
      step := Move(i, true);
    } else if Enabled(s, MoveClear) {
      step := MoveClear;
    } else {
      step := Work;
    }
  }

  lemma QuietIsServed(s: State)
    requires Inv(s) && Quiet(s)
    ensures s.unserved == 0
  {
  }

  /** How many steps of its own the refresh thread needs at most to start a refresh, or to end. */
  function Distance(w: Worker): nat {
    match w
    case Absent => 0
    case Finished => 0
    case RefreshLock => 1
    case ExitUnlock => 1
    case Unlock => 2
    case Decide => 3
    case Test => 4
    case Lock => 5
    case Woken => 5
    case Blocked => 5
    case Top => 6
    case RefreshUnlock => 7
    case Impl => 8
  }

  /** How many steps a clear needs at most to join the refresh thread, its start included. */
  function ToJoin(c: Clear): nat {
    match c
    case Off => 6
    case AsyncOkRead => 5
    case StopLock => 4
    case Stop => 3
    case StopSignal => 2
    case StopUnlock => 1
    case _ => 0
  }

  predicate ByRefreshThread(step: Step) { step.Work? }

  predicate ByTheClear(step: Step) { step.StartClear? || step.MoveClear? }

  /** While a request waits, any step that does not serve it leaves the refresh thread and a clear as near to serving
      it as they were; their own steps bring them nearer. */
  lemma NearerWithEachStep(s: State, step: Step)
    requires Inv(s) && Enabled(s, step) && s.unserved > 0 && !Serves(s, Next(s, step))
    ensures var t := Next(s, step);
      && t.unserved > 0
      && Distance(t.worker) + (if ByRefreshThread(step) then 1 else 0) <= Distance(s.worker)
      && ToJoin(t.clear) + (if ByTheClear(step) then 1 else 0) <= ToJoin(s.clear)
  {
    match step
    case Start(_, _) =>
    case Move(i, ok) => WorkerUnderMove(s, i, ok);
    case Work => NearerWithWork(s);
    case Spurious =>
    case StartClear =>
    case MoveClear => NearerWithClear(s);
  }

  /** A call does not move the refresh thread, but for waking or creating it. */
  lemma WorkerUnderMove(s: State, i: nat, ok: bool)
    requires Inv(s) && Enabled(s, Move(i, ok)) && s.unserved > 0
    ensures var t := MoveCaller(s, i, ok);
      t.unserved > 0 && t.clear == s.clear && Distance(t.worker) == Distance(s.worker)
  {
    MoveInv(s, i, ok);
  }

  lemma NearerWithWork(s: State)
    requires Inv(s) && Enabled(s, Work) && s.unserved > 0 && !s.worker.RefreshLock?
    ensures var t := MoveWorker(s);
      t.unserved == s.unserved && t.clear == s.clear && Distance(t.worker) < Distance(s.worker)
  {
    if s.worker.Top? || s.worker.Lock? || s.worker.Woken? || s.worker.Test? || s.worker.Decide? {
      NearerToUnlock(s);
    } else {
      NearerToLock(s);
    }
  }

  lemma NearerToUnlock(s: State)
    requires Inv(s) && Enabled(s, Work) && s.unserved > 0
    requires s.worker.Top? || s.worker.Lock? || s.worker.Woken? || s.worker.Test? || s.worker.Decide?
    ensures var t := MoveWorker(s);
      t.unserved == s.unserved && t.clear == s.clear && Distance(t.worker) < Distance(s.worker)
  {
  }

  lemma NearerToLock(s: State)
    requires Enabled(s, Work)
    requires s.worker.ExitUnlock? || s.worker.Unlock? || s.worker.Impl? || s.worker.RefreshUnlock?
    ensures var t := MoveWorker(s);
      t.unserved == s.unserved && t.clear == s.clear && Distance(t.worker) < Distance(s.worker)
  {
  }

  lemma NearerWithClear(s: State)
    requires Inv(s) && Enabled(s, MoveClear) && s.unserved > 0 && !s.clear.Join?
    ensures var t := MoveTheClear(s);
      t.unserved == s.unserved && Distance(t.worker) == Distance(s.worker) && ToJoin(t.clear) < ToJoin(s.clear)
  {
  }

  /** How many of the steps are of this kind. */
  ghost function Count(steps: seq<Step>, kind: Step -> bool): nat {
    if steps == [] then 0 else Count(steps[..|steps| - 1], kind) + (if kind(steps[|steps| - 1]) then 1 else 0)
  }

  /** Some step of the run starts a refresh, or joins the refresh thread for a clear. */
  ghost predicate Served(trace: seq<State>, steps: seq<Step>)
    requires Follows(trace, steps)
  {
    exists k :: 0 <= k < |steps| && Serves(trace[k], trace[k + 1])
  }

  /** Whatever the interleaving, with further calls, clears and spurious wake-ups in between: from a state in which an
      accepted request waits, a refresh is started or the refresh thread joined before the refresh thread has taken
      nine steps, and before clears have taken seven. */
  lemma {:induction false} RequestsAreServed(trace: seq<State>, steps: seq<Step>)
    requires Follows(trace, steps) && Inv(trace[0]) && trace[0].unserved > 0
    ensures Served(trace, steps) || (
      && trace[|steps|].unserved > 0
      && Count(steps, ByRefreshThread) + Distance(trace[|steps|].worker) <= Distance(trace[0].worker) <= 8
      && Count(steps, ByTheClear) + ToJoin(trace[|steps|].clear) <= ToJoin(trace[0].clear) <= 6)
    decreases |steps|
  {
    if steps != [] {
      var n := |steps| - 1;
      ServedBefore(trace, steps, n);
      RequestsAreServed(trace[..n + 1], steps[..n]);
      if !Served(trace, steps) {
        NearerAt(trace, steps, n);
      }
    }
  }

  /** What is served in a part of a run is served in the run. */
  lemma ServedBefore(trace: seq<State>, steps: seq<Step>, n: nat)
    requires Follows(trace, steps) && n <= |steps|
    ensures Follows(trace[..n + 1], steps[..n])
    ensures Served(trace[..n + 1], steps[..n]) ==> Served(trace, steps)
  {
    var t, ss := trace[..n + 1], steps[..n];
    assert forall k {:trigger ss[k]} :: 0 <= k < n ==>
      ss[k] == steps[k] && t[k] == trace[k] && t[k + 1] == trace[k + 1];
    if Served(t, ss) {
      var k :| 0 <= k < |ss| && Serves(t[k], t[k + 1]);
      assert Serves(trace[k], trace[k + 1]);
    }
  }

  lemma NearerAt(trace: seq<State>, steps: seq<Step>, n: nat)
    requires Follows(trace, steps) && Inv(trace[0]) && n < |steps| && trace[n].unserved > 0 && !Served(trace, steps)
    ensures var s, t, step := trace[n], trace[n + 1], steps[n];
      && t.unserved > 0
      && Distance(t.worker) + (if ByRefreshThread(step) then 1 else 0) <= Distance(s.worker)
      && ToJoin(t.clear) + (if ByTheClear(step) then 1 else 0) <= ToJoin(s.clear)
  {
    FollowsInv(trace, steps, n);
    assert Enabled(trace[n], steps[n]) && trace[n + 1] == Next(trace[n], steps[n]);
    assert !Serves(trace[n], trace[n + 1]);
    NearerWithEachStep(trace[n], steps[n]);
  }

  /** The refresh thread does not wait in vain: where it cannot take its next step, the thread that owns the mutex it
      waits for can, or is about to signal, or a clear is about to join it. */
  lemma WaitsForARunner(s: State) returns (step: Step)
    requires Inv(s) && s.unserved > 0 && !Enabled(s, Work)
    ensures Enabled(s, step) && (step.Move? || step.MoveClear?)
    ensures step.Move? ==> (s.worker.RefreshLock? && s.refresh == ByCaller(step.i)) || s.core == ByCaller(step.i)
    ensures step.MoveClear? ==> s.core == ByClear || s.refresh == ByClear || s.worker.Finished?
  {
    if s.worker.RefreshLock? {
      if s.refresh.ByCaller? {
        assert OwnsRefresh(s.callers[s.refresh.i]);
        step := Move(s.refresh.i, true);
      } else {
        step := MoveClear;
      }
    } else if s.core.ByCaller? {
      assert OwnsCore(s.callers[s.core.i]);
      step := Move(s.core.i, true);
    } else {
      step := MoveClear;
    }
  }

  /** If no further call starts, the calls under way finish within `Measure` steps, and when no step is left every
      accepted request has been served. */
  lemma {:induction false} CallsFinish(trace: seq<State>, steps: seq<Step>)
    requires Follows(trace, steps) && Inv(trace[0]) && forall k :: 0 <= k < |steps| ==> UnderWay(steps[k])
    ensures |steps| + Measure(trace[|steps|]) <= Measure(trace[0])
    ensures (forall step :: UnderWay(step) ==> !Enabled(trace[|steps|], step)) ==>
              Quiet(trace[|steps|]) && trace[|steps|].unserved == 0
    decreases |steps|
  {
    if steps == [] {
      if !Quiet(trace[0]) {
        var step := NeverStuck(trace[0]);
      } else {
        QuietIsServed(trace[0]);
      }
    } else {
      assert Enabled(trace[0], steps[0]);
      NextInv(trace[0], steps[0]);
      StepsRunOut(trace[0], steps[0]);
      forall k | 0 <= k < |steps[1..]|
        ensures Enabled(trace[1..][k], steps[1..][k]) && trace[1..][k + 1] == Next(trace[1..][k], steps[1..][k])
      {
        assert steps[1..][k] == steps[k + 1];
      }
      CallsFinish(trace[1..], steps[1..]);
    }
  }

  /** A count of zero does mean that: between the acceptance of a request and a later state without unserved
      requests, the refresh thread started a refresh or a clear joined it. */
  lemma {:induction false} ServedByRefreshOrClear(trace: seq<State>, steps: seq<Step>, k: nat)
    requires Follows(trace, steps) && Inv(trace[0]) && k < |steps|
    requires steps[k].Move? && trace[k].callers[steps[k].i].PostDo? && trace[|steps|].unserved == 0
    ensures exists j :: k < j < |steps| && Serves(trace[j], trace[j + 1])
  {
    var j := k + 1;
    assert Enabled(trace[k], steps[k]) && trace[j].unserved > 0;
    while trace[j + 1].unserved > 0
      invariant k < j < |steps| && trace[j].unserved > 0
      decreases |steps| - j
    {
      j := j + 1;
    }
    assert Enabled(trace[j], steps[j]);
    FollowsInv(trace, steps, j);
    OnlyServingClears(trace[j], steps[j]);
  }

  // ----- every call does its work

  /** Positions of a synchronous or an asynchronous call. */
  predicate OnItsWay(c: Caller, async: bool) {
    match c
    case Idle => false
    case InitCheck(a) => a == async
    case InitLock(a) => a == async
    case InitRecheck(a) => a == async
    case InitHandler(a) => a == async
    case InitUnlock(a) => a == async
    case OkCheck(a) => a == async
    case SyncLock => !async
    case SyncImpl => !async
    case SyncUnlock => !async
    case _ => async
  }

  /** The call accepts its request: it is counted, and the refresh thread has something to do. */
  predicate AcceptsRequest(s: State, t: State, i: nat) {
    i < |s.callers| && s.callers[i].PostDo? && t.unserved == s.unserved + 1 && t.todo
  }

  /** A call that gives up, because the initialisation has failed or is still under way. */
  predicate GivesUp(s: State, i: nat) {
    i < |s.callers| && ((s.callers[i].OkCheck? && !s.initOk) || (s.callers[i].AsyncOkCheck? && !s.asyncInitOk))
  }

  /** What one step does to call `i`. */
  predicate CallGoesOn(s: State, t: State, i: nat, async: bool) {
    && i < |s.callers| && i < |t.callers|
    && (t.callers[i].Idle? || OnItsWay(t.callers[i], async))
    && (t.callers[i].Idle? ==> s.callers[i].SyncUnlock? || s.callers[i].PostUnlock? || GivesUp(s, i))
    && (t.callers[i].SyncUnlock? ==> s.callers[i].SyncUnlock? || s.callers[i].SyncImpl?)
    && (t.callers[i].PostUnlock? ==> s.callers[i].PostUnlock? || s.callers[i].PostSignal?)
    && (t.callers[i].PostSignal? ==> s.callers[i].PostSignal? || AcceptsRequest(s, t, i))
  }

  lemma OtherSteps(s: State, step: Step, i: nat)
    requires Inv(s) && Enabled(s, step) && i < |s.callers| && !s.callers[i].Idle? && !(step.Move? && step.i == i)
    ensures i < |Next(s, step).callers| && Next(s, step).callers[i] == s.callers[i]
  {
    match step
    case Start(_, _) =>
    case Move(k, ok) => MoveInv(s, k, ok);
    case Work => WorkInv(s);
    case Spurious =>
    case StartClear =>
    case MoveClear => ClearInv(s);
  }

  lemma FirstInitMoves(s: State, i: nat, ok: bool, async: bool)
    requires Enabled(s, Move(i, ok)) && OnItsWay(s.callers[i], async)
    requires s.callers[i].InitCheck? || s.callers[i].InitLock? || s.callers[i].InitRecheck?
    ensures CallGoesOn(s, MoveCaller(s, i, ok), i, async)
  {
  }

  lemma LastInitMoves(s: State, i: nat, ok: bool, async: bool)
    requires Enabled(s, Move(i, ok)) && OnItsWay(s.callers[i], async)
    requires s.callers[i].InitHandler? || s.callers[i].InitUnlock? || s.callers[i].OkCheck?
    ensures CallGoesOn(s, MoveCaller(s, i, ok), i, async)
  {
  }

  lemma FirstAsyncMoves(s: State, i: nat, ok: bool)
    requires Enabled(s, Move(i, ok)) && OnItsWay(s.callers[i], true)
    requires s.callers[i].AsyncCheck? || s.callers[i].AsyncLock?
      || s.callers[i].AsyncRecheck? || s.callers[i].AsyncRunning?
    ensures CallGoesOn(s, MoveCaller(s, i, ok), i, true)
  {
  }

  lemma LastAsyncMoves(s: State, i: nat, ok: bool)
    requires Enabled(s, Move(i, ok)) && OnItsWay(s.callers[i], true)
    requires s.callers[i].AsyncCreate? || s.callers[i].AsyncMarkOk?
      || s.callers[i].AsyncUnlock? || s.callers[i].AsyncOkCheck?
    ensures CallGoesOn(s, MoveCaller(s, i, ok), i, true)
  {
  }

  lemma FirstPostMoves(s: State, i: nat, ok: bool)
    requires Enabled(s, Move(i, ok)) && OnItsWay(s.callers[i], true)
    requires s.callers[i].PostLock? || s.callers[i].PostDo?
    ensures CallGoesOn(s, MoveCaller(s, i, ok), i, true)
  {
  }

  lemma LastPostMoves(s: State, i: nat, ok: bool)
    requires Enabled(s, Move(i, ok)) && OnItsWay(s.callers[i], true)
    requires s.callers[i].PostSignal? || s.callers[i].PostUnlock?
    ensures CallGoesOn(s, MoveCaller(s, i, ok), i, true)
  {
  }

  lemma SyncMoves(s: State, i: nat, ok: bool)
    requires Enabled(s, Move(i, ok)) && OnItsWay(s.callers[i], false)
    requires s.callers[i].SyncLock? || s.callers[i].SyncImpl? || s.callers[i].SyncUnlock?
    ensures CallGoesOn(s, MoveCaller(s, i, ok), i, false)
  {
  }

  lemma OwnStep(s: State, i: nat, ok: bool, async: bool)
    requires Enabled(s, Move(i, ok)) && OnItsWay(s.callers[i], async)
    ensures CallGoesOn(s, MoveCaller(s, i, ok), i, async)
  {
    match s.callers[i]
    case InitCheck(_) => FirstInitMoves(s, i, ok, async);
    case InitLock(_) => FirstInitMoves(s, i, ok, async);
    case InitRecheck(_) => FirstInitMoves(s, i, ok, async);
    case InitHandler(_) => LastInitMoves(s, i, ok, async);
    case InitUnlock(_) => LastInitMoves(s, i, ok, async);
    case OkCheck(_) => LastInitMoves(s, i, ok, async);
    case AsyncCheck => FirstAsyncMoves(s, i, ok);
    case AsyncLock => FirstAsyncMoves(s, i, ok);
    case AsyncRecheck => FirstAsyncMoves(s, i, ok);
    case AsyncRunning => FirstAsyncMoves(s, i, ok);
    case AsyncCreate => LastAsyncMoves(s, i, ok);
    case AsyncMarkOk => LastAsyncMoves(s, i, ok);
    case AsyncUnlock => LastAsyncMoves(s, i, ok);
    case AsyncOkCheck => LastAsyncMoves(s, i, ok);
    case PostLock => FirstPostMoves(s, i, ok);
    case PostDo => FirstPostMoves(s, i, ok);
    case PostSignal => LastPostMoves(s, i, ok);
    case PostUnlock => LastPostMoves(s, i, ok);
    case SyncLock => SyncMoves(s, i, ok);
    case SyncImpl => SyncMoves(s, i, ok);
    case SyncUnlock => SyncMoves(s, i, ok);
  }

  lemma CallStep(trace: seq<State>, steps: seq<Step>, n: nat, i: nat, async: bool)
    requires Follows(trace, steps) && Inv(trace[0]) && n < |steps|
    requires i < |trace[n].callers| && OnItsWay(trace[n].callers[i], async)
    ensures CallGoesOn(trace[n], trace[n + 1], i, async)
  {
    var s, step := trace[n], steps[n];
    FollowsInv(trace, steps, n);
    assert Enabled(s, step) && trace[n + 1] == Next(s, step);
    if step.Move? && step.i == i {
      OwnStep(s, i, step.ok, async);
    } else {
      OtherSteps(s, step, i);
    }
  }

  /** What a call has done when it is about to return. */
  lemma {:induction false} CallHistory(trace: seq<State>, steps: seq<Step>, k: nat, j: nat, i: nat, async: bool)
    requires Follows(trace, steps) && Inv(trace[0]) && k < j <= |steps| && steps[k] == Start(i, async)
    requires forall m :: k < m <= j ==> i < |trace[m].callers| && !trace[m].callers[i].Idle?
    ensures i < |trace[j].callers| && OnItsWay(trace[j].callers[i], async)
    ensures trace[j].callers[i].SyncUnlock? ==> exists m :: k < m < j && Refreshes(trace[m], i)
    ensures trace[j].callers[i].PostSignal? || trace[j].callers[i].PostUnlock? ==>
      exists m :: k < m < j && AcceptsRequest(trace[m], trace[m + 1], i)
    decreases j
  {
    assert Enabled(trace[k], steps[k]) && trace[k + 1] == Next(trace[k], steps[k]);
    if k + 1 < j {
      CallHistory(trace, steps, k, j - 1, i, async);
      CallStep(trace, steps, j - 1, i, async);
      assert trace[j - 1].callers[i].SyncImpl? ==> Refreshes(trace[j - 1], i);
    }
  }

  /** Call `i` runs `xh_core_refresh_impl`. */
  predicate Refreshes(s: State, i: nat) {
    i < |s.callers| && s.callers[i].SyncImpl?
  }

  /** A call that returns has refreshed, or has left a request, unless it gives up. */
  lemma CallsDoTheirWork(trace: seq<State>, steps: seq<Step>, k: nat, j: nat, i: nat, async: bool)
    requires Follows(trace, steps) && Inv(trace[0]) && k + 1 < j <= |steps| && steps[k] == Start(i, async)
    requires forall m :: k < m < j ==> i < |trace[m].callers| && !trace[m].callers[i].Idle?
    requires i < |trace[j].callers| && trace[j].callers[i].Idle?
    ensures GivesUp(trace[j - 1], i)
            || (!async && exists m :: k < m < j && Refreshes(trace[m], i))
            || (async && exists m :: k < m < j && AcceptsRequest(trace[m], trace[m + 1], i))
  {
    CallHistory(trace, steps, k, j - 1, i, async);
    CallStep(trace, steps, j - 1, i, async);
  }

  // ----- what the flags tell

  /** Before state `n` a step has installed the handler, and since then no clear has taken it away. */
  ghost predicate HandlerInstalled(trace: seq<State>, steps: seq<Step>, n: nat)
    requires Follows(trace, steps) && n <= |steps|
  {
    n > 0 &&
    var s, step := trace[n - 1], steps[n - 1];
    && !(step.MoveClear? && s.clear.ResetInit?)
    && ((step.Move? && step.ok && step.i < |s.callers| && s.callers[step.i].InitHandler?)
        || HandlerInstalled(trace, steps, n - 1))
  }

  /** Before state `n` a step has created the refresh thread, and since then no clear has joined it. */
  ghost predicate ThreadCreated(trace: seq<State>, steps: seq<Step>, n: nat)
    requires Follows(trace, steps) && n <= |steps|
  {
    n > 0 &&
    var s, step := trace[n - 1], steps[n - 1];
    && !(step.MoveClear? && s.clear.Join?)
    && ((step.Move? && step.ok && step.i < |s.callers| && s.callers[step.i].AsyncCreate?)
        || ThreadCreated(trace, steps, n - 1))
  }

  /** What one step does to them. */
  predicate FlagsGoOn(s: State, step: Step, t: State)
    requires Enabled(s, step)
  {
    && (t.initOk <==> !(step.MoveClear? && s.clear.ResetInit?)
                      && (s.initOk || (step.Move? && step.ok && s.callers[step.i].InitHandler?)))
    && (!t.worker.Absent? <==> !(step.MoveClear? && s.clear.Join?)
                               && (!s.worker.Absent? || (step.Move? && step.ok && s.callers[step.i].AsyncCreate?)))
  }

  lemma InitFlags(s: State, i: nat, ok: bool)
    requires Enabled(s, Move(i, ok))
    requires
      || s.callers[i].InitCheck? || s.callers[i].InitLock? || s.callers[i].InitRecheck?
      || s.callers[i].InitHandler? || s.callers[i].InitUnlock? || s.callers[i].OkCheck?
    ensures FlagsGoOn(s, Move(i, ok), MoveCaller(s, i, ok))
  {
  }

  lemma FirstAsyncFlags(s: State, i: nat, ok: bool)
    requires Enabled(s, Move(i, ok))
    requires
      || s.callers[i].AsyncCheck? || s.callers[i].AsyncLock?
      || s.callers[i].AsyncRecheck? || s.callers[i].AsyncRunning?
    ensures FlagsGoOn(s, Move(i, ok), MoveCaller(s, i, ok))
  {
  }

  lemma LastAsyncFlags(s: State, i: nat, ok: bool)
    requires Enabled(s, Move(i, ok))
    requires
      || s.callers[i].AsyncCreate? || s.callers[i].AsyncMarkOk?
      || s.callers[i].AsyncUnlock? || s.callers[i].AsyncOkCheck?
    ensures FlagsGoOn(s, Move(i, ok), MoveCaller(s, i, ok))
  {
  }

  lemma PostFlags(s: State, i: nat, ok: bool)
    requires Enabled(s, Move(i, ok))
    requires
      || s.callers[i].PostLock? || s.callers[i].PostDo?
      || s.callers[i].PostSignal? || s.callers[i].PostUnlock?
    ensures FlagsGoOn(s, Move(i, ok), MoveCaller(s, i, ok))
  {
  }

  lemma SyncFlags(s: State, i: nat, ok: bool)
    requires Enabled(s, Move(i, ok))
    requires s.callers[i].SyncLock? || s.callers[i].SyncImpl? || s.callers[i].SyncUnlock?
    ensures FlagsGoOn(s, Move(i, ok), MoveCaller(s, i, ok))
  {
  }

  lemma MoveFlags(s: State, i: nat, ok: bool)
    requires Enabled(s, Move(i, ok))
    ensures FlagsGoOn(s, Move(i, ok), MoveCaller(s, i, ok))
  {
    match s.callers[i]
    case InitCheck(_) => InitFlags(s, i, ok);
    case InitLock(_) => InitFlags(s, i, ok);
    case InitRecheck(_) => InitFlags(s, i, ok);
    case InitHandler(_) => InitFlags(s, i, ok);
    case InitUnlock(_) => InitFlags(s, i, ok);
    case OkCheck(_) => InitFlags(s, i, ok);
    case AsyncCheck => FirstAsyncFlags(s, i, ok);
    case AsyncLock => FirstAsyncFlags(s, i, ok);
    case AsyncRecheck => FirstAsyncFlags(s, i, ok);
    case AsyncRunning => FirstAsyncFlags(s, i, ok);
    case AsyncCreate => LastAsyncFlags(s, i, ok);
    case AsyncMarkOk => LastAsyncFlags(s, i, ok);
    case AsyncUnlock => LastAsyncFlags(s, i, ok);
    case AsyncOkCheck => LastAsyncFlags(s, i, ok);
    case PostLock => PostFlags(s, i, ok);
    case PostDo => PostFlags(s, i, ok);
    case PostSignal => PostFlags(s, i, ok);
    case PostUnlock => PostFlags(s, i, ok);
    case SyncLock => SyncFlags(s, i, ok);
    case SyncImpl => SyncFlags(s, i, ok);
    case SyncUnlock => SyncFlags(s, i, ok);
  }

  lemma WorkFlags(s: State)
    requires Enabled(s, Work)
    ensures FlagsGoOn(s, Work, MoveWorker(s))
    ensures MoveWorker(s).inited == s.inited && MoveWorker(s).asyncInited == s.asyncInited
  {
    if s.worker.Lock? || s.worker.Woken? || s.worker.Test? || s.worker.Decide? || s.worker.ExitUnlock? {
      WaitFlags(s);
    } else {
      RefreshFlags(s);
    }
  }

  lemma WaitFlags(s: State)
    requires Enabled(s, Work)
    requires s.worker.Lock? || s.worker.Woken? || s.worker.Test? || s.worker.Decide? || s.worker.ExitUnlock?
    ensures FlagsGoOn(s, Work, MoveWorker(s))
    ensures MoveWorker(s).inited == s.inited && MoveWorker(s).asyncInited == s.asyncInited
  {
  }

  lemma RefreshFlags(s: State)
    requires Enabled(s, Work)
    requires s.worker.Top? || s.worker.Unlock? || s.worker.RefreshLock? || s.worker.Impl? || s.worker.RefreshUnlock?
    ensures FlagsGoOn(s, Work, MoveWorker(s))
    ensures MoveWorker(s).inited == s.inited && MoveWorker(s).asyncInited == s.asyncInited
  {
  }

  lemma StopFlags(s: State)
    requires Enabled(s, MoveClear)
    requires s.clear.AsyncOkRead? || s.clear.StopLock? || s.clear.Stop? || s.clear.StopSignal? || s.clear.StopUnlock?
             || s.clear.Join?
    ensures FlagsGoOn(s, MoveClear, MoveTheClear(s))
  {
  }

  lemma WipeFlags(s: State)
    requires Enabled(s, MoveClear)
    requires s.clear.ResetAsync? || s.clear.ResetInit? || s.clear.WipeLock? || s.clear.WipeRefreshLock? || s.clear.Wipe?
             || s.clear.WipeRefreshUnlock? || s.clear.WipeUnlock?
    ensures FlagsGoOn(s, MoveClear, MoveTheClear(s))
  {
  }

  lemma ClearFlags(s: State)
    requires Enabled(s, MoveClear)
    ensures FlagsGoOn(s, MoveClear, MoveTheClear(s))
  {
    if s.clear.ResetAsync? || s.clear.ResetInit? || AfterResets(s.clear) {
      WipeFlags(s);
    } else {
      StopFlags(s);
    }
  }

  lemma FlagsStep(trace: seq<State>, steps: seq<Step>, n: nat)
    requires Follows(trace, steps) && n < |steps|
    ensures Enabled(trace[n], steps[n]) && FlagsGoOn(trace[n], steps[n], trace[n + 1])
  {
    assert Enabled(trace[n], steps[n]) && trace[n + 1] == Next(trace[n], steps[n]);
    match steps[n]
    case Start(_, _) =>
    case Move(i, ok) => MoveFlags(trace[n], i, ok);
    case Work => WorkFlags(trace[n]);
    case Spurious =>
    case StartClear =>
    case MoveClear => ClearFlags(trace[n]);
  }

  /** `init_ok` is set exactly if the handler has been installed since the last clear, and there is a refresh thread
      exactly if one has been created since. */
  lemma {:induction false} FlagsMean(trace: seq<State>, steps: seq<Step>, n: nat)
    requires Follows(trace, steps) && Init(trace[0]) && n <= |steps|
    ensures trace[n].initOk <==> HandlerInstalled(trace, steps, n)
    ensures !trace[n].worker.Absent? <==> ThreadCreated(trace, steps, n)
  {
    if n > 0 {
      FlagsMean(trace, steps, n - 1);
      FlagsStep(trace, steps, n - 1);
    }
  }

  // ----- a clear undoes everything

  /** What a clear has undone so far. */
  predicate Undone(s: State) {
    && (s.clear.ResetInit? || AfterResets(s.clear) ==> !s.asyncInited)
    && (AfterResets(s.clear) ==> !s.inited && !s.initOk)
  }

  predicate AfterResets(c: Clear) {
    c.WipeLock? || c.WipeRefreshLock? || c.Wipe? || c.WipeRefreshUnlock? || c.WipeUnlock?
  }

  /** Nothing has been initialised, there is no refresh thread, and no request waits. */
  predicate Cleared(s: State) {
    !s.inited && !s.initOk && !s.asyncInited && !s.asyncInitOk && s.worker.Absent? && s.unserved == 0
  }

  /** What one step does while a clear is under way. */
  predicate ClearGoesOn(s: State, t: State) {
    && Undone(t)
    && (t.clear.Off? ==> s.clear.WipeUnlock? && Cleared(t))
    && (t.clear.WipeUnlock? ==> s.clear.WipeUnlock? || s.clear.WipeRefreshUnlock?)
    && (t.clear.WipeRefreshUnlock? ==> s.clear.WipeRefreshUnlock? || s.clear.Wipe?)
  }

  lemma ClearMoves(s: State)
    requires Inv(s) && Enabled(s, MoveClear) && Undone(s)
    ensures ClearGoesOn(s, MoveTheClear(s))
  {
  }

  lemma WorkDuringClear(s: State)
    requires Inv(s) && Enabled(s, Work) && Undone(s) && !s.clear.Off?
    ensures ClearGoesOn(s, MoveWorker(s))
  {
    WorkInv(s);
    WorkFlags(s);
  }

  lemma ClearStep(trace: seq<State>, steps: seq<Step>, n: nat)
    requires Follows(trace, steps) && Inv(trace[0]) && n < |steps| && Undone(trace[n]) && !trace[n].clear.Off?
    ensures ClearGoesOn(trace[n], trace[n + 1])
  {
    FollowsInv(trace, steps, n);
    assert Enabled(trace[n], steps[n]) && trace[n + 1] == Next(trace[n], steps[n]);
    match steps[n]
    case Start(_, _) =>
    case Move(_, _) =>
    case Work => WorkDuringClear(trace[n]);
    case Spurious =>
    case StartClear =>
    case MoveClear => ClearMoves(trace[n]);
  }

  lemma {:induction false} ClearHistory(trace: seq<State>, steps: seq<Step>, k: nat, j: nat)
    requires Follows(trace, steps) && Inv(trace[0]) && k < j <= |steps| && steps[k] == StartClear
    requires forall m :: k < m <= j ==> !trace[m].clear.Off?
    ensures Undone(trace[j])
    ensures trace[j].clear.WipeRefreshUnlock? || trace[j].clear.WipeUnlock? ==>
      exists m :: k < m < j && trace[m].clear.Wipe?
    decreases j
  {
    assert Enabled(trace[k], steps[k]) && trace[k + 1] == Next(trace[k], steps[k]);
    if k + 1 < j {
      ClearHistory(trace, steps, k, j - 1);
      ClearStep(trace, steps, j - 1);
    }
  }

  /** A clear that returns has wiped the index, and leaves the library as it was at the start. */
  lemma ClearsWipe(trace: seq<State>, steps: seq<Step>, k: nat, j: nat)
    requires Follows(trace, steps) && Inv(trace[0]) && k + 1 < j <= |steps| && steps[k] == StartClear
    requires (forall m :: k < m < j ==> !trace[m].clear.Off?) && trace[j].clear.Off?
    ensures Cleared(trace[j]) && exists m :: k < m < j && trace[m].clear.Wipe?
  {
    ClearHistory(trace, steps, k, j - 1);
    ClearStep(trace, steps, j - 1);
  }
}
