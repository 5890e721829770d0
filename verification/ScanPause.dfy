/** The scan thread and the calls that pause it, as interleaved steps over the
    scan mutex, the pause flag and the condition variable (network_manager.c).

    A caller is any API call of the manager: it may read the scan table under
    the mutex, pause the scan thread, work, and resume it.  Some calls leave early
    and resume without having paused (wifimanager.c). */
module ScanPause {
  import opened Bytes
  import opened Runs

  /** Where the scan thread is.  From Checking on it holds the mutex, until it
      waits on the condition variable or leaves. */
  datatype ScanPc = Outside | Checking | Waiting | Woken | Cleared | Polling | Leaving

  datatype CallerPc = Idle | AtPause | Pausing | PauseSet | Working | AtResume | Resuming | ResumeSet | Signalling
    | AtRead | Reading

  datatype Actor = ScanThread | Caller(i: nat)

  datatype State = State(scan: ScanPc, owner: Option<Actor>, paused: bool, callers: seq<CallerPc>)

  datatype Label =
    | ScanLock | ScanCheck | SpuriousWakeup | SendScan(ok: bool) | GiveUpWaiting | SendScanResults(ok: bool)
    | ScanUnlock
    | CallPause(i: nat) | LockToPause(i: nat) | SetPause(i: nat) | ReturnFromPause(i: nat)
    | CallResume(i: nat) | LockToResume(i: nat) | ClearPause(i: nat) | UnlockResume(i: nat) | SignalResume(i: nat)
    | CallRead(i: nat) | LockToRead(i: nat) | ReturnFromRead(i: nat)

  predicate ScanHolds(pc: ScanPc) {
    pc == Checking || pc == Cleared || pc == Polling || pc == Leaving
  }

  predicate CallerHolds(pc: CallerPc) {
    pc == Pausing || pc == PauseSet || pc == Resuming || pc == ResumeSet || pc == Reading
  }

  function Start(n: nat): State {
    State(Outside, None, false, seq(n, i => Idle))
  }

  predicate At(s: State, i: nat, pc: CallerPc) {
    i < |s.callers| && s.callers[i] == pc
  }

  function Moved(s: State, i: nat, pc: CallerPc): State
    requires i < |s.callers|
  {
    s.(callers := s.callers[i := pc])
  }

  function MoveIf(s: State, i: nat, from: CallerPc, to: CallerPc): Option<State> {
    if At(s, i, from) then Some(Moved(s, i, to)) else None
  }

  function LockIf(s: State, i: nat, from: CallerPc, to: CallerPc): Option<State> {
    if At(s, i, from) && s.owner == None then Some(Moved(s, i, to).(owner := Some(Caller(i)))) else None
  }

  function UnlockIf(s: State, i: nat, from: CallerPc, to: CallerPc): Option<State> {
    if At(s, i, from) then Some(Moved(s, i, to).(owner := None)) else None
  }

  /** One step; None when it cannot be taken in this state. */
  function Next(s: State, l: Label): Option<State> {
    match l
    case ScanLock =>
      if (s.scan == Outside || s.scan == Woken) && s.owner == None
      then Some(s.(scan := Checking, owner := Some(ScanThread))) else None
    case ScanCheck =>
      if s.scan != Checking then None
      else if s.paused then Some(s.(scan := Waiting, owner := None))
      else Some(s.(scan := Cleared))
    case SpuriousWakeup => if s.scan == Waiting then Some(s.(scan := Woken)) else None
    case SendScan(ok) => if s.scan == Cleared then Some(s.(scan := if ok then Polling else Leaving)) else None
    case GiveUpWaiting => if s.scan == Polling then Some(s.(scan := Leaving)) else None
    case SendScanResults(ok) => if s.scan == Polling then Some(s.(scan := Leaving)) else None
    case ScanUnlock => if s.scan == Leaving then Some(s.(scan := Outside, owner := None)) else None
    case CallPause(i) => MoveIf(s, i, Idle, AtPause)
    case LockToPause(i) => LockIf(s, i, AtPause, Pausing)
    case SetPause(i) => if At(s, i, Pausing) then Some(Moved(s, i, PauseSet).(paused := true)) else None
    case ReturnFromPause(i) => UnlockIf(s, i, PauseSet, Working)
    case CallResume(i) => if At(s, i, Idle) then MoveIf(s, i, Idle, AtResume) else MoveIf(s, i, Working, AtResume)
    case LockToResume(i) => LockIf(s, i, AtResume, Resuming)
    case ClearPause(i) => if At(s, i, Resuming) then Some(Moved(s, i, ResumeSet).(paused := false)) else None
    case UnlockResume(i) => UnlockIf(s, i, ResumeSet, Signalling)
    case SignalResume(i) =>
      if At(s, i, Signalling)
      then Some(Moved(s, i, Idle).(scan := if s.scan == Waiting then Woken else s.scan)) else None
    case CallRead(i) => MoveIf(s, i, Idle, AtRead)
    case LockToRead(i) => LockIf(s, i, AtRead, Reading)
    case ReturnFromRead(i) => UnlockIf(s, i, Reading, Idle)
  }

  /** The state after a sequence of steps of `n` callers. */
  function After(n: nat, run: seq<Label>): Option<State> {
    Reached(Start(n), Next, run)
  }

  predicate IsRun(n: nat, run: seq<Label>) {
    After(n, run).Some?
  }

  // ----- the mutex

  /** The mutex is held by whoever is between its lock and its unlock: the scan
      table and the flag are touched by one thread at a time. */
  ghost predicate Exclusive(s: State) {
    && (s.owner == Some(ScanThread) <==> ScanHolds(s.scan))
    && (forall i :: 0 <= i < |s.callers| ==> (CallerHolds(s.callers[i]) <==> s.owner == Some(Caller(i))))
  }

  lemma StepIsExclusive(s: State, l: Label)
    requires Exclusive(s) && Next(s, l).Some?
    ensures Exclusive(Next(s, l).value) && |Next(s, l).value.callers| == |s.callers|
  {
    var t := Next(s, l).value;
    forall i | 0 <= i < |t.callers| ensures CallerHolds(t.callers[i]) <==> t.owner == Some(Caller(i)) {
      HolderStep(s, l, i);
    }
  }

  lemma HolderStep(s: State, l: Label, i: nat)
    requires Exclusive(s) && Next(s, l).Some? && i < |s.callers|
    ensures var t := Next(s, l).value;
      |t.callers| == |s.callers| && (CallerHolds(t.callers[i]) <==> t.owner == Some(Caller(i)))
  {
    assert CallerHolds(s.callers[i]) <==> s.owner == Some(Caller(i));
  }

  lemma {:induction false} RunIsExclusive(n: nat, run: seq<Label>)
    requires IsRun(n, run)
    ensures Exclusive(After(n, run).value) && |After(n, run).value.callers| == n
  {
    if run != [] {
      RunIsExclusive(n, run[..|run| - 1]);
      StepIsExclusive(After(n, run[..|run| - 1]).value, run[|run| - 1]);
    }
  }

  // ----- no scan while paused

  predicate IsScan(l: Label) {
    l.SendScan? || l.SendScanResults?
  }

  /** Paused, and the scan thread has not passed its check. */
  predicate Quiet(s: State) {
    s.paused && s.scan != Cleared && s.scan != Polling
  }

  lemma QuietStep(s: State, l: Label)
    requires Exclusive(s) && Next(s, l).Some?
    ensures Quiet(s) ==> !IsScan(l) && (!l.ClearPause? ==> Quiet(Next(s, l).value))
    ensures l.ReturnFromPause? && s.paused ==> Quiet(Next(s, l).value)
  {
    if l.ReturnFromPause? {
      assert CallerHolds(s.callers[l.i]);
    }
  }

  /** Whoever has set the flag and still holds the mutex finds it set. */
  ghost predicate FlagIsSet(s: State) {
    forall i :: 0 <= i < |s.callers| ==> s.callers[i] == PauseSet ==> s.paused
  }

  lemma FlagStep(s: State, l: Label)
    requires Exclusive(s) && FlagIsSet(s) && Next(s, l).Some?
    ensures FlagIsSet(Next(s, l).value)
  {
    if l.ClearPause? {
      var t := Next(s, l).value;
      forall i | 0 <= i < |t.callers| ensures t.callers[i] != PauseSet {
        assert CallerHolds(s.callers[l.i]);
        assert i != l.i ==> !CallerHolds(s.callers[i]);
      }
    }
  }

  lemma {:induction false} RunSetsFlag(n: nat, run: seq<Label>)
    requires IsRun(n, run)
    ensures FlagIsSet(After(n, run).value)
  {
    if run != [] {
      var before := run[..|run| - 1];
      RunSetsFlag(n, before);
      RunIsExclusive(n, before);
      FlagStep(After(n, before).value, run[|run| - 1]);
    }
  }

  lemma {:induction false} QuietSince(n: nat, run: seq<Label>, a: nat, i: nat)
    requires IsRun(n, run) && a < |run| && run[a] == ReturnFromPause(i)
    requires forall k :: a < k < |run| ==> !run[k].ClearPause?
    ensures Quiet(After(n, run).value)
  {
    var before := run[..|run| - 1];
    RunIsExclusive(n, before);
    RunSetsFlag(n, before);
    QuietStep(After(n, before).value, run[|run| - 1]);
    if a < |before| {
      QuietSince(n, before, a, i);
    }
  }

  /** Once a pause has returned, no SCAN and no SCAN_RESULTS is sent before some
      resume clears the flag, whatever the interleaving and however often the
      scan thread wakes up without reason. */
  lemma PauseKeepsScansOut(n: nat, run: seq<Label>, a: nat, i: nat, b: nat)
    requires IsRun(n, run) && a < b < |run| && run[a] == ReturnFromPause(i)
    requires forall k :: a < k < b ==> !run[k].ClearPause?
    ensures !IsScan(run[b])
  {
    PrefixReached(Start(n), Next, run, b);
    QuietSince(n, run[..b], a, i);
    RunIsExclusive(n, run[..b]);
    QuietStep(After(n, run[..b]).value, run[b]);
  }

  // ----- no scan during a caller's work

  /** At step `k` a scan command is sent while caller `i` is between its pause and its resume. */
  ghost predicate OverlapAt(n: nat, run: seq<Label>, k: nat, i: nat) {
    k < |run| && IsScan(run[k]) && IsRun(n, run[..k]) && At(After(n, run[..k]).value, i, Working)
  }

  ghost predicate OverlapFree(n: nat, run: seq<Label>) {
    forall k: nat, i: nat :: !OverlapAt(n, run, k, i)
  }

  ghost predicate OneCaller(s: State) {
    forall i, j :: 0 <= i < |s.callers| && 0 <= j < |s.callers| && s.callers[i] != Idle && s.callers[j] != Idle ==>
      i == j
  }

  /** Calls do not overlap: at any time at most one of them is under way. */
  ghost predicate Serial(n: nat, run: seq<Label>) {
    forall k :: 0 <= k <= |run| && IsRun(n, run[..k]) ==> OneCaller(After(n, run[..k]).value)
  }

  ghost predicate WorkIsQuiet(s: State) {
    forall i :: 0 <= i < |s.callers| && s.callers[i] == Working ==> Quiet(s)
  }

  lemma SerialStep(s: State, l: Label)
    requires Exclusive(s) && FlagIsSet(s) && OneCaller(s) && WorkIsQuiet(s) && Next(s, l).Some?
    ensures WorkIsQuiet(Next(s, l).value)
  {
    QuietStep(s, l);
    assert l.ClearPause? ==> s.callers[l.i] == Resuming;
    var t := Next(s, l).value;
    forall i | 0 <= i < |t.callers| && t.callers[i] == Working ensures Quiet(t) {
      if l == ReturnFromPause(i) {
        assert s.callers[i] == PauseSet;
      } else {
        assert s.callers[i] == Working;
      }
    }
  }

  lemma {:induction false} SerialRunIsQuiet(n: nat, run: seq<Label>, k: nat)
    requires IsRun(n, run) && Serial(n, run) && k <= |run|
    ensures IsRun(n, run[..k]) && WorkIsQuiet(After(n, run[..k]).value)
  {
    PrefixReached(Start(n), Next, run, k);
    if k > 0 {
      SerialRunIsQuiet(n, run, k - 1);
      PrefixReached(Start(n), Next, run, k - 1);
      RunIsExclusive(n, run[..k - 1]);
      RunSetsFlag(n, run[..k - 1]);
      SerialStep(After(n, run[..k - 1]).value, run[k - 1]);
    }
  }

  /** While calls do not overlap, no scan overlaps the work of any of them. */
  lemma SerialIsOverlapFree(n: nat, run: seq<Label>)
    requires IsRun(n, run) && Serial(n, run)
    ensures OverlapFree(n, run)
  {
    forall k: nat, i: nat ensures !OverlapAt(n, run, k, i) {
      if k < |run| && IsScan(run[k]) {
        SerialRunIsQuiet(n, run, k);
        PrefixReached(Start(n), Next, run, k);
        RunIsExclusive(n, run[..k]);
        QuietStep(After(n, run[..k]).value, run[k]);
      }
    }
  }

  /** Everybody idle but the first. */
  function Only(n: nat, scan: ScanPc, owner: Option<Actor>, paused: bool, pc: CallerPc): State
    requires n >= 2
  {
    State(scan, owner, paused, seq(n, i => if i == 0 then pc else Idle))
  }

  /** One caller works ... */
  lemma OneWorks(n: nat) returns (run: seq<Label>)
    requires n >= 2
    ensures IsRun(n, run) && After(n, run) == Some(Only(n, Outside, None, true, Working))
  {
    assert Start(n) == Only(n, Outside, None, false, Idle);
    run := FirstMoves(n, [], CallPause(0), Outside, None, false, Idle, None, false, AtPause);
    run := FirstMoves(n, run, LockToPause(0), Outside, None, false, AtPause, Some(Caller(0)), false, Pausing);
    run := FirstMoves(n, run, SetPause(0), Outside, Some(Caller(0)), false, Pausing, Some(Caller(0)), true, PauseSet);
    run := FirstMoves(n, run, ReturnFromPause(0), Outside, Some(Caller(0)), true, PauseSet, None, true, Working);
  }

  lemma FirstMoves(n: nat, run: seq<Label>, l: Label, scan: ScanPc, owner: Option<Actor>, paused: bool, pc: CallerPc,
                   owner': Option<Actor>, paused': bool, pc': CallerPc)
    returns (longer: seq<Label>)
    requires n >= 2 && After(n, run) == Some(Only(n, scan, owner, paused, pc))
    requires Next(Only(n, scan, owner, paused, pc), l) ==
      Some(Moved(Only(n, scan, owner, paused, pc), 0, pc').(owner := owner', paused := paused'))
    ensures After(n, longer) == Some(Only(n, scan, owner', paused', pc'))
  {
    longer := Follow(n, run, l);
    assert Moved(Only(n, scan, owner, paused, pc), 0, pc').callers == Only(n, scan, owner', paused', pc').callers;
  }

  /** ... another leaves early and resumes the scan thread ... */
  lemma AnotherResumes(n: nat) returns (run: seq<Label>)
    requires n >= 2
    ensures IsRun(n, run) && After(n, run).value.scan == Outside && After(n, run).value.owner == None
    ensures !After(n, run).value.paused && At(After(n, run).value, 0, Working)
  {
    run := OneWorks(n);
    run := Follow(n, run, CallResume(1));
    run := Follow(n, run, LockToResume(1));
    run := Follow(n, run, ClearPause(1));
    run := Follow(n, run, UnlockResume(1));
  }

  /** ... which scans while the first is still at work. */
  lemma OverlapWithTwo(n: nat) returns (run: seq<Label>)
    requires n >= 2
    ensures IsRun(n, run) && !OverlapFree(n, run)
  {
    run := AnotherResumes(n);
    run := Follow(n, run, ScanLock);
    run := Follow(n, run, ScanCheck);
    var before := run;
    run := Follow(n, run, SendScan(true));
    assert run[..|before|] == before;
    assert OverlapAt(n, run, |before|, 0);
  }

  lemma Follow(n: nat, run: seq<Label>, l: Label) returns (longer: seq<Label>)
    requires IsRun(n, run) && Next(After(n, run).value, l).Some?
    ensures longer == run + [l] && IsRun(n, longer) && After(n, longer) == Next(After(n, run).value, l)
  {
    longer := run + [l];
    ReachedNext(Start(n), Next, run, l);
  }

  /** Connect attempts are free of scans exactly when there is at most one
      caller: the exits that resume without having paused break the pause of
      another call. */
  lemma OverlapFreedom(n: nat)
    ensures n <= 1 <==> forall run :: IsRun(n, run) ==> OverlapFree(n, run)
  {
    if n <= 1 {
      forall run | IsRun(n, run) ensures OverlapFree(n, run) {
        forall k | 0 <= k <= |run| && IsRun(n, run[..k]) ensures OneCaller(After(n, run[..k]).value) {
          RunIsExclusive(n, run[..k]);
        }
        SerialIsOverlapFree(n, run);
      }
    } else {
      var run := OverlapWithTwo(n);
    }
  }

  // ----- no wakeup is lost

  /** A scan thread that waits although the flag is clear is about to be signalled. */
  ghost predicate WakeupComes(s: State) {
    s.scan == Waiting && !s.paused ==>
      exists i :: 0 <= i < |s.callers| && (s.callers[i] == ResumeSet || s.callers[i] == Signalling)
  }

  lemma WakeupStep(s: State, l: Label)
    requires WakeupComes(s) && Next(s, l).Some?
    ensures WakeupComes(Next(s, l).value)
  {
    var t := Next(s, l).value;
    if t.scan == Waiting && !t.paused {
      if l.ClearPause? {
        assert t.callers[l.i] == ResumeSet;
      } else {
        var i :| 0 <= i < |s.callers| && (s.callers[i] == ResumeSet || s.callers[i] == Signalling);
        assert t.callers[i] == ResumeSet || t.callers[i] == Signalling;
      }
    }
  }

  /** Even if the condition variable never wakes up on its own, a resume is never
      missed by the waiting scan thread. */
  lemma {:induction false} NoWakeupIsLost(n: nat, run: seq<Label>)
    requires IsRun(n, run)
    ensures WakeupComes(After(n, run).value)
  {
    if run != [] {
      NoWakeupIsLost(n, run[..|run| - 1]);
      WakeupStep(After(n, run[..|run| - 1]).value, run[|run| - 1]);
    }
  }
}
