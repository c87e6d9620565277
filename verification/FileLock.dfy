/** FileLock: a recursive shared and exclusive lock over one flock lock, in one process and in many. */
module FileLock {
  datatype LockType = SharedLock | ExclusiveLock

  /** What a process holds on the file. */
  datatype Os = Free | Sh | Ex

  /** The OS lock that the two counts call for. */
  function Held(shared: nat, exclusive: nat): Os {
    if exclusive > 0 then Ex else if shared > 0 then Sh else Free
  }

  function OsOf(t: LockType): Os {
    match t
    case SharedLock => Sh
    case ExclusiveLock => Ex
  }

  // ---- One process

  /** The kernel's answer to one call of flock; kept says whether a conversion that failed has kept the old lock. */
  datatype Reply = Reply(granted: bool, kept: bool, wouldBlock: bool)

  class Lock {
    var sharedLockCount: nat
    var exclusiveLockCount: nat

    /** The lock that the kernel holds for m_fd. */
    var os: Os

    /** Outside a call the OS lock is the one the counts call for. */
    ghost predicate Valid()
      reads this
    {
      os == Held(sharedLockCount, exclusiveLockCount)
    }

    /** This process as one of many, at the given place of a call. */
    ghost function View(pc: Pc): Process
      reads this
    {
      Process(sharedLockCount, exclusiveLockCount, os, pc)
    }

    constructor ()
      ensures Valid() && View(Outside) == Process(0, 0, Free, Outside)
    {
      sharedLockCount, exclusiveLockCount := 0, 0;
      os := Free;
    }

    /** flock with LOCK_SH or LOCK_EX. */
    method Flock(t: LockType, reply: Reply) returns (ok: bool)
      modifies this`os
      ensures ok == reply.granted && os == if ok then OsOf(t) else if reply.kept then old(os) else Free
    {
      ok := reply.granted;
      if ok {
        os := OsOf(t);
      } else if !reply.kept {
        os := Free;
      }
    }

    /** A shared lock is wanted to become an exclusive one. */
    ghost predicate Upgrades(t: LockType)
      reads this
    {
      t.ExclusiveLock? && exclusiveLockCount == 0 && sharedLockCount > 0
    }

    /**
     doLock: the kernel answers a first try, then the request itself, then the recovery of a shared lock.
     The call is a run of steps of the machine below. Only a failed recovery leaves the lock out of order.
     */
    method DoLock(t: LockType, wait: bool, again: bool, first: Reply, request: Reply, recovery: Reply)
      returns (ok: bool, tryAgain: bool, ghost steps: seq<Process>)
      requires Valid() && (wait ==> !request.wouldBlock)
      modifies this
      ensures ok ==> sharedLockCount == old(sharedLockCount) + (if t.SharedLock? then 1 else 0)
                     && exclusiveLockCount == old(exclusiveLockCount) + (if t.ExclusiveLock? then 1 else 0)
      ensures !ok ==> sharedLockCount == old(sharedLockCount) && exclusiveLockCount == old(exclusiveLockCount)
      ensures !ok ==> !request.granted && old(os) != Ex && (t.SharedLock? ==> old(os) == Free)
      ensures tryAgain == if ok then again else request.wouldBlock
      ensures Valid() <==> ok || !old(Upgrades(t)) || recovery.granted
      ensures Valid() ==> IsCall(steps, BeginLock(old(View(Outside)), t, wait), View(Outside))
    {
      ghost var begun := BeginLock(View(Outside), t, wait);
      tryAgain := again;
      var unLockFirstIfNeeded := false;
      if t == SharedLock {
        if sharedLockCount > 0 || exclusiveLockCount > 0 {
          sharedLockCount := sharedLockCount + 1;
          return true, again, [begun];
        }
      } else {
        if exclusiveLockCount > 0 {
          exclusiveLockCount := exclusiveLockCount + 1;
          return true, again, [begun];
        }
        if sharedLockCount > 0 {
          unLockFirstIfNeeded := true;
        }
      }
      ok, tryAgain, steps := PlatformLock(t, wait, again, unLockFirstIfNeeded, first, request, recovery);
      if ok {
        if t == SharedLock {
          sharedLockCount := sharedLockCount + 1;
        } else {
          exclusiveLockCount := exclusiveLockCount + 1;
        }
      }
    }

    /** platformLock; steps is the call up to the moment when the counts are changed. */
    method PlatformLock(t: LockType, wait: bool, again: bool, unLockFirstIfNeeded: bool, first: Reply, request: Reply,
                        recovery: Reply)
      returns (ok: bool, tryAgain: bool, ghost steps: seq<Process>)
      requires exclusiveLockCount == 0 && (unLockFirstIfNeeded <==> sharedLockCount > 0)
      requires unLockFirstIfNeeded ==> t == ExclusiveLock
      requires os == if unLockFirstIfNeeded then Sh else Free
      modifies this`os
      ensures ok == (request.granted || (unLockFirstIfNeeded && first.granted))
      ensures os == if ok then OsOf(t) else if unLockFirstIfNeeded && recovery.granted then Sh else Free
      ensures tryAgain == if ok then again else request.wouldBlock
      ensures ok ==> IsCall(steps, BeginLock(old(View(Outside)), t, wait), Granted(View(Outside), t))
      ensures !ok && (unLockFirstIfNeeded ==> recovery.granted)
              ==> IsCall(steps, BeginLock(old(View(Outside)), t, wait), View(Outside))
    {
      tryAgain := again;
      steps := [BeginLock(View(Outside), t, wait)];
      if unLockFirstIfNeeded {
        ok := Flock(t, first);
        if ok || !first.kept {
          steps := Next(steps, View(UpgradeDropped(wait)).(os := Free), false, false);
        }
        if ok {
          steps := Next(steps, Granted(View(Outside), t), true, true);
          return;
        }
        steps := Next(steps, View(UpgradeFailed(wait)), false, false);
        os := Free;
        steps := Next(steps, View(Requesting(t, wait, true)), false, false);
      }
      ok := Flock(t, request.(kept := false));
      if !ok {
        tryAgain := request.wouldBlock;
        if unLockFirstIfNeeded {
          steps := Next(steps, View(Recovering), false, false);
          var recovered := Flock(SharedLock, recovery.(kept := false));
        }
        if unLockFirstIfNeeded ==> recovery.granted {
          steps := Next(steps, View(Outside), true, true);
        }
      } else {
        steps := Next(steps, Granted(View(Outside), t), true, true);
      }
    }

    /**
     unlock: a count goes down, unless it is 0 or flock fails. The last exclusive count gives way to a shared lock.
     Only a downgrade that fails and has lost the lock leaves the lock out of order.
     */
    method Unlock(t: LockType, reply: Reply) returns (ok: bool, ghost steps: seq<Process>)
      requires Valid()
      modifies this
      ensures ok == (old(Counts(t)) > 0 && (reply.granted || !old(Last(t))))
      ensures ok ==> sharedLockCount == old(sharedLockCount) - (if t.SharedLock? then 1 else 0)
                     && exclusiveLockCount == old(exclusiveLockCount) - (if t.ExclusiveLock? then 1 else 0)
      ensures !ok ==> sharedLockCount == old(sharedLockCount) && exclusiveLockCount == old(exclusiveLockCount)
      ensures Valid() <==> ok || old(Counts(t)) == 0 || old(sharedLockCount) == 0 || t.SharedLock? || reply.kept
      ensures ok ==> IsCall(steps, BeginUnlock(old(View(Outside)), t), View(Outside))
    {
      steps := [BeginUnlock(View(Outside), t)];
      var unlockToSharedLock := false;
      if t == SharedLock {
        if sharedLockCount == 0 {
          return false, steps;
        }
        if sharedLockCount > 1 || exclusiveLockCount > 0 {
          sharedLockCount := sharedLockCount - 1;
          return true, steps;
        }
      } else {
        if exclusiveLockCount == 0 {
          return false, steps;
        }
        if exclusiveLockCount > 1 {
          exclusiveLockCount := exclusiveLockCount - 1;
          return true, steps;
        }
        if sharedLockCount > 0 {
          unlockToSharedLock := true;
        }
      }
      ok := PlatformUnLock(unlockToSharedLock, reply);
      if ok {
        if t == SharedLock {
          sharedLockCount := sharedLockCount - 1;
        } else {
          exclusiveLockCount := exclusiveLockCount - 1;
        }
        if unlockToSharedLock {
          steps := Next(Next(steps, old(View(DowngradeDropped)).(os := Free), false, false), View(Outside), true, true);
        }
      }
    }

    ghost function Counts(t: LockType): nat
      reads this
    {
      if t.SharedLock? then sharedLockCount else exclusiveLockCount
    }

    /** Unlocking needs the kernel: it is the last count of the kind of lock that is held. */
    ghost predicate Last(t: LockType)
      reads this
    {
      if t.SharedLock? then sharedLockCount == 1 && exclusiveLockCount == 0 else exclusiveLockCount == 1
    }

    /** platformUnLock; a failed LOCK_UN leaves the lock. */
    method PlatformUnLock(unlockToSharedLock: bool, reply: Reply) returns (ok: bool)
      modifies this`os
      ensures ok == reply.granted
      ensures os == if ok then (if unlockToSharedLock then Sh else Free)
                    else if unlockToSharedLock && !reply.kept then Free else old(os)
    {
      if unlockToSharedLock {
        ok := Flock(SharedLock, reply);
      } else {
        ok := reply.granted;
        if ok {
          os := Free;
        }
      }
    }
  }

  // ---- Many processes

  /**
   Where a process is between two calls of flock: outside a call; before a request that waits or
   tries; before, in the middle of and after a failed upgrade; before the recovery of a shared
   lock; before and in the middle of a downgrade. A conversion gives up the old lock first.
   */
  datatype Pc =
    | Outside
    | Requesting(t: LockType, wait: bool, upgrade: bool)
    | Upgrading(wait: bool)
    | UpgradeDropped(wait: bool)
    | UpgradeFailed(wait: bool)
    | Recovering
    | Downgrading
    | DowngradeDropped

  datatype Process = Process(shared: nat, exclusive: nat, os: Os, pc: Pc)

  /** The kernel can grant a lock of type t to process i. */
  ghost predicate Available(ps: seq<Process>, i: nat, t: LockType) {
    forall j :: 0 <= j < |ps| && j != i ==> if t.SharedLock? then ps[j].os != Ex else ps[j].os == Free
  }

  /** Process p begins doLock. */
  function BeginLock(p: Process, t: LockType, wait: bool): Process {
    if t.SharedLock? then
      if p.shared > 0 || p.exclusive > 0 then p.(shared := p.shared + 1)
      else p.(pc := Requesting(SharedLock, wait, false))
    else if p.exclusive > 0 then p.(exclusive := p.exclusive + 1)
    else if p.shared > 0 then p.(pc := Upgrading(wait))
    else p.(pc := Requesting(ExclusiveLock, wait, false))
  }

  /** Process p begins unlock; giving up the OS lock altogether cannot fail. */
  function BeginUnlock(p: Process, t: LockType): Process {
    if t.SharedLock? then
      if p.shared == 0 then p
      else if p.shared > 1 || p.exclusive > 0 then p.(shared := p.shared - 1)
      else p.(shared := 0, os := Free)
    else if p.exclusive == 0 then p
    else if p.exclusive > 1 then p.(exclusive := p.exclusive - 1)
    else if p.shared > 0 then p.(pc := Downgrading)
    else p.(exclusive := 0, os := Free)
  }

  /** The lock is granted and the call returns. */
  function Granted(p: Process, t: LockType): Process {
    if t.SharedLock? then p.(os := Sh, shared := p.shared + 1, pc := Outside)
    else p.(os := Ex, exclusive := p.exclusive + 1, pc := Outside)
  }

  /** A step of process p to p' inside a call, while the kernel can or cannot grant a shared and an exclusive lock. */
  ghost predicate OwnStep(p: Process, p': Process, shared: bool, exclusive: bool) {
    match p.pc
    case Outside => false
    case Requesting(t, wait, upgrade) =>
      || ((if t.SharedLock? then shared else exclusive) && p' == Granted(p, t))
      // a try that finds the lock taken, or a wait that is interrupted
      || p' == p.(pc := if upgrade then Recovering else Outside)
    case Upgrading(wait) =>
      p' == p.(os := Free, pc := UpgradeDropped(wait)) || p' == p.(pc := UpgradeFailed(wait))
    case UpgradeDropped(wait) =>
      if exclusive then p' == Granted(p, ExclusiveLock) else p' == p.(pc := UpgradeFailed(wait))
    case UpgradeFailed(wait) => p' == p.(os := Free, pc := Requesting(ExclusiveLock, wait, true))
    case Recovering => shared && p' == p.(os := Sh, pc := Outside)
    case Downgrading => p' == p.(os := Free, pc := DowngradeDropped)
    case DowngradeDropped => shared && p' == p.(os := Sh, exclusive := 0, pc := Outside)
  }

  /** A step of process i to p' inside a call. */
  ghost predicate CallStep(ps: seq<Process>, i: nat, p': Process)
    requires i < |ps|
  {
    OwnStep(ps[i], p', Available(ps, i, SharedLock), Available(ps, i, ExclusiveLock))
  }

  /** A call of one process: from what it begins with, step by step as the kernel answers, to its end. */
  ghost predicate IsCall(steps: seq<Process>, first: Process, last: Process) {
    IsChain(steps) && steps[0] == first && steps[|steps| - 1] == last
  }

  ghost predicate IsChain(steps: seq<Process>) {
    |steps| > 0 && forall k :: 0 <= k < |steps| - 1 ==> SomeStep(steps[k], steps[k + 1])
  }

  /** One more step. */
  ghost function Next(steps: seq<Process>, p: Process, shared: bool, exclusive: bool): (r: seq<Process>)
    requires IsChain(steps) && OwnStep(steps[|steps| - 1], p, shared, exclusive)
    ensures IsChain(r) && r[0] == steps[0] && r[|r| - 1] == p
  {
    assert SomeStep(steps[|steps| - 1], p);
    steps + [p]
  }

  ghost predicate SomeStep(p: Process, p': Process) {
    exists shared, exclusive :: OwnStep(p, p', shared, exclusive)
  }

  ghost predicate Step(ps: seq<Process>, ps': seq<Process>, i: nat)
    requires i < |ps|
  {
    exists p' :: ps' == ps[i := p'] && (
      || CallStep(ps, i, p')
      || (ps[i].pc.Outside? && exists t, wait :: p' == BeginLock(ps[i], t, wait))
      || (ps[i].pc.Outside? && exists t :: p' == BeginUnlock(ps[i], t)))
  }

  ghost predicate AnyStep(ps: seq<Process>, ps': seq<Process>) {
    exists i :: 0 <= i < |ps| && Step(ps, ps', i)
  }

  /** Counts, OS lock and place of one process fit together. */
  ghost predicate Consistent(p: Process) {
    match p.pc
    case Outside => p.os == Held(p.shared, p.exclusive)
    case Requesting(t, _, upgrade) =>
      p.exclusive == 0 && p.os == Free && (if upgrade then t == ExclusiveLock && p.shared > 0 else p.shared == 0)
    case Upgrading(_) => p.exclusive == 0 && p.shared > 0 && p.os == Sh
    case UpgradeDropped(_) => p.exclusive == 0 && p.shared > 0 && p.os == Free
    case UpgradeFailed(_) => p.exclusive == 0 && p.shared > 0 && p.os != Ex
    case Recovering => p.exclusive == 0 && p.shared > 0 && p.os == Free
    case Downgrading => p.exclusive == 1 && p.shared > 0 && p.os == Ex
    case DowngradeDropped => p.exclusive == 1 && p.shared > 0 && p.os == Free
  }

  ghost predicate Inv(ps: seq<Process>) {
    && (forall i :: 0 <= i < |ps| ==> Consistent(ps[i]))
    && (forall i, j :: 0 <= i < |ps| && 0 <= j < |ps| && i != j && ps[i].os == Ex ==> ps[j].os == Free)
  }

  lemma StepKeepsInv(ps: seq<Process>, ps': seq<Process>, i: nat)
    requires Inv(ps) && i < |ps| && Step(ps, ps', i)
    ensures Inv(ps') && |ps'| == |ps|
  {
    assert Consistent(ps[i]);
    var p' := ps'[i];
    assert Consistent(p');
    forall a, b | 0 <= a < |ps'| && 0 <= b < |ps'| && a != b && ps'[a].os == Ex ensures ps'[b].os == Free {
      assert a != i ==> ps'[a] == ps[a];
      assert b != i ==> ps'[b] == ps[b];
      assert p'.os != ps[i].os ==> p'.os == Free || Available(ps, i, if p'.os == Ex then ExclusiveLock else SharedLock);
    }
  }

  /** A run of steps from processes that hold nothing. */
  ghost predicate IsRun(states: seq<seq<Process>>) {
    && |states| > 0
    && (forall i :: 0 <= i < |states[0]| ==> states[0][i] == Process(0, 0, Free, Outside))
    && (forall k :: 0 <= k < |states| - 1 ==> AnyStep(states[k], states[k + 1]))
  }

  lemma {:induction false} RunKeepsInv(states: seq<seq<Process>>, k: nat)
    requires IsRun(states) && k < |states|
    ensures Inv(states[k])
  {
    if k > 0 {
      RunKeepsInv(states, k - 1);
      assert states[k - 1 + 1] == states[k];
      var i :| 0 <= i < |states[k - 1]| && Step(states[k - 1], states[k], i);
      StepKeepsInv(states[k - 1], states[k], i);
    }
  }

  /** A process that counts on locks without holding them is in the middle of an upgrade or a downgrade. */
  ghost predicate BetweenLocks(p: Process) {
    match p.pc
    case Requesting(_, _, upgrade) => upgrade
    case UpgradeDropped(_) => true
    case UpgradeFailed(_) => p.os == Free
    case Recovering => true
    case DowngradeDropped => true
    case _ => false
  }

  /**
   Mutual exclusion: while one process counts an exclusive lock outside a call, every other process
   counts none, or is in the middle of an upgrade or downgrade.
   */
  lemma MutualExclusion(states: seq<seq<Process>>, k: nat, i: nat, j: nat)
    requires IsRun(states) && k < |states| && i < |states[k]| && j < |states[k]| && i != j
    requires states[k][i].pc.Outside? && states[k][i].exclusive > 0
    ensures (states[k][j].shared == 0 && states[k][j].exclusive == 0) || BetweenLocks(states[k][j])
    ensures states[k][j].pc.Outside? ==> states[k][j].shared == 0 && states[k][j].exclusive == 0
  {
    RunKeepsInv(states, k);
    assert Consistent(states[k][i]) && Consistent(states[k][j]);
  }

  // ---- No deadlock among upgrades

  /** Process i, inside a call, can go on without failing. */
  ghost predicate CanGoOn(ps: seq<Process>, i: nat)
    requires i < |ps|
  {
    match ps[i].pc
    case Outside => false
    case Requesting(t, _, _) => Available(ps, i, t)
    case Recovering => Available(ps, i, SharedLock)
    case DowngradeDropped => Available(ps, i, SharedLock)
    case _ => true
  }

  lemma GoingOnIsAStep(ps: seq<Process>, i: nat) returns (p': Process)
    requires i < |ps| && CanGoOn(ps, i)
    ensures CallStep(ps, i, p')
    ensures ps[i].pc.Requesting? ==> p' == Granted(ps[i], ps[i].pc.t)
  {
    var p := ps[i];
    match p.pc
    case Requesting(t, _, _) => p' := Granted(p, t);
    case Upgrading(wait) => p' := p.(os := Free, pc := UpgradeDropped(wait));
    case UpgradeDropped(wait) =>
      p' := if Available(ps, i, ExclusiveLock) then Granted(p, ExclusiveLock) else p.(pc := UpgradeFailed(wait));
    case UpgradeFailed(wait) => p' := p.(os := Free, pc := Requesting(ExclusiveLock, wait, true));
    case Recovering => p' := p.(os := Sh, pc := Outside);
    case Downgrading => p' := p.(os := Free, pc := DowngradeDropped);
    case DowngradeDropped => p' := p.(os := Sh, exclusive := 0, pc := Outside);
  }

  /**
   Requests cannot deadlock: in every reachable state where all holders of the lock are themselves
   inside calls, such as shared holders that all want the exclusive lock, some call can go on.
   */
  lemma NoDeadlock(states: seq<seq<Process>>, k: nat, i: nat) returns (j: nat)
    requires IsRun(states) && k < |states| && i < |states[k]| && !states[k][i].pc.Outside?
    requires forall h :: 0 <= h < |states[k]| && states[k][h].pc.Outside?
                         ==> states[k][h].shared == 0 && states[k][h].exclusive == 0
    ensures j < |states[k]| && CanGoOn(states[k], j)
  {
    RunKeepsInv(states, k);
    var ps := states[k];
    if h :| 0 <= h < |ps| && ps[h].os != Free {
      assert Consistent(ps[h]);
      j := h;
    } else {
      j := i;
    }
  }

  // ---- Every call can be finished

  /** Process j makes a step of its call. */
  ghost predicate Moves(ps: seq<Process>, ps': seq<Process>, j: nat) {
    j < |ps| == |ps'| && ps' == ps[j := ps'[j]] && CallStep(ps, j, ps'[j])
  }

  /** A run of call steps. */
  ghost predicate CallRun(run: seq<seq<Process>>) {
    |run| > 0 && forall k :: 0 <= k < |run| - 1 ==> SomeMoves(run[k], run[k + 1])
  }

  ghost predicate SomeMoves(ps: seq<Process>, ps': seq<Process>) {
    exists j :: Moves(ps, ps', j)
  }

  lemma RunGrows(run: seq<seq<Process>>, j: nat, p': Process)
    requires CallRun(run) && j < |run[|run| - 1]| && CallStep(run[|run| - 1], j, p')
    ensures CallRun(run + [run[|run| - 1][j := p']])
  {
    var ps := run[|run| - 1];
    var r := run + [ps[j := p']];
    assert Moves(ps, ps[j := p'], j);
    forall k | 0 <= k < |r| - 1 ensures SomeMoves(r[k], r[k + 1]) {
      if k < |run| - 1 { assert SomeMoves(run[k], run[k + 1]); }
    }
  }

  /** Nobody outside a call holds a lock. */
  ghost predicate HoldersInCalls(ps: seq<Process>) {
    forall h :: 0 <= h < |ps| && ps[h].pc.Outside? ==> ps[h].os == Free
  }

  lemma CallStepIsStep(ps: seq<Process>, j: nat, p': Process)
    requires j < |ps| && CallStep(ps, j, p')
    ensures Step(ps, ps[j := p'], j)
  {
  }

  ghost predicate OthersFree(ps: seq<Process>, i: nat) {
    forall j :: 0 <= j < |ps| && j != i ==> ps[j].os == Free
  }

  /** A process that holds a lock inside a call can let go of it in one step, whatever the others hold. */
  lemma LetsGo(ps: seq<Process>, j: nat) returns (p': Process)
    requires Inv(ps) && HoldersInCalls(ps) && j < |ps| && ps[j].os != Free
    ensures CallStep(ps, j, p') && p'.os == Free && !p'.pc.Outside?
    ensures Inv(ps[j := p']) && HoldersInCalls(ps[j := p'])
  {
    var p := ps[j];
    assert Consistent(p);
    match p.pc {
      case Upgrading(wait) => p' := p.(os := Free, pc := UpgradeDropped(wait));
      case UpgradeFailed(wait) => p' := p.(os := Free, pc := Requesting(ExclusiveLock, wait, true));
      case Downgrading => p' := p.(os := Free, pc := DowngradeDropped);
    }
    CallStepIsStep(ps, j, p');
    StepKeepsInv(ps, ps[j := p'], j);
  }

  /** The first n processes, but for i, let go one after the other. */
  lemma {:induction false} AllLetGo(ps: seq<Process>, i: nat, n: nat) returns (run: seq<seq<Process>>)
    requires Inv(ps) && HoldersInCalls(ps) && i < |ps| && n <= |ps|
    ensures CallRun(run) && run[0] == ps && |run| <= n + 1
    ensures var last := run[|run| - 1];
            && |last| == |ps| && Inv(last) && HoldersInCalls(last) && last[i] == ps[i]
            && (forall j :: 0 <= j < n && j != i ==> last[j].os == Free)
    decreases n
  {
    if n == 0 {
      run := [ps];
    } else {
      run := AllLetGo(ps, i, n - 1);
      var last := run[|run| - 1];
      if n - 1 != i && last[n - 1].os != Free {
        var p' := LetsGo(last, n - 1);
        RunGrows(run, n - 1, p');
        run := run + [last[n - 1 := p']];
      }
    }
  }

  /** What a call in progress is to come to: the lock granted, the shared lock recovered, or the downgrade done. */
  function Finished(p: Process): Process {
    match p.pc
    case Requesting(t, _, _) => Granted(p, t)
    case Upgrading(_) => Granted(p, ExclusiveLock)
    case UpgradeDropped(_) => Granted(p, ExclusiveLock)
    case UpgradeFailed(_) => Granted(p, ExclusiveLock)
    case Recovering => p.(os := Sh, pc := Outside)
    case Downgrading => p.(os := Sh, exclusive := 0, pc := Outside)
    case DowngradeDropped => p.(os := Sh, exclusive := 0, pc := Outside)
    case Outside => p
  }

  /** With all others free, a call is finished in two steps. */
  lemma Finishes(run: seq<seq<Process>>, i: nat) returns (run': seq<seq<Process>>)
    requires CallRun(run) && i < |run[|run| - 1]| && !run[|run| - 1][i].pc.Outside?
    requires OthersFree(run[|run| - 1], i)
    ensures CallRun(run') && run <= run' && |run'| <= |run| + 2
    ensures run'[|run'| - 1] == run[|run| - 1][i := Finished(run[|run| - 1][i])]
  {
    var ps := run[|run| - 1];
    var p := ps[i];
    run' := run;
    match p.pc {
      case Upgrading(wait) =>
        RunGrows(run, i, p.(os := Free, pc := UpgradeDropped(wait)));
        run' := run + [ps[i := p.(os := Free, pc := UpgradeDropped(wait))]];
      case UpgradeFailed(wait) =>
        RunGrows(run, i, p.(os := Free, pc := Requesting(ExclusiveLock, wait, true)));
        run' := run + [ps[i := p.(os := Free, pc := Requesting(ExclusiveLock, wait, true))]];
      case Downgrading =>
        RunGrows(run, i, p.(os := Free, pc := DowngradeDropped));
        run' := run + [ps[i := p.(os := Free, pc := DowngradeDropped)]];
      case _ =>
    }
    var last := run'[|run'| - 1];
    assert Available(last, i, SharedLock) && Available(last, i, ExclusiveLock);
    RunGrows(run', i, Finished(p));
    assert last[i := Finished(p)] == ps[i := Finished(p)];
    run' := run' + [last[i := Finished(p)]];
  }

  /**
   Any call can be finished: from every reachable state in which all holders are inside calls, a run of at most
   two call steps more than there are processes grants process i the lock it asks for, or gives it back its
   shared lock.
   */
  lemma EveryCallCanFinish(states: seq<seq<Process>>, k: nat, i: nat) returns (run: seq<seq<Process>>)
    requires IsRun(states) && k < |states| && i < |states[k]| && !states[k][i].pc.Outside?
    requires forall h :: 0 <= h < |states[k]| && states[k][h].pc.Outside?
                         ==> states[k][h].shared == 0 && states[k][h].exclusive == 0
    ensures CallRun(run) && run[0] == states[k] && |run| <= |states[k]| + 3
    ensures i < |run[|run| - 1]| && run[|run| - 1][i] == Finished(states[k][i])
  {
    RunKeepsInv(states, k);
    var ps := states[k];
    forall h | 0 <= h < |ps| && ps[h].pc.Outside? ensures ps[h].os == Free { assert Consistent(ps[h]); }
    var front := AllLetGo(ps, i, |ps|);
    run := Finishes(front, i);
  }

  /** If a shared holder waited for the exclusive lock without letting go, two of them would wait for ever. */
  lemma WaitingWhileHolding()
    ensures var ps := [Process(1, 0, Sh, Requesting(ExclusiveLock, true, true)),
                       Process(1, 0, Sh, Requesting(ExclusiveLock, true, true))];
            !CanGoOn(ps, 0) && !CanGoOn(ps, 1)
  {
    var ps := [Process(1, 0, Sh, Requesting(ExclusiveLock, true, true)),
               Process(1, 0, Sh, Requesting(ExclusiveLock, true, true))];
    assert ps[0].os == Sh && ps[1].os == Sh;
  }
}
