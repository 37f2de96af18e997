/** Container activation: what becomes of the cgroup leaf and of the cloned child, whatever fails.
    A pidfd or a leaf is a number; owning the number is owning the handle. */
module Activation {
  import opened Basics

  datatype Reason =
    | AuthenticateInputs
    | CgroupPolicy
    | PrivateDevices
    | CloneStack
    | SyncSocket
    | Placement
    | SignalMask
    | CallerIdentity
    | Clone
    | CloseEndpoint
    | IdMap
    | ChildTgid
    | SoleMember
    | InstallSigint
    | ReleaseChild
    | WaitChild
    | RestoreSigint
    | ReadChildError
    | ExitedNonzero
    | Signaled
    | UnknownExit

  /** Only the last four variants carry handles. */
  datatype Error =
    | Plain(reason: Reason)
    | ChildCleanup(pidfd: Option<nat>)
    | ChildCleanupAfterFailure(primary: Error, pidfd: Option<nat>)
    | CgroupCleanup(leaf: Option<nat>)
    | CgroupCleanupAfterFailure(failure: Error, leaf: Option<nat>)

  function One(handle: Option<nat>): multiset<nat> {
    if handle.Some? then multiset{handle.value} else multiset{}
  }

  /** Every pidfd anywhere in the error. */
  function Pidfds(e: Error): multiset<nat> {
    match e
    case Plain(_) => multiset{}
    case ChildCleanup(pidfd) => One(pidfd)
    case ChildCleanupAfterFailure(primary, pidfd) => Pidfds(primary) + One(pidfd)
    case CgroupCleanup(_) => multiset{}
    case CgroupCleanupAfterFailure(failure, _) => Pidfds(failure)
  }

  /** Every cgroup leaf anywhere in the error. */
  function Leaves(e: Error): multiset<nat> {
    match e
    case Plain(_) => multiset{}
    case ChildCleanup(_) => multiset{}
    case ChildCleanupAfterFailure(primary, _) => Leaves(primary)
    case CgroupCleanup(leaf) => One(leaf)
    case CgroupCleanupAfterFailure(failure, leaf) => Leaves(failure) + One(leaf)
  }

  /** An error a caller is handed, whose retained handles it may take. */
  class Returned {
    var error: Error

    constructor (error: Error)
      ensures this.error == error
    {
      this.error := error;
    }

    /** Takes the pidfd: nothing is duplicated or dropped, and leaves stay. */
    method TakeChildPidfd() returns (r: Option<nat>)
      modifies this
      ensures Pidfds(old(error)) == Pidfds(error) + One(r) && Leaves(error) == Leaves(old(error))
      ensures r == ReachablePidfd(old(error)) && ReachablePidfd(error).None?
    {
      r, error := ReachablePidfd(error), WithoutPidfd(error);
    }

    method TakeCgroupLeaf() returns (r: Option<nat>)
      modifies this
      ensures Leaves(old(error)) == Leaves(error) + One(r) && Pidfds(error) == Pidfds(old(error))
      ensures r == ReachableLeaf(old(error)) && ReachableLeaf(error).None?
    {
      match error {
        case CgroupCleanup(leaf) => r, error := leaf, CgroupCleanup(None);
        case CgroupCleanupAfterFailure(failure, leaf) => r, error := leaf, CgroupCleanupAfterFailure(failure, None);
        case _ => r := None;
      }
    }
  }

  /** The pidfd `take_child_pidfd` reaches: it descends through cgroup failures only. */
  function ReachablePidfd(e: Error): Option<nat> {
    match e
    case ChildCleanup(pidfd) => pidfd
    case ChildCleanupAfterFailure(_, pidfd) => pidfd
    case CgroupCleanupAfterFailure(failure, _) => ReachablePidfd(failure)
    case _ => None
  }

  function WithoutPidfd(e: Error): (r: Error)
    ensures Pidfds(e) == Pidfds(r) + One(ReachablePidfd(e)) && Leaves(r) == Leaves(e)
    ensures ReachablePidfd(r).None? && ReachableLeaf(r) == ReachableLeaf(e)
  {
    match e
    case ChildCleanup(_) => ChildCleanup(None)
    case ChildCleanupAfterFailure(primary, _) => ChildCleanupAfterFailure(primary, None)
    case CgroupCleanupAfterFailure(failure, leaf) => CgroupCleanupAfterFailure(WithoutPidfd(failure), leaf)
    case _ => e
  }

  /** The pidfd an error carries itself. */
  function DirectPidfd(e: Error): Option<nat> {
    match e
    case ChildCleanup(pidfd) => pidfd
    case ChildCleanupAfterFailure(_, pidfd) => pidfd
    case _ => None
  }

  function ReachableLeaf(e: Error): Option<nat> {
    match e
    case CgroupCleanup(leaf) => leaf
    case CgroupCleanupAfterFailure(_, leaf) => leaf
    case _ => None
  }

  /** What a take reaches is one of the handles held. */
  lemma {:induction false} ReachableIsHeld(e: Error)
    ensures ReachablePidfd(e).Some? ==> Pidfds(e)[ReachablePidfd(e).value] > 0
    ensures ReachableLeaf(e).Some? ==> Leaves(e)[ReachableLeaf(e).value] > 0
  {
    match e
    case CgroupCleanupAfterFailure(failure, _) => ReachableIsHeld(failure);
    case _ =>
  }

  /** A leaf wrapped around an error without leaves is its one leaf; the pidfds stay reachable. */
  lemma LeafJoins(failure: Error, leaf: nat)
    requires Leaves(failure) == multiset{}
    ensures var e := CgroupCleanupAfterFailure(failure, Some(leaf));
            && Leaves(e) == multiset{leaf} && ReachableLeaf(e) == Some(leaf)
            && Pidfds(e) == Pidfds(failure) && ReachablePidfd(e) == ReachablePidfd(failure)
  {
  }

  // ---- the machine --------------------------------------------------------------------

  datatype Child = NoChild | Live | Reaped

  datatype Status = ExitedZero | ExitedOther | Killed | NotTerminal | Alive

  datatype Signalling = Sent | NoSuchProcess | SignalError

  datatype Waiting = Terminated | Unfinished | NoChildToWait | WaitError

  predicate Terminal(status: Status) {
    status.ExitedZero? || status.ExitedOther? || status.Killed?
  }

  datatype Verdict = Succeeds | FailsWith(reason: Reason) | CleansUp(reason: Reason)

  /** What follows the wait: `restored` and `read` are the outcomes of restoring the signal handler and
      of reading the child's diagnostic. */
  function AfterWait(status: Status, ignoreSigint: bool, restored: bool, read: bool): Verdict {
    if ignoreSigint && !restored then FailsWith(RestoreSigint)
    else
      match status
      case ExitedZero => Succeeds
      case ExitedOther => FailsWith(if read then ExitedNonzero else ReadChildError)
      case Killed => FailsWith(Signaled)
      case _ => CleansUp(UnknownExit)
  }

  /** The supervisor's view of one activation. */
  class Activation {
    /** The number of the child's pidfd. */
    const pidfd: nat
    var child: Child
    var leafPresent: bool
    /** The child ended with status zero. */
    ghost var exitedZero: bool
    /** A numeric wait for a legacy child failed. */
    ghost var lost: bool
    /** A blocking wait reported a status that is not an end. */
    ghost var odd: bool
    /** The overridden SIGINT handler could not be restored. */
    ghost var unrestored: bool
    /** The child was given up without an attempt to reap it. */
    ghost var abandoned: bool
    /** Attempts to kill and reap through the pidfd. */
    ghost var attempts: nat
    /** System calls that failed and deadlines that passed. */
    ghost var faults: nat

    constructor (pidfd: nat, leafPresent: bool)
      ensures this.pidfd == pidfd && this.leafPresent == leafPresent
      ensures Fresh()
    {
      this.pidfd, this.leafPresent, child := pidfd, leafPresent, NoChild;
      exitedZero, lost, odd, unrestored, abandoned, attempts, faults := false, false, false, false, false, 0, 0;
    }

    /** Nothing has happened yet. */
    ghost predicate Fresh()
      reads this
    {
      child.NoChild? && !exitedZero && !lost && !odd && !unrestored && !abandoned
    }

    /** The child is unreaped and was not given up. */
    ghost predicate Owned()
      reads this
    {
      child.Live? && !abandoned
    }

    /** A step that has no bearing on either resource. */
    method Step(reason: Reason) returns (r: Outcome<Error>)
      modifies this`faults
      ensures r.Pass? || r == Fail(Plain(reason))
      ensures faults == old(faults) + if r.Pass? then 0 else 1
    {
      var ok := Attempt();
      return if ok then Pass else Fail(Plain(reason));
    }

    method Attempt() returns (ok: bool)
      modifies this`faults
      ensures faults == old(faults) + if ok then 0 else 1
    {
      ok := *;
      faults := if ok then faults else faults + 1;
    }

    // ---- child --------------------------------------------------------------------------

    /** ESRCH means the child was already waited for. */
    method SendKill() returns (r: Signalling)
      modifies this`faults
      ensures faults == old(faults) + if r.SignalError? then 1 else 0
      ensures (r.Sent? ==> child.Live?) && (r.NoSuchProcess? ==> !child.Live?)
    {
      var ok := Attempt();
      return if !ok then SignalError else if child.Live? then Sent else NoSuchProcess;
    }

    /** waitid with WNOHANG: a terminal status reaps; errors and other states change nothing. */
    method WaitNoHang() returns (r: Waiting)
      modifies this`child, this`faults
      ensures child == if r.Terminated? then Reaped else old(child)
      ensures faults == old(faults) + if r.WaitError? then 1 else 0
      ensures r.Terminated? || r.Unfinished? ==> old(child).Live?
      ensures r.NoChildToWait? ==> !child.Live?
    {
      var ok := Attempt();
      if !ok { return WaitError; }
      if !child.Live? { return NoChildToWait; }
      var ended: bool := *;
      if !ended { return Unfinished; }
      child := Reaped;
      return Terminated;
    }

    /** Sleeps to the next poll; at the latest after `polls` of them the deadline has passed. */
    method Pause(polls: nat) returns (late: bool)
      modifies this`faults
      ensures faults == old(faults) + if late then 1 else 0
      ensures polls == 0 ==> late
    {
      late := *;
      late := late || polls == 0;
      faults := if late then faults + 1 else faults;
    }

    /** `wait_for_pidfd_reap`: polls until the deadline. */
    method WaitForReap() returns (r: bool)
      requires child.Live?
      modifies this`child, this`faults
      ensures r ==> child.Reaped? && faults == old(faults)
      ensures !r ==> child == old(child) && faults > old(faults)
    {
      var polls: nat := *;
      while true
        invariant child == old(child) && faults == old(faults)
        decreases polls
      {
        var w := WaitNoHang();
        match w {
          case Terminated => return true;
          case Unfinished =>
            var late := Pause(polls);
            if late { return false; }
            polls := polls - 1;
          case NoChildToWait => return false;
          case WaitError => return false;
        }
      }
    }

    /** Kills and reaps through the pidfd, or gives the pidfd back. */
    method CleanupPidfdChild(handle: nat) returns (r: Outcome<nat>)
      modifies this`child, this`attempts, this`faults
      ensures attempts == old(attempts) + 1 && faults >= old(faults)
      ensures r.Pass? ==> child == if old(child).Live? then Reaped else old(child)
      ensures r.Fail? ==> r.error == handle && child == old(child) && faults > old(faults)
    {
      attempts := attempts + 1;
      var signal := SendKill();
      if signal.Sent? {
        var reaped := WaitForReap();
        return if reaped then Pass else Fail(handle);
      }
      var w := WaitNoHang();
      match w
      case Terminated => return Pass;
      case NoChildToWait => return if signal.NoSuchProcess? then Pass else Fail(handle);
      case _ => return Fail(handle);
    }

    /** `ChildLifecycle::cleanup`: by pidfd, or numerically for a legacy child. */
    method Cleanup(handle: Option<nat>) returns (r: Outcome<Error>)
      requires handle.Some? ==> handle.value == pidfd
      modifies this`child, this`lost, this`attempts, this`faults
      ensures faults >= old(faults) && (faults == old(faults) ==> r.Pass? && Settles(old(child), child))
      ensures handle.Some? ==> lost == old(lost) && (r.Pass? ==> !child.Live?)
      ensures handle.Some? && r.Fail? ==> r.error == ChildCleanup(Some(pidfd)) && child == old(child)
      ensures handle.None? ==> r.Pass? && (child.Live? ==> lost)
    {
      if handle.None? {
        AbortChild();
        return Pass;
      }
      var c := CleanupPidfdChild(handle.value);
      return if c.Pass? then Pass else Fail(ChildCleanup(Some(c.error)));
    }

    /** kill and waitpid by number, both results ignored. */
    method AbortChild()
      modifies this`child, this`lost, this`faults
      ensures child.Live? ==> lost
      ensures faults >= old(faults) && (faults == old(faults) ==> Settles(old(child), child))
    {
      if child.Live? {
        var waited := Attempt();
        if waited {
          child := Reaped;
        } else {
          lost := true;
        }
      }
    }

    /** The primary error, joined by the pidfd if the child could not be cleaned up. */
    method CleanupAfterFailure(handle: Option<nat>, primary: Error) returns (r: Error)
      requires handle.Some? ==> handle.value == pidfd && Owned()
      requires Pidfds(primary) == multiset{} && Leaves(primary) == multiset{}
      modifies this`child, this`lost, this`attempts, this`faults
      ensures faults >= old(faults) && (faults == old(faults) ==> r == primary && Settles(old(child), child))
      ensures Leaves(r) == multiset{} && (primary.ChildCleanup? || !r.ChildCleanup?)
      ensures handle.Some? ==> HandsBack(Owned(), pidfd, r) && lost == old(lost)
      ensures handle.None? ==> r == primary && (child.Live? ==> lost)
    {
      var c := Cleanup(handle);
      ReachableIsHeld(primary);
      match c
      case Pass => return primary;
      case Fail(ChildCleanup(pidfd)) => return ChildCleanupAfterFailure(primary, pidfd);
      case Fail(_) => return ChildCleanupAfterFailure(primary, None);
    }

    // ---- leaf ---------------------------------------------------------------------------

    /** `remove_unstarted` and `kill_and_remove`: success means the leaf is gone; on failure the
        handle stays with the caller. */
    method RemoveLeaf() returns (ok: bool)
      modifies this`leafPresent, this`faults
      ensures ok ==> !leafPresent
      ensures !old(leafPresent) ==> !leafPresent
      ensures faults == old(faults) + if ok then 0 else 1
    {
      var removed: bool := *;
      ok := Attempt();
      if ok || removed {
        leafPresent := false;
      }
    }

    method CleanupUnstartedCgroup(failure: Error, leaf: nat) returns (r: Error)
      requires Leaves(failure) == multiset{}
      modifies this`leafPresent, this`faults
      ensures faults >= old(faults) && (Leaves(r) != multiset{} ==> faults > old(faults))
      ensures Pidfds(r) == Pidfds(failure) && ReachablePidfd(r) == ReachablePidfd(failure)
      ensures LeafAccounted(leafPresent, leaf, r)
    {
      var ok := RemoveLeaf();
      LeafJoins(failure, leaf);
      return if ok then failure else CgroupCleanupAfterFailure(failure, Some(leaf));
    }

    /** `retry_child_cleanup_after_cgroup` */
    method RetryChildCleanup(failure: Error) returns (r: Outcome<Error>)
      requires HandsBack(Owned(), pidfd, failure)
      modifies this`child, this`attempts, this`faults
      ensures attempts == old(attempts) + if DirectPidfd(failure).Some? then 1 else 0
      ensures faults >= old(faults) && (DirectPidfd(failure).Some? && faults == old(faults) ==> !child.Live?)
      ensures DirectPidfd(failure).None? ==> r == Fail(failure) && child == old(child)
      ensures r.Pass? ==> failure.ChildCleanup? && !Owned()
      ensures r.Fail? ==> HandsBack(Owned(), pidfd, r.error) && Leaves(r.error) == Leaves(failure)
      ensures !failure.ChildCleanup? ==> r.Fail?
    {
      match failure
      case ChildCleanup(Some(handle)) =>
        var c := CleanupPidfdChild(handle);
        return if c.Pass? then Pass else Fail(ChildCleanup(Some(c.error)));
      case ChildCleanupAfterFailure(primary, Some(handle)) =>
        var c := CleanupPidfdChild(handle);
        ReachableIsHeld(primary);
        return Fail(if c.Pass? then primary else ChildCleanupAfterFailure(primary, Some(c.error)));
      case _ =>
        return Fail(failure);
    }

    /** Kills and drains the leaf. If it could be removed, an error that carries a pidfd gets one more
        attempt; if not, its handle joins the error. */
    method FinalizeStartedCgroup(result: Outcome<Error>, leaf: nat) returns (r: Outcome<Error>, ghost removed: bool)
      requires result.Pass? ==> !Owned()
      requires result.Fail? ==> HandsBack(Owned(), pidfd, result.error) && Leaves(result.error) == multiset{}
      modifies this`leafPresent, this`child, this`attempts, this`faults
      ensures faults >= old(faults) && (!removed ==> faults > old(faults))
      ensures removed && result.Pass? ==> r.Pass?
      ensures removed && result.Fail? && DirectPidfd(result.error).None? ==> r == result && child == old(child)
      ensures attempts == old(attempts) + if removed && result.Fail? && DirectPidfd(result.error).Some? then 1 else 0
      ensures removed ==> !leafPresent && (r.Fail? ==> Leaves(r.error) == multiset{})
      ensures !removed ==> r.Fail? && ReachableLeaf(r.error) == Some(leaf) && Leaves(r.error) == multiset{leaf}
      ensures r.Pass? ==> !leafPresent && !Owned() && (result.Pass? || result.error.ChildCleanup?)
      ensures result.Pass? ==> child == old(child)
      ensures r.Fail? ==> HandsBack(Owned(), pidfd, r.error)
    {
      var ok := RemoveLeaf();
      removed := ok;
      if ok {
        if result.Pass? { return Pass, true; }
        r := RetryChildCleanup(result.error);
        return;
      }
      if result.Pass? { return Fail(CgroupCleanup(Some(leaf))), false; }
      LeafJoins(result.error, leaf);
      return Fail(CgroupCleanupAfterFailure(result.error, Some(leaf))), false;
    }

    // ---- activation ---------------------------------------------------------------------

    method Prepare(inCgroup: bool) returns (r: Outcome<Error>)
      modifies this`faults
      ensures r.Fail? ==> r.error.Plain?
      ensures faults == old(faults) + if r.Pass? then 0 else 1
    {
      r := Step(AuthenticateInputs);
      if r.Fail? { return; }
      if inCgroup {
        r := Step(CgroupPolicy);
        if r.Fail? { return; }
      }
      :- Step(PrivateDevices);
      if !inCgroup {
        r := Step(CloneStack);
        if r.Fail? { return; }
      }
      r := Step(SyncSocket);
    }

    /** clone3 into the leaf: afterwards the child exists, and its pidfd is ours, or nothing happened. */
    method SpawnInCgroup() returns (r: Outcome<Error>)
      requires child.NoChild? && !abandoned
      modifies this`child, this`lost, this`attempts, this`faults
      ensures lost == old(lost) && faults >= old(faults)
      ensures r.Pass? <==> faults == old(faults)
      ensures r.Pass? ==> child.Live?
      ensures r.Fail? ==> HandsBack(Owned(), pidfd, r.error) && Leaves(r.error) == multiset{}
    {
      r := Step(Placement);
      if r.Fail? { return; }
      :- Step(SignalMask);
      var identity := Step(CallerIdentity);
      if identity.Fail? {
        r := Step(SignalMask);
        if r.Fail? { return; }
        return identity;
      }
      var cloned := Step(Clone);
      if cloned.Fail? {
        r := Step(Clone);
        if r.Fail? { return; }
        return cloned;
      }
      child := Live;
      var restored := Step(SignalMask);
      if restored.Fail? {
        var e := CleanupAfterFailure(Some(pidfd), restored.error);
        return Fail(e);
      }
      return Pass;
    }

    /** The legacy clone supervises its child by number. */
    method SpawnLegacy() returns (r: Outcome<Error>)
      requires child.NoChild?
      modifies this`child, this`lost, this`faults
      ensures faults >= old(faults) && (r.Pass? <==> faults == old(faults))
      ensures r.Pass? ==> child.Live? && lost == old(lost)
      ensures r.Fail? ==> r.error.Plain? && (child.Live? ==> lost)
    {
      r := Step(SignalMask);
      if r.Fail? { return; }
      var audited := Step(Clone);
      if audited.Fail? {
        r := Step(SignalMask);
        if r.Fail? { return; }
        return audited;
      }
      var identity := Step(CallerIdentity);
      if identity.Fail? {
        r := Step(SignalMask);
        if r.Fail? { return; }
        return identity;
      }
      var cloned := Step(Clone);
      if cloned.Pass? {
        child := Live;
      }
      var restored := Step(SignalMask);
      if restored.Fail? {
        if cloned.Pass? {
          AbortChild();
        }
        return restored;
      }
      return cloned;
    }

    /** Waiting for the child to end; a terminal status reaps it. */
    method Wait() returns (r: Result<Status, Error>)
      requires child.Live? && !exitedZero
      modifies this`child, this`exitedZero, this`odd, this`faults
      ensures faults == old(faults) + if r.Ok? then 0 else 1
      ensures child == if r.Ok? && Terminal(r.value) then Reaped else Live
      ensures odd <==> old(odd) || (r.Ok? && !Terminal(r.value))
      ensures exitedZero <==> r == Ok(ExitedZero)
      ensures r.Err? ==> r.error == Plain(WaitChild)
    {
      var ok := Attempt();
      if !ok { return Err(Plain(WaitChild)); }
      var status: Status := *;
      if Terminal(status) {
        child := Reaped;
        exitedZero := status.ExitedZero?;
      } else {
        odd := true;
      }
      return Ok(status);
    }

    /** From the cloned child to its end: success means it ended with status zero and was reaped. */
    method Supervise(handle: Option<nat>, ignoreSigint: bool) returns (r: Outcome<Error>)
      requires child.Live? && !exitedZero && !odd && !unrestored && !abandoned && (handle.Some? ==> handle.value == pidfd)
      modifies this`child, this`lost, this`exitedZero, this`odd, this`unrestored, this`abandoned, this`attempts, this`faults
      ensures abandoned <==> ignoreSigint && odd && unrestored
      ensures faults >= old(faults) && (faults == old(faults) ==> child.Reaped? && Reports(r, exitedZero, odd))
      ensures r.Pass? ==> child.Reaped? && exitedZero && lost == old(lost)
      ensures r.Fail? ==> Leaves(r.error) == multiset{} && !r.error.ChildCleanup?
      ensures handle.Some? ==> lost == old(lost) && (r.Fail? ==> HandsBack(Owned(), pidfd, r.error))
      ensures handle.None? && r.Fail? ==> r.error.Plain? && (Owned() ==> lost)
    {
      r := Release(handle, ignoreSigint);
      if r.Fail? {
        var e := CleanupAfterFailure(handle, r.error);
        return Fail(e);
      }
      var status := Wait();
      if status.Err? {
        var e := CleanupAfterFailure(handle, status.error);
        return Fail(e);
      }
      r := Conclude(handle, ignoreSigint, status.value);
    }

    /** What follows the wait: the handler is restored, a diagnostic is read for a nonzero exit. */
    method Conclude(handle: Option<nat>, ignoreSigint: bool, status: Status) returns (r: Outcome<Error>)
      requires child == (if Terminal(status) then Reaped else Live) && (odd <==> !Terminal(status))
      requires (exitedZero <==> status.ExitedZero?) && !unrestored && !abandoned && (handle.Some? ==> handle.value == pidfd)
      modifies this`child, this`lost, this`unrestored, this`abandoned, this`attempts, this`faults
      ensures abandoned <==> ignoreSigint && odd && unrestored
      ensures faults >= old(faults) && (faults == old(faults) ==> child.Reaped? && Reports(r, exitedZero, odd))
      ensures r.Pass? ==> child.Reaped? && exitedZero && lost == old(lost)
      ensures r.Fail? ==> Leaves(r.error) == multiset{} && !r.error.ChildCleanup?
      ensures handle.Some? ==> lost == old(lost) && (r.Fail? ==> HandsBack(Owned(), pidfd, r.error))
      ensures handle.None? && r.Fail? ==> r.error.Plain? && (Owned() ==> lost)
    {
      var restored, read := true, true;
      if ignoreSigint {
        restored := Attempt();
      }
      if restored && status.ExitedOther? {
        read := Attempt();
      }
      unrestored := !restored;
      match AfterWait(status, ignoreSigint, restored, read)
      case Succeeds => return Pass;
      case FailsWith(reason) =>
        abandoned := child.Live?;
        return Fail(Plain(reason));
      case CleansUp(reason) =>
        var e := CleanupAfterFailure(handle, Plain(reason));
        return Fail(e);
    }

    /** Everything between the clone and the release of the child. */
    method Release(handle: Option<nat>, ignoreSigint: bool) returns (r: Outcome<Error>)
      modifies this`faults
      ensures r.Fail? ==> r.error.Plain?
      ensures faults == old(faults) + if r.Pass? then 0 else 1
    {
      r := Step(IdMap);
      if r.Fail? { return; }
      if handle.Some? {
        r := Step(ChildTgid);
        if r.Fail? { return; }
        :- Step(SoleMember);
      }
      if ignoreSigint {
        r := Step(InstallSigint);
        if r.Fail? { return; }
      }
      r := Step(ReleaseChild);
    }

    /** `run` and `run_in_cgroup`. For every combination of outcomes: a leaf is gone or its one handle
        can be taken from the error; a child is reaped or its one pidfd can be taken from the error,
        unless it was given up: exactly when the overridden SIGINT handler cannot be restored after a
        wait that reported no end, which a blocking wait for exited children never reports.
        Success means the child ended with status zero, was reaped, and the leaf is gone. */
    method RunInternal(leaf: Option<nat>, ignoreSigint: bool) returns (r: Outcome<Error>)
      requires Fresh() && (leaf.None? ==> !leafPresent)
      modifies this
      ensures r.Pass? ==> child.Reaped? && exitedZero && !leafPresent && !lost
      ensures r.Fail? && leaf.Some? ==> LeafAccounted(leafPresent, leaf.value, r.error)
      ensures r.Fail? && leaf.Some? ==> HandsBack(Owned(), pidfd, r.error) && !lost
      ensures r.Fail? && leaf.None? ==> r.error.Plain? && (Owned() ==> lost)
      ensures faults == old(faults) ==> child.Reaped? && !leafPresent && Reports(r, exitedZero, odd)
      ensures abandoned <==> ignoreSigint && odd && unrestored
    {
      var prepared := Prepare(leaf.Some?);
      if prepared.Fail? {
        if leaf.None? { return prepared; }
        var e := CleanupUnstartedCgroup(prepared.error, leaf.value);
        return Fail(e);
      }
      if leaf.None? {
        r := RunLegacy(ignoreSigint);
      } else {
        r := RunInCgroup(leaf.value, ignoreSigint);
      }
    }

    method RunLegacy(ignoreSigint: bool) returns (r: Outcome<Error>)
      requires Fresh()
      modifies this`child, this`lost, this`exitedZero, this`odd, this`unrestored, this`abandoned, this`attempts, this`faults
      ensures faults >= old(faults) && (faults == old(faults) ==> child.Reaped? && Reports(r, exitedZero, odd))
      ensures r.Pass? ==> child.Reaped? && exitedZero && !lost
      ensures r.Fail? ==> r.error.Plain? && (Owned() ==> lost)
      ensures abandoned <==> ignoreSigint && odd && unrestored
    {
      r := SpawnLegacy();
      if r.Fail? { return; }
      var closed := Step(CloseEndpoint);
      if closed.Fail? {
        var e := CleanupAfterFailure(None, closed.error);
        return Fail(e);
      }
      r := Supervise(None, ignoreSigint);
    }

    method RunInCgroup(leaf: nat, ignoreSigint: bool) returns (r: Outcome<Error>)
      requires Fresh()
      modifies this
      ensures faults >= old(faults) && (faults == old(faults) ==> child.Reaped? && !leafPresent && Reports(r, exitedZero, odd))
      ensures r.Pass? ==> child.Reaped? && exitedZero && !leafPresent && !lost
      ensures r.Fail? ==> LeafAccounted(leafPresent, leaf, r.error) && HandsBack(Owned(), pidfd, r.error) && !lost
      ensures abandoned <==> ignoreSigint && odd && unrestored
    {
      var spawned := SpawnInCgroup();
      if spawned.Fail? {
        var e := CleanupUnstartedCgroup(spawned.error, leaf);
        return Fail(e);
      }
      r := RunStarted(leaf, ignoreSigint);
    }

    /** The rest, once the child runs in the leaf. */
    method RunStarted(leaf: nat, ignoreSigint: bool) returns (r: Outcome<Error>)
      requires child.Live? && !exitedZero && !lost && !odd && !unrestored && !abandoned
      modifies this
      ensures faults >= old(faults) && (faults == old(faults) ==> child.Reaped? && !leafPresent && Reports(r, exitedZero, odd))
      ensures r.Pass? ==> child.Reaped? && exitedZero && !leafPresent && !lost
      ensures r.Fail? ==> LeafAccounted(leafPresent, leaf, r.error) && HandsBack(Owned(), pidfd, r.error) && !lost
      ensures abandoned <==> ignoreSigint && odd && unrestored
    {
      var closed := Step(CloseEndpoint);
      if closed.Fail? {
        var e := CleanupAfterFailure(Some(pidfd), closed.error);
        ghost var removed;
        r, removed := FinalizeStartedCgroup(Fail(e), leaf);
        return;
      }
      var result := Supervise(Some(pidfd), ignoreSigint);
      ghost var removed;
      r, removed := FinalizeStartedCgroup(result, leaf);
    }
  }

  /** A child to be reaped has been. */
  predicate Settles(before: Child, after: Child) {
    after == if before.Live? then Reaped else before
  }

  /** The result is about the child's own end: success for status zero, and otherwise its status. */
  predicate Reports(r: Outcome<Error>, exitedZero: bool, odd: bool) {
    && (r.Pass? <==> exitedZero)
    && (r.Fail? && odd ==> r.error == Plain(UnknownExit))
    && (r.Fail? && !odd ==> r.error == Plain(ExitedNonzero) || r.error == Plain(Signaled))
  }

  /** A child we still own has its one pidfd in the error, where it can be taken; else there is none. */
  ghost predicate HandsBack(owned: bool, pidfd: nat, e: Error) {
    && Pidfds(e) == (if owned then multiset{pidfd} else multiset{})
    && ReachablePidfd(e) == (if owned then Some(pidfd) else None)
  }

  /** The leaf is gone, or its one handle is in the error, where it can be taken. */
  ghost predicate LeafAccounted(present: bool, leaf: nat, e: Error) {
    || (Leaves(e) == multiset{} && !present)
    || (Leaves(e) == multiset{leaf} && ReachableLeaf(e) == Some(leaf))
  }
}
