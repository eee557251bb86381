/** Which task runner dispatches events: the double-checked election in the loop every
thread runs (`rena/src/task_runner.c`), one atomic statement at a time. */
module Election {
  import opened Wrappers

  /** The next statement of a thread. */
  datatype Pc =
    | Loop                       // the test of forced_exit
    | Glance                     // the test outside the lock
    | Lock | Test | Claim        // the lock, the test inside it, has_io(1)
    | Unlock(dispatch: bool)
    | Dispatch
    | LockBack | TestBack | HandBack | UnlockBack
    | Work                       // a queued task
    | Left
  {
    predicate Holds() {
      Test? || Claim? || Unlock? || TestBack? || HandBack? || UnlockBack?
    }

    /** Between winning the role and handing it back. */
    predicate Serves() {
      (Unlock? && dispatch) || Dispatch? || LockBack? || TestBack? || HandBack?
    }
  }

  datatype State = State(hasIo: int, owner: Option<nat>, pcs: seq<Pc>)

  /** `has_io`: what the static variable becomes, which is also what the call returns. */
  function HasIo(ret: int, io: int): int {
    if io != 0 then io else ret
  }

  /** One statement of thread `t`; `forcedExit` is what it finds there. */
  ghost predicate Step(s: State, s': State, t: nat, forcedExit: bool) {
    t < |s.pcs| &&
    match s.pcs[t]
    case Loop => s' == At(s, t, if forcedExit then Left else Glance)
    case Glance => s' == At(s, t, if HasIo(s.hasIo, 0) < 0 then Lock else Work)
    case Lock => s.owner.None? && s' == At(s, t, Test).(owner := Some(t))
    case Test => s' == At(s, t, if HasIo(s.hasIo, 0) < 0 then Claim else Unlock(false))
    case Claim => s' == At(s, t, Unlock(true)).(hasIo := HasIo(s.hasIo, 1))
    case Unlock(dispatch) => s' == At(s, t, if dispatch then Dispatch else Work).(owner := None)
    case Dispatch => s' == At(s, t, LockBack)
    case LockBack => s.owner.None? && s' == At(s, t, TestBack).(owner := Some(t))
    case TestBack => s' == At(s, t, if HasIo(s.hasIo, 0) != 0 then HandBack else UnlockBack)
    case HandBack => s' == At(s, t, UnlockBack).(hasIo := HasIo(s.hasIo, -1))
    case UnlockBack => s' == At(s, t, Loop).(owner := None)
    case Work => s' == At(s, t, Loop)
    case Left => false
  }

  function At(s: State, t: nat, pc: Pc): State
    requires t < |s.pcs|
  {
    s.(pcs := s.pcs[t := pc])
  }

  ghost predicate Init(s: State) {
    s.hasIo == -1 && s.owner.None? && forall t :: 0 <= t < |s.pcs| ==> s.pcs[t] == Loop
  }

  ghost predicate MutexInv(s: State) {
    && (s.owner.Some? ==> s.owner.value < |s.pcs|)
    && (forall t :: 0 <= t < |s.pcs| ==> (s.pcs[t].Holds() <==> s.owner == Some(t)))
  }

  /** At most one thread serves, the flag says whether one does, and a thread about to
  claim the role will find it free. */
  ghost predicate RoleInv(s: State) {
    && (s.hasIo == -1 || s.hasIo == 1)
    && (forall t, u :: 0 <= t < u < |s.pcs| ==> !(s.pcs[t].Serves() && s.pcs[u].Serves()))
    && (s.hasIo == 1 <==> exists t :: 0 <= t < |s.pcs| && s.pcs[t].Serves())
    && (forall t :: 0 <= t < |s.pcs| && s.pcs[t].Claim? ==> s.hasIo == -1)
  }

  lemma StepKeepsMutex(s: State, s': State, t: nat, forcedExit: bool)
    requires MutexInv(s) && Step(s, s', t, forcedExit)
    ensures MutexInv(s')
  {
  }

  /** Only winning and handing back touch the role, and only winners win. */
  lemma StepEffect(s: State, s': State, t: nat, forcedExit: bool)
    requires Step(s, s', t, forcedExit)
    ensures t < |s.pcs| == |s'.pcs|
    ensures forall u :: 0 <= u < |s.pcs| && u != t ==> s'.pcs[u] == s.pcs[u]
    ensures s.pcs[t].Claim? ==> s'.hasIo == 1 && s'.pcs[t].Serves()
    ensures s.pcs[t].HandBack? ==> s'.hasIo == -1 && !s'.pcs[t].Serves() && !s'.pcs[t].Claim?
    ensures !s.pcs[t].Claim? && !s.pcs[t].HandBack? ==>
      s'.hasIo == s.hasIo && ((s.pcs[t].TestBack? && s.hasIo == 0) || (s'.pcs[t].Serves() <==> s.pcs[t].Serves()))
    ensures s'.pcs[t].Claim? ==> s.hasIo < 0 && s.pcs[t].Test?
  {
  }

  lemma StepKeepsRole(s: State, s': State, t: nat, forcedExit: bool)
    requires MutexInv(s) && RoleInv(s) && Step(s, s', t, forcedExit)
    ensures RoleInv(s')
  {
    hide Step;
    StepEffect(s, s', t, forcedExit);
    if s.pcs[t].Claim? {
      assert s'.pcs[t].Serves();
    } else if s.pcs[t].HandBack? {
      assert s.pcs[t].Serves();
    } else if s.hasIo == 1 {
      var u :| 0 <= u < |s.pcs| && s.pcs[u].Serves();
      assert s'.pcs[u].Serves();
    }
  }

  ghost predicate Run(ss: seq<State>, ts: seq<(nat, bool)>) {
    && |ss| == |ts| + 1 && Init(ss[0])
    && (forall i :: 0 <= i < |ts| ==> Step(ss[i], ss[i + 1], ts[i].0, ts[i].1))
  }

  lemma {:induction false} RunKeepsInv(ss: seq<State>, ts: seq<(nat, bool)>)
    requires Run(ss, ts)
    ensures MutexInv(ss[|ts|]) && RoleInv(ss[|ts|])
  {
    if |ts| > 0 {
      var n := |ts| - 1;
      RunKeepsInv(ss[..n + 1], ts[..n]);
      StepKeepsMutex(ss[n], ss[n + 1], ts[n].0, ts[n].1);
      StepKeepsRole(ss[n], ss[n + 1], ts[n].0, ts[n].1);
    }
  }

  /** However the threads interleave, at most one has the role, the shared flag is 1 exactly
  when one has it and -1 otherwise, and a thread on its way to hand the role back finds
  the flag set. */
  lemma AtMostOneDispatcher(ss: seq<State>, ts: seq<(nat, bool)>)
    requires Run(ss, ts)
    ensures var s := ss[|ts|];
      && (forall t, u :: 0 <= t < |s.pcs| && 0 <= u < |s.pcs| && s.pcs[t].Serves() && s.pcs[u].Serves() ==> t == u)
      && s.hasIo == (if exists t :: 0 <= t < |s.pcs| && s.pcs[t].Serves() then 1 else -1)
      && (forall t :: 0 <= t < |s.pcs| && s.pcs[t].TestBack? ==> HasIo(s.hasIo, 0) != 0)
  {
    RunKeepsInv(ss, ts);
  }

  /** Once every thread has left, the role and the lock are free. */
  lemma RoleIsFreeAtTheEnd(ss: seq<State>, ts: seq<(nat, bool)>)
    requires Run(ss, ts)
    requires forall t :: 0 <= t < |ss[|ts|].pcs| ==> ss[|ts|].pcs[t].Left?
    ensures ss[|ts|].hasIo == -1 && ss[|ts|].owner.None?
  {
    RunKeepsInv(ss, ts);
  }

  // ----- what a thread can do on its own

  /** Thread `t` takes `n` steps and no other takes any. */
  ghost predicate Alone(s: State, s': State, t: nat, n: nat)
    decreases n
  {
    if n == 0 then s' == s else exists u :: Step(s, u, t, false) && Alone(u, s', t, n - 1)
  }

  lemma AloneStep(s: State, u: State, s': State, t: nat, n: nat)
    requires Step(s, u, t, false) && Alone(u, s', t, n)
    ensures Alone(s, s', t, n + 1)
  {
  }

  lemma AloneNow(s: State, t: nat)
    ensures Alone(s, s, t, 0)
  {
  }

  /** When the role is free, a thread that is let run wins it. */
  lemma FreeRoleIsWon(s: State, t: nat)
    requires t < |s.pcs| && s.pcs[t] == Loop && s.owner.None? && s.hasIo == -1
    ensures Alone(s, At(s, t, Dispatch).(hasIo := 1), t, 6)
  {
    hide Alone;
    var inside := s.(owner := Some(t));
    var won := s.(hasIo := 1);
    AloneNow(At(won, t, Dispatch), t);
    AloneStep(At(won.(owner := Some(t)), t, Unlock(true)), At(won, t, Dispatch), At(won, t, Dispatch), t, 0);
    AloneStep(At(inside, t, Claim), At(won.(owner := Some(t)), t, Unlock(true)), At(won, t, Dispatch), t, 1);
    AloneStep(At(inside, t, Test), At(inside, t, Claim), At(won, t, Dispatch), t, 2);
    AloneStep(At(s, t, Lock), At(inside, t, Test), At(won, t, Dispatch), t, 3);
    AloneStep(At(s, t, Glance), At(s, t, Lock), At(won, t, Dispatch), t, 4);
    AloneStep(s, At(s, t, Glance), At(won, t, Dispatch), t, 5);
  }

  /** When it is taken, the thread goes to the queued tasks. */
  lemma TakenRoleMeansWork(s: State, t: nat)
    requires t < |s.pcs| && s.pcs[t] == Loop && s.hasIo == 1
    ensures Alone(s, At(s, t, Work), t, 2)
  {
    hide Alone;
    AloneNow(At(s, t, Work), t);
    AloneStep(At(s, t, Glance), At(s, t, Work), At(s, t, Work), t, 0);
    AloneStep(s, At(s, t, Glance), At(s, t, Work), t, 1);
  }

  /** A dispatcher that is let run hands the role back. */
  lemma RoleIsHandedBack(s: State, t: nat)
    requires t < |s.pcs| && s.pcs[t] == Dispatch && s.owner.None? && s.hasIo == 1
    ensures Alone(s, At(s, t, Loop).(hasIo := -1), t, 5)
  {
    hide Alone;
    var inside, free := s.(owner := Some(t)), s.(hasIo := -1);
    AloneNow(At(free, t, Loop), t);
    AloneStep(At(free.(owner := Some(t)), t, UnlockBack), At(free, t, Loop), At(free, t, Loop), t, 0);
    AloneStep(At(inside, t, HandBack), At(free.(owner := Some(t)), t, UnlockBack), At(free, t, Loop), t, 1);
    AloneStep(At(inside, t, TestBack), At(inside, t, HandBack), At(free, t, Loop), t, 2);
    AloneStep(At(s, t, LockBack), At(inside, t, TestBack), At(free, t, Loop), t, 3);
    AloneStep(s, At(s, t, LockBack), At(free, t, Loop), t, 4);
  }
}
