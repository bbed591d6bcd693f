/** Parent and child around one `vfork_exec` or `vfork_exec_redirected` call: the system in
    which the trampolines run. */
module Vfork {
  import opened Base
  import opened FdTable
  import opened Programs
  import opened Machine
  import opened Trampolines
  import opened X86Child
  import opened Runs
  import WaitStatus

  const CLONE_VM := 0x100
  const CLONE_FILES := 0x400
  const CLONE_VFORK := 0x4000
  const SIGCHLD := 17

  /** The flags both wrappers pass. */
  const FLAGS: u64 := CLONE_VFORK + CLONE_VM + SIGCHLD

  predicate HasFlag(flags: u64, bit: int)
    requires bit > 0
  {
    flags / bit % 2 == 1
  }

  /** `shared`: the two processes have one descriptor table (CLONE_FILES). */
  datatype System = System(parent: Task, child: Option<Task>, shared: bool)

  predicate Clones(w: World, t: Task) {
    && t.Valid() && t.Enabled() && w.code(t.pc) == Syscall
    && Decode(w.isa, t.regs[NumberReg(w.isa)]) == Clone
  }

  /** `clone(flags, 0, ...)`: on success the child starts with result 0 and a copy of the
      parent's registers and descriptors, and CLONE_VFORK suspends the parent. */
  function CloneStep(w: World, s: System): System
    requires w.Valid() && Clones(w, s.parent)
  {
    if w.cloneErr != 0 then s.(parent := Return(w, s.parent, Negated(w.cloneErr)))
    else
      var flags := s.parent.regs[Arg0(w.isa)];
      var p := Return(w, s.parent, w.pid);
      System(if HasFlag(flags, CLONE_VFORK) then p.(status := Suspended) else p,
             Some(Return(w, s.parent, 0)),
             HasFlag(flags, CLONE_FILES))
  }

  predicate ParentMoves(w: World, s: System, s': System)
    requires w.Valid()
  {
    && s.parent.Valid() && s.parent.Enabled()
    && s' == if Clones(w, s.parent) && s.child.None? then CloneStep(w, s)
             else s.(parent := Step(w, s.parent))
  }

  /** The child's `execve` or exit wakes a suspended parent. */
  function AfterChild(w: World, s: System): System
    requires w.Valid() && s.child.Some? && s.child.value.Valid() && s.child.value.Enabled()
  {
    var c := Step(w, s.child.value);
    var woken := if s.parent.status.Suspended? && !c.status.Running? then s.parent.(status := Running)
                 else s.parent;
    System(if s.shared then woken.(table := c.table) else woken, Some(c), s.shared)
  }

  predicate ChildMoves(w: World, s: System, s': System)
    requires w.Valid()
  {
    && s.child.Some? && s.child.value.Valid() && s.child.value.Enabled()
    && s' == AfterChild(w, s)
  }

  /** Either process may be scheduled whenever it can run. */
  function Schedules(w: World): (System, System) -> bool
    requires w.Valid()
  {
    (s: System, s': System) => ParentMoves(w, s, s') || ChildMoves(w, s, s')
  }

  /** The operand constraints of the asm blocks, in the calling process. */
  ghost predicate Enters(w: World, p: Task) {
    && p.Valid() && p.pc == 0 && p.status == Running
    && p.regs[NumberReg(w.isa)] == (if w.isa.Aarch64? then 220 else 56)
    && p.regs[Arg0(w.isa)] == FLAGS
  }

  /** The call can be made: `vfork_exec` takes no list. */
  ghost predicate Callable(w: World, p: Task, a: Args) {
    && w.Valid() && w.Holds(w.routine) && Enters(w, p)
    && if w.routine.Plain? then Operands(w.isa, p, a) && a.redirects == []
       else Loaded(w.isa, p, a) && Stored(w.mem, a.addr, a.redirects)
  }

  /** Whether the child goes through with the redirects it looks at, and what it leaves behind:
      the documented effect of the list, except in the x86_64 loop. */
  predicate Redirects(w: World, p0: Task, a: Args)
    requires w.Valid()
  {
    if Loops(w) then
      First(From(a.redirects, Back(w))) == [] && Apply(w.kernel, p0.table, First(a.redirects), p0.calls).ok
    else Apply(w.kernel, p0.table, a.redirects, p0.calls).ok
  }

  predicate Loops(w: World) {
    w.isa == X86_64 && w.routine == Redirecting
  }

  function EndOf(w: World, p0: Task, a: Args): End
    requires w.Valid()
  {
    if Loops(w) then X86End(w.kernel, p0.table, a.redirects, Back(w), p0.calls, w.execErr, a)
    else Intended(w.kernel, p0.table, a.redirects, p0.calls, w.execErr, a)
  }

  /** Whether the child goes round without end. */
  predicate Spins(w: World, p0: Task, a: Args)
    requires w.Valid()
  {
    Loops(w) && Endless(w.kernel, p0.table, a.redirects, Back(w), p0.calls)
  }

  /** The parent between the return of `clone` and the end of the asm block. */
  predicate Returning(w: World, p0: Task, p: Task, ret: u64) {
    && p.Valid() && p.status == Running && p.table == p0.table && p.regs[0] == ret && ret != 0
    && (p.pc == 1 || p.pc == END || (w.isa.X86_64? && p.pc == 2 && !p.flags.eq))
  }

  predicate Waiting(w: World, p0: Task, p: Task) {
    p.status == Suspended && Returning(w, p0, p.(status := Running), w.pid) && p.pc == 1
  }

  /** What every step of the system keeps. */
  ghost predicate Inv(w: World, p0: Task, s: System)
    requires w.Valid() && p0.Valid() && p0.pc == 0
  {
    && !s.shared
    && match s.child
       case None => s.parent == p0 || (w.cloneErr != 0 && Returning(w, p0, s.parent, Negated(w.cloneErr)))
       case Some(c) =>
         && w.cloneErr == 0 && c.Valid() && Leads(w, Return(w, p0, 0), c)
         && if c.status.Running? then Waiting(w, p0, s.parent) else Returning(w, p0, s.parent, w.pid)
  }

  lemma CloneKeeps(w: World, p0: Task, a: Args, s: System, s': System)
    requires Callable(w, p0, a) && Inv(w, p0, s) && s.child.None? && s.parent == p0
    requires ParentMoves(w, s, s')
    ensures Inv(w, p0, s')
  {
    assert Clones(w, p0);
    assert FLAGS == 0x4111 && HasFlag(FLAGS, CLONE_VFORK) && !HasFlag(FLAGS, CLONE_FILES);
    ReachesHere(Executes(w), Return(w, p0, 0));
  }

  lemma ReturnKeeps(w: World, p0: Task, p: Task, ret: u64)
    requires w.Valid() && w.Holds(w.routine) && Returning(w, p0, p, ret) && p.Enabled()
    ensures !Clones(w, p) && Returning(w, p0, Step(w, p), ret)
  {
    assert p.pc == 1 || p.pc == 2;
  }

  lemma ChildKeeps(w: World, p0: Task, s: System, s': System)
    requires w.Valid() && p0.Valid() && p0.pc == 0 && Inv(w, p0, s) && ChildMoves(w, s, s')
    ensures Inv(w, p0, s')
  {
    var c := s.child.value;
    ReachesNext(Executes(w), Return(w, p0, 0), c, Step(w, c));
  }

  lemma InvKept(w: World, p0: Task, a: Args, s: System, s': System)
    requires Callable(w, p0, a) && Inv(w, p0, s) && Schedules(w)(s, s')
    ensures Inv(w, p0, s')
  {
    if ChildMoves(w, s, s') {
      ChildKeeps(w, p0, s, s');
    } else if s.child.None? && s.parent == p0 {
      CloneKeeps(w, p0, a, s, s');
    } else {
      ReturnKeeps(w, p0, s.parent, if s.child.None? then Negated(w.cloneErr) else w.pid);
    }
  }

  predicate ChildRunning(s: System) {
    s.child.Some? && s.child.value.status.Running?
  }

  /** In every run, at every moment: the parent's descriptors are what they were, and while
      the child has neither exec'd nor exited the parent cannot take a step. */
  lemma ParentUntouched(w: World, p0: Task, a: Args, ss: seq<System>, k: nat)
    requires Callable(w, p0, a) && IsRun(Schedules(w), ss) && ss[0] == System(p0, None, false) && k < |ss|
    ensures ss[k].parent.table == p0.table
    ensures ChildRunning(ss[k]) ==> !ss[k].parent.Enabled()
    ensures Inv(w, p0, ss[k])
  {
    var inv := (s: System) => Inv(w, p0, s);
    forall s, s' | inv(s) && Schedules(w)(s, s') ensures inv(s') {
      InvKept(w, p0, a, s, s');
    }
    AlongRun(Schedules(w), inv, ss, k);
  }

  /** A child that does not spin ends, and in one way only. */
  lemma ChildEnd(w: World, p0: Task, a: Args) returns (u: Task)
    requires Callable(w, p0, a) && !Spins(w, p0, a)
    ensures Leads(w, Return(w, p0, 0), u) && !u.status.Running? && Stuck(Executes(w), u)
    ensures End(u.status, u.table) == EndOf(w, p0, a)
    ensures forall v | Ends(w, Return(w, p0, 0), v) :: v == u
  {
    var c0 := Return(w, p0, 0);
    if w.routine.Plain? {
      u := PlainChild(w, c0, a);
    } else if w.isa.Aarch64? {
      u := ArmChild(w, c0, a);
    } else {
      u := EndsSo(w, c0, a);
    }
    ExecutionIsDeterministic(w);
    forall v | Ends(w, c0, v) ensures v == u {
      OneEnd(Executes(w), c0, v, u);
    }
  }

  lemma SpinningChild(w: World, p0: Task, a: Args, u: Task)
    requires Callable(w, p0, a) && Spins(w, p0, a)
    ensures !Ends(w, Return(w, p0, 0), u)
  {
    assert Begins(w, Return(w, p0, 0), a);
    NeverGetsStuck(w, Return(w, p0, 0), a, u);
  }

  lemma ParentDone(w: World, p0: Task, p: Task, ret: u64)
    requires w.Valid() && Returning(w, p0, p, ret) && !p.Enabled()
    ensures p.pc == END && p.regs[0] == ret
    ensures 0 <= ret < 0x8000_0000 ==> FromRetI32(ret) == Ok(ret)
    ensures forall e | 1 <= e <= 4095 && ret == Negated(e) :: FromRetI32(ret) == Err(Errno(e))
  {
  }

  lemma EndedChild(w: World, p0: Task, a: Args, c: Task)
    requires Callable(w, p0, a) && Ends(w, Return(w, p0, 0), c)
    ensures !Spins(w, p0, a) && !c.status.Running? && End(c.status, c.table) == EndOf(w, p0, a)
  {
    if Spins(w, p0, a) {
      SpinningChild(w, p0, a, c);
    } else {
      var u := ChildEnd(w, p0, a);
    }
  }

  /** When a run of the system can go no further, the parent has left the asm block with the
      child's pid (or clone's error), and the child has ended in its one way. */
  lemma RunsEndAsDocumented(w: World, p0: Task, a: Args, ss: seq<System>)
    requires Callable(w, p0, a) && IsRun(Schedules(w), ss) && ss[0] == System(p0, None, false)
    requires Stuck(Schedules(w), ss[|ss| - 1])
    ensures var s := ss[|ss| - 1];
            && s.parent.Valid() && s.parent.pc == END
            && if w.cloneErr != 0 then
                 s.child.None? && FromRetI32(s.parent.regs[0]) == Err(Errno(w.cloneErr))
               else
                 && FromRetI32(s.parent.regs[0]) == Ok(w.pid)
                 && s.child.Some? && !Spins(w, p0, a)
                 && End(s.child.value.status, s.child.value.table) == EndOf(w, p0, a)
  {
    var s := ss[|ss| - 1];
    ParentUntouched(w, p0, a, ss, |ss| - 1);
    StuckMeansDisabled(w, s);
    if s.child.Some? {
      EndedChild(w, p0, a, s.child.value);
      ParentDone(w, p0, s.parent, w.pid);
    } else {
      ParentDone(w, p0, s.parent, Negated(w.cloneErr));
    }
  }

  /** Whoever is enabled can be scheduled. */
  lemma SomeoneMoves(w: World, s: System) returns (s': System)
    requires w.Valid() && s.parent.Valid() && (s.child.Some? ==> s.child.value.Valid())
    requires s.parent.Enabled() || (s.child.Some? && s.child.value.Enabled())
    ensures Schedules(w)(s, s')
  {
    s' := if s.parent.Enabled() then
            (if Clones(w, s.parent) && s.child.None? then CloneStep(w, s) else s.(parent := Step(w, s.parent)))
          else AfterChild(w, s);
    assert ParentMoves(w, s, s') || ChildMoves(w, s, s');
  }

  lemma StuckMeansDisabled(w: World, s: System)
    requires w.Valid() && s.parent.Valid() && (s.child.Some? ==> s.child.value.Valid())
    requires Stuck(Schedules(w), s)
    ensures !s.parent.Enabled()
    ensures s.child.Some? ==> Stuck(Executes(w), s.child.value)
  {
    if s.parent.Enabled() || (s.child.Some? && s.child.value.Enabled()) {
      var s' := SomeoneMoves(w, s);
    }
  }

  /** The system with the parent asleep until the child is done. */
  function Beside(p: Task, c: Task): System {
    System(if c.status.Running? then p else p.(status := Running), Some(c), false)
  }

  lemma {:induction false} ChildRunLifts(w: World, p: Task, ts: seq<Task>, k: nat)
    requires w.Valid() && p.status == Suspended && IsRun(Executes(w), ts) && k < |ts| && ts[0].status.Running?
    ensures Reaches(Schedules(w), Beside(p, ts[0]), Beside(p, ts[k]))
  {
    if k == 0 {
      ReachesHere(Schedules(w), Beside(p, ts[0]));
    } else {
      ChildRunLifts(w, p, ts, k - 1);
      assert Link(Executes(w), ts, k - 1);
      assert Beside(p, ts[k]) == AfterChild(w, Beside(p, ts[k - 1]));
      assert ChildMoves(w, Beside(p, ts[k - 1]), Beside(p, ts[k]));
      ReachesNext(Schedules(w), Beside(p, ts[0]), Beside(p, ts[k - 1]), Beside(p, ts[k]));
    }
  }

  /** A parent on its way out of the asm block gets there. */
  lemma ParentLeaves(w: World, p0: Task, s: System, ret: u64) returns (s': System)
    requires w.Valid() && w.Holds(w.routine) && Returning(w, p0, s.parent, ret) && (s.child.Some? ==> !s.child.value.Enabled())
    ensures Reaches(Schedules(w), s, s') && s'.child == s.child && Stuck(Schedules(w), s')
    decreases END - s.parent.pc
  {
    if s.parent.pc == END {
      ReachesHere(Schedules(w), s);
      s' := s;
    } else {
      ReturnKeeps(w, p0, s.parent, ret);
      var m := s.(parent := Step(w, s.parent));
      assert m.parent.pc > s.parent.pc;
      assert ParentMoves(w, s, m);
      ReachesHere(Schedules(w), s);
      ReachesNext(Schedules(w), s, s, m);
      s' := ParentLeaves(w, p0, m, ret);
      ReachesOn(Schedules(w), s, m, s');
    }
  }

  /** The child runs to its end beside the sleeping parent and wakes it. */
  lemma ChildCompletes(w: World, p0: Task, p: Task, c: Task, u: Task) returns (s: System)
    requires w.Valid() && Waiting(w, p0, p) && c.status.Running? && Leads(w, c, u) && !u.status.Running?
    ensures Reaches(Schedules(w), System(p, Some(c), false), s)
    ensures s.child.Some? && !s.child.value.Enabled() && Returning(w, p0, s.parent, w.pid)
  {
    var ts :| IsRun(Executes(w), ts) && ts[0] == c && ts[|ts| - 1] == u;
    ChildRunLifts(w, p, ts, |ts| - 1);
    s := Beside(p, u);
  }

  /** The system reaches a state where nothing is left to run. */
  lemma CanComplete(w: World, p0: Task, a: Args) returns (s: System)
    requires Callable(w, p0, a) && (w.cloneErr != 0 || !Spins(w, p0, a))
    ensures Reaches(Schedules(w), System(p0, None, false), s) && Stuck(Schedules(w), s)
  {
    var s0 := System(p0, None, false);
    assert Clones(w, p0);
    var s1 := CloneStep(w, s0);
    assert ParentMoves(w, s0, s1);
    ReachesHere(Schedules(w), s0);
    ReachesNext(Schedules(w), s0, s0, s1);
    CloneKeeps(w, p0, a, s0, s1);
    if w.cloneErr != 0 {
      s := ParentLeaves(w, p0, s1, Negated(w.cloneErr));
    } else {
      var u := ChildEnd(w, p0, a);
      var s2 := ChildCompletes(w, p0, s1.parent, Return(w, p0, 0), u);
      ReachesOn(Schedules(w), s0, s1, s2);
      s1 := s2;
      s := ParentLeaves(w, p0, s2, w.pid);
    }
    ReachesOn(Schedules(w), s0, s1, s);
  }

  // ---- there is only one run ----

  /** Steps from states that satisfy the invariant. */
  ghost function Proper(w: World, p0: Task): (System, System) -> bool
    requires w.Valid() && p0.Valid() && p0.pc == 0
  {
    (s: System, s': System) => Inv(w, p0, s) && Schedules(w)(s, s')
  }

  lemma OneMoves(w: World, p0: Task, s: System, s': System)
    requires w.Valid() && p0.Valid() && p0.pc == 0 && Inv(w, p0, s) && Schedules(w)(s, s')
    ensures if ChildRunning(s) then ChildMoves(w, s, s') else ParentMoves(w, s, s')
  {
    if ChildRunning(s) {
      assert Waiting(w, p0, s.parent);
    }
  }

  /** At most one of the two processes can move, and a process moves in one way. */
  lemma ProperIsDeterministic(w: World, p0: Task)
    requires w.Valid() && p0.Valid() && p0.pc == 0
    ensures Deterministic(Proper(w, p0))
  {
    forall s, t, u | Proper(w, p0)(s, t) && Proper(w, p0)(s, u) ensures t == u {
      OneMoves(w, p0, s, t);
      OneMoves(w, p0, s, u);
    }
  }

  lemma RunsAreProper(w: World, p0: Task, a: Args, ss: seq<System>)
    requires Callable(w, p0, a) && IsRun(Schedules(w), ss) && ss[0] == System(p0, None, false)
    ensures IsRun(Proper(w, p0), ss)
  {
    forall i | 0 <= i < |ss| - 1 ensures Link(Proper(w, p0), ss, i) {
      ParentUntouched(w, p0, a, ss, i);
      assert Link(Schedules(w), ss, i);
    }
  }

  /** Every call whose child does not spin completes: there is a finished run, and every other
      run, however scheduled, is a part of it. */
  lemma CallCompletes(w: World, p0: Task, a: Args) returns (full: seq<System>)
    requires Callable(w, p0, a) && (w.cloneErr != 0 || !Spins(w, p0, a))
    ensures IsRun(Schedules(w), full) && full[0] == System(p0, None, false)
    ensures Stuck(Schedules(w), full[|full| - 1])
    ensures forall ss | IsRun(Schedules(w), ss) && ss[0] == full[0] :: ss <= full
  {
    var s := CanComplete(w, p0, a);
    full :| IsRun(Schedules(w), full) && full[0] == System(p0, None, false) && full[|full| - 1] == s;
    RunsAreProper(w, p0, a, full);
    ProperIsDeterministic(w, p0);
    forall ss | IsRun(Schedules(w), ss) && ss[0] == full[0] ensures ss <= full {
      RunsAreProper(w, p0, a, ss);
      var rest := PassesThrough(Proper(w, p0), full, ss);
      forall k | 0 <= k < |ss| ensures ss[k] == full[k] {
        SameRun(Proper(w, p0), ss, full, k);
      }
    }
  }

  /** A call whose child spins never returns: no run comes to an end, and once the child is
      there the parent is asleep for good. */
  lemma SpinningCallHangs(w: World, p0: Task, a: Args, ss: seq<System>)
    requires Callable(w, p0, a) && w.cloneErr == 0 && Spins(w, p0, a)
    requires IsRun(Schedules(w), ss) && ss[0] == System(p0, None, false)
    ensures !Stuck(Schedules(w), ss[|ss| - 1])
    ensures ss[|ss| - 1].child.Some? ==> ss[|ss| - 1].parent.status == Suspended
  {
    if Stuck(Schedules(w), ss[|ss| - 1]) {
      RunsEndAsDocumented(w, p0, a, ss);
    }
    ParentUntouched(w, p0, a, ss, |ss| - 1);
    if ss[|ss| - 1].child.Some? {
      SleepsOn(w, p0, a, ss[|ss| - 1]);
    }
  }

  lemma SleepsOn(w: World, p0: Task, a: Args, s: System)
    requires Callable(w, p0, a) && Spins(w, p0, a) && Inv(w, p0, s) && s.child.Some?
    ensures s.parent.status == Suspended
  {
    if !s.child.value.status.Running? {
      SpinningChild(w, p0, a, s.child.value);
    }
    assert Waiting(w, p0, s.parent);
  }

  /** What `waitpid` shows of the child once a run has ended: it exec'd, or it exited with 126
      exactly when a redirect failed and 127 exactly when they all held and `execve` did not. */
  lemma FailuresAreTellable(w: World, p0: Task, a: Args, ss: seq<System>)
    requires Callable(w, p0, a) && IsRun(Schedules(w), ss) && ss[0] == System(p0, None, false)
    requires Stuck(Schedules(w), ss[|ss| - 1]) && w.cloneErr == 0
    ensures var s := ss[|ss| - 1];
            && s.child.Some?
            && (s.child.value.status.Execed? <==> Redirects(w, p0, a) && w.execErr == 0)
            && (!s.child.value.status.Execed? ==>
                  && s.child.value.status.Exited?
                  && var status := WaitStatus.Encode(WaitStatus.Exit(s.child.value.status.code));
                     && WaitStatus.IfExited(status) && !WaitStatus.IfSignaled(status)
                     && (WaitStatus.ExitStatus(status) == 126 <==> !Redirects(w, p0, a))
                     && (WaitStatus.ExitStatus(status) == 127 <==> Redirects(w, p0, a) && w.execErr != 0))
  {
    RunsEndAsDocumented(w, p0, a, ss);
    var status := ss[|ss| - 1].child.value.status;
    if status.Exited? {
      WaitStatus.Decodes(WaitStatus.Exit(status.code));
    }
  }
}
