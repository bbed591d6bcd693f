/** The two `vfork_execve_redirected` register programs and what their child does. */
module Trampolines {
  import opened Base
  import opened FdTable
  import opened Machine
  import opened Programs
  import opened Runs

  /** The operands of one call: C pointers, the redirect array and where it lies. */
  datatype Args = Args(path: u64, argv: u64, envp: u64, addr: u64, redirects: seq<Redirect>)

  /** How a child ends: replaced by the new image or exited, with which descriptors. */
  datatype End = End(status: Status, table: Table)

  /** What `vfork_exec_redirected` documents for the list `rs`. */
  function Intended(k: Kernel, t: Table, rs: seq<Redirect>, calls: nat, execErr: int, a: Args): End {
    var done := Apply(k, t, rs, calls);
    if !done.ok then End(Exited(126), done.table)
    else if execErr != 0 then End(Exited(127), done.table)
    else End(Execed(a.path, a.argv, a.envp), CloseOnExec(done.table))
  }

  // ---- one more instruction of a run that started at `t`, kind by kind ----

  ghost predicate Poised(w: World, t: Task, u: Task, pc: nat) {
    w.Valid() && u.Valid() && u.Enabled() && u.pc == pc && Leads(w, t, u)
  }

  lemma DoMov(w: World, t: Task, u: Task, pc: nat, d: Reg, s: Reg) returns (v: Task)
    requires Poised(w, t, u, pc) && w.code(pc) == Mov(d, s)
    ensures v == u.Write(d, u.regs[s]) && Leads(w, t, v)
  {
    v := Step(w, u);
    ReachesNext(Executes(w), t, u, v);
  }

  lemma DoImm(w: World, t: Task, u: Task, pc: nat, d: Reg, imm: u64) returns (v: Task)
    requires Poised(w, t, u, pc) && w.code(pc) == MovImm(d, imm)
    ensures v == u.Write(d, imm) && Leads(w, t, v)
  {
    v := Step(w, u);
    ReachesNext(Executes(w), t, u, v);
  }

  lemma DoInc(w: World, t: Task, u: Task, pc: nat, d: Reg) returns (v: Task)
    requires Poised(w, t, u, pc) && w.code(pc) == Inc(d)
    ensures v == u.Write(d, Succ(u.regs[d])) && Leads(w, t, v)
  {
    v := Step(w, u);
    ReachesNext(Executes(w), t, u, v);
  }

  lemma DoAddScaled(w: World, t: Task, u: Task, pc: nat, d: Reg, b: Reg, i: Reg) returns (v: Task)
    requires Poised(w, t, u, pc) && w.code(pc) == AddScaled(d, b, i)
    ensures v == u.Write(d, Address(u.regs[b], u.regs[i], 0)) && Leads(w, t, v)
  {
    v := Step(w, u);
    ReachesNext(Executes(w), t, u, v);
  }

  /** The flags a comparison leaves. */
  function FlagsOf(t: Task, insn: Insn): Flags
    requires t.Valid() && (insn.Cmp? || insn.CmpW? || insn.CmpZero?)
  {
    match insn
    case Cmp(a, b) => Compare(t.regs[a], t.regs[b])
    case CmpW(a, b) => Compare(Low(t.regs[a]), Low(t.regs[b]))
    case CmpZero(a) => Compare(t.regs[a], 0)
  }

  lemma DoCompare(w: World, t: Task, pc: nat, insn: Insn) returns (v: Task)
    requires w.Valid() && t.Valid() && t.status == Running && t.pc == pc && pc < END
    requires w.code(pc) == insn && (insn.Cmp? || insn.CmpW? || insn.CmpZero?)
    ensures Leads(w, t, v) && v == t.(flags := FlagsOf(t, insn), pc := pc + 1)
  {
    ReachesHere(Executes(w), t);
    v := Step(w, t);
    ReachesNext(Executes(w), t, t, v);
  }

  lemma DoBranch(w: World, t: Task, u: Task, pc: nat, c: Cond, target: nat) returns (v: Task)
    requires Poised(w, t, u, pc) && w.code(pc) == Branch(c, target)
    ensures v == u.(pc := if Taken(c, u.flags) then target else pc + 1) && Leads(w, t, v)
  {
    v := Step(w, u);
    ReachesNext(Executes(w), t, u, v);
  }

  /** A comparison and the conditional branch behind it. */
  lemma DoTest(w: World, t: Task, pc: nat, insn: Insn, c: Cond, target: nat) returns (v: Task)
    requires w.Valid() && t.Valid() && t.status == Running && t.pc == pc && pc + 1 < END
    requires w.code(pc) == insn && (insn.Cmp? || insn.CmpW? || insn.CmpZero?) && w.code(pc + 1) == Branch(c, target)
    ensures Leads(w, t, v)
    ensures v == t.(flags := FlagsOf(t, insn), pc := if Taken(c, FlagsOf(t, insn)) then target else pc + 2)
  {
    var u := DoCompare(w, t, pc, insn);
    v := DoBranch(w, t, u, pc + 1, c, target);
  }

  lemma DoBranchZero(w: World, t: Task, u: Task, pc: nat, a: Reg, target: nat) returns (v: Task)
    requires Poised(w, t, u, pc) && w.code(pc) == BranchZero(a, target)
    ensures v == u.(pc := if u.regs[a] == 0 then target else pc + 1) && Leads(w, t, v)
  {
    v := Step(w, u);
    ReachesNext(Executes(w), t, u, v);
  }

  lemma DoBranchNonZero(w: World, t: Task, u: Task, pc: nat, a: Reg, target: nat) returns (v: Task)
    requires Poised(w, t, u, pc) && w.code(pc) == BranchNonZero(a, target)
    ensures v == u.(pc := if u.regs[a] != 0 then target else pc + 1) && Leads(w, t, v)
  {
    v := Step(w, u);
    ReachesNext(Executes(w), t, u, v);
  }

  /** One more load, of a word that is mapped. */
  lemma DoLoad(w: World, t: Task, u: Task, pc: nat, d: Reg, x: u32) returns (v: Task)
    requires Poised(w, t, u, pc)
    requires match w.code(pc)
             case LoadZx(d', b, off) => d' == d && Load(w.mem, Address(u.regs[b], 0, off)) == Some(x)
             case LoadSx(d', b, i, off) => d' == d && Load(w.mem, Address(u.regs[b], u.regs[i], off)) == Some(x)
             case _ => false
    ensures v == u.Write(d, if w.code(pc).LoadSx? then SignExtend(x) else x) && Leads(w, t, v)
  {
    v := Step(w, u);
    ReachesNext(Executes(w), t, u, v);
  }

  /** One more system call, `call`, with what it does. */
  predicate Calls(w: World, u: Task, pc: nat, call: Sys) {
    && w.Valid() && u.Valid() && u.Enabled()
    && u.pc == pc && w.code(pc) == Syscall && Decode(w.isa, u.regs[NumberReg(w.isa)]) == call
  }

  lemma DoExit(w: World, t: Task, u: Task, pc: nat, code: byte) returns (v: Task)
    requires Calls(w, u, pc, ExitGroup) && Leads(w, t, u) && u.regs[Arg0(w.isa)] == code
    ensures v == u.(status := Exited(code)) && Leads(w, t, v)
  {
    v := Step(w, u);
    ReachesNext(Executes(w), t, u, v);
  }

  lemma DoExec(w: World, t: Task, u: Task, pc: nat, a: Args) returns (v: Task)
    requires Calls(w, u, pc, Execve) && Leads(w, t, u)
    requires u.regs[Arg0(w.isa)] == a.path && u.regs[Arg1(w.isa)] == a.argv && u.regs[Arg2(w.isa)] == a.envp
    ensures v.Valid() && Leads(w, t, v)
    ensures w.execErr == 0 ==> v.status == Execed(a.path, a.argv, a.envp) && v.table == CloseOnExec(u.table)
    ensures w.execErr != 0 ==> v.status == u.status && v.pc == u.pc + 1 && v.table == u.table
  {
    v := Step(w, u);
    ReachesNext(Executes(w), t, u, v);
  }

  lemma DoDup(w: World, t: Task, u: Task, pc: nat, call: Sys, oldfd: u32, newfd: u32) returns (v: Task)
    requires call == Dup3Call || call == Dup2Call
    requires Calls(w, u, pc, call) && Leads(w, t, u) && oldfd != newfd && (call == Dup3Call ==> u.regs[2] == 0)
    requires Low(u.regs[Arg0(w.isa)]) == oldfd && Low(u.regs[Arg1(w.isa)]) == newfd
    ensures v == Duplicate(w, u, Dup3(w.kernel, u.table, oldfd, newfd, u.calls)) && Leads(w, t, v)
  {
    v := Step(w, u);
    ReachesNext(Executes(w), t, u, v);
  }

  /** The registers the asm blocks pin their operands to. */
  function PathReg(isa: Isa): Reg { if isa.Aarch64? then 9 else 12 }

  predicate Operands(isa: Isa, t: Task, a: Args) {
    && t.Valid()
    && var r := PathReg(isa); t.regs[r] == a.path && t.regs[r + 1] == a.argv && t.regs[r + 2] == a.envp
  }

  predicate Loaded(isa: Isa, t: Task, a: Args) {
    && Operands(isa, t, a)
    && match isa
       case Aarch64 => t.regs[12] == a.addr && t.regs[13] == |a.redirects|
       case X86_64 => t.regs[15] == a.addr && t.regs[9] == |a.redirects|
  }

  // ---- the tails all blocks share ----

  /** `exit_group(code)` at `at`. */
  predicate ExitTail(w: World, at: nat, code: byte) {
    && at + 2 < END && w.code(at) == MovImm(NumberReg(w.isa), if w.isa.Aarch64? then 94 else 231)
    && w.code(at + 1) == MovImm(Arg0(w.isa), code) && w.code(at + 2) == Syscall
  }

  /** `execve(path, argv, envp)` at `at`. */
  predicate ExecTail(w: World, at: nat) {
    && w.code(at) == Mov(Arg0(w.isa), PathReg(w.isa)) && w.code(at + 1) == Mov(Arg1(w.isa), PathReg(w.isa) + 1)
    && w.code(at + 2) == Mov(Arg2(w.isa), PathReg(w.isa) + 2)
    && w.code(at + 3) == MovImm(NumberReg(w.isa), if w.isa.Aarch64? then 221 else 59)
    && w.code(at + 4) == Syscall && ExitTail(w, at + 5, 127)
  }

  lemma LoadsCode(w: World, t: Task, at: nat, code: byte) returns (u: Task)
    requires w.Valid() && ExitTail(w, at, code) && t.Valid() && t.status == Running && t.pc == at
    ensures Leads(w, t, u) && u.table == t.table && Calls(w, u, at + 2, ExitGroup) && u.regs[Arg0(w.isa)] == code
  {
    ReachesHere(Executes(w), t);
    if w.isa.Aarch64? {
      u := DoImm(w, t, t, at, 8, 94);
      u := DoImm(w, t, u, at + 1, 0, code);
    } else {
      u := DoImm(w, t, t, at, 0, 231);
      u := DoImm(w, t, u, at + 1, 7, code);
    }
  }

  lemma Exits(w: World, t: Task, at: nat, code: byte) returns (u: Task)
    requires w.Valid() && ExitTail(w, at, code) && t.Valid() && t.status == Running && t.pc == at
    ensures Leads(w, t, u) && End(u.status, u.table) == End(Exited(code), t.table)
  {
    u := LoadsCode(w, t, at, code);
    u := DoExit(w, t, u, at + 2, code);
  }

  lemma LoadsPath(w: World, t: Task, a: Args, at: nat) returns (u: Task)
    requires w.Valid() && ExecTail(w, at) && Operands(w.isa, t, a) && t.status == Running && t.pc == at
    ensures Leads(w, t, u) && Operands(w.isa, u, a) && u.status == Running && u.pc == at + 1 && u.table == t.table
    ensures u.regs[Arg0(w.isa)] == a.path
  {
    ReachesHere(Executes(w), t);
    u := DoMov(w, t, t, at, Arg0(w.isa), PathReg(w.isa));
  }

  lemma LoadsArgv(w: World, t: Task, a: Args, at: nat) returns (u: Task)
    requires w.Valid() && ExecTail(w, at) && Operands(w.isa, t, a) && t.status == Running && t.pc == at + 1
    requires t.regs[Arg0(w.isa)] == a.path
    ensures Leads(w, t, u) && Operands(w.isa, u, a) && u.status == Running && u.pc == at + 2 && u.table == t.table
    ensures u.regs[Arg0(w.isa)] == a.path && u.regs[Arg1(w.isa)] == a.argv
  {
    ReachesHere(Executes(w), t);
    u := DoMov(w, t, t, at + 1, Arg1(w.isa), PathReg(w.isa) + 1);
  }

  lemma LoadsEnvp(w: World, t: Task, a: Args, at: nat) returns (u: Task)
    requires w.Valid() && ExecTail(w, at) && Operands(w.isa, t, a) && t.status == Running && t.pc == at + 2
    requires t.regs[Arg0(w.isa)] == a.path && t.regs[Arg1(w.isa)] == a.argv
    ensures Leads(w, t, u) && u.Valid() && u.status == Running && u.pc == at + 3 && u.table == t.table
    ensures u.regs[Arg0(w.isa)] == a.path && u.regs[Arg1(w.isa)] == a.argv && u.regs[Arg2(w.isa)] == a.envp
  {
    ReachesHere(Executes(w), t);
    u := DoMov(w, t, t, at + 2, Arg2(w.isa), PathReg(w.isa) + 2);
  }

  lemma LoadsNumber(w: World, t: Task, a: Args, at: nat) returns (u: Task)
    requires w.Valid() && ExecTail(w, at) && t.Valid() && t.status == Running && t.pc == at + 3
    requires t.regs[Arg0(w.isa)] == a.path && t.regs[Arg1(w.isa)] == a.argv && t.regs[Arg2(w.isa)] == a.envp
    ensures Leads(w, t, u) && u.table == t.table && Calls(w, u, at + 4, Execve)
    ensures u.regs[Arg0(w.isa)] == a.path && u.regs[Arg1(w.isa)] == a.argv && u.regs[Arg2(w.isa)] == a.envp
  {
    ReachesHere(Executes(w), t);
    u := DoImm(w, t, t, at + 3, NumberReg(w.isa), if w.isa.Aarch64? then 221 else 59);
  }

  /** All arguments and the number, up to the call itself. */
  lemma LoadsCall(w: World, t: Task, a: Args, at: nat) returns (u: Task)
    requires w.Valid() && ExecTail(w, at) && Operands(w.isa, t, a) && t.status == Running && t.pc == at
    ensures Leads(w, t, u) && u.table == t.table && Calls(w, u, at + 4, Execve)
    ensures u.regs[Arg0(w.isa)] == a.path && u.regs[Arg1(w.isa)] == a.argv && u.regs[Arg2(w.isa)] == a.envp
  {
    var p := LoadsPath(w, t, a, at);
    var v := LoadsArgv(w, p, a, at);
    ReachesOn(Executes(w), t, p, v);
    p := LoadsEnvp(w, v, a, at);
    ReachesOn(Executes(w), t, v, p);
    u := LoadsNumber(w, p, a, at);
    ReachesOn(Executes(w), t, p, u);
  }

  /** `execve(path, argv, envp)`, and `exit_group(127)` if it returns. */
  lemma Execs(w: World, t: Task, a: Args, at: nat) returns (u: Task)
    requires w.Valid() && ExecTail(w, at) && Operands(w.isa, t, a) && t.status == Running && t.pc == at
    ensures Leads(w, t, u)
    ensures End(u.status, u.table) == Intended(w.kernel, t.table, [], t.calls, w.execErr, a)
  {
    var v := LoadsCall(w, t, a, at);
    u := DoExec(w, t, v, at + 4, a);
    if w.execErr != 0 {
      v := Exits(w, u, at + 5, 127);
      ReachesOn(Executes(w), t, u, v);
      u := v;
    }
  }

  lemma RedirectingTail(w: World)
    requires w.Holds(Redirecting)
    ensures ExecTail(w, 17)
  {
  }

  /** Label 2 of the redirecting blocks: `execve` once the list is applied. */
  lemma Finishes(w: World, t: Task, a: Args) returns (u: Task)
    requires w.Valid() && w.Holds(Redirecting) && Loaded(w.isa, t, a) && t.status == Running && t.pc == 17
    ensures Leads(w, t, u)
    ensures End(u.status, u.table) == Intended(w.kernel, t.table, [], t.calls, w.execErr, a)
  {
    RedirectingTail(w);
    u := Execs(w, t, a, 17);
  }

  /** Label 4: a redirect failed. */
  lemma GivesUp(w: World, t: Task) returns (u: Task)
    requires w.Valid() && w.Holds(Redirecting) && t.Valid() && t.status == Running && t.pc == 26
    ensures Leads(w, t, u) && End(u.status, u.table) == End(Exited(126), t.table)
  {
    assert ExitTail(w, 26, 126);
    u := Exits(w, t, 26, 126);
  }

  // ---- aarch64 ----

  /** The loop at instruction `pc`, working on record `i`. */
  ghost predicate ArmOn(w: World, t: Task, a: Args, i: nat, pc: nat) {
    && w.Valid() && w.isa == Aarch64 && w.Holds(Redirecting) && |a.redirects| <= 0x1000_0000_0000_0000
    && Loaded(Aarch64, t, a) && t.status == Running && t.pc == pc && t.regs[14] == i && i < |a.redirects|
  }

  /** The same with the records in memory. */
  ghost predicate ArmAt(w: World, t: Task, a: Args, i: nat, pc: nat) {
    ArmOn(w, t, a, i, pc) && Stored(w.mem, a.addr, a.redirects)
  }

  ghost predicate ArmFetched(w: World, t: Task, a: Args, i: nat, pc: nat) {
    && ArmOn(w, t, a, i, pc)
    && t.regs[0] == AsU32(a.redirects[i].oldfd) && t.regs[1] == AsU32(a.redirects[i].newfd)
  }

  lemma ArmFetchOld(w: World, t: Task, a: Args, i: nat) returns (u: Task)
    requires ArmAt(w, t, a, i, 4)
    ensures Leads(w, t, u) && ArmOn(w, u, a, i, 6) && u.table == t.table && u.calls == t.calls
    ensures u.regs[15] == Address(a.addr, i, 0) && u.regs[0] == AsU32(a.redirects[i].oldfd)
  {
    RecordAt(w.mem, a.addr, a.redirects, i);
    ReachesHere(Executes(w), t);
    u := DoAddScaled(w, t, t, 4, 15, 12, 14);
    u := DoLoad(w, t, u, 5, 0, AsU32(a.redirects[i].oldfd));
  }

  /** Instructions 4-6 fetch record `i`. */
  lemma ArmFetch(w: World, t: Task, a: Args, i: nat) returns (u: Task)
    requires ArmAt(w, t, a, i, 4)
    ensures Leads(w, t, u) && ArmFetched(w, u, a, i, 7)
    ensures u.table == t.table && u.calls == t.calls
  {
    u := ArmFetchOld(w, t, a, i);
    RecordAt(w.mem, a.addr, a.redirects, i);
    u := DoLoad(w, t, u, 6, 1, AsU32(a.redirects[i].newfd));
  }

  /** Instructions 7-8 branch on whether the ends are equal. */
  lemma ArmCompare(w: World, t: Task, a: Args, i: nat) returns (u: Task)
    requires ArmFetched(w, t, a, i, 7)
    ensures Leads(w, t, u) && ArmFetched(w, u, a, i, if a.redirects[i].Equal() then 14 else 9)
    ensures u.table == t.table && u.calls == t.calls
  {
    LowKeeps(AsU32(a.redirects[i].oldfd));
    LowKeeps(AsU32(a.redirects[i].newfd));
    u := DoTest(w, t, 7, CmpW(0, 1), Eq, 14);
  }

  /** Instructions 9-11 duplicate. */
  lemma ArmDup(w: World, t: Task, a: Args, i: nat) returns (u: Task)
    requires ArmFetched(w, t, a, i, 9) && !a.redirects[i].Equal()
    ensures Leads(w, t, u) && ArmOn(w, u, a, i, 12) && u.calls == t.calls + 1
    ensures var d := Dup3(w.kernel, t.table, AsU32(a.redirects[i].oldfd), AsU32(a.redirects[i].newfd), t.calls);
            u.table == d.table && u.regs[0] == RetOf(d.ret)
  {
    LowKeeps(AsU32(a.redirects[i].oldfd));
    LowKeeps(AsU32(a.redirects[i].newfd));
    ReachesHere(Executes(w), t);
    u := DoImm(w, t, t, 9, 8, 24);
    u := DoImm(w, t, u, 10, 2, 0);
    u := DoDup(w, t, u, 11, Dup3Call, AsU32(a.redirects[i].oldfd), AsU32(a.redirects[i].newfd));
  }

  /** Instructions 12-13 branch on the sign of the result. */
  lemma ArmTest(w: World, t: Task, a: Args, i: nat) returns (u: Task)
    requires ArmOn(w, t, a, i, 12)
    ensures Leads(w, t, u) && ArmOn(w, u, a, i, if Signed(t.regs[0]) < 0 then 26 else 14)
    ensures u.table == t.table && u.calls == t.calls
  {
    u := DoTest(w, t, 12, CmpZero(0), Lt, 26);
  }

  lemma ArmCount(w: World, t: Task, a: Args, i: nat) returns (u: Task)
    requires ArmOn(w, t, a, i, 14)
    ensures Leads(w, t, u) && Loaded(Aarch64, u, a) && u.status == Running && u.pc == 15
    ensures u.regs[14] == i + 1 && u.table == t.table && u.calls == t.calls
  {
    ReachesHere(Executes(w), t);
    u := DoInc(w, t, t, 14, 14);
  }

  lemma ArmAgain(w: World, t: Task, a: Args, i: nat) returns (u: Task)
    requires w.Valid() && w.isa == Aarch64 && w.Holds(Redirecting) && |a.redirects| <= 0x1000_0000_0000_0000
    requires Loaded(Aarch64, t, a) && t.status == Running && t.pc == 15 && t.regs[14] == i <= |a.redirects|
    ensures Leads(w, t, u) && u.regs == t.regs && u.table == t.table && u.calls == t.calls && u.status == Running
    ensures u.pc == if i < |a.redirects| then 4 else 17
  {
    u := DoTest(w, t, 15, Cmp(14, 13), Lt, 4);
  }

  /** Instructions 14-16 advance the index and loop while records are left. */
  lemma ArmAdvance(w: World, t: Task, a: Args, i: nat) returns (u: Task)
    requires ArmOn(w, t, a, i, 14)
    ensures Leads(w, t, u) && Loaded(Aarch64, u, a) && u.status == Running
    ensures if i + 1 < |a.redirects| then ArmOn(w, u, a, i + 1, 4) else u.pc == 17
    ensures u.table == t.table && u.calls == t.calls
  {
    var c := ArmCount(w, t, a, i);
    u := ArmAgain(w, c, a, i + 1);
    ReachesOn(Executes(w), t, c, u);
  }

  /** One pass over record `i`, up to the index increment or the failure exit. */
  lemma ArmPass(w: World, t: Task, a: Args, i: nat) returns (u: Task)
    requires ArmAt(w, t, a, i, 4)
    ensures Leads(w, t, u)
    ensures var one := Apply(w.kernel, t.table, [a.redirects[i]], t.calls);
            && u.table == one.table && u.calls == one.calls
            && ArmAt(w, u, a, i, if one.ok then 14 else 26)
  {
    assert [a.redirects[i]][1..] == [];
    var f := ArmFetch(w, t, a, i);
    u := ArmCompare(w, f, a, i);
    ReachesOn(Executes(w), t, f, u);
    if !a.redirects[i].Equal() {
      var v := ArmDup(w, u, a, i);
      ReachesOn(Executes(w), t, u, v);
      u := ArmTest(w, v, a, i);
      ReachesOn(Executes(w), t, v, u);
    }
  }

  /** From the loop head the aarch64 child does to the remaining list what is documented. */
  lemma {:induction false} ArmLoop(w: World, t: Task, a: Args, i: nat) returns (u: Task)
    requires ArmAt(w, t, a, i, 4)
    ensures Leads(w, t, u)
    ensures End(u.status, u.table) == Intended(w.kernel, t.table, a.redirects[i..], t.calls, w.execErr, a)
    decreases |a.redirects| - i
  {
    ApplySplits(w.kernel, t.table, a.redirects[i..], t.calls);
    assert a.redirects[i..][..1] == [a.redirects[i]] && a.redirects[i..][1..] == a.redirects[i + 1..];
    var p := ArmPass(w, t, a, i);
    if p.pc == 26 {
      u := GivesUp(w, p);
    } else {
      assert Apply(w.kernel, t.table, a.redirects[i..], t.calls) == Apply(w.kernel, p.table, a.redirects[i + 1..], p.calls);
      var v := ArmAdvance(w, p, a, i);
      if i + 1 < |a.redirects| {
        u := ArmLoop(w, v, a, i + 1);
      } else {
        u := Finishes(w, v, a);
      }
      ReachesOn(Executes(w), p, v, u);
    }
    ReachesOn(Executes(w), t, p, u);
  }

  /** The first redirect, then the rest. */
  lemma ApplySplits(k: Kernel, t: Table, rs: seq<Redirect>, calls: nat)
    requires rs != []
    ensures var one := Apply(k, t, rs[..1], calls);
            Apply(k, t, rs, calls) == if one.ok then Apply(k, one.table, rs[1..], one.calls) else one
  {
    assert rs[..1][1..] == [];
  }

  /** The whole aarch64 child, from the instruction after `clone`: for every list, table and
      kernel it ends exactly as documented. */
  lemma ArmChild(w: World, t: Task, a: Args) returns (u: Task)
    requires w.Valid() && w.isa == Aarch64 && w.Holds(Redirecting)
    requires Loaded(Aarch64, t, a) && Stored(w.mem, a.addr, a.redirects)
    requires t.status == Running && t.pc == 1 && t.regs[0] == 0
    ensures Leads(w, t, u)
    ensures End(u.status, u.table) == Intended(w.kernel, t.table, a.redirects, t.calls, w.execErr, a)
  {
    ReachesHere(Executes(w), t);
    var v := DoBranchNonZero(w, t, t, 1, 0, 30);
    v := DoBranchZero(w, t, v, 2, 13, 17);
    if a.redirects == [] {
      u := Finishes(w, v, a);
    } else {
      v := DoImm(w, t, v, 3, 14, 0);
      assert a.redirects[0..] == a.redirects;
      u := ArmLoop(w, v, a, 0);
    }
    ReachesOn(Executes(w), t, v, u);
  }

  // ---- x86_64 ----

  /** The child at instruction `pc`. */
  ghost predicate X86On(w: World, t: Task, a: Args, pc: nat) {
    && w.Valid() && w.isa == X86_64 && w.Holds(Redirecting)
    && Loaded(X86_64, t, a) && t.status == Running && t.pc == pc
  }

  ghost predicate X86At(w: World, t: Task, a: Args, pc: nat) {
    X86On(w, t, a, pc) && Stored(w.mem, a.addr, a.redirects)
  }

  ghost predicate X86Fetched(w: World, t: Task, a: Args, i: nat, pc: nat) {
    && X86On(w, t, a, pc) && i < |a.redirects| && t.regs[1] == i
    && t.regs[7] == SignExtend(AsU32(a.redirects[i].oldfd))
    && t.regs[6] == SignExtend(AsU32(a.redirects[i].newfd))
  }

  lemma X86FetchOld(w: World, t: Task, a: Args, i: nat) returns (u: Task)
    requires X86At(w, t, a, 6) && i < |a.redirects| && t.regs[1] == i
    ensures Leads(w, t, u) && X86On(w, u, a, 7) && u.regs[1] == i && u.table == t.table && u.calls == t.calls
    ensures u.regs[7] == SignExtend(AsU32(a.redirects[i].oldfd))
  {
    RecordAt(w.mem, a.addr, a.redirects, i);
    ReachesHere(Executes(w), t);
    u := DoLoad(w, t, t, 6, 7, AsU32(a.redirects[i].oldfd));
  }

  /** Instructions 6-7 fetch record `i`. */
  lemma X86Fetch(w: World, t: Task, a: Args, i: nat) returns (u: Task)
    requires X86At(w, t, a, 6) && i < |a.redirects| && t.regs[1] == i
    ensures Leads(w, t, u) && X86Fetched(w, u, a, i, 8)
    ensures u.table == t.table && u.calls == t.calls
  {
    RecordAt(w.mem, a.addr, a.redirects, i);
    u := X86FetchOld(w, t, a, i);
    u := DoLoad(w, t, u, 7, 6, AsU32(a.redirects[i].newfd));
  }

  /** Instructions 8-9 branch on whether the ends are equal. */
  lemma X86Compare(w: World, t: Task, a: Args, i: nat) returns (u: Task)
    requires X86Fetched(w, t, a, i, 8)
    ensures Leads(w, t, u) && X86Fetched(w, u, a, i, if a.redirects[i].Equal() then 14 else 10)
    ensures u.table == t.table && u.calls == t.calls
  {
    u := DoTest(w, t, 8, Cmp(7, 6), Eq, 14);
  }

  lemma X86Number(w: World, t: Task, a: Args, i: nat) returns (u: Task)
    requires X86Fetched(w, t, a, i, 10)
    ensures Leads(w, t, u) && X86Fetched(w, u, a, i, 11) && Calls(w, u, 11, Dup2Call)
    ensures u.table == t.table && u.calls == t.calls
  {
    ReachesHere(Executes(w), t);
    u := DoImm(w, t, t, 10, 0, 33);
  }

  /** Instructions 10-11 duplicate, and lose the index: rcx now holds the return address. */
  lemma X86Dup(w: World, t: Task, a: Args, i: nat) returns (u: Task)
    requires X86Fetched(w, t, a, i, 10) && !a.redirects[i].Equal()
    ensures Leads(w, t, u) && X86On(w, u, a, 12) && u.calls == t.calls + 1
    ensures u.regs[1] == w.resume[12]
    ensures var d := Dup3(w.kernel, t.table, AsU32(a.redirects[i].oldfd), AsU32(a.redirects[i].newfd), t.calls);
            u.table == d.table && u.regs[0] == RetOf(d.ret)
  {
    LowKeeps(AsU32(a.redirects[i].oldfd));
    LowKeeps(AsU32(a.redirects[i].newfd));
    u := X86Number(w, t, a, i);
    u := DoDup(w, t, u, 11, Dup2Call, AsU32(a.redirects[i].oldfd), AsU32(a.redirects[i].newfd));
  }

  /** Instructions 12-13 branch on the sign of the result. */
  lemma X86Test(w: World, t: Task, a: Args) returns (u: Task)
    requires X86On(w, t, a, 12)
    ensures Leads(w, t, u) && X86On(w, u, a, if Signed(t.regs[0]) < 0 then 26 else 14)
    ensures u.table == t.table && u.calls == t.calls && u.regs[1] == t.regs[1]
  {
    u := DoTest(w, t, 12, CmpZero(0), Lt, 26);
  }

  lemma X86Count(w: World, t: Task, a: Args) returns (u: Task)
    requires X86On(w, t, a, 14)
    ensures Leads(w, t, u) && X86On(w, u, a, 15) && u.regs[1] == Succ(t.regs[1])
    ensures u.table == t.table && u.calls == t.calls
  {
    ReachesHere(Executes(w), t);
    u := DoInc(w, t, t, 14, 1);
  }

  lemma X86Again(w: World, t: Task, a: Args) returns (u: Task)
    requires X86On(w, t, a, 15)
    ensures Leads(w, t, u) && u.regs == t.regs && u.table == t.table && u.calls == t.calls
    ensures X86On(w, u, a, if t.regs[1] < |a.redirects| then 6 else 17)
  {
    u := DoTest(w, t, 15, Cmp(1, 9), Below, 6);
  }

  /** Instructions 14-16 advance whatever rcx holds and loop while it is below the length. */
  lemma X86Advance(w: World, t: Task, a: Args) returns (u: Task)
    requires X86On(w, t, a, 14)
    ensures Leads(w, t, u) && u.Valid() && u.regs[1] == Succ(t.regs[1])
    ensures X86On(w, u, a, if u.regs[1] < |a.redirects| then 6 else 17)
    ensures u.table == t.table && u.calls == t.calls
  {
    var c := X86Count(w, t, a);
    u := X86Again(w, c, a);
    ReachesOn(Executes(w), t, c, u);
  }

  /** One pass over record `i`. */
  lemma X86Pass(w: World, t: Task, a: Args, i: nat) returns (u: Task)
    requires X86At(w, t, a, 6) && i < |a.redirects| && t.regs[1] == i
    ensures Leads(w, t, u)
    ensures var one := Apply(w.kernel, t.table, [a.redirects[i]], t.calls);
            && u.table == one.table && u.calls == one.calls
            && X86At(w, u, a, if one.ok then 14 else 26)
    ensures u.regs[1] == if a.redirects[i].Equal() then i else w.resume[12]
  {
    assert [a.redirects[i]][1..] == [];
    var f := X86Fetch(w, t, a, i);
    u := X86Compare(w, f, a, i);
    ReachesOn(Executes(w), t, f, u);
    if !a.redirects[i].Equal() {
      var v := X86Dup(w, u, a, i);
      ReachesOn(Executes(w), t, u, v);
      u := X86Test(w, v, a);
      ReachesOn(Executes(w), t, v, u);
    }
  }

  /** Instructions 1-2: the child falls through the parent test. */
  lemma X86Falls(w: World, t: Task, a: Args) returns (u: Task)
    requires X86On(w, t, a, 1) && t.regs[0] == 0
    ensures Leads(w, t, u) && X86On(w, u, a, 3) && u.table == t.table && u.calls == t.calls
  {
    u := DoTest(w, t, 1, CmpZero(0), Ne, END);
  }

  lemma X86Any(w: World, t: Task, a: Args) returns (u: Task)
    requires X86On(w, t, a, 3)
    ensures Leads(w, t, u) && X86On(w, u, a, if a.redirects == [] then 17 else 5)
    ensures u.table == t.table && u.calls == t.calls
  {
    u := DoTest(w, t, 3, CmpZero(9), Eq, 17);
  }

  /** Instructions 3-5: to the loop head or straight to the exec. */
  lemma X86Enter(w: World, t: Task, a: Args) returns (u: Task)
    requires X86On(w, t, a, 3)
    ensures Leads(w, t, u) && X86On(w, u, a, if a.redirects == [] then 17 else 6)
    ensures a.redirects != [] ==> u.regs[1] == 0
    ensures u.table == t.table && u.calls == t.calls
  {
    u := X86Any(w, t, a);
    if a.redirects != [] {
      u := DoImm(w, t, u, 5, 1, 0);
    }
  }

  // ---- the blocks without redirects ----

  /** Past the parent test. */
  lemma PlainFalls(w: World, t: Task) returns (u: Task)
    requires w.Valid() && w.Holds(Plain) && t.Valid() && t.status == Running && t.pc == 1 && t.regs[0] == 0
    ensures Leads(w, t, u) && u.status == Running && u.regs == t.regs && u.table == t.table && u.calls == t.calls
    ensures u.pc == if w.isa.Aarch64? then 2 else 3
  {
    ReachesHere(Executes(w), t);
    if w.isa.Aarch64? {
      u := DoBranchNonZero(w, t, t, 1, 0, END);
    } else {
      u := DoTest(w, t, 1, CmpZero(0), Ne, END);
    }
  }

  lemma PlainTail(w: World)
    requires w.Holds(Plain)
    ensures ExecTail(w, if w.isa.Aarch64? then 2 else 3)
  {
  }

  /** The child of `vfork_execve`, on either architecture. */
  lemma PlainChild(w: World, t: Task, a: Args) returns (u: Task)
    requires w.Valid() && w.Holds(Plain) && Operands(w.isa, t, a)
    requires t.status == Running && t.pc == 1 && t.regs[0] == 0
    ensures Leads(w, t, u)
    ensures End(u.status, u.table) == Intended(w.kernel, t.table, [], t.calls, w.execErr, a)
  {
    var v := PlainFalls(w, t);
    PlainTail(w);
    u := Execs(w, v, a, v.pc);
    ReachesOn(Executes(w), t, v, u);
  }
}
