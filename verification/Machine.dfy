/** A small register machine wide enough for both trampolines: sixteen 64-bit registers,
    one comparison result, byte memory, and the handful of system calls they issue. */
module Machine {
  import opened Base
  import opened FdTable
  import opened Programs
  import opened Runs

  datatype Status =
    | Running
    | Suspended
    | Execed(path: u64, argv: u64, envp: u64)
    | Exited(code: byte)
    | Faulted

  datatype Task = Task(regs: seq<u64>, pc: nat, flags: Flags, table: Table, calls: nat, status: Status) {
    predicate Valid() { |regs| == 16 }
    /** Register `d` written, and on to the next instruction. */
    function Write(d: Reg, v: u64): Task
      requires Valid()
    {
      this.(regs := regs[d := v], pc := pc + 1)
    }
    function Compared(a: u64, b: u64): Task {
      this.(flags := Compare(a, b), pc := pc + 1)
    }
    predicate Enabled() { status.Running? && pc < END }
  }

  /** Everything outside the task: the code, memory, the kernel, and what it will answer.
      `resume(pc)` is the address of instruction `pc`, the value `syscall` leaves in rcx;
      `execErr` is 0 when `execve` succeeds. */
  datatype World = World(
    isa: Isa, routine: Routine, code: nat -> Insn, mem: map<int, byte>, kernel: Kernel,
    resume: seq<u64>, rflags: u64, cloneErr: int, pid: u64, execErr: int)
  {
    predicate Valid() {
      && |resume| == END + 1
      && 0 <= cloneErr <= 4095
      && 0 <= execErr <= 4095
      && 0 < pid < 0x8000_0000
    }
    /** The code is the block of the crate. */
    ghost predicate Holds(r: Routine) { routine == r && code == Listing(isa, r) }
  }

  /** 64-bit registers wrap around. */
  function Succ(v: u64): u64 {
    if v + 1 < WORD then v + 1 else 0
  }

  /** The address of field `off` in the eight-byte record `index` of the array at `base`. */
  function Address(base: int, index: int, off: int): u64 {
    (base + 8 * index + off) % WORD
  }

  /** The low half of a register, which is all the kernel reads of a descriptor argument. */
  function Low(v: u64): u32 {
    v % 0x1_0000_0000
  }

  function SignExtend(w: u32): u64 {
    if w >= 0x8000_0000 then w + WORD - 0x1_0000_0000 else w
  }

  function Compare(a: u64, b: u64): Flags {
    Flags(a == b, Signed(a) < Signed(b), a < b)
  }

  predicate Taken(c: Cond, f: Flags) {
    match c
    case Eq => f.eq
    case Ne => !f.eq
    case Lt => f.lt
    case Below => f.below
  }

  /** The 32-bit little-endian word at `addr`, or None when it is not mapped. */
  function Load(mem: map<int, byte>, addr: int): Option<u32> {
    if addr in mem && addr + 1 in mem && addr + 2 in mem && addr + 3 in mem then
      var b0: int, b1: int, b2: int, b3: int := mem[addr], mem[addr + 1], mem[addr + 2], mem[addr + 3];
      Some(b0 + 0x100 * b1 + 0x1_0000 * b2 + 0x100_0000 * b3)
    else None
  }

  datatype Sys = Clone | Execve | ExitGroup | Dup2Call | Dup3Call | Unknown

  function Decode(isa: Isa, nr: u64): Sys {
    match isa
    case Aarch64 =>
      if nr == 220 then Clone else if nr == 221 then Execve else if nr == 94 then ExitGroup
      else if nr == 24 then Dup3Call else Unknown
    case X86_64 =>
      if nr == 56 then Clone else if nr == 59 then Execve else if nr == 231 then ExitGroup
      else if nr == 33 then Dup2Call else if nr == 292 then Dup3Call else Unknown
  }

  function NumberReg(isa: Isa): Reg { if isa.Aarch64? then 8 else 0 }
  function Arg0(isa: Isa): Reg { if isa.Aarch64? then 0 else 7 }
  function Arg1(isa: Isa): Reg { if isa.Aarch64? then 1 else 6 }
  function Arg2(isa: Isa): Reg { 2 }

  /** Return from a system call. `svc` changes x0 alone; `syscall` also leaves the return
      address in rcx and the flags in r11. Result register is x0 = 0 and rax = 0. */
  function Return(w: World, t: Task, ret: u64): Task
    requires w.Valid() && t.Valid() && t.pc < END
  {
    var regs := t.regs[0 := ret];
    t.(pc := t.pc + 1,
       regs := if w.isa.Aarch64? then regs else regs[1 := w.resume[t.pc + 1]][11 := w.rflags])
  }

  function Duplicate(w: World, t: Task, d: Dup): Task
    requires w.Valid() && t.Valid() && t.pc < END
    requires d.ret.Err? ==> 1 <= d.ret.error.code <= 4095
  {
    Return(w, t.(table := d.table, calls := t.calls + 1), RetOf(d.ret))
  }

  /** Every system call but `clone`, which needs both processes. */
  function Trapped(w: World, t: Task): (t': Task)
    requires w.Valid() && t.Valid() && t.pc < END
    ensures t'.Valid()
  {
    var a0, a1, a2 := t.regs[Arg0(w.isa)], t.regs[Arg1(w.isa)], t.regs[Arg2(w.isa)];
    var fd0, fd1 := Low(a0), Low(a1);
    match Decode(w.isa, t.regs[NumberReg(w.isa)])
    case Dup2Call => Duplicate(w, t, Dup2(w.kernel, t.table, fd0, fd1, t.calls))
    case Dup3Call =>
      if a2 == 0 then Duplicate(w, t, Dup3(w.kernel, t.table, fd0, fd1, t.calls))
      else t.(status := Faulted)
    case Execve =>
      if w.execErr == 0 then t.(status := Execed(a0, a1, a2), table := CloseOnExec(t.table))
      else Return(w, t, Negated(w.execErr))
    case ExitGroup => t.(status := Exited(a0 % 0x100))
    case Clone => t.(status := Faulted)
    case Unknown => Return(w, t, Negated(38))
  }

  /** Instructions that touch only registers, flags and the program counter. */
  function Alu(t: Task, insn: Insn): (t': Task)
    requires t.Valid()
    ensures t'.Valid()
  {
    match insn
    case Mov(d, s) => t.Write(d, t.regs[s])
    case MovImm(d, imm) => t.Write(d, imm)
    case Inc(d) => t.Write(d, Succ(t.regs[d]))
    case AddScaled(d, b, i) => t.Write(d, Address(t.regs[b], t.regs[i], 0))
    case Cmp(a, b) => t.Compared(t.regs[a], t.regs[b])
    case CmpW(a, b) => t.Compared(Low(t.regs[a]), Low(t.regs[b]))
    case CmpZero(a) => t.Compared(t.regs[a], 0)
    case Branch(c, target) => t.(pc := if Taken(c, t.flags) then target else t.pc + 1)
    case BranchZero(a, target) => t.(pc := if t.regs[a] == 0 then target else t.pc + 1)
    case BranchNonZero(a, target) => t.(pc := if t.regs[a] != 0 then target else t.pc + 1)
    case _ => t.(status := Faulted)
  }

  /** One instruction of an enabled task. */
  function Step(w: World, t: Task): (t': Task)
    requires w.Valid() && t.Valid() && t.Enabled()
    ensures t'.Valid()
  {
    match w.code(t.pc)
    case Syscall => Trapped(w, t)
    case LoadZx(d, b, off) =>
      (match Load(w.mem, Address(t.regs[b], 0, off))
       case None => t.(status := Faulted)
       case Some(v) => t.Write(d, v))
    case LoadSx(d, b, i, off) =>
      (match Load(w.mem, Address(t.regs[b], t.regs[i], off))
       case None => t.(status := Faulted)
       case Some(v) => t.Write(d, SignExtend(v)))
    case insn => Alu(t, insn)
  }

  /** One task executing, as a transition relation. */
  function Executes(w: World): (Task, Task) -> bool
    requires w.Valid()
  {
    (t: Task, u: Task) => t.Valid() && t.Enabled() && u == Step(w, t)
  }

  lemma ExecutionIsDeterministic(w: World)
    requires w.Valid()
    ensures Deterministic(Executes(w))
  {
  }

  /** `u` is reached from `t` in finitely many instructions. */
  ghost predicate Leads(w: World, t: Task, u: Task)
    requires w.Valid()
  {
    Reaches(Executes(w), t, u)
  }

  /** The redirect records, eight bytes each, at `addr`. */
  predicate Stored(mem: map<int, byte>, addr: u64, rs: seq<Redirect>) {
    && addr + 8 * |rs| <= 0x8000_0000_0000_0000
    && forall i | 0 <= i < |rs| ::
         && Load(mem, addr + 8 * i) == Some(AsU32(rs[i].oldfd))
         && Load(mem, addr + 8 * i + 4) == Some(AsU32(rs[i].newfd))
  }

  lemma LowKeeps(x: u32)
    ensures Low(x) == x && Low(SignExtend(x)) == x
  {
  }

  lemma AddressFits(base: int, index: int, off: int)
    requires 0 <= base + 8 * index + off < WORD
    ensures Address(base, index, off) == base + 8 * index + off
  {
  }

  /** Where the loops find record `i`, by either addressing mode. */
  lemma RecordAt(mem: map<int, byte>, addr: u64, rs: seq<Redirect>, i: nat)
    requires Stored(mem, addr, rs) && i < |rs|
    ensures var at := Address(addr, i, 0);
            && Load(mem, at) == Load(mem, Address(at, 0, 0)) == Some(AsU32(rs[i].oldfd))
            && Load(mem, Address(addr, i, 4)) == Load(mem, Address(at, 0, 4)) == Some(AsU32(rs[i].newfd))
  {
    AddressFits(addr, i, 0);
    AddressFits(addr, i, 4);
    AddressFits(addr + 8 * i, 0, 0);
    AddressFits(addr + 8 * i, 0, 4);
  }
}
