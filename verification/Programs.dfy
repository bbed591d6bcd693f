/** The hand-written instruction sequences, one branch target per label. */
module Programs {
  import opened Base

  datatype Isa = Aarch64 | X86_64

  type Reg = r: int | 0 <= r < 16

  /** The last comparison of `a` with `b`: equal, signed less, unsigned less. */
  datatype Flags = Flags(eq: bool, lt: bool, below: bool)

  datatype Cond = Eq | Ne | Lt | Below

  datatype Insn =
    | Syscall
    | Mov(d: Reg, s: Reg)
    | MovImm(d: Reg, imm: u64)
    | Inc(d: Reg)
    | AddScaled(d: Reg, base: Reg, index: Reg)              // d := base + 8 * index
    | LoadZx(d: Reg, base: Reg, off: nat)                   // ldr w_d, [base, #off]
    | LoadSx(d: Reg, base: Reg, index: Reg, off: nat)       // movsxd d, [base + 8*index + off]
    | Cmp(a: Reg, b: Reg)
    | CmpW(a: Reg, b: Reg)                                  // low 32 bits only
    | CmpZero(a: Reg)                                       // cmp x, #0 and test r, r
    | Branch(c: Cond, target: nat)
    | BranchZero(a: Reg, target: nat)                       // cbz
    | BranchNonZero(a: Reg, target: nat)                    // cbnz
    | Trap                                                  // brk, ud2

  /** The label behind the last instruction of every block, where it is left. */
  const END := 30

  /** src/arch/aarch64.rs:383-418. */
  function ArmRedirected(pc: nat): Insn {
    match pc
    case 0 => Syscall                   // clone
    case 1 => BranchNonZero(0, END)     // cbnz x0, 3f
    case 2 => BranchZero(13, 17)        // cbz x13, 2f
    case 3 => MovImm(14, 0)
    case 4 => AddScaled(15, 12, 14)     // 1:
    case 5 => LoadZx(0, 15, 0)
    case 6 => LoadZx(1, 15, 4)
    case 7 => CmpW(0, 1)
    case 8 => Branch(Eq, 14)            // b.eq 6f
    case 9 => MovImm(8, 24)             // dup3
    case 10 => MovImm(2, 0)
    case 11 => Syscall
    case 12 => CmpZero(0)
    case 13 => Branch(Lt, 26)           // b.lt 4f
    case 14 => Inc(14)                  // 6:
    case 15 => Cmp(14, 13)
    case 16 => Branch(Lt, 4)            // b.lt 1b
    case 17 => Mov(0, 9)                // 2:
    case 18 => Mov(1, 10)
    case 19 => Mov(2, 11)
    case 20 => MovImm(8, 221)
    case 21 => Syscall                  // execve
    case 22 => MovImm(8, 94)
    case 23 => MovImm(0, 127)
    case 24 => Syscall                  // exit_group(127)
    case 25 => Trap
    case 26 => MovImm(8, 94)            // 4:
    case 27 => MovImm(0, 126)
    case 28 => Syscall                  // exit_group(126)
    case 29 => Trap
    case _ => Trap
  }

  /** src/arch/x86_64.rs:395-428; rax=0 rcx=1 rdx=2 rsi=6 rdi=7. */
  function X86Redirected(pc: nat): Insn {
    match pc
    case 0 => Syscall                   // clone
    case 1 => CmpZero(0)                // test rax, rax
    case 2 => Branch(Ne, END)           // jnz 3f
    case 3 => CmpZero(9)                // test r9, r9
    case 4 => Branch(Eq, 17)            // jz 2f
    case 5 => MovImm(1, 0)              // xor rcx, rcx
    case 6 => LoadSx(7, 15, 1, 0)       // 8:
    case 7 => LoadSx(6, 15, 1, 4)
    case 8 => Cmp(7, 6)
    case 9 => Branch(Eq, 14)            // je 6f
    case 10 => MovImm(0, 33)            // dup2
    case 11 => Syscall
    case 12 => CmpZero(0)               // test rax, rax
    case 13 => Branch(Lt, 26)           // js 4f
    case 14 => Inc(1)                   // 6:
    case 15 => Cmp(1, 9)
    case 16 => Branch(Below, 6)         // jb 8b
    case 17 => Mov(7, 12)               // 2:
    case 18 => Mov(6, 13)
    case 19 => Mov(2, 14)
    case 20 => MovImm(0, 59)
    case 21 => Syscall                  // execve
    case 22 => MovImm(0, 231)
    case 23 => MovImm(7, 127)
    case 24 => Syscall                  // exit_group(127)
    case 25 => Trap
    case 26 => MovImm(0, 231)           // 4:
    case 27 => MovImm(7, 126)
    case 28 => Syscall                  // exit_group(126)
    case 29 => Trap
    case _ => Trap
  }

  /** src/arch/aarch64.rs:317-328. */
  function ArmPlain(pc: nat): Insn {
    match pc
    case 0 => Syscall                   // clone
    case 1 => BranchNonZero(0, END)     // cbnz x0, 2f
    case 2 => Mov(0, 9)
    case 3 => Mov(1, 10)
    case 4 => Mov(2, 11)
    case 5 => MovImm(8, 221)
    case 6 => Syscall                   // execve
    case 7 => MovImm(8, 94)
    case 8 => MovImm(0, 127)
    case 9 => Syscall                   // exit_group(127)
    case _ => Trap
  }

  /** src/arch/x86_64.rs:327-338. */
  function X86Plain(pc: nat): Insn {
    match pc
    case 0 => Syscall                   // clone
    case 1 => CmpZero(0)                // test rax, rax
    case 2 => Branch(Ne, END)           // jnz 2f
    case 3 => Mov(7, 12)
    case 4 => Mov(6, 13)
    case 5 => Mov(2, 14)
    case 6 => MovImm(0, 59)
    case 7 => Syscall                   // execve
    case 8 => MovImm(0, 231)
    case 9 => MovImm(7, 127)
    case 10 => Syscall                  // exit_group(127)
    case _ => Trap
  }

  /** `vfork_execve` and `vfork_execve_redirected`. */
  datatype Routine = Plain | Redirecting

  function Listing(isa: Isa, routine: Routine): nat -> Insn {
    match routine
    case Plain => if isa.Aarch64? then ArmPlain else X86Plain
    case Redirecting => if isa.Aarch64? then ArmRedirected else X86Redirected
  }
}
