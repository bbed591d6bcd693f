/** The `dup2` wrapper where the machine has only `dup3` (src/fd.rs). */
module Dup {
  import opened Base
  import opened FdTable

  /** A process and its descriptor table; `calls` counts duplications. */
  class Process {
    const kernel: Kernel
    var table: Table
    var calls: nat

    constructor (kernel: Kernel, table: Table)
      ensures this.kernel == kernel && this.table == table && calls == 0
    {
      this.kernel, this.table, calls := kernel, table, 0;
    }

    /** `dup3(oldfd, newfd, 0)` as the raw call returns. */
    method Dup3Syscall(oldfd: i32, newfd: i32) returns (ret: u64)
      modifies this
      ensures var d := Dup3(kernel, old(table), AsU32(oldfd), AsU32(newfd), old(calls));
              table == d.table && calls == old(calls) + 1 && ret == RetOf(d.ret)
    {
      var d := Dup3(kernel, table, AsU32(oldfd), AsU32(newfd), calls);
      table, calls := d.table, calls + 1;
      ret := RetOf(d.ret);
    }

    /** `fcntl(fd, F_GETFD)` as the raw call returns. */
    method GetFdSyscall(fd: i32) returns (ret: u64)
      ensures ret == if AsU32(fd) in table then (if table[AsU32(fd)].cloexec then 1 else 0) else Negated(EBADF.code)
    {
      if AsU32(fd) in table {
        return if table[AsU32(fd)].cloexec then 1 else 0;
      }
      return Negated(EBADF.code);
    }

    /** The emulation has `dup2`'s result and effect on every table and every pair, the equal
        pair and negative descriptors included. */
    method Dup2Emulated(oldfd: i32, newfd: i32) returns (r: Result<i32>)
      requires kernel.limit <= 0x8000_0000
      modifies this
      ensures var d := Dup2(kernel, old(table), AsU32(oldfd), AsU32(newfd), old(calls));
              table == d.table && r == match d.ret case Ok(_) => Ok(newfd) case Err(e) => Err(e)
    {
      if oldfd == newfd {
        var probe := GetFdSyscall(oldfd);
        var _ :- FromRet(probe);
        return Ok(newfd);
      }
      var ret := Dup3Syscall(oldfd, newfd);
      r := FromRetI32(ret);
    }
  }
}
