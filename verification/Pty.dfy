/** `openpty`: two descriptors or none. */
module Pty {
  import opened Base
  import opened Os
  import opened Decimal

  /** "/dev/ptmx". */
  const PTMX: seq<byte> := [47, 100, 101, 118, 47, 112, 116, 109, 120]

  lemma MasterPath()
    ensures PTMX == Ascii("/dev/ptmx")
  {
    SameBytes(PTMX, "/dev/ptmx");
  }

  /** What `openpty` asks of the kernel, in order, given the answers: unlock and number go to the
      master, the slave's path is that of the number, and the master is closed again on every
      error path behind its opening. */
  function Script(master: Result<int>, unlocked: Result<i32>, number: Result<i32>, slave: Result<int>): seq<Call> {
    [Opened(PTMX, master)] +
    if master.Err? then []
    else
      [Controlled(master.value, 0x4004_5431, unlocked)] +
      if unlocked.Err? then [Closed(master.value)]
      else
        [Controlled(master.value, 0x8004_5430, number)] +
        if number.Err? then [Closed(master.value)]
        else [Opened(PtsPath(number.value), slave)] + if slave.Err? then [Closed(master.value)] else []
  }

  /** Ok with the two descriptors just opened, the master first, if all four calls succeed;
      otherwise the first error, and no descriptor more than before. */
  method OpenPty(os: Kernel)
    returns (r: Result<(int, int)>, ghost master: Result<int>, ghost unlocked: Result<i32>, ghost number: Result<i32>,
             ghost slave: Result<int>)
    modifies os
    ensures os.calls == old(os.calls) + Script(master, unlocked, number, slave) && os.log == old(os.log)
    ensures r == if master.Err? then Err(master.error)
                 else if unlocked.Err? then Err(unlocked.error)
                 else if number.Err? then Err(number.error)
                 else if slave.Err? then Err(slave.error)
                 else Ok((master.value, slave.value))
    ensures r.Err? ==> os.open == old(os.open)
    ensures r.Ok? ==>
              && r.value.0 != r.value.1 && {r.value.0, r.value.1} !! old(os.open)
              && os.open == old(os.open) + {r.value.0, r.value.1}
  {
    var m := os.Open(PTMX);
    master, unlocked, number, slave := m, Ok(0), Ok(0), Ok(0);
    if m.Err? {
      return Err(m.error), master, unlocked, number, slave;
    }
    var u := os.Ioctl(m.value, 0x4004_5431);
    unlocked := u;
    if u.Err? {
      os.Close(m.value);
      return Err(u.error), master, unlocked, number, slave;
    }
    var ptn := os.Ioctl(m.value, 0x8004_5430);
    number := ptn;
    if ptn.Err? {
      os.Close(m.value);
      return Err(ptn.error), master, unlocked, number, slave;
    }
    var path := new byte[21](_ => 0);
    var end := FormatPtsPath(ptn.value, path);
    var s := os.Open(path[..end]);
    slave := s;
    match s
    case Ok(fd) =>
      return Ok((m.value, fd)), master, unlocked, number, slave;
    case Err(e) =>
      os.Close(m.value);
      return Err(e), master, unlocked, number, slave;
  }
}
