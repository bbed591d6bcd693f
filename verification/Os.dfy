/** Descriptors, datagrams and files as the kernel serves them: every outcome is possible that
    the calls' contracts allow. */
module Os {
  import opened Base

  type Addr = a: seq<byte> | |a| == 4 witness [0, 0, 0, 0]

  /** A datagram as `recvfrom` delivers it into a 512-byte buffer. */
  type Datagram = d: seq<byte> | |d| <= 512

  /** What went over a socket. */
  datatype Event =
    | Send(sock: int, dest: Addr, port: u16, packet: seq<byte>, ok: bool)
    | Poll(sock: int, ready: Result<nat>)
    | Recv(sock: int, got: Result<(Addr, Datagram)>)

  /** The other calls, each with what it returned. */
  datatype Call =
    | Opened(path: seq<byte>, fd: Result<int>)
    | Socketed(fd: Result<int>)
    | Controlled(on: int, request: u32, value: Result<i32>)
    | ReadSome(on: int, count: Result<nat>)
    | Closed(on: int)
  {
    predicate Fails(e: Errno) {
      match this
      case Opened(_, r) => r == Err(e)
      case Socketed(r) => r == Err(e)
      case Controlled(_, _, r) => r == Err(e)
      case ReadSome(_, r) => r == Err(e)
      case Closed(_) => false
    }
  }

  class Kernel {
    /** Open descriptors, every call and every socket event in order, unread file bytes. */
    var open: set<int>
    var calls: seq<Call>
    var log: seq<Event>
    var file: seq<byte>

    constructor ()
      ensures open == {} && calls == [] && log == []
    {
      open, calls, log, file := {}, [], [], [];
    }

    /** `open`: a descriptor that was not in use, or an error. */
    method Open(path: seq<byte>) returns (r: Result<int>)
      modifies this`open, this`file, this`calls
      ensures r.Ok? ==> r.value !in old(open) && open == old(open) + {r.value}
      ensures r.Err? ==> open == old(open)
      ensures calls == old(calls) + [Opened(path, r)]
    {
      r := Allocate();
      if r.Ok? {
        open := open + {r.value};
        file := *;
      }
      calls := calls + [Opened(path, r)];
    }

    method Socket() returns (r: Result<int>)
      modifies this`open, this`calls
      ensures r.Ok? ==> r.value !in old(open) && open == old(open) + {r.value}
      ensures r.Err? ==> open == old(open)
      ensures calls == old(calls) + [Socketed(r)]
    {
      r := Allocate();
      if r.Ok? {
        open := open + {r.value};
      }
      calls := calls + [Socketed(r)];
    }

    method Allocate() returns (r: Result<int>)
      ensures r.Ok? ==> r.value !in open
    {
      var fd: int := *;
      if fd in open {
        var e := Failure();
        return Err(e);
      }
      return Ok(fd);
    }

    /** `close` frees the descriptor whatever it reports. */
    method Close(fd: int)
      modifies this`open, this`calls
      ensures open == old(open) - {fd} && calls == old(calls) + [Closed(fd)]
    {
      open := open - {fd};
      calls := calls + [Closed(fd)];
    }

    /** `ioctl` with an integer result. */
    method Ioctl(fd: int, request: u32) returns (r: Result<i32>)
      modifies this`calls
      ensures calls == old(calls) + [Controlled(fd, request, r)]
    {
      var e := Failure();
      r := Err(e);
      var ok: bool := *;
      if ok {
        var v :| -0x8000_0000 <= v < 0x8000_0000;
        r := Ok(v);
      }
      calls := calls + [Controlled(fd, request, r)];
    }

    /** `read` into `buf[from..]`. */
    method Read(fd: int, buf: array<byte>, from: nat) returns (r: Result<nat>)
      requires from <= buf.Length
      modifies this`file, this`calls, buf
      ensures calls == old(calls) + [ReadSome(fd, r)]
      ensures r.Ok? ==>
                && from + r.value <= buf.Length && r.value <= |old(file)|
                && (r.value == 0 ==> from == buf.Length || file == [])
                && buf[..from + r.value] == old(buf[..from]) + old(file)[..r.value]
                && file == old(file)[r.value..]
      ensures r.Err? ==> file == old(file) && buf[..] == old(buf[..])
    {
      var ok: bool := *;
      if !ok {
        var e := Failure();
        r := Err(e);
        calls := calls + [ReadSome(fd, r)];
        return;
      }
      var most := Min(|file|, buf.Length - from);
      assert most == 0 ==> 0 <= most <= most;
      var n :| 0 <= n <= most && (n == 0 ==> most == 0);
      forall i | from <= i < from + n {
        buf[i] := file[i - from];
      }
      file := file[n..];
      r := Ok(n);
      calls := calls + [ReadSome(fd, r)];
    }

    method SendTo(sock: int, packet: seq<byte>, dest: Addr, port: u16) returns (ok: bool)
      modifies this`log
      ensures log == old(log) + [Send(sock, dest, port, packet, ok)]
    {
      ok := *;
      log := log + [Send(sock, dest, port, packet, ok)];
    }

    method PollIn(sock: int) returns (r: Result<nat>)
      modifies this`log
      ensures log == old(log) + [Poll(sock, r)]
    {
      var e := Failure();
      r := Err(e);
      var ok: bool := *;
      if ok {
        var n :| 0 <= n <= 1;
        r := Ok(n);
      }
      log := log + [Poll(sock, r)];
    }

    method RecvFrom(sock: int) returns (r: Result<(Addr, Datagram)>)
      modifies this`log
      ensures log == old(log) + [Recv(sock, r)]
    {
      var e := Failure();
      r := Err(e);
      var ok: bool := *;
      if ok {
        var from: Addr, d: Datagram := *, *;
        r := Ok((from, d));
      }
      log := log + [Recv(sock, r)];
    }
  }

  /** Some error code. */
  method Failure() returns (e: Errno) {
    var code: int := *;
    e := Errno(code);
  }
}
