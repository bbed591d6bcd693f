/** `write_all` and `read_all` against every kernel, and a pipe between them. */
module ShortIo {
  import opened Base
  import opened Runs

  /** A descriptor open for writing, with what it has answered so far. `interrupts` bounds the
      EINTRs still to come. */
  class Sink {
    var accepted: seq<byte>
    var answers: seq<Result<nat>>
    var interrupts: nat

    constructor (interrupts: nat)
      ensures accepted == [] && answers == [] && this.interrupts == interrupts
    {
      accepted, answers := [], [];
      this.interrupts := interrupts;
    }

    /** `write(2)`: any prefix may be taken, and any error reported without effect. */
    method Write(buf: seq<byte>) returns (r: Result<nat>)
      modifies this
      ensures r.Ok? ==> r.value <= |buf| && accepted == old(accepted) + buf[..r.value] && interrupts == old(interrupts)
      ensures r.Err? ==> accepted == old(accepted)
      ensures r == Err(EINTR) ==> interrupts < old(interrupts)
      ensures r != Err(EINTR) ==> interrupts == old(interrupts)
      ensures answers == old(answers) + [r]
    {
      var interrupted: bool, failed: bool := *, *;
      if interrupted && interrupts > 0 {
        interrupts := interrupts - 1;
        r := Err(EINTR);
      } else if failed {
        var code: int := *;
        r := Err(Errno(if code == EINTR.code then EIO.code else code));
      } else {
        var n :| 0 <= n <= |buf|;
        accepted := accepted + buf[..n];
        r := Ok(n);
      }
      answers := answers + [r];
    }
  }

  /** The loop of `write_all`: the bytes left to write, or what it returned. */
  datatype Writer = Writing(rest: seq<byte>) | Wrote(result: Result<()>)

  function WriterHead(rest: seq<byte>): Writer {
    if rest == [] then Wrote(Ok(())) else Writing(rest)
  }

  /** One turn of the loop: what it makes of the kernel's answer. */
  function Fed(rest: seq<byte>, answer: Result<nat>): Writer {
    match answer
    case Ok(n) => if n == 0 then Wrote(Err(EIO)) else WriterHead(rest[Min(n, |rest|)..])
    case Err(e) => if e == EINTR then Writing(rest) else Wrote(Err(e))
  }

  /** The loop after a series of answers. */
  function WriterAfter(data: seq<byte>, answers: seq<Result<nat>>): Writer {
    if answers == [] then WriterHead(data)
    else
      match WriterAfter(data, answers[..|answers| - 1])
      case Writing(rest) => Fed(rest, answers[|answers| - 1])
      case done => done
  }

  lemma WriterSnoc(data: seq<byte>, answers: seq<Result<nat>>, answer: Result<nat>)
    requires WriterAfter(data, answers).Writing?
    ensures WriterAfter(data, answers + [answer]) == Fed(WriterAfter(data, answers).rest, answer)
  {
    assert (answers + [answer])[..|answers|] == answers;
  }

  /** An answer the loop goes on after: some bytes taken, or EINTR. */
  predicate GoesOn(answer: Result<nat>) {
    answer == Err(Errno(4)) || (answer.Ok? && answer.value > 0)
  }

  predicate AllGoOn(answers: seq<Result<nat>>) {
    forall i | 0 <= i < |answers| :: GoesOn(answers[i])
  }

  /** The last answer is the one `write_all` gives up at, with error `e`. */
  predicate GivesUp(answers: seq<Result<nat>>, e: Errno) {
    && answers != [] && AllGoOn(answers[..|answers| - 1])
    && match answers[|answers| - 1]
       case Ok(n) => n == 0 && e == Errno(5)
       case Err(f) => f == e && f != Errno(4)
  }

  lemma Answered(before: seq<Result<nat>>, answer: Result<nat>)
    requires AllGoOn(before)
    ensures var now := before + [answer];
            && (GoesOn(answer) ==> AllGoOn(now))
            && (answer == Ok(0) ==> GivesUp(now, EIO))
            && (answer.Err? && answer.error != EINTR ==> GivesUp(now, answer.error))
  {
    var now := before + [answer];
    assert now[..|now| - 1] == before && now[|now| - 1] == answer;
    if GoesOn(answer) {
      forall i | 0 <= i < |now| ensures GoesOn(now[i]) {
        assert i < |before| ==> now[i] == before[i];
      }
    }
  }

  /** What is accepted is always a prefix of the input, the whole of it on success. The loop goes
      on after every short count and EINTR; it gives up only at a zero count, with EIO, or at
      another error, with that error. `now` are the descriptor's answers to it. */
  method WriteAll(sink: Sink, data: seq<byte>) returns (r: Result<()>, ghost now: seq<Result<nat>>)
    modifies sink
    ensures sink.answers == old(sink.answers) + now && WriterAfter(data, now) == Wrote(r)
    ensures r.Ok? ==> sink.accepted == old(sink.accepted) + data && AllGoOn(now)
    ensures r.Err? ==> exists k: nat | k < |data| :: sink.accepted == old(sink.accepted) + data[..k]
    ensures r.Err? ==> GivesUp(now, r.error)
  {
    var buf := data;
    now := [];
    ghost var k: nat := 0;
    assert data[..0] == [];
    while buf != []
      invariant k <= |data| && buf == data[k..] && sink.accepted == old(sink.accepted) + data[..k]
      invariant sink.answers == old(sink.answers) + now
      invariant WriterAfter(data, now) == WriterHead(buf) && AllGoOn(now)
      decreases |buf|, sink.interrupts
    {
      var w := sink.Write(buf);
      WriterSnoc(data, now, w);
      Answered(now, w);
      Associative(old(sink.answers), now, [w]);
      now := now + [w];
      match w
      case Ok(n) =>
        assert data[..k] + buf[..n] == data[..k + n];
        if n == 0 {
          return Err(EIO), now;
        }
        buf := buf[n..];
        k := k + n;
      case Err(e) =>
        if e != EINTR {
          return Err(e), now;
        }
    }
    assert data[..k] == data;
    return Ok(()), now;
  }

  /** So it fails exactly if some answer is a zero count or another error than EINTR, and asks
      nothing more after that. */
  lemma WriteAllFailsExactly(now: seq<Result<nat>>, r: Result<()>, i: nat)
    requires (if r.Ok? then AllGoOn(now) else GivesUp(now, r.error)) && i < |now|
    ensures !GoesOn(now[i]) ==> r.Err? && i == |now| - 1
    ensures r.Err? && i == |now| - 1 ==> !GoesOn(now[i])
  {
    if r.Err? && i < |now| - 1 {
      assert GoesOn(now[..|now| - 1][i]);
    }
  }

  /** A descriptor open for reading: `stream` is what is still to be read before end of file,
      `answers` what it has delivered so far. */
  class Source {
    var stream: seq<byte>
    var answers: seq<Result<seq<byte>>>
    var interrupts: nat

    constructor (stream: seq<byte>, interrupts: nat)
      ensures this.stream == stream && answers == [] && this.interrupts == interrupts
    {
      this.stream := stream;
      answers := [];
      this.interrupts := interrupts;
    }

    /** `read(2)` into `buf[from..]`: any non-empty part, nothing only at end of file or when
        there is no room. */
    method Read(buf: array<byte>, from: nat) returns (r: Result<nat>)
      requires from <= buf.Length
      modifies this, buf
      ensures r.Ok? ==>
                && r.value <= |old(stream)| && from + r.value <= buf.Length
                && (r.value == 0 ==> from == buf.Length || stream == [])
                && stream == old(stream)[r.value..] && interrupts == old(interrupts)
                && buf[..] == Overlaid(old(buf[..]), from, old(stream)[..r.value])
      ensures r.Err? ==> stream == old(stream) && buf[..] == old(buf[..])
      ensures r == Err(EINTR) ==> interrupts < old(interrupts)
      ensures r != Err(EINTR) ==> interrupts == old(interrupts)
      ensures answers == old(answers) + [Delivered(old(stream), r)]
    {
      var interrupted: bool, failed: bool := *, *;
      if interrupted && interrupts > 0 {
        interrupts := interrupts - 1;
        answers := answers + [Err(EINTR)];
        return Err(EINTR);
      }
      if failed {
        var code: int := *;
        var e := Errno(if code == EINTR.code then EIO.code else code);
        answers := answers + [Err(e)];
        return Err(e);
      }
      var most := Min(|stream|, buf.Length - from);
      assert most == 0 ==> 0 <= most <= most;
      var n :| 0 <= n <= most && (n == 0 ==> most == 0);
      forall i | from <= i < from + n {
        buf[i] := stream[i - from];
      }
      answers := answers + [Ok(stream[..n])];
      stream := stream[n..];
      return Ok(n);
    }
  }

  /** `s` with `t` written over it at `i`. */
  function Overlaid(s: seq<byte>, i: nat, t: seq<byte>): (r: seq<byte>)
    requires i + |t| <= |s|
    ensures |r| == |s|
  {
    s[..i] + t + s[i + |t|..]
  }

  /** `k` bytes have gone from the stream `all` to the front of the buffer `was`. */
  ghost predicate Took(all: seq<byte>, was: seq<byte>, k: nat, stream: seq<byte>, now: seq<byte>) {
    k <= |all| && k <= |was| && stream == all[k..] && now == Overlaid(was, 0, all[..k])
  }

  lemma TookMore(all: seq<byte>, was: seq<byte>, i: nat, stream: seq<byte>, now: seq<byte>, k: nat)
    requires Took(all, was, i, stream, now) && k <= |stream| && i + k <= |was|
    ensures Took(all, was, i + k, stream[k..], Overlaid(now, i, stream[..k]))
  {
    Spliced(all, was, i, k);
  }

  /** The loop of `read_all`: the bytes read so far, and what it returned. */
  datatype Reader = Reading(got: seq<byte>) | Done(result: Result<nat>, got: seq<byte>)

  function ReaderHead(room: nat, got: seq<byte>): Reader {
    if |got| >= room then Done(Ok(|got|), got) else Reading(got)
  }

  /** One turn of the loop; the answer of a successful read is what it delivered. */
  function Fetched(room: nat, got: seq<byte>, answer: Result<seq<byte>>): Reader {
    match answer
    case Ok(bytes) => if bytes == [] then Done(Ok(|got|), got) else ReaderHead(room, got + bytes)
    case Err(e) => if e == EINTR then Reading(got) else Done(Err(e), got)
  }

  function ReaderAfter(room: nat, answers: seq<Result<seq<byte>>>): Reader {
    if answers == [] then ReaderHead(room, [])
    else
      match ReaderAfter(room, answers[..|answers| - 1])
      case Reading(got) => Fetched(room, got, answers[|answers| - 1])
      case done => done
  }

  lemma ReaderSnoc(room: nat, answers: seq<Result<seq<byte>>>, answer: Result<seq<byte>>)
    requires ReaderAfter(room, answers).Reading?
    ensures ReaderAfter(room, answers + [answer]) == Fetched(room, ReaderAfter(room, answers).got, answer)
  {
    assert (answers + [answer])[..|answers|] == answers;
  }

  /** What a read delivered, by its count. */
  function Delivered(stream: seq<byte>, n: Result<nat>): Result<seq<byte>>
    requires n.Ok? ==> n.value <= |stream|
  {
    match n
    case Ok(k) => Ok(stream[..k])
    case Err(e) => Err(e)
  }

  /** An answer the loop of `read_all` goes on after. */
  predicate ReadsOn(answer: Result<seq<byte>>) {
    answer == Err(Errno(4)) || (answer.Ok? && answer.value != [])
  }

  /** The result depends only on the stream and the buffer size, not on how the kernel cuts
      the reads: the buffer takes the stream's front, its tail stays untouched, and a short
      count means end of file. The loop goes on after every short read and EINTR, and fails only
      with another error. `now` are the descriptor's answers to it. */
  method ReadAll(source: Source, buf: array<byte>) returns (r: Result<nat>, ghost now: seq<Result<seq<byte>>>)
    modifies source, buf
    ensures source.answers == old(source.answers) + now
    ensures exists k: nat | k <= |old(source.stream)| ::
              ReaderAfter(buf.Length, now) == Done(r, old(source.stream)[..k])
    ensures r.Ok? ==>
              && r.value == Min(|old(source.stream)|, buf.Length)
              && Took(old(source.stream), old(buf[..]), r.value, source.stream, buf[..])
    ensures r.Err? ==>
              r.error != EINTR && exists k :: Took(old(source.stream), old(buf[..]), k, source.stream, buf[..])
    ensures forall i | 0 <= i < |now| - 1 :: ReadsOn(now[i])
    ensures r.Err? <==> |now| > 0 && now[|now| - 1].Err? && now[|now| - 1].error != Errno(4)
    ensures r.Err? ==> now[|now| - 1] == Err(r.error)
  {
    var total := 0;
    now := [];
    ghost var all, was := source.stream, buf[..];
    assert all[..0] == [];
    while total < buf.Length
      invariant 0 <= total <= buf.Length && Took(all, was, total, source.stream, buf[..])
      invariant source.answers == old(source.answers) + now
      invariant ReaderAfter(buf.Length, now) == ReaderHead(buf.Length, all[..total])
      invariant forall i | 0 <= i < |now| :: ReadsOn(now[i])
      decreases buf.Length - total, source.interrupts
    {
      ghost var stream, had := source.stream, buf[..];
      var n := source.Read(buf, total);
      ReaderSnoc(buf.Length, now, Delivered(stream, n));
      now := now + [Delivered(stream, n)];
      match n
      case Ok(k) =>
        TookMore(all, was, total, stream, had, k);
        assert all[..total] + stream[..k] == all[..total + k];
        if k == 0 {
          return Ok(total), now;
        }
        total := total + k;
      case Err(e) =>
        if e != EINTR {
          return Err(e), now;
        }
    }
    return Ok(total), now;
  }

  /** A buffer filled up to `i`, then by `k` more. */
  lemma Spliced(all: seq<byte>, was: seq<byte>, i: nat, k: nat)
    requires i + k <= |all| && i + k <= |was|
    ensures Overlaid(Overlaid(was, 0, all[..i]), i, all[i..][..k]) == Overlaid(was, 0, all[..i + k])
  {
  }

  // ---- a writer and a reader on one pipe ----

  /** The two loops on one pipe; the writer closes its end when `write_all` returns. `sent`
      counts the bytes the pipe has accepted. */
  datatype Pipe = Pipe(writer: Writer, sent: nat, queue: seq<byte>, reader: Reader)

  datatype Job = Job(data: seq<byte>, capacity: nat, room: nat)

  function Start(j: Job): Pipe {
    Pipe(WriterHead(j.data), 0, [], ReaderHead(j.room, []))
  }

  /** A write: any count the pipe has room for, zero included, or any error without effect. */
  predicate Writes(j: Job, p: Pipe, answer: Result<nat>, p': Pipe) {
    && p.writer.Writing? && (answer.Ok? ==> answer.value <= |p.writer.rest|)
    && var n := if answer.Ok? then answer.value else 0;
       && (n > 0 ==> |p.queue| + n <= j.capacity)
       && p' == Pipe(Fed(p.writer.rest, answer), p.sent + n, p.queue + p.writer.rest[..n], p.reader)
  }

  /** A read: any part that is there and fits, nothing only at end of file, or any error. */
  predicate Reads(j: Job, p: Pipe, answer: Result<seq<byte>>, p': Pipe) {
    && p.reader.Reading?
    && var bytes := if answer.Ok? then answer.value else [];
       && bytes <= p.queue && |p.reader.got| + |bytes| <= j.room
       && (answer == Ok([]) ==> p.queue == [] && p.writer.Wrote?)
       && p' == p.(queue := p.queue[|bytes|..], reader := Fetched(j.room, p.reader.got, answer))
  }

  /** Any interleaving of the two loops. */
  ghost function Moves(j: Job): (Pipe, Pipe) -> bool {
    (p: Pipe, p': Pipe) => (exists answer :: Writes(j, p, answer, p')) || exists answer :: Reads(j, p, answer, p')
  }

  /** Bytes are in one place each, and a loop that has returned says why. */
  predicate Flows(j: Job, p: Pipe) {
    && p.sent <= |j.data| && p.reader.got + p.queue == j.data[..p.sent] && |p.reader.got| <= j.room
    && WriterTells(j, p) && ReaderTells(j, p)
  }

  predicate WriterTells(j: Job, p: Pipe)
    requires p.sent <= |j.data|
  {
    match p.writer
    case Writing(rest) => rest == j.data[p.sent..] && rest != []
    case Wrote(r) => r.Ok? <==> p.sent == |j.data|
  }

  predicate ReaderTells(j: Job, p: Pipe) {
    p.reader.Done? && p.reader.result.Ok? ==>
      && p.reader.result.value == |p.reader.got|
      && (|p.reader.got| == j.room || (p.queue == [] && p.writer.Wrote?))
  }

  lemma WriteKeeps(j: Job, p: Pipe, answer: Result<nat>, p': Pipe)
    requires Flows(j, p) && Writes(j, p, answer, p')
    ensures Flows(j, p')
  {
    var n := if answer.Ok? then answer.value else 0;
    var rest := p.writer.rest;
    assert p.reader.got + (p.queue + rest[..n]) == j.data[..p.sent] + rest[..n] == j.data[..p.sent + n];
    assert rest[n..] == j.data[p.sent + n..];
  }

  lemma ReadKeeps(j: Job, p: Pipe, answer: Result<seq<byte>>, p': Pipe)
    requires Flows(j, p) && Reads(j, p, answer, p')
    ensures Flows(j, p')
  {
    var bytes := if answer.Ok? then answer.value else [];
    assert p.queue == bytes + p.queue[|bytes|..];
    assert (p.reader.got + bytes) + p.queue[|bytes|..] == p.reader.got + p.queue;
    assert p.reader.got + [] == p.reader.got;
  }

  lemma FlowsKept(j: Job, p: Pipe, p': Pipe)
    requires Flows(j, p) && Moves(j)(p, p')
    ensures Flows(j, p')
  {
    if answer :| Writes(j, p, answer, p') {
      WriteKeeps(j, p, answer, p');
    } else {
      var answer :| Reads(j, p, answer, p');
      ReadKeeps(j, p, answer, p');
    }
  }

  /** Through a pipe of any capacity, under any interleaving of the two loops and any answers of
      the kernel, the reader holds the front of the data. If it returned Ok it has filled its
      buffer, or it has all that was accepted before the writer returned: all of the data if
      the writer returned Ok as well, a proper part if it failed. */
  lemma PipeIsTransparent(j: Job, ps: seq<Pipe>, k: nat)
    requires IsRun(Moves(j), ps) && ps[0] == Start(j) && k < |ps|
    ensures ps[k].reader.got <= j.data && ps[k].sent <= |j.data|
    ensures ps[k].reader.Done? && ps[k].reader.result.Ok? ==>
              && ps[k].reader.result.value == |ps[k].reader.got|
              && ps[k].reader.got == j.data[..Min(ps[k].sent, j.room)]
              && (|ps[k].reader.got| < j.room ==> ps[k].writer.Wrote?)
    ensures ps[k].writer.Wrote? ==> (ps[k].writer.result.Ok? <==> ps[k].sent == |j.data|)
  {
    var inv := (p: Pipe) => Flows(j, p);
    forall p, p' | inv(p) && Moves(j)(p, p') ensures inv(p') {
      FlowsKept(j, p, p');
    }
    assert j.data[..0] == [] && j.data[0..] == j.data;
    AlongRun(Moves(j), inv, ps, k);
    var p := ps[k];
    assert p.reader.got == (p.reader.got + p.queue)[..|p.reader.got|];
    assert p.reader.got == j.data[..p.sent][..|p.reader.got|] == j.data[..|p.reader.got|];
  }

  /** Until the reader has returned, someone can always make progress. */
  lemma PipeNeverDeadlocks(j: Job, p: Pipe) returns (p': Pipe)
    requires Flows(j, p) && j.capacity > 0 && p.reader.Reading? && |p.reader.got| < j.room
    ensures p' != p && Moves(j)(p, p')
  {
    if p.queue != [] || p.writer.Wrote? {
      var bytes := if p.queue == [] then [] else p.queue[..1];
      p' := p.(queue := p.queue[|bytes|..], reader := Fetched(j.room, p.reader.got, Ok(bytes)));
      assert Reads(j, p, Ok(bytes), p');
      assert p'.reader != p.reader by {
        if bytes != [] {
          assert |p.reader.got + bytes| == |p.reader.got| + 1;
        }
      }
    } else {
      p' := Pipe(Fed(p.writer.rest, Ok(1)), p.sent + 1, p.queue + p.writer.rest[..1], p.reader);
      assert Writes(j, p, Ok(1), p');
    }
  }
}
