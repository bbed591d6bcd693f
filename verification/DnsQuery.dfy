/** Nameserver list, retry loop and the two lookups of the resolver (src/dns.rs). */
module DnsQuery {
  import opened Base
  import opened Os
  import opened DnsWalk
  import opened DnsCodec
  import opened DnsBuild
  import opened Decimal

  const MAX_NAMESERVERS := 3

  // ---- reading /etc/resolv.conf ----

  /** "/etc/resolv.conf". */
  const RESOLV: seq<byte> := [47, 101, 116, 99, 47, 114, 101, 115, 111, 108, 118, 46, 99, 111, 110, 102]

  lemma ConfigPath()
    ensures RESOLV == Ascii("/etc/resolv.conf")
  {
    SameBytes(RESOLV, "/etc/resolv.conf");
  }

  /** One of the calls made since `before` failed with `e`. */
  ghost predicate Failed(before: seq<Call>, now: seq<Call>, e: Errno) {
    before <= now && exists i | |before| <= i < |now| :: now[i].Fails(e)
  }

  lemma FailedLast(before: seq<Call>, now: seq<Call>, c: Call, e: Errno)
    requires before <= now && c.Fails(e)
    ensures Failed(before, now + [c], e)
  {
    assert (now + [c])[|now|] == c;
  }

  lemma FailedKept(before: seq<Call>, now: seq<Call>, c: Call, e: Errno)
    requires Failed(before, now, e)
    ensures Failed(before, now + [c], e)
  {
    var i :| |before| <= i < |now| && now[i].Fails(e);
    assert (now + [c])[i] == now[i];
  }

  /** The read loop of `read_nameservers`: the front of the file's `content`, all of it unless
      the buffer is full, or the error of a failed call; the descriptor is closed again on every
      path. */
  method ReadConfig(os: Kernel, raw: array<byte>) returns (r: Result<nat>, ghost content: seq<byte>)
    requires raw.Length > 0
    modifies os, raw
    ensures os.open == old(os.open) && os.log == old(os.log)
    ensures |os.calls| > |old(os.calls)| && old(os.calls) <= os.calls
    ensures os.calls[|old(os.calls)|].Opened? && os.calls[|old(os.calls)|].path == RESOLV
    ensures r.Ok? ==> r.value == Min(|content|, raw.Length) && raw[..r.value] == content[..r.value]
    ensures r.Err? ==> Failed(old(os.calls), os.calls, r.error)
  {
    content := [];
    var f := os.Open(RESOLV);
    if f.Err? {
      FailedLast(old(os.calls), old(os.calls), Opened(RESOLV, f), f.error);
      return Err(f.error), content;
    }
    content := os.file;
    var total: nat := 0;
    while true
      invariant total < raw.Length && os.open == old(os.open) + {f.value} && os.log == old(os.log)
      invariant old(os.calls) + [Opened(RESOLV, f)] <= os.calls
      invariant total <= |content| && raw[..total] == content[..total] && os.file == content[total..]
      decreases raw.Length - total
    {
      ghost var before := os.calls;
      var n := os.Read(f.value, raw, total);
      if n.Err? {
        FailedLast(old(os.calls), before, ReadSome(f.value, n), n.error);
        FailedKept(old(os.calls), os.calls, Closed(f.value), n.error);
        os.Close(f.value);
        return Err(n.error), content;
      }
      assert content[..total] + content[total..][..n.value] == content[..total + n.value];
      if n.value == 0 || total + n.value >= raw.Length {
        total := total + n.value;
        break;
      }
      total := total + n.value;
    }
    os.Close(f.value);
    return Ok(total), content;
  }

  /** The first three addresses the file names, which must be one at least. */
  function Servers(found: Result<seq<Addr>>): (r: Result<seq<Addr>>)
    ensures r.Ok? <==> found.Ok? && found.value != []
    ensures r.Ok? ==> r.value <= found.value && |r.value| == if |found.value| < 3 then |found.value| else 3
    ensures r.Err? ==> r.error == if found.Err? then found.error else Errno(22)
  {
    match found
    case Err(e) => Err(e)
    case Ok(addrs) => if addrs == [] then Err(EINVAL) else Ok(addrs[..Min(|addrs|, MAX_NAMESERVERS)])
  }

  /** `read_nameservers`, its text handling given as `parse`; `content` is that of the file, if it
      could be read. */
  method ReadNameservers(os: Kernel, parse: seq<byte> -> Result<seq<Addr>>)
    returns (r: Result<seq<Addr>>, ghost content: Option<seq<byte>>)
    modifies os
    ensures os.open == old(os.open) && os.log == old(os.log) && old(os.calls) <= os.calls
    ensures match content
            case Some(text) => r == Servers(parse(text[..Min(|text|, 4096)]))
            case None => r.Err? && Failed(old(os.calls), os.calls, r.error)
  {
    content := None;
    var raw := new byte[4096](_ => 0);
    ghost var text;
    var total;
    total, text := ReadConfig(os, raw);
    if total.Err? {
      return Err(total.error), content;
    }
    content := Some(text);
    var found := parse(raw[..total.value]);
    if found.Err? {
      return Err(found.error), content;
    }
    if found.value == [] {
      return Err(EINVAL), content;
    }
    return Ok(found.value[..Min(|found.value|, MAX_NAMESERVERS)]), content;
  }

  // ---- one attempt at one server ----

  datatype Try =
    | NotSent
    | PollFailed(error: Errno)
    | Silent
    | NotReceived(error: Errno, ready: Ready)
    | Reply(from: Addr, datagram: Datagram, ready: Ready)

  /** What `poll` returns when something has arrived. */
  type Ready = n: nat | n > 0 witness 1

  /** Where an attempt goes: our socket, and the packet to send. */
  datatype Line = Line(sock: int, packet: seq<byte>)

  /** The socket events an attempt consists of. */
  function Trace(server: Addr, l: Line, t: Try): seq<Event> {
    var send := [Send(l.sock, server, 53, l.packet, !t.NotSent?)];
    match t
    case NotSent => send
    case PollFailed(e) => send + [Poll(l.sock, Err(e))]
    case Silent => send + [Poll(l.sock, Ok(0))]
    case NotReceived(e, n) => send + [Poll(l.sock, Ok(n)), Recv(l.sock, Err(e))]
    case Reply(from, d, n) => send + [Poll(l.sock, Ok(n)), Recv(l.sock, Ok((from, d)))]
  }

  /** A reply that ends the search: from the server asked, long enough, with our id. */
  predicate Genuine(server: Addr, id: u16, t: Try) {
    t.Reply? && t.from == server && |t.datagram| >= 12 && Be16(t.datagram[0], t.datagram[1]) == id
  }

  /** What an attempt decides; None goes on to the next server. */
  function Decision(server: Addr, id: u16, t: Try): Option<Result<Datagram>> {
    if t.PollFailed? then Some(Err(t.error))
    else if Genuine(server, id, t) then Some(Ok(t.datagram))
    else None
  }

  method Ask(os: Kernel, l: Line, server: Addr, id: u16)
    returns (d: Option<Result<Datagram>>, t: Try)
    modifies os`log
    ensures os.log == old(os.log) + Trace(server, l, t)
    ensures d == Decision(server, id, t)
  {
    var sent := os.SendTo(l.sock, l.packet, server, 53);
    if !sent {
      return None, NotSent;
    }
    var ready := os.PollIn(l.sock);
    if ready.Err? {
      return Some(Err(ready.error)), PollFailed(ready.error);
    }
    if ready.value == 0 {
      return None, Silent;
    }
    var got := os.RecvFrom(l.sock);
    if got.Err? {
      return None, NotReceived(got.error, ready.value);
    }
    var (from, datagram) := got.value;
    t := Reply(from, datagram, ready.value);
    if from != server || |datagram| < 12 {
      return None, t;
    }
    if Be16(datagram[0], datagram[1]) != id {
      return None, t;
    }
    return Some(Ok(datagram)), t;
  }

  // ---- the retry loop ----

  /** The server of the `i`-th attempt, in two rounds over the list. */
  function ServerAt(servers: seq<Addr>, i: nat): Addr
    requires servers != []
  {
    var n := |servers|;
    if i < n then servers[i] else if i < 2 * n then servers[i - n] else servers[0]
  }

  /** The socket events of a run of attempts. */
  function Traces(servers: seq<Addr>, l: Line, ts: seq<Try>): seq<Event>
    requires servers != []
  {
    if ts == [] then []
    else
      var i := |ts| - 1;
      Traces(servers, l, ts[..i]) + Trace(ServerAt(servers, i), l, ts[i])
  }

  /** None of the attempts decided anything. */
  predicate Undecided(servers: seq<Addr>, id: u16, ts: seq<Try>)
    requires servers != []
  {
    forall i | 0 <= i < |ts| :: Decision(ServerAt(servers, i), id, ts[i]).None?
  }

  /** `r` is what the attempts `ts` lead to: the decision of the last one, none before it
      having decided, or the resolver's own ETIMEDOUT after two full rounds. */
  predicate Outcome(servers: seq<Addr>, id: u16, ts: seq<Try>, r: Result<Datagram>)
    requires servers != []
  {
    && |ts| <= 2 * |servers|
    && ((|ts| > 0 && Undecided(servers, id, ts[..|ts| - 1])
         && Decision(ServerAt(servers, |ts| - 1), id, ts[|ts| - 1]) == Some(r))
        || (|ts| == 2 * |servers| && Undecided(servers, id, ts) && r == Err(ETIMEDOUT)))
  }

  /** The next attempt, after `ts` undecided ones. */
  method AskNext(os: Kernel, l: Line, servers: seq<Addr>, server: Addr, id: u16, ghost ts: seq<Try>, ghost start: seq<Event>)
    returns (d: Option<Result<Datagram>>, ghost now: seq<Try>)
    requires |ts| < 2 * |servers| && ServerAt(servers, |ts|) == server && Undecided(servers, id, ts)
    requires os.log == start + Traces(servers, l, ts)
    modifies os`log
    ensures |now| == |ts| + 1 && os.log == start + Traces(servers, l, now)
    ensures match d
            case None => Undecided(servers, id, now)
            case Some(r) => Outcome(servers, id, now, r)
  {
    var t;
    d, t := Ask(os, l, server, id);
    TracesSnoc(servers, l, ts, t);
    Associative(start, Traces(servers, l, ts), Trace(server, l, t));
    if d.Some? {
      DecidesNow(servers, id, ts, t, d.value);
    } else {
      UndecidedSnoc(servers, id, ts, t);
    }
    now := ts + [t];
  }

  /** The closure in `query`. */
  method AskAll(os: Kernel, l: Line, servers: seq<Addr>, id: u16)
    returns (r: Result<Datagram>, ghost ts: seq<Try>)
    requires servers != []
    modifies os`log
    ensures Outcome(servers, id, ts, r) && os.log == old(os.log) + Traces(servers, l, ts)
  {
    ts := [];
    for round := 0 to 2
      invariant |ts| == Done(round, |servers|) && Undecided(servers, id, ts)
      invariant os.log == old(os.log) + Traces(servers, l, ts)
    {
      for k := 0 to |servers|
        invariant |ts| == Done(round, |servers|) + k && Undecided(servers, id, ts)
        invariant os.log == old(os.log) + Traces(servers, l, ts)
      {
        TakesTurn(servers, round, k);
        var d;
        d, ts := AskNext(os, l, servers, servers[k], id, ts, old(os.log));
        if d.Some? {
          return d.value, ts;
        }
      }
    }
    return Err(ETIMEDOUT), ts;
  }

  /** Attempts made before a round. */
  function Done(round: nat, n: nat): nat {
    if round == 0 then 0 else if round == 1 then n else 2 * n
  }

  /** Whose turn it is. */
  lemma TakesTurn(servers: seq<Addr>, round: nat, k: nat)
    requires round < 2 && k < |servers|
    ensures ServerAt(servers, Done(round, |servers|) + k) == servers[k]
  {
  }

  lemma TracesSnoc(servers: seq<Addr>, l: Line, ts: seq<Try>, t: Try)
    requires servers != []
    ensures Traces(servers, l, ts + [t])
         == Traces(servers, l, ts) + Trace(ServerAt(servers, |ts|), l, t)
  {
    assert (ts + [t])[..|ts|] == ts;
  }

  lemma UndecidedSnoc(servers: seq<Addr>, id: u16, ts: seq<Try>, t: Try)
    requires servers != [] && Undecided(servers, id, ts) && Decision(ServerAt(servers, |ts|), id, t).None?
    ensures Undecided(servers, id, ts + [t])
  {
    forall i | 0 <= i < |ts + [t]| ensures Decision(ServerAt(servers, i), id, (ts + [t])[i]).None? {
      assert i < |ts| ==> (ts + [t])[i] == ts[i];
    }
  }

  lemma DecidesNow(servers: seq<Addr>, id: u16, ts: seq<Try>, t: Try, r: Result<Datagram>)
    requires |ts| < 2 * |servers| && Undecided(servers, id, ts)
    requires Decision(ServerAt(servers, |ts|), id, t) == Some(r)
    ensures Outcome(servers, id, ts + [t], r)
  {
    var us := ts + [t];
    assert us[..|us| - 1] == ts && us[|us| - 1] == t;
  }

  /** `query` with the packet built, from the socket call on: the socket is closed exactly
      once and nothing else is. */
  method Exchange(os: Kernel, servers: seq<Addr>, id: u16, packet: seq<byte>)
    returns (r: Result<Datagram>, ghost ts: seq<Try>, ghost sock: Result<int>)
    requires servers != []
    modifies os
    ensures os.open == old(os.open)
    ensures match sock
            case Ok(fd) =>
              && os.calls == old(os.calls) + [Socketed(sock)] + [Closed(fd)]
              && os.log == old(os.log) + Traces(servers, Line(fd, packet), ts) && Outcome(servers, id, ts, r)
            case Err(e) => os.calls == old(os.calls) + [Socketed(sock)] && os.log == old(os.log) && r == Err(e)
  {
    ts := [];
    var s := os.Socket();
    sock := s;
    if s.Err? {
      return Err(s.error), ts, sock;
    }
    r, ts := AskAll(os, Line(s.value, packet), servers, id);
    os.Close(s.value);
  }

  /** `query`, up to its call of `socket`: a packet can be built for some servers. */
  predicate Prepared(found: Result<seq<Addr>>, random: Result<u16>, host: seq<byte>) {
    Servers(found).Ok? && random.Ok? && GoodHost(host) && |host| + 18 <= 256
  }

  /** Why there was none: the first of these that failed. */
  function Refusal(found: Result<seq<Addr>>, random: Result<u16>): Errno {
    if Servers(found).Err? then Servers(found).error
    else if random.Err? then random.error
    else Errno(22)
  }

  /** `query`: the descriptors are as they were on every path. `content` is the file's if it could
      be read, `random` what `getrandom` delivers, `sock` the result of `socket` if the call got
      that far; each of the three says why an error is returned where it is. With a socket, what
      was sent and received, and what is returned, is that of the attempts `ts`. */
  method QueryFor(os: Kernel, parse: seq<byte> -> Result<seq<Addr>>, random: Result<u16>,
                  host: seq<byte>, k: Kind)
    returns (r: Result<Datagram>, ghost content: Option<seq<byte>>, ghost ts: seq<Try>, ghost sock: Option<Result<int>>)
    modifies os
    ensures os.open == old(os.open)
    ensures match content
            case None => sock.None? && os.log == old(os.log) && r.Err? && Failed(old(os.calls), os.calls, r.error)
            case Some(text) =>
              var found := parse(text[..Min(|text|, 4096)]);
              match sock
              case None => os.log == old(os.log) && !Prepared(found, random, host) && r == Err(Refusal(found, random))
              case Some(Err(e)) =>
                && os.log == old(os.log) && Prepared(found, random, host) && r == Err(e)
                && |os.calls| > 0 && os.calls[|os.calls| - 1] == Socketed(Err(e))
              case Some(Ok(fd)) =>
                && Prepared(found, random, host) && Outcome(Servers(found).value, random.value, ts, r)
                && |os.calls| > 1 && os.calls[|os.calls| - 2..] == [Socketed(Ok(fd)), Closed(fd)]
                && GoodLabels(Split(host))
                && os.log == old(os.log)
                   + Traces(Servers(found).value, Line(fd, Encode(Query(random.value, host, if k.A? then 1 else 28))), ts)
  {
    ts, sock := [], None;
    var found;
    found, content := ReadNameservers(os, parse);
    if found.Err? {
      return Err(found.error), content, ts, sock;
    }
    if random.Err? {
      return Err(random.error), content, ts, sock;
    }
    var qbuf := new byte[256](_ => 0);
    var qlen := BuildQuery(qbuf, random.value, host, k.Type());
    Buildable(host);
    if qlen.Err? {
      return Err(qlen.error), content, ts, sock;
    }
    ghost var s;
    r, ts, s := Exchange(os, found.value, random.value, qbuf[..qlen.value]);
    sock := Some(s);
  }

  // ---- what the outcome means ----

  /** A reply from the server asked in attempt `i`, with a header and our id, ends the search
      with it; so does a failed `poll`, with its error. */
  lemma DecisiveTry(servers: seq<Addr>, id: u16, ts: seq<Try>, r: Result<Datagram>, i: nat)
    requires servers != [] && Outcome(servers, id, ts, r) && i < |ts|
    ensures ts[i].Reply? && ts[i].from == (if i < |servers| then servers[i] else servers[i - |servers|])
            && |ts[i].datagram| >= 12 && ts[i].datagram[0] as int * 0x100 + ts[i].datagram[1] == id
            ==> i == |ts| - 1 && r == Ok(ts[i].datagram)
    ensures ts[i].PollFailed? ==> i == |ts| - 1 && r == Err(ts[i].error)
  {
    if i < |ts| - 1 && Undecided(servers, id, ts[..|ts| - 1]) {
      assert ts[..|ts| - 1][i] == ts[i];
    }
  }

  /** An accepted datagram came in the last attempt, from the server asked there, with a header
      and our id. An error is that of a failed `poll` in the last attempt, or our own ETIMEDOUT
      after two full rounds. Each attempt sends once. */
  lemma OutcomeMeans(servers: seq<Addr>, l: Line, id: u16, ts: seq<Try>, r: Result<Datagram>)
    requires servers != [] && Outcome(servers, id, ts, r)
    ensures r.Ok? ==>
              && 0 < |ts| <= 2 * |servers|
              && var i := |ts| - 1;
                 && ts[i].Reply? && r.value == ts[i].datagram && |r.value| >= 12
                 && ts[i].from == (if i < |servers| then servers[i] else servers[i - |servers|])
                 && r.value[0] as int * 0x100 + r.value[1] == id
    ensures r.Err? ==>
              (|ts| == 2 * |servers| && r.error == Errno(110)) || (|ts| > 0 && ts[|ts| - 1] == PollFailed(r.error))
    ensures Sends(Traces(servers, l, ts)) == |ts| <= 2 * |servers|
  {
    SendsOfTraces(servers, l, ts);
  }

  /** Send attempts in a log. */
  function Sends(log: seq<Event>): nat {
    if log == [] then 0 else Sends(log[..|log| - 1]) + (if log[|log| - 1].Send? then 1 else 0)
  }

  lemma {:induction false} SendsConcat(a: seq<Event>, b: seq<Event>)
    ensures Sends(a + b) == Sends(a) + Sends(b)
    decreases |b|
  {
    if b == [] {
      assert a + b == a;
    } else {
      assert (a + b)[..|a + b| - 1] == a + b[..|b| - 1];
      SendsConcat(a, b[..|b| - 1]);
    }
  }

  lemma SendsOfOne(e: Event)
    ensures Sends([e]) == if e.Send? then 1 else 0
  {
    assert [e][..0] == [];
  }

  /** Each attempt sends once. */
  lemma SendsOfTrace(server: Addr, l: Line, t: Try)
    ensures Sends(Trace(server, l, t)) == 1
  {
    var s := Trace(server, l, t);
    SendsOfOne(s[0]);
    if |s| == 1 {
      assert s == [s[0]];
    } else if |s| == 2 {
      SendsOfOne(s[1]);
      SendsConcat([s[0]], [s[1]]);
      assert s == [s[0]] + [s[1]];
    } else {
      SendsOfOne(s[1]);
      SendsOfOne(s[2]);
      SendsConcat([s[0]], [s[1]]);
      SendsConcat([s[0]] + [s[1]], [s[2]]);
      assert s == [s[0]] + [s[1]] + [s[2]];
    }
  }

  lemma {:induction false} SendsOfTraces(servers: seq<Addr>, l: Line, ts: seq<Try>)
    requires servers != []
    ensures Sends(Traces(servers, l, ts)) == |ts|
    decreases |ts|
  {
    if ts != [] {
      var i := |ts| - 1;
      SendsOfTraces(servers, l, ts[..i]);
      SendsOfTrace(ServerAt(servers, i), l, ts[i]);
      SendsConcat(Traces(servers, l, ts[..i]), Trace(ServerAt(servers, i), l, ts[i]));
    }
  }

  /** The second half of `resolve_a` and `resolve_aaaa`: the 512-byte receive buffer starts out
      zero, and only the datagram in it counts. */
  method ParseReceived(d: Datagram, k: Kind) returns (r: Result<seq<seq<byte>>>)
    ensures r == Answer(d, |d|, k)
  {
    var rbuf: seq<byte> := d + seq(512 - |d|, _ => 0);
    assert rbuf[..|d|] == d == d[..|d|];
    StaleBytesDoNotShow(rbuf, d, |d|, k);
    if k.A? {
      r := ParseAnswersA(rbuf, |d|);
    } else {
      r := ParseAnswersAaaa(rbuf, |d|);
    }
  }
}
