/** The resolver's walk over a DNS response (src/dns.rs). */
module DnsWalk {
  import opened Base

  const MAX_ADDRS := 8

  /** Which records a lookup wants: type and exact data length. */
  datatype Kind = A | Aaaa {
    function Type(): u16 { if A? then 1 else 28 }
    function Size(): nat { if A? then 4 else 16 }
  }

  /** The part of an answer record the parsers look at. */
  datatype Record = Record(rtype: u16, rdata: seq<byte>)

  datatype Header = Header(ancount: nat, firstAnswer: nat)

  /** `len & 0xC0 == 0xC0`: the two top bits of a length byte mark a compression pointer. */
  predicate IsPointer(len: byte) {
    len / 0x40 == 3
  }

  // ---- what the walk computes ----

  /** Where the name at `pos` ends; labels are stepped over by length, pointers not followed. */
  function NameEnd(buf: seq<byte>, pos: nat): (r: Result<nat>)
    ensures r.Ok? ==> pos < r.value <= |buf|
    ensures r.Err? ==> r.error == EINVAL
    decreases |buf| - pos
  {
    if pos >= |buf| then Err(EINVAL)
    else if buf[pos] == 0 then Ok(pos + 1)
    else if IsPointer(buf[pos]) then
      if pos + 1 >= |buf| then Err(EINVAL) else Ok(pos + 2)
    else NameEnd(buf, pos + 1 + buf[pos])
  }

  function ReadU16(buf: seq<byte>, pos: nat): (r: Result<u16>) {
    if pos + 2 > |buf| then Err(EINVAL) else Ok(Be16(buf[pos], buf[pos + 1]))
  }

  /** Where `count` questions from `pos` end. */
  function QuestionsEnd(buf: seq<byte>, n: nat, pos: nat, count: nat): (r: Result<nat>)
    ensures r.Ok? ==> pos + 5 * count <= r.value && (count > 0 ==> r.value <= n)
    ensures r.Err? ==> r.error == EINVAL
    decreases count
  {
    if count == 0 then Ok(pos)
    else
      var p :- NameEnd(buf, pos);
      if p + 4 > n then Err(EINVAL) else QuestionsEnd(buf, n, p + 4, count - 1)
  }

  function HeaderOf(buf: seq<byte>, n: nat): (r: Result<Header>)
    requires n <= |buf|
    ensures r.Ok? ==> 12 <= r.value.firstAnswer <= n && r.value.ancount < 0x1_0000
  {
    if n < 12 then Err(EINVAL)
    else
      var rcode := Be16(buf[2], buf[3]) % 0x10;
      if rcode == 3 then Err(ENOENT)
      else if rcode != 0 then Err(EINVAL)
      else
        var first :- QuestionsEnd(buf, n, 12, Be16(buf[4], buf[5]));
        Ok(Header(Be16(buf[6], buf[7]), first))
  }

  /** The record at `pos`, with the position behind it. */
  function RecordAt(buf: seq<byte>, n: nat, pos: nat): (r: Result<(Record, nat)>)
    requires n <= |buf|
    ensures r.Ok? ==> pos + 11 <= r.value.1 <= n
    ensures r.Err? ==> r.error == EINVAL
  {
    var p :- NameEnd(buf, pos);
    if p + 10 > n then Err(EINVAL)
    else
      var size := Be16(buf[p + 8], buf[p + 9]);
      if p + 10 + size > n then Err(EINVAL)
      else Ok((Record(Be16(buf[p], buf[p + 1]), buf[p + 10..p + 10 + size]), p + 10 + size))
  }

  function Records(buf: seq<byte>, n: nat, pos: nat, count: nat): (r: Result<seq<Record>>)
    requires n <= |buf|
    ensures r.Ok? ==> |r.value| == count && pos + 11 * count <= (if count > 0 then n else pos)
    ensures r.Err? ==> r.error == EINVAL
    decreases count
  {
    if count == 0 then Ok([])
    else
      var first :- RecordAt(buf, n, pos);
      var rest :- Records(buf, n, first.1, count - 1);
      Ok([first.0] + rest)
  }

  /** The data of the wanted records, in order. */
  function Wanted(rs: seq<Record>, k: Kind): (r: seq<seq<byte>>)
    ensures forall d | d in r :: |d| == k.Size()
  {
    if rs == [] then []
    else if rs[0].rtype == k.Type() && |rs[0].rdata| == k.Size() then [rs[0].rdata] + Wanted(rs[1..], k)
    else Wanted(rs[1..], k)
  }

  /** At most the first eight. */
  function Capped(ds: seq<seq<byte>>): seq<seq<byte>> {
    ds[..Min(|ds|, MAX_ADDRS)]
  }

  /** The result of `parse_answers_a` or `parse_answers_aaaa`. */
  function Answer(buf: seq<byte>, n: nat, k: Kind): (r: Result<seq<seq<byte>>>)
    requires n <= |buf|
  {
    var h :- HeaderOf(buf, n);
    var rs :- Records(buf, n, h.firstAnswer, h.ancount);
    var found := Capped(Wanted(rs, k));
    if found == [] then Err(ENOENT) else Ok(found)
  }

  // ---- the loops that compute it ----

  method SkipName(buf: seq<byte>, start: nat) returns (r: Result<nat>)
    ensures r == NameEnd(buf, start)
  {
    var pos := start;
    while true
      invariant NameEnd(buf, pos) == NameEnd(buf, start)
      decreases |buf| - pos
    {
      if pos >= |buf| {
        return Err(EINVAL);
      }
      var len := buf[pos];
      if len == 0 {
        pos := pos + 1;
        return Ok(pos);
      }
      if IsPointer(len) {
        if pos + 1 >= |buf| {
          return Err(EINVAL);
        }
        return Ok(pos + 2);
      }
      pos := pos + 1 + len;
    }
  }

  method ParseHeader(buf: seq<byte>, n: nat) returns (r: Result<Header>)
    requires n <= |buf|
    ensures r == HeaderOf(buf, n)
  {
    if n < 12 {
      return Err(EINVAL);
    }
    var flags := ReadU16(buf, 2).Extract();
    var rcode := flags % 0x10;
    if rcode == 3 {
      return Err(ENOENT);
    }
    if rcode != 0 {
      return Err(EINVAL);
    }
    var qdcount := ReadU16(buf, 4).Extract();
    var ancount := ReadU16(buf, 6).Extract();
    var pos: nat := 12;
    for i := 0 to qdcount
      invariant QuestionsEnd(buf, n, pos, qdcount - i) == QuestionsEnd(buf, n, 12, qdcount)
    {
      pos :- SkipName(buf, pos);
      pos := pos + 4;
      if pos > n {
        return Err(EINVAL);
      }
    }
    return Ok(Header(ancount, pos));
  }

  /** The body of the record loop up to the type test. */
  method NextRecord(buf: seq<byte>, n: nat, start: nat) returns (r: Result<(Record, nat)>)
    requires n <= |buf|
    ensures r == RecordAt(buf, n, start)
  {
    var pos :- SkipName(buf, start);
    if pos + 10 > n {
      return Err(EINVAL);
    }
    var rtype := ReadU16(buf, pos).Extract();
    var rdlength := ReadU16(buf, pos + 8).Extract();
    pos := pos + 10;
    if pos + rdlength > n {
      return Err(EINVAL);
    }
    return Ok((Record(rtype, buf[pos..pos + rdlength]), pos + rdlength));
  }

  /** The fixed-capacity result list, `AddrList4` or `AddrList6`. */
  class AddrList {
    const addrs: array<seq<byte>>
    var len: nat

    ghost predicate Valid()
      reads this
    {
      addrs.Length == MAX_ADDRS && len <= MAX_ADDRS
    }

    function AsSlice(): (s: seq<seq<byte>>)
      requires Valid()
      reads this, addrs
      ensures |s| == len
    {
      addrs[..len]
    }

    constructor ()
      ensures Valid() && fresh(addrs) && AsSlice() == []
    {
      addrs := new seq<byte>[MAX_ADDRS](_ => []);
      len := 0;
    }

    /** A ninth address is dropped. */
    method Push(d: seq<byte>)
      requires Valid()
      modifies this, addrs
      ensures Valid() && AsSlice() == Capped(old(AsSlice()) + [d])
    {
      if len < MAX_ADDRS {
        addrs[len] := d;
        len := len + 1;
      }
    }
  }

  lemma CappedSnoc(ds: seq<seq<byte>>, d: seq<byte>)
    ensures Capped(Capped(ds) + [d]) == Capped(ds + [d])
  {
  }

  /** What one more record adds to the list of the first eight wanted. */
  lemma WantedNext(seen: seq<Record>, rec: Record, k: Kind)
    ensures Capped(Wanted(seen + [rec], k))
         == if rec.rtype == k.Type() && |rec.rdata| == k.Size() then Capped(Capped(Wanted(seen, k)) + [rec.rdata])
            else Capped(Wanted(seen, k))
  {
    WantedSnoc(seen, rec, k);
    CappedSnoc(Wanted(seen, k), rec.rdata);
  }

  /** `parse_answers_a`. */
  method ParseAnswersA(buf: seq<byte>, n: nat) returns (r: Result<seq<seq<byte>>>)
    requires n <= |buf|
    ensures r == Answer(buf, n, A)
  {
    var header :- ParseHeader(buf, n);
    var out := new AddrList();
    var pos: nat := header.firstAnswer;
    ghost var all := Records(buf, n, pos, header.ancount);
    ghost var seen: seq<Record> := [];
    WalkStarts(buf, n, pos, header.ancount);
    for i := 0 to header.ancount
      invariant out.Valid() && fresh(out) && fresh(out.addrs)
      invariant out.AsSlice() == Capped(Wanted(seen, A))
      invariant Walked(buf, n, pos, header.ancount - i, seen, all)
    {
      WalkGoesOn(buf, n, pos, header.ancount - i, seen, all);
      var next :- NextRecord(buf, n, pos);
      WantedNext(seen, next.0, A);
      if next.0.rtype == 1 && |next.0.rdata| == 4 {
        out.Push(next.0.rdata);
      }
      seen := seen + [next.0];
      pos := next.1;
    }
    WalkEnds(buf, n, pos, seen, all);
    if out.len == 0 {
      return Err(ENOENT);
    }
    return Ok(out.AsSlice());
  }

  /** `parse_answers_aaaa`, a loop of its own. */
  method ParseAnswersAaaa(buf: seq<byte>, n: nat) returns (r: Result<seq<seq<byte>>>)
    requires n <= |buf|
    ensures r == Answer(buf, n, Aaaa)
  {
    var header :- ParseHeader(buf, n);
    var out := new AddrList();
    var pos: nat := header.firstAnswer;
    ghost var all := Records(buf, n, pos, header.ancount);
    ghost var seen: seq<Record> := [];
    WalkStarts(buf, n, pos, header.ancount);
    for i := 0 to header.ancount
      invariant out.Valid() && fresh(out) && fresh(out.addrs)
      invariant out.AsSlice() == Capped(Wanted(seen, Aaaa))
      invariant Walked(buf, n, pos, header.ancount - i, seen, all)
    {
      WalkGoesOn(buf, n, pos, header.ancount - i, seen, all);
      var next :- NextRecord(buf, n, pos);
      WantedNext(seen, next.0, Aaaa);
      if next.0.rtype == 28 && |next.0.rdata| == 16 {
        out.Push(next.0.rdata);
      }
      seen := seen + [next.0];
      pos := next.1;
    }
    WalkEnds(buf, n, pos, seen, all);
    if out.len == 0 {
      return Err(ENOENT);
    }
    return Ok(out.AsSlice());
  }

  /** `all` is `seen` followed by the `left` records from `pos`, or fails as they do. */
  ghost predicate Walked(buf: seq<byte>, n: nat, pos: nat, left: nat, seen: seq<Record>, all: Result<seq<Record>>)
    requires n <= |buf|
  {
    match Records(buf, n, pos, left)
    case Ok(rest) => all == Ok(seen + rest)
    case Err(e) => all == Err(e)
  }

  lemma WalkStarts(buf: seq<byte>, n: nat, pos: nat, left: nat)
    requires n <= |buf|
    ensures Walked(buf, n, pos, left, [], Records(buf, n, pos, left))
  {
    var r := Records(buf, n, pos, left);
    if r.Ok? {
      assert [] + r.value == r.value;
    }
  }

  lemma WalkGoesOn(buf: seq<byte>, n: nat, pos: nat, left: nat, seen: seq<Record>, all: Result<seq<Record>>)
    requires n <= |buf| && left > 0 && Walked(buf, n, pos, left, seen, all)
    ensures match RecordAt(buf, n, pos)
            case Ok(next) => Walked(buf, n, next.1, left - 1, seen + [next.0], all)
            case Err(e) => all == Err(e)
  {
    var r := RecordAt(buf, n, pos);
    if r.Ok? {
      var more := Records(buf, n, r.value.1, left - 1);
      if more.Ok? {
        assert seen + ([r.value.0] + more.value) == seen + [r.value.0] + more.value;
      }
    }
  }

  lemma WalkEnds(buf: seq<byte>, n: nat, pos: nat, seen: seq<Record>, all: Result<seq<Record>>)
    requires n <= |buf| && Walked(buf, n, pos, 0, seen, all)
    ensures all == Ok(seen)
  {
    assert seen + [] == seen;
  }

  lemma {:induction false} WantedSnoc(rs: seq<Record>, r: Record, k: Kind)
    ensures Wanted(rs + [r], k)
         == Wanted(rs, k) + (if r.rtype == k.Type() && |r.rdata| == k.Size() then [r.rdata] else [])
  {
    if rs == [] {
      assert [r][1..] == [];
    } else {
      assert (rs + [r])[1..] == rs[1..] + [r];
      WantedSnoc(rs[1..], r, k);
    }
  }

  // ---- bytes past `n` never matter ----

  /** Within `n` bytes a name ends where it ends in the whole buffer, if it ends within `n`. */
  lemma {:induction false} NameEndWithin(buf: seq<byte>, n: nat, pos: nat)
    requires n <= |buf|
    ensures NameEnd(buf[..n], pos)
         == (var r := NameEnd(buf, pos); if r.Ok? && r.value <= n then r else Err(EINVAL))
    decreases |buf| - pos
  {
    if pos < n && buf[pos] != 0 && !IsPointer(buf[pos]) {
      NameEndWithin(buf, n, pos + 1 + buf[pos]);
    }
  }

  lemma {:induction false} QuestionsEndWithin(buf: seq<byte>, n: nat, pos: nat, count: nat)
    requires n <= |buf|
    ensures QuestionsEnd(buf[..n], n, pos, count) == QuestionsEnd(buf, n, pos, count)
    decreases count
  {
    if count > 0 {
      NameEndWithin(buf, n, pos);
      var r := NameEnd(buf, pos);
      if r.Ok? && r.value + 4 <= n {
        QuestionsEndWithin(buf, n, r.value + 4, count - 1);
      }
    }
  }

  lemma RecordAtWithin(buf: seq<byte>, n: nat, pos: nat)
    requires n <= |buf|
    ensures RecordAt(buf[..n], n, pos) == RecordAt(buf, n, pos)
  {
    NameEndWithin(buf, n, pos);
    var r := NameEnd(buf, pos);
    if r.Ok? && r.value + 10 <= n {
      var p := r.value;
      var size := Be16(buf[p + 8], buf[p + 9]);
      if p + 10 + size <= n {
        assert buf[..n][p + 10..p + 10 + size] == buf[p + 10..p + 10 + size];
      }
    }
  }

  lemma {:induction false} RecordsWithin(buf: seq<byte>, n: nat, pos: nat, count: nat)
    requires n <= |buf|
    ensures Records(buf[..n], n, pos, count) == Records(buf, n, pos, count)
    decreases count
  {
    if count > 0 {
      RecordAtWithin(buf, n, pos);
      var r := RecordAt(buf, n, pos);
      if r.Ok? {
        RecordsWithin(buf, n, r.value.1, count - 1);
      }
    }
  }

  /** `skip_name` is bounded by the buffer and everything else by `n`; still only the first
      `n` bytes decide the result, error codes included. */
  lemma OnlyReceivedBytesMatter(buf: seq<byte>, n: nat, k: Kind)
    requires n <= |buf|
    ensures Answer(buf, n, k) == Answer(buf[..n], n, k)
  {
    var h := HeaderOf(buf, n);
    if n >= 12 {
      QuestionsEndWithin(buf, n, 12, Be16(buf[4], buf[5]));
    }
    if h.Ok? {
      RecordsWithin(buf, n, h.value.firstAnswer, h.value.ancount);
    }
  }

  /** Two receive buffers that agree on the datagram are parsed alike. */
  lemma StaleBytesDoNotShow(b0: seq<byte>, b1: seq<byte>, n: nat, k: Kind)
    requires n <= |b0| && n <= |b1| && b0[..n] == b1[..n]
    ensures Answer(b0, n, k) == Answer(b1, n, k)
  {
    OnlyReceivedBytesMatter(b0, n, k);
    OnlyReceivedBytesMatter(b1, n, k);
  }

  /** A walk that completes has room for every question and record the header claims. */
  lemma CountsFitThePacket(buf: seq<byte>, n: nat)
    requires n <= |buf|
    ensures var h := HeaderOf(buf, n);
            h.Ok? && Records(buf, n, h.value.firstAnswer, h.value.ancount).Ok?
            ==> 12 + 5 * Be16(buf[4], buf[5]) + 11 * Be16(buf[6], buf[7]) <= n
  {
  }

  /** The two loops reject exactly the same packets as malformed. */
  lemma KindsRejectAlike(buf: seq<byte>, n: nat)
    requires n <= |buf|
    ensures Answer(buf, n, A) == Err(EINVAL) <==> Answer(buf, n, Aaaa) == Err(EINVAL)
  {
  }
}
