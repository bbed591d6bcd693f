/** Building the query packet in place (`build_query`). */
module DnsBuild {
  import opened Base
  import opened DnsWalk
  import opened DnsCodec
  import opened ListCodec

  const DOT: byte := 46

  /** `hostname.split('.')`. */
  function Split(host: seq<byte>): (ls: seq<seq<byte>>)
    ensures |ls| >= 1
  {
    if host == [] then [[]]
    else
      var more := Split(host[1..]);
      if host[0] == DOT then [[]] + more else [[host[0]] + more[0]] + more[1..]
  }

  function Join(ls: seq<seq<byte>>): seq<byte> {
    if ls == [] then [] else if |ls| == 1 then ls[0] else ls[0] + [DOT] + Join(ls[1..])
  }

  predicate GoodLabel(l: seq<byte>) {
    1 <= |l| <= 63
  }

  predicate GoodLabels(ls: seq<seq<byte>>) {
    forall l | l in ls :: GoodLabel(l)
  }

  /** The name of a label list, and back. */
  function NameOf(ls: seq<seq<byte>>): Name
    requires GoodLabels(ls)
  {
    if ls == [] then Root else assert ls[0] in ls; Dot(ls[0], NameOf(ls[1..]))
  }

  function LabelsOf(n: Name): seq<seq<byte>> {
    match n
    case Dot(l, rest) => [l] + LabelsOf(rest)
    case _ => []
  }

  /** The query for `host`, as a message: recursion desired, one question of class IN. */
  function Query(id: u16, host: seq<byte>, qtype: u16): (m: Message)
    requires GoodLabels(Split(host))
    ensures m.Valid() && m.Rcode() == 0
  {
    Message(id, 0x0100, 0, 0, [Question(NameOf(Split(host)), qtype, 1)], [], [])
  }

  // ---- splitting loses nothing ----

  lemma {:induction false} JoinSplit(host: seq<byte>)
    ensures Join(Split(host)) == host
  {
    if host != [] {
      var more := Split(host[1..]);
      JoinSplit(host[1..]);
      assert host == [host[0]] + host[1..];
      if host[0] == DOT {
        assert Split(host)[1..] == more;
      } else if |more| > 1 {
        assert Split(host)[1..] == more[1..];
      }
    }
  }

  lemma {:induction false} SplitDotFree(host: seq<byte>)
    ensures forall l | l in Split(host) :: DOT !in l
  {
    if host != [] {
      SplitDotFree(host[1..]);
      var more := Split(host[1..]);
      forall l | l in Split(host) ensures DOT !in l {
        assert more[0] in more;
        assert l == Split(host)[0] || l in more;
      }
    }
  }

  /** The distance from `p` to the next dot or to the end. */
  function Run(host: seq<byte>, p: nat): (k: nat)
    requires p <= |host|
    ensures IsRun(host, p, k)
    decreases |host| - p
  {
    if p == |host| || host[p] == 46 then 0 else 1 + Run(host, p + 1)
  }

  /** `host[p..p + k]` holds no dot and is followed by one or by the end. */
  predicate IsRun(host: seq<byte>, p: nat, k: nat)
    requires p <= |host|
  {
    && p + k <= |host| && (forall j | p <= j < p + k :: host[j] != 46)
    && (p + k == |host| || host[p + k] == 46)
  }

  /** A label begins at `p`: at the start, or behind a dot. */
  predicate Begins(host: seq<byte>, p: nat) {
    p == 0 || (p <= |host| && host[p - 1] == 46)
  }

  /** A hostname whose labels have 1 to 63 bytes, said of its dots. */
  predicate GoodHost(host: seq<byte>) {
    forall p: nat | p <= |host| && Begins(host, p) :: GoodAt(host, p)
  }

  lemma RunUnique(host: seq<byte>, p: nat, k: nat)
    requires p <= |host| && IsRun(host, p, k)
    ensures k == Run(host, p)
  {
  }

  /** The first label, and what is behind its dot. */
  lemma {:induction false} SplitFirst(host: seq<byte>)
    ensures var k := Run(host, 0);
            Split(host) == [host[..k]] + if k == |host| then [] else Split(host[k + 1..])
    decreases |host|
  {
    var k := Run(host, 0);
    if host != [] && host[0] != 46 {
      var tail := host[1..];
      SplitFirst(tail);
      assert IsRun(tail, 0, k - 1) by {
        assert forall j | 0 <= j < k - 1 :: tail[j] == host[j + 1];
      }
      RunUnique(tail, 0, k - 1);
      assert host[..k] == [host[0]] + tail[..k - 1];
      assert k < |host| ==> tail[k..] == host[k + 1..];
    }
  }

  /** Labels of a suffix, by position in the whole. */
  lemma Shifted(host: seq<byte>, d: nat, p: nat, k: nat)
    requires d <= |host| && p <= |host| - d
    ensures IsRun(host[d..], p, k) <==> IsRun(host, d + p, k)
  {
    var tail := host[d..];
    assert forall j | 0 <= j < |tail| :: tail[j] == host[d + j];
    if IsRun(tail, p, k) {
      forall j | d + p <= j < d + p + k ensures host[j] != 46 {
        assert tail[j - d] == host[j];
      }
    }
  }

  /** Behind the first label of `k` bytes, labels begin where they begin in the rest. */
  lemma BeginsBehind(host: seq<byte>, k: nat, p: nat)
    requires IsRun(host, 0, k) && 0 < p <= |host|
    ensures Begins(host, p) <==> k < p && Begins(host[k + 1..], p - (k + 1))
  {
    if k < p {
      assert host[k] == 46;
      if p > k + 1 {
        assert host[k + 1..][p - (k + 1) - 1] == host[p - 1];
      }
    }
  }

  /** The label at `p` has 1 to 63 bytes. */
  predicate GoodAt(host: seq<byte>, p: nat)
    requires p <= |host|
  {
    exists k | 1 <= k <= 63 :: IsRun(host, p, k)
  }

  lemma GoodAtBehind(host: seq<byte>, k: nat, p: nat)
    requires k < |host| && p < |host| - k
    ensures GoodAt(host, k + 1 + p) <==> GoodAt(host[k + 1..], p)
  {
    var q, tail := k + 1 + p, host[k + 1..];
    if n: nat :| 1 <= n <= 63 && IsRun(host, q, n) {
      Shifted(host, k + 1, p, n);
    }
    if n: nat :| 1 <= n <= 63 && IsRun(tail, p, n) {
      Shifted(host, k + 1, p, n);
    }
  }

  lemma GoodAtRun(host: seq<byte>, p: nat)
    requires p <= |host|
    ensures GoodAt(host, p) <==> 1 <= Run(host, p) <= 63
  {
    if GoodAt(host, p) {
      var k :| 1 <= k <= 63 && IsRun(host, p, k);
      RunUnique(host, p, k);
    }
  }

  /** A good hostname is a good first label and a good rest. */
  lemma GoodHostRest(host: seq<byte>)
    requires GoodHost(host)
    ensures GoodAt(host, 0) && var k := Run(host, 0); k < |host| ==> GoodHost(host[k + 1..])
  {
    var k := Run(host, 0);
    assert Begins(host, 0);
    if k < |host| {
      var tail := host[k + 1..];
      forall p: nat | p <= |tail| && Begins(tail, p) ensures GoodAt(tail, p) {
        BeginsBehind(host, k, k + 1 + p);
        GoodAtBehind(host, k, p);
      }
    }
  }

  lemma GoodHostWhole(host: seq<byte>)
    requires GoodAt(host, 0) && var k := Run(host, 0); k < |host| ==> GoodHost(host[k + 1..])
    ensures GoodHost(host)
  {
    var k := Run(host, 0);
    forall p: nat | p <= |host| && Begins(host, p) ensures GoodAt(host, p) {
      if p > 0 {
        BeginsBehind(host, k, p);
        GoodAtBehind(host, k, p - (k + 1));
      }
    }
  }

  lemma GoodLabelsFirst(host: seq<byte>)
    ensures var k := Run(host, 0);
            GoodLabels(Split(host)) <==> 1 <= k <= 63 && (k < |host| ==> GoodLabels(Split(host[k + 1..])))
  {
    SplitFirst(host);
    var k, ls := Run(host, 0), Split(host);
    assert ls[0] == host[..k] && ls[0] in ls;
    if k < |host| {
      var more := Split(host[k + 1..]);
      assert forall l | l in more :: l in ls;
      assert forall l | l in ls :: l == ls[0] || l in more;
    }
  }

  /** The labels of a hostname are good exactly if its dots say so. */
  lemma {:induction false} GoodHostLabels(host: seq<byte>)
    ensures GoodLabels(Split(host)) <==> GoodHost(host)
    decreases |host|
  {
    GoodLabelsFirst(host);
    GoodAtRun(host, 0);
    var k := Run(host, 0);
    if k < |host| {
      GoodHostLabels(host[k + 1..]);
    }
    if GoodHost(host) {
      GoodHostRest(host);
    } else if GoodLabels(Split(host)) {
      GoodHostWhole(host);
    }
  }

  /** What `build_query` tests. */
  lemma Buildable(host: seq<byte>)
    ensures host != [] && GoodLabels(Split(host)) <==> GoodHost(host)
  {
    GoodHostLabels(host);
    assert host == [] ==> [] in Split(host);
  }

  lemma {:induction false} LabelsOfName(ls: seq<seq<byte>>)
    requires GoodLabels(ls)
    ensures LabelsOf(NameOf(ls)) == ls
    decreases |ls|
  {
    if ls != [] {
      LabelsOfName(ls[1..]);
      assert [ls[0]] + ls[1..] == ls;
    }
  }

  /** One length byte per label. */
  function Size(ls: seq<seq<byte>>): nat {
    if ls == [] then 0 else 1 + |ls[0]| + Size(ls[1..])
  }

  lemma {:induction false} SplitSize(host: seq<byte>)
    ensures Size(Split(host)) == |host| + 1
  {
    if host != [] {
      var more := Split(host[1..]);
      SplitSize(host[1..]);
      assert Split(host)[1..] == if host[0] == DOT then more else more[1..];
    }
  }

  lemma {:induction false} SizePrefix(ls: seq<seq<byte>>, i: nat)
    requires i < |ls|
    ensures Size(ls[..i + 1]) == Size(ls[..i]) + 1 + |ls[i]| <= Size(ls)
    decreases |ls|
  {
    assert ls[..i + 1][1..] == ls[1..][..i];
    if i > 0 {
      assert ls[..i][1..] == ls[1..][..i - 1];
      SizePrefix(ls[1..], i - 1);
    }
  }

  /** The labels as `build_query` lays them down, before the root byte. */
  function LabelBytes(ls: seq<seq<byte>>): (s: seq<byte>)
    requires GoodLabels(ls)
    ensures |s| == Size(ls)
  {
    if ls == [] then [] else assert ls[0] in ls; [|ls[0]|] + ls[0] + LabelBytes(ls[1..])
  }

  lemma {:induction false} LabelBytesSnoc(ls: seq<seq<byte>>, l: seq<byte>)
    requires GoodLabels(ls) && GoodLabel(l)
    ensures GoodLabels(ls + [l]) && LabelBytes(ls + [l]) == LabelBytes(ls) + ([|l|] + l)
    decreases |ls|
  {
    if ls == [] {
      assert [l][1..] == [] && ls + [l] == [l];
    } else {
      LabelBytesSnoc(ls[1..], l);
      assert (ls + [l])[1..] == ls[1..] + [l] && (ls + [l])[0] == ls[0];
      Associative([|ls[0]|] + ls[0], LabelBytes(ls[1..]), [|l|] + l);
    }
  }

  lemma {:induction false} LabelBytesEncode(ls: seq<seq<byte>>)
    requires GoodLabels(ls)
    ensures LabelBytes(ls) + [0] == EncodeName(NameOf(ls))
    decreases |ls|
  {
    if ls != [] {
      LabelBytesEncode(ls[1..]);
      Associative([|ls[0]|] + ls[0], LabelBytes(ls[1..]), [0]);
    }
  }

  /** The wire form of a hostname, byte by byte: every byte but the dots stays, one place on, and
      in front of each label stands its length. */
  predicate Wired(host: seq<byte>, s: seq<byte>) {
    && |s| == |host| + 1
    && (forall i | 0 <= i < |host| && host[i] != 46 :: s[i + 1] == host[i])
    && (forall p: nat | p <= |host| && Begins(host, p) :: IsRun(host, p, s[p]))
  }

  lemma WiredFirst(host: seq<byte>, k: byte, rest: seq<byte>)
    requires IsRun(host, 0, k) && (k < |host| ==> Wired(host[k + 1..], rest)) && (k == |host| ==> rest == [])
    ensures Wired(host, [k] + host[..k] + rest)
  {
    var s := [k] + host[..k] + rest;
    if k < |host| {
      var tail := host[k + 1..];
      forall i | 0 <= i < |host| && host[i] != 46 ensures s[i + 1] == host[i] {
        assert i > k ==> tail[i - (k + 1)] == host[i] && s[i + 1] == rest[i - k];
      }
      forall p: nat | p <= |host| && Begins(host, p) ensures IsRun(host, p, s[p]) {
        if p > 0 {
          BeginsBehind(host, k, p);
          assert s[p] == rest[p - (k + 1)];
          Shifted(host, k + 1, p - (k + 1), s[p]);
        }
      }
    }
  }

  lemma {:induction false} LabelsWired(host: seq<byte>)
    requires GoodLabels(Split(host))
    ensures Wired(host, LabelBytes(Split(host)))
    decreases |host|
  {
    var k := Run(host, 0);
    GoodLabelsFirst(host);
    SplitFirst(host);
    if k < |host| {
      LabelsWired(host[k + 1..]);
      assert Split(host)[1..] == Split(host[k + 1..]);
      WiredFirst(host, k, LabelBytes(Split(host[k + 1..])));
    } else {
      assert Split(host)[1..] == [];
      WiredFirst(host, k, []);
    }
  }

  // ---- the printer ----

  /** The `put` closure. */
  method Put(buf: array<byte>, pos: nat, bytes: seq<byte>) returns (r: Result<nat>)
    requires pos <= buf.Length
    modifies buf
    ensures r == if pos + |bytes| > buf.Length then Err(EINVAL) else Ok(pos + |bytes|)
    ensures r.Ok? ==> buf[..r.value] == old(buf[..pos]) + bytes
    ensures r.Ok? ==> forall i | r.value <= i < buf.Length :: buf[i] == old(buf[i])
    ensures r.Err? ==> buf[..] == old(buf[..])
  {
    if pos + |bytes| > buf.Length {
      return Err(EINVAL);
    }
    forall i | pos <= i < pos + |bytes| {
      buf[i] := bytes[i - pos];
    }
    return Ok(pos + |bytes|);
  }

  /** The twelve header bytes, two at a time. */
  method PutHeader(buf: array<byte>, id: u16) returns (r: Result<nat>)
    modifies buf
    ensures r == if 12 > buf.Length then Err(EINVAL) else Ok(12)
    ensures r.Ok? ==> buf[..12] == EncodeHeader(id, 0x0100, 1, 0, 0, 0)
    ensures r.Ok? ==> forall i | 12 <= i < buf.Length :: buf[i] == old(buf[i])
  {
    var pos: nat := 0;
    pos :- Put(buf, pos, Be16Bytes(id));
    assert buf[..2] == Be16Bytes(id);
    pos :- Put(buf, pos, Be16Bytes(0x0100));
    pos :- Put(buf, pos, Be16Bytes(1));
    pos :- Put(buf, pos, Be16Bytes(0));
    pos :- Put(buf, pos, Be16Bytes(0));
    pos :- Put(buf, pos, Be16Bytes(0));
    return Ok(pos);
  }

  /** The body of the label loop. */
  method PutLabel(buf: array<byte>, pos: nat, l: seq<byte>) returns (r: Result<nat>)
    requires pos <= buf.Length
    modifies buf
    ensures r == if GoodLabel(l) && pos + 1 + |l| <= buf.Length then Ok(pos + 1 + |l|) else Err(EINVAL)
    ensures r.Ok? ==> buf[..r.value] == old(buf[..pos]) + ([|l|] + l)
    ensures r.Ok? ==> forall i | r.value <= i < buf.Length :: buf[i] == old(buf[i])
  {
    if l == [] || |l| > 63 {
      return Err(EINVAL);
    }
    var next :- Put(buf, pos, [|l|]);
    assert buf[..next] == old(buf[..pos]) + [|l|];
    next :- Put(buf, next, l);
    return Ok(next);
  }

  /** What one more label adds to the bytes, if it is a good one. */
  lemma OneMoreLabel(labels: seq<seq<byte>>, i: nat)
    requires i < |labels| && GoodLabels(labels[..i])
    ensures labels[i] in labels && Size(labels[..i + 1]) == Size(labels[..i]) + 1 + |labels[i]| <= Size(labels)
    ensures GoodLabel(labels[i]) ==>
              && GoodLabels(labels[..i + 1])
              && LabelBytes(labels[..i + 1]) == LabelBytes(labels[..i]) + ([|labels[i]|] + labels[i])
  {
    assert labels[..i + 1] == labels[..i] + [labels[i]];
    SizePrefix(labels, i);
    if GoodLabel(labels[i]) {
      LabelBytesSnoc(labels[..i], labels[i]);
    }
  }

  /** The label loop. */
  method PutLabels(buf: array<byte>, start: nat, labels: seq<seq<byte>>) returns (r: Result<nat>)
    requires start <= buf.Length
    modifies buf
    ensures r == if GoodLabels(labels) && start + Size(labels) <= buf.Length then Ok(start + Size(labels))
                 else Err(EINVAL)
    ensures r.Ok? ==> buf[..r.value] == old(buf[..start]) + LabelBytes(labels)
    ensures r.Ok? ==> forall i | r.value <= i < buf.Length :: buf[i] == old(buf[i])
  {
    var pos := start;
    for i := 0 to |labels|
      invariant GoodLabels(labels[..i]) && pos == start + Size(labels[..i]) <= buf.Length
      invariant buf[..pos] == old(buf[..start]) + LabelBytes(labels[..i])
      invariant forall j | pos <= j < buf.Length :: buf[j] == old(buf[j])
    {
      OneMoreLabel(labels, i);
      pos :- PutLabel(buf, pos, labels[i]);
    }
    assert labels[..|labels|] == labels;
    return Ok(pos);
  }

  /** The root byte, the type and class IN. */
  function TailBytes(qtype: u16): (s: seq<byte>)
    ensures |s| == 5
  {
    [0] + Be16Bytes(qtype) + Be16Bytes(1)
  }

  /** `build_query` succeeds exactly when the hostname is non-empty, its labels have 1 to 63
      bytes and the packet fits; it then writes exactly the encoding of the query message and
      nothing beyond it. */
  method BuildQuery(buf: array<byte>, id: u16, host: seq<byte>, qtype: u16) returns (r: Result<nat>)
    modifies buf
    ensures r == if host != [] && GoodLabels(Split(host)) && |host| + 18 <= buf.Length then Ok(|host| + 18)
                 else Err(EINVAL)
    ensures r.Ok? ==> buf[..r.value] == Encode(Query(id, host, qtype))
    ensures r.Ok? ==> forall i | r.value <= i < buf.Length :: buf[i] == old(buf[i])
  {
    if host == [] {
      return Err(EINVAL);
    }
    SplitSize(host);
    var labels := Split(host);
    var pos :- PutHeader(buf, id);
    pos :- PutLabels(buf, pos, labels);
    pos :- Put(buf, pos, [0]);
    pos :- Put(buf, pos, Be16Bytes(qtype));
    pos :- Put(buf, pos, Be16Bytes(1));
    LaidDown(id, host, qtype);
    return Ok(pos);
  }

  /** The pieces in the order they are written. */
  lemma LaidDown(id: u16, host: seq<byte>, qtype: u16)
    requires GoodLabels(Split(host))
    ensures Encode(Query(id, host, qtype))
         == EncodeHeader(id, 0x0100, 1, 0, 0, 0) + LabelBytes(Split(host)) + TailBytes(qtype)
  {
    var m := Query(id, host, qtype);
    var q := m.questions[0];
    LabelBytesEncode(Split(host));
    assert m.questions[1..] == [];
    assert EncodeAll(EncodeQuestion, m.questions) == EncodeQuestion(q) + [] == EncodeQuestion(q);
    assert EncodeAll(EncodeRr, m.answers) + m.rest == [];
  }

  // ---- what the bytes mean ----

  /** The packet byte by byte: id, flags and counts, the hostname in wire form, the root, the type
      and class IN. */
  lemma QueryWire(id: u16, host: seq<byte>, qtype: u16)
    requires GoodLabels(Split(host))
    ensures var s, n := Encode(Query(id, host, qtype)), |host|;
            && |s| == n + 18 && s[0] as int * 0x100 + s[1] == id && s[2..12] == [1, 0, 0, 1, 0, 0, 0, 0, 0, 0]
            && Wired(host, s[12..n + 13]) && s[n + 13] == 0
            && s[n + 14] as int * 0x100 + s[n + 15] == qtype && s[n + 16..] == [0, 1]
  {
    var s, n := Encode(Query(id, host, qtype)), |host|;
    LaidDown(id, host, qtype);
    SplitSize(host);
    LabelsWired(host);
    var header, labels := EncodeHeader(id, 0x0100, 1, 0, 0, 0), LabelBytes(Split(host));
    assert s[..12] == header && s[12..n + 13] == labels && s[n + 13..] == TailBytes(qtype);
    assert s[2..12] == header[2..] && s[0] == header[0] && s[1] == header[1];
  }

  /** Decoding a query recovers the id, the hostname and the type. */
  lemma QueryDecodes(id: u16, host: seq<byte>, qtype: u16)
    requires GoodLabels(Split(host))
    ensures var m := Query(id, host, qtype);
            && Read(Encode(m)) == Some(m)
            && m.id == id && m.questions[0].qtype == qtype
            && Join(LabelsOf(m.questions[0].name)) == host
  {
    ReadsMessage(Query(id, host, qtype));
    LabelsOfName(Split(host));
    JoinSplit(host);
  }

  /** Distinct lookups send distinct packets. */
  lemma QueryInjective(id0: u16, host0: seq<byte>, qtype0: u16, id1: u16, host1: seq<byte>, qtype1: u16)
    requires GoodLabels(Split(host0)) && GoodLabels(Split(host1))
    requires Encode(Query(id0, host0, qtype0)) == Encode(Query(id1, host1, qtype1))
    ensures id0 == id1 && host0 == host1 && qtype0 == qtype1
  {
    QueryDecodes(id0, host0, qtype0);
    QueryDecodes(id1, host1, qtype1);
  }

  /** The packet is |host| + 18 bytes and `parse_header` steps over exactly all of it. */
  lemma QueryHeader(id: u16, host: seq<byte>, qtype: u16)
    requires GoodLabels(Split(host))
    ensures var s := Encode(Query(id, host, qtype));
            |s| == |host| + 18 && HeaderOf(s, |s|) == Ok(Header(0, |s|))
  {
    SplitSize(host);
    LaidDown(id, host, qtype);
    var m := Query(id, host, qtype);
    HeaderOfEncoding(m);
    assert EncodeAll(EncodeRr, m.answers) + m.rest == [];
  }
}
