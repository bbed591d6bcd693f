/** DNS messages as values (section 4.1 of RFC 1035), their encoding, and the theorem that the
    walk accepts exactly the encodings and reads off exactly the message. */
module DnsCodec {
  import opened Base
  import opened DnsWalk
  import opened ListCodec

  /** Section 2.3.4 gives labels 1 to 63 bytes; the walk steps over up to 191. */
  type Label = l: seq<byte> | 1 <= |l| < 0xC0 witness [0]
  type Offset = o: int | 0 <= o < 0x4000
  type Rdata = d: seq<byte> | |d| < 0x1_0000

  /** A name ends in the root or in a compression pointer (section 4.1.4). */
  datatype Name = Root | Pointer(offset: Offset) | Dot(text: Label, rest: Name)

  datatype Question = Question(name: Name, qtype: u16, qclass: u16)

  datatype Rr = Rr(name: Name, rtype: u16, class_: u16, ttl0: u16, ttl1: u16, rdata: Rdata)

  /** `rest` is whatever follows the answers: authority, additional, padding. */
  datatype Message = Message(id: u16, flags: u16, nscount: u16, arcount: u16,
                             questions: seq<Question>, answers: seq<Rr>, rest: seq<byte>)
  {
    predicate Valid() { |questions| < 0x1_0000 && |answers| < 0x1_0000 }
    function Rcode(): int { flags % 0x10 }
  }

  // ---- encoding ----

  function EncodeName(n: Name): (s: seq<byte>) {
    match n
    case Root => [0]
    case Pointer(o) => [0xC0 + o / 0x100, o % 0x100]
    case Dot(l, rest) => [|l|] + l + EncodeName(rest)
  }

  function EncodeQuestion(q: Question): seq<byte> {
    EncodeName(q.name) + (Be16Bytes(q.qtype) + Be16Bytes(q.qclass))
  }

  /** Type, class, time to live and data length: ten bytes. */
  function Fixed(rtype: u16, class_: u16, ttl0: u16, ttl1: u16, size: u16): (s: seq<byte>)
    ensures |s| == 10
  {
    Be16Bytes(rtype) + Be16Bytes(class_) + Be16Bytes(ttl0) + Be16Bytes(ttl1) + Be16Bytes(size)
  }

  function EncodeRr(r: Rr): seq<byte> {
    EncodeName(r.name) + (Fixed(r.rtype, r.class_, r.ttl0, r.ttl1, |r.rdata|) + r.rdata)
  }

  function EncodeHeader(id: u16, flags: u16, qd: u16, an: u16, ns: u16, ar: u16): (s: seq<byte>)
    ensures |s| == 12
  {
    Be16Bytes(id) + Be16Bytes(flags) + Be16Bytes(qd) + Be16Bytes(an) + Be16Bytes(ns) + Be16Bytes(ar)
  }

  function Encode(m: Message): seq<byte>
    requires m.Valid()
  {
    EncodeHeader(m.id, m.flags, |m.questions|, |m.answers|, m.nscount, m.arcount)
    + (EncodeAll(EncodeQuestion, m.questions) + (EncodeAll(EncodeRr, m.answers) + m.rest))
  }

  // ---- reading a value and what follows it ----

  function Word(s: seq<byte>, i: nat): u16
    requires i + 2 <= |s|
  {
    Be16(s[i], s[i + 1])
  }

  function ReadName(s: seq<byte>): (r: Option<(Name, seq<byte>)>)
    ensures r.Some? ==> |r.value.1| < |s|
  {
    if s == [] then None
    else if s[0] == 0 then Some((Root, s[1..]))
    else if IsPointer(s[0]) then
      if |s| < 2 then None else Some((Pointer((s[0] as int - 0xC0) * 0x100 + s[1]), s[2..]))
    else if |s| < 1 + s[0] then None
    else
      match ReadName(s[1 + s[0]..])
      case None => None
      case Some((rest, t)) => Some((Dot(s[1..1 + s[0]], rest), t))
  }

  function ReadQuestion(s: seq<byte>): (r: Option<(Question, seq<byte>)>) {
    match ReadName(s)
    case None => None
    case Some((n, t)) => if |t| < 4 then None else Some((Question(n, Word(t, 0), Word(t, 2)), t[4..]))
  }

  function ReadRr(s: seq<byte>): (r: Option<(Rr, seq<byte>)>) {
    match ReadName(s)
    case None => None
    case Some((n, t)) =>
      if |t| < 10 || |t| < 10 + Word(t, 8) then None
      else
        var end := 10 + Word(t, 8);
        Some((Rr(n, Word(t, 0), Word(t, 2), Word(t, 4), Word(t, 6), t[10..end]), t[end..]))
  }

  function Read(s: seq<byte>): (r: Option<Message>)
    ensures r.Some? ==> r.value.Valid()
  {
    if |s| < 12 then None
    else
      match ReadMany(ReadQuestion, s[12..], Word(s, 4))
      case None => None
      case Some((qs, t)) =>
        match ReadMany(ReadRr, t, Word(s, 6))
        case None => None
        case Some((rs, u)) => Some(Message(Word(s, 0), Word(s, 2), Word(s, 8), Word(s, 10), qs, rs, u))
  }

  // ---- reading inverts encoding ----

  lemma {:induction false} ReadsName(n: Name, t: seq<byte>)
    ensures ReadName(EncodeName(n) + t) == Some((n, t))
  {
    match n
    case Root => assert (EncodeName(n) + t)[1..] == t;
    case Pointer(o) => ReadsPointer(o, t);
    case Dot(l, rest) =>
      ReadsName(rest, t);
      Associative([|l|] + l, EncodeName(rest), t);
      ReadsLabel(l, EncodeName(rest) + t);
  }

  lemma ReadsPointer(o: Offset, t: seq<byte>)
    ensures ReadName(EncodeName(Pointer(o)) + t) == Some((Pointer(o), t))
  {
    var s := EncodeName(Pointer(o)) + t;
    assert s[0] == 0xC0 + o / 0x100 && s[1] == o % 0x100 && s[2..] == t;
  }

  lemma ReadsLabel(l: Label, t: seq<byte>)
    ensures var s := [|l|] + l + t;
            s[0] == |l| && 1 + s[0] <= |s| && s[1..1 + s[0]] == l && s[1 + s[0]..] == t
  {
  }

  lemma ReadsQuestion(q: Question, t: seq<byte>)
    ensures ReadQuestion(EncodeQuestion(q) + t) == Some((q, t))
  {
    var fixed := Be16Bytes(q.qtype) + Be16Bytes(q.qclass);
    assert EncodeQuestion(q) + t == EncodeName(q.name) + (fixed + t);
    ReadsName(q.name, fixed + t);
    assert (fixed + t)[4..] == t;
  }

  lemma FixedWords(rtype: u16, class_: u16, ttl0: u16, ttl1: u16, size: u16, t: seq<byte>)
    ensures var s := Fixed(rtype, class_, ttl0, ttl1, size) + t;
            Word(s, 0) == rtype && Word(s, 2) == class_ && Word(s, 4) == ttl0 && Word(s, 6) == ttl1 && Word(s, 8) == size
  {
  }

  lemma ReadsRr(r: Rr, t: seq<byte>)
    ensures ReadRr(EncodeRr(r) + t) == Some((r, t))
  {
    var fixed := Fixed(r.rtype, r.class_, r.ttl0, r.ttl1, |r.rdata|);
    var s := fixed + (r.rdata + t);
    Associative(EncodeName(r.name), fixed + r.rdata, t);
    Associative(fixed, r.rdata, t);
    ReadsName(r.name, s);
    FixedWords(r.rtype, r.class_, r.ttl0, r.ttl1, |r.rdata|, r.rdata + t);
    var end := 10 + |r.rdata|;
    assert s[10..end] == r.rdata && s[end..] == t;
  }

  lemma ItemsInvert()
    ensures Inverts(ReadQuestion, EncodeQuestion) && Inverts(ReadRr, EncodeRr)
  {
    forall q, t ensures ReadQuestion(EncodeQuestion(q) + t) == Some((q, t)) {
      ReadsQuestion(q, t);
    }
    forall r, t ensures ReadRr(EncodeRr(r) + t) == Some((r, t)) {
      ReadsRr(r, t);
    }
  }

  lemma HeaderWords(id: u16, flags: u16, qd: u16, an: u16, ns: u16, ar: u16, t: seq<byte>)
    ensures var s := EncodeHeader(id, flags, qd, an, ns, ar) + t;
            && Word(s, 0) == id && Word(s, 2) == flags && Word(s, 4) == qd
            && Word(s, 6) == an && Word(s, 8) == ns && Word(s, 10) == ar && s[12..] == t
  {
  }

  /** Decoding recovers every message, so distinct messages have distinct bytes. */
  lemma ReadsMessage(m: Message)
    requires m.Valid()
    ensures Read(Encode(m)) == Some(m)
  {
    var t := EncodeAll(EncodeRr, m.answers) + m.rest;
    HeaderWords(m.id, m.flags, |m.questions|, |m.answers|, m.nscount, m.arcount, EncodeAll(EncodeQuestion, m.questions) + t);
    ItemsInvert();
    ReadsMany(ReadQuestion, EncodeQuestion, m.questions, t);
    ReadsMany(ReadRr, EncodeRr, m.answers, m.rest);
  }

  // ---- and encoding inverts reading ----

  lemma {:induction false} NameWasEncoded(s: seq<byte>)
    requires ReadName(s).Some?
    ensures var (n, t) := ReadName(s).value; s == EncodeName(n) + t
    decreases |s|
  {
    if s[0] != 0 && !IsPointer(s[0]) {
      NameWasEncoded(s[1 + s[0]..]);
    }
  }

  lemma WordBytes(s: seq<byte>, i: nat)
    requires i + 2 <= |s|
    ensures Be16Bytes(Word(s, i)) == s[i..i + 2]
  {
    Be16Splits(s[i], s[i + 1]);
  }

  lemma QuestionWasEncoded(s: seq<byte>)
    requires ReadQuestion(s).Some?
    ensures var (q, t) := ReadQuestion(s).value; s == EncodeQuestion(q) + t
  {
    NameWasEncoded(s);
    var (n, t) := ReadName(s).value;
    WordBytes(t, 0);
    WordBytes(t, 2);
    Regroup(EncodeName(n), t, 2, 4);
  }

  lemma FixedBytes(t: seq<byte>)
    requires |t| >= 10
    ensures Fixed(Word(t, 0), Word(t, 2), Word(t, 4), Word(t, 6), Word(t, 8)) == t[..10]
  {
    WordBytes(t, 0);
    WordBytes(t, 2);
    WordBytes(t, 4);
    WordBytes(t, 6);
    WordBytes(t, 8);
  }

  lemma RrWasEncoded(s: seq<byte>)
    requires ReadRr(s).Some?
    ensures var (r, t) := ReadRr(s).value; s == EncodeRr(r) + t
  {
    NameWasEncoded(s);
    var (n, t) := ReadName(s).value;
    FixedBytes(t);
    Regroup(EncodeName(n), t, 10, 10 + Word(t, 8));
  }

  lemma Regroup(a: seq<byte>, t: seq<byte>, i: nat, j: nat)
    requires i <= j <= |t|
    ensures a + t == a + (t[..i] + t[i..j]) + t[j..]
  {
  }

  lemma ItemsExact()
    ensures Exact(ReadQuestion, EncodeQuestion) && Exact(ReadRr, EncodeRr)
  {
    forall s | ReadQuestion(s).Some?
      ensures s == EncodeQuestion(ReadQuestion(s).value.0) + ReadQuestion(s).value.1
    {
      QuestionWasEncoded(s);
    }
    forall s | ReadRr(s).Some? ensures s == EncodeRr(ReadRr(s).value.0) + ReadRr(s).value.1 {
      RrWasEncoded(s);
    }
  }

  lemma HeaderBytes(s: seq<byte>)
    requires |s| >= 12
    ensures EncodeHeader(Word(s, 0), Word(s, 2), Word(s, 4), Word(s, 6), Word(s, 8), Word(s, 10)) == s[..12]
  {
    WordBytes(s, 0);
    WordBytes(s, 2);
    WordBytes(s, 4);
    WordBytes(s, 6);
    WordBytes(s, 8);
    WordBytes(s, 10);
  }

  lemma MessageWasEncoded(s: seq<byte>)
    requires Read(s).Some?
    ensures Encode(Read(s).value) == s
  {
    HeaderBytes(s);
    ItemsExact();
    ManyWereEncoded(ReadQuestion, EncodeQuestion, s[12..], Word(s, 4));
    var (qs, t) := ReadMany(ReadQuestion, s[12..], Word(s, 4)).value;
    ManyWereEncoded(ReadRr, EncodeRr, t, Word(s, 6));
    assert s == s[..12] + s[12..];
  }

  // ---- the walk is this reading, by position ----

  /** `t` is the part of `buf` from position `p`. */
  predicate Suffix(buf: seq<byte>, p: nat, t: seq<byte>) {
    p <= |buf| && t == buf[p..]
  }

  lemma {:induction false} NameEndReads(buf: seq<byte>, pos: nat)
    requires pos <= |buf|
    ensures match ReadName(buf[pos..])
            case None => NameEnd(buf, pos).Err?
            case Some((_, t)) => NameEnd(buf, pos).Ok? && Suffix(buf, NameEnd(buf, pos).value, t)
    decreases |buf| - pos
  {
    if pos < |buf| && buf[pos] != 0 && !IsPointer(buf[pos]) {
      var next := pos + 1 + buf[pos];
      if next <= |buf| {
        assert buf[pos..][1 + buf[pos]..] == buf[next..];
        NameEndReads(buf, next);
      }
    }
  }

  /** One question as a walk step. */
  function QuestionStep(buf: seq<byte>, pos: nat): Result<((), nat)> {
    var p :- NameEnd(buf, pos);
    if p + 4 > |buf| then Err(EINVAL) else Ok(((), p + 4))
  }

  lemma QuestionStepReads(buf: seq<byte>, pos: nat)
    requires pos <= |buf|
    ensures Agree(buf, QuestionStep(buf, pos), ReadQuestion(buf[pos..]), (_: Question) => ())
  {
    NameEndReads(buf, pos);
  }

  lemma {:induction false} QuestionsEndAlong(buf: seq<byte>, at: Walker<()>, pos: nat, count: nat)
    requires forall p :: at(p) == QuestionStep(buf, p)
    ensures match Along(at, pos, count)
            case Err(_) => QuestionsEnd(buf, |buf|, pos, count).Err?
            case Ok((_, p)) => QuestionsEnd(buf, |buf|, pos, count) == Ok(p)
    decreases count
  {
    if count > 0 && at(pos).Ok? {
      QuestionsEndAlong(buf, at, at(pos).value.1, count - 1);
    }
  }

  lemma QuestionsEndReads(buf: seq<byte>, pos: nat, count: nat)
    requires pos <= |buf|
    ensures match ReadMany(ReadQuestion, buf[pos..], count)
            case None => QuestionsEnd(buf, |buf|, pos, count).Err?
            case Some((_, t)) =>
              && QuestionsEnd(buf, |buf|, pos, count).Ok?
              && Suffix(buf, QuestionsEnd(buf, |buf|, pos, count).value, t)
  {
    var at := (p: nat) => QuestionStep(buf, p);
    forall p: nat | p <= |buf| ensures Agree(buf, at(p), ReadQuestion(buf[p..]), (_: Question) => ()) {
      QuestionStepReads(buf, p);
    }
    WalkersAgree(buf, at, ReadQuestion, (_: Question) => (), pos, count);
    QuestionsEndAlong(buf, at, pos, count);
  }

  /** What the parsers keep of an answer. */
  function View(r: Rr): Record {
    Record(r.rtype, r.rdata)
  }

  /** Behind the name, by position and as the rest `t`. */
  lemma BodySeen(buf: seq<byte>, p: nat, t: seq<byte>)
    requires Suffix(buf, p, t) && |t| >= 10
    ensures Word(t, 0) == Be16(buf[p], buf[p + 1]) && Word(t, 8) == Be16(buf[p + 8], buf[p + 9])
    ensures var end := 10 + Word(t, 8);
            end <= |t| ==> t[10..end] == buf[p + 10..p + end] && t[end..] == buf[p + end..]
  {
  }

  lemma RecordAtReads(buf: seq<byte>, pos: nat)
    requires pos <= |buf|
    ensures Agree(buf, RecordAt(buf, |buf|, pos), ReadRr(buf[pos..]), View)
  {
    NameEndReads(buf, pos);
    var n := ReadName(buf[pos..]);
    if n.Some? {
      var p, t := NameEnd(buf, pos).value, n.value.1;
      assert |t| == |buf| - p;
      if |t| >= 10 {
        BodySeen(buf, p, t);
      }
    }
  }

  lemma {:induction false} RecordsAlong(buf: seq<byte>, at: Walker<Record>, pos: nat, count: nat)
    requires forall p :: at(p) == RecordAt(buf, |buf|, p)
    ensures match Along(at, pos, count)
            case Err(_) => Records(buf, |buf|, pos, count).Err?
            case Ok((rs, _)) => Records(buf, |buf|, pos, count) == Ok(rs)
    decreases count
  {
    if count > 0 && at(pos).Ok? {
      RecordsAlong(buf, at, at(pos).value.1, count - 1);
    }
  }

  lemma RecordsRead(buf: seq<byte>, pos: nat, count: nat)
    requires pos <= |buf|
    ensures match ReadMany(ReadRr, buf[pos..], count)
            case None => Records(buf, |buf|, pos, count).Err?
            case Some((rs, _)) => Records(buf, |buf|, pos, count) == Ok(Map(View, rs))
  {
    var at := (p: nat) => RecordAt(buf, |buf|, p);
    forall p: nat | p <= |buf| ensures Agree(buf, at(p), ReadRr(buf[p..]), View) {
      RecordAtReads(buf, p);
    }
    WalkersAgree(buf, at, ReadRr, View, pos, count);
    RecordsAlong(buf, at, pos, count);
  }

  /** What a lookup should report of a message. */
  function Expected(m: Message, k: Kind): Result<seq<seq<byte>>> {
    if m.Rcode() == 3 then Err(ENOENT)
    else if m.Rcode() != 0 then Err(EINVAL)
    else
      var found := Capped(Wanted(Map(View, m.answers), k));
      if found == [] then Err(ENOENT) else Ok(found)
  }

  /** A lookup on a whole packet is the message it holds, or EINVAL when it holds none. */
  lemma AnswerReads(buf: seq<byte>, k: Kind)
    ensures match Read(buf)
            case Some(m) => Answer(buf, |buf|, k) == Expected(m, k)
            case None =>
              Answer(buf, |buf|, k) == Err(if |buf| >= 12 && Word(buf, 2) % 0x10 == 3 then ENOENT else EINVAL)
  {
    if |buf| >= 12 {
      QuestionsEndReads(buf, 12, Word(buf, 4));
      var qs := ReadMany(ReadQuestion, buf[12..], Word(buf, 4));
      if qs.Some? {
        RecordsRead(buf, QuestionsEnd(buf, |buf|, 12, Word(buf, 4)).value, Word(buf, 6));
      }
    }
  }

  /** Every well-formed message, whatever lies behind it in the receive buffer, is answered by
      the first eight matching records in order, or ENOENT when there is none. */
  lemma AnswersEveryMessage(m: Message, stale: seq<byte>, k: Kind)
    requires m.Valid()
    ensures Answer(Encode(m) + stale, |Encode(m)|, k) == Expected(m, k)
  {
    var buf := Encode(m);
    assert (buf + stale)[..|buf|] == buf;
    OnlyReceivedBytesMatter(buf + stale, |buf|, k);
    ReadsMessage(m);
    AnswerReads(buf, k);
  }

  // ---- the same in numbers ----

  /** An answer the lookup reports: type 1 with four bytes, or type 28 with sixteen. */
  predicate Reported(r: Rr, k: Kind) {
    if k.A? then r.rtype == 1 && |r.rdata| == 4 else r.rtype == 28 && |r.rdata| == 16
  }

  /** `ix` are the positions of all the answers to report, in order. */
  predicate Picks(rs: seq<Rr>, k: Kind, ix: seq<nat>) {
    && (forall j | 0 <= j < |ix| :: ix[j] < |rs| && Reported(rs[ix[j]], k))
    && (forall i, j | 0 <= i < j < |ix| :: ix[i] < ix[j])
    && (forall i: nat | i < |rs| && Reported(rs[i], k) :: i in ix)
  }

  /** `ds` are the data of the answers at `ix`. */
  predicate DataAt(rs: seq<Rr>, ix: seq<nat>, ds: seq<seq<byte>>) {
    |ds| == |ix| && forall j | 0 <= j < |ix| :: ix[j] < |rs| && ds[j] == rs[ix[j]].rdata
  }

  lemma PicksSnoc(front: seq<Rr>, last: Rr, k: Kind, ix: seq<nat>)
    requires Picks(front, k, ix)
    ensures Picks(front + [last], k, if Reported(last, k) then ix + [|front|] else ix)
  {
    var rs, n := front + [last], |front|;
    assert forall i: nat | i < n :: rs[i] == front[i];
    if Reported(last, k) {
      var jx := ix + [n];
      forall i: nat | i < |rs| && Reported(rs[i], k) ensures i in jx {
        if i < n {
          assert i in ix;
        } else {
          assert jx[|ix|] == i;
        }
      }
    }
  }

  lemma DataSnoc(front: seq<Rr>, last: Rr, ix: seq<nat>, ds: seq<seq<byte>>)
    requires DataAt(front, ix, ds)
    ensures DataAt(front + [last], ix, ds) && DataAt(front + [last], ix + [|front|], ds + [last.rdata])
  {
  }

  lemma {:induction false} WantedPicks(rs: seq<Rr>, k: Kind) returns (ix: seq<nat>)
    ensures Picks(rs, k, ix) && DataAt(rs, ix, Wanted(Map(View, rs), k))
    decreases |rs|
  {
    ix := [];
    if rs != [] {
      var n := |rs| - 1;
      var front, last := rs[..n], rs[n];
      ix := WantedPicks(front, k);
      assert rs == front + [last];
      MapSnoc(View, front, last);
      WantedSnoc(Map(View, front), View(last), k);
      PicksSnoc(front, last, k, ix);
      DataSnoc(front, last, ix, Wanted(Map(View, front), k));
      ix := if Reported(last, k) then ix + [n] else ix;
    }
  }

  /** A response with rcode 0, whatever lies behind it in the buffer: ENOENT when no answer is to
      be reported, else the data of the first eight that are, in order. */
  lemma FirstEight(m: Message, stale: seq<byte>, k: Kind) returns (ix: seq<nat>)
    requires m.Valid() && m.flags % 16 == 0
    ensures Picks(m.answers, k, ix)
    ensures var r := Answer(Encode(m) + stale, |Encode(m)|, k);
            if ix == [] then r == Err(Errno(2))
            else
              && r.Ok? && |r.value| == (if |ix| < 8 then |ix| else 8)
              && forall j | 0 <= j < |r.value| :: r.value[j] == m.answers[ix[j]].rdata
  {
    ix := WantedPicks(m.answers, k);
    AnswersEveryMessage(m, stale, k);
  }

  /** Rcode 3 is ENOENT, any other rcode EINVAL. */
  lemma OtherRcodes(m: Message, stale: seq<byte>, k: Kind)
    requires m.Valid() && m.flags % 16 != 0
    ensures Answer(Encode(m) + stale, |Encode(m)|, k) == Err(Errno(if m.flags % 16 == 3 then 2 else 22))
  {
    AnswersEveryMessage(m, stale, k);
  }

  /** The packets a lookup calls malformed are exactly those that are neither the encoding of a
      message with rcode 0 nor a header carrying rcode 3. */
  lemma MalformedExactly(buf: seq<byte>, k: Kind)
    ensures Answer(buf, |buf|, k) == Err(EINVAL)
       <==> !(exists m: Message :: m.Valid() && m.Rcode() == 0 && Encode(m) == buf)
            && !(|buf| >= 12 && Word(buf, 2) % 0x10 == 3)
  {
    AnswerReads(buf, k);
    if m: Message :| m.Valid() && m.Rcode() == 0 && Encode(m) == buf {
      ReadsMessage(m);
    } else if Read(buf).Some? {
      MessageWasEncoded(buf);
    }
  }

  lemma QuestionsEndOfEncoding(buf: seq<byte>, qs: seq<Question>, t: seq<byte>)
    requires |buf| >= 12 && buf[12..] == EncodeAll(EncodeQuestion, qs) + t
    ensures QuestionsEnd(buf, |buf|, 12, |qs|) == Ok(12 + |EncodeAll(EncodeQuestion, qs)|)
  {
    ItemsInvert();
    ReadsMany(ReadQuestion, EncodeQuestion, qs, t);
    QuestionsEndReads(buf, 12, |qs|);
  }

  /** The header of an encoding points behind its questions. */
  lemma HeaderOfEncoding(m: Message)
    requires m.Valid() && m.Rcode() == 0
    ensures HeaderOf(Encode(m), |Encode(m)|)
         == Ok(Header(|m.answers|, 12 + |EncodeAll(EncodeQuestion, m.questions)|))
  {
    var t := EncodeAll(EncodeRr, m.answers) + m.rest;
    HeaderWords(m.id, m.flags, |m.questions|, |m.answers|, m.nscount, m.arcount,
                EncodeAll(EncodeQuestion, m.questions) + t);
    QuestionsEndOfEncoding(Encode(m), m.questions, t);
  }
}
