/** The inotify read buffer and its iterator (src/inotify.rs). */
module Inotify {
  import opened Base
  import opened ListCodec

  /** The NUL-padded name field, its length a 32-bit word. */
  type Field = f: seq<byte> | |f| < 0x1_0000_0000

  datatype Event = Event(wd: i32, mask: u32, cookie: u32, name: Field) {
    /** `InotifyEvent::name`: up to the first NUL, None for an empty field or one without NUL. */
    function Name(): Option<seq<byte>> {
      var k := NulIndex(name);
      if name == [] || k == |name| then None else Some(name[..k])
    }
  }

  function Header(wd: i32, mask: u32, cookie: u32, len: u32): (s: seq<byte>)
    ensures |s| == 16
  {
    LeBytes(AsU32(wd), 4) + LeBytes(mask, 4) + LeBytes(cookie, 4) + LeBytes(len, 4)
  }

  function Encode(e: Event): (s: seq<byte>)
    ensures |s| == 16 + |e.name|
  {
    Header(e.wd, e.mask, e.cookie, |e.name|) + e.name
  }

  function U32At(s: seq<byte>, i: nat): u32
    requires i + 4 <= |s|
  {
    Widths();
    LeBound(s[i..i + 4]);
    Le(s[i..i + 4])
  }

  /** The front event, or None where the iterator panics. */
  function Read(s: seq<byte>): (r: Option<(Event, seq<byte>)>)
    ensures r.Some? ==> |r.value.1| + 16 + |r.value.0.name| == |s|
  {
    if |s| < 16 || 16 + U32At(s, 12) > |s| then None
    else
      var end := 16 + U32At(s, 12);
      Some((Event(AsI32(U32At(s, 0)), U32At(s, 4), U32At(s, 8), s[16..end]), s[end..]))
  }

  lemma HeaderFields(wd: i32, mask: u32, cookie: u32, len: u32, t: seq<byte>)
    ensures var s := Header(wd, mask, cookie, len) + t;
            U32At(s, 0) == AsU32(wd) && U32At(s, 4) == mask && U32At(s, 8) == cookie && U32At(s, 12) == len
  {
    var s := Header(wd, mask, cookie, len) + t;
    Widths();
    assert s[0..4] == LeBytes(AsU32(wd), 4);
    assert s[4..8] == LeBytes(mask, 4);
    assert s[8..12] == LeBytes(cookie, 4);
    assert s[12..16] == LeBytes(len, 4);
    LeOfBytes(AsU32(wd), 4);
    LeOfBytes(mask, 4);
    LeOfBytes(cookie, 4);
    LeOfBytes(len, 4);
  }

  lemma Reads(e: Event, t: seq<byte>)
    ensures Read(Encode(e) + t) == Some((e, t))
  {
    var header := Header(e.wd, e.mask, e.cookie, |e.name|);
    Associative(header, e.name, t);
    HeaderFields(e.wd, e.mask, e.cookie, |e.name|, e.name + t);
    var s := header + (e.name + t);
    assert s[16..16 + |e.name|] == e.name && s[16 + |e.name|..] == t;
  }

  lemma WordBytes(s: seq<byte>, i: nat)
    requires i + 4 <= |s|
    ensures LeBytes(U32At(s, i), 4) == s[i..i + 4]
  {
    BytesOfLe(s[i..i + 4]);
  }

  lemma FourWords(s: seq<byte>, a: u32, b: u32, c: u32, d: u32)
    requires |s| >= 16 && a == U32At(s, 0) && b == U32At(s, 4) && c == U32At(s, 8) && d == U32At(s, 12)
    ensures LeBytes(a, 4) + LeBytes(b, 4) + LeBytes(c, 4) + LeBytes(d, 4) == s[..16]
  {
    WordBytes(s, 0);
    WordBytes(s, 4);
    WordBytes(s, 8);
    WordBytes(s, 12);
    Quarters(s);
  }

  lemma Quarters(s: seq<byte>)
    requires |s| >= 16
    ensures s[0..4] + s[4..8] + s[8..12] + s[12..16] == s[..16]
  {
  }

  lemma HeaderBytes(s: seq<byte>)
    requires |s| >= 16
    ensures Header(AsI32(U32At(s, 0)), U32At(s, 4), U32At(s, 8), U32At(s, 12)) == s[..16]
  {
    FourWords(s, U32At(s, 0), U32At(s, 4), U32At(s, 8), U32At(s, 12));
    assert AsU32(AsI32(U32At(s, 0))) == U32At(s, 0);
  }

  lemma WasEncoded(s: seq<byte>)
    requires Read(s).Some?
    ensures s == Encode(Read(s).value.0) + Read(s).value.1
  {
    HeaderBytes(s);
    var end := 16 + U32At(s, 12);
    assert s == s[..16] + s[16..end] + s[end..];
  }

  lemma CodecLaws()
    ensures Inverts(Read, Encode) && Exact(Read, Encode) && NonEmpty(Encode)
  {
    forall e, t ensures Read(Encode(e) + t) == Some((e, t)) {
      Reads(e, t);
    }
    forall s | Read(s).Some? ensures s == Encode(Read(s).value.0) + Read(s).value.1 {
      WasEncoded(s);
    }
  }

  datatype Next = End | Item(event: Event) | Panic

  /** The iterator: the events not yet handed out. */
  class Iter {
    var buf: seq<byte>

    constructor (buf: seq<byte>)
      ensures this.buf == buf
    {
      this.buf := buf;
    }

    /** Hand out the front event: consumed and remaining bytes are always the whole buffer. */
    method Next() returns (r: Next)
      modifies this
      ensures r == match Read(old(buf))
                   case Some((e, _)) => Item(e)
                   case None => if old(buf) == [] then End else Panic
      ensures r.Item? ==> old(buf) == Encode(r.event) + buf && |old(buf)| == 16 + |r.event.name| + |buf|
      ensures !r.Item? ==> buf == old(buf)
    {
      if buf == [] {
        return End;
      }
      var rec := buf;
      if |rec| < 16 {
        return Panic;
      }
      var wd := AsI32(U32At(rec, 0));
      var mask := U32At(rec, 4);
      var cookie := U32At(rec, 8);
      var len := U32At(rec, 12);
      if 16 + len > |rec| {
        return Panic;
      }
      var name := rec[16..16 + len];
      WasEncoded(rec);
      buf := rec[16 + len..];
      return Item(Event(wd, mask, cookie, name));
    }
  }

  /** A `for` loop over `inotify_events(buf)`; None when it panics. */
  method Events(buf: seq<byte>) returns (r: Option<seq<Event>>)
    ensures r == ReadAll(Read, buf)
  {
    var it := new Iter(buf);
    var seen: seq<Event> := [];
    AfterNothing(ReadAll(Read, buf));
    while true
      invariant ReadAll(Read, buf) == After(seen, ReadAll(Read, it.buf))
      decreases |it.buf|
    {
      ghost var rest := it.buf;
      var n := it.Next();
      match n
      case End =>
        assert seen + [] == seen;
        return Some(seen);
      case Panic =>
        return None;
      case Item(e) =>
        assert Read(rest) == Some((e, it.buf)) by { Reads(e, it.buf); }
        AfterCons(seen, e, ReadAll(Read, it.buf));
        seen := seen + [e];
    }
  }

  /** Iterating the concatenated encodings of any events yields exactly those events. */
  lemma IteratesEveryChain(es: seq<Event>, more: seq<byte>)
    ensures ReadAll(Read, EncodeAll(Encode, es)) == Some(es)
    ensures ReadAll(Read, EncodeAll(Encode, es) + more) == After(es, ReadAll(Read, more))
  {
    CodecLaws();
    ReadsAll(Read, Encode, es, more);
    ReadsAll(Read, Encode, es, []);
    assert EncodeAll(Encode, es) + [] == EncodeAll(Encode, es);
    assert es + [] == es;
  }

  /** One buffer after another yields one list after the other. */
  lemma DistributesOverConcat(s: seq<byte>, t: seq<byte>)
    requires ReadAll(Read, s).Some?
    ensures ReadAll(Read, s + t) == After(ReadAll(Read, s).value, ReadAll(Read, t))
  {
    CodecLaws();
    ReadAllConcat(Read, Encode, s, t);
  }

  /** The iterator survives exactly the buffers that are event chains. */
  lemma PanicsExactlyOffChains(buf: seq<byte>)
    ensures ReadAll(Read, buf).Some? <==> exists es: seq<Event> :: EncodeAll(Encode, es) == buf
  {
    CodecLaws();
    if ReadAll(Read, buf).Some? {
      AllWereEncoded(Read, Encode, buf);
    }
    if es: seq<Event> :| EncodeAll(Encode, es) == buf {
      IteratesEveryChain(es, []);
    }
  }

  /** `name()` recovers a name from the field the kernel pads with NULs. */
  lemma NameRecovered(e: Event, name: seq<byte>, padding: seq<byte>)
    requires 0 !in name && e.name == name + padding
    ensures padding != [] && padding[0] == 0 ==> e.Name() == Some(name)
    ensures padding == [] ==> e.Name() == None
  {
    if padding == [] || padding[0] == 0 {
      NulIndexOf(name, padding);
      assert e.name[..|name|] == name;
    }
  }
}
