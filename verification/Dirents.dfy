/** The `getdents64` record chain and its iterator (src/fs.rs). */
module Dirents {
  import opened Base
  import opened ListCodec

  /** A `linux_dirent64`: the name, then nothing or a NUL and any padding up to d_reclen. */
  datatype Raw = Raw(ino: u64, off: u64, kind: byte, name: seq<byte>, tail: seq<byte>) {
    predicate Valid() {
      && 0 !in name && (tail != [] ==> tail[0] == 0)
      && 19 + |name| + |tail| < 0x1_0000
    }
    function Reclen(): nat { 19 + |name| + |tail| }
  }

  type Dirent = r: Raw | r.Valid() witness Raw(0, 0, 0, [], [])

  /** What the iterator yields. */
  datatype RawDirent = RawDirent(d_ino: u64, d_type: byte, d_name: seq<byte>)

  function View(d: Dirent): RawDirent {
    RawDirent(d.ino, d.kind, d.name)
  }

  function Fixed(ino: u64, off: u64, reclen: u16, kind: byte): (s: seq<byte>)
    ensures |s| == 19
  {
    LeBytes(ino, 8) + LeBytes(off, 8) + LeBytes(reclen, 2) + [kind]
  }

  function Encode(d: Dirent): (s: seq<byte>)
    ensures |s| == d.Reclen()
  {
    Fixed(d.ino, d.off, d.Reclen(), d.kind) + (d.name + d.tail)
  }

  function U64At(s: seq<byte>, i: nat): u64
    requires i + 8 <= |s|
  {
    Widths();
    LeBound(s[i..i + 8]);
    Le(s[i..i + 8])
  }

  function U16At(s: seq<byte>, i: nat): u16
    requires i + 2 <= |s|
  {
    Widths();
    LeBound(s[i..i + 2]);
    Le(s[i..i + 2])
  }

  /** The front record, or None where the iterator panics. */
  function Read(s: seq<byte>): (r: Option<(Dirent, seq<byte>)>)
    ensures r.Some? ==> |r.value.1| + 19 <= |s|
  {
    if |s| < 19 || U16At(s, 16) < 19 || U16At(s, 16) > |s| then None
    else
      var reclen := U16At(s, 16);
      var region := s[19..reclen];
      var k := NulIndex(region);
      Some((Raw(U64At(s, 0), U64At(s, 8), s[18], region[..k], region[k..]), s[reclen..]))
  }

  lemma FixedFields(ino: u64, off: u64, reclen: u16, kind: byte, t: seq<byte>)
    ensures var s := Fixed(ino, off, reclen, kind) + t;
            U64At(s, 0) == ino && U64At(s, 8) == off && U16At(s, 16) == reclen && s[18] == kind
  {
    var s := Fixed(ino, off, reclen, kind) + t;
    Widths();
    assert s[0..8] == LeBytes(ino, 8);
    assert s[8..16] == LeBytes(off, 8);
    assert s[16..18] == LeBytes(reclen, 2);
    LeOfBytes(ino, 8);
    LeOfBytes(off, 8);
    LeOfBytes(reclen, 2);
  }

  lemma Reads(d: Dirent, t: seq<byte>)
    ensures Read(Encode(d) + t) == Some((d, t))
  {
    var fixed := Fixed(d.ino, d.off, d.Reclen(), d.kind);
    var body := d.name + d.tail;
    Associative(fixed, body, t);
    FixedFields(d.ino, d.off, d.Reclen(), d.kind, body + t);
    var s := fixed + (body + t);
    assert s[19..d.Reclen()] == body && s[d.Reclen()..] == t;
    NulIndexOf(d.name, d.tail);
    assert body[..|d.name|] == d.name && body[|d.name|..] == d.tail;
  }

  lemma FixedBytes(s: seq<byte>)
    requires |s| >= 19
    ensures Fixed(U64At(s, 0), U64At(s, 8), U16At(s, 16), s[18]) == s[..19]
  {
    BytesOfLe(s[0..8]);
    BytesOfLe(s[8..16]);
    BytesOfLe(s[16..18]);
  }

  lemma WasEncoded(s: seq<byte>)
    requires Read(s).Some?
    ensures s == Encode(Read(s).value.0) + Read(s).value.1
  {
    FixedBytes(s);
    var reclen := U16At(s, 16);
    var region := s[19..reclen];
    var d := Read(s).value.0;
    assert d.name + d.tail == region && d.Reclen() == reclen;
    assert Encode(d) == s[..19] + region == s[..reclen];
  }

  lemma CodecLaws()
    ensures Inverts(Read, Encode) && Exact(Read, Encode) && NonEmpty(Encode)
  {
    forall d, t ensures Read(Encode(d) + t) == Some((d, t)) {
      Reads(d, t);
    }
    forall s | Read(s).Some? ensures s == Encode(Read(s).value.0) + Read(s).value.1 {
      WasEncoded(s);
    }
  }

  /** The entry of the record at the front of `s`: its inode number in bytes 0 to 7, its type in
      byte 18, its name from byte 19 up to the first NUL or the end of the record. */
  predicate Shows(s: seq<byte>, e: RawDirent) {
    && |s| >= 19 && 19 <= Le(s[16..18]) <= |s|
    && e.d_ino == Le(s[0..8]) && e.d_type == s[18]
    && var region := s[19..Le(s[16..18])];
       e.d_name <= region && 0 !in e.d_name && (|e.d_name| < |region| ==> region[|e.d_name|] == 0)
  }

  datatype Next = End | Item(entry: RawDirent) | Panic

  /** The iterator: a buffer and the position of the next record. */
  class Iter {
    const buf: seq<byte>
    var pos: nat

    ghost predicate Valid()
      reads this
    {
      pos <= |buf|
    }

    constructor (buf: seq<byte>)
      ensures Valid() && this.buf == buf && pos == 0
    {
      this.buf := buf;
      pos := 0;
    }

    /** One record: the entry at the front of the unread bytes, which then start behind it. */
    method Next() returns (r: Next)
      requires Valid()
      modifies this`pos
      ensures Valid()
      ensures r == match Read(old(buf[pos..]))
                   case Some((d, _)) => Item(View(d))
                   case None => if old(pos) == |buf| then End else Panic
      ensures r.Item? ==> Shows(old(buf[pos..]), r.entry)
      ensures r.Item? ==> pos >= old(pos) + 19 && buf[pos..] == Read(old(buf[pos..])).value.1
      ensures !r.Item? ==> pos == old(pos)
    {
      if pos >= |buf| {
        return End;
      }
      var rec := buf[pos..];
      if |rec| < 19 {
        return Panic;
      }
      var d_ino := U64At(rec, 0);
      var d_reclen := U16At(rec, 16);
      var d_type := rec[18];
      if d_reclen < 19 || d_reclen > |rec| {
        return Panic;
      }
      var region := rec[19..d_reclen];
      var nul := FindNul(region);
      var d_name := region[..nul];
      pos := pos + d_reclen;
      return Item(RawDirent(d_ino, d_type, d_name));
    }
  }

  /** A `for` loop over `dirents(buf)`; None when it panics. */
  method Entries(buf: seq<byte>) returns (r: Option<seq<RawDirent>>)
    ensures r == match ReadAll(Read, buf)
                 case Some(ds) => Some(Map(View, ds))
                 case None => None
  {
    var it := new Iter(buf);
    var items: seq<RawDirent> := [];
    ghost var seen: seq<Dirent> := [];
    assert buf[0..] == buf;
    AfterNothing(ReadAll(Read, buf));
    while true
      invariant it.Valid() && it.buf == buf && items == Map(View, seen)
      invariant ReadAll(Read, buf) == After(seen, ReadAll(Read, buf[it.pos..]))
      decreases |buf| - it.pos
    {
      ghost var rest := buf[it.pos..];
      var n := it.Next();
      match n
      case End =>
        assert seen + [] == seen;
        return Some(items);
      case Panic =>
        return None;
      case Item(e) =>
        ghost var d := Read(rest).value.0;
        AfterCons(seen, d, ReadAll(Read, buf[it.pos..]));
        MapSnoc(View, seen, d);
        seen := seen + [d];
        items := items + [e];
    }
  }

  lemma MapAt(ds: seq<Dirent>, i: nat)
    requires i < |ds|
    ensures |Map(View, ds)| == |ds| && Map(View, ds)[i] == RawDirent(ds[i].ino, ds[i].kind, ds[i].name)
  {
    if i > 0 {
      MapAt(ds[1..], i - 1);
    } else {
      MapLength(ds);
    }
  }

  lemma MapLength(ds: seq<Dirent>)
    ensures |Map(View, ds)| == |ds|
  {
  }

  /** A loop over the chain of any records hands out the inode number, type and name of each. */
  method EntriesOfChain(ds: seq<Dirent>) returns (r: seq<RawDirent>)
    ensures |r| == |ds|
    ensures forall i | 0 <= i < |ds| :: r[i].d_ino == ds[i].ino && r[i].d_type == ds[i].kind && r[i].d_name == ds[i].name
  {
    IteratesEveryChain(ds, []);
    var found := Entries(EncodeAll(Encode, ds));
    r := found.value;
    MapLength(ds);
    forall i | 0 <= i < |ds| ensures r[i] == RawDirent(ds[i].ino, ds[i].kind, ds[i].name) {
      MapAt(ds, i);
    }
  }

  /** Iterating the concatenated encodings of any records yields exactly those records, then
      whatever the bytes behind them yield. */
  lemma IteratesEveryChain(ds: seq<Dirent>, more: seq<byte>)
    ensures ReadAll(Read, EncodeAll(Encode, ds)) == Some(ds)
    ensures ReadAll(Read, EncodeAll(Encode, ds) + more) == After(ds, ReadAll(Read, more))
  {
    CodecLaws();
    ReadsAll(Read, Encode, ds, more);
    ReadsAll(Read, Encode, ds, []);
    assert EncodeAll(Encode, ds) + [] == EncodeAll(Encode, ds);
    assert ds + [] == ds;
  }

  /** One buffer after another yields one list after the other. */
  lemma DistributesOverConcat(s: seq<byte>, t: seq<byte>)
    requires ReadAll(Read, s).Some?
    ensures ReadAll(Read, s + t) == After(ReadAll(Read, s).value, ReadAll(Read, t))
  {
    CodecLaws();
    ReadAllConcat(Read, Encode, s, t);
  }

  /** The iterator survives exactly the buffers that are record chains. */
  lemma PanicsExactlyOffChains(buf: seq<byte>)
    ensures ReadAll(Read, buf).Some? <==> exists ds: seq<Dirent> :: EncodeAll(Encode, ds) == buf
  {
    CodecLaws();
    if ReadAll(Read, buf).Some? {
      AllWereEncoded(Read, Encode, buf);
    }
    if ds: seq<Dirent> :| EncodeAll(Encode, ds) == buf {
      IteratesEveryChain(ds, []);
    }
  }
}
