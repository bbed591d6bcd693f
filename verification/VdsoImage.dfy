/** ELF64 images assembled from program headers, dynamic entries, symbols and strings, and what
    the lookup finds in them. */
module VdsoImage {
  import opened Base
  import opened Vdso

  /** An exported symbol: its virtual address and its name. */
  datatype Export = Export(value: u64, text: seq<byte>)

  /** What to assemble. Headers and dynamic entries may be any, missing or repeated ones included. */
  datatype Source = Source(magic: u32, class_: byte, machine: u16, phentsize: u16,
                           phdrs: seq<Phdr>, dyns: seq<Dyn>, exports: seq<Export>)
  {
    // Layout: ELF header, program headers, dynamic section, hash, symbols, strings.
    function Stride(): nat { if phentsize > 56 then phentsize else 56 }
    function DynsOff(): nat { PHDRS + |phdrs| * Stride() }
    function HashOff(): nat { DynsOff() + 16 * |dyns| + 16 }
    function SymsOff(): nat { HashOff() + 8 }
    function StrsOff(): nat { SymsOff() + 24 * |exports| }

    /** Counts and string offsets fit their fields, names hold no NUL, DT_NULL only closes. */
    predicate Fits() {
      && (forall x | x in exports :: 0 !in x.text) && (forall d | d in dyns :: d.tag != 0)
      && |phdrs| < 0x1_0000 && |exports| < 0x1_0000_0000 && 1 + |Strings(exports)| < 0x1_0000_0000
    }

    /** Whatever the headers and the dynamic section point at is where the tables lie. */
    predicate Linked() {
      && (DynamicAt(phdrs).Some? ==> DynamicAt(phdrs).value == DynsOff())
      && Points(DT_HASH, HashOff()) && Points(DT_SYMTAB, SymsOff()) && Points(DT_STRTAB, StrsOff())
    }

    predicate Points(tag: u64, off: nat) {
      Bias(phdrs).Some? && Last(dyns, tag).Some? ==> (Bias(phdrs).value + Last(dyns, tag).value) % WORD == off
    }

    predicate Valid() { Fits() && Linked() }
  }

  const PHDRS := 64

  /** How a number is laid down in a given width. */
  type Encoder = (nat, nat) -> seq<byte>

  ghost predicate Sized(le: Encoder) {
    forall v, n :: |le(v, n)| == n
  }

  function Zeros(n: nat): (s: seq<byte>)
    ensures |s| == n
  {
    seq(n, _ => 0)
  }

  /** The names, each with its NUL; the table itself starts with a NUL. */
  function Strings(xs: seq<Export>): seq<byte> {
    if xs == [] then [] else (xs[0].text + [0]) + Strings(xs[1..])
  }

  /** Symbols with their string offsets, the first one at `next`. */
  function Symbols(xs: seq<Export>, next: nat): (syms: seq<Sym>)
    requires next + |Strings(xs)| < 0x1_0000_0000
    ensures |syms| == |xs|
    decreases |xs|
  {
    if xs == [] then []
    else [Sym(next, xs[0].value, xs[0].text)] + Symbols(xs[1..], next + |xs[0].text| + 1)
  }

  function SymBytes(le: Encoder, x: Sym): seq<byte> {
    le(x.name, 4) + (Zeros(4) + (le(x.value, 8) + Zeros(8)))
  }

  function SymsBytes(le: Encoder, xs: seq<Sym>): seq<byte> {
    if xs == [] then [] else SymBytes(le, xs[0]) + SymsBytes(le, xs[1..])
  }

  function PhdrBytes(le: Encoder, h: Phdr): seq<byte> {
    le(h.kind, 4) + (Zeros(4) + (le(h.offset, 8) + (le(h.vaddr, 8) + Zeros(32))))
  }

  /** Program headers, each padded to `stride` bytes. */
  function PhdrsBytes(le: Encoder, hs: seq<Phdr>, stride: nat): seq<byte>
    requires stride >= 56
  {
    if hs == [] then [] else PhdrBytes(le, hs[0]) + (Zeros(stride - 56) + PhdrsBytes(le, hs[1..], stride))
  }

  function DynBytes(le: Encoder, d: Dyn): seq<byte> {
    le(d.tag, 8) + le(d.val, 8)
  }

  /** The entries, then DT_NULL. */
  function DynsBytes(le: Encoder, ds: seq<Dyn>): seq<byte> {
    if ds == [] then le(0, 8) + Zeros(8) else DynBytes(le, ds[0]) + DynsBytes(le, ds[1..])
  }

  function IdentBytes(le: Encoder, s: Source): seq<byte> {
    le(s.magic, 4) + (le(s.class_, 1) + (Zeros(13) + (le(s.machine, 2) + Zeros(12))))
  }

  function LayoutBytes(le: Encoder, s: Source): seq<byte> {
    le(PHDRS, 8) + (Zeros(14) + (le(s.phentsize, 2) + (le(|s.phdrs|, 2) + Zeros(6))))
  }

  /** The hash table's two counts, then symbols and strings. */
  function Tables(le: Encoder, s: Source): seq<byte>
    requires s.Fits()
  {
    (le(0, 4) + le(|s.exports|, 4)) + Names(le, s)
  }

  function Names(le: Encoder, s: Source): seq<byte>
    requires s.Fits()
  {
    SymsBytes(le, Symbols(s.exports, 1)) + ([0] + Strings(s.exports))
  }

  /** The image as a value. */
  function Image(s: Source): Elf
    requires s.Fits()
  {
    Elf(s.magic, s.class_, s.machine, PHDRS, s.phentsize, s.phdrs, s.dyns, Symbols(s.exports, 1))
  }

  /** The image as bytes. */
  function Assembled(le: Encoder, s: Source): seq<byte>
    requires s.Fits()
  {
    IdentBytes(le, s)
    + (LayoutBytes(le, s)
    + (PhdrsBytes(le, s.phdrs, s.Stride())
    + (DynsBytes(le, s.dyns) + Tables(le, s))))
  }

  // ---- bytes in place ----

  predicate At(img: seq<byte>, off: nat, s: seq<byte>) {
    off + |s| <= |img| && img[off..off + |s|] == s
  }

  lemma AtConcat(img: seq<byte>, off: nat, a: seq<byte>, b: seq<byte>)
    requires At(img, off, a + b)
    ensures At(img, off, a) && At(img, off + |a|, b)
  {
    var whole := img[off..off + |a| + |b|];
    assert whole[..|a|] == a && whole[|a|..] == b;
    assert img[off..off + |a|] == whole[..|a|] && img[off + |a|..off + |a| + |b|] == whole[|a|..];
  }

  predicate Fits(v: nat, n: nat) {
    (n == 1 && v < 0x100) || (n == 2 && v < 0x1_0000) || (n == 4 && v < 0x1_0000_0000) || (n == 8 && v < WORD)
  }

  /** `v` is laid down in `n` bytes at `off`. */
  predicate Laid(le: Encoder, img: seq<byte>, off: nat, n: nat, v: nat) {
    At(img, off, le(v, n)) && Fits(v, n)
  }

  /** Memory at `base` shows the words laid down in `img`, and its bytes. */
  ghost predicate Shows(m: Memory, le: Encoder, img: seq<byte>, base: int) {
    && (forall off: nat, n: nat, v: nat | Laid(le, img, off, n, v) :: Word(m, base + off, n, v))
    && (forall off | 0 <= off < |img| :: ByteShows(m, img, base, off))
  }

  predicate ByteShows(m: Memory, img: seq<byte>, base: int, off: nat)
    requires off < |img|
  {
    m(base + off, 1) == Some(img[off])
  }

  lemma PlacedShows(img: seq<byte>, base: int)
    ensures Sized(LeBytes) && Shows(Placed(img, base), LeBytes, img, base)
  {
    var m := Placed(img, base);
    forall off: nat, n: nat, v: nat | Laid(LeBytes, img, off, n, v) ensures Word(m, base + off, n, v) {
      Widths();
      LeOfBytes(v, n);
    }
    forall off | 0 <= off < |img| ensures ByteShows(m, img, base, off) {
      var one := img[off..off + 1];
      assert one == [img[off]] && one[1..] == [] && Le(one) == img[off];
    }
  }

  lemma TextShown(m: Memory, le: Encoder, img: seq<byte>, base: int, off: nat, text: seq<byte>)
    requires Shows(m, le, img, base) && At(img, off, text + [0]) && 0 !in text
    ensures CStrAt(m, base + off, text)
  {
    var s := text + [0];
    assert img[off..off + |s|] == s;
    forall i | 0 <= i < |s| ensures m(base + off + i, 1) == Some(s[i]) {
      assert ByteShows(m, img, base, off + i);
      assert img[off + i] == img[off..off + |s|][i];
    }
    assert m(base + off + |text|, 1) == Some(s[|text|]);
    forall i | 0 <= i < |text| ensures m(base + off + i, 1) == Some(text[i]) {
      assert s[i] == text[i];
    }
  }

  lemma SymShown(m: Memory, le: Encoder, img: seq<byte>, base: int, off: nat, strs: nat, x: Sym)
    requires Sized(le) && Shows(m, le, img, base) && At(img, off, SymBytes(le, x))
    requires At(img, strs + x.name, x.text + [0]) && 0 !in x.text
    ensures SymAt(m, base + off, base + strs, x)
  {
    AtConcat(img, off, le(x.name, 4), Zeros(4) + (le(x.value, 8) + Zeros(8)));
    AtConcat(img, off + 4, Zeros(4), le(x.value, 8) + Zeros(8));
    AtConcat(img, off + 8, le(x.value, 8), Zeros(8));
    assert Laid(le, img, off, 4, x.name) && Laid(le, img, off + 8, 8, x.value);
    TextShown(m, le, img, base, strs + x.name, x.text);
  }

  /** The first symbol and its string, and those behind them. */
  lemma SymsSplit(le: Encoder, img: seq<byte>, off: nat, strs: nat, xs: seq<Export>, next: nat)
    requires Sized(le) && xs != [] && next + |Strings(xs)| < 0x1_0000_0000
    requires At(img, off, SymsBytes(le, Symbols(xs, next))) && At(img, strs + next, Strings(xs))
    ensures var more := next + |xs[0].text| + 1;
            && At(img, off, SymBytes(le, Sym(next, xs[0].value, xs[0].text)))
            && At(img, off + 24, SymsBytes(le, Symbols(xs[1..], more)))
            && At(img, strs + next, xs[0].text + [0]) && At(img, strs + more, Strings(xs[1..]))
  {
    var syms, more := Symbols(xs, next), next + |xs[0].text| + 1;
    assert syms[0] == Sym(next, xs[0].value, xs[0].text) && syms[1..] == Symbols(xs[1..], more);
    AtConcat(img, off, SymBytes(le, syms[0]), SymsBytes(le, syms[1..]));
    AtConcat(img, strs + next, xs[0].text + [0], Strings(xs[1..]));
  }

  lemma {:induction false} SymsShown(m: Memory, le: Encoder, img: seq<byte>, base: int, off: nat, strs: nat,
                                     xs: seq<Export>, next: nat)
    requires Sized(le) && Shows(m, le, img, base)
    requires next + |Strings(xs)| < 0x1_0000_0000 && forall x | x in xs :: 0 !in x.text
    requires At(img, off, SymsBytes(le, Symbols(xs, next))) && At(img, strs + next, Strings(xs))
    ensures SymsAt(m, base + off, base + strs, Symbols(xs, next))
    decreases |xs|
  {
    if xs != [] {
      var more, x := next + |xs[0].text| + 1, Sym(next, xs[0].value, xs[0].text);
      assert xs[0] in xs;
      SymsSplit(le, img, off, strs, xs, next);
      SymShown(m, le, img, base, off, strs, x);
      SymsShown(m, le, img, base, off + 24, strs, xs[1..], more);
      assert Symbols(xs, next)[0] == x && Symbols(xs, next)[1..] == Symbols(xs[1..], more);
      assert base + (off + 24) == base + off + 24;
    }
  }

  lemma PhdrShown(m: Memory, le: Encoder, img: seq<byte>, base: int, off: nat, h: Phdr)
    requires Sized(le) && Shows(m, le, img, base) && At(img, off, PhdrBytes(le, h))
    ensures PhdrAt(m, base + off, h)
  {
    var c := le(h.vaddr, 8) + Zeros(32);
    var b := le(h.offset, 8) + c;
    AtConcat(img, off, le(h.kind, 4), Zeros(4) + b);
    AtConcat(img, off + 4, Zeros(4), b);
    AtConcat(img, off + 8, le(h.offset, 8), c);
    AtConcat(img, off + 16, le(h.vaddr, 8), Zeros(32));
    assert Laid(le, img, off, 4, h.kind) && Laid(le, img, off + 8, 8, h.offset) && Laid(le, img, off + 16, 8, h.vaddr);
  }

  lemma PhdrsSplit(le: Encoder, img: seq<byte>, off: nat, hs: seq<Phdr>, stride: nat)
    requires Sized(le) && stride >= 56 && hs != [] && At(img, off, PhdrsBytes(le, hs, stride))
    ensures At(img, off, PhdrBytes(le, hs[0])) && At(img, off + stride, PhdrsBytes(le, hs[1..], stride))
  {
    var pad, more := Zeros(stride - 56), PhdrsBytes(le, hs[1..], stride);
    AtConcat(img, off, PhdrBytes(le, hs[0]), pad + more);
    AtConcat(img, off + 56, pad, more);
  }

  lemma {:induction false} PhdrsShown(m: Memory, le: Encoder, img: seq<byte>, base: int, off: nat, hs: seq<Phdr>, stride: nat)
    requires Sized(le) && Shows(m, le, img, base) && stride >= 56 && At(img, off, PhdrsBytes(le, hs, stride))
    ensures PhdrsAt(m, base + off, stride, hs)
    decreases |hs|
  {
    if hs != [] {
      PhdrsSplit(le, img, off, hs, stride);
      PhdrShown(m, le, img, base, off, hs[0]);
      PhdrsShown(m, le, img, base, off + stride, hs[1..], stride);
      assert base + (off + stride) == base + off + stride;
    }
  }

  lemma {:induction false} DynsShown(m: Memory, le: Encoder, img: seq<byte>, base: int, off: nat, ds: seq<Dyn>)
    requires Sized(le) && Shows(m, le, img, base) && At(img, off, DynsBytes(le, ds))
    requires forall d | d in ds :: d.tag != 0
    ensures DynsAt(m, base + off, ds)
    decreases |ds|
  {
    if ds == [] {
      AtConcat(img, off, le(0, 8), Zeros(8));
      assert Laid(le, img, off, 8, 0);
    } else {
      var d := ds[0];
      assert d in ds;
      AtConcat(img, off, DynBytes(le, d), DynsBytes(le, ds[1..]));
      AtConcat(img, off, le(d.tag, 8), le(d.val, 8));
      assert Laid(le, img, off, 8, d.tag) && Laid(le, img, off + 8, 8, d.val);
      DynsShown(m, le, img, base, off + 16, ds[1..]);
      assert base + (off + 16) == base + off + 16;
    }
  }

  lemma IdentShown(m: Memory, le: Encoder, img: seq<byte>, base: int, s: Source)
    requires Sized(le) && Shows(m, le, img, base) && At(img, 0, IdentBytes(le, s))
    ensures Word(m, base, 4, s.magic) && Word(m, base + 4, 1, s.class_) && Word(m, base + 18, 2, s.machine)
  {
    var c := le(s.machine, 2) + Zeros(12);
    var b := Zeros(13) + c;
    AtConcat(img, 0, le(s.magic, 4), le(s.class_, 1) + b);
    AtConcat(img, 4, le(s.class_, 1), b);
    AtConcat(img, 5, Zeros(13), c);
    AtConcat(img, 18, le(s.machine, 2), Zeros(12));
    assert Laid(le, img, 0, 4, s.magic) && Laid(le, img, 4, 1, s.class_) && Laid(le, img, 18, 2, s.machine);
  }

  lemma LayoutShown(m: Memory, le: Encoder, img: seq<byte>, base: int, s: Source)
    requires Sized(le) && Shows(m, le, img, base) && At(img, 32, LayoutBytes(le, s)) && |s.phdrs| < 0x1_0000
    ensures Word(m, base + 32, 8, PHDRS) && Word(m, base + 54, 2, s.phentsize) && Word(m, base + 56, 2, |s.phdrs|)
  {
    var c := le(|s.phdrs|, 2) + Zeros(6);
    var b := le(s.phentsize, 2) + c;
    AtConcat(img, 32, le(PHDRS, 8), Zeros(14) + b);
    AtConcat(img, 40, Zeros(14), b);
    AtConcat(img, 54, le(s.phentsize, 2), c);
    AtConcat(img, 56, le(|s.phdrs|, 2), Zeros(6));
    assert Laid(le, img, 32, 8, PHDRS) && Laid(le, img, 54, 2, s.phentsize) && Laid(le, img, 56, 2, |s.phdrs|);
  }

  lemma {:induction false} SymsBytesSize(le: Encoder, xs: seq<Sym>)
    requires Sized(le)
    ensures |SymsBytes(le, xs)| == 24 * |xs|
  {
    if xs != [] {
      SymsBytesSize(le, xs[1..]);
    }
  }

  lemma {:induction false} DynsBytesSize(le: Encoder, ds: seq<Dyn>)
    requires Sized(le)
    ensures |DynsBytes(le, ds)| == 16 * |ds| + 16
  {
    if ds != [] {
      DynsBytesSize(le, ds[1..]);
    }
  }

  lemma {:induction false} PhdrsBytesSize(le: Encoder, hs: seq<Phdr>, stride: nat)
    requires Sized(le) && stride >= 56
    ensures |PhdrsBytes(le, hs, stride)| == |hs| * stride
  {
    if hs != [] {
      PhdrsBytesSize(le, hs[1..], stride);
      assert |hs| * stride == (|hs| - 1) * stride + stride;
    }
  }

  lemma Pieces(a: seq<byte>, b: seq<byte>, c: seq<byte>, d: seq<byte>, e: seq<byte>)
    ensures var img := a + (b + (c + (d + e)));
            && At(img, 0, a) && At(img, |a|, b) && At(img, |a| + |b|, c)
            && At(img, |a| + |b| + |c|, d) && At(img, |a| + |b| + |c| + |d|, e)
  {
    var img := a + (b + (c + (d + e)));
    assert At(img, 0, img);
    AtConcat(img, 0, a, b + (c + (d + e)));
    AtConcat(img, |a|, b, c + (d + e));
    AtConcat(img, |a| + |b|, c, d + e);
    AtConcat(img, |a| + |b| + |c|, d, e);
  }

  /** Where the parts of an image lie. */
  predicate LaidOut(le: Encoder, s: Source, img: seq<byte>)
    requires s.Fits()
  {
    && At(img, 0, IdentBytes(le, s)) && At(img, 32, LayoutBytes(le, s))
    && At(img, PHDRS, PhdrsBytes(le, s.phdrs, s.Stride()))
    && At(img, s.DynsOff(), DynsBytes(le, s.dyns)) && At(img, s.HashOff(), Tables(le, s))
  }

  lemma HeaderSizes(le: Encoder, s: Source)
    requires Sized(le)
    ensures |IdentBytes(le, s)| == 32 && |LayoutBytes(le, s)| == 32
  {
  }

  lemma Sections(le: Encoder, s: Source)
    requires Sized(le) && s.Fits()
    ensures LaidOut(le, s, Assembled(le, s))
  {
    var a, b, c, d, e := IdentBytes(le, s), LayoutBytes(le, s), PhdrsBytes(le, s.phdrs, s.Stride()), DynsBytes(le, s.dyns), Tables(le, s);
    HeaderSizes(le, s);
    PhdrsBytesSize(le, s.phdrs, s.Stride());
    DynsBytesSize(le, s.dyns);
    Pieces(a, b, c, d, e);
    assert |a| + |b| + |c| == s.DynsOff() && |a| + |b| + |c| + |d| == s.HashOff();
  }

  lemma TableSections(le: Encoder, s: Source, img: seq<byte>, off: nat)
    requires Sized(le) && s.Fits() && At(img, off, Tables(le, s))
    ensures At(img, off + 4, le(|s.exports|, 4)) && At(img, off + 8, Names(le, s))
  {
    AtConcat(img, off, le(0, 4) + le(|s.exports|, 4), Names(le, s));
    AtConcat(img, off, le(0, 4), le(|s.exports|, 4));
  }

  lemma NameSections(le: Encoder, s: Source, img: seq<byte>, off: nat)
    requires Sized(le) && s.Fits() && At(img, off, Names(le, s))
    ensures At(img, off, SymsBytes(le, Symbols(s.exports, 1)))
    ensures At(img, off + 24 * |s.exports| + 1, Strings(s.exports))
    ensures off + 24 * |s.exports| < |img|
  {
    SymsBytesSize(le, Symbols(s.exports, 1));
    AtConcat(img, off, SymsBytes(le, Symbols(s.exports, 1)), [0] + Strings(s.exports));
    AtConcat(img, off + 24 * |s.exports|, [0], Strings(s.exports));
  }

  /** What points at offset `off` is relocated to it. */
  lemma Relocated(base: u64, bias: u64, v: u64, off: nat)
    requires (bias + v) % WORD == off && base + off < WORD
    ensures Reloc(base, bias, v) == base + off
  {
    var q := (bias + v) / WORD;
    assert base + bias + v == WORD * q + (base + off);
  }

  /** What the dynamic section says is where the tables are, once relocated. */
  lemma TablesRelocated(s: Source, base: u64)
    requires s.Valid() && Complete(Image(s)) && base + s.StrsOff() < WORD
    ensures Reloc(base, Bias(s.phdrs).value, Last(s.dyns, DT_HASH).value) == base + s.HashOff()
    ensures Reloc(base, Bias(s.phdrs).value, Last(s.dyns, DT_SYMTAB).value) == base + s.SymsOff()
    ensures Reloc(base, Bias(s.phdrs).value, Last(s.dyns, DT_STRTAB).value) == base + s.StrsOff()
  {
    Relocated(base, Bias(s.phdrs).value, Last(s.dyns, DT_HASH).value, s.HashOff());
    Relocated(base, Bias(s.phdrs).value, Last(s.dyns, DT_SYMTAB).value, s.SymsOff());
    Relocated(base, Bias(s.phdrs).value, Last(s.dyns, DT_STRTAB).value, s.StrsOff());
  }

  lemma HashShown(m: Memory, le: Encoder, s: Source, img: seq<byte>, base: int, off: nat)
    requires Sized(le) && s.Fits() && Shows(m, le, img, base) && At(img, off, Tables(le, s))
    ensures Word(m, base + off + 4, 4, |s.exports|)
  {
    TableSections(le, s, img, off);
    assert Laid(le, img, off + 4, 4, |s.exports|);
    assert base + (off + 4) == base + off + 4;
  }

  lemma NamesShown(m: Memory, le: Encoder, s: Source, img: seq<byte>, base: int, off: nat)
    requires Sized(le) && s.Fits() && Shows(m, le, img, base) && At(img, off, Tables(le, s))
    ensures SymsAt(m, base + off + 8, base + off + 8 + 24 * |s.exports|, Symbols(s.exports, 1))
    ensures off + 8 + 24 * |s.exports| < |img|
  {
    TableSections(le, s, img, off);
    NameSections(le, s, img, off + 8);
    SymsShown(m, le, img, base, off + 8, off + 8 + 24 * |s.exports|, s.exports, 1);
    assert base + (off + 8) == base + off + 8;
    assert base + (off + 8 + 24 * |s.exports|) == base + off + 8 + 24 * |s.exports|;
  }

  lemma TablesShown(m: Memory, le: Encoder, s: Source, img: seq<byte>, base: u64)
    requires Sized(le) && s.Valid() && Shows(m, le, img, base) && base + |img| <= WORD
    requires LaidOut(le, s, img) && Complete(Image(s))
    ensures TablesAt(m, base, Image(s))
  {
    HashShown(m, le, s, img, base, s.HashOff());
    NamesShown(m, le, s, img, base, s.HashOff());
    TablesRelocated(s, base);
  }

  lemma HeadersShown(m: Memory, le: Encoder, s: Source, img: seq<byte>, base: u64)
    requires Sized(le) && s.Fits() && Shows(m, le, img, base) && LaidOut(le, s, img)
    ensures HeaderAt(m, base, Image(s)) && PhdrsAt(m, base + PHDRS, s.Stride(), s.phdrs)
  {
    IdentShown(m, le, img, base, s);
    LayoutShown(m, le, img, base, s);
    PhdrsShown(m, le, img, base, PHDRS, s.phdrs, s.Stride());
  }

  /** The first export with an address and the given name. */
  function Exported(xs: seq<Export>, symbol: seq<byte>): Option<u64> {
    if xs == [] then None
    else if xs[0].value != 0 && xs[0].text == symbol then Some(xs[0].value)
    else Exported(xs[1..], symbol)
  }

  lemma {:induction false} ExportedIsNamed(xs: seq<Export>, next: nat, symbol: seq<byte>)
    requires next > 0 && next + |Strings(xs)| < 0x1_0000_0000
    ensures FirstNamed(Symbols(xs, next), symbol) == Exported(xs, symbol)
    decreases |xs|
  {
    if xs != [] {
      var more := next + |xs[0].text| + 1;
      assert Symbols(xs, next)[1..] == Symbols(xs[1..], more);
      ExportedIsNamed(xs[1..], more, symbol);
    }
  }

  lemma ImageShown(m: Memory, le: Encoder, s: Source, img: seq<byte>, base: u64, machine: u16)
    requires Sized(le) && s.Valid() && Shows(m, le, img, base) && LaidOut(le, s, img) && base + |img| <= WORD
    ensures ImageAt(m, base, Image(s), machine)
  {
    HeadersShown(m, le, s, img, base);
    DynsShown(m, le, img, base, s.DynsOff(), s.dyns);
    if Complete(Image(s)) {
      TablesShown(m, le, s, img, base);
    }
  }

  /** An assembled image, mapped anywhere it fits, is the image. */
  lemma AssembledImage(s: Source, base: u64, machine: u16)
    requires s.Valid() && base + |Assembled(LeBytes, s)| <= WORD
    ensures ImageAt(Placed(Assembled(LeBytes, s), base), base, Image(s), machine)
  {
    var img := Assembled(LeBytes, s);
    PlacedShows(img, base);
    Sections(LeBytes, s);
    ImageShown(Placed(img, base), LeBytes, s, img, base, machine);
  }

  /** For every assembled image, mapped anywhere it fits, the lookup finds the first non-zero
      export of that name at its load address; None if there is none, if the header is of
      another kind, or if a segment or table is missing. */
  method LookupExport(s: Source, base: u64, machine: u16, symbol: seq<byte>) returns (r: Option<u64>)
    requires s.Valid() && base + |Assembled(LeBytes, s)| <= WORD && 0 !in symbol
    ensures r == match Exported(s.exports, symbol)
                 case Some(v) =>
                   if Image(s).Usable(machine) && Complete(Image(s)) then Some(Reloc(base, Bias(s.phdrs).value, v)) else None
                 case None => None
  {
    AssembledImage(s, base, machine);
    ExportedIsNamed(s.exports, 1, symbol);
    r := Lookup(Placed(Assembled(LeBytes, s), base), base, machine, symbol, Image(s));
  }

  /** The usual image: one PT_LOAD linked for `link`, a PT_DYNAMIC, and the hash, symbol and string
      tables. */
  function Usual(machine: u16, link: u64, exports: seq<Export>): Source
    requires link + 256 + 24 * |exports| < WORD
  {
    Source(0x464c_457f, 2, machine, 56, [Phdr(1, 0, link), Phdr(2, 176, 0)],
           [Dyn(4, link + 240), Dyn(6, link + 248), Dyn(5, link + 248 + 24 * |exports|)], exports)
  }

  /** It is linked, complete, and an address in it moves from link to load address. */
  lemma UsualImage(machine: u16, link: u64, exports: seq<Export>, base: u64, v: u64)
    requires link + 256 + 24 * |exports| < WORD && Usual(machine, link, exports).Fits()
    ensures var s := Usual(machine, link, exports);
            && s.Valid() && Image(s).Usable(machine) && Complete(Image(s)) && Bias(s.phdrs).Some?
            && (link <= v && base + (v - link) < WORD ==> Reloc(base, Bias(s.phdrs).value, v) == base + (v - link))
  {
    var s := Usual(machine, link, exports);
    assert s.DynsOff() == 176 && s.HashOff() == 240;
    assert s.phdrs[|s.phdrs| - 1].kind == PT_DYNAMIC;
    LastOf(s.dyns);
  }

  /** An image starts with its magic and class; the usual one with 7f 45 4c 46 and 2. */
  lemma ImageStart(s: Source)
    requires s.Fits()
    ensures var img := Assembled(LeBytes, s);
            At(img, 0, LeBytes(s.magic, 4)) && At(img, 4, LeBytes(s.class_, 1))
  {
    var img := Assembled(LeBytes, s);
    var c := Zeros(13) + (LeBytes(s.machine, 2) + Zeros(12));
    Sections(LeBytes, s);
    AtConcat(img, 0, LeBytes(s.magic, 4), LeBytes(s.class_, 1) + c);
    AtConcat(img, 4, LeBytes(s.class_, 1), c);
  }

  lemma MagicBytes()
    ensures LeBytes(0x464c_457f, 4) == [0x7f, 0x45, 0x4c, 0x46] && LeBytes(2, 1) == [2]
  {
    assert LeBytes(0x46, 1) == [0x46] && LeBytes(0x464c, 2) == [0x4c, 0x46] && LeBytes(0x464c45, 3) == [0x45, 0x4c, 0x46];
  }

  /** The usual image starts with 7f 45 4c 46, then 2 for 64 bits. */
  lemma UsualMagic(machine: u16, link: u64, exports: seq<Export>)
    requires link + 256 + 24 * |exports| < WORD && Usual(machine, link, exports).Fits()
    ensures var img := Assembled(LeBytes, Usual(machine, link, exports));
            At(img, 0, [0x7f, 0x45, 0x4c, 0x46]) && At(img, 4, [2])
  {
    ImageStart(Usual(machine, link, exports));
    MagicBytes();
  }

  /** Export `j` has an address and the given name. */
  function Wanted(xs: seq<Export>, symbol: seq<byte>): nat -> bool {
    (j: nat) => j < |xs| && xs[j].value != 0 && xs[j].text == symbol
  }

  lemma {:induction false} ExportedIs(xs: seq<Export>, symbol: seq<byte>)
    ensures match Exported(xs, symbol)
            case None => Nowhere(Wanted(xs, symbol), |xs|)
            case Some(v) => exists i: nat :: IsFirst(Wanted(xs, symbol), |xs|, i) && v == xs[i].value
  {
    if xs != [] {
      if Wanted(xs, symbol)(0) {
        assert IsFirst(Wanted(xs, symbol), |xs|, 0);
      } else {
        var rest := xs[1..];
        ExportedIs(rest, symbol);
        assert Behind(Wanted(xs, symbol), Wanted(rest, symbol), |rest|);
        if Exported(xs, symbol).Some? {
          var i: nat :| IsFirst(Wanted(rest, symbol), |rest|, i) && Exported(xs, symbol).value == rest[i].value;
          FirstBehind(Wanted(xs, symbol), Wanted(rest, symbol), |rest|, i);
          assert rest[i] == xs[i + 1];
        } else {
          NowhereBehind(Wanted(xs, symbol), Wanted(rest, symbol), |rest|);
        }
      }
    }
  }

  lemma LastOf(ds: seq<Dyn>)
    requires |ds| == 3 && ds[0].tag == DT_HASH && ds[1].tag == DT_SYMTAB && ds[2].tag == DT_STRTAB
    ensures Last(ds, DT_HASH) == Some(ds[0].val) && Last(ds, DT_SYMTAB) == Some(ds[1].val)
    ensures Last(ds, DT_STRTAB) == Some(ds[2].val)
  {
    var two, one := ds[..2], ds[..1];
    assert two[..1] == one && one[..0] == [];
    assert Last(one, DT_HASH) == Some(ds[0].val) == Last(two, DT_HASH) && Last(two, DT_SYMTAB) == Some(ds[1].val);
  }
}
