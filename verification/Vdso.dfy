/** Finding `clock_gettime` in the vDSO's ELF64 image (src/vdso.rs). The image is known through
    what lies in memory: every byte the lookup reads has to be mapped there. */
module Vdso {
  import opened Base
  import opened ListCodec

  const PT_LOAD := 1
  const PT_DYNAMIC := 2
  const DT_HASH := 4
  const DT_STRTAB := 5
  const DT_SYMTAB := 6
  const MAGIC := 0x464c457f

  // ---- reading memory ----

  /** Memory as the lookup sees it: the `n`-byte little-endian word at `p`, None where a byte of
      it is not mapped. */
  type Memory = (int, nat) -> Option<nat>

  /** `bytes` mapped at `base`, and nothing else: `rd_u16`, `rd_u32`, `rd_u64`. */
  function Placed(bytes: seq<byte>, base: int): Memory {
    (p: int, n: nat) =>
      if base <= p && p + n <= base + |bytes| then Some(Le(bytes[p - base..p - base + n])) else None
  }

  /** The NUL-terminated string `s` at `p`. */
  ghost predicate CStrAt(m: Memory, p: int, s: seq<byte>) {
    && 0 !in s
    && (forall i | 0 <= i < |s| :: m(p + i, 1) == Some(s[i]))
    && m(p + |s|, 1) == Some(0)
  }

  /** `cstr_eq`: exact equality, and no byte behind the terminating NUL is touched, since
      nothing else of `m` is known to be mapped. */
  method CStrEq(m: Memory, p: int, target: seq<byte>, ghost s: seq<byte>) returns (r: bool)
    requires CStrAt(m, p, s) && 0 !in target
    ensures r <==> s == target
  {
    var i := 0;
    while i < |target|
      invariant 0 <= i <= |target| && i <= |s| && s[..i] == target[..i]
    {
      assert target[i] in target;
      assert i < |s| ==> m(p + i, 1) == Some(s[i]);
      if m(p + i, 1).value != target[i] {
        return false;
      }
      i := i + 1;
    }
    assert target[..i] == target;
    if |s| > i {
      assert s[i] in s;
    }
    return m(p + |target|, 1).value == 0;
  }

  // ---- the image as a value ----

  datatype Phdr = Phdr(kind: u32, offset: u64, vaddr: u64)
  datatype Dyn = Dyn(tag: u64, val: u64)
  /** A symbol and the string its `st_name` points at. */
  datatype Sym = Sym(name: u32, value: u64, text: seq<byte>)

  datatype Elf = Elf(magic: u32, class_: byte, machine: u16, phoff: u64, phentsize: u16,
                     phdrs: seq<Phdr>, dyns: seq<Dyn>, syms: seq<Sym>)
  {
    predicate Usable(machine': u16) {
      magic == MAGIC && class_ == 2 && machine == machine' && phentsize >= 56
    }
  }

  /** First PT_LOAD: `p_offset - p_vaddr`, wrapping. */
  function Bias(phs: seq<Phdr>): Option<u64> {
    if phs == [] then None
    else if phs[0].kind == PT_LOAD then Some(Minus(phs[0].offset, phs[0].vaddr))
    else Bias(phs[1..])
  }

  function Minus(a: u64, b: u64): u64 {
    var d: int := a - b;
    if d >= 0 then d else d + WORD
  }

  /** The last PT_DYNAMIC wins. */
  function DynamicAt(phs: seq<Phdr>): Option<u64> {
    if phs == [] then None
    else
      var last := phs[|phs| - 1];
      if last.kind == PT_DYNAMIC then Some(last.offset) else DynamicAt(phs[..|phs| - 1])
  }

  /** The last entry with a tag wins. */
  function Last(ds: seq<Dyn>, tag: u64): Option<u64> {
    if ds == [] then None
    else
      var last := ds[|ds| - 1];
      if last.tag == tag then Some(last.val) else Last(ds[..|ds| - 1], tag)
  }

  /** `reloc`: the runtime address of a virtual one, wrapping. */
  function Reloc(base: int, bias: int, vaddr: int): u64 {
    (base + bias + vaddr) % WORD
  }

  /** The first symbol with a name, a value and the wanted string. */
  function FirstNamed(syms: seq<Sym>, symbol: seq<byte>): Option<u64> {
    if syms == [] then None
    else if syms[0].name != 0 && syms[0].value != 0 && syms[0].text == symbol then Some(syms[0].value)
    else FirstNamed(syms[1..], symbol)
  }

  /** The three tables the lookup needs. */
  predicate Complete(e: Elf) {
    && Bias(e.phdrs).Some? && DynamicAt(e.phdrs).Some?
    && Last(e.dyns, DT_STRTAB).Some? && Last(e.dyns, DT_SYMTAB).Some? && Last(e.dyns, DT_HASH).Some?
  }

  /** What the lookup should find. */
  function Target(e: Elf, base: u64, machine: u16, symbol: seq<byte>): Option<u64> {
    if !e.Usable(machine) || !Complete(e) then None
    else
      match FirstNamed(e.syms, symbol)
      case None => None
      case Some(v) => Some(Reloc(base, Bias(e.phdrs).value, v))
  }

  // ---- the same by position ----

  /** `i` is the first place in a list of `n` where `p` holds. */
  predicate IsFirst(p: nat -> bool, n: nat, i: nat) {
    i < n && p(i) && forall j: nat | j < i :: !p(j)
  }

  predicate IsLast(p: nat -> bool, n: nat, i: nat) {
    i < n && p(i) && forall j: nat | i < j < n :: !p(j)
  }

  predicate Nowhere(p: nat -> bool, n: nat) {
    forall j: nat | j < n :: !p(j)
  }

  /** Positions in a list without its first element. */
  predicate Behind(p: nat -> bool, q: nat -> bool, n: nat) {
    !p(0) && forall j: nat | j < n :: q(j) == p(j + 1)
  }

  lemma FirstBehind(p: nat -> bool, q: nat -> bool, n: nat, i: nat)
    requires Behind(p, q, n) && IsFirst(q, n, i)
    ensures IsFirst(p, n + 1, i + 1)
  {
    assert q(i) && p(i + 1);
    forall j: nat | j < i + 1 ensures !p(j) {
      assert j > 0 ==> !q(j - 1);
    }
  }

  lemma NowhereBehind(p: nat -> bool, q: nat -> bool, n: nat)
    requires Behind(p, q, n) && Nowhere(q, n)
    ensures Nowhere(p, n + 1)
  {
    forall j: nat | j < n + 1 ensures !p(j) {
      assert j > 0 ==> !q(j - 1);
    }
  }

  /** Header `j` is a PT_LOAD, a PT_DYNAMIC; entry `j` has a tag. */
  function Loads(phs: seq<Phdr>): nat -> bool { (j: nat) => j < |phs| && phs[j].kind == 1 }
  function Dynamics(phs: seq<Phdr>): nat -> bool { (j: nat) => j < |phs| && phs[j].kind == 2 }
  function Tagged(ds: seq<Dyn>, tag: u64): nat -> bool { (j: nat) => j < |ds| && ds[j].tag == tag }
  /** Symbol `j` has a name, a value and the wanted string. */
  function Named(syms: seq<Sym>, symbol: seq<byte>): nat -> bool {
    (j: nat) => j < |syms| && syms[j].name != 0 && syms[j].value != 0 && syms[j].text == symbol
  }

  /** The bias is `p_offset - p_vaddr`, modulo 2^64, of the first PT_LOAD. */
  lemma {:induction false} BiasIs(phs: seq<Phdr>)
    ensures match Bias(phs)
            case None => Nowhere(Loads(phs), |phs|)
            case Some(b) => exists i: nat :: IsFirst(Loads(phs), |phs|, i)
                              && b == (phs[i].offset as int - phs[i].vaddr) % 0x1_0000_0000_0000_0000
  {
    if phs != [] {
      if phs[0].kind == 1 {
        assert IsFirst(Loads(phs), |phs|, 0);
      } else {
        var rest := phs[1..];
        BiasIs(rest);
        assert Behind(Loads(phs), Loads(rest), |rest|);
        if Bias(phs).Some? {
          var i: nat :| IsFirst(Loads(rest), |rest|, i)
                        && Bias(phs).value == (rest[i].offset as int - rest[i].vaddr) % 0x1_0000_0000_0000_0000;
          FirstBehind(Loads(phs), Loads(rest), |rest|, i);
          assert rest[i] == phs[i + 1];
        } else {
          NowhereBehind(Loads(phs), Loads(rest), |rest|);
        }
      }
    }
  }

  /** The dynamic section is at `p_offset` of the last PT_DYNAMIC. */
  lemma {:induction false} DynamicAtIs(phs: seq<Phdr>)
    ensures match DynamicAt(phs)
            case None => Nowhere(Dynamics(phs), |phs|)
            case Some(o) => exists i: nat :: IsLast(Dynamics(phs), |phs|, i) && o == phs[i].offset
  {
    if phs != [] {
      var n := |phs| - 1;
      if phs[n].kind == 2 {
        assert IsLast(Dynamics(phs), |phs|, n);
      } else {
        DynamicAtIs(phs[..n]);
        assert forall j: nat | j < n :: Dynamics(phs)(j) == Dynamics(phs[..n])(j);
        if DynamicAt(phs).Some? {
          var i: nat :| IsLast(Dynamics(phs[..n]), n, i) && DynamicAt(phs).value == phs[..n][i].offset;
          assert IsLast(Dynamics(phs), |phs|, i);
        }
      }
    }
  }

  /** A table is where the last entry with its tag says. */
  lemma {:induction false} LastIs(ds: seq<Dyn>, tag: u64)
    ensures match Last(ds, tag)
            case None => Nowhere(Tagged(ds, tag), |ds|)
            case Some(v) => exists i: nat :: IsLast(Tagged(ds, tag), |ds|, i) && v == ds[i].val
  {
    if ds != [] {
      var n := |ds| - 1;
      if ds[n].tag == tag {
        assert IsLast(Tagged(ds, tag), |ds|, n);
      } else {
        LastIs(ds[..n], tag);
        assert forall j: nat | j < n :: Tagged(ds, tag)(j) == Tagged(ds[..n], tag)(j);
        if Last(ds, tag).Some? {
          var i: nat :| IsLast(Tagged(ds[..n], tag), n, i) && Last(ds, tag).value == ds[..n][i].val;
          assert IsLast(Tagged(ds, tag), |ds|, i);
        }
      }
    }
  }

  lemma {:induction false} FirstNamedIs(syms: seq<Sym>, symbol: seq<byte>)
    ensures match FirstNamed(syms, symbol)
            case None => Nowhere(Named(syms, symbol), |syms|)
            case Some(v) => exists i: nat :: IsFirst(Named(syms, symbol), |syms|, i) && v == syms[i].value
  {
    if syms != [] {
      if Named(syms, symbol)(0) {
        assert IsFirst(Named(syms, symbol), |syms|, 0);
      } else {
        var rest := syms[1..];
        FirstNamedIs(rest, symbol);
        assert Behind(Named(syms, symbol), Named(rest, symbol), |rest|);
        if FirstNamed(syms, symbol).Some? {
          var i: nat :| IsFirst(Named(rest, symbol), |rest|, i) && FirstNamed(syms, symbol).value == rest[i].value;
          FirstBehind(Named(syms, symbol), Named(rest, symbol), |rest|, i);
          assert rest[i] == syms[i + 1];
        } else {
          NowhereBehind(Named(syms, symbol), Named(rest, symbol), |rest|);
        }
      }
    }
  }

  /** What the lookup returns, in numbers: for a 64-bit image of the machine with usable headers
      the first named symbol, `base + bias + value` modulo 2^64, if segment and tables are there. */
  lemma TargetIs(e: Elf, base: u64, machine: u16, symbol: seq<byte>)
    ensures var r := Target(e, base, machine, symbol);
            var usable := e.magic == 0x464c_457f && e.class_ == 2 && e.machine == machine && e.phentsize >= 56
                          && Bias(e.phdrs).Some? && DynamicAt(e.phdrs).Some?
                          && Last(e.dyns, 5).Some? && Last(e.dyns, 6).Some? && Last(e.dyns, 4).Some?;
            && (r.Some? <==> usable && FirstNamed(e.syms, symbol).Some?)
            && (r.Some? ==> r.value == (base + Bias(e.phdrs).value + FirstNamed(e.syms, symbol).value)
                                       % 0x1_0000_0000_0000_0000)
  {
  }

  // ---- the image in memory ----

  predicate Word(m: Memory, p: int, n: nat, v: int) {
    m(p, n) == Some(v)
  }

  /** One read of a word the image has at `p`. */
  method Read(m: Memory, p: int, n: nat, ghost v: int) returns (r: int)
    requires Word(m, p, n, v)
    ensures r == v
  {
    r := m(p, n).value;
  }

  ghost predicate HeaderAt(m: Memory, base: u64, e: Elf) {
    && Word(m, base, 4, e.magic) && Word(m, base + 4, 1, e.class_) && Word(m, base + 18, 2, e.machine)
    && Word(m, base + 32, 8, e.phoff) && Word(m, base + 54, 2, e.phentsize) && Word(m, base + 56, 2, |e.phdrs|)
  }

  ghost predicate PhdrAt(m: Memory, p: int, h: Phdr) {
    Word(m, p, 4, h.kind) && Word(m, p + 8, 8, h.offset) && Word(m, p + 16, 8, h.vaddr)
  }

  ghost predicate PhdrsAt(m: Memory, p: int, size: nat, phs: seq<Phdr>)
    decreases |phs|
  {
    phs == [] || (PhdrAt(m, p, phs[0]) && PhdrsAt(m, p + size, size, phs[1..]))
  }

  ghost predicate DynAt(m: Memory, p: int, d: Dyn) {
    d.tag != 0 && Word(m, p, 8, d.tag) && Word(m, p + 8, 8, d.val)
  }

  /** The dynamic entries from `p`, closed by DT_NULL. */
  ghost predicate DynsAt(m: Memory, p: int, ds: seq<Dyn>)
    decreases |ds|
  {
    if ds == [] then Word(m, p, 8, 0) else DynAt(m, p, ds[0]) && DynsAt(m, p + 16, ds[1..])
  }

  ghost predicate SymAt(m: Memory, p: int, strtab: int, s: Sym) {
    && Word(m, p, 4, s.name) && Word(m, p + 8, 8, s.value)
    && (s.name != 0 && s.value != 0 ==> CStrAt(m, strtab + s.name, s.text))
  }

  ghost predicate SymsAt(m: Memory, p: int, strtab: int, syms: seq<Sym>)
    decreases |syms|
  {
    syms == [] || (SymAt(m, p, strtab, syms[0]) && SymsAt(m, p + 24, strtab, syms[1..]))
  }

  /** The tables lie where the headers and the dynamic section say they do. */
  ghost predicate TablesAt(m: Memory, base: u64, e: Elf)
    requires Complete(e)
  {
    var bias := Bias(e.phdrs).value;
    && Word(m, Reloc(base, bias, Last(e.dyns, DT_HASH).value) + 4, 4, |e.syms|)
    && SymsAt(m, Reloc(base, bias, Last(e.dyns, DT_SYMTAB).value), Reloc(base, bias, Last(e.dyns, DT_STRTAB).value), e.syms)
  }

  /** `m` holds the image `e` at `base`; a header that is refused vouches for nothing else. */
  ghost predicate ImageAt(m: Memory, base: u64, e: Elf, machine: u16) {
    && HeaderAt(m, base, e)
    && (e.Usable(machine) ==>
          && PhdrsAt(m, base + e.phoff, e.phentsize, e.phdrs)
          && (Bias(e.phdrs).Some? && DynamicAt(e.phdrs).Some? ==>
                DynsAt(m, base + DynamicAt(e.phdrs).value, e.dyns))
          && (Complete(e) ==> TablesAt(m, base, e)))
  }

  // ---- the lookup ----

  /** The body of the program header loop, at the `i`-th header. */
  method TakePhdr(m: Memory, ph: int, bias: Option<u64>, dynamic: Option<u64>, ghost phs: seq<Phdr>, ghost i: nat)
    returns (bias': Option<u64>, dynamic': Option<u64>)
    requires i < |phs| && PhdrAt(m, ph, phs[i]) && bias == Bias(phs[..i]) && dynamic == DynamicAt(phs[..i])
    ensures bias' == Bias(phs[..i + 1]) && dynamic' == DynamicAt(phs[..i + 1])
  {
    PhdrsGrow(phs, i);
    bias', dynamic' := bias, dynamic;
    var kind := Read(m, ph, 4, phs[i].kind);
    var offset := Read(m, ph + 8, 8, phs[i].offset);
    var vaddr := Read(m, ph + 16, 8, phs[i].vaddr);
    if kind == PT_LOAD && bias.None? {
      bias' := Some(Minus(offset, vaddr));
    } else if kind == PT_DYNAMIC {
      dynamic' := Some(offset);
    }
  }

  /** The program header loop over the table at `at`. */
  method ScanPhdrs(m: Memory, at: int, size: nat, count: nat, ghost phs: seq<Phdr>)
    returns (bias: Option<u64>, dynamic: Option<u64>)
    requires PhdrsAt(m, at, size, phs) && count == |phs|
    ensures bias == Bias(phs) && dynamic == DynamicAt(phs)
  {
    bias, dynamic := None, None;
    for i := 0 to count
      invariant PhdrsAt(m, at + i * size, size, phs[i..])
      invariant bias == Bias(phs[..i]) && dynamic == DynamicAt(phs[..i])
    {
      PhdrsStep(m, at, size, phs, i);
      bias, dynamic := TakePhdr(m, at + i * size, bias, dynamic, phs, i);
    }
    assert phs[..count] == phs;
  }

  lemma PhdrsStep(m: Memory, at: int, size: nat, phs: seq<Phdr>, i: nat)
    requires i < |phs| && PhdrsAt(m, at + i * size, size, phs[i..])
    ensures PhdrAt(m, at + i * size, phs[i]) && PhdrsAt(m, at + (i + 1) * size, size, phs[i + 1..])
  {
    assert at + (i + 1) * size == at + i * size + size;
    assert phs[i..][1..] == phs[i + 1..];
  }

  lemma PhdrsGrow(phs: seq<Phdr>, i: nat)
    requires i < |phs|
    ensures Bias(phs[..i + 1])
         == if Bias(phs[..i]).Some? then Bias(phs[..i])
            else if phs[i].kind == PT_LOAD then Some(Minus(phs[i].offset, phs[i].vaddr)) else None
    ensures DynamicAt(phs[..i + 1]) == if phs[i].kind == PT_DYNAMIC then Some(phs[i].offset) else DynamicAt(phs[..i])
  {
    assert phs[..i + 1] == phs[..i] + [phs[i]];
    BiasSnoc(phs[..i], phs[i]);
    assert phs[..i + 1][..i] == phs[..i];
  }

  lemma {:induction false} BiasSnoc(phs: seq<Phdr>, h: Phdr)
    ensures Bias(phs + [h])
         == if Bias(phs).Some? then Bias(phs) else if h.kind == PT_LOAD then Some(Minus(h.offset, h.vaddr)) else None
  {
    if phs == [] {
      assert phs + [h] == [h] && [h][1..] == [];
    } else {
      assert (phs + [h])[1..] == phs[1..] + [h];
      BiasSnoc(phs[1..], h);
    }
  }

  /** The dynamic entry at `d`; a tag of zero ends the section and has no value to read. */
  method ReadDyn(m: Memory, d: int, ghost ds: seq<Dyn>) returns (tag: int, val: int)
    requires DynsAt(m, d, ds)
    ensures if ds == [] then tag == 0 else tag == ds[0].tag != 0 && val == ds[0].val
  {
    tag := Read(m, d, 8, if ds == [] then 0 else ds[0].tag);
    val := 0;
    if tag != 0 {
      val := Read(m, d + 8, 8, ds[0].val);
    }
  }

  /** The dynamic section loop, up to DT_NULL. */
  method ScanDyns(m: Memory, start: int, ghost ds: seq<Dyn>)
    returns (strtab: Option<u64>, symtab: Option<u64>, hash: Option<u64>)
    requires DynsAt(m, start, ds)
    ensures strtab == Last(ds, DT_STRTAB) && symtab == Last(ds, DT_SYMTAB) && hash == Last(ds, DT_HASH)
  {
    strtab, symtab, hash := None, None, None;
    var d := start;
    ghost var i: nat := 0;
    while true
      invariant i <= |ds| && DynsAt(m, d, ds[i..])
      invariant strtab == Last(ds[..i], DT_STRTAB) && symtab == Last(ds[..i], DT_SYMTAB) && hash == Last(ds[..i], DT_HASH)
      decreases |ds| - i
    {
      var tag, val := ReadDyn(m, d, ds[i..]);
      if tag == 0 {
        break;
      }
      LastGrows(ds, i, DT_STRTAB);
      LastGrows(ds, i, DT_SYMTAB);
      LastGrows(ds, i, DT_HASH);
      assert ds[i..][1..] == ds[i + 1..];
      if tag == DT_STRTAB {
        strtab := Some(val);
      } else if tag == DT_SYMTAB {
        symtab := Some(val);
      } else if tag == DT_HASH {
        hash := Some(val);
      }
      d := d + 16;
      i := i + 1;
    }
    assert ds[..i] == ds;
  }

  lemma LastGrows(ds: seq<Dyn>, i: nat, tag: u64)
    requires i < |ds|
    ensures Last(ds[..i + 1], tag) == if ds[i].tag == tag then Some(ds[i].val) else Last(ds[..i], tag)
  {
    assert ds[..i + 1][..i] == ds[..i];
  }

  /** The symbol loop. */
  method ScanSyms(m: Memory, symtab: int, strtab: int, count: nat, symbol: seq<byte>, ghost syms: seq<Sym>)
    returns (value: Option<u64>)
    requires SymsAt(m, symtab, strtab, syms) && count == |syms| && 0 !in symbol
    ensures value == FirstNamed(syms, symbol)
  {
    for i := 0 to count
      invariant SymsAt(m, symtab + i * 24, strtab, syms[i..])
      invariant FirstNamed(syms, symbol) == FirstNamed(syms[i..], symbol)
    {
      SymsStep(m, symtab, strtab, syms, i);
      var sym := symtab + i * 24;
      ghost var s := syms[i];
      var name := Read(m, sym, 4, s.name);
      var val := Read(m, sym + 8, 8, s.value);
      if name == 0 || val == 0 {
        continue;
      }
      var eq := CStrEq(m, strtab + name, symbol, s.text);
      if eq {
        return Some(val);
      }
    }
    return None;
  }

  lemma SymsStep(m: Memory, symtab: int, strtab: int, syms: seq<Sym>, i: nat)
    requires i < |syms| && SymsAt(m, symtab + i * 24, strtab, syms[i..])
    ensures SymAt(m, symtab + i * 24, strtab, syms[i])
    ensures SymsAt(m, symtab + (i + 1) * 24, strtab, syms[i + 1..])
    ensures syms[i..][0] == syms[i] && syms[i..][1..] == syms[i + 1..]
  {
    assert symtab + (i + 1) * 24 == symtab + i * 24 + 24;
  }

  /** Magic, class and machine. */
  method CheckHeader(m: Memory, base: u64, machine: u16, ghost e: Elf) returns (ok: bool)
    requires HeaderAt(m, base, e)
    ensures ok <==> e.magic == MAGIC && e.class_ == 2 && e.machine == machine
  {
    var magic := Read(m, base, 4, e.magic);
    if magic != MAGIC {
      return false;
    }
    var class_ := Read(m, base + 4, 1, e.class_);
    if class_ != 2 {
      return false;
    }
    var found := Read(m, base + 18, 2, e.machine);
    return found == machine;
  }

  method ReadLayout(m: Memory, base: u64, ghost e: Elf) returns (phoff: int, phentsize: int, phnum: int)
    requires HeaderAt(m, base, e)
    ensures phoff == e.phoff && phentsize == e.phentsize && phnum == |e.phdrs|
  {
    phoff := Read(m, base + 32, 8, e.phoff);
    phentsize := Read(m, base + 54, 2, e.phentsize);
    phnum := Read(m, base + 56, 2, |e.phdrs|);
  }

  /** `lookup`: for every image, the relocated address of the first matching symbol, or None. */
  method Lookup(m: Memory, base: u64, machine: u16, symbol: seq<byte>, ghost e: Elf) returns (r: Option<u64>)
    requires ImageAt(m, base, e, machine) && 0 !in symbol
    ensures r == Target(e, base, machine, symbol)
  {
    var ok := CheckHeader(m, base, machine, e);
    if !ok {
      return None;
    }
    var phoff, phentsize, phnum := ReadLayout(m, base, e);
    if phentsize < 56 {
      return None;
    }
    var bias, dynamic := ScanPhdrs(m, base + phoff, phentsize, phnum, e.phdrs);
    if bias.None? || dynamic.None? {
      return None;
    }
    var strtab, symtab, hash := ScanDyns(m, base + dynamic.value, e.dyns);
    if strtab.None? || symtab.None? || hash.None? {
      return None;
    }
    var value := SearchSymbols(m, base, bias.value, strtab.value, symtab.value, hash.value, symbol, e);
    if value.None? {
      return None;
    }
    return Some(Reloc(base, bias.value, value.value));
  }

  /** The second half: symbol count from the hash table, then the linear scan. */
  method SearchSymbols(m: Memory, base: u64, bias: u64, strtab: u64, symtab: u64, hash: u64, symbol: seq<byte>, ghost e: Elf)
    returns (value: Option<u64>)
    requires Complete(e) && TablesAt(m, base, e) && 0 !in symbol
    requires bias == Bias(e.phdrs).value && strtab == Last(e.dyns, DT_STRTAB).value
    requires symtab == Last(e.dyns, DT_SYMTAB).value && hash == Last(e.dyns, DT_HASH).value
    ensures value == FirstNamed(e.syms, symbol)
  {
    var nsyms := Read(m, Reloc(base, bias, hash) + 4, 4, |e.syms|);
    value := ScanSyms(m, Reloc(base, bias, symtab), Reloc(base, bias, strtab), nsyms, symbol, e.syms);
  }

  // ---- finding the image ----

  const AT_NULL := 0
  const AT_SYSINFO_EHDR := 33

  datatype Aux = Aux(key: u64, val: u64)

  function EncodeAux(a: Aux): (s: seq<byte>)
    ensures |s| == 16
  {
    LeBytes(a.key, 8) + LeBytes(a.val, 8)
  }

  /** The value of the first AT_SYSINFO_EHDR before AT_NULL, unless it is zero. */
  function BaseIn(auxv: seq<Aux>): Option<u64> {
    if auxv == [] then None
    else if auxv[0].key == AT_SYSINFO_EHDR then (if auxv[0].val == 0 then None else Some(auxv[0].val))
    else if auxv[0].key == AT_NULL then None
    else BaseIn(auxv[1..])
  }

  /** Entry `j` is AT_SYSINFO_EHDR or AT_NULL. */
  function Decides(auxv: seq<Aux>): nat -> bool {
    (j: nat) => j < |auxv| && (auxv[j].key == 33 || auxv[j].key == 0)
  }

  /** The base is the non-zero value of an AT_SYSINFO_EHDR entry with no such entry and no AT_NULL
      before it. */
  lemma {:induction false} BaseInIs(auxv: seq<Aux>, v: u64)
    ensures BaseIn(auxv) == Some(v) <==>
            v != 0 && exists i: nat :: IsFirst(Decides(auxv), |auxv|, i) && auxv[i] == Aux(33, v)
  {
    if auxv != [] {
      if Decides(auxv)(0) {
        assert IsFirst(Decides(auxv), |auxv|, 0);
        assert forall i: nat | IsFirst(Decides(auxv), |auxv|, i) :: i == 0;
      } else {
        var rest := auxv[1..];
        BaseInIs(rest, v);
        assert Behind(Decides(auxv), Decides(rest), |rest|);
        if i: nat :| IsFirst(Decides(rest), |rest|, i) && rest[i] == Aux(33, v) {
          FirstBehind(Decides(auxv), Decides(rest), |rest|, i);
          assert auxv[i + 1] == rest[i];
        }
        if i: nat :| IsFirst(Decides(auxv), |auxv|, i) && auxv[i] == Aux(33, v) {
          assert Decides(rest)(i - 1);
          forall j: nat | j < i - 1 ensures !Decides(rest)(j) {
            assert !Decides(auxv)(j + 1);
          }
          assert IsFirst(Decides(rest), |rest|, i - 1) && rest[i - 1] == auxv[i];
        }
      }
    }
  }

  lemma {:induction false} AuxAt(auxv: seq<Aux>, i: nat, rest: seq<byte>)
    requires i < |auxv|
    ensures var buf := EncodeAll(EncodeAux, auxv) + rest;
            16 * |auxv| <= |buf| && buf[16 * i..16 * i + 16] == EncodeAux(auxv[i])
    decreases |auxv|
  {
    var head, tail := EncodeAux(auxv[0]), EncodeAll(EncodeAux, auxv[1..]);
    Associative(head, tail, rest);
    AuxvLength(auxv);
    if i > 0 {
      AuxAt(auxv[1..], i - 1, rest);
      assert (head + (tail + rest))[16 * i..16 * i + 16] == (tail + rest)[16 * (i - 1)..16 * (i - 1) + 16];
    } else {
      assert (head + (tail + rest))[0..16] == head;
    }
  }

  lemma {:induction false} AuxvLength(auxv: seq<Aux>)
    ensures |EncodeAll(EncodeAux, auxv)| == 16 * |auxv|
  {
    if auxv != [] {
      AuxvLength(auxv[1..]);
    }
  }

  lemma AuxWords(a: Aux)
    ensures var s := EncodeAux(a); Le(s[0..8]) == a.key && Le(s[8..16]) == a.val
  {
    var s := EncodeAux(a);
    Widths();
    assert s[0..8] == LeBytes(a.key, 8) && s[8..16] == LeBytes(a.val, 8);
    LeOfBytes(a.key, 8);
    LeOfBytes(a.val, 8);
  }

  /** The scan of `vdso_base` over what was read of `/proc/self/auxv`: whole entries, then less
      than one more. */
  method FindBase(buf: seq<byte>, ghost auxv: seq<Aux>, ghost rest: seq<byte>) returns (r: Option<u64>)
    requires buf == EncodeAll(EncodeAux, auxv) + rest && |rest| < 16
    ensures r == BaseIn(auxv)
  {
    AuxvLength(auxv);
    var i := 0;
    ghost var k := 0;
    while i + 16 <= |buf|
      invariant 0 <= k <= |auxv| && i == 16 * k && BaseIn(auxv) == BaseIn(auxv[k..])
    {
      AuxAt(auxv, k, rest);
      AuxWords(auxv[k]);
      assert buf[i..i + 16][0..8] == buf[i..i + 8] && buf[i..i + 16][8..16] == buf[i + 8..i + 16];
      assert auxv[k..][1..] == auxv[k + 1..];
      var key := Le(buf[i..i + 8]);
      var val := Le(buf[i + 8..i + 16]);
      if key == AT_SYSINFO_EHDR {
        return if val == 0 then None else Some(val);
      }
      if key == AT_NULL {
        return None;
      }
      i := i + 16;
      k := k + 1;
    }
    return None;
  }

  lemma EightBytes(s: seq<byte>) returns (v: u64)
    requires |s| == 8
    ensures LeBytes(v, 8) == s
  {
    Widths();
    LeBound(s);
    BytesOfLe(s);
    v := Le(s);
  }

  lemma SomeAux(s: seq<byte>) returns (a: Aux)
    requires |s| == 16
    ensures EncodeAux(a) == s
  {
    var key := EightBytes(s[..8]);
    var val := EightBytes(s[8..]);
    a := Aux(key, val);
    assert s == s[..8] + s[8..];
  }

  /** Every buffer is some vector: the scan is specified for all inputs. */
  lemma {:induction false} EveryBufferIsAuxv(buf: seq<byte>) returns (auxv: seq<Aux>, rest: seq<byte>)
    ensures buf == EncodeAll(EncodeAux, auxv) + rest && |rest| < 16
    decreases |buf|
  {
    if |buf| < 16 {
      auxv, rest := [], buf;
      assert buf == [] + rest;
    } else {
      var more;
      more, rest := EveryBufferIsAuxv(buf[16..]);
      var a := SomeAux(buf[..16]);
      auxv := [a] + more;
      assert auxv[1..] == more;
      Associative(EncodeAux(a), EncodeAll(EncodeAux, more), rest);
      assert buf == buf[..16] + buf[16..];
    }
  }
}
