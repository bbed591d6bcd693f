/** For which redirect lists the x86_64 trampoline meets its contract. */
module RedirectLists {
  import opened Base
  import opened FdTable
  import opened Programs
  import opened Machine
  import opened Runs
  import opened Trampolines
  import opened X86Child

  /** Descriptors are non-negative `int`s. */
  predicate Sane(k: Kernel, t: Table) {
    k.limit <= 0x8000_0000 && forall fd | fd in t :: fd < 0x8000_0000
  }

  predicate Negative(r: Redirect) {
    r.oldfd < 0 || r.newfd < 0
  }

  /** What is left of an ended child: the descriptors of one that exited are gone. */
  function Visible(e: End): End {
    if e.status.Exited? then e.(table := map[]) else e
  }

  /** The trampoline meets its contract for `rs` when the loop comes back at index `j`: on every
      kernel and descriptor table the child ends, and as documented for the whole list.
      `spurious` admits kernels that fail good duplications with EBUSY. */
  ghost predicate MeetsContract(rs: seq<Redirect>, j: u64, spurious: bool) {
    forall w: World, t: Task, a: Args | Poses(w, t, a, rs, j, spurious) :: EndsAsDocumented(w, t, a)
  }

  ghost predicate Poses(w: World, t: Task, a: Args, rs: seq<Redirect>, j: u64, spurious: bool) {
    && Begins(w, t, a) && a.redirects == rs && Back(w) == j
    && Sane(w.kernel, t.table) && (w.kernel.busy == {} || spurious)
  }

  ghost predicate EndsAsDocumented(w: World, t: Task, a: Args)
    requires w.Valid()
  {
    exists u :: Ends(w, t, u)
      && Visible(End(u.status, u.table)) == Visible(Intended(w.kernel, t.table, a.redirects, t.calls, w.execErr, a))
  }

  /** What lies behind the first unequal pair. */
  function AfterFirst(rs: seq<Redirect>): seq<Redirect>
    decreases |rs|
  {
    if rs == [] then [] else if rs[0].Equal() then AfterFirst(rs[1..]) else rs[1..]
  }

  predicate Repeats(f: Redirect, rs: seq<Redirect>) {
    forall r | r in rs && !r.Equal() :: r == f
  }

  /** A condition on list and return address alone. There is no unequal pair, or the first one
      names a negative descriptor and so fails at once. Otherwise, if the loop comes back to an
      unequal pair, that one must name a negative descriptor; if it does not, no unequal pair
      may follow the first, except for repetitions of it on kernels that fail nothing. */
  predicate Harmless(rs: seq<Redirect>, j: u64, spurious: bool) {
    var first, again := First(rs), First(From(rs, j));
    first == [] || Negative(first[0]) ||
    if again != [] then Negative(again[0])
    else if spurious then First(AfterFirst(rs)) == []
    else Repeats(first[0], AfterFirst(rs))
  }

  // ---- lists through their first unequal pair ----

  lemma {:induction false} ApplyFirst(k: Kernel, t: Table, rs: seq<Redirect>, calls: nat)
    ensures var one := Apply(k, t, First(rs), calls);
            Apply(k, t, rs, calls) == (
              if one.ok && First(rs) != [] then Apply(k, one.table, AfterFirst(rs), one.calls) else one)
    decreases |rs|
  {
    if rs != [] {
      if rs[0].Equal() {
        ApplyFirst(k, t, rs[1..], calls);
      } else {
        ApplyConcat(k, t, [rs[0]], rs[1..], calls);
        assert [rs[0]] + rs[1..] == rs;
      }
    }
  }

  lemma {:induction false} RepeatingChangesNothing(k: Kernel, t: Table, rs: seq<Redirect>, calls: nat, f: Redirect)
    requires k.busy == {} && Settled(k, t, f) && Repeats(f, rs) && !f.Equal()
    ensures Apply(k, t, rs, calls).ok && Apply(k, t, rs, calls).table == t
    decreases |rs|
  {
    if rs != [] {
      assert rs[0] in rs && Repeats(f, rs[1..]);
      if rs[0].Equal() {
        RepeatingChangesNothing(k, t, rs[1..], calls, f);
      } else {
        ApplyOne(k, t, f, calls);
        ApplyConcat(k, t, [f], rs[1..], calls);
        assert [f] + rs[1..] == rs;
        RepeatingChangesNothing(k, t, rs[1..], calls + 1, f);
      }
    }
  }

  /** A list without differing unequal pairs has the effect of its first one. */
  lemma FirstSuffices(k: Kernel, t: Table, rs: seq<Redirect>, calls: nat)
    requires First(rs) == [] || First(AfterFirst(rs)) == [] || (k.busy == {} && Repeats(First(rs)[0], AfterFirst(rs)))
    ensures var p, q := Apply(k, t, First(rs), calls), Apply(k, t, rs, calls);
            p.ok == q.ok && p.table == q.table
  {
    ApplyFirst(k, t, rs, calls);
    var one := Apply(k, t, First(rs), calls);
    if First(rs) != [] && one.ok {
      var f := First(rs)[0];
      assert First(rs) == [f];
      ApplyOne(k, t, f, calls);
      if First(AfterFirst(rs)) == [] {
        ApplyFirst(k, one.table, AfterFirst(rs), one.calls);
      } else {
        RepeatingChangesNothing(k, one.table, AfterFirst(rs), one.calls, f);
      }
    }
  }

  lemma NegativeFails(k: Kernel, t: Table, r: Redirect, calls: nat)
    requires Sane(k, t) && Negative(r) && !r.Equal()
    ensures !Apply(k, t, [r], calls).ok && !Works(k, t.Keys, r)
  {
    ApplyOne(k, t, r, calls);
  }

  /** A list with a negative descriptor in an unequal pair fails, there or before. */
  lemma {:induction false} NegativeFailsList(k: Kernel, t: Table, rs: seq<Redirect>, calls: nat, r: Redirect)
    requires Sane(k, t) && r in rs && Negative(r) && !r.Equal()
    ensures !Apply(k, t, rs, calls).ok
    decreases |rs|
  {
    if rs[0] == r {
      NegativeFails(k, t, r, calls);
      ApplyConcat(k, t, [r], rs[1..], calls);
      assert [r] + rs[1..] == rs;
    } else {
      assert r in rs[1..];
      if rs[0].Equal() {
        NegativeFailsList(k, t, rs[1..], calls, r);
      } else {
        var d := Dup3(k, t, AsU32(rs[0].oldfd), AsU32(rs[0].newfd), calls);
        if d.ret.Ok? {
          NegativeFailsList(k, d.table, rs[1..], calls + 1, r);
        }
      }
    }
  }

  // ---- sufficient ----

  lemma HarmlessEnds(k: Kernel, t: Table, rs: seq<Redirect>, j: u64, calls: nat, spurious: bool)
    requires Harmless(rs, j, spurious) && Sane(k, t)
    ensures !Endless(k, t, rs, j, calls)
  {
    var first, again := First(rs), First(From(rs, j));
    if first != [] && again != [] {
      if Negative(first[0]) {
        NegativeFails(k, t, first[0], calls);
      } else {
        var g := again[0];
        assert AsU32(g.oldfd) >= 0x8000_0000 || AsU32(g.newfd) >= 0x8000_0000;
      }
    }
  }

  lemma HarmlessMeans(k: Kernel, t: Table, rs: seq<Redirect>, j: u64, calls: nat, execErr: int, a: Args, spurious: bool)
    requires Harmless(rs, j, spurious) && Sane(k, t) && (k.busy == {} || spurious)
    ensures Visible(X86End(k, t, rs, j, calls, execErr, a)) == Visible(Intended(k, t, rs, calls, execErr, a))
  {
    var first, again := First(rs), First(From(rs, j));
    if again != [] {
      FirstOfPart(rs, j);
    }
    if first != [] && Negative(first[0]) {
      FirstIn(rs);
      assert first == [first[0]];
      NegativeFails(k, t, first[0], calls);
      NegativeFailsList(k, t, rs, calls, first[0]);
    } else if again != [] {
      NegativeFailsList(k, t, rs, calls, again[0]);
    } else {
      FirstSuffices(k, t, rs, calls);
    }
  }

  lemma HarmlessSuffices(rs: seq<Redirect>, j: u64, spurious: bool)
    requires Harmless(rs, j, spurious)
    ensures MeetsContract(rs, j, spurious)
  {
    forall w: World, t: Task, a: Args | Poses(w, t, a, rs, j, spurious) ensures EndsAsDocumented(w, t, a) {
      HarmlessEnds(w.kernel, t.table, rs, j, t.calls, spurious);
      HarmlessMeans(w.kernel, t.table, rs, j, t.calls, w.execErr, a, spurious);
      var u := EndsSo(w, t, a);
    }
  }

  // ---- necessary: a table on which it shows ----

  /** Once a descriptor is inheritable it stays so. */
  lemma {:induction false} InheritableStays(k: Kernel, t: Table, rs: seq<Redirect>, calls: nat, fd: u32)
    requires fd in t && !t[fd].cloexec
    ensures var u := Apply(k, t, rs, calls).table; fd in u && !u[fd].cloexec
    decreases |rs|
  {
    if rs != [] {
      if rs[0].Equal() {
        InheritableStays(k, t, rs[1..], calls, fd);
      } else {
        var d := Dup3(k, t, AsU32(rs[0].oldfd), AsU32(rs[0].newfd), calls);
        if d.ret.Ok? {
          InheritableStays(k, d.table, rs[1..], calls + 1, fd);
        }
      }
    }
  }

  /** Only the source of `f` is open, and it is marked close-on-exec. */
  function Witness(f: Redirect): Table {
    map[AsU32(f.oldfd) := Entry(0, true)]
  }

  const QUIET := Kernel(0x8000_0000, {})

  /** After `f` on its witness table, a list with any other unequal pair fails or leaves a
      further descriptor open across `execve`. */
  lemma {:induction false} OtherPairShows(t: Table, rs: seq<Redirect>, calls: nat, f: Redirect)
    returns (fd: u32)
    requires !Negative(f) && !f.Equal()
    requires t == Witness(f)[AsU32(f.newfd) := Entry(0, false)] && !Repeats(f, rs)
    ensures var u := Apply(QUIET, t, rs, calls);
            u.ok ==> fd != AsU32(f.newfd) && fd in u.table && !u.table[fd].cloexec
    decreases |rs|
  {
    var r := rs[0];
    fd := AsU32(r.newfd);
    assert (!r.Equal() && r != f) || !Repeats(f, rs[1..]) by {
      var bad :| bad in rs && !bad.Equal() && bad != f;
      assert bad == r || bad in rs[1..];
    }
    if r.Equal() {
      fd := OtherPairShows(t, rs[1..], calls, f);
    } else {
      var d := Dup3(QUIET, t, AsU32(r.oldfd), AsU32(r.newfd), calls);
      if r == f {
        assert d.table == t;
        fd := OtherPairShows(t, rs[1..], calls + 1, f);
      } else if d.ret.Ok? {
        InheritableStays(QUIET, d.table, rs[1..], calls + 1, fd);
      }
    }
  }

  /** The first pair alone gets to `execve` on its witness table. */
  lemma WitnessTakes(k: Kernel, f: Redirect)
    requires k.limit == 0x8000_0000 && 0 !in k.busy && !Negative(f) && !f.Equal()
    ensures Apply(k, Witness(f), [f], 0)
         == Applied(Witness(f)[AsU32(f.newfd) := Entry(0, false)], true, 1)
  {
    assert [f][1..] == [];
  }

  /** A differing unequal pair behind the first shows on the witness table. */
  lemma DifferingPairsSeparate(rs: seq<Redirect>, a: Args)
    requires First(rs) != [] && !Negative(First(rs)[0]) && !Repeats(First(rs)[0], AfterFirst(rs))
    ensures var t := Witness(First(rs)[0]);
            Visible(Intended(QUIET, t, First(rs), 0, 0, a)) != Visible(Intended(QUIET, t, rs, 0, 0, a))
  {
    var f := First(rs)[0];
    assert First(rs) == [f];
    var t1 := Witness(f)[AsU32(f.newfd) := Entry(0, false)];
    WitnessTakes(QUIET, f);
    ApplyFirst(QUIET, Witness(f), rs, 0);
    var fd := OtherPairShows(t1, AfterFirst(rs), 1, f);
    var full := Apply(QUIET, t1, AfterFirst(rs), 1);
    assert full.ok ==> fd !in CloseOnExec(t1) && fd in CloseOnExec(full.table);
  }

  /** Any further unequal pair shows on a kernel whose second duplication fails. */
  lemma BusySeparates(rs: seq<Redirect>, a: Args)
    requires First(rs) != [] && !Negative(First(rs)[0]) && First(AfterFirst(rs)) != []
    ensures var k, t := Kernel(0x8000_0000, {1}), Witness(First(rs)[0]);
            Visible(Intended(k, t, First(rs), 0, 0, a)) != Visible(Intended(k, t, rs, 0, 0, a))
  {
    var k, f, g := Kernel(0x8000_0000, {1}), First(rs)[0], First(AfterFirst(rs))[0];
    assert First(rs) == [f] && First(AfterFirst(rs)) == [g];
    var t1 := Witness(f)[AsU32(f.newfd) := Entry(0, false)];
    WitnessTakes(k, f);
    ApplyFirst(k, Witness(f), rs, 0);
    ApplyOne(k, t1, g, 1);
    ApplyFirst(k, t1, AfterFirst(rs), 1);
  }

  // ---- a machine for every list ----

  /** Byte `k` of one eight-byte record. */
  function RecordByte(r: Redirect, k: int): byte
    requires 0 <= k < 8
  {
    (LeBytes(AsU32(r.oldfd), 4) + LeBytes(AsU32(r.newfd), 4))[k]
  }

  /** The redirect array in memory, from address 0. */
  function Memory(rs: seq<Redirect>): map<int, byte> {
    map p | 0 <= p < 8 * |rs| :: p := RecordByte(rs[p / 8], p % 8)
  }

  lemma MemoryAt(rs: seq<Redirect>, i: nat, k: nat)
    requires i < |rs| && k < 8
    ensures var p := 8 * i + k; p in Memory(rs) && Memory(rs)[p] == RecordByte(rs[i], k)
  {
    assert (8 * i + k) / 8 == i && (8 * i + k) % 8 == k;
  }

  /** Four bytes of a number load as the number. */
  lemma LoadsBytes(mem: map<int, byte>, p: int, x: u32)
    requires forall k | 0 <= k < 4 :: p + k in mem && mem[p + k] == LeBytes(x, 4)[k]
    ensures Load(mem, p) == Some(x)
  {
    var s := LeBytes(x, 4);
    assert s[1..] == LeBytes(x / 256, 3) && s[2..] == LeBytes(x / 256 / 256, 2) && s[3..] == LeBytes(x / 256 / 256 / 256, 1);
    assert s[0] == x % 256 && s[1] == x / 256 % 256 && s[2] == x / 256 / 256 % 256 && s[3] == x / 256 / 256 / 256 % 256;
    assert p + 0 in mem && mem[p + 0] == s[0];
  }

  lemma OldStored(rs: seq<Redirect>, i: nat)
    requires i < |rs|
    ensures Load(Memory(rs), 8 * i) == Some(AsU32(rs[i].oldfd))
  {
    var mem, p := Memory(rs), 8 * i;
    forall k | 0 <= k < 4 ensures p + k in mem && mem[p + k] == LeBytes(AsU32(rs[i].oldfd), 4)[k] {
      MemoryAt(rs, i, k);
    }
    LoadsBytes(mem, p, AsU32(rs[i].oldfd));
  }

  lemma NewStored(rs: seq<Redirect>, i: nat)
    requires i < |rs|
    ensures Load(Memory(rs), 8 * i + 4) == Some(AsU32(rs[i].newfd))
  {
    var mem, p := Memory(rs), 8 * i + 4;
    forall k | 0 <= k < 4 ensures p + k in mem && mem[p + k] == LeBytes(AsU32(rs[i].newfd), 4)[k] {
      MemoryAt(rs, i, 4 + k);
    }
    LoadsBytes(mem, p, AsU32(rs[i].newfd));
  }

  lemma MemoryStores(rs: seq<Redirect>)
    requires 8 * |rs| <= 0x8000_0000_0000_0000
    ensures Stored(Memory(rs), 0, rs)
  {
    forall i | 0 <= i < |rs|
      ensures Load(Memory(rs), 0 + 8 * i) == Some(AsU32(rs[i].oldfd))
      ensures Load(Memory(rs), 0 + 8 * i + 4) == Some(AsU32(rs[i].newfd))
    {
      OldStored(rs, i);
      NewStored(rs, i);
    }
  }

  /** A child of a call with any list, kernel, descriptor table and return address. */
  lemma SomeChild(k: Kernel, t: Table, rs: seq<Redirect>, j: u64) returns (w: World, c: Task, a: Args)
    requires 8 * |rs| <= 0x8000_0000_0000_0000
    ensures Begins(w, c, a) && a.redirects == rs && w.kernel == k && w.execErr == 0 && Back(w) == j
    ensures c.table == t && c.calls == 0
  {
    var address: u64 := if j == 0 then WORD - 1 else j - 1;
    w := World(X86_64, Redirecting, Listing(X86_64, Redirecting), Memory(rs), k, seq(END + 1, _ => address), 0, 0, 1, 0);
    a := Args(0, 0, 0, 0, rs);
    c := Task(seq(16, i => if i == 9 then |rs| else 0), 1, Compare(0, 0), t, 0, Running);
    MemoryStores(rs);
  }

  // ---- exactly ----

  /** The child of a call that never ends, or ends otherwise than documented. */
  lemma Breaks(k: Kernel, t: Table, rs: seq<Redirect>, j: u64, spurious: bool)
    requires 8 * |rs| <= 0x8000_0000_0000_0000 && Sane(k, t) && (k.busy == {} || spurious)
    requires Endless(k, t, rs, j, 0)
          || forall a :: Visible(X86End(k, t, rs, j, 0, 0, a)) != Visible(Intended(k, t, rs, 0, 0, a))
    ensures !MeetsContract(rs, j, spurious)
  {
    var w, c, a := SomeChild(k, t, rs, j);
    NeverEndsIffEndless(w, c, a);
    assert Poses(w, c, a, rs, j, spurious) && !EndsAsDocumented(w, c, a);
  }

  lemma HarmlessNeeded(rs: seq<Redirect>, j: u64, spurious: bool)
    requires 8 * |rs| <= 0x8000_0000_0000_0000 && !Harmless(rs, j, spurious)
    ensures !MeetsContract(rs, j, spurious)
  {
    var f, again := First(rs)[0], First(From(rs, j));
    if again != [] {
      var g := again[0];
      Breaks(QUIET, map[AsU32(f.oldfd) := Entry(0, true), AsU32(g.oldfd) := Entry(0, true)], rs, j, spurious);
    } else if spurious {
      var k := Kernel(0x8000_0000, {1});
      forall a ensures Visible(X86End(k, Witness(f), rs, j, 0, 0, a)) != Visible(Intended(k, Witness(f), rs, 0, 0, a)) {
        BusySeparates(rs, a);
      }
      Breaks(k, Witness(f), rs, j, spurious);
    } else {
      forall a ensures Visible(X86End(QUIET, Witness(f), rs, j, 0, 0, a)) != Visible(Intended(QUIET, Witness(f), rs, 0, 0, a)) {
        DifferingPairsSeparate(rs, a);
      }
      Breaks(QUIET, Witness(f), rs, j, spurious);
    }
  }

  /** The x86_64 trampoline meets its contract exactly for the harmless lists, whatever the
      return address and with or without EBUSY. The bound is the largest slice there can be. */
  lemma MeetsContractIffHarmless(rs: seq<Redirect>, j: u64, spurious: bool)
    requires 8 * |rs| < 0x8000_0000_0000_0000
    ensures MeetsContract(rs, j, spurious) <==> Harmless(rs, j, spurious)
  {
    if Harmless(rs, j, spurious) {
      HarmlessSuffices(rs, j, spurious);
    } else {
      HarmlessNeeded(rs, j, spurious);
    }
  }

  /** `cmd > out 2> err`: broken wherever the code lies. */
  lemma TwoRedirectsSeparate(j: u64)
    ensures !MeetsContract([Redirect(3, 1), Redirect(4, 2)], j, false)
  {
    var f, g := Redirect(3, 1), Redirect(4, 2);
    var rs := [f, g];
    assert From(rs, 0) == rs && From(rs, 1) == [g] && AfterFirst(rs) == [g] && g in AfterFirst(rs);
    assert j > 1 ==> From(rs, j) == [];
    MeetsContractIffHarmless(rs, j, false);
  }

  /** The same call, with code at address 0: the child never ends. */
  lemma SpinningCall() returns (w: World, t: Task, a: Args)
    ensures Begins(w, t, a) && a.redirects == [Redirect(3, 1), Redirect(4, 2)]
    ensures w.resume[12] == 0 && t.table.Keys == {3, 4} && w.kernel.busy == {}
    ensures forall u :: !Ends(w, t, u)
  {
    var f, g := Redirect(3, 1), Redirect(4, 2);
    var rs := [f, g];
    assert From(rs, 1) == [g];
    w, t, a := SomeChild(QUIET, map[3 := Entry(0, false), 4 := Entry(1, false)], rs, 1);
    NeverEndsIffEndless(w, t, a);
  }
}
