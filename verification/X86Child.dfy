/** What the x86_64 redirecting child does, for every list, table, kernel and return address. */
module X86Child {
  import opened Base
  import opened FdTable
  import opened Programs
  import opened Machine
  import opened Runs
  import opened Trampolines

  /** The first unequal pair, if there is one. */
  function First(rs: seq<Redirect>): (f: seq<Redirect>)
    ensures |f| <= 1 && (f != [] ==> !f[0].Equal())
    decreases |rs|
  {
    if rs == [] then [] else if rs[0].Equal() then First(rs[1..]) else [rs[0]]
  }

  /** The list from index `j` on. */
  function From(rs: seq<Redirect>, j: nat): seq<Redirect> {
    if j < |rs| then rs[j..] else []
  }

  lemma {:induction false} FirstIn(rs: seq<Redirect>)
    requires First(rs) != []
    ensures First(rs)[0] in rs
    decreases |rs|
  {
    if rs[0].Equal() {
      FirstIn(rs[1..]);
    }
  }

  lemma {:induction false} FirstOfPart(rs: seq<Redirect>, j: nat)
    requires First(From(rs, j)) != []
    ensures First(rs) != [] && First(From(rs, j))[0] in rs
    decreases |rs|
  {
    if j == 0 {
      assert rs[0..] == rs;
      FirstIn(rs);
    } else {
      assert First(rs) != [] || rs[0].Equal();
      assert From(rs, j) == From(rs[1..], j - 1);
      FirstOfPart(rs[1..], j - 1);
    }
  }

  /** How the child ends if it does. `syscall` leaves the return address in rcx, so after the
      first unequal pair the loop goes on at index `j`, one past that address. If there is an
      unequal pair from there on, it is applied again and again until a duplication fails. */
  function X86End(k: Kernel, t: Table, rs: seq<Redirect>, j: nat, calls: nat, execErr: int, a: Args): End {
    var again := First(From(rs, j));
    if again == [] then Intended(k, t, First(rs), calls, execErr, a)
    else End(Exited(126), Apply(k, t, First(rs) + again, calls).table)
  }

  /** `r` can be duplicated when the descriptors `open` are open. */
  predicate Works(k: Kernel, open: set<u32>, r: Redirect) {
    AsU32(r.oldfd) in open && AsU32(r.newfd) < k.limit
  }

  /** When it does not end: the loop comes back to an unequal pair that works, and the kernel
      fails no duplication from here on. */
  predicate Endless(k: Kernel, t: Table, rs: seq<Redirect>, j: nat, calls: nat) {
    && First(rs) != [] && First(From(rs, j)) != []
    && Works(k, t.Keys, First(rs)[0])
    && Works(k, t.Keys + {AsU32(First(rs)[0].newfd)}, First(From(rs, j))[0])
    && forall c | c in k.busy :: c < calls
  }

  /** The index at which the loop goes on after a `dup2`. */
  function Back(w: World): u64
    requires w.Valid()
  {
    Succ(w.resume[12])
  }

  /** The child just out of `clone`. */
  ghost predicate Begins(w: World, t: Task, a: Args) {
    X86At(w, t, a, 1) && t.regs[0] == 0
  }

  /** The loop head with index `i`. */
  ghost predicate AtHead(w: World, t: Task, a: Args, i: nat) {
    X86At(w, t, a, 6) && i < |a.redirects| && t.regs[1] == i
  }

  /** Where a round that applied `First(a.redirects[i..])` leads. */
  ghost predicate Rounded(w: World, t: Task, a: Args, i: nat, u: Task)
    requires w.Valid() && i < |a.redirects|
  {
    var first := First(a.redirects[i..]);
    var done := Apply(w.kernel, t.table, first, t.calls);
    && u.Valid() && u.table == done.table && u.calls == done.calls
    && if !done.ok then X86At(w, u, a, 26)
       else if first == [] then X86At(w, u, a, 17)
       else if Back(w) < |a.redirects| then AtHead(w, u, a, Back(w))
       else X86At(w, u, a, 17)
  }

  lemma {:induction false} Round(w: World, t: Task, a: Args, i: nat) returns (u: Task)
    requires AtHead(w, t, a, i)
    ensures Leads(w, t, u) && Rounded(w, t, a, i, u)
    decreases |a.redirects| - i
  {
    assert a.redirects[i..][1..] == a.redirects[i + 1..];
    assert [a.redirects[i]][1..] == [];
    u := X86Pass(w, t, a, i);
    if u.pc == 14 {
      var v := X86Advance(w, u, a);
      ReachesOn(Executes(w), t, u, v);
      u := v;
      if a.redirects[i].Equal() && i + 1 < |a.redirects| {
        u := Round(w, v, a, i + 1);
        ReachesOn(Executes(w), t, v, u);
      }
    }
  }

  /** From instruction 1 to the loop head, or past the loop. */
  lemma Starts(w: World, t: Task, a: Args) returns (u: Task)
    requires Begins(w, t, a)
    ensures Leads(w, t, u) && u.table == t.table && u.calls == t.calls
    ensures if a.redirects == [] then X86At(w, u, a, 17) else AtHead(w, u, a, 0)
  {
    var f := X86Falls(w, t, a);
    u := X86Enter(w, f, a);
    ReachesOn(Executes(w), t, f, u);
  }

  /** The first round, from the start. */
  lemma FirstRound(w: World, t: Task, a: Args) returns (u: Task)
    requires Begins(w, t, a) && a.redirects != []
    ensures Leads(w, t, u) && Rounded(w, t, a, 0, u) && a.redirects[0..] == a.redirects
  {
    var h := Starts(w, t, a);
    u := Round(w, h, a, 0);
    ReachesOn(Executes(w), t, h, u);
  }

  // ---- going round ----

  /** `r` has just been applied to `t`, and would be again. */
  predicate Settled(k: Kernel, t: Table, r: Redirect) {
    && Works(k, t.Keys, r) && AsU32(r.newfd) in t
    && t[AsU32(r.newfd)] == Entry(t[AsU32(r.oldfd)].file, false)
  }

  /** Applying an unequal pair: whether it succeeds, and that it then settles. */
  lemma ApplyOne(k: Kernel, t: Table, r: Redirect, calls: nat)
    requires !r.Equal()
    ensures var done := Apply(k, t, [r], calls);
            && (done.ok <==> Works(k, t.Keys, r) && calls !in k.busy) && done.calls == calls + 1
            && (done.ok ==> Settled(k, done.table, r) && done.table.Keys == t.Keys + {AsU32(r.newfd)})
            && (!done.ok || Settled(k, t, r) ==> done.table == t)
  {
    assert [r][1..] == [];
    if Settled(k, t, r) {
      assert t[AsU32(r.newfd) := t[AsU32(r.newfd)]] == t;
    }
  }

  /** The child is at the head the loop comes back to, where `g` is the next unequal pair. */
  ghost predicate Circling(w: World, t: Task, a: Args, g: Redirect) {
    && w.Valid() && AtHead(w, t, a, Back(w))
    && First(a.redirects[Back(w)..]) == [g] && !g.Equal()
  }

  ghost predicate Fails(w: World, t: Task) {
    w.Valid() && w.Holds(Redirecting) && t.Valid() && t.status == Running && t.pc == 26
  }

  /** One turn: back at the head with the pair settled, or at the failure exit. */
  lemma Turns(w: World, t: Task, a: Args, g: Redirect) returns (u: Task)
    requires Circling(w, t, a, g)
    ensures Leads(w, t, u) && u.calls == t.calls + 1
    ensures u.table == Apply(w.kernel, t.table, [g], t.calls).table
    ensures Settled(w.kernel, t.table, g) ==> u.table == t.table
    ensures if Works(w.kernel, t.table.Keys, g) && t.calls !in w.kernel.busy
            then Circling(w, u, a, g) && Settled(w.kernel, u.table, g)
            else Fails(w, u)
  {
    ApplyOne(w.kernel, t.table, g, t.calls);
    u := Round(w, t, a, Back(w));
  }

  /** A kernel that will fail some later duplication ends the circling at that one. */
  lemma {:induction false} CirclesUntilBusy(w: World, t: Task, a: Args, g: Redirect, c: nat) returns (u: Task)
    requires Circling(w, t, a, g) && Settled(w.kernel, t.table, g)
    requires c in w.kernel.busy && t.calls <= c
    ensures Leads(w, t, u) && End(u.status, u.table) == End(Exited(126), t.table)
    decreases c - t.calls
  {
    var v := Turns(w, t, a, g);
    assert Works(w.kernel, t.table.Keys, g) && v.table == t.table;
    if t.calls in w.kernel.busy {
      assert Fails(w, v);
      u := GivesUp(w, v);
      assert u.table == t.table;
    } else {
      assert t.calls != c && Circling(w, v, a, g);
      u := CirclesUntilBusy(w, v, a, g, c);
    }
    ReachesOn(Executes(w), t, v, u);
  }

  /** From the first return to the loop. */
  lemma SecondRound(w: World, t: Task, a: Args, g: Redirect) returns (u: Task)
    requires Circling(w, t, a, g)
    requires !Works(w.kernel, t.table.Keys, g) || exists c :: c in w.kernel.busy && t.calls <= c
    ensures Leads(w, t, u)
    ensures End(u.status, u.table) == End(Exited(126), Apply(w.kernel, t.table, [g], t.calls).table)
  {
    var v := Turns(w, t, a, g);
    if Works(w.kernel, t.table.Keys, g) && t.calls !in w.kernel.busy {
      var c :| c in w.kernel.busy && t.calls <= c;
      assert Circling(w, v, a, g) && t.calls != c;
      u := CirclesUntilBusy(w, v, a, g, c);
    } else {
      assert Fails(w, v);
      u := GivesUp(w, v);
    }
    ReachesOn(Executes(w), t, v, u);
  }

  /** The child ends and can be seen to do nothing more. */
  ghost predicate Ends(w: World, t: Task, u: Task)
    requires w.Valid()
  {
    Leads(w, t, u) && Stuck(Executes(w), u)
  }

  /** After the first round, when no unequal pair lies from `Back(w)` on. */
  lemma EndsAfterOne(w: World, t: Task, a: Args, v: Task) returns (u: Task)
    requires Begins(w, t, a) && a.redirects != [] && Rounded(w, t, a, 0, v) && a.redirects[0..] == a.redirects
    requires First(From(a.redirects, Back(w))) == []
    ensures Leads(w, v, u)
    ensures End(u.status, u.table) == Intended(w.kernel, t.table, First(a.redirects), t.calls, w.execErr, a)
  {
    if v.pc == 26 {
      u := GivesUp(w, v);
    } else if v.pc == 17 {
      u := Finishes(w, v, a);
    } else {
      var p := Round(w, v, a, Back(w));
      u := Finishes(w, p, a);
      ReachesOn(Executes(w), v, p, u);
    }
  }

  /** And when `g` does. */
  lemma EndsAfterMore(w: World, t: Task, a: Args, v: Task, f: Redirect, g: Redirect) returns (u: Task)
    requires Begins(w, t, a) && a.redirects != [] && Rounded(w, t, a, 0, v) && a.redirects[0..] == a.redirects
    requires First(a.redirects) == [f] && First(From(a.redirects, Back(w))) == [g]
    requires !Endless(w.kernel, t.table, a.redirects, Back(w), t.calls)
    ensures Leads(w, v, u)
    ensures End(u.status, u.table) == End(Exited(126), Apply(w.kernel, t.table, [f] + [g], t.calls).table)
  {
    ApplyOne(w.kernel, t.table, f, t.calls);
    ApplyConcat(w.kernel, t.table, [f], [g], t.calls);
    if Apply(w.kernel, t.table, [f], t.calls).ok {
      assert Circling(w, v, a, g);
      assert Works(w.kernel, t.table.Keys, f) && v.table.Keys == t.table.Keys + {AsU32(f.newfd)};
      u := SecondRound(w, v, a, g);
    } else {
      assert Fails(w, v);
      u := GivesUp(w, v);
    }
  }

  lemma EndsAfterRound(w: World, t: Task, a: Args, v: Task) returns (u: Task)
    requires Begins(w, t, a) && a.redirects != [] && Rounded(w, t, a, 0, v) && a.redirects[0..] == a.redirects
    requires !Endless(w.kernel, t.table, a.redirects, Back(w), t.calls)
    ensures Leads(w, v, u)
    ensures End(u.status, u.table) == X86End(w.kernel, t.table, a.redirects, Back(w), t.calls, w.execErr, a)
  {
    var first, again := First(a.redirects), First(From(a.redirects, Back(w)));
    if again == [] {
      u := EndsAfterOne(w, t, a, v);
    } else {
      FirstOfPart(a.redirects, Back(w));
      assert first == [first[0]] && again == [again[0]];
      u := EndsAfterMore(w, t, a, v, first[0], again[0]);
    }
  }

  /** For every list, table, kernel and return address, the child that is not endless ends
      exactly so. */
  lemma EndsSo(w: World, t: Task, a: Args) returns (u: Task)
    requires Begins(w, t, a) && !Endless(w.kernel, t.table, a.redirects, Back(w), t.calls)
    ensures Ends(w, t, u)
    ensures End(u.status, u.table) == X86End(w.kernel, t.table, a.redirects, Back(w), t.calls, w.execErr, a)
  {
    var v;
    if a.redirects == [] {
      v := Starts(w, t, a);
      u := Finishes(w, v, a);
    } else {
      v := FirstRound(w, t, a);
      u := EndsAfterRound(w, t, a, v);
    }
    ReachesOn(Executes(w), t, v, u);
  }

  // ---- the endless case ----

  /** Circling on a pair that works, on a kernel that fails nothing any more. */
  ghost predicate Spinning(w: World, t: Task, a: Args, g: Redirect) {
    && Circling(w, t, a, g) && Works(w.kernel, t.table.Keys, g)
    && forall c | c in w.kernel.busy :: c < t.calls
  }

  lemma SpinsOnce(w: World, t: Task, a: Args, g: Redirect) returns (u: Task)
    requires Spinning(w, t, a, g)
    ensures Spinning(w, u, a, g) && Leads(w, t, u) && u != t
  {
    u := Turns(w, t, a, g);
  }

  lemma SpinsForever(w: World, t: Task, a: Args, g: Redirect, ts: seq<Task>)
    requires Spinning(w, t, a, g) && IsRun(Executes(w), ts) && ts[0] == t
    ensures !Stuck(Executes(w), ts[|ts| - 1])
  {
    var again := (t: Task) => Spinning(w, t, a, g);
    forall t | again(t) ensures Recurs(Executes(w), again, t) {
      var u := SpinsOnce(w, t, a, g);
      var ts :| IsRun(Executes(w), ts) && ts[0] == t && ts[|ts| - 1] == u;
    }
    ExecutionIsDeterministic(w);
    NeverEnds(Executes(w), again, ts);
  }

  lemma ReachesSpinning(w: World, t: Task, a: Args) returns (u: Task, g: Redirect)
    requires Begins(w, t, a) && Endless(w.kernel, t.table, a.redirects, Back(w), t.calls)
    ensures Leads(w, t, u) && Spinning(w, u, a, g)
  {
    var f := First(a.redirects)[0];
    assert First(a.redirects) == [f];
    g := First(From(a.redirects, Back(w)))[0];
    assert First(From(a.redirects, Back(w))) == [g];
    ApplyOne(w.kernel, t.table, f, t.calls);
    assert Apply(w.kernel, t.table, [f], t.calls).ok;
    u := FirstRound(w, t, a);
    assert Circling(w, u, a, g);
  }

  /** An endless child never execs and never exits. */
  lemma NeverGetsStuck(w: World, t: Task, a: Args, u: Task)
    requires Begins(w, t, a) && Endless(w.kernel, t.table, a.redirects, Back(w), t.calls)
    ensures !Ends(w, t, u)
  {
    if Ends(w, t, u) {
      var v, g := ReachesSpinning(w, t, a);
      var ss :| IsRun(Executes(w), ss) && ss[0] == t && ss[|ss| - 1] == u;
      var ts :| IsRun(Executes(w), ts) && ts[0] == t && ts[|ts| - 1] == v;
      ExecutionIsDeterministic(w);
      var rest := PassesThrough(Executes(w), ss, ts);
      SpinsForever(w, v, a, g, rest);
    }
  }

  /** The child never ends if and only if it is endless; otherwise it has one end. */
  lemma NeverEndsIffEndless(w: World, t: Task, a: Args)
    requires Begins(w, t, a)
    ensures (forall u :: !Ends(w, t, u)) <==> Endless(w.kernel, t.table, a.redirects, Back(w), t.calls)
    ensures forall u | Ends(w, t, u) ::
              End(u.status, u.table) == X86End(w.kernel, t.table, a.redirects, Back(w), t.calls, w.execErr, a)
  {
    if Endless(w.kernel, t.table, a.redirects, Back(w), t.calls) {
      forall u ensures !Ends(w, t, u) {
        NeverGetsStuck(w, t, a, u);
      }
    } else {
      var end := EndsSo(w, t, a);
      ExecutionIsDeterministic(w);
      forall u | Ends(w, t, u) ensures u == end {
        OneEnd(Executes(w), t, u, end);
      }
    }
  }
}
