/** The kernel's descriptor table and the calls that rearrange it. */
module FdTable {
  import opened Base

  /** An open file, and whether `execve` closes the descriptor. */
  datatype Entry = Entry(file: nat, cloexec: bool)

  type Table = map<u32, Entry>

  /** `limit` is RLIMIT_NOFILE; `busy` holds the duplication calls (counted from 0) that
      the kernel fails with EBUSY although their arguments are good. */
  datatype Kernel = Kernel(limit: u32, busy: set<nat>)

  datatype Dup = Dup(ret: Result<u32>, table: Table)

  /** `dup3(oldfd, newfd, 0)` as the `call`-th duplication. */
  function Dup3(k: Kernel, t: Table, oldfd: u32, newfd: u32, call: nat): Dup {
    if oldfd == newfd then Dup(Err(EINVAL), t)
    else if newfd >= k.limit then Dup(Err(EBADF), t)
    else if oldfd !in t then Dup(Err(EBADF), t)
    else if call in k.busy then Dup(Err(EBUSY), t)
    else Dup(Ok(newfd), t[newfd := Entry(t[oldfd].file, false)])
  }

  /** `dup2(oldfd, newfd)`: an equal pair validates `oldfd` and changes nothing. */
  function Dup2(k: Kernel, t: Table, oldfd: u32, newfd: u32, call: nat): Dup {
    if oldfd == newfd then
      if oldfd in t then Dup(Ok(newfd), t) else Dup(Err(EBADF), t)
    else Dup3(k, t, oldfd, newfd, call)
  }

  /** The word a duplication leaves in the result register. */
  function RetOf(r: Result<u32>): u64
    requires r.Err? ==> 1 <= r.error.code <= 4095
  {
    match r
    case Ok(v) => v
    case Err(e) => Negated(e.code)
  }

  /** What survives `execve`. */
  function CloseOnExec(t: Table): (r: Table) {
    map fd | fd in t && !t[fd].cloexec :: t[fd]
  }

  datatype Redirect = Redirect(oldfd: i32, newfd: i32) {
    predicate Equal() { oldfd == newfd }
  }

  /** How far a redirect list got: the table, whether every call succeeded, calls made. */
  datatype Applied = Applied(table: Table, ok: bool, calls: nat)

  /** The contract of `vfork_exec_redirected`: the redirects left to right, a pair with
      equal ends skipped, stopping at the first call that fails. */
  function Apply(k: Kernel, t: Table, rs: seq<Redirect>, calls: nat): (a: Applied)
    ensures t.Keys <= a.table.Keys
    decreases |rs|
  {
    if rs == [] then Applied(t, true, calls)
    else if rs[0].Equal() then Apply(k, t, rs[1..], calls)
    else
      var d := Dup3(k, t, AsU32(rs[0].oldfd), AsU32(rs[0].newfd), calls);
      if d.ret.Err? then Applied(d.table, false, calls + 1)
      else Apply(k, d.table, rs[1..], calls + 1)
  }

  /** One list after another. */
  lemma {:induction false} ApplyConcat(k: Kernel, t: Table, xs: seq<Redirect>, ys: seq<Redirect>, calls: nat)
    ensures var one := Apply(k, t, xs, calls);
            Apply(k, t, xs + ys, calls) == if one.ok then Apply(k, one.table, ys, one.calls) else one
    decreases |xs|
  {
    if xs == [] {
      assert xs + ys == ys;
    } else {
      assert (xs + ys)[1..] == xs[1..] + ys;
      if xs[0].Equal() {
        ApplyConcat(k, t, xs[1..], ys, calls);
      } else {
        var d := Dup3(k, t, AsU32(xs[0].oldfd), AsU32(xs[0].newfd), calls);
        if d.ret.Ok? {
          ApplyConcat(k, d.table, xs[1..], ys, calls + 1);
        }
      }
    }
  }

  /** The same list as literal `dup2` calls, equal pairs included. */
  function ApplyDup2(k: Kernel, t: Table, rs: seq<Redirect>, calls: nat): (a: Applied)
    decreases |rs|
  {
    if rs == [] then Applied(t, true, calls)
    else
      var d := Dup2(k, t, AsU32(rs[0].oldfd), AsU32(rs[0].newfd), calls);
      var after := if rs[0].Equal() then calls else calls + 1;
      if d.ret.Err? then Applied(d.table, false, after)
      else ApplyDup2(k, d.table, rs[1..], after)
  }

  /** An equal pair names a descriptor that is open in `t`. */
  predicate EqualPairsOpen(t: Table, rs: seq<Redirect>) {
    forall r | r in rs && r.Equal() :: AsU32(r.oldfd) in t
  }

  /** Skipping equal pairs is `dup2` under the caller's obligation that every redirected
      descriptor is open. */
  lemma {:induction false} SkippingIsDup2(k: Kernel, t: Table, rs: seq<Redirect>, calls: nat)
    requires EqualPairsOpen(t, rs)
    ensures Apply(k, t, rs, calls) == ApplyDup2(k, t, rs, calls)
    decreases |rs|
  {
    if rs != [] {
      var d := Dup2(k, t, AsU32(rs[0].oldfd), AsU32(rs[0].newfd), calls);
      if d.ret.Ok? {
        assert t.Keys <= d.table.Keys;
        SkippingIsDup2(k, d.table, rs[1..], if rs[0].Equal() then calls else calls + 1);
      } else {
        assert rs[0] in rs;
      }
    }
  }

  /** The redirects before `i` go through and leave the equal pair `i` on a closed descriptor. */
  predicate ReachesClosed(k: Kernel, t: Table, rs: seq<Redirect>, calls: nat, i: nat)
    requires i < |rs|
  {
    && rs[i].Equal()
    && var before := Apply(k, t, rs[..i], calls); before.ok && AsU32(rs[i].oldfd) !in before.table
  }

  lemma {:induction false} FailureCountsCall(k: Kernel, t: Table, rs: seq<Redirect>, calls: nat)
    ensures var a := Apply(k, t, rs, calls); a.ok || a.calls > calls
    decreases |rs|
  {
    if rs != [] {
      if rs[0].Equal() {
        FailureCountsCall(k, t, rs[1..], calls);
      } else {
        var d := Dup3(k, t, AsU32(rs[0].oldfd), AsU32(rs[0].newfd), calls);
        if d.ret.Ok? {
          FailureCountsCall(k, d.table, rs[1..], calls + 1);
        }
      }
    }
  }

  /** Reaching a closed equal pair later in the list, seen from after the first redirect. */
  lemma ReachesClosedShifts(k: Kernel, t: Table, rs: seq<Redirect>, calls: nat, i: nat)
    requires 0 < i < |rs|
    ensures var one := Apply(k, t, rs[..1], calls);
            ReachesClosed(k, t, rs, calls, i) <==>
            one.ok && ReachesClosed(k, one.table, rs[1..], one.calls, i - 1)
  {
    assert rs[..1][1..] == [];
    assert rs[..i][1..] == rs[1..][..i - 1];
  }

  /** Both forms do the first redirect alike, unless it is an equal pair on a closed descriptor. */
  lemma SplitAlike(k: Kernel, t: Table, rs: seq<Redirect>, calls: nat)
    requires rs != [] && !ReachesClosed(k, t, rs, calls, 0)
    ensures var one := Apply(k, t, rs[..1], calls);
            && Apply(k, t, rs, calls) == (if one.ok then Apply(k, one.table, rs[1..], one.calls) else one)
            && ApplyDup2(k, t, rs, calls) == (if one.ok then ApplyDup2(k, one.table, rs[1..], one.calls) else one)
  {
    assert rs[..0] == [] && rs[..1][1..] == [] && rs[..1][0] == rs[0];
    var d := Dup2(k, t, AsU32(rs[0].oldfd), AsU32(rs[0].newfd), calls);
  }

  lemma {:induction false} AgreeUntilClosed(k: Kernel, t: Table, rs: seq<Redirect>, calls: nat)
    ensures Apply(k, t, rs, calls) == ApplyDup2(k, t, rs, calls)
       <==> forall i: nat | i < |rs| :: !ReachesClosed(k, t, rs, calls, i)
    decreases |rs|
  {
    if rs != [] {
      assert rs[..0] == [];
      if ReachesClosed(k, t, rs, calls, 0) {
        FailureCountsCall(k, t, rs[1..], calls);
      } else {
        SplitAlike(k, t, rs, calls);
        var one := Apply(k, t, rs[..1], calls);
        forall i: nat | 0 < i < |rs|
          ensures ReachesClosed(k, t, rs, calls, i) <==>
                  one.ok && ReachesClosed(k, one.table, rs[1..], one.calls, i - 1)
        {
          ReachesClosedShifts(k, t, rs, calls, i);
        }
        if one.ok {
          AgreeUntilClosed(k, one.table, rs[1..], one.calls);
          assert forall i: nat | i < |rs[1..]| ::
              ReachesClosed(k, one.table, rs[1..], one.calls, i) ==> ReachesClosed(k, t, rs, calls, i + 1);
        }
      }
    }
  }

  // ---- the same said of list and table alone ----

  /** The descriptors open behind `rs`, all of which went through. */
  function Opened(open: set<u32>, rs: seq<Redirect>): set<u32> {
    if rs == [] then open
    else
      var before, last := Opened(open, rs[..|rs| - 1]), rs[|rs| - 1];
      if last.Equal() then before else before + {AsU32(last.newfd)}
  }

  function Unequals(rs: seq<Redirect>): nat {
    if rs == [] then 0
    else Unequals(rs[..|rs| - 1]) + (if rs[|rs| - 1].Equal() then 0 else 1)
  }

  /** Redirect `i` goes through if those before it do: its source is open from the start or is
      the target of an earlier one, its target is under the limit, its call is not failed. */
  predicate Goes(k: Kernel, open: set<u32>, rs: seq<Redirect>, calls: nat, i: nat)
    requires i < |rs|
  {
    rs[i].Equal() ||
    (AsU32(rs[i].oldfd) in Opened(open, rs[..i]) && AsU32(rs[i].newfd) < k.limit && calls + Unequals(rs[..i]) !in k.busy)
  }

  lemma OpenedSnoc(open: set<u32>, rs: seq<Redirect>, r: Redirect)
    ensures Opened(open, rs + [r]) == if r.Equal() then Opened(open, rs) else Opened(open, rs) + {AsU32(r.newfd)}
    ensures Unequals(rs + [r]) == Unequals(rs) + (if r.Equal() then 0 else 1)
  {
    assert (rs + [r])[..|rs|] == rs;
  }

  predicate AllGo(k: Kernel, open: set<u32>, rs: seq<Redirect>, calls: nat, n: nat)
    requires n <= |rs|
  {
    forall i: nat | i < n :: Goes(k, open, rs, calls, i)
  }

  lemma AllGoInFront(k: Kernel, open: set<u32>, rs: seq<Redirect>, calls: nat, n: nat)
    requires n <= |rs|
    ensures AllGo(k, open, rs[..n], calls, n) <==> AllGo(k, open, rs, calls, n)
  {
    forall i: nat | i < n ensures Goes(k, open, rs[..n], calls, i) <==> Goes(k, open, rs, calls, i) {
      assert rs[..n][..i] == rs[..i] && rs[..n][i] == rs[i];
    }
  }

  lemma OneGoes(k: Kernel, t: Table, r: Redirect, calls: nat)
    ensures var a := Apply(k, t, [r], calls);
            && (a.ok <==> r.Equal() || (AsU32(r.oldfd) in t && AsU32(r.newfd) < k.limit && calls !in k.busy))
            && (a.ok && r.Equal() ==> a.table == t && a.calls == calls)
            && (a.ok && !r.Equal() ==> a.table.Keys == t.Keys + {AsU32(r.newfd)} && a.calls == calls + 1)
  {
    assert [r][1..] == [];
  }

  /** When a list goes through, and what is open then. */
  predicate Through(k: Kernel, t: Table, rs: seq<Redirect>, calls: nat) {
    var a := Apply(k, t, rs, calls);
    && (a.ok <==> AllGo(k, t.Keys, rs, calls, |rs|))
    && (a.ok ==> a.table.Keys == Opened(t.Keys, rs) && a.calls == calls + Unequals(rs))
  }

  /** The last of a list, as `Goes` has it. */
  lemma LastGoes(k: Kernel, open: set<u32>, front: seq<Redirect>, last: Redirect, calls: nat)
    ensures Goes(k, open, front + [last], calls, |front|) <==>
            last.Equal() || (AsU32(last.oldfd) in Opened(open, front) && AsU32(last.newfd) < k.limit
                             && calls + Unequals(front) !in k.busy)
  {
    assert (front + [last])[..|front|] == front;
  }

  lemma AllGoSnoc(k: Kernel, open: set<u32>, front: seq<Redirect>, last: Redirect, calls: nat)
    ensures AllGo(k, open, front + [last], calls, |front| + 1) <==>
            AllGo(k, open, front, calls, |front|) && Goes(k, open, front + [last], calls, |front|)
  {
    assert (front + [last])[..|front|] == front;
    AllGoInFront(k, open, front + [last], calls, |front|);
  }

  lemma ThroughSnoc(k: Kernel, t: Table, front: seq<Redirect>, last: Redirect, calls: nat)
    requires Through(k, t, front, calls)
    ensures Through(k, t, front + [last], calls)
  {
    var one := Apply(k, t, front, calls);
    AllGoSnoc(k, t.Keys, front, last, calls);
    ApplyConcat(k, t, front, [last], calls);
    if one.ok {
      LastGoes(k, t.Keys, front, last, calls);
      OneGoes(k, one.table, last, one.calls);
      OpenedSnoc(t.Keys, front, last);
    }
  }

  lemma {:induction false} GoesThrough(k: Kernel, t: Table, rs: seq<Redirect>, calls: nat)
    ensures Through(k, t, rs, calls)
    decreases |rs|
  {
    if rs != [] {
      var n := |rs| - 1;
      GoesThrough(k, t, rs[..n], calls);
      ThroughSnoc(k, t, rs[..n], rs[n], calls);
      assert rs == rs[..n] + [rs[n]];
    }
  }

  /** An equal pair `i` on a descriptor that is still closed when it is reached. */
  predicate ClosedAt(k: Kernel, open: set<u32>, rs: seq<Redirect>, calls: nat, i: nat)
    requires i < |rs|
  {
    rs[i].Equal() && AsU32(rs[i].oldfd) !in Opened(open, rs[..i]) && AllGo(k, open, rs, calls, i)
  }

  lemma ClosedWhenReached(k: Kernel, t: Table, rs: seq<Redirect>, calls: nat, i: nat)
    requires i < |rs|
    ensures ReachesClosed(k, t, rs, calls, i) <==> ClosedAt(k, t.Keys, rs, calls, i)
  {
    GoesThrough(k, t, rs[..i], calls);
    AllGoInFront(k, t.Keys, rs, calls, i);
  }

  /** On any table the two agree if and only if every equal pair reached names a descriptor
      that is open from the start or the target of an earlier redirect. */
  lemma SkippingIsDup2Exactly(k: Kernel, t: Table, rs: seq<Redirect>, calls: nat)
    ensures Apply(k, t, rs, calls) == ApplyDup2(k, t, rs, calls)
       <==> forall i: nat | i < |rs| :: !ClosedAt(k, t.Keys, rs, calls, i)
  {
    AgreeUntilClosed(k, t, rs, calls);
    forall i: nat | i < |rs|
      ensures ReachesClosed(k, t, rs, calls, i) <==> ClosedAt(k, t.Keys, rs, calls, i)
    {
      ClosedWhenReached(k, t, rs, calls, i);
    }
  }

  /** A closed descriptor paired with itself: `dup2` reports EBADF, the skip does not. */
  lemma ClosedEqualPairDiffers(k: Kernel, fd: i32, calls: nat)
    ensures var rs := [Redirect(fd, fd)];
            Apply(k, map[], rs, calls).ok && !ApplyDup2(k, map[], rs, calls).ok
  {
    var rs := [Redirect(fd, fd)];
    assert rs[1..] == [];
  }
}
