/** The lock-free cache in front of vDSO resolution, and `clock_gettime` behind it. */
module VdsoCache {
  import opened Base
  import opened Runs

  const UNRESOLVED: u64 := 0
  const FAILED: u64 := 1

  /** Where a thread is in `clock_gettime_fn`; `Returned` holds the call's result. */
  datatype Thread =
    | Idle
    | Resolving
    | Storing(resolved: Option<u64>)
    | Returned(fn: Option<u64>)

  /** `resolved` collects what completed `resolve` calls produced. */
  datatype State = State(cache: u64, threads: map<nat, Thread>, resolved: set<Option<u64>>)

  /** The atomic load and the two sentinel tests. */
  predicate Loads(s: State, s': State, id: nat) {
    && id in s.threads && s.threads[id] == Idle
    && s' == s.(threads := s.threads[id :=
                  if s.cache == FAILED then Returned(None)
                  else if s.cache != UNRESOLVED then Returned(Some(s.cache))
                  else Resolving])
  }

  /** `resolve` completes; nothing is known about its result. */
  predicate Resolves(s: State, s': State, id: nat, r: Option<u64>) {
    && id in s.threads && s.threads[id] == Resolving
    && s' == s.(threads := s.threads[id := Storing(r)], resolved := s.resolved + {r})
  }

  /** The atomic store, and the return of what this thread resolved itself. */
  predicate Stores(s: State, s': State, id: nat) {
    && id in s.threads && s.threads[id].Storing?
    && var r := s.threads[id].resolved;
       s' == s.(cache := if r.Some? then r.value else FAILED, threads := s.threads[id := Returned(r)])
  }

  /** A thread appears, or calls again. */
  predicate Calls(s: State, s': State, id: nat) {
    && (id in s.threads ==> s.threads[id].Returned?)
    && s' == s.(threads := s.threads[id := Idle])
  }

  datatype Act = Load(id: nat) | Resolve(id: nat, r: Option<u64>) | Store(id: nat) | Call(id: nat)

  predicate Does(s: State, a: Act, s': State) {
    match a
    case Load(id) => Loads(s, s', id)
    case Resolve(id, r) => Resolves(s, s', id, r)
    case Store(id) => Stores(s, s', id)
    case Call(id) => Calls(s, s', id)
  }

  ghost predicate Step(s: State, s': State) {
    exists a :: Does(s, a, s')
  }

  ghost function Interleaves(): (State, State) -> bool {
    (s: State, s': State) => Step(s, s')
  }

  const START := State(UNRESOLVED, map[], {})

  // ---- what every interleaving keeps ----

  /** A function handed out, or about to be published, was produced by some `resolve`. */
  predicate Accounted(s: State, t: Thread) {
    && (t.Storing? ==> t.resolved in s.resolved)
    && (t.Returned? && t.fn.Some? ==> t.fn in s.resolved)
  }

  predicate Inv(s: State) {
    && (s.cache == UNRESOLVED || s.cache == FAILED || Some(s.cache) in s.resolved)
    && forall id | id in s.threads :: Accounted(s, s.threads[id])
  }

  lemma InvKept(s: State, s': State)
    requires Inv(s) && Step(s, s')
    ensures Inv(s')
  {
    var a :| Does(s, a, s');
    assert a.id in s.threads ==> Accounted(s, s.threads[a.id]);
    forall id | id in s'.threads ensures Accounted(s', s'.threads[id]) {
      if id != a.id {
        assert s'.threads[id] == s.threads[id] && Accounted(s, s.threads[id]);
      }
    }
  }

  /** Under every interleaving of any number of threads the cache holds 0, 1 or an address
      that some completed `resolve` produced, and so does every function handed out; hence no
      sentinel is handed out unless a `resolve` produced it. */
  lemma CacheHoldsOnlyResolved(ss: seq<State>, k: nat)
    requires IsRun(Interleaves(), ss) && ss[0] == START && k < |ss|
    ensures var s := ss[k];
            && (s.cache == 0 || s.cache == 1 || Some(s.cache) in s.resolved)
            && (forall id | id in s.threads && s.threads[id].Returned? && s.threads[id].fn.Some? ::
                  s.threads[id].fn in s.resolved)
  {
    var inv := (s: State) => Inv(s);
    forall s, s' | inv(s) && Interleaves()(s, s') ensures inv(s') {
      InvKept(s, s');
    }
    AlongRun(Interleaves(), inv, ss, k);
    forall id | id in ss[k].threads && ss[k].threads[id].Returned? && ss[k].threads[id].fn.Some?
      ensures ss[k].threads[id].fn in ss[k].resolved
    {
      assert Accounted(ss[k], ss[k].threads[id]);
    }
  }

  // ---- resolution is not repeated ----

  /** Some call has returned, and the cache is set from then on. */
  predicate Settled(s: State) {
    && (s.cache == UNRESOLVED ==> forall id | id in s.threads :: !s.threads[id].Returned?)
    && Some(UNRESOLVED) !in s.resolved
    && forall id | id in s.threads :: s.threads[id].Storing? ==> s.threads[id].resolved in s.resolved
  }

  lemma SettledKept(s: State, s': State)
    requires Settled(s) && Step(s, s') && Some(UNRESOLVED) !in s'.resolved
    ensures Settled(s') && (s.cache != UNRESOLVED ==> s'.cache != UNRESOLVED)
  {
    var a :| Does(s, a, s');
    assert a.Store? ==> s.threads[a.id].resolved in s.resolved;
    forall id | id in s'.threads && s'.threads[id].Storing? ensures s'.threads[id].resolved in s'.resolved {
      assert id != a.id ==> s'.threads[id] == s.threads[id];
    }
    if s'.cache == UNRESOLVED {
      forall id | id in s'.threads ensures !s'.threads[id].Returned? {
        assert id != a.id ==> s'.threads[id] == s.threads[id];
      }
    }
  }

  lemma {:induction false} SettledAlong(ss: seq<State>, k: nat, n: nat)
    requires IsRun(Interleaves(), ss) && ss[0] == START && k <= n < |ss|
    requires forall i | 0 <= i < |ss| :: Some(0) !in ss[i].resolved
    ensures Settled(ss[n]) && (ss[k].cache != UNRESOLVED ==> ss[n].cache != UNRESOLVED)
    decreases n
  {
    if n > 0 {
      SettledAlong(ss, if k < n then k else n - 1, n - 1);
      assert Link(Interleaves(), ss, n - 1);
      SettledKept(ss[n - 1], ss[n]);
    }
  }

  /** Once a call has returned, every later load ends its call at once, with no further resolve.
      (No function is at address 0.) */
  lemma ResolvedOnce(ss: seq<State>, k: nat, id: nat, n: nat, caller: nat)
    requires IsRun(Interleaves(), ss) && ss[0] == START && k <= n < |ss| - 1
    requires forall i | 0 <= i < |ss| :: Some(0) !in ss[i].resolved
    requires id in ss[k].threads && ss[k].threads[id].Returned? && Loads(ss[n], ss[n + 1], caller)
    ensures ss[n + 1].threads[caller].Returned?
    ensures ss[n].cache == 1 ==> ss[n + 1].threads[caller].fn == None
    ensures ss[n].cache != 1 ==> ss[n + 1].threads[caller].fn == Some(ss[n].cache)
  {
    SettledAlong(ss, k, k);
    SettledAlong(ss, k, n);
  }

  // ---- racing threads agree ----

  /** Every `resolve` so far produced `r`. */
  predicate Only(s: State, r: Option<u64>) {
    forall x | x in s.resolved :: x == r
  }

  predicate AgreesOn(s: State, r: Option<u64>) {
    && (s.cache == UNRESOLVED || (if r.Some? then s.cache == r.value else s.cache == FAILED))
    && forall id | id in s.threads :: Agreeing(s.threads[id], r)
  }

  predicate Agreeing(t: Thread, r: Option<u64>) {
    (t.Storing? ==> t.resolved == r) && (t.Returned? ==> t.fn == r)
  }

  lemma AgreementKept(s: State, s': State, r: Option<u64>)
    requires AgreesOn(s, r) && Step(s, s') && Only(s', r) && r != Some(FAILED)
    ensures AgreesOn(s', r)
  {
    var a :| Does(s, a, s');
    assert a.id in s.threads ==> Agreeing(s.threads[a.id], r);
    assert a.Resolve? ==> a.r in s'.resolved;
    forall id | id in s'.threads ensures Agreeing(s'.threads[id], r) {
      if id != a.id {
        assert s'.threads[id] == s.threads[id] && Agreeing(s.threads[id], r);
      }
    }
  }

  lemma {:induction false} AgreesAlong(ss: seq<State>, k: nat, r: Option<u64>)
    requires IsRun(Interleaves(), ss) && ss[0] == START && k < |ss|
    requires r != Some(1) && forall i | 0 <= i < |ss| :: Only(ss[i], r)
    ensures AgreesOn(ss[k], r)
  {
    if k > 0 {
      AgreesAlong(ss, k - 1, r);
      assert Link(Interleaves(), ss, k - 1);
      AgreementKept(ss[k - 1], ss[k], r);
    }
  }

  /** If resolution always yields the same result then every call, raced or cached, returns it,
      whatever the interleaving. */
  lemma RacersAgree(ss: seq<State>, k: nat, r: Option<u64>, id: nat)
    requires IsRun(Interleaves(), ss) && ss[0] == START && k < |ss|
    requires r != Some(1) && forall i | 0 <= i < |ss| :: Only(ss[i], r)
    requires id in ss[k].threads && ss[k].threads[id].Returned?
    ensures ss[k].threads[id].fn == r
  {
    AgreesAlong(ss, k, r);
    assert Agreeing(ss[k].threads[id], r);
  }

  /** The one address for which they would not: a function at the FAILED sentinel is returned
      by the call that resolves it and reported missing to the next. */
  lemma SentinelAddressDisagrees() returns (ss: seq<State>)
    ensures IsRun(Interleaves(), ss) && ss[0] == START
    ensures forall i | 0 <= i < |ss| :: Only(ss[i], Some(FAILED))
    ensures ss[|ss| - 1].threads == map[0 := Returned(Some(FAILED)), 1 := Returned(None)]
  {
    var one := {Some(FAILED)};
    var a, b := State(0, map[0 := Idle], {}), State(0, map[0 := Resolving], {});
    var c, d := State(0, map[0 := Storing(Some(FAILED))], one), State(FAILED, map[0 := Returned(Some(FAILED))], one);
    var e := State(FAILED, map[0 := Returned(Some(FAILED)), 1 := Idle], one);
    var f := State(FAILED, map[0 := Returned(Some(FAILED)), 1 := Returned(None)], one);
    ss := [START, a, b, c, d, e, f];
    assert Does(START, Call(0), a);
    assert Does(a, Load(0), b);
    assert c.resolved == b.resolved + {Some(FAILED)} && Does(b, Resolve(0, Some(FAILED)), c);
    assert Does(c, Store(0), d);
    assert Does(d, Call(1), e);
    assert Does(e, Load(1), f);
    forall i | 0 <= i < |ss| - 1 ensures Link(Interleaves(), ss, i) {
      assert Step(ss[i], ss[i + 1]);
    }
  }

  // ---- clock_gettime ----

  datatype Timespec = Timespec(sec: int, nsec: int)

  /** The clocks at one instant: the raw system call, and each mapped vDSO function with its
      return value and what it wrote. */
  datatype Clocks = Clocks(syscall: i32 -> (u64, Timespec), vdso: (u64, i32) -> (int, Timespec))

  /** The raw system call, decoded. */
  function Raw(c: Clocks, clock: i32): Result<Timespec> {
    var (ret, ts) := c.syscall(clock);
    var _ :- FromRet(ret);
    Ok(ts)
  }

  /** `clock_gettime` once `clock_gettime_fn` has returned `fn`. */
  function ClockGettime(c: Clocks, fn: Option<u64>, clock: i32): Result<Timespec> {
    if fn.Some? && c.vdso(fn.value, clock).0 == 0 then Ok(c.vdso(fn.value, clock).1)
    else Raw(c, clock)
  }

  /** A zero return of `f` means it wrote what the system call would have. */
  ghost predicate Honest(c: Clocks, f: u64) {
    forall clock :: c.vdso(f, clock).0 == 0 ==> Raw(c, clock) == Ok(c.vdso(f, clock).1)
  }

  /** In numbers: what a zero return of the function wrote; otherwise, and without a function, what
      the system call wrote, or its error e when it returned -e. */
  lemma ClockGettimeIs(c: Clocks, fn: Option<u64>, clock: i32)
    ensures var r, call := ClockGettime(c, fn, clock), c.syscall(clock);
            if fn.Some? && c.vdso(fn.value, clock).0 == 0 then r == Ok(c.vdso(fn.value, clock).1)
            else if call.0 >= 0x1_0000_0000_0000_0000 - 4095 then
              r == Err(Errno(0x1_0000_0000_0000_0000 - call.0))
            else r == Ok(call.1)
  {
  }

  /** In every run, every call that has its function gives the raw system call's result, provided
      the resolved functions are honest: the cache is never a correctness dependency. */
  lemma FastPathAgrees(ss: seq<State>, k: nat, id: nat, c: Clocks, clock: i32)
    requires IsRun(Interleaves(), ss) && ss[0] == START && k < |ss|
    requires id in ss[k].threads && ss[k].threads[id].Returned?
    requires forall f | Some(f) in ss[k].resolved :: Honest(c, f)
    ensures var r, call := ClockGettime(c, ss[k].threads[id].fn, clock), c.syscall(clock);
            r == if call.0 >= 0x1_0000_0000_0000_0000 - 4095 then Err(Errno(0x1_0000_0000_0000_0000 - call.0))
                 else Ok(call.1)
  {
    CacheHoldsOnlyResolved(ss, k);
    var fn := ss[k].threads[id].fn;
    if fn.Some? {
      assert Honest(c, fn.value);
    }
  }
}
