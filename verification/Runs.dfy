/** Finite runs of a transition relation. */
module Runs {
  ghost predicate IsRun<S(!new)>(next: (S, S) -> bool, ss: seq<S>) {
    |ss| > 0 && forall i | 0 <= i < |ss| - 1 :: Link(next, ss, i)
  }

  ghost predicate Link<S(!new)>(next: (S, S) -> bool, ss: seq<S>, i: nat)
    requires i + 1 < |ss|
  {
    next(ss[i], ss[i + 1])
  }

  /** `t` is reached from `s` in finitely many steps. */
  ghost predicate Reaches<S(!new)>(next: (S, S) -> bool, s: S, t: S) {
    exists ss :: IsRun(next, ss) && ss[0] == s && ss[|ss| - 1] == t
  }

  lemma ReachesHere<S(!new)>(next: (S, S) -> bool, s: S)
    ensures Reaches(next, s, s)
  {
    assert IsRun(next, [s]);
  }

  /** One run after another. */
  lemma Joined<S(!new)>(next: (S, S) -> bool, ss: seq<S>, ts: seq<S>) returns (all: seq<S>)
    requires IsRun(next, ss) && IsRun(next, ts) && ss[|ss| - 1] == ts[0]
    ensures IsRun(next, all) && |all| == |ss| + |ts| - 1 && all[0] == ss[0] && all[|all| - 1] == ts[|ts| - 1]
  {
    all := ss + ts[1..];
    forall i | 0 <= i < |all| - 1 ensures Link(next, all, i) {
      var j := i - (|ss| - 1);
      if j < 0 {
        assert Link(next, ss, i) && all[i] == ss[i] && all[i + 1] == ss[i + 1];
      } else {
        assert Link(next, ts, j) && all[i] == ts[j] && all[i + 1] == ts[j + 1];
      }
    }
  }

  lemma ReachesOn<S(!new)>(next: (S, S) -> bool, s: S, t: S, u: S)
    requires Reaches(next, s, t) && Reaches(next, t, u)
    ensures Reaches(next, s, u)
  {
    var ss :| IsRun(next, ss) && ss[0] == s && ss[|ss| - 1] == t;
    var ts :| IsRun(next, ts) && ts[0] == t && ts[|ts| - 1] == u;
    var all := Joined(next, ss, ts);
  }

  lemma ReachesNext<S(!new)>(next: (S, S) -> bool, s: S, t: S, u: S)
    requires Reaches(next, s, t) && next(t, u)
    ensures Reaches(next, s, u)
  {
    assert Link(next, [t, u], 0);
    assert IsRun(next, [t, u]);
    ReachesOn(next, s, t, u);
  }

  /** What holds first and is kept by every step holds along the whole run. */
  lemma {:induction false} AlongRun<S(!new)>(next: (S, S) -> bool, inv: S -> bool, ss: seq<S>, k: nat)
    requires IsRun(next, ss) && k < |ss| && inv(ss[0])
    requires forall s, s' | inv(s) && next(s, s') :: inv(s')
    ensures inv(ss[k])
  {
    if k > 0 {
      AlongRun(next, inv, ss, k - 1);
      assert Link(next, ss, k - 1);
    }
  }

  ghost predicate Deterministic<S(!new)>(next: (S, S) -> bool) {
    forall s, t, u | next(s, t) && next(s, u) :: t == u
  }

  ghost predicate Stuck<S(!new)>(next: (S, S) -> bool, s: S) {
    forall t :: !next(s, t)
  }

  /** Two runs of a deterministic relation from the same state agree as far as both go. */
  lemma {:induction false} SameRun<S(!new)>(next: (S, S) -> bool, ss: seq<S>, ts: seq<S>, k: nat)
    requires Deterministic(next) && IsRun(next, ss) && IsRun(next, ts) && ss[0] == ts[0]
    requires k < |ss| && k < |ts|
    ensures ss[k] == ts[k]
  {
    if k > 0 {
      SameRun(next, ss, ts, k - 1);
      assert Link(next, ss, k - 1) && Link(next, ts, k - 1);
    }
  }

  /** A run to a stuck state passes through every state reached from the same start. */
  lemma PassesThrough<S(!new)>(next: (S, S) -> bool, ss: seq<S>, ts: seq<S>) returns (rest: seq<S>)
    requires Deterministic(next) && IsRun(next, ss) && IsRun(next, ts) && ss[0] == ts[0]
    requires Stuck(next, ss[|ss| - 1])
    ensures IsRun(next, rest) && |rest| + |ts| == |ss| + 1
    ensures rest[0] == ts[|ts| - 1] && rest[|rest| - 1] == ss[|ss| - 1]
  {
    if |ts| > |ss| {
      assert Link(next, ts, |ss| - 1);
      SameRun(next, ss, ts, |ss| - 1);
      assert false;
    }
    SameRun(next, ss, ts, |ts| - 1);
    rest := ss[|ts| - 1..];
    forall i | 0 <= i < |rest| - 1 ensures Link(next, rest, i) {
      assert Link(next, ss, i + |ts| - 1);
    }
  }

  /** There is only one end. */
  lemma OneEnd<S(!new)>(next: (S, S) -> bool, s: S, t: S, end: S)
    requires Deterministic(next) && Stuck(next, end) && Stuck(next, t)
    requires Reaches(next, s, end) && Reaches(next, s, t)
    ensures t == end
  {
    var ss :| IsRun(next, ss) && ss[0] == s && ss[|ss| - 1] == end;
    var ts :| IsRun(next, ts) && ts[0] == s && ts[|ts| - 1] == t;
    var rest := PassesThrough(next, ss, ts);
    if t != end {
      var u := FirstStep(next, t, end);
    }
  }

  lemma FirstStep<S(!new)>(next: (S, S) -> bool, s: S, t: S) returns (u: S)
    requires Reaches(next, s, t) && s != t
    ensures next(s, u)
  {
    var ss :| IsRun(next, ss) && ss[0] == s && ss[|ss| - 1] == t;
    assert Link(next, ss, 0);
    u := ss[1];
  }

  /** States from which the relation always comes back to such a state never get stuck. */
  lemma {:induction false} NeverEnds<S(!new)>(next: (S, S) -> bool, again: S -> bool, ss: seq<S>)
    requires Deterministic(next) && IsRun(next, ss) && again(ss[0])
    requires forall s | again(s) :: Recurs(next, again, s)
    ensures !Stuck(next, ss[|ss| - 1])
    decreases |ss|
  {
    if Stuck(next, ss[|ss| - 1]) {
      assert Recurs(next, again, ss[0]);
      var ts :| IsRun(next, ts) && ts[0] == ss[0] && |ts| > 1 && again(ts[|ts| - 1]);
      var rest := PassesThrough(next, ss, ts);
      NeverEnds(next, again, rest);
    }
  }

  ghost predicate Recurs<S(!new)>(next: (S, S) -> bool, again: S -> bool, s: S) {
    exists ts :: IsRun(next, ts) && ts[0] == s && |ts| > 1 && again(ts[|ts| - 1])
  }
}
