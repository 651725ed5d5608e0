/**
 schedule (kern/schedule.c): which process runs next.
 */
module Schedule {
  import opened Layout

  /** Ready pids in [lo, hi), ascending. */
  function Ready(state: seq<int>, lo: nat, hi: nat): (r: seq<nat>)
    requires hi <= |state|
    ensures forall i :: 0 <= i < |r| ==> lo <= r[i] < hi && state[r[i]] == 1
    ensures forall i, j :: 0 <= i < j < |r| ==> r[i] < r[j]
    decreases hi - lo
  {
    if lo >= hi then []
    else if state[lo] == 1 then [lo] + Ready(state, lo + 1, hi)
    else Ready(state, lo + 1, hi)
  }

  /** The first ready pid of [lo, hi), 0 if there is none. */
  function First(state: seq<int>, lo: nat, hi: nat): nat
    requires hi <= |state|
  {
    if Ready(state, lo, hi) == [] then 0 else Ready(state, lo, hi)[0]
  }

  /** The pid schedule leaves running. */
  function NextPid(state: seq<int>, cur: nat, nProc: int): nat
    requires |state| == SLOTS && cur < MAXPID
  {
    if nProc == 0 || (nProc == 1 && cur != 0) then cur
    else if First(state, cur + 1, MAXPID) != 0 then First(state, cur + 1, MAXPID)
    else First(state, 1, cur)
  }

  lemma Regroup(x: nat, a: seq<nat>, b: seq<nat>)
    ensures [x] + (a + b) == [x] + a + b
  {
  }

  lemma Middle(a: seq<nat>, x: nat, b: seq<nat>)
    ensures a + ([x] + b) == a + [x] + b && (a + [x] + b)[|a|] == x
  {
  }

  lemma {:induction false} ReadySplit(state: seq<int>, lo: nat, mid: nat, hi: nat)
    requires lo <= mid <= hi <= |state|
    ensures Ready(state, lo, hi) == Ready(state, lo, mid) + Ready(state, mid, hi)
    decreases mid - lo
  {
    if lo < mid {
      ReadySplit(state, lo + 1, mid, hi);
      Regroup(lo, Ready(state, lo + 1, mid), Ready(state, mid, hi));
    }
  }

  lemma {:induction false} ReadyHas(state: seq<int>, lo: nat, hi: nat, p: nat)
    requires hi <= |state| && lo <= p < hi && state[p] == 1
    ensures p in Ready(state, lo, hi)
    decreases hi - lo
  {
    if lo < p {
      ReadyHas(state, lo + 1, hi, p);
    }
  }

  /** The two loops of schedule. */
  method Choose(state: seq<int>, cur: nat, nProc: int) returns (newpid: nat)
    requires |state| == SLOTS && cur < MAXPID
    ensures newpid == NextPid(state, cur, nProc)
  {
    if nProc == 0 {
      return cur;
    } else if nProc == 1 && cur != 0 {
      return cur;
    }
    newpid := 0;
    var i := cur + 1;
    while i < MAXPID && newpid == 0
      invariant cur + 1 <= i <= MAXPID
      invariant newpid == 0 ==> Ready(state, cur + 1, MAXPID) == Ready(state, i, MAXPID)
      invariant newpid != 0 ==> newpid == First(state, cur + 1, MAXPID)
      decreases MAXPID - i
    {
      if state[i] == 1 {
        newpid := i;
      }
      i := i + 1;
    }
    if newpid == 0 {
      i := 1;
      while i < cur && newpid == 0
        invariant 1 <= i && (i <= cur || cur == 0)
        invariant newpid == 0 ==> Ready(state, 1, cur) == Ready(state, i, cur)
        invariant newpid != 0 ==> newpid == First(state, 1, cur)
        decreases cur - i
      {
        if state[i] == 1 {
          newpid := i;
        }
        i := i + 1;
      }
    }
  }

  // ---- fairness

  /** The pid running after n calls of schedule with nothing else happening. */
  function After(state: seq<int>, cur: nat, nProc: int, n: nat): (r: nat)
    requires |state| == SLOTS && cur < MAXPID
    ensures r < MAXPID
  {
    if n == 0 then cur
    else
      var p := After(state, cur, nProc, n - 1);
      NextPid(state, p, nProc)
  }

  /** Over k calls every ready pid runs exactly once. */
  ghost predicate Fair(state: seq<int>, cur: nat, nProc: int, k: nat)
    requires |state| == SLOTS && cur < MAXPID
  {
    forall p :: 1 <= p < MAXPID && state[p] == 1 ==>
      exists n :: 1 <= n <= k && After(state, cur, nProc, n) == p &&
        forall m :: 1 <= m <= k && After(state, cur, nProc, m) == p ==> m == n
  }

  predicate IsReady(state: seq<int>, p: nat)
    requires |state| == SLOTS
  {
    1 <= p < MAXPID && state[p] == 1
  }

  /** Where the running pid stands among the ready ones. */
  function Rank(state: seq<int>, cur: nat): nat
    requires |state| == SLOTS && cur < MAXPID
  {
    |Ready(state, 1, cur)|
  }

  lemma {:induction false} RankIs(state: seq<int>, cur: nat)
    requires |state| == SLOTS && IsReady(state, cur)
    ensures var r := Ready(state, 1, MAXPID);
            && Rank(state, cur) < |r| && r[Rank(state, cur)] == cur
            && r == Ready(state, 1, cur) + [cur] + Ready(state, cur + 1, MAXPID)
  {
    ReadySplit(state, 1, cur, MAXPID);
    Middle(Ready(state, 1, cur), cur, Ready(state, cur + 1, MAXPID));
  }

  /** With two or more ready processes, the next one is the next in ascending order, around the end. */
  lemma {:induction false} NextIsSuccessor(state: seq<int>, cur: nat, nProc: int)
    requires |state| == SLOTS && IsReady(state, cur) && nProc != 0 && nProc != 1 && |Ready(state, 1, MAXPID)| >= 2
    ensures var r := Ready(state, 1, MAXPID); var i := Rank(state, cur);
            && NextPid(state, cur, nProc) == r[if i + 1 < |r| then i + 1 else 0]
            && IsReady(state, NextPid(state, cur, nProc))
            && Rank(state, NextPid(state, cur, nProc)) == if i + 1 < |r| then i + 1 else 0
  {
    RankIs(state, cur);
    var r, i := Ready(state, 1, MAXPID), Rank(state, cur);
    var n := NextPid(state, cur, nProc);
    var a, b := Ready(state, 1, cur), Ready(state, cur + 1, MAXPID);
    assert |r| == |a| + 1 + |b|;
    if b != [] {
      assert r[i + 1] == b[0];
    } else {
      assert r[0] == a[0];
    }
    RankIs(state, n);
  }

  /** p is the ready pid of rank i, out of k. */
  ghost predicate Place(state: seq<int>, p: nat, i: nat, k: nat) {
    |state| == SLOTS && IsReady(state, p) && Rank(state, p) == i && k == |Ready(state, 1, MAXPID)|
  }

  /** The next place of a ring with k places. */
  function Following(i: nat, k: nat): nat { if i + 1 < k then i + 1 else 0 }

  /** One call of schedule, as a statement about places alone. */
  lemma {:induction false} NextPlace(state: seq<int>, p: nat, nProc: int, i: nat, k: nat)
    requires Place(state, p, i, k) && nProc != 0 && nProc != 1 && k >= 2
    ensures i < k && Place(state, NextPid(state, p, nProc), Following(i, k), k)
  {
    RankIs(state, p);
    NextIsSuccessor(state, p, nProc);
  }

  /** n steps round a ring of k places, starting at place c. */
  function Around(c: nat, n: nat, k: nat): nat
    requires c < k
  {
    if n == 0 then c else Following(Around(c, n - 1, k), k)
  }

  lemma {:induction false} AroundIs(c: nat, n: nat, k: nat)
    requires c < k && n <= k
    ensures Around(c, n, k) == if c + n < k then c + n else c + n - k
  {
    if n > 0 {
      AroundIs(c, n - 1, k);
    }
  }

  lemma {:induction false} AfterStep(state: seq<int>, cur: nat, nProc: int, n: nat)
    requires |state| == SLOTS && cur < MAXPID && n > 0
    ensures After(state, cur, nProc, n - 1) < MAXPID
    ensures After(state, cur, nProc, n) == NextPid(state, After(state, cur, nProc, n - 1), nProc)
  {
  }

  lemma {:induction false} AfterPlace(state: seq<int>, cur: nat, nProc: int, n: nat, c: nat, k: nat)
    requires Place(state, cur, c, k) && nProc != 0 && nProc != 1 && k >= 2 && c < k
    ensures Place(state, After(state, cur, nProc, n), Around(c, n, k), k)
  {
    if n > 0 {
      AfterPlace(state, cur, nProc, n - 1, c, k);
      AfterStep(state, cur, nProc, n);
      NextPlace(state, After(state, cur, nProc, n - 1), nProc, Around(c, n - 1, k), k);
    }
  }

  /** After n calls the running pid is n places further round the ring. */
  lemma {:induction false} AfterIs(state: seq<int>, cur: nat, nProc: int, n: nat, c: nat, k: nat)
    requires Place(state, cur, c, k) && nProc != 0 && nProc != 1 && k >= 2 && n <= k
    ensures c < k && Place(state, After(state, cur, nProc, n), if c + n < k then c + n else c + n - k, k)
  {
    NextPlace(state, cur, nProc, c, k);
    AfterPlace(state, cur, nProc, n, c, k);
    AroundIs(c, n, k);
  }

  /** The ready pid of a given rank is unique. */
  lemma RankInjective(state: seq<int>, p: nat, q: nat)
    requires |state| == SLOTS && IsReady(state, p) && IsReady(state, q) && Rank(state, p) == Rank(state, q)
    ensures p == q
  {
    RankIs(state, p);
    RankIs(state, q);
  }

  lemma {:induction false} ManyReadyFair(state: seq<int>, cur: nat, nProc: int)
    requires |state| == SLOTS && IsReady(state, cur) && nProc != 0 && nProc != 1 && |Ready(state, 1, MAXPID)| >= 2
    ensures Fair(state, cur, nProc, |Ready(state, 1, MAXPID)|)
  {
    var k := |Ready(state, 1, MAXPID)|;
    RankIs(state, cur);
    forall p | 1 <= p < MAXPID && state[p] == 1
      ensures exists n :: 1 <= n <= k && After(state, cur, nProc, n) == p &&
                forall m :: 1 <= m <= k && After(state, cur, nProc, m) == p ==> m == n
    {
      RankIs(state, p);
      var d := Rank(state, p) - Rank(state, cur);
      var n := if d > 0 then d else d + k;
      AfterIs(state, cur, nProc, n, Rank(state, cur), k);
      RankInjective(state, p, After(state, cur, nProc, n));
      forall m | 1 <= m <= k && After(state, cur, nProc, m) == p ensures m == n {
        AfterIs(state, cur, nProc, m, Rank(state, cur), k);
      }
    }
  }

  /** Nothing moves while schedule returns early. */
  lemma {:induction false} StaysPut(state: seq<int>, cur: nat, nProc: int, n: nat)
    requires |state| == SLOTS && 1 <= cur < MAXPID && (nProc == 0 || nProc == 1)
    ensures After(state, cur, nProc, n) == cur
  {
    if n > 0 {
      StaysPut(state, cur, nProc, n - 1);
    }
  }

  /** With only the current process ready and schedule not returning early, process 0 is chosen. */
  lemma {:induction false} AloneGoesToZero(state: seq<int>, cur: nat, nProc: int)
    requires |state| == SLOTS && IsReady(state, cur) && nProc != 0 && nProc != 1 && |Ready(state, 1, MAXPID)| == 1
    ensures NextPid(state, cur, nProc) == 0
  {
    RankIs(state, cur);
  }

  /**
   Fairness over as many calls as there are ready pids, the current one among them, holds exactly when
   schedule's early return and the number of ready pids agree: one ready pid and n_proc at most 1,
   or several and n_proc above 1.  n_proc may exceed the ready pids through failed loads or pid 32.
   */
  lemma {:induction false} RoundRobinFair(state: seq<int>, cur: nat, nProc: nat)
    requires |state| == SLOTS && IsReady(state, cur)
    ensures Fair(state, cur, nProc, |Ready(state, 1, MAXPID)|) <==> (|Ready(state, 1, MAXPID)| == 1 <==> nProc <= 1)
  {
    var r := Ready(state, 1, MAXPID);
    var k := |r|;
    RankIs(state, cur);
    if nProc <= 1 {
      forall n | 0 <= n <= k ensures After(state, cur, nProc, n) == cur {
        StaysPut(state, cur, nProc, n);
      }
      if k == 1 {
        forall p | 1 <= p < MAXPID && state[p] == 1 ensures p == cur {
          RankIs(state, p);
        }
        assert After(state, cur, nProc, 1) == cur;
      } else {
        var p := if r[0] == cur then r[1] else r[0];
        assert 1 <= p < MAXPID && state[p] == 1 && p != cur;
      }
    } else if k >= 2 {
      ManyReadyFair(state, cur, nProc);
    } else {
      AloneGoesToZero(state, cur, nProc);
      assert After(state, cur, nProc, 0) == cur;
      assert After(state, cur, nProc, 1) == 0;
    }
  }

  /** From process 0 the first call picks the least ready pid. */
  lemma {:induction false} FromZeroLeast(state: seq<int>, nProc: int, p: nat)
    requires |state| == SLOTS && nProc != 0 && IsReady(state, p)
    ensures IsReady(state, NextPid(state, 0, nProc)) && NextPid(state, 0, nProc) <= p
  {
    ReadyHas(state, 1, MAXPID, p);
  }
}
