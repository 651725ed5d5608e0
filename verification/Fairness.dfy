/**
 The scheduler in the reachable states of the process table.
 */
module Fairness {
  import opened Layout
  import Process
  import Schedule

  /** The states schedule looks at. */
  function States(t: Process.Table): (s: seq<int>)
    ensures |s| == |t.procs| && forall i :: 0 <= i < |s| ==> s[i] == t.procs[i].state
  {
    seq(|t.procs|, i requires 0 <= i < |t.procs| => t.procs[i].state)
  }

  /** Ready pids and live processes are the same where no state is above 1. */
  lemma {:induction false} ReadyCount(t: Process.Table, n: nat)
    requires 1 <= n <= |t.procs| && forall i :: 0 <= i < |t.procs| ==> t.procs[i].state <= 1
    ensures |Schedule.Ready(States(t), 1, n)| == Process.LiveCount(t.procs, n)
  {
    if n > 1 {
      ReadyCount(t, n - 1);
      Schedule.ReadySplit(States(t), 1, n - 1, n);
      assert Schedule.Ready(States(t), n, n) == [];
    }
  }

  /**
   In every reachable state, with the running pid ready and below MAXPID: as many calls of schedule as there are
   ready pids run each of them exactly once if and only if there are at least two of them, or no load has failed
   and pid MAXPID, which schedule never looks at, is not live.
   */
  lemma {:induction false} RunFair(ts: seq<Process.Table>, es: seq<Process.Event>, k: nat, cur: nat)
    requires Process.IsRun(ts, es) && k < |ts| && |ts[k].procs| == SLOTS
    requires 1 <= cur < MAXPID && Process.Live(ts[k].procs[cur])
    ensures ts[k].nProc >= 0
    ensures var t := ts[k]; var ready := |Schedule.Ready(States(t), 1, MAXPID)|;
            Schedule.Fair(States(t), cur, t.nProc, ready) <==>
            ready >= 2 || (t.failed == 0 && !Process.Live(t.procs[MAXPID]))
  {
    Process.RunInvariant(ts, es, k);
    var t := ts[k];
    ReadyCount(t, MAXPID);
    assert Schedule.IsReady(States(t), cur);
    Schedule.ReadyHas(States(t), 1, MAXPID, cur);
    Schedule.RoundRobinFair(States(t), cur, t.nProc);
  }

  /** A run in which it fails: one load, and a second one that fails; the only ready process loses the processor. */
  lemma FailedLoadUnfair(t: Process.Table)
    requires Process.Initial(t)
    ensures var t1 := Process.AfterExec(t, 0, true);
            && Process.Slot(t1.procs, 1) < |t1.procs|
            && var t2 := Process.AfterExec(t1, 1, false);
               && Process.IsRun([t, t1, t2], [Process.Exec(0, true), Process.Exec(1, false)])
               && |t2.procs| == SLOTS && Process.Live(t2.procs[1])
               && Schedule.NextPid(States(t2), 1, t2.nProc) == 0
  {
    assert Process.Slot(t.procs, 1) == 1;
    var t1 := Process.AfterExec(t, 0, true);
    assert t1.procs[2].state == 0 && Process.Slot(t1.procs, 2) == 2;
    var t2 := Process.AfterExec(t1, 1, false);
    assert t2.nProc == 2;
    NoneReady(States(t2), 2, MAXPID);
  }

  lemma {:induction false} NoneReady(state: seq<int>, lo: nat, hi: nat)
    requires hi <= |state| && forall i :: lo <= i < hi ==> state[i] != 1
    ensures Schedule.Ready(state, lo, hi) == []
    decreases hi - lo
  {
    if lo < hi {
      NoneReady(state, lo + 1, hi);
    }
  }
}
