/**
 The process table: load_task (kern/process.c), sys_exit, sys_wait, sys_kill and the effect of
 handle_signal (kern/signal.c) on the pending mask.
 */
module Process {
  import opened Layout
  import opened Words
  import opened Signals

  /**
   state: -1 zombie, 0 free, 1 ready.  signal is the mask of pending signals.  reaping: the process has left the
   spin loop of sys_wait and not yet scanned its children.
   */
  datatype Proc = Proc(state: int, parent: nat, children: seq<nat>, signal: u32, reaping: bool, status: int)

  const FreeSlot := Proc(0, 0, [], 0, false, 0)

  /** The table, n_proc, and the number of loads that failed at the ELF stage. */
  datatype Table = Table(procs: seq<Proc>, nProc: int, failed: nat)

  predicate Live(p: Proc) { p.state > 0 }
  predicate Zombie(p: Proc) { p.state == -1 }

  /** Live processes among pids 1 .. n - 1. */
  function LiveCount(procs: seq<Proc>, n: nat): nat
    requires 1 <= n <= |procs|
  {
    if n == 1 then 0 else (if Live(procs[n - 1]) then 1 else 0) + LiveCount(procs, n - 1)
  }

  /** n_proc counts the live pids. */
  lemma {:induction false} LiveCountIs(procs: seq<Proc>, n: nat)
    requires 1 <= n <= |procs|
    ensures LiveCount(procs, n) == |set p | 1 <= p < n && procs[p].state > 0|
  {
    var s := set p | 1 <= p < n && procs[p].state > 0;
    if n > 1 {
      LiveCountIs(procs, n - 1);
      var r := set p | 1 <= p < n - 1 && procs[p].state > 0;
      assert s == if procs[n - 1].state > 0 then r + {n - 1} else r;
    } else {
      assert s == {};
    }
  }

  /** The table when the kernel thread starts: process 0 runs, its child list is empty, all other slots are free. */
  predicate Initial(t: Table) {
    && |t.procs| == SLOTS && t.procs[0] == Proc(1, 0, [], 0, false, 0)
    && (forall i :: 1 <= i < SLOTS ==> t.procs[i] == FreeSlot)
    && t.nProc == 0 && t.failed == 0
  }

  // ---- steps

  /** Index where the slot search of load_task stops; SLOTS when every slot is taken. */
  function Slot(procs: seq<Proc>, pid: nat): (r: nat)
    requires pid <= |procs|
    ensures pid <= r <= |procs|
    ensures r < |procs| ==> procs[r].state == 0
    ensures forall i :: pid <= i < r ==> procs[i].state != 0
    decreases |procs| - pid
  {
    if pid == |procs| || procs[pid].state == 0 then pid else Slot(procs, pid + 1)
  }

  /** load_task called by cur; loaded tells whether load_elf succeeds. */
  function AfterExec(t: Table, cur: nat, loaded: bool): Table
    requires cur < |t.procs| && |t.procs| > 1 && Slot(t.procs, 1) < |t.procs|
  {
    var pid := Slot(t.procs, 1);
    if !loaded then Table(t.procs, t.nProc + 1, t.failed + 1)
    else
      var parent := if t.procs[cur].state != 0 then cur else 0;
      var procs := t.procs[pid := Proc(1, parent, [], 0, false, 0)];
      Table(procs[parent := procs[parent].(children := [pid] + procs[parent].children)], t.nProc + 1, t.failed)
  }

  /** Hand the children cs over to process 0, in list order, each to the front of its list. */
  function Reparent(procs: seq<Proc>, cs: seq<nat>): (r: seq<Proc>)
    requires procs != [] && InTable(procs, cs)
    ensures |r| == |procs|
    decreases |cs|
  {
    if cs == [] then procs
    else
      var p1 := procs[cs[0] := procs[cs[0]].(parent := 0)];
      Reparent(p1[0 := p1[0].(children := [cs[0]] + p1[0].children)], cs[1..])
  }

  /** sys_exit of process pid. */
  function AfterExit(t: Table, pid: nat, status: int): Table
    requires pid < |t.procs| && t.procs[pid].parent < |t.procs| && InTable(t.procs, t.procs[pid].children)
  {
    var cs, parent := t.procs[pid].children, t.procs[pid].parent;
    var p1 := t.procs[pid := t.procs[pid].(state := -1, status := status, reaping := false)];
    var told := p1[parent].(signal := SetSignal(p1[parent].signal, SIGCHLD));
    var p2 := if Live(p1[parent]) then p1[parent := told] else p1;
    var p3 := p2[pid := p2[pid].(children := [])];
    Table(Reparent(p3, cs), t.nProc - 1, t.failed)
  }

  /** Index of the first zombie in a child list. */
  function FirstZombie(procs: seq<Proc>, cs: seq<nat>): (k: nat)
    requires InTable(procs, cs)
    ensures k <= |cs| && (k < |cs| ==> Zombie(procs[cs[k]]))
    ensures forall i :: 0 <= i < k ==> !Zombie(procs[cs[i]])
  {
    if cs == [] || Zombie(procs[cs[0]]) then 0 else 1 + FirstZombie(procs, cs[1..])
  }

  /** The scan of sys_wait; without a zombie child nothing changes (and pid is returned uninitialised). */
  function AfterReap(t: Table, pid: nat): Table
    requires pid < |t.procs| && InTable(t.procs, t.procs[pid].children)
  {
    var cs := t.procs[pid].children;
    var k := FirstZombie(t.procs, cs);
    if k == |cs| then t.(procs := t.procs[pid := t.procs[pid].(reaping := false)])
    else
      var p1 := t.procs[cs[k] := t.procs[cs[k]].(state := 0)];
      t.(procs := p1[pid := p1[pid].(children := cs[..k] + cs[k + 1..], signal := ClearSignal(p1[pid].signal, SIGCHLD),
                                     reaping := false)])
  }

  /** sys_kill, for any number. */
  function AfterKill(t: Table, pid: nat, sig: int): Table
    requires pid < |t.procs|
  {
    var p := t.procs[pid];
    if Live(p) then t.(procs := t.procs[pid := p.(signal := SetSignal(p.signal, sig))]) else t
  }

  datatype Event =
    | Exec(cur: nat, loaded: bool)
    | Exit(pid: nat, status: int)
    | LeaveSpin(pid: nat)
    | Reap(pid: nat)
    | Kill(pid: nat, number: int)
    | Deliver(pid: nat, sig: nat, h: Handler)

  /** What may happen: live processes act, loads have a free slot, process 0 does not exit, kill raises no SIGCHLD. */
  predicate Enabled(t: Table, e: Event) {
    match e
    case Exec(cur, _) => cur < |t.procs| && Live(t.procs[cur]) && |t.procs| > 1 && Slot(t.procs, 1) < |t.procs|
    case Exit(pid, _) => 1 <= pid < |t.procs| && Live(t.procs[pid])
    case LeaveSpin(pid) => pid < |t.procs| && Live(t.procs[pid]) && Pending(t.procs[pid].signal, SIGCHLD)
    case Reap(pid) => pid < |t.procs| && Live(t.procs[pid]) && t.procs[pid].reaping
    case Kill(pid, sig) => pid < |t.procs| && sig % 32 != SIGCHLD
    case Deliver(pid, sig, h) =>
      && pid < |t.procs| && Live(t.procs[pid]) && 1 <= sig <= 32 && Pending(t.procs[pid].signal, sig)
      && !(h.Default? && sig in {1, 2, 3})
  }

  // ---- the invariant

  /** c is a process that names p as its parent. */
  predicate ChildOf(procs: seq<Proc>, p: nat, c: nat) {
    1 <= c < |procs| && procs[c].state != 0 && procs[c].parent == p
  }

  /** The child list of p: its children, each once; only a live process has any. */
  predicate ListOk(procs: seq<Proc>, p: nat)
    requires p < |procs|
  {
    && (forall i :: 0 <= i < |procs[p].children| ==> ChildOf(procs, p, procs[p].children[i]))
    && Distinct(procs[p].children)
    && (procs[p].children != [] ==> Live(procs[p]))
  }

  /** A process that is not free is on the list of its parent. */
  predicate OnList(procs: seq<Proc>, c: nat)
    requires c < |procs|
  {
    procs[c].state != 0 ==> procs[c].parent < |procs| && procs[c].parent != c && c in procs[procs[c].parent].children
  }

  /** Child lists and parents describe the same tree. */
  ghost predicate Tree(procs: seq<Proc>) {
    && |procs| == SLOTS && Live(procs[0])
    && (forall p :: 0 <= p < SLOTS ==> -1 <= procs[p].state <= 1 && ListOk(procs, p))
    && (forall c :: 1 <= c < SLOTS ==> OnList(procs, c))
  }

  /** Whoever has been told of a dead child has one. */
  ghost predicate Told(procs: seq<Proc>) {
    forall p :: 0 <= p < |procs| && Live(procs[p]) && (Pending(procs[p].signal, SIGCHLD) || procs[p].reaping) ==>
      exists c :: c in procs[p].children && 0 <= c < |procs| && Zombie(procs[c])
  }

  ghost predicate Inv(t: Table) {
    && Tree(t.procs) && Told(t.procs)
    && t.nProc == LiveCount(t.procs, SLOTS) + t.failed
  }

  /** All pids on a child list are slots. */
  predicate InTable(procs: seq<Proc>, cs: seq<nat>) {
    forall i :: 0 <= i < |cs| ==> cs[i] < |procs|
  }

  predicate Steps(t: Table, e: Event, t': Table) {
    Enabled(t, e) &&
    match e
    case Exec(cur, loaded) => t' == AfterExec(t, cur, loaded)
    case Exit(pid, status) => ExitSteps(t, pid, status, t')
    case LeaveSpin(pid) => t' == t.(procs := t.procs[pid := t.procs[pid].(reaping := true)])
    case Reap(pid) => InTable(t.procs, t.procs[pid].children) && t' == AfterReap(t, pid)
    case Kill(pid, sig) => t' == AfterKill(t, pid, sig)
    case Deliver(pid, sig, h) =>
      t' == t.(procs := t.procs[pid := t.procs[pid].(signal := MaskAfter(t.procs[pid].signal, sig, h))])
  }

  predicate ExitSteps(t: Table, pid: nat, status: int, t': Table)
    requires pid < |t.procs|
  {
    t.procs[pid].parent < |t.procs| && InTable(t.procs, t.procs[pid].children) && t' == AfterExit(t, pid, status)
  }

  // ---- counting

  lemma {:induction false} CountUpdate(procs: seq<Proc>, procs': seq<Proc>, n: nat, pid: nat)
    requires 1 <= n <= |procs| == |procs'| && 1 <= pid < |procs|
    requires forall i :: 1 <= i < n && i != pid ==> Live(procs'[i]) == Live(procs[i])
    ensures LiveCount(procs', n) == LiveCount(procs, n) +
              (if pid < n then (if Live(procs'[pid]) then 1 else 0) - (if Live(procs[pid]) then 1 else 0) else 0)
  {
    if n > 1 {
      CountUpdate(procs, procs', n - 1, pid);
    }
  }

  // ---- loading

  /** procs' is procs after process cur has loaded a program into slot pid. */
  predicate Loaded(procs: seq<Proc>, procs': seq<Proc>, cur: nat, pid: nat)
    requires |procs'| == |procs| && cur < |procs| && pid < |procs|
  {
    && procs'[pid] == Proc(1, cur, [], 0, false, 0)
    && procs'[cur] == procs[cur].(children := [pid] + procs[cur].children)
    && forall p :: 0 <= p < |procs| && p != cur && p != pid ==> procs'[p] == procs[p]
  }

  lemma LoadedKeepsTree(procs: seq<Proc>, procs': seq<Proc>, cur: nat, pid: nat)
    requires Tree(procs) && |procs'| == SLOTS && cur < SLOTS && 1 <= pid < SLOTS
    requires Live(procs[cur]) && procs[pid].state == 0
    requires Loaded(procs, procs', cur, pid)
    ensures Tree(procs')
  {
    forall p | 0 <= p < SLOTS ensures ListOk(procs', p) {
      assert ListOk(procs, p);
      if p == cur {
        assert pid !in procs[cur].children;
      }
    }
    forall c | 1 <= c < SLOTS ensures OnList(procs', c) {
      assert OnList(procs, c);
    }
  }

  lemma LoadedKeepsTold(procs: seq<Proc>, procs': seq<Proc>, cur: nat, pid: nat)
    requires Told(procs) && |procs| == |procs'| && cur < |procs| && pid < |procs|
    requires Live(procs[cur]) && procs[pid].state == 0
    requires Loaded(procs, procs', cur, pid)
    ensures Told(procs')
  {
    PendingZero(SIGCHLD);
    forall p | 0 <= p < |procs| && Live(procs'[p]) && (Pending(procs'[p].signal, SIGCHLD) || procs'[p].reaping)
      ensures exists c :: c in procs'[p].children && 0 <= c < |procs'| && Zombie(procs'[c])
    {
      var c :| c in procs[p].children && 0 <= c < |procs| && Zombie(procs[c]);
      assert c in procs'[p].children && Zombie(procs'[c]);
    }
  }

  lemma ExecKeepsInv(t: Table, cur: nat, loaded: bool)
    requires Inv(t) && Enabled(t, Exec(cur, loaded))
    ensures Inv(AfterExec(t, cur, loaded))
  {
    if loaded {
      var procs', pid := AfterExec(t, cur, true).procs, Slot(t.procs, 1);
      assert Loaded(t.procs, procs', cur, pid);
      LoadedKeepsTree(t.procs, procs', cur, pid);
      LoadedKeepsTold(t.procs, procs', cur, pid);
      CountUpdate(t.procs, AfterExec(t, cur, true).procs, SLOTS, Slot(t.procs, 1));
    }
  }

  // ---- leaving

  function Rev(cs: seq<nat>): seq<nat> {
    if cs == [] then [] else Rev(cs[1..]) + [cs[0]]
  }

  lemma {:induction false} RevSame(cs: seq<nat>)
    ensures |Rev(cs)| == |cs| && (forall c :: c in Rev(cs) <==> c in cs)
    ensures Distinct(cs) ==> Distinct(Rev(cs))
  {
    if cs != [] {
      RevSame(cs[1..]);
      assert cs == [cs[0]] + cs[1..];
      assert Distinct(cs) ==> Distinct(cs[1..]) && cs[0] !in cs[1..];
    }
  }

  lemma DistinctAppend(a: seq<nat>, b: seq<nat>)
    requires Distinct(a) && Distinct(b) && forall c :: c in a ==> c !in b
    ensures Distinct(a + b)
  {
    forall i, j | 0 <= i < j < |a + b| ensures (a + b)[i] != (a + b)[j] {
      assert i < |a| ==> (a + b)[i] in a;
    }
  }

  /** The loop over the children, in closed form. */
  lemma {:induction false} ReparentIs(procs: seq<Proc>, cs: seq<nat>)
    requires procs != [] && Distinct(cs) && forall i :: 0 <= i < |cs| ==> 1 <= cs[i] < |procs|
    ensures forall p :: 1 <= p < |procs| ==>
              Reparent(procs, cs)[p] == if p in cs then procs[p].(parent := 0) else procs[p]
    ensures Reparent(procs, cs)[0] == procs[0].(children := Rev(cs) + procs[0].children)
    decreases |cs|
  {
    if cs == [] {
      assert Rev(cs) + procs[0].children == procs[0].children;
    } else {
      var p1 := procs[cs[0] := procs[cs[0]].(parent := 0)];
      var p2 := p1[0 := p1[0].(children := [cs[0]] + p1[0].children)];
      assert cs == [cs[0]] + cs[1..];
      ReparentIs(p2, cs[1..]);
      assert Rev(cs) + procs[0].children == Rev(cs[1..]) + ([cs[0]] + procs[0].children);
    }
  }

  /** The slot p after process pid has left. */
  function ExitProc(procs: seq<Proc>, pid: nat, status: int, p: nat): Proc
    requires p < |procs| && pid < |procs|
  {
    var q1 := if p == pid then procs[p].(state := -1, status := status, reaping := false, children := []) else procs[p];
    var q2 := if p == procs[pid].parent && Live(q1) then q1.(signal := SetSignal(q1.signal, SIGCHLD)) else q1;
    var q3 := if p in procs[pid].children then q2.(parent := 0) else q2;
    if p == 0 then q3.(children := Rev(procs[pid].children) + q3.children) else q3
  }

  predicate Left(procs: seq<Proc>, procs': seq<Proc>, pid: nat, status: int)
    requires |procs'| == |procs| && pid < |procs|
  {
    forall p :: 0 <= p < |procs| ==> procs'[p] == ExitProc(procs, pid, status, p)
  }

  lemma ExitIs(t: Table, pid: nat, status: int)
    requires Tree(t.procs) && 1 <= pid < SLOTS && t.procs[pid].state != 0
    ensures t.procs[pid].parent < SLOTS && InTable(t.procs, t.procs[pid].children)
    ensures |AfterExit(t, pid, status).procs| == SLOTS
    ensures Left(t.procs, AfterExit(t, pid, status).procs, pid, status)
  {
    var cs, parent := t.procs[pid].children, t.procs[pid].parent;
    assert ListOk(t.procs, pid) && OnList(t.procs, pid);
    var p1 := t.procs[pid := t.procs[pid].(state := -1, status := status, reaping := false)];
    var told := p1[parent].(signal := SetSignal(p1[parent].signal, SIGCHLD));
    var p2 := if Live(p1[parent]) then p1[parent := told] else p1;
    var p3 := p2[pid := p2[pid].(children := [])];
    ReparentIs(p3, cs);
  }

  lemma LeftKeepsTree(procs: seq<Proc>, procs': seq<Proc>, pid: nat, status: int)
    requires Tree(procs) && |procs'| == SLOTS && 1 <= pid < SLOTS && Live(procs[pid])
    requires Left(procs, procs', pid, status)
    ensures Tree(procs')
  {
    forall p | 0 <= p < SLOTS ensures ListOk(procs', p) {
      LeftList(procs, procs', pid, status, p);
    }
    RevSame(procs[pid].children);
    forall c | 1 <= c < SLOTS ensures OnList(procs', c) {
      assert OnList(procs, c);
    }
  }

  /** The child list of p after process pid has left. */
  lemma LeftList(procs: seq<Proc>, procs': seq<Proc>, pid: nat, status: int, p: nat)
    requires Tree(procs) && |procs'| == SLOTS && 1 <= pid < SLOTS && Live(procs[pid]) && p < SLOTS
    requires Left(procs, procs', pid, status)
    ensures ListOk(procs', p)
  {
    var cs := procs[pid].children;
    RevSame(cs);
    assert ListOk(procs, pid) && ListOk(procs, 0) && ListOk(procs, p);
    if p == 0 {
      DistinctAppend(Rev(cs), procs[0].children);
    }
    forall i | 0 <= i < |procs'[p].children| ensures ChildOf(procs', p, procs'[p].children[i]) {
      var c := procs'[p].children[i];
      assert c in Rev(cs) || c in procs[p].children;
    }
  }

  /** The parent of a process that is not free is live: the "without valid parent" branch of sys_exit is never taken. */
  lemma ParentIsLive(procs: seq<Proc>, c: nat)
    requires Tree(procs) && 1 <= c < SLOTS && procs[c].state != 0
    ensures procs[c].parent < SLOTS && Live(procs[procs[c].parent])
  {
    assert OnList(procs, c);
    assert ListOk(procs, procs[c].parent);
  }

  /** A process that is not free is on the list of its parent, once, and on no other list. */
  lemma OnExactlyOneList(procs: seq<Proc>, c: nat, p: nat, i: nat, q: nat, j: nat)
    requires Tree(procs) && 1 <= c < SLOTS && procs[c].state != 0 && p < SLOTS && q < SLOTS
    requires i < |procs[p].children| && procs[p].children[i] == c
    requires j < |procs[q].children| && procs[q].children[j] == c
    ensures c in procs[procs[c].parent].children && p == q == procs[c].parent && i == j
  {
    assert OnList(procs, c) && ListOk(procs, p) && ListOk(procs, q);
  }

  lemma LeftKeepsTold(procs: seq<Proc>, procs': seq<Proc>, pid: nat, status: int)
    requires Tree(procs) && Told(procs) && |procs'| == SLOTS && 1 <= pid < SLOTS && Live(procs[pid])
    requires Left(procs, procs', pid, status)
    ensures Told(procs')
  {
    assert OnList(procs, pid);
    forall p | 0 <= p < SLOTS && Live(procs'[p]) && (Pending(procs'[p].signal, SIGCHLD) || procs'[p].reaping)
      ensures exists c :: c in procs'[p].children && 0 <= c < |procs'| && Zombie(procs'[c])
    {
      if p == procs[pid].parent {
        assert pid in procs'[p].children && Zombie(procs'[pid]);
      } else {
        var c :| c in procs[p].children && 0 <= c < SLOTS && Zombie(procs[c]);
        assert c in procs'[p].children && Zombie(procs'[c]);
      }
    }
  }

  lemma ExitKeepsInv(t: Table, pid: nat, status: int)
    requires Inv(t) && Enabled(t, Exit(pid, status))
    requires t.procs[pid].parent < SLOTS && InTable(t.procs, t.procs[pid].children)
    ensures ExitSteps(t, pid, status, AfterExit(t, pid, status)) && Inv(AfterExit(t, pid, status))
  {
    ExitIs(t, pid, status);
    var procs' := AfterExit(t, pid, status).procs;
    LeftKeepsTree(t.procs, procs', pid, status);
    LeftKeepsTold(t.procs, procs', pid, status);
    LeftCounts(t.procs, procs', pid, status);
  }

  lemma LeftCounts(procs: seq<Proc>, procs': seq<Proc>, pid: nat, status: int)
    requires |procs'| == |procs| == SLOTS && 1 <= pid < SLOTS && Live(procs[pid]) && Left(procs, procs', pid, status)
    ensures LiveCount(procs', SLOTS) == LiveCount(procs, SLOTS) - 1
  {
    CountUpdate(procs, procs', SLOTS, pid);
  }

  // ---- waiting

  /** procs' is procs after process pid has reaped its child number k, which is z. */
  predicate Reaped(procs: seq<Proc>, procs': seq<Proc>, pid: nat, k: nat, z: nat)
    requires |procs'| == |procs| && pid < |procs| && k < |procs[pid].children|
  {
    && z == procs[pid].children[k] && z < |procs| && procs'[z] == procs[z].(state := 0)
    && procs'[pid] == procs[pid].(children := procs[pid].children[..k] + procs[pid].children[k + 1..],
                                  signal := ClearSignal(procs[pid].signal, SIGCHLD), reaping := false)
    && forall p :: 0 <= p < |procs| && p != pid && p != z ==> procs'[p] == procs[p]
  }

  /** The scan of the child list of pid has found z at index k, and taken it off. */
  predicate ScannedTo(procs: seq<Proc>, procs': seq<Proc>, pid: nat, k: nat, z: nat)
    requires pid < |procs| && k < |procs[pid].children|
  {
    var cs := procs[pid].children;
    && z == cs[k] && z < |procs| && z != pid
    && (forall i :: 0 <= i < k && cs[i] < |procs| ==> procs[cs[i]].state != -1)
    && procs' == procs[z := procs[z].(state := 0)]
                 [pid := procs[pid].(children := cs[..k] + cs[k + 1..], reaping := false,
                                     signal := ClearSignal(procs[pid].signal, 17))]
  }

  lemma WithoutOne(cs: seq<nat>, k: nat)
    requires Distinct(cs) && k < |cs|
    ensures Distinct(cs[..k] + cs[k + 1..])
    ensures forall c :: c in cs[..k] + cs[k + 1..] <==> c in cs && c != cs[k]
  {
    var r := cs[..k] + cs[k + 1..];
    assert cs == cs[..k] + [cs[k]] + cs[k + 1..];
    assert forall i :: 0 <= i < |r| ==> r[i] == cs[if i < k then i else i + 1];
  }

  lemma ReapedKeepsTree(procs: seq<Proc>, procs': seq<Proc>, pid: nat, k: nat)
    requires Tree(procs) && |procs'| == SLOTS && pid < SLOTS && Live(procs[pid]) && k < |procs[pid].children|
    requires Reaped(procs, procs', pid, k, procs[pid].children[k]) && Zombie(procs[procs[pid].children[k]])
    ensures Tree(procs')
  {
    var cs := procs[pid].children;
    var z := cs[k];
    assert ListOk(procs, pid) && ListOk(procs, z);
    WithoutOne(cs, k);
    forall p | 0 <= p < SLOTS ensures ListOk(procs', p) {
      assert ListOk(procs, p);
      forall i | 0 <= i < |procs'[p].children| ensures ChildOf(procs', p, procs'[p].children[i]) {
        assert procs'[p].children[i] in procs[p].children;
      }
    }
    forall c | 1 <= c < SLOTS ensures OnList(procs', c) {
      assert OnList(procs, c);
    }
  }

  lemma ReapedKeepsTold(procs: seq<Proc>, procs': seq<Proc>, pid: nat, k: nat)
    requires Tree(procs) && Told(procs) && |procs'| == SLOTS && pid < SLOTS && Live(procs[pid])
    requires k < |procs[pid].children|
    requires Reaped(procs, procs', pid, k, procs[pid].children[k]) && Zombie(procs[procs[pid].children[k]])
    ensures Told(procs')
  {
    var z := procs[pid].children[k];
    assert ListOk(procs, pid);
    forall p | 0 <= p < SLOTS && Live(procs'[p]) && (Pending(procs'[p].signal, SIGCHLD) || procs'[p].reaping)
      ensures exists c :: c in procs'[p].children && 0 <= c < |procs'| && Zombie(procs'[c])
    {
      var c :| c in procs[p].children && 0 <= c < SLOTS && Zombie(procs[c]);
      assert ListOk(procs, p);
      assert c in procs'[p].children && Zombie(procs'[c]);
    }
  }

  /** Whoever has left the spin of sys_wait finds a zombie among its children. */
  lemma ReapFinds(t: Table, pid: nat)
    requires Inv(t) && Enabled(t, Reap(pid))
    ensures InTable(t.procs, t.procs[pid].children)
    ensures FirstZombie(t.procs, t.procs[pid].children) < |t.procs[pid].children|
  {
    assert ListOk(t.procs, pid);
    var c :| c in t.procs[pid].children && 0 <= c < SLOTS && Zombie(t.procs[c]);
  }

  lemma ReapKeepsInv(t: Table, pid: nat)
    requires Inv(t) && Enabled(t, Reap(pid)) && InTable(t.procs, t.procs[pid].children)
    ensures Inv(AfterReap(t, pid))
  {
    ReapFinds(t, pid);
    var k := FirstZombie(t.procs, t.procs[pid].children);
    var procs' := AfterReap(t, pid).procs;
    assert ListOk(t.procs, pid);
    assert Reaped(t.procs, procs', pid, k, t.procs[pid].children[k]);
    ReapedKeepsTree(t.procs, procs', pid, k);
    ReapedKeepsTold(t.procs, procs', pid, k);
    CountUpdate(t.procs, procs', SLOTS, t.procs[pid].children[k]);
  }

  // ---- signals

  /** Changing only masks and the reaping flag of one process. */
  lemma MaskKeepsInv(t: Table, pid: nat, p': Proc)
    requires Inv(t) && pid < SLOTS && p' == t.procs[pid].(signal := p'.signal, reaping := p'.reaping)
    requires Live(p') && (Pending(p'.signal, SIGCHLD) || p'.reaping) ==>
               Pending(t.procs[pid].signal, SIGCHLD) || t.procs[pid].reaping
    ensures Inv(t.(procs := t.procs[pid := p']))
  {
    var procs, procs' := t.procs, t.procs[pid := p'];
    forall p | 0 <= p < SLOTS ensures ListOk(procs', p) {
      assert ListOk(procs, p);
    }
    forall c | 1 <= c < SLOTS ensures OnList(procs', c) {
      assert OnList(procs, c);
    }
    forall p | 0 <= p < SLOTS && Live(procs'[p]) && (Pending(procs'[p].signal, SIGCHLD) || procs'[p].reaping)
      ensures exists c :: c in procs'[p].children && 0 <= c < |procs'| && Zombie(procs'[c])
    {
      var c :| c in procs[p].children && 0 <= c < SLOTS && Zombie(procs[c]);
      assert c in procs'[p].children && Zombie(procs'[c]);
    }
    if pid >= 1 {
      CountUpdate(procs, procs', SLOTS, pid);
    } else {
      CountUpdate(procs, procs', SLOTS, 1);
    }
  }

  lemma KillKeepsInv(t: Table, pid: nat, sig: int)
    requires Inv(t) && Enabled(t, Kill(pid, sig))
    ensures Inv(AfterKill(t, pid, sig))
  {
    if Live(t.procs[pid]) {
      MaskKeepsInv(t, pid, t.procs[pid].(signal := SetSignal(t.procs[pid].signal, sig)));
    }
  }

  lemma StepKeepsInv(t: Table, e: Event, t': Table)
    requires Inv(t) && Steps(t, e, t')
    ensures Inv(t')
  {
    match e
    case Exec(cur, loaded) => ExecKeepsInv(t, cur, loaded);
    case Exit(pid, status) => ExitKeepsInv(t, pid, status);
    case LeaveSpin(pid) => MaskKeepsInv(t, pid, t.procs[pid].(reaping := true));
    case Reap(pid) => ReapKeepsInv(t, pid);
    case Kill(pid, sig) => KillKeepsInv(t, pid, sig);
    case Deliver(pid, sig, h) =>
      MaskKeepsInv(t, pid, t.procs[pid].(signal := MaskAfter(t.procs[pid].signal, sig, h)));
  }

  // ---- what each step does

  /**
   A load: the lowest free slot becomes a live process without children, signals or status, whose parent is the
   caller; the caller lists it first; no other slot changes.  A failed load changes no slot.
   */
  lemma ExecExact(t: Table, cur: nat, loaded: bool, t': Table)
    requires Inv(t) && Steps(t, Exec(cur, loaded), t')
    ensures |t.procs| == |t'.procs| == SLOTS && t'.nProc == t.nProc + 1
    ensures !loaded ==> t'.procs == t.procs
    ensures var pid := Slot(t.procs, 1);
            && 1 <= pid < SLOTS && t.procs[pid].state == 0 && (forall i :: 1 <= i < pid ==> t.procs[i].state != 0)
            && (loaded ==>
                  t'.procs == t.procs[pid := Proc(1, cur, [], 0, false, 0)]
                              [cur := t.procs[cur].(children := [pid] + t.procs[cur].children)])
  {
  }

  lemma {:induction false} RevAt(cs: seq<nat>, i: nat)
    requires i < |cs|
    ensures |Rev(cs)| == |cs| && Rev(cs)[i] == cs[|cs| - 1 - i]
  {
    RevSame(cs[1..]);
    if i < |cs| - 1 {
      RevAt(cs[1..], i);
    }
  }

  /**
   An exit: pid becomes a zombie with that status and no children; SIGCHLD becomes pending for its parent, a live
   process that still lists it; its children are put in front of the list of process 0, the last one first, and
   have parent 0; nothing else changes.
   */
  lemma ExitExact(t: Table, pid: nat, status: int, t': Table, p: nat)
    requires Inv(t) && Steps(t, Exit(pid, status), t') && p < SLOTS
    ensures |t.procs| == |t'.procs| == SLOTS && t'.nProc == t.nProc - 1
    ensures t'.procs[pid] == t.procs[pid].(state := -1, status := status, reaping := false, children := [])
    ensures var parent := t.procs[pid].parent;
            parent != pid && parent < SLOTS && t.procs[parent].state > 0 && pid in t'.procs[parent].children
    ensures p != pid ==>
              && t'.procs[p] == t.procs[p].(parent := t'.procs[p].parent, signal := t'.procs[p].signal,
                                            children := t'.procs[p].children)
              && t'.procs[p].parent == (if p in t.procs[pid].children then 0 else t.procs[p].parent)
              && (p == t.procs[pid].parent ==> t'.procs[p].signal == SetSignal(t.procs[p].signal, 17))
              && (p != t.procs[pid].parent ==> t'.procs[p].signal == t.procs[p].signal)
              && (p != 0 ==> t'.procs[p].children == t.procs[p].children)
    ensures var cs := t.procs[pid].children; var n := |cs|;
            |t'.procs[0].children| == n + |t.procs[0].children| && t'.procs[0].children[n..] == t.procs[0].children
            && forall i :: 0 <= i < n ==> t'.procs[0].children[i] == cs[n - 1 - i]
  {
    ExitIs(t, pid, status);
    ParentIsLive(t.procs, pid);
    assert OnList(t.procs, pid) && ListOk(t.procs, pid) && ListOk(t.procs, 0);
    var cs := t.procs[pid].children;
    RevSame(cs);
    assert t'.procs[0].children == Rev(cs) + t.procs[0].children;
    forall i | 0 <= i < |cs| ensures t'.procs[0].children[i] == cs[|cs| - 1 - i] {
      RevAt(cs, i);
    }
  }

  /** Waiting, past the spin: the first zombie on the list of pid leaves the list and its slot becomes free. */
  lemma ReapExact(t: Table, pid: nat, t': Table)
    requires Inv(t) && Steps(t, Reap(pid), t')
    ensures |t.procs| == |t'.procs| == SLOTS && t'.nProc == t.nProc
    ensures var cs := t.procs[pid].children;
            && InTable(t.procs, cs)
            && var k := FirstZombie(t.procs, cs);
               && k < |cs| && t.procs[cs[k]].state == -1 && (forall i :: 0 <= i < k ==> t.procs[cs[i]].state != -1)
               && t'.procs[cs[k]] == t.procs[cs[k]].(state := 0)
               && t'.procs[pid] == t.procs[pid].(children := cs[..k] + cs[k + 1..], reaping := false,
                                                 signal := ClearSignal(t.procs[pid].signal, 17))
               && forall p :: 0 <= p < SLOTS && p != pid && p != cs[k] ==> t'.procs[p] == t.procs[p]
  {
    ReapFinds(t, pid);
    var cs := t.procs[pid].children;
    assert ListOk(t.procs, pid) && ListOk(t.procs, cs[FirstZombie(t.procs, cs)]);
  }

  lemma ExitChildless(t: Table, pid: nat, status: int, t': Table)
    requires Inv(t) && Steps(t, Exit(pid, status), t') && t.procs[pid].children == []
    ensures var parent := t.procs[pid].parent;
            && t'.procs[pid] == t.procs[pid].(state := -1, status := status, reaping := false)
            && parent != pid && parent < SLOTS
            && t'.procs[parent] == t.procs[parent].(signal := SetSignal(t.procs[parent].signal, 17))
            && forall p :: 0 <= p < SLOTS && p != pid && p != parent ==> t'.procs[p] == t.procs[p]
  {
    assert OnList(t.procs, pid);
    ParentIsLive(t.procs, pid);
  }

  /** A program that is loaded and exits: a zombie with its status, first on the list of its parent, which is told. */
  lemma ExecExit(t: Table, cur: nat, status: int, t1: Table, t2: Table)
    requires Inv(t) && Steps(t, Exec(cur, true), t1) && Steps(t1, Exit(Slot(t.procs, 1), status), t2)
    ensures Inv(t2) && Enabled(t2, LeaveSpin(cur)) && t2.nProc == t.nProc
    ensures var pid := Slot(t.procs, 1);
            && t2.procs[pid] == Proc(-1, cur, [], 0, false, status)
            && t2.procs[cur] == t.procs[cur].(children := [pid] + t.procs[cur].children,
                                              signal := SetSignal(t.procs[cur].signal, 17))
            && forall p :: 0 <= p < SLOTS && p != cur && p != pid ==> t2.procs[p] == t.procs[p]
  {
    var pid := Slot(t.procs, 1);
    ExecExact(t, cur, true, t1);
    StepKeepsInv(t, Exec(cur, true), t1);
    ExitChildless(t1, pid, status, t2);
    StepKeepsInv(t1, Exit(pid, status), t2);
  }

  /** Leaving the spin and scanning, when the first child is a zombie. */
  lemma WaitFirst(t: Table, cur: nat, z: nat, t1: Table, t2: Table)
    requires Inv(t) && Steps(t, LeaveSpin(cur), t1) && Steps(t1, Reap(cur), t2)
    requires z < SLOTS && z != cur && t.procs[z].state == -1
    requires t.procs[cur].children != [] && t.procs[cur].children[0] == z
    ensures FirstZombie(t1.procs, t1.procs[cur].children) == 0 && t2.nProc == t.nProc
    ensures t1.procs == t.procs[cur := t.procs[cur].(reaping := true)]
    ensures t2.procs[z] == t.procs[z].(state := 0)
    ensures t2.procs[cur] == t.procs[cur].(children := t.procs[cur].children[1..], reaping := false,
                                           signal := ClearSignal(t.procs[cur].signal, 17))
    ensures forall p :: 0 <= p < SLOTS && p != cur && p != z ==> t2.procs[p] == t.procs[p]
  {
    var cs := t.procs[cur].children;
    assert cs[..0] + cs[1..] == cs[1..];
    assert t1.procs[z].state == -1 && t1.procs[cur].children == cs;
  }

  /**
   A program that is loaded, exits and is waited for: the wait finds that program and its status, and leaves the table
   as it was before the load, apart from the slot of the program and the SIGCHLD bit and the wait of its parent.
   */
  lemma ExecExitWait(t: Table, cur: nat, status: int, t1: Table, t2: Table, t3: Table, t4: Table)
    requires Inv(t) && Steps(t, Exec(cur, true), t1) && Steps(t1, Exit(Slot(t.procs, 1), status), t2)
    requires Steps(t2, LeaveSpin(cur), t3) && Steps(t3, Reap(cur), t4)
    ensures var pid := Slot(t.procs, 1);
            && FirstZombie(t3.procs, t3.procs[cur].children) == 0 && t3.procs[cur].children[0] == pid
            && t3.procs[pid].status == status && t4.procs[pid].state == 0 && t4.nProc == t.nProc
            && t4.procs[cur] == t.procs[cur].(signal := t4.procs[cur].signal, reaping := false)
            && forall p :: 0 <= p < SLOTS && p != cur && p != pid ==> t4.procs[p] == t.procs[p]
  {
    var pid := Slot(t.procs, 1);
    ExecExact(t, cur, true, t1);
    ExecExit(t, cur, status, t1, t2);
    WaitFirst(t2, cur, pid, t3, t4);
    assert ([pid] + t.procs[cur].children)[1..] == t.procs[cur].children;
  }

  // ---- runs

  ghost predicate IsRun(ts: seq<Table>, es: seq<Event>) {
    && |ts| == |es| + 1 && Initial(ts[0])
    && forall k :: 0 <= k < |es| ==> Steps(ts[k], es[k], ts[k + 1])
  }

  lemma {:induction false} CountFree(procs: seq<Proc>, n: nat)
    requires 1 <= n <= |procs| && forall i :: 1 <= i < n ==> procs[i].state == 0
    ensures LiveCount(procs, n) == 0
  {
    if n > 1 {
      CountFree(procs, n - 1);
    }
  }

  lemma InitialInv(t: Table)
    requires Initial(t)
    ensures Inv(t)
  {
    CountFree(t.procs, SLOTS);
    PendingZero(SIGCHLD);
  }

  /** The process tree, the pending SIGCHLDs and n_proc agree in every state of every run. */
  lemma {:induction false} RunInvariant(ts: seq<Table>, es: seq<Event>, k: nat)
    requires IsRun(ts, es) && k < |ts|
    ensures Inv(ts[k])
  {
    if k == 0 {
      InitialInv(ts[0]);
    } else {
      RunInvariant(ts, es, k - 1);
      StepKeepsInv(ts[k - 1], es[k - 1], ts[k]);
    }
  }

  /** In every run, a load by cur makes one free slot a child of cur, the first on its list, and changes no other. */
  lemma {:induction false} RunExec(ts: seq<Table>, es: seq<Event>, k: nat, cur: nat)
    requires IsRun(ts, es) && k < |es| && es[k] == Exec(cur, true)
    ensures exists pid :: 1 <= pid < |ts[k].procs| && ts[k].procs[pid].state == 0 && cur < |ts[k].procs|
                          && ts[k + 1].procs == ts[k].procs[pid := Proc(1, cur, [], 0, false, 0)]
                                     [cur := ts[k].procs[cur].(children := [pid] + ts[k].procs[cur].children)]
  {
    RunInvariant(ts, es, k);
    ExecExact(ts[k], cur, true, ts[k + 1]);
  }

  /** In every reachable state whoever may scan its children for a dead one finds one, and frees it. */
  lemma {:induction false} RunReapFinds(ts: seq<Table>, es: seq<Event>, k: nat, pid: nat)
    requires IsRun(ts, es) && k < |ts| && Enabled(ts[k], Reap(pid))
    ensures var t := ts[k]; var cs := t.procs[pid].children;
            InTable(t.procs, cs) && var z := FirstZombie(t.procs, cs);
            z < |cs| && |AfterReap(t, pid).procs| == SLOTS && AfterReap(t, pid).procs[cs[z]].state == 0
  {
    RunInvariant(ts, es, k);
    ReapFinds(ts[k], pid);
    var cs := ts[k].procs[pid].children;
    assert ListOk(ts[k].procs, pid) && ListOk(ts[k].procs, cs[FirstZombie(ts[k].procs, cs)]);
  }

  /** In every reachable state the parent of a process that is not free is live and lists it. */
  lemma {:induction false} RunParentIsLive(ts: seq<Table>, es: seq<Event>, k: nat, c: nat)
    requires IsRun(ts, es) && k < |ts| && 1 <= c < |ts[k].procs| && ts[k].procs[c].state != 0
    ensures var p := ts[k].procs[c].parent;
            p < |ts[k].procs| && Live(ts[k].procs[p]) && c in ts[k].procs[p].children
    ensures |ts[k].procs| == 33
    ensures ts[k].nProc == |set p | 1 <= p < 33 && ts[k].procs[p].state > 0| + ts[k].failed
  {
    RunInvariant(ts, es, k);
    LiveCountIs(ts[k].procs, SLOTS);
    assert OnList(ts[k].procs, c);
    ParentIsLive(ts[k].procs, c);
  }

  /** The slot search runs past the table exactly when no slot from 1 to MAXPID is free. */
  lemma SlotBounds(procs: seq<Proc>)
    requires |procs| == 33
    ensures Slot(procs, 1) == 33 <==> forall i :: 1 <= i <= 32 ==> procs[i].state != 0
  {
  }

  /**
   A kill that raises the SIGCHLD bit is the one thing that would break reaping: afterwards everyone who has been told
   has a dead child exactly if the target is not live, or has one already.
   */
  lemma KillChildExact(t: Table, pid: nat, sig: int)
    requires Inv(t) && pid < SLOTS && sig % 32 == SIGCHLD
    ensures var p := t.procs[pid];
            Told(AfterKill(t, pid, sig).procs) <==>
            !Live(p) || exists c :: c in p.children && 0 <= c < SLOTS && Zombie(t.procs[c])
  {
    var p := t.procs[pid];
    if Live(p) {
      SetSame(p.signal, SIGCHLD, sig);
      assert AfterKill(t, pid, sig).procs == Raised(t, pid);
      ToldNeedsZombie(t, pid);
      if c :| c in p.children && 0 <= c < SLOTS && Zombie(t.procs[c]) {
        ZombieKeepsTold(t, pid, c);
      }
    }
  }

  /** The table with SIGCHLD raised for pid. */
  function Raised(t: Table, pid: nat): seq<Proc>
    requires pid < |t.procs|
  {
    t.procs[pid := t.procs[pid].(signal := SetSignal(t.procs[pid].signal, SIGCHLD))]
  }

  lemma ToldNeedsZombie(t: Table, pid: nat)
    requires |t.procs| == SLOTS && pid < SLOTS && Live(t.procs[pid])
    ensures Told(Raised(t, pid)) ==>
              exists c :: c in t.procs[pid].children && 0 <= c < SLOTS && Zombie(t.procs[c])
  {
    var procs' := Raised(t, pid);
    if Told(procs') {
      assert Pending(procs'[pid].signal, SIGCHLD);
      var d :| d in procs'[pid].children && 0 <= d < |procs'| && Zombie(procs'[d]);
      assert d in t.procs[pid].children && Zombie(t.procs[d]);
    }
  }

  lemma ZombieKeepsTold(t: Table, pid: nat, c: nat)
    requires |t.procs| == SLOTS && pid < SLOTS && Told(t.procs)
    requires c in t.procs[pid].children && c < SLOTS && Zombie(t.procs[c])
    ensures Told(Raised(t, pid))
  {
    var procs' := Raised(t, pid);
    forall q | 0 <= q < SLOTS && Live(procs'[q]) && (Pending(procs'[q].signal, SIGCHLD) || procs'[q].reaping)
      ensures exists d :: d in procs'[q].children && 0 <= d < |procs'| && Zombie(procs'[d])
    {
      if q == pid {
        assert c in procs'[q].children && Zombie(procs'[c]);
      } else {
        var d :| d in t.procs[q].children && 0 <= d < SLOTS && Zombie(t.procs[d]);
        assert d in procs'[q].children && Zombie(procs'[d]);
      }
    }
  }

  /**
   Process 0 loads a program and sends it any number that raises SIGCHLD; the program waits, leaves the spin, and
   finds no dead child.
   */
  lemma KillChildRun(t: Table, sig: int)
    requires Initial(t) && sig % 32 == SIGCHLD
    ensures var t1 := AfterExec(t, 0, true);
            var t2 := AfterKill(t1, 1, sig);
            && Steps(t, Exec(0, true), t1)
            && Enabled(t2, LeaveSpin(1))
            && var t3 := t2.(procs := t2.procs[1 := t2.procs[1].(reaping := true)]);
               && Steps(t2, LeaveSpin(1), t3) && Enabled(t3, Reap(1))
               && t3.procs[1].children == [] && FirstZombie(t3.procs, []) == 0
               && AfterReap(t3, 1).procs == t2.procs
  {
    assert Slot(t.procs, 1) == 1;
    var t2 := AfterKill(AfterExec(t, 0, true), 1, sig);
    assert Pending(t2.procs[1].signal, SIGCHLD) by {
      SetSame(0, SIGCHLD, sig);
    }
    var t3 := t2.(procs := t2.procs[1 := t2.procs[1].(reaping := true)]);
    assert AfterReap(t3, 1).procs == t3.procs[1 := t3.procs[1].(reaping := false)];
    assert t3.procs[1].(reaping := false) == t2.procs[1];
  }

  // ---- the code

  class ProcessTable {
    var procs: seq<Proc>
    var nProc: int
    ghost var failed: nat

    ghost function View(): Table
      reads this
    {
      Table(procs, nProc, failed)
    }

    /** kmain: process 0 is the kernel thread. */
    constructor ()
      ensures Initial(View())
    {
      procs := [Proc(1, 0, [], 0, false, 0)] + seq(MAXPID, _ => FreeSlot);
      nProc := 0;
      failed := 0;
    }

    /** The slot search of load_task. */
    method FindSlot() returns (pid: nat)
      requires |procs| == SLOTS && Slot(procs, 1) < SLOTS
      ensures pid == Slot(procs, 1)
    {
      pid := 1;
      while procs[pid].state != 0
        invariant 1 <= pid < SLOTS && Slot(procs, pid) == Slot(procs, 1)
        decreases SLOTS - pid
      {
        pid := pid + 1;
      }
    }

    /** load_task, as far as the process table is concerned; 0 means failure. */
    method LoadTask(cur: nat, loaded: bool) returns (pid: nat)
      requires Inv(View()) && Enabled(View(), Exec(cur, loaded))
      modifies this
      ensures Steps(old(View()), Exec(cur, loaded), View()) && Inv(View())
      ensures nProc == old(nProc) + 1
      ensures !loaded ==> pid == 0 && procs == old(procs)
      ensures loaded ==>
                && 1 <= pid < SLOTS && old(procs)[pid].state == 0
                && (forall i :: 1 <= i < pid ==> old(procs)[i].state != 0)
                && procs == old(procs)[pid := Proc(1, cur, [], 0, false, 0)]
                            [cur := old(procs)[cur].(children := [pid] + old(procs)[cur].children)]
    {
      ghost var t := View();
      pid := FindSlot();
      nProc := nProc + 1;
      if !loaded {
        failed := failed + 1;
        pid := 0;
      } else {
        var parent := if procs[cur].state != 0 then cur else 0;
        procs := procs[pid := Proc(1, parent, [], 0, false, 0)];
        procs := procs[parent := procs[parent].(children := [pid] + procs[parent].children)];
      }
      StepKeepsInv(t, Exec(cur, loaded), View());
    }

    /** The loop of sys_exit that hands the children of pid to process 0. */
    method GiveAwayChildren(pid: nat)
      requires |procs| == SLOTS && 1 <= pid < SLOTS && InTable(procs, procs[pid].children)
      requires pid !in procs[pid].children
      modifies `procs
      ensures |procs| == SLOTS
      ensures procs == Reparent(old(procs)[pid := old(procs)[pid].(children := [])], old(procs)[pid].children)
    {
      var rest := procs[pid].children;
      ghost var result := Reparent(procs[pid := procs[pid].(children := [])], rest);
      procs := procs[pid := procs[pid].(children := [])];
      while rest != []
        invariant |procs| == SLOTS && InTable(procs, rest) && Reparent(procs, rest) == result
        decreases |rest|
      {
        var c := rest[0];
        procs := procs[c := procs[c].(parent := 0)];
        procs := procs[0 := procs[0].(children := [c] + procs[0].children)];
        rest := rest[1..];
      }
    }

    /** sys_exit, as far as the process table is concerned. */
    method SysExit(pid: nat, status: int)
      requires Inv(View()) && Enabled(View(), Exit(pid, status))
      modifies this
      ensures Steps(old(View()), Exit(pid, status), View()) && Inv(View())
      ensures nProc == old(nProc) - 1
      ensures procs[pid] == old(procs)[pid].(state := -1, status := status, reaping := false, children := [])
      ensures forall p :: 0 <= p < SLOTS && p != pid ==>
                && procs[p].parent == (if p in old(procs)[pid].children then 0 else old(procs)[p].parent)
                && procs[p].signal == (if p == old(procs)[pid].parent then SetSignal(old(procs)[p].signal, 17)
                                       else old(procs)[p].signal)
                && (p != 0 ==> procs[p].children == old(procs)[p].children)
      ensures procs[0].children == Rev(old(procs)[pid].children) + old(procs)[0].children
    {
      ghost var t := View();
      assert ListOk(procs, pid) && OnList(procs, pid);
      nProc := nProc - 1;
      procs := procs[pid := procs[pid].(state := -1, status := status, reaping := false)];
      var parent := procs[pid].parent;
      if Live(procs[parent]) {
        procs := procs[parent := procs[parent].(signal := SetSignal(procs[parent].signal, SIGCHLD))];
      }
      GiveAwayChildren(pid);
      assert View() == AfterExit(t, pid, status);
      ExitIs(t, pid, status);
      ParentIsLive(t.procs, pid);
      StepKeepsInv(t, Exit(pid, status), View());
    }

    /** The scan of sys_wait after its spin: the pid and exit status of a dead child, whose slot is freed. */
    method SysWait(pid: nat) returns (child: nat, status: int)
      requires Inv(View()) && Enabled(View(), Reap(pid))
      modifies this
      ensures Steps(old(View()), Reap(pid), View()) && Inv(View())
      ensures child in old(procs)[pid].children && child < SLOTS
      ensures Zombie(old(procs)[child]) && status == old(procs)[child].status
      ensures exists k :: 0 <= k < |old(procs)[pid].children| && ScannedTo(old(procs), procs, pid, k, child)
    {
      ghost var t := View();
      ReapFinds(t, pid);
      assert ListOk(procs, pid);
      var cs := procs[pid].children;
      var k := 0;
      while procs[cs[k]].state != -1
        invariant 0 <= k < |cs| && procs == t.procs && nProc == t.nProc && failed == t.failed
        invariant forall i :: 0 <= i < k ==> !Zombie(procs[cs[i]])
        invariant k <= FirstZombie(procs, cs)
        decreases |cs| - k
      {
        k := k + 1;
      }
      assert k == FirstZombie(procs, cs);
      child := cs[k];
      status := procs[child].status;
      procs := procs[child := procs[child].(state := 0)];
      procs := procs[pid := procs[pid].(children := cs[..k] + cs[k + 1..],
                                        signal := ClearSignal(procs[pid].signal, SIGCHLD), reaping := false)];
      assert ListOk(t.procs, child);
      assert ScannedTo(t.procs, procs, pid, k, child);
      StepKeepsInv(t, Reap(pid), View());
    }

    /** sys_kill, for any number: 0 if the target is live, -1 otherwise. */
    method SysKill(pid: nat, sig: int) returns (r: int)
      requires Inv(View()) && pid < SLOTS
      modifies `procs
      ensures |procs| == SLOTS
      ensures old(procs)[pid].state <= 0 ==> r == -1 && procs == old(procs)
      ensures old(procs)[pid].state > 0 ==>
                r == 0 && procs == old(procs)[pid := old(procs)[pid].(signal := procs[pid].signal)]
      ensures old(procs)[pid].state > 0 ==> forall s :: 1 <= s <= 32 ==>
                (Pending(procs[pid].signal, s) <==> Pending(old(procs)[pid].signal, s) || s == (sig - 1) % 32 + 1)
      ensures View() == AfterKill(old(View()), pid, sig) && (sig % 32 != 17 ==> Inv(View()))
    {
      ghost var t := View();
      if procs[pid].state > 0 {
        procs := procs[pid := procs[pid].(signal := SetSignal(procs[pid].signal, sig))];
        r := 0;
      } else {
        r := -1;
      }
      if sig % 32 != 17 {
        KillKeepsInv(t, pid, sig);
      }
    }

    /** The signal part of schedule for process pid: the lowest pending signal and what handle_signal does with it. */
    method DeliverSignal(pid: nat, h: Handler) returns (sig: nat)
      requires Inv(View()) && 1 <= pid < SLOTS && Live(procs[pid])
      modifies this
      ensures Inv(View()) && sig <= 32
      ensures forall s :: 1 <= s <= 32 && Pending(old(procs)[pid].signal, s) ==> 1 <= sig <= s
      ensures sig == 0 ==> View() == old(View())
      ensures sig != 0 ==> Pending(old(procs)[pid].signal, sig)
      ensures sig != 0 && h == Default && sig <= 3 ==> Steps(old(View()), Exit(pid, 1), View())
      ensures sig != 0 && !(h == Default && sig <= 3) ==>
                && nProc == old(nProc) && procs == old(procs)[pid := old(procs)[pid].(signal := procs[pid].signal)]
                && forall s :: 1 <= s <= 32 ==>
                     (Pending(procs[pid].signal, s) <==>
                      Pending(old(procs)[pid].signal, s) && (s != sig || (sig == 17 && h != Ignore)))
    {
      ghost var t := View();
      sig := DequeueSignal(Signed(procs[pid].signal));
      if sig == 0 {
        return;
      }
      if h == Default && sig in {1, 2, 3} {
        SysExit(pid, 1);
        return;
      }
      procs := procs[pid := procs[pid].(signal := MaskAfter(procs[pid].signal, sig, h))];
      StepKeepsInv(t, Deliver(pid, sig, h), View());
    }
  }
}
