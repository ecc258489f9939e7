/** kernel/sched.c on task records in memory, with the descriptor code of
    kernel/syscall.c and the end counters of kernel/pipe.c. */
module Sched {
  import opened SchedModel
  import opened Sets

  ghost function Follow(ring: seq<nat>, i: nat): nat
    requires i < |ring|
  {
    if i + 1 < |ring| then ring[i + 1] else ring[0]
  }

  /** Position `k` of the ring, counting on around it. */
  ghost function At(ring: seq<nat>, k: nat): nat
    requires ring != [] && k <= |ring|
  {
    if k < |ring| then ring[k] else ring[0]
  }

  /** The `next` pointers are one cycle through `ring`. */
  ghost predicate Linked(next: map<nat, nat>, ring: seq<nat>) {
    forall i :: 0 <= i < |ring| ==> ring[i] in next && next[ring[i]] == Follow(ring, i)
  }

  lemma RotateLinked(next: map<nat, nat>, ring: seq<nat>, k: nat)
    requires Linked(next, ring) && k <= |ring|
    ensures Linked(next, ring[k..] + ring[..k])
  {
    var r := ring[k..] + ring[..k];
    forall i | 0 <= i < |r| ensures r[i] in next && next[r[i]] == Follow(r, i) {
      var j := if i < |ring| - k then i + k else i - (|ring| - k);
      assert r[i] == ring[j] && next[ring[j]] == Follow(ring, j);
    }
  }

  lemma InsertLinked(next: map<nat, nat>, ring: seq<nat>, child: nat, now: map<nat, nat>)
    requires Linked(next, ring) && ring != [] && Distinct(ring) && child !in ring
    requires now == next[child := next[ring[0]]][ring[0] := child]
    ensures Linked(now, [ring[0], child] + ring[1..])
  {
    var r := [ring[0], child] + ring[1..];
    forall i | 0 <= i < |r| ensures r[i] in now && now[r[i]] == Follow(r, i) {
      if i == 1 {
        assert next[ring[0]] == Follow(ring, 0);
      } else if i > 1 {
        assert r[i] == ring[i - 1] && next[ring[i - 1]] == Follow(ring, i - 1) && ring[0] != ring[i - 1];
      }
    }
  }

  lemma RemoveLinked(next: map<nat, nat>, ring: seq<nat>, k: nat, now: map<nat, nat>)
    requires Linked(next, ring) && Distinct(ring) && 0 < k < |ring|
    requires now == next[ring[k - 1] := next[ring[k]]]
    ensures Linked(now, ring[..k] + ring[k + 1..])
  {
    var r := ring[..k] + ring[k + 1..];
    forall i | 0 <= i < |r| ensures r[i] in now && now[r[i]] == Follow(r, i) { LinkRemoved(next, ring, k, now, i); }
  }

  lemma LinkRemoved(next: map<nat, nat>, ring: seq<nat>, k: nat, now: map<nat, nat>, i: nat)
    requires Linked(next, ring) && Distinct(ring) && 0 < k < |ring| && i + 1 < |ring|
    requires now == next[ring[k - 1] := next[ring[k]]]
    ensures var r := ring[..k] + ring[k + 1..]; r[i] in now && now[r[i]] == Follow(r, i)
  {
    var j := if i < k then i else i + 1;
    FollowRemoved(ring, k, i);
    hide Follow;
    assert next[ring[j]] == Follow(ring, j) && next[ring[k]] == Follow(ring, k);
  }

  lemma FollowRemoved(ring: seq<nat>, k: nat, i: nat)
    requires 0 < k < |ring| && i + 1 < |ring|
    ensures Follow(ring[..k] + ring[k + 1..], i) ==
            Follow(ring, if i < k - 1 then i else if i == k - 1 then k else i + 1)
  {
  }

  class Scheduler {
    var tasks: map<nat, Task>
    var next: map<nat, nat>
    var current: nat
    var pipes: seq<Ends>
    var nextPid: nat
    ghost var ring: seq<nat>

    ghost function S(): Sys
      reads this
    {
      Sys(tasks, ring, pipes, nextPid)
    }

    /** The run queue is a cycle through `ring`, which starts at the current task. */
    ghost predicate Queue()
      reads this
    {
      Shaped(S()) && Linked(next, ring) && current == ring[0]
    }

    ghost predicate Valid()
      reads this
    {
      Queue() && Inv(S())
    }

    /** sched_init: the boot task alone. */
    constructor (boot: nat)
      ensures Valid() && current == boot && tasks.Keys == {boot} && tasks[boot].state == Running
    {
      tasks := map[boot := Task(0, Running, 0, 0, 0, false, false, NoFds())];
      next := map[boot := boot];
      current, nextPid, ring := boot, 1, [boot];
      pipes := seq(PIPES, _ => Ends(0, 0));
      new;
      forall p, write | 0 <= p < PIPES ensures End(pipes[p], write) == Count(tasks, ring, p, write) {
        FdCountNone(NoFds(), p, write);
        assert ring[..0] == [];
      }
    }

    /** The skip loop of schedule: the next task that is neither ZOMBIE nor
        BLOCKED, or the current one if there is none. */
    method NextEligible() returns (nx: nat, ghost k: nat)
      requires Queue()
      ensures 1 <= k <= |ring| && nx == At(ring, k) && k == Pick(tasks, ring, 1)
      ensures nx == current <==> k == |ring|
    {
      hide Shaped, Linked, Distinct, Pick, At, Passed;
      PassedNone(S());
      NextIs(next, ring, 0);
      nx := next[current];
      k := 1;
      while nx != current && (tasks[nx].state == Zombie || tasks[nx].state == Blocked)
        invariant 1 <= k <= |ring| && nx == At(ring, k) && (nx == current <==> k == |ring|)
        invariant Passed(tasks, ring, k) && nx in tasks
        decreases |ring| - k
      {
        PassedNext(tasks, ring, k);
        NextIs(next, ring, k);
        nx := next[nx];
        k := k + 1;
      }
      PassedAll(tasks, ring, k);
    }

    /** schedule. */
    method Schedule()
      requires Queue()
      modifies this`tasks, this`current, this`ring
      ensures Queue() && S() == Dispatch(old(S()))
    {
      RingFacts(S());
      hide Linked, Shaped, Dispatch, Pick;
      var nx;
      ghost var k;
      nx, k := NextEligible();
      DispatchShaped(S());
      DispatchIs(S(), k);
      RotateLinked(next, ring, k);
      if nx == current { return; }
      if tasks[current].state == Running {
        tasks := tasks[current := tasks[current].(state := Ready)];
      } else {
        UpdateSame(tasks, current);
      }
      tasks := tasks[nx := tasks[nx].(state := Running)];
      current := nx;
      ring := ring[k..] + ring[..k];
    }

    /** release_pipe_fds. */
    method ReleasePipeFds(a: nat)
      requires a in tasks && |tasks[a].fds| == FDS
      modifies this`tasks, this`pipes
      ensures tasks == old(tasks)[a := old(tasks[a]).(fds := NoPipes(old(tasks[a].fds)))]
      ensures pipes == CloseAll(old(pipes), old(tasks[a].fds))
    {
      hide CloseEnd, CloseAll, NoPipes, Sweep;
      ghost var t := tasks[a];
      UpdateSame(tasks, a);
      Swept(t.fds);
      CloseAllStep(pipes, t.fds, 0);
      for i := 0 to FDS
        invariant a in tasks && tasks == old(tasks)[a := t.(fds := Sweep(t.fds, i))]
        invariant pipes == CloseAll(old(pipes), t.fds[..i])
      {
        SweepStep(t.fds, i);
        CloseAllStep(old(pipes), t.fds, i);
        var fd := tasks[a].fds[i];
        if fd.PipeFd? {
          tasks := tasks[a := tasks[a].(fds := tasks[a].fds[i := Free])];
          pipes := CloseEnd(pipes, fd);
        }
      }
      assert t.fds[..FDS] == t.fds;
    }

    /** The body of the first loop of sched_tick. */
    method SignalTask(a: nat, now: nat)
      requires a in tasks && |tasks[a].fds| == FDS
      modifies this`tasks, this`pipes
      ensures tasks == old(tasks)[a := Signal(old(tasks[a]), now)]
      ensures pipes == if Dies(old(tasks[a])) then CloseAll(old(pipes), old(tasks[a].fds)) else old(pipes)
    {
      UpdateSame(tasks, a);
      if tasks[a].state == Blocked && tasks[a].wake != 0 && now >= tasks[a].wake {
        tasks := tasks[a := tasks[a].(wake := 0, state := Ready)];
      }
      if tasks[a].kill && tasks[a].state != Zombie {
        tasks := tasks[a := tasks[a].(kill := false)];
        ReleasePipeFds(a);
        tasks := tasks[a := tasks[a].(code := -9, state := Zombie)];
      }
    }

    /** The first loop of sched_tick: sleepers whose time has come and SIGKILL. */
    method DeliverSignals(now: nat)
      requires Queue()
      modifies this`tasks, this`pipes
      ensures Queue() && S() == Signals(old(S()), now)
    {
      hide Signal, Signals, SignalPipes, Dies, Upto, Linked, Shaped, CloseAll;
      ghost var s := S();
      UptoStart(s, now);
      var t := current;
      ghost var k := 0;
      while true
        invariant 0 <= k < |ring| && t == ring[k] && Upto(s, now, k, tasks) && pipes == SignalPipes(s, now, k)
        decreases |ring| - k
      {
        ghost var before := tasks;
        UptoAt(s, now, k, tasks);
        SignalTask(t, now);
        UptoStep(s, now, k, before, tasks);
        NextIs(next, ring, k);
        t := next[t];
        k := k + 1;
        if t == current { break; }
      }
      UptoEnd(s, now, S());
    }

    /** The innermost loop of sched_tick. */
    method ScanZombieChild(pid: nat) returns (found: bool)
      requires Queue()
      ensures found <==> HasZombieChild(tasks, pid)
    {
      RingFacts(S());
      hide Shaped, Linked, Distinct, HasZombieChild;
      var c := current;
      ghost var k := 0;
      while true
        invariant 0 <= k < |ring| && c == ring[k]
        invariant forall i :: 0 <= i < k ==> !(tasks[ring[i]].state == Zombie && tasks[ring[i]].parent == pid)
        decreases |ring| - k
      {
        if tasks[c].state == Zombie && tasks[c].parent == pid {
          ZombieChildAt(S(), pid, k);
          return true;
        }
        NextIs(next, ring, k);
        c := next[c];
        k := k + 1;
        if c == current { break; }
      }
      NoZombieChild(S(), pid);
      found := false;
    }

    /** The second loop of sched_tick: waiters that have a zombie child. */
    method WakeAllWaiters()
      requires Queue()
      modifies this`tasks
      ensures Queue() && S() == WakeWaiters(old(S()))
    {
      hide Woken, WakeWaiters, WokenUpto, HasZombieChild, Linked, FdsOk;
      ghost var s := S();
      WokenStart(s);
      var t := current;
      ghost var k := 0;
      while true
        invariant 0 <= k < |ring| && t == ring[k] && WokenUpto(s, k, tasks) && Shaped(S())
        decreases |ring| - k
      {
        ghost var before := tasks;
        WokenStep(s, k, tasks);
        if tasks[t].state == Blocked && tasks[t].waiting {
          var found := ScanZombieChild(tasks[t].pid);
          if found { tasks := tasks[t := tasks[t].(waiting := false, state := Ready)]; }
        }
        NextIs(next, ring, k);
        t := next[t];
        k := k + 1;
        if t == current { break; }
      }
      WokenEnd(s, S());
    }

    /** sched_tick. */
    method TimerTick(now: nat)
      requires Valid()
      modifies this`tasks, this`pipes, this`current, this`ring
      ensures Valid() && S() == Next(old(S()), Tick(now))
    {
      StepInv(S(), Tick(now));
      hide Inv, Signals, WakeWaiters, Dispatch;
      DeliverSignals(now);
      WakeAllWaiters();
      Schedule();
    }

    /** sched_yield. */
    method YieldCpu()
      requires Valid()
      modifies this`tasks, this`current, this`ring
      ensures Valid() && S() == Next(old(S()), Yield)
    {
      StepInv(S(), Yield);
      hide Inv, Dispatch;
      Schedule();
    }

    /** sched_sleep, at tick `now`. */
    method SleepFor(now: nat, ms: nat)
      requires Valid()
      modifies this`tasks, this`current, this`ring
      ensures Valid() && S() == Next(old(S()), Sleep(now, ms))
    {
      InvShaped(S());
      BeforeSleep(S(), now, ms);
      hide Inv, Dispatch, Next, Shaped, Linked, Before, WakeAt;
      if ms != 0 {
        tasks := tasks[current := tasks[current].(wake := WakeAt(now, ms), state := Blocked)];
      }
      Schedule();
    }

    /** sched_block. */
    method BlockSelf()
      requires Valid()
      modifies this`tasks, this`current, this`ring
      ensures Valid() && S() == Next(old(S()), Block)
    {
      InvShaped(S());
      BeforeBlock(S());
      hide Inv, Dispatch, Next, Shaped, Linked, Before;
      tasks := tasks[current := tasks[current].(state := Blocked)];
      Schedule();
    }

    /** sched_wake. */
    method WakeTask(t: nat)
      requires Valid() && t in tasks
      modifies this`tasks
      ensures Valid() && S() == Next(old(S()), Wake(t))
    {
      StepInv(S(), Wake(t));
      NextWake(S(), t);
      hide Inv, Next, Shaped, Linked;
      if tasks[t].state == Blocked {
        tasks := tasks[t := tasks[t].(wake := 0, state := Ready)];
      }
      InvShaped(S());
    }

    /** The search of sched_exit for a waiting parent. */
    method ScanWaiter(pid: nat) returns (p: nat, ghost k: nat)
      requires Queue()
      ensures ring != [] && k == Waiter(tasks, ring, pid, 1) && p == At(ring, k) && (p == current <==> k == |ring|)
    {
      RingFacts(S());
      hide Shaped, Linked, Distinct, Waiter;
      NextIs(next, ring, 0);
      p := next[current];
      k := 1;
      while p != current
        invariant 1 <= k <= |ring| && p == At(ring, k) && (p == current <==> k == |ring|)
        invariant forall i :: 1 <= i < k ==> !(tasks[ring[i]].pid == pid && tasks[ring[i]].waiting)
        decreases |ring| - k
      {
        if tasks[p].pid == pid && tasks[p].waiting { break; }
        NextIs(next, ring, k);
        p := next[p];
        k := k + 1;
      }
      WaiterIs(tasks, ring, pid, k);
    }

    /** sys_exit and sched_exit. */
    method ExitTask(code: int)
      requires Valid()
      modifies this`tasks, this`pipes, this`current, this`ring
      ensures Valid() && S() == Next(old(S()), Exit(code))
    {
      hide Inv, Dispatch, CloseAll, NoPipes, Waiter, Dead, WakeParent, Next, Shaped, Linked, Before;
      ghost var s := S();
      BeforeExit(s, code);
      TableShape(s);
      tasks := tasks[current := tasks[current].(code := code)];
      ReleasePipeFds(current);
      tasks := tasks[current := tasks[current].(state := Zombie)];
      DeadIs(s, code, S());
      ghost var d := S();
      if tasks[current].parent != 0 {
        var p;
        ghost var k;
        p, k := ScanWaiter(tasks[current].parent);
        WakeParentIs(d, k);
        if p != current {
          tasks := tasks[p := tasks[p].(waiting := false, state := Ready)];
        }
      } else {
        WakeParentIs(d, 0);
      }
      assert S() == WakeParent(d);
      Schedule();
    }

    /** The scans of sched_wait: the first child, or zombie child, and its predecessor. */
    method ScanChild(pid: nat, zombie: bool) returns (t: nat, prev: nat, ghost k: nat)
      requires Queue()
      ensures ring != [] && k == Child(tasks, ring, pid, zombie, 1) && t == At(ring, k)
      ensures (t == current <==> k == |ring|) && (k < |ring| ==> prev == ring[k - 1])
    {
      RingFacts(S());
      hide Shaped, Linked, Distinct, Child, IsChild;
      NextIs(next, ring, 0);
      prev, t := current, next[current];
      k := 1;
      while t != current
        invariant 1 <= k <= |ring| && t == At(ring, k) && (t == current <==> k == |ring|) && prev == ring[k - 1]
        invariant Child(tasks, ring, pid, zombie, 1) == Child(tasks, ring, pid, zombie, k)
        decreases |ring| - k
      {
        ChildStep(tasks, ring, pid, zombie, k);
        if IsChild(tasks[t], pid, zombie) { return; }
        NextIs(next, ring, k);
        prev, t := t, next[t];
        k := k + 1;
      }
    }

    /** One turn of the loop of sched_wait.  It is over when a zombie child has been
        reaped, or when the caller has no child at all and gets -1. */
    method WaitTurn() returns (over: bool, pid: int, code: int)
      requires Valid()
      modifies this`tasks, this`next, this`current, this`ring
      ensures Valid() && S() == Next(old(S()), Wait)
      ensures over && pid == -1 ==> S() == old(S())
      ensures over && pid == -1 <==> !HasChild(old(S()), false)
      ensures over && pid != -1 <==> HasChild(old(S()), true)
      ensures over && pid != -1 ==> FirstReaped(old(S()), pid, code, S())
    {
      hide FirstReaped, HasChild;
      hide Inv, Next, Linked, Child, Dispatch, Shaped, Reaped;
      ghost var s := S();
      StepInv(s, Wait);
      var t, prev;
      ghost var k;
      RingFacts(s);
      t, prev, k := ScanChild(tasks[current].pid, true);
      if t != current {
        FirstZombie(s, k);
        pid, code := Reap(t, prev, k);
        ReapedFirst(s, k, pid, code, S());
        over := true;
        return;
      }
      ghost var j;
      var c, before;
      c, before, j := ScanChild(tasks[current].pid, false);
      NextNoZombie(s, k, j);
      NoChildFound(s, k, j);
      if c == current { return true, -1, 0; }
      over, pid, code := false, 0, 0;
      tasks := tasks[current := tasks[current].(waiting := true, state := Blocked)];
      Schedule();
    }

    /** Splice a zombie child out of the queue and free its record. */
    method Reap(t: nat, prev: nat, ghost k: nat) returns (pid: int, code: int)
      requires Valid() && Enabled(S(), Wait) && k == Child(tasks, ring, tasks[current].pid, true, 1) < |ring|
      requires t == ring[k] && prev == ring[k - 1]
      modifies this`tasks, this`next, this`ring
      ensures Queue() && S() == Next(old(S()), Wait) && S() == Reaped(old(S()), k)
      ensures old(ring)[k] in old(tasks) && pid == old(tasks)[old(ring)[k]].pid &&
              code == old(tasks)[old(ring)[k]].code && pid >= 0
      ensures IsChild(old(tasks)[old(ring)[k]], old(tasks[current].pid), true)
    {
      hide Inv, Next, Linked, Child, Reaped, Shaped, IsChild;
      RingFacts(S());
      NextReap(S(), k);
      NextIs(next, ring, k);
      RemoveLinked(next, ring, k, next[prev := next[t]]);
      pid, code := tasks[t].pid, tasks[t].code;
      next := next[prev := next[t]];
      tasks := tasks - {t};
      ring := ring[..k] + ring[k + 1..];
    }

    /** The search of sys_kill. */
    method ScanPid(pid: nat) returns (t: nat, ghost k: nat)
      requires Queue()
      ensures ring != [] && k == HasPid(tasks, ring, pid, 1) && t == At(ring, k) && (t == current <==> k == |ring|)
    {
      RingFacts(S());
      hide Shaped, Linked, Distinct, HasPid;
      NextIs(next, ring, 0);
      t := next[current];
      k := 1;
      while t != current
        invariant 1 <= k <= |ring| && t == At(ring, k) && (t == current <==> k == |ring|)
        invariant forall i :: 1 <= i < k ==> tasks[ring[i]].pid != pid
        decreases |ring| - k
      {
        if tasks[t].pid == pid { break; }
        NextIs(next, ring, k);
        t := next[t];
        k := k + 1;
      }
      HasPidIs(tasks, ring, pid, k);
    }

    /** sys_kill with signal 9: the first other task with this pid. */
    method KillPid(pid: nat) returns (ok: bool)
      requires Valid()
      modifies this`tasks
      ensures Valid() && S() == Next(old(S()), Kill(pid))
      ensures ok <==> exists i :: 1 <= i < |ring| && old(tasks[ring[i]].pid) == pid
    {
      hide Inv, Next, Shaped, Linked, HasPid;
      StepInv(S(), Kill(pid));
      var t;
      ghost var k;
      t, k := ScanPid(pid);
      NextKill(S(), pid, k);
      ok := t != current;
      if ok { tasks := tasks[t := tasks[t].(kill := true)]; }
      InvShaped(S());
    }

    /** sched_ctrlc on the foreground task. */
    method Interrupt(t: nat)
      requires Valid() && t in tasks
      modifies this`tasks
      ensures Valid() && S() == Next(old(S()), CtrlC(t))
    {
      hide Inv, Next, Shaped, Linked;
      StepInv(S(), CtrlC(t));
      NextCtrlC(S(), t);
      if tasks[t].state != Zombie { tasks := tasks[t := tasks[t].(kill := true)]; }
      InvShaped(S());
    }

    /** sched_add of a record with a fresh pid. */
    method AddTask(child: nat, fds: seq<Fd>)
      requires Queue() && child !in tasks
      modifies this`tasks, this`next, this`ring, this`nextPid
      ensures S() == Insert(old(S()), child, NewTask(old(S()), fds)) && Linked(next, ring) && current == ring[0]
    {
      hide Linked, Shaped, Insert, NewTask, Distinct;
      InsertIs(S(), child, fds);
      NextIs(next, ring, 0);
      InsertLinked(next, ring, child, next[child := next[current]][current := child]);
      tasks := tasks[child := Task(nextPid, Ready, 0, tasks[current].pid, 0, false, false, fds)];
      nextPid := nextPid + 1;
      next := next[child := next[current]];
      next := next[current := child];
      ring := [ring[0], child] + ring[1..];
    }

    /** task_create_user and sched_add. */
    method SpawnTask(child: nat)
      requires Valid() && child !in tasks
      modifies this`tasks, this`next, this`ring, this`nextPid
      ensures Valid() && S() == Next(old(S()), Spawn(child))
    {
      StepInv(S(), Spawn(child));
      NextSpawn(S(), child);
      hide Inv, Next, Insert, NewTask;
      AddTask(child, NoFds());
      InvShaped(S());
    }

    /** The descriptor loop of sys_fork. */
    method CopyFds(mine: seq<Fd>) returns (fds: seq<Fd>)
      requires |mine| == FDS
      modifies this`pipes
      ensures fds == mine && pipes == OpenAll(old(pipes), mine) && |pipes| == |old(pipes)|
    {
      hide OpenAll, OpenEnd;
      fds := NoFds();
      OpenAllStep(pipes, mine, 0);
      for i := 0 to FDS
        invariant |fds| == FDS && fds[..i] == mine[..i] && pipes == OpenAll(old(pipes), mine[..i])
      {
        OpenAllStep(old(pipes), mine, i);
        fds := fds[i := mine[i]];
        assert fds[..i + 1] == fds[..i] + [mine[i]];
        if fds[i].PipeFd? { pipes := OpenEnd(pipes, fds[i]); }
      }
      assert mine[..FDS] == mine;
    }

    /** sys_fork, once the address space is cloned and the record allocated. */
    method ForkTask(child: nat)
      requires Valid() && child !in tasks
      modifies this`tasks, this`next, this`ring, this`nextPid, this`pipes
      ensures Valid() && S() == Next(old(S()), Fork(child))
    {
      ghost var s := S();
      StepInv(s, Fork(child));
      NextSpawn(s, child);
      InvShaped(s);
      assert |tasks[current].fds| == FDS by { assert FdsOk(tasks[current].fds); }
      assert |pipes| == PIPES;
      hide Inv, Next, Insert, NewTask, OpenAll, FdsOk, Linked, Shaped;
      var fds := CopyFds(tasks[current].fds);
      InsertKeeps(s, pipes, child, fds);
      AddTask(child, fds);
      InvShaped(S());
    }

    /** pipe_alloc: the first slot with no open end gets one of each. */
    method PipeAlloc() returns (p: int, ghost k: nat)
      requires |pipes| == PIPES
      modifies this`pipes
      ensures k == FreePipe(old(pipes), 0) && (p == -1 <==> k == PIPES) &&
              (p != -1 ==> p == k && pipes == old(pipes)[k := Ends(1, 1)])
      ensures p == -1 ==> pipes == old(pipes)
    {
      hide FreePipe;
      k := 0;
      p := 0;
      while p < PIPES
        invariant 0 <= p <= PIPES && k == p && pipes == old(pipes)
        invariant forall j :: 0 <= j < k ==> pipes[j] != Ends(0, 0)
      {
        if pipes[p].r == 0 && pipes[p].w == 0 { break; }
        p, k := p + 1, k + 1;
      }
      FreePipeIs(pipes, k);
      if p == PIPES { return -1, k; }
      pipes := pipes[p := Ends(1, 1)];
    }

    /** The descriptor loop of sys_pipe: the first two free descriptors from 3 on. */
    method TwoFds(fds: seq<Fd>) returns (r: int, w: int)
      requires |fds| == FDS
      ensures r == (if FreeFd(fds, 3) < FDS then FreeFd(fds, 3) else -1)
      ensures w == if r != -1 && FreeFd(fds, r + 1) < FDS then FreeFd(fds, r + 1) else -1
    {
      hide FreeFd;
      r, w := -1, -1;
      var i := 3;
      while i < FDS
        invariant 3 <= i <= FDS && w == -1 && (r == -1 ==> forall j :: 3 <= j < i ==> fds[j] != Free)
        invariant r != -1 ==>
                  3 <= r < i && fds[r] == Free && (forall j :: 3 <= j < r ==> fds[j] != Free) && forall j ::
                  r < j < i ==> fds[j] != Free
      {
        if fds[i] == Free {
          if r < 0 {
            r := i;
          } else {
            w := i;
            break;
          }
        }
        i := i + 1;
      }
      FreeFdIs(fds, 3, if r == -1 then FDS else r);
      if r != -1 { FreeFdIs(fds, r + 1, if w == -1 then FDS else w); }
    }

    /** sys_pipe. */
    method MakePipe() returns (ok: bool)
      requires Valid()
      modifies this`tasks, this`pipes
      ensures Queue() && S() == Next(old(S()), SchedModel.Pipe) && (ok <==> PipeFits(old(S())))
      ensures Valid() <==> old(tasks[current].state) != Zombie || !PipeFits(old(S()))
      ensures !ok ==> S() == old(S())
    {
      hide Inv, Next, Shaped, Linked, FreePipe, FreeFd, CloseEnd, PipeMade, PipeFits;
      ghost var s := S();
      PipeShaped(s);
      TableShape(s);
      var p;
      ghost var k;
      p, k := PipeAlloc();
      var fds := tasks[current].fds;
      var r, w := TwoFds(fds);
      PipeIs(s);
      if p < 0 { return false; }
      if r < 0 || w < 0 {
        pipes := CloseEnd(pipes, PipeFd(p, false));
        pipes := CloseEnd(pipes, PipeFd(p, true));
        PipeUndone(s.pipes, k);
        return false;
      }
      tasks := tasks[current := tasks[current].(fds := fds[r := PipeFd(p, false)][w := PipeFd(p, true)])];
      ok := true;
    }

    /** fd_close_one. */
    method CloseOne(i: nat)
      requires Queue() && i < FDS
      modifies this`tasks, this`pipes
      ensures Queue() && S() == Closed(old(S()), i)
    {
      ghost var s := S();
      TableShape(s);
      ClosedIs(s, i);
      hide Shaped, Linked, Closed, CloseEnd;
      var fd := tasks[current].fds[i];
      if fd == Free { return; }
      tasks := tasks[current := tasks[current].(fds := tasks[current].fds[i := Free])];
      pipes := CloseEnd(pipes, fd);
    }

    /** sys_close. */
    method CloseFd(fd: int) returns (ok: bool)
      requires Valid()
      modifies this`tasks, this`pipes
      ensures Valid() && ok == (0 <= fd < FDS && |old(tasks[current].fds)| == FDS &&
              old(tasks[current].fds)[fd] != Free)
      ensures S() == if ok then Next(old(S()), Close(fd)) else old(S())
    {
      ok := false;
      if fd < 0 || fd >= FDS { return; }
      TableShape(S());
      if tasks[current].fds[fd] == Free { return; }
      StepInv(S(), Close(fd));
      NextClose(S(), fd);
      hide Inv, Next, Closed;
      CloseOne(fd);
      ok := true;
    }

    /** The descriptor loop of sys_exec: all but 0, 1 and 2 are closed. */
    method CloseOnExec()
      requires Valid()
      modifies this`tasks, this`pipes
      ensures Valid() && S() == Next(old(S()), Exec)
    {
      hide Inv, Next, Closed, ClosedFrom3, Linked, Shaped;
      ghost var s := S();
      StepInv(s, Exec);
      NextExec(s);
      for j := 3 to FDS
        invariant Queue() && Shaped(s) && S() == ClosedFrom3(s, j)
      {
        CloseOne(j);
        ExecStep(s, j);
      }
    }

    /** sys_open and sys_open_w once the file is found: the first free descriptor. */
    method OpenFd() returns (fd: int)
      requires Valid()
      modifies this`tasks
      ensures Valid() && S() == Next(old(S()), Open)
      ensures fd == -1 ==> S() == old(S())
      ensures fd != -1 ==>
              3 <= fd < FDS && |old(tasks[current].fds)| == FDS && old(tasks[current].fds)[fd] == Free &&
              |tasks[current].fds| == FDS && tasks[current].fds[fd] == FileFd
    {
      ghost var s := S();
      StepInv(s, Open);
      TableShape(s);
      NextOpen(s);
      hide Inv, Next, Shaped, Linked, FreeFd;
      var w;
      fd, w := TwoFds(tasks[current].fds);
      if fd < 0 { return; }
      tasks := tasks[current := tasks[current].(fds := tasks[current].fds[fd := FileFd])];
      InvShaped(S());
    }
  }

  lemma FreePipeIs(pipes: seq<Ends>, k: nat)
    requires k <= |pipes| && (k < |pipes| ==> pipes[k] == Ends(0, 0)) && forall j :: 0 <= j < k ==>
             pipes[j] != Ends(0, 0)
    ensures FreePipe(pipes, 0) == k
  {
  }

  lemma FreeFdIs(fds: seq<Fd>, i: nat, k: nat)
    requires i <= k <= |fds| && (k < |fds| ==> fds[k] == Free) && forall j :: i <= j < k ==> fds[j] != Free
    ensures FreeFd(fds, i) == k
  {
  }

  /** Closing both ends gives the slot back. */
  lemma PipeUndone(pipes: seq<Ends>, p: nat)
    requires p < |pipes| && pipes[p] == Ends(0, 0)
    ensures CloseEnd(CloseEnd(pipes[p := Ends(1, 1)], PipeFd(p, false)), PipeFd(p, true)) == pipes
  {
  }

  lemma TableShape(s: Sys)
    requires Shaped(s)
    ensures s.ring != [] && s.ring[0] in s.tasks && |s.tasks[s.ring[0]].fds| == FDS && |s.pipes| == PIPES
  {
    assert FdsOk(s.tasks[s.ring[0]].fds);
  }

  /** sys_pipe is the pipe event; by a zombie with room for a pipe it breaks the invariant. */
  lemma PipeShaped(s: Sys)
    requires Inv(s)
    ensures Shaped(PipeMade(s)) && (Inv(PipeMade(s)) <==> Cur(s).state != Zombie || !PipeFits(s))
    ensures Enabled(s, SchedModel.Pipe) && PipeMade(s) == Next(s, SchedModel.Pipe)
  {
    StepInv(s, SchedModel.Pipe);
    hide Inv, Dispatch, Before, FreePipe, FreeFd;
  }

  lemma PipeIs(s: Sys)
    requires Inv(s) && s.ring[0] in s.tasks && |s.tasks[s.ring[0]].fds| == FDS && |s.pipes| == PIPES
    ensures var p, t := FreePipe(s.pipes, 0), s.tasks[s.ring[0]];
            var r := FreeFd(t.fds, 3);
            (PipeFits(s) <==> p < PIPES && r < FDS && FreeFd(t.fds, r + 1) < FDS) &&
            PipeMade(s) ==
            if !PipeFits(s) then s
            else s.(tasks := s.tasks[s.ring[0] := t.(fds := WithPipe(t.fds, p))], pipes := s.pipes[p := Ends(1, 1)])
  {
    hide Inv, FreePipe, FreeFd, WithPipe;
  }

  lemma NextClose(s: Sys, i: nat)
    requires Inv(s) && Enabled(s, Close(i))
    ensures Next(s, Close(i)) == Closed(s, i)
  {
    hide Inv, Dispatch, Before, Closed;
  }

  lemma ClosedIs(s: Sys, i: nat)
    requires Shaped(s) && i < FDS && s.ring[0] in s.tasks && |s.tasks[s.ring[0]].fds| == FDS
    ensures Shaped(Closed(s, i))
    ensures var fds := s.tasks[s.ring[0]].fds;
            if fds[i] == Free then Closed(s, i) == s
            else Closed(s, i) == s.(tasks := s.tasks[s.ring[0] := s.tasks[s.ring[0]].(fds := fds[i := Free])],
              pipes := CloseEnd(s.pipes, fds[i]))
  {
    var fds := s.tasks[s.ring[0]].fds;
    if fds[i] == Free { assert fds[i := Free] == fds; }
  }

  lemma NextExec(s: Sys)
    requires Inv(s) && Enabled(s, Exec)
    ensures Next(s, Exec) == ClosedFrom3(s, FDS) && ClosedFrom3(s, 3) == s
  {
    hide Inv, Dispatch, Before;
  }

  lemma ExecStep(s: Sys, j: nat)
    requires Shaped(s) && 3 <= j < FDS
    ensures ClosedFrom3(s, j + 1) == Closed(ClosedFrom3(s, j), j)
  {
  }

  lemma NextOpen(s: Sys)
    requires Inv(s) && Enabled(s, Open) && s.ring[0] in s.tasks && |s.tasks[s.ring[0]].fds| == FDS
    ensures var i := FreeFd(s.tasks[s.ring[0]].fds, 3);
            Next(s, Open) ==
            if i == FDS then s
            else s.(tasks := s.tasks[s.ring[0] := s.tasks[s.ring[0]].(fds := s.tasks[s.ring[0]].fds[i := FileFd])])
  {
    hide Inv, Dispatch, Before, FreeFd;
  }

  lemma HasPidIs(tasks: map<nat, Task>, ring: seq<nat>, pid: nat, k: nat)
    requires 1 <= k <= |ring| && (forall a :: a in ring ==> a in tasks) && (k < |ring| ==> tasks[ring[k]].pid == pid)
    requires forall i :: 1 <= i < k ==> tasks[ring[i]].pid != pid
    ensures HasPid(tasks, ring, pid, 1) == k
  {
  }

  lemma NextKill(s: Sys, pid: nat, k: nat)
    requires Inv(s) && Enabled(s, Kill(pid)) && k == HasPid(s.tasks, s.ring, pid, 1)
    ensures Next(s, Kill(pid)) ==
            if k < |s.ring| then s.(tasks := s.tasks[s.ring[k] := s.tasks[s.ring[k]].(kill := true)]) else s
    ensures forall a :: a in s.ring ==> a in s.tasks
  {
    hide Inv, Dispatch, Before;
  }

  lemma NextCtrlC(s: Sys, t: nat)
    requires Inv(s) && Enabled(s, CtrlC(t))
    ensures Next(s, CtrlC(t)) ==
            if s.tasks[t].state != Zombie then s.(tasks := s.tasks[t := s.tasks[t].(kill := true)]) else s
  {
    hide Inv, Dispatch, Before;
  }

  lemma NextSpawn(s: Sys, child: nat)
    requires Inv(s) && child !in s.tasks
    ensures Next(s, Spawn(child)) == Insert(s, child, NewTask(s, NoFds()))
    ensures Next(s, Fork(child)) == Insert(s, child, NewTask(s, Cur(s).fds)).(pipes := OpenAll(s.pipes, Cur(s).fds))
  {
    hide Inv, Dispatch, Before;
  }

  lemma InsertIs(s: Sys, child: nat, fds: seq<Fd>)
    requires Shaped(s)
    ensures s.ring != [] && s.ring[0] in s.tasks && Distinct(s.ring) && (child !in s.tasks ==> child !in s.ring)
    ensures Insert(s, child, NewTask(s, fds)) ==
            s.(tasks := s.tasks[child := Task(s.nextPid, Ready, 0, s.tasks[s.ring[0]].pid, 0, false, false, fds)],
               ring := [s.ring[0], child] + s.ring[1..], nextPid := s.nextPid + 1)
  {
  }

  lemma InsertKeeps(s: Sys, pipes: seq<Ends>, child: nat, fds: seq<Fd>)
    requires Shaped(s) && |pipes| == PIPES
    ensures Shaped(s.(pipes := pipes))
    ensures Insert(s.(pipes := pipes), child, NewTask(s.(pipes := pipes), fds)) ==
            Insert(s, child, NewTask(s, fds)).(pipes := pipes)
  {
  }

  lemma OpenAllStep(pipes: seq<Ends>, fds: seq<Fd>, i: nat)
    requires i < |fds|
    ensures OpenAll(pipes, fds[..i + 1]) == OpenEnd(OpenAll(pipes, fds[..i]), fds[i]) &&
            OpenAll(pipes, fds[..0]) == pipes
    ensures !fds[i].PipeFd? ==> OpenAll(pipes, fds[..i + 1]) == OpenAll(pipes, fds[..i])
    ensures |OpenAll(pipes, fds[..i + 1])| == |pipes|
  {
    assert fds[..i + 1][..i] == fds[..i];
  }

  lemma ChildStep(tasks: map<nat, Task>, ring: seq<nat>, pid: nat, zombie: bool, k: nat)
    requires k < |ring| && forall a :: a in ring ==> a in tasks
    ensures Child(tasks, ring, pid, zombie, k) ==
            if IsChild(tasks[ring[k]], pid, zombie) then k else Child(tasks, ring, pid, zombie, k + 1)
  {
  }

  lemma NextReap(s: Sys, k: nat)
    requires Inv(s) && Enabled(s, Wait) && k == Child(s.tasks, s.ring, Cur(s).pid, true, 1) < |s.ring|
    ensures Next(s, Wait) == Reaped(s, k) &&
            Reaped(s, k) == s.(tasks := s.tasks - {s.ring[k]}, ring := s.ring[..k] + s.ring[k + 1..])
    ensures Shaped(Reaped(s, k)) && IsChild(s.tasks[s.ring[k]], Cur(s).pid, true) && Reaped(s, k).ring[0] == s.ring[0]
  {
    StepInv(s, Wait);
    hide Dispatch;
  }

  /** The current task has a child, or a zombie child. */
  ghost predicate HasChild(s: Sys, zombie: bool)
    requires Shaped(s)
  {
    exists i :: 1 <= i < |s.ring| && IsChild(s.tasks[s.ring[i]], Cur(s).pid, zombie)
  }

  /** The first zombie child of the current task is gone, with this pid and code. */
  ghost predicate FirstReaped(s: Sys, pid: int, code: int, now: Sys)
    requires Shaped(s)
  {
    var k := Child(s.tasks, s.ring, Cur(s).pid, true, 1);
    k < |s.ring| && pid == s.tasks[s.ring[k]].pid && code == s.tasks[s.ring[k]].code && now == Reaped(s, k)
  }

  lemma FirstZombie(s: Sys, k: nat)
    requires Shaped(s) && k == Child(s.tasks, s.ring, Cur(s).pid, true, 1) < |s.ring|
    ensures HasChild(s, true) && HasChild(s, false)
  {
    hide Child;
    assert IsChild(s.tasks[s.ring[k]], Cur(s).pid, true) && IsChild(s.tasks[s.ring[k]], Cur(s).pid, false);
  }

  lemma NoChildFound(s: Sys, k: nat, j: nat)
    requires Shaped(s) && k == Child(s.tasks, s.ring, Cur(s).pid, true, 1) == |s.ring|
    requires j == Child(s.tasks, s.ring, Cur(s).pid, false, 1)
    ensures !HasChild(s, true) && (HasChild(s, false) <==> j < |s.ring|)
  {
    hide Child;
    if j < |s.ring| { assert IsChild(s.tasks[s.ring[j]], Cur(s).pid, false); }
  }

  lemma ReapedFirst(s: Sys, k: nat, pid: int, code: int, now: Sys)
    requires Shaped(s) && k == Child(s.tasks, s.ring, Cur(s).pid, true, 1) < |s.ring|
    requires s.ring[k] in s.tasks && pid == s.tasks[s.ring[k]].pid && code == s.tasks[s.ring[k]].code
    requires now == Reaped(s, k)
    ensures FirstReaped(s, pid, code, now)
  {
  }

  lemma NextNoZombie(s: Sys, k: nat, j: nat)
    requires Inv(s) && Enabled(s, Wait)
    requires k == |s.ring| == Child(s.tasks, s.ring, Cur(s).pid, true, 1) &&
             j == Child(s.tasks, s.ring, Cur(s).pid, false, 1)
    ensures j == |s.ring| ==> Next(s, Wait) == s
    ensures j < |s.ring| ==>
            var b := s.(tasks := s.tasks[s.ring[0] := s.tasks[s.ring[0]].(waiting := true, state := Blocked)]);
              Shaped(b) && Next(s, Wait) == Dispatch(b)
    ensures forall i :: 1 <= i < |s.ring| ==> !IsChild(s.tasks[s.ring[i]], Cur(s).pid, true)
    ensures j == |s.ring| ==> forall i :: 1 <= i < |s.ring| ==> s.tasks[s.ring[i]].parent != Cur(s).pid
    ensures j < |s.ring| ==> 1 <= j && s.tasks[s.ring[j]].parent == Cur(s).pid
    ensures s.ring[0] in s.tasks
  {
    hide Inv, Dispatch;
    if j == |s.ring| {
      forall i | 1 <= i < |s.ring| ensures s.tasks[s.ring[i]].parent != Cur(s).pid {
        assert !IsChild(s.tasks[s.ring[i]], Cur(s).pid, false);
      }
    }
  }

  lemma RingFacts(s: Sys)
    requires Shaped(s)
    ensures s.ring != [] && Distinct(s.ring) && forall a :: a in s.ring ==> a in s.tasks
  {
  }

  lemma InvShaped(s: Sys)
    requires Inv(s)
    ensures Shaped(s) && s.ring[0] in s.tasks
  {
  }

  lemma BeforeSleep(s: Sys, now: nat, ms: nat)
    requires Inv(s)
    ensures Enabled(s, Sleep(now, ms)) && Next(s, Sleep(now, ms)) == Dispatch(Before(s, Sleep(now, ms))) &&
            Inv(Next(s, Sleep(now, ms)))
    ensures Before(s, Sleep(now, ms)) ==
            if ms == 0 then s else s.(tasks := s.tasks[s.ring[0] := s.tasks[s.ring[0]].(wake := WakeAt(now, ms),
            state := Blocked)])
    ensures Shaped(Before(s, Sleep(now, ms)))
  {
    StepInv(s, Sleep(now, ms));
    hide Inv, Dispatch, WakeAt;
  }

  lemma BeforeBlock(s: Sys)
    requires Inv(s)
    ensures Enabled(s, Block) && Next(s, Block) == Dispatch(Before(s, Block)) && Inv(Next(s, Block))
    ensures Before(s, Block) == s.(tasks := s.tasks[s.ring[0] := s.tasks[s.ring[0]].(state := Blocked)]) &&
            Shaped(Before(s, Block))
  {
    StepInv(s, Block);
    hide Inv, Dispatch;
  }

  lemma BeforeExit(s: Sys, code: int)
    requires Inv(s)
    ensures Enabled(s, Exit(code)) && Next(s, Exit(code)) == Dispatch(WakeParent(Dead(s, code))) &&
            Inv(Next(s, Exit(code)))
  {
    hide Inv, Dispatch, WakeParent, Dead;
    InvShaped(s);
    StepInv(s, Exit(code));
  }

  lemma NextWake(s: Sys, t: nat)
    requires Inv(s) && Enabled(s, Wake(t))
    ensures Next(s, Wake(t)) ==
            if s.tasks[t].state == Blocked then s.(tasks := s.tasks[t := s.tasks[t].(wake := 0, state := Ready)]) else s
  {
    hide Inv, Dispatch, Before;
  }

  lemma DeadIs(s: Sys, code: int, d: Sys)
    requires Shaped(s) && d == s.(tasks := d.tasks, pipes := CloseAll(s.pipes, Cur(s).fds))
    requires var t := Cur(s).(code := code);
             d.tasks == s.tasks[s.ring[0] := t][s.ring[0] := t.(fds := NoPipes(t.fds))]
                       [s.ring[0] := t.(fds := NoPipes(t.fds), state := Zombie)]
    ensures d == Dead(s, code) && Shaped(d) && Cur(d).parent == Cur(s).parent
  {
    var t := Cur(s).(code := code);
    Overwrite(s.tasks, s.ring[0], t, t.(fds := NoPipes(t.fds)));
    Overwrite(s.tasks, s.ring[0], t.(fds := NoPipes(t.fds)), t.(fds := NoPipes(t.fds), state := Zombie));
  }

  lemma WakeParentIs(s: Sys, k: nat)
    requires Shaped(s) && (Cur(s).parent != 0 ==> k == Waiter(s.tasks, s.ring, Cur(s).parent, 1))
    ensures Cur(s).parent == 0 || k == |s.ring| ==> WakeParent(s) == s
    ensures Cur(s).parent != 0 && k < |s.ring| ==>
              s.ring[k] in s.tasks &&
                WakeParent(s) == s.(tasks := s.tasks[s.ring[k] := s.tasks[s.ring[k]].(waiting := false,
                state := Ready)])
    ensures Shaped(WakeParent(s))
  {
  }

  lemma WaiterIs(tasks: map<nat, Task>, ring: seq<nat>, pid: nat, k: nat)
    requires 1 <= k <= |ring| && (forall a :: a in ring ==> a in tasks) &&
             (k < |ring| ==> tasks[ring[k]].pid == pid && tasks[ring[k]].waiting)
    requires forall i :: 1 <= i < k ==> !(tasks[ring[i]].pid == pid && tasks[ring[i]].waiting)
    ensures Waiter(tasks, ring, pid, 1) == k
  {
  }

  ghost predicate WokenUpto(s: Sys, k: nat, tasks: map<nat, Task>) {
    && k <= |s.ring| && tasks.Keys == s.tasks.Keys
    && (forall i :: 0 <= i < |s.ring| ==>
          s.ring[i] in s.tasks && tasks[s.ring[i]] ==
            if i < k then Woken(s.tasks, s.tasks[s.ring[i]]) else s.tasks[s.ring[i]])
  }

  lemma WokenStart(s: Sys)
    requires Shaped(s)
    ensures WokenUpto(s, 0, s.tasks) && |s.ring| > 0 && Distinct(s.ring)
  {
  }

  lemma WokenSame(s: Sys, k: nat, tasks: map<nat, Task>, a: nat)
    requires Shaped(s) && WokenUpto(s, k, tasks) && a in s.tasks
    ensures tasks[a].parent == s.tasks[a].parent && tasks[a].pid == s.tasks[a].pid &&
            (tasks[a].state == Zombie <==> s.tasks[a].state == Zombie)
    ensures tasks[a].fds == s.tasks[a].fds
  {
    var i :| 0 <= i < |s.ring| && s.ring[i] == a;
    assert tasks[s.ring[i]] == if i < k then Woken(s.tasks, s.tasks[s.ring[i]]) else s.tasks[s.ring[i]];
  }

  /** Whether the k-th task must be woken, judged on the half-woken state. */
  lemma WokenStep(s: Sys, k: nat, tasks: map<nat, Task>)
    requires Shaped(s) && k < |s.ring| && WokenUpto(s, k, tasks)
    ensures s.ring[k] in tasks
    ensures var t := tasks[s.ring[k]];
            var u := if t.state == Blocked && t.waiting && HasZombieChild(tasks, t.pid)
              then t.(waiting := false, state := Ready) else t;
            WokenUpto(s, k + 1, tasks[s.ring[k] := u]) && Shaped(s.(tasks := tasks[s.ring[k] := u])) &&
              (u == t ==> tasks[s.ring[k] := u] == tasks)
  {
    var a := s.ring[k];
    forall b | b in s.tasks
      ensures tasks[b].parent == s.tasks[b].parent && (tasks[b].state == Zombie <==> s.tasks[b].state == Zombie) &&
              tasks[b].fds == s.tasks[b].fds
    {
      WokenSame(s, k, tasks, b);
    }
    assert tasks[a] == s.tasks[a];
    ZombieChildren(s, s.(tasks := tasks), tasks[a].pid);
    hide HasZombieChild;
    var u := Woken(s.tasks, s.tasks[a]);
    var now := tasks[a := u];
    forall i | 0 <= i < |s.ring|
      ensures s.ring[i] in s.tasks && now[s.ring[i]] ==
              if i < k + 1 then Woken(s.tasks, s.tasks[s.ring[i]]) else s.tasks[s.ring[i]]
    {
      assert i != k ==> s.ring[i] != s.ring[k];
    }
    UpdateSame(tasks, a);
  }

  lemma WokenEnd(s: Sys, t: Sys)
    requires Shaped(s) && WokenUpto(s, |s.ring|, t.tasks) && t == s.(tasks := t.tasks)
    ensures t == WakeWaiters(s) && Shaped(t)
  {
    hide Woken;
    forall a | a in t.tasks ensures a in s.tasks && t.tasks[a] == Woken(s.tasks, s.tasks[a]) {
      assert a in t.tasks.Keys && a in s.ring;
      var i :| 0 <= i < |s.ring| && s.ring[i] == a;
    }
    assert t.tasks == WakeWaiters(s).tasks;
  }

  lemma ZombieChildAt(s: Sys, pid: nat, k: nat)
    requires Shaped(s) && k < |s.ring| && s.tasks[s.ring[k]].state == Zombie && s.tasks[s.ring[k]].parent == pid
    ensures HasZombieChild(s.tasks, pid)
  {
  }

  lemma NoZombieChild(s: Sys, pid: nat)
    requires Shaped(s) && forall i :: 0 <= i < |s.ring| ==>
             !(s.tasks[s.ring[i]].state == Zombie && s.tasks[s.ring[i]].parent == pid)
    ensures !HasZombieChild(s.tasks, pid)
  {
    forall c | c in s.tasks ensures !(s.tasks[c].state == Zombie && s.tasks[c].parent == pid) {
      var i :| 0 <= i < |s.ring| && s.ring[i] == c;
    }
  }

  /** The first `k` tasks of the ring have had their signals delivered. */
  ghost predicate Upto(s: Sys, now: nat, k: nat, tasks: map<nat, Task>) {
    && k <= |s.ring| && tasks.Keys == s.tasks.Keys
    && (forall i :: 0 <= i < |s.ring| ==>
          s.ring[i] in s.tasks && tasks[s.ring[i]] ==
            if i < k then Signal(s.tasks[s.ring[i]], now) else s.tasks[s.ring[i]])
  }

  lemma UptoStart(s: Sys, now: nat)
    requires Shaped(s)
    ensures Upto(s, now, 0, s.tasks) && SignalPipes(s, now, 0) == s.pipes && |s.ring| > 0 && Distinct(s.ring)
  {
  }

  lemma UptoAt(s: Sys, now: nat, k: nat, tasks: map<nat, Task>)
    requires Shaped(s) && k < |s.ring| && Upto(s, now, k, tasks)
    ensures s.ring[k] in tasks && s.ring[k] in s.tasks && tasks[s.ring[k]] == s.tasks[s.ring[k]] &&
            |tasks[s.ring[k]].fds| == FDS
  {
  }

  lemma UptoStep(s: Sys, now: nat, k: nat, a: map<nat, Task>, b: map<nat, Task>)
    requires Shaped(s) && k < |s.ring| && Upto(s, now, k, a) && s.ring[k] in s.tasks &&
             b == a[s.ring[k] := Signal(s.tasks[s.ring[k]], now)]
    ensures Upto(s, now, k + 1, b)
    ensures SignalPipes(s, now, k + 1) ==
            if Dies(s.tasks[s.ring[k]]) then CloseAll(SignalPipes(s, now, k), s.tasks[s.ring[k]].fds)
              else SignalPipes(s, now, k)
  {
    hide Signal, Dies, CloseAll;
    forall i | 0 <= i < |s.ring|
      ensures s.ring[i] in s.tasks && b[s.ring[i]] ==
              if i < k + 1 then Signal(s.tasks[s.ring[i]], now) else s.tasks[s.ring[i]]
    {
      assert i != k ==> s.ring[i] != s.ring[k];
    }
  }

  lemma UptoEnd(s: Sys, now: nat, t: Sys)
    requires Shaped(s) && Upto(s, now, |s.ring|, t.tasks) &&
             t == s.(tasks := t.tasks, pipes := SignalPipes(s, now, |s.ring|))
    ensures t == Signals(s, now) && Shaped(t)
  {
    hide Signal, SignalPipes;
    forall a | a in t.tasks ensures a in s.tasks && t.tasks[a] == Signal(s.tasks[a], now) {
      assert a in t.tasks.Keys && a in s.ring;
      var i :| 0 <= i < |s.ring| && s.ring[i] == a;
    }
    assert t.tasks == Signals(s, now).tasks;
  }

  lemma NextIs(next: map<nat, nat>, ring: seq<nat>, k: nat)
    requires Linked(next, ring) && Distinct(ring) && k < |ring|
    ensures ring[k] in next && next[ring[k]] == At(ring, k + 1) && (At(ring, k + 1) == ring[0] <==> k + 1 == |ring|)
  {
    assert next[ring[k]] == Follow(ring, k);
  }

  /** The tasks from the second to before the k-th are passed over. */
  ghost predicate Passed(tasks: map<nat, Task>, ring: seq<nat>, k: nat) {
    k <= |ring| && (forall a :: a in ring ==> a in tasks) && 1 <= |ring| &&
    Pick(tasks, ring, 1) == Pick(tasks, ring, k)
  }

  lemma PassedNone(s: Sys)
    requires Shaped(s)
    ensures 1 <= |s.ring| && Distinct(s.ring) && Passed(s.tasks, s.ring, 1) && At(s.ring, 1) in s.tasks
  {
  }

  lemma PassedNext(tasks: map<nat, Task>, ring: seq<nat>, k: nat)
    requires 1 <= k < |ring| && Passed(tasks, ring, k) && At(ring, k) in tasks && !Eligible(tasks[At(ring, k)])
    ensures Passed(tasks, ring, k + 1) && At(ring, k) == ring[k] && At(ring, k + 1) in tasks
  {
    PickNext(tasks, ring, k);
  }

  lemma PassedAll(tasks: map<nat, Task>, ring: seq<nat>, k: nat)
    requires 1 <= k <= |ring| && Passed(tasks, ring, k)
    requires At(ring, k) in tasks && (k == |ring| || Eligible(tasks[At(ring, k)]))
    ensures forall a :: a in ring ==> a in tasks
    ensures k == Pick(tasks, ring, 1)
  {
    PickNext(tasks, ring, k);
  }

  /** The table with the pipe descriptors before `i` closed. */
  ghost function Sweep(fds: seq<Fd>, i: nat): seq<Fd>
    requires i <= |fds|
  {
    NoPipes(fds[..i]) + fds[i..]
  }

  lemma Swept(fds: seq<Fd>)
    ensures Sweep(fds, 0) == fds && Sweep(fds, |fds|) == NoPipes(fds)
  {
    assert fds[..|fds|] == fds && fds[|fds|..] == [];
  }

  lemma SweepStep(fds: seq<Fd>, i: nat)
    requires i < |fds|
    ensures |Sweep(fds, i)| == |fds| && Sweep(fds, i)[i] == fds[i]
    ensures Sweep(fds, i + 1) == if fds[i].PipeFd? then Sweep(fds, i)[i := Free] else Sweep(fds, i)
  {
    assert fds[..i + 1][..i] == fds[..i];
    assert fds[i..] == [fds[i]] + fds[i + 1..];
  }

  lemma CloseAllStep(pipes: seq<Ends>, fds: seq<Fd>, i: nat)
    requires i < |fds|
    ensures CloseAll(pipes, fds[..i + 1]) == CloseEnd(CloseAll(pipes, fds[..i]), fds[i]) &&
            CloseAll(pipes, fds[..0]) == pipes
    ensures !fds[i].PipeFd? ==> CloseAll(pipes, fds[..i + 1]) == CloseAll(pipes, fds[..i])
  {
    assert fds[..i + 1][..i] == fds[..i];
  }

  lemma DispatchIs(s: Sys, k: nat)
    requires Shaped(s) && k == Pick(s.tasks, s.ring, 1)
    ensures k == |s.ring| ==> Dispatch(s) == s
    ensures k < |s.ring| ==> var prev, next := s.ring[0], s.ring[k];
              prev in s.tasks && next in s.tasks && prev != next &&
              Dispatch(s) == s.(tasks := s.tasks[prev := Preempted(s.tasks[prev])]
                                        [next := s.tasks[next].(state := Running)],
                                ring := s.ring[k..] + s.ring[..k])
  {
  }

  lemma PickNext(tasks: map<nat, Task>, ring: seq<nat>, k: nat)
    requires k <= |ring| && forall a :: a in ring ==> a in tasks
    ensures Pick(tasks, ring, k) == if k == |ring| || Eligible(tasks[ring[k]]) then k else Pick(tasks, ring, k + 1)
  {
  }
}
