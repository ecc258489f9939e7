/** kernel/sched.c with the descriptor tables of kernel/syscall.c and the end
    counters of kernel/pipe.c, as values: the run queue starting at the current
    task, task records by address, and the pipe pool. */
module SchedModel {
  const FDS: nat := 8    // descriptors per task
  const PIPES: nat := 8

  datatype State = Ready | Running | Blocked | Zombie

  datatype Fd = Free | FileFd | PipeFd(pipe: nat, write: bool)

  /** `wake` is 0 when not sleeping; `kill` is bit 9 of the pending signals. */
  datatype Task = Task(pid: nat, state: State, wake: nat, parent: nat, code: int, kill: bool, waiting: bool,
    fds: seq<Fd>)

  /** Open read and write ends of a pipe. */
  datatype Ends = Ends(r: nat, w: nat)

  /** ring[0] is current_task and ring[i + 1] is the `next` of ring[i]. */
  datatype Sys = Sys(tasks: map<nat, Task>, ring: seq<nat>, pipes: seq<Ends>, nextPid: nat)

  // ------------------------------------------------------------------
  // schedule

  predicate Eligible(t: Task) { t.state == Ready || t.state == Running }

  ghost predicate Shaped(s: Sys) {
    && s.ring != [] && (forall a :: a in s.tasks <==> a in s.ring)
    && Distinct(s.ring)
    && |s.pipes| == PIPES
    && (forall a :: a in s.tasks ==> FdsOk(s.tasks[a].fds))
  }

  ghost predicate FdsOk(fds: seq<Fd>) {
    |fds| == FDS && forall i :: 0 <= i < FDS && fds[i].PipeFd? ==> fds[i].pipe < PIPES
  }

  /** The first eligible position from `j` on, or the length of the ring. */
  ghost function Pick(tasks: map<nat, Task>, ring: seq<nat>, j: nat): (k: nat)
    requires j <= |ring| && forall a :: a in ring ==> a in tasks
    ensures j <= k <= |ring| && (k < |ring| ==> Eligible(tasks[ring[k]]))
    ensures forall i :: j <= i < k ==> !Eligible(tasks[ring[i]])
    decreases |ring| - j
  {
    if j == |ring| || Eligible(tasks[ring[j]]) then j else Pick(tasks, ring, j + 1)
  }

  function Preempted(t: Task): Task { if t.state == Running then t.(state := Ready) else t }

  /** The state after schedule(). */
  ghost function Dispatch(s: Sys): Sys
    requires Shaped(s)
  {
    var k := Pick(s.tasks, s.ring, 1);
    if k == |s.ring| then s
    else
      var prev, next := s.ring[0], s.ring[k];
      s.(tasks := s.tasks[prev := Preempted(s.tasks[prev])][next := s.tasks[next].(state := Running)],
         ring := s.ring[k..] + s.ring[..k])
  }

  // ------------------------------------------------------------------
  // Descriptors and pipe ends

  function CloseEnd(pipes: seq<Ends>, fd: Fd): (now: seq<Ends>)
    ensures |now| == |pipes|
  {
    if !fd.PipeFd? || fd.pipe >= |pipes| then pipes
    else
      var e := pipes[fd.pipe];
      if fd.write then (if e.w > 0 then pipes[fd.pipe := Ends(e.r, e.w - 1)] else pipes)
      else if e.r > 0 then pipes[fd.pipe := Ends(e.r - 1, e.w)] else pipes
  }

  function OpenEnd(pipes: seq<Ends>, fd: Fd): (now: seq<Ends>)
    ensures |now| == |pipes|
  {
    if !fd.PipeFd? || fd.pipe >= |pipes| then pipes
    else var e := pipes[fd.pipe]; pipes[fd.pipe := if fd.write then Ends(e.r, e.w + 1) else Ends(e.r + 1, e.w)]
  }

  ghost function CloseAll(pipes: seq<Ends>, fds: seq<Fd>): (now: seq<Ends>)
    ensures |now| == |pipes|
  {
    if fds == [] then pipes else CloseEnd(CloseAll(pipes, fds[..|fds| - 1]), fds[|fds| - 1])
  }

  ghost function OpenAll(pipes: seq<Ends>, fds: seq<Fd>): (now: seq<Ends>)
    ensures |now| == |pipes|
  {
    if fds == [] then pipes else OpenEnd(OpenAll(pipes, fds[..|fds| - 1]), fds[|fds| - 1])
  }

  /** The table with its pipe descriptors closed. */
  ghost function NoPipes(fds: seq<Fd>): (now: seq<Fd>)
    ensures |now| == |fds| && forall i :: 0 <= i < |fds| ==> now[i] == if fds[i].PipeFd? then Free else fds[i]
  {
    if fds == [] then [] else NoPipes(fds[..|fds| - 1]) + [if fds[|fds| - 1].PipeFd? then Free else fds[|fds| - 1]]
  }

  function End(e: Ends, write: bool): nat { if write then e.w else e.r }

  predicate Refers(fd: Fd, p: nat, write: bool) { fd.PipeFd? && fd.pipe == p && fd.write == write }

  /** Descriptors of one end of pipe `p` in a table. */
  ghost function FdCount(fds: seq<Fd>, p: nat, write: bool): nat {
    if fds == [] then 0
    else FdCount(fds[..|fds| - 1], p, write) + if Refers(fds[|fds| - 1], p, write) then 1 else 0
  }

  /** Descriptors of one end of pipe `p` over the tasks of `ring`. */
  ghost function Count(tasks: map<nat, Task>, ring: seq<nat>, p: nat, write: bool): nat
    requires forall a :: a in ring ==> a in tasks
  {
    if ring == [] then 0
    else Count(tasks, ring[..|ring| - 1], p, write) + FdCount(tasks[ring[|ring| - 1]].fds, p, write)
  }

  lemma {:induction false} CountConcat(tasks: map<nat, Task>, x: seq<nat>, y: seq<nat>, p: nat, write: bool)
    requires forall a :: a in x + y ==> a in tasks
    ensures Count(tasks, x + y, p, write) == Count(tasks, x, p, write) + Count(tasks, y, p, write)
    decreases |y|
  {
    if y == [] {
      assert x + y == x;
    } else {
      var n := |y| - 1;
      assert (x + y)[..|x + y| - 1] == x + y[..n];
      assert (x + y)[|x + y| - 1] == y[n];
      assert forall a :: a in x + y[..n] ==> a in x + y;
      CountConcat(tasks, x, y[..n], p, write);
    }
  }

  lemma {:induction false} CountSame(a: map<nat, Task>, b: map<nat, Task>, ring: seq<nat>, p: nat, write: bool)
    requires forall x :: x in ring ==> x in a && x in b && FdCount(a[x].fds, p, write) == FdCount(b[x].fds, p, write)
    ensures Count(a, ring, p, write) == Count(b, ring, p, write)
    decreases |ring|
  {
    if ring != [] { CountSame(a, b, ring[..|ring| - 1], p, write); }
  }

  lemma CountRotate(tasks: map<nat, Task>, ring: seq<nat>, k: nat, p: nat, write: bool)
    requires k <= |ring| && forall a :: a in ring ==> a in tasks
    ensures (forall a :: a in ring[k..] + ring[..k] ==> a in tasks) &&
            Count(tasks, ring[k..] + ring[..k], p, write) == Count(tasks, ring, p, write)
  {
    assert ring == ring[..k] + ring[k..];
    CountConcat(tasks, ring[..k], ring[k..], p, write);
    CountConcat(tasks, ring[k..], ring[..k], p, write);
  }

  ghost predicate Distinct(ring: seq<nat>) {
    forall i, j :: 0 <= i < j < |ring| ==> ring[i] != ring[j]
  }

  lemma CountSplit(tasks: map<nat, Task>, ring: seq<nat>, k: nat, p: nat, write: bool)
    requires k < |ring| && forall a :: a in ring ==> a in tasks
    ensures Count(tasks, ring, p, write) ==
            Count(tasks, ring[..k], p, write) + FdCount(tasks[ring[k]].fds, p, write) +
              Count(tasks, ring[k + 1..], p, write)
  {
    var x, y := ring[..k], ring[k + 1..];
    assert ring == (x + [ring[k]]) + y && (x + [ring[k]])[..k] == x;
    CountConcat(tasks, x + [ring[k]], y, p, write);
  }

  /** Changing one task's table changes the count by its share. */
  lemma CountUpdate(tasks: map<nat, Task>, ring: seq<nat>, k: nat, t: Task, p: nat, write: bool)
    requires Distinct(ring) && k < |ring| && forall a :: a in ring ==> a in tasks
    ensures Count(tasks[ring[k] := t], ring, p, write) + FdCount(tasks[ring[k]].fds, p, write) ==
            Count(tasks, ring, p, write) + FdCount(t.fds, p, write)
  {
    var now := tasks[ring[k] := t];
    CountSplit(tasks, ring, k, p, write);
    CountSplit(now, ring, k, p, write);
    CountSame(tasks, now, ring[..k], p, write);
    CountSame(tasks, now, ring[k + 1..], p, write);
  }

  lemma CountMember(tasks: map<nat, Task>, ring: seq<nat>, k: nat, p: nat, write: bool)
    requires k < |ring| && forall a :: a in ring ==> a in tasks
    ensures FdCount(tasks[ring[k]].fds, p, write) <= Count(tasks, ring, p, write)
  {
    CountSplit(tasks, ring, k, p, write);
  }

  lemma {:induction false} FdCountMember(fds: seq<Fd>, i: nat, p: nat, write: bool)
    requires i < |fds| && Refers(fds[i], p, write)
    ensures FdCount(fds, p, write) > 0
  {
    var n := |fds| - 1;
    if i < n { FdCountMember(fds[..n], i, p, write); }
  }

  lemma {:induction false} FdCountSet(fds: seq<Fd>, i: nat, fd: Fd, p: nat, write: bool)
    requires i < |fds|
    ensures FdCount(fds[i := fd], p, write) + (if Refers(fds[i], p, write) then 1 else 0) ==
            FdCount(fds, p, write) + if Refers(fd, p, write) then 1 else 0
  {
    var n := |fds| - 1;
    if i < n {
      assert fds[i := fd][..n] == fds[..n][i := fd];
      FdCountSet(fds[..n], i, fd, p, write);
    } else {
      assert fds[i := fd][..n] == fds[..n];
    }
  }

  lemma {:induction false} FdCountNone(fds: seq<Fd>, p: nat, write: bool)
    requires forall i :: 0 <= i < |fds| ==> !fds[i].PipeFd?
    ensures FdCount(fds, p, write) == 0
  {
    if fds != [] { FdCountNone(fds[..|fds| - 1], p, write); }
  }

  /** Every open descriptor is released once, and only those are. */
  lemma {:induction false} CloseAllCounts(pipes: seq<Ends>, fds: seq<Fd>, p: nat, write: bool)
    requires p < |pipes| && FdCount(fds, p, write) <= End(pipes[p], write)
    ensures End(CloseAll(pipes, fds)[p], write) == End(pipes[p], write) - FdCount(fds, p, write)
  {
    if fds != [] { CloseAllCounts(pipes, fds[..|fds| - 1], p, write); }
  }

  lemma {:induction false} OpenAllCounts(pipes: seq<Ends>, fds: seq<Fd>, p: nat, write: bool)
    requires p < |pipes|
    ensures End(OpenAll(pipes, fds)[p], write) == End(pipes[p], write) + FdCount(fds, p, write)
  {
    if fds != [] { OpenAllCounts(pipes, fds[..|fds| - 1], p, write); }
  }

  // ------------------------------------------------------------------
  // Events

  datatype Event =
    | Tick(now: nat)            // sched_tick
    | Yield                     // sched_yield
    | Sleep(now: nat, ms: nat)  // sched_sleep
    | Block                     // sched_block
    | Wake(task: nat)           // sched_wake
    | Exit(code: int)           // sys_exit
    | Wait                      // one turn of the loop of sched_wait
    | Kill(pid: nat)            // sys_kill with signal 9
    | CtrlC(task: nat)          // sched_ctrlc
    | Spawn(child: nat)         // task_create_user and sched_add
    | Fork(child: nat)          // sys_fork
    | Pipe                      // sys_pipe
    | Close(fd: nat)            // sys_close
    | Exec                      // the descriptor loop of sys_exec
    | Open                      // sys_open, sys_open_w

  ghost function Cur(s: Sys): Task
    requires Shaped(s)
  {
    s.tasks[s.ring[0]]
  }

  ghost function Set(s: Sys, a: nat, t: Task): Sys { s.(tasks := s.tasks[a := t]) }

  function Due(t: Task, now: nat): Task {
    if t.state == Blocked && t.wake != 0 && now >= t.wake then t.(wake := 0, state := Ready) else t
  }

  ghost predicate Dies(t: Task) { t.kill && t.state != Zombie }

  ghost function Killed(t: Task): Task { t.(kill := false, fds := NoPipes(t.fds), code := -9, state := Zombie) }

  ghost function Signal(t: Task, now: nat): Task {
    if Dies(Due(t, now)) then Killed(Due(t, now)) else Due(t, now)
  }

  ghost function SignalPipes(s: Sys, now: nat, n: nat): (pipes: seq<Ends>)
    requires Shaped(s) && n <= |s.ring|
    ensures |pipes| == |s.pipes|
  {
    if n == 0 then s.pipes
    else
      var before := SignalPipes(s, now, n - 1);
      if Dies(s.tasks[s.ring[n - 1]]) then CloseAll(before, s.tasks[s.ring[n - 1]].fds) else before
  }

  ghost function Signals(s: Sys, now: nat): (t: Sys)
    requires Shaped(s)
    ensures Shaped(t)
  {
    s.(tasks := map a | a in s.tasks :: Signal(s.tasks[a], now), pipes := SignalPipes(s, now, |s.ring|))
  }

  ghost predicate HasZombieChild(tasks: map<nat, Task>, pid: nat) {
    exists c :: c in tasks && tasks[c].state == Zombie && tasks[c].parent == pid
  }

  ghost function Woken(tasks: map<nat, Task>, t: Task): Task {
    if t.state == Blocked && t.waiting && HasZombieChild(tasks, t.pid) then t.(waiting := false, state := Ready) else t
  }

  ghost function WakeWaiters(s: Sys): (t: Sys)
    requires Shaped(s)
    ensures Shaped(t)
  {
    s.(tasks := map a | a in s.tasks :: Woken(s.tasks, s.tasks[a]))
  }

  function WakeAt(now: nat, ms: nat): nat {
    var at := (now + (ms + 9) % 0x1_0000_0000 / 10) % 0x1_0000_0000; if at == 0 then 1 else at
  }

  /** The first position from `j` on of a waiting task with this pid, or the length. */
  ghost function Waiter(tasks: map<nat, Task>, ring: seq<nat>, pid: nat, j: nat): (k: nat)
    requires j <= |ring| && forall a :: a in ring ==> a in tasks
    ensures j <= k <= |ring| && (k < |ring| ==> tasks[ring[k]].pid == pid && tasks[ring[k]].waiting)
    ensures forall i :: j <= i < k ==> !(tasks[ring[i]].pid == pid && tasks[ring[i]].waiting)
    decreases |ring| - j
  {
    if j == |ring| || (tasks[ring[j]].pid == pid && tasks[ring[j]].waiting) then j else Waiter(tasks, ring, pid, j + 1)
  }

  ghost function Dead(s: Sys, code: int): (t: Sys)
    requires Shaped(s)
    ensures Shaped(t)
  {
    Set(s, s.ring[0], Cur(s).(fds := NoPipes(Cur(s).fds), code := code, state := Zombie)).(pipes := CloseAll(s.pipes,
      Cur(s).fds))
  }

  ghost function WakeParent(s: Sys): (t: Sys)
    requires Shaped(s)
    ensures Shaped(t)
  {
    var k := Waiter(s.tasks, s.ring, Cur(s).parent, 1);
    if Cur(s).parent == 0 || k == |s.ring| then s
    else Set(s, s.ring[k], s.tasks[s.ring[k]].(waiting := false, state := Ready))
  }

  predicate IsChild(t: Task, pid: nat, zombie: bool) { t.parent == pid && (zombie ==> t.state == Zombie) }

  /** The first position from `j` on of a child, or of a zombie child, or the length. */
  ghost function Child(tasks: map<nat, Task>, ring: seq<nat>, pid: nat, zombie: bool, j: nat): (k: nat)
    requires j <= |ring| && forall a :: a in ring ==> a in tasks
    ensures j <= k <= |ring| && (k < |ring| ==> IsChild(tasks[ring[k]], pid, zombie))
    ensures forall i :: j <= i < k ==> !IsChild(tasks[ring[i]], pid, zombie)
    decreases |ring| - j
  {
    if j == |ring| || IsChild(tasks[ring[j]], pid, zombie) then j else Child(tasks, ring, pid, zombie, j + 1)
  }

  ghost function Reaped(s: Sys, k: nat): Sys
    requires k < |s.ring|
  {
    s.(tasks := s.tasks - {s.ring[k]}, ring := s.ring[..k] + s.ring[k + 1..])
  }

  /** The first position from `j` on with this pid, or the length. */
  ghost function HasPid(tasks: map<nat, Task>, ring: seq<nat>, pid: nat, j: nat): (k: nat)
    requires j <= |ring| && forall a :: a in ring ==> a in tasks
    ensures j <= k <= |ring| && (k < |ring| ==> tasks[ring[k]].pid == pid)
    ensures forall i :: j <= i < k ==> tasks[ring[i]].pid != pid
    decreases |ring| - j
  {
    if j == |ring| || tasks[ring[j]].pid == pid then j else HasPid(tasks, ring, pid, j + 1)
  }

  ghost function NewTask(s: Sys, fds: seq<Fd>): Task
    requires Shaped(s)
  {
    Task(s.nextPid, Ready, 0, Cur(s).pid, 0, false, false, fds)
  }

  ghost function Insert(s: Sys, child: nat, t: Task): Sys
    requires Shaped(s)
  {
    s.(tasks := s.tasks[child := t], ring := [s.ring[0], child] + s.ring[1..], nextPid := s.nextPid + 1)
  }

  function NoFds(): (fds: seq<Fd>)
    ensures |fds| == FDS && forall i :: 0 <= i < FDS ==> fds[i] == Free
  {
    [Free, Free, Free, Free, Free, Free, Free, Free]
  }

  /** The first free descriptor from `i` on, or the length. */
  ghost function FreeFd(fds: seq<Fd>, i: nat): (k: nat)
    requires i <= |fds|
    ensures i <= k <= |fds| && (k < |fds| ==> fds[k] == Free) && forall j :: i <= j < k ==> fds[j] != Free
    decreases |fds| - i
  {
    if i == |fds| || fds[i] == Free then i else FreeFd(fds, i + 1)
  }

  /** The first pipe slot with no open end, or the length. */
  ghost function FreePipe(pipes: seq<Ends>, i: nat): (k: nat)
    requires i <= |pipes|
    ensures i <= k <= |pipes| && (k < |pipes| ==> pipes[k] == Ends(0, 0)) && forall j :: i <= j < k ==>
            pipes[j] != Ends(0, 0)
    decreases |pipes| - i
  {
    if i == |pipes| || pipes[i] == Ends(0, 0) then i else FreePipe(pipes, i + 1)
  }

  /** A pipe slot is unused and two descriptors from 3 on are free. */
  ghost predicate PipeFits(s: Sys)
    requires Shaped(s)
  {
    && FreePipe(s.pipes, 0) < PIPES && FreeFd(Cur(s).fds, 3) < FDS
    && FreeFd(Cur(s).fds, FreeFd(Cur(s).fds, 3) + 1) < FDS
  }

  /** A table with pipe p at its first two free descriptors. */
  ghost function WithPipe(fds: seq<Fd>, p: nat): seq<Fd>
    requires |fds| == FDS && FreeFd(fds, 3) < FDS && FreeFd(fds, FreeFd(fds, 3) + 1) < FDS
  {
    fds[FreeFd(fds, 3) := PipeFd(p, false)][FreeFd(fds, FreeFd(fds, 3) + 1) := PipeFd(p, true)]
  }

  ghost function PipeMade(s: Sys): Sys
    requires Shaped(s)
  {
    if !PipeFits(s) then s
    else
      var p := FreePipe(s.pipes, 0);
      Set(s, s.ring[0], Cur(s).(fds := WithPipe(Cur(s).fds, p))).(pipes := s.pipes[p := Ends(1, 1)])
  }

  ghost function Closed(s: Sys, i: nat): Sys
    requires Shaped(s)
  {
    if i >= FDS then s
    else Set(s, s.ring[0], Cur(s).(fds := Cur(s).fds[i := Free])).(pipes := CloseEnd(s.pipes, Cur(s).fds[i]))
  }

  /** Descriptors 3 to n - 1 closed, one by one. */
  ghost function ClosedFrom3(s: Sys, n: nat): (now: Sys)
    requires Shaped(s) && 3 <= n <= FDS
    ensures Shaped(now) && now.ring == s.ring
  {
    if n == 3 then s else Closed(ClosedFrom3(s, n - 1), n - 1)
  }

  ghost function Opened(s: Sys): Sys
    requires Shaped(s)
  {
    var i := FreeFd(Cur(s).fds, 3);
    if i == FDS then s else Set(s, s.ring[0], Cur(s).(fds := Cur(s).fds[i := FileFd]))
  }

  /** A task killed while no other can run goes on running as a zombie, so the
      current task of an event may be one. */
  ghost predicate Enabled(s: Sys, ev: Event) {
    && Shaped(s)
    && (ev.Wake? || ev.CtrlC? ==> ev.task in s.tasks)
    && (ev.Spawn? || ev.Fork? ==> ev.child !in s.tasks)
  }

  /** What schedule() is called on, for the events that end in it. */
  ghost function Before(s: Sys, ev: Event): (t: Sys)
    requires Enabled(s, ev)
    ensures Shaped(t) && t.ring == s.ring
  {
    match ev
    case Tick(now) => WakeWaiters(Signals(s, now))
    case Yield => s
    case Sleep(now, ms) => if ms == 0 then s else Set(s, s.ring[0], Cur(s).(wake := WakeAt(now, ms), state := Blocked))
    case Block => Set(s, s.ring[0], Cur(s).(state := Blocked))
    case Exit(code) => WakeParent(Dead(s, code))
    case Wait => Set(s, s.ring[0], Cur(s).(waiting := true, state := Blocked))
    case _ => s
  }

  ghost predicate Schedules(s: Sys, ev: Event)
    requires Enabled(s, ev)
  {
    || ev.Tick? || ev.Yield? || ev.Sleep? || ev.Block? || ev.Exit?
    || (ev.Wait? && Child(s.tasks, s.ring, Cur(s).pid, true, 1) == |s.ring| &&
       Child(s.tasks, s.ring, Cur(s).pid, false, 1) < |s.ring|)
  }

  ghost predicate Adds(ev: Event) { ev.Spawn? || ev.Fork? }

  /** The state after an event. */
  ghost function Next(s: Sys, ev: Event): Sys
    requires Enabled(s, ev)
  {
    if Schedules(s, ev) then Dispatch(Before(s, ev))
    else match ev
      case Wake(a) => if s.tasks[a].state == Blocked then Set(s, a, s.tasks[a].(wake := 0, state := Ready)) else s
      case Wait =>
        var k := Child(s.tasks, s.ring, Cur(s).pid, true, 1);
        if k < |s.ring| then Reaped(s, k) else s
      case Kill(pid) =>
        var k := HasPid(s.tasks, s.ring, pid, 1);
        if k < |s.ring| then Set(s, s.ring[k], s.tasks[s.ring[k]].(kill := true)) else s
      case CtrlC(a) => if s.tasks[a].state != Zombie then Set(s, a, s.tasks[a].(kill := true)) else s
      case Spawn(child) => Insert(s, child, NewTask(s, NoFds()))
      case Fork(child) => Insert(s, child, NewTask(s, Cur(s).fds)).(pipes := OpenAll(s.pipes, Cur(s).fds))
      case Pipe => PipeMade(s)
      case Close(i) => Closed(s, i)
      case Exec => ClosedFrom3(s, FDS)
      case _ => Opened(s)
  }

  // ------------------------------------------------------------------
  // The invariant

  ghost predicate Counted(s: Sys)
    requires Shaped(s)
  {
    forall p, write :: 0 <= p < PIPES ==> End(s.pipes[p], write) == Count(s.tasks, s.ring, p, write)
  }

  ghost predicate RunningIsCurrent(s: Sys)
    requires Shaped(s)
  {
    forall a :: a in s.tasks && s.tasks[a].state == Running ==> a == s.ring[0]
  }

  ghost predicate NoPipeFds(fds: seq<Fd>) { forall i :: 0 <= i < |fds| ==> !fds[i].PipeFd? }

  ghost predicate ZombiesClosed(s: Sys) {
    forall a :: a in s.tasks && s.tasks[a].state == Zombie ==> NoPipeFds(s.tasks[a].fds)
  }

  ghost predicate PidsDiffer(s: Sys) {
    && (forall a :: a in s.tasks ==> s.tasks[a].pid < s.nextPid)
    && forall a, b :: a in s.tasks && b in s.tasks && a != b ==> s.tasks[a].pid != s.tasks[b].pid
  }

  ghost predicate Inv(s: Sys) {
    Shaped(s) && Counted(s) && RunningIsCurrent(s) && ZombiesClosed(s) && PidsDiffer(s)
  }

  /** A change of fields that keeps the descriptors, the pid and the rules about states. */
  ghost predicate Mild(s: Sys, a: nat, t: Task)
    requires Shaped(s)
  {
    && a in s.tasks && t.fds == s.tasks[a].fds && t.pid == s.tasks[a].pid
    && (t.state == Running ==> s.tasks[a].state == Running) && (t.state == Zombie ==> s.tasks[a].state == Zombie)
  }

  lemma MildInv(s: Sys, a: nat, t: Task)
    requires Inv(s) && Mild(s, a, t)
    ensures Inv(Set(s, a, t))
  {
    var now := Set(s, a, t);
    forall p, write | 0 <= p < PIPES ensures End(now.pipes[p], write) == Count(now.tasks, now.ring, p, write) {
      CountSame(s.tasks, now.tasks, s.ring, p, write);
    }
  }

  lemma DispatchCounted(s: Sys, p: nat, write: bool)
    requires Shaped(s) && p < PIPES
    ensures Shaped(Dispatch(s)) &&
            Count(Dispatch(s).tasks, Dispatch(s).ring, p, write) == Count(s.tasks, s.ring, p, write)
  {
    DispatchShaped(s);
    var now := Dispatch(s);
    RingIs(s);
    assert forall a :: a in now.ring ==> a in now.tasks;
    hide Dispatch, Count, FdCount, Pick;
    DispatchKeys(s);
    assert forall a :: a in s.ring ==> a in s.tasks;
    hide Shaped;
    CountRotate(s.tasks, s.ring, Turn(s), p, write);
    forall x | x in now.ring ensures x in s.tasks && now.tasks[x].fds == s.tasks[x].fds {
      assert x in now.tasks.Keys;
      DispatchAt(s, x);
    }
    CountSame(s.tasks, now.tasks, now.ring, p, write);
  }

  /** How far schedule() turns the ring. */
  ghost function Turn(s: Sys): (k: nat)
    requires Shaped(s)
    ensures k < |s.ring|
  {
    var k := Pick(s.tasks, s.ring, 1); if k == |s.ring| then 0 else k
  }

  lemma RingIs(s: Sys)
    requires Shaped(s)
    ensures Dispatch(s).ring == s.ring[Turn(s)..] + s.ring[..Turn(s)]
  {
    hide Pick;
    assert s.ring[0..] + s.ring[..0] == s.ring;
  }

  /** schedule() changes no task but for READY and RUNNING. */
  lemma DispatchAt(s: Sys, a: nat)
    requires Shaped(s) && a in s.tasks
    ensures a in Dispatch(s).tasks && Dispatch(s).ring != []
    ensures var t, u := s.tasks[a], Dispatch(s).tasks[a];
            u == t.(state := u.state) && (u.state == t.state || (Eligible(u) && Eligible(t)))
            && (RunningIsCurrent(s) && u.state == Running ==> a == Dispatch(s).ring[0])
  {
    var k := Pick(s.tasks, s.ring, 1);
    if k < |s.ring| { assert (s.ring[k..] + s.ring[..k])[0] == s.ring[k]; }
  }

  lemma DispatchKeys(s: Sys)
    requires Shaped(s)
    ensures Dispatch(s).tasks.Keys == s.tasks.Keys && Dispatch(s).pipes == s.pipes && Dispatch(s).nextPid == s.nextPid
  {
  }

  lemma DispatchStates(s: Sys)
    requires Shaped(s) && RunningIsCurrent(s) && ZombiesClosed(s) && PidsDiffer(s)
    ensures Shaped(Dispatch(s)) && RunningIsCurrent(Dispatch(s)) && ZombiesClosed(Dispatch(s)) &&
            PidsDiffer(Dispatch(s))
  {
    DispatchShaped(s);
    DispatchKeys(s);
    hide Dispatch, Shaped;
    forall a | a in s.tasks
      ensures Dispatch(s).tasks[a].fds == s.tasks[a].fds && Dispatch(s).tasks[a].pid == s.tasks[a].pid
      ensures Dispatch(s).tasks[a].state == Zombie ==> s.tasks[a].state == Zombie
      ensures Dispatch(s).tasks[a].state == Running ==> a == Dispatch(s).ring[0]
    {
      DispatchAt(s, a);
    }
  }

  lemma DispatchInv(s: Sys)
    requires Inv(s)
    ensures Inv(Dispatch(s))
  {
    DispatchStates(s);
    hide Dispatch, RunningIsCurrent, ZombiesClosed, PidsDiffer;
    var now := Dispatch(s);
    DispatchKeys(s);
    forall p, write | 0 <= p < PIPES ensures End(now.pipes[p], write) == Count(now.tasks, now.ring, p, write) {
      DispatchCounted(s, p, write);
    }
  }

  lemma RotateMembers(ring: seq<nat>, k: nat)
    requires k <= |ring| && Distinct(ring)
    ensures var r := ring[k..] + ring[..k]; |r| == |ring| && Distinct(r) && forall a :: a in r <==> a in ring
  {
    var r := ring[k..] + ring[..k];
    assert ring == ring[..k] + ring[k..];
    forall a ensures a in r <==> a in ring {}
  }

  lemma DispatchShaped(s: Sys)
    requires Shaped(s)
    ensures Shaped(Dispatch(s))
  {
    hide Pick, FdsOk, Distinct;
    RotateMembers(s.ring, Pick(s.tasks, s.ring, 1));
  }

  // ------------------------------------------------------------------
  // Every event keeps the invariant

  lemma SignalAt(t: Task, now: nat)
    ensures var u := Signal(t, now);
            u.pid == t.pid && u.parent == t.parent && u.waiting == t.waiting &&
              (u.state == Running ==> t.state == Running)
            && u.fds == (if Dies(t) then NoPipes(t.fds) else t.fds) &&
               (u.state == Zombie <==> t.state == Zombie || Dies(t))
  {
  }

  lemma SignalOne(pipes: seq<Ends>, t: Task, now: nat, p: nat, write: bool)
    requires p < |pipes| && FdCount(t.fds, p, write) <= End(pipes[p], write)
    ensures End((if Dies(t) then CloseAll(pipes, t.fds) else pipes)[p], write) + FdCount(t.fds, p, write) ==
            End(pipes[p], write) + FdCount(Signal(t, now).fds, p, write)
  {
    SignalAt(t, now);
    if Dies(t) {
      CloseAllCounts(pipes, t.fds, p, write);
      FdCountNone(NoPipes(t.fds), p, write);
    }
  }

  lemma CountLast(tasks: map<nat, Task>, ring: seq<nat>, n: nat, p: nat, write: bool)
    requires 0 < n <= |ring| && forall a :: a in ring ==> a in tasks
    ensures Count(tasks, ring[..n], p, write) ==
            Count(tasks, ring[..n - 1], p, write) + FdCount(tasks[ring[n - 1]].fds, p, write)
  {
    assert ring[..n][..n - 1] == ring[..n - 1];
  }

  lemma {:induction false} SignalCount(s: Sys, now: nat, m: map<nat, Task>, n: nat, p: nat, write: bool)
    requires Shaped(s) && n <= |s.ring| && p < PIPES && End(s.pipes[p], write) == Count(s.tasks, s.ring, p, write)
    requires forall a :: a in s.ring ==> a in m && m[a] == Signal(s.tasks[a], now)
    ensures End(SignalPipes(s, now, n)[p], write) ==
            Count(m, s.ring[..n], p, write) + Count(s.tasks, s.ring[n..], p, write)
  {
    if n == 0 {
      assert s.ring[0..] == s.ring;
    } else {
      assert forall a :: a in s.ring ==> a in s.tasks;
      hide Shaped, Signal, Dies, CloseAll, Count, FdCount;
      SignalCount(s, now, m, n - 1, p, write);
      assert forall a :: a in s.ring[n - 1..] ==> a in s.ring;
      SplitFirst(s.tasks, s.ring[n - 1..], p, write);
      assert s.ring[n - 1..][1..] == s.ring[n..];
      CountLast(m, s.ring, n, p, write);
      SignalOne(SignalPipes(s, now, n - 1), s.tasks[s.ring[n - 1]], now, p, write);
    }
  }

  lemma SplitFirst(tasks: map<nat, Task>, ring: seq<nat>, p: nat, write: bool)
    requires ring != [] && forall a :: a in ring ==> a in tasks
    ensures Count(tasks, ring, p, write) == FdCount(tasks[ring[0]].fds, p, write) + Count(tasks, ring[1..], p, write)
  {
    CountSplit(tasks, ring, 0, p, write);
  }

  lemma SignalsInv(s: Sys, now: nat)
    requires Inv(s)
    ensures Inv(Signals(s, now))
  {
    var t := Signals(s, now);
    forall a | a in s.tasks
      ensures t.tasks[a].pid == s.tasks[a].pid && (t.tasks[a].state == Zombie ==> NoPipeFds(t.tasks[a].fds))
      ensures t.tasks[a].state == Running ==> s.tasks[a].state == Running
    {
      SignalAt(s.tasks[a], now);
    }
    hide Signal, SignalPipes, Count, FdCount;
    forall p, write | 0 <= p < PIPES ensures End(t.pipes[p], write) == Count(t.tasks, t.ring, p, write) {
      SignalCount(s, now, t.tasks, |s.ring|, p, write);
      assert s.ring[..|s.ring|] == s.ring;
    }
  }

  lemma WakeWaitersInv(s: Sys)
    requires Inv(s)
    ensures Inv(WakeWaiters(s))
  {
    var t := WakeWaiters(s);
    hide Count, FdCount, HasZombieChild;
    forall p, write | 0 <= p < PIPES ensures End(t.pipes[p], write) == Count(t.tasks, t.ring, p, write) {
      CountSame(s.tasks, t.tasks, s.ring, p, write);
    }
  }

  /** The current task's table and the pipe pool change together. */
  lemma TableInv(s: Sys, u: Task, pipes: seq<Ends>)
    requires Inv(s) && |pipes| == PIPES && FdsOk(u.fds) && u.pid == Cur(s).pid &&
             (u.state == Zombie ==> NoPipeFds(u.fds))
    requires forall p, write :: 0 <= p < PIPES ==>
               End(pipes[p], write) + FdCount(Cur(s).fds, p, write) == End(s.pipes[p], write) + FdCount(u.fds, p, write)
    ensures Inv(Set(s, s.ring[0], u).(pipes := pipes))
  {
    var t := Set(s, s.ring[0], u).(pipes := pipes);
    hide Count, FdCount;
    forall p, write | 0 <= p < PIPES ensures End(t.pipes[p], write) == Count(t.tasks, t.ring, p, write) {
      CountUpdate(s.tasks, s.ring, 0, u, p, write);
    }
  }

  lemma DeadInv(s: Sys, code: int)
    requires Inv(s)
    ensures Inv(Dead(s, code))
  {
    var t := Cur(s);
    forall p, write | 0 <= p < PIPES
      ensures End(CloseAll(s.pipes, t.fds)[p], write) + FdCount(t.fds, p, write) ==
              End(s.pipes[p], write) + FdCount(NoPipes(t.fds), p, write)
    {
      CountMember(s.tasks, s.ring, 0, p, write);
      CloseAllCounts(s.pipes, t.fds, p, write);
      FdCountNone(NoPipes(t.fds), p, write);
    }
    TableInv(s, t.(fds := NoPipes(t.fds), code := code, state := Zombie), CloseAll(s.pipes, t.fds));
  }

  lemma WakeParentInv(s: Sys)
    requires Inv(s)
    ensures Inv(WakeParent(s))
  {
    var k := Waiter(s.tasks, s.ring, Cur(s).parent, 1);
    if Cur(s).parent != 0 && k < |s.ring| {
      MildInv(s, s.ring[k], s.tasks[s.ring[k]].(waiting := false, state := Ready));
    }
  }

  lemma RemoveMembers(ring: seq<nat>, k: nat)
    requires k < |ring| && Distinct(ring)
    ensures var r := ring[..k] + ring[k + 1..]; Distinct(r) && forall a :: a in r <==> a in ring && a != ring[k]
  {
    var r := ring[..k] + ring[k + 1..];
    forall a | a in ring && a != ring[k] ensures a in r {
      var i :| 0 <= i < |ring| && ring[i] == a;
      assert r[if i < k then i else i - 1] == a;
    }
  }

  lemma ReapedStates(s: Sys, k: nat)
    requires Inv(s) && 0 < k < |s.ring|
    ensures var t := Reaped(s, k); Shaped(t) && RunningIsCurrent(t) && ZombiesClosed(t) && PidsDiffer(t)
  {
    RemoveMembers(s.ring, k);
    hide Counted, Count, FdCount, NoPipeFds, FdsOk, Distinct;
  }

  lemma ReapedCount(s: Sys, k: nat, p: nat, write: bool)
    requires Inv(s) && 0 < k < |s.ring| && s.tasks[s.ring[k]].state == Zombie && Shaped(Reaped(s, k))
    ensures Count(Reaped(s, k).tasks, Reaped(s, k).ring, p, write) == Count(s.tasks, s.ring, p, write)
  {
    var t := Reaped(s, k);
    hide Count, FdCount;
    CountSplit(s.tasks, s.ring, k, p, write);
    FdCountNone(s.tasks[s.ring[k]].fds, p, write);
    assert forall a :: a in s.ring[..k] + s.ring[k + 1..] ==> a in s.ring;
    CountConcat(s.tasks, s.ring[..k], s.ring[k + 1..], p, write);
    CountSame(s.tasks, t.tasks, t.ring, p, write);
  }

  lemma ReapedInv(s: Sys, k: nat)
    requires Inv(s) && 0 < k < |s.ring| && s.tasks[s.ring[k]].state == Zombie
    ensures Inv(Reaped(s, k))
  {
    ReapedStates(s, k);
    hide RunningIsCurrent, ZombiesClosed, PidsDiffer, Count;
    var t := Reaped(s, k);
    forall p, write | 0 <= p < PIPES ensures End(t.pipes[p], write) == Count(t.tasks, t.ring, p, write) {
      ReapedCount(s, k, p, write);
    }
  }

  lemma InsertMembers(ring: seq<nat>, child: nat)
    requires ring != [] && child !in ring && Distinct(ring)
    ensures var r := [ring[0], child] + ring[1..]; Distinct(r) && forall a :: a in r <==> a in ring || a == child
  {
    var r := [ring[0], child] + ring[1..];
    assert forall i :: 2 <= i < |r| ==> r[i] == ring[i - 1];
    forall a | a in ring ensures a in r {
      var i :| 0 <= i < |ring| && ring[i] == a;
      assert r[if i == 0 then 0 else i + 1] == a;
    }
    assert r[1] == child;
  }

  lemma InsertCount(s: Sys, child: nat, t: Task, p: nat, write: bool)
    requires Shaped(s) && child !in s.tasks
    ensures var n := Insert(s, child, t);
            (forall a :: a in n.ring ==> a in n.tasks) &&
             Count(n.tasks, n.ring, p, write) == Count(s.tasks, s.ring, p, write) + FdCount(t.fds, p, write)
  {
    hide Count, FdCount, FdsOk;
    var n := Insert(s, child, t);
    InsertMembers(s.ring, child);
    assert forall a :: a in n.ring ==> a in n.tasks;
    assert forall a :: a in s.ring ==> a in s.tasks && n.tasks[a] == s.tasks[a];
    hide Shaped, Distinct;
    CountSplit(n.tasks, n.ring, 1, p, write);
    assert n.ring[..1] == s.ring[..1] && n.ring[2..] == s.ring[1..];
    assert s.ring == s.ring[..1] + s.ring[1..];
    CountConcat(s.tasks, s.ring[..1], s.ring[1..], p, write);
    CountSame(s.tasks, n.tasks, s.ring[..1], p, write);
    CountSame(s.tasks, n.tasks, s.ring[1..], p, write);
  }

  lemma InsertStates(s: Sys, child: nat, fds: seq<Fd>, pipes: seq<Ends>)
    requires Inv(s) && child !in s.tasks && FdsOk(fds) && |pipes| == PIPES
    ensures var t := Insert(s, child, NewTask(s, fds)).(pipes := pipes);
            Shaped(t) && RunningIsCurrent(t) && ZombiesClosed(t) && PidsDiffer(t)
  {
    InsertMembers(s.ring, child);
    InsertShaped(s, child, fds, pipes);
    hide Counted, Count, FdCount, NoPipeFds, FdsOk, Distinct, Shaped;
  }

  lemma InsertShaped(s: Sys, child: nat, fds: seq<Fd>, pipes: seq<Ends>)
    requires Shaped(s) && child !in s.tasks && FdsOk(fds) && |pipes| == PIPES
    ensures Shaped(Insert(s, child, NewTask(s, fds)).(pipes := pipes))
  {
    InsertMembers(s.ring, child);
    hide FdsOk, Distinct;
  }

  /** A new task with its own descriptors counted. */
  lemma InsertInv(s: Sys, child: nat, fds: seq<Fd>, pipes: seq<Ends>)
    requires Inv(s) && child !in s.tasks && FdsOk(fds) && |pipes| == PIPES
    requires forall p, write :: 0 <= p < PIPES ==>
             End(pipes[p], write) == End(s.pipes[p], write) + FdCount(fds, p, write)
    ensures Inv(Insert(s, child, NewTask(s, fds)).(pipes := pipes))
  {
    InsertStates(s, child, fds, pipes);
    hide RunningIsCurrent, ZombiesClosed, PidsDiffer, Count, FdCount;
    var t := Insert(s, child, NewTask(s, fds)).(pipes := pipes);
    forall p, write | 0 <= p < PIPES ensures End(t.pipes[p], write) == Count(t.tasks, t.ring, p, write) {
      InsertCount(s, child, NewTask(s, fds), p, write);
    }
  }

  /** No descriptor refers to a slot that pipe_alloc hands out. */
  lemma FreePipeUnused(s: Sys, p: nat, a: nat, i: nat)
    requires Inv(s) && p < PIPES && s.pipes[p] == Ends(0, 0) && a in s.tasks && i < FDS
    ensures !(s.tasks[a].fds[i].PipeFd? && s.tasks[a].fds[i].pipe == p)
  {
    var fd := s.tasks[a].fds[i];
    if fd.PipeFd? && fd.pipe == p {
      var k :| 0 <= k < |s.ring| && s.ring[k] == a;
      assert End(s.pipes[p], fd.write) == Count(s.tasks, s.ring, p, fd.write);
      CountMember(s.tasks, s.ring, k, p, fd.write);
      FdCountMember(s.tasks[a].fds, i, p, fd.write);
    }
  }

  lemma PipeMadeInv(s: Sys)
    requires Inv(s) && Cur(s).state != Zombie
    ensures Inv(PipeMade(s))
  {
    var q, fds := FreePipe(s.pipes, 0), Cur(s).fds;
    var r := FreeFd(fds, 3);
    if q < PIPES && r < FDS && FreeFd(fds, r + 1) < FDS {
      var w := FreeFd(fds, r + 1);
      var one := fds[r := PipeFd(q, false)];
      var two := one[w := PipeFd(q, true)];
      var pipes := s.pipes[q := Ends(1, 1)];
      forall p, write | 0 <= p < PIPES
        ensures End(pipes[p], write) + FdCount(fds, p, write) == End(s.pipes[p], write) + FdCount(two, p, write)
      {
        FdCountSet(fds, r, PipeFd(q, false), p, write);
        FdCountSet(one, w, PipeFd(q, true), p, write);
      }
      TableInv(s, Cur(s).(fds := two), pipes);
    }
  }

  /** For a zombie that still runs, sys_pipe keeps the invariant exactly when there
      is no room for a pipe. */
  lemma PipeByZombie(s: Sys)
    requires Inv(s) && Cur(s).state == Zombie
    ensures Inv(PipeMade(s)) <==> !PipeFits(s)
  {
    if PipeFits(s) {
      var now, r := PipeMade(s), FreeFd(Cur(s).fds, 3);
      assert now.tasks[s.ring[0]].state == Zombie && now.tasks[s.ring[0]].fds[r].PipeFd?;
    }
  }

  lemma ClosedInv(s: Sys, i: nat)
    requires Inv(s)
    ensures Inv(Closed(s, i))
  {
    if i < FDS {
      var t := Cur(s);
      forall p, write | 0 <= p < PIPES
        ensures End(CloseEnd(s.pipes, t.fds[i])[p], write) + FdCount(t.fds, p, write) ==
                End(s.pipes[p], write) + FdCount(t.fds[i := Free], p, write)
      {
        FdCountSet(t.fds, i, Free, p, write);
        CountMember(s.tasks, s.ring, 0, p, write);
        if Refers(t.fds[i], p, write) { FdCountMember(t.fds, i, p, write); }
      }
      TableInv(s, t.(fds := t.fds[i := Free]), CloseEnd(s.pipes, t.fds[i]));
    }
  }

  lemma {:induction false} ClosedFrom3Inv(s: Sys, n: nat)
    requires Inv(s) && 3 <= n <= FDS
    ensures Inv(ClosedFrom3(s, n))
  {
    if n > 3 {
      ClosedFrom3Inv(s, n - 1);
      ClosedInv(ClosedFrom3(s, n - 1), n - 1);
    }
  }

  lemma OpenedInv(s: Sys)
    requires Inv(s)
    ensures Inv(Opened(s))
  {
    var i := FreeFd(Cur(s).fds, 3);
    if i < FDS {
      forall p, write | 0 <= p < PIPES
        ensures FdCount(Cur(s).fds, p, write) == FdCount(Cur(s).fds[i := FileFd], p, write)
      {
        FdCountSet(Cur(s).fds, i, FileFd, p, write);
      }
      TableInv(s, Cur(s).(fds := Cur(s).fds[i := FileFd]), s.pipes);
    }
  }

  lemma BeforeInv(s: Sys, ev: Event)
    requires Inv(s) && Enabled(s, ev)
    ensures Inv(Before(s, ev))
  {
    hide Inv;
    match ev
    case Tick(now) =>
      SignalsInv(s, now);
      WakeWaitersInv(Signals(s, now));
    case Sleep(now, ms) =>
      if ms != 0 { MildInv(s, s.ring[0], Cur(s).(wake := WakeAt(now, ms), state := Blocked)); }
    case Block => MildInv(s, s.ring[0], Cur(s).(state := Blocked));
    case Exit(code) =>
      DeadInv(s, code);
      WakeParentInv(Dead(s, code));
    case Wait => MildInv(s, s.ring[0], Cur(s).(waiting := true, state := Blocked));
    case _ =>
  }

  lemma QuietInv(s: Sys, ev: Event)
    requires Inv(s) && Enabled(s, ev) && !Schedules(s, ev) && (ev.Wake? || ev.Wait? || ev.Kill? || ev.CtrlC?)
    ensures Inv(Next(s, ev))
  {
    hide Inv;
    match ev
    case Wake(a) => if s.tasks[a].state == Blocked { MildInv(s, a, s.tasks[a].(wake := 0, state := Ready)); }
    case Wait =>
      var k := Child(s.tasks, s.ring, Cur(s).pid, true, 1);
      if k < |s.ring| { ReapedInv(s, k); }
    case Kill(pid) =>
      var k := HasPid(s.tasks, s.ring, pid, 1);
      if k < |s.ring| { MildInv(s, s.ring[k], s.tasks[s.ring[k]].(kill := true)); }
    case CtrlC(a) => MildInv(s, a, s.tasks[a].(kill := true));
    case _ =>
  }

  lemma NewInv(s: Sys, child: nat)
    requires Inv(s) && child !in s.tasks
    ensures Inv(Insert(s, child, NewTask(s, NoFds())))
    ensures Inv(Insert(s, child, NewTask(s, Cur(s).fds)).(pipes := OpenAll(s.pipes, Cur(s).fds)))
  {
    var fds := Cur(s).fds;
    forall p, write | 0 <= p < PIPES
      ensures End(OpenAll(s.pipes, fds)[p], write) == End(s.pipes[p], write) + FdCount(fds, p, write)
      ensures FdCount(NoFds(), p, write) == 0
    {
      OpenAllCounts(s.pipes, fds, p, write);
      FdCountNone(NoFds(), p, write);
    }
    assert FdsOk(fds);
    hide Inv;
    InsertInv(s, child, NoFds(), s.pipes);
    InsertInv(s, child, fds, OpenAll(s.pipes, fds));
  }

  /** The one way to break the invariant: sys_pipe with room for a pipe, by a task
      that was killed and still runs. */
  ghost predicate Breaks(s: Sys, ev: Event) {
    Shaped(s) && ev.Pipe? && Cur(s).state == Zombie && PipeFits(s)
  }

  /** Every other event keeps the invariant: one ring of all tasks, only the current
      task RUNNING, zombies without pipe ends, end counts equal to open descriptors. */
  lemma StepInv(s: Sys, ev: Event)
    requires Inv(s) && Enabled(s, ev)
    ensures Inv(Next(s, ev)) <==> !Breaks(s, ev)
  {
    hide Inv, Dispatch, Before, PipeFits;
    if Schedules(s, ev) {
      BeforeInv(s, ev);
      DispatchInv(Before(s, ev));
    } else {
      match ev
      case Spawn(child) => NewInv(s, child);
      case Fork(child) => NewInv(s, child);
      case Pipe => if Cur(s).state == Zombie { PipeByZombie(s); } else { PipeMadeInv(s); }
      case Close(i) => ClosedInv(s, i);
      case Exec => ClosedFrom3Inv(s, FDS);
      case Open => OpenedInv(s);
      case _ => QuietInv(s, ev);
    }
  }

  /** Any sequence of events. */
  ghost predicate Trace(ss: seq<Sys>, evs: seq<Event>) {
    |ss| == |evs| + 1 && Inv(ss[0]) &&
    forall i :: 0 <= i < |evs| ==> Enabled(ss[i], evs[i]) && ss[i + 1] == Next(ss[i], evs[i])
  }

  /** One with no such pipe. */
  ghost predicate Run(ss: seq<Sys>, evs: seq<Event>) {
    Trace(ss, evs) && forall i :: 0 <= i < |evs| ==> !Breaks(ss[i], evs[i])
  }

  /** The invariant holds throughout a sequence of events if and only if none of them
      is such a pipe. */
  lemma TraceInv(ss: seq<Sys>, evs: seq<Event>)
    requires Trace(ss, evs)
    ensures (forall i :: 0 <= i <= |evs| ==> Inv(ss[i])) <==> Run(ss, evs)
  {
    hide Inv, Enabled, Next, Breaks;
    if Run(ss, evs) {
      forall i | 0 <= i <= |evs| ensures Inv(ss[i]) { RunInv(ss, evs, i); }
    }
    if forall i :: 0 <= i <= |evs| ==> Inv(ss[i]) {
      forall i | 0 <= i < |evs| ensures !Breaks(ss[i], evs[i]) {
        assert Enabled(ss[i], evs[i]) && Inv(ss[i]) && Inv(ss[i + 1]);
        StepInv(ss[i], evs[i]);
      }
    }
  }

  lemma RunAt(ss: seq<Sys>, evs: seq<Event>, i: nat)
    requires Run(ss, evs) && i < |evs|
    ensures Enabled(ss[i], evs[i]) && ss[i + 1] == Next(ss[i], evs[i]) && !Breaks(ss[i], evs[i])
  {
  }

  lemma {:induction false} RunInv(ss: seq<Sys>, evs: seq<Event>, n: nat)
    requires Run(ss, evs) && n <= |evs|
    ensures Inv(ss[n])
  {
    hide Inv, Enabled, Next, Breaks;
    if n > 0 {
      RunInv(ss, evs, n - 1);
      RunAt(ss, evs, n - 1);
      StepInv(ss[n - 1], evs[n - 1]);
    }
  }

  // ------------------------------------------------------------------
  // Dispatching

  /** A switch is made by schedule() only, and to a task that was neither BLOCKED
      nor ZOMBIE when it was called. */
  lemma SwitchIsEligible(s: Sys, ev: Event)
    requires Inv(s) && Enabled(s, ev) && Next(s, ev).ring[..1] != s.ring[..1]
    ensures Schedules(s, ev)
    ensures var a := Next(s, ev).ring[0];
            a in s.tasks && Eligible(Before(s, ev).tasks[a]) && Next(s, ev).tasks[a].state == Running
  {
    if !Schedules(s, ev) {
      KeepsCurrent(s, ev);
    } else {
      hide Before, Schedules, Inv;
      var t := Before(s, ev);
      var k := Pick(t.tasks, t.ring, 1);
      assert k < |t.ring| ==> (t.ring[k..] + t.ring[..k])[0] == t.ring[k];
    }
  }

  lemma KeepsCurrent(s: Sys, ev: Event)
    requires Shaped(s) && Enabled(s, ev) && !Schedules(s, ev)
    ensures Next(s, ev).ring != [] && Next(s, ev).ring[..1] == s.ring[..1]
  {
  }

  // ------------------------------------------------------------------
  // No lost wake-ups

  lemma WokenAt(s: Sys, a: nat)
    requires Shaped(s) && a in s.tasks
    ensures var t := WakeWaiters(s).tasks[a];
            t == s.tasks[a].(state := t.state, waiting := t.waiting) &&
              (t.state == Zombie <==> s.tasks[a].state == Zombie)
            && (t.state == Blocked ==> s.tasks[a].state == Blocked && t.waiting == s.tasks[a].waiting)
            && !(t.state == Blocked && t.waiting && HasZombieChild(s.tasks, t.pid))
  {
  }

  /** Waking waiters changes no zombie. */
  lemma ZombieChildren(s: Sys, t: Sys, pid: nat)
    requires s.tasks.Keys == t.tasks.Keys
    requires forall a :: a in s.tasks ==>
             t.tasks[a].parent == s.tasks[a].parent && (t.tasks[a].state == Zombie <==> s.tasks[a].state == Zombie)
    ensures HasZombieChild(t.tasks, pid) <==> HasZombieChild(s.tasks, pid)
  {
    if HasZombieChild(t.tasks, pid) {
      var c :| c in t.tasks && t.tasks[c].state == Zombie && t.tasks[c].parent == pid;
      assert c in s.tasks && s.tasks[c].state == Zombie && s.tasks[c].parent == pid;
    }
    if HasZombieChild(s.tasks, pid) {
      var c :| c in s.tasks && s.tasks[c].state == Zombie && s.tasks[c].parent == pid;
      assert c in t.tasks && t.tasks[c].state == Zombie && t.tasks[c].parent == pid;
    }
  }

  ghost predicate Settled(s: Sys, a: nat, now: nat)
    requires a in s.tasks
  {
    var t := s.tasks[a];
    && !(t.state == Blocked && t.waiting && HasZombieChild(s.tasks, t.pid))
    && (t.state == Blocked ==> t.wake == 0 || now < t.wake)
    && (t.kill ==> t.state == Zombie)
  }

  lemma BeforeSettled(s: Sys, now: nat, a: nat)
    requires Shaped(s) && a in s.tasks
    ensures Settled(WakeWaiters(Signals(s, now)), a, now)
  {
    var m := Signals(s, now);
    var w := WakeWaiters(m);
    WokenAt(m, a);
    assert m.tasks[a] == Signal(s.tasks[a], now);
    forall b | b in m.tasks
      ensures w.tasks[b].parent == m.tasks[b].parent && (w.tasks[b].state == Zombie <==> m.tasks[b].state == Zombie)
    {
      WokenAt(m, b);
    }
    hide Signals, WakeWaiters, HasZombieChild;
    ZombieChildren(m, w, w.tasks[a].pid);
  }

  lemma DispatchSettled(w: Sys, now: nat, a: nat)
    requires Shaped(w) && a in w.tasks && Settled(w, a, now)
    ensures a in Dispatch(w).tasks && Settled(Dispatch(w), a, now)
  {
    hide HasZombieChild, Dispatch, Shaped;
    DispatchAt(w, a);
    DispatchKeys(w);
    var d := Dispatch(w);
    forall b | b in w.tasks
      ensures d.tasks[b].parent == w.tasks[b].parent && (d.tasks[b].state == Zombie <==> w.tasks[b].state == Zombie)
    {
      DispatchAt(w, b);
    }
    ZombieChildren(w, d, d.tasks[a].pid);
  }

  /** After a tick no task is blocked in wait with a zombie child, none sleeps past
      its due tick, and no live task has SIGKILL pending. */
  lemma TickSettles(s: Sys, now: nat, a: nat)
    requires Shaped(s) && a in s.tasks
    ensures a in Next(s, Tick(now)).tasks && Settled(Next(s, Tick(now)), a, now)
  {
    BeforeSettled(s, now, a);
    hide Signals, WakeWaiters, Settled, Dispatch;
    DispatchSettled(WakeWaiters(Signals(s, now)), now, a);
  }

  // ------------------------------------------------------------------
  // Zombies

  /** An exiting child wakes its parent whatever state the parent is in, and a zombie
      that still runs can block itself. */
  ghost predicate Revives(s: Sys, ev: Event, a: nat)
    requires Enabled(s, ev) && a in s.tasks
  {
    if a == s.ring[0] then ev.Block? || (ev.Sleep? && ev.ms != 0) || (ev.Wait? && Schedules(s, ev))
    else ev.Exit? && Cur(s).parent != 0 && s.tasks[a].pid == Cur(s).parent && s.tasks[a].waiting
  }

  lemma ExitZombie(s: Sys, code: int, a: nat)
    requires Inv(s) && a in s.tasks && s.tasks[a].state == Zombie
    ensures WakeParent(Dead(s, code)).tasks[a].state == Zombie <==> !Revives(s, Exit(code), a)
  {
    var d := Dead(s, code);
    var k := Waiter(d.tasks, d.ring, Cur(d).parent, 1);
    var i :| 0 <= i < |s.ring| && s.ring[i] == a;
    assert Cur(d).parent == Cur(s).parent && (a != s.ring[0] ==> d.tasks[a] == s.tasks[a]);
    if Revives(s, Exit(code), a) {
      assert i >= 1 && k <= i;
      assert s.tasks[s.ring[k]].pid == s.tasks[a].pid;
    }
  }

  lemma BeforeZombie(s: Sys, ev: Event, a: nat)
    requires Inv(s) && Enabled(s, ev) && Schedules(s, ev) && a in s.tasks && s.tasks[a].state == Zombie
    ensures a in Before(s, ev).tasks && (Before(s, ev).tasks[a].state == Zombie <==> !Revives(s, ev, a))
  {
    match ev
    case Exit(code) => ExitZombie(s, code, a);
    case Tick(now) =>
      SignalAt(s.tasks[a], now);
      WokenAt(Signals(s, now), a);
    case _ =>
  }

  lemma QuietZombie(s: Sys, ev: Event, a: nat)
    requires Inv(s) && Enabled(s, ev) && !Schedules(s, ev) && a in s.tasks && s.tasks[a].state == Zombie &&
             a in Next(s, ev).tasks
    ensures Next(s, ev).tasks[a].state == Zombie
  {
    hide Inv, Pick, FreeFd, FreePipe, HasPid, Child, CloseAll, OpenAll, CloseEnd, NoFds;
    match ev
    case Exec => ExecKeeps(s, FDS, a);
    case Pipe => assert PipeMade(s).tasks[a].state == s.tasks[a].state;
    case Close(i) => assert Closed(s, i).tasks[a].state == s.tasks[a].state;
    case Open => assert Opened(s).tasks[a].state == s.tasks[a].state;
    case _ =>
  }

  lemma {:induction false} ExecKeeps(s: Sys, n: nat, a: nat)
    requires Shaped(s) && 3 <= n <= FDS && a in s.tasks
    ensures a in ClosedFrom3(s, n).tasks && ClosedFrom3(s, n).tasks[a].state == s.tasks[a].state
  {
    if n > 3 { ExecKeeps(s, n - 1, a); }
  }

  /** A zombie stays a zombie until it is reaped, unless a child of it exits while
      its `waiting` flag is still set, or it still runs and blocks itself: exactly
      then it comes back to life. */
  lemma ZombieStep(s: Sys, ev: Event, a: nat)
    requires Inv(s) && Enabled(s, ev) && a in s.tasks && s.tasks[a].state == Zombie && a in Next(s, ev).tasks
    ensures Next(s, ev).tasks[a].state == Zombie <==> !Revives(s, ev, a)
  {
    if Schedules(s, ev) {
      BeforeZombie(s, ev, a);
      hide Before, Dispatch, Inv, Schedules, Revives;
      DispatchAt(Before(s, ev), a);
    } else {
      QuietZombie(s, ev, a);
    }
  }

  /** A zombie is final over every run in which no zombie is left `waiting` and it
      does not block itself. */
  lemma {:induction false} ZombieFinal(ss: seq<Sys>, evs: seq<Event>, a: nat, i: nat, j: nat)
    requires Run(ss, evs) && i <= j <= |evs|
    requires forall k :: i <= k <= j ==> a in ss[k].tasks
    requires forall k, b :: i <= k < j && b in ss[k].tasks && ss[k].tasks[b].state == Zombie ==> !ss[k].tasks[b].waiting
    requires forall k :: i <= k < j && (evs[k].Block? || evs[k].Sleep? || evs[k].Wait?) ==>
             ss[k].ring != [] && ss[k].ring[0] != a
    requires ss[i].tasks[a].state == Zombie
    ensures ss[j].tasks[a].state == Zombie
    decreases j
  {
    hide Inv, Enabled, Next;
    if i < j {
      ZombieFinal(ss, evs, a, i, j - 1);
      RunInv(ss, evs, j - 1);
      RunAt(ss, evs, j - 1);
      ZombieStep(ss[j - 1], evs[j - 1], a);
    }
  }

  /** A parent in sched_wait with SIGKILL pending, and its running child. */
  ghost function KilledInWait(): Sys {
    Sys(map[1 := Task(1, Blocked, 0, 0, 0, true, true, NoFds()), 2 := Task(2, Running, 0, 1, 0, false, false, NoFds())],
        [2, 1], seq(PIPES, _ => Ends(0, 0)), 3)
  }

  /** The parent dies at the tick, is woken by its child's exit and runs again. */
  lemma ZombieRevived() returns (ss: seq<Sys>)
    ensures |ss| == 3 && Run(ss, [Tick(0), Exit(0)])
    ensures 1 in ss[1].tasks && ss[1].tasks[1].state == Zombie
    ensures 1 in ss[2].tasks && ss[2].tasks[1].state == Running && ss[2].ring == [1, 2]
  {
    hide Next, Inv, Enabled, KilledInWait;
    var s0 := KilledInWait();
    RevivedStart();
    RevivedTick(s0);
    RevivedExit(Next(s0, Tick(0)));
    ss := [s0, Next(s0, Tick(0)), Next(Next(s0, Tick(0)), Exit(0))];
  }

  ghost predicate Reviving(s: Sys, killed: bool) {
    && Inv(s) && s.ring == [2, 1] && s.tasks.Keys == {1, 2} && s.tasks[2].state == Running && s.tasks[2].parent == 1
    && s.tasks[1].pid == 1 && s.tasks[1].waiting && s.tasks[2].pid == 2 && s.tasks[1].wake == 0 && !s.tasks[2].kill
    && if killed then s.tasks[1].state == Zombie else s.tasks[1].state == Blocked && s.tasks[1].kill
  }

  lemma RevivedStart()
    ensures Reviving(KilledInWait(), false) && Enabled(KilledInWait(), Tick(0))
  {
    var s := KilledInWait();
    assert Shaped(s) by { assert s.ring[0] == 2 && s.ring[1] == 1; }
    forall p, write | 0 <= p < PIPES ensures End(s.pipes[p], write) == Count(s.tasks, s.ring, p, write) {
      FdCountNone(NoFds(), p, write);
      CountConcat(s.tasks, [2], [1], p, write);
      assert [2] + [1] == s.ring;
      assert [2][..0] == [] && [1][..0] == [];
    }
  }

  lemma RevivedTick(s: Sys)
    requires Reviving(s, false) && Enabled(s, Tick(0))
    ensures Reviving(Next(s, Tick(0)), true)
  {
    StepInv(s, Tick(0));
    var m := Signals(s, 0);
    assert m.tasks[1].state == Zombie && m.tasks[2] == s.tasks[2];
    var w := WakeWaiters(m);
    assert w.tasks[1] == m.tasks[1] && w.tasks[2] == m.tasks[2];
    assert Pick(w.tasks, w.ring, 1) == 2;
  }

  lemma RevivedExit(s: Sys)
    requires Reviving(s, true)
    ensures Enabled(s, Exit(0)) && var t := Next(s, Exit(0));
            1 in t.tasks && t.tasks[1].state == Running && t.ring == [1, 2]
  {
    RevivedDead(s);
    var w := WakeParent(Dead(s, 0));
    hide Inv, Dead, WakeParent, CloseAll, NoPipes;
    assert Pick(w.tasks, w.ring, 1) == 1;
  }

  lemma RevivedDead(s: Sys)
    requires Reviving(s, true)
    ensures var w := WakeParent(Dead(s, 0));
            w.ring == [2, 1] && w.tasks.Keys == {1, 2} && w.tasks[1].state == Ready && w.tasks[2].state == Zombie
  {
    var d := Dead(s, 0);
    hide Inv, CloseAll, NoPipes;
    assert Waiter(d.tasks, d.ring, 1, 1) == 1;
  }

  /** One task, with SIGKILL pending. */
  ghost function KilledAlone(): Sys {
    Sys(map[1 := Task(1, Running, 0, 0, 0, true, false, NoFds())], [1], seq(PIPES, _ => Ends(0, 0)), 2)
  }

  /** It dies at the tick, goes on running and makes a pipe. */
  lemma ZombiePipes() returns (ss: seq<Sys>)
    ensures |ss| == 3 && Trace(ss, [Tick(0), Pipe])
    ensures ss[1].ring == [1] && 1 in ss[1].tasks && ss[1].tasks[1].state == Zombie && Inv(ss[1]) && !Inv(ss[2])
  {
    var s0 := KilledAlone();
    AloneStart();
    AloneTick();
    hide Next, Inv, KilledAlone, Breaks;
    var s1 := Next(s0, Tick(0));
    AloneFits(s1);
    StepInv(s1, Pipe);
    ss := [s0, s1, Next(s1, Pipe)];
  }

  lemma AloneStart()
    ensures Inv(KilledAlone())
  {
    var s := KilledAlone();
    assert Shaped(s) by { assert s.ring[0] == 1; }
    forall p, write | 0 <= p < PIPES ensures End(s.pipes[p], write) == Count(s.tasks, s.ring, p, write) {
      FdCountNone(NoFds(), p, write);
      assert [1][..0] == [];
    }
  }

  lemma AloneTick()
    ensures var s := KilledAlone();
            Enabled(s, Tick(0)) && var t := Next(s, Tick(0));
            Inv(t) && t.ring == [1] && 1 in t.tasks && t.tasks[1].state == Zombie && t.tasks[1].fds == NoFds()
  {
    AloneStart();
    var s := KilledAlone();
    StepInv(s, Tick(0));
    hide Inv, SignalPipes, HasZombieChild;
    var m := Signals(s, 0);
    assert m.tasks[1] == Killed(s.tasks[1]) && NoPipes(NoFds()) == NoFds();
    var w := WakeWaiters(m);
    assert w.tasks[1] == m.tasks[1] && Pick(w.tasks, w.ring, 1) == 1;
  }

  lemma AloneFits(t: Sys)
    requires Inv(t) && t.ring == [1] && 1 in t.tasks && t.tasks[1].state == Zombie && t.tasks[1].fds == NoFds()
    ensures Breaks(t, Pipe)
  {
    assert Counted(t);
    forall write ensures End(t.pipes[0], write) == 0 {
      FdCountNone(NoFds(), 0, write);
      assert [1][..0] == [];
      assert Count(t.tasks, t.ring, 0, write) == 0;
    }
    assert End(t.pipes[0], false) == 0 && End(t.pipes[0], true) == 0;
    assert FreePipe(t.pipes, 0) == 0;
    assert FreeFd(NoFds(), 3) == 3 && FreeFd(NoFds(), 4) == 4;
  }

  // ------------------------------------------------------------------
  // Bounded waiting

  /** The distance of a task from the current one. */
  ghost function Pos(ring: seq<nat>, a: nat): (i: nat)
    requires a in ring
    ensures i < |ring| && ring[i] == a
  {
    if ring[0] == a then 0 else 1 + Pos(ring[1..], a)
  }

  lemma PosIs(ring: seq<nat>, a: nat, i: nat)
    requires Distinct(ring) && i < |ring| && ring[i] == a
    ensures Pos(ring, a) == i
  {
  }

  lemma TurnIs(s: Sys, i: nat)
    requires Shaped(s) && 1 <= i < |s.ring| && Eligible(s.tasks[s.ring[i]])
    ensures 1 <= Turn(s) <= i && (Turn(s) == i ==> Dispatch(s).tasks[s.ring[i]].state == Running)
  {
    hide Distinct, FdsOk;
  }

  lemma RotatePos(ring: seq<nat>, k: nat, i: nat)
    requires Distinct(ring) && k <= i < |ring|
    ensures var r := ring[k..] + ring[..k]; ring[i] in r && Pos(r, ring[i]) == i - k
  {
    var r := ring[k..] + ring[..k];
    RotateMembers(ring, k);
    assert r[i - k] == ring[i];
    hide Distinct, Pos;
    PosIs(r, ring[i], i - k);
  }

  /** Each call of schedule() brings a task that stays eligible at least one place nearer. */
  lemma DispatchNearer(s: Sys, a: nat)
    requires Shaped(s) && a in s.ring && Pos(s.ring, a) >= 1 && Eligible(s.tasks[a])
    ensures var d := Dispatch(s);
            a in d.ring && Pos(d.ring, a) < Pos(s.ring, a) &&
            (Pos(d.ring, a) == 0 ==> a in d.tasks && d.tasks[a].state == Running)
  {
    hide Dispatch, Pos, Turn, Pick;
    var i := Pos(s.ring, a);
    DispatchAt(s, a);
    TurnIs(s, i);
    RingIs(s);
    RotatePos(s.ring, Turn(s), i);
  }

  lemma AddFurther(s: Sys, child: nat, t: Task, a: nat)
    requires Shaped(s) && child !in s.tasks && a in s.ring && Pos(s.ring, a) >= 1
    ensures var n := Insert(s, child, t); a in n.ring && Pos(n.ring, a) == Pos(s.ring, a) + 1
  {
    var n, i := Insert(s, child, t), Pos(s.ring, a);
    InsertMembers(s.ring, child);
    assert n.ring[i + 1] == a;
    PosIs(n.ring, a, i + 1);
  }

  lemma ReapNearer(s: Sys, k: nat, a: nat)
    requires Shaped(s) && 0 < k < |s.ring| && a in s.ring && a != s.ring[k]
    ensures a in Reaped(s, k).ring && Pos(Reaped(s, k).ring, a) <= Pos(s.ring, a) &&
            (Pos(s.ring, a) >= 1 ==> Pos(Reaped(s, k).ring, a) >= 1)
  {
    var r, i := Reaped(s, k).ring, Pos(s.ring, a);
    RemoveMembers(s.ring, k);
    var j := if i < k then i else i - 1;
    assert r[j] == a;
    PosIs(r, a, j);
  }

  lemma QuietPos(s: Sys, ev: Event, a: nat)
    requires Inv(s) && Enabled(s, ev) && !Schedules(s, ev) && a in s.ring && Pos(s.ring, a) >= 1 &&
             a in Next(s, ev).ring
    ensures 1 <= Pos(Next(s, ev).ring, a) <= Pos(s.ring, a) + if Adds(ev) then 1 else 0
  {
    match ev
    case Spawn(child) => AddFurther(s, child, NewTask(s, NoFds()), a);
    case Fork(child) => AddFurther(s, child, NewTask(s, Cur(s).fds), a);
    case Wait =>
      var k := Child(s.tasks, s.ring, Cur(s).pid, true, 1);
      if k < |s.ring| {
        RemoveMembers(s.ring, k);
        ReapNearer(s, k, a);
      }
    case _ =>
  }

  lemma ScheduledPos(s: Sys, ev: Event, a: nat)
    requires Inv(s) && Enabled(s, ev) && Schedules(s, ev) && a in s.ring && Pos(s.ring, a) >= 1
    requires a in Next(s, ev).tasks && Next(s, ev).tasks[a].state == Ready
    ensures a in Next(s, ev).ring && 1 <= Pos(Next(s, ev).ring, a) < Pos(s.ring, a)
  {
    BeforeInv(s, ev);
    var t := Before(s, ev);
    assert a in t.tasks;
    hide Inv, Before, Schedules, Dispatch;
    DispatchAt(t, a);
    DispatchNearer(t, a);
  }

  ghost function Calls(ss: seq<Sys>, evs: seq<Event>, n: nat): nat
    requires Run(ss, evs) && n <= |evs|
  {
    if n == 0 then 0 else Calls(ss, evs, n - 1) + if Enabled(ss[n - 1], evs[n - 1]) && Schedules(ss[n - 1], evs[n - 1])
      then 1 else 0
  }

  ghost function Added(evs: seq<Event>, n: nat): nat
    requires n <= |evs|
  {
    if n == 0 then 0 else Added(evs, n - 1) + if Adds(evs[n - 1]) then 1 else 0
  }

  /** While a task stays READY and is not dispatched, the calls of schedule() are
      fewer than its distance at the start and the tasks added since. */
  lemma {:induction false} BoundedWaiting(ss: seq<Sys>, evs: seq<Event>, n: nat, a: nat)
    requires Run(ss, evs) && n <= |evs| && a in ss[0].ring && Pos(ss[0].ring, a) >= 1
    requires forall i :: 0 <= i <= n ==> a in ss[i].tasks && ss[i].tasks[a].state == Ready
    ensures a in ss[n].ring && Pos(ss[n].ring, a) >= 1
    ensures Calls(ss, evs, n) + Pos(ss[n].ring, a) <= Pos(ss[0].ring, a) + Added(evs, n)
    ensures Calls(ss, evs, n) < Pos(ss[0].ring, a) + Added(evs, n)
  {
    hide Inv, Enabled, Next, Pos;
    if n > 0 {
      BoundedWaiting(ss, evs, n - 1, a);
      RunInv(ss, evs, n - 1);
      RunInv(ss, evs, n);
      RunAt(ss, evs, n - 1);
      WaitOne(ss[n - 1], evs[n - 1], a);
    }
  }

  lemma WaitOne(s: Sys, ev: Event, a: nat)
    requires Inv(s) && Enabled(s, ev) && a in s.ring && Pos(s.ring, a) >= 1
    requires Inv(Next(s, ev)) && a in Next(s, ev).tasks && Next(s, ev).tasks[a].state == Ready
    ensures a in Next(s, ev).ring && Pos(Next(s, ev).ring, a) >= 1
    ensures Pos(Next(s, ev).ring, a) + (if Schedules(s, ev) then 1 else 0) <= Pos(s.ring, a) + if Adds(ev) then 1 else 0
  {
    assert a in Next(s, ev).ring;
    hide Inv, Next, Pos;
    if Schedules(s, ev) { ScheduledPos(s, ev, a); } else { QuietPos(s, ev, a); }
  }

  /** A waiting task that is not killed stays READY until it is dispatched. */
  lemma ReadyStays(s: Sys, ev: Event, a: nat)
    requires Inv(s) && Enabled(s, ev) && a in s.tasks && s.tasks[a].state == Ready && a != s.ring[0] &&
             !(ev.Tick? && s.tasks[a].kill)
    ensures a in Next(s, ev).tasks && Next(s, ev).ring != []
    ensures Next(s, ev).tasks[a].state == Ready || (Next(s, ev).tasks[a].state == Running && Next(s, ev).ring[0] == a)
  {
    StepInv(s, ev);
    if Schedules(s, ev) {
      BeforeReady(s, ev, a);
      BeforeInv(s, ev);
      hide Before, Dispatch, Schedules;
      DispatchAt(Before(s, ev), a);
    } else {
      QuietReady(s, ev, a);
    }
  }

  lemma BeforeReady(s: Sys, ev: Event, a: nat)
    requires Inv(s) && Enabled(s, ev) && Schedules(s, ev) && a in s.tasks && s.tasks[a].state == Ready &&
             a != s.ring[0] && !(ev.Tick? && s.tasks[a].kill)
    ensures a in Before(s, ev).tasks && Before(s, ev).tasks[a].state == Ready
  {
    hide Inv, Schedules;
    match ev
    case Tick(now) =>
      assert Signals(s, now).tasks[a] == s.tasks[a];
    case Exit(code) =>
      assert Dead(s, code).tasks[a] == s.tasks[a];
    case _ =>
  }

  lemma QuietReady(s: Sys, ev: Event, a: nat)
    requires Inv(s) && Enabled(s, ev) && !Schedules(s, ev) && a in s.tasks && s.tasks[a].state == Ready &&
             a != s.ring[0]
    ensures a in Next(s, ev).tasks && Next(s, ev).tasks[a].state == Ready
  {
    assert Shaped(s);
    hide Inv, Pick, FreeFd, FreePipe, CloseAll, OpenAll, CloseEnd, NoFds, Dispatch, Before;
    match ev
    case Exec => ExecKeeps(s, FDS, a);
    case Pipe => assert PipeMade(s).tasks[a] == s.tasks[a];
    case Close(i) => assert Closed(s, i).tasks[a] == s.tasks[a];
    case Open => assert Opened(s).tasks[a] == s.tasks[a];
    case _ =>
  }

  lemma {:induction false} ReadyThroughout(ss: seq<Sys>, evs: seq<Event>, n: nat, a: nat)
    requires Run(ss, evs) && n <= |evs| && a in ss[0].tasks && ss[0].tasks[a].state == Ready
    requires forall i :: 0 <= i < n ==> !(evs[i].Tick? && a in ss[i].tasks && ss[i].tasks[a].kill)
    requires forall i :: 0 <= i <= n ==> ss[i].ring != [] && ss[i].ring[0] != a
    ensures forall i :: 0 <= i <= n ==> a in ss[i].tasks && ss[i].tasks[a].state == Ready
  {
    hide Inv, Enabled, Next;
    if n > 0 {
      ReadyThroughout(ss, evs, n - 1, a);
      RunInv(ss, evs, n - 1);
      RunAt(ss, evs, n - 1);
      ReadyStays(ss[n - 1], evs[n - 1], a);
    }
  }

  /** A READY task that is not killed is dispatched within as many calls of
      schedule() as its distance at the start and the tasks added since. */
  lemma DispatchedInTime(ss: seq<Sys>, evs: seq<Event>, n: nat, a: nat) returns (i: nat)
    requires Run(ss, evs) && n <= |evs| && a in ss[0].ring && a in ss[0].tasks && ss[0].tasks[a].state == Ready
    requires forall i :: 0 <= i < n ==> !(evs[i].Tick? && a in ss[i].tasks && ss[i].tasks[a].kill)
    requires Calls(ss, evs, n) >= Pos(ss[0].ring, a) + Added(evs, n)
    ensures i <= n && ss[i].ring != [] && ss[i].ring[0] == a
  {
    hide Inv, Enabled, Next, Calls, Added;
    i := 0;
    forall k | 0 <= k <= n ensures ss[k].ring != [] {
      RunInv(ss, evs, k);
      InvRing(ss[k]);
    }
    if k :| 0 <= k <= n && ss[k].ring[0] == a {
      i := k;
    } else {
      ReadyThroughout(ss, evs, n, a);
      BoundedWaiting(ss, evs, n, a);
    }
  }

  lemma InvRing(s: Sys)
    requires Inv(s)
    ensures s.ring != []
  {
  }
}
