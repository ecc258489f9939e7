/** What each event of the scheduler does to each field of each task, in terms of the
    fields before it. */
module SchedLaws {
  import opened SchedModel

  // ------------------------------------------------------------------
  // States and the queue

  ghost predicate Runs(st: State) { st == Ready || st == Running }

  /** Some other task is a child of the current one; a dead one if asked for. */
  ghost predicate HasKid(s: Sys, dead: bool)
    requires Shaped(s)
  {
    exists c :: c in s.tasks && c != s.ring[0] && s.tasks[c].parent == s.tasks[s.ring[0]].pid &&
                (dead ==> s.tasks[c].state == Zombie)
  }

  /** A child of task a is a zombie, or will be at this tick. */
  ghost predicate Bereaved(s: Sys, a: nat)
    requires a in s.tasks
  {
    exists c :: c in s.tasks && s.tasks[c].parent == s.tasks[a].pid && (s.tasks[c].state == Zombie || s.tasks[c].kill)
  }

  ghost predicate Overdue(t: Task, now: nat) { t.state == Blocked && t.wake != 0 && t.wake <= now }

  /** The exiting task wakes its parent. */
  ghost predicate Heir(s: Sys, a: nat)
    requires Shaped(s) && a in s.tasks
  {
    var cur := s.tasks[s.ring[0]];
    a != s.ring[0] && cur.parent != 0 && s.tasks[a].pid == cur.parent && s.tasks[a].waiting
  }

  /** The events that call schedule(). */
  ghost predicate Switches(s: Sys, ev: Event)
    requires Shaped(s)
  {
    ev.Tick? || ev.Yield? || ev.Sleep? || ev.Block? || ev.Exit? || (ev.Wait? && HasKid(s, false) && !HasKid(s, true))
  }

  /** The state of task a when schedule() is called, or when the event does not call it. */
  ghost function Fate(s: Sys, ev: Event, a: nat): State
    requires Shaped(s) && a in s.tasks
  {
    var t, me := s.tasks[a], a == s.ring[0];
    match ev
    case Tick(now) =>
      if t.kill || t.state == Zombie then Zombie
      else if Overdue(t, now) || (t.state == Blocked && t.waiting && Bereaved(s, a)) then Ready
      else t.state
    case Sleep(now, ms) => if me && ms != 0 then Blocked else t.state
    case Block => if me then Blocked else t.state
    case Wait => if me && Switches(s, ev) then Blocked else t.state
    case Exit(code) => if me then Zombie else if Heir(s, a) then Ready else t.state
    case Wake(b) => if a == b && t.state == Blocked then Ready else t.state
    case _ => t.state
  }

  lemma KidIs(s: Sys, dead: bool)
    requires Shaped(s)
    ensures HasKid(s, dead) <==> Child(s.tasks, s.ring, Cur(s).pid, dead, 1) < |s.ring|
  {
    var k := Child(s.tasks, s.ring, Cur(s).pid, dead, 1);
    if k < |s.ring| {
      assert s.ring[k] in s.tasks && s.ring[k] != s.ring[0];
    }
    if HasKid(s, dead) {
      var c :| c in s.tasks && c != s.ring[0] && s.tasks[c].parent == s.tasks[s.ring[0]].pid &&
               (dead ==> s.tasks[c].state == Zombie);
      var i :| 0 <= i < |s.ring| && s.ring[i] == c;
      assert IsChild(s.tasks[s.ring[i]], Cur(s).pid, dead);
    }
  }

  lemma SwitchesIs(s: Sys, ev: Event)
    requires Enabled(s, ev)
    ensures Switches(s, ev) <==> Schedules(s, ev)
  {
    KidIs(s, true);
    KidIs(s, false);
    hide HasKid, Child;
  }

  lemma TickFate(s: Sys, now: nat, a: nat)
    requires Shaped(s) && a in s.tasks
    ensures Before(s, Tick(now)).tasks[a].state == Fate(s, Tick(now), a)
  {
    var m := Signals(s, now);
    assert m.tasks[a] == Signal(s.tasks[a], now);
    BereavedIs(s, now, a);
    hide HasZombieChild, Bereaved, Shaped, SignalPipes;
  }

  lemma BereavedIs(s: Sys, now: nat, a: nat)
    requires Shaped(s) && a in s.tasks
    ensures HasZombieChild(Signals(s, now).tasks, s.tasks[a].pid) <==> Bereaved(s, a)
  {
    var m := Signals(s, now);
    forall c | c in s.tasks
      ensures m.tasks[c].parent == s.tasks[c].parent &&
              (m.tasks[c].state == Zombie <==> s.tasks[c].state == Zombie || s.tasks[c].kill)
    {
      SignalAt(s.tasks[c], now);
    }
    hide Signals, Signal;
    if Bereaved(s, a) {
      var c :| c in s.tasks && s.tasks[c].parent == s.tasks[a].pid && (s.tasks[c].state == Zombie || s.tasks[c].kill);
      assert c in m.tasks && m.tasks[c].state == Zombie && m.tasks[c].parent == s.tasks[a].pid;
    }
  }

  lemma ExitFate(s: Sys, code: int, a: nat)
    requires Inv(s) && a in s.tasks
    ensures Before(s, Exit(code)).tasks[a].state == Fate(s, Exit(code), a)
    ensures Before(s, Exit(code)).tasks[a].waiting == (s.tasks[a].waiting && !Heir(s, a))
    ensures var r, t := Before(s, Exit(code)).tasks[a], s.tasks[a];
            r == t.(state := r.state, waiting := r.waiting, code := if a == s.ring[0] then code else t.code,
                    fds := if a == s.ring[0] then NoPipes(t.fds) else t.fds)
  {
    hide Waiter, CloseAll, NoPipes, Inv;
    DeadAt(s, code);
    HeirIs(s, code, a);
  }

  lemma DeadAt(s: Sys, code: int)
    requires Inv(s)
    ensures Shaped(s) && var d, t := Dead(s, code), s.tasks[s.ring[0]];
            && d.ring == s.ring && d.tasks.Keys == s.tasks.Keys
            && d.tasks[s.ring[0]] == t.(fds := NoPipes(t.fds), code := code, state := Zombie)
            && forall b :: b in s.tasks && b != s.ring[0] ==> d.tasks[b] == s.tasks[b]
  {
    hide CloseAll, NoPipes, Count;
  }

  /** The task that is woken is the one the search finds. */
  lemma HeirIs(s: Sys, code: int, a: nat)
    requires Inv(s) && a in s.tasks
    ensures var d := Dead(s, code);
            var k := Waiter(d.tasks, d.ring, Cur(d).parent, 1);
            Heir(s, a) <==> Cur(d).parent != 0 && k < |d.ring| && d.ring[k] == a
  {
    DeadAt(s, code);
    var d := Dead(s, code);
    var k := Waiter(d.tasks, d.ring, Cur(d).parent, 1);
    hide Dead, Waiter, Counted, ZombiesClosed, RunningIsCurrent;
    if Heir(s, a) {
      var i :| 0 <= i < |s.ring| && s.ring[i] == a;
      assert k <= i;
      assert d.tasks[d.ring[k]].pid == s.tasks[a].pid;
    }
  }

  lemma BeforeFate(s: Sys, ev: Event, a: nat)
    requires Inv(s) && Enabled(s, ev) && Schedules(s, ev) && a in s.tasks
    ensures a in Before(s, ev).tasks && Before(s, ev).tasks[a].state == Fate(s, ev, a)
  {
    SwitchesIs(s, ev);
    match ev
    case Tick(now) => TickFate(s, now, a);
    case Exit(code) => ExitFate(s, code, a);
    case _ =>
  }

  /** schedule() passes over BLOCKED and ZOMBIE tasks to the first other one after the
      current task, which becomes RUNNING and the head of the queue; the task that ran
      is READY.  If there is none, the queue and all states stay. */
  lemma Switched(s: Sys, ev: Event) returns (k: nat)
    requires Inv(s) && Enabled(s, ev) && Switches(s, ev)
    ensures 1 <= k <= |s.ring| && (forall i :: 0 <= i < |s.ring| ==> s.ring[i] in s.tasks)
    ensures forall i :: 1 <= i < k ==> !Runs(Fate(s, ev, s.ring[i]))
    ensures k < |s.ring| ==> Runs(Fate(s, ev, s.ring[k]))
    ensures Next(s, ev).ring == if k < |s.ring| then s.ring[k..] + s.ring[..k] else s.ring
    ensures Next(s, ev).tasks.Keys == s.tasks.Keys
    ensures forall a :: a in s.tasks ==>
              Next(s, ev).tasks[a].state ==
              if k < |s.ring| && a == s.ring[k] then Running
              else if k < |s.ring| && a == s.ring[0] && Fate(s, ev, a) == Running then Ready
              else Fate(s, ev, a)
  {
    SwitchesIs(s, ev);
    forall a | a in s.tasks ensures a in Before(s, ev).tasks && Before(s, ev).tasks[a].state == Fate(s, ev, a) {
      BeforeFate(s, ev, a);
    }
    BeforeKeys(s, ev);
    hide Fate, Before, Inv, Switches, Schedules;
    k := DispatchMeans(Before(s, ev));
  }

  lemma BeforeKeys(s: Sys, ev: Event)
    requires Enabled(s, ev)
    ensures Before(s, ev).tasks.Keys == s.tasks.Keys && |s.ring| >= 1
    ensures forall i :: 0 <= i < |s.ring| ==> s.ring[i] in s.tasks
  {
    hide Waiter, CloseAll, NoPipes, SignalPipes;
  }

  lemma DispatchMeans(s: Sys) returns (k: nat)
    requires Shaped(s)
    ensures 1 <= k <= |s.ring| && (forall i :: 0 <= i < |s.ring| ==> s.ring[i] in s.tasks)
    ensures forall i :: 1 <= i < k ==> !Runs(s.tasks[s.ring[i]].state)
    ensures k < |s.ring| ==> Runs(s.tasks[s.ring[k]].state)
    ensures Dispatch(s).ring == if k < |s.ring| then s.ring[k..] + s.ring[..k] else s.ring
    ensures Dispatch(s).tasks.Keys == s.tasks.Keys
    ensures forall a :: a in s.tasks ==>
              Dispatch(s).tasks[a].state ==
              if k < |s.ring| && a == s.ring[k] then Running
              else if k < |s.ring| && a == s.ring[0] && s.tasks[a].state == Running then Ready
              else s.tasks[a].state
  {
    k := Pick(s.tasks, s.ring, 1);
    hide Pick;
  }

  /** A blocked task that is not killed sleeps on through a tick, with its record as it
      was, exactly when its time has not come and no child of it is dead. */
  lemma SleeperStays(s: Sys, now: nat, a: nat)
    requires Inv(s) && a in s.tasks && s.tasks[a].state == Blocked && !s.tasks[a].kill
    ensures a in Next(s, Tick(now)).tasks
    ensures Next(s, Tick(now)).tasks[a] == s.tasks[a] <==>
            (s.tasks[a].wake == 0 || now < s.tasks[a].wake) && !(s.tasks[a].waiting && Bereaved(s, a))
    ensures Next(s, Tick(now)).tasks[a].state == Blocked <==> Next(s, Tick(now)).tasks[a] == s.tasks[a]
  {
    assert Enabled(s, Tick(now));
    hide Inv, Next, Bereaved, WakeAt, Enabled, Shaped, Heir, HasKid;
    StateAfter(s, Tick(now), a);
    FieldsStep(s, Tick(now), a);
    FdsStep(s, Tick(now), a);
    BlockedKeeps(s.tasks[a], Next(s, Tick(now)).tasks[a]);
  }

  lemma StateAfter(s: Sys, ev: Event, a: nat)
    requires Inv(s) && Enabled(s, ev) && Switches(s, ev) && a in s.tasks
    ensures a in Next(s, ev).tasks
    ensures var f, st := Fate(s, ev, a), Next(s, ev).tasks[a].state; if Runs(f) then Runs(st) else st == f
  {
    assert a in s.tasks.Keys;
    hide Inv, Next, Enabled, Fate, Switches;
    var k := Switched(s, ev);
  }

  lemma BlockedKeeps(t: Task, r: Task)
    ensures r == t <==> && r.pid == t.pid && r.state == t.state && r.wake == t.wake && r.parent == t.parent
                        && r.code == t.code && r.kill == t.kill && r.waiting == t.waiting && r.fds == t.fds
  {
  }

  /** An event that does not call schedule() gives every task that is left its state. */
  lemma NotSwitched(s: Sys, ev: Event, a: nat)
    requires Inv(s) && Enabled(s, ev) && !Switches(s, ev) && a in s.tasks && a in Next(s, ev).tasks
    ensures Next(s, ev).tasks[a].state == Fate(s, ev, a)
  {
    SwitchesIs(s, ev);
    QuietAt(s, ev, a);
    hide Inv, Switches, Schedules, Next, HasKid, Bereaved;
  }

  // ------------------------------------------------------------------
  // Fields

  /** What an event that does not call schedule() leaves of a task. */
  lemma QuietAt(s: Sys, ev: Event, a: nat)
    requires Inv(s) && Enabled(s, ev) && !Schedules(s, ev) && a in s.tasks && a in Next(s, ev).tasks
    ensures var t, r := s.tasks[a], Next(s, ev).tasks[a];
            && (ev.Wake? ==> r == if a == ev.task && t.state == Blocked then t.(wake := 0, state := Ready) else t)
            && (ev.Kill? ==> r == if a != s.ring[0] && t.pid == ev.pid then t.(kill := true) else t)
            && (ev.CtrlC? ==> r == if a == ev.task && t.state != Zombie then t.(kill := true) else t)
            && (ev.Wait? || ev.Spawn? || ev.Fork? ==> r == t)
            && (ev.Pipe? || ev.Close? || ev.Exec? || ev.Open? ==>
                  r == t.(fds := r.fds) && (a != s.ring[0] ==> r == t))
  {
    match ev
    case Kill(pid) =>
      var k := HasPid(s.tasks, s.ring, pid, 1);
      var i :| 0 <= i < |s.ring| && s.ring[i] == a;
      if k < |s.ring| && s.tasks[a].pid == pid { assert s.tasks[s.ring[k]].pid == s.tasks[a].pid; }
    case Exec => ExecAt(s, FDS, a);
    case _ =>
      hide Inv, Pick, FreeFd, FreePipe, HasPid, Child, CloseAll, OpenAll, CloseEnd, NoFds;
  }

  lemma {:induction false} ExecAt(s: Sys, n: nat, a: nat)
    requires Shaped(s) && 3 <= n <= FDS && a in s.tasks
    ensures a in ClosedFrom3(s, n).tasks
    ensures var t, r := s.tasks[a], ClosedFrom3(s, n).tasks[a];
            r == t.(fds := r.fds) && (a != s.ring[0] ==> r == t) && |r.fds| == FDS
    ensures a == s.ring[0] ==> forall i :: 0 <= i < FDS ==>
              ClosedFrom3(s, n).tasks[a].fds[i] == if 3 <= i < n then Free else s.tasks[a].fds[i]
  {
    hide CloseEnd, Count;
    if n > 3 { ExecAt(s, n - 1, a); }
  }

  /** What schedule() is called on, task by task. */
  lemma BeforeAt(s: Sys, ev: Event, a: nat)
    requires Inv(s) && Enabled(s, ev) && Schedules(s, ev) && a in s.tasks
    ensures a in Before(s, ev).tasks
    ensures var t, r, me := s.tasks[a], Before(s, ev).tasks[a], a == s.ring[0];
            && (ev.Yield? || !me ==> ev.Tick? || ev.Exit? || r == t)
            && (ev.Block? && me ==> r == t.(state := Blocked))
            && (ev.Wait? && me ==> r == t.(state := Blocked, waiting := true))
            && (ev.Sleep? && me ==> r == if ev.ms == 0 then t else t.(state := Blocked, wake := WakeAt(ev.now, ev.ms)))
  {
    hide Inv, Waiter, CloseAll, NoPipes, SignalPipes, Signals, WakeWaiters, WakeAt, Child;
  }

  lemma TickAt(s: Sys, now: nat, a: nat)
    requires Shaped(s) && a in s.tasks
    ensures var t, r := s.tasks[a], Before(s, Tick(now)).tasks[a];
            var dies := t.kill && t.state != Zombie;
            && r == t.(state := r.state, wake := r.wake, code := if dies then -9 else t.code, kill := t.kill && !dies,
                       waiting := r.waiting, fds := if dies then NoPipes(t.fds) else t.fds)
            && r.wake == (if Overdue(t, now) then 0 else t.wake)
            && r.waiting == (t.waiting && !(t.state == Blocked && !t.kill && !Overdue(t, now) && Bereaved(s, a)))
  {
    var m := Signals(s, now);
    assert m.tasks[a] == Signal(s.tasks[a], now);
    BereavedIs(s, now, a);
    hide HasZombieChild, Bereaved, Shaped, SignalPipes, NoPipes;
  }

  lemma NextAt(s: Sys, ev: Event, a: nat)
    requires Enabled(s, ev) && Schedules(s, ev) && a in s.tasks && a in Before(s, ev).tasks
    ensures a in Next(s, ev).tasks &&
            Next(s, ev).tasks[a] == Before(s, ev).tasks[a].(state := Next(s, ev).tasks[a].state)
  {
    hide Before, Dispatch, Schedules;
    DispatchAt(Before(s, ev), a);
  }

  /** Pid and parent are for life.  The exit code is that of the exit, or -9 from the
      tick that kills.  SIGKILL is pending from the kill of the pid by another task, or
      Ctrl-C, to that tick.  The flag of a waiting task is set when it blocks in wait
      and cleared when it is woken for a dead child. */
  lemma FieldsStep(s: Sys, ev: Event, a: nat)
    requires Inv(s) && Enabled(s, ev) && a in s.tasks && a in Next(s, ev).tasks
    ensures var t, r, me := s.tasks[a], Next(s, ev).tasks[a], a == s.ring[0];
            && r.pid == t.pid && r.parent == t.parent
            && r.code == (if ev.Exit? && me then ev.code
                          else if ev.Tick? && t.kill && t.state != Zombie then -9 else t.code)
            && r.kill == (if ev.Tick? then t.kill && t.state == Zombie
                          else || t.kill || (ev.Kill? && !me && t.pid == ev.pid)
                               || (ev.CtrlC? && a == ev.task && t.state != Zombie))
            && r.waiting == (if ev.Wait? && me && Switches(s, ev) then true
                             else if ev.Exit? then t.waiting && !Heir(s, a)
                             else if ev.Tick? then
                               t.waiting && !(t.state == Blocked && !t.kill && !Overdue(t, ev.now) && Bereaved(s, a))
                             else t.waiting)
            && r.wake == (if ev.Tick? && Overdue(t, ev.now) then 0
                          else if ev.Wake? && a == ev.task && t.state == Blocked then 0
                          else if ev.Sleep? && me && ev.ms != 0 then WakeAt(ev.now, ev.ms) else t.wake)
  {
    SwitchesIs(s, ev);
    if Schedules(s, ev) {
      if ev.Tick? {
        TickAt(s, ev.now, a);
      } else if ev.Exit? {
        ExitFate(s, ev.code, a);
      } else {
        BeforeAt(s, ev, a);
      }
      hide Before, Next, Inv, Bereaved, Schedules, Switches, WakeAt, Heir, NoPipes;
      NextAt(s, ev, a);
    } else {
      QuietAt(s, ev, a);
      hide Next, Inv, Bereaved, Schedules, Switches, WakeAt, Heir;
    }
  }

  /** A sleep of ms milliseconds ends at the first tick of 10 ms that is no earlier,
      unless the sum wraps around 32 bits: it is cut short exactly for the nine largest
      values of ms. */
  lemma SleepIsLongEnough(now: nat, ms: nat)
    requires 0 < ms < 0x1_0000_0000 && now + (ms + 9) / 10 < 0x1_0000_0000
    ensures 10 * (WakeAt(now, ms) - now) >= ms <==> ms <= 0xFFFF_FFF6
    ensures ms <= 0xFFFF_FFF6 ==> 10 * (WakeAt(now, ms) - 1 - now) < ms
  {
  }

  /** Descriptors change by the task's own calls and by its death, which closes its
      pipe ends. */
  lemma FdsStep(s: Sys, ev: Event, a: nat)
    requires Inv(s) && Enabled(s, ev) && a in s.tasks && a in Next(s, ev).tasks
    ensures var t, r, me := s.tasks[a].fds, Next(s, ev).tasks[a].fds, a == s.ring[0];
            var dies := (ev.Tick? && s.tasks[a].kill && s.tasks[a].state != Zombie) || (ev.Exit? && me);
            && |t| == |r| == 8
            && (forall i :: 0 <= i < 8 && dies ==> r[i] == if t[i].PipeFd? then Free else t[i])
            && (forall i :: 0 <= i < 8 && ev.Exec? && me ==> r[i] == if i >= 3 then Free else t[i])
            && (ev.Close? && me ==> r == if ev.fd < 8 then t[ev.fd := Free] else t)
            && (!dies && !(me && (ev.Exec? || ev.Close? || ev.Pipe? || ev.Open?)) ==> r == t)
  {
    if Schedules(s, ev) {
      if ev.Tick? {
        TickAt(s, ev.now, a);
      } else if ev.Exit? {
        ExitFate(s, ev.code, a);
      } else {
        BeforeAt(s, ev, a);
      }
      hide Before, Next, Schedules, Bereaved, Count;
      NextAt(s, ev, a);
    } else {
      QuietAt(s, ev, a);
      if ev.Exec? { ExecAt(s, FDS, a); }
      hide Inv, Pick, FreeFd, FreePipe, HasPid, Child, CloseAll, OpenAll, CloseEnd, NoFds;
    }
  }

  /** Closing a read end of a pipe lowers its readers by one, a write end its writers. */
  lemma CloseLowers(s: Sys, i: nat)
    requires Inv(s) && i < 8
    ensures |s.pipes| == 8 && |s.tasks[s.ring[0]].fds| == 8
    ensures match s.tasks[s.ring[0]].fds[i]
            case PipeFd(p, write) =>
              p < 8 && var e := s.pipes[p];
              if write then e.w > 0 && Next(s, Close(i)).pipes == s.pipes[p := Ends(e.r, e.w - 1)]
              else e.r > 0 && Next(s, Close(i)).pipes == s.pipes[p := Ends(e.r - 1, e.w)]
            case _ => Next(s, Close(i)).pipes == s.pipes
  {
    EndOpen(s, i);
    hide Inv, Dispatch, Before, Child, FdsOk;
  }

  /** An open pipe descriptor is counted. */
  lemma EndOpen(s: Sys, i: nat)
    requires Inv(s) && i < FDS
    ensures |s.tasks[s.ring[0]].fds| == FDS && |s.pipes| == PIPES
    ensures var fd := s.tasks[s.ring[0]].fds[i];
            fd.PipeFd? ==> fd.pipe < PIPES && End(s.pipes[fd.pipe], fd.write) > 0
  {
    var fds := s.tasks[s.ring[0]].fds;
    assert FdsOk(fds);
    if fds[i].PipeFd? {
      FdCountMember(fds, i, fds[i].pipe, fds[i].write);
      CountMember(s.tasks, s.ring, 0, fds[i].pipe, fds[i].write);
    }
    hide Count, FdCount;
  }

  /** sys_open gives the lowest free descriptor from 3 on, if there is one. */
  lemma OpenLowest(s: Sys) returns (i: nat)
    requires Inv(s)
    ensures 3 <= i <= 8 && |s.tasks[s.ring[0]].fds| == 8
    ensures forall j :: 3 <= j < i ==> s.tasks[s.ring[0]].fds[j] != Free
    ensures i < 8 ==> s.tasks[s.ring[0]].fds[i] == Free
    ensures var t := s.tasks[s.ring[0]];
            Next(s, Open) == if i < 8 then s.(tasks := s.tasks[s.ring[0] := t.(fds := t.fds[i := FileFd])]) else s
  {
    i := FreeFd(Cur(s).fds, 3);
    hide Inv, FreeFd, Dispatch, Before;
  }

  /** sys_pipe gives the two lowest free descriptors from 3 on to the read and the write
      end of the first pipe without ends, in this order, if there are all three. */
  lemma PipeLowest(s: Sys) returns (i: nat, j: nat, p: nat)
    requires Inv(s)
    ensures 3 <= i <= 8 && (i < j <= 8 || i == j == 8) && p <= 8 && |s.pipes| == 8 && |s.tasks[s.ring[0]].fds| == 8
    ensures forall x :: 3 <= x < j && x != i ==> s.tasks[s.ring[0]].fds[x] != Free
    ensures i < 8 ==> s.tasks[s.ring[0]].fds[i] == Free
    ensures j < 8 ==> s.tasks[s.ring[0]].fds[j] == Free
    ensures (forall q :: 0 <= q < p ==> s.pipes[q] != Ends(0, 0)) && (p < 8 ==> s.pipes[p] == Ends(0, 0))
    ensures var t := s.tasks[s.ring[0]];
            Next(s, Pipe) ==
            if j < 8 && p < 8
            then s.(tasks := s.tasks[s.ring[0] := t.(fds := t.fds[i := PipeFd(p, false)][j := PipeFd(p, true)])],
                    pipes := s.pipes[p := Ends(1, 1)])
            else s
  {
    i := FreeFd(Cur(s).fds, 3);
    j := if i < 8 then FreeFd(Cur(s).fds, i + 1) else 8;
    p := FreePipe(s.pipes, 0);
    hide Inv, FreeFd, FreePipe, Dispatch, Before;
  }

  // ------------------------------------------------------------------
  // Birth and reaping

  /** Pids are used up by creating and forking only. */
  lemma PidStep(s: Sys, ev: Event)
    requires Enabled(s, ev)
    ensures Next(s, ev).nextPid == s.nextPid + if ev.Spawn? || ev.Fork? then 1 else 0
  {
    if Schedules(s, ev) {
      DispatchKeys(Before(s, ev));
    } else if ev.Exec? {
      ExecPid(s, FDS);
    }
    hide Waiter, CloseAll, NoPipes, SignalPipes, Pick, Child, HasPid, FreeFd, FreePipe, OpenAll, CloseEnd;
  }

  lemma {:induction false} ExecPid(s: Sys, n: nat)
    requires Shaped(s) && 3 <= n <= FDS
    ensures ClosedFrom3(s, n).nextPid == s.nextPid
  {
    if n > 3 { ExecPid(s, n - 1); }
  }

  /** A new task is next in the queue and READY, with the next pid, the caller as its
      parent and, after fork, the caller's descriptors. */
  lemma Born(s: Sys, child: nat, fork: bool)
    requires Inv(s) && child !in s.tasks
    ensures var now, cur := Next(s, if fork then Fork(child) else Spawn(child)), s.tasks[s.ring[0]];
            && now.ring == [s.ring[0], child] + s.ring[1..] && now.nextPid == s.nextPid + 1
            && now.tasks.Keys == s.tasks.Keys + {child}
            && (forall a :: a in s.tasks ==> now.tasks[a] == s.tasks[a])
            && var t := now.tasks[child];
               t == Task(s.nextPid, Ready, 0, cur.pid, 0, false, false, t.fds) && |t.fds| == 8 &&
               forall i :: 0 <= i < 8 ==> t.fds[i] == if fork then cur.fds[i] else Free
  {
    assert FdsOk(s.tasks[s.ring[0]].fds);
    hide Inv, Dispatch, Before, OpenAll;
  }

  /** A wait with a dead child removes the first of them in the queue, and only it. */
  lemma ReapsFirst(s: Sys) returns (k: nat)
    requires Inv(s) && HasKid(s, true)
    ensures 1 <= k < |s.ring| && forall i :: 0 <= i < |s.ring| ==> s.ring[i] in s.tasks
    ensures var me := s.tasks[s.ring[0]].pid;
            && s.tasks[s.ring[k]].state == Zombie && s.tasks[s.ring[k]].parent == me
            && forall i :: 1 <= i < k ==> !(s.tasks[s.ring[i]].state == Zombie && s.tasks[s.ring[i]].parent == me)
    ensures Next(s, Wait) == s.(tasks := s.tasks - {s.ring[k]}, ring := s.ring[..k] + s.ring[k + 1..])
  {
    KidIs(s, true);
    k := Child(s.tasks, s.ring, Cur(s).pid, true, 1);
    hide Inv, Child, Dispatch, Before, HasKid;
  }

  /** Over every run: a killed task that does not itself exit afterwards is reaped, at
      whatever time, with code -9. */
  lemma {:induction false} KilledCode(ss: seq<Sys>, evs: seq<Event>, a: nat, i: nat, j: nat)
    requires Run(ss, evs) && i < j <= |evs| && (forall k :: i <= k <= j ==> a in ss[k].tasks)
    requires evs[i].Tick? && ss[i].tasks[a].kill && ss[i].tasks[a].state != Zombie
    requires forall k :: i < k < j && evs[k].Exit? ==> ss[k].ring != [] && ss[k].ring[0] != a
    ensures ss[j].tasks[a].code == -9
    decreases j
  {
    hide Inv, Enabled, Next;
    RunInv(ss, evs, j - 1);
    RunAt(ss, evs, j - 1);
    if i < j - 1 { KilledCode(ss, evs, a, i, j - 1); }
    CodeStep(ss[j - 1], evs[j - 1], a);
  }

  lemma CodeStep(s: Sys, ev: Event, a: nat)
    requires Inv(s) && Enabled(s, ev) && a in s.tasks && a in Next(s, ev).tasks
    ensures s.ring != [] && Next(s, ev).tasks[a].code ==
              (if ev.Exit? && a == s.ring[0] then ev.code
               else if ev.Tick? && s.tasks[a].kill && s.tasks[a].state != Zombie then -9 else s.tasks[a].code)
  {
    InvRing(s);
    hide Inv, Enabled, Next;
    FieldsStep(s, ev, a);
  }
}
