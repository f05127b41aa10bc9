/** What every run of the process machine keeps, and the schedule that timer ticks produce. */
module ProcRuns {
  import opened Bytes
  import opened ProcSpec

  /** Unique pids below next_pid, and parents older than their children. */
  ghost predicate Family(ps: seq<Proc>, nextPid: int)
  {
    && (forall i :: 0 <= i < |ps| ==> 0 <= ps[i].parent < ps[i].pid < nextPid)
    && (forall i, j :: 0 <= i < j < |ps| ==> ps[i].pid != ps[j].pid)
  }

  ghost predicate OneRunning(s: Sys)
    requires HasCurrent(s)
  {
    forall i :: 0 <= i < |s.procs| ==> (s.procs[i].state == Running <==> i == Cur(s))
  }

  /** No blocked process has a zombie child. */
  ghost predicate NoLostWakeUp(ps: seq<Proc>)
  {
    forall i, j :: 0 <= i < |ps| && 0 <= j < |ps| && ps[i].state == Blocked ==> !ZombieChild(ps[j], ps[i].pid)
  }

  /** Whoever is suspended in MSG_WAIT is blocked, or ready with a zombie child to find. */
  ghost predicate WaitersServed(ps: seq<Proc>)
  {
    forall i :: 0 <= i < |ps| && ps[i].waiting ==>
      ps[i].state == Blocked || (ps[i].state == Ready && FirstZombie(ps, ps[i].pid) < |ps|)
  }

  /** No MSG_WAIT call has ever returned -1. */
  ghost predicate NoFailedWait(ps: seq<Proc>)
  {
    forall i :: 0 <= i < |ps| ==> ps[i].got != Failed
  }

  ghost predicate Inv(s: Sys)
  {
    && HasCurrent(s) && Family(s.procs, s.nextPid)
    && (!s.stuck ==> OneRunning(s))
    && NoLostWakeUp(s.procs) && WaitersServed(s.procs) && NoFailedWait(s.procs)
  }

  /** What holds when a kernel call reaches schedule: no process but the current one is marked running. */
  ghost predicate Switching(s: Sys)
  {
    && HasCurrent(s) && Family(s.procs, s.nextPid) && !s.stuck
    && (forall i :: 0 <= i < |s.procs| && i != Cur(s) ==> s.procs[i].state != Running)
    && s.procs[Cur(s)].state != Ready
    && NoLostWakeUp(s.procs) && WaitersServed(s.procs) && NoFailedWait(s.procs)
  }

  lemma {:induction false} FindIs(ps: seq<Proc>, k: nat)
    requires k < |ps| && forall i, j :: 0 <= i < j < |ps| ==> ps[i].pid != ps[j].pid
    ensures Find(ps, ps[k].pid) == k
  {
  }

  /** Changes that keep pids and parents keep the family and the position of the current process. */
  ghost predicate SameFamily(ps: seq<Proc>, ps': seq<Proc>)
  {
    |ps'| == |ps| && forall i :: 0 <= i < |ps| ==> ps'[i].pid == ps[i].pid && ps'[i].parent == ps[i].parent
  }

  lemma {:induction false} SamePlace(ps: seq<Proc>, ps': seq<Proc>, pid: int)
    requires SameFamily(ps, ps')
    ensures Find(ps', pid) == Find(ps, pid)
  {
    assert forall i :: 0 <= i < |ps| ==> ps'[i].pid == ps[i].pid;
  }

  /** Zombies stay visible to their parents when no zombie changes. */
  lemma {:induction false} ZombieStays(ps: seq<Proc>, ps': seq<Proc>, pid: int)
    requires SameFamily(ps, ps') && FirstZombie(ps, pid) < |ps|
    requires forall i :: 0 <= i < |ps| && ps[i].state == Zombie ==> ps'[i].state == Zombie
    ensures FirstZombie(ps', pid) < |ps'|
  {
    assert ZombieChild(ps'[FirstZombie(ps, pid)], pid);
  }

  /** WaitersServed while the process just switched to has not resumed yet. */
  ghost predicate WaitersSeen(ps: seq<Proc>)
  {
    forall i :: 0 <= i < |ps| && ps[i].waiting ==>
      ps[i].state == Blocked || ((ps[i].state == Ready || ps[i].state == Running) && FirstZombie(ps, ps[i].pid) < |ps|)
  }

  /** Handing the processor over keeps everything, and a process that resumes behind its MSG_WAIT finds the
      zombie child it was woken for. */
  lemma {:induction false} ScheduleKeeps(s: Sys)
    requires Switching(s)
    ensures Inv(Schedule(s))
  {
    hide Find, FirstZombie, FirstReady, Resume;
    var ps, k, c := s.procs, FirstReady(s.procs), Cur(s);
    if k < |ps| {
      var ps1 := SetState(ps, k, Running);
      var ps2 := if ps1[c].state == Running then SetState(ps1, c, Ready) else ps1;
      SwitchKeeps(ps, ps2, k, c, s.nextPid);
      var s1 := s.(procs := ps2, current := ps2[k].pid);
      FindIs(ps2, k);
      ResumeKeeps(s1);
    }
  }

  lemma {:induction false} SwitchKeeps(ps: seq<Proc>, ps2: seq<Proc>, k: nat, c: nat, nextPid: int)
    requires k < |ps| && c < |ps| && k != c && ps[k].state == Ready && Family(ps, nextPid)
    requires forall i :: 0 <= i < |ps| && i != c ==> ps[i].state != Running
    requires ps2 == ps[k := ps[k].(state := Running)][c := ps[c].(state := if ps[c].state == Running then Ready else ps[c].state)]
    requires NoLostWakeUp(ps) && WaitersServed(ps) && NoFailedWait(ps)
    ensures Family(ps2, nextPid) && NoLostWakeUp(ps2) && WaitersSeen(ps2) && NoFailedWait(ps2)
    ensures forall i :: 0 <= i < |ps2| ==> (ps2[i].state == Running <==> i == k)
  {
    hide FirstZombie;
    forall i | 0 <= i < |ps|
      ensures ps2[i] == ps[i].(state := ps2[i].state)
      ensures ps2[i].state == if i == k then Running else if i == c && ps[c].state == Running then Ready else ps[i].state
    {
    }
    assert SameFamily(ps, ps2);
    forall i | 0 <= i < |ps| && ps2[i].waiting && ps2[i].state != Blocked
      ensures (ps2[i].state == Ready || ps2[i].state == Running) && FirstZombie(ps2, ps2[i].pid) < |ps2|
    {
      ZombieStays(ps, ps2, ps[i].pid);
    }
  }

  lemma {:induction false} ResumeKeeps(s: Sys)
    requires HasCurrent(s) && Family(s.procs, s.nextPid) && !s.stuck && OneRunning(s)
    requires NoLostWakeUp(s.procs) && NoFailedWait(s.procs) && WaitersSeen(s.procs)
    ensures Inv(Resume(s))
  {
    hide Find, FirstZombie;
    var c, s' := Cur(s), Resume(s);
    assert SameFamily(s.procs, s'.procs);
    SamePlace(s.procs, s'.procs, s.current);
    forall i | 0 <= i < |s.procs| && s'.procs[i].waiting
      ensures s'.procs[i].state == Blocked || (s'.procs[i].state == Ready && FirstZombie(s'.procs, s'.procs[i].pid) < |s'.procs|)
    {
      if s.procs[i].state != Blocked {
        ZombieStays(s.procs, s'.procs, s.procs[i].pid);
      }
    }
  }

  // ---- the calls ----

  /** A process that found no zombie child and blocks is ready to be switched away from. */
  lemma {:induction false} BlockSwitching(s: Sys, waiting: bool)
    requires Inv(s) && !s.stuck && FirstZombie(s.procs, s.current) == |s.procs|
    ensures Switching(s.(procs := s.procs[Cur(s) := s.procs[Cur(s)].(state := Blocked, waiting := waiting)]))
  {
    hide Find, FirstZombie, FirstReady, Schedule;
    var ps, c := s.procs, Cur(s);
    var ps' := ps[c := ps[c].(state := Blocked, waiting := waiting)];
    assert SameFamily(ps, ps');
    SamePlace(ps, ps', s.current);
    forall i | 0 <= i < |ps| && ps'[i].waiting && ps'[i].state != Blocked
      ensures ps'[i].state == Ready && FirstZombie(ps', ps'[i].pid) < |ps'|
    {
      ZombieStays(ps, ps', ps[i].pid);
    }
    forall i, j | 0 <= i < |ps| && 0 <= j < |ps| && ps'[i].state == Blocked
      ensures !ZombieChild(ps'[j], ps'[i].pid)
    {
      if i == c {
        assert ps[j] == ps'[j] || j == c;
      }
    }
  }

  lemma {:induction false} BlockKeeps(s: Sys, waiting: bool)
    requires Inv(s) && !s.stuck && FirstZombie(s.procs, s.current) == |s.procs|
    ensures Inv(BlockCurrent(s, waiting))
  {
    hide Find, FirstZombie, Schedule, NoLostWakeUp, WaitersServed, NoFailedWait;
    BlockSwitching(s, waiting);
    var ps, c := s.procs, Cur(s);
    ScheduleKeeps(s.(procs := ps[c := ps[c].(state := Blocked, waiting := waiting)]));
  }

  /** The list when exit_process calls schedule. */
  function Exiting(s: Sys, status: int): seq<Proc>
    requires HasCurrent(s)
  {
    var c := Cur(s);
    var ps1 := s.procs[c := s.procs[c].(state := Zombie, exitStatus := status)];
    var p := Find(ps1, ps1[c].parent);
    if p < |ps1| && ps1[p].state == Blocked then SetState(ps1, p, Ready) else ps1
  }

  lemma {:induction false} ExitSwitching(s: Sys, status: int)
    requires Inv(s) && !s.stuck
    ensures Switching(s.(procs := Exiting(s, status))) && SameFamily(s.procs, Exiting(s, status))
  {
    hide Find, FirstZombie, FirstReady, Schedule, NoLostWakeUp, WaitersServed;
    var ps, c := s.procs, Cur(s);
    var ps1 := ps[c := ps[c].(state := Zombie, exitStatus := status)];
    var p := Find(ps1, ps1[c].parent);
    var ps2 := Exiting(s, status);
    assert SameFamily(ps, ps2);
    SamePlace(ps, ps2, s.current);
    forall i | 0 <= i < |ps| && ps[i].pid == ps[c].parent
      ensures i == p && i != c
    {
      FindIs(ps1, i);
    }
    ExitWakes(ps, ps2, c, status);
  }

  lemma {:induction false} ExitKeeps(s: Sys, status: int)
    requires Inv(s) && !s.stuck
    ensures Inv(Exit(s, status))
  {
    hide Find, FirstZombie, Schedule, NoLostWakeUp, WaitersServed, NoFailedWait;
    ExitSwitching(s, status);
    ScheduleKeeps(s.(procs := Exiting(s, status)));
  }

  lemma {:induction false} ExitWakes(ps: seq<Proc>, ps2: seq<Proc>, c: nat, status: int)
    requires c < |ps| == |ps2| && ps[c].state == Running && SameFamily(ps, ps2)
    requires NoLostWakeUp(ps) && WaitersServed(ps)
    requires ps2[c] == ps[c].(state := Zombie, exitStatus := status)
    requires forall i :: 0 <= i < |ps| && ps[i].pid == ps[c].parent ==> i != c
    requires forall i :: 0 <= i < |ps| && i != c ==>
               ps2[i] == if ps[i].pid == ps[c].parent && ps[i].state == Blocked then ps[i].(state := Ready) else ps[i]
    ensures NoLostWakeUp(ps2) && WaitersServed(ps2)
  {
    hide FirstZombie;
    forall i | 0 <= i < |ps| && ps2[i].waiting && ps2[i].state != Blocked
      ensures ps2[i].state == Ready && FirstZombie(ps2, ps2[i].pid) < |ps2|
    {
      if ps[i].state == Blocked {
        assert ZombieChild(ps2[c], ps2[i].pid);
      } else {
        ZombieStays(ps, ps2, ps[i].pid);
      }
    }
  }

  lemma {:induction false} WaitKeeps(s: Sys)
    requires Inv(s) && !s.stuck
    ensures Inv(Wait(s))
  {
    hide Find, FirstZombie, BlockCurrent;
    var ps, c, z := s.procs, Cur(s), FirstZombie(s.procs, s.current);
    if z < |ps| {
      var ps' := ps[c := ps[c].(got := Exited(ps[z].exitStatus))];
      assert SameFamily(ps, ps');
      SamePlace(ps, ps', s.current);
      forall i | 0 <= i < |ps| && ps'[i].waiting && ps'[i].state != Blocked
        ensures ps'[i].state == Ready && FirstZombie(ps', ps'[i].pid) < |ps'|
      {
        ZombieStays(ps, ps', ps[i].pid);
      }
    } else {
      BlockKeeps(s, true);
    }
  }

  lemma {:induction false} ReapKeeps(s: Sys)
    requires Inv(s) && !s.stuck
    ensures Inv(Reap(s))
  {
    hide Find, FirstZombie, BlockCurrent;
    var ps, z := s.procs, FirstZombie(s.procs, s.current);
    if z < |ps| {
      var ps' := SetState(ps, z, Dead);
      assert SameFamily(ps, ps');
      SamePlace(ps, ps', s.current);
      forall i | 0 <= i < |ps| && ps'[i].waiting && ps'[i].state != Blocked
        ensures ps'[i].state == Ready && FirstZombie(ps', ps'[i].pid) < |ps'|
      {
        var w := FirstZombie(ps, ps[i].pid);
        assert i != Cur(s);
        assert ps[i].pid != s.current;
        assert w != z;
        assert ZombieChild(ps'[w], ps'[i].pid);
      }
    } else {
      BlockKeeps(s, false);
    }
  }

  /** A new ready process at the head of the list. */
  lemma {:induction false} PrependKeeps(s: Sys, s': Sys, p: Proc)
    requires Inv(s) && !s.stuck && !s'.stuck
    requires s'.procs == [p] + s.procs && s'.current == s.current && s'.nextPid == s.nextPid + 1
    requires p.pid == s.nextPid && 0 <= p.parent < p.pid && p.state == Ready && !p.waiting && p.got == NoResult
    ensures Inv(s')
  {
    hide Find, FirstZombie;
    var ps, ps' := s.procs, s'.procs;
    var c := Cur(s);
    assert ps'[c + 1] == ps[c];
    forall i, j | 0 <= i < j < |ps'|
      ensures ps'[i].pid != ps'[j].pid
    {
    }
    FindIs(ps', c + 1);
    forall i | 0 <= i < |ps'| && ps'[i].waiting && ps'[i].state != Blocked
      ensures ps'[i].state == Ready && FirstZombie(ps', ps'[i].pid) < |ps'|
    {
      var w := FirstZombie(ps, ps[i - 1].pid);
      assert ps'[w + 1] == ps[w];
    }
    forall i, j | 0 <= i < |ps'| && 0 <= j < |ps'| && ps'[i].state == Blocked
      ensures !ZombieChild(ps'[j], ps'[i].pid)
    {
      assert ps'[i] == ps[i - 1];
      if j > 0 {
        assert ps'[j] == ps[j - 1];
      }
    }
  }

  /** Every kernel call keeps the invariant. */
  lemma {:induction false} StepKeeps(s: Sys, call: Call)
    requires Inv(s) && Enabled(s, call)
    ensures Inv(Step(s, call))
  {
    hide Find, FirstZombie, FirstReady, Schedule, Wait, Reap, Exit;
    match call
    case Tick => ScheduleKeeps(s);
    case ForkCall => PrependKeeps(s, Fork(s), Fork(s).procs[0]);
    case SpawnCall => PrependKeeps(s, Spawn(s), Spawn(s).procs[0]);
    case WaitCall => WaitKeeps(s);
    case ReapCall => ReapKeeps(s);
    case ExitCall(status) => ExitKeeps(s, status);
  }

  // ---- terminated processes ----

  predicate Terminated(p: Proc)
  {
    p.state == Zombie || p.state == Dead
  }

  /** A process keeps its identity, once terminated it stays so with the same exit status, and a buried one is never
      a zombie again. */
  predicate Ages(p: Proc, p': Proc)
  {
    && p'.pid == p.pid && p'.parent == p.parent
    && (Terminated(p) ==> Terminated(p') && p'.exitStatus == p.exitStatus)
    && (p.state == Dead ==> p'.state == Dead)
  }

  /** New processes come in front; entries are matched from the end of the list. */
  ghost predicate AllAge(ps: seq<Proc>, ps': seq<Proc>)
  {
    |ps| <= |ps'| && forall i :: 0 <= i < |ps| ==> Ages(ps[i], ps'[|ps'| - |ps| + i])
  }

  lemma {:induction false} AgesTransitive(a: seq<Proc>, b: seq<Proc>, c: seq<Proc>)
    requires AllAge(a, b) && AllAge(b, c)
    ensures AllAge(a, c)
  {
    forall i | 0 <= i < |a|
      ensures Ages(a[i], c[|c| - |a| + i])
    {
      var j := |b| - |a| + i;
      assert Ages(a[i], b[j]) && Ages(b[j], c[|c| - |b| + j]);
    }
  }

  lemma {:induction false} OneAges(ps: seq<Proc>, k: nat, p: Proc)
    requires k < |ps| && Ages(ps[k], p)
    ensures AllAge(ps, ps[k := p])
  {
  }

  lemma {:induction false} FrontAges(ps: seq<Proc>, p: Proc)
    ensures AllAge(ps, [p] + ps)
  {
  }

  lemma {:induction false} NoneAges(ps: seq<Proc>)
    ensures AllAge(ps, ps)
  {
  }

  lemma {:induction false} ScheduleAges(s: Sys)
    requires HasCurrent(s)
    ensures AllAge(s.procs, Schedule(s).procs)
  {
    hide Find, FirstReady, FirstZombie, AllAge;
    var ps, k, c := s.procs, FirstReady(s.procs), Cur(s);
    NoneAges(ps);
    if k < |ps| {
      var ps1 := SetState(ps, k, Running);
      OneAges(ps, k, ps1[k]);
      var ps2 := if ps1[c].state == Running then SetState(ps1, c, Ready) else ps1;
      NoneAges(ps1);
      OneAges(ps1, c, ps1[c].(state := if ps1[c].state == Running then Ready else ps1[c].state));
      AgesTransitive(ps, ps1, ps2);
      var s1 := s.(procs := ps2, current := ps2[k].pid);
      if HasCurrent(s1) {
        ResumeAges(s1);
        AgesTransitive(ps, ps2, Resume(s1).procs);
      }
    }
  }

  lemma {:induction false} ResumeAges(s: Sys)
    requires HasCurrent(s)
    ensures AllAge(s.procs, Resume(s).procs)
  {
    hide Find, FirstZombie, AllAge;
    NoneAges(s.procs);
    OneAges(s.procs, Cur(s), Resume(s).procs[Cur(s)]);
  }

  lemma {:induction false} BlockAges(s: Sys, waiting: bool)
    requires HasCurrent(s) && !Terminated(s.procs[Cur(s)])
    ensures AllAge(s.procs, BlockCurrent(s, waiting).procs)
  {
    hide Find, Schedule, AllAge;
    var ps, c := s.procs, Cur(s);
    var p := ps[c].(state := Blocked, waiting := waiting);
    OneAges(ps, c, p);
    var s1 := s.(procs := ps[c := p]);
    if HasCurrent(s1) {
      ScheduleAges(s1);
      AgesTransitive(ps, s1.procs, Schedule(s1).procs);
    }
  }

  lemma {:induction false} ExitAges(s: Sys, status: int)
    requires HasCurrent(s) && !Terminated(s.procs[Cur(s)])
    ensures AllAge(s.procs, Exit(s, status).procs)
  {
    hide Find, Schedule, AllAge;
    var ps, c := s.procs, Cur(s);
    var ps1 := ps[c := ps[c].(state := Zombie, exitStatus := status)];
    OneAges(ps, c, ps1[c]);
    NoneAges(ps1);
    var p := Find(ps1, ps1[c].parent);
    var ps2 := if p < |ps1| && ps1[p].state == Blocked then SetState(ps1, p, Ready) else ps1;
    if p < |ps1| && ps1[p].state == Blocked {
      OneAges(ps1, p, ps2[p]);
    }
    AgesTransitive(ps, ps1, ps2);
    var s1 := s.(procs := ps2);
    if HasCurrent(s1) {
      ScheduleAges(s1);
      AgesTransitive(ps, ps2, Schedule(s1).procs);
    }
  }

  lemma {:induction false} StepAges(s: Sys, call: Call)
    requires Inv(s) && Enabled(s, call)
    ensures AllAge(s.procs, Step(s, call).procs)
  {
    hide Find, FirstZombie, FirstReady, Schedule, BlockCurrent, Exit, NoLostWakeUp, WaitersServed, NoFailedWait, Family, AllAge;
    var ps, c := s.procs, Cur(s);
    var z := FirstZombie(ps, s.current);
    match call
    case Tick => ScheduleAges(s);
    case ForkCall => FrontAges(ps, Fork(s).procs[0]);
    case SpawnCall => FrontAges(ps, Spawn(s).procs[0]);
    case WaitCall =>
      if z < |ps| {
        OneAges(ps, c, ps[c].(got := Exited(ps[z].exitStatus)));
      } else {
        BlockAges(s, true);
      }
    case ReapCall =>
      if z < |ps| {
        OneAges(ps, z, ps[z].(state := Dead));
      } else {
        BlockAges(s, false);
      }
    case ExitCall(status) => ExitAges(s, status);
  }

  // ---- runs ----

  ghost predicate Reaches(s: Sys, calls: seq<Call>, s': Sys)
    requires Inv(s)
    decreases |calls|
  {
    if calls == [] then s' == s else
      Enabled(s, calls[0]) && (StepKeeps(s, calls[0]); Reaches(Step(s, calls[0]), calls[1..], s'))
  }

  lemma {:induction false} InitKeeps()
    ensures Inv(Init())
  {
  }

  /** In every reachable state no wake-up has been lost and no MSG_WAIT has failed; unless the machine is
      stuck, exactly the current process is running; and who has terminated stays terminated. */
  lemma {:induction false} RunsAreSafe(s: Sys, calls: seq<Call>, s': Sys)
    requires Inv(s) && Reaches(s, calls, s')
    ensures Inv(s')
    ensures NoLostWakeUp(s'.procs) && NoFailedWait(s'.procs)
    ensures !s'.stuck ==> forall i :: 0 <= i < |s'.procs| ==> (s'.procs[i].state == Running <==> s'.procs[i].pid == s'.current)
    ensures AllAge(s.procs, s'.procs)
    decreases |calls|
  {
    hide NoLostWakeUp, WaitersServed, NoFailedWait, Step;
    if calls == [] {
      NoneAges(s.procs);
      forall i | 0 <= i < |s.procs|
        ensures Find(s.procs, s.procs[i].pid) == i
      {
        FindIs(s.procs, i);
      }
    } else {
      StepKeeps(s, calls[0]);
      StepAges(s, calls[0]);
      var s1 := Step(s, calls[0]);
      RunsAreSafe(s1, calls[1..], s');
      AgesTransitive(s.procs, s1.procs, s'.procs);
    }
  }

  // ---- what single calls do ----

  /** After init_process the first process, with pid 1 and no parent, runs alone; the next pid is 2. */
  lemma {:induction false} InitExact()
    ensures var s := Init();
            && |s.procs| == 1 && s.procs[0].pid == s.current == 1 && s.procs[0].parent == 0
            && s.procs[0].state == Running && s.nextPid == 2 && s.count == 1 && !s.stuck
  {
  }

  /** A fork puts a ready child of the caller in front, under a pid no older process has; every older process is as
      before, and the caller still runs. */
  lemma {:induction false} ForkExact(s: Sys)
    requires Inv(s) && Enabled(s, ForkCall)
    ensures var s' := Step(s, ForkCall);
            && |s'.procs| == |s.procs| + 1 && s'.procs[1..] == s.procs && s'.current == s.current && !s'.stuck
            && s'.procs[0].parent == s.current && s'.procs[0].state == Ready && !s'.procs[0].waiting
            && (forall i :: 0 <= i < |s.procs| ==> s'.procs[0].pid != s.procs[i].pid)
            && s'.count == s.count + 1
            && HasCurrent(s') && s'.procs[Cur(s')] == s.procs[Cur(s)] && s.procs[Cur(s)].state == Running
  {
    hide NoLostWakeUp, WaitersServed, NoFailedWait;
    StepKeeps(s, ForkCall);
    var s' := Step(s, ForkCall);
    FindIs(s'.procs, Cur(s) + 1);
  }

  /** process_create makes an orphan in the same place. */
  lemma {:induction false} SpawnExact(s: Sys)
    requires Inv(s) && Enabled(s, SpawnCall)
    ensures var s' := Step(s, SpawnCall);
            && |s'.procs| == |s.procs| + 1 && s'.procs[1..] == s.procs && s'.current == s.current && !s'.stuck
            && (forall i :: 0 <= i <= |s.procs| ==> s'.procs[i].pid != 0 && s'.procs[0].parent != s'.procs[i].pid)
            && s'.procs[0].state == Ready
            && (forall i :: 0 <= i < |s.procs| ==> s'.procs[0].pid != s.procs[i].pid)
  {
    hide NoLostWakeUp, WaitersServed, NoFailedWait;
  }

  /** The process switched to is the first ready one in the list; the one switched from becomes ready again only if
      it was running; nobody else's state changes. */
  lemma {:induction false} ScheduleExact(s: Sys)
    requires Switching(s)
    ensures var s', k, c := Schedule(s), FirstReady(s.procs), Cur(s);
            if k == |s.procs| then s'.stuck && s'.procs == s.procs && s'.current == s.current else
              && !s'.stuck && s'.current == s.procs[k].pid && |s'.procs| == |s.procs|
              && s'.procs[k].state == Running
              && s'.procs[c].state == (if s.procs[c].state == Running then Ready else s.procs[c].state)
              && (forall i :: 0 <= i < |s.procs| && i != k ==> s'.procs[i] == s.procs[i].(state := s'.procs[i].state))
              && (forall i :: 0 <= i < |s.procs| && i != k && i != c ==> s'.procs[i] == s.procs[i])
              && s'.procs[k] == s.procs[k].(state := Running, waiting := false, got := s'.procs[k].got)
              && (!s.procs[k].waiting ==> s'.procs[k].got == s.procs[k].got)
  {
    hide Find, FirstZombie, FirstReady, NoLostWakeUp, WaitersServed, NoFailedWait;
    var ps, k, c := s.procs, FirstReady(s.procs), Cur(s);
    if k < |ps| {
      var ps1 := SetState(ps, k, Running);
      var ps2 := if ps1[c].state == Running then SetState(ps1, c, Ready) else ps1;
      FindIs(ps2, k);
    }
  }

  /** MSG_WAIT answers at once exactly when there is a zombie child, with the status of the first one, and then
      nothing else changes. */
  lemma {:induction false} WaitExact(s: Sys)
    requires Inv(s) && !s.stuck && FirstZombie(s.procs, s.current) < |s.procs|
    ensures var s', c := Step(s, WaitCall), Cur(s);
            && s'.procs == s.procs[c := s'.procs[c]] && s' == s.(procs := s'.procs)
            && s'.procs[c] == s.procs[c].(got := Exited(s.procs[FirstZombie(s.procs, s.current)].exitStatus))
  {
  }

  /** Without a zombie child the caller of MSG_WAIT blocks inside the call, that of handle_wait_message behind its last
      action; and the first ready process runs. */
  lemma {:induction false} WaitBlocks(s: Sys, call: Call)
    requires Inv(s) && !s.stuck && call in {WaitCall, ReapCall} && FirstZombie(s.procs, s.current) == |s.procs|
    ensures var s', c, k := Step(s, call), Cur(s), FirstReady(s.procs);
            && |s'.procs| == |s.procs| && s'.procs[c] == s.procs[c].(state := Blocked, waiting := call == WaitCall)
            && (k == |s.procs| ==> s'.stuck)
            && (k < |s.procs| ==>
                  && !s'.stuck && s'.current == s.procs[k].pid
                  && s'.procs[k] == s.procs[k].(state := Running, waiting := false, got := s'.procs[k].got))
            && (forall i :: 0 <= i < |s.procs| && i != c && i != k ==> s'.procs[i] == s.procs[i])
  {
    hide Find, FirstZombie, NoLostWakeUp, WaitersServed, NoFailedWait, Schedule;
    var ps, c := s.procs, Cur(s);
    var ps' := ps[c := ps[c].(state := Blocked, waiting := call == WaitCall)];
    var s1 := s.(procs := ps');
    SamePlace(ps, ps', s.current);
    SameReady(ps, ps');
    BlockSwitching(s, call == WaitCall);
    ScheduleExact(s1);
  }

  lemma {:induction false} SameReady(ps: seq<Proc>, ps': seq<Proc>)
    requires |ps| == |ps'| && forall i :: 0 <= i < |ps| ==> (ps[i].state == Ready <==> ps'[i].state == Ready)
    ensures FirstReady(ps') == FirstReady(ps)
  {
    hide FirstReady;
    var a, b := FirstReady(ps), FirstReady(ps');
  }

  /** handle_wait_message reports a child only by burying it: the first zombie child becomes dead, and nothing else
      changes. */
  lemma {:induction false} ReapExact(s: Sys)
    requires Inv(s) && !s.stuck && FirstZombie(s.procs, s.current) < |s.procs|
    ensures var s', z := Step(s, ReapCall), FirstZombie(s.procs, s.current);
            && s' == s.(procs := s'.procs) && s'.procs == s.procs[z := s.procs[z].(state := Dead)]
  {
  }

  /** So no child is reported twice: after any further calls its entry is no zombie child of anyone. */
  lemma {:induction false} ReapedOnce(s: Sys, calls: seq<Call>, s': Sys, i: nat)
    requires Inv(s) && !s.stuck && FirstZombie(s.procs, s.current) < |s.procs|
    requires Inv(Step(s, ReapCall)) && Reaches(Step(s, ReapCall), calls, s') && i < |s'.procs|
    requires s'.procs[i].pid == s.procs[FirstZombie(s.procs, s.current)].pid
    ensures s'.procs[i].state == Dead
    ensures forall pid :: FirstZombie(s'.procs, pid) != i
  {
    hide FirstZombie, NoLostWakeUp, WaitersServed, NoFailedWait, Find, Step, Reaches;
    var z, s1 := FirstZombie(s.procs, s.current), Step(s, ReapCall);
    ReapExact(s);
    RunsAreSafe(s1, calls, s');
    var j := |s'.procs| - |s1.procs| + z;
    assert Ages(s1.procs[z], s'.procs[j]);
    assert i == j;
  }

  /** exit_process: the caller is a zombie with this status, a blocked parent is ready or already running, and nobody
      else's state changes but that of the process switched to. */
  lemma {:induction false} ExitExact(s: Sys, status: int)
    requires Inv(s) && !s.stuck
    ensures var s', c := Step(s, ExitCall(status)), Cur(s);
            && |s'.procs| == |s.procs| && s'.procs[c] == s.procs[c].(state := Zombie, exitStatus := status)
            && (forall i :: 0 <= i < |s.procs| && s.procs[i].pid == s.procs[c].parent && s.procs[i].state == Blocked ==>
                  s'.procs[i].state == Ready || s'.procs[i].state == Running)
            && (forall i :: 0 <= i < |s.procs| && i != c && s.procs[i].pid != s.procs[c].parent ==>
                  s'.procs[i] == s.procs[i] || s'.procs[i].pid == s'.current)
  {
    hide Find, FirstZombie, FirstReady, NoLostWakeUp, WaitersServed, NoFailedWait, Schedule;
    var ps, c := s.procs, Cur(s);
    var ps1 := ps[c := ps[c].(state := Zombie, exitStatus := status)];
    forall i | 0 <= i < |ps| && ps[i].pid == ps[c].parent
      ensures i == Find(ps1, ps1[c].parent) && i != c
    {
      FindIs(ps1, i);
    }
    SamePlace(ps, Exiting(s, status), s.current);
    ExitSwitching(s, status);
    ScheduleExact(s.(procs := Exiting(s, status)));
  }

  // ---- wait and exit together ----

  /** A call of MSG_WAIT here answers at once with this status. */
  ghost predicate Reports(s: Sys, st: int)
  {
    HasCurrent(s) &&
    var s' := Step(s, WaitCall);
    |s'.procs| == |s.procs| && s'.procs[Cur(s)].got == Exited(st) && s'.current == s.current && !s'.stuck
  }

  /** A status arrives where it belongs: when the child of a fork has exited and is the only zombie child of its
      parent, MSG_WAIT of the parent reports exactly that status, whatever happened in between. */
  lemma {:induction false} ForkedStatusReported(s: Sys, calls: seq<Call>, s': Sys, i: nat)
    requires Inv(s) && Enabled(s, ForkCall) && Inv(Step(s, ForkCall))
    requires Reaches(Step(s, ForkCall), calls, s') && !s'.stuck && s'.current == s.current
    requires i < |s'.procs| && s'.procs[i].pid == Step(s, ForkCall).procs[0].pid && s'.procs[i].state == Zombie
    requires forall j :: 0 <= j < |s'.procs| && j != i ==> !ZombieChild(s'.procs[j], s.current)
    ensures Reports(s', s'.procs[i].exitStatus)
  {
    hide FirstZombie, NoLostWakeUp, WaitersServed, NoFailedWait, Find, Step, Reaches;
    var s1 := Step(s, ForkCall);
    ForkExact(s);
    RunsAreSafe(s1, calls, s');
    var j := |s'.procs| - |s1.procs|;
    assert Ages(s1.procs[0], s'.procs[j]);
    assert i == j && ZombieChild(s'.procs[i], s.current);
    assert FirstZombie(s'.procs, s.current) == i;
    WaitExact(s');
  }

  /** The shortest such run: fork, wait, and the child exits with `st`. The child runs as soon as its parent waits;
      if no process in front of the parent is ready, the parent runs next and has been told exactly `st`. */
  lemma {:induction false} ForkWaitExit(s: Sys, st: int)
    requires Inv(s) && Enabled(s, ForkCall) && FirstZombie(s.procs, s.current) == |s.procs|
    requires forall i :: 0 <= i < Cur(s) ==> s.procs[i].state != Ready
    ensures var s1 := Step(s, ForkCall);
            HasCurrent(s1) && var s2 := Step(s1, WaitCall);
            HasCurrent(s2) && s2.current == s1.procs[0].pid && !s2.stuck && var s3 := Step(s2, ExitCall(st));
            && s3.current == s.current && |s3.procs| == |s.procs| + 1
            && s3.procs[Cur(s) + 1] == s.procs[Cur(s)].(waiting := false, got := Exited(st))
  {
    hide FirstZombie, NoLostWakeUp, WaitersServed, NoFailedWait, Find, Step;
    var c, s1 := Cur(s), Step(s, ForkCall);
    ForkExact(s);
    StepKeeps(s, ForkCall);
    assert forall i :: 0 <= i < |s.procs| ==> s1.procs[i + 1] == s.procs[i];
    NoZombieIn(s.procs, s1.procs, s.current);
    FindIs(s1.procs, c + 1);
    WaitBlocks(s1, WaitCall);
    StepKeeps(s1, WaitCall);
    var s2 := Step(s1, WaitCall);
    assert FirstReady(s1.procs) == 0;
    FindIs(s2.procs, 0);
    ExitDeliversStatus(s2, c + 1, st);
  }

  lemma {:induction false} NoZombieIn(ps: seq<Proc>, ps': seq<Proc>, pid: int)
    requires FirstZombie(ps, pid) == |ps| && |ps'| == |ps| + 1 && ps'[1..] == ps && ps'[0].state == Ready
    ensures FirstZombie(ps', pid) == |ps'|
  {
    hide FirstZombie;
    assert forall i :: 0 < i < |ps'| ==> ps'[i] == ps[i - 1];
  }

  /** A child that exits hands its status to a parent suspended in MSG_WAIT, if the parent is the next process to
      run. */
  lemma {:induction false} ExitDeliversStatus(s: Sys, p: nat, status: int)
    requires Inv(s) && !s.stuck && p < |s.procs|
    requires s.procs[p].waiting && s.procs[p].state == Blocked && s.procs[Cur(s)].parent == s.procs[p].pid
    requires forall i :: 0 <= i < p ==> s.procs[i].state != Ready
    ensures var s' := Step(s, ExitCall(status));
            && s'.current == s.procs[p].pid && |s'.procs| == |s.procs|
            && s'.procs[p] == s.procs[p].(state := Running, waiting := false, got := Exited(status))
            && s'.procs[Cur(s)] == s.procs[Cur(s)].(state := Zombie, exitStatus := status)
  {
    hide Find, FirstZombie, FirstReady, WaitersServed, NoFailedWait;
    var ps, c, pid := s.procs, Cur(s), s.procs[p].pid;
    var ps1 := ps[c := ps[c].(state := Zombie, exitStatus := status)];
    FindIs(ps1, p);
    var ps2 := SetState(ps1, p, Ready);
    SamePlace(ps, ps2, s.current);
    var ps3 := SetState(ps2, p, Running);
    assert FirstReady(ps2) == p;
    FindIs(ps3, p);
    assert forall i :: 0 <= i < |ps| && i != c ==> !ZombieChild(ps3[i], pid);
    assert ZombieChild(ps3[c], pid);
    assert FirstZombie(ps3, pid) == c;
  }

  // ---- reported statuses ----

  /** `st` is the status some child of `pid` terminated with. */
  ghost predicate ChildStatus(ps: seq<Proc>, pid: int, st: int)
  {
    exists j :: 0 <= j < |ps| && ps[j].parent == pid && Terminated(ps[j]) && ps[j].exitStatus == st
  }

  /** What a process was told last is true. */
  ghost predicate Told(ps: seq<Proc>, p: Proc)
  {
    p.got.Exited? ==> ChildStatus(ps, p.pid, p.got.status)
  }

  /** Every status that MSG_WAIT reported is that of a terminated child of the caller. */
  ghost predicate ReportsTrue(ps: seq<Proc>)
  {
    forall i :: 0 <= i < |ps| ==> Told(ps, ps[i])
  }

  lemma {:induction false} StatusStays(ps: seq<Proc>, ps': seq<Proc>, pid: int, st: int)
    requires AllAge(ps, ps') && ChildStatus(ps, pid, st)
    ensures ChildStatus(ps', pid, st)
  {
    var j :| 0 <= j < |ps| && ps[j].parent == pid && Terminated(ps[j]) && ps[j].exitStatus == st;
    var k := |ps'| - |ps| + j;
    assert Ages(ps[j], ps'[k]);
    assert ps'[k].parent == pid && Terminated(ps'[k]) && ps'[k].exitStatus == st;
  }

  /** What a step may do to what processes were told: nothing, or report the first zombie child. */
  ghost predicate Retold(ps: seq<Proc>, ps': seq<Proc>)
  {
    && |ps'| == |ps|
    && forall i :: 0 <= i < |ps| ==>
         && ps'[i].pid == ps[i].pid
         && (ps'[i].got == ps[i].got || (ps'[i].got.Exited? ==> ChildStatus(ps', ps[i].pid, ps'[i].got.status)))
  }

  lemma {:induction false} RetoldKeeps(ps: seq<Proc>, ps': seq<Proc>)
    requires ReportsTrue(ps) && AllAge(ps, ps') && Retold(ps, ps')
    ensures ReportsTrue(ps')
  {
    hide ChildStatus, AllAge;
    forall i | 0 <= i < |ps'|
      ensures Told(ps', ps'[i])
    {
      assert Told(ps, ps[i]);
      if ps'[i].got == ps[i].got && ps[i].got.Exited? {
        StatusStays(ps, ps', ps[i].pid, ps[i].got.status);
      }
    }
  }

  /** Changes of one entry that leave what it was told. */
  lemma {:induction false} OneReports(ps: seq<Proc>, k: nat, p: Proc)
    requires k < |ps| && ReportsTrue(ps) && Ages(ps[k], p) && p.got == ps[k].got
    ensures ReportsTrue(ps[k := p])
  {
    hide ChildStatus, AllAge, ReportsTrue;
    OneAges(ps, k, p);
    RetoldKeeps(ps, ps[k := p]);
  }

  lemma {:induction false} FrontReports(ps: seq<Proc>, p: Proc)
    requires ReportsTrue(ps) && p.got == NoResult
    ensures ReportsTrue([p] + ps)
  {
    hide ChildStatus, AllAge;
    FrontAges(ps, p);
    var ps' := [p] + ps;
    forall i | 0 < i < |ps'|
      ensures Told(ps', ps'[i])
    {
      assert Told(ps, ps[i - 1]);
      if ps'[i].got.Exited? {
        StatusStays(ps, ps', ps'[i].pid, ps'[i].got.status);
      }
    }
  }

  lemma {:induction false} ResumeReports(s: Sys)
    requires HasCurrent(s) && ReportsTrue(s.procs)
    ensures ReportsTrue(Resume(s).procs)
  {
    hide Find, FirstZombie, ReportsTrue, AllAge, ChildStatus;
    var ps, ps', c := s.procs, Resume(s).procs, Cur(s);
    ResumeAges(s);
    if ps[c].waiting && FirstZombie(ps, ps[c].pid) < |ps| {
      ZombieStatus(ps, ps[c].pid);
      StatusStays(ps, ps', ps[c].pid, ps[FirstZombie(ps, ps[c].pid)].exitStatus);
    }
    RetoldKeeps(ps, ps');
  }

  lemma {:induction false} ZombieStatus(ps: seq<Proc>, pid: int)
    requires FirstZombie(ps, pid) < |ps|
    ensures ChildStatus(ps, pid, ps[FirstZombie(ps, pid)].exitStatus)
  {
    var z := FirstZombie(ps, pid);
    assert ZombieChild(ps[z], pid);
  }

  lemma {:induction false} ScheduleReports(s: Sys)
    requires HasCurrent(s) && ReportsTrue(s.procs)
    ensures ReportsTrue(Schedule(s).procs)
  {
    hide Find, FirstReady, FirstZombie, Resume, ReportsTrue, AllAge, ChildStatus;
    var ps, k, c := s.procs, FirstReady(s.procs), Cur(s);
    if k < |ps| {
      var ps1 := SetState(ps, k, Running);
      OneReports(ps, k, ps1[k]);
      var ps2 := if ps1[c].state == Running then SetState(ps1, c, Ready) else ps1;
      if ps1[c].state == Running {
        OneReports(ps1, c, ps2[c]);
      }
      var s1 := s.(procs := ps2, current := ps2[k].pid);
      if HasCurrent(s1) {
        ResumeReports(s1);
      }
    }
  }

  lemma {:induction false} BlockReports(s: Sys, waiting: bool)
    requires HasCurrent(s) && ReportsTrue(s.procs) && !Terminated(s.procs[Cur(s)])
    ensures ReportsTrue(BlockCurrent(s, waiting).procs)
  {
    hide Find, Schedule, ReportsTrue, AllAge, ChildStatus;
    var ps, c := s.procs, Cur(s);
    var p := ps[c].(state := Blocked, waiting := waiting);
    OneReports(ps, c, p);
    var s1 := s.(procs := ps[c := p]);
    if HasCurrent(s1) {
      ScheduleReports(s1);
    }
  }

  lemma {:induction false} ExitReports(s: Sys, status: int)
    requires HasCurrent(s) && ReportsTrue(s.procs) && !Terminated(s.procs[Cur(s)])
    ensures ReportsTrue(Exit(s, status).procs)
  {
    hide Find, Schedule, ReportsTrue, AllAge, ChildStatus;
    var ps, c := s.procs, Cur(s);
    var ps1 := ps[c := ps[c].(state := Zombie, exitStatus := status)];
    OneReports(ps, c, ps1[c]);
    var p := Find(ps1, ps1[c].parent);
    var ps2 := if p < |ps1| && ps1[p].state == Blocked then SetState(ps1, p, Ready) else ps1;
    if p < |ps1| && ps1[p].state == Blocked {
      OneReports(ps1, p, ps2[p]);
    }
    var s1 := s.(procs := ps2);
    if HasCurrent(s1) {
      ScheduleReports(s1);
    }
  }

  /** Every kernel call keeps reports true, those of MSG_WAIT calls that finish now included. */
  lemma {:induction false} StepReports(s: Sys, call: Call)
    requires Inv(s) && Enabled(s, call) && ReportsTrue(s.procs)
    ensures ReportsTrue(Step(s, call).procs)
  {
    hide Find, FirstZombie, FirstReady, Schedule, BlockCurrent, Exit, NoLostWakeUp, WaitersServed, NoFailedWait, Family;
    hide AllAge, ReportsTrue, ChildStatus;
    var ps, c := s.procs, Cur(s);
    var z := FirstZombie(ps, s.current);
    match call
    case Tick => ScheduleReports(s);
    case ForkCall => FrontReports(ps, Fork(s).procs[0]);
    case SpawnCall => FrontReports(ps, Spawn(s).procs[0]);
    case WaitCall =>
      if z < |ps| {
        var p := ps[c].(got := Exited(ps[z].exitStatus));
        OneAges(ps, c, p);
        ZombieStatus(ps, s.current);
        StatusStays(ps, ps[c := p], s.current, ps[z].exitStatus);
        RetoldKeeps(ps, ps[c := p]);
      } else {
        BlockReports(s, true);
      }
    case ReapCall =>
      if z < |ps| {
        OneReports(ps, z, ps[z].(state := Dead));
      } else {
        BlockReports(s, false);
      }
    case ExitCall(status) => ExitReports(s, status);
  }

  /** In every state reached from init_process, each status a process was told is that of a terminated child. */
  lemma {:induction false} RunsReportTrue(s: Sys, calls: seq<Call>, s': Sys)
    requires Inv(s) && ReportsTrue(s.procs) && Reaches(s, calls, s')
    ensures ReportsTrue(s'.procs)
    decreases |calls|
  {
    hide NoLostWakeUp, WaitersServed, NoFailedWait, Step, ReportsTrue;
    if calls != [] {
      StepKeeps(s, calls[0]);
      StepReports(s, calls[0]);
      RunsReportTrue(Step(s, calls[0]), calls[1..], s');
    }
  }

  lemma InitReports()
    ensures ReportsTrue(Init().procs)
  {
  }

  // ---- timer ticks only ----

  predicate Runnable(p: Proc)
  {
    p.state == Ready || p.state == Running
  }

  /** First runnable entry at or after `k`. */
  function FirstRunnable(ps: seq<Proc>, k: nat): (r: nat)
    requires k <= |ps|
    ensures k <= r <= |ps|
    ensures r < |ps| ==> Runnable(ps[r])
    ensures forall i :: k <= i < r ==> !Runnable(ps[i])
    decreases |ps| - k
  {
    if k == |ps| || Runnable(ps[k]) then k else FirstRunnable(ps, k + 1)
  }

  predicate TwoRunnable(ps: seq<Proc>)
  {
    var a := FirstRunnable(ps, 0);
    a < |ps| && FirstRunnable(ps, a + 1) < |ps|
  }

  function FirstPid(ps: seq<Proc>): int
    requires TwoRunnable(ps)
  {
    ps[FirstRunnable(ps, 0)].pid
  }

  function SecondPid(ps: seq<Proc>): int
    requires TwoRunnable(ps)
  {
    ps[FirstRunnable(ps, FirstRunnable(ps, 0) + 1)].pid
  }

  function Ticks(s: Sys, n: nat): Sys
  {
    if n == 0 then s else
      var s1 := Ticks(s, n - 1);
      if HasCurrent(s1) then Schedule(s1) else s1
  }

  lemma {:induction false} SameRunnable(ps: seq<Proc>, ps': seq<Proc>, k: nat)
    requires |ps| == |ps'| && k <= |ps|
    requires forall i :: 0 <= i < |ps| ==> (Runnable(ps[i]) <==> Runnable(ps'[i]))
    ensures FirstRunnable(ps', k) == FirstRunnable(ps, k)
    decreases |ps| - k
  {
    if k < |ps| {
      SameRunnable(ps, ps', k + 1);
    }
  }

  /** What schedule picks: the first runnable entry that is not the running one. */
  lemma {:induction false} TickPicks(s: Sys)
    requires Inv(s) && !s.stuck && TwoRunnable(s.procs)
    ensures var a := FirstRunnable(s.procs, 0);
            FirstReady(s.procs) == if s.current == s.procs[a].pid then FirstRunnable(s.procs, a + 1) else a
  {
    hide NoLostWakeUp, WaitersServed, NoFailedWait, FirstRunnable, FirstReady, Find;
    var ps, a := s.procs, FirstRunnable(s.procs, 0);
    FindIs(ps, a);
  }

  lemma {:induction false} TickShape(s: Sys)
    requires Inv(s) && !s.stuck && FirstReady(s.procs) < |s.procs|
    ensures var s' := Schedule(s);
            && !s'.stuck && |s'.procs| == |s.procs| && s'.current == s.procs[FirstReady(s.procs)].pid
            && forall i :: 0 <= i < |s.procs| ==>
                 s'.procs[i].pid == s.procs[i].pid && (Runnable(s'.procs[i]) <==> Runnable(s.procs[i]))
  {
    hide NoLostWakeUp, WaitersServed, NoFailedWait, Family, FirstReady, Find, FirstZombie;
  }

  /** One tick: the first runnable process runs next, or the second if the first was running. */
  lemma {:induction false} TickMoves(s: Sys)
    requires Inv(s) && !s.stuck && TwoRunnable(s.procs)
    ensures var s' := Schedule(s);
            && Inv(s') && !s'.stuck && TwoRunnable(s'.procs)
            && FirstPid(s'.procs) == FirstPid(s.procs) && SecondPid(s'.procs) == SecondPid(s.procs)
            && s'.current == if s.current == FirstPid(s.procs) then SecondPid(s.procs) else FirstPid(s.procs)
  {
    hide NoLostWakeUp, WaitersServed, NoFailedWait, Family, FirstRunnable, FirstReady, Find, Schedule;
    ScheduleKeeps(s);
    TickPicks(s);
    TickShape(s);
    var ps, ps' := s.procs, Schedule(s).procs;
    SameRunnable(ps, ps', 0);
    SameRunnable(ps, ps', FirstRunnable(ps, 0) + 1);
  }

  /** From the first tick on, the running process alternates between the first two runnable entries of the
      process list. */
  lemma {:induction false} TicksAlternate(s: Sys, n: nat)
    requires Inv(s) && !s.stuck && TwoRunnable(s.procs)
    ensures var s', a, b := Ticks(s, n), FirstPid(s.procs), SecondPid(s.procs);
            && Inv(s') && !s'.stuck && TwoRunnable(s'.procs) && FirstPid(s'.procs) == a && SecondPid(s'.procs) == b
            && s'.current == (if n == 0 then s.current else if (s.current == a) == (n % 2 == 1) then b else a)
  {
    hide Schedule, NoLostWakeUp, WaitersServed, NoFailedWait, Family, FirstPid, SecondPid, TwoRunnable, Find;
    if n > 0 {
      TicksAlternate(s, n - 1);
      TickMoves(Ticks(s, n - 1));
      DistinctPids(s);
    }
  }

  lemma {:induction false} DistinctPids(s: Sys)
    requires Inv(s) && TwoRunnable(s.procs)
    ensures FirstPid(s.procs) != SecondPid(s.procs)
  {
  }

  /** With fewer than two runnable processes the next tick ends in the endless loop of schedule. */
  lemma {:induction false} TickHangs(s: Sys)
    requires Inv(s) && !s.stuck && !TwoRunnable(s.procs)
    ensures Schedule(s).stuck
  {
    hide NoLostWakeUp, WaitersServed, NoFailedWait, FirstReady, FirstRunnable;
    var ps, c := s.procs, Cur(s);
    assert Runnable(ps[c]);
    var a := FirstRunnable(ps, 0);
    assert a <= c;
    var b := FirstRunnable(ps, a + 1);
    assert a == c;
    var k := FirstReady(ps);
    assert k < |ps| ==> Runnable(ps[k]);
  }

  /** Timer ticks never end in that loop exactly when two processes are runnable. */
  lemma {:induction false} TicksNeverHang(s: Sys)
    requires Inv(s) && !s.stuck
    ensures (forall n: nat :: !Ticks(s, n).stuck) <==> TwoRunnable(s.procs)
  {
    hide TwoRunnable, Schedule, NoLostWakeUp, WaitersServed, NoFailedWait, Family;
    if TwoRunnable(s.procs) {
      forall n: nat
        ensures !Ticks(s, n).stuck
      {
        TicksAlternate(s, n);
      }
    } else {
      TickHangs(s);
      assert Ticks(s, 0) == s;
      assert Ticks(s, 1) == Schedule(s);
    }
  }

  /** In particular the state init_process builds does not survive its first tick. */
  lemma {:induction false} InitHangs()
    ensures Ticks(Init(), 1).stuck
  {
    InitKeeps();
    TickHangs(Init());
    assert Ticks(Init(), 0) == Init();
  }
}
