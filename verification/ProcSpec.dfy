/** Processes, scheduling, wait and exit of process.c and message.c as a machine whose steps are whole kernel
    calls. Kernel code is not preempted, so each step is atomic; a call that switches away ends in the
    process switched to. */
module ProcSpec {
  import opened Bytes

  datatype State = Ready | Running | Blocked | Zombie | Dead

  /** What a process's last MSG_WAIT call returned. */
  datatype WaitResult = NoResult | Exited(status: int) | Failed

  /** `waiting`: suspended inside MSG_WAIT, right behind its call of schedule. */
  datatype Proc = Proc(pid: int, parent: int, state: State, exitStatus: int, waiting: bool, got: WaitResult)

  /** `procs` is process_list in order, `current` the pid of current_process; `stuck` is the endless loop of
      schedule when nothing is ready. */
  datatype Sys = Sys(procs: seq<Proc>, current: int, nextPid: int, count: nat, stuck: bool)

  const MAX_PROCESSES := 4

  // ---- list walks ----

  /** find_process: the first entry with this pid, or the length of the list. */
  function Find(ps: seq<Proc>, pid: int): (k: nat)
    ensures k <= |ps|
    ensures k < |ps| ==> ps[k].pid == pid
    ensures forall i :: 0 <= i < k ==> ps[i].pid != pid
  {
    if ps == [] || ps[0].pid == pid then 0 else 1 + Find(ps[1..], pid)
  }

  function FirstReady(ps: seq<Proc>): (k: nat)
    ensures k <= |ps|
    ensures k < |ps| ==> ps[k].state == Ready
    ensures forall i :: 0 <= i < k ==> ps[i].state != Ready
  {
    if ps == [] || ps[0].state == Ready then 0 else 1 + FirstReady(ps[1..])
  }

  predicate ZombieChild(p: Proc, pid: int)
  {
    p.parent == pid && p.state == Zombie
  }

  function FirstZombie(ps: seq<Proc>, pid: int): (k: nat)
    ensures k <= |ps|
    ensures k < |ps| ==> ZombieChild(ps[k], pid)
    ensures forall i :: 0 <= i < k ==> !ZombieChild(ps[i], pid)
  {
    if ps == [] || ZombieChild(ps[0], pid) then 0 else 1 + FirstZombie(ps[1..], pid)
  }

  predicate HasCurrent(s: Sys)
  {
    Find(s.procs, s.current) < |s.procs|
  }

  function Cur(s: Sys): (c: nat)
    requires HasCurrent(s)
    ensures c < |s.procs| && s.procs[c].pid == s.current
  {
    Find(s.procs, s.current)
  }

  function SetState(ps: seq<Proc>, k: nat, state: State): (r: seq<Proc>)
    requires k < |ps|
    ensures |r| == |ps|
  {
    ps[k := ps[k].(state := state)]
  }

  // ---- steps ----

  /** The new current process goes on where it was suspended: behind message.c:88 it looks for a zombie
      child once more. */
  function Resume(s: Sys): Sys
    requires HasCurrent(s)
  {
    var c := Cur(s);
    var p := s.procs[c];
    if !p.waiting then s else
      var z := FirstZombie(s.procs, p.pid);
      var got := if z < |s.procs| then Exited(s.procs[z].exitStatus) else Failed;
      s.(procs := s.procs[c := p.(waiting := false, got := got)])
  }

  /** schedule: the first ready process runs; without one the machine is stuck. */
  function Schedule(s: Sys): (r: Sys)
    requires HasCurrent(s)
  {
    var k := FirstReady(s.procs);
    if k == |s.procs| then s.(stuck := true) else
      var ps1 := SetState(s.procs, k, Running);
      var c := Cur(s);
      var ps2 := if ps1[c].state == Running then SetState(ps1, c, Ready) else ps1;
      var s1 := s.(procs := ps2, current := ps2[k].pid);
      if HasCurrent(s1) then Resume(s1) else s1
  }

  /** init_process */
  function Init(): Sys
  {
    Sys([Proc(1, 0, Running, 0, false, NoResult)], 1, 2, 1, false)
  }

  /** create_process, for MSG_FORK and handle_fork_message. */
  function Fork(s: Sys): Sys
  {
    Sys([Proc(s.nextPid, s.current, Ready, 0, false, NoResult)] + s.procs, s.current, s.nextPid + 1, s.count + 1, s.stuck)
  }

  /** process_create: an orphan from zeroed memory, not counted in the table. */
  function Spawn(s: Sys): Sys
  {
    s.(procs := [Proc(s.nextPid, 0, Ready, 0, false, NoResult)] + s.procs, nextPid := s.nextPid + 1)
  }

  /** MSG_WAIT: report the first zombie child, else block. */
  function Wait(s: Sys): Sys
    requires HasCurrent(s)
  {
    var c := Cur(s);
    var z := FirstZombie(s.procs, s.current);
    if z < |s.procs| then s.(procs := s.procs[c := s.procs[c].(got := Exited(s.procs[z].exitStatus))])
    else BlockCurrent(s, true)
  }

  function BlockCurrent(s: Sys, waiting: bool): Sys
    requires HasCurrent(s)
  {
    var c := Cur(s);
    var s1 := s.(procs := s.procs[c := s.procs[c].(state := Blocked, waiting := waiting)]);
    if HasCurrent(s1) then Schedule(s1) else s1
  }

  /** handle_wait_message: reap the first zombie child, else block; on resumption it only returns. */
  function Reap(s: Sys): Sys
    requires HasCurrent(s)
  {
    var z := FirstZombie(s.procs, s.current);
    if z < |s.procs| then s.(procs := SetState(s.procs, z, Dead)) else BlockCurrent(s, false)
  }

  /** exit_process: the parent is looked up after the current process has become a zombie. */
  function Exit(s: Sys, status: int): Sys
    requires HasCurrent(s)
  {
    var c := Cur(s);
    var ps1 := s.procs[c := s.procs[c].(state := Zombie, exitStatus := status)];
    var p := Find(ps1, ps1[c].parent);
    var ps2 := if p < |ps1| && ps1[p].state == Blocked then SetState(ps1, p, Ready) else ps1;
    var s1 := s.(procs := ps2);
    if HasCurrent(s1) then Schedule(s1) else s1
  }

  datatype Call = Tick | ForkCall | SpawnCall | WaitCall | ReapCall | ExitCall(status: int)

  predicate Enabled(s: Sys, call: Call)
  {
    !s.stuck && (call.ForkCall? ==> s.count < MAX_PROCESSES)
  }

  function Step(s: Sys, call: Call): Sys
    requires HasCurrent(s)
  {
    match call
    case Tick => Schedule(s)
    case ForkCall => Fork(s)
    case SpawnCall => Spawn(s)
    case WaitCall => Wait(s)
    case ReapCall => Reap(s)
    case ExitCall(status) => Exit(s, status)
  }
}
