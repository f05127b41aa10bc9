/** process.c and the MSG_FORK and MSG_WAIT cases of message.c over the linked process list. Every kernel call
    is proved to change the decoded list as the step of the same name in ProcSpec says. */
module Processes {
  import opened Bytes
  import opened ProcSpec
  import opened ProcRuns

  /** struct process; `waiting` stands for a saved context behind the schedule call of MSG_WAIT, `got` for
      what that call returned last. */
  class Process {
    var pid: int
    var parentPid: int
    var state: State
    var exitStatus: int
    var next: Process?
    var waiting: bool
    var got: WaitResult

    /** Zeroed memory, as the static table and kalloc provide it. */
    constructor ()
      ensures Value() == Proc(0, 0, Ready, 0, false, NoResult) && next == null
    {
      pid, parentPid, state, exitStatus, next, waiting, got := 0, 0, Ready, 0, null, false, NoResult;
    }

    function Value(): Proc
      reads this
    {
      Proc(pid, parentPid, state, exitStatus, waiting, got)
    }
  }

  class Kernel {
    var currentProcess: Process
    var processList: Process
    var nextPid: int
    var processCount: nat
    var stuck: bool
    ghost var chain: seq<Process>

    ghost function NodeAt(k: nat): Process?
      reads this
    {
      if k < |chain| then chain[k] else null
    }

    /** The nodes of process_list are distinct and linked in the order of `chain`, ending in NULL. */
    ghost predicate Linked()
      reads this, chain
    {
      && 0 < |chain| && processList == chain[0] && currentProcess in chain
      && (forall i, j :: 0 <= i < j < |chain| ==> chain[i] != chain[j])
      && (forall i :: 0 <= i < |chain| ==> chain[i].next == NodeAt(i + 1))
    }

    ghost function Procs(): (ps: seq<Proc>)
      reads this, chain
      ensures |ps| == |chain|
    {
      seq(|chain|, i requires 0 <= i < |chain| reads this, chain => chain[i].Value())
    }

    ghost function View(): Sys
      reads this, chain, currentProcess
    {
      Sys(Procs(), currentProcess.pid, nextPid, processCount, stuck)
    }

    ghost predicate Valid()
      reads this, chain, currentProcess
    {
      Linked() && Inv(View())
    }

    /** init_process */
    constructor ()
      ensures Valid() && View() == Init() && fresh(chain)
    {
      var init := new Process();
      init.pid, init.parentPid, init.state := 1, 0, Running;
      processList, currentProcess, processCount, nextPid, stuck := init, init, 1, 2, false;
      chain := [init];
      new;
      assert Procs() == Init().procs;
      InitKeeps();
    }

    // ---- walks over the list ----

    method FindProcess(pid: int) returns (p: Process?)
      requires Linked()
      ensures var k := Find(Procs(), pid); p == NodeAt(k) && (p != null <==> k < |Procs()|)
      ensures p != null ==> p.Value() == Procs()[Find(Procs(), pid)]
    {
      hide Find;
      p := processList;
      ghost var k := 0;
      while p != null
        invariant 0 <= k <= |chain| && p == NodeAt(k)
        invariant forall i :: 0 <= i < k ==> Procs()[i].pid != pid
        decreases |chain| - k
      {
        assert Procs()[k] == p.Value();
        if p.pid == pid {
          return;
        }
        p, k := p.next, k + 1;
      }
    }

    /** The scan of MSG_WAIT and handle_wait_message for a zombie child of `pid`. */
    method FindZombie(pid: int) returns (p: Process?)
      requires Linked()
      ensures var k := FirstZombie(Procs(), pid); p == NodeAt(k) && (p != null <==> k < |Procs()|)
      ensures p != null ==> p.Value() == Procs()[FirstZombie(Procs(), pid)]
    {
      hide FirstZombie;
      p := processList;
      ghost var k := 0;
      while p != null
        invariant 0 <= k <= |chain| && p == NodeAt(k)
        invariant forall i :: 0 <= i < k ==> !ZombieChild(Procs()[i], pid)
        decreases |chain| - k
      {
        assert Procs()[k] == p.Value();
        if p.parentPid == pid && p.state == Zombie {
          return;
        }
        p, k := p.next, k + 1;
      }
    }

    // ---- scheduling ----

    /** current_process is the entry that the decoded state calls current. */
    lemma CurrentIs()
      requires Linked() && Family(Procs(), nextPid)
      ensures HasCurrent(View()) && chain[Cur(View())] == currentProcess
      ensures Procs()[Cur(View())] == currentProcess.Value()
    {
      var i :| 0 <= i < |chain| && chain[i] == currentProcess;
      FindIs(Procs(), i);
    }

    /** `p->state = state` */
    method SetStateOf(p: Process, state: State, ghost k: nat)
      requires Linked() && k < |chain| && p == chain[k]
      modifies p`state
      ensures Linked() && Procs() == SetState(old(Procs()), k, state)
      ensures View() == old(View()).(procs := Procs())
    {
      p.state := state;
      assert Procs() == SetState(old(Procs()), k, state);
    }

    /** What MSG_WAIT leaves in the message of the current process. */
    method SetWait(waiting: bool, got: WaitResult, ghost c: nat)
      requires Linked() && c < |chain| && currentProcess == chain[c]
      modifies currentProcess`waiting, currentProcess`got
      ensures Linked() && Procs() == old(Procs())[c := old(Procs())[c].(waiting := waiting, got := got)]
      ensures View() == old(View()).(procs := Procs())
    {
      currentProcess.waiting, currentProcess.got := waiting, got;
      assert Procs() == old(Procs())[c := old(Procs())[c].(waiting := waiting, got := got)];
    }

    /** Control reaches the current process, where it was suspended; behind message.c:88 the second scan
        follows. */
    method ContextSwitch()
      requires Linked() && Family(Procs(), nextPid)
      modifies currentProcess`waiting, currentProcess`got
      ensures Linked() && HasCurrent(old(View())) && View() == Resume(old(View()))
    {
      hide Find, FirstZombie, Family, Linked, Procs, Cur, HasCurrent;
      CurrentIs();
      ghost var c := Cur(View());
      if currentProcess.waiting {
        var p := FindZombie(currentProcess.pid);
        SetWait(false, if p != null then Exited(p.exitStatus) else Failed, c);
      }
    }

    method FindReady() returns (next: Process?, ghost k: nat)
      requires Linked()
      ensures k == FirstReady(Procs()) && next == NodeAt(FirstReady(Procs()))
      ensures if next == null then k == |Procs()| else k < |chain| && next == chain[k]
    {
      hide FirstReady;
      next, k := processList, 0;
      while next != null
        invariant 0 <= k <= |chain| && next == NodeAt(k)
        invariant forall i :: 0 <= i < k ==> Procs()[i].state != Ready
        decreases |chain| - k
      {
        assert Procs()[k] == next.Value();
        if next.state != Zombie && next.state == Ready {
          return;
        }
        next, k := next.next, k + 1;
      }
    }

    /** `current_process = next` */
    method SetCurrent(next: Process, ghost k: nat)
      requires Linked() && k < |chain| && next == chain[k]
      modifies this`currentProcess
      ensures Linked() && currentProcess == next && Procs() == old(Procs())
      ensures View() == old(View()).(current := Procs()[k].pid)
    {
      currentProcess := next;
    }

    /** The rest of schedule once a ready process is found. */
    method SwitchTo(next: Process, ghost k: nat)
      requires Linked() && Family(Procs(), nextPid) && !stuck
      requires k == FirstReady(Procs()) && k < |chain| && next == chain[k]
      modifies this`currentProcess, chain
      ensures Linked() && HasCurrent(old(View())) && View() == ProcSpec.Schedule(old(View()))
    {
      hide Find, FirstReady, Resume, Family, Linked, Procs, Cur, HasCurrent;
      CurrentIs();
      ghost var s, c := View(), Cur(View());
      var current := currentProcess;
      SetStateOf(next, Running, k);
      ghost var ps1 := Procs();
      SameFamilyKept(s.procs, ps1, nextPid);
      CurrentIs();
      SamePlace(s.procs, ps1, s.current);
      if current.state == Running {
        SetStateOf(current, Ready, c);
      }
      ghost var ps2 := Procs();
      SameFamilyKept(s.procs, ps2, nextPid);
      SetCurrent(next, k);
      CurrentIs();
      ContextSwitch();
    }

    method Schedule()
      requires Linked() && Family(Procs(), nextPid) && !stuck
      modifies this`currentProcess, this`stuck, chain
      ensures Linked() && HasCurrent(old(View())) && View() == ProcSpec.Schedule(old(View()))
    {
      hide Find, FirstReady, Resume, Family, Linked, Procs, Cur, HasCurrent;
      CurrentIs();
      var next, k := FindReady();
      if next == null {
        Hang();
        return;
      }
      SwitchTo(next, k);
    }

    /** `while (1);` */
    method Hang()
      requires Linked()
      modifies this`stuck
      ensures Linked() && View() == old(View()).(stuck := true)
    {
      stuck := true;
    }

    // ---- kernel calls ----

    /** A timer interrupt. */
    method Tick()
      requires Valid() && !stuck
      modifies this`currentProcess, this`stuck, chain
      ensures Valid() && View() == Step(old(View()), Call.Tick)
    {
      hide Find, FirstReady, ProcSpec.Schedule, NoLostWakeUp, WaitersServed, NoFailedWait;
      StepKeeps(View(), Call.Tick);
      Schedule();
    }

    /** A new entry at the head of process_list. */
    method Prepend(p: Process)
      requires Linked() && p !in chain && p.next == null
      modifies this`processList, this`chain, p`next
      ensures Linked() && chain == [p] + old(chain) && Procs() == [p.Value()] + old(Procs())
      ensures View() == old(View()).(procs := Procs())
    {
      p.next := processList;
      processList := p;
      chain := [p] + chain;
      assert Procs() == [p.Value()] + old(Procs());
    }

    /** create_process: the next slot of the process table, for MSG_FORK and handle_fork_message. */
    method Fork() returns (child: Process)
      requires Valid() && Enabled(View(), ForkCall)
      modifies this`processList, this`chain, this`nextPid, this`processCount
      ensures Valid() && View() == Step(old(View()), ForkCall)
      ensures fresh(child) && chain == [child] + old(chain) && child.pid == old(nextPid)
      ensures child.parentPid == currentProcess.pid && child.state == Ready && !child.waiting && child.got == NoResult
    {
      hide Find, Family, NoLostWakeUp, WaitersServed, NoFailedWait, Linked, Procs;
      StepKeeps(View(), ForkCall);
      child := new Process();
      processCount := processCount + 1;
      child.pid, child.parentPid, child.state := nextPid, currentProcess.pid, Ready;
      nextPid := nextPid + 1;
      StillLinked(child);
      Prepend(child);
    }

    /** process_create: the caller of kalloc gets an orphan. */
    method Spawn() returns (child: Process)
      requires Valid() && Enabled(View(), SpawnCall)
      modifies this`processList, this`chain, this`nextPid
      ensures Valid() && View() == Step(old(View()), SpawnCall)
      ensures fresh(child) && chain == [child] + old(chain) && child.pid == old(nextPid)
      ensures child.parentPid == 0 && child.state == Ready && !child.waiting && child.got == NoResult
    {
      hide Find, Family, NoLostWakeUp, WaitersServed, NoFailedWait, Linked, Procs;
      StepKeeps(View(), SpawnCall);
      child := new Process();
      child.pid := nextPid;
      nextPid := nextPid + 1;
      StillLinked(child);
      Prepend(child);
    }

    /** The current process's own fields, changed together. */
    method SetCurrentState(state: State, exitStatus: int, waiting: bool, ghost c: nat)
      requires Linked() && c < |chain| && currentProcess == chain[c]
      modifies currentProcess`state, currentProcess`exitStatus, currentProcess`waiting
      ensures Linked()
      ensures Procs() == old(Procs())[c := old(Procs())[c].(state := state, exitStatus := exitStatus, waiting := waiting)]
      ensures View() == old(View()).(procs := Procs())
    {
      currentProcess.state, currentProcess.exitStatus, currentProcess.waiting := state, exitStatus, waiting;
      assert Procs() == old(Procs())[c := old(Procs())[c].(state := state, exitStatus := exitStatus, waiting := waiting)];
    }

    /** `current->state = PROC_BLOCKED; schedule();` */
    method Block(waiting: bool)
      requires Linked() && Family(Procs(), nextPid) && !stuck
      modifies this`currentProcess, this`stuck, chain
      ensures Linked() && HasCurrent(old(View())) && View() == BlockCurrent(old(View()), waiting)
    {
      hide Find, Family, Linked, Procs, Cur, HasCurrent, ProcSpec.Schedule;
      CurrentIs();
      ghost var ps := Procs();
      SetCurrentState(Blocked, currentProcess.exitStatus, waiting, Cur(View()));
      SameFamilyKept(ps, Procs(), nextPid);
      Schedule();
    }

    /** MSG_WAIT. What it returns, now or after resumption, ends up in `got`. */
    method Wait()
      requires Valid() && !stuck
      modifies this`currentProcess, this`stuck, chain
      ensures Valid() && View() == Step(old(View()), WaitCall)
    {
      hide Find, FirstZombie, Family, Linked, Procs, Cur, HasCurrent, BlockCurrent, NoLostWakeUp, WaitersServed, NoFailedWait;
      StepKeeps(View(), WaitCall);
      CurrentIs();
      var p := FindZombie(currentProcess.pid);
      if p != null {
        SetWait(currentProcess.waiting, Exited(p.exitStatus), Cur(View()));
      } else {
        Block(true);
      }
    }

    /** handle_wait_message: the pid and exit status of the child reaped, None when it had to block. */
    method Reap() returns (child: Option<(int, int)>)
      requires Valid() && !stuck
      modifies this`currentProcess, this`stuck, chain
      ensures Valid() && View() == Step(old(View()), ReapCall)
      ensures var ps := old(View()).procs;
              var z := FirstZombie(ps, old(View()).current);
              child == if z < |ps| then Some((ps[z].pid, ps[z].exitStatus)) else None
    {
      hide Find, FirstZombie, Family, Linked, Procs, Cur, HasCurrent, BlockCurrent, NoLostWakeUp, WaitersServed, NoFailedWait;
      StepKeeps(View(), ReapCall);
      CurrentIs();
      var p := FindZombie(currentProcess.pid);
      if p != null {
        child := Some((p.pid, p.exitStatus));
        SetStateOf(p, Dead, FirstZombie(Procs(), currentProcess.pid));
      } else {
        Block(false);
        child := None;
      }
    }

    /** exit_process */
    method Exit(status: int)
      requires Valid() && !stuck
      modifies this`currentProcess, this`stuck, chain
      ensures Valid() && View() == Step(old(View()), ExitCall(status))
    {
      hide Find, Family, Linked, Procs, Cur, HasCurrent, ProcSpec.Schedule, NoLostWakeUp, WaitersServed, NoFailedWait;
      StepKeeps(View(), ExitCall(status));
      CurrentIs();
      ghost var ps := Procs();
      SetCurrentState(Zombie, status, currentProcess.waiting, Cur(View()));
      var parent := FindProcess(currentProcess.parentPid);
      if parent != null && parent.state == Blocked {
        SetStateOf(parent, Ready, Find(Procs(), currentProcess.parentPid));
      }
      SameFamilyKept(ps, Procs(), nextPid);
      Schedule();
    }

    twostate lemma StillLinked(new p: Process)
      requires old(Linked()) && unchanged(this`chain, this`processList, this`currentProcess) && unchanged(chain)
      requires p !in chain
      ensures Linked() && Procs() == old(Procs()) && p !in chain
    {
    }
  }

  lemma {:induction false} SameFamilyKept(ps: seq<Proc>, ps': seq<Proc>, nextPid: int)
    requires Family(ps, nextPid) && SameFamily(ps, ps')
    ensures Family(ps', nextPid)
  {
  }
}
