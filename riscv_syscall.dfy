/** The return path of a supervisor-mode system call on RISC-V
    (riscv_perform_syscall in arch/risc-v/src/common/supervisor/riscv_perform_syscall.c):
    publish the saved registers in CURRENT_REGS, run the handler, and when the
    handler switched context, record the newly running task and hand back the
    new register set. */
module RiscvSyscall {

  /** A pointer to a saved register set; Null is NULL. */
  datatype Regs = Null | Frame(id: nat)

  /** A task control block, by identity. */
  type Tcb = nat

  /** What the glue and its collaborators do, in order, and the value of
      CURRENT_REGS each collaborator saw. */
  datatype Event =
    | Swint(regs: Regs, entry: Regs, exit: Regs)   // riscv_swint(0, regs, NULL)
    | AddrenvSwitch(exit: Regs)                    // addrenv_switch(NULL)
    | ThisCpu(cpu: nat)                            // this_cpu()
    | CurrentTask(cpu: nat, tcb: Tcb)              // current_task(cpu)
    | RecordRunning(cpu: nat, tcb: Tcb)            // g_running_tasks[cpu] = tcb
    | RestoreCriticalSection(tcb: Tcb, cpu: nat, exit: Regs)

  /** The per-CPU state the glue works on. The helpers it calls are not
      shown, so each is a method that may leave any value in CURRENT_REGS
      and records what it was given and left. The only constraint on their
      results is that this_cpu returns a valid CPU index. */
  class Supervisor {
    var currentRegs: Regs              // CURRENT_REGS
    const runningTasks: array<Tcb>     // g_running_tasks[], one entry per CPU
    const addrenv: bool                // CONFIG_ARCH_ADDRENV
    ghost var trace: seq<Event>

    constructor (runningTasks: array<Tcb>, addrenv: bool)
      requires runningTasks.Length > 0
      ensures this.runningTasks == runningTasks && this.addrenv == addrenv
      ensures currentRegs == Null && trace == []
    {
      this.runningTasks := runningTasks;
      this.addrenv := addrenv;
      currentRegs := Null;
      trace := [];
    }

    /** The system call handler; it may switch context by changing CURRENT_REGS. */
    method RiscvSwint(regs: Regs)
      modifies this
      ensures trace == old(trace) + [Swint(regs, old(currentRegs), currentRegs)]
    {
      var r: Regs :| true;
      trace := trace + [Swint(regs, currentRegs, r)];
      currentRegs := r;
    }

    method AddrenvSwitchCall()
      modifies this
      ensures trace == old(trace) + [AddrenvSwitch(currentRegs)]
    {
      var r: Regs :| true;
      currentRegs := r;
      trace := trace + [AddrenvSwitch(r)];
    }

    method ThisCpuCall() returns (cpu: nat)
      requires runningTasks.Length > 0
      modifies this
      ensures cpu < runningTasks.Length
      ensures trace == old(trace) + [ThisCpu(cpu)]
    {
      cpu :| cpu < runningTasks.Length;
      var r: Regs :| true;
      currentRegs := r;
      trace := trace + [ThisCpu(cpu)];
    }

    method CurrentTaskCall(cpu: nat) returns (tcb: Tcb)
      modifies this
      ensures trace == old(trace) + [CurrentTask(cpu, tcb)]
    {
      tcb :| true;
      var r: Regs :| true;
      currentRegs := r;
      trace := trace + [CurrentTask(cpu, tcb)];
    }

    method RestoreCriticalSectionCall(tcb: Tcb, cpu: nat)
      modifies this
      ensures trace == old(trace) + [RestoreCriticalSection(tcb, cpu, currentRegs)]
    {
      var r: Regs :| true;
      currentRegs := r;
      trace := trace + [RestoreCriticalSection(tcb, cpu, r)];
    }

    /** The context-switch branch of riscv_perform_syscall: this CPU's
        running task is recorded, restore_critical_section is called with
        that task and CPU, and the result is CURRENT_REGS read after it. */
    method RecordSwitch() returns (result: Regs)
      requires runningTasks.Length > 0
      modifies this, runningTasks
      ensures |trace| == |old(trace)| + 4 && trace[..|old(trace)|] == old(trace)
      ensures Switched(trace[|old(trace)|..], old(runningTasks[..]), runningTasks[..], result)
    {
      var cpu := ThisCpuCall();
      var tcb := CurrentTaskCall(cpu);
      runningTasks[cpu] := tcb;
      trace := trace + [RecordRunning(cpu, tcb)];
      RestoreCriticalSectionCall(tcb, cpu);
      result := currentRegs;
    }

    /** riscv_perform_syscall. The handler runs with CURRENT_REGS == regs;
        what follows it is as AfterHandler says, and CURRENT_REGS is NULL on
        return. */
    method PerformSyscall(regs: Regs) returns (result: Regs)
      requires runningTasks.Length > 0
      modifies this, runningTasks
      ensures currentRegs == Null
      ensures |trace| > |old(trace)| && trace[..|old(trace)|] == old(trace)
      ensures var s := trace[|old(trace)|];
        s.Swint? && s.regs == regs && s.entry == regs &&
        AfterHandler(s.exit, trace[|old(trace)| + 1..], regs, addrenv,
                     old(runningTasks[..]), runningTasks[..], result)
    {
      currentRegs := regs;
      RiscvSwint(regs);
      if addrenv && regs != currentRegs {
        AddrenvSwitchCall();
      }
      result := regs;
      if result != currentRegs {
        result := RecordSwitch();
      }
      currentRegs := Null;
    }
  }

  /** The events after the handler returned leaving `exit` in CURRENT_REGS.
      When exit is regs: nothing else runs, regs is returned and
      g_running_tasks is unchanged. Otherwise, with CONFIG_ARCH_ADDRENV,
      addrenv_switch runs first, once. Then the slot it left (or exit,
      without CONFIG_ARCH_ADDRENV) is compared with regs again: when equal,
      nothing else runs and regs is returned; when different, the switch is
      recorded as Switched says. */
  ghost predicate AfterHandler(exit: Regs, es: seq<Event>, regs: Regs, addrenv: bool,
                               before: seq<Tcb>, after: seq<Tcb>, result: Regs) {
    if exit == regs then
      es == [] && result == regs && after == before
    else if addrenv then
      |es| > 0 && es[0].AddrenvSwitch? &&
      Compared(es[0].exit, es[1..], regs, before, after, result)
    else
      Compared(exit, es, regs, before, after, result)
  }

  /** The second comparison of the slot with regs, and what follows it. */
  ghost predicate Compared(slot: Regs, es: seq<Event>, regs: Regs,
                           before: seq<Tcb>, after: seq<Tcb>, result: Regs) {
    if slot == regs then es == [] && result == regs && after == before
    else Switched(es, before, after, result)
  }

  /** The four events of a recorded context switch, and their effect on
      g_running_tasks: this_cpu() gives cpu, current_task(cpu) gives tcb,
      g_running_tasks[cpu] becomes tcb and nothing else in it changes,
      restore_critical_section(tcb, cpu) runs, and the result is the
      CURRENT_REGS it left. */
  ghost predicate Switched(es: seq<Event>, before: seq<Tcb>, after: seq<Tcb>, result: Regs) {
    |es| == 4 && es[0].ThisCpu? && es[0].cpu < |before| &&
    es[1].CurrentTask? && es[1].cpu == es[0].cpu &&
    es[2] == RecordRunning(es[0].cpu, es[1].tcb) &&
    es[3].RestoreCriticalSection? && es[3].tcb == es[1].tcb && es[3].cpu == es[0].cpu &&
    result == es[3].exit &&
    after == before[es[0].cpu := es[1].tcb]
  }
}
