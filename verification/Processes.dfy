// The kernel's process bookkeeping: control blocks, the bitmap of ids, the current pointer, one
// page directory entry and the kernel stack pointer. `stacks` and `saved` are the three stacks
// of processes that they stand for.
module Processes {
  import opened Bytes
  import opened Commands
  import opened ProcessModel

  const KERNEL_BOTTOM := 0x800000
  const PROCESS_SIZE := 0x2000
  const AVOID_PAGE_FAULT := 4
  const FOUR_MB := 0x400000
  const KERNEL_FRAME := 1
  const EXCEPTION_STATUS := 256

  // Memory

  /** The 4 MB frame that holds the program image of a process. */
  function ImageFrame(pid: nat): nat {
    KERNEL_FRAME + pid
  }

  /** The kernel block of a process, 8 KB from here up, has its control block at the low end. */
  function BlockStart(pid: int): int {
    KERNEL_BOTTOM - PROCESS_SIZE * pid
  }

  /** The frames of the processes lie directly behind the kernel's, in the order of their ids. */
  lemma FramesInOrder(p: nat)
    ensures ImageFrame(1) == KERNEL_FRAME + 1 && ImageFrame(p + 1) == ImageFrame(p) + 1
    ensures FOUR_MB * ImageFrame(p) == 0x400000 + p * 0x400000
  {
  }

  /** Where the kernel stack of a process starts: at the top of its block. */
  function StackTop(pid: int): int {
    KERNEL_BOTTOM - PROCESS_SIZE * (pid - 1) - AVOID_PAGE_FAULT
  }

  /** Distinct processes have distinct frames and disjoint kernel blocks; no frame is the
      kernel's, and every block lies inside the kernel's frame with its stack at the top. */
  lemma MemoryIsDisjoint(p: nat, q: nat)
    requires 1 <= p <= MAX_PROCESSES && 1 <= q <= MAX_PROCESSES && p != q
    ensures ImageFrame(p) != ImageFrame(q) && ImageFrame(p) != KERNEL_FRAME
    ensures BlockStart(p) + PROCESS_SIZE <= BlockStart(q) || BlockStart(q) + PROCESS_SIZE <= BlockStart(p)
    ensures FOUR_MB * KERNEL_FRAME <= BlockStart(p) && BlockStart(p) + PROCESS_SIZE <= FOUR_MB * (KERNEL_FRAME + 1)
    ensures StackTop(p) + AVOID_PAGE_FAULT == BlockStart(p) + PROCESS_SIZE
  {
  }

  // Control blocks

  /** `parentPcb` points to a control block by the id that the block belongs to; `entry` and `at`
      are the two pairs of saved stack and base pointers; `inUse` is the part of the descriptor table
      that matters here, its flags. */
  datatype Pcb = Pcb(pid: nat, parentId: nat, parentPcb: nat, active: bool, cmd: seq<byte>,
                     entry: Context, at: Context, inUse: seq<bool>)

  /** The block that the parent pointer of a new process names: that of its parent, or for the base
      shell of terminal `pid` the block of the base shell before it, the first one's being its own. */
  function ParentBlock(pid: nat, parent: nat): nat {
    if parent != 0 then parent else Max(1, pid - 1)
  }

  /** `b` is the control block of `process`, which `parent` started, or nobody if that is 0. */
  ghost predicate BlockFor(b: Pcb, process: Proc, parent: nat) {
    && b.pid == process.pid && b.parentId == parent && b.entry == process.entry
    && 1 <= b.parentPcb <= MAX_PROCESSES && b.parentPcb == ParentBlock(process.pid, parent)
    && |process.command| < CMD_SIZE && NUL !in process.command && b.cmd == Padded(process.command)
    && |b.inUse| == FD_MAX + 1 && b.inUse[0] && b.inUse[1]
  }

  ghost function ParentOf(s: seq<Proc>, i: nat): nat
    requires i <= |s|
  {
    if i == 0 then 0 else s[i - 1].pid
  }

  /** The control blocks of a stack of processes: each points to the one below. */
  ghost predicate Describes(blocks: seq<Pcb>, s: seq<Proc>) {
    forall i | 0 <= i < |s| :: s[i].pid < |blocks| && BlockFor(blocks[s[i].pid], s[i], ParentOf(s, i))
  }

  /** `b` has only been switched out or had descriptors closed since it was `a`. */
  ghost predicate SameProcess(a: Pcb, b: Pcb) {
    && b == a.(at := b.at, inUse := b.inUse) && |b.inUse| == |a.inUse|
    && forall i | 0 <= i < FD_MIN && i < |a.inUse| :: a.inUse[i] == b.inUse[i]
  }

  lemma DescribesElsewhere(blocks: seq<Pcb>, n: nat, b: Pcb, s: seq<Proc>)
    requires n < |blocks| && Describes(blocks, s) && !OnStack(s, n)
    ensures Describes(blocks[n := b], s)
  {
    hide BlockFor;
  }

  lemma DescribesPush(blocks: seq<Pcb>, n: nat, b: Pcb, s: seq<Proc>, process: Proc)
    requires n < |blocks| && Describes(blocks, s) && !OnStack(s, n)
    requires process.pid == n && BlockFor(b, process, ParentOf(s, |s|))
    ensures Describes(blocks[n := b], s + [process])
  {
    hide BlockFor;
    var t := s + [process];
    forall i | 0 <= i < |t| ensures t[i].pid < |blocks| && BlockFor(blocks[n := b][t[i].pid], t[i], ParentOf(t, i)) {
      assert ParentOf(t, i) == ParentOf(s, i);
      assert i < |s| ==> t[i] == s[i];
    }
  }

  lemma DescribesPop(blocks: seq<Pcb>, s: seq<Proc>)
    requires s != [] && Describes(blocks, s)
    ensures Describes(blocks, s[..|s| - 1])
  {
    hide BlockFor;
    var t := s[..|s| - 1];
    forall i | 0 <= i < |t| ensures t[i].pid < |blocks| && BlockFor(blocks[t[i].pid], t[i], ParentOf(t, i)) {
      assert ParentOf(t, i) == ParentOf(s, i) && t[i] == s[i];
    }
  }

  lemma DescribesSame(blocks: seq<Pcb>, n: nat, b: Pcb, s: seq<Proc>)
    requires n < |blocks| && Describes(blocks, s) && SameProcess(blocks[n], b)
    ensures Describes(blocks[n := b], s)
  {
  }

  /** The block that following parent pointers `k` times leads to. */
  ghost function Ancestor(blocks: seq<Pcb>, p: nat, k: nat): nat {
    if k == 0 then p else
      var q := Ancestor(blocks, p, k - 1);
      if q < |blocks| then blocks[q].parentPcb else q
  }

  /** Following parents from the top of a stack goes down the stack, process by process, and so
      without a cycle, to the base shell, which has no parent. */
  lemma {:induction false} ParentsLeadToBase(blocks: seq<Pcb>, s: seq<Proc>, k: nat)
    requires Describes(blocks, s) && NoDuplicates(s) && k < |s|
    ensures Ancestor(blocks, s[|s| - 1].pid, k) == s[|s| - 1 - k].pid < |blocks|
    ensures blocks[s[|s| - 1 - k].pid].parentId == 0 <==> k == |s| - 1
  {
    hide Describes, NoDuplicates;
    BlockAt(blocks, s, |s| - 1 - k);
    if k > 0 {
      ParentsLeadToBase(blocks, s, k - 1);
      BlockAt(blocks, s, |s| - k);
    }
  }

  lemma BlockAt(blocks: seq<Pcb>, s: seq<Proc>, i: nat)
    requires Describes(blocks, s) && NoDuplicates(s) && i < |s|
    ensures 1 <= s[i].pid < |blocks|
    ensures
      var b := blocks[s[i].pid];
      if i == 0 then b.parentId == 0 else b.parentId == b.parentPcb == s[i - 1].pid != 0
  {
    assert BlockFor(blocks[s[i].pid], s[i], ParentOf(s, i));
  }

  lemma LiveAfterPush(m: Model, t: int, process: Proc, p: nat)
    requires |m.stacks| == TERMINALS + 1 && 1 <= t <= TERMINALS
    ensures m.Push(t, process).Live(p) <==> m.Live(p) || p == process.pid
  {
    hide OnStack;
    OnPushed(m.stacks[t], process, p);
  }

  lemma OnPushed(s: seq<Proc>, process: Proc, p: nat)
    ensures OnStack(s + [process], p) <==> OnStack(s, p) || p == process.pid
  {
    var u := s + [process];
    assert u[|s|] == process;
    if OnStack(s, p) {
      var i :| 0 <= i < |s| && s[i].pid == p;
      assert u[i].pid == p;
    }
  }

  lemma OnPopped(s: seq<Proc>, p: nat)
    requires s != [] && NoDuplicates(s)
    ensures OnStack(s[..|s| - 1], p) <==> OnStack(s, p) && p != s[|s| - 1].pid
  {
    assert s == s[..|s| - 1] + [s[|s| - 1]];
    OnPushed(s[..|s| - 1], s[|s| - 1], p);
  }

  lemma LiveAfterPop(m: Model, t: int, p: nat)
    requires |m.stacks| == TERMINALS + 1 && 1 <= t <= TERMINALS && m.stacks[t] != [] && m.Disjoint()
    ensures m.Pop(t).Live(p) <==> m.Live(p) && p != m.Top(t).pid
  {
    hide OnStack, Apart, NoDuplicates;
    OnPopped(m.stacks[t], p);
    forall u | 1 <= u <= TERMINALS && u != t ensures !OnStack(m.stacks[u], m.Top(t).pid) {
      TopElsewhere(m.stacks[t], m.stacks[u]);
    }
  }

  lemma TopElsewhere(s: seq<Proc>, u: seq<Proc>)
    requires s != [] && Apart(s, u)
    ensures !OnStack(u, s[|s| - 1].pid)
  {
  }

  /** A control block that no process uses. */
  ghost predicate FreeBlock(b: Pcb) {
    b.cmd == Fill(CMD_SIZE, NUL) && |b.inUse| == FD_MAX + 1
  }

  /** The bitmap marks exactly the ids on the stacks; the control blocks of live processes describe
      the stacks, and all others are cleared. */
  ghost predicate Books(m: Model, blocks: seq<Pcb>, bitmap: seq<int>)
    ensures Books(m, blocks, bitmap) ==> |m.stacks| == TERMINALS + 1 && |m.saved| == TERMINALS + 1
    ensures Books(m, blocks, bitmap) ==> |blocks| == MAX_PROCESSES + 1 && |bitmap| == MAX_PROCESSES
  {
    && |m.stacks| == TERMINALS + 1 && |m.saved| == TERMINALS + 1
    && |blocks| == MAX_PROCESSES + 1 && |bitmap| == MAX_PROCESSES
    && m.Disjoint()
    && (forall p | 1 <= p <= MAX_PROCESSES :: bitmap[p - 1] != 0 <==> m.Live(p))
    && (forall t | 1 <= t <= TERMINALS :: Describes(blocks, m.stacks[t]))
    && (forall p | 1 <= p <= MAX_PROCESSES && !m.Live(p) :: FreeBlock(blocks[p]))
  }

  /** Where each terminal that does not run was switched out is recorded in its top process. */
  ghost predicate Switched(m: Model, blocks: seq<Pcb>)
    requires |m.stacks| == TERMINALS + 1 && |m.saved| == TERMINALS + 1
  {
    forall t | 1 <= t <= TERMINALS && t != m.running && m.stacks[t] != [] ::
      m.Top(t).pid < |blocks| && blocks[m.Top(t).pid].at == m.saved[t]
  }

  lemma BooksPush(m: Model, t: int, process: Proc, blocks: seq<Pcb>, bitmap: seq<int>, b: Pcb)
    requires Books(m, blocks, bitmap) && 1 <= t <= TERMINALS
    requires 1 <= process.pid <= MAX_PROCESSES && !m.Live(process.pid) && (m.stacks[t] == [] ==> process.pid == t)
    requires BlockFor(b, process, ParentOf(m.stacks[t], |m.stacks[t]|))
    ensures Books(m.Push(t, process), blocks[process.pid := b], bitmap[process.pid - 1 := 1])
    ensures t == m.running && Switched(m, blocks) ==> Switched(m.Push(t, process), blocks[process.pid := b])
  {
    hide BlockFor, Describes, FreeBlock, OnStack, Apart, NoDuplicates, Model.Disjoint;
    PushDisjoint(m, t, process);
    forall p ensures m.Push(t, process).Live(p) <==> m.Live(p) || p == process.pid {
      LiveAfterPush(m, t, process, p);
    }
    DescribesPush(blocks, process.pid, b, m.stacks[t], process);
    forall u | 1 <= u <= TERMINALS && u != t ensures Describes(blocks[process.pid := b], m.stacks[u]) {
      DescribesElsewhere(blocks, process.pid, b, m.stacks[u]);
    }
    forall u | 1 <= u <= TERMINALS && m.stacks[u] != [] ensures m.Top(u).pid != process.pid {
      TopIsLive(m, u);
    }
  }

  lemma TopIsLive(m: Model, u: int)
    requires |m.stacks| == TERMINALS + 1 && 1 <= u <= TERMINALS && m.stacks[u] != []
    ensures m.Live(m.Top(u).pid)
  {
  }

  lemma BooksPop(m: Model, t: int, blocks: seq<Pcb>, bitmap: seq<int>, b: Pcb)
    requires Books(m, blocks, bitmap) && 1 <= t <= TERMINALS && m.stacks[t] != [] && FreeBlock(b)
    ensures 1 <= m.Top(t).pid <= MAX_PROCESSES
    ensures Books(m.Pop(t), blocks[m.Top(t).pid := b], bitmap[m.Top(t).pid - 1 := 0])
    ensures t == m.running && Switched(m, blocks) ==> Switched(m.Pop(t), blocks[m.Top(t).pid := b])
  {
    hide BlockFor, Describes, FreeBlock, OnStack, Apart;
    var n := m.Top(t).pid;
    PopDisjoint(m, t);
    forall p ensures m.Pop(t).Live(p) <==> m.Live(p) && p != n {
      LiveAfterPop(m, t, p);
    }
    forall u | 1 <= u <= TERMINALS ensures Describes(blocks[n := b], m.Pop(t).stacks[u]) {
      if u == t {
        DescribesPop(blocks, m.stacks[t]);
        OnPopped(m.stacks[t], n);
        DescribesElsewhere(blocks, n, b, m.stacks[t][..|m.stacks[t]| - 1]);
      } else {
        TopElsewhere(m.stacks[t], m.stacks[u]);
        DescribesElsewhere(blocks, n, b, m.stacks[u]);
      }
    }
    forall u | 1 <= u <= TERMINALS && u != t && m.stacks[u] != [] ensures m.Top(u).pid != n {
      TopsDiffer(m.stacks[t], m.stacks[u]);
    }
  }

  lemma TopsDiffer(s: seq<Proc>, u: seq<Proc>)
    requires s != [] && u != [] && Apart(s, u)
    ensures s[|s| - 1].pid != u[|u| - 1].pid
  {
  }

  lemma BooksSame(m: Model, blocks: seq<Pcb>, bitmap: seq<int>, n: nat, b: Pcb)
    requires Books(m, blocks, bitmap) && 1 <= n <= MAX_PROCESSES && SameProcess(blocks[n], b)
    ensures Books(m, blocks[n := b], bitmap)
    ensures b.at == blocks[n].at && Switched(m, blocks) ==> Switched(m, blocks[n := b])
  {
    hide BlockFor, Describes, OnStack, Apart, NoDuplicates, Model.Disjoint, Model.Live;
    forall t | 1 <= t <= TERMINALS ensures Describes(blocks[n := b], m.stacks[t]) {
      DescribesSame(blocks, n, b, m.stacks[t]);
    }
  }

  /** `strcpy` of a string into a command field. */
  function CopyCommand(cmd: seq<byte>, command: seq<byte>): seq<byte>
    requires |command| < |cmd|
  {
    command + [NUL] + cmd[|command| + 1..]
  }

  lemma CopyIntoCleared(command: seq<byte>)
    requires |command| < CMD_SIZE
    ensures CopyCommand(Fill(CMD_SIZE, NUL), command) == Padded(command)
  {
  }

  /** The task counters are the heights of the stacks, and each terminal that does not run points
      to its top process. */
  ghost predicate Counts(stacks: seq<seq<Proc>>, running: int, runningPcb: PerTerminal, taskCounter: PerTerminal) {
    && |stacks| == TERMINALS + 1
    && forall t | 1 <= t <= TERMINALS ::
         && taskCounter[t] == |stacks[t]|
         && (t != running && stacks[t] != [] ==> runningPcb[t] == stacks[t][|stacks[t]| - 1].pid)
  }

  /** `a[t] = x` on one of the arrays with an element for each terminal. */
  function UpdateAt(a: PerTerminal, t: nat, x: int): (r: PerTerminal)
    requires t <= TERMINALS
    ensures r[t] == x
  {
    var r: seq<int> := a[t := x];
    r
  }

  ghost predicate InOrder(m: Model, blocks: seq<Pcb>, bitmap: seq<int>, runningPcb: PerTerminal,
      taskCounter: PerTerminal, current: int) {
    && Books(m, blocks, bitmap) && Switched(m, blocks)
    && Counts(m.stacks, m.running, runningPcb, taskCounter)
    && 0 <= m.running <= TERMINALS && 1 <= current <= MAX_PROCESSES
  }

  /** A step that changes the books and the running terminal's stack keeps everything in order. */
  lemma InOrderAfter(m: Model, n: Model, blocks: seq<Pcb>, bitmap: seq<int>, runningPcb: PerTerminal,
      taskCounter: PerTerminal, p: nat)
    requires Counts(m.stacks, m.running, runningPcb, taskCounter) && 1 <= m.running <= TERMINALS
        && 1 <= p <= MAX_PROCESSES
    requires |n.stacks| == TERMINALS + 1 && |n.saved| == TERMINALS + 1
    requires Books(n, blocks, bitmap) && Switched(n, blocks)
    requires n.running == m.running && n.stacks == m.stacks[m.running := n.stacks[m.running]]
    ensures
      var t, height := m.running, |n.stacks[m.running]|;
      InOrder(n, blocks, bitmap, UpdateAt(runningPcb, t, p), UpdateAt(taskCounter, t, height), p)
  {
    hide Books, Switched;
  }

  /** Before the first tick block 1 is current; later the block of the process that runs is. */
  ghost predicate OneIsCurrent(m: Model, runningPcb: PerTerminal, current: int)
    requires 0 <= m.running <= TERMINALS && |m.stacks| == TERMINALS + 1
  {
    if m.running == 0 then current == 1
    else m.stacks[m.running] != [] && current == m.Top(m.running).pid == runningPcb[m.running]
  }

  /** The running terminal points to its top process, whose block says where it was switched out. */
  ghost predicate TopIsSwitchedOut(m: Model, blocks: seq<Pcb>, runningPcb: PerTerminal) {
    && |m.stacks| == TERMINALS + 1 && |m.saved| == TERMINALS + 1 && 1 <= m.running <= TERMINALS
        && m.stacks[m.running] != []
    && var p := m.Top(m.running).pid;
    1 <= p < |blocks| && runningPcb[m.running] == p == blocks[p].pid && blocks[p].at == m.saved[m.running]
  }

  /** While booting, the next terminal has nothing yet and its number is the next id. */
  ghost predicate NextIsNew(m: Model) {
    && |m.stacks| == TERMINALS + 1 && 0 <= m.running < TERMINALS
    && m.stacks[m.running + 1] == [] && m.FreeFrom(1) == m.running + 1
  }

  /** A new process of the running terminal gets a fitting id and parent pointer. */
  ghost predicate StartsFrom(m: Model, current: int)
    requires |m.stacks| == TERMINALS + 1 && 1 <= m.running <= TERMINALS
  {
    if m.stacks[m.running] == [] then m.FreeFrom(1) == m.running && current == ParentBlock(m.running, 0)
    else current == m.Top(m.running).pid
  }

  lemma NewAfterSwitch(m: Model, n: Model, current: int)
    requires NextIsNew(m) && n.stacks == m.stacks && m.Sound() && !m.Booted() && n.running == NextTerminal(m.running)
    requires current == Max(1, m.running)
    ensures n.FreeFrom(1) == NextTerminal(m.running) == m.running + 1 && StartsFrom(n, current)
  {
    hide Model.Sound, Model.FreeFrom;
    BootIds(m, n);
  }

  /** The base shells have been started exactly when the first three bits are set. */
  lemma BootBits(m: Model, blocks: seq<Pcb>, bitmap: seq<int>)
    requires Books(m, blocks, bitmap) && m.Sound()
    ensures m.Booted() <==> bitmap[0] != 0 && bitmap[1] != 0 && bitmap[2] != 0
    ensures !m.Booted() ==> NextIsNew(m)
  {
    hide OnStack, Describes, FreeBlock, Switched, Counts, Model.Disjoint, Model.Live, Model.FreeFrom;
    assert forall p: nat | 1 <= p <= TERMINALS :: bitmap[p - 1] != 0 <==> m.Live(p);
    if m.Booted() {
      BaseIsLive(m, 1);
      BaseIsLive(m, 2);
      BaseIsLive(m, 3);
    } else {
      BootIds(m, m);
    }
  }

  /** The process whose descriptors a halting base shell closes is the base shell of the terminal
      before its own; the first terminal's closes only its own. */
  lemma BaseShellReaches(m: Model)
    requires m.Sound() && m.Booted() && |m.stacks[m.running]| == 1
    ensures ParentBlockOf(m) == m.stacks[Max(1, m.running - 1)][0].pid == Max(1, m.running - 1)
    ensures ParentBlockOf(m) == m.Top(m.running).pid <==> m.running == 1
  {
    BaseBlocks(m);
  }

  lemma PoppedTop(m: Model)
    requires |m.stacks| == TERMINALS + 1 && 1 <= m.running <= TERMINALS && m.stacks[m.running] != []
    ensures m.Pop(m.running).stacks[m.running] != [] <==> |m.stacks[m.running]| > 1
    ensures |m.stacks[m.running]| > 1 ==> m.Pop(m.running).Top(m.running).pid == ParentBlockOf(m)
    ensures |m.Pop(m.running).stacks[m.running]| == |m.stacks[m.running]| - 1
  {
  }

  /** A base shell's block has the number of its terminal. */
  lemma BaseBlocks(m: Model)
    requires m.Sound() && m.Booted()
    ensures |m.stacks[m.running]| == 1 ==>
              m.Top(m.running).pid == m.running && ParentBlockOf(m) == ParentBlock(m.running, 0)
  {
  }

  lemma OneLeft(m: Model, t: int)
    requires |m.stacks| == TERMINALS + 1 && 1 <= t <= TERMINALS && m.stacks[t] != []
    ensures |m.stacks[t]| == 1 <==> m.Pop(t).stacks[t] == []
  {
  }

  lemma HaltCases(m: Model, entry: Context)
    requires m.Sound() && m.Booted()
    ensures ProcessModel.Halt(m, entry).Sound() && ProcessModel.Halt(m, entry).Booted()
    ensures
      var popped := m.Pop(m.running);
      ProcessModel.Halt(m, entry) ==
        if |m.stacks[m.running]| > 1 then popped else popped.Push(m.running, Proc(popped.FreeFrom(1), entry, SHELL))
    ensures |m.stacks[m.running]| == 1 <==> m.Pop(m.running).stacks[m.running] == []
  {
    hide Model.FreeFrom;
    HaltSound(m, entry);
  }

  lemma TickCases(m: Model, at: Context, entry: Context)
    requires m.Sound()
    ensures ProcessModel.Tick(m, at, entry).Sound()
    ensures
      var n := m.(saved := m.saved[m.running := at], running := NextTerminal(m.running));
      ProcessModel.Tick(m, at, entry) ==
        if m.Booted() then n else n.Push(NextTerminal(m.running), Proc(n.FreeFrom(1), entry, SHELL))
  {
    hide Model.FreeFrom;
    TickSound(m, at, entry);
  }

  lemma BooksSameStacks(m: Model, n: Model, blocks: seq<Pcb>, bitmap: seq<int>)
    requires Books(m, blocks, bitmap) && n.stacks == m.stacks && |n.saved| == TERMINALS + 1
    ensures Books(n, blocks, bitmap)
  {
    hide Describes, FreeBlock, OnStack, NoDuplicates, Apart;
    SameStacksDisjoint(m, n);
    assert forall p :: n.Live(p) <==> m.Live(p);
  }

  lemma TopsApart(m: Model, t: int, u: int)
    requires |m.stacks| == TERMINALS + 1 && m.Disjoint() && 1 <= t <= TERMINALS && 1 <= u <= TERMINALS && t != u
    requires m.stacks[t] != [] && m.stacks[u] != []
    ensures m.Top(t).pid != m.Top(u).pid
  {
    hide Apart, NoDuplicates;
    TopsDiffer(m.stacks[t], m.stacks[u]);
  }

  /** The running process is switched out: its block and the model's record say where. */
  lemma SwitchedOut(m: Model, n: Model, blocks: seq<Pcb>, bitmap: seq<int>, runningPcb: PerTerminal,
      taskCounter: PerTerminal, current: nat, at: Context)
    requires InOrder(m, blocks, bitmap, runningPcb, taskCounter, current) && m.Sound()
    requires OneIsCurrent(m, runningPcb, current)
    requires n == m.(saved := m.saved[m.running := at], running := NextTerminal(m.running))
    ensures InOrder(n, blocks[current := blocks[current].(at := at)], bitmap, runningPcb, taskCounter, current)
    ensures m.Booted() ==> TopIsSwitchedOut(n, blocks[current := blocks[current].(at := at)], runningPcb)
  {
    hide Books, Model.Disjoint;
    var after := blocks[current := blocks[current].(at := at)];
    BooksSame(m, blocks, bitmap, current, after[current]);
    BooksSameStacks(m, n, after, bitmap);
    AllRecorded(m, after, current, at, blocks);
    if m.Booted() {
      TopBlock(n, after, bitmap);
    }
  }

  lemma AllRecorded(m: Model, after: seq<Pcb>, current: nat, at: Context, blocks: seq<Pcb>)
    requires |m.stacks| == TERMINALS + 1 && |m.saved| == TERMINALS + 1 && m.Sound() && Switched(m, blocks)
    requires 0 <= m.running <= TERMINALS && current < |blocks|
    requires m.running != 0 ==> m.stacks[m.running] != [] && current == m.Top(m.running).pid
    requires after == blocks[current := blocks[current].(at := at)]
    ensures forall t | 1 <= t <= TERMINALS && m.stacks[t] != [] ::
              m.Top(t).pid < |after| && after[m.Top(t).pid].at == m.saved[m.running := at][t]
  {
    hide Model.Disjoint;
    forall t | 1 <= t <= TERMINALS && m.stacks[t] != []
      ensures m.Top(t).pid < |after| && after[m.Top(t).pid].at == m.saved[m.running := at][t]
    {
      if m.running != 0 && t != m.running {
        TopsApart(m, m.running, t);
      }
    }
  }

  /** Before the first tick nothing runs, and the books are empty. */
  lemma NothingRuns(m: Model, blocks: seq<Pcb>, bitmap: seq<int>)
    requires m.stacks == [[], [], [], []] && |m.saved| == TERMINALS + 1 && m.running == 0
    requires |blocks| == MAX_PROCESSES + 1 && forall p | 1 <= p <= MAX_PROCESSES :: FreeBlock(blocks[p])
    requires |bitmap| == MAX_PROCESSES && forall i | 0 <= i < MAX_PROCESSES :: bitmap[i] == 0
    ensures Books(m, blocks, bitmap) && Switched(m, blocks) && m.Sound()
    ensures Counts(m.stacks, 0, [0, 0, 0, 0], [0, 0, 0, 0])
  {
    hide FreeBlock, BlockFor;
    assert forall t | 1 <= t <= TERMINALS :: m.stacks[t] == [];
  }

  /** Descriptors 2 to 7 closed as far as `n`. */
  function ClosedUpTo(inUse: seq<bool>, n: nat): (r: seq<bool>)
    ensures |r| == |inUse|
  {
    seq(|inUse|, k requires 0 <= k < |inUse| => inUse[k] && !(FD_MIN <= k < n))
  }

  function Closed(inUse: seq<bool>): (r: seq<bool>)
    ensures |r| == |inUse|
  {
    ClosedUpTo(inUse, FD_MAX + 1)
  }

  lemma CloseOne(inUse: seq<bool>, i: nat)
    requires FD_MIN <= i < |inUse|
    ensures ClosedUpTo(inUse, i)[i := false] == ClosedUpTo(inUse, i + 1) && ClosedUpTo(inUse, FD_MIN) == inUse
    ensures ClosedUpTo(inUse, i)[i := false][i := false] == ClosedUpTo(inUse, i + 1)
  {
  }

  /** Closing leaves the flags alone exactly when none of the descriptors was in use. */
  lemma ClosedIsSame(inUse: seq<bool>)
    requires |inUse| == FD_MAX + 1
    ensures Closed(inUse) == inUse <==> forall k | FD_MIN <= k <= FD_MAX :: !inUse[k]
  {
    if Closed(inUse) == inUse {
      assert forall k | FD_MIN <= k <= FD_MAX :: !Closed(inUse)[k];
    }
  }

  lemma ClosingKeepsProcess(a: Pcb, b: Pcb)
    requires |a.inUse| == FD_MAX + 1 && b == a.(inUse := Closed(a.inUse))
    ensures SameProcess(a, b) && b.at == a.at
  {
  }

  /** Where a process halts, the control blocks `was` become `now`: descriptors 2 to 7 of its parent are
      closed, none of its own from `from` on is in use, and no other block changes. */
  ghost predicate Taken(was: seq<Pcb>, now: seq<Pcb>, child: nat, parent: nat, from: nat)
    ensures Taken(was, now, child, parent, from) ==> child < |now| && parent < |now| == |was|
  {
    && |was| == |now| && child < |now| && parent < |now|
    && (forall j | 0 <= j < |now| && j != child && j != parent :: now[j] == was[j])
    && |was[parent].inUse| == |now[child].inUse| == FD_MAX + 1
    && (parent != child ==> now[parent] == was[parent].(inUse := Closed(was[parent].inUse)))
    && forall k | from <= k <= FD_MAX :: !now[child].inUse[k]
  }

  /** A process has been entered in block `pid`; only the terminal is open. */
  ghost predicate Started(was: seq<Pcb>, now: seq<Pcb>, pid: nat) {
    pid < |was| == |now| && now == was[pid := now[pid]] && now[pid].inUse == OPENED
  }

  lemma TakenThenStarted(was: seq<Pcb>, mid: seq<Pcb>, now: seq<Pcb>, child: nat, parent: nat)
    requires Taken(was, mid, child, parent, 0) && Started(mid, now, child)
    ensures Taken(was, now, child, parent, FD_MIN)
  {
  }

  /** The block of the process that is current after the running one has halted: that of the process
      below, or for a base shell that of the terminal before. */
  ghost function ParentBlockOf(m: Model): nat
    requires |m.stacks| == TERMINALS + 1 && 1 <= m.running <= TERMINALS
  {
    var s := m.stacks[m.running];
    if |s| > 1 then s[|s| - 2].pid else Max(1, m.running - 1)
  }

  const OPENED: seq<bool> := [true, true, false, false, false, false, false, false]
  const CLOSED: seq<bool> := [false, false, false, false, false, false, false, false]

  class Kernel {
    // Block p, for p from 1 to 6, is at BlockStart(p); element 0 is not used
    const pcbs: array<Pcb>
    const pcbCounter: array<int>
    var currentPcb: int
    var runningTerm: int
    var runningPcb: PerTerminal
    var taskCounter: PerTerminal
    var imageFrame: int
    var esp0: int
    var exceptionFlag: bool
    ghost var stacks: seq<seq<Proc>>
    ghost var saved: seq<Context>

    ghost function Blocks(): seq<Pcb>
      reads pcbs
    {
      pcbs[..]
    }

    ghost function Bitmap(): seq<int>
      reads pcbCounter
    {
      pcbCounter[..]
    }

    ghost function ToModel(): Model
      reads this`stacks, this`runningTerm, this`saved
    {
      Model(stacks, runningTerm, saved)
    }

    /** Everything is in order, except perhaps for the current process. */
    ghost predicate Ready()
      reads this`stacks, this`saved, this`runningTerm, this`runningPcb, this`taskCounter, this`currentPcb
      reads pcbs, pcbCounter
    {
      InOrder(ToModel(), Blocks(), Bitmap(), runningPcb, taskCounter, currentPcb)
    }

    ghost predicate InBooks()
      reads this`stacks, this`runningTerm, this`saved, pcbs, pcbCounter
    {
      && |stacks| == TERMINALS + 1 && |saved| == TERMINALS + 1
      && Books(ToModel(), Blocks(), Bitmap()) && Switched(ToModel(), Blocks())
    }

    /** The current process is the top one of the running terminal; its image is mapped and its
        kernel stack is in place. */
    ghost predicate Current()
      requires |stacks| == TERMINALS + 1 && 1 <= runningTerm <= TERMINALS
      reads this`stacks, this`saved, this`runningTerm, this`runningPcb, this`currentPcb, this`imageFrame, this`esp0
    {
      stacks[runningTerm] != [] && IsCurrent(ToModel().Top(runningTerm).pid)
    }

    ghost predicate IsCurrent(p: nat)
      requires 1 <= runningTerm <= TERMINALS
      reads this`currentPcb, this`runningPcb, this`runningTerm, this`imageFrame, this`esp0
    {
      currentPcb == p && runningPcb[runningTerm] == p && imageFrame == ImageFrame(p) && esp0 == StackTop(p)
    }

    ghost predicate Valid()
      reads this`stacks, this`saved, this`runningTerm, this`runningPcb, this`taskCounter, this`currentPcb
      reads this`imageFrame, this`esp0, pcbs, pcbCounter
    {
      && Ready() && ToModel().Sound()
      && if runningTerm == 0 then currentPcb == 1 else Current()
    }

    /** In every reachable state after boot: the bitmap marks exactly the ids on the stacks, the task
        counters are their heights and sum to at most six, and every terminal points to the top of
        its own stack, below which parent pointers lead to its base shell. The process that runs is
        the top one of its terminal; its own frame is mapped and its own kernel stack is in place,
        apart from those of all other processes. */
    lemma RunningKernel()
      requires Valid() && ToModel().Booted()
      ensures |stacks| == TERMINALS + 1 && pcbCounter.Length == MAX_PROCESSES && pcbs.Length == MAX_PROCESSES + 1
      ensures forall p | 1 <= p <= MAX_PROCESSES :: pcbCounter[p - 1] != 0 <==> ToModel().Live(p)
      ensures forall t | 1 <= t <= TERMINALS ::
                taskCounter[t] == |stacks[t]| > 0 && runningPcb[t] == ToModel().Top(t).pid
      ensures taskCounter[1] + taskCounter[2] + taskCounter[3] <= MAX_PROCESSES
      ensures forall t, k: nat | 1 <= t <= TERMINALS && k < |stacks[t]| ::
                Ancestor(Blocks(), runningPcb[t], k) == stacks[t][|stacks[t]| - 1 - k].pid
      ensures forall t | 1 <= t <= TERMINALS :: stacks[t][0].pid == t
      ensures currentPcb == runningPcb[runningTerm]
      ensures
        var p := currentPcb;
        && 1 <= p <= MAX_PROCESSES && imageFrame == ImageFrame(p) == 1 + p
            && esp0 == BlockStart(p) + PROCESS_SIZE - AVOID_PAGE_FAULT
        && forall q | 1 <= q <= MAX_PROCESSES && q != p ::
             ImageFrame(q) != imageFrame && (esp0 < BlockStart(q) || BlockStart(q) + PROCESS_SIZE <= esp0)
    {
      hide Switched, Model.Live, FreeBlock, Describes, NoDuplicates, Apart, Ancestor;
      var m := ToModel();
      AtMostSix(m);
      TopBlock(m, Blocks(), Bitmap());
      forall t, k: nat | 1 <= t <= TERMINALS && k < |stacks[t]|
        ensures Ancestor(Blocks(), runningPcb[t], k) == stacks[t][|stacks[t]| - 1 - k].pid
      {
        ParentsLeadToBase(Blocks(), stacks[t], k);
      }
    }

    /** Boot: no process, and the current pointer at the first block. */
    constructor (pcbs: array<Pcb>, pcbCounter: array<int>)
      requires pcbs.Length == MAX_PROCESSES + 1 && forall p | 1 <= p <= MAX_PROCESSES :: FreeBlock(pcbs[p])
      requires pcbCounter.Length == MAX_PROCESSES && forall i | 0 <= i < MAX_PROCESSES :: pcbCounter[i] == 0
      ensures Valid() && this.pcbs == pcbs && this.pcbCounter == pcbCounter
      ensures runningTerm == 0 && stacks == [[], [], [], []]
    {
      this.pcbs, this.pcbCounter := pcbs, pcbCounter;
      currentPcb, runningTerm, exceptionFlag := 1, 0, false;
      runningPcb, taskCounter := [0, 0, 0, 0], [0, 0, 0, 0];
      imageFrame, esp0 := 0, KERNEL_BOTTOM;
      stacks, saved := [[], [], [], []], seq(TERMINALS + 1, _ => Context(0, 0));
      new;
      hide Books, Switched, Counts;
      NothingRuns(ToModel(), Blocks(), Bitmap());
    }

    /** `find_pid`: the first id that the bitmap does not mark, or 0. */
    method FindPid() returns (pid: int)
      requires Ready()
      ensures pid == ToModel().FreeFrom(1)
    {
      hide Describes, FreeBlock, OnStack, Apart, NoDuplicates, Model.Disjoint, Model.Live;
      var i := 0;
      while pcbCounter[i] != 0
        invariant 0 <= i < MAX_PROCESSES
        invariant ToModel().FreeFrom(1) == ToModel().FreeFrom(i + 1)
        decreases MAX_PROCESSES - i
      {
        assert pcbCounter[..][i + 1 - 1] != 0;
        i := i + 1;
        if i >= MAX_PROCESSES {
          return 0;
        }
      }
      assert pcbCounter[..][i + 1 - 1] == 0;
      pid := i + 1;
    }

    /** Fills in the control block of a new process. */
    method FillBlock(pid: nat, parentId: nat, parentPcb: nat, command: seq<byte>, entry: Context)
      requires pid < pcbs.Length && FreeBlock(pcbs[pid]) && |command| < CMD_SIZE && NUL !in command
      requires 1 <= parentPcb <= MAX_PROCESSES && parentPcb == ParentBlock(pid, parentId)
      modifies pcbs
      ensures Started(old(Blocks()), Blocks(), pid)
      ensures BlockFor(pcbs[pid], Proc(pid, entry, command), parentId)
    {
      CopyIntoCleared(command);
      pcbs[pid] := pcbs[pid].(active := true, inUse := OPENED);
      pcbs[pid] := pcbs[pid].(pid := pid, parentId := parentId, parentPcb := parentPcb);
      pcbs[pid] := pcbs[pid].(cmd := CopyCommand(pcbs[pid].cmd, command));
      pcbs[pid] := pcbs[pid].(entry := entry);
    }

    /** Enters a new process of the running terminal into the books. */
    method Record(pid: nat, parentId: nat, parentPcb: nat, command: seq<byte>, entry: Context)
      requires InBooks() && 1 <= runningTerm <= TERMINALS && pid == ToModel().FreeFrom(1) != 0
      requires parentId == ParentOf(stacks[runningTerm], |stacks[runningTerm]|)
      requires 1 <= parentPcb <= MAX_PROCESSES && parentPcb == ParentBlock(pid, parentId)
      requires (stacks[runningTerm] == [] ==> pid == runningTerm) && |command| < CMD_SIZE && NUL !in command
      modifies this`stacks, pcbs, pcbCounter
      ensures InBooks() && ToModel() == old(ToModel()).Push(runningTerm, Proc(pid, entry, command))
      ensures Started(old(Blocks()), Blocks(), pid)
    {
      hide Books, Switched, BlockFor, FreeBlock, Model.FreeFrom, Model.Live;
      ghost var m, blocks, bitmap := ToModel(), Blocks(), Bitmap();
      ghost var process := Proc(pid, entry, command);
      BooksFacts(m, blocks, bitmap, pid, 0);
      FillBlock(pid, parentId, parentPcb, command, entry);
      pcbCounter[pid - 1] := 1;
      BooksPush(m, runningTerm, process, blocks, bitmap, pcbs[pid]);
      assert pcbCounter[..] == bitmap[pid - 1 := 1];
      stacks := stacks[runningTerm := stacks[runningTerm] + [process]];
    }

    /** The part of `sys_execute` after its checks: gives the lowest free id to a new process on the
        running terminal and makes it current. */
    method StartProcess(command: seq<byte>, entry: Context)
      requires Ready() && 1 <= runningTerm <= TERMINALS && ToModel().FreeFrom(1) != 0
      requires |command| < CMD_SIZE && NUL !in command
      requires StartsFrom(ToModel(), currentPcb)
      modifies this`currentPcb, this`runningPcb, this`taskCounter, this`imageFrame, this`esp0, this`stacks
      modifies pcbs, pcbCounter
      ensures Ready() && Current()
      ensures ToModel() == old(ToModel()).Push(runningTerm, Proc(old(ToModel()).FreeFrom(1), entry, command))
      ensures Started(old(Blocks()), Blocks(), old(ToModel()).FreeFrom(1))
    {
      hide InOrder, Model.FreeFrom, Model.Live, Padded, Counts, Books, Switched, StartsFrom, Started;
      ghost var m, runners, counters := ToModel(), runningPcb, taskCounter;
      ReadyFacts();
      var pid := NewProcess(command, entry);
      Focus(pid, pid, taskCounter[runningTerm] + 1);
      ReadyAgain(m, runners, counters, pid);
      CurrentAgain(m, Proc(pid, entry, command));
    }

    /** Gives the lowest free id to a new process and enters it. */
    method NewProcess(command: seq<byte>, entry: Context) returns (pid: nat)
      requires Ready() && 1 <= runningTerm <= TERMINALS && ToModel().FreeFrom(1) != 0
      requires |command| < CMD_SIZE && NUL !in command
      requires StartsFrom(ToModel(), currentPcb)
      modifies this`stacks, pcbs, pcbCounter
      ensures pid == old(ToModel()).FreeFrom(1) && 1 <= pid <= MAX_PROCESSES
      ensures ToModel() == old(ToModel()).Push(runningTerm, Proc(pid, entry, command))
      ensures InBooks() && Started(old(Blocks()), Blocks(), pid)
    {
      hide InOrder, Books, Switched, Counts, Model.FreeFrom, Model.Live, Padded, ImageFrame, StackTop, Started;
      ReadyFacts();
      pid := FindPid();
      var parentId := FindParent(pid);
      Record(pid, parentId, currentPcb, command, entry);
    }

    lemma ReadyAgain(m: Model, runners: PerTerminal, counters: PerTerminal, pid: nat)
      requires Counts(m.stacks, m.running, runners, counters) && m.running == runningTerm
      requires InBooks() && 1 <= runningTerm <= TERMINALS && |m.stacks| == TERMINALS + 1
      requires stacks == m.stacks[runningTerm := stacks[runningTerm]]
      requires 1 <= pid <= MAX_PROCESSES && currentPcb == pid
      requires runningPcb == UpdateAt(runners, runningTerm, pid)
      requires taskCounter == UpdateAt(counters, runningTerm, |stacks[runningTerm]|)
      ensures Ready()
    {
      InOrderAfter(m, ToModel(), Blocks(), Bitmap(), runners, counters, pid);
    }

    lemma CurrentAgain(m: Model, process: Proc)
      requires |m.stacks| == TERMINALS + 1 && 1 <= runningTerm <= TERMINALS && m.running == runningTerm
      requires ToModel() == m.Push(runningTerm, process)
      requires IsCurrent(process.pid)
      ensures Current()
    {
    }

    /** The id of the process that starts the next one: 0 when the terminal has none yet. */
    method FindParent(ghost pid: nat) returns (parentId: nat)
      requires Ready() && 1 <= runningTerm <= TERMINALS && pid == ToModel().FreeFrom(1) != 0
      requires StartsFrom(ToModel(), currentPcb)
      ensures parentId == ParentOf(stacks[runningTerm], |stacks[runningTerm]|)
      ensures currentPcb == ParentBlock(pid, parentId)
    {
      ReadyFacts();
      hide Books, Switched, Counts, Model.FreeFrom, Model.Live;
      BooksFacts(ToModel(), Blocks(), Bitmap(), pid, currentPcb);
      parentId := 0;
      if taskCounter[runningTerm] + 1 > 1 {
        parentId := pcbs[currentPcb].pid;
      }
    }

    /** Makes the process `pid`, in block `block`, the current one of the running terminal, which
        now has `height` processes. */
    method Focus(block: nat, pid: nat, height: int)
      requires 1 <= runningTerm <= TERMINALS
      modifies this`currentPcb, this`runningPcb, this`taskCounter, this`imageFrame, this`esp0
      ensures currentPcb == block && runningPcb == UpdateAt(old(runningPcb), runningTerm, block)
      ensures taskCounter == UpdateAt(old(taskCounter), runningTerm, height)
      ensures imageFrame == ImageFrame(pid) && esp0 == StackTop(pid)
    {
      currentPcb := block;
      runningPcb := UpdateAt(runningPcb, runningTerm, block);
      taskCounter := UpdateAt(taskCounter, runningTerm, height);
      imageFrame := ImageFrame(pid);
      esp0 := StackTop(pid);
    }

    /** `sys_execute`. `memory` is what is in memory from the command on, and `programs` are the
        names of the executable files. */
    method Execute(memory: seq<byte>, programs: set<seq<byte>>, entry: Context) returns (r: int)
      requires Valid() && ToModel().Booted()
      requires NUL in memory && |memory| >= FILENAME_LEN && |CString(memory)| < CMD_SIZE
      modifies this`currentPcb, this`runningPcb, this`taskCounter, this`imageFrame, this`esp0, this`stacks
      modifies pcbs, pcbCounter
      ensures Valid() && ToModel().Booted()
      ensures r == if ProgramOf(CString(memory)) !in programs then FAIL
          else if old(ToModel()).FreeFrom(1) == 0 then 1 else 0
      ensures ToModel() == if r == FAIL then old(ToModel())
          else ProcessModel.Execute(old(ToModel()), CString(memory), entry)
      ensures r != 0 ==> pcbs[..] == old(pcbs[..]) && pcbCounter[..] == old(pcbCounter[..])
      ensures r != 0 ==> currentPcb == old(currentPcb) && imageFrame == old(imageFrame) && esp0 == old(esp0)
    {
      hide Ready, Current, Model.Sound, Model.FreeFrom, CString, ProgramOf;
      var name := ProgramName(memory);
      if name !in programs {
        return FAIL;
      }
      var pid := FindPid();
      if pid == 0 {
        return 1;
      }
      ExecuteSound(ToModel(), CString(memory), entry);
      ParentFacts();
      StartProcess(CString(memory), entry);
      r := 0;
    }

    /** The closing loop of `sys_halt` for the process in block `child`. The current pointer has
        moved on to the parent, so it is the parent's descriptors that `sys_close` closes; what it does
        to the flags of a table is the last clause of `Descriptors.FdTable.SysClose`. */
    method CloseAll(child: nat)
      requires 1 <= child < pcbs.Length && 1 <= currentPcb < pcbs.Length
      requires |pcbs[child].inUse| == FD_MAX + 1 && |pcbs[currentPcb].inUse| == FD_MAX + 1
      modifies pcbs
      ensures forall j | 0 <= j < pcbs.Length && j != child && j != currentPcb :: pcbs[j] == old(pcbs[j])
      ensures pcbs[child] == old(pcbs[child]).(inUse := Closed(old(pcbs[child]).inUse))
      ensures pcbs[currentPcb] == old(pcbs[currentPcb]).(inUse := Closed(old(pcbs[currentPcb]).inUse))
    {
      var i := FD_MIN;
      while i < FD_MAX + 1
        invariant FD_MIN <= i <= FD_MAX + 1
        invariant forall j | 0 <= j < pcbs.Length && j != child && j != currentPcb :: pcbs[j] == old(pcbs[j])
        invariant pcbs[child] == old(pcbs[child]).(inUse := ClosedUpTo(old(pcbs[child]).inUse, i))
        invariant pcbs[currentPcb] == old(pcbs[currentPcb]).(inUse := ClosedUpTo(old(pcbs[currentPcb]).inUse, i))
      {
        CloseOne(old(pcbs[child]).inUse, i);
        CloseOne(old(pcbs[currentPcb]).inUse, i);
        pcbs[currentPcb] := pcbs[currentPcb].(inUse := pcbs[currentPcb].inUse[i := false]);
        pcbs[child] := pcbs[child].(inUse := pcbs[child].inUse[i := false]);
        i := i + 1;
      }
    }

    /** What the block of the process that runs says about its parent. */
    lemma ParentFacts()
      requires Valid() && ToModel().Booted()
      ensures currentPcb == ToModel().Top(runningTerm).pid && 1 <= currentPcb < pcbs.Length
      ensures
        var s, b := stacks[runningTerm], pcbs[currentPcb];
        && b.entry == ToModel().Top(runningTerm).entry && 1 <= b.parentPcb <= MAX_PROCESSES
        && b.parentPcb == ParentBlockOf(ToModel()) && (|s| > 1 ==> b.parentId == b.parentPcb)
    {
      hide Books, Switched, Counts, FreeBlock, Model.Live, Model.Sound, SameProcess, ParentBlockOf;
      ReadyFacts();
      TopBlock(ToModel(), Blocks(), Bitmap());
    }

    /** The part of `sys_halt` before its last decision: takes the current process down, and makes
        the one that started it current. Returns where the kernel was when it started it. */
    method TakeDown() returns (entry: Context)
      requires Valid() && ToModel().Booted()
      modifies this`currentPcb, this`runningPcb, this`taskCounter, this`imageFrame, this`esp0, this`stacks
      modifies pcbs, pcbCounter
      ensures Ready() && ToModel() == old(ToModel()).Pop(runningTerm)
      ensures entry == old(ToModel()).Top(runningTerm).entry
      ensures stacks[runningTerm] != [] ==> Current()
      ensures currentPcb == ParentBlockOf(old(ToModel()))
      ensures Taken(old(Blocks()), Blocks(), old(currentPcb), currentPcb, 0)
    {
      hide Valid, InOrder, InBooks, Counts, Model.Live, Model.Sound, Taken, ParentBlockOf, ImageFrame, StackTop;
      RunningFacts();
      ParentFacts();
      ReadyFacts();
      ghost var m, runners, counters := ToModel(), runningPcb, taskCounter;
      PoppedTop(m);
      entry := Leave();
      ReadyAgain(m, runners, counters, currentPcb);
    }

    method Leave() returns (entry: Context)
      requires InBooks() && 1 <= runningTerm <= TERMINALS && stacks[runningTerm] != []
      requires currentPcb == ToModel().Top(runningTerm).pid && 1 <= currentPcb < pcbs.Length
      requires 1 <= pcbs[currentPcb].parentPcb <= MAX_PROCESSES
      modifies this`currentPcb, this`runningPcb, this`taskCounter, this`imageFrame, this`esp0, this`stacks
      modifies pcbs, pcbCounter
      ensures InBooks() && ToModel() == old(ToModel()).Pop(runningTerm)
      ensures entry == old(pcbs[currentPcb]).entry
      ensures currentPcb == old(pcbs[currentPcb]).parentPcb
      ensures imageFrame == ImageFrame(old(pcbs[currentPcb]).parentId)
          && esp0 == StackTop(old(pcbs[currentPcb]).parentId)
      ensures runningPcb == UpdateAt(old(runningPcb), runningTerm, currentPcb)
      ensures taskCounter == UpdateAt(old(taskCounter), runningTerm, old(taskCounter)[runningTerm] - 1)
      ensures Taken(old(Blocks()), Blocks(), old(currentPcb), currentPcb, 0)
    {
      hide InBooks, Taken, ImageFrame, StackTop;
      var child := currentPcb;
      entry := pcbs[child].entry;
      Focus(pcbs[child].parentPcb, pcbs[child].parentId, taskCounter[runningTerm] - 1);
      Erase(child);
    }

    /** Takes the process in block `child`, the top one of the running terminal, out of the books. */
    method Erase(child: nat)
      requires InBooks()
      requires 1 <= runningTerm <= TERMINALS && stacks[runningTerm] != [] && child == ToModel().Top(runningTerm).pid
      requires 1 <= currentPcb <= MAX_PROCESSES
      modifies this`stacks, pcbs, pcbCounter
      ensures InBooks() && ToModel() == old(ToModel()).Pop(runningTerm)
      ensures Taken(old(Blocks()), Blocks(), child, currentPcb, 0)
    {
      hide Books, Switched, FreeBlock, Model.Live, SameProcess, Taken;
      ghost var m, blocks, bitmap := ToModel(), Blocks(), Bitmap();
      TopBlock(m, blocks, bitmap);
      EveryBlock(m, blocks, bitmap, child);
      EveryBlock(m, blocks, bitmap, currentPcb);
      pcbCounter[pcbs[child].pid - 1] := 0;
      FreeChild(child);
      TakenDown(m, blocks, bitmap, Blocks(), child, currentPcb);
      assert pcbCounter[..] == bitmap[child - 1 := 0];
      stacks := stacks[runningTerm := stacks[runningTerm][..|stacks[runningTerm]| - 1]];
    }

    /** The closing loop and the clearing of the control block. */
    method FreeChild(child: nat)
      requires 1 <= child < pcbs.Length && 1 <= currentPcb < pcbs.Length
      requires |pcbs[child].inUse| == FD_MAX + 1 && |pcbs[currentPcb].inUse| == FD_MAX + 1
      modifies pcbs
      ensures Taken(old(Blocks()), Blocks(), child, currentPcb, 0) && FreeBlock(pcbs[child])
    {
      CloseAll(child);
      pcbs[child] := pcbs[child].(active := false, cmd := Fill(CMD_SIZE, NUL), inUse := CLOSED);
    }

    /** The status that `sys_halt` passes on, which is special after an exception. */
    method ReturnStatus(status: byte) returns (r: int)
      modifies this`exceptionFlag
      ensures !exceptionFlag && r == if old(exceptionFlag) then EXCEPTION_STATUS else status
    {
      r := status;
      if exceptionFlag {
        r := EXCEPTION_STATUS;
        exceptionFlag := false;
      }
    }

    /** `sys_halt`: the status that goes to the process below and where the kernel was when that
        process started this one, or nothing when a base shell has been started again. Besides its
        own descriptors the process closes those of its parent. */
    method Halt(status: byte, entry: Context) returns (back: Option<(int, Context)>)
      requires Valid() && ToModel().Booted()
      modifies this`currentPcb, this`runningPcb, this`taskCounter, this`imageFrame, this`esp0, this`stacks
      modifies this`exceptionFlag, pcbs, pcbCounter
      ensures Valid() && ToModel().Booted() && !exceptionFlag
      ensures ToModel() == ProcessModel.Halt(old(ToModel()), entry)
      ensures
        var returned := if old(exceptionFlag) then EXCEPTION_STATUS else status;
        back == if |old(stacks)[runningTerm]| == 1 then None
                else Some((returned, old(ToModel()).Top(runningTerm).entry))
      ensures
        var from := if back.Some? then 0 else FD_MIN;
        Taken(old(Blocks()), Blocks(), old(currentPcb), ParentBlockOf(old(ToModel())), from)
    {
      hide Ready, InBooks, Current, Valid, Taken, ParentBlockOf, Model.Sound, Model.FreeFrom, ProcessModel.Halt;
      RunningFacts();
      ghost var m := ToModel();
      HaltCases(m, entry);
      var returned := ReturnStatus(status);
      ghost var child, was := currentPcb, Blocks();
      ParentFacts();
      var at := TakeDown();
      ReadyFacts();
      if taskCounter[runningTerm] == 0 {
        Restart(m, was, child, entry);
        back := None;
      } else {
        back := Some((returned, at));
      }
      ValidAgain();
    }

    lemma RunningFacts()
      requires Valid()
      ensures Ready() && InBooks() && ToModel().Sound() && |stacks| == TERMINALS + 1 && |saved| == TERMINALS + 1
          && 0 <= runningTerm <= TERMINALS
    {
      hide Books, Switched, Counts, Model.Disjoint, Current;
    }

    lemma ValidAgain()
      requires Ready() && 1 <= runningTerm <= TERMINALS && |stacks| == TERMINALS + 1 && Current() && ToModel().Sound()
      ensures Valid()
    {
      hide Ready, Current, Model.Sound;
    }

    /** Starts the base shell of the running terminal again, which gets the id that it had. */
    method Restart(ghost m: Model, ghost was: seq<Pcb>, ghost child: nat, entry: Context)
      requires Ready() && 1 <= runningTerm <= TERMINALS && stacks[runningTerm] == []
      requires m.Sound() && m.Booted() && m.running == runningTerm && ToModel() == m.Pop(runningTerm)
      requires currentPcb == ParentBlockOf(m) && child == m.Top(m.running).pid
      requires Taken(was, Blocks(), child, currentPcb, 0)
      modifies this`currentPcb, this`runningPcb, this`taskCounter, this`imageFrame, this`esp0, this`stacks
      modifies pcbs, pcbCounter
      ensures Ready() && Current()
      ensures ToModel() == m.Pop(runningTerm).Push(runningTerm, Proc(m.Pop(runningTerm).FreeFrom(1), entry, SHELL))
      ensures Taken(was, Blocks(), child, old(currentPcb), FD_MIN)
    {
      hide Ready, Current, Started, Taken, ParentBlockOf, Model.Sound, Model.FreeFrom;
      BaseBlocks(m);
      ghost var mid, parent := Blocks(), currentPcb;
      OneLeft(m, runningTerm);
      BaseShellKeepsItsId(m, ToModel(), runningTerm);
      StartProcess(SHELL, entry);
      TakenThenStarted(was, mid, Blocks(), child, parent);
    }

    /** The first half of a tick: the process that runs is switched out at `at`. */
    method SwitchOut(at: Context)
      requires Valid()
      modifies this`runningTerm, this`saved, pcbs
      ensures Ready() && runningTerm == NextTerminal(old(runningTerm))
      ensures ToModel() == old(ToModel()).(saved := old(saved)[old(runningTerm) := at], running := runningTerm)
      ensures old(ToModel()).Booted() ==> TopIsSwitchedOut(ToModel(), Blocks(), runningPcb)
    {
      hide Valid, Books, Switched, Counts, OneIsCurrent, TopIsSwitchedOut, Model.Sound, Model.Disjoint;
      RunningFacts();
      ghost var m, blocks := ToModel(), Blocks();
      OneRuns();
      ReadyFacts();
      runningTerm := runningTerm % TERMINALS + 1;
      pcbs[currentPcb] := pcbs[currentPcb].(at := at);
      saved := saved[m.running := at];
      assert Blocks() == blocks[currentPcb := blocks[currentPcb].(at := at)];
      SwitchedOut(m, ToModel(), blocks, Bitmap(), runningPcb, taskCounter, currentPcb, at);
    }

    lemma OneRuns()
      requires Valid()
      ensures Ready() && 0 <= runningTerm <= TERMINALS && |stacks| == TERMINALS + 1
          && OneIsCurrent(ToModel(), runningPcb, currentPcb)
    {
      hide Books, Switched, Counts, Model.Disjoint;
    }

    /** The second half of a tick: the process on top of the terminal that now runs goes on. */
    method SwitchIn() returns (resumed: Context)
      requires Ready() && 1 <= runningTerm <= TERMINALS && TopIsSwitchedOut(ToModel(), Blocks(), runningPcb)
      modifies this`currentPcb, this`imageFrame, this`esp0
      ensures Ready() && Current() && resumed == saved[runningTerm]
    {
      hide Books, Switched, Counts, ImageFrame, StackTop;
      ReadyFacts();
      currentPcb := runningPcb[runningTerm];
      esp0 := StackTop(pcbs[currentPcb].pid);
      imageFrame := ImageFrame(pcbs[currentPcb].pid);
      resumed := pcbs[currentPcb].at;
    }

    /** `scheduler`: the terminal that goes on does so where it was switched out last; the first three
        ticks start base shells instead. */
    method Tick(at: Context, entry: Context) returns (resumed: Option<Context>)
      requires Valid()
      modifies this, pcbs, pcbCounter
      ensures Valid() && ToModel() == ProcessModel.Tick(old(ToModel()), at, entry)
      ensures resumed == if old(ToModel()).Booted() then Some(saved[runningTerm]) else None
    {
      hide Ready, InBooks, Current, Valid, Model.Sound, Model.Booted, Model.FreeFrom, TopIsSwitchedOut, NextIsNew,
          StartsFrom, Started, ProcessModel.Tick;
      RunningFacts();
      BootCheck();
      ghost var m := ToModel();
      TickCases(m, at, entry);
      var booting := pcbCounter[0] == 0 || pcbCounter[1] == 0 || pcbCounter[2] == 0;
      SwitchOut(at);
      if booting {
        NewAfterSwitch(m, ToModel(), currentPcb);
        StartProcess(SHELL, entry);
        resumed := None;
      } else {
        var there := SwitchIn();
        resumed := Some(there);
      }
      ValidAgain();
    }

    /** The scheduler's test for a missing base shell. */
    lemma BootCheck()
      requires Valid()
      ensures pcbCounter.Length == MAX_PROCESSES && 0 <= runningTerm <= TERMINALS
      ensures ToModel().Booted() <==> pcbCounter[0] != 0 && pcbCounter[1] != 0 && pcbCounter[2] != 0
      ensures !ToModel().Booted() ==> NextIsNew(ToModel()) && currentPcb == Max(1, runningTerm)
    {
      hide Books, Switched, Counts, NextIsNew;
      ReadyFacts();
      BootBits(ToModel(), Blocks(), Bitmap());
    }

    /** `sys_getargs` gives the running process the argument of the command it was started with. */
    method GetArgs(buf: array<byte>, nbytes: nat) returns (r: int)
      requires Valid() && ToModel().Booted() && |ToModel().Top(runningTerm).command| <= CMD_SIZE - 2
      requires nbytes <= buf.Length && |ArgumentOf(ToModel().Top(runningTerm).command)| <= buf.Length
      modifies buf
      ensures r == 0
      ensures
        var argument := ArgumentOf(ToModel().Top(runningTerm).command);
        buf[..|argument|] == argument && buf[..] == WithArgument(old(buf[..]), argument, nbytes)
    {
      hide Books, Switched, Counts, Model.Sound, ArgumentOf, Padded;
      ReadyFacts();
      ParentFacts();
      TopBlock(ToModel(), Blocks(), Bitmap());
      if !pcbs[currentPcb].inUse[0] {
        return FAIL;
      }
      ghost var was, command := buf[..], ToModel().Top(runningTerm).command;
      CopyArgument(pcbs[currentPcb].cmd, buf, nbytes, command);
      assert buf[..] == WithArgument(was, ArgumentOf(command), nbytes);
      r := 0;
    }

    lemma ReadyFacts()
      requires Ready()
      ensures |stacks| == TERMINALS + 1 && |saved| == TERMINALS + 1
      ensures pcbs.Length == MAX_PROCESSES + 1 && pcbCounter.Length == MAX_PROCESSES
      ensures forall t | 1 <= t <= TERMINALS :: taskCounter[t] == |stacks[t]|
      ensures Books(ToModel(), Blocks(), Bitmap()) && Switched(ToModel(), Blocks())
      ensures Counts(stacks, runningTerm, runningPcb, taskCounter) && 1 <= currentPcb <= MAX_PROCESSES
    {
    }
  }

  /** What the books say about a free id and about the process on top of the running stack. */
  lemma BooksFacts(m: Model, blocks: seq<Pcb>, bitmap: seq<int>, pid: nat, top: nat)
    requires Books(m, blocks, bitmap) && 1 <= m.running <= TERMINALS
    requires pid == m.FreeFrom(1) != 0
    ensures |blocks| == MAX_PROCESSES + 1 && |bitmap| == MAX_PROCESSES
    ensures 1 <= pid <= MAX_PROCESSES && !m.Live(pid) && FreeBlock(blocks[pid])
    ensures m.stacks[m.running] != [] && top == m.Top(m.running).pid ==>
              1 <= top <= MAX_PROCESSES && blocks[top].pid == top
  {
    if m.stacks[m.running] != [] {
      var s := m.stacks[m.running];
      assert NoDuplicates(s);
      assert BlockFor(blocks[s[|s| - 1].pid], s[|s| - 1], ParentOf(s, |s| - 1));
    }
  }

  /** What the books say about the top process of the running terminal. */
  lemma TopBlock(m: Model, blocks: seq<Pcb>, bitmap: seq<int>)
    requires Books(m, blocks, bitmap) && 1 <= m.running <= TERMINALS && m.stacks[m.running] != []
    ensures |blocks| == MAX_PROCESSES + 1 && |bitmap| == MAX_PROCESSES
    ensures
      var s, p := m.stacks[m.running], m.Top(m.running).pid;
      && 1 <= p <= MAX_PROCESSES && BlockFor(blocks[p], m.Top(m.running), ParentOf(s, |s| - 1))
      && blocks[p].parentPcb == ParentBlockOf(m) && (|s| > 1 ==> blocks[p].parentId == blocks[p].parentPcb)
  {
    hide FreeBlock, Model.Live, OnStack, Padded;
    var s, p := m.stacks[m.running], m.Top(m.running).pid;
    assert NoDuplicates(s);
    assert BlockFor(blocks[p], s[|s| - 1], ParentOf(s, |s| - 1));
  }

  lemma EveryBlock(m: Model, blocks: seq<Pcb>, bitmap: seq<int>, p: nat)
    requires Books(m, blocks, bitmap) && 1 <= p <= MAX_PROCESSES
    ensures |blocks[p].inUse| == FD_MAX + 1
  {
    if m.Live(p) {
      var t := if OnStack(m.stacks[1], p) then 1 else if OnStack(m.stacks[2], p) then 2 else 3;
      var i :| 0 <= i < |m.stacks[t]| && m.stacks[t][i].pid == p;
      assert Describes(blocks, m.stacks[t]);
      assert BlockFor(blocks[p], m.stacks[t][i], ParentOf(m.stacks[t], i));
    }
  }

  /** The books after descriptors have been closed in the parent's block and the child's was freed. */
  lemma TakenDown(m: Model, blocks: seq<Pcb>, bitmap: seq<int>, after: seq<Pcb>, child: nat, parent: nat)
    requires Books(m, blocks, bitmap) && Switched(m, blocks)
    requires 1 <= m.running <= TERMINALS && m.stacks[m.running] != [] && child == m.Top(m.running).pid
    requires |after| == |blocks| == MAX_PROCESSES + 1
    requires 1 <= child <= MAX_PROCESSES && 1 <= parent <= MAX_PROCESSES && FreeBlock(after[child])
    requires Taken(blocks, after, child, parent, 0)
    ensures |bitmap| == MAX_PROCESSES && Books(m.Pop(m.running), after, bitmap[child - 1 := 0])
    ensures Switched(m.Pop(m.running), after)
  {
    hide Books, Switched, FreeBlock, SameProcess;
    TopBlock(m, blocks, bitmap);
    if parent != child {
      ClosingKeepsProcess(blocks[parent], after[parent]);
      BooksSame(m, blocks, bitmap, parent, after[parent]);
      var closed := blocks[parent := after[parent]];
      BooksPop(m, m.running, closed, bitmap, after[child]);
      assert closed[child := after[child]] == after;
    } else {
      BooksPop(m, m.running, blocks, bitmap, after[child]);
      assert blocks[child := after[child]] == after;
    }
  }
}
