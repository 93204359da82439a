// Processes seen as three stacks, one for each terminal, with one terminal running. Nothing
// here knows about control blocks, bitmaps or page tables.
module ProcessModel {
  import opened Bytes

  const MAX_PROCESSES := 6

  datatype Context = Context(esp: uint32, ebp: uint32)

  /** A process: `entry` is where the kernel was when it started the process. */
  datatype Proc = Proc(pid: nat, entry: Context, command: seq<byte>)

  ghost predicate OnStack(s: seq<Proc>, p: nat) {
    exists i :: 0 <= i < |s| && s[i].pid == p
  }

  ghost predicate NoDuplicates(s: seq<Proc>) {
    && (forall i | 0 <= i < |s| :: 1 <= s[i].pid <= MAX_PROCESSES)
    && forall i, j | 0 <= i < j < |s| :: s[i].pid != s[j].pid
  }

  ghost predicate Apart(s: seq<Proc>, u: seq<Proc>) {
    forall i, j | 0 <= i < |s| && 0 <= j < |u| :: s[i].pid != u[j].pid
  }

  /** `stacks[t]` holds the processes of terminal t, the base shell at the bottom and the one that
      runs on top. `saved[t]` is where terminal t was switched out last. */
  datatype Model = Model(stacks: seq<seq<Proc>>, running: int, saved: seq<Context>)
  {
    ghost predicate Live(p: nat)
      requires |stacks| == TERMINALS + 1
    {
      OnStack(stacks[1], p) || OnStack(stacks[2], p) || OnStack(stacks[3], p)
    }

    /** Every terminal has its base shell. */
    ghost predicate Booted() {
      && |stacks| == TERMINALS + 1 && |saved| == TERMINALS + 1 && 1 <= running <= TERMINALS
      && stacks[1] != [] && stacks[2] != [] && stacks[3] != []
    }

    /** The first ticks have started the base shells of terminals 1 to `running`. */
    ghost predicate Booting() {
      && |stacks| == TERMINALS + 1 && |saved| == TERMINALS + 1 && 0 <= running < TERMINALS
      && forall t | 1 <= t <= TERMINALS :: |stacks[t]| == if t <= running then 1 else 0
    }

    /** No process id is used twice, and the base shell of terminal t has id t. */
    ghost predicate Disjoint()
      requires |stacks| == TERMINALS + 1
    {
      && (forall t | 1 <= t <= TERMINALS :: NoDuplicates(stacks[t]))
      && (forall t | 1 <= t <= TERMINALS && stacks[t] != [] :: stacks[t][0].pid == t)
      && forall t, u | 1 <= t <= TERMINALS && 1 <= u <= TERMINALS && t != u :: Apart(stacks[t], stacks[u])
    }

    ghost predicate Sound() {
      (Booted() || Booting()) && Disjoint()
    }

    /** The lowest process id at least `p` that is not in use, or 0. */
    ghost function FreeFrom(p: nat): (r: nat)
      requires |stacks| == TERMINALS + 1 && 1 <= p
      ensures r == 0 || (p <= r <= MAX_PROCESSES && !Live(r))
      ensures forall q | p <= q <= MAX_PROCESSES && (r == 0 || q < r) :: Live(q)
      decreases MAX_PROCESSES + 1 - p
    {
      if p > MAX_PROCESSES then 0 else if !Live(p) then p else FreeFrom(p + 1)
    }

    ghost function Push(t: int, process: Proc): Model
      requires |stacks| == TERMINALS + 1 && 1 <= t <= TERMINALS
    {
      this.(stacks := stacks[t := stacks[t] + [process]])
    }

    ghost function Pop(t: int): Model
      requires |stacks| == TERMINALS + 1 && 1 <= t <= TERMINALS && stacks[t] != []
    {
      this.(stacks := stacks[t := stacks[t][..|stacks[t]| - 1]])
    }

    ghost function Top(t: int): Proc
      requires |stacks| == TERMINALS + 1 && 1 <= t <= TERMINALS && stacks[t] != []
    {
      stacks[t][|stacks[t]| - 1]
    }
  }

  const SHELL := Ascii("shell")

  /** Starting a process on the running terminal: it goes on top of that terminal's stack, under
      the lowest free id. Nothing happens when all six ids are taken. */
  ghost function Execute(m: Model, command: seq<byte>, entry: Context): Model
    requires m.Sound() && m.running != 0
  {
    var p := m.FreeFrom(1);
    if p == 0 then m else m.Push(m.running, Proc(p, entry, command))
  }

  /** The running process ends. A base shell is started again at once. */
  ghost function Halt(m: Model, entry: Context): Model
    requires m.Sound() && m.Booted()
  {
    var popped := m.Pop(m.running);
    if popped.stacks[m.running] != [] then popped
    else popped.Push(m.running, Proc(popped.FreeFrom(1), entry, SHELL))
  }

  /** The timer: the running terminal is switched out at `at`, and the next one runs. The first
      three ticks each start a base shell. */
  ghost function Tick(m: Model, at: Context, entry: Context): Model
    requires m.Sound()
  {
    var next := m.running % TERMINALS + 1;
    var n := m.(saved := m.saved[m.running := at], running := next);
    if m.Booted() then n else n.Push(next, Proc(n.FreeFrom(1), entry, SHELL))
  }

  lemma PushKeepsApart(s: seq<Proc>, u: seq<Proc>, process: Proc)
    requires Apart(s, u) && Apart(u, s) && !OnStack(u, process.pid)
    ensures Apart(s + [process], u) && Apart(u, s + [process])
  {
  }

  lemma PushNoDuplicates(s: seq<Proc>, process: Proc)
    requires NoDuplicates(s) && !OnStack(s, process.pid) && 1 <= process.pid <= MAX_PROCESSES
    ensures NoDuplicates(s + [process])
  {
  }

  lemma PushDisjoint(m: Model, t: int, process: Proc)
    requires |m.stacks| == TERMINALS + 1 && 1 <= t <= TERMINALS && m.Disjoint()
    requires !m.Live(process.pid) && 1 <= process.pid <= MAX_PROCESSES
    requires m.stacks[t] == [] ==> process.pid == t
    ensures m.Push(t, process).Disjoint()
  {
    hide Apart, NoDuplicates, OnStack;
    PushNoDuplicates(m.stacks[t], process);
    forall u | 1 <= u <= TERMINALS && u != t
      ensures Apart(m.stacks[t] + [process], m.stacks[u]) && Apart(m.stacks[u], m.stacks[t] + [process])
    {
      PushKeepsApart(m.stacks[t], m.stacks[u], process);
    }
  }

  lemma PopDisjoint(m: Model, t: int)
    requires |m.stacks| == TERMINALS + 1 && 1 <= t <= TERMINALS && m.Disjoint() && m.stacks[t] != []
    ensures m.Pop(t).Disjoint()
  {
    hide Apart, NoDuplicates, OnStack;
    PopNoDuplicates(m.stacks[t]);
    forall u | 1 <= u <= TERMINALS && u != t
      ensures Apart(m.stacks[t][..|m.stacks[t]| - 1], m.stacks[u])
          && Apart(m.stacks[u], m.stacks[t][..|m.stacks[t]| - 1])
    {
      PopKeepsApart(m.stacks[t], m.stacks[u]);
    }
  }

  lemma PopNoDuplicates(s: seq<Proc>)
    requires s != [] && NoDuplicates(s)
    ensures NoDuplicates(s[..|s| - 1])
  {
  }

  lemma PopKeepsApart(s: seq<Proc>, u: seq<Proc>)
    requires s != [] && Apart(s, u) && Apart(u, s)
    ensures Apart(s[..|s| - 1], u) && Apart(u, s[..|s| - 1])
  {
  }

  lemma ExecuteSound(m: Model, command: seq<byte>, entry: Context)
    requires m.Sound() && m.Booted()
    ensures Execute(m, command, entry).Sound() && Execute(m, command, entry).Booted()
  {
    hide Model.Disjoint, Model.Live;
    var p := m.FreeFrom(1);
    if p != 0 {
      PushDisjoint(m, m.running, Proc(p, entry, command));
    }
  }

  /** A process id is live on a terminal whose base shell has it. */
  lemma BaseIsLive(m: Model, t: int)
    requires m.Sound() && 1 <= t <= TERMINALS && m.stacks[t] != []
    ensures m.Live(t)
  {
    assert m.stacks[t][0].pid == t;
  }

  /** When terminal `t` has lost its base shell, the lowest free id is `t`, however many
      processes the other terminals run: the restarted shell gets its old id. */
  lemma BaseShellKeepsItsId(m: Model, n: Model, t: int)
    requires m.Sound() && m.Booted() && 1 <= t <= TERMINALS && |m.stacks[t]| == 1
    requires n == m.Pop(t)
    ensures n.FreeFrom(1) == t && !n.Live(t)
  {
    forall u | 1 <= u <= TERMINALS && u != t ensures n.Live(u) {
      assert n.stacks[u][0].pid == u;
    }
    forall u | 1 <= u <= TERMINALS ensures !OnStack(n.stacks[u], t) {
      if u != t {
        assert m.stacks[t][0].pid == t;
        assert Apart(m.stacks[u], m.stacks[t]);
      }
    }
    assert !n.Live(t);
  }

  lemma HaltSound(m: Model, entry: Context)
    requires m.Sound() && m.Booted()
    ensures Halt(m, entry).Sound() && Halt(m, entry).Booted()
  {
    hide Model.Disjoint, Model.Live;
    var t := m.running;
    var popped := m.Pop(t);
    PopDisjoint(m, t);
    if |m.stacks[t]| == 1 {
      BaseShellKeepsItsId(m, popped, t);
      PushDisjoint(popped, t, Proc(t, entry, SHELL));
    }
  }

  /** While booting, the lowest free id is the number of the next terminal. */
  lemma BootIds(m: Model, n: Model)
    requires m.Sound() && !m.Booted() && n.stacks == m.stacks
    ensures n.FreeFrom(1) == m.running + 1 && !n.Live(m.running + 1)
  {
    forall u | 1 <= u <= m.running ensures n.Live(u) {
      assert n.stacks[u][0].pid == u;
    }
    forall u | 1 <= u <= TERMINALS ensures !OnStack(n.stacks[u], m.running + 1) {
    }
  }

  lemma SameStacksDisjoint(m: Model, n: Model)
    requires |m.stacks| == TERMINALS + 1 && m.Disjoint() && n.stacks == m.stacks
    ensures n.Disjoint()
  {
  }

  lemma TickSound(m: Model, at: Context, entry: Context)
    requires m.Sound()
    ensures Tick(m, at, entry).Sound()
    ensures m.Booted() || m.running == 2 ==> Tick(m, at, entry).Booted()
  {
    hide Model.Disjoint, Model.Live;
    var next := m.running % TERMINALS + 1;
    var n := m.(saved := m.saved[m.running := at], running := next);
    SameStacksDisjoint(m, n);
    if !m.Booted() {
      BootIds(m, n);
      PushDisjoint(n, next, Proc(next, entry, SHELL));
    }
  }

  // What the steps do, process by process

  const SHELL_NAME := "shell"

  /** When all ids are in use, starting a process changes nothing. */
  lemma ExecuteWhenFull(m: Model, command: seq<byte>, entry: Context)
    requires m.Sound() && m.Booted() && Heights(m) == MAX_PROCESSES
    ensures Execute(m, command, entry) == m
  {
    AtMostSix(m);
  }

  /** When a base shell ends, the program "shell" runs alone on its terminal again, under its old id;
      nothing else changes. */
  lemma HaltOfBaseShell(m: Model, entry: Context)
    requires m.Sound() && m.Booted() && |m.stacks[m.running]| == 1
    ensures
      var h := Halt(m, entry);
      && h.stacks[m.running] == [Proc(m.running, entry, Ascii(SHELL_NAME))]
      && h.running == m.running && h.saved == m.saved
      && forall u | 1 <= u <= TERMINALS && u != m.running :: h.stacks[u] == m.stacks[u]
  {
    BaseShellKeepsItsId(m, m.Pop(m.running), m.running);
  }

  /** When any other process ends, the one that started it is on top again; nothing else changes. */
  lemma HaltOfChild(m: Model, entry: Context)
    requires m.Sound() && m.Booted() && |m.stacks[m.running]| > 1
    ensures
      var h, s := Halt(m, entry), m.stacks[m.running];
      && h.stacks[m.running] + [s[|s| - 1]] == s && h.running == m.running && h.saved == m.saved
      && forall u | 1 <= u <= TERMINALS && u != m.running :: h.stacks[u] == m.stacks[u]
  {
  }

  /** While booting, a tick starts the program "shell" on the next terminal under that terminal's
      number; nothing else changes. */
  lemma BootTick(m: Model, at: Context, entry: Context)
    requires m.Sound() && !m.Booted()
    ensures
      var n, t := Tick(m, at, entry), m.running + 1;
      && n.running == t && n.stacks[t] == [Proc(t, entry, Ascii(SHELL_NAME))]
      && forall u | 1 <= u <= TERMINALS && u != t :: n.stacks[u] == m.stacks[u]
  {
    hide Model.FreeFrom, Model.Live, Model.Disjoint;
    BootIds(m, m.(saved := m.saved[m.running := at], running := m.running % TERMINALS + 1));
  }

  // How many processes there can be

  ghost function Ids(): (r: set<nat>)
    ensures |r| == MAX_PROCESSES && forall p :: p in r <==> 1 <= p <= MAX_PROCESSES
  {
    {1, 2, 3, 4, 5, 6}
  }

  ghost function Pids(s: seq<Proc>): (r: set<nat>) {
    if s == [] then {} else Pids(s[..|s| - 1]) + {s[|s| - 1].pid}
  }

  lemma {:induction false} PidsOnStack(s: seq<Proc>, p: nat)
    ensures p in Pids(s) <==> OnStack(s, p)
  {
    if s != [] {
      var front := s[..|s| - 1];
      PidsOnStack(front, p);
      assert OnStack(front, p) ==> OnStack(s, p) by {
        if OnStack(front, p) {
          var i :| 0 <= i < |front| && front[i].pid == p;
          assert s[i].pid == p;
        }
      }
      if OnStack(s, p) {
        var i :| 0 <= i < |s| && s[i].pid == p;
        assert i < |front| ==> front[i].pid == p;
      }
    }
  }

  lemma {:induction false} CountPids(s: seq<Proc>)
    requires NoDuplicates(s)
    ensures |Pids(s)| == |s| && Pids(s) <= Ids()
  {
    hide Ids;
    if s != [] {
      PopNoDuplicates(s);
      CountPids(s[..|s| - 1]);
      PidsOnStack(s[..|s| - 1], s[|s| - 1].pid);
    }
  }

  lemma ApartPids(s: seq<Proc>, u: seq<Proc>)
    requires Apart(s, u)
    ensures Pids(s) !! Pids(u)
  {
    forall p ensures !(p in Pids(s) && p in Pids(u)) {
      PidsOnStack(s, p);
      PidsOnStack(u, p);
    }
  }

  ghost function Heights(m: Model): nat
    requires |m.stacks| == TERMINALS + 1
  {
    |m.stacks[1]| + |m.stacks[2]| + |m.stacks[3]|
  }

  lemma SubsetCount(a: set<nat>, b: set<nat>)
    requires a <= b
    ensures |a| <= |b| && (|a| == |b| <==> a == b)
  {
    assert b == a + (b - a);
    assert |b - a| == 0 <==> b - a == {};
  }

  /** There are never more than six processes, and no id is free exactly when there are six. */
  lemma AtMostSix(m: Model)
    requires m.Sound()
    ensures Heights(m) <= MAX_PROCESSES
    ensures m.FreeFrom(1) == 0 <==> Heights(m) == MAX_PROCESSES
  {
    hide Ids, Pids, NoDuplicates, Apart, OnStack, Model.FreeFrom;
    var s1, s2, s3 := m.stacks[1], m.stacks[2], m.stacks[3];
    CountPids(s1);
    CountPids(s2);
    CountPids(s3);
    ApartPids(s1, s2);
    ApartPids(s1, s3);
    ApartPids(s2, s3);
    var used := Pids(s1) + Pids(s2) + Pids(s3);
    assert |used| == Heights(m);
    SubsetCount(used, Ids());
    forall q ensures m.Live(q) <==> q in used {
      PidsOnStack(s1, q);
      PidsOnStack(s2, q);
      PidsOnStack(s3, q);
    }
    assert (forall q | 1 <= q <= MAX_PROCESSES :: m.Live(q)) <==> used == Ids();
  }

  // Runs

  datatype Event =
    | Exec(command: seq<byte>, entry: Context)
    | End(entry: Context)
    | Timer(at: Context, entry: Context)

  /** No process does anything before the three base shells have been started. */
  ghost function Step(m: Model, e: Event): (r: Model)
    requires m.Sound()
  {
    match e
    case Timer(at, entry) => Tick(m, at, entry)
    case Exec(command, entry) => if m.Booted() then Execute(m, command, entry) else m
    case End(entry) => if m.Booted() then Halt(m, entry) else m
  }

  lemma StepSound(m: Model, e: Event)
    requires m.Sound()
    ensures Step(m, e).Sound() && (m.Booted() ==> Step(m, e).Booted())
  {
    hide Execute, Halt, Tick, Model.Sound, Model.Booted;
    match e
    case Timer(at, entry) => TickSound(m, at, entry);
    case Exec(command, entry) => if m.Booted() { ExecuteSound(m, command, entry); }
    case End(entry) => if m.Booted() { HaltSound(m, entry); }
  }

  /** Every run keeps the stacks sound, and once the base shells have been started, each terminal
      keeps one under its own number: the scheduler never starts them again. */
  ghost function Run(m: Model, es: seq<Event>): (r: Model)
    requires m.Sound()
    ensures r.Sound() && (m.Booted() ==> r.Booted())
    ensures r.Booted() ==> r.Live(1) && r.Live(2) && r.Live(3)
  {
    if es == [] then
      (if m.Booted() then BaseIsLive(m, 1); BaseIsLive(m, 2); BaseIsLive(m, 3); m else m)
    else
      var before := Run(m, es[..|es| - 1]);
      var r := Step(before, es[|es| - 1]);
      StepSound(before, es[|es| - 1]);
      if r.Booted() then BaseIsLive(r, 1); BaseIsLive(r, 2); BaseIsLive(r, 3); r else r
  }

  ghost predicate Quiet(es: seq<Event>) {
    forall e | e in es :: !e.Timer?
  }

  lemma StepIsLocal(m: Model, e: Event)
    requires m.Sound() && m.Booted() && !e.Timer?
    ensures Step(m, e).running == m.running && Step(m, e).saved == m.saved
    ensures forall u | 1 <= u <= TERMINALS && u != m.running :: Step(m, e).stacks[u] == m.stacks[u]
  {
    hide Model.Live, Model.Disjoint;
  }

  /** Between two ticks only the running terminal's stack changes. */
  lemma {:induction false} QuietRunIsLocal(m: Model, es: seq<Event>)
    requires m.Sound() && m.Booted() && Quiet(es)
    ensures Run(m, es).running == m.running && Run(m, es).saved == m.saved
    ensures forall u | 1 <= u <= TERMINALS && u != m.running :: Run(m, es).stacks[u] == m.stacks[u]
  {
    hide Step, Model.Sound, Model.Live;
    if es != [] {
      QuietRunIsLocal(m, es[..|es| - 1]);
      StepIsLocal(Run(m, es[..|es| - 1]), es[|es| - 1]);
    }
  }

  /** A terminal that is switched out at `at` is resumed two switches later, not before, on the
      same stack of processes and at exactly `at`, whatever the other terminals execute and halt
      in the meantime. */
  lemma ResumedWhereSwitchedOut(m: Model, at: Context, es1: seq<Event>, at1: Context, es2: seq<Event>,
      at2: Context, entry: Context)
    requires m.Sound() && m.Booted() && Quiet(es1) && Quiet(es2)
    ensures
      var t := m.running;
      var m1 := Run(m, [Timer(at, entry)]);
      var m2 := Run(m1, es1);
      var m3 := Run(m2, [Timer(at1, entry)]);
      var m4 := Run(m3, es2);
      var m5 := Run(m4, [Timer(at2, entry)]);
      && m2.running != t && m4.running != t && m5.running == t
      && m5.saved[t] == at && m5.stacks[t] == m.stacks[t]
  {
    hide Model.Live, Model.Disjoint;
    var m1 := Run(m, [Timer(at, entry)]);
    OneTick(m, at, entry);
    QuietRunIsLocal(m1, es1);
    var m2 := Run(m1, es1);
    OneTick(m2, at1, entry);
    var m3 := Run(m2, [Timer(at1, entry)]);
    QuietRunIsLocal(m3, es2);
    OneTick(Run(m3, es2), at2, entry);
  }

  lemma OneTick(m: Model, at: Context, entry: Context)
    requires m.Sound() && m.Booted()
    ensures Run(m, [Timer(at, entry)]) == m.(saved := m.saved[m.running := at], running := m.running % TERMINALS + 1)
  {
    hide Model.Live, Model.Disjoint;
    assert [Timer(at, entry)][..0] == [];
  }

  function Timers(es: seq<Event>): nat {
    if es == [] then 0 else Timers(es[..|es| - 1]) + if es[|es| - 1].Timer? then 1 else 0
  }

  /** Terminals take turns, one tick each: every terminal runs again after exactly three. */
  lemma {:induction false} RoundRobin(m: Model, es: seq<Event>)
    requires m.Sound() && m.Booted()
    ensures Run(m, es).running == (m.running - 1 + Timers(es)) % TERMINALS + 1
  {
    hide Model.Live, Model.Disjoint, Execute, Halt;
    if es != [] {
      var before, e := Run(m, es[..|es| - 1]), es[|es| - 1];
      RoundRobin(m, es[..|es| - 1]);
      if !e.Timer? {
        StepIsLocal(before, e);
      } else {
        NextTurn(m.running - 1 + Timers(es[..|es| - 1]));
      }
    }
  }

  lemma NextTurn(k: nat)
    ensures (k % TERMINALS + 1) % TERMINALS + 1 == (k + 1) % TERMINALS + 1
  {
  }

  /** Halting the process just started takes everything back, and its `entry` says where. */
  lemma HaltUndoesExecute(m: Model, command: seq<byte>, entry: Context, again: Context)
    requires m.Sound() && m.Booted() && m.FreeFrom(1) != 0
    ensures Execute(m, command, entry).Sound() && Execute(m, command, entry).Booted()
    ensures Execute(m, command, entry).Top(m.running) == Proc(m.FreeFrom(1), entry, command)
    ensures Halt(Execute(m, command, entry), again) == m
  {
    hide Model.Live, Model.Disjoint;
    ExecuteSound(m, command, entry);
    var n := Execute(m, command, entry);
    assert n.stacks[m.running][..|n.stacks[m.running]| - 1] == m.stacks[m.running];
    assert n.Pop(m.running).stacks == m.stacks;
  }
}
