// The real-time clock, shared by the terminals: the device interrupts at 1024 Hz, and each
// terminal counts interrupts up to a bound of its own. A terminal's process can look at its count
// only while the scheduler lets that terminal run.
module Rtc {
  import opened Bytes

  const MAX_FREQ := 1024
  const MIN_FREQ := 2
  const SUCCESS := 0

  /** What can happen: an interrupt of the device, a tick of the scheduler, or a call by the process
      that runs on terminal `t`. */
  datatype Event = Interrupt | Tick | Open(t: int) | Write(t: int, freq: int) | Return(t: int)

  /** Element 0 of each array is not used. */
  datatype Device = Device(count: seq<uint32>, bound: seq<nat>, running: int)
  {
    predicate Shaped() {
      |count| == TERMINALS + 1 && |bound| == TERMINALS + 1 && 0 <= running <= TERMINALS
    }

    /** A read on terminal `t` need not wait any longer, once its process runs. */
    predicate Due(t: int)
      requires Shaped() && 1 <= t <= TERMINALS
    {
      count[t] >= bound[t]
    }

    function SetCount(t: int, n: uint32): Device
      requires Shaped() && 0 <= t <= TERMINALS
    {
      this.(count := count[t := n])
    }
  }

  predicate IsRate(freq: int) {
    freq in {2, 4, 8, 16, 32, 64, 128, 256, 512, 1024}
  }

  /** A call by the process on terminal `t`. */
  predicate CallOf(e: Event, t: int) {
    !e.Interrupt? && !e.Tick? && e.t == t
  }

  predicate IsEvent(e: Event) {
    e.Interrupt? || e.Tick? || (1 <= e.t <= TERMINALS && (e.Write? ==> IsRate(e.freq)))
  }

  function Next(n: uint32): uint32 {
    (n + 1) % TWO_32
  }

  lemma NextBound(n: uint32)
    ensures Next(n) <= n + 1 && (n + 1 < TWO_32 ==> Next(n) == n + 1) && (n + 1 == TWO_32 ==> Next(n) == 0)
  {
  }

  function Step(d: Device, e: Event): (r: Device)
    requires d.Shaped() && IsEvent(e)
    ensures r.Shaped()
  {
    match e
    case Interrupt => d.(count := [d.count[0], Next(d.count[1]), Next(d.count[2]), Next(d.count[3])])
    case Tick => d.(running := NextTerminal(d.running))
    case Open(t) => d.SetCount(t, 0).(bound := d.bound[t := MAX_FREQ / MIN_FREQ])
    case Write(t, freq) => d.(bound := d.bound[t := MAX_FREQ / freq])
    case Return(t) => d.SetCount(t, 0)
  }

  /** What an event does to the count and the bound of terminal `t`. */
  lemma StepAt(d: Device, e: Event, t: int)
    requires d.Shaped() && IsEvent(e) && 1 <= t <= TERMINALS
    ensures e.Interrupt? ==> Step(d, e).count[t] == Next(d.count[t])
    ensures e == Return(t) ==> Step(d, e).count[t] == 0
    ensures e.Interrupt? || e == Return(t) ==> Step(d, e).bound[t] == d.bound[t]
    ensures !e.Interrupt? && !CallOf(e, t) ==>
              Step(d, e).count[t] == d.count[t] && Step(d, e).bound[t] == d.bound[t]
  {
  }

  /** An event treats a terminal the same way in devices that agree on it. */
  lemma StepAgrees(a: Device, b: Device, e: Event, t: int)
    requires a.Shaped() && b.Shaped() && IsEvent(e) && 1 <= t <= TERMINALS
    requires a.count[t] == b.count[t] && a.bound[t] == b.bound[t]
    ensures Step(a, e).count[t] == Step(b, e).count[t] && Step(a, e).bound[t] == Step(b, e).bound[t]
  {
  }

  predicate AreEvents(es: seq<Event>) {
    forall i | 0 <= i < |es| :: IsEvent(es[i])
  }

  function Run(d: Device, es: seq<Event>): (r: Device)
    requires d.Shaped() && AreEvents(es)
    ensures r.Shaped()
  {
    if es == [] then d else Step(Run(d, es[..|es| - 1]), es[|es| - 1])
  }

  /** A call is one of the terminal that runs, and a read returns only when it is due. */
  predicate CanHappen(d: Device, e: Event)
    requires d.Shaped() && IsEvent(e)
  {
    e.Interrupt? || e.Tick? || (e.t == d.running && (e.Return? ==> d.Due(e.t)))
  }

  /** A run that can happen. */
  predicate Possible(d: Device, es: seq<Event>)
    requires d.Shaped() && AreEvents(es)
  {
    es == [] || (Possible(d, es[..|es| - 1]) && CanHappen(Run(d, es[..|es| - 1]), es[|es| - 1]))
  }

  // Rates

  /** The test for a power of two in `rtc_write` and the test of the range. */
  predicate Accepts(freq: bv32) {
    freq & (freq - 1) == 0 && !(freq < 2 || freq > 1024)
  }

  /** The clock accepts exactly the powers of two from 2 to 1024. */
  lemma AcceptsRates(freq: bv32)
    ensures Accepts(freq) <==> IsRate(freq as int)
  {
    assert Accepts(freq) <==> freq in {2, 4, 8, 16, 32, 64, 128, 256, 512, 1024};
  }

  /** A rate and its bound give the frequency of the device. */
  lemma BoundOfRate(freq: int)
    requires IsRate(freq)
    ensures MAX_FREQ / freq * freq == MAX_FREQ && 1 <= MAX_FREQ / freq <= MAX_FREQ / MIN_FREQ
  {
  }

  // Terminals do not influence each other

  /** The events that concern terminal `t`. */
  function Own(es: seq<Event>, t: int): (r: seq<Event>)
    requires AreEvents(es)
    ensures AreEvents(r)
  {
    if es == [] then [] else
      var last := es[|es| - 1];
      Own(es[..|es| - 1], t) + if last.Interrupt? || CallOf(last, t) then [last] else []
  }

  /** What becomes of a terminal's count and bound depends only on the interrupts and on its own
      calls. */
  lemma {:induction false} TerminalsAreIndependent(d: Device, es: seq<Event>, t: int)
    requires d.Shaped() && AreEvents(es) && 1 <= t <= TERMINALS
    ensures Run(d, es).count[t] == Run(d, Own(es, t)).count[t]
    ensures Run(d, es).bound[t] == Run(d, Own(es, t)).bound[t]
  {
    hide Step;
    if es != [] {
      var front, last := es[..|es| - 1], es[|es| - 1];
      StepAt(Run(d, front), last, t);
      TerminalsAreIndependent(d, front, t);
      if last.Interrupt? || CallOf(last, t) {
        var own := Own(front, t) + [last];
        assert own[..|own| - 1] == Own(front, t);
        StepAgrees(Run(d, front), Run(d, Own(front, t)), last, t);
      } else {
        assert Own(front, t) + [] == Own(front, t);
      }
    }
  }

  // How fast reads return

  function Times(n: nat, b: nat): nat {
    n * b
  }

  lemma TimesNext(n: nat, b: nat)
    ensures Times(n + 1, b) == Times(n, b) + b && Times(0, b) == 0
  {
  }

  function Interrupts(es: seq<Event>): nat {
    if es == [] then 0 else Interrupts(es[..|es| - 1]) + if es[|es| - 1].Interrupt? then 1 else 0
  }

  function Returns(es: seq<Event>, t: int): nat {
    if es == [] then 0 else Returns(es[..|es| - 1], t) + if es[|es| - 1] == Return(t) then 1 else 0
  }

  /** The only calls on terminal `t` are reads. */
  predicate OnlyReads(es: seq<Event>, t: int) {
    forall i | 0 <= i < |es| && CallOf(es[i], t) :: es[i].Return?
  }

  /** The counted interrupts that the next return will use. */
  function Useful(d: Device, t: int): nat
    requires d.Shaped() && 1 <= t <= TERMINALS
  {
    Min(d.count[t], d.bound[t])
  }

  /** How many interrupts an event makes useless: one that comes while the terminal is already due
      is lost, and when the count wraps around, so is what had been counted. */
  function Wasted(d: Device, e: Event, t: int): nat
    requires d.Shaped() && 1 <= t <= TERMINALS
  {
    if !e.Interrupt? then 0
    else if d.count[t] == TWO_32 - 1 then Useful(d, t) + 1
    else if d.Due(t) then 1
    else 0
  }

  function Lost(d: Device, es: seq<Event>, t: int): nat
    requires d.Shaped() && AreEvents(es) && 1 <= t <= TERMINALS
  {
    if es == [] then 0
    else Lost(d, es[..|es| - 1], t) + Wasted(Run(d, es[..|es| - 1]), es[|es| - 1], t)
  }

  lemma UsefulStep(d: Device, e: Event, t: int)
    requires d.Shaped() && IsEvent(e) && 1 <= t <= TERMINALS && (CallOf(e, t) ==> e.Return?)
    requires e == Return(t) ==> d.Due(t)
    ensures Step(d, e).bound[t] == d.bound[t]
    ensures Useful(Step(d, e), t) + Wasted(d, e, t) + (if e == Return(t) then d.bound[t] else 0)
         == Useful(d, t) + if e.Interrupt? then 1 else 0
  {
    hide Step, Next;
    StepAt(d, e, t);
    NextBound(d.count[t]);
  }

  /** Every interrupt is accounted for, in every run in which a terminal only reads: it has been used
      for a return, it is lost, or it will be used for the next return. */
  lemma {:induction false} InterruptsAreConserved(d: Device, es: seq<Event>, t: int)
    requires d.Shaped() && AreEvents(es) && Possible(d, es) && 1 <= t <= TERMINALS && OnlyReads(es, t)
    ensures Run(d, es).bound[t] == d.bound[t]
    ensures Times(Returns(es, t), d.bound[t]) + Lost(d, es, t) + Useful(Run(d, es), t)
         == Useful(d, t) + Interrupts(es)
  {
    hide Times, Step, Wasted, Useful;
    TimesNext(0, d.bound[t]);
    if es != [] {
      var front, last := es[..|es| - 1], es[|es| - 1];
      InterruptsAreConserved(d, front, t);
      UsefulStep(Run(d, front), last, t);
      TimesNext(Returns(front, t), d.bound[t]);
    }
  }

  lemma PaidAtRate(n: nat, b: nat, k: nat, freq: nat)
    requires Times(n, b) <= k && b * freq == MAX_FREQ
    ensures n * MAX_FREQ <= k * freq
  {
    assert n * (b * freq) == (n * b) * freq;
  }

  lemma TimesMonotone(m: nat, n: nat, b: nat)
    requires m <= n
    ensures Times(m, b) <= Times(n, b)
  {
  }

  /** n reads on a terminal at the rate `freq` take at least n * 1024 / freq interrupts, counting
      those before the first read, whatever the other terminals do. */
  lemma RateLimit(d: Device, es: seq<Event>, t: int, freq: int)
    requires d.Shaped() && AreEvents(es) && Possible(d, es) && 1 <= t <= TERMINALS && OnlyReads(es, t)
    requires IsRate(freq) && d.bound[t] == MAX_FREQ / freq
    ensures Returns(es, t) * MAX_FREQ <= (d.count[t] + Interrupts(es)) * freq
  {
    hide Times, Returns, Interrupts, Possible, OnlyReads, Run, Lost;
    InterruptsAreConserved(d, es, t);
    BoundOfRate(freq);
    PaidAtRate(Returns(es, t), d.bound[t], d.count[t] + Interrupts(es), freq);
  }

  // When the rate is kept from the start

  /** From here on no run in which terminal `t` only reads goes faster than `freq`. */
  ghost predicate KeepsRate(d: Device, t: int, freq: int)
    requires d.Shaped() && 1 <= t <= TERMINALS
  {
    forall es | AreEvents(es) && Possible(d, es) && OnlyReads(es, t) ::
      Returns(es, t) * MAX_FREQ <= Interrupts(es) * freq
  }

  lemma RunNone(d: Device, es: seq<Event>)
    requires d.Shaped() && AreEvents(es)
    ensures Run(d, es[..0]) == d
  {
  }

  lemma RunNext(d: Device, es: seq<Event>, k: nat)
    requires d.Shaped() && AreEvents(es) && k < |es|
    ensures Run(d, es[..k + 1]) == Step(Run(d, es[..k]), es[k])
  {
    assert es[..k + 1][..k] == es[..k];
  }

  lemma ReturnResets(d: Device, t: int)
    requires d.Shaped() && 1 <= t <= TERMINALS
    ensures Step(d, Return(t)) == d.SetCount(t, 0)
  {
  }

  /** One more event at the end of a run. */
  lemma RunOne(d: Device, es: seq<Event>, e: Event, t: int)
    requires d.Shaped() && AreEvents(es) && Possible(d, es) && IsEvent(e) && CanHappen(Run(d, es), e)
    ensures AreEvents(es + [e]) && Possible(d, es + [e]) && Run(d, es + [e]) == Step(Run(d, es), e)
    ensures Interrupts(es + [e]) == Interrupts(es) + if e.Interrupt? then 1 else 0
    ensures Returns(es + [e], t) == Returns(es, t) + if e == Return(t) then 1 else 0
    ensures OnlyReads(es, t) && (CallOf(e, t) ==> e.Return?) ==> OnlyReads(es + [e], t)
  {
    hide CanHappen, Step;
    assert (es + [e])[..|es|] == es;
  }

  /** A run of `n` interrupts. */
  lemma WaitFor(d: Device, t: int, n: nat) returns (es: seq<Event>)
    requires d.Shaped() && 1 <= t <= TERMINALS && d.count[t] + n < TWO_32
    ensures AreEvents(es) && Possible(d, es) && OnlyReads(es, t) && Interrupts(es) == n && Returns(es, t) == 0
    ensures Run(d, es).count[t] == d.count[t] + n && Run(d, es).bound[t] == d.bound[t]
  {
    hide Step;
    es := [];
    var i := 0;
    while i < n
      invariant i <= n && AreEvents(es) && Possible(d, es) && OnlyReads(es, t)
      invariant Interrupts(es) == i && Returns(es, t) == 0
      invariant Run(d, es).count[t] == d.count[t] + i && Run(d, es).bound[t] == d.bound[t]
    {
      StepAt(Run(d, es), Interrupt, t);
      NextBound(Run(d, es).count[t]);
      RunOne(d, es, Interrupt, t);
      es := es + [Interrupt];
      i := i + 1;
    }
  }

  /** The same run, and then the scheduler's ticks until terminal `t` runs. */
  lemma TurnTo(d: Device, es: seq<Event>, t: int) returns (r: seq<Event>)
    requires d.Shaped() && AreEvents(es) && Possible(d, es) && OnlyReads(es, t) && 1 <= t <= TERMINALS
    ensures AreEvents(r) && Possible(d, r) && OnlyReads(r, t)
    ensures Interrupts(r) == Interrupts(es) && Returns(r, t) == Returns(es, t) && Run(d, r).running == t
    ensures Run(d, r).count[t] == Run(d, es).count[t] && Run(d, r).bound[t] == Run(d, es).bound[t]
  {
    hide Step, TurnsTo, Run;
    r := es;
    while Run(d, r).running != t
      invariant AreEvents(r) && Possible(d, r) && OnlyReads(r, t)
      invariant Interrupts(r) == Interrupts(es) && Returns(r, t) == Returns(es, t)
      invariant Run(d, r).count[t] == Run(d, es).count[t] && Run(d, r).bound[t] == Run(d, es).bound[t]
      decreases TurnsTo(Run(d, r).running, t)
    {
      TickStep(Run(d, r), t);
      RunOne(d, r, Tick, t);
      r := r + [Tick];
    }
  }

  lemma TickStep(d: Device, t: int)
    requires d.Shaped() && 1 <= t <= TERMINALS
    ensures Step(d, Tick).count == d.count && Step(d, Tick).bound == d.bound
    ensures d.running != t ==> TurnsTo(Step(d, Tick).running, t) < TurnsTo(d.running, t)
  {
  }

  /** How many ticks it takes until terminal `t` runs. */
  function TurnsTo(running: int, t: int): nat
    requires 0 <= running <= TERMINALS && 1 <= t <= TERMINALS
  {
    if running == 0 then TERMINALS + 1 else (t + TERMINALS - running) % TERMINALS
  }

  /** A terminal with a count above zero can return too early. */
  lemma EarlyReturn(d: Device, t: int, freq: int) returns (es: seq<Event>)
    requires d.Shaped() && 1 <= t <= TERMINALS && IsRate(freq) && d.bound[t] == MAX_FREQ / freq
    requires d.count[t] > 0
    ensures AreEvents(es) && Possible(d, es) && OnlyReads(es, t)
    ensures Returns(es, t) * MAX_FREQ > Interrupts(es) * freq
  {
    BoundOfRate(freq);
    var n := Max(0, d.bound[t] - d.count[t]);
    es := WaitFor(d, t, n);
    es := TurnTo(d, es, t);
    RunOne(d, es, Return(t), t);
    es := es + [Return(t)];
    assert n + 1 <= d.bound[t];
    ShortWait(n, d.bound[t], freq);
  }

  lemma ShortWait(n: nat, b: nat, freq: nat)
    requires n < b && b * freq == MAX_FREQ && freq > 0
    ensures n * freq < MAX_FREQ
  {
    PaidAtRate(1, b, b, freq);
    assert (n + 1) * freq <= b * freq;
  }

  /** The rate is kept from here on exactly when the count is 0. */
  lemma RateKeptIffReset(d: Device, t: int, freq: int)
    requires d.Shaped() && 1 <= t <= TERMINALS && IsRate(freq) && d.bound[t] == MAX_FREQ / freq
    ensures KeepsRate(d, t, freq) <==> d.count[t] == 0
  {
    hide Returns, Interrupts, Possible, OnlyReads;
    if d.count[t] == 0 {
      forall es | AreEvents(es) && Possible(d, es) && OnlyReads(es, t)
        ensures Returns(es, t) * MAX_FREQ <= Interrupts(es) * freq
      {
        RateLimit(d, es, t, freq);
      }
    } else {
      var es := EarlyReturn(d, t, freq);
    }
  }

  /** Setting a rate keeps the count: the rate is then kept exactly when nothing had been counted. */
  lemma WriteKeepsCount(d: Device, t: int, freq: int)
    requires d.Shaped() && 1 <= t <= TERMINALS && IsRate(freq)
    ensures KeepsRate(Step(d, Write(t, freq)), t, freq) <==> d.count[t] == 0
  {
    RateKeptIffReset(Step(d, Write(t, freq)), t, freq);
  }

  /** After opening the clock and setting any rate at once, that rate is kept. */
  lemma OpenThenWrite(d: Device, t: int, freq: int)
    requires d.Shaped() && 1 <= t <= TERMINALS && IsRate(freq)
    ensures KeepsRate(Step(Step(d, Open(t)), Write(t, freq)), t, freq)
  {
    WriteKeepsCount(Step(d, Open(t)), t, freq);
  }

  /** Opening the clock sets the rate to 2. */
  lemma OpenSetsLowestRate(d: Device, t: int)
    requires d.Shaped() && 1 <= t <= TERMINALS
    ensures KeepsRate(Step(d, Open(t)), t, 2) && Step(d, Open(t)).bound[t] * 2 == MAX_FREQ
  {
    RateKeptIffReset(Step(d, Open(t)), t, 2);
  }

  /** The first read after an open returns after 512 interrupts, and not before. */
  lemma FirstReturn(d: Device, es: seq<Event>, t: int)
    requires d.Shaped() && 1 <= t <= TERMINALS && AreEvents(es) && Possible(Step(d, Open(t)), es) && OnlyReads(es, t)
    requires Interrupts(es) < TWO_32
    ensures Returns(es, t) > 0 ==> Interrupts(es) >= 512
    ensures Returns(es, t) == 0 ==> (Run(Step(d, Open(t)), es).Due(t) <==> Interrupts(es) >= 512)
  {
    hide Times, Run, Possible, OnlyReads, Interrupts, Returns;
    var e := Step(d, Open(t));
    RateLimit(e, es, t, 2);
    if Returns(es, t) == 0 {
      CountsInterrupts(e, es, t);
    }
  }

  /** Until the first return every interrupt is counted. */
  lemma {:induction false} CountsInterrupts(d: Device, es: seq<Event>, t: int)
    requires d.Shaped() && 1 <= t <= TERMINALS && AreEvents(es) && OnlyReads(es, t) && Returns(es, t) == 0
    requires d.count[t] == 0 && Interrupts(es) < TWO_32
    ensures Run(d, es).count[t] == Interrupts(es) && Run(d, es).bound[t] == d.bound[t]
  {
    hide Step, Next;
    if es != [] {
      var front, last := es[..|es| - 1], es[|es| - 1];
      CountsInterrupts(d, front, t);
      StepAt(Run(d, front), last, t);
      NextBound(Run(d, front).count[t]);
    }
  }

  /** After any return of a read the rate is kept. */
  lemma ReturnThenRead(d: Device, t: int, freq: int)
    requires d.Shaped() && 1 <= t <= TERMINALS && IsRate(freq) && d.bound[t] == MAX_FREQ / freq
    ensures KeepsRate(Step(d, Return(t)), t, freq)
  {
    RateKeptIffReset(Step(d, Return(t)), t, freq);
  }

  // What a reader loses

  /** Nothing is lost exactly when no interrupt comes while the terminal is already due. */
  lemma {:induction false} NothingLost(d: Device, es: seq<Event>, t: int)
    requires d.Shaped() && AreEvents(es) && 1 <= t <= TERMINALS
    ensures Lost(d, es, t) == 0 <==> forall i | 0 <= i < |es| && es[i].Interrupt? ::
                                       !Run(d, es[..i]).Due(t) && Run(d, es[..i]).count[t] < TWO_32 - 1
  {
    hide Run, Device.Due;
    if es != [] {
      var front := es[..|es| - 1];
      NothingLost(d, front, t);
      assert forall i | 0 <= i < |front| :: front[i] == es[i] && front[..i] == es[..i];
    }
  }

  /** In each second, that is 1024 interrupts, a reader that starts at 0 returns at most `freq` times,
      and exactly that often if and only if no interrupt is lost and none is left over. */
  lemma ReadsPerSecond(d: Device, es: seq<Event>, t: int, freq: int, seconds: nat)
    requires d.Shaped() && AreEvents(es) && Possible(d, es) && 1 <= t <= TERMINALS && OnlyReads(es, t)
    requires IsRate(freq) && d.bound[t] == MAX_FREQ / freq && d.count[t] == 0
    requires Interrupts(es) == seconds * MAX_FREQ
    ensures Returns(es, t) <= seconds * freq
    ensures Returns(es, t) == seconds * freq <==> Lost(d, es, t) + Run(d, es).count[t] == 0
  {
    hide Times, Returns, Interrupts, Possible, OnlyReads, Run, Lost;
    InterruptsAreConserved(d, es, t);
    BoundOfRate(freq);
    WholeSeconds(Returns(es, t), d.bound[t], Lost(d, es, t) + Useful(Run(d, es), t), freq, seconds);
  }

  lemma WholeSeconds(n: nat, b: nat, rest: nat, freq: nat, seconds: nat)
    requires b * freq == MAX_FREQ && Times(n, b) + rest == seconds * MAX_FREQ
    ensures n <= seconds * freq && (n == seconds * freq <==> rest == 0)
  {
    var whole := seconds * freq;
    assert b > 0;
    assert Times(whole, b) == seconds * MAX_FREQ by {
      assert seconds * (b * freq) == (seconds * freq) * b;
    }
    if n < whole {
      TimesMonotone(n + 1, whole, b);
      TimesNext(n, b);
    } else if n > whole {
      TimesMonotone(whole + 1, n, b);
      TimesNext(whole, b);
    }
  }

  /** While a terminal does not run it cannot return: of the interrupts that come meanwhile, all but
      those that it still needed are lost. */
  lemma AwayLoses(d: Device, es: seq<Event>, t: int)
    requires d.Shaped() && AreEvents(es) && Possible(d, es) && 1 <= t <= TERMINALS
    requires forall i | 0 <= i < |es| :: Run(d, es[..i]).running != t
    ensures Lost(d, es, t) + d.bound[t] >= Interrupts(es) + Useful(d, t)
  {
    hide Times, Lost;
    NoCallsWhileAway(d, es, t);
    InterruptsAreConserved(d, es, t);
    TimesNext(0, d.bound[t]);
  }

  lemma {:induction false} NoCallsWhileAway(d: Device, es: seq<Event>, t: int)
    requires d.Shaped() && AreEvents(es) && Possible(d, es) && 1 <= t <= TERMINALS
    requires forall i | 0 <= i < |es| :: Run(d, es[..i]).running != t
    ensures OnlyReads(es, t) && Returns(es, t) == 0
  {
    hide Run;
    if es != [] {
      var front := es[..|es| - 1];
      assert forall i | 0 <= i < |front| :: front[..i] == es[..i];
      NoCallsWhileAway(d, front, t);
      assert es[..|es| - 1] == front && es == front + [es[|es| - 1]];
    }
  }

  /** A run taken apart. */
  lemma {:induction false} RunParts(d: Device, a: seq<Event>, b: seq<Event>, t: int)
    requires d.Shaped() && AreEvents(a + b) && 1 <= t <= TERMINALS
    ensures AreEvents(a) && AreEvents(b) && Run(d, a + b) == Run(Run(d, a), b)
    ensures Lost(d, a + b, t) == Lost(d, a, t) + Lost(Run(d, a), b, t)
    ensures Possible(d, a + b) ==> Possible(d, a) && Possible(Run(d, a), b)
    decreases |b|
  {
    hide Step, Wasted, CanHappen;
    assert forall i | 0 <= i < |a| :: (a + b)[i] == a[i];
    assert forall i | 0 <= i < |b| :: (a + b)[|a| + i] == b[i];
    if b == [] {
      assert a + b == a;
    } else {
      assert (a + b)[..|a + b| - 1] == a + b[..|b| - 1];
      RunParts(d, a, b[..|b| - 1], t);
    }
  }

  /** A reader does not keep its rate when, somewhere in the run, more interrupts come than its
      bound while other terminals run. */
  lemma PreemptedReaderFallsShort(d: Device, a: seq<Event>, b: seq<Event>, c: seq<Event>, t: int, freq: int,
      seconds: nat)
    requires d.Shaped() && AreEvents(a + b + c) && Possible(d, a + b + c) && 1 <= t <= TERMINALS
    requires OnlyReads(a + b + c, t) && IsRate(freq) && d.bound[t] == MAX_FREQ / freq && d.count[t] == 0
    requires Interrupts(a + b + c) == seconds * MAX_FREQ
    requires AreEvents(a) && AreEvents(b) && forall i | 0 <= i < |b| :: Run(Run(d, a), b[..i]).running != t
    requires Interrupts(b) > MAX_FREQ / freq
    ensures Returns(a + b + c, t) < seconds * freq
  {
    hide Run, Lost, Possible, Returns, Interrupts;
    RunParts(d, a + b, c, t);
    RunParts(d, a, b, t);
    assert OnlyReads(a, t) by {
      assert forall i | 0 <= i < |a| :: (a + b + c)[i] == a[i];
    }
    InterruptsAreConserved(d, a, t);
    AwayLoses(Run(d, a), b, t);
    ReadsPerSecond(d, a + b + c, t, freq, seconds);
  }

  /** Such a run: a reader is switched out at once, and a second passes. */
  lemma SecondAway(d: Device, t: int, freq: int) returns (b: seq<Event>)
    requires d.Shaped() && d.running == t && 1 <= t <= TERMINALS
    requires IsRate(freq) && d.bound[t] == MAX_FREQ / freq && d.count[t] == 0
    ensures AreEvents([Tick] + b) && Possible(d, [Tick] + b) && OnlyReads([Tick] + b, t)
    ensures Interrupts([Tick] + b) == MAX_FREQ && Returns([Tick] + b, t) < freq
  {
    hide Step, Run, Possible, Returns, Interrupts;
    NothingYet(d, t);
    RunOne(d, [], Tick, t);
    assert [] + [Tick] == [Tick];
    var es := [Tick];
    b := [];
    while |b| < MAX_FREQ
      invariant es == [Tick] + b && |b| <= MAX_FREQ && AreEvents(es) && Possible(d, es) && OnlyReads(es, t)
      invariant Interrupts(es) == |b| && Returns(es, t) == 0
      decreases MAX_FREQ - |b|
    {
      RunOne(d, es, Interrupt, t);
      es, b := es + [Interrupt], b + [Interrupt];
    }
  }

  lemma NothingYet(d: Device, t: int)
    requires d.Shaped()
    ensures Possible(d, []) && Run(d, []) == d && Interrupts([]) == 0 && Returns([], t) == 0
  {
  }

  // The driver

  class Driver {
    const counter: array<uint32>
    const upperbound: array<nat>
    var runningTerm: int

    ghost predicate Valid()
      reads this
    {
      counter.Length == TERMINALS + 1 && upperbound.Length == TERMINALS + 1 && 0 <= runningTerm <= TERMINALS
    }

    ghost function ToDevice(): (d: Device)
      requires Valid()
      reads this, counter, upperbound
      ensures d.Shaped()
    {
      Device(counter[..], upperbound[..], runningTerm)
    }

    /** `rtc_init`. */
    constructor ()
      ensures Valid() && fresh(counter) && fresh(upperbound) && runningTerm == 0
      ensures forall t | 1 <= t <= TERMINALS ::
                ToDevice().count[t] == 0 && ToDevice().bound[t] == MAX_FREQ / MIN_FREQ
    {
      counter := new uint32[TERMINALS + 1](_ => 0);
      upperbound := new nat[TERMINALS + 1](_ => MAX_FREQ / MIN_FREQ);
      runningTerm := 0;
    }

    /** `rtc_interrupt`. */
    method OnInterrupt()
      requires Valid()
      modifies counter
      ensures ToDevice() == Step(old(ToDevice()), Interrupt)
    {
      var i := 1;
      while i < 4
        invariant 1 <= i <= 4
        invariant forall t | 0 <= t < 4 ::
                    counter[t] == if 1 <= t < i then Next(old(counter[t])) else old(counter[t])
      {
        counter[i] := (counter[i] + 1) % TWO_32;
        i := i + 1;
      }
    }

    /** `rtc_open`. */
    method RtcOpen() returns (r: int)
      requires Valid() && runningTerm != 0
      modifies counter, upperbound
      ensures r == SUCCESS && ToDevice() == Step(old(ToDevice()), Open(runningTerm))
    {
      upperbound[runningTerm] := MAX_FREQ / MIN_FREQ;
      counter[runningTerm] := 0;
      return SUCCESS;
    }

    /** `rtc_write` of the 4 byte number `freq`. */
    method RtcWrite(fd: int, freq: bv32, nbytes: int) returns (r: int)
      requires Valid() && runningTerm != 0
      modifies upperbound
      ensures r == if nbytes == 4 && FD_MIN <= fd <= FD_MAX && IsRate(freq as int) then SUCCESS else FAIL
      ensures ToDevice() == if r == SUCCESS then Step(old(ToDevice()), Write(runningTerm, freq as int))
                            else old(ToDevice())
    {
      AcceptsRates(freq);
      if nbytes != 4 {
        return FAIL;
      }
      if fd < FD_MIN || fd > FD_MAX {
        return FAIL;
      }
      if freq & (freq - 1) != 0 {
        return FAIL;
      }
      if freq < 2 || freq > 1024 {
        return FAIL;
      }
      upperbound[runningTerm] := MAX_FREQ / (freq as int);
      return SUCCESS;
    }

    /** Something happens while a process waits. */
    method Happen(e: Event)
      requires Valid() && IsEvent(e)
      modifies this, counter, upperbound
      ensures Valid() && ToDevice() == Step(old(ToDevice()), e)
    {
      match e
      case Interrupt =>
        OnInterrupt();
      case Tick =>
        runningTerm := runningTerm % TERMINALS + 1;
      case Open(t) =>
        upperbound[t] := MAX_FREQ / MIN_FREQ;
        counter[t] := 0;
      case Write(t, freq) =>
        upperbound[t] := MAX_FREQ / freq;
      case Return(t) =>
        counter[t] := 0;
    }

    /** `rtc_read` on terminal `t`, which runs when it is called, while `es` happen one by one. The
        busy loop looks only while its terminal runs: before event `i` if `looks[i]`. It returns at
        the first look that finds the terminal due, before event `k`; if there is none, it still
        waits when all have happened. */
    method RtcRead(t: int, fd: int, es: seq<Event>, looks: seq<bool>) returns (r: Option<int>, k: nat)
      requires Valid() && t == runningTerm != 0 && AreEvents(es) && |looks| == |es| + 1
      modifies this, counter, upperbound
      ensures Valid()
      ensures !(FD_MIN <= fd <= FD_MAX) ==> r == Some(FAIL) && k == 0 && ToDevice() == old(ToDevice())
      ensures FD_MIN <= fd <= FD_MAX ==>
                && r in {None, Some(SUCCESS)} && k <= |es|
                && (forall i | 0 <= i < k :: !LookFindsDue(Run(old(ToDevice()), es[..i]), t, looks[i]))
                && var d := Run(old(ToDevice()), es[..k]);
                if r == None then k == |es| && !LookFindsDue(d, t, looks[k]) && ToDevice() == d
                else LookFindsDue(d, t, looks[k]) && CanHappen(d, Return(t)) && ToDevice() == Step(d, Return(t))
    {
      hide Step, Run;
      k := 0;
      if fd < FD_MIN || fd > FD_MAX {
        return Some(FAIL), 0;
      }
      RunNone(old(ToDevice()), es);
      while !looks[k] || runningTerm != t || counter[runningTerm] < upperbound[runningTerm]
        invariant Valid() && k <= |es| && ToDevice() == Run(old(ToDevice()), es[..k])
        invariant forall i | 0 <= i < k :: !LookFindsDue(Run(old(ToDevice()), es[..i]), t, looks[i])
        decreases |es| - k
      {
        if k == |es| {
          return None, k;
        }
        RunNext(old(ToDevice()), es, k);
        Happen(es[k]);
        k := k + 1;
      }
      ReturnResets(ToDevice(), t);
      counter[runningTerm] := 0;
      r := Some(SUCCESS);
    }
  }

  /** The busy loop looks at the count, which it can do only while its terminal runs, and ends. */
  predicate LookFindsDue(d: Device, t: int, looks: bool)
    requires d.Shaped() && 1 <= t <= TERMINALS
  {
    looks && d.running == t && d.Due(t)
  }
}
