// Three terminals at one desk: which of them the keyboard and the screen belong to, what each
// key means, and how writes, reads and ticks reach them.
module Desk {
  import opened Bytes
  import opened Paper
  import opened EditLine

  const MAX_INPUT_COUNT := 100000

  const LEFT_SHIFT_PRESSED := 0x2A
  const LEFT_SHIFT_RELEASED := 0xAA
  const RIGHT_SHIFT_PRESSED := 0x36
  const RIGHT_SHIFT_RELEASED := 0xB6
  const CTRL_PRESSED := 0x1D
  const CTRL_RELEASED := 0x9D
  const CAPSLOCK_PRESSED := 0x3A
  const CAPSLOCK_RELEASED := 0xBA
  const ALT_PRESSED := 0x38
  const ALT_RELEASED := 0xB8
  const F1 := 0x3B
  const F3 := 0x3D

  const BACKSPACE: byte := 8
  const LOWER_A: byte := 97
  const LOWER_L: byte := 108
  const LOWER_Z: byte := 122
  const UPPER_L: byte := 76

  /** The characters of a scan code, without and with shift. */
  function Scancode(key: byte): (char, char) {
    match key
    case 0x02 => ('1', '!') case 0x03 => ('2', '@') case 0x04 => ('3', '#') case 0x05 => ('4', '$')
    case 0x06 => ('5', '%') case 0x07 => ('6', '^') case 0x08 => ('7', '&') case 0x09 => ('8', '*')
    case 0x0A => ('9', '(') case 0x0B => ('0', ')') case 0x0C => ('-', '_') case 0x0D => ('=', '+')
    case 0x0E => ('\U{8}', '\U{8}') case 0x0F => ('\t', '\t') case 0x10 => ('q', 'Q') case 0x11 => ('w', 'W')
    case 0x12 => ('e', 'E') case 0x13 => ('r', 'R') case 0x14 => ('t', 'T') case 0x15 => ('y', 'Y')
    case 0x16 => ('u', 'U') case 0x17 => ('i', 'I') case 0x18 => ('o', 'O') case 0x19 => ('p', 'P')
    case 0x1A => ('[', '{') case 0x1B => (']', '}') case 0x1C => ('\n', '\n') case 0x1E => ('a', 'A')
    case 0x1F => ('s', 'S') case 0x20 => ('d', 'D') case 0x21 => ('f', 'F') case 0x22 => ('g', 'G')
    case 0x23 => ('h', 'H') case 0x24 => ('j', 'J') case 0x25 => ('k', 'K') case 0x26 => ('l', 'L')
    case 0x27 => (';', ':') case 0x28 => ('\'', '\"') case 0x29 => ('`', '~') case 0x2B => ('\\', '|')
    case 0x2C => ('z', 'Z') case 0x2D => ('x', 'X') case 0x2E => ('c', 'C') case 0x2F => ('v', 'V')
    case 0x30 => ('b', 'B') case 0x31 => ('n', 'N') case 0x32 => ('m', 'M') case 0x33 => (',', '<')
    case 0x34 => ('.', '>') case 0x35 => ('/', '?') case 0x39 => (' ', ' ')
    case _ => ('\0', '\0')
  }

  function Low(key: byte): byte {
    (Scancode(key).0 as int) % 256
  }

  function High(key: byte): byte {
    (Scancode(key).1 as int) % 256
  }

  lemma NoReturnKey(key: byte)
    ensures Low(key) != RETURN && High(key) != RETURN
  {
  }

  /** `view[t]` is terminal t, for t from 1 to 3; `wake[t]` says that a line was entered on it.
      One terminal is on display and owns the keyboard; one runs. `writeOk` is the gate on
      output of the terminal on display. */
  datatype Desk = Desk(view: seq<Term>, wake: seq<bool>, display: int, running: int,
                       shift: bool, ctrl: bool, alt: bool, caps: bool, capsCount: nat, writeOk: bool)
  {
    ghost predicate Ok() {
      && |view| == TERMINALS + 1 && |wake| == TERMINALS + 1
      && 1 <= display <= TERMINALS && 0 <= running <= TERMINALS
      && forall t | 1 <= t <= TERMINALS :: view[t].Fits()
    }

    function On(t: int, op: Op): (r: Desk)
      requires Ok() && 1 <= t <= TERMINALS
      ensures r.Ok() && r == this.(view := r.view)
    {
      this.(view := view[t := Apply(op, view[t])])
    }

    function KeysUp(): Desk {
      this.(shift := false, ctrl := false, alt := false, caps := false, capsCount := 0)
    }
  }

  // Keys

  /** What a shift, control, alt or caps lock key does; other keys do nothing here. */
  function Modifier(d: Desk, key: byte): (r: Desk)
    ensures r.view == d.view && r.wake == d.wake && r.display == d.display && r.running == d.running
    ensures r.writeOk == d.writeOk
  {
    match key
    case 0x2A => d.(shift := true)
    case 0x36 => d.(shift := true)
    case 0xAA => d.(shift := false)
    case 0xB6 => d.(shift := false)
    case 0x1D => d.(ctrl := true)
    case 0x9D => d.(ctrl := false)
    case 0x3A => d.(capsCount := d.capsCount + 1, caps := true)
    case 0xBA => d.(caps := d.capsCount % 2 == 1)
    case 0x38 => d.(alt := true)
    case 0xB8 => d.(alt := false)
    case _ => d
  }

  predicate IsModifier(key: byte) {
    key in {LEFT_SHIFT_PRESSED, LEFT_SHIFT_RELEASED, RIGHT_SHIFT_PRESSED, RIGHT_SHIFT_RELEASED,
            CTRL_PRESSED, CTRL_RELEASED, CAPSLOCK_PRESSED, CAPSLOCK_RELEASED, ALT_PRESSED, ALT_RELEASED}
  }

  /** After too many presses of caps lock everything about the keyboard is reset. */
  predicate Overflows(d: Desk, key: byte) {
    Modifier(d, key).capsCount > MAX_INPUT_COUNT
  }

  function FunctionKey(d: Desk, key: byte): (r: Desk)
    requires d.Ok()
    ensures r.Ok() && r.display == d.display
  {
    var m := Modifier(d, key);
    if Overflows(d, key) then m.KeysUp().On(d.display, Forget) else m
  }

  predicate IsSwitch(d: Desk, key: byte) {
    d.alt && F1 <= key <= F3
  }

  /** Alt and F1, F2 or F3 put another terminal on display. */
  function Switch(d: Desk, next: int): (r: Desk)
    requires d.Ok() && 1 <= next <= TERMINALS
    ensures r.Ok()
  {
    if next == d.display then d
    else d.(display := next, wake := d.wake[d.display := false], writeOk := false)
  }

  /** What a key means to the terminal on display. */
  function Meaning(d: Desk, key: byte): Op
    requires d.Ok()
  {
    if d.view[d.display].n == FULL && Low(key) != NEWLINE && Low(key) != BACKSPACE then Nothing
    else if key <= 1 || key > 0x39 then Nothing
    else MeaningOf(d, if d.shift then High(key) else Low(key), High(key))
  }

  /** What a character means; `capital` is its shifted form. */
  function MeaningOf(d: Desk, value: byte, capital: byte): Op
    requires d.Ok()
  {
    if value == NEWLINE then EnterKey
    else if d.ctrl && (value == LOWER_L || value == UPPER_L) then ClearKey(Banner(d.display))
    else if value == BACKSPACE then EraseKey
    else if value == TAB then TabKey
    else if LOWER_A <= value <= LOWER_Z && d.caps then Type(capital)
    else Type(value)
  }

  /** What is printed on a screen that the user clears. */
  function Banner(display: int): (r: seq<byte>)
    requires 1 <= display <= TERMINALS
    ensures |r| < COLS
  {
    Ascii("Current Terminal:") + [48 + display] + Ascii(" \n391OS> ")
  }

  function Press(d: Desk, key: byte): (r: Desk)
    requires d.Ok()
    ensures r.Ok()
  {
    Obey(d, Meaning(d, key))
  }

  function Obey(d: Desk, op: Op): (r: Desk)
    requires d.Ok()
    ensures r.Ok()
  {
    var e := d.On(d.display, op);
    if op.EnterKey? then e.(wake := d.wake[d.display := true])
    else if op.ClearKey? then e.KeysUp()
    else e
  }

  /** The keyboard interrupt. `locked` says that the program on display takes no typing. */
  function KeyStep(d: Desk, key: byte, locked: bool): (r: Desk)
    requires d.Ok()
    ensures r.Ok()
  {
    var e := FunctionKey(d.(writeOk := true), key);
    if IsModifier(key) then e
    else if IsSwitch(e, key) then Switch(e, key - F1 + 1)
    else if locked then e
    else Press(e, key)
  }

  // Writes, reads and ticks

  /** Output of the terminal on display passes when a long task runs there or the gate is open. */
  predicate Passes(d: Desk, longTask: bool) {
    d.display != d.running || longTask || d.writeOk
  }

  function WriteStep(d: Desk, text: seq<byte>, longTask: bool): (r: Desk)
    requires d.Ok() && d.running != 0
    ensures r.Ok()
  {
    if Passes(d, longTask) then d.On(d.running, Print(text)) else d
  }

  /** A read starts by waiting for a line on the terminal on display. */
  function ReadStart(d: Desk): (r: Desk)
    requires d.Ok()
    ensures r.Ok()
  {
    d.(wake := d.wake[d.display := false])
  }

  /** The waiting read can go on. */
  predicate CanRead(d: Desk)
    requires d.Ok()
  {
    d.wake[d.display] && d.running == d.display
  }

  datatype Event =
    | Key(key: byte, locked: bool)
    | Write(text: seq<byte>, longTask: bool)
    | AskToRead
    | FinishRead
    | Tick

  /** An event that cannot happen leaves everything as it is. */
  function Step(d: Desk, e: Event): (r: Desk)
    requires d.Ok()
    ensures r.Ok()
  {
    match e
    case Key(key, locked) => KeyStep(d, key, locked)
    case Write(text, longTask) => if d.running == 0 then d else WriteStep(d, text, longTask)
    case AskToRead => ReadStart(d)
    case FinishRead => if CanRead(d) then d.On(d.display, Drain) else d
    case Tick => d.(running := d.running % TERMINALS + 1)
  }

  function Run(d: Desk, es: seq<Event>): (r: Desk)
    requires d.Ok()
    ensures r.Ok()
  {
    if es == [] then d else Step(Run(d, es[..|es| - 1]), es[|es| - 1])
  }

  // Independence

  /** What an event does to terminal `t`: a few operations of its own, usually none. */
  function OpsOf(d: Desk, e: Event, t: int): seq<Op>
    requires d.Ok()
  {
    match e
    case Key(key, locked) =>
      if t != d.display then []
      else
        var f := FunctionKey(d.(writeOk := true), key);
        (if Overflows(d.(writeOk := true), key) then [Forget] else [])
        + (if IsModifier(key) || IsSwitch(f, key) || locked then [] else [Meaning(f, key)])
    case Write(text, longTask) => if t == d.running != 0 && Passes(d, longTask) then [Print(text)] else []
    case FinishRead => if t == d.display && CanRead(d) then [Drain] else []
    case _ => []
  }

  function OpsFor(d: Desk, es: seq<Event>, t: int): seq<Op>
    requires d.Ok()
  {
    if es == [] then []
    else OpsFor(d, es[..|es| - 1], t) + OpsOf(Run(d, es[..|es| - 1]), es[|es| - 1], t)
  }

  lemma ApplyAllOne(ops: seq<Op>, op: Op, t: Term)
    requires t.Fits()
    ensures ApplyAll(ops + [op], t) == Apply(op, ApplyAll(ops, t))
  {
    assert (ops + [op])[..|ops|] == ops;
  }

  lemma {:induction false} ApplyAllConcat(a: seq<Op>, b: seq<Op>, t: Term)
    requires t.Fits()
    ensures ApplyAll(a + b, t) == ApplyAll(b, ApplyAll(a, t))
  {
    if b == [] {
      assert a + b == a;
    } else {
      ApplyAllConcat(a, b[..|b| - 1], t);
      assert (a + b)[..|a + b| - 1] == a + b[..|b| - 1];
    }
  }

  lemma ApplyAllShort(a: Op, b: Op, t: Term)
    requires t.Fits()
    ensures ApplyAll([], t) == t && ApplyAll([a], t) == Apply(a, t)
    ensures ApplyAll([a, b], t) == Apply(b, Apply(a, t))
  {
    ApplyAllOne([], a, t);
    ApplyAllOne([a], b, t);
    assert [] + [a] == [a] && [a] + [b] == [a, b];
  }

  lemma FunctionKeyIsLocal(d: Desk, key: byte, t: int)
    requires d.Ok() && 1 <= t <= TERMINALS
    ensures
      var ops := if t == d.display && Overflows(d, key) then [Forget] else [];
      FunctionKey(d, key).view[t] == ApplyAll(ops, d.view[t])
  {
    hide Apply, ApplyAll, Overflows;
    ApplyAllShort(Forget, Nothing, d.view[t]);
  }

  lemma ObeyIsLocal(d: Desk, op: Op, t: int)
    requires d.Ok() && 1 <= t <= TERMINALS
    ensures Obey(d, op).view == d.On(d.display, op).view
    ensures Obey(d, op).view[t] == if t == d.display then Apply(op, d.view[t]) else d.view[t]
  {
    hide Apply;
  }

  lemma PressIsLocal(d: Desk, key: byte, t: int)
    requires d.Ok() && 1 <= t <= TERMINALS
    ensures Press(d, key).view[t] == if t == d.display then Apply(Meaning(d, key), d.view[t]) else d.view[t]
  {
    hide Apply, Meaning, Obey;
    ObeyIsLocal(d, Meaning(d, key), t);
  }

  lemma KeyIsLocal(d: Desk, key: byte, locked: bool, t: int)
    requires d.Ok() && 1 <= t <= TERMINALS
    ensures KeyStep(d, key, locked).view[t] == ApplyAll(OpsOf(d, Key(key, locked), t), d.view[t])
  {
    hide Apply, ApplyAll, Meaning, Press, FunctionKey, Overflows, IsModifier, IsSwitch;
    var u := d.(writeOk := true);
    var f := FunctionKey(u, key);
    FunctionKeyIsLocal(u, key, t);
    PressIsLocal(f, key, t);
    var first := if t == d.display && Overflows(u, key) then [Forget] else [];
    if t != d.display || IsModifier(key) || IsSwitch(f, key) || locked {
      assert OpsOf(d, Key(key, locked), t) == first;
    } else {
      assert OpsOf(d, Key(key, locked), t) == first + [Meaning(f, key)];
      ApplyAllOne(first, Meaning(f, key), d.view[t]);
    }
  }

  lemma WriteIsLocal(d: Desk, text: seq<byte>, longTask: bool, t: int)
    requires d.Ok() && 1 <= t <= TERMINALS
    ensures Step(d, Write(text, longTask)).view[t] == ApplyAll(OpsOf(d, Write(text, longTask), t), d.view[t])
  {
    hide Apply, ApplyAll;
    ApplyAllShort(Print(text), Nothing, d.view[t]);
  }

  lemma ReadIsLocal(d: Desk, t: int)
    requires d.Ok() && 1 <= t <= TERMINALS
    ensures Step(d, FinishRead).view[t] == ApplyAll(OpsOf(d, FinishRead, t), d.view[t])
  {
    hide Apply, ApplyAll;
    ApplyAllShort(Drain, Nothing, d.view[t]);
  }

  lemma OtherIsLocal(d: Desk, e: Event, t: int)
    requires d.Ok() && 1 <= t <= TERMINALS && (e.AskToRead? || e.Tick?)
    ensures Step(d, e).view[t] == ApplyAll(OpsOf(d, e, t), d.view[t])
  {
  }

  lemma StepIsLocal(d: Desk, e: Event, t: int)
    requires d.Ok() && 1 <= t <= TERMINALS
    ensures Step(d, e).view[t] == ApplyAll(OpsOf(d, e, t), d.view[t])
  {
    hide Apply, ApplyAll, KeyStep, OpsOf;
    match e
    case Key(key, locked) => KeyIsLocal(d, key, locked, t);
    case Write(text, longTask) => WriteIsLocal(d, text, longTask, t);
    case FinishRead => ReadIsLocal(d, t);
    case _ => OtherIsLocal(d, e, t);
  }

  /** Over every run, a terminal is changed by the operations that reach it and by nothing else:
      text printed by the programs that run on it, keys typed while it is on display, and reads of
      its line. Which writes and reads get through depends on the whole run; the sections on the
      gate and on waking say how. */
  lemma {:induction false} ChangedOnlyByItsOps(d: Desk, es: seq<Event>, t: int)
    requires d.Ok() && 1 <= t <= TERMINALS
    ensures Run(d, es).view[t] == ApplyAll(OpsFor(d, es, t), d.view[t])
  {
    hide Apply, ApplyAll, Step, OpsOf;
    if es == [] {
      ApplyAllShort(Nothing, Nothing, d.view[t]);
    } else {
      var front := es[..|es| - 1];
      ChangedOnlyByItsOps(d, front, t);
      StepIsLocal(Run(d, front), es[|es| - 1], t);
      ApplyAllConcat(OpsFor(d, front, t), OpsOf(Run(d, front), es[|es| - 1], t), d.view[t]);
    }
  }

  /** Switching changes none of the three terminals. */
  lemma SwitchKeepsTerminals(d: Desk, key: byte, locked: bool)
    requires d.Ok() && d.alt && F1 <= key <= F3 && d.capsCount <= MAX_INPUT_COUNT
    ensures KeyStep(d, key, locked).view == d.view && KeyStep(d, key, locked).display == key - F1 + 1
  {
  }

  /** A write reaches its own terminal in the same way on display and in the background. */
  lemma WriteIsTheSameEverywhere(d: Desk, e: Desk, text: seq<byte>, longTask: bool)
    requires d.Ok() && e.Ok() && d.running == e.running != 0 && d.view[d.running] == e.view[e.running]
    requires d.display == d.running && Passes(d, longTask)
    requires e.display != e.running
    ensures WriteStep(d, text, longTask).view[d.running] == WriteStep(e, text, longTask).view[e.running]
    ensures forall t | 1 <= t <= TERMINALS && t != d.running :: WriteStep(d, text, longTask).view[t] == d.view[t]
    ensures forall t | 1 <= t <= TERMINALS && t != e.running :: WriteStep(e, text, longTask).view[t] == e.view[t]
  {
  }

  lemma MeaningTypesNoBreak(d: Desk, key: byte)
    requires d.Ok() && Meaning(d, key).Type?
    ensures Edits(Meaning(d, key))
  {
    hide Scancode;
    CapitalsAreNoBreaks(key);
    NoReturnKey(key);
  }

  /** No event types a newline, a carriage return or a tab into a line, so the lemmas on editing
      and on reading cover every run. */
  lemma {:induction false} TypedKeysAreNoBreaks(d: Desk, es: seq<Event>, t: int)
    requires d.Ok()
    ensures forall op | op in OpsFor(d, es, t) && op.Type? :: Edits(op)
  {
    hide Meaning, FunctionKey, Run, Edits, Overflows, IsModifier, IsSwitch;
    if es != [] {
      TypedKeysAreNoBreaks(d, es[..|es| - 1], t);
      var before, e := Run(d, es[..|es| - 1]), es[|es| - 1];
      if e.Key? {
        var f := FunctionKey(before.(writeOk := true), e.key);
        if Meaning(f, e.key).Type? {
          MeaningTypesNoBreak(f, e.key);
        }
      }
    }
  }

  lemma CapitalsAreNoBreaks(key: byte)
    ensures LOWER_A <= Low(key) <= LOWER_Z ==> 65 <= High(key) <= 90
    ensures !(LOWER_A <= High(key) <= LOWER_Z)
  {
  }

  // Runs taken apart

  lemma RunOne(d: Desk, es: seq<Event>, e: Event)
    requires d.Ok()
    ensures Run(d, es + [e]) == Step(Run(d, es), e) && Run(d, []) == d
  {
    assert (es + [e])[..|es|] == es;
  }

  lemma RunTwo(d: Desk, e: Event, f: Event)
    requires d.Ok()
    ensures Run(d, [e]) == Step(d, e) && Run(d, [e, f]) == Step(Step(d, e), f)
  {
    hide Step;
    RunOne(d, [], e);
    RunOne(d, [e], f);
    assert [] + [e] == [e] && [e] + [f] == [e, f];
  }

  lemma RunPrefix(d: Desk, es: seq<Event>, n: nat)
    requires d.Ok() && 0 < n <= |es|
    ensures Run(d, es[..n]) == Step(Run(d, es[..n - 1]), es[n - 1])
  {
    hide Step;
    assert es[..n][..n - 1] == es[..n - 1];
  }

  // What other terminals print

  ghost predicate SameLine(a: Term, b: Term) {
    a.buf == b.buf && a.n == b.n && a.count == b.count
  }

  /** Two desks that differ at most in what has been printed on terminals other than `t`. */
  ghost predicate SameButOutput(d: Desk, e: Desk, t: int)
    ensures SameButOutput(d, e, t) ==>
              d.Ok() && e.Ok() && 1 <= t <= TERMINALS && d.view[t] == e.view[t] && e == d.(view := e.view)
  {
    && d.Ok() && e.Ok() && 1 <= t <= TERMINALS
    && d.view[t] == e.view[t] && e == d.(view := e.view)
    && forall u | 1 <= u <= TERMINALS :: SameLine(d.view[u], e.view[u])
  }

  lemma ApplyToLine(op: Op, a: Term, b: Term)
    requires a.Fits() && b.Fits() && SameLine(a, b)
    ensures SameLine(Apply(op, a), Apply(op, b))
  {
    hide Put, PutAll, EraseAll;
  }

  lemma PrintKeepsLine(text: seq<byte>, a: Term)
    requires a.Fits()
    ensures SameLine(Apply(Print(text), a), a)
  {
  }

  lemma OnSame(d: Desk, e: Desk, t: int, u: int, op: Op)
    requires SameButOutput(d, e, t) && 1 <= u <= TERMINALS
    ensures SameButOutput(d.On(u, op), e.On(u, op), t)
  {
    hide Apply, SameLine;
    ApplyToLine(op, d.view[u], e.view[u]);
  }

  /** What happens to the rest of the desk happens to both. */
  lemma RestSame(d: Desk, e: Desk, t: int, f: Desk)
    requires SameButOutput(d, e, t) && f.view == d.view && f.Ok()
    ensures SameButOutput(f, f.(view := e.view), t)
  {
    hide SameLine;
  }

  lemma ModifierView(d: Desk, view: seq<Term>, key: byte)
    ensures Modifier(d.(view := view), key) == Modifier(d, key).(view := view)
  {
    match key
    case 0x2A =>
    case 0x36 =>
    case 0xAA =>
    case 0xB6 =>
    case 0x1D =>
    case 0x9D =>
    case 0x3A =>
    case 0xBA =>
    case 0x38 =>
    case 0xB8 =>
    case _ =>
  }

  lemma FunctionKeySame(d: Desk, e: Desk, t: int, key: byte)
    requires SameButOutput(d, e, t)
    ensures SameButOutput(FunctionKey(d, key), FunctionKey(e, key), t)
  {
    hide Apply, SameButOutput, Modifier;
    var m := Modifier(d, key);
    ModifierView(d, e.view, key);
    RestSame(d, e, t, m);
    RestSame(d, e, t, m.KeysUp());
    OnSame(m.KeysUp(), m.KeysUp().(view := e.view), t, d.display, Forget);
  }

  lemma SwitchSame(d: Desk, e: Desk, t: int, next: int)
    requires SameButOutput(d, e, t) && 1 <= next <= TERMINALS
    ensures SameButOutput(Switch(d, next), Switch(e, next), t)
  {
    hide SameButOutput;
    RestSame(d, e, t, Switch(d, next));
  }

  lemma ObeySame(d: Desk, e: Desk, t: int, op: Op)
    requires SameButOutput(d, e, t)
    ensures SameButOutput(Obey(d, op), Obey(e, op), t)
  {
    hide Apply, SameButOutput;
    OnSame(d, e, t, d.display, op);
    var a, b := d.On(d.display, op), e.On(e.display, op);
    RestSame(a, b, t, a.(wake := d.wake[d.display := true]));
    RestSame(a, b, t, a.KeysUp());
  }

  lemma KeySame(d: Desk, e: Desk, t: int, key: byte, locked: bool)
    requires SameButOutput(d, e, t)
    ensures SameButOutput(KeyStep(d, key, locked), KeyStep(e, key, locked), t)
  {
    hide SameButOutput, FunctionKey, Switch, Obey, Meaning, IsModifier;
    RestSame(d, e, t, d.(writeOk := true));
    var a, b := d.(writeOk := true), e.(writeOk := true);
    FunctionKeySame(a, b, t, key);
    var f, g := FunctionKey(a, key), FunctionKey(b, key);
    MeaningSame(f, g, t, key);
    ObeySame(f, g, t, Meaning(f, key));
    if IsSwitch(f, key) {
      SwitchSame(f, g, t, key - F1 + 1);
    }
  }

  lemma MeaningSame(d: Desk, e: Desk, t: int, key: byte)
    requires SameButOutput(d, e, t)
    ensures Meaning(d, key) == Meaning(e, key)
  {
    hide Scancode, Banner;
    assert SameLine(d.view[d.display], e.view[d.display]);
  }

  /** Two events that differ at most in what a program on a terminal other than `t` prints. */
  predicate Alike(d: Desk, e: Event, f: Event, t: int) {
    e == f || (e.Write? && f.Write? && d.running != t)
  }

  lemma StepSame(d: Desk, e: Desk, t: int, ev: Event, fv: Event)
    requires SameButOutput(d, e, t) && Alike(d, ev, fv, t)
    ensures SameButOutput(Step(d, ev), Step(e, fv), t)
  {
    hide Apply, SameLine, KeyStep;
    match ev
    case Key(key, locked) => KeySame(d, e, t, key, locked);
    case Write(text, longTask) =>
      if d.running != 0 {
        if d.running != t {
          WriteElsewhereSame(d, e, t, text, longTask, fv.text, fv.longTask);
        } else {
          OnSame(d, e, t, d.running, Print(text));
        }
      }
    case FinishRead => OnSame(d, e, t, d.display, Drain);
    case _ =>
  }

  lemma WriteElsewhereSame(d: Desk, e: Desk, t: int, a: seq<byte>, aTask: bool, b: seq<byte>, bTask: bool)
    requires SameButOutput(d, e, t) && d.running != 0 && d.running != t
    ensures SameButOutput(WriteStep(d, a, aTask), WriteStep(e, b, bTask), t)
  {
    hide Apply;
    PrintKeepsLine(a, d.view[d.running]);
    PrintKeepsLine(b, e.view[e.running]);
  }

  lemma {:induction false} OutputOverPrefix(d: Desk, es: seq<Event>, fs: seq<Event>, n: nat, t: int)
    requires d.Ok() && 1 <= t <= TERMINALS && n <= |es| == |fs|
    requires forall i | 0 <= i < |es| :: Alike(Run(d, es[..i]), es[i], fs[i], t)
    ensures SameButOutput(Run(d, es[..n]), Run(d, fs[..n]), t)
  {
    hide Step, Alike, SameButOutput, Run;
    if n == 0 {
      RunOne(d, [], Tick);
      assert es[..0] == [] == fs[..0];
      SameAsItself(d, t);
    } else {
      OutputOverPrefix(d, es, fs, n - 1, t);
      StepSame(Run(d, es[..n - 1]), Run(d, fs[..n - 1]), t, es[n - 1], fs[n - 1]);
      RunPrefix(d, es, n);
      RunPrefix(d, fs, n);
    }
  }

  /** Whatever programs print on the other terminals, over a whole run, terminal `t` and everything
      about the desk except the other sheets stay the same. */
  lemma OutputStaysAtHome(d: Desk, es: seq<Event>, fs: seq<Event>, t: int)
    requires d.Ok() && 1 <= t <= TERMINALS && |es| == |fs|
    requires forall i | 0 <= i < |es| :: Alike(Run(d, es[..i]), es[i], fs[i], t)
    ensures SameButOutput(Run(d, es), Run(d, fs), t)
  {
    hide Alike, SameButOutput, Run;
    OutputOverPrefix(d, es, fs, |es|, t);
    assert es[..|es|] == es && fs[..|es|] == fs;
  }

  lemma SameAsItself(d: Desk, t: int)
    requires d.Ok() && 1 <= t <= TERMINALS
    ensures SameButOutput(d, d, t)
  {
  }

  // The gate on output

  lemma FunctionKeyKeeps(d: Desk, key: byte)
    requires d.Ok()
    ensures
      var f := FunctionKey(d, key);
      f.wake == d.wake && f.display == d.display && f.running == d.running && f.writeOk == d.writeOk
  {
    hide Apply, Modifier;
  }

  lemma ObeyKeeps(d: Desk, op: Op)
    requires d.Ok()
    ensures
      var f := Obey(d, op);
      && f.display == d.display && f.running == d.running && f.writeOk == d.writeOk
      && f.wake == if op.EnterKey? then d.wake[d.display := true] else d.wake
  {
    hide Apply, Desk.On;
  }

  /** What a key does besides changing the terminal on display. */
  lemma GateAfterKey(d: Desk, key: byte, locked: bool)
    requires d.Ok()
    ensures
      var r := KeyStep(d, key, locked);
      && (r.writeOk <==> r.display == d.display) && r.running == d.running
      && forall t | 1 <= t <= TERMINALS ::
           r.wake[t] <==> Enters(d, Key(key, locked), t) || (d.wake[t] && !(t == d.display != r.display))
  {
    hide FunctionKey, Obey, Meaning, IsModifier;
    var u := d.(writeOk := true);
    FunctionKeyKeeps(u, key);
    ObeyKeeps(FunctionKey(u, key), Meaning(FunctionKey(u, key), key));
  }

  lemma GateKept(d: Desk, e: Event)
    requires d.Ok() && !e.Key?
    ensures Step(d, e).writeOk == d.writeOk
  {
  }

  /** Over every run: the gate is open if and only if the last key left the display alone, or it was
      open at first and no key has been pressed. `k` counts the events up to the last key. */
  lemma {:induction false} GateOverRuns(d: Desk, es: seq<Event>, k: nat)
    requires d.Ok() && k <= |es| && (k > 0 ==> es[k - 1].Key?) && forall i | k <= i < |es| :: !es[i].Key?
    ensures Run(d, es).writeOk <==>
        if k == 0 then d.writeOk else Run(d, es[..k]).display == Run(d, es[..k - 1]).display
    decreases |es|
  {
    hide Step;
    if es != [] {
      var front := es[..|es| - 1];
      if k == |es| {
        assert es[..k] == es;
        DisplayAfterKey(Run(d, front), es[k - 1]);
      } else {
        assert k > 0 ==> front[..k] == es[..k] && front[..k - 1] == es[..k - 1];
        GateOverRuns(d, front, k);
        GateKept(Run(d, front), es[|es| - 1]);
      }
    }
  }

  /** A program's text is printed exactly when its terminal is in the background, or it is a long task,
      or the gate is open, as `GateOverRuns` says. */
  lemma WriteOverRuns(d: Desk, es: seq<Event>, k: nat, text: seq<byte>, longTask: bool)
    requires d.Ok() && k <= |es| && (k > 0 ==> es[k - 1].Key?) && forall i | k <= i < |es| :: !es[i].Key?
    requires Run(d, es).running != 0 && text != []
    ensures
      var m := Run(d, es);
      var v, r := m.view[m.running], Step(m, Write(text, longTask)).view[m.running];
      && (r == PutAll(v, text) || r == v)
      && (r != v <==>
          || m.display != m.running || longTask
          || (if k == 0 then d.writeOk else Run(d, es[..k]).display == Run(d, es[..k - 1]).display))
  {
    hide Run, PutAll;
    GateOverRuns(d, es, k);
    PutAllMoves(Run(d, es).view[Run(d, es).running], text);
  }

  lemma DisplayAfterKey(d: Desk, e: Event)
    requires d.Ok() && e.Key?
    ensures Step(d, e).writeOk <==> Step(d, e).display == d.display
  {
    GateAfterKey(d, e.key, e.locked);
  }

  /** Putting a terminal on display before a program on it prints loses what it prints, up to the
      next key, unless it is a long task. */
  lemma SwitchDropsOutput(d: Desk, locked: bool, text: seq<byte>)
    requires d.Ok() && d.running != 0 && d.display != d.running && d.alt && d.capsCount <= MAX_INPUT_COUNT
    requires text != []
    ensures
      var t, key: byte := d.running, F1 + d.running - 1;
      var switched, alone := Run(d, [Key(key, locked), Write(text, false)]), Run(d, [Write(text, false)]);
      switched.display == t && switched.view[t] == d.view[t] != alone.view[t] == PutAll(d.view[t], text)
  {
    hide PutAll, KeyStep, Run;
    var key: byte := F1 + d.running - 1;
    RunTwo(d, Key(key, locked), Write(text, false));
    RunTwo(d, Write(text, false), Tick);
    SwitchKeepsTerminals(d, key, locked);
    GateAfterKey(d, key, locked);
    PutAllMoves(d.view[d.running], text);
  }

  // Waking a read

  /** The event enters a line on terminal `t`. */
  predicate Enters(d: Desk, e: Event, t: int)
    requires d.Ok()
  {
    e.Key? && t == d.display &&
    var f := FunctionKey(d.(writeOk := true), e.key);
    !IsModifier(e.key) && !IsSwitch(f, e.key) && !e.locked && Meaning(f, e.key).EnterKey?
  }

  /** The event makes the entered line of terminal `t` wait for another Enter: a program on any
      terminal starts to read while `t` is on display, or `t` goes off the display. */
  predicate Dismisses(d: Desk, e: Event, t: int)
    requires d.Ok()
  {
    t == d.display && (e.AskToRead? || (e.Key? && Step(d, e).display != d.display))
  }

  lemma WakeStep(d: Desk, e: Event, t: int)
    requires d.Ok() && 1 <= t <= TERMINALS
    ensures Step(d, e).wake[t] <==> Enters(d, e, t) || (d.wake[t] && !Dismisses(d, e, t))
  {
    hide Apply, KeyStep, Meaning, IsModifier, FunctionKey;
    if e.Key? {
      GateAfterKey(d, e.key, e.locked);
    }
  }

  /** The line of terminal `t` was entered by event `k - 1`, or could be read at first. */
  ghost predicate WokenAt(d: Desk, es: seq<Event>, k: nat, t: int)
    requires d.Ok() && k <= |es| && 1 <= t <= TERMINALS
  {
    if k == 0 then d.wake[t] else Enters(Run(d, es[..k - 1]), es[k - 1], t)
  }

  /** No event from number `k` up to number `n` dismisses the line of terminal `t`. */
  ghost predicate StaysAwake(d: Desk, es: seq<Event>, k: nat, n: nat, t: int)
    requires d.Ok() && n <= |es|
  {
    forall j | k <= j < n :: !Dismisses(Run(d, es[..j]), es[j], t)
  }

  lemma {:induction false} WakeOverPrefix(d: Desk, es: seq<Event>, n: nat, t: int)
    requires d.Ok() && 1 <= t <= TERMINALS && n <= |es|
    ensures Run(d, es[..n]).wake[t] <==> exists k | 0 <= k <= n :: WokenAt(d, es, k, t) && StaysAwake(d, es, k, n, t)
  {
    hide Step, Enters, Dismisses, Run;
    if n == 0 {
      RunOne(d, [], Tick);
      assert es[..0] == [];
      assert StaysAwake(d, es, 0, 0, t);
    } else {
      WakeOverPrefix(d, es, n - 1, t);
      RunPrefix(d, es, n);
      WakeStep(Run(d, es[..n - 1]), es[n - 1], t);
      assert forall k | 0 <= k < n :: StaysAwake(d, es, k, n, t) <==>
               StaysAwake(d, es, k, n - 1, t) && !Dismisses(Run(d, es[..n - 1]), es[n - 1], t);
      assert StaysAwake(d, es, n, n, t);
      assert WokenAt(d, es, n, t) <==> Enters(Run(d, es[..n - 1]), es[n - 1], t);
    }
  }

  /** Over every run: the reader of terminal `t` can be woken if and only if a line was entered on it,
      or it could be at first, and since then no program on any terminal has started to read while `t`
      was on display, and `t` has not gone off the display. */
  lemma WakeOverRuns(d: Desk, es: seq<Event>, t: int)
    requires d.Ok() && 1 <= t <= TERMINALS
    ensures Run(d, es).wake[t] <==>
              exists k | 0 <= k <= |es| :: WokenAt(d, es, k, t) && StaysAwake(d, es, k, |es|, t)
  {
    WakeOverPrefix(d, es, |es|, t);
    assert es[..|es|] == es;
  }

  /** A program that starts to read on another terminal makes a read on the displayed one wait
      again, although a line has been entered and its turn comes. */
  lemma ReadElsewhereCancels(d: Desk)
    requires d.Ok() && CanRead(d)
    ensures CanRead(Run(d, [Tick, Tick, Tick])) && !CanRead(Run(d, [Tick, AskToRead, Tick, Tick]))
  {
    hide Run;
    RunTwo(d, Tick, Tick);
    RunOne(d, [Tick, Tick], Tick);
    assert [Tick, Tick] + [Tick] == [Tick, Tick, Tick];
    RunTwo(d, Tick, AskToRead);
    RunOne(d, [Tick, AskToRead], Tick);
    RunOne(d, [Tick, AskToRead, Tick], Tick);
    assert [Tick, AskToRead] + [Tick] == [Tick, AskToRead, Tick];
    assert [Tick, AskToRead, Tick] + [Tick] == [Tick, AskToRead, Tick, Tick];
  }

  // Editing and reading over runs

  /** At any moment of any run at which the line of terminal `t` is empty, the cursor is a prompt; and
      as long as only keys that edit reach the terminal from then on, the line is the stack of what has
      been typed and its echo stands behind that prompt. */
  lemma EditingOverRuns(d: Desk, es: seq<Event>, fs: seq<Event>, t: int)
    requires d.Ok() && 1 <= t <= TERMINALS && Run(d, es).view[t].n == 0
    requires BlankAhead(d.view[t]) || exists op :: op in OpsFor(d, es, t) && op.ClearKey?
    requires forall op | op in OpsFor(Run(d, es), fs, t) :: Edits(op)
    ensures
      var m := Run(d, es);
      var v, r := m.view[t], Run(m, fs).view[t];
      && r.Line() == Stack(OpsFor(m, fs, t), []) && Echoes(r, v.cur)
      && r.paper[..v.cur] == v.paper[..v.cur] && (r.Line() == [] ==> r.cur == v.cur)
  {
    hide Apply, ApplyAll, Echoes, BlankAhead, Edits, OpsFor, Run;
    var m := Run(d, es);
    ChangedOnlyByItsOps(d, es, t);
    BlankAheadEver(OpsFor(d, es, t), d.view[t]);
    EmptyLineIsPrompt(m.view[t]);
    ChangedOnlyByItsOps(m, fs, t);
    EditingIsAStack(OpsFor(m, fs, t), m.view[t], m.view[t].cur);
  }

  lemma {:induction false} NoStrayNewlineOverRuns(d: Desk, es: seq<Event>, t: int)
    requires d.Ok() && 1 <= t <= TERMINALS && NoStrayNewline(d.view[t])
    ensures NoStrayNewline(Run(d, es).view[t])
  {
    hide ApplyAll, OpsFor, Run;
    ChangedOnlyByItsOps(d, es, t);
    TypedKeysAreNoBreaks(d, es, t);
    NoStrayNewlineEver(OpsFor(d, es, t), d.view[t]);
  }

  /** A line that is entered at any moment of any run, and read before anything more is typed on its
      terminal, is delivered with its newline if and only if it does not have 125 characters or fewer
      than 126 bytes are asked for. Keys that are released and output make no difference. */
  lemma LineDeliveredOverRuns(d: Desk, es: seq<Event>, e: Event, fs: seq<Event>, n: nat)
    requires d.Ok() && Enters(Run(d, es), e, Run(d, es).display) && NoStrayNewline(d.view[Run(d, es).display])
    requires forall op | op in OpsFor(Step(Run(d, es), e), fs, Run(d, es).display) :: TypesNothing(op)
    requires d.capsCount <= MAX_INPUT_COUNT
    ensures
      var m := Run(d, es);
      var line, r := m.view[m.display].Line(), Run(Step(m, e), fs).view[m.display];
      Read(r, n) == Take(line + [NEWLINE], n) <==> |line| != KEY_BUF_SIZE - 3 || n < KEY_BUF_SIZE - 2
  {
    hide Apply, ApplyAll, OpsFor, Run, Meaning, Read, TypesNothing;
    var m := Run(d, es);
    var t := m.display;
    NoStrayNewlineOverRuns(d, es, t);
    CapsStayCounted(d, es);
    EnterReaches(m, e);
    ChangedOnlyByItsOps(Step(m, e), fs, t);
    EnteredLineStays(OpsFor(Step(m, e), fs, t), Step(m, e).view[t]);
    SameRead(Run(Step(m, e), fs).view[t], Step(m, e).view[t], n);
    ReadDeliversLine(m.view[t], n);
  }

  lemma SameRead(a: Term, b: Term, n: nat)
    requires a.Fits() && b.Fits() && a.buf == b.buf && a.count == b.count
    ensures Read(a, n) == Read(b, n)
  {
  }

  /** Releasing a key types nothing. */
  lemma ReleaseTypesNothing(d: Desk, key: byte, locked: bool)
    requires d.Ok() && key >= 0x80 && d.capsCount <= MAX_INPUT_COUNT
    ensures forall t, op | 1 <= t <= TERMINALS && op in OpsFor(d, [Key(key, locked)], t) :: TypesNothing(op)
  {
    hide Apply;
    assert [Key(key, locked)][..0] == [];
  }

  lemma CapsStep(d: Desk, e: Event)
    requires d.Ok() && d.capsCount <= MAX_INPUT_COUNT
    ensures Step(d, e).capsCount <= MAX_INPUT_COUNT
  {
    hide Apply, Modifier, Meaning, IsModifier;
  }

  lemma {:induction false} CapsStayCounted(d: Desk, es: seq<Event>)
    requires d.Ok() && d.capsCount <= MAX_INPUT_COUNT
    ensures Run(d, es).capsCount <= MAX_INPUT_COUNT
  {
    hide Step;
    if es != [] {
      CapsStayCounted(d, es[..|es| - 1]);
      CapsStep(Run(d, es[..|es| - 1]), es[|es| - 1]);
    }
  }

  lemma EnterReaches(d: Desk, e: Event)
    requires d.Ok() && Enters(d, e, d.display) && d.capsCount <= MAX_INPUT_COUNT
    ensures Step(d, e).view[d.display] == Enter(d.view[d.display])
  {
    hide Meaning, Enter, Scancode;
  }
}
