// The kernel's globals behind the three terminals: one live page, cursor and edit buffer, which
// belong to the terminal on display, and saved copies for the others. `view` is the desk of
// independent terminals that they stand for.
module Console {
  import opened Bytes
  import opened Memory
  import opened Paper
  import opened EditLine
  import opened Desk
  import opened Screen

  /** A screen, an edit buffer with `n` entries, and the length of the last line entered
      stand for the terminal `v`. */
  ghost predicate StandsFor(s: Screen, buf: seq<byte>, n: int, v: Term, count: nat) {
    Depicts(s, v) && buf == v.buf && n == v.n && count == v.count
  }

  /** Four buffers of one length, no two the same. */
  ghost predicate Distinct(arrays: seq<array<byte>>, length: nat)
    ensures Distinct(arrays, length) ==> |arrays| == 4 && forall i | 0 <= i < 4 :: arrays[i].Length == length
  {
    && |arrays| == 4 && (forall i | 0 <= i < 4 :: arrays[i].Length == length)
    && forall i, j | 0 <= i < j < 4 :: arrays[i] != arrays[j]
  }

  /** A terminal at boot, on a page that holds `cells`. */
  function AtBoot(cells: seq<byte>): Term {
    Term(cells, 0, 0, Fill(KEY_BUF_SIZE, NUL), 0, 0)
  }

  lemma StandsFits(s: Screen, buf: seq<byte>, n: int, v: Term, count: nat)
    requires StandsFor(s, buf, n, v, count)
    ensures v.Fits()
  {
  }

  lemma BootDepicts(cells: seq<byte>)
    requires |cells| == CELLS
    ensures Depicts(Screen(cells, 0, 0), AtBoot(cells))
    ensures
      var v := AtBoot(cells);
      v.buf == Fill(KEY_BUF_SIZE, NUL) && v.n == 0 && v.count == 0 && v.cur == 0 && NoStrayNewline(v)
    ensures cells == Fill(CELLS, BLANK) ==> AtBoot(cells) == Cleared(AtBoot(cells))
  {
  }

  /** A terminal is blank from the cursor on at boot exactly when its page was blank. */
  lemma BootIsBlank(cells: seq<byte>)
    requires |cells| == CELLS
    ensures BlankAhead(AtBoot(cells)) <==> cells == Fill(CELLS, BLANK)
  {
    var v := AtBoot(cells);
    if BlankAhead(v) {
      assert forall i | 0 <= i < CELLS :: cells[i] == v.paper[i] == BLANK;
    }
  }

  // The kernel's arrays with one element per terminal, and element 0 unused
  type Counts = a: seq<nat> | |a| == 4 witness [0, 0, 0, 0]
  type Flags = a: seq<bool> | |a| == 4 witness [false, false, false, false]

  class Console {
    // Page 0 is what the hardware shows; pages 1 to 3 are saved
    const pages: seq<array<byte>>
    var screenX: int
    var screenY: int
    var screenXArr: PerTerminal
    var screenYArr: PerTerminal

    // Buffer 0 is the live edit buffer; buffers 1 to 3 are saved
    const bufs: seq<array<byte>>
    var keybufCount: int
    var keybufCountArr: PerTerminal

    // Fields of the terminal structures
    var lineCount: Counts
    var readFlag: Flags

    var displayTerm: int
    var lastTerm: int
    var runningTerm: int
    var shift: bool
    var ctrl: bool
    var alt: bool
    var caps: bool
    var capsCount: nat
    var writeFlag: bool

    ghost var view: seq<Term>

    ghost function ToDesk(): Desk
      reads this
    {
      Desk(view, readFlag, displayTerm, runningTerm, shift, ctrl, alt, caps, capsCount, writeFlag)
    }

    /** The buffers have their sizes and are distinct. */
    ghost predicate Wired() {
      Distinct(pages, CELLS) && Distinct(bufs, KEY_BUF_SIZE)
    }

    ghost predicate Shape()
      reads this`view, this`displayTerm, this`lastTerm, this`runningTerm
    {
      && Wired()
      && |view| == 4
      && 1 <= displayTerm <= TERMINALS && lastTerm == displayTerm && 0 <= runningTerm <= TERMINALS
    }

    ghost function LiveScreen(): Screen
      requires |pages| == 4
      reads this`screenX, this`screenY, pages[0]
    {
      Screen(pages[0][..], screenX, screenY)
    }

    /** The live globals and `count` stand for the terminal `v`. */
    ghost predicate LiveStands(v: Term, count: nat)
      requires |pages| == 4 && |bufs| == 4
      reads this`screenX, this`screenY, this`keybufCount, pages[0], bufs[0]
    {
      StandsFor(LiveScreen(), bufs[0][..], keybufCount, v, count)
    }

    ghost function SavedScreen(t: int): Screen
      requires |pages| == 4 && 1 <= t <= TERMINALS
      reads this`screenXArr, this`screenYArr, pages[t]
    {
      Screen(pages[t][..], screenXArr[t], screenYArr[t])
    }

    /** What is saved for terminal `t`, and `count`, stand for the terminal `v`. */
    ghost predicate SavedStands(t: int, v: Term, count: nat)
      requires |pages| == 4 && |bufs| == 4 && 1 <= t <= TERMINALS
      reads this`screenXArr, this`screenYArr, this`keybufCountArr, pages[t], bufs[t]
    {
      StandsFor(SavedScreen(t), bufs[t][..], keybufCountArr[t], v, count)
    }

    ghost predicate Valid()
      reads this`screenX, this`screenY, this`keybufCount, this`screenXArr, this`screenYArr, this`keybufCountArr
      reads this`lineCount, this`view, this`displayTerm, this`lastTerm, this`runningTerm, pages, bufs
      ensures Valid() ==> |view| == 4 && 1 <= displayTerm == lastTerm <= TERMINALS && 0 <= runningTerm <= TERMINALS
      ensures Valid() ==> Wired() && forall t | 1 <= t <= TERMINALS :: view[t].Fits()
    {
      && Shape()
      && LiveStands(view[displayTerm], lineCount[displayTerm])
      && forall t | 1 <= t <= TERMINALS && t != displayTerm :: SavedStands(t, view[t], lineCount[t])
    }

    lemma ValidFacts(t: int)
      requires Valid() && 1 <= t <= TERMINALS && t != displayTerm
      ensures Shape() && LiveStands(view[displayTerm], lineCount[displayTerm])
          && SavedStands(t, view[t], lineCount[t])
    {
    }

    /** The live globals and the two saved terminals, `t` and `u`, are all there is. */
    lemma ValidFrom(t: int, u: int)
      requires Shape() && LiveStands(view[displayTerm], lineCount[displayTerm])
      requires 1 <= t <= TERMINALS && 1 <= u <= TERMINALS && t != u && t != displayTerm && u != displayTerm
      requires SavedStands(t, view[t], lineCount[t]) && SavedStands(u, view[u], lineCount[u])
      ensures Valid()
    {
      hide Distinct, Depicts, Term.Fits;
      StandsFits(LiveScreen(), bufs[0][..], keybufCount, view[displayTerm], lineCount[displayTerm]);
      StandsFits(SavedScreen(t), bufs[t][..], keybufCountArr[t], view[t], lineCount[t]);
      StandsFits(SavedScreen(u), bufs[u][..], keybufCountArr[u], view[u], lineCount[u]);
    }

    /** Boot: the screen is cleared and terminal 1 is on display. The saved pages show whatever
        is in memory, and nothing runs yet. */
    constructor (pages: seq<array<byte>>, bufs: seq<array<byte>>)
      requires Distinct(pages, CELLS) && Distinct(bufs, KEY_BUF_SIZE)
      requires forall i | 0 <= i < 4 :: bufs[i][..] == Fill(KEY_BUF_SIZE, NUL)
      modifies pages[0]
      ensures Valid() && this.pages == pages && this.bufs == bufs
      ensures displayTerm == 1 && runningTerm == 0 && !alt && capsCount == 0
      ensures view[1] == Cleared(view[1])
      ensures view[2] == AtBoot(pages[2][..]) && view[3] == AtBoot(pages[3][..])
      ensures forall t | 1 <= t <= TERMINALS :: NoStrayNewline(view[t]) && view[t].n == 0 && view[t].cur == 0
    {
      hide Valid, Depicts, Cleared, AtBoot, NoStrayNewline, Term.Fits;
      this.pages, this.bufs := pages, bufs;
      screenX, screenY, screenXArr, screenYArr := 0, 0, [0, 0, 0, 0], [0, 0, 0, 0];
      keybufCount, keybufCountArr := 0, [0, 0, 0, 0];
      lineCount, readFlag := [0, 0, 0, 0], [false, true, false, false];
      displayTerm, lastTerm, runningTerm := 1, 1, 0;
      shift, ctrl, alt, caps, capsCount, writeFlag := false, false, false, false, 0, false;
      new;
      ghost var second, third := AtBoot(pages[2][..]), AtBoot(pages[3][..]);
      Clear();
      view := [AtBoot(pages[0][..]), AtBoot(pages[0][..]), second, third];
      BootDepicts(pages[0][..]);
      BootDepicts(pages[2][..]);
      BootDepicts(pages[3][..]);
      ValidFrom(2, 3);
    }

    /** The scheduler moves on to the next terminal. */
    method Tick()
      requires Valid()
      modifies this`runningTerm
      ensures Valid()
      ensures ToDesk() == Step(old(ToDesk()), Event.Tick)
    {
      runningTerm := runningTerm % TERMINALS + 1;
    }

    // The terminal on display

    method PutcAdvanced(c: byte)
      requires Wired() && LiveScreen().InBounds()
      modifies this`screenX, this`screenY, pages[0]
      ensures LiveScreen() == ScreenPut(old(LiveScreen()), c)
    {
      if IsBreak(c) {
        screenY := screenY + 1;
        screenX := 0;
      } else {
        pages[0][COLS * screenY + screenX] := c;
        screenX := screenX + 1;
        if screenX == COLS {
          screenY := screenY + 1;
        }
        screenX := screenX % COLS;
      }
      if screenY == ROWS {
        ScrollUp(pages[0]);
        screenY := ROWS - 1;
      }
    }

    method Backspace()
      requires Wired() && LiveScreen().InBounds()
      modifies this`screenX, this`screenY, pages[0]
      ensures LiveScreen() == ScreenErase(old(LiveScreen()))
    {
      if screenX == 0 && screenY == 0 {
        return;
      }
      if screenX == 0 {
        screenY := screenY - 1;
        screenX := COLS - 1;
        pages[0][COLS * screenY + screenX] := BLANK;
        return;
      }
      screenX := screenX - 1;
      pages[0][COLS * screenY + screenX] := BLANK;
    }

    method Putc(c: byte)
      requires Wired() && LiveScreen().InBounds()
      modifies this`screenX, this`screenY, pages[0]
      ensures LiveScreen() == ScreenPutInRow(old(LiveScreen()), c)
    {
      if IsBreak(c) {
        screenY := screenY + 1;
        screenX := 0;
      } else {
        pages[0][COLS * screenY + screenX] := c;
        screenX := screenX + 1;
        screenX := screenX % COLS;
        screenY := (screenY + screenX / COLS) % ROWS;
      }
      if screenY == ROWS {
        ScrollUp(pages[0]);
        screenY := ROWS - 1;
      }
    }

    method Clear()
      requires Wired()
      modifies this`screenX, this`screenY, pages[0]
      ensures LiveScreen() == Screen(Fill(CELLS, BLANK), 0, 0)
    {
      SetAll(pages[0], BLANK);
      screenX := 0;
      screenY := 0;
    }

    // A terminal in the background

    method PutcBackground(c: byte, t: int)
      requires Wired() && 1 <= t <= TERMINALS
      requires SavedScreen(t).InBounds()
      modifies this`screenXArr, this`screenYArr, pages[t]
      ensures SavedScreen(t) == ScreenPut(old(SavedScreen(t)), c)
      ensures forall u | 0 <= u < 4 && u != t ::
                screenXArr[u] == old(screenXArr)[u] && screenYArr[u] == old(screenYArr)[u]
    {
      var page := pages[t];
      if IsBreak(c) {
        screenYArr := screenYArr[t := screenYArr[t] + 1];
        screenXArr := screenXArr[t := 0];
      } else {
        page[COLS * screenYArr[t] + screenXArr[t]] := c;
        screenXArr := screenXArr[t := screenXArr[t] + 1];
        if screenXArr[t] == COLS {
          screenYArr := screenYArr[t := screenYArr[t] + 1];
        }
        screenXArr := screenXArr[t := screenXArr[t] % COLS];
      }
      if screenYArr[t] == ROWS {
        ScrollUp(page);
        screenYArr := screenYArr[t := ROWS - 1];
      }
    }

    // Each operation of a terminal, carried out on the concrete state

    /** Prints on the terminal on display. */
    method Display(c: byte)
      requires Valid()
      modifies this`screenX, this`screenY, this`view, pages[0]
      ensures Valid()
      ensures view == old(view)[displayTerm := Put(old(view)[displayTerm], c)]
    {
      hide Depicts, Put, ScreenPut;
      ghost var v := view[displayTerm];
      DepictsInBounds(LiveScreen(), v);
      PutDepicts(LiveScreen(), v, c);
      PutcAdvanced(c);
      view := view[displayTerm := Put(v, c)];
    }

    method EraseOne()
      requires Valid()
      modifies this`screenX, this`screenY, this`view, pages[0]
      ensures Valid()
      ensures view == old(view)[displayTerm := Erase(old(view)[displayTerm])]
    {
      hide Depicts, Erase, ScreenErase;
      ghost var v := view[displayTerm];
      DepictsInBounds(LiveScreen(), v);
      EraseDepicts(LiveScreen(), v);
      Backspace();
      view := view[displayTerm := Erase(v)];
    }

    method PrintInBackground(c: byte, t: int)
      requires Valid() && 1 <= t <= TERMINALS && t != displayTerm
      modifies this`screenXArr, this`screenYArr, this`view, pages[t]
      ensures Valid()
      ensures view == old(view)[t := Put(old(view)[t], c)]
    {
      hide Depicts, Put, ScreenPut;
      ghost var v := view[t];
      assert SavedStands(t, v, lineCount[t]);
      DepictsInBounds(SavedScreen(t), v);
      PutDepicts(SavedScreen(t), v, c);
      PutcBackground(c, t);
      view := view[t := Put(v, c)];
    }

    /** One character of a write by the running terminal. */
    method WriteChar(c: byte, longTask: bool)
      requires Valid() && runningTerm != 0
      modifies this`screenX, this`screenY, this`screenXArr, this`screenYArr, this`view, pages[0], pages[runningTerm]
      ensures Valid()
      ensures
        var passes := Passes(old(ToDesk()), longTask);
        view == if passes then old(view)[runningTerm := Put(old(view)[runningTerm], c)] else old(view)
    {
      hide Valid, Put;
      if displayTerm != runningTerm {
        PrintInBackground(c, runningTerm);
      } else if longTask || writeFlag {
        Display(c);
      }
    }

    /** `terminal_write`. The result counts the bytes before the first NUL. */
    method TerminalWrite(buf: seq<byte>, nbytes: nat, longTask: bool) returns (r: int)
      requires Valid() && runningTerm != 0 && nbytes <= |buf|
      modifies this`screenX, this`screenY, this`screenXArr, this`screenYArr, this`view, pages[0], pages[runningTerm]
      ensures Valid()
      ensures ToDesk() == WriteStep(old(ToDesk()), buf[..nbytes], longTask)
      ensures r == Min(nbytes, |CString(buf)|)
    {
      hide Valid, Put, CString, PutAll;
      ghost var v, passes := view[runningTerm], Passes(ToDesk(), longTask);
      PutAllNone(v);
      assert buf[..0] == [];
      var i := 0;
      while i < nbytes
        invariant 0 <= i <= nbytes && Valid()
        invariant view == if passes then old(view)[runningTerm := PutAll(v, buf[..i])] else old(view)
      {
        PutAllOne(v, buf[..i], buf[i]);
        assert buf[..i + 1] == buf[..i] + [buf[i]];
        WriteChar(buf[i], longTask);
        i := i + 1;
      }
      r := Min(nbytes, |CString(buf)|);
    }

    // The keyboard

    /** Gives the terminal on display the edit buffer that is now live. */
    ghost method Retype(v: Term)
      requires Shape() && LiveStands(v, lineCount[displayTerm])
      requires forall t | 1 <= t <= TERMINALS && t != displayTerm :: SavedStands(t, view[t], lineCount[t])
      modifies this`view
      ensures Valid() && view == old(view)[displayTerm := v]
    {
      view := view[displayTerm := v];
    }

    /** Empties the edit buffer. */
    method ForgetLine()
      requires Valid()
      modifies this`keybufCount, this`view, bufs[0]
      ensures Valid()
      ensures view == old(view)[displayTerm := Apply(Forget, old(view)[displayTerm])]
    {
      hide Depicts;
      ghost var v := view[displayTerm];
      SetAll(bufs[0], NUL);
      keybufCount := 0;
      DepictsSheet(LiveScreen(), v, Apply(Forget, v));
      Retype(Apply(Forget, v));
    }

    method ResetKeyboardBuffer()
      requires Valid()
      modifies this`shift, this`ctrl, this`alt, this`caps, this`capsCount, this`keybufCount, this`view, bufs[0]
      ensures Valid()
      ensures ToDesk() == old(ToDesk()).KeysUp().On(displayTerm, Forget)
    {
      hide Valid, Apply;
      capsCount := 0;
      ctrl := false;
      shift := false;
      caps := false;
      alt := false;
      ForgetLine();
    }

    method FunctionKeyHandle(key: byte) returns (handled: bool)
      requires Valid()
      modifies this`shift, this`ctrl, this`alt, this`caps, this`capsCount, this`keybufCount, this`view, bufs[0]
      ensures Valid()
      ensures handled == IsModifier(key)
      ensures ToDesk() == FunctionKey(old(ToDesk()), key)
    {
      hide Valid, Apply;
      handled := true;
      match key {
        case 0x2A => shift := true;
        case 0xAA => shift := false;
        case 0x36 => shift := true;
        case 0xB6 => shift := false;
        case 0x1D => ctrl := true;
        case 0x9D => ctrl := false;
        case 0x3A =>
          capsCount := capsCount + 1;
          caps := true;
        case 0xBA => caps := capsCount % 2 == 1;
        case 0x38 => alt := true;
        case 0xB8 => alt := false;
        case _ => handled := false;
      }
      assert ToDesk() == Modifier(old(ToDesk()), key);
      if capsCount > MAX_INPUT_COUNT {
        ResetKeyboardBuffer();
      }
    }

    /** `switch_vid_page` and `switch_screen`: saves the live screen for terminal `last` and
        makes the saved one of terminal `next` live. */
    method SwitchScreens(last: int, next: int)
      requires Wired()
      requires 1 <= last <= TERMINALS && 1 <= next <= TERMINALS && last != next
      modifies this`screenX, this`screenY, this`screenXArr, this`screenYArr, pages[0], pages[last]
      ensures SavedScreen(last) == old(LiveScreen()) && LiveScreen() == old(SavedScreen(next))
      ensures forall t | 1 <= t <= TERMINALS && t != last :: SavedScreen(t) == old(SavedScreen(t))
    {
      CopyAll(pages[last], pages[0]);
      SetAll(pages[0], NUL);
      CopyAll(pages[0], pages[next]);
      var x, y := screenX, screenY;
      screenXArr := screenXArr[last := x];
      screenYArr := screenYArr[last := y];
      screenX := screenXArr[next];
      screenY := screenYArr[next];
    }

    /** The same for the edit buffers. */
    method SwitchBuffers(last: int, next: int)
      requires Wired()
      requires 1 <= last <= TERMINALS && 1 <= next <= TERMINALS && last != next
      modifies this`keybufCount, this`keybufCountArr, bufs[0], bufs[last]
      ensures bufs[last][..] == old(bufs[0][..]) && bufs[0][..] == old(bufs[next][..])
      ensures forall t | 1 <= t <= TERMINALS && t != last :: bufs[t][..] == old(bufs[t][..])
      ensures keybufCountArr == old(keybufCountArr)[last := old(keybufCount)]
          && keybufCount == old(keybufCountArr)[next]
    {
      CopyAll(bufs[last], bufs[0]);
      CopyAll(bufs[0], bufs[next]);
      var count := keybufCount;
      keybufCountArr := keybufCountArr[last := count];
      keybufCount := keybufCountArr[next];
    }

    /** Puts terminal `next` on display. */
    method SwitchTo(next: int)
      requires Valid() && 1 <= next <= TERMINALS && next != displayTerm
      modifies this`displayTerm, this`lastTerm, this`screenX, this`screenY, this`screenXArr, this`screenYArr
      modifies this`keybufCount, this`keybufCountArr, pages[0], pages[displayTerm], bufs[0], bufs[displayTerm]
      ensures Valid() && displayTerm == next
    {
      hide Valid, StandsFor, Distinct;
      ghost var last, third := displayTerm, 6 - displayTerm - next;
      ValidFacts(next);
      ValidFacts(third);
      displayTerm := next;
      SwitchScreens(lastTerm, displayTerm);
      SwitchBuffers(lastTerm, displayTerm);
      lastTerm := displayTerm;
      ValidFrom(third, last);
    }

    method TerminalSwitch(key: byte) returns (handled: bool)
      requires Valid()
      modifies this`displayTerm, this`lastTerm, this`readFlag, this`writeFlag
      modifies this`screenX, this`screenY, this`screenXArr, this`screenYArr, pages[0], pages[displayTerm]
      modifies this`keybufCount, this`keybufCountArr, bufs[0], bufs[displayTerm]
      ensures Valid()
      ensures handled == IsSwitch(old(ToDesk()), key)
      ensures ToDesk() == if handled then Switch(old(ToDesk()), key - F1 + 1) else old(ToDesk())
    {
      hide Valid;
      if !alt || key < F1 || key > F3 {
        return false;
      }
      var last := lastTerm;
      if key - F1 + 1 != last {
        SwitchTo(key - F1 + 1);
        readFlag := readFlag[last := false];
        writeFlag := false;
      }
      handled := true;
    }

    method PressEnter()
      requires Valid()
      modifies this`screenX, this`screenY, this`view, this`lineCount, this`readFlag, this`keybufCount
      modifies pages[0], bufs[0]
      ensures Valid()
      ensures view == old(view)[displayTerm := Enter(old(view)[displayTerm])]
      ensures readFlag == old(readFlag)[displayTerm := true]
    {
      hide Depicts, Put;
      ghost var before := view[displayTerm];
      Display(NEWLINE);
      ghost var v := view[displayTerm];
      var count := keybufCount + 1;
      lineCount := lineCount[displayTerm := count];
      if count == KEY_BUF_SIZE - 2 {
        bufs[0][keybufCount + 1] := NEWLINE;
      } else {
        bufs[0][keybufCount] := NEWLINE;
      }
      readFlag := readFlag[displayTerm := true];
      keybufCount := 0;
      DepictsSheet(LiveScreen(), v, Enter(before));
      Retype(Enter(before));
    }

    /** Takes the last entry off the line. */
    method DropEntry()
      requires Valid() && view[displayTerm].n > 0
      modifies this`view, this`keybufCount
      ensures Valid()
      ensures view == old(view)[displayTerm := old(view)[displayTerm].(n := old(view)[displayTerm].n - 1)]
    {
      hide Depicts;
      ghost var v := view[displayTerm];
      keybufCount := keybufCount - 1;
      DepictsSheet(LiveScreen(), v, v.(n := v.n - 1));
      Retype(v.(n := v.n - 1));
    }

    /** Takes the echo of an entry off the screen. */
    method EraseEcho(c: byte)
      requires Valid()
      modifies this`screenX, this`screenY, this`view, pages[0]
      ensures Valid()
      ensures view == old(view)[displayTerm := EraseAll(old(view)[displayTerm], |Echo(c)|)]
    {
      hide Valid, Erase;
      if c == TAB {
        EraseOne();
        EraseOne();
        EraseOne();
        EraseOne();
      } else {
        EraseOne();
      }
    }

    lemma LiveBuffer()
      requires Valid()
      ensures keybufCount == view[displayTerm].n && bufs[0][..] == view[displayTerm].buf
      ensures lineCount[displayTerm] == view[displayTerm].count
    {
    }

    method PressErase()
      requires Valid()
      modifies this`screenX, this`screenY, this`view, this`keybufCount, pages[0]
      ensures Valid()
      ensures view == old(view)[displayTerm := Apply(EraseKey, old(view)[displayTerm])]
    {
      hide Valid, EraseAll, Echo;
      LiveBuffer();
      if keybufCount == 0 {
        return;
      }
      ghost var before := view[displayTerm];
      EraseAllKeepsEntry(before, |Echo(before.buf[before.n - 1])|);
      DropEntry();
      LiveBuffer();
      EraseEcho(bufs[0][keybufCount]);
    }

    /** Adds an entry to the line. */
    method AddEntry(c: byte)
      requires Valid() && view[displayTerm].n < FULL
      modifies this`view, this`keybufCount, bufs[0]
      ensures Valid()
      ensures
        var v := old(view)[displayTerm];
        view == old(view)[displayTerm := v.(buf := v.buf[v.n := c], n := v.n + 1)]
    {
      hide Depicts;
      ghost var v := view[displayTerm];
      ghost var w := v.(buf := v.buf[v.n := c], n := v.n + 1);
      bufs[0][keybufCount] := c;
      keybufCount := keybufCount + 1;
      DepictsSheet(LiveScreen(), v, w);
      Retype(w);
    }

    method PressTab()
      requires Valid() && view[displayTerm].n < FULL
      modifies this`screenX, this`screenY, this`view, this`keybufCount, pages[0], bufs[0]
      ensures Valid()
      ensures view == old(view)[displayTerm := Apply(TabKey, old(view)[displayTerm])]
    {
      hide Valid, Put, PutAll;
      FourBlanks(view[displayTerm]);
      Display(BLANK);
      Display(BLANK);
      Display(BLANK);
      Display(BLANK);
      AddEntry(TAB);
    }

    method PressChar(c: byte)
      requires Valid() && view[displayTerm].n < FULL
      modifies this`screenX, this`screenY, this`view, this`keybufCount, pages[0], bufs[0]
      ensures Valid()
      ensures view == old(view)[displayTerm := Apply(Type(c), old(view)[displayTerm])]
    {
      hide Valid, Put;
      Display(c);
      AddEntry(c);
    }

    /** `clear`. */
    method ClearScreen()
      requires Valid()
      modifies this`screenX, this`screenY, this`view, pages[0]
      ensures Valid() && screenX == 0
      ensures view == old(view)[displayTerm := BlankSheet(old(view)[displayTerm])]
    {
      hide Depicts, Cleared, BlankSheet;
      ghost var v := view[displayTerm];
      Clear();
      ClearedDepicts(v);
      BlankSheetIs(v);
      DepictsSheet(LiveScreen(), Cleared(v), BlankSheet(v));
      Retype(BlankSheet(v));
    }

    /** One character of the kernel's own `printf`, not at the end of a row. */
    method PrintInRow(c: byte)
      requires Valid() && screenX < COLS - 1
      modifies this`screenX, this`screenY, this`view, pages[0]
      ensures Valid() && screenX <= old(screenX) + 1
      ensures view == old(view)[displayTerm := Put(old(view)[displayTerm], c)]
    {
      hide Depicts, Put, ScreenPut, ScreenPutInRow;
      ghost var v := view[displayTerm];
      DepictsInBounds(LiveScreen(), v);
      PutDepicts(LiveScreen(), v, c);
      PutInRowIsPut(LiveScreen(), c);
      ColumnStep(LiveScreen(), c);
      Putc(c);
      view := view[displayTerm := Put(v, c)];
    }

    /** `printf` of the banner. On a text as short as this, `putc` prints like `putc_advanced`. */
    method PrintBanner(banner: seq<byte>)
      requires Valid() && |banner| < COLS && screenX == 0
      modifies this`screenX, this`screenY, this`view, pages[0]
      ensures Valid()
      ensures view == old(view)[displayTerm := PutAll(old(view)[displayTerm], banner)]
    {
      hide Valid, Put, PutAll;
      ghost var v := view[displayTerm];
      PutAllNone(v);
      assert banner[..0] == [];
      var i := 0;
      while i < |banner|
        invariant 0 <= i <= |banner| && Valid() && screenX <= i
        invariant view == old(view)[displayTerm := PutAll(v, banner[..i])]
      {
        PutAllOne(v, banner[..i], banner[i]);
        assert banner[..i + 1] == banner[..i] + [banner[i]];
        PrintInRow(banner[i]);
        i := i + 1;
      }
      assert banner[..i] == banner;
    }

    /** Control and L. */
    method PressClear()
      requires Valid()
      modifies this`shift, this`ctrl, this`alt, this`caps, this`capsCount
      modifies this`screenX, this`screenY, this`view, this`keybufCount, pages[0], bufs[0]
      ensures Valid()
      ensures ToDesk() == old(ToDesk()).KeysUp().On(displayTerm, ClearKey(Banner(displayTerm)))
    {
      hide Valid, BlankSheet, Apply, Banner, PutAll;
      ClearThenPrint(view[displayTerm], Banner(displayTerm));
      ClearScreen();
      ResetKeyboardBuffer();
      PrintBanner(Banner(displayTerm));
    }

    /** A character typed. */
    method PressValue(value: byte, capital: byte)
      requires Valid() && (view[displayTerm].n == FULL ==> value == NEWLINE || value == BACKSPACE)
      modifies this`shift, this`ctrl, this`alt, this`caps, this`capsCount, this`lineCount, this`readFlag
      modifies this`screenX, this`screenY, this`view, this`keybufCount, pages[0], bufs[0]
      ensures Valid()
      ensures ToDesk() == Obey(old(ToDesk()), MeaningOf(old(ToDesk()), value, capital))
    {
      hide Valid, Apply, Banner;
      FitsBuffer(view[displayTerm]);
      if value == NEWLINE {
        PressEnter();
        ApplyEnter(old(view)[displayTerm]);
      } else if ctrl && (value == LOWER_L || value == UPPER_L) {
        PressClear();
      } else if value == BACKSPACE {
        PressErase();
      } else if value == TAB {
        PressTab();
      } else if LOWER_A <= value <= LOWER_Z && caps {
        PressChar(capital);
      } else {
        PressChar(value);
      }
    }

    /** A key that is neither a modifier nor a switch. */
    method PressKey(key: byte)
      requires Valid()
      modifies this`shift, this`ctrl, this`alt, this`caps, this`capsCount, this`lineCount, this`readFlag
      modifies this`screenX, this`screenY, this`view, this`keybufCount, pages[0], bufs[0]
      ensures Valid()
      ensures ToDesk() == Press(old(ToDesk()), key)
    {
      hide Valid, Apply, Scancode, MeaningOf;
      LiveBuffer();
      NothingToDo(view[displayTerm]);
      BothEnter(key);
      BothBackspace(key);
      var value := Low(key);
      if keybufCount == FULL && value != NEWLINE && value != BACKSPACE {
        return;
      }
      if key <= 1 || key > 0x39 {
        return;
      }
      if shift {
        value := High(key);
      }
      PressValue(value, High(key));
    }

    /** `keyboard_interrupt_handler`. `locked` says that the program on display takes no typing. */
    method KeyboardInterrupt(key: byte, locked: bool)
      requires Valid()
      modifies this, pages[0], pages[displayTerm], bufs[0], bufs[displayTerm]
      ensures Valid()
      ensures ToDesk() == KeyStep(old(ToDesk()), key, locked)
    {
      hide Valid, FunctionKey, Switch, Press;
      writeFlag := true;
      var handled := FunctionKeyHandle(key);
      if handled {
        return;
      }
      handled := TerminalSwitch(key);
      if handled || locked {
        return;
      }
      PressKey(key);
    }

    // Reading a line

    /** The start of `terminal_read`, which then waits. */
    method AskToRead()
      requires Valid()
      modifies this`readFlag
      ensures Valid()
      ensures ToDesk() == ReadStart(old(ToDesk()))
    {
      readFlag := readFlag[displayTerm := false];
    }

    /** The copying loop of `terminal_read`. */
    method CopyLine(buf: array<byte>, nbytes: nat, count: nat, past: byte)
      requires Wired() && count <= KEY_BUF_SIZE && nbytes <= buf.Length && buf.Length >= 4
      requires buf !in bufs
      modifies buf
      ensures forall j | 0 <= j < nbytes :: buf[j] == LineByte(bufs[0][..], count, past, j)
      ensures forall j | Max(4, nbytes) <= j < buf.Length :: buf[j] == old(buf[j])
    {
      buf[0], buf[1], buf[2], buf[3] := NUL, NUL, NUL, NUL;
      var index := 0;
      while index < nbytes
        invariant 0 <= index <= nbytes
        invariant forall j | 0 <= j < index :: buf[j] == LineByte(bufs[0][..], count, past, j)
        invariant forall j | Max(4, nbytes) <= j < buf.Length :: buf[j] == old(buf[j])
      {
        if index <= count {
          buf[index] := if index < KEY_BUF_SIZE then bufs[0][index] else past;
        } else {
          buf[index] := NUL;
        }
        index := index + 1;
      }
    }

    /** A read has taken the line: the edit buffer is emptied, and its count stays. */
    method DrainLine()
      requires Valid()
      modifies this`view, bufs[0]
      ensures Valid()
      ensures view == old(view)[displayTerm := Apply(Drain, old(view)[displayTerm])]
    {
      hide Depicts;
      ghost var v := view[displayTerm];
      SetAll(bufs[0], NUL);
      DepictsSheet(LiveScreen(), v, Apply(Drain, v));
      Retype(Apply(Drain, v));
    }

    /** The rest of `terminal_read`, when it can go on. `past` is the byte in memory behind the
        edit buffer, which is copied when more than 128 bytes are asked for and the line is full. */
    method FinishRead(buf: array<byte>, nbytes: nat, past: byte) returns (r: int)
      requires Valid() && CanRead(ToDesk())
      requires nbytes <= buf.Length && buf.Length >= 4
      requires buf !in pages && buf !in bufs
      modifies this`view, buf, bufs[0]
      ensures Valid()
      ensures ToDesk() == old(ToDesk()).On(displayTerm, Drain)
      ensures r == |Read(old(view)[displayTerm], nbytes)| && buf[..r] == Read(old(view)[displayTerm], nbytes)
      ensures
        var v := old(view)[displayTerm];
        view[displayTerm] == v.(buf := Fill(KEY_BUF_SIZE, NUL)) && bufs[0][..] == Fill(KEY_BUF_SIZE, NUL)
      ensures
        var v := old(view)[displayTerm];
        forall j | 0 <= j < nbytes :: buf[j] == LineByte(v.buf, v.count, past, j)
      ensures forall j | Max(4, nbytes) <= j < buf.Length :: buf[j] == old(buf[j])
    {
      hide Valid, Apply;
      LiveBuffer();
      ghost var v := view[displayTerm];
      CopyLine(buf, nbytes, lineCount[displayTerm], past);
      if nbytes <= lineCount[displayTerm] {
        r := nbytes;
      } else {
        r := lineCount[displayTerm];
      }
      assert buf[..r] == bufs[0][..][..r];
      DrainLine();
      DrainEmpties(v);
      LiveBuffer();
    }
  }

  lemma DrainEmpties(v: Term)
    requires v.Fits()
    ensures Apply(Drain, v) == v.(buf := Fill(KEY_BUF_SIZE, NUL))
  {
  }

  /** What a read copies to index `j`: the line, the byte behind it, and then NULs. `past` is the byte
      in memory behind the edit buffer. */
  function LineByte(line: seq<byte>, count: nat, past: byte, j: nat): byte {
    if j > count then NUL else if j < |line| then line[j] else past
  }

  /** A screen does not depend on the line being edited. */
  lemma DepictsSheet(s: Screen, v: Term, w: Term)
    requires Depicts(s, v) && w.Fits() && w.paper == v.paper && w.top == v.top && w.cur == v.cur
    ensures Depicts(s, w)
  {
  }

  lemma DepictsInBounds(s: Screen, v: Term)
    requires Depicts(s, v)
    ensures s.InBounds() && v.Fits()
  {
  }

  /** Erasing cells and dropping an entry of the line can be done in either order. */
  lemma {:induction false} EraseAllKeepsEntry(t: Term, k: nat)
    requires t.Fits() && t.n > 0
    ensures EraseAll(t, k).(n := t.n - 1) == EraseAll(t.(n := t.n - 1), k)
    decreases k
  {
    if k > 0 {
      EraseAllKeepsEntry(Erase(t), k - 1);
    }
  }

  lemma FourBlanks(t: Term)
    requires t.Fits()
    ensures PutAll(t, Echo(TAB)) == Put(Put(Put(Put(t, BLANK), BLANK), BLANK), BLANK)
  {
    hide Put, PutAll;
    PutAllNone(t);
    var blank := [BLANK];
    PutAllOne(t, [], BLANK);
    PutAllOne(t, [BLANK], BLANK);
    PutAllOne(t, [BLANK, BLANK], BLANK);
    PutAllOne(t, [BLANK, BLANK, BLANK], BLANK);
    assert [] + blank == [BLANK] && [BLANK] + blank == [BLANK, BLANK]
        && [BLANK, BLANK] + blank == [BLANK, BLANK, BLANK];
    assert Echo(TAB) == [BLANK, BLANK, BLANK] + blank;
  }

  lemma ColumnStep(s: Screen, c: byte)
    requires s.InBounds()
    ensures ScreenPut(s, c).InBounds() && ScreenPut(s, c).x <= s.x + 1
  {
  }

  /** A terminal whose screen has been cleared under the line being edited. */
  ghost function BlankSheet(v: Term): Term
    requires v.Fits()
  {
    Cleared(v).(buf := v.buf, n := v.n)
  }

  lemma BlankSheetIs(v: Term)
    requires v.Fits()
    ensures
      var w := BlankSheet(v);
      && w.Fits() && w.paper == Cleared(v).paper && w.top == Cleared(v).top && w.cur == Cleared(v).cur
      && w.buf == v.buf && w.n == v.n && w.count == v.count
  {
  }

  lemma ClearThenPrint(v: Term, banner: seq<byte>)
    requires v.Fits()
    ensures BlankSheet(v).Fits() && Apply(Forget, BlankSheet(v)) == Cleared(v)
    ensures Apply(ClearKey(banner), v) == PutAll(Cleared(v), banner)
  {
  }

  lemma FitsBuffer(v: Term)
    requires v.Fits()
    ensures v.n <= FULL
  {
  }

  lemma NothingToDo(v: Term)
    requires v.Fits()
    ensures Apply(Nothing, v) == v
  {
  }

  lemma ApplyEnter(v: Term)
    requires v.Fits()
    ensures Apply(EnterKey, v) == Enter(v)
  {
  }

  /** Shift makes no difference to Enter and Backspace. */
  lemma BothEnter(key: byte)
    ensures Low(key) == NEWLINE <==> High(key) == NEWLINE
  {
  }

  lemma BothBackspace(key: byte)
    ensures Low(key) == BACKSPACE <==> High(key) == BACKSPACE
  {
  }
}
