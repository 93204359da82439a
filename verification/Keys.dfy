// What each key does, said by what is printed on it and by what it does to the line and the sheet, over
// every run of the desk.
module Keys {
  import opened Bytes
  import opened Paper
  import opened EditLine
  import opened Desk

  // The keys of a keyboard, row by row; each row starts at a scan code

  function Char(row: string, i: int): byte
    requires 0 <= i < |row|
  {
    (row[i] as int) % 256
  }

  /** The character on a key without shift, if it prints one. Quotes and a backslash are given by their
      numbers. */
  function Plain(key: byte): Option<byte> {
    if 0x02 <= key <= 0x0D then Some(Char("1234567890-=", key - 0x02))
    else if 0x10 <= key <= 0x1B then Some(Char("qwertyuiop[]", key - 0x10))
    else if 0x1E <= key <= 0x27 then Some(Char("asdfghjkl;", key - 0x1E))
    else if key == 0x28 then Some(39)
    else if key == 0x29 then Some(96)
    else if key == 0x2B then Some(92)
    else if 0x2C <= key <= 0x35 then Some(Char("zxcvbnm,./", key - 0x2C))
    else if key == 0x39 then Some(32)
    else None
  }

  /** The character on a key with shift. */
  function Shifted(key: byte): Option<byte> {
    if 0x02 <= key <= 0x0D then Some(Char("!@#$%^&*()_+", key - 0x02))
    else if 0x10 <= key <= 0x1B then Some(Char("QWERTYUIOP{}", key - 0x10))
    else if 0x1E <= key <= 0x27 then Some(Char("ASDFGHJKL:", key - 0x1E))
    else if key == 0x28 then Some(34)
    else if key == 0x29 then Some(126)
    else if key == 0x2B then Some(124)
    else if 0x2C <= key <= 0x35 then Some(Char("ZXCVBNM<>?", key - 0x2C))
    else if key == 0x39 then Some(32)
    else None
  }

  predicate IsLetter(c: byte) {
    97 <= c <= 122
  }

  predicate IsDigit(c: byte) {
    48 <= c <= 57
  }

  const ENTER: byte := 0x1C
  const BACKSPACE_KEY: byte := 0x0E
  const TAB_KEY: byte := 0x0F
  const L_KEY: byte := 0x26
  const CAPS_PRESS: byte := 0x3A
  const CAPS_RELEASE: byte := 0xBA

  /** What is printed on a pair of characters: neither has a meaning of its own, and a letter has its
      capital above it. */
  predicate IsPair(plain: int, shifted: int) {
    && 32 <= plain < 127 && 32 <= shifted < 127
    && (97 <= plain <= 122 ==> shifted == plain - 32) && !(97 <= shifted <= 122)
    && !(65 <= plain <= 90) && (48 <= plain <= 57 ==> !(48 <= shifted <= 57))
  }

  /** The table has the characters of the key, and L is on one key only. */
  predicate InTable(key: byte) {
    && var plain, shifted := Scancode(key).0 as int, Scancode(key).1 as int;
    && IsPair(plain, shifted) && (plain == 108 <==> key == L_KEY) && (shifted == 76 <==> key == L_KEY)
    && Plain(key) == Some(plain) && Shifted(key) == Some(shifted)
  }

  lemma FirstRow(key: byte)
    requires 0x02 <= key <= 0x0D
    ensures InTable(key)
  {
  }

  lemma SecondRow(key: byte)
    requires 0x10 <= key <= 0x1B
    ensures InTable(key)
  {
  }

  lemma ThirdRow(key: byte)
    requires 0x1E <= key <= 0x29
    ensures InTable(key)
  {
  }

  lemma FourthRow(key: byte)
    requires 0x2B <= key <= 0x35
    ensures InTable(key)
  {
  }

  /** The table of scan codes has the characters that are on the keys. */
  predicate AsPrinted(key: byte) {
    && Plain(key).Some? && Shifted(key).Some? && Low(key) == Plain(key).value && High(key) == Shifted(key).value
    && 32 <= Low(key) < 127 && 32 <= High(key) < 127
    && (IsLetter(Low(key)) ==> High(key) == Low(key) - 32) && !IsLetter(High(key))
    && (Low(key) == 108 <==> key == L_KEY) && (High(key) == 76 <==> key == L_KEY)
    && Low(key) != 76 && High(key) != 108 && (IsDigit(Low(key)) ==> !IsDigit(High(key)))
  }

  lemma PairIsPrinted(key: byte)
    requires InTable(key)
    ensures AsPrinted(key)
  {
    hide Scancode, Plain, Shifted;
  }

  lemma TableIsLayout(key: byte)
    requires Plain(key).Some?
    ensures AsPrinted(key)
  {
    hide Scancode, AsPrinted, InTable;
    if key <= 0x0D {
      FirstRow(key);
    } else if key <= 0x1B {
      SecondRow(key);
    } else if key <= 0x29 {
      ThirdRow(key);
    } else if key <= 0x35 {
      FourthRow(key);
    } else {
      SpaceBar();
    }
    PairIsPrinted(key);
  }

  lemma SpaceBar()
    ensures InTable(0x39)
  {
  }

  // One key

  /** A key that is neither a lock nor a switch. */
  lemma OrdinaryKey(d: Desk, key: byte, locked: bool)
    requires d.Ok() && d.capsCount <= MAX_INPUT_COUNT && !IsModifier(key) && !IsSwitch(d, key)
    ensures
      var e := d.(writeOk := true);
      Step(d, Key(key, locked)) == if locked then e else Obey(e, Meaning(e, key))
  {
    hide Apply, Meaning, Obey;
    ModifierOnlyLocks(d.(writeOk := true), key);
  }

  lemma ModifierOnlyLocks(d: Desk, key: byte)
    requires !IsModifier(key)
    ensures Modifier(d, key) == d
  {
  }

  /** Only the sheet and the line of the terminal on display, and the gate, are different. */
  ghost predicate OnlyDisplayed(d: Desk, r: Desk) {
    && d.Ok() && r.Ok() && r == d.(view := r.view, writeOk := true)
    && forall t | 1 <= t <= TERMINALS && t != d.display :: r.view[t] == d.view[t]
  }

  lemma ObeyOnlyDisplayed(d: Desk, op: Op)
    requires d.Ok() && !op.EnterKey? && !op.ClearKey?
    ensures
      var r := Obey(d.(writeOk := true), op);
      OnlyDisplayed(d, r) && r.view[d.display] == Apply(op, d.view[d.display])
  {
    hide Apply;
  }

  /** The terminal `w` is `v` with one more character at the end of its line and at its cursor. */
  ghost predicate Typed(v: Term, w: Term, c: byte) {
    && v.Fits() && w.Fits() && w.Line() == v.Line() + [c] && w.count == v.count
    && w.cur == v.cur + 1 && w.paper[v.cur] == c && w.paper[..v.cur] == v.paper[..v.cur]
  }

  lemma TypeTypes(v: Term, c: byte)
    requires v.Fits() && v.n < FULL && !IsBreak(c)
    ensures Typed(v, Apply(Type(c), v), c)
  {
  }

  /** What a key prints: the character above when shift is held, and the capital of a letter also when
      caps lock is on. */
  function Printed(d: Desk, key: byte): byte
    requires Plain(key).Some? && Shifted(key).Some?
  {
    if d.shift then Shifted(key).value
    else if d.caps && IsLetter(Plain(key).value) then Plain(key).value - 32
    else Plain(key).value
  }

  /** Every key with a character on it adds what it prints to the line and to the sheet of the terminal
      on display, unless it is control and L; nothing else changes. */
  lemma PrintingKey(d: Desk, key: byte)
    requires d.Ok() && d.capsCount <= MAX_INPUT_COUNT && Plain(key).Some? && !(d.ctrl && key == L_KEY)
    requires d.view[d.display].n < FULL
    ensures Shifted(key).Some?
    ensures
      var r := Step(d, Key(key, false));
      OnlyDisplayed(d, r) && Typed(d.view[d.display], r.view[d.display], Printed(d, key))
  {
    hide Apply, Scancode, Plain, Shifted, Typed, OnlyDisplayed, Obey;
    PlainKeys(key);
    TableIsLayout(key);
    OrdinaryKey(d, key, false);
    PrintingMeaning(d.(writeOk := true), key);
    ObeyOnlyDisplayed(d, Type(Printed(d, key)));
    TypeTypes(d.view[d.display], Printed(d, key));
  }

  lemma PlainKeys(key: byte)
    requires Plain(key).Some?
    ensures 1 < key <= 0x39 && !IsModifier(key)
  {
  }

  lemma PrintingMeaning(d: Desk, key: byte)
    requires d.Ok() && AsPrinted(key) && 1 < key <= 0x39 && !(d.ctrl && key == L_KEY) && d.view[d.display].n < FULL
    ensures Meaning(d, key) == Type(Printed(d, key)) && !IsBreak(Printed(d, key))
  {
    hide Scancode, Plain, Shifted, Banner;
  }

  /** A letter key adds its letter: a capital (65 to 90) if and only if shift is held or caps lock is on,
      and otherwise a small letter (97 to 122). */
  lemma LetterKey(d: Desk, key: byte)
    requires d.Ok() && d.capsCount <= MAX_INPUT_COUNT && Plain(key).Some? && IsLetter(Plain(key).value)
    requires d.view[d.display].n < FULL && !(d.ctrl && key == L_KEY)
    ensures
      var v, w := d.view[d.display], Step(d, Key(key, false)).view[d.display];
      var c := if d.shift || d.caps then Plain(key).value - 32 else Plain(key).value;
      && Typed(v, w, c) && (d.shift || d.caps <==> 65 <= c <= 90) && (!d.shift && !d.caps <==> 97 <= c <= 122)
  {
    hide Step, Scancode, Plain, Shifted, Typed;
    PrintingKey(d, key);
    TableIsLayout(key);
  }

  /** A digit key adds its digit if and only if shift is not held. */
  lemma DigitKey(d: Desk, key: byte)
    requires d.Ok() && d.capsCount <= MAX_INPUT_COUNT && Plain(key).Some? && IsDigit(Plain(key).value)
    requires d.view[d.display].n < FULL
    ensures
      var v, w := d.view[d.display], Step(d, Key(key, false)).view[d.display];
      && (!d.shift ==> Typed(v, w, Plain(key).value))
      && (d.shift ==> exists c: byte :: Typed(v, w, c) && !IsDigit(c))
  {
    hide Step, Scancode, Plain, Shifted, Typed;
    TableIsLayout(key);
    PrintingKey(d, key);
  }

  /** On a full line such keys do nothing. */
  lemma FullLine(d: Desk, key: byte)
    requires d.Ok() && d.capsCount <= MAX_INPUT_COUNT && Plain(key).Some? && d.view[d.display].n == FULL
    ensures Step(d, Key(key, false)).view == d.view
  {
    hide Apply, Scancode, Plain, Shifted, Obey;
    PlainKeys(key);
    TableIsLayout(key);
    OrdinaryKey(d, key, false);
    FullMeaning(d.(writeOk := true), key);
    ObeyNothing(d.(writeOk := true));
  }

  lemma FullMeaning(d: Desk, key: byte)
    requires d.Ok() && AsPrinted(key) && d.view[d.display].n == FULL
    ensures Meaning(d, key) == Nothing
  {
    hide Scancode, Plain, Shifted, Banner;
  }

  lemma ObeyNothing(d: Desk)
    requires d.Ok()
    ensures Obey(d, Nothing).view == d.view
  {
  }

  /** When the program on display takes no typing, and while alt is not held for F1 to F3, keys that are
      not locks change no terminal. */
  lemma IgnoredKey(d: Desk, key: byte, locked: bool)
    requires d.Ok() && d.capsCount <= MAX_INPUT_COUNT && !IsModifier(key) && !(d.alt && 0x3B <= key <= 0x3D)
    requires locked || key <= 1 || key > 0x39
    ensures Step(d, Key(key, locked)) == d.(writeOk := true)
  {
    hide Apply, Scancode, Meaning, Obey;
    OrdinaryKey(d, key, locked);
    if !locked {
      OutsideMeaning(d.(writeOk := true), key);
      ObeyNothingAtAll(d.(writeOk := true));
    }
  }

  lemma OutsideMeaning(d: Desk, key: byte)
    requires d.Ok() && (key <= 1 || key > 0x39)
    ensures Meaning(d, key) == Nothing
  {
    hide Scancode;
  }

  lemma ObeyNothingAtAll(d: Desk)
    requires d.Ok()
    ensures Obey(d, Nothing) == d
  {
    assert d.view[d.display := d.view[d.display]] == d.view;
  }

  /** Backspace takes an entry back. */
  lemma BackspaceKey(d: Desk)
    requires d.Ok() && d.capsCount <= MAX_INPUT_COUNT
    ensures
      var v, r := d.view[d.display], Step(d, Key(BACKSPACE_KEY, false));
      && OnlyDisplayed(d, r) && r.view[d.display] == Apply(EraseKey, v)
      && r.view[d.display].Line() == if v.n == 0 then [] else v.Line()[..v.n - 1]
  {
    hide Apply, Obey, OnlyDisplayed;
    OrdinaryKey(d, BACKSPACE_KEY, false);
    ObeyOnlyDisplayed(d, EraseKey);
    EraseEffect(d.view[d.display]);
  }

  lemma EraseEffect(v: Term)
    requires v.Fits()
    ensures Apply(EraseKey, v).Line() == if v.n == 0 then [] else v.Line()[..v.n - 1]
  {
    hide EraseAll;
  }

  /** Tab adds one entry, which stands as four blanks on the sheet. */
  lemma TabKeyTypes(d: Desk)
    requires d.Ok() && d.capsCount <= MAX_INPUT_COUNT && d.view[d.display].n < FULL
    ensures
      var v, r := d.view[d.display], Step(d, Key(TAB_KEY, false));
      && OnlyDisplayed(d, r) && r.view[d.display].Line() == v.Line() + [9]
      && SameSheet(r.view[d.display], PutAll(v, [32, 32, 32, 32]))
  {
    hide Apply, PutAll;
    OrdinaryKey(d, TAB_KEY, false);
    ObeyOnlyDisplayed(d, TabKey);
    TabEffect(d.view[d.display]);
  }

  lemma TabEffect(v: Term)
    requires v.Fits() && v.n < FULL
    ensures
      var w := Apply(TabKey, v);
      w.Line() == v.Line() + [9] && SameSheet(w, PutAll(v, [32, 32, 32, 32]))
  {
    hide Apply, PutAll;
    TypeOne(v, TAB);
    assert Echo(TAB) == [32, 32, 32, 32];
  }

  /** Enter enters the line of the terminal on display. */
  lemma EnterKeyEnters(d: Desk)
    requires d.Ok() && d.capsCount <= MAX_INPUT_COUNT
    ensures
      var v, r := d.view[d.display], Step(d, Key(ENTER, false));
      && r == d.(view := d.view[d.display := Apply(EnterKey, v)], wake := d.wake[d.display := true], writeOk := true)
  {
    hide Apply;
    OrdinaryKey(d, ENTER, false);
  }

  const BEFORE_NUMBER := "Current Terminal:"
  const AFTER_NUMBER := " \n391OS> "

  /** Control and L leave the banner alone on the screen of the terminal on display, an empty line, and no
      lock held. */
  lemma ControlL(d: Desk)
    requires d.Ok() && d.capsCount <= MAX_INPUT_COUNT && d.ctrl && d.view[d.display].n < FULL
    ensures
      var r, w := Step(d, Key(L_KEY, false)), Step(d, Key(L_KEY, false)).view[d.display];
      var banner := Ascii(BEFORE_NUMBER) + [48 + d.display] + Ascii(AFTER_NUMBER);
      && Displays(w, Rows(banner)) && w.n == 0 && w.buf == Fill(KEY_BUF_SIZE, NUL)
      && !r.shift && !r.ctrl && !r.alt && !r.caps && r.capsCount == 0
      && r.display == d.display && r.running == d.running && r.wake == d.wake
      && forall t | 1 <= t <= TERMINALS && t != d.display :: r.view[t] == d.view[t]
  {
    hide PutAll, Cleared, Displays, Rows, Ascii, Step, Obey, Meaning, Apply;
    OrdinaryKey(d, L_KEY, false);
    var e, v, banner := d.(writeOk := true), d.view[d.display], Banner(d.display);
    MeansClear(e);
    ObeyClear(e, banner);
    PrintedTextDisplays(v, banner);
    ClearedLine(v, banner);
  }

  lemma MeansClear(d: Desk)
    requires d.Ok() && d.ctrl && d.view[d.display].n < FULL
    ensures Meaning(d, L_KEY) == ClearKey(Banner(d.display))
    ensures Banner(d.display) == Ascii(BEFORE_NUMBER) + [48 + d.display] + Ascii(AFTER_NUMBER)
  {
    hide Ascii;
  }

  lemma ObeyClear(d: Desk, banner: seq<byte>)
    requires d.Ok()
    ensures
      var r := Obey(d, ClearKey(banner));
      && r.view[d.display] == PutAll(Cleared(d.view[d.display]), banner)
      && !r.shift && !r.ctrl && !r.alt && !r.caps && r.capsCount == 0
      && r.display == d.display && r.running == d.running && r.wake == d.wake
      && forall t | 1 <= t <= TERMINALS && t != d.display :: r.view[t] == d.view[t]
  {
    hide PutAll, Cleared;
  }

  lemma ClearedLine(v: Term, banner: seq<byte>)
    requires v.Fits()
    ensures
      var w := PutAll(Cleared(v), banner);
      w.n == 0 && w.buf == Fill(KEY_BUF_SIZE, NUL)
  {
  }

  /** The key with the code 0x37 has no character: it types a NUL. */
  lemma NulKey(d: Desk)
    requires d.Ok() && d.capsCount <= MAX_INPUT_COUNT && d.view[d.display].n < FULL
    ensures
      var r := Step(d, Key(0x37, false));
      OnlyDisplayed(d, r) && Typed(d.view[d.display], r.view[d.display], 0)
  {
    hide Apply, Typed, OnlyDisplayed, Obey;
    OrdinaryKey(d, 0x37, false);
    ObeyOnlyDisplayed(d, Type(NUL));
    TypeTypes(d.view[d.display], NUL);
  }

  /** These are all the keys. */
  lemma EveryKey(key: byte)
    ensures !Plain(key).Some? && 1 < key <= 0x39 && !IsModifier(key) ==>
              key == BACKSPACE_KEY || key == TAB_KEY || key == ENTER || key == 0x37
  {
  }

  /** One press of caps lock too many empties the line and leaves the sheet. */
  lemma OverflowForgets(d: Desk, locked: bool)
    requires d.Ok() && d.capsCount == MAX_INPUT_COUNT
    ensures
      var v, w := d.view[d.display], Step(d, Key(CAPS_PRESS, locked)).view[d.display];
      SameSheet(v, w) && w.n == 0 && w.buf == Fill(KEY_BUF_SIZE, NUL) && w.count == v.count
  {
    hide Meaning, Obey;
  }

  // Which locks are held, over runs

  datatype Lock = Shift | Ctrl | Alt

  function PressCodes(l: Lock): set<int> {
    match l
    case Shift => {0x2A, 0x36}
    case Ctrl => {0x1D}
    case Alt => {0x38}
  }

  /** The release of a key has the code of its press and bit 7. */
  function ReleaseCodes(l: Lock): set<int> {
    match l
    case Shift => {0x80 + 0x2A, 0x80 + 0x36}
    case Ctrl => {0x80 + 0x1D}
    case Alt => {0x80 + 0x38}
  }

  predicate IsHeld(d: Desk, l: Lock) {
    match l
    case Shift => d.shift
    case Ctrl => d.ctrl
    case Alt => d.alt
  }

  predicate Presses(e: Event, l: Lock) {
    e.Key? && e.key in PressCodes(l)
  }

  predicate Releases(e: Event, l: Lock) {
    e.Key? && e.key in ReleaseCodes(l)
  }

  /** Control and L, or one press of caps lock too many: every lock is dropped. */
  predicate DropsLocks(d: Desk, e: Event)
    requires d.Ok()
  {
    e.Key? &&
    ( || (e.key == L_KEY && d.ctrl && !e.locked && d.view[d.display].n < FULL)
      || (e.key == CAPS_PRESS && d.capsCount == MAX_INPUT_COUNT))
  }

  /** What an event other than a key does to the locks and the display: nothing. */
  lemma OnlyKeysLock(d: Desk, e: Event)
    requires d.Ok() && !e.Key?
    ensures
      var r := Step(d, e);
      && r.shift == d.shift && r.ctrl == d.ctrl && r.alt == d.alt && r.caps == d.caps && r.capsCount == d.capsCount
      && r.display == d.display
  {
    hide Apply;
  }

  /** What a key does to the locks. */
  lemma KeyLocks(d: Desk, key: byte, locked: bool)
    requires d.Ok() && d.capsCount <= MAX_INPUT_COUNT
    ensures
      var e, r := Key(key, locked), Step(d, Key(key, locked));
      var m := Modifier(d.(writeOk := true), key);
      if DropsLocks(d, e) then !r.shift && !r.ctrl && !r.alt && !r.caps && r.capsCount == 0
      else r.shift == m.shift && r.ctrl == m.ctrl && r.alt == m.alt && r.caps == m.caps && r.capsCount == m.capsCount
  {
    hide Apply, Obey, Meaning, Modifier;
    ModifierCounts(d.(writeOk := true), key);
    if !IsModifier(key) {
      ModifierOnlyLocks(d.(writeOk := true), key);
      var u := d.(writeOk := true);
      ClearsIff(u, key);
      ObeyLocks(u, Meaning(u, key));
    }
  }

  lemma ModifierCounts(d: Desk, key: byte)
    ensures Modifier(d, key).capsCount == if key == CAPS_PRESS then d.capsCount + 1 else d.capsCount
    ensures key == CAPS_PRESS || key == CAPS_RELEASE ==> IsModifier(key)
    ensures !IsModifier(L_KEY)
  {
  }

  lemma ClearsIff(d: Desk, key: byte)
    requires d.Ok() && !IsModifier(key)
    ensures Meaning(d, key).ClearKey? <==> key == L_KEY && d.ctrl && d.view[d.display].n < FULL
  {
    hide Scancode, Banner;
    LIsTheOnlyL(key);
  }

  lemma LIsTheOnlyL(key: byte)
    ensures Low(key) == 108 <==> key == L_KEY
    ensures High(key) == 76 <==> key == L_KEY
    ensures Low(key) != 76 && High(key) != 108
    ensures Low(L_KEY) == 108 && High(L_KEY) == 76
  {
    hide Scancode;
    SmallL(key);
    CapitalL(key);
    SmallL(L_KEY);
    CapitalL(L_KEY);
  }

  lemma SmallL(key: byte)
    ensures var c := Scancode(key).0 as int; c < 128 && c != 76 && (c == 108 <==> key == L_KEY)
  {
  }

  lemma CapitalL(key: byte)
    ensures var c := Scancode(key).1 as int; c < 128 && c != 108 && (c == 76 <==> key == L_KEY)
  {
  }

  lemma ObeyLocks(d: Desk, op: Op)
    requires d.Ok()
    ensures
      var r := Obey(d, op);
      if op.ClearKey? then !r.shift && !r.ctrl && !r.alt && !r.caps && r.capsCount == 0
      else r.shift == d.shift && r.ctrl == d.ctrl && r.alt == d.alt && r.caps == d.caps && r.capsCount == d.capsCount
  {
    hide Apply, Desk.On;
  }

  lemma ModifierHolds(d: Desk, key: byte, l: Lock)
    ensures IsHeld(Modifier(d, key), l) <==> key in PressCodes(l) || (IsHeld(d, l) && key !in ReleaseCodes(l))
  {
  }

  lemma HeldStep(d: Desk, e: Event, l: Lock)
    requires d.Ok() && d.capsCount <= MAX_INPUT_COUNT
    ensures IsHeld(Step(d, e), l) <==>
              !DropsLocks(d, e) && (Presses(e, l) || (IsHeld(d, l) && !Releases(e, l)))
  {
    hide Step, Modifier, PressCodes, ReleaseCodes, DropsLocks;
    if e.Key? {
      KeyLocks(d, e.key, e.locked);
      ModifierHolds(d.(writeOk := true), e.key, l);
    } else {
      OnlyKeysLock(d, e);
      OnlyKeysDrop(d, e);
    }
  }

  lemma OnlyKeysDrop(d: Desk, e: Event)
    requires d.Ok() && !e.Key?
    ensures !DropsLocks(d, e)
  {
  }

  /** The event decides whether the lock is held from then on. */
  predicate Decides(d: Desk, e: Event, l: Lock)
    requires d.Ok()
  {
    Presses(e, l) || Releases(e, l) || DropsLocks(d, e)
  }

  /** Over every run, shift, control or alt is held if and only if the last event that decides about it,
      which is number `k - 1`, was a press; or it was held at first and nothing decided about it. */
  lemma {:induction false} HeldOverRuns(d: Desk, es: seq<Event>, l: Lock, k: nat, n: nat)
    requires d.Ok() && d.capsCount <= MAX_INPUT_COUNT && k <= n <= |es|
    requires k > 0 ==> Decides(Run(d, es[..k - 1]), es[k - 1], l)
    requires forall i | k <= i < n :: !Decides(Run(d, es[..i]), es[i], l)
    ensures IsHeld(Run(d, es[..n]), l) <==>
              if k == 0 then IsHeld(d, l) else Presses(es[k - 1], l) && !DropsLocks(Run(d, es[..k - 1]), es[k - 1])
  {
    hide Step, Run, IsHeld, Presses, Releases, DropsLocks;
    if n == 0 {
      assert es[..0] == [];
      RunOne(d, [], Tick);
    } else {
      RunPrefix(d, es, n);
      CapsStayCounted(d, es[..n - 1]);
      HeldStep(Run(d, es[..n - 1]), es[n - 1], l);
      PressIsNoRelease(es[n - 1], l);
      if k < n {
        HeldOverRuns(d, es, l, k, n - 1);
      }
    }
  }

  lemma PressIsNoRelease(e: Event, l: Lock)
    ensures !(Presses(e, l) && Releases(e, l))
  {
  }

  /** Caps lock: on while its key is down, and after the key is released on if and only if it has been
      pressed an odd number of times since the locks were dropped. */
  lemma CapsLockStep(d: Desk, e: Event)
    requires d.Ok() && d.capsCount <= MAX_INPUT_COUNT
    ensures
      var r := Step(d, e);
      if DropsLocks(d, e) then !r.caps && r.capsCount == 0
      else if e.Key? && e.key == CAPS_PRESS then r.caps && r.capsCount == d.capsCount + 1
      else if e.Key? && e.key == CAPS_RELEASE then (r.caps <==> d.capsCount % 2 == 1) && r.capsCount == d.capsCount
      else r.caps == d.caps && r.capsCount == d.capsCount
  {
    hide Step, Modifier, DropsLocks;
    if e.Key? {
      KeyLocks(d, e.key, e.locked);
      ModifierCaps(d.(writeOk := true), e.key);
    } else {
      OnlyKeysLock(d, e);
      OnlyKeysDrop(d, e);
    }
  }

  lemma ModifierCaps(d: Desk, key: byte)
    ensures
      var m := Modifier(d, key);
      if key == CAPS_PRESS then m.caps && m.capsCount == d.capsCount + 1
      else if key == CAPS_RELEASE then (m.caps <==> d.capsCount % 2 == 1) && m.capsCount == d.capsCount
      else m.caps == d.caps && m.capsCount == d.capsCount
  {
  }

  function CapsPresses(es: seq<Event>): nat {
    if es == [] then 0
    else CapsPresses(es[..|es| - 1]) + if es[|es| - 1].Key? && es[|es| - 1].key == CAPS_PRESS then 1 else 0
  }

  /** Pressing and releasing caps lock turns it on and off: over every run in which locks are not dropped,
      after its release it is on if and only if it has been pressed an odd number of times in all. */
  lemma {:induction false} CapsOverRuns(d: Desk, es: seq<Event>)
    requires d.Ok() && d.capsCount <= MAX_INPUT_COUNT
    requires forall i | 0 <= i < |es| :: !DropsLocks(Run(d, es[..i]), es[i])
    ensures Run(d, es).capsCount == d.capsCount + CapsPresses(es)
    ensures es != [] && es[|es| - 1].Key? && es[|es| - 1].key == CAPS_RELEASE ==>
              (Run(d, es).caps <==> (d.capsCount + CapsPresses(es)) % 2 == 1)
    ensures es != [] && es[|es| - 1].Key? && es[|es| - 1].key == CAPS_PRESS ==> Run(d, es).caps
  {
    hide Step, Run, DropsLocks;
    RunOne(d, [], Tick);
    if es != [] {
      var front := es[..|es| - 1];
      assert forall i | 0 <= i < |front| :: front[..i] == es[..i] && front[i] == es[i];
      RunPrefix(d, es, |es|);
      assert es[..|es|] == es;
      CapsOverRuns(d, front);
      CapsStayCounted(d, front);
      CapsLockStep(Run(d, front), es[|es| - 1]);
    }
  }

  /** Which terminal is on display: alt and F1, F2 or F3 put the first, second or third one there, and
      nothing else changes it. */
  lemma DisplayStep(d: Desk, e: Event)
    requires d.Ok() && d.capsCount <= MAX_INPUT_COUNT
    ensures Step(d, e).display == if e.Key? && d.alt && 0x3B <= e.key <= 0x3D then e.key - 0x3A else d.display
  {
    hide Apply, Obey, Meaning, FunctionKey, IsModifier;
    if e.Key? {
      var u := d.(writeOk := true);
      FunctionKeyKeeps(u, e.key);
      ObeyKeeps(FunctionKey(u, e.key), Meaning(FunctionKey(u, e.key), e.key));
      if F1 <= e.key <= F3 {
        SwitchKeysAreNoLocks(u, e.key);
      }
    }
  }

  lemma SwitchKeysAreNoLocks(d: Desk, key: byte)
    requires d.Ok() && d.capsCount <= MAX_INPUT_COUNT && F1 <= key <= F3
    ensures !IsModifier(key) && FunctionKey(d, key) == d
  {
    hide Apply;
  }

  // Letters and lines over runs

  /** At any moment of any run, a letter key adds a capital if and only if shift was pressed last (by event
      `k - 1`), or caps lock is on; otherwise it adds the small letter. */
  lemma LetterOverRuns(d: Desk, es: seq<Event>, k: nat, key: byte)
    requires d.Ok() && d.capsCount <= MAX_INPUT_COUNT && k <= |es|
    requires k > 0 ==> Decides(Run(d, es[..k - 1]), es[k - 1], Shift)
    requires forall i | k <= i < |es| :: !Decides(Run(d, es[..i]), es[i], Shift)
    requires Plain(key).Some? && IsLetter(Plain(key).value) && !(Run(d, es).ctrl && key == L_KEY)
    requires Run(d, es).view[Run(d, es).display].n < FULL
    ensures
      var m := Run(d, es);
      var shifted := if k == 0 then d.shift
                     else Presses(es[k - 1], Shift) && !DropsLocks(Run(d, es[..k - 1]), es[k - 1]);
      var c := if shifted || m.caps then Plain(key).value - 32 else Plain(key).value;
      && Typed(m.view[m.display], Step(m, Key(key, false)).view[m.display], c)
      && (shifted || m.caps <==> 65 <= c <= 90) && (!shifted && !m.caps <==> 97 <= c <= 122)
  {
    hide Step, Run, Typed, Plain, Presses, Releases, DropsLocks, Decides;
    HeldOverRuns(d, es, Shift, k, |es|);
    assert es[..|es|] == es;
    CapsStayCounted(d, es);
    LetterKey(Run(d, es), key);
  }

  /** A line edited at any moment of any run behind a text on the sheet, and then entered, stands on the
      sheet as if it had been printed, and what is printed next starts a row. */
  lemma EnterOverRuns(d: Desk, es: seq<Event>, fs: seq<Event>, s: seq<byte>)
    requires d.Ok() && d.capsCount <= MAX_INPUT_COUNT
    requires
      var m := Run(d, es);
      var t := Run(m, fs).display;
      && Holds(m.view[t], Rows(s)) && m.view[t].n == 0 && forall op | op in OpsFor(m, fs, t) :: Edits(op)
    ensures
      var m := Run(d, es);
      var t := Run(m, fs).display;
      var line, r := Run(m, fs).view[t].Line(), Step(Run(m, fs), Key(ENTER, false)).view[t];
      && line == Stack(OpsFor(m, fs, t), [])
      && Holds(r, Rows(s + Expand(line) + [NEWLINE])) && r.cur % COLS == 0 && r.n == 0
  {
    hide Step, Run, OpsFor, Apply, ApplyAll, Stack, Holds, Rows, Expand, Edits;
    var m := Run(d, es);
    var t := Run(m, fs).display;
    CapsStayCounted(d, es);
    CapsStayCounted(m, fs);
    ChangedOnlyByItsOps(m, fs, t);
    EditedLineOnSheet(OpsFor(m, fs, t), m.view[t], s);
    EnteredLineOnSheet(OpsFor(m, fs, t), m.view[t], s);
    EnterKeyEnters(Run(m, fs));
  }

  /** A read takes only the line of the terminal that is on display and runs its reader, after an Enter;
      the sheets stay as they are. */
  lemma ReadTakesOwnLine(d: Desk, t: int)
    requires d.Ok() && 1 <= t <= TERMINALS
    ensures
      var v, w := d.view[t], Step(d, FinishRead).view[t];
      && SameSheet(v, w) && w.n == v.n && w.count == v.count
      && w.buf == if t == d.display == d.running && d.wake[t] then Fill(KEY_BUF_SIZE, NUL) else v.buf
  {
    hide KeyStep, Put, PutAll, EraseAll;
  }

  // Turns

  function Ticks(es: seq<Event>): nat {
    if es == [] then 0 else Ticks(es[..|es| - 1]) + if es[|es| - 1].Tick? then 1 else 0
  }

  /** The terminals run in the order 1, 2, 3, one tick each. */
  lemma {:induction false} RoundRobin(d: Desk, es: seq<Event>)
    requires d.Ok() && (d.running > 0 || Ticks(es) > 0)
    ensures Run(d, es).running == (d.running - 1 + Ticks(es)) % TERMINALS + 1
  {
    hide Step;
    if es != [] {
      var front, last := es[..|es| - 1], es[|es| - 1];
      if d.running > 0 || Ticks(front) > 0 {
        RoundRobin(d, front);
        RunningStep(Run(d, front), last);
        TurnAfter(d.running - 1 + Ticks(front));
      } else {
        NotYetRunning(d, front);
        RunningStep(Run(d, front), last);
      }
    }
  }

  lemma TurnAfter(k: int)
    ensures (k % TERMINALS + 1) % TERMINALS + 1 == (k + 1) % TERMINALS + 1
  {
  }

  lemma {:induction false} NotYetRunning(d: Desk, es: seq<Event>)
    requires d.Ok() && d.running == 0 && Ticks(es) == 0
    ensures Run(d, es).running == 0
  {
    hide Step;
    if es != [] {
      NotYetRunning(d, es[..|es| - 1]);
      RunningStep(Run(d, es[..|es| - 1]), es[|es| - 1]);
    }
  }

  lemma RunningStep(d: Desk, e: Event)
    requires d.Ok()
    ensures Step(d, e).running == if e.Tick? then d.running % TERMINALS + 1 else d.running
  {
    hide Apply, KeyStep;
    if e.Key? {
      GateAfterKey(d, e.key, e.locked);
    }
  }
}
