// What can happen to one terminal: printing, and the keys that edit and enter a line.
module EditLine {
  import opened Bytes
  import opened Paper

  const TAB_WIDTH := 4
  const FULL := 127

  datatype Op =
    | Nothing
    | Print(text: seq<byte>)
    | Type(c: byte)
    | TabKey
    | EraseKey
    | EnterKey
    | ClearKey(banner: seq<byte>)
    | Forget  // the edit buffer is reset, and the screen is not
    | Drain   // a read has taken the entered line

  function EraseAll(t: Term, k: nat): (r: Term)
    requires t.Fits()
    ensures r.Fits() && r.buf == t.buf && r.n == t.n && r.count == t.count
    decreases k
  {
    if k == 0 then t else EraseAll(Erase(t), k - 1)
  }

  /** The cells that the echo of one entry of the line takes. */
  function Echo(c: byte): seq<byte> {
    if c == TAB then Fill(TAB_WIDTH, BLANK) else [c]
  }

  function Enter(t: Term): (r: Term)
    requires t.Fits()
    ensures r.Fits()
  {
    var count := t.n + 1;
    var at := if count == KEY_BUF_SIZE - 2 then t.n + 1 else t.n;
    Put(t, NEWLINE).(buf := t.buf[at := NEWLINE], n := 0, count := count)
  }

  /** A key that adds an entry is ignored when the line is full. */
  function Apply(op: Op, t: Term): (r: Term)
    requires t.Fits()
    ensures r.Fits()
  {
    match op
    case Nothing => t
    case Print(text) => PutAll(t, text)
    case Type(c) => if t.n == FULL then t else Put(t, c).(buf := t.buf[t.n := c], n := t.n + 1)
    case TabKey => if t.n == FULL then t else PutAll(t, Echo(TAB)).(buf := t.buf[t.n := TAB], n := t.n + 1)
    case EraseKey => if t.n == 0 then t else EraseAll(t, |Echo(t.buf[t.n - 1])|).(n := t.n - 1)
    case EnterKey => Enter(t)
    case ClearKey(banner) => PutAll(Cleared(t), banner)
    case Forget => t.(buf := Fill(KEY_BUF_SIZE, NUL), n := 0)
    case Drain => t.(buf := Fill(KEY_BUF_SIZE, NUL))
  }

  function ApplyAll(ops: seq<Op>, t: Term): (r: Term)
    requires t.Fits()
    ensures r.Fits()
  {
    if ops == [] then t else Apply(ops[|ops| - 1], ApplyAll(ops[..|ops| - 1], t))
  }

  // Editing one line

  /** What a key does while a line is being edited; many keys do nothing. */
  predicate Edits(op: Op) {
    op.Nothing? || (op.Type? && !IsBreak(op.c) && op.c != TAB) || op.TabKey? || op.EraseKey?
  }

  /** The line as a stack of at most 127 entries. */
  function StackStep(op: Op, line: seq<byte>): (r: seq<byte>)
    requires Edits(op) && |line| <= FULL
    ensures |r| <= FULL
  {
    match op
    case Type(c) => if |line| == FULL then line else line + [c]
    case TabKey => if |line| == FULL then line else line + [TAB]
    case Nothing => line
    case EraseKey => if line == [] then line else line[..|line| - 1]
  }

  function Stack(ops: seq<Op>, line: seq<byte>): (r: seq<byte>)
    requires |line| <= FULL && forall op | op in ops :: Edits(op)
    ensures |r| <= FULL
  {
    if ops == [] then line else StackStep(ops[|ops| - 1], Stack(ops[..|ops| - 1], line))
  }

  /** The echo of a whole line. */
  function Expand(line: seq<byte>): (r: seq<byte>)
    ensures |r| <= TAB_WIDTH * |line|
  {
    if line == [] then [] else Expand(line[..|line| - 1]) + Echo(line[|line| - 1])
  }

  /** The cells from the prompt to the cursor are the echo of the line; the prompt is still in
      the window, and everything from the cursor on is blank. */
  ghost predicate Echoes(t: Term, prompt: nat) {
    && t.Fits()
    && COLS * t.top <= prompt
    && t.cur == prompt + |Expand(t.Line())|
    && t.paper[prompt..t.cur] == Expand(t.Line())
    && forall i | t.cur <= i < |t.paper| :: t.paper[i] == BLANK
  }

  /** Printing a character other than a break: the sheet up to the cursor grows by it. */
  ghost predicate Extends(t: Term, r: Term, s: seq<byte>) {
    && t.Fits() && r.Fits()
    && r.cur == t.cur + |s|
    && r.paper[..r.cur] == t.paper[..t.cur] + s
    && (r.top == t.top || COLS * (r.top + ROWS - 1) <= r.cur)
    && forall i | r.cur <= i < |r.paper| :: r.paper[i] == BLANK
  }

  lemma PutExtends(t: Term, r: Term, s: seq<byte>, c: byte)
    requires Extends(t, r, s) && !IsBreak(c)
    ensures Extends(t, Put(r, c), s + [c])
  {
    var u := Put(r, c);
    assert u.paper[..u.cur] == r.paper[..r.cur] + [c];
  }

  lemma {:induction false} PutAllExtends(t: Term, s: seq<byte>)
    requires Extends(t, t, []) && forall i | 0 <= i < |s| :: !IsBreak(s[i])
    ensures Extends(t, PutAll(t, s), s)
  {
    if s != [] {
      var front := s[..|s| - 1];
      PutAllExtends(t, front);
      PutExtends(t, PutAll(t, front), front, s[|s| - 1]);
      assert s == front + [s[|s| - 1]];
    }
  }

  lemma {:induction false} EraseAllUndoes(t: Term, k: nat)
    requires t.Fits() && COLS * t.top <= t.cur - k
    requires forall i | t.cur <= i < |t.paper| :: t.paper[i] == BLANK
    ensures
      var r := EraseAll(t, k);
      && r.top == t.top && |r.paper| == |t.paper| && r.cur == t.cur - k
      && r.paper[..r.cur] == t.paper[..r.cur]
      && forall i | r.cur <= i < |r.paper| :: r.paper[i] == BLANK
    decreases k
  {
    if k > 0 {
      EraseAllUndoes(Erase(t), k - 1);
    }
  }

  lemma ExpandOne(line: seq<byte>, c: byte)
    ensures Expand(line + [c]) == Expand(line) + Echo(c)
  {
    assert (line + [c])[..|line|] == line;
  }

  lemma PushSlices(before: seq<byte>, cur: nat, after: seq<byte>, s: seq<byte>, at: nat)
    requires at <= cur <= |before| && cur + |s| <= |after|
    requires after[..cur + |s|] == before[..cur] + s
    ensures after[at..cur + |s|] == before[at..cur] + s && after[..at] == before[..at]
  {
    assert after[at..cur + |s|] == after[..cur + |s|][at..];
    assert after[..at] == after[..cur + |s|][..at];
  }

  lemma PopSlices(before: seq<byte>, cur: nat, after: seq<byte>, a: seq<byte>, s: seq<byte>, at: nat)
    requires at + |a| + |s| == cur <= |before| == |after| && before[at..cur] == a + s
    requires after[..cur - |s|] == before[..cur - |s|]
    ensures after[at..cur - |s|] == a && after[..at] == before[..at]
  {
    assert after[at..cur - |s|] == after[..cur - |s|][at..] == before[..cur - |s|][at..] == (a + s)[..|a|];
    assert after[..at] == after[..cur - |s|][..at];
  }

  /** The window stays close to the cursor, and a full line is shorter than the window. */
  lemma PromptStays(t: Term, r: Term, prompt: nat, s: seq<byte>)
    requires Echoes(t, prompt) && Extends(t, r, s) && t.n < FULL && |s| <= TAB_WIDTH
    ensures COLS * r.top <= prompt
  {
  }

  lemma PushEchoes(t: Term, prompt: nat, c: byte, r: Term)
    requires Echoes(t, prompt) && t.n < FULL && !IsBreak(c)
    requires Extends(t, r, Echo(c))
    ensures Echoes(r.(buf := t.buf[t.n := c], n := t.n + 1), prompt)
    ensures r.paper[..prompt] == t.paper[..prompt]
  {
    hide Expand;
    var u := r.(buf := t.buf[t.n := c], n := t.n + 1);
    assert u.Line() == t.Line() + [c];
    ExpandOne(t.Line(), c);
    PushSlices(t.paper, t.cur, r.paper, Echo(c), prompt);
    PromptStays(t, r, prompt, Echo(c));
  }

  lemma PopEchoes(t: Term, prompt: nat)
    requires Echoes(t, prompt) && t.n > 0
    ensures Echoes(Apply(EraseKey, t), prompt)
    ensures Apply(EraseKey, t).paper[..prompt] == t.paper[..prompt]
  {
    hide Expand, EraseAll;
    var c := t.buf[t.n - 1];
    var r := Apply(EraseKey, t);
    assert t.Line() == r.Line() + [c];
    ExpandOne(r.Line(), c);
    EraseAllUndoes(t, |Echo(c)|);
    PopSlices(t.paper, t.cur, r.paper, Expand(r.Line()), Echo(c), prompt);
  }

  lemma EditStep(op: Op, t: Term, prompt: nat)
    requires Edits(op) && Echoes(t, prompt)
    ensures Echoes(Apply(op, t), prompt)
    ensures Apply(op, t).Line() == StackStep(op, t.Line())
    ensures Apply(op, t).paper[..prompt] == t.paper[..prompt]
  {
    hide Expand, Put, PutAll, EraseAll;
    match op
    case Nothing =>
    case Type(c) =>
      if t.n < FULL {
        PutExtends(t, t, [], c);
        assert [] + [c] == Echo(c);
        PushEchoes(t, prompt, c, Put(t, c));
      }
    case TabKey =>
      if t.n < FULL {
        PutAllExtends(t, Echo(TAB));
        PushEchoes(t, prompt, TAB, PutAll(t, Echo(TAB)));
      }
    case EraseKey =>
      if t.n > 0 {
        PopEchoes(t, prompt);
      }
  }

  /** Any run of typed characters, tabs and backspaces edits the line as a stack of at most 127
      entries, and keeps its echo between the prompt and the cursor, across row ends and
      scrolling. Nothing before the prompt changes, and an empty line has its cursor at the
      prompt. */
  lemma {:induction false} EditingIsAStack(ops: seq<Op>, t: Term, prompt: nat)
    requires Echoes(t, prompt) && forall op | op in ops :: Edits(op)
    ensures
      var r := ApplyAll(ops, t);
      && r.Line() == Stack(ops, t.Line())
      && Echoes(r, prompt)
      && r.paper[..prompt] == t.paper[..prompt]
      && (r.Line() == [] ==> r.cur == prompt)
  {
    if ops != [] {
      var front := ops[..|ops| - 1];
      EditingIsAStack(front, t, prompt);
      EditStep(ops[|ops| - 1], ApplyAll(front, t), prompt);
    }
  }

  // Where a line can be edited

  /** Everything from the cursor on is blank. */
  ghost predicate BlankAhead(t: Term) {
    t.Fits() && forall i | t.cur <= i < |t.paper| :: t.paper[i] == BLANK
  }

  lemma {:induction false} PutAllKeepsBlank(t: Term, s: seq<byte>)
    requires BlankAhead(t)
    ensures BlankAhead(PutAll(t, s))
  {
    if s != [] {
      PutAllKeepsBlank(t, s[..|s| - 1]);
    }
  }

  lemma {:induction false} EraseAllKeepsBlank(t: Term, k: nat)
    requires BlankAhead(t)
    ensures BlankAhead(EraseAll(t, k))
    decreases k
  {
    if k > 0 {
      EraseAllKeepsBlank(Erase(t), k - 1);
    }
  }

  lemma BlankStep(op: Op, t: Term)
    requires t.Fits() && (BlankAhead(t) || op.ClearKey?)
    ensures BlankAhead(Apply(op, t))
  {
    hide PutAll, EraseAll;
    match op
    case Print(text) => PutAllKeepsBlank(t, text);
    case TabKey => PutAllKeepsBlank(t, Echo(TAB));
    case EraseKey => if t.n > 0 { EraseAllKeepsBlank(t, |Echo(t.buf[t.n - 1])|); }
    case ClearKey(banner) => PutAllKeepsBlank(Cleared(t), banner);
    case _ =>
  }

  /** Whatever happens, a terminal that was blank from the cursor on or has been cleared is blank
      from the cursor on. */
  lemma {:induction false} BlankAheadEver(ops: seq<Op>, t: Term)
    requires t.Fits() && (BlankAhead(t) || exists op :: op in ops && op.ClearKey?)
    ensures BlankAhead(ApplyAll(ops, t))
  {
    hide BlankAhead, Apply;
    if ops != [] {
      var front, last := ops[..|ops| - 1], ops[|ops| - 1];
      if BlankAhead(t) || exists op :: op in front && op.ClearKey? {
        BlankAheadEver(front, t);
      } else {
        assert ops == front + [last];
      }
      BlankStep(last, ApplyAll(front, t));
    }
  }

  /** An empty line can be edited where the cursor is, whatever was printed before. */
  lemma EmptyLineIsPrompt(t: Term)
    requires BlankAhead(t) && t.n == 0
    ensures Echoes(t, t.cur) && t.Line() == []
  {
  }

  /** A text printed on a cleared terminal ends in a prompt for an empty line. */
  lemma PromptOnCleared(t: Term, s: seq<byte>)
    requires t.count <= KEY_BUF_SIZE
    ensures Echoes(PutAll(Cleared(t), s), PutAll(Cleared(t), s).cur)
  {
    PutAllKeepsBlank(Cleared(t), s);
    EmptyLineIsPrompt(PutAll(Cleared(t), s));
  }

  // What a line and Enter leave on the sheet

  lemma {:induction false} ExpandHasNoBreak(line: seq<byte>)
    requires forall i | 0 <= i < |line| :: !IsBreak(line[i])
    ensures forall i | 0 <= i < |Expand(line)| :: !IsBreak(Expand(line)[i])
  {
    if line != [] {
      ExpandHasNoBreak(line[..|line| - 1]);
    }
  }

  lemma {:induction false} StackHasNoBreak(ops: seq<Op>, line: seq<byte>)
    requires |line| <= FULL && (forall op | op in ops :: Edits(op)) && forall i | 0 <= i < |line| :: !IsBreak(line[i])
    ensures forall i | 0 <= i < |Stack(ops, line)| :: !IsBreak(Stack(ops, line)[i])
  {
    if ops != [] {
      assert Edits(ops[|ops| - 1]);
      StackHasNoBreak(ops[..|ops| - 1], line);
    }
  }

  /** A line edited behind a text on the sheet stands on the sheet as if it had been printed. */
  lemma EditedLineOnSheet(ops: seq<Op>, t: Term, s: seq<byte>)
    requires Holds(t, Rows(s)) && t.n == 0 && forall op | op in ops :: Edits(op)
    ensures ApplyAll(ops, t).Line() == Stack(ops, [])
    ensures Holds(ApplyAll(ops, t), Rows(s + Expand(Stack(ops, []))))
  {
    hide Rows, CellOf, Apply, ApplyAll, Stack, End;
    var r, x := ApplyAll(ops, t), Expand(Stack(ops, []));
    BlankBehind(t, Rows(s));
    EmptyLineIsPrompt(t);
    EditingIsAStack(ops, t, t.cur);
    StackHasNoBreak(ops, []);
    ExpandHasNoBreak(Stack(ops, []));
    RowsWith(s, x);
    forall i | 0 <= i < |r.paper| ensures r.paper[i] == CellOf(Rows(s + x), i) {
      SheetCell(t, r, x, i);
      BlankOutside(t, Rows(s), i);
    }
  }

  lemma SheetCell(t: Term, r: Term, x: seq<byte>, i: nat)
    requires t.Fits() && r.Fits() && r.cur == t.cur + |x| && i < |r.paper|
    requires r.paper[..t.cur] == t.paper[..t.cur] && r.paper[t.cur..r.cur] == x
    requires forall j | r.cur <= j < |r.paper| :: r.paper[j] == BLANK
    ensures r.paper[i] == if i < t.cur then t.paper[i] else if i < r.cur then x[i - t.cur] else BLANK
  {
    if i < t.cur {
      assert r.paper[..t.cur][i] == t.paper[..t.cur][i];
    } else if i < r.cur {
      assert r.paper[t.cur..r.cur][i - t.cur] == x[i - t.cur];
    }
  }

  lemma BlankOutside(t: Term, rows: seq<seq<byte>>, i: nat)
    requires rows != [] && Holds(t, rows)
    ensures i >= t.cur ==> CellOf(rows, i) == BLANK
    ensures i < t.cur ==> CellOf(rows, i) == t.paper[i]
  {
    if i >= t.cur {
      assert i / COLS > |rows| - 1 || (i / COLS == |rows| - 1 && i % COLS >= |rows[|rows| - 1]|);
    }
  }

  /** After editing and Enter the sheet holds the text before, the echo of the line, and a line break:
      whatever is printed next starts a row. */
  lemma EnteredLineOnSheet(ops: seq<Op>, t: Term, s: seq<byte>)
    requires Holds(t, Rows(s)) && t.n == 0 && forall op | op in ops :: Edits(op)
    ensures
      var r := Apply(EnterKey, ApplyAll(ops, t));
      && Holds(r, Rows(s + Expand(Stack(ops, [])) + [NEWLINE])) && r.cur % COLS == 0 && r.n == 0
      && r.cur > ApplyAll(ops, t).cur
  {
    hide Apply, ApplyAll, Stack, Rows, CellOf, RowsStep;
    var v, x := ApplyAll(ops, t), s + Expand(Stack(ops, []));
    EditedLineOnSheet(ops, t, s);
    PutHolds(v, Rows(x), NEWLINE);
    RowsOne(x, NEWLINE);
    EnterPrintsBreak(v);
  }

  lemma EnterPrintsBreak(t: Term)
    requires t.Fits()
    ensures
      var r, p := Apply(EnterKey, t), Put(t, NEWLINE);
      && r.paper == p.paper && r.top == p.top && r.cur == p.cur && r.n == 0
      && r.cur % COLS == 0 && r.cur > t.cur
  {
  }

  /** The keys that type a line. */
  function Typing(line: seq<byte>): seq<Op> {
    if line == [] then []
    else Typing(line[..|line| - 1]) + [if line[|line| - 1] == TAB then TabKey else Type(line[|line| - 1])]
  }

  /** A line that is typed without corrections also leaves the window where printing would. */
  lemma {:induction false} TypedLineDisplays(t: Term, s: seq<byte>, line: seq<byte>)
    requires Displays(t, Rows(s)) && t.n == 0 && |line| <= FULL && forall i | 0 <= i < |line| :: !IsBreak(line[i])
    ensures ApplyAll(Typing(line), t).Line() == line
    ensures Displays(ApplyAll(Typing(line), t), Rows(s + Expand(line)))
    decreases |line|
  {
    hide Rows, Displays, PutAll, Apply, Expand, Echo;
    if line == [] {
      ExpandNothing(s);
    } else {
      var front, c := line[..|line| - 1], line[|line| - 1];
      TypedLineDisplays(t, s, front);
      var before := ApplyAll(Typing(front), t);
      assert line == front + [c];
      ExpandOne(front, c);
      Associate(s, Expand(front), Echo(c));
      PrintedDisplays(before, s + Expand(front), Echo(c));
      TypeOne(before, c);
      TypingOne(line);
    }
  }

  lemma TypingOne(line: seq<byte>)
    requires line != []
    ensures
      var ops, c := Typing(line), line[|line| - 1];
      && ops != [] && ops[..|ops| - 1] == Typing(line[..|line| - 1])
      && ops[|ops| - 1] == if c == TAB then TabKey else Type(c)
  {
  }

  lemma ExpandNothing(s: seq<byte>)
    ensures s + Expand([]) == s
  {
  }

  lemma TypeOne(t: Term, c: byte)
    requires t.Fits() && t.n < FULL
    ensures
      var r := Apply(if c == TAB then TabKey else Type(c), t);
      && r.Line() == t.Line() + [c] && SameSheet(r, PutAll(t, Echo(c)))
  {
    hide Put;
    assert [c][..0] == [];
  }

  ghost predicate SameSheet(a: Term, b: Term) {
    a.Fits() && b.Fits() && a.paper == b.paper && a.top == b.top && a.cur == b.cur
  }

  lemma {:induction false} PrintedDisplays(t: Term, s: seq<byte>, x: seq<byte>)
    requires Displays(t, Rows(s))
    ensures forall r | SameSheet(r, PutAll(t, x)) :: Displays(r, Rows(s + x))
  {
    hide Rows, Put, RowsStep;
    if x == [] {
      assert s + x == s;
    } else {
      var front, c := x[..|x| - 1], x[|x| - 1];
      PrintedDisplays(t, s, front);
      assert Displays(PutAll(t, front), Rows(s + front));
      PutDisplays(PutAll(t, front), Rows(s + front), c);
      RowsOne(s + front, c);
      assert s + x == s + front + [c];
    }
  }

  /** And so does Enter after it. */
  lemma EnteredLineDisplays(t: Term, s: seq<byte>, line: seq<byte>)
    requires Displays(t, Rows(s)) && t.n == 0 && |line| <= FULL && forall i | 0 <= i < |line| :: !IsBreak(line[i])
    ensures Displays(Apply(EnterKey, ApplyAll(Typing(line), t)), Rows(s + Expand(line) + [NEWLINE]))
  {
    hide Rows, Displays, Apply, ApplyAll, RowsStep;
    var v, x := ApplyAll(Typing(line), t), s + Expand(line);
    TypedLineDisplays(t, s, line);
    PutDisplays(v, Rows(x), NEWLINE);
    RowsOne(x, NEWLINE);
    EnterPrintsBreak(v);
    SameSheetDisplays(Put(v, NEWLINE), Apply(EnterKey, v), Rows(x + [NEWLINE]));
  }

  lemma SameSheetDisplays(t: Term, r: Term, rows: seq<seq<byte>>)
    requires rows != [] && Displays(t, rows) && r.Fits() && r.paper == t.paper && r.top == t.top && r.cur == t.cur
    ensures Displays(r, rows)
  {
  }

  // Entering a line and reading it

  /** What a read of `n` bytes takes from the edit buffer. */
  function Read(t: Term, n: nat): seq<byte>
    requires t.Fits()
  {
    t.buf[..Min(n, t.count)]
  }

  /** Slot 125 of the edit buffer, which a 125-character line leaves behind its last character,
      never holds a newline. */
  ghost predicate NoStrayNewline(t: Term) {
    |t.buf| == KEY_BUF_SIZE && t.buf[KEY_BUF_SIZE - 3] != NEWLINE
  }

  lemma {:induction false} NoStrayNewlineEver(ops: seq<Op>, t: Term)
    requires t.Fits() && NoStrayNewline(t)
    requires forall op | op in ops :: op.Type? ==> op.c != NEWLINE
    ensures NoStrayNewline(ApplyAll(ops, t))
  {
    if ops != [] {
      NoStrayNewlineEver(ops[..|ops| - 1], t);
    }
  }

  /** What neither types into the line nor takes it away: output, ignored keys, and backspaces, which
      find nothing to erase once a line has been entered. */
  predicate TypesNothing(op: Op) {
    op.Nothing? || op.Print? || op.EraseKey?
  }

  /** An entered line stays in the edit buffer until more is typed. */
  lemma {:induction false} EnteredLineStays(ops: seq<Op>, t: Term)
    requires t.Fits() && t.n == 0 && forall op | op in ops :: TypesNothing(op)
    ensures
      var r := ApplyAll(ops, t);
      r.buf == t.buf && r.n == 0 && r.count == t.count
  {
    if ops != [] {
      assert TypesNothing(ops[|ops| - 1]);
      EnteredLineStays(ops[..|ops| - 1], t);
    }
  }

  /** An entered line is read as its first bytes followed by a newline, except that a line of
      125 characters loses its newline when more than 125 bytes are asked for. */
  lemma ReadDeliversLine(t: Term, n: nat)
    requires t.Fits() && NoStrayNewline(t)
    ensures Read(Enter(t), n) == Take(t.Line() + [NEWLINE], n) <==> t.n != KEY_BUF_SIZE - 3 || n < KEY_BUF_SIZE - 2
  {
    var e := Enter(t);
    var wanted := Take(t.Line() + [NEWLINE], n);
    assert |Read(e, n)| == |wanted|;
    if t.n == KEY_BUF_SIZE - 3 && n >= KEY_BUF_SIZE - 2 {
      assert Read(e, n)[t.n] != wanted[t.n];
    }
  }
}
