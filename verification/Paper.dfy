// A terminal seen by itself: an endless sheet of paper with a 25-row window, a cursor, and a
// line being edited. Nothing here knows about screens, saved pages or other terminals.
module Paper {
  import opened Bytes

  const COLS := 80
  const ROWS := 25
  const CELLS := 2000
  const KEY_BUF_SIZE := 128
  const BLANK: byte := SPACE

  predicate IsBreak(c: byte) {
    c == NEWLINE || c == RETURN
  }

  /** `paper` is the sheet, row after row, down to the bottom of the window; `top` counts the
      rows that have left the window; `cur` is the cursor, as an index into the sheet. The line
      being edited is `buf[..n]`; `count` is the length of the last line entered. */
  datatype Term = Term(paper: seq<byte>, top: nat, cur: nat, buf: seq<byte>, n: nat, count: nat)
  {
    ghost predicate Fits() {
      && |paper| == COLS * (top + ROWS)
      && COLS * top <= cur < COLS * (top + ROWS)
      && |buf| == KEY_BUF_SIZE && n < KEY_BUF_SIZE && count <= KEY_BUF_SIZE
    }

    /** The part of the sheet that is on display. */
    function Window(): seq<byte>
      requires Fits()
    {
      paper[COLS * top..]
    }

    function Line(): seq<byte>
      requires Fits()
    {
      buf[..n]
    }
  }

  /** A cleared terminal, keeping nothing of the line being edited. */
  function Cleared(t: Term): (r: Term)
    ensures r.Fits() <== t.count <= KEY_BUF_SIZE
  {
    Term(Fill(CELLS, BLANK), 0, 0, Fill(KEY_BUF_SIZE, NUL), 0, t.count)
  }

  /** Brings a fresh row into the window when the cursor has left it at the bottom. */
  function Settle(t: Term): Term {
    if t.cur == COLS * (t.top + ROWS) then t.(paper := t.paper + Fill(COLS, BLANK), top := t.top + 1) else t
  }

  /** Prints one character. */
  function Put(t: Term, c: byte): (r: Term)
    requires t.Fits()
    ensures r.Fits() && r.buf == t.buf && r.n == t.n && r.count == t.count
  {
    if IsBreak(c) then Settle(t.(cur := COLS * (t.cur / COLS + 1)))
    else Settle(t.(paper := t.paper[t.cur := c], cur := t.cur + 1))
  }

  /** Blanks the character before the cursor, unless the cursor is at the top left corner. */
  function Erase(t: Term): (r: Term)
    requires t.Fits()
    ensures r.Fits() && r.buf == t.buf && r.n == t.n && r.count == t.count
  {
    if t.cur == COLS * t.top then t else t.(paper := t.paper[t.cur - 1 := BLANK], cur := t.cur - 1)
  }

  /** Prints a text. */
  function PutAll(t: Term, s: seq<byte>): (r: Term)
    requires t.Fits()
    ensures r.Fits() && r.buf == t.buf && r.n == t.n && r.count == t.count
  {
    if s == [] then t else Put(PutAll(t, s[..|s| - 1]), s[|s| - 1])
  }

  lemma PutAllNone(t: Term)
    requires t.Fits()
    ensures PutAll(t, []) == t
  {
  }

  lemma PutAllOne(t: Term, s: seq<byte>, c: byte)
    requires t.Fits()
    ensures PutAll(t, s + [c]) == Put(PutAll(t, s), c)
  {
    assert (s + [c])[..|s|] == s;
  }

  /** Whatever is printed moves the cursor down the sheet. */
  lemma {:induction false} PutAllMoves(t: Term, s: seq<byte>)
    requires t.Fits()
    ensures PutAll(t, s).cur >= t.cur + |s|
  {
    hide Put;
    if s != [] {
      PutAllMoves(t, s[..|s| - 1]);
      PutMoves(PutAll(t, s[..|s| - 1]), s[|s| - 1]);
    }
  }

  lemma PutMoves(t: Term, c: byte)
    requires t.Fits()
    ensures Put(t, c).cur > t.cur
  {
  }

  // The text wrapped at column 80

  /** A paragraph cut into rows; a row that fills up is followed by a row, possibly empty. */
  function Wrap(p: seq<byte>): (r: seq<seq<byte>>)
    ensures r != [] && |r[|r| - 1]| < COLS
    ensures forall i | 0 <= i < |r| - 1 :: |r[i]| == COLS
  {
    if |p| < COLS then [p] else [p[..COLS]] + Wrap(p[COLS..])
  }

  /** The first newline or carriage return of a text, or its length. */
  function BreakAt(s: seq<byte>): (k: nat)
    ensures k <= |s|
    ensures forall i | 0 <= i < k :: !IsBreak(s[i])
    ensures k < |s| ==> IsBreak(s[k])
  {
    if s == [] || IsBreak(s[0]) then 0 else 1 + BreakAt(s[1..])
  }

  /** The rows of a text: its paragraphs, each one wrapped. */
  function Rows(s: seq<byte>): (r: seq<seq<byte>>)
    ensures r != [] && |r[|r| - 1]| < COLS
    ensures forall i | 0 <= i < |r| :: |r[i]| <= COLS
  {
    var k := BreakAt(s);
    if k == |s| then Wrap(s) else Wrap(s[..k]) + Rows(s[k + 1..])
  }

  /** What one more character does to the rows. */
  function RowsStep(rows: seq<seq<byte>>, c: byte): seq<seq<byte>>
    requires rows != []
  {
    var last := rows[|rows| - 1];
    if IsBreak(c) then rows + [[]]
    else if |last| + 1 < COLS then rows[..|rows| - 1] + [last + [c]]
    else rows[..|rows| - 1] + [last + [c], []]
  }

  lemma RowsStepAfter(a: seq<seq<byte>>, rows: seq<seq<byte>>, c: byte)
    requires rows != []
    ensures RowsStep(a + rows, c) == a + RowsStep(rows, c)
  {
    assert (a + rows)[..|a + rows| - 1] == a + rows[..|rows| - 1];
  }

  lemma {:induction false} WrapOne(p: seq<byte>, c: byte)
    requires !IsBreak(c)
    ensures Wrap(p + [c]) == RowsStep(Wrap(p), c)
    decreases |p|
  {
    var q := p + [c];
    if |p| < COLS {
      if |q| == COLS {
        assert q[..COLS] == q && q[COLS..] == [];
        assert Wrap(q) == [q, []];
      }
    } else {
      assert q[..COLS] == p[..COLS] && q[COLS..] == p[COLS..] + [c];
      WrapOne(p[COLS..], c);
      RowsStepAfter([p[..COLS]], Wrap(p[COLS..]), c);
    }
  }

  lemma BreakAtIs(s: seq<byte>, k: nat)
    requires k <= |s| && (forall i | 0 <= i < k :: !IsBreak(s[i])) && (k < |s| ==> IsBreak(s[k]))
    ensures BreakAt(s) == k
  {
  }

  lemma RowsSplit(s: seq<byte>, k: nat)
    requires k <= |s| && (forall i | 0 <= i < k :: !IsBreak(s[i])) && (k < |s| ==> IsBreak(s[k]))
    ensures Rows(s) == if k == |s| then Wrap(s) else Wrap(s[..k]) + Rows(s[k + 1..])
  {
    hide Wrap, BreakAt, IsBreak;
    BreakAtIs(s, k);
  }

  lemma {:induction false} RowsOne(s: seq<byte>, c: byte)
    ensures Rows(s + [c]) == RowsStep(Rows(s), c)
    decreases |s|
  {
    hide Rows, Wrap, RowsStep, IsBreak;
    var q, k := s + [c], BreakAt(s);
    RowsSplit(s, k);
    RowsSplit(q, if k < |s| || IsBreak(c) then k else |q|);
    if k < |s| {
      assert q[..k] == s[..k] && q[k + 1..] == s[k + 1..] + [c];
      RowsOne(s[k + 1..], c);
      RowsStepAfter(Wrap(s[..k]), Rows(s[k + 1..]), c);
    } else if IsBreak(c) {
      assert q[..k] == s && q[k + 1..] == [];
      BreakStartsRow(Wrap(s), c);
    } else {
      WrapOne(s, c);
    }
  }

  /** A newline (10) or a carriage return (13) starts a row; any other character extends the last row, and
      starts one behind it when the row has got 80 characters. */
  lemma RowsGrow(s: seq<byte>, c: byte)
    ensures
      var rows := Rows(s);
      var last := rows[|rows| - 1];
      Rows(s + [c]) ==
        if c == 10 || c == 13 then rows + [[]]
        else if |last| < 79 then rows[..|rows| - 1] + [last + [c]]
        else rows[..|rows| - 1] + [last + [c], []]
  {
    RowsOne(s, c);
  }

  lemma BreakStartsRow(rows: seq<seq<byte>>, c: byte)
    requires rows != [] && IsBreak(c)
    ensures RowsStep(rows, c) == rows + Rows([])
  {
    assert Rows([]) == [[]];
  }

  /** Cell `i` of a sheet on which the rows are written from the top. */
  function CellOf(rows: seq<seq<byte>>, i: nat): byte {
    if i / COLS < |rows| && i % COLS < |rows[i / COLS]| then rows[i / COLS][i % COLS] else BLANK
  }

  /** The sheet holds exactly these rows, and the cursor stands behind the last one. */
  ghost predicate Holds(t: Term, rows: seq<seq<byte>>)
    requires rows != []
    ensures Holds(t, rows) ==> t.Fits()
  {
    && t.Fits() && t.cur == End(rows)
    && forall i | 0 <= i < |t.paper| :: t.paper[i] == CellOf(rows, i)
  }

  /** The cell behind the last row. */
  function End(rows: seq<seq<byte>>): nat
    requires rows != []
  {
    COLS * (|rows| - 1) + |rows[|rows| - 1]|
  }

  /** The terminal shows exactly these rows: the sheet holds them and nothing else, the cursor
      stands behind the last one, and the window shows the last 25 rows. */
  ghost predicate Displays(t: Term, rows: seq<seq<byte>>)
    requires rows != []
    ensures Displays(t, rows) ==> t.Fits()
  {
    Holds(t, rows) && t.top == Max(0, |rows| - ROWS)
  }

  lemma PutHolds(t: Term, rows: seq<seq<byte>>, c: byte)
    requires rows != [] && |rows[|rows| - 1]| < COLS && Holds(t, rows)
    ensures Holds(Put(t, c), RowsStep(rows, c))
  {
    var next := RowsStep(rows, c);
    var last := |rows| - 1;
    assert t.cur / COLS == last && t.cur % COLS == |rows[last]|;
    forall i | 0 <= i < |Put(t, c).paper| ensures Put(t, c).paper[i] == CellOf(next, i) {
      if i == t.cur && !IsBreak(c) {
        assert next[last] == rows[last] + [c];
      } else {
        assert i == COLS * (i / COLS) + i % COLS;
        assert CellOf(next, i) == CellOf(rows, i);
      }
    }
  }

  lemma PutDisplays(t: Term, rows: seq<seq<byte>>, c: byte)
    requires rows != [] && |rows[|rows| - 1]| < COLS && Displays(t, rows)
    ensures Displays(Put(t, c), RowsStep(rows, c))
  {
    PutHolds(t, rows, c);
    hide CellOf;
  }

  /** Characters other than breaks go to the cells behind the last row, one after the other. */
  lemma {:induction false} RowsWith(s: seq<byte>, x: seq<byte>)
    requires forall i | 0 <= i < |x| :: !IsBreak(x[i])
    ensures End(Rows(s + x)) == End(Rows(s)) + |x|
    ensures forall i: nat :: CellOf(Rows(s + x), i) ==
              if End(Rows(s)) <= i < End(Rows(s)) + |x| then x[i - End(Rows(s))] else CellOf(Rows(s), i)
    decreases |x|
  {
    hide Rows, CellOf, End;
    if x == [] {
      assert s + x == s;
    } else {
      var front, c := x[..|x| - 1], x[|x| - 1];
      RowsWith(s, front);
      assert s + x == s + front + [c];
      RowsOne(s + front, c);
      CellStep(Rows(s + front), c);
    }
  }

  lemma CellStep(rows: seq<seq<byte>>, c: byte)
    requires rows != [] && |rows[|rows| - 1]| < COLS && !IsBreak(c)
    ensures End(RowsStep(rows, c)) == End(rows) + 1
    ensures forall i: nat :: CellOf(RowsStep(rows, c), i) == if i == End(rows) then c else CellOf(rows, i)
  {
    var next, last := RowsStep(rows, c), |rows| - 1;
    forall i: nat ensures CellOf(next, i) == if i == End(rows) then c else CellOf(rows, i) {
      assert i == COLS * (i / COLS) + i % COLS;
      assert End(rows) / COLS == last && End(rows) % COLS == |rows[last]|;
      assert next[last] == rows[last] + [c];
    }
  }

  lemma BlankBehind(t: Term, rows: seq<seq<byte>>)
    requires rows != [] && Holds(t, rows)
    ensures forall i | t.cur <= i < |t.paper| :: t.paper[i] == BLANK
  {
    forall i | t.cur <= i < |t.paper| ensures t.paper[i] == BLANK {
      assert i / COLS > |rows| - 1 || (i / COLS == |rows| - 1 && i % COLS >= |rows[|rows| - 1]|);
    }
  }

  lemma ClearedDisplays(t: Term)
    requires t.count <= KEY_BUF_SIZE
    ensures Rows([]) == [[]] && Displays(Cleared(t), [[]])
  {
  }

  /** From a cleared terminal, any text leaves exactly its wrapped rows on the sheet. */
  lemma {:induction false} PrintedTextDisplays(t: Term, s: seq<byte>)
    requires t.count <= KEY_BUF_SIZE
    ensures Displays(PutAll(Cleared(t), s), Rows(s))
  {
    hide Displays, Rows, RowsStep, Put, Cleared;
    ClearedDisplays(t);
    if s != [] {
      var front, c := s[..|s| - 1], s[|s| - 1];
      PrintedTextDisplays(t, front);
      PutDisplays(PutAll(Cleared(t), front), Rows(front), c);
      RowsOne(front, c);
      assert s == front + [c];
    }
  }

  /** The character in row `y` and column `x` of a window. */
  function Cell(window: seq<byte>, y: nat, x: nat): byte
    requires |window| == CELLS && y < ROWS && x < COLS
  {
    window[COLS * y + x]
  }

  /** What a terminal that displays some rows shows in row `y` and column `x`. */
  lemma WindowCell(v: Term, rows: seq<seq<byte>>, y: nat, x: nat)
    requires rows != [] && Displays(v, rows) && y < ROWS && x < COLS
    ensures
      var first := Max(0, |rows| - ROWS);
      Cell(v.Window(), y, x) == if first + y < |rows| && x < |rows[first + y]| then rows[first + y][x] else BLANK
  {
    var first := Max(0, |rows| - ROWS);
    var i := COLS * (first + y) + x;
    assert i / COLS == first + y && i % COLS == x;
    assert Cell(v.Window(), y, x) == v.paper[i];
  }

  lemma WindowIsBlankBehind(v: Term, rows: seq<seq<byte>>)
    requires rows != [] && Displays(v, rows)
    ensures forall i | v.cur - COLS * v.top <= i < CELLS :: v.Window()[i] == BLANK
  {
    BlankBehind(v, rows);
    hide Holds;
    forall i | v.cur - COLS * v.top <= i < CELLS ensures v.Window()[i] == BLANK {
      assert v.Window()[i] == v.paper[COLS * v.top + i];
    }
  }

  /** After any text, a terminal that was cleared shows the last 25 rows of the text wrapped at
      column 80, padded with blanks; the cursor is inside the window, and everything from the
      cursor on is blank. */
  lemma WindowShowsLastRows(t: Term, s: seq<byte>)
    requires t.count <= KEY_BUF_SIZE
    ensures
      var v, rows := PutAll(Cleared(t), s), Rows(s);
      var first := Max(0, |rows| - ROWS);
      && (forall y, x | 0 <= y < ROWS && 0 <= x < COLS ::
            Cell(v.Window(), y, x) ==
              if first + y < |rows| && x < |rows[first + y]| then rows[first + y][x] else BLANK)
      && (forall i | v.cur - COLS * v.top <= i < CELLS :: v.Window()[i] == BLANK)
  {
    hide Rows, PutAll, Cleared, Displays, Cell;
    PrintedTextDisplays(t, s);
    var v, rows := PutAll(Cleared(t), s), Rows(s);
    forall y, x | 0 <= y < ROWS && 0 <= x < COLS
      ensures
        var first := Max(0, |rows| - ROWS);
        Cell(v.Window(), y, x) == if first + y < |rows| && x < |rows[first + y]| then rows[first + y][x] else BLANK
    {
      WindowCell(v, rows, y, x);
    }
    WindowIsBlankBehind(v, rows);
  }
}
