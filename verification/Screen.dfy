// The screen as the display hardware keeps it: 25 rows of 80 cells and a cursor. Each operation
// on it is the window's view of the same operation on an endless sheet.
module Screen {
  import opened Bytes
  import opened Paper

  datatype Screen = Screen(cells: seq<byte>, x: int, y: int)
  {
    ghost predicate InBounds() {
      |cells| == CELLS && 0 <= x < COLS && 0 <= y < ROWS
    }
  }

  /** The screen is the window of the sheet, and its cursor is the sheet's cursor. */
  ghost predicate Depicts(s: Screen, t: Term) {
    && s.InBounds() && t.Fits()
    && s.cells == t.Window()
    && t.cur == COLS * (t.top + s.y) + s.x
  }

  function Scrolled(s: Screen): Screen
    requires |s.cells| == CELLS
  {
    if s.y == ROWS then Screen(s.cells[COLS..] + Fill(COLS, BLANK), s.x, ROWS - 1) else s
  }

  /** `putc_advanced`, `putc_background`. */
  function ScreenPut(s: Screen, c: byte): (r: Screen)
    requires s.InBounds()
    ensures r.InBounds()
  {
    if IsBreak(c) then Scrolled(s.(x := 0, y := s.y + 1))
    else Scrolled(Screen(s.cells[COLS * s.y + s.x := c], (s.x + 1) % COLS, if s.x + 1 == COLS then s.y + 1 else s.y))
  }

  /** `backspace`. */
  function ScreenErase(s: Screen): Screen
    requires s.InBounds()
  {
    if s.x == 0 && s.y == 0 then s
    else if s.x == 0 then Screen(s.cells[COLS * s.y - 1 := BLANK], COLS - 1, s.y - 1)
    else Screen(s.cells[COLS * s.y + s.x - 1 := BLANK], s.x - 1, s.y)
  }

  /** `putc`, which the kernel's own messages use: it does not leave its row. */
  function ScreenPutInRow(s: Screen, c: byte): Screen
    requires s.InBounds()
  {
    if IsBreak(c) then Scrolled(s.(x := 0, y := s.y + 1))
    else Screen(s.cells[COLS * s.y + s.x := c], (s.x + 1) % COLS, s.y)
  }

  lemma ScrolledDepicts(s: Screen, t: Term)
    requires |s.cells| == CELLS && 0 <= s.x < COLS && 0 <= s.y <= ROWS && (s.y == ROWS ==> s.x == 0)
    requires |t.paper| == COLS * (t.top + ROWS) && s.cells == t.paper[COLS * t.top..]
    requires |t.buf| == KEY_BUF_SIZE && t.n < KEY_BUF_SIZE && t.count <= KEY_BUF_SIZE
    requires t.cur == COLS * (t.top + s.y) + s.x
    ensures Depicts(Scrolled(s), Settle(t))
  {
  }

  /** Printing on the screen shows printing on the sheet. */
  lemma PutDepicts(s: Screen, t: Term, c: byte)
    requires Depicts(s, t)
    ensures Depicts(ScreenPut(s, c), Put(t, c))
  {
    hide Settle, Scrolled;
    if IsBreak(c) {
      assert t.cur / COLS == t.top + s.y;
      ScrolledDepicts(s.(x := 0, y := s.y + 1), t.(cur := COLS * (t.cur / COLS + 1)));
    } else {
      var u := t.(paper := t.paper[t.cur := c], cur := t.cur + 1);
      var v := Screen(s.cells[COLS * s.y + s.x := c], (s.x + 1) % COLS, if s.x + 1 == COLS then s.y + 1 else s.y);
      assert v.cells == u.paper[COLS * t.top..];
      ScrolledDepicts(v, u);
    }
  }

  /** Prints a text on the screen. */
  function ScreenPutAll(s: Screen, text: seq<byte>): (r: Screen)
    requires s.InBounds()
    ensures r.InBounds()
  {
    if text == [] then s else ScreenPut(ScreenPutAll(s, text[..|text| - 1]), text[|text| - 1])
  }

  lemma {:induction false} PutAllDepicts(s: Screen, t: Term, text: seq<byte>)
    requires Depicts(s, t)
    ensures Depicts(ScreenPutAll(s, text), PutAll(t, text))
  {
    hide ScreenPut, Put, Term.Window;
    if text != [] {
      var front := text[..|text| - 1];
      PutAllDepicts(s, t, front);
      PutDepicts(ScreenPutAll(s, front), PutAll(t, front), text[|text| - 1]);
    }
  }

  /** A cleared screen on which any text has been printed shows the last 25 rows of the text
      wrapped at column 80, with blanks around them, and the cursor stands behind the last row. */
  lemma ScreenShowsText(text: seq<byte>)
    ensures
      var r, rows := ScreenPutAll(Screen(Fill(CELLS, BLANK), 0, 0), text), Rows(text);
      var first := Max(0, |rows| - ROWS);
      && (forall y, x | 0 <= y < ROWS && 0 <= x < COLS ::
            Cell(r.cells, y, x) == if first + y < |rows| && x < |rows[first + y]| then rows[first + y][x] else BLANK)
      && r.y == |rows| - 1 - first && r.x == |rows[|rows| - 1]|
      && (forall i | COLS * r.y + r.x <= i < CELLS :: r.cells[i] == BLANK)
  {
    hide ScreenPutAll, PutAll, Rows, Cleared;
    var t := Cleared(Term([], 0, 0, [], 0, 0));
    ClearedDepicts(Term([], 0, 0, [], 0, 0));
    PutAllDepicts(Screen(Fill(CELLS, BLANK), 0, 0), t, text);
    WindowShowsLastRows(Term([], 0, 0, [], 0, 0), text);
    PrintedTextDisplays(Term([], 0, 0, [], 0, 0), text);
  }

  /** Erasing on the screen shows erasing on the sheet. */
  lemma EraseDepicts(s: Screen, t: Term)
    requires Depicts(s, t)
    ensures Depicts(ScreenErase(s), Erase(t))
  {
    assert s.cells == t.paper[COLS * t.top..];
    if s.x != 0 || s.y != 0 {
      assert s.cells[COLS * s.y + s.x - 1 := BLANK] == t.paper[t.cur - 1 := BLANK][COLS * t.top..];
    }
  }

  /** Above the bottom row, the two ways to print agree exactly on line breaks and before the
      last column. */
  lemma PutInRowIsPut(s: Screen, c: byte)
    requires s.InBounds()
    ensures IsBreak(c) || s.x < COLS - 1 ==> ScreenPutInRow(s, c) == ScreenPut(s, c)
    ensures s.y < ROWS - 1 && ScreenPutInRow(s, c) == ScreenPut(s, c) ==> IsBreak(c) || s.x < COLS - 1
  {
  }

  lemma ClearedDepicts(t: Term)
    requires t.count <= KEY_BUF_SIZE
    ensures Depicts(Screen(Fill(CELLS, BLANK), 0, 0), Cleared(t))
  {
  }

  /** `scroll_up`: every row moves up by one, and the last one is blanked. */
  method ScrollUp(page: array<byte>)
    requires page.Length == CELLS
    modifies page
    ensures page[..] == old(page[..])[COLS..] + Fill(COLS, BLANK)
  {
    var y := 1;
    while y < ROWS
      invariant 1 <= y <= ROWS
      invariant forall i | 0 <= i < COLS * (y - 1) :: page[i] == old(page[i + COLS])
      invariant forall i | COLS * (y - 1) <= i < CELLS :: page[i] == old(page[i])
    {
      var x := 0;
      while x < COLS
        invariant 0 <= x <= COLS
        invariant forall i | 0 <= i < COLS * (y - 1) + x :: page[i] == old(page[i + COLS])
        invariant forall i | COLS * (y - 1) + x <= i < CELLS :: page[i] == old(page[i])
      {
        var origin := COLS * y + x;
        var update := COLS * (y - 1) + x;
        page[update] := page[origin];
        x := x + 1;
      }
      y := y + 1;
    }
    var x := 0;
    while x < COLS
      invariant 0 <= x <= COLS
      invariant forall i | 0 <= i < CELLS - COLS :: page[i] == old(page[i + COLS])
      invariant forall i | CELLS - COLS <= i < CELLS - COLS + x :: page[i] == BLANK
    {
      page[(ROWS - 1) * COLS + x] := BLANK;
      x := x + 1;
    }
  }
}
