// The streaming line filter of the user program grep: what it prints, as a property of the
// whole file, and the buffer-sliding loop that prints it.
module Grep {
  import opened Bytes
  import opened TextLines
  import opened FileSystem
  import opened Directory
  import opened Descriptors

  const BUFSIZE := 1024
  const COLON: byte := 58

  const FILE_OPEN_FAILED := Ascii("file open failed\n")
  const FILE_READ_FAILED := Ascii("file read failed\n")
  const FILE_CLOSE_FAILED := Ascii("file close failed\n")

  // The reference: the lines of the whole text that contain the pattern

  ghost predicate OccursAt(line: seq<byte>, s: seq<byte>, i: nat) {
    i + |s| <= |line| && line[i..i + |s|] == s
  }

  /** The pattern is nonempty and occurs in the line. */
  ghost predicate Contains(line: seq<byte>, s: seq<byte>) {
    s != [] && exists i :: OccursAt(line, s, i)
  }

  /** The members of `lines` that contain `s`, in order. */
  ghost function Selected(lines: seq<seq<byte>>, s: seq<byte>): seq<seq<byte>> {
    if lines == [] then []
    else (if Contains(lines[0], s) then [lines[0]] else []) + Selected(lines[1..], s)
  }

  /** Each line on a line of its own, after the file name and a colon. */
  function Report(fname: seq<byte>, lines: seq<seq<byte>>): seq<byte> {
    if lines == [] then [] else fname + [COLON] + lines[0] + [NEWLINE] + Report(fname, lines[1..])
  }

  /** What is printed for some lines is one line for each, in order: the file name, a colon (58) and the
      line. */
  lemma {:induction false} ReportLines(fname: seq<byte>, lines: seq<seq<byte>>)
    requires NEWLINE !in fname && Whole(lines)
    ensures
      var printed := Lines(Report(fname, lines));
      |printed| == |lines| && forall i | 0 <= i < |lines| :: printed[i] == fname + [58] + lines[i]
  {
    if lines != [] {
      ReportLines(fname, lines[1..]);
      var line, rest := fname + [58] + lines[0], Report(fname, lines[1..]);
      FirstLineIs(Report(fname, lines), line, rest);
      assert Report(fname, lines) == line + [NEWLINE] + rest;
    }
  }

  // What a 1024-byte buffer makes of the text

  /** The pieces in which the program looks at a text: its lines, but a line of 1024
      characters or more is cut after every 1024 characters. */
  function Pieces(x: seq<byte>): (r: seq<seq<byte>>)
    decreases |x|
  {
    if x == [] then []
    else if |FirstLine(x)| < BUFSIZE then [FirstLine(x)] + Pieces(Rest(x))
    else [x[..BUFSIZE]] + Pieces(x[BUFSIZE..])
  }

  /** The pieces of one line; `ended` says that a newline follows it. */
  function Cut(line: seq<byte>, ended: bool): (r: seq<seq<byte>>)
    ensures forall p | p in r :: |p| <= BUFSIZE
    ensures |line| < BUFSIZE && (ended || line != []) ==> r == [line]
  {
    if |line| >= BUFSIZE then [line[..BUFSIZE]] + Cut(line[BUFSIZE..], ended)
    else if line == [] && !ended then []
    else [line]
  }

  function Joined(pieces: seq<seq<byte>>): seq<byte> {
    if pieces == [] then [] else pieces[0] + Joined(pieces[1..])
  }

  /** The pieces of a line make it up, and all but the last of them have 1024 characters. */
  lemma {:induction false} CutJoins(line: seq<byte>, ended: bool)
    ensures Joined(Cut(line, ended)) == line
    ensures forall i | 0 <= i < |Cut(line, ended)| - 1 :: |Cut(line, ended)[i]| == 1024
    ensures Cut(line, ended) == [] <==> line == [] && !ended
    decreases |line|
  {
    if |line| >= BUFSIZE {
      CutJoins(line[BUFSIZE..], ended);
      assert Cut(line, ended)[1..] == Cut(line[BUFSIZE..], ended);
      assert line[..BUFSIZE] + line[BUFSIZE..] == line;
    } else if line != [] || ended {
      assert [line][1..] == [];
      assert line + [] == line;
    }
  }

  /** Cutting a piece off a long first line leaves the rest of that line in front. */
  lemma CutFront(x: seq<byte>, n: nat)
    requires n <= |FirstLine(x)|
    ensures FirstLine(x[n..]) == FirstLine(x)[n..] && Rest(x[n..]) == Rest(x) && Ended(x[n..]) == Ended(x)
  {
    LineAndRest(x);
    var line := FirstLine(x)[n..];
    assert x[n..] == line + (if Ended(x) then [NEWLINE] else []) + Rest(x);
    FirstLineIs(x, line, Rest(x));
    assert !Ended(x) ==> x[n..] == line;
  }

  lemma PiecesShortLine(x: seq<byte>)
    requires |FirstLine(x)| < BUFSIZE
    ensures Pieces(x) == Cut(FirstLine(x), Ended(x)) + Pieces(Rest(x))
  {
  }

  lemma PiecesLongLine(x: seq<byte>)
    requires |FirstLine(x)| >= BUFSIZE
    ensures
      var y := x[BUFSIZE..];
      && Pieces(x) == [x[..BUFSIZE]] + Pieces(y)
      && Cut(FirstLine(x), Ended(x)) == [x[..BUFSIZE]] + Cut(FirstLine(y), Ended(y))
      && Rest(y) == Rest(x)
  {
    CutFront(x, BUFSIZE);
    assert x[..BUFSIZE] == FirstLine(x)[..BUFSIZE];
  }

  /** The pieces of a text are the pieces of its first line followed by those of the rest. */
  lemma {:induction false} PiecesByLine(x: seq<byte>)
    ensures Pieces(x) == Cut(FirstLine(x), Ended(x)) + Pieces(Rest(x))
    decreases |x|
  {
    if |FirstLine(x)| < BUFSIZE {
      PiecesShortLine(x);
    } else {
      var y := x[BUFSIZE..];
      PiecesByLine(y);
      PiecesLongLine(x);
      Associate([x[..BUFSIZE]], Cut(FirstLine(y), Ended(y)), Pieces(Rest(y)));
    }
  }

  lemma {:induction false} SelectedConcat(a: seq<seq<byte>>, b: seq<seq<byte>>, s: seq<byte>)
    ensures Selected(a + b, s) == Selected(a, s) + Selected(b, s)
  {
    hide Contains;
    if a == [] {
      assert a + b == b;
    } else {
      assert (a + b)[1..] == a[1..] + b;
      SelectedConcat(a[1..], b, s);
    }
  }

  lemma {:induction false} SelectedMember(lines: seq<seq<byte>>, s: seq<byte>, line: seq<byte>)
    ensures line in Selected(lines, s) <==> line in lines && Contains(line, s)
  {
    if lines != [] {
      SelectedMember(lines[1..], s, line);
      assert lines == [lines[0]] + lines[1..];
    }
  }

  lemma {:induction false} PiecesAreShort(x: seq<byte>, p: seq<byte>)
    requires p in Pieces(x)
    ensures |p| <= BUFSIZE
    decreases |x|
  {
    PiecesByLine(x);
    if p !in Cut(FirstLine(x), Ended(x)) {
      PiecesAreShort(Rest(x), p);
    }
  }

  lemma {:induction false} PiecesAreWhole(x: seq<byte>)
    ensures Whole(Pieces(x))
    decreases |x|
  {
    if x != [] {
      var first := if |FirstLine(x)| < BUFSIZE then FirstLine(x) else x[..BUFSIZE];
      PiecesAreWhole(if |FirstLine(x)| < BUFSIZE then Rest(x) else x[BUFSIZE..]);
      assert forall i | 0 <= i < |first| :: first[i] == FirstLine(x)[i];
      assert Pieces(x)[0] == first;
    }
  }

  lemma {:induction false} SelectedAreWhole(lines: seq<seq<byte>>, s: seq<byte>)
    requires Whole(lines)
    ensures Whole(Selected(lines, s))
  {
    if lines != [] {
      SelectedAreWhole(lines[1..], s);
    }
  }

  /** No piece of a line contains a pattern that the line does not contain. */
  lemma {:induction false} CutSelectsNothing(line: seq<byte>, ended: bool, s: seq<byte>)
    requires !Contains(line, s)
    ensures Selected(Cut(line, ended), s) == []
    decreases |line|
  {
    if |line| >= BUFSIZE {
      forall i: nat | OccursAt(line[..BUFSIZE], s, i) ensures OccursAt(line, s, i) {
        assert line[..BUFSIZE][i..i + |s|] == line[i..i + |s|];
      }
      forall i: nat | OccursAt(line[BUFSIZE..], s, i) ensures OccursAt(line, s, BUFSIZE + i) {
        assert line[BUFSIZE..][i..i + |s|] == line[BUFSIZE + i..BUFSIZE + i + |s|];
      }
      CutSelectsNothing(line[BUFSIZE..], ended, s);
    }
  }

  lemma CutSelectsLine(line: seq<byte>, ended: bool, s: seq<byte>)
    requires Contains(line, s) && |line| <= BUFSIZE
    ensures Selected(Cut(line, ended), s) == [line]
  {
    if |line| == BUFSIZE {
      assert line[..BUFSIZE] == line;
      assert Cut(line, ended) == [line] + Cut([], ended);
      CutSelectsNothing([], ended, s);
    }
  }

  /** The program's notion of line agrees with the reference on a pattern exactly when no line
      that contains the pattern is longer than 1024 characters. */
  lemma ExactOnShortLines(x: seq<byte>, s: seq<byte>)
    ensures Selected(Pieces(x), s) == Selected(Lines(x), s)
       <==> forall line | line in Lines(x) && Contains(line, s) :: |line| <= BUFSIZE
  {
    if forall line | line in Lines(x) && Contains(line, s) :: |line| <= BUFSIZE {
      SameSelection(x, s);
    } else {
      var line :| line in Lines(x) && Contains(line, s) && |line| > BUFSIZE;
      SelectedMember(Lines(x), s, line);
      if line in Selected(Pieces(x), s) {
        SelectedMember(Pieces(x), s, line);
        PiecesAreShort(x, line);
      }
    }
  }

  lemma {:induction false} SameSelection(x: seq<byte>, s: seq<byte>)
    requires forall line | line in Lines(x) && Contains(line, s) :: |line| <= BUFSIZE
    ensures Selected(Pieces(x), s) == Selected(Lines(x), s)
    decreases |x|
  {
    if x != [] {
      var line := FirstLine(x);
      assert Lines(x) == [line] + Lines(Rest(x));
      assert forall l | l in Lines(Rest(x)) :: l in Lines(x);
      SameSelection(Rest(x), s);
      PiecesByLine(x);
      SelectedConcat(Cut(line, Ended(x)), Pieces(Rest(x)), s);
      assert line in Lines(x);
      if Contains(line, s) {
        CutSelectsLine(line, Ended(x), s);
      } else {
        CutSelectsNothing(line, Ended(x), s);
      }
    }
  }

  // The program

  ghost predicate Plain(x: seq<byte>) {
    NUL !in x
  }

  /** What remains to be reported for the unread or unscanned text `x`. */
  ghost function Pending(fname: seq<byte>, x: seq<byte>, s: seq<byte>): seq<byte> {
    Report(fname, Selected(Pieces(x), s))
  }

  /** What one piece adds to the output. */
  ghost function Printed(fname: seq<byte>, piece: seq<byte>, s: seq<byte>): seq<byte> {
    if Contains(piece, s) then fname + [COLON] + piece + [NEWLINE] else []
  }

  lemma ReportStep(fname: seq<byte>, piece: seq<byte>, rest: seq<seq<byte>>, s: seq<byte>)
    ensures Report(fname, Selected([piece] + rest, s)) == Printed(fname, piece, s) + Report(fname, Selected(rest, s))
  {
    assert ([piece] + rest)[1..] == rest;
    var sel := Selected(rest, s);
    if Contains(piece, s) {
      assert Selected([piece] + rest, s) == [piece] + sel;
      assert ([piece] + sel)[1..] == sel;
    } else {
      assert Selected([piece] + rest, s) == sel;
    }
  }

  /** The first piece of `x` is `x[..k]` and `rest` remains: a line that fits the buffer, the
      unfinished end of the text, or as much of a long line as fits. */
  ghost predicate FirstPiece(x: seq<byte>, k: nat, rest: seq<byte>) {
    && k <= |x| && NEWLINE !in x[..k]
    && (|| (k < BUFSIZE && k < |x| && x[k] == NEWLINE && rest == x[k + 1..])
        || (k < BUFSIZE && k == |x| && rest == [])
        || (k == BUFSIZE && rest == x[BUFSIZE..]))
  }

  lemma PieceStep(fname: seq<byte>, x: seq<byte>, k: nat, rest: seq<byte>, s: seq<byte>)
    requires FirstPiece(x, k, rest)
    ensures Pending(fname, x, s) == Printed(fname, x[..k], s) + Pending(fname, rest, s)
  {
    if x != [] {
      FirstPieceIsFirst(x, k, rest);
      ReportStep(fname, x[..k], Pieces(rest), s);
    }
  }

  lemma FirstLineReaches(x: seq<byte>, k: nat)
    requires k <= |x| && NEWLINE !in x[..k]
    ensures |FirstLine(x)| >= k
  {
    assert forall i | 0 <= i < k :: x[..k][i] == x[i];
  }

  lemma FirstPieceIsFirst(x: seq<byte>, k: nat, rest: seq<byte>)
    requires x != [] && FirstPiece(x, k, rest)
    ensures Pieces(x) == [x[..k]] + Pieces(rest)
  {
    if k == BUFSIZE {
      FirstLineReaches(x, k);
    } else {
      FirstLineEndsAt(x, k, rest);
    }
  }

  lemma FirstLineEndsAt(x: seq<byte>, k: nat, rest: seq<byte>)
    requires FirstPiece(x, k, rest) && k < BUFSIZE
    ensures FirstLine(x) == x[..k] && Rest(x) == rest
  {
    IndexOfUnique(x, NEWLINE, k);
  }

  /** The buffer holds `t` from index `at` on. */
  ghost predicate Shows(data: array<byte>, at: nat, t: seq<byte>)
    reads data
  {
    at + |t| <= data.Length && forall i | 0 <= i < |t| :: data[at + i] == t[i]
  }

  lemma NoNul(x: seq<byte>)
    requires Plain(x)
    ensures forall i | 0 <= i < |x| :: x[i] != NUL
  {
  }

  lemma OccurrenceReads(line: seq<byte>, s: seq<byte>, i: nat)
    ensures OccursAt(line, s, i) ==> forall k | 0 <= k < |s| :: line[i + k] == s[k]
  {
    if OccursAt(line, s, i) {
      assert forall k | 0 <= k < |s| :: line[i..i + |s|][k] == s[k];
    }
  }

  /** `ece391_strlen` and the bytes it measures, from index `at` of the buffer. */
  method StringAt(data: array<byte>, at: nat, ghost line: seq<byte>) returns (t: seq<byte>)
    requires Shows(data, at, line) && Plain(line)
    requires at + |line| < data.Length && data[at + |line|] == NUL
    ensures t == line
  {
    NoNul(line);
    var n := 0;
    while data[at + n] != NUL
      invariant 0 <= n <= |line|
      invariant n < |line| ==> data[at + n] == line[n]
      decreases |line| - n
    {
      n := n + 1;
    }
    t := data[at..at + n];
  }

  /** `ece391_strncmp(data + at, s, |s|) == 0`. */
  method MatchesAt(data: array<byte>, at: nat, ghost line: seq<byte>, s: seq<byte>) returns (r: bool)
    requires Shows(data, at, line) && Plain(line) && Plain(s)
    requires at + |line| < data.Length && data[at + |line|] == NUL
    ensures r <==> OccursAt(line, s, 0)
  {
    if |s| == 0 {
      return true;
    }
    NoNul(line);
    NoNul(s);
    OccurrenceReads(line, s, 0);
    var i := 0;
    while true
      invariant 0 <= i < |s| && i <= |line| && forall k | 0 <= k < i :: line[k] == s[k]
      decreases |s| - i
    {
      if data[at + i] != s[i] {
        return false;
      }
      if data[at + i] == NUL || i + 1 == |s| {
        return true;
      }
      i := i + 1;
    }
  }

  /** An occurrence in the tail of a line is one in the line. */
  lemma OccursInTail(line: seq<byte>, s: seq<byte>, i: nat)
    requires i <= |line|
    ensures OccursAt(line[i..], s, 0) <==> OccursAt(line, s, i)
  {
    if i + |s| <= |line| {
      assert line[i..][0..|s|] == line[i..i + |s|];
    }
  }

  /** The search for the pattern in the line that starts at `start` and ends at `end`. */
  method Search(data: array<byte>, start: nat, end: nat, ghost line: seq<byte>, s: seq<byte>) returns (r: bool)
    requires Shows(data, start, line) && Plain(line) && Plain(s)
    requires end == start + |line| < data.Length && data[end] == NUL
    ensures r <==> Contains(line, s)
  {
    NoNul(line);
    var check := start;
    while check < end
      invariant start <= check <= end
      invariant forall i: nat | i < check - start :: s == [] || !OccursAt(line, s, i)
    {
      ghost var i := check - start;
      assert line[i] == data[check];
      OccursInTail(line, s, i);
      OccurrenceReads(line, s, i);
      if At(s, 0) == data[check] {
        assert Shows(data, check, line[i..]);
        var m := MatchesAt(data, check, line[i..], s);
        if m {
          return true;
        }
      }
      check := check + 1;
    }
    r := false;
  }

  /** `ece391_strcpy(data, data + from)`: moves the string that starts at `from` down to 0. */
  method MoveDown(data: array<byte>, from: nat, ghost text: seq<byte>)
    requires from > 0 && Shows(data, from, text) && Plain(text)
    requires from + |text| < data.Length && data[from + |text|] == NUL
    modifies data
    ensures Shows(data, 0, text)
    ensures forall j | |text| < j < data.Length :: data[j] == old(data[j])
  {
    NoNul(text);
    var i := 0;
    while data[from + i] != NUL
      invariant 0 <= i <= |text|
      invariant forall j | 0 <= j < i :: data[j] == text[j]
      invariant forall j | i <= j < data.Length :: data[j] == old(data[j])
      invariant i < |text| ==> data[from + i] == text[i]
      decreases |text| - i
    {
      data[i] := data[from + i];
      i := i + 1;
    }
    data[i] := NUL;
  }

  /** Ends the piece in the buffer with a NUL, and gives its share of the output. */
  method ReportPiece(data: array<byte>, start: nat, end: nat, ghost piece: seq<byte>, s: seq<byte>, fname: seq<byte>)
    returns (out: seq<byte>)
    requires Shows(data, start, piece) && Plain(piece) && Plain(s)
    requires end == start + |piece| < data.Length
    modifies data
    ensures data[end] == NUL && forall j | 0 <= j < data.Length && j != end :: data[j] == old(data[j])
    ensures out == Printed(fname, piece, s)
  {
    data[end] := NUL;
    var found := Search(data, start, end, piece, s);
    if found {
      var line := StringAt(data, start, piece);
      out := fname + [COLON] + line + [NEWLINE];
    } else {
      out := [];
    }
  }

  /** The scan for the end of the line that starts at `start`. */
  method LineEnd(data: array<byte>, start: nat, last: nat) returns (end: nat)
    requires start <= last <= data.Length
    ensures start <= end <= last && forall i | start <= i < end :: data[i] != NEWLINE
    ensures end < last ==> data[end] == NEWLINE
  {
    end := start;
    while end < last && data[end] != NEWLINE
      invariant start <= end <= last && forall i | start <= i < end :: data[i] != NEWLINE
    {
      end := end + 1;
    }
  }

  /** What is left to scan after the piece that ends at `end`. */
  ghost function Left(text: seq<byte>, end: nat, tail: seq<byte>): seq<byte> {
    if end + 1 < |text| then text[end + 1..] + tail else tail
  }

  lemma LeftIs(text: seq<byte>, end: nat, tail: seq<byte>)
    ensures Left(text, end, tail) == if end + 1 < |text| then text[end + 1..] + tail else tail
  {
  }

  lemma ScanStep(fname: seq<byte>, text: seq<byte>, start: nat, end: nat, tail: seq<byte>, s: seq<byte>)
    requires start <= end <= |text| <= BUFSIZE && forall i | start <= i < end :: text[i] != NEWLINE
    requires if end < |text| then text[end] == NEWLINE else start == 0 && (|text| < BUFSIZE ==> tail == [])
    ensures Pending(fname, text[start..] + tail, s)
        == Printed(fname, text[start..end], s) + Pending(fname, Left(text, end, tail), s)
  {
    var x := text[start..] + tail;
    assert x[..end - start] == text[start..end];
    assert NEWLINE !in text[start..end];
    if end < |text| {
      assert x[end - start + 1..] == Left(text, end, tail);
    } else if |text| == BUFSIZE {
      assert x[BUFSIZE..] == tail;
    }
    PieceStep(fname, x, end - start, Left(text, end, tail), s);
  }

  /** Ends the incomplete last line with a NUL, and moves it down to the start of the buffer. */
  method CarryOver(data: array<byte>, start: nat, end: nat, ghost piece: seq<byte>)
    requires data.Length == BUFSIZE + 1 && 0 < start <= end <= BUFSIZE && end == start + |piece|
    requires Shows(data, start, piece) && Plain(piece) && data[BUFSIZE] != NEWLINE
    modifies data
    ensures Shows(data, 0, piece) && data[BUFSIZE] != NEWLINE
  {
    data[end] := NUL;
    MoveDown(data, start, piece);
  }

  /** One round over the buffer, which holds `text` in front of the NULs that pad it: every
      complete piece is searched and reported, and an incomplete last line is moved down to the
      start of the buffer. `tail` is the part of the file that has not been read yet; `count` is
      what the last read returned. `carry` names the line that was moved down. */
  method ScanBuffer(data: array<byte>, last: nat, count: nat, ghost text: seq<byte>, ghost tail: seq<byte>,
      s: seq<byte>, fname: seq<byte>)
    returns (carried: nat, out: seq<byte>, ghost carry: seq<byte>)
    requires data.Length == BUFSIZE + 1 && last == |text| <= BUFSIZE && Shows(data, 0, text)
    requires Plain(text) && Plain(s)
    requires if count == 0 then last < BUFSIZE && tail == [] && NEWLINE !in text else last < BUFSIZE ==> tail == []
    requires count != 0 ==> data[last] != NEWLINE
    requires data[BUFSIZE] != NEWLINE
    modifies data
    ensures data[BUFSIZE] != NEWLINE
    ensures carried == |carry| < BUFSIZE && Shows(data, 0, carry) && Plain(carry) && NEWLINE !in carry
    ensures count == 0 ==> carried == 0
    ensures out + Pending(fname, carry + tail, s) == Pending(fname, text + tail, s)
  {
    hide Pending, Printed, Left;
    out := [];
    var start := 0;
    ghost var left := text + tail;
    ghost var all := Pending(fname, left, s);
    while true
      invariant 0 <= start <= last && (start == 0 || start < last)
      invariant forall i | start <= i < last :: data[i] == text[i]
      invariant count != 0 ==> data[last] != NEWLINE
      invariant data[BUFSIZE] != NEWLINE
      invariant count == 0 ==> start == 0
      invariant left == text[start..] + tail && out + Pending(fname, left, s) == all
      decreases last - start
    {
      var end := LineEnd(data, start, last);
      ghost var piece := text[start..end];
      assert Plain(piece);
      if data[end] != NEWLINE && count != 0 && start != 0 {
        assert piece == text[start..] && NEWLINE !in piece;
        CarryOver(data, start, end, piece);
        return last - start, out, piece;
      }
      ScanStep(fname, text, start, end, tail, s);
      var printed := ReportPiece(data, start, end, piece, s, fname);
      left := Left(text, end, tail);
      Associate(out, printed, Pending(fname, left, s));
      out := out + printed;
      start := end + 1;
      LeftIs(text, end, tail);
      if start >= last {
        assert [] + tail == left;
        return 0, out, [];
      }
    }
  }

  /** The read that fills the buffer up behind the carried-over line. A read that falls short
      has reached the end of the file, and pads the buffer with NULs. */
  method Refill(table: FdTable, k: int, data: array<byte>, last: nat, ghost carry: seq<byte>, ghost c: seq<byte>)
    returns (count: int, ghost text: seq<byte>)
    requires table.Valid() && FD_MIN <= k <= FD_MAX && table.fd[k].inUse
    requires table.fd[k].RegularFile() && table.fd[k].Readable(table.img)
    requires c == table.img.Content(table.fd[k].inodeNum) && table.fd[k].filePos <= |c|
    requires data.Length == BUFSIZE + 1 && data[BUFSIZE] != NEWLINE
    requires last == |carry| < BUFSIZE && Shows(data, 0, carry) && Plain(carry) && Plain(c)
    modifies table.fd, data
    ensures table.Valid() && table.fd[k].filePos <= |c|
    ensures table.fd[..] == old(table.fd[..])[k := old(table.fd[k]).(filePos := table.fd[k].filePos)]
    ensures 0 <= count == table.fd[k].filePos - old(table.fd[k]).filePos
    ensures |text| == last + count <= BUFSIZE && Shows(data, 0, text) && Plain(text)
    ensures text + c[table.fd[k].filePos..] == carry + c[old(table.fd[k]).filePos..]
    ensures count == 0 ==> text == carry
    ensures |text| < BUFSIZE ==> table.fd[k].filePos == |c|
    ensures count != 0 ==> data[last + count] != NEWLINE
    ensures data[BUFSIZE] != NEWLINE
  {
    hide Splice;
    ghost var pos := table.fd[k].filePos;
    count := table.SysRead(k, data, last, BUFSIZE - last);
    ghost var chunk := Chunk(c, pos, BUFSIZE - last);
    assert chunk == c[pos..pos + |chunk|];
    text := carry + chunk;
    ghost var rest := c[pos + |chunk|..];
    ChunkThenRest(c, pos, BUFSIZE - last, |c|);
    assert chunk + rest == c[pos..];
    Associate(carry, chunk, rest);
    assert forall i | last <= i < |text| :: data[..][i] == text[i];
    assert forall i | 0 <= i < last :: data[..][i] == old(data[..])[i];
  }

  /** `do_one_file`. The byte behind the buffer must not be a newline to begin with. */
  method DoOneFile(table: FdTable, s: seq<byte>, fname: seq<byte>, data: array<byte>)
    returns (status: int, out: seq<byte>)
    requires table.Valid() && NUL !in fname && Plain(s)
    requires data.Length == BUFSIZE + 1 && data[BUFSIZE] != NEWLINE
    requires NamesFile(table.img, fname)
    requires Lookup(table.img, fname).Some? ==> Plain(table.img.Content(Lookup(table.img, fname).value.inodeNum))
    modifies table.fd, data
    ensures table.Valid()
    ensures if Opens(table.img, old(table.fd[..]), fname)
            then
              var c := table.img.Content(Lookup(table.img, fname).value.inodeNum);
              status == 0 && out == Report(fname, Selected(Pieces(c), s))
            else status == -1 && out == FILE_OPEN_FAILED
    ensures Opens(table.img, old(table.fd[..]), fname) && NEWLINE !in fname ==>
              var found := Selected(Pieces(table.img.Content(Lookup(table.img, fname).value.inodeNum)), s);
              && |Lines(out)| == |found|
              && forall i | 0 <= i < |found| :: Lines(out)[i] == fname + [58] + found[i]
    ensures Opens(table.img, old(table.fd[..]), fname) ==>
              forall i | 0 <= i <= FD_MAX :: table.fd[i].inUse == old(table.fd[i].inUse)
  {
    hide Report, Selected, Pieces, Shows, Lookup, FirstFree, Lines;
    var k := table.SysOpen(fname);
    if k == FAIL {
      return -1, FILE_OPEN_FAILED;
    }
    ghost var entries := table.fd[..];
    ghost var c := table.img.Content(table.fd[k].inodeNum);
    ghost var carry: seq<byte>, left := [], c;
    ghost var all := Pending(fname, c, s);
    NothingShown(data);
    out := [];
    assert out + all == all;
    var last := 0;
    while true
      invariant table.Valid() && data[BUFSIZE] != NEWLINE
      invariant table.fd[k].filePos <= |c|
          && table.fd[..] == entries[k := entries[k].(filePos := table.fd[k].filePos)]
      invariant last == |carry| < BUFSIZE && Shows(data, 0, carry) && Plain(carry) && NEWLINE !in carry
      invariant left == carry + c[table.fd[k].filePos..] && out + Pending(fname, left, s) == all
      decreases |c| - table.fd[k].filePos
    {
      ghost var text;
      var count;
      count, text := Refill(table, k, data, last, carry, c);
      if count == FAIL {
        return -1, out + FILE_READ_FAILED;
      }
      ghost var tail := c[table.fd[k].filePos..];
      assert text + tail == left;
      var printed;
      last, printed, carry := ScanBuffer(data, last + count, count, text, tail, s, fname);
      left := carry + tail;
      Associate(out, printed, Pending(fname, left, s));
      out := out + printed;
      if count == 0 {
        break;
      }
    }
    NothingPending(fname, left, s);
    if NEWLINE !in fname {
      PiecesAreWhole(c);
      SelectedAreWhole(Pieces(c), s);
      ReportLines(fname, Selected(Pieces(c), s));
    }
    var r := table.SysClose(k);
    if r == FAIL {
      return -1, out + FILE_CLOSE_FAILED;
    }
    status := 0;
  }

  lemma NothingShown(data: array<byte>)
    ensures Shows(data, 0, [])
  {
  }

  lemma NothingPending(fname: seq<byte>, x: seq<byte>, s: seq<byte>)
    requires x == []
    ensures Pending(fname, x, s) == []
  {
  }
}
