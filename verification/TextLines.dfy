// Texts and their lines.
module TextLines {
  import opened Bytes

  /** The text up to its first newline. */
  function FirstLine(x: seq<byte>): (r: seq<byte>)
    ensures NEWLINE !in r && |r| <= |x|
  {
    x[..IndexOf(x, NEWLINE)]
  }

  /** A newline ends the first line. */
  predicate Ended(x: seq<byte>) {
    NEWLINE in x
  }

  /** The text after its first line and the newline that ends it. */
  function Rest(x: seq<byte>): (r: seq<byte>)
    ensures x == [] || |r| < |x|
  {
    var k := IndexOf(x, NEWLINE);
    if k < |x| then x[k + 1..] else []
  }

  lemma LineAndRest(x: seq<byte>)
    ensures x == FirstLine(x) + (if Ended(x) then [NEWLINE] else []) + Rest(x)
  {
    var k := IndexOf(x, NEWLINE);
    assert k == |x| ==> x[..k] == x;
  }

  /** The lines of a text. A final newline ends the last line and starts no new one. */
  function Lines(x: seq<byte>): (r: seq<seq<byte>>)
    decreases |x|
  {
    if x == [] then [] else [FirstLine(x)] + Lines(Rest(x))
  }

  /** A text made of lines, each of which is ended by a newline. */
  function Unlines(lines: seq<seq<byte>>): seq<byte> {
    if lines == [] then [] else lines[0] + [NEWLINE] + Unlines(lines[1..])
  }

  ghost predicate Whole(lines: seq<seq<byte>>) {
    forall i | 0 <= i < |lines| :: NEWLINE !in lines[i]
  }

  /** Splitting a text made of lines gives back the lines. */
  lemma {:induction false} LinesOfUnlines(lines: seq<seq<byte>>)
    requires Whole(lines)
    ensures Lines(Unlines(lines)) == lines
  {
    if lines != [] {
      LinesOfUnlines(lines[1..]);
      FirstLineIs(Unlines(lines), lines[0], Unlines(lines[1..]));
    }
  }

  /** The lines of a text make it up again, with a newline at the end if it had none. */
  lemma {:induction false} UnlinesOfLines(x: seq<byte>)
    ensures Whole(Lines(x))
    ensures Unlines(Lines(x)) == if x == [] || x[|x| - 1] == NEWLINE then x else x + [NEWLINE]
    decreases |x|
  {
    hide FirstLine, Rest, Ended, Unlines, Lines, Whole;
    if x == [] {
      NoLines();
    } else {
      var line, rest := FirstLine(x), Rest(x);
      UnlinesOfLines(rest);
      LineBeforeRest(x);
      UnlinesFirst(line, Lines(rest));
      Associate(line + [NEWLINE], rest, [NEWLINE]);
    }
  }

  lemma NoLines()
    ensures Lines([]) == [] && Whole([]) && Unlines([]) == []
  {
  }

  lemma UnlinesFirst(line: seq<byte>, lines: seq<seq<byte>>)
    ensures Unlines([line] + lines) == line + [NEWLINE] + Unlines(lines)
    ensures NEWLINE !in line && Whole(lines) ==> Whole([line] + lines)
  {
    assert ([line] + lines)[1..] == lines;
  }

  /** A text is its first line, and if that is ended, a newline and the rest. */
  lemma LineBeforeRest(x: seq<byte>)
    requires x != []
    ensures
      var line, rest := FirstLine(x), Rest(x);
      && Lines(x) == [line] + Lines(rest) && NEWLINE !in line
      && if Ended(x) then
           x == line + [NEWLINE] + rest && x[|x| - 1] == if rest == [] then NEWLINE else rest[|rest| - 1]
         else x == line && rest == [] && x[|x| - 1] != NEWLINE
  {
    hide Lines;
    LinesUnfold(x);
    LineAndRest(x);
    if !Ended(x) {
      assert x[|x| - 1] in x;
    }
  }

  lemma LinesUnfold(x: seq<byte>)
    requires x != []
    ensures Lines(x) == [FirstLine(x)] + Lines(Rest(x))
  {
  }

  lemma {:induction false} UnlinesOne(lines: seq<seq<byte>>, line: seq<byte>)
    ensures Unlines(lines + [line]) == Unlines(lines) + line + [NEWLINE]
  {
    if lines != [] {
      assert (lines + [line])[1..] == lines[1..] + [line];
      UnlinesOne(lines[1..], line);
    }
  }

  lemma FirstLineIs(x: seq<byte>, line: seq<byte>, rest: seq<byte>)
    requires NEWLINE !in line
    ensures FirstLine(line + [NEWLINE] + rest) == line && Rest(line + [NEWLINE] + rest) == rest
        && Ended(line + [NEWLINE] + rest)
    ensures FirstLine(line) == line && Rest(line) == [] && !Ended(line)
  {
    var x := line + [NEWLINE] + rest;
    assert x[..|line|] == line && x[|line|] == NEWLINE;
    IndexOfUnique(x, NEWLINE, |line|);
    assert line[..|line|] == line;
    IndexOfUnique(line, NEWLINE, |line|);
  }
}
