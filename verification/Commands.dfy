// Command lines: the program name that execute takes from one, and the argument that getargs
// gives back.
module Commands {
  import opened Bytes
  import opened Memory

  const CMD_SIZE := 128
  const ARG_LENGTH := 1024

  /** The program a command names: what precedes its first space, cut at 32 bytes. */
  function ProgramOf(command: seq<byte>): (r: seq<byte>)
    ensures |r| <= FILENAME_LEN
  {
    Take(command[..IndexOf(command, SPACE)], FILENAME_LEN)
  }

  /** The argument of a command: the word right after its first space. */
  function ArgumentOf(command: seq<byte>): (r: seq<byte>)
    ensures |r| <= |command| && SPACE !in r
  {
    var k := IndexOf(command, SPACE);
    if k == |command| then [] else command[k + 1..][..IndexOf(command[k + 1..], SPACE)]
  }

  /** A program alone has no argument. */
  lemma ProgramAlone(program: seq<byte>)
    requires SPACE !in program && |program| <= FILENAME_LEN
    ensures ProgramOf(program) == program && ArgumentOf(program) == []
  {
    assert program[..|program|] == program;
    IndexOfUnique(program, SPACE, |program|);
  }

  /** Putting a command together from a program and an argument and taking it apart again gives
      back both. */
  lemma ProgramAndArgument(program: seq<byte>, argument: seq<byte>)
    requires SPACE !in program && SPACE !in argument && |program| <= FILENAME_LEN
    ensures ProgramOf(program + [SPACE] + argument) == program
    ensures ArgumentOf(program + [SPACE] + argument) == argument
  {
    var c := program + [SPACE] + argument;
    assert c[..|program|] == program;
    IndexOfUnique(c, SPACE, |program|);
    assert c[|program| + 1..] == argument && argument[..|argument|] == argument;
    IndexOfUnique(argument, SPACE, |argument|);
  }

  /** A program name of more than 32 bytes is cut. */
  lemma LongProgramIsCut(program: seq<byte>, rest: seq<byte>)
    requires SPACE !in program && |program| > FILENAME_LEN && (rest == [] || rest[0] == SPACE)
    ensures ProgramOf(program + rest) == program[..FILENAME_LEN]
  {
    var c := program + rest;
    assert c[..|program|] == program;
    IndexOfUnique(c, SPACE, |program|);
  }

  /** An argument ends at the next space. */
  lemma ArgumentEndsAtSpace(program: seq<byte>, argument: seq<byte>, rest: seq<byte>)
    requires SPACE !in program && SPACE !in argument
    ensures ArgumentOf(program + [SPACE] + argument + [SPACE] + rest) == argument
  {
    var c, behind := program + [SPACE] + argument + [SPACE] + rest, argument + [SPACE] + rest;
    assert c[..|program|] == program;
    IndexOfUnique(c, SPACE, |program|);
    assert c[|program| + 1..] == behind && behind[..|argument|] == argument;
    IndexOfUnique(behind, SPACE, |argument|);
  }

  /** A command as it stands in a control block that held only NULs. */
  function Padded(command: seq<byte>): (r: seq<byte>)
    requires |command| <= CMD_SIZE
    ensures |r| == CMD_SIZE
  {
    command + Fill(CMD_SIZE - |command|, NUL)
  }

  lemma CStringReads(memory: seq<byte>)
    ensures forall i | 0 <= i < |CString(memory)| :: CString(memory)[i] == memory[i] != NUL
    ensures NUL in memory ==> |CString(memory)| < |memory| && memory[|CString(memory)|] == NUL
  {
  }

  /** `parse_arg`. It copies up to 32 bytes of memory, not stopping at the NUL that ends the
      command, but the name it yields as a string is the program. */
  method ParseArg(memory: seq<byte>, filename: array<byte>)
    requires NUL in memory && |memory| >= FILENAME_LEN
    requires filename.Length == FILENAME_LEN && filename[..] == Fill(FILENAME_LEN, NUL)
    modifies filename
    ensures CString(filename[..]) == ProgramOf(CString(memory))
  {
    CStringReads(memory);
    ghost var command := CString(memory);
    ghost var k := IndexOf(command, SPACE);
    FirstSpace(command);
    assert forall j | 0 <= j < k :: memory[j] == command[j];
    var i := 0;
    while i < FILENAME_LEN
      invariant 0 <= i <= FILENAME_LEN && (k < |command| ==> i <= k)
      invariant forall j | 0 <= j < i :: filename[j] == memory[j]
      invariant forall j | i <= j < FILENAME_LEN :: filename[j] == NUL
    {
      if memory[i] == SPACE {
        NameEndsAt(filename[..], command, i, k);
        return;
      }
      filename[i] := memory[i];
      i := i + 1;
    }
    NameEndsAt(filename[..], command, i, k);
  }

  /** The name of the program that the command in memory starts. */
  method ProgramName(memory: seq<byte>) returns (name: seq<byte>)
    requires NUL in memory && |memory| >= FILENAME_LEN
    ensures name == ProgramOf(CString(memory))
  {
    var filename := new byte[FILENAME_LEN](_ => NUL);
    assert filename[..] == Fill(FILENAME_LEN, NUL);
    ParseArg(memory, filename);
    name := CString(filename[..]);
  }

  lemma FirstSpace(command: seq<byte>)
    ensures forall i | 0 <= i < IndexOf(command, SPACE) :: command[i] != SPACE
  {
    assert forall i | 0 <= i < IndexOf(command, SPACE) :: command[..IndexOf(command, SPACE)][i] == command[i];
  }

  lemma NameEndsAt(field: seq<byte>, command: seq<byte>, i: nat, k: nat)
    requires |field| == FILENAME_LEN && k == IndexOf(command, SPACE) && NUL !in command
    requires Min(k, FILENAME_LEN) <= i <= FILENAME_LEN
    requires forall j | 0 <= j < Min(k, FILENAME_LEN) :: field[j] == command[j]
    requires k < FILENAME_LEN ==> field[k] == NUL
    ensures CString(field) == ProgramOf(command)
  {
    var n := Min(k, FILENAME_LEN);
    assert field[..n] == command[..n];
    IndexOfUnique(field, NUL, n);
  }

  /** The word `word` stands at index `from` of the command field, and ends there. */
  ghost predicate WordAt(cmd: seq<byte>, from: nat, word: seq<byte>) {
    && from + |word| < |cmd|
    && (forall l | 0 <= l < |word| :: cmd[from + l] == word[l] && word[l] != SPACE && word[l] != NUL)
    && (cmd[from + |word|] == SPACE || cmd[from + |word|] == NUL)
  }

  /** The inner loop of `sys_getargs`: copies the word at `from`. */
  method CopyWord(cmd: seq<byte>, from: nat, buf: array<byte>, ghost word: seq<byte>)
    requires |cmd| == CMD_SIZE && WordAt(cmd, from, word) && |word| <= buf.Length
    modifies buf
    ensures forall l | 0 <= l < buf.Length :: buf[l] == if l < |word| then word[l] else old(buf[l])
  {
    var j := 0;
    while j < ARG_LENGTH && cmd[from + j] != SPACE && cmd[from + j] != NUL
      invariant 0 <= j <= |word|
      invariant j < |word| ==> cmd[from + j] == word[j] && word[j] != SPACE && word[j] != NUL
      invariant forall l | 0 <= l < buf.Length :: buf[l] == if l < j then word[l] else old(buf[l])
    {
      buf[j] := cmd[from + j];
      j := j + 1;
    }
  }

  /** What `sys_getargs` leaves in a buffer: zeros as far as `nbytes`, and then the argument over them. */
  function WithArgument(buf: seq<byte>, argument: seq<byte>, nbytes: nat): (r: seq<byte>)
    requires nbytes <= |buf| && |argument| <= |buf|
    ensures |r| == |buf|
  {
    argument + Fill(Max(|argument|, nbytes) - |argument|, NUL) + buf[Max(|argument|, nbytes)..]
  }

  ghost predicate StaysWithin(argument: seq<byte>, nbytes: nat) {
    forall buf: seq<byte> | nbytes <= |buf| && |argument| <= |buf| ::
      WithArgument(buf, argument, nbytes)[nbytes..] == buf[nbytes..]
  }

  /** Nothing behind the bytes asked for is written, in any buffer, exactly when the argument is not
      longer than that. */
  lemma StaysWithinIff(argument: seq<byte>, nbytes: nat)
    ensures StaysWithin(argument, nbytes) <==> |argument| <= nbytes
  {
    if |argument| > nbytes {
      var buf := Fill(|argument|, if argument[nbytes] == NUL then TAB else NUL);
      assert WithArgument(buf, argument, nbytes)[nbytes..][0] == argument[nbytes] != buf[nbytes..][0];
    } else {
      forall buf: seq<byte> | nbytes <= |buf| ensures WithArgument(buf, argument, nbytes)[nbytes..] == buf[nbytes..] {
      }
    }
  }

  /** The loops of `sys_getargs` over the command field `cmd` of a control block. */
  method CopyArgument(cmd: seq<byte>, buf: array<byte>, nbytes: nat, ghost command: seq<byte>)
    requires |command| <= CMD_SIZE - 2 && NUL !in command && cmd == Padded(command)
    requires nbytes <= buf.Length && |ArgumentOf(command)| <= buf.Length
    modifies buf
    ensures
      var argument := ArgumentOf(command);
      && buf[..|argument|] == argument
      && (forall i | |argument| <= i < nbytes :: buf[i] == NUL)
      && (forall i | Max(|argument|, nbytes) <= i < buf.Length :: buf[i] == old(buf[i]))
  {
    hide Padded, ArgumentOf, IndexOf, Splice;
    ghost var argument, k := ArgumentOf(command), IndexOf(command, SPACE);
    ghost var program := command[..k];
    ProgramReads(command);
    ArgumentReads(command);
    MemSet(buf, 0, nbytes, NUL);
    ghost var cleared := buf[..];
    var i := 0;
    while i < ARG_LENGTH && cmd[i] != SPACE && cmd[i] != NUL
      invariant 0 <= i <= k
      invariant i < k ==> cmd[0 + i] == program[i] && program[i] != SPACE && program[i] != NUL
    {
      i := i + 1;
    }
    CopyWord(cmd, i + 1, buf, argument);
    assert forall l | |argument| <= l < buf.Length :: buf[l] == cleared[l];
  }

  /** In front of a text padded with NULs, the word that begins it can be read. */
  lemma WordReads(before: seq<byte>, text: seq<byte>, n: nat)
    requires NUL !in text && n > 0
    ensures WordAt(before + text + Fill(n, NUL), |before|, text[..IndexOf(text, SPACE)])
  {
    hide IndexOf;
    FirstSpace(text);
    NoNulAt(text);
  }

  lemma NoNulAt(s: seq<byte>)
    requires NUL !in s
    ensures forall i | 0 <= i < |s| :: s[i] != NUL
  {
  }

  lemma ProgramReads(command: seq<byte>)
    requires |command| <= CMD_SIZE - 2 && NUL !in command
    ensures WordAt(Padded(command), 0, command[..IndexOf(command, SPACE)])
  {
    WordReads([], command, CMD_SIZE - |command|);
    assert [] + command == command;
  }

  /** Where the argument stands in the command field. */
  lemma ArgumentReads(command: seq<byte>)
    requires |command| <= CMD_SIZE - 2 && NUL !in command
    ensures WordAt(Padded(command), IndexOf(command, SPACE) + 1, ArgumentOf(command))
  {
    hide WordAt, IndexOf;
    var k := IndexOf(command, SPACE);
    if k < |command| {
      var rest := command[k + 1..];
      NoNulAfter(command, k + 1);
      WordReads(command[..k + 1], rest, CMD_SIZE - |command|);
      SplitAt(command, k + 1);
    } else {
      NoWordAtEnd(command);
    }
  }

  lemma SplitAt(s: seq<byte>, k: nat)
    requires k <= |s|
    ensures s[..k] + s[k..] == s && |s[..k]| == k
  {
  }

  lemma NoWordAtEnd(command: seq<byte>)
    requires |command| <= CMD_SIZE - 2
    ensures WordAt(Padded(command), |command| + 1, [])
  {
  }

  lemma NoNulAfter(s: seq<byte>, k: nat)
    requires NUL !in s && k <= |s|
    ensures NUL !in s[k..]
  {
    assert forall i | 0 <= i < |s[k..]| :: s[k..][i] == s[k + i];
    NoNulAt(s);
  }
}
