// A process's descriptor table: open, close, and reading files and directories through it.
module Descriptors {
  import opened Bytes
  import opened Memory
  import opened FileSystem
  import opened Directory

  const RTC_TYPE: uint32 := 0
  const DIRECTORY_TYPE: uint32 := 1

  datatype FdEntry = FdEntry(inodeNum: uint32, filePos: uint32, inUse: bool, filetype: uint32)
  {
    /** Every type other than 0 and 1 gets the operations of a regular file. */
    predicate RegularFile() {
      filetype != RTC_TYPE && filetype != DIRECTORY_TYPE
    }

    ghost predicate Present(img: Image)
      requires img.Shaped()
    {
      inodeNum < INODES && img.LengthFits(inodeNum)
    }

    ghost predicate Readable(img: Image)
      requires img.Shaped()
    {
      inodeNum < INODES && img.Intact(inodeNum)
    }
  }

  /** The part of a descriptor table that says which descriptors are in use. */
  function Flags(fd: seq<FdEntry>): (r: seq<bool>)
    ensures |r| == |fd|
  {
    seq(|fd|, k requires 0 <= k < |fd| => fd[k].inUse)
  }

  /** The lowest free descriptor, or 8 when all are taken. */
  function FirstFree(fd: seq<FdEntry>, from: nat): (k: nat)
    requires from <= |fd|
    ensures from <= k <= |fd|
    ensures forall i | from <= i < k :: fd[i].inUse
    ensures k < |fd| ==> !fd[k].inUse
    decreases |fd| - from
  {
    if from == |fd| || !fd[from].inUse then from else FirstFree(fd, from + 1)
  }

  /** The buffer after a file read of `n` bytes at `base` from position `pos` of a file of
      content `c`: at end of file nothing is written, otherwise the rest of the request is
      zeroed. */
  function AfterFileRead(buf: seq<byte>, base: nat, n: nat, c: seq<byte>, pos: nat): seq<byte>
    requires base + n <= |buf|
  {
    if pos >= |c| then buf
    else Splice(buf, base, Chunk(c, pos, n) + Fill(n - |Chunk(c, pos, n)|, NUL))
  }

  /** With the table `fd`, opening `fname` yields a descriptor. */
  ghost predicate Opens(img: Image, fd: seq<FdEntry>, fname: seq<byte>)
    requires |fd| == FD_MAX + 1
  {
    && fname != []
    && FirstFree(fd, FD_MIN) <= FD_MAX
    && Lookup(img, fname).Some?
    && (FdEntry(0, 0, true, Lookup(img, fname).value.filetype).RegularFile() ==> |fname| <= FILENAME_LEN)
  }

  /** A name of more than 32 bytes without a NUL is found exactly when some entry is named by its first
      32 bytes, with no NUL behind. Then `sys_open` fails on a regular file and leaves the descriptor
      taken. */
  lemma LongNameFound(img: Image, fname: seq<byte>)
    requires img.Shaped() && NUL !in fname && |fname| > FILENAME_LEN
    ensures Lookup(img, fname).Some? <==>
              exists i | 0 <= i < SCAN_SLOTS :: img.slots[i].filename == fname[..FILENAME_LEN]
  {
    var name := fname[..FILENAME_LEN];
    FullName(fname, name);
    forall i | 0 <= i < SCAN_SLOTS ensures Name(img.slots[i].filename) == name <==> img.slots[i].filename == name {
      FullField(img.slots[i].filename, name);
    }
    var k := FirstNamed(img.slots, Name(fname));
    if i :| 0 <= i < SCAN_SLOTS && img.slots[i].filename == name {
      assert Name(img.slots[i].filename) == Name(fname);
    }
  }

  lemma FullName(fname: seq<byte>, name: seq<byte>)
    requires NUL !in fname && |fname| > FILENAME_LEN && name == fname[..FILENAME_LEN]
    ensures Name(fname) == name && NUL !in name
  {
    assert forall i | 0 <= i < FILENAME_LEN :: name[i] in fname;
    assert name[..|name|] == name;
    IndexOfUnique(name, NUL, |name|);
  }

  lemma FullField(field: seq<byte>, name: seq<byte>)
    requires |field| == |name| == FILENAME_LEN && NUL !in name
    ensures Name(field) == name <==> field == name
  {
    assert Take(field, FILENAME_LEN) == field && name[..|name|] == name;
    if field == name {
      IndexOfUnique(name, NUL, |name|);
    }
  }

  /** An image with a regular file whose name is 32 times A. */
  function FullNameImage(): (img: Image)
    ensures img.Shaped()
  {
    var slot := Dentry(Fill(FILENAME_LEN, 65), 2, 0);
    BadImage().(slots := seq(SCAN_SLOTS, _ => slot))
  }

  /** Opening a file by such a name with one more letter takes a descriptor, and fails. */
  lemma LongNameLeaks(fd: seq<FdEntry>)
    requires |fd| == FD_MAX + 1 && FirstFree(fd, FD_MIN) <= FD_MAX
    ensures
      var img, fname := FullNameImage(), Fill(FILENAME_LEN + 1, 65);
      && Lookup(img, fname).Some? && !Opens(img, fd, fname)
      && FdEntry(0, 0, true, Lookup(img, fname).value.filetype).RegularFile()
  {
    var img, fname := FullNameImage(), Fill(FILENAME_LEN + 1, 65);
    assert fname[..FILENAME_LEN] == img.slots[0].filename;
    LongNameFound(img, fname);
  }

  /** If `fname` names anything, it names a regular file that is well-formed. */
  ghost predicate NamesFile(img: Image, fname: seq<byte>)
    requires img.Shaped()
  {
    Lookup(img, fname).Some? ==>
      var e := Lookup(img, fname).value;
      var entry := FdEntry(e.inodeNum, 0, true, e.filetype);
      entry.RegularFile() && entry.Readable(img)
  }

  class FdTable {
    const img: Image
    const fd: array<FdEntry>

    ghost predicate Valid()
      reads fd
    {
      img.Shaped() && fd.Length == FD_MAX + 1
    }

    /** The table of a new process: descriptors 0 and 1 are the terminal. */
    constructor (img: Image)
      requires img.Shaped()
      ensures Valid() && fresh(fd) && this.img == img
      ensures forall i | 0 <= i <= FD_MAX :: fd[i].inUse == (i < FD_MIN)
    {
      this.img := img;
      fd := new FdEntry[FD_MAX + 1](i => FdEntry(0, 0, i < FD_MIN, 0));
    }

    method FindNextFd() returns (r: int)
      requires Valid()
      ensures r == if FirstFree(fd[..], FD_MIN) <= FD_MAX then FirstFree(fd[..], FD_MIN) else FAIL
    {
      var i := FD_MIN;
      while i < FD_MAX + 1
        invariant FD_MIN <= i <= FD_MAX + 1
        invariant FirstFree(fd[..], FD_MIN) == FirstFree(fd[..], i)
      {
        if !fd[i].inUse {
          return i;
        }
        i := i + 1;
      }
      r := FAIL;
    }

    /** `sys_open`. The open hook of a regular file refuses names over 32 bytes, but only
        after the descriptor has been filled in. */
    method SysOpen(fname: seq<byte>) returns (r: int)
      requires Valid() && NUL !in fname
      modifies fd
      ensures Valid()
      ensures r == FAIL || FD_MIN <= r <= FD_MAX
      ensures
        var k := FirstFree(old(fd[..]), FD_MIN);
        if fname == [] || k > FD_MAX || Lookup(img, fname) == None then
          r == FAIL && fd[..] == old(fd[..])
        else
          var e := Lookup(img, fname).value;
          && fd[..] == old(fd[..])[k := FdEntry(e.inodeNum, 0, true, e.filetype)]
          && r == if fd[k].RegularFile() && |fname| > FILENAME_LEN then FAIL else k
      ensures r != FAIL ==>
        var slot := FirstNamed(img.slots, Name(fname));
        && slot < SCAN_SLOTS && fd[r].inUse && fd[r].filePos == 0
        && fd[r].inodeNum == img.slots[slot].inodeNum && fd[r].filetype == img.slots[slot].filetype
    {
      if |fname| == 0 {
        return FAIL;
      }
      var k := FindNextFd();
      if k < FD_MIN || k > FD_MAX {
        return FAIL;
      }
      var found := ReadDentryByName(img, fname);
      match found
      case None =>
        r := FAIL;
      case Some(e) =>
        fd[k] := FdEntry(e.inodeNum, 0, true, e.filetype);
        if fd[k].RegularFile() && |fname| > FILENAME_LEN {
          return FAIL;
        }
        r := k;
    }

    /** `sys_close`. */
    method SysClose(k: int) returns (r: int)
      requires Valid()
      modifies fd
      ensures Valid()
      ensures if k < FD_MIN || k > FD_MAX || !old(fd[..])[k].inUse then r == FAIL && fd[..] == old(fd[..])
              else r == 0 && fd[..] == old(fd[..])[k := old(fd[..])[k].(inUse := false)]
      ensures FD_MIN <= k <= FD_MAX ==> Flags(fd[..]) == Flags(old(fd[..]))[k := false]
    {
      if k < FD_MIN || k > FD_MAX {
        return FAIL;
      }
      if !fd[k].inUse {
        return FAIL;
      }
      fd[k] := fd[k].(inUse := false);
      r := 0;
    }

    /** `file_read`. When the reader meets a bad block it fails, and the position moves back by one. */
    method FileRead(k: nat, buf: array<byte>, base: nat, nbytes: nat) returns (r: int)
      requires Valid() && k <= FD_MAX && fd[k].Present(img) && fd[k].RegularFile()
      requires base + nbytes <= buf.Length && nbytes < TWO_32 / 2
      modifies buf, fd
      ensures Valid() && -1 <= r <= nbytes
      ensures fd[..] == old(fd[..])[k := old(fd[k]).(filePos := (old(fd[k]).filePos + r) % TWO_32)]
      ensures old(fd[k]).Readable(img) ==>
        var c, pos := img.Content(old(fd[k]).inodeNum), old(fd[k]).filePos;
        r == |Chunk(c, pos, nbytes)| && buf[..] == AfterFileRead(old(buf[..]), base, nbytes, c, pos)
      ensures
        var entry := old(fd[k]);
        var length := img.inodes[entry.inodeNum].length;
        && (r >= 0 ==> r == Max(0, Min(entry.filePos + nbytes, length) - entry.filePos))
        && (r > 0 ==> Holds(img, entry.inodeNum, entry.filePos, buf[base..base + r]))
        && (r < 0 <==> MeetsBadBlock(img, entry, nbytes))
      ensures r > 0 ==> forall i | base + r <= i < base + nbytes :: buf[i] == 0
      ensures forall i | 0 <= i < buf.Length && !(base <= i < base + nbytes) :: buf[i] == old(buf[i])
    {
      hide Splice, Chunk, Image.Blocks, Image.Content, Holds, AfterFileRead, Image.Intact, MeetsBadBlock;
      var length := img.inodes[fd[k].inodeNum].length;
      if fd[k].filePos >= length {
        PastTheEnd(img, fd[k], buf[..], base, nbytes);
        NothingToMeet(img, fd[k], nbytes);
        return 0;
      }
      r := ReadInto(fd[k], buf, base, nbytes);
      fd[k] := fd[k].(filePos := (fd[k].filePos + r) % TWO_32);
    }

    /** The reading part of `file_read`. */
    method ReadInto(entry: FdEntry, buf: array<byte>, base: nat, nbytes: nat) returns (r: int)
      requires img.Shaped() && entry.Present(img) && entry.filePos < img.inodes[entry.inodeNum].length
      requires base + nbytes <= buf.Length && nbytes < TWO_32 / 2
      modifies buf
      ensures -1 <= r <= nbytes && (r < 0 <==> MeetsBadBlock(img, entry, nbytes))
      ensures r >= 0 ==>
                r == Max(0, Min(entry.filePos + nbytes, img.inodes[entry.inodeNum].length) - entry.filePos)
      ensures r > 0 ==> Holds(img, entry.inodeNum, entry.filePos, buf[base..base + r])
      ensures r > 0 ==> forall i | base + r <= i < base + nbytes :: buf[i] == 0
      ensures forall i | 0 <= i < buf.Length && !(base <= i < base + nbytes) :: buf[i] == old(buf[i])
      ensures entry.Readable(img) ==>
        var c, pos := img.Content(entry.inodeNum), entry.filePos;
        r == |Chunk(c, pos, nbytes)| && buf[..] == AfterFileRead(old(buf[..]), base, nbytes, c, pos)
    {
      hide Splice, Chunk, Image.Blocks, Image.Content, Holds, AfterFileRead, Image.Intact, MeetsBadBlock, Delivered;
      ghost var was := buf[..];
      MemSet(buf, base, nbytes, NUL);
      ghost var got;
      r, got := ReadData(img, entry.inodeNum, entry.filePos, buf, base, nbytes);
      SpliceOverFill(was, base, nbytes, got);
      FailsAtBadBlock(img, entry, nbytes, r, got);
      assert (got + Fill(nbytes - |got|, NUL))[..|got|] == got;
      SpliceSlice(was, base, got + Fill(nbytes - |got|, NUL), |got|);
      RestIsZero(was, base, nbytes, got, buf[..]);
      if entry.Readable(img) {
        ReadInside(img, entry, was, base, nbytes, got);
      }
    }

    /** `dir_read`: the name of the next entry. The length is found by scanning the copied
        field for a NUL; a full field has none, and the scan runs on into unknown memory. */
    method DirRead(k: nat, buf: array<byte>, base: nat, nbytes: nat) returns (r: int)
      requires Valid() && k <= FD_MAX && fd[k].filetype == DIRECTORY_TYPE && fd[k].filePos < SCAN_SLOTS
      requires base + FILENAME_LEN <= buf.Length
      modifies buf, fd
      ensures Valid()
      ensures
        var name := Name(img.slots[old(fd[k]).filePos].filename);
        && (|name| < FILENAME_LEN || nbytes <= FILENAME_LEN ==> r == Min(|name|, nbytes))
        && (|name| == FILENAME_LEN < nbytes ==> FILENAME_LEN <= r <= nbytes)
        && buf[..] == Splice(old(buf[..]), base, name + Fill(FILENAME_LEN - |name|, NUL))
        && fd[..] == old(fd[..])[k := old(fd[k]).(filePos := NextEntry(img, old(fd[k]).filePos))]
    {
      var field := img.slots[fd[k].filePos].filename;
      CopyName(buf, base, field);
      var copied := 0;
      while copied < FILENAME_LEN && buf[base + copied] != NUL
        invariant 0 <= copied <= |Name(field)|
      {
        copied := copied + 1;
      }
      if copied == FILENAME_LEN {
        copied :| copied >= FILENAME_LEN;
      }
      if fd[k].filePos < img.dentryCount {
        fd[k] := fd[k].(filePos := fd[k].filePos + 1);
      }
      r := if copied > nbytes then nbytes else copied;
    }

    /** `sys_read` on a descriptor other than the keyboard. */
    method SysRead(k: int, buf: array<byte>, base: nat, nbytes: int) returns (r: int)
      requires Valid() && k != 0 && nbytes < TWO_32 / 2
      requires 0 < k <= FD_MAX && fd[k].inUse && fd[k].RegularFile() ==>
                 fd[k].Readable(img) && base + nbytes <= buf.Length
      requires 0 < k <= FD_MAX && fd[k].inUse && fd[k].filetype == DIRECTORY_TYPE ==>
                 fd[k].filePos < SCAN_SLOTS && base + FILENAME_LEN <= buf.Length
      modifies buf, fd
      ensures Valid()
      ensures k < FD_MIN || k > FD_MAX || nbytes < 0 || !old(fd[..])[k].inUse ==>
                r == FAIL && fd[..] == old(fd[..]) && buf[..] == old(buf[..])
      ensures FD_MIN <= k <= FD_MAX && nbytes >= 0 && old(fd[..])[k].inUse && old(fd[..])[k].RegularFile() ==>
        var c, pos := img.Content(old(fd[k]).inodeNum), old(fd[k]).filePos;
        && r == |Chunk(c, pos, nbytes)|
        && buf[..] == AfterFileRead(old(buf[..]), base, nbytes, c, pos)
        && fd[..] == old(fd[..])[k := old(fd[k]).(filePos := pos + |Chunk(c, pos, nbytes)|)]
      ensures FD_MIN <= k <= FD_MAX && nbytes >= 0 && old(fd[..])[k].inUse && old(fd[..])[k].filetype == RTC_TYPE ==>
                r == 0 && fd[..] == old(fd[..]) && buf[..] == old(buf[..])
      ensures
        FD_MIN <= k <= FD_MAX && nbytes >= 0 && old(fd[..])[k].inUse && old(fd[..])[k].filetype == DIRECTORY_TYPE ==>
        var name := Name(img.slots[old(fd[k]).filePos].filename);
        && (nbytes <= FILENAME_LEN ==> r == Min(|name|, nbytes))
        && buf[..] == Splice(old(buf[..]), base, name + Fill(FILENAME_LEN - |name|, NUL))
        && fd[..] == old(fd[..])[k := old(fd[k]).(filePos := NextEntry(img, old(fd[k]).filePos))]
    {
      hide Splice, Chunk, Image.Content, Image.Intact, Image.Shaped, AfterFileRead, Holds;
      if k == 1 {
        return FAIL;
      }
      if k < 0 || k > FD_MAX || nbytes < 0 || !fd[k].inUse {
        return FAIL;
      }
      if fd[k].RegularFile() {
        FitsAfterRead(img, fd[k], nbytes);
        r := FileRead(k, buf, base, nbytes);
      } else if fd[k].filetype == DIRECTORY_TYPE {
        r := DirRead(k, buf, base, nbytes);
      } else {
        // the clock's read waits for a tick and then returns 0
        r := 0;
      }
    }
  }

  /** The position after reading the entry at `pos`. */
  function NextEntry(img: Image, pos: uint32): uint32 {
    if pos < img.dentryCount then pos + 1 else pos
  }

  /** A read of `n` bytes comes to a block whose number the reader does not accept. */
  ghost predicate MeetsBadBlock(img: Image, entry: FdEntry, n: nat)
    requires img.Shaped() && entry.Present(img)
  {
    exists p: nat | entry.filePos <= p < Min(entry.filePos + n, img.inodes[entry.inodeNum].length) ::
      !img.GoodAt(entry.inodeNum, p)
  }

  lemma NothingToMeet(img: Image, entry: FdEntry, n: nat)
    requires img.Shaped() && entry.Present(img) && entry.filePos >= img.inodes[entry.inodeNum].length
    ensures !MeetsBadBlock(img, entry, n)
  {
  }

  lemma FailsAtBadBlock(img: Image, entry: FdEntry, n: nat, r: int, got: seq<byte>)
    requires img.Shaped() && entry.Present(img) && entry.filePos < img.inodes[entry.inodeNum].length
    requires n < TWO_32 / 2 && Holds(img, entry.inodeNum, entry.filePos, got)
    requires
      var stop := StopAt(img.inodes[entry.inodeNum].length, entry.filePos, n);
      if r < 0 then entry.filePos + |got| < stop && !img.GoodAt(entry.inodeNum, entry.filePos + |got|)
      else |got| == Max(0, stop - entry.filePos)
    ensures r < 0 <==> MeetsBadBlock(img, entry, n)
  {
    var stop := StopAt(img.inodes[entry.inodeNum].length, entry.filePos, n);
    assert stop == Min(entry.filePos + n, img.inodes[entry.inodeNum].length);
    if r >= 0 {
      forall p: nat | entry.filePos <= p < stop ensures img.GoodAt(entry.inodeNum, p) {
        assert HasByte(img, entry.inodeNum, entry.filePos + (p - entry.filePos), got[p - entry.filePos]);
      }
    }
  }

  /** An image whose first file has one byte, in a block that does not exist. */
  function BadImage(): (img: Image)
    ensures img.Shaped()
  {
    Image(0, seq(SCAN_SLOTS, _ => Dentry(Fill(FILENAME_LEN, NUL), 0, 0)),
      seq(INODES, _ => Inode(1, seq(BLOCKS_PER_INODE, _ => BLOCKS_PER_INODE + 1))),
      seq(BLOCKS_PER_INODE + 1, _ => Fill(BLOCK_SIZE, NUL)))
  }

  /** A read that fails at the start of a file moves the position to the largest number there is, where
      the next read finds the end of the file. */
  lemma FailingRead(n: nat)
    requires n > 0
    ensures
      var entry := FdEntry(0, 0, true, 2);
      && entry.RegularFile() && entry.Present(BadImage()) && MeetsBadBlock(BadImage(), entry, n)
      && var after := entry.(filePos := (entry.filePos - 1) % TWO_32);
         after.filePos == TWO_32 - 1 && !MeetsBadBlock(BadImage(), after, n)
  {
    assert !BadImage().GoodAt(0, 0);
  }

  lemma FitsAfterRead(img: Image, entry: FdEntry, n: nat)
    requires img.Shaped() && entry.Readable(img)
    ensures entry.Present(img) && !MeetsBadBlock(img, entry, n)
    ensures
      var r := |Chunk(img.Content(entry.inodeNum), entry.filePos, n)|;
      (entry.filePos + r) % TWO_32 == entry.filePos + r
  {
  }

  lemma PastTheEnd(img: Image, entry: FdEntry, buf: seq<byte>, base: nat, n: nat)
    requires img.Shaped() && entry.Present(img) && base + n <= |buf|
    requires entry.filePos >= img.inodes[entry.inodeNum].length
    ensures entry.Readable(img) ==>
              var c := img.Content(entry.inodeNum);
              Chunk(c, entry.filePos, n) == [] && AfterFileRead(buf, base, n, c, entry.filePos) == buf
  {
  }

  lemma ReadInside(img: Image, entry: FdEntry, buf: seq<byte>, base: nat, n: nat, got: seq<byte>)
    requires img.Shaped() && entry.Readable(img) && base + n <= |buf| && n < TWO_32 / 2 && |got| <= n
    requires entry.filePos < img.inodes[entry.inodeNum].length
    requires got == Delivered(img.Content(entry.inodeNum), entry.filePos, n)
    ensures
      var c := img.Content(entry.inodeNum);
      && got == Chunk(c, entry.filePos, n)
      && AfterFileRead(buf, base, n, c, entry.filePos) == Splice(buf, base, got + Fill(n - |got|, NUL))
  {
    hide Splice, Image.Content;
  }

  lemma RestIsZero(s: seq<byte>, base: nat, n: nat, got: seq<byte>, after: seq<byte>)
    requires base + n <= |s| && |got| <= n && after == Splice(s, base, got + Fill(n - |got|, NUL))
    ensures forall i | base + |got| <= i < base + n :: after[i] == 0
    ensures forall i | 0 <= i < |s| && !(base <= i < base + n) :: after[i] == s[i]
  {
  }

  lemma SpliceSlice(s: seq<byte>, base: nat, t: seq<byte>, n: nat)
    requires base + |t| <= |s| && n <= |t|
    ensures Splice(s, base, t)[base..base + n] == t[..n]
  {
  }

  lemma SpliceOverFill(s: seq<byte>, base: nat, n: nat, t: seq<byte>)
    requires base + n <= |s| && |t| <= n
    ensures Splice(Splice(s, base, Fill(n, NUL)), base, t) == Splice(s, base, t + Fill(n - |t|, NUL))
  {
  }

  // Runs of reads over several open files

  datatype Call = Call(file: nat, size: nat)

  /** The positions after one read. */
  function AfterCall(cs: seq<seq<byte>>, pos: seq<nat>, c: Call): (r: seq<nat>)
    requires |cs| == |pos| && c.file < |cs|
    ensures |r| == |pos|
    ensures forall k | 0 <= k < |pos| ::
              r[k] == pos[k] + if k == c.file then |Chunk(cs[c.file], pos[c.file], c.size)| else 0
  {
    pos[c.file := pos[c.file] + |Chunk(cs[c.file], pos[c.file], c.size)|]
  }

  /** The positions after a run of reads over open files of contents `cs`. */
  function PositionsAfter(cs: seq<seq<byte>>, pos: seq<nat>, calls: seq<Call>): (r: seq<nat>)
    requires |cs| == |pos| && forall c | c in calls :: c.file < |cs|
    ensures |r| == |pos|
    decreases |calls|
  {
    if calls == [] then pos else PositionsAfter(cs, AfterCall(cs, pos, calls[0]), calls[1..])
  }

  /** What one read returns on file `k`. */
  function ReturnedBy(cs: seq<seq<byte>>, pos: seq<nat>, c: Call, k: nat): seq<byte>
    requires |cs| == |pos| && k < |cs| && c.file < |cs|
  {
    if c.file == k then Chunk(cs[k], pos[k], c.size) else []
  }

  /** All bytes that a run of reads returns on file `k`, in order. */
  function Returned(cs: seq<seq<byte>>, pos: seq<nat>, calls: seq<Call>, k: nat): seq<byte>
    requires |cs| == |pos| && k < |cs| && forall c | c in calls :: c.file < |cs|
    decreases |calls|
  {
    if calls == [] then []
    else ReturnedBy(cs, pos, calls[0], k) + Returned(cs, AfterCall(cs, pos, calls[0]), calls[1..], k)
  }

  /** The first read of a run, and the rest. */
  lemma FirstCall(cs: seq<seq<byte>>, pos: seq<nat>, calls: seq<Call>, k: nat)
    requires |cs| == |pos| && k < |cs| && (forall c | c in calls :: c.file < |cs|) && calls != []
    ensures calls[0].file < |cs| && forall c | c in calls[1..] :: c.file < |cs|
    ensures
      var next := AfterCall(cs, pos, calls[0]);
      && PositionsAfter(cs, pos, calls) == PositionsAfter(cs, next, calls[1..])
      && Returned(cs, pos, calls, k) == ReturnedBy(cs, pos, calls[0], k) + Returned(cs, next, calls[1..], k)
  {
  }

  /** The first read and the rest return adjacent pieces of file `k`. */
  lemma PiecesJoin(cs: seq<seq<byte>>, pos: seq<nat>, c: Call, k: nat, end: nat)
    requires |cs| == |pos| && k < |cs| && c.file < |cs| && pos[k] <= AfterCall(cs, pos, c)[k] <= end <= |cs[k]|
    ensures ReturnedBy(cs, pos, c, k) + cs[k][AfterCall(cs, pos, c)[k]..end] == cs[k][pos[k]..end]
  {
    if c.file == k {
      ChunkThenRest(cs[k], pos[k], c.size, end);
    }
  }

  lemma WithinFile(cs: seq<seq<byte>>, pos: seq<nat>, c: Call, k: nat)
    requires |cs| == |pos| && k < |cs| && c.file < |cs| && pos[k] <= |cs[k]|
    ensures pos[k] <= AfterCall(cs, pos, c)[k] <= |cs[k]|
  {
  }

  lemma ChunkExtends(c: seq<byte>, pos: nat, size: nat)
    requires pos <= |c|
    ensures pos + |Chunk(c, pos, size)| <= |c| && c[..pos] + Chunk(c, pos, size) == c[..pos + |Chunk(c, pos, size)|]
  {
  }

  lemma ChunkThenRest(c: seq<byte>, pos: nat, size: nat, end: nat)
    requires pos <= pos + |Chunk(c, pos, size)| <= end <= |c|
    ensures Chunk(c, pos, size) + c[pos + |Chunk(c, pos, size)|..end] == c[pos..end]
  {
  }

  /** However reads on several files are interleaved and whatever their sizes, what
      file `k` returns is the piece of its own content between its two positions. */
  lemma {:induction false} InterleavedReads(cs: seq<seq<byte>>, pos: seq<nat>, calls: seq<Call>, k: nat)
    requires |cs| == |pos| && k < |cs| && forall c | c in calls :: c.file < |cs|
    requires pos[k] <= |cs[k]|
    ensures pos[k] <= PositionsAfter(cs, pos, calls)[k] <= |cs[k]|
    ensures Returned(cs, pos, calls, k) == cs[k][pos[k]..PositionsAfter(cs, pos, calls)[k]]
    decreases |calls|
  {
    if calls == [] {
      assert cs[k][pos[k]..pos[k]] == [];
    } else {
      hide PositionsAfter, Returned, ReturnedBy, AfterCall, Chunk;
      FirstCall(cs, pos, calls, k);
      var next := AfterCall(cs, pos, calls[0]);
      WithinFile(cs, pos, calls[0], k);
      InterleavedReads(cs, next, calls[1..], k);
      PiecesJoin(cs, pos, calls[0], k, PositionsAfter(cs, next, calls[1..])[k]);
    }
  }

  /** A read of a positive size returns nothing exactly at the end of the file; so when such a
      read follows a run that began at the start of file `k`, the run has returned all of it. */
  lemma ZeroMeansAllRead(cs: seq<seq<byte>>, pos: seq<nat>, calls: seq<Call>, k: nat, size: nat)
    requires |cs| == |pos| && k < |cs| && forall c | c in calls :: c.file < |cs|
    requires pos[k] == 0 && size > 0
    ensures Chunk(cs[k], PositionsAfter(cs, pos, calls)[k], size) == [] <==> Returned(cs, pos, calls, k) == cs[k]
  {
    InterleavedReads(cs, pos, calls, k);
    var q := PositionsAfter(cs, pos, calls)[k];
    assert Returned(cs, pos, calls, k) == cs[k][..q];
    if Returned(cs, pos, calls, k) == cs[k] {
      assert |cs[k][..q]| == q;
    }
  }

  // The same runs on a descriptor table

  /** Distinct descriptors `ks` of a table are open on well-formed files of contents `cs`, at the
      positions `pos`. */
  ghost predicate Stands(img: Image, fd: seq<FdEntry>, ks: seq<nat>, cs: seq<seq<byte>>, pos: seq<nat>)
    requires img.Shaped()
  {
    && |fd| == FD_MAX + 1 && |ks| == |cs| == |pos|
    && (forall i | 0 <= i < |ks| :: FD_MIN <= ks[i] <= FD_MAX && StandsAt(img, fd[ks[i]], cs[i], pos[i]))
    && forall i, j | 0 <= i < j < |ks| :: ks[i] != ks[j]
  }

  ghost predicate StandsAt(img: Image, entry: FdEntry, c: seq<byte>, pos: nat)
    requires img.Shaped()
  {
    && entry.inUse && entry.RegularFile() && entry.Readable(img)
    && c == img.Content(entry.inodeNum) && entry.filePos == pos
  }

  /** One read through the table is one call. */
  lemma StandsAfter(img: Image, fd: seq<FdEntry>, after: seq<FdEntry>, ks: seq<nat>, cs: seq<seq<byte>>,
                    pos: seq<nat>, c: Call)
    requires img.Shaped() && Stands(img, fd, ks, cs, pos) && c.file < |ks|
    requires
      var k := ks[c.file];
      var end := pos[c.file] + |Chunk(cs[c.file], pos[c.file], c.size)|;
      end < TWO_32 && after == fd[k := fd[k].(filePos := end)]
    ensures Stands(img, after, ks, cs, AfterCall(cs, pos, c))
  {
    hide Image.Shaped, Image.Content, Image.Intact, Chunk;
  }

  /** What a run of reads has returned on each file after one more. */
  lemma ReturnedSoFar(cs: seq<seq<byte>>, pos: seq<nat>, calls: seq<Call>, k: nat, before: seq<byte>, all: seq<byte>)
    requires |cs| == |pos| && k < |cs| && (forall c | c in calls :: c.file < |cs|) && calls != []
    requires before + Returned(cs, pos, calls, k) == all
    ensures calls[0].file < |cs| && forall c | c in calls[1..] :: c.file < |cs|
    ensures
      var next := AfterCall(cs, pos, calls[0]);
      (before + ReturnedBy(cs, pos, calls[0], k)) + Returned(cs, next, calls[1..], k) == all
  {
    hide Returned, ReturnedBy, AfterCall;
    FirstCall(cs, pos, calls, k);
    Associate(before, ReturnedBy(cs, pos, calls[0], k), Returned(cs, AfterCall(cs, pos, calls[0]), calls[1..], k));
  }

  /** Any run of reads by one process on its open files. `got[i]` is what it has read from file `i`. */
  method RunReads(table: FdTable, ks: seq<nat>, calls: seq<Call>, buf: array<byte>,
                  ghost cs: seq<seq<byte>>, ghost pos: seq<nat>) returns (got: seq<seq<byte>>)
    requires table.Valid() && Stands(table.img, table.fd[..], ks, cs, pos)
    requires forall c | c in calls :: c.file < |ks| && c.size <= buf.Length && c.size < TWO_32 / 2
    modifies table.fd, buf
    ensures table.Valid() && Stands(table.img, table.fd[..], ks, cs, PositionsAfter(cs, pos, calls))
    ensures |got| == |ks| && forall i | 0 <= i < |ks| :: got[i] == Returned(cs, pos, calls, i)
  {
    hide Stands, Returned, PositionsAfter, AfterCall, Image.Shaped, Image.Content, Splice, AfterFileRead;
    StandsFacts(table.img, table.fd[..], ks, cs, pos);
    got := seq(|ks|, _ => []);
    ghost var at, left := pos, calls;
    var n := 0;
    while n < |calls|
      invariant n <= |calls| && left == calls[n..] && |got| == |ks| == |cs| == |at|
      invariant forall c | c in left :: c.file < |cs|
      invariant table.Valid() && Stands(table.img, table.fd[..], ks, cs, at)
      invariant PositionsAfter(cs, at, left) == PositionsAfter(cs, pos, calls)
      invariant forall i | 0 <= i < |ks| :: got[i] + Returned(cs, at, left, i) == Returned(cs, pos, calls, i)
    {
      var c := calls[n];
      assert c == left[0] && c in calls;
      ghost var was := got;
      var more := ReadOnce(table, ks, c, buf, cs, at);
      FirstCall(cs, at, left, c.file);
      forall i | 0 <= i < |ks|
        ensures (was[i] + ReturnedBy(cs, at, c, i)) + Returned(cs, AfterCall(cs, at, c), left[1..], i)
             == Returned(cs, pos, calls, i)
      {
        ReturnedSoFar(cs, at, left, i, was[i], Returned(cs, pos, calls, i));
      }
      got := got[c.file := got[c.file] + more];
      at, left := AfterCall(cs, at, c), left[1..];
      n := n + 1;
    }
    NoneLeft(cs, at);
  }

  lemma StandsFacts(img: Image, fd: seq<FdEntry>, ks: seq<nat>, cs: seq<seq<byte>>, pos: seq<nat>)
    requires img.Shaped() && Stands(img, fd, ks, cs, pos)
    ensures |ks| == |cs| == |pos|
  {
  }

  lemma NoneLeft(cs: seq<seq<byte>>, pos: seq<nat>)
    requires |cs| == |pos|
    ensures PositionsAfter(cs, pos, []) == pos
    ensures forall i | 0 <= i < |cs| :: Returned(cs, pos, [], i) == []
  {
  }

  /** One of these reads. */
  method ReadOnce(table: FdTable, ks: seq<nat>, c: Call, buf: array<byte>,
                  ghost cs: seq<seq<byte>>, ghost pos: seq<nat>)
    returns (more: seq<byte>)
    requires table.Valid() && Stands(table.img, table.fd[..], ks, cs, pos)
    requires c.file < |ks| && c.size <= buf.Length && c.size < TWO_32 / 2
    modifies table.fd, buf
    ensures table.Valid() && |cs| == |pos| == |ks|
    ensures more == Chunk(cs[c.file], pos[c.file], c.size)
    ensures Stands(table.img, table.fd[..], ks, cs, AfterCall(cs, pos, c))
  {
    hide Splice, Image.Shaped, Image.Content, Image.Intact;
    ghost var fd, entry := table.fd[..], table.fd[ks[c.file]];
    FitsAfterRead(table.img, entry, c.size);
    var r := table.SysRead(ks[c.file], buf, 0, c.size);
    more := buf[..r];
    StandsAfter(table.img, fd, table.fd[..], ks, cs, pos, c);
  }
}
