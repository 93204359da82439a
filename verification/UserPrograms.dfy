// The user programs cat and ls, as clients of the descriptor table. Each returns the
// program's exit status and everything it writes to descriptor 1.
module UserPrograms {
  import opened Bytes
  import opened TextLines
  import opened FileSystem
  import opened Directory
  import opened Descriptors

  const CAT_BUFSIZE := 1024
  const LS_BUFSIZE := 33

  const FILE_NOT_FOUND := Ascii("file not found\n")
  const DIRECTORY_OPEN_FAILED := Ascii("directory open failed\n")
  const DOT: byte := 46

  /** cat of a regular file. */
  method Cat(table: FdTable, fname: seq<byte>) returns (status: int, out: seq<byte>)
    requires table.Valid() && NUL !in fname
    requires NamesFile(table.img, fname)
    modifies table.fd
    ensures table.Valid()
    ensures if Opens(table.img, old(table.fd[..]), fname)
            then status == 0 && out == table.img.Content(Lookup(table.img, fname).value.inodeNum)
            else status == 2 && out == FILE_NOT_FOUND
    ensures Opens(table.img, old(table.fd[..]), fname) && Listed(table.img) ==>
              forall i | 0 <= i < table.img.dentryCount && Name(table.img.slots[i].filename) == Name(fname) ::
                out == table.img.Content(table.img.slots[i].inodeNum)
  {
    hide Splice, Lookup, FirstFree, FirstNamed, Listed, Name, Image.Content, Image.Intact, Image.Shaped;
    SlotOf(table.img, fname);
    var k := table.SysOpen(fname);
    if k == FAIL {
      return 2, FILE_NOT_FOUND;
    }
    var buf := new byte[CAT_BUFSIZE];
    ghost var inode := table.fd[k].inodeNum;
    ghost var c := table.img.Content(inode);
    out := [];
    while true
      invariant table.Valid() && fresh(buf) && buf.Length == CAT_BUFSIZE
      invariant table.fd[k].inUse && table.fd[k].RegularFile() && table.fd[k].inodeNum == inode
      invariant table.fd[k].filePos <= |c| && out == c[..table.fd[k].filePos]
      decreases |c| - table.fd[k].filePos
    {
      ghost var pos := table.fd[k].filePos;
      var count := table.SysRead(k, buf, 0, CAT_BUFSIZE);
      if count == 0 {
        return 0, out;
      }
      if count == FAIL {
        return 3, out;
      }
      assert buf[..count] == Chunk(c, pos, CAT_BUFSIZE);
      ChunkExtends(c, pos, CAT_BUFSIZE);
      out := out + buf[..count];
    }
  }

  /** The file of a listed name is that of its entry. */
  lemma SlotOf(img: Image, fname: seq<byte>)
    requires img.Shaped() && NamesFile(img, fname)
    ensures Listed(img) ==>
              forall i | 0 <= i < img.dentryCount && Name(img.slots[i].filename) == Name(fname) ::
                && Lookup(img, fname).Some? && Lookup(img, fname).value.inodeNum == img.slots[i].inodeNum
                && img.slots[i].inodeNum < INODES && img.Intact(img.slots[i].inodeNum)
  {
    if Listed(img) {
      forall i | 0 <= i < img.dentryCount && Name(img.slots[i].filename) == Name(fname)
        ensures Lookup(img, fname).Some? && Lookup(img, fname).value.inodeNum == img.slots[i].inodeNum
      {
        LookupListed(img, i, fname);
      }
    }
  }

  /** The names of all entries, each followed by a newline. */
  function Listing(img: Image, n: nat): seq<byte>
    requires n <= img.dentryCount <= |img.slots|
  {
    if n == 0 then [] else Listing(img, n - 1) + Name(img.slots[n - 1].filename) + [NEWLINE]
  }

  /** The lines of a listing are the names of the entries, in order. */
  lemma ListingLines(img: Image, n: nat)
    requires n <= img.dentryCount <= |img.slots|
    requires forall i | 0 <= i < n :: NEWLINE !in Name(img.slots[i].filename)
    ensures
      var lines := Lines(Listing(img, n));
      |lines| == n && forall i | 0 <= i < n :: lines[i] == Name(img.slots[i].filename)
  {
    var names := seq(n, i requires 0 <= i < n => Name(img.slots[i].filename));
    ListingJoins(img, n, names);
    LinesOfUnlines(names);
  }

  lemma {:induction false} ListingJoins(img: Image, n: nat, names: seq<seq<byte>>)
    requires n <= img.dentryCount <= |img.slots| && |names| == n
    requires forall i | 0 <= i < n :: names[i] == Name(img.slots[i].filename)
    ensures Listing(img, n) == Unlines(names)
  {
    if n > 0 {
      ListingJoins(img, n - 1, names[..n - 1]);
      UnlinesOne(names[..n - 1], names[n - 1]);
      assert names == names[..n - 1] + [names[n - 1]];
    }
  }

  /** The entry that read number `n` of a directory finds: after the last one it stays. */
  function EntryAt(img: Image, n: nat): nat {
    Min(n, img.dentryCount)
  }

  /** What `n` reads of a directory make ls print when none of them comes to the end. */
  function ListedBy(img: Image, n: nat): seq<byte>
    requires img.dentryCount < |img.slots|
  {
    if n == 0 then [] else ListedBy(img, n - 1) + Name(img.slots[EntryAt(img, n - 1)].filename) + [NEWLINE]
  }

  lemma {:induction false} ListedOnce(img: Image, n: nat)
    requires n <= img.dentryCount < |img.slots|
    ensures ListedBy(img, n) == Listing(img, n)
  {
    if n > 0 {
      ListedOnce(img, n - 1);
    }
  }

  /** Reading a directory comes to an end exactly when what is read as the entry after the last has no
      name, and then right after the last entry. */
  lemma DirectoryEnds(img: Image)
    requires img.Shaped() && Listed(img)
    ensures (exists n: nat :: Name(img.slots[EntryAt(img, n)].filename) == []) <==> Ends(img)
    ensures forall n: nat | n < img.dentryCount :: Name(img.slots[EntryAt(img, n)].filename) != []
  {
    assert EntryAt(img, img.dentryCount) == img.dentryCount;
  }

  /** A full directory behind which a name seems to follow. */
  function FullDirectory(): (img: Image)
    ensures img.Shaped()
  {
    BadImage().(dentryCount := INODES, slots := seq(SCAN_SLOTS, i => Dentry(ShortName(i), 2, 0)))
  }

  function ShortName(i: int): (field: seq<byte>)
    ensures |field| == FILENAME_LEN
  {
    [i % 64 + 1] + Fill(FILENAME_LEN - 1, NUL)
  }

  lemma ShortNameIs(i: int)
    ensures Name(ShortName(i)) == [i % 64 + 1]
  {
    var field := ShortName(i);
    assert Take(field, FILENAME_LEN) == field && field[..1] == [i % 64 + 1];
    IndexOfUnique(field, NUL, 1);
  }

  /** Listing such a directory never ends. */
  lemma FullDirectoryNeverEnds()
    ensures Listed(FullDirectory()) && !Ends(FullDirectory())
  {
    var img := FullDirectory();
    hide Name;
    forall i | 0 <= i <= INODES ensures Name(img.slots[i].filename) == [i % 64 + 1] {
      ShortNameIs(i);
    }
  }

  /** ls, watched for at most `limit` reads of the directory; the status is None while it still runs. It ends
      if and only if what is read as the entry after the last has no name, and then it has printed every
      name once, in order. Otherwise it prints that name again and again. */
  method Ls(table: FdTable, limit: nat) returns (status: Option<int>, out: seq<byte>)
    requires table.Valid() && Listed(table.img)
    requires Lookup(table.img, [DOT]).Some? ==> Lookup(table.img, [DOT]).value.filetype == DIRECTORY_TYPE
    modifies table.fd
    ensures table.Valid()
    ensures
      if !Opens(table.img, old(table.fd[..]), [DOT]) then status == Some(2) && out == DIRECTORY_OPEN_FAILED
      else if Ends(table.img) && limit > table.img.dentryCount then
        status == Some(0) && out == Listing(table.img, table.img.dentryCount)
      else status == None && out == ListedBy(table.img, limit)
  {
    hide Splice, Lookup, FirstFree, ListedBy, Name, Listing;
    var k := table.SysOpen([DOT]);
    if k == FAIL {
      return Some(2), DIRECTORY_OPEN_FAILED;
    }
    var buf := new byte[LS_BUFSIZE];
    out := [];
    ListedNone(table.img);
    var n := 0;
    while n < limit
      invariant n <= limit && table.Valid() && fresh(buf) && buf.Length == LS_BUFSIZE
      invariant table.fd[k].inUse && table.fd[k].filetype == DIRECTORY_TYPE
      invariant table.fd[k].filePos == EntryAt(table.img, n)
      invariant out == ListedBy(table.img, n)
      invariant Ends(table.img) ==> n <= table.img.dentryCount
    {
      ghost var name := Name(table.img.slots[EntryAt(table.img, n)].filename);
      ListedNext(table.img, n);
      var count := table.SysRead(k, buf, 0, LS_BUFSIZE - 1);
      if count == 0 {
        ListedOnce(table.img, n);
        return Some(0), out;
      }
      if count == FAIL {
        return Some(3), out;
      }
      assert buf[..count] == name;
      buf[count] := NEWLINE;
      assert buf[..count + 1] == name + [NEWLINE];
      Associate(out, name, [NEWLINE]);
      out := out + buf[..count + 1];
      n := n + 1;
    }
    status := None;
  }

  lemma ListedNone(img: Image)
    requires img.Shaped() && Listed(img)
    ensures ListedBy(img, 0) == []
  {
  }

  lemma ListedNext(img: Image, n: nat)
    requires img.Shaped() && Listed(img)
    ensures ListedBy(img, n + 1) == ListedBy(img, n) + Name(img.slots[EntryAt(img, n)].filename) + [NEWLINE]
    ensures Name(img.slots[EntryAt(img, n)].filename) == [] <==> n >= img.dentryCount && Ends(img)
    ensures NextEntry(img, EntryAt(img, n)) == EntryAt(img, n + 1)
  {
  }
}
