// Directory entries: comparing names, looking a name up, copying a name out.
module Directory {
  import opened Bytes
  import opened FileSystem

  /** What a directory lookup hands back. */
  datatype Entry = Entry(name: seq<byte>, filetype: uint32, inodeNum: uint32)

  /** The name that a 32-byte name field stands for: it has no NUL when it is full. */
  function Name(field: seq<byte>): (r: seq<byte>)
    ensures NUL !in r && |r| <= FILENAME_LEN
  {
    CString(Take(field, FILENAME_LEN))
  }

  function EntryOf(d: Dentry): Entry {
    Entry(Name(d.filename), d.filetype, d.inodeNum)
  }

  /** The first slot whose name is `name`, or the number of slots. */
  function FirstNamed(slots: seq<Dentry>, name: seq<byte>): (k: nat)
    ensures k <= |slots|
    ensures forall i | 0 <= i < k :: Name(slots[i].filename) != name
    ensures k < |slots| ==> Name(slots[k].filename) == name
  {
    if slots == [] || Name(slots[0].filename) == name then 0
    else 1 + FirstNamed(slots[1..], name)
  }

  lemma FirstNamedUnique(slots: seq<Dentry>, name: seq<byte>, k: nat)
    requires k <= |slots|
    requires forall i | 0 <= i < k :: Name(slots[i].filename) != name
    requires k < |slots| ==> Name(slots[k].filename) == name
    ensures FirstNamed(slots, name) == k
  {
    var j := FirstNamed(slots, name);
    assert j < |slots| ==> Name(slots[j].filename) == name;
  }

  /** The result of looking a C string up. Only its first 32 bytes are compared. */
  function Lookup(img: Image, fname: seq<byte>): Option<Entry> {
    var k := FirstNamed(img.slots, Name(fname));
    if k < |img.slots| then Some(EntryOf(img.slots[k])) else None
  }

  lemma NameReads(s: seq<byte>, n: nat)
    ensures forall k | 0 <= k < |CString(Take(s, n))| :: At(s, k) == CString(Take(s, n))[k] != NUL
    ensures |CString(Take(s, n))| <= n
    ensures |CString(Take(s, n))| < n ==> At(s, |CString(Take(s, n))|) == NUL
  {
  }

  lemma NameReadsField(field: seq<byte>)
    requires |field| == FILENAME_LEN
    ensures forall k | 0 <= k < |Name(field)| :: field[k] == Name(field)[k] != NUL
    ensures |Name(field)| < FILENAME_LEN ==> field[|Name(field)|] == NUL
  {
    NameReads(field, FILENAME_LEN);
  }

  /** `strncmp_unsigned`: zero exactly when the strings agree as far as `n` bytes. */
  method Strncmp(s1: seq<byte>, s2: seq<byte>, n: nat) returns (r: int)
    ensures r == 0 <==> CString(Take(s1, n)) == CString(Take(s2, n))
  {
    NameReads(s1, n);
    NameReads(s2, n);
    var i := 0;
    while i < n
      invariant 0 <= i <= n
      invariant forall k | 0 <= k < i :: At(s1, k) == At(s2, k) != NUL
    {
      if At(s1, i) != At(s2, i) || At(s1, i) == NUL {
        return At(s1, i) - At(s2, i);
      }
      i := i + 1;
    }
    r := 0;
  }

  /** `read_dentry_by_name`. */
  method ReadDentryByName(img: Image, fname: seq<byte>) returns (found: Option<Entry>)
    requires img.Shaped()
    ensures found == Lookup(img, fname)
    ensures
      var k := FirstNamed(img.slots, Name(fname));
      if k == SCAN_SLOTS then found == None
      else found.Some? && found.value.filetype == img.slots[k].filetype && found.value.inodeNum == img.slots[k].inodeNum
  {
    var i := 0;
    while i < SCAN_SLOTS
      invariant 0 <= i <= SCAN_SLOTS
      invariant forall j | 0 <= j < i :: Name(img.slots[j].filename) != Name(fname)
    {
      var r := Strncmp(fname, img.slots[i].filename, FILENAME_LEN);
      if r == 0 {
        FirstNamedUnique(img.slots, Name(fname), i);
        return Some(EntryOf(img.slots[i]));
      }
      i := i + 1;
    }
    FirstNamedUnique(img.slots, Name(fname), SCAN_SLOTS);
    found := None;
  }

  /** A directory as the image builder makes it: at most 63 entries, with distinct nonempty names. */
  ghost predicate Listed(img: Image)
    requires img.Shaped()
  {
    && img.dentryCount <= INODES
    && (forall i | 0 <= i < img.dentryCount :: Name(img.slots[i].filename) != [])
    && forall i, j | 0 <= i < j < img.dentryCount :: Name(img.slots[i].filename) != Name(img.slots[j].filename)
  }

  /** What is read as the entry after the last has no name. When all 63 entries are in use that is the
      memory behind the directory, the first of whose bytes is the lowest one of the length of inode 0. */
  ghost predicate Ends(img: Image)
    requires img.Shaped() && Listed(img)
  {
    Name(img.slots[img.dentryCount].filename) == []
  }

  /** Looking up a name that agrees as far as 32 bytes with a listed one gives the type and the inode of
      that entry, also for names that fill all 32 bytes. */
  lemma LookupListed(img: Image, i: nat, fname: seq<byte>)
    requires img.Shaped() && Listed(img) && i < img.dentryCount && Name(fname) == Name(img.slots[i].filename)
    ensures Lookup(img, Name(img.slots[i].filename)) == Lookup(img, fname)
    ensures Lookup(img, fname).Some?
    ensures
      var e := Lookup(img, fname).value;
      && e.filetype == img.slots[i].filetype && e.inodeNum == img.slots[i].inodeNum
      && e.name == Name(img.slots[i].filename)
  {
    NameOfName(img.slots[i].filename);
    FirstNamedUnique(img.slots, Name(fname), i);
  }

  lemma NameOfName(field: seq<byte>)
    ensures Name(Name(field)) == Name(field)
  {
    var n := Name(field);
    assert Take(n, FILENAME_LEN) == n;
    IndexOfUnique(n, NUL, |n|);
  }

  /** A name that is nowhere in the 63 directory entries is reported missing exactly when
      the memory behind the directory does not look like an entry of that name. */
  lemma MissNeedsCleanSlots(img: Image, fname: seq<byte>)
    requires img.Shaped()
    requires forall i | 0 <= i < INODES :: Name(img.slots[i].filename) != Name(fname)
    ensures Lookup(img, fname) == None
       <==> forall i | INODES <= i < SCAN_SLOTS :: Name(img.slots[i].filename) != Name(fname)
  {
    var k := FirstNamed(img.slots, Name(fname));
    if forall i | INODES <= i < SCAN_SLOTS :: Name(img.slots[i].filename) != Name(fname) {
      FirstNamedUnique(img.slots, Name(fname), SCAN_SLOTS);
    }
  }

  /** `strncpy_unsigned` of a name field: the name, padded with NULs to 32 bytes. */
  method CopyName(buf: array<byte>, base: nat, field: seq<byte>)
    requires |field| == FILENAME_LEN && base + FILENAME_LEN <= buf.Length
    modifies buf
    ensures buf[..] == Splice(old(buf[..]), base, Name(field) + Fill(FILENAME_LEN - |Name(field)|, NUL))
  {
    hide Splice, Name;
    NameReadsField(field);
    var name := Name(field);
    ghost var padded := name + Fill(FILENAME_LEN - |name|, NUL);
    var i := 0;
    while i < FILENAME_LEN && field[i] != NUL
      invariant 0 <= i <= |name|
      invariant buf[..] == Splice(old(buf[..]), base, padded[..i])
    {
      buf[base + i] := field[i];
      i := i + 1;
    }
    while i < FILENAME_LEN
      invariant |name| <= i <= FILENAME_LEN
      invariant buf[..] == Splice(old(buf[..]), base, padded[..i])
    {
      buf[base + i] := NUL;
      i := i + 1;
    }
    assert padded[..i] == padded;
  }
}
