// The read-only file system: the on-disk image and the block-indirect reader.
module FileSystem {
  import opened Bytes

  const BLOCK_SIZE := 4096
  const BLOCKS_PER_INODE := 1023
  const INODES := 63
  // The directory scan runs over as many slots as the directory has bytes.
  const SCAN_SLOTS := 4032

  datatype Inode = Inode(length: uint32, blockNum: seq<uint32>)

  datatype Dentry = Dentry(filename: seq<byte>, filetype: uint32, inodeNum: uint32)

  /** The image in memory. Slots 63 and up of `slots` are what the directory scan
      sees when it runs past the directory into the inode blocks. */
  datatype Image = Image(dentryCount: uint32, slots: seq<Dentry>, inodes: seq<Inode>, blocks: seq<seq<byte>>)
  {
    ghost predicate Shaped() {
      && |slots| == SCAN_SLOTS
      && (forall i | 0 <= i < SCAN_SLOTS :: |slots[i].filename| == FILENAME_LEN)
      && |inodes| == INODES
      && (forall i | 0 <= i < INODES :: |inodes[i].blockNum| == BLOCKS_PER_INODE)
      // the largest block number the reader lets through is 1023
      && |blocks| == BLOCKS_PER_INODE + 1
      && (forall i | 0 <= i <= BLOCKS_PER_INODE :: |blocks[i]| == BLOCK_SIZE)
    }

    /** The file's length fits its block list. */
    ghost predicate LengthFits(ino: nat) {
      ino < |inodes| && inodes[ino].length <= BLOCK_SIZE * BLOCKS_PER_INODE
    }

    /** The reader accepts the block that holds byte `p` of the file. */
    ghost predicate GoodAt(ino: nat, p: nat)
      requires Shaped() && LengthFits(ino) && p < inodes[ino].length
    {
      inodes[ino].blockNum[p / BLOCK_SIZE] <= BLOCKS_PER_INODE
    }

    /** Byte `p` of the file, through the block list. */
    ghost function ByteAt(ino: nat, p: nat): byte
      requires Shaped() && LengthFits(ino) && p < inodes[ino].length && GoodAt(ino, p)
    {
      blocks[inodes[ino].blockNum[p / BLOCK_SIZE]][p % BLOCK_SIZE]
    }

    /** A well-formed file: every block it needs is readable. */
    ghost predicate Intact(ino: nat)
      requires Shaped()
    {
      LengthFits(ino) && forall p | 0 <= p < inodes[ino].length :: GoodAt(ino, p)
    }

    /** The number of blocks a well-formed file occupies. */
    ghost function BlockCount(ino: nat): nat
      requires Shaped() && Intact(ino)
    {
      (inodes[ino].length + BLOCK_SIZE - 1) / BLOCK_SIZE
    }

    /** The first `n` blocks of the file, glued together. */
    ghost function Blocks(ino: nat, n: nat): (r: seq<byte>)
      requires Shaped() && Intact(ino) && n <= BlockCount(ino)
      ensures |r| == BLOCK_SIZE * n
    {
      if n == 0 then []
      else
        assert GoodAt(ino, BLOCK_SIZE * (n - 1));
        assert BLOCK_SIZE * (n - 1) / BLOCK_SIZE == n - 1;
        Blocks(ino, n - 1) + blocks[inodes[ino].blockNum[n - 1]]
    }

    /** The flat content of the file: its blocks one after the other, cut at the
        file's length. */
    ghost function Content(ino: nat): (r: seq<byte>)
      requires Shaped() && Intact(ino)
      ensures |r| == inodes[ino].length
    {
      Blocks(ino, BlockCount(ino))[..inodes[ino].length]
    }

    lemma {:induction false} BlocksByte(ino: nat, n: nat, p: nat)
      requires Shaped() && Intact(ino) && n <= BlockCount(ino)
      requires p < BLOCK_SIZE * n && p < inodes[ino].length
      ensures Blocks(ino, n)[p] == ByteAt(ino, p)
    {
      if p < BLOCK_SIZE * (n - 1) {
        BlocksByte(ino, n - 1, p);
      } else {
        assert p / BLOCK_SIZE == n - 1 && p % BLOCK_SIZE == p - BLOCK_SIZE * (n - 1);
        assert GoodAt(ino, p);
      }
    }

    /** Reading through the block list at `p` gives byte `p` of the flat content. */
    lemma ContentByte(ino: nat, p: nat)
      requires Shaped() && Intact(ino) && p < inodes[ino].length
      ensures Content(ino)[p] == ByteAt(ino, p)
    {
      BlocksByte(ino, BlockCount(ino), p);
    }
  }

  /** At most `n` items of `s` from `offset` on; nothing past the end. */
  function Chunk(s: seq<byte>, offset: nat, n: nat): (r: seq<byte>)
    ensures |r| == Max(0, Min(offset + n, |s|) - offset)
  {
    if offset >= |s| then [] else s[offset..Min(offset + n, |s|)]
  }

  /** The position at which a read stops: the request's end, computed in 32 bits,
      or the file's length when that is smaller. */
  function StopAt(len: uint32, offset: uint32, length: uint32): uint32 {
    var sum := (length + offset) % TWO_32;
    if sum > len then len else sum
  }

  /** What a read returns on a well-formed file of content `c`: a request whose end
      does not fit 32 bits returns nothing. */
  function Delivered(c: seq<byte>, offset: uint32, length: uint32): seq<byte> {
    if offset + length < TWO_32 then Chunk(c, offset, length) else []
  }

  /** A read meets its specification, to return the requested chunk, exactly when the
      end of the request fits 32 bits or the request starts past the end of the file. */
  lemma DeliveredIsChunk(c: seq<byte>, offset: uint32, length: uint32)
    requires |c| < TWO_32
    ensures Delivered(c, offset, length) == Chunk(c, offset, length)
       <==> offset + length < TWO_32 || offset >= |c|
  {
    if offset + length >= TWO_32 && offset < |c| {
      assert |Chunk(c, offset, length)| > 0;
    }
  }

  ghost predicate HasByte(img: Image, ino: nat, p: nat, b: byte)
    requires img.Shaped() && img.LengthFits(ino)
  {
    p < img.inodes[ino].length && img.GoodAt(ino, p) && b == img.ByteAt(ino, p)
  }

  /** `s` is what the file holds from `offset` on, read through the block list. */
  ghost predicate Holds(img: Image, ino: nat, offset: nat, s: seq<byte>)
    requires img.Shaped() && img.LengthFits(ino)
  {
    forall k | 0 <= k < |s| :: HasByte(img, ino, offset + k, s[k])
  }

  lemma HoldsNothing(img: Image, ino: nat, offset: nat)
    requires img.Shaped() && img.LengthFits(ino)
    ensures Holds(img, ino, offset, [])
  {
  }

  lemma HoldsTogether(img: Image, ino: nat, offset: nat, s: seq<byte>, t: seq<byte>)
    requires img.Shaped() && img.LengthFits(ino)
    requires Holds(img, ino, offset, s) && (t != [] ==> Holds(img, ino, offset + |s|, t))
    ensures Holds(img, ino, offset, s + t)
  {
    forall k | 0 <= k < |s + t| ensures HasByte(img, ino, offset + k, (s + t)[k]) {
      if k >= |s| {
        assert (s + t)[k] == t[k - |s|];
        assert HasByte(img, ino, offset + |s| + (k - |s|), t[k - |s|]);
      }
    }
  }

  /** The inner loop of the reader: entries `from` to `to` of block `idx` of the file
      are copied to `buf[at]`, `buf[at + 1]`, ..., unless the block number is too large. */
  method CopyRun(img: Image, ino: nat, idx: nat, from: nat, to: nat, buf: array<byte>, at: nat)
    returns (ok: bool, ghost got: seq<byte>)
    requires img.Shaped() && img.LengthFits(ino)
    requires to <= BLOCK_SIZE && BLOCK_SIZE * idx + to <= img.inodes[ino].length
    requires at <= buf.Length && at + to - from <= buf.Length
    modifies buf
    ensures |got| == if ok then Max(0, to - from) else 0
    ensures at + |got| <= buf.Length && buf[..] == Splice(old(buf[..]), at, got)
    ensures got != [] ==> Holds(img, ino, BLOCK_SIZE * idx + from, got)
    ensures !ok ==> from < to && !img.GoodAt(ino, BLOCK_SIZE * idx + from)
  {
    got := [];
    var i := from;
    while i < to
      invariant (i == from || from < i <= to) && |got| == i - from
      invariant i > from ==> img.inodes[ino].blockNum[idx] <= BLOCKS_PER_INODE
      invariant Holds(img, ino, BLOCK_SIZE * idx + from, got)
      invariant buf[..] == Splice(old(buf[..]), at, got)
    {
      InBlock(idx, i);
      var block := img.inodes[ino].blockNum[idx];
      if block > BLOCKS_PER_INODE {
        ok := false;
        return;
      }
      buf[at + (i - from)] := img.blocks[block][i];
      got := got + [img.blocks[block][i]];
      i := i + 1;
    }
    ok := true;
  }

  /** Copies bytes `offset`, `offset + 1`, ... of the file to `buf[base]`, `buf[base + 1]`, ...
      `got` names the bytes that were copied. */
  method ReadData(img: Image, ino: uint32, offset: uint32, buf: array<byte>, base: nat, length: uint32)
    returns (r: int, ghost got: seq<byte>)
    requires img.Shaped() && (ino < INODES ==> img.LengthFits(ino))
    requires base <= buf.Length
    requires ino < INODES ==> base + StopAt(img.inodes[ino].length, offset, length) - offset <= buf.Length
    modifies buf
    ensures base + |got| <= buf.Length
    ensures buf[..] == Splice(old(buf[..]), base, got)
    ensures ino >= INODES ==> r == -1 && got == []
    ensures ino < INODES ==> Holds(img, ino, offset, got)
    ensures ino < INODES && r >= 0 ==> r == |got| == Max(0, StopAt(img.inodes[ino].length, offset, length) - offset)
    // failure: the next block number is too large; what precedes that block has been copied
    ensures ino < INODES && r < 0 ==> r == -1 && offset + |got| < StopAt(img.inodes[ino].length, offset, length)
                                      && !img.GoodAt(ino, offset + |got|)
    // a well-formed file delivers a piece of its flat content
    ensures ino < INODES && img.Intact(ino) ==> r == |got| && got == Delivered(img.Content(ino), offset, length)
  {
    hide Splice, Holds, Delivered;
    got := [];
    if ino >= INODES {
      return -1, got;
    }
    HoldsNothing(img, ino, offset);
    var inode := img.inodes[ino];
    var startBlock := offset / BLOCK_SIZE;
    var endBlock, endByte;
    var sum := (length + offset) % TWO_32;
    if sum > inode.length {
      endBlock := inode.length / BLOCK_SIZE;
      endByte := inode.length % BLOCK_SIZE;
    } else {
      endBlock := sum / BLOCK_SIZE;
      endByte := sum % BLOCK_SIZE;
    }
    ghost var stop := StopAt(inode.length, offset, length);
    assert stop == BLOCK_SIZE * endBlock + endByte;
    r := 0;
    var idx := startBlock;
    while idx <= endBlock
      invariant startBlock <= idx
      invariant r == |got| ==
                  if idx == startBlock then 0
                  else if idx <= endBlock then BLOCK_SIZE * idx - offset
                  else Max(0, stop - offset)
      invariant r <= Max(0, stop - offset)
      invariant Holds(img, ino, offset, got)
      invariant buf[..] == Splice(old(buf[..]), base, got)
    {
      var loopStart, loopEnd;
      if idx == startBlock && idx == endBlock {
        loopStart := offset % BLOCK_SIZE;
        loopEnd := endByte;
      } else if idx == startBlock && idx != endBlock {
        loopStart := offset % BLOCK_SIZE;
        loopEnd := BLOCK_SIZE;
      } else if idx != startBlock && idx == endBlock {
        loopStart := 0;
        loopEnd := endByte;
      } else {
        loopStart := 0;
        loopEnd := BLOCK_SIZE;
      }
      assert loopStart < loopEnd ==> offset + r == BLOCK_SIZE * idx + loopStart;
      var ok, more := CopyRun(img, ino, idx, loopStart, loopEnd, buf, base + r);
      HoldsTogether(img, ino, offset, got, more);
      SpliceTwice(old(buf[..]), base, got, more);
      got := got + more;
      r := r + if ok then Max(0, loopEnd - loopStart) else 0;
      if !ok {
        return -1, got;
      }
      idx := idx + 1;
    }
    if img.Intact(ino) {
      WholeRead(img, ino, offset, length, got);
    }
  }

  /** Reading a well-formed file through its block list, as far as the stop position,
      gives the requested piece of the flat content. */
  lemma WholeRead(img: Image, ino: nat, offset: uint32, length: uint32, got: seq<byte>)
    requires img.Shaped() && ino < INODES && img.Intact(ino) && Holds(img, ino, offset, got)
    requires |got| == Max(0, StopAt(img.inodes[ino].length, offset, length) - offset)
    ensures got == Delivered(img.Content(ino), offset, length)
  {
    hide Chunk, Delivered, StopAt;
    DeliveredBytes(img.Content(ino), offset, length);
    forall k | 0 <= k < |got| ensures got[k] == img.Content(ino)[offset + k] {
      assert HasByte(img, ino, offset + k, got[k]);
      img.ContentByte(ino, offset + k);
    }
  }

  lemma DeliveredBytes(c: seq<byte>, offset: uint32, length: uint32)
    requires |c| < TWO_32
    ensures |Delivered(c, offset, length)| == Max(0, StopAt(|c|, offset, length) - offset)
    ensures Delivered(c, offset, length) != [] ==> offset + |Delivered(c, offset, length)| <= |c|
    ensures forall k | 0 <= k < |Delivered(c, offset, length)| :: Delivered(c, offset, length)[k] == c[offset + k]
  {
  }

  lemma InBlock(idx: nat, i: nat)
    requires i < BLOCK_SIZE
    ensures (BLOCK_SIZE * idx + i) / BLOCK_SIZE == idx
    ensures (BLOCK_SIZE * idx + i) % BLOCK_SIZE == i
  {
  }
}
