// Filling and copying memory.
module Memory {
  import opened Bytes

  /** `memset(a + base, b, n)`. */
  method MemSet(a: array<byte>, base: nat, n: nat, b: byte)
    requires base + n <= a.Length
    modifies a
    ensures a[..] == Splice(old(a[..]), base, Fill(n, b))
  {
    var i := 0;
    while i < n
      invariant 0 <= i <= n
      invariant forall j | 0 <= j < a.Length :: a[j] == if base <= j < base + i then b else old(a[j])
    {
      a[base + i] := b;
      i := i + 1;
    }
  }

  /** `memcpy` of a whole buffer. */
  method CopyAll(to: array<byte>, from: array<byte>)
    requires to != from && to.Length == from.Length
    modifies to
    ensures to[..] == from[..]
  {
    var i := 0;
    while i < to.Length
      invariant 0 <= i <= to.Length && forall j | 0 <= j < i :: to[j] == from[j]
    {
      to[i] := from[i];
      i := i + 1;
    }
  }

  /** `memset` of a whole buffer. */
  method SetAll(a: array<byte>, b: byte)
    modifies a
    ensures a[..] == Fill(a.Length, b)
  {
    MemSet(a, 0, a.Length, b);
    assert Splice(old(a[..]), 0, Fill(a.Length, b)) == Fill(a.Length, b);
  }
}
