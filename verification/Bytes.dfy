// Bytes, machine words and NUL-terminated strings, as the C code sees them, and the constants that
// several parts of the system share.
module Bytes {

  datatype Option<+T> = None | Some(value: T)

  type byte = x: int | 0 <= x < 256

  const TWO_32 := 0x1_0000_0000

  // Sizes and results that several parts of the system share
  const TERMINALS := 3
  const FILENAME_LEN := 32
  const FD_MIN := 2
  const FD_MAX := 7
  const FAIL := -1

  type uint32 = x: int | 0 <= x < TWO_32

  const NUL: byte := 0
  const TAB: byte := 9
  const NEWLINE: byte := 10
  const RETURN: byte := 13
  const SPACE: byte := 32

  // A kernel array with one element for each of the terminals 1 to 3; element 0 is not used
  type PerTerminal = a: seq<int> | |a| == 4 witness [0, 0, 0, 0]

  /** The terminal that runs after terminal `t`. */
  function NextTerminal(t: int): int {
    t % TERMINALS + 1
  }

  /** The bytes of an ASCII string. */
  function Ascii(s: string): seq<byte> {
    seq(|s|, i requires 0 <= i < |s| => (s[i] as int) % 256)
  }

  function Min(a: int, b: int): int {
    if a <= b then a else b
  }

  function Max(a: int, b: int): int {
    if a <= b then b else a
  }

  /** `n` copies of `b`. */
  function Fill(n: nat, b: byte): (r: seq<byte>)
    ensures |r| == n
    ensures forall i | 0 <= i < n :: r[i] == b
  {
    seq(n, _ => b)
  }

  /** The index of the first `b` in `s`, or `|s|` when there is none. */
  function IndexOf(s: seq<byte>, b: byte): (k: nat)
    ensures k <= |s|
    ensures b !in s[..k]
    ensures k < |s| ==> s[k] == b
  {
    if s == [] || s[0] == b then 0
    else
      var next := 1 + IndexOf(s[1..], b);
      assert s[..next] == [s[0]] + s[1..][..next - 1];
      next
  }

  /** `IndexOf` is the only index with its properties. */
  lemma IndexOfUnique(s: seq<byte>, b: byte, k: nat)
    requires k <= |s| && b !in s[..k]
    requires k < |s| ==> s[k] == b
    ensures IndexOf(s, b) == k
  {
    assert forall i | 0 <= i < k :: s[i] == s[..k][i];
  }

  /** The string that a NUL-terminated reading of `s` yields: everything before
      the first NUL, or all of `s`. */
  function CString(s: seq<byte>): (r: seq<byte>)
    ensures NUL !in r && r <= s
  {
    s[..IndexOf(s, NUL)]
  }

  /** What a C program reads at index `i` of a string stored as `s` followed by NULs. */
  function At(s: seq<byte>, i: nat): byte {
    if i < |s| then s[i] else NUL
  }

  /** The prefix of `s` of at most `n` bytes. */
  function Take(s: seq<byte>, n: nat): (r: seq<byte>)
    ensures r <= s && |r| == Min(|s|, n)
  {
    if n < |s| then s[..n] else s
  }

  /** `s` with `t` written over it from index `at` on. */
  function Splice(s: seq<byte>, at: nat, t: seq<byte>): (r: seq<byte>)
    requires at + |t| <= |s|
    ensures |r| == |s|
    ensures forall i | 0 <= i < |s| :: r[i] == if at <= i < at + |t| then t[i - at] else s[i]
  {
    s[..at] + t + s[at + |t|..]
  }

  /** Two adjacent writes are one. */
  lemma SpliceTwice(s: seq<byte>, at: nat, t: seq<byte>, u: seq<byte>)
    requires at + |t| + |u| <= |s|
    ensures Splice(Splice(s, at, t), at + |t|, u) == Splice(s, at, t + u)
  {
  }

  lemma Associate<T>(a: seq<T>, b: seq<T>, c: seq<T>)
    ensures a + (b + c) == (a + b) + c
  {
  }
}
