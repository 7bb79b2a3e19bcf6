/** The freestanding byte-memory primitives the compiler may call on its
    own: copy, fill, overlap-safe move and compare.  Memory is an
    `array<uint8>`; `memmove` works on one array with two offsets so that
    its source and destination ranges may overlap. */
module Memory {
  import opened CTypes

  // ---------------------------------------------------------------------
  // memcpy

  /** The memory `d` after its first `n` bytes are replaced by those of `s`. */
  function Copied(d: seq<uint8>, s: seq<uint8>, n: nat): (r: seq<uint8>)
    requires n <= |d| && n <= |s|
    ensures |r| == |d|
    ensures forall i :: 0 <= i < n ==> r[i] == s[i]
    ensures forall i :: n <= i < |d| ==> r[i] == d[i]
  {
    s[..n] + d[n..]
  }

  /** `memcpy(dest, src, n)`: copies bytes 0 .. n-1 of `src` into `dest`,
      lowest index first, and returns `dest`.  `dest` and `src` may be the
      same array (an exact overlap, which copies each byte onto itself). */
  method Memcpy(dest: array<uint8>, src: array<uint8>, n: nat) returns (r: array<uint8>)
    requires n <= dest.Length && n <= src.Length
    modifies dest
    ensures r == dest
    ensures dest[..] == Copied(old(dest[..]), old(src[..]), n)
  {
    var i := 0;
    while i < n
      invariant 0 <= i <= n
      invariant forall k :: 0 <= k < i ==> dest[k] == old(src[k])
      invariant forall k :: i <= k < dest.Length ==> dest[k] == old(dest[k])
      invariant forall k :: i <= k < src.Length ==> src[k] == old(src[k])
    {
      dest[i] := src[i];
      i := i + 1;
    }
    r := dest;
  }

  // ---------------------------------------------------------------------
  // memset

  /** The memory `d` after its first `n` bytes are set to `b`. */
  function Filled(d: seq<uint8>, b: uint8, n: nat): (r: seq<uint8>)
    requires n <= |d|
    ensures |r| == |d|
    ensures forall i :: 0 <= i < n ==> r[i] == b
    ensures forall i :: n <= i < |d| ==> r[i] == d[i]
  {
    seq(n, _ => b) + d[n..]
  }

  /** `memset(s, c, n)`: stores `(uint8_t)c` into bytes 0 .. n-1 of `s` and
      returns `s`. */
  method Memset(s: array<uint8>, c: int32, n: nat) returns (r: array<uint8>)
    requires n <= s.Length
    modifies s
    ensures r == s
    ensures s[..] == Filled(old(s[..]), ToUint8(c), n)
  {
    var i := 0;
    while i < n
      invariant 0 <= i <= n
      invariant forall k :: 0 <= k < i ==> s[k] == ToUint8(c)
      invariant forall k :: i <= k < s.Length ==> s[k] == old(s[k])
    {
      s[i] := ToUint8(c);
      i := i + 1;
    }
    r := s;
  }

  // ---------------------------------------------------------------------
  // memmove

  /** The memory `m` after the `n` bytes at offset `src` have been placed
      at offset `dest`, as they were before any of them was overwritten. */
  function Moved(m: seq<uint8>, dest: nat, src: nat, n: nat): (r: seq<uint8>)
    requires dest + n <= |m| && src + n <= |m|
    ensures |r| == |m|
    ensures forall j :: dest <= j < dest + n ==> r[j] == m[src + (j - dest)]
    ensures forall j :: 0 <= j < |m| && !(dest <= j < dest + n) ==> r[j] == m[j]
  {
    m[..dest] + m[src..src + n] + m[dest + n..]
  }

  /** Moving a range onto itself leaves memory as it was. */
  lemma MovedOntoItself(m: seq<uint8>, off: nat, n: nat)
    requires off + n <= |m|
    ensures Moved(m, off, off, n) == m
  {
    assert m[..off] + m[off..off + n] + m[off + n..] == m;
  }

  /** The forward loop of `memmove` from iteration `i` on: iteration `k`
      stores the byte now at `src + k` into `dest + k`, for k = i .. n-1. */
  function ForwardCopy(m: seq<uint8>, dest: nat, src: nat, i: nat, n: nat): (r: seq<uint8>)
    requires dest + n <= |m| && src + n <= |m| && i <= n
    ensures |r| == |m|
    decreases n - i
  {
    if i == n then m
    else ForwardCopy(m[dest + i := m[src + i]], dest, src, i + 1, n)
  }

  /** The backward loop of `memmove` from iteration `i` down: iteration `k`
      stores the byte now at `src + k - 1` into `dest + k - 1`, for k = i .. 1. */
  function BackwardCopy(m: seq<uint8>, dest: nat, src: nat, i: nat): (r: seq<uint8>)
    requires dest + i <= |m| && src + i <= |m|
    ensures |r| == |m|
    decreases i
  {
    if i == 0 then m
    else BackwardCopy(m[dest + i - 1 := m[src + i - 1]], dest, src, i - 1)
  }

  /** When the source does not lie below the destination, the forward loop,
      started from a memory in which its first `i` iterations are done,
      ends in the moved memory. */
  lemma {:induction false} ForwardCopyFrom(orig: seq<uint8>, m: seq<uint8>, dest: nat, src: nat, i: nat, n: nat)
    requires dest <= src
    requires dest + n <= |orig| && src + n <= |orig| && i <= n && |m| == |orig|
    requires forall j :: dest <= j < dest + i ==> m[j] == orig[src + (j - dest)]
    requires forall j :: 0 <= j < |m| && !(dest <= j < dest + i) ==> m[j] == orig[j]
    ensures ForwardCopy(m, dest, src, i, n) == Moved(orig, dest, src, n)
    decreases n - i
  {
    if i == n {
      assert m == Moved(orig, dest, src, n);
    } else {
      var m' := m[dest + i := m[src + i]];
      assert m[src + i] == orig[src + i];
      ForwardCopyFrom(orig, m', dest, src, i + 1, n);
    }
  }

  /** The forward loop is a correct move whenever `src >= dest`. */
  lemma ForwardCopyMoves(m: seq<uint8>, dest: nat, src: nat, n: nat)
    requires dest <= src && dest + n <= |m| && src + n <= |m|
    ensures ForwardCopy(m, dest, src, 0, n) == Moved(m, dest, src, n)
  {
    ForwardCopyFrom(m, m, dest, src, 0, n);
  }

  /** When the source does not lie above the destination, the backward loop,
      started from a memory in which the iterations above `i` are done, ends
      in the moved memory. */
  lemma {:induction false} BackwardCopyFrom(orig: seq<uint8>, m: seq<uint8>, dest: nat, src: nat, i: nat, n: nat)
    requires src <= dest
    requires dest + n <= |orig| && src + n <= |orig| && i <= n && |m| == |orig|
    requires forall j :: dest + i <= j < dest + n ==> m[j] == orig[src + (j - dest)]
    requires forall j :: 0 <= j < |m| && !(dest + i <= j < dest + n) ==> m[j] == orig[j]
    ensures BackwardCopy(m, dest, src, i) == Moved(orig, dest, src, n)
    decreases i
  {
    if i == 0 {
      assert m == Moved(orig, dest, src, n);
    } else {
      var m' := m[dest + i - 1 := m[src + i - 1]];
      assert m[src + i - 1] == orig[src + i - 1];
      BackwardCopyFrom(orig, m', dest, src, i - 1, n);
    }
  }

  /** The backward loop is a correct move whenever `src <= dest`. */
  lemma BackwardCopyMoves(m: seq<uint8>, dest: nat, src: nat, n: nat)
    requires src <= dest && dest + n <= |m| && src + n <= |m|
    ensures BackwardCopy(m, dest, src, n) == Moved(m, dest, src, n)
  {
    BackwardCopyFrom(m, m, dest, src, n, n);
  }

  /** Why the direction matters: copying forward when the source lies just
      below an overlapping destination re-reads bytes it already overwrote. */
  lemma ForwardCopyFailsBelow()
    ensures ForwardCopy([1, 2, 3], 1, 0, 0, 2) == [1, 1, 1]
    ensures Moved([1, 2, 3], 1, 0, 2) == [1, 1, 2]
  {
    var m: seq<uint8> := [1, 2, 3];
    assert ForwardCopy(m, 1, 0, 0, 2) == ForwardCopy([1, 1, 3], 1, 0, 1, 2);
    assert ForwardCopy([1, 1, 3], 1, 0, 1, 2) == ForwardCopy([1, 1, 1], 1, 0, 2, 2);
    assert Moved(m, 1, 0, 2) == [1] + [1, 2] + [];
  }

  /** Likewise, copying backward when the source lies just above an
      overlapping destination re-reads bytes it already overwrote. */
  lemma BackwardCopyFailsAbove()
    ensures BackwardCopy([1, 2, 3], 0, 1, 2) == [3, 3, 3]
    ensures Moved([1, 2, 3], 0, 1, 2) == [2, 3, 3]
  {
    var m: seq<uint8> := [1, 2, 3];
    assert BackwardCopy(m, 0, 1, 2) == BackwardCopy([1, 3, 3], 0, 1, 1);
    assert BackwardCopy([1, 3, 3], 0, 1, 1) == BackwardCopy([3, 3, 3], 0, 1, 0);
    assert Moved(m, 0, 1, 2) == [] + [2, 3] + [3];
  }

  /** `memmove(dest, src, n)` on one memory `mem`, with the two pointers as
      offsets into it: copies forward when `src > dest`, backward when
      `src < dest`, and writes nothing when they are equal, so that the `n`
      bytes at `dest` end up equal to the bytes that were at `src`, whatever
      the overlap.  Returns `dest`. */
  method Memmove(mem: array<uint8>, dest: nat, src: nat, n: nat) returns (r: nat)
    requires dest + n <= mem.Length && src + n <= mem.Length
    modifies mem
    ensures r == dest
    ensures mem[..] == Moved(old(mem[..]), dest, src, n)
    ensures src == dest ==> mem[..] == old(mem[..])
  {
    if src > dest {
      var i := 0;
      while i < n
        invariant 0 <= i <= n
        invariant ForwardCopy(mem[..], dest, src, i, n) == ForwardCopy(old(mem[..]), dest, src, 0, n)
      {
        mem[dest + i] := mem[src + i];
        i := i + 1;
      }
      ForwardCopyMoves(old(mem[..]), dest, src, n);
    } else if src < dest {
      var i := n;
      while i > 0
        invariant 0 <= i <= n
        invariant BackwardCopy(mem[..], dest, src, i) == BackwardCopy(old(mem[..]), dest, src, n)
      {
        mem[dest + i - 1] := mem[src + i - 1];
        i := i - 1;
      }
      BackwardCopyMoves(old(mem[..]), dest, src, n);
    } else {
      MovedOntoItself(mem[..], dest, n);
    }
    r := dest;
  }

  // ---------------------------------------------------------------------
  // memcmp

  /** The result of comparing the byte strings `a` and `b` the way `memcmp`
      does: decided by the first position where they differ, -1 when `a`'s
      byte there is the smaller, 1 when it is the larger, 0 when there is
      no such position. */
  function Compare(a: seq<uint8>, b: seq<uint8>): (r: int)
    requires |a| == |b|
    ensures r == -1 || r == 0 || r == 1
    decreases |a|
  {
    if |a| == 0 then 0
    else if a[0] != b[0] then (if a[0] < b[0] then -1 else 1)
    else Compare(a[1..], b[1..])
  }

  /** The comparison is 0 exactly when the strings are equal. */
  lemma {:induction false} CompareZeroIffEqual(a: seq<uint8>, b: seq<uint8>)
    requires |a| == |b|
    ensures Compare(a, b) == 0 <==> a == b
    decreases |a|
  {
    if |a| != 0 {
      if a[0] == b[0] {
        CompareZeroIffEqual(a[1..], b[1..]);
        assert a == [a[0]] + a[1..] && b == [b[0]] + b[1..];
      }
    }
  }

  /** When `a` and `b` agree before position `k` and differ at `k`, their
      comparison is decided by the bytes at `k`. */
  lemma {:induction false} CompareAtFirstDifference(a: seq<uint8>, b: seq<uint8>, k: nat)
    requires |a| == |b| && k < |a|
    requires a[..k] == b[..k] && a[k] != b[k]
    ensures Compare(a, b) == if a[k] < b[k] then -1 else 1
    decreases k
  {
    if k > 0 {
      assert a[0] == a[..k][0] == b[..k][0] == b[0];
      assert a[1..][..k - 1] == a[1..k] == a[..k][1..];
      assert b[1..][..k - 1] == b[1..k] == b[..k][1..];
      CompareAtFirstDifference(a[1..], b[1..], k - 1);
    }
  }

  /** Swapping the operands negates the comparison. */
  lemma {:induction false} CompareAntisymmetric(a: seq<uint8>, b: seq<uint8>)
    requires |a| == |b|
    ensures Compare(b, a) == -Compare(a, b)
    decreases |a|
  {
    if |a| != 0 && a[0] == b[0] {
      CompareAntisymmetric(a[1..], b[1..]);
    }
  }

  /** `memcmp(s1, s2, n)`: scans bytes 0 .. n-1 and returns at the first
      position where they differ, -1 if `s1`'s byte there is the smaller
      and 1 otherwise; returns 0 when the first `n` bytes agree. */
  method Memcmp(s1: array<uint8>, s2: array<uint8>, n: nat) returns (r: int)
    requires n <= s1.Length && n <= s2.Length
    ensures r == Compare(s1[..n], s2[..n])
    ensures r == -1 || r == 0 || r == 1
    ensures r == 0 <==> s1[..n] == s2[..n]
    ensures r != 0 ==> exists k :: 0 <= k < n && s1[..k] == s2[..k] && s1[k] != s2[k]
                                   && (r == -1 <==> s1[k] < s2[k])
  {
    var i := 0;
    while i < n
      invariant 0 <= i <= n
      invariant s1[..i] == s2[..i]
    {
      if s1[i] != s2[i] {
        r := if s1[i] < s2[i] then -1 else 1;
        assert s1[..n][..i] == s1[..i] && s2[..n][..i] == s2[..i];
        CompareAtFirstDifference(s1[..n], s2[..n], i);
        CompareZeroIffEqual(s1[..n], s2[..n]);
        return;
      }
      assert s1[..i + 1] == s1[..i] + [s1[i]] && s2[..i + 1] == s2[..i] + [s2[i]];
      i := i + 1;
    }
    r := 0;
    CompareZeroIffEqual(s1[..n], s2[..n]);
  }
}
