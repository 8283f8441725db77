/** Octet buffers and the copying primitives the driver edits them with. */
module Memory {
  import opened Sequences
  import opened Elements

  /** What `memmove` leaves in a buffer. */
  function Moved(s: seq<byte>, dst: nat, src: nat, n: nat): (r: seq<byte>)
    requires dst + n <= |s| && src + n <= |s|
    ensures |r| == |s|
  {
    s[..dst] + s[src..src + n] + s[dst + n..]
  }

  method MemMove(a: array<byte>, dst: nat, src: nat, n: nat)
    requires dst + n <= a.Length && src + n <= a.Length
    modifies a
    ensures a[..] == Moved(old(a[..]), dst, src, n)
  {
    forall i | 0 <= i < n {
      a[dst + i] := a[src + i];
    }
  }

  function Filled(s: seq<byte>, at: nat, v: byte, n: nat): (r: seq<byte>)
    requires at + n <= |s|
    ensures |r| == |s|
  {
    s[..at] + seq(n, _ => v) + s[at + n..]
  }

  method MemSet(a: array<byte>, at: nat, v: byte, n: nat)
    requires at + n <= a.Length
    modifies a
    ensures a[..] == Filled(old(a[..]), at, v, n)
  {
    forall i | 0 <= i < n {
      a[at + i] := v;
    }
  }

  function Copied(s: seq<byte>, at: nat, src: seq<byte>): (r: seq<byte>)
    requires at + |src| <= |s|
    ensures |r| == |s|
  {
    s[..at] + src + s[at + |src|..]
  }

  method MemCpy(a: array<byte>, at: nat, src: seq<byte>)
    requires at + |src| <= a.Length
    modifies a
    ensures a[..] == Copied(old(a[..]), at, src)
  {
    forall i | 0 <= i < |src| {
      a[at + i] := src[i];
    }
  }

  /** The octets without the `n` ones at `at`. */
  function Cut(s: seq<byte>, at: nat, n: nat): (r: seq<byte>)
    requires at + n <= |s|
    ensures |r| == |s| - n
  {
    s[..at] + s[at + n..]
  }

  /** Closing a gap: the `n` octets at `p` disappear and the rest up to `end` moves down.
      The octets from `start` to `end` are seen as a sequence of their own. */
  lemma GapClosed(s: seq<byte>, start: nat, p: nat, n: nat, end: nat)
    requires start <= p && p + n <= end <= |s|
    ensures var r, m := Moved(s, p, p + n, end - (p + n)), s[start..end];
            && r[..p] == s[..start] + m[..p - start]
            && r[p..end - n] == m[p - start + n..]
            && r[end..] == s[end..]
  {
    var r, m := Moved(s, p, p + n, end - (p + n)), s[start..end];
    SliceOfSlice(s, start, end, 0, p - start);
    SliceOfSlice(s, start, end, p - start + n, end - start);
    MovedSlices(s, p, p + n, end - (p + n));
  }

  lemma MovedSlices(s: seq<byte>, dst: nat, src: nat, n: nat)
    requires dst + n <= |s| && src + n <= |s|
    ensures var r := Moved(s, dst, src, n);
            r[..dst] == s[..dst] && r[dst..dst + n] == s[src..src + n] && r[dst + n..] == s[dst + n..]
  {
  }

  /** A copy is where it was put, and nowhere else. */
  lemma CopiedSlices(s: seq<byte>, at: nat, src: seq<byte>, i: nat, j: nat)
    requires at + |src| <= |s| && i <= j <= |s|
    ensures var r := Copied(s, at, src);
            r[at..at + |src|] == src && (j <= at || at + |src| <= i ==> r[i..j] == s[i..j])
  {
  }
}
