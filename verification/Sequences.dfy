/** Facts about concatenating and slicing that the verifier needs by name. */
module Sequences {

  lemma Assoc<T>(a: seq<T>, b: seq<T>, c: seq<T>)
    ensures a + b + c == a + (b + c)
  {
  }

  lemma NothingBefore<T>(a: seq<T>)
    ensures [] + a == a
  {
  }

  lemma ConcatHead<T>(a: seq<T>, b: seq<T>)
    requires a != []
    ensures (a + b)[0] == a[0] && (a + b)[1..] == a[1..] + b
  {
  }

  lemma HeadTail<T>(a: seq<T>)
    requires a != []
    ensures [a[0]] + a[1..] == a
  {
  }

  lemma Cons<T>(h: T, t: seq<T>)
    ensures ([h] + t)[0] == h && ([h] + t)[1..] == t
  {
  }

  lemma SplitAt<T>(a: seq<T>, k: nat)
    requires k <= |a|
    ensures a[..k] + a[k..] == a
  {
  }

  lemma SplitHead<T>(a: seq<T>, k: nat)
    requires k < |a|
    ensures a[k..][0] == a[k] && a[k..][1..] == a[k + 1..]
  {
  }

  lemma SplitAround<T>(a: seq<T>, k: nat)
    requires k < |a|
    ensures a[..k] + ([a[k]] + a[k + 1..]) == a
  {
  }

  lemma DropDrop<T>(s: seq<T>, a: nat, b: nat)
    requires a + b <= |s|
    ensures s[a..][b..] == s[a + b..]
  {
  }

  lemma SliceOfSlice<T>(s: seq<T>, from: nat, to: nat, a: nat, b: nat)
    requires from <= to <= |s| && a <= b <= to - from
    ensures s[from..to][a..b] == s[from + a..from + b]
  {
    var u, v := s[from..to][a..b], s[from + a..from + b];
    assert |u| == |v|;
    forall i | 0 <= i < |u|
      ensures u[i] == v[i]
    {
      assert u[i] == s[from..to][a + i] == s[from + (a + i)];
    }
  }

  lemma ThreeParts<T>(s: seq<T>, a: nat, b: nat)
    requires a <= b <= |s|
    ensures s == s[..a] + s[a..b] + s[b..]
  {
  }

  lemma MiddleSlice<T>(x: seq<T>, e: seq<T>, y: seq<T>)
    ensures var s := x + e + y;
            s[..|x|] == x && s[|x|..|x| + |e|] == e && s[|x| + |e|..] == y
  {
  }

  lemma Regroup<T>(p: seq<T>, d: seq<T>, a: seq<T>, e: seq<T>, b: seq<T>, t: seq<T>)
    ensures p + d + (a + e + b) + t == (p + (d + a)) + e + (b + t)
  {
  }
}
