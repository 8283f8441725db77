/** `rtw_ies_remove_ie`: removing every matching element in place. */
module RemoveIes {
  import opened Sequences
  import opened Elements
  import opened Memory

  /** The octets before and after element `k`. */
  lemma Around(s: seq<byte>, k: nat)
    requires WellFormed(s) && k < |Parse(s)|
    ensures var es := Parse(s);
            var p, n := Offset(es, k), |es[k].body| + 2;
            && p + n <= |s|
            && s[..p] == PrintAll(es[..k])
            && WellFormed(s[p + n..]) && Parse(s[p + n..]) == es[k + 1..]
  {
    hide WellFormed, Parse, PrintAll;
    SuffixAt(s, k);
    ElementAt(s, k);
    SuffixAt(s, k + 1);
  }

  /** One round: move what follows the first match over it. */
  method RemoveFirst(ies: array<byte>, start: nat, end: nat, pat: Pattern)
    returns (found: bool, start': nat, end': nat)
    requires start <= end <= ies.Length
    requires WellFormed(ies[start..end]) && Comparable(Parse(ies[start..end]), pat)
    modifies ies
    ensures var es := Parse(old(ies[start..end]));
            var k := First(es, pat);
            && (found <==> k < |es|)
            && (!found ==> start' == start && end' == end && ies[..] == old(ies[..]))
            && (found ==>
                  && start' == start + Offset(es, k) && end' == end - (|es[k].body| + 2)
                  && start <= start' <= end' < end
                  && ies[..start'] == old(ies[..start]) + PrintAll(es[..k])
                  && WellFormed(ies[start'..end']) && Parse(ies[start'..end']) == es[k + 1..]
                  && ies[end..] == old(ies[end..]))
  {
    hide WellFormed, Parse, PrintAll, Comparable, First, Moved;
    found, start', end' := false, start, end;
    ghost var s, before := ies[start..end], ies[..];
    var target, targetLen := GetIeEx(ies[start..end], pat);
    if target >= 0 {
      ghost var k := First(Parse(s), pat);
      Around(s, k);
      start' := start + target;
      var remainLen := (end - start) - (target + targetLen);
      MemMove(ies, start', start' + targetLen, remainLen);
      found, end' := true, end - targetLen;
      GapClosed(before, start, start', targetLen, end);
    }
  }

  lemma SuffixComparable(es: seq<Element>, k: nat, pat: Pattern)
    requires Comparable(es, pat) && k <= |es|
    ensures Comparable(es[k..], pat)
  {
  }

  /** Nothing matches any more: what is left is printed as it is. */
  lemma RestStays(s: seq<byte>, pat: Pattern)
    requires WellFormed(s) && First(Parse(s), pat) == |Parse(s)|
    ensures Without(Parse(s), pat) == Parse(s) && PrintAll(Parse(s)) == s
  {
    WithoutNothing(Parse(s), pat);
    PrintParse(s);
  }

  lemma MatchIn(es: seq<Element>, pat: Pattern)
    ensures First(es, pat) < |es| <==> exists i :: 0 <= i < |es| && Matches(es[i], pat)
  {
  }

  /** Where the loop stands: the elements `done` were kept, the octets from `start` to `end`
      are still to be searched. `buf0` is the buffer before the call. */
  ghost predicate Removing(buf0: seq<byte>, buf: seq<byte>, offset: nat, len: nat, pat: Pattern,
                           start: nat, end: nat, done: seq<Element>, removed: bool)
  {
    && |buf| == |buf0| && offset <= start <= end <= len <= |buf|
    && AllFit(done) && buf[..start] == buf0[..offset] + PrintAll(done)
    && buf[len..] == buf0[len..]
    && WellFormed(buf0[offset..len]) && WellFormed(buf[start..end])
    && Comparable(Parse(buf[start..end]), pat)
    && (var es, rest := Parse(buf0[offset..len]), Parse(buf[start..end]);
        && Without(es, pat) == done + Without(rest, pat)
        && if removed then First(es, pat) < |es| else rest == es)
  }

  lemma RoundKeeps(buf0: seq<byte>, buf: seq<byte>, buf': seq<byte>, offset: nat, len: nat, pat: Pattern,
                   start: nat, end: nat, done: seq<Element>, removed: bool, start': nat, end': nat)
    requires Removing(buf0, buf, offset, len, pat, start, end, done, removed) && |buf'| == |buf|
    requires var rest := Parse(buf[start..end]);
             var k := First(rest, pat);
             && k < |rest| && start <= start' <= end' < end
             && buf'[..start'] == buf[..start] + PrintAll(rest[..k])
             && WellFormed(buf'[start'..end']) && Parse(buf'[start'..end']) == rest[k + 1..]
             && buf'[end..] == buf[end..]
    ensures buf'[len..] == buf0[len..]
    ensures var rest := Parse(buf[start..end]);
            Removing(buf0, buf', offset, len, pat, start', end', done + rest[..First(rest, pat)], true)
  {
    hide WellFormed, Parse, PrintAll, First, Matches, Without, Comparable;
    var rest := Parse(buf[start..end]);
    var k := First(rest, pat);
    FirstBound(rest, pat);
    WithoutFirst(rest, pat);
    PrintConcat(done, rest[..k]);
    SuffixComparable(rest, k + 1, pat);
    assert buf'[len..] == buf'[end..][len - end..] && buf[len..] == buf[end..][len - end..];
    assert buf'[..start'] == buf0[..offset] + (PrintAll(done) + PrintAll(rest[..k]));
    assert done + (rest[..k] + Without(rest[k + 1..], pat)) == (done + rest[..k]) + Without(rest[k + 1..], pat);
  }

  lemma LoopEnds(buf0: seq<byte>, buf: seq<byte>, offset: nat, len: nat, pat: Pattern,
                 start: nat, end: nat, done: seq<Element>, removed: bool)
    requires Removing(buf0, buf, offset, len, pat, start, end, done, removed)
    requires First(Parse(buf[start..end]), pat) == |Parse(buf[start..end])|
    ensures var es := Parse(buf0[offset..len]);
            && end == offset + |PrintAll(Without(es, pat))|
            && buf[..end] == buf0[..offset] + PrintAll(Without(es, pat))
            && (removed <==> First(es, pat) < |es|)
  {
    hide WellFormed, Parse, PrintAll, First, Matches, Without, Comparable;
    var rest := Parse(buf[start..end]);
    RestStays(buf[start..end], pat);
    PrintConcat(done, rest);
    assert buf[..end] == buf[..start] + buf[start..end];
    assert buf[..end] == buf0[..offset] + (PrintAll(done) + PrintAll(rest));
  }

  lemma RemovingStarts(buf: seq<byte>, offset: nat, len: nat, pat: Pattern)
    requires offset <= len <= |buf| && WellFormed(buf[offset..len]) && Comparable(Parse(buf[offset..len]), pat)
    ensures Removing(buf, buf, offset, len, pat, offset, len, [], false)
  {
    hide WellFormed, Parse, Without, Comparable, First;
    NothingBefore(Without(Parse(buf[offset..len]), pat));
  }

  lemma RemovingArea(buf0: seq<byte>, buf: seq<byte>, offset: nat, len: nat, pat: Pattern,
                     start: nat, end: nat, done: seq<Element>, removed: bool)
    requires Removing(buf0, buf, offset, len, pat, start, end, done, removed)
    ensures offset <= start <= end <= len <= |buf| && buf[len..] == buf0[len..]
    ensures WellFormed(buf[start..end]) && Comparable(Parse(buf[start..end]), pat)
    ensures First(Parse(buf[start..end]), pat) <= |Parse(buf[start..end])|
  {
    hide WellFormed, Parse, Without, Comparable;
  }

  /** Find matching elements from `offset` on and remove them. `removed` is the C result
      `_SUCCESS`. */
  method Remove(ies: array<byte>, len: nat, offset: nat, pat: Pattern) returns (newLen: nat, removed: bool)
    requires len <= ies.Length
    requires offset < len ==> WellFormed(ies[offset..len]) && Comparable(Parse(ies[offset..len]), pat)
    modifies ies
    ensures offset >= len ==> newLen == len && !removed && ies[..] == old(ies[..])
    ensures offset < len ==>
              var es := Parse(old(ies[offset..len]));
              && newLen == offset + |PrintAll(Without(es, pat))| <= len
              && ies[..newLen] == old(ies[..offset]) + PrintAll(Without(es, pat))
              && ies[len..] == old(ies[len..])
              && (removed <==> exists i :: 0 <= i < |es| && Matches(es[i], pat))
  {
    newLen, removed := len, false;
    if len <= offset {
      return;
    }
    hide WellFormed, Parse, PrintAll, First, Matches, Without, Comparable, Removing;
    ghost var buf0, done: seq<Element> := ies[..], [];
    MatchIn(Parse(ies[offset..len]), pat);
    RemovingStarts(ies[..], offset, len, pat);
    var start: nat, found := offset, true;
    while found
      invariant start <= newLen <= len && ies[len..] == buf0[len..]
      invariant Removing(buf0, ies[..], offset, len, pat, start, newLen, done, removed)
      invariant !found ==> First(Parse(ies[start..newLen]), pat) == |Parse(ies[start..newLen])|
      decreases found, newLen
    {
      ghost var buf, start0, end0 := ies[..], start, newLen;
      RemovingArea(buf0, buf, offset, len, pat, start, newLen, done, removed);
      found, start, newLen := RemoveFirst(ies, start, newLen, pat);
      if found {
        RoundKeeps(buf0, buf, ies[..], offset, len, pat, start0, end0, done, removed, start, newLen);
        done := done + Parse(buf[start0..end0])[..First(Parse(buf[start0..end0]), pat)];
        removed := true;
      }
    }
    LoopEnds(buf0, ies[..], offset, len, pat, start, newLen, done, removed);
  }
}
