/** Information elements: the identifier-length-body lists of core/rtw_ieee80211.c. */
module Elements {
  import opened Sequences

  type byte = x: int | 0 <= x < 256

  datatype Element = Element(id: byte, body: seq<byte>)

  /** The length of a body fits its length octet. */
  predicate Fits(e: Element) {
    |e.body| < 256
  }

  predicate AllFit(es: seq<Element>) {
    forall i :: 0 <= i < |es| ==> Fits(es[i])
  }

  /** The octets of an element. */
  function Print(e: Element): (s: seq<byte>)
    requires Fits(e)
    ensures |s| == |e.body| + 2
  {
    [e.id, |e.body|] + e.body
  }

  function PrintAll(es: seq<Element>): (s: seq<byte>)
    requires AllFit(es)
  {
    if es == [] then [] else Print(es[0]) + PrintAll(es[1..])
  }

  /** The length of the element at the start of `s`. */
  function HeadLen(s: seq<byte>): (n: nat)
    requires |s| >= 2
    ensures n >= 2
  {
    2 + s[1] as int
  }

  /** The octets split into elements with nothing left over. */
  predicate WellFormed(s: seq<byte>)
    decreases |s|
  {
    s == [] || (|s| >= 2 && |s| >= HeadLen(s) && WellFormed(s[HeadLen(s)..]))
  }

  function Head(s: seq<byte>): (e: Element)
    requires |s| >= 2 && |s| >= HeadLen(s)
    ensures Fits(e) && Print(e) == s[..HeadLen(s)]
  {
    Element(s[0], s[2..HeadLen(s)])
  }

  /** The elements of well-formed octets. */
  function Parse(s: seq<byte>): (es: seq<Element>)
    requires WellFormed(s)
    ensures AllFit(es)
    decreases |s|
  {
    if s == [] then [] else [Head(s)] + Parse(s[HeadLen(s)..])
  }

  /** Printing undoes parsing. */
  lemma {:induction false} PrintParse(s: seq<byte>)
    requires WellFormed(s)
    ensures PrintAll(Parse(s)) == s
    decreases |s|
  {
    if s != [] {
      var rest := s[HeadLen(s)..];
      PrintParse(rest);
      assert Parse(s)[1..] == Parse(rest);
      assert s[..HeadLen(s)] + rest == s;
    }
  }

  lemma HeadOfPrint(e: Element, rest: seq<byte>)
    requires Fits(e)
    ensures var s := Print(e) + rest;
            |s| >= HeadLen(s) && HeadLen(s) == |e.body| + 2 && Head(s) == e && s[HeadLen(s)..] == rest
  {
    var s := Print(e) + rest;
    assert s[0] == e.id && s[1] == |e.body|;
    assert s[2..HeadLen(s)] == e.body;
  }

  /** Parsing undoes printing. */
  lemma {:induction false} ParsePrint(es: seq<Element>)
    requires AllFit(es)
    ensures WellFormed(PrintAll(es)) && Parse(PrintAll(es)) == es
  {
    if es != [] {
      ParsePrint(es[1..]);
      HeadOfPrint(es[0], PrintAll(es[1..]));
    }
  }

  lemma PrintOne(e: Element)
    requires Fits(e)
    ensures PrintAll([e]) == Print(e)
  {
    assert [e][1..] == [];
  }

  lemma {:induction false} PrintConcat(a: seq<Element>, b: seq<Element>)
    requires AllFit(a) && AllFit(b)
    ensures AllFit(a + b) && PrintAll(a + b) == PrintAll(a) + PrintAll(b)
  {
    if a == [] {
      NothingBefore(b);
      NothingBefore(PrintAll(b));
    } else {
      ConcatHead(a, b);
      PrintConcat(a[1..], b);
      Assoc(Print(a[0]), PrintAll(a[1..]), PrintAll(b));
    }
  }

  // ----- searching -----

  /** An element identifier, and the octets the body has to start with. */
  datatype Pattern = Pattern(id: byte, oui: seq<byte>)

  predicate Matches(e: Element, pat: Pattern) {
    e.id == pat.id && |e.body| >= |pat.oui| && e.body[..|pat.oui|] == pat.oui
  }

  /** Elements with the wanted identifier are long enough to be compared. */
  predicate Comparable(es: seq<Element>, pat: Pattern) {
    forall i :: 0 <= i < |es| && es[i].id == pat.id ==> |es[i].body| >= |pat.oui|
  }

  /** The index of the first match, or the length. */
  function First(es: seq<Element>, pat: Pattern): (k: nat)
    ensures k <= |es|
    ensures forall i :: 0 <= i < k ==> !Matches(es[i], pat)
    ensures k < |es| ==> Matches(es[k], pat)
  {
    if es == [] || Matches(es[0], pat) then 0 else 1 + First(es[1..], pat)
  }

  lemma FirstBound(es: seq<Element>, pat: Pattern)
    ensures First(es, pat) <= |es|
  {
  }

  lemma FirstUnique(es: seq<Element>, pat: Pattern, k: nat)
    requires k <= |es| && (forall i :: 0 <= i < k ==> !Matches(es[i], pat))
    requires k < |es| ==> Matches(es[k], pat)
    ensures k == First(es, pat)
  {
  }

  /** Where element `k` starts. */
  function Offset(es: seq<Element>, k: nat): (n: nat)
    requires AllFit(es) && k <= |es|
  {
    |PrintAll(es[..k])|
  }

  lemma PrintSplit(es: seq<Element>, k: nat)
    requires AllFit(es) && k <= |es|
    ensures PrintAll(es) == PrintAll(es[..k]) + PrintAll(es[k..])
  {
    hide PrintAll;
    SplitAt(es, k);
    PrintConcat(es[..k], es[k..]);
  }

  /** The octets before, of and after element `k`. */
  lemma PrintAround(es: seq<Element>, k: nat)
    requires AllFit(es) && k < |es|
    ensures PrintAll(es) == PrintAll(es[..k]) + Print(es[k]) + PrintAll(es[k + 1..])
  {
    PrintSplit(es, k);
    PrintFrom(es, k);
    hide PrintAll, Print;
    Assoc(PrintAll(es[..k]), Print(es[k]), PrintAll(es[k + 1..]));
  }

  lemma PrintFrom(es: seq<Element>, k: nat)
    requires AllFit(es) && k < |es|
    ensures PrintAll(es[k..]) == Print(es[k]) + PrintAll(es[k + 1..])
  {
    SplitHead(es, k);
  }

  lemma OffsetNext(es: seq<Element>, k: nat)
    requires AllFit(es) && k < |es|
    ensures Offset(es, k + 1) == Offset(es, k) + |es[k].body| + 2
  {
    assert es[..k + 1] == es[..k] + [es[k]];
    assert PrintAll([es[k]]) == Print(es[k]);
    PrintConcat(es[..k], [es[k]]);
  }

  /** The octets from element `k` on. */
  lemma SuffixAt(s: seq<byte>, k: nat)
    requires WellFormed(s) && k <= |Parse(s)|
    ensures var n := Offset(Parse(s), k);
            n <= |s| && s[..n] == PrintAll(Parse(s)[..k]) && s[n..] == PrintAll(Parse(s)[k..])
    ensures var n := Offset(Parse(s), k); WellFormed(s[n..]) && Parse(s[n..]) == Parse(s)[k..]
  {
    PrintParse(s);
    PrintSplit(Parse(s), k);
    ParsePrint(Parse(s)[k..]);
  }

  /** The octets of element `k`. */
  lemma ElementAt(s: seq<byte>, k: nat)
    requires WellFormed(s) && k < |Parse(s)|
    ensures var es, n := Parse(s), Offset(Parse(s), k);
            && n + 2 + |es[k].body| <= |s|
            && s[n] == es[k].id && s[n + 1] == |es[k].body|
            && s[n + 2..n + 2 + |es[k].body|] == es[k].body
            && Offset(es, k + 1) == n + 2 + |es[k].body|
  {
    hide WellFormed, Parse, PrintAll, HeadLen;
    var es := Parse(s);
    PrintParse(s);
    PrintAround(es, k);
    OffsetNext(es, k);
    var a, b := PrintAll(es[..k]), PrintAll(es[k + 1..]);
    MiddleSlice(a, Print(es[k]), b);
    var n := |a|;
    assert s[n..n + 2 + |es[k].body|] == Print(es[k]);
    assert Print(es[k])[2..2 + |es[k].body|] == es[k].body;
    SliceOfSlice(s, n, n + 2 + |es[k].body|, 2, 2 + |es[k].body|);
    assert s[n] == Print(es[k])[0] && s[n + 1] == Print(es[k])[1];
  }

  lemma SuffixEnd(s: seq<byte>, k: nat)
    requires WellFormed(s) && k <= |Parse(s)|
    ensures k == |Parse(s)| <==> Offset(Parse(s), k) >= |s|
  {
    SuffixAt(s, k);
    if k < |Parse(s)| {
      ElementAt(s, k);
    }
  }

  /** `rtw_get_ie`: the position of the first element with identifier `id`, and the length of
      its body. */
  method GetIe(ies: seq<byte>, id: byte) returns (p: int, len: nat)
    requires WellFormed(ies)
    ensures var es := Parse(ies);
            var k := First(es, Pattern(id, []));
            if k == |es| then p == -1 && len == 0 else p == Offset(es, k) && len == |es[k].body|
  {
    ghost var es, pat, k := Parse(ies), Pattern(id, []), 0;
    p, len := -1, 0;
    if |ies| < 1 {
      return;
    }
    var i := 0;
    while true
      invariant k < |es| && i == Offset(es, k)
      invariant forall j :: 0 <= j < k ==> !Matches(es[j], pat)
      decreases |es| - k
    {
      ElementAt(ies, k);
      if ies[i] == id {
        FirstUnique(es, pat, k);
        p, len := i, ies[i + 1];
        return;
      }
      i := i + (ies[i + 1] as int + 2);
      k := k + 1;
      SuffixEnd(ies, k);
      if i >= |ies| {
        FirstUnique(es, pat, k);
        return;
      }
    }
  }

  /** Comparing octets at the body of element `k` decides whether it matches. */
  lemma MatchAt(s: seq<byte>, k: nat, pat: Pattern)
    requires WellFormed(s) && k < |Parse(s)| && Comparable(Parse(s), pat)
    ensures var n := Offset(Parse(s), k);
            && n + 1 < |s|
            && (s[n] == pat.id ==> n + 2 + |pat.oui| <= |s|)
            && (Matches(Parse(s)[k], pat) <==> s[n] == pat.id && s[n + 2..n + 2 + |pat.oui|] == pat.oui)
  {
    ElementAt(s, k);
    var es, n := Parse(s), Offset(Parse(s), k);
    if s[n] == pat.id {
      SliceOfSlice(s, n + 2, n + 2 + |es[k].body|, 0, |pat.oui|);
    }
  }

  /** `rtw_get_ie_ex`: like `GetIe`, with the octets the body has to start with; `len` is the
      length of the whole element. */
  method GetIeEx(ies: seq<byte>, pat: Pattern) returns (p: int, len: nat)
    requires WellFormed(ies) && Comparable(Parse(ies), pat)
    ensures var es := Parse(ies);
            var k := First(es, pat);
            if k == |es| then p == -1 && len == 0 else p == Offset(es, k) && len == |es[k].body| + 2
  {
    hide Matches, Comparable;
    ghost var es, k := Parse(ies), 0;
    p, len := -1, 0;
    var cnt := 0;
    SuffixEnd(ies, 0);
    while cnt < |ies|
      invariant k <= |es| && cnt == Offset(es, k)
      invariant k == |es| <==> cnt >= |ies|
      invariant forall j :: 0 <= j < k ==> !Matches(es[j], pat)
      decreases |ies| - cnt
    {
      ElementAt(ies, k);
      MatchAt(ies, k, pat);
      if pat.id == ies[cnt] && ies[cnt + 2..cnt + 2 + |pat.oui|] == pat.oui {
        FirstUnique(es, pat, k);
        p, len := cnt, ies[cnt + 1] as int + 2;
        return;
      }
      cnt := cnt + (ies[cnt + 1] as int + 2);
      k := k + 1;
      SuffixEnd(ies, k);
    }
    FirstUnique(es, pat, k);
  }

  /** The octets of the element that is found. */
  lemma FoundOctets(ies: seq<byte>, pat: Pattern)
    requires WellFormed(ies) && First(Parse(ies), pat) < |Parse(ies)|
    ensures var es, k := Parse(ies), First(Parse(ies), pat);
            var p, len := Offset(es, k), |es[k].body|;
            && |pat.oui| <= len && p + 2 + len <= |ies| && ies[p] == pat.id && ies[p + 1] == len
            && ies[p + 2..p + 2 + |pat.oui|] == pat.oui
  {
    hide WellFormed, Parse, PrintAll;
    var es, k := Parse(ies), First(Parse(ies), pat);
    ElementAt(ies, k);
    SliceOfSlice(ies, Offset(es, k) + 2, Offset(es, k) + 2 + |es[k].body|, 0, |pat.oui|);
  }

  // ----- removing -----

  /** The elements that do not match, in order. */
  function Without(es: seq<Element>, pat: Pattern): (r: seq<Element>)
    ensures AllFit(es) ==> AllFit(r)
  {
    if es == [] then []
    else (if Matches(es[0], pat) then [] else [es[0]]) + Without(es[1..], pat)
  }

  lemma WithoutCons(h: Element, t: seq<Element>, pat: Pattern)
    ensures Without([h] + t, pat) == (if Matches(h, pat) then [] else [h]) + Without(t, pat)
  {
    Cons(h, t);
  }

  lemma {:induction false} WithoutConcat(a: seq<Element>, b: seq<Element>, pat: Pattern)
    ensures Without(a + b, pat) == Without(a, pat) + Without(b, pat)
  {
    if a == [] {
      NothingBefore(b);
      NothingBefore(Without(b, pat));
    } else {
      ConcatHead(a, b);
      WithoutConcat(a[1..], b, pat);
      Assoc(if Matches(a[0], pat) then [] else [a[0]], Without(a[1..], pat), Without(b, pat));
    }
  }

  lemma {:induction false} WithoutNothing(es: seq<Element>, pat: Pattern)
    requires forall i :: 0 <= i < |es| ==> !Matches(es[i], pat)
    ensures Without(es, pat) == es
  {
    if es != [] {
      WithoutNothing(es[1..], pat);
      assert [es[0]] + es[1..] == es;
    }
  }

  /** What filtering means: exactly the non-matching elements stay, each as often as before. */
  lemma {:induction false} WithoutKeeps(es: seq<Element>, pat: Pattern, e: Element)
    ensures multiset(Without(es, pat))[e] == if Matches(e, pat) then 0 else multiset(es)[e]
  {
    if es != [] {
      WithoutKeeps(es[1..], pat, e);
      assert es == [es[0]] + es[1..];
    }
  }

  lemma WithoutFirst(es: seq<Element>, pat: Pattern)
    requires First(es, pat) < |es|
    ensures var k := First(es, pat); Without(es, pat) == es[..k] + Without(es[k + 1..], pat)
  {
    var k := First(es, pat);
    WithoutNothing(es[..k], pat);
    hide Without, First;
    SplitAround(es, k);
    WithoutConcat(es[..k], [es[k]] + es[k + 1..], pat);
    WithoutCons(es[k], es[k + 1..], pat);
    NothingBefore(Without(es[k + 1..], pat));
  }
}
