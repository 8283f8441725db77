/** `rtw_bss_ex_del_p2p_attr`: deleting an attribute from every P2P element of a BSS. */
module P2pBss {
  import opened Sequences
  import opened Elements
  import opened Memory
  import opened P2pAttributes
  import opened P2p

  /** Vendor elements carry at least an OUI and type, and P2P elements have well-formed
      attributes. */
  predicate P2pOk(es: seq<Element>) {
    && Comparable(es, P2P)
    && forall i :: 0 <= i < |es| && Matches(es[i], P2P) ==> AttrsWellFormed(es[i].body[4..])
  }

  lemma {:induction false} OffsetMonotone(es: seq<Element>, i: nat, j: nat)
    requires AllFit(es) && i <= j <= |es|
    ensures Offset(es, i) <= Offset(es, j)
    decreases j
  {
    if i < j {
      OffsetMonotone(es, i, j - 1);
      OffsetNext(es, j - 1);
    }
  }

  /** Six octets are the least a P2P element takes. */
  lemma ShortTail(s: seq<byte>, k: nat)
    requires WellFormed(s) && k <= |Parse(s)| && Offset(Parse(s), k) + 5 >= |s|
    ensures forall j :: k <= j < |Parse(s)| ==> !Matches(Parse(s)[j], P2P)
  {
    forall j | k <= j < |Parse(s)|
      ensures !Matches(Parse(s)[j], P2P)
    {
      OffsetMonotone(Parse(s), k, j);
      ElementAt(s, j);
    }
  }

  lemma FirstFrom(es: seq<Element>, pat: Pattern, k: nat)
    requires k <= |es| && forall j :: 0 <= j < k ==> !Matches(es[j], pat)
    ensures k <= First(es, pat) <= |es|
  {
  }

  /** A P2P element that is found lies inside the list. */
  lemma FirstInside(s: seq<byte>)
    requires WellFormed(s) && First(Parse(s), P2P) < |Parse(s)|
    ensures Offset(Parse(s), First(Parse(s), P2P)) + 5 < |s|
  {
    ElementAt(s, First(Parse(s), P2P));
  }

  lemma NoMatchAtAll(es: seq<Element>, pat: Pattern)
    requires forall i :: 0 <= i < |es| ==> !Matches(es[i], pat)
    ensures First(es, pat) == |es|
  {
  }

  /** `rtw_get_p2p_ie`: the position and whole length of the first P2P element; the search gives
      up at the largest size a list of elements has. */
  method GetP2pIe(ies: seq<byte>) returns (p: int, len: nat)
    requires WellFormed(ies) && Comparable(Parse(ies), P2P)
    ensures var es := Parse(ies);
            var k := First(es, P2P);
            if k < |es| && Offset(es, k) + 5 < 768
            then p == Offset(es, k) && len == |es[k].body| + 2 else p == -1 && len == 0
  {
    hide Matches, Comparable;
    ghost var es, k := Parse(ies), 0;
    p, len := -1, 0;
    var cnt := 0;
    SuffixEnd(ies, 0);
    while cnt + 1 + 4 < |ies|
      invariant k <= |es| && cnt == Offset(es, k)
      invariant k == |es| <==> cnt >= |ies|
      invariant forall j :: 0 <= j < k ==> !Matches(es[j], P2P)
      decreases |ies| - cnt
    {
      if cnt + 1 + 4 >= MAX_IE_SZ {
        FirstFrom(es, P2P, k);
        OffsetMonotone(es, k, First(es, P2P));
        return;
      }
      ElementAt(ies, k);
      MatchAt(ies, k, P2P);
      if ies[cnt] == VENDOR_SPECIFIC && ies[cnt + 2..cnt + 6] == P2P_OUI {
        FirstUnique(es, P2P, k);
        p, len := cnt, ies[cnt + 1] as int + 2;
        return;
      }
      cnt := cnt + (ies[cnt + 1] as int + 2);
      k := k + 1;
      SuffixEnd(ies, k);
    }
    ShortTail(ies, k);
    NoMatchAtAll(es, P2P);
  }

  // ----- what deleting means for the element list -----

  /** An element without the attributes with identifier `id`, if it is a P2P element. */
  function DelFrom(e: Element, id: byte): (r: Element)
    requires Matches(e, P2P) ==> AttrsWellFormed(e.body[4..])
  {
    if Matches(e, P2P)
    then Element(e.id, P2P_OUI + PrintAttrs(WithoutAttr(ParseAttrs(e.body[4..]), id)))
    else e
  }

  function DelFromAll(es: seq<Element>, id: byte): (r: seq<Element>)
    requires P2pOk(es)
  {
    if es == [] then [] else [DelFrom(es[0], id)] + DelFromAll(es[1..], id)
  }

  lemma {:induction false} DelFromAllAt(es: seq<Element>, id: byte, i: nat)
    requires P2pOk(es) && i < |es|
    ensures |DelFromAll(es, id)| == |es| && DelFromAll(es, id)[i] == DelFrom(es[i], id)
  {
    if i > 0 {
      DelFromAllAt(es[1..], id, i - 1);
    } else if |es| > 1 {
      DelFromAllAt(es[1..], id, 0);
    }
  }

  lemma P2pOkParts(a: seq<Element>, b: seq<Element>)
    requires P2pOk(a + b)
    ensures P2pOk(a) && P2pOk(b)
  {
    assert forall i :: 0 <= i < |a| ==> a[i] == (a + b)[i];
    assert forall i :: 0 <= i < |b| ==> b[i] == (a + b)[|a| + i];
  }

  lemma DelFromAllCons(h: Element, t: seq<Element>, id: byte)
    requires P2pOk([h] + t)
    ensures (Matches(h, P2P) ==> AttrsWellFormed(h.body[4..])) && P2pOk(t)
    ensures DelFromAll([h] + t, id) == [DelFrom(h, id)] + DelFromAll(t, id)
  {
    Cons(h, t);
    P2pOkParts([h], t);
  }

  lemma {:induction false} DelFromAllConcat(a: seq<Element>, b: seq<Element>, id: byte)
    requires P2pOk(a + b)
    ensures P2pOk(a) && P2pOk(b) && DelFromAll(a + b, id) == DelFromAll(a, id) + DelFromAll(b, id)
  {
    P2pOkParts(a, b);
    if a == [] {
      NothingBefore(b);
      NothingBefore(DelFromAll(b, id));
    } else {
      ConcatHead(a, b);
      DelFromAllConcat(a[1..], b, id);
      Assoc([DelFrom(a[0], id)], DelFromAll(a[1..], id), DelFromAll(b, id));
    }
  }

  lemma {:induction false} DelFromOthers(es: seq<Element>, id: byte)
    requires P2pOk(es) && forall i :: 0 <= i < |es| ==> !Matches(es[i], P2P)
    ensures DelFromAll(es, id) == es
  {
    if es != [] {
      DelFromOthers(es[1..], id);
      assert [es[0]] + es[1..] == es;
    }
  }

  /** Deleting again finds nothing. */
  lemma DelFromIdempotent(e: Element, id: byte)
    requires Matches(e, P2P) && AttrsWellFormed(e.body[4..])
    ensures var r := DelFrom(e, id);
            && Matches(r, P2P) && AttrsWellFormed(r.body[4..])
            && ParseAttrs(r.body[4..]) == WithoutAttr(ParseAttrs(e.body[4..]), id)
            && DelFrom(r, id) == r
  {
    var kept := WithoutAttr(ParseAttrs(e.body[4..]), id);
    var r := DelFrom(e, id);
    assert r.body[4..] == PrintAttrs(kept);
    ParsePrintAttrs(kept);
    WithoutAttrTwice(ParseAttrs(e.body[4..]), id);
  }

  lemma {:induction false} WithoutAttrTwice(attrs: seq<Attr>, id: byte)
    ensures WithoutAttr(WithoutAttr(attrs, id), id) == WithoutAttr(attrs, id)
  {
    if attrs != [] {
      WithoutAttrTwice(attrs[1..], id);
      WithoutAttrCons(attrs[0], WithoutAttr(attrs[1..], id), id);
      assert [] + WithoutAttr(attrs[1..], id) == WithoutAttr(attrs[1..], id);
    }
  }

  /** A P2P element is printed as its attribute area with the P2P header. */
  lemma PrintP2p(e: Element)
    requires Matches(e, P2P) && Fits(e)
    ensures Print(e) == Whole(e.body[4..]) && |Print(e)| <= 257
  {
    assert e.body == P2P_OUI + e.body[4..];
  }

  // ----- the whole BSS -----

  /** Closing a gap of zeros moves the zeros behind what follows. */
  lemma ZerosMoveBack(p: seq<byte>, d: nat, b: seq<byte>, t: seq<byte>)
    ensures Filled(Moved(p + Zeros(d) + b + t, |p|, |p| + d, |b|), |p| + |b|, 0, d) == p + b + (Zeros(d) + t)
  {
    hide Moved, Filled, Zeros;
    GapToZeros(p, Zeros(d), b, t);
    Assoc(p + b, Zeros(d), t);
  }

  /** Closing the gap after a shortened element. */
  method CloseGap(ies: array<byte>, at: nat, d: nat, remainLen: nat)
    requires at + d + remainLen <= ies.Length
    modifies ies
    ensures ies[..] == Filled(Moved(old(ies[..]), at, at + d, remainLen), at + remainLen, 0, d)
  {
    hide Moved, Filled;
    MemMove(ies, at, at + d, remainLen);
    MemSet(ies, at + remainLen, 0, d);
  }

  /** Where the loop stands: `done` is edited, `rest` is not, `z` octets are free again. */
  ghost predicate Editing(buf: seq<byte>, pre: seq<byte>, done: seq<Element>, rest: seq<Element>,
                          z: nat, post: seq<byte>, id: byte, want: seq<Element>)
  {
    && AllFit(done) && AllFit(rest) && P2pOk(rest)
    && buf == pre + PrintAll(done) + PrintAll(rest) + (Zeros(z) + post)
    && want == done + DelFromAll(rest, id)
  }

  /** The octets from `start` to `end` are the elements still to be searched. */
  lemma EditingRest(buf: seq<byte>, pre: seq<byte>, done: seq<Element>, rest: seq<Element>,
                    z: nat, post: seq<byte>, id: byte, want: seq<Element>)
    requires Editing(buf, pre, done, rest, z, post, id, want)
    ensures var start := |pre| + |PrintAll(done)|;
            var end := start + |PrintAll(rest)|;
            && end <= |buf| && buf[start..end] == PrintAll(rest)
            && WellFormed(buf[start..end]) && Parse(buf[start..end]) == rest
  {
    ParsePrint(rest);
  }

  /** The first P2P element among the rest, and the octets before and after it. */
  lemma EditingTarget(buf: seq<byte>, pre: seq<byte>, done: seq<Element>, rest: seq<Element>,
                      z: nat, post: seq<byte>, id: byte, want: seq<Element>)
    requires Editing(buf, pre, done, rest, z, post, id, want) && First(rest, P2P) < |rest|
    ensures var k := First(rest, P2P);
            var at := |pre| + |PrintAll(done)| + Offset(rest, k);
            var len := |rest[k].body| + 2;
            && at + len + |PrintAll(rest[k + 1..])| <= |buf|
            && buf[at..at + len] == Print(rest[k])
            && buf[..at] == pre + PrintAll(done + rest[..k])
            && buf[at + len..] == PrintAll(rest[k + 1..]) + (Zeros(z) + post)
            && |PrintAll(rest)| == Offset(rest, k) + len + |PrintAll(rest[k + 1..])|
  {
    hide WellFormed, First, P2pOk, DelFromAll, PrintAll, Zeros;
    var k := First(rest, P2P);
    PrintAround(rest, k);
    PrintConcat(done, rest[..k]);
    var a, e, b := PrintAll(rest[..k]), Print(rest[k]), PrintAll(rest[k + 1..]);
    Regroup(pre, PrintAll(done), a, e, b, Zeros(z) + post);
    MiddleSlice(pre + PrintAll(done + rest[..k]), e, b + (Zeros(z) + post));
  }

  /** Editing the first P2P element and closing the gap: the loop moves past it. */
  lemma EditingRound(buf: seq<byte>, pre: seq<byte>, done: seq<Element>, rest: seq<Element>,
                     z: nat, post: seq<byte>, id: byte, want: seq<Element>, d: nat)
    requires Editing(buf, pre, done, rest, z, post, id, want) && First(rest, P2P) < |rest|
    requires AttrsWellFormed(rest[First(rest, P2P)].body[4..]) && Fits(DelFrom(rest[First(rest, P2P)], id))
    ensures var k := First(rest, P2P);
            var e', b := DelFrom(rest[k], id), rest[k + 1..];
            && AllFit(done + rest[..k] + [e'])
            && Editing(pre + PrintAll(done + rest[..k]) + Print(e') + PrintAll(b) + (Zeros(d) + (Zeros(z) + post)),
                       pre, done + rest[..k] + [e'], b, z + d, post, id, want)
            && |PrintAll(done + rest[..k] + [e'])| == |PrintAll(done)| + Offset(rest, k) + |Print(e')|
  {
    hide First, P2pOk, DelFromAll, PrintAll, Zeros, Matches, DelFrom, Print;
    var k := First(rest, P2P);
    var e', b := DelFrom(rest[k], id), rest[k + 1..];
    RoundMeaning(rest, id);
    PrintConcat(done, rest[..k]);
    PrintOne(e');
    PrintConcat(done + rest[..k], [e']);
    MoreZeros(d, z, post);
    assert pre + PrintAll(done + rest[..k]) + Print(e') == pre + (PrintAll(done + rest[..k]) + Print(e'));
    assert done + (rest[..k] + [e'] + DelFromAll(b, id)) == (done + rest[..k] + [e']) + DelFromAll(b, id);
  }

  lemma RoundMeaning(rest: seq<Element>, id: byte)
    requires AllFit(rest) && P2pOk(rest) && First(rest, P2P) < |rest|
    ensures var k := First(rest, P2P);
            && P2pOk(rest[k + 1..]) && AllFit(rest[..k]) && AllFit(rest[k + 1..])
            && Matches(rest[k], P2P) && AttrsWellFormed(rest[k].body[4..])
            && DelFromAll(rest, id) == rest[..k] + [DelFrom(rest[k], id)] + DelFromAll(rest[k + 1..], id)
  {
    FirstNoneBefore(rest, P2P);
    DelAround(rest, First(rest, P2P), id);
  }

  lemma DelAround(es: seq<Element>, k: nat, id: byte)
    requires P2pOk(es) && k < |es| && Matches(es[k], P2P)
    requires forall i :: 0 <= i < |es[..k]| ==> !Matches(es[..k][i], P2P)
    ensures P2pOk(es[k + 1..]) && AttrsWellFormed(es[k].body[4..])
    ensures DelFromAll(es, id) == es[..k] + [DelFrom(es[k], id)] + DelFromAll(es[k + 1..], id)
  {
    hide P2pOk, DelFromAll, DelFrom, Matches, AttrsWellFormed;
    var a, b := es[..k], es[k + 1..];
    SplitAround(es, k);
    DelFromAllConcat(a, [es[k]] + b, id);
    DelFromAllCons(es[k], b, id);
    DelFromOthers(a, id);
    Assoc(a, [DelFrom(es[k], id)], DelFromAll(b, id));
  }

  lemma FirstNoneBefore(es: seq<Element>, pat: Pattern)
    requires First(es, pat) < |es|
    ensures Matches(es[First(es, pat)], pat)
    ensures forall i :: 0 <= i < |es[..First(es, pat)]| ==> !Matches(es[..First(es, pat)][i], pat)
  {
  }

  /** Editing one element: the shortened element prints as `DelFrom` says. */
  method EditElement(ies: array<byte>, at: nat, ghost e: Element, len: nat, id: byte) returns (cur: nat)
    requires at + len <= ies.Length && Fits(e) && len == |e.body| + 2 && ies[at..at + len] == Print(e)
    requires Matches(e, P2P) && AttrsWellFormed(e.body[4..])
    modifies ies
    ensures Fits(DelFrom(e, id)) && cur == |Print(DelFrom(e, id))| <= len
    ensures ies[..] == old(ies[..at]) + Print(DelFrom(e, id)) + (Zeros(len - cur) + old(ies[at + len..]))
  {
    hide AttrsWellFormed, ParseAttrs, PrintAttrs, WithoutAttr;
    PrintP2p(e);
    cur := DelP2pAttr(ies, at, len, id);
    ghost var area := PrintAttrs(WithoutAttr(ParseAttrs(e.body[4..]), id));
    assert DelFrom(e, id).body[4..] == area;
    PrintP2p(DelFrom(e, id));
  }

  lemma GapRegroup(p: seq<byte>, d: nat, b: seq<byte>, t: seq<byte>)
    ensures p + (Zeros(d) + (b + t)) == p + Zeros(d) + b + t
    ensures d == 0 ==> p + (Zeros(d) + (b + t)) == p + b + (Zeros(d) + t)
  {
  }

  /** One round: shorten the element and close the gap before the `remainLen` octets `b`. */
  method EditRound(ies: array<byte>, at: nat, len: nat, remainLen: nat, id: byte,
                   ghost e: Element, ghost b: seq<byte>, ghost t: seq<byte>) returns (cur: nat)
    requires at + len <= ies.Length && Fits(e) && len == |e.body| + 2 && ies[at..at + len] == Print(e)
    requires Matches(e, P2P) && AttrsWellFormed(e.body[4..])
    requires ies[at + len..] == b + t && |b| == remainLen
    modifies ies
    ensures Fits(DelFrom(e, id)) && cur == |Print(DelFrom(e, id))| <= len
    ensures ies[..] == old(ies[..at]) + Print(DelFrom(e, id)) + b + (Zeros(len - cur) + t)
  {
    hide AttrsWellFormed, Matches, DelFrom, Print, Moved, Filled, Zeros;
    cur := EditElement(ies, at, e, len, id);
    ghost var p := old(ies[..at]) + Print(DelFrom(e, id));
    GapRegroup(p, len - cur, b, t);
    if cur != len {
      ZerosMoveBack(p, len - cur, b, t);
      CloseGap(ies, at + cur, len - cur, remainLen);
    }
  }

  /** The loop of `rtw_bss_ex_del_p2p_attr` with its variables: `len` octets from `start` are
      still to be searched and the list ends at `end`. */
  ghost predicate Standing(buf: seq<byte>, start: nat, len: nat, end: nat, end0: nat, pre: seq<byte>,
                           done: seq<Element>, rest: seq<Element>, post: seq<byte>, id: byte, want: seq<Element>)
  {
    && start + len == end <= end0 <= |buf|
    && AllFit(done) && AllFit(rest)
    && start == |pre| + |PrintAll(done)| && len == |PrintAll(rest)|
    && Editing(buf, pre, done, rest, end0 - end, post, id, want)
  }

  /** The search of the loop, from `start` on. */
  method FindNext(ies: array<byte>, start: nat, len: nat, ghost end: nat, ghost end0: nat,
                  ghost pre: seq<byte>, ghost done: seq<Element>, ghost rest: seq<Element>,
                  ghost post: seq<byte>, ghost id: byte, ghost want: seq<Element>)
    returns (p: int, oriLen: nat)
    requires ies.Length <= MAX_IE_SZ
    requires Standing(ies[..], start, len, end, end0, pre, done, rest, post, id, want)
    ensures First(rest, P2P) <= |rest| && (p >= 0 <==> First(rest, P2P) < |rest|)
    ensures p >= 0 ==> p == Offset(rest, First(rest, P2P)) && oriLen == |rest[First(rest, P2P)].body| + 2
  {
    hide P2pOk, DelFromAll, WellFormed, Parse, PrintAll, First, Matches, Comparable, Zeros, Editing;
    EditingRest(ies[..], pre, done, rest, end0 - end, post, id, want);
    EditingComparable(ies[..], pre, done, rest, end0 - end, post, id, want);
    FirstBound(rest, P2P);
    if First(rest, P2P) < |rest| {
      FirstInside(ies[start..start + len]);
    }
    p, oriLen := GetP2pIe(ies[start..start + len]);
  }

  /** The loop has moved past the P2P element that was edited in `cur` octets. */
  lemma StandingRound(buf: seq<byte>, buf': seq<byte>, start: nat, len: nat, end: nat, end0: nat,
                      pre: seq<byte>, done: seq<Element>, rest: seq<Element>, post: seq<byte>, id: byte,
                      want: seq<Element>, cur: nat)
    requires Standing(buf, start, len, end, end0, pre, done, rest, post, id, want) && First(rest, P2P) < |rest|
    requires var k := First(rest, P2P);
             && AttrsWellFormed(rest[k].body[4..]) && Fits(DelFrom(rest[k], id))
             && cur == |Print(DelFrom(rest[k], id))| <= |rest[k].body| + 2
             && |buf'| == |buf|
             && buf' == pre + PrintAll(done + rest[..k]) + Print(DelFrom(rest[k], id)) + PrintAll(rest[k + 1..])
                      + (Zeros(|rest[k].body| + 2 - cur) + (Zeros(end0 - end) + post))
    ensures var k := First(rest, P2P);
            var d := |rest[k].body| + 2 - cur;
            var start', len' := start + Offset(rest, k) + cur, |PrintAll(rest[k + 1..])|;
            && d <= end && len == Offset(rest, k) + |rest[k].body| + 2 + len'
            && Standing(buf', start', len', end - d, end0, pre, done + rest[..k] + [DelFrom(rest[k], id)],
                        rest[k + 1..], post, id, want)
  {
    hide P2pOk, DelFromAll, DelFrom, PrintAll, Print, First, Matches, AttrsWellFormed, Zeros, Editing;
    var d := |rest[First(rest, P2P)].body| + 2 - cur;
    EditingFits(buf, pre, done, rest, end0 - end, post, id, want);
    EditingTarget(buf, pre, done, rest, end0 - end, post, id, want);
    EditingRound(buf, pre, done, rest, end0 - end, post, id, want, d);
  }

  lemma EditingFits(buf: seq<byte>, pre: seq<byte>, done: seq<Element>, rest: seq<Element>,
                    z: nat, post: seq<byte>, id: byte, want: seq<Element>)
    requires Editing(buf, pre, done, rest, z, post, id, want) && First(rest, P2P) < |rest|
    ensures AllFit(done + rest[..First(rest, P2P)]) && AllFit(rest[First(rest, P2P) + 1..])
  {
  }

  /** The edit of the P2P element that was found. */
  method EditFound(ies: array<byte>, start: nat, ghost len: nat, end: nat, id: byte, p: nat, oriLen: nat,
                   ghost end0: nat, ghost pre: seq<byte>, ghost done: seq<Element>, ghost rest: seq<Element>,
                   ghost post: seq<byte>, ghost want: seq<Element>)
    returns (start': nat, len': nat, end': nat)
    requires Standing(ies[..], start, len, end, end0, pre, done, rest, post, id, want)
    requires First(rest, P2P) < |rest|
    requires p == Offset(rest, First(rest, P2P)) && oriLen == |rest[First(rest, P2P)].body| + 2
    modifies ies
    ensures var k := First(rest, P2P);
            && (Matches(rest[k], P2P) ==> AttrsWellFormed(rest[k].body[4..]))
            && Standing(ies[..], start', len', end', end0, pre,
                        done + rest[..k] + [DelFrom(rest[k], id)], rest[k + 1..], post, id, want)
  {
    hide P2pOk, DelFromAll, DelFrom, PrintAll, Print, First, Matches, AttrsWellFormed, Zeros, Editing;
    ghost var buf, z, k := ies[..], end0 - end, First(rest, P2P);
    EditingComparable(buf, pre, done, rest, z, post, id, want);
    EditingFits(buf, pre, done, rest, z, post, id, want);
    EditingTarget(buf, pre, done, rest, z, post, id, want);
    RoundMeaning(rest, id);
    var at := start + p;
    var remainLen := end - (at + oriLen);
    var cur := EditRound(ies, at, oriLen, remainLen, id, rest[k], PrintAll(rest[k + 1..]), Zeros(z) + post);
    StandingRound(buf, ies[..], start, len, end, end0, pre, done, rest, post, id, want, cur);
    start', len', end' := at + cur, remainLen, end;
    if cur != oriLen {
      end' := end - (oriLen - cur);
    }
  }

  /** One round of the loop; `found` is whether there was another P2P element. */
  method EditNext(ies: array<byte>, start: nat, len: nat, end: nat, id: byte, ghost end0: nat,
                  ghost pre: seq<byte>, ghost done: seq<Element>, ghost rest: seq<Element>,
                  ghost post: seq<byte>, ghost want: seq<Element>)
    returns (found: bool, start': nat, len': nat, end': nat)
    requires ies.Length <= MAX_IE_SZ
    requires Standing(ies[..], start, len, end, end0, pre, done, rest, post, id, want)
    modifies ies
    ensures First(rest, P2P) <= |rest| && (found <==> First(rest, P2P) < |rest|)
    ensures !found ==> ies[..] == old(ies[..]) && start' == start && len' == len && end' == end
    ensures found ==>
              var k := First(rest, P2P);
              && (Matches(rest[k], P2P) ==> AttrsWellFormed(rest[k].body[4..]))
              && Standing(ies[..], start', len', end', end0, pre,
                          done + rest[..k] + [DelFrom(rest[k], id)], rest[k + 1..], post, id, want)
  {
    hide Standing, DelFrom, First, Matches, AttrsWellFormed;
    var p, oriLen := FindNext(ies, start, len, end, end0, pre, done, rest, post, id, want);
    found, start', len', end' := p >= 0, start, len, end;
    if found {
      start', len', end' := EditFound(ies, start, len, end, id, p, oriLen, end0, pre, done, rest, post, want);
    }
  }

  /** Delete every attribute with identifier `id` from the P2P elements after the `fixed`
      octets; the result is the new `IELength`. */
  method DelP2pAttrFromBss(ies: array<byte>, ieLength: nat, fixed: nat, id: byte) returns (newLength: nat)
    requires fixed <= ieLength <= ies.Length <= 768
    requires WellFormed(ies[fixed..ieLength]) && P2pOk(Parse(ies[fixed..ieLength]))
    modifies ies
    ensures var want := DelFromAll(Parse(old(ies[fixed..ieLength])), id);
            && AllFit(want) && newLength == fixed + |PrintAll(want)| <= ieLength
            && ies[..] == old(ies[..fixed]) + PrintAll(want) + Zeros(ieLength - newLength) + old(ies[ieLength..])
  {
    hide P2pOk, DelFromAll, DelFrom, WellFormed, Parse, PrintAll, First, Matches, AttrsWellFormed;
    hide Zeros, Editing;
    newLength := ieLength;
    ghost var pre, post := ies[..fixed], ies[ieLength..];
    ghost var done: seq<Element>, rest := [], Parse(ies[fixed..ieLength]);
    ghost var want := DelFromAll(rest, id);
    EditingStart(ies[..], fixed, ieLength, id);
    var start: nat, len: nat, found := fixed, ieLength - fixed, true;
    while found
      invariant Standing(ies[..], start, len, newLength, ieLength, pre, done, rest, post, id, want)
      invariant !found ==> First(rest, P2P) == |rest|
      decreases found, |rest|
    {
      found, start, len, newLength := EditNext(ies, start, len, newLength, id, ieLength, pre, done, rest, post, want);
      if found {
        ghost var k := First(rest, P2P);
        done, rest := done + rest[..k] + [DelFrom(rest[k], id)], rest[k + 1..];
      }
    }
    EditingEnd(ies[..], pre, done, rest, ieLength - newLength, post, id, want);
  }

  lemma FirstNone(es: seq<Element>, pat: Pattern)
    requires First(es, pat) == |es|
    ensures forall i :: 0 <= i < |es| ==> !Matches(es[i], pat)
  {
  }

  lemma EditingStart(buf: seq<byte>, fixed: nat, end: nat, id: byte)
    requires fixed <= end <= |buf| && WellFormed(buf[fixed..end]) && P2pOk(Parse(buf[fixed..end]))
    ensures var rest := Parse(buf[fixed..end]);
            Editing(buf, buf[..fixed], [], rest, 0, buf[end..], id, DelFromAll(rest, id))
            && PrintAll([]) == [] && PrintAll(rest) == buf[fixed..end]
  {
    var rest := Parse(buf[fixed..end]);
    PrintParse(buf[fixed..end]);
    NoZeros(buf[end..]);
    assert buf == buf[..fixed] + buf[fixed..end] + buf[end..];
    assert buf[..fixed] + PrintAll([]) == buf[..fixed];
    assert [] + DelFromAll(rest, id) == DelFromAll(rest, id);
  }

  lemma EditingComparable(buf: seq<byte>, pre: seq<byte>, done: seq<Element>, rest: seq<Element>,
                          z: nat, post: seq<byte>, id: byte, want: seq<Element>)
    requires Editing(buf, pre, done, rest, z, post, id, want)
    ensures Comparable(rest, P2P) && P2pOk(rest)
  {
  }

  lemma EditingEnd(buf: seq<byte>, pre: seq<byte>, done: seq<Element>, rest: seq<Element>,
                   z: nat, post: seq<byte>, id: byte, want: seq<Element>)
    requires Editing(buf, pre, done, rest, z, post, id, want) && First(rest, P2P) == |rest|
    ensures AllFit(want) && buf == pre + PrintAll(want) + Zeros(z) + post
    ensures |PrintAll(want)| == |PrintAll(done)| + |PrintAll(rest)|
  {
    hide P2pOk, DelFromAll, PrintAll, Zeros, First, Matches;
    FirstNone(rest, P2P);
    DelFromOthers(rest, id);
    PrintConcat(done, rest);
    Assoc(pre, PrintAll(done), PrintAll(rest));
    Assoc(pre + PrintAll(want), Zeros(z), post);
  }
}
