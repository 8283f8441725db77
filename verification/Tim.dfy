/** The traffic indication map: building the element (`rtw_set_tim_ie`) and replacing it in
    the beacon (`update_BCNTIM`). */
module Tim {
  import opened Sequences
  import opened Elements
  import opened Memory

  const TIM_ID: byte := 5

  /** The index of the first nonzero octet, or the length. */
  function FirstNonzero(bmp: seq<byte>): (i: nat)
    ensures i <= |bmp| && (forall j :: 0 <= j < i ==> bmp[j] == 0) && (i < |bmp| ==> bmp[i] != 0)
  {
    if bmp == [] || bmp[0] != 0 then 0 else 1 + FirstNonzero(bmp[1..])
  }

  /** The index of the last nonzero octet other than octet 0, or 0. */
  function LastNonzero(bmp: seq<byte>): (i: nat)
    requires bmp != []
    ensures i < |bmp| && (forall j :: i < j < |bmp| ==> bmp[j] == 0) && (i > 0 ==> bmp[i] != 0)
  {
    if |bmp| == 1 || bmp[|bmp| - 1] != 0 then |bmp| - 1 else LastNonzero(bmp[..|bmp| - 1])
  }

  predicate Empty(bmp: seq<byte>) {
    FirstNonzero(bmp) == |bmp|
  }

  /** The first octet that is sent, always even. */
  function N1(bmp: seq<byte>): (n: nat)
    ensures n % 2 == 0
  {
    if Empty(bmp) then 0 else FirstNonzero(bmp) / 2 * 2
  }

  /** How many octets of the bitmap are sent. */
  function SentLen(bmp: seq<byte>): (n: nat)
    requires bmp != []
    ensures n >= 1 && N1(bmp) + n <= |bmp|
    ensures forall j :: 0 <= j < N1(bmp) ==> bmp[j] == 0
    ensures forall j :: N1(bmp) + n <= j < |bmp| ==> bmp[j] == 0
  {
    if Empty(bmp) then 1
    else
      var f, l := FirstNonzero(bmp), LastNonzero(bmp);
      assert bmp[f] != 0 && f <= l;
      l - N1(bmp) + 1
  }

  /** The body of the element: DTIM count and period, bitmap control, partial bitmap. */
  function TimBody(cnt: byte, period: byte, bmp: seq<byte>): (s: seq<byte>)
    requires 1 <= |bmp| <= 256
    ensures |s| == 3 + SentLen(bmp)
  {
    [cnt, period, N1(bmp) + bmp[0] % 2] + bmp[N1(bmp)..N1(bmp) + SentLen(bmp)]
  }

  // ----- what a receiver makes of it -----

  /** Octet `i` of the traffic indication virtual bitmap, per section 9.4.2.6 of IEEE Std
      802.11-2016: the bitmap offset is the upper part of the bitmap control octet. */
  function VirtualOctet(body: seq<byte>, i: nat): (b: byte)
    requires |body| >= 4
  {
    var n1 := body[2] - body[2] % 2;
    if n1 <= i < n1 + (|body| - 3) then body[3 + (i - n1)] else 0
  }

  predicate GroupTraffic(body: seq<byte>)
    requires |body| >= 4
  {
    body[2] % 2 == 1
  }

  /** The receiver recovers the whole bitmap, nothing beyond it, and the bit of AID 0. */
  lemma ReceiverRecovers(cnt: byte, period: byte, bmp: seq<byte>, i: nat)
    requires 1 <= |bmp| <= 256
    ensures VirtualOctet(TimBody(cnt, period, bmp), i) == if i < |bmp| then bmp[i] else 0
    ensures GroupTraffic(TimBody(cnt, period, bmp)) <==> bmp[0] % 2 == 1
  {
    var body, n1, n := TimBody(cnt, period, bmp), N1(bmp), SentLen(bmp);
    assert body[2] == n1 + bmp[0] % 2;
    if n1 <= i < n1 + n {
      assert body[3 + (i - n1)] == bmp[n1..n1 + n][i - n1] == bmp[i];
    }
  }

  /** No later even octet could have been the first one, and no earlier octet the last. */
  lemma SentIsMinimal(bmp: seq<byte>)
    requires bmp != [] && !Empty(bmp)
    ensures bmp[N1(bmp)] != 0 || (N1(bmp) + 1 < |bmp| && bmp[N1(bmp) + 1] != 0)
    ensures N1(bmp) + SentLen(bmp) > 1 ==> bmp[N1(bmp) + SentLen(bmp) - 1] != 0
  {
    var f := FirstNonzero(bmp);
    assert f == N1(bmp) || f == N1(bmp) + 1;
  }

  // ----- building the element in place -----

  /** The element, for a partial bitmap that leaves room in the length octet. */
  function TimElement(cnt: byte, period: byte, bmp: seq<byte>): (e: Element)
    requires 1 <= |bmp| <= 255 && SentLen(bmp) <= 252
    ensures Fits(e)
  {
    Element(TIM_ID, TimBody(cnt, period, bmp))
  }

  /** The octets that are written; the length octet wraps. */
  function TimOctets(cnt: byte, period: byte, bmp: seq<byte>): (s: seq<byte>)
    requires 1 <= |bmp| <= 255
    ensures |s| == 5 + SentLen(bmp)
  {
    [TIM_ID, (3 + SentLen(bmp)) % 256] + TimBody(cnt, period, bmp)
  }

  /** The length that is returned, an octet too. */
  function TimLen(bmp: seq<byte>): (n: byte)
    requires bmp != []
  {
    (5 + SentLen(bmp)) % 256
  }

  /** What is written is the element if and only if at most 252 octets of the bitmap are sent, and
      the length returned is the right one if and only if at most 250 are. */
  lemma TimWraps(cnt: byte, period: byte, bmp: seq<byte>)
    requires 1 <= |bmp| <= 255
    ensures var s := TimOctets(cnt, period, bmp);
            && (SentLen(bmp) <= 252 ==> s == Print(TimElement(cnt, period, bmp)))
            && (SentLen(bmp) <= 252 <==> exists e :: Fits(e) && s == Print(e))
            && (SentLen(bmp) <= 250 <==> TimLen(bmp) == |s|)
  {
    var s := TimOctets(cnt, period, bmp);
    forall e | Fits(e) && s == Print(e)
      ensures SentLen(bmp) <= 252
    {
      assert s[1] == |e.body|;
    }
  }

  /** `rtw_bmp_not_empty` */
  method BmpNotEmpty(bmp: seq<byte>) returns (r: bool)
    ensures r <==> !Empty(bmp)
  {
    for i := 0 to |bmp|
      invariant forall j :: 0 <= j < i ==> bmp[j] == 0
    {
      if bmp[i] != 0 {
        return true;
      }
    }
    return false;
  }

  lemma FirstNonzeroUnique(bmp: seq<byte>, i: nat)
    requires i < |bmp| && bmp[i] != 0 && forall j :: 0 <= j < i ==> bmp[j] == 0
    ensures FirstNonzero(bmp) == i
  {
  }

  lemma LastNonzeroUnique(bmp: seq<byte>, i: nat)
    requires i < |bmp| && (i > 0 ==> bmp[i] != 0) && forall j :: i < j < |bmp| ==> bmp[j] == 0
    ensures LastNonzero(bmp) == i
  {
  }

  /** The two scans of `rtw_set_tim_ie`. */
  method SentRange(bmp: seq<byte>) returns (n1: nat, len: nat)
    requires bmp != []
    ensures n1 == N1(bmp) && len == SentLen(bmp)
  {
    n1, len := 0, 1;
    var notEmpty := BmpNotEmpty(bmp);
    if notEmpty {
      var i := 0;
      while i < |bmp| && bmp[i] == 0
        invariant i <= |bmp| && forall j :: 0 <= j < i ==> bmp[j] == 0
      {
        i := i + 1;
      }
      FirstNonzeroUnique(bmp, i);
      n1 := i / 2 * 2;
      i := |bmp| - 1;
      while i > 0 && bmp[i] == 0
        invariant 0 <= i < |bmp| && forall j :: i < j < |bmp| ==> bmp[j] == 0
      {
        i := i - 1;
      }
      LastNonzeroUnique(bmp, i);
      len := i - n1 + 1;
    }
  }

  /** `rtw_set_tim_ie`: write the octets of the element at `at` and return their number. */
  method SetTimIe(cnt: byte, period: byte, bmp: seq<byte>, buf: array<byte>, at: nat) returns (n: byte)
    requires 1 <= |bmp| <= 255 && at + 5 + SentLen(bmp) <= buf.Length
    modifies buf
    ensures buf[..] == Copied(old(buf[..]), at, TimOctets(cnt, period, bmp))
    ensures n == TimLen(bmp)
  {
    hide N1, SentLen, Copied;
    var n1, len := SentRange(bmp);
    var ctrl := n1 + bmp[0] % 2;
    ghost var before := buf[..];
    WriteHeader(buf, at, (2 + 1 + len) % 256, cnt, period, ctrl);
    ghost var mid := buf[..];
    MemCpy(buf, at + 5, bmp[n1..n1 + len]);
    HeaderThenMap(before, mid, at, [TIM_ID, (2 + 1 + len) % 256, cnt, period, ctrl], bmp[n1..n1 + len]);
    TimOctetsAre(cnt, period, bmp);
    n := (2 + 2 + 1 + len) % 256;
  }

  method WriteHeader(buf: array<byte>, at: nat, len: byte, cnt: byte, period: byte, ctrl: byte)
    requires at + 5 <= buf.Length
    modifies buf
    ensures buf[..] == Copied(old(buf[..]), at, [TIM_ID, len, cnt, period, ctrl])
  {
    buf[at] := TIM_ID;
    buf[at + 1] := len;
    buf[at + 2] := cnt;
    buf[at + 3] := period;
    buf[at + 4] := ctrl;
  }

  lemma TimOctetsAre(cnt: byte, period: byte, bmp: seq<byte>)
    requires 1 <= |bmp| <= 255
    ensures TimOctets(cnt, period, bmp) ==
            [5, (3 + SentLen(bmp)) % 256, cnt, period, N1(bmp) + bmp[0] % 2]
            + bmp[N1(bmp)..N1(bmp) + SentLen(bmp)]
  {
    hide N1, SentLen;
  }

  lemma HeaderThenMap(s: seq<byte>, mid: seq<byte>, at: nat, h: seq<byte>, m: seq<byte>)
    requires at + |h| + |m| <= |s| && mid == Copied(s, at, h)
    ensures Copied(mid, at + |h|, m) == Copied(s, at, h + m)
  {
  }

  // ----- replacing it in the beacon -----

  const FIXED_IE_LENGTH: nat := 12
  const SSID: byte := 0
  const SUPPORTED_RATES: byte := 1

  /** The octets `dst..rest` of a buffer that ends at `end` replaced by `tim`. */
  function Spliced(buf: seq<byte>, dst: nat, rest: nat, end: nat, tim: seq<byte>): (r: seq<byte>)
    requires dst <= rest <= end <= |buf|
    ensures |r| == end - (rest - dst) + |tim|
  {
    buf[..dst] + tim + buf[rest..end]
  }

  /** The length of an element, header included, if there is one. */
  function LenOf(es: seq<Element>, id: byte): (n: nat) {
    var k := First(es, Pattern(id, []));
    if k < |es| then |es[k].body| + 2 else 0
  }

  /** The index of the TIM element that is replaced, or the length. An empty one does not
      count. */
  function TimAt(es: seq<Element>): (k: nat)
    ensures k <= |es|
  {
    var k := First(es, Pattern(TIM_ID, []));
    if k < |es| && es[k].body != [] then k else |es|
  }

  /** Where a TIM goes when there is none: behind the SSID, the supported rates and the three
      octets of a DS Parameter Set, wherever these are. */
  function InsertAt(es: seq<Element>): (n: nat) {
    LenOf(es, SSID) + LenOf(es, SUPPORTED_RATES) + 3
  }

  /** The elements that decide the place, by their identifiers: the first TIM unless it is empty, else
      the first SSID and the first rates, either of which may be missing. */
  lemma Places(es: seq<Element>, t: nat, i: nat, j: nat)
    requires t <= |es| && (forall k :: 0 <= k < t ==> es[k].id != 5) && (t < |es| ==> es[t].id == 5)
    requires i <= |es| && (forall k :: 0 <= k < i ==> es[k].id != 0) && (i < |es| ==> es[i].id == 0)
    requires j <= |es| && (forall k :: 0 <= k < j ==> es[k].id != 1) && (j < |es| ==> es[j].id == 1)
    ensures TimAt(es) == if t < |es| && es[t].body != [] then t else |es|
    ensures InsertAt(es) == 3 + (if i < |es| then |es[i].body| + 2 else 0) + (if j < |es| then |es[j].body| + 2 else 0)
  {
    FirstUnique(es, Pattern(TIM_ID, []), t);
    FirstUnique(es, Pattern(SSID, []), i);
    FirstUnique(es, Pattern(SUPPORTED_RATES, []), j);
  }

  /** From where to where the element list is replaced. */
  function Hole(es: seq<Element>): (r: (nat, nat))
    requires AllFit(es)
    ensures r.0 <= r.1
  {
    var k := TimAt(es);
    if k < |es| then OffsetNext(es, k); (Offset(es, k), Offset(es, k + 1)) else (InsertAt(es), InsertAt(es))
  }

  /** The first half of `update_BCNTIM`: where the new element goes and where the remainder
      begins, from the end of the fixed fields. */
  method FindHole(s: seq<byte>) returns (dst: nat, rest: nat)
    requires WellFormed(s)
    ensures (dst, rest) == Hole(Parse(s))
  {
    hide WellFormed, Parse, First, PrintAll;
    FindFacts(s, TIM_ID);
    FindFacts(s, SSID);
    FindFacts(s, SUPPORTED_RATES);
    var p, n := GetIe(s, TIM_ID);
    if p >= 0 && n > 0 {
      dst, rest := p, p + (n + 2);
    } else {
      var offset := 0;
      p, n := GetIe(s, SSID);
      if p >= 0 {
        offset := offset + n + 2;
      }
      p, n := GetIe(s, SUPPORTED_RATES);
      if p >= 0 {
        offset := offset + n + 2;
      }
      offset := offset + 3;
      dst, rest := offset, offset;
    }
  }

  /** The buffer after `update_BCNTIM`: the octets are written at `dst`, and the remainder behind
      the length that is returned for them if it is not empty and could be kept. */
  function Updated(buf: seq<byte>, dst: nat, rest: nat, end: nat, tim: seq<byte>, n: nat, kept: bool): (r: seq<byte>)
    requires dst + |tim| <= |buf| && end <= |buf|
    requires rest < end ==> dst + n + (end - rest) <= |buf|
    ensures |r| == |buf|
  {
    var b := Copied(buf, dst, tim);
    if rest < end && kept then Copied(b, dst + n, buf[rest..end]) else b
  }

  /** `update_BCNTIM`: `allocOk` is whether the copy of the remainder could be allocated. If there is
      no TIM and the list ends before its place, the length of the remainder wraps to nearly 2^32
      and the allocation of as many octets fails. */
  method UpdateBcnTim(ies: array<byte>, ieLength: nat, bmp: seq<byte>, allocOk: bool) returns (newLength: nat)
    requires 1 <= |bmp| <= 255
    requires 12 <= ieLength <= ies.Length && WellFormed(ies[12..ieLength])
    requires var (dst, rest) := Hole(Parse(ies[12..ieLength]));
             && 12 + dst + 5 + SentLen(bmp) <= ies.Length
             && ieLength - (rest - dst) + TimLen(bmp) <= ies.Length
             && (12 + rest > ieLength ==> !allocOk)
    modifies ies
    ensures var (dst, rest) := Hole(Parse(old(ies[12..ieLength])));
            var tim, tlvs := TimOctets(0, 1, bmp), old(ies[12..ieLength]);
            && newLength == ieLength - (rest - dst) + TimLen(bmp)
            && ies[..] == Updated(old(ies[..]), 12 + dst, 12 + rest, ieLength, tim, TimLen(bmp), allocOk)
            && (rest <= |tlvs| && (allocOk || rest == |tlvs|) && SentLen(bmp) <= 250 ==>
                  newLength <= ies.Length &&
                  ies[..newLength] == old(ies[..12]) + Spliced(tlvs, dst, rest, |tlvs|, tim))
  {
    hide WellFormed, Parse, Hole, TimOctets, SentLen, Spliced, Copied;
    ghost var buf := ies[..];
    TimLength(bmp);
    var dst, rest := FindHole(ies[FIXED_IE_LENGTH..ieLength]);
    HoleInside(ies[FIXED_IE_LENGTH..ieLength]);
    RightUpdate(buf, dst, rest, ieLength, bmp, allocOk);
    dst, rest := FIXED_IE_LENGTH + dst, FIXED_IE_LENGTH + rest;
    var backup := if rest < ieLength then ies[rest..ieLength] else [];
    var len := SetTimIe(0, 1, bmp, ies, dst);
    if |backup| > 0 && allocOk {
      MemCpy(ies, dst + len, backup);
    }
    newLength := dst + len + ieLength - rest;
  }

  /** With a bitmap that does not wrap the length and a place inside the list, the octets are spliced
      in. */
  lemma RightUpdate(buf: seq<byte>, dst: nat, rest: nat, end: nat, bmp: seq<byte>, kept: bool)
    requires 1 <= |bmp| <= 255 && dst <= rest && FIXED_IE_LENGTH <= end <= |buf|
    requires FIXED_IE_LENGTH + dst + 5 + SentLen(bmp) <= |buf| && end - (rest - dst) + TimLen(bmp) <= |buf|
    ensures var d, r, tim := FIXED_IE_LENGTH + dst, FIXED_IE_LENGTH + rest, TimOctets(0, 1, bmp);
            var n := end - (rest - dst) + TimLen(bmp);
            SentLen(bmp) <= 250 && r <= end && (kept || r == end) ==>
              0 <= n && Updated(buf, d, r, end, tim, TimLen(bmp), kept)[..n] ==
                buf[..FIXED_IE_LENGTH] + Spliced(buf[FIXED_IE_LENGTH..end], dst, rest, end - FIXED_IE_LENGTH, tim)
  {
    hide TimOctets, SentLen, Spliced, Copied;
    var d, r, tim := FIXED_IE_LENGTH + dst, FIXED_IE_LENGTH + rest, TimOctets(0, 1, bmp);
    TimLength(bmp);
    if SentLen(bmp) <= 250 && r <= end {
      SplicedInside(buf, FIXED_IE_LENGTH, dst, rest, end, tim);
      SplicedIs(buf, d, r, end, tim);
    }
  }

  /** When there is a TIM, the new beacon has it replaced and every other element as before,
      in order. */
  lemma TimReplaced(s: seq<byte>, tim: Element)
    requires WellFormed(s) && TimAt(Parse(s)) < |Parse(s)| && Fits(tim)
    ensures var es, (dst, rest) := Parse(s), Hole(Parse(s));
            && rest <= |s|
            && WellFormed(Spliced(s, dst, rest, |s|, Print(tim)))
            && Parse(Spliced(s, dst, rest, |s|, Print(tim))) == es[TimAt(es) := tim]
  {
    hide PrintAll, Print, WellFormed, Parse, First, Spliced;
    var es := Parse(s);
    var k := TimAt(es);
    SuffixAt(s, k);
    SuffixAt(s, k + 1);
    var r := es[k := tim];
    assert r[..k] == es[..k] && r[k + 1..] == es[k + 1..];
    PrintAround(r, k);
    ParsePrint(r);
    assert Hole(es) == (Offset(es, k), Offset(es, k + 1));
    SplicedRest(s, Offset(es, k), Offset(es, k + 1), Print(tim));
  }

  lemma SplicedRest(s: seq<byte>, dst: nat, rest: nat, tim: seq<byte>)
    requires dst <= rest <= |s|
    ensures Spliced(s, dst, rest, |s|, tim) == s[..dst] + tim + s[rest..]
  {
  }

  /** When there is none, the new element comes before element `j` if that is where the SSID,
      the rates and three more octets end. */
  lemma TimInserted(s: seq<byte>, tim: Element, j: nat)
    requires WellFormed(s) && TimAt(Parse(s)) == |Parse(s)| && Fits(tim)
    requires j <= |Parse(s)| && Offset(Parse(s), j) == InsertAt(Parse(s))
    ensures var es, (dst, rest) := Parse(s), Hole(Parse(s));
            && rest <= |s|
            && WellFormed(Spliced(s, dst, rest, |s|, Print(tim)))
            && Parse(Spliced(s, dst, rest, |s|, Print(tim))) == es[..j] + [tim] + es[j..]
  {
    hide PrintAll, Print, WellFormed, Parse, First, InsertAt, Spliced;
    var es := Parse(s);
    SuffixAt(s, j);
    PrintOne(tim);
    PrintConcat(es[..j], [tim]);
    PrintConcat(es[..j] + [tim], es[j..]);
    ParsePrint(es[..j] + [tim] + es[j..]);
    assert Hole(es) == (Offset(es, j), Offset(es, j));
    SplicedRest(s, Offset(es, j), Offset(es, j), Print(tim));
  }

  /** So it is in the usual beacon, which starts with SSID, supported rates and a DS Parameter
      Set of one octet. */
  lemma UsualBeacon(es: seq<Element>)
    requires AllFit(es) && |es| >= 3
    requires es[0].id == 0 && es[1].id == 1 && |es[2].body| == 1
    ensures Offset(es, 3) == InsertAt(es)
  {
    FirstUnique(es, Pattern(SSID, []), 0);
    FirstUnique(es, Pattern(SUPPORTED_RATES, []), 1);
    OffsetNext(es, 0);
    OffsetNext(es, 1);
    OffsetNext(es, 2);
  }

  lemma SplicedInside(buf: seq<byte>, fixed: nat, dst: nat, rest: nat, end: nat, tim: seq<byte>)
    requires dst <= rest && fixed + rest <= end <= |buf|
    ensures Spliced(buf, fixed + dst, fixed + rest, end, tim) ==
            buf[..fixed] + Spliced(buf[fixed..end], dst, rest, end - fixed, tim)
  {
    var s := buf[fixed..end];
    SliceOfSlice(buf, fixed, end, 0, dst);
    SliceOfSlice(buf, fixed, end, rest, end - fixed);
    assert buf[..fixed + dst] == buf[..fixed] + buf[fixed..fixed + dst];
  }

  lemma TimLength(bmp: seq<byte>)
    requires 1 <= |bmp| <= 255
    ensures |TimOctets(0, 1, bmp)| == 5 + SentLen(bmp)
    ensures SentLen(bmp) <= 250 ==> TimLen(bmp) == 5 + SentLen(bmp)
  {
  }

  lemma HoleInside(s: seq<byte>)
    requires WellFormed(s)
    ensures Hole(Parse(s)).1 - Hole(Parse(s)).0 <= |s|
  {
    var k := TimAt(Parse(s));
    if k < |Parse(s)| {
      SuffixAt(s, k + 1);
    }
  }

  lemma FindFacts(s: seq<byte>, id: byte)
    requires WellFormed(s)
    ensures var es := Parse(s);
            var k := First(es, Pattern(id, []));
            k <= |es| && (k < |es| ==> Offset(es, k + 1) == Offset(es, k) + |es[k].body| + 2)
  {
    var k := First(Parse(s), Pattern(id, []));
    if k < |Parse(s)| {
      OffsetNext(Parse(s), k);
    }
  }

  lemma SplicedIs(buf: seq<byte>, dst: nat, rest: nat, end: nat, tim: seq<byte>)
    requires dst <= rest <= end <= |buf| && end - (rest - dst) + |tim| <= |buf|
    ensures var n := end - (rest - dst) + |tim|;
            && Copied(Copied(buf, dst, tim), dst + |tim|, buf[rest..end])[..n] == Spliced(buf, dst, rest, end, tim)
            && (rest == end ==> Copied(buf, dst, tim)[..n] == Spliced(buf, dst, rest, end, tim))
  {
    var n := end - (rest - dst) + |tim|;
    assert Copied(buf, dst, tim)[..dst + |tim|] == buf[..dst] + tim;
    assert Copied(Copied(buf, dst, tim), dst + |tim|, buf[rest..end])[..n] == buf[..dst] + tim + buf[rest..end];
  }
}
