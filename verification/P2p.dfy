/** Deleting a P2P attribute from every P2P element of a BSS, in place. */
module P2p {
  import opened Sequences
  import opened Elements
  import opened Memory
  import opened P2pAttributes

  const VENDOR_SPECIFIC: byte := 221
  const P2P_OUI: seq<byte> := [0x50, 0x6F, 0x9A, 0x09]
  const MAX_IE_SZ: nat := 768

  const P2P: Pattern := Pattern(VENDOR_SPECIFIC, P2P_OUI)

  /** The octets before the attributes; `l` is the length octet. */
  function Header(l: byte): (s: seq<byte>)
    ensures |s| == 6
  {
    [VENDOR_SPECIFIC, l] + P2P_OUI
  }

  /** The octets of the P2P element whose attributes are the octets `area`. */
  function Whole(area: seq<byte>): (s: seq<byte>)
    requires |area| <= 251
    ensures |s| == 6 + |area| && s[6..] == area
  {
    Header(|area| + 4) + area
  }

  /** Finding nothing, or the same attribute further on. */
  predicate SameFind(f: Found, g: Found, shift: nat) {
    if g.NotThere? then f.NotThere? else f.At? && f.offset == shift + g.offset && f.len == g.len
  }

  /** The search at position `pos`. */
  lemma FindHere(s: seq<byte>, pos: nat, id: byte)
    requires pos <= |s| && AttrsWellFormed(s[pos..])
    ensures pos + 3 > |s| ==> FindAttr(s[pos..], id).NotThere?
    ensures pos + 3 <= |s| ==>
              var n := AttrLen(s[pos..]);
              && 3 <= n && n == s[pos + 1] as int + 256 * s[pos + 2] as int + 3
              && pos + n <= |s| && AttrsWellFormed(s[pos + n..])
              && if s[pos] == id
                 then var f := FindAttr(s[pos..], id); f.At? && f.offset == 0 && f.len == n
                 else SameFind(FindAttr(s[pos..], id), FindAttr(s[pos + n..], id), n)
  {
    if pos + 3 <= |s| {
      DropDrop(s, pos, AttrLen(s[pos..]));
    }
  }

  lemma HeaderOctets(ie: seq<byte>)
    requires 6 <= |ie| <= 257 && ie == Whole(ie[6..])
    ensures |ie| > 6 ==> IsP2p(ie)
  {
    assert ie[2..6] == Header(|ie[6..]| + 4)[2..6];
  }

  /** What `rtw_get_p2p_attr` takes for a P2P element with attributes. */
  predicate IsP2p(ie: seq<byte>) {
    |ie| > 6 && ie[0] == VENDOR_SPECIFIC && ie[2..6] == P2P_OUI
  }

  /** The P2P elements by their octets. */
  lemma P2pOctets(e: Element, area: seq<byte>)
    requires |area| <= 251
    ensures Matches(e, P2P) <==> e.id == 221 && |e.body| >= 4 && e.body[..4] == [0x50, 0x6F, 0x9A, 0x09]
    ensures Fits(e) ==> (IsP2p(Print(e)) <==> Matches(e, P2P) && |e.body| > 4)
    ensures Whole(area) == [221, |area| + 4, 0x50, 0x6F, 0x9A, 0x09] + area
  {
    if Fits(e) && |e.body| >= 4 {
      assert Print(e)[2..6] == e.body[..4];
    }
  }

  /** The octets of the attribute that is found. */
  lemma AttrOctets(ie: seq<byte>, id: byte)
    requires IsP2p(ie) && AttrsWellFormed(ie[6..]) && FindAttr(ie[6..], id).At?
    ensures ie[0] == 221 && ie[2..6] == [0x50, 0x6F, 0x9A, 0x09]
    ensures var f := FindAttr(ie[6..], id);
            var p := 6 + f.offset;
            && 3 <= f.len && p + f.len <= |ie| && ie[p] == id
            && f.len == 3 + ie[p + 1] as int + 256 * ie[p + 2] as int
  {
    FoundAttr(ie[6..], id);
  }

  lemma {:induction false} FoundAttr(s: seq<byte>, id: byte)
    requires AttrsWellFormed(s) && FindAttr(s, id).At?
    ensures var f := FindAttr(s, id);
            && 3 <= f.len && f.offset + f.len <= |s| && s[f.offset] == id
            && f.len == 3 + s[f.offset + 1] as int + 256 * s[f.offset + 2] as int
    decreases |s|
  {
    if s[0] != id {
      FoundAttr(s[AttrLen(s)..], id);
    }
  }

  /** `rtw_get_p2p_attr`: the position and length of the first attribute with the identifier;
      nothing is found in octets that are not a P2P element. */
  method GetP2pAttr(ie: seq<byte>, id: byte) returns (p: int, len: nat)
    requires IsP2p(ie) ==> |ie| < 0x10000 && AttrsWellFormed(ie[6..])
    ensures if IsP2p(ie) then
              match FindAttr(ie[6..], id)
              case NotThere => p == -1 && len == 0
              case At(offset, n, _, _) => p == 6 + offset && len == n
            else p == -1 && len == 0
  {
    hide AttrsWellFormed, FindAttr, AttrLen, Whole, Header;
    p, len := -1, 0;
    if |ie| <= 6 || ie[0] != VENDOR_SPECIFIC || ie[2..6] != P2P_OUI {
      return;
    }
    FindHere(ie, 6, id);
    var pos := 6;
    while pos + 3 <= |ie|
      invariant 6 <= pos <= |ie| && AttrsWellFormed(ie[pos..])
      invariant SameFind(FindAttr(ie[6..], id), FindAttr(ie[pos..], id), pos - 6)
      decreases |ie| - pos
    {
      FindHere(ie, pos, id);
      var attrLen := (ie[pos + 1] as int + 256 * ie[pos + 2] as int + 3) % 0x10000;
      if pos + attrLen > |ie| {
        break;
      }
      if ie[pos] == id {
        p, len := pos, attrLen;
        return;
      }
      pos := pos + attrLen;
    }
    FindHere(ie, pos, id);
  }

  // ----- deleting from one element -----

  function Zeros(n: nat): (s: seq<byte>)
    ensures |s| == n
  {
    seq(n, _ => 0)
  }

  /** Moving, clearing and adjusting the length octet cut the attribute out of the element. */
  function Edited(buf: seq<byte>, at: nat, len: nat, p: nat, n: nat): (r: seq<byte>)
    requires at + len <= |buf| && 2 <= p && p + n <= len
  {
    var moved := Moved(buf, at + p, at + p + n, len - (p + n));
    var filled := Filled(moved, at + len - n, 0, n);
    filled[at + 1 := (filled[at + 1] - n) % 256]
  }

  /** Closing a gap `g` and clearing what is behind: zeros take the place of the gap. */
  lemma GapToZeros(x: seq<byte>, g: seq<byte>, b: seq<byte>, t: seq<byte>)
    ensures Filled(Moved(x + g + b + t, |x|, |x| + |g|, |b|), |x| + |b|, 0, |g|) == x + b + Zeros(|g|) + t
  {
    var buf := x + g + b + t;
    var moved := Moved(buf, |x|, |x| + |g|, |b|);
    assert buf[|x| + |g|..|x| + |g| + |b|] == b;
    assert moved[..|x| + |b|] == x + b;
    assert moved[|x| + |b| + |g|..] == t;
  }

  /** Changing the length octet of a P2P header. */
  lemma NewLength(pre: seq<byte>, l: byte, l': byte, rest: seq<byte>)
    ensures (pre + Header(l) + rest)[|pre| + 1] == l
    ensures (pre + Header(l) + rest)[|pre| + 1 := l'] == pre + Header(l') + rest
  {
  }

  lemma EditCuts(pre: seq<byte>, area: seq<byte>, post: seq<byte>, o: nat, n: nat)
    requires |area| <= 251 && o + n <= |area|
    ensures Edited(pre + Whole(area) + post, |pre|, 6 + |area|, 6 + o, n) ==
            pre + Whole(Cut(area, o, n)) + Zeros(n) + post
  {
    hide Moved, Filled, Zeros, Header;
    var l, l': byte := |area| + 4, |area| + 4 - n;
    var a, g, b := area[..o], area[o..o + n], area[o + n..];
    ThreeParts(area, o, o + n);
    GapClears(pre, Header(l), a, g, b, post);
    EditTail(pre, Header(l'), a, b, Zeros(n), post);
    NewLength(pre, l, l', a + b + Zeros(n) + post);
  }

  /** The attribute `g` gives way to zeros behind the others. */
  lemma GapClears(pre: seq<byte>, h: seq<byte>, a: seq<byte>, g: seq<byte>, b: seq<byte>, post: seq<byte>)
    ensures var buf, at := pre + (h + (a + g + b)) + post, |pre| + |h| + |a|;
            Filled(Moved(buf, at, at + |g|, |b|), at + |b|, 0, |g|) == pre + h + (a + b + Zeros(|g|) + post)
  {
    hide Moved, Filled, Zeros;
    EditParts(pre, h, a, g, b, post);
    GapToZeros(pre + h + a, g, b, post);
    EditTail(pre, h, a, b, Zeros(|g|), post);
  }

  lemma EditParts(p: seq<byte>, h: seq<byte>, a: seq<byte>, g: seq<byte>, b: seq<byte>, t: seq<byte>)
    ensures p + (h + (a + g + b)) + t == (p + h + a) + g + b + t
  {
  }

  lemma EditTail(p: seq<byte>, h: seq<byte>, a: seq<byte>, b: seq<byte>, z: seq<byte>, t: seq<byte>)
    ensures (p + h + a) + b + z + t == p + h + (a + b + z + t)
    ensures p + h + (a + b + z + t) == p + (h + (a + b)) + z + t
  {
  }

  /** Cutting the attribute that was found keeps the other attributes. */
  lemma CutKeeps(area: seq<byte>, id: byte)
    requires AttrsWellFormed(area) && FindAttr(area, id).At?
    ensures var f := FindAttr(area, id);
            && 3 <= f.len && f.offset + f.len <= |area|
            && AttrsWellFormed(Cut(area, f.offset, f.len))
            && WithoutAttr(ParseAttrs(Cut(area, f.offset, f.len)), id) == WithoutAttr(ParseAttrs(area), id)
  {
    hide AttrsWellFormed, ParseAttrs, PrintAttrs, WithoutAttr, FindAttr;
    var f := FindAttr(area, id);
    AtMeans(area, id);
    AtFilters(area, id);
    PrintAttrsConcat(f.before, f.after);
    ParsePrintAttrs(f.before + f.after);
  }

  /** The body of the loop of `rtw_del_p2p_attr`. */
  method EditAttr(ies: array<byte>, at: nat, len: nat, p: nat, n: nat)
    requires at + len <= ies.Length && 2 <= p && p + n <= len
    modifies ies
    ensures ies[..] == Edited(old(ies[..]), at, len, p, n)
  {
    hide Moved, Filled;
    var remainLen := len - (p + n);
    MemMove(ies, at + p, at + p + n, remainLen);
    MemSet(ies, at + p + remainLen, 0, n);
    ies[at + 1] := (ies[at + 1] - n) % 256;
  }

  /** Where the loop stands: the attributes left are the octets `area`, `z` octets are gone. */
  ghost predicate Deleting(buf: seq<byte>, pre: seq<byte>, area: seq<byte>, z: nat, post: seq<byte>,
                           id: byte, kept: seq<Attr>)
  {
    && |area| <= 251 && buf == pre + Whole(area) + (Zeros(z) + post)
    && AttrsWellFormed(area) && WithoutAttr(ParseAttrs(area), id) == kept
  }

  lemma DeletingRound(buf: seq<byte>, pre: seq<byte>, area: seq<byte>, z: nat, post: seq<byte>,
                      id: byte, kept: seq<Attr>)
    requires Deleting(buf, pre, area, z, post, id, kept) && FindAttr(area, id).At?
    ensures var f := FindAttr(area, id);
            && 3 <= f.len && f.offset + f.len <= |area| && |pre| + 6 + |area| <= |buf|
            && Deleting(Edited(buf, |pre|, 6 + |area|, 6 + f.offset, f.len),
                        pre, Cut(area, f.offset, f.len), z + f.len, post, id, kept)
  {
    hide FindAttr, WithoutAttr, ParseAttrs, AttrsWellFormed, Whole, Zeros, Edited, Cut;
    var f := FindAttr(area, id);
    CutKeeps(area, id);
    EditCuts(pre, area, Zeros(z) + post, f.offset, f.len);
    MoreZeros(f.len, z, post);
    assert pre + Whole(Cut(area, f.offset, f.len)) + Zeros(f.len) + (Zeros(z) + post)
        == pre + Whole(Cut(area, f.offset, f.len)) + (Zeros(f.len) + (Zeros(z) + post));
  }

  lemma DeletingElement(buf: seq<byte>, pre: seq<byte>, area: seq<byte>, z: nat, post: seq<byte>,
                        id: byte, kept: seq<Attr>)
    requires Deleting(buf, pre, area, z, post, id, kept)
    ensures |pre| + 6 + |area| <= |buf| && |area| <= 251 && AttrsWellFormed(area)
    ensures var ie := buf[|pre|..|pre| + 6 + |area|]; ie == Whole(area) && ie[6..] == area
  {
    assert buf[|pre|..|pre| + 6 + |area|] == Whole(area);
  }

  lemma DeletingStart(buf: seq<byte>, at: nat, len: nat, id: byte)
    requires 6 <= len <= 257 && at + len <= |buf|
    requires buf[at..at + len] == Whole(buf[at..at + len][6..]) && AttrsWellFormed(buf[at..at + len][6..])
    ensures var area := buf[at..at + len][6..];
            Deleting(buf, buf[..at], area, 0, buf[at + len..], id, WithoutAttr(ParseAttrs(area), id))
  {
    hide WithoutAttr, ParseAttrs, AttrsWellFormed, Whole, Zeros;
    NoZeros(buf[at + len..]);
    ThreeParts(buf, at, at + len);
  }

  lemma DeletingEnd(buf: seq<byte>, pre: seq<byte>, area: seq<byte>, z: nat, post: seq<byte>,
                    id: byte, kept: seq<Attr>)
    requires Deleting(buf, pre, area, z, post, id, kept) && FindAttr(area, id).NotThere?
    ensures AttrsFit(kept) && area == PrintAttrs(kept) && |area| <= 251
    ensures buf == pre + Whole(area) + (Zeros(z) + post)
  {
    NotThereMeans(area, id);
    PrintParseAttrs(area);
  }

  /** `rtw_del_p2p_attr` on the P2P element at `at`: the element shrinks in place and zeros
      follow it. */
  method DelP2pAttr(ies: array<byte>, at: nat, len: nat, id: byte) returns (cur: nat)
    requires 6 <= len <= 257 && at + len <= ies.Length
    requires ies[at..at + len] == Whole(ies[at..at + len][6..]) && AttrsWellFormed(ies[at..at + len][6..])
    modifies ies
    ensures var area := PrintAttrs(WithoutAttr(ParseAttrs(old(ies[at..at + len][6..])), id));
            && cur == 6 + |area| <= len
            && ies[..] == old(ies[..at]) + Whole(area) + (Zeros(len - cur) + old(ies[at + len..]))
  {
    hide FindAttr, WithoutAttr, ParseAttrs, PrintAttrs, AttrsWellFormed, Whole, Zeros, Edited, Cut, Deleting;
    cur := len;
    ghost var pre, area, post := ies[..at], ies[at..at + len][6..], ies[at + len..];
    ghost var kept := WithoutAttr(ParseAttrs(area), id);
    DeletingStart(ies[..], at, len, id);
    while true
      invariant cur == 6 + |area| <= len
      invariant Deleting(ies[..], pre, area, len - cur, post, id, kept)
      decreases cur
    {
      DeletingElement(ies[..], pre, area, len - cur, post, id, kept);
      HeaderOctets(ies[at..at + cur]);
      FindHere(ies[at..at + cur], 6, id);
      var p, n := GetP2pAttr(ies[at..at + cur], id);
      if p < 0 {
        DeletingEnd(ies[..], pre, area, len - cur, post, id, kept);
        break;
      }
      DeletingRound(ies[..], pre, area, len - cur, post, id, kept);
      EditAttr(ies, at, cur, p, n);
      area := Cut(area, p - 6, n);
      cur := cur - n;
    }
  }

  lemma NoZeros(post: seq<byte>)
    ensures Zeros(0) + post == post
  {
  }

  lemma MoreZeros(n: nat, z: nat, post: seq<byte>)
    ensures Zeros(n) + (Zeros(z) + post) == Zeros(n + z) + post
  {
    assert Zeros(n) + Zeros(z) == Zeros(n + z);
  }
}
