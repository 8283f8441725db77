/** The relay tag editing of core/rtw_br_ext.c on the octets of a PPPoE discovery frame:
    Ethernet header, PPPoE header with the length of the tags, tags. */
module PppoeRelay {
  import opened Sequences
  import opened Elements
  import opened Memory
  import opened PppoeTags

  const LENGTH_AT := 18
  const TAGS_AT := 20

  /** `skb->data` with its tail room. */
  class Frame {
    const buf: array<byte>
    var len: nat

    constructor (buf: array<byte>, len: nat)
      requires len <= buf.Length <= 0x10000
      ensures this.buf == buf && this.len == len && Valid()
    {
      this.buf, this.len := buf, len;
    }

    predicate Valid()
      reads this
    {
      len <= buf.Length <= 0x10000
    }

    function Data(): (d: seq<byte>)
      requires Valid()
      reads this, buf
    {
      buf[..len]
    }
  }

  /** A frame whose headers end in the length of a tag area, followed by the area and, perhaps,
      padding. */
  predicate Has(d: seq<byte>, fixed: seq<byte>, area: seq<byte>) {
    && TAGS_AT + |area| <= |d| && |area| < 0x10000 && |fixed| == LENGTH_AT
    && d[..LENGTH_AT] == fixed && d[LENGTH_AT..TAGS_AT] == Be16(|area|) && d[TAGS_AT..TAGS_AT + |area|] == area
  }

  /** The same by octets: the tags start at 20, and the length before them has its high octet
      first. */
  lemma FrameOctets(d: seq<byte>, fixed: seq<byte>, area: seq<byte>)
    ensures Has(d, fixed, area) <==>
            && |fixed| == 18 && |area| < 0x10000 && 20 + |area| <= |d| && d[..18] == fixed
            && d[18] as int * 256 + d[19] as int == |area| && d[20..20 + |area|] == area
  {
    if 20 + |area| <= |d| {
      assert d[18..20] == [d[18], d[19]];
    }
  }

  // ----- the octets of a tag in a frame -----

  lemma TagAt(tags: seq<Tag>, k: nat)
    requires TagsFit(tags) && k < |tags|
    ensures var area, cur := PrintTags(tags), |PrintTags(tags[..k])|;
            && cur + TAG_HDR_LEN + |tags[k].data| <= |area|
            && area[cur..cur + 2] == Be16(tags[k].kind)
            && area[cur + 2..cur + 4] == Be16(|tags[k].data|)
            && area[cur + 4..cur + 4 + |tags[k].data|] == tags[k].data
            && |PrintTags(tags[..k + 1])| == cur + TAG_HDR_LEN + |tags[k].data|
  {
    hide PrintTags;
    PrintTagsAround(tags, k);
    var a, t, b := PrintTags(tags[..k]), tags[k], PrintTags(tags[k + 1..]);
    HeaderAt(a, t, b);
    assert tags[..k + 1] == tags[..k] + [t];
    PrintTagsConcat(tags[..k], [t]);
    PrintOneTag(t);
  }

  lemma HeaderAt(a: seq<byte>, t: Tag, b: seq<byte>)
    requires TagFits(t)
    ensures var s := a + PrintTag(t) + b;
            && s[|a|..|a| + 2] == Be16(t.kind) && s[|a| + 2..|a| + 4] == Be16(|t.data|)
            && s[|a| + 4..|a| + 4 + |t.data|] == t.data
  {
    hide Be16;
    var p := PrintTag(t);
    MiddleSlice(a, p, b);
    var s := a + p + b;
    SliceOfSlice(s, |a|, |a| + |p|, 0, 2);
    SliceOfSlice(s, |a|, |a| + |p|, 2, 4);
    SliceOfSlice(s, |a|, |a| + |p|, 4, |p|);
  }

  /** Reading inside the tag area of a frame. */
  lemma InArea(d: seq<byte>, fixed: seq<byte>, area: seq<byte>, a: nat, b: nat)
    requires Has(d, fixed, area) && a <= b <= |area|
    ensures d[TAGS_AT + a..TAGS_AT + b] == area[a..b]
  {
    SliceOfSlice(d, TAGS_AT, TAGS_AT + |area|, a, b);
  }

  lemma LengthOf(d: seq<byte>, fixed: seq<byte>, area: seq<byte>)
    requires Has(d, fixed, area)
    ensures |fixed| == LENGTH_AT && TAGS_AT + |area| <= |d| && |area| < 0x10000 && GetBe16(d, LENGTH_AT) == |area|
  {
    Be16Inverse(d, LENGTH_AT, |area|);
  }

  /** `__nat25_find_pppoe_tag` for the relay tag. */
  method FindTag(f: Frame, ghost fixed: seq<byte>, ghost tags: seq<Tag>) returns (found: bool, cur: nat)
    requires f.Valid() && TagsFit(tags) && Has(f.Data(), fixed, PrintTags(tags))
    ensures found <==> Relay(tags) < |tags|
    ensures cur == |PrintTags(tags[..Relay(tags)])|
  {
    hide PrintTags;
    ghost var d, area := f.Data(), PrintTags(tags);
    Be16Inverse(d, LENGTH_AT, |area|);
    var length := GetBe16(f.buf[..f.len], LENGTH_AT);
    cur := 0;
    ghost var k := 0;
    PrintNothing(tags);
    assert tags[..|tags|] == tags;
    while cur < length
      invariant k <= Relay(tags) && cur == |PrintTags(tags[..k])|
      invariant k < |tags| ==> cur < |area|
      decreases |tags| - k
    {
      TagAt(tags, k);
      InArea(d, fixed, area, cur, cur + 2);
      InArea(d, fixed, area, cur + 2, cur + 4);
      Be16Inverse(d, TAGS_AT + cur, tags[k].kind);
      Be16Inverse(d, TAGS_AT + cur + 2, |tags[k].data|);
      var kind := GetBe16(f.buf[..f.len], TAGS_AT + cur);
      var tagLen := GetBe16(f.buf[..f.len], TAGS_AT + cur + 2);
      if kind == RELAY_SID {
        return true, cur;
      }
      cur := cur + TAG_HDR_LEN + tagLen;
      k := k + 1;
      if k < |tags| {
        TagAt(tags, k);
      }
    }
    found := false;
  }

  lemma PrintNothing(tags: seq<Tag>)
    requires TagsFit(tags)
    ensures PrintTags(tags[..0]) == []
    ensures tags != [] ==> PrintTags(tags) != []
  {
  }

  // ----- editing -----

  /** `skb_pull_and_merge`: take `n` octets out of the frame. */
  method PullAndMerge(f: Frame, src: nat, n: nat) returns (ok: bool)
    requires f.Valid()
    modifies f`len, f.buf
    ensures f.Valid() && ok == (src + n <= old(f.len))
    ensures f.Data() == if ok then Cut(old(f.Data()), src, n) else old(f.Data())
  {
    if src + n > f.len || f.len < n {
      return false;
    }
    ghost var b := f.buf[..];
    var tailLen := f.len - (src + n);
    if tailLen > 0 {
      MemMove(f.buf, src, src + n, tailLen);
      MovedSlices(b, src, src + n, tailLen);
      SplitAt(f.buf[..][..src + tailLen], src);
    }
    CutShape(f.buf[..], b, f.len, src, n);
    f.len := f.len - n;
    return true;
  }

  lemma CutShape(r: seq<byte>, b: seq<byte>, len: nat, src: nat, n: nat)
    requires src + n <= len <= |b| == |r|
    requires r[..src] == b[..src] && r[src..len - n] == b[src + n..len]
    ensures r[..len - n] == Cut(b[..len], src, n)
  {
    SplitAt(r[..len - n], src);
    assert b[..len][..src] == b[..src] && b[..len][src + n..] == b[src + n..len];
    assert r[..len - n][..src] == r[..src] && r[..len - n][src..] == r[src..len - n];
  }

  method SetLength(f: Frame, n: nat)
    requires f.Valid() && TAGS_AT <= f.len && n < 0x10000
    modifies f.buf
    ensures f.Data() == Copied(old(f.Data()), LENGTH_AT, Be16(n))
  {
    ghost var b := f.buf[..];
    MemCpy(f.buf, LENGTH_AT, Be16(n));
    CopiedPrefix(b, f.len, LENGTH_AT, Be16(n));
  }

  lemma CopiedPrefix(b: seq<byte>, len: nat, at: nat, src: seq<byte>)
    requires at + |src| <= len <= |b|
    ensures Copied(b, at, src)[..len] == Copied(b[..len], at, src)
  {
  }

  /** Taking octets out of the tag area and correcting its length. */
  lemma HasCut(d: seq<byte>, fixed: seq<byte>, area: seq<byte>, at: nat, n: nat)
    requires Has(d, fixed, area) && at + n <= |area|
    ensures Has(Copied(Cut(d, TAGS_AT + at, n), LENGTH_AT, Be16(|area| - n)), fixed, Cut(area, at, n))
  {
    hide Be16;
    var c := Cut(d, TAGS_AT + at, n);
    var r := Copied(c, LENGTH_AT, Be16(|area| - n));
    assert c[..TAGS_AT + at] == d[..TAGS_AT + at];
    assert r[..LENGTH_AT] == c[..LENGTH_AT] == d[..LENGTH_AT];
    assert r[LENGTH_AT..TAGS_AT] == Be16(|area| - n);
    InArea(d, fixed, area, 0, at);
    InArea(d, fixed, area, at + n, |area|);
    var e := TAGS_AT + |area| - n;
    assert r[TAGS_AT..e] == c[TAGS_AT..e];
    CutSlice(d, TAGS_AT, TAGS_AT + at, n, TAGS_AT + |area|);
  }

  lemma CutSlice(d: seq<byte>, from: nat, at: nat, n: nat, to: nat)
    requires from <= at && at + n <= to <= |d|
    ensures Cut(d, at, n)[from..to - n] == d[from..at] + d[at + n..to]
  {
    var c, r := Cut(d, at, n), d[from..at] + d[at + n..to];
    forall i | 0 <= i < |r|
      ensures c[from..to - n][i] == r[i]
    {
      assert c[from..to - n][i] == c[from + i];
    }
  }

  /** The buffer after the tags are moved up and the length and the tag are written. */
  function Grown(b: seq<byte>, l: nat, tag: seq<byte>): (r: seq<byte>)
    requires TAGS_AT + |tag| + l <= |b| && l + |tag| < 0x10000
    ensures |r| == |b|
  {
    Copied(Copied(Moved(b, TAGS_AT + |tag|, TAGS_AT, l), LENGTH_AT, Be16(l + |tag|)), TAGS_AT, tag)
  }

  lemma GrownSlices(b: seq<byte>, l: nat, tag: seq<byte>)
    requires TAGS_AT + |tag| + l <= |b| && l + |tag| < 0x10000
    ensures var r, m := Grown(b, l, tag), TAGS_AT + |tag|;
            && r[0..LENGTH_AT] == b[0..LENGTH_AT] && r[LENGTH_AT..TAGS_AT] == Be16(l + |tag|)
            && r[TAGS_AT..m] == tag && r[m..m + l] == b[TAGS_AT..TAGS_AT + l]
  {
    hide Be16, Copied, Moved;
    var m, e := TAGS_AT + |tag|, TAGS_AT + |tag| + l;
    var b1 := Moved(b, m, TAGS_AT, l);
    var b2 := Copied(b1, LENGTH_AT, Be16(l + |tag|));
    MovedSlices(b, m, TAGS_AT, l);
    assert b1[0..LENGTH_AT] == b1[..m][0..LENGTH_AT] == b[..m][0..LENGTH_AT];
    CopiedSlices(b1, LENGTH_AT, Be16(l + |tag|), 0, LENGTH_AT);
    CopiedSlices(b1, LENGTH_AT, Be16(l + |tag|), m, e);
    CopiedSlices(b2, TAGS_AT, tag, 0, LENGTH_AT);
    CopiedSlices(b2, TAGS_AT, tag, LENGTH_AT, TAGS_AT);
    CopiedSlices(b2, TAGS_AT, tag, m, e);
  }

  /** Making room in front of the tag area and filling it. */
  lemma HasGrown(b: seq<byte>, len: nat, fixed: seq<byte>, area: seq<byte>, tag: seq<byte>)
    requires len + |tag| <= |b| <= 0x10000 && Has(b[..len], fixed, area)
    ensures Has(Grown(b, |area|, tag)[..len + |tag|], fixed, tag + area)
  {
    hide Be16, Grown;
    var r, m, e := Grown(b, |area|, tag), TAGS_AT + |tag|, TAGS_AT + |tag| + |area|;
    GrownSlices(b, |area|, tag);
    SliceOfSlice(b, 0, len, TAGS_AT, TAGS_AT + |area|);
    SliceOfSlice(b, 0, len, 0, LENGTH_AT);
    SliceOfSlice(r, 0, len + |tag|, 0, LENGTH_AT);
    SliceOfSlice(r, 0, len + |tag|, LENGTH_AT, TAGS_AT);
    SliceOfSlice(r, 0, len + |tag|, TAGS_AT, e);
    assert r[TAGS_AT..e] == r[TAGS_AT..m] + r[m..e];
  }

  /** Cutting out the relay tag. */
  lemma CutRelay(tags: seq<Tag>)
    requires TagsFit(tags) && Relay(tags) < |tags|
    ensures var i := Relay(tags);
            var at, n := |PrintTags(tags[..i])|, |PrintTag(tags[i])|;
            at + n <= |PrintTags(tags)| && Cut(PrintTags(tags), at, n) == PrintTags(Others(tags))
  {
    hide PrintTags, PrintTag;
    var i := Relay(tags);
    PrintTagsAround(tags, i);
    var a, e, b := PrintTags(tags[..i]), PrintTag(tags[i]), PrintTags(tags[i + 1..]);
    MiddleSlice(a, e, b);
    PrintTagsConcat(tags[..i], tags[i + 1..]);
  }

  // ----- insertion -----

  datatype Outcome =
    | TooLong      // the old relay tag does not fit the tag buffer
    | NoRoom       // not enough tail room
    | PastBuffer   // more octets than the tag buffer has were copied
    | Added

  /** A 16-bit field of network order read in host order. */
  function HostRead(bigEndian: bool, hi: byte, lo: byte): (n: nat) {
    if bigEndian then hi as int * 256 + lo as int else lo as int * 256 + hi as int
  }

  /** `__nat25_add_pppoe_tag`, which takes the tag length in host order. The octets that lie behind
      the tag buffer are `beyond`; as many of them are copied as the length asks for. */
  method AddTag(f: Frame, bigEndian: bool, tagBuf: seq<byte>, beyond: seq<byte>,
                ghost fixed: seq<byte>, ghost area: seq<byte>)
    returns (o: Outcome)
    requires f.Valid() && |tagBuf| == TAG_BUF_LEN && Has(f.Data(), fixed, area)
    requires HostRead(bigEndian, tagBuf[2], tagBuf[3]) + TAG_HDR_LEN <= TAG_BUF_LEN + |beyond|
    modifies f`len, f.buf
    ensures f.Valid()
    ensures var n := HostRead(bigEndian, tagBuf[2], tagBuf[3]) + TAG_HDR_LEN;
            && o == (if f.buf.Length - old(f.len) < n then NoRoom
                     else if n <= TAG_BUF_LEN then Added else PastBuffer)
            && (if o == NoRoom then f.Data() == old(f.Data()) && f.len == old(f.len)
                else Has(f.Data(), fixed, (tagBuf + beyond)[..n] + area) && f.len == old(f.len) + n)
  {
    var n := HostRead(bigEndian, tagBuf[2], tagBuf[3]) + TAG_HDR_LEN;
    if f.buf.Length - f.len < n {
      return NoRoom;
    }
    Grow(f, (tagBuf + beyond)[..n], fixed, area);
    return if n <= TAG_BUF_LEN then Added else PastBuffer;
  }

  /** Put a tag in front of the tag area. */
  method Grow(f: Frame, tag: seq<byte>, ghost fixed: seq<byte>, ghost area: seq<byte>)
    requires f.Valid() && f.len + |tag| <= f.buf.Length && Has(f.Data(), fixed, area)
    modifies f`len, f.buf
    ensures f.Valid() && f.len == old(f.len) + |tag| && Has(f.Data(), fixed, tag + area)
  {
    hide Moved, Copied, Be16, Has, GetBe16;
    LengthOf(f.Data(), fixed, area);
    var n, length := |tag|, GetBe16(f.buf[..f.len], LENGTH_AT);
    HasGrown(f.buf[..], f.len, fixed, area, tag);
    MemMove(f.buf, TAGS_AT + n, TAGS_AT, length);
    MemCpy(f.buf, LENGTH_AT, Be16(length + n));
    MemCpy(f.buf, TAGS_AT, tag);
    f.len := f.len + n;
  }

  /** The tag buffer as it is filled: the relay tag, then whatever was there. */
  function Filling(tags: seq<Tag>, mac: seq<byte>, junk: seq<byte>): (s: seq<byte>)
    requires FitsBuffer(tags) && |mac| == MAC_LEN && |junk| == TAG_BUF_LEN
    ensures |s| == TAG_BUF_LEN
  {
    PrintTag(RelayTag(tags, mac)) + junk[TAG_HDR_LEN + ADDED_LEN + |OldData(tags)|..]
  }

  /** How many octets are copied: those of the tag in big-endian order, 256 times as much data in
      little-endian order. */
  function CopyLen(bigEndian: bool, tags: seq<Tag>): (n: nat) {
    TAG_HDR_LEN + (ADDED_LEN + |OldData(tags)|) * if bigEndian then 1 else 256
  }

  /** In big-endian order the length field gives the tag; in little-endian order it never does. */
  lemma LengthByOrder(bigEndian: bool, tags: seq<Tag>, mac: seq<byte>, junk: seq<byte>)
    requires FitsBuffer(tags) && |mac| == MAC_LEN && |junk| == TAG_BUF_LEN
    ensures var s := Filling(tags, mac, junk);
            var n := HostRead(bigEndian, s[2], s[3]) + TAG_HDR_LEN;
            && n == CopyLen(bigEndian, tags)
            && (bigEndian ==> n <= TAG_BUF_LEN && s[..n] == PrintTag(RelayTag(tags, mac)))
            && (!bigEndian ==> TAG_BUF_LEN < n < 0x10000)
  {
    var s := Filling(tags, mac, junk);
    var l := |RelayTag(tags, mac).data|;
    assert s[2] == 0 && s[3] == l;
  }

  /** The octets an old relay tag takes. */
  function OldLen(tags: seq<Tag>): (n: nat) {
    if Relay(tags) < |tags| then TAG_HDR_LEN + |OldData(tags)| else 0
  }

  /** Which way the insertion ends, with `room` octets of tail room. */
  function OutcomeOf(bigEndian: bool, room: int, tags: seq<Tag>): (o: Outcome) {
    if !FitsBuffer(tags) then TooLong
    else if room + OldLen(tags) < CopyLen(bigEndian, tags) then NoRoom
    else if bigEndian then Added
    else PastBuffer
  }

  /** The outcomes by numbers: 28 octets of old data fit, and a frame needs room for 12 more octets
      than the old data, or for 2052 and 256 times the old data, less an old relay tag. */
  lemma OutcomeExactly(bigEndian: bool, room: int, tags: seq<Tag>)
    ensures var n, o := |OldData(tags)|, OutcomeOf(bigEndian, room, tags);
            var free := room + if Relay(tags) < |tags| then 4 + n else 0;
            var enough := if bigEndian then free >= 12 + n else free >= 2052 + 256 * n;
            && (o == TooLong <==> n > 28)
            && (o == NoRoom <==> n <= 28 && !enough)
            && (o == Added <==> n <= 28 && enough && bigEndian)
            && (o == PastBuffer <==> n <= 28 && enough && !bigEndian)
  {
  }

  /** The relay tag branch for PADI and PADR frames. The list is edited as specified exactly with
      big-endian host order, an old relay tag that fits and room in the frame. In little-endian
      order a frame with enough room gets the tag and whatever lies behind the tag buffer. */
  method Insert(f: Frame, bigEndian: bool, junk: seq<byte>, beyond: seq<byte>,
                ghost fixed: seq<byte>, ghost tags: seq<Tag>)
    returns (o: Outcome)
    requires f.Valid() && TagsFit(tags) && Has(f.Data(), fixed, PrintTags(tags))
    requires |junk| == TAG_BUF_LEN && |beyond| >= 0x10000
    modifies f`len, f.buf
    ensures f.Valid() && |fixed| == LENGTH_AT
    ensures o == OutcomeOf(bigEndian, f.buf.Length - old(f.len), tags)
    ensures o == TooLong ==> f.Data() == old(f.Data())
    ensures o == NoRoom ==> Has(f.Data(), fixed, PrintTags(Others(tags))) && f.len == old(f.len) - OldLen(tags)
    ensures o == Added ==>
              && TagsFit(Inserted(tags, fixed[6..12]))
              && Has(f.Data(), fixed, PrintTags(Inserted(tags, fixed[6..12])))
    ensures o == PastBuffer ==>
              var n, octets := CopyLen(false, tags), Filling(tags, fixed[6..12], junk) + beyond;
              n <= |octets| && Has(f.Data(), fixed, octets[..n] + PrintTags(Others(tags)))
    ensures o == PastBuffer ==>
              TagsFit(Inserted(tags, fixed[6..12])) && !Has(f.Data(), fixed, PrintTags(Inserted(tags, fixed[6..12])))
    ensures o == Added || o == PastBuffer ==> f.len == old(f.len) - OldLen(tags) + CopyLen(bigEndian, tags)
  {
    hide PrintTags, Inserted, Filling, Has, CopyLen;
    LengthOf(f.Data(), fixed, PrintTags(tags));
    var fits, oldData := TakeOld(f, fixed, tags);
    if !fits {
      return TooLong;
    }
    o := AddRelay(f, bigEndian, oldData, junk, beyond, fixed, tags);
  }

  /** The part of `Insert` after the old relay tag is gone. */
  method AddRelay(f: Frame, bigEndian: bool, oldData: seq<byte>, junk: seq<byte>, beyond: seq<byte>,
                  ghost fixed: seq<byte>, ghost tags: seq<Tag>)
    returns (o: Outcome)
    requires f.Valid() && TagsFit(tags) && FitsBuffer(tags) && oldData == OldData(tags)
    requires Has(f.Data(), fixed, PrintTags(Others(tags))) && |fixed| == LENGTH_AT
    requires |junk| == TAG_BUF_LEN && |beyond| >= 0x10000
    modifies f`len, f.buf
    ensures f.Valid()
    ensures o == if f.buf.Length - old(f.len) < CopyLen(bigEndian, tags) then NoRoom
                 else if bigEndian then Added else PastBuffer
    ensures o == NoRoom ==> Has(f.Data(), fixed, PrintTags(Others(tags))) && f.len == old(f.len)
    ensures TagsFit(Inserted(tags, fixed[6..12]))
    ensures o == Added ==> Has(f.Data(), fixed, PrintTags(Inserted(tags, fixed[6..12])))
    ensures o == PastBuffer ==>
              var n, octets := CopyLen(false, tags), Filling(tags, fixed[6..12], junk) + beyond;
              n <= |octets| && Has(f.Data(), fixed, octets[..n] + PrintTags(Others(tags)))
    ensures o == PastBuffer ==> !Has(f.Data(), fixed, PrintTags(Inserted(tags, fixed[6..12])))
    ensures o == Added || o == PastBuffer ==> f.len == old(f.len) + CopyLen(bigEndian, tags)
  {
    hide PrintTags, PrintTag, Inserted, Filling, Has, Be16, HostRead, CopyLen, FitsBuffer;
    ghost var mac, others := fixed[6..12], PrintTags(Others(tags));
    var src := SourceOf(f, fixed, others);
    OldDataFits(tags);
    var tagBuf := Be16(RELAY_SID) + Be16(ADDED_LEN + |oldData|) + Magic + src + oldData
                + junk[TAG_HDR_LEN + ADDED_LEN + |oldData|..];
    FillingShape(tags, mac, junk);
    LengthByOrder(bigEndian, tags, mac, junk);
    PrintInserted(tags, mac);
    o := AddTag(f, bigEndian, tagBuf, beyond, fixed, others);
    ghost var n := CopyLen(bigEndian, tags);
    if o == Added {
      assert (tagBuf + beyond)[..n] == tagBuf[..n];
    } else if o == PastBuffer {
      OneArea(f.Data(), fixed, (tagBuf + beyond)[..n] + others, PrintTags(Inserted(tags, mac)));
    }
  }

  lemma OldDataFits(tags: seq<Tag>)
    requires FitsBuffer(tags)
    ensures |OldData(tags)| + TAG_HDR_LEN + ADDED_LEN <= TAG_BUF_LEN
  {
  }

  /** A frame has one tag area. */
  lemma OneArea(d: seq<byte>, fixed: seq<byte>, a: seq<byte>, b: seq<byte>)
    requires Has(d, fixed, a) && a != b
    ensures !Has(d, fixed, b)
  {
    if |a| == |b| {
      assert d[TAGS_AT..TAGS_AT + |a|] == a;
    } else if |b| < 0x10000 {
      Be16Differ(|a|, |b|);
    }
  }

  lemma Be16Differ(m: nat, n: nat)
    requires m < 0x10000 && n < 0x10000 && m != n
    ensures Be16(m) != Be16(n)
  {
    assert Be16(m)[0] != Be16(n)[0] || Be16(m)[1] != Be16(n)[1];
  }

  method SourceOf(f: Frame, ghost fixed: seq<byte>, ghost area: seq<byte>) returns (mac: seq<byte>)
    requires f.Valid() && Has(f.Data(), fixed, area)
    ensures |fixed| == LENGTH_AT && mac == fixed[6..12] && |mac| == MAC_LEN
  {
    mac := f.buf[6..12];
    assert f.Data()[..LENGTH_AT][6..12] == mac;
  }

  /** Copy the data of an old relay tag and take the tag out, if it fits the tag buffer. */
  method TakeOld(f: Frame, ghost fixed: seq<byte>, ghost tags: seq<Tag>) returns (fits: bool, oldData: seq<byte>)
    requires f.Valid() && TagsFit(tags) && Has(f.Data(), fixed, PrintTags(tags))
    modifies f`len, f.buf
    ensures f.Valid() && fits == FitsBuffer(tags)
    ensures if fits then oldData == OldData(tags) && Has(f.Data(), fixed, PrintTags(Others(tags)))
            else f.Data() == old(f.Data())
    ensures fits ==> f.len == old(f.len) - OldLen(tags)
  {
    hide PrintTags, PrintTag, Cut, Be16;
    var found, cur := FindTag(f, fixed, tags);
    if !found {
      return true, [];
    }
    CutRelay(tags);
    var oldLen;
    oldLen, oldData := TagData(f, cur, fixed, tags);
    if oldLen + TAG_HDR_LEN + ADDED_LEN > TAG_BUF_LEN {
      return false, [];
    }
    fits := true;
    CutTags(f, cur, TAG_HDR_LEN + oldLen, fixed, PrintTags(tags));
  }

  lemma FillingShape(tags: seq<Tag>, mac: seq<byte>, junk: seq<byte>)
    requires FitsBuffer(tags) && |mac| == MAC_LEN && |junk| == TAG_BUF_LEN
    ensures var d := OldData(tags);
            Filling(tags, mac, junk) == Be16(RELAY_SID) + Be16(ADDED_LEN + |d|) + Magic + mac + d
                                      + junk[TAG_HDR_LEN + ADDED_LEN + |d|..]
  {
    hide Be16;
    var d := OldData(tags);
    assert |Magic + mac + d| == ADDED_LEN + |d|;
    var h := Be16(RELAY_SID) + Be16(ADDED_LEN + |d|);
    assert h + (Magic + mac + d) == h + Magic + mac + d;
  }

  lemma PrintInserted(tags: seq<Tag>, mac: seq<byte>)
    requires TagsFit(tags) && FitsBuffer(tags) && |mac| == MAC_LEN
    ensures TagsFit(Inserted(tags, mac))
    ensures PrintTags(Inserted(tags, mac)) == PrintTag(RelayTag(tags, mac)) + PrintTags(Others(tags))
    ensures |PrintTag(RelayTag(tags, mac))| == TAG_HDR_LEN + ADDED_LEN + |OldData(tags)| <= TAG_BUF_LEN
  {
    var t := RelayTag(tags, mac);
    PrintOneTag(t);
    PrintTagsConcat([t], Others(tags));
  }

  /** Take octets out of the tag area and correct its length. */
  method CutTags(f: Frame, at: nat, n: nat, ghost fixed: seq<byte>, ghost area: seq<byte>)
    requires f.Valid() && Has(f.Data(), fixed, area) && at + n <= |area|
    modifies f`len, f.buf
    ensures f.Valid() && Has(f.Data(), fixed, Cut(area, at, n)) && f.len == old(f.len) - n
  {
    HasCut(f.Data(), fixed, area, at, n);
    LengthOf(f.Data(), fixed, area);
    var length := GetBe16(f.buf[..f.len], LENGTH_AT);
    var _ := PullAndMerge(f, TAGS_AT + at, n);
    SetLength(f, length - n);
  }

  // ----- stripping -----

  /** Overwriting the destination address. */
  lemma HasDestination(d: seq<byte>, fixed: seq<byte>, area: seq<byte>, mac: seq<byte>)
    requires Has(d, fixed, area) && |mac| == MAC_LEN
    ensures Has(Copied(d, 0, mac), mac + fixed[MAC_LEN..], area)
  {
    var r := Copied(d, 0, mac);
    assert d[..LENGTH_AT][MAC_LEN..] == d[MAC_LEN..LENGTH_AT];
    assert r[..LENGTH_AT] == mac + d[MAC_LEN..LENGTH_AT];
    assert r[LENGTH_AT..TAGS_AT] == d[LENGTH_AT..TAGS_AT];
    assert r[TAGS_AT..TAGS_AT + |area|] == d[TAGS_AT..TAGS_AT + |area|];
  }

  /** Overwriting octets of the tag area. */
  lemma HasPatched(d: seq<byte>, fixed: seq<byte>, area: seq<byte>, at: nat, s: seq<byte>)
    requires Has(d, fixed, area) && at + |s| <= |area|
    ensures Has(Copied(d, TAGS_AT + at, s), fixed, Copied(area, at, s))
  {
    hide Be16;
    var r, e := Copied(d, TAGS_AT + at, s), TAGS_AT + |area|;
    InArea(d, fixed, area, 0, at);
    InArea(d, fixed, area, at + |s|, |area|);
    assert r[..LENGTH_AT] == d[..LENGTH_AT] && r[LENGTH_AT..TAGS_AT] == d[LENGTH_AT..TAGS_AT];
    assert r[TAGS_AT..e] == d[TAGS_AT..TAGS_AT + at] + s + d[TAGS_AT + at + |s|..e];
  }

  /** The tag area after our part of the relay tag is cut out and its length corrected. */
  lemma StrippedArea(tags: seq<Tag>)
    requires TagsFit(tags) && Ours(tags)
    ensures var i := Relay(tags);
            var area, at, n := PrintTags(tags), |PrintTags(tags[..i])|, |tags[i].data|;
            if n > ADDED_LEN then
              && at + TAG_HDR_LEN + ADDED_LEN <= |area|
              && Copied(Cut(area, at + TAG_HDR_LEN, ADDED_LEN), at + 2, Be16(n - ADDED_LEN))
                 == PrintTags(Stripped(tags))
            else
              && at + TAG_HDR_LEN + ADDED_LEN <= |area|
              && Cut(area, at, TAG_HDR_LEN + ADDED_LEN) == PrintTags(Stripped(tags))
  {
    hide PrintTags, PrintTag, Stripped, Copied, Cut, Be16;
    var t, a, b := tags[Relay(tags)], PrintTags(tags[..Relay(tags)]), PrintTags(tags[Relay(tags) + 1..]);
    PrintTagsAround(tags, Relay(tags));
    PrintStripped(tags);
    if |t.data| > ADDED_LEN {
      PrintOneTag(KeptPart(t)[0]);
      ShortenedTag(a, t, b);
    } else {
      PrintNothing([]);
      CutMiddle(a, PrintTag(t), b);
    }
  }

  lemma PrintStripped(tags: seq<Tag>)
    requires TagsFit(tags) && Ours(tags)
    ensures var i := Relay(tags);
            TagsFit(KeptPart(tags[i])) &&
            PrintTags(Stripped(tags)) == PrintTags(tags[..i]) + PrintTags(KeptPart(tags[i])) + PrintTags(tags[i + 1..])
  {
    hide PrintTags;
    var i := Relay(tags);
    PrintTagsConcat(tags[..i], KeptPart(tags[i]));
    PrintTagsConcat(tags[..i] + KeptPart(tags[i]), tags[i + 1..]);
  }

  lemma CutMiddle(a: seq<byte>, e: seq<byte>, b: seq<byte>)
    ensures Cut(a + e + b, |a|, |e|) == a + b
  {
    MiddleSlice(a, e, b);
  }

  lemma ShortenedTag(a: seq<byte>, t: Tag, b: seq<byte>)
    requires TagFits(t) && t.kind == RELAY_SID && |t.data| > ADDED_LEN
    ensures var short := Tag(RELAY_SID, t.data[ADDED_LEN..]);
            Copied(Cut(a + PrintTag(t) + b, |a| + TAG_HDR_LEN, ADDED_LEN), |a| + 2, Be16(|t.data| - ADDED_LEN))
            == a + PrintTag(short) + b
  {
    hide Be16;
    var k, l, m := Be16(t.kind), Be16(|t.data|), Be16(|t.data| - ADDED_LEN);
    var head, rest := t.data[..ADDED_LEN], t.data[ADDED_LEN..];
    SplitAt(t.data, ADDED_LEN);
    assert a + PrintTag(t) + b == (a + k + l) + head + (rest + b);
    CutMiddle(a + k + l, head, rest + b);
    var c := (a + k) + l + (rest + b);
    MiddleSlice(a + k, l, rest + b);
    assert Copied(c, |a| + 2, m) == (a + k) + m + (rest + b);
    assert (a + k) + m + (rest + b) == a + (k + m + rest) + b;
  }

  /** The relay tag branch for PADO and PADS frames: a frame with our relay tag is sent on to the
      client with our part taken out, any other frame is left alone and refused. */
  method Strip(f: Frame, ghost fixed: seq<byte>, ghost tags: seq<Tag>) returns (ok: bool)
    requires f.Valid() && TagsFit(tags) && Has(f.Data(), fixed, PrintTags(tags))
    modifies f`len, f.buf
    ensures f.Valid() && ok == Ours(tags) && |fixed| == LENGTH_AT
    ensures if ok then Has(f.Data(), Client(tags) + fixed[MAC_LEN..], PrintTags(Stripped(tags)))
            else f.Data() == old(f.Data())
  {
    hide PrintTags, PrintTag, Has, Be16, Stripped;
    LengthOf(f.Data(), fixed, PrintTags(tags));
    var found, cur := FindTag(f, fixed, tags);
    if !found {
      return false;
    }
    ghost var t := tags[Relay(tags)];
    var tagLen, data := TagData(f, cur, fixed, tags);
    if tagLen < ADDED_LEN {
      return false;
    }
    if data[..2] != Magic {
      return false;
    }
    var mac := data[2..ADDED_LEN];
    ghost var fixed' := mac + fixed[MAC_LEN..];
    SetDestination(f, mac, fixed, PrintTags(tags));
    StrippedArea(tags);
    if tagLen > ADDED_LEN {
      CutTags(f, cur + TAG_HDR_LEN, ADDED_LEN, fixed', PrintTags(tags));
      PatchTags(f, cur + 2, Be16(tagLen - ADDED_LEN), fixed',
                Cut(PrintTags(tags), cur + TAG_HDR_LEN, ADDED_LEN));
    } else {
      CutTags(f, cur, TAG_HDR_LEN + ADDED_LEN, fixed', PrintTags(tags));
    }
    return true;
  }

  /** The length and the data of the relay tag. */
  method TagData(f: Frame, cur: nat, ghost fixed: seq<byte>, ghost tags: seq<Tag>) returns (n: nat, data: seq<byte>)
    requires f.Valid() && TagsFit(tags) && Has(f.Data(), fixed, PrintTags(tags))
    requires Relay(tags) < |tags| && cur == |PrintTags(tags[..Relay(tags)])|
    ensures data == tags[Relay(tags)].data && n == |data|
    ensures cur + TAG_HDR_LEN + n <= |PrintTags(tags)|
  {
    hide PrintTags, PrintTag, Be16;
    ghost var area, t := PrintTags(tags), tags[Relay(tags)];
    TagAt(tags, Relay(tags));
    InArea(f.Data(), fixed, area, cur + 2, cur + 4);
    Be16Inverse(f.Data(), TAGS_AT + cur + 2, |t.data|);
    n := GetBe16(f.buf[..f.len], TAGS_AT + cur + 2);
    InArea(f.Data(), fixed, area, cur + 4, cur + 4 + n);
    data := f.buf[..f.len][TAGS_AT + cur + 4..TAGS_AT + cur + 4 + n];
  }

  method SetDestination(f: Frame, mac: seq<byte>, ghost fixed: seq<byte>, ghost area: seq<byte>)
    requires f.Valid() && Has(f.Data(), fixed, area) && |mac| == MAC_LEN
    modifies f.buf
    ensures Has(f.Data(), mac + fixed[MAC_LEN..], area)
  {
    HasDestination(f.Data(), fixed, area, mac);
    CopiedPrefix(f.buf[..], f.len, 0, mac);
    hide Copied;
    MemCpy(f.buf, 0, mac);
  }

  method PatchTags(f: Frame, at: nat, s: seq<byte>, ghost fixed: seq<byte>, ghost area: seq<byte>)
    requires f.Valid() && Has(f.Data(), fixed, area) && at + |s| <= |area|
    modifies f.buf
    ensures Has(f.Data(), fixed, Copied(area, at, s))
  {
    HasPatched(f.Data(), fixed, area, at, s);
    CopiedPrefix(f.buf[..], f.len, TAGS_AT + at, s);
    hide Copied;
    MemCpy(f.buf, TAGS_AT + at, s);
  }
}
