/** Tag lists of PPPoE discovery frames (Appendix A of RFC 2516) and what relaying does to them. */
module PppoeTags {
  import opened Sequences
  import opened Elements

  const TAG_HDR_LEN := 4
  const RELAY_SID := 0x0110
  const Magic: seq<byte> := [0x81, 0x86]
  const MAC_LEN := 6
  const ADDED_LEN := 8     // the magic code and a MAC address
  const TAG_BUF_LEN := 40

  datatype Tag = Tag(kind: nat, data: seq<byte>)

  predicate TagFits(t: Tag) {
    t.kind < 0x10000 && |t.data| < 0x10000
  }

  predicate TagsFit(tags: seq<Tag>) {
    forall i :: 0 <= i < |tags| ==> TagFits(tags[i])
  }

  function Be16(n: nat): (s: seq<byte>)
    requires n < 0x10000
    ensures |s| == 2
  {
    [n / 256, n % 256]
  }

  function GetBe16(s: seq<byte>, at: nat): (n: nat)
    requires at + 2 <= |s|
    ensures n < 0x10000
  {
    var hi: int, lo: int := s[at], s[at + 1];
    hi * 256 + lo
  }

  lemma Be16Inverse(s: seq<byte>, at: nat, n: nat)
    requires at + 2 <= |s| && n < 0x10000 && s[at..at + 2] == Be16(n)
    ensures GetBe16(s, at) == n
  {
    assert s[at] == s[at..at + 2][0] && s[at + 1] == s[at..at + 2][1];
  }

  function PrintTag(t: Tag): (s: seq<byte>)
    requires TagFits(t)
    ensures |s| == TAG_HDR_LEN + |t.data|
  {
    Be16(t.kind) + Be16(|t.data|) + t.data
  }

  function PrintTags(tags: seq<Tag>): (s: seq<byte>)
    requires TagsFit(tags)
  {
    if tags == [] then [] else PrintTag(tags[0]) + PrintTags(tags[1..])
  }

  lemma {:induction false} PrintTagsConcat(a: seq<Tag>, b: seq<Tag>)
    requires TagsFit(a) && TagsFit(b)
    ensures TagsFit(a + b) && PrintTags(a + b) == PrintTags(a) + PrintTags(b)
  {
    if a == [] {
      NothingBefore(b);
      NothingBefore(PrintTags(b));
    } else {
      ConcatHead(a, b);
      PrintTagsConcat(a[1..], b);
      Assoc(PrintTag(a[0]), PrintTags(a[1..]), PrintTags(b));
    }
  }

  lemma PrintOneTag(t: Tag)
    requires TagFits(t)
    ensures PrintTags([t]) == PrintTag(t)
  {
    assert [t][1..] == [];
    assert PrintTag(t) + [] == PrintTag(t);
  }

  /** A list printed around one of its tags. */
  lemma PrintTagsAround(tags: seq<Tag>, i: nat)
    requires TagsFit(tags) && i < |tags|
    ensures PrintTags(tags) == PrintTags(tags[..i]) + PrintTag(tags[i]) + PrintTags(tags[i + 1..])
  {
    hide PrintTags, PrintTag, TagFits;
    assert tags == tags[..i] + [tags[i]] + tags[i + 1..];
    PrintOneTag(tags[i]);
    PrintTagsConcat(tags[..i], [tags[i]]);
    PrintTagsConcat(tags[..i] + [tags[i]], tags[i + 1..]);
  }

  /** The index of the first relay tag, or the length of the list. */
  function Relay(tags: seq<Tag>): (i: nat)
    ensures i <= |tags|
    ensures i < |tags| ==> tags[i].kind == RELAY_SID
    ensures forall k :: 0 <= k < i ==> tags[k].kind != RELAY_SID
  {
    if tags == [] || tags[0].kind == RELAY_SID then 0 else 1 + Relay(tags[1..])
  }

  lemma RelayUnique(tags: seq<Tag>, i: nat)
    requires i <= |tags| && (i < |tags| ==> tags[i].kind == RELAY_SID)
    requires forall k :: 0 <= k < i ==> tags[k].kind != RELAY_SID
    ensures Relay(tags) == i
  {
  }

  /** What a relay tag carried already. */
  function OldData(tags: seq<Tag>): (d: seq<byte>) {
    if Relay(tags) < |tags| then tags[Relay(tags)].data else []
  }

  function Others(tags: seq<Tag>): (r: seq<Tag>)
    ensures TagsFit(tags) ==> TagsFit(r)
  {
    if Relay(tags) < |tags| then tags[..Relay(tags)] + tags[Relay(tags) + 1..] else tags
  }

  predicate FitsBuffer(tags: seq<Tag>) {
    |OldData(tags)| + TAG_HDR_LEN + ADDED_LEN <= TAG_BUF_LEN
  }

  /** The tag that goes to the server. */
  function RelayTag(tags: seq<Tag>, mac: seq<byte>): (t: Tag) {
    Tag(RELAY_SID, Magic + mac + OldData(tags))
  }

  /** Insertion into a PADI or PADR frame: the relay tag comes first, an old one is absorbed. */
  function Inserted(tags: seq<Tag>, mac: seq<byte>): (r: seq<Tag>) {
    [RelayTag(tags, mac)] + Others(tags)
  }

  /** A reply carries a relay tag of ours. */
  predicate Ours(tags: seq<Tag>) {
    Relay(tags) < |tags| && |tags[Relay(tags)].data| >= ADDED_LEN && tags[Relay(tags)].data[..2] == Magic
  }

  function Client(tags: seq<Tag>): (mac: seq<byte>)
    requires Ours(tags)
    ensures |mac| == MAC_LEN
  {
    tags[Relay(tags)].data[2..ADDED_LEN]
  }

  /** Stripping from a PADO or PADS frame: our part of the relay tag goes, and the tag with it if
      nothing else is in it. */
  function Stripped(tags: seq<Tag>): (r: seq<Tag>)
    requires Ours(tags)
    ensures TagsFit(tags) ==> TagsFit(r)
  {
    var i := Relay(tags);
    tags[..i] + KeptPart(tags[i]) + tags[i + 1..]
  }

  function KeptPart(t: Tag): (r: seq<Tag>)
    requires |t.data| >= ADDED_LEN
  {
    if |t.data| > ADDED_LEN then [Tag(RELAY_SID, t.data[ADDED_LEN..])] else []
  }

  /** The old relay tag, if it says anything. */
  function OldTag(tags: seq<Tag>): (r: seq<Tag>) {
    if OldData(tags) == [] then [] else [Tag(RELAY_SID, OldData(tags))]
  }

  // ----- octet by octet -----

  /** A tag is its type and its length, high octets first, and its data. */
  lemma TagOctets(t: Tag)
    requires TagFits(t)
    ensures PrintTag(t) == [t.kind / 256, t.kind % 256, |t.data| / 256, |t.data| % 256] + t.data
  {
    assert PrintTag(t) == Be16(t.kind) + Be16(|t.data|) + t.data;
  }

  /** The relay tag carries the magic code, the client and the old data, of which up to 28 octets
      fit. */
  lemma RelayTagOctets(tags: seq<Tag>, mac: seq<byte>)
    requires |mac| == 6
    ensures FitsBuffer(tags) <==> |OldData(tags)| <= 28
    ensures FitsBuffer(tags) ==>
              TagFits(RelayTag(tags, mac)) &&
              PrintTag(RelayTag(tags, mac)) == [0x01, 0x10, 0, 8 + |OldData(tags)|, 0x81, 0x86] + mac + OldData(tags)
  {
    if FitsBuffer(tags) {
      var t, d := RelayTag(tags, mac), OldData(tags);
      TagOctets(t);
      assert |t.data| == 8 + |d|;
      assert [0x01, 0x10, 0, 8 + |d|] + ([0x81, 0x86] + mac + d) == [0x01, 0x10, 0, 8 + |d|, 0x81, 0x86] + mac + d;
    }
  }

  /** Which replies are ours, by the first tag of type 0x0110, and whom they are for. */
  lemma OursOctets(tags: seq<Tag>, i: nat)
    requires i <= |tags| && (forall k :: 0 <= k < i ==> tags[k].kind != 0x0110)
    requires i < |tags| ==> tags[i].kind == 0x0110
    ensures Ours(tags) <==> i < |tags| && |tags[i].data| >= 8 && tags[i].data[..2] == [0x81, 0x86]
    ensures Ours(tags) ==> Client(tags) == tags[i].data[2..8]
    ensures OldData(tags) == if i < |tags| then tags[i].data else []
  {
    RelayUnique(tags, i);
  }

  // ----- round trips -----

  /** Whatever tags the server puts around it, a reply that returns the relay tag leads back to
      the client, and stripping leaves just the old tag in its place. */
  lemma ReplyFindsClient(tags: seq<Tag>, mac: seq<byte>, before: seq<Tag>, after: seq<Tag>)
    requires |mac| == MAC_LEN
    requires forall k :: 0 <= k < |before| ==> before[k].kind != RELAY_SID
    ensures var reply := before + [RelayTag(tags, mac)] + after;
            Ours(reply) && Client(reply) == mac && Stripped(reply) == before + OldTag(tags) + after
  {
    var t := RelayTag(tags, mac);
    var reply := before + [t] + after;
    RelayUnique(reply, |before|);
    assert t.data[..2] == Magic && t.data[2..ADDED_LEN] == mac && t.data[ADDED_LEN..] == OldData(tags);
    MiddleSlice(before, [t], after);
    assert KeptPart(t) == OldTag(tags);
  }

  /** A reply that echoes all tags restores them, with an old relay tag that is not empty moved to
      the front. */
  lemma EchoRestores(tags: seq<Tag>, mac: seq<byte>)
    requires |mac| == MAC_LEN
    ensures var reply := Inserted(tags, mac);
            Ours(reply) && Client(reply) == mac && Stripped(reply) == OldTag(tags) + Others(tags)
  {
    ReplyFindsClient(tags, mac, [], Others(tags));
    assert [] + [RelayTag(tags, mac)] + Others(tags) == Inserted(tags, mac);
    NothingBefore(OldTag(tags));
  }

  /** The round trip is exact if and only if there was no relay tag or a first one with data. */
  lemma EchoExact(tags: seq<Tag>, mac: seq<byte>)
    requires |mac| == MAC_LEN
    ensures Ours(Inserted(tags, mac))
    ensures Stripped(Inserted(tags, mac)) == tags <==>
            Relay(tags) == |tags| || (Relay(tags) == 0 && OldData(tags) != [])
  {
    hide Inserted, Stripped, Ours;
    EchoRestores(tags, mac);
    OldFirst(tags);
  }

  lemma OldFirst(tags: seq<Tag>)
    ensures OldTag(tags) + Others(tags) == tags <==>
            Relay(tags) == |tags| || (Relay(tags) == 0 && OldData(tags) != [])
  {
    var i, r := Relay(tags), OldTag(tags) + Others(tags);
    if i == |tags| {
      NothingBefore(tags);
    } else if OldData(tags) == [] {
      assert |r| == |tags| - 1;
    } else if i == 0 {
      HeadTail(tags);
      NothingBefore(tags[1..]);
    } else {
      assert r[0].kind == RELAY_SID;
    }
  }
}
