/** `rtw_parse_wpa2_ie`: the security settings an RSN element announces. A bit mask of cipher or
    AKM types is the set of the types whose bit it has. */
module RsneSettings {
  import opened Elements
  import opened Options
  import opened Rsne
  import opened RsneParse

  datatype Cipher =
    | UseGroup | Wep40 | Tkip | Ccmp | Wep104 | BipCmac128
    | Gcmp | Gcmp256 | Ccmp256 | BipGmac128 | BipGmac256 | BipCmac256

  datatype Akm =
    | Ieee8021x | Psk | Ft8021x | FtPsk | Ieee8021xSha256 | PskSha256 | Tdls | Sae | FtOverSae
    | SuiteB | SuiteB192 | FilsSha256 | FilsSha384 | FtFilsSha256 | FtFilsSha384

  /** The selectors of IEEE 802.11 carry its organisation identifier and a code. */
  function Selector(code: byte): (s: seq<byte>) {
    [0x00, 0x0f, 0xac, code]
  }

  function CipherCode(c: Cipher): (code: byte) {
    match c
    case UseGroup => 0 case Wep40 => 1 case Tkip => 2 case Ccmp => 4 case Wep104 => 5
    case BipCmac128 => 6 case Gcmp => 8 case Gcmp256 => 9 case Ccmp256 => 10
    case BipGmac128 => 11 case BipGmac256 => 12 case BipCmac256 => 13
  }

  function AkmCode(a: Akm): (code: byte) {
    match a
    case Ieee8021x => 1 case Psk => 2 case Ft8021x => 3 case FtPsk => 4 case Ieee8021xSha256 => 5
    case PskSha256 => 6 case Tdls => 7 case Sae => 8 case FtOverSae => 9 case SuiteB => 11
    case SuiteB192 => 12 case FilsSha256 => 14 case FilsSha384 => 15 case FtFilsSha256 => 16
    case FtFilsSha384 => 17
  }

  /** `rtw_get_rsn_cipher_suite` */
  function CipherMask(s: seq<byte>): (m: set<Cipher>)
    requires |s| == SELECTOR_LEN
    ensures forall c :: c in m <==> s == Selector(CipherCode(c))
  {
    if s == Selector(0) then {UseGroup}
    else if s == Selector(1) then {Wep40}
    else if s == Selector(2) then {Tkip}
    else if s == Selector(4) then {Ccmp}
    else if s == Selector(8) then {Gcmp}
    else if s == Selector(9) then {Gcmp256}
    else if s == Selector(10) then {Ccmp256}
    else if s == Selector(5) then {Wep104}
    else if s == Selector(6) then {BipCmac128}
    else if s == Selector(11) then {BipGmac128}
    else if s == Selector(12) then {BipGmac256}
    else if s == Selector(13) then {BipCmac256}
    else {}
  }

  /** `rtw_get_akm_suite_bitmap` */
  function AkmMask(s: seq<byte>): (m: set<Akm>)
    requires |s| == SELECTOR_LEN
    ensures forall a :: a in m <==> s == Selector(AkmCode(a))
  {
    if s == Selector(1) then {Ieee8021x}
    else if s == Selector(2) then {Psk}
    else if s == Selector(3) then {Ft8021x}
    else if s == Selector(4) then {FtPsk}
    else if s == Selector(5) then {Ieee8021xSha256}
    else if s == Selector(6) then {PskSha256}
    else if s == Selector(7) then {Tdls}
    else if s == Selector(8) then {Sae}
    else if s == Selector(9) then {FtOverSae}
    else if s == Selector(11) then {SuiteB}
    else if s == Selector(12) then {SuiteB192}
    else if s == Selector(14) then {FilsSha256}
    else if s == Selector(15) then {FilsSha384}
    else if s == Selector(16) then {FtFilsSha256}
    else if s == Selector(17) then {FtFilsSha384}
    else {}
  }

  /** The cipher suites by their octets. */
  lemma CipherSuites(s: seq<byte>)
    requires |s| == 4
    ensures s[..3] != [0x00, 0x0f, 0xac] ==> CipherMask(s) == {}
    ensures s[..3] == [0x00, 0x0f, 0xac] ==>
              CipherMask(s) == match s[3]
                               case 0 => {UseGroup} case 1 => {Wep40} case 2 => {Tkip} case 4 => {Ccmp}
                               case 5 => {Wep104} case 6 => {BipCmac128} case 8 => {Gcmp} case 9 => {Gcmp256}
                               case 10 => {Ccmp256} case 11 => {BipGmac128} case 12 => {BipGmac256}
                               case 13 => {BipCmac256} case _ => {}
  {
    SelectorOctets(s, s[3]);
    forall c: Cipher {
      SelectorOctets(s, CipherCode(c));
    }
  }

  /** The AKM suites by their octets. */
  lemma AkmSuites(s: seq<byte>)
    requires |s| == 4
    ensures s[..3] != [0x00, 0x0f, 0xac] ==> AkmMask(s) == {}
    ensures s[..3] == [0x00, 0x0f, 0xac] ==>
              AkmMask(s) == match s[3]
                            case 1 => {Ieee8021x} case 2 => {Psk} case 3 => {Ft8021x} case 4 => {FtPsk}
                            case 5 => {Ieee8021xSha256} case 6 => {PskSha256} case 7 => {Tdls} case 8 => {Sae}
                            case 9 => {FtOverSae} case 11 => {SuiteB} case 12 => {SuiteB192}
                            case 14 => {FilsSha256} case 15 => {FilsSha384} case 16 => {FtFilsSha256}
                            case 17 => {FtFilsSha384} case _ => {}
  {
    SelectorOctets(s, s[3]);
    forall a: Akm {
      SelectorOctets(s, AkmCode(a));
    }
  }

  lemma SelectorOctets(s: seq<byte>, code: byte)
    requires |s| == 4
    ensures s == Selector(code) <==> s[..3] == [0x00, 0x0f, 0xac] && s[3] == code
  {
    assert s == s[..3] + [s[3]];
  }

  function SuiteAt(list: seq<byte>, i: nat): (s: seq<byte>)
    requires SELECTOR_LEN * (i + 1) <= |list|
  {
    list[SELECTOR_LEN * i..SELECTOR_LEN * (i + 1)]
  }

  /** Some entry of the list is this selector. */
  ghost predicate Lists(list: seq<byte>, s: seq<byte>) {
    exists i: nat :: SELECTOR_LEN * (i + 1) <= |list| && SuiteAt(list, i) == s
  }

  /** What the method below collects, said for a list of the element. */
  ghost predicate Ciphers(m: set<Cipher>, list: seq<byte>) {
    forall c :: c in m <==> Lists(list, Selector(CipherCode(c)))
  }

  ghost predicate AkmTypes(m: set<Akm>, list: seq<byte>) {
    forall a :: a in m <==> Lists(list, Selector(AkmCode(a)))
  }

  ghost predicate ListsBefore(list: seq<byte>, n: nat, s: seq<byte>)
    requires SELECTOR_LEN * n <= |list|
  {
    exists i: nat :: i < n && SuiteAt(list, i) == s
  }

  lemma ListsOneMore(list: seq<byte>, n: nat, s: seq<byte>)
    requires SELECTOR_LEN * (n + 1) <= |list|
    ensures ListsBefore(list, n + 1, s) <==> ListsBefore(list, n, s) || SuiteAt(list, n) == s
  {
  }

  lemma ListsAll(list: seq<byte>, n: nat, s: seq<byte>)
    requires SELECTOR_LEN * n == |list|
    ensures ListsBefore(list, n, s) <==> Lists(list, s)
  {
  }

  /** The loop over the pairwise cipher list. */
  method CollectCiphers(list: seq<byte>, cnt: nat) returns (m: set<Cipher>)
    requires SELECTOR_LEN * cnt == |list|
    ensures Ciphers(m, list)
  {
    m := {};
    for i := 0 to cnt
      invariant forall c :: c in m <==> ListsBefore(list, i, Selector(CipherCode(c)))
    {
      hide CipherMask, CipherCode, Selector, SuiteAt, ListsBefore;
      forall c {
        ListsOneMore(list, i, Selector(CipherCode(c)));
      }
      m := m + CipherMask(SuiteAt(list, i));
    }
    forall c {
      ListsAll(list, cnt, Selector(CipherCode(c)));
    }
  }

  /** The loop over the AKM list. */
  method CollectAkms(list: seq<byte>, cnt: nat) returns (m: set<Akm>)
    requires SELECTOR_LEN * cnt == |list|
    ensures AkmTypes(m, list)
  {
    m := {};
    for i := 0 to cnt
      invariant forall a :: a in m <==> ListsBefore(list, i, Selector(AkmCode(a)))
    {
      hide AkmMask, AkmCode, Selector, SuiteAt, ListsBefore;
      forall a {
        ListsOneMore(list, i, Selector(AkmCode(a)));
      }
      m := m + AkmMask(SuiteAt(list, i));
    }
    forall a {
      ListsAll(list, cnt, Selector(AkmCode(a)));
    }
  }

  // ----- the fields of an element -----

  function AfterGroupOf(t: Body): AfterGroup {
    if t.Group? then t.more else NoPairwise
  }

  function AfterPairwiseOf(t: Body): AfterPairwise {
    if AfterGroupOf(t).Pairwise? then AfterGroupOf(t).more else NoAkms
  }

  function AfterAkmsOf(t: Body): AfterAkms {
    if AfterPairwiseOf(t).Akms? then AfterPairwiseOf(t).more else NoCap
  }

  function AfterCapOf(t: Body): AfterCap {
    if AfterAkmsOf(t).Capabilities? then AfterAkmsOf(t).more else NoPmkids
  }

  function AfterPmkidsOf(t: Body): AfterPmkids {
    if AfterCapOf(t).Pmkids? then AfterCapOf(t).more else NoGroupMgmt
  }

  /** The pairwise ciphers of an element; none when it stops before them. */
  function PairwiseList(t: Body): (list: seq<byte>) {
    if AfterGroupOf(t).Pairwise? then AfterGroupOf(t).pcs else []
  }

  function AkmList(t: Body): (list: seq<byte>) {
    if AfterPairwiseOf(t).Akms? then AfterPairwiseOf(t).akms else []
  }

  const MFP_NO: nat := 0

  /** Two bits of the RSN capabilities, from the bit worth `scale` on. */
  function CapBits(cap: seq<byte>, scale: nat): (v: nat)
    requires |cap| == 2 && scale > 0
    ensures v < 4
  {
    GetLe16(cap, 0) / scale % 4
  }

  /** Management frame protection is in the two top bits of the first octet, the use of
      protected A-MSDUs in bits 2 and 3 of the second. */
  lemma CapOctets(cap: seq<byte>)
    requires |cap| == 2
    ensures CapBits(cap, 64) == cap[0] / 64 && CapBits(cap, 1024) == cap[1] / 4 % 4
  {
    Bits6(cap[0], cap[1]);
    Bits10(cap[0], cap[1]);
  }

  lemma Bits6(lo: byte, hi: byte)
    ensures (lo as int + 256 * hi as int) / 64 % 4 == lo / 64
  {
    var n, q: int, h: int := lo as int + 256 * hi as int, lo / 64, hi;
    assert n == 64 * (q + 4 * h) + lo % 64;
    assert n / 64 == q + 4 * h;
  }

  lemma Bits10(lo: byte, hi: byte)
    ensures (lo as int + 256 * hi as int) / 1024 % 4 == hi / 4 % 4
  {
    var n, q: int, r: int := lo as int + 256 * hi as int, hi / 4, hi % 4;
    assert n == 1024 * q + (256 * r + lo as int);
    assert n / 1024 == q;
  }

  datatype Settings = Settings(
    group: set<Cipher>, pairwise: set<Cipher>, gmcs: set<Cipher>, akm: set<Akm>, mfp: nat, spp: nat)

  /** The settings say what the element says; absent fields have their defaults. */
  ghost predicate Announced(s: Settings, t: Body)
    requires OkBody(t)
  {
    && s.group == (if t.Group? then CipherMask(t.gcs) else {})
    && Ciphers(s.pairwise, PairwiseList(t))
    && AkmTypes(s.akm, AkmList(t))
    && s.gmcs == (if AfterPmkidsOf(t).GroupMgmt? then CipherMask(AfterPmkidsOf(t).gmcs) else {BipCmac128})
    && s.mfp == (if AfterAkmsOf(t).Capabilities? then CapBits(AfterAkmsOf(t).cap, 64) else MFP_NO)
    && s.spp == (if AfterAkmsOf(t).Capabilities? then CapBits(AfterAkmsOf(t).cap, 1024) else 0)
  }

  // What a pointer of the walk leads to, or the default of an absent field.

  function MaskAt(ie: seq<byte>, p: Pointer, default: set<Cipher>): (m: set<Cipher>)
    requires p.At? ==> p.pos + SELECTOR_LEN <= |ie|
  {
    if p.At? then CipherMask(ie[p.pos..p.pos + SELECTOR_LEN]) else default
  }

  function ListAt(ie: seq<byte>, p: Pointer, cnt: nat): (list: seq<byte>)
    requires p.At? ==> p.pos + SELECTOR_LEN * cnt <= |ie|
    ensures |list| == SELECTOR_LEN * if p.At? then cnt else 0
  {
    if p.At? then ie[p.pos..p.pos + SELECTOR_LEN * cnt] else []
  }

  function BitsAt(ie: seq<byte>, p: Pointer, scale: nat, default: nat): (v: nat)
    requires (p.At? ==> p.pos + 2 <= |ie|) && scale > 0
  {
    if p.At? then CapBits(ie[p.pos..p.pos + 2], scale) else default
  }

  /** `rtw_parse_wpa2_ie` with every result asked for. */
  method ParseWpa2(ie: seq<byte>) returns (ok: bool, s: Settings)
    ensures ok <==> Read(ie).Some?
    ensures ok ==> OkBody(Read(ie).value) && Announced(s, Read(ie).value)
  {
    hide *;
    s := Settings({}, {}, {}, {}, 0, 0);
    var info := ParseInfo(ie);
    ok := !info.err;
    if !ok {
      return;
    }
    ghost var t := Read(ie).value;
    Accepted(ie);
    Inside(ie, info, t);
    var pairwise := CollectCiphers(
      ListAt(ie, info.pcsList, info.pcsCnt), if info.pcsList.At? then info.pcsCnt else 0);
    var akm := CollectAkms(
      ListAt(ie, info.akmList, info.akmCnt), if info.akmList.At? then info.akmCnt else 0);
    s := Settings(
      MaskAt(ie, info.gcs, {}), pairwise, MaskAt(ie, info.gmcs, {BipCmac128}), akm,
      BitsAt(ie, info.cap, 64, MFP_NO), BitsAt(ie, info.cap, 1024, 0));
    Collected(ie, info, t, s);
  }

  lemma Accepted(ie: seq<byte>)
    requires Read(ie).Some?
    ensures OkBody(Read(ie).value)
  {
    ReadInverts(ie, Read(ie).value);
  }

  /** The pointers of a walk lead into the element. */
  lemma Inside(ie: seq<byte>, i: Info, t: Body)
    requires OkBody(t) && Shows(ie, i, t)
    ensures i.gcs.At? ==> i.gcs.pos + SELECTOR_LEN <= |ie|
    ensures i.pcsList.At? ==> i.pcsList.pos + SELECTOR_LEN * i.pcsCnt <= |ie|
    ensures i.akmList.At? ==> i.akmList.pos + SELECTOR_LEN * i.akmCnt <= |ie|
    ensures i.cap.At? ==> i.cap.pos + 2 <= |ie|
    ensures i.gmcs.At? ==> i.gmcs.pos + SELECTOR_LEN <= |ie|
  {
    ShownFields(ie, i, t);
  }

  /** What was collected at the pointers of a walk is what the element announces. */
  lemma Collected(ie: seq<byte>, i: Info, t: Body, s: Settings)
    requires OkBody(t) && Shows(ie, i, t)
    requires i.gcs.At? ==> i.gcs.pos + SELECTOR_LEN <= |ie|
    requires i.pcsList.At? ==> i.pcsList.pos + SELECTOR_LEN * i.pcsCnt <= |ie|
    requires i.akmList.At? ==> i.akmList.pos + SELECTOR_LEN * i.akmCnt <= |ie|
    requires i.cap.At? ==> i.cap.pos + 2 <= |ie|
    requires i.gmcs.At? ==> i.gmcs.pos + SELECTOR_LEN <= |ie|
    requires s.group == MaskAt(ie, i.gcs, {}) && s.gmcs == MaskAt(ie, i.gmcs, {BipCmac128})
    requires Ciphers(s.pairwise, ListAt(ie, i.pcsList, i.pcsCnt)) && AkmTypes(s.akm, ListAt(ie, i.akmList, i.akmCnt))
    requires s.mfp == BitsAt(ie, i.cap, 64, MFP_NO) && s.spp == BitsAt(ie, i.cap, 1024, 0)
    ensures Announced(s, t)
  {
    ShownFields(ie, i, t);
    hide CipherMask, CapBits, Ciphers, AkmTypes, Points, PairwiseList, AkmList, AfterAkmsOf, AfterPmkidsOf;
    assert ListAt(ie, i.pcsList, i.pcsCnt) == PairwiseList(t);
    assert ListAt(ie, i.akmList, i.akmCnt) == AkmList(t);
  }

  /** What the pointers of a walk lead to. */
  lemma ShownFields(ie: seq<byte>, i: Info, t: Body)
    requires OkBody(t) && Shows(ie, i, t)
    ensures if i.gcs.At? then t.Group? && |t.gcs| == SELECTOR_LEN && Points(ie, i.gcs, t.gcs) else !t.Group?
    ensures if i.pcsList.At? then Points(ie, i.pcsList, PairwiseList(t)) && SELECTOR_LEN * i.pcsCnt == |PairwiseList(t)|
            else PairwiseList(t) == []
    ensures if i.akmList.At? then Points(ie, i.akmList, AkmList(t)) && SELECTOR_LEN * i.akmCnt == |AkmList(t)|
            else AkmList(t) == []
    ensures if i.cap.At? then AfterAkmsOf(t).Capabilities? && |AfterAkmsOf(t).cap| == 2
                              && Points(ie, i.cap, AfterAkmsOf(t).cap)
            else !AfterAkmsOf(t).Capabilities?
    ensures if i.gmcs.At? then AfterPmkidsOf(t).GroupMgmt? && |AfterPmkidsOf(t).gmcs| == SELECTOR_LEN
                               && Points(ie, i.gmcs, AfterPmkidsOf(t).gmcs)
            else !AfterPmkidsOf(t).GroupMgmt?
  {
    hide IsList;
  }

  // ----- announcing and reading back -----

  function Selectors(codes: seq<byte>): (list: seq<byte>)
    ensures |list| == SELECTOR_LEN * |codes|
  {
    if codes == [] then [] else Selector(codes[0]) + Selectors(codes[1..])
  }

  lemma {:induction false} SelectorsAt(codes: seq<byte>, i: nat)
    requires i < |codes|
    ensures SuiteAt(Selectors(codes), i) == Selector(codes[i])
  {
    if i > 0 {
      SelectorsAt(codes[1..], i - 1);
      SuiteBehind(Selector(codes[0]), Selectors(codes[1..]), i);
    }
  }

  lemma SuiteBehind(first: seq<byte>, rest: seq<byte>, i: nat)
    requires i > 0 && |first| == SELECTOR_LEN && SELECTOR_LEN * i <= |rest|
    ensures SuiteAt(first + rest, i) == SuiteAt(rest, i - 1)
  {
    var all, n := first + rest, SELECTOR_LEN * i;
    assert all[n] == rest[n - 4] && all[n + 1] == rest[n - 3] && all[n + 2] == rest[n - 2] && all[n + 3] == rest[n - 1];
  }

  function CipherCodes(cs: seq<Cipher>): (codes: seq<byte>) {
    seq(|cs|, i requires 0 <= i < |cs| => CipherCode(cs[i]))
  }

  function AkmCodes(akms: seq<Akm>): (codes: seq<byte>) {
    seq(|akms|, i requires 0 <= i < |akms| => AkmCode(akms[i]))
  }

  lemma SelectorsList(codes: seq<byte>, code: byte)
    ensures Lists(Selectors(codes), Selector(code)) <==> code in codes
  {
    if code in codes {
      var i :| 0 <= i < |codes| && codes[i] == code;
      SelectorsAt(codes, i);
    }
    if Lists(Selectors(codes), Selector(code)) {
      var i: nat :| SELECTOR_LEN * (i + 1) <= |Selectors(codes)| && SuiteAt(Selectors(codes), i) == Selector(code);
      SelectorsAt(codes, i);
      assert Selector(codes[i])[3] == Selector(code)[3];
    }
  }

  lemma CipherListed(cs: seq<Cipher>, c: Cipher)
    ensures Lists(Selectors(CipherCodes(cs)), Selector(CipherCode(c))) <==> c in cs
  {
    hide Lists, Selectors, Selector;
    SelectorsList(CipherCodes(cs), CipherCode(c));
    if c in cs {
      var i :| 0 <= i < |cs| && cs[i] == c;
      assert CipherCodes(cs)[i] == CipherCode(c);
    }
  }

  lemma AkmListed(akms: seq<Akm>, a: Akm)
    ensures Lists(Selectors(AkmCodes(akms)), Selector(AkmCode(a))) <==> a in akms
  {
    hide Lists, Selectors, Selector;
    SelectorsList(AkmCodes(akms), AkmCode(a));
    if a in akms {
      var i :| 0 <= i < |akms| && akms[i] == a;
      assert AkmCodes(akms)[i] == AkmCode(a);
    }
  }

  /** The collected masks of lists made of known selectors are the announced types, no more. */
  lemma CiphersReadBack(cs: seq<Cipher>, m: set<Cipher>)
    ensures Ciphers(m, Selectors(CipherCodes(cs))) <==> m == set c | c in cs
  {
    hide Lists, Selectors, Selector, CipherCode, CipherCodes;
    forall c: Cipher {
      CipherListed(cs, c);
    }
  }

  lemma AkmsReadBack(akms: seq<Akm>, m: set<Akm>)
    ensures AkmTypes(m, Selectors(AkmCodes(akms))) <==> m == set a | a in akms
  {
    hide Lists, Selectors, Selector, AkmCode, AkmCodes;
    forall a: Akm {
      AkmListed(akms, a);
    }
  }

  /** An element announcing lists of ciphers and AKM types is accepted and yields just those. */
  lemma SettingsReadBack(t: Body, cs: seq<Cipher>, akms: seq<Akm>, s: Settings)
    requires Printable(t) && Announced(s, t)
    requires PairwiseList(t) == Selectors(CipherCodes(cs)) && AkmList(t) == Selectors(AkmCodes(akms))
    ensures Read(PrintRsne(t)) == Some(t)
    ensures s.pairwise == (set c | c in cs) && s.akm == (set a | a in akms)
  {
    hide Ciphers, AkmTypes, OkBody, PrintRsne, Read;
    ReadInverts(PrintRsne(t), t);
    CiphersReadBack(cs, s.pairwise);
    AkmsReadBack(akms, s.akm);
  }

  // ----- octet by octet -----

  /** Where the fields of a complete element are: the group cipher at 4, then the lists behind
      their counts, whose low octets come first, with the capabilities after the second. */
  lemma ReadOctets(ie: seq<byte>, q: nat, r: nat, g: nat)
    requires |ie| >= 10 && ie[..4] == [48, |ie| - 2, 1, 0]
    requires q == 10 + 4 * (ie[8] as int + 256 * ie[9] as int) && q + 2 <= |ie|
    requires r == q + 2 + 4 * (ie[q] as int + 256 * ie[q + 1] as int) && r + 4 <= |ie|
    requires g == r + 4 + 16 * (ie[r + 2] as int + 256 * ie[r + 3] as int) && g + 4 <= |ie|
    ensures Read(ie) == Some(Group(ie[4..8], Pairwise(ie[10..q], Akms(ie[q + 2..r], Capabilities(
                          ie[r..r + 2], Pmkids(ie[r + 4..g], GroupMgmt(ie[g..g + 4], ie[g + 4..])))))))
  {
    hide ReadAkms, ReadPairwise;
    Header(ie);
    FromCapabilities(ie, r, g);
    FromAkms(ie, q, r);
    assert ReadGroup(ie, 8) == Some(Pairwise(ie[10..q], ReadPairwise(ie, q).value));
  }

  lemma FromCapabilities(ie: seq<byte>, r: nat, g: nat)
    requires r + 4 <= |ie| && g == r + 4 + 16 * (ie[r + 2] as int + 256 * ie[r + 3] as int) && g + 4 <= |ie|
    ensures ReadAkms(ie, r) == Some(Capabilities(
                                 ie[r..r + 2], Pmkids(ie[r + 4..g], GroupMgmt(ie[g..g + 4], ie[g + 4..]))))
  {
  }

  lemma FromAkms(ie: seq<byte>, q: nat, r: nat)
    requires q + 2 <= |ie| && r == q + 2 + 4 * (ie[q] as int + 256 * ie[q + 1] as int) && r <= |ie|
    requires ReadAkms(ie, r).Some?
    ensures ReadPairwise(ie, q) == Some(Akms(ie[q + 2..r], ReadAkms(ie, r).value))
  {
    hide ReadAkms;
  }

  lemma Header(ie: seq<byte>)
    requires |ie| >= 4 && ie[..4] == [48, |ie| - 2, 1, 0]
    ensures Read(ie) == ReadBody(ie, 4)
  {
    assert ie[0] == ie[..4][0] && ie[1] == ie[..4][1] && ie[2] == ie[..4][2] && ie[3] == ie[..4][3];
  }

  /** The element of a network that protects its frames with CCMP under a pre-shared key. */
  lemma PskCcmp(ie: seq<byte>, s: Settings)
    requires |ie| == 22
    requires ie[..20] == [48, 20, 1, 0, 0x00, 0x0f, 0xac, 4, 1, 0, 0x00, 0x0f, 0xac, 4, 1, 0, 0x00, 0x0f, 0xac, 2]
    ensures Read(ie).Some? && OkBody(Read(ie).value)
    ensures Announced(s, Read(ie).value) <==>
            s == Settings({Ccmp}, {Ccmp}, {BipCmac128}, {Psk}, ie[20] / 64, ie[21] / 4 % 4)
  {
    var ccmp, psk := Selector(CipherCode(Ccmp)), Selector(AkmCode(Psk));
    PskCcmpRead(ie);
    CapOctets(ie[20..]);
    CipherSuites(ccmp);
    hide Ciphers, AkmTypes, CipherMask, CapBits, Read, IsList;
    OneCipher(Ccmp, s.pairwise);
    OneAkm(Psk, s.akm);
  }

  lemma CapabilitiesLast(ie: seq<byte>, r: nat)
    requires r + 2 == |ie|
    ensures ReadAkms(ie, r) == Some(Capabilities(ie[r..r + 2], NoPmkids))
  {
  }

  lemma PskCcmpRead(ie: seq<byte>)
    requires |ie| == 22
    requires ie[..20] == [48, 20, 1, 0, 0x00, 0x0f, 0xac, 4, 1, 0, 0x00, 0x0f, 0xac, 4, 1, 0, 0x00, 0x0f, 0xac, 2]
    ensures var ccmp, psk := Selector(CipherCode(Ccmp)), Selector(AkmCode(Psk));
            var t := Group(ccmp, Pairwise(ccmp, Akms(psk, Capabilities(ie[20..], NoPmkids))));
            Read(ie) == Some(t) && OkBody(t)
  {
    hide ReadAkms, ReadPairwise, Selector;
    PskCcmpOctets(ie);
    Header(ie);
    CapabilitiesLast(ie, 20);
    FromAkms(ie, 14, 20);
    assert ie[20..22] == ie[20..];
  }

  lemma PskCcmpOctets(ie: seq<byte>)
    requires |ie| == 22
    requires ie[..20] == [48, 20, 1, 0, 0x00, 0x0f, 0xac, 4, 1, 0, 0x00, 0x0f, 0xac, 4, 1, 0, 0x00, 0x0f, 0xac, 2]
    ensures ie[..4] == [48, 20, 1, 0] && ie[4..8] == Selector(4)
    ensures ie[8] == 1 && ie[9] == 0 && ie[10..14] == Selector(4)
    ensures ie[14] == 1 && ie[15] == 0 && ie[16..20] == Selector(2)
  {
    var first := ie[..20];
    assert ie[..4] == first[..4] && ie[4..8] == first[4..8];
    assert ie[8] == first[8] && ie[9] == first[9] && ie[10..14] == first[10..14];
    assert ie[14] == first[14] && ie[15] == first[15] && ie[16..20] == first[16..20];
  }

  lemma OneCipher(c: Cipher, m: set<Cipher>)
    ensures Ciphers(m, Selector(CipherCode(c))) <==> m == {c}
  {
    assert Selectors(CipherCodes([c])) == Selector(CipherCode(c));
    CiphersReadBack([c], m);
    assert (set x | x in [c]) == {c};
  }

  lemma OneAkm(a: Akm, m: set<Akm>)
    ensures AkmTypes(m, Selector(AkmCode(a))) <==> m == {a}
  {
    assert Selectors(AkmCodes([a])) == Selector(AkmCode(a));
    AkmsReadBack([a], m);
    assert (set x | x in [a]) == {a};
  }
}
