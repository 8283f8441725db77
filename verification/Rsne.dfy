/** The grammar of RSN elements as core/rtw_ieee80211.c reads them: every field after the
    version is optional, but only the last ones present may be missing. */
module Rsne {
  import opened Elements
  import opened Options

  const EID_RSN: byte := 48
  const SELECTOR_LEN := 4
  const PMKID_LEN := 16

  // Each datatype says what follows a field. A `Cut` is a count whose list is missing
  // altogether, which the reader accepts as if the count were missing too.
  datatype AfterPmkids = NoGroupMgmt | GroupMgmt(gmcs: seq<byte>, trailing: seq<byte>)
  datatype AfterCap = NoPmkids | Pmkids(pmkids: seq<byte>, more: AfterPmkids)
  datatype AfterAkms = NoCap | Capabilities(cap: seq<byte>, more: AfterCap)
  datatype AfterPairwise = NoAkms | AkmsCut(cnt: nat) | Akms(akms: seq<byte>, more: AfterAkms)
  datatype AfterGroup = NoPairwise | PairwiseCut(cnt: nat) | Pairwise(pcs: seq<byte>, more: AfterPairwise)
  datatype Body = NoGroup | Group(gcs: seq<byte>, more: AfterGroup)

  // ----- printing -----

  function Le16(n: nat): (s: seq<byte>)
    requires n < 0x10000
  {
    [n % 256, n / 256]
  }

  /** A count and its list of `unit`-octet entries. */
  function Counted(list: seq<byte>, unit: nat): (s: seq<byte>)
    requires IsList(list, unit)
    ensures |s| == |list| + 2
  {
    Le16(|list| / unit) + list
  }

  predicate IsList(list: seq<byte>, unit: nat) {
    unit > 0 && |list| % unit == 0 && |list| / unit < 0x10000
  }

  predicate Cut(cnt: nat) {
    0 < cnt < 0x10000
  }

  predicate OkPmkids(t: AfterPmkids) {
    t.GroupMgmt? ==> |t.gmcs| == SELECTOR_LEN
  }

  predicate OkCap(t: AfterCap) {
    t.Pmkids? ==> IsList(t.pmkids, PMKID_LEN) && OkPmkids(t.more)
  }

  predicate OkAkms(t: AfterAkms) {
    t.Capabilities? ==> |t.cap| == 2 && OkCap(t.more)
  }

  predicate OkPairwise(t: AfterPairwise) {
    match t
    case NoAkms => true
    case AkmsCut(cnt) => Cut(cnt)
    case Akms(akms, more) => IsList(akms, SELECTOR_LEN) && OkAkms(more)
  }

  predicate OkGroup(t: AfterGroup) {
    match t
    case NoPairwise => true
    case PairwiseCut(cnt) => Cut(cnt)
    case Pairwise(pcs, more) => IsList(pcs, SELECTOR_LEN) && OkPairwise(more)
  }

  predicate OkBody(t: Body) {
    t.Group? ==> |t.gcs| == SELECTOR_LEN && OkGroup(t.more)
  }

  function PrintPmkids(t: AfterPmkids): (s: seq<byte>) {
    match t
    case NoGroupMgmt => []
    case GroupMgmt(gmcs, trailing) => gmcs + trailing
  }

  function PrintCap(t: AfterCap): (s: seq<byte>)
    requires OkCap(t)
  {
    match t
    case NoPmkids => []
    case Pmkids(pmkids, more) => Counted(pmkids, PMKID_LEN) + PrintPmkids(more)
  }

  function PrintAkms(t: AfterAkms): (s: seq<byte>)
    requires OkAkms(t)
  {
    match t
    case NoCap => []
    case Capabilities(cap, more) => cap + PrintCap(more)
  }

  function PrintPairwise(t: AfterPairwise): (s: seq<byte>)
    requires OkPairwise(t)
  {
    match t
    case NoAkms => []
    case AkmsCut(cnt) => Le16(cnt)
    case Akms(akms, more) => Counted(akms, SELECTOR_LEN) + PrintAkms(more)
  }

  function PrintGroup(t: AfterGroup): (s: seq<byte>)
    requires OkGroup(t)
  {
    match t
    case NoPairwise => []
    case PairwiseCut(cnt) => Le16(cnt)
    case Pairwise(pcs, more) => Counted(pcs, SELECTOR_LEN) + PrintPairwise(more)
  }

  function PrintBody(t: Body): (s: seq<byte>)
    requires OkBody(t)
  {
    match t
    case NoGroup => []
    case Group(gcs, more) => gcs + PrintGroup(more)
  }

  /** An RSN element of version 1. */
  predicate Printable(t: Body) {
    OkBody(t) && |PrintBody(t)| <= 253
  }

  function PrintRsne(t: Body): (s: seq<byte>)
    requires Printable(t)
  {
    [EID_RSN, |PrintBody(t)| + 2] + Le16(1) + PrintBody(t)
  }

  // ----- reading at a position -----

  function GetLe16(ie: seq<byte>, pos: nat): (n: nat)
    requires pos + 2 <= |ie|
    ensures n < 0x10000
  {
    var lo: int, hi: int := ie[pos], ie[pos + 1];
    lo + 256 * hi
  }

  function ReadPmkids(ie: seq<byte>, pos: nat): (r: Option<AfterPmkids>)
    requires pos <= |ie|
  {
    if |ie| < pos + SELECTOR_LEN then (if |ie| == pos then Some(NoGroupMgmt) else None)
    else Some(GroupMgmt(ie[pos..pos + SELECTOR_LEN], ie[pos + SELECTOR_LEN..]))
  }

  function ReadCap(ie: seq<byte>, pos: nat): (r: Option<AfterCap>)
    requires pos <= |ie|
  {
    if |ie| < pos + 2 then (if |ie| == pos then Some(NoPmkids) else None) else
    var end := pos + 2 + PMKID_LEN * GetLe16(ie, pos);
    if |ie| < end then None else
    var more := ReadPmkids(ie, end);
    if more.None? then None else Some(Pmkids(ie[pos + 2..end], more.value))
  }

  function ReadAkms(ie: seq<byte>, pos: nat): (r: Option<AfterAkms>)
    requires pos <= |ie|
  {
    if |ie| < pos + 2 then (if |ie| == pos then Some(NoCap) else None) else
    var more := ReadCap(ie, pos + 2);
    if more.None? then None else Some(Capabilities(ie[pos..pos + 2], more.value))
  }

  function ReadPairwise(ie: seq<byte>, pos: nat): (r: Option<AfterPairwise>)
    requires pos <= |ie|
  {
    if |ie| < pos + 2 then (if |ie| == pos then Some(NoAkms) else None) else
    var end := pos + 2 + SELECTOR_LEN * GetLe16(ie, pos);
    if |ie| < end then (if |ie| == pos + 2 then Some(AkmsCut(GetLe16(ie, pos))) else None) else
    var more := ReadAkms(ie, end);
    if more.None? then None else Some(Akms(ie[pos + 2..end], more.value))
  }

  function ReadGroup(ie: seq<byte>, pos: nat): (r: Option<AfterGroup>)
    requires pos <= |ie|
  {
    if |ie| < pos + 2 then (if |ie| == pos then Some(NoPairwise) else None) else
    var end := pos + 2 + SELECTOR_LEN * GetLe16(ie, pos);
    if |ie| < end then (if |ie| == pos + 2 then Some(PairwiseCut(GetLe16(ie, pos))) else None) else
    var more := ReadPairwise(ie, end);
    if more.None? then None else Some(Pairwise(ie[pos + 2..end], more.value))
  }

  function ReadBody(ie: seq<byte>, pos: nat): (r: Option<Body>)
    requires pos <= |ie|
  {
    if |ie| < pos + SELECTOR_LEN then (if |ie| == pos then Some(NoGroup) else None) else
    var more := ReadGroup(ie, pos + SELECTOR_LEN);
    if more.None? then None else Some(Group(ie[pos..pos + SELECTOR_LEN], more.value))
  }

  /** `rtw_rsne_info_parse`, as what it accepts. */
  function Read(ie: seq<byte>): (r: Option<Body>) {
    if |ie| < 4 || ie[0] != EID_RSN || ie[1] != |ie| - 2 || GetLe16(ie, 2) != 1 then None
    else ReadBody(ie, 4)
  }

  // ----- reading inverts printing -----

  lemma Le16Inverse(ie: seq<byte>, pos: nat, n: nat)
    requires pos + 2 <= |ie| && n < 0x10000
    ensures GetLe16(ie, pos) == n <==> ie[pos..pos + 2] == Le16(n)
  {
    assert ie[pos..pos + 2] == [ie[pos], ie[pos + 1]];
  }

  /** What is left of an element at a position, split in two. */
  lemma Peel(ie: seq<byte>, pos: nat, a: seq<byte>, b: seq<byte>)
    requires pos <= |ie|
    ensures ie[pos..] == a + b <==>
            pos + |a| <= |ie| && ie[pos..pos + |a|] == a && ie[pos + |a|..] == b
  {
    if pos + |a| <= |ie| {
      assert ie[pos..] == ie[pos..pos + |a|] + ie[pos + |a|..];
      if ie[pos..] == a + b {
        assert ie[pos..pos + |a|] == (a + b)[..|a|] == a;
        assert ie[pos + |a|..] == (a + b)[|a|..] == b;
      }
    }
  }

  /** A count and its list, read at a position. */
  lemma CountedAt(ie: seq<byte>, pos: nat, unit: nat, list: seq<byte>, rest: seq<byte>)
    requires pos + 2 <= |ie| && (unit == SELECTOR_LEN || unit == PMKID_LEN)
    ensures var end := pos + 2 + unit * GetLe16(ie, pos);
            end <= |ie| && ie[pos + 2..end] == list && ie[end..] == rest <==>
            IsList(list, unit) && ie[pos..] == Counted(list, unit) + rest
  {
    hide IsList, Counted, Le16, GetLe16;
    var cnt := GetLe16(ie, pos);
    var end := pos + 2 + unit * cnt;
    if end <= |ie| && ie[pos + 2..end] == list {
      Times(unit, cnt);
      ListLen(list, unit, cnt);
    }
    if IsList(list, unit) {
      CountedIs(list, unit, rest);
      Le16Inverse(ie, pos, |list| / unit);
      Peel(ie, pos, Le16(|list| / unit), list + rest);
      Peel(ie, pos + 2, list, rest);
    }
  }

  lemma ListLen(list: seq<byte>, unit: nat, cnt: nat)
    requires unit > 0 && cnt < 0x10000 && |list| == unit * cnt && (unit * cnt) % unit == 0 && (unit * cnt) / unit == cnt
    ensures IsList(list, unit)
  {
  }

  lemma CountedIs(list: seq<byte>, unit: nat, rest: seq<byte>)
    requires IsList(list, unit)
    ensures |list| / unit < 0x10000 && unit * (|list| / unit) == |list|
    ensures Counted(list, unit) + rest == Le16(|list| / unit) + (list + rest)
    ensures |Le16(|list| / unit)| == 2
  {
    Divided(list, unit);
  }

  lemma Times(unit: nat, n: nat)
    requires unit == SELECTOR_LEN || unit == PMKID_LEN
    ensures (unit * n) % unit == 0 && (unit * n) / unit == n
  {
    assert (4 * n) % 4 == 0 && (4 * n) / 4 == n;
    assert (16 * n) % 16 == 0 && (16 * n) / 16 == n;
  }

  lemma Divided(list: seq<byte>, unit: nat)
    requires IsList(list, unit)
    ensures unit * (|list| / unit) == |list|
  {
  }

  lemma PmkidsInverse(ie: seq<byte>, pos: nat, t: AfterPmkids)
    requires pos <= |ie|
    ensures ReadPmkids(ie, pos) == Some(t) <==> OkPmkids(t) && ie[pos..] == PrintPmkids(t)
  {
    if t.GroupMgmt? {
      Peel(ie, pos, t.gmcs, t.trailing);
    }
  }

  lemma CapInverse(ie: seq<byte>, pos: nat, t: AfterCap)
    requires pos <= |ie|
    ensures ReadCap(ie, pos) == Some(t) <==> OkCap(t) && ie[pos..] == PrintCap(t)
  {
    if t.Pmkids? && pos + 2 <= |ie| {
      CountedAt(ie, pos, PMKID_LEN, t.pmkids, PrintPmkids(t.more));
      var end := pos + 2 + PMKID_LEN * GetLe16(ie, pos);
      if end <= |ie| {
        PmkidsInverse(ie, end, t.more);
      }
    }
  }

  lemma AkmsInverse(ie: seq<byte>, pos: nat, t: AfterAkms)
    requires pos <= |ie|
    ensures ReadAkms(ie, pos) == Some(t) <==> OkAkms(t) && ie[pos..] == PrintAkms(t)
  {
    if t.Capabilities? && OkAkms(t) {
      Peel(ie, pos, t.cap, PrintCap(t.more));
    }
    if t.Capabilities? && pos + 2 <= |ie| {
      CapInverse(ie, pos + 2, t.more);
      if OkCap(t.more) {
        Peel(ie, pos, ie[pos..pos + 2], PrintCap(t.more));
      }
    }
  }

  lemma CutAt(ie: seq<byte>, pos: nat, cnt: nat)
    requires pos <= |ie|
    ensures |ie| == pos + 2 && GetLe16(ie, pos) == cnt <==> cnt < 0x10000 && ie[pos..] == Le16(cnt)
  {
    if |ie| == pos + 2 {
      if cnt < 0x10000 {
        Le16Inverse(ie, pos, cnt);
      }
      assert ie[pos..] == ie[pos..pos + 2];
    }
  }

  lemma PairwiseInverse(ie: seq<byte>, pos: nat, t: AfterPairwise)
    requires pos <= |ie|
    ensures ReadPairwise(ie, pos) == Some(t) <==> OkPairwise(t) && ie[pos..] == PrintPairwise(t)
  {
    hide ReadAkms, OkAkms, PrintAkms, GetLe16, Le16, Counted, IsList;
    match t
    case NoAkms =>
    case AkmsCut(cnt) =>
      CutAt(ie, pos, cnt);
    case Akms(akms, more) =>
      if pos + 2 <= |ie| {
        var end := pos + 2 + SELECTOR_LEN * GetLe16(ie, pos);
        if end <= |ie| {
          AkmsInverse(ie, end, more);
        }
        if OkAkms(more) {
          CountedAt(ie, pos, SELECTOR_LEN, akms, PrintAkms(more));
        }
      }
  }

  lemma GroupInverse(ie: seq<byte>, pos: nat, t: AfterGroup)
    requires pos <= |ie|
    ensures ReadGroup(ie, pos) == Some(t) <==> OkGroup(t) && ie[pos..] == PrintGroup(t)
  {
    hide ReadPairwise, OkPairwise, PrintPairwise, GetLe16, Le16, Counted, IsList;
    match t
    case NoPairwise =>
    case PairwiseCut(cnt) =>
      CutAt(ie, pos, cnt);
    case Pairwise(pcs, more) =>
      if pos + 2 <= |ie| {
        var end := pos + 2 + SELECTOR_LEN * GetLe16(ie, pos);
        if end <= |ie| {
          PairwiseInverse(ie, end, more);
        }
        if OkPairwise(more) {
          CountedAt(ie, pos, SELECTOR_LEN, pcs, PrintPairwise(more));
        }
      }
  }

  lemma BodyInverse(ie: seq<byte>, pos: nat, t: Body)
    requires pos <= |ie|
    ensures ReadBody(ie, pos) == Some(t) <==> OkBody(t) && ie[pos..] == PrintBody(t)
  {
    hide ReadGroup, OkGroup, PrintGroup;
    if t.Group? && OkBody(t) {
      Peel(ie, pos, t.gcs, PrintGroup(t.more));
    }
    if t.Group? && pos + SELECTOR_LEN <= |ie| {
      GroupInverse(ie, pos + SELECTOR_LEN, t.more);
    }
  }

  /** The parser accepts exactly the printed elements, complete or cut off at a boundary between
      optional fields, and reads back what was printed. */
  lemma ReadInverts(ie: seq<byte>, t: Body)
    ensures Read(ie) == Some(t) <==> Printable(t) && ie == PrintRsne(t)
  {
    hide ReadBody, OkBody, PrintBody;
    if Printable(t) && ie == PrintRsne(t) {
      Le16Inverse(ie, 2, 1);
      assert ie[2..4] == Le16(1);
      assert ie[4..] == PrintBody(t);
      BodyInverse(ie, 4, t);
    }
    if Read(ie) == Some(t) {
      Le16Inverse(ie, 2, 1);
      BodyInverse(ie, 4, t);
      assert ie == [ie[0], ie[1]] + ie[2..4] + ie[4..];
    }
  }
}
