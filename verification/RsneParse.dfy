/** `rtw_rsne_info_parse` and `rtw_parse_wpa2_ie`: a cursor walks over an RSN element and leaves
    pointers into it, from which the security settings are collected. */
module RsneParse {
  import opened Elements
  import opened Rsne

  /** A pointer into the element. */
  datatype Pointer = Null | At(pos: nat)

  /** `struct rsne_info` */
  datatype Info = Info(
    gcs: Pointer, pcsCnt: nat, pcsList: Pointer, akmCnt: nat, akmList: Pointer,
    cap: Pointer, pmkidCnt: nat, pmkidList: Pointer, gmcs: Pointer, err: bool)

  const Zeroed := Info(Null, 0, Null, 0, Null, Null, 0, Null, Null, false)

  /** The pointer leads to these octets, inside the element. */
  predicate Points(ie: seq<byte>, p: Pointer, s: seq<byte>) {
    p.At? && p.pos + |s| <= |ie| && ie[p.pos..p.pos + |s|] == s
  }

  // What a successful walk leaves behind, field by field.

  predicate ShowsPmkids(ie: seq<byte>, i: Info, t: AfterPmkids) {
    if t.GroupMgmt? then Points(ie, i.gmcs, t.gmcs) else i.gmcs.Null?
  }

  predicate ShowsCap(ie: seq<byte>, i: Info, t: AfterCap) {
    if t.Pmkids? then
      Points(ie, i.pmkidList, t.pmkids) && PMKID_LEN * i.pmkidCnt == |t.pmkids| && ShowsPmkids(ie, i, t.more)
    else i.pmkidList.Null? && i.gmcs.Null?
  }

  predicate ShowsAkms(ie: seq<byte>, i: Info, t: AfterAkms) {
    if t.Capabilities? then Points(ie, i.cap, t.cap) && ShowsCap(ie, i, t.more)
    else i.cap.Null? && i.pmkidList.Null? && i.gmcs.Null?
  }

  predicate ShowsPairwise(ie: seq<byte>, i: Info, t: AfterPairwise) {
    if t.Akms? then
      Points(ie, i.akmList, t.akms) && SELECTOR_LEN * i.akmCnt == |t.akms| && ShowsAkms(ie, i, t.more)
    else i.akmList.Null? && i.cap.Null? && i.pmkidList.Null? && i.gmcs.Null?
  }

  predicate ShowsGroup(ie: seq<byte>, i: Info, t: AfterGroup) {
    if t.Pairwise? then
      Points(ie, i.pcsList, t.pcs) && SELECTOR_LEN * i.pcsCnt == |t.pcs| && ShowsPairwise(ie, i, t.more)
    else i.pcsList.Null? && i.akmList.Null? && i.cap.Null? && i.pmkidList.Null? && i.gmcs.Null?
  }

  predicate Shows(ie: seq<byte>, i: Info, t: Body) {
    if t.Group? then Points(ie, i.gcs, t.gcs) && ShowsGroup(ie, i, t.more)
    else i.gcs.Null? && i.pcsList.Null? && i.akmList.Null? && i.cap.Null? && i.pmkidList.Null? && i.gmcs.Null?
  }

  /** The walk from the capabilities on. */
  method WalkCap(ie: seq<byte>, start: nat, sofar: Info) returns (info: Info)
    requires start <= |ie| && !sofar.err
    requires sofar.cap.Null? && sofar.pmkidList.Null? && sofar.gmcs.Null?
    ensures info == sofar.(cap := info.cap, pmkidCnt := info.pmkidCnt, pmkidList := info.pmkidList,
                           gmcs := info.gmcs, err := info.err)
    ensures info.err <==> ReadAkms(ie, start).None?
    ensures !info.err ==> ShowsAkms(ie, info, ReadAkms(ie, start).value)
  {
    hide GetLe16;
    info := sofar;
    var pos := start;
    if |ie| < pos + 2 {
      return info.(err := |ie| != pos);
    }
    info := info.(cap := At(pos));
    pos := pos + 2;

    if |ie| < pos + 2 {
      return info.(err := |ie| != pos);
    }
    var cnt := GetLe16(ie, pos);
    pos := pos + 2;
    if |ie| < pos + 16 * cnt {
      return info.(err := true);
    }
    info := info.(pmkidCnt := cnt, pmkidList := At(pos));
    pos := pos + 16 * cnt;

    if |ie| < pos + 4 {
      return info.(err := |ie| != pos);
    }
    info := info.(gmcs := At(pos));
  }

  /** The walk from the AKM count on. */
  method WalkAkms(ie: seq<byte>, start: nat, sofar: Info) returns (info: Info)
    requires start <= |ie|
    requires sofar == Zeroed.(gcs := sofar.gcs, pcsCnt := sofar.pcsCnt, pcsList := sofar.pcsList)
    ensures info.gcs == sofar.gcs && info.pcsCnt == sofar.pcsCnt && info.pcsList == sofar.pcsList
    ensures info.err <==> ReadPairwise(ie, start).None?
    ensures !info.err ==> ShowsPairwise(ie, info, ReadPairwise(ie, start).value)
  {
    hide GetLe16, ReadAkms, ShowsAkms;
    info := sofar;
    var pos := start;
    if |ie| < pos + 2 {
      return info.(err := |ie| != pos);
    }
    var cnt := GetLe16(ie, pos);
    pos := pos + 2;
    if |ie| < pos + 4 * cnt {
      return info.(err := |ie| != pos);
    }
    info := info.(akmCnt := cnt, akmList := At(pos));
    pos := pos + 4 * cnt;
    info := WalkCap(ie, pos, info);
  }

  /** `rtw_rsne_info_parse`: it fails exactly on what is not an RSN element of the grammar, and
      else every pointer leads to its field, inside the element. */
  method ParseInfo(ie: seq<byte>) returns (info: Info)
    ensures info.err <==> Read(ie).None?
    ensures !info.err ==> Shows(ie, info, Read(ie).value)
  {
    hide GetLe16, ReadPairwise, ShowsPairwise;
    info := Zeroed;
    if |ie| < 4 {
      return info.(err := true);
    }
    if ie[0] != EID_RSN || ie[1] != |ie| - 2 || GetLe16(ie, 2) != 1 {
      return info.(err := true);
    }
    var pos := 4;

    if |ie| < pos + 4 {
      return info.(err := |ie| != pos);
    }
    info := info.(gcs := At(pos));
    pos := pos + 4;

    if |ie| < pos + 2 {
      return info.(err := |ie| != pos);
    }
    var cnt := GetLe16(ie, pos);
    pos := pos + 2;
    if |ie| < pos + 4 * cnt {
      return info.(err := |ie| != pos);
    }
    info := info.(pcsCnt := cnt, pcsList := At(pos));
    pos := pos + 4 * cnt;
    info := WalkAkms(ie, pos, info);
  }
}
