/** The channel setting in place: `rtw_ap_update_bss_chbw` on the octets of a BSS, and
    `rtw_ies_get_chbw` on octets. */
module ChannelElements {
  import opened ChannelWidths
  import opened Sequences
  import opened Elements
  import opened Memory
  import opened ChannelSetting

  /** Writing the octets of one body. */
  method WriteBody(ies: array<byte>, at: nat, n: nat, e: Edit)
    requires 1 <= n && EditSize(e) <= n && at + n <= ies.Length
    modifies ies
    ensures ies[..at] == old(ies[..at]) && ies[at + n..] == old(ies[at + n..])
    ensures ies[at..at + n] == ApplyEdit(e, old(ies[at..at + n]))
  {
    hide SetBit1, SetBit2, SetBit5, SetBit6, SetLow2;
    match e
    case EditDs(ch) =>
      ies[at] := ch;
    case EditVhtCap(on) =>
      ies[at] := SetBit6(ies[at], false);
      ies[at] := SetBit5(ies[at], on);
    case EditVhtOp(bw, centre) =>
      if bw < WIDTH_80 {
        ies[at], ies[at + 1], ies[at + 2] := 0, 0, 0;
      } else if bw == WIDTH_80 {
        ies[at], ies[at + 1], ies[at + 2] := 1, centre, 0;
      }
    case EditHtCap(wide, gi40, gi20) =>
      ies[at] := SetBit1(ies[at], wide);
      ies[at] := SetBit6(ies[at], gi40);
      ies[at] := SetBit5(ies[at], gi20);
    case EditHtOp(ch, offset, wide) =>
      ies[at] := ch;
      ies[at + 1] := SetLow2(ies[at + 1], SecondChannel(offset));
      ies[at + 1] := SetBit2(ies[at + 1], wide);
  }

  /** Replacing a body by one of the same length replaces its octets. */
  lemma ReplaceBody(es: seq<Element>, k: nat, body: seq<byte>)
    requires AllFit(es) && k < |es| && |body| == |es[k].body|
    ensures var r := es[k := Element(es[k].id, body)];
            && AllFit(r)
            && PrintAll(r) == PrintAll(es[..k]) + [es[k].id, |body|] + body + PrintAll(es[k + 1..])
  {
    var e' := Element(es[k].id, body);
    var r := es[k := e'];
    assert r[..k] == es[..k] && r[k + 1..] == es[k + 1..];
    PrintAround(r, k);
    hide PrintAll;
    Assoc(PrintAll(es[..k]), [es[k].id, |body|], body);
  }

  /** Where the body of element `k` lies. */
  lemma BodySlices(s: seq<byte>, k: nat)
    requires WellFormed(s) && k < |Parse(s)|
    ensures var es := Parse(s);
            var q, n := Offset(es, k) + 2, |es[k].body|;
            && q + n <= |s| && s[q..q + n] == es[k].body
            && s[..q] == PrintAll(es[..k]) + [es[k].id, n] && s[q + n..] == PrintAll(es[k + 1..])
  {
    hide WellFormed, Parse, PrintAll;
    var es := Parse(s);
    var n: byte := |es[k].body|;
    PrintParse(s);
    PrintAround(es, k);
    var a, h, b, c := PrintAll(es[..k]), [es[k].id, n], es[k].body, PrintAll(es[k + 1..]);
    Assoc(a, h, b);
    MiddleSlice(a + h, b, c);
  }

  /** `rtw_get_ie` for the identifier of an edit, and the writes into the body it finds. */
  method EditFirst(ies: array<byte>, from: nat, to: nat, e: Edit)
    requires from <= to <= ies.Length && WellFormed(ies[from..to]) && Ready(Parse(ies[from..to]))
    modifies ies
    ensures ies[..from] == old(ies[..from]) && ies[to..] == old(ies[to..])
    ensures WellFormed(ies[from..to]) && Parse(ies[from..to]) == Update(Parse(old(ies[from..to])), e)
  {
    hide WellFormed, Parse, PrintAll, First, Ready, ApplyEdit;
    ghost var s := ies[from..to];
    ghost var es := Parse(s);
    ReadyKept(es, e);
    EditBody(es, e);
    var p, n := GetIe(ies[from..to], EditId(e));
    if p >= 0 && n > 0 {
      ghost var k := First(es, Pattern(EditId(e), []));
      BodySlices(s, k);
      ghost var buf := ies[..];
      var at := from + p + 2;
      InnerSlice(buf, from, to, p + 2, n);
      WriteBody(ies, at, n, e);
      ReplaceBody(es, k, ApplyEdit(e, es[k].body));
      Glue(buf, ies[..], from, to, p + 2, n);
      ParsePrint(Update(es, e));
    }
  }

  /** What `UpdateFirst` does, by cases. */
  lemma EditBody(es: seq<Element>, e: Edit)
    requires Ready(es)
    ensures Editable(es, e)
    ensures var k := First(es, Pattern(EditId(e), []));
            && k <= |es|
            && (k == |es| ==> Update(es, e) == es)
            && (k < |es| ==> BodyOf(es, EditId(e)) == es[k].body
                             && (es[k].body == [] || EditSize(e) <= |es[k].body|)
                             && |ApplyEdit(e, es[k].body)| == |es[k].body|
                             && Update(es, e) == es[k := Element(es[k].id, ApplyEdit(e, es[k].body))])
            && (k < |es| && es[k].body == [] ==> Update(es, e) == es)
  {
    ReadyKept(es, e);
  }

  lemma InnerSlice(buf: seq<byte>, from: nat, to: nat, q: nat, n: nat)
    requires from <= to <= |buf| && q + n <= to - from
    ensures buf[from + q..from + q + n] == buf[from..to][q..q + n]
  {
    SliceOfSlice(buf, from, to, q, q + n);
  }

  /** A buffer that changed only in the `n` octets at `q` of the part from `from` to `to`. */
  lemma Glue(buf: seq<byte>, buf': seq<byte>, from: nat, to: nat, q: nat, n: nat)
    requires |buf'| == |buf| && from <= to <= |buf| && q + n <= to - from
    requires buf'[..from + q] == buf[..from + q] && buf'[from + q + n..] == buf[from + q + n..]
    ensures buf'[..from] == buf[..from] && buf'[to..] == buf[to..]
    ensures var s := buf[from..to];
            buf'[from..to] == s[..q] + buf'[from + q..from + q + n] + s[q + n..]
  {
    var p := from + q;
    SliceOfSlice(buf, 0, p, 0, from);
    SliceOfSlice(buf', 0, p, 0, from);
    DropDrop(buf, p + n, to - (p + n));
    DropDrop(buf', p + n, to - (p + n));
    GlueInside(buf, buf', from, to, q, n);
  }

  lemma GlueInside(buf: seq<byte>, buf': seq<byte>, from: nat, to: nat, q: nat, n: nat)
    requires |buf'| == |buf| && from <= to <= |buf| && q + n <= to - from
    requires buf'[..from + q] == buf[..from + q] && buf'[from + q + n..] == buf[from + q + n..]
    ensures var s := buf[from..to];
            buf'[from..to] == s[..q] + buf'[from + q..from + q + n] + s[q + n..]
  {
    var s, s', p := buf[from..to], buf'[from..to], from + q;
    ThreeParts(s', q, q + n);
    SliceOfSlice(buf', from, to, q, q + n);
    SliceOfSlice(buf, from, to, 0, q);
    SliceOfSlice(buf', from, to, 0, q);
    SliceOfSlice(buf, 0, p, from, p);
    SliceOfSlice(buf', 0, p, from, p);
    SliceOfSlice(buf, from, to, q + n, to - from);
    SliceOfSlice(buf', from, to, q + n, to - from);
    SliceOfSlice(buf, p + n, |buf|, 0, to - (p + n));
    SliceOfSlice(buf', p + n, |buf|, 0, to - (p + n));
  }

  /** The channels are in different bands. */
  predicate ChangesBand(oldCh: byte, ch: byte) {
    (ch <= 14 && oldCh >= 36) || (ch >= 36 && oldCh <= 14)
  }

  /** `rtw_ap_update_bss_chbw`: the new `DSConfig` and `IELength`, and the elements after the fixed
      fields, in place. `band` is what `change_band_update_ie` makes of the elements if the band
      changes, and `cfg` the configuration after that. */
  method UpdateBssChbw(ies: array<byte>, fixed: nat, ieLength: nat, oldCh: byte, s: Setting, cfg: Config,
                       band: seq<byte>)
    returns (dsConfig: byte, newLength: nat)
    requires fixed <= ieLength <= ies.Length
    requires WellFormed(ies[fixed..ieLength]) && Ready(Parse(ies[fixed..ieLength]))
    requires ChangesBand(oldCh, s.ch) ==> fixed + |band| <= ies.Length && WellFormed(band) && Ready(Parse(band))
    modifies ies
    ensures dsConfig == s.ch && fixed <= newLength <= ies.Length
    ensures ies[..fixed] == old(ies[..fixed]) && WellFormed(ies[fixed..newLength])
    ensures (s.ch <= 14 && oldCh < 36) || (s.ch >= 36 && oldCh > 14) || 14 < s.ch < 36 ==>
              && newLength == ieLength && ies[ieLength..] == old(ies[ieLength..])
              && Parse(ies[fixed..ieLength]) == Write(Parse(old(ies[fixed..ieLength])), s, cfg)
    ensures (s.ch <= 14 && oldCh >= 36) || (s.ch >= 36 && oldCh <= 14) ==>
              newLength == fixed + |band| && Parse(ies[fixed..newLength]) == WriteWidth(Parse(band), s, cfg)
  {
    hide WellFormed, Parse, Ready, Update, WriteWidth;
    EditFirst(ies, fixed, ieLength, EditDs(s.ch));
    dsConfig, newLength := s.ch, ieLength;
    if ChangesBand(oldCh, s.ch) {
      ghost var buf := ies[..];
      MemCpy(ies, fixed, band);
      newLength := fixed + |band|;
      CopiedAt(buf, fixed, band);
    }
    WriteWidths(ies, fixed, newLength, s, cfg);
  }

  lemma CopiedAt(buf: seq<byte>, at: nat, src: seq<byte>)
    requires at + |src| <= |buf|
    ensures Copied(buf, at, src)[..at] == buf[..at] && Copied(buf, at, src)[at..at + |src|] == src
  {
  }

  /** The part that writes the VHT and HT elements. */
  method WriteWidths(ies: array<byte>, fixed: nat, ieLength: nat, s: Setting, cfg: Config)
    requires fixed <= ieLength <= ies.Length
    requires WellFormed(ies[fixed..ieLength]) && Ready(Parse(ies[fixed..ieLength]))
    modifies ies
    ensures ies[..fixed] == old(ies[..fixed]) && ies[ieLength..] == old(ies[ieLength..])
    ensures WellFormed(ies[fixed..ieLength])
    ensures Parse(ies[fixed..ieLength]) == WriteWidth(Parse(old(ies[fixed..ieLength])), s, cfg)
  {
    hide WellFormed, Parse, Ready, Update;
    if cfg.vhtOption {
      EditFirst(ies, fixed, ieLength, EditVhtCap(s.bw >= WIDTH_80 && cfg.sgi80));
      EditFirst(ies, fixed, ieLength, EditVhtOp(s.bw, cfg.centre));
    }
    EditFirst(ies, fixed, ieLength, EditHtCap(s.bw >= WIDTH_40, s.bw >= WIDTH_40 && cfg.sgi40, cfg.sgi20));
    EditFirst(ies, fixed, ieLength, EditHtOp(s.ch, s.offset, s.bw >= WIDTH_40));
  }

  /** The body that `rtw_get_ie` finds. */
  method FindBody(ies: seq<byte>, id: byte) returns (body: seq<byte>)
    requires WellFormed(ies)
    ensures body == BodyOf(Parse(ies), id)
  {
    hide WellFormed, Parse, First;
    var p, n := GetIe(ies, id);
    body := [];
    FirstBound(Parse(ies), Pattern(id, []));
    if p >= 0 {
      BodySlices(ies, First(Parse(ies), Pattern(id, [])));
      body := ies[p + 2..p + 2 + n];
    }
  }

  /** `rtw_ies_get_chbw` */
  method GetChbw(ies: seq<byte>, ht: bool, vht: bool) returns (ch: byte, bw: byte, offset: byte)
    requires WellFormed(ies) && Ready(Parse(ies))
    ensures Setting(ch, bw, offset) == Read(Parse(ies), ht, vht)
  {
    hide WellFormed, Parse, BodyOf, Bit1, Bit2, Low2;
    ch, bw, offset := 0, WIDTH_20, OFFSET_DONT_CARE;
    var ds := FindBody(ies, DSSET);
    if |ds| > 0 {
      ch := ds[0];
    }
    if ht || vht {
      var cap := FindBody(ies, HT_CAPABILITY);
      if |cap| > 0 && Bit1(cap[0]) {
        bw := WIDTH_40;
      }
      var op := FindBody(ies, HT_OPERATION);
      if |op| > 0 {
        if ch == 0 {
          ch := op[0];
        }
        if !Bit2(op[1]) {
          bw := WIDTH_20;
        }
        if bw == WIDTH_40 {
          if Low2(op[1]) == SCA {
            offset := OFFSET_LOWER;
          } else if Low2(op[1]) == SCB {
            offset := OFFSET_UPPER;
          }
        }
      }
      if vht {
        var vop := FindBody(ies, VHT_OPERATION);
        if |vop| > 0 && vop[0] >= 1 {
          bw := WIDTH_80;
        }
      }
    }
  }
}
