/** Writing the channel, bandwidth and secondary channel offset into the elements of a BSS
    (`rtw_ap_update_bss_chbw`) and reading them back (`rtw_ies_get_chbw`). */
module ChannelSetting {
  import opened ChannelWidths
  import opened Elements

  const DSSET: byte := 3
  const HT_CAPABILITY: byte := 45
  const HT_OPERATION: byte := 61
  const VHT_CAPABILITY: byte := 191
  const VHT_OPERATION: byte := 192

  const SCN: byte := 0
  const SCA: byte := 1
  const SCB: byte := 3

  // ----- bit fields -----

  predicate Bit1(b: byte) { (b / 2) % 2 == 1 }
  predicate Bit2(b: byte) { (b / 4) % 2 == 1 }
  function Low2(b: byte): byte { b % 4 }

  /** `SET_BITS_TO_LE_1BYTE` for the fields that are written here; every other bit stays. */
  function SetBit1(b: byte, on: bool): (r: byte)
    ensures Bit1(r) == on && r % 2 == b % 2 && r / 4 == b / 4
  {
    b / 4 * 4 + (if on then 2 else 0) + b % 2
  }

  function SetBit2(b: byte, on: bool): (r: byte)
    ensures Bit2(r) == on && r % 4 == b % 4 && r / 8 == b / 8
  {
    b / 8 * 8 + (if on then 4 else 0) + b % 4
  }

  function SetBit5(b: byte, on: bool): (r: byte)
    ensures (r / 32) % 2 == (if on then 1 else 0) && r % 32 == b % 32 && r / 64 == b / 64
  {
    b / 64 * 64 + (if on then 32 else 0) + b % 32
  }

  function SetBit6(b: byte, on: bool): (r: byte)
    ensures (r / 64) % 2 == (if on then 1 else 0) && r % 64 == b % 64 && r / 128 == b / 128
  {
    b / 128 * 128 + (if on then 64 else 0) + b % 64
  }

  function SetLow2(b: byte, v: byte): (r: byte)
    requires v < 4
    ensures r % 4 == v && r / 4 == b / 4
  {
    b / 4 * 4 + v
  }

  // ----- the writer on element lists -----

  /** The settings of the access point that the writer consults. `centre` is the centre
      channel `rtw_get_center_ch` computes. */
  datatype Config = Config(vhtOption: bool, sgi80: bool, sgi40: bool, sgi20: bool, centre: byte)

  datatype Setting = Setting(ch: byte, bw: byte, offset: byte)

  /** What is written into the body of the first element with a given identifier. */
  datatype Edit =
    | EditDs(ch: byte)
    | EditVhtCap(shortGi80: bool)
    | EditVhtOp(bw: byte, centre: byte)
    | EditHtCap(wide: bool, shortGi40: bool, shortGi20: bool)
    | EditHtOp(ch: byte, offset: byte, wide: bool)

  function EditId(e: Edit): byte {
    match e
    case EditDs(_) => DSSET
    case EditVhtCap(_) => VHT_CAPABILITY
    case EditVhtOp(_, _) => VHT_OPERATION
    case EditHtCap(_, _, _) => HT_CAPABILITY
    case EditHtOp(_, _, _) => HT_OPERATION
  }

  /** The octets an edit touches, when the body is not empty. */
  function EditSize(e: Edit): nat {
    match e
    case EditVhtOp(_, _) => 3
    case EditHtOp(_, _, _) => 2
    case _ => 1
  }

  function SecondChannel(offset: byte): (v: byte)
    ensures v < 4
  {
    if offset == OFFSET_LOWER then SCA else if offset == OFFSET_UPPER then SCB else SCN
  }

  function ApplyEdit(e: Edit, body: seq<byte>): (r: seq<byte>)
    requires body == [] || EditSize(e) <= |body|
    ensures |r| == |body|
  {
    if body == [] then body else
    match e
    case EditDs(ch) => body[0 := ch]
    case EditVhtCap(on) => body[0 := SetBit5(SetBit6(body[0], false), on)]
    case EditVhtOp(bw, centre) =>
      if bw < WIDTH_80 then body[0 := 0][1 := 0][2 := 0]
      else if bw == WIDTH_80 then body[0 := 1][1 := centre][2 := 0]
      else body
    case EditHtCap(wide, gi40, gi20) =>
      body[0 := SetBit5(SetBit6(SetBit1(body[0], wide), gi40), gi20)]
    case EditHtOp(ch, offset, wide) =>
      body[0 := ch][1 := SetBit2(SetLow2(body[1], SecondChannel(offset)), wide)]
  }

  /** The body of the first element with identifier `id`; empty when there is none. */
  function BodyOf(es: seq<Element>, id: byte): (body: seq<byte>) {
    var k := First(es, Pattern(id, []));
    if k < |es| then es[k].body else []
  }

  predicate Editable(es: seq<Element>, e: Edit) {
    BodyOf(es, EditId(e)) == [] || EditSize(e) <= |BodyOf(es, EditId(e))|
  }

  function UpdateFirst(es: seq<Element>, e: Edit): (r: seq<Element>)
    requires Editable(es, e)
    ensures |r| == |es|
  {
    var k := First(es, Pattern(EditId(e), []));
    if k < |es| then es[k := Element(es[k].id, ApplyEdit(e, es[k].body))] else es
  }

  /** Boundaries, identifiers and every other element stay. */
  lemma UpdateKeepsOthers(es: seq<Element>, e: Edit, i: nat)
    requires Editable(es, e) && i < |es|
    ensures var r := UpdateFirst(es, e);
            && r[i].id == es[i].id && |r[i].body| == |es[i].body|
            && (i != First(es, Pattern(EditId(e), [])) ==> r[i] == es[i])
  {
  }

  lemma FirstSame(es: seq<Element>, r: seq<Element>, id: byte)
    requires |r| == |es| && forall i :: 0 <= i < |es| ==> r[i].id == es[i].id
    ensures First(r, Pattern(id, [])) == First(es, Pattern(id, []))
  {
    FirstUnique(r, Pattern(id, []), First(es, Pattern(id, [])));
  }

  /** An edit changes the body it is for and no other body that a reader finds. */
  lemma UpdateBody(es: seq<Element>, e: Edit, id: byte)
    requires Editable(es, e)
    ensures BodyOf(UpdateFirst(es, e), id) ==
            if id == EditId(e) then ApplyEdit(e, BodyOf(es, id)) else BodyOf(es, id)
  {
    var r := UpdateFirst(es, e);
    forall i | 0 <= i < |es|
      ensures r[i].id == es[i].id
    {
      UpdateKeepsOthers(es, e, i);
    }
    FirstSame(es, r, id);
    var k := First(es, Pattern(EditId(e), []));
    var j := First(es, Pattern(id, []));
    if id != EditId(e) && j < |es| && k < |es| {
      assert es[j].id == id && es[k].id == EditId(e);
    }
  }

  /** The operation elements are empty or have the octets that are accessed. */
  predicate Ready(es: seq<Element>) {
    && (BodyOf(es, HT_OPERATION) == [] || |BodyOf(es, HT_OPERATION)| >= 2)
    && (BodyOf(es, VHT_OPERATION) == [] || |BodyOf(es, VHT_OPERATION)| >= 3)
  }

  lemma ReadyKept(es: seq<Element>, e: Edit)
    requires Ready(es)
    ensures Editable(es, e) && Ready(UpdateFirst(es, e))
  {
    UpdateBody(es, e, HT_OPERATION);
    UpdateBody(es, e, VHT_OPERATION);
  }

  function Update(es: seq<Element>, e: Edit): (r: seq<Element>)
    requires Ready(es)
    ensures Ready(r) && |r| == |es|
  {
    ReadyKept(es, e);
    UpdateFirst(es, e)
  }

  /** The part of `rtw_ap_update_bss_chbw` that writes the VHT and HT elements. */
  function WriteWidth(es: seq<Element>, s: Setting, cfg: Config): (r: seq<Element>)
    requires Ready(es)
    ensures Ready(r) && |r| == |es|
  {
    var es2 := if cfg.vhtOption then
                 Update(Update(es, EditVhtCap(s.bw >= WIDTH_80 && cfg.sgi80)), EditVhtOp(s.bw, cfg.centre))
               else es;
    var es3 := Update(es2, EditHtCap(s.bw >= WIDTH_40, s.bw >= WIDTH_40 && cfg.sgi40, cfg.sgi20));
    Update(es3, EditHtOp(s.ch, s.offset, s.bw >= WIDTH_40))
  }

  /** `rtw_ap_update_bss_chbw` on the element list, when the band stays. */
  function Write(es: seq<Element>, s: Setting, cfg: Config): (r: seq<Element>)
    requires Ready(es)
    ensures Ready(r) && |r| == |es|
  {
    WriteWidth(Update(es, EditDs(s.ch)), s, cfg)
  }

  // ----- the reader on element lists -----

  /** What the reader makes of the bodies it finds. */
  function ReadFrom(ds: seq<byte>, cap: seq<byte>, op: seq<byte>, vop: seq<byte>, ht: bool, vht: bool): (s: Setting)
    requires op == [] || |op| >= 2
  {
    var ch0 := if ds != [] then ds[0] else 0;
    if !ht && !vht then Setting(ch0, WIDTH_20, OFFSET_DONT_CARE) else
    var ch := if op != [] && ch0 == 0 then op[0] else ch0;
    var bw := if cap != [] && Bit1(cap[0]) && (op != [] ==> Bit2(op[1])) then WIDTH_40 else WIDTH_20;
    var offset := if op != [] && bw == WIDTH_40 then
                    (if Low2(op[1]) == SCA then OFFSET_LOWER
                     else if Low2(op[1]) == SCB then OFFSET_UPPER else OFFSET_DONT_CARE)
                  else OFFSET_DONT_CARE;
    Setting(ch, if vht && vop != [] && vop[0] >= 1 then WIDTH_80 else bw, offset)
  }

  /** `rtw_ies_get_chbw` on the element list. */
  function Read(es: seq<Element>, ht: bool, vht: bool): (s: Setting)
    requires Ready(es)
  {
    ReadFrom(BodyOf(es, DSSET), BodyOf(es, HT_CAPABILITY), BodyOf(es, HT_OPERATION), BodyOf(es, VHT_OPERATION), ht, vht)
  }

  /** The bodies the reader looks at, after writing. */
  lemma WrittenBodies(es: seq<Element>, s: Setting, cfg: Config)
    requires Ready(es)
    ensures var r := Write(es, s, cfg);
            && BodyOf(r, DSSET) == ApplyEdit(EditDs(s.ch), BodyOf(es, DSSET))
            && BodyOf(r, HT_CAPABILITY) ==
                 ApplyEdit(EditHtCap(s.bw >= WIDTH_40, s.bw >= WIDTH_40 && cfg.sgi40, cfg.sgi20),
                           BodyOf(es, HT_CAPABILITY))
            && BodyOf(r, HT_OPERATION) ==
                 ApplyEdit(EditHtOp(s.ch, s.offset, s.bw >= WIDTH_40), BodyOf(es, HT_OPERATION))
            && BodyOf(r, VHT_CAPABILITY) ==
                 (if cfg.vhtOption then
                    ApplyEdit(EditVhtCap(s.bw >= WIDTH_80 && cfg.sgi80), BodyOf(es, VHT_CAPABILITY))
                  else BodyOf(es, VHT_CAPABILITY))
            && BodyOf(r, VHT_OPERATION) ==
                 if cfg.vhtOption then ApplyEdit(EditVhtOp(s.bw, cfg.centre), BodyOf(es, VHT_OPERATION))
                 else BodyOf(es, VHT_OPERATION)
  {
    var e1, e2, e3 := EditDs(s.ch), EditVhtCap(s.bw >= WIDTH_80 && cfg.sgi80), EditVhtOp(s.bw, cfg.centre);
    var e4 := EditHtCap(s.bw >= WIDTH_40, s.bw >= WIDTH_40 && cfg.sgi40, cfg.sgi20);
    var e5 := EditHtOp(s.ch, s.offset, s.bw >= WIDTH_40);
    ReadBodies(es, e1);
    var es1 := Update(es, e1);
    var es2 := es1;
    if cfg.vhtOption {
      ReadBodies(es1, e2);
      ReadBodies(Update(es1, e2), e3);
      es2 := Update(Update(es1, e2), e3);
    }
    hide BodyOf, ApplyEdit, UpdateFirst, Ready;
    ReadBodies(es2, e4);
    ReadBodies(Update(es2, e4), e5);
  }

  lemma ReadBodies(es: seq<Element>, e: Edit)
    requires Ready(es)
    ensures Editable(es, e)
    ensures forall id :: id in {DSSET, HT_CAPABILITY, HT_OPERATION, VHT_CAPABILITY, VHT_OPERATION} ==>
              BodyOf(Update(es, e), id) == if id == EditId(e) then ApplyEdit(e, BodyOf(es, id)) else BodyOf(es, id)
  {
    ReadyKept(es, e);
    UpdateBody(es, e, DSSET);
    UpdateBody(es, e, HT_CAPABILITY);
    UpdateBody(es, e, HT_OPERATION);
    UpdateBody(es, e, VHT_CAPABILITY);
    UpdateBody(es, e, VHT_OPERATION);
  }

  /** The octets of the DS Parameter Set and of the operation elements after writing. */
  lemma WrittenOperation(es: seq<Element>, s: Setting, cfg: Config)
    requires Ready(es)
    ensures var d, d' := BodyOf(es, 3), BodyOf(Write(es, s, cfg), 3);
            |d'| == |d| && (d != [] ==> d'[0] == s.ch && d'[1..] == d[1..])
    ensures var o, o' := BodyOf(es, 61), BodyOf(Write(es, s, cfg), 61);
            && |o'| == |o|
            && (o != [] ==>
                  && o'[0] == s.ch && o'[2..] == o[2..]
                  && o'[1] % 4 == (if s.offset == 1 then 1 else if s.offset == 2 then 3 else 0)
                  && o'[1] / 4 % 2 == (if s.bw >= 1 then 1 else 0) && o'[1] / 8 == o[1] / 8)
    ensures var v, v' := BodyOf(es, 192), BodyOf(Write(es, s, cfg), 192);
            && |v'| == |v|
            && (!cfg.vhtOption || s.bw > 2 ==> v' == v)
            && (cfg.vhtOption && s.bw <= 2 && v != [] ==>
                  v'[..3] == (if s.bw == 2 then [1, cfg.centre, 0] else [0, 0, 0]) && v'[3..] == v[3..])
  {
    hide Write, BodyOf, Ready, SetBit2, SetLow2;
    WrittenBodies(es, s, cfg);
    ReadyBodies(es);
    var o := BodyOf(es, HT_OPERATION);
    if o != [] {
      assert SetLow2(o[1], SecondChannel(s.offset)) / 8 == o[1] / 8;
    }
  }

  lemma ReadyBodies(es: seq<Element>)
    requires Ready(es)
    ensures BodyOf(es, HT_OPERATION) == [] || |BodyOf(es, HT_OPERATION)| >= 2
    ensures BodyOf(es, VHT_OPERATION) == [] || |BodyOf(es, VHT_OPERATION)| >= 3
  {
  }

  /** The octets of the capability elements after writing: the width bit and the short guard interval
      bits of octet 0, and nothing else. */
  lemma WrittenCapabilities(es: seq<Element>, s: Setting, cfg: Config)
    requires Ready(es)
    ensures var c, c' := BodyOf(es, 45), BodyOf(Write(es, s, cfg), 45);
            && |c'| == |c|
            && (c != [] ==>
                  && c'[1..] == c[1..]
                  && c'[0] / 2 % 2 == (if s.bw >= 1 then 1 else 0)
                  && c'[0] / 32 % 2 == (if cfg.sgi20 then 1 else 0)
                  && c'[0] / 64 % 2 == (if s.bw >= 1 && cfg.sgi40 then 1 else 0)
                  && c'[0] % 2 == c[0] % 2 && c'[0] / 4 % 8 == c[0] / 4 % 8 && c'[0] / 128 == c[0] / 128)
    ensures var v, v' := BodyOf(es, 191), BodyOf(Write(es, s, cfg), 191);
            && |v'| == |v|
            && (!cfg.vhtOption ==> v' == v)
            && (cfg.vhtOption && v != [] ==>
                  && v'[1..] == v[1..]
                  && v'[0] / 32 % 2 == (if s.bw >= 2 && cfg.sgi80 then 1 else 0) && v'[0] / 64 % 2 == 0
                  && v'[0] % 32 == v[0] % 32 && v'[0] / 128 == v[0] / 128)
  {
    hide Write, BodyOf, Ready, SetBit1, SetBit5, SetBit6;
    WrittenBodies(es, s, cfg);
    var c, v := BodyOf(es, HT_CAPABILITY), BodyOf(es, VHT_CAPABILITY);
    if c != [] {
      HtCapOctet(c[0], s.bw >= WIDTH_40, s.bw >= WIDTH_40 && cfg.sgi40, cfg.sgi20);
    }
    if v != [] {
      VhtCapOctet(v[0], s.bw >= WIDTH_80 && cfg.sgi80);
    }
  }

  lemma HtCapOctet(b: byte, wide: bool, gi40: bool, gi20: bool)
    ensures var r := SetBit5(SetBit6(SetBit1(b, wide), gi40), gi20);
            && r / 2 % 2 == (if wide then 1 else 0) && r / 32 % 2 == (if gi20 then 1 else 0)
            && r / 64 % 2 == (if gi40 then 1 else 0)
            && r % 2 == b % 2 && r / 4 % 8 == b / 4 % 8 && r / 128 == b / 128
  {
    hide SetBit1, SetBit5, SetBit6;
    var r1 := SetBit1(b, wide);
    var r2 := SetBit6(r1, gi40);
    var r3 := SetBit5(r2, gi20);
    SameLow6(r1, r2);
    SameLow5(r1, r3);
    SameHigh(r2, r3);
    SameFrom2(b, r1);
  }

  lemma SameLow6(x: byte, y: byte)
    requires x % 64 == y % 64
    ensures x % 32 == y % 32
  {
    Low5(x);
    Low5(y);
  }

  lemma Low5(x: byte)
    ensures x % 32 == (x % 64) % 32
  {
    var q, l := x / 64, x % 64;
    var p, m := l / 32, l % 32;
    assert x == 32 * (2 * q + p) + m;
    Remainder32(x, 2 * q + p, m);
  }

  lemma Remainder32(x: int, k: int, m: int)
    requires x == 32 * k + m && 0 <= m < 32
    ensures x % 32 == m
  {
  }

  lemma SameLow5(x: byte, y: byte)
    requires x % 32 == y % 32
    ensures x % 2 == y % 2 && x / 2 % 2 == y / 2 % 2 && x / 4 % 8 == y / 4 % 8
  {
    LowParts(x);
    LowParts(y);
  }

  lemma LowParts(x: byte)
    ensures x % 2 == (x % 32) % 2 && x / 2 % 2 == (x % 32) / 2 % 2 && x / 4 % 8 == (x % 32) / 4 % 8
  {
    var q, l := x / 32, x % 32;
    assert x == 32 * q + l;
    assert x / 2 == 16 * q + l / 2 && x / 4 == 8 * q + l / 4;
  }

  lemma SameHigh(x: byte, y: byte)
    requires x / 64 == y / 64
    ensures x / 128 == y / 128
  {
    assert x / 128 == (x / 64) / 2 && y / 128 == (y / 64) / 2;
  }

  lemma SameFrom2(x: byte, y: byte)
    requires x / 4 == y / 4
    ensures x / 128 == y / 128
  {
    assert x / 128 == (x / 4) / 32 && y / 128 == (y / 4) / 32;
  }

  lemma VhtCapOctet(b: byte, gi80: bool)
    ensures var r := SetBit5(SetBit6(b, false), gi80);
            && r / 32 % 2 == (if gi80 then 1 else 0) && r / 64 % 2 == 0
            && r % 32 == b % 32 && r / 128 == b / 128
  {
    hide SetBit5, SetBit6;
    var r1 := SetBit6(b, false);
    var r2 := SetBit5(r1, gi80);
    SameLow6(b, r1);
    SameHigh(r1, r2);
  }

  /** What the reader makes of the octets it looks at. */
  lemma ReadOctets(es: seq<Element>, ht: bool, vht: bool)
    requires Ready(es)
    ensures var d, c, o, v := BodyOf(es, 3), BodyOf(es, 45), BodyOf(es, 61), BodyOf(es, 192);
            var wide := c != [] && c[0] / 2 % 2 == 1 && (o == [] || o[1] / 4 % 2 == 1);
            if !ht && !vht then Read(es, ht, vht) == Setting(if d != [] then d[0] else 0, 0, 0)
            else
              && Read(es, ht, vht).ch == (if d != [] && d[0] != 0 then d[0] else if o != [] then o[0] else 0)
              && Read(es, ht, vht).bw == (if vht && v != [] && v[0] >= 1 then 2 else if wide then 1 else 0)
              && Read(es, ht, vht).offset ==
                   (if wide && o != [] && o[1] % 4 == 1 then 1 else if wide && o != [] && o[1] % 4 == 3 then 2 else 0)
  {
    hide BodyOf;
  }

  /** What has to be there for a setting to be read back: somewhere to put the channel, HT
      elements for a secondary channel, a VHT Operation element that is written (or already
      says so) for 80 MHz, and no stale one otherwise. */
  predicate ReadsBack(es: seq<Element>, s: Setting, cfg: Config, vht: bool) {
    BodiesReadBack(BodyOf(es, DSSET) != [], BodyOf(es, HT_CAPABILITY) != [], BodyOf(es, HT_OPERATION) != [],
                   BodyOf(es, VHT_OPERATION), s, cfg, vht)
  }

  predicate BodiesReadBack(ds: bool, cap: bool, op: bool, vop: seq<byte>, s: Setting, cfg: Config, vht: bool) {
    && (s.ch == 0 || ds || op)
    && (s.offset == OFFSET_DONT_CARE
        || ((s.offset == OFFSET_LOWER || s.offset == OFFSET_UPPER) && s.bw >= WIDTH_40 && cap && op))
    && (s.bw == WIDTH_20 || (s.bw == WIDTH_40 && cap) || (s.bw == WIDTH_80 && vht && vop != []))
    && (vht && vop != [] && !cfg.vhtOption ==> (s.bw == WIDTH_80 <==> vop[0] >= 1))
  }

  /** The fields of the HT elements that an edit determines. */
  lemma HtFields(cap: seq<byte>, op: seq<byte>, ch: byte, offset: byte, wide: bool, gi40: bool, gi20: bool)
    requires op == [] || |op| >= 2
    ensures var cap' := ApplyEdit(EditHtCap(wide, gi40, gi20), cap);
            |cap'| == |cap| && (cap != [] ==> Bit1(cap'[0]) == wide)
    ensures var op' := ApplyEdit(EditHtOp(ch, offset, wide), op);
            && |op'| == |op|
            && (op != [] ==> op'[0] == ch && Low2(op'[1]) == SecondChannel(offset) && Bit2(op'[1]) == wide)
  {
    if cap != [] {
      var a := SetBit1(cap[0], wide);
      var b := SetBit6(a, gi40);
      var c := SetBit5(b, gi20);
      LowBits64(a, b);
      LowBits32(b, c);
    }
  }

  lemma LowBits32(a: byte, b: byte)
    requires a % 32 == b % 32
    ensures Bit1(a) == Bit1(b)
  {
    assert a == 32 * (a / 32) + a % 32 && b == 32 * (b / 32) + b % 32;
  }

  lemma LowBits64(a: byte, b: byte)
    requires a % 64 == b % 64
    ensures Bit1(a) == Bit1(b)
  {
    assert a == 64 * (a / 64) + a % 64 && b == 64 * (b / 64) + b % 64;
  }

  /** The reader on bodies whose fields say `s`. */
  lemma ReadWritten(ds: seq<byte>, cap: seq<byte>, op: seq<byte>, vop0: seq<byte>, vop: seq<byte>,
                    s: Setting, cfg: Config, vht: bool)
    requires op == [] || |op| >= 2
    requires ds != [] ==> ds[0] == s.ch
    requires cap != [] ==> Bit1(cap[0]) == (s.bw >= WIDTH_40)
    requires op != [] ==> op[0] == s.ch && Low2(op[1]) == SecondChannel(s.offset) && Bit2(op[1]) == (s.bw >= WIDTH_40)
    requires |vop| == |vop0|
    requires vop != [] && (!cfg.vhtOption || s.bw > WIDTH_80) ==> vop[0] == vop0[0]
    requires vop != [] && cfg.vhtOption && s.bw <= WIDTH_80 ==> vop[0] == if s.bw == WIDTH_80 then 1 else 0
    ensures ReadFrom(ds, cap, op, vop, true, vht) == s
            <==> BodiesReadBack(ds != [], cap != [], op != [], vop0, s, cfg, vht)
  {
    hide Bit1, Bit2, Low2;
  }

  /** Reading after writing gives the setting back exactly when `ReadsBack` holds. */
  lemma WriteThenRead(es: seq<Element>, s: Setting, cfg: Config, vht: bool)
    requires Ready(es)
    ensures Read(Write(es, s, cfg), true, vht) == s <==> ReadsBack(es, s, cfg, vht)
  {
    hide Write, BodyOf, Bit1, Bit2, Low2, ReadFrom, BodiesReadBack;
    WrittenBodies(es, s, cfg);
    var cap, op, vop := BodyOf(es, HT_CAPABILITY), BodyOf(es, HT_OPERATION), BodyOf(es, VHT_OPERATION);
    HtFields(cap, op, s.ch, s.offset, s.bw >= WIDTH_40, s.bw >= WIDTH_40 && cfg.sgi40, cfg.sgi20);
    var r := Write(es, s, cfg);
    ReadWritten(BodyOf(r, DSSET), BodyOf(r, HT_CAPABILITY), BodyOf(r, HT_OPERATION), vop, BodyOf(r, VHT_OPERATION),
                s, cfg, vht);
  }

  /** In the case the access point is in: both HT elements present, a VHT Operation element
      under VHT, and the reader told about VHT exactly then. */
  lemma ApSettingReadsBack(es: seq<Element>, s: Setting, cfg: Config)
    requires Ready(es)
    requires BodyOf(es, HT_CAPABILITY) != [] && BodyOf(es, HT_OPERATION) != []
    requires cfg.vhtOption ==> BodyOf(es, VHT_OPERATION) != []
    requires || (s.bw == WIDTH_20 && s.offset == OFFSET_DONT_CARE)
             || ((s.bw == WIDTH_40 || (s.bw == WIDTH_80 && cfg.vhtOption))
                 && (s.offset == OFFSET_LOWER || s.offset == OFFSET_UPPER))
    ensures Read(Write(es, s, cfg), true, cfg.vhtOption) == s
  {
    hide Write, Read, BodyOf, Ready;
    WriteThenRead(es, s, cfg, cfg.vhtOption);
  }

  /** When the band changes, the width is written into another list. The setting reads back from it
      under the same condition, provided its DS Parameter Set, if any, already says the channel. */
  lemma BandChangeReadsBack(es: seq<Element>, s: Setting, cfg: Config, vht: bool)
    requires Ready(es) && (BodyOf(es, DSSET) == [] || BodyOf(es, DSSET)[0] == s.ch)
    ensures Read(WriteWidth(es, s, cfg), true, vht) == s <==> ReadsBack(es, s, cfg, vht)
  {
    hide WriteWidth, Read, ReadsBack;
    SameChannel(es, s.ch);
    WriteThenRead(es, s, cfg, vht);
  }

  lemma SameChannel(es: seq<Element>, ch: byte)
    requires Ready(es) && (BodyOf(es, DSSET) == [] || BodyOf(es, DSSET)[0] == ch)
    ensures Update(es, EditDs(ch)) == es
  {
    var k := First(es, Pattern(DSSET, []));
    if k < |es| {
      assert ApplyEdit(EditDs(ch), es[k].body) == es[k].body;
    }
  }

  /** Writing keeps boundaries and identifiers, and every element but the first ones with the
      five identifiers. */
  lemma WriteKeepsOthers(es: seq<Element>, s: Setting, cfg: Config, i: nat)
    requires Ready(es) && i < |es|
    ensures var r := Write(es, s, cfg);
            && r[i].id == es[i].id && |r[i].body| == |es[i].body|
            && (es[i].id !in {DSSET, HT_CAPABILITY, HT_OPERATION, VHT_CAPABILITY, VHT_OPERATION} ==> r[i] == es[i])
            && (i != First(es, Pattern(es[i].id, [])) ==> r[i] == es[i])
  {
    var e2, e3 := EditVhtCap(s.bw >= WIDTH_80 && cfg.sgi80), EditVhtOp(s.bw, cfg.centre);
    var e4 := EditHtCap(s.bw >= WIDTH_40, s.bw >= WIDTH_40 && cfg.sgi40, cfg.sgi20);
    hide UpdateFirst, First, Ready, ApplyEdit;
    UpdateKeeps(es, EditDs(s.ch), i);
    var es1 := Update(es, EditDs(s.ch));
    var es2 := es1;
    if cfg.vhtOption {
      UpdateKeeps(es1, e2, i);
      UpdateKeeps(Update(es1, e2), e3, i);
      es2 := Update(Update(es1, e2), e3);
    }
    UpdateKeeps(es2, e4, i);
    UpdateKeeps(Update(es2, e4), EditHtOp(s.ch, s.offset, s.bw >= WIDTH_40), i);
  }

  lemma UpdateKeeps(es: seq<Element>, e: Edit, i: nat)
    requires Ready(es) && i < |es|
    ensures var r := Update(es, e);
            && r[i].id == es[i].id && |r[i].body| == |es[i].body|
            && (es[i].id != EditId(e) ==> r[i] == es[i])
            && (i != First(es, Pattern(es[i].id, [])) ==> r[i] == es[i])
            && First(r, Pattern(es[i].id, [])) == First(es, Pattern(es[i].id, []))
  {
    ReadyKept(es, e);
    var r := UpdateFirst(es, e);
    forall j | 0 <= j < |es|
      ensures r[j].id == es[j].id && |r[j].body| == |es[j].body|
      ensures es[j].id != EditId(e) ==> r[j] == es[j]
    {
      UpdateKeepsOthers(es, e, j);
    }
    FirstSame(es, r, es[i].id);
  }
}
