/** Per-station capability flags of the access point, the counters over them, and the ERP and
    HT protection bits derived from the counters (core/rtw_ap.c): what the events mean. */
module Stations {

  /** The flags a station carries; `num_sta_*` counts each of them. */
  datatype Flag = NoShortPreamble | NonErp | NoShortSlot | NoHt | NoGf | Ht20 | Intolerant40

  /** Settings that no event changes. */
  datatype Config = Config(
    htEnabled: bool,   // `ht_enable` and an HT capable `wireless_mode`
    htOption: bool,    // `htpriv.ht_option`
    supWidth: bool,    // the access point itself supports 40 MHz
    erpActive: bool)   // the BSS is started, ERP is enabled and the beacon has an ERP element

  /** What an association request says about a station. */
  datatype Caps = Caps(shortPreamble: bool, nonErp: bool, shortSlot: bool,
                       ht: bool, greenfield: bool, wide: bool, intolerant: bool)

  /** The two low bits of `ht_op_mode`. */
  datatype Protection = Pure | MayBeLegacy | Some20MHz | Mixed

  /** `ht_op_mode` by its three parts: the mode, and the non-greenfield and non-HT presence bits. */
  datatype OpMode = OpMode(protection: Protection, nonGf: bool, nonHt: bool)

  const ERP_NON_ERP_PRESENT: bv8 := 1
  const ERP_USE_PROTECTION: bv8 := 2
  const ERP_BARKER_PREAMBLE: bv8 := 4

  datatype Bss = Bss(
    flags: map<nat, set<Flag>>,
    num: map<Flag, int>,
    erp: bv8,          // the octet of the ERP element
    opMode: OpMode,    // `ht_op_mode`
    olbcHt: bool,
    // history: `olbcHt` when the HT operation was last updated, and the underflow warning
    olbcSeen: bool, warned: bool)

  const Zeroes: map<Flag, int> :=
    map[NoShortPreamble := 0, NonErp := 0, NoShortSlot := 0, NoHt := 0, NoGf := 0, Ht20 := 0, Intolerant40 := 0]

  lemma ZeroesComplete()
    ensures forall f: Flag :: f in Zeroes
  {
    forall f: Flag ensures f in Zeroes {
      match f
      case NoShortPreamble => case NonErp => case NoShortSlot => case NoHt =>
      case NoGf => case Ht20 => case Intolerant40 =>
    }
  }

  /** `start_ap_mode`: no stations, zeroed counters, a cleared operation mode. */
  function Started(erp: bv8): (b: Bss)
    ensures Complete(b)
  {
    ZeroesComplete();
    Bss(map[], Zeroes, erp, OpMode(Pure, false, false), false, false, false)
  }

  function FlagsOf(b: Bss, sta: nat): (s: set<Flag>) {
    if sta in b.flags then b.flags[sta] else {}
  }

  predicate Complete(b: Bss) {
    forall f: Flag :: f in b.num
  }

  // ----- the steps the handlers are made of -----

  /** Set a flag that is not set and count it. */
  function Raise(b: Bss, sta: nat, f: Flag): (r: Bss)
    requires Complete(b)
    ensures Complete(r)
  {
    if f in FlagsOf(b, sta) then b
    else b.(flags := b.flags[sta := FlagsOf(b, sta) + {f}], num := b.num[f := b.num[f] + 1])
  }

  /** Clear a flag that is set and uncount it. */
  function Lower(b: Bss, sta: nat, f: Flag): (r: Bss)
    requires Complete(b)
    ensures Complete(r)
  {
    if f !in FlagsOf(b, sta) then b
    else b.(flags := b.flags[sta := FlagsOf(b, sta) - {f}], num := b.num[f := b.num[f] - 1])
  }

  function Put(b: Bss, sta: nat, f: Flag, on: bool): (r: Bss)
    requires Complete(b)
    ensures Complete(r)
  {
    if on then Raise(b, sta, f) else Lower(b, sta, f)
  }

  /** Clearing the 40 MHz intolerance of a leaving station guards against underflow. */
  function LowerGuarded(b: Bss, sta: nat): (r: Bss)
    requires Complete(b)
    ensures Complete(r)
  {
    if Intolerant40 !in FlagsOf(b, sta) then b
    else
      var c := b.(flags := b.flags[sta := FlagsOf(b, sta) - {Intolerant40}]);
      if b.num[Intolerant40] > 0 then c.(num := b.num[Intolerant40 := b.num[Intolerant40] - 1])
      else c.(warned := true)
  }

  /** An ERP octet with its protection and Barker bits rewritten. */
  function ErpOctet(e: bv8, protect: bool, barker: bool): bv8 {
    var e1 := if protect then e | (ERP_NON_ERP_PRESENT | ERP_USE_PROTECTION)
              else e & !(ERP_NON_ERP_PRESENT | ERP_USE_PROTECTION);
    if barker then e1 | ERP_BARKER_PREAMBLE else e1 & !ERP_BARKER_PREAMBLE
  }

  lemma ErpOctetBits(e: bv8, protect: bool, barker: bool)
    ensures ErpOctet(e, protect, barker) & 3 == if protect then 3 else 0
    ensures ErpOctet(e, protect, barker) & 4 == if barker then 4 else 0
    ensures ErpOctet(e, protect, barker) & 0xF8 == e & 0xF8
  {
  }

  /** `update_bcn_erpinfo_ie` */
  function UpdateErp(b: Bss, cfg: Config): (r: Bss)
    requires Complete(b)
    ensures Complete(r)
  {
    if !cfg.erpActive then b
    else b.(erp := ErpOctet(b.erp, b.num[NonErp] == 1, b.num[NoShortPreamble] > 0))
  }

  /** The non-ERP flag; the ERP element is updated when the first such station comes or the
      last one goes. */
  function PutNonErp(b: Bss, cfg: Config, sta: nat, on: bool): (r: Bss)
    requires Complete(b)
    ensures Complete(r)
  {
    var c := Put(b, sta, NonErp, on);
    if (NonErp in FlagsOf(b, sta)) != on && c.num[NonErp] == (if on then 1 else 0) then UpdateErp(c, cfg) else c
  }

  /** The protection that suits the stations. */
  function ProtectionFor(noHt: bool, ht20: bool, olbcHt: bool, cfg: Config): Protection {
    if noHt then Mixed
    else if cfg.supWidth && ht20 then Some20MHz
    else if olbcHt then MayBeLegacy
    else Pure
  }

  /** `rtw_ht_operation_update` */
  function UpdateHt(b: Bss, cfg: Config): (r: Bss)
    requires Complete(b)
    ensures Complete(r)
  {
    if !cfg.htOption then b else
    var mode := ProtectionFor(b.num[NoHt] != 0, b.num[Ht20] != 0, b.olbcHt, cfg);
    b.(opMode := OpMode(mode, b.num[NoGf] != 0, b.num[NoHt] != 0 || b.olbcHt),
       olbcSeen := b.olbcHt)
  }

  // ----- the event handlers -----

  /** The HT part of `bss_cap_update_on_sta_join`. */
  function JoinHt(b: Bss, cfg: Config, sta: nat, caps: Caps): (r: Bss)
    requires Complete(b)
    ensures Complete(r)
  {
    if !cfg.htEnabled then b else
    var c := if caps.ht then
               var c1 := Lower(b, sta, NoHt);
               var c2 := if !caps.greenfield then Raise(c1, sta, NoGf) else c1;
               var c3 := if !caps.wide then Raise(c2, sta, Ht20) else c2;
               if caps.intolerant then Raise(c3, sta, Intolerant40) else c3
             else Raise(b, sta, NoHt);
    UpdateHt(c, cfg)
  }

  /** `bss_cap_update_on_sta_join`, for a first association and for a reassociation alike. */
  function Join(b: Bss, cfg: Config, sta: nat, caps: Caps): (r: Bss)
    requires Complete(b)
    ensures Complete(r)
  {
    var b1 := Put(b, sta, NoShortPreamble, !caps.shortPreamble);
    var b2 := PutNonErp(b1, cfg, sta, caps.nonErp);
    var b3 := Put(b2, sta, NoShortSlot, !caps.shortSlot);
    JoinHt(b3, cfg, sta, caps)
  }

  /** The HT part of `bss_cap_update_on_sta_leave`. */
  function LeaveHt(b: Bss, cfg: Config, sta: nat): (r: Bss)
    requires Complete(b)
    ensures Complete(r)
  {
    UpdateHt(LowerGuarded(Lower(Lower(Lower(b, sta, NoGf), sta, NoHt), sta, Ht20), sta), cfg)
  }

  /** `bss_cap_update_on_sta_leave` */
  function Leave(b: Bss, cfg: Config, sta: nat): (r: Bss)
    requires Complete(b)
    ensures Complete(r)
  {
    var b1 := Lower(b, sta, NoShortPreamble);
    var b2 := PutNonErp(b1, cfg, sta, false);
    var b3 := Lower(b2, sta, NoShortSlot);
    LeaveHt(b3, cfg, sta)
  }

  /** `rtw_process_public_act_bsscoex` with the 40 MHz intolerant bit. */
  function Coexistence(b: Bss, sta: nat, intolerant: bool): (r: Bss)
    requires Complete(b)
    ensures Complete(r)
  {
    if intolerant then Raise(b, sta, Intolerant40) else b
  }

  datatype Event =
    | Joins(sta: nat, caps: Caps)
    | Leaves(sta: nat)
    | SendsCoexistence(sta: nat, intolerant: bool)
    | OverlappingLegacy(seen: bool)

  function Apply(b: Bss, cfg: Config, e: Event): (r: Bss)
    requires Complete(b)
    ensures Complete(r)
  {
    match e
    case Joins(sta, caps) => Join(b, cfg, sta, caps)
    case Leaves(sta) => Leave(b, cfg, sta)
    case SendsCoexistence(sta, intolerant) => Coexistence(b, sta, intolerant)
    case OverlappingLegacy(seen) => b.(olbcHt := seen)
  }

  function Run(cfg: Config, erp: bv8, es: seq<Event>): (b: Bss)
    ensures Complete(b)
  {
    if es == [] then Started(erp) else Apply(Run(cfg, erp, es[..|es| - 1]), cfg, es[|es| - 1])
  }

  // ----- counters count -----

  /** The stations that carry a flag. */
  ghost function Holders(flags: map<nat, set<Flag>>, f: Flag): (s: set<nat>) {
    set sta | sta in flags && f in flags[sta]
  }

  /** Each counter is the number of stations carrying its flag. */
  ghost predicate Counted(b: Bss) {
    Complete(b) && NumsCount(b)
  }

  ghost predicate NumsCount(b: Bss)
    requires Complete(b)
  {
    forall f :: b.num[f] == |Holders(b.flags, f)|
  }

  /** Only one flag and its counter may differ. */
  predicate Touches(b: Bss, c: Bss, f: Flag)
    requires Complete(b) && Complete(c)
  {
    c == b.(flags := c.flags, num := c.num) && forall g :: g != f ==> c.num[g] == b.num[g]
  }

  lemma HoldersChange(b: Bss, sta: nat, s: set<Flag>, f: Flag)
    ensures |Holders(b.flags[sta := s], f)| ==
            |Holders(b.flags, f)| - (if f in FlagsOf(b, sta) then 1 else 0) + (if f in s then 1 else 0)
  {
    var h := Holders(b.flags, f);
    assert Holders(b.flags[sta := s], f) == if f in s then h + {sta} else h - {sta};
  }

  lemma RaiseCounts(b: Bss, sta: nat, f: Flag)
    requires Counted(b)
    ensures Counted(Raise(b, sta, f)) && Touches(b, Raise(b, sta, f), f)
  {
    hide Holders;
    forall g ensures f !in FlagsOf(b, sta) ==>
      |Holders(b.flags[sta := FlagsOf(b, sta) + {f}], g)| == |Holders(b.flags, g)| + if g == f then 1 else 0
    {
      HoldersChange(b, sta, FlagsOf(b, sta) + {f}, g);
    }
  }

  lemma LowerCounts(b: Bss, sta: nat, f: Flag)
    requires Counted(b)
    ensures Counted(Lower(b, sta, f)) && Touches(b, Lower(b, sta, f), f)
  {
    hide Holders;
    forall g ensures f in FlagsOf(b, sta) ==>
      |Holders(b.flags[sta := FlagsOf(b, sta) - {f}], g)| == |Holders(b.flags, g)| - if g == f then 1 else 0
    {
      HoldersChange(b, sta, FlagsOf(b, sta) - {f}, g);
    }
  }

  lemma PutCounts(b: Bss, sta: nat, f: Flag, on: bool)
    requires Counted(b)
    ensures Counted(Put(b, sta, f, on)) && Touches(b, Put(b, sta, f, on), f)
  {
    if on {
      RaiseCounts(b, sta, f);
    } else {
      LowerCounts(b, sta, f);
    }
  }

  lemma FlagCounted(b: Bss, sta: nat, f: Flag)
    requires Counted(b) && f in FlagsOf(b, sta)
    ensures b.num[f] > 0
  {
    assert sta in Holders(b.flags, f);
  }

  /** With counters that count, the guard of the intolerance counter never takes its warning. */
  lemma GuardUnneeded(b: Bss, sta: nat)
    requires Counted(b)
    ensures LowerGuarded(b, sta) == Lower(b, sta, Intolerant40)
  {
    if Intolerant40 in FlagsOf(b, sta) {
      FlagCounted(b, sta, Intolerant40);
    }
  }

  // ----- what the beacon bits mean -----

  /** The ERP protection bits are both set when a non-ERP station is counted, else both clear. */
  predicate ErpMatches(b: Bss, cfg: Config)
    requires Complete(b)
  {
    cfg.erpActive ==>
      b.erp & (ERP_NON_ERP_PRESENT | ERP_USE_PROTECTION) ==
      if b.num[NonErp] > 0 then ERP_NON_ERP_PRESENT | ERP_USE_PROTECTION else 0
  }

  predicate HtMatches(b: Bss, cfg: Config)
    requires Complete(b)
  {
    cfg.htOption ==>
      && b.opMode.protection == ProtectionFor(b.num[NoHt] > 0, b.num[Ht20] > 0, b.olbcSeen, cfg)
      && (b.opMode.nonGf <==> b.num[NoGf] > 0)
      && (b.opMode.nonHt <==> b.num[NoHt] > 0 || b.olbcSeen)
  }

  lemma UpdateHtCounts(b: Bss, cfg: Config)
    requires Counted(b)
    ensures Counted(UpdateHt(b, cfg))
    ensures UpdateHt(b, cfg) ==
            b.(opMode := UpdateHt(b, cfg).opMode, olbcSeen := if cfg.htOption then b.olbcHt else b.olbcSeen)
  {
    hide Holders, ProtectionFor;
  }

  /** Every update of the HT operation brings the mode in line with the counters. */
  lemma UpdateHtMatches(b: Bss, cfg: Config)
    requires Counted(b)
    ensures HtMatches(UpdateHt(b, cfg), cfg)
  {
    hide Holders;
  }

  /** An update of the ERP element while a count other than 1 is positive clears the protection
      that is still needed: it is right exactly for counts of at most 1. */
  lemma ErpUpdateRight(b: Bss, cfg: Config)
    requires Counted(b) && cfg.erpActive
    ensures ErpMatches(UpdateErp(b, cfg), cfg) <==> b.num[NonErp] <= 1
  {
    hide Holders;
  }

  /** What an update writes: bits 0 and 1 for a count of 1, bit 2 for a station without short preamble,
      and no other bit. */
  lemma ErpUpdateBits(b: Bss, cfg: Config)
    requires Complete(b) && cfg.erpActive
    ensures var e := UpdateErp(b, cfg).erp;
            && e & 3 == (if b.num[NonErp] == 1 then 3 else 0)
            && e & 4 == (if b.num[NoShortPreamble] > 0 then 4 else 0)
            && e & 0xF8 == b.erp & 0xF8
  {
    hide ErpOctet;
    ErpOctetBits(b.erp, b.num[NonErp] == 1, b.num[NoShortPreamble] > 0);
  }

  /** The handlers only update the ERP element when that is right. */
  lemma PutNonErpMatches(b: Bss, cfg: Config, sta: nat, on: bool)
    requires Counted(b) && ErpMatches(b, cfg)
    ensures Counted(PutNonErp(b, cfg, sta, on)) && ErpMatches(PutNonErp(b, cfg, sta, on), cfg)
    ensures Touches(b.(erp := PutNonErp(b, cfg, sta, on).erp), PutNonErp(b, cfg, sta, on), NonErp)
  {
    hide Holders;
    PutCounts(b, sta, NonErp, on);
    if cfg.erpActive {
      ErpUpdateRight(Put(b, sta, NonErp, on), cfg);
    }
    if !on && NonErp in FlagsOf(b, sta) {
      FlagCounted(b, sta, NonErp);
    }
  }

  // ----- every run -----

  /** What every reachable state satisfies. */
  ghost predicate Inv(b: Bss, cfg: Config) {
    Counted(b) && ErpMatches(b, cfg) && HtMatches(b, cfg) && !b.warned
  }

  lemma InvComplete(b: Bss, cfg: Config)
    requires Inv(b, cfg)
    ensures Complete(b)
  {
  }

  lemma PutKeeps(b: Bss, cfg: Config, sta: nat, f: Flag, on: bool)
    requires Inv(b, cfg)
    requires f == NoShortPreamble || f == NoShortSlot || f == Intolerant40
    ensures Inv(Put(b, sta, f, on), cfg) && Put(b, sta, f, on).olbcHt == b.olbcHt
  {
    hide NumsCount, Complete, Put, ProtectionFor;
    PutCounts(b, sta, f, on);
  }

  lemma PutNonErpKeeps(b: Bss, cfg: Config, sta: nat, on: bool)
    requires Inv(b, cfg)
    ensures Inv(PutNonErp(b, cfg, sta, on), cfg) && PutNonErp(b, cfg, sta, on).olbcHt == b.olbcHt
  {
    hide NumsCount, Complete, PutNonErp, ProtectionFor;
    PutNonErpMatches(b, cfg, sta, on);
  }

  lemma JoinHtKeeps(b: Bss, cfg: Config, sta: nat, caps: Caps)
    requires Inv(b, cfg)
    ensures Inv(JoinHt(b, cfg, sta, caps), cfg)
    ensures cfg.htEnabled && cfg.htOption ==> JoinHt(b, cfg, sta, caps).olbcSeen == b.olbcHt
  {
    hide NumsCount, Complete, HtMatches, Raise, Lower, FlagsOf, UpdateHt;
    var c1 := Lower(b, sta, NoHt);
    LowerCounts(b, sta, NoHt);
    var c2 := if !caps.greenfield then Raise(c1, sta, NoGf) else c1;
    RaiseCounts(c1, sta, NoGf);
    var c3 := if !caps.wide then Raise(c2, sta, Ht20) else c2;
    RaiseCounts(c2, sta, Ht20);
    var c4 := if caps.intolerant then Raise(c3, sta, Intolerant40) else c3;
    RaiseCounts(c3, sta, Intolerant40);
    UpdateHtCounts(c4, cfg);
    UpdateHtMatches(c4, cfg);
    RaiseCounts(b, sta, NoHt);
    UpdateHtCounts(Raise(b, sta, NoHt), cfg);
    UpdateHtMatches(Raise(b, sta, NoHt), cfg);
  }

  lemma JoinKeeps(b: Bss, cfg: Config, sta: nat, caps: Caps)
    requires Inv(b, cfg)
    ensures Inv(Join(b, cfg, sta, caps), cfg)
    ensures cfg.htEnabled && cfg.htOption ==> Join(b, cfg, sta, caps).olbcSeen == b.olbcHt
  {
    hide NumsCount, Complete, ErpMatches, HtMatches, Put, PutNonErp, JoinHt;
    var b1 := Put(b, sta, NoShortPreamble, !caps.shortPreamble);
    PutKeeps(b, cfg, sta, NoShortPreamble, !caps.shortPreamble);
    var b2 := PutNonErp(b1, cfg, sta, caps.nonErp);
    PutNonErpKeeps(b1, cfg, sta, caps.nonErp);
    PutKeeps(b2, cfg, sta, NoShortSlot, !caps.shortSlot);
    JoinHtKeeps(Put(b2, sta, NoShortSlot, !caps.shortSlot), cfg, sta, caps);
  }

  lemma LeaveKeeps(b: Bss, cfg: Config, sta: nat)
    requires Inv(b, cfg)
    ensures Inv(Leave(b, cfg, sta), cfg)
    ensures cfg.htOption ==> Leave(b, cfg, sta).olbcSeen == b.olbcHt
  {
    hide NumsCount, Complete, HtMatches, Raise, Lower, FlagsOf, UpdateHt;
    var b1 := Lower(b, sta, NoShortPreamble);
    PutKeeps(b, cfg, sta, NoShortPreamble, false);
    var b2 := PutNonErp(b1, cfg, sta, false);
    PutNonErpKeeps(b1, cfg, sta, false);
    var b3 := Lower(b2, sta, NoShortSlot);
    PutKeeps(b2, cfg, sta, NoShortSlot, false);
    LowerCounts(b3, sta, NoGf);
    LowerCounts(Lower(b3, sta, NoGf), sta, NoHt);
    var b4 := Lower(Lower(Lower(b3, sta, NoGf), sta, NoHt), sta, Ht20);
    LowerCounts(Lower(Lower(b3, sta, NoGf), sta, NoHt), sta, Ht20);
    GuardUnneeded(b4, sta);
    LowerCounts(b4, sta, Intolerant40);
    UpdateHtCounts(Lower(b4, sta, Intolerant40), cfg);
    UpdateHtMatches(Lower(b4, sta, Intolerant40), cfg);
  }

  lemma EventKeeps(b: Bss, cfg: Config, e: Event)
    requires Inv(b, cfg)
    ensures Inv(Apply(b, cfg, e), cfg)
  {
    hide Holders;
    match e
    case Joins(sta, caps) => JoinKeeps(b, cfg, sta, caps);
    case Leaves(sta) => LeaveKeeps(b, cfg, sta);
    case SendsCoexistence(sta, intolerant) => PutKeeps(b, cfg, sta, Intolerant40, true);
    case OverlappingLegacy(seen) =>
  }

  lemma {:induction false} RunKeepsInv(cfg: Config, erp: bv8, es: seq<Event>)
    requires erp & (ERP_NON_ERP_PRESENT | ERP_USE_PROTECTION) == 0
    ensures Inv(Run(cfg, erp, es), cfg)
  {
    if es == [] {
      forall f ensures Holders(map[], f) == {} {
      }
    } else {
      RunKeepsInv(cfg, erp, es[..|es| - 1]);
      EventKeeps(Run(cfg, erp, es[..|es| - 1]), cfg, es[|es| - 1]);
    }
  }

  predicate Present(b: Bss, f: Flag) {
    exists sta :: sta in b.flags && f in b.flags[sta]
  }

  lemma CountedPresent(b: Bss, f: Flag)
    requires Counted(b)
    ensures b.num[f] >= 0
    ensures b.num[f] > 0 <==> Present(b, f)
  {
    if b.num[f] > 0 {
      var sta :| sta in Holders(b.flags, f);
    } else if Present(b, f) {
      var sta :| sta in b.flags && f in b.flags[sta];
      FlagCounted(b, sta, f);
    }
  }

  /** In every run the ERP protection bits say whether a non-ERP station is associated. */
  lemma ErpBitsTellStations(cfg: Config, erp: bv8, es: seq<Event>)
    requires cfg.erpActive && erp & (ERP_NON_ERP_PRESENT | ERP_USE_PROTECTION) == 0
    ensures var b := Run(cfg, erp, es);
            && (b.erp & ERP_NON_ERP_PRESENT != 0 <==> Present(b, NonErp))
            && (b.erp & ERP_USE_PROTECTION != 0 <==> Present(b, NonErp))
  {
    RunKeepsInv(cfg, erp, es);
    CountedPresent(Run(cfg, erp, es), NonErp);
  }

  /** In every run the HT operation mode is the one the associated stations call for. */
  lemma HtModeTellsStations(cfg: Config, erp: bv8, es: seq<Event>)
    requires cfg.htOption && erp & (ERP_NON_ERP_PRESENT | ERP_USE_PROTECTION) == 0
    ensures var b := Run(cfg, erp, es);
            && (b.opMode.protection == Mixed <==> Present(b, NoHt))
            && (b.opMode.protection == Some20MHz <==> !Present(b, NoHt) && cfg.supWidth && Present(b, Ht20))
            && (b.opMode.protection == MayBeLegacy <==>
                  !Present(b, NoHt) && !(cfg.supWidth && Present(b, Ht20)) && b.olbcSeen)
            && (b.opMode.protection == Pure <==>
                  !Present(b, NoHt) && !(cfg.supWidth && Present(b, Ht20)) && !b.olbcSeen)
            && (b.opMode.nonGf <==> Present(b, NoGf))
            && (b.opMode.nonHt <==> Present(b, NoHt) || b.olbcSeen)
  {
    hide Present;
    RunKeepsInv(cfg, erp, es);
    CountedPresent(Run(cfg, erp, es), NoHt);
    CountedPresent(Run(cfg, erp, es), Ht20);
    CountedPresent(Run(cfg, erp, es), NoGf);
  }

  /** ... and the environment it takes into account is the one of the last update, which every
      departure and, with HT enabled, every association brings up to date. */
  lemma HtModeIsCurrent(cfg: Config, erp: bv8, es: seq<Event>, e: Event)
    requires cfg.htOption && erp & (ERP_NON_ERP_PRESENT | ERP_USE_PROTECTION) == 0
    requires e.Leaves? || (e.Joins? && cfg.htEnabled)
    ensures Run(cfg, erp, es + [e]).olbcSeen == Run(cfg, erp, es).olbcHt
  {
    hide Inv, Join, Leave;
    assert (es + [e])[..|es|] == es;
    RunKeepsInv(cfg, erp, es);
    if e.Leaves? {
      LeaveKeeps(Run(cfg, erp, es), cfg, e.sta);
    } else {
      JoinKeeps(Run(cfg, erp, es), cfg, e.sta, e.caps);
    }
  }

  /** The HT part of an association leaves the other counters and the ERP octet alone. */
  lemma JoinHtTouches(b: Bss, cfg: Config, sta: nat, caps: Caps)
    requires Counted(b)
    ensures var r := JoinHt(b, cfg, sta, caps);
            r.erp == b.erp && r.num[NoShortPreamble] == b.num[NoShortPreamble] &&
            r.num[NonErp] == b.num[NonErp] && r.num[NoShortSlot] == b.num[NoShortSlot]
  {
    hide NumsCount, Complete, Raise, Lower, FlagsOf, UpdateHt;
    var c1 := Lower(b, sta, NoHt);
    LowerCounts(b, sta, NoHt);
    var c2 := if !caps.greenfield then Raise(c1, sta, NoGf) else c1;
    RaiseCounts(c1, sta, NoGf);
    var c3 := if !caps.wide then Raise(c2, sta, Ht20) else c2;
    RaiseCounts(c2, sta, Ht20);
    var c4 := if caps.intolerant then Raise(c3, sta, Intolerant40) else c3;
    RaiseCounts(c3, sta, Intolerant40);
    UpdateHtCounts(c4, cfg);
    RaiseCounts(b, sta, NoHt);
    UpdateHtCounts(Raise(b, sta, NoHt), cfg);
  }

  lemma LeaveHtTouches(b: Bss, cfg: Config, sta: nat)
    requires Counted(b)
    ensures var r := LeaveHt(b, cfg, sta);
            r.erp == b.erp && r.num[NoShortPreamble] == b.num[NoShortPreamble] &&
            r.num[NonErp] == b.num[NonErp] && r.num[NoShortSlot] == b.num[NoShortSlot]
  {
    hide NumsCount, Complete, Lower, FlagsOf, UpdateHt;
    LowerCounts(b, sta, NoGf);
    LowerCounts(Lower(b, sta, NoGf), sta, NoHt);
    var c := Lower(Lower(Lower(b, sta, NoGf), sta, NoHt), sta, Ht20);
    LowerCounts(Lower(Lower(b, sta, NoGf), sta, NoHt), sta, Ht20);
    GuardUnneeded(c, sta);
    LowerCounts(c, sta, Intolerant40);
    UpdateHtCounts(Lower(c, sta, Intolerant40), cfg);
  }

  // ----- what the flags remember of an association -----

  /** What a station's own capabilities say about a flag. */
  predicate Says(caps: Caps, f: Flag) {
    match f
    case NoShortPreamble => !caps.shortPreamble
    case NonErp => caps.nonErp
    case NoShortSlot => !caps.shortSlot
    case NoHt => !caps.ht
    case NoGf => caps.ht && !caps.greenfield
    case Ht20 => caps.ht && !caps.wide
    case Intolerant40 => caps.ht && caps.intolerant
  }

  /** Flags that an association raises but never lowers. */
  predicate Sticks(f: Flag) {
    f == NoGf || f == Ht20 || f == Intolerant40
  }

  lemma PutFlags(b: Bss, sta: nat, f: Flag, on: bool, t: nat, g: Flag)
    requires Complete(b)
    ensures g in FlagsOf(Put(b, sta, f, on), t) <==> if t == sta && g == f then on else g in FlagsOf(b, t)
  {
  }

  lemma PutNonErpFlags(b: Bss, cfg: Config, sta: nat, on: bool, t: nat, g: Flag)
    requires Complete(b)
    ensures g in FlagsOf(PutNonErp(b, cfg, sta, on), t) <==>
            if t == sta && g == NonErp then on else g in FlagsOf(b, t)
  {
    PutFlags(b, sta, NonErp, on, t, g);
  }

  lemma JoinHtFlags(b: Bss, cfg: Config, sta: nat, caps: Caps, t: nat, g: Flag)
    requires Complete(b)
    ensures g in FlagsOf(JoinHt(b, cfg, sta, caps), t) <==>
            if t != sta || !cfg.htEnabled then g in FlagsOf(b, t)
            else if g == NoHt then !caps.ht
            else g in FlagsOf(b, t) || (Sticks(g) && Says(caps, g))
  {
    hide FlagsOf, Raise, Lower;
    var c1 := Lower(b, sta, NoHt);
    PutFlags(b, sta, NoHt, false, t, g);
    var c2 := if !caps.greenfield then Raise(c1, sta, NoGf) else c1;
    PutFlags(c1, sta, NoGf, true, t, g);
    var c3 := if !caps.wide then Raise(c2, sta, Ht20) else c2;
    PutFlags(c2, sta, Ht20, true, t, g);
    var c4 := if caps.intolerant then Raise(c3, sta, Intolerant40) else c3;
    PutFlags(c3, sta, Intolerant40, true, t, g);
    PutFlags(b, sta, NoHt, true, t, g);
    UpdateHtFlags(c4, cfg, t);
    UpdateHtFlags(Raise(b, sta, NoHt), cfg, t);
  }

  lemma UpdateHtFlags(b: Bss, cfg: Config, t: nat)
    requires Complete(b)
    ensures FlagsOf(UpdateHt(b, cfg), t) == FlagsOf(b, t)
  {
  }

  /** An association writes the flags of its own station only, and those from the capabilities,
      except that a flag which sticks survives a reassociation that no longer says it, and that
      the HT flags stay when HT is disabled. */
  lemma JoinFlags(b: Bss, cfg: Config, sta: nat, caps: Caps, t: nat, g: Flag)
    requires Complete(b)
    ensures g in FlagsOf(Join(b, cfg, sta, caps), t) <==>
            if t != sta || (!cfg.htEnabled && (g == NoHt || Sticks(g))) then g in FlagsOf(b, t)
            else Says(caps, g) || (Sticks(g) && g in FlagsOf(b, t))
  {
    hide FlagsOf, Put, PutNonErp, JoinHt;
    var b1 := Put(b, sta, NoShortPreamble, !caps.shortPreamble);
    PutFlags(b, sta, NoShortPreamble, !caps.shortPreamble, t, g);
    var b2 := PutNonErp(b1, cfg, sta, caps.nonErp);
    PutNonErpFlags(b1, cfg, sta, caps.nonErp, t, g);
    PutFlags(b2, sta, NoShortSlot, !caps.shortSlot, t, g);
    JoinHtFlags(Put(b2, sta, NoShortSlot, !caps.shortSlot), cfg, sta, caps, t, g);
  }

  /** The flags of a station after its association, one by one. */
  lemma JoinTells(b: Bss, cfg: Config, sta: nat, caps: Caps)
    requires Complete(b)
    ensures var was, now := FlagsOf(b, sta), FlagsOf(Join(b, cfg, sta, caps), sta);
            && (NoShortPreamble in now <==> !caps.shortPreamble)
            && (NonErp in now <==> caps.nonErp)
            && (NoShortSlot in now <==> !caps.shortSlot)
            && (NoHt in now <==> if cfg.htEnabled then !caps.ht else NoHt in was)
            && (NoGf in now <==> NoGf in was || (cfg.htEnabled && caps.ht && !caps.greenfield))
            && (Ht20 in now <==> Ht20 in was || (cfg.htEnabled && caps.ht && !caps.wide))
            && (Intolerant40 in now <==> Intolerant40 in was || (cfg.htEnabled && caps.ht && caps.intolerant))
  {
    hide FlagsOf, Join;
    JoinFlags(b, cfg, sta, caps, sta, NoShortPreamble);
    JoinFlags(b, cfg, sta, caps, sta, NonErp);
    JoinFlags(b, cfg, sta, caps, sta, NoShortSlot);
    JoinFlags(b, cfg, sta, caps, sta, NoHt);
    JoinFlags(b, cfg, sta, caps, sta, NoGf);
    JoinFlags(b, cfg, sta, caps, sta, Ht20);
    JoinFlags(b, cfg, sta, caps, sta, Intolerant40);
  }

  /** A reassociation leaves exactly the flags of the new capabilities if and only if every
      sticking flag the station already carries is said again. */
  lemma RejoinExact(b: Bss, cfg: Config, sta: nat, caps: Caps)
    requires Complete(b) && cfg.htEnabled
    ensures (forall g :: g in FlagsOf(Join(b, cfg, sta, caps), sta) <==> Says(caps, g)) <==>
            (forall g :: Sticks(g) && g in FlagsOf(b, sta) ==> Says(caps, g))
  {
    hide FlagsOf, Join, Says, Sticks;
    forall g {
      JoinFlags(b, cfg, sta, caps, sta, g);
    }
  }

  /** A coexistence frame raises the intolerance of its station and nothing else. */
  lemma CoexistenceFlags(b: Bss, sta: nat, intolerant: bool, t: nat, g: Flag)
    requires Complete(b)
    ensures g in FlagsOf(Coexistence(b, sta, intolerant), t) <==>
            g in FlagsOf(b, t) || (t == sta && g == Intolerant40 && intolerant)
  {
    PutFlags(b, sta, Intolerant40, true, t, g);
  }

  /** A departure clears every flag of its station and no other. */
  lemma LeaveFlags(b: Bss, cfg: Config, sta: nat, t: nat)
    requires Complete(b)
    ensures FlagsOf(Leave(b, cfg, sta), t) == if t == sta then {} else FlagsOf(b, t)
  {
    forall g ensures g in FlagsOf(Leave(b, cfg, sta), t) <==> t != sta && g in FlagsOf(b, t) {
      LeaveFlag(b, cfg, sta, t, g);
    }
  }

  lemma LeaveFlag(b: Bss, cfg: Config, sta: nat, t: nat, g: Flag)
    requires Complete(b)
    ensures g in FlagsOf(Leave(b, cfg, sta), t) <==> t != sta && g in FlagsOf(b, t)
  {
    hide FlagsOf, Raise, Lower, PutNonErp, LowerGuarded;
    var b1 := Lower(b, sta, NoShortPreamble);
    PutFlags(b, sta, NoShortPreamble, false, t, g);
    var b2 := PutNonErp(b1, cfg, sta, false);
    PutNonErpFlags(b1, cfg, sta, false, t, g);
    var b3 := Lower(b2, sta, NoShortSlot);
    PutFlags(b2, sta, NoShortSlot, false, t, g);
    PutFlags(b3, sta, NoGf, false, t, g);
    PutFlags(Lower(b3, sta, NoGf), sta, NoHt, false, t, g);
    var b4 := Lower(Lower(Lower(b3, sta, NoGf), sta, NoHt), sta, Ht20);
    PutFlags(Lower(Lower(b3, sta, NoGf), sta, NoHt), sta, Ht20, false, t, g);
    LowerGuardedFlags(b4, sta, t, g);
    UpdateHtFlags(LowerGuarded(b4, sta), cfg, t);
  }

  lemma LowerGuardedFlags(b: Bss, sta: nat, t: nat, g: Flag)
    requires Complete(b)
    ensures g in FlagsOf(LowerGuarded(b, sta), t) <==>
            if t == sta && g == Intolerant40 then false else g in FlagsOf(b, t)
  {
  }

  // ----- what the beacon says about the events of a run -----

  /** The event raises a flag of the station. */
  predicate Raises(cfg: Config, e: Event, sta: nat, g: Flag) {
    match e
    case Joins(x, caps) => x == sta && Says(caps, g) && (cfg.htEnabled || !(g == NoHt || Sticks(g)))
    case SendsCoexistence(x, intolerant) => x == sta && intolerant && g == Intolerant40
    case _ => false
  }

  /** The event makes the station's flag forget what raised it before. */
  predicate Forgets(e: Event, sta: nat, g: Flag) {
    match e
    case Joins(x, _) => x == sta && !Sticks(g)
    case Leaves(x) => x == sta
    case _ => false
  }

  /** Event `k` raised the flag, and nothing after it made the flag forget. */
  ghost predicate RaisedBy(cfg: Config, es: seq<Event>, sta: nat, g: Flag, k: nat) {
    k < |es| && Raises(cfg, es[k], sta, g) && forall j :: k < j < |es| ==> !Forgets(es[j], sta, g)
  }

  lemma EventFlags(b: Bss, cfg: Config, e: Event, sta: nat, g: Flag)
    requires Complete(b)
    requires !cfg.htEnabled && g == NoHt ==> g !in FlagsOf(b, sta)
    ensures g in FlagsOf(Apply(b, cfg, e), sta) <==>
            Raises(cfg, e, sta, g) || (g in FlagsOf(b, sta) && !Forgets(e, sta, g))
  {
    hide FlagsOf, Join, Leave, Coexistence;
    match e
    case Joins(x, caps) => JoinFlags(b, cfg, x, caps, sta, g);
    case Leaves(x) => LeaveFlags(b, cfg, x, sta);
    case SendsCoexistence(x, intolerant) => CoexistenceFlags(b, x, intolerant, sta, g);
    case OverlappingLegacy(seen) => OlbcFlags(b, seen, sta);
  }

  lemma OlbcFlags(b: Bss, seen: bool, sta: nat)
    ensures FlagsOf(b.(olbcHt := seen), sta) == FlagsOf(b, sta)
  {
  }

  lemma RaisedOneMore(cfg: Config, es: seq<Event>, sta: nat, g: Flag)
    requires es != []
    ensures var n := |es| - 1;
            (exists k: nat :: RaisedBy(cfg, es, sta, g, k)) <==>
            Raises(cfg, es[n], sta, g) ||
            (!Forgets(es[n], sta, g) && exists k: nat :: RaisedBy(cfg, es[..n], sta, g, k))
  {
    hide Raises, Forgets;
    var n := |es| - 1;
    if Raises(cfg, es[n], sta, g) {
      assert RaisedBy(cfg, es, sta, g, n);
    }
    forall k: nat | k < n
      ensures RaisedBy(cfg, es, sta, g, k) <==> !Forgets(es[n], sta, g) && RaisedBy(cfg, es[..n], sta, g, k)
    {
      RaisedBefore(cfg, es, sta, g, k);
    }
    if k: nat :| RaisedBy(cfg, es[..n], sta, g, k) {
      assert k < n;
    }
  }

  lemma RaisedBefore(cfg: Config, es: seq<Event>, sta: nat, g: Flag, k: nat)
    requires k < |es| - 1
    ensures RaisedBy(cfg, es, sta, g, k) <==>
            !Forgets(es[|es| - 1], sta, g) && RaisedBy(cfg, es[..|es| - 1], sta, g, k)
  {
    hide Raises, Forgets;
    var n := |es| - 1;
    forall j | k < j < n
      ensures es[..n][j] == es[j]
    {
    }
  }

  /** Over every run, a station carries a flag exactly when an event raised it and no later event of
      the station made it forget. */
  lemma {:induction false} FlagsTellEvents(cfg: Config, erp: bv8, es: seq<Event>, sta: nat, g: Flag)
    ensures g in FlagsOf(Run(cfg, erp, es), sta) <==> exists k: nat :: RaisedBy(cfg, es, sta, g, k)
  {
    hide RaisedBy, FlagsOf, Apply;
    if es == [] {
      NothingRaised(cfg, erp, sta, g);
    } else {
      var n := |es| - 1;
      FlagsTellEvents(cfg, erp, es[..n], sta, g);
      RaisedOneMore(cfg, es, sta, g);
      NoHtNeverRaised(cfg, es[..n], sta);
      EventFlags(Run(cfg, erp, es[..n]), cfg, es[n], sta, g);
    }
  }

  lemma NothingRaised(cfg: Config, erp: bv8, sta: nat, g: Flag)
    ensures FlagsOf(Started(erp), sta) == {}
    ensures forall k: nat :: !RaisedBy(cfg, [], sta, g, k)
  {
  }

  lemma NoHtNeverRaised(cfg: Config, es: seq<Event>, sta: nat)
    ensures !cfg.htEnabled ==> forall k: nat :: !RaisedBy(cfg, es, sta, NoHt, k)
  {
  }

  /** Some station has the flag for something it said. */
  ghost predicate SomeoneSaid(cfg: Config, es: seq<Event>, g: Flag) {
    exists sta: nat, k: nat :: RaisedBy(cfg, es, sta, g, k)
  }

  lemma PresentMeansSaid(cfg: Config, erp: bv8, es: seq<Event>, g: Flag)
    ensures Present(Run(cfg, erp, es), g) <==> SomeoneSaid(cfg, es, g)
  {
    hide RaisedBy, Run;
    var b := Run(cfg, erp, es);
    forall sta: nat {
      FlagsTellEvents(cfg, erp, es, sta, g);
    }
    if Present(b, g) {
      var sta :| sta in b.flags && g in b.flags[sta];
      assert g in FlagsOf(b, sta);
    }
    if sta: nat, k: nat :| RaisedBy(cfg, es, sta, g, k) {
      assert g in FlagsOf(b, sta);
    }
  }

  /** The last thing a station did was to associate, by event `k`. */
  ghost predicate LastJoin(es: seq<Event>, sta: nat, k: nat) {
    k < |es| && es[k].Joins? && es[k].sta == sta
    && forall j :: k < j < |es| ==> !((es[j].Joins? || es[j].Leaves?) && es[j].sta == sta)
  }

  /** Over every run both ERP protection bits are set if and only if some station whose last
      association has not ended said in it that it is non-ERP. */
  lemma ErpBitsTellEvents(cfg: Config, erp: bv8, es: seq<Event>)
    requires cfg.erpActive && erp & 3 == 0
    ensures var b, said := Run(cfg, erp, es), exists sta: nat, k: nat :: LastJoin(es, sta, k) && es[k].caps.nonErp;
            (b.erp & 1 != 0 <==> said) && (b.erp & 2 != 0 <==> said)
  {
    hide Run, Present, RaisedBy, LastJoin;
    ErpBitsTellStations(cfg, erp, es);
    PresentMeansSaid(cfg, erp, es, NonErp);
    forall sta: nat, k: nat {
      NonErpRaised(cfg, es, sta, k);
    }
  }

  lemma NonErpRaised(cfg: Config, es: seq<Event>, sta: nat, k: nat)
    ensures RaisedBy(cfg, es, sta, NonErp, k) <==> LastJoin(es, sta, k) && es[k].caps.nonErp
  {
  }

  /** `ht_op_mode`: the mode in the two low bits, then bit 2 and bit 4. */
  function Word(m: OpMode): (w: nat) {
    (match m.protection case Pure => 0 case MayBeLegacy => 1 case Some20MHz => 2 case Mixed => 3)
    + (if m.nonGf then 4 else 0) + (if m.nonHt then 16 else 0)
  }

  lemma WordBits(m: OpMode)
    ensures Word(m) % 4 == 3 <==> m.protection == Mixed
    ensures Word(m) % 4 == 2 <==> m.protection == Some20MHz
    ensures Word(m) % 4 == 1 <==> m.protection == MayBeLegacy
    ensures Word(m) % 4 == 0 <==> m.protection == Pure
    ensures Word(m) / 4 % 2 == 1 <==> m.nonGf
    ensures Word(m) / 16 == 1 <==> m.nonHt
  {
  }

  /** A station associated in event `k` and has not left since, though it may have associated again. */
  ghost predicate Stayed(es: seq<Event>, sta: nat, k: nat) {
    k < |es| && es[k].Joins? && es[k].sta == sta && forall j :: k < j < |es| ==> es[j] != Leaves(sta)
  }

  /** A station is associated, and said in its last association that it does not do HT. */
  ghost predicate LegacyStation(es: seq<Event>) {
    exists sta: nat, k: nat :: LastJoin(es, sta, k) && !es[k].caps.ht
  }

  /** A station is associated, and said once since it came that it is an HT station of 20 MHz only. */
  ghost predicate NarrowStation(es: seq<Event>) {
    exists sta: nat, k: nat :: Stayed(es, sta, k) && es[k].caps.ht && !es[k].caps.wide
  }

  /** A station is associated, and said once since it came that it is an HT station without greenfield. */
  ghost predicate NoGreenfieldStation(es: seq<Event>) {
    exists sta: nat, k: nat :: Stayed(es, sta, k) && es[k].caps.ht && !es[k].caps.greenfield
  }

  /** Over every run the HT operation mode is the one that the events call for: 3 with a legacy station,
      else 2 with a narrow one in a wide BSS, else 1 with a legacy BSS around, else 0; bit 2 for a station
      without greenfield, bit 4 for anything legacy. With HT disabled the stations do not count. */
  lemma HtModeTellsEvents(cfg: Config, erp: bv8, es: seq<Event>)
    requires cfg.htOption && erp & 3 == 0
    ensures var w, seen := Word(Run(cfg, erp, es).opMode), Run(cfg, erp, es).olbcSeen;
            var legacy := cfg.htEnabled && LegacyStation(es);
            var narrow := cfg.htEnabled && cfg.supWidth && NarrowStation(es);
            && (w % 4 == 3 <==> legacy)
            && (w % 4 == 2 <==> !legacy && narrow)
            && (w % 4 == 1 <==> !legacy && !narrow && seen)
            && (w % 4 == 0 <==> !legacy && !narrow && !seen)
            && (w / 4 % 2 == 1 <==> cfg.htEnabled && NoGreenfieldStation(es))
            && (w / 16 == 1 <==> legacy || seen)
  {
    hide Run, Present, RaisedBy, LastJoin, Stayed, Word;
    HtModeTellsStations(cfg, erp, es);
    WordBits(Run(cfg, erp, es).opMode);
    PresentMeansSaid(cfg, erp, es, NoHt);
    PresentMeansSaid(cfg, erp, es, Ht20);
    PresentMeansSaid(cfg, erp, es, NoGf);
    forall sta: nat, k: nat {
      HtRaised(cfg, es, sta, k);
    }
  }

  lemma HtRaised(cfg: Config, es: seq<Event>, sta: nat, k: nat)
    ensures RaisedBy(cfg, es, sta, NoHt, k) <==> cfg.htEnabled && LastJoin(es, sta, k) && !es[k].caps.ht
    ensures RaisedBy(cfg, es, sta, Ht20, k) <==>
            cfg.htEnabled && Stayed(es, sta, k) && es[k].caps.ht && !es[k].caps.wide
    ensures RaisedBy(cfg, es, sta, NoGf, k) <==>
            cfg.htEnabled && Stayed(es, sta, k) && es[k].caps.ht && !es[k].caps.greenfield
  {
  }

  // ----- the Barker preamble bit -----

  predicate BarkerMatches(b: Bss)
    requires Complete(b)
  {
    b.erp & ERP_BARKER_PREAMBLE != 0 <==> b.num[NoShortPreamble] > 0
  }

  /** Does this non-ERP flag change update the ERP element? */
  predicate ErpEdge(b: Bss, sta: nat, on: bool)
    requires Complete(b)
  {
    if on then NonErp !in FlagsOf(b, sta) && b.num[NonErp] == 0
    else NonErp in FlagsOf(b, sta) && b.num[NonErp] == 1
  }

  /** The Barker bit is not updated with the preamble counter but only together with the
      non-ERP edge: an ERP station without short preamble joins an empty BSS unnoticed. */
  lemma BarkerBitCanLag()
    ensures var cfg := Config(true, true, true, true);
            var caps := Caps(false, false, true, true, true, true, false);
            !BarkerMatches(Join(Started(0), cfg, 0, caps))
  {
    var b := Started(0);
    var c := Put(b, 0, NoShortPreamble, true);
    assert c.num[NoShortPreamble] == 1;
  }

  /** Will some station lack the short preamble once this one does (`on`) or does not? */
  predicate LongPreambleLeft(b: Bss, sta: nat, on: bool)
    requires Complete(b)
  {
    on || b.num[NoShortPreamble] > if NoShortPreamble in FlagsOf(b, sta) then 1 else 0
  }

  lemma PutNonErpBarker(b: Bss, cfg: Config, sta: nat, on: bool)
    requires Complete(b) && cfg.erpActive
    ensures BarkerMatches(PutNonErp(b, cfg, sta, on)) <==> ErpEdge(b, sta, on) || BarkerMatches(b)
  {
  }

  /** A change of a station's preamble and non-ERP flags leaves the Barker bit right exactly when
      it passes a non-ERP edge or the bit already shows what the counter comes to. */
  lemma BarkerAfterPuts(b: Bss, cfg: Config, sta: nat, long: bool, on: bool)
    requires Counted(b) && cfg.erpActive
    ensures BarkerMatches(PutNonErp(Put(b, sta, NoShortPreamble, long), cfg, sta, on)) <==>
            ErpEdge(b, sta, on) ||
            (b.erp & ERP_BARKER_PREAMBLE != 0 <==> LongPreambleLeft(b, sta, long))
  {
    hide NumsCount, PutNonErp;
    PutCounts(b, sta, NoShortPreamble, long);
    CountedPresent(b, NoShortPreamble);
    if NoShortPreamble in FlagsOf(b, sta) {
      FlagCounted(b, sta, NoShortPreamble);
    }
    PutNonErpBarker(Put(b, sta, NoShortPreamble, long), cfg, sta, on);
  }

  lemma BarkerAfterJoin(b: Bss, cfg: Config, sta: nat, caps: Caps)
    requires Inv(b, cfg) && cfg.erpActive
    ensures BarkerMatches(Join(b, cfg, sta, caps)) <==>
            ErpEdge(b, sta, caps.nonErp) ||
            (b.erp & ERP_BARKER_PREAMBLE != 0 <==> LongPreambleLeft(b, sta, !caps.shortPreamble))
  {
    hide NumsCount, Complete, ErpMatches, HtMatches, Put, PutNonErp, JoinHt, ErpEdge, LongPreambleLeft;
    BarkerAfterPuts(b, cfg, sta, !caps.shortPreamble, caps.nonErp);
    var b1 := Put(b, sta, NoShortPreamble, !caps.shortPreamble);
    PutKeeps(b, cfg, sta, NoShortPreamble, !caps.shortPreamble);
    var b2 := PutNonErp(b1, cfg, sta, caps.nonErp);
    PutNonErpKeeps(b1, cfg, sta, caps.nonErp);
    PutCounts(b2, sta, NoShortSlot, !caps.shortSlot);
    JoinHtTouches(Put(b2, sta, NoShortSlot, !caps.shortSlot), cfg, sta, caps);
  }

  lemma BarkerAfterLeave(b: Bss, cfg: Config, sta: nat)
    requires Inv(b, cfg) && cfg.erpActive
    ensures BarkerMatches(Leave(b, cfg, sta)) <==>
            ErpEdge(b, sta, false) ||
            (b.erp & ERP_BARKER_PREAMBLE != 0 <==> LongPreambleLeft(b, sta, false))
  {
    hide NumsCount, Complete, ErpMatches, HtMatches, Lower, PutNonErp, LeaveHt, ErpEdge, LongPreambleLeft;
    BarkerAfterPuts(b, cfg, sta, false, false);
    var b1 := Lower(b, sta, NoShortPreamble);
    PutKeeps(b, cfg, sta, NoShortPreamble, false);
    var b2 := PutNonErp(b1, cfg, sta, false);
    PutNonErpKeeps(b1, cfg, sta, false);
    LowerCounts(b2, sta, NoShortSlot);
    LeaveHtTouches(Lower(b2, sta, NoShortSlot), cfg, sta);
  }
}
