/** The handlers of core/rtw_ap.c that keep the station flags, the counters and the derived
    beacon bits, updating them in place. */
module StationBook {
  import Elements
  import opened Stations

  /** A counter went from none to some or back. */
  predicate Passed(before: map<Flag, int>, after: map<Flag, int>, f: Flag)
    requires f in before && f in after
  {
    (before[f] > 0) != (after[f] > 0)
  }

  /** The bit changes of `update_bcn_erpinfo_ie`. */
  method RewriteErp(octet: bv8, protect: bool, barker: bool) returns (e: bv8)
    ensures e == ErpOctet(octet, protect, barker)
    ensures e & 3 == (if protect then 3 else 0) && e & 4 == (if barker then 4 else 0) && e & 0xF8 == octet & 0xF8
  {
    ErpOctetBits(octet, protect, barker);
    e := octet;
    if protect {
      e := e | (ERP_NON_ERP_PRESENT | ERP_USE_PROTECTION);
    } else {
      e := e & !(ERP_NON_ERP_PRESENT | ERP_USE_PROTECTION);
    }
    if barker {
      e := e | ERP_BARKER_PREAMBLE;
    } else {
      e := e & !ERP_BARKER_PREAMBLE;
    }
  }

  /** The changes of `rtw_ht_operation_update`, and their number. */
  method RewriteMode(m: OpMode, noGf: bool, noHt: bool, narrow: bool, olbc: bool) returns (r: OpMode, changes: nat)
    ensures r == OpMode(if noHt then Mixed else if narrow then Some20MHz else if olbc then MayBeLegacy else Pure,
                        noGf, noHt || olbc)
    ensures changes == 0 <==> r == m
    ensures Word(r) % 4 == (if noHt then 3 else if narrow then 2 else if olbc then 1 else 0)
    ensures (Word(r) / 4 % 2 == 1 <==> noGf) && (Word(r) / 16 == 1 <==> noHt || olbc)
  {
    hide Word;
    r, changes := m, 0;
    if !r.nonGf && noGf {
      r, changes := r.(nonGf := true), changes + 1;
    } else if r.nonGf && !noGf {
      r, changes := r.(nonGf := false), changes + 1;
    }
    if !r.nonHt && (noHt || olbc) {
      r, changes := r.(nonHt := true), changes + 1;
    } else if r.nonHt && !noHt && !olbc {
      r, changes := r.(nonHt := false), changes + 1;
    }
    var protection := Pure;
    if noHt {
      protection := Mixed;
    } else if narrow {
      protection := Some20MHz;
    } else if olbc {
      protection := MayBeLegacy;
    }
    if r.protection != protection {
      r, changes := r.(protection := protection), changes + 1;
    }
    WordBits(r);
  }

  lemma ProtectionIs(noHt: bool, ht20: bool, olbc: bool, cfg: Config)
    ensures ProtectionFor(noHt, ht20, olbc, cfg) ==
            if noHt then Mixed else if cfg.supWidth && ht20 then Some20MHz else if olbc then MayBeLegacy else Pure
  {
  }

  const EID_BSS_COEXISTENCE := 72
  const EID_BSS_INTOLERANT_CHANNELS := 73

  // What the body of a 20/40 BSS Coexistence Management frame says.

  predicate HasCoexistence(body: seq<Elements.byte>) {
    |body| >= 5 && body[2] == EID_BSS_COEXISTENCE && body[3] > 0
  }

  predicate SaysIntolerant(body: seq<Elements.byte>) {
    HasCoexistence(body) && (body[4] / 2) % 2 == 1
  }

  predicate WantsWidth20(body: seq<Elements.byte>) {
    HasCoexistence(body) && !SaysIntolerant(body) && (body[4] / 4) % 2 == 1
  }

  predicate ReportsChannels(body: seq<Elements.byte>) {
    |body| > 8 && body[5] == EID_BSS_INTOLERANT_CHANNELS && body[6] > 0
  }

  class Book {
    const cfg: Config
    const beyondB: bool              // `cur_wireless_mode` is more than 11b
    var flags: map<nat, set<Flag>>
    var num: map<Flag, int>
    var erp: bv8
    var opMode: OpMode
    var olbcHt: bool
    var tim: set<nat>                // stations whose traffic is announced
    var width20Req: bool             // `ht_20mhz_width_req`
    var intolerantChReported: bool   // `ht_intolerant_ch_reported`
    ghost var olbcSeen: bool
    ghost var warned: bool

    ghost function View(): (b: Bss)
      reads this
    {
      Bss(flags, num, erp, opMode, olbcHt, olbcSeen, warned)
    }

    ghost predicate Valid()
      reads this
    {
      Inv(View(), cfg)
    }

    /** `start_ap_mode` */
    constructor (cfg: Config, beyondB: bool, erp: bv8)
      requires erp & (ERP_NON_ERP_PRESENT | ERP_USE_PROTECTION) == 0
      ensures this.cfg == cfg && this.beyondB == beyondB && tim == {}
      ensures !width20Req && !intolerantChReported
      ensures View() == Started(erp) && Valid()
    {
      this.cfg := cfg;
      this.beyondB := beyondB;
      flags := map[];
      num := Zeroes;
      this.erp := erp;
      opMode := OpMode(Pure, false, false);
      olbcHt := false;
      olbcSeen := false;
      tim := {};
      width20Req, intolerantChReported := false, false;
      warned := false;
      new;
      RunKeepsInv(cfg, erp, []);
    }

    /** Set a flag that is clear; was it? */
    method Set(sta: nat, f: Flag) returns (changed: bool)
      requires Complete(View())
      modifies `flags, `num
      ensures View() == Raise(old(View()), sta, f)
      ensures changed <==> f !in old(FlagsOf(View(), sta))
    {
      var mine := if sta in flags then flags[sta] else {};
      changed := f !in mine;
      if changed {
        flags := flags[sta := mine + {f}];
        num := num[f := num[f] + 1];
      }
    }

    /** Clear a flag that is set; was it? */
    method Clear(sta: nat, f: Flag) returns (changed: bool)
      requires Complete(View())
      modifies `flags, `num
      ensures View() == Lower(old(View()), sta, f)
      ensures changed <==> f in old(FlagsOf(View(), sta))
    {
      var mine := if sta in flags then flags[sta] else {};
      changed := f in mine;
      if changed {
        flags := flags[sta := mine - {f}];
        num := num[f := num[f] - 1];
      }
    }

    method ClearIntolerant(sta: nat)
      requires Complete(View())
      modifies `flags, `num, `warned
      ensures View() == LowerGuarded(old(View()), sta)
    {
      if sta in flags && Intolerant40 in flags[sta] {
        flags := flags[sta := flags[sta] - {Intolerant40}];
        if num[Intolerant40] > 0 {
          num := num[Intolerant40 := num[Intolerant40] - 1];
        } else {
          warned := true;
        }
      }
    }

    /** `update_bcn_erpinfo_ie`; with counters that count, the protection bits come out right exactly
        when at most one non-ERP station is counted. */
    method UpdateErpInfo()
      requires Complete(View())
      modifies `erp
      ensures View() == UpdateErp(old(View()), cfg)
      ensures cfg.erpActive && Counted(old(View())) ==> (ErpMatches(View(), cfg) <==> num[NonErp] <= 1)
    {
      hide Counted, ErpMatches, ErpOctet;
      if !cfg.erpActive {
        return;
      }
      ghost var was := View();
      if Counted(was) {
        ErpUpdateRight(was, cfg);
      }
      erp := RewriteErp(erp, num[NonErp] == 1, num[NoShortPreamble] > 0);
    }

    /** `rtw_ht_operation_update`: the number of changes is zero exactly when nothing changed. */
    method UpdateOperation() returns (changes: nat)
      requires Complete(View())
      modifies `opMode, `olbcSeen
      ensures View() == UpdateHt(old(View()), cfg)
      ensures changes == 0 <==> opMode == old(opMode)
      ensures cfg.htOption ==>
                && Word(opMode) % 4 ==
                     (if num[NoHt] != 0 then 3 else if cfg.supWidth && num[Ht20] != 0 then 2
                      else if olbcHt then 1 else 0)
                && (Word(opMode) / 4 % 2 == 1 <==> num[NoGf] != 0)
                && (Word(opMode) / 16 == 1 <==> num[NoHt] != 0 || olbcHt)
    {
      hide Word, ProtectionFor;
      changes := 0;
      if !cfg.htOption {
        return;
      }
      opMode, changes := RewriteMode(opMode, num[NoGf] != 0, num[NoHt] != 0, cfg.supWidth && num[Ht20] != 0, olbcHt);
      olbcSeen := olbcHt;
      ProtectionIs(num[NoHt] != 0, num[Ht20] != 0, olbcHt, cfg);
    }

    /** Write one flag either way; did its counter pass between none and some? */
    method Write(sta: nat, f: Flag, on: bool) returns (edge: bool)
      requires Counted(View())
      modifies `flags, `num
      ensures View() == Put(old(View()), sta, f, on) && Counted(View())
      ensures edge <==> Passed(old(num), num, f)
    {
      hide NumsCount;
      PutCounts(View(), sta, f, on);
      CountedPresent(View(), f);
      ghost var was := View();
      if on {
        var changed := Set(sta, f);
        edge := changed && num[f] == 1;
      } else {
        var changed := Clear(sta, f);
        edge := changed && num[f] == 0;
        if changed {
          FlagCounted(was, sta, f);
        }
      }
    }

    /** The non-ERP flag, with the update of the ERP element it may call for. */
    method WriteNonErp(sta: nat, on: bool) returns (edge: bool)
      requires Counted(View())
      modifies `flags, `num, `erp
      ensures View() == PutNonErp(old(View()), cfg, sta, on)
      ensures edge <==> Passed(old(num), num, NonErp)
      ensures erp != old(erp) ==> edge
    {
      hide NumsCount, UpdateErp;
      edge := Write(sta, NonErp, on);
      if edge {
        UpdateErpInfo();
      }
    }

    /** The HT part of `bss_cap_update_on_sta_join`. */
    method JoinWithHt(sta: nat, caps: Caps) returns (changes: nat)
      requires Counted(View())
      modifies `flags, `num, `opMode, `olbcSeen
      ensures View() == JoinHt(old(View()), cfg, sta, caps)
      ensures changes == 0 <==> opMode == old(opMode)
    {
      hide NumsCount, Raise, Lower, UpdateHt;
      if !cfg.htEnabled {
        return 0;
      }
      if caps.ht {
        var _ := Clear(sta, NoHt);
        if !caps.greenfield {
          var _ := Set(sta, NoGf);
        }
        if !caps.wide {
          var _ := Set(sta, Ht20);
        }
        if caps.intolerant {
          var _ := Set(sta, Intolerant40);
        }
      } else {
        var _ := Set(sta, NoHt);
      }
      changes := UpdateOperation();
    }

    /** `bss_cap_update_on_sta_join`: the beacon counts as updated exactly when a counter it shows
        passed between none and some or the HT operation mode changed. */
    method StationJoins(sta: nat, caps: Caps) returns (updated: bool)
      requires Valid()
      modifies `flags, `num, `erp, `opMode, `olbcSeen
      ensures Valid() && View() == Join(old(View()), cfg, sta, caps)
      ensures updated <==>
              Passed(old(num), num, NonErp) || opMode != old(opMode) ||
              (beyondB && (Passed(old(num), num, NoShortPreamble) || Passed(old(num), num, NoShortSlot)))
    {
      hide NumsCount, Complete, Put, PutNonErp, JoinHt, ErpMatches, HtMatches;
      ghost var b0 := View();
      JoinKeeps(b0, cfg, sta, caps);
      var long := Write(sta, NoShortPreamble, !caps.shortPreamble);
      ghost var b1 := View();
      PutCounts(b0, sta, NoShortPreamble, !caps.shortPreamble);
      PutKeeps(b0, cfg, sta, NoShortPreamble, !caps.shortPreamble);
      var erpEdge := WriteNonErp(sta, caps.nonErp);
      ghost var b2 := View();
      PutNonErpMatches(b1, cfg, sta, caps.nonErp);
      var slow := Write(sta, NoShortSlot, !caps.shortSlot);
      ghost var b3 := View();
      PutCounts(b2, sta, NoShortSlot, !caps.shortSlot);
      JoinHtTouches(b3, cfg, sta, caps);
      var changes := JoinWithHt(sta, caps);
      updated := erpEdge || (beyondB && (long || slow)) || changes > 0;
    }

    /** `bss_cap_update_on_sta_leave`. Unlike an association, a departure that changes the HT
        operation mode alone does not report an updated beacon. */
    method StationLeaves(sta: nat) returns (updated: bool)
      requires Valid()
      modifies `flags, `num, `erp, `opMode, `olbcSeen, `warned, `tim
      ensures Valid() && View() == Leave(old(View()), cfg, sta) && tim == old(tim) - {sta}
      ensures updated <==>
              sta in old(tim) || Passed(old(num), num, NonErp) ||
              (beyondB && (Passed(old(num), num, NoShortPreamble) || Passed(old(num), num, NoShortSlot)))
    {
      hide NumsCount, Complete, Lower, PutNonErp, LeaveHt, ErpMatches, HtMatches;
      ghost var b0 := View();
      LeaveKeeps(b0, cfg, sta);
      var announced := sta in tim;
      tim := tim - {sta};
      var long := Write(sta, NoShortPreamble, false);
      ghost var b1 := View();
      PutCounts(b0, sta, NoShortPreamble, false);
      PutKeeps(b0, cfg, sta, NoShortPreamble, false);
      var erpEdge := WriteNonErp(sta, false);
      ghost var b2 := View();
      PutNonErpMatches(b1, cfg, sta, false);
      var slow := Write(sta, NoShortSlot, false);
      ghost var b3 := View();
      PutCounts(b2, sta, NoShortSlot, false);
      updated := announced || erpEdge || (beyondB && (long || slow));
      LeaveHtTouches(b3, cfg, sta);
      ClearHt(sta);
    }

    /** The HT part of `bss_cap_update_on_sta_leave`. */
    method ClearHt(sta: nat)
      requires Complete(View())
      modifies `flags, `num, `opMode, `olbcSeen, `warned
      ensures View() == LeaveHt(old(View()), cfg, sta)
    {
      hide Lower, LowerGuarded, UpdateHt;
      var _ := Clear(sta, NoGf);
      var _ := Clear(sta, NoHt);
      var _ := Clear(sta, Ht20);
      ClearIntolerant(sta);
      var _ := UpdateOperation();
    }

    /** `rtw_process_public_act_bsscoex`; `known` is whether there is a station with the address the
        frame comes from. The beacon is updated exactly when something the frame says is news. */
    method CoexistenceFrame(sta: nat, known: bool, body: seq<Elements.byte>) returns (updated: bool)
      requires Valid() && (body == [] || |body| >= 5)
      modifies `flags, `num, `width20Req, `intolerantChReported
      ensures Valid()
      ensures View() == if known then Coexistence(old(View()), sta, SaysIntolerant(body)) else old(View())
      ensures width20Req == (old(width20Req) || (known && WantsWidth20(body)))
      ensures intolerantChReported == (old(intolerantChReported) || (known && ReportsChannels(body)))
      ensures known && |body| >= 5 && body[2] == 72 && body[3] > 0 && body[4] / 2 % 2 == 1 ==>
                Intolerant40 in FlagsOf(View(), sta)
      ensures known && |body| >= 5 && body[2] == 72 && body[3] > 0 && body[4] / 2 % 2 == 0 && body[4] / 4 % 2 == 1 ==>
                width20Req && View() == old(View())
      ensures known && |body| > 8 && body[5] == 73 && body[6] > 0 ==> intolerantChReported
      ensures !known || body == [] || body[2] != 72 || body[3] == 0 || body[4] / 2 % 4 == 0 ==>
                View() == old(View()) && width20Req == old(width20Req)
      ensures !known || |body| <= 8 || body[5] != 73 || body[6] == 0 ==>
                intolerantChReported == old(intolerantChReported)
      ensures updated <==>
              || (known && SaysIntolerant(body) && Intolerant40 !in old(FlagsOf(View(), sta)))
              || width20Req != old(width20Req) || intolerantChReported != old(intolerantChReported)
    {
      hide Inv;
      EventKeeps(View(), cfg, SendsCoexistence(sta, SaysIntolerant(body)));
      updated := false;
      if !known {
        return;
      }
      InvComplete(View(), cfg);
      CoexistenceFlags(View(), sta, SaysIntolerant(body), sta, Intolerant40);
      if |body| > 0 && body[2] == EID_BSS_COEXISTENCE && body[3] > 0 {
        if (body[4] / 2) % 2 == 1 {
          updated := Set(sta, Intolerant40);
        } else if (body[4] / 4) % 2 == 1 {
          if !width20Req {
            width20Req := true;
            updated := true;
          }
        }
      }
      if |body| > 8 && body[5] == EID_BSS_INTOLERANT_CHANNELS && body[6] > 0 {
        if !intolerantChReported {
          intolerantChReported := true;
          updated := true;
        }
      }
    }
  }
}
