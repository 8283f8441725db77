/** Bringing channel settings of several interfaces together (core/rtw_ieee80211.c). */
module ChannelSync {

  import opened ChannelWidths

  datatype Chbw = Chbw(ch: nat, bw: nat, offset: nat)

  /** `rtw_get_offset_by_chbw`: the offset for a channel, a width and a wish. Nothing below
      depends on what it is. */
  type OffsetFn = (nat, nat, nat) -> nat

  predicate Is40Or80(bw: nat) {
    bw == WIDTH_40 || bw == WIDTH_80
  }

  /** `rtw_is_chbw_grouped` */
  predicate Grouped(a: Chbw, b: Chbw) {
    a.ch == b.ch && (Is40Or80(a.bw) && Is40Or80(b.bw) ==> a.offset == b.offset)
  }

  /** The request as `rtw_sync_chbw` leaves it. */
  function Synced(f: OffsetFn, req: Chbw, g: Chbw): (r: Chbw) {
    var bw := if req.bw == WIDTH_80 && g.ch <= 14 then WIDTH_40 else req.bw;
    if Is40Or80(bw) then
      var offset := if Is40Or80(g.bw) then g.offset
                    else if g.bw == WIDTH_20 then f(g.ch, bw, req.offset)
                    else req.offset;
      Chbw(g.ch, if offset == OFFSET_DONT_CARE then WIDTH_20 else bw, offset)
    else if bw == WIDTH_20 then Chbw(g.ch, bw, OFFSET_DONT_CARE)
    else Chbw(g.ch, bw, req.offset)
  }

  /** The group as `rtw_sync_chbw` leaves it. */
  function Widened(f: OffsetFn, req: Chbw, g: Chbw): (r: Chbw) {
    var s := Synced(f, req, g);
    if s.bw > g.bw then Chbw(g.ch, s.bw, s.offset) else g
  }

  /** `rtw_sync_chbw`, which updates the request and the group through its pointers. */
  method Sync(f: OffsetFn, req: Chbw, g: Chbw) returns (r: Chbw, h: Chbw)
    ensures r == Synced(f, req, g) && h == Widened(f, req, g)
    ensures Grouped(r, h) && h.ch == g.ch && h.bw >= g.bw && r.bw <= req.bw
  {
    r, h := req.(ch := g.ch), g;
    if r.bw == WIDTH_80 && g.ch <= 14 {
      r := r.(bw := WIDTH_40);
    }
    if r.bw == WIDTH_80 || r.bw == WIDTH_40 {
      if g.bw == WIDTH_40 || g.bw == WIDTH_80 {
        r := r.(offset := g.offset);
      } else if g.bw == WIDTH_20 {
        r := r.(offset := f(r.ch, r.bw, r.offset));
      }
      if r.offset == OFFSET_DONT_CARE {
        r := r.(bw := WIDTH_20);
      }
    } else if r.bw == WIDTH_20 {
      r := r.(offset := OFFSET_DONT_CARE);
    }
    if r.bw > h.bw {
      h := h.(bw := r.bw, offset := r.offset);
    }
  }

  /** A synced request fits the group it was synced with. */
  lemma SyncGroups(f: OffsetFn, req: Chbw, g: Chbw)
    ensures Grouped(Synced(f, req, g), Widened(f, req, g))
  {
  }

  /** Syncing a request again changes neither it nor the group. */
  lemma SyncIdempotent(f: OffsetFn, req: Chbw, g: Chbw)
    ensures var r, h := Synced(f, req, g), Widened(f, req, g);
            Synced(f, r, h) == r && Widened(f, r, h) == h
  {
  }

  /** A request is narrowed exactly when it asks for 80 MHz in the 2.4 GHz band or for 40 or 80
      MHz where no offset is to be had, and what has no offset is 20 MHz wide. */
  lemma SyncedWidth(f: OffsetFn, req: Chbw, g: Chbw)
    ensures var r := Synced(f, req, g);
            && r.bw <= req.bw
            && (r.bw < req.bw <==>
                  (req.bw == WIDTH_80 && g.ch <= 14) || (Is40Or80(req.bw) && r.offset == OFFSET_DONT_CARE))
            && (req.bw <= WIDTH_80 ==> (r.bw == WIDTH_20 <==> r.offset == OFFSET_DONT_CARE))
            && (r.bw == WIDTH_80 ==> g.ch > 14)
  {
  }

  /** Where a request gets its offset from, the widths being 0, 1 and 2 for 20, 40 and 80 MHz: a
      wide group gives its own, and a 20 MHz group the one found for the width asked, which is 40
      MHz when 80 are asked on channels up to 14. */
  lemma SyncedOffset(f: OffsetFn, req: Chbw, g: Chbw)
    ensures var r := Synced(f, req, g);
            && r.ch == g.ch
            && ((req.bw == 1 || req.bw == 2) && (g.bw == 1 || g.bw == 2) ==> r.offset == g.offset)
            && (req.bw == 1 && g.bw == 0 ==> r.offset == f(g.ch, 1, req.offset))
            && (req.bw == 2 && g.bw == 0 && g.ch <= 14 ==> r.offset == f(g.ch, 1, req.offset))
            && (req.bw == 2 && g.bw == 0 && g.ch > 14 ==> r.offset == f(g.ch, 2, req.offset))
            && (req.bw == 0 ==> r.offset == 0)
            && (req.bw > 0 && (req.bw > 2 || g.bw > 2) ==> r.offset == req.offset)
            && ((req.bw == 1 || req.bw == 2) ==>
                  r.bw == if r.offset == 0 then 0 else if g.ch <= 14 then 1 else req.bw)
            && (req.bw != 1 && req.bw != 2 ==> r.bw == req.bw)
  {
  }

  // ----- folding over the requests of several interfaces -----

  /** The group after syncing the requests in order. */
  function GroupAfter(f: OffsetFn, g: Chbw, reqs: seq<Chbw>): (h: Chbw) {
    if reqs == [] then g
    else Widened(f, reqs[|reqs| - 1], GroupAfter(f, g, reqs[..|reqs| - 1]))
  }

  /** A request as it was left when its turn came. */
  function SyncedAt(f: OffsetFn, g: Chbw, reqs: seq<Chbw>, i: nat): (r: Chbw)
    requires i < |reqs|
  {
    Synced(f, reqs[i], GroupAfter(f, g, reqs[..i]))
  }

  lemma GroupNext(f: OffsetFn, g: Chbw, reqs: seq<Chbw>, i: nat)
    requires i < |reqs|
    ensures GroupAfter(f, g, reqs[..i + 1]) == Widened(f, reqs[i], GroupAfter(f, g, reqs[..i]))
  {
    assert reqs[..i + 1][..i] == reqs[..i];
  }

  /** The group stays on its channel and is never narrowed; while it is at 40 or 80 MHz it also
      keeps its offset. */
  lemma {:induction false} GroupOnlyWidens(f: OffsetFn, g: Chbw, reqs: seq<Chbw>, i: nat, j: nat)
    requires i <= j <= |reqs|
    ensures var a, b := GroupAfter(f, g, reqs[..i]), GroupAfter(f, g, reqs[..j]);
            a.ch == b.ch == g.ch && a.bw <= b.bw && (Is40Or80(a.bw) && Is40Or80(b.bw) ==> a.offset == b.offset)
    decreases j
  {
    if i < j {
      GroupOnlyWidens(f, g, reqs, i, j - 1);
      GroupNext(f, g, reqs, j - 1);
    } else if j > 0 {
      GroupOnlyWidens(f, g, reqs, i - 1, j - 1);
      GroupNext(f, g, reqs, j - 1);
    }
  }

  /** Every request synced so far stays grouped with the group, whatever widens it later. */
  lemma RequestsStayGrouped(f: OffsetFn, g: Chbw, reqs: seq<Chbw>, i: nat, j: nat)
    requires i < j <= |reqs|
    ensures Grouped(SyncedAt(f, g, reqs, i), GroupAfter(f, g, reqs[..j]))
    ensures SyncedAt(f, g, reqs, i).bw <= GroupAfter(f, g, reqs[..j]).bw
  {
    GroupNext(f, g, reqs, i);
    GroupOnlyWidens(f, g, reqs, i + 1, j);
  }

  /** With widths up to 80 MHz the synced requests also fit each other. */
  lemma RequestsFitEachOther(f: OffsetFn, g: Chbw, reqs: seq<Chbw>, i: nat, j: nat)
    requires i < |reqs| && j < |reqs| && g.bw <= WIDTH_80
    requires forall k :: 0 <= k < |reqs| ==> reqs[k].bw <= WIDTH_80
    ensures Grouped(SyncedAt(f, g, reqs, i), SyncedAt(f, g, reqs, j))
  {
    RequestsStayGrouped(f, g, reqs, i, |reqs|);
    RequestsStayGrouped(f, g, reqs, j, |reqs|);
    GroupUpTo80(f, g, reqs, |reqs|);
  }

  lemma {:induction false} GroupUpTo80(f: OffsetFn, g: Chbw, reqs: seq<Chbw>, j: nat)
    requires j <= |reqs| && g.bw <= WIDTH_80
    requires forall k :: 0 <= k < |reqs| ==> reqs[k].bw <= WIDTH_80
    ensures GroupAfter(f, g, reqs[..j]).bw <= WIDTH_80
  {
    if j > 0 {
      GroupUpTo80(f, g, reqs, j - 1);
      GroupNext(f, g, reqs, j - 1);
    }
  }

  /** The group is no wider than needed: it is the original one, or some request asked for its
      width and offset. */
  lemma {:induction false} GroupIsAskedFor(f: OffsetFn, g: Chbw, reqs: seq<Chbw>, j: nat)
    requires j <= |reqs|
    ensures GroupAfter(f, g, reqs[..j]) == g ||
            exists i: nat :: i < j && SyncedAt(f, g, reqs, i) == GroupAfter(f, g, reqs[..j])
  {
    if j > 0 {
      GroupIsAskedFor(f, g, reqs, j - 1);
      GroupNext(f, g, reqs, j - 1);
      GroupOnlyWidens(f, g, reqs, 0, j - 1);
      assert SyncedAt(f, g, reqs, j - 1).ch == g.ch;
    }
  }

  /** The loop over the interfaces of a device that share a channel. */
  method SyncAll(f: OffsetFn, g: Chbw, reqs: seq<Chbw>) returns (synced: seq<Chbw>, h: Chbw)
    ensures |synced| == |reqs| && h.ch == g.ch && h.bw >= g.bw
    ensures forall i :: 0 <= i < |reqs| ==> synced[i] == SyncedAt(f, g, reqs, i) && Grouped(synced[i], h)
    ensures h == GroupAfter(f, g, reqs)
  {
    synced, h := [], g;
    for n := 0 to |reqs|
      invariant |synced| == n && h == GroupAfter(f, g, reqs[..n])
      invariant forall i :: 0 <= i < n ==> synced[i] == SyncedAt(f, g, reqs, i)
    {
      GroupNext(f, g, reqs, n);
      var r;
      r, h := Sync(f, reqs[n], h);
      synced := synced + [r];
    }
    assert reqs[..|reqs|] == reqs && reqs[..0] == [];
    GroupOnlyWidens(f, g, reqs, 0, |reqs|);
    forall i | 0 <= i < |reqs| {
      RequestsStayGrouped(f, g, reqs, i, |reqs|);
    }
  }
}
