/** Expiry of silent stations by `expire_timeout_chk` of core/rtw_ap.c, with active keep-alive
    checks on and `wifi_spec` off. */
module KeepAlive {
  import opened Lists
  import opened Options

  const MAX_TRIES := 3

  datatype Sta = Sta(
    to: nat,          // `expire_to`: passes left
    tries: nat,       // `keep_alive_trycnt`
    lastRx: nat,      // data and control frames received up to the last pass
    rx: nat,          // data and control frames received
    sleeping: bool,   // `WIFI_SLEEP_STATE`
    aliveChk: bool,   // `WIFI_STA_ALIVE_CHK_STATE`
    asoc: bool)       // `WIFI_ASOC_STATE`

  predicate Alive(s: Sta) {
    s.lastRx != s.rx
  }

  /** What the walk over the association list does to a station: a sign of life or a run out
      timeout starts the timeout again, else it runs down. */
  function Aged(e: nat, s: Sta): (r: Sta) {
    var t := if Alive(s) || s.to == 0 then s.(to := e, tries := 0) else s.(to := s.to - 1);
    t.(lastRx := s.rx)
  }

  predicate Due(e: nat, s: Sta) {
    Aged(e, s).to == 0
  }

  /** A due station that sleeps is first announced traffic. */
  function Woken(e: nat, s: Sta): (r: Sta) {
    if s.sleeping && !s.aliveChk then s.(to := e, aliveChk := true) else s
  }

  /** Is the station announced traffic in this pass? */
  predicate Wakes(e: nat, s: Sta) {
    Due(e, s) && s.sleeping && !s.aliveChk
  }

  /** The check of a due station by a frame that it acknowledges or not. */
  function Checked(e: nat, s: Sta, ack: bool): (r: Option<Sta>) {
    if !s.asoc then Some(s)
    else if ack then Some(s.(to := e, tries := 0))
    else if s.tries + 1 <= MAX_TRIES then Some(s.(to := 1, tries := s.tries + 1))
    else None
  }

  /** One pass over a station; nothing is left of a station that is removed. */
  function Step(e: nat, s: Sta, ack: bool): (r: Option<Sta>) {
    var t := Aged(e, s);
    if t.to == 0 then Checked(e, Woken(e, t), ack) else Some(t)
  }

  // ----- how long a silent station stays -----

  /** Passes until a silent station is removed. */
  function Left(e: nat, s: Sta): (n: nat) {
    if s.to == 0 then e + 4
    else s.to + if s.tries < 3 then 3 - s.tries else 0
  }

  /** Passes in which the station is not heard of and acknowledges nothing. */
  function Silent(e: nat, s: Sta, n: nat): (r: Option<Sta>)
    decreases n
  {
    if n == 0 then Some(s)
    else match Step(e, s, false) case None => None case Some(t) => Silent(e, t, n - 1)
  }

  lemma SilentStep(e: nat, s: Sta)
    requires !Alive(s) && s.asoc
    ensures Left(e, s) > 0
    ensures match Step(e, s, false)
            case None => Left(e, s) == 1
            case Some(t) => Left(e, t) == Left(e, s) - 1 > 0 && !Alive(t) && t.asoc
  {
  }

  /** A silent associated station is gone after exactly `Left` passes, from any state. */
  lemma {:induction false} SilentFor(e: nat, s: Sta, n: nat)
    requires !Alive(s) && s.asoc
    ensures Silent(e, s, n).None? <==> n >= Left(e, s)
    decreases n
  {
    SilentStep(e, s);
    if n > 0 {
      match Step(e, s, false)
      case None =>
      case Some(t) => SilentFor(e, t, n - 1);
    }
  }

  /** A station heard of is not removed in that pass, and if it then falls silent it is removed
      in the pass `expire_to + 3` later. */
  lemma RemovedAfterReset(e: nat, s: Sta, n: nat)
    requires Alive(s) && s.asoc
    ensures Step(e, s, false).Some? && (Silent(e, Step(e, s, false).value, n).None? <==> n >= e + 3)
  {
    SilentFor(e, Step(e, s, false).value, n);
  }

  /** The same after an acknowledged check, unless the timeout is 0. */
  lemma RemovedAfterAck(e: nat, s: Sta, n: nat)
    requires s.asoc && Due(e, s) && e > 0
    ensures Step(e, s, true).Some? && (Silent(e, Step(e, s, true).value, n).None? <==> n >= e + 3)
  {
    SilentFor(e, Step(e, s, true).value, n);
  }

  /** Exactly the associated stations that are due, were checked often enough before and do not
      acknowledge are removed. */
  lemma RemovedExactly(e: nat, s: Sta, ack: bool)
    ensures Step(e, s, ack).None? <==> s.asoc && !ack && !Alive(s) && s.to == 1 && s.tries >= 3
  {
  }

  /** A station is announced traffic exactly when it sleeps, was not announced any and its timeout
      runs out; it is then marked, and no other pass touches that mark, its states or what it
      received. */
  lemma AnnouncedOnce(e: nat, s: Sta, ack: bool)
    ensures Wakes(e, s) <==> s.sleeping && !s.aliveChk && (if Alive(s) || s.to == 0 then e == 0 else s.to == 1)
    ensures Step(e, s, ack).Some? ==>
              var t := Step(e, s, ack).value;
              && t.aliveChk == (s.aliveChk || Wakes(e, s)) && !(Wakes(e, s) && Wakes(e, t))
              && t.sleeping == s.sleeping && t.asoc == s.asoc && t.rx == t.lastRx == s.rx
  {
  }

  // ----- among other stations -----

  /** What happens around one pass: frames received before it, checks acknowledged in it. */
  datatype Round = Round(heard: map<nat, nat>, acks: set<nat>)

  function Received(s: Sta, r: Round, x: nat): (t: Sta) {
    if x in r.heard then s.(rx := s.rx + r.heard[x]) else s
  }

  /** One pass over a table of listed stations. */
  function PassOver(e: nat, stas: map<nat, Sta>, r: Round): (t: map<nat, Sta>) {
    map x | x in stas && Step(e, Received(stas[x], r, x), x in r.acks).Some?
      :: Step(e, Received(stas[x], r, x), x in r.acks).value
  }

  function Passes(e: nat, stas: map<nat, Sta>, rounds: seq<Round>): (t: map<nat, Sta>) {
    if rounds == [] then stas else Passes(e, PassOver(e, stas, rounds[0]), rounds[1..])
  }

  /** Whatever the others do, a silent station is in the table for exactly `Left` passes. */
  lemma {:induction false} SilentAmongOthers(e: nat, stas: map<nat, Sta>, rounds: seq<Round>, x: nat)
    requires x in stas && !Alive(stas[x]) && stas[x].asoc
    requires forall i :: 0 <= i < |rounds| ==> x !in rounds[i].heard && x !in rounds[i].acks
    ensures x in Passes(e, stas, rounds) <==> |rounds| < Left(e, stas[x])
  {
    SilentStep(e, stas[x]);
    if rounds != [] {
      assert Received(stas[x], rounds[0], x) == stas[x] && x !in rounds[0].acks;
      var next := PassOver(e, stas, rounds[0]);
      match Step(e, stas[x], false)
      case None => GoneStaysGone(e, next, rounds[1..], x);
      case Some(t) => SilentAmongOthers(e, next, rounds[1..], x);
    }
  }

  lemma {:induction false} GoneStaysGone(e: nat, stas: map<nat, Sta>, rounds: seq<Round>, x: nat)
    requires x !in stas
    ensures x !in Passes(e, stas, rounds)
  {
    if rounds != [] {
      GoneStaysGone(e, PassOver(e, stas, rounds[0]), rounds[1..], x);
    }
  }

  /** The listed part of a table. */
  function ListedPart(list: seq<nat>, stas: map<nat, Sta>): (t: map<nat, Sta>) {
    map x | x in list && x in stas :: stas[x]
  }

  /** Stepping every listed station and dropping those that are gone is a pass over the listed
      part. */
  lemma StepsArePass(e: nat, list: seq<nat>, stas: map<nat, Sta>, acks: set<nat>,
                     gone: set<nat>, list': seq<nat>, stas': map<nat, Sta>)
    requires forall x :: x in list ==> x in stas
    requires forall x :: x in gone <==> x in list && Step(e, stas[x], x in acks).None?
    requires forall x :: x in list' <==> x in list && x !in gone
    requires forall x :: x in list' ==> x in stas' && stas'[x] == Step(e, stas[x], x in acks).value
    ensures ListedPart(list', stas') == PassOver(e, ListedPart(list, stas), Round(map[], acks))
  {
    hide Step;
  }

  // ----- the association list -----

  class AsocList {
    const expireTo: nat
    var list: seq<nat>       // `asoc_list`
    var cnt: int             // `asoc_list_cnt`
    var stas: map<nat, Sta>
    var tim: set<nat>        // stations announced traffic

    ghost predicate Valid()
      reads this
    {
      NoDups(list) && cnt == |list| && forall x :: x in list ==> x in stas
    }

    constructor (expireTo: nat)
      ensures Valid() && this.expireTo == expireTo && list == []
    {
      this.expireTo := expireTo;
      list, cnt, stas, tim := [], 0, map[], {};
    }

    /** A station of the table is put on the association list if it is not there yet. */
    method Associate(x: nat)
      requires Valid() && x in stas
      modifies `list, `cnt, `stas
      ensures Valid()
      ensures if x in old(list) then list == old(list) && stas == old(stas)
              else list == old(list) + [x] && stas == old(stas)[x := old(stas)[x].(to := expireTo)]
    {
      if x !in list {
        stas := stas[x := stas[x].(to := expireTo)];
        list := list + [x];
        cnt := cnt + 1;
      }
    }

    /** A station is taken off the association list if it is there. */
    method Delete(x: nat)
      requires Valid()
      modifies `list, `cnt
      ensures Valid() && list == Without(old(list), {x})
    {
      if x in list {
        WithoutOne(list, x);
        WithoutNoDups(list, {x});
        list := Without(list, {x});
        cnt := cnt - 1;
      } else {
        WithoutNone(list, {x});
      }
    }

    /** The walk's treatment of one station; is it due for a check? */
    method AgeOne(x: nat) returns (due: bool)
      requires x in stas
      modifies `stas, `tim
      ensures stas == old(stas)[x := AgedOrWoken(expireTo, old(stas)[x])]
      ensures due <==> Due(expireTo, old(stas)[x])
      ensures tim == old(tim) + if Wakes(expireTo, old(stas)[x]) then {x} else {}
    {
      var s := stas[x];
      if Alive(s) || s.to == 0 {
        s := s.(to := expireTo, tries := 0);
      } else {
        s := s.(to := s.to - 1);
      }
      s := s.(lastRx := s.rx);
      due := s.to == 0;
      if due && s.sleeping && !s.aliveChk {
        s := s.(to := expireTo, aliveChk := true);
        tim := tim + {x};
      }
      stas := stas[x := s];
    }

    /** The walk over the association list; due stations are collected for a check. */
    method Age() returns (due: seq<nat>)
      requires Valid()
      modifies `stas, `tim
      ensures Valid() && NoDups(due) && stas.Keys == old(stas).Keys
      ensures forall x :: x in due <==> x in list && Due(expireTo, old(stas)[x])
      ensures forall x :: x in stas ==>
                stas[x] == if x in list then AgedOrWoken(expireTo, old(stas)[x]) else old(stas)[x]
      ensures forall x :: x in tim <==> x in old(tim) || (x in list && Wakes(expireTo, old(stas)[x]))
    {
      hide Due, AgedOrWoken, Wakes;
      due := [];
      for i := 0 to |list|
        invariant NoDups(due) && stas.Keys == old(stas).Keys
        invariant forall x :: x in due <==> x in list[..i] && Due(expireTo, old(stas)[x])
        invariant forall x :: x in stas ==>
                    stas[x] == if x in list[..i] then AgedOrWoken(expireTo, old(stas)[x]) else old(stas)[x]
        invariant forall x :: x in tim <==> x in old(tim) || (x in list[..i] && Wakes(expireTo, old(stas)[x]))
      {
        var x := list[i];
        assert x !in list[..i];
        assert list[..i + 1] == list[..i] + [x];
        var isDue := AgeOne(x);
        if isDue {
          due := due + [x];
        }
      }
      assert list[..|list|] == list;
    }

    /** The check of one due station; is it to be removed? */
    method CheckOne(x: nat, ack: bool) returns (gone: bool)
      requires Valid() && x in stas
      modifies `list, `cnt, `stas
      ensures Valid() && stas.Keys == old(stas).Keys
      ensures forall y :: y in stas && y != x ==> stas[y] == old(stas)[y]
      ensures var r := Checked(expireTo, old(stas)[x], ack);
              && gone == r.None?
              && list == (if gone then Without(old(list), {x}) else old(list))
              && (r.Some? ==> stas[x] == r.value)
    {
      var s := stas[x];
      if !s.asoc {
        return false;
      }
      s := s.(tries := s.tries + 1);
      if ack {
        stas := stas[x := s.(to := expireTo, tries := 0)];
        return false;
      }
      if s.tries <= MAX_TRIES {
        stas := stas[x := s.(to := 1)];
        return false;
      }
      stas := stas[x := s.(tries := 0)];
      Delete(x);
      return true;
    }

    /** The check loop. */
    method Check(due: seq<nat>, acks: set<nat>) returns (gone: set<nat>)
      requires Valid() && NoDups(due) && forall x :: x in due ==> x in stas
      modifies `list, `cnt, `stas
      ensures Valid() && list == Without(old(list), gone) && stas.Keys == old(stas).Keys
      ensures forall x :: x in gone <==> x in due && Checked(expireTo, old(stas)[x], x in acks).None?
      ensures forall x :: x in stas && x !in gone ==>
                stas[x] == if x in due then Checked(expireTo, old(stas)[x], x in acks).value else old(stas)[x]
    {
      hide Checked, Without;
      gone := {};
      ghost var done: set<nat> := {};
      WithoutNone(list, {});
      for i := 0 to |due|
        invariant Valid() && list == Without(old(list), gone) && stas.Keys == old(stas).Keys
        invariant forall x :: x in done ==> x in due
        invariant forall k :: 0 <= k < |due| ==> (due[k] in done <==> k < i)
        invariant forall x :: x in gone <==> x in done && Checked(expireTo, old(stas)[x], x in acks).None?
        invariant forall x :: x in stas && x !in gone ==>
                    stas[x] == if x in done then Checked(expireTo, old(stas)[x], x in acks).value else old(stas)[x]
      {
        var x := due[i];
        assert x in due && x !in done;
        WithoutMore(old(list), gone, x);
        var isGone := CheckOne(x, x in acks);
        done := done + {x};
        if isGone {
          gone := gone + {x};
        }
      }
    }

    /** `expire_timeout_chk` for associated stations; `acks` are those that acknowledge a check.
        Every listed station makes its step, the removed ones leave the list and the table, and
        the others keep their places. */
    method Pass(acks: set<nat>) returns (gone: set<nat>)
      requires Valid()
      modifies `list, `cnt, `stas, `tim
      ensures Valid() && list == Without(old(list), gone) && stas.Keys == old(stas).Keys - gone
      ensures forall x :: x in gone <==> x in old(list) && Step(expireTo, old(stas)[x], x in acks).None?
      ensures forall x :: x in stas ==>
                stas[x] == if x in old(list) then Step(expireTo, old(stas)[x], x in acks).value else old(stas)[x]
      ensures forall x :: x in tim <==> x in old(tim) || (x in old(list) && Wakes(expireTo, old(stas)[x]))
      ensures ListedPart(list, stas) == PassOver(expireTo, old(ListedPart(list, stas)), Round(map[], acks))
    {
      hide Due, AgedOrWoken, Step, Checked, Wakes, PassOver, ListedPart;
      forall s, ack {
        StepParts(expireTo, s, ack);
      }
      var due := Age();
      gone := Check(due, acks);
      stas := stas - gone;
      StepsArePass(expireTo, old(list), old(stas), acks, gone, list, stas);
    }
  }

  function AgedOrWoken(e: nat, s: Sta): (r: Sta) {
    if Due(e, s) then Woken(e, Aged(e, s)) else Aged(e, s)
  }

  lemma StepParts(e: nat, s: Sta, ack: bool)
    ensures Step(e, s, ack) == if Due(e, s) then Checked(e, AgedOrWoken(e, s), ack) else Some(AgedOrWoken(e, s))
  {
  }
}
