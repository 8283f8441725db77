/** The NAT2.5 bridge database of core/rtw_br_ext.c as a finite map: what its operations mean
    and what holds over every run of them. */
module Nat25Spec {

  const HASH_SIZE: nat := 16
  const AGEING_TIME: nat := 300
  const MAX_NETWORK_ADDR_LEN: nat := 17

  const TYPE_IPV4: bv8 := 1
  const TYPE_IPV6: bv8 := 2
  const TYPE_IPX: bv8 := 3
  const TYPE_APPLE: bv8 := 4
  const TYPE_PPPOE: bv8 := 5

  type NetAddr = a: seq<bv8> | |a| == MAX_NETWORK_ADDR_LEN witness seq(MAX_NETWORK_ADDR_LEN, _ => 0)
  type Mac = seq<bv8>

  /** `legacy` is a kernel that still has IPX and AppleTalk; `hz` is the tick rate. */
  datatype Config = Config(legacy: bool, hz: nat)

  function Xor(a: seq<bv8>): bv8 {
    if a == [] then 0 else a[0] ^ Xor(a[1..])
  }

  /** `__nat25_network_hash` */
  function NetworkHash(cfg: Config, a: NetAddr): (h: nat)
    ensures h < HASH_SIZE
  {
    var x := if a[0] == TYPE_IPV4 then Xor(a[7..11])
             else if cfg.legacy && a[0] == TYPE_IPX then Xor(a[1..11])
             else if cfg.legacy && a[0] == TYPE_APPLE then Xor(a[1..4])
             else if a[0] == TYPE_PPPOE then Xor(a[0..9])
             else if a[0] == TYPE_IPV6 then Xor(a[1..17])
             else Xor(a);
    (x & 15) as nat
  }

  // The octets the bucket depends on, for each family of addresses.

  lemma BucketIpv4(cfg: Config, a: NetAddr)
    requires a[0] == 1
    ensures NetworkHash(cfg, a) == ((a[7] ^ a[8] ^ a[9] ^ a[10]) & 15) as nat
  {
    hide Xor, XorUpTo;
    XorSlice(a, 7, 11);
    XorFirstThree(a, 7);
    XorNext(a, 7, 10);
  }

  lemma BucketIpv6(cfg: Config, a: NetAddr)
    requires a[0] == 2
    ensures NetworkHash(cfg, a) ==
            ((a[1] ^ a[2] ^ a[3] ^ a[4] ^ a[5] ^ a[6] ^ a[7] ^ a[8] ^ a[9] ^ a[10] ^ a[11] ^ a[12] ^ a[13]
              ^ a[14] ^ a[15] ^ a[16]) & 15) as nat
  {
    hide Xor, XorUpTo;
    XorSlice(a, 1, 17);
    XorTen(a);
    XorNextFour(a, 1, 11);
    XorNext(a, 1, 15);
    XorNext(a, 1, 16);
  }

  lemma BucketIpx(cfg: Config, a: NetAddr)
    requires cfg.legacy && a[0] == 3
    ensures NetworkHash(cfg, a) ==
            ((a[1] ^ a[2] ^ a[3] ^ a[4] ^ a[5] ^ a[6] ^ a[7] ^ a[8] ^ a[9] ^ a[10]) & 15) as nat
  {
    hide Xor, XorUpTo;
    XorSlice(a, 1, 11);
    XorTen(a);
  }

  lemma BucketApple(cfg: Config, a: NetAddr)
    requires cfg.legacy && a[0] == 4
    ensures NetworkHash(cfg, a) == ((a[1] ^ a[2] ^ a[3]) & 15) as nat
  {
    hide Xor, XorUpTo;
    XorSlice(a, 1, 4);
    XorFirstThree(a, 1);
  }

  lemma BucketPppoe(cfg: Config, a: NetAddr)
    requires a[0] == 5
    ensures NetworkHash(cfg, a) == ((a[0] ^ a[1] ^ a[2] ^ a[3] ^ a[4] ^ a[5] ^ a[6] ^ a[7] ^ a[8]) & 15) as nat
  {
    hide Xor, XorUpTo;
    XorSlice(a, 0, 9);
    XorNine(a);
  }

  lemma BucketOther(cfg: Config, a: NetAddr)
    requires a[0] == 0 || a[0] > 5 || (!cfg.legacy && (a[0] == 3 || a[0] == 4))
    ensures NetworkHash(cfg, a) ==
            ((a[0] ^ a[1] ^ a[2] ^ a[3] ^ a[4] ^ a[5] ^ a[6] ^ a[7] ^ a[8] ^ a[9] ^ a[10] ^ a[11] ^ a[12] ^ a[13]
              ^ a[14] ^ a[15] ^ a[16]) & 15) as nat
  {
    hide Xor, XorUpTo;
    XorSlice(a, 0, 17);
    assert a[0..17] == a;
    XorNine(a);
    XorNextFour(a, 0, 9);
    XorNextFour(a, 0, 13);
  }

  lemma XorTen(a: NetAddr)
    ensures XorUpTo(a, 1, 11) == a[1] ^ a[2] ^ a[3] ^ a[4] ^ a[5] ^ a[6] ^ a[7] ^ a[8] ^ a[9] ^ a[10]
  {
    hide XorUpTo;
    XorSix(a, 1);
    XorNextFour(a, 1, 7);
  }

  lemma XorSix(a: NetAddr, from: nat)
    requires from + 6 <= |a|
    ensures XorUpTo(a, from, from + 6) == a[from] ^ a[from + 1] ^ a[from + 2] ^ a[from + 3] ^ a[from + 4] ^ a[from + 5]
  {
    hide XorUpTo;
    XorFirstThree(a, from);
    XorNextThree(a, from, from + 3);
  }

  lemma XorNine(a: NetAddr)
    ensures XorUpTo(a, 0, 9) == a[0] ^ a[1] ^ a[2] ^ a[3] ^ a[4] ^ a[5] ^ a[6] ^ a[7] ^ a[8]
  {
    hide XorUpTo;
    XorSix(a, 0);
    XorNextThree(a, 0, 6);
  }

  lemma XorNext(a: seq<bv8>, from: nat, k: nat)
    requires from < k < |a|
    ensures XorUpTo(a, from, k + 1) == XorUpTo(a, from, k) ^ a[k]
  {
  }

  lemma XorFirstThree(a: seq<bv8>, from: nat)
    requires from + 3 <= |a|
    ensures XorUpTo(a, from, from + 3) == a[from] ^ a[from + 1] ^ a[from + 2]
  {
    XorNext(a, from, from + 1);
    XorNext(a, from, from + 2);
  }

  lemma XorNextThree(a: seq<bv8>, from: nat, k: nat)
    requires from < k && k + 3 <= |a|
    ensures XorUpTo(a, from, k + 3) == XorUpTo(a, from, k) ^ a[k] ^ a[k + 1] ^ a[k + 2]
  {
    XorNext(a, from, k);
    XorNext(a, from, k + 1);
    XorNext(a, from, k + 2);
  }

  lemma XorNextFour(a: seq<bv8>, from: nat, k: nat)
    requires from < k && k + 4 <= |a|
    ensures XorUpTo(a, from, k + 4) == XorUpTo(a, from, k) ^ a[k] ^ a[k + 1] ^ a[k + 2] ^ a[k + 3]
  {
    XorNextThree(a, from, k);
    XorNext(a, from, k + 3);
  }

  /** The exclusive-or from the left. */
  function XorUpTo(a: seq<bv8>, from: nat, end: nat): bv8
    requires from < end <= |a|
  {
    if end == from + 1 then a[from] else XorUpTo(a, from, end - 1) ^ a[end - 1]
  }

  lemma {:induction false} XorSlice(a: seq<bv8>, from: nat, end: nat)
    requires from < end <= |a|
    ensures Xor(a[from..end]) == XorUpTo(a, from, end)
    decreases end
  {
    if end > from + 1 {
      XorSlice(a, from, end - 1);
      XorLast(a[from..end - 1], a[end - 1]);
      assert a[from..end] == a[from..end - 1] + [a[end - 1]];
    } else {
      assert a[from..end] == [a[from]];
    }
  }

  lemma {:induction false} XorLast(s: seq<bv8>, x: bv8)
    ensures Xor(s + [x]) == Xor(s) ^ x
  {
    if s == [] {
      assert s + [x] == [x];
    } else {
      XorLast(s[1..], x);
      assert (s + [x])[1..] == s[1..] + [x];
    }
  }

  // ----- the database as a map -----

  datatype Binding = Binding(mac: Mac, uses: int, timer: int)

  type Db = map<NetAddr, Binding>

  const WORD: int := 0x1_0000_0000_0000_0000

  /** `__nat25_has_expired`: `time_before_eq` compares jiffies as a signed machine word. */
  predicate Expired(cfg: Config, timer: int, now: int) {
    (now - AGEING_TIME * cfg.hz - timer) % WORD < WORD / 2
  }

  /** An entry of an age that a signed machine word holds has expired exactly at 300 seconds. */
  lemma ExpiredAfter300Seconds(cfg: Config, timer: int, now: int)
    requires 300 * cfg.hz <= 0x8000_0000_0000_0000 && 0 <= now - timer < 0x8000_0000_0000_0000
    ensures Expired(cfg, timer, now) <==> now - timer >= 300 * cfg.hz
  {
    var d := now - timer - 300 * cfg.hz;
    assert d < 0 ==> d % WORD == d + WORD;
  }

  /** `__nat25_db_network_lookup_and_replace`: a hit on a fresh entry counts as a use. */
  function LookupDb(cfg: Config, db: Db, a: NetAddr, now: int): (db': Db) {
    if a in db && !Expired(cfg, db[a].timer, now) then db[a := db[a].(uses := db[a].uses + 1)] else db
  }

  /** `__nat25_db_network_insert`: refresh an entry, or create it if memory allows. */
  function InsertDb(db: Db, a: NetAddr, mac: Mac, now: int, allocOk: bool): (db': Db) {
    if a in db then db[a := db[a].(mac := mac, timer := now)]
    else if allocOk then db[a := Binding(mac, 1, now)]
    else db
  }

  /** Visiting the entries of `done` in a sweep: an expired entry loses one use, and its last
      use takes the entry away. */
  function SweepSome(cfg: Config, db: Db, done: set<NetAddr>, now: int): (db': Db) {
    map a | a in db && !(a in done && Expired(cfg, db[a].timer, now) && db[a].uses == 1)
      :: if a in done && Expired(cfg, db[a].timer, now) then db[a].(uses := db[a].uses - 1) else db[a]
  }

  /** `nat25_db_expire` */
  function SweepDb(cfg: Config, db: Db, now: int): (db': Db) {
    SweepSome(cfg, db, db.Keys, now)
  }

  /** Using the entry the transmit path remembers. */
  function TouchDb(db: Db, a: NetAddr, now: int): (db': Db) {
    if a in db then db[a := db[a].(timer := now)] else db
  }

  predicate Counted(db: Db) {
    forall a :: a in db ==> db[a].uses >= 1
  }

  lemma CountedUpdate(db: Db, a: NetAddr, v: Binding)
    requires Counted(db) && v.uses >= 1
    ensures Counted(db[a := v])
  {
  }

  datatype Event =
    | Lookup(addr: NetAddr, now: int)
    | Insert(addr: NetAddr, mac: Mac, now: int, allocOk: bool)
    | Touch(addr: NetAddr, now: int)
    | Sweep(now: int)
    | Cleanup

  function Apply(cfg: Config, db: Db, e: Event): (db': Db) {
    match e
    case Lookup(a, now) => LookupDb(cfg, db, a, now)
    case Insert(a, mac, now, allocOk) => InsertDb(db, a, mac, now, allocOk)
    case Touch(a, now) => TouchDb(db, a, now)
    case Sweep(now) => SweepDb(cfg, db, now)
    case Cleanup => map[]
  }

  function Run(cfg: Config, es: seq<Event>): (db: Db) {
    if es == [] then map[] else Apply(cfg, Run(cfg, es[..|es| - 1]), es[|es| - 1])
  }

  /** Lookups that hit `a` while it was fresh, since its entry was created. */
  function Hits(cfg: Config, es: seq<Event>, a: NetAddr): (n: int) {
    if es == [] then 0 else
    var before := es[..|es| - 1];
    var db := Run(cfg, before);
    match es[|es| - 1]
    case Lookup(b, now) =>
      Hits(cfg, before, a) + if b == a && a in db && !Expired(cfg, db[a].timer, now) then 1 else 0
    case Insert(b, _, _, _) => if b == a && a !in db then 0 else Hits(cfg, before, a)
    case _ => Hits(cfg, before, a)
  }

  /** Sweeps that found `a` expired, since its entry was created. */
  function Misses(cfg: Config, es: seq<Event>, a: NetAddr): (n: int) {
    if es == [] then 0 else
    var before := es[..|es| - 1];
    var db := Run(cfg, before);
    match es[|es| - 1]
    case Sweep(now) =>
      Misses(cfg, before, a) + if a in db && Expired(cfg, db[a].timer, now) then 1 else 0
    case Insert(b, _, _, _) => if b == a && a !in db then 0 else Misses(cfg, before, a)
    case _ => Misses(cfg, before, a)
  }

  /** Over every run, a present entry has at least one use left: one for its creation, plus
      the fresh lookups, minus the sweeps that found it expired. */
  lemma {:induction false} UsesAreCounted(cfg: Config, es: seq<Event>, a: NetAddr)
    ensures a in Run(cfg, es) ==>
              Run(cfg, es)[a].uses == 1 + Hits(cfg, es, a) - Misses(cfg, es, a) >= 1
  {
    if es != [] {
      UsesAreCounted(cfg, es[..|es| - 1], a);
    }
  }

  lemma {:induction false} RunIsCounted(cfg: Config, es: seq<Event>)
    ensures Counted(Run(cfg, es))
  {
    forall a | a in Run(cfg, es)
      ensures Run(cfg, es)[a].uses >= 1
    {
      UsesAreCounted(cfg, es, a);
    }
  }

  /** The MAC address of the last insertion for `a`. */
  function LastMac(es: seq<Event>, a: NetAddr): (mac: Mac) {
    if es == [] then [] else
    var e := es[|es| - 1];
    if e.Insert? && e.addr == a then e.mac else LastMac(es[..|es| - 1], a)
  }

  /** The time of the last insertion for `a` or use of it by the transmit path. */
  function LastTime(es: seq<Event>, a: NetAddr): (time: int) {
    if es == [] then 0 else
    var e := es[|es| - 1];
    if (e.Insert? || e.Touch?) && e.addr == a then e.now else LastTime(es[..|es| - 1], a)
  }

  /** Over every run, lookups, sweeps and other addresses leave an entry with the MAC address and
      the time it was last given. */
  lemma {:induction false} LastWriteWins(cfg: Config, es: seq<Event>, a: NetAddr)
    ensures a in Run(cfg, es) ==>
              Run(cfg, es)[a].mac == LastMac(es, a) && Run(cfg, es)[a].timer == LastTime(es, a)
  {
    if es != [] {
      LastWriteWins(cfg, es[..|es| - 1], a);
    }
  }

  /** The uses left of an entry created by event `k`, counting from there on: one, plus the lookups that
      found it fresh, minus the sweeps that found it expired. */
  function Credit(cfg: Config, es: seq<Event>, a: NetAddr, k: nat): (n: int) {
    if |es| <= k + 1 then 1 else
    var before, e := es[..|es| - 1], es[|es| - 1];
    Credit(cfg, before, a, k) +
    match e
    case Lookup(b, now) => if b == a && !Expired(cfg, LastTime(before, a), now) then 1 else 0
    case Sweep(now) => if Expired(cfg, LastTime(before, a), now) then -1 else 0
    case _ => 0
  }

  /** Event `k` inserted `a` with memory for it, and every event since was no cleanup and left a use. */
  predicate Lives(cfg: Config, es: seq<Event>, a: NetAddr, k: nat) {
    k < |es| &&
    var n := |es| - 1;
    if k == n then es[k].Insert? && es[k].addr == a && es[k].allocOk
    else Lives(cfg, es[..n], a, k) && !es[n].Cleanup? && Credit(cfg, es, a, k) >= 1
  }

  lemma {:induction false} LivingIsPresent(cfg: Config, es: seq<Event>, a: NetAddr, k: nat)
    requires Lives(cfg, es, a, k)
    ensures a in Run(cfg, es) && Run(cfg, es)[a].uses >= Credit(cfg, es, a, k)
  {
    hide Expired;
    RunIsCounted(cfg, es);
    if k + 1 < |es| {
      LivingIsPresent(cfg, es[..|es| - 1], a, k);
      LastWriteWins(cfg, es[..|es| - 1], a);
    }
  }

  lemma {:induction false} PresentLives(cfg: Config, es: seq<Event>, a: NetAddr)
    requires a in Run(cfg, es)
    ensures exists k: nat :: Lives(cfg, es, a, k) && Credit(cfg, es, a, k) == Run(cfg, es)[a].uses
  {
    hide Expired;
    var n := |es| - 1;
    RunIsCounted(cfg, es);
    if a in Run(cfg, es[..n]) {
      PresentLives(cfg, es[..n], a);
      var k: nat :| Lives(cfg, es[..n], a, k) && Credit(cfg, es[..n], a, k) == Run(cfg, es[..n])[a].uses;
      LastWriteWins(cfg, es[..n], a);
      assert Lives(cfg, es, a, k) && Credit(cfg, es, a, k) == Run(cfg, es)[a].uses;
    } else {
      assert Lives(cfg, es, a, n) && Credit(cfg, es, a, n) == 1;
    }
  }

  /** Over every run an address is in the table exactly when some insertion of it found memory and
      neither a cleanup nor the sweeps past its expiry have taken it away since. */
  lemma PresentExactly(cfg: Config, es: seq<Event>, a: NetAddr)
    ensures a in Run(cfg, es) <==> exists k: nat :: Lives(cfg, es, a, k)
  {
    hide Lives, Run;
    if a in Run(cfg, es) {
      PresentLives(cfg, es, a);
    }
    forall k: nat | Lives(cfg, es, a, k)
      ensures a in Run(cfg, es)
    {
      LivingIsPresent(cfg, es, a, k);
    }
  }

  /** An event that neither refreshes nor uses `a`, whose timer is `timer`, and, if it is a
      sweep, finds `a` expired. */
  predicate LeavesStale(cfg: Config, e: Event, a: NetAddr, timer: int) {
    match e
    case Lookup(b, now) => b == a ==> Expired(cfg, timer, now)
    case Insert(b, _, _, _) => b != a
    case Touch(b, _) => b != a
    case Sweep(now) => Expired(cfg, timer, now)
    case Cleanup => false
  }

  function Sweeps(es: seq<Event>): (n: nat) {
    if es == [] then 0 else Sweeps(es[..|es| - 1]) + if es[|es| - 1].Sweep? then 1 else 0
  }

  function RunFrom(cfg: Config, db: Db, es: seq<Event>): (db': Db) {
    if es == [] then db else Apply(cfg, RunFrom(cfg, db, es[..|es| - 1]), es[|es| - 1])
  }

  /** An entry that is never refreshed survives fewer than `uses` sweeps past its expiry, with
      one use gone per sweep, and is gone from the sweep number `uses` on, whatever happens to
      other addresses in between. */
  lemma {:induction false} SweptAfterExactlyUses(cfg: Config, db: Db, es: seq<Event>, a: NetAddr)
    requires a in db && db[a].uses >= 1
    requires forall i :: 0 <= i < |es| ==> LeavesStale(cfg, es[i], a, db[a].timer)
    ensures a in RunFrom(cfg, db, es) <==> Sweeps(es) < db[a].uses
    ensures a in RunFrom(cfg, db, es) ==>
              RunFrom(cfg, db, es)[a] == db[a].(uses := db[a].uses - Sweeps(es))
  {
    if es != [] {
      var n := |es| - 1;
      assert forall i :: 0 <= i < n ==> es[..n][i] == es[i];
      SweptAfterExactlyUses(cfg, db, es[..n], a);
    }
  }

  // ----- sweeping one entry after the other -----

  lemma SweepOneMore(cfg: Config, db: Db, done: set<NetAddr>, a: NetAddr, now: int)
    requires a in db && a !in done
    ensures a in SweepSome(cfg, db, done, now) && SweepSome(cfg, db, done, now)[a] == db[a]
    ensures SweepSome(cfg, db, done + {a}, now) ==
              var m := SweepSome(cfg, db, done, now);
              if !Expired(cfg, db[a].timer, now) then m
              else if db[a].uses == 1 then m - {a}
              else m[a := db[a].(uses := db[a].uses - 1)]
  {
  }

  /** A sweep takes away the expired entries with one use left and one use of the other expired ones. */
  lemma SweepMeans(cfg: Config, db: Db, now: int)
    ensures forall b :: b in SweepDb(cfg, db, now) <==> b in db && !(Expired(cfg, db[b].timer, now) && db[b].uses == 1)
    ensures forall b :: b in SweepDb(cfg, db, now) ==>
              SweepDb(cfg, db, now)[b] ==
              if Expired(cfg, db[b].timer, now) then db[b].(uses := db[b].uses - 1) else db[b]
  {
  }

  lemma SweepAll(cfg: Config, db: Db, done: set<NetAddr>, now: int)
    requires db.Keys <= done
    ensures SweepSome(cfg, db, done, now) == SweepDb(cfg, db, now)
  {
  }

  lemma SweepUnion(cfg: Config, db: Db, d1: set<NetAddr>, d2: set<NetAddr>, now: int)
    requires d1 !! d2
    ensures SweepSome(cfg, SweepSome(cfg, db, d1, now), d2, now) == SweepSome(cfg, db, d1 + d2, now)
  {
  }

  lemma SweepNone(cfg: Config, db: Db, now: int)
    ensures SweepSome(cfg, db, {}, now) == db
  {
  }

  lemma SweepKeys(cfg: Config, db: Db, done: set<NetAddr>, now: int)
    ensures SweepSome(cfg, db, done, now).Keys <= db.Keys
    ensures forall a :: a in db && a !in done ==>
              a in SweepSome(cfg, db, done, now) && SweepSome(cfg, db, done, now)[a] == db[a]
  {
  }
}
