/** The chained hash table behind the NAT2.5 database: buckets of entries linked through
    `next_hash`, each entry also pointing back at the pointer that points at it. */
module Nat25Table {
  import opened Nat25Spec

  /** What `pprev_hash` points at: a bucket head or the `next_hash` field of an entry. */
  datatype Slot = NoSlot | BucketHead(h: nat) | NextOf(e: Entry)

  class Entry {
    var next: Entry?
    var pprev: Slot
    var useCount: int
    var mac: Mac
    var timer: int
    const addr: NetAddr

    constructor (addr: NetAddr, mac: Mac, now: int)
      ensures this.addr == addr && this.mac == mac && useCount == 1 && timer == now
    {
      this.addr, this.mac, useCount, timer := addr, mac, 1, now;
      next, pprev := null, NoSlot;
    }

    function Value(): Binding
      reads this
    {
      Binding(mac, useCount, timer)
    }
  }

  /** The bucket of an address; the table works with any such function. */
  type HashFn = f: NetAddr -> nat | forall a :: f(a) < HASH_SIZE witness (_ => 0)

  // ----- well-formed buckets, on snapshots of the fields -----

  ghost function After(c: seq<Entry>, k: int): Entry?
    requires 0 <= k < |c|
  {
    if k + 1 < |c| then c[k + 1] else null
  }

  ghost function Before(h: nat, c: seq<Entry>, k: int): Slot
    requires 0 <= k < |c|
  {
    if k == 0 then BucketHead(h) else NextOf(c[k - 1])
  }

  ghost function First(c: seq<Entry>): Entry? {
    if c == [] then null else c[0]
  }

  /** The forward links spell the chain. */
  ghost predicate Forward(c: seq<Entry>, next: map<Entry, Entry?>) {
    && (forall k :: 0 <= k < |c| ==> c[k] in next)
    && (forall k {:trigger next[c[k]]} :: 0 <= k < |c| ==> next[c[k]] == After(c, k))
  }

  /** The backward links undo the forward ones. */
  ghost predicate Backward(h: nat, c: seq<Entry>, pprev: map<Entry, Slot>) {
    && (forall k :: 0 <= k < |c| ==> c[k] in pprev)
    && (forall k {:trigger pprev[c[k]]} :: 0 <= k < |c| ==> pprev[c[k]] == Before(h, c, k))
  }

  ghost predicate Linked(h: nat, c: seq<Entry>, next: map<Entry, Entry?>, pprev: map<Entry, Slot>) {
    Forward(c, next) && Backward(h, c, pprev)
  }

  /** The entries of a bucket hash to it and store different addresses. */
  ghost predicate Bucket(hash: HashFn, h: nat, c: seq<Entry>) {
    && (forall k :: 0 <= k < |c| ==> hash(c[k].addr) == h)
    && (forall i, j :: 0 <= i < j < |c| ==> c[i].addr != c[j].addr)
  }

  ghost predicate Buckets(hash: HashFn, chains: seq<seq<Entry>>, heads: seq<Entry?>,
                          next: map<Entry, Entry?>, pprev: map<Entry, Slot>)
  {
    && |chains| == |heads| == HASH_SIZE
    && forall h :: 0 <= h < HASH_SIZE ==>
         heads[h] == First(chains[h]) && Bucket(hash, h, chains[h]) && Linked(h, chains[h], next, pprev)
  }

  /** Every address of the map is stored in the bucket of its hash, with the map's value, and
      nothing else is stored. */
  ghost predicate Indexed(hash: HashFn, chains: seq<seq<Entry>>, index: map<NetAddr, Entry>,
                          values: map<Entry, Binding>, db: Db)
    requires |chains| == HASH_SIZE
  {
    && index.Keys == db.Keys
    && (forall a :: a in index ==>
          && index[a].addr == a && index[a] in chains[hash(a)]
          && index[a] in values && values[index[a]] == db[a])
    && (forall h, k :: 0 <= h < HASH_SIZE && 0 <= k < |chains[h]| ==>
          chains[h][k].addr in index && index[chains[h][k].addr] == chains[h][k])
  }

  // ----- pushing an entry -----

  ghost function PushNext(next: map<Entry, Entry?>, ent: Entry, head: Entry?): map<Entry, Entry?> {
    next[ent := head]
  }

  ghost function PushPprev(pprev: map<Entry, Slot>, ent: Entry, head: Entry?, h: nat): map<Entry, Slot> {
    (if head == null then pprev else pprev[head := NextOf(ent)])[ent := BucketHead(h)]
  }

  lemma PushLinked(hash: HashFn, h: nat, c: seq<Entry>, next: map<Entry, Entry?>, pprev: map<Entry, Slot>, ent: Entry)
    requires Bucket(hash, h, c) && Linked(h, c, next, pprev)
    requires hash(ent.addr) == h && forall k :: 0 <= k < |c| ==> c[k].addr != ent.addr
    ensures Bucket(hash, h, [ent] + c)
    ensures Linked(h, [ent] + c, PushNext(next, ent, First(c)), PushPprev(pprev, ent, First(c), h))
  {
    var d := [ent] + c;
    var next', pprev' := PushNext(next, ent, First(c)), PushPprev(pprev, ent, First(c), h);
    forall k | 0 <= k < |d|
      ensures d[k] in next' && next'[d[k]] == After(d, k) && d[k] in pprev' && pprev'[d[k]] == Before(h, d, k)
    {
      if k > 0 {
        assert d[k] == c[k - 1];
        assert k > 1 ==> c[0].addr != c[k - 1].addr;
      }
    }
  }

  /** A bucket that does not hold the changed entries keeps its links. */
  lemma OtherLinked(h: nat, c: seq<Entry>, next: map<Entry, Entry?>, pprev: map<Entry, Slot>,
                    next': map<Entry, Entry?>, pprev': map<Entry, Slot>)
    requires Linked(h, c, next, pprev)
    requires forall k :: 0 <= k < |c| ==> c[k] in next' && next'[c[k]] == next[c[k]]
    requires forall k :: 0 <= k < |c| ==> c[k] in pprev' && pprev'[c[k]] == pprev[c[k]]
    ensures Linked(h, c, next', pprev')
  {
  }

  /** Pushing on bucket `h` does not touch the links of bucket `g`. */
  lemma PushElsewhere(hash: HashFn, h: nat, c: seq<Entry>, g: nat, d: seq<Entry>,
                      next: map<Entry, Entry?>, pprev: map<Entry, Slot>, ent: Entry)
    requires Bucket(hash, h, c) && Bucket(hash, g, d) && Linked(g, d, next, pprev)
    requires g != h && hash(ent.addr) == h
    ensures Linked(g, d, PushNext(next, ent, First(c)), PushPprev(pprev, ent, First(c), h))
  {
    hide Linked;
    forall k | 0 <= k < |d|
      ensures d[k] != ent && d[k] != First(c)
    {
      assert hash(d[k].addr) == g;
      assert c != [] ==> hash(c[0].addr) == h;
    }
    LinkedEntries(g, d, next, pprev);
    OtherLinked(g, d, next, pprev, PushNext(next, ent, First(c)), PushPprev(pprev, ent, First(c), h));
  }

  lemma LinkedEntries(h: nat, c: seq<Entry>, next: map<Entry, Entry?>, pprev: map<Entry, Slot>)
    requires Linked(h, c, next, pprev)
    ensures forall k :: 0 <= k < |c| ==> c[k] in next && c[k] in pprev
  {
  }

  lemma PushBuckets(hash: HashFn, chains: seq<seq<Entry>>, heads: seq<Entry?>,
                    next: map<Entry, Entry?>, pprev: map<Entry, Slot>, ent: Entry, h: nat)
    requires Buckets(hash, chains, heads, next, pprev) && h == hash(ent.addr)
    requires forall k :: 0 <= k < |chains[h]| ==> chains[h][k].addr != ent.addr
    ensures Buckets(hash, chains[h := [ent] + chains[h]], heads[h := ent],
                    PushNext(next, ent, heads[h]), PushPprev(pprev, ent, heads[h], h))
  {
    hide Bucket, Linked, PushNext, PushPprev;
    assert Bucket(hash, h, chains[h]) && heads[h] == First(chains[h]);
    PushLinked(hash, h, chains[h], next, pprev, ent);
    forall g | 0 <= g < HASH_SIZE && g != h
      ensures Linked(g, chains[g], PushNext(next, ent, heads[h]), PushPprev(pprev, ent, heads[h], h))
    {
      PushElsewhere(hash, h, chains[h], g, chains[g], next, pprev, ent);
    }
  }

  lemma PushIndexed(hash: HashFn, chains: seq<seq<Entry>>, index: map<NetAddr, Entry>,
                    values: map<Entry, Binding>, db: Db, ent: Entry, v: Binding, h: nat)
    requires |chains| == HASH_SIZE && Indexed(hash, chains, index, values, db)
    requires h == hash(ent.addr) && ent.addr !in db && ent !in values
    ensures Indexed(hash, chains[h := [ent] + chains[h]], index[ent.addr := ent],
                    values[ent := v], db[ent.addr := v])
  {
    var chains': seq<seq<Entry>> := chains[h := [ent] + chains[h]];
    forall g, k | 0 <= g < HASH_SIZE && 0 <= k < |chains'[g]|
      ensures chains'[g][k].addr in index[ent.addr := ent]
      ensures index[ent.addr := ent][chains'[g][k].addr] == chains'[g][k]
    {
      if g == h && k > 0 {
        assert chains'[g][k] == chains[g][k - 1];
      }
    }
  }

  // ----- taking an entry out -----

  ghost function Without(c: seq<Entry>, k: int): seq<Entry>
    requires 0 <= k < |c|
  {
    c[..k] + c[k + 1..]
  }

  /** The slot that pointed at `ent` now points at its successor. */
  ghost function CutNext(next: map<Entry, Entry?>, ent: Entry, back: Slot): map<Entry, Entry?>
    requires ent in next
  {
    (if back.NextOf? then next[back.e := next[ent]] else next)[ent := null]
  }

  ghost function CutPprev(pprev: map<Entry, Slot>, ent: Entry, succ: Entry?): map<Entry, Slot>
    requires ent in pprev
  {
    (if succ != null then pprev[succ := pprev[ent]] else pprev)[ent := NoSlot]
  }

  ghost function CutHeads(heads: seq<Entry?>, back: Slot, succ: Entry?): seq<Entry?> {
    if back.BucketHead? && back.h < |heads| then heads[back.h := succ] else heads
  }

  /** What cutting an entry out does to the pointers of each entry. */
  lemma CutValues(next: map<Entry, Entry?>, pprev: map<Entry, Slot>, ent: Entry)
    requires ent in next && ent in pprev && next.Keys == pprev.Keys
    requires next[ent] != null ==> next[ent] in pprev
    requires pprev[ent].NextOf? ==> pprev[ent].e in next
    ensures var next', pprev' := CutNext(next, ent, pprev[ent]), CutPprev(pprev, ent, next[ent]);
            && next'.Keys == next.Keys && pprev'.Keys == pprev.Keys
            && (forall e :: e in next ==>
                  next'[e] == if e == ent then null else if pprev[ent] == NextOf(e) then next[ent] else next[e])
            && (forall e :: e in pprev ==>
                  pprev'[e] == if e == ent then NoSlot else if e == next[ent] then pprev[ent] else pprev[e])
  {
  }

  lemma WithoutBucket(hash: HashFn, h: nat, c: seq<Entry>, k: int)
    requires Bucket(hash, h, c) && 0 <= k < |c|
    ensures Bucket(hash, h, Without(c, k))
  {
    var d := Without(c, k);
    forall i, j | 0 <= i < j < |d|
      ensures d[i].addr != d[j].addr
    {
      assert d[i] == c[if i < k then i else i + 1] && d[j] == c[if j < k then j else j + 1];
    }
  }

  lemma EntriesDiffer(hash: HashFn, h: nat, c: seq<Entry>, i: int, j: int)
    requires Bucket(hash, h, c) && 0 <= i < |c| && 0 <= j < |c| && i != j
    ensures c[i] != c[j]
  {
    assert i < j ==> c[i].addr != c[j].addr;
    assert j < i ==> c[j].addr != c[i].addr;
  }

  lemma WithoutShorter(c: seq<Entry>, k: int)
    requires 0 <= k < |c|
    ensures |Without(c, k)| == |c| - 1
  {
  }

  /** The entry at position `i` after the one at `k` is gone. */
  lemma WithoutAt(c: seq<Entry>, k: int, i: int)
    requires 0 <= k < |c| && 0 <= i < |c| - 1
    ensures |Without(c, k)| == |c| - 1
    ensures Without(c, k)[i] == c[if i < k then i else i + 1]
  {
  }

  lemma AfterWithout(c: seq<Entry>, k: int, i: int)
    requires 0 <= k < |c| && 0 <= i < |Without(c, k)|
    ensures After(Without(c, k), i) ==
              if i == k - 1 then After(c, k) else After(c, if i < k then i else i + 1)
  {
  }

  /** What following `next_hash` from `c[j]` gives once `c[k]` is cut out. */
  lemma CutNextAt(h: nat, c: seq<Entry>, next: map<Entry, Entry?>, k: int, j: int)
    requires 0 <= k < |c| && 0 <= j < |c| && c[j] != c[k] && (k > 0 && j != k - 1 ==> c[j] != c[k - 1])
    requires c[j] in next && c[k] in next
    ensures var next' := CutNext(next, c[k], Before(h, c, k));
            c[j] in next' && next'[c[j]] == if j == k - 1 then next[c[k]] else next[c[j]]
  {
  }

  lemma CutForwardAt(hash: HashFn, h: nat, c: seq<Entry>, next: map<Entry, Entry?>, k: int, i: int)
    requires Bucket(hash, h, c) && Forward(c, next) && 0 <= k < |c| && 0 <= i < |Without(c, k)|
    ensures var d, next' := Without(c, k), CutNext(next, c[k], Before(h, c, k));
            d[i] in next' && next'[d[i]] == After(d, i)
  {
    var j := if i < k then i else i + 1;
    WithoutAt(c, k, i);
    AfterWithout(c, k, i);
    EntriesDiffer(hash, h, c, j, k);
    if k > 0 && j != k - 1 {
      EntriesDiffer(hash, h, c, j, k - 1);
    }
    CutNextAt(h, c, next, k, j);
  }

  lemma CutForward(hash: HashFn, h: nat, c: seq<Entry>, next: map<Entry, Entry?>, k: int)
    requires Bucket(hash, h, c) && Forward(c, next) && 0 <= k < |c|
    ensures Forward(Without(c, k), CutNext(next, c[k], Before(h, c, k)))
  {
    forall i | 0 <= i < |Without(c, k)|
      ensures var d, next' := Without(c, k), CutNext(next, c[k], Before(h, c, k));
              d[i] in next' && next'[d[i]] == After(d, i)
    {
      CutForwardAt(hash, h, c, next, k, i);
    }
  }

  lemma BeforeWithout(h: nat, c: seq<Entry>, k: int, i: int)
    requires 0 <= k < |c| && 0 <= i < |Without(c, k)|
    ensures Before(h, Without(c, k), i) ==
              if i == k then Before(h, c, k) else Before(h, c, if i < k then i else i + 1)
  {
  }

  /** What `pprev_hash` of `c[j]` points at once `c[k]` is cut out. */
  lemma CutPprevAt(c: seq<Entry>, pprev: map<Entry, Slot>, k: int, j: int)
    requires 0 <= k < |c| && 0 <= j < |c| && c[j] != c[k] && (k + 1 < |c| && j != k + 1 ==> c[j] != c[k + 1])
    requires c[j] in pprev && c[k] in pprev
    ensures var pprev' := CutPprev(pprev, c[k], After(c, k));
            c[j] in pprev' && pprev'[c[j]] == if j == k + 1 then pprev[c[k]] else pprev[c[j]]
  {
  }

  lemma CutBackwardAt(hash: HashFn, h: nat, c: seq<Entry>, pprev: map<Entry, Slot>, k: int, i: int)
    requires Bucket(hash, h, c) && Backward(h, c, pprev) && 0 <= k < |c| && 0 <= i < |Without(c, k)|
    ensures var d, pprev' := Without(c, k), CutPprev(pprev, c[k], After(c, k));
            d[i] in pprev' && pprev'[d[i]] == Before(h, d, i)
  {
    var j := if i < k then i else i + 1;
    WithoutAt(c, k, i);
    BeforeWithout(h, c, k, i);
    EntriesDiffer(hash, h, c, j, k);
    if k + 1 < |c| && j != k + 1 {
      EntriesDiffer(hash, h, c, j, k + 1);
    }
    CutPprevAt(c, pprev, k, j);
  }

  lemma CutBackward(hash: HashFn, h: nat, c: seq<Entry>, pprev: map<Entry, Slot>, k: int)
    requires Bucket(hash, h, c) && Backward(h, c, pprev) && 0 <= k < |c|
    ensures Backward(h, Without(c, k), CutPprev(pprev, c[k], After(c, k)))
  {
    forall i | 0 <= i < |Without(c, k)|
      ensures var d, pprev' := Without(c, k), CutPprev(pprev, c[k], After(c, k));
              d[i] in pprev' && pprev'[d[i]] == Before(h, d, i)
    {
      CutBackwardAt(hash, h, c, pprev, k, i);
    }
  }

  /** Cutting an entry out of bucket `h` does not touch the links of bucket `g`. */
  lemma CutElsewhere(hash: HashFn, g: nat, b: seq<Entry>, next: map<Entry, Entry?>, pprev: map<Entry, Slot>,
                     h: nat, c: seq<Entry>, k: int)
    requires g != h && Bucket(hash, g, b) && Bucket(hash, h, c) && Linked(g, b, next, pprev)
    requires 0 <= k < |c| && c[k] in next && c[k] in pprev
    ensures Linked(g, b, CutNext(next, c[k], Before(h, c, k)), CutPprev(pprev, c[k], After(c, k)))
  {
    ForeignEntries(hash, g, b, h, c);
    OtherLinked(g, b, next, pprev, CutNext(next, c[k], Before(h, c, k)), CutPprev(pprev, c[k], After(c, k)));
  }

  lemma CutBuckets(hash: HashFn, chains: seq<seq<Entry>>, heads: seq<Entry?>,
                   next: map<Entry, Entry?>, pprev: map<Entry, Slot>, h: nat, k: nat)
    requires Buckets(hash, chains, heads, next, pprev) && h < HASH_SIZE && k < |chains[h]|
    ensures var ent, c := chains[h][k], chains[h];
            && ent in next && next[ent] == After(c, k) && ent in pprev && pprev[ent] == Before(h, c, k)
            && Buckets(hash, chains[h := Without(c, k)], CutHeads(heads, Before(h, c, k), After(c, k)),
                       CutNext(next, ent, Before(h, c, k)), CutPprev(pprev, ent, After(c, k)))
  {
    var ent, c := chains[h][k], chains[h];
    assert Linked(h, c, next, pprev) && Bucket(hash, h, c) && heads[h] == First(c);
    assert next[ent] == After(c, k);
    assert pprev[ent] == Before(h, c, k);
    CutForward(hash, h, c, next, k);
    CutBackward(hash, h, c, pprev, k);
    WithoutBucket(hash, h, c, k);
    forall g | 0 <= g < HASH_SIZE && g != h
      ensures Linked(g, chains[g], CutNext(next, ent, Before(h, c, k)), CutPprev(pprev, ent, After(c, k)))
    {
      CutElsewhere(hash, g, chains[g], next, pprev, h, c, k);
    }
  }

  lemma ForeignEntries(hash: HashFn, g: nat, b: seq<Entry>, h: nat, c: seq<Entry>)
    requires g != h && Bucket(hash, g, b) && Bucket(hash, h, c)
    ensures forall i, j :: 0 <= i < |b| && 0 <= j < |c| ==> b[i] != c[j] && b[i].addr != c[j].addr
  {
  }

  /** Entries that stay are still where the index says. */
  lemma CutStored(hash: HashFn, chains: seq<seq<Entry>>, h: nat, k: nat, g: nat, i: nat)
    requires |chains| == HASH_SIZE && h < HASH_SIZE && k < |chains[h]| && g < HASH_SIZE
    requires Bucket(hash, h, chains[h]) && Bucket(hash, g, chains[g])
    requires i < |chains[h := Without(chains[h], k)][g]|
    ensures var e := chains[h := Without(chains[h], k)][g][i];
            e.addr != chains[h][k].addr && e in chains[g]
  {
    if g == h {
      WithoutAt(chains[h], k, i);
      var j := if i < k then i else i + 1;
      assert j < k ==> chains[h][j].addr != chains[h][k].addr;
      assert k < j ==> chains[h][k].addr != chains[h][j].addr;
    } else {
      ForeignEntries(hash, g, chains[g], h, chains[h]);
    }
  }

  lemma CutFound(c: seq<Entry>, k: int, e: Entry)
    requires 0 <= k < |c| && e in c && e != c[k]
    ensures e in Without(c, k)
  {
    var j :| 0 <= j < |c| && c[j] == e;
    WithoutAt(c, k, if j < k then j else j - 1);
  }

  lemma CutIndexed(hash: HashFn, chains: seq<seq<Entry>>, index: map<NetAddr, Entry>,
                   values: map<Entry, Binding>, db: Db, h: nat, k: nat)
    requires |chains| == HASH_SIZE && Indexed(hash, chains, index, values, db)
    requires h < HASH_SIZE && k < |chains[h]|
    requires forall g :: 0 <= g < HASH_SIZE ==> Bucket(hash, g, chains[g])
    ensures var a := chains[h][k].addr;
            Indexed(hash, chains[h := Without(chains[h], k)], index - {a}, values, db - {a})
  {
    var chains': seq<seq<Entry>> := chains[h := Without(chains[h], k)];
    var ent := chains[h][k];
    forall g, i | 0 <= g < HASH_SIZE && 0 <= i < |chains'[g]|
      ensures chains'[g][i].addr != ent.addr && chains'[g][i] in chains[g]
    {
      CutStored(hash, chains, h, k, g, i);
    }
    forall a | a in index - {ent.addr}
      ensures index[a] in chains'[hash(a)]
    {
      if hash(a) == h {
        CutFound(chains[h], k, index[a]);
      }
    }
  }

  /** Storing a new value in the entry of `a`. */
  lemma UpdateIndexed(hash: HashFn, chains: seq<seq<Entry>>, index: map<NetAddr, Entry>,
                      values: map<Entry, Binding>, db: Db, a: NetAddr, v: Binding)
    requires |chains| == HASH_SIZE && Indexed(hash, chains, index, values, db) && a in index
    ensures Indexed(hash, chains, index, values[index[a] := v], db[a := v])
  {
  }

  lemma NotStored(hash: HashFn, chains: seq<seq<Entry>>, index: map<NetAddr, Entry>,
                  values: map<Entry, Binding>, db: Db, a: NetAddr, h: nat)
    requires |chains| == HASH_SIZE && Indexed(hash, chains, index, values, db) && a !in db && h < HASH_SIZE
    ensures forall k :: 0 <= k < |chains[h]| ==> chains[h][k].addr != a
  {
  }

  lemma HeadOf(hash: HashFn, chains: seq<seq<Entry>>, heads: seq<Entry?>,
               next: map<Entry, Entry?>, pprev: map<Entry, Slot>, h: nat)
    requires Buckets(hash, chains, heads, next, pprev) && h < HASH_SIZE
    ensures heads[h] == First(chains[h])
    ensures Forward(chains[h], next) && Bucket(hash, h, chains[h])
    ensures heads[h] != null ==> heads[h] in next
  {
    if chains[h] != [] {
      assert chains[h][0] in next;
    }
  }

  /** Pushing `ent` with value `v` on its bucket keeps links and index right. */
  lemma PushAll(hash: HashFn, chains: seq<seq<Entry>>, heads: seq<Entry?>, next: map<Entry, Entry?>,
                pprev: map<Entry, Slot>, index: map<NetAddr, Entry>, values: map<Entry, Binding>, db: Db,
                ent: Entry, v: Binding, h: nat)
    requires Buckets(hash, chains, heads, next, pprev) && |chains| == HASH_SIZE
    requires Indexed(hash, chains, index, values, db) && Counted(db)
    requires ent !in values && ent.addr !in db && h == hash(ent.addr) && v.uses >= 1
    ensures |heads| == HASH_SIZE && (heads[h] != null ==> heads[h] in next)
    ensures Buckets(hash, chains[h := [ent] + chains[h]], heads[h := ent],
                    PushNext(next, ent, heads[h]), PushPprev(pprev, ent, heads[h], h))
    ensures Indexed(hash, chains[h := [ent] + chains[h]], index[ent.addr := ent],
                    values[ent := v], db[ent.addr := v])
    ensures Counted(db[ent.addr := v])
  {
    NotStored(hash, chains, index, values, db, ent.addr, h);
    PushBuckets(hash, chains, heads, next, pprev, ent, h);
    PushIndexed(hash, chains, index, values, db, ent, v, h);
    HeadOf(hash, chains, heads, next, pprev, h);
  }

  /** Cutting an entry out of its bucket keeps links and index right. */
  lemma CutAll(hash: HashFn, chains: seq<seq<Entry>>, heads: seq<Entry?>, next: map<Entry, Entry?>,
               pprev: map<Entry, Slot>, index: map<NetAddr, Entry>, values: map<Entry, Binding>, db: Db,
               h: nat, k: nat)
    requires Buckets(hash, chains, heads, next, pprev) && |chains| == HASH_SIZE
    requires Indexed(hash, chains, index, values, db) && Counted(db)
    requires h < HASH_SIZE && k < |chains[h]|
    ensures |heads| == HASH_SIZE
    ensures var ent, c := chains[h][k], chains[h];
            && ent in next && next[ent] == After(c, k) && ent in pprev && pprev[ent] == Before(h, c, k)
            && (next[ent] != null ==> next[ent] in next && next[ent] != ent)
            && (pprev[ent].NextOf? ==> pprev[ent].e in next && pprev[ent].e != ent)
            && !pprev[ent].NoSlot? && (pprev[ent].BucketHead? ==> pprev[ent].h == h)
            && ent.addr in index && index[ent.addr] == ent
            && Buckets(hash, chains[h := Without(c, k)], CutHeads(heads, pprev[ent], next[ent]),
                       CutNext(next, ent, pprev[ent]), CutPprev(pprev, ent, next[ent]))
            && Indexed(hash, chains[h := Without(c, k)], index - {ent.addr}, values, db - {ent.addr})
            && Counted(db - {ent.addr})
  {
    CutBuckets(hash, chains, heads, next, pprev, h, k);
    CutIndexed(hash, chains, index, values, db, h, k);
    CutNeighbours(hash, h, chains[h], next, pprev, k);
  }

  lemma CutNeighbours(hash: HashFn, h: nat, c: seq<Entry>, next: map<Entry, Entry?>, pprev: map<Entry, Slot>, k: nat)
    requires Linked(h, c, next, pprev) && Bucket(hash, h, c) && k < |c|
    ensures k + 1 < |c| ==> c[k + 1] in next && c[k + 1] != c[k]
    ensures k > 0 ==> c[k - 1] in next && c[k - 1] != c[k]
  {
    if k + 1 < |c| {
      EntriesDiffer(hash, h, c, k, k + 1);
    }
    if k > 0 {
      EntriesDiffer(hash, h, c, k, k - 1);
    }
  }

  // ----- walking along a bucket while entries disappear -----

  /** The walk has seen the first `k` entries, whose addresses are in `seen`, and no others. */
  ghost predicate SeenUpTo(c: seq<Entry>, k: nat, seen: set<NetAddr>) {
    && k <= |c|
    && (forall j :: 0 <= j < k ==> c[j].addr in seen)
    && (forall j :: k <= j < |c| ==> c[j].addr !in seen)
  }

  ghost function EntryAtOrEnd(c: seq<Entry>, k: nat): Entry? {
    if k < |c| then c[k] else null
  }

  lemma WalkStarts(c: seq<Entry>)
    ensures SeenUpTo(c, 0, {})
  {
  }

  lemma WalkStays(hash: HashFn, h: nat, c: seq<Entry>, k: nat, seen: set<NetAddr>)
    requires Bucket(hash, h, c) && k < |c| && SeenUpTo(c, k, seen)
    ensures c[k].addr !in seen
    ensures SeenUpTo(c, k + 1, seen + {c[k].addr}) && EntryAtOrEnd(c, k + 1) == After(c, k)
  {
  }

  lemma WalkCuts(hash: HashFn, h: nat, c: seq<Entry>, k: nat, seen: set<NetAddr>)
    requires Bucket(hash, h, c) && k < |c| && SeenUpTo(c, k, seen)
    ensures SeenUpTo(Without(c, k), k, seen + {c[k].addr}) && EntryAtOrEnd(Without(c, k), k) == After(c, k)
  {
    var d := Without(c, k);
    forall j | 0 <= j < |d|
      ensures j < k ==> d[j].addr in seen
      ensures k <= j ==> d[j].addr !in seen + {c[k].addr}
    {
      WithoutAt(c, k, j);
    }
  }

  // ----- the table -----

  ghost function Nexts(es: set<Entry>): map<Entry, Entry?>
    reads es
  {
    map e | e in es :: e.next
  }

  ghost function Pprevs(es: set<Entry>): map<Entry, Slot>
    reads es
  {
    map e | e in es :: e.pprev
  }

  ghost function Values(es: set<Entry>): map<Entry, Binding>
    reads es
  {
    map e | e in es :: e.Value()
  }

  lemma SnapshotKeys(es: set<Entry>)
    ensures Nexts(es).Keys == es && Pprevs(es).Keys == es && Values(es).Keys == es
  {
  }

  lemma SnapshotAt(es: set<Entry>, e: Entry)
    requires e in es
    ensures e in Nexts(es) && Nexts(es)[e] == e.next
    ensures e in Pprevs(es) && Pprevs(es)[e] == e.pprev
    ensures e in Values(es) && Values(es)[e] == e.Value()
  {
  }

  lemma SnapshotsAre(es: set<Entry>, next: map<Entry, Entry?>, pprev: map<Entry, Slot>, values: map<Entry, Binding>)
    requires next.Keys == es && pprev.Keys == es && values.Keys == es
    requires forall e :: e in es ==> e.next == next[e]
    requires forall e :: e in es ==> e.pprev == pprev[e]
    requires forall e :: e in es ==> e.Value() == values[e]
    ensures Nexts(es) == next && Pprevs(es) == pprev && Values(es) == values
  {
  }

  class Table {
    const cfg: Config
    const hash: HashFn
    const nethash: array<Entry?>
    var scdbEntry: Entry?
    var scdbMac: Mac
    var scdbIp: seq<bv8>

    ghost var chains: seq<seq<Entry>>     // the entries of each bucket in link order
    ghost var index: map<NetAddr, Entry>  // where an address is stored
    ghost var db: Db                      // the abstract database
    ghost var repr: set<Entry>

    /** The table stores the map `db`, and the entry remembered for the transmit path, if
        any, is one that is linked. */
    ghost predicate Valid()
      reads this, nethash, repr
    {
      && nethash.Length == HASH_SIZE && |chains| == HASH_SIZE
      && Buckets(hash, chains, nethash[..], Nexts(repr), Pprevs(repr))
      && Indexed(hash, chains, index, Values(repr), db)
      && Counted(db) && index.Keys == db.Keys
      && (scdbEntry != null ==> scdbEntry.addr in index && index[scdbEntry.addr] == scdbEntry)
    }

    constructor (cfg: Config)
      ensures Valid() && db == map[] && this.cfg == cfg && scdbEntry == null
      ensures forall a :: hash(a) == NetworkHash(cfg, a)
      ensures fresh(nethash) && repr == {}
    {
      this.cfg := cfg;
      hash := a => NetworkHash(cfg, a);
      nethash := new Entry?[HASH_SIZE](_ => null);
      scdbEntry, scdbMac, scdbIp := null, [], [];
      chains := seq(HASH_SIZE, _ => []);
      index, db, repr := map[], map[], {};
    }

    /** The walk along a bucket that lookup, insert and `scdb_findEntry` share. */
    method Find(a: NetAddr) returns (e: Entry?)
      requires Valid()
      ensures e == null <==> a !in db
      ensures e != null ==>
                a in index && e == index[a] && e.addr == a && e in repr && e.Value() == db[a] && e.useCount >= 1
    {
      hide Buckets;
      var h := hash(a);
      e := nethash[h];
      ghost var c, k := chains[h], 0;
      HeadOf(hash, chains, nethash[..], Nexts(repr), Pprevs(repr), h);
      assert e == nethash[..][h];
      while e != null
        invariant 0 <= k <= |c|
        invariant e == if k < |c| then c[k] else null
        invariant forall i :: 0 <= i < k ==> c[i].addr != a
        decreases |c| - k
      {
        assert c[k] in Nexts(repr) && Nexts(repr)[c[k]] == After(c, k);
        if e.addr == a {
          return;
        }
        e := e.next;
        k := k + 1;
      }
    }

    /** Writing the fields of the entry of `a`. */
    method Store(e: Entry, a: NetAddr, v: Binding)
      requires Valid() && a in index && e == index[a] && e in repr && v.uses >= 1
      modifies this`db, e`useCount, e`mac, e`timer
      ensures Valid() && db == old(db)[a := v]
    {
      hide Buckets, Indexed, Counted;
      UpdateIndexed(hash, chains, index, Values(repr), db, a, v);
      CountedUpdate(db, a, v);
      StoreValue(e, v);
      db := db[a := v];
    }

    /** The field writes of `Store`. */
    method StoreValue(e: Entry, v: Binding)
      requires e in repr
      modifies e`useCount, e`mac, e`timer
      ensures Nexts(repr) == old(Nexts(repr)) && Pprevs(repr) == old(Pprevs(repr))
      ensures Values(repr) == old(Values(repr))[e := v]
    {
      e.useCount, e.mac, e.timer := v.uses, v.mac, v.timer;
    }

    /** `__nat25_db_network_lookup_and_replace`; `mac` is the destination written into the
        frame, if any. */
    method LookupAndReplace(a: NetAddr, now: int) returns (found: bool, replaced: bool, mac: Mac)
      requires Valid()
      modifies this`db, repr
      ensures Valid()
      ensures db == LookupDb(cfg, old(db), a, now)
      ensures found <==> a in old(db)
      ensures replaced <==> a in old(db) && !Expired(cfg, old(db)[a].timer, now)
      ensures replaced ==> mac == old(db)[a].mac
      ensures db.Keys == old(db).Keys
      ensures forall b :: b in db ==>
                db[b] == if b == a && replaced then old(db)[b].(uses := old(db)[b].uses + 1) else old(db)[b]
    {
      hide Buckets, Indexed, Counted, Expired, Nexts, Pprevs, Values;
      found, replaced, mac := false, false, [];
      var e := Find(a);
      if e != null {
        found := true;
        if !Expired(cfg, e.timer, now) {
          mac := e.mac;
          replaced := true;
          Store(e, a, e.Value().(uses := e.useCount + 1));
        }
      }
    }

    /** `__nat25_db_network_insert`; `allocOk` is whether memory for a new entry was there. */
    method Insert(a: NetAddr, mac: Mac, now: int, allocOk: bool)
      requires Valid()
      modifies this`chains, this`index, this`db, this`repr, nethash, repr
      ensures Valid() && fresh(repr - old(repr))
      ensures db == InsertDb(old(db), a, mac, now, allocOk)
      ensures a in db <==> a in old(db) || allocOk
      ensures a in db ==> db[a] == Binding(mac, if a in old(db) then old(db)[a].uses else 1, now)
      ensures forall b :: b != a ==> (b in db <==> b in old(db)) && (b in db ==> db[b] == old(db)[b])
    {
      hide Buckets, Indexed, Counted, Nexts, Pprevs, Values;
      var e := Find(a);
      if e != null {
        Store(e, a, e.Value().(mac := mac, timer := now));
        return;
      }
      if !allocOk {
        return;
      }
      var ent := new Entry(a, mac, now);
      Link(ent, hash(a));
    }

    /** `__network_hash_link`: push a new entry on its bucket. */
    method Link(ent: Entry, h: nat)
      requires Valid() && ent !in repr && ent.addr !in db && h == hash(ent.addr) && ent.useCount >= 1
      modifies this`chains, this`index, this`db, this`repr, nethash, repr, ent
      ensures Valid() && repr == old(repr) + {ent}
      ensures db == old(db)[ent.addr := old(ent.Value())]
      ensures chains == old(chains)[h := [ent] + old(chains)[h]]
    {
      hide Buckets, Indexed, Counted, Nexts, Pprevs, Values, PushNext, PushPprev;
      SnapshotKeys(repr);
      ghost var v, a := ent.Value(), ent.addr;
      PushAll(hash, chains, nethash[..], Nexts(repr), Pprevs(repr), index, Values(repr), db, ent, v, h);
      PushPointers(ent, h);
      chains, index := chains[h := [ent] + chains[h]], index[a := ent];
      db, repr := db[a := v], repr + {ent};
    }

    /** The pointer writes of `Link`. */
    method PushPointers(ent: Entry, h: nat)
      requires h < nethash.Length && ent !in repr && (nethash[h] != null ==> nethash[h] in repr)
      modifies nethash, ent`next, ent`pprev, repr`pprev
      ensures nethash[..] == old(nethash[..])[h := ent]
      ensures Nexts(repr + {ent}) == PushNext(old(Nexts(repr)), ent, old(nethash[..])[h])
      ensures Pprevs(repr + {ent}) == PushPprev(old(Pprevs(repr)), ent, old(nethash[..])[h], h)
      ensures Values(repr + {ent}) == old(Values(repr))[ent := old(ent.Value())]
    {
      ghost var head := nethash[..][h];
      ghost var next, pprev := PushNext(Nexts(repr), ent, head), PushPprev(Pprevs(repr), ent, head, h);
      ghost var values := Values(repr)[ent := ent.Value()];
      Attach(ent, h);
      SnapshotsAre(repr + {ent}, next, pprev, values);
    }

    method Attach(ent: Entry, h: nat)
      requires h < nethash.Length && ent !in repr && (nethash[h] != null ==> nethash[h] in repr)
      modifies nethash, ent`next, ent`pprev, repr`pprev
      ensures nethash[..] == old(nethash[..])[h := ent]
      ensures ent.next == old(nethash[h]) && ent.pprev == BucketHead(h)
      ensures forall e :: e in repr ==> e.pprev == if e == old(nethash[h]) then NextOf(ent) else old(e.pprev)
    {
      ent.next := nethash[h];
      if ent.next != null {
        ent.next.pprev := NextOf(ent);
      }
      nethash[h] := ent;
      ent.pprev := BucketHead(h);
    }

    /** `__network_hash_unlink` on the entry at position `k` of bucket `h`. */
    method Unlink(ent: Entry, ghost h: nat, ghost k: nat)
      requires Valid() && h < HASH_SIZE && k < |chains[h]| && ent == chains[h][k] && scdbEntry != ent
      modifies this`chains, this`index, this`db, nethash, repr`next, repr`pprev
      ensures Valid() && db == old(db) - {ent.addr}
      ensures chains == old(chains)[h := Without(old(chains)[h], k)]
    {
      hide Buckets, Indexed, Counted, Nexts, Pprevs, Values, CutNext, CutPprev, CutHeads;
      SnapshotKeys(repr);
      CutAll(hash, chains, nethash[..], Nexts(repr), Pprevs(repr), index, Values(repr), db, h, k);
      SnapshotAt(repr, ent);
      ghost var a := ent.addr;
      CutPointers(ent);
      chains := chains[h := Without(chains[h], k)];
      index, db := index - {a}, db - {a};
    }

    /** The pointer writes of `Unlink`. */
    method CutPointers(ent: Entry)
      requires ent in repr && !ent.pprev.NoSlot?
      requires ent.next != null ==> ent.next in repr && ent.next != ent
      requires ent.pprev.NextOf? ==> ent.pprev.e in repr && ent.pprev.e != ent
      requires ent.pprev.BucketHead? ==> ent.pprev.h < nethash.Length
      modifies nethash, repr`next, repr`pprev
      ensures nethash[..] == CutHeads(old(nethash[..]), old(ent.pprev), old(ent.next))
      ensures Nexts(repr) == CutNext(old(Nexts(repr)), ent, old(ent.pprev))
      ensures Pprevs(repr) == CutPprev(old(Pprevs(repr)), ent, old(ent.next))
      ensures Values(repr) == old(Values(repr))
    {
      ghost var next, pprev := CutNext(Nexts(repr), ent, ent.pprev), CutPprev(Pprevs(repr), ent, ent.next);
      ghost var values := Values(repr);
      hide CutNext, CutPprev, CutHeads;
      CutValues(Nexts(repr), Pprevs(repr), ent);
      Detach(ent);
      SnapshotsAre(repr, next, pprev, values);
    }

    method Detach(ent: Entry)
      requires ent in repr && !ent.pprev.NoSlot?
      requires ent.next != null ==> ent.next in repr && ent.next != ent
      requires ent.pprev.NextOf? ==> ent.pprev.e in repr && ent.pprev.e != ent
      requires ent.pprev.BucketHead? ==> ent.pprev.h < nethash.Length
      modifies nethash, repr`next, repr`pprev
      ensures nethash[..] == CutHeads(old(nethash[..]), old(ent.pprev), old(ent.next))
      ensures forall e :: e in repr ==>
                e.next == if e == ent then null else if old(ent.pprev) == NextOf(e) then old(ent.next) else old(e.next)
      ensures forall e :: e in repr ==>
                e.pprev == if e == ent then NoSlot else if e == old(ent.next) then old(ent.pprev) else old(e.pprev)
    {
      WriteSlot(ent.pprev, ent.next);
      if ent.next != null {
        ent.next.pprev := ent.pprev;
      }
      ent.next := null;
      ent.pprev := NoSlot;
    }

    /** Writing through `pprev_hash`. */
    method WriteSlot(slot: Slot, to: Entry?)
      requires slot.NextOf? ==> slot.e in repr
      requires slot.BucketHead? ==> slot.h < nethash.Length
      modifies nethash, repr`next
      ensures nethash[..] == CutHeads(old(nethash[..]), slot, to)
      ensures forall e :: e in repr ==> e.next == if slot == NextOf(e) then to else old(e.next)
    {
      match slot {
        case BucketHead(h) => nethash[h] := to;
        case NextOf(e) => e.next := to;
        case NoSlot =>
      }
    }

    /** The entry at position `k` of bucket `h`, as the links and the index see it. */
    lemma EntryAt(h: nat, k: nat)
      requires Valid() && h < HASH_SIZE && k < |chains[h]|
      ensures var e := chains[h][k];
              && Bucket(hash, h, chains[h])
              && e in repr && e.next == After(chains[h], k) && hash(e.addr) == h
              && e.addr in index && index[e.addr] == e && e.Value() == db[e.addr] && e.useCount >= 1
    {
      var e := chains[h][k];
      HeadOf(hash, chains, nethash[..], Nexts(repr), Pprevs(repr), h);
      assert e in Nexts(repr) && Nexts(repr)[e] == After(chains[h], k);
      assert e.addr in index && index[e.addr] == e;
    }

    /** The remembered entry is about to be freed. */
    method ForgetScdb(f: Entry)
      requires Valid()
      modifies this`scdbEntry, this`scdbMac, this`scdbIp
      ensures Valid() && scdbEntry == if old(scdbEntry) == f then null else old(scdbEntry)
    {
      hide Buckets, Indexed, Counted;
      if scdbEntry == f {
        scdbMac, scdbIp := seq(6, _ => 0), seq(4, _ => 0);
        scdbEntry := null;
      }
    }

    /** What `nat25_db_expire` does with one entry. */
    method SweepEntry(f: Entry, ghost h: nat, ghost k: nat, now: int) returns (ghost removed: bool)
      requires Valid() && h < HASH_SIZE && k < |chains[h]| && f == chains[h][k]
      requires f.addr in index && index[f.addr] == f && f in repr && f.Value() == db[f.addr] && f.useCount >= 1
      modifies this`chains, this`index, this`db, this`scdbEntry, this`scdbMac, this`scdbIp, nethash, repr
      ensures Valid() && chains == if removed then old(chains)[h := Without(old(chains)[h], k)] else old(chains)
      ensures db == if !Expired(cfg, old(db)[f.addr].timer, now) then old(db)
                    else if old(db)[f.addr].uses == 1 then old(db) - {f.addr}
                    else old(db)[f.addr := old(db)[f.addr].(uses := old(db)[f.addr].uses - 1)]
    {
      hide Buckets, Indexed, Counted, Expired, Nexts, Pprevs, Values, Without;
      removed := false;
      if Expired(cfg, f.timer, now) {
        var n := f.useCount - 1;
        if n == 0 {
          ForgetScdb(f);
          Unlink(f, h, k);
          removed := true;
        } else {
          Store(f, f.addr, f.Value().(uses := n));
        }
      }
    }

    lemma BucketStart(h: nat)
      requires Valid() && h < HASH_SIZE
      ensures nethash[h] == EntryAtOrEnd(chains[h], 0)
    {
      hide Indexed, Linked, Bucket, Counted, Nexts, Pprevs, Values;
      assert nethash[h] == nethash[..][h];
    }

    /** After a complete walk every address of the bucket has been seen. */
    lemma BucketEnd(h: nat, seen: set<NetAddr>)
      requires Valid() && h < HASH_SIZE && SeenUpTo(chains[h], |chains[h]|, seen)
      ensures forall a :: a in db && hash(a) == h ==> a in seen
    {
      forall a | a in db && hash(a) == h
        ensures a in seen
      {
        var j :| 0 <= j < |chains[h]| && chains[h][j] == index[a];
      }
    }

    /** Where the sweep of bucket `h` stands when the database was `db0` at its start. */
    ghost predicate Sweeping(db0: Db, f: Entry?, h: nat, k: nat, seen: set<NetAddr>, now: int)
      reads this, nethash, repr
    {
      && Valid() && h < HASH_SIZE && k <= |chains[h]| && f == EntryAtOrEnd(chains[h], k)
      && SeenUpTo(chains[h], k, seen)
      && db == SweepSome(cfg, db0, seen, now)
      && (forall a :: a in seen ==> a in db0 && hash(a) == h)
    }

    /** One round of the inner loop of `nat25_db_expire`. */
    method SweepRound(f: Entry, ghost db0: Db, h: nat, ghost k: nat, ghost seen: set<NetAddr>, now: int)
      returns (g: Entry?, ghost k': nat)
      requires Sweeping(db0, f, h, k, seen, now)
      modifies this`chains, this`index, this`db, this`scdbEntry, this`scdbMac, this`scdbIp, nethash, repr
      ensures Sweeping(db0, g, h, k', seen + {f.addr}, now)
      ensures |chains[h]| - k' == |old(chains)[h]| - k - 1
    {
      hide Buckets, Indexed, Counted, Expired, Nexts, Pprevs, Values, Without, SweepSome, Bucket, SeenUpTo;
      EntryAt(h, k);
      g := f.next;
      WalkStays(hash, h, chains[h], k, seen);
      WalkCuts(hash, h, chains[h], k, seen);
      WithoutShorter(chains[h], k);
      SweepKeys(cfg, db0, seen, now);
      SweepOneMore(cfg, db0, seen, f.addr, now);
      ghost var removed := SweepEntry(f, h, k, now);
      k' := if removed then k else k + 1;
    }

    /** The inner loop of `nat25_db_expire`. */
    method SweepBucket(h: nat, now: int)
      requires Valid() && h < HASH_SIZE
      modifies this`chains, this`index, this`db, this`scdbEntry, this`scdbMac, this`scdbIp, nethash, repr
      ensures Valid()
      ensures db == SweepSome(cfg, old(db), (set a | a in old(db) && hash(a) == h), now)
    {
      hide Buckets, Indexed, Counted, Expired, Nexts, Pprevs, Values, SweepSome, SeenUpTo;
      BucketStart(h);
      WalkStarts(chains[h]);
      var f := nethash[h];
      ghost var k: nat, seen: set<NetAddr> := 0, {};
      SweepNone(cfg, db, now);
      while f != null
        invariant Sweeping(old(db), f, h, k, seen, now)
        decreases |chains[h]| - k
      {
        ghost var a := f.addr;
        f, k := SweepRound(f, old(db), h, k, seen, now);
        seen := seen + {a};
      }
      BucketEnd(h, seen);
      SweepKeys(cfg, old(db), seen, now);
      assert seen == set a | a in old(db) && hash(a) == h;
    }

    /** `nat25_db_expire` */
    method Expire(now: int)
      requires Valid()
      modifies this`chains, this`index, this`db, this`scdbEntry, this`scdbMac, this`scdbIp, nethash, repr
      ensures Valid() && db == SweepDb(cfg, old(db), now)
      ensures forall b :: b in db <==>
                b in old(db) && !(Expired(cfg, old(db)[b].timer, now) && old(db)[b].uses == 1)
      ensures forall b :: b in db ==>
                db[b] == if Expired(cfg, old(db)[b].timer, now) then old(db)[b].(uses := old(db)[b].uses - 1)
                         else old(db)[b]
    {
      hide Buckets, Indexed, Counted, Expired, Nexts, Pprevs, Values, SweepSome;
      SweepMeans(cfg, db, now);
      SweepNone(cfg, db, now);
      ghost var done: set<NetAddr> := {};
      for i := 0 to HASH_SIZE
        invariant Valid() && db == SweepSome(cfg, old(db), done, now)
        invariant done == set a | a in old(db) && hash(a) < i
      {
        ghost var more := set a | a in old(db) && hash(a) == i;
        SweepKeys(cfg, old(db), done, now);
        assert more == set a | a in db && hash(a) == i;
        SweepUnion(cfg, old(db), done, more, now);
        SweepBucket(i, now);
        done := done + more;
      }
      SweepAll(cfg, old(db), done, now);
    }

    /** One round of the inner loop of `nat25_db_cleanup`. */
    method ClearRound(f: Entry, ghost h: nat) returns (g: Entry?)
      requires Valid() && h < HASH_SIZE && f == EntryAtOrEnd(chains[h], 0)
      modifies this`chains, this`index, this`db, this`scdbEntry, this`scdbMac, this`scdbIp, nethash, repr
      ensures Valid() && g == EntryAtOrEnd(chains[h], 0) && |chains[h]| < |old(chains)[h]|
      ensures db == old(db) - {f.addr} && f.addr in old(db) && hash(f.addr) == h
    {
      hide Buckets, Indexed, Counted, Nexts, Pprevs, Values, Bucket;
      EntryAt(h, 0);
      g := f.next;
      ForgetScdb(f);
      Unlink(f, h, 0);
    }

    /** The inner loop of `nat25_db_cleanup`. */
    method ClearBucket(h: nat)
      requires Valid() && h < HASH_SIZE
      modifies this`chains, this`index, this`db, this`scdbEntry, this`scdbMac, this`scdbIp, nethash, repr
      ensures Valid()
      ensures db == old(db) - (set a | a in old(db) && hash(a) == h)
    {
      hide Buckets, Indexed, Counted, Nexts, Pprevs, Values, Bucket;
      BucketStart(h);
      var f := nethash[h];
      ghost var seen: set<NetAddr> := {};
      while f != null
        invariant Valid() && f == EntryAtOrEnd(chains[h], 0)
        invariant db == old(db) - seen
        invariant forall a :: a in seen ==> a in old(db) && hash(a) == h
        decreases |chains[h]|
      {
        seen := seen + {f.addr};
        f := ClearRound(f, h);
      }
      BucketEnd(h, {});
      assert seen == set a | a in old(db) && hash(a) == h;
    }

    /** `nat25_db_cleanup` */
    method Cleanup()
      requires Valid()
      modifies this`chains, this`index, this`db, this`scdbEntry, this`scdbMac, this`scdbIp, nethash, repr
      ensures Valid() && db == map[] && scdbEntry == null
    {
      hide Buckets, Indexed, Counted, Nexts, Pprevs, Values;
      for i := 0 to HASH_SIZE
        invariant Valid() && forall a :: a in db ==> hash(a) >= i
      {
        ClearBucket(i);
      }
      assert db.Keys == {};
    }

    /** `scdb_findEntry` as the transmit path uses it: remember the entry of an address. */
    method RememberScdb(a: NetAddr, mac: Mac, ip: seq<bv8>, now: int)
      requires Valid()
      modifies this`db, this`scdbEntry, this`scdbMac, this`scdbIp, repr
      ensures Valid() && db == TouchDb(old(db), a, now)
      ensures scdbEntry == if a in old(db) then index[a] else null
      ensures scdbMac == (if a in old(db) then mac else old(scdbMac))
      ensures scdbIp == (if a in old(db) then ip else old(scdbIp))
    {
      hide Buckets, Indexed, Counted, Nexts, Pprevs, Values;
      var e := Find(a);
      if e != null {
        Store(e, a, e.Value().(timer := now));
        scdbMac, scdbIp := mac, ip;
      }
      scdbEntry := e;
    }
  }
}