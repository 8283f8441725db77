/** The pool of access control entries of core/rtw_ap.c: a fixed array of nodes with valid flags,
    a queue of the nodes in use and a count. */
module AclPool {
  import opened Lists

  const NUM_ACL := 16
  const BROADCAST: nat := 0xFFFF_FFFF_FFFF

  datatype Mode = Disabled | AcceptUnlessListed | DenyUnlessListed
  datatype Node = Node(addr: nat, valid: bool)

  predicate InRange(queue: seq<nat>, m: nat) {
    forall i :: 0 <= i < |queue| ==> queue[i] < m
  }

  /** The addresses of some nodes, in order. */
  function Addresses(nodes: seq<Node>, queue: seq<nat>): (r: seq<nat>)
    requires InRange(queue, |nodes|)
    ensures |r| == |queue| && forall i :: 0 <= i < |queue| ==> r[i] == nodes[queue[i]].addr
  {
    if queue == [] then [] else [nodes[queue[0]].addr] + Addresses(nodes, queue[1..])
  }

  /** Taking nodes out by their addresses takes out the addresses. */
  lemma {:induction false} AddressesWithout(nodes: seq<Node>, queue: seq<nat>, gone: set<nat>, addrs: set<nat>)
    requires InRange(queue, |nodes|) && InRange(Without(queue, gone), |nodes|)
    requires forall i :: 0 <= i < |queue| ==> (queue[i] in gone <==> nodes[queue[i]].addr in addrs)
    ensures Addresses(nodes, Without(queue, gone)) == Without(Addresses(nodes, queue), addrs)
  {
    if queue != [] {
      var n, rest := queue[0], Without(queue[1..], gone);
      if n in gone {
        AddressesWithout(nodes, queue[1..], gone, addrs);
      } else {
        assert Without(queue, gone)[1..] == rest;
        AddressesWithout(nodes, queue[1..], gone, addrs);
      }
    }
  }

  /** The queue holds the valid nodes, each once and with an address of its own, and the count is
      right. */
  ghost predicate Sound(nodes: seq<Node>, queue: seq<nat>, num: int) {
    && |nodes| == NUM_ACL && NoDups(queue) && num == |queue| && InRange(queue, NUM_ACL)
    && (forall n: nat :: n < NUM_ACL ==> (nodes[n].valid <==> n in queue))
    && NoDups(Addresses(nodes, queue))
  }

  /** While the count is below the limit some node is free. */
  lemma FreeNode(nodes: seq<Node>, queue: seq<nat>, num: int)
    requires Sound(nodes, queue, num) && num < NUM_ACL
    ensures exists n: nat :: n < NUM_ACL && !nodes[n].valid
  {
    if forall n: nat :: n < NUM_ACL ==> nodes[n].valid {
      Pigeonhole(queue, NUM_ACL);
    }
  }

  /** The count is the number of distinct addresses and within the limit. */
  lemma CountIsSize(nodes: seq<Node>, queue: seq<nat>, num: int)
    requires Sound(nodes, queue, num)
    ensures num == |Members(Addresses(nodes, queue))| <= 16
  {
    NoDupsCount(Addresses(nodes, queue));
    NoDupsCount(queue);
    SubsetCount(Members(queue), Below(NUM_ACL));
  }

  lemma Used(nodes: seq<Node>, queue: seq<nat>, num: int, i: nat, addr: nat)
    requires Sound(nodes, queue, num) && i < NUM_ACL && !nodes[i].valid && addr !in Addresses(nodes, queue)
    ensures var after := nodes[i := Node(addr, true)];
            && Sound(after, queue + [i], num + 1)
            && Addresses(after, queue + [i]) == Addresses(nodes, queue) + [addr]
  {
    var after, more := nodes[i := Node(addr, true)], queue + [i];
    assert Addresses(after, more) == Addresses(nodes, queue) + [addr];
  }

  lemma NodeAt(nodes: seq<Node>, queue: seq<nat>, num: int, i: nat)
    requires Sound(nodes, queue, num) && i < |queue|
    ensures queue[i] < |nodes| && nodes[queue[i]].valid
    ensures i < |Addresses(nodes, queue)| && Addresses(nodes, queue)[i] == nodes[queue[i]].addr
  {
    assert queue[i] in queue;
  }

  lemma InUse(nodes: seq<Node>, queue: seq<nat>, num: int, n: nat)
    requires Sound(nodes, queue, num) && n in queue
    ensures n < |nodes| && nodes[n].valid
  {
  }

  lemma Dropped(nodes: seq<Node>, queue: seq<nat>, num: int, n: nat)
    requires Sound(nodes, queue, num) && n in queue
    ensures n < |nodes| && Sound(nodes[n := nodes[n].(valid := false)], Without(queue, {n}), num - 1)
  {
    hide Without, Addresses;
    InUse(nodes, queue, num, n);
    var after, rest := nodes[n := nodes[n].(valid := false)], Without(queue, {n});
    WithoutNoDups(queue, {n});
    WithoutOne(queue, n);
    assert forall i :: 0 <= i < |rest| ==> rest[i] in queue;
    DistinctAddresses(nodes, queue, rest, after);
  }

  /** Fewer nodes still have addresses of their own. */
  lemma DistinctAddresses(nodes: seq<Node>, queue: seq<nat>, rest: seq<nat>, after: seq<Node>)
    requires InRange(queue, |nodes|) && InRange(rest, |after|) && |after| == |nodes|
    requires NoDups(Addresses(nodes, queue)) && NoDups(rest) && forall x :: x in rest ==> x in queue
    requires SameAddresses(after, nodes)
    ensures NoDups(Addresses(after, rest))
  {
    var r := Addresses(after, rest);
    forall i, j | 0 <= i < j < |r| ensures r[i] != r[j] {
      assert rest[i] in rest && rest[j] in rest;
      var k :| 0 <= k < |queue| && queue[k] == rest[i];
      var l :| 0 <= l < |queue| && queue[l] == rest[j];
      assert Addresses(nodes, queue)[k] != Addresses(nodes, queue)[l];
    }
  }

  predicate SameAddresses(a: seq<Node>, b: seq<Node>) {
    |a| == |b| && forall n :: 0 <= n < |a| ==> a[n].addr == b[n].addr
  }

  lemma SameAddressLists(a: seq<Node>, b: seq<Node>, queue: seq<nat>)
    requires SameAddresses(a, b) && InRange(queue, |a|)
    ensures Addresses(a, queue) == Addresses(b, queue)
  {
  }

  lemma Remaining(nodes: seq<Node>, q: seq<nat>, gone: set<nat>, all: bool, addr: nat)
    requires InRange(q, |nodes|) && InRange(Without(q, gone), |nodes|)
    requires forall i :: 0 <= i < |q| ==> (q[i] in gone <==> all || nodes[q[i]].addr == addr)
    ensures Addresses(nodes, Without(q, gone)) == if all then [] else Without(Addresses(nodes, q), {addr})
  {
    if all {
      WithoutAll(q, gone);
    } else {
      AddressesWithout(nodes, q, gone, {addr});
    }
  }

  class Pool {
    const node: array<Node>
    var queue: seq<nat>
    var num: int
    var mode: Mode

    ghost predicate Valid()
      reads this, node
    {
      Sound(node[..], queue, num)
    }

    /** The addresses in the pool, in the order they were added. */
    ghost function Contents(): (r: seq<nat>)
      requires Valid()
      reads this, node
    {
      Addresses(node[..], queue)
    }

    /** `rtw_macaddr_acl_init` */
    constructor ()
      ensures Valid() && Contents() == [] && mode == Disabled && fresh(node)
    {
      node := new Node[NUM_ACL](_ => Node(0, false));
      queue, num, mode := [], 0, Disabled;
    }

    /** The search for an existing entry. */
    method Listed(addr: nat) returns (existed: bool)
      requires Valid()
      ensures existed <==> addr in Contents()
    {
      hide Sound, Addresses;
      Sizes(node[..], queue, num);
      for i := 0 to |queue|
        invariant forall j :: 0 <= j < i ==> Contents()[j] != addr
      {
        NodeAt(node[..], queue, num, i);
        var n := queue[i];
        if node[n].addr == addr {
          if node[n].valid {
            return true;
          }
        }
      }
      return false;
    }

    /** The search for a free node. */
    method Free() returns (i: nat)
      requires Valid() && num < NUM_ACL
      ensures i < NUM_ACL && !node[i].valid
    {
      FreeNode(node[..], queue, num);
      i := 0;
      while node[i].valid
        invariant i < NUM_ACL && exists n: nat :: i <= n < NUM_ACL && !node[..][n].valid
        decreases NUM_ACL - i
      {
        i := i + 1;
      }
    }

    /** `rtw_acl_add_sta`: a bounded insertion, refused only if the pool is full of others. */
    method Add(addr: nat) returns (ok: bool)
      requires Valid()
      modifies `queue, `num, node
      ensures Valid()
      ensures ok <==> addr in old(Contents()) || |old(Contents())| < 16
      ensures Contents() == if ok && addr !in old(Contents()) then old(Contents()) + [addr] else old(Contents())
    {
      hide Sound, Addresses;
      Sizes(node[..], queue, num);
      var existed := Listed(addr);
      if existed {
        return true;
      }
      if num >= NUM_ACL {
        return false;
      }
      var i := Free();
      Used(node[..], queue, num, i, addr);
      ghost var before := node[..];
      node[i] := Node(addr, true);
      assert node[..] == before[i := Node(addr, true)];
      queue := queue + [i];
      num := num + 1;
      return true;
    }

    /** The deletion of one node in use. */
    method Drop(n: nat)
      requires Valid() && n in queue
      modifies `queue, `num, node
      ensures Valid() && queue == Without(old(queue), {n})
      ensures node[..] == old(node[..])[n := old(node[..])[n].(valid := false)]
    {
      Dropped(node[..], queue, num, n);
      ghost var before := node[..];
      node[n] := node[n].(valid := false);
      assert node[..] == before[n := before[n].(valid := false)];
      queue := Without(queue, {n});
      num := num - 1;
    }

    method Visit(n: nat, all: bool, addr: nat) returns (gone: bool)
      requires Valid() && n in queue
      modifies `queue, `num, node
      ensures Valid() && n < |old(node[..])| && SameAddresses(node[..], old(node[..]))
      ensures gone <==> all || old(node[..])[n].addr == addr
      ensures queue == if gone then Without(old(queue), {n}) else old(queue)
    {
      hide Sound, Addresses;
      Sizes(node[..], queue, num);
      InUse(node[..], queue, num, n);
      gone := false;
      if all || node[n].addr == addr {
        if node[n].valid {
          Drop(n);
          gone := true;
        }
      }
    }

    /** The loop over the queue that deletes the nodes with one address, or all. */
    method DropAll(all: bool, addr: nat)
      requires Valid()
      modifies `queue, `num, node
      ensures Valid()
      ensures Contents() == if all then [] else Without(old(Contents()), {addr})
    {
      hide Sound, Addresses;
      ghost var nodes, gone: set<nat> := node[..], {};
      var q := queue;
      Sizes(nodes, q, num);
      WithoutNone(q, {});
      for j := 0 to |q|
        invariant Valid() && queue == Without(q, gone)
        invariant SameAddresses(node[..], nodes)
        invariant forall i :: 0 <= i < j ==> (q[i] in gone <==> all || nodes[q[i]].addr == addr)
        invariant forall i :: j <= i < |q| ==> q[i] !in gone
      {
        hide Without;
        var n := q[j];
        assert n in q;
        WithoutMore(q, gone, n);
        var isGone := Visit(n, all, addr);
        if isGone {
          gone := gone + {n};
        }
      }
      Sizes(node[..], queue, num);
      SameAddressLists(node[..], nodes, queue);
      Remaining(nodes, q, gone, all, addr);
    }

    /** `rtw_acl_remove_sta`: the address goes, or everything for the broadcast address. */
    method Remove(addr: nat)
      requires Valid()
      modifies `queue, `num, node
      ensures Valid()
      ensures Contents() == if addr == 0xFFFF_FFFF_FFFF then [] else Without(old(Contents()), {addr})
    {
      DropAll(addr == BROADCAST, addr);
    }

    /** `rtw_macaddr_acl_clear` */
    method Clear()
      requires Valid()
      modifies `queue, `num, `mode, node
      ensures Valid() && Contents() == [] && num == 0 && mode == Disabled
    {
      DropAll(true, 0);
      mode := Disabled;
    }
  }

  lemma Sizes(nodes: seq<Node>, queue: seq<nat>, num: int)
    requires Sound(nodes, queue, num)
    ensures |nodes| == NUM_ACL && NoDups(queue) && InRange(queue, NUM_ACL)
    ensures num == |queue| == |Addresses(nodes, queue)|
  {
  }
}
