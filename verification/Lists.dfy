/** Lists without repetitions, as the driver's linked lists are. */
module Lists {

  predicate NoDups(list: seq<nat>) {
    forall i, j :: 0 <= i < j < |list| ==> list[i] != list[j]
  }

  /** The list without some of its members, in order. */
  function Without(list: seq<nat>, gone: set<nat>): (r: seq<nat>)
    ensures forall x :: x in r <==> x in list && x !in gone
  {
    if list == [] then []
    else
      var rest := Without(list[1..], gone);
      if list[0] in gone then rest else [list[0]] + rest
  }

  lemma {:induction false} WithoutNoDups(list: seq<nat>, gone: set<nat>)
    requires NoDups(list)
    ensures NoDups(Without(list, gone))
  {
    if list != [] {
      WithoutNoDups(list[1..], gone);
    }
  }

  lemma {:induction false} WithoutNone(list: seq<nat>, gone: set<nat>)
    requires forall x :: x in gone ==> x !in list
    ensures Without(list, gone) == list
  {
    if list != [] {
      WithoutNone(list[1..], gone);
    }
  }

  lemma {:induction false} WithoutAll(list: seq<nat>, gone: set<nat>)
    requires forall x :: x in list ==> x in gone
    ensures Without(list, gone) == []
  {
    if list != [] {
      WithoutAll(list[1..], gone);
    }
  }

  lemma {:induction false} WithoutMore(list: seq<nat>, gone: set<nat>, x: nat)
    ensures Without(Without(list, gone), {x}) == Without(list, gone + {x})
  {
    if list != [] {
      WithoutMore(list[1..], gone, x);
      var rest := Without(list[1..], gone);
      if list[0] !in gone {
        assert ([list[0]] + rest)[1..] == rest;
      }
    }
  }

  lemma {:induction false} WithoutOne(list: seq<nat>, x: nat)
    requires NoDups(list) && x in list
    ensures |Without(list, {x})| == |list| - 1
  {
    if list[0] == x {
      WithoutNone(list[1..], {x});
    } else {
      WithoutOne(list[1..], x);
    }
  }

  ghost function Members(list: seq<nat>): (r: set<nat>) {
    set x | x in list
  }

  lemma {:induction false} NoDupsCount(list: seq<nat>)
    requires NoDups(list)
    ensures |Members(list)| == |list|
  {
    if list != [] {
      NoDupsCount(list[1..]);
      assert Members(list) == Members(list[1..]) + {list[0]};
    }
  }

  function Below(n: nat): (r: set<nat>)
    ensures |r| == n && forall x: nat :: x in r <==> x < n
  {
    if n == 0 then {} else Below(n - 1) + {n - 1}
  }

  /** A list of numbers below `n` that has them all has `n` members. */
  lemma Pigeonhole(list: seq<nat>, n: nat)
    requires NoDups(list) && forall x: nat :: x < n <==> x in list
    ensures |list| == n
  {
    NoDupsCount(list);
    assert Members(list) == Below(n);
  }

  lemma {:induction false} SubsetCount(a: set<nat>, b: set<nat>)
    requires a <= b
    ensures |a| <= |b|
  {
    if a != {} {
      var x :| x in a;
      SubsetCount(a - {x}, b - {x});
    }
  }
}
