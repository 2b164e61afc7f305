/** Counting the slots of a fixed pool. */
module Pool {

  ghost predicate Distinct(slots: seq<int>) {
    forall j, k :: 0 <= j < k < |slots| ==> slots[j] != slots[k]
  }

  function Range(n: nat): (r: set<int>)
    ensures forall i :: i in r <==> 0 <= i < n
    ensures |r| == n
  {
    if n == 0 then {} else Range(n - 1) + {n - 1}
  }

  function Members(slots: seq<int>): (r: set<int>)
    ensures forall i :: i in r <==> i in slots
    ensures Distinct(slots) ==> |r| == |slots|
  {
    if slots == [] then {}
    else
      var rest := slots[..|slots| - 1];
      assert slots == rest + [slots[|slots| - 1]];
      Members(rest) + {slots[|slots| - 1]}
  }

  /** Distinct slots of a pool of `n` number at most `n`, and `n` of them exactly
      when no slot is free. */
  lemma Pigeonhole(slots: seq<int>, n: nat)
    requires Distinct(slots)
    requires forall k :: 0 <= k < |slots| ==> 0 <= slots[k] < n
    ensures |slots| <= n
    ensures |slots| == n <==> forall i :: 0 <= i < n ==> i in slots
  {
    var used, pool := Members(slots), Range(n);
    assert used <= pool;
    assert pool == used + (pool - used);
    assert |pool| == |used| + |pool - used|;
    if |slots| == n {
      assert pool - used == {};
      assert forall i :: 0 <= i < n ==> i in pool;
    } else {
      var i :| i in pool - used;
      assert 0 <= i < n && i !in slots;
    }
  }
}
