/** The xorshift generator of system/rand.c. */
module Random {

  function Step13(x: bv32): bv32 { x ^ (x << 13) }

  function Step17(x: bv32): bv32 { x ^ (x >> 17) }

  function Step5(x: bv32): bv32 { x ^ (x << 5) }

  function XorShift(state: bv32): bv32 {
    Step5(Step17(Step13(state)))
  }

  function Undo13(y: bv32): bv32 { y ^ (y << 13) ^ (y << 26) }

  function Undo17(y: bv32): bv32 { y ^ (y >> 17) }

  function Undo5(y: bv32): bv32 {
    y ^ (y << 5) ^ (y << 10) ^ (y << 15) ^ (y << 20) ^ (y << 25) ^ (y << 30)
  }

  /** The three steps undone, last first. */
  function Unshift(state: bv32): bv32 {
    Undo13(Undo17(Undo5(state)))
  }

  lemma Step13Inverts(x: bv32)
    ensures Undo13(Step13(x)) == x
  {
    assert Undo13(x ^ (x << 13)) == x by {
      Bits13(x);
    }
  }

  lemma Bits13(x: bv32)
    ensures var y := x ^ (x << 13);
            y ^ (y << 13) ^ (y << 26) == x
  {
  }

  lemma Step17Inverts(x: bv32)
    ensures Undo17(Step17(x)) == x
  {
    assert Undo17(x ^ (x >> 17)) == x by {
      Bits17(x);
    }
  }

  lemma Bits17(x: bv32)
    ensures var y := x ^ (x >> 17);
            y ^ (y >> 17) == x
  {
  }

  lemma Step5Inverts(x: bv32)
    ensures Undo5(Step5(x)) == x
  {
    assert Undo5(x ^ (x << 5)) == x by {
      Bits5(x);
    }
  }

  lemma Bits5(x: bv32)
    ensures var y := x ^ (x << 5);
            y ^ (y << 5) ^ (y << 10) ^ (y << 15) ^ (y << 20) ^ (y << 25) ^ (y << 30) == x
  {
  }

  lemma UnshiftInverts(state: bv32)
    ensures Unshift(XorShift(state)) == state
  {
    var a := Step13(state);
    var b := Step17(a);
    Step5Inverts(b);
    Step17Inverts(a);
    Step13Inverts(state);
  }

  lemma Redo13(y: bv32)
    ensures Step13(Undo13(y)) == y
  {
    assert var x := y ^ (y << 13) ^ (y << 26); x ^ (x << 13) == y;
  }

  lemma Redo17(y: bv32)
    ensures Step17(Undo17(y)) == y
  {
    assert Step17(y ^ (y >> 17)) == y by {
      Bits17(y);
    }
  }

  lemma Redo5(y: bv32)
    ensures Step5(Undo5(y)) == y
  {
    assert Step5(y ^ (y << 5) ^ (y << 10) ^ (y << 15) ^ (y << 20) ^ (y << 25) ^ (y << 30)) == y by {
      RedoBits5(y);
    }
  }

  lemma RedoBits5(y: bv32)
    ensures var x := y ^ (y << 5) ^ (y << 10) ^ (y << 15) ^ (y << 20) ^ (y << 25) ^ (y << 30);
            x ^ (x << 5) == y
  {
  }

  /** Every state is the successor of exactly one state. */
  lemma XorShiftInverts(state: bv32)
    ensures XorShift(Unshift(state)) == state
  {
    var b := Undo5(state);
    var a := Undo17(b);
    Redo13(a);
    Redo17(b);
    Redo5(state);
  }

  /** The first states from seed 1 of the 13, 17, 5 generator. */
  lemma FirstStates()
    ensures XorShift(1) == 270369 && XorShift(270369) == 67634689 && XorShift(67634689) == 2647435461
  {
  }

  /** The state `n` calls after `state`. */
  function Advanced(state: bv32, n: nat): bv32 {
    if n == 0 then state else XorShift(Advanced(state, n - 1))
  }

  function Rewound(state: bv32, n: nat): bv32
    decreases n
  {
    if n == 0 then state else Rewound(Unshift(state), n - 1)
  }

  /** The state after any number of calls determines the state before them. */
  lemma {:induction false} RunIsReversible(state: bv32, n: nat)
    ensures Rewound(Advanced(state, n), n) == state
  {
    if n > 0 {
      UnshiftInverts(Advanced(state, n - 1));
      RunIsReversible(state, n - 1);
    }
  }

  /** Two runs that meet after equally many calls started from the same state. */
  lemma RunsDoNotMerge(s: bv32, t: bv32, n: nat)
    ensures Advanced(s, n) == Advanced(t, n) ==> s == t
  {
    RunIsReversible(s, n);
    RunIsReversible(t, n);
  }

  /** A run yields zero if and only if it was seeded with zero. */
  lemma {:induction false} ZeroOnlyFromZero(state: bv32, n: nat)
    ensures Advanced(state, n) == 0 <==> state == 0
  {
    ZeroStays(n);
    RunsDoNotMerge(state, 0, n);
  }

  lemma {:induction false} ZeroStays(n: nat)
    ensures Advanced(0, n) == 0
  {
    if n > 0 {
      ZeroStays(n - 1);
      assert XorShift(0) == 0;
    }
  }

  class Generator {
    var state: bv32

    method Srand(initial: bv32)
      modifies this
      ensures state == Advanced(initial, 1)
    {
      assert Advanced(initial, 0) == initial;
      state := XorShift(initial);
    }

    /** The values of `n` successive calls of rand. */
    method Rand(n: nat) returns (values: seq<bv32>)
      modifies this
      ensures |values| == n && forall k :: 0 <= k < n ==> values[k] == Advanced(old(state), k + 1)
      ensures state == Advanced(old(state), n)
    {
      values := [];
      for k := 0 to n
        invariant |values| == k && forall j :: 0 <= j < k ==> values[j] == Advanced(old(state), j + 1)
        invariant state == Advanced(old(state), k)
      {
        state := XorShift(state);
        values := values + [state];
      }
    }
  }
}
