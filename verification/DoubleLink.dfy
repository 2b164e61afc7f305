/**
 The doubly linked list of include/system.h, threaded through the slots of a
 fixed pool. A C pointer to a slot is the slot's index, and NIL is NULL.

 Each list routine works in place on an array of links and is specified by a
 function on the array's contents; the lemmas say what that function does to a
 well-formed chain.
 */
module DoubleLink {

  const NIL: int := -1

  datatype Link = Link(next: int, previous: int)

  const UNLINKED: Link := Link(NIL, NIL)

  /** The element of `chain` at `k`, or NIL past either end. */
  function At(chain: seq<int>, k: int): int {
    if 0 <= k < |chain| then chain[k] else NIL
  }

  /** The slot at position `k` of `chain` names its two neighbours. */
  ghost predicate LinkedAt(links: seq<Link>, chain: seq<int>, k: int)
    requires 0 <= k < |chain| && 0 <= chain[k] < |links|
  {
    links[chain[k]] == Link(At(chain, k + 1), At(chain, k - 1))
  }

  /** `chain` lists distinct slots; each one's links name its two neighbours,
      with NIL before the first and after the last. */
  ghost predicate IsChain(links: seq<Link>, chain: seq<int>) {
    && (forall k :: 0 <= k < |chain| ==> 0 <= chain[k] < |links|)
    && (forall j, k :: 0 <= j < k < |chain| ==> chain[j] != chain[k])
    && (forall k :: 0 <= k < |chain| ==> LinkedAt(links, chain, k))
  }

  function Inserted<T>(s: seq<T>, p: nat, x: T): seq<T>
    requires p <= |s|
  {
    s[..p] + [x] + s[p..]
  }

  function Deleted<T>(s: seq<T>, p: nat): seq<T>
    requires p < |s|
  {
    s[..p] + s[p + 1..]
  }

  // ----- what each routine writes, in program order

  function LinkedAfter(links: seq<Link>, item: int, current: int): (r: seq<Link>)
    requires 0 <= item < |links| && 0 <= current < |links|
    requires NIL <= links[current].next < |links|
    ensures |r| == |links|
  {
    var l1 := links[item := Link(links[current].next, current)];
    var l2 := l1[current := l1[current].(next := item)];
    var n := l2[item].next;
    if n != NIL then l2[n := l2[n].(previous := item)] else l2
  }

  function LinkedBefore(links: seq<Link>, item: int, current: int): (r: seq<Link>)
    requires 0 <= item < |links| && 0 <= current < |links|
    requires NIL <= links[current].previous < |links|
    ensures |r| == |links|
  {
    var l1 := links[item := Link(current, links[current].previous)];
    var l2 := l1[current := l1[current].(previous := item)];
    var p := l2[item].previous;
    if p != NIL then l2[p := l2[p].(next := item)] else l2
  }

  /** The node arrives by value, so its own links are left as they were. */
  function Unlinked(links: seq<Link>, item: Link): (r: seq<Link>)
    requires NIL <= item.next < |links| && NIL <= item.previous < |links|
    ensures |r| == |links|
  {
    if item.previous != NIL then
      var l1 := links[item.previous := links[item.previous].(next := item.next)];
      if item.next != NIL then l1[item.next := l1[item.next].(previous := item.previous)] else l1
    else if item.next != NIL then
      links[item.next := links[item.next].(previous := NIL)]
    else
      links
  }

  // ----- the routines

  method ListInsertAfter(links: array<Link>, item: int, current: int)
    requires 0 <= item < links.Length && 0 <= current < links.Length
    requires NIL <= links[current].next < links.Length
    modifies links
    ensures links[..] == LinkedAfter(old(links[..]), item, current)
  {
    links[item] := links[item].(next := links[current].next);
    links[item] := links[item].(previous := current);
    links[current] := links[current].(next := item);
    if links[item].next != NIL {
      links[links[item].next] := links[links[item].next].(previous := item);
    }
  }

  method ListInsertBefore(links: array<Link>, item: int, current: int)
    requires 0 <= item < links.Length && 0 <= current < links.Length
    requires NIL <= links[current].previous < links.Length
    modifies links
    ensures links[..] == LinkedBefore(old(links[..]), item, current)
  {
    links[item] := links[item].(next := current);
    links[item] := links[item].(previous := links[current].previous);
    links[current] := links[current].(previous := item);
    if links[item].previous != NIL {
      links[links[item].previous] := links[links[item].previous].(next := item);
    }
  }

  method ListRemove(links: array<Link>, item: Link)
    requires NIL <= item.next < links.Length && NIL <= item.previous < links.Length
    modifies links
    ensures links[..] == Unlinked(old(links[..]), item)
  {
    if item.previous != NIL {
      links[item.previous] := links[item.previous].(next := item.next);
      if item.next != NIL {
        links[item.next] := links[item.next].(previous := item.previous);
      }
    } else if item.next != NIL {
      links[item.next] := links[item.next].(previous := NIL);
    }
  }

  // ----- what they do to a chain

  /** `after` differs from `links` only around position `p` of `chain`, where
      `item` now stands between its two new neighbours. */
  ghost predicate IsSpliced(links: seq<Link>, after: seq<Link>, chain: seq<int>, p: nat, item: int) {
    && |after| == |links|
    && forall i :: 0 <= i < |links| ==>
         after[i] == if i == item then Link(At(chain, p), At(chain, p - 1))
                     else if i == At(chain, p) then links[i].(previous := item)
                     else if i == At(chain, p - 1) then links[i].(next := item)
                     else links[i]
  }

  lemma InsertedAt<T>(s: seq<T>, p: nat, x: T, k: nat)
    requires p <= |s| && k <= |s|
    ensures Inserted(s, p, x)[k] == if k < p then s[k] else if k == p then x else s[k - 1]
  {
  }

  lemma SplicedIsChain(links: seq<Link>, after: seq<Link>, chain: seq<int>, p: nat, item: int)
    requires IsChain(links, chain) && p <= |chain|
    requires 0 <= item < |links| && item !in chain
    requires IsSpliced(links, after, chain, p, item)
    ensures IsChain(after, Inserted(chain, p, item))
  {
    var c := Inserted(chain, p, item);
    forall k | 0 <= k < |c|
      ensures 0 <= c[k] < |after| && LinkedAt(after, c, k)
    {
      SplicedLink(links, after, chain, p, item, k);
    }
  }

  lemma SplicedLink(links: seq<Link>, after: seq<Link>, chain: seq<int>, p: nat, item: int, k: nat)
    requires IsChain(links, chain) && p <= |chain| && k <= |chain|
    requires 0 <= item < |links| && item !in chain
    requires IsSpliced(links, after, chain, p, item)
    ensures 0 <= Inserted(chain, p, item)[k] < |after|
    ensures LinkedAt(after, Inserted(chain, p, item), k)
  {
    InsertedAt(chain, p, item, k);
    if k < |chain| { InsertedAt(chain, p, item, k + 1); }
    if k > 0 { InsertedAt(chain, p, item, k - 1); }
    if k != p {
      var j := if k < p then k else k - 1;
      assert LinkedAt(links, chain, j);
    }
  }

  lemma InsertBeforeKeepsChain(links: seq<Link>, chain: seq<int>, p: nat, item: int)
    requires IsChain(links, chain) && p < |chain|
    requires 0 <= item < |links| && item !in chain
    ensures NIL <= links[chain[p]].previous < |links|
    ensures IsSpliced(links, LinkedBefore(links, item, chain[p]), chain, p, item)
    ensures IsChain(LinkedBefore(links, item, chain[p]), Inserted(chain, p, item))
  {
    assert LinkedAt(links, chain, p);
    SplicedIsChain(links, LinkedBefore(links, item, chain[p]), chain, p, item);
  }

  lemma InsertAfterKeepsChain(links: seq<Link>, chain: seq<int>, p: nat, item: int)
    requires IsChain(links, chain) && p < |chain|
    requires 0 <= item < |links| && item !in chain
    ensures NIL <= links[chain[p]].next < |links|
    ensures IsSpliced(links, LinkedAfter(links, item, chain[p]), chain, p + 1, item)
    ensures IsChain(LinkedAfter(links, item, chain[p]), Inserted(chain, p + 1, item))
  {
    assert LinkedAt(links, chain, p);
    SplicedIsChain(links, LinkedAfter(links, item, chain[p]), chain, p + 1, item);
  }

  /** Taking out the slot at `p` closes the gap and touches nothing else, not
      even the removed slot's own links. */
  lemma RemoveKeepsChain(links: seq<Link>, chain: seq<int>, p: nat)
    requires IsChain(links, chain) && p < |chain|
    ensures NIL <= links[chain[p]].next < |links| && NIL <= links[chain[p]].previous < |links|
    ensures IsChain(Unlinked(links, links[chain[p]]), Deleted(chain, p))
    ensures forall i :: 0 <= i < |links| && (i !in chain || i == chain[p]) ==>
                          Unlinked(links, links[chain[p]])[i] == links[i]
  {
    assert LinkedAt(links, chain, p);
    forall k | 0 <= k < |chain| - 1
      ensures LinkedAt(Unlinked(links, links[chain[p]]), Deleted(chain, p), k)
    {
      UnlinkedLink(links, chain, p, k);
    }
  }

  lemma UnlinkedLink(links: seq<Link>, chain: seq<int>, p: nat, k: nat)
    requires IsChain(links, chain) && p < |chain| && k + 1 < |chain|
    ensures NIL <= links[chain[p]].next < |links| && NIL <= links[chain[p]].previous < |links|
    ensures LinkedAt(Unlinked(links, links[chain[p]]), Deleted(chain, p), k)
  {
    var j := if k < p then k else k + 1;
    assert LinkedAt(links, chain, p) && LinkedAt(links, chain, j);
  }

  lemma ClearingOutsideChain(links: seq<Link>, chain: seq<int>, i: int)
    requires IsChain(links, chain) && 0 <= i < |links| && i !in chain
    ensures IsChain(links[i := UNLINKED], chain)
  {
    var after := links[i := UNLINKED];
    forall k | 0 <= k < |chain| ensures LinkedAt(after, chain, k) {
      assert LinkedAt(links, chain, k);
    }
  }

  // ----- a chain is what following the pointers finds

  /** The pointer reached from `start` by `n` steps along `next`. */
  function Follow(links: seq<Link>, start: int, n: nat): int
    decreases n
  {
    if n == 0 || !(0 <= start < |links|) then start else Follow(links, links[start].next, n - 1)
  }

  /** The slot at position `k` of `walk` names the one behind it. */
  ghost predicate NextAt(links: seq<Link>, walk: seq<int>, k: int)
    requires 0 <= k < |walk| && 0 <= walk[k] < |links|
  {
    links[walk[k]].next == At(walk, k + 1)
  }

  /** Following `next` meets the slots of `walk`, then NIL. */
  ghost predicate IsWalk(links: seq<Link>, walk: seq<int>) {
    && (forall k :: 0 <= k < |walk| ==> 0 <= walk[k] < |links|)
    && (forall k :: 0 <= k < |walk| ==> NextAt(links, walk, k))
  }

  lemma ChainIsLinked(links: seq<Link>, chain: seq<int>)
    requires IsChain(links, chain)
    ensures IsWalk(links, chain)
  {
    forall k | 0 <= k < |chain| ensures NextAt(links, chain, k) {
      assert LinkedAt(links, chain, k);
    }
  }

  lemma {:induction false} WalkIsFollowed(links: seq<Link>, walk: seq<int>, k: nat, n: nat)
    requires IsWalk(links, walk) && k + n <= |walk|
    ensures Follow(links, At(walk, k), n) == At(walk, k + n)
    decreases n
  {
    if n > 0 {
      assert NextAt(links, walk, k);
      WalkIsFollowed(links, walk, k + 1, n - 1);
    }
  }

  lemma ChainIsWalk(links: seq<Link>, chain: seq<int>, k: nat, n: nat)
    requires IsChain(links, chain) && k + n <= |chain|
    ensures Follow(links, At(chain, k), n) == At(chain, k + n)
  {
    ChainIsLinked(links, chain);
    WalkIsFollowed(links, chain, k, n);
  }

  /** What inserting `item` does to the forward links. */
  lemma InsertingBeforeNext(links: seq<Link>, item: int, current: int, x: int)
    requires 0 <= item < |links| && 0 <= current < |links| && item != current
    requires NIL <= links[current].previous < |links| && 0 <= x < |links|
    ensures var next := LinkedBefore(links, item, current)[x].next;
            if x == item then next == current || next == item else next == links[x].next || next == item
  {
  }

  /** Following `next` from `start` comes to `slot`. */
  ghost predicate Reaches(links: seq<Link>, start: int, slot: int) {
    exists n: nat :: Follow(links, start, n) == slot
  }

  lemma ReachedIn(links: seq<Link>, start: int, slot: int, n: nat)
    requires Follow(links, start, n) == slot
    ensures Reaches(links, start, slot)
  {
  }

  lemma ChainEnds(links: seq<Link>, chain: seq<int>)
    requires IsChain(links, chain)
    ensures Reaches(links, At(chain, 0), NIL)
  {
    ChainIsWalk(links, chain, 0, |chain|);
    ReachedIn(links, At(chain, 0), NIL, |chain|);
  }

  /** Slots whose links stay among them are never left. */
  lemma {:induction false} ClosedIsNeverLeft(links: seq<Link>, slots: seq<int>, start: int, n: nat)
    requires forall k :: 0 <= k < |slots| ==> 0 <= slots[k] < |links| && links[slots[k]].next in slots
    requires start in slots
    ensures Follow(links, start, n) in slots
    decreases n
  {
    if n > 0 {
      ClosedIsNeverLeft(links, slots, links[start].next, n - 1);
    }
  }

  lemma ClosedIsAllReached(links: seq<Link>, slots: seq<int>, start: int)
    requires forall k :: 0 <= k < |slots| ==> 0 <= slots[k] < |links| && links[slots[k]].next in slots
    requires start in slots
    ensures forall x :: Reaches(links, start, x) ==> x in slots
    ensures !Reaches(links, start, NIL)
  {
    forall x | Reaches(links, start, x) ensures x in slots {
      var n: nat :| Follow(links, start, n) == x;
      ClosedIsNeverLeft(links, slots, start, n);
    }
  }

  /** Links that only lead back into a walk are never left. */
  lemma {:induction false} WalkIsClosed(links: seq<Link>, walk: seq<int>, start: int, n: nat)
    requires IsWalk(links, walk) && (start in walk || start == NIL)
    ensures Follow(links, start, n) in walk || Follow(links, start, n) == NIL
    decreases n
  {
    if n > 0 && start != NIL {
      var k :| 0 <= k < |walk| && walk[k] == start;
      assert NextAt(links, walk, k);
      WalkIsClosed(links, walk, links[start].next, n - 1);
    }
  }

  /** Links and start determine the chain: the walk meets NIL after exactly
      |chain| steps and not before, whichever witness is chosen. */
  lemma ChainIsUnique(links: seq<Link>, c: seq<int>, d: seq<int>)
    requires IsChain(links, c) && IsChain(links, d) && At(c, 0) == At(d, 0)
    ensures c == d
  {
    var m := if |c| <= |d| then |c| else |d|;
    forall k | 0 <= k <= m ensures At(c, k) == At(d, k) {
      ChainIsWalk(links, c, 0, k);
      ChainIsWalk(links, d, 0, k);
    }
    assert At(c, m) == At(d, m);
    forall k | 0 <= k < m ensures c[k] == d[k] {
      assert At(c, k) == At(d, k);
    }
  }
}
