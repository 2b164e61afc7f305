/**
 Pool slots in key order, oldest first among equal keys: the order that
 TimerSchedule keeps by expiry time and TaskNew by priority, each by walking the
 list to the first strictly greater key.
 */
module PriorityList {
  import opened DoubleLink
  import opened Pool

  /** A listed slot. `stamp` numbers insertions in the order they were made; no code
      reads it. */
  datatype Node<T> = Node(slot: int, stamp: nat, key: int, item: T)

  predicate Precedes<T>(a: Node<T>, b: Node<T>) {
    a.key < b.key || (a.key == b.key && a.stamp < b.stamp)
  }

  /** How two listed slots stand when `a` is the nearer to the head. */
  predicate Ahead<T>(a: Node<T>, b: Node<T>) {
    Precedes(a, b) && a.slot != b.slot
  }

  predicate Admissible<T>(e: Node<T>, stamp: nat, max: nat) {
    0 <= e.slot < max && e.stamp < stamp
  }

  /** Distinct slots of a pool of `max`, strictly ordered by key and then by age. */
  ghost predicate IsOrdered<T>(q: seq<Node<T>>, stamp: nat, max: nat) {
    && (forall k :: 0 <= k < |q| ==> Admissible(q[k], stamp, max))
    && (forall j, k :: 0 <= j < k < |q| ==> Ahead(q[j], q[k]))
  }

  function Slots<T>(q: seq<Node<T>>): (r: seq<int>)
    ensures |r| == |q|
    ensures forall k :: 0 <= k < |q| ==> r[k] == q[k].slot
  {
    seq(|q|, k requires 0 <= k < |q| => q[k].slot)
  }

  predicate Used<T>(q: seq<Node<T>>, slot: int) {
    slot in Slots(q)
  }

  /** The first position with a strictly greater key. */
  function Position<T>(q: seq<Node<T>>, key: int): (p: nat)
    ensures p <= |q|
    ensures forall k :: 0 <= k < p ==> q[k].key <= key
    ensures p < |q| ==> key < q[p].key
  {
    if q == [] || key < q[0].key then 0 else 1 + Position(q[1..], key)
  }

  /** The lowest free pool slot at or after `i`, or `max`. */
  function FreeSlot<T>(q: seq<Node<T>>, i: nat, max: nat): (f: nat)
    requires i <= max
    ensures i <= f <= max
    ensures forall j :: i <= j < f ==> Used(q, j)
    ensures f < max ==> !Used(q, f)
    decreases max - i
  {
    if i == max || !Used(q, i) then i else FreeSlot(q, i + 1, max)
  }

  /** The position of `slot`, or |q| if it is not listed. */
  function IndexOf<T>(q: seq<Node<T>>, slot: int): (p: nat)
    ensures p <= |q|
    ensures p < |q| ==> q[p].slot == slot
    ensures forall k :: 0 <= k < p ==> q[k].slot != slot
  {
    if q == [] || q[0].slot == slot then 0 else 1 + IndexOf(q[1..], slot)
  }

  function Without<T>(q: seq<T>, p: nat): seq<T> {
    if p < |q| then Deleted(q, p) else q
  }

  /** No slot is free exactly when as many are listed as the pool has. */
  lemma FreeSlotExists<T>(q: seq<Node<T>>, stamp: nat, max: nat)
    requires IsOrdered(q, stamp, max)
    ensures FreeSlot(q, 0, max) == max <==> |q| == max
    ensures |q| <= max
  {
    var slots := Slots(q);
    forall k | 0 <= k < |slots| ensures 0 <= slots[k] < max {
      assert Admissible(q[k], stamp, max);
    }
    assert Distinct(slots) by {
      assert forall j, k :: 0 <= j < k < |slots| ==> Ahead(q[j], q[k]);
    }
    Pigeonhole(slots, max);
    assert forall i :: Used(q, i) <==> i in slots;
  }

  /** Inserting a node that everything ahead of it precedes, and that precedes
      everything behind it, keeps the order. */
  lemma InsertKeepsOrder<T>(q: seq<Node<T>>, stamp: nat, max: nat, e: Node<T>, p: nat)
    requires IsOrdered(q, stamp, max) && p <= |q|
    requires e.stamp == stamp && Admissible(e, stamp + 1, max)
    requires forall k :: 0 <= k < p ==> Ahead(q[k], e)
    requires forall k :: p <= k < |q| ==> Ahead(e, q[k])
    ensures IsOrdered(Inserted(q, p, e), stamp + 1, max)
  {
  }

  lemma PositionIsOrdered<T>(q: seq<Node<T>>, stamp: nat, max: nat, e: Node<T>)
    requires IsOrdered(q, stamp, max) && e.stamp == stamp && !Used(q, e.slot)
    ensures forall k :: 0 <= k < Position(q, e.key) ==> Ahead(q[k], e)
    ensures forall k :: Position(q, e.key) <= k < |q| ==> Ahead(e, q[k])
  {
    var p := Position(q, e.key);
    forall k | 0 <= k < |q|
      ensures if k < p then Ahead(q[k], e) else Ahead(e, q[k])
    {
      assert Slots(q)[k] == q[k].slot;
      assert Admissible(q[k], stamp, max);
      assert p < k ==> Ahead(q[p], q[k]);
    }
  }

  lemma NewKeepsOrder<T>(q: seq<Node<T>>, stamp: nat, max: nat, e: Node<T>)
    requires IsOrdered(q, stamp, max) && e.stamp == stamp && 0 <= e.slot < max && !Used(q, e.slot)
    ensures IsOrdered(Inserted(q, Position(q, e.key), e), stamp + 1, max)
  {
    PositionIsOrdered(q, stamp, max, e);
    InsertKeepsOrder(q, stamp, max, e, Position(q, e.key));
  }

  lemma DeleteKeepsOrder<T>(q: seq<Node<T>>, stamp: nat, max: nat, p: nat)
    requires IsOrdered(q, stamp, max)
    ensures IsOrdered(Without(q, p), stamp, max)
  {
  }

  lemma SlotIndex<T>(q: seq<Node<T>>, stamp: nat, max: nat, k: nat)
    requires IsOrdered(q, stamp, max) && k < |q|
    ensures IndexOf(q, q[k].slot) == k
  {
  }

  lemma PositionIs<T>(q: seq<Node<T>>, key: int, p: nat)
    requires p <= |q|
    requires forall k :: 0 <= k < p ==> q[k].key <= key
    requires p < |q| ==> key < q[p].key
    ensures Position(q, key) == p
  {
  }

  // ----- linking a node in, the way both search loops end

  /** `e` has been linked in at its position, and `start` follows the list. */
  ghost predicate IsThreaded<T>(links: seq<Link>, after: seq<Link>, start: int, q: seq<Node<T>>, e: Node<T>) {
    var p := Position(q, e.key);
    && IsSpliced(links, after, Slots(q), p, e.slot)
    && start == if p == 0 then e.slot else q[0].slot
  }

  lemma ThreadBefore<T>(links: seq<Link>, q: seq<Node<T>>, e: Node<T>, k: nat)
    requires k < |q| && IsChain(links, Slots(q)) && 0 <= e.slot < |links| && e.slot !in Slots(q)
    requires forall j :: 0 <= j < k ==> q[j].key <= e.key
    requires e.key < q[k].key
    ensures NIL <= links[q[k].slot].previous < |links|
    ensures IsThreaded(links, LinkedBefore(links, e.slot, q[k].slot), if k == 0 then e.slot else q[0].slot, q, e)
  {
    PositionIs(q, e.key, k);
    InsertBeforeKeepsChain(links, Slots(q), k, e.slot);
  }

  lemma ThreadAfter<T>(links: seq<Link>, q: seq<Node<T>>, e: Node<T>, k: nat)
    requires k + 1 == |q| && IsChain(links, Slots(q)) && 0 <= e.slot < |links| && e.slot !in Slots(q)
    requires forall j :: 0 <= j <= k ==> q[j].key <= e.key
    ensures NIL <= links[q[k].slot].next < |links|
    ensures IsThreaded(links, LinkedAfter(links, e.slot, q[k].slot), q[0].slot, q, e)
  {
    PositionIs(q, e.key, k + 1);
    InsertAfterKeepsChain(links, Slots(q), k, e.slot);
  }

  lemma ThreadedIsChain<T>(links: seq<Link>, after: seq<Link>, start: int, q: seq<Node<T>>, e: Node<T>)
    requires IsChain(links, Slots(q)) && 0 <= e.slot < |links| && e.slot !in Slots(q)
    requires IsThreaded(links, after, start, q, e)
    ensures IsChain(after, Slots(Inserted(q, Position(q, e.key), e)))
    ensures start == At(Slots(Inserted(q, Position(q, e.key), e)), 0)
  {
    var p := Position(q, e.key);
    assert Slots(Inserted(q, p, e)) == Inserted(Slots(q), p, e.slot);
    SplicedIsChain(links, after, Slots(q), p, e.slot);
  }

  // ----- what the rest of the pool holds

  /** Every listed slot holds its node's record. */
  ghost predicate Holds<T, R>(records: seq<R>, q: seq<Node<T>>, record: Node<T> -> R) {
    forall k :: 0 <= k < |q| ==> 0 <= q[k].slot < |records| && records[q[k].slot] == record(q[k])
  }

  lemma ThreadedHolds<T, R>(records: seq<R>, q: seq<Node<T>>, record: Node<T> -> R, e: Node<T>, p: nat)
    requires p <= |q| && 0 <= e.slot < |records| && e.slot !in Slots(q) && Holds(records, q, record)
    ensures Holds(records[e.slot := record(e)], Inserted(q, p, e), record)
  {
  }

  lemma DeletedHolds<T, R>(records: seq<R>, q: seq<Node<T>>, record: Node<T> -> R, p: nat, cleared: R)
    requires p < |q| && Holds(records, q, record)
    requires forall k :: 0 <= k < |q| && k != p ==> q[k].slot != q[p].slot
    ensures Holds(records[q[p].slot := cleared], Deleted(q, p), record)
  {
  }

  lemma UsedAfterInsert<T>(q: seq<Node<T>>, p: nat, e: Node<T>, i: int)
    requires p <= |q|
    ensures Used(Inserted(q, p, e), i) <==> Used(q, i) || i == e.slot
  {
    assert Slots(Inserted(q, p, e)) == Inserted(Slots(q), p, e.slot);
    var chain := Slots(q);
    assert chain == chain[..p] + chain[p..];
  }

  lemma UsedAfterDelete<T>(q: seq<Node<T>>, p: nat, i: int)
    requires p < |q|
    requires forall k :: 0 <= k < |q| && k != p ==> q[k].slot != q[p].slot
    ensures Used(Deleted(q, p), i) <==> Used(q, i) && i != q[p].slot
  {
    var chain := Slots(q);
    assert Slots(Deleted(q, p)) == Deleted(chain, p);
    assert chain == chain[..p] + [chain[p]] + chain[p + 1..];
  }

  lemma StaysOnInsert<T>(q: seq<T>, p: nat, e: T, k: nat)
    requires p <= |q| && k < |q|
    ensures q[k] in Inserted(q, p, e)
  {
    assert Inserted(q, p, e)[if k < p then k else k + 1] == q[k];
  }

  lemma StaysWithout<T>(q: seq<T>, p: nat, k: nat)
    requires k < |q| && k != p
    ensures q[k] in Without(q, p)
  {
    if p < |q| {
      assert Deleted(q, p)[if k < p then k else k - 1] == q[k];
    }
  }

  /** A slot just taken out is the next to be given out if and only if all lower ones
      are listed. */
  lemma FreedSlotIsNextIff<T>(q: seq<Node<T>>, stamp: nat, max: nat, p: nat)
    requires IsOrdered(q, stamp, max) && p < |q|
    ensures var slot, f := q[p].slot, FreeSlot(Deleted(q, p), 0, max);
            && !Used(Deleted(q, p), slot) && f <= slot < max
            && (f == slot <==> forall i :: 0 <= i < slot ==> Used(q, i))
  {
    var r, slot := Deleted(q, p), q[p].slot;
    assert Admissible(q[p], stamp, max);
    SlotsDiffer(q, stamp, max, p);
    forall i: int ensures Used(r, i) <==> Used(q, i) && i != slot {
      UsedAfterDelete(q, p, i);
    }
  }

  lemma SlotsDiffer<T>(q: seq<Node<T>>, stamp: nat, max: nat, p: nat)
    requires IsOrdered(q, stamp, max) && p < |q|
    ensures forall k :: 0 <= k < |q| && k != p ==> q[k].slot != q[p].slot
  {
    forall k | 0 <= k < |q| && k != p ensures q[k].slot != q[p].slot {
      assert k < p ==> Ahead(q[k], q[p]);
      assert p < k ==> Ahead(q[p], q[k]);
    }
  }
}
