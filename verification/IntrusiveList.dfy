/** The intrusive circular doubly linked list: a ring of nodes through a sentinel. */
module IntrusiveList {
  import opened Arith

  class ListNode {
    var prev: ListNode?
    var next: ListNode?

    constructor ()
      ensures prev == null && next == null
    {
      prev, next := null, null;
    }
  }

  /** Once around: the sentinel, the items and the sentinel again. */
  ghost function Cycle(list: ListNode, items: seq<ListNode>): (c: seq<ListNode>)
    ensures |c| == |items| + 2
  {
    [list] + items + [list]
  }

  /** No node occurs twice on the way round. */
  ghost predicate Distinct(c: seq<ListNode>) {
    forall i, j :: 0 <= i < j < |c| - 1 ==> c[i] != c[j]
  }

  /** Successive nodes point at each other. */
  ghost predicate Linked(c: seq<ListNode>)
    reads c
  {
    && (forall i {:trigger c[i].next} :: 0 <= i < |c| - 1 ==> c[i].next == c[i + 1])
    && (forall i {:trigger c[i].prev} :: 1 <= i < |c| ==> c[i].prev == c[i - 1])
  }

  /** The heap links exactly these items, in this order, into a ring with the sentinel. */
  ghost predicate Ring(list: ListNode, items: seq<ListNode>)
    reads list, items
  {
    Distinct(Cycle(list, items)) && Linked(Cycle(list, items))
  }

  ghost function Insert(items: seq<ListNode>, k: nat, item: ListNode): seq<ListNode>
    requires k <= |items|
  {
    items[..k] + [item] + items[k..]
  }

  ghost function Without(items: seq<ListNode>, k: nat): seq<ListNode>
    requires k < |items|
  {
    items[..k] + items[k + 1..]
  }

  method ListInitialize(list: ListNode)
    modifies list
    ensures Ring(list, [])
  {
    list.prev, list.next := list, list;
  }

  predicate ListInList(item: ListNode)
    reads item
  {
    !(item.prev == null && item.next == null)
  }

  /** Leaving out the first stop instead of the last, the nodes are distinct as well. */
  lemma {:induction false} DistinctTail(list: ListNode, items: seq<ListNode>)
    requires Distinct(Cycle(list, items))
    ensures forall i, j :: 1 <= i < j < |items| + 2 ==> Cycle(list, items)[i] != Cycle(list, items)[j]
  {
    var c := Cycle(list, items);
    assert c[0] == c[|c| - 1];
  }

  lemma {:induction false} InsertCycle(head: ListNode, items: seq<ListNode>, k: nat, item: ListNode)
    requires k <= |items|
    ensures var c, c' := Cycle(head, items), Cycle(head, Insert(items, k, item));
            forall i :: 0 <= i < |c'| ==> c'[i] == if i <= k then c[i] else if i == k + 1 then item else c[i - 1]
  {
  }

  lemma {:induction false} InsertDistinct(head: ListNode, items: seq<ListNode>, k: nat, item: ListNode)
    requires k <= |items| && item != head && item !in items && Distinct(Cycle(head, items))
    ensures Distinct(Cycle(head, Insert(items, k, item)))
  {
    InsertCycle(head, items, k, item);
    var c, c' := Cycle(head, items), Cycle(head, Insert(items, k, item));
    assert item !in c;
    forall i, j | 0 <= i < j < |c'| - 1
      ensures c'[i] != c'[j]
    {
      var i', j' := if i <= k then i else i - 1, if j <= k then j else j - 1;
      assert i == k + 1 || c'[i] == c[i'];
      assert j == k + 1 || c'[j] == c[j'];
    }
  }

  lemma {:induction false} WithoutCycle(head: ListNode, items: seq<ListNode>, k: nat)
    requires k < |items|
    ensures var c, c' := Cycle(head, items), Cycle(head, Without(items, k));
            forall i :: 0 <= i < |c'| ==> c'[i] == if i <= k then c[i] else c[i + 1]
  {
  }

  lemma {:induction false} WithoutDistinct(head: ListNode, items: seq<ListNode>, k: nat)
    requires k < |items| && Distinct(Cycle(head, items))
    ensures Distinct(Cycle(head, Without(items, k)))
  {
    WithoutCycle(head, items, k);
    var c, c' := Cycle(head, items), Cycle(head, Without(items, k));
    forall i, j | 0 <= i < j < |c'| - 1
      ensures c'[i] != c'[j]
    {
      var i', j' := if i <= k then i else i + 1, if j <= k then j else j + 1;
      assert c'[i] == c[i'] && c'[j] == c[j'];
    }
  }

  /** Inserts behind any node of the ring; the sentinel is node 0. */
  method ListAddHead(list: ListNode, item: ListNode, ghost head: ListNode, ghost items: seq<ListNode>, ghost k: nat)
    requires Ring(head, items) && k <= |items| && list == Cycle(head, items)[k]
    requires item != head && item !in items
    modifies list, list.next, item
    ensures Ring(head, Insert(items, k, item))
  {
    ghost var c, c' := Cycle(head, items), Cycle(head, Insert(items, k, item));
    DistinctTail(head, items);
    InsertCycle(head, items, k, item);
    InsertDistinct(head, items, k, item);
    assert c[k].next == c[k + 1] && item !in c;
    item.next := list.next;
    item.prev := list;
    list.next.prev := item;
    list.next := item;
    forall i | 0 <= i < |c'| - 1
      ensures c'[i].next == c'[i + 1]
    {
      if i < k {
        assert c[i] != c[k] && old(c[i].next) == c[i + 1];
      } else if i > k + 1 {
        assert c[i - 1] != c[k] && old(c[i - 1].next) == c[i];
      }
    }
    forall i | 1 <= i < |c'|
      ensures c'[i].prev == c'[i - 1]
    {
      if i <= k {
        assert c[i] != c[k + 1] && old(c[i].prev) == c[i - 1];
      } else if i > k + 2 {
        assert c[i - 1] != c[k + 1] && old(c[i - 1].prev) == c[i - 2];
      }
    }
  }

  /** Inserts before any node of the ring; the sentinel is node |items| + 1. */
  method ListAddTail(list: ListNode, item: ListNode, ghost head: ListNode, ghost items: seq<ListNode>, ghost k: nat)
    requires Ring(head, items) && k <= |items| && list == Cycle(head, items)[k + 1]
    requires item != head && item !in items
    modifies list, list.prev, item
    ensures Ring(head, Insert(items, k, item))
  {
    ghost var c, c' := Cycle(head, items), Cycle(head, Insert(items, k, item));
    DistinctTail(head, items);
    InsertCycle(head, items, k, item);
    InsertDistinct(head, items, k, item);
    assert c[k + 1].prev == c[k] && item !in c;
    item.prev := list.prev;
    item.next := list;
    list.prev.next := item;
    list.prev := item;
    forall i | 0 <= i < |c'| - 1
      ensures c'[i].next == c'[i + 1]
    {
      if i < k {
        assert c[i] != c[k] && old(c[i].next) == c[i + 1];
      } else if i > k + 1 {
        assert c[i - 1] != c[k] && old(c[i - 1].next) == c[i];
      }
    }
    forall i | 1 <= i < |c'|
      ensures c'[i].prev == c'[i - 1]
    {
      if i <= k {
        assert c[i] != c[k + 1] && old(c[i].prev) == c[i - 1];
      } else if i > k + 2 {
        assert c[i - 1] != c[k + 1] && old(c[i - 1].prev) == c[i - 2];
      }
    }
  }

  method ListDelete(item: ListNode, ghost head: ListNode, ghost items: seq<ListNode>, ghost k: nat)
    requires Ring(head, items) && k < |items| && item == items[k]
    modifies item, item.prev, item.next
    ensures Ring(head, Without(items, k))
    ensures item.prev == null && item.next == null
  {
    ghost var c, c' := Cycle(head, items), Cycle(head, Without(items, k));
    DistinctTail(head, items);
    WithoutCycle(head, items, k);
    WithoutDistinct(head, items, k);
    assert c[k + 1] == item;
    assert c[k + 1].next == c[k + 2] && c[k + 1].prev == c[k];
    item.next.prev := item.prev;
    item.prev.next := item.next;
    item.prev, item.next := null, null;
    forall i | 0 <= i < |c'| - 1
      ensures c'[i].next == c'[i + 1]
    {
      if i < k {
        assert c[i] != c[k] && c[i] != c[k + 1] && old(c[i].next) == c[i + 1];
      } else if i > k {
        assert c[i + 1] != c[k] && c[i + 1] != c[k + 1] && old(c[i + 1].next) == c[i + 2];
      }
    }
    forall i | 1 <= i < |c'|
      ensures c'[i].prev == c'[i - 1]
    {
      if i <= k {
        assert c[i] != c[k + 2] && c[i] != c[k + 1] && old(c[i].prev) == c[i - 1];
      } else if i > k + 1 {
        assert c[i + 1] != c[k + 2] && c[i + 1] != c[k + 1] && old(c[i + 1].prev) == c[i];
      }
    }
  }

  lemma {:induction false} SentinelApart(list: ListNode, items: seq<ListNode>)
    requires Ring(list, items)
    ensures list !in items
    ensures forall i, j :: 0 <= i < j < |items| ==> items[i] != items[j]
  {
    CycleApart(list, items);
  }

  lemma {:induction false} CycleApart(list: ListNode, items: seq<ListNode>)
    requires Distinct(Cycle(list, items))
    ensures list !in items
    ensures forall i, j :: 0 <= i < j < |items| ==> items[i] != items[j]
  {
    var c := Cycle(list, items);
    assert forall i :: 0 <= i < |items| ==> items[i] == c[i + 1];
    forall i | 0 <= i < |items|
      ensures items[i] != list
    {
      assert c[0] != c[i + 1];
    }
  }

  ghost function FirstTwo(items: seq<ListNode>): seq<ListNode> {
    if |items| <= 2 then items else items[..2]
  }

  ghost function LastTwo(items: seq<ListNode>): seq<ListNode> {
    if |items| <= 2 then items else items[|items| - 2..]
  }

  method ListRemoveHead(list: ListNode, ghost items: seq<ListNode>) returns (item: ListNode?)
    requires Ring(list, items)
    modifies list, FirstTwo(items)
    ensures items == [] ==> item == null && Ring(list, [])
    ensures items != [] ==> item == items[0] && item.prev == null && item.next == null && Ring(list, items[1..])
  {
    ghost var c := Cycle(list, items);
    assert c[0].next == c[1];
    SentinelApart(list, items);
    if list.next == list {
      return null;
    }
    item := list.next;
    assert c[1].next == c[2] && c[1].prev == c[0];
    ListDelete(item, list, items, 0);
    assert Without(items, 0) == items[1..];
  }

  method ListRemoveTail(list: ListNode, ghost items: seq<ListNode>) returns (item: ListNode?)
    requires Ring(list, items)
    modifies list, LastTwo(items)
    ensures items == [] ==> item == null && Ring(list, [])
    ensures items != [] ==>
      item == items[|items| - 1] && item.prev == null && item.next == null && Ring(list, items[..|items| - 1])
  {
    ghost var c, n := Cycle(list, items), |items|;
    assert c[n + 1].prev == c[n];
    SentinelApart(list, items);
    if list.prev == list {
      return null;
    }
    item := list.prev;
    assert c[n].next == c[n + 1] && c[n].prev == c[n - 1];
    ListDelete(item, list, items, n - 1);
    assert Without(items, n - 1) == items[..n - 1];
  }

  function ListPeekHead(list: ListNode): ListNode?
    reads list
  {
    if list.next != list then list.next else null
  }

  function ListPeekTail(list: ListNode): ListNode?
    reads list
  {
    if list.prev != list then list.prev else null
  }

  predicate ListIsEmpty(list: ListNode)
    reads list
  {
    list.next == list
  }

  function ListPrev(list: ListNode, item: ListNode): ListNode?
    reads item
  {
    if item.prev != list then item.prev else null
  }

  function ListNext(list: ListNode, item: ListNode): ListNode?
    reads item
  {
    if item.next != list then item.next else null
  }

  function ListPrevWrap(list: ListNode, item: ListNode): ListNode?
    requires item.prev != null
    reads item, item.prev
  {
    if item.prev != list then item.prev
    else if item.prev.prev != list then item.prev.prev
    else null
  }

  function ListNextWrap(list: ListNode, item: ListNode): ListNode?
    requires item.next != null
    reads item, item.next
  {
    if item.next != list then item.next
    else if item.next.next != list then item.next.next
    else null
  }

  /** What the two ends of the ring show. */
  lemma {:induction false} EndsSeen(list: ListNode, items: seq<ListNode>)
    requires Ring(list, items)
    ensures ListIsEmpty(list) <==> items == []
    ensures ListPeekHead(list) == if items == [] then null else items[0]
    ensures ListPeekTail(list) == if items == [] then null else items[|items| - 1]
  {
    var c, n := Cycle(list, items), |items|;
    assert c[0].next == c[1] && c[n + 1].prev == c[n];
    if items != [] {
      assert c[0] != c[1] && c[0] != c[n];
    }
  }

  /** Neighbours of a linked item, with NULL at the ends. */
  lemma {:induction false} NeighboursSeen(list: ListNode, items: seq<ListNode>, i: nat)
    requires Ring(list, items) && i < |items|
    ensures ListNext(list, items[i]) == if i + 1 < |items| then items[i + 1] else null
    ensures ListPrev(list, items[i]) == if i > 0 then items[i - 1] else null
  {
    var c := Cycle(list, items);
    assert c[i + 1] == items[i] && c[i + 1].next == c[i + 2] && c[i + 1].prev == c[i];
    if i + 1 < |items| {
      assert c[0] != c[i + 2];
    }
    if i > 0 {
      assert c[0] != c[i];
    }
  }

  /** The wrapping neighbours go round the items, skipping the sentinel; they never are NULL. */
  lemma {:induction false} WrapSeen(list: ListNode, items: seq<ListNode>, i: nat)
    requires Ring(list, items) && i < |items|
    ensures items[i].next != null && items[i].prev != null
    ensures ListNextWrap(list, items[i]) == items[if i + 1 < |items| then i + 1 else 0]
    ensures ListPrevWrap(list, items[i]) == items[if i > 0 then i - 1 else |items| - 1]
  {
    var c, n := Cycle(list, items), |items|;
    assert c[i + 1] == items[i] && c[i + 1].next == c[i + 2] && c[i + 1].prev == c[i];
    assert c[0].next == c[1] && c[n + 1].prev == c[n] && c[0] != c[1] && c[0] != c[n];
    if i + 1 < n {
      assert c[0] != c[i + 2];
    }
    if i > 0 {
      assert c[0] != c[i];
    }
  }

  /** k applications of list_next_wrap. */
  ghost function NextWrapSteps(list: ListNode, items: seq<ListNode>, i: nat, k: nat): (node: ListNode)
    requires Ring(list, items) && i < |items|
    reads list, items
    ensures node == items[(i + k) % |items|]
  {
    if k == 0 then
      DivModUnique(i, |items|, 0, i);
      items[i]
    else
      var before := NextWrapSteps(list, items, i, k - 1);
      NextWrapOnce(list, items, i + k - 1);
      ListNextWrap(list, before)
  }

  lemma {:induction false} NextWrapOnce(list: ListNode, items: seq<ListNode>, m: nat)
    requires Ring(list, items) && items != []
    ensures items[m % |items|].next != null
    ensures ListNextWrap(list, items[m % |items|]) == items[(m + 1) % |items|]
  {
    WrapSeen(list, items, m % |items|);
    ModStep(m, |items|);
  }

  lemma {:induction false} ModStep(m: nat, n: nat)
    requires n > 0
    ensures (m + 1) % n == if m % n + 1 < n then m % n + 1 else 0
  {
    var q, r := m / n, m % n;
    if r + 1 < n {
      DivModUnique(m + 1, n, q, r + 1);
    } else {
      assert n * (q + 1) == n * q + n;
      DivModUnique(m + 1, n, q + 1, 0);
    }
  }

  /** The two wrapping neighbours undo each other. */
  lemma {:induction false} WrapInverse(list: ListNode, items: seq<ListNode>, i: nat)
    requires Ring(list, items) && i < |items|
    ensures var next := items[if i + 1 < |items| then i + 1 else 0];
            items[i].next != null && ListNextWrap(list, items[i]) == next
            && next.prev != null && ListPrevWrap(list, next) == items[i]
  {
    WrapSeen(list, items, i);
    WrapSeen(list, items, if i + 1 < |items| then i + 1 else 0);
  }

  /** The item at a position, the sentinel behind the last. */
  ghost function At(list: ListNode, items: seq<ListNode>, i: nat): ListNode {
    if i < |items| then items[i] else list
  }

  /** Following next from the sentinel (k == 0) or from item k - 1. */
  lemma {:induction false} NextAt(list: ListNode, items: seq<ListNode>, k: nat)
    requires Ring(list, items) && k <= |items|
    ensures (if k == 0 then list else items[k - 1]).next == At(list, items, k)
  {
    var c := Cycle(list, items);
    assert c[k].next == c[k + 1];
  }

  /** Following prev from item k, or from the sentinel behind the last one. */
  lemma {:induction false} PrevAt(list: ListNode, items: seq<ListNode>, k: nat)
    requires Ring(list, items) && k <= |items|
    ensures At(list, items, k).prev == if k == 0 then list else items[k - 1]
  {
    var c := Cycle(list, items);
    assert c[k + 1].prev == c[k];
  }

  /** The items the loop body keeps, in order. */
  ghost function Kept(items: seq<ListNode>, drop: ListNode -> bool): seq<ListNode> {
    if items == [] then []
    else
      var front, last := items[..|items| - 1], items[|items| - 1];
      if drop(last) then Kept(front, drop) else Kept(front, drop) + [last]
  }

  lemma {:induction false} KeptExactly(items: seq<ListNode>, drop: ListNode -> bool)
    ensures forall n :: n in Kept(items, drop) ==> n in items && !drop(n)
    ensures forall n :: n in items && !drop(n) ==> n in Kept(items, drop)
  {
    if items != [] {
      KeptExactly(items[..|items| - 1], drop);
      assert items == items[..|items| - 1] + [items[|items| - 1]];
    }
  }

  /** The items linked before the i-th visit: those kept so far and those still to come. */
  ghost function Remaining(items: seq<ListNode>, drop: ListNode -> bool, i: nat): seq<ListNode>
    requires i <= |items|
  {
    Kept(items[..i], drop) + items[i..]
  }

  /** Those of the first i items that the body chose are unlinked. */
  ghost predicate Cleared(items: seq<ListNode>, drop: ListNode -> bool, i: nat)
    requires i <= |items|
    reads items
  {
    forall j :: 0 <= j < i && drop(items[j]) ==> items[j].prev == null && items[j].next == null
  }

  /** One visit takes the current node out of what remains, or leaves all of it. */
  lemma {:induction false} RemainingStep(items: seq<ListNode>, drop: ListNode -> bool, i: nat)
    requires i < |items|
    ensures var now, k := Remaining(items, drop, i), |Kept(items[..i], drop)|;
            && k < |now| && now[k] == items[i]
            && (k + 1 < |now| <==> i + 1 < |items|)
            && (i + 1 < |items| ==> now[k + 1] == items[i + 1])
            && Remaining(items, drop, i + 1) == (if drop(items[i]) then Without(now, k) else now)
            && |Kept(items[..i + 1], drop)| == (if drop(items[i]) then k else k + 1)
  {
    assert items[..i + 1][..i] == items[..i];
    assert items[i..] == [items[i]] + items[i + 1..];
  }

  lemma {:induction false} RemainingInside(list: ListNode, items: seq<ListNode>, drop: ListNode -> bool, i: nat)
    requires i <= |items| && Distinct(Cycle(list, items))
    ensures forall n :: n in Remaining(items, drop, i) ==> n in items
    ensures forall j :: 0 <= j < i && drop(items[j]) ==> items[j] !in Remaining(items, drop, i) + [list]
  {
    CycleApart(list, items);
    KeptExactly(items[..i], drop);
    var rest := items[i..];
    forall j | 0 <= j < i && drop(items[j])
      ensures items[j] !in rest
    {
      assert forall k :: 0 <= k < |rest| ==> rest[k] == items[i + k];
    }
  }

  lemma {:induction false} RemainingEnds(items: seq<ListNode>, drop: ListNode -> bool)
    ensures Remaining(items, drop, 0) == items
    ensures Remaining(items, drop, |items|) == Kept(items, drop) && items[..|items|] == items
  {
    assert items[..|items|] == items && items[..0] == [];
  }

  lemma {:induction false} TakeStep(items: seq<ListNode>, i: nat)
    requires i < |items|
    ensures items[..i + 1] == items[..i] + [items[i]]
  {
  }

  /** The body of the loop: deletes the current node, or leaves it. */
  method VisitNode(node: ListNode, drop: ListNode -> bool,
                   ghost list: ListNode, ghost items: seq<ListNode>, ghost i: nat)
    requires i < |items| && node == items[i] && Distinct(Cycle(list, items))
    requires Ring(list, Remaining(items, drop, i)) && Cleared(items, drop, i)
    modifies list, items
    ensures Ring(list, Remaining(items, drop, i + 1)) && Cleared(items, drop, i + 1)
  {
    ghost var now, k := Remaining(items, drop, i), |Kept(items[..i], drop)|;
    RemainingStep(items, drop, i);
    RemainingInside(list, items, drop, i);
    if drop(node) {
      DropNode(node, list, items, now, k, set j | 0 <= j < i && drop(items[j]) :: items[j]);
    }
  }

  /** Deletes a node still linked; those deleted before stay cleared. */
  method DropNode(node: ListNode, ghost list: ListNode, ghost items: seq<ListNode>,
                  ghost now: seq<ListNode>, ghost k: nat, ghost gone: set<ListNode>)
    requires Ring(list, now) && k < |now| && node == now[k]
    requires forall n :: n in now ==> n in items
    requires forall n :: n in gone ==> n !in now && n != list && n.prev == null && n.next == null
    modifies list, items
    ensures Ring(list, Without(now, k)) && node.prev == null && node.next == null
    ensures forall n :: n in gone ==> n.prev == null && n.next == null
  {
    NextAt(list, now, k + 1);
    PrevAt(list, now, k);
    assert k + 1 < |now| ==> now[k + 1] in now;
    assert k > 0 ==> now[k - 1] in now;
    assert node in now && node.next == At(list, now, k + 1);
    ListDelete(node, list, now, k);
  }

  /** Following next from the node the traversal stands at, the sentinel at the end included. */
  lemma {:induction false} NextRemaining(list: ListNode, items: seq<ListNode>, drop: ListNode -> bool, i: nat)
    requires i <= |items| && Ring(list, Remaining(items, drop, i))
    ensures At(list, items, i).next != null
    ensures i < |items| ==> At(list, items, i).next == At(list, items, i + 1)
  {
    if i < |items| {
      RemainingStep(items, drop, i);
      NextAt(list, Remaining(items, drop, i), |Kept(items[..i], drop)| + 1);
    } else {
      NextAt(list, Remaining(items, drop, i), 0);
    }
  }

  lemma {:induction false} AtSentinel(list: ListNode, items: seq<ListNode>, i: nat)
    requires Distinct(Cycle(list, items)) && i <= |items| && At(list, items, i) == list
    ensures i == |items|
  {
    CycleApart(list, items);
  }

  /**
   * list_for_every_safe with a body that deletes the current node when it chooses to. It visits
   * every node once and leaves the kept nodes linked in order and the deleted ones cleared.
   */
  method ListForEverySafe(list: ListNode, drop: ListNode -> bool, ghost items: seq<ListNode>)
    returns (visited: seq<ListNode>)
    requires Ring(list, items)
    modifies list, items
    ensures visited == items
    ensures Ring(list, Kept(items, drop))
    ensures forall n :: n in items && drop(n) ==> n.prev == null && n.next == null
  {
    visited := [];
    NextAt(list, items, 0);
    var node: ListNode := list.next;
    NextAt(list, items, if items == [] then 0 else 1);
    var temp: ListNode := node.next;
    ghost var i := 0;
    RemainingEnds(items, drop);
    while node != list
      invariant 0 <= i <= |items| && visited == items[..i]
      invariant Ring(list, Remaining(items, drop, i)) && Cleared(items, drop, i)
      invariant node == At(list, items, i)
      invariant i < |items| ==> temp == At(list, items, i + 1)
      decreases |items| - i
    {
      VisitNode(node, drop, list, items, i);
      TakeStep(items, i);
      visited := visited + [node];
      i := i + 1;
      node := temp;
      NextRemaining(list, items, drop, i);
      temp := node.next;
    }
    AtSentinel(list, items, i);
  }
}
