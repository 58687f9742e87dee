/** Whole runs of list operations against a plain sequence. */
module ListRuns {
  import opened IntrusiveList

  datatype Op =
    | AddHead(item: ListNode)
    | AddTail(item: ListNode)
    | AddAfter(entry: ListNode, item: ListNode)
    | AddBefore(entry: ListNode, item: ListNode)
    | Delete(item: ListNode)
    | RemoveHead
    | RemoveTail

  ghost function IndexOf(items: seq<ListNode>, x: ListNode): (k: nat)
    requires x in items
    ensures k < |items| && items[k] == x
  {
    if items[0] == x then 0 else 1 + IndexOf(items[1..], x)
  }

  /** What callers must respect: new items are unlinked nodes of the pool, entries are linked. */
  ghost predicate Legal(list: ListNode, items: seq<ListNode>, pool: set<ListNode>, op: Op) {
    match op
    case AddHead(item) => item in pool && item !in items
    case AddTail(item) => item in pool && item !in items
    case AddAfter(entry, item) => item in pool && item !in items && (entry == list || entry in items)
    case AddBefore(entry, item) => item in pool && item !in items && (entry == list || entry in items)
    case Delete(item) => item in items
    case RemoveHead => true
    case RemoveTail => true
  }

  /** The same operation on a plain sequence. */
  ghost function Apply(list: ListNode, items: seq<ListNode>, pool: set<ListNode>, op: Op): seq<ListNode>
    requires Legal(list, items, pool, op)
  {
    match op
    case AddHead(item) => [item] + items
    case AddTail(item) => items + [item]
    case AddAfter(entry, item) =>
      if entry == list then [item] + items
      else items[..IndexOf(items, entry) + 1] + [item] + items[IndexOf(items, entry) + 1..]
    case AddBefore(entry, item) =>
      if entry == list then items + [item]
      else items[..IndexOf(items, entry)] + [item] + items[IndexOf(items, entry)..]
    case Delete(item) => items[..IndexOf(items, item)] + items[IndexOf(items, item) + 1..]
    case RemoveHead => if items == [] then [] else items[1..]
    case RemoveTail => if items == [] then [] else items[..|items| - 1]
  }

  /** What the operation returns: the removed item, or NULL. */
  ghost function Result(items: seq<ListNode>, op: Op): ListNode? {
    if op.RemoveHead? && items != [] then items[0]
    else if op.RemoveTail? && items != [] then items[|items| - 1]
    else null
  }

  /** Every pool node is either linked, in the given order, or cleared. */
  ghost predicate Tracked(list: ListNode, items: seq<ListNode>, pool: set<ListNode>)
    reads list, items, pool
  {
    && Ring(list, items)
    && list !in pool
    && (forall n :: n in items ==> n in pool)
    && (forall n :: n in pool && n !in items ==> n.prev == null && n.next == null)
  }

  /** list_in_list answers for every node exactly whether it is linked. */
  lemma {:induction false} InListExactly(list: ListNode, items: seq<ListNode>, pool: set<ListNode>, node: ListNode)
    requires Tracked(list, items, pool) && node in pool
    ensures ListInList(node) <==> node in items
  {
    if node in items {
      NextAt(list, items, IndexOf(items, node) + 1);
    }
  }

  method AddBehind(list: ListNode, entry: ListNode, item: ListNode,
                   ghost items: seq<ListNode>, ghost pool: set<ListNode>, ghost k: nat)
    requires Tracked(list, items, pool) && item in pool && item !in items
    requires k <= |items| && entry == (if k == 0 then list else items[k - 1])
    modifies list, pool
    ensures Tracked(list, Insert(items, k, item), pool)
  {
    NextAt(list, items, k);
    SentinelApart(list, items);
    ListAddHead(entry, item, list, items, k);
  }

  method AddInFront(list: ListNode, entry: ListNode, item: ListNode,
                    ghost items: seq<ListNode>, ghost pool: set<ListNode>, ghost k: nat)
    requires Tracked(list, items, pool) && item in pool && item !in items
    requires k <= |items| && entry == (if k == |items| then list else items[k])
    modifies list, pool
    ensures Tracked(list, Insert(items, k, item), pool)
  {
    PrevAt(list, items, k);
    SentinelApart(list, items);
    ListAddTail(entry, item, list, items, k);
  }

  method DeleteItem(list: ListNode, item: ListNode, ghost items: seq<ListNode>, ghost pool: set<ListNode>)
    requires Tracked(list, items, pool) && item in items
    modifies list, pool
    ensures Tracked(list, Without(items, IndexOf(items, item)), pool)
  {
    ghost var k := IndexOf(items, item);
    NextAt(list, items, k + 1);
    PrevAt(list, items, k);
    SentinelApart(list, items);
    ListDelete(item, list, items, k);
    assert forall n :: n in items ==> n == item || n in Without(items, k);
  }

  method RemoveFirst(list: ListNode, ghost items: seq<ListNode>, ghost pool: set<ListNode>)
    returns (result: ListNode?)
    requires Tracked(list, items, pool)
    modifies list, pool
    ensures Tracked(list, if items == [] then [] else items[1..], pool)
    ensures result == Result(items, RemoveHead)
  {
    result := ListRemoveHead(list, items);
    assert items != [] ==> forall n :: n in items ==> n == items[0] || n in items[1..];
  }

  method RemoveLast(list: ListNode, ghost items: seq<ListNode>, ghost pool: set<ListNode>)
    returns (result: ListNode?)
    requires Tracked(list, items, pool)
    modifies list, pool
    ensures Tracked(list, if items == [] then [] else items[..|items| - 1], pool)
    ensures result == Result(items, RemoveTail)
  {
    result := ListRemoveTail(list, items);
    ghost var last := |items| - 1;
    assert items != [] ==> forall n :: n in items ==> n == items[last] || n in items[..last];
  }

  method AddItem(list: ListNode, op: Op, ghost items: seq<ListNode>, ghost pool: set<ListNode>)
    requires op.AddHead? || op.AddTail? || op.AddAfter? || op.AddBefore?
    requires Tracked(list, items, pool) && Legal(list, items, pool, op)
    modifies list, pool
    ensures Tracked(list, Apply(list, items, pool, op), pool)
  {
    match op {
      case AddHead(item) =>
        AddBehind(list, list, item, items, pool, 0);
        assert Insert(items, 0, item) == [item] + items;
      case AddTail(item) =>
        AddInFront(list, list, item, items, pool, |items|);
        assert Insert(items, |items|, item) == items + [item];
      case AddAfter(entry, item) =>
        AddBehind(list, entry, item, items, pool, if entry == list then 0 else IndexOf(items, entry) + 1);
        assert Insert(items, 0, item) == [item] + items;
      case AddBefore(entry, item) =>
        AddInFront(list, entry, item, items, pool, if entry == list then |items| else IndexOf(items, entry));
        assert Insert(items, |items|, item) == items + [item];
    }
  }

  /** Executes one operation on the heap. */
  method Execute(list: ListNode, op: Op, ghost items: seq<ListNode>, ghost pool: set<ListNode>)
    returns (result: ListNode?)
    requires Tracked(list, items, pool) && Legal(list, items, pool, op)
    modifies list, pool
    ensures Tracked(list, Apply(list, items, pool, op), pool)
    ensures result == Result(items, op)
  {
    result := null;
    match op {
      case Delete(item) =>
        DeleteItem(list, item, items, pool);
      case RemoveHead =>
        result := RemoveFirst(list, items, pool);
      case RemoveTail =>
        result := RemoveLast(list, items, pool);
      case _ =>
        AddItem(list, op, items, pool);
    }
  }

  ghost predicate LegalRun(list: ListNode, items: seq<ListNode>, pool: set<ListNode>, ops: seq<Op>)
    decreases |ops|
  {
    ops == [] ||
    (Legal(list, items, pool, ops[0]) && LegalRun(list, Apply(list, items, pool, ops[0]), pool, ops[1..]))
  }

  /** The sequence after the whole run. */
  ghost function ApplyAll(list: ListNode, items: seq<ListNode>, pool: set<ListNode>, ops: seq<Op>): seq<ListNode>
    requires LegalRun(list, items, pool, ops)
    decreases |ops|
  {
    if ops == [] then items else ApplyAll(list, Apply(list, items, pool, ops[0]), pool, ops[1..])
  }

  ghost function Results(list: ListNode, items: seq<ListNode>, pool: set<ListNode>, ops: seq<Op>): seq<ListNode?>
    requires LegalRun(list, items, pool, ops)
    decreases |ops|
  {
    if ops == [] then []
    else [Result(items, ops[0])] + Results(list, Apply(list, items, pool, ops[0]), pool, ops[1..])
  }

  /** Any run of operations leaves the ring that the same run leaves in a plain sequence. */
  method Run(list: ListNode, ops: seq<Op>, ghost items: seq<ListNode>, ghost pool: set<ListNode>)
    returns (results: seq<ListNode?>)
    requires Tracked(list, items, pool) && LegalRun(list, items, pool, ops)
    modifies list, pool
    ensures Tracked(list, ApplyAll(list, items, pool, ops), pool)
    ensures results == Results(list, items, pool, ops)
    decreases |ops|
  {
    if ops == [] {
      return [];
    }
    var first := Execute(list, ops[0], items, pool);
    var rest := Run(list, ops[1..], Apply(list, items, pool, ops[0]), pool);
    results := [first] + rest;
  }
}
