/** The pointer-chasing kernels over singly linked lists.

    Memory is a heap of nodes addressed by index; a pointer is an index or
    `None` for null, and `new` appends to the heap. A list head carries an
    element count and its first node. */
module LinkedLists {
  import opened Wrappers
  import opened MachineInt
  import opened Folds

  type Ptr = Option<nat>

  /** `list_node`: an `int` value and the next pointer. */
  datatype Node = Node(value: i32, next: Ptr)

  /** `list_head`: the element count and the first node. */
  datatype ListHead = ListHead(size: i32, first: Ptr)

  type Heap = seq<Node>

  /** Every list of the pool has this many nodes. */
  const NODE_COUNT: i32 := 5

  // ---------------------------------------------------------------------
  // Shapes of node sequences

  predicate InHeap(heap: Heap, t: seq<nat>)
  {
    forall k :: 0 <= k < |t| ==> t[k] < |heap|
  }

  /** Each node of `t` points to the next one in `t`. */
  predicate Linked(heap: Heap, t: seq<nat>)
  {
    && InHeap(heap, t)
    && forall k :: 0 <= k < |t| - 1 ==> heap[t[k]].next == Some(t[k + 1])
  }

  /** `t` is the chain reached from `p` by following `next` up to null. */
  predicate IsChain(heap: Heap, p: Ptr, t: seq<nat>)
  {
    && Linked(heap, t)
    && p == (if |t| == 0 then None else Some(t[0]))
    && (|t| > 0 ==> heap[t[|t| - 1]].next == None)
  }

  /** `t` is the first `|t|` nodes reached from `p`, whatever follows them. */
  predicate IsPath(heap: Heap, p: Ptr, t: seq<nat>)
  {
    && Linked(heap, t)
    && (|t| > 0 ==> p == Some(t[0]))
  }

  /** `t` is the walk from `p` that stops on the node whose `next` is `first`;
      `first` itself appears only at the start, if at all. */
  predicate IsOrbit(heap: Heap, first: nat, p: nat, t: seq<nat>)
  {
    && |t| >= 1
    && Linked(heap, t)
    && t[0] == p
    && heap[t[|t| - 1]].next == Some(first)
    && forall k :: 1 <= k < |t| ==> t[k] != first
  }

  function Values(heap: Heap, t: seq<nat>): seq<int>
    requires InHeap(heap, t)
  {
    seq(|t|, k requires 0 <= k < |t| => heap[t[k]].value)
  }

  /** No running total of `vs` overflows an `int`. */
  predicate FitsInt(vs: seq<int>)
  {
    forall k :: 0 <= k <= |vs| ==> InI32(Sum(vs[..k]))
  }

  /** No running total of `vs` overflows a `long`. */
  predicate FitsLong(vs: seq<int>)
  {
    forall k :: 0 <= k <= |vs| ==> InI64(Sum(vs[..k]))
  }

  // ---------------------------------------------------------------------
  // Traversals as functions

  /** The nodes from `p` up to null, following at most `fuel` links. */
  function Trace(heap: Heap, p: Ptr, fuel: nat): (r: Option<seq<nat>>)
    ensures r.Some? ==> IsChain(heap, p, r.value) && |r.value| <= fuel
    decreases fuel
  {
    match p
    case None => Some([])
    case Some(i) =>
      if fuel == 0 || i >= |heap| then None
      else match Trace(heap, heap[i].next, fuel - 1)
        case None => None
        case Some(rest) => Some([i] + rest)
  }

  /** The null-terminated chain from `p`. An acyclic chain never visits a
      node twice, so it is complete within |heap| links. */
  function Chain(heap: Heap, p: Ptr): Option<seq<nat>>
  {
    Trace(heap, p, |heap|)
  }

  /** The first `n` nodes from `p`; `None` when null or a dangling pointer
      comes first. */
  function Walk(heap: Heap, p: Ptr, n: nat): (r: Option<seq<nat>>)
    ensures r.Some? ==> IsPath(heap, p, r.value) && |r.value| == n
    decreases n
  {
    if n == 0 then Some([])
    else match p
      case None => None
      case Some(i) =>
        if i >= |heap| then None
        else match Walk(heap, heap[i].next, n - 1)
          case None => None
          case Some(rest) => Some([i] + rest)
  }

  /** The nodes from `p` up to the one that points back to `first`. */
  function Orbit(heap: Heap, first: nat, p: nat, fuel: nat): (r: Option<seq<nat>>)
    ensures r.Some? ==> IsOrbit(heap, first, p, r.value) && |r.value| <= fuel
    decreases fuel
  {
    if fuel == 0 || p >= |heap| then None
    else match heap[p].next
      case None => None
      case Some(q) =>
        if q == first then Some([p])
        else match Orbit(heap, first, q, fuel - 1)
          case None => None
          case Some(rest) => Some([p] + rest)
  }

  /** The circular list through `first`, once round. */
  function Ring(heap: Heap, first: nat): Option<seq<nat>>
  {
    Orbit(heap, first, first, |heap|)
  }

  lemma WalkStep(heap: Heap, p: Ptr, m: nat, s: seq<nat>)
    requires Walk(heap, p, m + 1) == Some(s)
    ensures p == Some(s[0]) && s[0] < |heap|
    ensures Walk(heap, heap[s[0]].next, m) == Some(s[1..])
  {
  }

  lemma TraceStep(heap: Heap, i: nat, fuel: nat, s: seq<nat>)
    requires Trace(heap, Some(i), fuel) == Some(s)
    ensures |s| >= 1 && s[0] == i && i < |heap| && fuel >= 1
    ensures Trace(heap, heap[i].next, fuel - 1) == Some(s[1..])
  {
  }

  /** Every null-terminated chain short enough is found by `Trace`. */
  lemma {:induction false} ChainIsTraced(heap: Heap, p: Ptr, t: seq<nat>, fuel: nat)
    requires IsChain(heap, p, t) && |t| <= fuel
    ensures Trace(heap, p, fuel) == Some(t)
    decreases fuel
  {
    if |t| > 0 {
      var i := t[0];
      var next := heap[i].next;
      assert IsChain(heap, next, t[1..]) by {
        if |t| == 1 {
          assert next == None;
        } else {
          assert next == Some(t[1]);
          assert Linked(heap, t[1..]) by {
            forall k | 0 <= k < |t[1..]| - 1
              ensures heap[t[1..][k]].next == Some(t[1..][k + 1])
            {
              assert heap[t[k + 1]].next == Some(t[k + 2]);
            }
          }
        }
      }
      ChainIsTraced(heap, next, t[1..], fuel - 1);
      assert [i] + t[1..] == t;
    }
  }

  /** Every orbit short enough is found by `Orbit`. */
  lemma {:induction false} OrbitIsFound(heap: Heap, first: nat, p: nat, t: seq<nat>, fuel: nat)
    requires IsOrbit(heap, first, p, t) && |t| <= fuel
    ensures Orbit(heap, first, p, fuel) == Some(t)
    decreases fuel
  {
    if |t| > 1 {
      var q := t[1];
      assert heap[p].next == Some(q);
      assert IsOrbit(heap, first, q, t[1..]) by {
        assert Linked(heap, t[1..]) by {
          forall k | 0 <= k < |t[1..]| - 1
            ensures heap[t[1..][k]].next == Some(t[1..][k + 1])
          {
            assert heap[t[k + 1]].next == Some(t[k + 2]);
          }
        }
      }
      OrbitIsFound(heap, first, q, t[1..], fuel - 1);
      assert [p] + t[1..] == t;
    } else {
      assert t == [p];
    }
  }

  /** A null-terminated chain of `n` nodes is also what `n` counted steps
      from its head visit. */
  /** Conversely, every linked path from `p` is what `|t|` counted steps
      visit. */
  lemma {:induction false} PathIsWalked(heap: Heap, p: Ptr, t: seq<nat>)
    requires IsPath(heap, p, t)
    ensures Walk(heap, p, |t|) == Some(t)
    decreases |t|
  {
    if |t| > 0 {
      var rest := t[1..];
      assert IsPath(heap, heap[t[0]].next, rest) by {
        forall k | 0 <= k < |rest| - 1
          ensures heap[rest[k]].next == Some(rest[k + 1])
        {
          assert heap[t[k + 1]].next == Some(t[k + 2]);
        }
        if |rest| > 0 {
          assert heap[t[0]].next == Some(t[1]);
        }
      }
      PathIsWalked(heap, heap[t[0]].next, rest);
      assert [t[0]] + rest == t;
    }
  }

  lemma {:induction false} ChainIsWalk(heap: Heap, p: Ptr, fuel: nat)
    requires Trace(heap, p, fuel).Some?
    ensures Walk(heap, p, |Trace(heap, p, fuel).value|) == Trace(heap, p, fuel)
    decreases fuel
  {
    if p.Some? {
      ChainIsWalk(heap, heap[p.value].next, fuel - 1);
    }
  }

  /** Growing the heap keeps every existing chain intact. */
  lemma ChainStable(heap: Heap, heap': Heap, p: Ptr)
    requires Chain(heap, p).Some?
    requires |heap| <= |heap'| && heap'[..|heap|] == heap
    ensures Chain(heap', p) == Chain(heap, p)
  {
    var t := Chain(heap, p).value;
    forall k | 0 <= k < |t|
      ensures heap'[t[k]] == heap[t[k]]
    {
      assert heap'[..|heap|][t[k]] == heap'[t[k]];
    }
    assert IsChain(heap', p, t);
    ChainIsTraced(heap', p, t, |heap'|);
  }

  /** No node occurs twice in `t`. */
  predicate Distinct(t: seq<nat>)
  {
    forall a, b :: 0 <= a < b < |t| ==> t[a] != t[b]
  }

  /** In a linked sequence, two visits of the same node are followed by the
      same nodes. */
  lemma {:induction false} LinkedShift(heap: Heap, t: seq<nat>, a: nat, b: nat, d: nat)
    requires Linked(heap, t)
    requires a < b && b + d < |t|
    ensures t[a] == t[b] ==> t[a + d] == t[b + d]
    decreases d
  {
    if d > 0 {
      LinkedShift(heap, t, a, b, d - 1);
      assert heap[t[a + d - 1]].next == Some(t[a + d]);
      assert heap[t[b + d - 1]].next == Some(t[b + d]);
    }
  }

  /** A null-terminated chain never visits a node twice: a repeated node
      would be followed by the last node earlier than the last place. */
  lemma ChainDistinct(heap: Heap, p: Ptr, t: seq<nat>)
    requires IsChain(heap, p, t)
    ensures Distinct(t)
  {
    forall a, b | 0 <= a < b < |t|
      ensures t[a] != t[b]
    {
      var d := |t| - 1 - b;
      LinkedShift(heap, t, a, b, d);
      var c := a + d;
      assert heap[t[c]].next == Some(t[c + 1]);
      assert t[c] != t[b + d];
    }
  }

  /** A walk round a ring meets `first` only at the start, so it never
      visits a node twice. */
  lemma OrbitDistinct(heap: Heap, first: nat, t: seq<nat>)
    requires IsOrbit(heap, first, first, t)
    ensures Distinct(t)
  {
    forall a, b | 0 <= a < b < |t|
      ensures t[a] != t[b]
    {
      // Were t[a] == t[b], the node |t| - 1 - b places after t[a] would be
      // the last one, whose successor is `first`, which cannot recur.
      var d := |t| - 1 - b;
      LinkedShift(heap, t, a, b, d);
      var c := a + d;
      assert heap[t[c]].next == Some(t[c + 1]);
      assert t[c + 1] != first;
      assert t[c] != t[b + d];
    }
  }

  /** Pigeonhole: distinct indices below `n` are at most `n` many. */
  lemma {:induction false} DistinctBounded(t: seq<nat>, n: nat)
    requires forall k :: 0 <= k < |t| ==> t[k] < n
    requires Distinct(t)
    ensures |t| <= n
    decreases n
  {
    if |t| > 0 {
      assert t[0] < n;
      var m := n - 1;
      if k :| 0 <= k < |t| && t[k] == m {
        var u := t[..k] + t[k + 1..];
        assert forall j :: 0 <= j < |u| ==> u[j] == t[if j < k then j else j + 1];
        forall j | 0 <= j < |u|
          ensures u[j] < m
        {
          var i := if j < k then j else j + 1;
          assert t[i] != t[k];
        }
        DistinctBounded(u, m);
      } else {
        DistinctBounded(t, m);
      }
    }
  }

  /** Every null-terminated chain is found: it has at most |heap| nodes. */
  lemma ChainIsComplete(heap: Heap, p: Ptr, t: seq<nat>)
    requires IsChain(heap, p, t)
    ensures Chain(heap, p) == Some(t)
  {
    ChainDistinct(heap, p, t);
    DistinctBounded(t, |heap|);
    ChainIsTraced(heap, p, t, |heap|);
  }

  /** Every circular list through `first` is found: it has at most |heap|
      nodes. */
  lemma RingIsComplete(heap: Heap, first: nat, t: seq<nat>)
    requires IsOrbit(heap, first, first, t)
    ensures Ring(heap, first) == Some(t)
  {
    OrbitDistinct(heap, first, t);
    DistinctBounded(t, |heap|);
    OrbitIsFound(heap, first, first, t, |heap|);
  }

  /** `sumlist` visits each node of the ring exactly once. */
  lemma RingVisitsEachNodeOnce(heap: Heap, first: nat)
    requires Ring(heap, first).Some?
    ensures Distinct(Ring(heap, first).value)
  {
    OrbitDistinct(heap, first, Ring(heap, first).value);
  }

  // ---------------------------------------------------------------------
  // List construction

  /** The values `makeList(n)` stores, in chain order: 1, then n - 1 zeros. */
  function ListValues(n: nat): seq<int>
  {
    seq(n, k => if k == 0 then 1 else 0)
  }

  /** `makeList(size)`: `size` new nodes chained in allocation order, the
      first holding 1 and the rest 0. The unused extra node the source
      allocates is not modelled. */
  function MakeList(heap: Heap, size: i32): (res: (Heap, ListHead))
    requires size >= 0
    ensures |res.0| == |heap| + size && res.0[..|heap|] == heap
    ensures res.1.size == size
  {
    if size == 0 then (heap, ListHead(0, None))
    else
      var base := |heap|;
      var nodes := seq(size, k requires 0 <= k < size =>
        Node(if k == 0 then 1 else 0, if k + 1 < size then Some(base + k + 1) else None));
      (heap + nodes, ListHead(size, Some(base)))
  }

  /** A made list is a null-terminated chain of exactly `size` fresh nodes
      holding 1 followed by zeros; with size 0 its head is null. */
  lemma MakeListShape(heap: Heap, size: i32)
    requires size >= 0
    ensures var (heap', list) := MakeList(heap, size);
      && Chain(heap', list.first) == Some(seq(size, k => |heap| + k))
      && Values(heap', seq(size, k => |heap| + k)) == ListValues(size)
      && (size == 0 <==> list.first == None)
  {
    var (heap', list) := MakeList(heap, size);
    var t := seq(size, k => |heap| + k);
    assert IsChain(heap', list.first, t);
    ChainIsTraced(heap', list.first, t, |heap'|);
  }

  /** `makeList`'s values add up to 1, and no running total overflows. */
  lemma {:induction false} ListValuesSum(n: nat)
    ensures Sum(ListValues(n)) == (if n == 0 then 0 else 1)
    ensures FitsInt(ListValues(n))
  {
    if n > 0 {
      assert ListValues(n)[..n - 1] == ListValues(n - 1);
      ListValuesSum(n - 1);
    }
    forall k | 0 <= k <= n
      ensures InI32(Sum(ListValues(n)[..k]))
    {
      assert ListValues(n)[..k] == ListValues(k);
      if k < n {
        ListValuesSum(k);
      }
    }
  }

  /** A pool list as `makeLists` leaves it: a chain of NODE_COUNT nodes whose
      count is right and whose values are 1, 0, 0, 0, 0. */
  predicate PoolList(heap: Heap, list: ListHead)
  {
    && list.size == NODE_COUNT
    && Chain(heap, list.first).Some?
    && |Chain(heap, list.first).value| == NODE_COUNT
    && Values(heap, Chain(heap, list.first).value) == ListValues(NODE_COUNT)
  }

  /** `makeLists()`: `listCount` lists of NODE_COUNT nodes allocated one after
      another. The list count comes from a header outside this model, so it
      is a parameter; the source's random engine is never used. */
  function MakeLists(heap: Heap, listCount: nat): (res: (Heap, seq<ListHead>))
    ensures |res.1| == listCount
    ensures |heap| <= |res.0| && res.0[..|heap|] == heap
    ensures forall j :: 0 <= j < listCount ==> PoolList(res.0, res.1[j])
  {
    if listCount == 0 then (heap, [])
    else
      var (h, lists) := MakeLists(heap, listCount - 1);
      var (h', list) := MakeList(h, NODE_COUNT);
      MakeListShape(h, NODE_COUNT);
      PoolListsStable(h, h', lists);
      assert h'[..|heap|] == h'[..|h|][..|heap|];
      (h', lists + [list])
  }

  lemma PoolListsStable(heap: Heap, heap': Heap, lists: seq<ListHead>)
    requires forall j :: 0 <= j < |lists| ==> PoolList(heap, lists[j])
    requires |heap| <= |heap'| && heap'[..|heap|] == heap
    ensures forall j :: 0 <= j < |lists| ==> PoolList(heap', lists[j])
  {
    forall j | 0 <= j < |lists|
      ensures PoolList(heap', lists[j])
    {
      var p := lists[j].first;
      ChainStable(heap, heap', p);
      var t := Chain(heap, p).value;
      assert forall k :: 0 <= k < |t| ==> heap'[t[k]] == heap'[..|heap|][t[k]];
      assert Values(heap', t) == Values(heap, t);
    }
  }

  // ---------------------------------------------------------------------
  // The kernels

  /** The number of steps `sum_counter` takes for a count (none if negative). */
  function Count(size: i32): nat
  {
    if size < 0 then 0 else size
  }

  /** `sum_counter`: follows `next` exactly `size` times, adding the values. */
  method SumCounter(heap: Heap, list: ListHead) returns (r: int)
    requires Walk(heap, list.first, Count(list.size)).Some?
    requires FitsInt(Values(heap, Walk(heap, list.first, Count(list.size)).value))
    ensures r == Sum(Values(heap, Walk(heap, list.first, Count(list.size)).value))
  {
    ghost var n := Count(list.size);
    ghost var t := Walk(heap, list.first, n).value;
    ghost var vs := Values(heap, t);
    var sum := 0;
    var cur := list.first;
    var i := 0;
    while i < list.size
      invariant 0 <= i <= n
      invariant Walk(heap, cur, n - i) == Some(t[i..])
      invariant sum == Sum(vs[..i])
    {
      WalkStep(heap, cur, n - i - 1, t[i..]);
      assert t[i..][1..] == t[i + 1..];
      var node := heap[cur.value];
      SumPrefixStep(vs, i);
      sum := AddInt(sum, node.value);
      cur := node.next;
      i := i + 1;
    }
    assert vs[..i] == vs;
    r := sum;
  }

  /** `sum_sentinel`: follows `next` until null, adding the values. */
  method SumSentinel(heap: Heap, list: ListHead) returns (r: int)
    requires Chain(heap, list.first).Some?
    requires FitsInt(Values(heap, Chain(heap, list.first).value))
    ensures r == Sum(Values(heap, Chain(heap, list.first).value))
  {
    ghost var t := Chain(heap, list.first).value;
    ghost var vs := Values(heap, t);
    var sum := 0;
    var cur := list.first;
    ghost var i := 0;
    ghost var fuel: nat := |heap|;
    while cur.Some?
      invariant 0 <= i <= |t|
      invariant Trace(heap, cur, fuel) == Some(t[i..])
      invariant sum == Sum(vs[..i])
      decreases |t| - i
    {
      TraceStep(heap, cur.value, fuel, t[i..]);
      assert t[i..][1..] == t[i + 1..];
      var node := heap[cur.value];
      SumPrefixStep(vs, i);
      sum := AddInt(sum, node.value);
      cur := node.next;
      i := i + 1;
      fuel := fuel - 1;
    }
    assert |t[i..]| == 0;
    assert vs[..i] == vs;
    r := sum;
  }

  /** The two list-sum implementations `linkedlist_sum` is instantiated with. */
  datatype ListSum = Counter | Sentinel

  /** The nodes one call of the implementation visits. */
  function Visited(impl: ListSum, heap: Heap, list: ListHead): Option<seq<nat>>
  {
    match impl
    case Counter => Walk(heap, list.first, Count(list.size))
    case Sentinel => Chain(heap, list.first)
  }

  /** The implementation can run on the list without undefined behaviour. */
  predicate Admissible(impl: ListSum, heap: Heap, list: ListHead)
  {
    && Visited(impl, heap, list).Some?
    && FitsInt(Values(heap, Visited(impl, heap, list).value))
  }

  function ListTotal(impl: ListSum, heap: Heap, list: ListHead): int
    requires Admissible(impl, heap, list)
  {
    Sum(Values(heap, Visited(impl, heap, list).value))
  }

  function PoolTotal(impl: ListSum, heap: Heap, lists: seq<ListHead>): int
    requires forall j :: 0 <= j < |lists| ==> Admissible(impl, heap, lists[j])
  {
    if |lists| == 0 then 0
    else PoolTotal(impl, heap, lists[..|lists| - 1]) + ListTotal(impl, heap, lists[|lists| - 1])
  }

  method SumWith(impl: ListSum, heap: Heap, list: ListHead) returns (r: int)
    requires Admissible(impl, heap, list)
    ensures r == ListTotal(impl, heap, list)
  {
    match impl
    case Counter => r := SumCounter(heap, list);
    case Sentinel => r := SumSentinel(heap, list);
  }

  predicate AllAdmissible(impl: ListSum, heap: Heap, lists: seq<ListHead>)
  {
    forall j :: 0 <= j < |lists| ==> Admissible(impl, heap, lists[j])
  }

  lemma PoolTotalStep(impl: ListSum, heap: Heap, lists: seq<ListHead>, j: nat)
    requires AllAdmissible(impl, heap, lists) && j < |lists|
    ensures AllAdmissible(impl, heap, lists[..j]) && AllAdmissible(impl, heap, lists[..j + 1])
    ensures PoolTotal(impl, heap, lists[..j + 1])
         == PoolTotal(impl, heap, lists[..j]) + ListTotal(impl, heap, lists[j])
  {
    assert lists[..j + 1][..j] == lists[..j];
  }

  /** One pass of `linkedlist_sum` over the pool: each list's sum is added
      to the `int` total `acc`, which stands for the exact total `exact`. */
  method PoolPass(impl: ListSum, heap: Heap, lists: seq<ListHead>, acc: int, ghost exact: int)
    returns (r: int)
    requires AllAdmissible(impl, heap, lists)
    requires acc == ToInt32(exact)
    ensures r == ToInt32(exact + PoolTotal(impl, heap, lists))
  {
    r := acc;
    var j := 0;
    ghost var partial := 0;
    while j < |lists|
      invariant 0 <= j <= |lists|
      invariant AllAdmissible(impl, heap, lists[..j])
      invariant partial == PoolTotal(impl, heap, lists[..j])
      invariant r == ToInt32(exact + partial)
    {
      var s := SumWith(impl, heap, lists[j]);
      PoolTotalStep(impl, heap, lists, j);
      ToInt32Add(exact + partial, s);
      r := ToInt32(r + s);
      partial := partial + s;
      j := j + 1;
    }
    assert lists[..|lists|] == lists;
  }

  /** `linkedlist_sum<SUM_IMPL>`: `iters` passes over the pool, adding each
      list's sum into an `int`; each `long` result is narrowed back to `int`,
      so the total is the exact one reduced to 32 bits. */
  method LinkedListSum(impl: ListSum, iters: u64, heap: Heap, lists: seq<ListHead>) returns (r: int)
    requires AllAdmissible(impl, heap, lists)
    ensures r == ToInt32(iters * PoolTotal(impl, heap, lists))
  {
    ghost var total := PoolTotal(impl, heap, lists);
    ghost var passes := 0;
    var sum := 0;
    var n := iters;
    while n > 0
      invariant 0 <= n <= iters && passes == iters - n
      invariant sum == ToInt32(passes * total)
    {
      n := n - 1;
      sum := PoolPass(impl, heap, lists, sum, passes * total);
      assert (passes + 1) * total == passes * total + total;
      passes := passes + 1;
    }
    r := sum;
  }

  /** On a list whose count matches its null-terminated chain, counting and
      sentinel traversals visit the same nodes. */
  lemma CounterMatchesSentinel(heap: Heap, list: ListHead)
    requires Chain(heap, list.first).Some?
    requires list.size == |Chain(heap, list.first).value|
    ensures Visited(Counter, heap, list) == Visited(Sentinel, heap, list)
  {
    ChainIsWalk(heap, list.first, |heap|);
  }

  /** A list whose count is the length of its null-terminated chain. */
  predicate Consistent(heap: Heap, list: ListHead)
  {
    Chain(heap, list.first).Some? && list.size == |Chain(heap, list.first).value|
  }

  /** Over a pool of consistent lists, the counting and the sentinel
      implementations are admissible together and give the same totals, so
      `linkedlist_counter` and `linkedlist_sentinel` return the same value. */
  lemma {:induction false} PoolTotalsAgree(heap: Heap, lists: seq<ListHead>)
    requires forall j :: 0 <= j < |lists| ==> Consistent(heap, lists[j])
    requires AllAdmissible(Sentinel, heap, lists)
    ensures AllAdmissible(Counter, heap, lists)
    ensures PoolTotal(Counter, heap, lists) == PoolTotal(Sentinel, heap, lists)
    decreases |lists|
  {
    forall j | 0 <= j < |lists|
      ensures Visited(Counter, heap, lists[j]) == Visited(Sentinel, heap, lists[j])
    {
      CounterMatchesSentinel(heap, lists[j]);
    }
    if |lists| > 0 {
      PoolTotalsAgree(heap, lists[..|lists| - 1]);
    }
  }

  /** Over the pool `makeLists` builds, both implementations are admissible,
      and a pass totals the number of lists (each list sums to 1). */
  lemma {:induction false} PoolTotalOfMadeLists(impl: ListSum, heap: Heap, lists: seq<ListHead>)
    requires forall j :: 0 <= j < |lists| ==> PoolList(heap, lists[j])
    ensures AllAdmissible(impl, heap, lists)
    ensures PoolTotal(impl, heap, lists) == |lists|
    decreases |lists|
  {
    forall j | 0 <= j < |lists|
      ensures Admissible(impl, heap, lists[j]) && ListTotal(impl, heap, lists[j]) == 1
    {
      CounterMatchesSentinel(heap, lists[j]);
      ListValuesSum(NODE_COUNT);
    }
    if |lists| > 0 {
      PoolTotalOfMadeLists(impl, heap, lists[..|lists| - 1]);
    }
  }

  /** `listOfLists`, built once from an empty heap: either traversal kernel
      over it returns `iters * listCount` narrowed to `int`. */
  lemma ListOfListsTotal(impl: ListSum, listCount: nat)
    ensures var (heap, lists) := MakeLists([], listCount);
      && AllAdmissible(impl, heap, lists)
      && PoolTotal(impl, heap, lists) == listCount
  {
    var (heap, lists) := MakeLists([], listCount);
    PoolTotalOfMadeLists(impl, heap, lists);
  }

  /** `sumlist`: a do-while loop round the circular list from `first`,
      adding each value into a `long`. */
  method SumList(heap: Heap, first: nat) returns (r: int)
    requires Ring(heap, first).Some?
    requires FitsLong(Values(heap, Ring(heap, first).value))
    ensures r == Sum(Values(heap, Ring(heap, first).value))
  {
    ghost var t := Ring(heap, first).value;
    ghost var vs := Values(heap, t);
    var sum := 0;
    var p := first;
    ghost var i := 0;
    while true
      invariant 0 <= i < |t| && p == t[i]
      invariant sum == Sum(vs[..i])
      decreases |t| - i
    {
      SumPrefixStep(vs, i);
      sum := AddLong(sum, heap[p].value);
      assert heap[p].next == (if i + 1 < |t| then Some(t[i + 1]) else Some(first));
      p := heap[p].next.value;
      i := i + 1;
      if p == first {
        break;
      }
    }
    assert vs[..i] == vs;
    r := sum;
  }

  /** `shuffled_list_sum`: `iters` rounds of `sumlist` over the list at the
      start of the region, each `long` narrowed back into an `int` total. */
  method ShuffledListSum(iters: u64, heap: Heap, first: nat) returns (r: int)
    requires Ring(heap, first).Some?
    requires FitsLong(Values(heap, Ring(heap, first).value))
    ensures r == ToInt32(iters * Sum(Values(heap, Ring(heap, first).value)))
  {
    ghost var once := Sum(Values(heap, Ring(heap, first).value));
    ghost var passes := 0;
    var sum := 0;
    var n := iters;
    while n > 0
      invariant 0 <= n <= iters && passes == iters - n
      invariant sum == ToInt32(passes * once)
    {
      n := n - 1;
      var s := SumList(heap, first);
      ToInt32Add(passes * once, s);
      sum := ToInt32(sum + s);
      assert (passes + 1) * once == passes * once + once;
      passes := passes + 1;
    }
    r := sum;
  }
}
