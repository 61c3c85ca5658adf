/** The older order book of utils.rs over the `Slab` / `SlabNode` records of
    state/orderbook.rs: a fixed array of nodes threaded into one
    price-sorted doubly linked list (from `head_index`) and one free list
    (from `free_head`, through `next`). `SlabNode` is given the fields
    `reserved_usdc`, `reserved_outcome` and `outcome`, which the handlers of
    place_limit_order.rs and cancel_order.rs use but the struct lacks.

    The ghost sequences `list` and `free` are the two threads in order; the
    value-level predicate `Wf` says that the array really threads them. */
module LegacyBook {
  import opened Common
  import opened MarketState

  datatype SlabNode = SlabNode(
    key: u128,
    owner: Pubkey,
    quantity: u64,
    orderId: u64,
    next: i32,
    prev: i32,
    timeStamp: i64,
    occupied: bool,
    reservedUsdc: u64,
    reservedOutcome: u64,
    outcome: OutcomeSide)

  // ---------------------------------------------------------------------
  // checked_add / checked_sub (utils.rs:6-17)

  function CheckedAdd(a: u64, b: u64): (r: Result<u64>)
    ensures r.Ok? <==> a + b < U64_LIMIT
    ensures r.Ok? ==> r.value == a + b
    ensures r.Err? ==> r.error == MathError
  {
    if a + b < U64_LIMIT then Ok(a + b) else Err(MathError)
  }

  function CheckedSub(a: u64, b: u64): (r: Result<u64>)
    ensures r.Ok? <==> b <= a
    ensures r.Ok? ==> r.value == a - b
    ensures r.Err? ==> r.error == MathError
  {
    if b <= a then Ok(a - b) else Err(MathError)
  }

  /** Subtracting what was added gives the first operand back. */
  lemma CheckedAddSub(a: u64, b: u64)
    ensures CheckedAdd(a, b).Ok? ==> CheckedSub(CheckedAdd(a, b).value, b) == Ok(a)
    ensures CheckedSub(a, b).Ok? ==> CheckedAdd(CheckedSub(a, b).value, b) == Ok(a)
  {
  }

  // ---------------------------------------------------------------------
  // Ordering of the list (utils.rs:99-123, 133-137)

  /** node_index_is_higher (utils.rs:134). */
  function IsHigher(a: u128, b: u128): bool
  {
    a > b
  }

  /** node_index_is_lower (utils.rs:137). */
  function IsLower(a: u128, b: u128): bool
  {
    a < b
  }

  /** The strict test that puts a new key before an existing one. */
  predicate Better(isBid: bool, a: u128, b: u128)
  {
    if isBid then IsHigher(a, b) else IsLower(a, b)
  }

  /** The order the list keeps: non-increasing keys for bids, non-decreasing
      for asks. */
  predicate Ordered(isBid: bool, a: u128, b: u128)
  {
    if isBid then a >= b else a <= b
  }

  // ---------------------------------------------------------------------
  // Threads through the node array

  /** An all-zero record, used where a position is outside a thread. */
  const ZERO_NODE := SlabNode(0, DEFAULT_KEY, 0, 0, 0, 0, 0, false, 0, 0, Yes)

  /** The record at position `k` of thread `l`. */
  ghost function NodeAt(ns: seq<SlabNode>, l: seq<i32>, k: int): SlabNode
  {
    if 0 <= k < |l| && 0 <= l[k] < |ns| then ns[l[k]] else ZERO_NODE
  }

  ghost function KeyAt(ns: seq<SlabNode>, l: seq<i32>, k: int): u128
  {
    NodeAt(ns, l, k).key
  }

  /** The index after position `k` of a thread, or -1 past its end. */
  ghost function NextOf(l: seq<i32>, k: int): i32
  {
    if 0 <= k && k + 1 < |l| then l[k + 1] else -1
  }

  /** The index before position `k` of a thread, or -1 at its start. */
  ghost function PrevOf(l: seq<i32>, k: int): i32
  {
    if 0 < k <= |l| then l[k - 1] else -1
  }

  ghost function First(l: seq<i32>): i32
  {
    if |l| == 0 then -1 else l[0]
  }

  /** Distinct in-range indices. */
  ghost predicate Indices(ns: seq<SlabNode>, l: seq<i32>)
  {
    (forall k :: 0 <= k < |l| ==> 0 <= l[k] < |ns|) &&
    (forall a, b :: 0 <= a < b < |l| ==> l[a] != l[b])
  }

  ghost predicate Forward(ns: seq<SlabNode>, l: seq<i32>)
  {
    forall k :: 0 <= k < |l| ==> NodeAt(ns, l, k).next == NextOf(l, k)
  }

  ghost predicate Backward(ns: seq<SlabNode>, l: seq<i32>)
  {
    forall k :: 0 <= k < |l| ==> NodeAt(ns, l, k).prev == PrevOf(l, k)
  }

  ghost predicate Disjoint(l: seq<i32>, f: seq<i32>)
  {
    forall a, b :: 0 <= a < |l| && 0 <= b < |f| ==> l[a] != f[b]
  }

  ghost predicate Sorted(ns: seq<SlabNode>, l: seq<i32>, isBid: bool)
  {
    forall a, b :: 0 <= a < b < |l| ==> Ordered(isBid, KeyAt(ns, l, a), KeyAt(ns, l, b))
  }

  /** Listed nodes are occupied, free ones are not. */
  ghost predicate Occupancy(ns: seq<SlabNode>, l: seq<i32>, f: seq<i32>)
  {
    (forall k :: 0 <= k < |l| ==> NodeAt(ns, l, k).occupied) &&
    (forall k :: 0 <= k < |f| ==> !NodeAt(ns, f, k).occupied)
  }

  /** The array threads the price list `l` from `head` (both directions)
      and the free list `f` from `freeHead` (forward), the two are disjoint,
      and the price list is sorted. */
  ghost predicate Wf(ns: seq<SlabNode>, head: int, l: seq<i32>, freeHead: int, f: seq<i32>, isBid: bool)
  {
    Indices(ns, l) && Indices(ns, f) &&
    Forward(ns, l) && Backward(ns, l) && head == First(l) &&
    Forward(ns, f) && freeHead == First(f) &&
    Disjoint(l, f) && Occupancy(ns, l, f) && Sorted(ns, l, isBid)
  }

  // ---------------------------------------------------------------------
  // Positions in the list

  /** The first position at or after `i` whose key crosses `p`
      (find_matching_node's test), or `|l|`. */
  ghost function MatchFrom(ns: seq<SlabNode>, l: seq<i32>, p: u128, bidSlab: bool, i: nat): (k: nat)
    requires i <= |l|
    ensures i <= k <= |l|
    ensures forall j :: i <= j < k ==> !Ordered(bidSlab, KeyAt(ns, l, j), p)
    ensures k < |l| ==> Ordered(bidSlab, KeyAt(ns, l, k), p)
    decreases |l| - i
  {
    if i == |l| then i
    else if Ordered(bidSlab, KeyAt(ns, l, i), p) then i
    else MatchFrom(ns, l, p, bidSlab, i + 1)
  }

  /** The first position at or after `i` before which slab_insert_node
      puts a node with key `key`, or `|l|` (append). */
  ghost function InsertFrom(ns: seq<SlabNode>, l: seq<i32>, key: u128, isBid: bool, i: nat): (k: nat)
    requires i <= |l|
    ensures i <= k <= |l|
    ensures forall j :: i <= j < k ==> !Better(isBid, key, KeyAt(ns, l, j))
    ensures k < |l| ==> Better(isBid, key, KeyAt(ns, l, k))
    decreases |l| - i
  {
    if i == |l| then i
    else if Better(isBid, key, KeyAt(ns, l, i)) then i
    else InsertFrom(ns, l, key, isBid, i + 1)
  }

  /** In a list sorted for its own side, the first crossing node is the
      head or there is none: the best node decides the match. */
  lemma MatchAtHead(ns: seq<SlabNode>, l: seq<i32>, p: u128, isBid: bool)
    requires Sorted(ns, l, isBid) && |l| > 0
    ensures MatchFrom(ns, l, p, isBid, 0) == if Ordered(isBid, KeyAt(ns, l, 0), p) then 0 else |l|
  {
  }

  /** Every node whose key equals the inserted key stays before it: equal
      keys keep their arrival order. */
  lemma InsertAfterEqual(ns: seq<SlabNode>, l: seq<i32>, key: u128, isBid: bool, j: int)
    requires Sorted(ns, l, isBid) && 0 <= j < |l| && KeyAt(ns, l, j) == key
    ensures j < InsertFrom(ns, l, key, isBid, 0)
  {
    var k := InsertFrom(ns, l, key, isBid, 0);
    if k <= j {
      assert Ordered(isBid, KeyAt(ns, l, k), KeyAt(ns, l, j));
    }
  }

  /** The list after inserting `i` at position `k`. */
  function Inserted(l: seq<i32>, k: int, i: i32): seq<i32>
    requires 0 <= k <= |l|
  {
    l[..k] + [i] + l[k..]
  }

  /** The list after unlinking position `k`. */
  function Without(l: seq<i32>, k: int): seq<i32>
    requires 0 <= k < |l|
  {
    l[..k] + l[k + 1..]
  }

  /** The record `free_a_node` leaves in a slot: flags and payload cleared,
      `next` set to the old free head; `prev` and the reserved fields are
      left as they were. */
  function Freed(n: SlabNode, freeHead: i32): SlabNode
  {
    n.(occupied := false, owner := DEFAULT_KEY, quantity := 0, key := 0, orderId := 0, timeStamp := 0,
       next := freeHead)
  }

  /** The two records agree on everything but the links. */
  predicate SameButLinks(a: SlabNode, b: SlabNode)
  {
    a.(next := b.next, prev := b.prev) == b
  }

  /** The array after slab_insert_node links `i` in at position `k`. */
  ghost function Spliced(ns: seq<SlabNode>, l: seq<i32>, k: int, i: i32): seq<SlabNode>
    requires Indices(ns, l) && 0 <= k <= |l| && 0 <= i < |ns|
  {
    var s1 := ns[i := ns[i].(next := if k < |l| then l[k] else -1, prev := PrevOf(l, k))];
    var s2 := if k > 0 then s1[l[k - 1] := s1[l[k - 1]].(next := i)] else s1;
    if k < |l| then s2[l[k] := s2[l[k]].(prev := i)] else s2
  }

  /** The array after the handlers unlink position `k`: the predecessor
      takes the node's `next`, the successor its `prev`. */
  ghost function Cut(ns: seq<SlabNode>, l: seq<i32>, k: int): seq<SlabNode>
    requires Indices(ns, l) && 0 <= k < |l|
  {
    var s1 := if k > 0 then ns[l[k - 1] := ns[l[k - 1]].(next := NextOf(l, k))] else ns;
    if k + 1 < |l| then s1[l[k + 1] := s1[l[k + 1]].(prev := PrevOf(l, k))] else s1
  }

  // ---------------------------------------------------------------------
  // Lemmas on threads

  lemma InsertedAt(l: seq<i32>, k: int, i: i32, m: int)
    requires 0 <= k <= |l| && 0 <= m <= |l|
    ensures Inserted(l, k, i)[m] == if m < k then l[m] else if m == k then i else l[m - 1]
  {
  }

  lemma WithoutAt(l: seq<i32>, k: int, m: int)
    requires 0 <= k < |l| && 0 <= m < |l| - 1
    ensures Without(l, k)[m] == if m < k then l[m] else l[m + 1]
  {
  }

  /** Well-formedness only looks at the records on the two threads. */
  lemma WfFrame(ns: seq<SlabNode>, ns': seq<SlabNode>, head: int, l: seq<i32>, freeHead: int, f: seq<i32>, isBid: bool)
    requires Wf(ns, head, l, freeHead, f, isBid) && |ns'| == |ns|
    requires forall k :: 0 <= k < |l| ==> ns'[l[k]] == ns[l[k]]
    requires forall k :: 0 <= k < |f| ==> ns'[f[k]] == ns[f[k]]
    ensures Wf(ns', head, l, freeHead, f, isBid)
  {
    assert forall k :: 0 <= k < |l| ==> NodeAt(ns', l, k) == NodeAt(ns, l, k);
    assert forall k :: 0 <= k < |f| ==> NodeAt(ns', f, k) == NodeAt(ns, f, k);
    assert forall k :: 0 <= k < |l| ==> KeyAt(ns', l, k) == KeyAt(ns, l, k);
  }

  lemma InsertIndices(ns: seq<SlabNode>, l: seq<i32>, k: int, i: i32)
    requires Indices(ns, l) && 0 <= k <= |l| && 0 <= i < |ns| && i !in l
    ensures Indices(ns, Inserted(l, k, i))
  {
    var l' := Inserted(l, k, i);
    forall a, b | 0 <= a < b < |l'|
      ensures l'[a] != l'[b]
    {
      InsertedAt(l, k, i, a);
      InsertedAt(l, k, i, b);
    }
    forall m | 0 <= m < |l'|
      ensures 0 <= l'[m] < |ns|
    {
      InsertedAt(l, k, i, m);
    }
  }

  /** The records `Spliced` leaves at each position of the new list. */
  lemma SplicedAt(ns: seq<SlabNode>, l: seq<i32>, k: int, i: i32, m: int)
    requires Indices(ns, l) && 0 <= k <= |l| && 0 <= i < |ns| && i !in l && 0 <= m <= |l|
    ensures var ns', l' := Spliced(ns, l, k, i), Inserted(l, k, i);
      |ns'| == |ns| &&
      (m < k - 1 ==> NodeAt(ns', l', m) == NodeAt(ns, l, m)) &&
      (m == k - 1 ==> NodeAt(ns', l', m) == NodeAt(ns, l, m).(next := i)) &&
      (m == k ==> NodeAt(ns', l', m) == ns[i].(next := if k < |l| then l[k] else -1, prev := PrevOf(l, k))) &&
      (m == k + 1 ==> NodeAt(ns', l', m) == NodeAt(ns, l, k).(prev := i)) &&
      (m > k + 1 ==> NodeAt(ns', l', m) == NodeAt(ns, l, m - 1))
  {
    InsertedAt(l, k, i, m);
  }

  lemma SplicedOutside(ns: seq<SlabNode>, l: seq<i32>, k: int, i: i32, x: int)
    requires Indices(ns, l) && 0 <= k <= |l| && 0 <= i < |ns| && 0 <= x < |ns|
    requires x != i && x !in l
    ensures Spliced(ns, l, k, i)[x] == ns[x]
  {
  }

  lemma SplicedLinks(ns: seq<SlabNode>, l: seq<i32>, k: int, i: i32)
    requires Indices(ns, l) && Forward(ns, l) && Backward(ns, l)
    requires 0 <= k <= |l| && 0 <= i < |ns| && i !in l
    ensures Indices(Spliced(ns, l, k, i), Inserted(l, k, i))
    ensures Forward(Spliced(ns, l, k, i), Inserted(l, k, i))
    ensures Backward(Spliced(ns, l, k, i), Inserted(l, k, i))
  {
    var ns', l' := Spliced(ns, l, k, i), Inserted(l, k, i);
    InsertIndices(ns, l, k, i);
    forall m | 0 <= m < |l'|
      ensures NodeAt(ns', l', m).next == NextOf(l', m) && NodeAt(ns', l', m).prev == PrevOf(l', m)
    {
      SplicedAt(ns, l, k, i, m);
      InsertedAt(l, k, i, m);
      if m + 1 < |l'| {
        InsertedAt(l, k, i, m + 1);
      }
      if m > 0 {
        InsertedAt(l, k, i, m - 1);
      }
    }
  }

  /** One pair of positions of the list after inserting at the position
      `InsertFrom` chooses is still in order. */
  lemma SplicedPair(ns: seq<SlabNode>, l: seq<i32>, k: int, i: i32, isBid: bool, a: int, b: int)
    requires Indices(ns, l) && Sorted(ns, l, isBid) && 0 <= i < |ns| && i !in l
    requires k == InsertFrom(ns, l, ns[i].key, isBid, 0)
    requires 0 <= a < b <= |l|
    ensures Ordered(isBid, KeyAt(Spliced(ns, l, k, i), Inserted(l, k, i), a), KeyAt(Spliced(ns, l, k, i), Inserted(l, k, i), b))
  {
    SplicedAt(ns, l, k, i, a);
    SplicedAt(ns, l, k, i, b);
    if b < k {
      assert Ordered(isBid, KeyAt(ns, l, a), KeyAt(ns, l, b));
    } else if b == k {
      assert !Better(isBid, ns[i].key, KeyAt(ns, l, a));
    } else if a < k {
      assert !Better(isBid, ns[i].key, KeyAt(ns, l, a));
      assert Ordered(isBid, KeyAt(ns, l, a), KeyAt(ns, l, b - 1));
    } else if a == k {
      assert Better(isBid, ns[i].key, KeyAt(ns, l, k));
      assert Ordered(isBid, KeyAt(ns, l, k), KeyAt(ns, l, b - 1));
    } else {
      assert Ordered(isBid, KeyAt(ns, l, a - 1), KeyAt(ns, l, b - 1));
    }
  }

  lemma SplicedSorted(ns: seq<SlabNode>, l: seq<i32>, k: int, i: i32, isBid: bool)
    requires Indices(ns, l) && Sorted(ns, l, isBid) && 0 <= i < |ns| && i !in l
    requires k == InsertFrom(ns, l, ns[i].key, isBid, 0)
    ensures Sorted(Spliced(ns, l, k, i), Inserted(l, k, i), isBid)
  {
    forall a, b | 0 <= a < b < |Inserted(l, k, i)|
      ensures Ordered(isBid, KeyAt(Spliced(ns, l, k, i), Inserted(l, k, i), a), KeyAt(Spliced(ns, l, k, i), Inserted(l, k, i), b))
    {
      SplicedPair(ns, l, k, i, isBid, a, b);
    }
  }

  /** slab_insert_node on a well-formed slab: the node joins the list at the
      first position whose key it beats, and nothing else is disturbed. */
  lemma SplicedWf(ns: seq<SlabNode>, head: int, head': int, l: seq<i32>, freeHead: int, f: seq<i32>,
                  isBid: bool, k: int, i: i32)
    requires Wf(ns, head, l, freeHead, f, isBid)
    requires 0 <= i < |ns| && i !in l && i !in f && ns[i].occupied
    requires k == InsertFrom(ns, l, ns[i].key, isBid, 0)
    requires head' == if k == 0 then i else head
    ensures Wf(Spliced(ns, l, k, i), head', Inserted(l, k, i), freeHead, f, isBid)
  {
    var ns', l' := Spliced(ns, l, k, i), Inserted(l, k, i);
    SplicedLinks(ns, l, k, i);
    SplicedSorted(ns, l, k, i, isBid);
    forall b | 0 <= b < |f|
      ensures NodeAt(ns', f, b) == NodeAt(ns, f, b)
    {
      assert f[b] !in l;
      SplicedOutside(ns, l, k, i, f[b]);
    }
    forall m | 0 <= m < |l'|
      ensures NodeAt(ns', l', m).occupied && l'[m] !in f
    {
      SplicedAt(ns, l, k, i, m);
      InsertedAt(l, k, i, m);
    }
    if k > 0 {
      InsertedAt(l, k, i, 0);
    }
  }

  lemma SplicedSameButLinks(ns: seq<SlabNode>, l: seq<i32>, k: int, i: i32)
    requires Indices(ns, l) && 0 <= k <= |l| && 0 <= i < |ns| && i !in l
    ensures forall j :: 0 <= j < |ns| ==> SameButLinks(ns[j], Spliced(ns, l, k, i)[j])
  {
  }

  lemma CutAt(ns: seq<SlabNode>, l: seq<i32>, k: int, m: int)
    requires Indices(ns, l) && 0 <= k < |l| && 0 <= m < |l| - 1
    ensures var ns', l' := Cut(ns, l, k), Without(l, k);
      |ns'| == |ns| &&
      (m < k - 1 ==> NodeAt(ns', l', m) == NodeAt(ns, l, m)) &&
      (m == k - 1 ==> NodeAt(ns', l', m) == NodeAt(ns, l, m).(next := NextOf(l, k))) &&
      (m == k ==> NodeAt(ns', l', m) == NodeAt(ns, l, m + 1).(prev := PrevOf(l, k))) &&
      (m > k ==> NodeAt(ns', l', m) == NodeAt(ns, l, m + 1))
  {
    WithoutAt(l, k, m);
  }

  lemma CutOutside(ns: seq<SlabNode>, l: seq<i32>, k: int, x: int)
    requires Indices(ns, l) && 0 <= k < |l| && 0 <= x < |ns|
    requires forall m :: 0 <= m < |l| && m != k ==> l[m] != x
    ensures Cut(ns, l, k)[x] == ns[x]
  {
  }

  lemma CutLinks(ns: seq<SlabNode>, l: seq<i32>, k: int)
    requires Indices(ns, l) && Forward(ns, l) && Backward(ns, l) && 0 <= k < |l|
    ensures Indices(Cut(ns, l, k), Without(l, k))
    ensures Forward(Cut(ns, l, k), Without(l, k)) && Backward(Cut(ns, l, k), Without(l, k))
  {
    var ns', l' := Cut(ns, l, k), Without(l, k);
    forall a, b | 0 <= a < b < |l'|
      ensures l'[a] != l'[b]
    {
      WithoutAt(l, k, a);
      WithoutAt(l, k, b);
    }
    forall m | 0 <= m < |l'|
      ensures 0 <= l'[m] < |ns'| && NodeAt(ns', l', m).next == NextOf(l', m) && NodeAt(ns', l', m).prev == PrevOf(l', m)
    {
      WithoutAt(l, k, m);
      CutAt(ns, l, k, m);
      if m + 1 < |l'| {
        WithoutAt(l, k, m + 1);
      }
      if m > 0 {
        WithoutAt(l, k, m - 1);
      }
    }
  }

  lemma CutSorted(ns: seq<SlabNode>, l: seq<i32>, k: int, isBid: bool)
    requires Indices(ns, l) && Sorted(ns, l, isBid) && 0 <= k < |l|
    ensures Sorted(Cut(ns, l, k), Without(l, k), isBid)
  {
    var ns', l' := Cut(ns, l, k), Without(l, k);
    forall m | 0 <= m < |l'|
      ensures KeyAt(ns', l', m) == KeyAt(ns, l, if m < k then m else m + 1)
    {
      CutAt(ns, l, k, m);
    }
    forall a, b | 0 <= a < b < |l'|
      ensures Ordered(isBid, KeyAt(ns', l', a), KeyAt(ns', l', b))
    {
      assert Ordered(isBid, KeyAt(ns, l, if a < k then a else a + 1), KeyAt(ns, l, if b < k then b else b + 1));
    }
  }

  /** Unlinking position `k` leaves the other nodes threaded and sorted in
      their old order; the unlinked node itself is untouched. */
  lemma CutWf(ns: seq<SlabNode>, head: int, l: seq<i32>, freeHead: int, f: seq<i32>, isBid: bool, k: int)
    requires Wf(ns, head, l, freeHead, f, isBid) && 0 <= k < |l|
    ensures Wf(Cut(ns, l, k), if k == 0 then NextOf(l, 0) else head, Without(l, k), freeHead, f, isBid)
    ensures Cut(ns, l, k)[l[k]] == ns[l[k]] && l[k] !in Without(l, k)
  {
    var ns', l' := Cut(ns, l, k), Without(l, k);
    CutLinks(ns, l, k);
    CutSorted(ns, l, k, isBid);
    forall m | 0 <= m < |l'|
      ensures NodeAt(ns', l', m).occupied && l'[m] !in f && l'[m] != l[k]
    {
      WithoutAt(l, k, m);
      CutAt(ns, l, k, m);
    }
    forall b | 0 <= b < |f|
      ensures NodeAt(ns', f, b) == NodeAt(ns, f, b)
    {
      CutOutside(ns, l, k, f[b]);
    }
    CutOutside(ns, l, k, l[k]);
    if |l'| > 0 {
      WithoutAt(l, k, 0);
    }
  }

  /** free_a_node on a detached slot pushes it on the free list. */
  lemma FreedWf(ns: seq<SlabNode>, head: int, l: seq<i32>, freeHead: i32, f: seq<i32>, isBid: bool, i: i32)
    requires Wf(ns, head, l, freeHead, f, isBid)
    requires 0 <= i < |ns| && i !in l && i !in f
    ensures Wf(ns[i := Freed(ns[i], freeHead)], head, l, i, [i] + f, isBid)
  {
    var ns', f' := ns[i := Freed(ns[i], freeHead)], [i] + f;
    WfFrame(ns, ns', head, l, freeHead, f, isBid);
    forall m | 0 <= m < |f'|
      ensures f'[m] == if m == 0 then i else f[m - 1]
      ensures NodeAt(ns', f', m) == if m == 0 then Freed(ns[i], freeHead) else NodeAt(ns, f, m - 1)
    {
    }
  }

  /** allocate_node's free-list path: the slot leaves the free list. */
  lemma PoppedWf(ns: seq<SlabNode>, head: int, l: seq<i32>, freeHead: int, f: seq<i32>, isBid: bool)
    requires Wf(ns, head, l, freeHead, f, isBid) && |f| > 0
    ensures Wf(ns[f[0] := ns[f[0]].(next := -1)], head, l, ns[f[0]].next, f[1..], isBid)
    ensures f[0] !in l && f[0] !in f[1..]
  {
    var ns', f' := ns[f[0] := ns[f[0]].(next := -1)], f[1..];
    assert NodeAt(ns, f, 0).next == NextOf(f, 0);
    forall m | 0 <= m < |f'|
      ensures f'[m] == f[m + 1] && NodeAt(ns, f', m) == NodeAt(ns, f, m + 1) && f'[m] != f[0]
    {
    }
    assert Wf(ns, head, l, ns[f[0]].next, f', isBid);
    WfFrame(ns, ns', head, l, ns[f[0]].next, f', isBid);
  }

  /** allocate_node's scan path: an unoccupied slot is neither listed nor
      free, since the free list is empty. */
  lemma ClaimedWf(ns: seq<SlabNode>, head: int, l: seq<i32>, isBid: bool, i: i32)
    requires Wf(ns, head, l, -1, [], isBid) && 0 <= i < |ns| && !ns[i].occupied
    ensures Wf(ns[i := ns[i].(occupied := true)], head, l, -1, [], isBid) && i !in l
  {
    assert forall k :: 0 <= k < |l| ==> NodeAt(ns, l, k) == ns[l[k]];
    WfFrame(ns, ns[i := ns[i].(occupied := true)], head, l, -1, [], isBid);
  }

  /** A write to a slot on neither thread keeps the slab well formed and
      moves no insertion point. */
  lemma DetachedWrite(ns: seq<SlabNode>, head: int, l: seq<i32>, freeHead: int, f: seq<i32>, isBid: bool,
                      i: int, v: SlabNode, key: u128)
    requires Wf(ns, head, l, freeHead, f, isBid) && 0 <= i < |ns| && i !in l && i !in f
    ensures Wf(ns[i := v], head, l, freeHead, f, isBid)
    ensures InsertFrom(ns[i := v], l, key, isBid, 0) == InsertFrom(ns, l, key, isBid, 0)
  {
    WfFrame(ns, ns[i := v], head, l, freeHead, f, isBid);
    assert forall k :: 0 <= k < |l| ==> KeyAt(ns[i := v], l, k) == KeyAt(ns, l, k);
    InsertFromSameKeys(ns, ns[i := v], l, key, isBid, 0);
  }

  /** Insertion points depend on the listed keys only. */
  lemma {:induction false} InsertFromSameKeys(ns: seq<SlabNode>, ns': seq<SlabNode>, l: seq<i32>, key: u128, isBid: bool, i: nat)
    requires i <= |l|
    requires forall k :: 0 <= k < |l| ==> KeyAt(ns', l, k) == KeyAt(ns, l, k)
    ensures InsertFrom(ns', l, key, isBid, i) == InsertFrom(ns, l, key, isBid, i)
    decreases |l| - i
  {
    if i < |l| {
      InsertFromSameKeys(ns, ns', l, key, isBid, i + 1);
    }
  }

  /** A listed slot is not on the free list. */
  lemma ListedNotFree(ns: seq<SlabNode>, head: int, l: seq<i32>, freeHead: int, f: seq<i32>, isBid: bool, k: int)
    requires Wf(ns, head, l, freeHead, f, isBid) && 0 <= k < |l|
    ensures l[k] !in f
  {
  }

  // ---------------------------------------------------------------------
  // The slab account

  class Slab {
    var isBid: bool
    var nodeCount: u32
    var freeHead: i32
    var headIndex: i32
    const nodes: array<SlabNode>
    var bump: u8

    /** The price list and the free list, in thread order. */
    ghost var list: seq<i32>
    ghost var free: seq<i32>

    ghost predicate Valid()
      reads this, nodes
    {
      nodes.Length == MAX_SLAB_NODES &&
      Wf(nodes[..], headIndex, list, freeHead, free, isBid)
    }

    /** A slab holding no node, on either list; the program itself never
        resets this slab type, so this is the state its handlers are
        assumed to start from. */
    constructor (bid: bool)
      ensures Valid() && fresh(nodes)
      ensures isBid == bid && list == [] && free == [] && nodeCount == 0
      ensures forall i :: 0 <= i < nodes.Length ==> !nodes[i].occupied
    {
      isBid, nodeCount, freeHead, headIndex, bump := bid, 0, -1, -1, 0;
      nodes := new SlabNode[MAX_SLAB_NODES](_ => SlabNode(0, DEFAULT_KEY, 0, 0, -1, -1, 0, false, 0, 0, Yes));
      list, free := [], [];
    }

    /** find_best_node_index: the head of the list, which is the best node:
        no listed key beats it. */
    function FindBestNodeIndex(): (r: Result<i32>)
      reads this, nodes
      requires Valid()
      ensures r.Ok? && (r.value == -1 <==> list == [])
      ensures list != [] ==> (r.value == list[0] &&
        forall k :: 0 <= k < |list| ==> Ordered(isBid, nodes[r.value].key, KeyAt(nodes[..], list, k)))
    {
      assert list != [] ==> KeyAt(nodes[..], list, 0) == nodes[list[0]].key;
      Ok(headIndex)
    }

    /** allocate_node. With a free list it hands out `free_head` and
        advances it, clearing the slot's `next` but leaving `occupied` as it
        was; the count is checked only after those writes. Without one it
        claims the lowest unoccupied slot. MathError when the count would
        overflow u32 or when every slot is occupied. */
    method AllocateNode() returns (r: Result<i32>)
      requires Valid()
      modifies this`freeHead, this`nodeCount, this`free, nodes
      ensures Valid() && list == old(list)
      ensures r.Ok? ==> (0 <= r.value < nodes.Length && r.value !in list && r.value !in free &&
                         nodeCount == old(nodeCount) + 1)
      ensures r.Err? ==> r.error == MathError
      ensures old(freeHead) != -1 ==>
        (r.Ok? <==> old(nodeCount) + 1 < U32_LIMIT) &&
        (r.Ok? ==> r.value == old(freeHead)) &&
        free == old(free)[1..] && freeHead == old(nodes[freeHead].next) &&
        nodes[..] == old(nodes[..])[old(freeHead) := old(nodes[freeHead]).(next := -1)]
      ensures old(freeHead) == -1 ==>
        freeHead == -1 && free == [] &&
        (r.Ok? <==> old(nodeCount) + 1 < U32_LIMIT && exists i :: 0 <= i < nodes.Length && !old(nodes[i].occupied)) &&
        (r.Ok? ==> !old(nodes[r.value].occupied) &&
                   (forall j :: 0 <= j < r.value ==> old(nodes[j].occupied)) &&
                   nodes[..] == old(nodes[..])[r.value := old(nodes[r.value]).(occupied := true)]) &&
        (r.Err? ==> nodes[..] == old(nodes[..]) && nodeCount == old(nodeCount))
    {
      if freeHead != EMPTY_INDEX {
        ghost var ns0 := nodes[..];
        PoppedWf(ns0, headIndex, list, freeHead, free, isBid);
        var index := freeHead;
        var node := nodes[index];
        free := free[1..];
        freeHead := node.next;
        nodes[index] := node.(next := EMPTY_INDEX);
        if nodeCount + 1 >= U32_LIMIT {
          return Err(MathError);
        }
        nodeCount := nodeCount + 1;
        return Ok(index);
      }
      ghost var ns0 := nodes[..];
      for i := 0 to MAX_SLAB_NODES
        invariant forall j :: 0 <= j < i ==> nodes[j].occupied
      {
        if !nodes[i].occupied {
          if nodeCount + 1 >= U32_LIMIT {
            return Err(MathError);
          }
          ClaimedWf(ns0, headIndex, list, isBid, i);
          nodeCount := nodeCount + 1;
          nodes[i] := nodes[i].(occupied := true);
          return Ok(i);
        }
      }
      return Err(MathError);
    }

    /** free_a_node: clears the slot (see `Freed`), pushes it on the front
        of the free list, then decrements the count, with MathError at 0.
        It does not unlink the slot from the price list: `head_index` and
        every other slot are left as they were. An index outside the array
        aborts. */
    method FreeANode(index: i32) returns (r: Result<()>)
      modifies this`freeHead, this`nodeCount, this`free, nodes
      ensures !(0 <= index < nodes.Length) ==>
        r == Err(Panic) && nodes[..] == old(nodes[..]) && freeHead == old(freeHead) && nodeCount == old(nodeCount)
      ensures 0 <= index < nodes.Length ==>
        nodes[..] == old(nodes[..])[index := Freed(old(nodes[index]), old(freeHead))] &&
        freeHead == index && free == [index] + old(free) &&
        (r.Ok? <==> old(nodeCount) > 0) && (r.Ok? ==> nodeCount == old(nodeCount) - 1) &&
        (r.Err? ==> r.error == MathError)
      ensures old(Valid()) && index !in old(list) && index !in old(free) ==> Valid()
    {
      if !(0 <= index < nodes.Length) {
        return Err(Panic);
      }
      ghost var ns0 := nodes[..];
      if Valid() && index !in list && index !in free {
        FreedWf(ns0, headIndex, list, freeHead, free, isBid, index);
      }
      free := [index] + free;
      nodes[index] := Freed(nodes[index], freeHead);
      freeHead := index;
      if nodeCount == 0 {
        return Err(MathError);
      }
      nodeCount := nodeCount - 1;
      return Ok(());
    }

    /** find_matching_node: walks the list from the head and returns the
        first node whose key is >= `crossingPrice` on a bid slab or <= it on
        an ask slab (`isBidSlab` is the caller's flag, not `is_bid`); None
        on an empty list or when no node crosses. */
    method FindMatchingNode(crossingPrice: u128, isBidSlab: bool) returns (r: Option<i32>)
      requires Valid()
      ensures var k := MatchFrom(nodes[..], list, crossingPrice, isBidSlab, 0);
        r == if k < |list| then Some(list[k] as i32) else None
    {
      var index := headIndex;
      if index == EMPTY_INDEX {
        return None;
      }
      ghost var k := 0;
      while index != EMPTY_INDEX
        invariant 0 <= k <= |list|
        invariant index == if k < |list| then list[k] else -1
        invariant MatchFrom(nodes[..], list, crossingPrice, isBidSlab, 0) == MatchFrom(nodes[..], list, crossingPrice, isBidSlab, k)
        decreases |list| - k
      {
        var node := nodes[index];
        assert KeyAt(nodes[..], list, k) == node.key;
        if isBidSlab {
          if node.key >= crossingPrice {
            return Some(index);
          }
        } else {
          if node.key <= crossingPrice {
            return Some(index);
          }
        }
        index := node.next;
        k := k + 1;
      }
      return None;
    }

    /** slab_insert_node: links a detached, occupied node into the list at
        the first position whose key it strictly beats (higher for bids,
        lower for asks), so equal keys stay ahead of it; at the end if none.
        Only links change, and the list grows by exactly this node. An
        index outside the array aborts. */
    method SlabInsertNode(nodeIndex: i32) returns (r: Result<()>)
      requires Valid()
      requires nodeIndex !in list && nodeIndex !in free
      requires 0 <= nodeIndex < nodes.Length ==> nodes[nodeIndex].occupied
      modifies this`headIndex, this`list, nodes
      ensures Valid()
      ensures !(0 <= nodeIndex < nodes.Length) ==> r == Err(Panic) && unchanged(this, nodes)
      ensures 0 <= nodeIndex < nodes.Length ==> (r == Ok(()) &&
        var k := InsertFrom(old(nodes[..]), old(list), old(nodes[nodeIndex].key), isBid, 0);
        list == Inserted(old(list), k, nodeIndex) &&
        nodes[..] == Spliced(old(nodes[..]), old(list), k, nodeIndex))
      ensures forall j :: 0 <= j < nodes.Length ==> SameButLinks(old(nodes[j]), nodes[j])
    {
      if !(0 <= nodeIndex < nodes.Length) {
        return Err(Panic);
      }
      ghost var ns0, l0 := nodes[..], list;
      var key := nodes[nodeIndex].key;
      ghost var pos := InsertFrom(ns0, l0, key, isBid, 0);
      if headIndex == EMPTY_INDEX {
        LinkOnly(nodeIndex);
        SplicedSameButLinks(ns0, l0, 0, nodeIndex);
        return Ok(());
      }
      var current := headIndex;
      var previous := EMPTY_INDEX;
      ghost var k := 0;
      while current != EMPTY_INDEX
        invariant 0 <= k <= |l0| && k <= pos
        invariant current == if k < |l0| then l0[k] else -1
        invariant previous == PrevOf(l0, k)
        invariant InsertFrom(ns0, l0, key, isBid, 0) == InsertFrom(ns0, l0, key, isBid, k)
        decreases |l0| - k
      {
        var curKey := nodes[current].key;
        assert KeyAt(ns0, l0, k) == curKey;
        var shouldInsertBefore := if isBid then IsHigher(key, curKey) else IsLower(key, curKey);
        if shouldInsertBefore {
          LinkBefore(nodeIndex, current, k);
          SplicedSameButLinks(ns0, l0, k, nodeIndex);
          return Ok(());
        }
        previous := current;
        current := nodes[current].next;
        k := k + 1;
      }
      LinkLast(nodeIndex, previous);
      SplicedSameButLinks(ns0, l0, |l0|, nodeIndex);
      return Ok(());
    }

    /** What slab_insert_node needs of the node it links in. */
    ghost predicate Ready(i: i32)
      reads this, nodes
    {
      Valid() && 0 <= i < nodes.Length && i !in list && i !in free && nodes[i].occupied
    }

    /** slab_insert_node on an empty list (utils.rs:89-94). */
    method LinkOnly(nodeIndex: i32)
      requires Ready(nodeIndex) && headIndex == EMPTY_INDEX
      modifies this`headIndex, this`list, nodes
      ensures list == Inserted(old(list), 0, nodeIndex) && nodes[..] == Spliced(old(nodes[..]), old(list), 0, nodeIndex)
      ensures Valid() && InsertFrom(old(nodes[..]), old(list), old(nodes[nodeIndex].key), isBid, 0) == 0
    {
      ghost var ns0, l0 := nodes[..], list;
      SplicedWf(ns0, headIndex, nodeIndex, l0, freeHead, free, isBid, 0, nodeIndex);
      list := [nodeIndex];
      headIndex := nodeIndex;
      nodes[nodeIndex] := nodes[nodeIndex].(prev := EMPTY_INDEX);
      nodes[nodeIndex] := nodes[nodeIndex].(next := EMPTY_INDEX);
      assert list == Inserted(l0, 0, nodeIndex);
      assert nodes[..] == Spliced(ns0, l0, 0, nodeIndex);
    }

    /** slab_insert_node's insertion before the first node `current` (at
        position `k`) whose key the new one beats (utils.rs:108-118). */
    method LinkBefore(nodeIndex: i32, current: i32, ghost k: nat)
      requires Ready(nodeIndex) && k < |list| && list[k] == current
      requires k == InsertFrom(nodes[..], list, nodes[nodeIndex].key, isBid, 0)
      modifies this`headIndex, this`list, nodes
      ensures list == Inserted(old(list), k, nodeIndex) && nodes[..] == Spliced(old(nodes[..]), old(list), k, nodeIndex)
      ensures Valid()
    {
      ghost var ns0, l0 := nodes[..], list;
      assert NodeAt(ns0, l0, k) == nodes[current];
      SplicedWf(ns0, headIndex, if k == 0 then nodeIndex else headIndex, l0, freeHead, free, isBid, k, nodeIndex);
      list := Inserted(l0, k, nodeIndex);
      nodes[nodeIndex] := nodes[nodeIndex].(next := current);
      nodes[nodeIndex] := nodes[nodeIndex].(prev := nodes[current].prev);
      if nodes[current].prev != EMPTY_INDEX {
        var p := nodes[current].prev;
        nodes[p] := nodes[p].(next := nodeIndex);
      } else {
        headIndex := nodeIndex;
      }
      nodes[current] := nodes[current].(prev := nodeIndex);
      assert nodes[..] == Spliced(ns0, l0, k, nodeIndex);
    }

    /** slab_insert_node's append after the last node `previous`
        (utils.rs:126-128). */
    method LinkLast(nodeIndex: i32, previous: i32)
      requires Ready(nodeIndex) && |list| > 0 && previous == list[|list| - 1]
      requires InsertFrom(nodes[..], list, nodes[nodeIndex].key, isBid, 0) == |list|
      modifies this`list, nodes
      ensures list == Inserted(old(list), |old(list)|, nodeIndex)
      ensures nodes[..] == Spliced(old(nodes[..]), old(list), |old(list)|, nodeIndex)
      ensures Valid()
    {
      ghost var ns0, l0 := nodes[..], list;
      SplicedWf(ns0, headIndex, headIndex, l0, freeHead, free, isBid, |l0|, nodeIndex);
      list := Inserted(l0, |l0|, nodeIndex);
      nodes[previous] := nodes[previous].(next := nodeIndex);
      nodes[nodeIndex] := nodes[nodeIndex].(prev := previous);
      nodes[nodeIndex] := nodes[nodeIndex].(next := EMPTY_INDEX);
      assert nodes[..] == Spliced(ns0, l0, |l0|, nodeIndex);
    }

    /** The unlinking both legacy handlers do before `free_a_node`
        (place_limit_order.rs:153-164, cancel_order.rs:69-79): the
        predecessor's `next` (or `head_index`) takes the node's `next`, the
        successor's `prev` takes its `prev`. The node itself is untouched. */
    method Unlink(index: i32, ghost k: nat)
      requires Valid() && k < |list| && list[k] == index
      modifies this`headIndex, this`list, nodes
      ensures list == Without(old(list), k)
      ensures nodes[..] == Cut(old(nodes[..]), old(list), k)
      ensures Valid()
      ensures nodes[index] == old(nodes[index])
      ensures old(list)[k] !in list
    {
      ghost var ns0, l0 := nodes[..], list;
      CutWf(ns0, headIndex, l0, freeHead, free, isBid, k);
      var node := nodes[index];
      assert NodeAt(ns0, l0, k) == node;
      var prev, next := node.prev, node.next;
      assert (prev != EMPTY_INDEX) == (k > 0) && (next != EMPTY_INDEX) == (k + 1 < |l0|);
      ghost var s1 := if k > 0 then ns0[l0[k - 1] := ns0[l0[k - 1]].(next := NextOf(l0, k))] else ns0;
      list := Without(l0, k);
      if prev != EMPTY_INDEX {
        nodes[prev] := nodes[prev].(next := next);
      } else {
        headIndex := next;
      }
      assert nodes[..] == s1;
      if next != EMPTY_INDEX {
        nodes[next] := nodes[next].(prev := prev);
      }
      assert nodes[..] == Cut(ns0, l0, k);
    }
  }
}
