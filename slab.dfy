/** The arena order book of one side of a market (utils/slab.rs over the
    `Slab` account of state/order_book.rs). Price levels live in a fixed
    array of `PriceNode`s linked into a red-black tree by `i32` indices,
    with -1 as null; the resting orders of a level form a singly linked
    FIFO chain through a second fixed array of `OrderEntry`s.

    The ghost fields describe the tree and the chains: `io` is the in-order
    sequence of occupied price nodes, `sp` their spans (see SlabTree) and
    `chains[i]` the order entries of price node `i`, head first. */
module ArenaSlab {
  import opened Common
  import opened BookState
  import opened SlabTree
  import opened SlabChains
  import opened SlabFixup
  import opened SlabAttach
  import opened SlabRemoval
  import opened SlabDelete

  /** A book read off a sorted in-order sequence is ascending. */
  lemma SortedBook(ns: seq<PriceNode>, es: seq<OrderEntry>, io: seq<int>, cs: seq<seq<int>>)
    requires Sorted(ns, io) && Chains(ns, es, cs) && forall k :: 0 <= k < |io| ==> 0 <= io[k] < |ns|
    ensures Ascending(BookOf(ns, es, io, cs))
  {
    var b := BookOf(ns, es, io, cs);
    forall a, c | 0 <= a < c < |b|
      ensures b[a].price < b[c].price
    {
      SortedAt(ns, io, a, c);
    }
  }

  /** The book after insert_price_node_by_tree claimed slot `z` for
      `price`, attached it at gap `k` and rebalanced: the old levels with an
      empty one at `price` in its place. */
  lemma InsertBook(ns0: seq<PriceNode>, ns1: seq<PriceNode>, ns: seq<PriceNode>, es: seq<OrderEntry>,
                   cs0: seq<seq<int>>, io0: seq<int>, z: i32, price: u128, k: nat)
    requires 0 <= z < |ns0| && |cs0| == |ns0| && ns1 == ns0[z := PriceNode(true, price, -1, -1, -1, -1, -1, RED)]
    requires Chains(ns0, es, cs0) && Chains(ns1, es, cs0[z := []]) && SameEntries(ns1, ns)
    requires forall j :: 0 <= j < |io0| ==> 0 <= io0[j] < |ns0| && io0[j] != z
    requires k <= |io0|
    requires forall j :: 0 <= j < k ==> ns0[io0[j]].key < price
    requires forall j :: k <= j < |io0| ==> ns0[io0[j]].key > price
    ensures Chains(ns, es, cs0[z := []])
    ensures forall j :: 0 <= j < k + 1 + (|io0| - k) ==> 0 <= (io0[..k] + [z] + io0[k..])[j] < |ns|
    ensures BookOf(ns, es, io0[..k] + [z] + io0[k..], cs0[z := []]) == WithLevel(BookOf(ns0, es, io0, cs0), price)
  {
    ChainsFrame(ns1, es, ns, es, cs0[z := []]);
    var io := io0[..k] + [z] + io0[k..];
    assert forall j :: 0 <= j < |io| ==> io[j] == if j < k then io0[j] else if j == k then z else io0[j - 1];
    BookOfInsert(ns0, es, cs0, ns, cs0[z := []], io0, z, k);
    BelowSplit(BookOf(ns0, es, io0, cs0), price, k);
  }

  /** Recolouring and rotating leave the keys and the chains, so the book. */
  lemma BookOfRecolor(ns: seq<PriceNode>, ns': seq<PriceNode>, es: seq<OrderEntry>, cs: seq<seq<int>>, io: seq<int>)
    requires Chains(ns, es, cs) && SameEntries(ns, ns')
    requires forall j :: 0 <= j < |io| ==> 0 <= io[j] < |ns|
    ensures Chains(ns', es, cs)
    ensures BookOf(ns', es, io, cs) == BookOf(ns, es, io, cs)
  {
    ChainsFrame(ns, es, ns', es, cs);
    BookOfFrame(ns, es, cs, ns', es, cs, io);
  }

  /** The book after remove_price_node took the node at position `r` out
      of the in-order sequence and emptied its chain: the old levels
      without the one at that node's key. */
  lemma RemoveBook(ns: seq<PriceNode>, ns': seq<PriceNode>, es: seq<OrderEntry>, cs: seq<seq<int>>, io: seq<int>, r: nat)
    requires Chains(ns, es, cs) && r < |io| && |ns'| == |ns|
    requires forall j :: 0 <= j < |io| ==> 0 <= io[j] < |ns|
    requires forall j :: 0 <= j < |io| && j != r ==> io[j] != io[r] && ns'[io[j]].key == ns[io[j]].key
    requires Chains(ns', es, cs[io[r] := []]) && Ascending(BookOf(ns, es, io, cs))
    ensures forall j :: 0 <= j < |io| - 1 ==> 0 <= Without(io, r)[j] < |ns'|
    ensures BookOf(ns', es, Without(io, r), cs[io[r] := []]) == WithoutLevel(BookOf(ns, es, io, cs), ns[io[r]].key)
  {
    var b := BookOf(ns, es, io, cs);
    var io' := Without(io, r);
    var b' := BookOf(ns', es, io', cs[io[r] := []]);
    var key := ns[io[r]].key;
    BelowAscending(b, key);
    var m := Below(b, key);
    assert b[r].price == key;
    assert forall j :: 0 <= j < r ==> b[j].price < key;
    assert m < |b| ==> b[m].price >= key;
    assert m == r;
    forall j | 0 <= j < |b'|
      ensures b'[j] == (b[..r] + b[r + 1..])[j]
    {
      var j0 := if j < r then j else j + 1;
      assert io'[j] == io[j0];
    }
  }

  /** The chains and the book after remove_price_node: the chain of `z`
      is dropped, and the book is the old one without the level at the key
      of `z`. `ns1` is the array after the unlinking, `ns2` after the fixup. */
  lemma RemovedBook(ns0: seq<PriceNode>, ns1: seq<PriceNode>, ns2: seq<PriceNode>, es: seq<OrderEntry>,
                    cs0: seq<seq<int>>, root: int, io0: seq<int>, sp0: map<int, Span>, z: int)
    requires Tree(ns0, root, io0, sp0) && Sorted(ns0, io0) && Chains(ns0, es, cs0) && z in sp0 && 0 <= z < |ns0|
    requires SameEntries(ns0[z := EMPTY_PRICE_NODE], ns1) && SameEntries(ns1, ns2)
    ensures sp0[z].at < |io0| && Chains(ns2, es, cs0[z := []])
    ensures forall k :: 0 <= k < |io0| ==> 0 <= io0[k] < |ns0|
    ensures forall j :: 0 <= j < |io0| - 1 ==> 0 <= Without(io0, sp0[z].at)[j] < |ns2|
    ensures BookOf(ns2, es, Without(io0, sp0[z].at), cs0[z := []]) == WithoutLevel(BookOf(ns0, es, io0, cs0), ns0[z].key)
  {
    var r := sp0[z].at;
    TreeInRange(ns0, root, io0, sp0);
    InOrderDistinct(ns0, root, io0, sp0, r);
    ChainsReset(ns0, es, ns1, cs0, z);
    SortedBook(ns0, es, io0, cs0);
    RemoveBook(ns0, ns1, es, cs0, io0, r);
    BookOfRecolor(ns1, ns2, es, cs0[z := []], Without(io0, r));
  }

  class Slab {

    var isBid: bool
    var nodeCount: u64
    var freePriceNodeHead: i32
    var freeOrderEntryHead: i32
    var root: i32
    var priceNodes: array<PriceNode>
    var orderEntries: array<OrderEntry>
    var bump: u8

    ghost var io: seq<int>
    ghost var sp: map<int, Span>
    ghost var chains: seq<seq<int>>

    /** The price nodes form a binary search tree on their keys. */
    ghost predicate Shaped()
      reads this`priceNodes, this`root, this`io, this`sp, priceNodes
    {
      0 < priceNodes.Length < I32_LIMIT &&
      Tree(priceNodes[..], root, io, sp) && Sorted(priceNodes[..], io)
    }

    /** An initialized slab: a search tree with a black root, one chain per
        price node, and `nodeCount` the number of occupied price nodes. */
    ghost predicate Valid()
      reads this`priceNodes, this`root, this`io, this`sp, priceNodes
      reads this`orderEntries, this`chains, this`nodeCount, orderEntries
    {
      Shaped() && 0 < orderEntries.Length < I32_LIMIT &&
      Chains(priceNodes[..], orderEntries[..], chains) &&
      nodeCount as int == |io| && RootBlack(priceNodes[..], root)
    }

    /** The book side this slab holds: its price levels in increasing price
        order, each with its resting orders oldest first. */
    ghost function Book(): (b: seq<Level>)
      reads this`priceNodes, this`root, this`io, this`sp, priceNodes
      reads this`orderEntries, this`chains, this`nodeCount, orderEntries
      requires Valid()
      ensures |b| == |io|
    {
      TreeInRange(priceNodes[..], root, io, sp);
      BookOf(priceNodes[..], orderEntries[..], io, chains)
    }

    /** The book is in increasing price order, level `k` carrying the key of
        the `k`-th node in order. */
    lemma BookShape()
      requires Valid()
      ensures Ascending(Book())
      ensures forall k :: 0 <= k < |io| ==> 0 <= io[k] < priceNodes.Length && Book()[k].price == priceNodes[io[k]].key
    {
      TreeInRange(priceNodes[..], root, io, sp);
      SortedBook(priceNodes[..], orderEntries[..], io, chains);
    }

    /** A freshly created, all-zero slab account with room for `priceCapacity`
        price nodes and `entryCapacity` order entries. */
    constructor (priceCapacity: nat, entryCapacity: nat)
      requires 0 < priceCapacity < I32_LIMIT && 0 < entryCapacity < I32_LIMIT
      ensures fresh(priceNodes) && fresh(orderEntries)
      ensures priceNodes.Length == priceCapacity && orderEntries.Length == entryCapacity
      ensures forall i :: 0 <= i < priceCapacity ==> priceNodes[i] == ZERO_PRICE_NODE
      ensures forall i :: 0 <= i < entryCapacity ==> orderEntries[i] == ZERO_ORDER_ENTRY
      ensures !isBid && nodeCount == 0 && freePriceNodeHead == 0 && freeOrderEntryHead == 0 && root == 0 && bump == 0
    {
      priceNodes := new PriceNode[priceCapacity](_ => ZERO_PRICE_NODE);
      orderEntries := new OrderEntry[entryCapacity](_ => ZERO_ORDER_ENTRY);
      isBid, nodeCount, freePriceNodeHead, freeOrderEntryHead, root, bump := false, 0, 0, 0, 0, 0;
      io, sp, chains := [], map[], [];
    }

    /** initialize_slab: every slot is emptied; the result is an empty book. */
    method InitializeSlab(bid: bool, b: u8)
      requires 0 < priceNodes.Length < I32_LIMIT && 0 < orderEntries.Length < I32_LIMIT
      modifies this, priceNodes, orderEntries
      ensures priceNodes == old(priceNodes) && orderEntries == old(orderEntries)
      ensures isBid == bid && bump == b && nodeCount == 0 && root == -1
      ensures freePriceNodeHead == -1 && freeOrderEntryHead == -1
      ensures forall i :: 0 <= i < priceNodes.Length ==> priceNodes[i] == EMPTY_PRICE_NODE
      ensures forall i :: 0 <= i < orderEntries.Length ==> orderEntries[i] == EMPTY_ORDER_ENTRY
      ensures Valid() && Book() == []
    {
      isBid := bid;
      nodeCount := 0;
      freeOrderEntryHead := -1;
      freePriceNodeHead := -1;
      root := -1;
      bump := b;
      for i := 0 to priceNodes.Length
        invariant forall j :: 0 <= j < i ==> priceNodes[j] == EMPTY_PRICE_NODE
        modifies priceNodes
      {
        priceNodes[i] := priceNodes[i].(occupied := false, key := 0, orderHead := -1, orderTail := -1,
                                        left := -1, right := -1, parent := -1, color := 0);
      }
      for i := 0 to orderEntries.Length
        invariant forall j :: 0 <= j < i ==> orderEntries[j] == EMPTY_ORDER_ENTRY
        modifies orderEntries
      {
        orderEntries[i] := orderEntries[i].(occupied := false, nextInPrice := -1, orderId := 0, ownerSlot := 0,
                                            quantity := 0, reservedAmount := 0, openOrderOwner := DEFAULT_KEY);
      }
      io, sp, chains := [], map[], seq(priceNodes.Length, _ => []);
      EmptyTree(priceNodes[..]);
      EmptyChains(priceNodes[..], orderEntries[..]);
    }

    /** set_color: recolors node `i`; the null index is left alone. */
    method SetColor(i: i32, c: u8)
      requires Shaped() && IndexOrNull(priceNodes[..], i)
      modifies priceNodes
      ensures Shaped() && priceNodes[..] == Painted(old(priceNodes[..]), i, c)
      ensures SameEntries(old(priceNodes[..]), priceNodes[..])
    {
      PaintedShape(priceNodes[..], root, io, sp, i, c);
      if i != -1 {
        priceNodes[i] := priceNodes[i].(color := c);
      }
    }

    /** allocate_price_node: claims the lowest unoccupied slot as a red leaf
        with no orders, keeping its old key, and counts it. When no slot is
        free the result is MathError and nothing changes; when the count
        would overflow the result is MathError too, after the slot was
        written (the runtime discards it). */
    method AllocatePriceNode() returns (r: Result<i32>)
      requires 0 < priceNodes.Length < I32_LIMIT
      modifies this`nodeCount, priceNodes
      ensures (forall j :: 0 <= j < priceNodes.Length ==> old(priceNodes[j].occupied)) ==>
        r == Err(MathError) && priceNodes[..] == old(priceNodes[..]) && nodeCount == old(nodeCount)
      ensures (exists j :: 0 <= j < priceNodes.Length && !old(priceNodes[j].occupied)) ==>
        (r.Ok? <==> old(nodeCount) as int + 1 < U64_LIMIT) && (r.Err? ==> r.error == MathError)
      ensures r.Ok? ==> var z := r.value;
        0 <= z < priceNodes.Length && !old(priceNodes[z].occupied) &&
        (forall j :: 0 <= j < z ==> old(priceNodes[j].occupied)) &&
        priceNodes[..] == old(priceNodes[..])[z := PriceNode(true, old(priceNodes[z].key), -1, -1, -1, -1, -1, RED)] &&
        nodeCount == old(nodeCount) + 1
    {
      for i := 0 to priceNodes.Length
        invariant forall j :: 0 <= j < i ==> priceNodes[j].occupied
        invariant priceNodes[..] == old(priceNodes[..]) && nodeCount == old(nodeCount)
      {
        if !priceNodes[i].occupied {
          priceNodes[i] := priceNodes[i].(right := -1, parent := -1, orderTail := -1, orderHead := -1,
                                          occupied := true, left := -1, color := 1);
          if nodeCount as int + 1 >= U64_LIMIT {
            return Err(MathError);
          }
          nodeCount := nodeCount + 1;
          return Ok(i);
        }
      }
      return Err(MathError);
    }

    /** allocate_order_entry: claims the lowest unoccupied entry, which is on
        no chain, so the book does not change. */
    method AllocateOrderEntry() returns (r: Result<i32>)
      requires Valid()
      modifies orderEntries
      ensures Valid() && Book() == old(Book())
      ensures r.Err? <==> forall j :: 0 <= j < orderEntries.Length ==> old(orderEntries[j].occupied)
      ensures r.Err? ==> r.error == MathError && orderEntries[..] == old(orderEntries[..])
      ensures r.Ok? ==> var e := r.value;
        0 <= e < orderEntries.Length && !old(orderEntries[e].occupied) &&
        (forall j :: 0 <= j < e ==> old(orderEntries[j].occupied)) &&
        orderEntries[..] == old(orderEntries[..])[e := old(orderEntries[e]).(occupied := true, nextInPrice := -1)] &&
        Unchained(chains, e)
    {
      for i := 0 to orderEntries.Length
        invariant forall j :: 0 <= j < i ==> orderEntries[j].occupied
        invariant orderEntries[..] == old(orderEntries[..])
      {
        if !orderEntries[i].occupied {
          ghost var es := orderEntries[..];
          UnoccupiedUnchained(priceNodes[..], es, chains, i);
          orderEntries[i] := orderEntries[i].(occupied := true, nextInPrice := -1);
          ChainsClaim(priceNodes[..], es, orderEntries[..], chains, i);
          TreeInRange(priceNodes[..], root, io, sp);
          BookOfFrame(priceNodes[..], es, chains, priceNodes[..], orderEntries[..], chains, io);
          return Ok(i);
        }
      }
      return Err(MathError);
    }

    /** find_price_node_index: the tree descent finds the node holding
        `price`, or reports that no node holds it. */
    method FindPriceNode(price: u128) returns (r: Option<i32>)
      requires Shaped()
      ensures r.Some? ==> r.value in sp && 0 <= r.value < priceNodes.Length && priceNodes[r.value].key == price
      ensures r.None? <==> !HoldsKey(priceNodes[..], io, price)
    {
      TreeInRange(priceNodes[..], root, io, sp);
      var current := root;
      while current != -1
        invariant current == -1 || (current in sp && 0 <= current < priceNodes.Length)
        invariant forall k :: 0 <= k < |io| && priceNodes[io[k]].key == price ==>
          current != -1 && sp[current].lo <= k < sp[current].hi
        decreases if current == -1 then 0 else sp[current].hi - sp[current].lo
      {
        assert NodeOk(priceNodes[..], root, sp, current);
        var at := sp[current].at;
        var currentPrice := priceNodes[current].key;
        if currentPrice == price {
          return Some(current);
        }
        assert io[at] == current;
        SortedAround(priceNodes[..], io, at);
        if price < currentPrice {
          current := priceNodes[current].left;
        } else {
          current := priceNodes[current].right;
        }
      }
      return None;
    }

    /** find_best_price_node_index: the rightmost node of a bid tree holds
        the highest price, the leftmost of an ask tree the lowest. */
    method FindBest() returns (r: Option<i32>)
      requires Shaped()
      ensures r.None? <==> |io| == 0
      ensures r.Some? ==>
        r.value in sp && 0 <= r.value < priceNodes.Length && sp[r.value].at == (if isBid then |io| - 1 else 0)
    {
      TreeInRange(priceNodes[..], root, io, sp);
      if root == -1 {
        return None;
      }
      assert NodeOk(priceNodes[..], root, sp, root);
      var current := root;
      if isBid {
        while priceNodes[current].right != -1
          invariant current in sp && 0 <= current < priceNodes.Length && sp[current].hi == |io|
          decreases |io| - sp[current].lo
        {
          assert NodeOk(priceNodes[..], root, sp, current);
          current := priceNodes[current].right;
        }
      } else {
        while priceNodes[current].left != -1
          invariant current in sp && 0 <= current < priceNodes.Length && sp[current].lo == 0
          decreases sp[current].hi
        {
          assert NodeOk(priceNodes[..], root, sp, current);
          current := priceNodes[current].left;
        }
      }
      assert NodeOk(priceNodes[..], root, sp, current);
      return Some(current);
    }

    /** append_order_to_price: entry `e` joins the back of the FIFO chain of
        price node `p`. A negative `p` is refused with MathError; an index
        out of range aborts. */
    method AppendOrder(p: i32, e: i32) returns (r: Result<()>)
      requires Valid()
      requires 0 <= e < orderEntries.Length ==> orderEntries[e].occupied && Unchained(chains, e)
      modifies this`chains, priceNodes, orderEntries
      ensures Valid()
      ensures p < 0 ==> r == Err(MathError)
      ensures p >= 0 ==> (r.Ok? <==> p < priceNodes.Length && 0 <= e < orderEntries.Length)
      ensures r.Err? && p >= 0 ==> r.error == Panic
      ensures r.Err? ==>
        priceNodes[..] == old(priceNodes[..]) && orderEntries[..] == old(orderEntries[..]) && chains == old(chains)
      ensures r.Ok? ==> chains == old(chains)[p := old(chains[p]) + [e]]
      ensures r.Ok? && p in sp ==> var at := sp[p].at;
        Book() == old(Book())[at := old(Book()[at]).(orders := old(Book()[at].orders) + [RestingOf(old(orderEntries[e]))])]
      ensures r.Ok? && p !in sp ==> Book() == old(Book())
    {
      if p < 0 {
        return Err(MathError);
      }
      if p as int >= priceNodes.Length || e < 0 || e as int >= orderEntries.Length {
        return Err(Panic);
      }
      ghost var ns, es := priceNodes[..], orderEntries[..];
      assert ChainOk(ns, es, p, chains[p]);
      AppendOrderLinks(p, e);
      ChainsAppend(ns, es, priceNodes[..], orderEntries[..], chains, p, e);
      ghost var cs := chains;
      chains := chains[p := chains[p] + [e]];
      TreeFrame(ns, priceNodes[..], root, io, sp);
      SortedFrame(ns, priceNodes[..], io);
      TreeInRange(ns, root, io, sp);
      if p in sp {
        BookOfSet(ns, es, cs, priceNodes[..], orderEntries[..], chains, io, sp[p].at);
      } else {
        BookOfFrame(ns, es, cs, priceNodes[..], orderEntries[..], chains, io);
      }
      r := Ok(());
    }

    /** pop_order_from_prices: the oldest entry of price node `p` leaves its
        chain and is freed; its index is returned. A negative `p` or an empty
        chain is refused with NoMatchingOrder; an index out of range aborts. */
    method PopOrder(p: i32) returns (r: Result<i32>)
      requires Valid()
      modifies this`chains, priceNodes, orderEntries
      ensures Valid()
      ensures p < 0 ==> r == Err(NoMatchingOrder)
      ensures p >= priceNodes.Length ==> r == Err(Panic)
      ensures 0 <= p < priceNodes.Length ==>
        if old(chains[p]) == [] then r == Err(NoMatchingOrder) else r == Ok(old(chains[p][0]))
      ensures r.Err? ==>
        priceNodes[..] == old(priceNodes[..]) && orderEntries[..] == old(orderEntries[..]) && chains == old(chains)
      ensures r.Ok? ==> chains == old(chains)[p := old(chains[p][1..])]
      ensures r.Ok? ==> orderEntries[r.value] == old(orderEntries[r.value]).(occupied := false, nextInPrice := -1)
      ensures r.Ok? && p in sp ==> var at := sp[p].at;
        old(Book()[at].orders) != [] && old(Book()[at].orders[0]) == RestingOf(old(orderEntries[r.value])) &&
        Book() == old(Book())[at := old(Book()[at]).(orders := old(Book()[at].orders[1..]))]
      ensures r.Ok? && p !in sp ==> Book() == old(Book())
    {
      if p < 0 {
        return Err(NoMatchingOrder);
      }
      if p as int >= priceNodes.Length {
        return Err(Panic);
      }
      ghost var ns, es := priceNodes[..], orderEntries[..];
      assert ChainOk(ns, es, p, chains[p]);
      if priceNodes[p].orderHead == -1 {
        return Err(NoMatchingOrder);
      }
      var head := PopOrderLinks(p);
      ChainsPop(ns, es, priceNodes[..], orderEntries[..], chains, p);
      ghost var cs := chains;
      chains := chains[p := chains[p][1..]];
      TreeFrame(ns, priceNodes[..], root, io, sp);
      SortedFrame(ns, priceNodes[..], io);
      TreeInRange(ns, root, io, sp);
      if p in sp {
        BookOfSet(ns, es, cs, priceNodes[..], orderEntries[..], chains, io, sp[p].at);
      } else {
        BookOfFrame(ns, es, cs, priceNodes[..], orderEntries[..], chains, io);
      }
      return Ok(head);
    }

    /** The level the book shows for price node `p` of the tree: the one at
        its in-order position, with its key, whose orders are empty exactly
        when the node's order head is null and otherwise start with the
        head entry. */
    lemma LevelOf(p: int)
      requires Valid() && p in sp
      ensures 0 <= p < priceNodes.Length && sp[p].at < |Book()|
      ensures Book()[sp[p].at].price == priceNodes[p].key
      ensures Book()[sp[p].at].orders == [] <==> priceNodes[p].orderHead == -1
      ensures priceNodes[p].orderHead != -1 ==>
        0 <= priceNodes[p].orderHead < orderEntries.Length && chains[p] != [] && chains[p][0] == priceNodes[p].orderHead &&
        Book()[sp[p].at].orders[0] == RestingOf(orderEntries[priceNodes[p].orderHead])
    {
      assert NodeOk(priceNodes[..], root, sp, p);
      TreeInRange(priceNodes[..], root, io, sp);
      assert ChainOk(priceNodes[..], orderEntries[..], p, chains[p]);
    }

    /** match_request.rs:109-110: the head entry of price node `p` keeps its
        place at the front of the chain with quantity `q`. */
    method FillHead(p: i32, q: u64)
      requires Valid() && p in sp && 0 <= p < priceNodes.Length && priceNodes[p].orderHead != -1
      modifies orderEntries
      ensures Valid()
      ensures Book() == FillFront(old(Book()), sp[p].at, q)
    {
      LevelOf(p);
      ghost var es := orderEntries[..];
      var head := priceNodes[p].orderHead;
      orderEntries[head] := orderEntries[head].(quantity := q);
      ChainsFill(priceNodes[..], es, orderEntries[..], chains, p, q);
      TreeInRange(priceNodes[..], root, io, sp);
      assert forall k :: 0 <= k < |io| && k != sp[p].at ==> io[k] != io[sp[p].at];
      BookOfSet(priceNodes[..], es, chains, priceNodes[..], orderEntries[..], chains, io, sp[p].at);
    }

    /** match_request.rs:148-161: the fields of a claimed entry that is on no
        chain yet are written; the book does not change. */
    method WriteEntry(e: i32, entry: OrderEntry)
      requires Valid() && 0 <= e < orderEntries.Length && Unchained(chains, e)
      modifies orderEntries
      ensures Valid() && Book() == old(Book()) && Unchained(chains, e)
      ensures orderEntries[..] == old(orderEntries[..])[e := entry]
    {
      ghost var es := orderEntries[..];
      orderEntries[e] := entry;
      ChainsClaim(priceNodes[..], es, orderEntries[..], chains, e);
      TreeInRange(priceNodes[..], root, io, sp);
      BookOfFrame(priceNodes[..], es, chains, priceNodes[..], orderEntries[..], chains, io);
    }

    /** The writes of append_order_to_price once both indices are known to
        be in range. */
    method AppendOrderLinks(p: i32, e: i32)
      requires 0 <= p < priceNodes.Length && 0 <= e < orderEntries.Length
      requires priceNodes[p].orderHead != -1 ==> 0 <= priceNodes[p].orderTail < orderEntries.Length
      modifies priceNodes, orderEntries
      ensures var ns := old(priceNodes[..]);
        priceNodes[..] == ns[p := ns[p].(orderHead := if ns[p].orderHead == -1 then e else ns[p].orderHead, orderTail := e)]
      ensures var ns, es := old(priceNodes[..]), old(orderEntries[..]); var t := ns[p].orderTail;
        orderEntries[..] == (if ns[p].orderHead == -1 then es else es[t := es[t].(nextInPrice := e)])[e := es[e].(nextInPrice := -1)]
    {
      if priceNodes[p].orderHead == -1 {
        priceNodes[p] := priceNodes[p].(orderHead := e, orderTail := e);
      } else {
        var tail := priceNodes[p].orderTail;
        orderEntries[tail] := orderEntries[tail].(nextInPrice := e);
        priceNodes[p] := priceNodes[p].(orderTail := e);
      }
      orderEntries[e] := orderEntries[e].(nextInPrice := -1);
    }

    /** The writes of pop_order_from_prices once price node `p` is known to
        have an order. */
    method PopOrderLinks(p: i32) returns (head: i32)
      requires 0 <= p < priceNodes.Length && 0 <= priceNodes[p].orderHead < orderEntries.Length
      modifies priceNodes, orderEntries
      ensures head == old(priceNodes[p].orderHead)
      ensures var next := old(orderEntries[head].nextInPrice);
        priceNodes[..] == old(priceNodes[..])[p := old(priceNodes[p]).(orderHead := next,
          orderTail := if next == -1 then -1 else old(priceNodes[p].orderTail))]
      ensures orderEntries[..] == old(orderEntries[..])[head := old(orderEntries[head]).(occupied := false, nextInPrice := -1)]
    {
      head := priceNodes[p].orderHead;
      var next := orderEntries[head].nextInPrice;
      priceNodes[p] := priceNodes[p].(orderHead := next);
      if priceNodes[p].orderHead == -1 {
        priceNodes[p] := priceNodes[p].(orderTail := -1);
      }
      orderEntries[head] := orderEntries[head].(occupied := false, nextInPrice := -1);
    }

    /** insert_price_node_by_tree: a price already in the tree is found and
        returned; otherwise a slot is allocated for it, attached as a red
        leaf where the search for it ended, and the tree rebalanced. The new
        level is empty and lands in price order in the book. */
    method InsertPriceNode(price: u128) returns (r: Result<i32>)
      requires Valid()
      modifies this`root, this`sp, this`io, this`chains, this`nodeCount, priceNodes
      ensures Valid()
      ensures HoldsKey(old(priceNodes[..]), old(io), price) ==>
        r.Ok? && r.value in sp && 0 <= r.value < priceNodes.Length && priceNodes[r.value].key == price
      ensures !HoldsKey(old(priceNodes[..]), old(io), price) ==>
        (r.Err? <==> forall j :: 0 <= j < priceNodes.Length ==> old(priceNodes[j].occupied))
      ensures r.Err? ==> r.error == MathError
      ensures r.Err? || HoldsKey(old(priceNodes[..]), old(io), price) ==>
        priceNodes[..] == old(priceNodes[..]) && root == old(root) && io == old(io) && sp == old(sp) &&
        chains == old(chains) && nodeCount == old(nodeCount)
      ensures r.Ok? && !HoldsKey(old(priceNodes[..]), old(io), price) ==>
        0 <= r.value < priceNodes.Length && !old(priceNodes[r.value].occupied) &&
        r.value in sp && priceNodes[r.value].key == price &&
        Book() == WithLevel(old(Book()), price)
    {
      var found := FindPriceNode(price);
      if found.Some? {
        return Ok(found.value);
      }
      ghost var ns0 := priceNodes[..];
      TreeSize(ns0, root, io, sp);
      TreeInRange(ns0, root, io, sp);
      var alloc := AllocatePriceNode();
      if alloc.Err? {
        return Err(alloc.error);
      }
      var z := alloc.value;
      InsertClaimed(z, price, ns0);
      return Ok(z);
    }

    /** insert_price_node_by_tree once slot `z` is claimed: it gets its key
        and an empty chain and is put into the tree. */
    method InsertClaimed(z: i32, price: u128, ghost ns0: seq<PriceNode>)
      requires 0 < priceNodes.Length < I32_LIMIT && 0 < orderEntries.Length < I32_LIMIT && |ns0| == priceNodes.Length
      requires Tree(ns0, root, io, sp) && Sorted(ns0, io) && RootBlack(ns0, root)
      requires Chains(ns0, orderEntries[..], chains) && nodeCount as int == |io| + 1
      requires 0 <= z < |ns0| && !ns0[z].occupied && !HoldsKey(ns0, io, price)
      requires forall j :: 0 <= j < |io| ==> 0 <= io[j] < |ns0| && ns0[io[j]].occupied
      requires priceNodes[..] == ns0[z := PriceNode(true, ns0[z].key, -1, -1, -1, -1, -1, RED)]
      modifies this`root, this`sp, this`io, this`chains, priceNodes
      ensures Valid() && z in sp && priceNodes[z].key == price
      ensures Book() == WithLevel(BookOf(ns0, orderEntries[..], old(io), old(chains)), price)
    {
      ghost var es := orderEntries[..];
      priceNodes[z] := priceNodes[z].(key := price);
      ghost var ns1, cs0, io0 := priceNodes[..], chains, io;
      assert ns1 == ns0[z := PriceNode(true, price, -1, -1, -1, -1, -1, RED)];
      ChainsReset(ns0, es, ns1, chains, z);
      chains := chains[z := []];
      ghost var k := InsertNew(z, price, ns0);
      assert orderEntries[..] == es;
      InsertBook(ns0, ns1, priceNodes[..], es, cs0, io0, z, price, k);
      assert io[k] == z && |io| == |io0| + 1;
    }

    /** insert_price_node_by_tree after the slot `z` has been claimed and
        given its key: the descent, the linking and the fixup. The new
        node takes position `k` of the in-order sequence. */
    method InsertNew(z: i32, price: u128, ghost ns0: seq<PriceNode>) returns (ghost k: nat)
      requires 0 < priceNodes.Length < I32_LIMIT && |ns0| == priceNodes.Length
      requires Tree(ns0, root, io, sp) && Sorted(ns0, io) && RootBlack(ns0, root)
      requires 0 <= z < |ns0| && !ns0[z].occupied && !HoldsKey(ns0, io, price)
      requires priceNodes[..] == ns0[z := PriceNode(true, price, -1, -1, -1, -1, -1, RED)]
      modifies this`root, this`sp, this`io, priceNodes
      ensures Shaped() && RootBlack(priceNodes[..], root)
      ensures SameEntries(old(priceNodes[..]), priceNodes[..])
      ensures k <= |old(io)| && io == old(io)[..k] + [z] + old(io)[k..]
      ensures forall j :: 0 <= j < |old(io)| ==> 0 <= old(io)[j] < |ns0|
      ensures forall j :: 0 <= j < k ==> ns0[old(io)[j]].key < price
      ensures forall j :: k <= j < |old(io)| ==> ns0[old(io)[j]].key > price
    {
      assert z !in sp;
      var y;
      ghost var right;
      y, right, k := InsertDescent(price, z, ns0);
      InsertAttach(z, y, price, ns0, right, k);
      ghost var nsA := priceNodes[..];
      InsertFixup(z);
      SameEntriesTrans(old(priceNodes[..]), nsA, priceNodes[..]);
    }

    /** The search of insert_price_node_by_tree for the null child slot
        where `price` belongs. The slot `z` just allocated is not in the
        tree yet, so the search only sees records that `ns0` also has. */
    method InsertDescent(price: u128, z: i32, ghost ns0: seq<PriceNode>) returns (y: i32, ghost right: bool, ghost k: nat)
      requires Tree(ns0, root, io, sp) && Sorted(ns0, io) && |ns0| == priceNodes.Length
      requires 0 <= z < |ns0| && z !in sp && !HoldsKey(ns0, io, price)
      requires forall i :: 0 <= i < |ns0| && i != z ==> priceNodes[i] == ns0[i]
      ensures AttachPoint(ns0, root, io, sp, y, price, right, k)
      ensures y == -1 ==> !right
      ensures y != -1 ==> 0 <= y < |ns0| && (right <==> !(price < ns0[y].key))
    {
      DescentStart(ns0, root, io, sp, price);
      y := -1;
      var x := root;
      ghost var lo, hi := 0, |io|;
      while x != -1
        invariant Descent(ns0, root, io, sp, price, y, x, lo, hi)
        decreases hi - lo
      {
        DescentStep(ns0, root, io, sp, price, y, x, lo, hi);
        y := x;
        if price < priceNodes[x].key {
          x := priceNodes[x].left;
          hi := sp[y].at;
        } else {
          x := priceNodes[x].right;
          lo := sp[y].at + 1;
        }
      }
      DescentEnd(ns0, root, io, sp, price, y, lo, hi);
      right := y != -1 && !(price < priceNodes[y].key);
      k := lo;
    }

    /** The attaching writes of insert_price_node_by_tree: `z` becomes the
        red child of `y`, or the root of an empty tree. */
    method InsertAttach(z: i32, y: i32, price: u128, ghost ns0: seq<PriceNode>, ghost right: bool, ghost k: nat)
      requires Tree(ns0, root, io, sp) && Sorted(ns0, io) && RootBlack(ns0, root)
      requires 0 <= z < |ns0| && z !in sp && 0 < |ns0| < I32_LIMIT
      requires AttachPoint(ns0, root, io, sp, y, price, right, k)
      requires y == -1 ==> !right
      requires y != -1 ==> 0 <= y < |ns0| && (right <==> !(price < ns0[y].key))
      requires priceNodes[..] == ns0[z := PriceNode(true, price, -1, -1, -1, -1, -1, RED)]
      modifies this`root, this`io, this`sp, priceNodes
      ensures Shaped() && io == old(io)[..k] + [z] + old(io)[k..] && z in sp && 0 <= z < priceNodes.Length
      ensures RootBlack(priceNodes[..], root) || z == root
      ensures SameEntries(old(priceNodes[..]), priceNodes[..])
    {
      ghost var io0, sp0 := io, sp;
      io, sp := io[..k] + [z] + io[k..], SpansAfterAttach(sp, z, k, right);
      assert io[k] == z;
      InsertLinks(z, y, price, ns0, right, io0, sp0, k, io, sp);
    }

    /** The writes that link `z` under `y`. */
    method InsertLinks(z: i32, y: i32, price: u128, ghost ns0: seq<PriceNode>, ghost right: bool,
                       ghost io0: seq<int>, ghost sp0: map<int, Span>, ghost k: nat,
                       ghost io1: seq<int>, ghost sp1: map<int, Span>)
      requires Tree(ns0, root, io0, sp0) && Sorted(ns0, io0) && RootBlack(ns0, root)
      requires 0 <= z < |ns0| && z !in sp0
      requires AttachPoint(ns0, root, io0, sp0, y, price, right, k)
      requires y == -1 ==> !right
      requires y != -1 ==> 0 <= y < |ns0| && (right <==> !(price < ns0[y].key))
      requires priceNodes[..] == ns0[z := PriceNode(true, price, -1, -1, -1, -1, -1, RED)]
      requires io1 == io0[..k] + [z] + io0[k..] && sp1 == SpansAfterAttach(sp0, z, k, right)
      modifies this`root, priceNodes
      ensures Tree(priceNodes[..], root, io1, sp1) && Sorted(priceNodes[..], io1)
      ensures RootBlack(priceNodes[..], root) || z == root
      ensures SameEntries(old(priceNodes[..]), priceNodes[..])
    {
      ghost var root0 := root;
      priceNodes[z] := priceNodes[z].(parent := y);
      if y == -1 {
        root := z;
      } else if price < priceNodes[y].key {
        priceNodes[y] := priceNodes[y].(left := z);
      } else {
        priceNodes[y] := priceNodes[y].(right := z);
      }
      priceNodes[z] := priceNodes[z].(color := 1);
      AttachTree(ns0, priceNodes[..], root0, root, io0, sp0, z, y, price, right, k, io1, sp1);
      AttachSorted(ns0, priceNodes[..], root0, root, io0, sp0, z, y, price, right, k, io1);
      AttachRootBlack(ns0, priceNodes[..], root0, root, io0, sp0, z, y, price, right);
      AttachSameEntries(ns0, priceNodes[..], root0, root, z, y, price, right);
    }

    /** insert_fixup: walks up from the new red node `z`, recoloring and
        rotating until no red node has a red parent, and paints the root
        black. The keys, the order chains and the in-order sequence are
        untouched, and no null index is ever dereferenced. */
    method InsertFixup(z: i32)
      requires Shaped() && z in sp && 0 <= z < priceNodes.Length
      requires RootBlack(priceNodes[..], root) || z == root
      modifies this`root, this`sp, priceNodes
      ensures Shaped() && SameEntries(old(priceNodes[..]), priceNodes[..])
      ensures RootBlack(priceNodes[..], root)
    {
      var node := z;
      Links(priceNodes[..], root, io, sp, node);
      while IsRed(priceNodes[..], priceNodes[node].parent)
        invariant Shaped() && SameEntries(old(priceNodes[..]), priceNodes[..])
        invariant node in sp && 0 <= node < priceNodes.Length && IndexOrNull(priceNodes[..], priceNodes[node].parent)
        invariant RootBlack(priceNodes[..], root) || node == root
        decreases FixupMeasure(priceNodes[..], io, sp, node)
      {
        ghost var ns := priceNodes[..];
        node := InsertFixupPass(node);
        SameEntriesTrans(old(priceNodes[..]), ns, priceNodes[..]);
        if root == -1 {
          break;
        }
      }
      TreeInRange(priceNodes[..], root, io, sp);
      ghost var ns := priceNodes[..];
      SetColor(root, 0);
      SameEntriesTrans(old(priceNodes[..]), ns, priceNodes[..]);
    }

    /** One pass of the loop of insert_fixup. */
    method InsertFixupPass(z: i32) returns (next: i32)
      requires Shaped() && z in sp && 0 <= z < priceNodes.Length
      requires var p := priceNodes[z].parent; 0 <= p < priceNodes.Length && priceNodes[p].color == RED
      requires RootBlack(priceNodes[..], root) || z == root
      modifies this`root, this`sp, priceNodes
      ensures Shaped() && SameEntries(old(priceNodes[..]), priceNodes[..])
      ensures next in sp && 0 <= next < priceNodes.Length && IndexOrNull(priceNodes[..], priceNodes[next].parent)
      ensures RootBlack(priceNodes[..], root) || next == root
      ensures 0 <= FixupMeasure(priceNodes[..], io, sp, next) < old(FixupMeasure(priceNodes[..], io, sp, z))
    {
      FixupParents(priceNodes[..], root, io, sp, z);
      var parent := priceNodes[z].parent;
      var grandParent := priceNodes[parent].parent;
      if parent == priceNodes[grandParent].left {
        next := InsertFixupLeft(z, parent, grandParent);
      } else {
        next := InsertFixupRight(z, parent, grandParent);
      }
      Links(priceNodes[..], root, io, sp, next);
      SpanWithin(priceNodes[..], root, io, sp, next);
    }

    /** One pass of insert_fixup whose red parent is a left child. */
    method InsertFixupLeft(z: i32, parent: i32, grandParent: i32) returns (next: i32)
      requires Shaped() && RootBlack(priceNodes[..], root) && z in sp && parent in sp && grandParent in sp
      requires 0 <= z < priceNodes.Length && 0 <= parent < priceNodes.Length && 0 <= grandParent < priceNodes.Length
      requires priceNodes[z].parent == parent && priceNodes[parent].parent == grandParent
      requires priceNodes[grandParent].left == parent && priceNodes[parent].color == RED
      requires FixupMeasure(priceNodes[..], io, sp, z) >= 1
      modifies this`root, this`sp, priceNodes
      ensures Shaped() && SameEntries(old(priceNodes[..]), priceNodes[..])
      ensures next in sp && 0 <= next < priceNodes.Length
      ensures RootBlack(priceNodes[..], root) || next == root
      ensures FixupMeasure(priceNodes[..], io, sp, next) < old(FixupMeasure(priceNodes[..], io, sp, z))
    {
      Links(priceNodes[..], root, io, sp, grandParent);
      ChainUp(priceNodes[..], root, io, sp, z);
      var uncle := priceNodes[grandParent].right;
      if IsRed(priceNodes[..], uncle) {
        ghost var ns := priceNodes[..];
        FixupRecolor(ns, root, io, sp, z, parent, uncle, grandParent, parent, uncle);
        SetColor(parent, 0);
        SetColor(uncle, 0);
        SetColor(grandParent, 1);
        next := grandParent;
      } else {
        next := InsertFixupRotateLeft(z, parent, grandParent);
      }
    }

    /** The rotation case of `InsertFixupLeft`: afterwards the parent of the
        returned node is black, which ends the walk. */
    method InsertFixupRotateLeft(z: i32, parent: i32, grandParent: i32) returns (next: i32)
      requires Shaped() && RootBlack(priceNodes[..], root) && z in sp
      requires 0 <= z < priceNodes.Length && 0 <= parent < priceNodes.Length && 0 <= grandParent < priceNodes.Length
      requires priceNodes[z].parent == parent && priceNodes[parent].parent == grandParent
      requires priceNodes[grandParent].left == parent
      modifies this`root, this`sp, priceNodes
      ensures Shaped() && SameEntries(old(priceNodes[..]), priceNodes[..])
      ensures next in sp && 0 <= next < priceNodes.Length && RootBlack(priceNodes[..], root)
      ensures var p := priceNodes[next].parent; 0 <= p < priceNodes.Length && priceNodes[p].color == BLACK
    {
      ChainUp(priceNodes[..], root, io, sp, z);
      next := z;
      if next == priceNodes[parent].right {
        ghost var ns, r0 := priceNodes[..], root;
        next := parent;
        LeftRotate(next);
        FixupRotateFirstLeft(ns, priceNodes[..], r0, root, z, parent, grandParent);
      }
      var parent2 := priceNodes[next].parent;
      var grandParent2 := priceNodes[parent2].parent;
      ghost var ns := priceNodes[..];
      InsertFixupRotateTailLeft(next, parent2, grandParent2);
      SameEntriesTrans(old(priceNodes[..]), ns, priceNodes[..]);
    }

    /** The end of the rotation case of `InsertFixupLeft`: the parent turns
        black, the grandparent red, and the grandparent is rotated right. */
    method InsertFixupRotateTailLeft(next: i32, parent2: i32, grandParent2: i32)
      requires Shaped() && RootBlack(priceNodes[..], root) && next in sp && parent2 in sp && grandParent2 in sp
      requires 0 <= next < priceNodes.Length && 0 <= parent2 < priceNodes.Length && 0 <= grandParent2 < priceNodes.Length
      requires priceNodes[next].parent == parent2 && priceNodes[parent2].parent == grandParent2
      requires priceNodes[grandParent2].left == parent2 && priceNodes[parent2].left == next
      modifies this`root, this`sp, priceNodes
      ensures Shaped() && SameEntries(old(priceNodes[..]), priceNodes[..])
      ensures next in sp && RootBlack(priceNodes[..], root)
      ensures var p := priceNodes[next].parent; 0 <= p < priceNodes.Length && priceNodes[p].color == BLACK
    {
      ghost var ns, r0, s0 := priceNodes[..], root, sp;
      SetColor(parent2, 0);
      SetColor(grandParent2, 1);
      RightRotate(grandParent2);
      FixupTailLeft(ns, priceNodes[..], r0, root, io, s0, next, parent2, grandParent2);
    }

    /** One pass of insert_fixup whose red parent is a right child. */
    method InsertFixupRight(z: i32, parent: i32, grandParent: i32) returns (next: i32)
      requires Shaped() && RootBlack(priceNodes[..], root) && z in sp && parent in sp && grandParent in sp
      requires 0 <= z < priceNodes.Length && 0 <= parent < priceNodes.Length && 0 <= grandParent < priceNodes.Length
      requires priceNodes[z].parent == parent && priceNodes[parent].parent == grandParent
      requires priceNodes[grandParent].left != parent && priceNodes[parent].color == RED
      requires FixupMeasure(priceNodes[..], io, sp, z) >= 1
      modifies this`root, this`sp, priceNodes
      ensures Shaped() && SameEntries(old(priceNodes[..]), priceNodes[..])
      ensures next in sp && 0 <= next < priceNodes.Length
      ensures RootBlack(priceNodes[..], root) || next == root
      ensures FixupMeasure(priceNodes[..], io, sp, next) < old(FixupMeasure(priceNodes[..], io, sp, z))
    {
      Links(priceNodes[..], root, io, sp, grandParent);
      ChainUp(priceNodes[..], root, io, sp, z);
      var uncle := priceNodes[grandParent].left;
      if IsRed(priceNodes[..], uncle) {
        ghost var ns := priceNodes[..];
        FixupRecolor(ns, root, io, sp, z, parent, uncle, grandParent, uncle, parent);
        SetColor(uncle, 0);
        SetColor(parent, 0);
        SetColor(grandParent, 1);
        next := grandParent;
      } else {
        next := InsertFixupRotateRight(z, parent, grandParent);
      }
    }

    /** The rotation case of `InsertFixupRight`: afterwards the parent of the
        returned node is black, which ends the walk. */
    method InsertFixupRotateRight(z: i32, parent: i32, grandParent: i32) returns (next: i32)
      requires Shaped() && RootBlack(priceNodes[..], root) && z in sp
      requires 0 <= z < priceNodes.Length && 0 <= parent < priceNodes.Length && 0 <= grandParent < priceNodes.Length
      requires priceNodes[z].parent == parent && priceNodes[parent].parent == grandParent
      requires priceNodes[grandParent].left != parent
      modifies this`root, this`sp, priceNodes
      ensures Shaped() && SameEntries(old(priceNodes[..]), priceNodes[..])
      ensures next in sp && 0 <= next < priceNodes.Length && RootBlack(priceNodes[..], root)
      ensures var p := priceNodes[next].parent; 0 <= p < priceNodes.Length && priceNodes[p].color == BLACK
    {
      ChainUp(priceNodes[..], root, io, sp, z);
      next := z;
      if next == priceNodes[parent].left {
        ghost var ns, r0 := priceNodes[..], root;
        next := parent;
        RightRotate(next);
        FixupRotateFirstRight(ns, priceNodes[..], r0, root, z, parent, grandParent);
      }
      var parent2 := priceNodes[next].parent;
      var grandParent2 := priceNodes[parent2].parent;
      ghost var ns := priceNodes[..];
      InsertFixupRotateTailRight(next, parent2, grandParent2);
      SameEntriesTrans(old(priceNodes[..]), ns, priceNodes[..]);
    }

    /** The end of the rotation case of `InsertFixupRight`: the parent turns
        black, the grandparent red, and the grandparent is rotated left. */
    method InsertFixupRotateTailRight(next: i32, parent2: i32, grandParent2: i32)
      requires Shaped() && RootBlack(priceNodes[..], root) && next in sp && parent2 in sp && grandParent2 in sp
      requires 0 <= next < priceNodes.Length && 0 <= parent2 < priceNodes.Length && 0 <= grandParent2 < priceNodes.Length
      requires priceNodes[next].parent == parent2 && priceNodes[parent2].parent == grandParent2
      requires priceNodes[grandParent2].right == parent2 && priceNodes[parent2].right == next
      modifies this`root, this`sp, priceNodes
      ensures Shaped() && SameEntries(old(priceNodes[..]), priceNodes[..])
      ensures next in sp && RootBlack(priceNodes[..], root)
      ensures var p := priceNodes[next].parent; 0 <= p < priceNodes.Length && priceNodes[p].color == BLACK
    {
      ghost var ns, r0, s0 := priceNodes[..], root, sp;
      SetColor(parent2, 0);
      SetColor(grandParent2, 1);
      LeftRotate(grandParent2);
      FixupTailRight(ns, priceNodes[..], r0, root, io, s0, next, parent2, grandParent2);
    }

    /** left_rotate: `x`'s right child takes `x`'s place; nothing happens
        when that child is null. */
    method LeftRotate(x: i32)
      requires Shaped() && x in sp && 0 <= x < priceNodes.Length
      modifies this`root, this`sp, priceNodes
      ensures Shaped() && SamePayload(old(priceNodes[..]), priceNodes[..])
      ensures old(priceNodes[x].right) == -1 ==>
        priceNodes[..] == old(priceNodes[..]) && root == old(root) && sp == old(sp)
      ensures old(priceNodes[x].right) != -1 ==>
        LeftRotationCells(old(priceNodes[..]), priceNodes[..], old(root), root, x) &&
        sp == SpansAfterLeft(old(sp), x, old(priceNodes[x].right))
    {
      ghost var ns := priceNodes[..];
      var y := priceNodes[x].right;
      if y == -1 {
        return;
      }
      RotationNodes(ns, root, io, sp, x, y);
      ghost var sp0 := sp;
      sp := SpansAfterLeft(sp, x, y);
      ghost var b, xp := ns[y].left, ns[x].parent;
      LeftRotateLinks(x, ns, y, b, xp);
      LeftRotationCellsIntro(ns, priceNodes[..], old(root), root, x, y, b, xp);
      LeftRotationShape(ns, priceNodes[..], old(root), root, io, sp0, sp, x);
    }

    /** The writes of left_rotate once its right child is known not to be
        null. */
    method LeftRotateLinks(x: i32, ghost ns: seq<PriceNode>, ghost y: int, ghost b: int, ghost xp: int)
      requires ns == priceNodes[..] && 0 <= x < |ns| && y == ns[x].right && 0 <= y < |ns|
      requires b == ns[y].left && xp == ns[x].parent && y != x && IndexOrNull(ns, b) && IndexOrNull(ns, xp)
      requires (b != -1 ==> b != x && b != y) && (xp != -1 ==> xp != x && xp != y && xp != b)
      requires xp == -1 <==> root == x
      modifies this`root, priceNodes
      ensures priceNodes[x] == ns[x].(right := b, parent := y) && priceNodes[y] == ns[y].(left := x, parent := xp)
      ensures b != -1 ==> priceNodes[b] == ns[b].(parent := x)
      ensures xp != -1 ==> priceNodes[xp] == if ns[xp].left == x then ns[xp].(left := y) else ns[xp].(right := y)
      ensures forall i :: 0 <= i < |ns| && i != x && i != y && i != b && i != xp ==> priceNodes[i] == ns[i]
      ensures root == if xp == -1 then y else old(root)
    {
      var y := priceNodes[x].right;
      var b := priceNodes[y].left;
      var xp := priceNodes[x].parent;
      priceNodes[x] := priceNodes[x].(right := b);
      if b != -1 {
        priceNodes[b] := priceNodes[b].(parent := x);
      }
      priceNodes[y] := priceNodes[y].(parent := priceNodes[x].parent);
      if root == x {
        root := y;
      } else {
        if x == priceNodes[xp].left {
          priceNodes[xp] := priceNodes[xp].(left := y);
        } else {
          priceNodes[xp] := priceNodes[xp].(right := y);
        }
      }
      priceNodes[y] := priceNodes[y].(left := x);
      priceNodes[x] := priceNodes[x].(parent := y);
    }

    /** right_rotate: the mirror image of `LeftRotate`. */
    method RightRotate(x: i32)
      requires Shaped() && x in sp && 0 <= x < priceNodes.Length
      modifies this`root, this`sp, priceNodes
      ensures Shaped() && SamePayload(old(priceNodes[..]), priceNodes[..])
      ensures old(priceNodes[x].left) == -1 ==>
        priceNodes[..] == old(priceNodes[..]) && root == old(root) && sp == old(sp)
      ensures old(priceNodes[x].left) != -1 ==>
        RightRotationCells(old(priceNodes[..]), priceNodes[..], old(root), root, x) &&
        sp == SpansAfterRight(old(sp), x, old(priceNodes[x].left))
    {
      ghost var ns := priceNodes[..];
      var y := priceNodes[x].left;
      if y == -1 {
        return;
      }
      RotationNodes(ns, root, io, sp, x, y);
      ghost var sp0 := sp;
      sp := SpansAfterRight(sp, x, y);
      ghost var b, xp := ns[y].right, ns[x].parent;
      RightRotateLinks(x, ns, y, b, xp);
      RightRotationCellsIntro(ns, priceNodes[..], old(root), root, x, y, b, xp);
      RightRotationShape(ns, priceNodes[..], old(root), root, io, sp0, sp, x);
    }

    /** The writes of right_rotate once its left child is known not to be
        null. */
    method RightRotateLinks(x: i32, ghost ns: seq<PriceNode>, ghost y: int, ghost b: int, ghost xp: int)
      requires ns == priceNodes[..] && 0 <= x < |ns| && y == ns[x].left && 0 <= y < |ns|
      requires b == ns[y].right && xp == ns[x].parent && y != x && IndexOrNull(ns, b) && IndexOrNull(ns, xp)
      requires (b != -1 ==> b != x && b != y) && (xp != -1 ==> xp != x && xp != y && xp != b)
      requires xp == -1 <==> root == x
      modifies this`root, priceNodes
      ensures priceNodes[x] == ns[x].(left := b, parent := y) && priceNodes[y] == ns[y].(right := x, parent := xp)
      ensures b != -1 ==> priceNodes[b] == ns[b].(parent := x)
      ensures xp != -1 ==> priceNodes[xp] == if ns[xp].left == x then ns[xp].(left := y) else ns[xp].(right := y)
      ensures forall i :: 0 <= i < |ns| && i != x && i != y && i != b && i != xp ==> priceNodes[i] == ns[i]
      ensures root == if xp == -1 then y else old(root)
    {
      var y := priceNodes[x].left;
      var b := priceNodes[y].right;
      var xp := priceNodes[x].parent;
      priceNodes[x] := priceNodes[x].(left := b);
      if b != -1 {
        priceNodes[b] := priceNodes[b].(parent := x);
      }
      priceNodes[y] := priceNodes[y].(parent := priceNodes[x].parent);
      if priceNodes[x].parent == -1 {
        root := y;
      } else {
        if x == priceNodes[xp].left {
          priceNodes[xp] := priceNodes[xp].(left := y);
        } else {
          priceNodes[xp] := priceNodes[xp].(right := y);
        }
      }
      priceNodes[y] := priceNodes[y].(right := x);
      priceNodes[x] := priceNodes[x].(parent := y);
    }

    /** transplant: `v` takes the place of `u` under `u`'s parent, or
        becomes the root; the record of `u` itself is not written. */
    method Transplant(u: i32, v: i32)
      requires 0 <= u < priceNodes.Length && IndexOrNull(priceNodes[..], v)
      requires IndexOrNull(priceNodes[..], priceNodes[u].parent)
      modifies this`root, priceNodes
      ensures var ns := old(priceNodes[..]); var up := ns[u].parent;
        var ns1 := if up == -1 then ns else ns[up := if u == ns[up].left then ns[up].(left := v) else ns[up].(right := v)];
        priceNodes[..] == (if v == -1 then ns1 else ns1[v := ns1[v].(parent := up)]) &&
        root == if up == -1 then v else old(root)
    {
      var uParent := priceNodes[u].parent;
      if uParent == -1 {
        root := v;
      } else if u == priceNodes[uParent].left {
        priceNodes[uParent] := priceNodes[uParent].(left := v);
      } else {
        priceNodes[uParent] := priceNodes[uParent].(right := v);
      }
      if v != -1 {
        priceNodes[v] := priceNodes[v].(parent := uParent);
      }
    }

    /** tree_min: the leftmost node of the subtree of `x`, which holds the
        smallest key of that subtree. On the way down every node is the
        left child of the one above, so all of them open the subtree. */
    method TreeMin(x: i32) returns (y: i32)
      requires Shaped() && x in sp
      ensures y in sp && 0 <= y < priceNodes.Length && priceNodes[y].left == -1
      ensures sp[y].at == sp[x].lo && sp[y].lo == sp[x].lo && sp[y].hi <= sp[x].hi <= |io|
      ensures forall k :: sp[x].lo <= k < sp[x].hi ==> 0 <= io[k] < priceNodes.Length && priceNodes[y].key <= priceNodes[io[k]].key
      ensures y != x ==> var yp := priceNodes[y].parent;
        yp in sp && 0 <= yp < priceNodes.Length && priceNodes[yp].left == y &&
        sp[yp].lo == sp[x].lo && sp[yp].hi <= sp[x].hi
    {
      TreeInRange(priceNodes[..], root, io, sp);
      SpanWithin(priceNodes[..], root, io, sp, x);
      y := x;
      assert NodeOk(priceNodes[..], root, sp, y);
      while priceNodes[y].left != -1
        invariant y in sp && NodeOk(priceNodes[..], root, sp, y)
        invariant sp[y].lo == sp[x].lo && sp[y].hi <= sp[x].hi
        invariant y != x ==> var yp := priceNodes[y].parent;
          yp in sp && 0 <= yp < priceNodes.Length && priceNodes[yp].left == y &&
          sp[yp].lo == sp[x].lo && sp[yp].hi <= sp[x].hi
        decreases sp[y].at - sp[y].lo
      {
        y := priceNodes[y].left;
        assert NodeOk(priceNodes[..], root, sp, y);
      }
      assert io[sp[y].at] == y;
      SortedAround(priceNodes[..], io, sp[y].at);
    }

    /** remove_price_node: the null index is a no-op; another index out of
        range is dereferenced and the result is Panic, before any write.
        Otherwise the node is unlinked (its successor taking its place when
        it has two children), its slot is emptied, the count drops, and when
        the node that left the tree was black the tree is rebalanced. The
        book loses exactly the level at the removed key; every other price
        node keeps its key and its chain, and the orders of the removed
        level stay allocated but belong to no level. */
    method RemovePriceNode(z: i32) returns (r: Result<()>)
      requires Valid()
      requires 0 <= z < priceNodes.Length ==> priceNodes[z].occupied
      modifies this`root, this`sp, this`io, this`chains, this`nodeCount, priceNodes
      ensures !(0 <= z < priceNodes.Length) ==> r == (if z == -1 then Ok(()) else Err(Panic))
      ensures !(0 <= z < priceNodes.Length) ==>
        priceNodes[..] == old(priceNodes[..]) && root == old(root) && io == old(io) && sp == old(sp) &&
        chains == old(chains) && nodeCount == old(nodeCount)
      ensures r.Err? ==> r.error == Panic
      ensures r.Ok? ==> Valid()
      ensures r.Ok? && z != -1 ==>
        0 <= z < priceNodes.Length && nodeCount == old(nodeCount) - 1 && chains == old(chains)[z := []] &&
        SameEntries(old(priceNodes[..])[z := EMPTY_PRICE_NODE], priceNodes[..]) &&
        Book() == WithoutLevel(old(Book()), old(priceNodes[z].key))
    {
      if z == -1 {
        return Ok(());
      }
      if z < 0 || z >= priceNodes.Length as i32 {
        return Err(Panic);
      }
      ghost var ns0, es, cs0, io0, sp0, root0 := priceNodes[..], orderEntries[..], chains, io, sp, root;
      ghost var ns1;
      r, ns1 := RemoveTreeNode(z);
      if r.Err? {
        return;
      }
      chains := chains[z := []];
      assert orderEntries[..] == es;
      RemovedBook(ns0, ns1, priceNodes[..], es, cs0, root0, io0, sp0, z);
    }

    /** remove_price_node on an occupied node `z`, apart from its chain:
        the unlinking, the count and the fixup. `ns1` is the array right
        after the unlinking, where the slot of `z` is empty. */
    method RemoveTreeNode(z: i32) returns (r: Result<()>, ghost ns1: seq<PriceNode>)
      requires Shaped() && RootBlack(priceNodes[..], root) && z in sp && 0 <= z < priceNodes.Length
      requires nodeCount as int == |io|
      modifies this`root, this`sp, this`io, this`nodeCount, priceNodes
      ensures r.Err? ==> r.error == Panic
      ensures r.Ok? ==> Shaped() && RootBlack(priceNodes[..], root) && nodeCount as int == |io|
      ensures r.Ok? ==> nodeCount == old(nodeCount) - 1 && old(sp[z].at) < |old(io)| && io == Without(old(io), old(sp[z].at))
      ensures r.Ok? ==> SameEntries(old(priceNodes[..])[z := EMPTY_PRICE_NODE], ns1) && ns1[z] == EMPTY_PRICE_NODE
      ensures r.Ok? ==> SameEntries(ns1, priceNodes[..])
    {
      var x, xp, yColor := RemoveUnlink(z);
      ns1 := priceNodes[..];
      if nodeCount == 0 {
        return Err(MathError), ns1;
      }
      nodeCount := nodeCount - 1;
      if yColor == 0 {
        var fixed := DeleteFixup(x, xp);
        if fixed.Err? {
          return Err(fixed.error), ns1;
        }
      }
      r := Ok(());
    }

    /** The unlinking of remove_price_node, up to the point where the fixup
        would start from the slot `x` under `xp`; `yColor` is the colour of
        the node that left its place in the tree. */
    method RemoveUnlink(z: i32) returns (x: i32, xp: i32, yColor: u8)
      requires Shaped() && RootBlack(priceNodes[..], root) && z in sp && 0 <= z < priceNodes.Length
      modifies this`root, this`sp, this`io, priceNodes
      ensures Shaped() && old(sp[z].at) < |old(io)| && io == Without(old(io), old(sp[z].at))
      ensures SameEntries(old(priceNodes[..])[z := EMPTY_PRICE_NODE], priceNodes[..])
      ensures Slot(priceNodes[..], root, sp, x, xp)
      ensures RootBlack(priceNodes[..], root) || (x == root && yColor == BLACK)
      ensures priceNodes[z] == EMPTY_PRICE_NODE
    {
      yColor := priceNodes[z].color;
      if priceNodes[z].left == -1 || priceNodes[z].right == -1 {
        x, xp := RemoveDirect(z);
      } else {
        x, xp, yColor := RemoveWithSuccessor(z);
      }
    }

    /** The end of remove_price_node's unlinking: the removed slot is
        emptied. */
    method ClearPriceNode(z: i32)
      requires 0 <= z < priceNodes.Length
      modifies priceNodes
      ensures priceNodes[..] == old(priceNodes[..])[z := EMPTY_PRICE_NODE]
    {
      priceNodes[z] := priceNodes[z].(occupied := false, left := -1, right := -1, orderHead := -1, orderTail := -1,
                                      key := 0, color := 0, parent := -1);
    }

    /** remove_price_node for a node `z` with at most one child: the child
        takes its place, and `z` leaves the in-order sequence. */
    method RemoveDirect(z: i32) returns (x: i32, xp: i32)
      requires Shaped() && z in sp && 0 <= z < priceNodes.Length
      requires priceNodes[z].left == -1 || priceNodes[z].right == -1
      modifies this`root, this`sp, this`io, priceNodes
      ensures Shaped() && old(sp[z].at) < |old(io)| && io == Without(old(io), old(sp[z].at))
      ensures SameEntries(old(priceNodes[..])[z := EMPTY_PRICE_NODE], priceNodes[..])
      ensures Slot(priceNodes[..], root, sp, x, xp)
      ensures RootBlack(old(priceNodes[..]), old(root)) ==> RootBlack(priceNodes[..], root) || (old(root) == z && x == root)
      ensures priceNodes[z] == EMPTY_PRICE_NODE
    {
      ghost var ns0, r := priceNodes[..], sp[z].at;
      NearOf(ns0, root, io, sp, z);
      x, xp := RemoveDirectLinks(z);
      SpliceRemove(ns0, priceNodes[..], old(root), root, io, sp, z);
      io, sp := Without(io, r), SpansAfterRemove(sp, z, z, r);
    }

    /** The writes of remove_price_node when `z` has at most one child `x`. */
    method RemoveDirectLinks(z: i32) returns (x: i32, xp: i32)
      requires 0 <= z < priceNodes.Length && (priceNodes[z].left == -1 || priceNodes[z].right == -1)
      requires var ns := priceNodes[..]; var c := if ns[z].left == -1 then ns[z].right else ns[z].left;
        IndexOrNull(ns, c) && IndexOrNull(ns, ns[z].parent) && c != z && ns[z].parent != z &&
        (c != -1 ==> c != ns[z].parent)
      modifies this`root, priceNodes
      ensures SpliceCells(old(priceNodes[..]), priceNodes[..], old(root), root, z)
      ensures SameEntries(old(priceNodes[..])[z := EMPTY_PRICE_NODE], priceNodes[..])
      ensures x == (if old(priceNodes[z].left) == -1 then old(priceNodes[z].right) else old(priceNodes[z].left))
      ensures xp == old(priceNodes[z].parent)
    {
      x := if priceNodes[z].left == -1 then priceNodes[z].right else priceNodes[z].left;
      xp := priceNodes[z].parent;
      Transplant(z, x);
      ClearPriceNode(z);
    }

    /** remove_price_node for a node `z` with two children: its successor
        `y`, the leftmost node of its right subtree, takes its place, and
        `z` leaves the in-order sequence. `yColor` is the color of `y`
        before the move. */
    method RemoveWithSuccessor(z: i32) returns (x: i32, xp: i32, yColor: u8)
      requires Shaped() && z in sp && 0 <= z < priceNodes.Length
      requires priceNodes[z].left != -1 && priceNodes[z].right != -1
      modifies this`root, this`sp, this`io, priceNodes
      ensures Shaped() && old(sp[z].at) < |old(io)| && io == Without(old(io), old(sp[z].at))
      ensures SameEntries(old(priceNodes[..])[z := EMPTY_PRICE_NODE], priceNodes[..])
      ensures Slot(priceNodes[..], root, sp, x, xp)
      ensures RootBlack(old(priceNodes[..]), old(root)) ==> RootBlack(priceNodes[..], root)
      ensures priceNodes[z] == EMPTY_PRICE_NODE
    {
      NearOf(priceNodes[..], root, io, sp, z);
      var y := TreeMin(priceNodes[z].right);
      yColor := priceNodes[y].color;
      x, xp := RemoveLift(z, y);
    }

    /** The successor `y` of `z` takes the place of `z`. */
    method RemoveLift(z: i32, y: i32) returns (x: i32, xp: i32)
      requires Shaped() && SuccessorOf(priceNodes[..], sp, z, y)
      modifies this`root, this`sp, this`io, priceNodes
      ensures Shaped() && old(sp[z].at) < |old(io)| && io == Without(old(io), old(sp[z].at))
      ensures SameEntries(old(priceNodes[..])[z := EMPTY_PRICE_NODE], priceNodes[..])
      ensures Slot(priceNodes[..], root, sp, x, xp)
      ensures RootBlack(old(priceNodes[..]), old(root)) ==> RootBlack(priceNodes[..], root)
      ensures priceNodes[z] == EMPTY_PRICE_NODE
    {
      ghost var r := sp[z].at;
      x, xp := RemoveLiftLinks(z, y, io, sp);
      ghost var ns := priceNodes[..];
      io, sp := Without(io, r), SpansAfterRemove(sp, z, y, r + 1);
      assert priceNodes[..] == ns;
    }

    /** The writes of remove_price_node when `z` has two children and `y`
        is its successor. */
    method RemoveLiftLinks(z: i32, y: i32, ghost io0: seq<int>, ghost sp0: map<int, Span>) returns (x: i32, xp: i32)
      requires Tree(priceNodes[..], root, io0, sp0) && Sorted(priceNodes[..], io0) && SuccessorOf(priceNodes[..], sp0, z, y)
      modifies this`root, priceNodes
      ensures sp0[z].at < |io0|
      ensures Tree(priceNodes[..], root, Without(io0, sp0[z].at), SpansAfterRemove(sp0, z, y, sp0[z].at + 1))
      ensures Sorted(priceNodes[..], Without(io0, sp0[z].at))
      ensures Slot(priceNodes[..], root, SpansAfterRemove(sp0, z, y, sp0[z].at + 1), x, xp)
      ensures SameEntries(old(priceNodes[..])[z := EMPTY_PRICE_NODE], priceNodes[..])
      ensures RootBlack(old(priceNodes[..]), old(root)) ==> RootBlack(priceNodes[..], root)
      ensures priceNodes[z] == EMPTY_PRICE_NODE
    {
      if priceNodes[y].parent == z {
        x, xp := RemoveLiftNear(z, y, io0, sp0);
      } else {
        x, xp := RemoveLiftDeep(z, y, io0, sp0);
      }
    }

    /** The lift when `y` is the right child of `z`. */
    method RemoveLiftNear(z: i32, y: i32, ghost io0: seq<int>, ghost sp0: map<int, Span>) returns (x: i32, xp: i32)
      requires Tree(priceNodes[..], root, io0, sp0) && Sorted(priceNodes[..], io0) && SuccessorOf(priceNodes[..], sp0, z, y)
      requires priceNodes[y].parent == z
      modifies this`root, priceNodes
      ensures sp0[z].at < |io0|
      ensures Tree(priceNodes[..], root, Without(io0, sp0[z].at), SpansAfterRemove(sp0, z, y, sp0[z].at + 1))
      ensures Sorted(priceNodes[..], Without(io0, sp0[z].at))
      ensures Slot(priceNodes[..], root, SpansAfterRemove(sp0, z, y, sp0[z].at + 1), x, xp)
      ensures SameEntries(old(priceNodes[..])[z := EMPTY_PRICE_NODE], priceNodes[..])
      ensures RootBlack(old(priceNodes[..]), old(root)) ==> RootBlack(priceNodes[..], root)
      ensures priceNodes[z] == EMPTY_PRICE_NODE
    {
      ghost var ns0, root0 := priceNodes[..], root;
      LiftNearReady(ns0, root, io0, sp0, z, y);
      x := priceNodes[y].right;
      if x != -1 {
        priceNodes[x] := priceNodes[x].(parent := y);
        assert priceNodes[..] == ns0;
      }
      xp := y;
      RemoveLiftPlace(z, y);
      LiftNearRemove(ns0, priceNodes[..], root0, root, io0, sp0, z, y, x, xp);
    }

    /** The lift when `y` lies deeper in the right subtree of `z`. */
    method RemoveLiftDeep(z: i32, y: i32, ghost io0: seq<int>, ghost sp0: map<int, Span>) returns (x: i32, xp: i32)
      requires Tree(priceNodes[..], root, io0, sp0) && Sorted(priceNodes[..], io0) && SuccessorOf(priceNodes[..], sp0, z, y)
      requires priceNodes[y].parent != z
      modifies this`root, priceNodes
      ensures sp0[z].at < |io0|
      ensures Tree(priceNodes[..], root, Without(io0, sp0[z].at), SpansAfterRemove(sp0, z, y, sp0[z].at + 1))
      ensures Sorted(priceNodes[..], Without(io0, sp0[z].at))
      ensures Slot(priceNodes[..], root, SpansAfterRemove(sp0, z, y, sp0[z].at + 1), x, xp)
      ensures SameEntries(old(priceNodes[..])[z := EMPTY_PRICE_NODE], priceNodes[..])
      ensures RootBlack(old(priceNodes[..]), old(root)) ==> RootBlack(priceNodes[..], root)
      ensures priceNodes[z] == EMPTY_PRICE_NODE
    {
      ghost var ns0, root0 := priceNodes[..], root;
      LiftDeepReady(ns0, root, io0, sp0, z, y);
      x := priceNodes[y].right;
      xp := priceNodes[y].parent;
      RemoveLiftDetach(z, y);
      ghost var ns1 := priceNodes[..];
      PlaceReadyAfterDetach(ns0, ns1, root0, io0, sp0, z, y);
      RemoveLiftPlace(z, y);
      LiftDeepRemove(ns0, ns1, priceNodes[..], root0, root, io0, sp0, z, y, x, xp);
    }

    /** The successor `y`, which is not the right child of `z`, hands its
        place to its right child and takes over the right subtree of `z`. */
    method RemoveLiftDetach(z: i32, y: i32)
      requires 0 <= z < priceNodes.Length && 0 <= y < priceNodes.Length
      requires DetachReady(priceNodes[..], z, y)
      modifies this`root, priceNodes
      ensures DetachCells(old(priceNodes[..]), priceNodes[..], z, y) && root == old(root)
    {
      Transplant(y, priceNodes[y].right);
      priceNodes[y] := priceNodes[y].(right := priceNodes[z].right);
      if priceNodes[y].right != -1 {
        var right := priceNodes[y].right;
        priceNodes[right] := priceNodes[right].(parent := y);
      }
    }

    /** The successor `y` takes the place, the left subtree and the colour of
        `z`, and the slot of `z` is emptied. */
    method RemoveLiftPlace(z: i32, y: i32)
      requires 0 <= z < priceNodes.Length && 0 <= y < priceNodes.Length
      requires PlaceReady(priceNodes[..], z, y)
      modifies this`root, priceNodes
      ensures PlaceCells(old(priceNodes[..]), priceNodes[..], old(root), root, z, y)
    {
      Transplant(z, y);
      priceNodes[y] := priceNodes[y].(left := priceNodes[z].left);
      if priceNodes[y].left != -1 {
        var left := priceNodes[y].left;
        priceNodes[left] := priceNodes[left].(parent := y);
      }
      priceNodes[y] := priceNodes[y].(color := priceNodes[z].color);
      ClearPriceNode(z);
    }
      /** delete_fixup: walks up from the slot `x0` under `xp0` that the
        removal left, recoloring and rotating while the node in the slot is
        black and not the root, and paints that node black at the end. The
        keys, the order chains and the in-order sequence are untouched. A
        null sibling met on the way is dereferenced by the program, and the
        result is then Panic. */
    method DeleteFixup(x0: i32, xp0: i32) returns (r: Result<()>)
      requires Shaped() && Slot(priceNodes[..], root, sp, x0, xp0)
      requires RootBlack(priceNodes[..], root) || x0 == root
      modifies this`root, this`sp, priceNodes
      ensures Shaped() && SameEntries(old(priceNodes[..]), priceNodes[..])
      ensures r.Ok? ==> RootBlack(priceNodes[..], root)
      ensures r.Err? ==> r.error == Panic
    {
      var x, xp := x0, xp0;
      while x != root && !IsRed(priceNodes[..], x)
        invariant Shaped() && SameEntries(old(priceNodes[..]), priceNodes[..])
        invariant Slot(priceNodes[..], root, sp, x, xp)
        invariant RootBlack(priceNodes[..], root) || x == root
        decreases DeleteMeasure(priceNodes[..], root, io, sp, x, xp)
      {
        if xp == -1 {
          break;
        }
        MeasureAtLeastTwo(priceNodes[..], root, io, sp, x, xp);
        ghost var ns := priceNodes[..];
        var step := DeleteFixupPass(x, xp);
        SameEntriesTrans(old(priceNodes[..]), ns, priceNodes[..]);
        match step
        case NullSibling =>
          return Err(Panic);
        case Done =>
          x := root;
          break;
        case Up(x1, xp1) =>
          x, xp := x1, xp1;
      }
      TreeInRange(priceNodes[..], root, io, sp);
      if x != -1 {
        ghost var ns := priceNodes[..];
        SetColor(x, 0);
        SameEntriesTrans(old(priceNodes[..]), ns, priceNodes[..]);
      }
      r := Ok(());
    }

    /** One pass of the loop of delete_fixup. */
    method DeleteFixupPass(x: i32, xp: i32) returns (step: FixupStep)
      requires Shaped() && RootBlack(priceNodes[..], root) && Slot(priceNodes[..], root, sp, x, xp)
      requires xp != -1 && x != root && !IsRed(priceNodes[..], x)
      modifies this`root, this`sp, priceNodes
      ensures Shaped() && SameEntries(old(priceNodes[..]), priceNodes[..])
      ensures step.Up? ==> Slot(priceNodes[..], root, sp, step.x, step.xp) && (RootBlack(priceNodes[..], root) || step.x == root)
      ensures step.Up? ==> DeleteMeasure(priceNodes[..], root, io, sp, step.x, step.xp) < old(DeleteMeasure(priceNodes[..], root, io, sp, x, xp))
    {
      if x == priceNodes[xp].left {
        step := DeleteFixupLeft(x, xp);
      } else {
        step := DeleteFixupRight(x, xp);
      }
    }

    /** One pass of delete_fixup when `x` is the left child of `xp`. */
    method DeleteFixupLeft(x: i32, xp: i32) returns (step: FixupStep)
      requires Shaped() && RootBlack(priceNodes[..], root) && Slot(priceNodes[..], root, sp, x, xp)
      requires xp != -1 && priceNodes[xp].left == x && x != root && !IsRed(priceNodes[..], x)
      modifies this`root, this`sp, priceNodes
      ensures Shaped() && SameEntries(old(priceNodes[..]), priceNodes[..])
      ensures step.Up? ==> Slot(priceNodes[..], root, sp, step.x, step.xp) && (RootBlack(priceNodes[..], root) || step.x == root)
      ensures step.Up? ==> DeleteMeasure(priceNodes[..], root, io, sp, step.x, step.xp) < old(DeleteMeasure(priceNodes[..], root, io, sp, x, xp))
    {
      MeasureAtLeastTwo(priceNodes[..], root, io, sp, x, xp);
      ghost var ns0, sp0 := priceNodes[..], sp;
      var sibling := priceNodes[xp].right;
      SiblingOf(priceNodes[..], root, io, sp, x, xp, sibling);
      if IsRed(priceNodes[..], sibling) {
        DeleteFixupRedLeft(x, xp, sibling);
        sibling := priceNodes[xp].right;
        SiblingOf(priceNodes[..], root, io, sp, x, xp, sibling);
      }
      if sibling == -1 {
        return NullSibling;
      }
      var nephewLeft, nephewRight := priceNodes[sibling].left, priceNodes[sibling].right;
      ghost var ns1 := priceNodes[..];
      if nephewLeft != -1 && !IsRed(priceNodes[..], nephewLeft) && nephewRight != -1 && !IsRed(priceNodes[..], nephewRight) {
        SetColor(sibling, 1);
        SlotUp(priceNodes[..], root, io, sp, xp);
        step := Up(xp, priceNodes[xp].parent);
      } else {
        DeleteFixupRotateLeft(xp, sibling);
        step := Done;
      }
      SameEntriesTrans(ns0, ns1, priceNodes[..]);
    }

    /** The red-sibling case of `DeleteFixupLeft`: the sibling turns black,
        `xp` red, and `xp` is rotated left, so that `x` gets a black
        sibling. */
    method DeleteFixupRedLeft(x: i32, xp: i32, s: i32)
      requires Shaped() && RootBlack(priceNodes[..], root) && Slot(priceNodes[..], root, sp, x, xp)
      requires xp != -1 && priceNodes[xp].left == x && priceNodes[xp].right == s && 0 <= s < priceNodes.Length && x != root
      modifies this`root, this`sp, priceNodes
      ensures Shaped() && SameEntries(old(priceNodes[..]), priceNodes[..]) && RootBlack(priceNodes[..], root)
      ensures Slot(priceNodes[..], root, sp, x, xp) && priceNodes[xp].left == x && priceNodes[xp].color == RED && x != root
    {
      ghost var ns0, root0, sp0 := priceNodes[..], root, sp;
      SetColor(s, 0);
      ghost var ns1 := priceNodes[..];
      SetColor(xp, 1);
      ghost var pp := priceNodes[..];
      SameEntriesTrans(ns0, ns1, pp);
      LeftRotate(xp);
      RedSiblingLeft(ns0, pp, priceNodes[..], root0, root, io, sp0, sp, x, xp, s);
      SameEntriesTrans(ns0, pp, priceNodes[..]);
    }

    /** The rotating cases of `DeleteFixupLeft`: when the right nephew is a
        black node, the sibling is first rotated right; then the sibling
        takes the colour of `xp`, `xp` and the right nephew turn black, and
        `xp` is rotated left. */
    method DeleteFixupRotateLeft(xp: i32, s: i32)
      requires Shaped() && xp in sp && s in sp && 0 <= xp < priceNodes.Length && 0 <= s < priceNodes.Length
      requires priceNodes[xp].right == s && priceNodes[xp].left != s && priceNodes[s].parent == xp
      modifies this`root, this`sp, priceNodes
      ensures Shaped() && SameEntries(old(priceNodes[..]), priceNodes[..])
    {
      ghost var ns0 := priceNodes[..];
      var sibling := DeleteFixupNephewLeft(xp, s);
      ghost var ns1 := priceNodes[..];
      DeleteFixupTailLeft(xp, sibling);
      SameEntriesTrans(ns0, ns1, priceNodes[..]);
    }

    /** The first step of `DeleteFixupRotateLeft`: when the right nephew is a
        black node, the left nephew turns black, the sibling red, and the
        sibling is rotated right; the new sibling is returned. */
    method DeleteFixupNephewLeft(xp: i32, s: i32) returns (sibling: i32)
      requires Shaped() && xp in sp && s in sp && 0 <= xp < priceNodes.Length && 0 <= s < priceNodes.Length
      requires priceNodes[xp].right == s && priceNodes[xp].left != s && priceNodes[s].parent == xp
      modifies this`root, this`sp, priceNodes
      ensures Shaped() && SameEntries(old(priceNodes[..]), priceNodes[..])
      ensures xp in sp && 0 <= xp < priceNodes.Length && sibling == priceNodes[xp].right && sibling != -1
    {
      ghost var ns0 := priceNodes[..];
      sibling := s;
      Links(priceNodes[..], root, io, sp, sibling);
      if priceNodes[sibling].right != -1 && !IsRed(priceNodes[..], priceNodes[sibling].right) {
        var siblingLeft := priceNodes[sibling].left;
        SetColor(siblingLeft, 0);
        ghost var ns1 := priceNodes[..];
        SetColor(sibling, 1);
        ghost var pp, r0 := priceNodes[..], root;
        SameEntriesTrans(ns0, ns1, pp);
        RightRotate(sibling);
        if pp[sibling].left != -1 {
          NephewUpLeft(pp, priceNodes[..], r0, root, xp, sibling);
        }
        sibling := priceNodes[xp].right;
        SameEntriesTrans(ns0, pp, priceNodes[..]);
      }
    }

    /** The last step of `DeleteFixupRotateLeft`: the sibling takes the
        colour of `xp`, `xp` and the right nephew turn black, and `xp` is
        rotated left. */
    method DeleteFixupTailLeft(xp: i32, sibling: i32)
      requires Shaped() && xp in sp && 0 <= xp < priceNodes.Length && sibling == priceNodes[xp].right && sibling != -1
      modifies this`root, this`sp, priceNodes
      ensures Shaped() && SameEntries(old(priceNodes[..]), priceNodes[..])
    {
      Links(priceNodes[..], root, io, sp, xp);
      Links(priceNodes[..], root, io, sp, sibling);
      ghost var ns0 := priceNodes[..];
      SetColor(sibling, priceNodes[xp].color);
      ghost var ns1 := priceNodes[..];
      SetColor(xp, 0);
      ghost var ns2 := priceNodes[..];
      var siblingRight := priceNodes[sibling].right;
      SetColor(siblingRight, 0);
      ghost var ns3 := priceNodes[..];
      SameEntriesTrans(ns0, ns1, ns2);
      SameEntriesTrans(ns0, ns2, ns3);
      LeftRotate(xp);
      SameEntriesTrans(ns0, ns3, priceNodes[..]);
    }

    /** One pass of delete_fixup when `x` is the right child of `xp`. */
    method DeleteFixupRight(x: i32, xp: i32) returns (step: FixupStep)
      requires Shaped() && RootBlack(priceNodes[..], root) && Slot(priceNodes[..], root, sp, x, xp)
      requires xp != -1 && priceNodes[xp].left != x && x != root && !IsRed(priceNodes[..], x)
      modifies this`root, this`sp, priceNodes
      ensures Shaped() && SameEntries(old(priceNodes[..]), priceNodes[..])
      ensures step.Up? ==> Slot(priceNodes[..], root, sp, step.x, step.xp) && (RootBlack(priceNodes[..], root) || step.x == root)
      ensures step.Up? ==> DeleteMeasure(priceNodes[..], root, io, sp, step.x, step.xp) < old(DeleteMeasure(priceNodes[..], root, io, sp, x, xp))
    {
      MeasureAtLeastTwo(priceNodes[..], root, io, sp, x, xp);
      ghost var ns0, sp0 := priceNodes[..], sp;
      var sibling := priceNodes[xp].left;
      SiblingOf(priceNodes[..], root, io, sp, x, xp, sibling);
      if IsRed(priceNodes[..], sibling) {
        DeleteFixupRedRight(x, xp, sibling);
        sibling := priceNodes[xp].left;
        SiblingOf(priceNodes[..], root, io, sp, x, xp, sibling);
      }
      if sibling == -1 {
        return NullSibling;
      }
      var nephewLeft, nephewRight := priceNodes[sibling].left, priceNodes[sibling].right;
      ghost var ns1 := priceNodes[..];
      if nephewRight != -1 && !IsRed(priceNodes[..], nephewRight) && nephewLeft != -1 && !IsRed(priceNodes[..], nephewLeft) {
        SetColor(sibling, 1);
        SlotUp(priceNodes[..], root, io, sp, xp);
        step := Up(xp, priceNodes[xp].parent);
      } else {
        DeleteFixupRotateRight(xp, sibling);
        step := Done;
      }
      SameEntriesTrans(ns0, ns1, priceNodes[..]);
    }

    /** The mirror image of `DeleteFixupRedLeft`. */
    method DeleteFixupRedRight(x: i32, xp: i32, s: i32)
      requires Shaped() && RootBlack(priceNodes[..], root) && Slot(priceNodes[..], root, sp, x, xp)
      requires xp != -1 && priceNodes[xp].right == x && priceNodes[xp].left == s && 0 <= s < priceNodes.Length && x != root
      modifies this`root, this`sp, priceNodes
      ensures Shaped() && SameEntries(old(priceNodes[..]), priceNodes[..]) && RootBlack(priceNodes[..], root)
      ensures Slot(priceNodes[..], root, sp, x, xp) && priceNodes[xp].right == x && priceNodes[xp].color == RED && x != root
    {
      ghost var ns0, root0, sp0 := priceNodes[..], root, sp;
      SetColor(s, 0);
      ghost var ns1 := priceNodes[..];
      SetColor(xp, 1);
      ghost var pp := priceNodes[..];
      SameEntriesTrans(ns0, ns1, pp);
      RightRotate(xp);
      RedSiblingRight(ns0, pp, priceNodes[..], root0, root, io, sp0, sp, x, xp, s);
      SameEntriesTrans(ns0, pp, priceNodes[..]);
    }

    /** The mirror image of `DeleteFixupRotateLeft`. */
    method DeleteFixupRotateRight(xp: i32, s: i32)
      requires Shaped() && xp in sp && s in sp && 0 <= xp < priceNodes.Length && 0 <= s < priceNodes.Length
      requires priceNodes[xp].left == s && priceNodes[xp].right != s && priceNodes[s].parent == xp
      modifies this`root, this`sp, priceNodes
      ensures Shaped() && SameEntries(old(priceNodes[..]), priceNodes[..])
    {
      ghost var ns0 := priceNodes[..];
      var sibling := DeleteFixupNephewRight(xp, s);
      ghost var ns1 := priceNodes[..];
      DeleteFixupTailRight(xp, sibling);
      SameEntriesTrans(ns0, ns1, priceNodes[..]);
    }

    /** The first step of `DeleteFixupRotateRight`: when the left nephew is a
        black node, the right nephew turns black, the sibling red, and the
        sibling is rotated left; the new sibling is returned. */
    method DeleteFixupNephewRight(xp: i32, s: i32) returns (sibling: i32)
      requires Shaped() && xp in sp && s in sp && 0 <= xp < priceNodes.Length && 0 <= s < priceNodes.Length
      requires priceNodes[xp].left == s && priceNodes[xp].right != s && priceNodes[s].parent == xp
      modifies this`root, this`sp, priceNodes
      ensures Shaped() && SameEntries(old(priceNodes[..]), priceNodes[..])
      ensures xp in sp && 0 <= xp < priceNodes.Length && sibling == priceNodes[xp].left && sibling != -1
    {
      ghost var ns0 := priceNodes[..];
      sibling := s;
      Links(priceNodes[..], root, io, sp, sibling);
      if priceNodes[sibling].left != -1 && !IsRed(priceNodes[..], priceNodes[sibling].left) {
        var siblingRight := priceNodes[sibling].right;
        SetColor(siblingRight, 0);
        ghost var ns1 := priceNodes[..];
        SetColor(sibling, 1);
        ghost var pp, r0 := priceNodes[..], root;
        SameEntriesTrans(ns0, ns1, pp);
        LeftRotate(sibling);
        if pp[sibling].right != -1 {
          NephewUpRight(pp, priceNodes[..], r0, root, xp, sibling);
        }
        sibling := priceNodes[xp].left;
        SameEntriesTrans(ns0, pp, priceNodes[..]);
      }
    }

    /** The last step of `DeleteFixupRotateRight`: the sibling takes the
        colour of `xp`, `xp` and the left nephew turn black, and `xp` is
        rotated right. */
    method DeleteFixupTailRight(xp: i32, sibling: i32)
      requires Shaped() && xp in sp && 0 <= xp < priceNodes.Length && sibling == priceNodes[xp].left && sibling != -1
      modifies this`root, this`sp, priceNodes
      ensures Shaped() && SameEntries(old(priceNodes[..]), priceNodes[..])
    {
      Links(priceNodes[..], root, io, sp, xp);
      Links(priceNodes[..], root, io, sp, sibling);
      ghost var ns0 := priceNodes[..];
      SetColor(sibling, priceNodes[xp].color);
      ghost var ns1 := priceNodes[..];
      SetColor(xp, 0);
      ghost var ns2 := priceNodes[..];
      var siblingLeft := priceNodes[sibling].left;
      SetColor(siblingLeft, 0);
      ghost var ns3 := priceNodes[..];
      SameEntriesTrans(ns0, ns1, ns2);
      SameEntriesTrans(ns0, ns2, ns3);
      RightRotate(xp);
      SameEntriesTrans(ns0, ns3, priceNodes[..]);
    }
  }
}
