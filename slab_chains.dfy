/** The FIFO chains of resting orders hanging off the price nodes of the
    arena book (utils/slab.rs), and the abstract book they add up to.

    `cs[i]` is the ghost list of order-entry indices of price node `i`,
    head first. A chain is described by its head and tail fields and the
    `nextInPrice` link of each of its entries; no entry is on two chains,
    and every entry on a chain is occupied. */
module SlabChains {
  import opened Common
  import opened BookState

  /** One resting order as the matching engine sees it. */
  datatype Resting = Resting(orderId: u64, owner: Pubkey, slot: u16, quantity: u64, reserved: u64)

  /** One price level: its price and its resting orders, oldest first. */
  datatype Level = Level(price: u128, orders: seq<Resting>)

  /** The book with the oldest order of level `at` down to quantity `q`;
      any other book is returned as it is. */
  function FillFront(b: seq<Level>, at: int, q: u64): (r: seq<Level>)
    ensures |r| == |b|
  {
    if 0 <= at < |b| && b[at].orders != [] then
      b[at := b[at].(orders := b[at].orders[0 := b[at].orders[0].(quantity := q)])]
    else b
  }

  /** The book with its oldest order of level `at` gone; any other book is
      returned as it is. */
  function DropFront(b: seq<Level>, at: int): (r: seq<Level>)
    ensures |r| == |b|
  {
    if 0 <= at < |b| && b[at].orders != [] then b[at := b[at].(orders := b[at].orders[1..])] else b
  }

  /** Index `e` lies on chain `c`. */
  predicate OnChain(c: seq<int>, e: int)
  {
    exists k :: 0 <= k < |c| && c[k] == e
  }

  /** Chain `c` is the one that starts at price node `i`. */
  ghost predicate ChainOk(ns: seq<PriceNode>, es: seq<OrderEntry>, i: int, c: seq<int>)
    requires 0 <= i < |ns|
  {
    (if c == [] then ns[i].orderHead == -1 && ns[i].orderTail == -1
     else ns[i].orderHead == c[0] && ns[i].orderTail == c[|c| - 1]) &&
    (forall k :: 0 <= k < |c| ==> 0 <= c[k] < |es| && es[c[k]].occupied) &&
    (forall k :: 0 <= k < |c| - 1 ==> es[c[k]].nextInPrice == c[k + 1]) &&
    (c != [] ==> es[c[|c| - 1]].nextInPrice == -1)
  }

  /** Position `a` of chain `i` and position `b` of chain `j` hold the
      same entry. */
  ghost predicate SameEntry(cs: seq<seq<int>>, i: int, a: int, j: int, b: int)
  {
    0 <= i < |cs| && 0 <= j < |cs| && 0 <= a < |cs[i]| && 0 <= b < |cs[j]| && cs[i][a] == cs[j][b]
  }

  /** No entry is on two chains, or twice on one. */
  ghost predicate Disjoint(cs: seq<seq<int>>)
  {
    forall i, j, a, b {:trigger SameEntry(cs, i, a, j, b)} :: SameEntry(cs, i, a, j, b) ==> i == j && a == b
  }

  /** `cs` gives the chain of every price node. */
  ghost predicate Chains(ns: seq<PriceNode>, es: seq<OrderEntry>, cs: seq<seq<int>>)
  {
    |cs| == |ns| && (forall i :: 0 <= i < |ns| ==> ChainOk(ns, es, i, cs[i])) && Disjoint(cs)
  }

  /** An entry that is on no chain. */
  ghost predicate Unchained(cs: seq<seq<int>>, e: int)
  {
    forall i :: 0 <= i < |cs| ==> !OnChain(cs[i], e)
  }

  function RestingOf(e: OrderEntry): Resting
  {
    Resting(e.orderId, e.openOrderOwner, e.ownerSlot, e.quantity, e.reservedAmount)
  }

  /** The resting orders of one chain. */
  function Orders(es: seq<OrderEntry>, c: seq<int>): (r: seq<Resting>)
    requires forall k :: 0 <= k < |c| ==> 0 <= c[k] < |es|
    ensures |r| == |c|
  {
    seq(|c|, k requires 0 <= k < |c| => RestingOf(es[c[k]]))
  }

  /** The levels of the book, in key order. */
  ghost function BookOf(ns: seq<PriceNode>, es: seq<OrderEntry>, io: seq<int>, cs: seq<seq<int>>): (b: seq<Level>)
    requires Chains(ns, es, cs)
    requires forall k :: 0 <= k < |io| ==> 0 <= io[k] < |ns|
    ensures |b| == |io|
  {
    seq(|io|, k requires 0 <= k < |io| => Level(ns[io[k]].key, Orders(es, cs[io[k]])))
  }

  /** The book only depends on the keys and the resting orders of the
      nodes in the in-order sequence. */
  lemma BookOfFrame(ns: seq<PriceNode>, es: seq<OrderEntry>, cs: seq<seq<int>>,
                    ns': seq<PriceNode>, es': seq<OrderEntry>, cs': seq<seq<int>>, io: seq<int>)
    requires Chains(ns, es, cs) && Chains(ns', es', cs')
    requires forall k :: 0 <= k < |io| ==> 0 <= io[k] < |ns| && 0 <= io[k] < |ns'|
    requires forall k :: 0 <= k < |io| ==>
      ns'[io[k]].key == ns[io[k]].key && Orders(es', cs'[io[k]]) == Orders(es, cs[io[k]])
    ensures BookOf(ns', es', io, cs') == BookOf(ns, es, io, cs)
  {
  }

  /** Changing the chain of the node at position `pos` of the in-order
      sequence changes the level at `pos` of the book and no other. */
  lemma BookOfSet(ns: seq<PriceNode>, es: seq<OrderEntry>, cs: seq<seq<int>>,
                  ns': seq<PriceNode>, es': seq<OrderEntry>, cs': seq<seq<int>>, io: seq<int>, pos: nat)
    requires Chains(ns, es, cs) && Chains(ns', es', cs')
    requires forall k :: 0 <= k < |io| ==> 0 <= io[k] < |ns| && 0 <= io[k] < |ns'|
    requires pos < |io| && forall k :: 0 <= k < |io| && k != pos ==> io[k] != io[pos]
    requires forall k :: 0 <= k < |io| ==> ns'[io[k]].key == ns[io[k]].key
    requires forall k :: 0 <= k < |io| && k != pos ==> Orders(es', cs'[io[k]]) == Orders(es, cs[io[k]])
    ensures BookOf(ns', es', io, cs') ==
      BookOf(ns, es, io, cs)[pos := Level(ns[io[pos]].key, Orders(es', cs'[io[pos]]))]
  {
  }

  /** Price nodes whose head and tail are null all have the empty chain. */
  lemma EmptyChains(ns: seq<PriceNode>, es: seq<OrderEntry>)
    requires forall i :: 0 <= i < |ns| ==> ns[i].orderHead == -1 && ns[i].orderTail == -1
    ensures Chains(ns, es, seq(|ns|, _ => []))
  {
  }

  /** Inserting node `z` with an empty chain at gap `k` of the in-order
      sequence inserts an empty level at `k` of the book. */
  lemma BookOfInsert(ns: seq<PriceNode>, es: seq<OrderEntry>, cs: seq<seq<int>>,
                     ns': seq<PriceNode>, cs': seq<seq<int>>, io: seq<int>, z: int, k: nat)
    requires Chains(ns, es, cs) && Chains(ns', es, cs') && k <= |io|
    requires forall j :: 0 <= j < |io| ==> 0 <= io[j] < |ns| && 0 <= io[j] < |ns'| && io[j] != z
    requires forall j :: 0 <= j < |io| ==> ns'[io[j]].key == ns[io[j]].key && cs'[io[j]] == cs[io[j]]
    requires 0 <= z < |ns'| && cs'[z] == []
    ensures BookOf(ns', es, io[..k] + [z] + io[k..], cs') ==
      BookOf(ns, es, io, cs)[..k] + [Level(ns'[z].key, [])] + BookOf(ns, es, io, cs)[k..]
  {
    var io' := io[..k] + [z] + io[k..];
    var b, b' := BookOf(ns, es, io, cs), BookOf(ns', es, io', cs');
    var w := b[..k] + [Level(ns'[z].key, [])] + b[k..];
    forall j | 0 <= j < |io'|
      ensures b'[j] == w[j]
    {
      if j < k {
        assert io'[j] == io[j];
      } else if j > k {
        assert io'[j] == io[j - 1];
      }
    }
  }

  /** An unoccupied entry is on no chain. */
  lemma UnoccupiedUnchained(ns: seq<PriceNode>, es: seq<OrderEntry>, cs: seq<seq<int>>, e: int)
    requires Chains(ns, es, cs) && 0 <= e < |es| && !es[e].occupied
    ensures Unchained(cs, e)
  {
    forall i | 0 <= i < |cs|
      ensures !OnChain(cs[i], e)
    {
      assert ChainOk(ns, es, i, cs[i]);
    }
  }

  /** The chains only depend on the head and tail fields of the price nodes
      and on the occupancy and links of the chained entries. */
  lemma ChainsFrame(ns: seq<PriceNode>, es: seq<OrderEntry>, ns': seq<PriceNode>, es': seq<OrderEntry>, cs: seq<seq<int>>)
    requires Chains(ns, es, cs)
    requires |ns'| == |ns| && forall i :: 0 <= i < |ns| ==> ns'[i].orderHead == ns[i].orderHead && ns'[i].orderTail == ns[i].orderTail
    requires |es'| == |es|
    requires forall i, k :: 0 <= i < |cs| && 0 <= k < |cs[i]| ==>
      es'[cs[i][k]].occupied == es[cs[i][k]].occupied && es'[cs[i][k]].nextInPrice == es[cs[i][k]].nextInPrice
    ensures Chains(ns', es', cs)
  {
    forall i | 0 <= i < |ns|
      ensures ChainOk(ns', es', i, cs[i])
    {
      assert ChainOk(ns, es, i, cs[i]);
    }
  }

  /** Resetting the head and tail of price node `z` empties its chain and
      no other. */
  lemma ChainsReset(ns: seq<PriceNode>, es: seq<OrderEntry>, ns': seq<PriceNode>, cs: seq<seq<int>>, z: int)
    requires Chains(ns, es, cs) && 0 <= z < |ns|
    requires |ns'| == |ns| && ns'[z].orderHead == -1 && ns'[z].orderTail == -1
    requires forall i :: 0 <= i < |ns| && i != z ==> ns'[i].orderHead == ns[i].orderHead && ns'[i].orderTail == ns[i].orderTail
    ensures Chains(ns', es, cs[z := []])
  {
    var cs' := cs[z := []];
    forall i | 0 <= i < |ns|
      ensures ChainOk(ns', es, i, cs'[i])
    {
      assert ChainOk(ns, es, i, cs[i]);
    }
    forall i, j, a, b | SameEntry(cs', i, a, j, b)
      ensures i == j && a == b
    {
      assert SameEntry(cs, i, a, j, b);
    }
  }

  /** Claiming an entry that is on no chain leaves every chain as it is. */
  lemma ChainsClaim(ns: seq<PriceNode>, es: seq<OrderEntry>, es': seq<OrderEntry>, cs: seq<seq<int>>, e: int)
    requires Chains(ns, es, cs) && 0 <= e < |es| && Unchained(cs, e)
    requires |es'| == |es| && forall j :: 0 <= j < |es| && j != e ==> es'[j] == es[j]
    ensures Chains(ns, es', cs)
    ensures forall i :: 0 <= i < |cs| ==> Orders(es', cs[i]) == Orders(es, cs[i])
  {
    forall i, k | 0 <= i < |cs| && 0 <= k < |cs[i]|
      ensures es'[cs[i][k]] == es[cs[i][k]]
    {
      assert ChainOk(ns, es, i, cs[i]);
      assert OnChain(cs[i], cs[i][k]);
    }
    ChainsFrame(ns, es, ns, es', cs);
  }

  /** A chain survives any change that keeps its head, tail, entries'
      occupancy and links. */
  lemma ChainOkFrame(ns: seq<PriceNode>, es: seq<OrderEntry>, ns': seq<PriceNode>, es': seq<OrderEntry>, i: int, c: seq<int>)
    requires 0 <= i < |ns| && 0 <= i < |ns'| && ChainOk(ns, es, i, c)
    requires ns'[i].orderHead == ns[i].orderHead && ns'[i].orderTail == ns[i].orderTail && |es'| == |es|
    requires forall k :: 0 <= k < |c| ==> es'[c[k]].occupied == es[c[k]].occupied && es'[c[k]].nextInPrice == es[c[k]].nextInPrice
    ensures ChainOk(ns', es', i, c)
  {
  }

  /** Adding an unchained entry at the end of one chain keeps the chains
      disjoint. */
  lemma DisjointAppend(cs: seq<seq<int>>, p: int, e: int)
    requires Disjoint(cs) && 0 <= p < |cs| && Unchained(cs, e)
    ensures Disjoint(cs[p := cs[p] + [e]])
  {
    var c := cs[p];
    var cs' := cs[p := c + [e]];
    forall j, b | 0 <= j < |cs| && 0 <= b < |cs[j]|
      ensures cs[j][b] != e
    {
      assert !OnChain(cs[j], e);
    }
    forall i, j, a, b | SameEntry(cs', i, a, j, b)
      ensures i == j && a == b
    {
      assert i == p && a == |c| ==> cs'[i][a] == e;
      assert j == p && b == |c| ==> cs'[j][b] == e;
      assert i != p || a < |c| ==> cs'[i][a] == cs[i][a];
      assert j != p || b < |c| ==> cs'[j][b] == cs[j][b];
      assert (i != p || a < |c|) && (j != p || b < |c|) ==> SameEntry(cs, i, a, j, b);
    }
  }

  /** Dropping the head of one chain keeps the chains disjoint. */
  lemma DisjointTail(cs: seq<seq<int>>, p: int)
    requires Disjoint(cs) && 0 <= p < |cs| && cs[p] != []
    ensures Disjoint(cs[p := cs[p][1..]])
  {
    var cs' := cs[p := cs[p][1..]];
    forall i, j, a, b | SameEntry(cs', i, a, j, b)
      ensures i == j && a == b
    {
      var a0 := if i == p then a + 1 else a;
      var b0 := if j == p then b + 1 else b;
      assert cs'[i][a] == cs[i][a0] && cs'[j][b] == cs[j][b0];
      assert SameEntry(cs, i, a0, j, b0);
    }
  }

  /** An entry on chain `p` is on no other chain, at no other position. */
  lemma ChainedOnce(ns: seq<PriceNode>, es: seq<OrderEntry>, cs: seq<seq<int>>, p: int, k0: int, i: int)
    requires Chains(ns, es, cs) && 0 <= p < |cs| && 0 <= k0 < |cs[p]| && 0 <= i < |cs|
    ensures forall k :: 0 <= k < |cs[i]| && (i != p || k != k0) ==> cs[i][k] != cs[p][k0]
  {
    forall k | 0 <= k < |cs[i]| && (i != p || k != k0)
      ensures cs[i][k] != cs[p][k0]
    {
      assert !SameEntry(cs, i, k, p, k0);
    }
  }

  /** append_order_to_price on a consistent chain: the entry becomes the
      new tail, and the other chains keep their orders. */
  lemma ChainsAppend(ns: seq<PriceNode>, es: seq<OrderEntry>, ns': seq<PriceNode>, es': seq<OrderEntry>, cs: seq<seq<int>>, p: int, e: i32)
    requires Chains(ns, es, cs) && 0 <= p < |ns| && 0 <= e < |es| && es[e].occupied && Unchained(cs, e)
    requires ns' == ns[p := ns[p].(orderHead := if ns[p].orderHead == -1 then e else ns[p].orderHead, orderTail := e)]
    requires var t := ns[p].orderTail;
      es' == (if ns[p].orderHead == -1 then es else es[t := es[t].(nextInPrice := e)])[e := es[e].(nextInPrice := -1)]
    ensures Chains(ns', es', cs[p := cs[p] + [e]])
    ensures Orders(es', cs[p] + [e]) == Orders(es, cs[p]) + [RestingOf(es[e])]
    ensures forall i :: 0 <= i < |cs| && i != p ==> Orders(es', cs[i]) == Orders(es, cs[i])
  {
    var c := cs[p];
    var cs' := cs[p := c + [e]];
    assert ChainOk(ns, es, p, c);
    DisjointAppend(cs, p, e);
    forall i | 0 <= i < |cs|
      ensures forall k :: 0 <= k < |cs[i]| && (i != p || k < |c| - 1) ==> es'[cs[i][k]] == es[cs[i][k]]
    {
      assert !OnChain(cs[i], e);
      if c != [] {
        ChainedOnce(ns, es, cs, p, |c| - 1, i);
      }
    }
    forall i | 0 <= i < |ns| && i != p
      ensures ChainOk(ns', es', i, cs'[i])
    {
      assert ChainOk(ns, es, i, cs[i]);
      ChainOkFrame(ns, es, ns', es', i, cs[i]);
    }
    assert ChainOk(ns', es', p, cs'[p]);
  }

  /** pop_order_from_prices on a non-empty chain: the head leaves it and is
      released; the other chains keep their orders. */
  lemma ChainsPop(ns: seq<PriceNode>, es: seq<OrderEntry>, ns': seq<PriceNode>, es': seq<OrderEntry>, cs: seq<seq<int>>, p: int)
    requires Chains(ns, es, cs) && 0 <= p < |ns| && cs[p] != []
    requires var h := cs[p][0]; var next := es[h].nextInPrice;
      ns' == ns[p := ns[p].(orderHead := next, orderTail := if next == -1 then -1 else ns[p].orderTail)] &&
      es' == es[h := es[h].(occupied := false, nextInPrice := -1)]
    ensures Chains(ns', es', cs[p := cs[p][1..]])
    ensures Orders(es', cs[p][1..]) == Orders(es, cs[p])[1..]
    ensures forall i :: 0 <= i < |cs| && i != p ==> Orders(es', cs[i]) == Orders(es, cs[i])
  {
    var c := cs[p];
    var cs' := cs[p := c[1..]];
    assert ChainOk(ns, es, p, c);
    DisjointTail(cs, p);
    forall i | 0 <= i < |cs|
      ensures forall k :: 0 <= k < |cs[i]| && (i != p || k > 0) ==> es'[cs[i][k]] == es[cs[i][k]]
    {
      ChainedOnce(ns, es, cs, p, 0, i);
    }
    forall i | 0 <= i < |ns| && i != p
      ensures ChainOk(ns', es', i, cs'[i])
    {
      assert ChainOk(ns, es, i, cs[i]);
      ChainOkFrame(ns, es, ns', es', i, cs[i]);
    }
    assert ChainOk(ns', es', p, cs'[p]);
  }

  /** Rewriting the quantity of the head entry of chain `p` changes that one
      resting order only. */
  lemma ChainsFill(ns: seq<PriceNode>, es: seq<OrderEntry>, es': seq<OrderEntry>, cs: seq<seq<int>>, p: int, q: u64)
    requires Chains(ns, es, cs) && 0 <= p < |ns| && cs[p] != []
    requires es' == es[cs[p][0] := es[cs[p][0]].(quantity := q)]
    ensures Chains(ns, es', cs)
    ensures Orders(es', cs[p]) == Orders(es, cs[p])[0 := Orders(es, cs[p])[0].(quantity := q)]
    ensures forall i :: 0 <= i < |cs| && i != p ==> Orders(es', cs[i]) == Orders(es, cs[i])
  {
    assert ChainOk(ns, es, p, cs[p]);
    forall i | 0 <= i < |cs|
      ensures forall k :: 0 <= k < |cs[i]| && (i != p || k > 0) ==> es'[cs[i][k]] == es[cs[i][k]]
    {
      ChainedOnce(ns, es, cs, p, 0, i);
    }
    ChainsFrame(ns, es, ns, es', cs);
  }

  /** Prices strictly increase along the book. */
  ghost predicate Ascending(b: seq<Level>)
  {
    forall a, c :: 0 <= a < c < |b| ==> b[a].price < b[c].price
  }

  /** The number of levels priced below `price`. */
  function Below(b: seq<Level>, price: int): (n: nat)
    ensures n <= |b|
  {
    if b == [] then 0 else (if b[0].price < price then 1 else 0) + Below(b[1..], price)
  }

  /** On an ascending book, `Below` is the gap where `price` belongs. */
  lemma {:induction false} BelowAscending(b: seq<Level>, price: int)
    requires Ascending(b)
    ensures forall j :: 0 <= j < Below(b, price) ==> b[j].price < price
    ensures forall j :: Below(b, price) <= j < |b| ==> b[j].price >= price
  {
    if b != [] {
      BelowAscending(b[1..], price);
      forall j | 0 <= j < |b|
        ensures j < Below(b, price) ==> b[j].price < price
        ensures j >= Below(b, price) ==> b[j].price >= price
      {
        if j > 0 {
          assert b[j] == b[1..][j - 1];
        } else if b[0].price >= price && |b| > 1 {
          assert b[1..][0] == b[1];
        }
      }
    }
  }

  /** A gap with every price below it smaller and every price from it on
      larger is the one `Below` counts. */
  lemma {:induction false} BelowSplit(b: seq<Level>, price: int, k: nat)
    requires k <= |b|
    requires forall j :: 0 <= j < k ==> b[j].price < price
    requires forall j :: k <= j < |b| ==> b[j].price > price
    ensures Below(b, price) == k
  {
    if b != [] {
      assert forall j :: 0 <= j < |b| - 1 ==> b[1..][j] == b[j + 1];
      BelowSplit(b[1..], price, if k > 0 then k - 1 else 0);
    }
  }

  /** The book with an empty level at `price` added in its place. */
  function WithLevel(b: seq<Level>, price: u128): (r: seq<Level>)
    ensures |r| == |b| + 1
  {
    b[..Below(b, price)] + [Level(price, [])] + b[Below(b, price)..]
  }

  /** Adding a level at a price the book does not hold keeps it ascending. */
  lemma WithLevelAscending(b: seq<Level>, price: u128)
    requires Ascending(b) && forall j :: 0 <= j < |b| ==> b[j].price != price
    ensures Ascending(WithLevel(b, price))
    ensures WithLevel(b, price)[Below(b, price)] == Level(price, [])
  {
    BelowAscending(b, price);
  }

  /** The book with the level at `price` taken out, if it holds one. */
  function WithoutLevel(b: seq<Level>, price: u128): (r: seq<Level>)
  {
    var k := Below(b, price);
    if k < |b| && b[k].price == price then b[..k] + b[k + 1..] else b
  }

  /** On an ascending book, taking out the level at `price` keeps every
      other level in order and drops exactly the one at `price`. */
  lemma WithoutLevelAscending(b: seq<Level>, price: u128)
    requires Ascending(b)
    ensures Ascending(WithoutLevel(b, price))
    ensures forall j :: 0 <= j < |WithoutLevel(b, price)| ==> WithoutLevel(b, price)[j].price != price
    ensures |WithoutLevel(b, price)| == if exists j :: 0 <= j < |b| && b[j].price == price then |b| - 1 else |b|
  {
    BelowAscending(b, price);
    var k := Below(b, price);
    var r := WithoutLevel(b, price);
    if k < |b| && b[k].price == price {
      assert forall j :: 0 <= j < |r| ==> r[j] == b[if j < k then j else j + 1];
    } else {
      assert forall j :: 0 <= j < |b| ==> b[j].price != price;
    }
  }

  /** Adding an empty level at a new price and taking it out again gives
      back the book. */
  lemma WithoutWithLevel(b: seq<Level>, price: u128)
    requires Ascending(b) && forall j :: 0 <= j < |b| ==> b[j].price != price
    ensures WithoutLevel(WithLevel(b, price), price) == b
  {
    var k := Below(b, price);
    var w := WithLevel(b, price);
    BelowAscending(b, price);
    WithLevelAscending(b, price);
    assert forall j :: 0 <= j < |w| ==> w[j] == if j < k then b[j] else if j == k then Level(price, []) else b[j - 1];
    BelowAscending(w, price);
    var m := Below(w, price);
    assert w[k].price == price;
    assert forall j :: 0 <= j < k ==> w[j].price < price;
    assert m < |w| ==> w[m].price >= price;
    assert m == k;
    assert w[..k] + w[k + 1..] == b;
  }
}
