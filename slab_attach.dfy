/** Attaching a new leaf to the arena tree, as insert_price_node_by_tree
    does before its fix-up (utils/slab.rs): every position from the gap `k`
    on moves one place to the right, and the new node takes position `k`. */
module SlabAttach {
  import opened Common
  import opened BookState
  import opened SlabTree

  /** A subtree boundary after the insertion at gap `k`. A boundary equal
      to `k` moves only when the new node hangs to the right of its parent:
      then it closes the parent's subtree, otherwise it opens it. */
  function ShiftedBound(b: nat, k: nat, right: bool): nat
  {
    if b > k || (b == k && right) then b + 1 else b
  }

  /** A position after the insertion at gap `k`. */
  function ShiftedAt(a: nat, k: nat): nat
  {
    if a >= k then a + 1 else a
  }

  function ShiftedSpan(s: Span, k: nat, right: bool): Span
  {
    Span(ShiftedBound(s.lo, k, right), ShiftedAt(s.at, k), ShiftedBound(s.hi, k, right))
  }

  /** The spans after attaching `z` at gap `k`. */
  ghost function SpansAfterAttach(sp: map<int, Span>, z: int, k: nat, right: bool): map<int, Span>
  {
    (map i | i in sp :: ShiftedSpan(sp[i], k, right))[z := Span(k, k, k + 1)]
  }

  /** Where the descent of insert_price_node_by_tree stops: `y` is null on
      an empty tree, or the node whose null child slot the new key goes
      into; `k` is the number of keys below the new one. */
  ghost predicate AttachPoint(ns: seq<PriceNode>, root: int, io: seq<int>, sp: map<int, Span>, y: int, price: int, right: bool, k: nat)
  {
    k <= |io| && (forall j :: 0 <= j < |io| ==> 0 <= io[j] < |ns|) &&
    (y == -1 ==> root == -1 && k == 0) &&
    (y != -1 ==>
      y in sp && 0 <= y < |ns| &&
      (if right then ns[y].right == -1 && k == sp[y].at + 1 else ns[y].left == -1 && k == sp[y].at)) &&
    (forall j :: 0 <= j < k ==> ns[io[j]].key < price) &&
    (forall j :: k <= j < |io| ==> ns[io[j]].key > price)
  }

  /** What the attach writes: the new record at `z`, the child link of `y`,
      and the root when the tree was empty. */
  ghost predicate AttachCells(ns: seq<PriceNode>, ns': seq<PriceNode>, root: int, root': int, z: i32, y: i32, price: u128, right: bool)
  {
    0 <= z < |ns| && |ns'| == |ns| && IndexOrNull(ns, y) && z != y &&
    ns'[z] == PriceNode(true, price, -1, -1, y, -1, -1, RED) &&
    (y != -1 ==> ns'[y] == if right then ns[y].(right := z) else ns[y].(left := z)) &&
    (forall i :: 0 <= i < |ns| && i != z && i != y ==> ns'[i] == ns[i]) &&
    root' == if y == -1 then z else root
  }

  /** The lookups of `SpansAfterAttach`. */
  lemma SpansAfterAttachAt(sp: map<int, Span>, z: int, k: nat, right: bool, sp': map<int, Span>)
    requires z !in sp && sp' == SpansAfterAttach(sp, z, k, right)
    ensures sp'.Keys == sp.Keys + {z} && sp'[z] == Span(k, k, k + 1)
    ensures forall j :: j in sp ==> sp'[j] == ShiftedSpan(sp[j], k, right)
  {
  }

  /** A node whose links and neighbours are unchanged still agrees with
      them once all their spans are shifted, unless it sits right at the
      gap. */
  lemma NodeOkShifted(ns: seq<PriceNode>, ns': seq<PriceNode>, root: int, root': int, sp: map<int, Span>, sp': map<int, Span>,
                      k: nat, right: bool, i: int)
    requires NodeOk(ns, root, sp, i) && 0 <= i < |ns'|
    requires ns'[i].left == ns[i].left && ns'[i].right == ns[i].right && ns'[i].parent == ns[i].parent
    requires i in sp' && sp'[i] == ShiftedSpan(sp[i], k, right)
    requires sp[i].at != k || right
    requires sp[i].at + 1 != k || !right
    requires var l := ns[i].left;
      l != -1 ==> 0 <= l < |ns'| && l in sp' && sp'[l] == ShiftedSpan(sp[l], k, right) && ns'[l].parent == ns[l].parent
    requires var r := ns[i].right;
      r != -1 ==> 0 <= r < |ns'| && r in sp' && sp'[r] == ShiftedSpan(sp[r], k, right) && ns'[r].parent == ns[r].parent
    requires var p := ns[i].parent;
      p != -1 ==> 0 <= p < |ns'| && p in sp' && (ns'[p].left == i || ns'[p].right == i)
    requires i == root <==> i == root'
    ensures NodeOk(ns', root', sp', i)
  {
    var s := sp[i];
    assert ShiftedBound(s.at, k, right) == ShiftedAt(s.at, k);
    assert ShiftedBound(s.at + 1, k, right) == ShiftedAt(s.at, k) + 1;
  }

  /** A node the attach does not relink still agrees with its neighbours,
      all of them shifted alike. */
  lemma AttachUntouched(ns: seq<PriceNode>, ns': seq<PriceNode>, root: int, root': int, io: seq<int>, sp: map<int, Span>,
                        z: i32, y: i32, price: u128, right: bool, k: nat, sp': map<int, Span>, i: int)
    requires Tree(ns, root, io, sp) && z !in sp && AttachPoint(ns, root, io, sp, y, price, right, k)
    requires AttachCells(ns, ns', root, root', z, y, price, right) && sp' == SpansAfterAttach(sp, z, k, right)
    requires i in sp && i != y
    ensures NodeOk(ns', root', sp', i)
  {
    SpansAfterAttachAt(sp, z, k, right, sp');
    assert NodeOk(ns, root, sp, i);
    assert i != z;
    var l, r, p := ns[i].left, ns[i].right, ns[i].parent;
    if l != -1 { assert NodeOk(ns, root, sp, l); }
    if r != -1 { assert NodeOk(ns, root, sp, r); }
    if p != -1 { assert NodeOk(ns, root, sp, p); }
    if y != -1 {
      assert sp[i].at != sp[y].at;
    }
    NodeOkShifted(ns, ns', root, root', sp, sp', k, right, i);
  }

  /** The attach parent now has the new node as its child. */
  lemma AttachParent(ns: seq<PriceNode>, ns': seq<PriceNode>, root: int, root': int, io: seq<int>, sp: map<int, Span>,
                     z: i32, y: i32, price: u128, right: bool, k: nat, sp': map<int, Span>)
    requires Tree(ns, root, io, sp) && z !in sp && AttachPoint(ns, root, io, sp, y, price, right, k)
    requires AttachCells(ns, ns', root, root', z, y, price, right) && sp' == SpansAfterAttach(sp, z, k, right)
    requires y != -1
    ensures NodeOk(ns', root', sp', y)
  {
    assert NodeOk(ns, root, sp, y);
    var l, r, p := ns[y].left, ns[y].right, ns[y].parent;
    if l != -1 { assert NodeOk(ns, root, sp, l); }
    if r != -1 { assert NodeOk(ns, root, sp, r); }
    if p != -1 { assert NodeOk(ns, root, sp, p); }
  }

  /** The new node is a leaf at position `k`. */
  lemma AttachNew(ns: seq<PriceNode>, ns': seq<PriceNode>, root: int, root': int, io: seq<int>, sp: map<int, Span>,
                  z: i32, y: i32, price: u128, right: bool, k: nat, sp': map<int, Span>)
    requires Tree(ns, root, io, sp) && z !in sp && AttachPoint(ns, root, io, sp, y, price, right, k)
    requires AttachCells(ns, ns', root, root', z, y, price, right) && sp' == SpansAfterAttach(sp, z, k, right)
    ensures NodeOk(ns', root', sp', z)
  {
    if y != -1 {
      assert NodeOk(ns, root, sp, y);
    }
  }

  lemma AttachNodes(ns: seq<PriceNode>, ns': seq<PriceNode>, root: int, root': int, io: seq<int>, sp: map<int, Span>,
                    z: i32, y: i32, price: u128, right: bool, k: nat, sp': map<int, Span>)
    requires Tree(ns, root, io, sp) && z !in sp && AttachPoint(ns, root, io, sp, y, price, right, k)
    requires AttachCells(ns, ns', root, root', z, y, price, right) && sp' == SpansAfterAttach(sp, z, k, right)
    ensures forall i {:trigger NodeOk(ns', root', sp', i)} :: i in sp' ==> NodeOk(ns', root', sp', i)
  {
    SpansAfterAttachAt(sp, z, k, right, sp');
    forall i | i in sp'
      ensures NodeOk(ns', root', sp', i)
    {
      if i == z {
        AttachNew(ns, ns', root, root', io, sp, z, y, price, right, k, sp');
      } else if i == y {
        AttachParent(ns, ns', root, root', io, sp, z, y, price, right, k, sp');
      } else {
        AttachUntouched(ns, ns', root, root', io, sp, z, y, price, right, k, sp', i);
      }
    }
  }

  /** The new in-order sequence and the shifted positions agree. */
  lemma AttachPositions(io: seq<int>, sp: map<int, Span>, z: int, right: bool, k: nat, io': seq<int>, sp': map<int, Span>)
    requires k <= |io| && z !in sp
    requires forall j :: 0 <= j < |io| ==> io[j] in sp && sp[io[j]].at == j
    requires forall i :: i in sp ==> sp[i].at < |io| && io[sp[i].at] == i
    requires io' == io[..k] + [z] + io[k..] && sp' == SpansAfterAttach(sp, z, k, right)
    ensures forall j :: 0 <= j < |io'| ==> io'[j] in sp' && sp'[io'[j]].at == j
    ensures forall i :: i in sp' ==> sp'[i].at < |io'| && io'[sp'[i].at] == i
  {
    SpansAfterAttachAt(sp, z, k, right, sp');
    forall j | 0 <= j < |io'|
      ensures io'[j] in sp' && sp'[io'[j]].at == j
    {
      if j < k {
        assert io'[j] == io[j];
      } else if j > k {
        assert io'[j] == io[j - 1];
      }
    }
    forall i | i in sp'
      ensures sp'[i].at < |io'| && io'[sp'[i].at] == i
    {
      if i != z {
        var a := sp[i].at;
        if a < k {
          assert io'[a] == io[a];
        } else {
          assert io'[a + 1] == io[a];
        }
      }
    }
  }

  /** Putting a node whose key lies strictly between the keys before and
      after position `k` at that position keeps the sequence in key order. */
  lemma SortedInsert(ns: seq<PriceNode>, ns': seq<PriceNode>, io: seq<int>, io': seq<int>, z: int, price: int, k: nat)
    requires Sorted(ns, io) && k <= |io| && io' == io[..k] + [z] + io[k..]
    requires forall j :: 0 <= j < |io| ==> 0 <= io[j] < |ns| && 0 <= io[j] < |ns'| && ns'[io[j]].key == ns[io[j]].key
    requires 0 <= z < |ns'| && ns'[z].key == price
    requires forall j :: 0 <= j < k ==> ns[io[j]].key < price
    requires forall j :: k <= j < |io| ==> ns[io[j]].key > price
    ensures Sorted(ns', io')
  {
    forall a, b | 0 <= a < b < |io'| && 0 <= io'[a] < |ns'| && 0 <= io'[b] < |ns'|
      ensures KeyAt(ns', io', a) < KeyAt(ns', io', b)
    {
      if a < k && b < k {
        assert io'[a] == io[a] && io'[b] == io[b];
        SortedAt(ns, io, a, b);
      } else if a < k && b == k {
        assert io'[a] == io[a];
      } else if a < k {
        assert io'[a] == io[a] && io'[b] == io[b - 1];
      } else if a == k {
        assert io'[b] == io[b - 1];
      } else {
        assert io'[a] == io[a - 1] && io'[b] == io[b - 1];
        SortedAt(ns, io, a - 1, b - 1);
      }
    }
  }

  /** The new key sits between the keys below and above it. */
  lemma AttachSorted(ns: seq<PriceNode>, ns': seq<PriceNode>, root: int, root': int, io: seq<int>, sp: map<int, Span>,
                     z: i32, y: i32, price: u128, right: bool, k: nat, io': seq<int>)
    requires Tree(ns, root, io, sp) && Sorted(ns, io) && z !in sp && AttachPoint(ns, root, io, sp, y, price, right, k)
    requires AttachCells(ns, ns', root, root', z, y, price, right) && io' == io[..k] + [z] + io[k..]
    ensures Sorted(ns', io')
  {
    forall j | 0 <= j < |io|
      ensures 0 <= io[j] < |ns'| && ns'[io[j]].key == ns[io[j]].key
    {
      assert io[j] in sp;
    }
    SortedInsert(ns, ns', io, io', z, price, k);
  }

  /** The root still spans the whole sequence, now one longer. */
  lemma AttachRoot(ns: seq<PriceNode>, ns': seq<PriceNode>, root: int, root': int, io: seq<int>, sp: map<int, Span>,
                   z: i32, y: i32, price: u128, right: bool, k: nat, sp': map<int, Span>)
    requires Tree(ns, root, io, sp) && z !in sp && AttachPoint(ns, root, io, sp, y, price, right, k)
    requires AttachCells(ns, ns', root, root', z, y, price, right)
    requires sp' == SpansAfterAttach(sp, z, k, right)
    ensures root' in sp' && sp'[root'].lo == 0 && sp'[root'].hi == |io| + 1
  {
    SpansAfterAttachAt(sp, z, k, right, sp');
    if |io| > 0 {
      assert NodeOk(ns, root, sp, root);
      if y != -1 {
        assert NodeOk(ns, root, sp, y);
      }
    }
  }

  /** Every slot is occupied exactly when it holds a node of the new tree. */
  lemma AttachOccupied(ns: seq<PriceNode>, ns': seq<PriceNode>, root: int, root': int, sp: map<int, Span>,
                       z: i32, y: i32, price: u128, right: bool, sp': map<int, Span>)
    requires forall i :: 0 <= i < |ns| ==> (ns[i].occupied <==> i in sp)
    requires AttachCells(ns, ns', root, root', z, y, price, right) && sp'.Keys == sp.Keys + {z}
    ensures forall i :: 0 <= i < |ns'| ==> (ns'[i].occupied <==> i in sp')
  {
  }

  /** Attaching a fresh node at the point the descent found gives a tree
      whose in-order sequence has the node at position `k`. */
  lemma AttachTree(ns: seq<PriceNode>, ns': seq<PriceNode>, root: int, root': int, io: seq<int>, sp: map<int, Span>,
                   z: i32, y: i32, price: u128, right: bool, k: nat, io': seq<int>, sp': map<int, Span>)
    requires Tree(ns, root, io, sp) && z !in sp && AttachPoint(ns, root, io, sp, y, price, right, k)
    requires AttachCells(ns, ns', root, root', z, y, price, right)
    requires io' == io[..k] + [z] + io[k..] && sp' == SpansAfterAttach(sp, z, k, right)
    ensures Tree(ns', root', io', sp')
  {
    SpansAfterAttachAt(sp, z, k, right, sp');
    AttachNodes(ns, ns', root, root', io, sp, z, y, price, right, k, sp');
    AttachPositions(io, sp, z, right, k, io', sp');
    AttachRoot(ns, ns', root, root', io, sp, z, y, price, right, k, sp');
    AttachOccupied(ns, ns', root, root', sp, z, y, price, right, sp');
    TreeIntro(ns', root', io', sp');
  }


  /** Attaching below an existing node keeps the black root; attaching to
      an empty tree makes the new red node the root. */
  lemma AttachRootBlack(ns: seq<PriceNode>, ns': seq<PriceNode>, root: int, root': int, io: seq<int>, sp: map<int, Span>,
                        z: i32, y: i32, price: u128, right: bool)
    requires Tree(ns, root, io, sp) && RootBlack(ns, root) && z !in sp && (y == -1 || y in sp)
    requires AttachCells(ns, ns', root, root', z, y, price, right)
    ensures RootBlack(ns', root') || z == root'
  {
    if y != -1 {
      assert sp[y].at < |io|;
      TreeInRange(ns, root, io, sp);
      assert root in sp;
    }
  }

  /** The state of the search for the gap where `price` belongs: `x` is
      the slot being looked at (or null), `y` the last node passed (or null
      at the start), and `lo` to `hi` the positions still possible. */
  ghost predicate Descent(ns: seq<PriceNode>, root: int, io: seq<int>, sp: map<int, Span>, price: int,
                          y: int, x: int, lo: int, hi: int)
    requires forall j :: 0 <= j < |io| ==> 0 <= io[j] < |ns|
  {
    (x == -1 || (x in sp && 0 <= x < |ns| && sp[x].lo == lo && sp[x].hi == hi)) &&
    0 <= lo <= hi <= |io| &&
    (forall j :: 0 <= j < lo ==> ns[io[j]].key < price) &&
    (forall j :: hi <= j < |io| ==> ns[io[j]].key > price) &&
    (y == -1 ==> x == root && lo == 0 && hi == |io|) &&
    (y != -1 ==> (y in sp && 0 <= y < |ns| &&
      if price < ns[y].key then x == ns[y].left && lo == sp[y].lo && hi == sp[y].at
      else x == ns[y].right && lo == sp[y].at + 1 && hi == sp[y].hi))
  }

  /** What the search relies on: a sorted tree without `price`. */
  ghost predicate Searchable(ns: seq<PriceNode>, root: int, io: seq<int>, sp: map<int, Span>, price: int)
  {
    Tree(ns, root, io, sp) && Sorted(ns, io) && !HoldsKey(ns, io, price) &&
    forall j :: 0 <= j < |io| ==> 0 <= io[j] < |ns|
  }

  /** The search starts at the root with every position possible. */
  lemma DescentStart(ns: seq<PriceNode>, root: int, io: seq<int>, sp: map<int, Span>, price: int)
    requires Tree(ns, root, io, sp) && Sorted(ns, io) && !HoldsKey(ns, io, price)
    ensures Searchable(ns, root, io, sp, price)
    ensures Descent(ns, root, io, sp, price, -1, root, 0, |io|)
  {
    TreeInRange(ns, root, io, sp);
  }

  /** One step of the search: it moves to the child of `x` on the side of
      `price`, and the possible positions shrink. */
  lemma DescentStep(ns: seq<PriceNode>, root: int, io: seq<int>, sp: map<int, Span>, price: int,
                    y: int, x: int, lo: int, hi: int)
    requires Searchable(ns, root, io, sp, price)
    requires Descent(ns, root, io, sp, price, y, x, lo, hi) && x != -1
    ensures var x' := if price < ns[x].key then ns[x].left else ns[x].right;
      var lo' := if price < ns[x].key then lo else sp[x].at + 1;
      var hi' := if price < ns[x].key then sp[x].at else hi;
      Descent(ns, root, io, sp, price, x, x', lo', hi') && hi' - lo' < hi - lo
  {
    assert NodeOk(ns, root, sp, x);
    var at := sp[x].at;
    assert io[at] == x;
    assert ns[io[at]].key != price;
    SortedAround(ns, io, at);
  }

  /** A search that reaches a null slot has found the gap. */
  lemma DescentEnd(ns: seq<PriceNode>, root: int, io: seq<int>, sp: map<int, Span>, price: int,
                   y: int, lo: int, hi: int)
    requires Searchable(ns, root, io, sp, price)
    requires Descent(ns, root, io, sp, price, y, -1, lo, hi)
    ensures lo >= 0 && AttachPoint(ns, root, io, sp, y, price, y != -1 && !(price < ns[y].key), lo)
  {
    if y != -1 {
      assert NodeOk(ns, root, sp, y);
    }
  }

  /** Attaching changes links only: against the claimed slot as allocated,
      no occupancy, key or chain end changes. */
  lemma AttachSameEntries(ns: seq<PriceNode>, ns': seq<PriceNode>, root: int, root': int, z: i32, y: i32, price: u128, right: bool)
    requires AttachCells(ns, ns', root, root', z, y, price, right)
    ensures SameEntries(ns[z := PriceNode(true, price, -1, -1, -1, -1, -1, RED)], ns')
  {
  }
}
