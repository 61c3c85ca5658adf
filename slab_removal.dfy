/** Unlinking a node from the arena tree, as remove_price_node does before
    its fix-up (utils/slab.rs). The removed node `z` at position `r` leaves
    the in-order sequence and every later position moves one place to the
    left. When `z` has two children its successor `y`, at position `r + 1`,
    is relinked into `z`'s place and takes over `z`'s span. */
module SlabRemoval {
  import opened Common
  import opened BookState
  import opened SlabTree

  /** A subtree boundary after the removal: boundaries up to the threshold
      `t` stay, later ones move one place left. The threshold is `r` when
      `z` is spliced out directly and `r + 1` when its successor moves up,
      since the subtrees that started at the successor now start after it. */
  function Lowered(b: nat, t: nat): nat
  {
    if b <= t then b else b - 1
  }

  function LoweredSpan(s: Span, t: nat): Span
  {
    Span(Lowered(s.lo, t), Lowered(s.at, t), Lowered(s.hi, t))
  }

  /** The in-order sequence without position `r`. */
  function Without(io: seq<int>, r: nat): (io': seq<int>)
    requires r < |io|
    ensures |io'| == |io| - 1
    ensures forall j :: 0 <= j < r ==> io'[j] == io[j]
    ensures forall j :: r <= j < |io'| ==> io'[j] == io[j + 1]
  {
    io[..r] + io[r + 1..]
  }

  /** The spans after removing `z`; `y` is the successor that moves into
      `z`'s place, or `z` itself when there is none. */
  ghost function SpansAfterRemove(sp: map<int, Span>, z: int, y: int, t: nat): map<int, Span>
    requires z in sp
  {
    map i | i in sp && i != z ::
      if i == y then Span(sp[z].lo, sp[z].at, Lowered(sp[z].hi, t)) else LoweredSpan(sp[i], t)
  }

  /** The threshold and the successor agree: the successor is `z` itself
      with threshold `r`, or the node at position `r + 1` with threshold
      `r + 1`. */
  ghost predicate RemovePlan(sp: map<int, Span>, z: int, y: int, t: nat)
  {
    z in sp && y in sp &&
    (if y == z then t == sp[z].at else t == sp[z].at + 1 && sp[y].at == t)
  }

  /** The lookups of `SpansAfterRemove`. */
  lemma SpansAfterRemoveAt(sp: map<int, Span>, z: int, y: int, t: nat, sp': map<int, Span>)
    requires z in sp && sp' == SpansAfterRemove(sp, z, y, t)
    ensures sp'.Keys == sp.Keys - {z}
    ensures y != z && y in sp ==> sp'[y] == Span(sp[z].lo, sp[z].at, Lowered(sp[z].hi, t))
    ensures forall j :: j in sp && j != z && j != y ==> sp'[j] == LoweredSpan(sp[j], t)
  {
  }

  /** A node whose links are unchanged still agrees with its neighbours
      once all their spans are lowered alike, unless it sits at the
      threshold. */
  lemma NodeOkLowered(ns: seq<PriceNode>, ns': seq<PriceNode>, root: int, root': int, sp: map<int, Span>, sp': map<int, Span>,
                      t: nat, i: int)
    requires NodeOk(ns, root, sp, i) && 0 <= i < |ns'|
    requires ns'[i].left == ns[i].left && ns'[i].right == ns[i].right && ns'[i].parent == ns[i].parent
    requires i in sp' && sp'[i] == LoweredSpan(sp[i], t) && sp[i].at != t
    requires var l := ns[i].left;
      l != -1 ==> 0 <= l < |ns'| && l in sp' && sp'[l] == LoweredSpan(sp[l], t) && ns'[l].parent == i
    requires var r := ns[i].right;
      r != -1 ==> 0 <= r < |ns'| && r in sp' && sp'[r] == LoweredSpan(sp[r], t) && ns'[r].parent == i
    requires var p := ns[i].parent;
      p != -1 ==> 0 <= p < |ns'| && p in sp' && (ns'[p].left == i || ns'[p].right == i)
    requires i == root <==> i == root'
    ensures NodeOk(ns', root', sp', i)
  {
  }

  /** The new in-order sequence and the lowered positions agree. */
  lemma RemovePositions(io: seq<int>, sp: map<int, Span>, z: int, y: int, t: nat)
    requires RemovePlan(sp, z, y, t)
    requires forall j :: 0 <= j < |io| ==> io[j] in sp && sp[io[j]].at == j
    requires forall i :: i in sp ==> sp[i].at < |io| && io[sp[i].at] == i
    ensures sp[z].at < |io|
    ensures var io', sp' := Without(io, sp[z].at), SpansAfterRemove(sp, z, y, t);
      (forall j :: 0 <= j < |io'| ==> io'[j] in sp' && sp'[io'[j]].at == j) &&
      (forall i :: i in sp' ==> sp'[i].at < |io'| && io'[sp'[i].at] == i)
  {
    var r := sp[z].at;
    var io', sp' := Without(io, r), SpansAfterRemove(sp, z, y, t);
    SpansAfterRemoveAt(sp, z, y, t, SpansAfterRemove(sp, z, y, t));
    forall j | 0 <= j < |io'|
      ensures io'[j] in sp' && sp'[io'[j]].at == j
    {
      if j < r {
        assert io'[j] == io[j];
      } else {
        assert io'[j] == io[j + 1];
      }
    }
    forall i | i in sp'
      ensures sp'[i].at < |io'| && io'[sp'[i].at] == i
    {
      var a := sp[i].at;
      if i != y {
        if a < r {
          assert io'[a] == io[a];
        } else {
          assert io'[a - 1] == io[a];
        }
      } else {
        assert io'[r] == io[r + 1];
      }
    }
  }

  /** The node at position `r` appears nowhere else in the in-order
      sequence. */
  lemma InOrderDistinct(ns: seq<PriceNode>, root: int, io: seq<int>, sp: map<int, Span>, r: nat)
    requires Tree(ns, root, io, sp) && r < |io|
    ensures forall j :: 0 <= j < |io| && j != r ==> io[j] != io[r]
  {
  }

  /** Dropping a position keeps the keys in order. */
  lemma RemoveSorted(ns: seq<PriceNode>, ns': seq<PriceNode>, io: seq<int>, r: nat)
    requires Sorted(ns, io) && r < |io| && |ns'| == |ns|
    requires forall j :: 0 <= j < |io| ==> 0 <= io[j] < |ns|
    requires forall j :: 0 <= j < |io| && j != r ==> io[j] != io[r]
    requires SameEntries(ns[io[r] := EMPTY_PRICE_NODE], ns')
    ensures Sorted(ns', Without(io, r))
  {
    var io' := Without(io, r);
    forall a, b | 0 <= a < b < |io'| && 0 <= io'[a] < |ns'| && 0 <= io'[b] < |ns'|
      ensures KeyAt(ns', io', a) < KeyAt(ns', io', b)
    {
      var a0 := if a < r then a else a + 1;
      var b0 := if b < r then b else b + 1;
      assert io'[a] == io[a0] && io'[b] == io[b0];
      SortedAt(ns, io, a0, b0);
    }
  }

  /** What the direct splice writes, when `z` has at most one child `x`:
      `x` takes `z`'s place under `z`'s parent, and `z` is cleared. */
  ghost predicate SpliceCells(ns: seq<PriceNode>, ns': seq<PriceNode>, root: int, root': int, z: int)
  {
    0 <= z < |ns| && |ns'| == |ns| &&
    var zp := ns[z].parent; var x := if ns[z].left == -1 then ns[z].right else ns[z].left;
    IndexOrNull(ns, zp) && IndexOrNull(ns, x) &&
    ns'[z] == EMPTY_PRICE_NODE &&
    (zp != -1 ==> ns'[zp] == if ns[zp].left == z then ns[zp].(left := x) else ns[zp].(right := x)) &&
    (x != -1 ==> ns'[x] == ns[x].(parent := zp)) &&
    (forall i :: 0 <= i < |ns| && i != z && i != zp && i != x ==> ns'[i] == ns[i]) &&
    root' == if zp == -1 then x else root
  }

  /** Node `i` and its neighbours agree with theirs. */
  ghost predicate Near(ns: seq<PriceNode>, root: int, sp: map<int, Span>, i: int)
  {
    NodeOk(ns, root, sp, i) &&
    (ns[i].left != -1 ==> NodeOk(ns, root, sp, ns[i].left)) &&
    (ns[i].right != -1 ==> NodeOk(ns, root, sp, ns[i].right)) &&
    (ns[i].parent != -1 ==> NodeOk(ns, root, sp, ns[i].parent))
  }

  lemma NearOf(ns: seq<PriceNode>, root: int, io: seq<int>, sp: map<int, Span>, i: int)
    requires Tree(ns, root, io, sp) && i in sp
    ensures Near(ns, root, sp, i)
  {
    assert NodeOk(ns, root, sp, i);
    var l, r, p := ns[i].left, ns[i].right, ns[i].parent;
    if l != -1 { assert NodeOk(ns, root, sp, l); }
    if r != -1 { assert NodeOk(ns, root, sp, r); }
    if p != -1 { assert NodeOk(ns, root, sp, p); }
  }

  /** Distinct nodes of a tree sit at distinct positions. */
  lemma Apart(ns: seq<PriceNode>, root: int, io: seq<int>, sp: map<int, Span>, i: int, j: int)
    requires Tree(ns, root, io, sp) && i in sp && j in sp && i != j
    ensures sp[i].at != sp[j].at
  {
  }

  /** After a direct splice every remaining node agrees with its lowered
      neighbours. */
  lemma SpliceNodes(ns: seq<PriceNode>, ns': seq<PriceNode>, root: int, root': int, io: seq<int>, sp: map<int, Span>, z: int)
    requires Tree(ns, root, io, sp) && z in sp && 0 <= z < |ns|
    requires ns[z].left == -1 || ns[z].right == -1
    requires SpliceCells(ns, ns', root, root', z)
    ensures var sp' := SpansAfterRemove(sp, z, z, sp[z].at);
      forall i {:trigger NodeOk(ns', root', sp', i)} :: i in sp' ==> NodeOk(ns', root', sp', i)
  {
    var r := sp[z].at;
    var sp' := SpansAfterRemove(sp, z, z, r);
    SpansAfterRemoveAt(sp, z, z, r, SpansAfterRemove(sp, z, z, r));
    NearOf(ns, root, io, sp, z);
    var zp := ns[z].parent;
    var x := if ns[z].left == -1 then ns[z].right else ns[z].left;
    forall i | i in sp'
      ensures NodeOk(ns', root', sp', i)
    {
      NearOf(ns, root, io, sp, i);
      Apart(ns, root, io, sp, i, z);
      if i == zp {
        SpliceParent(ns, ns', root, root', sp, z);
      } else if i == x {
        SpliceChild(ns, ns', root, root', sp, z);
      } else {
        SpliceUntouched(ns, ns', root, root', sp, z, i);
      }
    }
  }

  /** The parent of `z` now has `x` where it had `z`. */
  lemma SpliceParent(ns: seq<PriceNode>, ns': seq<PriceNode>, root: int, root': int, sp: map<int, Span>, z: int)
    requires Near(ns, root, sp, z) && (ns[z].left == -1 || ns[z].right == -1)
    requires SpliceCells(ns, ns', root, root', z) && ns[z].parent != -1
    requires Near(ns, root, sp, ns[z].parent)
    requires var zp := ns[z].parent; ns[zp].parent != -1 ==> sp[ns[zp].parent].at != sp[z].at
    ensures NodeOk(ns', root', SpansAfterRemove(sp, z, z, sp[z].at), ns[z].parent)
  {
    var r, zp := sp[z].at, ns[z].parent;
    var sp' := SpansAfterRemove(sp, z, z, r);
    SpansAfterRemoveAt(sp, z, z, r, sp');
    SpliceParentAt(ns, ns', root, root', sp, sp', z, r);
  }

  /** `SpliceParent` over the lowered spans of the nodes around the parent. */
  lemma SpliceParentAt(ns: seq<PriceNode>, ns': seq<PriceNode>, root: int, root': int, sp: map<int, Span>, sp': map<int, Span>, z: int, r: nat)
    requires Near(ns, root, sp, z) && (ns[z].left == -1 || ns[z].right == -1) && r == sp[z].at
    requires SpliceCells(ns, ns', root, root', z) && ns[z].parent != -1
    requires Near(ns, root, sp, ns[z].parent)
    requires var zp := ns[z].parent; zp in sp' && sp'[zp] == LoweredSpan(sp[zp], r)
    requires var x := if ns[z].left == -1 then ns[z].right else ns[z].left;
      x != -1 ==> x in sp' && sp'[x] == LoweredSpan(sp[x], r)
    requires var zp := ns[z].parent; var w := if ns[zp].left == z then ns[zp].right else ns[zp].left;
      w != -1 ==> w in sp' && sp'[w] == LoweredSpan(sp[w], r)
    requires var zp := ns[z].parent; ns[zp].parent != -1 ==> ns[zp].parent in sp'
    ensures NodeOk(ns', root', sp', ns[z].parent)
  {
  }

  /** The child `x` of `z` now hangs from `z`'s parent. */
  lemma SpliceChild(ns: seq<PriceNode>, ns': seq<PriceNode>, root: int, root': int, sp: map<int, Span>, z: int)
    requires Near(ns, root, sp, z) && (ns[z].left == -1 || ns[z].right == -1)
    requires SpliceCells(ns, ns', root, root', z)
    requires var x := if ns[z].left == -1 then ns[z].right else ns[z].left;
      x != -1 && Near(ns, root, sp, x)
    ensures NodeOk(ns', root', SpansAfterRemove(sp, z, z, sp[z].at), if ns[z].left == -1 then ns[z].right else ns[z].left)
  {
    SpansAfterRemoveAt(sp, z, z, sp[z].at, SpansAfterRemove(sp, z, z, sp[z].at));
  }

  /** A node away from `z` keeps its links; its spans are lowered. */
  lemma SpliceUntouched(ns: seq<PriceNode>, ns': seq<PriceNode>, root: int, root': int, sp: map<int, Span>, z: int, i: int)
    requires Near(ns, root, sp, z) && (ns[z].left == -1 || ns[z].right == -1)
    requires SpliceCells(ns, ns', root, root', z)
    requires Near(ns, root, sp, i) && i != z && i != ns[z].parent && i != (if ns[z].left == -1 then ns[z].right else ns[z].left)
    requires sp[i].at != sp[z].at
    ensures NodeOk(ns', root', SpansAfterRemove(sp, z, z, sp[z].at), i)
  {
    var r := sp[z].at;
    var sp' := SpansAfterRemove(sp, z, z, r);
    SpansAfterRemoveAt(sp, z, z, r, SpansAfterRemove(sp, z, z, r));
    assert ns'[i] == ns[i];
    assert sp'[i] == LoweredSpan(sp[i], r);
  }

  /** The root after a direct splice spans the shorter sequence. */
  lemma SpliceRoot(ns: seq<PriceNode>, ns': seq<PriceNode>, root: int, root': int, io: seq<int>, sp: map<int, Span>, z: int)
    requires Tree(ns, root, io, sp) && z in sp && 0 <= z < |ns|
    requires ns[z].left == -1 || ns[z].right == -1
    requires SpliceCells(ns, ns', root, root', z)
    ensures var sp' := SpansAfterRemove(sp, z, z, sp[z].at);
      if |io| == 1 then root' == -1 else root' in sp' && sp'[root'].lo == 0 && sp'[root'].hi == |io| - 1
  {
    var r := sp[z].at;
    SpansAfterRemoveAt(sp, z, z, r, SpansAfterRemove(sp, z, z, r));
    NearOf(ns, root, io, sp, z);
    SpanWithin(ns, root, io, sp, z);
    if z != root {
      Apart(ns, root, io, sp, root, z);
    } else {
      var x := if ns[z].left == -1 then ns[z].right else ns[z].left;
      if x != -1 {
        assert NodeOk(ns, root, sp, x);
      }
    }
  }

  /** A direct splice leaves a sorted tree over the other nodes. */
  lemma SpliceShape(ns: seq<PriceNode>, ns': seq<PriceNode>, root: int, root': int, io: seq<int>, sp: map<int, Span>, z: int)
    requires Tree(ns, root, io, sp) && z in sp && 0 <= z < |ns|
    requires ns[z].left == -1 || ns[z].right == -1
    requires SpliceCells(ns, ns', root, root', z)
    ensures sp[z].at < |io|
    ensures Tree(ns', root', Without(io, sp[z].at), SpansAfterRemove(sp, z, z, sp[z].at))
  {
    var r := sp[z].at;
    var io', sp' := Without(io, r), SpansAfterRemove(sp, z, z, r);
    SpansAfterRemoveAt(sp, z, z, r, SpansAfterRemove(sp, z, z, r));
    RemovePositions(io, sp, z, z, r);
    SpliceNodes(ns, ns', root, root', io, sp, z);
    SpliceRoot(ns, ns', root, root', io, sp, z);
    forall i | 0 <= i < |ns'|
      ensures ns'[i].occupied <==> i in sp'
    {
    }
    TreeIntro(ns', root', io', sp');
  }

  /** `y` is where tree_min stops below the right child of `z`: the node
      without a left child that opens the right subtree; unless it is that
      child itself, it is the left child of its parent, which opens the
      right subtree too. */
  ghost predicate SuccessorOf(ns: seq<PriceNode>, sp: map<int, Span>, z: int, y: i32)
  {
    z in sp && 0 <= z < |ns| && ns[z].left != -1 && ns[z].right != -1 && ns[z].right in sp &&
    y in sp && 0 <= y < |ns| && ns[y].left == -1 && sp[y].lo == sp[ns[z].right].lo &&
    (y != ns[z].right ==>
      var yp := ns[y].parent;
      yp in sp && 0 <= yp < |ns| && ns[yp].left == y &&
      sp[yp].lo == sp[ns[z].right].lo && sp[yp].hi <= sp[ns[z].right].hi)
  }

  /** What remove_price_node writes when `z` has two children: the successor
      `y` leaves its place to its right child `x` (unless `y` is the right
      child of `z`), takes `z`'s place, children and colour, and `z` is
      cleared. */
  ghost predicate LiftCells(ns: seq<PriceNode>, ns': seq<PriceNode>, root: int, root': int, z: int, y: i32)
  {
    0 <= z < |ns| && 0 <= y < |ns| && |ns'| == |ns| &&
    var zl, zr, zp := ns[z].left, ns[z].right, ns[z].parent;
    var yp, x := ns[y].parent, ns[y].right;
    IndexOrNull(ns, zp) && 0 <= zl < |ns| && 0 <= zr < |ns| && IndexOrNull(ns, yp) && IndexOrNull(ns, x) &&
    ns'[z] == EMPTY_PRICE_NODE &&
    (zp != -1 ==> ns'[zp] == if ns[zp].left == z then ns[zp].(left := y) else ns[zp].(right := y)) &&
    ns'[zl] == ns[zl].(parent := y) &&
    root' == (if zp == -1 then y else root) &&
    if y == zr then
      ns'[y] == ns[y].(left := zl, parent := zp, color := ns[z].color) &&
      (forall i :: 0 <= i < |ns| && i != z && i != zp && i != zl && i != y ==> ns'[i] == ns[i])
    else
      ns'[y] == ns[y].(left := zl, right := zr, parent := zp, color := ns[z].color) &&
      ns'[zr] == (if yp == zr then ns[zr].(left := x, parent := y) else ns[zr].(parent := y)) &&
      (yp != zr && yp != -1 ==> ns'[yp] == ns[yp].(left := x)) &&
      (x != -1 ==> ns'[x] == ns[x].(parent := yp)) &&
      (forall i :: 0 <= i < |ns| && i != z && i != zp && i != zl && i != zr && i != y && i != yp && i != x ==> ns'[i] == ns[i])
  }

  /** The facts about `z`, its successor `y` and their neighbours that the
      per-node lemmas of the lift rely on, all read off the spans. */
  ghost predicate LiftFacts(ns: seq<PriceNode>, root: int, sp: map<int, Span>, z: int, y: i32)
  {
    SuccessorOf(ns, sp, z, y) && LiftTop(ns, root, sp, z, y) && LiftUpper(ns, sp, z, y) && LiftLower(ns, root, sp, z, y)
  }

  /** `z`, its children and `y`. */
  ghost predicate LiftTop(ns: seq<PriceNode>, root: int, sp: map<int, Span>, z: int, y: i32)
    requires SuccessorOf(ns, sp, z, y)
  {
    var r := sp[z].at;
    var zl, zr, zp := ns[z].left, ns[z].right, ns[z].parent;
    IndexOrNull(ns, zp) && IndexOrNull(ns, ns[y].parent) && IndexOrNull(ns, ns[y].right) &&
    (z == root <==> zp == -1) && sp[z].lo < r && sp[z].hi >= r + 2 &&
    zl in sp && 0 <= zl < |ns| && ns[zl].parent == z && sp[zl].lo == sp[z].lo && sp[zl].hi == r &&
    0 <= zr < |ns| && ns[zr].parent == z && sp[zr].lo == r + 1 && sp[zr].hi == sp[z].hi &&
    zl != zr && zl != z && zr != z && zl != root && zr != root &&
    sp[y].at == r + 1 && r + 2 <= sp[y].hi <= sp[z].hi && y != z && y != zl && y != root
  }

  /** The parent of `z` and its own parent lie outside `z`'s subtree. */
  ghost predicate LiftUpper(ns: seq<PriceNode>, sp: map<int, Span>, z: int, y: i32)
    requires SuccessorOf(ns, sp, z, y)
  {
    var zl, zr, zp := ns[z].left, ns[z].right, ns[z].parent;
    var yp, x := ns[y].parent, ns[y].right;
    zp != -1 ==>
      zp in sp && 0 <= zp < |ns| && (ns[zp].left == z || ns[zp].right == z) &&
      zp != zl && zp != zr && zp != y && zp != yp && zp != x && zp != z &&
      var pp := ns[zp].parent;
      pp != zl && pp != zr && pp != y && pp != yp && (x != -1 ==> pp != x) && pp != z
  }

  /** The right child `x` of `y` and the old parent of `y`. */
  ghost predicate LiftLower(ns: seq<PriceNode>, root: int, sp: map<int, Span>, z: int, y: i32)
    requires SuccessorOf(ns, sp, z, y)
  {
    var r := sp[z].at;
    var zl, zr, zp := ns[z].left, ns[z].right, ns[z].parent;
    var yp, x := ns[y].parent, ns[y].right;
    (x == -1 ==> sp[y].hi == r + 2) &&
    (x != -1 ==>
      x in sp && 0 <= x < |ns| && ns[x].parent == y && sp[x].lo == r + 2 && sp[x].hi == sp[y].hi &&
      x != z && x != zl && x != zr && x != yp && x != root) &&
    (y == zr ==> yp == z) &&
    (y != zr ==>
      yp in sp && yp != z && yp != zl && yp != root && ns[yp].left == y && sp[yp].lo == r + 1 && sp[yp].at == sp[y].hi &&
      sp[zr].at != r + 1 &&
      (yp != zr ==>
        var q := ns[yp].parent;
        q != -1 && q in sp && q != z && q != zp && q != zl && q != x && q != y))
  }

  lemma LiftTopOf(ns: seq<PriceNode>, root: int, io: seq<int>, sp: map<int, Span>, z: int, y: i32)
    requires Tree(ns, root, io, sp) && SuccessorOf(ns, sp, z, y)
    ensures LiftTop(ns, root, sp, z, y)
  {
    NearOf(ns, root, io, sp, z);
    NearOf(ns, root, io, sp, y);
    if y != ns[z].right { NearOf(ns, root, io, sp, ns[y].parent); }
  }

  lemma LiftUpperOf(ns: seq<PriceNode>, root: int, io: seq<int>, sp: map<int, Span>, z: int, y: i32)
    requires Tree(ns, root, io, sp) && SuccessorOf(ns, sp, z, y) && LiftTop(ns, root, sp, z, y)
    ensures LiftUpper(ns, sp, z, y)
  {
    var zp := ns[z].parent;
    NearOf(ns, root, io, sp, z);
    if zp != -1 {
      NearOf(ns, root, io, sp, zp);
      NearOf(ns, root, io, sp, y);
      if y != ns[z].right { NearOf(ns, root, io, sp, ns[y].parent); }
    }
  }

  lemma LiftLowerOf(ns: seq<PriceNode>, root: int, io: seq<int>, sp: map<int, Span>, z: int, y: i32)
    requires Tree(ns, root, io, sp) && SuccessorOf(ns, sp, z, y) && LiftTop(ns, root, sp, z, y)
    ensures LiftLower(ns, root, sp, z, y)
  {
    var zr := ns[z].right;
    var yp, x := ns[y].parent, ns[y].right;
    NearOf(ns, root, io, sp, y);
    NearOf(ns, root, io, sp, ns[z].left);
    if x != -1 { NearOf(ns, root, io, sp, x); }
    if y != zr {
      NearOf(ns, root, io, sp, yp);
      Apart(ns, root, io, sp, zr, y);
      if ns[z].parent != -1 { NearOf(ns, root, io, sp, ns[z].parent); }
    }
  }

  lemma LiftFactsOf(ns: seq<PriceNode>, root: int, io: seq<int>, sp: map<int, Span>, z: int, y: i32)
    requires Tree(ns, root, io, sp) && SuccessorOf(ns, sp, z, y)
    ensures LiftFacts(ns, root, sp, z, y)
  {
    LiftTopOf(ns, root, io, sp, z, y);
    LiftUpperOf(ns, root, io, sp, z, y);
    LiftLowerOf(ns, root, io, sp, z, y);
  }

  /** The parent of `z` now has `y` where it had `z`. */
  lemma LiftParent(ns: seq<PriceNode>, ns': seq<PriceNode>, root: int, root': int, sp: map<int, Span>, z: int, y: i32)
    requires LiftFacts(ns, root, sp, z, y) && LiftCells(ns, ns', root, root', z, y)
    requires ns[z].parent != -1 && NodeOk(ns, root, sp, ns[z].parent)
    ensures NodeOk(ns', root', SpansAfterRemove(sp, z, y, sp[z].at + 1), ns[z].parent)
  {
    SpansAfterRemoveAt(sp, z, y, sp[z].at + 1, SpansAfterRemove(sp, z, y, sp[z].at + 1));
  }

  /** The left child of `z` now hangs from `y`. */
  lemma LiftLeft(ns: seq<PriceNode>, ns': seq<PriceNode>, root: int, root': int, sp: map<int, Span>, z: int, y: i32)
    requires LiftFacts(ns, root, sp, z, y) && LiftCells(ns, ns', root, root', z, y)
    requires NodeOk(ns, root, sp, ns[z].left)
    ensures NodeOk(ns', root', SpansAfterRemove(sp, z, y, sp[z].at + 1), ns[z].left)
  {
    SpansAfterRemoveAt(sp, z, y, sp[z].at + 1, SpansAfterRemove(sp, z, y, sp[z].at + 1));
  }

  /** `y` has `z`'s span, children and parent. */
  lemma LiftSuccessor(ns: seq<PriceNode>, ns': seq<PriceNode>, root: int, root': int, sp: map<int, Span>, z: int, y: i32)
    requires LiftFacts(ns, root, sp, z, y) && LiftCells(ns, ns', root, root', z, y)
    ensures NodeOk(ns', root', SpansAfterRemove(sp, z, y, sp[z].at + 1), y)
  {
    SpansAfterRemoveAt(sp, z, y, sp[z].at + 1, SpansAfterRemove(sp, z, y, sp[z].at + 1));
  }

  /** The right child of `z`, when it is not `y`, now hangs from `y`. */
  lemma LiftRight(ns: seq<PriceNode>, ns': seq<PriceNode>, root: int, root': int, sp: map<int, Span>, z: int, y: i32)
    requires LiftFacts(ns, root, sp, z, y) && LiftCells(ns, ns', root, root', z, y) && y != ns[z].right
    requires NodeOk(ns, root, sp, ns[z].right)
    ensures NodeOk(ns', root', SpansAfterRemove(sp, z, y, sp[z].at + 1), ns[z].right)
  {
    SpansAfterRemoveAt(sp, z, y, sp[z].at + 1, SpansAfterRemove(sp, z, y, sp[z].at + 1));
  }

  /** The old parent of `y`, below the right child of `z`, now has `x` as
      its left child. */
  lemma LiftOldParent(ns: seq<PriceNode>, ns': seq<PriceNode>, root: int, root': int, sp: map<int, Span>, z: int, y: i32)
    requires LiftFacts(ns, root, sp, z, y) && LiftCells(ns, ns', root, root', z, y)
    requires y != ns[z].right && ns[y].parent != ns[z].right && NodeOk(ns, root, sp, ns[y].parent)
    ensures NodeOk(ns', root', SpansAfterRemove(sp, z, y, sp[z].at + 1), ns[y].parent)
  {
    SpansAfterRemoveAt(sp, z, y, sp[z].at + 1, SpansAfterRemove(sp, z, y, sp[z].at + 1));
  }

  /** The right child `x` of `y` now hangs where `y` was. */
  lemma LiftChild(ns: seq<PriceNode>, ns': seq<PriceNode>, root: int, root': int, sp: map<int, Span>, z: int, y: i32)
    requires LiftFacts(ns, root, sp, z, y) && LiftCells(ns, ns', root, root', z, y)
    requires ns[y].right != -1 && NodeOk(ns, root, sp, ns[y].right)
    ensures NodeOk(ns', root', SpansAfterRemove(sp, z, y, sp[z].at + 1), ns[y].right)
  {
    SpansAfterRemoveAt(sp, z, y, sp[z].at + 1, SpansAfterRemove(sp, z, y, sp[z].at + 1));
  }

  /** Any other node keeps its links; its spans are lowered. */
  lemma LiftUntouched(ns: seq<PriceNode>, ns': seq<PriceNode>, root: int, root': int, sp: map<int, Span>, z: int, y: i32, i: int)
    requires LiftFacts(ns, root, sp, z, y) && LiftCells(ns, ns', root, root', z, y)
    requires NodeOk(ns, root, sp, i) && i != z && i != ns[z].parent && i != ns[z].left && i != ns[z].right
    requires i != y && i != ns[y].parent && i != ns[y].right
    requires sp[i].at != sp[z].at + 1
    ensures NodeOk(ns', root', SpansAfterRemove(sp, z, y, sp[z].at + 1), i)
  {
    var t := sp[z].at + 1;
    var sp' := SpansAfterRemove(sp, z, y, t);
    SpansAfterRemoveAt(sp, z, y, t, SpansAfterRemove(sp, z, y, t));
    assert ns'[i] == ns[i];
    assert sp'[i] == LoweredSpan(sp[i], t);
  }

  /** After the lift every remaining node agrees with its new neighbours. */
  lemma LiftNodes(ns: seq<PriceNode>, ns': seq<PriceNode>, root: int, root': int, io: seq<int>, sp: map<int, Span>, z: int, y: i32)
    requires Tree(ns, root, io, sp) && SuccessorOf(ns, sp, z, y) && LiftCells(ns, ns', root, root', z, y)
    ensures var sp' := SpansAfterRemove(sp, z, y, sp[z].at + 1);
      forall i {:trigger NodeOk(ns', root', sp', i)} :: i in sp' ==> NodeOk(ns', root', sp', i)
  {
    var t := sp[z].at + 1;
    var sp' := SpansAfterRemove(sp, z, y, t);
    SpansAfterRemoveAt(sp, z, y, t, SpansAfterRemove(sp, z, y, t));
    LiftFactsOf(ns, root, io, sp, z, y);
    var zl, zr, zp := ns[z].left, ns[z].right, ns[z].parent;
    var yp, x := ns[y].parent, ns[y].right;
    forall i | i in sp'
      ensures NodeOk(ns', root', sp', i)
    {
      assert NodeOk(ns, root, sp, i);
      if i != y { Apart(ns, root, io, sp, i, y); }
      LiftNode(ns, ns', root, root', sp, z, y, i);
    }
  }

  /** One remaining node after the lift, by the part it plays. */
  lemma LiftNode(ns: seq<PriceNode>, ns': seq<PriceNode>, root: int, root': int, sp: map<int, Span>, z: int, y: i32, i: int)
    requires LiftFacts(ns, root, sp, z, y) && LiftCells(ns, ns', root, root', z, y)
    requires NodeOk(ns, root, sp, i) && i != z && (i != y ==> sp[i].at != sp[z].at + 1)
    ensures NodeOk(ns', root', SpansAfterRemove(sp, z, y, sp[z].at + 1), i)
  {
    var zl, zr, zp := ns[z].left, ns[z].right, ns[z].parent;
    var yp, x := ns[y].parent, ns[y].right;
    if i == y {
      LiftSuccessor(ns, ns', root, root', sp, z, y);
    } else if i == zp {
      LiftParent(ns, ns', root, root', sp, z, y);
    } else if i == zl {
      LiftLeft(ns, ns', root, root', sp, z, y);
    } else if i == zr {
      LiftRight(ns, ns', root, root', sp, z, y);
    } else if i == yp {
      LiftOldParent(ns, ns', root, root', sp, z, y);
    } else if i == x {
      LiftChild(ns, ns', root, root', sp, z, y);
    } else {
      LiftUntouched(ns, ns', root, root', sp, z, y, i);
    }
  }

  /** The root after the lift spans the shorter sequence. */
  lemma LiftRoot(ns: seq<PriceNode>, ns': seq<PriceNode>, root: int, root': int, io: seq<int>, sp: map<int, Span>, z: int, y: i32)
    requires Tree(ns, root, io, sp) && SuccessorOf(ns, sp, z, y) && LiftCells(ns, ns', root, root', z, y)
    ensures var sp' := SpansAfterRemove(sp, z, y, sp[z].at + 1);
      root' in sp' && sp'[root'].lo == 0 && sp'[root'].hi == |io| - 1
  {
    LiftFactsOf(ns, root, io, sp, z, y);
    SpansAfterRemoveAt(sp, z, y, sp[z].at + 1, SpansAfterRemove(sp, z, y, sp[z].at + 1));
    SpanWithin(ns, root, io, sp, y);
  }

  /** Lifting the successor into `z`'s place leaves a tree over the other
      nodes. */
  lemma LiftShape(ns: seq<PriceNode>, ns': seq<PriceNode>, root: int, root': int, io: seq<int>, sp: map<int, Span>, z: int, y: i32)
    requires Tree(ns, root, io, sp) && SuccessorOf(ns, sp, z, y) && LiftCells(ns, ns', root, root', z, y)
    requires SameEntries(ns[z := EMPTY_PRICE_NODE], ns')
    ensures sp[z].at < |io|
    ensures Tree(ns', root', Without(io, sp[z].at), SpansAfterRemove(sp, z, y, sp[z].at + 1))
  {
    var r := sp[z].at;
    var io', sp' := Without(io, r), SpansAfterRemove(sp, z, y, r + 1);
    LiftPlanOf(ns, root, io, sp, z, y);
    RemovePositions(io, sp, z, y, r + 1);
    LiftNodes(ns, ns', root, root', io, sp, z, y);
    LiftRoot(ns, ns', root, root', io, sp, z, y);
    OccupiedAfterRemove(ns, ns', root, io, sp, z, y, r + 1);
    TreeIntro(ns', root', io', sp');
  }

  /** The successor sits just after `z` in the in-order sequence. */
  lemma LiftPlanOf(ns: seq<PriceNode>, root: int, io: seq<int>, sp: map<int, Span>, z: int, y: i32)
    requires Tree(ns, root, io, sp) && SuccessorOf(ns, sp, z, y)
    ensures RemovePlan(sp, z, y, sp[z].at + 1)
  {
    LiftTopOf(ns, root, io, sp, z, y);
  }

  /** Exactly the remaining nodes are occupied once `z` is emptied. */
  lemma OccupiedAfterRemove(ns: seq<PriceNode>, ns': seq<PriceNode>, root: int, io: seq<int>, sp: map<int, Span>, z: int, y: int, t: nat)
    requires Tree(ns, root, io, sp) && z in sp && 0 <= z < |ns| && SameEntries(ns[z := EMPTY_PRICE_NODE], ns')
    ensures forall i :: 0 <= i < |ns'| ==> (ns'[i].occupied <==> i in SpansAfterRemove(sp, z, y, t))
  {
    SpansAfterRemoveAt(sp, z, y, t, SpansAfterRemove(sp, z, y, t));
  }

  /** `x` fills a child slot of `xp`, or is the root when `xp` is null: the
      pair delete_fixup starts from and walks up with. `x` may be null. */
  ghost predicate Slot(ns: seq<PriceNode>, root: int, sp: map<int, Span>, x: int, xp: int)
  {
    IndexOrNull(ns, x) && (xp == -1 ==> x == root) &&
    (xp != -1 ==> xp in sp && 0 <= xp < |ns| && (ns[xp].left == x || ns[xp].right == x)) &&
    (x != -1 ==> x in sp && ns[x].parent == xp)
  }

  /** How far delete_fixup still is from its end: zero once `x` is the root
      or red, and otherwise smaller the larger the subtree of `xp`. */
  ghost function DeleteMeasure(ns: seq<PriceNode>, root: int, io: seq<int>, sp: map<int, Span>, x: int, xp: int): int
    requires xp == -1 || xp in sp
  {
    if x != root && !(0 <= x < |ns| && ns[x].color == RED) && xp != -1 then |io| + 2 - (sp[xp].hi - sp[xp].lo) else 0
  }

  /** After a direct splice the child `x` fills the slot of `z` under `z`'s
      parent, and no color but `z`'s changed. */
  lemma SpliceSlot(ns: seq<PriceNode>, ns': seq<PriceNode>, root: int, root': int, io: seq<int>, sp: map<int, Span>, z: int)
    requires Tree(ns, root, io, sp) && z in sp && 0 <= z < |ns|
    requires ns[z].left == -1 || ns[z].right == -1
    requires SpliceCells(ns, ns', root, root', z)
    ensures var x := if ns[z].left == -1 then ns[z].right else ns[z].left;
      Slot(ns', root', SpansAfterRemove(sp, z, z, sp[z].at), x, ns[z].parent)
    ensures RootBlack(ns, root) ==> RootBlack(ns', root') || (root == z && root' == (if ns[z].left == -1 then ns[z].right else ns[z].left))
  {
    SpansAfterRemoveAt(sp, z, z, sp[z].at, SpansAfterRemove(sp, z, z, sp[z].at));
    NearOf(ns, root, io, sp, z);
  }

  /** After the lift the right child `x` of `y` fills the slot `y` left,
      and the root, if it changed, is `y` painted with `z`'s black. */
  lemma LiftSlot(ns: seq<PriceNode>, ns': seq<PriceNode>, root: int, root': int, io: seq<int>, sp: map<int, Span>, z: int, y: i32)
    requires Tree(ns, root, io, sp) && SuccessorOf(ns, sp, z, y) && LiftCells(ns, ns', root, root', z, y)
    ensures var xp := if ns[y].parent == z then y as int else ns[y].parent;
      Slot(ns', root', SpansAfterRemove(sp, z, y, sp[z].at + 1), ns[y].right, xp)
    ensures RootBlack(ns, root) ==> RootBlack(ns', root')
  {
    SpansAfterRemoveAt(sp, z, y, sp[z].at + 1, SpansAfterRemove(sp, z, y, sp[z].at + 1));
    LiftFactsOf(ns, root, io, sp, z, y);
  }

  /** Everything the direct splice keeps: a sorted tree over the other
      nodes, with the child of `z` in `z`'s old slot. */
  lemma SpliceRemove(ns: seq<PriceNode>, ns': seq<PriceNode>, root: int, root': int, io: seq<int>, sp: map<int, Span>, z: int)
    requires Tree(ns, root, io, sp) && Sorted(ns, io) && z in sp && 0 <= z < |ns|
    requires ns[z].left == -1 || ns[z].right == -1
    requires SpliceCells(ns, ns', root, root', z) && SameEntries(ns[z := EMPTY_PRICE_NODE], ns')
    ensures sp[z].at < |io|
    ensures var io', sp' := Without(io, sp[z].at), SpansAfterRemove(sp, z, z, sp[z].at);
      var x := if ns[z].left == -1 then ns[z].right else ns[z].left;
      Tree(ns', root', io', sp') && Sorted(ns', io') && Slot(ns', root', sp', x, ns[z].parent) &&
      (RootBlack(ns, root) ==> RootBlack(ns', root') || (root == z && root' == x))
  {
    SpliceShape(ns, ns', root, root', io, sp, z);
    SpliceSlot(ns, ns', root, root', io, sp, z);
    TreeInRange(ns, root, io, sp);
    InOrderDistinct(ns, root, io, sp, sp[z].at);
    RemoveSorted(ns, ns', io, sp[z].at);
  }

  /** The first writes of the lift when `y` is deeper than the right child
      of `z`: the right child `x` of `y` takes `y`'s place under its parent,
      and `y` takes over the right subtree of `z`. */
  ghost predicate DetachCells(ns: seq<PriceNode>, ns': seq<PriceNode>, z: int, y: i32)
  {
    0 <= z < |ns| && 0 <= y < |ns| && |ns'| == |ns| &&
    var zr, yp, x := ns[z].right, ns[y].parent, ns[y].right;
    0 <= zr < |ns| && 0 <= yp < |ns| && IndexOrNull(ns, x) &&
    ns'[y] == ns[y].(right := zr) &&
    ns'[zr] == (if yp == zr then ns[zr].(left := x, parent := y) else ns[zr].(parent := y)) &&
    (yp != zr ==> ns'[yp] == ns[yp].(left := x)) &&
    (x != -1 ==> ns'[x] == ns[x].(parent := yp)) &&
    forall i :: 0 <= i < |ns| && i != y && i != zr && i != yp && i != x ==> ns'[i] == ns[i]
  }

  /** The last writes of the lift: `y` takes the place, the left subtree and
      the colour of `z`, and the slot of `z` is emptied. */
  ghost predicate PlaceCells(ns: seq<PriceNode>, ns': seq<PriceNode>, root: int, root': int, z: int, y: i32)
  {
    0 <= z < |ns| && 0 <= y < |ns| && |ns'| == |ns| &&
    var zl, zp := ns[z].left, ns[z].parent;
    0 <= zl < |ns| && IndexOrNull(ns, zp) &&
    ns'[z] == EMPTY_PRICE_NODE &&
    (zp != -1 ==> ns'[zp] == if ns[zp].left == z then ns[zp].(left := y) else ns[zp].(right := y)) &&
    ns'[zl] == ns[zl].(parent := y) &&
    ns'[y] == ns[y].(left := zl, parent := zp, color := ns[z].color) &&
    (forall i :: 0 <= i < |ns| && i != z && i != zp && i != zl && i != y ==> ns'[i] == ns[i]) &&
    root' == if zp == -1 then y else root
  }

  /** What the last writes need of the nodes around `z`. */
  ghost predicate PlaceReady(ns: seq<PriceNode>, z: int, y: i32)
  {
    0 <= z < |ns| && 0 <= y < |ns| &&
    var zl, zp := ns[z].left, ns[z].parent;
    0 <= zl < |ns| && IndexOrNull(ns, zp) && (zp != -1 ==> ns[zp].left == z || ns[zp].right == z) &&
    y != z && zl != z && zl != y && zp != y && zp != z && zp != zl
  }

  /** What the first writes of the deep case need of the nodes around `y`. */
  ghost predicate DetachReady(ns: seq<PriceNode>, z: int, y: i32)
  {
    0 <= z < |ns| && 0 <= y < |ns| &&
    var zr, yp, x := ns[z].right, ns[y].parent, ns[y].right;
    0 <= zr < |ns| && 0 <= yp < |ns| && IndexOrNull(ns, x) && ns[yp].left == y &&
    y != yp && y != zr && y != x && x != yp && x != zr && z != y && z != yp && z != x
  }

  /** When `y` is the right child of `z`, its own right child already
      hangs below it, and the last writes can go ahead. */
  lemma LiftNearReady(ns: seq<PriceNode>, root: int, io: seq<int>, sp: map<int, Span>, z: int, y: i32)
    requires Tree(ns, root, io, sp) && SuccessorOf(ns, sp, z, y) && ns[y].parent == z
    ensures PlaceReady(ns, z, y) && IndexOrNull(ns, ns[y].right)
    ensures ns[y].right != -1 ==> ns[ns[y].right].parent == y
  {
    LiftFactsOf(ns, root, io, sp, z, y);
  }

  /** When `y` lies deeper, the first writes can go ahead. */
  lemma LiftDeepReady(ns: seq<PriceNode>, root: int, io: seq<int>, sp: map<int, Span>, z: int, y: i32)
    requires Tree(ns, root, io, sp) && SuccessorOf(ns, sp, z, y) && ns[y].parent != z
    ensures DetachReady(ns, z, y)
  {
    LiftFactsOf(ns, root, io, sp, z, y);
  }

  /** The first writes touch none of the cells the last writes read. */
  lemma PlaceReadyAfterDetach(ns: seq<PriceNode>, ns1: seq<PriceNode>, root: int, io: seq<int>, sp: map<int, Span>, z: int, y: i32)
    requires Tree(ns, root, io, sp) && SuccessorOf(ns, sp, z, y) && ns[y].parent != z && DetachCells(ns, ns1, z, y)
    ensures PlaceReady(ns1, z, y)
  {
    LiftFactsOf(ns, root, io, sp, z, y);
    PlaceReadyKept(ns, ns1, root, sp, z, y);
  }

  lemma PlaceReadyKept(ns: seq<PriceNode>, ns1: seq<PriceNode>, root: int, sp: map<int, Span>, z: int, y: i32)
    requires LiftFacts(ns, root, sp, z, y) && y != ns[z].right && DetachCells(ns, ns1, z, y)
    ensures PlaceReady(ns1, z, y)
    ensures ns1[z] == ns[z] && ns1[ns[z].left] == ns[ns[z].left]
    ensures ns[z].parent != -1 ==> ns1[ns[z].parent] == ns[ns[z].parent]
  {
  }

  /** The writes of the lift when `y` is the right child of `z`. */
  lemma LiftCellsNear(ns: seq<PriceNode>, ns': seq<PriceNode>, root: int, root': int, sp: map<int, Span>, z: int, y: i32)
    requires LiftFacts(ns, root, sp, z, y) && y == ns[z].right && PlaceCells(ns, ns', root, root', z, y)
    ensures LiftCells(ns, ns', root, root', z, y)
    ensures SameEntries(ns[z := EMPTY_PRICE_NODE], ns')
  {
  }

  /** The writes of the lift when `y` is deeper than the right child of `z`. */
  lemma LiftCellsDeep(ns: seq<PriceNode>, ns1: seq<PriceNode>, ns': seq<PriceNode>, root: int, root': int, sp: map<int, Span>, z: int, y: i32)
    requires LiftFacts(ns, root, sp, z, y) && y != ns[z].right
    requires DetachCells(ns, ns1, z, y) && PlaceCells(ns1, ns', root, root', z, y)
    ensures LiftCells(ns, ns', root, root', z, y)
    ensures SameEntries(ns[z := EMPTY_PRICE_NODE], ns')
  {
    PlaceReadyKept(ns, ns1, root, sp, z, y);
  }

  /** Everything the lift keeps when `y` is the right child of `z`. */
  lemma LiftNearRemove(ns: seq<PriceNode>, ns': seq<PriceNode>, root: int, root': int, io: seq<int>, sp: map<int, Span>, z: int, y: i32, x: int, xp: int)
    requires Tree(ns, root, io, sp) && Sorted(ns, io) && SuccessorOf(ns, sp, z, y) && ns[y].parent == z
    requires PlaceCells(ns, ns', root, root', z, y) && x == ns[y].right && xp == y
    ensures sp[z].at < |io|
    ensures Tree(ns', root', Without(io, sp[z].at), SpansAfterRemove(sp, z, y, sp[z].at + 1))
    ensures Sorted(ns', Without(io, sp[z].at))
    ensures Slot(ns', root', SpansAfterRemove(sp, z, y, sp[z].at + 1), x, xp)
    ensures SameEntries(ns[z := EMPTY_PRICE_NODE], ns')
    ensures RootBlack(ns, root) ==> RootBlack(ns', root')
  {
    LiftFactsOf(ns, root, io, sp, z, y);
    LiftCellsNear(ns, ns', root, root', sp, z, y);
    LiftRemove(ns, ns', root, root', io, sp, z, y, x, xp);
  }

  /** Everything the lift keeps when `y` lies deeper. */
  lemma LiftDeepRemove(ns: seq<PriceNode>, ns1: seq<PriceNode>, ns': seq<PriceNode>, root: int, root': int, io: seq<int>, sp: map<int, Span>, z: int, y: i32, x: int, xp: int)
    requires Tree(ns, root, io, sp) && Sorted(ns, io) && SuccessorOf(ns, sp, z, y) && ns[y].parent != z
    requires DetachCells(ns, ns1, z, y) && PlaceCells(ns1, ns', root, root', z, y)
    requires x == ns[y].right && xp == ns[y].parent
    ensures sp[z].at < |io|
    ensures Tree(ns', root', Without(io, sp[z].at), SpansAfterRemove(sp, z, y, sp[z].at + 1))
    ensures Sorted(ns', Without(io, sp[z].at))
    ensures Slot(ns', root', SpansAfterRemove(sp, z, y, sp[z].at + 1), x, xp)
    ensures SameEntries(ns[z := EMPTY_PRICE_NODE], ns')
    ensures RootBlack(ns, root) ==> RootBlack(ns', root')
  {
    LiftFactsOf(ns, root, io, sp, z, y);
    LiftCellsDeep(ns, ns1, ns', root, root', sp, z, y);
    LiftRemove(ns, ns', root, root', io, sp, z, y, x, xp);
  }

  /** A sorted tree, the successor `y` of `z` in it, and the writes of the
      lift. */
  ghost predicate LiftStep(ns: seq<PriceNode>, ns': seq<PriceNode>, root: int, root': int, io: seq<int>, sp: map<int, Span>, z: int, y: i32)
  {
    Tree(ns, root, io, sp) && Sorted(ns, io) && SuccessorOf(ns, sp, z, y) &&
    LiftCells(ns, ns', root, root', z, y) && SameEntries(ns[z := EMPTY_PRICE_NODE], ns')
  }

  /** Everything the lift keeps: a sorted tree over the other nodes, with
      the right child of `y` in `y`'s old slot. */
  lemma LiftRemove(ns: seq<PriceNode>, ns': seq<PriceNode>, root: int, root': int, io: seq<int>, sp: map<int, Span>, z: int, y: i32, x: int, xp: int)
    requires LiftStep(ns, ns', root, root', io, sp, z, y)
    requires x == ns[y].right && xp == if ns[y].parent == z then y as int else ns[y].parent
    ensures sp[z].at < |io|
    ensures Tree(ns', root', Without(io, sp[z].at), SpansAfterRemove(sp, z, y, sp[z].at + 1))
    ensures Sorted(ns', Without(io, sp[z].at))
    ensures Slot(ns', root', SpansAfterRemove(sp, z, y, sp[z].at + 1), x, xp)
    ensures RootBlack(ns, root) ==> RootBlack(ns', root')
  {
    LiftShape(ns, ns', root, root', io, sp, z, y);
    LiftSlot(ns, ns', root, root', io, sp, z, y);
    TreeInRange(ns, root, io, sp);
    InOrderDistinct(ns, root, io, sp, sp[z].at);
    RemoveSorted(ns, ns', io, sp[z].at);
  }
}
