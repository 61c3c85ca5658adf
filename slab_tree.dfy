/** The shape of the arena red-black tree (utils/slab.rs), stated over the
    sequence of price-node records rather than over the array that holds
    them.

    The tree is described by a ghost in-order sequence `io` of node indices
    and, for every node in it, a `Span`: its position `at` in `io` and the
    half-open range `[lo, hi)` of positions its subtree covers. Each node
    only has to agree with its children and its parent, so an update that
    changes a few links is checked node by node. Every lemma here relates
    one step of slab.rs to the spans of the tree before and after it. */
module SlabTree {
  import opened Common
  import opened BookState

  /** Position of a node in the in-order sequence and the positions its
      subtree covers. */
  datatype Span = Span(lo: nat, at: nat, hi: nat)

  /** -1, or a valid slot of the price-node array. */
  predicate IndexOrNull(ns: seq<PriceNode>, i: int)
  {
    i == -1 || 0 <= i < |ns|
  }

  /** is_red: the null index counts as black. */
  predicate IsRed(ns: seq<PriceNode>, i: int)
    requires IndexOrNull(ns, i)
  {
    i != -1 && ns[i].color == RED
  }

  /** set_color: recolors a node, and does nothing for the null index. */
  function Painted(ns: seq<PriceNode>, i: int, c: u8): (ns': seq<PriceNode>)
    requires IndexOrNull(ns, i)
    ensures |ns'| == |ns|
    ensures forall j :: 0 <= j < |ns| && j != i ==> ns'[j] == ns[j]
    ensures i != -1 ==> ns'[i] == ns[i].(color := c)
  {
    if i == -1 then ns else ns[i := ns[i].(color := c)]
  }

  /** Node `i` agrees with its children and its parent. */
  ghost predicate NodeOk(ns: seq<PriceNode>, root: int, sp: map<int, Span>, i: int)
  {
    i in sp && 0 <= i < |ns| &&
    var s := sp[i];
    s.lo <= s.at < s.hi &&
    (var l := ns[i].left;
     if l == -1 then s.lo == s.at
     else l in sp && 0 <= l < |ns| && sp[l].lo == s.lo && sp[l].hi == s.at && ns[l].parent == i) &&
    (var r := ns[i].right;
     if r == -1 then s.hi == s.at + 1
     else r in sp && 0 <= r < |ns| && sp[r].lo == s.at + 1 && sp[r].hi == s.hi && ns[r].parent == i) &&
    (var p := ns[i].parent;
     if p == -1 then i == root
     else p in sp && 0 <= p < |ns| && (ns[p].left == i || ns[p].right == i)) &&
    (i == root ==> ns[i].parent == -1)
  }

  /** The occupied price nodes form a binary tree rooted at `root` whose
      in-order traversal is `io`. */
  ghost predicate Tree(ns: seq<PriceNode>, root: int, io: seq<int>, sp: map<int, Span>)
  {
    (forall k :: 0 <= k < |io| ==> io[k] in sp && sp[io[k]].at == k) &&
    (forall i {:trigger NodeOk(ns, root, sp, i)} :: i in sp ==> NodeOk(ns, root, sp, i)) &&
    (forall i :: i in sp ==> sp[i].at < |io| && io[sp[i].at] == i) &&
    (forall i :: 0 <= i < |ns| ==> (ns[i].occupied <==> i in sp)) &&
    (if |io| == 0 then root == -1 else root in sp && sp[root].lo == 0 && sp[root].hi == |io|)
  }

  /** The key of the node at position `a` of the in-order sequence. */
  ghost function KeyAt(ns: seq<PriceNode>, io: seq<int>, a: int): int
    requires 0 <= a < |io| && 0 <= io[a] < |ns|
  {
    ns[io[a]].key as int
  }

  /** Keys strictly increase along the in-order sequence. */
  ghost predicate Sorted(ns: seq<PriceNode>, io: seq<int>)
  {
    forall a, b {:trigger KeyAt(ns, io, a), KeyAt(ns, io, b)} ::
      0 <= a < b < |io| && 0 <= io[a] < |ns| && 0 <= io[b] < |ns| ==> KeyAt(ns, io, a) < KeyAt(ns, io, b)
  }

  /** Two positions of a sorted sequence, in key order. */
  lemma SortedAt(ns: seq<PriceNode>, io: seq<int>, a: int, b: int)
    requires Sorted(ns, io) && 0 <= a < b < |io| && 0 <= io[a] < |ns| && 0 <= io[b] < |ns|
    ensures ns[io[a]].key < ns[io[b]].key
  {
    assert KeyAt(ns, io, a) < KeyAt(ns, io, b);
  }

  /** The two records agree on every field the tree shape depends on. */
  predicate SameLinks(a: PriceNode, b: PriceNode)
  {
    a.occupied == b.occupied && a.left == b.left && a.right == b.right && a.parent == b.parent
  }

  /** The two arrays hold the same keys, colors and order chains; only links
      may differ. */
  predicate SamePayload(ns: seq<PriceNode>, ns': seq<PriceNode>)
  {
    |ns| == |ns'| &&
    forall i :: 0 <= i < |ns| ==>
      ns'[i].occupied == ns[i].occupied && ns'[i].key == ns[i].key && ns'[i].color == ns[i].color &&
      ns'[i].orderHead == ns[i].orderHead && ns'[i].orderTail == ns[i].orderTail
  }

  /** The two arrays hold the same tree links and keys; colors may differ. */
  predicate SameShape(ns: seq<PriceNode>, ns': seq<PriceNode>)
  {
    |ns| == |ns'| &&
    forall i :: 0 <= i < |ns| ==>
      SameLinks(ns[i], ns'[i]) && ns'[i].key == ns[i].key &&
      ns'[i].orderHead == ns[i].orderHead && ns'[i].orderTail == ns[i].orderTail
  }

  lemma TreeInRange(ns: seq<PriceNode>, root: int, io: seq<int>, sp: map<int, Span>)
    requires Tree(ns, root, io, sp)
    ensures forall k :: 0 <= k < |io| ==> 0 <= io[k] < |ns| && ns[io[k]].occupied
    ensures IndexOrNull(ns, root) && (root == -1 <==> |io| == 0)
  {
    forall k | 0 <= k < |io|
      ensures 0 <= io[k] < |ns| && ns[io[k]].occupied
    {
      assert NodeOk(ns, root, sp, io[k]);
    }
    if |io| > 0 {
      assert NodeOk(ns, root, sp, root);
    }
  }

  /** With no occupied slot the tree is empty. */
  lemma EmptyTree(ns: seq<PriceNode>)
    requires forall i :: 0 <= i < |ns| ==> !ns[i].occupied
    ensures Tree(ns, -1, [], map[]) && Sorted(ns, [])
  {
  }

  /** A sequence of distinct indices below `n` has at most `n` elements. */
  lemma {:induction false} DistinctBound(s: seq<int>, n: nat)
    requires forall i :: 0 <= i < |s| ==> 0 <= s[i] < n
    requires forall i, j :: 0 <= i < j < |s| ==> s[i] != s[j]
    ensures |s| <= n
    decreases |s|
  {
    if s != [] {
      var last := |s| - 1;
      var v := s[last];
      var t := s[..last];
      // rename the value n - 1 to v, which the prefix does not use
      var u := seq(|t|, i requires 0 <= i < |t| => if t[i] == n - 1 then v else t[i]);
      forall i | 0 <= i < |u|
        ensures 0 <= u[i] < n - 1
      {
        assert t[i] == s[i];
      }
      forall i, j | 0 <= i < j < |u|
        ensures u[i] != u[j]
      {
        assert t[i] == s[i] && t[j] == s[j];
      }
      DistinctBound(u, n - 1);
    }
  }

  /** A tree has no more nodes than the array has slots. */
  lemma TreeSize(ns: seq<PriceNode>, root: int, io: seq<int>, sp: map<int, Span>)
    requires Tree(ns, root, io, sp)
    ensures |io| <= |ns|
  {
    TreeInRange(ns, root, io, sp);
    forall i, j | 0 <= i < j < |io|
      ensures io[i] != io[j]
    {
      assert sp[io[i]].at == i && sp[io[j]].at == j;
    }
    DistinctBound(io, |ns|);
  }

  /** Some node of the tree holds key `price`. */
  ghost predicate HoldsKey(ns: seq<PriceNode>, io: seq<int>, price: int)
  {
    exists k :: 0 <= k < |io| && 0 <= io[k] < |ns| && ns[io[k]].key == price
  }

  /** Only the links matter for the shape. */
  lemma TreeFrame(ns: seq<PriceNode>, ns': seq<PriceNode>, root: int, io: seq<int>, sp: map<int, Span>)
    requires Tree(ns, root, io, sp)
    requires |ns'| == |ns| && forall i :: 0 <= i < |ns| ==> SameLinks(ns[i], ns'[i])
    ensures Tree(ns', root, io, sp)
  {
    forall i | i in sp
      ensures NodeOk(ns', root, sp, i)
    {
      assert NodeOk(ns, root, sp, i);
    }
  }

  /** In a sorted sequence every key before position `m` is smaller than
      the key at `m`, and every key after it larger. */
  lemma SortedAround(ns: seq<PriceNode>, io: seq<int>, m: int)
    requires Sorted(ns, io) && 0 <= m < |io| && forall j :: 0 <= j < |io| ==> 0 <= io[j] < |ns|
    ensures forall j :: 0 <= j < m ==> ns[io[j]].key < ns[io[m]].key
    ensures forall j :: m < j < |io| ==> ns[io[m]].key < ns[io[j]].key
  {
    forall j | 0 <= j < m
      ensures ns[io[j]].key < ns[io[m]].key
    {
      SortedAt(ns, io, j, m);
    }
    forall j | m < j < |io|
      ensures ns[io[m]].key < ns[io[j]].key
    {
      SortedAt(ns, io, m, j);
    }
  }

  /** Only the keys matter for the order. */
  lemma SortedFrame(ns: seq<PriceNode>, ns': seq<PriceNode>, io: seq<int>)
    requires Sorted(ns, io)
    requires |ns'| == |ns| && forall i :: 0 <= i < |ns| ==> ns'[i].key == ns[i].key
    ensures Sorted(ns', io)
  {
    forall a, b | 0 <= a < b < |io| && 0 <= io[a] < |ns'| && 0 <= io[b] < |ns'|
      ensures KeyAt(ns', io, a) < KeyAt(ns', io, b)
    {
      SortedAt(ns, io, a, b);
    }
  }

  /** Recoloring a node changes neither the shape nor the order. */
  lemma PaintedShape(ns: seq<PriceNode>, root: int, io: seq<int>, sp: map<int, Span>, i: int, c: u8)
    requires Tree(ns, root, io, sp) && Sorted(ns, io) && IndexOrNull(ns, i)
    ensures Tree(Painted(ns, i, c), root, io, sp) && Sorted(Painted(ns, i, c), io)
    ensures SameShape(ns, Painted(ns, i, c))
  {
    TreeFrame(ns, Painted(ns, i, c), root, io, sp);
    SortedFrame(ns, Painted(ns, i, c), io);
  }

  /** The positions two distinct nodes occupy differ. */
  lemma DistinctAt(ns: seq<PriceNode>, root: int, io: seq<int>, sp: map<int, Span>, i: int, j: int)
    requires Tree(ns, root, io, sp) && i in sp && j in sp && i != j
    ensures sp[i].at != sp[j].at
  {
  }

  /** The root, when there is one, is black. */
  predicate RootBlack(ns: seq<PriceNode>, root: int)
  {
    root == -1 || (0 <= root < |ns| && ns[root].color == BLACK)
  }

  /** The two arrays hold the same keys and order chains in the same slots;
      links and colors may differ. */
  predicate SameEntries(ns: seq<PriceNode>, ns': seq<PriceNode>)
  {
    |ns| == |ns'| &&
    forall i :: 0 <= i < |ns| ==>
      ns'[i].occupied == ns[i].occupied && ns'[i].key == ns[i].key &&
      ns'[i].orderHead == ns[i].orderHead && ns'[i].orderTail == ns[i].orderTail
  }

  /** No subtree covers more positions than the whole tree. */
  lemma {:induction false} SpanWithin(ns: seq<PriceNode>, root: int, io: seq<int>, sp: map<int, Span>, i: int)
    requires Tree(ns, root, io, sp) && i in sp
    ensures sp[i].hi <= |io|
    decreases sp[i].lo
  {
    assert NodeOk(ns, root, sp, i);
    var p := ns[i].parent;
    if p != -1 {
      assert NodeOk(ns, root, sp, p);
      if ns[p].left != i {
        SpanWithin(ns, root, io, sp, p);
      }
    }
  }

  /** The clauses of `Tree`, one by one. */
  lemma TreeIntro(ns: seq<PriceNode>, root: int, io: seq<int>, sp: map<int, Span>)
    requires forall k :: 0 <= k < |io| ==> io[k] in sp && sp[io[k]].at == k
    requires forall i {:trigger NodeOk(ns, root, sp, i)} :: i in sp ==> NodeOk(ns, root, sp, i)
    requires forall i :: i in sp ==> sp[i].at < |io| && io[sp[i].at] == i
    requires forall i :: 0 <= i < |ns| ==> (ns[i].occupied <==> i in sp)
    requires if |io| == 0 then root == -1 else root in sp && sp[root].lo == 0 && sp[root].hi == |io|
    ensures Tree(ns, root, io, sp)
  {
  }

  /** A tree whose nodes all agree with new links and new spans at the same
      positions is still a tree with the same in-order sequence. */
  lemma TreeRespan(ns: seq<PriceNode>, ns': seq<PriceNode>, root: int, root': int, io: seq<int>, sp: map<int, Span>, sp': map<int, Span>)
    requires Tree(ns, root, io, sp)
    requires sp'.Keys == sp.Keys && forall i :: i in sp ==> sp'[i].at == sp[i].at
    requires |ns'| == |ns| && forall i :: 0 <= i < |ns| ==> ns'[i].occupied == ns[i].occupied
    requires forall i {:trigger NodeOk(ns', root', sp', i)} :: i in sp ==> NodeOk(ns', root', sp', i)
    requires |io| == 0 ==> root' == -1
    requires |io| > 0 ==> root' in sp' && sp'[root'].lo == 0 && sp'[root'].hi == |io|
    ensures Tree(ns', root', io, sp')
  {
    forall k | 0 <= k < |io|
      ensures io[k] in sp' && sp'[io[k]].at == k
    {
      var i := io[k];
      assert i in sp && sp[i].at == k;
      assert sp'[i].at == sp[i].at;
    }
  }

  /** A rotation moves no node in the in-order sequence. */
  lemma SpansAfterRotationAt(sp: map<int, Span>, x: int, y: int)
    ensures SpansAfterLeft(sp, x, y).Keys == sp.Keys && SpansAfterRight(sp, x, y).Keys == sp.Keys
    ensures forall i :: i in sp ==> SpansAfterLeft(sp, x, y)[i].at == sp[i].at && SpansAfterRight(sp, x, y)[i].at == sp[i].at
  {
  }

  // ---------------------------------------------------------------------
  // Rotations

  /** The spans after a left rotation at `x`: `x` now stops where `y` was,
      and `y` starts where `x` did. */
  ghost function SpansAfterLeft(sp: map<int, Span>, x: int, y: int): map<int, Span>
  {
    if x in sp && y in sp then sp[x := sp[x].(hi := sp[y].at)][y := sp[y].(lo := sp[x].lo)] else sp
  }

  /** The spans after a right rotation at `x`. */
  ghost function SpansAfterRight(sp: map<int, Span>, x: int, y: int): map<int, Span>
  {
    if x in sp && y in sp then sp[x := sp[x].(lo := sp[y].at + 1)][y := sp[y].(hi := sp[x].hi)] else sp
  }

  /** What a left rotation at `x` does to each record: `x`, its right
      child `y`, `y`'s left child `b` and `x`'s parent `xp` are relinked,
      every other record is untouched. */
  ghost predicate LeftRotationCells(ns: seq<PriceNode>, ns': seq<PriceNode>, root: int, root': int, x: i32)
  {
    0 <= x < |ns| && |ns'| == |ns| && 0 <= ns[x].right < |ns| &&
    var y := ns[x].right; var b := ns[y].left; var xp := ns[x].parent;
    IndexOrNull(ns, b) && IndexOrNull(ns, xp) &&
    ns'[x] == ns[x].(right := b, parent := y) &&
    ns'[y] == ns[y].(left := x, parent := xp) &&
    (b != -1 ==> ns'[b] == ns[b].(parent := x)) &&
    (xp != -1 ==> ns'[xp] == if ns[xp].left == x then ns[xp].(left := y) else ns[xp].(right := y)) &&
    (forall i :: 0 <= i < |ns| && i != x && i != y && i != b && i != xp ==> ns'[i] == ns[i]) &&
    root' == if xp == -1 then y else root
  }

  /** What a right rotation at `x` does to each record. */
  ghost predicate RightRotationCells(ns: seq<PriceNode>, ns': seq<PriceNode>, root: int, root': int, x: i32)
  {
    0 <= x < |ns| && |ns'| == |ns| && 0 <= ns[x].left < |ns| &&
    var y := ns[x].left; var b := ns[y].right; var xp := ns[x].parent;
    IndexOrNull(ns, b) && IndexOrNull(ns, xp) &&
    ns'[x] == ns[x].(left := b, parent := y) &&
    ns'[y] == ns[y].(right := x, parent := xp) &&
    (b != -1 ==> ns'[b] == ns[b].(parent := x)) &&
    (xp != -1 ==> ns'[xp] == if ns[xp].left == x then ns[xp].(left := y) else ns[xp].(right := y)) &&
    (forall i :: 0 <= i < |ns| && i != x && i != y && i != b && i != xp ==> ns'[i] == ns[i]) &&
    root' == if xp == -1 then y else root
  }

  /** The nodes a rotation at `x` relinks are four different nodes. */
  lemma RotationNodes(ns: seq<PriceNode>, root: int, io: seq<int>, sp: map<int, Span>, x: int, y: int)
    requires Tree(ns, root, io, sp) && x in sp && 0 <= x < |ns| && (y == ns[x].right || y == ns[x].left) && y != -1
    ensures NodeOk(ns, root, sp, x) && NodeOk(ns, root, sp, y)
    ensures var b := if y == ns[x].right then ns[y].left else ns[y].right;
      var xp := ns[x].parent;
      IndexOrNull(ns, b) && IndexOrNull(ns, xp) && y != x &&
      (b != -1 ==> b in sp && b != x && b != y) &&
      (xp != -1 ==> xp in sp && xp != x && xp != y && xp != b) &&
      (xp == -1 <==> root == x)
  {
    assert NodeOk(ns, root, sp, x);
    assert NodeOk(ns, root, sp, y);
    var b := if y == ns[x].right then ns[y].left else ns[y].right;
    var xp := ns[x].parent;
    if b != -1 {
      assert NodeOk(ns, root, sp, b);
    }
    if xp != -1 {
      assert NodeOk(ns, root, sp, xp);
      DistinctAt(ns, root, io, sp, xp, x);
      if b != -1 {
        DistinctAt(ns, root, io, sp, xp, b);
      }
    }
  }

  lemma LeftRotationAtX(ns: seq<PriceNode>, ns': seq<PriceNode>, root: int, root': int, io: seq<int>, sp: map<int, Span>, x: i32)
    requires Tree(ns, root, io, sp) && x in sp && LeftRotationCells(ns, ns', root, root', x)
    ensures NodeOk(ns', root', SpansAfterLeft(sp, x, ns[x].right), x)
  {
    var y := ns[x].right;
    RotationNodes(ns, root, io, sp, x, y);
    var a := ns[x].left;
    if a != -1 {
      assert NodeOk(ns, root, sp, a);
      DistinctAt(ns, root, io, sp, a, y);
      if ns[y].left != -1 { DistinctAt(ns, root, io, sp, a, ns[y].left); }
      if ns[x].parent != -1 { DistinctAt(ns, root, io, sp, a, ns[x].parent); }
    }
    if ns[y].left != -1 {
      assert NodeOk(ns, root, sp, ns[y].left);
    }
  }

  lemma LeftRotationAtY(ns: seq<PriceNode>, ns': seq<PriceNode>, root: int, root': int, io: seq<int>, sp: map<int, Span>, x: i32)
    requires Tree(ns, root, io, sp) && x in sp && LeftRotationCells(ns, ns', root, root', x)
    ensures NodeOk(ns', root', SpansAfterLeft(sp, x, ns[x].right), ns[x].right)
  {
    var y := ns[x].right;
    RotationNodes(ns, root, io, sp, x, y);
    var c := ns[y].right;
    if c != -1 {
      assert NodeOk(ns, root, sp, c);
      DistinctAt(ns, root, io, sp, c, x);
      if ns[y].left != -1 { DistinctAt(ns, root, io, sp, c, ns[y].left); }
      if ns[x].parent != -1 { DistinctAt(ns, root, io, sp, c, ns[x].parent); }
    }
    if ns[x].parent != -1 {
      assert NodeOk(ns, root, sp, ns[x].parent);
    }
  }

  lemma LeftRotationAtInner(ns: seq<PriceNode>, ns': seq<PriceNode>, root: int, root': int, io: seq<int>, sp: map<int, Span>, x: i32)
    requires Tree(ns, root, io, sp) && x in sp && LeftRotationCells(ns, ns', root, root', x)
    requires ns[ns[x].right].left != -1
    ensures NodeOk(ns', root', SpansAfterLeft(sp, x, ns[x].right), ns[ns[x].right].left)
  {
    var y := ns[x].right;
    RotationNodes(ns, root, io, sp, x, y);
    var b := ns[y].left;
    var xp := ns[x].parent;
    assert NodeOk(ns, root, sp, b);
    var l, r := ns[b].left, ns[b].right;
    if l != -1 {
      assert NodeOk(ns, root, sp, l);
      DistinctAt(ns, root, io, sp, l, x);
      DistinctAt(ns, root, io, sp, l, y);
      if xp != -1 { DistinctAt(ns, root, io, sp, l, xp); }
    }
    if r != -1 {
      assert NodeOk(ns, root, sp, r);
      DistinctAt(ns, root, io, sp, r, x);
      DistinctAt(ns, root, io, sp, r, y);
      if xp != -1 { DistinctAt(ns, root, io, sp, r, xp); }
    }
  }

  /** The parent of `x` now has `y` in place of `x`, over the same range. */
  lemma LeftRotationAtParent(ns: seq<PriceNode>, ns': seq<PriceNode>, root: int, root': int, sp: map<int, Span>, sp': map<int, Span>, x: i32, y: int)
    requires LeftRotationCells(ns, ns', root, root', x) && y == ns[x].right && sp' == SpansAfterLeft(sp, x, y)
    requires ns[x].parent != -1 && ns[x].parent != y && ns[x].parent != ns[y].left
    requires NodeOk(ns, root, sp, x) && NodeOk(ns, root, sp, y) && NodeOk(ns, root, sp, ns[x].parent)
    requires ns[y].left != -1 ==> NodeOk(ns, root, sp, ns[y].left)
    requires ns[ns[x].parent].parent != -1 ==> NodeOk(ns, root, sp, ns[ns[x].parent].parent)
    ensures NodeOk(ns', root', sp', ns[x].parent)
  {
  }

  /** A node the rotation does not relink keeps its span, and its
      children and parent still agree with it: only the node itself and
      `x`, `y` and the cells are looked at. */
  lemma LeftRotationElsewhere(ns: seq<PriceNode>, ns': seq<PriceNode>, root: int, root': int, sp: map<int, Span>, sp': map<int, Span>, x: i32, y: int, i: int)
    requires LeftRotationCells(ns, ns', root, root', x) && y == ns[x].right && sp' == SpansAfterLeft(sp, x, y)
    requires NodeOk(ns, root, sp, x) && NodeOk(ns, root, sp, y) && NodeOk(ns, root, sp, i)
    requires i != x && i != y && i != ns[y].left && i != ns[x].parent
    ensures NodeOk(ns', root', sp', i)
  {
  }

  /** A left rotation changes no key, color or order chain. */
  lemma LeftRotationPayload(ns: seq<PriceNode>, ns': seq<PriceNode>, root: int, root': int, x: i32)
    requires LeftRotationCells(ns, ns', root, root', x)
    ensures SamePayload(ns, ns')
  {
  }

  lemma LeftRotationNodes(ns: seq<PriceNode>, ns': seq<PriceNode>, root: int, root': int, io: seq<int>, sp: map<int, Span>, x: i32)
    requires Tree(ns, root, io, sp) && x in sp && LeftRotationCells(ns, ns', root, root', x)
    ensures forall i :: i in sp ==> NodeOk(ns', root', SpansAfterLeft(sp, x, ns[x].right), i)
  {
    var y := ns[x].right;
    RotationNodes(ns, root, io, sp, x, y);
    forall i | i in sp
      ensures NodeOk(ns', root', SpansAfterLeft(sp, x, y), i)
    {
      assert NodeOk(ns, root, sp, i);
      if i == x {
        LeftRotationAtX(ns, ns', root, root', io, sp, x);
      } else if i == y {
        LeftRotationAtY(ns, ns', root, root', io, sp, x);
      } else if i == ns[y].left {
        LeftRotationAtInner(ns, ns', root, root', io, sp, x);
      } else if i == ns[x].parent {
        var b, g := ns[y].left, ns[i].parent;
        if b != -1 { assert NodeOk(ns, root, sp, b); }
        if g != -1 { assert NodeOk(ns, root, sp, g); }
        LeftRotationAtParent(ns, ns', root, root', sp, SpansAfterLeft(sp, x, y), x, y);
      } else {
        LeftRotationElsewhere(ns, ns', root, root', sp, SpansAfterLeft(sp, x, y), x, y, i);
      }
    }
  }

  /** After a left rotation at the root, `y` is the root and spans the whole sequence. */
  lemma LeftRotationRoot(ns: seq<PriceNode>, ns': seq<PriceNode>, root: int, root': int, io: seq<int>, sp: map<int, Span>, sp': map<int, Span>, x: i32)
    requires Tree(ns, root, io, sp) && x in sp && LeftRotationCells(ns, ns', root, root', x)
    requires sp' == SpansAfterLeft(sp, x, ns[x].right)
    ensures |io| > 0
    ensures root' in sp' && sp'[root'].lo == 0 && sp'[root'].hi == |io|
  {
    var y := ns[x].right;
    RotationNodes(ns, root, io, sp, x, y);
    assert sp[x].at < |io|;
    assert NodeOk(ns, root, sp, root);
  }

  /** A left rotation keeps the in-order sequence, and so the key order;
      only `x` and `y` change span. */
  lemma LeftRotationShape(ns: seq<PriceNode>, ns': seq<PriceNode>, root: int, root': int, io: seq<int>, sp: map<int, Span>, sp': map<int, Span>, x: i32)
    requires Tree(ns, root, io, sp) && Sorted(ns, io) && x in sp && LeftRotationCells(ns, ns', root, root', x)
    requires sp' == SpansAfterLeft(sp, x, ns[x].right)
    ensures Tree(ns', root', io, sp') && Sorted(ns', io) && SamePayload(ns, ns')
  {
    var y := ns[x].right;
    RotationNodes(ns, root, io, sp, x, y);
    LeftRotationPayload(ns, ns', root, root', x);
    LeftRotationNodes(ns, ns', root, root', io, sp, x);
    SpansAfterRotationAt(sp, x, y);
    LeftRotationRoot(ns, ns', root, root', io, sp, sp', x);
    TreeRespan(ns, ns', root, root', io, sp, sp');
    SortedFrame(ns, ns', io);
  }

  lemma RightRotationAtX(ns: seq<PriceNode>, ns': seq<PriceNode>, root: int, root': int, io: seq<int>, sp: map<int, Span>, x: i32)
    requires Tree(ns, root, io, sp) && x in sp && RightRotationCells(ns, ns', root, root', x)
    ensures NodeOk(ns', root', SpansAfterRight(sp, x, ns[x].left), x)
  {
    var y := ns[x].left;
    RotationNodes(ns, root, io, sp, x, y);
    var a := ns[x].right;
    if a != -1 {
      assert NodeOk(ns, root, sp, a);
      DistinctAt(ns, root, io, sp, a, y);
      if ns[y].right != -1 { DistinctAt(ns, root, io, sp, a, ns[y].right); }
      if ns[x].parent != -1 { DistinctAt(ns, root, io, sp, a, ns[x].parent); }
    }
    if ns[y].right != -1 {
      assert NodeOk(ns, root, sp, ns[y].right);
    }
  }

  lemma RightRotationAtY(ns: seq<PriceNode>, ns': seq<PriceNode>, root: int, root': int, io: seq<int>, sp: map<int, Span>, x: i32)
    requires Tree(ns, root, io, sp) && x in sp && RightRotationCells(ns, ns', root, root', x)
    ensures NodeOk(ns', root', SpansAfterRight(sp, x, ns[x].left), ns[x].left)
  {
    var y := ns[x].left;
    RotationNodes(ns, root, io, sp, x, y);
    var c := ns[y].left;
    if c != -1 {
      assert NodeOk(ns, root, sp, c);
      DistinctAt(ns, root, io, sp, c, x);
      if ns[y].right != -1 { DistinctAt(ns, root, io, sp, c, ns[y].right); }
      if ns[x].parent != -1 { DistinctAt(ns, root, io, sp, c, ns[x].parent); }
    }
    if ns[x].parent != -1 {
      assert NodeOk(ns, root, sp, ns[x].parent);
    }
  }

  lemma RightRotationAtInner(ns: seq<PriceNode>, ns': seq<PriceNode>, root: int, root': int, io: seq<int>, sp: map<int, Span>, x: i32)
    requires Tree(ns, root, io, sp) && x in sp && RightRotationCells(ns, ns', root, root', x)
    requires ns[ns[x].left].right != -1
    ensures NodeOk(ns', root', SpansAfterRight(sp, x, ns[x].left), ns[ns[x].left].right)
  {
    var y := ns[x].left;
    RotationNodes(ns, root, io, sp, x, y);
    var b := ns[y].right;
    var xp := ns[x].parent;
    assert NodeOk(ns, root, sp, b);
    var l, r := ns[b].right, ns[b].left;
    if l != -1 {
      assert NodeOk(ns, root, sp, l);
      DistinctAt(ns, root, io, sp, l, x);
      DistinctAt(ns, root, io, sp, l, y);
      if xp != -1 { DistinctAt(ns, root, io, sp, l, xp); }
    }
    if r != -1 {
      assert NodeOk(ns, root, sp, r);
      DistinctAt(ns, root, io, sp, r, x);
      DistinctAt(ns, root, io, sp, r, y);
      if xp != -1 { DistinctAt(ns, root, io, sp, r, xp); }
    }
  }

  /** The parent of `x` now has `y` in place of `x`, over the same range. */
  lemma RightRotationAtParent(ns: seq<PriceNode>, ns': seq<PriceNode>, root: int, root': int, sp: map<int, Span>, sp': map<int, Span>, x: i32, y: int)
    requires RightRotationCells(ns, ns', root, root', x) && y == ns[x].left && sp' == SpansAfterRight(sp, x, y)
    requires ns[x].parent != -1 && ns[x].parent != y && ns[x].parent != ns[y].right
    requires NodeOk(ns, root, sp, x) && NodeOk(ns, root, sp, y) && NodeOk(ns, root, sp, ns[x].parent)
    requires ns[y].right != -1 ==> NodeOk(ns, root, sp, ns[y].right)
    requires ns[ns[x].parent].parent != -1 ==> NodeOk(ns, root, sp, ns[ns[x].parent].parent)
    ensures NodeOk(ns', root', sp', ns[x].parent)
  {
  }

  /** A node the rotation does not relink keeps its span, and its
      children and parent still agree with it: only the node itself and
      `x`, `y` and the cells are looked at. */
  lemma RightRotationElsewhere(ns: seq<PriceNode>, ns': seq<PriceNode>, root: int, root': int, sp: map<int, Span>, sp': map<int, Span>, x: i32, y: int, i: int)
    requires RightRotationCells(ns, ns', root, root', x) && y == ns[x].left && sp' == SpansAfterRight(sp, x, y)
    requires NodeOk(ns, root, sp, x) && NodeOk(ns, root, sp, y) && NodeOk(ns, root, sp, i)
    requires i != x && i != y && i != ns[y].right && i != ns[x].parent
    ensures NodeOk(ns', root', sp', i)
  {
  }

  /** A right rotation changes no key, color or order chain. */
  lemma RightRotationPayload(ns: seq<PriceNode>, ns': seq<PriceNode>, root: int, root': int, x: i32)
    requires RightRotationCells(ns, ns', root, root', x)
    ensures SamePayload(ns, ns')
  {
  }

  lemma RightRotationNodes(ns: seq<PriceNode>, ns': seq<PriceNode>, root: int, root': int, io: seq<int>, sp: map<int, Span>, x: i32)
    requires Tree(ns, root, io, sp) && x in sp && RightRotationCells(ns, ns', root, root', x)
    ensures forall i :: i in sp ==> NodeOk(ns', root', SpansAfterRight(sp, x, ns[x].left), i)
  {
    var y := ns[x].left;
    RotationNodes(ns, root, io, sp, x, y);
    forall i | i in sp
      ensures NodeOk(ns', root', SpansAfterRight(sp, x, y), i)
    {
      assert NodeOk(ns, root, sp, i);
      if i == x {
        RightRotationAtX(ns, ns', root, root', io, sp, x);
      } else if i == y {
        RightRotationAtY(ns, ns', root, root', io, sp, x);
      } else if i == ns[y].right {
        RightRotationAtInner(ns, ns', root, root', io, sp, x);
      } else if i == ns[x].parent {
        var b, g := ns[y].right, ns[i].parent;
        if b != -1 { assert NodeOk(ns, root, sp, b); }
        if g != -1 { assert NodeOk(ns, root, sp, g); }
        RightRotationAtParent(ns, ns', root, root', sp, SpansAfterRight(sp, x, y), x, y);
      } else {
        RightRotationElsewhere(ns, ns', root, root', sp, SpansAfterRight(sp, x, y), x, y, i);
      }
    }
  }

  /** After a right rotation at the root, `y` is the root and spans the whole sequence. */
  lemma RightRotationRoot(ns: seq<PriceNode>, ns': seq<PriceNode>, root: int, root': int, io: seq<int>, sp: map<int, Span>, sp': map<int, Span>, x: i32)
    requires Tree(ns, root, io, sp) && x in sp && RightRotationCells(ns, ns', root, root', x)
    requires sp' == SpansAfterRight(sp, x, ns[x].left)
    ensures |io| > 0
    ensures root' in sp' && sp'[root'].lo == 0 && sp'[root'].hi == |io|
  {
    var y := ns[x].left;
    RotationNodes(ns, root, io, sp, x, y);
    assert sp[x].at < |io|;
    assert NodeOk(ns, root, sp, root);
  }

  /** A right rotation keeps the in-order sequence, and so the key order;
      only `x` and `y` change span. */
  lemma RightRotationShape(ns: seq<PriceNode>, ns': seq<PriceNode>, root: int, root': int, io: seq<int>, sp: map<int, Span>, sp': map<int, Span>, x: i32)
    requires Tree(ns, root, io, sp) && Sorted(ns, io) && x in sp && RightRotationCells(ns, ns', root, root', x)
    requires sp' == SpansAfterRight(sp, x, ns[x].left)
    ensures Tree(ns', root', io, sp') && Sorted(ns', io) && SamePayload(ns, ns')
  {
    var y := ns[x].left;
    RotationNodes(ns, root, io, sp, x, y);
    RightRotationPayload(ns, ns', root, root', x);
    RightRotationNodes(ns, ns', root, root', io, sp, x);
    SpansAfterRotationAt(sp, x, y);
    RightRotationRoot(ns, ns', root, root', io, sp, sp', x);
    TreeRespan(ns, ns', root, root', io, sp, sp');
    SortedFrame(ns, ns', io);
  }

  /** The record-by-record description of a left rotation, from the writes. */
  lemma LeftRotationCellsIntro(ns: seq<PriceNode>, ns': seq<PriceNode>, root: int, root': int, x: i32, y: int, b: int, xp: int)
    requires 0 <= x < |ns| && |ns'| == |ns| && y == ns[x].right && 0 <= y < |ns|
    requires b == ns[y].left && xp == ns[x].parent && IndexOrNull(ns, b) && IndexOrNull(ns, xp)
    requires ns'[x] == ns[x].(right := b, parent := y) && ns'[y] == ns[y].(left := x, parent := xp)
    requires b != -1 ==> ns'[b] == ns[b].(parent := x)
    requires xp != -1 ==> ns'[xp] == if ns[xp].left == x then ns[xp].(left := y) else ns[xp].(right := y)
    requires forall i :: 0 <= i < |ns| && i != x && i != y && i != b && i != xp ==> ns'[i] == ns[i]
    requires root' == if xp == -1 then y else root
    ensures LeftRotationCells(ns, ns', root, root', x)
  {
  }

  /** The record-by-record description of a right rotation, from the writes. */
  lemma RightRotationCellsIntro(ns: seq<PriceNode>, ns': seq<PriceNode>, root: int, root': int, x: i32, y: int, b: int, xp: int)
    requires 0 <= x < |ns| && |ns'| == |ns| && y == ns[x].left && 0 <= y < |ns|
    requires b == ns[y].right && xp == ns[x].parent && IndexOrNull(ns, b) && IndexOrNull(ns, xp)
    requires ns'[x] == ns[x].(left := b, parent := y) && ns'[y] == ns[y].(right := x, parent := xp)
    requires b != -1 ==> ns'[b] == ns[b].(parent := x)
    requires xp != -1 ==> ns'[xp] == if ns[xp].left == x then ns[xp].(left := y) else ns[xp].(right := y)
    requires forall i :: 0 <= i < |ns| && i != x && i != y && i != b && i != xp ==> ns'[i] == ns[i]
    requires root' == if xp == -1 then y else root
    ensures RightRotationCells(ns, ns', root, root', x)
  {
  }
}
