/** The steps of insert_fixup in utils/slab.rs, stated over the sequence of
    price-node records: what one pass changes, why the walk ends, and why
    it never follows a null index. */
module SlabFixup {
  import opened Common
  import opened BookState
  import opened SlabTree

  /** How far insert_fixup still is from its end at node `z`: zero once the
      parent of `z` is black, and otherwise smaller the larger the subtree
      of `z`. */
  ghost function FixupMeasure(ns: seq<PriceNode>, io: seq<int>, sp: map<int, Span>, z: int): int
    requires z in sp && 0 <= z < |ns|
  {
    var p := ns[z].parent;
    if 0 <= p < |ns| && ns[p].color == RED then |io| + 1 - (sp[z].hi - sp[z].lo) else 0
  }

  /** Keys, occupancy and chains agreeing is transitive. */
  lemma SameEntriesTrans(a: seq<PriceNode>, b: seq<PriceNode>, c: seq<PriceNode>)
    requires SameEntries(a, b) && SameEntries(b, c)
    ensures SameEntries(a, c)
  {
  }

  /** The links of a tree node are null or name tree nodes. */
  lemma Links(ns: seq<PriceNode>, root: int, io: seq<int>, sp: map<int, Span>, i: int)
    requires Tree(ns, root, io, sp) && i in sp
    ensures 0 <= i < |ns| && IndexOrNull(ns, ns[i].left) && IndexOrNull(ns, ns[i].right) && IndexOrNull(ns, ns[i].parent)
    ensures ns[i].parent != -1 ==> ns[i].parent in sp
    ensures ns[i].left != -1 ==> ns[i].left in sp && ns[ns[i].left].parent == i
    ensures ns[i].right != -1 ==> ns[i].right in sp && ns[ns[i].right].parent == i
  {
    assert NodeOk(ns, root, sp, i);
  }

  /** A node, its parent and its grandparent are three distinct tree nodes,
      each a child of the next. */
  lemma ChainUp(ns: seq<PriceNode>, root: int, io: seq<int>, sp: map<int, Span>, z: int)
    requires Tree(ns, root, io, sp) && z in sp && 0 <= z < |ns|
    requires var p := ns[z].parent; 0 <= p < |ns| && ns[p].parent != -1
    ensures var p := ns[z].parent; var g := ns[p].parent;
      p in sp && g in sp && 0 <= g < |ns| && z != p && p != g && z != g &&
      (ns[p].left == z || ns[p].right == z) && (ns[g].left == p || ns[g].right == p) &&
      (ns[p].left == z ==> ns[p].right != z) && (ns[g].left == p ==> ns[g].right != p)
  {
    assert NodeOk(ns, root, sp, z);
    var p := ns[z].parent;
    assert NodeOk(ns, root, sp, p);
    assert NodeOk(ns, root, sp, ns[p].parent);
  }

  /** A node with a red parent has a grandparent: the parent is not the
      root, because the root is black, or else `z` itself is the root and
      has no parent at all. */
  lemma FixupParents(ns: seq<PriceNode>, root: int, io: seq<int>, sp: map<int, Span>, z: int)
    requires Tree(ns, root, io, sp) && z in sp && 0 <= z < |ns|
    requires var p := ns[z].parent; 0 <= p < |ns| && ns[p].color == RED
    requires RootBlack(ns, root) || z == root
    ensures RootBlack(ns, root) && FixupMeasure(ns, io, sp, z) >= 1
    ensures var p := ns[z].parent;
      p in sp && 0 <= p < |ns| && ns[p].parent in sp && 0 <= ns[p].parent < |ns| &&
      (ns[ns[p].parent].left == p || ns[ns[p].parent].right == p)
  {
    assert NodeOk(ns, root, sp, z);
    var p := ns[z].parent;
    assert NodeOk(ns, root, sp, p);
    SpanWithin(ns, root, io, sp, z);
  }

  /** The recoloring pass: parent and uncle turn black and the grandparent
      red, and the walk moves to the grandparent, whose subtree is larger. */
  lemma FixupRecolor(ns: seq<PriceNode>, root: int, io: seq<int>, sp: map<int, Span>,
                     z: int, p: int, u: int, g: int, a: int, b: int)
    requires Tree(ns, root, io, sp) && RootBlack(ns, root) && z in sp && 0 <= z < |ns|
    requires ns[z].parent == p && 0 <= p < |ns| && ns[p].color == RED && ns[p].parent == g && 0 <= g < |ns|
    requires (ns[g].left == p && ns[g].right == u) || (ns[g].right == p && ns[g].left == u)
    requires 0 <= u < |ns| && ns[u].color == RED
    requires (a == p && b == u) || (a == u && b == p)
    ensures var ns' := Painted(Painted(Painted(ns, a, BLACK), b, BLACK), g, RED);
      SameEntries(ns, ns') && g in sp && (RootBlack(ns', root) || g == root) &&
      FixupMeasure(ns', io, sp, g) < FixupMeasure(ns, io, sp, z)
  {
    assert NodeOk(ns, root, sp, z);
    assert NodeOk(ns, root, sp, p);
    assert NodeOk(ns, root, sp, g);
    assert NodeOk(ns, root, sp, u);
    if root != -1 {
      assert NodeOk(ns, root, sp, root);
    }
    SpanWithin(ns, root, io, sp, z);
    RecolorSteps(ns, root, io, sp, z, p, u, g, a, b);
  }

  /** `FixupRecolor` once the spans and links it needs are known. */
  lemma RecolorSteps(ns: seq<PriceNode>, root: int, io: seq<int>, sp: map<int, Span>,
                     z: int, p: int, u: int, g: int, a: int, b: int)
    requires z in sp && p in sp && g in sp && 0 <= z < |ns| && 0 <= p < |ns| && 0 <= g < |ns| && 0 <= u < |ns|
    requires ns[z].parent == p && ns[p].color == RED && ns[p].parent == g && ns[u].parent == g
    requires sp[z].hi - sp[z].lo < sp[p].hi - sp[p].lo < sp[g].hi - sp[g].lo && sp[z].hi <= |io| && sp[z].lo <= sp[z].at < sp[z].hi
    requires RootBlack(ns, root) && (0 <= root < |ns| ==> ns[root].parent == -1)
    requires (a == p && b == u) || (a == u && b == p)
    ensures var ns' := Painted(Painted(Painted(ns, a, BLACK), b, BLACK), g, RED);
      SameEntries(ns, ns') && (RootBlack(ns', root) || g == root) &&
      FixupMeasure(ns', io, sp, g) < FixupMeasure(ns, io, sp, z)
  {
  }

  /** The first rotation of the left-hand case: when `z` is the right child
      of its parent, rotating the parent left puts `z` in its place, and the
      old parent becomes the node the walk continues from. */
  lemma FixupRotateFirstLeft(ns: seq<PriceNode>, ns': seq<PriceNode>, root: int, root': int, z: int, p: int, g: int)
    requires 0 <= z < |ns| && 0 <= p < |ns| && 0 <= g < |ns| && z != p && p != g && z != g
    requires ns[z].parent == p && ns[p].parent == g && ns[g].left == p && ns[p].right == z
    requires LeftRotationCells(ns, ns', root, root', p)
    ensures ns'[p].parent == z && ns'[z].parent == g && ns'[g].left == z && ns'[z].left == p && root' == root
  {
  }

  /** The mirror image of `FixupRotateFirstLeft`. */
  lemma FixupRotateFirstRight(ns: seq<PriceNode>, ns': seq<PriceNode>, root: int, root': int, z: int, p: int, g: int)
    requires 0 <= z < |ns| && 0 <= p < |ns| && 0 <= g < |ns| && z != p && p != g && z != g
    requires ns[z].parent == p && ns[p].parent == g && ns[g].right == p && ns[g].left != p && ns[p].left == z
    requires RightRotationCells(ns, ns', root, root', p)
    ensures ns'[p].parent == z && ns'[z].parent == g && ns'[g].right == z && ns'[z].right == p && root' == root
  {
  }

  /** The last step of the left-hand rotation case: the parent turns black,
      the grandparent red, and rotating the grandparent right lifts the
      parent into its place, so the parent of `n` is now black. */
  lemma FixupTailLeft(ns: seq<PriceNode>, ns': seq<PriceNode>, root: int, root': int, io: seq<int>, sp: map<int, Span>,
                      n: int, p: int, g: int)
    requires Tree(ns, root, io, sp) && RootBlack(ns, root) && n in sp && p in sp && g in sp
    requires 0 <= n < |ns| && 0 <= p < |ns| && 0 <= g < |ns|
    requires ns[n].parent == p && ns[p].parent == g && ns[g].left == p && ns[p].left == n
    requires var pp := Painted(Painted(ns, p, BLACK), g, RED);
      RightRotationCells(pp, ns', root, root', g) && SamePayload(pp, ns')
    ensures ns'[n].parent == p && ns'[p].color == BLACK && RootBlack(ns', root') && SameEntries(ns, ns')
  {
    assert NodeOk(ns, root, sp, n);
    assert NodeOk(ns, root, sp, p);
    assert NodeOk(ns, root, sp, g);
    var b := ns[p].right;
    if b != -1 {
      assert NodeOk(ns, root, sp, b);
    }
    var xp := ns[g].parent;
    if xp != -1 {
      assert NodeOk(ns, root, sp, xp);
    }
    assert NodeOk(ns, root, sp, root);
  }

  /** The mirror image of `FixupTailLeft`. */
  lemma FixupTailRight(ns: seq<PriceNode>, ns': seq<PriceNode>, root: int, root': int, io: seq<int>, sp: map<int, Span>,
                       n: int, p: int, g: int)
    requires Tree(ns, root, io, sp) && RootBlack(ns, root) && n in sp && p in sp && g in sp
    requires 0 <= n < |ns| && 0 <= p < |ns| && 0 <= g < |ns|
    requires ns[n].parent == p && ns[p].parent == g && ns[g].right == p && ns[p].right == n
    requires var pp := Painted(Painted(ns, p, BLACK), g, RED);
      LeftRotationCells(pp, ns', root, root', g) && SamePayload(pp, ns')
    ensures ns'[n].parent == p && ns'[p].color == BLACK && RootBlack(ns', root') && SameEntries(ns, ns')
  {
    assert NodeOk(ns, root, sp, n);
    assert NodeOk(ns, root, sp, p);
    assert NodeOk(ns, root, sp, g);
    var b := ns[p].left;
    if b != -1 {
      assert NodeOk(ns, root, sp, b);
    }
    var xp := ns[g].parent;
    if xp != -1 {
      assert NodeOk(ns, root, sp, xp);
    }
    assert NodeOk(ns, root, sp, root);
  }
}
