/** The steps of delete_fixup in utils/slab.rs, stated over the sequence of
    price-node records. The walk starts at the slot `x` under `xp` that the
    removed node left and climbs while `x` is a black non-root node. Where
    the program reads a field of the sibling of `x`, a null sibling would be
    an out-of-range index: the model stops there with a panic. */
module SlabDelete {
  import opened Common
  import opened BookState
  import opened SlabTree
  import opened SlabRemoval

  /** How one pass of the loop of delete_fixup ends: it moves up to the
      slot `x` under `xp`, it rotates and stops, or it finds a null
      sibling and aborts. */
  datatype FixupStep = Up(x: i32, xp: i32) | Done | NullSibling

  /** A node of a tree fills a slot under its parent, and the parent's
      subtree is larger than its own. */
  lemma SlotUp(ns: seq<PriceNode>, root: int, io: seq<int>, sp: map<int, Span>, i: int)
    requires Tree(ns, root, io, sp) && i in sp
    ensures 0 <= i < |ns| && Slot(ns, root, sp, i, ns[i].parent)
    ensures ns[i].parent != -1 ==> ns[i].parent in sp && sp[ns[i].parent].hi - sp[ns[i].parent].lo > sp[i].hi - sp[i].lo
  {
    assert NodeOk(ns, root, sp, i);
    var p := ns[i].parent;
    if p != -1 {
      assert NodeOk(ns, root, sp, p);
    }
  }

  /** While the walk goes on there is still room above `xp`. */
  lemma MeasureAtLeastTwo(ns: seq<PriceNode>, root: int, io: seq<int>, sp: map<int, Span>, x: int, xp: int)
    requires Tree(ns, root, io, sp) && xp in sp && xp != -1 && x != root && !(0 <= x < |ns| && ns[x].color == RED)
    ensures DeleteMeasure(ns, root, io, sp, x, xp) >= 2
  {
    SpanWithin(ns, root, io, sp, xp);
  }

  /** The sibling of a slot is a tree node other than the root. */
  lemma SiblingOf(ns: seq<PriceNode>, root: int, io: seq<int>, sp: map<int, Span>, x: int, xp: int, s: int)
    requires Tree(ns, root, io, sp) && Slot(ns, root, sp, x, xp) && xp != -1
    requires (ns[xp].left == x && s == ns[xp].right) || (ns[xp].right == x && s == ns[xp].left)
    ensures IndexOrNull(ns, s) && IndexOrNull(ns, ns[xp].parent)
    ensures s != -1 ==> s in sp && s != root && s != xp && s != x && ns[s].parent == xp
    ensures s != -1 ==> IndexOrNull(ns, ns[s].left) && IndexOrNull(ns, ns[s].right)
  {
    assert NodeOk(ns, root, sp, xp);
    if s != -1 {
      assert NodeOk(ns, root, sp, s);
    }
  }

  /** A red sibling to the right: after painting it black and `xp` red and
      rotating `xp` left, `x` still hangs left of `xp`, `xp` is red, and
      the root is black again. */
  lemma RedSiblingLeft(ns: seq<PriceNode>, pp: seq<PriceNode>, ns': seq<PriceNode>, root: int, root': int,
                       io: seq<int>, sp: map<int, Span>, sp': map<int, Span>, x: int, xp: i32, s: int)
    requires Tree(ns, root, io, sp) && RootBlack(ns, root) && Slot(ns, root, sp, x, xp) && xp != -1
    requires ns[xp].left == x && ns[xp].right == s && 0 <= s < |ns| && x != root
    requires pp == Painted(Painted(ns, s, BLACK), xp, RED)
    requires LeftRotationCells(pp, ns', root, root', xp) && SamePayload(pp, ns') && sp'.Keys == sp.Keys
    ensures Slot(ns', root', sp', x, xp) && ns'[xp].left == x && ns'[xp].color == RED
    ensures RootBlack(ns', root') && x != root'
  {
    assert NodeOk(ns, root, sp, xp);
    assert NodeOk(ns, root, sp, s);
    if x != -1 {
      assert NodeOk(ns, root, sp, x);
    }
    var b := ns[s].left;
    if b != -1 {
      assert NodeOk(ns, root, sp, b);
    }
    if root != -1 {
      assert NodeOk(ns, root, sp, root);
    }
  }

  /** The mirror image of `RedSiblingLeft`. */
  lemma RedSiblingRight(ns: seq<PriceNode>, pp: seq<PriceNode>, ns': seq<PriceNode>, root: int, root': int,
                        io: seq<int>, sp: map<int, Span>, sp': map<int, Span>, x: int, xp: i32, s: int)
    requires Tree(ns, root, io, sp) && RootBlack(ns, root) && Slot(ns, root, sp, x, xp) && xp != -1
    requires ns[xp].right == x && ns[xp].left == s && 0 <= s < |ns| && x != root
    requires pp == Painted(Painted(ns, s, BLACK), xp, RED)
    requires RightRotationCells(pp, ns', root, root', xp) && SamePayload(pp, ns') && sp'.Keys == sp.Keys
    ensures Slot(ns', root', sp', x, xp) && ns'[xp].right == x && ns'[xp].color == RED
    ensures RootBlack(ns', root') && x != root'
  {
    assert NodeOk(ns, root, sp, xp);
    assert NodeOk(ns, root, sp, s);
    if x != -1 {
      assert NodeOk(ns, root, sp, x);
    }
    var b := ns[s].right;
    if b != -1 {
      assert NodeOk(ns, root, sp, b);
    }
    if root != -1 {
      assert NodeOk(ns, root, sp, root);
    }
  }

  /** Rotating the sibling `s` right puts its left child in its place
      under `xp`. */
  lemma NephewUpLeft(ns: seq<PriceNode>, ns': seq<PriceNode>, root: int, root': int, xp: int, s: i32)
    requires RightRotationCells(ns, ns', root, root', s)
    requires 0 <= xp < |ns| && ns[xp].right == s && ns[xp].left != s && ns[s].parent == xp
    ensures ns'[xp].right == ns[s].left
  {
  }

  /** Rotating the sibling `s` left puts its right child in its place
      under `xp`. */
  lemma NephewUpRight(ns: seq<PriceNode>, ns': seq<PriceNode>, root: int, root': int, xp: int, s: i32)
    requires LeftRotationCells(ns, ns', root, root', s)
    requires 0 <= xp < |ns| && ns[xp].left == s && ns[xp].right != s && ns[s].parent == xp
    ensures ns'[xp].left == ns[s].right
  {
  }
}
