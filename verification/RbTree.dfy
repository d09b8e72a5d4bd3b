/**
 The balancing algorithms of the red-black tree.

 The program writes each mirrored pair of branches out twice; here a parameter `left` picks the side.
 Ghost parameters tell each method which tree `t` its cursor stands on and in which context `k`.
 */
module RbTree {
  import opened RbShape

  class RbTree {
    var root: Ptr
    var mem: Memory

    method SetColor(p: Ptr, red: bool, ghost t: Tree, ghost k: Ctx, ghost r: Ranks)
      requires t.Fork? && At(mem, root, p, t, k, r)
      modifies this`mem
      ensures At(mem, root, p, t.(red := red), k, r)
      ensures SameBut(old(mem), mem, r.of.Keys)
      ensures SameBut(old(mem), mem, {p}) && p in old(mem) && mem[p] == old(mem)[p].(red := red)
    {
      mem := mem[p := mem[p].(red := red)];
      Repaint(old(mem), mem, root, p, t, k, r, red);
    }

    /** The pointer that led down to `old'` (in its parent, or at the root) now leads to `new'`. */
    method ReplaceChild(left: bool, old': Ptr, new': Ptr, parent: Ptr, ghost k: Ctx, ghost r: Ranks)
      requires parent == Above(k) && CtxLinked(mem, k, old', root) && CtxOrdered(k, r)
      requires Within(old', r.of, Lo(k, r), Hi(k, r))
      modifies this
      ensures CtxLinked(mem, k, new', root)
      ensures SameBut(old(mem), mem, {parent})
    {
      if parent != NULL {
        if Child(mem[parent], left) == old' {
          mem := mem[parent := WithChild(mem[parent], left, new')];
        } else {
          mem := mem[parent := WithChild(mem[parent], !left, new')];
        }
        if k.left {
          LinkedSame(old(mem), mem, {parent}, mem[k.p].right, k.p, k.sib, r.of, r.of[k.p], Hi(k.up, r));
        } else {
          LinkedSame(old(mem), mem, {parent}, mem[k.p].left, k.p, k.sib, r.of, Lo(k.up, r), r.of[k.p]);
        }
        CtxLinkedSame(old(mem), mem, {parent}, k.up, k.p, root, r);
      } else {
        root := new';
      }
    }

    /** The writes of a rotation below `node`, before its parent is told. */
    method Turn(left: bool, node: Ptr, child: Ptr, parent: Ptr)
      requires node in mem && child in mem && node != child && child == Child(mem[node], !left)
      requires var inner := Child(mem[child], left);
               inner != NULL ==> inner in mem && inner != node && inner != child
      modifies this`mem
      ensures var m := old(mem); var inner := Child(m[child], left);
              && SameBut(m, mem, {node, child, inner})
              && mem[node] == WithChild(m[node], !left, inner).(parent := child)
              && mem[child] == WithChild(m[child], left, node).(parent := parent)
              && (inner != NULL ==> mem[inner] == m[inner].(parent := node))
    {
      var inner := Child(mem[child], left);
      mem := mem[node := WithChild(mem[node], !left, inner)];
      if inner != NULL {
        mem := mem[inner := mem[inner].(parent := node)];
      }
      mem := mem[child := WithChild(mem[child], left, node)];
      mem := mem[child := mem[child].(parent := parent)];
      mem := mem[node := mem[node].(parent := child)];
    }

    /** `node` goes down on the side `left`, and its child `y` on the other side takes its place. */
    method Rotate(left: bool, node: Ptr, ghost a: Tree, ghost cx: bool, ghost b: Tree, ghost y: Ptr,
                  ghost cy: bool, ghost c: Tree, ghost k: Ctx, ghost r: Ranks)
      requires At(mem, root, node, Join(left, a, node, cx, Join(left, b, y, cy, c)), k, r)
      modifies this
      ensures At(mem, root, y, Join(left, Join(left, a, node, cx, b), y, cy, c), k, r)
      ensures SameBut(old(mem), mem, r.of.Keys)
    {
      ghost var lo, hi := Lo(k, r), Hi(k, r);
      RotationParts(mem, left, a, node, cx, b, y, cy, c, Above(k), r.of, lo, hi);
      var child := Child(mem[node], !left);
      var parent := mem[node].parent;
      ghost var inner := Child(mem[child], left);
      Turn(left, node, child, parent);
      ghost var m1 := mem;
      Rotated(old(mem), m1, left, a, node, cx, b, y, cy, c, inner, parent, r.of, lo, hi);
      CtxLinkedSame(old(mem), m1, {node, child, inner}, k, node, root, r);
      ReplaceChild(left, node, child, parent, k, r);
      LinkedSame(m1, mem, {parent}, child, parent, Join(left, Join(left, a, node, cx, b), y, cy, c), r.of, lo, hi);
    }

    constructor ()
      ensures root == NULL && mem == map[]
    {
      root, mem := NULL, map[];
    }

    // ---------- insertion ----------

    /** rb_link_node: hangs a red leaf into the empty hole that the link of `parent` on the side `left` points at. */
    method LinkNode(node: Ptr, parent: Ptr, left: bool, ghost k: Ctx, ghost r: Ranks)
      requires At(mem, root, NULL, Leaf, k, r) && parent == Above(k) && (k.Frame? ==> k.left == left)
      requires node in mem && Within(node, r.of, Lo(k, r), Hi(k, r))
      modifies this
      ensures At(mem, root, node, Fork(Leaf, node, true, Leaf), k, r)
      ensures SameBut(old(mem), mem, {node, parent}) && (parent == NULL || parent in r.of)
    {
      mem := mem[node := Cell(parent, true, NULL, NULL)];
      CtxLinkedSame(old(mem), mem, {node}, k, NULL, root, r);
      ghost var m1 := mem;
      if parent != NULL {
        mem := mem[parent := WithChild(mem[parent], left, node)];
        if left {
          LinkedSame(m1, mem, {parent}, mem[k.p].right, k.p, k.sib, r.of, r.of[k.p], Hi(k.up, r));
        } else {
          LinkedSame(m1, mem, {parent}, mem[k.p].left, k.p, k.sib, r.of, Lo(k.up, r), r.of[k.p]);
        }
        CtxLinkedSame(m1, mem, {parent}, k.up, k.p, root, r);
      } else {
        root := node;
      }
    }

    /** `parent` turns black and its parent red; the cursor moves from one to the other. */
    method PaintFamily(parent: Ptr, gparent: Ptr, ghost t: Tree, ghost k: Ctx, ghost r: Ranks)
      requires t.Fork? && k.Frame? && gparent == k.p && At(mem, root, parent, t, k, r)
      modifies this`mem
      ensures At(mem, root, gparent, Join(k.left, t.(red := false), gparent, true, k.sib), k.up, r)
      ensures SameBut(old(mem), mem, r.of.Keys)
    {
      SetColor(parent, false, t, k, r);
      Climb(mem, root, parent, t.(red := false), k, r);
      SetColor(gparent, true, Join(k.left, t.(red := false), gparent, k.red, k.sib), k.up, r);
    }

    /** The uncle is red: blackness moves down from the grandparent to both its children. */
    method PushBlack(left: bool, node: Ptr, parent: Ptr, gparent: Ptr, uncle: Ptr,
                     ghost t: Tree, ghost k: Ctx, ghost r: Ranks)
      requires k.Frame? && k.up.Frame? && parent == k.p && gparent == k.up.p && left == k.up.left
      requires At(mem, root, node, t, k, r) && gparent in mem && uncle == Child(mem[gparent], !left) != NULL
      modifies this`mem
      ensures k.up.sib.Fork?
      ensures At(mem, root, gparent, Join(left, Join(k.left, t, parent, false, k.sib), gparent, true,
                                          k.up.sib.(red := false)), k.up.up, r)
      ensures SameBut(old(mem), mem, r.of.Keys)
    {
      ghost var below, kg := Join(k.left, t, parent, k.red, k.sib), k.up;
      Climb(mem, root, node, t, k, r);
      OtherSide(mem, root, parent, below, kg, r);
      SetColor(uncle, false, kg.sib, Frame(!left, gparent, kg.red, below, kg.up), r);
      OtherSide(mem, root, uncle, kg.sib.(red := false), Frame(!left, gparent, kg.red, below, kg.up), r);
      PaintFamily(parent, gparent, below, kg.(sib := kg.sib.(red := false)), r);
    }

    /** The uncle is black: one or two rotations put a black node above `node` and the grandparent. */
    method RotateUp(left: bool, node0: Ptr, parent0: Ptr, gparent: Ptr, ghost t0: Tree, ghost k: Ctx, ghost r: Ranks)
      returns (node: Ptr, ghost t: Tree, ghost k': Ctx)
      requires k.Frame? && k.up.Frame? && parent0 == k.p && gparent == k.up.p && left == k.up.left
      requires At(mem, root, node0, t0, k, r) && RedFocus(t0, k) && k.red && !IsRed(k.up.sib)
      modifies this
      ensures At(mem, root, node, t, k', r) && RedFocus(t, k') && Depth(k') < Depth(k)
      ensures Inorder(Plug(k', t)) == Inorder(Plug(k, t0))
      ensures SameBut(old(mem), mem, r.of.Keys)
    {
      node := node0;
      var parent := parent0;
      ghost var kg, sib, h := k.up, k.sib, BlackHeight(t0);
      t := t0;
      WhichSide(mem, root, node, t, k, r, !left);
      Climb(mem, root, node, t, k, r);
      if Child(mem[parent], !left) == node {
        ghost var b, c := if left then t0.l else t0.r, if left then t0.r else t0.l;
        Rotate(left, parent, k.sib, true, b, node, true, c, kg, r);
        RotatedInorder(left, k.sib, parent, true, b, node, true, c);
        node, parent := parent, node;
        t, sib := Join(left, k.sib, node, true, b), c;
      }
      ghost var below := Join(left, t, parent, true, sib);
      PlugSameInorder(kg, below, Join(k.left, t0, k.p, true, k.sib));
      PaintFamily(parent, gparent, below, kg, r);
      Rotate(!left, gparent, kg.sib, true, sib, parent, false, t, kg.up, r);
      RotatedInorder(!left, kg.sib, gparent, true, sib, parent, false, t);
      ghost var inner := Join(!left, kg.sib, gparent, true, sib);
      Descend(mem, root, parent, left, t, false, inner, kg.up, r);
      k' := Frame(left, parent, false, inner, kg.up);
      PlugSameInorder(kg.up, Join(left, t, parent, false, inner), Join(left, below, gparent, kg.red, kg.sib));
      RotatedUp(left, t, parent, sib, kg, h);
      assert Child(mem[parent], left) == node;
    }

    /** The end of an insertion: the root turns black. */
    method PaintRoot(ghost node: Ptr, ghost t: Tree, ghost k: Ctx, ghost r: Ranks) returns (ghost t': Tree)
      requires At(mem, root, node, t, k, r) && RedFocus(t, k) && !CtxRed(k)
      modifies this`mem
      ensures At(mem, root, root, t', Top, r) && RedBlack(t') && Inorder(t') == Inorder(Plug(k, t))
      ensures SameBut(old(mem), mem, r.of.Keys)
    {
      PlugAt(mem, root, node, t, k, r);
      PlugFork(k, t);
      ghost var whole := Plug(k, t);
      if k.Frame? {
        PlugRedBlack(k, t, BlackHeight(t));
      }
      SetColor(root, false, whole, Top, r);
      t' := whole.(red := false);
    }

    /** Restores the tree after the red leaf `node0` was linked into it. */
    method InsertColor(node0: Ptr, ghost k0: Ctx, ghost r: Ranks) returns (ghost t': Tree)
      requires At(mem, root, node0, Fork(Leaf, node0, true, Leaf), k0, r) && RedBlack(Plug(k0, Leaf))
      modifies this
      ensures At(mem, root, root, t', Top, r) && RedBlack(t')
      ensures Inorder(t') == Inorder(Plug(k0, Fork(Leaf, node0, true, Leaf)))
      ensures SameBut(old(mem), mem, r.of.Keys)
    {
      var node := node0;
      ghost var t, k := Fork(Leaf, node0, true, Leaf), k0;
      UnplugRedBlack(k0, Leaf);
      Family(mem, root, node, t, k, r);
      while mem[node].parent != NULL && mem[mem[node].parent].red
        invariant At(mem, root, node, t, k, r) && RedFocus(t, k)
        invariant node in mem && (mem[node].parent != NULL ==> mem[node].parent in mem)
        invariant CtxRed(k) <==> mem[node].parent != NULL && mem[mem[node].parent].red
        invariant Inorder(Plug(k, t)) == Inorder(Plug(k0, Fork(Leaf, node0, true, Leaf)))
        invariant SameBut(old(mem), mem, r.of.Keys)
        decreases Depth(k)
      {
        Family(mem, root, node, t, k, r);
        var parent := mem[node].parent;
        var gparent := mem[parent].parent;
        var left := parent == mem[gparent].left;
        var uncle := Child(mem[gparent], !left);
        if uncle != NULL && mem[uncle].red {
          PushBlack(left, node, parent, gparent, uncle, t, k, r);
          PushedBlack(t, k);
          t := Join(left, Join(k.left, t, parent, false, k.sib), gparent, true, k.up.sib.(red := false));
          node, k := gparent, k.up.up;
        } else {
          node, t, k := RotateUp(left, node, parent, gparent, t, k, r);
        }
        Family(mem, root, node, t, k, r);
      }
      t' := PaintRoot(node, t, k, r);
    }

    // ---------- erasing ----------

    /** A red sibling rises above the parent, so that the next sibling is black. */
    method RaiseRedSibling(left: bool, node: Ptr, parent: Ptr, other: Ptr, ghost t: Tree, ghost k: Ctx, ghost r: Ranks)
      returns (ghost k': Ctx)
      requires At(mem, root, node, t, k, r) && k.Frame? && k.left == left && k.p == parent && parent in mem
      requires IsRed(k.sib) && other == Child(mem[parent], !left) && ShortFocus(t, k)
      modifies this
      ensures At(mem, root, node, t, k', r) && ShortFocus(t, k') && k'.Frame?
      ensures k'.left == left && k'.p == parent && k'.red && k'.up.Frame? && !IsRed(k'.sib)
      ensures Inorder(Plug(k', t)) == Inorder(Plug(k, t))
      ensures SameBut(old(mem), mem, r.of.Keys)
    {
      ghost var near, far := Near(k.sib, left), Near(k.sib, !left);
      SiblingExists(t, k);
      OtherSide(mem, root, node, t, k, r);
      ghost var ko := Frame(!left, parent, k.red, t, k.up);
      SetColor(other, false, k.sib, ko, r);
      Climb(mem, root, other, k.sib.(red := false), ko, r);
      SetColor(parent, true, Join(left, t, parent, k.red, Join(left, near, other, false, far)), k.up, r);
      Rotate(left, parent, t, true, near, other, false, far, k.up, r);
      RotatedInorder(left, t, parent, true, near, other, false, far);
      PlugSameInorder(k.up, Join(left, Join(left, t, parent, true, near), other, false, far),
                      Join(left, t, parent, k.red, k.sib));
      Descend(mem, root, other, left, Join(left, t, parent, true, near), false, far, k.up, r);
      ghost var ku := Frame(left, other, false, far, k.up);
      Descend(mem, root, parent, left, t, true, near, ku, r);
      k' := Frame(left, parent, true, near, ku);
    }

    /** The sibling of the cursor, made black if it was not. */
    method BlackSibling(left: bool, node: Ptr, parent: Ptr, ghost t: Tree, ghost k: Ctx, ghost r: Ranks)
      returns (other: Ptr, ghost k': Ctx)
      requires At(mem, root, node, t, k, r) && k.Frame? && k.left == left && k.p == parent && parent in mem
      requires ShortFocus(t, k)
      modifies this
      ensures At(mem, root, node, t, k', r) && ShortFocus(t, k') && k'.Frame? && k'.sib.Fork? && !k'.sib.red
      ensures k'.left == left && k'.p == parent && (k' == k || k'.red)
      ensures parent in mem && other in mem && other == Child(mem[parent], !left) && other == k'.sib.p
      ensures Inorder(Plug(k', t)) == Inorder(Plug(k, t))
      ensures SameBut(old(mem), mem, r.of.Keys)
    {
      k' := k;
      Siblings(mem, root, node, t, k, r);
      other := Child(mem[parent], !left);
      if mem[other].red {
        k' := RaiseRedSibling(left, node, parent, other, t, k, r);
        Siblings(mem, root, node, t, k', r);
        other := Child(mem[parent], !left);
      }
    }

    /** Both nephews are black: painting the sibling red moves the shortage up to the parent. */
    method PaintSibling(left: bool, node: Ptr, parent: Ptr, other: Ptr, ghost t: Tree, ghost k: Ctx, ghost r: Ranks)
      returns (ghost t': Tree)
      requires At(mem, root, node, t, k, r) && k.Frame? && k.left == left && k.p == parent && parent in mem
      requires other == Child(mem[parent], !left) && ShortFocus(t, k) && !IsRed(t) && k.sib.Fork?
      requires !k.sib.red && !IsRed(k.sib.l) && !IsRed(k.sib.r)
      modifies this`mem
      ensures At(mem, root, parent, t', k.up, r) && ShortFocus(t', k.up)
      ensures t'.Fork? && t'.red == k.red && Inorder(Plug(k.up, t')) == Inorder(Plug(k, t))
      ensures SameBut(old(mem), mem, r.of.Keys)
    {
      OtherSide(mem, root, node, t, k, r);
      ghost var ko := Frame(!left, parent, k.red, t, k.up);
      SetColor(other, true, k.sib, ko, r);
      Climb(mem, root, other, k.sib.(red := true), ko, r);
      t' := Join(left, t, parent, k.red, k.sib.(red := true));
      BlackHeightUnique(t', if k.red then BlackHeight(t) else BlackHeight(t) + 1);
      PlugSameInorder(k.up, t', Join(left, t, parent, k.red, k.sib));
    }

    /** Only the near nephew is red: it rises above the sibling and becomes the new, black sibling. */
    method RaiseNearNephew(left: bool, node: Ptr, parent: Ptr, other: Ptr, ghost t: Tree, ghost k: Ctx, ghost r: Ranks)
      returns (ghost k': Ctx)
      requires At(mem, root, node, t, k, r) && k.Frame? && k.left == left && k.p == parent && parent in mem
      requires other == Child(mem[parent], !left) && ShortFocus(t, k) && k.sib.Fork? && other in mem
      requires !k.sib.red && IsRed(Near(k.sib, left)) && !IsRed(Near(k.sib, !left))
      modifies this
      ensures At(mem, root, node, t, k', r) && ShortFocus(t, k')
      ensures k'.Frame? && k'.(sib := k.sib) == k && k'.sib.Fork? && !k'.sib.red && IsRed(Near(k'.sib, !left))
      ensures Inorder(Plug(k', t)) == Inorder(Plug(k, t))
      ensures SameBut(old(mem), mem, r.of.Keys)
    {
      ghost var near, far := Near(k.sib, left), Near(k.sib, !left);
      OtherSide(mem, root, node, t, k, r);
      ghost var ko := Frame(!left, parent, k.red, t, k.up);
      Descend(mem, root, other, left, near, false, far, ko, r);
      var nephew := Child(mem[other], left);
      SetColor(nephew, false, near, Frame(left, other, false, far, ko), r);
      Climb(mem, root, nephew, near.(red := false), Frame(left, other, false, far, ko), r);
      SetColor(other, true, Join(left, near.(red := false), other, false, far), ko, r);
      Rotate(!left, other, far, true, Near(near, !left), near.p, false, Near(near, left), ko, r);
      ghost var sib' := Join(left, Near(near, left), near.p, false, Join(left, Near(near, !left), other, true, far));
      OtherSide(mem, root, near.p, sib', ko, r);
      k' := k.(sib := sib');
      NephewRaised(left, t, k);
    }

    /** The far nephew is red: one rotation makes up for the missing black node, and the tree is done. */
    method RaiseSibling(left: bool, node: Ptr, parent: Ptr, other: Ptr, ghost t: Tree, ghost k: Ctx, ghost r: Ranks)
      returns (ghost t': Tree)
      requires At(mem, root, node, t, k, r) && k.Frame? && k.left == left && k.p == parent && parent in mem
      requires other == Child(mem[parent], !left) && ShortFocus(t, k) && !IsRed(t) && k.sib.Fork? && other in mem
      requires !k.sib.red && IsRed(Near(k.sib, !left))
      modifies this
      ensures At(mem, root, root, t', Top, r) && RedBlack(t') && Inorder(t') == Inorder(Plug(k, t))
      ensures SameBut(old(mem), mem, r.of.Keys)
    {
      ghost var near, far := Near(k.sib, left), Near(k.sib, !left);
      OtherSide(mem, root, node, t, k, r);
      ghost var ko := Frame(!left, parent, k.red, t, k.up);
      var red := mem[parent].red;
      SetColor(other, red, k.sib, ko, r);
      Climb(mem, root, other, k.sib.(red := red), ko, r);
      SetColor(parent, false, Join(left, t, parent, red, k.sib.(red := red)), k.up, r);
      Descend(mem, root, parent, !left, k.sib.(red := red), false, t, k.up, r);
      ghost var kp := Frame(!left, parent, false, t, k.up);
      Descend(mem, root, other, !left, far, red, near, kp, r);
      var nephew := Child(mem[other], !left);
      SetColor(nephew, false, far, Frame(!left, other, red, near, kp), r);
      Climb(mem, root, nephew, far.(red := false), Frame(!left, other, red, near, kp), r);
      ghost var sib' := Join(left, near, other, red, far.(red := false));
      Climb(mem, root, other, sib', kp, r);
      Rotate(left, parent, t, false, near, other, red, far.(red := false), k.up, r);
      ghost var top := Join(left, Join(left, t, parent, false, near), other, red, far.(red := false));
      PlugAt(mem, root, other, top, k.up, r);
      SiblingRaised(left, t, k);
      t' := Plug(k.up, top);
    }

    /** A nephew is red: at most two rotations finish the tree. */
    method Settle(left: bool, node: Ptr, parent: Ptr, other0: Ptr, ghost t: Tree, ghost k0: Ctx, ghost r: Ranks)
      returns (ghost t': Tree)
      requires At(mem, root, node, t, k0, r) && k0.Frame? && k0.left == left && k0.p == parent && parent in mem
      requires other0 == Child(mem[parent], !left) && ShortFocus(t, k0) && !IsRed(t) && k0.sib.Fork? && other0 in mem
      requires !k0.sib.red && (IsRed(k0.sib.l) || IsRed(k0.sib.r))
      modifies this
      ensures At(mem, root, root, t', Top, r) && RedBlack(t') && Inorder(t') == Inorder(Plug(k0, t))
      ensures SameBut(old(mem), mem, r.of.Keys)
    {
      var other := other0;
      ghost var k := k0;
      Siblings(mem, root, node, t, k, r);
      Nephews(mem, root, node, t, k, r);
      var far := Child(mem[other], !left);
      if far == NULL || !mem[far].red {
        k := RaiseNearNephew(left, node, parent, other, t, k, r);
        Siblings(mem, root, node, t, k, r);
        other := Child(mem[parent], !left);
      }
      t' := RaiseSibling(left, node, parent, other, t, k, r);
    }

    /** The end of an erasure: a red cursor turns black. */
    method PaintLast(node: Ptr, ghost t: Tree, ghost k: Ctx, ghost r: Ranks) returns (ghost t': Tree)
      requires At(mem, root, node, t, k, r) && (node == NULL <==> t.Leaf?)
      requires (ShortFocus(t, k) && (IsRed(t) || k.Top?)) || (k.Top? && RedBlack(t))
      modifies this`mem
      ensures At(mem, root, root, t', Top, r) && RedBlack(t') && Inorder(t') == Inorder(Plug(k, t))
      ensures SameBut(old(mem), mem, r.of.Keys)
    {
      ghost var black := Blacken(t);
      if node != NULL {
        SetColor(node, false, t, k, r);
      }
      PlugAt(mem, root, node, black, k, r);
      PlugSameInorder(k, black, t);
      if ShortFocus(t, k) && IsRed(t) {
        PlugRedBlack(k, black, BlackHeight(t) + 1);
      }
      t' := Plug(k, black);
    }

    /** Makes up for the black node that was taken out above `node0`, at the hole of `k0`. */
    method EraseColor(node0: Ptr, parent0: Ptr, ghost t0: Tree, ghost k0: Ctx, ghost r: Ranks) returns (ghost t': Tree)
      requires At(mem, root, node0, t0, k0, r) && parent0 == Above(k0) && ShortFocus(t0, k0)
      modifies this
      ensures At(mem, root, root, t', Top, r) && RedBlack(t') && Inorder(t') == Inorder(Plug(k0, t0))
      ensures SameBut(old(mem), mem, r.of.Keys)
    {
      var node, parent := node0, parent0;
      ghost var t, k := t0, k0;
      Siblings(mem, root, node, t, k, r);
      while (node == NULL || !mem[node].red) && node != root
        invariant At(mem, root, node, t, k, r) && parent == Above(k)
        invariant ShortFocus(t, k) || (k.Top? && RedBlack(t))
        invariant (node == NULL <==> t.Leaf?) && (node != NULL ==> node in mem && mem[node].red == t.red)
        invariant node == root <==> k.Top?
        invariant Inorder(Plug(k, t)) == Inorder(Plug(k0, t0))
        invariant SameBut(old(mem), mem, r.of.Keys)
        decreases if IsRed(t) then 0 else Depth(k) + 1
      {
        Siblings(mem, root, node, t, k, r);
        var left := mem[parent].left == node;
        var other;
        other, k := BlackSibling(left, node, parent, t, k, r);
        Nephews(mem, root, node, t, k, r);
        if (mem[other].left == NULL || !mem[mem[other].left].red) && (mem[other].right == NULL || !mem[mem[other].right].red) {
          t := PaintSibling(left, node, parent, other, t, k, r);
          k := k.up;
          node := parent;
          Siblings(mem, root, node, t, k, r);
          parent := mem[node].parent;
        } else {
          t := Settle(left, node, parent, other, t, k, r);
          node, k, parent := root, Top, NULL;
          break;
        }
      }
      t' := PaintLast(node, t, k, r);
    }

    /** A node with no more than one child gives way to that child, the cursor's new place. */
    method Splice(node: Ptr, child: Ptr, parent: Ptr, ghost t: Tree, ghost t': Tree, ghost k: Ctx, ghost r: Ranks)
      requires t.Fork? && At(mem, root, node, t, k, r) && parent == mem[node].parent
      requires (t.l.Leaf? && t' == t.r && child == mem[node].right) || (t.r.Leaf? && t' == t.l && child == mem[node].left)
      modifies this
      ensures At(mem, root, child, t', k, r)
      ensures SameBut(old(mem), mem, {child, parent})
      ensures (child == NULL || Within(child, r.of, Lo(k, r), Hi(k, r))) && (parent == NULL || parent in r.of)
    {
      ghost var lo, hi := Lo(k, r), Hi(k, r);
      OrderedWiden(t', r.of, if t' == t.l then lo else r.of[node], if t' == t.l then r.of[node] else hi, lo, hi);
      assert Linked(mem, child, node, t');
      if child != NULL {
        mem := mem[child := mem[child].(parent := parent)];
        RootChanged(old(mem), mem, {child}, child, node, parent, t', t'.red, r.of, lo, hi);
      }
      CtxLinkedSame(old(mem), mem, {child}, k, node, root, r);
      ghost var m1 := mem;
      ReplaceChild(true, node, child, parent, k, r);
      LinkedSame(m1, mem, {parent}, child, parent, t', r.of, lo, hi);
    }

    /** The leftmost node of the tree at `top`. */
    method Leftmost(top: Ptr, ghost t: Tree, ghost k: Ctx, ghost r: Ranks) returns (node: Ptr, ghost tn: Tree, ghost ks: Ctx)
      requires t.Fork? && At(mem, root, top, t, k, r)
      ensures tn.Fork? && tn.l.Leaf? && At(mem, root, node, tn, Append(ks, k), r)
      ensures t == Plug(ks, tn) && DropMin(t) == Plug(ks, tn.r) && Min(t) == node
      ensures ks.Frame? ==> ks.left && ks.p in r.of && Lo(k, r) < r.of[ks.p]
    {
      node, tn, ks := top, t, Top;
      while mem[node].left != NULL
        invariant tn.Fork? && At(mem, root, node, tn, Append(ks, k), r)
        invariant t == Plug(ks, tn) && DropMin(t) == Plug(ks, DropMin(tn)) && Min(t) == Min(tn)
        invariant ks.Frame? ==> ks.left && ks.p in r.of && Lo(k, r) < r.of[ks.p]
        invariant Lo(Append(ks, k), r) == Lo(k, r)
        decreases tn
      {
        Descend(mem, root, node, true, tn.l, tn.red, tn.r, Append(ks, k), r);
        node, tn, ks := mem[node].left, tn.l, Frame(true, node, tn.red, tn.r, ks);
      }
      assert Linked(mem, mem[node].left, node, tn.l);
    }

    /** `node`, no longer in the tree, takes over the right subtree of `old'`. */
    method AdoptRight(old': Ptr, node: Ptr, ghost t: Tree, ghost k: Ctx, ghost r: Ranks)
      requires t.Fork? && t.r.Fork? && At(mem, root, old', t, k, r)
      requires node in mem && node in r.of && node != NULL && r.of[old'] < r.of[node] < Hi(k, r)
      requires Ordered(t.r, r.of, r.of[node], Hi(k, r))
      modifies this`mem
      ensures Supplanting(mem, root, old', node, t.l, t.r, k, r)
      ensures SameBut(old(mem), mem, {node, old(mem)[old'].right}) && old(mem)[old'].right in r.of
      ensures mem[node] == old(mem)[node].(right := old(mem)[old'].right)
    {
      var right := mem[old'].right;
      ghost var lo, hi, s := Lo(k, r), Hi(k, r), {node, right};
      assert Linked(mem, right, old', t.r);
      mem := mem[node := mem[node].(right := right)];
      mem := mem[right := mem[right].(parent := node)];
      RootChanged(old(mem), mem, s, right, old', node, t.r, t.r.red, r.of, r.of[node], hi);
      LinkedSame(old(mem), mem, s, mem[old'].left, old', t.l, r.of, lo, r.of[old']);
      CtxLinkedSame(old(mem), mem, s, k, old', root, r);
    }

    /** The successor of `old'`, deeper in the right subtree, gives way to its right child. */
    method GiveWay(old': Ptr, node: Ptr, child: Ptr, parent: Ptr, ghost t: Tree, ghost tn: Tree, ghost ks: Ctx,
                   ghost k: Ctx, ghost r: Ranks)
      requires t.Fork? && t.r.Fork? && tn.Fork? && tn.l.Leaf? && ks.Frame? && ks.left
      requires ks.p in r.of && old' in r.of && r.of[old'] < r.of[ks.p]
      requires At(mem, root, node, tn, Append(ks, Frame(false, old', t.red, t.l, k)), r) && At(mem, root, old', t, k, r)
      requires child == mem[node].right && parent == mem[node].parent
      requires DropMin(t.r) == Plug(ks, tn.r) && Min(t.r) == node
      modifies this
      ensures Supplanting(mem, root, old', node, t.l, DropMin(t.r), k, r)
      ensures SameBut(old(mem), mem, r.of.Keys) && mem[old'].red == t.red
    {
      ghost var base, rest := Frame(false, old', t.red, t.l, k), DropMin(t.r);
      MinFirst(t.r, r.of, r.of[old'], Hi(k, r));
      Splice(node, child, parent, tn, tn.r, Append(ks, base), r);
      PlugFork(ks, tn.r);
      ClimbPlug(mem, root, child, ks, tn.r, base, r);
      Climb(mem, root, mem[old'].right, rest, base, r);
      AdoptRight(old', node, t.(r := rest), k, r);
    }

    /** Two children: the successor of `old'` takes its place, and leaves its own to its right child. */
    method Supplant(old': Ptr, ghost t: Tree, ghost k: Ctx, ghost r: Ranks)
      returns (child: Ptr, parent: Ptr, red: bool, ghost tn: Tree, ghost ks: Ctx)
      requires t.Fork? && t.l.Fork? && t.r.Fork? && At(mem, root, old', t, k, r)
      modifies this
      ensures tn.Fork? && tn.l.Leaf? && red == tn.red && t.r == Plug(ks, tn) && DropMin(t.r) == Plug(ks, tn.r)
      ensures var kn := Append(ks, Frame(false, Min(t.r), t.red, t.l, k));
              parent == Above(kn) && At(mem, root, child, tn.r, kn, r)
      ensures SameBut(old(mem), mem, r.of.Keys)
    {
      var node;
      ghost var base := Frame(false, old', t.red, t.l, k);
      Descend(mem, root, old', false, t.r, t.red, t.l, k, r);
      node, tn, ks := Leftmost(mem[old'].right, t.r, base, r);
      child, parent, red := mem[node].right, mem[node].parent, mem[node].red;
      MinFirst(t.r, r.of, r.of[old'], Hi(k, r));
      assert Linked(mem, child, node, tn.r);
      if parent == old' {
        parent := node;
      } else {
        GiveWay(old', node, child, parent, t, tn, ks, k, r);
      }
      TakePlace(old', node, t.l, DropMin(t.r), t.red, k, r);
      Descend(mem, root, node, false, DropMin(t.r), t.red, t.l, k, r);
      DescendPlug(mem, root, mem[node].right, ks, tn.r, base.(p := node), r);
    }

    /** `node` takes over the left subtree, the colour and the parent of `old'`. */
    method TakePlace(old': Ptr, node: Ptr, ghost l: Tree, ghost rest: Tree, ghost red: bool, ghost k: Ctx, ghost r: Ranks)
      requires Supplanting(mem, root, old', node, l, rest, k, r) && mem[old'].red == red && l.Fork?
      modifies this
      ensures At(mem, root, node, Fork(l, node, red, rest), k, r)
      ensures SameBut(old(mem), mem, r.of.Keys)
    {
      var left := mem[old'].left;
      ghost var lo, hi, s := Lo(k, r), Hi(k, r), {node, left};
      mem := mem[node := mem[node].(parent := mem[old'].parent, red := mem[old'].red)];
      mem := mem[node := mem[node].(left := left)];
      mem := mem[left := mem[left].(parent := node)];
      RootChanged(old(mem), mem, s, left, old', node, l, l.red, r.of, lo, r.of[old']);
      OrderedWiden(l, r.of, lo, r.of[old'], lo, r.of[node]);
      LinkedSame(old(mem), mem, s, mem[node].right, node, rest, r.of, r.of[node], hi);
      CtxLinkedSame(old(mem), mem, s, k, old', root, r);
      ghost var m1 := mem;
      ReplaceChild(true, old', node, mem[old'].parent, k, r);
      LinkedSame(m1, mem, {Above(k)}, node, Above(k), Fork(l, node, red, rest), r.of, lo, hi);
    }

    /** Takes the node at position `i` of the in-order walk out of the tree. */
    method Erase(node0: Ptr, ghost t: Tree, ghost i: nat, ghost r: Ranks) returns (ghost t': Tree)
      requires Holds(mem, root, t, r) && RedBlack(t) && i < |Inorder(t)| && node0 == Inorder(t)[i]
      modifies this
      ensures Holds(mem, root, t', r) && RedBlack(t')
      ensures Inorder(t') == Inorder(t)[..i] + Inorder(t)[i + 1..]
      ensures SameBut(old(mem), mem, r.of.Keys)
    {
      var child, parent, red;
      ghost var k, tn := Focus(mem, root, t, i, r);
      ghost var kg, gone, left;
      UnplugRedBlack(k, tn);
      Children(mem, root, node0, tn, k, r);
      if mem[node0].left == NULL || mem[node0].right == NULL {
        child := if mem[node0].left == NULL then mem[node0].right else mem[node0].left;
        parent, red := mem[node0].parent, mem[node0].red;
        kg, gone, left := k, tn, if mem[node0].left == NULL then tn.r else tn.l;
        Splice(node0, child, parent, tn, left, k, r);
        WithoutNode(k, tn, t, left, i);
      } else {
        ghost var ks;
        child, parent, red, gone, ks := Supplant(node0, tn, k, r);
        SupplantedColours(k, tn, ks, gone);
        SupplantedInorder(k, tn, ks, gone, r.of, r.of[node0], Hi(k, r));
        WithoutNode(k, tn, t, Fork(tn.l, Min(tn.r), tn.red, DropMin(tn.r)), i);
        kg, left := Append(ks, Frame(false, Min(tn.r), tn.red, tn.l, k)), gone.r;
      }
      TakenOut(gone, left, kg);
      if !red {
        t' := EraseColor(child, parent, left, kg, r);
      } else {
        PlugAt(mem, root, child, left, kg, r);
        t' := Plug(kg, left);
      }
    }

    // ---------- walking ----------

    /** The loops that go down one side as far as they can. */
    method Outermost(left: bool, top: Ptr, ghost t: Tree, ghost k: Ctx, ghost r: Ranks) returns (node: Ptr)
      requires t.Fork? && At(mem, root, top, t, k, r)
      ensures node == Outer(t, left)
    {
      node := top;
      ghost var tn, kn := t, k;
      Children(mem, root, node, tn, kn, r);
      while Child(mem[node], left) != NULL
        invariant tn.Fork? && At(mem, root, node, tn, kn, r) && Outer(tn, left) == Outer(t, left)
        invariant node in mem && (Child(mem[node], left) == NULL <==> Near(tn, left).Leaf?)
        decreases tn
      {
        Descend(mem, root, node, left, Near(tn, left), tn.red, Near(tn, !left), kn, r);
        node, tn, kn := Child(mem[node], left), Near(tn, left), Frame(left, node, tn.red, Near(tn, !left), kn);
        Children(mem, root, node, tn, kn, r);
      }
    }

    /** rb_first and rb_last. */
    method End(left: bool, ghost t: Tree, ghost r: Ranks) returns (node: Ptr)
      requires Holds(mem, root, t, r)
      ensures node == Nearest(Inorder(t), left)
    {
      node := root;
      if node == NULL {
        return;
      }
      OuterEnds(t, left);
      node := Outermost(left, node, t, Top, r);
    }

    /** rb_next and rb_prev, from the node at position `i` of the in-order walk. */
    method Neighbour(after: bool, node0: Ptr, ghost t: Tree, ghost i: nat, ghost r: Ranks) returns (p: Ptr)
      requires Holds(mem, root, t, r) && i < |Inorder(t)| && node0 == Inorder(t)[i]
      ensures after ==> p == if i + 1 < |Inorder(t)| then Inorder(t)[i + 1] else NULL
      ensures !after ==> p == if i > 0 then Inorder(t)[i - 1] else NULL
    {
      ghost var k, tn := Focus(mem, root, t, i, r);
      assert Nearest(Beyond(tn, k, after), after) ==
             if after then if i + 1 < |Inorder(t)| then Inorder(t)[i + 1] else NULL
             else if i > 0 then Inorder(t)[i - 1] else NULL;
      p := Nearby(after, node0, tn, k, r);
    }

    method Nearby(after: bool, node0: Ptr, ghost t: Tree, ghost k: Ctx, ghost r: Ranks) returns (p: Ptr)
      requires t.Fork? && At(mem, root, node0, t, k, r)
      ensures p == Nearest(Beyond(t, k, after), after)
    {
      Children(mem, root, node0, t, k, r);
      if mem[node0].parent == node0 {
        return NULL;
      }
      if Child(mem[node0], !after) != NULL {
        Descend(mem, root, node0, !after, Near(t, !after), t.red, Near(t, after), k, r);
        OuterEnds(Near(t, !after), after);
        p := Outermost(after, Child(mem[node0], !after), Near(t, !after), Frame(!after, node0, t.red, Near(t, after), k), r);
        return;
      }
      var node := node0;
      p := mem[node].parent;
      ghost var tn, kn := t, k;
      while p != NULL && node == Child(mem[p], !after)
        invariant tn.Fork? && At(mem, root, node, tn, kn, r) && p == Above(kn) && (p != NULL ==> p in mem)
        invariant (if after then After(kn) else Before(kn)) == Beyond(t, k, after)
        decreases Depth(kn)
      {
        WhichSide(mem, root, node, tn, kn, r, !after);
        Climb(mem, root, node, tn, kn, r);
        node := p;
        tn, kn := Join(kn.left, tn, kn.p, kn.red, kn.sib), kn.up;
        Children(mem, root, node, tn, kn, r);
        p := mem[node].parent;
      }
      if p != NULL {
        WhichSide(mem, root, node, tn, kn, r, !after);
      }
    }
  }
}
