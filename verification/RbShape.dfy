/**
 The memory that holds the nodes of a red-black tree, and the inductive trees that say what it holds.

 Pointers are indices into a memory of cells, `NULL` apart; a cell is `struct rb_node`, its packed
 parent-and-colour word kept as two fields.  A `Tree` is the shape hanging below a pointer and a
 `Ctx` is a tree with one hole in it, read from the hole upwards: a loop that climbs through parent
 pointers keeps a `Tree` for what is below its cursor and a `Ctx` for the rest.

 The library never looks at keys.  Its proofs use any ranking of the nodes that grows along the
 in-order walk; the ranks tell nodes apart.
 */
module RbShape {

  type Ptr = nat
  const NULL: Ptr := 0

  datatype Cell = Cell(parent: Ptr, red: bool, left: Ptr, right: Ptr)

  type Memory = map<Ptr, Cell>

  datatype Tree = Leaf | Fork(l: Tree, p: Ptr, red: bool, r: Tree)

  /** `Frame(true, p, ...)` is a node `p` whose left child is the hole. */
  datatype Ctx = Top | Frame(left: bool, p: Ptr, red: bool, sib: Tree, up: Ctx)

  /** A rank for each node, strictly between `lo` and `hi`. */
  datatype Ranks = Ranks(of: map<Ptr, int>, lo: int, hi: int)

  // ---------- shape ----------

  function Join(left: bool, t: Tree, p: Ptr, red: bool, sib: Tree): Tree {
    if left then Fork(t, p, red, sib) else Fork(sib, p, red, t)
  }

  function Plug(k: Ctx, t: Tree): Tree
    decreases k
  {
    match k
    case Top => t
    case Frame(left, p, red, sib, up) => Plug(up, Join(left, t, p, red, sib))
  }

  function Inorder(t: Tree): seq<Ptr> {
    match t
    case Leaf => []
    case Fork(l, p, _, r) => Inorder(l) + [p] + Inorder(r)
  }

  /** What an in-order walk meets before and after the hole. */
  function Before(k: Ctx): seq<Ptr> {
    match k
    case Top => []
    case Frame(left, p, _, sib, up) => if left then Before(up) else Before(up) + (Inorder(sib) + [p])
  }

  function After(k: Ctx): seq<Ptr> {
    match k
    case Top => []
    case Frame(left, p, _, sib, up) => if left then ([p] + Inorder(sib)) + After(up) else After(up)
  }

  // ---------- order ----------

  predicate Ordered(t: Tree, rank: map<Ptr, int>, lo: int, hi: int) {
    match t
    case Leaf => true
    case Fork(l, p, _, r) =>
      p in rank && lo < rank[p] < hi && Ordered(l, rank, lo, rank[p]) && Ordered(r, rank, rank[p], hi)
  }

  /** The ranks that fit in the hole of `k` lie strictly between `Lo` and `Hi`. */
  function Lo(k: Ctx, r: Ranks): int {
    match k
    case Top => r.lo
    case Frame(left, p, _, _, up) => if left then Lo(up, r) else if p in r.of then r.of[p] else 0
  }

  function Hi(k: Ctx, r: Ranks): int {
    match k
    case Top => r.hi
    case Frame(left, p, _, _, up) => if !left then Hi(up, r) else if p in r.of then r.of[p] else 0
  }

  predicate CtxOrdered(k: Ctx, r: Ranks) {
    match k
    case Top => true
    case Frame(left, p, _, sib, up) =>
      && p in r.of && Lo(up, r) < r.of[p] < Hi(up, r)
      && (if left then Ordered(sib, r.of, r.of[p], Hi(up, r)) else Ordered(sib, r.of, Lo(up, r), r.of[p]))
      && CtxOrdered(up, r)
  }

  // ---------- colours and black heights ----------

  predicate IsRed(t: Tree) {
    t.Fork? && t.red
  }

  predicate CtxRed(k: Ctx) {
    k.Frame? && k.red
  }

  predicate NoRedRed(t: Tree) {
    match t
    case Leaf => true
    case Fork(l, _, red, r) => (red ==> !IsRed(l) && !IsRed(r)) && NoRedRed(l) && NoRedRed(r)
  }

  /** Every path from the root of `t` to a leaf meets exactly `h` black nodes. */
  predicate Balanced(t: Tree, h: nat) {
    match t
    case Leaf => h == 0
    case Fork(l, _, true, r) => Balanced(l, h) && Balanced(r, h)
    case Fork(l, _, false, r) => h > 0 && Balanced(l, h - 1) && Balanced(r, h - 1)
  }

  function BlackHeight(t: Tree): nat {
    match t
    case Leaf => 0
    case Fork(l, _, red, _) => BlackHeight(l) + if red then 0 else 1
  }

  predicate RedBlack(t: Tree) {
    !IsRed(t) && NoRedRed(t) && Balanced(t, BlackHeight(t))
  }

  /** Filling the hole with a tree of black height `h` keeps all black heights equal. */
  predicate CtxBalanced(k: Ctx, h: nat) {
    match k
    case Top => true
    case Frame(_, _, red, sib, up) => Balanced(sib, h) && CtxBalanced(up, if red then h else h + 1)
  }

  /** No red node has a red parent, the edge into the hole apart, and the top frame is black. */
  predicate CtxNoRedRed(k: Ctx) {
    match k
    case Top => true
    case Frame(_, _, red, sib, up) =>
      (red ==> !IsRed(sib) && up.Frame? && !CtxRed(up)) && NoRedRed(sib) && CtxNoRedRed(up)
  }

  function Depth(k: Ctx): nat {
    if k.Top? then 0 else 1 + Depth(k.up)
  }

  /** The state of an insertion: all is well, but for a red root of `t` that may hang below a red node. */
  predicate RedFocus(t: Tree, k: Ctx) {
    IsRed(t) && NoRedRed(t) && CtxNoRedRed(k) && Balanced(t, BlackHeight(t)) && CtxBalanced(k, BlackHeight(t))
  }

  // ---------- the memory ----------

  function Child(c: Cell, left: bool): Ptr {
    if left then c.left else c.right
  }

  function WithChild(c: Cell, left: bool, q: Ptr): Cell {
    if left then c.(left := q) else c.(right := q)
  }

  function Above(k: Ctx): Ptr {
    if k.Top? then NULL else k.p
  }

  /** The pointer `p`, whose parent pointer leads to `above`, is the root of nodes linked as `t`. */
  predicate Linked(m: Memory, p: Ptr, above: Ptr, t: Tree)
    decreases t
  {
    match t
    case Leaf => p == NULL
    case Fork(l, q, red, r) =>
      && p == q && p != NULL && p in m
      && m[p].parent == above && m[p].red == red
      && Linked(m, m[p].left, p, l) && Linked(m, m[p].right, p, r)
  }

  /** The nodes around a hole that holds the pointer `p`, in the tree at `root`, are linked as `k`. */
  predicate CtxLinked(m: Memory, k: Ctx, p: Ptr, root: Ptr)
    decreases k
  {
    match k
    case Top => root == p
    case Frame(left, q, red, sib, up) =>
      && q != NULL && q in m
      && m[q].parent == Above(up) && m[q].red == red
      && Child(m[q], left) == p && Linked(m, Child(m[q], !left), q, sib)
      && CtxLinked(m, up, q, root)
  }

  /** The tree at `root` is `Plug(k, t)`, and `p` points to the root of `t`. */
  predicate At(m: Memory, root: Ptr, p: Ptr, t: Tree, k: Ctx, r: Ranks) {
    && Linked(m, p, Above(k), t) && CtxLinked(m, k, p, root)
    && Ordered(t, r.of, Lo(k, r), Hi(k, r)) && CtxOrdered(k, r)
  }

  /** `m` and `m'` have the same cells, and differ at most in those of `s`. */
  ghost predicate SameBut(m: Memory, m': Memory, s: set<Ptr>) {
    m'.Keys == m.Keys && forall q :: q in m && q != NULL && q !in s ==> m'[q] == m[q]
  }

  predicate Within(q: Ptr, rank: map<Ptr, int>, lo: int, hi: int) {
    q != NULL && q in rank && lo < rank[q] < hi
  }

  lemma {:induction false} LinkedSame(m: Memory, m': Memory, s: set<Ptr>, p: Ptr, above: Ptr, t: Tree,
                                      rank: map<Ptr, int>, lo: int, hi: int)
    requires Linked(m, p, above, t) && Ordered(t, rank, lo, hi)
    requires SameBut(m, m', s) && forall q :: q in s ==> !Within(q, rank, lo, hi)
    ensures Linked(m', p, above, t)
    decreases t
  {
    if t.Fork? {
      LinkedSame(m, m', s, m[p].left, p, t.l, rank, lo, rank[p]);
      LinkedSame(m, m', s, m[p].right, p, t.r, rank, rank[p], hi);
    }
  }

  /** `LinkedSame`, when the cell at the root may get a new parent link or a new colour. */
  lemma RootChanged(m: Memory, m': Memory, s: set<Ptr>, p: Ptr, above: Ptr, above': Ptr, t: Tree, red': bool,
                    rank: map<Ptr, int>, lo: int, hi: int)
    requires t.Fork? && Linked(m, p, above, t) && Ordered(t, rank, lo, hi)
    requires SameBut(m, m', s) && forall q :: q in s && q != p ==> !Within(q, rank, lo, hi)
    requires p in m' && m'[p] == m[p].(parent := above', red := red')
    ensures Linked(m', p, above', t.(red := red'))
  {
    LinkedSame(m, m', s, m[p].left, p, t.l, rank, lo, rank[p]);
    LinkedSame(m, m', s, m[p].right, p, t.r, rank, rank[p], hi);
  }

  lemma {:induction false} CtxLinkedSame(m: Memory, m': Memory, s: set<Ptr>, k: Ctx, p: Ptr, root: Ptr, r: Ranks)
    requires CtxLinked(m, k, p, root) && CtxOrdered(k, r)
    requires SameBut(m, m', s) && forall q :: q in s ==> q == NULL || Within(q, r.of, Lo(k, r), Hi(k, r))
    ensures CtxLinked(m', k, p, root)
    decreases k
  {
    if k.Frame? {
      var sib := Child(m[k.p], !k.left);
      if k.left {
        LinkedSame(m, m', s, sib, k.p, k.sib, r.of, r.of[k.p], Hi(k.up, r));
      } else {
        LinkedSame(m, m', s, sib, k.p, k.sib, r.of, Lo(k.up, r), r.of[k.p]);
      }
      CtxLinkedSame(m, m', s, k.up, k.p, root, r);
    }
  }

  // ---------- rotations ----------

  lemma RotationParts(m: Memory, left: bool, a: Tree, x: Ptr, cx: bool, b: Tree, y: Ptr, cy: bool, c: Tree,
                      above: Ptr, rank: map<Ptr, int>, lo: int, hi: int)
    requires var t := Join(left, a, x, cx, Join(left, b, y, cy, c));
             Linked(m, x, above, t) && Ordered(t, rank, lo, hi)
    ensures x in m && Child(m[x], !left) == y && y in m && x != y && m[x].parent == above
    ensures Within(x, rank, lo, hi) && Within(y, rank, lo, hi)
    ensures var inner := Child(m[y], left);
            inner != NULL ==> Within(inner, rank, lo, hi) && inner in m && inner != x && inner != y
  {
    assert Linked(m, y, x, Join(left, b, y, cy, c));
    assert Linked(m, Child(m[y], left), y, b);
    assert Ordered(b, rank, if left then rank[x] else rank[y], if left then rank[y] else rank[x]);
  }

  /** The writes of a rotation, on the rotated nodes; `b` hangs below the pointer `inner`. */
  lemma Rotated(m: Memory, m': Memory, left: bool,
                a: Tree, x: Ptr, cx: bool, b: Tree, y: Ptr, cy: bool, c: Tree, inner: Ptr, above: Ptr,
                rank: map<Ptr, int>, lo: int, hi: int)
    requires var t := Join(left, a, x, cx, Join(left, b, y, cy, c));
             Linked(m, x, above, t) && Ordered(t, rank, lo, hi)
    requires x in m && y in m && inner == Child(m[y], left) && SameBut(m, m', {x, y, inner})
    requires m'[x] == WithChild(m[x], !left, inner).(parent := y)
    requires m'[y] == WithChild(m[y], left, x).(parent := above)
    requires inner != NULL ==> inner in m && m'[inner] == m[inner].(parent := x)
    ensures var t' := Join(left, Join(left, a, x, cx, b), y, cy, c);
            Linked(m', y, above, t') && Ordered(t', rank, lo, hi)
  {
    var s := {x, y, inner};
    assert Linked(m, y, x, Join(left, b, y, cy, c));
    assert Linked(m, inner, y, b);
    var l, h := if left then rank[x] else rank[y], if left then rank[y] else rank[x];
    assert Ordered(b, rank, l, h);
    if b.Fork? {
      RootChanged(m, m', s, inner, y, x, b, b.red, rank, l, h);
    }
    if left {
      LinkedSame(m, m', s, m[x].left, x, a, rank, lo, rank[x]);
      LinkedSame(m, m', s, m[y].right, y, c, rank, rank[y], hi);
    } else {
      LinkedSame(m, m', s, m[x].right, x, a, rank, rank[x], hi);
      LinkedSame(m, m', s, m[y].left, y, c, rank, lo, rank[y]);
    }
  }

  lemma RotatedInorder(left: bool, a: Tree, x: Ptr, cx: bool, b: Tree, y: Ptr, cy: bool, c: Tree)
    ensures Inorder(Join(left, Join(left, a, x, cx, b), y, cy, c)) ==
            Inorder(Join(left, a, x, cx, Join(left, b, y, cy, c)))
  {
  }

  /** Two subtrees side by side: the cursor may stand in either. */
  lemma OtherSide(m: Memory, root: Ptr, p: Ptr, t: Tree, k: Ctx, r: Ranks)
    requires k.Frame? && At(m, root, p, t, k, r)
    ensures k.p in m
    ensures At(m, root, Child(m[k.p], !k.left), k.sib, Frame(!k.left, k.p, k.red, t, k.up), r)
  {
  }

  /** A node is a left child exactly when its parent's left pointer leads to it. */
  lemma WhichSide(m: Memory, root: Ptr, p: Ptr, t: Tree, k: Ctx, r: Ranks, left: bool)
    requires k.Frame? && t.Fork? && At(m, root, p, t, k, r)
    ensures k.p in m && p == t.p && p in m && m[p].parent == k.p && m[p].red == t.red && m[k.p].red == k.red
    ensures Child(m[k.p], left) == p <==> k.left == left
  {
    var q := Child(m[k.p], !k.left);
    assert k.sib.Fork? ==> q == k.sib.p && q in r.of;
  }

  /** What a red node's parent pointers lead to, when that parent is red too. */
  lemma Family(m: Memory, root: Ptr, p: Ptr, t: Tree, k: Ctx, r: Ranks)
    requires t.Fork? && At(m, root, p, t, k, r) && CtxNoRedRed(k)
    ensures p in m && (m[p].parent != NULL <==> k.Frame?) && m[p].parent == Above(k)
    ensures k.Frame? ==> k.p in m && m[k.p].red == k.red
    ensures CtxRed(k) ==> k.up.Frame? && m[k.p].parent == k.up.p && k.up.p in m
    ensures CtxRed(k) ==>
            var g := m[k.up.p]; var uncle := Child(g, !k.up.left);
            && (k.p == g.left <==> k.up.left)
            && (uncle != NULL ==> k.up.sib.Fork? && uncle in m && m[uncle].red == k.up.sib.red)
            && (uncle == NULL ==> k.up.sib.Leaf?)
  {
    if CtxRed(k) {
      Climb(m, root, p, t, k, r);
      WhichSide(m, root, k.p, Join(k.left, t, k.p, k.red, k.sib), k.up, r, true);
    }
  }

  lemma Children(m: Memory, root: Ptr, p: Ptr, t: Tree, k: Ctx, r: Ranks)
    requires t.Fork? && At(m, root, p, t, k, r)
    ensures p in m && m[p].red == t.red && m[p].parent == Above(k)
    ensures (m[p].left == NULL <==> t.l.Leaf?) && (m[p].right == NULL <==> t.r.Leaf?)
  {
    assert Linked(m, m[p].left, p, t.l) && Linked(m, m[p].right, p, t.r);
  }

  lemma Descend(m: Memory, root: Ptr, p: Ptr, left: bool, t: Tree, red: bool, sib: Tree, k: Ctx, r: Ranks)
    requires At(m, root, p, Join(left, t, p, red, sib), k, r)
    ensures p in m && At(m, root, Child(m[p], left), t, Frame(left, p, red, sib, k), r)
  {
  }

  lemma Climb(m: Memory, root: Ptr, p: Ptr, t: Tree, k: Ctx, r: Ranks)
    requires k.Frame? && At(m, root, p, t, k, r)
    ensures k.p in m && At(m, root, k.p, Join(k.left, t, k.p, k.red, k.sib), k.up, r)
  {
  }

  lemma {:induction false} PlugAt(m: Memory, root: Ptr, p: Ptr, t: Tree, k: Ctx, r: Ranks)
    requires At(m, root, p, t, k, r)
    ensures At(m, root, root, Plug(k, t), Top, r)
    decreases k
  {
    if k.Frame? {
      Climb(m, root, p, t, k, r);
      PlugAt(m, root, k.p, Join(k.left, t, k.p, k.red, k.sib), k.up, r);
    }
  }

  /** One colour bit changes, at the cursor. */
  lemma Repaint(m: Memory, m': Memory, root: Ptr, p: Ptr, t: Tree, k: Ctx, r: Ranks, red: bool)
    requires t.Fork? && At(m, root, p, t, k, r) && m' == m[p := m[p].(red := red)]
    ensures At(m', root, p, t.(red := red), k, r)
  {
    RootChanged(m, m', {p}, p, Above(k), Above(k), t, red, r.of, Lo(k, r), Hi(k, r));
    CtxLinkedSame(m, m', {p}, k, p, root, r);
  }

  // ---------- facts about plugging ----------

  lemma {:induction false} PlugInorder(k: Ctx, t: Tree)
    ensures Inorder(Plug(k, t)) == Before(k) + Inorder(t) + After(k)
    decreases k
  {
    hide Inorder;
    if k.Frame? {
      var whole, beside := Join(k.left, t, k.p, k.red, k.sib), Inorder(k.sib);
      JoinInorder(k.left, t, k.p, k.red, k.sib);
      PlugInorder(k.up, whole);
      if k.left {
        Regroup(Before(k.up), Inorder(t), [k.p] + beside, After(k.up));
      } else {
        Apart(Before(k.up), beside + [k.p], Inorder(t));
      }
    }
  }

  lemma JoinInorder(left: bool, t: Tree, p: Ptr, red: bool, sib: Tree)
    ensures Inorder(Join(left, t, p, red, sib)) ==
            if left then Inorder(t) + ([p] + Inorder(sib)) else (Inorder(sib) + [p]) + Inorder(t)
  {
    Apart(Inorder(t), [p], Inorder(sib));
  }

  lemma Apart(a: seq<Ptr>, b: seq<Ptr>, c: seq<Ptr>)
    ensures a + (b + c) == (a + b) + c
  {
  }

  lemma {:induction false} PlugFork(k: Ctx, t: Tree)
    requires t.Fork? || k.Frame?
    ensures Plug(k, t).Fork?
    decreases k
  {
    if k.Frame? {
      PlugFork(k.up, Join(k.left, t, k.p, k.red, k.sib));
    }
  }

  lemma PlugSameInorder(k: Ctx, t: Tree, t': Tree)
    requires Inorder(t) == Inorder(t')
    ensures Inorder(Plug(k, t)) == Inorder(Plug(k, t'))
  {
    PlugInorder(k, t);
    PlugInorder(k, t');
  }

  lemma {:induction false} BlackHeightUnique(t: Tree, h: nat)
    requires Balanced(t, h)
    ensures BlackHeight(t) == h
  {
    if t.Fork? {
      BlackHeightUnique(t.l, if t.red then h else h - 1);
    }
  }

  lemma {:induction false} PlugRedBlack(k: Ctx, t: Tree, h: nat)
    requires Balanced(t, h) && CtxBalanced(k, h) && NoRedRed(t) && CtxNoRedRed(k)
    requires IsRed(t) ==> k.Frame? && !CtxRed(k)
    ensures RedBlack(Plug(k, t))
    decreases k
  {
    match k
    case Top => BlackHeightUnique(t, h);
    case Frame(left, p, red, sib, up) =>
      PlugRedBlack(up, Join(left, t, p, red, sib), if red then h else h + 1);
  }

  lemma {:induction false} UnplugRedBlack(k: Ctx, t: Tree)
    requires RedBlack(Plug(k, t))
    ensures Balanced(t, BlackHeight(t)) && CtxBalanced(k, BlackHeight(t)) && NoRedRed(t) && CtxNoRedRed(k)
    ensures IsRed(t) ==> k.Frame? && !CtxRed(k)
    decreases k
  {
    if k.Frame? {
      var whole := Join(k.left, t, k.p, k.red, k.sib);
      UnplugRedBlack(k.up, whole);
      BlackHeightUnique(t, if k.red then BlackHeight(whole) else BlackHeight(whole) - 1);
    }
  }

  // ---------- insertion ----------

  /** Painting both children of the grandparent black and itself red moves the trouble two levels up. */
  lemma PushedBlack(t: Tree, k: Ctx)
    requires RedFocus(t, k) && CtxRed(k) && k.up.Frame? && IsRed(k.up.sib)
    ensures var t' := Join(k.up.left, Join(k.left, t, k.p, false, k.sib), k.up.p, true, k.up.sib.(red := false));
            RedFocus(t', k.up.up) && Inorder(Plug(k.up.up, t')) == Inorder(Plug(k, t))
  {
    var h := BlackHeight(t);
    var below := Join(k.left, t, k.p, false, k.sib);
    var t' := Join(k.up.left, below, k.up.p, true, k.up.sib.(red := false));
    assert CtxBalanced(k.up, h) && CtxNoRedRed(k.up);
    BlackHeightUnique(t', h + 1);
    PlugSameInorder(k.up.up, t', Join(k.up.left, Join(k.left, t, k.p, true, k.sib), k.up.p, k.up.red, k.up.sib));
  }

  /** The trees that the rotations of an insertion leave, `t` and `inner` in either place. */
  lemma RotatedUp(left: bool, t: Tree, p: Ptr, sib: Tree, kg: Ctx, h: nat)
    requires kg.Frame? && !kg.red && !IsRed(kg.sib) && CtxBalanced(kg, h) && CtxNoRedRed(kg)
    requires IsRed(t) && NoRedRed(t) && Balanced(t, h) && NoRedRed(sib) && !IsRed(sib) && Balanced(sib, h)
    ensures RedFocus(t, Frame(left, p, false, Join(!left, kg.sib, kg.p, true, sib), kg.up))
  {
    BlackHeightUnique(t, h);
  }

  // ---------- erasing ----------

  function Blacken(t: Tree): Tree {
    if t.Leaf? then t else t.(red := false)
  }

  /** The state of an erasure: all is well, but for one black node missing on every path into `t`. */
  predicate ShortFocus(t: Tree, k: Ctx) {
    && Balanced(t, BlackHeight(t)) && CtxBalanced(k, BlackHeight(t) + 1)
    && NoRedRed(Blacken(t)) && CtxNoRedRed(k)
  }

  /** The sibling of a subtree that lacks a black node is never missing. */
  lemma SiblingExists(t: Tree, k: Ctx)
    requires ShortFocus(t, k) && k.Frame?
    ensures k.sib.Fork?
  {
  }

  function Near(t: Tree, left: bool): Tree
    requires t.Fork?
  {
    if left then t.l else t.r
  }

  /** What the pointers around the cursor of an erasure lead to. */
  lemma Siblings(m: Memory, root: Ptr, p: Ptr, t: Tree, k: Ctx, r: Ranks)
    requires At(m, root, p, t, k, r) && ShortFocus(t, k)
    ensures p == NULL <==> t.Leaf?
    ensures p != NULL ==> p in m && m[p].red == t.red
    ensures k.Top? <==> p == root
    ensures k.Frame? ==>
            && k.p in m && m[k.p].red == k.red && m[k.p].parent == Above(k.up) && (m[k.p].left == p <==> k.left)
            && k.sib.Fork? && Child(m[k.p], !k.left) == k.sib.p && k.sib.p in m && m[k.sib.p].red == k.sib.red
  {
    if k.Frame? {
      SiblingExists(t, k);
      assert Ordered(k.sib, r.of, if k.left then r.of[k.p] else Lo(k.up, r), if k.left then Hi(k.up, r) else r.of[k.p]);
      RootNotBelow(m, root, p, t, k, r);
    }
  }

  /** The root of the tree is not found below a frame. */
  lemma {:induction false} RootNotBelow(m: Memory, root: Ptr, p: Ptr, t: Tree, k: Ctx, r: Ranks)
    requires At(m, root, p, t, k, r) && k.Frame?
    ensures root != NULL && root in r.of && (t.Fork? ==> root != p)
    ensures r.of[root] <= Lo(k, r) || Hi(k, r) <= r.of[root]
    decreases k
  {
    assert CtxLinked(m, k.up, k.p, root);
    if k.up.Frame? {
      Climb(m, root, p, t, k, r);
      RootNotBelow(m, root, k.p, Join(k.left, t, k.p, k.red, k.sib), k.up, r);
    }
  }

  lemma Nephews(m: Memory, root: Ptr, p: Ptr, t: Tree, k: Ctx, r: Ranks)
    requires At(m, root, p, t, k, r) && k.Frame? && k.sib.Fork?
    ensures k.p in m && k.sib.p in m
    ensures var c := m[k.sib.p];
            && (c.left == NULL <==> k.sib.l.Leaf?) && (c.left != NULL ==> c.left in m && m[c.left].red == k.sib.l.red)
            && (c.right == NULL <==> k.sib.r.Leaf?) && (c.right != NULL ==> c.right in m && m[c.right].red == k.sib.r.red)
  {
    var c := m[k.sib.p];
    assert Linked(m, k.sib.p, k.p, k.sib);
    assert Linked(m, c.left, k.sib.p, k.sib.l) && Linked(m, c.right, k.sib.p, k.sib.r);
  }

  lemma NephewRaised(left: bool, t: Tree, k: Ctx)
    requires ShortFocus(t, k) && k.Frame? && k.left == left && k.sib.Fork? && !k.sib.red
    requires IsRed(Near(k.sib, left)) && !IsRed(Near(k.sib, !left))
    ensures var near := Near(k.sib, left);
            var k' := k.(sib := Join(left, Near(near, left), near.p, false,
                                     Join(left, Near(near, !left), k.sib.p, true, Near(k.sib, !left))));
            ShortFocus(t, k') && Inorder(Plug(k', t)) == Inorder(Plug(k, t))
  {
    var h, near, far := BlackHeight(t), Near(k.sib, left), Near(k.sib, !left);
    assert Balanced(near, h) && Balanced(far, h) && NoRedRed(near) && NoRedRed(far);
    var lower := Join(left, Near(near, !left), k.sib.p, true, far);
    var sib' := Join(left, Near(near, left), near.p, false, lower);
    assert Balanced(lower, h) && NoRedRed(lower);
    RotatedInorder(!left, far, k.sib.p, true, Near(near, !left), near.p, true, Near(near, left));
    PlugSameInorder(k.up, Join(left, t, k.p, k.red, sib'), Join(left, t, k.p, k.red, k.sib));
  }

  lemma SiblingRaised(left: bool, t: Tree, k: Ctx)
    requires ShortFocus(t, k) && !IsRed(t) && k.Frame? && k.left == left && k.sib.Fork? && !k.sib.red
    requires IsRed(Near(k.sib, !left))
    ensures var top := Join(left, Join(left, t, k.p, false, Near(k.sib, left)), k.sib.p, k.red,
                            Near(k.sib, !left).(red := false));
            RedBlack(Plug(k.up, top)) && Inorder(Plug(k.up, top)) == Inorder(Plug(k, t))
  {
    var h, near, far := BlackHeight(t), Near(k.sib, left), Near(k.sib, !left);
    assert Balanced(near, h) && Balanced(far, h) && NoRedRed(near) && NoRedRed(far);
    var lower, far' := Join(left, t, k.p, false, near), far.(red := false);
    var top := Join(left, lower, k.sib.p, k.red, far');
    assert Balanced(lower, h + 1) && Balanced(far', h + 1);
    RotatedInorder(left, t, k.p, false, near, k.sib.p, k.red, far');
    assert k.sib == Join(left, near, k.sib.p, false, far) && Inorder(far') == Inorder(far);
    PlugSameInorder(k.up, top, Join(left, t, k.p, k.red, k.sib));
    PlugRedBlack(k.up, top, if k.red then h + 1 else h + 2);
  }

  lemma {:induction false} OrderedWiden(t: Tree, rank: map<Ptr, int>, lo: int, hi: int, lo': int, hi': int)
    requires Ordered(t, rank, lo, hi) && lo' <= lo && hi <= hi'
    ensures Ordered(t, rank, lo', hi')
  {
    if t.Fork? {
      OrderedWiden(t.l, rank, lo, rank[t.p], lo', rank[t.p]);
      OrderedWiden(t.r, rank, rank[t.p], hi, rank[t.p], hi');
    }
  }

  /** The leftmost node of a tree, and the tree without it. */
  function Min(t: Tree): Ptr
    requires t.Fork?
  {
    if t.l.Leaf? then t.p else Min(t.l)
  }

  function DropMin(t: Tree): Tree
    requires t.Fork?
  {
    if t.l.Leaf? then t.r else Fork(DropMin(t.l), t.p, t.red, t.r)
  }

  lemma {:induction false} MinFirst(t: Tree, rank: map<Ptr, int>, lo: int, hi: int)
    requires t.Fork? && Ordered(t, rank, lo, hi)
    ensures Inorder(t) == [Min(t)] + Inorder(DropMin(t))
    ensures Min(t) in rank && lo < rank[Min(t)] < hi && Ordered(DropMin(t), rank, rank[Min(t)], hi)
  {
    if t.l.Fork? {
      MinFirst(t.l, rank, lo, rank[t.p]);
    }
  }

  /** The context `ks` inside the hole of `k`. */
  function Append(ks: Ctx, k: Ctx): Ctx {
    match ks
    case Top => k
    case Frame(left, p, red, sib, up) => Frame(left, p, red, sib, Append(up, k))
  }

  lemma {:induction false} PlugAppend(ks: Ctx, k: Ctx, t: Tree)
    ensures Plug(Append(ks, k), t) == Plug(k, Plug(ks, t))
    decreases ks
  {
    if ks.Frame? {
      PlugAppend(ks.up, k, Join(ks.left, t, ks.p, ks.red, ks.sib));
    }
  }

  lemma {:induction false} DescendPlug(m: Memory, root: Ptr, p: Ptr, ks: Ctx, t: Tree, k: Ctx, r: Ranks)
    requires At(m, root, p, Plug(ks, t), k, r)
    ensures ks.Frame? ==> ks.p in m
    ensures At(m, root, if ks.Top? then p else Child(m[ks.p], ks.left), t, Append(ks, k), r)
    decreases ks
  {
    if ks.Frame? {
      DescendPlug(m, root, p, ks.up, Join(ks.left, t, ks.p, ks.red, ks.sib), k, r);
      Descend(m, root, ks.p, ks.left, t, ks.red, ks.sib, Append(ks.up, k), r);
    }
  }

  lemma {:induction false} ClimbPlug(m: Memory, root: Ptr, p: Ptr, ks: Ctx, t: Tree, k: Ctx, r: Ranks)
    requires k.Frame? && At(m, root, p, t, Append(ks, k), r)
    ensures k.p in m && At(m, root, Child(m[k.p], k.left), Plug(ks, t), k, r)
    decreases ks
  {
    if ks.Frame? {
      Climb(m, root, p, t, Append(ks, k), r);
      ClimbPlug(m, root, ks.p, ks.up, Join(ks.left, t, ks.p, ks.red, ks.sib), k, r);
    }
  }

  /** Colours and black heights do not depend on which node a frame is made of. */
  lemma {:induction false} Renamed(ks: Ctx, k: Ctx, p: Ptr, h: nat)
    requires k.Frame? && CtxBalanced(Append(ks, k), h) && CtxNoRedRed(Append(ks, k))
    ensures CtxBalanced(Append(ks, k.(p := p)), h) && CtxNoRedRed(Append(ks, k.(p := p)))
    ensures CtxRed(Append(ks, k.(p := p))) == CtxRed(Append(ks, k))
    decreases ks
  {
    if ks.Frame? {
      Renamed(ks.up, k, p, if ks.red then h else h + 1);
    }
  }

  /** `node` is about to take the place of `old'`: it already holds the right subtree. */
  predicate Supplanting(m: Memory, root: Ptr, old': Ptr, node: Ptr, l: Tree, rest: Tree, k: Ctx, r: Ranks) {
    && old' in m && node in m && old' != NULL && node != NULL && old' in r.of && node in r.of
    && Lo(k, r) < r.of[old'] < r.of[node] < Hi(k, r)
    && m[old'].parent == Above(k) && CtxLinked(m, k, old', root) && CtxOrdered(k, r)
    && Linked(m, m[old'].left, old', l) && Ordered(l, r.of, Lo(k, r), r.of[old'])
    && Linked(m, m[node].right, node, rest) && Ordered(rest, r.of, r.of[node], Hi(k, r))
  }

  /** What an erasure leaves at the place of the node it took out. */
  lemma TakenOut(gone: Tree, t: Tree, k: Ctx)
    requires gone.Fork? && (t == gone.l || t == gone.r) && (t == gone.l ==> gone.r.Leaf?) && (t == gone.r ==> gone.l.Leaf?)
    requires Balanced(gone, BlackHeight(gone)) && CtxBalanced(k, BlackHeight(gone)) && NoRedRed(gone) && CtxNoRedRed(k)
    requires IsRed(gone) ==> k.Frame? && !CtxRed(k)
    ensures !gone.red ==> ShortFocus(t, k)
    ensures gone.red ==> RedBlack(Plug(k, t))
  {
    var h := BlackHeight(gone);
    BlackHeightUnique(t, if gone.red then h else h - 1);
    if gone.red {
      BlackHeightUnique(gone.l, h);
      BlackHeightUnique(gone.r, h);
      PlugRedBlack(k, t, h);
    }
  }

  // ---------- finding a node ----------

  lemma {:induction false} Locate(t: Tree, i: nat) returns (k: Ctx, tn: Tree)
    requires i < |Inorder(t)|
    ensures Plug(k, tn) == t && tn.Fork? && tn.p == Inorder(t)[i]
    ensures |Before(k)| + |Inorder(tn.l)| == i
  {
    var n := |Inorder(t.l)|;
    if i < n {
      var k', tn' := Locate(t.l, i);
      k, tn := Append(k', Frame(true, t.p, t.red, t.r, Top)), tn';
      PlugAppend(k', Frame(true, t.p, t.red, t.r, Top), tn');
      BeforeAppend(k', Frame(true, t.p, t.red, t.r, Top));
    } else if i == n {
      k, tn := Top, t;
    } else {
      var k', tn' := Locate(t.r, i - n - 1);
      k, tn := Append(k', Frame(false, t.p, t.red, t.l, Top)), tn';
      PlugAppend(k', Frame(false, t.p, t.red, t.l, Top), tn');
      BeforeAppend(k', Frame(false, t.p, t.red, t.l, Top));
    }
  }

  lemma {:induction false} BeforeAppend(ks: Ctx, k: Ctx)
    ensures Before(Append(ks, k)) == Before(k) + Before(ks)
    decreases ks
  {
    if ks.Frame? {
      BeforeAppend(ks.up, k);
    }
  }

  lemma {:induction false} AppendTop(k: Ctx)
    ensures Append(k, Top) == k
  {
    if k.Frame? {
      AppendTop(k.up);
    }
  }

  /** The tree at `root` is `t`. */
  predicate Holds(m: Memory, root: Ptr, t: Tree, r: Ranks) {
    At(m, root, root, t, Top, r)
  }

  /** The cursor can be put on any node. */
  lemma Focus(m: Memory, root: Ptr, t: Tree, i: nat, r: Ranks) returns (k: Ctx, tn: Tree)
    requires Holds(m, root, t, r) && i < |Inorder(t)|
    ensures tn.Fork? && tn.p == Inorder(t)[i] && Plug(k, tn) == t && At(m, root, tn.p, tn, k, r)
    ensures Before(k) + Inorder(tn.l) == Inorder(t)[..i] && Inorder(tn.r) + After(k) == Inorder(t)[i + 1..]
  {
    k, tn := Locate(t, i);
    DescendPlug(m, root, root, k, tn, Top, r);
    AppendTop(k);
    PlugInorder(k, tn);
    var s := Inorder(t);
    assert s == (Before(k) + Inorder(tn.l)) + ([tn.p] + (Inorder(tn.r) + After(k)));
  }

  lemma Regroup(a: seq<Ptr>, b: seq<Ptr>, c: seq<Ptr>, d: seq<Ptr>)
    ensures a + (b + c) + d == (a + b) + (c + d)
  {
  }

  /** Plugging in what remains of `tn` takes exactly the node `tn.p` out of the walk. */
  lemma WithoutNode(k: Ctx, tn: Tree, t: Tree, t': Tree, i: nat)
    requires tn.Fork? && i < |Inorder(t)|
    requires Before(k) + Inorder(tn.l) == Inorder(t)[..i] && Inorder(tn.r) + After(k) == Inorder(t)[i + 1..]
    requires Inorder(t') == Inorder(tn.l) + Inorder(tn.r)
    ensures Inorder(Plug(k, t')) == Inorder(t)[..i] + Inorder(t)[i + 1..]
  {
    PlugInorder(k, t');
    Regroup(Before(k), Inorder(tn.l), Inorder(tn.r), After(k));
  }

  lemma SupplantedInorder(k: Ctx, t: Tree, ks: Ctx, gone: Tree, rank: map<Ptr, int>, lo: int, hi: int)
    requires t.Fork? && t.r.Fork? && gone.Fork? && Ordered(t.r, rank, lo, hi)
    requires DropMin(t.r) == Plug(ks, gone.r)
    ensures var t' := Fork(t.l, Min(t.r), t.red, DropMin(t.r));
            && Plug(Append(ks, Frame(false, Min(t.r), t.red, t.l, k)), gone.r) == Plug(k, t')
            && Inorder(t') == Inorder(t.l) + Inorder(t.r)
  {
    PlugAppend(ks, Frame(false, Min(t.r), t.red, t.l, k), gone.r);
    MinFirst(t.r, rank, lo, hi);
  }

  lemma SupplantedColours(k: Ctx, t: Tree, ks: Ctx, gone: Tree)
    requires t.Fork? && t.r.Fork? && t.r == Plug(ks, gone) && RedBlack(Plug(k, t))
    ensures var kg := Append(ks, Frame(false, Min(t.r), t.red, t.l, k)); var h := BlackHeight(gone);
            && Balanced(gone, h) && CtxBalanced(kg, h) && NoRedRed(gone) && CtxNoRedRed(kg)
            && (IsRed(gone) ==> kg.Frame? && !CtxRed(kg))
  {
    var base := Frame(false, t.p, t.red, t.l, k);
    PlugAppend(ks, base, gone);
    UnplugRedBlack(Append(ks, base), gone);
    Renamed(ks, base, Min(t.r), BlackHeight(gone));
  }

  // ---------- walking ----------

  /** The end of a walk through `t` on the given side. */
  function Outer(t: Tree, left: bool): Ptr
    requires t.Fork?
  {
    if Near(t, left).Leaf? then t.p else Outer(Near(t, left), left)
  }

  lemma {:induction false} OuterEnds(t: Tree, left: bool)
    requires t.Fork?
    ensures |Inorder(t)| > 0 && Outer(t, left) == if left then Inorder(t)[0] else Inorder(t)[|Inorder(t)| - 1]
  {
    if Near(t, left).Fork? {
      OuterEnds(Near(t, left), left);
    }
  }

  /** What follows a node, or comes before it, given its place. */
  function Beyond(t: Tree, k: Ctx, after: bool): seq<Ptr>
    requires t.Fork?
  {
    if after then Inorder(t.r) + After(k) else Before(k) + Inorder(t.l)
  }

  function Nearest(s: seq<Ptr>, after: bool): Ptr {
    if s == [] then NULL else if after then s[0] else s[|s| - 1]
  }

  // ---------- height ----------

  function Max(a: nat, b: nat): nat {
    if a < b then b else a
  }

  function Height(t: Tree): nat {
    match t
    case Leaf => 0
    case Fork(l, _, _, r) => 1 + Max(Height(l), Height(r))
  }

  function Pow2(n: nat): nat {
    if n == 0 then 1 else 2 * Pow2(n - 1)
  }

  lemma {:induction false} Pow2Sum(a: nat, b: nat)
    ensures Pow2(a + b) == Pow2(a) * Pow2(b)
    decreases b
  {
    if b > 0 {
      Pow2Sum(a, b - 1);
    }
  }

  lemma {:induction false} Pow2Monotone(a: nat, b: nat)
    requires a <= b
    ensures Pow2(a) <= Pow2(b)
  {
    if a < b {
      Pow2Monotone(a, b - 1);
    }
  }

  lemma {:induction false} BlackHeightBounds(t: Tree, h: nat)
    requires Balanced(t, h) && NoRedRed(t)
    ensures Height(t) <= 2 * h + (if IsRed(t) then 1 else 0)
    ensures Pow2(h) <= |Inorder(t)| + 1
  {
    if t.Fork? {
      BlackHeightBounds(t.l, if t.red then h else h - 1);
      BlackHeightBounds(t.r, if t.red then h else h - 1);
    }
  }

  lemma SquareMonotone(a: nat, b: nat)
    requires a <= b
    ensures a * a <= b * b
  {
  }

  /** A red-black tree of n nodes is at most 2 log2(n + 1) high. */
  lemma HeightBound(t: Tree)
    requires RedBlack(t)
    ensures Pow2(Height(t)) <= (|Inorder(t)| + 1) * (|Inorder(t)| + 1)
  {
    var h, n := BlackHeight(t), |Inorder(t)| + 1;
    BlackHeightBounds(t, h);
    Pow2Monotone(Height(t), h + h);
    Pow2Sum(h, h);
    SquareMonotone(Pow2(h), n);
  }
}
