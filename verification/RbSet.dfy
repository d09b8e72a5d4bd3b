/** The ordered set of integers that the example program builds on the tree. */
module RbSet {
  import opened RbShape
  import opened RbTree

  /** The keys along a walk grow. */
  predicate Ascending(s: seq<Ptr>, num: map<Ptr, int>) {
    (forall p :: p in s ==> p in num) && forall i, j :: 0 <= i < j < |s| ==> num[s[i]] < num[s[j]]
  }

  /** The keys met along a walk. */
  function Keys(s: seq<Ptr>, num: map<Ptr, int>): (keys: seq<int>)
    requires forall p :: p in s ==> p in num
    ensures |keys| == |s| && forall i :: 0 <= i < |s| ==> keys[i] == num[s[i]]
  {
    if s == [] then [] else Keys(s[..|s| - 1], num) + [num[s[|s| - 1]]]
  }

  // ---------- ranks along the walk ----------

  lemma {:induction false} OrderedWalk(t: Tree, rank: map<Ptr, int>, lo: int, hi: int)
    requires Ordered(t, rank, lo, hi)
    ensures forall p :: p in Inorder(t) ==> p in rank && lo < rank[p] < hi
    ensures Ascending(Inorder(t), rank)
  {
    if t.Fork? {
      OrderedWalk(t.l, rank, lo, rank[t.p]);
      OrderedWalk(t.r, rank, rank[t.p], hi);
      var a, b, s := Inorder(t.l), Inorder(t.r), Inorder(t);
      forall i, j | 0 <= i < j < |s|
        ensures rank[s[i]] < rank[s[j]]
      {
        assert i < |a| ==> s[i] == a[i] && s[i] in a;
        assert i > |a| ==> s[i] == b[i - |a| - 1] && s[i] in b;
        assert j > |a| ==> s[j] == b[j - |a| - 1] && s[j] in b;
      }
    }
  }

  /** Ranks only matter on the nodes of the tree. */
  lemma {:induction false} OrderedSame(t: Tree, rank: map<Ptr, int>, rank': map<Ptr, int>, lo: int, hi: int, lo': int, hi': int)
    requires Ordered(t, rank, lo, hi) && lo' <= lo && hi <= hi'
    requires forall p :: p in Inorder(t) && p in rank ==> p in rank' && rank'[p] == rank[p]
    ensures Ordered(t, rank', lo', hi')
  {
    if t.Fork? {
      assert t.p in Inorder(t);
      OrderedSame(t.l, rank, rank', lo, rank[t.p], lo', rank[t.p]);
      OrderedSame(t.r, rank, rank', rank[t.p], hi, rank[t.p], hi');
    }
  }

  /** Around a hole, ranks lie outside the bounds of the hole. */
  lemma {:induction false} RanksAround(k: Ctx, r: Ranks)
    requires CtxOrdered(k, r)
    ensures forall p :: p in Before(k) ==> p in r.of && r.of[p] <= Lo(k, r)
    ensures forall p :: p in After(k) ==> p in r.of && Hi(k, r) <= r.of[p]
    decreases k
  {
    if k.Frame? {
      RanksAround(k.up, r);
      if k.left {
        OrderedWalk(k.sib, r.of, r.of[k.p], Hi(k.up, r));
      } else {
        OrderedWalk(k.sib, r.of, Lo(k.up, r), r.of[k.p]);
      }
    }
  }

  lemma {:induction false} LinkedInMemory(m: Memory, p: Ptr, above: Ptr, t: Tree)
    requires Linked(m, p, above, t)
    ensures forall q :: q in Inorder(t) ==> q in m && q != NULL
    decreases t
  {
    if t.Fork? {
      LinkedInMemory(m, m[p].left, p, t.l);
      LinkedInMemory(m, m[p].right, p, t.r);
    }
  }

  /** A node of the whole tree that fits into the hole is in the subtree plugged there. */
  lemma InHole(k: Ctx, t: Tree, r: Ranks, p: Ptr)
    requires CtxOrdered(k, r) && p in Inorder(Plug(k, t)) && p in r.of && Lo(k, r) < r.of[p] < Hi(k, r)
    ensures p in Inorder(t)
  {
    PlugInorder(k, t);
    RanksAround(k, r);
  }

  /** Along any tree whose walk is ascending, the keys serve as ranks. */
  lemma {:induction false} AscendingOrdered(t: Tree, num: map<Ptr, int>, lo: int, hi: int)
    requires Ascending(Inorder(t), num)
    requires forall p :: p in Inorder(t) ==> lo < num[p] < hi
    ensures Ordered(t, num, lo, hi)
  {
    if t.Fork? {
      var a, b, s := Inorder(t.l), Inorder(t.r), Inorder(t);
      assert s[|a|] == t.p;
      forall i | 0 <= i < |a|
        ensures s[i] == a[i]
      {
      }
      forall i | 0 <= i < |b|
        ensures s[|a| + 1 + i] == b[i]
      {
      }
      AscendingOrdered(t.l, num, lo, num[t.p]);
      AscendingOrdered(t.r, num, num[t.p], hi);
    }
  }

  /** The ranks of a walk, with bounds around them and around `x`. */
  ghost function RanksFor(s: seq<Ptr>, num: map<Ptr, int>, x: int): (r: Ranks)
    requires forall p :: p in s ==> p in num
    ensures forall p :: p in s ==> p in r.of && r.of[p] == num[p] && r.lo < num[p] < r.hi
    ensures r.of.Keys == set p | p in s
    ensures r.lo < x < r.hi
  {
    if s == [] then Ranks(map[], x - 1, x + 1) else
      var r := RanksFor(s[1..], num, x);
      var n := num[s[0]];
      Ranks(r.of[s[0] := n], if n <= r.lo then n - 1 else r.lo, if n >= r.hi then n + 1 else r.hi)
  }

  function KeySet(s: seq<Ptr>, num: map<Ptr, int>): set<int> {
    set p | p in s && p in num :: num[p]
  }

  /** Filling the hole at the end of a search puts one node into the walk. */
  lemma Grown(t: Tree, t': Tree, k: Ctx, p: Ptr, r: Ranks, num: map<Ptr, int>)
    requires t == Plug(k, Leaf) && Inorder(t') == Inorder(Plug(k, Fork(Leaf, p, true, Leaf)))
    requires Ordered(t', r.of, r.lo, r.hi) && p in num && forall q :: q in r.of ==> q in num && r.of[q] == num[q]
    ensures var at, s := |Before(k)|, Inorder(t); at <= |s| && Inorder(t') == s[..at] + [p] + s[at..]
    ensures Ascending(Inorder(t'), num) && KeySet(Inorder(t'), num) == KeySet(Inorder(t), num) + {num[p]}
  {
    PlugInorder(k, Fork(Leaf, p, true, Leaf));
    PlugInorder(k, Leaf);
    assert Inorder(Fork(Leaf, p, true, Leaf)) == [p];
    assert Inorder(t) == Before(k) + After(k);
    OrderedWalk(t', r.of, r.lo, r.hi);
  }

  /** Taking one node out of an ascending walk. */
  lemma Shrunk(s: seq<Ptr>, i: nat, num: map<Ptr, int>)
    requires i < |s| && Ascending(s, num)
    ensures var s' := s[..i] + s[i + 1..];
            && s[i] !in s' && Ascending(s', num) && Ascending(s', num - {s[i]})
            && KeySet(s', num - {s[i]}) == KeySet(s, num) - {num[s[i]]}
  {
    var s' := s[..i] + s[i + 1..];
    forall p | p in s && p != s[i]
      ensures p in s'
    {
      var j :| 0 <= j < |s| && s[j] == p;
      assert s'[if j < i then j else j - 1] == p;
    }
  }

  class OrderedSet {
    const tree: RbTree
    var num: map<Ptr, int>
    ghost var t: Tree

    /** The nodes of the tree in order. */
    ghost function Walk(): seq<Ptr>
      reads this
    {
      Inorder(t)
    }

    ghost predicate Valid()
      reads this, tree
    {
      && Linked(tree.mem, tree.root, NULL, t) && RedBlack(t) && Ascending(Walk(), num)
      && num.Keys == tree.mem.Keys
    }

    /** The set of keys. */
    ghost function Elements(): set<int>
      reads this
    {
      KeySet(Walk(), num)
    }

    constructor ()
      ensures Valid() && fresh(tree) && Walk() == [] && Elements() == {}
    {
      tree := new RbTree();
      num := map[];
      t := Leaf;
    }

    /** The cursor at the root, with ranks that leave room for the key `x`. */
    lemma Start(x: int) returns (r: Ranks)
      requires Valid()
      ensures Holds(tree.mem, tree.root, t, r) && r.lo < x < r.hi && r.of.Keys == (set p | p in Walk())
      ensures forall p :: p in Walk() ==> r.of[p] == num[p]
    {
      r := RanksFor(Walk(), num, x);
      AscendingOrdered(t, r.of, r.lo, r.hi);
    }

    lemma StepBound(steps: nat)
      requires Valid() && steps <= Height(t)
      ensures Pow2(steps) <= (|Walk()| + 1) * (|Walk()| + 1)
    {
      HeightBound(t);
      Pow2Monotone(steps, Height(t));
    }

    /** What one step of a search sees, and the two places it can go on to. */
    lemma Look(node: Ptr, tn: Tree, k: Ctx, r: Ranks)
      requires Valid() && node != NULL && At(tree.mem, tree.root, node, tn, k, r) && Plug(k, tn) == t
      requires forall p :: p in Walk() && p in r.of ==> r.of[p] == num[p]
      ensures tn.Fork? && tn.p == node && node in Walk() && node in num && node in tree.mem && node in r.of && r.of[node] == num[node]
      ensures At(tree.mem, tree.root, tree.mem[node].left, tn.l, Frame(true, node, tn.red, tn.r, k), r)
      ensures At(tree.mem, tree.root, tree.mem[node].right, tn.r, Frame(false, node, tn.red, tn.l, k), r)
    {
      PlugInorder(k, tn);
      Descend(tree.mem, tree.root, node, true, tn.l, tn.red, tn.r, k, r);
      Descend(tree.mem, tree.root, node, false, tn.r, tn.red, tn.l, k, r);
    }

    /** my_search */
    method Search(x: int) returns (data: Ptr, ghost steps: nat)
      requires Valid()
      ensures data != NULL ==> data in Walk() && num[data] == x
      ensures data == NULL <==> x !in Elements()
      ensures Pow2(steps) <= (|Walk()| + 1) * (|Walk()| + 1)
    {
      hide CtxLinked, Ordered, CtxOrdered, RedBlack, Inorder, Ascending;
      ghost var r := Start(x);
      ghost var k, tn := Top, t;
      var node := tree.root;
      steps := 0;
      while node != NULL
        invariant At(tree.mem, tree.root, node, tn, k, r) && Plug(k, tn) == t && Lo(k, r) < x < Hi(k, r)
        invariant steps + Height(tn) <= Height(t)
        decreases tn
      {
        Look(node, tn, k, r);
        if x < num[node] {
          k, tn, node := Frame(true, node, tn.red, tn.r, k), tn.l, tree.mem[node].left;
        } else if x > num[node] {
          k, tn, node := Frame(false, node, tn.red, tn.l, k), tn.r, tree.mem[node].right;
        } else {
          StepBound(steps);
          return node, steps;
        }
        steps := steps + 1;
      }
      StepBound(steps);
      Absent(k, r, x);
      data := NULL;
    }

    lemma Absent(k: Ctx, r: Ranks, x: int)
      requires Valid() && t == Plug(k, Leaf) && CtxOrdered(k, r) && Lo(k, r) < x < Hi(k, r)
      requires forall p :: p in Walk() ==> p in r.of && r.of[p] == num[p]
      ensures x !in Elements()
    {
      forall p | p in Walk() && num[p] == x
        ensures false
      {
        InHole(k, Leaf, r, p);
      }
    }

    /** The hole that a search for the key of a new node ends in. */
    method FindHole(data: Ptr, x: int, ghost r: Ranks) returns (ghost k: Ctx, parent: Ptr, left: bool, found: bool)
      requires Valid() && data in num && num[data] == x
      requires Holds(tree.mem, tree.root, t, r) && r.lo < x < r.hi
      requires forall p :: p in Walk() && p in r.of ==> r.of[p] == num[p]
      ensures found <==> x in Elements()
      ensures !found ==> At(tree.mem, tree.root, NULL, Leaf, k, r) && Plug(k, Leaf) == t && Lo(k, r) < x < Hi(k, r)
      ensures !found ==> parent == Above(k) && (k.Frame? ==> k.left == left)
    {
      ghost var tn := t;
      var tmp := tree.root;
      k, parent, left := Top, NULL, true;
      while tmp != NULL
        invariant At(tree.mem, tree.root, tmp, tn, k, r) && Plug(k, tn) == t && Lo(k, r) < x < Hi(k, r)
        invariant parent == Above(k) && (k.Frame? ==> k.left == left)
        decreases tn
      {
        Look(tmp, tn, k, r);
        parent := tmp;
        if x < num[tmp] {
          k, tn, left, tmp := Frame(true, tmp, tn.red, tn.r, k), tn.l, true, tree.mem[tmp].left;
        } else if x > num[tmp] {
          k, tn, left, tmp := Frame(false, tmp, tn.red, tn.l, k), tn.r, false, tree.mem[tmp].right;
        } else {
          found := true;
          return;
        }
      }
      found := false;
      OrderedWalk(t, r.of, r.lo, r.hi);
      Absent(k, r, x);
    }

    /** my_insert: `at` is the position where the new node enters the walk. */
    method Insert(data: Ptr) returns (ret: int, ghost at: nat)
      requires Valid() && data != NULL && data in num && data !in Walk()
      modifies this`t, tree
      ensures Valid() && tree.mem.Keys == old(tree.mem.Keys)
      ensures ret == if num[data] in old(Elements()) then -1 else 0
      ensures ret == -1 ==> t == old(t) && tree.mem == old(tree.mem) && tree.root == old(tree.root)
      ensures ret == 0 ==> at <= |old(Walk())| && Walk() == old(Walk())[..at] + [data] + old(Walk())[at..]
      ensures Elements() == old(Elements()) + {num[data]}
      ensures forall q :: q in tree.mem && q != NULL && q !in Walk() ==> tree.mem[q] == old(tree.mem)[q]
    {
      hide Linked, CtxLinked, Ordered, CtxOrdered, RedBlack, Plug, Inorder, Ascending;
      var x := num[data];
      ghost var r := StartWith(data);
      ghost var k;
      var parent, left, found;
      k, parent, left, found := FindHole(data, x, r);
      at := 0;
      if found {
        return -1, at;
      }
      tree.LinkNode(data, parent, left, k, r);
      ghost var leaf := Fork(Leaf, data, true, Leaf);
      t := tree.InsertColor(data, k, r);
      at := |Before(k)|;
      Grown(old(t), t, k, data, r, num);
      ret := 0;
    }

    lemma StartWith(data: Ptr) returns (r: Ranks)
      requires Valid() && data in num && data !in Walk()
      ensures Holds(tree.mem, tree.root, t, r) && r.lo < num[data] < r.hi
      ensures r.of.Keys == (set p | p in Walk()) + {data}
      ensures forall p :: p in r.of ==> p in num && r.of[p] == num[p]
    {
      var r0 := Start(num[data]);
      r := r0.(of := r0.of[data := num[data]]);
      OrderedSame(t, r0.of, r.of, r.lo, r.hi, r.lo, r.hi);
    }

    /** my_delete: `at` is the position of the node that goes. */
    method Delete(x: int) returns (ghost at: nat)
      requires Valid()
      modifies this, tree
      ensures Valid() && Elements() == old(Elements()) - {x}
      ensures x !in old(Elements()) ==> t == old(t) && num == old(num) && tree.mem == old(tree.mem) && tree.root == old(tree.root)
      ensures x in old(Elements()) ==>
              && at < |old(Walk())| && old(num[Walk()[at]]) == x && Walk() == old(Walk()[..at]) + old(Walk()[at + 1..])
              && tree.mem.Keys == old(tree.mem.Keys) - {old(Walk()[at])} && num == old(num) - {old(Walk()[at])}
      ensures forall q :: q in tree.mem && q != NULL && q !in old(Walk()) ==> tree.mem[q] == old(tree.mem)[q]
    {
      ghost var steps;
      var data;
      data, steps := Search(x);
      at := 0;
      if data == NULL {
        return;
      }
      at :| at < |Walk()| && Walk()[at] == data;
      EraseAndFree(data, at);
    }

    method EraseAndFree(data: Ptr, ghost at: nat)
      requires Valid() && at < |Walk()| && Walk()[at] == data
      modifies this, tree
      ensures Valid() && Elements() == old(Elements()) - {old(num[data])}
      ensures Walk() == old(Walk()[..at]) + old(Walk()[at + 1..])
      ensures tree.mem.Keys == old(tree.mem.Keys) - {data} && num == old(num) - {data}
      ensures forall q :: q in tree.mem && q != NULL && q !in old(Walk()) ==> tree.mem[q] == old(tree.mem)[q]
    {
      ghost var r := Start(0);
      Shrunk(Walk(), at, num);
      t := tree.Erase(data, t, at, r);
      ghost var m1 := tree.mem;
      tree.mem := tree.mem - {data};
      num := num - {data};
      Freed(m1, tree.mem, tree.root, NULL, t, data);
    }

    /** print_rbtree: the keys, in the order of the walk. */
    method Print() returns (out: seq<int>)
      requires Valid()
      ensures out == Keys(Walk(), num)
    {
      ghost var r := Start(0);
      ghost var i := 0;
      out := [];
      var node := tree.End(true, t, r);
      while node != NULL
        invariant i <= |Walk()| && node == (if i < |Walk()| then Walk()[i] else NULL)
        invariant out == Keys(Walk()[..i], num)
        decreases |Walk()| - i
      {
        InTree(i);
        assert Walk()[..i + 1][..i] == Walk()[..i];
        out := out + [num[node]];
        node := tree.Neighbour(true, node, t, i, r);
        i := i + 1;
        if i < |Walk()| {
          InTree(i);
        }
      }
      if i < |Walk()| {
        InTree(i);
      }
      assert Walk()[..i] == Walk();
    }

    lemma InTree(i: nat)
      requires Valid() && i < |Walk()|
      ensures Walk()[i] in tree.mem && Walk()[i] != NULL && Walk()[i] in num
    {
      LinkedInMemory(tree.mem, tree.root, NULL, t);
    }

    /** malloc, and the key written into the new node. */
    method NewNode(x: int) returns (data: Ptr)
      requires Valid()
      modifies this, tree
      ensures Valid() && t == old(t) && Elements() == old(Elements())
      ensures data != NULL && data !in old(tree.mem) && data !in Walk()
      ensures num == old(num)[data := x]
    {
      ghost var free := FreshPtr(tree.mem.Keys);
      assert free != NULL && free !in tree.mem;
      data :| data != NULL && data !in tree.mem;
      LinkedInMemory(tree.mem, tree.root, NULL, t);
      ghost var m0 := tree.mem;
      tree.mem := tree.mem[data := Cell(NULL, false, NULL, NULL)];
      num := num[data := x];
      Allocated(m0, tree.mem, tree.root, NULL, t);
    }

    /** The calls of a client: a node whose key is already there is freed again. */
    method Apply(op: Op)
      requires Valid()
      modifies this, tree
      ensures Valid() && Elements() == Effect(op, old(Elements()))
    {
      ghost var at;
      match op
      case Insert(x) =>
        var data := NewNode(x);
        var ret;
        ret, at := Insert(data);
        if ret < 0 {
          ghost var m1 := tree.mem;
          tree.mem := tree.mem - {data};
          num := num - {data};
          Freed(m1, tree.mem, tree.root, NULL, t, data);
        }
      case Delete(x) =>
        at := Delete(x);
    }

    /** Any run of insertions and deletions, then a search. */
    method Run(ops: seq<Op>, x: int) returns (found: bool)
      requires Valid()
      modifies this, tree
      ensures Valid() && Elements() == Effects(ops, old(Elements()))
      ensures found <==> x in Effects(ops, old(Elements()))
    {
      for i := 0 to |ops|
        invariant Valid() && Elements() == Effects(ops[..i], old(Elements()))
      {
        assert ops[..i + 1][..i] == ops[..i];
        Apply(ops[i]);
      }
      assert ops[..|ops|] == ops;
      ghost var steps;
      var data;
      data, steps := Search(x);
      found := data != NULL;
    }
  }

  datatype Op = Insert(key: int) | Delete(key: int)

  function Effect(op: Op, s: set<int>): set<int> {
    match op
    case Insert(x) => s + {x}
    case Delete(x) => s - {x}
  }

  function Effects(ops: seq<Op>, s: set<int>): set<int> {
    if ops == [] then s else Effect(ops[|ops| - 1], Effects(ops[..|ops| - 1], s))
  }

  lemma {:induction false} FreshPtr(s: set<Ptr>) returns (p: Ptr)
    ensures p != NULL && forall q :: q in s ==> q < p
  {
    if s == {} {
      p := 1;
    } else {
      var q :| q in s;
      var p' := FreshPtr(s - {q});
      p := if q < p' then p' else q + 1;
      assert s == (s - {q}) + {q};
    }
  }

  lemma {:induction false} Allocated(m: Memory, m': Memory, p: Ptr, above: Ptr, t: Tree)
    requires Linked(m, p, above, t) && forall q :: q in m ==> q in m' && m'[q] == m[q]
    ensures Linked(m', p, above, t)
    decreases t
  {
    if t.Fork? {
      Allocated(m, m', m[p].left, p, t.l);
      Allocated(m, m', m[p].right, p, t.r);
    }
  }

  lemma {:induction false} Freed(m: Memory, m': Memory, p: Ptr, above: Ptr, t: Tree, q: Ptr)
    requires Linked(m, p, above, t) && q !in Inorder(t) && m' == m - {q}
    ensures Linked(m', p, above, t)
    decreases t
  {
    if t.Fork? {
      assert t.p in Inorder(t);
      Freed(m, m', m[p].left, p, t.l, q);
      Freed(m, m', m[p].right, p, t.r, q);
    }
  }
}
