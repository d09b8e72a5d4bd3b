/**
 The pattern trie, its two shift tables, and the search.

 Trie nodes live in a memory of their own and are pointed at by index; the root has index 0.  Only the
 case-insensitive mode is modelled.
 */
module AcBm {
  import opened AcBmSpec
  import opened Bytes

  const ROOT: int := 0
  const ROOT_LABEL: int := -2
  const NO_LABEL: int := -1

  datatype Node = Node(found: int, depth: nat, ch: int, shift: int, oneChild: Byte, childs: seq<int>, nchild: nat, parent: int)

  /** The words spelled by the nodes, and the node that spells each word. */
  datatype Words = Words(of: seq<Word>, at: map<Word, int>)

  function Front(w: Word): Word
    requires |w| > 0
  {
    w[..|w| - 1]
  }

  predicate Bijection(g: Words) {
    && |g.of| > 0 && g.of[0] == []
    && (forall id :: 0 <= id < |g.of| ==> g.of[id] in g.at && g.at[g.of[id]] == id)
    && (forall w :: w in g.at ==> 0 <= g.at[w] < |g.of| && g.of[g.at[w]] == w)
    && (forall w {:trigger Front(w)} :: w in g.at && |w| > 0 ==> Front(w) in g.at)
  }

  function Next(g: Words, w: Word, c: Byte): int {
    if w + [Lower(c)] in g.at then g.at[w + [Lower(c)]] else NULL
  }

  /** The links of one node: one for each letter, upper case sharing the node of lower case. */
  ghost predicate NodeOk(n: Node, g: Words, w: Word) {
    && n.depth == |w|
    && |n.childs| == 256 && (forall c: Byte :: n.childs[c] == Next(g, w, c))
    && (n.nchild > 0 ==> Lower(n.oneChild) == n.oneChild && w + [n.oneChild] in g.at)
    && (n.nchild == 0 ==> forall c: Byte :: w + [Lower(c)] !in g.at)
  }

  ghost predicate Trie(nodes: seq<Node>, g: Words) {
    && Bijection(g) && |nodes| == |g.of|
    && (forall id {:trigger nodes[id]} :: 0 <= id < |nodes| ==> NodeOk(nodes[id], g, g.of[id]))
  }

  /** The words of the trie are the beginnings of the first `n` patterns and `d` characters of the next. */
  ghost predicate Spells(g: Words, ps: seq<Pattern>, n: nat, d: nat)
    requires AllWellFormed(ps) && n <= |ps| && (d > 0 ==> n < |ps| && d <= ps[n].len)
  {
    && (forall j, e :: 0 <= j < n && 0 <= e <= ps[j].len ==> Key(ps[j])[..e] in g.at)
    && (forall e :: 0 < e <= d ==> Key(ps[n])[..e] in g.at)
    && (forall id {:trigger g.of[id]} :: 0 < id < |g.of| ==> Owned(g.of[id], ps, if d > 0 then n + 1 else n))
  }

  /** The words of the trie are the beginnings of the patterns. */
  ghost predicate Whole(g: Words, ps: seq<Pattern>)
    requires AllWellFormed(ps)
  {
    && (forall j, e :: 0 <= j < |ps| && 0 <= e <= ps[j].len ==> Key(ps[j])[..e] in g.at)
    && (forall id {:trigger g.of[id]} :: 0 < id < |g.of| ==> Owned(g.of[id], ps, |ps|))
  }

  /** `w` is a beginning of one of the first `n` patterns. */
  ghost predicate Owned(w: Word, ps: seq<Pattern>, n: nat)
    requires AllWellFormed(ps) && n <= |ps|
  {
    |w| > 0 && exists j :: 0 <= j < n && w <= Key(ps[j])
  }

  ghost predicate Labelled(nodes: seq<Node>, g: Words, ps: seq<Pattern>)
    requires AllWellFormed(ps) && |nodes| == |g.of|
  {
    forall id {:trigger nodes[id]} :: 0 <= id < |nodes| ==>
      nodes[id].found == if id == 0 then ROOT_LABEL else LastOf(ps, g.of[id])
  }

  lemma SnocInjective(u: Word, c: Byte, v: Word, d: Byte)
    requires u + [c] == v + [d]
    ensures u == v && c == d
  {
    assert u == (u + [c])[..|u|] == (v + [d])[..|v|] == v;
  }

  function Linked(childs: seq<int>, ch: Byte, id: int): seq<int>
    requires |childs| == 256
  {
    var s := childs[ch := id];
    if 97 <= ch <= 122 then s[ch - 32 := id] else s
  }

  /** A new node below `parent`, and the word it spells. */
  function Grow(g: Words, parent: int, ch: Byte): Words
    requires 0 <= parent < |g.of|
  {
    var w := g.of[parent] + [ch];
    Words(g.of + [w], g.at[w := |g.of|])
  }

  lemma GrowBijection(g: Words, parent: int, ch: Byte)
    requires Bijection(g) && 0 <= parent < |g.of| && g.of[parent] + [ch] !in g.at
    ensures Bijection(Grow(g, parent, ch))
  {
    var w := g.of[parent] + [ch];
    assert Front(w) == g.of[parent];
  }

  /** The links of a node that was there before. */
  lemma GrowOld(n: Node, g: Words, id: int, parent: int, ch: Byte)
    requires Bijection(g) && 0 <= parent < |g.of| && 0 <= id < |g.of| && NodeOk(n, g, g.of[id])
    requires Lower(ch) == ch && g.of[parent] + [ch] !in g.at
    ensures id != parent ==> NodeOk(n, Grow(g, parent, ch), g.of[id])
    ensures id == parent ==>
            NodeOk(n.(childs := Linked(n.childs, ch, |g.of|), nchild := n.nchild + 1, oneChild := ch), Grow(g, parent, ch), g.of[id])
  {
    var g', w, u := Grow(g, parent, ch), g.of[parent] + [ch], g.of[id];
    forall c: Byte
      ensures u + [Lower(c)] == w <==> id == parent && Lower(c) == ch
      ensures id != parent || Lower(c) != ch ==> Next(g', u, c) == Next(g, u, c)
    {
      if u + [Lower(c)] == w {
        SnocInjective(u, Lower(c), g.of[parent], ch);
      }
    }
  }

  /** Hanging a new node below `parent` keeps every link right. */
  lemma GrowTrie(nodes: seq<Node>, nodes': seq<Node>, g: Words, parent: int, ch: Byte, node: Node)
    requires Trie(nodes, g) && 0 <= parent < |nodes| && Lower(ch) == ch && g.of[parent] + [ch] !in g.at
    requires node.depth == |g.of[parent]| + 1 && node.childs == seq(256, _ => NULL) && node.nchild == 0
    requires nodes' == nodes[parent := nodes[parent].(childs := Linked(nodes[parent].childs, ch, |nodes|),
                                                      nchild := nodes[parent].nchild + 1, oneChild := ch)] + [node]
    ensures Trie(nodes', Grow(g, parent, ch))
  {
    var g', w := Grow(g, parent, ch), g.of[parent] + [ch];
    GrowBijection(g, parent, ch);
    forall id {:trigger nodes'[id]} | 0 <= id < |nodes'|
      ensures NodeOk(nodes'[id], g', g'.of[id])
    {
      if id < |nodes| {
        GrowOld(nodes[id], g, id, parent, ch);
      } else {
        forall c: Byte
          ensures w + [Lower(c)] !in g'.at
        {
          var u := w + [Lower(c)];
          assert Front(u) == w && |u| == |w| + 1;
        }
      }
    }
  }

  lemma GrowSpells(g: Words, ps: seq<Pattern>, n: nat, d: nat, parent: int, ch: Byte)
    requires AllWellFormed(ps) && n < |ps| && d < ps[n].len && Spells(g, ps, n, d)
    requires 0 <= parent < |g.of| && g.of[parent] + [ch] == Key(ps[n])[..d + 1]
    ensures Spells(Grow(g, parent, ch), ps, n, d + 1)
  {
    var w, g' := g.of[parent] + [ch], Grow(g, parent, ch);
    assert w <= Key(ps[n]);
    forall id {:trigger g'.of[id]} | 0 < id < |g'.of|
      ensures Owned(g'.of[id], ps, n + 1)
    {
      assert id < |g.of| ==> Owned(g.of[id], ps, if d > 0 then n + 1 else n);
    }
  }

  /** A word that is new to the trie labels none of the patterns that are in it. */
  lemma GrowLabelled(nodes: seq<Node>, nodes': seq<Node>, g: Words, ps: seq<Pattern>, n: nat, d: nat, parent: int, ch: Byte)
    requires AllWellFormed(ps) && n < |ps| && d < ps[n].len && Spells(g, ps, n, d) && |nodes| == |g.of|
    requires Labelled(nodes, g, ps[..n]) && 0 <= parent < |nodes| && g.of[parent] + [ch] !in g.at
    requires |nodes'| == |nodes| + 1 && nodes'[|nodes|].found == NO_LABEL && |nodes| > 0
    requires forall id {:trigger nodes'[id]} :: 0 <= id < |nodes| ==> nodes'[id].found == nodes[id].found
    ensures Labelled(nodes', Grow(g, parent, ch), ps[..n])
  {
    var w := g.of[parent] + [ch];
    LastOfIs(ps[..n], w);
    forall j | 0 <= j < n
      ensures Key(ps[j]) != w
    {
      assert Key(ps[j])[..ps[j].len] == Key(ps[j]);
    }
    assert forall j :: 0 <= j < n ==> ps[..n][j] == ps[j];
  }

  lemma Relabelled(nodes: seq<Node>, nodes': seq<Node>, g: Words, ps: seq<Pattern>, n: nat, node: int)
    requires AllWellFormed(ps) && n < |ps| && ps[n].len > 0 && Trie(nodes, g) && Spells(g, ps, n, ps[n].len)
    requires Labelled(nodes, g, ps[..n]) && 0 < node < |nodes| && g.of[node] == Key(ps[n])
    requires nodes' == nodes[node := nodes[node].(found := n)]
    ensures Trie(nodes', g) && Spells(g, ps, n + 1, 0) && Labelled(nodes', g, ps[..n + 1])
  {
    assert ps[..n + 1][..n] == ps[..n];
    forall id {:trigger nodes'[id]} | 0 <= id < |nodes'|
      ensures NodeOk(nodes'[id], g, g.of[id])
      ensures nodes'[id].found == if id == 0 then ROOT_LABEL else LastOf(ps[..n + 1], g.of[id])
    {
      assert NodeOk(nodes[id], g, g.of[id]);
      assert nodes[id].found == if id == 0 then ROOT_LABEL else LastOf(ps[..n], g.of[id]);
    }
  }

  lemma EmptyPattern(nodes: seq<Node>, g: Words, ps: seq<Pattern>, n: nat)
    requires AllWellFormed(ps) && n < |ps| && ps[n].len == 0 && Trie(nodes, g) && Spells(g, ps, n, 0)
    requires Labelled(nodes, g, ps[..n])
    ensures Spells(g, ps, n + 1, 0) && Labelled(nodes, g, ps[..n + 1])
  {
    assert ps[..n + 1][..n] == ps[..n];
    assert Key(ps[n])[..0] == [] == g.of[0];
    forall id {:trigger nodes[id]} | 0 <= id < |nodes|
      ensures nodes[id].found == if id == 0 then ROOT_LABEL else LastOf(ps[..n + 1], g.of[id])
    {
      assert id > 0 ==> Owned(g.of[id], ps, n);
    }
  }

  lemma MinStep(ps: seq<Pattern>, i: nat, min: int)
    requires AllWellFormed(ps) && i < |ps|
    requires exists min0 :: IsMinSize(ps[..i], min0) && min == if 0 < ps[i].len < min0 then ps[i].len else min0
    ensures IsMinSize(ps[..i + 1], min)
  {
    var min0 :| IsMinSize(ps[..i], min0) && min == if 0 < ps[i].len < min0 then ps[i].len else min0;
    var s := ps[..i + 1];
    assert s == ps[..i] + [ps[i]];
    if min != PATTERN_LEN {
      if min == ps[i].len {
        assert s[i].len == min;
      } else {
        var j :| 0 <= j < i && ps[..i][j].len == min;
        assert s[j].len == min;
      }
    }
  }

  class PatternTree {
    var nodes: seq<Node>
    var maxDepth: int
    var minSize: int
    const badShift: array<int>
    var patterns: seq<Pattern>
    ghost var words: Words

    constructor ()
      ensures badShift.Length == 256 && fresh(badShift) && nodes == []
    {
      nodes, maxDepth, minSize, patterns := [], 0, 0, [];
      badShift := new int[256];
      words := Words([], map[]);
    }

    /** The trie of all the patterns. */
    ghost predicate Complete()
      reads this
    {
      && AllWellFormed(patterns) && IsMinSize(patterns, minSize) && badShift.Length == 256
      && Trie(nodes, words) && Labelled(nodes, words, patterns) && Whole(words, patterns)
    }

    /** What the builder keeps: the first `n` patterns are in, and `d` characters of pattern `n`. */
    ghost predicate Built(ps: seq<Pattern>, n: nat, d: nat)
      reads this
    {
      && AllWellFormed(ps) && n <= |ps| && (d > 0 ==> n < |ps| && d <= ps[n].len)
      && Trie(nodes, words) && Spells(words, ps, n, d) && Labelled(nodes, words, ps[..n])
    }

    /** One new node: character `d` of pattern `n` below `parent`. */
    method AddNode(ps: seq<Pattern>, n: nat, d: nat, parent: int) returns (node: int)
      requires Built(ps, n, d) && n < |ps| && d < ps[n].len && 0 <= parent < |nodes|
      requires words.of[parent] == Key(ps[n])[..d] && Key(ps[n])[..d + 1] !in words.at
      modifies this`nodes, this`words
      ensures Built(ps, n, d + 1) && 0 < node < |nodes| && words.of[node] == Key(ps[n])[..d + 1]
      ensures d + 1 < ps[n].len ==> Key(ps[n])[..d + 2] !in words.at
    {
      var ch := Lower(ps[n].data[d]);
      assert Key(ps[n])[..d] + [ch] == Key(ps[n])[..d + 1];
      node := |nodes|;
      var n0 := nodes;
      var cell := Node(NO_LABEL, d + 1, ch, 0, 0, seq(256, _ => NULL), 0, parent);
      nodes := nodes[parent := nodes[parent].(childs := Linked(nodes[parent].childs, ch, node),
                                              nchild := nodes[parent].nchild + 1, oneChild := ch)] + [cell];
      GrowTrie(n0, nodes, words, parent, ch, cell);
      GrowSpells(words, ps, n, d, parent, ch);
      GrowLabelled(n0, nodes, words, ps, n, d, parent, ch);
      if d + 1 < ps[n].len {
        assert Front(Key(ps[n])[..d + 2]) == Key(ps[n])[..d + 1];
      }
      words := Grow(words, parent, ch);
    }

    /** How far pattern `n` is in the trie already. */
    method FindBranch(ps: seq<Pattern>, n: nat) returns (parent: int, d: nat)
      requires Built(ps, n, 0) && n < |ps|
      ensures d <= ps[n].len && Built(ps, n, d) && 0 <= parent < |nodes| && words.of[parent] == Key(ps[n])[..d]
      ensures d < ps[n].len ==> Key(ps[n])[..d + 1] !in words.at
    {
      ghost var key := Key(ps[n]);
      parent, d := ROOT, 0;
      while d < ps[n].len
        invariant d <= ps[n].len && 0 <= parent < |nodes| && words.of[parent] == key[..d]
        invariant forall e :: 0 < e <= d ==> key[..e] in words.at
      {
        var ch := Lower(ps[n].data[d]);
        assert key[..d] + [ch] == key[..d + 1];
        assert NodeOk(nodes[parent], words, words.of[parent]);
        if nodes[parent].childs[ch] == NULL {
          return;
        }
        parent := nodes[parent].childs[ch];
        d := d + 1;
      }
    }

    /** Pattern `n` as a branch: what is there of it, and then new nodes; the last one gets the label. */
    method AddPattern(ps: seq<Pattern>, n: nat)
      requires Built(ps, n, 0) && n < |ps|
      modifies this`nodes, this`words
      ensures Built(ps, n + 1, 0)
    {
      if ps[n].len == 0 {
        EmptyPattern(nodes, words, ps, n);
        return;
      }
      ghost var key := Key(ps[n]);
      var parent, d := FindBranch(ps, n);
      while d < ps[n].len
        invariant d <= ps[n].len && 0 <= parent < |nodes| && Built(ps, n, d) && words.of[parent] == key[..d]
        invariant d < ps[n].len ==> key[..d + 1] !in words.at
      {
        parent := AddNode(ps, n, d, parent);
        d := d + 1;
      }
      assert key[..d] == key;
      ghost var n0 := nodes;
      nodes := nodes[parent := nodes[parent].(found := n)];
      Relabelled(n0, nodes, words, ps, n, parent);
    }

    /** The root, which spells the empty word. */
    method Plant()
      modifies this`nodes, this`words
      ensures Built([], 0, 0)
    {
      nodes := [Node(ROOT_LABEL, 0, 0, 0, 0, seq(256, _ => NULL), 0, NULL)];
      words := Words([[]], map[[] := 0]);
    }

    method Build(ps: seq<Pattern>)
      requires AllWellFormed(ps) && badShift.Length == 256
      modifies this
      ensures Complete() && patterns == ps
    {
      Plant();
      var maxLen, minLen := 0, PATTERN_LEN;
      assert ps[..0] == [];
      for i := 0 to |ps|
        invariant Built(ps, i, 0) && IsMinSize(ps[..i], minLen)
      {
        var len := if ps[i].len > PATTERN_LEN then PATTERN_LEN else ps[i].len;
        if len > 0 {
          if len > maxLen {
            maxLen := len;
          }
          if len < minLen {
            minLen := len;
          }
        }
        AddPattern(ps, i);
        MinStep(ps, i, minLen);
      }
      patterns, maxDepth, minSize := ps, maxLen, minLen;
      assert ps[..|ps|] == ps;
    }

    // ---------- bad characters ----------

    method ComputeBadShifts()
      requires AllWellFormed(patterns) && 1 <= minSize <= PATTERN_LEN && badShift.Length == 256
      modifies badShift
      ensures forall c: Byte :: IsBadShift(patterns, minSize, c, badShift[c])
    {
      for c := 0 to 256
        invariant forall b :: 0 <= b < c ==> badShift[b] == minSize
      {
        badShift[c] := minSize;
      }
      var i := minSize - 1;
      while i > 0
        invariant 0 <= i < minSize
        invariant forall c: Byte :: BadFrom(patterns, minSize, c, badShift[c], i + 1)
      {
        for j := 0 to |patterns|
          invariant forall c: Byte :: BadStep(patterns, minSize, c, badShift[c], i, j)
        {
          var ch := Lower(patterns[j].data[i]);
          badShift[ch] := i;
          if 97 <= ch <= 122 {
            badShift[ch - 32] := i;
          }
        }
        i := i - 1;
      }
    }

    // ---------- good prefixes ----------

    lemma Shape()
      requires Complete()
      ensures Bijection(words) && |nodes| == |words.of| > 0 && words.of[ROOT] == []
      ensures forall id :: 0 <= id < |nodes| ==> |nodes[id].childs| == 256
    {
      forall id | 0 <= id < |nodes|
        ensures |nodes[id].childs| == 256
      {
        assert NodeOk(nodes[id], words, words.of[id]);
      }
    }

    lemma RootLabel(id: int)
      requires Complete() && 0 <= id < |nodes|
      ensures nodes[id].found == ROOT_LABEL <==> id == 0
    {
      assert nodes[id].found == nodes[id].found;
    }

    /** _init_GSshifts: every node below `id` gets the shift, but for the root. */
    method InitShifts(id: int, shift: int)
      requires Complete() && 0 <= id < |nodes|
      modifies this`nodes
      ensures Complete() && SameButShift(old(nodes), nodes)
      ensures Filled(old(nodes), nodes, words, words.of[id], 256, shift)
      decreases PATTERN_LEN - |words.of[id]|, 1
    {
      hide Trie, Labelled, Whole, IsMinSize, Filled;
      Shape();
      ghost var n0, w := nodes, words.of[id];
      LongestWord(words, patterns, id);
      RootLabel(id);
      if nodes[id].found != ROOT_LABEL {
        nodes := nodes[id := nodes[id].(shift := shift)];
      }
      ShiftsChanged(n0, nodes, words, patterns);
      FilledOne(n0, nodes, words, id, shift);
      for i := 0 to 256
        invariant Complete() && SameButShift(n0, nodes) && Filled(n0, nodes, words, w, i, shift)
      {
        ghost var n1 := nodes;
        InitChild(id, i, shift);
        FilledStep(n0, n1, nodes, words, patterns, w, i, shift);
      }
    }

    /** Upper-case links are skipped: they lead where those of lower case lead. */
    method InitChild(id: int, i: Byte, shift: int)
      requires Complete() && 0 <= id < |nodes| && |words.of[id]| <= PATTERN_LEN
      modifies this`nodes
      ensures Complete() && SameButShift(old(nodes), nodes)
      ensures var w := words.of[id] + [i];
              if Lower(i) == i && w in words.at then Filled(old(nodes), nodes, words, w, 256, shift) else nodes == old(nodes)
      decreases PATTERN_LEN - |words.of[id]|, 0
    {
      assert NodeOk(nodes[id], words, words.of[id]);
      if !(65 <= i <= 90) {
        if nodes[id].childs[i] != NULL {
          LongestWord(words, patterns, nodes[id].childs[i]);
          InitShifts(nodes[id].childs[i], shift);
        }
      }
    }

    /** set_GSshift: lowers the shift of the node `depth` characters down the pattern. */
    method SetShift(pat: seq<Byte>, depth: nat, shift: int) returns (err: int)
      requires Complete() && depth <= |pat|
      modifies this`nodes
      ensures var w := Folded(pat[..depth]);
              if w in words.at then err == 0 && nodes == WithShift(old(nodes), words, w, shift)
              else err == -1 && nodes == old(nodes)
    {
      ghost var w := Folded(pat[..depth]);
      var node := ROOT;
      assert Folded(pat[..0]) == [];
      for i := 0 to depth
        invariant 0 <= node < |nodes| && words.of[node] == Folded(pat[..i])
      {
        assert NodeOk(nodes[node], words, words.of[node]);
        assert words.of[node] + [Lower(pat[i])] == Folded(pat[..i + 1]) == w[..i + 1];
        if nodes[node].childs[pat[i]] == NULL {
          if w in words.at {
            PrefixIn(words, w, i + 1);
          }
          return -1;
        }
        node := nodes[node].childs[pat[i]];
      }
      nodes := nodes[node := nodes[node].(shift := if nodes[node].shift < shift then nodes[node].shift else shift)];
      err := 0;
    }

    /** What the tables are worth while the shifts go down. */
    ghost predicate Lowering()
      reads this
    {
      Complete() && ShiftsSound(nodes, words, patterns, minSize)
    }

    /** `SetShift` on a beginning of pattern `a`, by a shift that pattern `b` makes plausible. */
    method LowerShift(a: nat, depth: nat, shift: int, ghost b: nat)
      requires Lowering() && a < |patterns| && b < |patterns| && 1 <= depth <= patterns[a].len && 1 <= shift
      requires shift < minSize ==> Fits(Key(patterns[a]), depth, Key(patterns[b]), shift)
      modifies this`nodes
      ensures Lowering() && Lowered(old(nodes), nodes)
      ensures DepthShift(nodes, words, Key(patterns[a]), depth) <= shift
    {
      ghost var w, n0 := Key(patterns[a])[..depth], nodes;
      assert Folded(patterns[a].data[..depth]) == w;
      var err := SetShift(patterns[a].data, depth, shift);
      ShiftsChanged(n0, nodes, words, patterns);
      forall id {:trigger nodes[id]} | 0 < id < |nodes|
        ensures SoundShift(patterns, minSize, words.of[id], nodes[id].shift)
      {
        assert SoundShift(patterns, minSize, words.of[id], n0[id].shift);
      }
    }

    /** The run of first characters that pattern `b` goes on with: the shift of the first node of pattern `a`. */
    method FirstShift(a: nat, b: nat)
      requires Lowering() && a < |patterns| && b < |patterns| && patterns[a].len > 0 && patterns[b].len > 0
      modifies this`nodes
      ensures Lowering() && Lowered(old(nodes), nodes)
      ensures PairDone(nodes, words, Key(patterns[a]), Key(patterns[b]), 1)
    {
      hide Trie, Labelled, Whole, ShiftsSound, Lowered;
      ghost var k1, k2 := Key(patterns[a]), Key(patterns[b]);
      var first := Lower(patterns[a].data[0]);
      var i := 1;
      while i < patterns[b].len && Lower(patterns[b].data[i]) == first
        invariant 1 <= i <= patterns[b].len && forall x :: 1 <= x < i ==> k2[x] == first
      {
        i := i + 1;
      }
      assert k1[..1] == [first];
      LowerShift(a, 1, i, b);
    }

    /** How many characters pattern `b` has from place `i` on in common with pattern `a`. */
    method CommonLength(a: nat, b: nat, i: nat) returns (at1: nat)
      requires AllWellFormed(patterns) && a < |patterns| && b < |patterns| && i <= patterns[b].len
      ensures var k1, k2 := Key(patterns[a]), Key(patterns[b]);
              && at1 <= |k1| && i + at1 <= |k2| && (forall x :: 0 <= x < at1 ==> k2[i + x] == k1[x])
              && (at1 == |k1| || i + at1 == |k2| || k1[at1] != k2[i + at1])
    {
      var at2 := i;
      at1 := 0;
      while at2 < patterns[b].len && at1 < patterns[a].len
        invariant at1 <= patterns[a].len && at2 == i + at1 <= patterns[b].len
        invariant forall x :: 0 <= x < at1 ==> Key(patterns[b])[i + x] == Key(patterns[a])[x]
      {
        if Lower(patterns[a].data[at1]) != Lower(patterns[b].data[at2]) {
          break;
        }
        at1 := at1 + 1;
        at2 := at2 + 1;
      }
    }

    /** Lowers the shifts along pattern `a` for the place `i` of pattern `b`, where its first character is. */
    method CompareAt(a: nat, b: nat, i: nat)
      requires Lowering() && a < |patterns| && b < |patterns| && patterns[a].len > 0 && 1 <= i < patterns[b].len
      requires Key(patterns[b])[i] == Key(patterns[a])[0]
      requires PairDone(nodes, words, Key(patterns[a]), Key(patterns[b]), i)
      modifies this`nodes
      ensures Lowering() && Lowered(old(nodes), nodes)
      ensures PairDone(nodes, words, Key(patterns[a]), Key(patterns[b]), i + 1)
    {
      hide Trie, Labelled, Whole, ShiftsSound, IsMinSize, Fits, DepthShift, PairDone;
      var len1, len2 := patterns[a].len, patterns[b].len;
      ghost var k1, k2, n0 := Key(patterns[a]), Key(patterns[b]), nodes;
      var at1 := CommonLength(a, b, i);
      var at2 := i + at1;
      if at1 == len1 {
      } else if at2 == len2 {
        forall d | at1 < d <= |k1|
          ensures Fits(k1, d, k2, i)
        {
          Compared(k1, k2, i, at1, d);
        }
        LowerTail(a, b, i, at1, k1, k2);
      } else {
        Compared(k1, k2, i, at1, at1 + 1);
        LowerShift(a, at1 + 1, i, b);
      }
      PairCompared(n0, nodes, words, k1, k2, i, at1);
    }

    method LowerTail(a: nat, b: nat, i: nat, from: nat, ghost k1: Word, ghost k2: Word)
      requires Lowering() && a < |patterns| && b < |patterns| && 1 <= i && from <= patterns[a].len
      requires k1 == Key(patterns[a]) && k2 == Key(patterns[b])
      requires forall d {:trigger Fits(k1, d, k2, i)} :: from < d <= |k1| ==> Fits(k1, d, k2, i)
      modifies this`nodes
      ensures Lowering() && Lowered(old(nodes), nodes)
      ensures Bounded(nodes, words, k1, i, from, |k1|)
    {
      ghost var n0 := nodes;
      for j := from to patterns[a].len
        invariant Lowering() && Lowered(n0, nodes)
        invariant Bounded(nodes, words, k1, i, from, j)
      {
        ghost var n1 := nodes;
        LowerShift(a, j + 1, i, b);
        BoundedNext(n1, nodes, words, k1, i, from, j);
      }
    }

    /** The next place where pattern `b` has the character `first`. */
    method NextPlace(b: nat, first: Byte, i0: nat) returns (i: nat)
      requires AllWellFormed(patterns) && b < |patterns| && i0 <= patterns[b].len
      ensures i0 <= i <= patterns[b].len && (i < patterns[b].len ==> Key(patterns[b])[i] == first)
      ensures forall x :: i0 <= x < i ==> Key(patterns[b])[x] != first
    {
      i := i0;
      while i < patterns[b].len && Lower(patterns[b].data[i]) != first
        invariant i0 <= i <= patterns[b].len && forall x :: i0 <= x < i ==> Key(patterns[b])[x] != first
      {
        i := i + 1;
      }
    }

    lemma ShiftsBounded(a: nat)
      requires Lowering() && a < |patterns|
      ensures forall d :: 1 <= d <= patterns[a].len ==> DepthShift(nodes, words, Key(patterns[a]), d) <= minSize
    {
      forall d | 1 <= d <= patterns[a].len
        ensures DepthShift(nodes, words, Key(patterns[a]), d) <= minSize
      {
        var id := words.at[Key(patterns[a])[..d]];
        assert words.of[id] != [] && SoundShift(patterns, minSize, words.of[id], nodes[id].shift);
      }
    }

    /** compute_GSshift */
    method ComputeShift(a: nat, b: nat)
      requires Lowering() && a < |patterns| && b < |patterns|
      modifies this`nodes
      ensures Lowering() && Lowered(old(nodes), nodes)
      ensures PairDone(nodes, words, Key(patterns[a]), Key(patterns[b]), |Key(patterns[b])|)
    {
      var len1, len2 := patterns[a].len, patterns[b].len;
      ghost var k1, k2 := Key(patterns[a]), Key(patterns[b]);
      if len1 == 0 || len2 == 0 {
        return;
      }
      var first := Lower(patterns[a].data[0]);
      FirstShift(a, b);
      var i := 1;
      while true
        invariant 1 <= i <= len2 && Lowering() && Lowered(old(nodes), nodes)
        invariant PairDone(nodes, words, k1, k2, i)
        decreases len2 - i
      {
        var i0 := i;
        i := NextPlace(b, first, i0);
        FirstDiffers(k1, k2, i0, i);
        if i == len2 {
          break;
        }
        // past the least pattern size no shift can matter
        if i > minSize {
          ShiftsBounded(a);
          break;
        }
        CompareAt(a, b, i);
        i := i + 1;
      }
    }

    /** ACtree_compute_GSshifts: every pattern against every pattern. */
    method ComputeGoodShifts()
      requires Lowering()
      modifies this`nodes
      ensures Complete() && GoodShifts(nodes, words, patterns, minSize)
    {
      for a := 0 to |patterns|
        invariant Lowering() && DoneBefore(nodes, words, patterns, a, 0)
      {
        for b := 0 to |patterns|
          invariant Lowering() && DoneBefore(nodes, words, patterns, a, b)
        {
          ghost var n0 := nodes;
          ComputeShift(a, b);
          DoneLowered(n0, nodes, words, patterns, a, b);
        }
      }
      AllDone(nodes, words, patterns, minSize);
    }

    /** acbm_init */
    method Init(ps: seq<Pattern>)
      requires AllWellFormed(ps) && badShift.Length == 256
      modifies this, badShift
      ensures Ready() && patterns == ps
    {
      Build(ps);
      ComputeBadShifts();
      ghost var n0 := nodes;
      InitShifts(ROOT, minSize);
      assert forall id {:trigger nodes[id]} :: 0 < id < |nodes| ==> words.of[ROOT] <= words.of[id] && nodes[id].shift == minSize;
      ComputeGoodShifts();
    }

    /** Both shift tables are exact. */
    ghost predicate Ready()
      reads this, badShift
    {
      && Complete() && GoodShifts(nodes, words, patterns, minSize)
      && forall c: Byte :: IsBadShift(patterns, minSize, c, badShift[c])
    }

    // ---------- the search ----------

    /** The matches at `base`, as long as there is room: the trie is walked along the text. */
    method ScanAt(text: seq<Byte>, base: nat, items: array<Match>, n0: nat, nmax: nat)
      returns (n: nat, node: int, cur: nat)
      requires Ready() && base < |text| && n0 < nmax <= items.Length
      modifies items
      ensures var all := old(items[..n0]) + MatchesAt(patterns, text, base, 1);
              if |all| < nmax then n == |all| && items[..n] == all else n == nmax && items[..n] == all[..nmax]
      ensures n < nmax ==> base <= cur <= |text| && 0 <= node < |nodes| && words.of[node] == Folded(text[base..cur])
      ensures n < nmax ==> Stuck(patterns, text, base, words.of[node])
    {
      hide Trie, Labelled, Whole, GoodShifts, IsBadShift, IsMinSize, Stuck, MatchesAt;
      Shape();
      n, node, cur := n0, ROOT, base;
      ghost var all := items[..n0] + MatchesAt(patterns, text, base, 1);
      assert Folded(text[base..base]) == [];
      while NextNode(text, node, cur) != NULL
        invariant base <= cur < |text| && 0 <= node < |nodes| && words.of[node] == Folded(text[base..cur])
        invariant n0 <= n < nmax && items[..n] + MatchesAt(patterns, text, base, cur - base + 1) == all
        decreases |text| - cur
      {
        node, n := Visit(text, base, node, cur, items, n);
        cur := cur + 1;
        if n == nmax {
          return;
        }
        if cur >= |text| {
          break;
        }
      }
      EndOfWalk(text, base, node, cur);
    }

    lemma EndOfWalk(text: seq<Byte>, base: nat, node: int, cur: nat)
      requires Complete() && base <= cur <= |text| && 0 <= node < |nodes| && words.of[node] == Folded(text[base..cur])
      requires cur < |text| ==> NextNode(text, node, cur) == NULL
      ensures Stuck(patterns, text, base, words.of[node]) && MatchesAt(patterns, text, base, cur - base + 1) == []
    {
      var w := words.of[node];
      if cur < |text| {
        NoWord(words, patterns, w + [Lower(text[cur])]);
      }
      assert Stuck(patterns, text, base, w);
      StuckNothing(patterns, text, base, w);
    }

    /** One step down the trie, with the report it may give. */
    method Visit(text: seq<Byte>, base: nat, node0: int, cur: nat, items: array<Match>, n0: nat) returns (node: int, n: nat)
      requires Complete() && base <= cur < |text| && 0 <= node0 < |nodes| && words.of[node0] == Folded(text[base..cur])
      requires NextNode(text, node0, cur) != NULL && n0 < items.Length
      modifies items
      ensures 0 <= node < |nodes| && words.of[node] == Folded(text[base..cur + 1])
      ensures var here := MatchesAt(patterns, text, base, cur - base + 1); var more := MatchesAt(patterns, text, base, cur - base + 2);
              n0 <= n <= n0 + 1 && items[..n] + more == old(items[..n0]) + here
    {
      node, n := NextNode(text, node0, cur), n0;
      FoldSnoc(text, base, cur);
      assert nodes[node].found == LastOf(patterns, words.of[node]);
      if nodes[node].found >= 0 {
        items[n] := Match(nodes[node].found, base);
        n := n + 1;
      }
    }

    /** The link that the walk follows next. */
    function NextNode(text: seq<Byte>, node: int, cur: nat): (id: int)
      requires Complete() && cur < |text| && 0 <= node < |nodes|
      reads this
      ensures id == Next(words, words.of[node], text[cur])
      ensures id != NULL ==> 0 < id < |nodes| && words.of[id] == words.of[node] + [Lower(text[cur])]
      ensures id == NULL <==> words.of[node] + [Lower(text[cur])] !in words.at
    {
      assert NodeOk(nodes[node], words, words.of[node]);
      nodes[node].childs[text[cur]]
    }

    /** The child that a shift is taken from. */
    lemma OneChild(node: int)
      requires Ready() && 0 <= node < |nodes| && nodes[node].nchild > 0
      ensures |nodes[node].childs| == 256
      ensures var c := nodes[node].oneChild; var child := nodes[node].childs[c];
              && 0 < child < |nodes| && words.of[child] == words.of[node] + [c]
              && IsGoodShift(patterns, minSize, words.of[child], nodes[child].shift)
              && exists j :: 0 <= j < |patterns| && words.of[node] + [c] <= Key(patterns[j])
    {
      hide IsGoodShift, IsBadShift, IsMinSize;
      assert NodeOk(nodes[node], words, words.of[node]);
      var child := nodes[node].childs[nodes[node].oneChild];
      assert words.of[child] == words.of[node] + [nodes[node].oneChild];
      assert Owned(words.of[child], patterns, |patterns|);
    }

    lemma Positive(shift: int, v: Word)
      requires AllWellFormed(patterns) && IsGoodShift(patterns, minSize, v, shift)
      ensures 1 <= shift
    {
    }

    /** How far the window may move after the walk from `base` has ended at `node`. */
    method Shift(text: seq<Byte>, base: nat, node: int, cur: nat) returns (shift: int)
      requires Ready() && base < |text| && base <= cur <= |text| && 0 <= node < |nodes|
      requires words.of[node] == Folded(text[base..cur]) && Stuck(patterns, text, base, words.of[node])
      ensures 1 <= shift && forall o :: 0 <= o < base && base - shift < o ==> MatchesAt(patterns, text, o, 1) == []
    {
      hide Trie, Labelled, Whole, GoodShifts, IsMinSize, IsGoodShift, IsBadShift, Stuck, MatchesAt;
      Shape();
      if nodes[node].nchild > 0 {
        OneChild(node);
        ghost var c := nodes[node].oneChild;
        var child := nodes[node].childs[nodes[node].oneChild];
        var goodShift := nodes[child].shift;
        var badShift := if cur < |text| then badShift[text[cur]] + base - cur else 1;
        shift := if goodShift > badShift then goodShift else badShift;
        Positive(goodShift, words.of[child]);
        forall o | 0 <= o < base && base - shift < o
          ensures MatchesAt(patterns, text, o, 1) == []
        {
          if base - o < goodShift {
            GoodShiftSafe(patterns, text, base, words.of[node], c, minSize, goodShift, base - o);
          } else {
            BadShiftSafe(patterns, text, base, cur - base, minSize, this.badShift[text[cur]], base - o);
          }
        }
      } else {
        shift := 1;
      }
    }

    /** acbm_search_ex: the first `nmax` matches, the rightmost first. */
    method Search(text: seq<Byte>, items: array<Match>, nmax: nat) returns (n: nat)
      requires Ready() && 0 < nmax <= items.Length
      modifies items
      ensures var all := Matches(patterns, text, |text|);
              if |all| < nmax then n == |all| && items[..n] == all else n == nmax && items[..n] == all[..nmax]
    {
      n := 0;
      ghost var all := Matches(patterns, text, |text|);
      if |text| < minSize {
        TooShort(patterns, text, minSize, 0);
        return;
      }
      var base := |text| - minSize;
      TooShort(patterns, text, minSize, base + 1);
      while base >= 0
        invariant base < |text| && n < nmax
        invariant items[..n] + Matches(patterns, text, if base < 0 then 0 else base + 1) == all
        decreases base
      {
        n, base := Check(text, base, items, n, nmax);
        if n == nmax {
          return;
        }
      }
    }

    /** One position of the window: what is found there, and the next position. */
    method Check(text: seq<Byte>, base: nat, items: array<Match>, n0: nat, nmax: nat) returns (n: nat, base': int)
      requires Ready() && base < |text| && n0 < nmax <= items.Length
      modifies items
      ensures n0 <= n <= nmax && base' <= base
      ensures var all := old(items[..n0]) + Matches(patterns, text, base + 1);
              if n < nmax then base' < base && items[..n] + Matches(patterns, text, if base' < 0 then 0 else base' + 1) == all
              else nmax <= |all| && items[..nmax] == all[..nmax]
    {
      ghost var here, rest, before := MatchesAt(patterns, text, base, 1), Matches(patterns, text, base), items[..n0];
      assert before + Matches(patterns, text, base + 1) == before + here + rest;
      var node, cur;
      n, node, cur := ScanAt(text, base, items, n0, nmax);
      if n == nmax {
        return n, base;
      }
      var shift := Shift(text, base, node, cur);
      base' := base - shift;
      Skip(patterns, text, base, if base' < 0 then 0 else base' + 1);
    }
  }

  lemma NoWord(g: Words, ps: seq<Pattern>, u: Word)
    requires AllWellFormed(ps) && Whole(g, ps)
    ensures u !in g.at ==> forall j :: 0 <= j < |ps| ==> !(u <= Key(ps[j]))
  {
    forall j | 0 <= j < |ps| && u <= Key(ps[j])
      ensures u in g.at
    {
      assert Key(ps[j])[..|u|] == u;
    }
  }

  /** The pairs of patterns before `(a, b)` have been compared. */
  ghost predicate DoneBefore(nodes: seq<Node>, g: Words, ps: seq<Pattern>, a: nat, b: nat)
    requires AllWellFormed(ps)
  {
    forall i, j {:trigger ps[i], ps[j]} :: 0 <= i < |ps| && 0 <= j < |ps| && (i < a || (i == a && j < b)) ==>
      PairDone(nodes, g, Key(ps[i]), Key(ps[j]), |Key(ps[j])|)
  }

  lemma DoneLowered(nodes: seq<Node>, nodes': seq<Node>, g: Words, ps: seq<Pattern>, a: nat, b: nat)
    requires AllWellFormed(ps) && a < |ps| && b < |ps| && Lowered(nodes, nodes') && DoneBefore(nodes, g, ps, a, b)
    requires PairDone(nodes', g, Key(ps[a]), Key(ps[b]), |Key(ps[b])|)
    ensures DoneBefore(nodes', g, ps, a, b + 1)
  {
    forall i, j {:trigger ps[i], ps[j]} | 0 <= i < |ps| && 0 <= j < |ps| && (i < a || (i == a && j < b))
      ensures PairDone(nodes', g, Key(ps[i]), Key(ps[j]), |Key(ps[j])|)
    {
      PairLowered(nodes, nodes', g, Key(ps[i]), Key(ps[j]), |Key(ps[j])|);
    }
  }

  ghost predicate GoodShifts(nodes: seq<Node>, g: Words, ps: seq<Pattern>, min: int)
    requires AllWellFormed(ps) && |nodes| == |g.of|
  {
    forall id {:trigger nodes[id]} :: 0 < id < |nodes| ==> IsGoodShift(ps, min, g.of[id], nodes[id].shift)
  }

  lemma AllDone(nodes: seq<Node>, g: Words, ps: seq<Pattern>, min: int)
    requires AllWellFormed(ps) && Trie(nodes, g) && Whole(g, ps) && ShiftsSound(nodes, g, ps, min)
    requires DoneBefore(nodes, g, ps, |ps|, 0)
    ensures GoodShifts(nodes, g, ps, min)
  {
    forall id {:trigger nodes[id]} | 0 < id < |nodes|
      ensures IsGoodShift(ps, min, g.of[id], nodes[id].shift)
    {
      var v := g.of[id];
      assert SoundShift(ps, min, v, nodes[id].shift) && Owned(v, ps, |ps|);
      var a :| 0 <= a < |ps| && v <= Key(ps[a]);
      forall j, x | 0 <= j < |ps| && 1 <= x < nodes[id].shift
        ensures !Plausible(v, Key(ps[j]), x)
      {
        assert PairDone(nodes, g, Key(ps[a]), Key(ps[j]), |Key(ps[j])|);
        assert Key(ps[a])[..|v|] == v;
        assert !Fits(Key(ps[a]), |v|, Key(ps[j]), x);
      }
    }
  }

  /** Pattern word `k2` makes the shift `x` plausible after `d` characters of `k1`. */
  predicate Fits(k1: Word, d: nat, k2: Word, x: int)
    requires d <= |k1|
  {
    Plausible(k1[..d], k2, x)
  }

  function DepthShift(nodes: seq<Node>, g: Words, k1: Word, d: nat): int
    requires d <= |k1|
  {
    ShiftAt(nodes, g, k1[..d])
  }

  /** Along `k1` no shift is above one below `i` that `k2` makes plausible; at its first node, none at all. */
  ghost predicate PairDone(nodes: seq<Node>, g: Words, k1: Word, k2: Word, i: int) {
    forall d, x {:trigger Fits(k1, d, k2, x)} :: 1 <= d <= |k1| && 1 <= x < (if d == 1 then |k2| else i) && Fits(k1, d, k2, x) ==>
      DepthShift(nodes, g, k1, d) <= x
  }

  /** The shifts between depths `from` and `to` of `k1` are `i` at most. */
  ghost predicate Bounded(nodes: seq<Node>, g: Words, k1: Word, i: int, from: nat, to: nat)
    requires to <= |k1|
  {
    forall d :: from < d <= to ==> DepthShift(nodes, g, k1, d) <= i
  }

  lemma BoundedNext(nodes: seq<Node>, nodes': seq<Node>, g: Words, k1: Word, i: int, from: nat, to: nat)
    requires Lowered(nodes, nodes') && to < |k1| && Bounded(nodes, g, k1, i, from, to)
    requires DepthShift(nodes', g, k1, to + 1) <= i
    ensures Bounded(nodes', g, k1, i, from, to + 1)
  {
    forall d | from < d <= to
      ensures DepthShift(nodes', g, k1, d) <= i
    {
      assert DepthShift(nodes, g, k1, d) <= i;
    }
  }

  /** Lowering the shifts at the depths a comparison has reached takes care of its place. */
  lemma PairCompared(n0: seq<Node>, nodes: seq<Node>, g: Words, k1: Word, k2: Word, i: nat, p: nat)
    requires Lowered(n0, nodes) && PairDone(n0, g, k1, k2, i)
    requires 1 <= i < |k2| && p <= |k1| && i + p <= |k2| && forall x :: 0 <= x < p ==> k2[i + x] == k1[x]
    requires p == |k1| || i + p == |k2| || k1[p] != k2[i + p]
    requires i + p == |k2| ==> Bounded(nodes, g, k1, i, p, |k1|)
    requires i + p < |k2| && p < |k1| ==> DepthShift(nodes, g, k1, p + 1) <= i
    ensures PairDone(nodes, g, k1, k2, i + 1)
  {
    PairLowered(n0, nodes, g, k1, k2, i);
    forall d | 1 <= d <= |k1| && Fits(k1, d, k2, i)
      ensures DepthShift(nodes, g, k1, d) <= i
    {
      Compared(k1, k2, i, p, d);
    }
    PairNext(nodes, g, k1, k2, i);
  }

  lemma PairNext(nodes: seq<Node>, g: Words, k1: Word, k2: Word, i: int)
    requires PairDone(nodes, g, k1, k2, i) && 1 <= i < |k2|
    requires forall d {:trigger Fits(k1, d, k2, i)} :: 1 <= d <= |k1| && Fits(k1, d, k2, i) ==> DepthShift(nodes, g, k1, d) <= i
    ensures PairDone(nodes, g, k1, k2, i + 1)
  {
    forall d, x {:trigger Fits(k1, d, k2, x)} | 1 <= d <= |k1| && 1 <= x < (if d == 1 then |k2| else i + 1) && Fits(k1, d, k2, x)
      ensures DepthShift(nodes, g, k1, d) <= x
    {
    }
  }

  lemma PairLowered(nodes: seq<Node>, nodes': seq<Node>, g: Words, k1: Word, k2: Word, i: int)
    requires Lowered(nodes, nodes') && PairDone(nodes, g, k1, k2, i)
    ensures PairDone(nodes', g, k1, k2, i)
  {
    forall d, x {:trigger Fits(k1, d, k2, x)} | 1 <= d <= |k1| && 1 <= x < (if d == 1 then |k2| else i) && Fits(k1, d, k2, x)
      ensures DepthShift(nodes', g, k1, d) <= x
    {
      assert DepthShift(nodes, g, k1, d) <= x;
    }
  }

  /** What a comparison from place `i` of `k2` says, when it ends after `p` characters. */
  lemma Compared(k1: Word, k2: Word, i: nat, p: nat, d: nat)
    requires 1 <= i < |k2| && p <= |k1| && i + p <= |k2| && forall x :: 0 <= x < p ==> k2[i + x] == k1[x]
    requires p == |k1| || i + p == |k2| || k1[p] != k2[i + p]
    requires 1 <= d <= |k1|
    ensures Fits(k1, d, k2, i) <==> Reached(|k1|, |k2|, i, p, d)
  {
    var v, n := k1[..d], |k2| - i;
    if n <= d - 1 {
      assert k2[i..] == v[..n] ==> forall x :: 0 <= x < n ==> k2[i..][x] == v[..n][x];
      if p == n {
        assert k2[i..] == v[..n];
      }
    } else {
      assert k2[i..i + d - 1] == v[..d - 1] ==> forall x :: 0 <= x < d - 1 ==> k2[i..i + d - 1][x] == v[x];
      if p == d - 1 {
        assert k2[i..i + d - 1] == v[..d - 1];
      }
    }
  }

  /** The depths at which a comparison that ends after `p` characters lowers shifts. */
  predicate Reached(len1: nat, len2: nat, i: nat, p: nat, d: nat) {
    (i + p == len2 && p < d) || (i + p < len2 && p < len1 && d == p + 1)
  }

  /** Only where `k2` has the first character of `k1` can longer beginnings of `k1` matter. */
  lemma FirstDiffers(k1: Word, k2: Word, i: nat, to: nat)
    requires 1 <= i <= to <= |k2| && |k1| > 0 && forall x :: i <= x < to ==> k2[x] != k1[0]
    ensures forall d, x {:trigger Fits(k1, d, k2, x)} :: 2 <= d <= |k1| && i <= x < to ==> !Fits(k1, d, k2, x)
  {
    forall d, x {:trigger Fits(k1, d, k2, x)} | 2 <= d <= |k1| && i <= x < to
      ensures !Fits(k1, d, k2, x)
    {
      Compared(k1, k2, x, 0, d);
    }
  }

  function WithShift(nodes: seq<Node>, g: Words, w: Word, shift: int): seq<Node>
    requires Bijection(g) && |nodes| == |g.of| && w in g.at
  {
    var id := g.at[w];
    nodes[id := nodes[id].(shift := if nodes[id].shift < shift then nodes[id].shift else shift)]
  }

  function ShiftAt(nodes: seq<Node>, g: Words, w: Word): int {
    if w in g.at && 0 <= g.at[w] < |nodes| then nodes[g.at[w]].shift else 0
  }

  /** A shift is no less than one that some pattern makes plausible. */
  ghost predicate SoundShift(ps: seq<Pattern>, min: int, v: Word, shift: int)
    requires AllWellFormed(ps)
  {
    1 <= shift <= min && (shift == min || exists j :: 0 <= j < |ps| && Plausible(v, Key(ps[j]), shift))
  }

  ghost predicate ShiftsSound(nodes: seq<Node>, g: Words, ps: seq<Pattern>, min: int)
    requires AllWellFormed(ps) && |nodes| == |g.of|
  {
    forall id {:trigger nodes[id]} :: 0 < id < |nodes| ==> SoundShift(ps, min, g.of[id], nodes[id].shift)
  }

  predicate Lowered(nodes: seq<Node>, nodes': seq<Node>) {
    |nodes'| == |nodes| && forall id {:trigger nodes'[id]} :: 0 <= id < |nodes| ==> nodes'[id].shift <= nodes[id].shift
  }

  lemma {:induction false} PrefixIn(g: Words, w: Word, d: nat)
    requires Bijection(g) && w in g.at && d <= |w|
    ensures w[..d] in g.at
  {
    if d < |w| {
      PrefixIn(g, Front(w), d);
      assert Front(w)[..d] == w[..d];
    } else {
      assert w[..d] == w;
    }
  }

  /** The nodes of the words in `Below(w, _, c)` have the shift, the root apart, and the others keep theirs. */
  ghost predicate Filled(n0: seq<Node>, nodes: seq<Node>, g: Words, w: Word, c: int, shift: int) {
    |nodes| == |n0| == |g.of| && forall j {:trigger g.of[j]} :: 0 <= j < |g.of| ==>
      nodes[j].shift == if j != 0 && Below(w, g.of[j], c) then shift else n0[j].shift
  }

  lemma LongestWord(g: Words, ps: seq<Pattern>, id: int)
    requires AllWellFormed(ps) && Whole(g, ps) && Bijection(g) && 0 <= id < |g.of|
    ensures |g.of[id]| <= PATTERN_LEN
  {
    assert id > 0 ==> Owned(g.of[id], ps, |ps|);
  }

  lemma FilledStep(n0: seq<Node>, n1: seq<Node>, n2: seq<Node>, g: Words, ps: seq<Pattern>, w: Word, i: Byte, shift: int)
    requires AllWellFormed(ps) && Whole(g, ps) && Bijection(g)
    requires Filled(n0, n1, g, w, i, shift)
    requires if Lower(i) == i && w + [i] in g.at then Filled(n1, n2, g, w + [i], 256, shift) else n1 == n2
    ensures Filled(n0, n2, g, w, i + 1, shift)
  {
    BelowSteps(g, ps, w, i);
    forall j {:trigger g.of[j]} | 0 <= j < |g.of|
      ensures n2[j].shift == if j != 0 && Below(w, g.of[j], i + 1) then shift else n0[j].shift
    {
      var u := g.of[j];
      assert Below(w + [i], u, 256) <==> w + [i] <= u;
    }
  }

  lemma FilledOne(n0: seq<Node>, nodes: seq<Node>, g: Words, id: int, shift: int)
    requires Bijection(g) && |n0| == |g.of| && 0 <= id < |g.of|
    requires nodes == if id == 0 then n0 else n0[id := n0[id].(shift := shift)]
    ensures Filled(n0, nodes, g, g.of[id], 0, shift)
  {
    OneNode(g, id);
  }

  lemma OneNode(g: Words, id: int)
    requires Bijection(g) && 0 <= id < |g.of|
    ensures forall j {:trigger g.of[j]} :: 0 <= j < |g.of| && Below(g.of[id], g.of[j], 0) ==> j == id
  {
    forall j {:trigger g.of[j]} | 0 <= j < |g.of| && g.of[id] == g.of[j]
      ensures j == id
    {
      assert g.at[g.of[j]] == j;
    }
  }

  /** `u` is `w` itself, or goes on from `w` with a character below `c`. */
  predicate Below(w: Word, u: Word, c: int) {
    w == u || (w < u && u[|w|] < c)
  }

  predicate SameButShift(nodes: seq<Node>, nodes': seq<Node>) {
    |nodes'| == |nodes| &&
    forall id {:trigger nodes'[id]} :: 0 <= id < |nodes| ==> nodes'[id] == nodes[id].(shift := nodes'[id].shift)
  }

  /** Neither links nor labels depend on the shifts. */
  lemma ShiftsChanged(nodes: seq<Node>, nodes': seq<Node>, g: Words, ps: seq<Pattern>)
    requires AllWellFormed(ps) && Trie(nodes, g) && Labelled(nodes, g, ps) && SameButShift(nodes, nodes')
    ensures Trie(nodes', g) && Labelled(nodes', g, ps)
  {
    forall id {:trigger nodes'[id]} | 0 <= id < |nodes'|
      ensures NodeOk(nodes'[id], g, g.of[id])
      ensures nodes'[id].found == if id == 0 then ROOT_LABEL else LastOf(ps, g.of[id])
    {
      assert NodeOk(nodes[id], g, g.of[id]) && nodes[id].found == nodes'[id].found;
    }
  }

  /** Places of `c` at `from` and after it, and the least of them. */
  predicate BadFrom(ps: seq<Pattern>, min: int, c: Byte, shift: int, from: int)
    requires AllWellFormed(ps) && 1 <= from <= min <= PATTERN_LEN
  {
    && from <= shift <= min
    && (forall i :: from <= i < shift ==> !HasAt(ps, c, i))
    && (shift == min || HasAt(ps, c, shift))
  }

  /** `BadFrom`, when the first `n` patterns have been asked about place `i`. */
  predicate BadStep(ps: seq<Pattern>, min: int, c: Byte, shift: int, i: int, n: nat)
    requires AllWellFormed(ps) && 1 <= i < min <= PATTERN_LEN && n <= |ps|
  {
    if exists j :: 0 <= j < n && Lower(ps[j].data[i]) == Lower(c) then shift == i
    else BadFrom(ps, min, c, shift, i + 1)
  }

  /** The words of the trie below `w` whose next character is `i`. */
  lemma BelowSteps(g: Words, ps: seq<Pattern>, w: Word, i: Byte)
    requires AllWellFormed(ps) && Whole(g, ps) && Bijection(g)
    ensures forall j {:trigger g.of[j]} :: 0 < j < |g.of| ==>
              && (Below(w, g.of[j], i + 1) <==> Below(w, g.of[j], i) || w + [i] <= g.of[j])
              && (w + [i] <= g.of[j] ==> Lower(i) == i && w + [i] in g.at)
  {
    forall j {:trigger g.of[j]} | 0 < j < |g.of|
      ensures Below(w, g.of[j], i + 1) <==> Below(w, g.of[j], i) || w + [i] <= g.of[j]
      ensures w + [i] <= g.of[j] ==> Lower(i) == i && w + [i] in g.at
    {
      var u := g.of[j];
      assert Owned(u, ps, |ps|);
      if w + [i] <= u {
        var p :| 0 <= p < |ps| && u <= Key(ps[p]);
        assert Key(ps[p])[..|w| + 1] == w + [i];
        assert (w + [i])[|w|] == i == u[|w|] == Key(ps[p])[|w|];
      }
    }
  }
}
