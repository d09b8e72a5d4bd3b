/**
 What the multi-pattern search is to find, and when a shift of the window loses nothing.

 Bytes are integers below 256.  Matching folds upper-case letters to lower case.
 */
module AcBmSpec {
  import opened Bytes

  const PATTERN_LEN: nat := 1024
  const NULL: int := -1

  type Word = seq<Byte>

  /** `struct pattern_data`: a length and a buffer of fixed size. */
  datatype Pattern = Pattern(len: nat, data: seq<Byte>)

  predicate WellFormed(p: Pattern) {
    |p.data| == PATTERN_LEN && p.len <= PATTERN_LEN
  }

  predicate AllWellFormed(ps: seq<Pattern>) {
    forall i :: 0 <= i < |ps| ==> WellFormed(ps[i])
  }

  /** tolower, in the C locale. */
  function Lower(c: Byte): Byte {
    if 65 <= c <= 90 then c + 32 else c
  }

  function Folded(s: seq<Byte>): (w: Word)
    ensures |w| == |s| && forall i :: 0 <= i < |s| ==> w[i] == Lower(s[i])
  {
    seq(|s|, i requires 0 <= i < |s| => Lower(s[i]))
  }

  /** The word a pattern stands for. */
  function Key(p: Pattern): (w: Word)
    requires WellFormed(p)
    ensures |w| == p.len && forall i :: 0 <= i < p.len ==> w[i] == Lower(p.data[i])
  {
    Folded(p.data[..p.len])
  }

  // ---------- the naive scan ----------

  datatype Match = Match(pattern: int, offset: int)

  /** The last pattern that stands for the word `w`, `NULL` when there is none. */
  function LastOf(ps: seq<Pattern>, w: Word): (l: int)
    requires AllWellFormed(ps)
    ensures NULL <= l < |ps|
  {
    if ps == [] then NULL
    else if Key(ps[|ps| - 1]) == w then |ps| - 1
    else LastOf(ps[..|ps| - 1], w)
  }

  /** The matches at `offset` of at least `len` characters, by length. */
  function MatchesAt(ps: seq<Pattern>, text: seq<Byte>, offset: nat, len: nat): seq<Match>
    requires AllWellFormed(ps) && offset <= |text| && 0 < len
    decreases |text| - offset - len
  {
    if offset + len > |text| then [] else
      var found := LastOf(ps, Folded(text[offset..offset + len]));
      (if found == NULL then [] else [Match(found, offset)]) + MatchesAt(ps, text, offset, len + 1)
  }

  /** All matches at the offsets below `end`, from the right to the left. */
  function Matches(ps: seq<Pattern>, text: seq<Byte>, end: nat): seq<Match>
    requires AllWellFormed(ps) && end <= |text|
  {
    if end == 0 then [] else MatchesAt(ps, text, end - 1, 1) + Matches(ps, text, end - 1)
  }

  // ---------- shifts ----------

  /**
   Moving the window `i` places to the left of a mismatch in the last character of `v` could uncover
   an occurrence of `k`: what `k` and `v` share then agrees, as far as the text is known.
   */
  predicate Plausible(v: Word, k: Word, i: int) {
    && 1 <= i < |k| && |v| > 0
    && var d := |v| - 1;
       if |k| - i <= d then k[i..] == v[..|k| - i]
       else k[i..i + d] == v[..d] && k[i + d] != v[d]
  }

  /** The good-prefix shift of `v`: the least plausible one, `min` at most. */
  ghost predicate IsGoodShift(ps: seq<Pattern>, min: int, v: Word, shift: int)
    requires AllWellFormed(ps)
  {
    && 1 <= shift <= min
    && (forall j, i :: 0 <= j < |ps| && 1 <= i < shift ==> !Plausible(v, Key(ps[j]), i))
    && (shift == min || exists j :: 0 <= j < |ps| && Plausible(v, Key(ps[j]), shift))
  }

  predicate HasAt(ps: seq<Pattern>, c: Byte, i: int)
    requires AllWellFormed(ps) && 0 <= i < PATTERN_LEN
  {
    exists j :: 0 <= j < |ps| && Lower(ps[j].data[i]) == Lower(c)
  }

  /** The bad-character shift of `c`: its first place after the start of a pattern, `min` at most. */
  predicate IsBadShift(ps: seq<Pattern>, min: int, c: Byte, shift: int)
    requires AllWellFormed(ps) && 1 <= min <= PATTERN_LEN
  {
    && 1 <= shift <= min
    && (forall i :: 1 <= i < shift ==> !HasAt(ps, c, i))
    && (shift == min || HasAt(ps, c, shift))
  }

  /** The length of the shortest pattern that is not empty. */
  predicate IsMinSize(ps: seq<Pattern>, min: int) {
    && 1 <= min <= PATTERN_LEN
    && (forall j :: 0 <= j < |ps| && ps[j].len > 0 ==> min <= ps[j].len)
    && (min == PATTERN_LEN || exists j :: 0 <= j < |ps| && ps[j].len == min)
  }

  // ---------- facts ----------

  lemma {:induction false} LastOfIs(ps: seq<Pattern>, w: Word)
    requires AllWellFormed(ps)
    ensures var l := LastOf(ps, w);
            if l == NULL then forall j :: 0 <= j < |ps| ==> Key(ps[j]) != w
            else 0 <= l < |ps| && Key(ps[l]) == w && forall j :: l < j < |ps| ==> Key(ps[j]) != w
  {
    if |ps| > 0 && Key(ps[|ps| - 1]) != w {
      LastOfIs(ps[..|ps| - 1], w);
    }
  }

  /** Where no pattern occurs there is nothing to report. */
  lemma {:induction false} NothingAt(ps: seq<Pattern>, text: seq<Byte>, offset: nat, len: nat)
    requires AllWellFormed(ps) && offset <= |text| && 0 < len
    requires forall j :: 0 <= j < |ps| && len <= ps[j].len && offset + ps[j].len <= |text| ==>
             Key(ps[j]) != Folded(text[offset..offset + ps[j].len])
    ensures MatchesAt(ps, text, offset, len) == []
    decreases |text| - offset - len
  {
    if offset + len <= |text| {
      LastOfIs(ps, Folded(text[offset..offset + len]));
      NothingAt(ps, text, offset, len + 1);
    }
  }

  lemma FoldSnoc(text: seq<Byte>, base: nat, cur: nat)
    requires base <= cur < |text|
    ensures Folded(text[base..cur + 1]) == Folded(text[base..cur]) + [Lower(text[cur])]
  {
  }

  /** Where no pattern goes on as the text does, no longer match is left to report. */
  lemma StuckNothing(ps: seq<Pattern>, text: seq<Byte>, base: nat, w: Word)
    requires AllWellFormed(ps) && Stuck(ps, text, base, w)
    ensures MatchesAt(ps, text, base, |w| + 1) == []
  {
    var d := |w|;
    forall j | 0 <= j < |ps| && d + 1 <= ps[j].len && base + ps[j].len <= |text|
      ensures Key(ps[j]) != Folded(text[base..base + ps[j].len])
    {
      var k := Key(ps[j]);
      if k == Folded(text[base..base + |k|]) {
        FoldSnoc(text, base, base + d);
      }
    }
    NothingAt(ps, text, base, d + 1);
  }

  lemma {:induction false} Skip(ps: seq<Pattern>, text: seq<Byte>, from: nat, to: nat)
    requires AllWellFormed(ps) && to <= from <= |text|
    requires forall o :: to <= o < from ==> MatchesAt(ps, text, o, 1) == []
    ensures Matches(ps, text, from) == Matches(ps, text, to)
  {
    if to < from {
      Skip(ps, text, from - 1, to);
    }
  }

  /** `w` has been read at `base`, and no pattern goes on from `w` as the text does. */
  predicate Stuck(ps: seq<Pattern>, text: seq<Byte>, base: nat, w: Word)
    requires AllWellFormed(ps)
  {
    && base + |w| <= |text| && w == Folded(text[base..base + |w|])
    && (base + |w| < |text| ==> forall j :: 0 <= j < |ps| ==> !(w + [Lower(text[base + |w|])] <= Key(ps[j])))
  }

  /** An occurrence of `k` that starts `i` places before `w` makes the shift `i` plausible. */
  lemma OccurrencePlausible(text: seq<Byte>, base: nat, w: Word, c: Byte, k: Word, i: nat)
    requires base + |w| <= |text| && w == Folded(text[base..base + |w|])
    requires base + |w| < |text| ==> Lower(text[base + |w|]) != c
    requires 1 <= i < |k| && i <= base && base - i + |k| <= |text| && k == Folded(text[base - i..base - i + |k|])
    ensures Plausible(w + [c], k, i)
  {
    var d, v := |w|, w + [c];
    forall x | 0 <= x < d && i + x < |k|
      ensures k[i + x] == v[x]
    {
      assert k[i + x] == Lower(text[base + x]) == w[x];
    }
    if |k| - i <= d {
      assert k[i..] == v[..|k| - i];
    } else {
      assert k[i..i + d] == v[..d];
    }
  }

  /** No shift below the good-prefix shift of `w + [c]` uncovers a match, whichever `c` can follow `w`. */
  lemma GoodShiftSafe(ps: seq<Pattern>, text: seq<Byte>, base: nat, w: Word, c: Byte, min: int, shift: int, i: int)
    requires AllWellFormed(ps) && IsMinSize(ps, min) && Stuck(ps, text, base, w)
    requires exists j :: 0 <= j < |ps| && w + [c] <= Key(ps[j])
    requires IsGoodShift(ps, min, w + [c], shift) && 0 < i < shift && i <= base
    ensures MatchesAt(ps, text, base - i, 1) == []
  {
    var o := base - i;
    forall j | 0 <= j < |ps| && 1 <= ps[j].len && o + ps[j].len <= |text|
      ensures Key(ps[j]) != Folded(text[o..o + ps[j].len])
    {
      if Key(ps[j]) == Folded(text[o..o + ps[j].len]) {
        OccurrencePlausible(text, base, w, c, Key(ps[j]), i);
      }
    }
    NothingAt(ps, text, o, 1);
  }

  /** No shift that leaves the character after `w` left of its bad-character place uncovers a match. */
  lemma BadShiftSafe(ps: seq<Pattern>, text: seq<Byte>, base: nat, d: nat, min: int, shift: int, i: int)
    requires AllWellFormed(ps) && IsMinSize(ps, min) && base + d < |text|
    requires IsBadShift(ps, min, text[base + d], shift) && 0 < i < shift - d && i <= base
    ensures MatchesAt(ps, text, base - i, 1) == []
  {
    var o := base - i;
    forall j | 0 <= j < |ps| && 1 <= ps[j].len && o + ps[j].len <= |text|
      ensures Key(ps[j]) != Folded(text[o..o + ps[j].len])
    {
      var k := Key(ps[j]);
      assert i + d < |k|;
      assert Folded(text[o..o + |k|])[i + d] == Lower(text[base + d]);
      assert !HasAt(ps, text[base + d], i + d);
    }
    NothingAt(ps, text, o, 1);
  }

  /** No match starts where even the shortest pattern does not fit. */
  lemma TooShort(ps: seq<Pattern>, text: seq<Byte>, min: nat, from: nat)
    requires AllWellFormed(ps) && IsMinSize(ps, min) && |text| < from + min && from <= |text|
    ensures Matches(ps, text, |text|) == Matches(ps, text, from)
  {
    forall o | from <= o < |text|
      ensures MatchesAt(ps, text, o, 1) == []
    {
      NothingAt(ps, text, o, 1);
    }
    Skip(ps, text, |text|, from);
  }

  // ---------- what the naive scan lists ----------

  /** `m` reports an occurrence of length `len`, under the last of the patterns that stand for the same word. */
  predicate Occurs(ps: seq<Pattern>, text: seq<Byte>, m: Match, len: nat)
    requires AllWellFormed(ps)
  {
    && 0 <= m.offset && 0 < len && m.offset + len <= |text|
    && 0 <= m.pattern < |ps| && m.pattern == LastOf(ps, Folded(text[m.offset..m.offset + len]))
  }

  /** From right to left, and at one offset by length. */
  predicate Before(ps: seq<Pattern>, a: Match, b: Match) {
    && 0 <= a.pattern < |ps| && 0 <= b.pattern < |ps|
    && (a.offset > b.offset || (a.offset == b.offset && ps[a.pattern].len < ps[b.pattern].len))
  }

  lemma {:induction false} ListsAt(ps: seq<Pattern>, text: seq<Byte>, offset: nat, len: nat)
    requires AllWellFormed(ps) && offset <= |text| && 0 < len
    ensures var s := MatchesAt(ps, text, offset, len);
            && (forall m :: m in s <==> m.offset == offset && 0 <= m.pattern < |ps| && len <= ps[m.pattern].len &&
                                        Occurs(ps, text, m, ps[m.pattern].len))
            && (forall i, j :: 0 <= i < j < |s| ==> Before(ps, s[i], s[j]))
    decreases |text| - offset - len
  {
    if offset + len <= |text| {
      LastOfIs(ps, Folded(text[offset..offset + len]));
      ListsAt(ps, text, offset, len + 1);
    }
  }

  /** The list holds every occurrence of every pattern that is not empty exactly once, and in order. */
  lemma {:induction false} Lists(ps: seq<Pattern>, text: seq<Byte>, end: nat)
    requires AllWellFormed(ps) && end <= |text|
    ensures var s := Matches(ps, text, end);
            && (forall m :: m in s <==> 0 <= m.offset < end && 0 <= m.pattern < |ps| && Occurs(ps, text, m, ps[m.pattern].len))
            && (forall i, j :: 0 <= i < j < |s| ==> Before(ps, s[i], s[j]))
  {
    if end > 0 {
      ListsAt(ps, text, end - 1, 1);
      Lists(ps, text, end - 1);
    }
  }

  /** In particular, wherever a pattern occurs the list has a match for its word. */
  lemma NoneMissed(ps: seq<Pattern>, text: seq<Byte>, j: nat, offset: nat)
    requires AllWellFormed(ps) && j < |ps| && 0 < ps[j].len && offset + ps[j].len <= |text|
    requires Key(ps[j]) == Folded(text[offset..offset + ps[j].len])
    ensures var last := LastOf(ps, Key(ps[j]));
            j <= last < |ps| && Key(ps[last]) == Key(ps[j]) && Match(last, offset) in Matches(ps, text, |text|)
  {
    var last := LastOf(ps, Key(ps[j]));
    LastOfIs(ps, Key(ps[j]));
    assert ps[last].len == |Key(ps[last])| == ps[j].len;
    assert Occurs(ps, text, Match(last, offset), ps[last].len);
    Lists(ps, text, |text|);
  }

  // ---------- letter by letter ----------

  /** The same byte, or the upper case and the lower case of one letter. */
  predicate Twins(a: Byte, b: Byte) {
    a == b || (65 <= a <= 90 && b == a + 32) || (65 <= b <= 90 && a == b + 32)
  }

  /** The bytes of the text from `offset` on are twins of those of the pattern. */
  predicate TwinsAt(p: Pattern, text: seq<Byte>, offset: nat)
    requires WellFormed(p)
  {
    offset + p.len <= |text| && forall x :: 0 <= x < p.len ==> Twins(p.data[x], text[offset + x])
  }

  lemma TwinsFold(p: Pattern, text: seq<Byte>, offset: nat)
    requires WellFormed(p)
    ensures TwinsAt(p, text, offset) <==> offset + p.len <= |text| && Key(p) == Folded(text[offset..offset + p.len])
  {
    if offset + p.len <= |text| {
      var k, w := Key(p), Folded(text[offset..offset + p.len]);
      assert forall x :: 0 <= x < p.len ==> (k[x] == w[x] <==> Twins(p.data[x], text[offset + x]));
      assert k == w <==> forall x :: 0 <= x < p.len ==> k[x] == w[x];
    }
  }

  /** The pattern of `m` stands at its offset, and no later pattern of the same length does. */
  predicate StandsLast(ps: seq<Pattern>, text: seq<Byte>, m: Match)
    requires AllWellFormed(ps) && 0 <= m.pattern < |ps| && 0 <= m.offset
  {
    && TwinsAt(ps[m.pattern], text, m.offset)
    && forall j :: m.pattern < j < |ps| && ps[j].len == ps[m.pattern].len ==> !TwinsAt(ps[j], text, m.offset)
  }

  /**
   What is found, without folding: a match is in the list exactly when its pattern, which is not empty,
   stands there up to the case of letters, and no later pattern of the same length does.
   */
  lemma LetterByLetter(ps: seq<Pattern>, text: seq<Byte>, m: Match)
    requires AllWellFormed(ps)
    ensures m in Matches(ps, text, |text|) <==>
            0 <= m.pattern < |ps| && 0 <= m.offset && 0 < ps[m.pattern].len && StandsLast(ps, text, m)
  {
    hide Key, Folded, LastOf, Matches, StandsLast;
    Listed(ps, text, m);
    if 0 <= m.pattern < |ps| && 0 <= m.offset && 0 < ps[m.pattern].len {
      if m.offset + ps[m.pattern].len <= |text| {
        LastTwin(ps, text, m);
      } else if StandsLast(ps, text, m) {
        Inside(ps, text, m);
      }
    }
  }

  lemma Inside(ps: seq<Pattern>, text: seq<Byte>, m: Match)
    requires AllWellFormed(ps) && 0 <= m.pattern < |ps| && 0 <= m.offset && StandsLast(ps, text, m)
    ensures m.offset + ps[m.pattern].len <= |text|
  {
  }

  lemma Listed(ps: seq<Pattern>, text: seq<Byte>, m: Match)
    requires AllWellFormed(ps)
    ensures m in Matches(ps, text, |text|) <==>
            0 <= m.offset < |text| && 0 <= m.pattern < |ps| && Occurs(ps, text, m, ps[m.pattern].len)
  {
    hide Matches, Occurs, Before;
    Lists(ps, text, |text|);
  }

  lemma KeyIs(p: Pattern, text: seq<Byte>, offset: nat, w: Word)
    requires WellFormed(p) && offset + |w| <= |text| && w == Folded(text[offset..offset + |w|])
    ensures Key(p) == w <==> p.len == |w| && TwinsAt(p, text, offset)
  {
    hide Folded, TwinsAt;
    TwinsFold(p, text, offset);
  }

  lemma LastTwin(ps: seq<Pattern>, text: seq<Byte>, m: Match)
    requires AllWellFormed(ps) && 0 <= m.pattern < |ps| && 0 <= m.offset && m.offset + ps[m.pattern].len <= |text|
    ensures m.pattern == LastOf(ps, Folded(text[m.offset..m.offset + ps[m.pattern].len])) <==> StandsLast(ps, text, m)
  {
    hide Key, Folded, LastOf, TwinsAt, WellFormed, AllWellFormed;
    assert forall j :: 0 <= j < |ps| ==> WellFormed(ps[j]) by {
      EachWellFormed(ps);
    }
    var w := Folded(text[m.offset..m.offset + ps[m.pattern].len]);
    LastOfIs(ps, w);
    forall j | 0 <= j < |ps| {
      KeyIs(ps[j], text, m.offset, w);
    }
  }

  lemma EachWellFormed(ps: seq<Pattern>)
    requires AllWellFormed(ps)
    ensures forall j :: 0 <= j < |ps| ==> WellFormed(ps[j])
  {
  }

  /** Wherever a pattern stands, up to the case of letters, the list has a match of its length. */
  lemma FoundLetterByLetter(ps: seq<Pattern>, text: seq<Byte>, j: nat, offset: nat)
    requires AllWellFormed(ps) && j < |ps| && 0 < ps[j].len && TwinsAt(ps[j], text, offset)
    ensures exists last :: j <= last < |ps| && ps[last].len == ps[j].len && Match(last, offset) in Matches(ps, text, |text|)
  {
    hide Key, Folded, LastOf, Matches, TwinsAt;
    TwinsFold(ps[j], text, offset);
    NoneMissed(ps, text, j, offset);
    var last := LastOf(ps, Key(ps[j]));
    assert ps[last].len == |Key(ps[last])| == ps[j].len;
  }
}
