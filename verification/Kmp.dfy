/** Knuth-Morris-Pratt search. */
module Kmp {
  import opened Bytes

  /** A C string without its terminator, and what stands at a place up to the terminator. */
  predicate NulFree(s: seq<Byte>) {
    forall x :: 0 <= x < |s| ==> s[x] != 0
  }

  function At(s: seq<Byte>, i: nat): Byte
    requires i <= |s|
  {
    if i == |s| then 0 else s[i]
  }

  /** The first `k` bytes of `p` are the last ones of the first `i` bytes of `t`. */
  predicate Ends(p: seq<Byte>, t: seq<Byte>, i: nat, k: nat) {
    k <= |p| && k <= i <= |t| && t[i - k..i] == p[..k]
  }

  /** `k` is the length of the longest proper border of the first `n` bytes of `p`. */
  predicate LongestBorder(p: seq<Byte>, n: nat, k: nat) {
    k < n && Ends(p, p, n, k) && forall j :: k < j < n ==> !Ends(p, p, n, j)
  }

  predicate IsNext(p: seq<Byte>, next: seq<nat>, n: nat) {
    n <= |p| && n <= |next| && forall q :: 0 <= q < n ==> LongestBorder(p, q + 1, next[q])
  }

  /** The shorter of two matches is a border of the longer one, and conversely. */
  lemma Nested(p: seq<Byte>, t: seq<Byte>, i: nat, q: nat, k: nat)
    requires Ends(p, t, i, q) && k <= q
    ensures Ends(p, t, i, k) <==> Ends(p, p, q, k)
  {
    assert t[i - k..i] == t[i - q..i][q - k..];
    assert p[q - k..q] == p[..q][q - k..];
  }

  lemma Extended(p: seq<Byte>, t: seq<Byte>, i: nat, k: nat)
    requires k < |p| && k <= i < |t|
    ensures Ends(p, t, i + 1, k + 1) <==> Ends(p, t, i, k) && p[k] == t[i]
  {
    assert p[..k + 1] == p[..k] + [p[k]];
    assert t[i - k..i + 1] == t[i - k..i] + [t[i]];
    if Ends(p, t, i + 1, k + 1) {
      assert t[i - k..i + 1][k] == p[..k + 1][k];
      assert t[i - k..i] == t[i - k..i + 1][..k] == p[..k + 1][..k];
    }
  }

  /** No longer match at `i` than `k` can be continued with the byte there. */
  predicate NoneLonger(p: seq<Byte>, t: seq<Byte>, i: nat, k: nat, below: nat)
    requires i < |t| && below <= |p|
  {
    forall j :: k < j < below ==> !(Ends(p, t, i, j) && p[j] == t[i])
  }

  predicate NoneBeyond(p: seq<Byte>, t: seq<Byte>, i: nat, k: nat, last: nat) {
    forall j :: k < j <= last ==> !Ends(p, t, i, j)
  }

  /** When `q` cannot be continued, the next one to try is the longest border. */
  lemma FallBack(p: seq<Byte>, t: seq<Byte>, i: nat, q: nat, k: nat, below: nat)
    requires i < |t| && below <= |p| && Ends(p, t, i, q) && LongestBorder(p, q, k) && NoneLonger(p, t, i, q, below)
    requires q < below ==> p[q] != t[i]
    ensures Ends(p, t, i, k) && NoneLonger(p, t, i, k, below)
  {
    Nested(p, t, i, q, k);
    forall j | k < j < below ensures !(Ends(p, t, i, j) && p[j] == t[i]) {
      if j < q {
        Nested(p, t, i, q, j);
      }
    }
  }

  /** What the inner loop ends with is the longest match behind the next byte. */
  lemma Advance(p: seq<Byte>, t: seq<Byte>, i: nat, k: nat, below: nat)
    requires i < |t| && k < below <= |p| && Ends(p, t, i, k) && NoneLonger(p, t, i, k, below) && (k > 0 ==> p[k] == t[i])
    ensures var q := if p[k] == t[i] then k + 1 else k;
            Ends(p, t, i + 1, q) && NoneBeyond(p, t, i + 1, q, below)
  {
    var q := if p[k] == t[i] then k + 1 else k;
    Extended(p, t, i, k);
    assert k == 0 ==> Ends(p, t, i + 1, 0);
    var n := i + 1;
    forall j | q < j <= below ensures !Ends(p, t, n, j) {
      if Ends(p, t, n, j) {
        Extended(p, t, i, j - 1);
      }
    }
  }

  /** makeNext: the longest proper border of every prefix; and how many bytes it compares. */
  method MakeNext(P: seq<Byte>, next: array<nat>) returns (ghost compared: nat)
    requires NulFree(P) && |P| <= next.Length && next.Length > 0
    modifies next
    ensures IsNext(P, next[..], |P|)
    ensures forall x :: |P| <= x < next.Length && x > 0 ==> next[x] == old(next[x])
    ensures compared <= 3 * |P|
  {
    compared := 0;
    next[0] := 0;
    var k: nat := 0;
    var q: nat := 1;
    FirstNext(P);
    while q < |P|
      invariant 1 <= q && (|P| > 0 ==> q <= |P| && k == next[q - 1] && IsNext(P, next[..], q))
      invariant forall x :: |P| <= x < next.Length && x > 0 ==> next[x] == old(next[x])
      invariant compared + k <= 3 * (q - 1) && (P == [] ==> q == 1)
    {
      assert LongestBorder(P, q, next[..][q - 1]);
      ghost var bound := compared + k;
      while k > 0 && P[q] != P[k]
        invariant 0 <= k < q && Ends(P, P, q, k) && NoneLonger(P, P, q, k, q) && IsNext(P, next[..], q)
        invariant forall x :: |P| <= x < next.Length && x > 0 ==> next[x] == old(next[x])
        invariant compared + k <= bound
        decreases k
      {
        assert LongestBorder(P, k, next[..][k - 1]);
        FallBack(P, P, q, k, next[k - 1], q);
        k := next[k - 1];
        compared := compared + 1;
      }
      compared := compared + (if k > 0 then 1 else 0) + 1;
      Advance(P, P, q, k, q);
      if P[q] == P[k] {
        k := k + 1;
      }
      ghost var before := next[..];
      next[q] := k;
      NextGrows(P, before, next[..], q);
      q := q + 1;
    }
  }

  lemma NextGrows(p: seq<Byte>, next: seq<nat>, next': seq<nat>, q: nat)
    requires 0 < q < |p| && IsNext(p, next, q) && q < |next'| == |next| && next' == next[q := next'[q]]
    requires next'[q] <= q && Ends(p, p, q + 1, next'[q]) && NoneBeyond(p, p, q + 1, next'[q], q)
    ensures IsNext(p, next', q + 1)
  {
  }

  lemma FirstNext(p: seq<Byte>)
    ensures |p| > 0 ==> LongestBorder(p, 1, 0)
  {
  }

  // ---------- the search ----------

  predicate Occurs(p: seq<Byte>, t: seq<Byte>, s: nat) {
    s + |p| <= |t| && t[s..s + |p|] == p
  }

  /** The shifts at which the pattern occurs and ends in the first `n` bytes, in their order. */
  function Shifts(p: seq<Byte>, t: seq<Byte>, n: nat): seq<int> {
    if n == 0 then []
    else Shifts(p, t, n - 1) + if |p| <= n && Occurs(p, t, n - |p|) then [n - |p|] else []
  }

  /** The list holds every shift at which a pattern that is not empty occurs, once and in order. */
  lemma {:induction false} ShiftsComplete(p: seq<Byte>, t: seq<Byte>, n: nat, s: nat)
    requires p != [] && n <= |t|
    ensures s in Shifts(p, t, n) <==> Occurs(p, t, s) && s + |p| <= n
    ensures forall x :: 0 <= x < |Shifts(p, t, n)| ==> Shifts(p, t, n)[x] + |p| <= n
    ensures forall x, y :: 0 <= x < y < |Shifts(p, t, n)| ==> Shifts(p, t, n)[x] < Shifts(p, t, n)[y]
    decreases n
  {
    hide Occurs;
    if n > 0 {
      ShiftsComplete(p, t, n - 1, s);
    }
  }

  /** The search state: the longest prefix of the pattern that ends at `i`. */
  predicate Longest(p: seq<Byte>, t: seq<Byte>, i: nat, q: nat) {
    Ends(p, t, i, q) && NoneBeyond(p, t, i, q, |p|)
  }

  /**
   kmp: what it prints, and how many bytes it compares.  A full match is left by way of the terminator of the
   pattern, which no byte of the text equals.
   */
  method Search(T: seq<Byte>, P: seq<Byte>, next: array<nat>) returns (printed: seq<int>, ghost compared: nat)
    requires NulFree(T) && NulFree(P) && |P| <= next.Length && next.Length > 0
    modifies next
    ensures IsNext(P, next[..], |P|)
    ensures P != [] ==> printed == Shifts(P, T, |T|)
    ensures P == [] ==> printed == seq(|T|, i => i + 1)
    ensures compared <= 3 * (|P| + |T|)
  {
    compared := MakeNext(P, next);
    printed := [];
    var i: nat, q: nat := 0, 0;
    assert T[0..0] == P[..0];
    while i < |T|
      invariant i <= |T| && Longest(P, T, i, q) && IsNext(P, next[..], |P|) && compared + q <= 3 * (|P| + i)
      invariant P != [] ==> printed == Shifts(P, T, i)
      invariant P == [] ==> printed == seq(i, j => j + 1)
    {
      q, compared := Step(T, P, next, i, q, compared);
      if q == |P| {
        printed := printed + [i - |P| + 1];
      }
      EndsIsOccurs(P, T, i + 1, q);
      i := i + 1;
    }
  }

  lemma EndsIsOccurs(p: seq<Byte>, t: seq<Byte>, i: nat, q: nat)
    requires Longest(p, t, i, q)
    ensures q == |p| <==> |p| <= i && Occurs(p, t, i - |p|)
  {
    if |p| <= i && Occurs(p, t, i - |p|) {
      assert p[..|p|] == p;
      assert Ends(p, t, i, |p|);
    }
  }

  /** The body of the loop over the text, up to the report. */
  method Step(T: seq<Byte>, P: seq<Byte>, next: array<nat>, i: nat, q0: nat, ghost compared0: nat) returns (q: nat, ghost compared: nat)
    requires NulFree(T) && NulFree(P) && i < |T| && Longest(P, T, i, q0) && IsNext(P, next[..], |P|)
    ensures Longest(P, T, i + 1, q) && compared + q <= compared0 + q0 + 3
  {
    q, compared := q0, compared0;
    while q > 0 && At(P, q) != T[i]
      invariant q <= |P| && Ends(P, T, i, q) && NoneLonger(P, T, i, q, |P|) && compared + q <= compared0 + q0
      decreases q
    {
      assert LongestBorder(P, q, next[..][q - 1]);
      FallBack(P, T, i, q, next[q - 1], |P|);
      q := next[q - 1];
      compared := compared + 1;
    }
    compared := compared + (if q > 0 then 1 else 0) + 1;
    if q < |P| {
      Advance(P, T, i, q, |P|);
    }
    if At(P, q) == T[i] {
      q := q + 1;
    }
  }
}
