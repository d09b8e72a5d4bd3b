/** Formatted text is minified to the unformatted text of the same tree. */
module JsonFormatted {
  import opened Bytes
  import opened JsonSpec
  import opened JsonNumbers
  import opened JsonRoundTrip
  import opened JsonText
  import opened JsonMinify
  import opened JsonMinified

  // ---------- what is copied and what is left out ----------

  lemma {:induction false} CopyRun(b: seq<Byte>, i: nat, n: nat, m: seq<Byte>, j: nat)
    requires CString(b) && i + n < |b| && (forall x :: i <= x < i + n ==> Solid(b[x]))
    requires Copied(b, i, i + n, m, j) && MinifiesTo(b, i + n, m, j + n)
    ensures MinifiesTo(b, i, m, j)
    decreases n
  {
    if n > 0 {
      CopiedFrom(b, i, i + n, m, j, i + 1);
      CopiedPart(b, i, i + n, m, j, i, i + 1);
      CopyRun(b, i + 1, n - 1, m, j + 1);
    }
  }

  /** White space of section 2 of RFC 8259. */
  predicate Space(c: Byte) {
    c == ' ' as int || c == '\t' as int || c == '\n' as int || c == '\r' as int
  }

  lemma {:induction false} LeaveRun(b: seq<Byte>, i: nat, n: nat, m: seq<Byte>, j: nat)
    requires CString(b) && i + n < |b| && (forall x :: i <= x < i + n ==> Space(b[x])) && MinifiesTo(b, i + n, m, j)
    ensures MinifiesTo(b, i, m, j)
    decreases n
  {
    if n > 0 {
      LeaveRun(b, i + 1, n - 1, m, j);
    }
  }

  lemma CopyOne(b: seq<Byte>, i: nat, m: seq<Byte>, j: nat)
    requires CString(b) && i + 1 < |b| && Solid(b[i]) && j < |m| && m[j] == b[i] && MinifiesTo(b, i + 1, m, j + 1)
    ensures MinifiesTo(b, i, m, j)
  {
  }

  /** A byte is written alike everywhere. */
  lemma SameByte(b: seq<Byte>, p: nat, m: seq<Byte>, q: nat, c: Byte)
    requires ShowsByte(b, p, c) && ShowsByte(m, q, c)
    ensures Copied(b, p, p + EscapeLen(c), m, q)
  {
  }

  lemma CopiedJoin(b: seq<Byte>, i: nat, k: nat, next: nat, m: seq<Byte>, j: nat)
    requires Copied(b, i, k, m, j) && Copied(b, k, next, m, j + (k - i))
    ensures Copied(b, i, next, m, j)
  {
    forall x {:trigger b[x]} | i <= x < next
      ensures m[j + (x - i)] == b[x]
    {
      if x >= k {
        assert m[j + (k - i) + (x - k)] == b[x];
      }
    }
  }

  lemma {:induction false} SameText(b: seq<Byte>, p: nat, m: seq<Byte>, q: nat, s: seq<Byte>)
    requires ShowsText(b, p, s) && ShowsText(m, q, s) && p + TextLen(s) <= |b| && q + TextLen(s) <= |m|
    ensures Copied(b, p, p + TextLen(s), m, q)
    decreases |s|
  {
    hide Copied, ShowsByte, EscapeLen;
    if s == [] {
      NothingCopied(b, p, m, q);
    } else {
      var k := p + EscapeLen(s[0]);
      SameByte(b, p, m, q, s[0]);
      SameText(b, k, m, q + EscapeLen(s[0]), s[1..]);
      CopiedJoin(b, p, k, p + TextLen(s), m, q);
    }
  }

  lemma CopyText(b: seq<Byte>, i: nat, m: seq<Byte>, j: nat, s: seq<Byte>)
    requires CString(b) && ShowsString(b, i, s, i + StringLen(s)) && ShowsString(m, j, s, j + StringLen(s))
    requires i + StringLen(s) < |b| && MinifiesTo(b, i + StringLen(s), m, j + StringLen(s))
    ensures MinifiesTo(b, i, m, j)
  {
    hide ShowsText, TextLen, Unescape;
    var e := i + 1 + TextLen(s);
    TextBack(b, i + 1, s);
    SameText(b, i + 1, m, j + 1, s);
    CopiedJoin(b, i, i + 1, e, m, j);
    CopiedJoin(b, i, e, e + 1, m, j);
  }

  // ---------- trees ----------

  lemma CopyToken(b: seq<Byte>, i: nat, m: seq<Byte>, j: nat, t: seq<Byte>)
    requires CString(b) && IsToken(t) && ShowsToken(b, i, t) && ShowsToken(m, j, t)
    requires i + |t| < |b| && MinifiesTo(b, i + |t|, m, j + |t|)
    ensures MinifiesTo(b, i, m, j)
  {
    hide IsToken, MinifiesTo;
    TokenChars(t);
    forall x {:trigger b[x]} | i <= x < i + |t|
      ensures m[j + (x - i)] == b[x] && Solid(b[x])
    {
      assert b[i + (x - i)] == t[x - i] == m[j + (x - i)];
    }
    CopyRun(b, i, |t|, m, j);
  }

  lemma CopyWord(b: seq<Byte>, i: nat, n: nat, m: seq<Byte>, j: nat)
    requires CString(b) && i + n < |b| && MinifiesTo(b, i + n, m, j + n)
    requires (IsNull(b, i) && IsNull(m, j) && n == 4) || (IsFalse(b, i) && IsFalse(m, j) && n == 5) || (IsTrue(b, i) && IsTrue(m, j) && n == 4)
    ensures MinifiesTo(b, i, m, j)
  {
    hide MinifiesTo;
    CopyRun(b, i, n, m, j);
  }

  lemma LeafMinifies(b: seq<Byte>, i: nat, m: seq<Byte>, j: nat, v: Json, d: nat)
    requires CString(b) && Printable(v) && !v.Array? && !v.Object? && Shows(b, i, v, true, d) && Shows(m, j, v, false, d)
    requires i + Len(v, true, d) < |b| && MinifiesTo(b, i + Len(v, true, d), m, j + Len(v, false, d))
    ensures MinifiesTo(b, i, m, j)
  {
    hide MinifiesTo, ShowsElements, ShowsMembers, ElementsLen, MembersLen, AllPrintable, ShowsString, ShowsToken, IsToken, TextLen;
    match v
    case Null => CopyWord(b, i, 4, m, j);
    case False => CopyWord(b, i, 5, m, j);
    case True => CopyWord(b, i, 4, m, j);
    case Number(t) => CopyToken(b, i, m, j, t);
    case String(s) => CopyText(b, i, m, j, s);
  }

  lemma {:induction false} ValueMinifies(b: seq<Byte>, i: nat, m: seq<Byte>, j: nat, v: Json, d: nat)
    requires CString(b) && Printable(v) && Shows(b, i, v, true, d) && Shows(m, j, v, false, d)
    requires i + Len(v, true, d) < |b| && MinifiesTo(b, i + Len(v, true, d), m, j + Len(v, false, d))
    ensures MinifiesTo(b, i, m, j)
    decreases v, 1
  {
    hide MinifiesTo, Shows, Len, Printable;
    match v
    case Array(child) => ArrayMinifies(b, i, m, j, child, d);
    case Object(child) => ObjectMinifies(b, i, m, j, child, d);
    case _ => LeafMinifies(b, i, m, j, v, d);
  }

  lemma {:induction false} ArrayMinifies(b: seq<Byte>, i: nat, m: seq<Byte>, j: nat, child: Items, d: nat)
    requires CString(b) && Printable(Array(child)) && Shows(b, i, Array(child), true, d) && Shows(m, j, Array(child), false, d)
    requires var v := Array(child); i + Len(v, true, d) < |b| && MinifiesTo(b, i + Len(v, true, d), m, j + Len(v, false, d))
    ensures MinifiesTo(b, i, m, j)
    decreases child, 1
  {
    hide MinifiesTo, ShowsElements, ElementsLen, AllPrintable;
    var e, e' := i + 1 + ElementsLen(child, true, d + 1), j + 1 + ElementsLen(child, false, d + 1);
    CopyOne(b, e, m, e');
    ElementsMinify(b, i + 1, m, j + 1, child, d + 1);
    CopyOne(b, i, m, j);
  }

  lemma {:induction false} ObjectMinifies(b: seq<Byte>, i: nat, m: seq<Byte>, j: nat, child: Items, d: nat)
    requires CString(b) && Printable(Object(child)) && Shows(b, i, Object(child), true, d) && Shows(m, j, Object(child), false, d)
    requires var v := Object(child); i + Len(v, true, d) < |b| && MinifiesTo(b, i + Len(v, true, d), m, j + Len(v, false, d))
    ensures MinifiesTo(b, i, m, j)
    decreases child, 1
  {
    hide MinifiesTo, ShowsMembers, MembersLen, AllPrintable;
    var e, e' := i + 2 + MembersLen(child, true, d + 1), j + 1 + MembersLen(child, false, d + 1);
    CopyOne(b, e + d, m, e');
    LeaveRun(b, e, d, m, e');
    MembersMinify(b, i + 2, m, j + 1, child, d + 1);
    LeaveRun(b, i + 1, 1, m, j + 1);
    CopyOne(b, i, m, j);
  }

  lemma {:induction false} ElementsMinify(b: seq<Byte>, i: nat, m: seq<Byte>, j: nat, items: Items, d: nat)
    requires CString(b) && AllPrintable(items, false) && ShowsElements(b, i, items, true, d) && ShowsElements(m, j, items, false, d)
    requires i + ElementsLen(items, true, d) < |b|
    requires MinifiesTo(b, i + ElementsLen(items, true, d), m, j + ElementsLen(items, false, d))
    ensures MinifiesTo(b, i, m, j)
    decreases items, 0
  {
    hide MinifiesTo, Shows, Len, Printable;
    if items.Item? {
      var e, e' := i + Len(items.value, true, d), j + Len(items.value, false, d);
      if items.next.Item? {
        ElementsMinify(b, e + 2, m, e' + 1, items.next, d);
        LeaveRun(b, e + 1, 1, m, e' + 1);
        CopyOne(b, e, m, e');
      }
      ValueMinifies(b, i, m, j, items.value, d);
    }
  }

  lemma {:induction false} MembersMinify(b: seq<Byte>, i: nat, m: seq<Byte>, j: nat, items: Items, d: nat)
    requires CString(b) && AllPrintable(items, true) && ShowsMembers(b, i, items, true, d) && ShowsMembers(m, j, items, false, d)
    requires i + MembersLen(items, true, d) < |b|
    requires MinifiesTo(b, i + MembersLen(items, true, d), m, j + MembersLen(items, false, d))
    ensures MinifiesTo(b, i, m, j)
    decreases items, 0
  {
    hide MinifiesTo, ShowsMember, MemberLen, Printable;
    if items.Item? {
      var e, e' := i + MemberLen(items.key, items.value, true, d), j + MemberLen(items.key, items.value, false, d);
      if items.next.Item? {
        MembersMinify(b, e + 2, m, e' + 1, items.next, d);
        LeaveRun(b, e + 1, 1, m, e' + 1);
        CopyOne(b, e, m, e');
      } else {
        LeaveRun(b, e, 1, m, e');
      }
      MemberMinifies(b, i, m, j, items.key, items.value, d);
    }
  }

  lemma {:induction false} MemberMinifies(b: seq<Byte>, i: nat, m: seq<Byte>, j: nat, key: seq<Byte>, v: Json, d: nat)
    requires CString(b) && Printable(v) && ShowsMember(b, i, key, v, true, d) && ShowsMember(m, j, key, v, false, d)
    requires i + MemberLen(key, v, true, d) < |b|
    requires MinifiesTo(b, i + MemberLen(key, v, true, d), m, j + MemberLen(key, v, false, d))
    ensures MinifiesTo(b, i, m, j)
    decreases v, 2
  {
    hide MinifiesTo, Shows, Len, ShowsString, TextLen, Printable;
    var k := i + d;
    var c, c' := k + StringLen(key), j + StringLen(key);
    ValueMinifies(b, c + 2, m, c' + 1, v, d);
    LeaveRun(b, c + 1, 1, m, c' + 1);
    CopyOne(b, c, m, c');
    CopyText(b, k, m, j, key);
    LeaveRun(b, i, d, m, j);
  }

  /** What is left of a text is determined by it. */
  lemma {:induction false} OneResult(b: seq<Byte>, i: nat, m: seq<Byte>, m': seq<Byte>, j: nat)
    requires CString(b) && i < |b| && MinifiesTo(b, i, m, j) && MinifiesTo(b, i, m', j)
    ensures |m'| == |m| && forall x :: j <= x < |m| ==> m'[x] == m[x]
    decreases |b| - i
  {
    match MoveAt(b, i)
    case Stop =>
    case Leave(next) => OneResult(b, next, m, m', j);
    case Copy(next) =>
      OneResult(b, next, m, m', j + (next - i));
      forall x | j <= x < j + (next - i)
        ensures m'[x] == m[x]
      {
        assert m[j + ((i + (x - j)) - i)] == b[i + (x - j)] == m'[j + ((i + (x - j)) - i)];
      }
  }

  /** Minifying what cJSON_Print writes for a tree gives what cJSON_PrintUnformatted writes for it, and nothing else. */
  lemma FormattedMinifies(s: seq<Byte>, u: seq<Byte>, v: Json, m: seq<Byte>)
    requires NulFree(s) && Printable(v)
    requires Shows(s + [0], 0, v, true, 0) && |s| == Len(v, true, 0)
    requires Shows(u + [0], 0, v, false, 0) && |u| == Len(v, false, 0)
    ensures CString(s + [0]) && (MinifiesTo(s + [0], 0, m, 0) <==> m == u + [0])
  {
    hide Shows, Len, Printable, MinifiesTo;
    StopHere(s + [0], |s|, u + [0], |u|);
    ValueMinifies(s + [0], 0, u + [0], 0, v, 0);
    if MinifiesTo(s + [0], 0, m, 0) {
      OneResult(s + [0], 0, m, u + [0], 0);
    }
  }
}
