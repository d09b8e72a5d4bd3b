/** The printed text of a tree stays what it is when only other bytes change, and holds no terminator. */
module JsonText {
  import opened Bytes
  import opened JsonSpec
  import opened JsonRoundTrip

  /** The first `n` bytes are the same in both buffers. */
  predicate Kept(b: seq<Byte>, b': seq<Byte>, n: nat) {
    n <= |b| && n <= |b'| && forall x {:trigger b'[x]} :: 0 <= x < n ==> b'[x] == b[x]
  }

  /** No terminator from `i` to `j`. */
  predicate NoNul(b: seq<Byte>, i: nat, j: nat) {
    i <= j <= |b| && forall x :: i <= x < j ==> b[x] != 0
  }

  // ---------- what other writes leave ----------

  lemma {:induction false} TextSame(b: seq<Byte>, b': seq<Byte>, n: nat, i: nat, s: seq<Byte>)
    requires ShowsText(b, i, s) && i + TextLen(s) <= n && Kept(b, b', n)
    ensures ShowsText(b', i, s)
    decreases |s|
  {
    if s != [] {
      TextSame(b, b', n, i + EscapeLen(s[0]), s[1..]);
    }
  }

  lemma StringSame(b: seq<Byte>, b': seq<Byte>, n: nat, i: nat, s: seq<Byte>)
    requires ShowsString(b, i, s, i + StringLen(s)) && i + StringLen(s) <= n && Kept(b, b', n)
    ensures ShowsString(b', i, s, i + StringLen(s))
  {
    TextSame(b, b', n, i + 1, s);
  }

  lemma {:induction false} ValueSame(b: seq<Byte>, b': seq<Byte>, n: nat, i: nat, v: Json, format: bool, d: nat)
    requires Shows(b, i, v, format, d) && i + Len(v, format, d) <= n && Kept(b, b', n)
    ensures Shows(b', i, v, format, d)
    decreases v, 0
  {
    hide ShowsElements, ShowsMembers, ElementsLen, MembersLen, ShowsString, TextLen, AllPrintable;
    match v
    case Null =>
    case False =>
    case True =>
    case Number(t) =>
    case String(s) => StringSame(b, b', n, i, s);
    case Array(child) =>
      ElementsSame(b, b', n, i + 1, child, format, d + 1);
    case Object(child) =>
      MembersSame(b, b', n, i + Width(format), child, format, d + 1);
  }

  lemma {:induction false} ElementsSame(b: seq<Byte>, b': seq<Byte>, n: nat, i: nat, items: Items, format: bool, d: nat)
    requires ShowsElements(b, i, items, format, d) && i + ElementsLen(items, format, d) <= n && Kept(b, b', n)
    ensures ShowsElements(b', i, items, format, d)
    decreases items
  {
    if items.Item? {
      hide Shows;
      ValueSame(b, b', n, i, items.value, format, d);
      if items.next.Item? {
        ElementsSame(b, b', n, i + Len(items.value, format, d) + Width(format), items.next, format, d);
      }
    }
  }

  lemma {:induction false} MemberSame(b: seq<Byte>, b': seq<Byte>, n: nat, i: nat, key: seq<Byte>, v: Json, format: bool, d: nat)
    requires ShowsMember(b, i, key, v, format, d) && i + MemberLen(key, v, format, d) <= n && Kept(b, b', n)
    ensures ShowsMember(b', i, key, v, format, d)
    decreases v, 1
  {
    hide Shows, ShowsString;
    var k := i + Indent(format, d);
    StringSame(b, b', n, k, key);
    ValueSame(b, b', n, k + StringLen(key) + Width(format), v, format, d);
  }

  lemma EndingSame(b: seq<Byte>, b': seq<Byte>, n: nat, i: nat, next: Items, format: bool)
    requires ShowsEnding(b, i, next, format) && i + EndingLen(next, format) <= n && Kept(b, b', n)
    ensures ShowsEnding(b', i, next, format)
  {
  }

  lemma {:induction false} MembersSame(b: seq<Byte>, b': seq<Byte>, n: nat, i: nat, items: Items, format: bool, d: nat)
    requires ShowsMembers(b, i, items, format, d) && i + MembersLen(items, format, d) <= n && Kept(b, b', n)
    ensures ShowsMembers(b', i, items, format, d)
    decreases items
  {
    if items.Item? {
      hide ShowsMember, MemberLen, ShowsEnding, EndingLen;
      assert ShowsEnding(b', i + MemberLen(items.key, items.value, format, d), items.next, format) by {
        EndingSame(b, b', n, i + MemberLen(items.key, items.value, format, d), items.next, format);
      }
      var j := i + MemberLen(items.key, items.value, format, d);
      MemberSame(b, b', n, i, items.key, items.value, format, d);
      MembersSame(b, b', n, j + EndingLen(items.next, format), items.next, format, d);
    }
  }

  // ---------- no terminator inside ----------

  lemma {:induction false} TextNoNul(b: seq<Byte>, i: nat, s: seq<Byte>)
    requires ShowsText(b, i, s) && NulFree(s) && i <= |b|
    ensures NoNul(b, i, i + TextLen(s))
    decreases |s|
  {
    if s != [] {
      TextNoNul(b, i + EscapeLen(s[0]), s[1..]);
    }
  }

  lemma StringNoNul(b: seq<Byte>, i: nat, s: seq<Byte>)
    requires ShowsString(b, i, s, i + StringLen(s)) && NulFree(s)
    ensures NoNul(b, i, i + StringLen(s))
  {
    TextNoNul(b, i + 1, s);
  }

  lemma Joined(b: seq<Byte>, i: nat, j: nat, k: nat)
    requires NoNul(b, i, j) && NoNul(b, j, k)
    ensures NoNul(b, i, k)
  {
  }

  lemma NothingNoNul(b: seq<Byte>, i: nat)
    ensures i <= |b| ==> NoNul(b, i, i)
  {
  }

  lemma SignNoNul(b: seq<Byte>, i: nat, c: Byte, format: bool, pad: Byte)
    requires ShowsSign(b, i, c, format, pad) && c != 0 && pad != 0
    ensures NoNul(b, i, i + Width(format))
  {
  }

  lemma EndingNoNul(b: seq<Byte>, i: nat, next: Items, format: bool)
    requires ShowsEnding(b, i, next, format)
    ensures NoNul(b, i, i + EndingLen(next, format))
  {
  }

  lemma {:induction false} ValueNoNul(b: seq<Byte>, i: nat, v: Json, format: bool, d: nat)
    requires Shows(b, i, v, format, d) && Printable(v)
    ensures NoNul(b, i, i + Len(v, format, d))
    decreases v, 0
  {
    hide ShowsElements, ShowsMembers, ElementsLen, MembersLen, ShowsString, TextLen, AllPrintable;
    match v
    case Null =>
    case False =>
    case True =>
    case Number(t) =>
      forall x | i <= x < i + |t| ensures b[x] != 0 {
        assert b[i + (x - i)] == t[x - i];
      }
    case String(s) => StringNoNul(b, i, s);
    case Array(child) =>
      ElementsNoNul(b, i + 1, child, format, d + 1);
    case Object(child) =>
      MembersNoNul(b, i + Width(format), child, format, d + 1);
      SignNoNul(b, i, OPEN_BRACE, format, NEWLINE);
  }

  lemma {:induction false} ElementsNoNul(b: seq<Byte>, i: nat, items: Items, format: bool, d: nat)
    requires ShowsElements(b, i, items, format, d) && AllPrintable(items, false)
    ensures NoNul(b, i, i + ElementsLen(items, format, d))
    decreases items
  {
    hide Shows, Len, NoNul;
    NothingNoNul(b, i);
    if items.Item? {
      var j := i + Len(items.value, format, d);
      ValueNoNul(b, i, items.value, format, d);
      if items.next.Item? {
        SignNoNul(b, j, COMMA, format, SPACE);
        ElementsNoNul(b, j + Width(format), items.next, format, d);
        Joined(b, i, j, j + Width(format));
        Joined(b, i, j + Width(format), i + ElementsLen(items, format, d));
      }
    }
  }

  lemma {:induction false} MemberNoNul(b: seq<Byte>, i: nat, key: seq<Byte>, v: Json, format: bool, d: nat)
    requires ShowsMember(b, i, key, v, format, d) && NulFree(key) && Printable(v)
    ensures NoNul(b, i, i + MemberLen(key, v, format, d))
    decreases v, 1
  {
    hide Shows, ShowsString, Len;
    var k := i + Indent(format, d);
    var c := k + StringLen(key);
    StringNoNul(b, k, key);
    SignNoNul(b, c, COLON, format, TAB);
    ValueNoNul(b, c + Width(format), v, format, d);
  }

  lemma {:induction false} MembersNoNul(b: seq<Byte>, i: nat, items: Items, format: bool, d: nat)
    requires ShowsMembers(b, i, items, format, d) && AllPrintable(items, true)
    ensures NoNul(b, i, i + MembersLen(items, format, d))
    decreases items
  {
    NothingNoNul(b, i);
    hide ShowsMember, MemberLen, NoNul, EndingLen, ShowsEnding, Printable;
    if items.Item? {
      var j := i + MemberLen(items.key, items.value, format, d);
      MemberNoNul(b, i, items.key, items.value, format, d);
      EndingNoNul(b, j, items.next, format);
      MembersNoNul(b, j + EndingLen(items.next, format), items.next, format, d);
      Joined(b, i, j, j + EndingLen(items.next, format));
      Joined(b, i, j + EndingLen(items.next, format), i + MembersLen(items, format, d));
    }
  }
}
