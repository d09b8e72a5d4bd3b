/** Printing a tree and parsing the text gives the tree back. */
module JsonRoundTrip {
  import opened Bytes
  import opened JsonSpec
  import opened JsonNumbers

  /** A number as print_number writes it, which fits the number buffer. */
  ghost predicate IsToken(t: seq<Byte>) {
    IsNumber(t) && |t| <= 25
  }

  lemma TokenChars(t: seq<Byte>)
    requires IsToken(t)
    ensures 0 < |t| <= 25 && (t[0] == MINUS || Digit(t[0])) && forall x :: 0 <= x < |t| ==> NumberChar(t[x])
  {
    NumberChars(t);
  }

  /** The trees in scope: C strings without inner terminators, and names in objects only. */
  ghost predicate Printable(v: Json) {
    match v
    case Number(t) => IsToken(t)
    case String(s) => NulFree(s)
    case Array(child) => AllPrintable(child, false)
    case Object(child) => AllPrintable(child, true)
    case _ => true
  }

  ghost predicate AllPrintable(items: Items, keyed: bool) {
    match items
    case End => true
    case Item(key, v, next) => (if keyed then NulFree(key) else key == []) && Printable(v) && AllPrintable(next, keyed)
  }

  function Nesting(v: Json): nat {
    match v
    case Array(child) => 1 + ItemsNesting(child)
    case Object(child) => 1 + ItemsNesting(child)
    case _ => 0
  }

  function ItemsNesting(items: Items): nat {
    match items
    case End => 0
    case Item(_, v, next) => if Nesting(v) < ItemsNesting(next) then ItemsNesting(next) else Nesting(v)
  }

  // ---------- white space ----------

  lemma {:induction false} SkipOver(b: seq<Byte>, i: nat, n: nat)
    requires CString(b) && i + n < |b| && forall x :: i <= x < i + n ==> b[x] <= 32
    ensures Skip(b, i) == Skip(b, i + n) && (b[i + n] > 32 ==> Skip(b, i) == i + n)
    decreases n
  {
    if n > 0 {
      SkipOver(b, i + 1, n - 1);
    }
  }

  // ---------- numbers ----------

  lemma NumberBack(b: seq<Byte>, i: nat, t: seq<Byte>)
    requires CString(b) && IsToken(t) && ShowsToken(b, i, t) && i + |t| < |b| && !NumberChar(b[i + |t|])
    ensures ParseNumber(b, i) == Ok(Number(t), i + |t|)
  {
    assert forall x :: 0 <= x < |t| ==> b[i..i + |t|][x] == b[i + x] == t[x];
    assert b[i..i + |t|] == t;
    NumberRead(b, i, t);
  }

  // ---------- strings ----------

  lemma HexBack(n: nat)
    requires n < 16
    ensures HexDigit(HexChar(n)) == Some(n)
  {
  }

  /** One escaped byte: the first pass steps over it, and the second reads it back. */
  lemma EscapeByteBack(b: seq<Byte>, p: nat, c: Byte, end: nat)
    requires ShowsByte(b, p, c) && p + EscapeLen(c) <= end < |b|
    ensures StringEnd(b, p) == StringEnd(b, p + EscapeLen(c))
    ensures Unescape(b, p, end) == Prepend([c], Unescape(b, p + EscapeLen(c), end))
  {
    if EscapeLen(c) == 6 {
      HexBack(c / 16);
      HexBack(c % 16);
      assert IsHex(b, p + 2) && Hex4(b, p + 2) == c;
      assert StringEnd(b, p + 2) == StringEnd(b, p + 3) == StringEnd(b, p + 4) == StringEnd(b, p + 5) == StringEnd(b, p + 6);
    }
  }

  lemma {:induction false} TextBack(b: seq<Byte>, p: nat, s: seq<Byte>)
    requires ShowsText(b, p, s) && p + TextLen(s) < |b| && b[p + TextLen(s)] == QUOTE
    ensures var end := p + TextLen(s); StringEnd(b, p) == Some(end) && Unescape(b, p, end) == Some(s)
    decreases |s|
  {
    if s != [] {
      var c, rest := s[0], s[1..];
      assert s == [c] + rest;
      TextBack(b, p + EscapeLen(c), rest);
      EscapeByteBack(b, p, c, p + TextLen(s));
    }
  }

  lemma StringBack(b: seq<Byte>, i: nat, s: seq<Byte>, j: nat)
    requires CString(b) && i < |b| && ShowsString(b, i, s, j)
    ensures b[i] == QUOTE && ParseString(b, i) == Ok(s, j)
  {
    TextBack(b, i + 1, s);
  }

  // ---------- trees ----------

  // What one step of each parsing function does, with everything else put aside.

  lemma ContainerStep(b: seq<Byte>, i: nat, depth: nat, keyed: bool, items: Items, end: nat)
    requires CString(b) && i + 1 < |b| && b[i] == (if keyed then OPEN_BRACE else OPEN_BRACKET) && depth < NESTING_LIMIT
    requires end < |b| && b[end] == if keyed then CLOSE_BRACE else CLOSE_BRACKET
    requires if items.End? then Skip(b, i + 1) == end else
             b[Skip(b, i + 1)] != b[end] && ParseItems(b, Skip(b, i + 1), depth + 1, keyed) == Ok(items, end)
    ensures ParseContainer(b, i, depth) == Ok(if keyed then Object(items) else Array(items), end + 1)
  {
  }

  lemma LastItemStep(b: seq<Byte>, i0: nat, depth: nat, keyed: bool, key: seq<Byte>, v: Json, next: nat)
    requires CString(b) && i0 < |b| && next < |b| && ParseItem(b, Skip(b, i0), depth, keyed) == Ok((key, v), next)
    requires b[Skip(b, next)] != COMMA
    ensures ParseItems(b, i0, depth, keyed) == Ok(Item(key, v, End), Skip(b, next))
  {
  }

  lemma ItemStep(b: seq<Byte>, i0: nat, depth: nat, keyed: bool, key: seq<Byte>, v: Json, next: nat, c: nat, rest: Items, end: nat)
    requires CString(b) && i0 < |b| && next < |b| && c + 1 < |b| && ParseItem(b, Skip(b, i0), depth, keyed) == Ok((key, v), next)
    requires Skip(b, next) == c && b[c] == COMMA && ParseItems(b, c + 1, depth, keyed) == Ok(rest, end)
    ensures ParseItems(b, i0, depth, keyed) == Ok(Item(key, v, rest), end)
  {
  }

  lemma ElementStep(b: seq<Byte>, i: nat, depth: nat, v: Json, next: nat)
    requires CString(b) && i < |b| && ParseValue(b, i, depth) == Ok(v, next)
    ensures ParseItem(b, i, depth, false) == Ok(([], v), next)
  {
  }

  lemma MemberStep(b: seq<Byte>, i: nat, depth: nat, key: seq<Byte>, n: nat, c: nat, v: Json, p: nat, next: nat)
    requires CString(b) && i < |b| && n < |b| && c + 1 < |b| && p < |b|
    requires ParseString(b, i) == Ok(key, n) && Skip(b, n) == c && b[c] == COLON && Skip(b, c + 1) == p && ParseValue(b, p, depth) == Ok(v, next)
    ensures ParseItem(b, i, depth, true) == Ok((key, v), next)
  {
  }

  lemma FirstByte(b: seq<Byte>, i: nat, v: Json, format: bool, d: nat)
    requires Printable(v) && Shows(b, i, v, format, d)
    ensures Len(v, format, d) > 0 && b[i] > 32 && b[i] != CLOSE_BRACKET && b[i] != CLOSE_BRACE
  {
    if v.Number? {
      TokenChars(v.token);
      assert b[i + 0] == v.token[0];
    }
  }

  lemma {:induction false} ValueBack(v: Json, format: bool, d: nat, b: seq<Byte>, i: nat, depth: nat)
    requires CString(b) && Printable(v) && Nesting(v) + depth <= NESTING_LIMIT
    requires Shows(b, i, v, format, d) && i + Len(v, format, d) < |b| && !NumberChar(b[i + Len(v, format, d)])
    ensures ParseValue(b, i, depth) == Ok(v, i + Len(v, format, d))
    decreases v, 0
  {
    FirstByte(b, i, v, format, d);
    match v
    case Null =>
    case False =>
    case True =>
    case Number(token) =>
      TokenChars(token);
      assert b[i + 0] == token[0];
      NumberBack(b, i, token);
    case String(s) => StringBack(b, i, s, i + StringLen(s));
    case Array(child) => ArrayBack(child, format, d, b, i, depth);
    case Object(child) => ObjectBack(child, format, d, b, i, depth);
  }

  lemma {:induction false} ArrayBack(child: Items, format: bool, d: nat, b: seq<Byte>, i: nat, depth: nat)
    requires CString(b) && AllPrintable(child, false) && ItemsNesting(child) + depth < NESTING_LIMIT
    requires Shows(b, i, Array(child), format, d) && i + Len(Array(child), format, d) < |b|
    ensures ParseContainer(b, i, depth) == Ok(Array(child), i + Len(Array(child), format, d))
    decreases child, 1
  {
    hide ParseValue, ParseContainer, ParseItems, ParseItem;
    var e := i + 1 + ElementsLen(child, format, d + 1);
    if child.Item? {
      ElementsBack(child, format, d + 1, b, i + 1, i + 1, depth + 1, e);
    }
    ContainerStep(b, i, depth, false, child, e);
  }

  /** What stands around the members of an object. */
  lemma ObjectShape(child: Items, format: bool, d: nat, b: seq<Byte>, i: nat)
    requires Shows(b, i, Object(child), format, d)
    ensures var p := i + Width(format); var e := p + MembersLen(child, format, d + 1); var stop := e + Indent(format, d);
            && Len(Object(child), format, d) == stop + 1 - i && stop < |b| && b[i] == OPEN_BRACE && b[stop] == CLOSE_BRACE
            && (forall x :: i + 1 <= x < p ==> b[x] <= 32) && (forall x :: e <= x < stop ==> b[x] <= 32) && !NumberChar(b[e])
            && ShowsMembers(b, p, child, format, d + 1)
            && (child.End? ==> e == p)
  {
    hide ShowsMembers;
  }

  lemma {:induction false} ObjectBack(child: Items, format: bool, d: nat, b: seq<Byte>, i: nat, depth: nat)
    requires CString(b) && AllPrintable(child, true) && ItemsNesting(child) + depth < NESTING_LIMIT
    requires Shows(b, i, Object(child), format, d) && i + Len(Object(child), format, d) < |b|
    ensures ParseContainer(b, i, depth) == Ok(Object(child), i + Len(Object(child), format, d))
    decreases child, 1
  {
    hide ParseValue, ParseContainer, ParseItems, ParseItem, Skip, Shows, ShowsMembers, MembersLen, Len, Indent, AllPrintable, ItemsNesting;
    ObjectShape(child, format, d, b, i);
    var p := i + Width(format);
    var e := p + MembersLen(child, format, d + 1);
    var stop := e + Indent(format, d);
    SkipOver(b, i + 1, Width(format) - 1);
    SkipOver(b, e, Indent(format, d));
    if child.Item? {
      SkipTwice(b, i + 1);
      MembersBack(child, format, d + 1, b, Skip(b, i + 1), p, depth + 1, e, stop);
    }
    ContainerStep(b, i, depth, true, child, stop);
  }

  /** The first of some elements, and how the text goes on behind it. */
  lemma ElementsShape(items: Items, format: bool, d: nat, b: seq<Byte>, i: nat)
    requires items.Item? && AllPrintable(items, false) && ShowsElements(b, i, items, format, d)
    ensures Printable(items.value) && items.key == [] && AllPrintable(items.next, false) && Shows(b, i, items.value, format, d)
    ensures Nesting(items.value) <= ItemsNesting(items) && ItemsNesting(items.next) <= ItemsNesting(items)
    ensures var j := i + Len(items.value, format, d); var next := j + Width(format);
            if items.next.End? then ElementsLen(items, format, d) == j - i
            else
              && next <= |b| && b[j] == COMMA && (forall x :: j + 1 <= x < next ==> b[x] <= 32)
              && ShowsElements(b, next, items.next, format, d)
              && ElementsLen(items, format, d) == next - i + ElementsLen(items.next, format, d)
  {
    hide Shows, Len, Nesting, Printable;
  }

  /** Elements from `i` on, up to the bracket at `end`; `i0` is `i` or the place behind the comma before it. */
  lemma {:induction false} ElementsBack(items: Items, format: bool, d: nat, b: seq<Byte>, i0: nat, i: nat, depth: nat, end: nat)
    requires CString(b) && items.Item? && AllPrintable(items, false) && ItemsNesting(items) + depth <= NESTING_LIMIT
    requires ShowsElements(b, i, items, format, d) && end == i + ElementsLen(items, format, d) < |b|
    requires b[end] == CLOSE_BRACKET && i0 < |b| && i < |b| && Skip(b, i0) == Skip(b, i)
    ensures b[i] > 32 && b[i] != CLOSE_BRACKET
    ensures ParseItems(b, i0, depth, false) == Ok(items, end)
    decreases items, 0
  {
    hide ParseValue, ParseContainer, ParseItems, ParseItem, Shows, ShowsElements, Printable, AllPrintable, Nesting, ItemsNesting, Len, ElementsLen, Skip;
    ElementsShape(items, format, d, b, i);
    var j := i + Len(items.value, format, d);
    FirstByte(b, i, items.value, format, d);
    ValueBack(items.value, format, d, b, i, depth);
    ElementStep(b, i, depth, items.value, j);
    SkipOver(b, i, 0);
    if items.next.Item? {
      SkipOver(b, j + 1, Width(format) - 1);
      ElementsBack(items.next, format, d, b, j + 1, j + Width(format), depth, end);
      SkipOver(b, j, 0);
      ItemStep(b, i0, depth, false, [], items.value, j, j, items.next, end);
    } else {
      SkipOver(b, j, 0);
      LastItemStep(b, i0, depth, false, [], items.value, j);
    }
  }

  /** Members from `i` on, up to `end`, with white space from there to the brace at `stop`. */
  lemma {:induction false} MembersBack(items: Items, format: bool, d: nat, b: seq<Byte>, i0: nat, i: nat, depth: nat, end: nat, stop: nat)
    requires CString(b) && items.Item? && AllPrintable(items, true) && ItemsNesting(items) + depth <= NESTING_LIMIT
    requires ShowsMembers(b, i, items, format, d) && end == i + MembersLen(items, format, d) < |b|
    requires !NumberChar(b[end]) && stop < |b| && Skip(b, end) == stop && b[stop] == CLOSE_BRACE
    requires i0 < |b| && i < |b| && Skip(b, i0) == Skip(b, i)
    ensures b[Skip(b, i)] == QUOTE
    ensures ParseItems(b, i0, depth, true) == Ok(items, stop)
    decreases items, 0
  {
    hide ParseValue, ParseContainer, ParseItems, ParseItem, Skip, MemberLen, ShowsMember;
    var j := i + MemberLen(items.key, items.value, format, d);
    MemberBack(items.key, items.value, format, d, b, i, depth);
    if items.next.Item? {
      SkipOver(b, j + 1, EndingLen(items.next, format) - 1);
      MembersBack(items.next, format, d, b, j + 1, j + EndingLen(items.next, format), depth, end, stop);
      SkipOver(b, j, 0);
      ItemStep(b, i0, depth, true, items.key, items.value, j, j, items.next, stop);
    } else {
      SkipOver(b, j, EndingLen(items.next, format));
      LastItemStep(b, i0, depth, true, items.key, items.value, j);
    }
  }

  lemma {:induction false} MemberBack(key: seq<Byte>, v: Json, format: bool, d: nat, b: seq<Byte>, i: nat, depth: nat)
    requires CString(b) && NulFree(key) && Printable(v) && Nesting(v) + depth <= NESTING_LIMIT
    requires ShowsMember(b, i, key, v, format, d)
    requires i + MemberLen(key, v, format, d) < |b| && !NumberChar(b[i + MemberLen(key, v, format, d)])
    ensures b[Skip(b, i)] == QUOTE
    ensures ParseItem(b, Skip(b, i), depth, true) == Ok((key, v), i + MemberLen(key, v, format, d))
    decreases v, 1
  {
    hide ParseValue, ParseContainer, ParseItems, ParseItem, ParseString, Skip, Shows, ShowsString, Len, TextLen;
    var k := i + Indent(format, d);
    var c := k + StringLen(key);
    var p := c + Width(format);
    SkipOver(b, i, Indent(format, d));
    StringBack(b, k, key, c);
    SkipOver(b, c + 1, Width(format) - 1);
    FirstByte(b, p, v, format, d);
    ValueBack(v, format, d, b, p, depth);
    SkipOver(b, c, 0);
    MemberStep(b, k, depth, key, c, c, v, p, p + Len(v, format, d));
  }

  /** Parsing what was printed gives the tree back, formatted or not. */
  lemma RoundTrip(s: seq<Byte>, v: Json, format: bool)
    requires NulFree(s) && Printable(v) && Nesting(v) <= NESTING_LIMIT
    requires Shows(s + [0], 0, v, format, 0) && |s| == Len(v, format, 0)
    ensures ParseText(s, true) == Some(v)
  {
    var b := s + [0];
    assert b[..|s|] == s;
    FirstByte(b, 0, v, format, 0);
    ValueBack(v, format, 0, b, 0, 0);
  }
}
