/** The printer: a buffer that grows on demand, and methods that write a tree into it. */
module JsonPrint {
  import opened Bytes
  import opened JsonSpec
  import opened JsonRoundTrip
  import opened JsonText

  const INT_MAX: nat := 0x7FFFFFFF

  const NULL_WORD: seq<Byte> := [110, 117, 108, 108]
  const FALSE_WORD: seq<Byte> := [102, 97, 108, 115, 101]
  const TRUE_WORD: seq<Byte> := [116, 114, 117, 101]

  lemma WordShown(b: seq<Byte>, i: nat, word: seq<Byte>)
    requires ShowsToken(b, i, word)
    ensures word == NULL_WORD ==> IsNull(b, i)
    ensures word == FALSE_WORD ==> IsFalse(b, i)
    ensures word == TRUE_WORD ==> IsTrue(b, i)
  {
    if |word| > 3 {
      assert b[i + 0] == word[0] && b[i + 1] == word[1] && b[i + 2] == word[2] && b[i + 3] == word[3];
    }
    if |word| > 4 {
      assert b[i + 4] == word[4];
    }
  }

  // ---------- the items that a printing loop is through with ----------

  function Count(items: Items): nat {
    if items.End? then 0 else 1 + Count(items.next)
  }

  function Drop(items: Items, n: nat): Items
    requires n <= Count(items)
  {
    if n == 0 then items else Drop(items.next, n - 1)
  }

  function ItemsLen(items: Items, keyed: bool, format: bool, d: nat): nat {
    if keyed then MembersLen(items, format, d) else ElementsLen(items, format, d)
  }

  predicate ShowsItems(b: seq<Byte>, i: nat, items: Items, keyed: bool, format: bool, d: nat) {
    if keyed then ShowsMembers(b, i, items, format, d) else ShowsElements(b, i, items, format, d)
  }

  /** The first item, with the separator behind it. */
  function HeadLen(items: Items, keyed: bool, format: bool, d: nat): nat
    requires items.Item?
  {
    if keyed then MemberLen(items.key, items.value, format, d) + EndingLen(items.next, format)
    else Len(items.value, format, d) + if items.next.End? then 0 else Width(format)
  }

  predicate ShowsHead(b: seq<Byte>, i: nat, items: Items, keyed: bool, format: bool, d: nat)
    requires items.Item?
  {
    if keyed then
      && ShowsMember(b, i, items.key, items.value, format, d)
      && ShowsEnding(b, i + MemberLen(items.key, items.value, format, d), items.next, format)
    else
      && Shows(b, i, items.value, format, d)
      && (items.next.Item? ==> ShowsSign(b, i + Len(items.value, format, d), COMMA, format, SPACE))
  }

  function UptoLen(items: Items, n: nat, keyed: bool, format: bool, d: nat): nat
    requires n <= Count(items)
  {
    if n == 0 then 0 else HeadLen(items, keyed, format, d) + UptoLen(items.next, n - 1, keyed, format, d)
  }

  /** The first `n` items stand in `b` from `i` on, each with the separator behind it. */
  predicate ShowsUpto(b: seq<Byte>, i: nat, items: Items, n: nat, keyed: bool, format: bool, d: nat)
    requires n <= Count(items)
    decreases n
  {
    n == 0 ||
    (ShowsHead(b, i, items, keyed, format, d) &&
     ShowsUpto(b, i + HeadLen(items, keyed, format, d), items.next, n - 1, keyed, format, d))
  }

  lemma {:induction false} DropNext(items: Items, n: nat)
    requires n < Count(items)
    ensures Drop(items, n).Item? && Drop(items, n + 1) == Drop(items, n).next
    decreases n
  {
    if n > 0 {
      DropNext(items.next, n - 1);
    }
  }

  lemma {:induction false} DropCount(items: Items, n: nat)
    requires n <= Count(items)
    ensures Count(Drop(items, n)) == Count(items) - n
    decreases n
  {
    if n > 0 {
      DropCount(items.next, n - 1);
    }
  }

  lemma {:induction false} DropPrintable(items: Items, n: nat, keyed: bool)
    requires n <= Count(items) && AllPrintable(items, keyed)
    ensures AllPrintable(Drop(items, n), keyed)
    decreases n
  {
    if n > 0 {
      DropPrintable(items.next, n - 1, keyed);
    }
  }

  lemma ItemsLenUnfold(items: Items, keyed: bool, format: bool, d: nat)
    requires items.Item?
    ensures ItemsLen(items, keyed, format, d) == HeadLen(items, keyed, format, d) + ItemsLen(items.next, keyed, format, d)
  {
    hide Len, MemberLen, EndingLen;
  }

  lemma {:induction false} UptoTotal(items: Items, n: nat, keyed: bool, format: bool, d: nat)
    requires n <= Count(items)
    ensures UptoLen(items, n, keyed, format, d) + ItemsLen(Drop(items, n), keyed, format, d) == ItemsLen(items, keyed, format, d)
    decreases n
  {
    hide ItemsLen, HeadLen;
    if n > 0 {
      ItemsLenUnfold(items, keyed, format, d);
      UptoTotal(items.next, n - 1, keyed, format, d);
    }
  }

  lemma UptoNone(b: seq<Byte>, i: nat, items: Items, keyed: bool, format: bool, d: nat)
    ensures Drop(items, 0) == items && UptoLen(items, 0, keyed, format, d) == 0 && ShowsUpto(b, i, items, 0, keyed, format, d)
  {
  }

  lemma {:induction false} UptoNext(b: seq<Byte>, i: nat, items: Items, n: nat, keyed: bool, format: bool, d: nat)
    requires n < Count(items) && ShowsUpto(b, i, items, n, keyed, format, d) && Drop(items, n).Item?
    requires ShowsHead(b, i + UptoLen(items, n, keyed, format, d), Drop(items, n), keyed, format, d)
    ensures ShowsUpto(b, i, items, n + 1, keyed, format, d)
    ensures UptoLen(items, n + 1, keyed, format, d) == UptoLen(items, n, keyed, format, d) + HeadLen(Drop(items, n), keyed, format, d)
    decreases n
  {
    hide ShowsHead, HeadLen;
    if n > 0 {
      UptoNext(b, i + HeadLen(items, keyed, format, d), items.next, n - 1, keyed, format, d);
    }
  }

  lemma HeadSame(b: seq<Byte>, b': seq<Byte>, m: nat, i: nat, items: Items, keyed: bool, format: bool, d: nat)
    requires items.Item? && ShowsHead(b, i, items, keyed, format, d) && i + HeadLen(items, keyed, format, d) <= m && Kept(b, b', m)
    ensures ShowsHead(b', i, items, keyed, format, d)
  {
    hide ShowsMember, MemberLen, Shows, Len, ShowsEnding, EndingLen;
    if keyed {
      MemberSame(b, b', m, i, items.key, items.value, format, d);
      EndingSame(b, b', m, i + MemberLen(items.key, items.value, format, d), items.next, format);
    } else {
      ValueSame(b, b', m, i, items.value, format, d);
    }
  }

  lemma {:induction false} UptoSame(b: seq<Byte>, b': seq<Byte>, m: nat, i: nat, items: Items, n: nat, keyed: bool, format: bool, d: nat)
    requires n <= Count(items) && ShowsUpto(b, i, items, n, keyed, format, d)
    requires i + UptoLen(items, n, keyed, format, d) <= m && Kept(b, b', m)
    ensures ShowsUpto(b', i, items, n, keyed, format, d)
    decreases n
  {
    hide ShowsHead, HeadLen;
    if n > 0 {
      HeadSame(b, b', m, i, items, keyed, format, d);
      UptoSame(b, b', m, i + HeadLen(items, keyed, format, d), items.next, n - 1, keyed, format, d);
    }
  }

  lemma ShowsItemsFold(b: seq<Byte>, i: nat, items: Items, keyed: bool, format: bool, d: nat)
    requires items.Item? && ShowsHead(b, i, items, keyed, format, d)
    requires ShowsItems(b, i + HeadLen(items, keyed, format, d), items.next, keyed, format, d)
    ensures ShowsItems(b, i, items, keyed, format, d)
  {
    hide Shows, ShowsMember, MemberLen, Len, ShowsEnding, EndingLen;
  }

  lemma {:induction false} UptoAll(b: seq<Byte>, i: nat, items: Items, keyed: bool, format: bool, d: nat)
    requires ShowsUpto(b, i, items, Count(items), keyed, format, d)
    requires i + UptoLen(items, Count(items), keyed, format, d) <= |b|
    ensures ShowsItems(b, i, items, keyed, format, d)
    ensures UptoLen(items, Count(items), keyed, format, d) == ItemsLen(items, keyed, format, d)
    decreases items
  {
    hide ShowsHead, HeadLen;
    if items.Item? {
      hide ShowsItems, ItemsLen;
      UptoAll(b, i + HeadLen(items, keyed, format, d), items.next, keyed, format, d);
      ShowsItemsFold(b, i, items, keyed, format, d);
      ItemsLenUnfold(items, keyed, format, d);
    }
  }

  function Size(v: Json): nat {
    match v
    case Array(child) => 1 + ItemsSize(child)
    case Object(child) => 1 + ItemsSize(child)
    case _ => 0
  }

  function ItemsSize(items: Items): nat {
    if items.End? then 0 else 1 + Size(items.value) + ItemsSize(items.next)
  }

  lemma {:induction false} DropSize(items: Items, n: nat)
    requires n <= Count(items)
    ensures ItemsSize(Drop(items, n)) <= ItemsSize(items)
    decreases n
  {
    if n > 0 {
      DropSize(items.next, n - 1);
    }
  }

  // ---------- strings ----------

  lemma {:induction false} TextLenAppend(s: seq<Byte>, c: Byte)
    ensures TextLen(s + [c]) == TextLen(s) + EscapeLen(c)
    decreases |s|
  {
    if s != [] {
      assert (s + [c])[1..] == s[1..] + [c];
      TextLenAppend(s[1..], c);
    }
  }

  lemma {:induction false} ShowsTextAppend(b: seq<Byte>, i: nat, s: seq<Byte>, c: Byte)
    requires ShowsText(b, i, s) && ShowsByte(b, i + TextLen(s), c)
    ensures ShowsText(b, i, s + [c])
    decreases |s|
  {
    hide ShowsByte, EscapeLen;
    if s != [] {
      assert (s + [c])[1..] == s[1..] + [c];
      ShowsTextAppend(b, i + EscapeLen(s[0]), s[1..], c);
    }
  }

  lemma {:induction false} TextLenAtLeast(s: seq<Byte>)
    ensures TextLen(s) >= |s| && (TextLen(s) == |s| ==> forall x :: 0 <= x < |s| ==> Plain(s[x]))
    decreases |s|
  {
    if s != [] {
      TextLenAtLeast(s[1..]);
    }
  }

  /** A string in which nothing is escaped is copied. */
  lemma {:induction false} PlainText(b: seq<Byte>, i: nat, s: seq<Byte>)
    requires ShowsToken(b, i, s) && forall x :: 0 <= x < |s| ==> Plain(s[x])
    ensures ShowsText(b, i, s)
    decreases |s|
  {
    if s != [] {
      assert b[i + 0] == s[0];
      assert forall x :: 0 <= x < |s[1..]| ==> s[1..][x] == s[1 + x];
      PlainText(b, i + 1, s[1..]);
    }
  }

  lemma ObjectLen(child: Items, format: bool, d: nat)
    ensures Len(Object(child), format, d) == Width(format) + MembersLen(child, format, d + 1) + Indent(format, d) + 1
    ensures 1 <= Width(format) <= 2
  {
  }

  lemma KeptOn(b: seq<Byte>, b': seq<Byte>, b'': seq<Byte>, n: nat, m: nat)
    requires Kept(b, b', n) && Kept(b', b'', m) && n <= m
    ensures Kept(b, b'', n)
  {
  }

  lemma SignKept(b: seq<Byte>, b': seq<Byte>, i: nat, c: Byte, format: bool, pad: Byte)
    requires ShowsSign(b, i, c, format, pad) && Kept(b, b', i + Width(format))
    ensures ShowsSign(b', i, c, format, pad)
  {
  }

  lemma NoText(b: seq<Byte>, i: nat)
    ensures TextLen([]) == 0 && ShowsText(b, i, [])
  {
  }

  lemma TextLenHead(s: seq<Byte>)
    requires s != []
    ensures TextLen(s) == EscapeLen(s[0]) + TextLen(s[1..])
  {
  }

  lemma PlainByte(c: Byte)
    requires Plain(c)
    ensures EscapeLen(c) == 1 && forall b, i :: 0 <= i < |b| && b[i] == c ==> ShowsByte(b, i, c)
  {
  }

  lemma PlainCopy(b: seq<Byte>, i: nat, s: seq<Byte>)
    requires ShowsToken(b, i, s) && TextLen(s) == |s|
    ensures ShowsText(b, i, s)
  {
    TextLenAtLeast(s);
    PlainText(b, i, s);
  }

  /** The part of a member before its value. */
  predicate ShowsName(b: seq<Byte>, i: nat, key: seq<Byte>, format: bool, d: nat) {
    var k := i + Indent(format, d);
    var c := k + StringLen(key);
    ShowsTabs(b, i, Indent(format, d)) && ShowsString(b, k, key, c) && ShowsSign(b, c, COLON, format, TAB)
  }

  lemma NameSame(b: seq<Byte>, b': seq<Byte>, n: nat, i: nat, key: seq<Byte>, format: bool, d: nat)
    requires ShowsName(b, i, key, format, d) && i + Indent(format, d) + StringLen(key) + Width(format) <= n && Kept(b, b', n)
    ensures ShowsName(b', i, key, format, d)
  {
    hide ShowsString;
    StringSame(b, b', n, i + Indent(format, d), key);
  }

  /** The closing brace, with its tabs, completes the text of an object. */
  lemma ObjectShown(b: seq<Byte>, b': seq<Byte>, n: nat, i: nat, child: Items, format: bool, d: nat)
    requires ShowsSign(b, i, OPEN_BRACE, format, NEWLINE) && ShowsMembers(b, i + Width(format), child, format, d + 1)
    requires n == i + Width(format) + MembersLen(child, format, d + 1) && Kept(b, b', n)
    requires ShowsTabs(b', n, Indent(format, d)) && n + Indent(format, d) < |b'| && b'[n + Indent(format, d)] == CLOSE_BRACE
    ensures Shows(b', i, Object(child), format, d)
  {
    hide ShowsMembers, MembersLen;
    MembersSame(b, b', n, i + Width(format), child, format, d + 1);
  }

  class PrintBuffer {
    var buffer: array<Byte>
    var length: nat
    var offset: nat
    var depth: nat
    const noalloc: bool
    const format: bool

    /** The length is what the buffer is known to have room for, and may start at 0. */
    constructor (buffer: array<Byte>, length: nat, noalloc: bool, format: bool)
      requires (length == 0 || length == buffer.Length) && length <= INT_MAX
      ensures Valid() && this.buffer == buffer && this.length == length && offset == 0 && depth == 0
      ensures this.noalloc == noalloc && this.format == format
    {
      this.buffer := buffer;
      this.length := length;
      this.offset := 0;
      this.depth := 0;
      this.noalloc := noalloc;
      this.format := format;
    }

    ghost predicate Valid()
      reads this
    {
      length <= INT_MAX && if length == 0 then offset == 0 else length == buffer.Length && offset < length
    }

    /** How long the buffer can get. */
    function Limit(): nat
      reads this
    {
      if noalloc then length else INT_MAX
    }

    /** What every writing step keeps: only bytes from the offset on change, and the offset does not go back. */
    twostate predicate Extended()
      reads this, buffer
    {
      && Valid() && Limit() == old(Limit()) && (buffer == old(buffer) || (!noalloc && fresh(buffer)))
      && old(offset) <= offset && Kept(old(buffer[..]), buffer[..], old(offset))
    }

    /** realloc printbuffer if necessary: it succeeds exactly when `needed` bytes and a terminator fit the limit. */
    method Ensure(needed: nat) returns (ok: bool)
      requires Valid()
      modifies `buffer, `length
      ensures Extended()
      ensures ok == (offset + needed + 1 <= Limit())
      ensures ok ==> offset + needed + 1 <= length == buffer.Length
    {
      if length > 0 && offset >= length {
        return false;
      }
      if needed > INT_MAX {
        return false;
      }
      var wanted := needed + offset + 1;
      if wanted <= length {
        return true;
      }
      if noalloc {
        return false;
      }
      var newsize := wanted * 2;
      if wanted > INT_MAX / 2 {
        if wanted > INT_MAX {
          return false;
        }
        newsize := INT_MAX;
      }
      var newbuffer := new Byte[newsize];
      forall x | 0 <= x < buffer.Length && x < newsize {
        newbuffer[x] := buffer[x];
      }
      buffer, length := newbuffer, newsize;
      return true;
    }

    /** update_offset: on to the terminator, which is at `end`. */
    method UpdateOffset(ghost end: nat)
      requires Valid() && offset <= end < length && buffer[end] == 0 && NoNul(buffer[..], offset, end)
      modifies `offset
      ensures Valid() && offset == end
    {
      while buffer[offset] != 0
        invariant old(offset) <= offset <= end && Valid()
        decreases end - offset
      {
        offset := offset + 1;
      }
    }

    /** strcpy of a literal word. */
    method PrintLiteral(word: seq<Byte>) returns (ok: bool)
      requires Valid()
      modifies this, buffer
      ensures Extended() && depth == old(depth) && offset == old(offset)
      ensures ok ==> Terminated(offset + |word|)
      ensures ok && word == NULL_WORD ==> IsNull(buffer[..], offset)
      ensures ok && word == FALSE_WORD ==> IsFalse(buffer[..], offset)
      ensures ok && word == TRUE_WORD ==> IsTrue(buffer[..], offset)
      ensures ok == (offset + |word| + 2 <= Limit())
    {
      ok := Ensure(|word| + 1);
      if !ok {
        return;
      }
      forall x | 0 <= x < |word| {
        buffer[offset + x] := word[x];
      }
      buffer[offset + |word|] := 0;
      assert ShowsToken(buffer[..], offset, word);
      WordShown(buffer[..], offset, word);
    }

    /** The text that was written from the offset on ends with a terminator at `end`. */
    ghost predicate Terminated(end: nat)
      reads this, buffer
    {
      Valid() && offset <= end < length && buffer[end] == 0
    }

    /** print_number: a number is a token that is copied. */
    method PrintNumber(token: seq<Byte>) returns (ok: bool)
      requires Valid() && IsToken(token)
      modifies this, buffer
      ensures Extended() && depth == old(depth)
      ensures ok ==> offset == old(offset) + |token| && Terminated(offset) && ShowsToken(buffer[..], old(offset), token)
      ensures ok == (old(offset) + |token| + 1 <= Limit())
    {
      ok := Ensure(|token|);
      if !ok {
        return;
      }
      PutToken(token);
      offset := offset + |token|;
    }

    /** The loop that copies the token, and the terminator. */
    method PutToken(token: seq<Byte>)
      requires Valid() && offset + |token| < length
      modifies buffer
      ensures Kept(old(buffer[..]), buffer[..], offset) && ShowsToken(buffer[..], offset, token)
      ensures buffer[offset + |token|] == 0
    {
      ghost var b := buffer[..];
      var i := 0;
      while i < |token|
        invariant i <= |token|
        invariant Kept(b, buffer[..], offset)
        invariant forall x {:trigger token[x]} :: 0 <= x < i ==> buffer[offset + x] == token[x]
      {
        buffer[offset + i] := token[i];
        i := i + 1;
      }
      buffer[offset + i] := 0;
      assert forall x {:trigger token[x]} :: 0 <= x < |token| ==> buffer[..][offset + x] == token[x];
    }

    /** How many bytes escaping adds, counted by the same classes of characters that are escaped. */
    method CountEscapes(input: seq<Byte>) returns (escapes: nat)
      ensures |input| + escapes == TextLen(input)
    {
      escapes := 0;
      var i := 0;
      assert input[0..] == input;
      while i < |input|
        invariant i <= |input|
        invariant escapes + TextLen(input[i..]) - (|input| - i) == TextLen(input) - |input|
      {
        assert input[i..][1..] == input[i + 1..];
        if EscapeLetter(input[i]).Some? {
          escapes := escapes + 1;
        } else if input[i] < 32 {
          escapes := escapes + 5;
        }
        i := i + 1;
      }
    }

    /** The backslash and what is behind it; `sprintf` puts a terminator behind the digits. */
    method PutEscape(at: nat, c: Byte) returns (next: nat)
      requires !Plain(c) && at + EscapeLen(c) < buffer.Length
      modifies buffer
      ensures next == at + EscapeLen(c) && Kept(old(buffer[..]), buffer[..], at) && ShowsByte(buffer[..], at, c)
    {
      buffer[at] := BACKSLASH;
      next := at + 1;
      var letter := EscapeLetter(c);
      if letter.Some? {
        buffer[next] := letter.value;
      } else {
        buffer[next], buffer[next + 1], buffer[next + 2] := LOWER_U, 48, 48;
        buffer[next + 3], buffer[next + 4], buffer[next + 5] := HexChar(c / 16), HexChar(c % 16), 0;
        next := next + 4;
      }
      next := next + 1;
    }

    /** print_string_ptr */
    method PrintStringPtr(input: seq<Byte>) returns (ok: bool)
      requires Valid() && NulFree(input)
      modifies this, buffer
      ensures Extended() && depth == old(depth) && offset == old(offset)
      ensures ok ==> Terminated(offset + StringLen(input)) && ShowsString(buffer[..], offset, input, offset + StringLen(input))
      ensures ok == (offset + StringLen(input) + 2 <= Limit())
    {
      hide ShowsString, TextLen;
      var escapes := CountEscapes(input);
      ok := Ensure(|input| + escapes + 3);
      if ok {
        PutQuoted(input, escapes);
      }
    }

    method PutQuoted(input: seq<Byte>, escapes: nat)
      requires Valid() && |input| + escapes == TextLen(input) && offset + TextLen(input) + 4 <= length
      modifies buffer
      ensures Kept(old(buffer[..]), buffer[..], offset)
      ensures Terminated(offset + StringLen(input)) && ShowsString(buffer[..], offset, input, offset + StringLen(input))
    {
      hide TextLen, ShowsText;
      var outputLength := |input| + escapes;
      buffer[offset] := QUOTE;
      if escapes == 0 {
        PutPlain(input);
      } else {
        PutText(input);
      }
      ghost var written := buffer[..];
      buffer[offset + outputLength + 1] := QUOTE;
      buffer[offset + outputLength + 2] := 0;
      TextSame(written, buffer[..], offset + 1 + outputLength, offset + 1, input);
    }

    /** memcpy of a string in which nothing is escaped. */
    method PutPlain(input: seq<Byte>)
      requires Valid() && offset + |input| + 2 < length && TextLen(input) == |input|
      modifies buffer
      ensures Kept(old(buffer[..]), buffer[..], offset + 1) && ShowsText(buffer[..], offset + 1, input)
    {
      hide TextLen, ShowsText;
      forall x | 0 <= x < |input| {
        buffer[offset + 1 + x] := input[x];
      }
      assert ShowsToken(buffer[..], offset + 1, input);
      PlainCopy(buffer[..], offset + 1, input);
    }

    /** The loop that copies a string and escapes what has to be escaped. */
    method PutText(input: seq<Byte>)
      requires Valid() && offset + TextLen(input) + 2 < length
      modifies buffer
      ensures Kept(old(buffer[..]), buffer[..], offset + 1) && ShowsText(buffer[..], offset + 1, input)
    {
      hide TextLen, ShowsText, ShowsByte, EscapeLen;
      var k, next := 0, offset + 1;
      NoText(buffer[..], offset + 1);
      assert input[..0] == [] && input[0..] == input;
      while k < |input|
        invariant k <= |input| && next == offset + 1 + TextLen(input[..k])
        invariant TextLen(input[..k]) + TextLen(input[k..]) == TextLen(input)
        invariant Kept(old(buffer[..]), buffer[..], offset + 1) && ShowsText(buffer[..], offset + 1, input[..k])
      {
        var c := input[k];
        ghost var b := buffer[..];
        assert input[..k + 1] == input[..k] + [c] && input[k..][1..] == input[k + 1..];
        TextLenAppend(input[..k], c);
        TextLenHead(input[k..]);
        if Plain(c) {
          PlainByte(c);
          buffer[next] := c;
          next := next + 1;
        } else {
          next := PutEscape(next, c);
        }
        TextSame(b, buffer[..], offset + 1 + TextLen(input[..k]), offset + 1, input[..k]);
        ShowsTextAppend(buffer[..], offset + 1, input[..k], c);
        k := k + 1;
      }
      assert input[..k] == input;
    }

    // ---------- trees ----------

    /** A separator, with `needed` bytes reserved for it, and what formatting puts behind it. */
    method PutSign(c: Byte, pad: Byte, needed: nat) returns (ok: bool)
      requires Valid() && needed >= Width(format)
      modifies this, buffer
      ensures Extended() && depth == old(depth)
      ensures ok ==> offset == old(offset) + Width(format) && ShowsSign(buffer[..], old(offset), c, format, pad)
      ensures ok == (old(offset) + needed + 1 <= Limit())
    {
      ok := Ensure(needed);
      if ok {
        buffer[offset] := c;
        if format {
          buffer[offset + 1] := pad;
        }
        offset := offset + Width(format);
      }
    }

    /** The tabs in front of a member or a closing brace, for which room is reserved. */
    method PutTabs(n: nat)
      requires Valid() && offset + n < length
      modifies buffer
      ensures Kept(old(buffer[..]), buffer[..], offset) && ShowsTabs(buffer[..], offset, n)
    {
      var i := 0;
      while i < n
        invariant i <= n && Kept(old(buffer[..]), buffer[..], offset)
        invariant forall x :: offset <= x < offset + i ==> buffer[x] == TAB
      {
        buffer[offset + i] := TAB;
        i := i + 1;
      }
    }

    /** print_value: the text of the tree stands from the offset on, and a terminator behind it. */
    method PrintValue(item: Json) returns (ok: bool)
      requires Valid() && Printable(item)
      modifies this, buffer
      ensures Extended()
      ensures ok ==> Shows(buffer[..], old(offset), item, format, old(depth)) && depth == old(depth)
      ensures ok ==> Terminated(old(offset) + Len(item, format, old(depth)))
      ensures old(offset) + Len(item, format, old(depth)) + 2 <= Limit() ==> ok
      decreases Size(item), 0
    {
      hide ShowsElements, ShowsMembers, ElementsLen, MembersLen, ShowsString, TextLen, AllPrintable, IsToken;
      match item
      case Null => ok := PrintLiteral(NULL_WORD);
      case False => ok := PrintLiteral(FALSE_WORD);
      case True => ok := PrintLiteral(TRUE_WORD);
      case Number(token) => ok := PrintNumber(token);
      case String(text) => ok := PrintStringPtr(text);
      case Array(child) => ok := PrintArray(child);
      case Object(child) => ok := PrintObject(child);
    }

    /** print_value and update_offset */
    method PrintOn(item: Json) returns (ok: bool)
      requires Valid() && Printable(item)
      modifies this, buffer
      ensures Extended()
      ensures ok ==> Shows(buffer[..], old(offset), item, format, old(depth)) && depth == old(depth)
      ensures ok ==> offset == old(offset) + Len(item, format, old(depth)) && Terminated(offset)
      ensures old(offset) + Len(item, format, old(depth)) + 2 <= Limit() ==> ok
      decreases Size(item), 1
    {
      hide Shows, Len;
      ghost var start, d := offset, depth;
      ok := PrintValue(item);
      if ok {
        ValueNoNul(buffer[..], start, item, format, d);
        UpdateOffset(start + Len(item, format, d));
      }
    }

    /** The tabs in front of a member. */
    method PutIndent() returns (ok: bool)
      requires Valid()
      modifies this, buffer
      ensures Extended() && depth == old(depth)
      ensures ok ==> offset == old(offset) + Indent(format, depth) && ShowsTabs(buffer[..], old(offset), Indent(format, depth))
      ensures old(offset) + Indent(format, depth) + 1 <= Limit() ==> ok
    {
      ok := true;
      if format {
        ok := Ensure(depth);
        if ok {
          PutTabs(depth);
          offset := offset + depth;
        }
      }
    }

    /** The tabs, the name and the colon of a member. */
    method PrintName(key: seq<Byte>) returns (ok: bool)
      requires Valid() && NulFree(key)
      modifies this, buffer
      ensures Extended() && depth == old(depth)
      ensures ok ==> ShowsName(buffer[..], old(offset), key, format, depth)
      ensures ok ==> offset == old(offset) + Indent(format, depth) + StringLen(key) + Width(format)
      ensures old(offset) + Indent(format, depth) + StringLen(key) + Width(format) + 1 <= Limit() ==> ok
    {
      hide ShowsString, TextLen;
      ghost var start := offset;
      ok := PutIndent();
      if !ok {
        return;
      }
      ghost var b, p := buffer[..], offset;
      ok := PrintStringPtr(key);
      if !ok {
        return;
      }
      StringNoNul(buffer[..], p, key);
      UpdateOffset(p + StringLen(key));
      ghost var b', p' := buffer[..], offset;
      ok := PutSign(COLON, TAB, Width(format));
      if ok {
        StringSame(b', buffer[..], p', p, key);
      }
    }

    /** The comma and the line break behind a member. */
    method PutEnding(more: bool) returns (ok: bool)
      requires Valid()
      modifies this, buffer
      ensures Extended() && depth == old(depth)
      ensures ok ==> forall next: Items :: next.Item? == more ==>
                offset == old(offset) + EndingLen(next, format) && ShowsEnding(buffer[..], old(offset), next, format)
      ensures ok == (old(offset) + (if format then 1 else 0) + (if more then 1 else 0) + 2 <= Limit())
    {
      var size := (if format then 1 else 0) + if more then 1 else 0;
      ok := Ensure(size + 1);
      if !ok {
        return;
      }
      var next := offset;
      if more {
        buffer[next] := COMMA;
        next := next + 1;
      }
      if format {
        buffer[next] := NEWLINE;
        next := next + 1;
      }
      buffer[next] := 0;
      offset := offset + size;
    }

    /** print_array */
    method PrintArray(child: Items) returns (ok: bool)
      requires Valid() && AllPrintable(child, false)
      modifies this, buffer
      ensures Extended()
      ensures ok ==> Shows(buffer[..], old(offset), Array(child), format, old(depth)) && depth == old(depth)
      ensures ok ==> Terminated(old(offset) + Len(Array(child), format, old(depth)))
      ensures old(offset) + Len(Array(child), format, old(depth)) + 2 <= Limit() ==> ok
      decreases ItemsSize(child), 3
    {
      hide Shows, ShowsElements, ElementsLen, AllPrintable;
      ghost var start := offset;
      ok := OpenArray();
      if !ok {
        return;
      }
      ok := PrintItems(child, false);
      if ok {
        ok := CloseArray(start, child);
      }
    }

    method OpenArray() returns (ok: bool)
      requires Valid()
      modifies this, buffer
      ensures Extended()
      ensures ok ==> offset == old(offset) + 1 && depth == old(depth) + 1 && buffer[old(offset)] == OPEN_BRACKET
      ensures ok == (old(offset) + 2 <= Limit())
    {
      ok := Ensure(1);
      if ok {
        buffer[offset] := OPEN_BRACKET;
        offset := offset + 1;
        depth := depth + 1;
      }
    }

    method CloseArray(ghost start: nat, ghost child: Items) returns (ok: bool)
      requires Valid() && depth > 0 && start < offset && buffer[start] == OPEN_BRACKET
      requires ShowsElements(buffer[..], start + 1, child, format, depth)
      requires offset == start + 1 + ElementsLen(child, format, depth)
      modifies this, buffer
      ensures Extended() && offset == old(offset)
      ensures ok ==> Shows(buffer[..], start, Array(child), format, depth) && depth == old(depth) - 1 && Terminated(offset + 1)
      ensures offset + 3 <= Limit() ==> ok
    {
      hide ShowsElements, ElementsLen;
      ghost var b := buffer[..];
      ok := Ensure(2);
      if ok {
        buffer[offset], buffer[offset + 1] := CLOSE_BRACKET, 0;
        ElementsSame(b, buffer[..], offset, start + 1, child, format, depth);
        depth := depth - 1;
      }
    }

    /** print_object */
    method PrintObject(child: Items) returns (ok: bool)
      requires Valid() && AllPrintable(child, true)
      modifies this, buffer
      ensures Extended()
      ensures ok ==> Shows(buffer[..], old(offset), Object(child), format, old(depth)) && depth == old(depth)
      ensures ok ==> Terminated(old(offset) + Len(Object(child), format, old(depth)))
      ensures old(offset) + Len(Object(child), format, old(depth)) + 2 <= Limit() ==> ok
      decreases ItemsSize(child), 3
    {
      hide Shows, ShowsMembers, MembersLen, AllPrintable, Kept, ShowsSign, Len, Indent, Width;
      ObjectLen(child, format, depth);
      ghost var start, b0 := offset, buffer[..];
      ok := PutSign(OPEN_BRACE, NEWLINE, Width(format) + 1);
      if !ok {
        return;
      }
      depth := depth + 1;
      ghost var at1, b1 := offset, buffer[..];
      ok := PrintItems(child, true);
      ghost var b2 := buffer[..];
      KeptOn(b0, b1, b2, start, at1);
      SignKept(b1, b2, start, OPEN_BRACE, format, NEWLINE);
      if ok {
        ghost var at2 := offset;
        ok := CloseObject(start, child);
        KeptOn(b0, b2, buffer[..], start, at2);
      }
    }

    /** The tabs, the closing brace and a terminator. */
    method PutBrace(tabs: nat)
      requires Valid() && offset + tabs + 1 < length
      modifies buffer
      ensures Kept(old(buffer[..]), buffer[..], offset) && ShowsTabs(buffer[..], offset, tabs)
      ensures buffer[offset + tabs] == CLOSE_BRACE && buffer[offset + tabs + 1] == 0
    {
      PutTabs(tabs);
      ghost var b := buffer[..];
      buffer[offset + tabs], buffer[offset + tabs + 1] := CLOSE_BRACE, 0;
      assert forall x {:trigger buffer[..][x]} :: 0 <= x < offset + tabs ==> buffer[..][x] == b[x];
    }

    method CloseObject(ghost start: nat, ghost child: Items) returns (ok: bool)
      requires Valid() && depth > 0 && start + Width(format) <= offset
      requires ShowsSign(buffer[..], start, OPEN_BRACE, format, NEWLINE)
      requires ShowsMembers(buffer[..], start + Width(format), child, format, depth)
      requires offset == start + Width(format) + MembersLen(child, format, depth)
      modifies this, buffer
      ensures Extended() && offset == old(offset)
      ensures ok ==> Shows(buffer[..], start, Object(child), format, depth) && depth == old(depth) - 1
      ensures ok ==> Terminated(offset + Indent(format, depth) + 1)
      ensures offset + Indent(format, old(depth) - 1) + 3 <= Limit() ==> ok
    {
      hide Shows, ShowsMembers, MembersLen, ShowsTabs, ShowsSign;
      ghost var b := buffer[..];
      ok := Ensure(if format then depth + 1 else 2);
      if ok {
        PutBrace(Indent(format, depth - 1));
        depth := depth - 1;
        assert Kept(b, buffer[..], offset);
        ObjectShown(b, buffer[..], offset, start, child, format, depth);
      }
    }

    /** The loops over the elements of an array and the members of an object. */
    method PrintItems(items: Items, keyed: bool) returns (ok: bool)
      requires Valid() && AllPrintable(items, keyed)
      modifies this, buffer
      ensures Extended() && (ok ==> depth == old(depth))
      ensures ok ==> ShowsItems(buffer[..], old(offset), items, keyed, format, old(depth))
      ensures ok ==> offset == old(offset) + ItemsLen(items, keyed, format, old(depth))
      ensures old(offset) + ItemsLen(items, keyed, format, old(depth)) + 2 <= Limit() ==> ok
      decreases ItemsSize(items), 2
    {
      hide ShowsUpto, UptoLen, ShowsItems, ItemsLen, HeadLen, ShowsHead, Printable, AllPrintable;
      ghost var start, n := offset, 0;
      var current := items;
      UptoNone(buffer[..], start, items, keyed, format, depth);
      while current.Item?
        invariant n <= Count(items) && current == Drop(items, n)
        invariant Extended() && depth == old(depth) && offset == start + UptoLen(items, n, keyed, format, depth)
        invariant ShowsUpto(buffer[..], start, items, n, keyed, format, depth)
        decreases current
      {
        ghost var b, p := buffer[..], offset;
        DropCount(items, n);
        DropNext(items, n);
        DropSize(items, n);
        DropPrintable(items, n, keyed);
        UptoTotal(items, n, keyed, format, depth);
        ItemsLenUnfold(current, keyed, format, depth);
        if keyed {
          ok := PrintMember(current);
        } else {
          ok := PrintElement(current);
        }
        if !ok {
          return;
        }
        UptoSame(b, buffer[..], p, start, items, n, keyed, format, depth);
        UptoNext(buffer[..], start, items, n, keyed, format, depth);
        current, n := current.next, n + 1;
      }
      ok := true;
      DropCount(items, n);
      UptoAll(buffer[..], start, items, keyed, format, depth);
    }

    /** An element of an array, and the comma behind it. */
    method PrintElement(current: Items) returns (ok: bool)
      requires Valid() && current.Item? && AllPrintable(current, false)
      modifies this, buffer
      ensures Extended() && (ok ==> depth == old(depth))
      ensures ok ==> ShowsHead(buffer[..], old(offset), current, false, format, old(depth))
      ensures ok ==> offset == old(offset) + HeadLen(current, false, format, old(depth))
      ensures old(offset) + HeadLen(current, false, format, old(depth)) + 2 <= Limit() ==> ok
      decreases ItemsSize(current), 1
    {
      hide Shows, Len, Printable;
      ghost var start := offset;
      ok := PrintOn(current.value);
      if ok && current.next.Item? {
        ghost var b, p := buffer[..], offset;
        ok := PutSign(COMMA, SPACE, Width(format) + 1);
        if ok {
          buffer[offset] := 0;
          ValueSame(b, buffer[..], p, start, current.value, format, depth);
        }
      }
    }

    /** A member of an object: the tabs, the name, the colon and the value, and the comma and line break behind it. */
    method PrintMember(current: Items) returns (ok: bool)
      requires Valid() && current.Item? && AllPrintable(current, true)
      modifies this, buffer
      ensures Extended() && (ok ==> depth == old(depth))
      ensures ok ==> ShowsHead(buffer[..], old(offset), current, true, format, old(depth))
      ensures ok ==> offset == old(offset) + HeadLen(current, true, format, old(depth))
      ensures old(offset) + HeadLen(current, true, format, old(depth)) + 2 <= Limit() ==> ok
      decreases ItemsSize(current), 1
    {
      hide Shows, ShowsString, Len, TextLen, Printable;
      ghost var start, d := offset, depth;
      ok := PrintName(current.key);
      if !ok {
        return;
      }
      ghost var b, p := buffer[..], offset;
      ok := PrintOn(current.value);
      if !ok {
        return;
      }
      NameSame(b, buffer[..], p, start, current.key, format, d);
      ghost var b', p' := buffer[..], offset;
      ok := PutEnding(current.next.Item?);
      if ok {
        MemberSame(b', buffer[..], p', start, current.key, current.value, format, d);
      }
    }
  }

  /** `printed` holds the text of `item` as a C string. */
  predicate IsTextOf(printed: seq<Byte>, item: Json, format: bool) {
    && Shows(printed, 0, item, format, 0) && Len(item, format, 0) < |printed|
    && printed[Len(item, format, 0)] == 0 && NoNul(printed, 0, Len(item, format, 0))
  }

  /** Parsing the C string that was printed gives the tree back. */
  lemma PrintedBack(printed: seq<Byte>, item: Json, format: bool)
    requires Printable(item) && IsTextOf(printed, item, format) && Nesting(item) <= NESTING_LIMIT
    ensures ParseText(printed[..Len(item, format, 0)], true) == Some(item)
  {
    hide Shows, Len, ParseText;
    var n := Len(item, format, 0);
    var s := printed[..n];
    ValueSame(printed, s + [0], n, 0, item, format, 0);
    RoundTrip(s, item, format);
  }

  /** print: cJSON_Print, and cJSON_PrintUnformatted when `format` is off. */
  method Print(item: Json, format: bool) returns (ok: bool, text: seq<Byte>)
    requires Printable(item)
    ensures Len(item, format, 0) + 2 <= INT_MAX ==> ok
    ensures ok ==> IsTextOf(text + [0], item, format) && |text| == Len(item, format, 0) && NulFree(text)
    ensures ok && Nesting(item) <= NESTING_LIMIT ==> ParseText(text, true) == Some(item)
  {
    hide Shows, Len, ParseText;
    var space := new Byte[256];
    var buffer := new PrintBuffer(space, 0, false, format);
    ok := buffer.PrintOn(item);
    text := [];
    if ok {
      text := buffer.buffer[..buffer.offset];
      ghost var b := buffer.buffer[..];
      ValueSame(b, text + [0], |text|, 0, item, format, 0);
      ValueNoNul(b, 0, item, format, 0);
      if Nesting(item) <= NESTING_LIMIT {
        PrintedBack(text + [0], item, format);
        assert (text + [0])[..|text|] == text;
      }
    }
  }

  /** cJSON_PrintBuffered */
  method PrintBuffered(item: Json, prebuffer: int, format: bool) returns (ok: bool, printed: array<Byte>)
    requires Printable(item) && prebuffer <= INT_MAX
    ensures ok ==> IsTextOf(printed[..], item, format)
    ensures prebuffer >= 0 && Len(item, format, 0) + 2 <= INT_MAX ==> ok
  {
    hide Shows, Len;
    if prebuffer < 0 {
      printed := new Byte[0];
      return false, printed;
    }
    printed := new Byte[prebuffer];
    var buffer := new PrintBuffer(printed, prebuffer, false, format);
    ok := buffer.PrintValue(item);
    printed := buffer.buffer;
    if ok {
      ValueNoNul(printed[..], 0, item, format, 0);
    }
  }

  /** cJSON_PrintPreallocated: two bytes more than the text, or one more than its C string, are always enough. */
  method PrintPreallocated(item: Json, buf: array<Byte>, len: int, format: bool) returns (ok: bool)
    requires Printable(item) && len <= INT_MAX && (len < 0 || len == buf.Length)
    modifies buf
    ensures ok ==> len == buf.Length && IsTextOf(buf[..], item, format)
    ensures Len(item, format, 0) + 2 <= len ==> ok
  {
    hide Shows, Len;
    if len < 0 {
      return false;
    }
    var buffer := new PrintBuffer(buf, len, true, format);
    ok := buffer.PrintValue(item);
    if ok {
      assert buffer.buffer == buf;
      ValueNoNul(buf[..], 0, item, format, 0);
    }
  }
}
