/**
 The language of the parser: exactly which texts it accepts, and the tree it makes of each.

 The grammar is that of RFC 8259 with what the parser tolerates beyond it: any byte up to the space as
 white space, leading zeros and bare points in numbers, control characters in strings, and escapes with
 malformed digits, which stand for a NUL byte.
 */
module JsonGrammar {
  import opened Bytes
  import opened JsonSpec
  import opened JsonNumbers
  import opened JsonString
  import opened JsonRoundTrip
  import opened JsonMinified

  // ---------- strings ----------

  /** What one step through the content of a string takes. */
  datatype Char = Plain(byte: Byte) | Short(letter: Byte, byte: Byte) | Unicode(codepoint: nat) | Broken

  function Length(c: Char): (n: nat)
    ensures n > 0
  {
    match c
    case Plain(_) => 1
    case Short(_, _) => 2
    case Unicode(codepoint) => EscapeSize(codepoint)
    case Broken => 6
  }

  /** The bytes in the tree. */
  function Meant(c: Char): seq<Byte> {
    match c
    case Plain(byte) => [byte]
    case Short(_, byte) => [byte]
    case Unicode(codepoint) => if codepoint < 0x110000 then Utf8(codepoint) else []
    case Broken => [0]
  }

  function AllMeant(chars: seq<Char>): seq<Byte> {
    if chars == [] then [] else Meant(chars[0]) + AllMeant(chars[1..])
  }

  /** The escapes of one letter. */
  predicate IsShort(letter: Byte, byte: Byte) {
    || (letter == 'b' as int && byte == 8) || (letter == 'f' as int && byte == 12) || (letter == 'n' as int && byte == 10)
    || (letter == 'r' as int && byte == 13) || (letter == 't' as int && byte == 9)
    || (letter == '"' as int && byte == letter) || (letter == '\\' as int && byte == letter) || (letter == '/' as int && byte == letter)
  }

  predicate CharAt(b: seq<Byte>, p: nat, c: Char, e: nat)
    requires p < e < |b|
  {
    match c
    case Plain(byte) => b[p] == byte && byte != '\\' as int
    case Short(letter, byte) => b[p] == '\\' as int && b[p + 1] == letter && IsShort(letter, byte)
    case Unicode(codepoint) =>
      b[p] == '\\' as int && b[p + 1] == 'u' as int && p + Length(c) <= e && Denotes(b, p, codepoint, p + Length(c))
    case Broken => b[p] == '\\' as int && b[p + 1] == 'u' as int && Malformed(b, p, e)
  }

  /** `chars` stand in `b` from `p` to `e`; when a broken escape took half of another, the last may take the quote too. */
  predicate CharsAt(b: seq<Byte>, p: nat, chars: seq<Char>, e: nat)
    requires e < |b|
    decreases |chars|
  {
    if chars == [] then p >= e else
      p < e && CharAt(b, p, chars[0], e) && CharsAt(b, p + Length(chars[0]), chars[1..], e)
  }

  /** A backslash that is not itself escaped stands in front, at `p` or later. */
  predicate Escaped(b: seq<Byte>, p: nat, x: nat)
    requires x <= |b|
  {
    p < x && b[x - 1] == '\\' as int && !Escaped(b, p, x - 1)
  }

  /** The first quote from `p` on that is not escaped is at `e`. */
  predicate Closes(b: seq<Byte>, p: nat, e: nat) {
    && p <= e < |b| && b[e] == '"' as int && !Escaped(b, p, e)
    && forall x :: p <= x < e && b[x] == '"' as int ==> Escaped(b, p, x)
  }

  lemma {:induction false} EndCloses(b: seq<Byte>, p: nat, q: nat)
    requires p <= q <= |b| && !Escaped(b, p, q) && (forall x :: p <= x < q && b[x] == '"' as int ==> Escaped(b, p, x))
    ensures var e := StringEnd(b, q);
            if e.Some? then Closes(b, p, e.value)
            else forall x :: p <= x < |b| && b[x] == '"' as int ==> Escaped(b, p, x)
    decreases |b| - q
  {
    if q < |b| && b[q] != QUOTE {
      if b[q] != BACKSLASH {
        EndCloses(b, p, q + 1);
      } else if q + 1 < |b| {
        assert Escaped(b, p, q + 1);
        EndCloses(b, p, q + 2);
      }
    }
  }

  /** The first pass finds the quote that closes the string. */
  lemma StringEndCloses(b: seq<Byte>, p: nat, e: nat)
    requires p <= |b|
    ensures StringEnd(b, p) == Some(e) <==> Closes(b, p, e)
  {
    EndCloses(b, p, p);
  }

  lemma ShortIs(letter: Byte, byte: Byte)
    ensures SimpleEscape(letter) == Some(byte) <==> IsShort(letter, byte)
  {
  }

  /** One step of the second pass reads one character. */
  lemma CharRead(b: seq<Byte>, p: nat, c: Char, e: nat)
    requires p < e < |b| && CharAt(b, p, c, e)
    ensures Unescape(b, p, e) == Prepend(Meant(c), Unescape(b, p + Length(c), e))
  {
    hide Utf16, Denotes, Malformed, Utf8, SimpleEscape;
    ShortIs(b[p + 1], if c.Short? then c.byte else 0);
    if c.Unicode? {
      NotMalformed(b, p, c.codepoint, e);
      EscapeMeans(b, p, e, c.codepoint, p + Length(c));
      ShortIs(b[p + 1], if SimpleEscape(b[p + 1]).Some? then SimpleEscape(b[p + 1]).value else 0);
    } else if c.Broken? {
      BrokenLong(b, p, e);
      EscapeMeans(b, p, e, 0, 0);
      ShortIs(b[p + 1], if SimpleEscape(b[p + 1]).Some? then SimpleEscape(b[p + 1]).value else 0);
    }
  }

  lemma NotMalformed(b: seq<Byte>, p: nat, codepoint: nat, e: nat)
    requires e <= |b| && p + EscapeSize(codepoint) <= e && Denotes(b, p, codepoint, p + EscapeSize(codepoint))
    ensures !Malformed(b, p, e) && codepoint < 0x110000
  {
    hide Hex4, IsHex;
  }

  lemma BrokenLong(b: seq<Byte>, p: nat, e: nat)
    requires e <= |b| && Malformed(b, p, e)
    ensures p + 6 <= e
  {
  }

  lemma {:induction false} CharsRead(b: seq<Byte>, p: nat, chars: seq<Char>, e: nat)
    requires e < |b| && CharsAt(b, p, chars, e)
    ensures Unescape(b, p, e) == Some(AllMeant(chars))
    decreases |chars|
  {
    hide CharAt, Meant, Length;
    if chars != [] {
      CharRead(b, p, chars[0], e);
      CharsRead(b, p + Length(chars[0]), chars[1..], e);
    }
  }

  /** The character at `p`, when the second pass does not fail there. */
  lemma CharFound(b: seq<Byte>, p: nat, e: nat) returns (c: Char)
    requires p < e < |b| && Unescape(b, p, e).Some?
    ensures CharAt(b, p, c, e)
    ensures Unescape(b, p, e) == Prepend(Meant(c), Unescape(b, p + Length(c), e))
  {
    hide Utf16, ShowsEscape, Malformed, Utf8, SimpleEscape;
    if b[p] != BACKSLASH {
      c := Plain(b[p]);
    } else if SimpleEscape(b[p + 1]).Some? {
      c := Short(b[p + 1], SimpleEscape(b[p + 1]).value);
      ShortIs(b[p + 1], c.byte);
    } else if Malformed(b, p, e) {
      c := Broken;
      EscapeMeans(b, p, e, 0, 0);
    } else {
      var u := Utf16(b, p, e);
      c := Unicode(u.value);
      if p + 2 <= e {
        EscapeMeans(b, p, e, u.value, u.next);
      }
    }
  }

  lemma {:induction false} CharsFound(b: seq<Byte>, p: nat, e: nat) returns (chars: seq<Char>)
    requires e < |b| && Unescape(b, p, e).Some?
    ensures CharsAt(b, p, chars, e) && Unescape(b, p, e) == Some(AllMeant(chars))
    decreases if p < e then e - p else 0
  {
    hide CharAt, Meant, Length;
    if p >= e {
      chars := [];
    } else {
      var c := CharFound(b, p, e);
      var rest := CharsFound(b, p + Length(c), e);
      chars := [c] + rest;
      assert chars[1..] == rest;
    }
  }

  /** The digits of `Unicode`, in both cases of their letters. */
  lemma HexIs(c: Byte, n: nat)
    requires n < 16
    ensures HexDigit(c) == Some(n) <==> c == "0123456789abcdef"[n] as int || c == "0123456789ABCDEF"[n] as int
  {
  }

  /** A string of `size` bytes between its quotes stands in `b` at `i`. */
  predicate StringAt(b: seq<Byte>, i: nat, chars: seq<Char>, size: nat) {
    && i + size + 2 <= |b| && b[i] == '"' as int
    && Closes(b, i + 1, i + 1 + size) && CharsAt(b, i + 1, chars, i + 1 + size)
  }

  /** A string is read exactly when it is one, as the bytes that its characters stand for. */
  lemma StringRead(b: seq<Byte>, i: nat, chars: seq<Char>, size: nat)
    requires CString(b) && StringAt(b, i, chars, size)
    ensures ParseString(b, i) == Ok(AllMeant(chars), i + size + 2) && i + size + 2 < |b|
  {
    hide StringEnd, Closes, CharsAt, Unescape, AllMeant;
    StringEndCloses(b, i + 1, i + 1 + size);
    CharsRead(b, i + 1, chars, i + 1 + size);
  }

  lemma StringFound(b: seq<Byte>, i: nat) returns (chars: seq<Char>, size: nat)
    requires CString(b) && i < |b| && ParseString(b, i).Ok?
    ensures StringAt(b, i, chars, size) && ParseString(b, i) == Ok(AllMeant(chars), i + size + 2)
  {
    hide Closes, CharsAt, Unescape, AllMeant;
    var e := StringEnd(b, i + 1).value;
    size := e - (i + 1);
    StringEndCloses(b, i + 1, e);
    chars := CharsFound(b, i + 1, e);
  }

  // ---------- trees ----------

  /** A value with the white space inside it, each stretch given by its length. */
  datatype Syntax =
    | Word(word: string)
    | Numeral(token: seq<Byte>)
    | Quoted(chars: seq<Char>, size: nat)
    | List(keyed: bool, gap: nat, entries: Entries)

  /** The white space is that behind the value and, when another entry follows, behind the comma. */
  datatype Entries = Done | Entry(name: Name, value: Syntax, after: nat, before: nat, next: Entries)

  /** The name of a member, with the white space in front of the colon and behind it. */
  datatype Name = Nameless | Name(chars: seq<Char>, size: nat, left: nat, right: nat)

  function Size(s: Syntax): (n: nat)
    ensures n > 0 || s.Word? || s.Numeral?
    decreases s
  {
    match s
    case Word(word) => |word|
    case Numeral(token) => |token|
    case Quoted(_, size) => size + 2
    case List(_, gap, entries) => 1 + gap + EntriesSize(entries) + 1
  }

  function NameSize(name: Name): nat {
    if name.Nameless? then 0 else name.size + 2 + name.left + 1 + name.right
  }

  function EntriesSize(entries: Entries): nat
    decreases entries
  {
    match entries
    case Done => 0
    case Entry(name, value, after, before, next) =>
      NameSize(name) + Size(value) + after + (if next.Done? then 0 else 1 + before) + EntriesSize(next)
  }

  predicate WordAt(b: seq<Byte>, i: nat, word: string) {
    i + |word| <= |b| && forall x {:trigger word[x]} :: 0 <= x < |word| ==> b[i + x] == word[x] as int
  }

  predicate GapAt(b: seq<Byte>, i: nat, n: nat) {
    i + n <= |b| && forall x :: i <= x < i + n ==> b[x] <= ' ' as int
  }

  /** A number that the parser takes: strtod converts all of it. */
  ghost predicate IsAcceptedNumber(t: seq<Byte>) {
    0 < |t| <= 63 && t[0] != '+' as int && t[0] != '.' as int && exists a: nat, f: nat :: Convertible(t, a, f, |t|)
  }

  ghost predicate SyntaxAt(b: seq<Byte>, i: nat, s: Syntax)
    decreases s
  {
    match s
    case Word(word) => word in {"null", "false", "true"} && WordAt(b, i, word)
    case Numeral(token) => IsAcceptedNumber(token) && ShowsToken(b, i, token)
    case Quoted(chars, size) => StringAt(b, i, chars, size)
    case List(keyed, gap, entries) =>
      var close := i + 1 + gap + EntriesSize(entries);
      && close < |b| && b[i] == (if keyed then '{' else '[') as int && b[close] == (if keyed then '}' else ']') as int
      && GapAt(b, i + 1, gap) && EntriesAt(b, i + 1 + gap, entries, keyed)
  }

  predicate NameAt(b: seq<Byte>, i: nat, name: Name, keyed: bool) {
    match name
    case Nameless => !keyed
    case Name(chars, size, left, right) =>
      var c := i + size + 2 + left;
      && keyed && c < |b| && StringAt(b, i, chars, size) && GapAt(b, i + size + 2, left)
      && b[c] == ':' as int && GapAt(b, c + 1, right)
  }

  ghost predicate EntriesAt(b: seq<Byte>, i: nat, entries: Entries, keyed: bool)
    decreases entries
  {
    match entries
    case Done => true
    case Entry(name, value, after, before, next) =>
      var v := i + NameSize(name);
      var n := v + Size(value);
      var c := n + after;
      && NameAt(b, i, name, keyed) && SyntaxAt(b, v, value) && GapAt(b, n, after)
      && (next.Entry? ==> c < |b| && b[c] == ',' as int && GapAt(b, c + 1, before) && EntriesAt(b, c + 1 + before, next, keyed))
  }

  function MeaningOfName(name: Name): seq<Byte> {
    if name.Nameless? then [] else AllMeant(name.chars)
  }

  function Meaning(s: Syntax): Json
    decreases s
  {
    match s
    case Word(word) => if word == "null" then Null else if word == "false" then False else True
    case Numeral(token) => Number(token)
    case Quoted(chars, _) => String(AllMeant(chars))
    case List(keyed, _, entries) => if keyed then Object(EntriesMeaning(entries)) else Array(EntriesMeaning(entries))
  }

  function EntriesMeaning(entries: Entries): Items
    decreases entries
  {
    match entries
    case Done => End
    case Entry(name, value, _, _, next) => Item(MeaningOfName(name), Meaning(value), EntriesMeaning(next))
  }

  // ---------- everything in the language is accepted ----------

  lemma WordIs(b: seq<Byte>, i: nat)
    ensures WordAt(b, i, "null") <==> IsNull(b, i)
    ensures WordAt(b, i, "false") <==> IsFalse(b, i)
    ensures WordAt(b, i, "true") <==> IsTrue(b, i)
  {
    var n, f, t := "null", "false", "true";
    assert n[0] == 'n' && n[1] == 'u' && n[2] == 'l' && n[3] == 'l';
    assert f[0] == 'f' && f[1] == 'a' && f[2] == 'l' && f[3] == 's' && f[4] == 'e';
    assert t[0] == 't' && t[1] == 'r' && t[2] == 'u' && t[3] == 'e';
    if WordAt(b, i, n) { assert b[i + 0] == n[0] as int && b[i + 1] == n[1] as int && b[i + 2] == n[2] as int && b[i + 3] == n[3] as int; }
    if WordAt(b, i, f) {
      assert b[i + 0] == f[0] as int && b[i + 1] == f[1] as int && b[i + 2] == f[2] as int && b[i + 3] == f[3] as int;
      assert b[i + 4] == f[4] as int;
    }
    if WordAt(b, i, t) { assert b[i + 0] == t[0] as int && b[i + 1] == t[1] as int && b[i + 2] == t[2] as int && b[i + 3] == t[3] as int; }
  }

  function Depth(s: Syntax): nat
    decreases s
  {
    if s.List? then 1 + EntriesDepth(s.entries) else 0
  }

  function EntriesDepth(entries: Entries): nat
    decreases entries
  {
    match entries
    case Done => 0
    case Entry(_, value, _, _, next) => if Depth(value) < EntriesDepth(next) then EntriesDepth(next) else Depth(value)
  }

  lemma SyntaxStart(b: seq<Byte>, i: nat, s: Syntax)
    requires SyntaxAt(b, i, s)
    ensures Size(s) > 0 && i + Size(s) <= |b| && b[i] > 32 && b[i] != CLOSE_BRACKET && b[i] != CLOSE_BRACE
  {
    hide EntriesAt, GapAt, Closes, CharsAt, EntriesSize;
    match s
    case Word(word) =>
      assert b[i + 0] == word[0] as int;
    case Numeral(token) =>
      var a: nat, f: nat :| Convertible(token, a, f, |token|);
      ConvertedChars(token, a, f);
      assert b[i + 0] == token[0];
    case _ =>
  }

  lemma WordRead(b: seq<Byte>, i: nat, word: string, depth: nat)
    requires CString(b) && i < |b| && SyntaxAt(b, i, Word(word))
    ensures ParseValue(b, i, depth) == Ok(Meaning(Word(word)), i + |word|)
  {
    hide ParseContainer, ParseString, ParseNumber;
    WordIs(b, i);
  }

  lemma NumeralRead(b: seq<Byte>, i: nat, token: seq<Byte>, depth: nat)
    requires CString(b) && i + |token| < |b| && SyntaxAt(b, i, Numeral(token)) && !NumberChar(b[i + |token|])
    ensures ParseValue(b, i, depth) == Ok(Number(token), i + |token|)
  {
    hide ParseContainer, ParseString, ParseNumber;
    var a: nat, f: nat :| Convertible(token, a, f, |token|);
    ConvertedChars(token, a, f);
    assert b[i + 0] == token[0];
    ConvertibleRead(b, i, token, a, f);
  }

  /** A number of the RFC is one that the parser takes. */
  lemma RfcNumber(t: seq<Byte>)
    requires IsNumber(t) && |t| <= 63
    ensures IsAcceptedNumber(t)
  {
    var a: nat, f: nat :| Spelled(t, a, f, |t|);
    assert Convertible(t, a, f, |t|);
  }

  lemma {:induction false} ValueReads(b: seq<Byte>, i: nat, s: Syntax, depth: nat)
    requires CString(b) && SyntaxAt(b, i, s) && Depth(s) + depth <= 1000
    requires i + Size(s) < |b| && !NumberChar(b[i + Size(s)])
    ensures ParseValue(b, i, depth) == Ok(Meaning(s), i + Size(s))
    decreases s, 1
  {
    match s
    case Word(word) => WordRead(b, i, word, depth);
    case Numeral(token) => NumeralRead(b, i, token, depth);
    case Quoted(chars, size) =>
      hide ParseContainer, ParseString, ParseNumber, StringAt;
      StringRead(b, i, chars, size);
    case List(keyed, gap, entries) => ListReads(b, i, s, depth);
  }

  lemma {:induction false} ListReads(b: seq<Byte>, i: nat, s: Syntax, depth: nat)
    requires CString(b) && s.List? && SyntaxAt(b, i, s) && Depth(s) + depth <= 1000 && i + Size(s) < |b|
    ensures ParseValue(b, i, depth) == Ok(Meaning(s), i + Size(s))
    decreases s, 0
  {
    hide ParseContainer, ParseItems, ParseString, ParseNumber, EntriesAt, EntriesSize, EntriesMeaning, EntriesDepth, Skip, GapAt;
    var k := i + 1 + s.gap;
    var close := k + EntriesSize(s.entries);
    NoEntries(s.entries);
    if s.entries.Entry? {
      EntriesStart(b, k, s.entries, s.keyed);
      SkipOver(b, k, 0);
      EntriesRead(b, k, k, s.entries, depth + 1, s.keyed, close);
    }
    SkipGap(b, i + 1, s.gap);
    ContainerStep(b, i, depth, s.keyed, EntriesMeaning(s.entries), close);
  }

  lemma NoEntries(entries: Entries)
    ensures entries.Done? ==> EntriesSize(entries) == 0
    ensures entries.Done? <==> EntriesMeaning(entries).End?
  {
  }

  /** The first entry, and how the text goes on behind it. */
  lemma EntriesShape(b: seq<Byte>, i: nat, entries: Entries, keyed: bool)
    requires entries.Entry? && EntriesAt(b, i, entries, keyed)
    ensures var v := i + NameSize(entries.name); var n := v + Size(entries.value); var c := n + entries.after;
            && NameAt(b, i, entries.name, keyed) && SyntaxAt(b, v, entries.value) && GapAt(b, n, entries.after)
            && if entries.next.Done? then EntriesSize(entries) == c - i
               else
                 && c < |b| && b[c] == COMMA && GapAt(b, c + 1, entries.before)
                 && EntriesAt(b, c + 1 + entries.before, entries.next, keyed)
                 && EntriesSize(entries) == c + 1 + entries.before - i + EntriesSize(entries.next)
    ensures Depth(entries.value) <= EntriesDepth(entries) && EntriesDepth(entries.next) <= EntriesDepth(entries)
    ensures EntriesMeaning(entries) == Item(MeaningOfName(entries.name), Meaning(entries.value), EntriesMeaning(entries.next))
  {
    hide SyntaxAt, GapAt, NameAt, Size, NameSize, Depth, Meaning;
  }

  lemma EntriesStart(b: seq<Byte>, i: nat, entries: Entries, keyed: bool)
    requires entries.Entry? && EntriesAt(b, i, entries, keyed)
    ensures i < |b| && b[i] > 32 && b[i] != CLOSE_BRACKET && b[i] != CLOSE_BRACE
  {
    hide SyntaxAt, EntriesAt, EntriesSize, GapAt, CharsAt, Closes;
    EntriesShape(b, i, entries, keyed);
    if entries.name.Nameless? {
      SyntaxStart(b, i, entries.value);
    }
  }

  /** Entries from `i` on, up to the closing bracket at `end`; `i0` is `i` or the place behind the comma before it. */
  lemma {:induction false} EntriesRead(b: seq<Byte>, i0: nat, i: nat, entries: Entries, depth: nat, keyed: bool, end: nat)
    requires CString(b) && entries.Entry? && EntriesAt(b, i, entries, keyed) && EntriesDepth(entries) + depth <= 1000
    requires end == i + EntriesSize(entries) < |b| && b[end] == if keyed then CLOSE_BRACE else CLOSE_BRACKET
    requires i0 < |b| && i < |b| && Skip(b, i0) == i
    ensures ParseItems(b, i0, depth, keyed) == Ok(EntriesMeaning(entries), end)
    decreases entries, 0
  {
    hide ParseValue, ParseItems, ParseItem, EntriesAt, EntriesSize, SyntaxAt, NameAt, EntriesMeaning, Meaning, MeaningOfName;
    hide Depth, EntriesDepth, Skip, Size, NameSize, GapAt;
    EntriesShape(b, i, entries, keyed);
    var n := i + NameSize(entries.name) + Size(entries.value);
    var c := n + entries.after;
    if entries.next.Done? {
      SkipGap(b, n, entries.after);
      EntryRead(b, i, entries, depth, keyed);
      NoEntries(entries.next);
      LastItemStep(b, i0, depth, keyed, MeaningOfName(entries.name), Meaning(entries.value), n);
    } else {
      var p := c + 1 + entries.before;
      SkipGap(b, n, entries.after);
      EntryRead(b, i, entries, depth, keyed);
      EntriesStart(b, p, entries.next, keyed);
      SkipGap(b, c + 1, entries.before);
      EntriesRead(b, c + 1, p, entries.next, depth, keyed, end);
      ItemStep(b, i0, depth, keyed, MeaningOfName(entries.name), Meaning(entries.value), n, c, EntriesMeaning(entries.next), end);
    }
  }

  lemma SkipGap(b: seq<Byte>, i: nat, n: nat)
    requires CString(b) && GapAt(b, i, n) && i + n < |b| && b[i + n] > 32
    ensures Skip(b, i) == i + n && !(n > 0 && b[i] > 32)
  {
    SkipOver(b, i, n);
  }

  /** The byte behind a value is no part of a number. */
  lemma EntryEnds(b: seq<Byte>, n: nat, gap: nat)
    requires GapAt(b, n, gap) && n + gap < |b| && (b[n + gap] == COMMA || b[n + gap] == CLOSE_BRACKET || b[n + gap] == CLOSE_BRACE)
    ensures !NumberChar(b[n])
  {
  }

  lemma {:induction false} EntryRead(b: seq<Byte>, i: nat, entries: Entries, depth: nat, keyed: bool)
    requires CString(b) && entries.Entry? && Depth(entries.value) + depth <= 1000 && i < |b|
    requires var v := i + NameSize(entries.name); var n := v + Size(entries.value); var c := n + entries.after;
             && NameAt(b, i, entries.name, keyed) && SyntaxAt(b, v, entries.value) && GapAt(b, n, entries.after)
             && c < |b| && (b[c] == COMMA || b[c] == CLOSE_BRACKET || b[c] == CLOSE_BRACE)
    ensures ParseItem(b, i, depth, keyed) ==
            Ok((MeaningOfName(entries.name), Meaning(entries.value)), i + NameSize(entries.name) + Size(entries.value))
    decreases entries.value, 2
  {
    hide ParseValue, ParseItem, ParseString, SyntaxAt, StringAt, Meaning, Depth, Skip, Size, GapAt;
    var v := i + NameSize(entries.name);
    var n := v + Size(entries.value);
    EntryEnds(b, n, entries.after);
    SyntaxStart(b, v, entries.value);
    ValueReads(b, v, entries.value, depth);
    match entries.name
    case Nameless => ElementStep(b, i, depth, Meaning(entries.value), n);
    case Name(chars, size, left, right) =>
      var q := i + size + 2;
      var c := q + left;
      StringRead(b, i, chars, size);
      SkipGap(b, q, left);
      SkipGap(b, c + 1, right);
      MemberStep(b, i, depth, AllMeant(chars), q, c, Meaning(entries.value), v, n);
  }

  // ---------- nothing else is accepted ----------

  lemma {:induction false} SkippedGap(b: seq<Byte>, i: nat)
    requires CString(b) && i < |b|
    ensures GapAt(b, i, Skip(b, i) - i)
    decreases |b| - i
  {
    if b[i] <= 32 && i + 1 < |b| {
      SkippedGap(b, i + 1);
    }
  }

  lemma NumeralFound(b: seq<Byte>, i: nat) returns (token: seq<Byte>)
    requires CString(b) && i < |b| && (b[i] == MINUS || Digit(b[i]))
    requires ParseNumber(b, i).Ok? && !NumberChar(b[ParseNumber(b, i).next])
    ensures SyntaxAt(b, i, Numeral(token)) && ParseNumber(b, i) == Ok(Number(token), i + |token|)
  {
    hide Strtod, NumberRun, Convertible;
    NumberWhole(b, i);
    token := b[i..ParseNumber(b, i).next];
    assert token[..|token|] == token;
    StrtodLongest(token);
    assert token[0] == b[i];
  }

  lemma {:induction false} ValueFound(b: seq<Byte>, i: nat, depth: nat) returns (s: Syntax)
    requires CString(b) && i < |b| && ParseValue(b, i, depth).Ok? && Delimited(b, ParseValue(b, i, depth).next)
    ensures SyntaxAt(b, i, s) && ParseValue(b, i, depth) == Ok(Meaning(s), i + Size(s)) && (s.List? ==> Depth(s) + depth <= 1000)
    decreases |b| - i, 1
  {
    hide ParseContainer, ParseNumber, ParseString, Delimited, EntriesAt, EntriesSize, EntriesMeaning, EntriesDepth, StringAt, AllMeant, WordAt;
    WordIs(b, i);
    if IsNull(b, i) {
      s := Word("null");
    } else if IsFalse(b, i) {
      s := Word("false");
    } else if IsTrue(b, i) {
      s := Word("true");
    } else if b[i] == QUOTE {
      var chars, size := StringFound(b, i);
      s := Quoted(chars, size);
    } else if b[i] == MINUS || Digit(b[i]) {
      DelimitedNumber(b, ParseNumber(b, i).next);
      var token := NumeralFound(b, i);
      s := Numeral(token);
    } else {
      s := ListFound(b, i, depth);
    }
  }

  lemma NoneAt(b: seq<Byte>, i: nat, keyed: bool)
    ensures EntriesAt(b, i, Done, keyed) && EntriesSize(Done) == 0 && EntriesDepth(Done) == 0 && EntriesMeaning(Done) == End
  {
  }

  lemma AssembledAt(b: seq<Byte>, i: nat, entries: Entries, keyed: bool)
    requires entries.Entry? && NameAt(b, i, entries.name, keyed) && SyntaxAt(b, i + NameSize(entries.name), entries.value)
    requires var n := i + NameSize(entries.name) + Size(entries.value); var c := n + entries.after;
             && GapAt(b, n, entries.after)
             && (entries.next.Entry? ==>
                   && c < |b| && b[c] == COMMA && GapAt(b, c + 1, entries.before)
                   && EntriesAt(b, c + 1 + entries.before, entries.next, keyed))
    ensures EntriesAt(b, i, entries, keyed)
    ensures EntriesSize(entries) == NameSize(entries.name) + Size(entries.value) + entries.after
              + (if entries.next.Done? then 0 else 1 + entries.before) + EntriesSize(entries.next)
    ensures EntriesDepth(entries) == if Depth(entries.value) < EntriesDepth(entries.next) then EntriesDepth(entries.next) else Depth(entries.value)
    ensures EntriesMeaning(entries) == Item(MeaningOfName(entries.name), Meaning(entries.value), EntriesMeaning(entries.next))
  {
    hide SyntaxAt, GapAt, NameAt, Size, NameSize, Depth, Meaning;
  }

  lemma {:induction false} ListFound(b: seq<Byte>, i: nat, depth: nat) returns (s: Syntax)
    requires CString(b) && i < |b| && (b[i] == OPEN_BRACKET || b[i] == OPEN_BRACE) && ParseContainer(b, i, depth).Ok?
    ensures s.List? && SyntaxAt(b, i, s) && ParseContainer(b, i, depth) == Ok(Meaning(s), i + Size(s)) && Depth(s) + depth <= 1000
    decreases |b| - i, 0
  {
    hide ParseItems, Skip, GapAt, EntriesAt, EntriesSize, EntriesDepth, EntriesMeaning;
    var keyed := b[i] == OPEN_BRACE;
    var k := Skip(b, i + 1);
    SkippedGap(b, i + 1);
    if b[k] == (if keyed then CLOSE_BRACE else CLOSE_BRACKET) {
      NoneAt(b, k, keyed);
      s := List(keyed, k - (i + 1), Done);
    } else {
      SkipTwice(b, i + 1);
      var entries := EntriesFound(b, k, depth + 1, keyed);
      s := List(keyed, k - (i + 1), entries);
    }
  }

  lemma {:induction false} EntriesFound(b: seq<Byte>, i0: nat, depth: nat, keyed: bool) returns (entries: Entries)
    requires CString(b) && i0 < |b| && ParseItems(b, i0, depth, keyed).Ok? && Delimiter(b[ParseItems(b, i0, depth, keyed).next])
    requires depth <= 1000
    ensures entries.Entry? && EntriesAt(b, Skip(b, i0), entries, keyed) && EntriesDepth(entries) + depth <= 1000
    ensures ParseItems(b, i0, depth, keyed) == Ok(EntriesMeaning(entries), Skip(b, i0) + EntriesSize(entries))
    decreases |b| - i0, 3
  {
    hide ParseItem, Skip, EntriesAt, EntriesSize, EntriesDepth, EntriesMeaning, NameAt, SyntaxAt, Size, NameSize, GapAt, Meaning, MeaningOfName, Depth;
    var i := Skip(b, i0);
    var n := ParseItem(b, i, depth, keyed).next;
    var c := Skip(b, n);
    SkippedGap(b, n);
    var name, value := EntryFound(b, i, depth, keyed);
    if b[c] == COMMA {
      var p := Skip(b, c + 1);
      SkippedGap(b, c + 1);
      var next := EntriesFound(b, c + 1, depth, keyed);
      entries := Entry(name, value, c - n, p - (c + 1), next);
      AssembledAt(b, i, entries, keyed);
    } else {
      entries := Entry(name, value, c - n, 0, Done);
      NoneAt(b, c, keyed);
      AssembledAt(b, i, entries, keyed);
    }
  }

  lemma {:induction false} EntryFound(b: seq<Byte>, i: nat, depth: nat, keyed: bool) returns (name: Name, value: Syntax)
    requires CString(b) && i < |b| && ParseItem(b, i, depth, keyed).Ok? && Delimited(b, ParseItem(b, i, depth, keyed).next)
    requires depth <= 1000
    ensures NameAt(b, i, name, keyed) && SyntaxAt(b, i + NameSize(name), value) && Depth(value) + depth <= 1000
    ensures ParseItem(b, i, depth, keyed) == Ok((MeaningOfName(name), Meaning(value)), i + NameSize(name) + Size(value))
    decreases |b| - i, 2
  {
    hide ParseValue, ParseString, Skip, SyntaxAt, Size, StringAt, GapAt, Meaning, AllMeant;
    if keyed {
      var chars, size := StringFound(b, i);
      var q := i + size + 2;
      var c := Skip(b, q);
      var v := Skip(b, c + 1);
      SkippedGap(b, q);
      SkippedGap(b, c + 1);
      name := Name(chars, size, c - q, v - (c + 1));
      value := ValueFound(b, v, depth);
    } else {
      name := Nameless;
      value := ValueFound(b, i, depth);
    }
  }

  // ---------- whole texts ----------

  /** The C string `s` is the value `t` with white space around it. */
  ghost predicate IsText(s: seq<Byte>, lead: nat, t: Syntax, trail: nat) {
    && |s| == lead + Size(t) + trail
    && GapAt(s + [0], 0, lead) && SyntaxAt(s + [0], lead, t) && GapAt(s + [0], lead + Size(t), trail)
  }

  lemma TextRead(s: seq<Byte>, lead: nat, t: Syntax, trail: nat)
    requires NulFree(s) && IsText(s, lead, t, trail) && Depth(t) <= 1000
    ensures ParseText(s, true) == Some(Meaning(t))
  {
    hide ParseValue, SyntaxAt, Skip, Size, Meaning, Depth;
    var b := s + [0];
    SyntaxStart(b, lead, t);
    SkipGap(b, 0, lead);
    SkipOver(b, lead + Size(t), trail);
    GapEnds(b, lead + Size(t), trail);
    ValueReads(b, lead, t, 0);
    AtEnd(b, lead + Size(t), trail);
  }

  /** Without the demand for a terminator anything may follow that does not go on with a number. */
  lemma PrefixRead(s: seq<Byte>, lead: nat, t: Syntax)
    requires NulFree(s) && GapAt(s + [0], 0, lead) && SyntaxAt(s + [0], lead, t) && Depth(t) <= 1000
    requires lead + Size(t) <= |s| && !GoesOn((s + [0])[lead + Size(t)])
    ensures ParseText(s, false) == Some(Meaning(t))
    ensures ParseValue(s + [0], Skip(s + [0], 0), 0).next == lead + Size(t)
  {
    hide ParseValue, SyntaxAt, Skip, Size, Meaning, Depth;
    var b := s + [0];
    SyntaxStart(b, lead, t);
    SkipGap(b, 0, lead);
    ValueReads(b, lead, t, 0);
  }

  lemma GapEnds(b: seq<Byte>, n: nat, gap: nat)
    requires GapAt(b, n, gap) && n + gap < |b| && b[n + gap] == 0
    ensures !NumberChar(b[n])
  {
  }

  lemma AtEnd(b: seq<Byte>, n: nat, gap: nat)
    requires CString(b) && GapAt(b, n, gap) && n + gap == |b| - 1
    ensures b[Skip(b, n)] == 0
  {
    SkipOver(b, n, gap);
  }

  lemma TextFound(s: seq<Byte>) returns (lead: nat, t: Syntax, trail: nat)
    requires NulFree(s) && ParseText(s, true).Some?
    ensures IsText(s, lead, t, trail) && Depth(t) <= 1000 && ParseText(s, true) == Some(Meaning(t))
  {
    hide ParseValue, SyntaxAt, Skip, Size, Meaning, GapAt, EntriesDepth;
    var b := s + [0];
    lead := Skip(b, 0);
    t := ValueFound(b, lead, 0);
    var n := lead + Size(t);
    trail := Skip(b, n) - n;
    SkippedGap(b, 0);
    SkippedGap(b, n);
  }

  /**
   The parser accepts exactly the texts of the grammar with brackets nested up to a thousand deep, and the
   tree that it makes is the meaning of the text.
   */
  lemma Language(s: seq<Byte>, v: Json)
    requires NulFree(s)
    ensures ParseText(s, true) == Some(v) <==>
            exists lead: nat, t: Syntax, trail: nat :: IsText(s, lead, t, trail) && Depth(t) <= 1000 && Meaning(t) == v
  {
    hide ParseText, IsText, Depth, Meaning;
    if ParseText(s, true) == Some(v) {
      var lead, t, trail := TextFound(s);
    }
    forall lead: nat, t: Syntax, trail: nat | IsText(s, lead, t, trail) && Depth(t) <= 1000
      ensures ParseText(s, true) == Some(Meaning(t))
    {
      TextRead(s, lead, t, trail);
    }
  }
}
