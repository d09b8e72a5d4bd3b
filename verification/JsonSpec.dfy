/**
 What the JSON parser accepts and what the printer writes, as functions on byte sequences.

 A buffer is a C string with its terminator.  Numbers are kept as the text they were written with: a
 number is a token of the decimal grammar that strtod consumes.
 */
module JsonSpec {
  import opened Bytes

  const NESTING_LIMIT: nat := 1000
  const NUMBER_ROOM: nat := 63

  const TAB: Byte := 9
  const NEWLINE: Byte := 10
  const SPACE: Byte := 32
  const QUOTE: Byte := 34
  const PLUS: Byte := 43
  const COMMA: Byte := 44
  const MINUS: Byte := 45
  const DOT: Byte := 46
  const SLASH: Byte := 47
  const COLON: Byte := 58
  const UPPER_E: Byte := 69
  const OPEN_BRACKET: Byte := 91
  const BACKSLASH: Byte := 92
  const CLOSE_BRACKET: Byte := 93
  const LOWER_E: Byte := 101
  const LOWER_U: Byte := 117
  const OPEN_BRACE: Byte := 123
  const CLOSE_BRACE: Byte := 125

  /** `cJSON`; the children of an array or object form a list, whose items have keys in objects. */
  datatype Json =
    | Null
    | False
    | True
    | Number(token: seq<Byte>)
    | String(text: seq<Byte>)
    | Array(child: Items)
    | Object(child: Items)

  datatype Items = End | Item(key: seq<Byte>, value: Json, next: Items)

  datatype Parsed<T> = Fail | Ok(value: T, next: nat)

  datatype Option<T> = None | Some(value: T)

  predicate NulFree(s: seq<Byte>) {
    forall i :: 0 <= i < |s| ==> s[i] != 0
  }

  /** A C string with its terminator. */
  predicate CString(b: seq<Byte>) {
    |b| > 0 && b[|b| - 1] == 0 && forall i :: 0 <= i < |b| - 1 ==> b[i] != 0
  }

  // ---------- white space and numbers ----------

  /** buffer_skip_whitespace, which never goes past the terminator. */
  function Skip(b: seq<Byte>, i: nat): (j: nat)
    requires CString(b) && i < |b|
    ensures i <= j < |b| && (b[j] > 32 || j == |b| - 1)
    decreases |b| - i
  {
    if b[i] > 32 || i == |b| - 1 then i else Skip(b, i + 1)
  }

  lemma {:induction false} SkipTwice(b: seq<Byte>, i: nat)
    requires CString(b) && i < |b|
    ensures Skip(b, Skip(b, i)) == Skip(b, i)
    decreases |b| - i
  {
    if b[i] <= 32 && i + 1 < |b| {
      SkipTwice(b, i + 1);
    }
  }

  predicate Digit(c: Byte) {
    48 <= c <= 57
  }

  predicate NumberChar(c: Byte) {
    Digit(c) || c == PLUS || c == MINUS || c == LOWER_E || c == UPPER_E || c == DOT
  }

  /** How many bytes from `i` on can belong to a number, with room for `room` of them. */
  function NumberRun(b: seq<Byte>, i: nat, room: nat): (n: nat)
    requires CString(b) && i < |b|
    ensures n <= room && i + n < |b|
    decreases room
  {
    if room > 0 && NumberChar(b[i]) then 1 + NumberRun(b, i + 1, room - 1) else 0
  }

  function Digits(s: seq<Byte>, i: nat): (n: nat)
    requires i <= |s|
    ensures i + n <= |s|
    decreases |s| - i
  {
    if i < |s| && Digit(s[i]) then 1 + Digits(s, i + 1) else 0
  }

  /** Where the exponent that may start at `i` ends. */
  function ExponentEnd(s: seq<Byte>, i: nat): (j: nat)
    requires i <= |s|
    ensures i <= j <= |s|
  {
    if i < |s| && (s[i] == LOWER_E || s[i] == UPPER_E) then
      var j := if i + 1 < |s| && (s[i + 1] == PLUS || s[i + 1] == MINUS) then i + 2 else i + 1;
      if Digits(s, j) > 0 then j + Digits(s, j) else i
    else i
  }

  /** How much of `s`, a run of number characters, strtod converts; 0 when there is no number. */
  function Strtod(s: seq<Byte>): (n: nat)
    ensures n <= |s|
  {
    var i := if |s| > 0 && (s[0] == PLUS || s[0] == MINUS) then 1 else 0;
    var whole := Digits(s, i);
    var dot := i + whole < |s| && s[i + whole] == DOT;
    var fraction := if dot then Digits(s, i + whole + 1) else 0;
    if whole + fraction == 0 then 0
    else ExponentEnd(s, i + whole + (if dot then 1 + fraction else 0))
  }

  function ParseNumber(b: seq<Byte>, i: nat): (r: Parsed<Json>)
    requires CString(b) && i < |b|
    ensures r.Ok? ==> i < r.next < |b|
  {
    var run := b[i..i + NumberRun(b, i, NUMBER_ROOM)];
    var n := Strtod(run);
    if n == 0 then Fail else
      Ok(Number(run[..n]), i + n)
  }

  // ---------- strings ----------

  /** The first pass of parse_string: where the string that starts behind place `p - 1` ends. */
  function StringEnd(b: seq<Byte>, p: nat): (e: Option<nat>)
    requires p <= |b|
    ensures e.Some? ==> p <= e.value < |b| && b[e.value] == QUOTE
    decreases |b| - p
  {
    if p == |b| then None
    else if b[p] == QUOTE then Some(p)
    else if b[p] != BACKSLASH then StringEnd(b, p + 1)
    else if p + 1 == |b| then None
    else StringEnd(b, p + 2)
  }

  function HexDigit(c: Byte): Option<nat> {
    if 48 <= c <= 57 then Some(c - 48)
    else if 65 <= c <= 70 then Some(c - 55)
    else if 97 <= c <= 102 then Some(c - 87)
    else None
  }

  predicate IsHex(b: seq<Byte>, i: nat)
    requires i + 4 <= |b|
  {
    forall x :: i <= x < i + 4 ==> HexDigit(b[x]).Some?
  }

  /** parse_hex4; anything that is not four hexadecimal digits counts as zero. */
  function Hex4(b: seq<Byte>, i: nat): (h: nat)
    requires i + 4 <= |b|
    ensures h < 0x10000 && (!IsHex(b, i) ==> h == 0)
  {
    if !IsHex(b, i) then 0 else
      HexDigit(b[i]).value * 4096 + HexDigit(b[i + 1]).value * 256 + HexDigit(b[i + 2]).value * 16 + HexDigit(b[i + 3]).value
  }

  /** Section 3 of RFC 3629. */
  function Utf8(codepoint: nat): (s: seq<Byte>)
    requires codepoint < 0x110000
  {
    if codepoint < 0x80 then [codepoint]
    else if codepoint < 0x800 then [0xC0 + codepoint / 64, 0x80 + codepoint % 64]
    else if codepoint < 0x10000 then [0xE0 + codepoint / 4096, 0x80 + codepoint / 64 % 64, 0x80 + codepoint % 64]
    else [0xF0 + codepoint / 262144, 0x80 + codepoint / 4096 % 64, 0x80 + codepoint / 64 % 64, 0x80 + codepoint % 64]
  }

  /** The code point of the escape at `p`, one or two sequences of six bytes, and where it ends. */
  function Utf16(b: seq<Byte>, p: nat, end: nat): (r: Parsed<nat>)
    requires p <= end <= |b|
    ensures r.Ok? ==> r.value < 0x110000 && (r.next == p + 6 || r.next == p + 12) && r.next <= end
  {
    if end - p < 6 then Fail else
      var first := Hex4(b, p + 2);
      if 0xDC00 <= first <= 0xDFFF then Fail
      else if 0xD800 <= first <= 0xDBFF then
        if end - (p + 6) < 6 || b[p + 6] != BACKSLASH || b[p + 7] != LOWER_U then Fail else
          var second := Hex4(b, p + 8);
          if second < 0xDC00 || second > 0xDFFF then Fail
          else Ok(0x10000 + first % 1024 * 1024 + second % 1024, p + 12)
      else Ok(first, p + 6)
  }

  /** What the escapes of one letter stand for. */
  function SimpleEscape(c: Byte): Option<Byte> {
    if c == 98 then Some(8)
    else if c == 102 then Some(12)
    else if c == 110 then Some(10)
    else if c == 114 then Some(13)
    else if c == 116 then Some(9)
    else if c == QUOTE || c == BACKSLASH || c == SLASH then Some(c)
    else None
  }

  /** The second pass of parse_string, from `p` to `end`. */
  function Unescape(b: seq<Byte>, p: nat, end: nat): Option<seq<Byte>>
    requires end < |b|
    decreases end - p
  {
    if p >= end then Some([])
    else if b[p] != BACKSLASH then Prepend([b[p]], Unescape(b, p + 1, end))
    else if SimpleEscape(b[p + 1]).Some? then Prepend([SimpleEscape(b[p + 1]).value], Unescape(b, p + 2, end))
    else if b[p + 1] == LOWER_U && Utf16(b, p, end).Ok? then
      var u := Utf16(b, p, end);
      Prepend(Utf8(u.value), Unescape(b, u.next, end))
    else None
  }

  function Prepend(s: seq<Byte>, t: Option<seq<Byte>>): Option<seq<Byte>> {
    if t.None? then None else Some(s + t.value)
  }

  function ParseString(b: seq<Byte>, i: nat): (r: Parsed<seq<Byte>>)
    requires CString(b) && i < |b|
    ensures r.Ok? ==> i + 1 < r.next < |b| && b[i] == QUOTE
  {
    if b[i] != QUOTE then Fail else
      var e := StringEnd(b, i + 1);
      if e.None? then Fail else
        var s := Unescape(b, i + 1, e.value);
        if s.None? then Fail else Ok(s.value, e.value + 1)
  }

  // ---------- values ----------

  /** "null" */
  predicate IsNull(b: seq<Byte>, i: nat) {
    i + 4 <= |b| && b[i] == 110 && b[i + 1] == 117 && b[i + 2] == 108 && b[i + 3] == 108
  }

  /** "false" */
  predicate IsFalse(b: seq<Byte>, i: nat) {
    i + 5 <= |b| && b[i] == 102 && b[i + 1] == 97 && b[i + 2] == 108 && b[i + 3] == 115 && b[i + 4] == 101
  }

  /** "true" */
  predicate IsTrue(b: seq<Byte>, i: nat) {
    i + 4 <= |b| && b[i] == 116 && b[i + 1] == 114 && b[i + 2] == 117 && b[i + 3] == 101
  }

  function ParseValue(b: seq<Byte>, i: nat, depth: nat): (r: Parsed<Json>)
    requires CString(b) && i < |b|
    ensures r.Ok? ==> i < r.next < |b|
    decreases |b| - i, 1
  {
    if IsNull(b, i) then Ok(Null, i + 4)
    else if IsFalse(b, i) then Ok(False, i + 5)
    else if IsTrue(b, i) then Ok(True, i + 4)
    else if b[i] == QUOTE then
      var s := ParseString(b, i);
      if s.Fail? then Fail else Ok(String(s.value), s.next)
    else if b[i] == MINUS || Digit(b[i]) then ParseNumber(b, i)
    else if b[i] == OPEN_BRACKET || b[i] == OPEN_BRACE then ParseContainer(b, i, depth)
    else Fail
  }

  /** parse_array and parse_object */
  function ParseContainer(b: seq<Byte>, i: nat, depth: nat): (r: Parsed<Json>)
    requires CString(b) && i < |b| && (b[i] == OPEN_BRACKET || b[i] == OPEN_BRACE)
    ensures r.Ok? ==> i < r.next < |b|
    decreases |b| - i, 0
  {
    var keyed := b[i] == OPEN_BRACE;
    var close := if keyed then CLOSE_BRACE else CLOSE_BRACKET;
    if depth >= NESTING_LIMIT then Fail else
      var j := Skip(b, i + 1);
      if b[j] == close then Ok(if keyed then Object(End) else Array(End), j + 1) else
        var items := ParseItems(b, j, depth + 1, keyed);
        if items.Fail? || b[items.next] != close then Fail
        else Ok(if keyed then Object(items.value) else Array(items.value), items.next + 1)
  }

  /** The items from `i` on, and the place after the last of them and the white space behind it. */
  function ParseItems(b: seq<Byte>, i: nat, depth: nat, keyed: bool): (r: Parsed<Items>)
    requires CString(b) && i < |b|
    ensures r.Ok? ==> i < r.next < |b|
    decreases |b| - i, 3
  {
    var item := ParseItem(b, Skip(b, i), depth, keyed);
    if item.Fail? then Fail else
      var j := Skip(b, item.next);
      if b[j] != COMMA then Ok(Item(item.value.0, item.value.1, End), j) else
        var rest := ParseItems(b, j + 1, depth, keyed);
        if rest.Fail? then Fail else Ok(Item(item.value.0, item.value.1, rest.value), rest.next)
  }

  /** One item, with the name that it has in an object. */
  function ParseItem(b: seq<Byte>, i: nat, depth: nat, keyed: bool): (r: Parsed<(seq<Byte>, Json)>)
    requires CString(b) && i < |b|
    ensures r.Ok? ==> i < r.next < |b|
    decreases |b| - i, 2
  {
    if !keyed then
      var v := ParseValue(b, i, depth);
      if v.Fail? then Fail else Ok(([], v.value), v.next)
    else
      var key := ParseString(b, i);
      if key.Fail? then Fail else
        var j := Skip(b, key.next);
        if b[j] != COLON then Fail else
          var v := ParseValue(b, Skip(b, j + 1), depth);
          if v.Fail? then Fail else Ok((key.value, v.value), v.next)
  }

  /** cJSON_ParseWithOpts on the C string `s`. */
  function ParseText(s: seq<Byte>, requireTerminator: bool): Option<Json>
    requires NulFree(s)
  {
    var b := s + [0];
    var r := ParseValue(b, Skip(b, 0), 0);
    if r.Fail? || (requireTerminator && b[Skip(b, r.next)] != 0) then None else Some(r.value)
  }

  // ---------- printing ----------

  function HexChar(n: nat): Byte
    requires n < 16
  {
    if n < 10 then 48 + n else 87 + n
  }

  /** The letter of the escapes that have one. */
  function EscapeLetter(c: Byte): Option<Byte> {
    if c == QUOTE || c == BACKSLASH then Some(c)
    else if c == 8 then Some(98)
    else if c == 12 then Some(102)
    else if c == 10 then Some(110)
    else if c == 13 then Some(114)
    else if c == 9 then Some(116)
    else None
  }

  predicate Plain(c: Byte) {
    c > 31 && c != QUOTE && c != BACKSLASH
  }

  /** How many bytes a character of a string is written with. */
  function EscapeLen(c: Byte): nat {
    if Plain(c) then 1 else if EscapeLetter(c).Some? then 2 else 6
  }

  predicate ShowsByte(b: seq<Byte>, i: nat, c: Byte) {
    && i + EscapeLen(c) <= |b|
    && if Plain(c) then b[i] == c
       else b[i] == BACKSLASH &&
            if EscapeLetter(c).Some? then b[i + 1] == EscapeLetter(c).value
            else b[i + 1] == LOWER_U && b[i + 2] == 48 && b[i + 3] == 48 && b[i + 4] == HexChar(c / 16) && b[i + 5] == HexChar(c % 16)
  }

  function TextLen(s: seq<Byte>): nat {
    if s == [] then 0 else EscapeLen(s[0]) + TextLen(s[1..])
  }

  predicate ShowsText(b: seq<Byte>, i: nat, s: seq<Byte>)
    decreases s
  {
    s == [] || (ShowsByte(b, i, s[0]) && ShowsText(b, i + EscapeLen(s[0]), s[1..]))
  }

  /** The string `s` in quotes stands in `b` from `i` to `j`. */
  predicate ShowsString(b: seq<Byte>, i: nat, s: seq<Byte>, j: nat) {
    && j == i + TextLen(s) + 2 && j <= |b|
    && b[i] == QUOTE && ShowsText(b, i + 1, s) && b[j - 1] == QUOTE
  }

  function StringLen(s: seq<Byte>): nat {
    TextLen(s) + 2
  }

  predicate ShowsToken(b: seq<Byte>, i: nat, t: seq<Byte>) {
    i + |t| <= |b| && forall x {:trigger t[x]} :: 0 <= x < |t| ==> b[i + x] == t[x]
  }

  predicate ShowsTabs(b: seq<Byte>, i: nat, n: nat) {
    i + n <= |b| && forall x :: i <= x < i + n ==> b[x] == TAB
  }

  /** How many tabs are written at depth `depth`. */
  function Indent(format: bool, depth: nat): nat {
    if format then depth else 0
  }

  /** A separator, and what formatting adds to it. */
  function Width(format: bool): nat {
    if format then 2 else 1
  }

  predicate ShowsSign(b: seq<Byte>, i: nat, c: Byte, format: bool, pad: Byte) {
    i + Width(format) <= |b| && b[i] == c && (format ==> b[i + 1] == pad)
  }

  // The text of a tree: its length, and the places its bytes have in `b` when it starts at `i`.

  function Len(v: Json, format: bool, depth: nat): nat
    decreases v, 0
  {
    match v
    case Null => 4
    case False => 5
    case True => 4
    case Number(token) => |token|
    case String(s) => StringLen(s)
    case Array(child) => 2 + ElementsLen(child, format, depth + 1)
    case Object(child) => Width(format) + MembersLen(child, format, depth + 1) + Indent(format, depth) + 1
  }

  function ElementsLen(items: Items, format: bool, depth: nat): nat
    decreases items
  {
    match items
    case End => 0
    case Item(_, v, next) =>
      Len(v, format, depth) + (if next.End? then 0 else Width(format)) + ElementsLen(next, format, depth)
  }

  /** The comma and the line break behind a member. */
  function EndingLen(next: Items, format: bool): nat {
    (if next.End? then 0 else 1) + if format then 1 else 0
  }

  function MemberLen(key: seq<Byte>, v: Json, format: bool, depth: nat): nat
    decreases v, 1
  {
    Indent(format, depth) + StringLen(key) + Width(format) + Len(v, format, depth)
  }

  function MembersLen(items: Items, format: bool, depth: nat): nat
    decreases items
  {
    match items
    case End => 0
    case Item(key, v, next) =>
      MemberLen(key, v, format, depth) + EndingLen(next, format) + MembersLen(next, format, depth)
  }

  /** What print_value writes for `v` at nesting depth `depth` stands in `b` from `i` on. */
  predicate Shows(b: seq<Byte>, i: nat, v: Json, format: bool, depth: nat)
    decreases v, 0
  {
    && i + Len(v, format, depth) <= |b|
    && match v
       case Null => IsNull(b, i)
       case False => IsFalse(b, i)
       case True => IsTrue(b, i)
       case Number(token) => ShowsToken(b, i, token)
       case String(s) => ShowsString(b, i, s, i + StringLen(s))
       case Array(child) =>
         var e := i + 1 + ElementsLen(child, format, depth + 1);
         b[i] == OPEN_BRACKET && ShowsElements(b, i + 1, child, format, depth + 1) && b[e] == CLOSE_BRACKET
       case Object(child) =>
         var p := i + Width(format);
         var e := p + MembersLen(child, format, depth + 1);
         && ShowsSign(b, i, OPEN_BRACE, format, NEWLINE) && ShowsMembers(b, p, child, format, depth + 1)
         && ShowsTabs(b, e, Indent(format, depth)) && b[e + Indent(format, depth)] == CLOSE_BRACE
  }

  predicate ShowsElements(b: seq<Byte>, i: nat, items: Items, format: bool, depth: nat)
    decreases items
  {
    match items
    case End => i <= |b|
    case Item(_, v, next) =>
      var j := i + Len(v, format, depth);
      && Shows(b, i, v, format, depth)
      && if next.End? then true
         else ShowsSign(b, j, COMMA, format, SPACE) && ShowsElements(b, j + Width(format), next, format, depth)
  }

  predicate ShowsEnding(b: seq<Byte>, i: nat, next: Items, format: bool) {
    && i + EndingLen(next, format) <= |b|
    && (next.Item? ==> b[i] == COMMA) && (format ==> b[i + EndingLen(next, format) - 1] == NEWLINE)
  }

  predicate ShowsMember(b: seq<Byte>, i: nat, key: seq<Byte>, v: Json, format: bool, depth: nat)
    decreases v, 1
  {
    var k := i + Indent(format, depth);
    var c := k + StringLen(key);
    && ShowsTabs(b, i, Indent(format, depth)) && ShowsString(b, k, key, c)
    && ShowsSign(b, c, COLON, format, TAB) && Shows(b, c + Width(format), v, format, depth)
  }

  predicate ShowsMembers(b: seq<Byte>, i: nat, items: Items, format: bool, depth: nat)
    decreases items
  {
    match items
    case End => i <= |b|
    case Item(key, v, next) =>
      var j := i + MemberLen(key, v, format, depth);
      && ShowsMember(b, i, key, v, format, depth) && ShowsEnding(b, j, next, format)
      && ShowsMembers(b, j + EndingLen(next, format), next, format, depth)
  }
}
