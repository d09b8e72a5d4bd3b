/** The text of a given tree, in given characters. */
module JsonKnown {
  import opened Bytes
  import opened JsonSpec

  const FIRST: string := "{\n\t\"a\":\t"
  const SECOND: string := "[1, null],\n"
  const THIRD: string := "\t\"b\":\t{\n\t\t\"c\":\t"
  const FOURTH: string := "true\n\t}\n}"
  const FORMATTED: string := FIRST + (SECOND + (THIRD + FOURTH))

  function Name(c: char): seq<Byte> {
    Ascii([c])
  }

  const ELEMENTS: Items := Item([], Number(Name('1')), Item([], Null, End))
  const INNER: Items := Item(Name('c'), True, End)
  const MEMBERS: Items := Item(Name('a'), Array(ELEMENTS), Item(Name('b'), Object(INNER), End))

  lemma PlainName(b: seq<Byte>, i: nat, c: char)
    requires i + 3 <= |b| && b[i] == QUOTE && b[i + 1] == c as int && b[i + 2] == QUOTE && 'a' <= c <= 'z'
    ensures ShowsString(b, i, Name(c), i + 3) && StringLen(Name(c)) == 3
  {
    var s := Name(c);
    assert s[1..] == [] && Plain(s[0]);
    assert ShowsText(b, i + 2, s[1..]);
  }

  lemma OneDigit(b: seq<Byte>, i: nat, d: nat)
    requires i < |b| && b[i] == '1' as int
    ensures Shows(b, i, Number(Name('1')), true, d) && Len(Number(Name('1')), true, d) == 1
  {
  }

  /** "1, null" */
  lemma Elements(b: seq<Byte>, i: nat)
    requires i + 7 <= |b| && b[i] == '1' as int && b[i + 1] == ',' as int && b[i + 2] == ' ' as int && IsNull(b, i + 3)
    ensures ShowsElements(b, i, ELEMENTS, true, 2) && ElementsLen(ELEMENTS, true, 2) == 7
  {
    hide Shows, Len;
    OneDigit(b, i, 2);
    var last := Item([], Null, End);
    assert Shows(b, i + 3, Null, true, 2) && Len(Null, true, 2) == 4 by {
      NullShown(b, i + 3);
    }
    assert ElementsLen(last, true, 2) == 4 && ShowsElements(b, i + 3, last, true, 2);
  }

  lemma NullShown(b: seq<Byte>, i: nat)
    requires IsNull(b, i)
    ensures Shows(b, i, Null, true, 2) && Len(Null, true, 2) == 4
  {
  }

  lemma TrueShown(b: seq<Byte>, i: nat)
    requires IsTrue(b, i)
    ensures Shows(b, i, True, true, 2) && Len(True, true, 2) == 4
  {
  }

  /** A member with its tabs, its colon and the tab behind that. */
  lemma Member(b: seq<Byte>, i: nat, d: nat, c: char, v: Json)
    requires ShowsTabs(b, i, d) && 'a' <= c <= 'z' && i + d + 5 <= |b| && Shows(b, i + d + 5, v, true, d)
    requires b[i + d] == QUOTE && b[i + d + 1] == c as int && b[i + d + 2] == QUOTE && b[i + d + 3] == COLON && b[i + d + 4] == TAB
    ensures ShowsMember(b, i, Name(c), v, true, d) && MemberLen(Name(c), v, true, d) == d + 5 + Len(v, true, d)
  {
    hide Shows, Len, ShowsString, StringLen;
    PlainName(b, i + d, c);
  }

  /** The last member of an object, and one that is followed by others. */
  lemma LastMember(b: seq<Byte>, i: nat, d: nat, key: seq<Byte>, v: Json)
    requires ShowsMember(b, i, key, v, true, d)
    requires var j := i + MemberLen(key, v, true, d); j < |b| && b[j] == NEWLINE
    ensures ShowsMembers(b, i, Item(key, v, End), true, d) && MembersLen(Item(key, v, End), true, d) == MemberLen(key, v, true, d) + 1
  {
    hide ShowsMember, MemberLen;
    assert MembersLen(End, true, d) == 0;
    assert ShowsMembers(b, i + MemberLen(key, v, true, d) + 1, End, true, d);
  }

  lemma NextMember(b: seq<Byte>, i: nat, d: nat, key: seq<Byte>, v: Json, next: Items)
    requires next.Item? && ShowsMember(b, i, key, v, true, d)
    requires var j := i + MemberLen(key, v, true, d);
             j + 2 <= |b| && b[j] == COMMA && b[j + 1] == NEWLINE && ShowsMembers(b, j + 2, next, true, d)
    ensures ShowsMembers(b, i, Item(key, v, next), true, d)
    ensures MembersLen(Item(key, v, next), true, d) == MemberLen(key, v, true, d) + 2 + MembersLen(next, true, d)
  {
    hide ShowsMember, MemberLen;
  }

  lemma Braces(b: seq<Byte>, i: nat, d: nat, child: Items)
    requires i + 2 <= |b| && b[i] == OPEN_BRACE && b[i + 1] == NEWLINE && ShowsMembers(b, i + 2, child, true, d + 1)
    requires var e := i + 2 + MembersLen(child, true, d + 1); e + d < |b| && ShowsTabs(b, e, d) && b[e + d] == CLOSE_BRACE
    ensures Shows(b, i, Object(child), true, d) && Len(Object(child), true, d) == 3 + MembersLen(child, true, d + 1) + d
  {
    hide ShowsMembers, MembersLen;
  }

  lemma Brackets(b: seq<Byte>, i: nat)
    requires i + 9 <= |b| && b[i] == OPEN_BRACKET && b[i + 8] == CLOSE_BRACKET
    requires b[i + 1] == '1' as int && b[i + 2] == ',' as int && b[i + 3] == ' ' as int && IsNull(b, i + 4)
    ensures Shows(b, i, Array(ELEMENTS), true, 1) && Len(Array(ELEMENTS), true, 1) == 9
  {
    hide ShowsElements, ElementsLen;
    Elements(b, i + 1);
  }

  lemma FirstCharacters()
    ensures |FIRST| == 8
    ensures FIRST[0] == '{' && FIRST[1] == '\n' && FIRST[2] == '\t' && FIRST[3] == '"'
    ensures FIRST[4] == 'a' && FIRST[5] == '"' && FIRST[6] == ':' && FIRST[7] == '\t'
  {
  }

  lemma SecondCharacters()
    ensures |SECOND| == 11
    ensures SECOND[0] == '[' && SECOND[1] == '1' && SECOND[2] == ',' && SECOND[3] == ' '
    ensures SECOND[4] == 'n' && SECOND[5] == 'u' && SECOND[6] == 'l' && SECOND[7] == 'l'
    ensures SECOND[8] == ']' && SECOND[9] == ',' && SECOND[10] == '\n'
  {
  }

  lemma ThirdCharacters()
    ensures |THIRD| == 15
    ensures THIRD[0] == '\t' && THIRD[1] == '"' && THIRD[2] == 'b' && THIRD[3] == '"'
    ensures THIRD[4] == ':' && THIRD[5] == '\t' && THIRD[6] == '{' && THIRD[7] == '\n'
    ensures THIRD[8] == '\t' && THIRD[9] == '\t' && THIRD[10] == '"' && THIRD[11] == 'c'
    ensures THIRD[12] == '"' && THIRD[13] == ':' && THIRD[14] == '\t'
  {
  }

  lemma FourthCharacters()
    ensures |FOURTH| == 9
    ensures FOURTH[0] == 't' && FOURTH[1] == 'r' && FOURTH[2] == 'u' && FOURTH[3] == 'e'
    ensures FOURTH[4] == '\n' && FOURTH[5] == '\t' && FOURTH[6] == '}' && FOURTH[7] == '\n'
    ensures FOURTH[8] == '}'
  {
  }

  lemma Characters()
    ensures |FORMATTED| == 43
    ensures FORMATTED[0] == '{' && FORMATTED[1] == '\n' && FORMATTED[2] == '\t' && FORMATTED[3] == '"'
    ensures FORMATTED[4] == 'a' && FORMATTED[5] == '"' && FORMATTED[6] == ':' && FORMATTED[7] == '\t'
    ensures FORMATTED[8] == '[' && FORMATTED[9] == '1' && FORMATTED[10] == ',' && FORMATTED[11] == ' '
    ensures FORMATTED[12] == 'n' && FORMATTED[13] == 'u' && FORMATTED[14] == 'l' && FORMATTED[15] == 'l'
    ensures FORMATTED[16] == ']' && FORMATTED[17] == ',' && FORMATTED[18] == '\n' && FORMATTED[19] == '\t'
    ensures FORMATTED[20] == '"' && FORMATTED[21] == 'b' && FORMATTED[22] == '"' && FORMATTED[23] == ':'
    ensures FORMATTED[24] == '\t' && FORMATTED[25] == '{' && FORMATTED[26] == '\n' && FORMATTED[27] == '\t'
    ensures FORMATTED[28] == '\t' && FORMATTED[29] == '"' && FORMATTED[30] == 'c' && FORMATTED[31] == '"'
    ensures FORMATTED[32] == ':' && FORMATTED[33] == '\t' && FORMATTED[34] == 't' && FORMATTED[35] == 'r'
    ensures FORMATTED[36] == 'u' && FORMATTED[37] == 'e' && FORMATTED[38] == '\n' && FORMATTED[39] == '\t'
    ensures FORMATTED[40] == '}' && FORMATTED[41] == '\n' && FORMATTED[42] == '}'
  {
    FirstCharacters();
    SecondCharacters();
    ThirdCharacters();
    FourthCharacters();
    Indexes(FIRST, SECOND, THIRD, FOURTH);
  }

  lemma Indexes(a: string, b: string, c: string, d: string)
    ensures var s := a + (b + (c + d));
            && (forall x {:trigger a[x]} :: 0 <= x < |a| ==> s[x] == a[x])
            && (forall x {:trigger b[x]} :: 0 <= x < |b| ==> s[|a| + x] == b[x])
            && (forall x {:trigger c[x]} :: 0 <= x < |c| ==> s[|a| + |b| + x] == c[x])
            && (forall x {:trigger d[x]} :: 0 <= x < |d| ==> s[|a| + |b| + |c| + x] == d[x])
  {
  }

  /** The text as bytes, with its terminator. */
  lemma TextBytes(b: seq<Byte>)
    requires b == Ascii(FORMATTED) + [0]
    ensures |b| == 44 && forall x :: 0 <= x < 43 ==> b[x] == FORMATTED[x] as int % 256
  {
    hide Ascii;
    Characters();
  }

  /** What is written for a tree of an array and an object in an object, formatted. */
  lemma FormattedText()
    ensures Shows(Ascii(FORMATTED) + [0], 0, Object(MEMBERS), true, 0) && |Ascii(FORMATTED)| == Len(Object(MEMBERS), true, 0)
  {
    hide Ascii, Shows, ShowsMember, ShowsMembers, ShowsElements, ShowsTabs, Len, MembersLen, MemberLen, ElementsLen, Name, IsNull, IsTrue;
    var b := Ascii(FORMATTED) + [0];
    TextBytes(b);
    Characters();
    Words(b);
    Brackets(b, 8);
    TrueShown(b, 34);
    Tabs(b);
    Member(b, 2, 1, 'a', Array(ELEMENTS));
    Member(b, 27, 2, 'c', True);
    LastMember(b, 27, 2, Name('c'), True);
    Braces(b, 25, 1, INNER);
    Member(b, 19, 1, 'b', Object(INNER));
    LastMember(b, 19, 1, Name('b'), Object(INNER));
    NextMember(b, 2, 1, Name('a'), Array(ELEMENTS), Item(Name('b'), Object(INNER), End));
    Braces(b, 0, 0, MEMBERS);
  }

  lemma Words(b: seq<Byte>)
    requires |b| == 44 && b[12] == 'n' as int && b[13] == 'u' as int && b[14] == 'l' as int && b[15] == 'l' as int
    requires b[34] == 't' as int && b[35] == 'r' as int && b[36] == 'u' as int && b[37] == 'e' as int
    ensures IsNull(b, 12) && IsTrue(b, 34)
  {
  }

  lemma Tabs(b: seq<Byte>)
    requires |b| == 44 && b[2] == TAB && b[19] == TAB && b[27] == TAB && b[28] == TAB && b[39] == TAB
    ensures ShowsTabs(b, 2, 1) && ShowsTabs(b, 19, 1) && ShowsTabs(b, 27, 2) && ShowsTabs(b, 39, 1) && ShowsTabs(b, 42, 0)
  {
  }

  // ---------- characters of strings ----------

  /** The bytes that have a letter of their own, and the letter. */
  predicate HasLetter(c: Byte, letter: char) {
    || (c == 8 && letter == 'b') || (c == 12 && letter == 'f') || (c == 10 && letter == 'n') || (c == 13 && letter == 'r')
    || (c == 9 && letter == 't') || (c == '"' as int && letter == '"') || (c == '\\' as int && letter == '\\')
  }

  predicate CharsAt(b: seq<Byte>, i: nat, s: seq<char>) {
    i + |s| <= |b| && forall x {:trigger s[x]} :: 0 <= x < |s| ==> b[i + x] == s[x] as int
  }

  lemma HexCharIs(n: nat)
    requires n < 16
    ensures HexChar(n) == "0123456789abcdef"[n] as int
  {
  }

  lemma LetterIs(c: Byte, letter: char)
    ensures letter as int < 256 ==> (EscapeLetter(c) == Some(letter as int) <==> HasLetter(c, letter))
  {
  }

  /** How a byte of a string is written: as itself, with a letter, or with four hexadecimal digits in lower case. */
  lemma ByteShown(b: seq<Byte>, i: nat, c: Byte, letter: char)
    ensures c >= ' ' as int && c != '"' as int && c != '\\' as int ==> (ShowsByte(b, i, c) <==> i < |b| && b[i] == c)
    ensures HasLetter(c, letter) ==> (ShowsByte(b, i, c) <==> CharsAt(b, i, ['\\', letter]))
    ensures c < ' ' as int && c !in {8, 9, 10, 12, 13} ==>
              (ShowsByte(b, i, c) <==> CharsAt(b, i, ['\\', 'u', '0', '0', "01"[c / 16], "0123456789abcdef"[c % 16]]))
  {
    hide HexChar;
    LetterIs(c, letter);
    if c < 32 {
      HexCharIs(c / 16);
      HexCharIs(c % 16);
    }
    Two(b, i, '\\', letter);
    if c < 32 {
      Six(b, i, '\\', 'u', '0', '0', "01"[c / 16], "0123456789abcdef"[c % 16]);
      assert "01"[c / 16] == "0123456789abcdef"[c / 16];
    }
  }

  lemma Two(b: seq<Byte>, i: nat, u: char, v: char)
    ensures CharsAt(b, i, [u, v]) <==> i + 2 <= |b| && b[i] == u as int && b[i + 1] == v as int
  {
    var s := [u, v];
    assert s[0] == u && s[1] == v;
    assert CharsAt(b, i, s) ==> b[i + 0] == s[0] as int && b[i + 1] == s[1] as int;
  }

  lemma Six(b: seq<Byte>, i: nat, u: char, v: char, w: char, x: char, y: char, z: char)
    ensures CharsAt(b, i, [u, v, w, x, y, z]) <==>
            && i + 6 <= |b| && b[i] == u as int && b[i + 1] == v as int && b[i + 2] == w as int
            && b[i + 3] == x as int && b[i + 4] == y as int && b[i + 5] == z as int
  {
    var s := [u, v, w, x, y, z];
    assert s[0] == u && s[1] == v && s[2] == w && s[3] == x && s[4] == y && s[5] == z;
    assert CharsAt(b, i, s) ==>
             && b[i + 0] == s[0] as int && b[i + 1] == s[1] as int && b[i + 2] == s[2] as int
             && b[i + 3] == s[3] as int && b[i + 4] == s[4] as int && b[i + 5] == s[5] as int;
  }
}
