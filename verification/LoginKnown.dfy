/** The state file as it is written down: names, lines and numbers in given characters. */
module LoginKnown {
  import opened Bytes
  import opened StateText
  import opened Numerals
  import opened LoginState
  import opened Authenticator
  import RateFails

  lemma KeyNames()
    ensures RATE_LIMIT == Ascii("RATE_LIMIT") && DISALLOW_REUSE == Ascii("DISALLOW_REUSE") && WINDOW_SIZE == Ascii("WINDOW_SIZE")
    ensures TIME_SKEW == Ascii("TIME_SKEW") && HOTP_COUNTER == Ascii("HOTP_COUNTER") && TOTP_AUTH == Ascii("TOTP_AUTH")
  {
  }

  /** An option is written behind a quote and a space, with a space in front of its value, on a line of its own. */
  lemma LineWritten(key: Text, value: Text)
    ensures OptionLine(key, value) == Ascii("\" ") + key + Ascii(" ") + value + Ascii("\n")
  {
    assert Ascii("\" ") == [34, 32] && Ascii(" ") == [32] && Ascii("\n") == [10];
  }

  // ---------- a line with any spacing ----------

  predicate AreBlanks(s: Text) {
    forall x :: 0 <= x < |s| ==> s[x] == ' ' as int || s[x] == '\t' as int
  }

  predicate AreEnds(s: Text) {
    forall x :: 0 <= x < |s| ==> s[x] == '\r' as int || s[x] == '\n' as int
  }

  lemma {:induction false} BlankEndIs(s: Text, i: nat, j: nat)
    requires i <= j <= |s| && (forall x :: i <= x < j ==> Blank(s[x])) && (j < |s| ==> !Blank(s[j]))
    ensures BlankEnd(s, i) == j
    decreases j - i
  {
    if i < j {
      BlankEndIs(s, i + 1, j);
    }
  }

  lemma {:induction false} BodyEndIs(s: Text, i: nat, j: nat)
    requires i <= j <= |s| && (forall x :: i <= x < j ==> !Eol(s[x])) && (j < |s| ==> Eol(s[j]))
    ensures BodyEnd(s, i) == j
    decreases j - i
  {
    if i < j {
      BodyEndIs(s, i + 1, j);
    }
  }

  /** The parts of an option line and where they stand. */
  predicate IsOption(line: Text, key: Text, gap: nat, value: Text) {
    var p := 2 + |key|;
    var v := p + gap;
    var e := v + |value|;
    && e <= |line| && line[0] == '"' as int && line[1] == ' ' as int && line[2..p] == key && line[v..e] == value
    && AreBlanks(line[p..v]) && AreEnds(line[e..])
  }

  /** A line is for its key, and its value is what stands behind the blanks, up to the first line end. */
  lemma LineRead(line: Text, key: Text, gap: nat, value: Text)
    requires IsOption(line, key, gap, value) && (gap > 0 || value == []) && IsValue(value) && (value != [] ==> !AreBlanks([value[0]]))
    ensures LineFor(line, key) && ValueOn(line, key) == value
  {
    var p := 2 + |key|;
    var v := p + gap;
    var e := v + |value|;
    forall x | p <= x < v
      ensures Blank(line[x])
    {
      assert line[x] == line[p..v][x - p];
    }
    forall x | v <= x < e
      ensures line[x] == value[x - v]
    {
      assert line[x] == line[v..e][x - v];
    }
    forall x | e <= x < |line|
      ensures Eol(line[x])
    {
      assert line[x] == line[e..][x - e];
    }
    if v < e {
      assert AreBlanks([value[0]]) <==> [value[0]][0] == 32 || [value[0]][0] == 9;
    }
    BlankEndIs(line, p, v);
    BodyEndIs(line, v, e);
  }

  lemma OptionParts(key: Text, gap: Text, value: Text, ends: Text)
    requires AreBlanks(gap) && AreEnds(ends)
    ensures IsOption(Ascii("\" ") + key + (gap + (value + ends)), key, |gap|, value)
  {
    var head := Ascii("\" ");
    var line := head + key + (gap + (value + ends));
    var p := 2 + |key|;
    assert line[..2] == head && head[0] == '"' as int && head[1] == ' ' as int;
    assert line[p..] == gap + (value + ends);
    assert line[p..p + |gap|] == gap;
    assert line[p + |gap|..] == value + ends;
    assert line[p + |gap|..p + |gap| + |value|] == value;
    assert line[p + |gap| + |value|..] == ends;
  }

  // ---------- numbers ----------

  lemma DecimalIs()
    ensures Decimal(1700) == Ascii("1700") && Decimal(0) == Ascii("0") && Decimal(-58) == Ascii("-58")
  {
    assert Digits(17) == Ascii("17");
    assert Digits(170) == Ascii("170");
    assert Digits(1700) == Ascii("1700");
    assert Digits(58) == Ascii("58");
  }

  lemma {:induction false} SpaceEndIs(s: Text, i: nat, j: nat)
    requires i <= j <= |s| && (forall x :: i <= x < j ==> Space(s[x])) && (j < |s| ==> !Space(s[j]))
    ensures SpaceEnd(s, i) == j
    decreases j - i
  {
    if i < j {
      SpaceEndIs(s, i + 1, j);
    }
  }

  predicate IsDigit(c: Byte) {
    '0' as int <= c <= '9' as int
  }

  /** What strtoul reads over in front of a number. */
  predicate IsSpace(c: Byte) {
    c == ' ' as int || c == '\t' as int || c == '\n' as int || c == 11 || c == 12 || c == '\r' as int
  }

  /** A sign stands at `p`, or the digits start there. */
  predicate SignAt(s: Text, p: nat, d: nat) {
    p <= d <= |s| && if p < |s| && (s[p] == '-' as int || s[p] == '+' as int) then d == p + 1 else d == p
  }

  /** Behind white space and a sign there are digits, or there is no number; what follows the digits does not matter. */
  lemma NumberRead(s: Text, i: nat, p: nat, d: nat, n: nat)
    requires i <= p && SignAt(s, p, d)
    requires (forall x :: i <= x < p ==> IsSpace(s[x])) && (p < |s| ==> !IsSpace(s[p]))
    ensures d == |s| || !IsDigit(s[d]) ==> Strtoul(s, i).None?
    ensures Stands(s, d, Decimal(n)) && (d + |Decimal(n)| < |s| ==> !IsDigit(s[d + |Decimal(n)|])) ==>
              Strtoul(s, i) ==
              if n >= 0x1_0000_0000_0000_0000 then None
              else Some((ToInt(if p < |s| && s[p] == '-' as int then 0 - n else n), d + |Decimal(n)|))
  {
    hide Value, Digits, DigitEnd, ToInt, Decimal;
    SpaceEndIs(s, i, p);
    if d == |s| || !IsDigit(s[d]) {
      DigitsEnd(s, d, d);
    }
    if Stands(s, d, Decimal(n)) {
      DecimalDigits(n);
      DecimalStands(s, d, n);
      if d + |Decimal(n)| == |s| || !IsDigit(s[d + |Decimal(n)|]) {
        DigitsEnd(s, d, d + |Decimal(n)|);
        DigitsValue(s, d, n);
      }
    }
  }

  lemma DecimalDigits(n: nat)
    ensures Decimal(n) == Digits(n)
  {
  }

  /** A conversion to int keeps the value modulo 2^32. */
  lemma ToIntIs(x: int)
    ensures -0x8000_0000 <= ToInt(x) < 0x8000_0000 && (x - ToInt(x)) % 0x1_0000_0000 == 0
  {
  }

  /** strtol stops at the limits of 64 bits. */
  lemma LongIs(v: int)
    ensures StrtolLong(Decimal(v)) ==
            if v < -0x8000_0000_0000_0000 then -0x8000_0000_0000_0000
            else if v >= 0x8000_0000_0000_0000 then 0x7FFF_FFFF_FFFF_FFFF
            else v
  {
    hide Digits, ScanNumber;
    var s := Decimal(v);
    assert Stands(s, 0, s);
    DecimalStands(s, 0, v);
    SpaceEndIs(s, 0, 0);
    ScanBack(s, 0, 0, v);
  }

  // ---------- where an option is put ----------

  /** A new option follows the first line, and everything else stays where it is. */
  lemma NewOption(s: Text, key: Text, value: Text)
    requires IsKey(key) && !Has(Lines(s), key) && s != []
    ensures Set(s, key, value) == s[..NextLine(s, 0)] + (OptionLine(key, value) + s[NextLine(s, 0)..])
  {
    hide OptionLine, NextLine, LineFor;
    var e := NextLine(s, 0);
    LinesWellFormed(s[e..]);
    var line, rest := OptionLine(key, value), Lines(s[e..]);
    assert Lines(s) == [s[..e]] + rest;
    assert Lines(s)[1..] == rest;
    assert PutIn(Lines(s), key, line) == [s[..e], line] + rest;
    assert ([s[..e], line] + rest)[1..] == [line] + rest && ([line] + rest)[1..] == rest;
    assert Join([line] + rest) == line + s[e..];
  }

  /** An option that is there keeps its place, and later lines for it go. */
  lemma ReplacedInPlace(lines: seq<Text>, key: Text, line: Text, x: nat)
    requires x < |lines| && LineFor(lines[x], key) && forall y :: 0 <= y < x ==> !LineFor(lines[y], key)
    ensures PutIn(lines, key, line) == lines[..x] + [line] + Others(lines[x + 1..], key)
  {
    hide LineFor, Replaced, Others;
    ReplacedAt(lines, key, line, x);
  }

  lemma {:induction false} ReplacedAt(lines: seq<Text>, key: Text, line: Text, x: nat)
    requires x < |lines| && LineFor(lines[x], key) && forall y :: 0 <= y < x ==> !LineFor(lines[y], key)
    ensures Has(lines, key) && Replaced(lines, key, line) == lines[..x] + [line] + Others(lines[x + 1..], key)
    decreases x
  {
    hide LineFor, Others;
    if x == 0 {
      assert lines[..0] + [line] == [line];
    } else {
      var rest := lines[1..];
      assert forall y :: 0 <= y < x ==> rest[y] == lines[y + 1];
      ReplacedAt(rest, key, line, x - 1);
      assert rest[x..] == lines[x + 1..];
      assert lines[..x] == [lines[0]] + rest[..x - 1];
    }
  }

  // ---------- the rate limit ----------

  /** An option without times is taken exactly when both numbers are in their ranges. */
  lemma RateRange(attempts: nat, interval: nat)
    requires attempts < 0x8000_0000 && interval < 0x8000_0000
    ensures ParseRate(Decimal(attempts) + [SPACE] + Decimal(interval)) ==
            if 1 <= attempts <= 100 && 1 <= interval <= 3600 then Some(Rate(attempts, interval, [])) else None
  {
    hide Decimal, Strtoul;
    var a, tail := Decimal(attempts), [SPACE] + Decimal(interval);
    var s := a + tail;
    assert s == Decimal(attempts) + [SPACE] + Decimal(interval);
    NumberThenText(a, attempts, tail);
    assert s[|a|..] == tail == [SPACE] + Decimal(interval) + [];
    BlankThenNumber(s, |a|, interval, []);
  }

  // ---------- a file ----------

  const SECRET: string := "S3\n"
  const LIMIT: string := "\" RATE_LIMIT 3 30 1000\r\n"
  const MARK: string := "\" TOTP_AUTH\n"

  lemma AsciiJoin(a: string, b: string)
    ensures Ascii(a + b) == Ascii(a) + Ascii(b)
  {
  }

  /** A line without line ends, and one or two of them behind it. */
  lemma LineIs(line: Text, e: nat)
    requires 0 < e < |line| && (forall x :: 0 <= x < e ==> !Eol(line[x])) && (forall x :: e <= x < |line| ==> Eol(line[x]))
    ensures IsLine(line) && Ended(line) && !Eol(line[0])
  {
    BodyEndIs(line, 0, e);
    EolEndIs(line, e);
  }

  lemma {:induction false} EolEndIs(s: Text, i: nat)
    requires i <= |s| && forall x :: i <= x < |s| ==> Eol(s[x])
    ensures EolEnd(s, i) == |s|
    decreases |s| - i
  {
    if i < |s| {
      EolEndIs(s, i + 1);
    }
  }

  function FileLines(): seq<Text> {
    [Ascii(SECRET), Ascii(LIMIT), Ascii(MARK)]
  }

  lemma LinesAre()
    ensures StateText.WellFormed(FileLines())
  {
    LineIs(Ascii(SECRET), 2);
    LineIs(Ascii(LIMIT), 22);
    LineIs(Ascii(MARK), 11);
  }

  lemma LimitLine()
    ensures LineFor(Ascii(LIMIT), RATE_LIMIT) && ValueOn(Ascii(LIMIT), RATE_LIMIT) == Ascii("3 30 1000")
  {
    hide LineFor, ValueOn, IsOption, AreBlanks, AreEnds;
    var value := Ascii("3 30 1000");
    LimitParts();
    Spacing();
    OptionParts(RATE_LIMIT, Ascii(" "), value, Ascii("\r\n"));
    LineRead(Ascii(LIMIT), RATE_LIMIT, 1, value);
  }

  lemma LimitParts()
    ensures Ascii(LIMIT) == Ascii("\" ") + RATE_LIMIT + (Ascii(" ") + (Ascii("3 30 1000") + Ascii("\r\n")))
  {
    assert Ascii(LIMIT) == Ascii("\" RATE_LIMIT" + " 3 30 1000\r\n");
    AsciiJoin("\" RATE_LIMIT", " 3 30 1000\r\n");
  }

  lemma Spacing()
    ensures AreBlanks(Ascii(" ")) && AreEnds(Ascii("\r\n")) && !AreBlanks([Ascii("3 30 1000")[0]]) && IsValue(Ascii("3 30 1000"))
  {
    assert [Ascii("3 30 1000")[0]][0] == '3' as int;
  }

  lemma MarkLine()
    ensures LineFor(Ascii(MARK), TOTP_AUTH)
  {
    assert Ascii(MARK)[2..11] == TOTP_AUTH;
  }

  lemma OtherLines()
    ensures !LineFor(Ascii(SECRET), RATE_LIMIT) && !LineFor(Ascii(SECRET), TOTP_AUTH) && !LineFor(Ascii(LIMIT), TOTP_AUTH)
  {
    assert Ascii(SECRET)[0] != QUOTE;
    assert Ascii(LIMIT)[2] == 'R' as int && TOTP_AUTH[0] == 'T' as int;
    assert Ascii(LIMIT)[2..11][0] == Ascii(LIMIT)[2];
  }

  lemma RateIs()
    ensures ParseRate(Ascii("3 30 1000")) == Some(Rate(3, 30, [1000]))
  {
    hide ParseRate, Digits;
    Numbers();
    var rate := Rate(3, 30, [1000]);
    assert TimesText([1000]) == [SPACE] + Decimal(1000) by {
      assert [1000][1..] == [];
    }
    assert RateText(rate) == Ascii("3 30 1000");
    RateBack(rate);
  }

  lemma Numbers()
    ensures Decimal(3) == Ascii("3") && Decimal(30) == Ascii("30") && Decimal(1000) == Ascii("1000")
  {
    assert Digits(3) == Ascii("3");
    assert Digits(10) == Ascii("10");
    assert Digits(100) == Ascii("100");
  }

  /** A file that allows three logins in thirty seconds and has recorded one, with the mark of time-based codes. */
  lemma FileRead()
    ensures var file := Ascii(SECRET) + (Ascii(LIMIT) + Ascii(MARK));
            Get(file, RATE_LIMIT) == Some(Ascii("3 30 1000")) && RateOption(file) == Some(Rate(3, 30, [1000])) && IsTotp(file)
  {
    hide LineFor, ValueOn, Lines, ParseRate, IsTotp, GetFrom, Ascii;
    var lines := FileLines();
    var file := Ascii(SECRET) + (Ascii(LIMIT) + Ascii(MARK));
    LinesAre();
    LinesOfJoin(lines);
    JoinThree(Ascii(SECRET), Ascii(LIMIT), Ascii(MARK));
    LimitLine();
    MarkLine();
    OtherLines();
    RateFails.ThreeLines(lines, RATE_LIMIT);
    RateFails.ThreeLines(lines, TOTP_AUTH);
    RateIs();
    RateFails.OptionIsMark(file);
  }

  lemma JoinThree(a: Text, b: Text, c: Text)
    ensures Join([a, b, c]) == a + (b + c)
  {
    assert [a, b, c][1..] == [b, c] && [b, c][1..] == [c] && [c][1..] == [];
    assert Join([c]) == c + [];
  }
}
