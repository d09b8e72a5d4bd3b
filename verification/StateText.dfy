/**
 The text of an authenticator's state file: the secret on the first line, then option lines and scratch
 codes.  An option line starts with a double quote and a space, the name of the option and a blank.
 */
module StateText {
  import opened Bytes

  const TAB: Byte := 9
  const NEWLINE: Byte := 10
  const CARRIAGE_RETURN: Byte := 13
  const SPACE: Byte := 32
  const QUOTE: Byte := 34

  type Text = seq<Byte>

  datatype Option<T> = None | Some(value: T)

  predicate NulFree(s: Text) {
    forall x :: 0 <= x < |s| ==> s[x] != 0
  }

  predicate Eol(c: Byte) {
    c == NEWLINE || c == CARRIAGE_RETURN
  }

  predicate Blank(c: Byte) {
    c == SPACE || c == TAB
  }

  /** strcspn(s + i, "\r\n"): the place of the first line end from `i` on, or the end. */
  function BodyEnd(s: Text, i: nat): (e: nat)
    requires i <= |s|
    ensures i <= e <= |s| && (e < |s| ==> Eol(s[e]))
    decreases |s| - i
  {
    if i == |s| || Eol(s[i]) then i else BodyEnd(s, i + 1)
  }

  /** strspn(s + i, "\r\n"), as a place. */
  function EolEnd(s: Text, i: nat): (e: nat)
    requires i <= |s|
    ensures i <= e <= |s| && (e < |s| ==> !Eol(s[e]))
    decreases |s| - i
  {
    if i < |s| && Eol(s[i]) then EolEnd(s, i + 1) else i
  }

  /** Where the line that starts at `i` ends, with its line ends and the blank lines behind it. */
  function NextLine(s: Text, i: nat): (e: nat)
    requires i <= |s|
    ensures i <= e <= |s| && (i < |s| ==> i < e)
  {
    EolEnd(s, BodyEnd(s, i))
  }

  function Lines(s: Text): seq<Text>
  {
    if s == [] then [] else [s[..NextLine(s, 0)]] + Lines(s[NextLine(s, 0)..])
  }

  function Join(lines: seq<Text>): Text {
    if lines == [] then [] else lines[0] + Join(lines[1..])
  }

  // ---------- options ----------

  /** A name of an option. */
  predicate IsKey(key: Text) {
    key != [] && forall x :: 0 <= x < |key| ==> key[x] != 0 && !Eol(key[x]) && !Blank(key[x]) && key[x] != QUOTE
  }

  predicate IsValue(value: Text) {
    forall x :: 0 <= x < |value| ==> value[x] != 0 && !Eol(value[x])
  }

  /** The test for an option line, at place `i`. */
  predicate IsFor(s: Text, i: nat, key: Text) {
    var p := i + 2 + |key|;
    && p <= |s| && s[i] == QUOTE && s[i + 1] == SPACE && s[i + 2..p] == key
    && (p == |s| || Blank(s[p]) || Eol(s[p]))
  }

  predicate LineFor(line: Text, key: Text) {
    IsFor(line, 0, key)
  }

  /** strspn(s + i, " \t"), as a place. */
  function BlankEnd(s: Text, i: nat): (e: nat)
    requires i <= |s|
    ensures i <= e <= |s| && (e < |s| ==> !Blank(s[e]))
    decreases |s| - i
  {
    if i < |s| && Blank(s[i]) then BlankEnd(s, i + 1) else i
  }

  function Trimmed(value: Text): Text {
    value[BlankEnd(value, 0)..]
  }

  function OptionLine(key: Text, value: Text): Text {
    [QUOTE, SPACE] + key + [SPACE] + value + [NEWLINE]
  }

  /** The value on a line for `key`. */
  function ValueOn(line: Text, key: Text): Text
    requires LineFor(line, key)
  {
    var p := BlankEnd(line, 2 + |key|);
    line[p..BodyEnd(line, p)]
  }

  /** get_cfg_value: the value on the first line for the key. */
  function GetFrom(lines: seq<Text>, key: Text): Option<Text> {
    if lines == [] then None
    else if LineFor(lines[0], key) then Some(ValueOn(lines[0], key))
    else GetFrom(lines[1..], key)
  }

  function Get(s: Text, key: Text): Option<Text> {
    GetFrom(Lines(s), key)
  }

  /** The lines that are not for `key`, in their order. */
  function Others(lines: seq<Text>, key: Text): seq<Text> {
    if lines == [] then []
    else if LineFor(lines[0], key) then Others(lines[1..], key)
    else [lines[0]] + Others(lines[1..], key)
  }

  predicate Has(lines: seq<Text>, key: Text) {
    exists x :: 0 <= x < |lines| && LineFor(lines[x], key)
  }

  /** `line` takes the place of the first line for `key`, and the other lines for it go. */
  function Replaced(lines: seq<Text>, key: Text, line: Text): seq<Text>
    requires Has(lines, key)
  {
    if LineFor(lines[0], key) then [line] + Others(lines[1..], key)
    else
      assert Has(lines[1..], key) by {
        var x :| 0 <= x < |lines| && LineFor(lines[x], key);
        assert lines[1..][x - 1] == lines[x];
      }
      [lines[0]] + Replaced(lines[1..], key, line)
  }

  /** What set_cfg_value comes to: a new option is put behind the first line. */
  function PutIn(lines: seq<Text>, key: Text, line: Text): seq<Text> {
    if Has(lines, key) then Replaced(lines, key, line)
    else if lines == [] then [line]
    else [lines[0], line] + lines[1..]
  }

  function Set(s: Text, key: Text, value: Text): Text {
    Join(PutIn(Lines(s), key, OptionLine(key, value)))
  }

  /** The option is there already, or the line that it will follow ends. */
  predicate Settable(s: Text, key: Text) {
    Has(Lines(s), key) || BodyEnd(s, 0) < |s| || s == []
  }

  // ---------- lines ----------

  /** A line that Lines can yield: a body and the line ends behind it. */
  predicate IsLine(line: Text) {
    line != [] && NextLine(line, 0) == |line|
  }

  predicate Ended(line: Text) {
    line != [] && Eol(line[|line| - 1])
  }

  predicate WellFormed(lines: seq<Text>) {
    && (forall x :: 0 <= x < |lines| ==> IsLine(lines[x]))
    && (forall x :: 0 <= x < |lines| - 1 ==> Ended(lines[x]))
    && (forall x :: 0 < x < |lines| ==> !Eol(lines[x][0]))
  }

  lemma {:induction false} EndsInPrefix(s: Text, i: nat, n: nat)
    requires i <= n <= |s|
    ensures BodyEnd(s, i) < n ==> BodyEnd(s[..n], i) == BodyEnd(s, i)
    ensures BodyEnd(s, i) >= n ==> BodyEnd(s[..n], i) == n
    ensures EolEnd(s, i) <= n ==> EolEnd(s[..n], i) == EolEnd(s, i)
    ensures EolEnd(s, i) >= n ==> EolEnd(s[..n], i) == n
    decreases n - i
  {
    if i < n {
      EndsInPrefix(s, i + 1, n);
    }
  }

  lemma {:induction false} EolEndLast(s: Text, i: nat)
    requires i <= |s|
    ensures EolEnd(s, i) > i ==> Eol(s[EolEnd(s, i) - 1])
    decreases |s| - i
  {
    if i < |s| && Eol(s[i]) {
      EolEndLast(s, i + 1);
    }
  }

  lemma FirstLine(s: Text)
    requires s != []
    ensures var n := NextLine(s, 0); IsLine(s[..n]) && (n < |s| ==> Ended(s[..n]) && !Eol(s[n]))
  {
    var e := BodyEnd(s, 0);
    var n := NextLine(s, 0);
    EndsInPrefix(s, 0, n);
    EndsInPrefix(s, e, n);
    EolEndLast(s, e);
  }

  lemma {:induction false} LinesWellFormed(s: Text)
    ensures WellFormed(Lines(s)) && Join(Lines(s)) == s
    ensures s != [] ==> Lines(s) != [] && Lines(s)[0][0] == s[0]
    decreases |s|
  {
    if s != [] {
      var n := NextLine(s, 0);
      FirstLine(s);
      LinesWellFormed(s[n..]);
      assert s[..n] + s[n..] == s;
      var rest := Lines(s[n..]);
      assert Lines(s) == [s[..n]] + rest && Lines(s)[1..] == rest;
      Prepended(s[..n], rest);
    }
  }

  lemma Prepended(line: Text, rest: seq<Text>)
    requires IsLine(line) && WellFormed(rest) && (rest != [] ==> Ended(line) && !Eol(rest[0][0]))
    ensures WellFormed([line] + rest)
  {
    var lines := [line] + rest;
    assert forall x :: 1 <= x < |lines| ==> lines[x] == rest[x - 1];
  }

  lemma Tail(lines: seq<Text>)
    requires WellFormed(lines) && lines != []
    ensures WellFormed(lines[1..]) && IsLine(lines[0])
    ensures lines[1..] != [] ==> Ended(lines[0]) && lines[1] != [] && !Eol(lines[1][0])
  {
    assert forall x :: 0 <= x < |lines[1..]| ==> lines[1..][x] == lines[x + 1];
  }

  lemma {:induction false} EndsInLonger(s: Text, t: Text, i: nat)
    requires i <= |s|
    ensures BodyEnd(s, i) < |s| ==> BodyEnd(s + t, i) == BodyEnd(s, i)
    ensures EolEnd(s, i) < |s| || t == [] || !Eol(t[0]) ==> EolEnd(s + t, i) == EolEnd(s, i)
    decreases |s| - i
  {
    if i < |s| {
      EndsInLonger(s, t, i + 1);
    }
  }

  lemma {:induction false} EndedBody(s: Text, i: nat)
    requires i < |s| && Ended(s)
    ensures BodyEnd(s, i) < |s|
    decreases |s| - i
  {
    if !Eol(s[i]) {
      EndedBody(s, i + 1);
    }
  }

  lemma LineInFront(line: Text, t: Text)
    requires IsLine(line) && (t != [] ==> Ended(line) && !Eol(t[0]))
    ensures NextLine(line + t, 0) == |line|
  {
    if t == [] {
      assert line + t == line;
    } else {
      EndedBody(line, 0);
      EndsInLonger(line, t, 0);
      EndsInLonger(line, t, BodyEnd(line, 0));
    }
  }

  lemma {:induction false} LinesOfJoin(lines: seq<Text>)
    requires WellFormed(lines)
    ensures Lines(Join(lines)) == lines && (lines != [] ==> Join(lines) != [] && Join(lines)[0] == lines[0][0])
    decreases |lines|
  {
    if lines != [] {
      Tail(lines);
      LinesOfJoin(lines[1..]);
      var line, t := lines[0], Join(lines[1..]);
      LineInFront(line, t);
      assert (line + t)[..|line|] == line && (line + t)[|line|..] == t;
      assert [lines[0]] + lines[1..] == lines;
    }
  }

  // ---------- the written line ----------

  lemma {:induction false} NoEnd(s: Text, i: nat, n: nat)
    requires i <= n <= |s| && (forall x :: i <= x < n ==> !Eol(s[x])) && (n < |s| ==> Eol(s[n]))
    ensures BodyEnd(s, i) == n
    decreases n - i
  {
    if i < n {
      NoEnd(s, i + 1, n);
    }
  }

  lemma {:induction false} BlankShift(s: Text, i: nat, value: Text, v: nat)
    requires v <= |value| && i + (|value| - v) < |s| && !Blank(s[i + (|value| - v)])
    requires forall x {:trigger value[x]} :: v <= x < |value| ==> s[i + (x - v)] == value[x]
    ensures BlankEnd(s, i) == i + (BlankEnd(value, v) - v)
    decreases |value| - v
  {
    if v < |value| {
      assert s[i + (v - v)] == value[v];
      if Blank(value[v]) {
        assert forall x {:trigger value[x]} :: v + 1 <= x < |value| ==> s[i + 1 + (x - (v + 1))] == value[x];
        BlankShift(s, i + 1, value, v + 1);
      }
    }
  }

  lemma OptionLineIsLine(key: Text, value: Text)
    requires IsKey(key) && IsValue(value)
    ensures var line := OptionLine(key, value); IsLine(line) && Ended(line) && !Eol(line[0]) && NulFree(line)
  {
    var line := OptionLine(key, value);
    assert forall x :: 2 <= x < 2 + |key| ==> line[x] == key[x - 2];
    assert forall x :: 3 + |key| <= x < |line| - 1 ==> line[x] == value[x - 3 - |key|];
    NoEnd(line, 0, |line| - 1);
    assert EolEnd(line, |line|) == |line|;
  }

  /** The line that is written is for its own key, and for no other. */
  lemma OptionLineFor(key: Text, value: Text, key': Text)
    requires IsKey(key) && IsKey(key')
    ensures LineFor(OptionLine(key, value), key') <==> key' == key
  {
    var line := OptionLine(key, value);
    assert line[2..2 + |key|] == key;
    assert line[2 + |key|] == SPACE;
    if LineFor(line, key') {
      OneKey(line, key, key');
    }
  }

  lemma OptionLineAt(key: Text, value: Text)
    ensures var line := OptionLine(key, value);
            && |line| == |key| + |value| + 4 && line[2 + |key|] == SPACE && line[|line| - 1] == NEWLINE
            && (forall x {:trigger value[x]} :: 0 <= x < |value| ==> line[3 + |key| + x] == value[x])
            && (IsValue(value) ==> forall x {:trigger line[x]} :: 3 + |key| <= x < |line| - 1 ==> !Eol(line[x]))
  {
  }

  /** Behind the blanks in front of the value, the line has the rest of the value. */
  lemma OptionLineRest(key: Text, value: Text)
    requires IsValue(value)
    ensures var line := OptionLine(key, value); var q := 3 + |key| + BlankEnd(value, 0);
            && BlankEnd(line, 3 + |key|) == q && BodyEnd(line, q) == |line| - 1 && line[q..|line| - 1] == Trimmed(value)
  {
    hide OptionLine, BodyEnd, BlankEnd, IsValue;
    OptionLineAt(key, value);
    var line, p := OptionLine(key, value), 3 + |key|;
    assert forall x {:trigger value[x]} :: 0 <= x < |value| ==> line[p + (x - 0)] == value[x];
    BlankShift(line, p, value, 0);
    NoEnd(line, p + BlankEnd(value, 0), |line| - 1);
    SameRest(line, p, value, BlankEnd(value, 0));
  }

  lemma SameRest(line: Text, p: nat, value: Text, v: nat)
    requires |line| == p + |value| + 1 && v <= |value|
    requires forall x {:trigger value[x]} :: 0 <= x < |value| ==> line[p + x] == value[x]
    ensures line[p + v..|line| - 1] == value[v..]
  {
  }

  /** Reading the written line gives the value back, without the blanks in front. */
  lemma OptionLineValue(key: Text, value: Text)
    requires IsKey(key) && IsValue(value)
    ensures LineFor(OptionLine(key, value), key) && ValueOn(OptionLine(key, value), key) == Trimmed(value)
  {
    hide OptionLine, IsKey, LineFor, BodyEnd, Trimmed;
    OptionLineFor(key, value, key);
    OptionLineAt(key, value);
    OptionLineRest(key, value);
    var line := OptionLine(key, value);
    assert BlankEnd(line, 2 + |key|) == BlankEnd(line, 3 + |key|);
  }

  lemma HasTail(lines: seq<Text>, key: Text)
    requires lines != []
    ensures Has(lines, key) <==> LineFor(lines[0], key) || Has(lines[1..], key)
  {
    if Has(lines[1..], key) {
      var x :| 0 <= x < |lines[1..]| && LineFor(lines[1..][x], key);
      assert LineFor(lines[x + 1], key);
    }
    if Has(lines, key) && !LineFor(lines[0], key) {
      var x :| 0 <= x < |lines| && LineFor(lines[x], key);
      assert LineFor(lines[1..][x - 1], key);
    }
  }

  lemma {:induction false} OthersWellFormed(lines: seq<Text>, key: Text)
    requires WellFormed(lines) && (lines != [] ==> !Eol(lines[0][0]))
    ensures WellFormed(Others(lines, key)) && forall x :: 0 <= x < |Others(lines, key)| ==> !Eol(Others(lines, key)[x][0])
    decreases |lines|
  {
    if lines != [] {
      Tail(lines);
      OthersWellFormed(lines[1..], key);
      if lines[1..] == [] {
        assert Others(lines[1..], key) == [];
      }
      if !LineFor(lines[0], key) {
        Prepended(lines[0], Others(lines[1..], key));
      }
    }
  }

  lemma {:induction false} ReplacedWellFormed(lines: seq<Text>, key: Text, line: Text)
    requires WellFormed(lines) && Has(lines, key) && IsLine(line) && Ended(line) && !Eol(line[0])
    ensures WellFormed(Replaced(lines, key, line)) && Replaced(lines, key, line) != []
    ensures !LineFor(lines[0], key) ==> Replaced(lines, key, line)[0] == lines[0]
    ensures LineFor(lines[0], key) ==> Replaced(lines, key, line)[0] == line
    decreases |lines|
  {
    Tail(lines);
    if LineFor(lines[0], key) {
      OthersWellFormed(lines[1..], key);
      Prepended(line, Others(lines[1..], key));
    } else {
      HasTail(lines, key);
      ReplacedWellFormed(lines[1..], key, line);
      Prepended(lines[0], Replaced(lines[1..], key, line));
    }
  }

  lemma PutWellFormed(lines: seq<Text>, key: Text, line: Text)
    requires WellFormed(lines) && (Has(lines, key) || lines == [] || Ended(lines[0]))
    requires IsLine(line) && Ended(line) && !Eol(line[0])
    ensures WellFormed(PutIn(lines, key, line))
  {
    hide Replaced, IsLine, Ended, LineFor;
    if Has(lines, key) {
      ReplacedWellFormed(lines, key, line);
    } else if lines != [] {
      Tail(lines);
      Prepended(line, lines[1..]);
      Prepended(lines[0], [line] + lines[1..]);
      assert PutIn(lines, key, line) == [lines[0]] + ([line] + lines[1..]);
    }
  }

  lemma {:induction false} OthersOfOthers(lines: seq<Text>, key: Text)
    ensures !Has(Others(lines, key), key) && Others(Others(lines, key), key) == Others(lines, key)
    decreases |lines|
  {
    if lines != [] {
      OthersOfOthers(lines[1..], key);
      if !LineFor(lines[0], key) {
        var others := [lines[0]] + Others(lines[1..], key);
        assert others[1..] == Others(lines[1..], key);
        HasTail(others, key);
      }
    }
  }

  lemma {:induction false} OthersAll(lines: seq<Text>, key: Text)
    requires !Has(lines, key)
    ensures Others(lines, key) == lines
    decreases |lines|
  {
    if lines != [] {
      HasTail(lines, key);
      OthersAll(lines[1..], key);
    }
  }

  /** How many lines there are for `key`. */
  function Times(lines: seq<Text>, key: Text): nat {
    if lines == [] then 0 else (if LineFor(lines[0], key) then 1 else 0) + Times(lines[1..], key)
  }

  lemma {:induction false} NoTimes(lines: seq<Text>, key: Text)
    requires !Has(lines, key)
    ensures Times(lines, key) == 0 && GetFrom(lines, key) == None
    decreases |lines|
  {
    if lines != [] {
      HasTail(lines, key);
      NoTimes(lines[1..], key);
    }
  }

  /** Exactly one line for the key is left, it holds the value, and every other line stays in its order. */
  lemma {:induction false} ReplacedMeans(lines: seq<Text>, key: Text, line: Text)
    requires Has(lines, key) && LineFor(line, key)
    ensures var result := Replaced(lines, key, line);
            Times(result, key) == 1 && GetFrom(result, key) == Some(ValueOn(line, key)) && Others(result, key) == Others(lines, key)
    decreases |lines|
  {
    var result := Replaced(lines, key, line);
    if LineFor(lines[0], key) {
      OthersOfOthers(lines[1..], key);
      NoTimes(Others(lines[1..], key), key);
      assert result[1..] == Others(lines[1..], key);
    } else {
      HasTail(lines, key);
      ReplacedMeans(lines[1..], key, line);
      assert result[1..] == Replaced(lines[1..], key, line);
    }
  }

  lemma PutMeans(lines: seq<Text>, key: Text, line: Text)
    requires LineFor(line, key)
    ensures var result := PutIn(lines, key, line);
            Times(result, key) == 1 && GetFrom(result, key) == Some(ValueOn(line, key)) && Others(result, key) == Others(lines, key)
  {
    var result := PutIn(lines, key, line);
    if Has(lines, key) {
      ReplacedMeans(lines, key, line);
    } else if lines == [] {
      assert result[1..] == [];
    } else {
      HasTail(lines, key);
      assert result[1..] == [line] + lines[1..] && result[1..][1..] == lines[1..];
      NoTimes(lines[1..], key);
    }
  }

  /** A line is for one key at most. */
  lemma OneKey(line: Text, key: Text, key': Text)
    requires IsKey(key) && IsKey(key') && LineFor(line, key) && LineFor(line, key')
    ensures key' == key
  {
    if |key'| < |key| {
      assert false;
    } else if |key| < |key'| {
      assert false;
    }
  }

  lemma {:induction false} OthersKeep(lines: seq<Text>, key: Text, key': Text)
    requires IsKey(key) && IsKey(key') && key' != key
    ensures GetFrom(Others(lines, key), key') == GetFrom(lines, key')
    decreases |lines|
  {
    if lines != [] {
      OthersKeep(lines[1..], key, key');
      if LineFor(lines[0], key) {
        if LineFor(lines[0], key') {
          OneKey(lines[0], key, key');
        }
      } else {
        var others := Others(lines, key);
        assert others[1..] == Others(lines[1..], key);
      }
    }
  }

  // ---------- on the text ----------

  /** With a first line that ends, or the option there already, what is set is what is read. */
  lemma SetThenGet(s: Text, key: Text, value: Text)
    requires IsKey(key) && IsValue(value) && Settable(s, key)
    ensures var t := Set(s, key, value); var line := OptionLine(key, value);
            && Lines(t) == PutIn(Lines(s), key, line) && Times(Lines(t), key) == 1
            && Get(t, key) == Some(Trimmed(value)) && Others(Lines(t), key) == Others(Lines(s), key)
  {
    var lines, line := Lines(s), OptionLine(key, value);
    LinesWellFormed(s);
    OptionLineIsLine(key, value);
    OptionLineValue(key, value);
    if !Has(lines, key) && s != [] {
      EolEndLast(s, BodyEnd(s, 0));
      assert Ended(lines[0]);
    }
    PutWellFormed(lines, key, line);
    LinesOfJoin(PutIn(lines, key, line));
    PutMeans(lines, key, line);
  }

  /** Every other option reads back as before. */
  lemma SetThenGetOther(s: Text, key: Text, value: Text, key': Text)
    requires IsKey(key) && IsKey(key') && key' != key && IsValue(value) && Settable(s, key)
    ensures Get(Set(s, key, value), key') == Get(s, key')
  {
    SetThenGet(s, key, value);
    OthersKeep(Lines(s), key, key');
    OthersKeep(Lines(Set(s, key, value)), key, key');
  }

  /** The first line, which holds the secret, stays where it is. */
  lemma SecretStays(s: Text, key: Text, value: Text)
    requires IsKey(key) && IsValue(value) && Settable(s, key) && s != [] && !LineFor(Lines(s)[0], key)
    ensures Lines(Set(s, key, value)) != [] && Lines(Set(s, key, value))[0] == Lines(s)[0]
  {
    SetThenGet(s, key, value);
    LinesWellFormed(s);
    if Has(Lines(s), key) {
      OptionLineIsLine(key, value);
      ReplacedWellFormed(Lines(s), key, OptionLine(key, value));
    }
  }

  /** On a single line that does not end, a new option is lost: it is written into that line. */
  lemma UnsettableIsLost(s: Text, key: Text, value: Text)
    requires IsKey(key) && IsValue(value) && !Settable(s, key)
    ensures Get(Set(s, key, value), key) == None
  {
    var line := OptionLine(key, value);
    var t := s + line;
    var n := NextLine(s, 0);
    assert n == |s| && s[..n] == s && Lines(s[n..]) == [];
    assert Lines(s) == [s];
    assert !LineFor(s, key) by {
      assert Lines(s)[0] == s;
    }
    JoinTwo(s, line);
    assert PutIn([s], key, line) == [s, line];
    LostLine(s, key, value);
    assert GetFrom([t][1..], key) == None;
  }

  /** A secret without a line end, and the option K that is set to 1. */
  lemma OneLineLoses()
    ensures Get(Set([83], [75], [49]), [75]) == None
  {
    assert BodyEnd([83], 0) == 1 && Lines([83])[0] == [83];
    assert |Lines([83])| == 1 && !LineFor([83], [75]);
    UnsettableIsLost([83], [75], [49]);
  }

  lemma LostLine(s: Text, key: Text, value: Text)
    requires IsKey(key) && IsValue(value) && s != [] && BodyEnd(s, 0) == |s| && !LineFor(s, key)
    ensures var t := s + OptionLine(key, value); Lines(t) == [t] && !LineFor(t, key)
  {
    var line := OptionLine(key, value);
    var t := s + line;
    UnendedBody(s, 0);
    EndsInside(s, key, value);
    assert t[..|t|] == t && Lines(t[|t|..]) == [];
    if LineFor(t, key) {
      QuoteInside(s, line, key);
    }
  }

  lemma EndsInside(s: Text, key: Text, value: Text)
    requires IsKey(key) && IsValue(value) && forall x :: 0 <= x < |s| ==> !Eol(s[x])
    ensures var t := s + OptionLine(key, value); NextLine(t, 0) == |t|
  {
    var line := OptionLine(key, value);
    var t := s + line;
    assert forall x :: 2 <= x < 2 + |key| ==> line[x] == key[x - 2];
    assert forall x :: 3 + |key| <= x < |line| - 1 ==> line[x] == value[x - 3 - |key|];
    assert forall x :: |s| <= x < |t| ==> t[x] == line[x - |s|];
    NoEnd(t, 0, |t| - 1);
    assert EolEnd(t, |t|) == |t|;
  }

  lemma QuoteInside(s: Text, line: Text, key: Text)
    requires IsKey(key) && s != [] && line != [] && line[0] == QUOTE && LineFor(s + line, key)
    ensures LineFor(s, key)
  {
    var t := s + line;
    assert t[|s|] == QUOTE;
    if |s| < 2 + |key| {
      assert false;
    } else {
      assert s[2..2 + |key|] == t[2..2 + |key|];
    }
  }

  lemma JoinTwo(a: Text, b: Text)
    ensures Join([a, b]) == a + b
  {
    assert [a, b][1..] == [b];
    assert Join([b]) == b + Join([b][1..]);
  }

  lemma {:induction false} UnendedBody(s: Text, i: nat)
    requires i <= |s| && BodyEnd(s, i) == |s|
    ensures forall x :: i <= x < |s| ==> !Eol(s[x])
    decreases |s| - i
  {
    if i < |s| {
      UnendedBody(s, i + 1);
    }
  }
}
