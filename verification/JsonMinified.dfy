/** Text that parses is minified to text that parses to the same tree, and that minifying leaves alone. */
module JsonMinified {
  import opened Bytes
  import opened JsonSpec
  import opened JsonMinify

  /** Minifying leaves `m` from `j` on as it is. */
  predicate Compact(m: seq<Byte>, j: nat)
    requires CString(m) && j < |m|
  {
    MinifiesTo(m, j, m, j)
  }

  /** A byte that stands for itself outside strings. */
  predicate Solid(c: Byte) {
    c > 32 && c != SLASH && c != QUOTE
  }

  /** What may follow a value, after white space. */
  predicate Delimiter(c: Byte) {
    c == COMMA || c == CLOSE_BRACKET || c == CLOSE_BRACE || c == 0
  }

  predicate Delimited(b: seq<Byte>, i: nat)
    requires CString(b) && i < |b|
  {
    Delimiter(b[Skip(b, i)])
  }

  lemma {:induction false} TextIsCString(b: seq<Byte>, i: nat, m: seq<Byte>, j: nat)
    requires CString(b) && i < |b| && MinifiesTo(b, i, m, j)
    ensures m[|m| - 1] == 0 && forall x :: j <= x < |m| - 1 ==> m[x] != 0
    decreases |b| - i
  {
    match MoveAt(b, i)
    case Stop =>
    case Leave(next) => TextIsCString(b, next, m, j);
    case Copy(next) =>
      TextIsCString(b, next, m, j + (next - i));
      forall x | j <= x < j + (next - i) ensures m[x] != 0 {
        assert m[j + ((i + (x - j)) - i)] == b[i + (x - j)];
      }
  }

  // ---------- white space ----------

  lemma {:induction false} SkipSim(b: seq<Byte>, m: seq<Byte>, i: nat, j: nat)
    requires CString(b) && CString(m) && i < |b| && MinifiesTo(b, i, m, j) && b[Skip(b, i)] != SLASH
    ensures MinifiesTo(b, Skip(b, i), m, Skip(m, j)) && m[Skip(m, j)] == b[Skip(b, i)]
    ensures Compact(m, Skip(m, j)) ==> Compact(m, j)
    ensures b[i] > 32 ==> m[j] == b[i]
    decreases |b| - i
  {
    if b[i] == 0 {
    } else if Blank(b[i]) {
      SkipSim(b, m, i + 1, j);
    } else if b[i] <= 32 {
      assert MoveAt(b, i) == Copy(i + 1) && m[j + (i - i)] == b[i];
      SkipSim(b, m, i + 1, j + 1);
      assert MoveAt(m, j) == Copy(j + 1);
    } else {
      assert m[j + (i - i)] == b[i];
    }
  }

  lemma {:induction false} SkipClosed(b: seq<Byte>, i: nat)
    requires CString(b) && i < |b|
    ensures Closed(b, Skip(b, i)) ==> Closed(b, i)
    decreases |b| - i
  {
    if b[i] <= 32 && i + 1 < |b| {
      SkipClosed(b, i + 1);
    }
  }

  // ---------- bytes that stand for themselves ----------

  lemma {:induction false} RunSim(b: seq<Byte>, m: seq<Byte>, i: nat, j: nat, n: nat)
    requires CString(b) && CString(m) && i <= n < |b| && MinifiesTo(b, i, m, j)
    requires forall x :: i <= x < n ==> Solid(b[x])
    ensures Copied(b, i, n, m, j) && MinifiesTo(b, n, m, j + (n - i))
    ensures Compact(m, j + (n - i)) ==> Compact(m, j)
    decreases n - i
  {
    if i < n {
      assert MoveAt(b, i) == Copy(i + 1) && m[j + (i - i)] == b[i];
      RunSim(b, m, i + 1, j + 1, n);
      assert MoveAt(m, j) == Copy(j + 1);
      forall x {:trigger b[x]} | i <= x < n ensures m[j + (x - i)] == b[x] {
        assert x > i ==> m[j + 1 + (x - (i + 1))] == b[x];
      }
    }
  }

  lemma {:induction false} RunClosed(b: seq<Byte>, i: nat, n: nat)
    requires CString(b) && i <= n < |b| && forall x :: i <= x < n ==> Solid(b[x])
    ensures Closed(b, n) ==> Closed(b, i)
    decreases n - i
  {
    if i < n {
      assert MoveAt(b, i) == Copy(i + 1);
      RunClosed(b, i + 1, n);
    }
  }

  // ---------- strings ----------

  lemma {:induction false} EndMoved(b: seq<Byte>, p: nat, e: nat, m: seq<Byte>, q: nat)
    requires p <= |b| && StringEnd(b, p) == Some(e) && Copied(b, p, e + 1, m, q)
    ensures StringEnd(m, q) == Some(q + (e - p))
    decreases e - p
  {
    assert m[q + (p - p)] == b[p];
    if p < e {
      var p' := if b[p] == BACKSLASH then p + 2 else p + 1;
      CopiedFrom(b, p, e + 1, m, q, p');
      EndMoved(b, p', e, m, q + (p' - p));
    }
  }

  lemma CopiedPart(b: seq<Byte>, i: nat, next: nat, m: seq<Byte>, j: nat, i': nat, next': nat)
    requires Copied(b, i, next, m, j) && i <= i' <= next' <= next
    ensures Copied(b, i', next', m, j + (i' - i))
  {
    forall x {:trigger b[x]} | i' <= x < next' ensures m[j + (i' - i) + (x - i')] == b[x] {
      assert m[j + (x - i)] == b[x];
    }
  }

  lemma CopiedFrom(b: seq<Byte>, i: nat, next: nat, m: seq<Byte>, j: nat, i': nat)
    requires Copied(b, i, next, m, j) && i <= i' <= next
    ensures Copied(b, i', next, m, j + (i' - i))
  {
    CopiedPart(b, i, next, m, j, i', next);
  }

  lemma CopiedRoom(b: seq<Byte>, i: nat, next: nat, m: seq<Byte>, j: nat)
    requires Copied(b, i, next, m, j)
    ensures j + (next - i) <= |m|
  {
  }

  lemma HexMoved(b: seq<Byte>, p: nat, m: seq<Byte>, q: nat)
    requires Copied(b, p, p + 4, m, q)
    ensures Hex4(m, q) == Hex4(b, p)
  {
    CopiedAt(b, p, p + 4, m, q, p);
    CopiedAt(b, p, p + 4, m, q, p + 1);
    CopiedAt(b, p, p + 4, m, q, p + 2);
    CopiedAt(b, p, p + 4, m, q, p + 3);
    assert IsHex(b, p) <==> HexDigit(b[p]).Some? && HexDigit(b[p + 1]).Some? && HexDigit(b[p + 2]).Some? && HexDigit(b[p + 3]).Some?;
    assert IsHex(m, q) <==> HexDigit(m[q]).Some? && HexDigit(m[q + 1]).Some? && HexDigit(m[q + 2]).Some? && HexDigit(m[q + 3]).Some?;
  }

  lemma Utf16Moved(b: seq<Byte>, p: nat, end: nat, m: seq<Byte>, q: nat)
    requires p <= end < |b| && Copied(b, p, end + 1, m, q)
    ensures var u, u' := Utf16(b, p, end), Utf16(m, q, q + (end - p));
            if u.Fail? then u'.Fail? else u' == Ok(u.value, q + (u.next - p))
  {
    hide Hex4, Copied;
    CopiedRoom(b, p, end + 1, m, q);
    if end - p >= 6 {
      CopiedPart(b, p, end + 1, m, q, p + 2, p + 6);
      HexMoved(b, p + 2, m, q + 2);
    }
    if end - p >= 12 {
      CopiedAt(b, p, end + 1, m, q, p + 6);
      CopiedAt(b, p, end + 1, m, q, p + 7);
      CopiedPart(b, p, end + 1, m, q, p + 8, p + 12);
      HexMoved(b, p + 8, m, q + 8);
    }
  }

  lemma {:induction false} UnescapeMoved(b: seq<Byte>, p: nat, end: nat, m: seq<Byte>, q: nat, end': nat)
    requires end < |b| && end' < |m| && p <= end + 1 && end' + p == end + q && Copied(b, p, end + 1, m, q)
    ensures Unescape(m, q, end') == Unescape(b, p, end)
    decreases end + 1 - p
  {
    hide Utf16, Utf8, Copied;
    if p < end {
      CopiedAt(b, p, end + 1, m, q, p);
      CopiedAt(b, p, end + 1, m, q, p + 1);
      Utf16Moved(b, p, end, m, q);
      var u := Utf16(b, p, end);
      if b[p] != BACKSLASH {
        CopiedFrom(b, p, end + 1, m, q, p + 1);
        UnescapeMoved(b, p + 1, end, m, q + 1, end');
      } else if SimpleEscape(b[p + 1]).Some? {
        CopiedFrom(b, p, end + 1, m, q, p + 2);
        UnescapeMoved(b, p + 2, end, m, q + 2, end');
      } else if b[p + 1] == LOWER_U && u.Ok? {
        CopiedFrom(b, p, end + 1, m, q, u.next);
        UnescapeMoved(b, u.next, end, m, q + (u.next - p), end');
      }
    }
  }

  lemma CopiedAt(b: seq<Byte>, i: nat, next: nat, m: seq<Byte>, j: nat, x: nat)
    requires Copied(b, i, next, m, j) && i <= x < next
    ensures m[j + (x - i)] == b[x]
  {
  }

  lemma StringSim(b: seq<Byte>, m: seq<Byte>, i: nat, j: nat)
    requires CString(b) && CString(m) && i < |b| && MinifiesTo(b, i, m, j) && ParseString(b, i).Ok?
    ensures var r := ParseString(b, i); var j' := j + (r.next - i);
            && j' < |m| && ParseString(m, j) == Ok(r.value, j') && MinifiesTo(b, r.next, m, j')
            && (Compact(m, j') ==> Compact(m, j))
  {
    hide Unescape;
    var e := StringEnd(b, i + 1).value;
    assert MoveAt(b, i) == Copy(e + 1);
    assert m[j + (i - i)] == b[i];
    CopiedFrom(b, i, e + 1, m, j, i + 1);
    EndMoved(b, i + 1, e, m, j + 1);
    UnescapeMoved(b, i + 1, e, m, j + 1, j + (e - i));
    assert MoveAt(m, j) == Copy(j + (e + 1 - i));
  }

  lemma StringClosed(b: seq<Byte>, i: nat)
    requires CString(b) && i < |b| && ParseString(b, i).Ok?
    ensures Closed(b, ParseString(b, i).next) ==> Closed(b, i)
  {
    hide Unescape;
    var e := StringEnd(b, i + 1).value;
    assert MoveAt(b, i) == Copy(e + 1);
  }

  // ---------- numbers ----------

  lemma {:induction false} RunChars(b: seq<Byte>, i: nat, room: nat)
    requires CString(b) && i < |b|
    ensures forall x :: i <= x < i + NumberRun(b, i, room) ==> NumberChar(b[x])
    decreases room
  {
    if room > 0 && NumberChar(b[i]) {
      RunChars(b, i + 1, room - 1);
    }
  }

  lemma {:induction false} RunMoved(b: seq<Byte>, i: nat, m: seq<Byte>, j: nat, room: nat)
    requires CString(b) && CString(m) && i < |b|
    requires var n := NumberRun(b, i, room); Copied(b, i, i + n, m, j) && j + n < |m| && !NumberChar(m[j + n])
    ensures NumberRun(m, j, room) == NumberRun(b, i, room)
    decreases room
  {
    if room > 0 && NumberChar(b[i]) {
      CopiedAt(b, i, i + NumberRun(b, i, room), m, j, i);
      CopiedFrom(b, i, i + NumberRun(b, i, room), m, j, i + 1);
      RunMoved(b, i + 1, m, j + 1, room - 1);
    }
  }

  /** A number that is followed by a delimiter is all of its run. */
  lemma NumberWhole(b: seq<Byte>, i: nat)
    requires CString(b) && i < |b| && ParseNumber(b, i).Ok? && !NumberChar(b[ParseNumber(b, i).next])
    ensures ParseNumber(b, i).next == i + NumberRun(b, i, NUMBER_ROOM)
    ensures forall x :: i <= x < ParseNumber(b, i).next ==> NumberChar(b[x])
  {
    hide Strtod;
    RunChars(b, i, NUMBER_ROOM);
  }

  lemma DelimitedNumber(b: seq<Byte>, i: nat)
    requires CString(b) && i < |b| && Delimited(b, i)
    ensures !NumberChar(b[i])
  {
  }

  lemma NumberSim(b: seq<Byte>, m: seq<Byte>, i: nat, j: nat)
    requires CString(b) && CString(m) && i < |b| && MinifiesTo(b, i, m, j)
    requires ParseNumber(b, i).Ok? && Delimited(b, ParseNumber(b, i).next)
    ensures var r := ParseNumber(b, i); var j' := j + (r.next - i);
            && j' < |m| && ParseNumber(m, j) == Ok(r.value, j') && MinifiesTo(b, r.next, m, j')
            && (Compact(m, j') ==> Compact(m, j))
  {
    hide Strtod, Compact, MinifiesTo, NumberRun, Skip;
    var r := ParseNumber(b, i);
    var n := r.next;
    DelimitedNumber(b, n);
    NumberWhole(b, i);
    RunSim(b, m, i, j, n);
    SkipSim(b, m, n, j + (n - i));
    DelimitedNumber(m, j + (n - i));
    RunMoved(b, i, m, j, NUMBER_ROOM);
    forall x | 0 <= x < n - i ensures m[j..j + (n - i)][x] == b[i..n][x] {
      CopiedAt(b, i, n, m, j, i + x);
    }
    assert m[j..j + (n - i)] == b[i..n];
  }

  lemma NumberClosed(b: seq<Byte>, i: nat)
    requires CString(b) && i < |b| && ParseNumber(b, i).Ok? && Delimited(b, ParseNumber(b, i).next)
    ensures Closed(b, ParseNumber(b, i).next) ==> Closed(b, i)
  {
    DelimitedNumber(b, ParseNumber(b, i).next);
    NumberWhole(b, i);
    RunClosed(b, i, ParseNumber(b, i).next);
  }

  // ---------- trees ----------

  lemma ValueStart(b: seq<Byte>, i: nat, depth: nat)
    requires CString(b) && i < |b| && ParseValue(b, i, depth).Ok?
    ensures b[i] > 32 && b[i] != SLASH
  {
    hide ParseContainer, ParseNumber, ParseString;
  }

  lemma ItemStart(b: seq<Byte>, i: nat, depth: nat, keyed: bool)
    requires CString(b) && i < |b| && ParseItem(b, i, depth, keyed).Ok?
    ensures b[i] > 32 && b[i] != SLASH
  {
    hide ParseValue, ParseString;
    if !keyed {
      ValueStart(b, i, depth);
    }
  }

  /** A word at a place of `b` is at the place of `m` that it is copied to. */
  lemma WordMoved(b: seq<Byte>, i: nat, m: seq<Byte>, j: nat)
    ensures IsNull(b, i) && Copied(b, i, i + 4, m, j) ==> IsNull(m, j)
    ensures IsFalse(b, i) && Copied(b, i, i + 5, m, j) ==> IsFalse(m, j)
    ensures IsTrue(b, i) && Copied(b, i, i + 4, m, j) ==> IsTrue(m, j)
  {
    if (IsNull(b, i) || IsTrue(b, i)) && Copied(b, i, i + 4, m, j) {
      assert m[j + (i - i)] == b[i] && m[j + (i + 1 - i)] == b[i + 1] && m[j + (i + 2 - i)] == b[i + 2] && m[j + (i + 3 - i)] == b[i + 3];
    }
    if IsFalse(b, i) && Copied(b, i, i + 5, m, j) {
      assert m[j + (i - i)] == b[i] && m[j + (i + 1 - i)] == b[i + 1] && m[j + (i + 2 - i)] == b[i + 2];
      assert m[j + (i + 3 - i)] == b[i + 3] && m[j + (i + 4 - i)] == b[i + 4];
    }
  }

  /** The outcome of parsing `m` at `j` like `b` at `i`, which gives `value` and stops at `next`. */
  predicate Alike<T(==)>(b: seq<Byte>, m: seq<Byte>, j: nat, r: Parsed<T>, r': Parsed<T>)
    requires CString(b) && CString(m) && j < |m|
  {
    r.Ok? && r'.Ok? && r'.value == r.value && r.next < |b| && r'.next < |m| && MinifiesTo(b, r.next, m, r'.next)
    && (Compact(m, r'.next) ==> Compact(m, j))
  }

  lemma {:induction false} ValueSim(b: seq<Byte>, m: seq<Byte>, i: nat, j: nat, depth: nat)
    requires CString(b) && CString(m) && i < |b| && MinifiesTo(b, i, m, j)
    requires ParseValue(b, i, depth).Ok? && Delimited(b, ParseValue(b, i, depth).next)
    ensures Alike(b, m, j, ParseValue(b, i, depth), ParseValue(m, j, depth))
    decreases |b| - i, 1
  {
    hide ParseContainer, ParseNumber, ParseString, MinifiesTo, Compact, Copied;
    ValueStart(b, i, depth);
    SkipSim(b, m, i, j);
    if IsNull(b, i) || IsFalse(b, i) || IsTrue(b, i) {
      WordSim(b, m, i, j, depth);
    } else if b[i] == QUOTE {
      StringSim(b, m, i, j);
    } else if b[i] == MINUS || Digit(b[i]) {
      NumberSim(b, m, i, j);
    } else {
      ContainerSim(b, m, i, j, depth);
    }
  }

  lemma WordSim(b: seq<Byte>, m: seq<Byte>, i: nat, j: nat, depth: nat)
    requires CString(b) && CString(m) && i < |b| && MinifiesTo(b, i, m, j) && (IsNull(b, i) || IsFalse(b, i) || IsTrue(b, i))
    ensures Alike(b, m, j, ParseValue(b, i, depth), ParseValue(m, j, depth))
  {
    hide ParseContainer, ParseNumber, ParseString, MinifiesTo, Compact, Copied;
    RunSim(b, m, i, j, if IsFalse(b, i) then i + 5 else i + 4);
    WordMoved(b, i, m, j);
  }

  lemma {:induction false} ContainerSim(b: seq<Byte>, m: seq<Byte>, i: nat, j: nat, depth: nat)
    requires CString(b) && CString(m) && i < |b| && MinifiesTo(b, i, m, j) && m[j] == b[i]
    requires b[i] == OPEN_BRACKET || b[i] == OPEN_BRACE
    requires ParseContainer(b, i, depth).Ok?
    ensures Alike(b, m, j, ParseContainer(b, i, depth), ParseContainer(m, j, depth))
    decreases |b| - i, 0
  {
    hide ParseItems, MinifiesTo, Compact, Copied, Skip;
    var keyed := b[i] == OPEN_BRACE;
    var close := if keyed then CLOSE_BRACE else CLOSE_BRACKET;
    RunSim(b, m, i, j, i + 1);
    var k := Skip(b, i + 1);
    if b[k] == close {
      SkipSim(b, m, i + 1, j + 1);
      RunSim(b, m, k, Skip(m, j + 1), k + 1);
    } else {
      ItemsStart(b, k, depth + 1, keyed);
      SkipTwice(b, i + 1);
      SkipSim(b, m, i + 1, j + 1);
      var k' := Skip(m, j + 1);
      ItemsSim(b, m, k, k', depth + 1, keyed);
      var e, e' := ParseItems(b, k, depth + 1, keyed).next, ParseItems(m, k', depth + 1, keyed).next;
      RunSim(b, m, e, e', e + 1);
    }
  }

  lemma ItemsStart(b: seq<Byte>, i: nat, depth: nat, keyed: bool)
    requires CString(b) && i < |b| && ParseItems(b, i, depth, keyed).Ok?
    ensures b[Skip(b, i)] > 32 && b[Skip(b, i)] != SLASH
  {
    ItemStart(b, Skip(b, i), depth, keyed);
  }

  lemma {:induction false} ItemsSim(b: seq<Byte>, m: seq<Byte>, i: nat, j: nat, depth: nat, keyed: bool)
    requires CString(b) && CString(m) && i < |b| && MinifiesTo(b, i, m, j)
    requires ParseItems(b, i, depth, keyed).Ok?
    requires Delimiter(b[ParseItems(b, i, depth, keyed).next])
    ensures Alike(b, m, j, ParseItems(b, i, depth, keyed), ParseItems(m, j, depth, keyed))
    ensures m[ParseItems(m, j, depth, keyed).next] == b[ParseItems(b, i, depth, keyed).next]
    decreases |b| - i, 3
  {
    hide ParseItem, MinifiesTo, Compact, Copied, Skip;
    ItemsStart(b, i, depth, keyed);
    SkipSim(b, m, i, j);
    var k, k' := Skip(b, i), Skip(m, j);
    ItemSim(b, m, k, k', depth, keyed);
    var n, n' := ParseItem(b, k, depth, keyed).next, ParseItem(m, k', depth, keyed).next;
    SkipSim(b, m, n, n');
    var c, c' := Skip(b, n), Skip(m, n');
    if b[c] == COMMA {
      RunSim(b, m, c, c', c + 1);
      ItemsSim(b, m, c + 1, c' + 1, depth, keyed);
    }
  }

  lemma {:induction false} ItemSim(b: seq<Byte>, m: seq<Byte>, i: nat, j: nat, depth: nat, keyed: bool)
    requires CString(b) && CString(m) && i < |b| && MinifiesTo(b, i, m, j)
    requires ParseItem(b, i, depth, keyed).Ok? && Delimited(b, ParseItem(b, i, depth, keyed).next)
    ensures Alike(b, m, j, ParseItem(b, i, depth, keyed), ParseItem(m, j, depth, keyed))
    decreases |b| - i, 2
  {
    hide ParseString, ParseValue, MinifiesTo, Compact, Copied, Skip;
    if keyed {
      StringSim(b, m, i, j);
      var n, n' := ParseString(b, i).next, ParseString(m, j).next;
      var c, c' := Skip(b, n), Skip(m, n');
      SkipSim(b, m, n, n');
      RunSim(b, m, c, c', c + 1);
      var p := Skip(b, c + 1);
      ValueStart(b, p, depth);
      SkipSim(b, m, c + 1, c' + 1);
      ValueSim(b, m, p, Skip(m, c' + 1), depth);
    } else {
      ValueSim(b, m, i, j, depth);
    }
  }

  // ---------- strings and comments have ends ----------

  lemma {:induction false} ValueClosed(b: seq<Byte>, i: nat, depth: nat)
    requires CString(b) && i < |b| && ParseValue(b, i, depth).Ok? && Delimited(b, ParseValue(b, i, depth).next)
    ensures Closed(b, ParseValue(b, i, depth).next) ==> Closed(b, i)
    decreases |b| - i, 1
  {
    hide ParseContainer, ParseNumber, ParseString, Closed;
    if IsNull(b, i) || IsTrue(b, i) {
      RunClosed(b, i, i + 4);
    } else if IsFalse(b, i) {
      RunClosed(b, i, i + 5);
    } else if b[i] == QUOTE {
      StringClosed(b, i);
    } else if b[i] == MINUS || Digit(b[i]) {
      NumberClosed(b, i);
    } else {
      ContainerClosed(b, i, depth);
    }
  }

  lemma {:induction false} ContainerClosed(b: seq<Byte>, i: nat, depth: nat)
    requires CString(b) && i < |b| && (b[i] == OPEN_BRACKET || b[i] == OPEN_BRACE) && ParseContainer(b, i, depth).Ok?
    ensures Closed(b, ParseContainer(b, i, depth).next) ==> Closed(b, i)
    decreases |b| - i, 0
  {
    hide ParseItems, Closed, Skip;
    var keyed := b[i] == OPEN_BRACE;
    RunClosed(b, i, i + 1);
    SkipClosed(b, i + 1);
    var k := Skip(b, i + 1);
    if b[k] == (if keyed then CLOSE_BRACE else CLOSE_BRACKET) {
      RunClosed(b, k, k + 1);
    } else {
      ItemsClosed(b, k, depth + 1, keyed);
      var e := ParseItems(b, k, depth + 1, keyed).next;
      RunClosed(b, e, e + 1);
    }
  }

  lemma {:induction false} ItemsClosed(b: seq<Byte>, i: nat, depth: nat, keyed: bool)
    requires CString(b) && i < |b| && ParseItems(b, i, depth, keyed).Ok? && Delimiter(b[ParseItems(b, i, depth, keyed).next])
    ensures Closed(b, ParseItems(b, i, depth, keyed).next) ==> Closed(b, i)
    decreases |b| - i, 3
  {
    hide ParseItem, Closed, Skip;
    var k := Skip(b, i);
    var n := ParseItem(b, k, depth, keyed).next;
    var c := Skip(b, n);
    SkipClosed(b, i);
    ItemClosed(b, k, depth, keyed);
    SkipClosed(b, n);
    if b[c] == COMMA {
      RunClosed(b, c, c + 1);
      ItemsClosed(b, c + 1, depth, keyed);
    }
  }

  lemma {:induction false} ItemClosed(b: seq<Byte>, i: nat, depth: nat, keyed: bool)
    requires CString(b) && i < |b| && ParseItem(b, i, depth, keyed).Ok? && Delimited(b, ParseItem(b, i, depth, keyed).next)
    ensures Closed(b, ParseItem(b, i, depth, keyed).next) ==> Closed(b, i)
    decreases |b| - i, 2
  {
    hide ParseString, ParseValue, Closed, Skip;
    if keyed {
      StringClosed(b, i);
      var c := Skip(b, ParseString(b, i).next);
      SkipClosed(b, ParseString(b, i).next);
      RunClosed(b, c, c + 1);
      SkipClosed(b, c + 1);
      ValueClosed(b, Skip(b, c + 1), depth);
    } else {
      ValueClosed(b, i, depth);
    }
  }

  // ---------- the result ----------

  /** Text that parses meets what cJSON_Minify demands. */
  lemma AcceptedCloses(s: seq<Byte>)
    requires NulFree(s) && ParseText(s, true).Some?
    ensures CString(s + [0]) && Closed(s + [0], 0)
  {
    hide ParseValue, Skip;
    var b := s + [0];
    var n := ParseValue(b, Skip(b, 0), 0).next;
    SkipClosed(b, 0);
    ValueClosed(b, Skip(b, 0), 0);
    SkipClosed(b, n);
  }

  /** The text left by cJSON_Minify parses to the same tree, and minifying it again changes nothing. */
  lemma MinifiedParses(s: seq<Byte>, t: seq<Byte>)
    requires NulFree(s) && ParseText(s, true).Some?
    requires CString(s + [0]) && MinifiesTo(s + [0], 0, t + [0], 0)
    ensures NulFree(t) && ParseText(t, true) == ParseText(s, true)
    ensures CString(t + [0]) && MinifiesTo(t + [0], 0, t + [0], 0)
  {
    hide ParseValue, Skip, MinifiesTo;
    var b, m := s + [0], t + [0];
    TextIsCString(b, 0, m, 0);
    forall x | 0 <= x < |t| ensures t[x] != 0 {
      assert m[x] == t[x];
    }
    var k := Skip(b, 0);
    var n := ParseValue(b, k, 0).next;
    ValueStart(b, k, 0);
    SkipSim(b, m, 0, 0);
    ValueSim(b, m, k, Skip(m, 0), 0);
    var n' := ParseValue(m, Skip(m, 0), 0).next;
    SkipSim(b, m, n, n');
    StopHere(m, Skip(m, n'), m, Skip(m, n'));
  }
}
