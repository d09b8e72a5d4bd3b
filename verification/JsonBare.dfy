/** What cJSON_Minify leaves out, and what its result is free of. */
module JsonBare {
  import opened Bytes
  import opened JsonSpec
  import opened JsonMinify
  import opened JsonMinified

  // ---------- one move ----------

  predicate White(c: Byte) {
    c == ' ' as int || c == '\t' as int || c == '\r' as int || c == '\n' as int
  }

  predicate PairAt(b: seq<Byte>, i: nat, first: char, second: char) {
    i + 1 < |b| && b[i] == first as int && b[i + 1] == second as int
  }

  /** The first line break from `i` on, or the terminator when there is none, is at `e`. */
  predicate EndsLine(b: seq<Byte>, i: nat, e: nat) {
    i <= e < |b| && (b[e] == '\n' as int || b[e] == 0) && forall x :: i <= x < e ==> b[x] != '\n' as int && b[x] != 0
  }

  /** The first end mark of a comment from `i` on is at `e`. */
  predicate EndsComment(b: seq<Byte>, i: nat, e: nat) {
    i <= e && PairAt(b, e, '*', '/') && forall x :: i <= x < e ==> !PairAt(b, x, '*', '/')
  }

  lemma {:induction false} LineEndIs(b: seq<Byte>, i: nat, e: nat)
    requires CString(b) && i < |b|
    ensures LineEnd(b, i) == e <==> EndsLine(b, i, e)
    decreases |b| - i
  {
    if b[i] != 0 && b[i] != NEWLINE {
      LineEndIs(b, i + 1, e);
    }
  }

  lemma {:induction false} CommentEndIs(b: seq<Byte>, i: nat, e: nat)
    requires CString(b) && i < |b|
    ensures CommentEnd(b, i) == Some(e) <==> EndsComment(b, i, e)
    decreases |b| - i
  {
    if b[i] != 0 && !PairAt(b, i, '*', '/') {
      CommentEndIs(b, i + 1, e);
    }
  }

  /**
   Left out, where the loop is: one white space character, a comment up to its line break, which stays for
   the next turn, or a comment up to and with the first end mark; the star of its start counts for the mark.
   */
  lemma LeaveMeans(b: seq<Byte>, i: nat, next: nat)
    requires CString(b) && i < |b|
    ensures MoveAt(b, i) == Leave(next) <==>
            || (White(b[i]) && next == i + 1)
            || (PairAt(b, i, '/', '/') && EndsLine(b, i, next))
            || (PairAt(b, i, '/', '*') && next >= 2 && EndsComment(b, i, next - 2))
  {
    hide LineEnd, CommentEnd, StringEnd, EndsLine, EndsComment;
    LineEndIs(b, i, next);
    if next >= 2 {
      CommentEndIs(b, i, next - 2);
    }
  }

  // ---------- the result ----------

  /** From `j` on, a stretch from quote to quote counting as one step, `bad` does not hold anywhere. */
  predicate FreeOf(m: seq<Byte>, j: nat, bad: (seq<Byte>, nat) -> bool)
    requires CString(m) && j < |m|
    decreases |m| - j
  {
    if m[j] == 0 then true
    else if m[j] == '"' as int then
      var e := StringEnd(m, j + 1);
      e.Some? && e.value + 1 < |m| && FreeOf(m, e.value + 1, bad)
    else !bad(m, j) && FreeOf(m, j + 1, bad)
  }

  predicate WhiteAt(m: seq<Byte>, j: nat) {
    j < |m| && White(m[j])
  }

  predicate CommentAt(m: seq<Byte>, j: nat) {
    PairAt(m, j, '/', '/') || PairAt(m, j, '/', '*')
  }

  /** Whatever the text, its result has no white space outside strings. */
  lemma {:induction false} NoWhite(b: seq<Byte>, i: nat, m: seq<Byte>, j: nat)
    requires CString(b) && CString(m) && i < |b| && MinifiesTo(b, i, m, j)
    ensures FreeOf(m, j, WhiteAt)
    decreases |b| - i
  {
    hide StringEnd, Copied;
    match MoveAt(b, i)
    case Stop =>
    case Leave(next) => NoWhite(b, next, m, j);
    case Copy(next) =>
      CopiedAt(b, i, next, m, j, i);
      NoWhite(b, next, m, j + (next - i));
      if b[i] == QUOTE {
        CopiedFrom(b, i, next, m, j, i + 1);
        EndMoved(b, i + 1, next - 1, m, j + 1);
      }
  }

  /** The first byte from `i` on that is not left out. */
  function NextKept(b: seq<Byte>, i: nat): Byte
    requires CString(b) && i < |b|
    decreases |b| - i
  {
    var move := MoveAt(b, i);
    if move.Leave? then NextKept(b, move.next) else b[i]
  }

  /** A slash that starts no comment, but does so when what follows it is left out. */
  predicate Splices(b: seq<Byte>, i: nat)
    requires CString(b) && i < |b|
  {
    i + 1 < |b| && b[i] == '/' as int && MoveAt(b, i) == Copy(i + 1)
    && (NextKept(b, i + 1) == '/' as int || NextKept(b, i + 1) == '*' as int)
  }

  /** The loop comes by no such slash. */
  predicate NoSplice(b: seq<Byte>, i: nat)
    requires CString(b) && i < |b|
    decreases |b| - i
  {
    match MoveAt(b, i)
    case Leave(next) => NoSplice(b, next)
    case Copy(next) => !Splices(b, i) && NoSplice(b, next)
    case _ => true
  }

  lemma {:induction false} KeptIs(b: seq<Byte>, i: nat, m: seq<Byte>, j: nat)
    requires CString(b) && i < |b| && MinifiesTo(b, i, m, j)
    ensures m[j] == NextKept(b, i)
    decreases |b| - i
  {
    match MoveAt(b, i)
    case Leave(next) => KeptIs(b, next, m, j);
    case Copy(next) => CopiedAt(b, i, next, m, j, i);
    case _ =>
  }

  /** The result has no comment outside strings exactly when no two slashes, or slash and star, are put together. */
  lemma {:induction false} NoComment(b: seq<Byte>, i: nat, m: seq<Byte>, j: nat)
    requires CString(b) && CString(m) && i < |b| && MinifiesTo(b, i, m, j)
    ensures FreeOf(m, j, CommentAt) <==> NoSplice(b, i)
    decreases |b| - i
  {
    hide StringEnd, Copied, NextKept;
    match MoveAt(b, i)
    case Stop =>
    case Leave(next) => NoComment(b, next, m, j);
    case Copy(next) =>
      CopiedAt(b, i, next, m, j, i);
      NoComment(b, next, m, j + (next - i));
      KeptIs(b, next, m, j + (next - i));
      if b[i] == QUOTE {
        CopiedFrom(b, i, next, m, j, i + 1);
        EndMoved(b, i + 1, next - 1, m, j + 1);
      }
  }

  /** Blanks between two slashes go, so that a comment starts where none was. */
  lemma Spliced()
    ensures MinifiesTo(['/' as int, ' ' as int, '/' as int, 'x' as int, 0], 0, ['/' as int, '/' as int, 'x' as int, 0], 0)
  {
    var b, m := ['/' as int, ' ' as int, '/' as int, 'x' as int, 0], ['/' as int, '/' as int, 'x' as int, 0];
    StopHere(b, 4, m, 3);
    assert MoveAt(b, 3) == Copy(4) && MinifiesTo(b, 3, m, 2);
    assert MoveAt(b, 2) == Copy(3) && MinifiesTo(b, 2, m, 1);
    assert MoveAt(b, 1) == Leave(2) && MinifiesTo(b, 1, m, 1);
    assert MoveAt(b, 0) == Copy(1);
  }

  lemma {:induction false} NotLonger(b: seq<Byte>, i: nat, m: seq<Byte>, j: nat)
    requires CString(b) && i < |b| && MinifiesTo(b, i, m, j)
    ensures |m| - j <= |b| - i
    decreases |b| - i
  {
    match MoveAt(b, i)
    case Leave(next) => NotLonger(b, next, m, j);
    case Copy(next) => NotLonger(b, next, m, j + (next - i));
    case _ =>
  }

  /** A text that minifying leaves alone has no comment. */
  lemma {:induction false} CompactNoComment(m: seq<Byte>, j: nat)
    requires CString(m) && j < |m| && Compact(m, j)
    ensures FreeOf(m, j, CommentAt)
    decreases |m| - j
  {
    hide StringEnd, Copied;
    match MoveAt(m, j)
    case Leave(next) => NotLonger(m, next, m, j);
    case Copy(next) => CompactNoComment(m, next);
    case _ =>
  }

  /** What is left of a text that parses has neither white space nor a comment outside strings. */
  lemma AcceptedBare(s: seq<Byte>, t: seq<Byte>)
    requires NulFree(s) && ParseText(s, true).Some?
    requires CString(s + [0]) && MinifiesTo(s + [0], 0, t + [0], 0)
    ensures CString(t + [0]) && FreeOf(t + [0], 0, WhiteAt) && FreeOf(t + [0], 0, CommentAt)
  {
    hide ParseText, MinifiesTo, FreeOf;
    MinifiedParses(s, t);
    NoWhite(s + [0], 0, t + [0], 0);
    CompactNoComment(t + [0], 0);
  }
}
