/** cJSON_Minify: it rewrites its text in place, dropping white space and comments. */
module JsonMinify {
  import opened Bytes
  import opened JsonSpec

  const CARRIAGE_RETURN: Byte := 13
  const STAR: Byte := 42

  /** What the outer loop does at a place: it leaves out, or copies, all up to `next`. */
  datatype Move = Stop | Leave(next: nat) | Copy(next: nat) | Stuck

  predicate Blank(c: Byte) {
    c == SPACE || c == TAB || c == CARRIAGE_RETURN || c == NEWLINE
  }

  /** The end of the line or of the text. */
  function LineEnd(b: seq<Byte>, i: nat): (e: nat)
    requires CString(b) && i < |b|
    ensures i <= e < |b| && (b[e] == 0 || b[e] == NEWLINE)
    decreases |b| - i
  {
    if b[i] == 0 || b[i] == NEWLINE then i else LineEnd(b, i + 1)
  }

  /** The star of the mark that ends a comment. */
  function CommentEnd(b: seq<Byte>, i: nat): (e: Option<nat>)
    requires CString(b) && i < |b|
    ensures e.Some? ==> i <= e.value && e.value + 2 < |b|
    decreases |b| - i
  {
    if b[i] == 0 then None
    else if b[i] == STAR && b[i + 1] == SLASH then Some(i)
    else CommentEnd(b, i + 1)
  }

  /** Stuck when a string or a comment has no end, so that the loop would run past the terminator. */
  function MoveAt(b: seq<Byte>, i: nat): (m: Move)
    requires CString(b) && i < |b|
    ensures m.Stop? <==> b[i] == 0
    ensures m.Leave? || m.Copy? ==> i < m.next < |b|
  {
    if b[i] == 0 then Stop
    else if Blank(b[i]) then Leave(i + 1)
    else if b[i] == SLASH && b[i + 1] == SLASH then Leave(LineEnd(b, i))
    else if b[i] == SLASH && b[i + 1] == STAR then
      var e := CommentEnd(b, i);
      if e.Some? then Leave(e.value + 2) else Stuck
    else if b[i] == QUOTE then
      var e := StringEnd(b, i + 1);
      if e.Some? && e.value + 1 < |b| then Copy(e.value + 1) else Stuck
    else Copy(i + 1)
  }

  /** Every string and every comment from `i` on has an end. */
  predicate Closed(b: seq<Byte>, i: nat)
    requires CString(b) && i < |b|
    decreases |b| - i
  {
    match MoveAt(b, i)
    case Stop => true
    case Leave(next) => Closed(b, next)
    case Copy(next) => Closed(b, next)
    case Stuck => false
  }

  /** The bytes of `b` from `i` to `next` stand in `m` at `j`. */
  predicate Copied(b: seq<Byte>, i: nat, next: nat, m: seq<Byte>, j: nat) {
    && i <= next <= |b| && j + (next - i) <= |m|
    && forall x {:trigger b[x]} :: i <= x < next ==> m[j + (x - i)] == b[x]
  }

  /** `m` from `j` on is what is left of `b` from `i` on. */
  predicate MinifiesTo(b: seq<Byte>, i: nat, m: seq<Byte>, j: nat): (r: bool)
    requires CString(b) && i < |b|
    ensures r ==> j < |m|
    decreases |b| - i
  {
    match MoveAt(b, i)
    case Stop => j + 1 == |m| && m[j] == 0
    case Leave(next) => MinifiesTo(b, next, m, j)
    case Copy(next) => Copied(b, i, next, m, j) && MinifiesTo(b, next, m, j + (next - i))
    case Stuck => false
  }

  // ---------- how far the loop reads ----------

  /** Where the inner loop of the string branch leaves the pointer, which is outside the text when it read there. */
  function StringScan(b: seq<Byte>, i: nat): (e: nat)
    requires CString(b)
    ensures i <= e
    decreases |b| - i
  {
    if i >= |b| || b[i] == 0 || b[i] == QUOTE then i
    else if b[i] == BACKSLASH then StringScan(b, i + 2)
    else StringScan(b, i + 1)
  }

  /** Where the inner loop of the comment branch leaves the pointer. */
  function CommentScan(b: seq<Byte>, i: nat): (e: nat)
    requires CString(b) && i < |b|
    ensures i <= e < |b|
    decreases |b| - i
  {
    if b[i] == 0 || (b[i] == STAR && b[i + 1] == SLASH) then i else CommentScan(b, i + 1)
  }

  /** Where one turn of the outer loop leaves the pointer. */
  function After(b: seq<Byte>, r: nat): (next: nat)
    requires CString(b) && r < |b| && b[r] != 0
    ensures r < next
  {
    if Blank(b[r]) then r + 1
    else if b[r] == SLASH && b[r + 1] == SLASH then LineEnd(b, r + 1)
    else if b[r] == SLASH && b[r + 1] == STAR then CommentScan(b, r) + 2
    else if b[r] == QUOTE then StringScan(b, r + 1) + 1
    else r + 1
  }

  /** Where the outer loop stops, or where it first is outside the text. */
  function LastPlace(b: seq<Byte>, r: nat): nat
    requires CString(b)
    decreases |b| - r
  {
    if r >= |b| || b[r] == 0 then r else LastPlace(b, After(b, r))
  }

  lemma {:induction false} StringScanIs(b: seq<Byte>, i: nat)
    requires CString(b) && i <= |b|
    ensures var e := StringEnd(b, i); if e.Some? then StringScan(b, i) == e.value else StringScan(b, i) >= |b| - 1
    decreases |b| - i
  {
    if i < |b| && b[i] == BACKSLASH && i + 1 < |b| {
      StringScanIs(b, i + 2);
    } else if i < |b| && b[i] != QUOTE && b[i] != BACKSLASH {
      StringScanIs(b, i + 1);
    }
  }

  lemma {:induction false} CommentScanIs(b: seq<Byte>, i: nat)
    requires CString(b) && i < |b|
    ensures var e := CommentEnd(b, i); CommentScan(b, i) == if e.Some? then e.value else |b| - 1
    decreases |b| - i
  {
    if b[i] != 0 && !(b[i] == STAR && b[i + 1] == SLASH) {
      CommentScanIs(b, i + 1);
    }
  }

  /** On every C string: the loop stays inside the text exactly when all its strings and comments have an end. */
  lemma {:induction false} StaysInside(b: seq<Byte>, r: nat)
    requires CString(b) && r < |b|
    ensures LastPlace(b, r) < |b| <==> Closed(b, r)
    decreases |b| - r
  {
    hide StringEnd, StringScan, CommentEnd, CommentScan;
    if b[r] != 0 {
      StringScanIs(b, r + 1);
      CommentScanIs(b, r);
      match MoveAt(b, r)
      case Leave(next) => StaysInside(b, next);
      case Copy(next) => StaysInside(b, next);
      case _ =>
    }
  }

  /** A quote alone, and the start of a comment alone, are left behind. */
  lemma Overrun()
    ensures LastPlace([QUOTE, 0], 0) >= 2 && LastPlace([SLASH, STAR, 0], 0) >= 3
  {
    var quote, comment := [QUOTE, 0], [SLASH, STAR, 0];
    assert !Closed(quote, 0) && !Closed(comment, 0) by {
      assert StringEnd(quote, 2).None? && StringEnd(quote, 1).None?;
      assert CommentEnd(comment, 2).None? && CommentEnd(comment, 1).None? && CommentEnd(comment, 0).None?;
    }
    StaysInside(quote, 0);
    StaysInside(comment, 0);
  }

  // ---------- the loop ----------

  /** The outer loop gets from `i` to `r`, and what it writes stands in `m` from `j` to `w`. */
  predicate Reaches(b: seq<Byte>, i: nat, m: seq<Byte>, j: nat, r: nat, w: nat)
    requires CString(b) && i < |b|
    decreases |b| - i
  {
    if i == r then j == w else
      match MoveAt(b, i)
      case Leave(next) => Reaches(b, next, m, j, r, w)
      case Copy(next) => Copied(b, i, next, m, j) && j + (next - i) <= w && Reaches(b, next, m, j + (next - i), r, w)
      case _ => false
  }

  lemma {:induction false} ReachesBounds(b: seq<Byte>, i: nat, m: seq<Byte>, j: nat, r: nat, w: nat)
    requires CString(b) && i < |b| && Reaches(b, i, m, j, r, w)
    ensures i <= r < |b| && j <= w && w - j <= r - i
    ensures Closed(b, i) ==> Closed(b, r)
    decreases |b| - i
  {
    if i != r {
      match MoveAt(b, i)
      case Leave(next) => ReachesBounds(b, next, m, j, r, w);
      case Copy(next) => ReachesBounds(b, next, m, j + (next - i), r, w);
    }
  }

  /** Only what is written matters. */
  lemma {:induction false} ReachesSame(b: seq<Byte>, i: nat, m: seq<Byte>, m': seq<Byte>, j: nat, r: nat, w: nat)
    requires CString(b) && i < |b| && Reaches(b, i, m, j, r, w)
    requires w <= |m| && w <= |m'| && forall x {:trigger m'[x]} :: 0 <= x < w ==> m'[x] == m[x]
    ensures Reaches(b, i, m', j, r, w)
    decreases |b| - i
  {
    if i != r {
      match MoveAt(b, i)
      case Leave(next) => ReachesSame(b, next, m, m', j, r, w);
      case Copy(next) => ReachesSame(b, next, m, m', j + (next - i), r, w);
    }
  }

  lemma {:induction false} ReachesOn(b: seq<Byte>, i: nat, m: seq<Byte>, j: nat, r: nat, w: nat)
    requires CString(b) && i < |b| && Reaches(b, i, m, j, r, w) && r < |b|
    ensures var move := MoveAt(b, r);
            && (move.Leave? ==> Reaches(b, i, m, j, move.next, w))
            && (move.Copy? && Copied(b, r, move.next, m, w) ==> Reaches(b, i, m, j, move.next, w + (move.next - r)))
    decreases |b| - i
  {
    if i != r {
      match MoveAt(b, i)
      case Leave(next) =>
        ReachesBounds(b, next, m, j, r, w);
        ReachesOn(b, next, m, j, r, w);
      case Copy(next) =>
        ReachesBounds(b, next, m, j + (next - i), r, w);
        ReachesOn(b, next, m, j + (next - i), r, w);
    }
  }

  lemma {:induction false} ReachesEnd(b: seq<Byte>, i: nat, m: seq<Byte>, j: nat, r: nat, w: nat)
    requires CString(b) && i < |b| && Reaches(b, i, m, j, r, w) && r < |b| && MinifiesTo(b, r, m, w)
    ensures MinifiesTo(b, i, m, j)
    decreases |b| - i
  {
    if i != r {
      match MoveAt(b, i)
      case Leave(next) => ReachesEnd(b, next, m, j, r, w);
      case Copy(next) => ReachesEnd(b, next, m, j + (next - i), r, w);
    }
  }

  /** What is not read yet is as it was. */
  predicate Unread(b: seq<Byte>, m: seq<Byte>, r: nat) {
    |m| == |b| && forall x {:trigger m[x]} :: r <= x < |b| ==> m[x] == b[x]
  }

  /** The bytes before `w` are as they were. */
  predicate Before(m: seq<Byte>, m': seq<Byte>, w: nat) {
    |m| == |m'| && w <= |m| && forall x {:trigger m'[x]} :: 0 <= x < w ==> m'[x] == m[x]
  }

  /** Copies one byte, of a stretch that starts at `start` and goes to `w0`. */
  method CopyByte(json: array<Byte>, r: nat, w: nat, ghost b: seq<Byte>, ghost start: nat, ghost w0: nat)
    requires start <= r < |b| && w0 <= start && w == w0 + (r - start)
    requires Unread(b, json[..], r) && Copied(b, start, r, json[..], w0)
    modifies json
    ensures Unread(b, json[..], r + 1) && Copied(b, start, r + 1, json[..], w0)
    ensures Before(old(json[..]), json[..], w)
  {
    json[w] := json[r];
  }

  /** The string branch: it copies up to the closing quote, and what is behind a backslash in any case. */
  method CopyString(json: array<Byte>, ghost b: seq<Byte>, start: nat, w0: nat) returns (r: nat, w: nat)
    requires CString(b) && w0 <= start < |b| && Unread(b, json[..], start) && b[start] == QUOTE && MoveAt(b, start).Copy?
    modifies json
    ensures r == MoveAt(b, start).next && w == w0 + (r - start)
    ensures Unread(b, json[..], r) && Copied(b, start, r, json[..], w0) && Before(old(json[..]), json[..], w0)
  {
    ghost var end := StringEnd(b, start + 1).value;
    hide Copied;
    NothingCopied(b, start, json[..], w0);
    CopyByte(json, start, w0, b, start, w0);
    r, w := start + 1, w0 + 1;
    while json[r] != 0 && json[r] != QUOTE
      invariant start < r <= end && w == w0 + (r - start) && StringEnd(b, r) == Some(end)
      invariant Unread(b, json[..], r) && Copied(b, start, r, json[..], w0) && Before(old(json[..]), json[..], w0)
      decreases end - r
    {
      assert b[r] == json[..][r];
      if json[r] == BACKSLASH {
        CopyByte(json, r, w, b, start, w0);
        r, w := r + 1, w + 1;
      }
      CopyByte(json, r, w, b, start, w0);
      r, w := r + 1, w + 1;
    }
    assert b[r] == json[..][r];
    CopyByte(json, r, w, b, start, w0);
    r, w := r + 1, w + 1;
  }

  lemma NothingCopied(b: seq<Byte>, i: nat, m: seq<Byte>, j: nat)
    requires i <= |b| && j <= |m|
    ensures Copied(b, i, i, m, j)
  {
  }

  lemma StartHere(b: seq<Byte>, m: seq<Byte>)
    requires CString(b)
    ensures Reaches(b, 0, m, 0, 0, 0)
  {
  }

  lemma StopHere(b: seq<Byte>, r: nat, m: seq<Byte>, w: nat)
    requires CString(b) && r < |b| && b[r] == 0 && |m| == w + 1 && m[w] == 0
    ensures MinifiesTo(b, r, m, w)
  {
  }

  /** cJSON_Minify; `end` is the place of the new terminator. */
  method Minify(json: array<Byte>) returns (end: nat)
    requires CString(json[..]) && Closed(json[..], 0)
    modifies json
    ensures end < json.Length && json[end] == 0 && MinifiesTo(old(json[..]), 0, json[..end + 1], 0)
  {
    ghost var b := json[..];
    StartHere(b, b);
    hide Closed, MinifiesTo, Reaches, MoveAt;
    var r: nat, w: nat := 0, 0;
    while json[r] != 0
      invariant w <= r < |b| && Unread(b, json[..], r) && Closed(b, r)
      invariant Reaches(b, 0, json[..], 0, r, w)
      decreases |b| - r
    {
      assert b[r] == json[..][r];
      ghost var m, r0, w0 := json[..], r, w;
      r, w := Turn(json, b, r, w);
      ReachesTurn(b, m, json[..], r0, w0, r, w);
    }
    assert b[r] == json[..][r];
    end := w;
    ghost var m := json[..];
    json[w] := 0;
    ReachesStop(b, m, json[..end + 1], r, w);
  }

  lemma ReachesTurn(b: seq<Byte>, m: seq<Byte>, m': seq<Byte>, r0: nat, w0: nat, r: nat, w: nat)
    requires CString(b) && r0 < |b| && Reaches(b, 0, m, 0, r0, w0) && Closed(b, 0) && Before(m, m', w0) && w0 <= |m| == |m'|
    requires (MoveAt(b, r0) == Leave(r) && w == w0) || (MoveAt(b, r0) == Copy(r) && w == w0 + (r - r0) && Copied(b, r0, r, m', w0))
    ensures Reaches(b, 0, m', 0, r, w) && w <= r < |b| && Closed(b, r)
  {
    hide MoveAt, Reaches, Closed;
    ReachesSame(b, 0, m, m', 0, r0, w0);
    ReachesOn(b, 0, m', 0, r0, w0);
    ReachesBounds(b, 0, m', 0, r, w);
  }

  lemma ReachesStop(b: seq<Byte>, m: seq<Byte>, m': seq<Byte>, r: nat, w: nat)
    requires CString(b) && r < |b| && b[r] == 0 && Reaches(b, 0, m, 0, r, w)
    requires w < |m| && |m'| == w + 1 && m'[w] == 0 && m'[..w] == m[..w]
    ensures MinifiesTo(b, 0, m', 0)
  {
    hide MoveAt, Reaches, MinifiesTo;
    assert forall x {:trigger m'[x]} :: 0 <= x < w ==> m'[x] == m'[..w][x] == m[..w][x] == m[x];
    ReachesSame(b, 0, m, m', 0, r, w);
    StopHere(b, r, m', w);
    ReachesEnd(b, 0, m', 0, r, w);
  }

  /** One turn of the outer loop. */
  method Turn(json: array<Byte>, ghost b: seq<Byte>, r0: nat, w0: nat) returns (r: nat, w: nat)
    requires CString(b) && w0 <= r0 < |b| && Unread(b, json[..], r0) && b[r0] != 0 && Closed(b, r0)
    modifies json
    ensures Unread(b, json[..], r) && Before(old(json[..]), json[..], w0) && r0 < r < |b|
    ensures var move := MoveAt(b, r0);
            || (move == Leave(r) && w == w0)
            || (move == Copy(r) && w == w0 + (r - r0) && Copied(b, r0, r, json[..], w0))
  {
    hide StringEnd;
    r, w := r0, w0;
    assert b[r] == json[..][r];
    assert b[r + 1] == json[..][r + 1];
    if json[r] == SPACE || json[r] == TAB || json[r] == CARRIAGE_RETURN || json[r] == NEWLINE {
      r := r + 1;
    } else if json[r] == SLASH && json[r + 1] == SLASH {
      ghost var target := LineEnd(b, r);
      while json[r] != 0 && json[r] != NEWLINE
        invariant r0 <= r < |b| && LineEnd(b, r) == target
        decreases |b| - r
      {
        r := r + 1;
      }
    } else if json[r] == SLASH && json[r + 1] == STAR {
      ghost var target := CommentEnd(b, r);
      while json[r] != 0 && !(json[r] == STAR && json[r + 1] == SLASH)
        invariant r0 <= r < |b| && CommentEnd(b, r) == target && target.Some?
        decreases |b| - r
      {
        r := r + 1;
      }
      r := r + 2;
    } else if json[r] == QUOTE {
      r, w := CopyString(json, b, r, w);
    } else {
      NothingCopied(b, r, json[..], w);
      CopyByte(json, r, w, b, r, w);
      r, w := r + 1, w + 1;
    }
  }
}
