/** A reader that buffers an underlying one, with a mark that it can go back to. */
module BufferedReader {

  datatype Option<T> = None | Some(value: T)

  /** The underlying reader: it yields its characters in portions that it chooses. */
  class Source {
    const data: seq<char>
    var at: nat

    ghost predicate Valid()
      reads this
    {
      at <= |data|
    }

    constructor (data: seq<char>)
      ensures Valid() && this.data == data && at == 0
    {
      this.data := data;
      at := 0;
    }

    /** At least one character, or -1 at the end. */
    method Read(buffer: array<char>, offset: nat, length: nat) returns (n: int)
      requires Valid() && length > 0 && offset + length <= buffer.Length
      modifies `at, buffer
      ensures Valid() && old(at) <= at
      ensures if old(at) == |data| then n == -1 && at == old(at) else 1 <= n <= length && at == old(at) + n
      ensures forall x :: 0 <= x < offset ==> buffer[x] == old(buffer[x])
      ensures forall x :: offset <= x < offset + (at - old(at)) ==> buffer[x] == data[old(at) + (x - offset)]
      ensures forall x :: offset + (at - old(at)) <= x < buffer.Length ==> buffer[x] == old(buffer[x])
    {
      if at == |data| {
        return -1;
      }
      var rest := |data| - at;
      n :| 1 <= n <= length && n <= rest;
      forall x | 0 <= x < n {
        buffer[offset + x] := data[at + x];
      }
      at := at + n;
    }

    method Ready() returns (ready: bool) {
      ready := *;
    }
  }

  // ---------- lines ----------

  predicate Eol(c: char) {
    c == '\n' || c == '\r'
  }

  /** Where the line that starts at `p` ends. */
  function LineEnd(s: seq<char>, p: nat): (e: nat)
    requires p <= |s|
    ensures p <= e <= |s| && (e < |s| ==> Eol(s[e]))
    decreases |s| - p
  {
    if p == |s| || Eol(s[p]) then p else LineEnd(s, p + 1)
  }

  /** The place behind the terminator at `e`. */
  function AfterEol(s: seq<char>, e: nat): (q: nat)
    requires e <= |s|
    ensures e <= q <= |s|
  {
    if e == |s| then e
    else if s[e] == '\r' && e + 1 < |s| && s[e + 1] == '\n' then e + 2
    else e + 1
  }

  lemma {:induction false} LineMeans(s: seq<char>, p: nat)
    requires p < |s|
    ensures var e := LineEnd(s, p); var q := AfterEol(s, e);
            && (forall x :: p <= x < e ==> !Eol(s[x])) && p < q
            && (s[e..q] == "" || s[e..q] == "\n" || s[e..q] == "\r" || s[e..q] == "\r\n")
            && (s[e..q] == "" ==> e == |s|) && (s[e..q] == "\r" ==> q == |s| || s[q] != '\n')
    decreases |s| - p
  {
    if Eol(s[p]) {
      if AfterEol(s, p) == p + 1 {
        assert s[p..p + 1] == [s[p]];
      } else {
        assert s[p..p + 2] == [s[p], s[p + 1]];
      }
    } else if p + 1 < |s| {
      LineMeans(s, p + 1);
    } else {
      assert LineEnd(s, p) == |s| && s[|s|..|s|] == "";
    }
  }

  /** Of an array only `n` places from `offset` on were written, with the text from `p` on. */
  predicate Filled(now: seq<char>, before: seq<char>, offset: nat, n: int, data: seq<char>, p: int) {
    && |now| == |before| && (n > 0 ==> 0 <= p && p + n <= |data| && offset + n <= |now|)
    && (forall x :: offset <= x < offset + n ==> now[x] == data[p + (x - offset)])
    && (forall x :: 0 <= x < |now| && !(offset <= x < offset + n) ==> now[x] == before[x])
  }

  lemma NothingFilled(now: seq<char>, offset: nat, data: seq<char>, p: int)
    ensures Filled(now, now, offset, 0, data, p) && Filled(now, now, offset, -1, data, p)
  {
  }

  lemma FilledOn(before: seq<char>, now: seq<char>, next: seq<char>, offset: nat, n: nat, m: int, data: seq<char>, p: int)
    requires Filled(now, before, offset, n, data, p) && Filled(next, now, offset + n, m, data, p + n)
    ensures m > 0 ==> Filled(next, before, offset, n + m, data, p)
    ensures m <= 0 ==> Filled(next, before, offset, n, data, p) && (n == 0 ==> Filled(next, before, offset, -1, data, p))
  {
  }

  /** What a client can ask for. */
  datatype Use = OneChar | Portion(length: nat) | SkipOver(amount: nat) | OneLine

  /** One use, from place `p` of the text to place `q`: what it delivers, and that nothing is lost or doubled. */
  predicate Delivers(use: Use, s: seq<char>, p: int, q: int, got: Option<seq<char>>) {
    && 0 <= p <= q <= |s|
    && match use
       case OneChar => if p == |s| then q == p && got == None else q == p + 1 && got == Some(s[p..q])
       case Portion(length) =>
         && q <= p + length && (length > 0 && p < |s| ==> p < q)
         && got == if length > 0 && p == |s| then None else Some(s[p..q])
       case SkipOver(amount) => q == (if p + amount <= |s| then p + amount else |s|) && got == None
       case OneLine =>
         if p == |s| then q == p && got == None
         else q == AfterEol(s, LineEnd(s, p)) && got == Some(s[p..LineEnd(s, p)])
  }

  class BufferedReader {
    const input: Source
    var buf: array<char>
    var marklimit: int
    var count: nat
    var markpos: int
    var pos: nat

    /** Where in the underlying text the next character to be read is. */
    ghost function Position(): int
      reads this`count, this`pos, input`at
    {
      input.at - (count - pos)
    }

    /** Where in the underlying text the mark is. */
    ghost function MarkPosition(): int
      reads this`count, this`markpos, input`at
    {
      input.at - (count - markpos)
    }

    /** The first place of the buffer that still matters. */
    ghost function Low(): int
      reads this`markpos, this`pos
    {
      if markpos == -1 then pos else markpos
    }

    /** From there on the buffer holds what was read last. */
    ghost predicate Valid()
      reads this, buf, input
    {
      && input.Valid() && 0 < buf.Length && pos <= count <= buf.Length && count <= input.at
      && -1 <= markpos <= pos && (markpos != -1 ==> marklimit >= 0)
      && forall x :: Low() <= x < count ==> buf[x] == input.data[input.at - count + x]
    }

    /** The mark is kept while fewer characters than its limit have been consumed. */
    twostate predicate MarkKept()
      reads this, input
    {
      old(markpos) != -1 && Position() - old(MarkPosition()) < old(marklimit) ==>
        markpos != -1 && MarkPosition() == old(MarkPosition()) && marklimit == old(marklimit)
    }

    constructor (input: Source, size: nat)
      requires input.Valid() && size > 0
      ensures Valid() && this.input == input && Position() == old(input.at) && markpos == -1 && fresh(buf)
    {
      this.input := input;
      buf := new char[size];
      marklimit, count, markpos, pos := -1, 0, -1, 0;
    }

    /** The part of fillbuf that makes room behind what the mark covers, and moves that to the front. */
    method MakeRoom()
      requires Valid() && pos == count && markpos != -1 && pos - markpos < marklimit
      modifies `buf, `pos, `markpos, `count, buf
      ensures (buf == old(buf) || fresh(buf)) && markpos == 0 && count == 0 && pos == old(pos) - old(markpos) < buf.Length
      ensures forall x :: 0 <= x < pos ==> buf[x] == input.data[input.at - pos + x]
    {
      if markpos == 0 && marklimit > buf.Length {
        var newLength := buf.Length * 2;
        if newLength > marklimit {
          newLength := marklimit;
        }
        var newbuf := new char[newLength];
        forall x | 0 <= x < buf.Length {
          newbuf[x] := buf[x];
        }
        buf := newbuf;
      } else if markpos > 0 {
        forall x | 0 <= x < buf.Length - markpos {
          buf[x] := buf[markpos + x];
        }
      }
      pos := pos - markpos;
      markpos, count := 0, 0;
    }

    /** fillbuf: reads on behind an empty buffer, and keeps what the mark still covers. */
    method FillBuf() returns (result: int)
      requires Valid() && pos == count
      modifies this, buf, input`at
      ensures Valid() && (buf == old(buf) || fresh(buf))
      ensures Position() == old(Position()) && MarkKept()
      ensures if old(Position()) == |input.data| then result == -1 && pos == count else result > 0 && pos < count
    {
      if markpos == -1 || pos - markpos >= marklimit {
        result := input.Read(buf, 0, buf.Length);
        if result > 0 {
          markpos, pos, count := -1, 0, result;
        }
        return;
      }
      MakeRoom();
      var charsread := input.Read(buf, pos, buf.Length - pos);
      count := if charsread == -1 then pos else pos + charsread;
      return charsread;
    }

    /** mark, which refuses a negative limit */
    method Mark(readlimit: int) returns (ok: bool)
      requires Valid()
      modifies `marklimit, `markpos
      ensures Valid() && Position() == old(Position()) && ok == (readlimit >= 0)
      ensures ok ==> markpos != -1 && MarkPosition() == Position() && marklimit == readlimit
      ensures !ok ==> marklimit == old(marklimit) && markpos == old(markpos)
    {
      if readlimit < 0 {
        return false;
      }
      marklimit, markpos := readlimit, pos;
      return true;
    }

    /** reset, which fails without a mark: what was read since the mark is read again. */
    method Reset() returns (ok: bool)
      requires Valid()
      modifies `pos
      ensures Valid() && ok == (markpos != -1)
      ensures Position() == if ok then old(MarkPosition()) else old(Position())
      ensures MarkPosition() == old(MarkPosition())
    {
      if markpos == -1 {
        return false;
      }
      pos := markpos;
      return true;
    }

    /** ready */
    method Ready() returns (ready: bool)
      requires Valid()
      ensures pos < count ==> ready
    {
      if count - pos > 0 {
        return true;
      }
      ready := input.Ready();
    }

    /** read: the next character, and none at the end. */
    method ReadChar() returns (c: Option<char>)
      requires Valid()
      modifies this, buf, input`at
      ensures Valid() && (buf == old(buf) || fresh(buf)) && MarkKept()
      ensures var p := old(Position());
              if p == |input.data| then c == None && Position() == p else c == Some(input.data[p]) && Position() == p + 1
    {
      if pos < count {
        c := Some(buf[pos]);
        pos := pos + 1;
        return;
      }
      var result := FillBuf();
      if result != -1 {
        c := Some(buf[pos]);
        pos := pos + 1;
        return;
      }
      return None;
    }

    /** The mark of an earlier state is kept while fewer characters than its limit have been consumed. */
    ghost predicate Keeps(marked: bool, mark: int, limit: int)
      reads this, input
    {
      marked && Position() - mark < limit ==> markpos != -1 && MarkPosition() == mark && marklimit == limit
    }

    lemma InBuffer()
      requires Valid()
      ensures pos <= count <= input.at <= |input.data| && 0 <= Position() <= |input.data| && count <= buf.Length && 0 < buf.Length
    {
    }

    /** Moves on inside the buffer. */
    method Consume(n: int)
      requires Valid() && 0 <= n <= count - pos
      modifies `pos
      ensures Valid() && pos == old(pos) + n
    {
      pos := pos + n;
    }

    /** skip, which refuses a negative amount */
    method Skip(amount: int) returns (ok: bool, skipped: int)
      requires Valid()
      modifies this, buf, input`at
      ensures Valid() && (buf == old(buf) || fresh(buf)) && MarkKept() && ok == (amount >= 0)
      ensures !ok ==> Position() == old(Position())
      ensures ok ==> var rest := |input.data| - old(Position());
                     skipped == (if amount <= rest then amount else rest) && Position() == old(Position()) + skipped
    {
      if amount < 0 {
        return false, 0;
      }
      if amount < 1 {
        return true, 0;
      }
      hide Valid;
      InBuffer();
      if count - pos >= amount {
        Consume(amount);
        return true, amount;
      }
      ghost var p, marked, mark, limit := Position(), markpos != -1, MarkPosition(), marklimit;
      var read := count - pos;
      Consume(read);
      while read < amount
        invariant Valid() && (buf == old(buf) || fresh(buf)) && pos == count && 0 <= read <= amount
        invariant Position() == p + read && Keeps(marked, mark, limit)
        decreases amount - read
      {
        InBuffer();
        var result := FillBuf();
        if result == -1 {
          return true, read;
        }
        InBuffer();
        if count - pos >= amount - read {
          Consume(amount - read);
          return true, amount;
        }
        read := read + (count - pos);
        Consume(count - pos);
      }
      InBuffer();
      return true, amount;
    }

    /** Copies up to `required` characters that are there to the caller's array. */
    method CopyOut(buffer: array<char>, offset: nat, required: nat) returns (n: nat)
      requires Valid() && pos < count && buffer != buf && required > 0 && offset + required <= buffer.Length
      modifies `pos, buffer
      ensures Valid() && 0 < n <= required && pos == old(pos) + n && (n < required ==> pos == count)
      ensures Filled(buffer[..], old(buffer[..]), offset, n, input.data, old(Position()))
    {
      n := if count - pos >= required then required else count - pos;
      forall x | 0 <= x < n {
        buffer[offset + x] := buf[pos + x];
      }
      pos := pos + n;
    }

    /** One portion: from the underlying reader when there is no mark and the buffer would not hold it, or from the buffer. */
    method ReadPortion(buffer: array<char>, offset: nat, required: nat) returns (n: int)
      requires Valid() && pos == count && buffer != buf && required > 0 && offset + required <= buffer.Length
      modifies this, buf, input`at, buffer
      ensures Valid() && (buf == old(buf) || fresh(buf)) && buffer != buf && MarkKept()
      ensures if old(Position()) == |input.data| then n == -1 && Position() == old(Position()) && pos == count
              else 0 < n <= required && Position() == old(Position()) + n && (n < required ==> pos == count)
      ensures n == -1 ==> buffer[..] == old(buffer[..])
      ensures Filled(buffer[..], old(buffer[..]), offset, n, input.data, old(Position()))
    {
      if markpos == -1 && required >= buf.Length {
        n := input.Read(buffer, offset, required);
      } else {
        n := FillBuf();
        if n != -1 {
          n := CopyOut(buffer, offset, required);
        }
      }
    }

    /** read, into an array: as many characters as are at hand, and -1 at the end. */
    method Read(buffer: array<char>, offset: nat, length: nat) returns (n: int)
      requires Valid() && buffer != buf && offset + length <= buffer.Length
      modifies this, buf, input`at, buffer
      ensures Valid() && (buf == old(buf) || fresh(buf)) && MarkKept()
      ensures length == 0 ==> n == 0 && Position() == old(Position())
      ensures length > 0 && old(Position()) == |input.data| ==> n == -1 && Position() == old(Position())
      ensures length > 0 && old(Position()) < |input.data| ==> 0 < n <= length && Position() == old(Position()) + n
      ensures Filled(buffer[..], old(buffer[..]), offset, n, input.data, old(Position()))
    {
      hide Valid, Filled;
      NothingFilled(buffer[..], offset, input.data, Position());
      if length == 0 {
        return 0;
      }
      InBuffer();
      var copylength := 0;
      ghost var p, before := Position(), buffer[..];
      if pos < count {
        copylength := CopyOut(buffer, offset, length);
        if copylength == length {
          return copylength;
        }
        var ready := input.Ready();
        if !ready {
          return copylength;
        }
      }
      ghost var now := buffer[..];
      n := ReadOn(buffer, offset + copylength, length - copylength, length);
      FilledOn(before, now, buffer[..], offset, copylength, n - copylength, input.data, p);
    }

    /** The loop of read, for what is missing of `length` characters when the buffer is empty. */
    method ReadOn(buffer: array<char>, offset: nat, missing: nat, length: nat) returns (n: int)
      requires Valid() && pos == count && buffer != buf && 0 < missing <= length && offset + missing <= buffer.Length
      modifies this, buf, input`at, buffer
      ensures Valid() && (buf == old(buf) || fresh(buf)) && MarkKept()
      ensures old(Position()) == |input.data| ==>
                n == (if missing == length then -1 else length - missing) && Position() == old(Position()) && buffer[..] == old(buffer[..])
      ensures old(Position()) < |input.data| ==>
                length - missing < n <= length && Position() == old(Position()) + (n - (length - missing))
      ensures Filled(buffer[..], old(buffer[..]), offset, n - (length - missing), input.data, old(Position()))
    {
      hide Valid, Filled;
      ghost var p, marked, mark, limit, before := Position(), markpos != -1, MarkPosition(), marklimit, buffer[..];
      var at, required := offset, missing;
      NothingFilled(before, offset, input.data, p);
      while true
        invariant Valid() && (buf == old(buf) || fresh(buf)) && buffer != buf && pos == count && Keeps(marked, mark, limit)
        invariant offset <= at && 0 < required && at + required == offset + missing && Position() == p + (at - offset)
        invariant Filled(buffer[..], before, offset, at - offset, input.data, p) && (at == offset ==> buffer[..] == before)
        decreases required
      {
        ghost var now := buffer[..];
        InBuffer();
        var read := ReadPortion(buffer, at, required);
        FilledOn(before, now, buffer[..], offset, at - offset, read, input.data, p);
        if read == -1 {
          return if required == length then -1 else length - required;
        }
        required := required - read;
        at := at + read;
        if required == 0 {
          return length;
        }
        var ready := input.Ready();
        if !ready {
          return length - required;
        }
      }
    }

    /** What is at hand is the text from the position on. */
    lemma AtHand(k: nat)
      requires Valid() && pos <= k <= count
      ensures 0 <= Position() && Position() + (k - pos) <= |input.data|
      ensures buf[pos..k] == input.data[Position()..Position() + (k - pos)]
      ensures k < count ==> Position() + (k - pos) < |input.data| && buf[k] == input.data[Position() + (k - pos)]
    {
      var p := Position();
      assert forall x :: pos <= x < count ==> buf[x] == input.data[p + (x - pos)];
    }

    /** The first loop of readLine: the place of the first line end in the buffer, or the end of the buffer. */
    method FindEol() returns (charPos: nat)
      requires Valid()
      ensures pos <= charPos <= count && 0 <= Position() && Position() + (charPos - pos) <= |input.data|
      ensures LineEnd(input.data, Position()) == LineEnd(input.data, Position() + (charPos - pos))
      ensures charPos < count ==> Eol(buf[charPos])
    {
      AtHand(pos);
      charPos := pos;
      while charPos < count
        invariant pos <= charPos <= count && Position() + (charPos - pos) <= |input.data|
        invariant LineEnd(input.data, Position()) == LineEnd(input.data, Position() + (charPos - pos))
      {
        AtHand(charPos);
        if Eol(buf[charPos]) {
          return;
        }
        charPos := charPos + 1;
      }
    }

    /** Behind a carriage return a line feed is left out, which may be in the next portion. */
    method SkipLineFeed()
      requires Valid()
      modifies this, buf, input`at
      ensures Valid() && (buf == old(buf) || fresh(buf)) && MarkKept()
      ensures var p := old(Position());
              Position() == if 0 <= p < |input.data| && input.data[p] == '\n' then p + 1 else p
    {
      InBuffer();
      if pos == count {
        var result := FillBuf();
        if result == -1 {
          return;
        }
      }
      AtHand(pos);
      if buf[pos] == '\n' {
        Consume(1);
      }
    }

    /** Takes what is at hand of the line, and its line end when that is there. */
    method TakeToEol() returns (part: seq<char>, eol: Option<char>)
      requires Valid() && pos < count
      modifies `pos
      ensures Valid() && 0 <= old(Position()) < Position() <= |input.data|
      ensures var e := LineEnd(input.data, old(Position()));
              if eol.Some? then part == input.data[old(Position())..e] && Position() == e + 1 && eol.value == input.data[e]
              else pos == count && part == input.data[old(Position())..Position()] && LineEnd(input.data, Position()) == e
    {
      hide Valid, LineEnd;
      InBuffer();
      var charPos := FindEol();
      AtHand(charPos);
      part := buf[pos..charPos];
      if charPos < count {
        LineEndHere(input.data, Position() + (charPos - pos));
        eol := Some(buf[charPos]);
        Consume(charPos + 1 - pos);
      } else {
        eol := None;
        Consume(charPos - pos);
      }
    }

    /** Behind a line end of one character, `ch`, at `e`. */
    method FinishEol(ch: char, ghost e: nat)
      requires Valid() && Position() == e + 1 && e < |input.data| && ch == input.data[e] && Eol(ch)
      modifies this, buf, input`at
      ensures Valid() && (buf == old(buf) || fresh(buf)) && MarkKept() && Position() == AfterEol(input.data, e)
    {
      if ch == '\r' {
        SkipLineFeed();
      }
    }

    /** readLine: the next line without its line end, and none at the end. */
    method ReadLine() returns (line: Option<seq<char>>)
      requires Valid()
      modifies this, buf, input`at
      ensures Valid() && (buf == old(buf) || fresh(buf)) && MarkKept()
      ensures old(Position()) == |input.data| ==> line == None && Position() == old(Position())
      ensures 0 <= old(Position()) < |input.data| ==>
                var e := LineEnd(input.data, old(Position()));
                line == Some(input.data[old(Position())..e]) && Position() == AfterEol(input.data, e)
    {
      hide Valid, LineEnd, AfterEol;
      InBuffer();
      if pos >= count {
        var result := FillBuf();
        if result == -1 {
          return None;
        }
      }
      ghost var p := Position();
      ghost var e := LineEnd(input.data, p);
      var part, eol := TakeToEol();
      if eol.Some? {
        FinishEol(eol.value, e);
      } else {
        part := ReadLongLine(part, p);
      }
      line := Some(part);
    }

    /** The second loop of readLine, for a line that goes on behind the buffer. */
    method ReadLongLine(part: seq<char>, ghost p: nat) returns (line: seq<char>)
      requires Valid() && pos == count && p <= Position() <= |input.data| && part == input.data[p..Position()]
      requires LineEnd(input.data, p) == LineEnd(input.data, Position())
      modifies this, buf, input`at
      ensures Valid() && (buf == old(buf) || fresh(buf)) && MarkKept()
      ensures var e := LineEnd(input.data, p); line == input.data[p..e] && Position() == AfterEol(input.data, e)
    {
      hide Valid, LineEnd, AfterEol;
      ghost var marked, mark, limit, e := markpos != -1, MarkPosition(), marklimit, LineEnd(input.data, p);
      line := part;
      while true
        invariant Valid() && (buf == old(buf) || fresh(buf)) && pos == count && Keeps(marked, mark, limit)
        invariant old(Position()) <= Position() <= |input.data|
        invariant line == input.data[p..Position()] && LineEnd(input.data, Position()) == e
        decreases |input.data| - Position()
      {
        var result := FillBuf();
        if result == -1 {
          LineEndHere(input.data, |input.data|);
          NothingAfter(input.data);
          return;
        }
        ghost var q := Position();
        var more, eol := TakeToEol();
        line := line + more;
        if eol.Some? {
          assert input.data[p..q] + input.data[q..e] == input.data[p..e];
          FinishEol(eol.value, e);
          return;
        }
        assert input.data[p..q] + input.data[q..Position()] == input.data[p..Position()];
      }
    }

    // ---------- runs ----------

    method Serve(use: Use) returns (got: Option<seq<char>>)
      requires Valid()
      modifies this, buf, input`at
      ensures Valid() && (buf == old(buf) || fresh(buf)) && MarkKept()
      ensures Delivers(use, input.data, old(Position()), Position(), got)
    {
      InBuffer();
      ghost var p := Position();
      match use
      case OneChar =>
        var c := ReadChar();
        got := if c.None? then None else Some([c.value]);
        assert c.Some? ==> [c.value] == input.data[p..p + 1];
      case Portion(length) =>
        var buffer := new char[length];
        var n := Read(buffer, 0, length);
        InBuffer();
        assert n >= 0 ==> buffer[..n] == input.data[p..p + n];
        got := if n == -1 then None else Some(buffer[..n]);
      case SkipOver(amount) =>
        var _, _ := Skip(amount);
        got := None;
      case OneLine =>
        got := ReadLine();
    }

    /** Any run of uses: it goes through the text in order, and keeps a mark while its limit is not reached. */
    method Run(uses: seq<Use>) returns (got: seq<Option<seq<char>>>, ghost places: seq<int>)
      requires Valid()
      modifies this, buf, input`at
      ensures Valid() && (buf == old(buf) || fresh(buf)) && MarkKept()
      ensures |got| == |uses| && |places| == |uses| + 1 && places[0] == old(Position()) <= places[|uses|] == Position()
      ensures forall k :: 0 <= k < |uses| ==> Delivers(uses[k], input.data, places[k], places[k + 1], got[k])
    {
      ghost var marked, mark, limit := markpos != -1, MarkPosition(), marklimit;
      got, places := [], [Position()];
      var i := 0;
      while i < |uses|
        invariant i <= |uses| && |got| == i && |places| == i + 1 && places[0] == old(Position()) <= places[i] == Position()
        invariant Valid() && (buf == old(buf) || fresh(buf)) && Keeps(marked, mark, limit)
        invariant forall k :: 0 <= k < i ==> Delivers(uses[k], input.data, places[k], places[k + 1], got[k])
      {
        var one := Serve(uses[i]);
        got, places := got + [one], places + [Position()];
        i := i + 1;
      }
    }

    /** A mark, any run of uses, and a reset: with fewer characters than the limit consumed, the run can be repeated. */
    method MarkRunReset(readlimit: nat, uses: seq<Use>) returns (ok: bool, ghost reached: int)
      requires Valid()
      modifies this, buf, input`at
      ensures Valid() && (buf == old(buf) || fresh(buf)) && old(Position()) <= reached
      ensures reached - old(Position()) < readlimit ==> ok && Position() == old(Position())
    {
      var _ := Mark(readlimit);
      var _, _ := Run(uses);
      reached := Position();
      ok := Reset();
    }
  }

  lemma NothingAfter(s: seq<char>)
    ensures AfterEol(s, |s|) == |s|
  {
  }

  lemma LineEndHere(s: seq<char>, e: nat)
    requires e <= |s| && (e == |s| || Eol(s[e]))
    ensures LineEnd(s, e) == e
  {
  }
}
