/** The state file in memory, and the two functions that read and write its options in place. */
module StateBuffer {
  import opened Bytes
  import opened StateText

  // ---------- lines of a text, by place ----------

  /** The lines from place `i` on are those in `rest`. */
  predicate At(s: Text, i: nat, rest: seq<Text>) {
    i <= |s| && Lines(s[i..]) == rest
  }

  lemma {:induction false} EndsShift(s: Text, i: nat, j: nat)
    requires i <= j <= |s|
    ensures BodyEnd(s[i..], j - i) == BodyEnd(s, j) - i && EolEnd(s[i..], j - i) == EolEnd(s, j) - i
    ensures BlankEnd(s[i..], j - i) == BlankEnd(s, j) - i
    decreases |s| - j
  {
    if j < |s| {
      EndsShift(s, i, j + 1);
    }
  }

  lemma SliceOfSlice(s: Text, i: nat, n: nat, a: nat, b: nat)
    requires i <= n <= |s| && a <= b <= n - i
    ensures s[i..n][a..b] == s[i + a..i + b]
  {
    var line := s[i..n];
    assert |line[a..b]| == |s[i + a..i + b]|;
    assert forall k :: 0 <= k < b - a ==> line[a..b][k] == line[a + k] == s[i + a + k];
  }

  /** The test for an option line can be made in the text or on the line. */
  lemma ForShift(s: Text, i: nat, key: Text)
    requires i < |s| && IsKey(key)
    ensures IsFor(s, i, key) <==> LineFor(s[i..NextLine(s, i)], key)
  {
    var n := NextLine(s, i);
    var line := s[i..n];
    var p := i + 2 + |key|;
    EolEndAll(s, BodyEnd(s, i));
    if IsFor(s, i, key) {
      ForShiftEnd(s, i, key);
      SliceOfSlice(s, i, n, 2, 2 + |key|);
    }
    if LineFor(line, key) {
      SliceOfSlice(s, i, n, 2, 2 + |key|);
      EolEndLast(s, BodyEnd(s, i));
      if p == n && p < |s| {
        assert false;
      }
    }
  }

  lemma {:induction false} BodyHasNoEol(s: Text, i: nat)
    requires i <= |s|
    ensures forall x :: i <= x < BodyEnd(s, i) ==> !Eol(s[x])
    decreases |s| - i
  {
    if i < |s| && !Eol(s[i]) {
      BodyHasNoEol(s, i + 1);
    }
  }

  lemma {:induction false} EolEndAll(s: Text, i: nat)
    requires i <= |s|
    ensures forall x :: i <= x < EolEnd(s, i) ==> Eol(s[x])
    decreases |s| - i
  {
    if i < |s| && Eol(s[i]) {
      EolEndAll(s, i + 1);
    }
  }

  /** At a place where there is a line, the first one is up to the next line. */
  lemma AtNext(s: Text, i: nat, rest: seq<Text>)
    requires At(s, i, rest)
    ensures i < |s| <==> rest != []
    ensures i < |s| ==> rest[0] == s[i..NextLine(s, i)] && At(s, NextLine(s, i), rest[1..])
  {
    if i < |s| {
      EndsShift(s, i, i);
      EndsShift(s, i, BodyEnd(s, i));
      var n := NextLine(s, i);
      assert NextLine(s[i..], 0) == n - i;
      assert s[i..][..n - i] == s[i..n] && s[i..][n - i..] == s[n..];
    }
  }

  lemma {:induction false} JoinAppend(a: seq<Text>, b: seq<Text>)
    ensures Join(a + b) == Join(a) + Join(b)
    decreases |a|
  {
    if a == [] {
      assert a + b == b;
    } else {
      assert (a + b)[1..] == a[1..] + b;
      JoinAppend(a[1..], b);
    }
  }

  lemma {:induction false} ReplacedSplit(before: seq<Text>, line: Text, after: seq<Text>, key: Text, new': Text)
    requires !Has(before, key) && LineFor(line, key)
    ensures Has(before + [line] + after, key)
    ensures Replaced(before + [line] + after, key, new') == before + [new'] + Others(after, key)
    decreases |before|
  {
    var lines := before + [line] + after;
    assert lines[|before|] == line;
    if before == [] {
      assert lines[1..] == after;
    } else {
      assert lines[1..] == before[1..] + [line] + after && lines[0] == before[0];
      HasTail(before, key);
      ReplacedSplit(before[1..], line, after, key, new');
    }
  }

  /** The new line stands where the old one was. */
  lemma PutFound(before: seq<Text>, line: Text, after: seq<Text>, key: Text, new': Text)
    requires !Has(before, key) && LineFor(line, key)
    ensures Join(PutIn(before + [line] + after, key, new')) == Join(before) + new' + Join(Others(after, key))
  {
    hide Replaced, Others, LineFor;
    ReplacedSplit(before, line, after, key, new');
    JoinAround(before, new', Others(after, key));
  }

  /** The new line stands behind the first one. */
  lemma PutFirst(lines: seq<Text>, key: Text, new': Text)
    requires !Has(lines, key)
    ensures lines == [] ==> Join(PutIn(lines, key, new')) == new'
    ensures lines != [] ==> Join(PutIn(lines, key, new')) == lines[0] + new' + Join(Others(lines[1..], key))
  {
    hide Replaced, LineFor;
    if lines == [] {
      JoinOne(new');
    } else {
      HasTail(lines, key);
      OthersAll(lines[1..], key);
      JoinOne(lines[0]);
      JoinAround([lines[0]], new', lines[1..]);
      assert [lines[0]] + [new'] + lines[1..] == PutIn(lines, key, new');
    }
  }

  lemma JoinAround(before: seq<Text>, line: Text, rest: seq<Text>)
    ensures Join(before + [line] + rest) == Join(before) + line + Join(rest)
  {
    JoinAppend(before, [line] + rest);
    JoinCons(line, rest);
    assert before + ([line] + rest) == before + [line] + rest;
  }

  class StateBuffer {
    var buf: array<Byte>
    ghost var text: Text

    ghost predicate Valid()
      reads this, buf
    {
      |text| < buf.Length && NulFree(text) && buf[..|text|] == text && buf[|text|] == 0
    }

    constructor (content: Text)
      requires NulFree(content)
      ensures Valid() && text == content && fresh(buf)
    {
      var a := new Byte[|content| + 1](x => if 0 <= x < |content| then content[x] else 0);
      buf := a;
      text := content;
      new;
      assert buf[..|text|] == text;
    }

    /** line += strcspn(line, "\r\n"); line += strspn(line, "\r\n"); */
    method NextLineFrom(line: nat) returns (next: nat)
      requires Valid() && line <= |text|
      ensures next == NextLine(text, line)
    {
      next := line;
      while buf[next] != 0 && !Eol(buf[next])
        invariant line <= next <= |text| && BodyEnd(text, next) == BodyEnd(text, line)
        decreases |text| - next
      {
        assert buf[next] == text[next];
        next := next + 1;
      }
      assert next < |text| ==> buf[next] == text[next];
      while Eol(buf[next])
        invariant line <= next <= |text| && EolEnd(text, next) == NextLine(text, line)
        decreases |text| - next
      {
        assert buf[next] == text[next];
        next := next + 1;
      }
      assert next < |text| ==> buf[next] == text[next];
    }

    /** The comparison with the quote, the space, the key and the character behind it. */
    method Matches(line: nat, key: Text) returns (yes: bool)
      requires Valid() && line <= |text| && IsKey(key)
      ensures yes == IsFor(text, line, key)
    {
      assert forall x :: 0 <= x < |text| ==> buf[x] == text[x];
      if buf[line] != QUOTE || buf[line + 1] != SPACE {
        return false;
      }
      var k := 0;
      while k < |key| && buf[line + 2 + k] == key[k]
        invariant k <= |key| && line + 2 + k <= |text| && text[line + 2..line + 2 + k] == key[..k]
      {
        k := k + 1;
      }
      if k < |key| {
        assert line + 2 + |key| <= |text| ==> text[line + 2..line + 2 + |key|][k] != key[k];
        return false;
      }
      assert key[..k] == key;
      var p := line + 2 + |key|;
      return buf[p] == 0 || Blank(buf[p]) || Eol(buf[p]);
    }

    /** get_cfg_value */
    method GetCfgValue(key: Text) returns (value: Option<Text>)
      requires Valid() && IsKey(key)
      ensures value == Get(text, key)
      ensures value.Some? ==> IsValue(value.value)
    {
      var line := 0;
      ghost var rest := Lines(text);
      assert text[0..] == text;
      while buf[line] != 0
        invariant line <= |text| && At(text, line, rest) && Get(text, key) == GetFrom(rest, key)
        decreases |text| - line
      {
        AtNext(text, line, rest);
        ForShift(text, line, key);
        var found := Matches(line, key);
        if found {
          value := ReadValue(line, key);
          return;
        }
        line := NextLineFrom(line);
        rest := rest[1..];
      }
      AtNext(text, line, rest);
      value := None;
    }

    method ReadValue(line: nat, key: Text) returns (value: Option<Text>)
      requires Valid() && line < |text| && IsKey(key) && IsFor(text, line, key)
      requires LineFor(text[line..NextLine(text, line)], key)
      ensures value == Some(ValueOn(text[line..NextLine(text, line)], key)) && IsValue(value.value)
    {
      var start := line + 2 + |key|;
      var ptr := start;
      while Blank(buf[ptr])
        invariant start <= ptr <= |text| && BlankEnd(text, ptr) == BlankEnd(text, start)
        decreases |text| - ptr
      {
        assert buf[ptr] == text[ptr];
        ptr := ptr + 1;
      }
      assert ptr < |text| ==> buf[ptr] == text[ptr];
      var end := ptr;
      while buf[end] != 0 && !Eol(buf[end])
        invariant ptr <= end <= |text| && BodyEnd(text, end) == BodyEnd(text, ptr)
        decreases |text| - end
      {
        assert buf[end] == text[end];
        end := end + 1;
      }
      assert end < |text| ==> buf[end] == text[end];
      value := Some(buf[ptr..end]);
      assert forall x :: 0 <= x < end - ptr ==> value.value[x] == text[ptr + x];
      assert value.value == text[ptr..end];
      BodyHasNoEol(text, ptr);
      ValueInLine(text, line, key);
    }

    /** The branches that make room for `totalLen` bytes in place of what is from `start` to `stop`. */
    method MakeRoom(start: nat, stop: nat, totalLen: nat)
      requires Valid() && start <= stop <= |text|
      modifies `buf, buf
      ensures buf == old(buf) || fresh(buf)
      ensures var tail := start + totalLen; var end := tail + (|text| - stop);
              end < buf.Length && buf[end] == 0 && buf[..start] == text[..start] && buf[tail..end] == text[stop..]
    {
      var tailLen := TailLength(stop);
      if totalLen <= stop - start {
        Shrink(start, stop, totalLen, tailLen);
      } else {
        Grow(start, stop, totalLen, tailLen);
      }
    }

    /** The tail moves down, and the rest is cleared. */
    method Shrink(start: nat, stop: nat, totalLen: nat, tailLen: nat)
      requires Valid() && start + totalLen <= stop <= |text| && tailLen == |text| - stop
      modifies buf
      ensures var tail := start + totalLen; var end := tail + tailLen;
              buf[end] == 0 && buf[..start] == text[..start] && buf[tail..end] == text[stop..]
    {
      assert forall x {:trigger buf[x]} :: 0 <= x < |text| ==> buf[x] == text[x];
      forall x | 0 <= x <= tailLen {
        buf[start + totalLen + x] := buf[stop + x];
      }
      ghost var moved := buf[..];
      assert forall x {:trigger text[x]} :: stop <= x < |text| ==> moved[start + totalLen + (x - stop)] == text[x];
      forall x | start + totalLen + tailLen <= x < stop + tailLen + 1 {
        buf[x] := 0;
      }
    }

    /** A longer buffer, with what is in front and behind. */
    method Grow(start: nat, stop: nat, totalLen: nat, tailLen: nat)
      requires Valid() && start <= stop <= |text| && tailLen == |text| - stop
      modifies `buf
      ensures fresh(buf)
      ensures var tail := start + totalLen; var end := tail + tailLen;
              end < buf.Length && buf[end] == 0 && buf[..start] == text[..start] && buf[tail..end] == text[stop..]
    {
      assert forall x {:trigger buf[x]} :: 0 <= x < |text| ==> buf[x] == text[x];
      var resized := new Byte[start + tailLen + totalLen + 1];
      forall x | 0 <= x < start {
        resized[x] := buf[x];
      }
      forall x | 0 <= x <= tailLen {
        resized[start + totalLen + x] := buf[stop + x];
      }
      assert forall x {:trigger text[x]} :: stop <= x < |text| ==> resized[start + totalLen + (x - stop)] == text[x];
      buf := resized;
    }

    /** memcpy of the line. */
    method Fill(start: nat, line: Text)
      requires start + |line| <= buf.Length
      modifies buf
      ensures forall x {:trigger line[x]} :: 0 <= x < |line| ==> buf[start + x] == line[x]
      ensures forall x {:trigger buf[x]} :: 0 <= x < buf.Length && !(start <= x < start + |line|) ==> buf[x] == old(buf[x])
    {
      forall x | 0 <= x < |line| {
        buf[start + x] := line[x];
      }
    }

    /** A line in place of what is from `start` to `stop`. */
    method Splice(start: nat, stop: nat, line: Text)
      requires Valid() && start <= stop <= |text| && NulFree(line)
      modifies this, buf
      ensures Valid() && text == old(text[..start]) + line + old(text[stop..])
      ensures buf == old(buf) || fresh(buf)
    {
      ghost var head, tail := text[..start], text[stop..];
      NulFreeJoined(head, line, tail);
      MakeRoom(start, stop, |line|);
      ghost var made := buf[..];
      Fill(start, line);
      SplicedIs(made, buf[..], start, line, head, tail);
      text := head + line + tail;
    }

    /** strlen of the rest. */
    method TailLength(from: nat) returns (length: nat)
      requires Valid() && from <= |text|
      ensures length == |text| - from
    {
      length := 0;
      while buf[from + length] != 0
        invariant from + length <= |text|
        decreases |text| - length
      {
        assert buf[from + length] == text[from + length];
        length := length + 1;
      }
    }

    /** The memmove and memset that take a line out. */
    method Remove(start: nat, stop: nat)
      requires Valid() && start <= stop <= |text|
      modifies buf, `text
      ensures Valid() && text == old(text[..start]) + old(text[stop..])
    {
      var tailLen := TailLength(stop);
      ghost var head, tail := text[..start], text[stop..];
      NulFreeJoined(head, [], tail);
      MoveDown(start, stop, tailLen);
      text := head + tail;
      assert buf[..start + tailLen] == buf[..start] + buf[start..start + tailLen];
      assert head + [] + tail == text;
    }

    method MoveDown(start: nat, stop: nat, tailLen: nat)
      requires Valid() && start <= stop <= |text| && tailLen == |text| - stop
      modifies buf
      ensures buf[start + tailLen] == 0 && buf[..start] == text[..start] && buf[start..start + tailLen] == text[stop..]
    {
      assert forall x {:trigger buf[x]} :: 0 <= x < |text| ==> buf[x] == text[x];
      forall x | 0 <= x <= tailLen {
        buf[start + x] := buf[stop + x];
      }
      ghost var moved := buf[..];
      assert forall x {:trigger text[x]} :: stop <= x < |text| ==> moved[start + (x - stop)] == text[x];
      forall x | start + tailLen <= x < stop + tailLen {
        buf[x] := 0;
      }
    }

    /** The loop that looks for an existing line. */
    method FindLine(key: Text) returns (found: bool, start: nat, stop: nat, ghost before: seq<Text>, ghost line: Text, ghost after: seq<Text>)
      requires Valid() && IsKey(key)
      ensures found == Has(Lines(text), key)
      ensures found ==>
                && start <= stop <= |text| && Lines(text) == before + [line] + after && !Has(before, key)
                && LineFor(line, key) && Join(before) == text[..start] && At(text, stop, after)
    {
      hide Lines, LineFor, IsFor, NextLine, Join;
      found, start, stop, before, line, after := false, 0, 0, [], [], Lines(text);
      JoinNone();
      assert text[0..] == text;
      while buf[start] != 0
        invariant start <= |text| && At(text, start, after) && Lines(text) == before + after
        invariant Join(before) == text[..start] && !Has(before, key)
        decreases |text| - start
      {
        LineStep(text, start, before, after, key);
        line := after[0];
        found := Matches(start, key);
        stop := NextLineFrom(start);
        after := after[1..];
        if found {
          return;
        }
        before := before + [line];
        start := stop;
      }
      AtNext(text, start, after);
      assert Lines(text) == before;
    }

    /** The loop that deletes the other lines for the key, from place `from` on. */
    method DeleteOthers(from: nat, key: Text, ghost rest0: seq<Text>)
      requires Valid() && IsKey(key) && At(text, from, rest0)
      modifies buf, `text
      ensures Valid() && text == old(text[..from]) + Join(Others(rest0, key))
    {
      hide Lines, LineFor, IsFor, NextLine, Join;
      var line: nat := from;
      JoinNone();
      ghost var rest, target := rest0, text[..from] + Join(Others(rest0, key));
      while buf[line] != 0
        invariant Valid() && line <= |text| && At(text, line, rest)
        invariant text[..line] + Join(Others(rest, key)) == target
        decreases |text| - line
      {
        AtNext(text, line, rest);
        ForShift(text, line, key);
        var found := Matches(line, key);
        var stop := NextLineFrom(line);
        if found {
          ghost var was := text;
          Remove(line, stop);
          assert text[..line] == was[..line] && text[line..] == was[stop..];
        } else {
          assert text[..stop] == text[..line] + rest[0];
          JoinCons(rest[0], Others(rest[1..], key));
          line := stop;
        }
        rest := rest[1..];
      }
      AtNext(text, line, rest);
    }

    /** set_cfg_value, which does not fail when there is memory. */
    method SetCfgValue(key: Text, value: Text)
      requires Valid() && IsKey(key) && IsValue(value)
      modifies this, buf
      ensures Valid() && text == Set(old(text), key, value)
      ensures buf == old(buf) || fresh(buf)
    {
      hide IsKey, IsValue, Lines, PutIn, LineFor;
      ghost var lines := Lines(text);
      var line := OptionLine(key, value);
      OptionLineIsLine(key, value);
      var found, start, stop, before, present, after := FindLine(key);
      if found {
        PutFound(before, present, after, key, line);
      } else {
        PutFirst(lines, key, line);
        start, after := FirstLineEnd(lines);
        stop := start;
      }
      ghost var head, tail := text[..start], text[stop..];
      assert Join(PutIn(lines, key, line)) == head + line + Join(Others(after, key));
      Splice(start, stop, line);
      assert text[start + |line|..] == tail && text[..start + |line|] == head + line;
      DeleteOthers(start + |line|, key, after);
    }

    /** The place behind the first line. */
    method FirstLineEnd(ghost lines: seq<Text>) returns (start: nat, ghost after: seq<Text>)
      requires Valid() && lines == Lines(text)
      ensures start <= |text| && At(text, start, after)
      ensures lines == [] ==> start == 0 && after == []
      ensures lines != [] ==> text[..start] == lines[0] && after == lines[1..]
    {
      start := NextLineFrom(0);
      assert text[0..] == text;
      AtNext(text, 0, lines);
      after := if lines == [] then [] else lines[1..];
      assert lines == [] ==> text == [];
    }
  }

  lemma NulFreeJoined(a: Text, b: Text, c: Text)
    requires NulFree(a) && NulFree(b) && NulFree(c)
    ensures NulFree(a + b + c)
  {
  }

  /** What a buffer holds after a line was copied between two texts. */
  lemma SplicedIs(made: Text, b: Text, start: nat, line: Text, head: Text, tail: Text)
    requires var from := start + |line|; var end := from + |tail|;
             |made| == |b| && end < |b| && start == |head| && made[..start] == head && made[from..end] == tail
    requires forall x {:trigger line[x]} :: 0 <= x < |line| ==> b[start + x] == line[x]
    requires forall x {:trigger b[x]} :: 0 <= x < |b| && !(start <= x < start + |line|) ==> b[x] == made[x]
    ensures b[..start + |line| + |tail|] == head + line + tail
  {
    var text := head + line + tail;
    forall x | 0 <= x < |text|
      ensures b[x] == text[x]
    {
      if x < start {
        assert made[..start][x] == head[x];
      } else if x < start + |line| {
        assert b[start + (x - start)] == line[x - start];
      } else {
        assert made[start + |line|..start + |line| + |tail|][x - start - |line|] == tail[x - start - |line|];
      }
    }
  }

  /** One line further in a text whose lines are known. */
  lemma LineStep(s: Text, i: nat, before: seq<Text>, after: seq<Text>, key: Text)
    requires i < |s| && IsKey(key) && At(s, i, after) && Lines(s) == before + after
    requires Join(before) == s[..i] && !Has(before, key)
    ensures after != [] && (IsFor(s, i, key) <==> LineFor(after[0], key))
    ensures var next := NextLine(s, i); At(s, next, after[1..]) && Join(before + [after[0]]) == s[..next]
    ensures Lines(s) == before + [after[0]] + after[1..]
    ensures if LineFor(after[0], key) then Has(Lines(s), key) else !Has(before + [after[0]], key)
  {
    hide Lines, LineFor, IsFor, NextLine, Join;
    AtNext(s, i, after);
    ForShift(s, i, key);
    var line, next := after[0], NextLine(s, i);
    assert after == [line] + after[1..];
    assert Lines(s)[|before|] == line;
    JoinAppend(before, [line]);
    JoinOne(line);
    assert s[..i] + s[i..next] == s[..next];
    if !LineFor(line, key) {
      HasAppend(before, line, key);
    }
  }

  lemma HasAppend(lines: seq<Text>, line: Text, key: Text)
    requires !Has(lines, key) && !LineFor(line, key)
    ensures !Has(lines + [line], key)
  {
  }

  lemma JoinNone()
    ensures Join([]) == []
  {
  }

  lemma JoinOne(line: Text)
    ensures Join([line]) == line
  {
    assert Join([line]) == line + Join([line][1..]);
  }

  lemma JoinCons(line: Text, rest: seq<Text>)
    ensures Join([line] + rest) == line + Join(rest)
  {
    assert ([line] + rest)[1..] == rest;
  }

  /** The value can be read in the text as well as on the line. */
  lemma ValueInLine(s: Text, i: nat, key: Text)
    requires i < |s| && IsKey(key) && IsFor(s, i, key) && LineFor(s[i..NextLine(s, i)], key)
    ensures var p := BlankEnd(s, i + 2 + |key|); ValueOn(s[i..NextLine(s, i)], key) == s[p..BodyEnd(s, p)]
  {
    hide BlankEnd, BodyEnd, EolEnd, IsFor, LineFor, IsKey, ValueOn;
    SliceBehind(s, i, i, NextLine(s, i));
    ForShiftEnd(s, i, key);
    var n, q := NextLine(s, i), i + 2 + |key|;
    var p := BlankEnd(s, q);
    BlanksInBody(s, q, BodyEnd(s, i));
    BodyFrom(s, i, p);
    Shifted(s, i, q);
    var t := s[i..];
    assert t[0..n - i] == t[..n - i];
    ValueOnPrefix(t, n - i, key);
  }

  lemma Shifted(s: Text, i: nat, q: nat)
    requires i <= q <= |s|
    ensures var t := s[i..]; var p := BlankEnd(s, q);
            && BlankEnd(t, q - i) == p - i && BodyEnd(t, p - i) == BodyEnd(s, p) - i && t[p - i..BodyEnd(t, p - i)] == s[p..BodyEnd(s, p)]
  {
    hide BlankEnd, BodyEnd;
    EndsShift(s, i, q);
    EndsShift(s, i, BlankEnd(s, q));
    SliceBehind(s, i, BlankEnd(s, q), BodyEnd(s, BlankEnd(s, q)));
  }

  lemma SliceBehind(s: Text, i: nat, p: nat, e: nat)
    requires i <= p <= e <= |s|
    ensures s[i..][p - i..e - i] == s[p..e]
  {
  }

  lemma ValueOnPrefix(t: Text, n: nat, key: Text)
    requires n <= |t| && LineFor(t[..n], key)
    requires var p := BlankEnd(t, 2 + |key|); p <= n && BodyEnd(t, p) <= n
    ensures var p := BlankEnd(t, 2 + |key|); ValueOn(t[..n], key) == t[p..BodyEnd(t, p)]
  {
    InPrefix(t, 2 + |key|, n);
  }

  lemma InPrefix(s: Text, q: nat, n: nat)
    requires q <= n <= |s| && BlankEnd(s, q) <= n && BodyEnd(s, BlankEnd(s, q)) <= n
    ensures BlankEnd(s[..n], q) == BlankEnd(s, q) && BodyEnd(s[..n], BlankEnd(s, q)) == BodyEnd(s, BlankEnd(s, q))
  {
    BlankPrefix(s, q, n);
    EndsInPrefix(s, BlankEnd(s, q), n);
  }

  lemma ForShiftEnd(s: Text, i: nat, key: Text)
    requires i < |s| && IsKey(key) && IsFor(s, i, key)
    ensures i + 2 + |key| <= BodyEnd(s, i)
  {
    if BodyEnd(s, i) < i + 2 + |key| {
      assert false;
    }
  }

  lemma {:induction false} BlanksInBody(s: Text, i: nat, e: nat)
    requires i <= e <= |s| && (e < |s| ==> Eol(s[e]))
    ensures BlankEnd(s, i) <= e
    decreases e - i
  {
    if i < e {
      BlanksInBody(s, i + 1, e);
    }
  }

  lemma {:induction false} BlankPrefix(s: Text, i: nat, n: nat)
    requires i <= n <= |s| && BlankEnd(s, i) <= n
    ensures BlankEnd(s[..n], i) == BlankEnd(s, i)
    decreases n - i
  {
    if i < n && Blank(s[i]) {
      BlankPrefix(s, i + 1, n);
    }
  }

  lemma {:induction false} BodyFrom(s: Text, i: nat, p: nat)
    requires i <= |s| && i <= p <= BodyEnd(s, i)
    ensures BodyEnd(s, p) == BodyEnd(s, i)
    decreases p - i
  {
    if i < p {
      BodyFrom(s, i + 1, p);
    }
  }
}
