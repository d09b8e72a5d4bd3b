/** The parser: a buffer with an offset and a nesting depth that the reading methods move. */
module JsonParse {
  import opened Bytes
  import opened JsonSpec
  import JsonString

  // ---------- the list that the item loop builds ----------

  /** The items in `done`, linked in their order in front of `tail`. */
  function Chain(done: seq<(seq<Byte>, Json)>, tail: Items): Items {
    if done == [] then tail else Item(done[0].0, done[0].1, Chain(done[1..], tail))
  }

  lemma {:induction false} ChainAppend(done: seq<(seq<Byte>, Json)>, x: (seq<Byte>, Json), tail: Items)
    ensures Chain(done + [x], tail) == Chain(done, Item(x.0, x.1, tail))
    decreases |done|
  {
    if done != [] {
      assert (done + [x])[1..] == done[1..] + [x];
      ChainAppend(done[1..], x, tail);
    }
  }

  /** What parsing the items comes to when those in `done` are read and `rest` is what the others give. */
  function Attach(done: seq<(seq<Byte>, Json)>, rest: Parsed<Items>): Parsed<Items> {
    if rest.Fail? then Fail else Ok(Chain(done, rest.value), rest.next)
  }

  /** One turn of the item loop. */
  lemma ItemsTurn(b: seq<Byte>, i: nat, depth: nat, keyed: bool, done: seq<(seq<Byte>, Json)>)
    requires CString(b) && i < |b|
    ensures var item := ParseItem(b, Skip(b, i), depth, keyed);
            Attach(done, ParseItems(b, i, depth, keyed)) ==
            if item.Fail? then Fail else
            var j := Skip(b, item.next);
            if b[j] != COMMA then Ok(Chain(done + [item.value], End), j)
            else Attach(done + [item.value], ParseItems(b, j + 1, depth, keyed))
  {
    hide ParseItem, Skip, Chain;
    var item := ParseItem(b, Skip(b, i), depth, keyed);
    if item.Ok? {
      var j := Skip(b, item.next);
      ChainAppend(done, item.value, End);
      if b[j] == COMMA {
        var rest := ParseItems(b, j + 1, depth, keyed);
        if rest.Ok? {
          ChainAppend(done, item.value, rest.value);
        }
      }
    }
  }

  lemma RunNext(b: seq<Byte>, i: nat, room: nat)
    requires CString(b) && i < |b| && room > 0 && NumberChar(b[i])
    ensures i + 1 < |b| && NumberRun(b, i, room) == 1 + NumberRun(b, i + 1, room - 1)
  {
  }

  lemma RunEnd(b: seq<Byte>, i: nat, room: nat)
    requires CString(b) && i < |b| && (room == 0 || !NumberChar(b[i]))
    ensures NumberRun(b, i, room) == 0
  {
  }

  lemma NumberIs(b: seq<Byte>, i: nat, number: seq<Byte>)
    requires CString(b) && i < |b| && number == b[i..i + NumberRun(b, i, NUMBER_ROOM)]
    ensures var n := Strtod(number); ParseNumber(b, i) == if n == 0 then Fail else Ok(Number(number[..n]), i + n)
  {
    hide Strtod;
  }

  class ParseBuffer {
    const content: seq<Byte>
    var offset: nat
    var depth: nat

    constructor (s: seq<Byte>)
      requires NulFree(s)
      ensures content == s + [0] && offset == 0 && depth == 0
    {
      content := s + [0];
      offset := 0;
      depth := 0;
    }

    ghost predicate Valid()
      reads this
    {
      CString(content) && offset < |content|
    }

    /** buffer_skip_whitespace */
    method SkipWhitespace()
      requires CString(content) && offset < |content|
      modifies `offset
      ensures Valid() && offset == Skip(content, old(offset))
    {
      ghost var target := Skip(content, offset);
      while offset < |content| && content[offset] <= 32
        invariant offset < |content| ==> Skip(content, offset) == target
        invariant offset == |content| ==> target == |content| - 1
        invariant offset <= |content|
      {
        offset := offset + 1;
      }
      if offset == |content| {
        offset := offset - 1;
      }
    }

    /** parse_number: copies the run of number characters that fits the buffer, and converts it. */
    method ReadNumber() returns (ok: bool, item: Json)
      requires Valid()
      modifies `offset
      ensures ok == ParseNumber(content, old(offset)).Ok?
      ensures ok ==> ParseNumber(content, old(offset)) == Ok(item, offset)
      ensures !ok ==> offset == old(offset)
    {
      hide Strtod, ParseNumber, NumberRun;
      var number, i := [], 0;
      while i < NUMBER_ROOM && offset + i < |content| && NumberChar(content[offset + i])
        invariant offset == old(offset)
        invariant i <= NUMBER_ROOM && offset + i < |content| && number == content[offset..offset + i]
        invariant NumberRun(content, offset, NUMBER_ROOM) == i + NumberRun(content, offset + i, NUMBER_ROOM - i)
        decreases NUMBER_ROOM - i
      {
        RunNext(content, offset + i, NUMBER_ROOM - i);
        number := number + [content[offset + i]];
        i := i + 1;
      }
      RunEnd(content, offset + i, NUMBER_ROOM - i);
      var length := Strtod(number);
      NumberIs(content, offset, number);
      item := Null;
      ok := length != 0;
      if ok {
        item := Number(number[..length]);
        offset := offset + length;
      }
    }

    /** parse_string, whose output is an array of the size that the first pass finds. */
    method ReadString() returns (ok: bool, text: seq<Byte>)
      requires Valid()
      modifies `offset
      ensures ok == ParseString(content, old(offset)).Ok?
      ensures ok ==> ParseString(content, old(offset)) == Ok(text, offset)
      ensures !ok ==> offset <= |content|
    {
      text := [];
      var start := offset + 1;
      if content[offset] != QUOTE {
        offset := start;
        return false, text;
      }
      var found, end, skipped := JsonString.MeasureString(content, start);
      if !found {
        offset := start;
        return false, text;
      }
      var allocationLength := end - offset - skipped;
      var output := new Byte[allocationLength + 1];
      var p, w;
      ok, p, w := JsonString.UnescapeInto(content, start, end, output);
      if !ok {
        offset := p;
        return;
      }
      output[w] := 0;
      text := output[..w];
      offset := end;
      offset := offset + 1;
    }

    /** parse_value */
    method ReadValue() returns (ok: bool, item: Json)
      requires Valid()
      modifies this
      ensures ok == ParseValue(content, old(offset), old(depth)).Ok?
      ensures ok ==> ParseValue(content, old(offset), old(depth)) == Ok(item, offset) && depth == old(depth)
      ensures !ok ==> offset <= |content|
      decreases |content| - offset, 1
    {
      ok, item := true, Null;
      if IsNull(content, offset) {
        offset := offset + 4;
      } else if IsFalse(content, offset) {
        item, offset := False, offset + 5;
      } else if IsTrue(content, offset) {
        item, offset := True, offset + 4;
      } else if content[offset] == QUOTE {
        var text;
        ok, text := ReadString();
        item := String(text);
      } else if content[offset] == MINUS || Digit(content[offset]) {
        ok, item := ReadNumber();
      } else if content[offset] == OPEN_BRACKET {
        ok, item := ReadContainer(false);
      } else if content[offset] == OPEN_BRACE {
        ok, item := ReadContainer(true);
      } else {
        ok := false;
      }
    }

    /** parse_array, and parse_object when the items are `keyed`. */
    method ReadContainer(keyed: bool) returns (ok: bool, item: Json)
      requires Valid() && content[offset] == if keyed then OPEN_BRACE else OPEN_BRACKET
      modifies this
      ensures ok == ParseContainer(content, old(offset), old(depth)).Ok?
      ensures ok ==> ParseContainer(content, old(offset), old(depth)) == Ok(item, offset) && depth == old(depth)
      ensures !ok ==> offset <= |content|
      decreases |content| - offset, 0
    {
      ok, item := false, Null;
      if depth >= NESTING_LIMIT {
        return;
      }
      depth := depth + 1;
      var close := if keyed then CLOSE_BRACE else CLOSE_BRACKET;
      var head := End;
      offset := offset + 1;
      SkipWhitespace();
      if content[offset] != close {
        offset := offset - 1;
        ok, head := ReadItems(keyed);
        if !ok || content[offset] != close {
          ok := false;
          return;
        }
      }
      depth := depth - 1;
      ok, item := true, if keyed then Object(head) else Array(head);
      offset := offset + 1;
    }

    /** The item loop; the offset is before the separator or bracket that each item follows. */
    method ReadItems(keyed: bool) returns (ok: bool, head: Items)
      requires CString(content) && offset + 1 < |content|
      modifies this
      ensures ok == ParseItems(content, old(offset) + 1, old(depth), keyed).Ok?
      ensures ok ==> ParseItems(content, old(offset) + 1, old(depth), keyed) == Ok(head, offset) && depth == old(depth)
      ensures !ok ==> offset <= |content|
      decreases |content| - offset - 1, 3
    {
      hide ParseItems, ParseItem, Skip;
      ghost var whole := ParseItems(content, offset + 1, depth, keyed);
      var list: seq<(seq<Byte>, Json)>, more := [], true;
      head := End;
      while more
        invariant old(offset) <= offset < |content| && depth == old(depth)
        invariant more ==> offset + 1 < |content| && whole == Attach(list, ParseItems(content, offset + 1, depth, keyed))
        invariant !more ==> whole == Ok(Chain(list, End), offset)
        decreases more, |content| - offset
      {
        ItemsTurn(content, offset + 1, depth, keyed, list);
        offset := offset + 1;
        SkipWhitespace();
        var key, value;
        ok, key, value := ReadItem(keyed);
        if !ok {
          return;
        }
        list := list + [(key, value)];
        SkipWhitespace();
        more := content[offset] == COMMA;
      }
      ok, head := true, Chain(list, End);
    }

    /** One item: its name and the colon, when it is in an object, and its value. */
    method ReadItem(keyed: bool) returns (ok: bool, key: seq<Byte>, value: Json)
      requires Valid()
      modifies this
      ensures ok == ParseItem(content, old(offset), old(depth), keyed).Ok?
      ensures ok ==> ParseItem(content, old(offset), old(depth), keyed) == Ok((key, value), offset) && depth == old(depth)
      ensures !ok ==> offset <= |content|
      decreases |content| - offset, 2
    {
      hide ParseValue, Skip;
      key, value := [], Null;
      if keyed {
        ok, key := ReadString();
        if !ok {
          return;
        }
        SkipWhitespace();
        if content[offset] != COLON {
          ok := false;
          return;
        }
        offset := offset + 1;
        SkipWhitespace();
      }
      ok, value := ReadValue();
    }
  }

  /**
   cJSON_ParseWithOpts: the tree and the place behind it, which is the end of the text when the whole text is
   asked for, or nothing and the place of the error inside the text.
   */
  method ParseWithOpts(s: seq<Byte>, requireTerminator: bool) returns (item: Option<Json>, position: nat)
    requires NulFree(s)
    ensures item == ParseText(s, requireTerminator)
    ensures position <= |s|
    ensures item.Some? ==> position == if requireTerminator then |s| else ParseValue(s + [0], Skip(s + [0], 0), 0).next
  {
    var buffer := new ParseBuffer(s);
    buffer.SkipWhitespace();
    var ok, value := buffer.ReadValue();
    if ok && requireTerminator {
      buffer.SkipWhitespace();
      ok := buffer.offset < |buffer.content| && buffer.content[buffer.offset] == 0;
    }
    if ok {
      return Some(value), buffer.offset;
    }
    position := if buffer.offset < |buffer.content| then buffer.offset else |buffer.content| - 1;
    return None, position;
  }
}
