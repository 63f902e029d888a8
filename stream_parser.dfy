/** JsonStreamParser: reads JSON values from a byte stream through a buffer
    that is refilled when exhausted, with one byte of pushback.

    The stream is the sequence `stream` of all the bytes it will deliver; a
    read hands out the next chunk, of any length from 1 up to the space in the
    buffer, and 0 only once the stream is exhausted. `BytesRead` is therefore
    the stream's position. Every reading method is proved against the
    function of JsonGrammar that describes it, whatever the chunk lengths: its
    result (value or failure) and, on success, the new `BytesProcessed` are
    the function's. */
module StreamParser {
  import opened JsonValues
  import opened NetText
  import opened JsonGrammar

  class JsonStreamParser {
    /** Every byte the underlying stream will deliver, in order. */
    const stream: seq<byte>
    /** The number of bytes each stream read asks for. */
    const bufferSize: nat
    /** The bytes the parser can obtain: with a buffer size of 0 every read
        asks for 0 bytes and gets 0, so the parser sees no byte at all. */
    ghost const Input: seq<byte>

    var buffer: array<byte>
    var cursor: nat
    var contentLength: nat
    /** Bytes read from the stream so far (not necessarily processed). */
    var bytesRead: nat
    /** Bytes handed out to the parsing routines, less those pushed back. */
    var bytesProcessed: nat
    /** The byte the last operation read, if that operation was a successful
        read: exactly the byte that may be pushed back. */
    ghost var lastRead: Option<byte>

    /** Bytes in the buffer not yet handed out. After a read that met the end
        of the stream the cursor may lie beyond the (now zero) content length;
        nothing is pending then. */
    ghost function Pending(): nat
      reads this
    {
      if cursor <= contentLength then contentLength - cursor else 0
    }

    ghost predicate Valid()
      reads this, buffer
    {
      && Input == (if bufferSize == 0 then [] else stream)
      && bufferSize <= buffer.Length <= bufferSize + 1
      && contentLength <= buffer.Length
      && bytesRead <= |Input|
      && bytesProcessed + Pending() == bytesRead
      && contentLength <= bytesRead
      && (forall i :: 0 <= i < contentLength ==> buffer[i] == Input[bytesRead - contentLength + i])
      && (cursor > contentLength ==> contentLength == 0 && bytesRead == |Input|)
      && (lastRead.Some? ==> 0 < cursor <= contentLength && buffer[cursor - 1] == lastRead.value)
    }

    /** `r` is what `spec` describes: the same failure, or the same value with
        `bytesProcessed` at the position `spec` ends at. */
    ghost predicate Agrees<T>(r: Result<T>, spec: Result<Parsed<T>>)
      reads this
    {
      match spec
      case Ok(pr) => r == Ok(pr.value) && bytesProcessed == pr.next
      case Err(e) => r == Err(e)
    }

    /** The buffer has one byte more than `bufferSize`, for pushback. The
        size is a natural number: a negative size makes the library fail, in
        the constructor or at the first refill, and is not modelled. */
    constructor (stream: seq<byte>, bufferSize: nat)
      ensures Valid() && fresh(buffer)
      ensures this.stream == stream && this.bufferSize == bufferSize
      ensures buffer.Length == bufferSize + 1
      ensures bytesRead == 0 && bytesProcessed == 0 && lastRead == None
    {
      this.stream := stream;
      this.bufferSize := bufferSize;
      Input := if bufferSize == 0 then [] else stream;
      buffer := new byte[bufferSize + 1];
      cursor, contentLength := 0, 0;
      bytesRead, bytesProcessed := 0, 0;
      lastRead := None;
    }

    /** The stream's read into the whole buffer: it copies the next chunk of
        the stream into the buffer and returns its length, 0 only at the end. */
    method ReadStream() returns (n: nat)
      requires Input == (if bufferSize == 0 then [] else stream)
      requires buffer.Length == bufferSize && bytesRead <= |Input|
      modifies buffer
      ensures n <= buffer.Length && bytesRead + n <= |Input|
      ensures n == 0 <==> bytesRead == |Input|
      ensures forall i :: 0 <= i < n ==> buffer[i] == Input[bytesRead + i]
    {
      if bufferSize == 0 || bytesRead == |stream| {
        return 0;
      }
      n :| 1 <= n <= buffer.Length && bytesRead + n <= |stream|;
      forall i | 0 <= i < n {
        buffer[i] := stream[bytesRead + i];
      }
    }

    /** Refills an exhausted buffer from the stream, first dropping the spare
        byte kept for pushback; `n` is the number of bytes obtained. */
    method Refill() returns (n: nat)
      requires Valid() && cursor >= contentLength
      modifies this, buffer
      ensures Valid() && (buffer == old(buffer) || fresh(buffer))
      ensures bytesProcessed == old(bytesProcessed) && lastRead == None && contentLength == n
      ensures n == 0 <==> bytesProcessed == |Input|
      ensures n == 0 ==> bytesRead == old(bytesRead)
      ensures n > 0 ==> cursor == 0 && bytesRead == old(bytesRead) + n
    {
      if buffer.Length > bufferSize {
        buffer := new byte[bufferSize];
      }
      n := ReadStream();
      contentLength := n;
      lastRead := None;
      if n > 0 {
        bytesRead := bytesRead + n;
        cursor := 0;
        assert forall i :: 0 <= i < n ==> buffer[i] == Input[bytesRead - n + i];
      }
    }

    /** The next byte; an exhausted buffer is first refilled from the stream,
        and a refill of 0 bytes is the end of the stream. */
    method ReadNextChar() returns (r: Result<byte>)
      requires Valid()
      modifies this, buffer
      ensures Valid() && (buffer == old(buffer) || fresh(buffer))
      ensures r == NextByte(Input, old(bytesProcessed))
      ensures r.Ok? ==> bytesProcessed == old(bytesProcessed) + 1 && lastRead == Some(r.value)
      ensures r.Err? ==> bytesProcessed == old(bytesProcessed) && bytesRead == old(bytesRead) && lastRead == None
    {
      if cursor >= contentLength {
        var n := Refill();
        if n == 0 {
          return Err(EndOfStream);
        }
      }
      bytesProcessed := bytesProcessed + 1;
      r := Ok(buffer[cursor]);
      cursor := cursor + 1;
      lastRead := Some(r.value);
    }

    /** Pushes back `c`, which must be the byte the last read returned. The
        cursor then always lies past that byte, so the branch that would shift
        the buffer is never taken; a byte other than the one read is a logic
        error. */
    method UnreadChar(c: byte) returns (r: Outcome)
      requires Valid() && lastRead.Some?
      modifies this
      ensures Valid() && buffer == old(buffer) && bytesRead == old(bytesRead)
      ensures r == Pass <==> c == old(lastRead).value
      ensures r == Pass ==>
                cursor == old(cursor) - 1 && bytesProcessed == old(bytesProcessed) - 1 && lastRead == None
      ensures r.Fail? ==>
                r.error == LogicError && cursor == old(cursor) && bytesProcessed == old(bytesProcessed)
    {
      if cursor > 0 {
        if buffer[cursor - 1] == c {
          cursor := cursor - 1;
        } else {
          return Fail(LogicError);
        }
      } else {
        assert false;
      }
      bytesProcessed := bytesProcessed - 1;
      lastRead := None;
      r := Pass;
    }

    method ReadSkippingWhiteSpace() returns (r: Result<byte>)
      requires Valid()
      modifies this, buffer
      ensures Valid() && (buffer == old(buffer) || fresh(buffer))
      ensures Agrees(r, SkipWhite(Input, old(bytesProcessed)))
      ensures r.Ok? ==> lastRead == Some(r.value)
    {
      while true
        invariant Valid() && (buffer == old(buffer) || fresh(buffer))
        invariant SkipWhite(Input, bytesProcessed) == SkipWhite(Input, old(bytesProcessed))
        decreases |Input| - bytesProcessed
      {
        ghost var p0 := bytesProcessed;
        var c := ReadNextChar();
        if c.Err? {
          assert SkipWhite(Input, p0) == Err(EndOfStream);
          return Err(c.error);
        }
        assert p0 < |Input| && Input[p0] == c.value;
        if c.value !in WHITESPACE {
          assert SkipWhite(Input, p0) == Ok(Parsed(c.value, bytesProcessed));
          return c;
        }
        assert SkipWhite(Input, p0) == SkipWhite(Input, bytesProcessed);
      }
    }

    /** One JSON value, dispatched on its first byte that is not white space. */
    method ReadObject() returns (r: Result<Json>)
      requires Valid()
      modifies this, buffer
      ensures Valid() && (buffer == old(buffer) || fresh(buffer))
      ensures Agrees(r, ParseValue(Input, old(bytesProcessed)))
      decreases |Input| - bytesProcessed, 0
    {
      var first := ReadSkippingWhiteSpace();
      if first.Err? {
        return Err(first.error);
      }
      r := ReadValueStartingWith(first.value);
    }

    /** The dispatch of ReadObject on the first byte `c` of the value, which
        has been read. */
    method ReadValueStartingWith(c: byte) returns (r: Result<Json>)
      requires Valid()
      modifies this, buffer
      ensures Valid() && (buffer == old(buffer) || fresh(buffer))
      ensures Agrees(r, ValueStartingWith(Input, c, old(bytesProcessed)))
      decreases |Input| - bytesProcessed, 4
    {
      if c == '{' as byte {
        var members := ReadDictionary();
        r := if members.Err? then Err(members.error) else Ok(Object(members.value));
      } else if c == '"' as byte {
        var s := ReadString();
        r := if s.Err? then Err(s.error) else Ok(String(s.value));
      } else if c == 't' as byte {
        var m := ReadSequence(TRUE_TAIL);
        r := if m.Fail? then Err(m.error) else Ok(Boolean(true));
      } else if c == 'f' as byte {
        var m := ReadSequence(FALSE_TAIL);
        r := if m.Fail? then Err(m.error) else Ok(Boolean(false));
      } else if c in NUMBER_STARTS {
        var lexeme := ReadNumber(c);
        r := if lexeme.Err? then Err(lexeme.error) else Ok(Number(lexeme.value));
      } else if c == 'n' as byte {
        var m := ReadSequence(NULL_TAIL);
        r := if m.Fail? then Err(m.error) else Ok(Null);
      } else if c == '[' as byte {
        var items := ReadArray();
        r := if items.Err? then Err(items.error) else Ok(Array(items.value));
      } else {
        r := Err(FormatError);
      }
    }

    /** The opening of an object or array body: the first byte that is not
        white space either is the closing bracket `close`, which is consumed,
        or is pushed back for the elements to be read. */
    method ReadImmediateClose(close: byte) returns (r: Result<bool>)
      requires Valid()
      modifies this, buffer
      ensures Valid() && (buffer == old(buffer) || fresh(buffer))
      ensures match SkipWhite(Input, old(bytesProcessed))
              case Err(e) => r == Err(e)
              case Ok(first) =>
                (r == Ok(first.value == close)
                 && bytesProcessed == if first.value == close then first.next else first.next - 1)
    {
      var c := ReadSkippingWhiteSpace();
      if c.Err? {
        return Err(c.error);
      }
      if c.value == close {
        return Ok(true);
      }
      var u := UnreadChar(c.value);
      assert u == Pass;
      return Ok(false);
    }

    /** The members of an object whose `{` has been read. */
    method ReadDictionary() returns (r: Result<map<Text, Json>>)
      requires Valid()
      modifies this, buffer
      ensures Valid() && (buffer == old(buffer) || fresh(buffer))
      ensures Agrees(r, ParseObject(Input, old(bytesProcessed)))
      decreases |Input| - bytesProcessed, 2
    {
      var result: map<Text, Json> := map[];
      var closed := ReadImmediateClose('}' as byte);
      if closed.Err? {
        return Err(closed.error);
      }
      if closed.value {
        return Ok(result);
      }
      while true
        invariant Valid() && (buffer == old(buffer) || fresh(buffer))
        invariant old(bytesProcessed) <= bytesProcessed
        invariant ObjectMembers(Input, bytesProcessed, result) == ParseObject(Input, old(bytesProcessed))
        decreases |Input| - bytesProcessed
      {
        ghost var p0, acc0 := bytesProcessed, result;
        var kvp := ParseKeyValuePair();
        if kvp.Err? {
          return Err(kvp.error);
        }
        result := result[kvp.value.0 := kvp.value.1];
        var end := ReadDelimiter('}' as byte);
        if end.Err? {
          return Err(end.error);
        }
        if end.value {
          return Ok(result);
        }
        assert ObjectMembers(Input, p0, acc0) == ObjectMembers(Input, bytesProcessed, result);
      }
    }

    /** The delimiter after a member or an element: the closing bracket
        `close` (true) or `,` (false), after optional white space; any other
        byte is a FormatError. */
    method ReadDelimiter(close: byte) returns (r: Result<bool>)
      requires Valid()
      modifies this, buffer
      ensures Valid() && (buffer == old(buffer) || fresh(buffer))
      ensures Agrees(r, Delimiter(Input, old(bytesProcessed), close))
    {
      var c := ReadSkippingWhiteSpace();
      if c.Err? {
        return Err(c.error);
      }
      if c.value == close {
        return Ok(true);
      } else if c.value != ',' as byte {
        return Err(FormatError);
      }
      return Ok(false);
    }

    /** `"key" : value`. */
    method ParseKeyValuePair() returns (r: Result<(Text, Json)>)
      requires Valid()
      modifies this, buffer
      ensures Valid() && (buffer == old(buffer) || fresh(buffer))
      ensures Agrees(r, ParsePair(Input, old(bytesProcessed)))
      decreases |Input| - bytesProcessed, 1
    {
      var key := ReadKey();
      if key.Err? {
        return Err(key.error);
      }
      var value := ReadObject();
      r := if value.Err? then Err(value.error) else Ok((key.value, value.value));
    }

    /** The key of a pair and the `:` after it: the part of ParseKeyValuePair
        before the value. */
    method ReadKey() returns (r: Result<Text>)
      requires Valid()
      modifies this, buffer
      ensures Valid() && (buffer == old(buffer) || fresh(buffer))
      ensures Agrees(r, ParseKey(Input, old(bytesProcessed)))
    {
      var c := ReadSkippingWhiteSpace();
      if c.Err? {
        return Err(c.error);
      }
      if c.value != '"' as byte {
        return Err(FormatError);
      }
      var key := ReadString();
      if key.Err? {
        return Err(key.error);
      }
      c := ReadSkippingWhiteSpace();
      if c.Err? {
        return Err(c.error);
      }
      if c.value != ':' as byte {
        return Err(FormatError);
      }
      return Ok(key.value);
    }

    /** The body of a string whose opening quote has been read, decoding escapes. */
    method ReadString() returns (r: Result<Text>)
      requires Valid()
      modifies this, buffer
      ensures Valid() && (buffer == old(buffer) || fresh(buffer))
      ensures Agrees(r, ParseString(Input, old(bytesProcessed)))
    {
      var sb: Text := [];
      var escape := false;
      while true
        invariant Valid() && (buffer == old(buffer) || fresh(buffer))
        invariant StringLoop(Input, bytesProcessed, escape, sb) == ParseString(Input, old(bytesProcessed))
        decreases |Input| - bytesProcessed
      {
        ghost var p0, escape0, sb0 := bytesProcessed, escape, sb;
        var c := ReadNextChar();
        if c.Err? {
          assert StringLoop(Input, p0, escape0, sb0) == Err(EndOfStream);
          return Err(c.error);
        }
        assert p0 < |Input| && Input[p0] == c.value;
        if escape {
          var u := ReadEscapeStep(c.value, p0, sb);
          if u.Err? {
            return Err(u.error);
          }
          sb := u.value;
          escape := false;
        } else if c.value == '\\' as byte {
          escape := true;
        } else if c.value == '"' as byte {
          assert StringLoop(Input, p0, escape0, sb0) == Ok(Parsed(sb, bytesProcessed));
          return Ok(sb);
        } else {
          sb := sb + [c.value as CodeUnit];
        }
        assert StringLoop(Input, p0, escape0, sb0) == StringLoop(Input, bytesProcessed, escape, sb);
      }
    }

    /** The escape branch of ReadString's loop: the escape whose code `c`,
        at `p`, has just been read, appended to `sb`. */
    method ReadEscapeStep(c: byte, ghost p: nat, sb: Text) returns (r: Result<Text>)
      requires Valid() && p + 1 == bytesProcessed && p < |Input| && Input[p] == c
      modifies this, buffer
      ensures Valid() && (buffer == old(buffer) || fresh(buffer))
      ensures r.Err? ==> StringLoop(Input, p, true, sb) == Err(r.error)
      ensures r.Ok? ==> p < bytesProcessed && StringLoop(Input, p, true, sb) == StringLoop(Input, bytesProcessed, false, r.value)
    {
      var u := ReadEscape(c);
      r := if u.Err? then Err(u.error) else Ok(sb + [u.value]);
    }

    /** The code unit an escape stands for, its code `c` having been read. */
    method ReadEscape(c: byte) returns (r: Result<CodeUnit>)
      requires Valid()
      modifies this, buffer
      ensures Valid() && (buffer == old(buffer) || fresh(buffer))
      ensures Agrees(r, Escape(Input, old(bytesProcessed), c))
    {
      if c == 'u' as byte {
        var hex := ReadCharacters(4);
        if hex.Err? {
          return Err(hex.error);
        }
        r := ParseHex(hex.value);
      } else if c == 'U' as byte {
        r := Err(Unsupported);
      } else {
        var i := IndexOf(ESCAPES, c);
        if i >= 0 {
          r := Ok(REPLACEMENTS[i]);
        } else {
          r := Err(FormatError);
        }
      }
    }

    /** The next `nCharacters` bytes as code units. */
    method ReadCharacters(nCharacters: nat) returns (r: Result<Text>)
      requires Valid()
      modifies this, buffer
      ensures Valid() && (buffer == old(buffer) || fresh(buffer))
      ensures Agrees(r, ReadChars(Input, old(bytesProcessed), nCharacters))
    {
      var sb: Text := [];
      for i := 0 to nCharacters
        invariant Valid() && (buffer == old(buffer) || fresh(buffer))
        invariant bytesProcessed == old(bytesProcessed) + i <= |Input|
        invariant sb == Units(Input[old(bytesProcessed)..bytesProcessed])
      {
        var c := ReadNextChar();
        if c.Err? {
          return Err(c.error);
        }
        assert Input[old(bytesProcessed)..bytesProcessed] == Input[old(bytesProcessed)..bytesProcessed - 1] + [c.value];
        sb := sb + [c.value as CodeUnit];
      }
      r := Ok(sb);
    }

    /** Reads the bytes of `sequence` one by one, each of which must match. */
    method ReadSequence(sequence: seq<byte>) returns (r: Outcome)
      requires Valid()
      modifies this, buffer
      ensures Valid() && (buffer == old(buffer) || fresh(buffer))
      ensures match MatchSequence(Input, old(bytesProcessed), sequence)
              case Ok(q) => r == Pass && bytesProcessed == q
              case Err(e) => r == Fail(e)
    {
      for i := 0 to |sequence|
        invariant Valid() && (buffer == old(buffer) || fresh(buffer))
        invariant MatchSequence(Input, bytesProcessed, sequence[i..]) == MatchSequence(Input, old(bytesProcessed), sequence)
      {
        var c := ReadNextChar();
        if c.Err? {
          return Fail(c.error);
        }
        if c.value != sequence[i] {
          return Fail(FormatError);
        }
        assert sequence[i..][1..] == sequence[i + 1..];
      }
      r := Pass;
    }

    /** A number whose first byte `c0` has been read: digits and at most one
        decimal point. The byte after it is pushed back; the end of the stream
        ends it too. */
    method ReadNumber(c0: byte) returns (r: Result<Text>)
      requires Valid()
      modifies this, buffer
      ensures Valid() && (buffer == old(buffer) || fresh(buffer))
      ensures Agrees(r, ParseNumber(Input, c0, old(bytesProcessed)))
    {
      var hasDecimal := false;
      var sb: Text := [];
      var c := c0;
      while true
        invariant Valid() && (buffer == old(buffer) || fresh(buffer))
        invariant NumberLoop(Input, c, bytesProcessed, hasDecimal, sb) == ParseNumber(Input, c0, old(bytesProcessed))
        decreases |Input| - bytesProcessed
      {
        ghost var c1, p1, hasDecimal1, sb1 := c, bytesProcessed, hasDecimal, sb;
        if c == '.' as byte {
          if hasDecimal {
            return Err(FormatError);
          } else {
            hasDecimal := true;
          }
        }
        sb := sb + [c as CodeUnit];
        var next := ReadNextChar();
        if next.Err? {
          break;
        }
        c := next.value;
        if c !in NUMBERS {
          var u := UnreadChar(c);
          assert u == Pass;
          break;
        }
        assert p1 < |Input| && Input[p1] == c && c in NUMBERS;
        assert NumberLoop(Input, c1, p1, hasDecimal1, sb1) == NumberLoop(Input, c, bytesProcessed, hasDecimal, sb);
      }
      r := Ok(sb);
    }

    /** The elements of an array whose `[` has been read. */
    method ReadArray() returns (r: Result<seq<Json>>)
      requires Valid()
      modifies this, buffer
      ensures Valid() && (buffer == old(buffer) || fresh(buffer))
      ensures Agrees(r, ParseArray(Input, old(bytesProcessed)))
      decreases |Input| - bytesProcessed, 1
    {
      var result: seq<Json> := [];
      var closed := ReadImmediateClose(']' as byte);
      if closed.Err? {
        return Err(closed.error);
      }
      if closed.value {
        return Ok(result);
      }
      while true
        invariant Valid() && (buffer == old(buffer) || fresh(buffer))
        invariant old(bytesProcessed) <= bytesProcessed
        invariant ArrayElements(Input, bytesProcessed, result) == ParseArray(Input, old(bytesProcessed))
        decreases |Input| - bytesProcessed
      {
        ghost var p0, acc0 := bytesProcessed, result;
        var value := ReadObject();
        if value.Err? {
          return Err(value.error);
        }
        result := result + [value.value];
        var end := ReadDelimiter(']' as byte);
        if end.Err? {
          return Err(end.error);
        }
        if end.value {
          return Ok(result);
        }
        assert ArrayElements(Input, p0, acc0) == ArrayElements(Input, bytesProcessed, result);
      }
    }
  }
}
