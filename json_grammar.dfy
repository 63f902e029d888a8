/** The JSON dialect read by JsonStreamParser, as functions over the whole
    byte sequence the stream delivers and a position in it. Each function
    follows one reading routine of the parser branch by branch and returns
    the value read with the position just after it, or the failure the
    routine raises. A position at or past the end stands for the stream
    having ended (EndOfStream). */
module JsonGrammar {
  import opened JsonValues
  import opened NetText

  /** Bytes skipped as white space: space, tab, CR, LF. */
  const WHITESPACE: seq<byte> := [' ' as byte, '\t' as byte, '\r' as byte, '\n' as byte]

  /** Escape codes allowed after a backslash (`\u` and `\U` are handled apart). */
  const ESCAPES: seq<byte> := ['b' as byte, 'f' as byte, 'n' as byte, 'r' as byte, 't' as byte, '"' as byte, '\\' as byte]

  /** For each escape code, the code unit it stands for. */
  const REPLACEMENTS: seq<CodeUnit> := [0x08, 0x0C, 0x0A, 0x0D, 0x09, '"' as CodeUnit, '\\' as CodeUnit]

  /** Bytes a number may start with. */
  const NUMBER_STARTS: seq<byte> := ['-' as byte, '0' as byte, '1' as byte, '2' as byte, '3' as byte, '4' as byte,
                                     '5' as byte, '6' as byte, '7' as byte, '8' as byte, '9' as byte, '.' as byte]

  /** Bytes a number continues with. */
  const NUMBERS: seq<byte> := ['0' as byte, '1' as byte, '2' as byte, '3' as byte, '4' as byte,
                               '5' as byte, '6' as byte, '7' as byte, '8' as byte, '9' as byte, '.' as byte]

  /** The tails that must follow the first letter of `true`, `false` and `null`. */
  const TRUE_TAIL: seq<byte> := ['r' as byte, 'u' as byte, 'e' as byte]
  const FALSE_TAIL: seq<byte> := ['a' as byte, 'l' as byte, 's' as byte, 'e' as byte]
  const NULL_TAIL: seq<byte> := ['u' as byte, 'l' as byte, 'l' as byte]

  /** The failures the reading routines report: malformed input, the end of
      the stream, or a `\U` escape. */
  predicate IsReadError(e: Error)
  {
    e == FormatError || e == EndOfStream || e == Unsupported
  }

  /** Each byte read becomes the code unit of the same value (no UTF-8 decoding). */
  function Units(b: seq<byte>): (t: Text)
    ensures |t| == |b| && forall i :: 0 <= i < |b| ==> t[i] as int == b[i] as int
  {
    seq(|b|, i requires 0 <= i < |b| => b[i] as CodeUnit)
  }

  /** The byte at `p`, or EndOfStream. */
  function NextByte(s: seq<byte>, p: nat): Result<byte>
  {
    if p < |s| then Ok(s[p]) else Err(EndOfStream)
  }

  /** The first byte at or after `p` that is not white space, consuming it and
      exactly the white space before it. */
  function SkipWhite(s: seq<byte>, p: nat): (r: Result<Parsed<byte>>)
    decreases |s| - p
    ensures r.Ok? ==> p < r.value.next <= |s| && s[r.value.next - 1] == r.value.value
    ensures r.Ok? ==> r.value.value !in WHITESPACE && forall i :: p <= i < r.value.next - 1 ==> s[i] in WHITESPACE
    ensures r.Err? ==> r.error == EndOfStream && forall i :: p <= i < |s| ==> s[i] in WHITESPACE
  {
    if p >= |s| then Err(EndOfStream)
    else if s[p] in WHITESPACE then SkipWhite(s, p + 1)
    else Ok(Parsed(s[p], p + 1))
  }

  /** `n` bytes from `p` as code units, or EndOfStream if fewer remain. */
  function ReadChars(s: seq<byte>, p: nat, n: nat): (r: Result<Parsed<Text>>)
    ensures r.Err? ==> r.error == EndOfStream
  {
    if p + n <= |s| then Ok(Parsed(Units(s[p..p + n]), p + n)) else Err(EndOfStream)
  }

  /** The code unit an escape sequence stands for, whose code `c` has been
      read and whose remaining bytes, if any, start at `p`: `\u` takes four hex
      digits, `\U` is not supported, the codes of ESCAPES stand for their
      REPLACEMENTS and any other code is malformed. */
  function Escape(s: seq<byte>, p: nat, c: byte): (r: Result<Parsed<CodeUnit>>)
    ensures r.Ok? ==> p <= r.value.next && (p <= |s| ==> r.value.next <= |s|)
    ensures r.Err? ==> IsReadError(r.error)
  {
    if c == 'u' as byte then
      match ReadChars(s, p, 4)
      case Err(e) => Err(e)
      case Ok(hex) =>
        match ParseHex(hex.value)
        case Err(e) => Err(e)
        case Ok(u) => Ok(Parsed(u, hex.next))
    else if c == 'U' as byte then Err(Unsupported)
    else if c in ESCAPES then Ok(Parsed(REPLACEMENTS[IndexOf(ESCAPES, c)], p))
    else Err(FormatError)
  }

  /** The body of a string after its opening quote, read byte by byte with
      the pending-escape flag `escape` and the text `acc` decoded so far. */
  function StringLoop(s: seq<byte>, p: nat, escape: bool, acc: Text): (r: Result<Parsed<Text>>)
    decreases |s| - p
    ensures r.Ok? ==> p < r.value.next <= |s|
    ensures r.Err? ==> IsReadError(r.error)
  {
    if p >= |s| then Err(EndOfStream)
    else
      var c := s[p];
      if escape then
        match Escape(s, p + 1, c)
        case Err(e) => Err(e)
        case Ok(u) => StringLoop(s, u.next, false, acc + [u.value])
      else if c == '\\' as byte then StringLoop(s, p + 1, true, acc)
      else if c == '"' as byte then Ok(Parsed(acc, p + 1))
      else StringLoop(s, p + 1, false, acc + [c as CodeUnit])
  }

  /** A string whose opening quote has been consumed. */
  function ParseString(s: seq<byte>, p: nat): (r: Result<Parsed<Text>>)
    ensures r.Ok? ==> p < r.value.next <= |s|
    ensures r.Err? ==> IsReadError(r.error)
  {
    StringLoop(s, p, false, [])
  }

  /** The bytes of `lit`, matched one by one from `p`. */
  function MatchSequence(s: seq<byte>, p: nat, lit: seq<byte>): (r: Result<nat>)
    decreases lit
    ensures r.Ok? ==> r.value == p + |lit| && (lit != [] ==> r.value <= |s|)
    ensures r.Err? ==> IsReadError(r.error)
  {
    if lit == [] then Ok(p)
    else if p >= |s| then Err(EndOfStream)
    else if s[p] != lit[0] then Err(FormatError)
    else MatchSequence(s, p + 1, lit[1..])
  }

  /** A number whose current byte `c` has been read and whose next byte is
      at `p`; `hasDecimal` records a decimal point already taken. */
  function NumberLoop(s: seq<byte>, c: byte, p: nat, hasDecimal: bool, acc: Text): (r: Result<Parsed<Text>>)
    decreases |s| - p
    ensures r.Ok? ==> p <= r.value.next && (p <= |s| ==> r.value.next <= |s|)
    ensures r.Err? ==> r.error == FormatError
  {
    if c == '.' as byte && hasDecimal then Err(FormatError)
    else
      var acc' := acc + [c as CodeUnit];
      var hasDecimal' := hasDecimal || c == '.' as byte;
      if p >= |s| then Ok(Parsed(acc', p))
      else if s[p] !in NUMBERS then Ok(Parsed(acc', p))
      else NumberLoop(s, s[p], p + 1, hasDecimal', acc')
  }

  /** A number whose first byte `c0` has been read; its next byte is at `p`. */
  function ParseNumber(s: seq<byte>, c0: byte, p: nat): (r: Result<Parsed<Text>>)
    ensures r.Err? ==> r.error == FormatError
  {
    NumberLoop(s, c0, p, false, [])
  }

  /** A literal whose first letter has been read: the rest must be `tail`. */
  function Literal(s: seq<byte>, p: nat, tail: seq<byte>, v: Json): (r: Result<Parsed<Json>>)
    requires tail != []
    ensures r.Ok? ==> r.value.next == p + |tail| <= |s|
    ensures r.Err? ==> IsReadError(r.error)
  {
    match MatchSequence(s, p, tail)
    case Err(e) => Err(e)
    case Ok(q) => Ok(Parsed(v, q))
  }

  /** One JSON value, after optional white space. */
  function ParseValue(s: seq<byte>, p: nat): (r: Result<Parsed<Json>>)
    decreases |s| - p, 0
    ensures r.Ok? ==> p < r.value.next <= |s|
    ensures r.Err? ==> IsReadError(r.error)
  {
    match SkipWhite(s, p)
    case Err(e) => Err(e)
    case Ok(first) => ValueStartingWith(s, first.value, first.next)
  }

  /** The value whose first byte `c` has been read, `q` being the position
      after it; the byte chooses the kind of value. */
  function ValueStartingWith(s: seq<byte>, c: byte, q: nat): (r: Result<Parsed<Json>>)
    decreases |s| - q, 4
    ensures r.Ok? ==> q <= r.value.next && (q <= |s| ==> r.value.next <= |s|)
    ensures r.Err? ==> IsReadError(r.error)
  {
    if c == '{' as byte then
      match ParseObject(s, q)
      case Err(e) => Err(e)
      case Ok(m) => Ok(Parsed(Object(m.value), m.next))
    else if c == '"' as byte then
      match ParseString(s, q)
      case Err(e) => Err(e)
      case Ok(t) => Ok(Parsed(String(t.value), t.next))
    else if c == 't' as byte then Literal(s, q, TRUE_TAIL, Boolean(true))
    else if c == 'f' as byte then Literal(s, q, FALSE_TAIL, Boolean(false))
    else if c in NUMBER_STARTS then
      match ParseNumber(s, c, q)
      case Err(e) => Err(e)
      case Ok(t) => Ok(Parsed(Number(t.value), t.next))
    else if c == 'n' as byte then Literal(s, q, NULL_TAIL, Null)
    else if c == '[' as byte then
      match ParseArray(s, q)
      case Err(e) => Err(e)
      case Ok(a) => Ok(Parsed(Array(a.value), a.next))
    else Err(FormatError)
  }

  /** An object whose `{` has been read: `}` at once gives the empty object,
      otherwise the byte is pushed back and members are read. */
  function ParseObject(s: seq<byte>, p: nat): (r: Result<Parsed<map<Text, Json>>>)
    decreases |s| - p, 3
    ensures r.Ok? ==> p < r.value.next <= |s|
    ensures r.Err? ==> IsReadError(r.error)
  {
    match SkipWhite(s, p)
    case Err(e) => Err(e)
    case Ok(first) =>
      if first.value == '}' as byte then Ok(Parsed(map[], first.next))
      else ObjectMembers(s, first.next - 1, map[])
  }

  /** Key-value pairs from `p`, each followed by `,` or the closing `}`;
      `acc` holds the members read so far (a later key replaces an earlier one). */
  function ObjectMembers(s: seq<byte>, p: nat, acc: map<Text, Json>): (r: Result<Parsed<map<Text, Json>>>)
    decreases |s| - p, 2
    ensures r.Ok? ==> p < r.value.next <= |s|
    ensures r.Err? ==> IsReadError(r.error)
  {
    match ParsePair(s, p)
    case Err(e) => Err(e)
    case Ok(kv) =>
      var acc' := acc[kv.value.0 := kv.value.1];
      match Delimiter(s, kv.next, '}' as byte)
      case Err(e) => Err(e)
      case Ok(closed) =>
        if closed.value then Ok(Parsed(acc', closed.next))
        else ObjectMembers(s, closed.next, acc')
  }

  /** The byte after a member or an element, after optional white space:
      the closing bracket `close` (true) or `,` (false); any other byte is a
      FormatError. */
  function Delimiter(s: seq<byte>, p: nat, close: byte): (r: Result<Parsed<bool>>)
    ensures r.Ok? ==> p < r.value.next <= |s|
    ensures r.Err? ==> IsReadError(r.error)
  {
    match SkipWhite(s, p)
    case Err(e) => Err(e)
    case Ok(delim) =>
      if delim.value == close then Ok(Parsed(true, delim.next))
      else if delim.value != ',' as byte then Err(FormatError)
      else Ok(Parsed(false, delim.next))
  }

  /** `"key"` and then `:`, each after optional white space: the key. */
  function ParseKey(s: seq<byte>, p: nat): (r: Result<Parsed<Text>>)
    ensures r.Ok? ==> p < r.value.next <= |s|
    ensures r.Err? ==> IsReadError(r.error)
  {
    match SkipWhite(s, p)
    case Err(e) => Err(e)
    case Ok(open) =>
      if open.value != '"' as byte then Err(FormatError)
      else
        match ParseString(s, open.next)
        case Err(e) => Err(e)
        case Ok(key) =>
          match SkipWhite(s, key.next)
          case Err(e) => Err(e)
          case Ok(colon) =>
            if colon.value != ':' as byte then Err(FormatError)
            else Ok(Parsed(key.value, colon.next))
  }

  /** `"key" : value`. */
  function ParsePair(s: seq<byte>, p: nat): (r: Result<Parsed<(Text, Json)>>)
    decreases |s| - p, 1
    ensures r.Ok? ==> p < r.value.next <= |s|
    ensures r.Err? ==> IsReadError(r.error)
  {
    match ParseKey(s, p)
    case Err(e) => Err(e)
    case Ok(key) =>
      match ParseValue(s, key.next)
      case Err(e) => Err(e)
      case Ok(v) => Ok(Parsed((key.value, v.value), v.next))
  }

  /** An array whose `[` has been read: `]` at once gives the empty array,
      otherwise the byte is pushed back and elements are read. */
  function ParseArray(s: seq<byte>, p: nat): (r: Result<Parsed<seq<Json>>>)
    decreases |s| - p, 2
    ensures r.Ok? ==> p < r.value.next <= |s|
    ensures r.Err? ==> IsReadError(r.error)
  {
    match SkipWhite(s, p)
    case Err(e) => Err(e)
    case Ok(first) =>
      if first.value == ']' as byte then Ok(Parsed([], first.next))
      else ArrayElements(s, first.next - 1, [])
  }

  /** Values from `p`, each followed by `,` or the closing `]`; `acc` holds
      the elements read so far, in order. */
  function ArrayElements(s: seq<byte>, p: nat, acc: seq<Json>): (r: Result<Parsed<seq<Json>>>)
    decreases |s| - p, 1
    ensures r.Ok? ==> p < r.value.next <= |s|
    ensures r.Err? ==> IsReadError(r.error)
  {
    match ParseValue(s, p)
    case Err(e) => Err(e)
    case Ok(v) =>
      match Delimiter(s, v.next, ']' as byte)
      case Err(e) => Err(e)
      case Ok(closed) =>
        if closed.value then Ok(Parsed(acc + [v.value], closed.next))
        else ArrayElements(s, closed.next, acc + [v.value])
  }

}
