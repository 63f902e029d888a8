# JSON stream parser and default translator extensions, in Dafny

This project models two parts of the Json.Serialization library.

**JsonStreamParser** is an incremental, recursive-descent reader. It reads JSON values from a byte stream through a buffer that is refilled whenever it runs out. It can push back one byte.

`StreamParser.JsonStreamParser` is a class with the same fields as the source: the buffer (an `array<byte>`), the cursor, the content length, `BytesRead` and `BytesProcessed`. Its methods follow the source's methods and loops. Where a source method is long, a piece of it is a helper method of its own: `Refill` and `ReadStream` (of `ReadNextChar`), `ReadValueStartingWith` (of `ReadObject`), `ReadImmediateClose` and `ReadDelimiter` (of `ReadDictionary` and `ReadArray`), `ReadKey` (of `ParseKeyValuePair`), `ReadEscapeStep` and `ReadEscape` (of `ReadString`).

The stream is the sequence of every byte it will deliver. A read hands out the next chunk. A chunk may have any length from 1 up to the buffer's size, and a length of 0 means the stream has ended. The class invariant `Valid()` ties the buffer to the stream and the counters to each other:

- `BytesProcessed + (bytes still pending in the buffer) == BytesRead`;
- the buffered bytes are the stream bytes just before `BytesRead`;
- the byte read last is the one just behind the cursor.

Every reading method is proved against a function of `JsonGrammar`. That function reads the whole input from a position, branch by branch as the method does. For every way the stream can be split into chunks, the method returns the function's value or failure, and on success leaves `BytesProcessed` at the position where the function stops.

`JsonDialect` then states what those functions accept in independent terms:

- a value's kind is decided by its first byte, and a failure is FormatError, EndOfStream or Unsupported;
- literals are matched exactly;
- an unescaped run of bytes up to `"` becomes the string;
- the escape table maps each code to its replacement;
- `\u` reads exactly four bytes;
- a number is its first byte followed by the longest run of digits and points, with at most one point;
- an array holds the values read, in order;
- an object holds every key read, and a repeated key keeps its last value.

**DefaultTranslatorExtensions** holds a table of special conversions for a few .NET types, with the conversions themselves.

The constructor's loop fills two maps, the JSON makers and the object makers. It fills them from the class's own static methods, described by the constant `DECLARED`. The lookups return the registered routine, or None.

The conversions are modelled over records that hold what the routines use. Each has a round-trip lemma:

- Rectangle as `"Left,Top,Width,Height"`.
- The fractional seconds of DateTime: the fraction written reads back as the same tick count (`FractionRoundTrip`). The date and time before it, and the parsing of the whole text, are left to parameters, so there is no round trip for DateTime as a whole.
- IPEndPoint, split at the last `:`.
- DirectoryInfo, FileInfo and Uri as their full path, the constructor being a parameter.
- `double[,]`, flattened row-major into `{N, M, V}` and rebuilt.

Files:

- `json_value.dfy`: JSON values and failure kinds.
- `net_text.dfy`: the .NET text routines used: `IndexOf`, `LastIndexOf`, `Split`, `int.ToString`, `int.Parse` and hex parsing.
- `json_grammar.dfy`: the dialect as functions.
- `stream_parser.dfy`: the parser class.
- `json_dialect.dfy`: properties of the dialect.
- `translator_extensions.dfy`: the extension table and its conversions.

Where the library's documentation and its code differ, the model follows the code:

- `\u` hands its four characters to `int.Parse` with the hexadecimal number style. That style allows white space around the digits and NULs after them, so `\u  41` decodes to `A` (`JsonDialect.PaddedUnicodeEscape`), and so does `\u` followed by `41` and two NULs (`JsonDialect.NulPaddedUnicodeEscape`).
- A number also ends at the end of the stream, without failing.
- Bytes become code units one for one (`(char)` of a byte), so there is no UTF-8 decoding.

## Model

| member | source | states |
|---|---|---|
| StreamParser.JsonStreamParser.constructor | JsonSerialization/JsonStreamParser.cs:56-61 | the buffer has one byte more than the buffer size, for pushback; both counters start at 0 and the invariant holds |
| StreamParser.JsonStreamParser.ReadStream | JsonSerialization/JsonStreamParser.cs:114 | a read fills the buffer with the next chunk of the stream and returns its length, which is 0 exactly when the stream is exhausted |
| StreamParser.JsonStreamParser.Refill | JsonSerialization/JsonStreamParser.cs:110-121 | an exhausted buffer drops its spare byte and is refilled; 0 bytes exactly at the end of input, which leaves BytesRead and BytesProcessed unchanged; otherwise the cursor is reset and BytesRead grows by the chunk length |
| StreamParser.JsonStreamParser.ReadNextChar | JsonSerialization/JsonStreamParser.cs:108-125 | returns the input byte at BytesProcessed and advances BytesProcessed by exactly one, or reports EndOfStream (never a format error) with the counters unchanged; keeps BytesProcessed + pending == BytesRead |
| StreamParser.JsonStreamParser.UnreadChar | JsonSerialization/JsonStreamParser.cs:127-151 | pushing back the byte just read succeeds: the cursor moves back by one, BytesProcessed returns to its value before the read and the buffer is unchanged (after a read that refilled the buffer the cursor ends at 0, not where it was before the refill); the cursor-0 branch is proved unreachable; a different byte is a logic error that changes nothing |
| StreamParser.JsonStreamParser.ReadSkippingWhiteSpace | JsonSerialization/JsonStreamParser.cs:153-162 | agrees with SkipWhite: returns the first byte that is not white space, having consumed exactly the white space before it |
| JsonGrammar.SkipWhite | JsonSerialization/JsonStreamParser.cs:153-162 | the result is the first byte at or after the position that is not space, tab, CR or LF; every byte before it is white space; all white space to the end gives EndOfStream |
| StreamParser.JsonStreamParser.ReadObject | JsonSerialization/JsonStreamParser.cs:68-106 | agrees with ParseValue: the same value or failure, and on success BytesProcessed just after the value |
| StreamParser.JsonStreamParser.ReadValueStartingWith | JsonSerialization/JsonStreamParser.cs:71-105 | agrees with ValueStartingWith: the dispatch on the first byte to object, string, true, false, number, null or array, any other byte a FormatError |
| JsonGrammar.ParseValue | JsonSerialization/JsonStreamParser.cs:62-106 | a value read successfully ends after its first byte and within the input; a failure is FormatError, EndOfStream or Unsupported (`\U`), the failures the routine documents plus the escape it does not implement |
| JsonDialect.ParseValueKind | JsonSerialization/JsonStreamParser.cs:68-105 | the first byte that is not white space decides the kind of the value read: `{` object, `"` string, `t` true, `f` false, a number start a number, `n` null, `[` array |
| StreamParser.JsonStreamParser.ReadImmediateClose | JsonSerialization/JsonStreamParser.cs:168-171 | the first byte that is not white space is consumed when it is the closing bracket (empty container), and otherwise pushed back |
| StreamParser.JsonStreamParser.ReadDictionary | JsonSerialization/JsonStreamParser.cs:164-183 | agrees with ParseObject: `{}` gives the empty map; otherwise pairs are read and stored until `}` |
| StreamParser.JsonStreamParser.ReadDelimiter | JsonSerialization/JsonStreamParser.cs:177-181 | agrees with Delimiter: after optional white space, the closer gives true, `,` gives false, and any other byte is a FormatError |
| StreamParser.JsonStreamParser.ParseKeyValuePair | JsonSerialization/JsonStreamParser.cs:185-205 | agrees with ParsePair: a key, then a value |
| StreamParser.JsonStreamParser.ReadKey | JsonSerialization/JsonStreamParser.cs:187-200 | agrees with ParseKey: a first byte other than `"` is a FormatError; the quoted key must be followed by `:` after optional white space, otherwise a FormatError |
| StreamParser.JsonStreamParser.ReadString | JsonSerialization/JsonStreamParser.cs:207-252 | agrees with ParseString: the loop over bytes with the escape flag decodes exactly what StringLoop describes |
| StreamParser.JsonStreamParser.ReadEscapeStep | JsonSerialization/JsonStreamParser.cs:214-237 | one escape step of the string loop: the failure, or the string loop continuing after the escape with its code unit appended |
| StreamParser.JsonStreamParser.ReadEscape | JsonSerialization/JsonStreamParser.cs:216-237 | agrees with Escape: `\u` reads four characters as hex, `\U` is Unsupported, ESCAPES map to REPLACEMENTS, and anything else is a FormatError |
| StreamParser.JsonStreamParser.ReadCharacters | JsonSerialization/JsonStreamParser.cs:254-262 | agrees with ReadChars: exactly n bytes as code units, or EndOfStream when fewer remain |
| StreamParser.JsonStreamParser.ReadSequence | JsonSerialization/JsonStreamParser.cs:264-271 | agrees with MatchSequence: each byte of the literal's tail is read and must match |
| StreamParser.JsonStreamParser.ReadNumber | JsonSerialization/JsonStreamParser.cs:273-307 | agrees with ParseNumber: the loop with its decimal flag, the pushback of the ending byte, and the end of the stream ending the number |
| StreamParser.JsonStreamParser.ReadArray | JsonSerialization/JsonStreamParser.cs:309-328 | agrees with ParseArray: `[]` gives the empty array; otherwise values are appended until `]` |
| JsonDialect.MatchSequenceExact | JsonSerialization/JsonStreamParser.cs:264-271 | the tail matches exactly when the next bytes spell it; the failure is EndOfStream exactly when input runs out while every byte so far matched, and FormatError otherwise |
| JsonDialect.PlainString | JsonSerialization/JsonStreamParser.cs:243-250 | bytes without `"` or `\` up to a `"` become the string's text, and the quote ends it |
| JsonDialect.EscapeTable | JsonSerialization/JsonStreamParser.cs:39-44 | each code of `bfnrt"\` stands for the code unit at the same place in REPLACEMENTS and reads nothing more |
| JsonDialect.UnicodeEscape | JsonSerialization/JsonStreamParser.cs:216-220 | `\u` consumes exactly four characters and is EndOfStream exactly when fewer remain; four hex digits give the code unit they denote |
| JsonDialect.PaddedUnicodeEscape | JsonSerialization/JsonStreamParser.cs:218 | the hex style accepts white space around the digits: `\u  41` is 0x41 |
| JsonDialect.NulPaddedUnicodeEscape | JsonSerialization/JsonStreamParser.cs:218 | the hex style accepts NULs after the digits: `\u` followed by `41` and two NULs is 0x41 |
| JsonDialect.NumberLoopIsLexeme | JsonSerialization/JsonStreamParser.cs:279-304 | the number loop, from any state with consistent decimal flag, equals the reference: accumulated text + current byte + maximal run of `0-9.`, FormatError on a second point |
| JsonDialect.ParseNumberIsLexeme | JsonSerialization/JsonStreamParser.cs:273-307 | a number is c0 and the longest run of digits and points after it; it ends before the first other byte, which is left unread, or at the end of input; more than one point is a FormatError |
| JsonDialect.ArrayElementsKeepOrder | JsonSerialization/JsonStreamParser.cs:318-327 | the elements read so far stay in front, in order, and the next element is the value ReadObject reads at the current position |
| JsonDialect.ArrayElementsPrefix | JsonSerialization/JsonStreamParser.cs:318-327 | the elements read so far only prefix the result: success, failure and end position do not depend on them, so the array is the value at the position followed by the elements after its `,` |
| JsonDialect.ObjectMembersKeepKeys | JsonSerialization/JsonStreamParser.cs:173-182 | every key read so far remains a key of the object, and so does the key of the pair read at the current position |
| JsonDialect.ObjectMembersLastWins | JsonSerialization/JsonStreamParser.cs:173-182 | the object is the members read so far overridden by the members read from the position on (`result[key] = value`: a later pair replaces an earlier one), for every input; success, failure and end position do not depend on the members read so far |
| JsonDialect.ObjectMemberLastValue | JsonSerialization/JsonStreamParser.cs:175-176 | the pair read at the position is stored under its key with its own value, unless a later pair of the object has the same key, whose value is then kept |
| JsonDialect.RepeatedKeyKeepsLast | JsonSerialization/JsonStreamParser.cs:176 | an instance of ObjectMemberLastValue on a whole value: `{"a":1,"a":2}` parses to the object whose only key `a` holds 2 |
| JsonDialect.OneElementArray | JsonSerialization/JsonStreamParser.cs:299-303 | in `[1]` the `]` ends the number, is pushed back and closes the array |
| NetText.IndexOf | JsonSerialization/JsonStreamParser.cs:227 | the first position of the code, or -1 exactly when it is absent |
| NetText.IndexOfFirst | JsonSerialization/JsonStreamParser.cs:227 | a position holding the code with none before it is the one IndexOf returns |
| NetText.ParseHex | JsonSerialization/JsonStreamParser.cs:218 | hex parsing succeeds exactly when the text, without its trailing NULs and then without surrounding white space, is one or more hex digits, and then gives their value; any failure is a FormatError |
| NetText.TrimTrailingNuls | JsonSerialization/JsonStreamParser.cs:218 | the result is the text up to its trailing NULs: a prefix that does not end in NUL, followed in the text only by NULs |
| TranslatorExtensions.DefaultTranslatorExtensions.constructor | JsonSerialization/TranslatorExtensions.cs:38-54 | the loop over the declared methods builds exactly Table(DECLARED, true) and Table(DECLARED, false) |
| TranslatorExtensions.TableHas | JsonSerialization/TranslatorExtensions.cs:40-53 | a type has an entry exactly when some method with the attribute, one parameter and the right signature registers for it; other methods are skipped |
| TranslatorExtensions.TableLast | JsonSerialization/TranslatorExtensions.cs:49-51 | a type's entry is the routine of the last method registering for it |
| TranslatorExtensions.MakersTable | JsonSerialization/TranslatorExtensions.cs:95-294 | a JSON maker and an object maker per declared type give each type its own routine in each direction, and no other type an entry |
| TranslatorExtensions.DeclaredTable | JsonSerialization/TranslatorExtensions.cs:40-53 | the tables hold the seven special types, each with its own routine, and nothing else |
| TranslatorExtensions.DefaultTranslatorExtensions.MakeJsonMaker | JsonSerialization/TranslatorExtensions.cs:57-60 | returns the registered routine when the type is in the table, None otherwise; never fails |
| TranslatorExtensions.DefaultTranslatorExtensions.MakeObjectMaker | JsonSerialization/TranslatorExtensions.cs:63-66 | returns the registered routine when the type is in the table, None otherwise; never fails |
| TranslatorExtensions.DefaultLookups | JsonSerialization/TranslatorExtensions.cs:57-66 | on the constructed table the lookups give the type's own routine for the seven types and None for any other |
| TranslatorExtensions.MakeJsonRectangle | JsonSerialization/TranslatorExtensions.cs:96-100 | the result is a String whose comma-separated pieces are the decimal texts of Left, Top, Width and Height |
| NetText.Split | JsonSerialization/TranslatorExtensions.cs:107 | there is at least one piece, and joining the pieces with the separator gives back the text |
| NetText.SplitPieces | JsonSerialization/TranslatorExtensions.cs:107 | no piece of a split contains the separator |
| NetText.SplitJoin | JsonSerialization/TranslatorExtensions.cs:99-107 | splitting pieces joined with a separator they do not contain gives the pieces back |
| NetText.IntTextRoundTrip | JsonSerialization/TranslatorExtensions.cs:99-107 | int.Parse of an int's ToString text gives the int back |
| NetText.ParseInt32 | JsonSerialization/TranslatorExtensions.cs:107 | on success the text, less trailing NULs and surrounding white space, is an optional sign and one or more digits; a failure is a FormatError exactly when it is not; for such a text the result is its signed value when that lies in [-2^31, 2^31) and a RuntimeError (overflow) exactly when it does not |
| TranslatorExtensions.ParseAll | JsonSerialization/TranslatorExtensions.cs:107 | on success every piece parsed, in order, to the value at its place |
| TranslatorExtensions.ParseAllFirstError | JsonSerialization/TranslatorExtensions.cs:107 | the failure is that of the first piece that does not parse |
| TranslatorExtensions.ParseAllSucceeds | JsonSerialization/TranslatorExtensions.cs:107 | when every piece parses, the whole parse succeeds |
| TranslatorExtensions.RectangleOf | JsonSerialization/TranslatorExtensions.cs:107-108 | when every piece parses and there are at least four, the rectangle of the first four parses (pieces after the fourth are ignored); the first parse failure propagates; fewer than four pieces is an index error |
| TranslatorExtensions.MakeObjectRectangle | JsonSerialization/TranslatorExtensions.cs:103-109 | a non-String is a FormatError; a String succeeds exactly when every comma-separated piece parses and there are at least four, with the fields the parses of the first four; otherwise the first parse failure, or an index error for fewer than four pieces |
| TranslatorExtensions.RectangleRoundTrip | JsonSerialization/TranslatorExtensions.cs:96-109 | every rectangle survives serialization and deserialization |
| TranslatorExtensions.MakeJsonIPEndPoint | JsonSerialization/TranslatorExtensions.cs:155-161 | null gives JSON Null; an endpoint gives a String whose last `:` follows the address and is followed by the port's text |
| NetText.LastIndexOf | JsonSerialization/TranslatorExtensions.cs:170 | the last position of the character, or -1 exactly when it is absent |
| TranslatorExtensions.EndPointOf | JsonSerialization/TranslatorExtensions.cs:170-172 | no `:` is a FormatError; otherwise the text after the last `:` is parsed: its failure propagates, a port in 0..65535 gives the endpoint of the text before the `:` and that port, and any other port is a RuntimeError |
| TranslatorExtensions.MakeObjectIPEndPoint | JsonSerialization/TranslatorExtensions.cs:164-176 | Null exactly gives null; a kind other than Null or String is a FormatError; a String succeeds or fails exactly as EndPointOf does on it, with its endpoint or its failure |
| TranslatorExtensions.EndPointRoundTrip | JsonSerialization/TranslatorExtensions.cs:160-172 | an endpoint's text, whatever colons its address holds, reads back as the same endpoint |
| TranslatorExtensions.IPEndPointRoundTrip | JsonSerialization/TranslatorExtensions.cs:155-176 | null and every endpoint with a valid port survive the round trip |
| TranslatorExtensions.MakeJsonPath | JsonSerialization/TranslatorExtensions.cs:183-189 | null exactly gives JSON Null, a value the String of its path (FileInfo at 209-215 and Uri at 275-281 are the same) |
| TranslatorExtensions.MakeObjectPath | JsonSerialization/TranslatorExtensions.cs:192-202 | Null exactly gives null; a String gives the full path of the value its constructor builds, or the constructor's failure; any other kind is a FormatError (FileInfo at 218-228 and Uri at 284-294 are the same) |
| TranslatorExtensions.PathRoundTrip | JsonSerialization/TranslatorExtensions.cs:183-202 | null and every value whose full path rebuilds it survive the round trip value to JSON to value |
| TranslatorExtensions.PathNormalises | JsonSerialization/TranslatorExtensions.cs:183-202 | a String read as a value and written back becomes the constructed value's full path, not the text read; a second round trip then changes nothing |
| TranslatorExtensions.StripTrailingZeros | JsonSerialization/TranslatorExtensions.cs:127-130 | the result is positive and does not end in a 0 digit |
| TranslatorExtensions.FractionDigits | JsonSerialization/TranslatorExtensions.cs:126 | a sub-second tick count has at most seven digits, so the leading-zero count is never negative |
| TranslatorExtensions.MakeJsonDateTime | JsonSerialization/TranslatorExtensions.cs:116-139 | the String is the base text, then FractionText of ticks mod 10^7, then `Z`; the loop removes exactly the trailing zeros |
| TranslatorExtensions.StripIsTrim | JsonSerialization/TranslatorExtensions.cs:127-131 | dividing out the trailing zero digits removes the trailing `0`s of the decimal text |
| TranslatorExtensions.Pad7Value | JsonSerialization/TranslatorExtensions.cs:126-131 | the leading zeros and digits form a seven-digit text denoting the fraction |
| TranslatorExtensions.FractionTextIsTrimmedPad | JsonSerialization/TranslatorExtensions.cs:124-132 | the fractional part is `.` followed by the seven-digit fraction with its trailing zeros removed |
| TranslatorExtensions.FractionTextShape | JsonSerialization/TranslatorExtensions.cs:124-132 | a non-zero fraction gives `.` and 1 to 7 digits that do not end in `0`, a prefix of the seven-digit fraction |
| TranslatorExtensions.FractionRoundTrip | JsonSerialization/TranslatorExtensions.cs:121-136 | the fractional part written for any tick count below one second reads back, its digits padded on the right to seven places, as that tick count |
| TranslatorExtensions.WholeSecond | JsonSerialization/TranslatorExtensions.cs:133-136 | a whole second has no fractional part |
| TranslatorExtensions.MakeObjectDateTime | JsonSerialization/TranslatorExtensions.cs:142-148 | a String goes to the date parser; any other kind is a FormatError |
| TranslatorExtensions.CellsAt | JsonSerialization/TranslatorExtensions.cs:246 | the block copy is row-major: element (i, j) is at position i*M + j |
| TranslatorExtensions.MakeJsonDouble2d | JsonSerialization/TranslatorExtensions.cs:235-249 | null gives Null; a matrix gives N = rows, M = columns and V = its elements copied out in row-major order |
| TranslatorExtensions.IntOf | JsonSerialization/TranslatorExtensions.cs:259-260 | reading Number from a non-number is a RuntimeError; a Number is read by the `(int)` cast of its lexeme (NumberToInt) |
| NetText.NumberToInt | JsonSerialization/TranslatorExtensions.cs:259-260 | reading a lexeme as an `int` fails only with FormatError; its values are stated by NumberToIntTruncates |
| NetText.NumberToIntTruncates | JsonSerialization/TranslatorExtensions.cs:259-260 | a lexeme made of an optional `-`, digits and optionally `.` and digits, with at least one digit, reads as its whole part with its sign: the cast truncates toward zero (`-1.5` is -1, `.5` is 0) |
| NetText.NumberToIntDigits | JsonSerialization/TranslatorExtensions.cs:259-260 | a lexeme without digits (empty, `-`, `.`, `-.`) fails; a lexeme of plain digits gives their value |
| TranslatorExtensions.ElementsOf | JsonSerialization/TranslatorExtensions.cs:261 | succeeds exactly when every item is a number, giving their values in order |
| NetText.NumberToIntOfIntText | JsonSerialization/TranslatorExtensions.cs:243-260 | a dimension written as a number reads back as the same integer |
| TranslatorExtensions.MatrixOf | JsonSerialization/TranslatorExtensions.cs:252-267 | Null exactly gives None; a kind other than Null or dictionary is a FormatError; a missing `N`, `M` or `V` fails; on success n, m and v are the `(int)` readings of `N` and `M` and the numbers of the array `V`, with at least n*m of them; conversely, when those readings succeed with n, m >= 0 and at least n*m elements, the call succeeds with them |
| TranslatorExtensions.MakeObjectDouble2d | JsonSerialization/TranslatorExtensions.cs:252-268 | failures and null as MatrixOf says; otherwise a fresh N×M matrix whose row-major cells are the first N*M elements of V |
| TranslatorExtensions.NewMatrix | JsonSerialization/TranslatorExtensions.cs:262-263 | allocation and block copy: element (i, j) receives V[i*M + j] |
| TranslatorExtensions.MatrixRoundTrip | JsonSerialization/TranslatorExtensions.cs:235-268 | the JSON written for a matrix reads back with the same dimensions and elements |
| TranslatorExtensions.SameCells | JsonSerialization/TranslatorExtensions.cs:246-263 | two matrices of one shape with equal row-major cells are equal element by element |
| TranslatorExtensions.Double2dRoundTrip | JsonSerialization/TranslatorExtensions.cs:235-268 | serializing a matrix and deserializing the result gives a new matrix of the same shape and elements |

## Left out

- Asynchrony: `async`/`Task` and `ReadAsync` are modelled as synchronous calls. The stream is the sequence of bytes it delivers, in chunks of any length chosen by the model, so the proofs hold for every chunking.
- `double.Parse`: a number keeps the text the parser accumulated. Matrix elements are that number text too, and nothing floating-point is modelled. So number texts without digits, such as `-`, `.` and `-.`, are accepted by the model (`[-]` reads as an array holding the number `-`), where `double.Parse` throws a FormatException.
- NumberToInt: the `(int)` cast of a number's double is modelled as the whole part of the lexeme, with its sign. The rounding of `double.Parse` is not modelled, so a lexeme whose double rounds up to the next integer (`2.99999999999999999`), or an integer above 2^53, reads differently in the library. The overflow of the cast and of `n * m * sizeof(double)` is not modelled.
- Reading `Number`, `Array` or a missing key of a JSON value throws in the library (JsonObject is not part of this model). Here those cases are `RuntimeError`, and so are the exceptions of `new double[n, m]`, `Buffer.BlockCopy`, `Rectangle`'s indexing and `IPEndPoint`'s port check.
- MakeObjectIPEndPoint: the address text is kept as it is. `IPAddress.Parse` and its failures are not modelled, and neither is the formatting of an address by `ToString`.
- MakeJsonDateTime: `ToUniversalTime` and `ToString("yyyy-MM-ddTHH:mm:ss")` are not modelled. The base text is a parameter, and `Math.Log10` is replaced by the digit count of the fraction.
- MakeObjectDateTime: `DateTime.Parse` and `ToLocalTime` are a parameter.
- MakeJsonPath, MakeObjectPath: a `DirectoryInfo`, `FileInfo` or `Uri` is represented by its full path (`FullName`, `AbsoluteUri`). The constructors, with their normalisation and their exceptions, are a parameter.
- DefaultTranslatorExtensions.constructor: reflection over the class's methods is replaced by the constant `DECLARED`. The delegates are tags naming the routine.
- The lazy `Singleton` property is not modelled.
- The enumeration order of the dictionaries is not modelled: a JSON object is a `map`.
- The 32-bit `int` counters (`BytesRead`, `BytesProcessed`, cursor) are unbounded naturals.
- UnreadChar: the `_Cursor == 0` branch (buffer shift and enlargement) is proved unreachable and is not specified.
- JsonReflection.cs, the JsonTranslator mapper and its caches, and JsonObject rendering and parsing are not part of this model.
- ParseInt32, ParseHex: only the invariant culture is modelled, and only the number styles the core uses (white space around the number, trailing NULs, a sign for the decimal style).
- A negative buffer size: the library fails on it, in the constructor or at the first refill. The model takes the size as a natural number.
