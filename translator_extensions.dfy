/** DefaultTranslatorExtensions: the built-in table of special JSON
    conversions for a few .NET types, and the conversions themselves.

    The table maps a host type to the routine that turns a value of that type
    into a JSON value (a "JSON maker") and to the routine that turns a JSON
    value back into a value of the type (an "object maker"). It is filled by
    the constructor from what reflection reports about the class's own static
    methods; here that report is the constant DECLARED. The .NET values are
    abstracted as records that hold exactly what the routines use. */
module TranslatorExtensions {
  import opened JsonValues
  import opened NetText

  // ---------------------------------------------------------------------------
  // The table

  /** The host types that have special conversions, and any other type. */
  datatype HostType =
    | RectangleType
    | DateTimeType
    | IPEndPointType
    | DirectoryInfoType
    | FileInfoType
    | Double2dType
    | UriType
    | OtherType(name: Text)

  /** A conversion routine of the class: `ToJson(t)` is `MakeJson_<t>` and
      `ToObject(t)` is `MakeObject_<t>`. */
  datatype Routine = ToJson(t: HostType) | ToObject(t: HostType)

  /** The parameter and return types the constructor tells apart. */
  datatype ClrType = ObjectClr | JsonObjectClr | OtherClr

  /** What reflection reports about a non-public static method: the type named
      by its SerializedType attribute (None without the attribute), its
      parameter types, its return type, and the routine it is. */
  datatype MethodInfo = MethodInfo(
    serializedType: Option<HostType>,
    parameters: seq<ClrType>,
    returnType: ClrType,
    routine: Routine)

  /** A method with the attribute and one parameter, typed for the table of
      JSON makers (`object -> JsonObject`, when `json`) or of object makers
      (`JsonObject -> object`). */
  predicate Registers(mi: MethodInfo, json: bool)
  {
    && mi.serializedType.Some?
    && |mi.parameters| == 1
    && (if json then mi.parameters[0] == ObjectClr && mi.returnType == JsonObjectClr
        else mi.parameters[0] == JsonObjectClr && mi.returnType == ObjectClr)
  }

  /** The table the constructor builds from `methods`, taken in order: each
      registering method sets the entry of its type, so a later one wins. */
  function Table(methods: seq<MethodInfo>, json: bool): map<HostType, Routine>
  {
    if methods == [] then map[]
    else
      var mi := methods[|methods| - 1];
      var t := Table(methods[..|methods| - 1], json);
      if Registers(mi, json) then t[mi.serializedType.value := mi.routine] else t
  }

  /** `mi` registers a routine for type `t` in the given table. */
  predicate RegistersFor(mi: MethodInfo, json: bool, t: HostType)
  {
    Registers(mi, json) && mi.serializedType == Some(t)
  }

  /** A type has an entry exactly when some method registers for it. */
  lemma {:induction false} TableHas(methods: seq<MethodInfo>, json: bool, t: HostType)
    ensures t in Table(methods, json) <==> exists i :: 0 <= i < |methods| && RegistersFor(methods[i], json, t)
  {
    if methods != [] {
      var n := |methods| - 1;
      var front := methods[..n];
      assert t in Table(methods, json) <==> RegistersFor(methods[n], json, t) || t in Table(front, json);
      TableHas(front, json, t);
      assert forall i :: 0 <= i < n ==> methods[i] == front[i];
    }
  }

  /** The entry of a type is the routine of the last method that registers
      for it: a later registration overwrites an earlier one. */
  lemma {:induction false} TableLast(methods: seq<MethodInfo>, json: bool, t: HostType, i: int)
    requires 0 <= i < |methods| && RegistersFor(methods[i], json, t)
    requires forall k :: i < k < |methods| ==> !RegistersFor(methods[k], json, t)
    ensures t in Table(methods, json) && Table(methods, json)[t] == methods[i].routine
    decreases |methods|
  {
    var n := |methods| - 1;
    if i < n {
      var front := methods[..n];
      assert !RegistersFor(methods[n], json, t);
      assert t in Table(front, json) && Table(front, json)[t] == methods[i].routine by {
        assert forall k :: i < k < n ==> front[k] == methods[k];
        TableLast(front, json, t, i);
      }
    }
  }

  function JsonMakerInfo(t: HostType): MethodInfo
  {
    MethodInfo(Some(t), [ObjectClr], JsonObjectClr, ToJson(t))
  }

  function ObjectMakerInfo(t: HostType): MethodInfo
  {
    MethodInfo(Some(t), [JsonObjectClr], ObjectClr, ToObject(t))
  }

  /** The types with special conversions, in the order the class declares them. */
  const TYPES: seq<HostType> :=
    [RectangleType, DateTimeType, IPEndPointType, DirectoryInfoType, FileInfoType, Double2dType, UriType]

  /** A JSON maker followed by an object maker for each type of `types`. */
  function Makers(types: seq<HostType>): (ms: seq<MethodInfo>)
  {
    if types == [] then []
    else
      var t := types[|types| - 1];
      Makers(types[..|types| - 1]) + [JsonMakerInfo(t), ObjectMakerInfo(t)]
  }

  /** The non-public static methods of the class: a JSON maker and an
      object maker for each of the seven types. `GetMethods` gives them in no
      guaranteed order; the order chosen here does not matter, as no type is
      registered twice in one direction (DeclaredTable). */
  const DECLARED: seq<MethodInfo> := Makers(TYPES)

  /** The routine of `t` in the given direction. */
  function Built(t: HostType, json: bool): Routine
  {
    if json then ToJson(t) else ToObject(t)
  }

  /** The methods of Makers(types) give each type of `types` its own routine
      of each direction, and no other type an entry. */
  lemma {:induction false} MakersTable(types: seq<HostType>, json: bool)
    ensures Table(Makers(types), json) == map t | t in types :: Built(t, json)
  {
    if types != [] {
      var n := |types| - 1;
      var t := types[n];
      var prev := Makers(types[..n]);
      var ms := Makers(types);
      assert Table(ms, json) == Table(prev, json)[t := Built(t, json)] by {
        assert ms[..|ms| - 1] == prev + [JsonMakerInfo(t)];
        assert ms[..|ms| - 1][..|ms| - 2] == prev;
      }
      MakersTable(types[..n], json);
      assert forall u :: u in types <==> u in types[..n] || u == t;
    }
  }

  /** The tables built from DECLARED: each of the seven types maps to its own
      routine of the right direction, and no other type has an entry. */
  lemma DeclaredTable(json: bool, t: HostType)
    ensures t in Table(DECLARED, json) <==> !t.OtherType?
    ensures t in Table(DECLARED, json) ==> Table(DECLARED, json)[t] == Built(t, json)
  {
    MakersTable(TYPES, json);
  }

  /** The extension table of the class. */
  class DefaultTranslatorExtensions {
    var jsonMakers: map<HostType, Routine>
    var objectMakers: map<HostType, Routine>

    /** Scans the methods reflection reports and registers each one that has
        the attribute and the signature of a JSON maker or an object maker. */
    constructor ()
      ensures jsonMakers == Table(DECLARED, true) && objectMakers == Table(DECLARED, false)
    {
      var json: map<HostType, Routine> := map[];
      var obj: map<HostType, Routine> := map[];
      for i := 0 to |DECLARED|
        invariant json == Table(DECLARED[..i], true) && obj == Table(DECLARED[..i], false)
      {
        var mi := DECLARED[i];
        assert DECLARED[..i + 1][..i] == DECLARED[..i];
        if mi.serializedType.Some? {
          if |mi.parameters| != 1 {
            continue;
          }
          if mi.parameters[0] == ObjectClr && mi.returnType == JsonObjectClr {
            json := json[mi.serializedType.value := mi.routine];
          }
          if mi.parameters[0] == JsonObjectClr && mi.returnType == ObjectClr {
            obj := obj[mi.serializedType.value := mi.routine];
          }
        }
      }
      assert DECLARED[..|DECLARED|] == DECLARED;
      jsonMakers := json;
      objectMakers := obj;
    }

    /** The JSON maker registered for `t`, or None (never a failure). */
    function MakeJsonMaker(t: HostType): (r: Option<Routine>)
      reads this
      ensures r.Some? <==> t in jsonMakers
      ensures r.Some? ==> r.value == jsonMakers[t]
    {
      if t in jsonMakers then Some(jsonMakers[t]) else None
    }

    /** The object maker registered for `t`, or None (never a failure). */
    function MakeObjectMaker(t: HostType): (r: Option<Routine>)
      reads this
      ensures r.Some? <==> t in objectMakers
      ensures r.Some? ==> r.value == objectMakers[t]
    {
      if t in objectMakers then Some(objectMakers[t]) else None
    }
  }

  /** On the table the constructor builds, the lookups give the type's own
      routine for each of the seven types and None for any other type. */
  lemma DefaultLookups(x: DefaultTranslatorExtensions, t: HostType)
    requires x.jsonMakers == Table(DECLARED, true) && x.objectMakers == Table(DECLARED, false)
    ensures x.MakeJsonMaker(t) == if t.OtherType? then None else Some(ToJson(t))
    ensures x.MakeObjectMaker(t) == if t.OtherType? then None else Some(ToObject(t))
  {
    DeclaredTable(true, t);
    DeclaredTable(false, t);
  }

  // ---------------------------------------------------------------------------
  // Rectangle

  /** System.Drawing.Rectangle: `Left` is `X` and `Top` is `Y`. */
  datatype Rectangle = Rectangle(x: int32, y: int32, width: int32, height: int32)

  const COMMA: CodeUnit := ',' as CodeUnit

  /** The decimal text of each value, in order. */
  function IntTexts(values: seq<int32>): (texts: seq<Text>)
    ensures |texts| == |values|
    ensures forall k :: 0 <= k < |values| ==> texts[k] == IntText(values[k] as int)
  {
    if values == [] then [] else [IntText(values[0] as int)] + IntTexts(values[1..])
  }

  /** MakeJson_Rectangle: the string `"Left,Top,Width,Height"` in decimal. */
  function MakeJsonRectangle(r: Rectangle): (j: Json)
    ensures j.String?
    ensures Split(j.s, COMMA) == IntTexts([r.x, r.y, r.width, r.height])
  {
    var fields := IntTexts([r.x, r.y, r.width, r.height]);
    assert forall k :: 0 <= k < |fields| ==> COMMA !in fields[k] by {
      forall k | 0 <= k < |fields|
        ensures COMMA !in fields[k]
      {
        IntTextHasNo(fields[k], COMMA);
      }
    }
    SplitJoin(fields, COMMA);
    String(Join(fields, COMMA))
  }

  /** The text of an integer is a sign and digits, so it holds no other
      separator character. */
  lemma IntTextHasNo(t: Text, sep: CodeUnit)
    requires exists i :: t == IntText(i)
    requires !IsDigit(sep) && sep != '-' as CodeUnit
    ensures sep !in t
  {
    var i :| t == IntText(i);
    if i < 0 {
      assert t == ['-' as CodeUnit] + Digits(-i);
    }
  }

  /** `int.Parse` of every piece, in order, as `Select(...).ToArray()` does:
      the first piece that does not parse gives the failure. */
  function ParseAll(pieces: seq<Text>): (r: Result<seq<int32>>)
    ensures r.Ok? ==> |r.value| == |pieces| && forall k :: 0 <= k < |pieces| ==> ParseInt32(pieces[k]) == Ok(r.value[k])
  {
    if pieces == [] then Ok([])
    else
      match ParseInt32(pieces[0])
      case Err(e) => Err(e)
      case Ok(v) =>
        match ParseAll(pieces[1..])
        case Err(e) => Err(e)
        case Ok(vs) => Ok([v] + vs)
  }

  /** Piece `k` is the first of `pieces` that does not parse. */
  predicate FirstBadPiece(pieces: seq<Text>, k: int)
  {
    && 0 <= k < |pieces| && ParseInt32(pieces[k]).Err?
    && forall i :: 0 <= i < k ==> ParseInt32(pieces[i]).Ok?
  }

  /** ParseAll fails with the error of the first piece that does not parse. */
  lemma {:induction false} ParseAllFirstError(pieces: seq<Text>, k: int)
    requires FirstBadPiece(pieces, k)
    ensures ParseAll(pieces) == Err(ParseInt32(pieces[k]).error)
    decreases k
  {
    if k > 0 {
      assert ParseInt32(pieces[0]).Ok?;
      var rest := pieces[1..];
      assert FirstBadPiece(rest, k - 1) by {
        assert forall i :: 0 <= i < k - 1 ==> rest[i] == pieces[i + 1];
      }
      ParseAllFirstError(rest, k - 1);
    }
  }

  /** ParseAll succeeds when every piece parses. */
  lemma {:induction false} ParseAllSucceeds(pieces: seq<Text>)
    requires forall k :: 0 <= k < |pieces| ==> ParseInt32(pieces[k]).Ok?
    ensures ParseAll(pieces).Ok?
    decreases |pieces|
  {
    if pieces != [] {
      assert ParseInt32(pieces[0]).Ok?;
      var rest := pieces[1..];
      assert forall k :: 0 <= k < |rest| ==> rest[k] == pieces[k + 1];
      ParseAllSucceeds(rest);
    }
  }

  /** The rectangle the pieces of the split string give: every piece is
      parsed, in order (the first failure wins), and fewer than four pieces
      index past the array (RuntimeError); pieces beyond the fourth are
      parsed but otherwise ignored. */
  function RectangleOf(pieces: seq<Text>): (r: Result<Rectangle>)
    ensures r.Ok? ==>
      && |pieces| >= 4
      && ParseInt32(pieces[0]) == Ok(r.value.x)
      && ParseInt32(pieces[1]) == Ok(r.value.y)
      && ParseInt32(pieces[2]) == Ok(r.value.width)
      && ParseInt32(pieces[3]) == Ok(r.value.height)
    ensures ParseAll(pieces).Err? ==> r == Err(ParseAll(pieces).error)
    ensures ParseAll(pieces).Ok? && |pieces| < 4 ==> r == Err(RuntimeError)
    ensures ParseAll(pieces).Ok? && |pieces| >= 4 ==> r.Ok?
  {
    var parsed := ParseAll(pieces);
    if parsed.Err? then Err(parsed.error)
    else if |parsed.value| < 4 then Err(RuntimeError)
    else
      var v := parsed.value;
      Ok(Rectangle(v[0], v[1], v[2], v[3]))
  }

  /** MakeObject_Rectangle: a non-String is a FormatError; otherwise the
      string is split at every `,` and the pieces read by RectangleOf. */
  function MakeObjectRectangle(json: Json): (r: Result<Rectangle>)
    ensures !json.String? ==> r == Err(FormatError)
    ensures r.Ok? ==>
      && |Split(json.s, COMMA)| >= 4
      && ParseInt32(Split(json.s, COMMA)[0]) == Ok(r.value.x)
      && ParseInt32(Split(json.s, COMMA)[1]) == Ok(r.value.y)
      && ParseInt32(Split(json.s, COMMA)[2]) == Ok(r.value.width)
      && ParseInt32(Split(json.s, COMMA)[3]) == Ok(r.value.height)
    ensures json.String? ==> (r.Ok? <==> ParseAll(Split(json.s, COMMA)).Ok? && |Split(json.s, COMMA)| >= 4)
    ensures json.String? && ParseAll(Split(json.s, COMMA)).Err? ==> r == Err(ParseAll(Split(json.s, COMMA)).error)
    ensures json.String? && ParseAll(Split(json.s, COMMA)).Ok? && |Split(json.s, COMMA)| < 4 ==> r == Err(RuntimeError)
  {
    if !json.String? then Err(FormatError) else RectangleOf(Split(json.s, COMMA))
  }

  /** Reading back the decimal texts of some values gives those values. */
  lemma {:induction false} ParseAllIntTexts(values: seq<int32>)
    ensures ParseAll(IntTexts(values)) == Ok(values)
    decreases |values|
  {
    if values != [] {
      var texts := IntTexts(values);
      assert ParseInt32(texts[0]) == Ok(values[0]) by {
        IntTextRoundTrip(values[0]);
      }
      assert ParseAll(texts[1..]) == Ok(values[1..]) by {
        assert texts[1..] == IntTexts(values[1..]);
        ParseAllIntTexts(values[1..]);
      }
      assert [values[0]] + values[1..] == values;
    }
  }

  /** A rectangle survives the round trip through its JSON string. */
  lemma RectangleRoundTrip(r: Rectangle)
    ensures MakeObjectRectangle(MakeJsonRectangle(r)) == Ok(r)
  {
    ParseAllIntTexts([r.x, r.y, r.width, r.height]);
  }

  // ---------------------------------------------------------------------------
  // IPEndPoint

  /** An IPEndPoint: `address` is the text its ToString puts before the port. */
  datatype EndPoint = EndPoint(address: Text, port: int)

  const COLON: CodeUnit := ':' as CodeUnit

  /** The largest port number IPEndPoint accepts. */
  const MAX_PORT: int := 0xFFFF

  /** MakeJson_IPEndPoint: null gives JSON Null, an endpoint the String
      `address:port`. */
  function MakeJsonIPEndPoint(e: Option<EndPoint>): (j: Json)
    ensures e.None? <==> j.Null?
    ensures e.Some? ==>
      && j.String? && LastIndexOf(j.s, COLON) == |e.value.address|
      && j.s[..|e.value.address|] == e.value.address
      && j.s[|e.value.address| + 1..] == IntText(e.value.port)
  {
    match e
    case None => Null
    case Some(ep) =>
      var a, n := ep.address, IntText(ep.port);
      var t := a + [COLON] + n;
      assert LastIndexOf(t, COLON) == |a| by {
        IntTextHasNo(n, COLON);
        LastIndexOfBefore(a, COLON, n);
      }
      assert t[..|a|] == a && t[|a| + 1..] == n;
      String(t)
  }

  /** The last `x` of `a + [x] + b` is the one after `a` when `b` holds none. */
  lemma LastIndexOfBefore(a: Text, x: CodeUnit, b: Text)
    requires x !in b
    ensures LastIndexOf(a + [x] + b, x) == |a|
  {
    assert (a + [x] + b)[|a|] == x;
  }

  /** The endpoint a string denotes: it is split at its LAST `:` (an IPv6
      address holds colons), with no `:` a FormatError; the part after it
      must parse as an int (FormatError or, out of the 32-bit range,
      RuntimeError) and lie in 0..65535 (RuntimeError otherwise). */
  function EndPointOf(t: Text): (r: Result<EndPoint>)
    ensures COLON !in t ==> r == Err(FormatError)
    ensures r.Ok? ==>
      var i := LastIndexOf(t, COLON);
      && 0 <= i && r.value.address == t[..i]
      && 0 <= r.value.port <= MAX_PORT
      && ParseInt32(t[i + 1..]) == Ok(r.value.port as int32)
    ensures COLON in t ==>
      var i := LastIndexOf(t, COLON);
      var port := ParseInt32(t[i + 1..]);
      && (port.Err? ==> r == Err(port.error))
      && (port.Ok? && 0 <= port.value as int <= MAX_PORT ==> r == Ok(EndPoint(t[..i], port.value as int)))
      && (port.Ok? && !(0 <= port.value as int <= MAX_PORT) ==> r == Err(RuntimeError))
  {
    var i := LastIndexOf(t, COLON);
    if i < 0 then Err(FormatError)
    else
      match ParseInt32(t[i + 1..])
      case Err(e) => Err(e)
      case Ok(port) =>
        if 0 <= port as int <= MAX_PORT then Ok(EndPoint(t[..i], port as int))
        else Err(RuntimeError)
  }

  /** MakeObject_IPEndPoint: Null gives null, a String the endpoint it
      denotes; any other kind is a FormatError. */
  function MakeObjectIPEndPoint(json: Json): (r: Result<Option<EndPoint>>)
    ensures json.Null? <==> r == Ok(None)
    ensures !json.Null? && !json.String? ==> r == Err(FormatError)
    ensures json.String? && COLON !in json.s ==> r == Err(FormatError)
    ensures r.Ok? && r.value.Some? ==>
      var i := LastIndexOf(json.s, COLON);
      && json.String? && 0 <= i
      && r.value.value.address == json.s[..i]
      && 0 <= r.value.value.port <= MAX_PORT
      && ParseInt32(json.s[i + 1..]) == Ok(r.value.value.port as int32)
    ensures json.String? ==> (r.Ok? <==> EndPointOf(json.s).Ok?)
    ensures json.String? && r.Ok? ==> r.value == Some(EndPointOf(json.s).value)
    ensures json.String? && r.Err? ==> r.error == EndPointOf(json.s).error
  {
    if json.Null? then Ok(None)
    else if json.String? then
      match EndPointOf(json.s)
      case Err(e) => Err(e)
      case Ok(ep) => Ok(Some(ep))
    else Err(FormatError)
  }

  /** The text of an endpoint with a valid port denotes that endpoint,
      whatever colons the address holds. */
  lemma EndPointRoundTrip(ep: EndPoint)
    requires 0 <= ep.port <= MAX_PORT
    ensures EndPointOf(MakeJsonIPEndPoint(Some(ep)).s) == Ok(ep)
  {
    var t := MakeJsonIPEndPoint(Some(ep)).s;
    var i := |ep.address|;
    assert LastIndexOf(t, COLON) == i && t[..i] == ep.address;
    assert ParseInt32(t[i + 1..]) == Ok(ep.port as int32) by {
      IntTextRoundTrip(ep.port as int32);
    }
  }

  /** Null and every endpoint with a valid port survive the round trip. */
  lemma IPEndPointRoundTrip(e: Option<EndPoint>)
    requires e.Some? ==> 0 <= e.value.port <= MAX_PORT
    ensures MakeObjectIPEndPoint(MakeJsonIPEndPoint(e)) == Ok(e)
  {
    if e.Some? {
      EndPointRoundTrip(e.value);
    }
  }

  // ---------------------------------------------------------------------------
  // DirectoryInfo, FileInfo and Uri

  /** MakeJson_DirectoryInfo, MakeJson_FileInfo and MakeJson_Uri: null gives
      JSON Null, a value the String of its full path (its absolute URI). A
      value is represented by that text. */
  function MakeJsonPath(v: Option<Text>): (j: Json)
    ensures v.None? <==> j.Null?
    ensures v.Some? ==> j == String(v.value)
  {
    if v.None? then Null else String(v.value)
  }

  /** MakeObject_DirectoryInfo, MakeObject_FileInfo and MakeObject_Uri: Null
      gives null, a String is handed to the type's constructor `make`, and
      any other kind is a FormatError. `make` gives the full path (absolute
      URI) of the value it constructs, or its failure: an empty or invalid
      path and a relative URI are refused. */
  function MakeObjectPath(json: Json, make: Text -> Result<Text>): (r: Result<Option<Text>>)
    ensures json.Null? <==> r == Ok(None)
    ensures !json.Null? && !json.String? ==> r == Err(FormatError)
    ensures json.String? ==> (r.Ok? <==> make(json.s).Ok?)
    ensures json.String? && r.Err? ==> r.error == make(json.s).error
    ensures json.String? && r.Ok? ==> r.value == Some(make(json.s).value)
  {
    if json.Null? then Ok(None)
    else if json.String? then
      match make(json.s)
      case Err(e) => Err(e)
      case Ok(full) => Ok(Some(full))
    else Err(FormatError)
  }

  /** Every value survives the round trip, provided its constructor rebuilds
      a value from its own full path (as `new DirectoryInfo(d.FullName)`
      does). */
  lemma PathRoundTrip(v: Option<Text>, make: Text -> Result<Text>)
    requires v.Some? ==> make(v.value) == Ok(v.value)
    ensures MakeObjectPath(MakeJsonPath(v), make) == Ok(v)
  {
  }

  /** A JSON String read as a value and written back is the constructed
      value's full path, not the text read: `dir` comes back as the full
      path of `dir`. When full paths rebuild their own value, a second round
      trip changes nothing. */
  lemma PathNormalises(t: Text, make: Text -> Result<Text>)
    requires make(t).Ok?
    requires forall u :: make(u).Ok? ==> make(make(u).value) == make(u)
    ensures MakeJsonPath(MakeObjectPath(String(t), make).value) == String(make(t).value)
    ensures MakeObjectPath(MakeJsonPath(MakeObjectPath(String(t), make).value), make) == MakeObjectPath(String(t), make)
  {
  }

  // ---------------------------------------------------------------------------
  // DateTime

  const TICKS_PER_SECOND: nat := 10_000_000

  const ZERO: CodeUnit := '0' as CodeUnit

  /** `n` without its trailing decimal zeros. */
  function StripTrailingZeros(n: nat): (r: nat)
    requires n > 0
    ensures r > 0 && r % 10 != 0
    decreases n
  {
    if n % 10 == 0 then StripTrailingZeros(n / 10) else n
  }

  /** The number of digits of a fraction of a second in ticks: at most 7. */
  lemma FractionDigits(f: nat)
    requires f < TICKS_PER_SECOND
    ensures |Digits(f)| <= 7
  {
    DigitsLength(f, 7);
  }

  /** The fractional-second part MakeJson_DateTime writes for `f` ticks past
      the second: nothing for a whole second, otherwise `.`, then
      `6 - floor(log10 f)` zeros, then `f` without its trailing zeros. */
  function FractionText(f: nat): Text
    requires f < TICKS_PER_SECOND
  {
    if f == 0 then []
    else
      FractionDigits(f);
      ['.' as CodeUnit] + Zeros(7 - |Digits(f)|) + Digits(StripTrailingZeros(f))
  }

  /** MakeJson_DateTime: the time is written as `baseText` (the UTC time as
      `yyyy-MM-ddTHH:mm:ss`), the fractional-second part of its `ticks` and
      `Z`. The loop drops the trailing zeros of the fraction. */
  method MakeJsonDateTime(baseText: Text, ticks: nat) returns (j: Json)
    ensures j == String(baseText + FractionText(ticks % TICKS_PER_SECOND) + ['Z' as CodeUnit])
  {
    var fractionalSeconds := ticks % TICKS_PER_SECOND;
    var fractionalString: Text;
    if fractionalSeconds > 0 {
      FractionDigits(fractionalSeconds);
      var leadingZeros := 7 - |Digits(fractionalSeconds)|;
      ghost var f := fractionalSeconds;
      while fractionalSeconds % 10 == 0
        invariant 0 < fractionalSeconds && StripTrailingZeros(fractionalSeconds) == StripTrailingZeros(f)
        decreases fractionalSeconds
      {
        fractionalSeconds := fractionalSeconds / 10;
      }
      fractionalString := ['.' as CodeUnit] + Zeros(leadingZeros) + Digits(fractionalSeconds);
    } else {
      fractionalString := [];
    }
    j := String(baseText + fractionalString + ['Z' as CodeUnit]);
  }

  /** `t` without its trailing `0` characters. */
  function TrimZeros(t: Text): (r: Text)
    ensures |r| <= |t| && r == t[..|r|]
    ensures r != [] ==> r[|r| - 1] != ZERO
    ensures forall k :: |r| <= k < |t| ==> t[k] == ZERO
  {
    if t != [] && t[|t| - 1] == ZERO then TrimZeros(t[..|t| - 1]) else t
  }

  /** Leading text is kept when what follows is not all zeros. */
  lemma {:induction false} TrimZerosAfter(a: Text, d: Text)
    requires TrimZeros(d) != []
    ensures TrimZeros(a + d) == a + TrimZeros(d)
    decreases |d|
  {
    var n := |d| - 1;
    if d[n] == ZERO {
      assert (a + d)[..|a| + n] == a + d[..n];
      TrimZerosAfter(a, d[..n]);
    }
  }

  /** Dropping the trailing zero digits of a number drops the trailing `0`s
      of its text. */
  lemma {:induction false} StripIsTrim(n: nat)
    requires n > 0
    ensures Digits(StripTrailingZeros(n)) == TrimZeros(Digits(n))
    decreases n
  {
    if n % 10 == 0 {
      assert Digits(n) == Digits(n / 10) + [ZERO];
      assert Digits(n)[..|Digits(n)| - 1] == Digits(n / 10);
      StripIsTrim(n / 10);
    } else {
      var t := Digits(n);
      assert t[|t| - 1] == DigitChar(n % 10);
    }
  }

  /** The seven-digit, zero-padded decimal rendering of a fraction of a
      second in ticks. */
  function Pad7(f: nat): (t: Text)
    requires f < TICKS_PER_SECOND
    ensures |t| == 7
  {
    FractionDigits(f);
    Zeros(7 - |Digits(f)|) + Digits(f)
  }

  /** The padded rendering is all digits and denotes the fraction. */
  lemma Pad7Value(f: nat)
    requires f < TICKS_PER_SECOND
    ensures AllDigits(Pad7(f)) && DigitsValue(Pad7(f)) == f
  {
    FractionDigits(f);
    DigitsValueLeadingZeros(7 - |Digits(f)|, Digits(f));
    DigitsRoundTrip(f);
  }

  /** The fractional part is `.` and at most seven digits, the last of which
      is not `0`: the seven-digit fraction with its trailing zeros removed. */
  lemma FractionTextShape(f: nat)
    requires 0 < f < TICKS_PER_SECOND
    ensures 2 <= |FractionText(f)| <= 8 && FractionText(f)[|FractionText(f)| - 1] != ZERO
    ensures FractionText(f)[1..] == Pad7(f)[..|FractionText(f)| - 1]
  {
    FractionTextIsTrimmedPad(f);
    var trimmed := TrimZeros(Pad7(f));
    assert trimmed != [] by {
      StripIsTrim(f);
      TrimZerosAfter(Zeros(7 - |Digits(f)|), Digits(f));
    }
    assert FractionText(f)[1..] == trimmed;
  }

  /** The fractional part is `.` and the seven-digit fraction with its
      trailing zeros removed. */
  lemma FractionTextIsTrimmedPad(f: nat)
    requires 0 < f < TICKS_PER_SECOND
    ensures FractionText(f) == ['.' as CodeUnit] + TrimZeros(Pad7(f))
  {
    FractionDigits(f);
    var k := 7 - |Digits(f)|;
    var dot: Text := ['.' as CodeUnit];
    var tail := Digits(StripTrailingZeros(f));
    assert TrimZeros(Pad7(f)) == Zeros(k) + tail by {
      StripIsTrim(f);
      TrimZerosAfter(Zeros(k), Digits(f));
    }
    assert FractionText(f) == dot + Zeros(k) + tail;
    assert dot + Zeros(k) + tail == dot + (Zeros(k) + tail);
  }

  /** A fractional-second part as written: empty, or `.` and one to seven
      digits. */
  predicate IsFractionText(t: Text)
  {
    t == [] || (2 <= |t| <= 8 && t[0] == '.' as CodeUnit && AllDigits(t[1..]))
  }

  /** The ticks a fractional-second part denotes when it is read back:
      nothing is 0, otherwise the digits after the `.`, padded on the right
      with zeros to seven places. */
  function FractionValue(t: Text): nat
    requires IsFractionText(t)
  {
    if t == [] then 0 else DigitsValue(t[1..] + Zeros(8 - |t|))
  }

  /** Reading back the fractional part written for `f` ticks gives `f`: the
      trailing zeros the writer drops are exactly those padding restores. */
  lemma FractionRoundTrip(f: nat)
    requires f < TICKS_PER_SECOND
    ensures IsFractionText(FractionText(f)) && FractionValue(FractionText(f)) == f
  {
    if f > 0 {
      FractionTextIsTrimmedPad(f);
      Pad7Value(f);
      var p := Pad7(f);
      var trimmed := TrimZeros(p);
      assert FractionText(f)[1..] == trimmed;
      assert AllDigits(trimmed) by {
        assert forall k :: 0 <= k < |trimmed| ==> trimmed[k] == p[k];
      }
      assert 1 <= |trimmed| by {
        FractionTextShape(f);
      }
      var padded := trimmed + Zeros(7 - |trimmed|);
      assert padded == p by {
        assert |padded| == |p|;
        forall k | 0 <= k < |p|
          ensures padded[k] == p[k]
        {
          if k >= |trimmed| {
            assert padded[k] == Zeros(7 - |trimmed|)[k - |trimmed|] == ZERO;
          }
        }
      }
    }
  }

  /** A whole second has no fractional part. */
  lemma WholeSecond(ticks: nat)
    requires ticks % TICKS_PER_SECOND == 0
    ensures FractionText(ticks % TICKS_PER_SECOND) == []
  {
  }

  /** MakeObject_DateTime: a String is handed to DateTime.Parse (here the
      parameter `parse`); any other kind is a FormatError. */
  function MakeObjectDateTime<T>(json: Json, parse: Text -> Result<T>): (r: Result<T>)
    ensures !json.String? ==> r == Err(FormatError)
    ensures json.String? ==> r == parse(json.s)
  {
    if json.String? then parse(json.s) else Err(FormatError)
  }

  // ---------------------------------------------------------------------------
  // double[,]

  /** A matrix element. The doubles are not interpreted: each element is
      kept as the number text it is written as. */
  type Element = Text

  /** Multiplication by a natural number is monotone. */
  lemma {:induction false} MulMonotone(a: nat, b: nat, m: nat)
    requires a <= b
    ensures a * m <= b * m
    decreases b - a
  {
    if a < b {
      MulMonotone(a, b - 1, m);
    }
  }

  /** Row `i` of a matrix. */
  ghost function Row(a: array2<Element>, i: nat): (r: seq<Element>)
    requires i < a.Length0
    reads a
    ensures |r| == a.Length1 && forall j :: 0 <= j < a.Length1 ==> r[j] == a[i, j]
  {
    seq(a.Length1, j requires 0 <= j < a.Length1 reads a => a[i, j])
  }

  /** The first `i` rows of a matrix, one after the other. */
  ghost function RowsBefore(a: array2<Element>, i: nat): (c: seq<Element>)
    requires i <= a.Length0
    reads a
    ensures |c| == i * a.Length1
  {
    if i == 0 then [] else RowsBefore(a, i - 1) + Row(a, i - 1)
  }

  /** The elements of `a` in row-major order, as Buffer.BlockCopy sees them. */
  ghost function Cells(a: array2<Element>): (c: seq<Element>)
    reads a
    ensures |c| == a.Length0 * a.Length1
  {
    RowsBefore(a, a.Length0)
  }

  /** Element `(i, j)` lies at position `i * m + j` of the first `r` rows
      whenever row `i` is among them. */
  lemma {:induction false} RowsBeforeAt(a: array2<Element>, r: nat, i: nat, j: nat)
    requires i < r <= a.Length0 && j < a.Length1
    ensures i * a.Length1 + j < r * a.Length1
    ensures RowsBefore(a, r)[i * a.Length1 + j] == a[i, j]
    decreases r
  {
    var m := a.Length1;
    if i < r - 1 {
      RowsBeforeAt(a, r - 1, i, j);
      MulMonotone(r - 1, r, m);
    } else {
      assert RowsBefore(a, r) == RowsBefore(a, r - 1) + Row(a, r - 1);
    }
  }

  /** Element `(i, j)` of a matrix is at position `i * columns + j` of its
      cells: the flattening is row-major. */
  lemma CellsAt(a: array2<Element>, i: nat, j: nat)
    requires i < a.Length0 && j < a.Length1
    ensures i * a.Length1 + j < |Cells(a)|
    ensures Cells(a)[i * a.Length1 + j] == a[i, j]
  {
    RowsBeforeAt(a, a.Length0, i, j);
  }

  /** The first `n` rows of `m` elements each that `v` holds in row-major order. */
  function Chunks(v: seq<Element>, m: nat, n: nat): (rows: seq<seq<Element>>)
    requires n * m <= |v|
    ensures |rows| == n && forall i :: 0 <= i < n ==> |rows[i]| == m
  {
    if n == 0 then []
    else
      assert (n - 1) * m == n * m - m;
      Chunks(v, m, n - 1) + [v[(n - 1) * m..n * m]]
  }

  /** Row `i` of the chunks starts at element `i * m`. */
  lemma {:induction false} ChunkAt(v: seq<Element>, m: nat, n: nat, i: nat)
    requires n * m <= |v| && i < n
    ensures i * m + m <= |v| && Chunks(v, m, n)[i] == v[i * m..i * m + m]
    decreases n
  {
    assert (n - 1) * m == n * m - m;
    if i < n - 1 {
      ChunkAt(v, m, n - 1, i);
    }
  }

  /** The rows of a matrix that agree with the chunks, one after the other, are
      the first elements of `v`. */
  lemma {:induction false} RowsOfChunks(a: array2<Element>, v: seq<Element>, r: nat)
    requires r <= a.Length0 && a.Length0 * a.Length1 <= |v|
    requires forall i, j :: 0 <= i < a.Length0 && 0 <= j < a.Length1 ==> a[i, j] == Chunks(v, a.Length1, a.Length0)[i][j]
    ensures r * a.Length1 <= |v| && RowsBefore(a, r) == v[..r * a.Length1]
    decreases r
  {
    var m := a.Length1;
    MulMonotone(r, a.Length0, m);
    if r > 0 {
      RowsOfChunks(a, v, r - 1);
      ChunkAt(v, m, a.Length0, r - 1);
      assert (r - 1) * m + m == r * m;
      assert Row(a, r - 1) == v[(r - 1) * m..r * m];
    }
  }

  const N_KEY: Text := ['N' as CodeUnit]
  const M_KEY: Text := ['M' as CodeUnit]
  const V_KEY: Text := ['V' as CodeUnit]

  /** Each element as a JSON number. */
  function Numbers(v: seq<Element>): (js: seq<Json>)
    ensures |js| == |v| && forall k :: 0 <= k < |v| ==> js[k] == Number(v[k])
  {
    seq(|v|, k requires 0 <= k < |v| => Number(v[k]))
  }

  /** The JSON object for an `n` by `m` matrix with row-major elements `v`:
      `N` and `M` hold the dimensions, `V` the elements. */
  function MatrixJson(n: nat, m: nat, v: seq<Element>): Json
  {
    Object(map[N_KEY := Number(IntText(n)), M_KEY := Number(IntText(m)), V_KEY := Array(Numbers(v))])
  }

  /** MakeJson_Double2d: null gives JSON Null; a matrix gives its dimensions
      and its elements copied out in row-major order. */
  method MakeJsonDouble2d(matrix: array2?<Element>) returns (j: Json)
    ensures matrix == null ==> j == Null
    ensures matrix != null ==> j == MatrixJson(matrix.Length0, matrix.Length1, Cells(matrix))
  {
    if matrix == null {
      return Null;
    }
    var n, m := matrix.Length0, matrix.Length1;
    var v: seq<Element> := [];
    for i := 0 to n
      invariant v == RowsBefore(matrix, i)
    {
      for j := 0 to m
        invariant v == RowsBefore(matrix, i) + Row(matrix, i)[..j]
      {
        v := v + [matrix[i, j]];
      }
    }
    j := MatrixJson(n, m, v);
  }

  /** `(int)json.Number`: the whole part of a JSON number; reading `Number` of
      another kind fails. */
  function IntOf(json: Json): (r: Result<int>)
    ensures !json.Number? ==> r == Err(RuntimeError)
    ensures json.Number? ==> r == NumberToInt(json.lexeme)
  {
    if json.Number? then NumberToInt(json.lexeme) else Err(RuntimeError)
  }

  /** The elements of a JSON array of numbers; any other element fails. */
  function ElementsOf(items: seq<Json>): (r: Result<seq<Element>>)
    ensures r.Ok? <==> forall k :: 0 <= k < |items| ==> items[k].Number?
    ensures r.Ok? ==> |r.value| == |items| && forall k :: 0 <= k < |items| ==> items[k] == Number(r.value[k])
  {
    if items == [] then Ok([])
    else if !items[0].Number? then Err(RuntimeError)
    else
      match ElementsOf(items[1..])
      case Err(e) => Err(e)
      case Ok(rest) => Ok([items[0].lexeme] + rest)
  }

  /** What MakeObject_Double2d reads from `json`, in its order: Null gives
      None; an object gives the dimensions from `N` and `M` and the elements
      of `V` (a missing key or a value of the wrong kind fails); a negative
      dimension fails when the matrix is allocated, and fewer elements than
      `n * m` when they are block-copied in; any other kind is a FormatError. */
  function MatrixOf(json: Json): (r: Result<Option<(nat, nat, seq<Element>)>>)
    ensures json.Null? <==> r == Ok(None)
    ensures !json.Null? && !json.Object? ==> r == Err(FormatError)
    ensures r.Ok? && r.value.Some? ==> |r.value.value.2| >= r.value.value.0 * r.value.value.1
    ensures r.Ok? && r.value.Some? ==>
      && json.Object?
      && N_KEY in json.members && IntOf(json.members[N_KEY]) == Ok(r.value.value.0)
      && M_KEY in json.members && IntOf(json.members[M_KEY]) == Ok(r.value.value.1)
      && V_KEY in json.members && json.members[V_KEY].Array?
      && ElementsOf(json.members[V_KEY].items) == Ok(r.value.value.2)
    ensures (&& json.Object?
             && N_KEY in json.members && IntOf(json.members[N_KEY]).Ok? && IntOf(json.members[N_KEY]).value >= 0
             && M_KEY in json.members && IntOf(json.members[M_KEY]).Ok? && IntOf(json.members[M_KEY]).value >= 0
             && V_KEY in json.members && json.members[V_KEY].Array?
             && ElementsOf(json.members[V_KEY].items).Ok?
             && |ElementsOf(json.members[V_KEY].items).value|
                  >= IntOf(json.members[N_KEY]).value * IntOf(json.members[M_KEY]).value) ==>
            r == Ok(Some((IntOf(json.members[N_KEY]).value, IntOf(json.members[M_KEY]).value,
                          ElementsOf(json.members[V_KEY].items).value)))
    ensures json.Object? && (N_KEY !in json.members || M_KEY !in json.members || V_KEY !in json.members) ==> r.Err?
  {
    if json.Null? then Ok(None)
    else if !json.Object? then Err(FormatError)
    else
      var jmat := json.members;
      if N_KEY !in jmat then Err(RuntimeError)
      else match IntOf(jmat[N_KEY])
      case Err(e) => Err(e)
      case Ok(n) =>
        if M_KEY !in jmat then Err(RuntimeError)
        else match IntOf(jmat[M_KEY])
        case Err(e) => Err(e)
        case Ok(m) =>
          if V_KEY !in jmat || !jmat[V_KEY].Array? then Err(RuntimeError)
          else match ElementsOf(jmat[V_KEY].items)
          case Err(e) => Err(e)
          case Ok(v) =>
            if n < 0 || m < 0 then Err(RuntimeError)
            else if |v| < n * m then Err(RuntimeError)
            else Ok(Some((n, m, v)))
  }

  /** MakeObject_Double2d: allocates the `n` by `m` matrix and block-copies the
      first `n * m` elements into it in row-major order. */
  method MakeObjectDouble2d(json: Json) returns (r: Result<array2?<Element>>)
    ensures MatrixOf(json).Err? ==> r == Err(MatrixOf(json).error)
    ensures MatrixOf(json) == Ok(None) ==> r == Ok(null)
    ensures MatrixOf(json).Ok? && MatrixOf(json).value.Some? ==>
      && r.Ok? && r.value != null && fresh(r.value)
      && Holds(r.value, MatrixOf(json).value.value)
  {
    var spec := MatrixOf(json);
    if spec.Err? {
      return Err(spec.error);
    }
    if spec.value.None? {
      return Ok(null);
    }
    var mat := NewMatrix(spec.value.value);
    r := Ok(mat);
  }

  /** `mat` is the `n` by `m` matrix whose cells, row by row, are the first
      `n * m` elements of `v`. */
  ghost predicate Holds(mat: array2<Element>, spec: (nat, nat, seq<Element>))
    reads mat
  {
    && mat.Length0 == spec.0 && mat.Length1 == spec.1
    && spec.0 * spec.1 <= |spec.2| && Cells(mat) == spec.2[..spec.0 * spec.1]
  }

  /** `new double[n, m]` followed by the block copy of `v` into it: element
      `(i, j)` receives `v[i * m + j]`. */
  method NewMatrix(spec: (nat, nat, seq<Element>)) returns (mat: array2<Element>)
    requires |spec.2| >= spec.0 * spec.1
    ensures fresh(mat) && Holds(mat, spec)
  {
    var (n, m, v) := spec;
    mat := new Element[n, m];
    ghost var rows := Chunks(v, m, n);
    for i := 0 to n
      invariant forall i', j' :: 0 <= i' < i && 0 <= j' < m ==> mat[i', j'] == rows[i'][j']
    {
      var base := i * m;
      ChunkAt(v, m, n, i);
      for j := 0 to m
        invariant forall i', j' :: 0 <= i' < i && 0 <= j' < m ==> mat[i', j'] == rows[i'][j']
        invariant forall j' :: 0 <= j' < j ==> mat[i, j'] == rows[i][j']
      {
        mat[i, j] := v[base + j];
      }
    }
    RowsOfChunks(mat, v, n);
  }

  /** A matrix written by MatrixJson reads back with the same dimensions and
      elements. */
  lemma MatrixRoundTrip(n: nat, m: nat, v: seq<Element>)
    requires |v| == n * m
    ensures MatrixOf(MatrixJson(n, m, v)) == Ok(Some((n, m, v)))
  {
    NumberToIntOfIntText(n);
    NumberToIntOfIntText(m);
    var items := Numbers(v);
    assert ElementsOf(items).value == v;
  }

  /** Two matrices of the same shape with the same cells are equal element
      by element: the flattening loses nothing. */
  lemma SameCells(a: array2<Element>, b: array2<Element>)
    requires a.Length0 == b.Length0 && a.Length1 == b.Length1 && Cells(a) == Cells(b)
    ensures forall i, j :: 0 <= i < a.Length0 && 0 <= j < a.Length1 ==> a[i, j] == b[i, j]
  {
    forall i, j | 0 <= i < a.Length0 && 0 <= j < a.Length1
      ensures a[i, j] == b[i, j]
    {
      CellsAt(a, i, j);
      CellsAt(b, i, j);
    }
  }

  /** Writing a matrix with MakeJson_Double2d and reading the JSON back with
      MakeObject_Double2d gives a new matrix equal to the first. */
  method Double2dRoundTrip(a: array2<Element>) returns (b: array2?<Element>)
    ensures b != null && fresh(b) && b.Length0 == a.Length0 && b.Length1 == a.Length1
    ensures forall i, j :: 0 <= i < a.Length0 && 0 <= j < a.Length1 ==> b[i, j] == a[i, j]
  {
    var json := MakeJsonDouble2d(a);
    MatrixRoundTrip(a.Length0, a.Length1, Cells(a));
    var r := MakeObjectDouble2d(json);
    b := r.value;
    assert Cells(a)[..a.Length0 * a.Length1] == Cells(a);
    SameCells(a, b);
  }
}
