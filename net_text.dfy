/** The .NET string and number-text routines the core relies on:
    `IndexOf`, `LastIndexOf`, `Split(char)`, `int.ToString()`, `int.Parse`
    (decimal and hexadecimal styles) and the `(int)` cast of a parsed number.
    Cultures other than the invariant culture are not modelled. */
module NetText {
  import opened JsonValues

  /** A 32-bit signed integer (.NET `int`). */
  newtype int32 = x: int | -0x8000_0000 <= x < 0x8000_0000

  // ---------------------------------------------------------------------------
  // Searching and splitting

  /** `s.IndexOf(x)`: the first position of `x`, or -1. */
  function IndexOf<T(==)>(s: seq<T>, x: T): (i: int)
    ensures -1 <= i < |s|
    ensures i < 0 <==> x !in s
    ensures 0 <= i ==> s[i] == x && x !in s[..i]
  {
    if s == [] then -1
    else if s[0] == x then 0
    else
      var j := IndexOf(s[1..], x);
      assert s[1..][..if j < 0 then 0 else j] == s[1..1 + if j < 0 then 0 else j];
      if j < 0 then -1 else j + 1
  }

  /** `s.LastIndexOf(x)`: the last position of `x`, or -1. */
  function LastIndexOf<T(==)>(s: seq<T>, x: T): (i: int)
    ensures -1 <= i < |s|
    ensures i < 0 <==> x !in s
    ensures 0 <= i ==> s[i] == x && x !in s[i + 1..]
  {
    if s == [] then -1
    else if s[|s| - 1] == x then |s| - 1
    else
      var j := LastIndexOf(s[..|s| - 1], x);
      assert s == s[..|s| - 1] + [s[|s| - 1]];
      assert 0 <= j ==> s[j + 1..] == s[..|s| - 1][j + 1..] + [s[|s| - 1]];
      j
  }

  /** A position holding `x` with no `x` before it is the one IndexOf finds. */
  lemma {:induction false} IndexOfFirst<T>(s: seq<T>, x: T, i: nat)
    requires i < |s| && s[i] == x && x !in s[..i]
    ensures IndexOf(s, x) == i
  {
    if i > 0 {
      assert s[0] == s[..i][0];
      assert s[1..][..i - 1] == s[..i][1..];
      IndexOfFirst(s[1..], x, i - 1);
    }
  }

  /** `t.Split(sep)`: the pieces between occurrences of `sep`, empty pieces
      included, so there is always one more piece than separators. */
  function Split(t: Text, sep: CodeUnit): (parts: seq<Text>)
    decreases |t|
    ensures |parts| >= 1 && Join(parts, sep) == t
  {
    var i := IndexOf(t, sep);
    if i < 0 then [t]
    else
      var rest := Split(t[i + 1..], sep);
      assert ([t[..i]] + rest)[1..] == rest;
      assert t == t[..i] + [sep] + t[i + 1..];
      [t[..i]] + rest
  }

  /** No piece of a split holds the separator. */
  lemma {:induction false} SplitPieces(t: Text, sep: CodeUnit)
    ensures forall k :: 0 <= k < |Split(t, sep)| ==> sep !in Split(t, sep)[k]
    decreases |t|
  {
    var i := IndexOf(t, sep);
    if i >= 0 {
      var parts := Split(t, sep);
      var rest := Split(t[i + 1..], sep);
      assert parts == [t[..i]] + rest;
      assert forall k :: 0 <= k < |rest| ==> sep !in rest[k] by {
        SplitPieces(t[i + 1..], sep);
      }
      forall k | 0 <= k < |parts|
        ensures sep !in parts[k]
      {
        if k > 0 {
          assert parts[k] == rest[k - 1];
        }
      }
    }
  }

  /** The pieces joined with `sep` between them (the inverse of Split). */
  function Join(parts: seq<Text>, sep: CodeUnit): Text
    requires |parts| >= 1
  {
    if |parts| == 1 then parts[0] else parts[0] + [sep] + Join(parts[1..], sep)
  }

  /** Splitting a joined text gives back the pieces, provided no piece holds
      the separator. */
  lemma {:induction false} SplitJoin(parts: seq<Text>, sep: CodeUnit)
    requires |parts| >= 1
    requires forall k :: 0 <= k < |parts| ==> sep !in parts[k]
    ensures Split(Join(parts, sep), sep) == parts
  {
    if |parts| > 1 {
      var rest := Join(parts[1..], sep);
      assert Split(rest, sep) == parts[1..] by {
        SplitJoin(parts[1..], sep);
      }
      assert Split(parts[0] + [sep] + rest, sep) == [parts[0]] + Split(rest, sep) by {
        SplitAfterPiece(parts[0], sep, rest);
      }
      assert parts == [parts[0]] + parts[1..];
    }
  }

  /** A piece free of the separator, followed by the separator, splits off
      as the first piece. */
  lemma SplitAfterPiece(a: Text, sep: CodeUnit, b: Text)
    requires sep !in a
    ensures Split(a + [sep] + b, sep) == [a] + Split(b, sep)
  {
    var t := a + [sep] + b;
    assert t[..|a|] == a && t[|a| + 1..] == b;
    IndexOfFirst(t, sep, |a|);
  }

  // ---------------------------------------------------------------------------
  // Decimal text

  predicate IsDigit(u: CodeUnit) { '0' as CodeUnit <= u <= '9' as CodeUnit }

  predicate AllDigits(t: Text) { forall k :: 0 <= k < |t| ==> IsDigit(t[k]) }

  function DigitChar(d: nat): (u: CodeUnit)
    requires d < 10
    ensures IsDigit(u)
  {
    ('0' as int + d) as CodeUnit
  }

  /** The shortest decimal rendering of `n`. */
  function Digits(n: nat): (t: Text)
    decreases n
    ensures |t| >= 1 && AllDigits(t)
  {
    if n < 10 then [DigitChar(n)] else Digits(n / 10) + [DigitChar(n % 10)]
  }

  /** The value of a run of decimal digits (0 for the empty run). */
  function DigitsValue(t: Text): nat
    requires AllDigits(t)
  {
    if t == [] then 0
    else DigitsValue(t[..|t| - 1]) * 10 + (t[|t| - 1] as int - '0' as int)
  }

  lemma {:induction false} DigitsRoundTrip(n: nat)
    ensures DigitsValue(Digits(n)) == n
  {
    if n >= 10 {
      var t := Digits(n);
      assert t[..|t| - 1] == Digits(n / 10);
      DigitsRoundTrip(n / 10);
    }
  }

  /** Leading zeros do not change the value of a run of digits. */
  lemma {:induction false} DigitsValueLeadingZeros(k: nat, t: Text)
    requires AllDigits(t)
    ensures AllDigits(Zeros(k) + t) && DigitsValue(Zeros(k) + t) == DigitsValue(t)
    decreases |t|
  {
    var z := Zeros(k) + t;
    if t == [] {
      assert z == Zeros(k);
      ZerosValue(k);
    } else {
      assert z[..|z| - 1] == Zeros(k) + t[..|t| - 1];
      DigitsValueLeadingZeros(k, t[..|t| - 1]);
    }
  }

  function Pow10(k: nat): (p: nat)
    ensures p >= 1
  {
    if k == 0 then 1 else 10 * Pow10(k - 1)
  }

  /** A number below 10^k has at most k digits. */
  lemma {:induction false} DigitsLength(n: nat, k: nat)
    requires 1 <= k && n < Pow10(k)
    ensures |Digits(n)| <= k
    decreases k
  {
    if n >= 10 {
      DigitsLength(n / 10, k - 1);
    }
  }

  /** A run of `k` zero digits. */
  function Zeros(k: nat): (t: Text)
    ensures |t| == k && AllDigits(t)
    ensures forall i :: 0 <= i < k ==> t[i] == '0' as CodeUnit
  {
    if k == 0 then [] else Zeros(k - 1) + ['0' as CodeUnit]
  }

  lemma {:induction false} ZerosValue(k: nat)
    ensures DigitsValue(Zeros(k)) == 0
  {
    if k > 0 {
      assert Zeros(k)[..k - 1] == Zeros(k - 1);
      ZerosValue(k - 1);
    }
  }

  /** `i.ToString()` in the invariant culture. */
  function IntText(i: int): (t: Text)
    ensures |t| >= 1
  {
    if i < 0 then ['-' as CodeUnit] + Digits(-i) else Digits(i)
  }

  /** The white space .NET number parsing skips before and after the digits. */
  predicate IsNumberWhite(u: CodeUnit) { u == 0x20 || 0x09 <= u <= 0x0D }

  function TrimStart(t: Text): (r: Text)
    ensures r != [] ==> !IsNumberWhite(r[0])
  {
    if t != [] && IsNumberWhite(t[0]) then TrimStart(t[1..]) else t
  }

  function TrimEnd(t: Text): (r: Text)
    ensures r != [] ==> !IsNumberWhite(r[|r| - 1])
  {
    if t != [] && IsNumberWhite(t[|t| - 1]) then TrimEnd(t[..|t| - 1]) else t
  }

  /** `t` without the NUL characters (U+0000) at its end: .NET number parsing
      accepts any number of them after the number and its trailing white
      space. */
  function TrimTrailingNuls(t: Text): (r: Text)
    ensures |r| <= |t| && r == t[..|r|]
    ensures r != [] ==> r[|r| - 1] != 0
    ensures forall k :: |r| <= k < |t| ==> t[k] == 0
  {
    if t != [] && t[|t| - 1] == 0 then TrimTrailingNuls(t[..|t| - 1]) else t
  }

  /** The part of `t` that .NET number parsing reads as the number: the text
      without its trailing NULs, then without the white space around it. */
  function NumberBody(t: Text): Text
  {
    TrimEnd(TrimStart(TrimTrailingNuls(t)))
  }

  /** A decimal integer text: an optional sign, then one or more digits. */
  predicate IsIntegerText(u: Text)
  {
    if |u| > 0 && (u[0] == '-' as CodeUnit || u[0] == '+' as CodeUnit) then u[1..] != [] && AllDigits(u[1..])
    else u != [] && AllDigits(u)
  }

  /** The value a decimal integer text denotes, its sign applied. */
  function SignedValue(u: Text): int
    requires IsIntegerText(u)
  {
    if u[0] == '-' as CodeUnit then -(DigitsValue(u[1..]) as int)
    else if u[0] == '+' as CodeUnit then DigitsValue(u[1..])
    else DigitsValue(u)
  }

  /** `int.Parse(t)` (style Integer: surrounding white space and one leading
      sign allowed): FormatError when no digits or a stray character,
      RuntimeError (OverflowException) outside the 32-bit range. */
  function ParseInt32(t: Text): (r: Result<int32>)
    ensures r.Ok? ==> IsIntegerText(NumberBody(t))
    ensures r.Err? ==> (r.error == FormatError <==> !IsIntegerText(NumberBody(t)))
    ensures r.Err? ==> r.error in {FormatError, RuntimeError}
    ensures IsIntegerText(NumberBody(t)) ==>
              && (r.Ok? <==> -0x8000_0000 <= SignedValue(NumberBody(t)) < 0x8000_0000)
              && (r.Ok? ==> r.value as int == SignedValue(NumberBody(t)))
    ensures AllDigits(NumberBody(t)) && NumberBody(t) != [] && DigitsValue(NumberBody(t)) < 0x8000_0000 ==>
              r == Ok(DigitsValue(NumberBody(t)) as int32)
  {
    var u := NumberBody(t);
    var signed := |u| > 0 && (u[0] == '-' as CodeUnit || u[0] == '+' as CodeUnit);
    var d := if signed then u[1..] else u;
    if d == [] || !AllDigits(d) then Err(FormatError)
    else
      var v: int := if signed && u[0] == '-' as CodeUnit then -(DigitsValue(d) as int) else DigitsValue(d);
      if -0x8000_0000 <= v < 0x8000_0000 then Ok(v as int32) else Err(RuntimeError)
  }

  /** Rendering a 32-bit integer and parsing it back gives the integer. */
  lemma IntTextRoundTrip(i: int32)
    ensures ParseInt32(IntText(i as int)) == Ok(i)
  {
    var n := i as int;
    var t := IntText(n);
    assert NumberBody(t) == t by {
      assert TrimTrailingNuls(t) == t;
      assert !IsNumberWhite(t[0]) && !IsNumberWhite(t[|t| - 1]);
      assert TrimStart(t) == t;
    }
    if n < 0 {
      var d := Digits(-n);
      assert t[0] == '-' as CodeUnit && t[1..] == d;
      assert AllDigits(d) && DigitsValue(d) == -n by {
        DigitsRoundTrip(-n);
      }
    } else {
      assert t == Digits(n) && IsDigit(t[0]);
      assert AllDigits(t) && DigitsValue(t) == n by {
        DigitsRoundTrip(n);
      }
    }
  }

  /** `(int)` of the double a number lexeme denotes: the whole part, truncated
      toward zero. A lexeme without digits (what `double.Parse` refuses) is a
      FormatError. */
  function NumberToInt(lexeme: Text): (r: Result<int>)
    ensures r.Err? ==> r.error == FormatError
  {
    var negative := |lexeme| > 0 && lexeme[0] == '-' as CodeUnit;
    match WholePart(if negative then lexeme[1..] else lexeme)
    case Err(e) => Err(e)
    case Ok(w) => Ok(if negative then -(w as int) else w)
  }

  /** The whole part of an unsigned number text: the digits before its
      first `.`; a stray character or no digit at all is a FormatError. */
  function WholePart(body: Text): (r: Result<nat>)
    ensures r.Err? ==> r.error == FormatError
  {
    var i := IndexOf(body, '.' as CodeUnit);
    var whole := if i < 0 then body else body[..i];
    var fraction := if i < 0 then [] else body[i + 1..];
    if !AllDigits(whole) || !AllDigits(fraction) || whole + fraction == [] then Err(FormatError)
    else Ok(DigitsValue(whole))
  }

  /** A lexeme without digits fails; a lexeme of plain digits reads as their
      value. */
  lemma NumberToIntDigits(lexeme: Text)
    ensures (|| lexeme == [] || lexeme == ['-' as CodeUnit] || lexeme == ['.' as CodeUnit]
             || lexeme == ['-' as CodeUnit, '.' as CodeUnit]) ==> NumberToInt(lexeme).Err?
    ensures lexeme != [] && AllDigits(lexeme) ==> NumberToInt(lexeme) == Ok(DigitsValue(lexeme))
  {
    if lexeme != [] && AllDigits(lexeme) {
      assert !IsDigit('-' as CodeUnit) && !IsDigit('.' as CodeUnit);
      assert IndexOf(lexeme, '.' as CodeUnit) < 0;
    } else if lexeme == ['-' as CodeUnit, '.' as CodeUnit] {
      assert lexeme[1..] == ['.' as CodeUnit];
    }
  }

  /** The lexeme of an optional `-`, the digits `whole` and, when `point`
      holds, a `.` and the digits `fraction`. */
  function NumberText(negative: bool, whole: Text, point: bool, fraction: Text): Text
  {
    var unsigned := UnsignedText(whole, point, fraction);
    if negative then ['-' as CodeUnit] + unsigned else unsigned
  }

  /** The digits `whole` and, when `point` holds, a `.` and the digits
      `fraction`. */
  function UnsignedText(whole: Text, point: bool, fraction: Text): Text
  {
    if point then whole + ['.' as CodeUnit] + fraction else whole
  }

  /** `(int)` truncates toward zero: a number with at least one digit reads
      as its whole part with its sign, whatever its fraction (`-1.5` is -1,
      `2.9` is 2, `-0.5` is 0, `.5` is 0). */
  lemma NumberToIntTruncates(negative: bool, whole: Text, point: bool, fraction: Text)
    requires AllDigits(whole) && AllDigits(fraction) && whole + fraction != []
    requires !point ==> fraction == []
    ensures NumberToInt(NumberText(negative, whole, point, fraction))
              == Ok(if negative then -(DigitsValue(whole) as int) else DigitsValue(whole))
  {
    var body := UnsignedText(whole, point, fraction);
    WholePartOf(whole, point, fraction);
    assert body != [] && body[0] != '-' as CodeUnit by {
      if whole != [] {
        assert body[0] == whole[0] && IsDigit(whole[0]);
      } else {
        assert point && body[0] == '.' as CodeUnit;
      }
    }
    if negative {
      NumberToIntSigned(body);
    }
  }

  /** A leading `-` negates the whole part. */
  lemma NumberToIntSigned(body: Text)
    ensures NumberToInt(['-' as CodeUnit] + body)
              == match WholePart(body) case Err(e) => Err(e) case Ok(w) => Ok(-(w as int))
  {
    assert (['-' as CodeUnit] + body)[1..] == body;
  }

  /** The whole part of digits, a `.` and digits is the digits before the `.`. */
  lemma WholePartOf(whole: Text, point: bool, fraction: Text)
    requires AllDigits(whole) && AllDigits(fraction) && whole + fraction != []
    requires !point ==> fraction == []
    ensures WholePart(UnsignedText(whole, point, fraction)) == Ok(DigitsValue(whole))
  {
    if point {
      WholePartPoint(whole, fraction);
    } else {
      NoDotInDigits(whole);
    }
  }

  lemma WholePartPoint(whole: Text, fraction: Text)
    requires AllDigits(whole) && AllDigits(fraction) && whole + fraction != []
    ensures WholePart(whole + ['.' as CodeUnit] + fraction) == Ok(DigitsValue(whole))
  {
    var body := whole + ['.' as CodeUnit] + fraction;
    DotAfterDigits(whole, fraction);
    assert body[..|whole|] == whole && body[|whole| + 1..] == fraction;
  }

  lemma DotAfterDigits(whole: Text, fraction: Text)
    requires AllDigits(whole)
    ensures IndexOf(whole + ['.' as CodeUnit] + fraction, '.' as CodeUnit) == |whole|
  {
    var body := whole + ['.' as CodeUnit] + fraction;
    assert !IsDigit('.' as CodeUnit);
    assert body[..|whole|] == whole && body[|whole|] == '.' as CodeUnit;
    IndexOfFirst(body, '.' as CodeUnit, |whole|);
  }

  lemma NoDotInDigits(t: Text)
    requires AllDigits(t)
    ensures IndexOf(t, '.' as CodeUnit) < 0
  {
    assert !IsDigit('.' as CodeUnit);
  }

  /** A non-negative integer written as a number and read back with `(int)`. */
  lemma NumberToIntOfIntText(n: nat)
    ensures NumberToInt(IntText(n)) == Ok(n)
  {
    var t := IntText(n);
    assert t[0] != '-' as CodeUnit;
    assert forall k :: 0 <= k < |t| ==> t[k] != '.' as CodeUnit;
    DigitsRoundTrip(n);
  }

  // ---------------------------------------------------------------------------
  // Hexadecimal text

  predicate IsHexDigit(u: CodeUnit)
  {
    IsDigit(u) || 'a' as CodeUnit <= u <= 'f' as CodeUnit || 'A' as CodeUnit <= u <= 'F' as CodeUnit
  }

  predicate AllHex(t: Text) { forall k :: 0 <= k < |t| ==> IsHexDigit(t[k]) }

  function HexDigitValue(u: CodeUnit): (v: nat)
    requires IsHexDigit(u)
    ensures v < 16
  {
    if IsDigit(u) then u as int - '0' as int
    else if 'a' as CodeUnit <= u <= 'f' as CodeUnit then u as int - 'a' as int + 10
    else u as int - 'A' as int + 10
  }

  function Pow16(k: nat): (p: nat)
    ensures p >= 1
  {
    if k == 0 then 1 else 16 * Pow16(k - 1)
  }

  function HexValue(t: Text): (v: nat)
    requires AllHex(t)
    ensures v < Pow16(|t|)
  {
    if t == [] then 0
    else HexValue(t[..|t| - 1]) * 16 + HexDigitValue(t[|t| - 1])
  }

  /** `int.Parse(t, NumberStyles.HexNumber)` cast to a code unit, for the at
      most four characters of a `\u` escape: surrounding white space and
      trailing NULs are allowed, and anything but one or more hex digits is a
      FormatError. */
  function ParseHex(t: Text): (r: Result<CodeUnit>)
    requires |t| <= 4
    ensures r.Ok? <==> NumberBody(t) != [] && AllHex(NumberBody(t))
    ensures r.Err? ==> r.error == FormatError
    ensures r.Ok? ==> r.value as int == HexValue(NumberBody(t))
  {
    var d := NumberBody(t);
    if d == [] || !AllHex(d) then Err(FormatError)
    else
      TrimmedLength(t);
      assert Pow16(|d|) <= Pow16(4) by { Pow16Monotone(|d|, 4); }
      Ok(HexValue(d) as CodeUnit)
  }

  lemma {:induction false} TrimmedLength(t: Text)
    ensures |NumberBody(t)| <= |t|
  {
    TrimStartShorter(TrimTrailingNuls(t));
    TrimEndShorter(TrimStart(TrimTrailingNuls(t)));
  }

  lemma {:induction false} TrimStartShorter(t: Text)
    ensures |TrimStart(t)| <= |t|
    decreases |t|
  {
    if t != [] && IsNumberWhite(t[0]) { TrimStartShorter(t[1..]); }
  }

  lemma {:induction false} TrimEndShorter(t: Text)
    ensures |TrimEnd(t)| <= |t|
    decreases |t|
  {
    if t != [] && IsNumberWhite(t[|t| - 1]) { TrimEndShorter(t[..|t| - 1]); }
  }

  lemma {:induction false} Pow16Monotone(a: nat, b: nat)
    requires a <= b
    ensures Pow16(a) <= Pow16(b)
    decreases b
  {
    if a < b { Pow16Monotone(a, b - 1); }
  }
}
