/** What the reading routines of JsonGrammar accept, stated against
    independent descriptions: a literal is matched exactly, a string without
    escapes is its bytes up to the closing quote, the escape table maps each
    code to its replacement, a number is its first byte and the longest run
    of digits and points after it, arrays keep their order and a repeated
    object key keeps its last value. */
module JsonDialect {
  import opened JsonValues
  import opened NetText
  import opened JsonGrammar

  // ---------------------------------------------------------------------------
  // Literals

  /** MatchSequence succeeds exactly when the bytes from `p` spell `lit`; it
      fails with EndOfStream exactly when the stream ends while every byte
      read so far matched, and with FormatError otherwise. */
  lemma {:induction false} MatchSequenceExact(s: seq<byte>, p: nat, lit: seq<byte>)
    requires p <= |s|
    ensures MatchSequence(s, p, lit).Ok? <==> p + |lit| <= |s| && s[p..p + |lit|] == lit
    ensures MatchSequence(s, p, lit) == Err(EndOfStream) <==> |s| - p < |lit| && s[p..] == lit[..|s| - p]
    ensures MatchSequence(s, p, lit).Err? ==> MatchSequence(s, p, lit).error in {EndOfStream, FormatError}
    decreases lit
  {
    if lit == [] {
    } else if p == |s| {
      assert s[p..] == [] == lit[..0];
    } else if s[p] != lit[0] {
      assert p + |lit| <= |s| ==> s[p..p + |lit|][0] == s[p];
      assert |s| - p < |lit| ==> s[p..][0] == s[p] && lit[..|s| - p][0] == lit[0];
    } else {
      MatchSequenceExact(s, p + 1, lit[1..]);
      assert lit == [lit[0]] + lit[1..];
      if p + |lit| <= |s| {
        assert s[p..p + |lit|] == [s[p]] + s[p + 1..p + 1 + |lit[1..]|];
      } else {
        assert s[p..] == [s[p]] + s[p + 1..];
        assert lit[..|s| - p] == [lit[0]] + lit[1..][..|s| - (p + 1)];
      }
    }
  }

  // ---------------------------------------------------------------------------
  // Strings

  lemma UnitsFirst(b: seq<byte>)
    requires b != []
    ensures Units(b) == [b[0] as CodeUnit] + Units(b[1..])
  {
  }

  /** A run of bytes holding neither `"` nor a backslash, ended by `"`, reads
      as those bytes appended to the text so far, the quote consumed. */
  lemma {:induction false} PlainString(s: seq<byte>, p: nat, q: nat, acc: Text)
    requires p <= q < |s| && s[q] == '"' as byte
    requires forall i :: p <= i < q ==> s[i] != '"' as byte && s[i] != '\\' as byte
    ensures StringLoop(s, p, false, acc) == Ok(Parsed(acc + Units(s[p..q]), q + 1))
    decreases q - p
  {
    if p < q {
      PlainString(s, p + 1, q, acc + [s[p] as CodeUnit]);
      assert Units(s[p..q]) == [s[p] as CodeUnit] + Units(s[p + 1..q]) by {
        UnitsFirst(s[p..q]);
        assert s[p..q][1..] == s[p + 1..q];
      }
      assert acc + [s[p] as CodeUnit] + Units(s[p + 1..q]) == acc + Units(s[p..q]);
    } else {
      assert Units(s[p..q]) == [];
      assert acc + Units(s[p..q]) == acc;
    }
  }

  /** Each code of ESCAPES stands for the code unit at the same place in
      REPLACEMENTS and reads no further byte. */
  lemma EscapeTable(s: seq<byte>, p: nat, k: nat)
    requires k < |ESCAPES|
    ensures Escape(s, p, ESCAPES[k]) == Ok(Parsed(REPLACEMENTS[k], p))
  {
    assert ESCAPES[k] !in ESCAPES[..k];
    IndexOfFirst(ESCAPES, ESCAPES[k], k);
  }

  /** Hex digits are neither white space nor NUL, so trimming leaves them as
      they are. */
  lemma {:induction false} TrimHex(t: Text)
    requires AllHex(t)
    ensures NumberBody(t) == t
  {
    if t != [] {
      assert TrimTrailingNuls(t) == t;
      assert !IsNumberWhite(t[0]) && !IsNumberWhite(t[|t| - 1]);
      assert TrimStart(t) == t;
    }
  }

  /** `\u` reads exactly the four bytes after it, and fails with EndOfStream
      exactly when fewer remain; four hex digits give the code unit they
      denote. */
  lemma UnicodeEscape(s: seq<byte>, p: nat)
    ensures Escape(s, p, 'u' as byte) == Err(EndOfStream) <==> |s| < p + 4
    ensures Escape(s, p, 'u' as byte).Ok? ==> Escape(s, p, 'u' as byte).value.next == p + 4
    ensures p + 4 <= |s| && AllHex(Units(s[p..p + 4])) ==>
              Escape(s, p, 'u' as byte) == Ok(Parsed(HexValue(Units(s[p..p + 4])) as CodeUnit, p + 4))
  {
    if p + 4 <= |s| && AllHex(Units(s[p..p + 4])) {
      TrimHex(Units(s[p..p + 4]));
    }
  }

  /** The four characters after `\u` are read with the hexadecimal number
      style, which allows white space around the digits: `\u  41` is `A`. */
  lemma PaddedUnicodeEscape()
    ensures Escape([' ' as byte, ' ' as byte, '4' as byte, '1' as byte], 0, 'u' as byte) == Ok(Parsed(0x41, 4))
  {
    var s: seq<byte> := [' ' as byte, ' ' as byte, '4' as byte, '1' as byte];
    var t: Text := Units(s);
    assert s[0..4] == s;
    var d: Text := ['4' as CodeUnit, '1' as CodeUnit];
    assert t == [' ' as CodeUnit, ' ' as CodeUnit] + d;
    assert TrimStart(t) == d by {
      var t1 := t[1..];
      assert t1 == [' ' as CodeUnit] + d && t1[1..] == d;
      assert IsNumberWhite(t[0]) && IsNumberWhite(t1[0]) && !IsNumberWhite(d[0]);
      assert TrimStart(t) == TrimStart(t1) == TrimStart(d) == d;
    }
    assert TrimEnd(d) == d by {
      assert !IsNumberWhite(d[|d| - 1]);
    }
    assert HexValue(d) == 0x41 by {
      assert d[..1] == ['4' as CodeUnit] && d[..1][..0] == [];
    }
    assert TrimTrailingNuls(t) == t;
    assert ParseHex(t) == Ok(0x41);
  }

  /** The hexadecimal number style also accepts NULs after the digits:
      `\u` followed by `41` and two NULs is `A`. */
  lemma NulPaddedUnicodeEscape()
    ensures Escape(['4' as byte, '1' as byte, 0, 0], 0, 'u' as byte) == Ok(Parsed(0x41, 4))
  {
    var s: seq<byte> := ['4' as byte, '1' as byte, 0, 0];
    var t: Text := Units(s);
    assert s[0..4] == s;
    var d: Text := ['4' as CodeUnit, '1' as CodeUnit];
    assert TrimTrailingNuls(t) == d by {
      assert t[..3] == d + [0] && t[..3][..2] == d;
      assert TrimTrailingNuls(t) == TrimTrailingNuls(t[..3]) == TrimTrailingNuls(d);
    }
    assert TrimStart(d) == d && TrimEnd(d) == d by {
      assert !IsNumberWhite(d[0]) && !IsNumberWhite(d[|d| - 1]);
    }
    assert HexValue(d) == 0x41 by {
      assert d[..1] == ['4' as CodeUnit] && d[..1][..0] == [];
    }
    assert ParseHex(t) == Ok(0x41);
  }

  // ---------------------------------------------------------------------------
  // Numbers

  /** The number of decimal points in `t`. */
  function Dots(t: Text): nat
  {
    if t == [] then 0 else Dots(t[..|t| - 1]) + (if t[|t| - 1] == '.' as CodeUnit then 1 else 0)
  }

  lemma {:induction false} DotsAppend(a: Text, b: Text)
    ensures Dots(a + b) == Dots(a) + Dots(b)
    decreases |b|
  {
    if b != [] {
      assert (a + b)[..|a + b| - 1] == a + b[..|b| - 1];
      DotsAppend(a, b[..|b| - 1]);
    } else {
      assert a + b == a;
    }
  }

  /** The end of the run of digits and points that starts at `p`. */
  function RunEnd(s: seq<byte>, p: nat): (e: nat)
    requires p <= |s|
    decreases |s| - p
    ensures p <= e <= |s| && (e < |s| ==> s[e] !in NUMBERS)
    ensures forall i :: p <= i < e ==> s[i] in NUMBERS
  {
    if p == |s| || s[p] !in NUMBERS then p else RunEnd(s, p + 1)
  }

  /** `prefix` followed by the run of digits and points from `p`, and the
      position ending the run; more than one point is a FormatError. */
  function LexemeFrom(s: seq<byte>, p: nat, prefix: Text): Result<Parsed<Text>>
    requires p <= |s|
  {
    var e := RunEnd(s, p);
    var lexeme := prefix + Units(s[p..e]);
    if Dots(lexeme) <= 1 then Ok(Parsed(lexeme, e)) else Err(FormatError)
  }

  /** The reference reading of a number whose first byte `c0` has been read:
      `c0` and the longest run of digits and points after it, the byte that
      ends the run left unread; more than one point is a FormatError. */
  function NumberLexeme(s: seq<byte>, c0: byte, p: nat): Result<Parsed<Text>>
    requires p <= |s|
  {
    LexemeFrom(s, p, [c0 as CodeUnit])
  }

  lemma LexemeStep(s: seq<byte>, p: nat, prefix: Text)
    requires p < |s| && s[p] in NUMBERS
    ensures LexemeFrom(s, p, prefix) == LexemeFrom(s, p + 1, prefix + [s[p] as CodeUnit])
  {
    var e := RunEnd(s, p);
    assert e == RunEnd(s, p + 1);
    assert Units(s[p..e]) == [s[p] as CodeUnit] + Units(s[p + 1..e]) by {
      UnitsFirst(s[p..e]);
      assert s[p..e][1..] == s[p + 1..e];
    }
    assert prefix + Units(s[p..e]) == prefix + [s[p] as CodeUnit] + Units(s[p + 1..e]);
  }

  lemma LexemeStop(s: seq<byte>, p: nat, prefix: Text)
    requires p == |s| || (p < |s| && s[p] !in NUMBERS)
    ensures LexemeFrom(s, p, prefix) == if Dots(prefix) <= 1 then Ok(Parsed(prefix, p)) else Err(FormatError)
  {
    assert Units(s[p..p]) == [];
    assert prefix + Units(s[p..p]) == prefix;
  }

  lemma LexemeTooManyDots(s: seq<byte>, p: nat, prefix: Text)
    requires p <= |s| && Dots(prefix) > 1
    ensures LexemeFrom(s, p, prefix) == Err(FormatError)
  {
    DotsAppend(prefix, Units(s[p..RunEnd(s, p)]));
  }

  lemma {:induction false} NumberLoopIsLexeme(s: seq<byte>, c: byte, p: nat, hasDecimal: bool, acc: Text)
    requires p <= |s| && Dots(acc) == (if hasDecimal then 1 else 0)
    decreases |s| - p
    ensures NumberLoop(s, c, p, hasDecimal, acc) == LexemeFrom(s, p, acc + [c as CodeUnit])
  {
    var acc' := acc + [c as CodeUnit];
    assert Dots(acc') == Dots(acc) + (if c == '.' as byte then 1 else 0) by {
      assert acc'[..|acc'| - 1] == acc;
    }
    if c == '.' as byte && hasDecimal {
      LexemeTooManyDots(s, p, acc');
    } else if p == |s| || s[p] !in NUMBERS {
      LexemeStop(s, p, acc');
    } else {
      NumberLoopIsLexeme(s, s[p], p + 1, hasDecimal || c == '.' as byte, acc');
      LexemeStep(s, p, acc');
    }
  }

  /** ParseNumber reads exactly the reference lexeme. */
  lemma ParseNumberIsLexeme(s: seq<byte>, c0: byte, p: nat)
    requires p <= |s|
    ensures ParseNumber(s, c0, p) == NumberLexeme(s, c0, p)
  {
    NumberLoopIsLexeme(s, c0, p, false, []);
    assert [] + [c0 as CodeUnit] == [c0 as CodeUnit];
  }

  // ---------------------------------------------------------------------------
  // Values

  /** The first byte that is not white space decides the kind of a value
      read: `{` an object, `"` a string, `t` and `f` the booleans, a number
      start a number, `n` null and `[` an array. */
  lemma ParseValueKind(s: seq<byte>, p: nat)
    requires ParseValue(s, p).Ok?
    ensures SkipWhite(s, p).Ok?
    ensures
      var c := SkipWhite(s, p).value.value;
      var v := ParseValue(s, p).value.value;
      && (v.Object? <==> c == '{' as byte)
      && (v.String? <==> c == '"' as byte)
      && (v == Boolean(true) <==> c == 't' as byte)
      && (v == Boolean(false) <==> c == 'f' as byte)
      && (v.Number? <==> c in NUMBER_STARTS)
      && (v.Null? <==> c == 'n' as byte)
      && (v.Array? <==> c == '[' as byte)
  {
  }

  // ---------------------------------------------------------------------------
  // Containers

  /** The elements read so far stay at the front of the array, in order,
      and the next element is the value read at `p`. */
  lemma {:induction false} ArrayElementsKeepOrder(s: seq<byte>, p: nat, acc: seq<Json>)
    decreases |s| - p
    ensures ArrayElements(s, p, acc).Ok? ==>
              var items := ArrayElements(s, p, acc).value.value;
              && |acc| < |items| && items[..|acc|] == acc
              && ParseValue(s, p).Ok? && items[|acc|] == ParseValue(s, p).value.value
  {
    match ParseValue(s, p)
    case Err(_) =>
    case Ok(v) =>
      match Delimiter(s, v.next, ']' as byte)
      case Err(_) =>
      case Ok(closed) =>
        if !closed.value {
          ArrayElementsKeepOrder(s, closed.next, acc + [v.value]);
          var r := ArrayElements(s, closed.next, acc + [v.value]);
          if r.Ok? {
            assert r.value.value[..|acc|] == r.value.value[..|acc| + 1][..|acc|];
            assert r.value.value[|acc|] == r.value.value[..|acc| + 1][|acc|];
          }
        }
  }

  /** The elements read so far only prefix the array: whether the rest of
      the array reads, and where it ends, do not depend on them. */
  lemma {:induction false} ArrayElementsPrefix(s: seq<byte>, p: nat, acc: seq<Json>)
    decreases |s| - p
    ensures ArrayElements(s, p, acc).Ok? <==> ArrayElements(s, p, []).Ok?
    ensures ArrayElements(s, p, acc).Err? ==> ArrayElements(s, p, acc) == ArrayElements(s, p, [])
    ensures ArrayElements(s, p, acc).Ok? ==>
              ArrayElements(s, p, acc).value
                == Parsed(acc + ArrayElements(s, p, []).value.value, ArrayElements(s, p, []).value.next)
  {
    match ParseValue(s, p)
    case Err(_) =>
    case Ok(v) =>
      match Delimiter(s, v.next, ']' as byte)
      case Err(_) =>
      case Ok(closed) =>
        assert [] + [v.value] == [v.value];
        if !closed.value {
          ArrayElementsPrefix(s, closed.next, acc + [v.value]);
          ArrayElementsPrefix(s, closed.next, [v.value]);
          var rest := ArrayElements(s, closed.next, []);
          if rest.Ok? {
            assert acc + [v.value] + rest.value.value == acc + ([v.value] + rest.value.value);
          }
        }
  }

  /** The members read so far keep their keys, and the key read at `p` is a
      key of the object. */
  lemma {:induction false} ObjectMembersKeepKeys(s: seq<byte>, p: nat, acc: map<Text, Json>)
    decreases |s| - p
    ensures ObjectMembers(s, p, acc).Ok? ==>
              && acc.Keys <= ObjectMembers(s, p, acc).value.value.Keys
              && ParsePair(s, p).Ok? && ParsePair(s, p).value.value.0 in ObjectMembers(s, p, acc).value.value
  {
    match ParsePair(s, p)
    case Err(_) =>
    case Ok(kv) =>
      match Delimiter(s, kv.next, '}' as byte)
      case Err(_) =>
      case Ok(closed) =>
        if !closed.value {
          ObjectMembersKeepKeys(s, closed.next, acc[kv.value.0 := kv.value.1]);
        }
  }

  /** The members read later override those read so far: the object is the
      members read so far updated with the members read from `p`, a later
      pair replacing an earlier one with the same key. Whether the members
      read, and where they end, do not depend on the members read so far. */
  lemma {:induction false} ObjectMembersLastWins(s: seq<byte>, p: nat, acc: map<Text, Json>)
    decreases |s| - p
    ensures ObjectMembers(s, p, acc).Ok? <==> ObjectMembers(s, p, map[]).Ok?
    ensures ObjectMembers(s, p, acc).Err? ==> ObjectMembers(s, p, acc) == ObjectMembers(s, p, map[])
    ensures ObjectMembers(s, p, acc).Ok? ==>
              ObjectMembers(s, p, acc).value
                == Parsed(acc + ObjectMembers(s, p, map[]).value.value, ObjectMembers(s, p, map[]).value.next)
  {
    match ParsePair(s, p)
    case Err(_) =>
    case Ok(kv) =>
      var k, v := kv.value.0, kv.value.1;
      match Delimiter(s, kv.next, '}' as byte)
      case Err(_) =>
      case Ok(closed) =>
        assert map[][k := v] == map[k := v];
        if closed.value {
          assert acc[k := v] == acc + map[k := v];
        } else {
          ObjectMembersLastWins(s, closed.next, acc[k := v]);
          ObjectMembersLastWins(s, closed.next, map[k := v]);
          var rest := ObjectMembers(s, closed.next, map[]);
          if rest.Ok? {
            assert acc[k := v] + rest.value.value == acc + (map[k := v] + rest.value.value);
          }
        }
  }

  /** The pair read at `p` is stored with its value unless a later pair of
      the same object has its key, in which case the later value is kept. */
  lemma ObjectMemberLastValue(s: seq<byte>, p: nat, acc: map<Text, Json>)
    requires ObjectMembers(s, p, acc).Ok?
    ensures ParsePair(s, p).Ok? && Delimiter(s, ParsePair(s, p).value.next, '}' as byte).Ok?
    ensures
      var members := ObjectMembers(s, p, acc).value.value;
      var kv := ParsePair(s, p).value;
      var d := Delimiter(s, kv.next, '}' as byte).value;
      && kv.value.0 in members
      && (d.value ==> members[kv.value.0] == kv.value.1)
      && (!d.value ==>
            && ObjectMembers(s, d.next, map[]).Ok?
            && var later := ObjectMembers(s, d.next, map[]).value.value;
               members[kv.value.0] == if kv.value.0 in later then later[kv.value.0] else kv.value.1)
  {
    var kv := ParsePair(s, p).value;
    var d := Delimiter(s, kv.next, '}' as byte).value;
    if !d.value {
      ObjectMembersLastWins(s, d.next, acc[kv.value.0 := kv.value.1]);
    }
  }

  /** The bytes of `{"a":1,"a":2}`. */
  const REPEATED_KEY: seq<byte> := ['{' as byte, '"' as byte, 'a' as byte, '"' as byte, ':' as byte, '1' as byte, ',' as byte,
                                     '"' as byte, 'a' as byte, '"' as byte, ':' as byte, '2' as byte, '}' as byte]

  lemma RepeatedKeyKeys()
    ensures ParseKey(REPEATED_KEY, 1) == Ok(Parsed(['a' as CodeUnit], 5))
    ensures ParseKey(REPEATED_KEY, 7) == Ok(Parsed(['a' as CodeUnit], 11))
  {
    var s := REPEATED_KEY;
    assert StringLoop(s, 2, false, []) == Ok(Parsed(['a' as CodeUnit], 4)) by {
      PlainString(s, 2, 3, []);
      assert [] + Units(s[2..3]) == ['a' as CodeUnit];
    }
    assert StringLoop(s, 8, false, []) == Ok(Parsed(['a' as CodeUnit], 10)) by {
      PlainString(s, 8, 9, []);
      assert [] + Units(s[8..9]) == ['a' as CodeUnit];
    }
  }

  /** A one-digit number followed by a byte that ends it. */
  lemma OneDigitValue(s: seq<byte>, p: nat)
    requires p + 1 < |s| && '0' as byte <= s[p] <= '9' as byte && s[p + 1] !in NUMBERS
    ensures ParseValue(s, p) == Ok(Parsed(Number([s[p] as CodeUnit]), p + 1))
  {
    assert s[p] !in WHITESPACE && s[p] in NUMBER_STARTS;
    assert ParseNumber(s, s[p], p + 1) == Ok(Parsed([s[p] as CodeUnit], p + 1)) by {
      assert [] + [s[p] as CodeUnit] == [s[p] as CodeUnit];
    }
  }

  lemma RepeatedKeyValues()
    ensures ParseValue(REPEATED_KEY, 5) == Ok(Parsed(Number(['1' as CodeUnit]), 6))
    ensures ParseValue(REPEATED_KEY, 11) == Ok(Parsed(Number(['2' as CodeUnit]), 12))
  {
    OneDigitValue(REPEATED_KEY, 5);
    OneDigitValue(REPEATED_KEY, 11);
  }

  lemma RepeatedKeyPairs()
    ensures ParsePair(REPEATED_KEY, 1) == Ok(Parsed((['a' as CodeUnit], Number(['1' as CodeUnit])), 6))
    ensures Delimiter(REPEATED_KEY, 6, '}' as byte) == Ok(Parsed(false, 7))
    ensures ParsePair(REPEATED_KEY, 7) == Ok(Parsed((['a' as CodeUnit], Number(['2' as CodeUnit])), 12))
    ensures Delimiter(REPEATED_KEY, 12, '}' as byte) == Ok(Parsed(true, 13))
  {
    RepeatedKeyKeys();
    RepeatedKeyValues();
  }

  /** A key that appears twice keeps the value of its last pair. */
  lemma RepeatedKeyKeepsLast()
    ensures ParseValue(REPEATED_KEY, 0) == Ok(Parsed(Object(map[['a' as CodeUnit] := Number(['2' as CodeUnit])]), 13))
  {
    var s := REPEATED_KEY;
    var a: Text := ['a' as CodeUnit];
    RepeatedKeyPairs();
    var first := map[a := Number(['1' as CodeUnit])];
    assert ObjectMembers(s, 7, first) == Ok(Parsed(first[a := Number(['2' as CodeUnit])], 13));
    assert first[a := Number(['2' as CodeUnit])] == map[a := Number(['2' as CodeUnit])];
    assert ObjectMembers(s, 1, map[]) == ObjectMembers(s, 7, first);
    assert ParseObject(s, 1) == ObjectMembers(s, 1, map[]);
  }

  /** In `[1]` the `]` ends the number, is pushed back and then closes the
      array. */
  lemma OneElementArray()
    ensures ParseValue(['[' as byte, '1' as byte, ']' as byte], 0) == Ok(Parsed(Array([Number(['1' as CodeUnit])]), 3))
  {
    var s: seq<byte> := ['[' as byte, '1' as byte, ']' as byte];
    OneDigitValue(s, 1);
    assert Delimiter(s, 2, ']' as byte) == Ok(Parsed(true, 3));
    assert [] + [Number(['1' as CodeUnit])] == [Number(['1' as CodeUnit])];
    assert ParseArray(s, 1) == ArrayElements(s, 1, []);
  }

}
