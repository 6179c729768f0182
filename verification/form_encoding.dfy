/**
 * The text-level encodings of SuperHeroDirectory's `Request`: the form-value escaper
 * `percentEscapeString`, the `key=value&...` body of a url-encoded POST and the
 * re-escaping of `+` in the query of a GET.
 *
 * Foundation's `CharacterSet.alphanumerics` is the Unicode set of letters, marks and numbers;
 * the model takes it as a predicate `alphanumerics` and, where a property needs it, only assumes
 * what that set is on ASCII: exactly the letters and the digits. Its non-ASCII members make no
 * difference, because `addingPercentEncoding` escapes every character outside 7-bit ASCII.
 */
module FormEncoding {
  import opened Wrappers
  import opened Utf8
  import opened Percent
  import Text

  type CharacterSet = char -> bool

  predicate IsAsciiAlphanumeric(c: char)
  {
    'a' <= c <= 'z' || 'A' <= c <= 'Z' || '0' <= c <= '9'
  }

  /** `alphanumerics` contains exactly the letters and digits among the ASCII characters. */
  predicate AgreesWithAscii(alphanumerics: CharacterSet)
  {
    forall c: char :: c < '\U{80}' ==> (alphanumerics(c) <==> IsAsciiAlphanumeric(c))
  }

  /** The allowed set of `percentEscapeString`: `alphanumerics` with "-._* " inserted. */
  predicate IsUnescaped(alphanumerics: CharacterSet, c: char)
  {
    alphanumerics(c) || c in "-._* "
  }

  /** `CharacterSet.alphanumerics` with `-._* ` inserted. */
  function Unescaped(alphanumerics: CharacterSet): CharacterSet
  {
    c => IsUnescaped(alphanumerics, c)
  }

  /** A character `addingPercentEncoding` leaves as it is: an ASCII member of the allowed set. */
  predicate IsKept(allowed: CharacterSet, c: char)
  {
    c < '\U{80}' && allowed(c)
  }

  /**
   * `addingPercentEncoding(withAllowedCharacters:)`: an ASCII character in `allowed` stays, any
   * other character (every non-ASCII one included) becomes the `%XY` triples of its UTF-8 bytes.
   */
  function AddingPercentEncoding(s: string, allowed: CharacterSet): (r: string)
    ensures forall x :: x in r ==> IsKept(allowed, x) || x == '%' || IsHexDigit(x)
    decreases |s|
  {
    if s == [] then ""
    else
      var head := if IsKept(allowed, s[0]) then [s[0]] else PercentBytes(EncodeChar(s[0]));
      PercentBytesAlphabet(EncodeChar(s[0]));
      head + AddingPercentEncoding(s[1..], allowed)
  }

  lemma {:induction false} PercentBytesAlphabet(bs: seq<byte>)
    ensures forall x :: x in PercentBytes(bs) ==> x == '%' || IsHexDigit(x)
    decreases |bs|
  {
    if bs != [] {
      PercentBytesAlphabet(bs[1..]);
      assert PercentBytes(bs) == PercentByte(bs[0]) + PercentBytes(bs[1..]);
    }
  }

  /**
   * `percentEscapeString(string:)`: percent-encode everything outside the allowed set, then write
   * each space as `+`. The result is ASCII and holds no space, and each character is an allowed
   * one, a `+`, or a `%` or hex digit of an escape.
   */
  function PercentEscapeString(s: string, alphanumerics: CharacterSet): (r: string)
    ensures ' ' !in r
    ensures forall x :: x in r ==> x < '\U{80}'
    ensures forall x :: x in r ==>
      (IsUnescaped(alphanumerics, x) && x != ' ') || x == '+' || x == '%' || IsHexDigit(x)
  {
    var encoded := AddingPercentEncoding(s, Unescaped(alphanumerics));
    Text.ReplaceAllAlphabet(encoded, ' ', "+");
    Text.ReplaceAll(encoded, ' ', "+")
  }

  /** What one input character becomes in the output of `percentEscapeString`. */
  function EscapeChar(c: char, alphanumerics: CharacterSet): string
  {
    if c == ' ' then "+"
    else if IsKept(Unescaped(alphanumerics), c) then [c]
    else PercentBytes(EncodeChar(c))
  }

  lemma {:induction false} ReplaceAbsent(t: string, c: char, repl: string)
    requires c !in t
    ensures Text.ReplaceAll(t, c, repl) == t
    decreases |t|
  {
    if t != [] {
      ReplaceAbsent(t[1..], c, repl);
      assert [t[0]] + t[1..] == t;
    }
  }

  /** `percentEscapeString` works character by character. */
  lemma PercentEscapeCons(s: string, alphanumerics: CharacterSet)
    requires s != []
    ensures PercentEscapeString(s, alphanumerics)
         == EscapeChar(s[0], alphanumerics) + PercentEscapeString(s[1..], alphanumerics)
  {
    var allowed := Unescaped(alphanumerics);
    var head := if IsKept(allowed, s[0]) then [s[0]] else PercentBytes(EncodeChar(s[0]));
    var tail := AddingPercentEncoding(s[1..], allowed);
    assert AddingPercentEncoding(s, allowed) == head + tail;
    Text.ReplaceAllAppend(head, tail, ' ', "+");
    assert Text.ReplaceAll(head, ' ', "+") == EscapeChar(s[0], alphanumerics) by {
      if IsKept(allowed, s[0]) {
        assert head[1..] == [];
      } else {
        PercentBytesAlphabet(EncodeChar(s[0]));
        ReplaceAbsent(head, ' ', "+");
      }
    }
  }

  /** A literal `+` in a value is escaped as `%2B`, so a `+` in the output only ever stands for a space. */
  lemma EscapePlus(alphanumerics: CharacterSet)
    requires AgreesWithAscii(alphanumerics)
    ensures PercentEscapeString("+", alphanumerics) == "%2B"
  {
    assert !alphanumerics('+');
    assert EncodeChar('+') == [0x2B];
    assert PercentByte(0x2B) == "%2B";
    assert PercentBytes([0x2B]) == PercentByte(0x2B) + PercentBytes([]);
    assert EscapeChar('+', alphanumerics) == "%2B";
    assert PercentEscapeString("", alphanumerics) == "";
    PercentEscapeCons("+", alphanumerics);
  }

  /** `percentEscapeString` of a concatenation is the concatenation of the escaped parts. */
  lemma PercentEscapeAppend(a: string, b: string, alphanumerics: CharacterSet)
    ensures PercentEscapeString(a + b, alphanumerics)
         == PercentEscapeString(a, alphanumerics) + PercentEscapeString(b, alphanumerics)
  {
    var allowed := Unescaped(alphanumerics);
    AddingPercentEncodingAppend(a, b, allowed);
    Text.ReplaceAllAppend(AddingPercentEncoding(a, allowed), AddingPercentEncoding(b, allowed), ' ', "+");
  }

  lemma {:induction false} AddingPercentEncodingAppend(a: string, b: string, allowed: CharacterSet)
    ensures AddingPercentEncoding(a + b, allowed) == AddingPercentEncoding(a, allowed) + AddingPercentEncoding(b, allowed)
    decreases |a|
  {
    if a == [] {
      assert a + b == b;
    } else {
      var head := if IsKept(allowed, a[0]) then [a[0]] else PercentBytes(EncodeChar(a[0]));
      assert (a + b)[0] == a[0] && (a + b)[1..] == a[1..] + b;
      AddingPercentEncodingAppend(a[1..], b, allowed);
      calc {
        AddingPercentEncoding(a + b, allowed);
        head + AddingPercentEncoding(a[1..] + b, allowed);
        head + (AddingPercentEncoding(a[1..], allowed) + AddingPercentEncoding(b, allowed));
        { StringAppendAssociates(head, AddingPercentEncoding(a[1..], allowed), AddingPercentEncoding(b, allowed)); }
        head + AddingPercentEncoding(a[1..], allowed) + AddingPercentEncoding(b, allowed);
        AddingPercentEncoding(a, allowed) + AddingPercentEncoding(b, allowed);
      }
    }
  }

  lemma StringAppendAssociates(x: string, y: string, z: string)
    ensures x + (y + z) == x + y + z
  {
  }

  /** A `+` anywhere in a value is sent as `%2B`, and the text around it is escaped as usual. */
  lemma EscapePlusInside(a: string, b: string, alphanumerics: CharacterSet)
    requires AgreesWithAscii(alphanumerics)
    ensures PercentEscapeString(a + "+" + b, alphanumerics)
         == PercentEscapeString(a, alphanumerics) + "%2B" + PercentEscapeString(b, alphanumerics)
  {
    PercentEscapeAppend(a + "+", b, alphanumerics);
    PercentEscapeAppend(a, "+", alphanumerics);
    EscapePlus(alphanumerics);
  }

  /** A non-ASCII character is always escaped as its UTF-8 bytes, whatever `alphanumerics` holds. */
  lemma EscapeNonAscii(c: char, alphanumerics: CharacterSet)
    requires c >= '\U{80}'
    ensures PercentEscapeString([c], alphanumerics) == PercentBytes(EncodeChar(c))
  {
    PercentEscapeCons([c], alphanumerics);
    assert [c][1..] == [];
    assert PercentEscapeString([], alphanumerics) == "";
  }

  /** "é" (U+00E9, UTF-8 C3 A9) is sent as `%C3%A9` even though it is a Unicode letter. */
  lemma EscapeAccentedLetter(alphanumerics: CharacterSet)
    ensures PercentEscapeString("\U{E9}", alphanumerics) == "%C3%A9"
  {
    EscapeNonAscii('\U{E9}', alphanumerics);
    assert EncodeChar('\U{E9}') == [0xC3, 0xA9] by {
      var n := '\U{E9}' as int;
      assert n / 64 == 3 && n % 64 == 0x29;
    }
    PercentBytesOfAccent();
  }

  lemma PercentBytesOfAccent()
    ensures PercentBytes([0xC3, 0xA9]) == "%C3%A9"
  {
    assert PercentByte(0xC3) == "%C3" by { assert HexDigit(12) == 'C' && HexDigit(3) == '3'; }
    assert PercentByte(0xA9) == "%A9" by { assert HexDigit(10) == 'A' && HexDigit(9) == '9'; }
    assert PercentBytes([0xA9]) == PercentByte(0xA9) + PercentBytes([]);
    assert [0xC3, 0xA9][1..] == [0xA9];
  }

  /**
   * The escaped text depends on `alphanumerics` only through its ASCII members: any two sets that
   * agree with the ASCII letters and digits escape every string alike.
   */
  lemma {:induction false} EscapeIndependentOfSet(s: string, a1: CharacterSet, a2: CharacterSet)
    requires AgreesWithAscii(a1) && AgreesWithAscii(a2)
    ensures PercentEscapeString(s, a1) == PercentEscapeString(s, a2)
    decreases |s|
  {
    if s != [] {
      PercentEscapeCons(s, a1);
      PercentEscapeCons(s, a2);
      EscapeIndependentOfSet(s[1..], a1, a2);
      assert EscapeChar(s[0], a1) == EscapeChar(s[0], a2);
    }
  }

  /** The output holds a `+` exactly when the input holds a space. */
  lemma {:induction false} PlusMarksSpace(s: string, alphanumerics: CharacterSet)
    requires AgreesWithAscii(alphanumerics)
    ensures '+' in PercentEscapeString(s, alphanumerics) <==> ' ' in s
    decreases |s|
  {
    if s != [] {
      PercentEscapeCons(s, alphanumerics);
      PlusMarksSpace(s[1..], alphanumerics);
      EscapeCharPlus(s[0], alphanumerics);
      assert s == [s[0]] + s[1..];
    }
  }

  /** One character escapes to something holding a `+` exactly when it is a space. */
  lemma EscapeCharPlus(c: char, alphanumerics: CharacterSet)
    requires AgreesWithAscii(alphanumerics)
    ensures '+' in EscapeChar(c, alphanumerics) <==> c == ' '
  {
    assert !alphanumerics('+');
    if c != ' ' && !IsKept(Unescaped(alphanumerics), c) {
      PercentBytesAlphabet(EncodeChar(c));
    }
  }

  /**
   * The shape of an escaped text: characters that stand for themselves (allowed ones and `+`)
   * and `%XY` triples with two hex digits.
   */
  predicate IsEscapedForm(t: string, alphanumerics: CharacterSet)
    decreases |t|
  {
    t == []
    || (t[0] == '%' && |t| >= 3 && IsHexDigit(t[1]) && IsHexDigit(t[2]) && IsEscapedForm(t[3..], alphanumerics))
    || (t[0] != '%' && t[0] < '\U{80}' && (alphanumerics(t[0]) || t[0] in "-._*+")
        && IsEscapedForm(t[1..], alphanumerics))
  }

  lemma {:induction false} EscapedFormPercentBytes(bs: seq<byte>, t: string, alphanumerics: CharacterSet)
    requires IsEscapedForm(t, alphanumerics)
    ensures IsEscapedForm(PercentBytes(bs) + t, alphanumerics)
    decreases |bs|
  {
    if bs == [] {
      assert PercentBytes(bs) + t == t;
    } else {
      EscapedFormPercentBytes(bs[1..], t, alphanumerics);
      EscapedFormTriple(PercentByte(bs[0]), PercentBytes(bs[1..]) + t, alphanumerics);
      PercentBytesCons(bs, t);
    }
  }

  lemma PercentBytesCons(bs: seq<byte>, t: string)
    requires bs != []
    ensures PercentBytes(bs) + t == PercentByte(bs[0]) + (PercentBytes(bs[1..]) + t)
  {
  }

  lemma EscapedFormTriple(p: string, x: string, alphanumerics: CharacterSet)
    requires |p| == 3 && p[0] == '%' && IsHexDigit(p[1]) && IsHexDigit(p[2])
    requires IsEscapedForm(x, alphanumerics)
    ensures IsEscapedForm(p + x, alphanumerics)
  {
    assert (p + x)[3..] == x;
  }

  /** Every output of `percentEscapeString` has the escaped shape: each `%` starts a `%XY` triple. */
  lemma {:induction false} EscapeAlphabet(s: string, alphanumerics: CharacterSet)
    requires AgreesWithAscii(alphanumerics)
    ensures IsEscapedForm(PercentEscapeString(s, alphanumerics), alphanumerics)
    decreases |s|
  {
    if s != [] {
      PercentEscapeCons(s, alphanumerics);
      EscapeAlphabet(s[1..], alphanumerics);
      var rest := PercentEscapeString(s[1..], alphanumerics);
      assert !alphanumerics('%');
      if s[0] != ' ' && !IsKept(Unescaped(alphanumerics), s[0]) {
        EscapedFormPercentBytes(EncodeChar(s[0]), rest, alphanumerics);
      } else {
        assert (EscapeChar(s[0], alphanumerics) + rest)[1..] == rest;
      }
    }
  }

  /**
   * Decoding the escaped text as form data (`+` to space, `%XY` to a byte) gives back the UTF-8
   * bytes of the input.
   */
  lemma {:induction false} EscapeDecodes(s: string, alphanumerics: CharacterSet)
    requires AgreesWithAscii(alphanumerics)
    ensures PercentDecode(PercentEscapeString(s, alphanumerics), true) == Encode(s)
    decreases |s|
  {
    if s != [] {
      PercentEscapeCons(s, alphanumerics);
      EscapeDecodes(s[1..], alphanumerics);
      var rest := PercentEscapeString(s[1..], alphanumerics);
      var t := EscapeChar(s[0], alphanumerics) + rest;
      assert !alphanumerics('%') && !alphanumerics('+');
      if s[0] == ' ' {
        assert t[0] == '+' && t[1..] == rest;
      } else if IsKept(Unescaped(alphanumerics), s[0]) {
        assert t[0] == s[0] && t[1..] == rest;
      } else {
        PercentDecodeBytes(EncodeChar(s[0]), rest, true);
      }
    }
  }

  /** So the escaping loses nothing: the input is recovered from the decoded bytes. */
  lemma EscapeRecoversInput(s: string, alphanumerics: CharacterSet)
    requires AgreesWithAscii(alphanumerics)
    ensures Decode(PercentDecode(PercentEscapeString(s, alphanumerics), true)) == Some(s)
  {
    EscapeDecodes(s, alphanumerics);
    DecodeEncode(s);
  }

  // ---------------------------------------------------------------------------------------------
  // Parameters and the body of a url-encoded POST

  /** A parameter value: the untyped `Any` of `[String: Any]`, closed to the kinds the app sends. */
  datatype ParameterValue = StringValue(text: string) | IntValue(number: int) | BoolValue(flag: bool)

  /** A parameter dictionary, as its entries in the dictionary's iteration order. */
  type Parameters = seq<(string, ParameterValue)>

  /** The decimal text of a natural number, most significant digit first, without leading zeros. */
  function DecimalDigits(n: nat): (r: string)
    ensures |r| >= 1
    ensures forall x :: x in r ==> '0' <= x <= '9'
    ensures r[0] == '0' <==> n == 0
    decreases n
  {
    var d := ['0' + (n % 10) as char];
    if n < 10 then d else DecimalDigits(n / 10) + d
  }

  /** The number a string of decimal digits stands for, read most significant digit first. */
  function DigitsValue(t: string): int
    decreases |t|
  {
    if t == [] then 0 else DigitsValue(t[..|t| - 1]) * 10 + (t[|t| - 1] as int - '0' as int)
  }

  /** The digits of `n` read back as `n`. */
  lemma {:induction false} DecimalDigitsValue(n: nat)
    ensures DigitsValue(DecimalDigits(n)) == n
    decreases n
  {
    if n >= 10 {
      var front := DecimalDigits(n / 10);
      var t := DecimalDigits(n);
      assert t[..|t| - 1] == front;
      DecimalDigitsValue(n / 10);
    }
  }

  /** The string interpolation `"\(value)"`. */
  function Description(v: ParameterValue): string
  {
    match v
    case StringValue(text) => text
    case IntValue(number) => if number < 0 then "-" + DecimalDigits(-number) else DecimalDigits(number)
    case BoolValue(flag) => if flag then "true" else "false"
  }

  /** An integer is described by its sign, when negative, and the digits of its magnitude. */
  lemma IntDescription(n: int)
    ensures var t := Description(IntValue(n));
      if n < 0 then t[0] == '-' && DigitsValue(t[1..]) == -n && t[1] != '0'
      else DigitsValue(t) == n && (t[0] == '0' ==> |t| == 1)
  {
    var magnitude := if n < 0 then -n else n;
    DecimalDigitsValue(magnitude);
    if n < 0 {
      assert Description(IntValue(n))[1..] == DecimalDigits(-n);
    } else if DecimalDigits(n)[0] == '0' {
      assert n == 0;
    }
  }

  /** One `key=value` field: the key verbatim, the value through `percentEscapeString`. */
  function FormField(key: string, value: ParameterValue, alphanumerics: CharacterSet): (r: string)
  {
    key + "=" + PercentEscapeString(Description(value), alphanumerics)
  }

  function FormFields(parameters: Parameters, alphanumerics: CharacterSet): (r: seq<string>)
    ensures |r| == |parameters|
    ensures forall i :: 0 <= i < |r| ==> r[i] == FormField(parameters[i].0, parameters[i].1, alphanumerics)
    decreases |parameters|
  {
    if parameters == [] then []
    else [FormField(parameters[0].0, parameters[0].1, alphanumerics)] + FormFields(parameters[1..], alphanumerics)
  }

  /** The text of a url-encoded POST body: the fields joined with `&`. */
  function FormBody(parameters: Parameters, alphanumerics: CharacterSet): string
  {
    Text.Join(FormFields(parameters, alphanumerics), '&')
  }

  /**
   * The application/x-www-form-urlencoded parser of section 5.1 of the WHATWG URL Standard:
   * split at `&`, skip empty pieces, split each at its first `=`, decode both halves.
   */
  function ParseForm(body: string): seq<(seq<byte>, seq<byte>)>
  {
    ParseFields(Text.SplitOn(body, '&'))
  }

  function ParseFields(fields: seq<string>): seq<(seq<byte>, seq<byte>)>
    decreases |fields|
  {
    if fields == [] then []
    else if fields[0] == "" then ParseFields(fields[1..])
    else
      var (name, value) := Text.SplitFirst(fields[0], '=');
      [(PercentDecode(name, true), PercentDecode(value, true))] + ParseFields(fields[1..])
  }

  /** A key that the server reads back as it was sent, although keys are not escaped. */
  predicate IsPlainKey(key: string, alphanumerics: CharacterSet)
  {
    forall c :: c in key ==> IsUnescaped(alphanumerics, c) && c != ' '
  }

  lemma {:induction false} PlainKeyDecodes(key: string, alphanumerics: CharacterSet)
    requires AgreesWithAscii(alphanumerics)
    requires IsPlainKey(key, alphanumerics)
    ensures PercentDecode(key, true) == Encode(key)
    decreases |key|
  {
    if key != [] {
      assert key[0] in key;
      assert !alphanumerics('%') && !alphanumerics('+');
      assert IsPlainKey(key[1..], alphanumerics) by {
        forall c | c in key[1..] ensures c in key { }
      }
      PlainKeyDecodes(key[1..], alphanumerics);
    }
  }

  lemma FormFieldParses(key: string, value: ParameterValue, alphanumerics: CharacterSet)
    requires AgreesWithAscii(alphanumerics)
    requires IsPlainKey(key, alphanumerics)
    ensures FormField(key, value, alphanumerics) != ""
    ensures '&' !in FormField(key, value, alphanumerics)
    ensures ParseFields([FormField(key, value, alphanumerics)])
         == [(Encode(key), Encode(Description(value)))]
  {
    var escaped := PercentEscapeString(Description(value), alphanumerics);
    var field := FormField(key, value, alphanumerics);
    assert !alphanumerics('&') && !alphanumerics('=');
    assert '=' !in key && '&' !in key;
    assert '&' !in escaped;
    assert field == key + ['='] + escaped;
    assert field != "" by { assert field[|key|] == '='; }
    Text.SplitFirstPair(key, escaped, '=');
    PlainKeyDecodes(key, alphanumerics);
    EscapeDecodes(Description(value), alphanumerics);
  }

  /** What a server should read from the body of `parameters`: each key and value text as UTF-8. */
  function SentPairs(parameters: Parameters): (r: seq<(seq<byte>, seq<byte>)>)
    ensures |r| == |parameters|
  {
    seq(|parameters|, i requires 0 <= i < |parameters| =>
      (Encode(parameters[i].0), Encode(Description(parameters[i].1))))
  }

  lemma ParseFieldsCons(f: string, rest: seq<string>)
    requires f != ""
    ensures ParseFields([f] + rest) == ParseFields([f]) + ParseFields(rest)
  {
    assert ([f] + rest)[1..] == rest;
  }

  lemma SentPairsCons(parameters: Parameters)
    requires parameters != []
    ensures SentPairs(parameters) == SentPairs([parameters[0]]) + SentPairs(parameters[1..])
  {
  }

  lemma FormFieldsCons(parameters: Parameters, alphanumerics: CharacterSet)
    requires parameters != []
    ensures FormFields(parameters, alphanumerics)
         == [FormField(parameters[0].0, parameters[0].1, alphanumerics)] + FormFields(parameters[1..], alphanumerics)
  {
  }

  lemma {:induction false} FormFieldsParse(parameters: Parameters, alphanumerics: CharacterSet)
    requires AgreesWithAscii(alphanumerics)
    requires forall i :: 0 <= i < |parameters| ==> IsPlainKey(parameters[i].0, alphanumerics)
    ensures ParseFields(FormFields(parameters, alphanumerics)) == SentPairs(parameters)
    decreases |parameters|
  {
    if parameters != [] {
      var f0 := FormField(parameters[0].0, parameters[0].1, alphanumerics);
      var rest := FormFields(parameters[1..], alphanumerics);
      FormFieldsCons(parameters, alphanumerics);
      FormFieldParses(parameters[0].0, parameters[0].1, alphanumerics);
      assert ParseFields([f0]) == SentPairs([parameters[0]]);
      assert forall i :: 0 <= i < |parameters[1..]| ==> IsPlainKey(parameters[1..][i].0, alphanumerics) by {
        forall i | 0 <= i < |parameters[1..]| ensures IsPlainKey(parameters[1..][i].0, alphanumerics) {
          assert parameters[1..][i] == parameters[i + 1];
        }
      }
      FormFieldsParse(parameters[1..], alphanumerics);
      ParseFieldsCons(f0, rest);
      SentPairsCons(parameters);
    }
  }

  /**
   * A url-encoded POST body parses back to the parameters: each key and each value's text, as
   * UTF-8 bytes, in order, provided the keys (which are sent unescaped) use only plain characters.
   */
  lemma FormBodyRoundTrip(parameters: Parameters, alphanumerics: CharacterSet)
    requires AgreesWithAscii(alphanumerics)
    requires forall i :: 0 <= i < |parameters| ==> IsPlainKey(parameters[i].0, alphanumerics)
    ensures ParseForm(FormBody(parameters, alphanumerics)) == SentPairs(parameters)
  {
    var fields := FormFields(parameters, alphanumerics);
    if parameters != [] {
      forall i | 0 <= i < |fields| ensures '&' !in fields[i] {
        FormFieldParses(parameters[i].0, parameters[i].1, alphanumerics);
      }
      Text.SplitJoin(fields, '&');
    }
    FormFieldsParse(parameters, alphanumerics);
  }

  // ---------------------------------------------------------------------------------------------
  // The query of a GET

  /**
   * `components.percentEncodedQuery?.replacingOccurrences(of: "+", with: "%2B")`: the query that
   * `URLComponents` built from the parameters, with every literal `+` written as `%2B`.
   */
  function PlusEscapedQuery(query: Option<string>): (r: Option<string>)
    ensures r.Some? <==> query.Some?
    ensures r.Some? ==> '+' !in r.value
  {
    match query
    case None => None
    case Some(q) => Some(Text.ReplaceAll(q, '+', "%2B"))
  }

  lemma {:induction false} DecodeWithoutPlus(t: string)
    requires '+' !in t
    ensures PercentDecode(t, true) == PercentDecode(t, false)
    decreases |t|
  {
    if t != [] {
      assert t[0] != '+';
      if t[0] == '%' && |t| >= 3 && IsHexDigit(t[1]) && IsHexDigit(t[2]) {
        assert '+' !in t[3..] by { forall c | c in t[3..] ensures c in t { } }
        DecodeWithoutPlus(t[3..]);
      } else {
        assert '+' !in t[1..] by { forall c | c in t[1..] ensures c in t { } }
        DecodeWithoutPlus(t[1..]);
      }
    }
  }

  lemma ReplacePlusCons(q: string)
    requires q != []
    ensures Text.ReplaceAll(q, '+', "%2B")
         == (if q[0] == '+' then "%2B" else [q[0]]) + Text.ReplaceAll(q[1..], '+', "%2B")
  {
  }

  /** A `%` that does not start a `%XY` triple does not start one after re-escaping either. */
  lemma LoneEscapeStaysLone(q: string)
    requires q != [] && q[0] == '%'
    requires !(|q| >= 3 && IsHexDigit(q[1]) && IsHexDigit(q[2]))
    ensures var e := Text.ReplaceAll(q, '+', "%2B");
      e != [] && e[0] == '%' && !(|e| >= 3 && IsHexDigit(e[1]) && IsHexDigit(e[2]))
  {
    var e := Text.ReplaceAll(q, '+', "%2B");
    ReplacePlusCons(q);
    if |q| >= 2 {
      ReplacePlusCons(q[1..]);
      assert e[1] == (if q[1] == '+' then '%' else q[1]);
      if q[1] != '+' && IsHexDigit(q[1]) {
        if |q| == 2 {
          assert e == [q[0], q[1]];
        } else {
          ReplacePlusCons(q[2..]);
          assert q[1..][1..] == q[2..];
          assert e[2] == (if q[2] == '+' then '%' else q[2]);
        }
      }
    }
  }

  lemma EscapeTripleStays(q: string)
    requires |q| >= 3 && q[0] == '%' && IsHexDigit(q[1]) && IsHexDigit(q[2])
    ensures Text.ReplaceAll(q, '+', "%2B") == [q[0], q[1], q[2]] + Text.ReplaceAll(q[3..], '+', "%2B")
  {
    var triple := [q[0], q[1], q[2]];
    assert q == triple + q[3..];
    assert '+' !in triple;
    Text.ReplaceAllAppend(triple, q[3..], '+', "%2B");
    ReplaceAbsent(triple, '+', "%2B");
  }

  /** `%2B` read from a query is the byte of `+`. */
  lemma DecodeEscapedPlus(e: string)
    ensures PercentDecode("%2B" + e, false) == [0x2B] + PercentDecode(e, false)
  {
    var t := "%2B" + e;
    assert t[0] == '%' && t[1] == '2' && t[2] == 'B' && t[3..] == e;
  }

  /** `+` re-escaping does not change the bytes a query stands for, read with `+` taken literally. */
  lemma {:induction false} PlusEscapePreservesQuery(q: string)
    ensures PercentDecode(Text.ReplaceAll(q, '+', "%2B"), false) == PercentDecode(q, false)
    decreases |q|
  {
    if q != [] {
      var e := Text.ReplaceAll(q, '+', "%2B");
      var e1 := Text.ReplaceAll(q[1..], '+', "%2B");
      ReplacePlusCons(q);
      if q[0] == '+' {
        PlusEscapePreservesQuery(q[1..]);
        DecodeEscapedPlus(e1);
        assert EncodeChar('+') == [0x2B];
      } else if q[0] == '%' && |q| >= 3 && IsHexDigit(q[1]) && IsHexDigit(q[2]) {
        var e3 := Text.ReplaceAll(q[3..], '+', "%2B");
        EscapeTripleStays(q);
        assert e[1] == q[1] && e[2] == q[2] && e[3..] == e3;
        PlusEscapePreservesQuery(q[3..]);
      } else {
        PlusEscapePreservesQuery(q[1..]);
        assert e == [q[0]] + e1 && e[1..] == e1;
        if q[0] == '%' {
          LoneEscapeStaysLone(q);
        }
      }
    }
  }

  /**
   * After re-escaping, a server gets the same bytes from the query whether it reads `+` as a
   * space or literally, and those are the bytes the query stood for before.
   */
  lemma QueryUnambiguous(q: string)
    ensures PercentDecode(Text.ReplaceAll(q, '+', "%2B"), true) == PercentDecode(q, false)
  {
    DecodeWithoutPlus(Text.ReplaceAll(q, '+', "%2B"));
    PlusEscapePreservesQuery(q);
  }
}
