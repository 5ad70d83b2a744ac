// JSON strings: escaping, finding the closing quote, decoding, UTF-8. A string
// is a sequence of C chars; a char stands for one byte.
module JsonText {
  import opened Bytes

  const CONTROL_END: nat := 0x20

  function HexDigit(d: nat): char
    requires d < 16
  {
    "0123456789ABCDEF"[d]
  }

  function HexValue(c: char): Option<nat> {
    if '0' <= c <= '9' then Some(c as int - '0' as int)
    else if 'a' <= c <= 'f' then Some(c as int - 'a' as int + 10)
    else if 'A' <= c <= 'F' then Some(c as int - 'A' as int + 10)
    else None
  }

  // ----- valueToQuotedStringN -----

  function Escape(c: char): string {
    if c == '\"' then "\\\""
    else if c == '\\' then "\\\\"
    else if c as int == 8 then "\\b"
    else if c as int == 12 then "\\f"
    else if c == '\n' then "\\n"
    else if c == '\r' then "\\r"
    else if c == '\t' then "\\t"
    else if c as int < CONTROL_END then "\\u00" + [HexDigit(c as int / 16), HexDigit(c as int % 16)]
    else [c]
  }

  // How each character is written: seven have a letter of their own, the other
  // control characters four upper-case digits, the rest stand for themselves.
  lemma EscapeForms(c: char)
    ensures forall k :: 0 <= k < 7 && c as int == [34, 92, 8, 12, 10, 13, 9][k] ==> Escape(c) == ['\\', "\"\\bfnrt"[k]]
    ensures c as int < 32 && c as int !in [8, 12, 10, 13, 9] ==>
      Escape(c) == ['\\', 'u', '0', '0', "01"[c as int / 16], "0123456789ABCDEF"[c as int % 16]]
    ensures c as int >= 32 && c as int !in [34, 92] ==> Escape(c) == [c]
  {
  }

  function Escaped(s: string): string {
    if s == "" then "" else Escape(s[0]) + Escaped(s[1..])
  }

  function Quote(s: string): string {
    "\"" + Escaped(s) + "\""
  }

  predicate Special(c: char) {
    c in "\"\\\n\r\t" || c as int < CONTROL_END
  }

  lemma {:induction false} PlainText(s: string)
    requires forall k :: 0 <= k < |s| ==> !Special(s[k])
    ensures Escaped(s) == s
  {
    if s != "" {
      assert !Special(s[0]);
      PlainText(s[1..]);
    }
  }

  lemma {:induction false} EscapedJoin(a: string, b: string)
    ensures Escaped(a + b) == Escaped(a) + Escaped(b)
    decreases |a|
  {
    if a == "" {
      assert a + b == b;
    } else {
      assert (a + b)[1..] == a[1..] + b;
      EscapedJoin(a[1..], b);
    }
  }

  method HasSpecial(value: string) returns (found: bool)
    ensures found <==> exists k :: 0 <= k < |value| && Special(value[k])
  {
    for cur := 0 to |value|
      invariant forall k :: 0 <= k < cur ==> !Special(value[k])
    {
      if Special(value[cur]) {
        return true;
      }
    }
    return false;
  }

  // Plain text is copied; otherwise it is escaped character by character.
  method ValueToQuotedStringN(value: string) returns (result: string)
    ensures result == Quote(value)
  {
    hide Escape;
    var special := HasSpecial(value);
    if !special {
      PlainText(value);
      return "\"" + value + "\"";
    }
    result := "\"";
    for c := 0 to |value|
      invariant result == "\"" + Escaped(value[..c])
    {
      assert value[..c + 1] == value[..c] + [value[c]];
      EscapedJoin(value[..c], [value[c]]);
      assert Escaped([value[c]]) == Escape(value[c]);
      result := result + Escape(value[c]);
    }
    assert value[..|value|] == value;
    result := result + "\"";
  }

  // What a null-terminated string ends up as.
  function CString(s: string): (r: string)
    ensures '\0' !in s ==> r == s
  {
    if s == "" || s[0] == '\0' then "" else [s[0]] + CString(s[1..])
  }

  lemma {:induction false} CStringCuts(s: string)
    ensures CString(s) == s <==> '\0' !in s
  {
    if s != "" && s[0] != '\0' {
      CStringCuts(s[1..]);
      assert s == [s[0]] + s[1..];
    }
  }

  // ----- readString -----

  // Characters from behind the opening quote up to and including the closing one.
  function StringEnd(s: string): (r: Option<nat>)
    ensures r.Some? ==> 1 <= r.value <= |s| && s[r.value - 1] == '\"'
  {
    if s == "" then None
    else if s[0] == '\"' then Some(1)
    else if s[0] == '\\' then
      if |s| < 2 then None
      else var r := StringEnd(s[2..]); if r.Some? then Some(r.value + 2) else None
    else
      var r := StringEnd(s[1..]); if r.Some? then Some(r.value + 1) else None
  }

  function Later(r: Option<nat>, n: nat): Option<nat> {
    if r.Some? then Some(r.value + n) else None
  }

  lemma PassOne(c: char, rest: string)
    requires c != '\"' && c != '\\'
    ensures StringEnd([c] + rest) == Later(StringEnd(rest), 1)
  {
    assert ([c] + rest)[1..] == rest;
  }

  lemma PassTwo(c: char, rest: string)
    ensures StringEnd(['\\', c] + rest) == Later(StringEnd(rest), 2)
  {
    assert (['\\', c] + rest)[2..] == rest;
  }

  // Every byte of an escaped text is passed over.
  lemma EscapePassed(c: char, rest: string)
    ensures StringEnd(Escape(c) + rest) == Later(StringEnd(rest), |Escape(c)|)
  {
    hide StringEnd;
    if |Escape(c)| == 1 {
      PassOne(c, rest);
    } else if |Escape(c)| == 2 {
      PassTwo(Escape(c)[1], rest);
      assert Escape(c) == ['\\', Escape(c)[1]];
    } else {
      var a, b := HexDigit(c as int / 16), HexDigit(c as int % 16);
      HexPassed(a, b, rest);
      assert Escape(c) == ['\\', 'u', '0', '0', a, b];
    }
  }

  lemma HexPassed(a: char, b: char, rest: string)
    requires a != '\"' && a != '\\' && b != '\"' && b != '\\'
    ensures StringEnd(['\\', 'u', '0', '0', a, b] + rest) == Later(StringEnd(rest), 6)
  {
    hide StringEnd;
    PassOne(b, rest);
    PassOne(a, [b] + rest);
    PassOne('0', [a] + ([b] + rest));
    PassOne('0', ['0'] + ([a] + ([b] + rest)));
    PassTwo('u', ['0'] + (['0'] + ([a] + ([b] + rest))));
    assert ['\\', 'u', '0', '0', a, b] + rest == ['\\', 'u'] + (['0'] + (['0'] + ([a] + ([b] + rest))));
  }

  // readString stops exactly at the end of what valueToQuotedStringN wrote.
  lemma {:induction false} FindsTheEnd(x: string, tail: string)
    ensures StringEnd(Escaped(x) + "\"" + tail) == Some(|Escaped(x)| + 1)
    decreases |x|
  {
    hide Escape, StringEnd;
    if x == "" {
      EndHere(tail);
      assert Escaped(x) + "\"" + tail == "\"" + tail;
    } else {
      var rest := Escaped(x[1..]) + "\"" + tail;
      FindsTheEnd(x[1..], tail);
      EscapePassed(x[0], rest);
      assert Escaped(x) + "\"" + tail == Escape(x[0]) + rest;
    }
  }

  lemma EndHere(tail: string)
    ensures StringEnd("\"" + tail) == Some(1)
  {
  }

  // ----- decodeString -----

  function Char(n: nat): char
    requires n < 256
  {
    n as char
  }

  // codePointToUTF8
  function Utf8(cp: nat): (r: string) {
    if cp <= 0x7F then [Char(cp)]
    else if cp <= 0x7FF then [Char(0xC0 + cp / 0x40), Char(0x80 + cp % 0x40)]
    else if cp <= 0xFFFF then [Char(0xE0 + cp / 0x1000), Char(0x80 + cp / 0x40 % 0x40), Char(0x80 + cp % 0x40)]
    else if cp <= 0x10FFFF then
      [Char(0xF0 + cp / 0x40000), Char(0x80 + cp / 0x1000 % 0x40), Char(0x80 + cp / 0x40 % 0x40), Char(0x80 + cp % 0x40)]
    else ""
  }

  function HexWord(s: string): Option<nat> {
    if |s| < 4 then None
    else match (HexValue(s[0]), HexValue(s[1]), HexValue(s[2]), HexValue(s[3]))
      case (Some(a), Some(b), Some(c), Some(d)) => Some(((a * 16 + b) * 16 + c) * 16 + d)
      case _ => None
  }

  predicate HighSurrogate(u: nat) { 0xD800 <= u <= 0xDBFF }
  predicate LowSurrogate(u: nat) { 0xDC00 <= u <= 0xDFFF }

  function PairValue(high: nat, low: nat): nat {
    0x10000 + high % 0x400 * 0x400 + low % 0x400
  }

  // The code point written behind a backslash and 'u', and how long it is.
  function CodePoint(s: string): (r: Option<(nat, nat)>)
    ensures r.Some? ==> 4 <= r.value.1 <= |s|
  {
    match HexWord(s)
    case None => None
    case Some(u) =>
      if !HighSurrogate(u) then Some((u, 4))
      else if |s| < 10 then None
      else if s[4] != '\\' || s[5] != 'u' then None
      else match HexWord(s[6..])
        case None => None
        case Some(w) => Some((PairValue(u, w), 10))
  }

  function Unescaped(e: char): Option<char> {
    if e == '\"' then Some('\"')
    else if e == '/' then Some('/')
    else if e == '\\' then Some('\\')
    else if e == 'b' then Some(8 as char)
    else if e == 'f' then Some(12 as char)
    else if e == 'n' then Some('\n')
    else if e == 'r' then Some('\r')
    else if e == 't' then Some('\t')
    else None
  }

  function Prefixed(p: string, r: Option<string>): Option<string> {
    if r.Some? then Some(p + r.value) else None
  }

  // The text between the quotes.
  function DecodeBody(s: string): Option<string>
    decreases |s|
  {
    if s == "" || s[0] == '\"' then Some("")
    else if s[0] != '\\' then Prefixed([s[0]], DecodeBody(s[1..]))
    else if |s| == 1 then None
    else if s[1] == 'u' then
      match CodePoint(s[2..])
      case None => None
      case Some((cp, used)) => Prefixed(Utf8(cp), DecodeBody(s[2 + used..]))
    else
      match Unescaped(s[1])
      case None => None
      case Some(c) => Prefixed([c], DecodeBody(s[2..]))
  }

  function Decode(token: string): Option<string> {
    if |token| < 2 then None else DecodeBody(token[1..|token| - 1])
  }

  lemma EscapeDecodes(c: char, rest: string)
    ensures DecodeBody(Escape(c) + rest) == Prefixed([c], DecodeBody(rest))
  {
    hide CodePoint, Utf8, HexDigit, DecodeBody;
    var e := Escape(c);
    if |e| == 1 {
      PlainDecodes(c, rest);
    } else if |e| == 2 {
      ShortDecodes(c, e[1], rest);
      assert e == ['\\', e[1]];
    } else {
      ControlDecodes(c as int, rest);
    }
  }

  lemma PlainDecodes(c: char, rest: string)
    requires c != '\"' && c != '\\'
    ensures DecodeBody([c] + rest) == Prefixed([c], DecodeBody(rest))
  {
    assert ([c] + rest)[1..] == rest;
  }

  lemma ShortDecodes(c: char, e: char, rest: string)
    requires e != 'u' && Unescaped(e) == Some(c)
    ensures DecodeBody(['\\', e] + rest) == Prefixed([c], DecodeBody(rest))
  {
    hide Unescaped;
    assert (['\\', e] + rest)[2..] == rest;
  }

  lemma ControlDecodes(n: nat, rest: string)
    requires n < CONTROL_END
    ensures DecodeBody("\\u00" + [HexDigit(n / 16), HexDigit(n % 16)] + rest) == Prefixed([Char(n)], DecodeBody(rest))
  {
    hide HexDigit, HexValue;
    var h := ['0', '0', HexDigit(n / 16), HexDigit(n % 16)];
    var s := "\\u00" + [HexDigit(n / 16), HexDigit(n % 16)] + rest;
    HexRoundTrip(0);
    HexRoundTrip(n / 16);
    HexRoundTrip(n % 16);
    ZeroDigit();
    assert s[2..] == h + rest && s[2 + 4..] == rest;
    SamePrefix(h, s[2..]);
  }

  lemma ZeroDigit()
    ensures HexDigit(0) == '0'
  {
  }

  // decodeString undoes valueToQuotedStringN on every byte string, NULs included.
  lemma {:induction false} QuoteDecodes(x: string)
    ensures Decode(Quote(x)) == Some(x)
  {
    BodyDecodes(x);
    assert Quote(x)[1..|Quote(x)| - 1] == Escaped(x);
  }

  lemma {:induction false} BodyDecodes(x: string)
    ensures DecodeBody(Escaped(x)) == Some(x)
    decreases |x|
  {
    hide Escape;
    if x != "" {
      BodyDecodes(x[1..]);
      EscapeDecodes(x[0], Escaped(x[1..]));
      assert x == [x[0]] + x[1..];
    }
  }

  method DecodeString(token: string) returns (decoded: Option<string>)
    requires |token| >= 2
    ensures decoded == Decode(token)
  {
    hide CodePoint, Utf8, Unescaped;
    var body := token[1..|token| - 1];
    var current, text: string := 0, "";
    assert body[0..] == body;
    PrefixedNothing(DecodeBody(body));
    while current != |body|
      invariant 0 <= current <= |body|
      invariant DecodeBody(body) == Prefixed(text, DecodeBody(body[current..]))
      decreases |body| - current
    {
      ghost var rest := body[current..];
      var c := body[current];
      assert rest[0] == c && rest[1..] == body[current + 1..];
      var add := "";
      if c == '\"' {
        assert text + "" == text;
        return Some(text);
      } else if c == '\\' {
        if current + 1 == |body| {
          return None;
        }
        var escape := body[current + 1];
        assert rest[1] == escape && rest[2..] == body[current + 2..];
        if escape == 'u' {
          var unicode := CodePoint(body[current + 2..]);
          if unicode.None? {
            return None;
          }
          assert rest[2 + unicode.value.1..] == body[current + 2 + unicode.value.1..];
          add := Utf8(unicode.value.0);
          current := current + 2 + unicode.value.1;
        } else {
          var plain := Unescaped(escape);
          if plain.None? {
            return None;
          }
          add := [plain.value];
          current := current + 2;
        }
      } else {
        add := [c];
        current := current + 1;
      }
      PrefixedTwice(text, add, DecodeBody(body[current..]));
      text := text + add;
    }
    assert text + "" == text;
    decoded := Some(text);
  }

  lemma PrefixedNothing(r: Option<string>)
    ensures Prefixed("", r) == r
  {
    if r.Some? {
      assert "" + r.value == r.value;
    }
  }

  lemma PrefixedTwice(a: string, b: string, r: Option<string>)
    ensures Prefixed(a, Prefixed(b, r)) == Prefixed(a + b, r)
  {
    if r.Some? {
      assert a + (b + r.value) == a + b + r.value;
    }
  }

  // ----- Unicode -----

  predicate Continuation(c: char) { 0x80 <= c as int < 0xC0 }

  // The code point a UTF-8 sequence stands for: section 3 of RFC 3629.
  function Utf8Value(s: string): Option<nat> {
    if |s| == 1 && s[0] as int < 0x80 then Some(s[0] as int)
    else if |s| == 2 && 0xC2 <= s[0] as int < 0xE0 && Continuation(s[1]) then
      Some((s[0] as int - 0xC0) * 0x40 + (s[1] as int - 0x80))
    else if |s| == 3 && 0xE0 <= s[0] as int < 0xF0 && Continuation(s[1]) && Continuation(s[2]) then
      var n := (s[0] as int - 0xE0) * 0x1000 + (s[1] as int - 0x80) * 0x40 + (s[2] as int - 0x80);
      if n >= 0x800 && !(0xD800 <= n <= 0xDFFF) then Some(n) else None
    else if |s| == 4 && 0xF0 <= s[0] as int < 0xF8 && Continuation(s[1]) && Continuation(s[2]) && Continuation(s[3]) then
      var n := (s[0] as int - 0xF0) * 0x40000 + (s[1] as int - 0x80) * 0x1000 + (s[2] as int - 0x80) * 0x40 + (s[3] as int - 0x80);
      if 0x10000 <= n <= 0x10FFFF then Some(n) else None
    else None
  }

  // A code point comes out in UTF-8 if and only if it is one: within range and
  // no surrogate.
  lemma Utf8Exact(cp: nat)
    ensures Utf8Value(Utf8(cp)) == Some(cp) <==> cp <= 0x10FFFF && !HighSurrogate(cp) && !LowSurrogate(cp)
    ensures Utf8Value(Utf8(cp)).Some? ==> Utf8Value(Utf8(cp)) == Some(cp)
  {
    if cp <= 0x7F {
    } else if cp <= 0x7FF {
      assert cp == cp / 0x40 * 0x40 + cp % 0x40;
    } else if cp <= 0xFFFF {
      ThreeBytes(cp);
    } else if cp <= 0x10FFFF {
      FourBytes(cp);
    }
  }

  lemma ThreeBytes(cp: nat)
    requires 0x800 <= cp <= 0xFFFF
    ensures Utf8Value(Utf8(cp)) == if HighSurrogate(cp) || LowSurrogate(cp) then None else Some(cp)
  {
    assert cp / 0x40 / 0x40 == cp / 0x1000;
    assert cp == cp / 0x1000 * 0x1000 + cp / 0x40 % 0x40 * 0x40 + cp % 0x40;
  }

  lemma FourBytes(cp: nat)
    requires 0x10000 <= cp <= 0x10FFFF
    ensures Utf8Value(Utf8(cp)) == Some(cp)
  {
    assert cp / 0x40 / 0x40 == cp / 0x1000 && cp / 0x1000 / 0x40 == cp / 0x40000;
    assert cp == cp / 0x40000 * 0x40000 + cp / 0x1000 % 0x40 * 0x1000 + cp / 0x40 % 0x40 * 0x40 + cp % 0x40;
  }

  // The surrogates of a code point above 0xFFFF: section 7 of RFC 8259.
  function High(cp: nat): nat
    requires 0x10000 <= cp
  {
    0xD800 + (cp - 0x10000) / 0x400
  }

  function Low(cp: nat): nat
    requires 0x10000 <= cp
  {
    0xDC00 + (cp - 0x10000) % 0x400
  }

  function HexText(u: nat): string
    requires u < 0x10000
  {
    [HexDigit(u / 0x1000), HexDigit(u / 0x100 % 16), HexDigit(u / 16 % 16), HexDigit(u % 16)]
  }

  // Four hexadecimal digits, in either case, that stand for u.
  const LOWER: string := "0123456789abcdef"
  const UPPER: string := "0123456789ABCDEF"

  predicate IsDigitFor(c: char, d: nat)
    requires d < 16
  {
    c == LOWER[d] || c == UPPER[d]
  }

  // Four hexadecimal digits of u, each in either case.
  predicate IsHexFor(h: string, u: nat) {
    && |h| == 4 && u < 0x10000
    && IsDigitFor(h[0], u / 0x1000) && IsDigitFor(h[1], u / 0x100 % 16) && IsDigitFor(h[2], u / 16 % 16) && IsDigitFor(h[3], u % 16)
  }

  lemma DigitRead(c: char, d: nat)
    requires d < 16
    ensures HexValue(c) == Some(d) <==> IsDigitFor(c, d)
  {
  }

  // Exactly the digits of a number are read as that number.
  lemma HexRead(h: string, u: nat)
    requires |h| == 4
    ensures HexWord(h) == Some(u) <==> IsHexFor(h, u)
  {
    hide HexValue, IsDigitFor;
    if u < 0x10000 {
      DigitRead(h[0], u / 0x1000);
      DigitRead(h[1], u / 0x100 % 16);
      DigitRead(h[2], u / 16 % 16);
      DigitRead(h[3], u % 16);
      HexSum(u);
    }
    if HexWord(h).Some? {
      var a, b, c, d := HexValue(h[0]), HexValue(h[1]), HexValue(h[2]), HexValue(h[3]);
      HexBound(h[0]);
      HexBound(h[1]);
      HexBound(h[2]);
      HexBound(h[3]);
      HexParts(a.value, b.value, c.value, d.value);
      if HexWord(h) == Some(u) {
        assert u < 0x10000;
      }
    }
  }

  lemma HexBound(c: char)
    ensures HexValue(c).Some? ==> HexValue(c).value < 16
  {
  }

  lemma HexParts(a: nat, b: nat, c: nat, d: nat)
    requires a < 16 && b < 16 && c < 16 && d < 16
    ensures var u := ((a * 16 + b) * 16 + c) * 16 + d;
      u < 0x10000 && u / 0x1000 == a && u / 0x100 % 16 == b && u / 16 % 16 == c && u % 16 == d
  {
  }

  lemma HexSpells(u: nat)
    requires u < 0x10000
    ensures IsHexFor(HexText(u), u)
  {
    hide HexDigit, HexValue, IsDigitFor;
    HexRoundTrip(u / 0x1000);
    HexRoundTrip(u / 0x100 % 16);
    HexRoundTrip(u / 16 % 16);
    HexRoundTrip(u % 16);
    HexSum(u);
    HexRead(HexText(u), u);
  }

  lemma HexSum(u: nat)
    requires u < 0x10000
    ensures ((u / 0x1000 * 16 + u / 0x100 % 16) * 16 + u / 16 % 16) * 16 + u % 16 == u
  {
    assert u / 16 / 16 == u / 0x100 && u / 0x100 / 16 == u / 0x1000;
  }

  lemma HexRoundTrip(d: nat)
    requires d < 16
    ensures HexValue(HexDigit(d)) == Some(d)
  {
  }

  // Every code point above 0xFFFF, written as its surrogate pair, comes out as
  // the UTF-8 for it, wherever it stands in the text.
  lemma PairDecodes(cp: nat, h: string, l: string, rest: string)
    requires 0x10000 <= cp <= 0x10FFFF && IsHexFor(h, High(cp)) && IsHexFor(l, Low(cp))
    ensures DecodeBody("\\u" + h + "\\u" + l + rest) == Prefixed(Utf8(cp), DecodeBody(rest))
    ensures Utf8Value(Utf8(cp)) == Some(cp)
  {
    hide HexWord, IsHexFor, Utf8, Utf8Value;
    var s := "\\u" + h + "\\u" + l + rest;
    FourDigits(h, High(cp));
    FourDigits(l, Low(cp));
    Utf8Exact(cp);
    PairOf(cp);
    assert s[2..] == h + "\\u" + l + rest;
    assert s[8..] == l + rest && s[2..][6..] == s[8..] && s[2 + 10..] == rest;
    SamePrefix(h, s[2..]);
    SamePrefix(l, s[8..]);
  }

  lemma FourDigits(h: string, u: nat)
    requires IsHexFor(h, u)
    ensures |h| == 4 && HexWord(h) == Some(u)
  {
    hide HexWord;
    HexRead(h, u);
  }

  lemma SamePrefix(h: string, s: string)
    requires |h| == 4 <= |s| && s[..4] == h
    ensures HexWord(s) == HexWord(h)
  {
    assert s[0] == s[..4][0] && s[1] == s[..4][1] && s[2] == s[..4][2] && s[3] == s[..4][3];
  }

  lemma PairOf(cp: nat)
    requires 0x10000 <= cp <= 0x10FFFF
    ensures HighSurrogate(High(cp)) && LowSurrogate(Low(cp)) && PairValue(High(cp), Low(cp)) == cp
  {
    var n := cp - 0x10000;
    assert n == n / 0x400 * 0x400 + n % 0x400;
    assert 0xD800 % 0x400 == 0 && 0xDC00 % 0x400 == 0;
  }

  // Any other code point written as one escape comes out as its UTF-8.
  lemma EscapeDecodesPlain(cp: nat, h: string, rest: string)
    requires cp <= 0xFFFF && !HighSurrogate(cp) && IsHexFor(h, cp)
    ensures DecodeBody("\\u" + h + rest) == Prefixed(Utf8(cp), DecodeBody(rest))
  {
    hide HexWord, IsHexFor, Utf8;
    var s := "\\u" + h + rest;
    FourDigits(h, cp);
    assert s[2..] == h + rest && s[2 + 4..] == rest;
    SamePrefix(h, s[2..]);
  }

  const ESCAPES: string := "\"\\/bfnrt"
  const MEANINGS: seq<nat> := [34, 92, 47, 8, 12, 10, 13, 9]

  // The eight short escapes, and no other letter makes one.
  lemma ShortEscapes(e: char, rest: string)
    requires e != 'u'
    ensures forall k :: 0 <= k < 8 && ESCAPES[k] == e ==> DecodeBody(['\\', e] + rest) == Prefixed([MEANINGS[k] as char], DecodeBody(rest))
    ensures e !in ESCAPES ==> DecodeBody(['\\', e] + rest) == None
  {
    assert (['\\', e] + rest)[2..] == rest;
  }

  // The second half of a pair is not checked: the pair stands for the code
  // point it yields if and only if the second half is a low surrogate.
  lemma SecondHalfUnchecked(high: nat, second: nat)
    requires HighSurrogate(high) && second < 0x10000
    ensures var cp := PairValue(high, second);
      0x10000 <= cp <= 0x10FFFF && (High(cp) == high && Low(cp) == second <==> LowSurrogate(second))
  {
    var cp := PairValue(high, second);
    assert high == 0xD800 + high % 0x400;
    assert (cp - 0x10000) / 0x400 == high % 0x400 && (cp - 0x10000) % 0x400 == second % 0x400;
  }
}
