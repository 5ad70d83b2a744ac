// Tokens: what Reader::readToken finds in a document, and when a piece of text
// stands for a list of tokens wherever it is put.
module JsonLex {
  import opened Bytes
  import opened JsonText
  import opened JsonNumber

  datatype Token =
    | Punct(char)              // one of {}[],:
    | Quoted(text: string)     // with its quotes
    | Num(text: string)
    | True
    | False
    | NullWord
    | Comment
    | NulByte                  // taken for the end of the stream
    | EndOfStream
    | Error

  predicate IsSpace(c: char) { c == ' ' || c == '\t' || c == '\r' || c == '\n' }

  // skipSpaces
  function Spaces(s: string): (n: nat)
    ensures n <= |s| && (n < |s| ==> !IsSpace(s[n]))
    ensures forall k :: 0 <= k < n ==> IsSpace(s[k])
  {
    if s == "" || !IsSpace(s[0]) then 0 else 1 + Spaces(s[1..])
  }

  function DigitRun(s: string, k: nat): (e: nat)
    requires k <= |s|
    ensures k <= e <= |s| && (e < |s| ==> !IsDigit(s[e])) && forall j :: k <= j < e ==> IsDigit(s[j])
    decreases |s| - k
  {
    if k < |s| && IsDigit(s[k]) then DigitRun(s, k + 1) else k
  }

  // readNumber: digits, a fraction, an exponent, each as long as it goes.
  function NumberEnd(s: string): (e: nat)
    requires s != ""
    ensures 1 <= e <= |s|
  {
    ExponentEnd(s, FractionEnd(s, DigitRun(s, 1)))
  }

  function FractionEnd(s: string, a: nat): (e: nat)
    requires a <= |s|
    ensures a <= e <= |s|
  {
    if a < |s| && s[a] == '.' then DigitRun(s, a + 1) else a
  }

  function ExponentEnd(s: string, b: nat): (e: nat)
    requires b <= |s|
    ensures b <= e <= |s|
  {
    if b < |s| && (s[b] == 'e' || s[b] == 'E') then
      var c := b + 1;
      DigitRun(s, if c < |s| && (s[c] == '+' || s[c] == '-') then c + 1 else c)
    else b
  }

  // readCStyleComment, behind the opening: whether it is closed, and what it takes.
  function StarEnd(s: string): (r: (bool, nat))
    ensures r.1 <= |s|
  {
    if s == "" then (false, 0)
    else if s[0] == '*' && |s| > 1 && s[1] == '/' then (true, 2)
    else Further(StarEnd(s[1..]), 1)
  }

  function Further(r: (bool, nat), n: nat): (bool, nat) {
    (r.0, r.1 + n)
  }

  // readCppStyleComment: up to and including the end of the line.
  function LineEnd(s: string): (n: nat)
    ensures n <= |s|
  {
    if s == "" then 0
    else if s[0] == '\n' then 1
    else if s[0] == '\r' then if |s| > 1 && s[1] == '\n' then 2 else 1
    else 1 + LineEnd(s[1..])
  }

  // readComment, behind the first slash.
  function CommentEnd(s: string): (r: (bool, nat))
    ensures r.1 <= |s|
  {
    if s == "" then (false, 0)
    else if s[0] == '*' then Further(StarEnd(s[1..]), 1)
    else if s[0] == '/' then (true, 1 + LineEnd(s[1..]))
    else (false, 1)
  }

  predicate StartsWith(s: string, word: string) {
    |word| <= |s| && s[..|word|] == word
  }

  // The token at the start of a text without leading spaces, and its length.
  function Head(s: string): (r: (Token, nat))
    ensures r.1 <= |s|
    ensures if Final(r.0) then s == "" else r.1 > 0
    ensures (r.0.Num? ==> r.0.text != "") && (r.0.Quoted? ==> |r.0.text| >= 2)
  {
    if s == "" then (EndOfStream, 0)
    else
      var c, rest := s[0], s[1..];
      if c in "{}[],:" then (Punct(c), 1)
      else if c == '\"' then
        match StringEnd(rest)
        case Some(k) => (Quoted(s[..1 + k]), 1 + k)
        case None => (Error, |s|)
      else if c == '/' then
        var (ok, n) := CommentEnd(rest);
        (if ok then Comment else Error, 1 + n)
      else if IsDigit(c) || c == '-' then (Num(s[..NumberEnd(s)]), NumberEnd(s))
      else if c == 't' && StartsWith(rest, "rue") then (True, 4)
      else if c == 'f' && StartsWith(rest, "alse") then (False, 5)
      else if c == 'n' && StartsWith(rest, "ull") then (NullWord, 4)
      else if c == '\0' then (NulByte, 1)
      else (Error, 1)
  }

  // readToken: the first token and the length up to its end.
  function Next(s: string): (r: (Token, nat))
    ensures r.1 <= |s|
    ensures if Final(r.0) then r.1 == |s| else r.1 > 0
    ensures (r.0.Num? ==> r.0.text != "") && (r.0.Quoted? ==> |r.0.text| >= 2)
  {
    var n := Spaces(s);
    var (t, k) := Head(s[n..]);
    (t, n + k)
  }

  predicate Final(t: Token) { t.EndOfStream? }

  // All tokens up to the end of the stream.
  function Tokens(s: string): (ts: seq<Token>)
    ensures ts != []
    decreases |s|
  {
    var (t, n) := Next(s);
    if Final(t) then [t] else [t] + Tokens(s[n..])
  }

  // The token list that starts where the reader stands.
  lemma TokensHere(s: string)
    ensures var (t, n) := Next(s); Tokens(s) == if Final(t) then [t] else [t] + Tokens(s[n..])
  {
    hide Next;
  }

  // ----- text that spells tokens -----

  // What may not directly follow a number.
  predicate GoesOn(c: char) {
    IsDigit(c) || c == '.' || c == 'e' || c == 'E'
  }

  // Put before any text (that does not go on with a number, unless `any`), s
  // contributes exactly the tokens ts.
  ghost predicate Spells(s: string, ts: seq<Token>, any: bool) {
    forall tail: string :: any || tail == "" || !GoesOn(tail[0]) ==> Tokens(s + tail) == ts + Tokens(tail)
  }

  lemma SpellsNothing()
    ensures Spells("", [], true)
  {
    forall tail: string ensures Tokens("" + tail) == [] + Tokens(tail) {
      assert "" + tail == tail;
    }
  }

  lemma Weaken(s: string, ts: seq<Token>)
    requires Spells(s, ts, true)
    ensures Spells(s, ts, false)
  {
  }

  // The tokens of a whole document.
  lemma SpellsAll(s: string, ts: seq<Token>, any: bool)
    requires Spells(s, ts, any)
    ensures Tokens(s) == ts + [EndOfStream]
  {
    assert s + "" == s;
    assert Tokens("") == [EndOfStream];
  }

  // One more token, when its text is read as that token before any such tail.
  lemma Append(s: string, ts: seq<Token>, any: bool, text: string, t: Token, after: bool)
    requires Spells(s, ts, any) && text != "" && (any || !GoesOn(text[0])) && !Final(t)
    requires forall tail: string :: after || tail == "" || !GoesOn(tail[0]) ==> Next(text + tail) == (t, |text|)
    ensures Spells(s + text, ts + [t], after)
  {
    hide Next, Tokens;
    forall tail: string | after || tail == "" || !GoesOn(tail[0])
      ensures Tokens(s + text + tail) == ts + [t] + Tokens(tail)
    {
      assert s + text + tail == s + (text + tail);
      assert (text + tail)[0] == text[0];
      TokensStep(text, tail, t);
      assert ts + ([t] + Tokens(tail)) == ts + [t] + Tokens(tail);
    }
  }

  lemma TokensStep(text: string, tail: string, t: Token)
    requires Next(text + tail) == (t, |text|) && !Final(t)
    ensures Tokens(text + tail) == [t] + Tokens(tail)
  {
    hide Next;
    assert (text + tail)[|text|..] == tail;
  }

  lemma AppendPunct(s: string, ts: seq<Token>, any: bool, c: char)
    requires Spells(s, ts, any) && c in "{}[],:"
    ensures Spells(s + [c], ts + [Punct(c)], true)
  {
    hide Spells, Tokens;
    forall tail: string ensures Next([c] + tail) == (Punct(c), 1) {
      assert ([c] + tail)[0] == c;
    }
    assert !GoesOn(c);
    Append(s, ts, any, [c], Punct(c), true);
  }

  lemma {:induction false} AppendSpaces(s: string, ts: seq<Token>, any: bool, space: string)
    requires Spells(s, ts, any) && forall k :: 0 <= k < |space| ==> IsSpace(space[k])
    ensures Spells(s + space, ts, any || space != "")
    decreases |space|
  {
    hide Spells;
    if space == "" {
      assert s + space == s;
    } else {
      var most, last := space[..|space| - 1], space[|space| - 1];
      AppendSpaces(s, ts, any, most);
      AppendSpace(s + most, ts, any || most != "", last);
      assert s + most + [last] == s + space;
    }
  }

  lemma AppendSpace(s: string, ts: seq<Token>, any: bool, c: char)
    requires Spells(s, ts, any) && IsSpace(c)
    ensures Spells(s + [c], ts, true)
  {
    hide Tokens;
    forall tail: string ensures Tokens(s + [c] + tail) == ts + Tokens(tail) {
      assert s + [c] + tail == s + ([c] + tail);
      assert ([c] + tail)[0] == c;
      SpaceSkipped(c, tail);
    }
  }

  lemma SpaceSkipped(c: char, tail: string)
    requires IsSpace(c)
    ensures Tokens([c] + tail) == Tokens(tail)
  {
    hide Next, Tokens;
    SpaceFirst(c, tail);
    TokensHere([c] + tail);
    TokensHere(tail);
    var k := Next(tail).1;
    assert ([c] + tail)[1 + k..] == tail[k..];
  }

  lemma SpaceFirst(c: char, tail: string)
    requires IsSpace(c)
    ensures Next([c] + tail) == (Next(tail).0, 1 + Next(tail).1)
  {
    hide Head;
    var s := [c] + tail;
    var n := Spaces(tail);
    assert s[1..] == tail && Spaces(s) == 1 + n;
    assert s[1 + n..] == tail[n..];
  }

  lemma AppendQuoted(s: string, ts: seq<Token>, any: bool, x: string)
    requires Spells(s, ts, any)
    ensures Spells(s + Quote(x), ts + [Quoted(Quote(x))], true)
  {
    hide Spells, Tokens, StringEnd, Escaped;
    forall tail: string ensures Next(Quote(x) + tail) == (Quoted(Quote(x)), |Quote(x)|) {
      var doc := Quote(x) + tail;
      FindsTheEnd(x, tail);
      assert doc[1..] == Escaped(x) + "\"" + tail;
      assert doc[0..|Quote(x)|] == Quote(x);
    }
    Append(s, ts, any, Quote(x), Quoted(Quote(x)), true);
  }

  lemma AppendNumber(s: string, ts: seq<Token>, value: int)
    requires Spells(s, ts, true)
    ensures Spells(s + Print(value), ts + [Num(Print(value))], false)
  {
    hide Spells, Tokens;
    var text := Print(value);
    PrintedAmount(value);
    DigitsAmount(if value < 0 then -value else value);
    forall tail: string | tail == "" || !GoesOn(tail[0]) ensures Next(text + tail) == (Num(text), |text|) {
      NumberRead(text, tail);
    }
    Append(s, ts, true, text, Num(text), false);
  }

  lemma NumberRead(text: string, tail: string)
    requires text != "" && (IsDigit(text[0]) || text[0] == '-') && forall k :: 1 <= k < |text| ==> IsDigit(text[k])
    requires tail == "" || !GoesOn(tail[0])
    ensures Next(text + tail) == (Num(text), |text|)
  {
    var doc := text + tail;
    RunTo(doc, 1, |text|);
    assert Spaces(doc) == 0 && doc[0..] == doc;
    assert doc[0..|text|] == text;
  }

  lemma {:induction false} RunTo(s: string, k: nat, e: nat)
    requires k <= e <= |s| && (e < |s| ==> !IsDigit(s[e])) && forall j :: k <= j < e ==> IsDigit(s[j])
    ensures DigitRun(s, k) == e
    decreases e - k
  {
    if k < e {
      RunTo(s, k + 1, e);
    }
  }

  // The three words of JSON.
  function Word(t: Token): string
    requires t in {True, False, NullWord}
  {
    if t.True? then "true" else if t.False? then "false" else "null"
  }

  lemma AppendWord(s: string, ts: seq<Token>, any: bool, t: Token)
    requires Spells(s, ts, any) && t in {True, False, NullWord}
    ensures Spells(s + Word(t), ts + [t], true)
  {
    hide Spells, Tokens;
    forall tail: string ensures Next(Word(t) + tail) == (t, |Word(t)|) {
      var doc := Word(t) + tail;
      assert doc[1..][..|Word(t)| - 1] == Word(t)[1..];
    }
    Append(s, ts, any, Word(t), t, true);
  }

  // A comment that is closed where its text ends.
  lemma {:induction false} StarEnds(x: string, tail: string)
    requires forall k :: 0 <= k < |x| - 1 ==> !(x[k] == '*' && x[k + 1] == '/')
    ensures StarEnd(x + "*/" + tail) == (true, |x| + 2)
    decreases |x|
  {
    var s := x + "*/" + tail;
    if x != "" {
      assert s[1..] == x[1..] + "*/" + tail;
      StarEnds(x[1..], tail);
    } else {
      assert s[0] == '*' && s[1] == '/';
    }
  }

  // A comment adds one comment token wherever it stands.
  lemma AppendComment(s: string, ts: seq<Token>, any: bool, x: string)
    requires Spells(s, ts, any)
    requires forall k :: 0 <= k < |x| - 1 ==> !(x[k] == '*' && x[k + 1] == '/')
    ensures Spells(s + "/*" + x + "*/", ts + [Comment], true)
  {
    hide Spells, Tokens, StarEnd;
    var text := "/*" + x + "*/";
    forall tail: string ensures Next(text + tail) == (Comment, |text|) {
      var doc := text + tail;
      StarEnds(x, tail);
      assert doc[1..][1..] == x + "*/" + tail && doc[0..] == doc;
      assert doc[0] == '/' && doc[1] == '*';
    }
    Append(s, ts, any, text, Comment, true);
    assert s + text == s + "/*" + x + "*/";
  }
}
