// FastWriter and StyledWriter, and why both write the same tokens.
module JsonWriters {
  import opened Bytes
  import opened JsonText
  import opened JsonNumber
  import opened JsonValue
  import opened JsonLex

  // What the writers are for: no reals, 64-bit integers but the most negative.
  predicate Printable(v: Value)
    decreases v
  {
    match v
    case Int(i) => -MIN_MAGNITUDE < i < MIN_MAGNITUDE
    case UInt(u) => u <= MAX_UINT
    case Real(_) => false
    case Arr(items) => forall x :: x in items ==> Printable(x)
    case Obj(members) => forall m :: m in members ==> Printable(m.value)
    case _ => true
  }

  // ----- the tokens of a value -----

  function ValueTokens(v: Value): seq<Token>
    decreases v
  {
    match v
    case Null => [NullWord]
    case Int(i) => [Num(Print(i))]
    case UInt(u) => [Num(Print(u))]
    case Real(t) => [Num(t)]
    case Str(s) => [Quoted(Quote(s))]
    case Bool(b) => [if b then True else False]
    case Arr(items) => [Punct('[')] + ItemTokens(items, 0)
    case Obj(members) => [Punct('{')] + MemberTokens(members, 0)
  }

  // From item k to the closing bracket.
  function ItemTokens(items: seq<Value>, k: nat): seq<Token>
    requires k <= |items|
    decreases items, |items| - k
  {
    if k == |items| then [Punct(']')]
    else (if k > 0 then [Punct(',')] else []) + ValueTokens(items[k]) + ItemTokens(items, k + 1)
  }

  function MemberTokens(members: seq<Member>, k: nat): seq<Token>
    requires k <= |members|
    decreases members, |members| - k
  {
    if k == |members| then [Punct('}')]
    else
      (if k > 0 then [Punct(',')] else [])
      + [Quoted(Quote(members[k].name)), Punct(':')] + ValueTokens(members[k].value) + MemberTokens(members, k + 1)
  }

  // ----- FastWriter -----

  // A value on one line without spaces.
  function Fast(v: Value): string
    decreases v
  {
    match v
    case Null => "null"
    case Int(i) => Print(i)
    case UInt(u) => Print(u)
    case Real(t) => t
    case Str(s) => Quote(s)
    case Bool(b) => if b then "true" else "false"
    case Arr(items) => "[" + FastItems(items, 0)
    case Obj(members) => "{" + FastMembers(members, 0)
  }

  function FastItems(items: seq<Value>, k: nat): string
    requires k <= |items|
    decreases items, |items| - k
  {
    if k == |items| then "]" else (if k > 0 then "," else "") + Fast(items[k]) + FastItems(items, k + 1)
  }

  function FastMembers(members: seq<Member>, k: nat): string
    requires k <= |members|
    decreases members, |members| - k
  {
    if k == |members| then "}"
    else (if k > 0 then "," else "") + Quote(members[k].name) + ":" + Fast(members[k].value) + FastMembers(members, k + 1)
  }

  class FastWriter {
    var document: string

    constructor ()
      ensures document == ""
    {
      document := "";
    }

    method Write(root: Value) returns (text: string)
      requires Printable(root)
      modifies this
      ensures text == document == Fast(root) + "\n"
    {
      document := "";
      WriteValue(root);
      document := document + "\n";
      text := document;
    }

    method WriteValue(value: Value)
      requires Printable(value)
      modifies this
      ensures document == old(document) + Fast(value)
      decreases value
    {
      hide Print, Quote;
      match value {
        case Null =>
          document := document + "null";
        case Int(i) =>
          var text := ValueToString(i);
          document := document + text;
        case UInt(u) =>
          var text := ValueToString(u);
          document := document + text;
        case Str(s) =>
          var text := ValueToQuotedStringN(s);
          document := document + text;
        case Bool(b) =>
          document := document + if b then "true" else "false";
        case Arr(items) =>
          WriteItems(items);
        case Obj(members) =>
          WriteMembers(members);
      }
    }

    method WriteItems(items: seq<Value>)
      requires forall x :: x in items ==> Printable(x)
      modifies this
      ensures document == old(document) + ("[" + FastItems(items, 0))
      decreases items, 0
    {
      hide Fast, Printable;
      ghost var before := document;
      document := document + "[";
      for index := 0 to |items|
        invariant before + ("[" + FastItems(items, 0)) == document + FastItems(items, index)
      {
        ghost var here := document;
        var comma := if index > 0 then "," else "";
        document := document + comma;
        WriteValue(items[index]);
        assert here + (comma + Fast(items[index]) + FastItems(items, index + 1)) == document + FastItems(items, index + 1);
      }
      document := document + "]";
    }

    method WriteMembers(members: seq<Member>)
      requires forall m :: m in members ==> Printable(m.value)
      modifies this
      ensures document == old(document) + ("{" + FastMembers(members, 0))
      decreases members, 0
    {
      hide Fast, Printable, Quote;
      ghost var before := document;
      document := document + "{";
      for it := 0 to |members|
        invariant before + ("{" + FastMembers(members, 0)) == document + FastMembers(members, it)
      {
        ghost var here := document;
        var name := members[it].name;
        var comma := if it > 0 then "," else "";
        document := document + comma;
        var key := ValueToQuotedStringN(name);
        document := document + key;
        document := document + ":";
        WriteValue(members[it].value);
        assert here + (comma + Quote(name) + ":" + Fast(members[it].value) + FastMembers(members, it + 1))
            == document + FastMembers(members, it + 1);
      }
      document := document + "}";
    }
  }

  // Put behind any text, the printed value adds exactly its tokens.
  lemma {:induction false} FastSpells(s: string, ts: seq<Token>, v: Value)
    requires Spells(s, ts, true) && Printable(v)
    ensures Spells(s + Fast(v), ts + ValueTokens(v), false)
    decreases v
  {
    hide Spells, Print, Quote, FastItems, FastMembers, ItemTokens, MemberTokens;
    match v {
      case Null => AppendWord(s, ts, true, NullWord); Weaken(s + "null", ts + [NullWord]);
      case Int(i) => AppendNumber(s, ts, i);
      case UInt(u) => AppendNumber(s, ts, u);
      case Str(x) => AppendQuoted(s, ts, true, x); Weaken(s + Quote(x), ts + [Quoted(Quote(x))]);
      case Bool(b) =>
        var t := if b then True else False;
        AppendWord(s, ts, true, t);
        Weaken(s + Word(t), ts + [t]);
      case Arr(items) =>
        AppendPunct(s, ts, true, '[');
        ItemsSpell(s + "[", ts + [Punct('[')], items, 0);
        Weaken(s + "[" + FastItems(items, 0), ts + [Punct('[')] + ItemTokens(items, 0));
        Regroup(s, "[", FastItems(items, 0));
        Regroup(ts, [Punct('[')], ItemTokens(items, 0));
      case Obj(members) =>
        AppendPunct(s, ts, true, '{');
        MembersSpell(s + "{", ts + [Punct('{')], members, 0);
        Weaken(s + "{" + FastMembers(members, 0), ts + [Punct('{')] + MemberTokens(members, 0));
        Regroup(s, "{", FastMembers(members, 0));
        Regroup(ts, [Punct('{')], MemberTokens(members, 0));
    }
  }

  lemma Regroup<T>(a: seq<T>, b: seq<T>, c: seq<T>)
    ensures a + b + c == a + (b + c)
  {
  }

  lemma RegroupAll<T>(a: seq<T>, b: seq<T>, c: seq<T>, d: seq<T>, e: seq<T>, f: seq<T>)
    ensures a + b + c + d + e + f == a + (b + c + d + e + f)
  {
  }

  // A comma in front of every element but the first.
  lemma CommaSpells(s: string, ts: seq<Token>, k: nat)
    requires Spells(s, ts, k == 0)
    ensures k == 0 ==> s + "" == s && ts + [] == ts
    ensures k > 0 ==> Spells(s + ",", ts + [Punct(',')], true)
  {
    hide Spells;
    if k > 0 {
      AppendPunct(s, ts, false, ',');
    }
  }

  lemma {:induction false} ItemsSpell(s: string, ts: seq<Token>, items: seq<Value>, k: nat)
    requires k <= |items| && Spells(s, ts, k == 0) && forall x :: x in items ==> Printable(x)
    ensures Spells(s + FastItems(items, k), ts + ItemTokens(items, k), true)
    decreases items, |items| - k
  {
    hide Spells, Printable, Fast, ValueTokens;
    if k == |items| {
      AppendPunct(s, ts, k == 0, ']');
    } else {
      var comma, commaToken := if k > 0 then "," else "", if k > 0 then [Punct(',')] else [];
      CommaSpells(s, ts, k);
      FastSpells(s + comma, ts + commaToken, items[k]);
      ItemsSpell(s + comma + Fast(items[k]), ts + commaToken + ValueTokens(items[k]), items, k + 1);
      Regroup(s, comma, Fast(items[k]));
      Regroup(s, comma + Fast(items[k]), FastItems(items, k + 1));
      Regroup(ts, commaToken, ValueTokens(items[k]));
      Regroup(ts, commaToken + ValueTokens(items[k]), ItemTokens(items, k + 1));
    }
  }

  lemma {:induction false} MembersSpell(s: string, ts: seq<Token>, members: seq<Member>, k: nat)
    requires k <= |members| && Spells(s, ts, k == 0) && forall m :: m in members ==> Printable(m.value)
    ensures Spells(s + FastMembers(members, k), ts + MemberTokens(members, k), true)
    decreases members, |members| - k
  {
    hide Spells, Printable, Fast, ValueTokens, Quote;
    if k == |members| {
      AppendPunct(s, ts, k == 0, '}');
    } else {
      var comma, commaToken := if k > 0 then "," else "", if k > 0 then [Punct(',')] else [];
      var name, value := members[k].name, members[k].value;
      CommaSpells(s, ts, k);
      var s1, t1 := s + comma, ts + commaToken;
      NameSpells(s1, t1, name);
      var s2, t2 := s1 + Quote(name) + ":", t1 + [Quoted(Quote(name)), Punct(':')];
      FastSpells(s2, t2, value);
      MembersSpell(s2 + Fast(value), t2 + ValueTokens(value), members, k + 1);
      RegroupAll(s, comma, Quote(name), ":", Fast(value), FastMembers(members, k + 1));
      RegroupAll(ts, commaToken, [Quoted(Quote(name)), Punct(':')], [], ValueTokens(value), MemberTokens(members, k + 1));
      assert t2 + [] == t2;
      assert commaToken + [Quoted(Quote(name)), Punct(':')] + [] == commaToken + [Quoted(Quote(name)), Punct(':')];
    }
  }

  lemma NameSpells(s: string, ts: seq<Token>, name: string)
    requires Spells(s, ts, true)
    ensures Spells(s + Quote(name) + ":", ts + [Quoted(Quote(name)), Punct(':')], true)
  {
    hide Spells, Quote;
    AppendQuoted(s, ts, true, name);
    AppendPunct(s + Quote(name), ts + [Quoted(Quote(name))], true, ':');
    assert ts + [Quoted(Quote(name))] + [Punct(':')] == ts + [Quoted(Quote(name)), Punct(':')];
  }

  // The tokens of what FastWriter writes.
  lemma FastTokens(v: Value)
    requires Printable(v)
    ensures Tokens(Fast(v) + "\n") == ValueTokens(v) + [EndOfStream]
  {
    hide Spells, Fast, ValueTokens, Tokens;
    SpellsNothing();
    FastSpells("", [], v);
    AppendSpaces("" + Fast(v), [] + ValueTokens(v), false, "\n");
    SpellsAll("" + Fast(v) + "\n", [] + ValueTokens(v), true);
    assert "" + Fast(v) == Fast(v) && [] + ValueTokens(v) == ValueTokens(v);
  }
}
