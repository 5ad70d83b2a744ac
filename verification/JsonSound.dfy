// What can be read at all: which tokens a value is made of, and that a value
// once read survives being written and read again.
module JsonSound {
  import opened Bytes
  import opened JsonText
  import opened JsonNumber
  import opened JsonValue
  import opened JsonLex
  import opened JsonWriters
  import opened JsonStyled
  import opened JsonReader
  import opened JsonRoundTrip

  // ----- the tokens of a value -----

  predicate Alien(t: Token) {
    t.Error? || t.NulByte? || t.EndOfStream?
  }

  // `rest` is what is left of ts, and what has been taken is free of alien
  // tokens but directly behind a comment.
  ghost predicate Eats(ts: seq<Token>, rest: seq<Token>) {
    && |rest| <= |ts| && ts[|ts| - |rest|..] == rest
    && forall k :: 0 <= k < |ts| - |rest| && Alien(ts[k]) ==> k > 0 && ts[k - 1].Comment?
  }

  lemma EatsOne(ts: seq<Token>)
    requires ts != [] && !Alien(ts[0])
    ensures Eats(ts, ts[1..])
  {
  }

  lemma EatsOn(ts: seq<Token>, mid: seq<Token>, rest: seq<Token>)
    requires Eats(ts, mid) && Eats(mid, rest)
    ensures Eats(ts, rest)
  {
    var n := |ts| - |mid|;
    assert ts[|ts| - |rest|..] == mid[|mid| - |rest|..];
    forall k | 0 <= k < |ts| - |rest| && Alien(ts[k]) ensures k > 0 && ts[k - 1].Comment? {
      if k >= n {
        assert ts[k] == mid[k - n];
        assert ts[k - 1] == mid[k - n - 1];
      }
    }
  }

  lemma {:induction false} EatsComments(ts: seq<Token>)
    ensures Eats(ts, Skip(ts))
    ensures Skip(ts) != [] && ts[0].Comment? ==> Eats(ts, Skip(ts)[1..])
    decreases |ts|
  {
    if ts != [] && ts[0].Comment? {
      EatsComments(ts[1..]);
      EatsOne(ts);
      EatsOn(ts, ts[1..], Skip(ts));
      if Skip(ts) != [] {
        if ts[1].Comment? {
          EatsOn(ts, ts[1..], Skip(ts)[1..]);
        } else {
          assert Skip(ts) == ts[1..] && Skip(ts)[1..] == ts[2..];
        }
      }
    }
  }

  // Whatever parses is made of value tokens; only behind a comment, where any
  // token passes for a comma, can another one stand.
  lemma {:induction false} ValueTokensOnly(converts: Converter, ts: seq<Token>, depth: nat)
    ensures var r := ParseValue(converts, ts, depth); r.Parsed? ==> Eats(ts, r.rest)
    decreases |ts|, 0
  {
    hide ParseItems, ParseMembers, Decode, DecodeNumber, Eats;
    var r := ParseValue(converts, ts, depth);
    var first := Skip(ts);
    if r.Parsed? {
      EatsComments(ts);
      EatsOne(first);
      if first[0] == Punct('[') && !(|first| > 1 && first[1] == Punct(']')) {
        ItemTokensOnly(converts, first[1..], depth + 1, []);
        EatsOn(first, first[1..], r.rest);
      } else if first[0] == Punct('[') {
        EatsOne(first[1..]);
        assert first[1..][1..] == first[2..];
        EatsOn(first, first[1..], r.rest);
      } else if first[0] == Punct('{') {
        MemberTokensOnly(converts, first[1..], depth + 1, "", []);
        EatsOn(first, first[1..], r.rest);
      }
      EatsOn(ts, first, r.rest);
    }
  }

  lemma {:induction false} ItemTokensOnly(converts: Converter, ts: seq<Token>, depth: nat, items: seq<Value>)
    ensures var r := ParseItems(converts, ts, depth, items); r.Parsed? ==> Eats(ts, r.rest)
    decreases |ts|, 1
  {
    hide ParseValue, ParseItems, Eats, Skip;
    ItemsUnfold(converts, ts, depth, items);
    var r := ParseItems(converts, ts, depth, items);
    var one := ParseValue(converts, ts, depth);
    if r.Parsed? {
      ValueTokensOnly(converts, ts, depth);
      var rest := Skip(one.rest);
      EatsComments(one.rest);
      EatsOn(ts, one.rest, rest);
      EatsOne(rest);
      EatsOn(ts, rest, rest[1..]);
      if rest[0] == Punct(',') {
        ItemTokensOnly(converts, rest[1..], depth, items + [one.value]);
        EatsOn(ts, rest[1..], r.rest);
      }
    }
  }

  lemma {:induction false} MemberTokensOnly(converts: Converter, ts: seq<Token>, depth: nat, before: string, members: seq<Member>)
    ensures var r := ParseMembers(converts, ts, depth, before, members); r.Parsed? ==> Eats(ts, r.rest)
    decreases |ts|, 1
  {
    hide ParseValue, ParseMembers, Eats, Decode, Put;
    MembersSkip(converts, ts, depth, before, members);
    EatsComments(ts);
    var r := ParseMembers(converts, ts, depth, before, members);
    var first := Skip(ts);
    if first == [] {
      NoMembers(converts, depth, before, members);
    } else {
      MembersEnd(converts, first, depth, before, members);
      if r.Parsed? {
        EatsOne(first);
        if first[0].Quoted? {
          MembersUnfold(converts, first, depth, before, members);
          EatsOne(first[1..]);
          assert first[1..][1..] == first[2..];
          EatsOn(first, first[1..], first[2..]);
          ValueTokensOnly(converts, first[2..], depth);
          var one := ParseValue(converts, first[2..], depth);
          EatsOn(first, first[2..], one.rest);
          SeparatorEaten(one.rest);
          var rest := Skip(one.rest);
          EatsOn(first, one.rest, rest[1..]);
          if rest[0] != Punct('}') {
            var name := Decode(first[0].text).value;
            MemberTokensOnly(converts, rest[1..], depth, name, Put(members, name, one.value));
            EatsOn(first, rest[1..], r.rest);
          }
        }
        EatsOn(ts, first, r.rest);
      }
    }
  }

  lemma SeparatorEaten(behind: seq<Token>)
    requires Skip(behind) != [] && EndsMember(behind[0])
    ensures Eats(behind, Skip(behind)[1..])
  {
    hide Eats;
    EatsComments(behind);
    if !behind[0].Comment? {
      EatsOne(behind);
    }
  }

  // The first token that is no comment says what kind of value it is.
  lemma FirstTokenTells(converts: Converter, ts: seq<Token>, depth: nat)
    requires ParseValue(converts, ts, depth).Parsed?
    ensures depth < 1000 && Skip(ts) != []
    ensures var v := ParseValue(converts, ts, depth).value; var t := Skip(ts)[0];
      && (v.Null? <==> t.NullWord?) && (v == Bool(true) <==> t.True?) && (v == Bool(false) <==> t.False?)
      && (v.Str? <==> t.Quoted?) && (v.Int? || v.UInt? || v.Real? <==> t.Num?)
      && (v.Arr? <==> t == Punct('[')) && (v.Obj? <==> t == Punct('{'))
    ensures !Skip(ts)[0].Punct? ==> ParseValue(converts, ts, depth).rest == Skip(ts)[1..]
  {
    hide ParseItems, ParseMembers, Decode, DecodeNumber;
    var first := Skip(ts);
    if first[0] == Punct('[') && !(|first| > 1 && first[1] == Punct(']')) {
      ItemsAreArray(converts, first[1..], depth + 1, []);
    } else if first[0] == Punct('{') {
      MembersAreObject(converts, first[1..], depth + 1, "", []);
    }
  }

  lemma {:induction false} ItemsAreArray(converts: Converter, ts: seq<Token>, depth: nat, items: seq<Value>)
    ensures var r := ParseItems(converts, ts, depth, items); r.Parsed? ==> r.value.Arr?
    decreases |ts|
  {
    hide ParseValue, ParseItems;
    ItemsUnfold(converts, ts, depth, items);
    var one := ParseValue(converts, ts, depth);
    if one.Parsed? && Skip(one.rest) != [] {
      ItemsAreArray(converts, Skip(one.rest)[1..], depth, items + [one.value]);
    }
  }

  lemma {:induction false} MembersAreObject(converts: Converter, ts: seq<Token>, depth: nat, before: string, members: seq<Member>)
    ensures var r := ParseMembers(converts, ts, depth, before, members); r.Parsed? ==> r.value.Obj?
    decreases |ts|
  {
    hide ParseValue, ParseMembers, Decode, Put;
    MembersSkip(converts, ts, depth, before, members);
    var first := Skip(ts);
    if first == [] {
      NoMembers(converts, depth, before, members);
    } else {
      MembersEnd(converts, first, depth, before, members);
      if |first| >= 2 && first[0].Quoted? && Decode(first[0].text).Some? && first[1] == Punct(':') {
        MembersUnfold(converts, first, depth, before, members);
        var name, one := Decode(first[0].text).value, ParseValue(converts, first[2..], depth);
        if one.Parsed? && Skip(one.rest) != [] {
          MembersAreObject(converts, Skip(one.rest)[1..], depth, name, Put(members, name, one.value));
        }
      }
    }
  }

  // ----- the compact text -----

  function TokenText(t: Token): string {
    match t
    case Punct(c) => [c]
    case Quoted(text) => text
    case Num(text) => text
    case True => "true"
    case False => "false"
    case NullWord => "null"
    case _ => ""
  }

  function Text(ts: seq<Token>): string {
    if ts == [] then "" else TokenText(ts[0]) + Text(ts[1..])
  }

  lemma {:induction false} TextJoin(a: seq<Token>, b: seq<Token>)
    ensures Text(a + b) == Text(a) + Text(b)
    decreases |a|
  {
    hide TokenText;
    if a == [] {
      assert a + b == b;
    } else {
      assert (a + b)[1..] == a[1..] + b;
      TextJoin(a[1..], b);
    }
  }

  // FastWriter writes the tokens of the value and nothing between them.
  lemma {:induction false} NothingBetween(v: Value)
    ensures Fast(v) == Text(ValueTokens(v))
    decreases v
  {
    hide Print, Quote, FastItems, FastMembers, ItemTokens, MemberTokens;
    if v.Arr? {
      ItemsBetween(v.items, 0);
      TextJoin([Punct('[')], ItemTokens(v.items, 0));
    } else if v.Obj? {
      MembersBetween(v.members, 0);
      TextJoin([Punct('{')], MemberTokens(v.members, 0));
    }
  }

  lemma {:induction false} ItemsBetween(items: seq<Value>, k: nat)
    requires k <= |items|
    ensures FastItems(items, k) == Text(ItemTokens(items, k))
    decreases items, |items| - k
  {
    hide Fast, ValueTokens;
    if k < |items| {
      NothingBetween(items[k]);
      ItemsBetween(items, k + 1);
      var comma := if k > 0 then [Punct(',')] else [];
      TextJoin(comma, ValueTokens(items[k]));
      TextJoin(comma + ValueTokens(items[k]), ItemTokens(items, k + 1));
    }
  }

  lemma {:induction false} MembersBetween(members: seq<Member>, k: nat)
    requires k <= |members|
    ensures FastMembers(members, k) == Text(MemberTokens(members, k))
    decreases members, |members| - k
  {
    hide Fast, ValueTokens, Quote, Text;
    OnePunct('}');
    OnePunct(',');
    if k < |members| {
      NothingBetween(members[k].value);
      MembersBetween(members, k + 1);
      var comma: seq<Token> := if k > 0 then [Punct(',')] else [];
      var name := [Quoted(Quote(members[k].name)), Punct(':')];
      NameText(Quote(members[k].name));
      TextJoin(comma, name);
      TextJoin(comma + name, ValueTokens(members[k].value));
      TextJoin(comma + name + ValueTokens(members[k].value), MemberTokens(members, k + 1));
    }
  }

  lemma OnePunct(c: char)
    ensures Text([]) == "" && Text([Punct(c)]) == [c]
  {
    assert Text([Punct(c)]) == [c] + Text([]);
  }

  lemma NameText(quoted: string)
    ensures Text([Quoted(quoted), Punct(':')]) == quoted + ":"
  {
    var name := [Quoted(quoted), Punct(':')];
    OnePunct(':');
    assert name[1..] == [Punct(':')];
  }

  // ----- reading, writing, reading again -----

  // What a value read at the given depth looks like.
  predicate Settled(v: Value, depth: nat) {
    Retagged(v) == v && depth + Depth(v) <= STACK_LIMIT
  }

  predicate ItemsSettled(items: seq<Value>, depth: nat) {
    forall x :: x in items ==> Settled(x, depth)
  }

  predicate MembersSettled(members: seq<Member>, depth: nat) {
    forall m :: m in members ==> Settled(m.value, depth)
  }

  lemma {:induction false} ItemsDepthBound(items: seq<Value>, k: nat, depth: nat)
    requires k <= |items| && ItemsSettled(items, depth) && depth <= STACK_LIMIT
    ensures depth + ItemsDepth(items, k) <= STACK_LIMIT
    decreases |items| - k
  {
    hide Depth, Retagged;
    if k < |items| {
      ItemsDepthBound(items, k + 1, depth);
      assert Settled(items[k], depth);
    }
  }

  lemma {:induction false} MembersDepthBound(members: seq<Member>, k: nat, depth: nat)
    requires k <= |members| && MembersSettled(members, depth) && depth <= STACK_LIMIT
    ensures depth + MembersDepth(members, k) <= STACK_LIMIT
    decreases |members| - k
  {
    hide Depth, Retagged;
    if k < |members| {
      MembersDepthBound(members, k + 1, depth);
      assert Settled(members[k].value, depth);
    }
  }

  lemma ArraySettled(items: seq<Value>, depth: nat)
    requires depth < STACK_LIMIT && ItemsSettled(items, depth + 1)
    ensures Settled(Arr(items), depth)
  {
    hide ItemsDepth;
    ItemsDepthBound(items, 0, depth + 1);
    forall k | 0 <= k < |items| ensures RetaggedItems(items)[k] == items[k] {
      assert Settled(items[k], depth + 1);
    }
    assert RetaggedItems(items) == items;
  }

  lemma ObjectSettled(members: seq<Member>, depth: nat)
    requires depth < STACK_LIMIT && MembersSettled(members, depth + 1)
    ensures Settled(Obj(members), depth)
  {
    hide MembersDepth;
    MembersDepthBound(members, 0, depth + 1);
    forall k | 0 <= k < |members| ensures RetaggedMembers(members)[k] == members[k] {
      assert Settled(members[k].value, depth + 1);
    }
    assert RetaggedMembers(members) == members;
  }

  lemma ScalarSettled(v: Value, i: int, depth: nat)
    requires depth < STACK_LIMIT && (v == Tagged(i) || v.Real? || v.Str? || v.Bool? || v.Null?)
    ensures Settled(v, depth)
  {
  }

  lemma {:induction false} ParsedSettled(converts: Converter, ts: seq<Token>, depth: nat)
    ensures var r := ParseValue(converts, ts, depth); r.Parsed? ==> Settled(r.value, depth)
    decreases |ts|, 0
  {
    hide ParseItems, ParseMembers, Decode, DecodeNumber, Settled;
    var r := ParseValue(converts, ts, depth);
    var first := Skip(ts);
    if r.Parsed? {
      if first[0] == Punct('[') && !(|first| > 1 && first[1] == Punct(']')) {
        ItemsParsedSettled(converts, first[1..], depth + 1, []);
      } else if first[0] == Punct('[') {
        ArraySettled([], depth);
      } else if first[0] == Punct('{') {
        MembersParsedSettled(converts, first[1..], depth + 1, "", []);
      } else if first[0].Num? {
        var n := DecodeNumber(first[0].text);
        ScalarSettled(r.value, if n.Integer? then n.value else 0, depth);
      } else {
        ScalarSettled(r.value, 0, depth);
      }
    }
  }

  lemma {:induction false} ItemsParsedSettled(converts: Converter, ts: seq<Token>, depth: nat, items: seq<Value>)
    requires 0 < depth <= STACK_LIMIT && ItemsSettled(items, depth)
    ensures var r := ParseItems(converts, ts, depth, items); r.Parsed? ==> Settled(r.value, depth - 1)
    decreases |ts|, 1
  {
    hide ParseValue, ParseItems, Settled;
    ItemsUnfold(converts, ts, depth, items);
    ParsedSettled(converts, ts, depth);
    var one := ParseValue(converts, ts, depth);
    if one.Parsed? && Skip(one.rest) != [] {
      ArraySettled(items + [one.value], depth - 1);
      ItemsParsedSettled(converts, Skip(one.rest)[1..], depth, items + [one.value]);
    }
  }

  lemma {:induction false} MembersParsedSettled(converts: Converter, ts: seq<Token>, depth: nat, before: string, members: seq<Member>)
    requires 0 < depth <= STACK_LIMIT && MembersSettled(members, depth)
    ensures var r := ParseMembers(converts, ts, depth, before, members); r.Parsed? ==> Settled(r.value, depth - 1)
    decreases |ts|, 1
  {
    hide ParseValue, ParseMembers, Decode, Put, Settled;
    MembersSkip(converts, ts, depth, before, members);
    ObjectSettled(members, depth - 1);
    var first := Skip(ts);
    if first == [] {
      NoMembers(converts, depth, before, members);
    } else {
      MembersEnd(converts, first, depth, before, members);
      if |first| >= 2 && first[0].Quoted? && Decode(first[0].text).Some? && first[1] == Punct(':') {
        MembersUnfold(converts, first, depth, before, members);
        ParsedSettled(converts, first[2..], depth);
        var name, one := Decode(first[0].text).value, ParseValue(converts, first[2..], depth);
        if one.Parsed? && Skip(one.rest) != [] {
          PutSettled(members, name, one.value, depth);
          ObjectSettled(Put(members, name, one.value), depth - 1);
          MembersParsedSettled(converts, Skip(one.rest)[1..], depth, name, Put(members, name, one.value));
        }
      }
    }
  }

  lemma {:induction false} PutSettled(members: seq<Member>, name: string, v: Value, depth: nat)
    requires MembersSettled(members, depth) && Settled(v, depth)
    ensures MembersSettled(Put(members, name, v), depth)
    decreases |members|
  {
    hide Settled, TextLess;
    if members != [] && members[0].name != name && !TextLess(name, members[0].name) {
      PutSettled(members[1..], name, v, depth);
    }
  }

  // A document that is read, written by either writer and read again gives the
  // same value (any that holds no real, not the number the writer cannot negate
  // and, for the second writer, no NUL in a name).
  method ReadWriteRead(text: string, converts: Converter) returns (status: Status, root: Value, again: Status, fast: Value, styled: Value)
    ensures status.Success? && Printable(root) && NulFree(root) ==> again.Success? && fast == root && styled == root
  {
    hide Tokens, ParseValue, Printable, NulFree, Settled, Ordered;
    var reader := new Reader(converts);
    status, root := reader.Parse(text);
    again, fast, styled := status, root, root;
    if status.Success? && Printable(root) && NulFree(root) {
      ParsedSettled(converts, Tokens(text), 0);
      ParsedOrdered(converts, Tokens(text), 0);
      SettledIs(root);
      var styledStatus;
      again, fast, styledStatus, styled := WriteAndRead(root, converts);
    }
  }

  lemma SettledIs(v: Value)
    requires Settled(v, 0)
    ensures Retagged(v) == v && Depth(v) <= STACK_LIMIT
  {
    hide Retagged, Depth;
  }
}
