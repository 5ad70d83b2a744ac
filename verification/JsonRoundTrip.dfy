// Writing a value with either writer and reading it back.
module JsonRoundTrip {
  import opened Bytes
  import opened JsonText
  import opened JsonNumber
  import opened JsonValue
  import opened JsonLex
  import opened JsonWriters
  import opened JsonStyled
  import opened JsonReader

  // The document of either writer parses to the value, integers retagged,
  // exactly when it is not nested more than the stack limit allows.
  lemma DocumentsParse(converts: Converter, v: Value)
    requires Printable(v) && Ordered(v)
    ensures ParseValue(converts, Tokens(Fast(v) + "\n"), 0) == Result(Retagged(v), [EndOfStream], Depth(v) <= STACK_LIMIT)
    ensures NulFree(v) ==>
      ParseValue(converts, Tokens(Styled(v, "", "") + "\n"), 0) == Result(Retagged(v), [EndOfStream], Depth(v) <= STACK_LIMIT)
  {
    hide Fast, Styled, Tokens, ParseValue, ValueTokens, Retagged, Depth, NulFree, Printable, Ordered;
    FastTokens(v);
    StyledTokens(v);
    ValueParses(converts, v, [EndOfStream], 0);
  }

  // Retagging changes no number: the value prints as before.
  lemma {:induction false} RetaggedPrintsSame(v: Value)
    ensures Fast(Retagged(v)) == Fast(v)
    decreases v
  {
    hide Print, Quote, FastItems, FastMembers, RetaggedItems, RetaggedMembers;
    match v {
      case Arr(items) => RetaggedItemsSame(items, 0);
      case Obj(members) => RetaggedMembersSame(members, 0);
      case _ =>
    }
  }

  lemma {:induction false} RetaggedItemsSame(items: seq<Value>, k: nat)
    requires k <= |items|
    ensures FastItems(RetaggedItems(items), k) == FastItems(items, k)
    decreases items, |items| - k
  {
    hide Fast, Retagged;
    if k < |items| {
      RetaggedPrintsSame(items[k]);
      RetaggedItemsSame(items, k + 1);
    }
  }

  lemma {:induction false} RetaggedMembersSame(members: seq<Member>, k: nat)
    requires k <= |members|
    ensures FastMembers(RetaggedMembers(members), k) == FastMembers(members, k)
    decreases members, |members| - k
  {
    hide Fast, Retagged, Quote;
    if k < |members| {
      RetaggedPrintsSame(members[k].value);
      RetaggedMembersSame(members, k + 1);
    }
  }

  // Whatever the text, a value that parses has its members in order, one per
  // name, so it is a value the writers can take up again.
  lemma {:induction false} ParsedOrdered(converts: Converter, ts: seq<Token>, depth: nat)
    ensures var r := ParseValue(converts, ts, depth); r.Parsed? ==> Ordered(r.value)
    decreases |ts|, 0
  {
    hide ParseItems, ParseMembers, Decode, DecodeNumber;
    var first := Skip(ts);
    if first != [] {
      ItemsOrdered(converts, first[1..], depth + 1, []);
      MembersOrderedToo(converts, first[1..], depth + 1, "", []);
    }
  }

  lemma {:induction false} ItemsOrdered(converts: Converter, ts: seq<Token>, depth: nat, items: seq<Value>)
    requires forall x :: x in items ==> Ordered(x)
    ensures var r := ParseItems(converts, ts, depth, items); r.Parsed? ==> Ordered(r.value)
    decreases |ts|, 1
  {
    hide ParseValue, ParseItems, ParseMembers;
    ItemsUnfold(converts, ts, depth, items);
    ParsedOrdered(converts, ts, depth);
    var one := ParseValue(converts, ts, depth);
    if one.Parsed? && Skip(one.rest) != [] {
      ItemsOrdered(converts, Skip(one.rest)[1..], depth, items + [one.value]);
    }
  }

  lemma {:induction false} MembersOrderedToo(converts: Converter, ts: seq<Token>, depth: nat, before: string, members: seq<Member>)
    requires Sorted(members) && forall m :: m in members ==> Ordered(m.value)
    ensures var r := ParseMembers(converts, ts, depth, before, members); r.Parsed? ==> Ordered(r.value)
    decreases |ts|, 1
  {
    hide ParseValue, ParseItems, ParseMembers, Decode, Put, Sorted;
    MembersSkip(converts, ts, depth, before, members);
    var first := Skip(ts);
    if first != [] {
      MembersEnd(converts, first, depth, before, members);
      if |first| >= 2 && first[0].Quoted? && Decode(first[0].text).Some? && first[1] == Punct(':') {
        MembersUnfold(converts, first, depth, before, members);
        ParsedOrdered(converts, first[2..], depth);
        var name, one := Decode(first[0].text).value, ParseValue(converts, first[2..], depth);
        if one.Parsed? {
          PutSorted(members, name, one.value);
          PutKeeps(members, name, one.value);
          var rest := Skip(one.rest);
          if rest != [] {
            MembersOrderedToo(converts, rest[1..], depth, name, Put(members, name, one.value));
          }
        }
      }
    } else {
      NoMembers(converts, depth, before, members);
    }
  }

  lemma NoMembers(converts: Converter, depth: nat, before: string, members: seq<Member>)
    ensures ParseMembers(converts, [], depth, before, members) == Rejected
  {
  }

  lemma {:induction false} PutKeeps(members: seq<Member>, name: string, v: Value)
    requires Ordered(v) && forall m :: m in members ==> Ordered(m.value)
    ensures forall m :: m in Put(members, name, v) ==> Ordered(m.value)
    decreases |members|
  {
    hide Ordered, TextLess;
    if members != [] && members[0].name != name && !TextLess(name, members[0].name) {
      PutKeeps(members[1..], name, v);
    }
  }

  // The two writers and the reader together.
  method WriteAndRead(v: Value, converts: Converter) returns (fast: Status, fastRoot: Value, styled: Status, styledRoot: Value)
    requires Printable(v) && Ordered(v) && NulFree(v)
    ensures Depth(v) <= STACK_LIMIT ==> fast.Success? && styled.Success? && fastRoot == styledRoot == Retagged(v)
    ensures Depth(v) > STACK_LIMIT ==> fast.Thrown? && styled.Thrown?
  {
    hide Fast, Styled, Tokens, ParseValue, ValueTokens, Retagged, Depth, NulFree, Printable, Ordered;
    DocumentsParse(converts, v);
    var fastWriter := new FastWriter();
    var text := fastWriter.Write(v);
    var reader := new Reader(converts);
    fast, fastRoot := reader.Parse(text);
    var styledWriter := new StyledWriter();
    text := styledWriter.Write(v);
    styled, styledRoot := reader.Parse(text);
  }
}
