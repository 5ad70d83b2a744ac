// The reader and the grammar of JSON: without comments, what it reads is a
// document of the grammar, with one exception, and it reads every one.
module JsonGrammar {
  import opened Bytes
  import opened JsonText
  import opened JsonNumber
  import opened JsonValue
  import opened JsonLex
  import opened JsonReader
  import opened JsonRoundTrip
  import opened JsonSound

  // A derivation: one token, the elements of an array, the members of an object.
  // `comma` is a comma behind the last member.
  datatype Tree = One(token: Token) | ArrayOf(items: seq<Tree>) | ObjectOf(members: seq<Named>, comma: bool)
  datatype Named = Named(name: string, tree: Tree)

  // ----- the tokens of a derivation -----

  function Spelling(t: Tree): seq<Token>
    decreases t, 0
  {
    match t
    case One(token) => [token]
    case ArrayOf(items) => [Punct('[')] + Items(items) + [Punct(']')]
    case ObjectOf(members, comma) => [Punct('{')] + Members(members, comma) + [Punct('}')]
  }

  function Items(items: seq<Tree>): seq<Token>
    decreases items, 1
  {
    if items == [] then []
    else Spelling(items[0]) + (if |items| > 1 then [Punct(',')] else []) + Items(items[1..])
  }

  function Members(members: seq<Named>, comma: bool): seq<Token>
    decreases members, 1
  {
    if members == [] then []
    else
      [Quoted(members[0].name), Punct(':')] + Spelling(members[0].tree)
      + (if |members| > 1 || comma then [Punct(',')] else []) + Members(members[1..], comma)
  }

  // ----- what it means -----

  function Meaning(converts: Converter, t: Tree): Option<Value>
    decreases t, 0
  {
    match t
    case One(token) =>
      (match token
       case Num(text) => NumberValue(converts, text)
       case Quoted(text) => (match Decode(text) case Some(s) => Some(Str(s)) case None => None)
       case True => Some(Bool(true))
       case False => Some(Bool(false))
       case NullWord => Some(Null)
       case _ => None)
    case ArrayOf(items) =>
      (match ItemsMeaning(converts, items) case Some(vs) => Some(Arr(vs)) case None => None)
    case ObjectOf(members, comma) =>
      if comma && (members == [] || Decode(members[|members| - 1].name) != Some("")) then None
      else (match MembersMeaning(converts, members, []) case Some(ms) => Some(Obj(ms)) case None => None)
  }

  function ItemsMeaning(converts: Converter, items: seq<Tree>): Option<seq<Value>>
    decreases items, 1
  {
    if items == [] then Some([])
    else match (Meaning(converts, items[0]), ItemsMeaning(converts, items[1..]))
      case (Some(v), Some(vs)) => Some([v] + vs)
      case _ => None
  }

  // Later members replace earlier ones of the same name.
  function MembersMeaning(converts: Converter, members: seq<Named>, before: seq<Member>): Option<seq<Member>>
    decreases members, 1
  {
    if members == [] then Some(before)
    else match (Decode(members[0].name), Meaning(converts, members[0].tree))
      case (Some(name), Some(v)) => MembersMeaning(converts, members[1..], Put(before, name, v))
      case _ => None
  }

  // ----- what is read is in the grammar -----

  ghost predicate NoComments(ts: seq<Token>, rest: seq<Token>) {
    && |rest| <= |ts| && ts[|ts| - |rest|..] == rest
    && forall k :: 0 <= k < |ts| - |rest| ==> !ts[k].Comment?
  }

  lemma NothingSkipped(ts: seq<Token>, rest: seq<Token>)
    requires NoComments(ts, rest) && |rest| < |ts|
    ensures ts != [] && Skip(ts) == ts
  {
  }

  // Of a stretch without comments each part is without.
  lemma Inside(ts: seq<Token>, mid: seq<Token>, end: seq<Token>, rest: seq<Token>)
    requires NoComments(ts, rest) && Eats(ts, mid) && Eats(mid, end) && Eats(end, rest)
    ensures NoComments(mid, end)
  {
    var n := |ts| - |mid|;
    forall k | 0 <= k < |mid| - |end| ensures !mid[k].Comment? {
      assert mid[k] == ts[n + k];
    }
  }

  lemma EatsNothing(ts: seq<Token>)
    ensures Eats(ts, ts)
  {
  }

  lemma {:induction false} ValueDerived(converts: Converter, ts: seq<Token>, depth: nat) returns (t: Tree)
    requires var r := ParseValue(converts, ts, depth); r.Parsed? && NoComments(ts, r.rest)
    ensures var r := ParseValue(converts, ts, depth); ts == Spelling(t) + r.rest && Meaning(converts, t) == Some(r.value)
    decreases |ts|, 0
  {
    hide ParseItems, ParseMembers, Decode, DecodeNumber, Items, Members, ItemsMeaning, MembersMeaning, Eats, NoComments;
    var r := ParseValue(converts, ts, depth);
    NothingSkipped(ts, r.rest);
    ValueTokensOnly(converts, ts, depth);
    EatsOne(ts) by {
      FirstTokenTells(converts, ts, depth);
    }
    EatsNothing(r.rest);
    assert ts == [ts[0]] + ts[1..];
    if ts[0] == Punct('[') && |ts| > 1 && ts[1] == Punct(']') {
      t := ArrayOf([]);
      NoItems(converts);
      assert ts == [ts[0], ts[1]] + ts[2..];
    } else if ts[0] == Punct('[') {
      ItemTokensOnly(converts, ts[1..], depth + 1, []);
      Inside(ts, ts[1..], r.rest, r.rest);
      var items, vs := ItemsDerived(converts, ts[1..], depth + 1, []);
      t := ArrayOf(items);
      assert [] + vs == vs;
      assert ts == [Punct('[')] + (Items(items) + [Punct(']')] + r.rest);
    } else if ts[0] == Punct('{') {
      MemberTokensOnly(converts, ts[1..], depth + 1, "", []);
      Inside(ts, ts[1..], r.rest, r.rest);
      var members, comma := MembersDerived(converts, ts[1..], depth + 1, "", []);
      t := ObjectOf(members, comma);
      assert ts == [Punct('{')] + (Members(members, comma) + [Punct('}')] + r.rest);
    } else {
      t := One(ts[0]);
    }
  }

  lemma NoItems(converts: Converter)
    ensures Items([]) == [] && ItemsMeaning(converts, []) == Some([])
  {
  }

  lemma ItemsSpelled(converts: Converter, t: Tree, v: Value, items: seq<Tree>, vs: seq<Value>)
    requires Meaning(converts, t) == Some(v) && ItemsMeaning(converts, items) == Some(vs)
    ensures Items([t] + items) == Spelling(t) + (if items != [] then [Punct(',')] else []) + Items(items)
    ensures ItemsMeaning(converts, [t] + items) == Some([v] + vs)
  {
    hide Spelling, Meaning;
    assert ([t] + items)[1..] == items;
  }

  lemma ItemEaten(converts: Converter, ts: seq<Token>, depth: nat, read: seq<Value>)
    requires var r := ParseItems(converts, ts, depth, read); r.Parsed? && NoComments(ts, r.rest)
    ensures var r := ParseItems(converts, ts, depth, read); var one := ParseValue(converts, ts, depth);
      && one.Parsed? && NoComments(ts, one.rest) && one.rest != []
      && (one.rest[0] != Punct(',') ==> one.rest[0] == Punct(']') && r == Parsed(Arr(read + [one.value]), one.rest[1..]))
      && (one.rest[0] == Punct(',') ==>
            NoComments(one.rest[1..], r.rest) && r == ParseItems(converts, one.rest[1..], depth, read + [one.value]))
  {
    hide ParseValue, ParseItems, Eats, Skip, NoComments;
    var r := ParseItems(converts, ts, depth, read);
    ItemsUnfold(converts, ts, depth, read);
    var one := ParseValue(converts, ts, depth);
    ValueTokensOnly(converts, ts, depth);
    RestEaten(converts, ts, depth, read);
    var behind := one.rest;
    EatsNothing(ts);
    EatsNothing(r.rest);
    Inside(ts, ts, behind, r.rest);
    Inside(ts, behind, r.rest, r.rest);
    RestShorter(converts, ts, depth, read);
    NothingSkipped(behind, r.rest);
    if behind[0] == Punct(',') {
      EatsOne(behind);
      ItemTokensOnly(converts, behind[1..], depth, read + [one.value]);
      Inside(behind, behind[1..], r.rest, r.rest);
    }
  }

  lemma Regroup(a: seq<Token>, x: Token, b: seq<Token>, y: Token, d: seq<Token>)
    ensures a + ([x] + (b + [y] + d)) == a + [x] + b + [y] + d
    ensures a + ([y] + d) == a + [] + [] + [y] + d
  {
  }

  lemma {:induction false} ItemsDerived(converts: Converter, ts: seq<Token>, depth: nat, read: seq<Value>)
    returns (items: seq<Tree>, vs: seq<Value>)
    requires var r := ParseItems(converts, ts, depth, read); r.Parsed? && NoComments(ts, r.rest)
    ensures var r := ParseItems(converts, ts, depth, read);
      && ts == Items(items) + [Punct(']')] + r.rest && items != []
      && ItemsMeaning(converts, items) == Some(vs) && r.value == Arr(read + vs)
    decreases |ts|, 1
  {
    hide ParseValue, ParseItems, NoComments, Items, ItemsMeaning, Spelling, Meaning;
    var r := ParseItems(converts, ts, depth, read);
    ItemEaten(converts, ts, depth, read);
    var one := ParseValue(converts, ts, depth);
    var behind := one.rest;
    var t := ValueDerived(converts, ts, depth);
    NoItems(converts);
    assert behind == [behind[0]] + behind[1..];
    if behind[0] == Punct(',') {
      var more, ws := ItemsDerived(converts, behind[1..], depth, read + [one.value]);
      ItemsSpelled(converts, t, one.value, more, ws);
      items, vs := [t] + more, [one.value] + ws;
      assert read + [one.value] + ws == read + vs;
      Regroup(Spelling(t), Punct(','), Items(more), Punct(']'), r.rest);
    } else {
      ItemsSpelled(converts, t, one.value, [], []);
      items, vs := [t] + [], [one.value] + [];
      assert vs == [one.value];
      Regroup(Spelling(t), Punct(','), [], Punct(']'), r.rest);
    }
  }

  // What follows the first element belongs to the array.
  lemma RestEaten(converts: Converter, ts: seq<Token>, depth: nat, read: seq<Value>)
    requires ParseItems(converts, ts, depth, read).Parsed?
    ensures ParseValue(converts, ts, depth).Parsed?
    ensures Eats(ParseValue(converts, ts, depth).rest, ParseItems(converts, ts, depth, read).rest)
  {
    hide ParseValue, ParseItems, Eats, Skip;
    ItemsUnfold(converts, ts, depth, read);
    var one := ParseValue(converts, ts, depth);
    var rest := Skip(one.rest);
    EatsComments(one.rest);
    EatsOne(rest);
    EatsOn(one.rest, rest, rest[1..]);
    if rest[0] == Punct(',') {
      ItemTokensOnly(converts, rest[1..], depth, read + [one.value]);
      EatsOn(one.rest, rest[1..], ParseItems(converts, ts, depth, read).rest);
    }
  }

  lemma RestShorter(converts: Converter, ts: seq<Token>, depth: nat, read: seq<Value>)
    requires ParseItems(converts, ts, depth, read).Parsed?
    ensures ParseValue(converts, ts, depth).Parsed?
    ensures |ParseItems(converts, ts, depth, read).rest| < |ParseValue(converts, ts, depth).rest|
  {
    hide ParseValue, ParseItems;
    ItemsUnfold(converts, ts, depth, read);
  }

  lemma MembersSpelled(converts: Converter, m: Named, name: string, v: Value, members: seq<Named>, comma: bool, before: seq<Member>)
    requires Decode(m.name) == Some(name) && Meaning(converts, m.tree) == Some(v)
    ensures Members([m] + members, comma) ==
      [Quoted(m.name), Punct(':')] + Spelling(m.tree) + (if members != [] || comma then [Punct(',')] else []) + Members(members, comma)
    ensures MembersMeaning(converts, [m] + members, before) == MembersMeaning(converts, members, Put(before, name, v))
  {
    hide Spelling, Meaning, Decode, Put;
    assert ([m] + members)[1..] == members;
  }

  lemma NoMembersSpelled(converts: Converter, comma: bool, before: seq<Member>)
    ensures Members([], comma) == [] && MembersMeaning(converts, [], before) == Some(before)
  {
  }

  // The value of a member and what stands behind it.
  lemma MemberEaten(converts: Converter, ts: seq<Token>, depth: nat, before: string, members: seq<Member>)
    requires var r := ParseMembers(converts, ts, depth, before, members); r.Parsed? && NoComments(ts, r.rest)
    requires !(ts != [] && ts[0] == Punct('}') && before == "")
    ensures |ts| >= 2 && ts[0].Quoted? && Decode(ts[0].text).Some? && ts[1] == Punct(':')
    ensures var r := ParseMembers(converts, ts, depth, before, members);
      var name := Decode(ts[0].text).value; var one := ParseValue(converts, ts[2..], depth);
      && one.Parsed? && NoComments(ts[2..], one.rest) && NoComments(one.rest, r.rest) && one.rest != []
      && (one.rest[0] == Punct('}') ==> r == Parsed(Obj(Put(members, name, one.value)), one.rest[1..]))
      && (one.rest[0] != Punct('}') ==>
            && one.rest[0] == Punct(',') && NoComments(one.rest[1..], r.rest)
            && r == ParseMembers(converts, one.rest[1..], depth, name, Put(members, name, one.value)))
  {
    hide ParseValue, ParseMembers, Decode, Put, Eats, NoComments;
    var r := ParseMembers(converts, ts, depth, before, members);
    MembersShorter(converts, ts, depth, before, members);
    NothingSkipped(ts, r.rest);
    MembersEnd(converts, ts, depth, before, members);
    MembersUnfold(converts, ts, depth, before, members);
    MemberTokensOnly(converts, ts, depth, before, members);
    var one := ParseValue(converts, ts[2..], depth);
    var name := Decode(ts[0].text).value;
    ValueTokensOnly(converts, ts[2..], depth);
    SeparatorEaten(one.rest);
    var next := Skip(one.rest)[1..];
    EatsNothing(r.rest);
    if Skip(one.rest)[0] != Punct('}') {
      MemberTokensOnly(converts, next, depth, name, Put(members, name, one.value));
    }
    EatsOn(one.rest, next, r.rest);
    EatsOne(ts);
    EatsOne(ts[1..]);
    assert ts[1..][1..] == ts[2..];
    EatsOn(ts, ts[1..], ts[2..]);
    Inside(ts, ts[2..], one.rest, r.rest);
    EatsOn(ts, ts[2..], one.rest);
    Inside(ts, one.rest, r.rest, r.rest);
    NothingSkipped(one.rest, r.rest);
    Inside(one.rest, next, r.rest, r.rest);
  }

  lemma MembersShorter(converts: Converter, ts: seq<Token>, depth: nat, before: string, members: seq<Member>)
    requires ParseMembers(converts, ts, depth, before, members).Parsed?
    ensures |ParseMembers(converts, ts, depth, before, members).rest| < |ts|
  {
    hide ParseMembers;
  }

  lemma {:induction false} MembersDerived(converts: Converter, ts: seq<Token>, depth: nat, before: string, read: seq<Member>)
    returns (members: seq<Named>, comma: bool)
    requires var r := ParseMembers(converts, ts, depth, before, read); r.Parsed? && NoComments(ts, r.rest)
    ensures var r := ParseMembers(converts, ts, depth, before, read);
      && ts == Members(members, comma) + [Punct('}')] + r.rest
      && MembersMeaning(converts, members, read).Some? && r.value == Obj(MembersMeaning(converts, members, read).value)
    ensures members == [] ==> !comma && before == ""
    ensures comma ==> members != [] && Decode(members[|members| - 1].name) == Some("")
    decreases |ts|, 1
  {
    hide ParseValue, ParseMembers, Eats, Skip, NoComments, Members, MembersMeaning, Spelling, Meaning, Decode, Put;
    var r := ParseMembers(converts, ts, depth, before, read);
    if ts != [] && ts[0] == Punct('}') && before == "" {
      MembersEnd(converts, ts, depth, before, read);
      NoMembersSpelled(converts, false, read);
      assert ts == [Punct('}')] + ts[1..];
      return [], false;
    }
    MemberEaten(converts, ts, depth, before, read);
    var name, one := Decode(ts[0].text).value, ParseValue(converts, ts[2..], depth);
    var t := ValueDerived(converts, ts[2..], depth);
    var m, behind := Named(ts[0].text, t), one.rest;
    var more, last := [], false;
    var head := [Quoted(m.name), Punct(':')] + Spelling(t);
    assert ts == head + behind by {
      assert ts == [Quoted(m.name), Punct(':')] + ts[2..];
    }
    assert behind == [behind[0]] + behind[1..];
    if behind[0] == Punct('}') {
      NoMembersSpelled(converts, false, Put(read, name, one.value));
      Regroup(head, Punct(','), [], Punct('}'), r.rest);
      comma := false;
    } else {
      more, last := MembersDerived(converts, behind[1..], depth, name, Put(read, name, one.value));
      comma := last || more == [];
      NoMembersSpelled(converts, comma, Put(read, name, one.value));
      NoMembersSpelled(converts, last, Put(read, name, one.value));
      Regroup(head, Punct(','), Members(more, last), Punct('}'), r.rest);
      assert Members(more, comma) == Members(more, last);
    }
    MembersSpelled(converts, m, name, one.value, more, comma, read);
    members := [m] + more;
    assert members[|members| - 1] == if more == [] then m else more[|more| - 1];
  }

  // ----- what is in the grammar is read -----

  function TreeDepth(t: Tree): nat
    decreases t, 0
  {
    match t
    case One(_) => 1
    case ArrayOf(items) => 1 + ItemsTreeDepth(items)
    case ObjectOf(members, _) => 1 + MembersTreeDepth(members)
  }

  function ItemsTreeDepth(items: seq<Tree>): nat
    decreases items, 1
  {
    if items == [] then 0 else Max(TreeDepth(items[0]), ItemsTreeDepth(items[1..]))
  }

  function MembersTreeDepth(members: seq<Named>): nat
    decreases members, 1
  {
    if members == [] then 0 else Max(TreeDepth(members[0].tree), MembersTreeDepth(members[1..]))
  }

  lemma FirstOf(converts: Converter, t: Tree)
    requires Meaning(converts, t).Some?
    ensures Spelling(t) != [] && !Spelling(t)[0].Comment? && Spelling(t)[0] != Punct(']') && Spelling(t)[0] != Punct('}')
    ensures TreeDepth(t) >= 1
  {
    hide Items, Members;
  }

  lemma OneParses(converts: Converter, token: Token, ts: seq<Token>, depth: nat)
    requires Meaning(converts, One(token)).Some? && depth < STACK_LIMIT
    ensures ParseValue(converts, Spelling(One(token)) + ts, depth) == Parsed(Meaning(converts, One(token)).value, ts)
  {
    hide Decode, DecodeNumber, ParseItems, ParseMembers;
    assert ([token] + ts)[1..] == ts;
  }

  lemma {:induction false} TreeParses(converts: Converter, t: Tree, ts: seq<Token>, depth: nat)
    requires Meaning(converts, t).Some?
    ensures ParseValue(converts, Spelling(t) + ts, depth) == Result(Meaning(converts, t).value, ts, depth + TreeDepth(t) <= STACK_LIMIT)
    decreases t, 0
  {
    hide ParseValue, ParseItems, ParseMembers, Items, Members, ItemsMeaning, MembersMeaning, ItemsTreeDepth, MembersTreeDepth, Decode, NumberValue;
    FirstOf(converts, t);
    if depth >= STACK_LIMIT {
      TooDeepAtOnce(converts, Spelling(t) + ts, depth);
    } else if t.One? {
      OneParses(converts, t.token, ts, depth);
    } else if t.ArrayOf? {
      var body := Items(t.items) + [Punct(']')] + ts;
      assert Spelling(t) + ts == [Punct('[')] + body;
      ArrayStep(converts, body, depth);
      ItemsFirst(converts, t.items);
      if t.items == [] {
        assert body[1..] == ts;
      } else {
        assert body[0] == Items(t.items)[0];
        ItemTreesParse(converts, t.items, ts, depth + 1, []);
        assert [] + ItemsMeaning(converts, t.items).value == ItemsMeaning(converts, t.items).value;
      }
    } else {
      var body := Members(t.members, t.comma) + [Punct('}')] + ts;
      assert Spelling(t) + ts == [Punct('{')] + body;
      ObjectStep(converts, body, depth);
      MembersFirst(converts, t.members, t.comma);
      if t.members == [] {
        MembersEnd(converts, body, depth + 1, "", []);
        assert body[1..] == ts;
      } else {
        MemberTreesParse(converts, t.members, t.comma, ts, depth + 1, "", []);
      }
    }
  }

  lemma ItemsFirst(converts: Converter, items: seq<Tree>)
    requires ItemsMeaning(converts, items).Some?
    ensures items == [] ==> Items(items) == [] && ItemsMeaning(converts, items) == Some([]) && ItemsTreeDepth(items) == 0
    ensures items != [] ==> Items(items) != [] && Items(items)[0] != Punct(']')
  {
    hide Spelling, Meaning, TreeDepth;
    if items != [] {
      FirstOf(converts, items[0]);
    }
  }

  lemma MembersFirst(converts: Converter, members: seq<Named>, comma: bool)
    ensures members == [] ==> Members(members, comma) == [] && MembersMeaning(converts, members, []) == Some([]) && MembersTreeDepth(members) == 0
  {
  }

  lemma ItemsParts(converts: Converter, items: seq<Tree>)
    requires items != [] && ItemsMeaning(converts, items).Some?
    ensures Items(items) == Spelling(items[0]) + (if |items| > 1 then [Punct(',')] else []) + Items(items[1..])
    ensures Meaning(converts, items[0]).Some? && ItemsMeaning(converts, items[1..]).Some?
    ensures ItemsMeaning(converts, items).value == [Meaning(converts, items[0]).value] + ItemsMeaning(converts, items[1..]).value
    ensures ItemsTreeDepth(items) == Max(TreeDepth(items[0]), ItemsTreeDepth(items[1..]))
    ensures |items| == 1 ==> Items(items[1..]) == [] && ItemsMeaning(converts, items[1..]) == Some([]) && ItemsTreeDepth(items[1..]) == 0
  {
    hide Spelling, Meaning, TreeDepth;
  }

  lemma {:induction false} ItemTreesParse(converts: Converter, items: seq<Tree>, ts: seq<Token>, depth: nat, read: seq<Value>)
    requires items != [] && ItemsMeaning(converts, items).Some?
    ensures ParseItems(converts, Items(items) + [Punct(']')] + ts, depth, read)
      == Result(Arr(read + ItemsMeaning(converts, items).value), ts, depth + ItemsTreeDepth(items) <= STACK_LIMIT)
    decreases items, 1
  {
    hide ParseValue, ParseItems, Items, ItemsMeaning, ItemsTreeDepth, Spelling, Meaning, TreeDepth;
    ItemsParts(converts, items);
    var v, rest := Meaning(converts, items[0]).value, ItemsMeaning(converts, items[1..]).value;
    var all := Items(items) + [Punct(']')] + ts;
    if |items| == 1 {
      var behind := [Punct(']')] + ts;
      assert all == Spelling(items[0]) + behind;
      TreeParses(converts, items[0], behind, depth);
      if depth + TreeDepth(items[0]) <= STACK_LIMIT {
        ItemsStep(converts, all, depth, read, v, Punct(']'), ts);
      } else {
        ItemsTooDeep(converts, all, depth, read);
      }
      assert read + ([v] + rest) == read + [v];
    } else {
      var tail := Items(items[1..]) + [Punct(']')] + ts;
      var behind := [Punct(',')] + tail;
      assert all == Spelling(items[0]) + behind;
      TreeParses(converts, items[0], behind, depth);
      if depth + TreeDepth(items[0]) <= STACK_LIMIT {
        ItemsStep(converts, all, depth, read, v, Punct(','), tail);
        ItemTreesParse(converts, items[1..], ts, depth, read + [v]);
        assert read + [v] + rest == read + ([v] + rest);
      } else {
        ItemsTooDeep(converts, all, depth, read);
      }
    }
  }

  lemma MembersParts(converts: Converter, members: seq<Named>, comma: bool, read: seq<Member>)
    requires members != [] && MembersMeaning(converts, members, read).Some?
    ensures Decode(members[0].name).Some? && Meaning(converts, members[0].tree).Some?
    ensures Members(members, comma) ==
      [Quoted(members[0].name), Punct(':')] + Spelling(members[0].tree)
      + (if |members| > 1 || comma then [Punct(',')] else []) + Members(members[1..], comma)
    ensures MembersMeaning(converts, members, read)
      == MembersMeaning(converts, members[1..], Put(read, Decode(members[0].name).value, Meaning(converts, members[0].tree).value))
    ensures MembersTreeDepth(members) == Max(TreeDepth(members[0].tree), MembersTreeDepth(members[1..]))
    ensures |members| == 1 ==> Members(members[1..], comma) == [] && MembersTreeDepth(members[1..]) == 0
    ensures |members| == 1 ==> forall ms :: MembersMeaning(converts, members[1..], ms) == Some(ms)
  {
    hide Spelling, Meaning, TreeDepth, Decode, Put;
  }

  // One member and the token behind it.
  lemma MemberStep(converts: Converter, m: Named, ts: seq<Token>, depth: nat, before: string, read: seq<Member>, t: Token, rest: seq<Token>)
    requires Decode(m.name).Some? && Meaning(converts, m.tree).Some? && (t == Punct(',') || t == Punct('}'))
    requires ts == [Quoted(m.name), Punct(':')] + (Spelling(m.tree) + ([t] + rest))
    ensures var name, v := Decode(m.name).value, Meaning(converts, m.tree).value;
      ParseMembers(converts, ts, depth, before, read) ==
        if depth + TreeDepth(m.tree) > STACK_LIMIT then TooDeep
        else if t == Punct('}') then Parsed(Obj(Put(read, name, v)), rest)
        else ParseMembers(converts, rest, depth, name, Put(read, name, v))
    decreases m.tree, 2
  {
    hide ParseValue, ParseMembers, Spelling, Meaning, TreeDepth, Decode, Put;
    TreeParses(converts, m.tree, [t] + rest, depth);
    MembersUnfold(converts, ts, depth, before, read);
    assert ts[2..] == Spelling(m.tree) + ([t] + rest);
    assert ([t] + rest)[1..] == rest;
  }

  lemma {:induction false} MemberTreesParse(converts: Converter, members: seq<Named>, comma: bool, ts: seq<Token>, depth: nat, before: string, read: seq<Member>)
    requires members != [] && MembersMeaning(converts, members, read).Some?
    requires comma ==> Decode(members[|members| - 1].name) == Some("")
    ensures ParseMembers(converts, Members(members, comma) + [Punct('}')] + ts, depth, before, read)
      == Result(Obj(MembersMeaning(converts, members, read).value), ts, depth + MembersTreeDepth(members) <= STACK_LIMIT)
    decreases members, 1
  {
    hide ParseValue, ParseMembers, Members, MembersMeaning, MembersTreeDepth, Spelling, Meaning, TreeDepth, Decode, Put;
    MembersParts(converts, members, comma, read);
    var m, others := members[0], members[1..];
    var name, v := Decode(m.name).value, Meaning(converts, m.tree).value;
    var head := [Quoted(m.name), Punct(':')];
    var all := Members(members, comma) + [Punct('}')] + ts;
    if |members| == 1 && !comma {
      assert all == head + (Spelling(m.tree) + ([Punct('}')] + ts));
      MemberStep(converts, m, all, depth, before, read, Punct('}'), ts);
    } else {
      var tail := Members(others, comma) + [Punct('}')] + ts;
      assert all == head + (Spelling(m.tree) + ([Punct(',')] + tail));
      MemberStep(converts, m, all, depth, before, read, Punct(','), tail);
      if |members| == 1 {
        MembersEnd(converts, tail, depth, name, Put(read, name, v));
        assert tail == [Punct('}')] + ts && tail[1..] == ts;
      } else {
        assert others[|others| - 1] == members[|members| - 1];
        MemberTreesParse(converts, others, comma, ts, depth, name, Put(read, name, v));
      }
    }
  }

  // ----- exactly -----

  // Without comments a value is read exactly when the tokens are derived in the
  // grammar, with that meaning, and not nested beyond the limit.
  lemma GrammarExactly(converts: Converter, ts: seq<Token>, depth: nat, v: Value, rest: seq<Token>)
    requires NoComments(ts, rest)
    ensures ParseValue(converts, ts, depth) == Parsed(v, rest) <==>
      exists t: Tree :: ts == Spelling(t) + rest && Meaning(converts, t) == Some(v) && depth + TreeDepth(t) <= 1000
  {
    hide ParseValue, Spelling, Meaning, TreeDepth, NoComments;
    if ParseValue(converts, ts, depth) == Parsed(v, rest) {
      var t := ValueDerived(converts, ts, depth);
      TreeParses(converts, t, rest, depth);
      assert depth + TreeDepth(t) <= 1000;
    }
    if exists t: Tree :: ts == Spelling(t) + rest && Meaning(converts, t) == Some(v) && depth + TreeDepth(t) <= 1000 {
      var t: Tree :| ts == Spelling(t) + rest && Meaning(converts, t) == Some(v) && depth + TreeDepth(t) <= 1000;
      TreeParses(converts, t, rest, depth);
    }
  }
}
