// Reader: a recursive-descent parser with a node stack.
module JsonReader {
  import opened Bytes
  import opened JsonText
  import opened JsonNumber
  import opened JsonValue
  import opened JsonLex
  import opened JsonWriters
  import opened JsonStyled

  const STACK_LIMIT: nat := 1000

  // ----- objects as std::map -----

  predicate Sorted(ms: seq<Member>) {
    forall i, j :: 0 <= i < j < |ms| ==> TextLess(ms[i].name, ms[j].name)
  }

  function Lookup(ms: seq<Member>, name: string): Option<Value> {
    if ms == [] then None
    else if ms[0].name == name then Some(ms[0].value)
    else Lookup(ms[1..], name)
  }

  // The entry for name, added in its place when it is new.
  function Put(ms: seq<Member>, name: string, v: Value): seq<Member> {
    if ms == [] then [Member(name, v)]
    else if ms[0].name == name then [Member(name, v)] + ms[1..]
    else if TextLess(name, ms[0].name) then [Member(name, v)] + ms
    else [ms[0]] + Put(ms[1..], name, v)
  }

  lemma {:induction false} PutFinds(ms: seq<Member>, name: string, v: Value, x: string)
    ensures Lookup(Put(ms, name, v), x) == if x == name then Some(v) else Lookup(ms, x)
    decreases |ms|
  {
    hide TextLess;
    if ms != [] && ms[0].name != name && !TextLess(name, ms[0].name) {
      PutFinds(ms[1..], name, v, x);
    }
  }

  lemma {:induction false} PutSorted(ms: seq<Member>, name: string, v: Value)
    requires Sorted(ms)
    ensures Sorted(Put(ms, name, v))
    ensures forall m :: m in Put(ms, name, v) ==> m.name == name || m in ms
    decreases |ms|
  {
    hide TextLess;
    if ms != [] {
      TextTotal(name, ms[0].name);
      if ms[0].name == name {
        assert forall k :: 0 < k < |ms| ==> TextLess(ms[0].name, ms[k].name);
      } else if TextLess(name, ms[0].name) {
        forall k | 0 < k < |ms| ensures TextLess(name, ms[k].name) {
          TextTransitive(name, ms[0].name, ms[k].name);
        }
      } else {
        PutSorted(ms[1..], name, v);
      }
    }
  }

  lemma {:induction false} PutLast(ms: seq<Member>, name: string, v: Value)
    requires forall k :: 0 <= k < |ms| ==> TextLess(ms[k].name, name)
    ensures Put(ms, name, v) == ms + [Member(name, v)]
    decreases |ms|
  {
    hide TextLess;
    if ms != [] {
      TextTotal(ms[0].name, name);
      PutLast(ms[1..], name, v);
    }
  }

  // ----- what a list of tokens is parsed to -----

  datatype Outcome = Parsed(value: Value, rest: seq<Token>) | Rejected | TooDeep

  // An integer keeps its value; the tag follows from it alone.
  function Tagged(i: int): Value {
    if i <= MAX_INT then Int(i) else UInt(i)
  }

  // Whether sscanf makes a double of a number token that is not an integer.
  type Converter = string -> bool

  function NumberValue(converts: Converter, text: string): Option<Value> {
    match DecodeNumber(text)
    case Integer(i) => Some(Tagged(i))
    case Double => if converts(text) then Some(Real(text)) else None
  }

  // The tokens behind leading comments.
  function Skip(ts: seq<Token>): (r: seq<Token>)
    ensures |r| <= |ts| && (r != [] ==> !r[0].Comment?)
  {
    if ts != [] && ts[0].Comment? then Skip(ts[1..]) else ts
  }

  // readValue, when `depth` calls of it are already open.
  function ParseValue(converts: Converter, ts: seq<Token>, depth: nat): (r: Outcome)
    ensures r.Parsed? ==> |r.rest| < |ts|
    decreases |ts|, 0
  {
    if depth >= STACK_LIMIT then TooDeep
    else if Skip(ts) == [] then Rejected
    else
      var ts := Skip(ts);
      match ts[0]
      case Punct(c) =>
        if c == '{' then ParseMembers(converts, ts[1..], depth + 1, "", [])
        else if c == '[' then
          if |ts| > 1 && ts[1] == Punct(']') then Parsed(Arr([]), ts[2..]) else ParseItems(converts, ts[1..], depth + 1, [])
        else Rejected
      case Num(text) =>
        (match NumberValue(converts, text)
         case Some(v) => Parsed(v, ts[1..])
         case None => Rejected)
      case Quoted(text) =>
        (match Decode(text)
         case Some(s) => Parsed(Str(s), ts[1..])
         case None => Rejected)
      case True => Parsed(Bool(true), ts[1..])
      case False => Parsed(Bool(false), ts[1..])
      case NullWord => Parsed(Null, ts[1..])
      case NulByte => Rejected
      case EndOfStream => Rejected
      case Error => Rejected
  }

  // From an element of an array on, the elements before it being read.
  function ParseItems(converts: Converter, ts: seq<Token>, depth: nat, items: seq<Value>): (r: Outcome)
    ensures r.Parsed? ==> |r.rest| < |ts|
    decreases |ts|, 1
  {
    match ParseValue(converts, ts, depth)
    case Rejected => Rejected
    case TooDeep => TooDeep
    case Parsed(v, behind) =>
      var rest := Skip(behind);
      if rest != [] && rest[0] == Punct(',') then ParseItems(converts, rest[1..], depth, items + [v])
      else if rest != [] && rest[0] == Punct(']') then Parsed(Arr(items + [v]), rest[1..])
      else Rejected
  }

  // What may directly follow a member.
  predicate EndsMember(t: Token) {
    t == Punct(',') || t == Punct('}') || t.Comment?
  }

  // From a member name or the closing brace on. The brace is taken when the
  // name read before it is empty. No comment may stand before the colon, and
  // behind one any token but the brace passes for a comma.
  function ParseMembers(converts: Converter, ts: seq<Token>, depth: nat, before: string, members: seq<Member>): (r: Outcome)
    ensures r.Parsed? ==> |r.rest| < |ts|
    decreases |ts|, 1
  {
    var ts := Skip(ts);
    if ts == [] then Rejected
    else if ts[0] == Punct('}') && before == "" then Parsed(Obj(members), ts[1..])
    else if !ts[0].Quoted? then Rejected
    else
      match Decode(ts[0].text)
      case None => Rejected
      case Some(name) =>
        if |ts| < 2 || ts[1] != Punct(':') then Rejected
        else
          match ParseValue(converts, ts[2..], depth)
          case Rejected => Rejected
          case TooDeep => TooDeep
          case Parsed(v, behind) =>
            var rest := Skip(behind);
            if rest == [] || !EndsMember(behind[0]) then Rejected
            else if rest[0] == Punct('}') then Parsed(Obj(Put(members, name, v)), rest[1..])
            else ParseMembers(converts, rest[1..], depth, name, Put(members, name, v))
  }

  // ----- printing, then parsing -----

  function Depth(v: Value): nat
    decreases v
  {
    match v
    case Arr(items) => 1 + ItemsDepth(items, 0)
    case Obj(members) => 1 + MembersDepth(members, 0)
    case _ => 1
  }

  function Max(a: nat, b: nat): nat { if a < b then b else a }

  function ItemsDepth(items: seq<Value>, k: nat): nat
    requires k <= |items|
    decreases items, |items| - k
  {
    if k == |items| then 0 else Max(Depth(items[k]), ItemsDepth(items, k + 1))
  }

  function MembersDepth(members: seq<Member>, k: nat): nat
    requires k <= |members|
    decreases members, |members| - k
  {
    if k == |members| then 0 else Max(Depth(members[k].value), MembersDepth(members, k + 1))
  }

  // The same tree with every integer tagged as the parser tags it.
  function Retagged(v: Value): Value
    decreases v
  {
    match v
    case Int(i) => Tagged(i)
    case UInt(u) => Tagged(u)
    case Arr(items) => Arr(RetaggedItems(items))
    case Obj(members) => Obj(RetaggedMembers(members))
    case _ => v
  }

  function RetaggedItems(items: seq<Value>): (r: seq<Value>)
    ensures |r| == |items|
    decreases items
  {
    seq(|items|, k requires 0 <= k < |items| => Retagged(items[k]))
  }

  function RetaggedMembers(members: seq<Member>): (r: seq<Member>)
    ensures |r| == |members|
    decreases members
  {
    seq(|members|, k requires 0 <= k < |members| => Member(members[k].name, Retagged(members[k].value)))
  }

  // The members of every object are sorted by name, as std::map has them.
  predicate Ordered(v: Value)
    decreases v
  {
    match v
    case Arr(items) => forall x :: x in items ==> Ordered(x)
    case Obj(members) => Sorted(members) && forall m :: m in members ==> Ordered(m.value)
    case _ => true
  }

  function Result(v: Value, ts: seq<Token>, fits: bool): Outcome {
    if fits then Parsed(v, ts) else TooDeep
  }

  lemma ArrayStep(converts: Converter, ts: seq<Token>, depth: nat)
    requires depth < STACK_LIMIT && ts != []
    ensures ParseValue(converts, [Punct('[')] + ts, depth) == if ts[0] == Punct(']') then Parsed(Arr([]), ts[1..]) else ParseItems(converts, ts, depth + 1, [])
  {
    hide ParseItems, ParseMembers;
    var all := [Punct('[')] + ts;
    assert all[1..] == ts && all[2..] == ts[1..];
  }

  lemma ObjectStep(converts: Converter, ts: seq<Token>, depth: nat)
    requires depth < STACK_LIMIT
    ensures ParseValue(converts, [Punct('{')] + ts, depth) == ParseMembers(converts, ts, depth + 1, "", [])
  {
    hide ParseItems, ParseMembers;
    assert ([Punct('{')] + ts)[1..] == ts;
  }

  lemma ScalarParses(converts: Converter, v: Value, ts: seq<Token>, depth: nat)
    requires Printable(v) && !v.Arr? && !v.Obj? && depth < STACK_LIMIT
    ensures ParseValue(converts, ValueTokens(v) + ts, depth) == Parsed(Retagged(v), ts)
  {
    hide Print, Quote, Decode, DecodeNumber, ParseItems, ParseMembers;
    assert (ValueTokens(v) + ts)[1..] == ts;
    match v {
      case Int(i) => PrintDecodes(i);
      case UInt(u) => PrintDecodes(u);
      case Str(s) => QuoteDecodes(s);
      case _ =>
    }
  }

  lemma FirstToken(v: Value)
    requires Printable(v)
    ensures ValueTokens(v) != [] && ValueTokens(v)[0] != Punct(']') && ValueTokens(v)[0] != Punct('}') && !ValueTokens(v)[0].Comment?
  {
    hide ItemTokens, MemberTokens, Print, Quote;
  }

  lemma DepthBound(v: Value)
    ensures Depth(v) >= 1
    ensures !v.Arr? && !v.Obj? ==> Depth(v) == 1
  {
    hide ItemsDepth, MembersDepth;
  }

  // The tokens of a value parse to that value, retagged, and to nothing else,
  // exactly when it is not nested too deeply.
  lemma {:induction false} ValueParses(converts: Converter, v: Value, ts: seq<Token>, depth: nat)
    requires Printable(v) && Ordered(v)
    ensures ParseValue(converts, ValueTokens(v) + ts, depth) == Result(Retagged(v), ts, depth + Depth(v) <= STACK_LIMIT)
    decreases v
  {
    hide ParseItems, ParseMembers, ItemTokens, MemberTokens, RetaggedItems, RetaggedMembers, ItemsDepth, MembersDepth, Sorted, Print, Quote, Tagged, NumberValue, Decode, Printable, Ordered, ParseValue;
    DepthBound(v);
    if depth >= STACK_LIMIT {
      TooDeepAtOnce(converts, ValueTokens(v) + ts, depth);
    } else if v.Arr? {
      ArrayParses(converts, v.items, ts, depth);
    } else if v.Obj? {
      ObjectParses(converts, v.members, ts, depth);
    } else {
      ScalarParses(converts, v, ts, depth);
    }
  }

  lemma TooDeepAtOnce(converts: Converter, ts: seq<Token>, depth: nat)
    requires depth >= STACK_LIMIT
    ensures ParseValue(converts, ts, depth) == TooDeep
  {
  }

  lemma Contents(v: Value)
    requires Printable(v) && Ordered(v)
    ensures v.Arr? ==> forall x :: x in v.items ==> Printable(x) && Ordered(x)
    ensures v.Obj? ==> Sorted(v.members) && forall m :: m in v.members ==> Printable(m.value) && Ordered(m.value)
  {
  }

  lemma {:induction false} ArrayParses(converts: Converter, items: seq<Value>, ts: seq<Token>, depth: nat)
    requires Printable(Arr(items)) && Ordered(Arr(items)) && depth < STACK_LIMIT
    ensures ParseValue(converts, ValueTokens(Arr(items)) + ts, depth)
         == Result(Arr(RetaggedItems(items)), ts, depth + 1 + ItemsDepth(items, 0) <= STACK_LIMIT)
    decreases items, |items| + 1
  {
    hide ParseValue, ParseItems, Retagged, Depth, Printable, Ordered;
    Contents(Arr(items));
    var body := ItemTokens(items, 0) + ts;
    if items != [] {
      FirstToken(items[0]);
    }
    ArrayStep(converts, body, depth);
    assert ValueTokens(Arr(items)) + ts == [Punct('[')] + body;
    if items == [] {
      assert body[1..] == ts;
    } else {
      ItemsParse(converts, items, 0, ts, depth + 1, []);
      assert [] + RetaggedItems(items)[0..] == RetaggedItems(items);
      assert body == ValueTokens(items[0]) + ItemTokens(items, 1) + ts;
    }
  }

  lemma ItemsStep(converts: Converter, ts: seq<Token>, depth: nat, items: seq<Value>, v: Value, t: Token, rest: seq<Token>)
    requires ParseValue(converts, ts, depth) == Parsed(v, [t] + rest)
    ensures t == Punct(',') ==> ParseItems(converts, ts, depth, items) == ParseItems(converts, rest, depth, items + [v])
    ensures t == Punct(']') ==> ParseItems(converts, ts, depth, items) == Parsed(Arr(items + [v]), rest)
  {
    hide ParseValue;
    assert ([t] + rest)[1..] == rest;
  }

  lemma ItemsTooDeep(converts: Converter, ts: seq<Token>, depth: nat, items: seq<Value>)
    requires ParseValue(converts, ts, depth) == TooDeep
    ensures ParseItems(converts, ts, depth, items) == TooDeep
  {
    hide ParseValue;
  }

  lemma {:induction false} ItemsParse(converts: Converter, items: seq<Value>, k: nat, ts: seq<Token>, depth: nat, read: seq<Value>)
    requires k < |items| && forall x :: x in items ==> Printable(x) && Ordered(x)
    ensures ParseItems(converts, ValueTokens(items[k]) + ItemTokens(items, k + 1) + ts, depth, read)
         == Result(Arr(read + RetaggedItems(items)[k..]), ts, depth + ItemsDepth(items, k) <= STACK_LIMIT)
    decreases items, |items| - k
  {
    hide ParseValue, ParseItems, Retagged, Depth, Printable, Ordered, ValueTokens;
    var v := Retagged(items[k]);
    var rest := ItemTokens(items, k + 1) + ts;
    var all := ValueTokens(items[k]) + ItemTokens(items, k + 1) + ts;
    Regroup(ValueTokens(items[k]), ItemTokens(items, k + 1), ts);
    ValueParses(converts, items[k], rest, depth);
    ItemsDepthStep(items, k);
    if depth + Depth(items[k]) > STACK_LIMIT {
      ItemsTooDeep(converts, all, depth, read);
    } else if k + 1 == |items| {
      assert rest == [Punct(']')] + ts;
      ItemsStep(converts, all, depth, read, v, Punct(']'), ts);
      assert RetaggedItems(items)[k..] == [v];
    } else {
      var next := ValueTokens(items[k + 1]) + ItemTokens(items, k + 2) + ts;
      assert rest == [Punct(',')] + next;
      ItemsStep(converts, all, depth, read, v, Punct(','), next);
      ItemsParse(converts, items, k + 1, ts, depth, read + [v]);
      assert read + RetaggedItems(items)[k..] == read + [v] + RetaggedItems(items)[k + 1..];
    }
  }

  lemma ItemsDepthStep(items: seq<Value>, k: nat)
    requires k < |items|
    ensures ItemsDepth(items, k) == Max(Depth(items[k]), ItemsDepth(items, k + 1))
    ensures k + 1 == |items| ==> ItemsDepth(items, k + 1) == 0
  {
    hide Depth;
  }

  lemma {:induction false} ObjectParses(converts: Converter, members: seq<Member>, ts: seq<Token>, depth: nat)
    requires Printable(Obj(members)) && Ordered(Obj(members)) && depth < STACK_LIMIT
    ensures ParseValue(converts, ValueTokens(Obj(members)) + ts, depth)
         == Result(Obj(RetaggedMembers(members)), ts, depth + 1 + MembersDepth(members, 0) <= STACK_LIMIT)
    decreases members, |members| + 1
  {
    hide ParseValue, ParseMembers, Retagged, Depth, Printable, Ordered, Sorted, Quote;
    Contents(Obj(members));
    var body := MemberTokens(members, 0) + ts;
    ObjectStep(converts, body, depth);
    assert ValueTokens(Obj(members)) + ts == [Punct('{')] + body;
    if members == [] {
      EmptyObject(converts, ts, depth + 1);
      assert body == [Punct('}')] + ts;
    } else {
      MembersParse(converts, members, 0, ts, depth + 1, "");
      assert RetaggedMembers(members)[..0] == [];
      assert body == NamedTokens(members, 0) + MemberTokens(members, 1) + ts;
    }
  }

  lemma EmptyObject(converts: Converter, ts: seq<Token>, depth: nat)
    ensures ParseMembers(converts, [Punct('}')] + ts, depth, "", []) == Parsed(Obj([]), ts)
  {
    assert ([Punct('}')] + ts)[1..] == ts;
  }

  // Name, colon and value of member k.
  function NamedTokens(members: seq<Member>, k: nat): seq<Token>
    requires k < |members|
  {
    [Quoted(Quote(members[k].name)), Punct(':')] + ValueTokens(members[k].value)
  }

  lemma MembersStep(converts: Converter, name: string, ts: seq<Token>, depth: nat, before: string, members: seq<Member>, v: Value, t: Token, rest: seq<Token>)
    requires ParseValue(converts, ts, depth) == Parsed(v, [t] + rest)
    ensures var all := [Quoted(Quote(name)), Punct(':')] + ts;
      && (t == Punct(',') ==> ParseMembers(converts, all, depth, before, members) == ParseMembers(converts, rest, depth, name, Put(members, name, v)))
      && (t == Punct('}') ==> ParseMembers(converts, all, depth, before, members) == Parsed(Obj(Put(members, name, v)), rest))
  {
    hide ParseValue, Quote, Decode, Put;
    QuoteDecodes(name);
    assert ([t] + rest)[1..] == rest;
    assert ([Quoted(Quote(name)), Punct(':')] + ts)[2..] == ts;
  }

  // A token behind a member separates it from the next one if and only if it is
  // a comma or, whatever else it is but the brace, comments stand before it.
  lemma SeparatorUnchecked(converts: Converter, name: string, ts: seq<Token>, depth: nat, before: string, members: seq<Member>, v: Value,
                           comments: nat, t: Token, rest: seq<Token>)
    requires ParseValue(converts, ts, depth) == Parsed(v, seq(comments, _ => Comment) + [t] + rest)
    requires !t.Comment? && t != Punct('}')
    ensures ParseMembers(converts, [Quoted(Quote(name)), Punct(':')] + ts, depth, before, members)
      == if comments > 0 || t == Punct(',') then ParseMembers(converts, rest, depth, name, Put(members, name, v)) else Rejected
  {
    hide ParseValue, ParseMembers, Quote, Decode, Put, Skip;
    var all := [Quoted(Quote(name)), Punct(':')] + ts;
    QuoteDecodes(name);
    MembersUnfold(converts, all, depth, before, members);
    assert all[2..] == ts;
    SkipComments(comments, [t] + rest);
    assert ([t] + rest)[1..] == rest;
    var behind := seq(comments, _ => Comment) + [t] + rest;
    assert behind == seq(comments, _ => Comment) + ([t] + rest);
    assert behind[0] == if comments > 0 then Comment else t;
  }

  lemma {:induction false} SkipComments(n: nat, ts: seq<Token>)
    requires ts != [] && !ts[0].Comment?
    ensures Skip(seq(n, _ => Comment) + ts) == ts
    decreases n
  {
    if n > 0 {
      SkipComments(n - 1, ts);
      assert (seq(n, _ => Comment) + ts)[1..] == seq(n - 1, _ => Comment) + ts;
    } else {
      assert seq(n, _ => Comment) + ts == ts;
    }
  }

  lemma MembersTooDeep(converts: Converter, name: string, ts: seq<Token>, depth: nat, before: string, members: seq<Member>)
    requires ParseValue(converts, ts, depth) == TooDeep
    ensures ParseMembers(converts, [Quoted(Quote(name)), Punct(':')] + ts, depth, before, members) == TooDeep
  {
    hide ParseValue, Quote, Decode, Put;
    QuoteDecodes(name);
    assert ([Quoted(Quote(name)), Punct(':')] + ts)[2..] == ts;
  }

  lemma {:induction false} MembersParse(converts: Converter, members: seq<Member>, k: nat, ts: seq<Token>, depth: nat, before: string)
    requires k < |members| && Sorted(members) && forall m :: m in members ==> Printable(m.value) && Ordered(m.value)
    ensures ParseMembers(converts, NamedTokens(members, k) + MemberTokens(members, k + 1) + ts, depth, before, RetaggedMembers(members)[..k])
         == Result(Obj(RetaggedMembers(members)), ts, depth + MembersDepth(members, k) <= STACK_LIMIT)
    decreases members, |members| - k
  {
    hide ParseValue, ParseMembers, Retagged, Depth, Printable, Ordered, ValueTokens, Quote, Put;
    var name, value := members[k].name, members[k].value;
    var head, v := [Quoted(Quote(name)), Punct(':')], Retagged(value);
    var rest := MemberTokens(members, k + 1) + ts;
    var tail := ValueTokens(value) + rest;
    assert NamedTokens(members, k) + MemberTokens(members, k + 1) + ts == head + tail;
    var read := RetaggedMembers(members)[..k];
    ValueParses(converts, value, rest, depth);
    MembersDepthStep(members, k);
    if depth + Depth(value) > STACK_LIMIT {
      MembersTooDeep(converts, name, tail, depth, before, read);
    } else {
      NextMember(members, k);
      if k + 1 == |members| {
        assert rest == [Punct('}')] + ts;
        MembersStep(converts, name, tail, depth, before, read, v, Punct('}'), ts);
        assert RetaggedMembers(members)[..k + 1] == RetaggedMembers(members);
      } else {
        var next := NamedTokens(members, k + 1) + MemberTokens(members, k + 2) + ts;
        assert rest == [Punct(',')] + next;
        MembersStep(converts, name, tail, depth, before, read, v, Punct(','), next);
        MembersParse(converts, members, k + 1, ts, depth, name);
      }
    }
  }

  lemma NextMember(members: seq<Member>, k: nat)
    requires k < |members| && Sorted(members)
    ensures Put(RetaggedMembers(members)[..k], members[k].name, Retagged(members[k].value)) == RetaggedMembers(members)[..k + 1]
  {
    hide TextLess, Retagged, Put, Sorted;
    var all := RetaggedMembers(members);
    var v := Retagged(members[k].value);
    assert all[k] == Member(members[k].name, v);
    forall j | 0 <= j < k ensures TextLess(all[..k][j].name, members[k].name) {
      SortedAt(members, j, k);
    }
    PutLast(all[..k], members[k].name, v);
    assert all[..k + 1] == all[..k] + [all[k]];
  }

  lemma SortedAt(ms: seq<Member>, i: nat, j: nat)
    requires Sorted(ms) && i < j < |ms|
    ensures TextLess(ms[i].name, ms[j].name)
  {
    hide TextLess;
  }

  lemma MembersDepthStep(members: seq<Member>, k: nat)
    requires k < |members|
    ensures MembersDepth(members, k) == Max(Depth(members[k].value), MembersDepth(members, k + 1))
    ensures k + 1 == |members| ==> MembersDepth(members, k + 1) == 0
  {
    hide Depth;
  }

  // ----- the reader -----

  datatype Status = Success | Failure | Thrown

  predicate Follows(r: Outcome, status: Status) {
    match r
    case Parsed(_, _) => status.Success?
    case Rejected => status.Failure?
    case TooDeep => status.Thrown?
  }

  // What a method that reads one value has done when it returns.
  ghost predicate Reads(r: Outcome, status: Status, before: seq<Value>, after: seq<Value>, left: string) {
    && Follows(r, status)
    && (r.Parsed? ==> before != [] && after == before[..|before| - 1] + [r.value] && Tokens(left) == r.rest)
  }

  lemma FinalToken(t: Token, rest: seq<Token>)
    ensures ([t] + rest)[1..] == rest
  {
  }

  lemma {:induction false} SpacesSkipped(s: string)
    ensures Tokens(s[Spaces(s)..]) == Tokens(s)
    decreases |s|
  {
    hide Tokens;
    var n := Spaces(s);
    if n == 0 {
      assert s[0..] == s;
    } else {
      SpacesSkipped(s[1..]);
      SpaceSkipped(s[0], s[1..]);
      assert s == [s[0]] + s[1..] && s[n..] == s[1..][n - 1..];
    }
  }

  lemma BracketAhead(s: string)
    requires Spaces(s) == 0
    ensures Tokens(s)[0] == Punct(']') <==> s != "" && s[0] == ']'
  {
    hide NumberEnd, StringEnd;
    assert s[0..] == s;
  }

  lemma ItemsUnfold(converts: Converter, ts: seq<Token>, depth: nat, items: seq<Value>)
    ensures var one := ParseValue(converts, ts, depth);
      ParseItems(converts, ts, depth, items) ==
        if !one.Parsed? then one
        else
          var rest := Skip(one.rest);
          if rest != [] && rest[0] == Punct(',') then ParseItems(converts, rest[1..], depth, items + [one.value])
          else if rest != [] && rest[0] == Punct(']') then Parsed(Arr(items + [one.value]), rest[1..])
          else Rejected
  {
    hide ParseValue;
  }

  lemma MembersUnfold(converts: Converter, ts: seq<Token>, depth: nat, before: string, members: seq<Member>)
    requires |ts| >= 2 && ts[0].Quoted? && Decode(ts[0].text).Some? && ts[1] == Punct(':')
    ensures var name := Decode(ts[0].text).value;
      var one := ParseValue(converts, ts[2..], depth);
      ParseMembers(converts, ts, depth, before, members) ==
        if !one.Parsed? then one
        else
          var rest := Skip(one.rest);
          if rest == [] || !EndsMember(one.rest[0]) then Rejected
          else if rest[0] == Punct('}') then Parsed(Obj(Put(members, name, one.value)), rest[1..])
          else ParseMembers(converts, rest[1..], depth, name, Put(members, name, one.value))
  {
    hide ParseValue, Decode, Put;
  }

  lemma AtEndOfText()
    ensures Tokens("") == [EndOfStream]
  {
  }

  // Comments in front make no difference.
  lemma MembersSkip(converts: Converter, ts: seq<Token>, depth: nat, before: string, members: seq<Member>)
    ensures ParseMembers(converts, ts, depth, before, members) == ParseMembers(converts, Skip(ts), depth, before, members)
  {
    hide ParseValue, Decode, Put;
  }

  // Behind the end of the stream there is no member.
  lemma AtTheEnd(converts: Converter, depth: nat, before: string, members: seq<Member>)
    ensures ParseMembers(converts, [], depth, before, members) == ParseMembers(converts, [EndOfStream], depth, before, members) == Rejected
  {
    hide ParseValue, Decode, Put;
  }

  lemma MembersEnd(converts: Converter, ts: seq<Token>, depth: nat, before: string, members: seq<Member>)
    requires ts != [] && !ts[0].Comment?
    ensures ts[0] == Punct('}') && before == "" ==> ParseMembers(converts, ts, depth, before, members) == Parsed(Obj(members), ts[1..])
    ensures !ts[0].Quoted? && !(ts[0] == Punct('}') && before == "") ==> ParseMembers(converts, ts, depth, before, members) == Rejected
    ensures ts[0].Quoted? && (Decode(ts[0].text).None? || |ts| < 2 || ts[1] != Punct(':')) ==>
      ParseMembers(converts, ts, depth, before, members) == Rejected
  {
    hide ParseValue, Decode, Put;
  }

  class Reader {
    const converts: Converter

    var document: string
    var current: nat
    var nodes: seq<Value>          // the node stack; the last one is being filled in
    var stackDepth: nat

    constructor (converts: Converter)
      ensures this.converts == converts && document == "" && current == 0 && nodes == [] && stackDepth == 0
    {
      this.converts := converts;
      document, current, nodes, stackDepth := "", 0, [], 0;
    }

    predicate Valid()
      reads this
    {
      current <= |document|
    }

    // What is still to be read.
    function Left(): string
      requires Valid()
      reads this
    {
      document[current..]
    }

    // parse: the value at the start of the text. What follows it is not looked at.
    method Parse(text: string) returns (status: Status, root: Value)
      modifies this
      ensures var r := ParseValue(converts, Tokens(text), 0);
        Follows(r, status) && (r.Parsed? ==> root == r.value)
    {
      hide Tokens, ParseValue;
      document, current, nodes, stackDepth := text, 0, [Null], 0;
      assert Left() == text;
      status := ReadValue();
      root := if nodes == [] then Null else nodes[0];
    }

    // Fills in the value on top of the node stack.
    method ReadValue() returns (status: Status)
      requires Valid() && nodes != []
      modifies this
      ensures Valid() && document == old(document) && current >= old(current)
      ensures Reads(ParseValue(converts, Tokens(old(Left())), old(stackDepth)), status, old(nodes), nodes, Left())
      ensures status.Success? ==> stackDepth == old(stackDepth)
      decreases |document| - current, 0
    {
      hide Tokens, Next, ParseItems, ParseMembers, Decode, DecodeNumber;
      if stackDepth >= STACK_LIMIT {
        return Thrown;
      }
      ghost var depth, below := stackDepth, nodes[..|nodes| - 1];
      stackDepth := stackDepth + 1;
      var token := SkipCommentTokens();
      ghost var rest := Tokens(Left());
      FinalToken(token, rest);
      status := Success;
      match token {
        case Punct(c) =>
          if c == '{' {
            status := ReadObject();
          } else if c == '[' {
            status := ReadArray();
          } else {
            return Failure;
          }
        case Num(text) =>
          var decoded := DecodeNumberToken(text);
          if decoded.Double? && !converts(text) {
            return Failure;
          }
          SetTop(match decoded case Integer(i) => Tagged(i) case Double => Real(text));
        case Quoted(text) =>
          var decoded := DecodeString(text);
          if decoded.None? {
            return Failure;
          }
          SetTop(Str(decoded.value));
        case True =>
          SetTop(Bool(true));
        case False =>
          SetTop(Bool(false));
        case NullWord =>
          SetTop(Null);
        case NulByte =>
          return Failure;
        case EndOfStream =>
          return Failure;
        case Error =>
          return Failure;
      }
      if status.Success? {
        stackDepth := stackDepth - 1;
      }
    }

    // currentValue().swapPayload
    method SetTop(v: Value)
      requires nodes != []
      modifies this`nodes
      ensures nodes == old(nodes)[..|old(nodes)| - 1] + [v]
    {
      nodes := nodes[..|nodes| - 1] + [v];
    }

    // Takes the finished value off the stack.
    method Pop() returns (v: Value)
      requires nodes != []
      modifies this`nodes
      ensures v == old(nodes)[|old(nodes)| - 1] && nodes == old(nodes)[..|old(nodes)| - 1]
    {
      v := nodes[|nodes| - 1];
      nodes := nodes[..|nodes| - 1];
    }

    method ReadArray() returns (status: Status)
      requires Valid() && nodes != []
      modifies this
      ensures Valid() && document == old(document) && current >= old(current)
      ensures var ts := Tokens(old(Left()));
        Reads(if ts[0] == Punct(']') then Parsed(Arr([]), ts[1..]) else ParseItems(converts, ts, old(stackDepth), []),
              status, old(nodes), nodes, Left())
      ensures status.Success? ==> stackDepth == old(stackDepth)
      decreases |document| - current, 1
    {
      hide Tokens, Next, ParseValue, ParseItems, Spaces;
      ghost var s, below := Left(), nodes[..|nodes| - 1];
      SetTop(Arr([]));
      SkipSpaces();
      SpacesSkipped(s);
      BracketAhead(Left());
      if current < |document| && document[current] == ']' {
        var endArray := ReadToken();
        return Success;
      }
      var items: seq<Value> := [];
      ghost var all := ParseItems(converts, Tokens(Left()), stackDepth, []);
      while true
        invariant Valid() && document == old(document) && current >= old(current) && stackDepth == old(stackDepth)
        invariant nodes == below + [Arr(items)]
        invariant all == ParseItems(converts, Tokens(Left()), stackDepth, items)
        decreases |document| - current
      {
        ItemsUnfold(converts, Tokens(Left()), stackDepth, items);
        ghost var ts := Tokens(Left());
        ghost var one := ParseValue(converts, ts, stackDepth);
        nodes := nodes + [Null];
        status := ReadValue();
        if !status.Success? {
          return;
        }
        var value := Pop();
        assert nodes == below + [Arr(items)];
        items := items + [value];
        SetTop(Arr(items));
        var token := SkipCommentTokens();
        if token != Punct(',') && token != Punct(']') {
          return Failure;
        }
        if token == Punct(']') {
          return Success;
        }
      }
    }

    method ReadObject() returns (status: Status)
      requires Valid() && nodes != []
      modifies this
      ensures Valid() && document == old(document) && current >= old(current)
      ensures Reads(ParseMembers(converts, Tokens(old(Left())), old(stackDepth), "", []), status, old(nodes), nodes, Left())
      ensures status.Success? ==> stackDepth == old(stackDepth)
      decreases |document| - current, 1
    {
      hide Tokens, Next, ParseValue, ParseMembers, Decode, Put, Lookup, StringEnd, NumberEnd, Skip, EndsMember;
      ghost var below := nodes[..|nodes| - 1];
      var name, members: seq<Member> := "", [];
      SetTop(Obj([]));
      ghost var all := ParseMembers(converts, Tokens(Left()), stackDepth, "", []);
      while true
        invariant Valid() && document == old(document) && current >= old(current) && stackDepth == old(stackDepth)
        invariant nodes == below + [Obj(members)]
        invariant all == ParseMembers(converts, Tokens(Left()), stackDepth, name, members)
        decreases |document| - current
      {
        ghost var ts, before := Skip(Tokens(Left())), name;
        MembersSkip(converts, Tokens(Left()), stackDepth, before, members);
        var tokenName := SkipCommentTokens();
        MembersEnd(converts, ts, stackDepth, before, members);
        if tokenName == Punct('}') && name == "" {
          return Success;
        }
        if !tokenName.Quoted? {
          return Failure;
        }
        var decoded := DecodeString(tokenName.text);
        if decoded.None? {
          return Failure;
        }
        name := decoded.value;
        var colon := ReadToken();
        if colon != Punct(':') {
          return Failure;
        }
        assert ts[1..] == [colon] + Tokens(Left()) && ts[2..] == ts[1..][1..];
        MembersUnfold(converts, ts, stackDepth, before, members);
        var there := Lookup(members, name);
        nodes := nodes + [if there.Some? then there.value else Null];
        status := ReadValue();
        if !status.Success? {
          return;
        }
        var value := Pop();
        assert nodes == below + [Obj(members)];
        members := Put(members, name, value);
        SetTop(Obj(members));
        AtTheEnd(converts, stackDepth, name, members);
        ghost var behind := Tokens(Left());
        var ok, more := ReadComma();
        assert all == if !EndsMember(behind[0]) then Rejected
                      else if Skip(behind)[0] == Punct('}') then Parsed(Obj(members), Skip(behind)[1..])
                      else ParseMembers(converts, Skip(behind)[1..], stackDepth, name, members);
        if !ok {
          return Failure;
        }
        if !more {
          return Success;
        }
      }
    }

    // The token behind a member: a brace, a comma, or whatever follows comments.
    method ReadComma() returns (ok: bool, more: bool)
      requires Valid()
      modifies this`current
      ensures Valid() && current >= old(current)
      ensures var behind := Tokens(old(Left())); var rest := Skip(behind);
        && rest != [] && ok == EndsMember(behind[0])
        && (ok ==> more == (rest[0] != Punct('}')))
        && (if Final(rest[0]) then rest[1..] == [] && Tokens(Left()) == [EndOfStream] else !ok || rest[1..] == Tokens(Left()))
    {
      hide Tokens, Next;
      AtEndOfText();
      var comma := ReadToken();
      assert Final(comma) ==> Left() == "";
      FinalToken(comma, Tokens(Left()));
      ok := comma == Punct('}') || comma == Punct(',') || comma.Comment?;
      if comma.Comment? {
        comma := SkipCommentTokens();
        FinalToken(comma, Tokens(Left()));
      }
      more := comma != Punct('}');
    }

    method SkipSpaces()
      requires Valid()
      modifies this`current
      ensures Valid() && current == old(current) + Spaces(old(Left())) && Left() == old(Left())[Spaces(old(Left()))..]
    {
      ghost var start := current;
      while current != |document| && IsSpace(document[current])
        invariant start <= current <= |document|
        invariant Spaces(document[start..]) == current - start + Spaces(document[current..])
      {
        assert document[current..][1..] == document[current + 1..];
        current := current + 1;
      }
      assert document[start..][current - start..] == document[current..];
    }

    // match: the rest of a word after its first letter.
    method Match(pattern: string) returns (ok: bool)
      requires Valid()
      modifies this`current
      ensures Valid() && ok == StartsWith(old(Left()), pattern)
      ensures current == old(current) + if ok then |pattern| else 0
    {
      if |document| - current < |pattern| {
        return false;
      }
      var index := |pattern|;
      while index > 0
        invariant 0 <= index <= |pattern|
        invariant forall k :: index <= k < |pattern| ==> document[current + k] == pattern[k]
      {
        index := index - 1;
        if document[current + index] != pattern[index] {
          assert Left()[..|pattern|][index] != pattern[index];
          return false;
        }
      }
      assert Left()[..|pattern|] == pattern;
      current := current + |pattern|;
      return true;
    }

    // readComment, behind the first slash.
    method ReadComment() returns (successful: bool)
      requires Valid()
      modifies this`current
      ensures Valid() && successful == CommentEnd(old(Left())).0 && current == old(current) + CommentEnd(old(Left())).1
    {
      hide StarEnd, LineEnd;
      if current == |document| {
        return false;
      }
      var c := document[current];
      ghost var s := Left();
      current := current + 1;
      assert s[1..] == Left();
      if c == '*' {
        successful := ReadCStyleComment();
      } else if c == '/' {
        ReadCppStyleComment();
        successful := true;
      } else {
        successful := false;
      }
    }

    method ReadCStyleComment() returns (successful: bool)
      requires Valid()
      modifies this`current
      ensures Valid() && successful == StarEnd(old(Left())).0 && current == old(current) + StarEnd(old(Left())).1
    {
      hide StarEnd;
      ghost var start := current;
      while current != |document|
        invariant start <= current <= |document|
        invariant StarEnd(document[start..]) == Further(StarEnd(document[current..]), current - start)
        decreases |document| - current
      {
        StarStep(document[current..]);
        assert document[current..][1..] == document[current + 1..];
        var c := document[current];
        current := current + 1;
        if c == '*' && current != |document| && document[current] == '/' {
          current := current + 1;
          return true;
        }
      }
      StarStep(document[current..]);
      return false;
    }

    method ReadCppStyleComment()
      requires Valid()
      modifies this`current
      ensures Valid() && current == old(current) + LineEnd(old(Left()))
    {
      hide LineEnd;
      ghost var start := current;
      var open := true;
      while open && current != |document|
        invariant start <= current <= |document|
        invariant LineEnd(document[start..]) == current - start + if open then LineEnd(document[current..]) else 0
        decreases |document| - current, open
      {
        LineStep(document[current..]);
        assert document[current..][1..] == document[current + 1..];
        var c := document[current];
        current := current + 1;
        if c == '\n' {
          open := false;
        } else if c == '\r' {
          if current != |document| && document[current] == '\n' {
            current := current + 1;
          }
          open := false;
        }
      }
      LineStep(document[current..]);
    }

    // readString: up to and including the closing quote.
    method ReadString() returns (ok: bool)
      requires Valid()
      modifies this`current
      ensures Valid()
      ensures var r := StringEnd(old(Left()));
        ok == r.Some? && current == if r.Some? then old(current) + r.value else |document|
    {
      hide StringEnd;
      ghost var start := current;
      var c := '\0';
      while current != |document|
        invariant start <= current <= |document|
        invariant c != '\"' && StringEnd(document[start..]) == Later(StringEnd(document[current..]), current - start)
        decreases |document| - current
      {
        ghost var here := document[current..];
        EndStep(here);
        c := document[current];
        current := current + 1;
        assert here[1..] == document[current..];
        if c == '\\' {
          if current != |document| {
            current := current + 1;
            assert here[2..] == document[current..];
          } else {
            NoEnd();
          }
        } else if c == '\"' {
          return true;
        }
      }
      NoEnd();
      return false;
    }

    method SkipDigits()
      requires Valid()
      modifies this`current
      ensures Valid() && current == old(current) + DigitRun(old(Left()), 0)
    {
      ghost var start := current;
      while current < |document| && IsDigit(document[current])
        invariant start <= current <= |document|
        invariant DigitRun(document[start..], 0) == DigitRun(document[start..], current - start)
      {
        current := current + 1;
      }
    }

    // readNumber, its first character already taken.
    method ReadNumber()
      requires Valid() && current > 0
      modifies this`current
      ensures Valid() && current == old(current) - 1 + NumberEnd(document[old(current) - 1..])
    {
      hide DigitRun, FractionEnd, ExponentEnd;
      ghost var start := current - 1;
      RunHere(document, start, current);
      SkipDigits();
      ReadFraction(start);
      ReadExponent(start);
    }

    method ReadFraction(ghost start: nat)
      requires Valid() && start <= current
      modifies this`current
      ensures Valid() && start <= current && current - start == FractionEnd(document[start..], old(current) - start)
    {
      hide DigitRun;
      CharHere(document, start, current);
      if current < |document| && document[current] == '.' {
        current := current + 1;
        RunHere(document, start, current);
        SkipDigits();
      }
    }

    method ReadExponent(ghost start: nat)
      requires Valid() && start <= current
      modifies this`current
      ensures Valid() && start <= current && current - start == ExponentEnd(document[start..], old(current) - start)
    {
      hide DigitRun;
      CharHere(document, start, current);
      if current < |document| && (document[current] == 'e' || document[current] == 'E') {
        current := current + 1;
        CharHere(document, start, current);
        if current < |document| && (document[current] == '+' || document[current] == '-') {
          current := current + 1;
        }
        RunHere(document, start, current);
        SkipDigits();
      }
    }

    method SkipCommentTokens() returns (token: Token)
      requires Valid()
      modifies this`current
      ensures Valid() && current >= old(current) && (!Final(token) ==> current > old(current)) && !token.Comment?
      ensures (token.Num? ==> token.text != "") && (token.Quoted? ==> |token.text| >= 2) && (Final(token) ==> Left() == "")
      ensures Skip(Tokens(old(Left()))) == if Final(token) then [token] else [token] + Tokens(Left())
    {
      hide Tokens, Next;
      token := ReadToken();
      while token.Comment?
        invariant Valid() && current >= old(current) && (!Final(token) ==> current > old(current))
        invariant (token.Num? ==> token.text != "") && (token.Quoted? ==> |token.text| >= 2) && (Final(token) ==> Left() == "")
        invariant Skip(Tokens(old(Left()))) == Skip(if Final(token) then [token] else [token] + Tokens(Left()))
        decreases |document| - current, token.Comment?
      {
        FinalToken(token, Tokens(Left()));
        token := ReadToken();
      }
    }

    method ReadToken() returns (token: Token)
      requires Valid()
      modifies this`current
      ensures Valid() && token == Next(old(Left())).0 && current == old(current) + Next(old(Left())).1
      ensures Tokens(old(Left())) == if Final(token) then [token] else [token] + Tokens(Left())
    {
      hide Spaces, StringEnd, NumberEnd, StartsWith, Tokens, Head;
      ghost var s0, at0 := Left(), current;
      TokensHere(s0);
      SkipSpaces();
      ghost var s := Left();
      token := TokenAt();
      assert document[at0..][current - at0..] == Left();
    }

    // The token at a place that is not a space.
    method TokenAt() returns (token: Token)
      requires Valid()
      modifies this`current
      ensures Valid() && token == Head(old(Left())).0 && current == old(current) + Head(old(Left())).1
    {
      hide Spaces, StringEnd, NumberEnd, StartsWith;
      ghost var s := Left();
      var start := current;
      if current == |document| {
        return EndOfStream;
      }
      var c := document[current];
      current := current + 1;
      assert Left() == s[1..];
      if c in "{}[],:" {
        token := Punct(c);
      } else if c == '\"' {
        var ok := ReadString();
        token := if ok then Quoted(document[start..current]) else Error;
        assert ok ==> document[start..current] == s[..current - start];
      } else if c == '/' {
        var ok := ReadComment();
        token := if ok then Comment else Error;
      } else if IsDigit(c) || c == '-' {
        ReadNumber();
        token := Num(document[start..current]);
        assert document[start..current] == s[..current - start];
      } else if c == 't' {
        var ok := Match("rue");
        token := if ok then True else Error;
      } else if c == 'f' {
        var ok := Match("alse");
        token := if ok then False else Error;
      } else if c == 'n' {
        var ok := Match("ull");
        token := if ok then NullWord else Error;
      } else if c == '\0' {
        token := NulByte;
      } else {
        token := Error;
      }
    }
  }

  lemma StarStep(s: string)
    ensures StarEnd(s) ==
      if s == "" then (false, 0)
      else if s[0] == '*' && |s| > 1 && s[1] == '/' then (true, 2)
      else Further(StarEnd(s[1..]), 1)
  {
  }

  lemma LineStep(s: string)
    ensures LineEnd(s) ==
      if s == "" then 0
      else if s[0] == '\n' then 1
      else if s[0] == '\r' then if |s| > 1 && s[1] == '\n' then 2 else 1
      else 1 + LineEnd(s[1..])
  {
  }

  lemma EndStep(s: string)
    requires s != ""
    ensures StringEnd(s) ==
      if s[0] == '\"' then Some(1)
      else if s[0] == '\\' then if |s| < 2 then None else Later(StringEnd(s[2..]), 2)
      else Later(StringEnd(s[1..]), 1)
  {
  }

  lemma NoEnd()
    ensures StringEnd("") == None
  {
  }

  lemma CharHere(document: string, start: nat, k: nat)
    requires start <= k <= |document|
    ensures |document[start..]| == |document| - start
    ensures k < |document| ==> document[start..][k - start] == document[k]
  {
  }

  lemma RunHere(document: string, start: nat, k: nat)
    requires start <= k <= |document|
    ensures k + DigitRun(document[k..], 0) == start + DigitRun(document[start..], k - start)
  {
    RunShift(document, start, k, DigitRun(document[k..], 0));
  }

  lemma RunShift(document: string, start: nat, k: nat, n: nat)
    requires start <= k <= |document| && n == DigitRun(document[k..], 0)
    ensures DigitRun(document[start..], k - start) == k - start + n
  {
    hide DigitRun;
    var s, t := document[start..], document[k..];
    forall j | k - start <= j < k - start + n ensures IsDigit(s[j]) {
      assert s[j] == t[j - (k - start)];
    }
    if k - start + n < |s| {
      assert s[k - start + n] == t[n];
    }
    RunTo(s, k - start, k - start + n);
  }
}
