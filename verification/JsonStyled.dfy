// StyledWriter: indented text, short arrays on one line.
module JsonStyled {
  import opened Bytes
  import opened JsonText
  import opened JsonNumber
  import opened JsonValue
  import opened JsonLex
  import opened JsonWriters

  const RIGHT_MARGIN: nat := 74
  const INDENT: string := "   "     // indentSize_ spaces

  // ----- the document as a function -----

  // writeIndent: a new line, unless the line has just been indented.
  function Indented(doc: string, indent: string): string {
    if doc != "" && doc[|doc| - 1] == ' ' then doc
    else if doc != "" && doc[|doc| - 1] != '\n' then doc + "\n" + indent
    else doc + indent
  }

  predicate Container(v: Value) {
    (v.Arr? && v.items != []) || (v.Obj? && v.members != [])
  }

  // The lengths of the elements, printed one by one.
  function Lengths(items: seq<Value>): nat {
    if items == [] then 0 else Lengths(items[..|items| - 1]) + |Fast(items[|items| - 1])|
  }

  // isMultineArray: many elements, nested containers, or too long for a line.
  predicate MultiLine(items: seq<Value>) {
    || 3 * |items| >= RIGHT_MARGIN
    || (exists k :: 0 <= k < |items| && Container(items[k]))
    || 4 + (|items| - 1) * 2 + Lengths(items) >= RIGHT_MARGIN
  }

  lemma {:induction false} LineLength(items: seq<Value>, k: nat)
    requires k <= |items|
    ensures |Line(items, k)| + Lengths(items[..k]) == 2 + Lengths(items) + 2 * if k == 0 && items != [] then |items| - 1 else |items| - k
    decreases |items| - k
  {
    hide Fast;
    if k < |items| {
      LineLength(items, k + 1);
      assert items[..k + 1][..k] == items[..k];
    } else {
      assert items[..k] == items;
    }
  }

  // An array goes on one line exactly when it has fewer than 25 elements, none of
  // them a container, and the line is shorter than 74.
  lemma OneLineExactly(items: seq<Value>)
    requires items != []
    ensures MultiLine(items) <==>
      |items| >= 25 || (exists k :: 0 <= k < |items| && Container(items[k])) || |"[ " + Line(items, 0)| >= 74
  {
    hide Fast, Line, Lengths;
    LineLength(items, 0);
    NoLengths();
    assert items[..0] == [];
  }

  lemma NoLengths()
    ensures Lengths([]) == 0
  {
  }

  // The document after the value has been written.
  function Styled(v: Value, doc: string, indent: string): string
    decreases v
  {
    if !Container(v) then doc + Fast(v)
    else if v.Obj? then
      var open := Indented(doc, indent) + "{";
      Indented(StyledMembers(v.members, 0, open, indent + INDENT), indent) + "}"
    else if MultiLine(v.items) then
      var open := Indented(doc, indent) + "[";
      Indented(StyledItems(v.items, 0, open, indent + INDENT), indent) + "]"
    else doc + "[ " + Line(v.items, 0)
  }

  function StyledItems(items: seq<Value>, k: nat, doc: string, indent: string): string
    requires k <= |items|
    decreases items, |items| - k
  {
    if k == |items| then doc
    else
      var written := Styled(items[k], Indented(doc, indent), indent);
      StyledItems(items, k + 1, if k + 1 < |items| then written + "," else written, indent)
  }

  function StyledMembers(members: seq<Member>, k: nat, doc: string, indent: string): string
    requires k <= |members|
    decreases members, |members| - k
  {
    if k == |members| then doc
    else
      var key := Indented(doc, indent) + Quote(CString(members[k].name)) + " : ";
      var written := Styled(members[k].value, key, indent);
      StyledMembers(members, k + 1, if k + 1 < |members| then written + "," else written, indent)
  }

  // Elements on one line.
  function Line(items: seq<Value>, k: nat): string
    requires k <= |items|
    decreases |items| - k
  {
    if k == |items| then " ]" else (if k > 0 then ", " else "") + Fast(items[k]) + Line(items, k + 1)
  }

  function Texts(items: seq<Value>): (r: seq<string>)
    ensures |r| == |items|
  {
    seq(|items|, k requires 0 <= k < |items| => Fast(items[k]))
  }

  lemma FastEmpty()
    ensures Fast(Arr([])) == "[]" && Fast(Obj([])) == "{}"
  {
    assert FastItems([], 0) == "]" && FastMembers([], 0) == "}";
    assert "[" + "]" == "[]" && "{" + "}" == "{}";
  }

  // ----- the writer -----

  class StyledWriter {
    var document: string
    var indentString: string
    var addChildValues: bool
    var childValues: seq<string>

    constructor ()
      ensures document == "" && indentString == "" && !addChildValues
    {
      document, indentString, addChildValues, childValues := "", "", false, [];
    }

    method Write(root: Value) returns (text: string)
      requires Printable(root)
      modifies this
      ensures text == document == Styled(root, "", "") + "\n"
    {
      document := "";
      addChildValues := false;
      indentString := "";
      WriteValue(root);
      document := document + "\n";
      text := document;
    }

    method PushValue(value: string)
      modifies this`document, this`childValues
      ensures addChildValues ==> document == old(document) && childValues == old(childValues) + [value]
      ensures !addChildValues ==> document == old(document) + value && childValues == old(childValues)
    {
      if addChildValues {
        childValues := childValues + [value];
      } else {
        document := document + value;
      }
    }

    method WriteIndent()
      modifies this`document
      ensures document == Indented(old(document), indentString)
    {
      if document != "" {
        var last := document[|document| - 1];
        if last == ' ' {
          return;
        }
        if last != '\n' {
          document := document + "\n";
        }
      }
      document := document + indentString;
    }

    method WriteWithIndent(value: string)
      modifies this`document
      ensures document == Indented(old(document), indentString) + value
    {
      WriteIndent();
      document := document + value;
    }

    method Indent()
      modifies this`indentString
      ensures indentString == old(indentString) + INDENT
    {
      indentString := indentString + INDENT;
    }

    method Unindent()
      requires |indentString| >= |INDENT|
      modifies this`indentString
      ensures indentString == old(indentString)[..|old(indentString)| - |INDENT|]
    {
      indentString := indentString[..|indentString| - |INDENT|];
    }

    // While child values are collected nothing nested is written.
    method WriteValue(value: Value)
      requires Printable(value) && (addChildValues ==> !Container(value))
      modifies this
      ensures addChildValues == old(addChildValues) && indentString == old(indentString)
      ensures addChildValues ==> document == old(document) && childValues == old(childValues) + [Fast(value)]
      ensures !addChildValues ==> document == Styled(value, old(document), indentString)
      decreases value, 2
    {
      hide Print, Quote, MultiLine;
      match value {
        case Null =>
          PushValue("null");
        case Int(i) =>
          var text := ValueToString(i);
          PushValue(text);
        case UInt(u) =>
          var text := ValueToString(u);
          PushValue(text);
        case Str(s) =>
          var text := ValueToQuotedStringN(s);
          PushValue(text);
        case Bool(b) =>
          PushValue(if b then "true" else "false");
        case Arr(items) =>
          WriteArrayValue(items);
        case Obj(members) =>
          if members == [] {
            FastEmpty();
            PushValue("{}");
          } else {
            WriteMembers(members);
          }
      }
    }

    method WriteMembers(members: seq<Member>)
      requires members != [] && !addChildValues && forall m :: m in members ==> Printable(m.value)
      modifies this
      ensures !addChildValues && indentString == old(indentString)
      ensures document == Styled(Obj(members), old(document), indentString)
      decreases members, 1
    {
      hide Fast, Printable, Quote, CString, Indented;
      ghost var doc0, indent0 := document, indentString;
      WriteWithIndent("{");
      Indent();
      ghost var open := document;
      var it := 0;
      while true
        invariant 0 <= it < |members| && !addChildValues && indentString == indent0 + INDENT
        invariant StyledMembers(members, 0, open, indentString) == StyledMembers(members, it, document, indentString)
        decreases |members| - it
      {
        var name, childValue := members[it].name, members[it].value;
        var key := ValueToQuotedStringN(CString(name));
        WriteWithIndent(key);
        document := document + " : ";
        WriteValue(childValue);
        it := it + 1;
        if it == |members| {
          break;
        }
        document := document + ",";
      }
      Unindent();
      assert indentString == indent0;
      WriteWithIndent("}");
    }

    method WriteArrayValue(items: seq<Value>)
      requires (forall x :: x in items ==> Printable(x)) && (addChildValues ==> items == [])
      modifies this
      ensures addChildValues == old(addChildValues) && indentString == old(indentString)
      ensures addChildValues ==> document == old(document) && childValues == old(childValues) + [Fast(Arr(items))]
      ensures !addChildValues ==> document == Styled(Arr(items), old(document), indentString)
      decreases items, 3
    {
      hide Printable, Quote, MultiLine;
      if items == [] {
        FastEmpty();
        PushValue("[]");
        return;
      }
      var isArrayMultiLine := IsMultilineArray(items);
      if isArrayMultiLine {
        WriteMultiLine(items);
      } else {
        assert |childValues| == |items|;
        WriteLine(items);
      }
    }

    method WriteMultiLine(items: seq<Value>)
      requires items != [] && MultiLine(items) && !addChildValues && forall x :: x in items ==> Printable(x)
      requires childValues == [] || (childValues == Texts(items) && forall k :: 0 <= k < |items| ==> !Container(items[k]))
      modifies this
      ensures !addChildValues && indentString == old(indentString)
      ensures document == Styled(Arr(items), old(document), indentString)
      decreases items, 1
    {
      hide Fast, Printable, Quote, Indented, MultiLine;
      ghost var indent0 := indentString;
      WriteWithIndent("[");
      Indent();
      var hasChildValue := childValues != [];
      ghost var open := document;
      var index := 0;
      while true
        invariant 0 <= index < |items| && !addChildValues && indentString == indent0 + INDENT
        invariant hasChildValue ==> childValues == Texts(items)
        invariant StyledItems(items, 0, open, indentString) == StyledItems(items, index, document, indentString)
        decreases |items| - index
      {
        if hasChildValue {
          WriteWithIndent(childValues[index]);
        } else {
          WriteIndent();
          WriteValue(items[index]);
        }
        index := index + 1;
        if index == |items| {
          break;
        }
        document := document + ",";
      }
      Unindent();
      assert indentString == indent0;
      WriteWithIndent("]");
    }

    method WriteLine(items: seq<Value>)
      requires items != [] && !MultiLine(items) && childValues == Texts(items)
      modifies this`document
      ensures document == Styled(Arr(items), old(document), indentString)
    {
      hide Fast, Quote, Indented, MultiLine;
      ghost var doc0 := document;
      document := document + "[ ";
      for index := 0 to |items|
        invariant doc0 + "[ " + Line(items, 0) == document + Line(items, index)
      {
        ghost var here := document;
        if index > 0 {
          document := document + ", ";
        }
        document := document + childValues[index];
        assert here + Line(items, index) == document + Line(items, index + 1);
      }
      document := document + " ]";
    }

    method IsMultilineArray(items: seq<Value>) returns (isMultiLine: bool)
      requires items != [] && !addChildValues && forall x :: x in items ==> Printable(x)
      modifies this
      ensures isMultiLine == MultiLine(items)
      ensures !addChildValues && indentString == old(indentString) && document == old(document)
      ensures childValues == [] || (childValues == Texts(items) && forall k :: 0 <= k < |items| ==> !Container(items[k]))
      ensures !isMultiLine ==> childValues == Texts(items)
      decreases items, 2
    {
      hide Fast, Printable, Quote;
      var size := |items|;
      isMultiLine := 3 * size >= RIGHT_MARGIN;
      childValues := [];
      var index := 0;
      while index < size && !isMultiLine
        invariant 0 <= index <= size
        invariant isMultiLine ==> MultiLine(items)
        invariant !isMultiLine ==> 3 * size < RIGHT_MARGIN && forall k :: 0 <= k < index ==> !Container(items[k])
      {
        isMultiLine := Container(items[index]);
        index := index + 1;
      }
      if !isMultiLine {
        addChildValues := true;
        var lineLength := 4 + (size - 1) * 2;
        assert items[..0] == [];
        index := 0;
        while index < size
          invariant 0 <= index <= size && addChildValues
          invariant document == old(document) && indentString == old(indentString)
          invariant childValues == Texts(items[..index])
          invariant lineLength == 4 + (size - 1) * 2 + Lengths(items[..index])
        {
          assert items[..index + 1][..index] == items[..index];
          WriteValue(items[index]);
          lineLength := lineLength + |childValues[index]|;
          index := index + 1;
        }
        assert items[..size] == items;
        addChildValues := false;
        isMultiLine := lineLength >= RIGHT_MARGIN;
      }
    }
  }

  // ----- the tokens -----

  // The value with every name cut at its first NUL: names are written with
  // c_str().
  function Cut(v: Value): Value
    decreases v
  {
    match v
    case Arr(items) => Arr(seq(|items|, k requires 0 <= k < |items| => Cut(items[k])))
    case Obj(members) =>
      Obj(seq(|members|, k requires 0 <= k < |members| => Member(CString(members[k].name), Cut(members[k].value))))
    case _ => v
  }

  predicate NulFree(v: Value)
    decreases v
  {
    match v
    case Arr(items) => forall x :: x in items ==> NulFree(x)
    case Obj(members) => forall m :: m in members ==> '\0' !in m.name && NulFree(m.value)
    case _ => true
  }

  lemma {:induction false} CutNothing(v: Value)
    requires NulFree(v)
    ensures Cut(v) == v
    decreases v
  {
    match v {
      case Arr(items) =>
        forall k | 0 <= k < |items| ensures Cut(items[k]) == items[k] { CutNothing(items[k]); }
      case Obj(members) =>
        forall k | 0 <= k < |members| ensures Cut(members[k].value) == members[k].value { CutNothing(members[k].value); }
      case _ =>
    }
  }

  predicate Blank(s: string) {
    forall k :: 0 <= k < |s| ==> s[k] == ' '
  }

  predicate Solid(s: string) {
    s != "" && s[|s| - 1] != ' ' && s[|s| - 1] != '\n'
  }

  // Indenting adds white space only.
  lemma IndentSpells(doc: string, ts: seq<Token>, any: bool, indent: string)
    requires Spells(doc, ts, any) && Blank(indent) && (any || Solid(doc))
    ensures Spells(Indented(doc, indent), ts, true)
  {
    hide Spells;
    if doc != "" && doc[|doc| - 1] == ' ' {
    } else if doc != "" && doc[|doc| - 1] != '\n' {
      AppendSpaces(doc, ts, any, "\n" + indent);
      assert doc + "\n" + indent == doc + ("\n" + indent);
    } else {
      AppendSpaces(doc, ts, any, indent);
    }
  }

  lemma FastSolid(v: Value)
    requires Printable(v) && !Container(v)
    ensures Solid(Fast(v))
  {
    FastEmpty();
    match v {
      case Int(i) => DigitsSolid(i);
      case UInt(u) => DigitsSolid(u);
      case _ =>
    }
  }

  lemma DigitsSolid(value: int)
    ensures Solid(Print(value))
  {
    hide Digits;
    DigitsAmount(if value < 0 then -value else value);
  }

  lemma StyledSolid(v: Value, doc: string, indent: string)
    requires Printable(v)
    ensures Solid(Styled(v, doc, indent))
  {
    hide Fast, StyledItems, StyledMembers, MultiLine, Indented;
    if !Container(v) {
      FastSolid(v);
    } else if v.Arr? && !MultiLine(v.items) {
      LineSolid(v.items, 0);
    }
  }

  lemma {:induction false} LineSolid(items: seq<Value>, k: nat)
    requires k <= |items|
    ensures Solid(Line(items, k))
    decreases |items| - k
  {
    if k < |items| {
      LineSolid(items, k + 1);
    }
  }

  function Comma(k: nat): seq<Token> {
    if k > 0 then [Punct(',')] else []
  }

  function CutItems(items: seq<Value>): (r: seq<Value>)
    ensures |r| == |items| && forall k :: 0 <= k < |items| ==> r[k] == Cut(items[k])
  {
    seq(|items|, k requires 0 <= k < |items| => Cut(items[k]))
  }

  function CutMembers(members: seq<Member>): (r: seq<Member>)
    ensures |r| == |members|
    ensures forall k :: 0 <= k < |members| ==> r[k] == Member(CString(members[k].name), Cut(members[k].value))
  {
    seq(|members|, k requires 0 <= k < |members| => Member(CString(members[k].name), Cut(members[k].value)))
  }

  lemma CutContainers(v: Value)
    ensures v.Arr? ==> Cut(v) == Arr(CutItems(v.items))
    ensures v.Obj? ==> Cut(v) == Obj(CutMembers(v.members))
    ensures !Container(v) ==> Cut(v) == v
  {
    if v.Arr? {
      assert Cut(v).items == CutItems(v.items);
    }
    if v.Obj? {
      assert Cut(v).members == CutMembers(v.members);
    }
  }

  // Whichever way the value is laid out, it adds exactly its tokens.
  lemma {:induction false} StyledSpells(v: Value, doc: string, ts: seq<Token>, indent: string)
    requires Spells(doc, ts, true) && Printable(v) && Blank(indent)
    ensures Spells(Styled(v, doc, indent), ts + ValueTokens(Cut(v)), false)
    decreases v
  {
    hide Spells, Fast, StyledItems, StyledMembers, MultiLine, Indented, Line, Cut;
    CutContainers(v);
    if !Container(v) {
      FastSpells(doc, ts, v);
    } else if v.Obj? {
      IndentSpells(doc, ts, true, indent);
      AppendPunct(Indented(doc, indent), ts, true, '{');
      assert ts + [Punct('{')] + Comma(0) == ts + [Punct('{')];
      StyledMembersSpell(v.members, 0, Indented(doc, indent) + "{", ts + [Punct('{')], indent);
      Regroup(ts, [Punct('{')], MemberTokens(CutMembers(v.members), 0));
      Weaken(Styled(v, doc, indent), ts + ValueTokens(Cut(v)));
    } else if MultiLine(v.items) {
      IndentSpells(doc, ts, true, indent);
      AppendPunct(Indented(doc, indent), ts, true, '[');
      assert ts + [Punct('[')] + Comma(0) == ts + [Punct('[')];
      StyledItemsSpell(v.items, 0, Indented(doc, indent) + "[", ts + [Punct('[')], indent);
      Regroup(ts, [Punct('[')], ItemTokens(CutItems(v.items), 0));
      Weaken(Styled(v, doc, indent), ts + ValueTokens(Cut(v)));
    } else {
      OneLineSpells(v.items, doc, ts);
      Weaken(Styled(v, doc, indent), ts + ValueTokens(Cut(v)));
    }
  }

  lemma StyledItemsStep(items: seq<Value>, k: nat, doc: string, indent: string)
    requires k < |items|
    ensures var written := Styled(items[k], Indented(doc, indent), indent);
      StyledItems(items, k, doc, indent) == if k + 1 < |items| then StyledItems(items, k + 1, written + ",", indent) else written
  {
    hide Styled, Indented;
  }

  lemma ItemTokensStep(items: seq<Value>, k: nat)
    requires k < |items|
    ensures ItemTokens(CutItems(items), k) == Comma(k) + ValueTokens(Cut(items[k])) + ItemTokens(CutItems(items), k + 1)
    ensures k + 1 == |items| ==> ItemTokens(CutItems(items), k + 1) == [Punct(']')]
  {
    hide ValueTokens, Cut;
  }

  lemma {:induction false} StyledItemsSpell(items: seq<Value>, k: nat, doc: string, ts: seq<Token>, indent: string)
    requires k < |items| && Spells(doc, ts + Comma(k), true) && Blank(indent) && forall x :: x in items ==> Printable(x)
    ensures Spells(Indented(StyledItems(items, k, doc, indent + INDENT), indent) + "]", ts + ItemTokens(CutItems(items), k), true)
    decreases items, |items| - k
  {
    hide Spells, Printable, Styled, ValueTokens, Cut, Indented, StyledItems, ItemTokens, CutItems, Comma;
    var inner, tk := indent + INDENT, ts + Comma(k);
    StyledItemsStep(items, k, doc, inner);
    ItemTokensStep(items, k);
    InnerBlank(indent);
    IndentSpells(doc, tk, true, inner);
    var a := Indented(doc, inner);
    StyledSpells(items[k], a, tk, inner);
    StyledSolid(items[k], a, inner);
    var b, tv := Styled(items[k], a, inner), tk + ValueTokens(Cut(items[k]));
    if k + 1 < |items| {
      AppendPunct(b, tv, false, ',');
      LaterComma(k + 1);
      StyledItemsSpell(items, k + 1, b + ",", tv, indent);
    } else {
      IndentSpells(b, tv, false, indent);
      AppendPunct(Indented(b, indent), tv, true, ']');
    }
    assert tv + ItemTokens(CutItems(items), k + 1) == ts + ItemTokens(CutItems(items), k);
  }

  lemma InnerBlank(indent: string)
    requires Blank(indent)
    ensures Blank(indent + INDENT)
  {
  }

  lemma LaterComma(k: nat)
    requires k > 0
    ensures Comma(k) == [Punct(',')]
  {
  }

  lemma {:induction false} StyledMembersSpell(members: seq<Member>, k: nat, doc: string, ts: seq<Token>, indent: string)
    requires k < |members| && Spells(doc, ts + Comma(k), true) && Blank(indent) && forall m :: m in members ==> Printable(m.value)
    ensures Spells(Indented(StyledMembers(members, k, doc, indent + INDENT), indent) + "}", ts + MemberTokens(CutMembers(members), k), true)
    decreases members, |members| - k
  {
    hide Spells, Printable, Styled, ValueTokens, Cut, Indented, CString, Quote;
    var inner, tk := indent + INDENT, ts + Comma(k);
    var name, value := CString(members[k].name), members[k].value;
    var a := Indented(doc, inner) + Quote(name) + " : ";
    var ta := tk + [Quoted(Quote(name)), Punct(':')];
    StyledNameSpells(doc, tk, inner, name);
    StyledSpells(value, a, ta, inner);
    StyledSolid(value, a, inner);
    var b, tv := Styled(value, a, inner), ta + ValueTokens(Cut(value));
    if k + 1 < |members| {
      AppendPunct(b, tv, false, ',');
      StyledMembersSpell(members, k + 1, b + ",", tv, indent);
    } else {
      IndentSpells(b, tv, false, indent);
      AppendPunct(Indented(b, indent), tv, true, '}');
    }
    var rest := MemberTokens(CutMembers(members), k + 1);
    RegroupAll(ts, Comma(k), [Quoted(Quote(name)), Punct(':')], ValueTokens(Cut(value)), rest, []);
    assert tv + rest + [] == tv + rest;
    assert Comma(k) + [Quoted(Quote(name)), Punct(':')] + ValueTokens(Cut(value)) + rest + [] == MemberTokens(CutMembers(members), k);
  }

  lemma StyledNameSpells(doc: string, ts: seq<Token>, indent: string, name: string)
    requires Spells(doc, ts, true) && Blank(indent)
    ensures Spells(Indented(doc, indent) + Quote(name) + " : ", ts + [Quoted(Quote(name)), Punct(':')], true)
  {
    hide Spells, Quote, Indented;
    IndentSpells(doc, ts, true, indent);
    var a, t := Indented(doc, indent) + Quote(name), ts + [Quoted(Quote(name))];
    AppendQuoted(Indented(doc, indent), ts, true, name);
    AppendSpaces(a, t, true, " ");
    AppendPunct(a + " ", t, true, ':');
    AppendSpaces(a + " " + ":", t + [Punct(':')], true, " ");
    assert a + " " + ":" + " " == a + " : ";
    assert t + [Punct(':')] == ts + [Quoted(Quote(name)), Punct(':')];
  }

  lemma OneLineSpells(items: seq<Value>, doc: string, ts: seq<Token>)
    requires Spells(doc, ts, true) && items != [] && !MultiLine(items) && forall x :: x in items ==> Printable(x)
    ensures Spells(doc + "[ " + Line(items, 0), ts + ValueTokens(Cut(Arr(items))), true)
  {
    hide Spells, Printable, Line, ItemTokens, Cut;
    CutContainers(Arr(items));
    AppendPunct(doc, ts, true, '[');
    AppendSpaces(doc + "[", ts + [Punct('[')], true, " ");
    assert doc + "[" + " " == doc + "[ ";
    LineSpells(items, 0, doc + "[ ", ts + [Punct('[')]);
    FlatUncut(items);
    Regroup(ts, [Punct('[')], ItemTokens(items, 0));
  }

  lemma FlatUncut(items: seq<Value>)
    requires !MultiLine(items)
    ensures CutItems(items) == items
  {
    hide Cut;
    forall k | 0 <= k < |items| ensures Cut(items[k]) == items[k] {
      CutContainers(items[k]);
    }
  }

  lemma {:induction false} LineSpells(items: seq<Value>, k: nat, doc: string, ts: seq<Token>)
    requires k <= |items| && Spells(doc, ts, k == 0) && forall x :: x in items ==> Printable(x)
    ensures Spells(doc + Line(items, k), ts + ItemTokens(items, k), true)
    decreases |items| - k
  {
    hide Spells, Printable, Fast, ValueTokens;
    if k == |items| {
      AppendSpaces(doc, ts, k == 0, " ");
      AppendPunct(doc + " ", ts, true, ']');
      assert doc + " " + "]" == doc + " ]";
    } else {
      var comma := if k > 0 then ", " else "";
      if k > 0 {
        AppendPunct(doc, ts, false, ',');
        AppendSpaces(doc + ",", ts + [Punct(',')], true, " ");
        assert doc + "," + " " == doc + comma;
      } else {
        assert doc + comma == doc && ts + Comma(k) == ts;
      }
      var a, ta := doc + comma, ts + Comma(k);
      FastSpells(a, ta, items[k]);
      LineSpells(items, k + 1, a + Fast(items[k]), ta + ValueTokens(items[k]));
      assert a + Fast(items[k]) + Line(items, k + 1) == doc + Line(items, k);
      assert ta + ValueTokens(items[k]) + ItemTokens(items, k + 1) == ts + ItemTokens(items, k);
    }
  }

  // ----- and only then -----

  lemma {:induction false} CutLength(v: Value)
    ensures |ValueTokens(Cut(v))| == |ValueTokens(v)|
    decreases v
  {
    hide Cut;
    CutContainers(v);
    if v.Arr? {
      CutItemsLength(v.items, 0);
    } else if v.Obj? {
      CutMembersLength(v.members, 0);
    }
  }

  lemma {:induction false} CutItemsLength(items: seq<Value>, k: nat)
    requires k <= |items|
    ensures |ItemTokens(CutItems(items), k)| == |ItemTokens(items, k)|
    decreases items, |items| - k
  {
    hide Cut, ValueTokens;
    if k < |items| {
      CutLength(items[k]);
      CutItemsLength(items, k + 1);
    }
  }

  lemma {:induction false} CutMembersLength(members: seq<Member>, k: nat)
    requires k <= |members|
    ensures |MemberTokens(CutMembers(members), k)| == |MemberTokens(members, k)|
    decreases members, |members| - k
  {
    hide Cut, ValueTokens, Quote, CString;
    if k < |members| {
      CutLength(members[k].value);
      CutMembersLength(members, k + 1);
    }
  }

  lemma SameParts<T>(a: seq<T>, b: seq<T>, c: seq<T>, d: seq<T>)
    requires a + b == c + d && |a| == |c|
    ensures a == c && b == d
  {
    assert a == (a + b)[..|a|] && b == (a + b)[|a|..];
    assert c == (c + d)[..|c|] && d == (c + d)[|c|..];
  }

  lemma {:induction false} SameTokensUncut(v: Value)
    requires ValueTokens(Cut(v)) == ValueTokens(v)
    ensures NulFree(v)
    decreases v
  {
    hide Cut;
    CutContainers(v);
    if v.Arr? {
      SameParts([Punct('[')], ItemTokens(CutItems(v.items), 0), [Punct('[')], ItemTokens(v.items, 0));
      SameItemsUncut(v.items, 0);
    } else if v.Obj? {
      SameParts([Punct('{')], MemberTokens(CutMembers(v.members), 0), [Punct('{')], MemberTokens(v.members, 0));
      SameMembersUncut(v.members, 0);
    }
  }

  lemma {:induction false} SameItemsUncut(items: seq<Value>, k: nat)
    requires k <= |items| && ItemTokens(CutItems(items), k) == ItemTokens(items, k)
    ensures forall j :: k <= j < |items| ==> NulFree(items[j])
    decreases items, |items| - k
  {
    hide Cut, ValueTokens, NulFree;
    if k < |items| {
      var x, y := ValueTokens(Cut(items[k])), ValueTokens(items[k]);
      var p, q := ItemTokens(CutItems(items), k + 1), ItemTokens(items, k + 1);
      CutLength(items[k]);
      SameParts(Comma(k) + x, p, Comma(k) + y, q);
      SameParts(Comma(k), x, Comma(k), y);
      SameTokensUncut(items[k]);
      SameItemsUncut(items, k + 1);
    }
  }

  lemma {:induction false} SameMembersUncut(members: seq<Member>, k: nat)
    requires k <= |members| && MemberTokens(CutMembers(members), k) == MemberTokens(members, k)
    ensures forall j :: k <= j < |members| ==> '\0' !in members[j].name && NulFree(members[j].value)
    decreases members, |members| - k
  {
    hide Cut, ValueTokens, NulFree, Quote, CString;
    if k < |members| {
      var name, value := members[k].name, members[k].value;
      var x, y := ValueTokens(Cut(value)), ValueTokens(value);
      var m, n := [Quoted(Quote(CString(name))), Punct(':')], [Quoted(Quote(name)), Punct(':')];
      var p, q := MemberTokens(CutMembers(members), k + 1), MemberTokens(members, k + 1);
      CutLength(value);
      SameParts(Comma(k) + m + x, p, Comma(k) + n + y, q);
      SameParts(Comma(k) + m, x, Comma(k) + n, y);
      SameParts(Comma(k), m, Comma(k), n);
      assert m[0] == n[0];
      SameNames(name);
      SameTokensUncut(value);
      SameMembersUncut(members, k + 1);
    }
  }

  lemma SameNames(name: string)
    requires Quote(CString(name)) == Quote(name)
    ensures '\0' !in name
  {
    hide Quote, CString;
    QuoteDecodes(CString(name));
    QuoteDecodes(name);
    CStringCuts(name);
  }

  // Both writers' documents have the same tokens if and only if no name
  // contains a NUL.
  lemma StyledTokens(v: Value)
    requires Printable(v)
    ensures Tokens(Styled(v, "", "") + "\n") == ValueTokens(Cut(v)) + [EndOfStream]
    ensures NulFree(v) <==> Tokens(Styled(v, "", "") + "\n") == Tokens(Fast(v) + "\n")
  {
    hide Spells, Fast, Styled, ValueTokens, Tokens;
    SpellsNothing();
    StyledSpells(v, "", [], "");
    AppendSpaces(Styled(v, "", ""), [] + ValueTokens(Cut(v)), false, "\n");
    SpellsAll(Styled(v, "", "") + "\n", [] + ValueTokens(Cut(v)), true);
    assert [] + ValueTokens(Cut(v)) == ValueTokens(Cut(v));
    FastTokens(v);
    if NulFree(v) {
      CutNothing(v);
    }
    if ValueTokens(Cut(v)) + [EndOfStream] == ValueTokens(v) + [EndOfStream] {
      CutLength(v);
      SameParts(ValueTokens(Cut(v)), [EndOfStream], ValueTokens(v), [EndOfStream]);
      SameTokensUncut(v);
    }
  }
}
