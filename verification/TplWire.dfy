// The data part of a tpl image: what a packed value looks like in bytes, how
// long it is, and the bounds-checked scan that reads it back.
module TplWire {
  import opened Bytes
  import opened TplSchema

  // A packed value. Raw holds the words of a number field in the byte order of
  // the host that holds them; a list is the backbone of an A(...) node.
  datatype Val = Raw(words: seq<bytes>) | Strs(strings: seq<Option<bytes>>) | Buf(data: bytes) | List(elems: seq<Elem>)
  datatype Elem = Elem(vals: seq<Val>)

  function RowSlots(s: Schema, id: nat): seq<Slot>
    requires id < |s|
  {
    Slots(s[id], 0)
  }

  // Arrays named by the slots are numbered above r.
  ghost predicate Above(s: Schema, slots: seq<Slot>, r: nat) {
    forall t :: t in slots && t.node.Ary? ==> r < t.node.id < |s|
  }

  lemma RowAbove(s: Schema, id: nat)
    requires SchemaOk(s) && id < |s|
    ensures Above(s, RowSlots(s, id), id)
  {
    hide Slots, Nodes, ItemOk;
    SlotsFit(s[id], 0);
    forall t | t in RowSlots(s, id) && t.node.Ary? ensures id < t.node.id < |s| {
      var j :| 0 <= j < |RowSlots(s, id)| && RowSlots(s, id)[j] == t;
      assert SlotFits(RowSlots(s, id)[j], s[id], 0, |Nodes(s[id])|);
      var k :| 0 <= k < |s[id]| && s[id][k] == Array(t.node.id);
    }
  }

  // ----- typing -----

  ghost predicate FieldTyped(f: Field, v: Val) {
    match f
    case Scalar(size, num) => v.Raw? && |v.words| == num && forall w :: w in v.words ==> |w| == size
    case Text(num) => v.Strs? && |v.strings| == num
    case Blob => v.Buf?
  }

  ghost predicate Typed(s: Schema, node: Node, v: Val)
    decreases v
  {
    match node
    case Leaf(f) => FieldTyped(f, v)
    case Ary(id) => id < |s| && v.List? && forall e :: e in v.elems ==> ElemTyped(s, id, e)
    case Pound(_, _, _) => false
  }

  ghost predicate ElemTyped(s: Schema, id: nat, e: Elem)
    requires id < |s|
    decreases e
  {
    ValsTyped(s, RowSlots(s, id), e.vals)
  }

  ghost predicate ValsTyped(s: Schema, slots: seq<Slot>, vals: seq<Val>)
    decreases vals
  {
    |vals| == |slots| && forall k :: 0 <= k < |vals| ==> Typed(s, slots[k].node, vals[k])
  }

  // ----- bytes and sizes -----

  function Join(words: seq<bytes>): bytes {
    if words == [] then [] else words[0] + Join(words[1..])
  }

  function SerStr(t: Option<bytes>, big: bool): bytes
    requires t.Some? ==> |t.value| + 1 < TWO_TO_THE_32
  {
    match t
    case None => Word32(0, big)
    case Some(b) => Word32(|b| + 1, big) + b
  }

  lemma StrLength(t: Option<bytes>, big: bool)
    requires t.Some? ==> |t.value| + 1 < TWO_TO_THE_32
    ensures |SerStr(t, big)| == StrSize(t)
  {
  }

  function SerStrs(ss: seq<Option<bytes>>, big: bool): bytes
    requires forall t :: t in ss && t.Some? ==> |t.value| + 1 < TWO_TO_THE_32
  {
    if ss == [] then [] else SerStr(ss[0], big) + SerStrs(ss[1..], big)
  }

  // Lengths and counts fit the 32-bit words that hold them.
  ghost predicate Fits(v: Val)
    decreases v
  {
    match v
    case Raw(_) => true
    case Strs(ss) => forall t :: t in ss && t.Some? ==> |t.value| + 1 < TWO_TO_THE_32
    case Buf(d) => |d| < TWO_TO_THE_32
    case List(es) => |es| < TWO_TO_THE_31 && forall e :: e in es ==> forall w :: w in e.vals ==> Fits(w)
  }

  ghost predicate AllFit(vals: seq<Val>) {
    forall v :: v in vals ==> Fits(v)
  }

  function Ser(v: Val, big: bool): bytes
    requires Fits(v)
    decreases v, 1
  {
    match v
    case Raw(ws) => Join(ws)
    case Strs(ss) => SerStrs(ss, big)
    case Buf(d) => Word32(|d|, big) + d
    case List(es) => Word32(|es|, big) + SerElems(es, big)
  }

  function SerElems(es: seq<Elem>, big: bool): bytes
    requires forall e :: e in es ==> AllFit(e.vals)
    decreases es, 0
  {
    if es == [] then [] else SerVals(es[0].vals, big) + SerElems(es[1..], big)
  }

  function SerVals(vals: seq<Val>, big: bool): bytes
    requires AllFit(vals)
    decreases vals, 0
  {
    if vals == [] then [] else Ser(vals[0], big) + SerVals(vals[1..], big)
  }

  function JoinSize(words: seq<bytes>): nat {
    if words == [] then 0 else |words[0]| + JoinSize(words[1..])
  }

  function StrsSize(ss: seq<Option<bytes>>): nat {
    if ss == [] then 0 else StrSize(ss[0]) + StrsSize(ss[1..])
  }

  function StrSize(t: Option<bytes>): nat {
    4 + if t.Some? then |t.value| else 0
  }

  // The serialization size, as tpl_ser_osz and tpl_pack add it up.
  function Size(v: Val): nat
    decreases v, 1
  {
    match v
    case Raw(ws) => JoinSize(ws)
    case Strs(ss) => StrsSize(ss)
    case Buf(d) => 4 + |d|
    case List(es) => 4 + ElemsSize(es)
  }

  function ElemsSize(es: seq<Elem>): nat
    decreases es, 0
  {
    if es == [] then 0 else ValsSize(es[0].vals) + ElemsSize(es[1..])
  }

  function ValsSize(vals: seq<Val>): nat
    decreases vals, 0
  {
    if vals == [] then 0 else Size(vals[0]) + ValsSize(vals[1..])
  }

  lemma JoinLength(words: seq<bytes>)
    ensures |Join(words)| == JoinSize(words)
  {
  }

  lemma StrsLength(ss: seq<Option<bytes>>, big: bool)
    requires forall t :: t in ss && t.Some? ==> |t.value| + 1 < TWO_TO_THE_32
    ensures |SerStrs(ss, big)| == StrsSize(ss)
  {
  }

  // The size walk counts exactly the bytes the dump walk writes.
  lemma {:induction false} SizeIsLength(v: Val, big: bool)
    requires Fits(v)
    ensures |Ser(v, big)| == Size(v)
    decreases v, 1
  {
    match v
    case Raw(ws) => JoinLength(ws);
    case Strs(ss) => StrsLength(ss, big);
    case Buf(d) =>
    case List(es) => ElemsLength(es, big);
  }

  lemma {:induction false} ElemsLength(es: seq<Elem>, big: bool)
    requires forall e :: e in es ==> AllFit(e.vals)
    ensures |SerElems(es, big)| == ElemsSize(es)
    decreases es, 0
  {
    if es != [] {
      ValsLength(es[0].vals, big);
      ElemsLength(es[1..], big);
    }
  }

  lemma {:induction false} ValsLength(vals: seq<Val>, big: bool)
    requires AllFit(vals)
    ensures |SerVals(vals, big)| == ValsSize(vals)
    decreases vals, 0
  {
    if vals != [] {
      SizeIsLength(vals[0], big);
      ValsLength(vals[1..], big);
    }
  }

  // ----- the value as another host sees it -----

  // With swap, every word of a number is byte-reversed; nothing else changes.
  ghost function HostView(v: Val, swap: bool): Val
    decreases v
  {
    match v
    case Raw(ws) => Raw(HostWords(ws, swap))
    case Strs(_) => v
    case Buf(_) => v
    case List(es) => List(ViewElems(es, swap))
  }

  ghost function ViewElems(es: seq<Elem>, swap: bool): (r: seq<Elem>)
    ensures |r| == |es|
    decreases es
  {
    seq(|es|, k requires 0 <= k < |es| => ViewElem(es[k], swap))
  }

  ghost function ViewElem(e: Elem, swap: bool): Elem
    decreases e
  {
    Elem(ViewVals(e.vals, swap))
  }

  ghost function ViewVals(vals: seq<Val>, swap: bool): (r: seq<Val>)
    ensures |r| == |vals|
    decreases vals
  {
    seq(|vals|, k requires 0 <= k < |vals| => HostView(vals[k], swap))
  }

  function HostWord(w: bytes, swap: bool): bytes {
    if swap then Reverse(w) else w
  }

  function HostWords(ws: seq<bytes>, swap: bool): (r: seq<bytes>)
    ensures |r| == |ws|
  {
    if ws == [] then [] else [HostWord(ws[0], swap)] + HostWords(ws[1..], swap)
  }

  lemma SameHostWords(ws: seq<bytes>)
    ensures HostWords(ws, false) == ws
  {
  }

  // Same value on two hosts: numbers are equal as numbers, strings and buffers
  // byte for byte, arrays element by element.
  ghost predicate SameMeaning(v: Val, w: Val, writer: bool, reader: bool)
    decreases v
  {
    match v
    case Raw(ws) => w.Raw? && |w.words| == |ws|
                    && forall k :: 0 <= k < |ws| ==> Numeric(w.words[k], reader) == Numeric(ws[k], writer)
    case Strs(_) => w == v
    case Buf(_) => w == v
    case List(es) => w.List? && |w.elems| == |es|
                     && forall k :: 0 <= k < |es| ==> SameElem(es[k], w.elems[k], writer, reader)
  }

  ghost predicate SameElem(e: Elem, f: Elem, writer: bool, reader: bool)
    decreases e
  {
    |e.vals| == |f.vals| && forall k :: 0 <= k < |e.vals| ==> SameMeaning(e.vals[k], f.vals[k], writer, reader)
  }

  // What arrives on a host of the other byte order means what was packed.
  lemma {:induction false} ViewKeepsMeaning(v: Val, writer: bool, reader: bool)
    ensures SameMeaning(v, HostView(v, writer != reader), writer, reader)
    decreases v
  {
    hide SameElem;
    if v.Raw? {
      WordsKeepNumbers(v.words, writer, reader);
    } else if v.List? {
      forall k | 0 <= k < |v.elems| ensures SameElem(v.elems[k], ViewElem(v.elems[k], writer != reader), writer, reader) {
        ElemKeepsMeaning(v.elems[k], writer, reader);
      }
    }
  }

  lemma {:induction false} ElemKeepsMeaning(e: Elem, writer: bool, reader: bool)
    ensures SameElem(e, ViewElem(e, writer != reader), writer, reader)
    decreases e
  {
    hide SameMeaning, HostView;
    forall k | 0 <= k < |e.vals|
      ensures SameMeaning(e.vals[k], HostView(e.vals[k], writer != reader), writer, reader)
    {
      ViewKeepsMeaning(e.vals[k], writer, reader);
    }
  }

  lemma {:induction false} WordsKeepNumbers(ws: seq<bytes>, writer: bool, reader: bool)
    ensures |HostWords(ws, writer != reader)| == |ws|
    ensures forall k :: 0 <= k < |ws| ==> Numeric(HostWords(ws, writer != reader)[k], reader) == Numeric(ws[k], writer)
    decreases |ws|
  {
    hide Numeric, Reverse;
    if ws != [] {
      SwapKeepsNumber(ws[0], writer, reader);
      WordsKeepNumbers(ws[1..], writer, reader);
    }
  }

  lemma {:induction false} SameHostView(v: Val)
    ensures HostView(v, false) == v
    decreases v
  {
    if v.Raw? {
      SameHostWords(v.words);
    }
    if v.List? {
      forall k | 0 <= k < |v.elems| ensures ViewElem(v.elems[k], false) == v.elems[k] {
        SameHostVals(v.elems[k].vals);
      }
    }
  }

  lemma {:induction false} SameHostVals(vals: seq<Val>)
    ensures ViewVals(vals, false) == vals
    decreases vals
  {
    forall k | 0 <= k < |vals| ensures HostView(vals[k], false) == vals[k] {
      SameHostView(vals[k]);
    }
  }

  // ----- the scan -----

  // `wide` records that some stored count is 2^31 or more: tpl_serlen keeps
  // counts in an int and then visits no element.
  // How an image is read: its byte order, whether this host's order differs,
  // and whether its strings are in the 1.2 format (length words without +1).
  datatype Mode = Mode(big: bool, swap: bool, v12: bool)

  datatype Scan<+T> = Bad | Good(value: T, end: nat, wide: bool)

  function ScanWords(text: bytes, pos: nat, size: nat, num: nat, swap: bool): (r: Scan<seq<bytes>>)
    requires pos <= |text|
    ensures r.Good? ==> pos <= r.end <= |text|
    decreases num
  {
    if num == 0 then Good([], pos, false)
    else if pos + size > |text| then Bad
    else
      var w := text[pos..pos + size];
      match ScanWords(text, pos + size, size, num - 1, swap)
      case Bad => Bad
      case Good(ws, end, wide) => Good([HostWord(w, swap)] + ws, end, wide)
  }

  function ScanStr(text: bytes, pos: nat, m: Mode): (r: Scan<Option<bytes>>)
    requires pos <= |text|
    ensures r.Good? ==> pos <= r.end <= |text|
  {
    if pos + 4 > |text| then Bad
    else
      var word := ReadWord32(text[pos..pos + 4], m.big);
      var slen := if m.v12 then word else if word > 1 then word - 1 else 0;
      if pos + 4 + slen > |text| then Bad
      else
        var t := text[pos + 4..pos + 4 + slen];
        Good(if !m.v12 && word == 0 then None else Some(t), pos + 4 + slen, false)
  }

  function ScanStrs(text: bytes, pos: nat, num: nat, m: Mode): (r: Scan<seq<Option<bytes>>>)
    requires pos <= |text|
    ensures r.Good? ==> pos <= r.end <= |text|
    decreases num
  {
    if num == 0 then Good([], pos, false)
    else match ScanStr(text, pos, m)
      case Bad => Bad
      case Good(t, mid, _) =>
        match ScanStrs(text, mid, num - 1, m)
        case Bad => Bad
        case Good(ts, end, wide) => Good([t] + ts, end, wide)
  }

  function ScanField(text: bytes, pos: nat, f: Field, m: Mode): (r: Scan<Val>)
    requires pos <= |text|
    ensures r.Good? ==> pos <= r.end <= |text|
  {
    match f
    case Scalar(size, num) =>
      (match ScanWords(text, pos, size, num, m.swap)
       case Bad => Bad
       case Good(ws, end, wide) => Good(Raw(ws), end, wide))
    case Text(num) =>
      (match ScanStrs(text, pos, num, m)
       case Bad => Bad
       case Good(ts, end, wide) => Good(Strs(ts), end, wide))
    case Blob =>
      if pos + 4 > |text| then Bad
      else
        var n := ReadWord32(text[pos..pos + 4], m.big);
        if pos + 4 + n > |text| then Bad
        else Good(Buf(text[pos + 4..pos + 4 + n]), pos + 4 + n, false)
  }

  ghost function ScanVals(s: Schema, text: bytes, pos: nat, slots: seq<Slot>, m: Mode, r: nat): (res: Scan<seq<Val>>)
    requires SchemaOk(s) && r < |s| && Above(s, slots, r) && pos <= |text|
    ensures res.Good? ==> pos <= res.end <= |text| && |res.value| == |slots|
    decreases |s| - r, 0, |slots|
  {
    if slots == [] then Good([], pos, false)
    else
      match ScanNode(s, text, pos, slots[0].node, m, r)
      case Bad => Bad
      case Good(v, mid, w1) =>
        match ScanVals(s, text, mid, slots[1..], m, r)
        case Bad => Bad
        case Good(vs, end, w2) => Good([v] + vs, end, w1 || w2)
  }

  ghost function ScanNode(s: Schema, text: bytes, pos: nat, node: Node, m: Mode, r: nat): (res: Scan<Val>)
    requires SchemaOk(s) && r < |s| && pos <= |text|
    requires node.Ary? ==> r < node.id < |s|
    ensures res.Good? ==> pos <= res.end <= |text|
    decreases |s| - r, 0, 0
  {
    match node
    case Leaf(f) => ScanField(text, pos, f, m)
    case Pound(_, _, _) => Bad
    case Ary(id) =>
      if pos + 4 > |text| then Bad
      else
        var n := ReadWord32(text[pos..pos + 4], m.big);
        if n >= TWO_TO_THE_31 then Good(List([]), pos + 4, true)
        else match ScanElems(s, text, pos + 4, id, n, m)
          case Bad => Bad
          case Good(es, end, wide) => Good(List(es), end, wide)
  }

  ghost function ScanElems(s: Schema, text: bytes, pos: nat, id: nat, n: nat, m: Mode): (res: Scan<seq<Elem>>)
    requires SchemaOk(s) && id < |s| && pos <= |text|
    ensures res.Good? ==> pos <= res.end <= |text| && |res.value| == n
    decreases |s| - id, 1, n
  {
    if n == 0 then Good([], pos, false)
    else
      RowAbove(s, id);
      match ScanVals(s, text, pos, RowSlots(s, id), m, id)
      case Bad => Bad
      case Good(vs, mid, w1) =>
        match ScanElems(s, text, mid, id, n - 1, m)
        case Bad => Bad
        case Good(es, end, w2) => Good([Elem(vs)] + es, end, w1 || w2)
  }

  // ----- reading back what was written -----

  ghost predicate At(text: bytes, pos: nat, part: bytes) {
    pos + |part| <= |text| && text[pos..pos + |part|] == part
  }

  lemma AtSplit(text: bytes, pos: nat, a: bytes, b: bytes)
    requires At(text, pos, a + b)
    ensures At(text, pos, a) && At(text, pos + |a|, b)
  {
    var ab := a + b;
    assert text[pos..pos + |a|] == text[pos..pos + |ab|][..|a|] == ab[..|a|] == a;
    assert text[pos + |a|..pos + |a| + |b|] == text[pos..pos + |ab|][|a|..] == ab[|a|..] == b;
  }

  lemma WordsUnfold(ws: seq<bytes>, swap: bool)
    ensures ws == [] ==> Join(ws) == [] && HostWords(ws, swap) == [] && JoinSize(ws) == 0
    ensures ws != [] ==>
      && Join(ws) == ws[0] + Join(ws[1..])
      && HostWords(ws, swap) == [HostWord(ws[0], swap)] + HostWords(ws[1..], swap)
      && JoinSize(ws) == |ws[0]| + JoinSize(ws[1..])
  {
  }

  lemma AtBounds(text: bytes, pos: nat, part: bytes)
    requires At(text, pos, part)
    ensures pos + |part| <= |text|
  {
  }

  lemma NoWords(text: bytes, pos: nat, size: nat, swap: bool)
    requires pos <= |text|
    ensures ScanWords(text, pos, size, 0, swap) == Good([], pos, false)
  {
  }

  lemma NoStrs(text: bytes, pos: nat, m: Mode)
    requires pos <= |text|
    ensures ScanStrs(text, pos, 0, m) == Good([], pos, false)
  {
  }

  lemma WordsStep(text: bytes, pos: nat, w: bytes, n: nat, swap: bool, hs: seq<bytes>, end: nat)
    requires At(text, pos, w) && ScanWords(text, pos + |w|, |w|, n, swap) == Good(hs, end, false)
    ensures ScanWords(text, pos, |w|, n + 1, swap) == Good([HostWord(w, swap)] + hs, end, false)
  {
    hide HostWord;
  }

  lemma {:induction false} WordsReadBack(text: bytes, pos: nat, ws: seq<bytes>, size: nat, swap: bool)
    requires At(text, pos, Join(ws)) && forall w :: w in ws ==> |w| == size
    ensures ScanWords(text, pos, size, |ws|, swap) == Good(HostWords(ws, swap), pos + JoinSize(ws), false)
    decreases |ws|
  {
    hide At, Join, HostWord, HostWords, JoinSize, ScanWords;
    WordsUnfold(ws, swap);
    if ws == [] {
      AtBounds(text, pos, []);
      NoWords(text, pos, size, swap);
    } else {
      var w, rest := ws[0], ws[1..];
      AtSplit(text, pos, w, Join(rest));
      assert forall k :: 0 <= k < |rest| ==> rest[k] == ws[k + 1];
      WordsReadBack(text, pos + size, rest, size, swap);
      WordsStep(text, pos, w, |rest|, swap, HostWords(rest, swap), pos + size + JoinSize(rest));
    }
  }

  lemma StrReadBack(text: bytes, pos: nat, t: Option<bytes>, big: bool, swap: bool)
    requires t.Some? ==> |t.value| + 1 < TWO_TO_THE_32
    requires At(text, pos, SerStr(t, big))
    ensures ScanStr(text, pos, Mode(big, swap, false)) == Good(t, pos + StrSize(t), false)
  {
    match t
    case None =>
      WordRoundTrip(0, big);
    case Some(b) =>
      AtSplit(text, pos, Word32(|b| + 1, big), b);
      WordRoundTrip(|b| + 1, big);
  }

  lemma StrsUnfold(ss: seq<Option<bytes>>, big: bool)
    requires forall t :: t in ss && t.Some? ==> |t.value| + 1 < TWO_TO_THE_32
    ensures ss == [] ==> SerStrs(ss, big) == [] && StrsSize(ss) == 0
    ensures ss != [] ==>
      && SerStrs(ss, big) == SerStr(ss[0], big) + SerStrs(ss[1..], big)
      && StrsSize(ss) == StrSize(ss[0]) + StrsSize(ss[1..])
  {
  }

  lemma StrsStep(text: bytes, pos: nat, t: Option<bytes>, n: nat, m: Mode, mid: nat, ts: seq<Option<bytes>>, end: nat)
    requires pos <= mid <= |text| && ScanStr(text, pos, m) == Good(t, mid, false)
    requires ScanStrs(text, mid, n, m) == Good(ts, end, false)
    ensures ScanStrs(text, pos, n + 1, m) == Good([t] + ts, end, false)
  {
    hide ScanStr;
  }

  lemma {:induction false} StrsReadBack(text: bytes, pos: nat, ss: seq<Option<bytes>>, big: bool, swap: bool)
    requires forall t :: t in ss && t.Some? ==> |t.value| + 1 < TWO_TO_THE_32
    requires At(text, pos, SerStrs(ss, big))
    ensures ScanStrs(text, pos, |ss|, Mode(big, swap, false)) == Good(ss, pos + StrsSize(ss), false)
    decreases |ss|
  {
    hide At, SerStrs, SerStr, ScanStr, ScanStrs, StrsSize, StrSize;
    StrsUnfold(ss, big);
    if ss == [] {
      AtBounds(text, pos, []);
      NoStrs(text, pos, Mode(big, swap, false));
    } else {
      var t, rest := ss[0], ss[1..];
      AtSplit(text, pos, SerStr(t, big), SerStrs(rest, big));
      StrLength(t, big);
      StrReadBack(text, pos, t, big, swap);
      StrsReadBack(text, pos + StrSize(t), rest, big, swap);
      StrsStep(text, pos, t, |rest|, Mode(big, swap, false), pos + StrSize(t), rest, pos + StrSize(t) + StrsSize(rest));
      assert ss == [t] + rest;
    }
  }

  // Scanning what was serialized gives the values back, in this host's order,
  // and stops right behind them.
  lemma {:induction false} ValReadBack(s: Schema, text: bytes, pos: nat, node: Node, v: Val, big: bool, swap: bool, r: nat)
    requires SchemaOk(s) && r < |s| && (node.Ary? ==> r < node.id < |s|)
    requires Typed(s, node, v) && Fits(v) && At(text, pos, Ser(v, big))
    ensures ScanNode(s, text, pos, node, Mode(big, swap, false), r) == Good(HostView(v, swap), pos + Size(v), false)
    decreases v, 1
  {
    hide Ser, SerElems, ElemsSize, Size, HostView, ViewElems, ScanElems, ScanVals, ElemTyped, AllFit, At;
    if v.List? {
      var es := v.elems;
      ListUnfold(v, big, swap);
      AtSplit(text, pos, Word32(|es|, big), SerElems(es, big));
      CountReadBack(text, pos, |es|, big);
      ElemsReadBack(s, text, pos + 4, node.id, es, big, swap);
    } else {
      LeafReadBack(text, pos, node.field, v, big, swap);
    }
  }

  lemma ListUnfold(v: Val, big: bool, swap: bool)
    requires v.List? && Fits(v)
    ensures forall k :: 0 <= k < |v.elems| ==> AllFit(v.elems[k].vals)
    ensures Ser(v, big) == Word32(|v.elems|, big) + SerElems(v.elems, big)
    ensures HostView(v, swap) == List(ViewElems(v.elems, swap)) && Size(v) == 4 + ElemsSize(v.elems)
  {
  }

  lemma CountReadBack(text: bytes, pos: nat, n: nat, big: bool)
    requires n < TWO_TO_THE_32 && At(text, pos, Word32(n, big))
    ensures pos + 4 <= |text| && ReadWord32(text[pos..pos + 4], big) == n
  {
    WordRoundTrip(n, big);
  }

  lemma LeafReadBack(text: bytes, pos: nat, f: Field, v: Val, big: bool, swap: bool)
    requires FieldTyped(f, v) && Fits(v) && At(text, pos, Ser(v, big))
    ensures pos <= |text|
    ensures ScanField(text, pos, f, Mode(big, swap, false)) == Good(HostView(v, swap), pos + Size(v), false)
  {
    match v
    case Raw(ws) =>
      WordsReadBack(text, pos, ws, f.size, swap);
    case Strs(ss) =>
      StrsReadBack(text, pos, ss, big, swap);
    case Buf(d) =>
      AtSplit(text, pos, Word32(|d|, big), d);
      WordRoundTrip(|d|, big);
  }

  lemma ElemsUnfold(s: Schema, id: nat, es: seq<Elem>, big: bool, swap: bool)
    requires id < |s| && forall k :: 0 <= k < |es| ==> ElemTyped(s, id, es[k]) && AllFit(es[k].vals)
    ensures es == [] ==> SerElems(es, big) == [] && ViewElems(es, swap) == [] && ElemsSize(es) == 0
    ensures es != [] ==>
      && SerElems(es, big) == SerVals(es[0].vals, big) + SerElems(es[1..], big)
      && ViewElems(es, swap) == [Elem(ViewVals(es[0].vals, swap))] + ViewElems(es[1..], swap)
      && ElemsSize(es) == ValsSize(es[0].vals) + ElemsSize(es[1..])
      && ValsTyped(s, RowSlots(s, id), es[0].vals) && AllFit(es[0].vals)
  {
    hide SerVals, ViewVals, ValsSize, RowSlots, AllFit;
    if es != [] {
      assert ElemTyped(s, id, es[0]);
    }
  }

  lemma NoElems(s: Schema, text: bytes, pos: nat, id: nat, m: Mode)
    requires SchemaOk(s) && id < |s| && pos <= |text|
    ensures ScanElems(s, text, pos, id, 0, m) == Good([], pos, false)
  {
  }

  lemma ElemsStep(s: Schema, text: bytes, pos: nat, id: nat, n: nat, m: Mode, vs: seq<Val>, mid: nat, es: seq<Elem>, end: nat)
    requires SchemaOk(s) && id < |s| && Above(s, RowSlots(s, id), id) && pos <= |text|
    requires ScanVals(s, text, pos, RowSlots(s, id), m, id) == Good(vs, mid, false)
    requires mid <= |text| && ScanElems(s, text, mid, id, n, m) == Good(es, end, false)
    ensures ScanElems(s, text, pos, id, n + 1, m) == Good([Elem(vs)] + es, end, false)
  {
    hide ScanVals, RowSlots, Above, SchemaOk;
  }

  lemma {:induction false} ElemsReadBack(s: Schema, text: bytes, pos: nat, id: nat, es: seq<Elem>, big: bool, swap: bool)
    requires SchemaOk(s) && id < |s|
    requires forall k :: 0 <= k < |es| ==> ElemTyped(s, id, es[k]) && AllFit(es[k].vals)
    requires At(text, pos, SerElems(es, big))
    ensures ScanElems(s, text, pos, id, |es|, Mode(big, swap, false)) == Good(ViewElems(es, swap), pos + ElemsSize(es), false)
    decreases es, 0
  {
    hide SerElems, SerVals, ViewElems, ViewVals, ElemsSize, ValsSize, At, ScanElems, ScanVals, ElemTyped, ValsTyped, RowSlots, SchemaOk, AllFit, Above;
    ElemsUnfold(s, id, es, big, swap);
    if es == [] {
      AtBounds(text, pos, []);
      NoElems(s, text, pos, id, Mode(big, swap, false));
    } else {
      var vals, rest := es[0].vals, es[1..];
      RowAbove(s, id);
      AtSplit(text, pos, SerVals(vals, big), SerElems(rest, big));
      ValsLength(vals, big);
      ValsReadBack(s, text, pos, RowSlots(s, id), vals, big, swap, id);
      ElemsReadBack(s, text, pos + ValsSize(vals), id, rest, big, swap);
      ElemsStep(s, text, pos, id, |rest|, Mode(big, swap, false), ViewVals(vals, swap), pos + ValsSize(vals),
                ViewElems(rest, swap), pos + ValsSize(vals) + ElemsSize(rest));
    }
  }

  lemma TypedUnfold(s: Schema, slots: seq<Slot>, vals: seq<Val>, r: nat)
    requires ValsTyped(s, slots, vals) && Above(s, slots, r)
    ensures vals == [] ==> slots == []
    ensures vals != [] ==>
      && slots != [] && Typed(s, slots[0].node, vals[0]) && ValsTyped(s, slots[1..], vals[1..])
      && (slots[0].node.Ary? ==> r < slots[0].node.id < |s|) && Above(s, slots[1..], r)
  {
    hide Typed;
  }

  lemma ValsUnfold(vals: seq<Val>, big: bool, swap: bool)
    requires AllFit(vals)
    ensures vals == [] ==> SerVals(vals, big) == [] && ViewVals(vals, swap) == [] && ValsSize(vals) == 0
    ensures vals != [] ==>
      && Fits(vals[0]) && AllFit(vals[1..])
      && SerVals(vals, big) == Ser(vals[0], big) + SerVals(vals[1..], big)
      && ViewVals(vals, swap) == [HostView(vals[0], swap)] + ViewVals(vals[1..], swap)
      && ValsSize(vals) == Size(vals[0]) + ValsSize(vals[1..])
  {
    hide Ser, HostView, Size, Fits;
  }

  lemma NoVals(s: Schema, text: bytes, pos: nat, m: Mode, r: nat)
    requires SchemaOk(s) && r < |s| && Above(s, [], r) && pos <= |text|
    ensures ScanVals(s, text, pos, [], m, r) == Good([], pos, false)
  {
  }

  lemma ValsStep(s: Schema, text: bytes, pos: nat, slots: seq<Slot>, m: Mode, r: nat, v: Val, mid: nat, vs: seq<Val>, end: nat)
    requires SchemaOk(s) && r < |s| && slots != [] && Above(s, slots, r) && Above(s, slots[1..], r) && pos <= |text|
    requires slots[0].node.Ary? ==> r < slots[0].node.id < |s|
    requires ScanNode(s, text, pos, slots[0].node, m, r) == Good(v, mid, false)
    requires mid <= |text| && ScanVals(s, text, mid, slots[1..], m, r) == Good(vs, end, false)
    ensures ScanVals(s, text, pos, slots, m, r) == Good([v] + vs, end, false)
  {
    hide ScanNode, Above, SchemaOk;
  }

  lemma {:induction false} ValsReadBack(s: Schema, text: bytes, pos: nat, slots: seq<Slot>, vals: seq<Val>, big: bool, swap: bool, r: nat)
    requires SchemaOk(s) && r < |s| && Above(s, slots, r)
    requires ValsTyped(s, slots, vals) && AllFit(vals) && At(text, pos, SerVals(vals, big))
    ensures ScanVals(s, text, pos, slots, Mode(big, swap, false), r) == Good(ViewVals(vals, swap), pos + ValsSize(vals), false)
    decreases vals, 0
  {
    hide SerVals, Ser, ViewVals, HostView, ValsSize, Size, At, ScanVals, ScanNode, Typed, ValsTyped, SchemaOk, Fits, AllFit, Above;
    TypedUnfold(s, slots, vals, r);
    ValsUnfold(vals, big, swap);
    if vals == [] {
      AtBounds(text, pos, []);
      NoVals(s, text, pos, Mode(big, swap, false), r);
    } else {
      var v, rest := vals[0], vals[1..];
      AtSplit(text, pos, Ser(v, big), SerVals(rest, big));
      SizeIsLength(v, big);
      ValReadBack(s, text, pos, slots[0].node, v, big, swap, r);
      ValsReadBack(s, text, pos + Size(v), slots[1..], rest, big, swap, r);
      ValsStep(s, text, pos, slots, Mode(big, swap, false), r, HostView(v, swap), pos + Size(v), ViewVals(rest, swap), pos + Size(v) + ValsSize(rest));
    }
  }
}
