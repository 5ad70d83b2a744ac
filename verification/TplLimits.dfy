// Where tpl_load does not keep its promise, and exactly when it does.
module TplLimits {
  import opened Bytes
  import opened TplSchema
  import opened TplWire
  import opened TplImage
  import opened TplState
  import opened TplCounters

  // tpl_sanity sets the byte-order flag and the flag for 1.2 strings and never
  // clears them, and tpl_load only resets the flags of a tpl that holds data. So
  // after a rejected image this host's own image is accepted if and only if the
  // byte-order flag is not left over and, with the other flag left over, its
  // data also have the right length as 1.2 strings (for every image whose size
  // is not its own byte reversal).
  lemma OwnImageNeedsCleanFlags(s: Schema, fmt: bytes, fxlens: seq<nat>, vals: seq<Val>, host: bool, f: Flags)
    requires SchemaOk(s) && FmtOk(s, fmt, fxlens) && 0 < |s|
    requires ValsTyped(s, RowSlots(s, 0), vals) && AllFit(vals)
    requires var total := HeaderSize(fmt, fxlens) + ValsSize(vals);
      total < TWO_TO_THE_32 && ReadWord32(Word32(total, host), !host) != total
    requires !f.wronly && !f.rdonly
    ensures var image := Image(fmt, fxlens, vals, host);
      && HeaderSize(fmt, fxlens) <= |image|
      && (Accepts(s, fmt, fxlens, image, LoadMode(f, image, host), false) <==>
          !f.xendian && (f.v12 ==> EndOf(DataScan(s, fmt, fxlens, image, Mode(host, false, true))) == Some(|image|)))
  {
    hide SchemaOk, FmtOk, DataScan, ValsTyped, AllFit, Slots, ScanVals, HasText, Preamble, SerVals, LensMatch, ReadWord32, Word32;
    LensAreInts(s, fmt, fxlens);
    var image := Image(fmt, fxlens, vals, host);
    var total := HeaderSize(fmt, fxlens) + ValsSize(vals);
    ImageAccepted(s, fmt, fxlens, vals, host, false, false);
    AcceptedHeader(s, fmt, fxlens, image, Mode(host, false, false), false);
    if f.xendian {
      SizeWord(fmt, fxlens, vals, total, host);
    } else if f.v12 {
      FlagByteReads(s, fmt, fxlens, host, host);
      assert LoadMode(f, image, host) == Mode(host, false, true);
    } else {
      ForeignImage(s, fmt, fxlens, vals, host, host, f);
    }
  }

  lemma SizeWord(fmt: bytes, fxlens: seq<nat>, vals: seq<Val>, total: nat, host: bool)
    requires forall k :: 0 <= k < |fxlens| ==> fxlens[k] < TWO_TO_THE_31
    requires AllFit(vals) && total == HeaderSize(fmt, fxlens) + ValsSize(vals) < TWO_TO_THE_32
    ensures var image := Image(fmt, fxlens, vals, host); 8 <= |image| && image[4..8] == Word32(total, host)
  {
    hide LenWords, Word32, FlagByte, SerVals, AllFit;
    WholeAt(Preamble(fmt, fxlens, total, host), SerVals(vals, host));
    PreambleParts(Image(fmt, fxlens, vals, host), fmt, fxlens, total, host);
  }

  // No string, at any depth, but NULL.
  ghost predicate AllNull(v: Val)
    decreases v
  {
    match v
    case Raw(_) => true
    case Strs(ts) => forall t :: t in ts ==> t.None?
    case Buf(_) => true
    case List(es) => forall e :: e in es ==> forall w :: w in e.vals ==> AllNull(w)
  }

  ghost predicate NullVals(vals: seq<Val>) {
    forall v :: v in vals ==> AllNull(v)
  }

  lemma {:induction false} NullStrs(text: bytes, pos: nat, num: nat, m: Mode)
    requires pos <= |text| && !m.v12
    requires var res := ScanStrs(text, pos, num, m); res.Good? && forall t :: t in res.value ==> t.None?
    ensures EndOf(ScanStrs(text, pos, num, m.(v12 := true))) == Some(ScanStrs(text, pos, num, m).end)
    decreases num
  {
    hide ReadWord32;
    if num > 0 {
      var first := ScanStr(text, pos, m);
      var rest := ScanStrs(text, first.end, num - 1, m);
      var all := ScanStrs(text, pos, num, m).value;
      assert all == [first.value] + rest.value && all[0] in all;
      assert EndOf(ScanStr(text, pos, m.(v12 := true))) == Some(first.end);
      assert forall t :: t in rest.value ==> t in all;
      NullStrs(text, first.end, num - 1, m);
    }
  }

  lemma NullField(text: bytes, pos: nat, f: Field, m: Mode)
    requires pos <= |text| && !m.v12
    requires var res := ScanField(text, pos, f, m); res.Good? && AllNull(res.value)
    ensures EndOf(ScanField(text, pos, f, m.(v12 := true))) == Some(ScanField(text, pos, f, m).end)
  {
    hide ScanStrs, ScanWords, ReadWord32;
    if f.Text? {
      NullStrs(text, pos, f.num, m);
    }
  }

  // Data without strings but NULL have the same length in both formats.
  lemma {:induction false} NullScan(s: Schema, text: bytes, pos: nat, slots: seq<Slot>, m: Mode, r: nat)
    requires SchemaOk(s) && r < |s| && Above(s, slots, r) && pos <= |text| && !m.v12
    requires var res := ScanVals(s, text, pos, slots, m, r); res.Good? && NullVals(res.value)
    ensures EndOf(ScanVals(s, text, pos, slots, m.(v12 := true), r)) == Some(ScanVals(s, text, pos, slots, m, r).end)
    decreases |s| - r, 0, |slots|
  {
    hide ScanNode, SchemaOk, AllNull;
    if slots != [] {
      assert slots[0] in slots;
      var v := ScanNode(s, text, pos, slots[0].node, m, r);
      var rest := ScanVals(s, text, v.end, slots[1..], m, r);
      assert ScanVals(s, text, pos, slots, m, r).value == [v.value] + rest.value;
      NullNode(s, text, pos, slots[0].node, m, r);
      NullScan(s, text, v.end, slots[1..], m, r);
    }
  }

  lemma {:induction false} NullNode(s: Schema, text: bytes, pos: nat, node: Node, m: Mode, r: nat)
    requires SchemaOk(s) && r < |s| && (node.Ary? ==> r < node.id < |s|) && pos <= |text| && !m.v12
    requires var res := ScanNode(s, text, pos, node, m, r); res.Good? && AllNull(res.value)
    ensures EndOf(ScanNode(s, text, pos, node, m.(v12 := true), r)) == Some(ScanNode(s, text, pos, node, m, r).end)
    decreases |s| - r, 0, 0
  {
    hide ScanField, ScanElems, SchemaOk, ReadWord32;
    if node.Leaf? {
      NullField(text, pos, node.field, m);
    } else if node.Ary? {
      var n := ReadWord32(text[pos..pos + 4], m.big);
      if n < TWO_TO_THE_31 {
        NullElems(s, text, pos + 4, node.id, n, m);
      }
    }
  }

  lemma {:induction false} NullElems(s: Schema, text: bytes, pos: nat, id: nat, n: nat, m: Mode)
    requires SchemaOk(s) && id < |s| && pos <= |text| && !m.v12
    requires var res := ScanElems(s, text, pos, id, n, m); res.Good? && AllNull(List(res.value))
    ensures EndOf(ScanElems(s, text, pos, id, n, m.(v12 := true))) == Some(ScanElems(s, text, pos, id, n, m).end)
    decreases |s| - id, 1, n
  {
    hide ScanVals, SchemaOk, Slots;
    if n > 0 {
      RowAbove(s, id);
      var one := ScanVals(s, text, pos, RowSlots(s, id), m, id);
      var rest := ScanElems(s, text, one.end, id, n - 1, m);
      var all := ScanElems(s, text, pos, id, n, m).value;
      assert all == [Elem(one.value)] + rest.value;
      assert all[0] in all;
      NullScan(s, text, pos, RowSlots(s, id), m, id);
      NullElems(s, text, one.end, id, n - 1, m);
    }
  }

  // With the flag for 1.2 strings left over an own image without strings but
  // NULL is still accepted.
  lemma NullStringsPass(s: Schema, fmt: bytes, fxlens: seq<nat>, vals: seq<Val>, host: bool)
    requires SchemaOk(s) && FmtOk(s, fmt, fxlens) && 0 < |s|
    requires ValsTyped(s, RowSlots(s, 0), vals) && AllFit(vals) && HeaderSize(fmt, fxlens) + ValsSize(vals) < TWO_TO_THE_32
    requires NullVals(vals)
    ensures forall k :: 0 <= k < |fxlens| ==> fxlens[k] < TWO_TO_THE_31
    ensures var image := Image(fmt, fxlens, vals, host);
      HeaderSize(fmt, fxlens) <= |image| && EndOf(DataScan(s, fmt, fxlens, image, Mode(host, false, true))) == Some(|image|)
  {
    hide SchemaOk, FmtOk, ValsTyped, AllFit, Slots, ScanVals, Preamble, SerVals, NullVals, HeaderMatches;
    LensAreInts(s, fmt, fxlens);
    var image := Image(fmt, fxlens, vals, host);
    ImageAccepted(s, fmt, fxlens, vals, host, false, false);
    AcceptedHeader(s, fmt, fxlens, image, Mode(host, false, false), false);
    SameHostVals(vals);
    RowAbove(s, 0);
    NullScan(s, image, HeaderSize(fmt, fxlens), RowSlots(s, 0), Mode(host, false, false), 0);
  }

  // The one string that is not NULL comes last of its field, and only numbers
  // follow.
  ghost predicate OneLateString(slots: seq<Slot>, vals: seq<Val>, n: nat) {
    && |slots| == |vals| && n < |vals| && NullVals(vals[..n])
    && vals[n].Strs? && vals[n].strings != [] && vals[n].strings[|vals[n].strings| - 1].Some?
    && (forall j :: 0 <= j < |vals[n].strings| - 1 ==> vals[n].strings[j].None?)
    && forall k :: n < k < |slots| ==> slots[k].node.Leaf? && slots[k].node.field.Scalar?
  }

  // Numbers take the bytes they take, wherever they are read.
  lemma {:induction false} NumbersEnd(s: Schema, text: bytes, pos: nat, slots: seq<Slot>, vals: seq<Val>, m: Mode, r: nat)
    requires SchemaOk(s) && r < |s| && Above(s, slots, r) && pos <= |text| && ValsTyped(s, slots, vals)
    requires forall k :: 0 <= k < |slots| ==> slots[k].node.Leaf? && slots[k].node.field.Scalar?
    requires pos + ValsSize(vals) > |text|
    ensures ScanVals(s, text, pos, slots, m, r) == Bad
    decreases |slots|
  {
    hide ScanNode, SchemaOk;
    TypedUnfold(s, slots, vals, r);
    if slots != [] {
      LeafNode(s, text, pos, slots[0].node.field, m, r);
      ScalarSize(vals[0].words, slots[0].node.field.size);
      WordsEnd(text, pos, slots[0].node.field.size, slots[0].node.field.num, m.swap);
      var v := ScanNode(s, text, pos, slots[0].node, m, r);
      if v.Good? {
        NumbersEnd(s, text, v.end, slots[1..], vals[1..], m, r);
      }
    }
  }

  lemma {:induction false} WordsEnd(text: bytes, pos: nat, size: nat, num: nat, swap: bool)
    requires pos <= |text|
    ensures ScanWords(text, pos, size, num, swap).Good? ==> ScanWords(text, pos, size, num, swap).end == pos + size * num
    decreases num
  {
    if num > 0 && pos + size <= |text| {
      WordsEnd(text, pos + size, size, num - 1, swap);
      TimesStep(size, num);
    }
  }

  // NULL strings and then one that is not, read in the 1.2 format: one byte
  // more than there is.
  lemma {:induction false} LastStringLong(text: bytes, pos: nat, ts: seq<Option<bytes>>, big: bool)
    requires ts != [] && ts[|ts| - 1].Some? && forall j :: 0 <= j < |ts| - 1 ==> ts[j].None?
    requires forall t :: t in ts && t.Some? ==> |t.value| + 1 < TWO_TO_THE_32
    requires At(text, pos, SerStrs(ts, big))
    ensures pos <= |text|
    ensures var end := EndOf(ScanStrs(text, pos, |ts|, Mode(big, false, true)));
      end == if pos + StrsSize(ts) + 1 <= |text| then Some(pos + StrsSize(ts) + 1) else None
    decreases |ts|
  {
    hide At, SerStr, SerStrs, StrsSize, StrSize, ScanStr;
    var m := Mode(big, false, true);
    AtBounds(text, pos, SerStrs(ts, big));
    StrsUnfold(ts, big);
    var rest := ts[1..];
    AtSplit(text, pos, SerStr(ts[0], big), SerStrs(rest, big));
    StrLength(ts[0], big);
    OneLong(text, pos, ts[0], big);
    if |ts| == 1 {
      StrsUnfold(rest, big);
      assert pos + StrSize(ts[0]) + 1 <= |text| ==> EndOf(ScanStrs(text, pos + StrSize(ts[0]) + 1, 0, m)) == Some(pos + StrSize(ts[0]) + 1);
    } else {
      LastStringLong(text, pos + StrSize(ts[0]), rest, big);
    }
  }

  // A NULL has its length, any other string one byte more.
  lemma OneLong(text: bytes, pos: nat, t: Option<bytes>, big: bool)
    requires t.Some? ==> |t.value| + 1 < TWO_TO_THE_32
    requires At(text, pos, SerStr(t, big))
    ensures pos + StrSize(t) <= |text|
    ensures var end := pos + StrSize(t) + if t.Some? then 1 else 0;
      EndOf(ScanStr(text, pos, Mode(big, false, true))) == if end <= |text| then Some(end) else None
  {
    hide At, Word32, ReadWord32;
    AtBounds(text, pos, SerStr(t, big));
    match t
    case None => CountReadBack(text, pos, 0, big);
    case Some(b) =>
      AtSplit(text, pos, Word32(|b| + 1, big), b);
      CountReadBack(text, pos, |b| + 1, big);
  }

  // Read in the 1.2 format such data run off the end.
  lemma {:induction false} Misread(s: Schema, text: bytes, pos: nat, slots: seq<Slot>, vals: seq<Val>, n: nat, big: bool, r: nat)
    requires SchemaOk(s) && r < |s| && Above(s, slots, r) && ValsTyped(s, slots, vals) && AllFit(vals)
    requires At(text, pos, SerVals(vals, big)) && |text| == pos + ValsSize(vals) && OneLateString(slots, vals, n)
    ensures ScanVals(s, text, pos, slots, Mode(big, false, true), r) == Bad
    decreases |slots|
  {
    hide SchemaOk, ScanNode, ValsTyped, Typed, AllFit, Fits, At, SerVals, Ser, Size, AllNull, StrsSize;
    var m := Mode(big, false, true);
    TypedUnfold(s, slots, vals, r);
    ValsUnfold(vals, big, false);
    var rest := vals[1..];
    AtSplit(text, pos, Ser(vals[0], big), SerVals(rest, big));
    SizeIsLength(vals[0], big);
    assert slots[0] in slots;
    if n == 0 {
      StringsThenNumbers(s, text, pos, slots, vals, big, r);
    } else {
      LateStringOn(slots, vals, n);
      assert vals[..n][0] == vals[0] && vals[0] in vals[..n];
      ValReadBack(s, text, pos, slots[0].node, vals[0], big, false, r);
      SameHostView(vals[0]);
      NullNode(s, text, pos, slots[0].node, Mode(big, false, false), r);
      Misread(s, text, pos + Size(vals[0]), slots[1..], rest, n - 1, big, r);
    }
  }

  lemma LateStringOn(slots: seq<Slot>, vals: seq<Val>, n: nat)
    requires OneLateString(slots, vals, n) && n > 0
    ensures OneLateString(slots[1..], vals[1..], n - 1)
  {
    hide AllNull;
    assert vals[1..][..n - 1] == vals[..n][1..];
  }

  lemma StringsThenNumbers(s: Schema, text: bytes, pos: nat, slots: seq<Slot>, vals: seq<Val>, big: bool, r: nat)
    requires SchemaOk(s) && r < |s| && Above(s, slots, r) && ValsTyped(s, slots, vals) && AllFit(vals)
    requires |text| == pos + ValsSize(vals) && OneLateString(slots, vals, 0)
    requires At(text, pos, Ser(vals[0], big))
    ensures ScanVals(s, text, pos, slots, Mode(big, false, true), r) == Bad
  {
    hide SchemaOk, ValsTyped, AllFit, At, SerVals, AllNull, StrsSize, ScanStrs, ScanNode;
    var m := Mode(big, false, true);
    TypedUnfold(s, slots, vals, r);
    ValsUnfold(vals, big, false);
    var ts := vals[0].strings;
    LastStringLong(text, pos, ts, big);
    LeafNode(s, text, pos, slots[0].node.field, m, r);
    var v := ScanNode(s, text, pos, slots[0].node, m, r);
    if v.Good? {
      NumbersEnd(s, text, v.end, slots[1..], vals[1..], m, r);
    }
  }

  // And with a string before the numbers that end the root's fields it is not.
  lemma LateStringRejected(s: Schema, fmt: bytes, fxlens: seq<nat>, vals: seq<Val>, n: nat, host: bool)
    requires SchemaOk(s) && FmtOk(s, fmt, fxlens) && 0 < |s|
    requires ValsTyped(s, RowSlots(s, 0), vals) && AllFit(vals) && HeaderSize(fmt, fxlens) + ValsSize(vals) < TWO_TO_THE_32
    requires OneLateString(RowSlots(s, 0), vals, n)
    ensures forall k :: 0 <= k < |fxlens| ==> fxlens[k] < TWO_TO_THE_31
    ensures var image := Image(fmt, fxlens, vals, host);
      HeaderSize(fmt, fxlens) <= |image| && DataScan(s, fmt, fxlens, image, Mode(host, false, true)) == Bad
  {
    hide SchemaOk, FmtOk, ValsTyped, AllFit, Slots, ScanVals, Preamble, SerVals, OneLateString, At, ValsSize;
    LensAreInts(s, fmt, fxlens);
    var total := HeaderSize(fmt, fxlens) + ValsSize(vals);
    WholeAt(Preamble(fmt, fxlens, total, host), SerVals(vals, host));
    ValsLength(vals, host);
    RowAbove(s, 0);
    Misread(s, Image(fmt, fxlens, vals, host), HeaderSize(fmt, fxlens), RowSlots(s, 0), vals, n, host, 0);
  }

  // Other data can have the right length by coincidence: the string "x" and a
  // buffer of one zero byte.
  lemma RightLengthByChance()
    ensures var data: bytes := [2, 0, 0, 0, 120, 1, 0, 0, 0, 0];
      && ScanField(data, 0, Text(1), Mode(false, false, false)) == Good(Strs([Some([120])]), 5, false)
      && ScanField(data, 5, Blob, Mode(false, false, false)) == Good(Buf([0]), 10, false)
      && ScanField(data, 0, Text(1), Mode(false, false, true)) == Good(Strs([Some([120, 1])]), 6, false)
      && ScanField(data, 6, Blob, Mode(false, false, true)) == Good(Buf([]), 10, false)
  {
    var data: bytes := [2, 0, 0, 0, 120, 1, 0, 0, 0, 0];
    var o, n := Mode(false, false, true), Mode(false, false, false);
    assert data[0..4] == [2, 0, 0, 0] && data[5..9] == [1, 0, 0, 0] && data[6..10] == [0, 0, 0, 0];
    SmallWord(2);
    SmallWord(1);
    SmallWord(0);
    assert data[4..5] == [120] && data[4..6] == [120, 1] && data[9..10] == [0] && data[10..10] == [];
    NoStrs(data, 5, n);
    NoStrs(data, 6, o);
    StrsStep(data, 0, Some([120]), 0, n, 5, [], 5);
    StrsStep(data, 0, Some([120, 1]), 0, o, 6, [], 6);
    var none: seq<Option<bytes>> := [];
    assert [Some([120])] + none == [Some([120])] && [Some([120, 1])] + none == [Some([120, 1])];
  }

  lemma SmallWord(b: byte)
    ensures ReadWord32([b, 0, 0, 0], false) == b
  {
  }

  // tpl_load forgets that an image has 1.2 strings. A string t and an empty one
  // in that format pass the length check to the last byte; reading them the way
  // tpl_unpack then does stays inside the image only when the last byte of t,
  // taken for part of a length, happens to make one of at most 2.
  lemma OldStringsRunOff(t: bytes, big: bool, swap: bool)
    requires t != [] && |t| + 1 < TWO_TO_THE_32
    ensures var data := Word32(|t|, big) + t + Word32(0, big);
      && EndOf(ScanField(data, 0, Text(2), Mode(big, swap, true))) == Some(|data|)
      && (ScanField(data, 0, Text(2), Mode(big, swap, false)).Good? <==> ReadWord32([t[|t| - 1]] + Word32(0, big)[..3], big) <= 2)
  {
    hide ReadWord32, Word32;
    var data := Word32(|t|, big) + t + Word32(0, big);
    var n := |t|;
    assert data[0..4] == Word32(n, big) && data[4 + n..8 + n] == Word32(0, big);
    assert data[3 + n..7 + n] == [t[n - 1]] + Word32(0, big)[..3];
    WordRoundTrip(n, big);
    WordRoundTrip(0, big);
    StrsTwo(data, 0, Mode(big, swap, true));
    StrsTwo(data, 0, Mode(big, swap, false));
  }

  lemma StrsTwo(text: bytes, pos: nat, m: Mode)
    requires pos <= |text|
    ensures EndOf(ScanStrs(text, pos, 2, m)) ==
      var first := EndOf(ScanStr(text, pos, m)); if first.None? then None else EndOf(ScanStr(text, first.value, m))
  {
    hide ScanStr;
    var first := EndOf(ScanStr(text, pos, m));
    if first.Some? {
      var second := EndOf(ScanStr(text, first.value, m));
      if second.Some? {
        NoStrs(text, second.value, m);
      }
    }
  }

  // tpl_serlen keeps an element count in an int: a count of 2^31 or more reads
  // as negative, so the array passes with no element checked, whatever the
  // counters. Below 2^31 and with none left over an array passes exactly when
  // that many elements are there.
  lemma CountsFitAnInt(s: Schema, rows: seq<seq<Cursor>>, text: bytes, pos: nat, id: nat, m: Mode)
    requires SchemaOk(s) && InRange(s, rows) && 0 < id < |s| && pos + 4 <= |text|
    ensures var count := ReadWord32(text[pos..pos + 4], m.big);
      var trip := LengthTripOf(s, rows, text, pos, m, id);
      && (count >= TWO_TO_THE_31 ==> trip == Trip(Counts(rows), Some(pos + 4)))
      && (count < TWO_TO_THE_31 && AtRest(s, rows) ==>
          (trip.end.Some? <==> ScanElems(s, text, pos + 4, id, count, m).Good?)
          && (trip.end.Some? ==> trip == Trip(Counts(rows), EndOf(ScanElems(s, text, pos + 4, id, count, m)))))
  {
    hide ScanElems, ReadWord32, ElemsTrip, ArrayTrip, SchemaOk, RowAtRest, RowInRange;
    CountsFit(s, rows);
    ArrayTripUnfold(s, text, pos, id, Counts(rows), m);
    ElemsTripUnfold(s, text, pos + 4, id, 0, Counts(rows), m);
    if AtRest(s, rows) {
      LengthAtRest(s, rows, text, pos, m, id, 0);
    }
  }
}
