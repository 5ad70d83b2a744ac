// tpl_peek with a data format: a look at the leading atoms of an image
// without mapping it.
module TplPeek {
  import opened Bytes
  import opened TplSchema
  import opened TplWire
  import opened TplImage
  import opened TplReading

  const PEEK_CHARS: seq<byte> := [105, 117, 99, 115, 102, 73, 85, 106, 118]   // "iucsfIUjv"

  // tpl_size_for, for the letters peek takes; a string is read on its own.
  function SizeFor(letter: byte): nat {
    if letter == 99 then 1
    else if letter == 106 || letter == 118 then 2
    else if letter == 105 || letter == 117 then 4
    else 8
  }

  function Skipped(text: bytes, pos: nat): (p: nat)
    requires pos <= |text|
    ensures pos <= p <= |text|
    decreases |text| - pos
  {
    if pos < |text| && text[pos] in {STRUCT, OPEN, CLOSE} then Skipped(text, pos + 1) else pos
  }

  // One letter's worth of data at pos.
  function PeekOne(text: bytes, pos: nat, letter: byte, m: Mode): (r: Scan<Val>)
    requires pos <= |text|
    ensures r.Good? ==> pos <= r.end <= |text|
  {
    if letter == LETTER_S then
      if pos + 4 > |text| then Bad
      else
        var word := ReadWord32(text[pos..pos + 4], m.big);
        var ssz := if m.v12 then (word + 1) % TWO_TO_THE_32 else word;
        if ssz == 0 then Good(Strs([None]), pos + 4, false)
        else if pos + 4 + ssz - 1 > |text| then Bad
        else Good(Strs([Some(text[pos + 4..pos + 4 + ssz - 1])]), pos + 4 + ssz - 1, false)
    else
      var csz := SizeFor(letter);
      if pos + csz > |text| then Bad else Good(Raw([HostWord(text[pos..pos + csz], m.swap)]), pos + csz, false)
  }

  function PeekAll(text: bytes, pos: nat, f: bytes, m: Mode): Option<seq<Val>>
    requires pos <= |text|
    decreases |f|
  {
    if f == [] then Some([])
    else match PeekOne(text, pos, f[0], m)
      case Bad => None
      case Good(v, end, _) =>
        match PeekAll(text, end, f[1..], m)
        case None => None
        case Some(vs) => Some([v] + vs)
  }

  // What tpl_peek sees in an image: the length it declares, where its format
  // string ends, where its data start.
  predicate Plausible(text: bytes, m: Mode) {
    && |text| >= 9 && text[..3] == MAGIC && ReadWord32(text[4..8], m.big) == |text|
    && NulAt(text, 8) < |text|
    && DataStart(text) <= |text|
  }

  function NulAt(text: bytes, pos: nat): (p: nat)
    requires pos <= |text|
    ensures pos <= p <= |text|
    ensures forall k :: pos <= k < p ==> text[k] != 0
    ensures p < |text| ==> text[p] == 0
    decreases |text| - pos
  {
    if pos == |text| || text[pos] == 0 then pos else NulAt(text, pos + 1)
  }

  function DataStart(text: bytes): nat
    requires |text| >= 8
  {
    var nul := NulAt(text, 8);
    nul + 1 + 4 * Hashes(text[8..nul])
  }

  function PeekMode(text: bytes, hostBig: bool): Mode
    requires |text| >= 4
  {
    var big := text[3] % 2 == 1;
    Mode(big, big != hostBig, text[3] / 2 % 2 == 0)
  }

  predicate Letters(f: bytes) {
    forall k :: 0 <= k < |f| ==> f[k] in PEEK_CHARS
  }

  predicate Matches(text: bytes, f: bytes)
    requires |text| >= 8
  {
    var first := Skipped(text, 8);
    first + |f| <= |text| && text[first..first + |f|] == f
  }

  // tpl_peek(TPL_MEM|TPL_DATAPEEK): on any bytes at all every read stays inside
  // them; the format string is returned only if all the data were there.
  method Peek(text: bytes, f: bytes, hostBig: bool) returns (fmt: Option<bytes>, data: seq<Val>)
    requires forall k :: 0 <= k < |f| ==> f[k] != 0
    ensures fmt.Some? <==>
      && |text| >= 9 && Plausible(text, PeekMode(text, hostBig)) && Letters(f) && Matches(text, f)
      && PeekAll(text, DataStart(text), f, PeekMode(text, hostBig)).Some?
    ensures fmt.Some? ==> fmt.value == text[8..NulAt(text, 8)] && Some(data) == PeekAll(text, DataStart(text), f, PeekMode(text, hostBig))
  {
    hide Skipped, ReadWord32, NulAt, Hashes, PeekAll;
    fmt, data := None, [];
    var sz := |text|;
    if sz < 9 || text[..3] != MAGIC {
      return;
    }
    var m := PeekMode(text, hostBig);
    if ReadWord32(text[4..8], m.big) != sz {
      return;
    }
    var dv, found, numFxlens := FindNul(text);
    if !found || sz < dv + 4 * numFxlens {
      return;
    }
    var first := Skipped(text, 8);
    if !Letters(f) || !(first + |f| <= |text| && text[first..first + |f|] == f) {
      return;
    }
    var whole;
    whole, data := ReadLetters(text, dv + 4 * numFxlens, f, m);
    if whole {
      fmt := Some(text[8..dv - 1]);
    }
  }

  method ReadLetters(text: bytes, start: nat, f: bytes, m: Mode) returns (whole: bool, data: seq<Val>)
    requires start <= |text|
    ensures whole <==> PeekAll(text, start, f, m).Some?
    ensures whole ==> Some(data) == PeekAll(text, start, f, m)
  {
    hide PeekOne, PeekAll;
    var pos: nat, k := start, 0;
    whole, data := false, [];
    assert f[0..] == f;
    ghost var all := PeekAll(text, start, f, m);
    assert all.Some? ==> [] + all.value == all.value;
    while k < |f|
      invariant 0 <= k <= |f| && pos <= |text|
      invariant var rest := PeekAll(text, pos, f[k..], m);
        if rest.Some? then all == Some(data + rest.value) else all == None
    {
      PeekStep(text, pos, f[k..], m);
      assert f[k..][1..] == f[k + 1..];
      var one := PeekOne(text, pos, f[k], m);
      if one.Bad? {
        return;
      }
      ghost var rest := PeekAll(text, one.end, f[k + 1..], m);
      assert rest.Some? ==> data + ([one.value] + rest.value) == data + [one.value] + rest.value;
      data := data + [one.value];
      pos := one.end;
      k := k + 1;
    }
    assert f[k..] == [] && data + [] == data;
    NoLetters(text, pos, m);
    whole := true;
  }

  lemma NoLetters(text: bytes, pos: nat, m: Mode)
    requires pos <= |text|
    ensures PeekAll(text, pos, [], m) == Some([])
  {
  }

  lemma PeekStep(text: bytes, pos: nat, f: bytes, m: Mode)
    requires pos <= |text| && f != []
    ensures var one := PeekOne(text, pos, f[0], m);
      PeekAll(text, pos, f, m) ==
        if one.Bad? then None
        else var rest := PeekAll(text, one.end, f[1..], m); if rest.None? then None else Some([one.value] + rest.value)
  {
    hide PeekOne;
  }

  method FindNul(text: bytes) returns (dv: nat, found: bool, numFxlens: nat)
    requires |text| >= 9
    ensures found <==> NulAt(text, 8) < |text|
    ensures found ==> dv == NulAt(text, 8) + 1 && numFxlens == Hashes(text[8..dv - 1])
  {
    dv, found, numFxlens := 8, false, 0;
    assert text[8..8] == [];
    while dv < |text| && !found
      invariant 8 <= dv <= |text|
      invariant !found ==> NulAt(text, dv) == NulAt(text, 8) && numFxlens == Hashes(text[8..dv])
      invariant found ==> dv == NulAt(text, 8) + 1 && numFxlens == Hashes(text[8..dv - 1])
      decreases |text| - dv, !found
    {
      assert text[8..dv + 1][..dv - 8] == text[8..dv];
      if text[dv] == 0 {
        found := true;
      } else if text[dv] == HASH {
        numFxlens := numFxlens + 1;
      }
      dv := dv + 1;
    }
  }

  // tpl_peek(TPL_MEM|TPL_FXLENS): the format string and the numbers behind it.
  method PeekLens(text: bytes, hostBig: bool) returns (fmt: Option<bytes>, lens: seq<nat>)
    ensures fmt.Some? <==> |text| >= 9 && Plausible(text, PeekMode(text, hostBig))
    ensures fmt.Some? ==>
      var nul := NulAt(text, 8);
      && fmt.value == text[8..nul] && |lens| == Hashes(fmt.value)
      && LensMatch(text, nul + 1, lens, PeekMode(text, hostBig).big)
    ensures fmt.None? ==> lens == []
  {
    hide ReadWord32, NulAt, Hashes, Reverse;
    fmt, lens := None, [];
    var sz := |text|;
    if sz < 9 || text[..3] != MAGIC {
      return;
    }
    var m := PeekMode(text, hostBig);
    if ReadWord32(text[4..8], m.big) != sz {
      return;
    }
    var dv, found, numFxlens := FindNul(text);
    if !found || sz < dv + 4 * numFxlens {
      return;
    }
    fmt := Some(text[8..dv - 1]);
    while |lens| < numFxlens
      invariant |lens| <= numFxlens && LensMatch(text, dv, lens, m.big)
      decreases numFxlens - |lens|
    {
      var at := dv + 4 * |lens|;
      var word := text[at..at + 4];
      SwappedWord(word, m.big, hostBig);
      if m.swap {
        word := Reverse(word);
      }
      lens := lens + [ReadWord32(word, hostBig)];
    }
  }

  // For a dumped image these are the format and the numbers it was mapped with.
  lemma LensSeen(s: Schema, fmt: bytes, fxlens: seq<nat>, vals: seq<Val>, big: bool, hostBig: bool, lens: seq<nat>)
    requires SchemaOk(s) && FmtOk(s, fmt, fxlens) && 0 < |s|
    requires ValsTyped(s, RowSlots(s, 0), vals) && AllFit(vals) && HeaderSize(fmt, fxlens) + ValsSize(vals) < TWO_TO_THE_32
    ensures var image := Image(fmt, fxlens, vals, big);
      && |image| >= 9 && Plausible(image, PeekMode(image, hostBig)) && image[8..NulAt(image, 8)] == fmt
      && PeekMode(image, hostBig).big == big && Hashes(fmt) == |fxlens|
      && (|lens| == |fxlens| && LensMatch(image, NulAt(image, 8) + 1, lens, big) ==> lens == fxlens)
  {
    hide SchemaOk, FmtOk, ValsTyped, AllFit, ScanVals, Slots, ReadWord32, At, Preamble, SerVals, Hashes, LensMatch;
    LensAreInts(s, fmt, fxlens);
    var image := Image(fmt, fxlens, vals, big);
    ImageAccepted(s, fmt, fxlens, vals, big, big != hostBig, false);
    NoNul(s, fmt, fxlens);
    NulIn(image, fmt, 0);
    FormatIn(image, fmt);
    LensAlike(image, 8 + |fmt| + 1, lens, fxlens, big);
  }

  lemma LensAlike(text: bytes, pos: nat, a: seq<nat>, b: seq<nat>, big: bool)
    requires LensMatch(text, pos, b, big)
    ensures |a| == |b| && LensMatch(text, pos, a, big) ==> a == b
  {
    hide ReadWord32;
    if |a| == |b| && LensMatch(text, pos, a, big) {
      forall k | 0 <= k < |a| ensures a[k] == b[k] {
        assert ReadWord32(text[pos + 4 * k..pos + 4 * k + 4], big) == b[k];
      }
    }
  }

  // ----- agreement with unpacking -----

  // Letter for letter, f names the atoms the first row starts with; '#' may
  // follow only the last one, of which peek sees the first word or string.
  ghost predicate Leads(slots: seq<Slot>, f: bytes) {
    && |f| <= |slots|
    && forall k :: 0 <= k < |f| ==> LetterOf(slots[k].node, f[k]) && (k < |f| - 1 ==> Single(slots[k].node))
  }

  predicate LetterOf(node: Node, letter: byte) {
    && (NumberLetter(letter) || letter == LETTER_S)
    && node.Leaf? && !node.field.Blob? && 1 <= node.field.num && node.field == WithNum(AtomFor(letter), node.field.num)
  }

  predicate Single(node: Node) {
    node.Leaf? && !node.field.Blob? && node.field.num == 1
  }

  // The first word or string of a value.
  function First(v: Val): Val {
    match v
    case Raw(ws) => if ws == [] then v else Raw(ws[..1])
    case Strs(ss) => if ss == [] then v else Strs(ss[..1])
    case Buf(_) => v
    case List(_) => v
  }

  ghost function Firsts(vals: seq<Val>, n: nat): (r: seq<Val>)
    requires n <= |vals|
    ensures |r| == n
  {
    seq(n, k requires 0 <= k < n => First(vals[k]))
  }

  // Peeking at one letter gives the first word of the field unpacked there.
  lemma OneAgrees(text: bytes, pos: nat, node: Node, letter: byte, m: Mode)
    requires pos <= |text| && LetterOf(node, letter) && !m.v12
    requires ScanField(text, pos, node.field, m).Good?
    ensures var one := PeekOne(text, pos, letter, m);
      var full := ScanField(text, pos, node.field, m);
      one.Good? && one.value == First(full.value) && (Single(node) ==> one.end == full.end)
  {
    hide ReadWord32, HostWord;
    match node.field {
      case Scalar(size, num) =>
        WordsStart(text, pos, size, num, m.swap);
      case Text(num) =>
        StrsStart(text, pos, num, m);
      case Blob =>
        assert false;
    }
  }

  lemma WordsStart(text: bytes, pos: nat, size: nat, num: nat, swap: bool)
    requires pos <= |text| && 1 <= num && ScanWords(text, pos, size, num, swap).Good?
    ensures pos + size <= |text|
    ensures var r := ScanWords(text, pos, size, num, swap);
      |r.value| >= 1 && r.value[..1] == [HostWord(text[pos..pos + size], swap)] && (num == 1 ==> r.end == pos + size)
  {
    hide HostWord;
  }

  lemma StrsStart(text: bytes, pos: nat, num: nat, m: Mode)
    requires pos <= |text| && 1 <= num && ScanStrs(text, pos, num, m).Good?
    ensures ScanStr(text, pos, m).Good?
    ensures var r := ScanStrs(text, pos, num, m); var t := ScanStr(text, pos, m);
      |r.value| >= 1 && r.value[..1] == [t.value] && (num == 1 ==> r.end == t.end)
  {
    hide ScanStr;
  }

  lemma ScanStep(s: Schema, text: bytes, pos: nat, slots: seq<Slot>, m: Mode, r: nat)
    requires SchemaOk(s) && r < |s| && Above(s, slots, r) && pos <= |text| && slots != [] && slots[0].node.Leaf?
    requires ScanVals(s, text, pos, slots, m, r).Good?
    ensures var head := ScanField(text, pos, slots[0].node.field, m);
      && head.Good? && Above(s, slots[1..], r)
      && var rest := ScanVals(s, text, head.end, slots[1..], m, r);
         rest.Good? && ScanVals(s, text, pos, slots, m, r).value == [head.value] + rest.value
  {
    hide ScanField, SchemaOk;
  }

  // Whatever data tpl_unpack would read, peek reads the same.
  lemma {:induction false} PeekAgrees(s: Schema, text: bytes, pos: nat, slots: seq<Slot>, f: bytes, m: Mode, r: nat)
    requires SchemaOk(s) && r < |s| && Above(s, slots, r) && pos <= |text| && !m.v12
    requires ScanVals(s, text, pos, slots, m, r).Good? && Leads(slots, f)
    ensures PeekAll(text, pos, f, m) == Some(Firsts(ScanVals(s, text, pos, slots, m, r).value, |f|))
    decreases |f|
  {
    hide ScanVals, ScanField, SchemaOk, PeekOne, Above, First, LetterOf, Single;
    if f != [] {
      LeadsLeaf(slots, f);
      ScanStep(s, text, pos, slots, m, r);
      OneAgrees(text, pos, slots[0].node, f[0], m);
      PeekStep(text, pos, f, m);
      var head := ScanField(text, pos, slots[0].node.field, m);
      var full, rest := ScanVals(s, text, pos, slots, m, r).value, ScanVals(s, text, head.end, slots[1..], m, r).value;
      assert full == [head.value] + rest;
      FirstsStep(head.value, rest, |f| - 1);
      if |f| == 1 {
        var one := PeekOne(text, pos, f[0], m);
        assert f[1..] == [];
        NoLetters(text, one.end, m);
      } else {
        PeekAgrees(s, text, head.end, slots[1..], f[1..], m, r);
      }
    }
  }

  lemma FirstsStep(v: Val, rest: seq<Val>, n: nat)
    requires n <= |rest|
    ensures Firsts([v] + rest, n + 1) == [First(v)] + Firsts(rest, n)
    ensures n == 0 ==> Firsts(rest, n) == []
  {
    hide First;
  }

  lemma LeadsLeaf(slots: seq<Slot>, f: bytes)
    requires Leads(slots, f) && f != []
    ensures slots != [] && slots[0].node.Leaf? && LetterOf(slots[0].node, f[0]) && Leads(slots[1..], f[1..])
    ensures |f| > 1 ==> Single(slots[0].node)
  {
  }

  // f follows the opening "S(" of the format, if there is one.
  predicate Spelled(fmt: bytes, f: bytes) {
    var first := Skipped(fmt, 0);
    first + |f| <= |fmt| && fmt[first..first + |f|] == f
  }

  lemma {:induction false} SkippedIn(text: bytes, fmt: bytes, k: nat)
    requires At(text, 8, fmt + [0]) && k <= |fmt|
    ensures 8 + k <= |text| && Skipped(text, 8 + k) == 8 + Skipped(fmt, k)
    decreases |fmt| - k
  {
    assert text[8 + k] == text[8..8 + |fmt + [0]|][k] == (fmt + [0])[k];
    if k < |fmt| {
      SkippedIn(text, fmt, k + 1);
    }
  }

  lemma {:induction false} NulIn(text: bytes, fmt: bytes, k: nat)
    requires At(text, 8, fmt + [0]) && k <= |fmt| && 0 !in fmt
    ensures 8 + k <= |text| && NulAt(text, 8 + k) == 8 + |fmt| < |text|
    decreases |fmt| - k
  {
    assert text[8 + k] == text[8..8 + |fmt + [0]|][k] == (fmt + [0])[k];
    if k < |fmt| {
      NulIn(text, fmt, k + 1);
    }
  }

  lemma FormatIn(text: bytes, fmt: bytes)
    requires At(text, 8, fmt + [0])
    ensures 8 + |fmt| <= |text| && text[8..8 + |fmt|] == fmt
  {
    AtSplit(text, 8, fmt, [0]);
  }

  lemma MatchesIn(text: bytes, fmt: bytes, f: bytes)
    requires At(text, 8, fmt + [0]) && Spelled(fmt, f)
    ensures |text| >= 8 && Matches(text, f)
  {
    hide At, Skipped;
    SkippedIn(text, fmt, 0);
    FormatIn(text, fmt);
    var first := Skipped(fmt, 0);
    SliceOfSlice(text, 8, 8 + |fmt|, first, first + |f|);
    assert Skipped(text, 8) == 8 + first;
    assert text[8..8 + |fmt|][first..first + |f|] == f;
    assert text[8 + first..8 + (first + |f|)] == f;
  }

  lemma SliceOfSlice(s: bytes, i: nat, j: nat, a: nat, b: nat)
    requires i <= j <= |s| && a <= b <= j - i
    ensures s[i..j][a..b] == s[i + a..i + b]
  {
    var t := s[i..j];
    forall k | 0 <= k < b - a ensures t[a..b][k] == s[i + a..i + b][k] {
      assert t[a + k] == s[i + a + k];
    }
  }

  // Only strings come in an old format.
  lemma {:induction false} OldOrNew(text: bytes, pos: nat, f: bytes, m: Mode)
    requires pos <= |text| && LETTER_S !in f
    ensures PeekAll(text, pos, f, m) == PeekAll(text, pos, f, m.(v12 := false))
    decreases |f|
  {
    if f != [] {
      var one := PeekOne(text, pos, f[0], m);
      if one.Good? {
        OldOrNew(text, one.end, f[1..], m);
      }
    }
  }

  lemma LeadLetters(slots: seq<Slot>, f: bytes)
    requires Leads(slots, f)
    ensures Letters(f) && |f| <= |slots|
  {
  }

  // For the image of any packed values, dumped on either kind of host, peek
  // succeeds and shows what unpacking would.
  lemma PeekSeesPacked(s: Schema, fmt: bytes, fxlens: seq<nat>, vals: seq<Val>, big: bool, hostBig: bool, f: bytes)
    requires SchemaOk(s) && FmtOk(s, fmt, fxlens) && 0 < |s|
    requires ValsTyped(s, RowSlots(s, 0), vals) && AllFit(vals) && HeaderSize(fmt, fxlens) + ValsSize(vals) < TWO_TO_THE_32
    requires Leads(RowSlots(s, 0), f) && Spelled(fmt, f)
    ensures var image := Image(fmt, fxlens, vals, big);
      && |image| >= 9 && Plausible(image, PeekMode(image, hostBig))
      && image[8..NulAt(image, 8)] == fmt && Letters(f) && Matches(image, f)
      && |ViewVals(vals, big != hostBig)| >= |f|
      && PeekAll(image, DataStart(image), f, PeekMode(image, hostBig)) == Some(Firsts(ViewVals(vals, big != hostBig), |f|))
  {
    hide SchemaOk, FmtOk, ValsTyped, AllFit, ScanVals, ViewVals, Leads, PeekAll, Slots, ReadWord32, At, Preamble, SerVals, Spelled, Hashes, Matches, LensMatch, Letters, First;
    LensAreInts(s, fmt, fxlens);
    var image := Image(fmt, fxlens, vals, big);
    var m := Mode(big, big != hostBig, false);
    ImageAccepted(s, fmt, fxlens, vals, big, big != hostBig, false);
    NoNul(s, fmt, fxlens);
    NulIn(image, fmt, 0);
    FormatIn(image, fmt);
    MatchesIn(image, fmt, f);
    LeadLetters(RowSlots(s, 0), f);
    assert PeekMode(image, hostBig) == m.(v12 := LETTER_S !in fmt);
    RowAbove(s, 0);
    PeekAgrees(s, image, HeaderSize(fmt, fxlens), RowSlots(s, 0), f, m, 0);
    if LETTER_S !in fmt {
      NoStrings(fmt, f);
      OldOrNew(image, HeaderSize(fmt, fxlens), f, PeekMode(image, hostBig));
    }
  }

  lemma NoStrings(fmt: bytes, f: bytes)
    requires Spelled(fmt, f) && LETTER_S !in fmt
    ensures LETTER_S !in f
  {
    var first := Skipped(fmt, 0);
    forall k | 0 <= k < |f| ensures f[k] in fmt {
      assert f[k] == fmt[first..first + |f|][k];
    }
  }

  lemma NoNul(s: Schema, fmt: bytes, fxlens: seq<nat>)
    requires FmtOk(s, fmt, fxlens)
    ensures 0 !in fmt && Hashes(fmt) == |fxlens|
  {
  }
}
