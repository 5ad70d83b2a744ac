// The whole image: preamble, format string, '#' lengths and data; and exactly
// which byte strings tpl_sanity lets through.
module TplImage {
  import opened Bytes
  import opened TplSchema
  import opened TplWire

  const MAGIC: bytes := [116, 112, 108]        // "tpl"
  const HASH: byte := 35                        // '#'
  const LETTER_S: byte := 115                   // 's'
  // "AS($)BiucsfIUjv#"
  const FMT_CHARS: seq<byte> := [65, 83, 40, 36, 41, 66, 105, 117, 99, 115, 102, 73, 85, 106, 118, 35]

  predicate HasText(s: Schema) {
    exists r, k :: 0 <= r < |s| && 0 <= k < |s[r]| && ItemHasText(s[r][k])
  }

  predicate ItemHasText(item: Item) {
    match item
    case Atom(f) => f.Text?
    case Struct(fs, _, _) => exists k :: 0 <= k < |fs| && fs[k].Text?
    case Array(_) => false
  }

  function Hashes(fmt: bytes): nat {
    if fmt == [] then 0 else Hashes(fmt[..|fmt| - 1]) + if fmt[|fmt| - 1] == HASH then 1 else 0
  }

  // What tpl_map_va has established about the format string it keeps.
  predicate FmtOk(s: Schema, fmt: bytes, fxlens: seq<nat>) {
    && (forall k :: 0 <= k < |fmt| ==> fmt[k] in FMT_CHARS)
    && Hashes(fmt) == |fxlens|
    && (forall k :: 0 <= k < |fxlens| ==> fxlens[k] < TWO_TO_THE_31)
    && (HasText(s) <==> LETTER_S in fmt)
  }

  lemma LensAreInts(s: Schema, fmt: bytes, fxlens: seq<nat>)
    requires FmtOk(s, fmt, fxlens)
    ensures forall k :: 0 <= k < |fxlens| ==> fxlens[k] < TWO_TO_THE_31
  {
  }

  function HeaderSize(fmt: bytes, fxlens: seq<nat>): nat {
    4 + |fmt| + 1 + 4 + 4 * |fxlens|
  }

  function FlagByte(fmt: bytes, big: bool): byte {
    (if big then 1 else 0) + (if LETTER_S in fmt then 2 else 0)
  }

  function LenWords(fxlens: seq<nat>, big: bool): (r: bytes)
    requires forall k :: 0 <= k < |fxlens| ==> fxlens[k] < TWO_TO_THE_31
    ensures |r| == 4 * |fxlens|
  {
    if fxlens == [] then [] else Word32(fxlens[0], big) + LenWords(fxlens[1..], big)
  }

  function Preamble(fmt: bytes, fxlens: seq<nat>, total: nat, big: bool): (r: bytes)
    requires forall k :: 0 <= k < |fxlens| ==> fxlens[k] < TWO_TO_THE_31
    requires total < TWO_TO_THE_32
    ensures |r| == HeaderSize(fmt, fxlens)
  {
    MAGIC + [FlagByte(fmt, big)] + Word32(total, big) + (fmt + [0]) + LenWords(fxlens, big)
  }

  // The image tpl_dump makes of the values on a host of the given byte order.
  ghost function Image(fmt: bytes, fxlens: seq<nat>, vals: seq<Val>, big: bool): bytes
    requires forall k :: 0 <= k < |fxlens| ==> fxlens[k] < TWO_TO_THE_31
    requires AllFit(vals) && HeaderSize(fmt, fxlens) + ValsSize(vals) < TWO_TO_THE_32
  {
    Preamble(fmt, fxlens, HeaderSize(fmt, fxlens) + ValsSize(vals), big) + SerVals(vals, big)
  }

  // ----- what tpl_sanity checks -----

  predicate LensMatch(text: bytes, pos: nat, fxlens: seq<nat>, big: bool) {
    && pos + 4 * |fxlens| <= |text|
    && forall k :: 0 <= k < |fxlens| ==> ReadWord32(text[pos + 4 * k..pos + 4 * k + 4], big) == fxlens[k]
  }

  ghost predicate HeaderMatches(fmt: bytes, fxlens: seq<nat>, text: bytes, big: bool, excess: bool) {
    && |text| >= 9 && text[..3] == MAGIC && text[3] <= 3
    && (excess || ReadWord32(text[4..8], big) == |text|)
    && At(text, 8, fmt + [0])
    && LensMatch(text, 8 + |fmt| + 1, fxlens, big)
  }

  ghost function DataScan(s: Schema, fmt: bytes, fxlens: seq<nat>, text: bytes, m: Mode): Scan<seq<Val>>
    requires SchemaOk(s) && HeaderSize(fmt, fxlens) <= |text|
  {
    RowAbove(s, 0);
    ScanVals(s, text, HeaderSize(fmt, fxlens), RowSlots(s, 0), m, 0)
  }

  ghost predicate Accepts(s: Schema, fmt: bytes, fxlens: seq<nat>, text: bytes, m: Mode, excess: bool)
    requires SchemaOk(s)
  {
    && HeaderMatches(fmt, fxlens, text, m.big, excess)
    && var d := DataScan(s, fmt, fxlens, text, m);
       d.Good? && (excess || d.end == |text|)
  }

  // ----- a dumped image passes -----

  lemma {:induction false} LensReadBack(text: bytes, pos: nat, fxlens: seq<nat>, big: bool)
    requires forall k :: 0 <= k < |fxlens| ==> fxlens[k] < TWO_TO_THE_31
    requires At(text, pos, LenWords(fxlens, big))
    ensures LensMatch(text, pos, fxlens, big)
    decreases |fxlens|
  {
    if fxlens == [] {
    } else {
      AtSplit(text, pos, Word32(fxlens[0], big), LenWords(fxlens[1..], big));
      CountReadBack(text, pos, fxlens[0], big);
      LensReadBack(text, pos + 4, fxlens[1..], big);
      LensJoin(text, pos, fxlens, big);
    }
  }

  lemma LensJoin(text: bytes, pos: nat, fxlens: seq<nat>, big: bool)
    requires fxlens != [] && pos + 4 <= |text| && ReadWord32(text[pos..pos + 4], big) == fxlens[0]
    requires LensMatch(text, pos + 4, fxlens[1..], big)
    ensures LensMatch(text, pos, fxlens, big)
  {
    hide ReadWord32;
    forall k | 0 <= k < |fxlens| ensures ReadWord32(text[pos + 4 * k..pos + 4 * k + 4], big) == fxlens[k] {
      if k > 0 {
        assert text[pos + 4 + 4 * (k - 1)..pos + 4 + 4 * (k - 1) + 4] == text[pos + 4 * k..pos + 4 * k + 4];
        assert fxlens[1..][k - 1] == fxlens[k];
      }
    }
  }

  lemma PreambleParts(text: bytes, fmt: bytes, fxlens: seq<nat>, total: nat, big: bool)
    requires forall k :: 0 <= k < |fxlens| ==> fxlens[k] < TWO_TO_THE_31
    requires total < TWO_TO_THE_32 && At(text, 0, Preamble(fmt, fxlens, total, big))
    ensures At(text, 0, MAGIC) && At(text, 3, [FlagByte(fmt, big)]) && At(text, 4, Word32(total, big))
    ensures At(text, 8, fmt + [0]) && At(text, 8 + |fmt| + 1, LenWords(fxlens, big))
  {
    hide At, LenWords, Word32, FlagByte;
    var a: bytes := MAGIC + [FlagByte(fmt, big)];
    var b: bytes := a + Word32(total, big);
    var c: bytes := b + (fmt + [0]);
    AtSplit(text, 0, c, LenWords(fxlens, big));
    AtSplit(text, 0, b, fmt + [0]);
    AtSplit(text, 0, a, Word32(total, big));
    AtSplit(text, 0, MAGIC, [FlagByte(fmt, big)]);
  }

  // tpl_dump then tpl_sanity: the image of any well-typed values is accepted
  // by a host of either byte order, with nothing left over, and the scan of its
  // data is the packed values as that host sees them.
  lemma ImageAccepted(s: Schema, fmt: bytes, fxlens: seq<nat>, vals: seq<Val>, big: bool, swap: bool, excess: bool)
    requires SchemaOk(s) && FmtOk(s, fmt, fxlens)
    requires ValsTyped(s, RowSlots(s, 0), vals) && AllFit(vals) && HeaderSize(fmt, fxlens) + ValsSize(vals) < TWO_TO_THE_32
    ensures Accepts(s, fmt, fxlens, Image(fmt, fxlens, vals, big), Mode(big, swap, false), excess)
    ensures |Image(fmt, fxlens, vals, big)| == HeaderSize(fmt, fxlens) + ValsSize(vals)
    ensures DataScan(s, fmt, fxlens, Image(fmt, fxlens, vals, big), Mode(big, swap, false))
         == Good(ViewVals(vals, swap), HeaderSize(fmt, fxlens) + ValsSize(vals), false)
    ensures Image(fmt, fxlens, vals, big)[3] == FlagByte(fmt, big)
  {
    hide At, ScanVals, SerVals, ValsTyped, AllFit, LensMatch, Preamble, LenWords;
    var text := Image(fmt, fxlens, vals, big);
    var h := HeaderSize(fmt, fxlens);
    var total := h + ValsSize(vals);
    ValsLength(vals, big);
    WholeAt(Preamble(fmt, fxlens, total, big), SerVals(vals, big));
    PreambleParts(text, fmt, fxlens, total, big);
    LensReadBack(text, 8 + |fmt| + 1, fxlens, big);
    CountReadBack(text, 4, total, big);
    AtFirst(text, fmt, big);
    RowAbove(s, 0);
    ValsReadBack(s, text, h, RowSlots(s, 0), vals, big, swap, 0);
  }

  lemma WholeAt(a: bytes, b: bytes)
    ensures At(a + b, 0, a) && At(a + b, |a|, b)
  {
    assert (a + b)[0..|a|] == a;
  }

  lemma AtFirst(text: bytes, fmt: bytes, big: bool)
    requires At(text, 0, MAGIC) && At(text, 3, [FlagByte(fmt, big)])
    ensures |text| >= 4 && text[..3] == MAGIC && text[3] == FlagByte(fmt, big)
  {
    assert text[0..3] == text[..3];
    assert text[3..4][0] == text[3];
  }
}
