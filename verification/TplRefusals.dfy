// Which images tpl_load refuses: those of another format or with other '#'
// numbers, and those whose preamble is not a tpl preamble.
module TplRefusals {
  import opened Bytes
  import opened TplSchema
  import opened TplWire
  import opened TplImage
  import opened TplState
  import opened TplCounters
  import opened TplObject
  import TplLeftover
  import TplReset

  // Two formats without NUL, each ended by one at the same place, are the same.
  lemma OneFormat(text: bytes, pos: nat, a: bytes, b: bytes)
    requires At(text, pos, a + [0]) && At(text, pos, b + [0]) && 0 !in a && 0 !in b
    ensures a == b
  {
    if |a| < |b| {
      ShorterFormat(text, pos, a, b);
    } else if |b| < |a| {
      ShorterFormat(text, pos, b, a);
    } else {
      assert a == (a + [0])[..|a|] == (b + [0])[..|b|] == b;
    }
  }

  lemma ShorterFormat(text: bytes, pos: nat, a: bytes, b: bytes)
    requires At(text, pos, a + [0]) && At(text, pos, b + [0]) && 0 !in b
    ensures |a| >= |b|
  {
    assert text[pos + |a|] == (a + [0])[|a|] == 0;
  }

  lemma NoNulInFormat(s: Schema, fmt: bytes, fxlens: seq<nat>)
    requires FmtOk(s, fmt, fxlens)
    ensures 0 !in fmt && Hashes(fmt) == |fxlens|
    ensures forall k :: 0 <= k < |fxlens| ==> fxlens[k] < TWO_TO_THE_31
  {
  }

  // Where the parts of an image's preamble are.
  lemma ImageParts(fmt: bytes, fxlens: seq<nat>, vals: seq<Val>, big: bool)
    requires forall k :: 0 <= k < |fxlens| ==> fxlens[k] < TWO_TO_THE_31
    requires AllFit(vals) && HeaderSize(fmt, fxlens) + ValsSize(vals) < TWO_TO_THE_32
    ensures var image := Image(fmt, fxlens, vals, big);
      |image| >= 9 && At(image, 8, fmt + [0]) && LensMatch(image, 8 + |fmt| + 1, fxlens, big) && image[3] == FlagByte(fmt, big)
  {
    hide At, SerVals, AllFit, Preamble, LenWords, LensMatch;
    var total := HeaderSize(fmt, fxlens) + ValsSize(vals);
    var image := Image(fmt, fxlens, vals, big);
    WholeAt(Preamble(fmt, fxlens, total, big), SerVals(vals, big));
    PreambleParts(image, fmt, fxlens, total, big);
    LensReadBack(image, 8 + |fmt| + 1, fxlens, big);
    AtFirst(image, fmt, big);
  }

  lemma OneList(text: bytes, pos: nat, a: seq<nat>, b: seq<nat>, big: bool)
    requires |a| == |b| && LensMatch(text, pos, a, big) && LensMatch(text, pos, b, big)
    ensures a == b
  {
    hide ReadWord32;
    forall k | 0 <= k < |a| ensures a[k] == b[k] {
      assert ReadWord32(text[pos + 4 * k..pos + 4 * k + 4], big) == b[k];
    }
  }

  // An image dumped for another format, or for the same one with other '#'
  // numbers and checked in its own byte order, is refused, whatever its data.
  lemma OtherMapping(s: Schema, fmt: bytes, fxlens: seq<nat>, k: Counters, m: Mode, excess: bool,
                     s': Schema, fmt': bytes, fxlens': seq<nat>, vals: seq<Val>, big: bool)
    requires SchemaOk(s) && FmtOk(s, fmt, fxlens) && Shape(s, k) && FmtOk(s', fmt', fxlens')
    requires AllFit(vals) && HeaderSize(fmt', fxlens') + ValsSize(vals) < TWO_TO_THE_32
    requires fmt' != fmt || (fxlens' != fxlens && m.big == big)
    ensures forall j :: 0 <= j < |fxlens'| ==> fxlens'[j] < TWO_TO_THE_31
    ensures !AcceptsFrom(s, fmt, fxlens, Image(fmt', fxlens', vals, big), k, m, excess)
  {
    hide SchemaOk, FmtOk, AllFit, Preamble, SerVals, LensMatch, ElemsTrip, ReadWord32, Hashes, At, Shape;
    NoNulInFormat(s, fmt, fxlens);
    NoNulInFormat(s', fmt', fxlens');
    var image := Image(fmt', fxlens', vals, big);
    ImageParts(fmt', fxlens', vals, big);
    if AcceptsFrom(s, fmt, fxlens, image, k, m, excess) {
      OneFormat(image, 8, fmt, fmt');
      if m.big == big {
        OneList(image, 8 + |fmt| + 1, fxlens, fxlens', big);
      }
      assert false;
    }
  }

  // The byte order an image is checked in is its own, unless the flag of the
  // other order is left over from a rejected image.
  lemma CheckedInItsOrder(s': Schema, fmt': bytes, fxlens': seq<nat>, image: bytes, f: Flags, hostBig: bool, big: bool)
    requires FmtOk(s', fmt', fxlens') && |image| >= 9 && image[3] == FlagByte(fmt', big) && image[..3] == MAGIC
    ensures LoadMode(f, image, hostBig).big == big <==> big != hostBig || f.wronly || f.rdonly || !f.xendian
  {
    FlagByteReads(s', fmt', fxlens', big, hostBig);
  }

  // tpl_load on such an image, whatever the state of the tpl.
  method LoadOther(t: Tpl, image: bytes, excess: bool, ghost s': Schema, ghost fmt': bytes, ghost fxlens': seq<nat>, ghost vals: seq<Val>, ghost big: bool)
    returns (rc: int)
    requires t.Sound() && FmtOk(s', fmt', fxlens')
    requires AllFit(vals) && HeaderSize(fmt', fxlens') + ValsSize(vals) < TWO_TO_THE_32
    requires forall j :: 0 <= j < |fxlens'| ==> fxlens'[j] < TWO_TO_THE_31
    requires image == Image(fmt', fxlens', vals, big)
    requires fmt' != t.fmt || fxlens' != t.fxlens
    requires fmt' == t.fmt ==> big != t.hostBig || t.flags.wronly || t.flags.rdonly || !t.flags.xendian
    modifies t
    ensures rc == -1
  {
    hide SchemaOk, FmtOk, AllFit, Preamble, SerVals, LensMatch, AcceptsFrom, RowInRange, BackboneOk, SizesOk, TplReset.ParentsOk, Image, At, After, LeftBy, DataScan;
    var m := LoadMode(t.flags, image, t.hostBig);
    ImageParts(fmt', fxlens', vals, big);
    ImageMagic(fmt', fxlens', vals, big);
    CheckedInItsOrder(s', fmt', fxlens', image, t.flags, t.hostBig, big);
    CountsFit(t.schema, t.cursors);
    OtherMapping(t.schema, t.fmt, t.fxlens, Counts(t.cursors), m, excess, s', fmt', fxlens', vals, big);
    rc := t.Load(image, excess);
  }

  lemma ImageMagic(fmt: bytes, fxlens: seq<nat>, vals: seq<Val>, big: bool)
    requires forall k :: 0 <= k < |fxlens| ==> fxlens[k] < TWO_TO_THE_31
    requires AllFit(vals) && HeaderSize(fmt, fxlens) + ValsSize(vals) < TWO_TO_THE_32
    ensures var image := Image(fmt, fxlens, vals, big); |image| >= 4 && image[..3] == MAGIC
  {
    hide At, SerVals, AllFit, LenWords;
    var total := HeaderSize(fmt, fxlens) + ValsSize(vals);
    WholeAt(Preamble(fmt, fxlens, total, big), SerVals(vals, big));
    PreambleParts(Image(fmt, fxlens, vals, big), fmt, fxlens, total, big);
    AtFirst(Image(fmt, fxlens, vals, big), fmt, big);
  }

  // Any bytes at all that are too short, do not start with "tpl", carry flags
  // beyond the two known ones, or (unless excess bytes are allowed) announce
  // another length, are refused.
  lemma NoPreamble(s: Schema, fmt: bytes, fxlens: seq<nat>, text: bytes, k: Counters, m: Mode, excess: bool)
    requires SchemaOk(s) && Shape(s, k)
    requires |text| < 4 + 4 + 1 || text[..3] != [116, 112, 108] || text[3] >= 4
          || (!excess && ReadWord32(text[4..8], m.big) != |text|)
    ensures !AcceptsFrom(s, fmt, fxlens, text, k, m, excess)
  {
    hide At, LensMatch, ElemsTrip;
  }

  // Bytes behind a good image are taken with TPL_EXCESS_OK and only with it.
  lemma TrailingBytes(s: Schema, fmt: bytes, fxlens: seq<nat>, vals: seq<Val>, extra: bytes, big: bool, swap: bool, excess: bool)
    requires SchemaOk(s) && FmtOk(s, fmt, fxlens) && 0 < |s|
    requires ValsTyped(s, RowSlots(s, 0), vals) && AllFit(vals) && HeaderSize(fmt, fxlens) + ValsSize(vals) < TWO_TO_THE_32
    ensures forall k :: 0 <= k < |fxlens| ==> fxlens[k] < TWO_TO_THE_31
    ensures var text := Image(fmt, fxlens, vals, big) + extra;
      Accepts(s, fmt, fxlens, text, Mode(big, swap, false), excess) <==> excess || extra == []
  {
    hide SchemaOk, At, ScanVals, SerVals, ValsTyped, AllFit, Preamble, Slots, HeaderMatches, FmtOk;
    NoNulInFormat(s, fmt, fxlens);
    var total := HeaderSize(fmt, fxlens) + ValsSize(vals);
    var pre, data := Preamble(fmt, fxlens, total, big), SerVals(vals, big);
    var text := pre + data + extra;
    assert text == pre + (data + extra);
    ValsLength(vals, big);
    WholeAt(pre, data + extra);
    AtSplit(text, |pre|, data, extra);
    if excess || extra == [] {
      TplLeftover.ShortHeader(fmt, fxlens, total, data + extra, big, excess);
    } else {
      OtherLength(text, fmt, fxlens, total, big);
    }
    RowAbove(s, 0);
    ValsReadBack(s, text, HeaderSize(fmt, fxlens), RowSlots(s, 0), vals, big, swap, 0);
  }

  lemma OtherLength(text: bytes, fmt: bytes, fxlens: seq<nat>, total: nat, big: bool)
    requires forall k :: 0 <= k < |fxlens| ==> fxlens[k] < TWO_TO_THE_31
    requires total < TWO_TO_THE_32 && At(text, 0, Preamble(fmt, fxlens, total, big)) && total != |text|
    ensures !HeaderMatches(fmt, fxlens, text, big, false)
  {
    hide At, Preamble, LensMatch, LenWords, ReadWord32, Word32;
    PreambleParts(text, fmt, fxlens, total, big);
    CountReadBack(text, 4, total, big);
  }
}
