// The bytes of an image, written out: what two hosts have to agree on.
module TplForm {
  import opened Bytes
  import opened TplSchema
  import opened TplWire
  import opened TplImage
  import opened TplLayout
  import opened TplReading

  // The four bytes of n, lowest first or highest first.
  function Four(n: nat, big: bool): (b: bytes)
    requires n < 0x1_0000_0000
    ensures |b| == 4
  {
    var b0, b1, b2, b3 := n % 256, n / 256 % 256, n / 65536 % 256, n / 16777216;
    if big then [b3, b2, b1, b0] else [b0, b1, b2, b3]
  }

  lemma WordForm(n: nat, big: bool)
    requires n < TWO_TO_THE_32
    ensures Word32(n, big) == Four(n, big)
  {
    var q1 := n / 256;
    var q2 := q1 / 256;
    assert q2 == n / 65536 && q2 / 256 == n / 16777216;
    assert Word32(n, false) == Four(n, false);
    if big {
      var le := Word32(n, false);
      assert Reverse(le) == [le[3], le[2], le[1], le[0]];
    }
  }

  // A string is its length and one, and its characters, and NULL the length 0; a
  // buffer its length and its bytes; an array its number of elements and these;
  // a number stands as it is in memory.
  lemma ValueForm(v: Val, big: bool)
    requires Fits(v)
    ensures v.Raw? ==> Ser(v, big) == Join(v.words)
    ensures v.Strs? ==> Ser(v, big) == StringsForm(v.strings, big)
    ensures v.Buf? ==> Ser(v, big) == Four(|v.data|, big) + v.data
    ensures v.List? ==> Ser(v, big) == Four(|v.elems|, big) + SerElems(v.elems, big)
  {
    match v
    case Raw(_) =>
    case Strs(ts) => StringsAre(ts, big);
    case Buf(d) => WordForm(|d|, big);
    case List(es) => WordForm(|es|, big);
  }

  function StringForm(t: Option<bytes>, big: bool): bytes
    requires t.Some? ==> |t.value| + 1 < 0x1_0000_0000
  {
    if t.None? then [0, 0, 0, 0] else Four(|t.value| + 1, big) + t.value
  }

  function StringsForm(ts: seq<Option<bytes>>, big: bool): bytes
    requires forall t :: t in ts && t.Some? ==> |t.value| + 1 < 0x1_0000_0000
  {
    if ts == [] then [] else StringForm(ts[0], big) + StringsForm(ts[1..], big)
  }

  lemma {:induction false} StringsAre(ts: seq<Option<bytes>>, big: bool)
    requires forall t :: t in ts && t.Some? ==> |t.value| + 1 < TWO_TO_THE_32
    ensures SerStrs(ts, big) == StringsForm(ts, big)
    decreases |ts|
  {
    hide Word32, Four;
    if ts != [] {
      StringsAre(ts[1..], big);
      StringIs(ts[0], big);
    }
  }

  lemma StringIs(t: Option<bytes>, big: bool)
    requires t.Some? ==> |t.value| + 1 < TWO_TO_THE_32
    ensures SerStr(t, big) == StringForm(t, big)
  {
    hide Word32;
    WordForm(if t.Some? then |t.value| + 1 else 0, big);
  }

  // Behind "tpl" a flag byte (1: highest byte first, 2: the format has strings),
  // the length of all of it, the format and a zero, the '#' numbers, the data.
  lemma ImageForm(fmt: bytes, fxlens: seq<nat>, vals: seq<Val>, big: bool)
    requires forall k :: 0 <= k < |fxlens| ==> fxlens[k] < TWO_TO_THE_31
    requires AllFit(vals) && HeaderSize(fmt, fxlens) + ValsSize(vals) < TWO_TO_THE_32
    ensures var image := Image(fmt, fxlens, vals, big);
      && |image| < 0x1_0000_0000
      && image == [116, 112, 108] + [(if big then 1 else 0) + if 115 in fmt then 2 else 0] + Four(|image|, big)
                  + fmt + [0] + NumbersForm(fxlens, big) + SerVals(vals, big)
  {
    hide Word32, Four, SerVals, AllFit, LenWords;
    var total := HeaderSize(fmt, fxlens) + ValsSize(vals);
    WordForm(total, big);
    ValsLength(vals, big);
    NumbersAre(fxlens, big);
    var a: bytes := MAGIC + [FlagByte(fmt, big)] + Word32(total, big);
    assert a + (fmt + [0]) == a + fmt + [0];
  }

  function NumbersForm(fxlens: seq<nat>, big: bool): bytes
    requires forall k :: 0 <= k < |fxlens| ==> fxlens[k] < 0x8000_0000
  {
    if fxlens == [] then [] else Four(fxlens[0], big) + NumbersForm(fxlens[1..], big)
  }

  lemma {:induction false} NumbersAre(fxlens: seq<nat>, big: bool)
    requires forall k :: 0 <= k < |fxlens| ==> fxlens[k] < TWO_TO_THE_31
    ensures LenWords(fxlens, big) == NumbersForm(fxlens, big)
    decreases |fxlens|
  {
    hide Word32, Four;
    if fxlens != [] {
      NumbersAre(fxlens[1..], big);
      WordForm(fxlens[0], big);
    }
  }

  // Letter by letter, the bytes of a number and what it takes in memory; a
  // string is a pointer there.
  lemma LetterForm(letter: byte)
    requires NumberLetter(letter) || letter == 115
    ensures letter == 99 ==> AtomFor(letter) == Scalar(1, 1)
    ensures letter == 106 || letter == 118 ==> AtomFor(letter) == Scalar(2, 1)
    ensures letter == 105 || letter == 117 ==> AtomFor(letter) == Scalar(4, 1)
    ensures letter == 73 || letter == 85 || letter == 102 ==> AtomFor(letter) == Scalar(8, 1)
    ensures letter == 115 ==> AtomFor(letter) == Text(1)
    ensures Width(AtomFor(letter)) == Align(AtomFor(letter)) ==
      if letter == 99 then 1 else if letter in [106, 118] then 2 else if letter in [105, 117] then 4 else 8
  {
  }
}
