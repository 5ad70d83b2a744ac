// tpl_gather_mem: images recovered from a byte stream that arrives in pieces.
module TplGather {
  import opened Bytes
  import opened TplSchema
  import opened TplWire
  import opened TplImage

  // The application's callback: its return code may depend on everything
  // delivered so far, the last image included.
  type Callback = seq<bytes> -> int

  // What a stream amounts to: the images handed over, and why it ends there.
  datatype Outcome =
    | Waiting(images: seq<bytes>, left: bytes)   // left: not yet a whole image
    | BadPrefix(images: seq<bytes>)
    | Aborted(images: seq<bytes>)
    | Stuck(images: seq<bytes>)                  // an image that declares no length

  function DeclaredLength(image: bytes): nat
    requires |image| > 8
  {
    ReadWord32(image[4..8], image[3] % 2 == 1)
  }

  // The stream cut into images, starting after those in `images`.
  function Cut(images: seq<bytes>, stream: bytes, cb: Callback): Outcome
    decreases |stream|
  {
    if |stream| <= 8 then Waiting(images, stream)
    else if stream[..3] != MAGIC then BadPrefix(images)
    else
      var n := DeclaredLength(stream);
      if n > |stream| then Waiting(images, stream)
      else if n == 0 then Stuck(images)
      else
        var next := images + [stream[..n]];
        if cb(next) < 0 then Aborted(next) else Cut(next, stream[n..], cb)
  }

  // More of the stream continues where the first part was left waiting, and
  // changes nothing once the first part has failed.
  lemma {:induction false} SplitInvariant(images: seq<bytes>, a: bytes, b: bytes, cb: Callback)
    ensures var first := Cut(images, a, cb);
      Cut(images, a + b, cb) == if first.Waiting? then Cut(first.images, first.left + b, cb) else first
    decreases |a|
  {
    if |a| > 8 && a[..3] == MAGIC && 0 < DeclaredLength(a) <= |a| {
      var n := DeclaredLength(a);
      HeadOf(a, b);
      assert (a + b)[..n] == a[..n] && (a + b)[n..] == a[n..] + b;
      if cb(images + [a[..n]]) >= 0 {
        SplitInvariant(images + [a[..n]], a[n..], b, cb);
      }
    } else if |a| > 8 {
      HeadOf(a, b);
    }
  }

  lemma HeadOf(a: bytes, b: bytes)
    requires |a| > 8
    ensures (a + b)[..3] == a[..3] && DeclaredLength(a + b) == DeclaredLength(a)
  {
    assert (a + b)[4..8] == a[4..8];
  }

  function Concat(parts: seq<bytes>): bytes {
    if parts == [] then [] else Concat(parts[..|parts| - 1]) + parts[|parts| - 1]
  }

  // Nothing is lost or invented: what is delivered and what is kept are the
  // stream, and what is kept is not a whole image yet.
  lemma {:induction false} LeftIsUndelivered(images: seq<bytes>, stream: bytes, cb: Callback)
    ensures var r := Cut(images, stream, cb);
      && |images| <= |r.images| && r.images[..|images|] == images
      && (r.Waiting? ==>
            && Concat(r.images) + r.left == Concat(images) + stream
            && (|r.left| <= 8 || (r.left[..3] == MAGIC && |r.left| < DeclaredLength(r.left))))
    decreases |stream|
  {
    if |stream| > 8 && stream[..3] == MAGIC && 0 < DeclaredLength(stream) <= |stream| {
      var n := DeclaredLength(stream);
      var next := images + [stream[..n]];
      assert next[..|next| - 1] == images;
      assert Concat(next) + stream[n..] == Concat(images) + stream by {
        assert stream[..n] + stream[n..] == stream;
      }
      if cb(next) >= 0 {
        LeftIsUndelivered(next, stream[n..], cb);
        var r := Cut(next, stream[n..], cb);
        assert r.images[..|images|] == r.images[..|next|][..|images|];
      }
    }
  }

  // Every image delivered came with the magic and is as long as it declared.
  lemma {:induction false} DeliveredFramed(images: seq<bytes>, stream: bytes, cb: Callback)
    requires forall k :: 0 <= k < |images| && |images[k]| > 8 ==> Framed(images[k])
    ensures forall k :: 0 <= k < |Cut(images, stream, cb).images| && |Cut(images, stream, cb).images[k]| > 8 ==>
      Framed(Cut(images, stream, cb).images[k])
    decreases |stream|
  {
    hide Framed, DeclaredLength;
    if |stream| > 8 && stream[..3] == MAGIC && 0 < DeclaredLength(stream) <= |stream| {
      DeclaredIsFramed(stream);
      var next := images + [stream[..DeclaredLength(stream)]];
      if cb(next) >= 0 {
        DeliveredFramed(next, stream[DeclaredLength(stream)..], cb);
      }
    }
  }

  // The callback has accepted everything but what it aborted at.
  lemma {:induction false} CallbackAccepted(images: seq<bytes>, stream: bytes, cb: Callback, h: seq<bytes>)
    requires images < h <= Cut(images, stream, cb).images
    ensures cb(h) < 0 <==> Cut(images, stream, cb).Aborted? && h == Cut(images, stream, cb).images
    decreases |stream|
  {
    hide DeclaredLength;
    var n := DeclaredLength(stream);
    var next := images + [stream[..n]];
    var r := Cut(images, stream, cb);
    if cb(next) >= 0 {
      LeftIsUndelivered(next, stream[n..], cb);
      if h != next {
        assert next <= h by {
          assert h[..|next|] == r.images[..|next|];
        }
        CallbackAccepted(next, stream[n..], cb, h);
      } else if r.Aborted? {
        MoreDelivered(next, stream[n..], cb);
      }
    }
  }

  lemma {:induction false} MoreDelivered(images: seq<bytes>, stream: bytes, cb: Callback)
    requires Cut(images, stream, cb).Aborted?
    ensures |images| < |Cut(images, stream, cb).images|
    decreases |stream|
  {
    hide DeclaredLength;
    var n := DeclaredLength(stream);
    var next := images + [stream[..n]];
    if cb(next) >= 0 {
      LeftIsUndelivered(next, stream[n..], cb);
    }
  }

  // A bad prefix is reported where more than eight bytes follow the images that
  // do not start with "tpl".
  lemma {:induction false} PrefixIsBad(images: seq<bytes>, stream: bytes, cb: Callback) returns (left: bytes)
    requires Cut(images, stream, cb).BadPrefix?
    ensures Concat(Cut(images, stream, cb).images) + left == Concat(images) + stream && |left| > 8 && left[..3] != [116, 112, 108]
    decreases |stream|
  {
    hide DeclaredLength;
    if stream[..3] != MAGIC {
      left := stream;
    } else {
      var n := DeclaredLength(stream);
      var next := images + [stream[..n]];
      assert next[..|next| - 1] == images;
      left := PrefixIsBad(next, stream[n..], cb);
      assert Concat(next) + stream[n..] == Concat(images) + stream by {
        assert stream[..n] + stream[n..] == stream;
      }
    }
  }

  lemma DeclaredIsFramed(stream: bytes)
    requires |stream| > 8 && stream[..3] == MAGIC && DeclaredLength(stream) <= |stream|
    ensures var image := stream[..DeclaredLength(stream)]; |image| > 8 ==> Framed(image)
  {
    var image := stream[..DeclaredLength(stream)];
    if |image| > 8 {
      assert image + stream[|image|..] == stream;
      HeadOf(image, stream[|image|..]);
    }
  }

  // One turn of the loop.
  lemma CutStep(images: seq<bytes>, stream: bytes, cb: Callback)
    requires |stream| > 8
    ensures stream[..3] != MAGIC ==> Cut(images, stream, cb) == BadPrefix(images)
    ensures stream[..3] == MAGIC && DeclaredLength(stream) > |stream| ==> Cut(images, stream, cb) == Waiting(images, stream)
    ensures stream[..3] == MAGIC && DeclaredLength(stream) == 0 ==> Cut(images, stream, cb).Stuck?
    ensures stream[..3] == MAGIC && 0 < DeclaredLength(stream) <= |stream| ==>
      var n := DeclaredLength(stream);
      var next := images + [stream[..n]];
      Cut(images, stream, cb) == if cb(next) < 0 then Aborted(next) else Cut(next, stream[n..], cb)
  {
    hide DeclaredLength;
  }

  lemma CutEnd(images: seq<bytes>, stream: bytes, cb: Callback)
    requires |stream| <= 8
    ensures Cut(images, stream, cb) == Waiting(images, stream)
  {
  }

  // ----- well-framed streams -----

  predicate Framed(image: bytes) {
    |image| > 8 && image[..3] == MAGIC && DeclaredLength(image) == |image|
  }

  function Tail(images: seq<bytes>): bytes {
    if images == [] then [] else images[0] + Tail(images[1..])
  }

  // A sender's images, one after the other, come out one by one.
  lemma {:induction false} ImagesComeOut(before: seq<bytes>, images: seq<bytes>, cb: Callback)
    requires forall k :: 0 <= k < |images| ==> Framed(images[k])
    requires forall h: seq<bytes> :: cb(h) >= 0
    ensures Cut(before, Tail(images), cb) == Waiting(before + images, [])
    decreases |images|
  {
    if images != [] {
      var one, rest := images[0], Tail(images[1..]);
      var stream := one + rest;
      HeadOf(one, rest);
      assert stream[..|one|] == one && stream[|one|..] == rest;
      ImagesComeOut(before + [one], images[1..], cb);
      assert before + [one] + images[1..] == before + images;
    } else {
      assert before + images == before;
    }
  }

  // What tpl_dump writes, on a host of either byte order, is framed.
  lemma DumpIsFramed(fmt: bytes, fxlens: seq<nat>, vals: seq<Val>, big: bool)
    requires forall k :: 0 <= k < |fxlens| ==> fxlens[k] < TWO_TO_THE_31
    requires AllFit(vals) && HeaderSize(fmt, fxlens) + ValsSize(vals) < TWO_TO_THE_32
    ensures Framed(Image(fmt, fxlens, vals, big))
  {
    hide At, SerVals, AllFit, Preamble, LenWords, Word32, ReadWord32;
    var total := HeaderSize(fmt, fxlens) + ValsSize(vals);
    var image := Image(fmt, fxlens, vals, big);
    ValsLength(vals, big);
    WholeAt(Preamble(fmt, fxlens, total, big), SerVals(vals, big));
    PreambleParts(image, fmt, fxlens, total, big);
    CountReadBack(image, 4, total, big);
    AtFirst(image, fmt, big);
  }

  // ----- the reassembler -----

  // Every header met while cutting declares a length of at least 1.
  predicate Flows(images: seq<bytes>, stream: bytes, cb: Callback) {
    !Cut(images, stream, cb).Stuck?
  }

  function Code(r: Outcome): int {
    match r
    case Waiting(_, _) => 1
    case BadPrefix(_) => -3
    case Aborted(_) => -4
    case Stuck(_) => 0
  }

  class Gatherer {
    const hostBig: bool
    const gatherMax: nat
    const cb: Callback
    var kept: Option<bytes>          // *gs: the fragment of the last image
    var delivered: seq<bytes>        // what the callback has been given

    constructor (hostBig: bool, gatherMax: nat, cb: Callback)
      ensures Valid() && kept.None? && delivered == []
      ensures this.hostBig == hostBig && this.gatherMax == gatherMax && this.cb == cb
    {
      this.hostBig := hostBig;
      this.gatherMax := gatherMax;
      this.cb := cb;
      kept := None;
      delivered := [];
    }

    predicate Valid()
      reads this
    {
      kept.Some? ==> kept.value != []
    }

    // The bytes of earlier calls that are not delivered yet.
    function Kept(): bytes
      reads this
    {
      if kept.Some? then kept.value else []
    }

    predicate TooLong(buf: bytes)
      reads this
    {
      gatherMax > 0 && kept.Some? && |kept.value| + |buf| > gatherMax
    }

    // memcpy the length word, swap it when the image is of the other byte order.
    method ReadLength(image: bytes) returns (tpllen: nat)
      requires |image| > 8
      ensures tpllen == DeclaredLength(image)
    {
      var word := image[4..8];
      var imageBig := image[3] % 2 == 1;
      SwappedWord(word, imageBig, hostBig);
      if imageBig != hostBig {
        word := Reverse(word);
      }
      tpllen := ReadWord32(word, hostBig);
    }

    method GatherMem(buf: bytes) returns (rc: int)
      requires Valid() && (!TooLong(buf) ==> Flows(delivered, Kept() + buf, cb))
      modifies this
      ensures Valid()
      ensures rc == -2 <==> old(TooLong(buf))
      ensures rc == -2 ==> kept.None? && delivered == old(delivered)
      ensures rc != -2 ==>
        var r := Cut(old(delivered), old(Kept()) + buf, cb);
        rc == Code(r) && delivered == r.images && Kept() == if r.Waiting? then r.left else []
    {
      hide Cut, DeclaredLength, ReadWord32, Reverse;
      ghost var stream, images := Kept() + buf, delivered;
      var img := buf;
      var joined := kept.Some?;
      if kept.Some? {
        var catlen := |kept.value| + |buf|;
        if gatherMax > 0 && catlen > gatherMax {
          kept := None;
          return -2;
        }
        img := kept.value + buf;
        kept := None;
      }
      assert img == stream;
      var tpl, cbrc: int := 0, 0;
      var looping := tpl + 8 < |img|;
      assert img[0..] == img;
      if !looping {
        CutEnd(images, img, cb);
      }
      while looping
        invariant 0 <= tpl <= |img| && Valid() && kept.None?
        invariant cbrc < 0 ==> !looping && Cut(images, img, cb) == Aborted(delivered)
        invariant cbrc >= 0 ==> Cut(images, img, cb) == Cut(delivered, img[tpl..], cb)
        invariant cbrc >= 0 && !looping ==> Cut(images, img, cb) == Waiting(delivered, img[tpl..])
        invariant looping ==> tpl + 8 < |img|
        decreases |img| - tpl, looping
      {
        var here := img[tpl..];
        CutStep(delivered, here, cb);
        if here[..3] != MAGIC {
          return -3;
        }
        var tpllen := ReadLength(here);
        if tpl + tpllen <= |img| {
          delivered := delivered + [here[..tpllen]];
          cbrc := cb(delivered);
          tpl := tpl + tpllen;
          assert img[tpl..] == here[tpllen..];
          looping := cbrc >= 0 && tpl + 8 < |img|;
          if cbrc >= 0 && !looping {
            CutEnd(delivered, img[tpl..], cb);
          }
        } else {
          looping := false;
        }
      }
      if cbrc < 0 {
        kept := None;
        return -4;
      }
      if tpl == 0 && joined {
        kept := Some(img);
      } else if tpl < |img| {
        kept := Some(img[tpl..]);
      }
      rc := 1;
    }
  }

  // Piece k is reached with a fragment of an image kept, and the two together
  // are longer than the limit allows.
  predicate TooLongAt(images: seq<bytes>, kept: bytes, pieces: seq<bytes>, k: nat, max: nat, cb: Callback)
    requires k < |pieces|
  {
    var r := Cut(images, kept + Concat(pieces[..k]), cb);
    max > 0 && r.Waiting? && r.left != [] && |r.left| + |pieces[k]| > max
  }

  // The first such piece from k on, or their number.
  function FirstTooLong(images: seq<bytes>, kept: bytes, pieces: seq<bytes>, k: nat, max: nat, cb: Callback): (n: nat)
    requires k <= |pieces|
    ensures k <= n <= |pieces| && (n < |pieces| ==> TooLongAt(images, kept, pieces, n, max, cb))
    ensures forall j :: k <= j < n ==> !TooLongAt(images, kept, pieces, j, max, cb)
    decreases |pieces| - k
  {
    if k == |pieces| || TooLongAt(images, kept, pieces, k, max, cb) then k
    else FirstTooLong(images, kept, pieces, k + 1, max, cb)
  }

  // A source that hands its pieces over one by one and stops at an error. What
  // comes out is what the stream in one piece amounts to if and only if no
  // piece is too long; otherwise the images in front of the first such piece.
  method FeedAll(g: Gatherer, pieces: seq<bytes>) returns (rc: int)
    requires g.Valid() && Cut(g.delivered, g.Kept(), g.cb) == Waiting(g.delivered, g.Kept())
    requires var n := FirstTooLong(g.delivered, g.Kept(), pieces, 0, g.gatherMax, g.cb);
      Flows(g.delivered, g.Kept() + Concat(pieces[..n]), g.cb)
    modifies g
    ensures g.Valid()
    ensures rc == -2 <==> exists k :: 0 <= k < |pieces| && TooLongAt(old(g.delivered), old(g.Kept()), pieces, k, g.gatherMax, g.cb)
    ensures rc == -2 ==>
      var n := FirstTooLong(old(g.delivered), old(g.Kept()), pieces, 0, g.gatherMax, g.cb);
      g.delivered == Cut(old(g.delivered), old(g.Kept()) + Concat(pieces[..n]), g.cb).images && g.Kept() == []
    ensures rc != -2 ==>
      var r := Cut(old(g.delivered), old(g.Kept()) + Concat(pieces), g.cb);
      rc == Code(r) && g.delivered == r.images && g.Kept() == if r.Waiting? then r.left else []
  {
    hide Cut, Concat, FirstTooLong, TooLongAt;
    ghost var kept, images := g.Kept(), g.delivered;
    ghost var n := FirstTooLong(images, kept, pieces, 0, g.gatherMax, g.cb);
    rc := 1;
    var k := 0;
    NoPieces(kept, pieces);
    while k < |pieces|
      invariant 0 <= k <= n && g.Valid() && rc == 1
      invariant Cut(images, kept + Concat(pieces[..k]), g.cb) == Waiting(g.delivered, g.Kept())
    {
      PieceStep(images, kept, pieces, k, g.delivered, g.Kept(), g.cb);
      TooLongHere(images, kept, pieces, k, g.gatherMax, g.cb, g.delivered, g.kept);
      if k < n {
        PrefixFlows(images, kept, pieces, k + 1, n, g.cb);
      }
      rc := g.GatherMem(pieces[k]);
      if rc == -2 {
        return;
      }
      if rc != 1 {
        NoneReached(images, kept, pieces, k + 1, g.gatherMax, g.cb);
        return;
      }
      k := k + 1;
    }
    assert pieces[..|pieces|] == pieces;
  }

  lemma TooLongHere(images: seq<bytes>, kept: bytes, pieces: seq<bytes>, k: nat, max: nat, cb: Callback, delivered: seq<bytes>, now: Option<bytes>)
    requires k < |pieces| && (now.Some? ==> now.value != [])
    requires Cut(images, kept + Concat(pieces[..k]), cb) == Waiting(delivered, if now.Some? then now.value else [])
    ensures TooLongAt(images, kept, pieces, k, max, cb) <==> max > 0 && now.Some? && |now.value| + |pieces[k]| > max
  {
    hide Cut, Concat;
  }

  // A prefix of a stream that declares no empty image declares none.
  lemma PrefixFlows(images: seq<bytes>, kept: bytes, pieces: seq<bytes>, k: nat, n: nat, cb: Callback)
    requires k <= n <= |pieces| && Flows(images, kept + Concat(pieces[..n]), cb)
    ensures Flows(images, kept + Concat(pieces[..k]), cb)
  {
    hide Cut;
    ConcatSplit(pieces[..n], k);
    assert pieces[..n][..k] == pieces[..k];
    var rest := ConcatFrom(pieces[..n], k);
    assert kept + Concat(pieces[..n]) == (kept + Concat(pieces[..k])) + rest;
    SplitInvariant(images, kept + Concat(pieces[..k]), rest, cb);
  }

  // Behind a failure no piece is reached.
  lemma NoneReached(images: seq<bytes>, kept: bytes, pieces: seq<bytes>, k: nat, max: nat, cb: Callback)
    requires k <= |pieces| && !Cut(images, kept + Concat(pieces[..k]), cb).Waiting?
    ensures forall j :: k <= j < |pieces| ==> !TooLongAt(images, kept, pieces, j, max, cb)
  {
    hide Cut;
    forall j | k <= j < |pieces| ensures !TooLongAt(images, kept, pieces, j, max, cb) {
      ConcatSplit(pieces[..j], k);
      assert pieces[..j][..k] == pieces[..k];
      var rest := ConcatFrom(pieces[..j], k);
      assert kept + Concat(pieces[..j]) == (kept + Concat(pieces[..k])) + rest;
      SplitInvariant(images, kept + Concat(pieces[..k]), rest, cb);
    }
  }

  lemma NoPieces(kept: bytes, pieces: seq<bytes>)
    ensures kept + Concat(pieces[..0]) == kept
  {
  }

  lemma PieceStep(images: seq<bytes>, kept: bytes, pieces: seq<bytes>, k: nat, delivered: seq<bytes>, left: bytes, cb: Callback)
    requires k < |pieces| && Cut(images, kept + Concat(pieces[..k]), cb) == Waiting(delivered, left)
    ensures var here := Cut(images, kept + Concat(pieces[..k + 1]), cb);
      && here == Cut(delivered, left + pieces[k], cb)
      && (!here.Waiting? ==> Cut(images, kept + Concat(pieces), cb) == here)
  {
    hide Cut;
    var soFar := kept + Concat(pieces[..k]);
    assert pieces[..k + 1][..k] == pieces[..k];
    assert soFar + pieces[k] == kept + Concat(pieces[..k + 1]);
    SplitInvariant(images, soFar, pieces[k], cb);
    ConcatSplit(pieces, k + 1);
    assert kept + Concat(pieces) == (kept + Concat(pieces[..k + 1])) + ConcatFrom(pieces, k + 1);
    SplitInvariant(images, kept + Concat(pieces[..k + 1]), ConcatFrom(pieces, k + 1), cb);
  }

  ghost function ConcatFrom(parts: seq<bytes>, k: nat): bytes
    requires k <= |parts|
    decreases |parts| - k
  {
    if k == |parts| then [] else parts[k] + ConcatFrom(parts, k + 1)
  }

  lemma {:induction false} ConcatSplit(parts: seq<bytes>, k: nat)
    requires k <= |parts|
    ensures Concat(parts) == Concat(parts[..k]) + ConcatFrom(parts, k)
    decreases |parts| - k
  {
    if k == |parts| {
      assert parts[..k] == parts;
    } else {
      ConcatSplit(parts, k + 1);
      assert parts[..k + 1][..k] == parts[..k];
    }
  }

  // For every way to cut a stream the limit does no harm if and only if it
  // covers the stream.
  lemma LimitForEveryCut(stream: bytes, max: nat, cb: Callback)
    requires |stream| >= 2
    ensures (forall pieces: seq<bytes> :: Concat(pieces) == stream ==> FirstTooLong([], [], pieces, 0, max, cb) == |pieces|)
      <==> max == 0 || |stream| <= max
  {
    hide Cut, Concat;
    if max == 0 || |stream| <= max {
      forall pieces: seq<bytes> | Concat(pieces) == stream ensures FirstTooLong([], [], pieces, 0, max, cb) == |pieces| {
        forall k | 0 <= k < |pieces| ensures !TooLongAt([], [], pieces, k, max, cb) {
          LeftInside(pieces, k, cb);
        }
      }
    } else {
      var pieces: seq<bytes> := [stream[..1], stream[1..]];
      OneByteFirst(stream, cb);
      assert Concat(pieces) == stream && TooLongAt([], [], pieces, 1, max, cb);
    }
  }

  lemma LeftInside(pieces: seq<bytes>, k: nat, cb: Callback)
    requires k < |pieces|
    ensures var r := Cut([], [] + Concat(pieces[..k]), cb); r.Waiting? ==> |r.left| + |pieces[k]| <= |Concat(pieces)|
  {
    hide Cut;
    ConcatSplit(pieces, k);
    LeftIsUndelivered([], [] + Concat(pieces[..k]), cb);
  }

  lemma OneByteFirst(stream: bytes, cb: Callback)
    requires |stream| >= 2
    ensures var pieces: seq<bytes> := [stream[..1], stream[1..]];
      Concat(pieces) == stream && Cut([], [] + Concat(pieces[..1]), cb) == Waiting([], stream[..1])
  {
    var pieces: seq<bytes> := [stream[..1], stream[1..]];
    var one: seq<bytes> := pieces[..1];
    NoPieces([], one);
    assert one == [stream[..1]] && Concat(one) == stream[..1];
    assert [] + stream[..1] == stream[..1];
    CutEnd([], stream[..1], cb);
  }

  // A limit that leaves room for one piece beside all but the last byte of the
  // longest image does no harm to whole images.
  lemma LimitLargeEnough(sent: seq<bytes>, pieces: seq<bytes>, longest: nat, max: nat, cb: Callback)
    requires Concat(pieces) == Tail(sent) && longest > 8
    requires forall k :: 0 <= k < |sent| ==> Framed(sent[k]) && |sent[k]| <= longest
    requires forall k :: 0 <= k < |pieces| ==> |pieces[k]| + longest - 1 <= max
    ensures FirstTooLong([], [], pieces, 0, max, cb) == |pieces|
  {
    hide Cut, Concat, Tail, Framed;
    forall k | 0 <= k < |pieces| ensures !TooLongAt([], [], pieces, k, max, cb) {
      ConcatSplit(pieces, k);
      assert [] + Concat(pieces[..k]) == Concat(pieces[..k]) == Tail(sent)[..|Concat(pieces[..k])|];
      LeftWithinImage([], sent, |Concat(pieces[..k])|, longest, cb);
    }
  }

  lemma {:induction false} LeftWithinImage(before: seq<bytes>, sent: seq<bytes>, n: nat, longest: nat, cb: Callback)
    requires n <= |Tail(sent)| && longest > 8
    requires forall k :: 0 <= k < |sent| ==> Framed(sent[k]) && |sent[k]| <= longest
    ensures var r := Cut(before, Tail(sent)[..n], cb); r.Waiting? ==> |r.left| < longest
    decreases |sent|
  {
    hide Cut, DeclaredLength;
    var here := Tail(sent)[..n];
    if |here| <= 8 {
      CutEnd(before, here, cb);
    } else {
      CutStep(before, here, cb);
      var one, rest := sent[0], Tail(sent[1..]);
      HeadOf(one, rest);
      HeadOf(here, Tail(sent)[n..]);
      assert here + Tail(sent)[n..] == one + rest;
      if n >= |one| {
        assert here[..|one|] == one && here[|one|..] == rest[..n - |one|];
        LeftWithinImage(before + [one], sent[1..], n - |one|, longest, cb);
      }
    }
  }

  lemma TwentyBytes(image: bytes, cb: Callback)
    requires |image| == 20 && image[..3] == MAGIC && image[3] == 0 && image[4..8] == [20, 0, 0, 0]
    requires forall h: seq<bytes> :: cb(h) >= 0
    ensures Cut([], image, cb) == Waiting([image], []) && Cut([], image[..9], cb) == Waiting([], image[..9])
  {
    assert [] + [image] == [image];
    HeadOf(image[..9], image[9..]);
    assert image[..9] + image[9..] == image;
    assert DeclaredLength(image) == 20;
    assert image[..20] == image && image[20..] == [];
    assert Cut([image], [], cb) == Waiting([image], []);
  }

  lemma TwoPieces(image: bytes, max: nat, cb: Callback)
    requires |image| == 20 && image[..3] == MAGIC && image[3] == 0 && image[4..8] == [20, 0, 0, 0]
    requires 0 < max < 20 && forall h: seq<bytes> :: cb(h) >= 0
    ensures Concat([image]) == image && FirstTooLong([], [], [image], 0, max, cb) == 1
    ensures var pieces := [image[..9], image[9..]];
      FirstTooLong([], [], pieces, 0, max, cb) == 1 && Cut([], Concat(pieces[..1]), cb) == Waiting([], image[..9])
  {
    hide Cut;
    TwentyBytes(image, cb);
    CutEnd([], [], cb);
    var pieces: seq<bytes> := [image[..9], image[9..]];
    NoPieces([], pieces);
    NoPieces([], [image]);
    assert [image][..0] == [] && Concat([]) == [] && [] + image == image;
    assert pieces[..1] == [image[..9]] && pieces[..1][..0] == [] && [] + image[..9] == image[..9];
    assert !TooLongAt([], [], [image], 0, max, cb);
    assert !TooLongAt([], [], pieces, 0, max, cb);
    assert TooLongAt([], [], pieces, 1, max, cb);
  }

  // So below the length of the image the pieces do matter: the same 20 bytes
  // get through whole, but not when the first 9 arrive alone.
  method LimitDependsOnPieces(max: nat, cb: Callback) returns (image: bytes, whole: Gatherer, pieces: Gatherer, wholeCode: int, pieceCode: int)
    requires 0 < max < 20 && forall h: seq<bytes> :: cb(h) >= 0
    ensures wholeCode == 1 && whole.delivered == [image] && pieceCode == -2 && pieces.delivered == []
  {
    hide Cut, FirstTooLong, TooLongAt;
    image := MAGIC + [0, 20, 0, 0, 0] + seq(12, _ => 0);
    assert image[..3] == MAGIC && image[4..8] == [20, 0, 0, 0];
    TwentyBytes(image, cb);
    TwoPieces(image, max, cb);
    CutEnd([], [], cb);
    assert [] + image == image && [] + image[..9] == image[..9] && [image][..1] == [image];
    whole := new Gatherer(false, max, cb);
    wholeCode := FeedAll(whole, [image]);
    pieces := new Gatherer(false, max, cb);
    pieceCode := FeedAll(pieces, [image[..9], image[9..]]);
  }
}
