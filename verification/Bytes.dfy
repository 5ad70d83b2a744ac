// Bytes, 32-bit words in either byte order, and the meaning of a word.
module Bytes {
  type byte = b: int | 0 <= b < 256
  type bytes = seq<byte>

  const TWO_TO_THE_31: int := 0x8000_0000
  const TWO_TO_THE_32: int := 0x1_0000_0000

  datatype Option<+T> = None | Some(value: T)

  function Reverse(b: bytes): (r: bytes)
    ensures |r| == |b|
    ensures forall k :: 0 <= k < |b| ==> r[k] == b[|b| - 1 - k]
  {
    seq(|b|, k requires 0 <= k < |b| => b[|b| - 1 - k])
  }

  lemma ReverseTwice(b: bytes)
    ensures Reverse(Reverse(b)) == b
  {
    var r := Reverse(b);
    assert forall k :: 0 <= k < |b| ==> Reverse(r)[k] == r[|b| - 1 - k] == b[k];
  }

  // The natural number a word stands for on a host of the given byte order.
  function Numeric(word: bytes, big: bool): nat {
    if big then NatLE(Reverse(word)) else NatLE(word)
  }

  function NatLE(b: bytes): nat {
    if b == [] then 0 else b[0] as int + 256 * NatLE(b[1..])
  }

  // The four bytes of a uint32_t in the given byte order.
  function Word32(n: nat, big: bool): (r: bytes)
    requires n < TWO_TO_THE_32
    ensures |r| == 4
  {
    var q1 := n / 256;
    var q2 := q1 / 256;
    var le: bytes := [n % 256, q1 % 256, q2 % 256, q2 / 256];
    if big then Reverse(le) else le
  }

  function ReadWord32(b: bytes, big: bool): (n: nat)
    requires |b| == 4
    ensures n < TWO_TO_THE_32
  {
    var le := if big then Reverse(b) else b;
    le[0] as int + 256 * (le[1] as int + 256 * (le[2] as int + 256 * le[3] as int))
  }

  lemma WordRoundTrip(n: nat, big: bool)
    requires n < TWO_TO_THE_32
    ensures ReadWord32(Word32(n, big), big) == n
  {
    ReverseTwice(Word32(n, false));
  }

  // Changing the byte order reverses the word, and nothing else.
  lemma WordOfOtherOrder(n: nat, big: bool)
    requires n < TWO_TO_THE_32
    ensures Word32(n, !big) == Reverse(Word32(n, big))
  {
    ReverseTwice(Word32(n, false));
  }

  // tpl_byteswap: in-place reversal, both ends moving to the middle.
  method ByteSwap(word: array<byte>)
    modifies word
    ensures word[..] == Reverse(old(word[..]))
  {
    var len := word.Length;
    var i := 0;
    while i < len / 2
      invariant 0 <= i <= len / 2
      invariant forall k :: 0 <= k < i ==> word[k] == old(word[len - 1 - k]) && word[len - 1 - k] == old(word[k])
      invariant forall k :: i <= k < len - i ==> word[k] == old(word[k])
    {
      var c := word[i];
      word[i] := word[len - 1 - i];
      word[len - 1 - i] := c;
      i := i + 1;
    }
    assert forall k :: 0 <= k < len ==> word[k] == old(word[len - 1 - k]);
  }

  // A word written on one host and reversed when the orders differ means the
  // same number on the other host.
  lemma SwapKeepsNumber(word: bytes, writer: bool, reader: bool)
    ensures Numeric(if writer != reader then Reverse(word) else word, reader) == Numeric(word, writer)
  {
    ReverseTwice(word);
  }

  // memcpy the length word, swap it when the image comes from a host of the
  // other byte order.
  lemma SwappedWord(word: bytes, imageBig: bool, hostBig: bool)
    requires |word| == 4
    ensures ReadWord32(if imageBig != hostBig then Reverse(word) else word, hostBig) == ReadWord32(word, imageBig)
  {
    ReverseTwice(word);
  }
}
