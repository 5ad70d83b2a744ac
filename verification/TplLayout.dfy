// Where the fields of a structure S(...) are: padding, element distance, and
// why no two fields of an array of structures overlap.
module TplLayout {
  import opened Bytes
  import opened TplSchema

  // The alignment of a field on a 64-bit host; pointers take 8 bytes.
  function Align(f: Field): nat {
    match f
    case Scalar(size, _) => size
    case Text(_) => 8
    case Blob => 8
  }

  function Width(f: Field): nat {
    match f
    case Scalar(size, num) => size * num
    case Text(num) => 8 * num
    case Blob => 16
  }

  // Atoms allowed in a structure: numbers of 1, 2, 4 or 8 bytes, and strings.
  predicate StructField(f: Field) {
    FieldOk(f) && (f.Scalar? ==> f.size in {1, 2, 4, 8}) && f != Blob
  }

  predicate StructFields(fs: seq<Field>) {
    fs != [] && forall k :: 0 <= k < |fs| ==> StructField(fs[k])
  }

  function AlignUp(x: nat, a: nat): nat
    requires 0 < a
  {
    (x + a - 1) / a * a
  }

  // Field j's distance from the start of the structure.
  function Offset(fs: seq<Field>, j: nat): nat
    requires j < |fs| && StructFields(fs)
  {
    if j == 0 then 0 else AlignUp(Offset(fs, j - 1) + Width(fs[j - 1]), Align(fs[j]))
  }

  function Widest(fs: seq<Field>): (w: nat)
    requires StructFields(fs)
    ensures forall k :: 0 <= k < |fs| ==> Align(fs[k]) <= w
    ensures w in {1, 2, 4, 8}
    decreases |fs|
  {
    var last := Align(fs[|fs| - 1]);
    if |fs| == 1 then last
    else
      var w := Widest(fs[..|fs| - 1]);
      assert forall k :: 0 <= k < |fs| - 1 ==> fs[..|fs| - 1][k] == fs[k];
      if last > w then last else w
  }

  // Distance between consecutive structures of an array.
  function InterElt(fs: seq<Field>): nat
    requires StructFields(fs)
  {
    AlignUp(Offset(fs, |fs| - 1) + Width(fs[|fs| - 1]), Widest(fs))
  }

  // calc_field_addr: the next field behind the previous one, padded.
  function CalcFieldAddr(prevAddr: int, prevWidth: nat, alignSz: nat, structAddr: int): int
    requires 0 < alignSz && structAddr <= prevAddr
  {
    structAddr + AlignUp(prevAddr - structAddr + prevWidth, alignSz)
  }

  lemma OffsetStep(fs: seq<Field>, j: nat)
    requires StructFields(fs) && j < |fs|
    ensures 0 < Align(fs[j])
    ensures Offset(fs, j) == if j == 0 then 0 else AlignUp(Offset(fs, j - 1) + Width(fs[j - 1]), Align(fs[j]))
  {
    hide AlignUp;
  }

  lemma AlignUpBounds(x: nat, a: nat)
    requires a in {1, 2, 4, 8}
    ensures x <= AlignUp(x, a) < x + a && AlignUp(x, a) % a == 0
  {
  }

  // Fields are aligned, in order, and do not overlap within one structure,
  // which ends before the next one starts.
  lemma {:induction false} FieldsInOrder(fs: seq<Field>, i: nat, j: nat)
    requires StructFields(fs) && i < j < |fs|
    ensures Offset(fs, i) + Width(fs[i]) <= Offset(fs, j)
    decreases j
  {
    hide AlignUp, Offset, Width;
    OffsetStep(fs, j);
    AlignUpBounds(Offset(fs, j - 1) + Width(fs[j - 1]), Align(fs[j]));
    if i < j - 1 {
      FieldsInOrder(fs, i, j - 1);
    }
  }

  lemma FieldAligned(fs: seq<Field>, j: nat)
    requires StructFields(fs) && j < |fs|
    ensures 0 < Align(fs[j]) && Offset(fs, j) % Align(fs[j]) == 0
    ensures Offset(fs, j) + Width(fs[j]) <= InterElt(fs) && InterElt(fs) % Widest(fs) == 0
  {
    hide AlignUp, Offset, Width, Widest;
    OffsetStep(fs, j);
    AlignOk(fs[j]);
    if j > 0 {
      AlignUpBounds(Offset(fs, j - 1) + Width(fs[j - 1]), Align(fs[j]));
    }
    AlignUpBounds(Offset(fs, |fs| - 1) + Width(fs[|fs| - 1]), Widest(fs));
    if j < |fs| - 1 {
      FieldsInOrder(fs, j, |fs| - 1);
    }
  }

  // No padding but what alignment asks for: every field and every next structure
  // lies at the first aligned place.
  lemma LeastPadding(fs: seq<Field>, j: nat, x: nat)
    requires StructFields(fs) && j < |fs|
    ensures j == 0 ==> Offset(fs, j) == 0
    ensures j > 0 && Offset(fs, j - 1) + Width(fs[j - 1]) <= x < Offset(fs, j) ==> Align(fs[j]) > 0 && x % Align(fs[j]) != 0
    ensures Offset(fs, |fs| - 1) + Width(fs[|fs| - 1]) <= x < InterElt(fs) ==> x % Widest(fs) != 0
  {
    hide AlignUp, Offset, Width, Widest;
    OffsetStep(fs, j);
    AlignOk(fs[j]);
    if j > 0 && Offset(fs, j - 1) + Width(fs[j - 1]) <= x < Offset(fs, j) {
      FirstAligned(Offset(fs, j - 1) + Width(fs[j - 1]), Align(fs[j]), x);
    }
    if Offset(fs, |fs| - 1) + Width(fs[|fs| - 1]) <= x < InterElt(fs) {
      FirstAligned(Offset(fs, |fs| - 1) + Width(fs[|fs| - 1]), Widest(fs), x);
    }
  }

  lemma FirstAligned(from: nat, a: nat, x: nat)
    requires a in {1, 2, 4, 8} && from <= x < AlignUp(from, a)
    ensures x % a != 0
  {
  }

  // The widest field is one of them.
  lemma {:induction false} WidestIsOne(fs: seq<Field>)
    requires StructFields(fs)
    ensures exists k :: 0 <= k < |fs| && Align(fs[k]) == Widest(fs)
    decreases |fs|
  {
    hide Align;
    if |fs| == 1 || Align(fs[|fs| - 1]) > Widest(fs[..|fs| - 1]) {
      assert Align(fs[|fs| - 1]) == Widest(fs);
    } else {
      WidestIsOne(fs[..|fs| - 1]);
      var k :| 0 <= k < |fs| - 1 && Align(fs[..|fs| - 1][k]) == Widest(fs[..|fs| - 1]);
      assert fs[k] == fs[..|fs| - 1][k];
    }
  }

  lemma AlignOk(f: Field)
    requires StructField(f)
    ensures Align(f) in {1, 2, 4, 8}
  {
  }

  // Field j of structure k.
  function FieldAddr(fs: seq<Field>, structAddr: int, j: nat, k: nat): int
    requires StructFields(fs) && j < |fs|
  {
    structAddr + k * InterElt(fs) + Offset(fs, j)
  }

  lemma Multiple(k: nat, w: nat, a: nat)
    requires a in {1, 2, 4, 8} && w % a == 0
    ensures (k * w) % a == 0
  {
    var q := w / a;
    assert w == q * a;
    assert k * w == (k * q) * a;
    MultipleOf(k * q, a);
  }

  lemma MultipleOf(n: int, a: nat)
    requires a in {1, 2, 4, 8}
    ensures (n * a) % a == 0
  {
    if a == 2 {
      assert n * a == n * 2 && (n * 2) % 2 == 0;
    } else if a == 4 {
      assert n * a == n * 4 && (n * 4) % 4 == 0;
    } else if a == 8 {
      assert n * a == n * 8 && (n * 8) % 8 == 0;
    }
  }

  lemma Divides(a: nat, b: nat, x: int)
    requires a in {1, 2, 4, 8} && b in {1, 2, 4, 8} && a <= b && x % b == 0
    ensures x % a == 0
  {
    var c := if a == b then 1 else if 2 * a == b then 2 else if 4 * a == b then 4 else 8;
    var q := x / b;
    assert b == c * a;
    assert x == b * q;
    assert x == (q * c) * a;
    MultipleOf(q * c, a);
  }

  // When the array of structures starts aligned, so does every field in it.
  lemma EveryFieldAligned(fs: seq<Field>, structAddr: int, j: nat, k: nat)
    requires StructFields(fs) && j < |fs| && structAddr % Widest(fs) == 0
    ensures FieldAddr(fs, structAddr, j, k) % Align(fs[j]) == 0
  {
    hide Offset, InterElt;
    var a, w := Align(fs[j]), Widest(fs);
    FieldAligned(fs, j);
    Divides(a, w, structAddr);
    Divides(a, w, InterElt(fs));
    Multiple(k, InterElt(fs), a);
    SumAligned(structAddr, k * InterElt(fs), Offset(fs, j), a);
  }

  lemma SumAligned(x: int, y: int, z: int, a: nat)
    requires a in {1, 2, 4, 8} && x % a == 0 && y % a == 0 && z % a == 0
    ensures (x + y + z) % a == 0
  {
  }

  // Two different fields of an array of structures occupy disjoint memory.
  lemma FieldsDisjoint(fs: seq<Field>, structAddr: int, j: nat, k: nat, j': nat, k': nat)
    requires StructFields(fs) && j < |fs| && j' < |fs| && (k < k' || (k == k' && j < j'))
    ensures FieldAddr(fs, structAddr, j, k) + Width(fs[j]) <= FieldAddr(fs, structAddr, j', k')
  {
    hide Offset, InterElt, Width;
    FieldAligned(fs, j);
    if k == k' {
      FieldsInOrder(fs, j, j');
    } else {
      StepsApart(k, k', InterElt(fs));
    }
  }

  lemma {:induction false} StepsApart(k: nat, k': nat, d: nat)
    requires k < k'
    decreases k'
    ensures k * d + d <= k' * d
  {
    if k + 1 < k' {
      StepsApart(k, k' - 1, d);
    }
  }
}
