// JSON values and the order Value::operator< puts them in.
module JsonValue {
  import opened Bytes

  // An object's members are kept sorted by name, as std::map keeps them. Real
  // stands for a number that is not an integer, known only by its text.
  datatype Value =
    | Null
    | Int(int)
    | UInt(nat)
    | Real(text: string)
    | Str(text: string)
    | Bool(bool)
    | Arr(items: seq<Value>)
    | Obj(members: seq<Member>)

  datatype Member = Member(name: string, value: Value)

  predicate RealFree(v: Value)
    decreases v
  {
    match v
    case Real(_) => false
    case Arr(items) => forall x :: x in items ==> RealFree(x)
    case Obj(members) => forall m :: m in members ==> RealFree(m.value)
    case _ => true
  }

  // ----- keys and strings -----

  // memcmp over the first n bytes.
  function Memcmp(a: string, b: string, n: nat): int
    requires n <= |a| && n <= |b|
  {
    if n == 0 then 0
    else
      var before := Memcmp(a, b, n - 1);
      if before != 0 then before else a[n - 1] as int - b[n - 1] as int
  }

  function Shorter(a: string, b: string): (n: nat)
    ensures n <= |a| && n <= |b| && (n == |a| || n == |b|)
  {
    if |a| < |b| then |a| else |b|
  }

  // CZString::operator<, and the comparison of two string values.
  predicate TextLess(a: string, b: string) {
    var comp := Memcmp(a, b, Shorter(a, b));
    comp < 0 || (comp == 0 && |a| < |b|)
  }

  // CZString::operator==, and the equality of two string values.
  predicate TextSame(a: string, b: string) {
    |a| == |b| && Memcmp(a, b, |a|) == 0
  }

  // Where memcmp finds the first difference.
  lemma {:induction false} MemcmpFinds(a: string, b: string, n: nat) returns (d: nat)
    requires n <= |a| && n <= |b|
    ensures d <= n && forall k :: 0 <= k < d ==> a[k] == b[k]
    ensures d == n ==> Memcmp(a, b, n) == 0
    ensures d < n ==> a[d] != b[d] && Memcmp(a, b, n) == a[d] as int - b[d] as int
  {
    if n == 0 {
      d := 0;
    } else {
      d := MemcmpFinds(a, b, n - 1);
      if d == n - 1 && a[d] == b[d] {
        d := n;
      }
    }
  }

  // TextLess compares at the first difference; a prefix comes first.
  lemma TextLessAt(a: string, b: string) returns (d: nat)
    ensures d <= |a| && d <= |b| && forall k :: 0 <= k < d ==> a[k] == b[k]
    ensures d == |a| == |b| || d == |a| < |b| || d == |b| < |a| || (d < |a| && d < |b| && a[d] != b[d])
    ensures TextLess(a, b) <==> d < |b| && (d == |a| || a[d] < b[d])
    ensures TextLess(b, a) <==> d < |a| && (d == |b| || b[d] < a[d])
    ensures d == |a| == |b| <==> a == b
  {
    d := MemcmpFinds(a, b, Shorter(a, b));
    var e := MemcmpFinds(b, a, Shorter(b, a));
    if d < |a| && d < |b| {
      assert a[d] != b[d];
    }
  }

  lemma TextTotal(a: string, b: string)
    ensures !(TextLess(a, b) && TextLess(b, a))
    ensures !TextLess(a, b) && !TextLess(b, a) <==> a == b
  {
    var d := TextLessAt(a, b);
  }

  lemma TextTransitive(a: string, b: string, c: string)
    requires TextLess(a, b) && TextLess(b, c)
    ensures TextLess(a, c)
  {
    hide TextLess;
    var d := TextLessAt(a, b);
    var e := TextLessAt(b, c);
    var f := TextLessAt(a, c);
    var m := if d < e then d else e;
    assert forall k :: 0 <= k < m ==> a[k] == b[k] && b[k] == c[k];
  }

  lemma TextSameIsEqual(a: string, b: string)
    ensures TextSame(a, b) <==> a == b
  {
    if |a| == |b| {
      var d := MemcmpFinds(a, b, |a|);
    }
  }

  // ----- values -----

  // The position of the type in enum ValueType.
  function Type(v: Value): nat {
    match v
    case Null => 0
    case Int(_) => 1
    case UInt(_) => 2
    case Real(_) => 3
    case Str(_) => 4
    case Bool(_) => 5
    case Arr(_) => 6
    case Obj(_) => 7
  }

  // A size_t difference cast to a 32-bit int.
  function AsInt(delta: int): int {
    (delta + TWO_TO_THE_31) % TWO_TO_THE_32 - TWO_TO_THE_31
  }

  function Weight(v: Value): nat
    decreases v, 1
  {
    match v
    case Arr(items) => 1 + ItemsWeight(items)
    case Obj(members) => 1 + MembersWeight(members)
    case _ => 0
  }

  function ItemsWeight(xs: seq<Value>): nat
    decreases xs, 0
  {
    if xs == [] then 0 else 1 + Weight(xs[0]) + ItemsWeight(xs[1..])
  }

  function MembersWeight(ms: seq<Member>): nat
    decreases ms, 0
  {
    if ms == [] then 0 else 1 + Weight(ms[0].value) + MembersWeight(ms[1..])
  }

  // Value::operator<
  predicate Less(a: Value, b: Value)
    decreases Weight(a) + Weight(b)
  {
    if Type(a) != Type(b) then Type(a) < Type(b)
    else match (a, b)
      case (Int(i), Int(j)) => i < j
      case (UInt(i), UInt(j)) => i < j
      case (Str(s), Str(t)) => TextLess(s, t)
      case (Bool(p), Bool(q)) => !p && q
      case (Arr(xs), Arr(ys)) =>
        var delta := AsInt(|xs| - |ys|);
        if delta != 0 then delta < 0 else ItemsLess(xs, ys)
      case (Obj(ms), Obj(ns)) =>
        var delta := AsInt(|ms| - |ns|);
        if delta != 0 then delta < 0 else MembersLess(ms, ns)
      case _ => false
  }

  // std::map's operator< on array elements: keys at equal places are equal.
  predicate ItemsLess(xs: seq<Value>, ys: seq<Value>)
    decreases ItemsWeight(xs) + ItemsWeight(ys)
  {
    if ys == [] then false
    else if xs == [] then true
    else if Less(xs[0], ys[0]) then true
    else if Less(ys[0], xs[0]) then false
    else ItemsLess(xs[1..], ys[1..])
  }

  // ... and on the members of an object: pairs of name and value.
  predicate MembersLess(ms: seq<Member>, ns: seq<Member>)
    decreases MembersWeight(ms) + MembersWeight(ns)
  {
    if ns == [] then false
    else if ms == [] then true
    else if PairLess(ms[0].name, ns[0].name, Less(ms[0].value, ns[0].value)) then true
    else if PairLess(ns[0].name, ms[0].name, Less(ns[0].value, ms[0].value)) then false
    else MembersLess(ms[1..], ns[1..])
  }

  // std::pair's operator<
  predicate PairLess(a: string, b: string, valueLess: bool) {
    TextLess(a, b) || (!TextLess(b, a) && valueLess)
  }

  // Value::operator==
  predicate Same(a: Value, b: Value)
    decreases a, 1
  {
    match (a, b)
    case (Null, Null) => true
    case (Int(i), Int(j)) => i == j
    case (UInt(i), UInt(j)) => i == j
    case (Real(s), Real(t)) => s == t
    case (Str(s), Str(t)) => TextSame(s, t)
    case (Bool(p), Bool(q)) => p == q
    case (Arr(xs), Arr(ys)) => |xs| == |ys| && ItemsSame(xs, ys)
    case (Obj(ms), Obj(ns)) => |ms| == |ns| && MembersSame(ms, ns)
    case _ => false
  }

  predicate ItemsSame(xs: seq<Value>, ys: seq<Value>)
    requires |xs| == |ys|
    decreases xs, 0
  {
    xs == [] || (Same(xs[0], ys[0]) && ItemsSame(xs[1..], ys[1..]))
  }

  predicate MembersSame(ms: seq<Member>, ns: seq<Member>)
    requires |ms| == |ns|
    decreases ms, 0
  {
    ms == [] || (TextSame(ms[0].name, ns[0].name) && Same(ms[0].value, ns[0].value) && MembersSame(ms[1..], ns[1..]))
  }

  function Compare(a: Value, b: Value): int {
    if Less(a, b) then -1 else if Less(b, a) then 1 else 0
  }

  // ----- the order is strict and total -----

  predicate AllRealFree(xs: seq<Value>) {
    forall x :: x in xs ==> RealFree(x)
  }

  predicate MembersRealFree(ms: seq<Member>) {
    forall m :: m in ms ==> RealFree(m.value)
  }

  // Where the comparison is decided, in the values or at their first different
  // elements, two containers differ in size by 2^31 modulo 2^32.
  predicate Opposed(a: Value, b: Value)
    decreases a, 1
  {
    match (a, b)
    case (Arr(xs), Arr(ys)) =>
      OppositeSizes(|xs| - |ys|) || (AsInt(|xs| - |ys|) == 0 && ItemsOpposed(xs, ys))
    case (Obj(ms), Obj(ns)) =>
      OppositeSizes(|ms| - |ns|) || (AsInt(|ms| - |ns|) == 0 && MembersOpposed(ms, ns))
    case _ => false
  }

  predicate OppositeSizes(delta: int) {
    delta % TWO_TO_THE_32 == TWO_TO_THE_31
  }

  predicate ItemsOpposed(xs: seq<Value>, ys: seq<Value>)
    decreases xs, 0
  {
    xs != [] && ys != [] && (Opposed(xs[0], ys[0]) || (xs[0] == ys[0] && ItemsOpposed(xs[1..], ys[1..])))
  }

  predicate MembersOpposed(ms: seq<Member>, ns: seq<Member>)
    decreases ms, 0
  {
    && ms != [] && ns != [] && ms[0].name == ns[0].name
    && (Opposed(ms[0].value, ns[0].value) || (ms[0] == ns[0] && MembersOpposed(ms[1..], ns[1..])))
  }

  lemma AsIntKeeps(delta: int)
    requires -TWO_TO_THE_31 <= delta < TWO_TO_THE_31
    ensures AsInt(delta) == delta
  {
  }

  // One of a < b, a == b, b < a; and no two of them unless sizes stand opposite.
  lemma {:induction false} Trichotomy(a: Value, b: Value)
    requires RealFree(a) && RealFree(b)
    ensures Less(a, b) && Less(b, a) <==> Opposed(a, b)
    ensures !Less(a, b) && !Less(b, a) <==> a == b
    decreases a, 1
  {
    hide AsInt, TextLess, ItemsLess, MembersLess, OppositeSizes, ItemsOpposed, MembersOpposed;
    if Type(a) == Type(b) {
      match a
      case Str(s) =>
        TextTotal(s, b.text);
      case Arr(xs) =>
        AsIntOpposite(|xs| - |b.items|);
        AsIntKeeps(0);
        ItemsTrichotomy(xs, b.items);
      case Obj(ms) =>
        AsIntOpposite(|ms| - |b.members|);
        AsIntKeeps(0);
        MembersTrichotomy(ms, b.members);
      case _ =>
    }
  }

  lemma {:induction false} ItemsTrichotomy(xs: seq<Value>, ys: seq<Value>)
    requires AllRealFree(xs) && AllRealFree(ys)
    ensures ItemsLess(xs, ys) && ItemsLess(ys, xs) <==> ItemsOpposed(xs, ys)
    ensures !ItemsLess(xs, ys) && !ItemsLess(ys, xs) <==> xs == ys
    decreases xs, 0
  {
    hide Less, RealFree, Opposed;
    if xs != [] && ys != [] {
      Trichotomy(xs[0], ys[0]);
      ItemsTrichotomy(xs[1..], ys[1..]);
      HeadAndTail(xs, ys);
    }
  }

  lemma HeadAndTail<T>(xs: seq<T>, ys: seq<T>)
    requires xs != [] && ys != []
    ensures xs == ys <==> xs[0] == ys[0] && xs[1..] == ys[1..]
  {
    assert xs == [xs[0]] + xs[1..] && ys == [ys[0]] + ys[1..];
  }

  lemma {:induction false} MembersTrichotomy(ms: seq<Member>, ns: seq<Member>)
    requires MembersRealFree(ms) && MembersRealFree(ns)
    ensures MembersLess(ms, ns) && MembersLess(ns, ms) <==> MembersOpposed(ms, ns)
    ensures !MembersLess(ms, ns) && !MembersLess(ns, ms) <==> ms == ns
    decreases ms, 0
  {
    hide Less, RealFree, TextLess, Opposed;
    if ms != [] && ns != [] {
      TextTotal(ms[0].name, ns[0].name);
      Trichotomy(ms[0].value, ns[0].value);
      MembersTrichotomy(ms[1..], ns[1..]);
      HeadAndTail(ms, ns);
    }
  }

  // compare() is 0 exactly when operator== holds, and operator== is equality;
  // it changes sign with its arguments exactly when no sizes stand opposite.
  lemma CompareIsEquality(a: Value, b: Value)
    requires RealFree(a) && RealFree(b)
    ensures Compare(a, b) == 0 <==> Same(a, b)
    ensures Same(a, b) <==> a == b
    ensures Compare(a, b) == -Compare(b, a) <==> !Opposed(a, b)
  {
    Trichotomy(a, b);
    SameIsEqual(a, b);
  }

  lemma {:induction false} SameIsEqual(a: Value, b: Value)
    ensures Same(a, b) <==> a == b
    decreases a, 1
  {
    hide TextSame;
    match a
    case Str(s) =>
      if b.Str? { TextSameIsEqual(s, b.text); }
    case Arr(xs) =>
      if b.Arr? && |xs| == |b.items| { ItemsSameIsEqual(xs, b.items); }
    case Obj(ms) =>
      if b.Obj? && |ms| == |b.members| { MembersSameIsEqual(ms, b.members); }
    case _ =>
  }

  lemma {:induction false} ItemsSameIsEqual(xs: seq<Value>, ys: seq<Value>)
    requires |xs| == |ys|
    ensures ItemsSame(xs, ys) <==> xs == ys
    decreases xs, 0
  {
    hide Same;
    if xs != [] {
      SameIsEqual(xs[0], ys[0]);
      ItemsSameIsEqual(xs[1..], ys[1..]);
      HeadAndTail(xs, ys);
    }
  }

  lemma {:induction false} MembersSameIsEqual(ms: seq<Member>, ns: seq<Member>)
    requires |ms| == |ns|
    ensures MembersSame(ms, ns) <==> ms == ns
    decreases ms, 0
  {
    hide Same, TextSame;
    if ms != [] {
      TextSameIsEqual(ms[0].name, ns[0].name);
      SameIsEqual(ms[0].value, ns[0].value);
      MembersSameIsEqual(ms[1..], ns[1..]);
      HeadAndTail(ms, ns);
    }
  }

  // Containers at the same place differ in size by less than 2^31.
  predicate Near(a: Value, b: Value)
    decreases a, 1
  {
    match (a, b)
    case (Arr(xs), Arr(ys)) => NearSizes(|xs| - |ys|) && (|xs| == |ys| ==> ItemsNear(xs, ys))
    case (Obj(ms), Obj(ns)) => NearSizes(|ms| - |ns|) && (|ms| == |ns| ==> MembersNear(ms, ns))
    case _ => true
  }

  predicate NearSizes(delta: int) {
    -TWO_TO_THE_31 < delta < TWO_TO_THE_31
  }

  predicate ItemsNear(xs: seq<Value>, ys: seq<Value>)
    decreases xs, 0
  {
    xs != [] && ys != [] ==> Near(xs[0], ys[0]) && ItemsNear(xs[1..], ys[1..])
  }

  predicate MembersNear(ms: seq<Member>, ns: seq<Member>)
    decreases ms, 0
  {
    ms != [] && ns != [] ==> Near(ms[0].value, ns[0].value) && MembersNear(ms[1..], ns[1..])
  }

  lemma NearNotOpposite(delta: int)
    requires NearSizes(delta)
    ensures !OppositeSizes(delta) && AsInt(delta) == delta
  {
  }

  lemma {:induction false} NearNotOpposed(a: Value, b: Value)
    requires Near(a, b)
    ensures !Opposed(a, b)
    decreases a, 1
  {
    hide AsInt, OppositeSizes, NearSizes;
    match (a, b)
    case (Arr(xs), Arr(ys)) =>
      NearNotOpposite(|xs| - |ys|);
      if |xs| == |ys| {
        ItemsNearNotOpposed(xs, ys);
      }
    case (Obj(ms), Obj(ns)) =>
      NearNotOpposite(|ms| - |ns|);
      if |ms| == |ns| {
        MembersNearNotOpposed(ms, ns);
      }
    case _ =>
  }

  lemma {:induction false} ItemsNearNotOpposed(xs: seq<Value>, ys: seq<Value>)
    requires ItemsNear(xs, ys)
    ensures !ItemsOpposed(xs, ys)
    decreases xs, 0
  {
    hide Opposed, Near;
    if xs != [] && ys != [] {
      NearNotOpposed(xs[0], ys[0]);
      ItemsNearNotOpposed(xs[1..], ys[1..]);
    }
  }

  lemma {:induction false} MembersNearNotOpposed(ms: seq<Member>, ns: seq<Member>)
    requires MembersNear(ms, ns)
    ensures !MembersOpposed(ms, ns)
    decreases ms, 0
  {
    hide Opposed, Near;
    if ms != [] && ns != [] {
      NearNotOpposed(ms[0].value, ns[0].value);
      MembersNearNotOpposed(ms[1..], ns[1..]);
    }
  }

  lemma {:induction false} Transitive(a: Value, b: Value, c: Value)
    requires RealFree(a) && RealFree(b) && RealFree(c) && Near(a, b) && Near(b, c) && Near(a, c)
    requires Less(a, b) && Less(b, c)
    ensures Less(a, c)
    decreases a, 1
  {
    hide AsInt, TextLess, ItemsLess, MembersLess, NearSizes, OppositeSizes;
    if Type(a) == Type(b) == Type(c) {
      match a
      case Str(s) =>
        TextTransitive(s, b.text, c.text);
      case Arr(xs) =>
        NearNotOpposite(|xs| - |b.items|);
        NearNotOpposite(|b.items| - |c.items|);
        NearNotOpposite(|xs| - |c.items|);
        if |xs| == |b.items| == |c.items| {
          ItemsTransitive(xs, b.items, c.items);
        }
      case Obj(ms) =>
        NearNotOpposite(|ms| - |b.members|);
        NearNotOpposite(|b.members| - |c.members|);
        NearNotOpposite(|ms| - |c.members|);
        if |ms| == |b.members| == |c.members| {
          MembersTransitive(ms, b.members, c.members);
        }
      case _ =>
    }
  }

  lemma {:induction false} ItemsTransitive(xs: seq<Value>, ys: seq<Value>, zs: seq<Value>)
    requires AllRealFree(xs) && AllRealFree(ys) && AllRealFree(zs)
    requires ItemsNear(xs, ys) && ItemsNear(ys, zs) && ItemsNear(xs, zs)
    requires ItemsLess(xs, ys) && ItemsLess(ys, zs)
    ensures ItemsLess(xs, zs)
    decreases xs, 0
  {
    hide Less, RealFree, Near, Opposed;
    if xs != [] {
      var x, y, z := xs[0], ys[0], zs[0];
      PairInOrder(x, y);
      PairInOrder(y, z);
      PairInOrder(x, z);
      if Less(x, y) && Less(y, z) {
        Transitive(x, y, z);
      } else if x == y == z {
        ItemsTransitive(xs[1..], ys[1..], zs[1..]);
      }
    }
  }

  lemma PairInOrder(x: Value, y: Value)
    requires RealFree(x) && RealFree(y) && Near(x, y)
    ensures !(Less(x, y) && Less(y, x)) && (!Less(x, y) && !Less(y, x) <==> x == y)
  {
    Trichotomy(x, y);
    NearNotOpposed(x, y);
  }

  lemma {:induction false} MembersTransitive(ms: seq<Member>, ns: seq<Member>, os: seq<Member>)
    requires MembersRealFree(ms) && MembersRealFree(ns) && MembersRealFree(os)
    requires MembersNear(ms, ns) && MembersNear(ns, os) && MembersNear(ms, os)
    requires MembersLess(ms, ns) && MembersLess(ns, os)
    ensures MembersLess(ms, os)
    decreases ms, 0
  {
    hide Less, RealFree, TextLess, Near, Opposed;
    if ms != [] {
      var x, y, z := ms[0], ns[0], os[0];
      NamesInOrder(x, y);
      NamesInOrder(y, z);
      NamesInOrder(x, z);
      if TextLess(x.name, y.name) && TextLess(y.name, z.name) {
        TextTransitive(x.name, y.name, z.name);
      } else if x.name == y.name == z.name && Less(x.value, y.value) && Less(y.value, z.value) {
        Transitive(x.value, y.value, z.value);
      } else if x == y == z {
        MembersTransitive(ms[1..], ns[1..], os[1..]);
      }
    }
  }

  lemma NamesInOrder(x: Member, y: Member)
    requires RealFree(x.value) && RealFree(y.value) && Near(x.value, y.value)
    ensures !(TextLess(x.name, y.name) && TextLess(y.name, x.name))
    ensures !TextLess(x.name, y.name) && !TextLess(y.name, x.name) <==> x.name == y.name
    ensures !(Less(x.value, y.value) && Less(y.value, x.value))
    ensures !Less(x.value, y.value) && !Less(y.value, x.value) <==> x.value == y.value
  {
    TextTotal(x.name, y.name);
    PairInOrder(x.value, y.value);
  }

  // Which way the order goes: numbers by size, false before true.
  lemma NumberDirections(i: int, j: int, m: nat, n: nat, p: bool, q: bool)
    ensures Less(Int(i), Int(j)) <==> i < j
    ensures Less(UInt(m), UInt(n)) <==> m < n
    ensures Less(Bool(p), Bool(q)) <==> p == false && q == true
  {
    hide TextLess, ItemsLess, MembersLess;
  }

  // Containers by their number of elements.
  lemma SizeDirections(xs: seq<Value>, ys: seq<Value>, ms: seq<Member>, ns: seq<Member>)
    ensures 0 < |ys| - |xs| < TWO_TO_THE_31 ==> Less(Arr(xs), Arr(ys)) && !Less(Arr(ys), Arr(xs))
    ensures 0 < |ns| - |ms| < TWO_TO_THE_31 ==> Less(Obj(ms), Obj(ns)) && !Less(Obj(ns), Obj(ms))
  {
    hide TextLess, ItemsLess, MembersLess, AsInt;
    if 0 < |ys| - |xs| < TWO_TO_THE_31 {
      AsIntKeeps(|xs| - |ys|);
      AsIntKeeps(|ys| - |xs|);
    }
    if 0 < |ns| - |ms| < TWO_TO_THE_31 {
      AsIntKeeps(|ms| - |ns|);
      AsIntKeeps(|ns| - |ms|);
    }
  }

  // Types in the order null, int, uint, real, string, bool, array, object.
  lemma TypeDirections(a: Value, b: Value)
    ensures a.Null? && !b.Null? ==> Less(a, b) && !Less(b, a)
    ensures a.Int? && (b.UInt? || b.Real? || b.Str? || b.Bool? || b.Arr? || b.Obj?) ==> Less(a, b) && !Less(b, a)
    ensures a.UInt? && (b.Real? || b.Str? || b.Bool? || b.Arr? || b.Obj?) ==> Less(a, b) && !Less(b, a)
    ensures a.Real? && (b.Str? || b.Bool? || b.Arr? || b.Obj?) ==> Less(a, b) && !Less(b, a)
    ensures a.Str? && (b.Bool? || b.Arr? || b.Obj?) ==> Less(a, b) && !Less(b, a)
    ensures a.Bool? && (b.Arr? || b.Obj?) ==> Less(a, b) && !Less(b, a)
    ensures a.Arr? && b.Obj? ==> Less(a, b) && !Less(b, a)
  {
    hide Less;
    if Type(a) != Type(b) {
      ByType(a, b);
      ByType(b, a);
    }
  }

  lemma ByType(a: Value, b: Value)
    requires Type(a) != Type(b)
    ensures Less(a, b) <==> Type(a) < Type(b)
  {
    hide Type;
  }

  // Arrays of one size are ordered by their first different elements.
  lemma {:induction false} FirstDifference(xs: seq<Value>, ys: seq<Value>, k: nat)
    requires |xs| == |ys| && k < |xs| && xs[..k] == ys[..k] && RealFree(xs[k]) && RealFree(ys[k]) && xs[k] != ys[k] && !Opposed(xs[k], ys[k])
    requires forall j :: 0 <= j < k ==> RealFree(xs[j])
    ensures Less(Arr(xs), Arr(ys)) <==> Less(xs[k], ys[k])
  {
    hide Less, RealFree, Opposed;
    ArraysByItems(xs, ys);
    ItemsDiffer(xs, ys, k);
  }

  lemma ArraysByItems(xs: seq<Value>, ys: seq<Value>)
    requires |xs| == |ys|
    ensures Less(Arr(xs), Arr(ys)) <==> ItemsLess(xs, ys)
  {
    hide ItemsLess;
  }

  lemma {:induction false} ItemsDiffer(xs: seq<Value>, ys: seq<Value>, k: nat)
    requires k < |xs| && k < |ys| && xs[..k] == ys[..k] && RealFree(xs[k]) && RealFree(ys[k]) && xs[k] != ys[k] && !Opposed(xs[k], ys[k])
    requires forall j :: 0 <= j < k ==> RealFree(xs[j])
    ensures ItemsLess(xs, ys) <==> Less(xs[k], ys[k])
    decreases k
  {
    hide Less, RealFree, Opposed;
    if k > 0 {
      assert xs[..k][0] == ys[..k][0];
    }
    Trichotomy(xs[0], ys[0]);
    if k > 0 {
      assert xs[1..][..k - 1] == xs[..k][1..] == ys[..k][1..] == ys[1..][..k - 1];
      ItemsDiffer(xs[1..], ys[1..], k - 1);
    }
  }

  // ----- where the int of the size difference gives out -----

  // Two arrays that differ in size by 2^31 modulo 2^32 each come before the
  // other, whatever they hold.
  lemma OrderBreaks(xs: seq<Value>, ys: seq<Value>)
    requires (|xs| - |ys|) % TWO_TO_THE_32 == TWO_TO_THE_31
    ensures Less(Arr(xs), Arr(ys)) && Less(Arr(ys), Arr(xs)) && Compare(Arr(xs), Arr(ys)) == Compare(Arr(ys), Arr(xs)) == -1
  {
    hide ItemsLess;
    AsIntOpposite(|xs| - |ys|);
  }

  // Three arrays of which each comes before the next by its size are in order
  // if and only if the two differences, as ints, amount to at least -2^31.
  lemma OrderTurns(xs: seq<Value>, ys: seq<Value>, zs: seq<Value>)
    requires AsInt(|xs| - |ys|) < 0 && AsInt(|ys| - |zs|) < 0 && AsInt(|xs| - |zs|) != 0
    ensures Less(Arr(xs), Arr(ys)) && Less(Arr(ys), Arr(zs))
    ensures Less(Arr(xs), Arr(zs)) <==> AsInt(|xs| - |ys|) + AsInt(|ys| - |zs|) >= -TWO_TO_THE_31
  {
    hide ItemsLess;
  }

  lemma AsIntOpposite(d: int)
    ensures AsInt(d) < 0 && AsInt(-d) < 0 <==> OppositeSizes(d)
    ensures AsInt(d) == 0 <==> AsInt(-d) == 0
    ensures OppositeSizes(d) ==> AsInt(d) != 0
    ensures !(AsInt(d) > 0 && AsInt(-d) > 0)
  {
    hide AsInt;
    var q, r := d / TWO_TO_THE_32, d % TWO_TO_THE_32;
    AsIntValue(q, r);
    if r == 0 {
      AsIntValue(-q, 0);
    } else {
      AsIntValue(-q - 1, TWO_TO_THE_32 - r);
    }
  }

  lemma AsIntValue(q: int, r: int)
    requires 0 <= r < TWO_TO_THE_32
    ensures AsInt(TWO_TO_THE_32 * q + r) == if r < TWO_TO_THE_31 then r else r - TWO_TO_THE_32
  {
    var n := TWO_TO_THE_32 * q + r + TWO_TO_THE_31;
    if r < TWO_TO_THE_31 {
      assert n == TWO_TO_THE_32 * q + (r + TWO_TO_THE_31);
    } else {
      assert n == TWO_TO_THE_32 * (q + 1) + (r - TWO_TO_THE_31);
    }
  }
}
