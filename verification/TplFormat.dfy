// Which format strings tpl_map_va takes, said of the characters alone, and what
// it makes of the others.
module TplFormat {
  import opened Bytes
  import opened TplImage
  import opened TplReading

  const MAX_CONTIGUOUS: nat := 10

  // ----- the formats -----

  predicate AtomLetter(c: byte) {
    NumberLetter(c) || c == LETTER_S
  }

  predicate Opens(c: byte) {
    c == LETTER_A || c == STRUCT
  }

  predicate EndsIn(done: bytes, cs: seq<byte>) {
    done != [] && done[|done| - 1] in cs
  }

  // Parentheses opened and not closed again.
  function Level(done: bytes): int {
    if done == [] then 0
    else
      var c := done[|done| - 1];
      Level(done[..|done| - 1]) + if c == OPEN then 1 else if c == CLOSE then -1 else 0
  }

  // A structure is open where there is an S without a ')' behind it.
  ghost predicate InStruct(done: bytes) {
    exists k :: 0 <= k < |done| && done[k] == STRUCT && forall j :: k < j < |done| ==> done[j] != CLOSE
  }

  // The character is the ')' of a structure.
  ghost predicate ClosesStruct(fmt: bytes, k: nat)
    requires k < |fmt|
  {
    fmt[k] == CLOSE && InStruct(fmt[..k])
  }

  // How many '#' stand in a row from k on.
  function Run(fmt: bytes, k: nat): (n: nat)
    requires k <= |fmt|
    ensures k + n <= |fmt| && (k + n < |fmt| ==> fmt[k + n] != HASH) && forall j :: k <= j < k + n ==> fmt[j] == HASH
    decreases |fmt| - k
  {
    if k < |fmt| && fmt[k] == HASH then 1 + Run(fmt, k + 1) else 0
  }

  // Where a character may stand: only letters of the format, '(' behind A and S
  // and nothing else there, nothing empty, no array, buffer or structure inside
  // a structure, '#' behind a number, a string, a structure or another '#'.
  ghost predicate InPlace(fmt: bytes, k: nat)
    requires k < |fmt|
  {
    && (AtomLetter(fmt[k]) || fmt[k] in [LETTER_A, LETTER_B, STRUCT, OPEN, CLOSE, HASH])
    && (fmt[k] == OPEN <==> k > 0 && Opens(fmt[k - 1]))
    && (k > 0 && fmt[k] == CLOSE ==> fmt[k - 1] != OPEN)
    && (fmt[k] in [LETTER_A, LETTER_B, STRUCT] ==> !InStruct(fmt[..k]))
    && (fmt[k] == HASH ==> k > 0 && (fmt[k - 1] == HASH || AtomLetter(fmt[k - 1]) || ClosesStruct(fmt, k - 1)))
  }

  // Every character in its place, the parentheses balanced, at most ten '#' in
  // a row and a positive number for each.
  ghost predicate WellFormed(fmt: bytes, pound: nat -> int32) {
    && fmt != [] && !Opens(fmt[|fmt| - 1])
    && (forall k :: 0 <= k < |fmt| ==> InPlace(fmt, k))
    && (forall k :: 0 <= k <= |fmt| ==> Level(fmt[..k]) >= 0) && Level(fmt) == 0
    && (forall k :: 0 <= k < |fmt| ==> Run(fmt, k) <= MAX_CONTIGUOUS)
    && (forall j :: 0 <= j < Hashes(fmt) ==> pound(j) >= 1)
  }

  // ----- what becomes of the others -----

  // Failed: everything allocated has been freed. Fatal: tpl_hook.fatal has
  // been called. Odd: the code goes on although a '(' is missing behind A or S,
  // or a '#' stands behind the '(' of a structure. Undefined: a '#' behind the
  // ')' of an array.
  datatype MapResult = Mapped | Failed | Fatal | Odd | Undefined

  // The last node of the open list is a number or a string.
  ghost predicate EndsNumbered(done: bytes) {
    if done == [] then false
    else
      var c, front := done[|done| - 1], done[..|done| - 1];
      if AtomLetter(c) then true
      else if c == HASH then EndsNumbered(front) && !EndsIn(front, [CLOSE])
      else if c == STRUCT || c == OPEN then EndsNumbered(front)
      else c == CLOSE && InStruct(front)
  }

  // Among the '#' from k on there is an eleventh or one whose number is not positive.
  predicate RunFatal(fmt: bytes, k: nat, pound: nat -> int32)
    requires k <= |fmt|
  {
    var from := Hashes(fmt[..k]);
    Run(fmt, k) > MAX_CONTIGUOUS || exists j :: from <= j < from + Run(fmt, k) && pound(j) < 1
  }

  // What a character other than '#' does behind a format in order.
  ghost function CharVerdict(done: bytes, c: byte): MapResult {
    var awaits := EndsIn(done, [LETTER_A, STRUCT]);
    if AtomLetter(c) then if awaits then Failed else Mapped
    else if c == LETTER_B then if awaits || InStruct(done) then Failed else Mapped
    else if Opens(c) then if InStruct(done) then Failed else if awaits then Odd else Mapped
    else if c == OPEN then if awaits then Mapped else Failed
    else if c == CLOSE then
      if Level(done) <= 0 || EndsIn(done, [OPEN]) then Failed else if awaits then Odd else Mapped
    else Failed
  }

  // What character k does.
  ghost function Verdict(fmt: bytes, k: nat, pound: nat -> int32): MapResult
    requires k < |fmt|
  {
    var done := fmt[..k];
    if fmt[k] != HASH then CharVerdict(done, fmt[k])
    else if EndsIn(done, [HASH]) then Mapped
    else if EndsIn(done, [CLOSE]) then
      if RunFatal(fmt, k, pound) then Fatal else if ClosesStruct(fmt, k - 1) then Mapped else Undefined
    else if !EndsNumbered(done) then Failed
    else if EndsIn(done, [LETTER_A, STRUCT, OPEN]) then Odd
    else if RunFatal(fmt, k, pound) then Fatal
    else Mapped
  }

  ghost function EndOutcome(fmt: bytes): MapResult {
    if Level(fmt) != 0 then Failed else if fmt == [] || EndsIn(fmt, [LETTER_A, STRUCT]) then Odd else Mapped
  }

  // The first character out of order decides.
  ghost function Outcome(fmt: bytes, k: nat, pound: nat -> int32): MapResult
    requires k <= |fmt|
    decreases |fmt| - k
  {
    if k == |fmt| then EndOutcome(fmt)
    else if Verdict(fmt, k, pound) != Mapped then Verdict(fmt, k, pound)
    else Outcome(fmt, k + 1, pound)
  }

  lemma {:induction false} OutcomeMapped(fmt: bytes, k: nat, pound: nat -> int32)
    requires k <= |fmt|
    ensures Outcome(fmt, k, pound).Mapped? <==>
      EndOutcome(fmt).Mapped? && forall j :: k <= j < |fmt| ==> Verdict(fmt, j, pound).Mapped?
    decreases |fmt| - k
  {
    hide Verdict, EndOutcome;
    if k < |fmt| {
      OutcomeMapped(fmt, k + 1, pound);
    }
  }

  // Inside a run of '#' nothing more is decided.
  lemma {:induction false} OutcomeRun(fmt: bytes, k: nat, n: nat, pound: nat -> int32)
    requires 0 < k && k + n <= |fmt| && fmt[k - 1] == HASH && forall j :: k <= j < k + n ==> fmt[j] == HASH
    ensures Outcome(fmt, k, pound) == Outcome(fmt, k + n, pound)
    decreases n
  {
    hide InStruct, EndsNumbered, RunFatal;
    if n > 0 {
      assert fmt[..k][|fmt[..k]| - 1] == HASH;
      OutcomeRun(fmt, k + 1, n - 1, pound);
    }
  }

  // ----- the scan's verdicts are the well-formed formats -----

  lemma LastOf(fmt: bytes, k: nat)
    requires 0 < k <= |fmt|
    ensures fmt[..k] != [] && fmt[..k][|fmt[..k]| - 1] == fmt[k - 1] && fmt[..k][..k - 1] == fmt[..k - 1]
  {
  }

  // One character more.
  lemma FormatNext(done: bytes, c: byte)
    ensures var next := done + [c];
      && next[..|done|] == done && next[|done|] == c
      && Level(next) == Level(done) + (if c == OPEN then 1 else if c == CLOSE then -1 else 0)
      && Hashes(next) == Hashes(done) + (if c == HASH then 1 else 0)
      && (InStruct(next) <==> c == STRUCT || (c != CLOSE && InStruct(done)))
    ensures EndsNumbered(done + [c]) <==>
      if AtomLetter(c) then true
      else if c == HASH then EndsNumbered(done) && !EndsIn(done, [CLOSE])
      else if c == STRUCT || c == OPEN then EndsNumbered(done)
      else c == CLOSE && InStruct(done)
  {
    var next := done + [c];
    assert next[..|done|] == done;
    InStructNext(done, c);
  }

  lemma InStructNext(done: bytes, c: byte)
    ensures InStruct(done + [c]) <==> c == STRUCT || (c != CLOSE && InStruct(done))
  {
    var next := done + [c];
    assert next[|done|] == c;
    if c == STRUCT {
    } else if c != CLOSE && InStruct(done) {
      var k :| 0 <= k < |done| && done[k] == STRUCT && forall j :: k < j < |done| ==> done[j] != CLOSE;
      assert next[k] == STRUCT;
    }
    if InStruct(next) && c != STRUCT {
      var k :| 0 <= k < |next| && next[k] == STRUCT && forall j :: k < j < |next| ==> next[j] != CLOSE;
      assert k < |done| && done[k] == STRUCT;
      forall j | k < j < |done| ensures done[j] != CLOSE {
        assert next[j] == done[j];
      }
    }
  }

  // A run of '#' more.
  lemma {:induction false} FormatHashed(done: bytes, n: nat)
    ensures var next := done + Hashed(n);
      && Level(next) == Level(done) && Hashes(next) == Hashes(done) + n && (InStruct(next) <==> InStruct(done))
      && (n > 0 ==> EndsIn(next, [HASH]) && (EndsNumbered(next) <==> EndsNumbered(done) && !EndsIn(done, [CLOSE])))
    decreases n
  {
    hide Level, Hashes, InStruct, EndsNumbered;
    if n == 0 {
      assert done + Hashed(0) == done;
    } else {
      var before := done + Hashed(n - 1);
      FormatHashed(done, n - 1);
      FormatNext(before, HASH);
      assert before + [HASH] == done + Hashed(n);
      if n == 1 {
        assert before == done;
      }
    }
  }

  lemma LevelNext(fmt: bytes, k: nat)
    requires k < |fmt|
    ensures Level(fmt[..k + 1]) == Level(fmt[..k]) + if fmt[k] == OPEN then 1 else if fmt[k] == CLOSE then -1 else 0
  {
    LastOf(fmt, k + 1);
  }

  lemma {:induction false} HashesGrow(fmt: bytes, k: nat)
    requires k <= |fmt|
    ensures Hashes(fmt[..k]) <= Hashes(fmt)
    ensures forall j :: k <= j < |fmt| && fmt[j] == HASH ==> Hashes(fmt[..k]) < Hashes(fmt)
    decreases |fmt| - k
  {
    if k < |fmt| {
      HashesGrow(fmt, k + 1);
      LastOf(fmt, k + 1);
    } else {
      assert fmt[..k] == fmt;
    }
  }

  lemma {:induction false} HashesInRun(fmt: bytes, k: nat, j: nat)
    requires k + j <= |fmt| && forall i :: k <= i < k + j ==> fmt[i] == HASH
    ensures Hashes(fmt[..k + j]) == Hashes(fmt[..k]) + j
    decreases j
  {
    if j > 0 {
      HashesInRun(fmt, k, j - 1);
      LastOf(fmt, k + j);
    }
  }

  // Every number belongs to a '#'.
  lemma {:induction false} HashOf(fmt: bytes, i: nat) returns (k: nat)
    requires i < Hashes(fmt)
    ensures k < |fmt| && fmt[k] == HASH && Hashes(fmt[..k]) == i
    decreases |fmt|
  {
    var n := |fmt| - 1;
    if fmt[n] == HASH && Hashes(fmt[..n]) == i {
      k := n;
    } else {
      k := HashOf(fmt[..n], i);
      assert fmt[..n][..k] == fmt[..k];
    }
  }

  // The first of a run.
  lemma {:induction false} RunStart(fmt: bytes, k: nat) returns (b: nat)
    requires k < |fmt| && fmt[k] == HASH
    ensures b <= k && (b > 0 ==> fmt[b - 1] != HASH) && forall j :: b <= j <= k ==> fmt[j] == HASH
    decreases k
  {
    if k > 0 && fmt[k - 1] == HASH {
      b := RunStart(fmt, k - 1);
    } else {
      b := k;
    }
  }

  lemma RunReaches(fmt: bytes, b: nat, k: nat)
    requires b <= k < |fmt| && forall j :: b <= j <= k ==> fmt[j] == HASH
    ensures k - b < Run(fmt, b)
  {
  }

  lemma RunEnds(fmt: bytes, b: nat, n: nat)
    requires b + n <= |fmt| && (b + n < |fmt| ==> fmt[b + n] != HASH) && forall j :: b <= j < b + n ==> fmt[j] == HASH
    ensures Run(fmt, b) == n
  {
  }

  // A format is mapped if and only if it is well formed.
  lemma MappedExactly(fmt: bytes, pound: nat -> int32)
    ensures Outcome(fmt, 0, pound).Mapped? <==> WellFormed(fmt, pound)
  {
    hide Outcome, WellFormed, Verdict, EndOutcome;
    OutcomeMapped(fmt, 0, pound);
    if WellFormed(fmt, pound) {
      forall k | 0 <= k < |fmt| ensures Verdict(fmt, k, pound).Mapped? {
        TakesWellFormed(fmt, k, pound);
      }
      EndsWellFormed(fmt, pound);
    }
    if EndOutcome(fmt).Mapped? && forall k :: 0 <= k < |fmt| ==> Verdict(fmt, k, pound).Mapped? {
      AllInOrder(fmt, pound);
    }
  }

  lemma EndsWellFormed(fmt: bytes, pound: nat -> int32)
    requires WellFormed(fmt, pound)
    ensures EndOutcome(fmt).Mapped?
  {
    hide InStruct, Level;
    assert fmt[|fmt| - 1] == fmt[..|fmt|][|fmt| - 1];
  }

  lemma TakesWellFormed(fmt: bytes, k: nat, pound: nat -> int32)
    requires WellFormed(fmt, pound) && k < |fmt|
    ensures Verdict(fmt, k, pound).Mapped?
  {
    hide InStruct, Level, RunFatal, EndsNumbered;
    LevelNext(fmt, k);
    assert InPlace(fmt, k);
    if k > 0 {
      LastOf(fmt, k);
    }
    if fmt[k] == HASH {
      NotFatal(fmt, k, pound);
      if AtomLetter(fmt[k - 1]) {
        AtomNumbered(fmt[..k]);
      }
    }
  }

  lemma AtomNumbered(done: bytes)
    requires done != [] && AtomLetter(done[|done| - 1])
    ensures EndsNumbered(done)
  {
  }

  lemma NotFatal(fmt: bytes, k: nat, pound: nat -> int32)
    requires WellFormed(fmt, pound) && k < |fmt|
    ensures !RunFatal(fmt, k, pound)
  {
    hide InStruct, Level, Hashes;
    var n := Run(fmt, k);
    HashesInRun(fmt, k, n);
    HashesGrow(fmt, k + n);
  }

  ghost predicate InOrder(fmt: bytes, pound: nat -> int32) {
    EndOutcome(fmt).Mapped? && forall k :: 0 <= k < |fmt| ==> Verdict(fmt, k, pound).Mapped?
  }

  lemma {:induction false} LevelsUp(fmt: bytes, k: nat, pound: nat -> int32)
    requires InOrder(fmt, pound) && k <= |fmt|
    ensures Level(fmt[..k]) >= 0
    decreases k
  {
    hide InStruct, EndsNumbered, RunFatal, Level;
    if k > 0 {
      LevelsUp(fmt, k - 1, pound);
      LevelNext(fmt, k - 1);
      assert Verdict(fmt, k - 1, pound).Mapped?;
    } else {
      NoLevel();
    }
  }

  lemma NoLevel()
    ensures Level([]) == 0
  {
  }

  // A '#' in order stands where it may.
  lemma HashInOrder(fmt: bytes, k: nat, pound: nat -> int32)
    requires k < |fmt| && fmt[k] == HASH && Verdict(fmt, k, pound).Mapped?
    ensures k > 0 && (fmt[k - 1] == HASH || AtomLetter(fmt[k - 1]) || ClosesStruct(fmt, k - 1))
    ensures fmt[k - 1] != HASH ==> !RunFatal(fmt, k, pound)
  {
    hide RunFatal;
    if k > 0 {
      LastOf(fmt, k);
    }
  }

  lemma RunInOrder(fmt: bytes, k: nat, pound: nat -> int32)
    requires InOrder(fmt, pound) && k < |fmt| && fmt[k] == HASH
    ensures Run(fmt, k) <= MAX_CONTIGUOUS && pound(Hashes(fmt[..k])) >= 1
  {
    hide Verdict, Hashes, EndOutcome, ClosesStruct;
    var b := RunStart(fmt, k);
    HashInOrder(fmt, b, pound);
    RunReaches(fmt, b, k);
    HashesInRun(fmt, b, k - b);
    RunTail(fmt, b, k);
  }

  lemma {:induction false} RunTail(fmt: bytes, b: nat, k: nat)
    requires b <= k < |fmt| && forall j :: b <= j <= k ==> fmt[j] == HASH
    ensures Run(fmt, b) == k - b + Run(fmt, k)
    decreases k - b
  {
    if b < k {
      RunTail(fmt, b + 1, k);
    }
  }

  lemma AllInOrder(fmt: bytes, pound: nat -> int32)
    requires InOrder(fmt, pound)
    ensures WellFormed(fmt, pound)
  {
    hide Verdict, Hashes, EndOutcome, InStruct, Level, EndsIn;
    forall k | 0 <= k < |fmt| ensures InPlace(fmt, k) {
      CharInOrder(fmt, k, pound);
    }
    EndInOrder(fmt);
    forall k | 0 <= k <= |fmt| ensures Level(fmt[..k]) >= 0 {
      LevelsUp(fmt, k, pound);
    }
    forall k | 0 <= k < |fmt| ensures Run(fmt, k) <= MAX_CONTIGUOUS {
      if fmt[k] == HASH {
        RunInOrder(fmt, k, pound);
      }
    }
    forall j | 0 <= j < Hashes(fmt) ensures pound(j) >= 1 {
      var k := HashOf(fmt, j);
      RunInOrder(fmt, k, pound);
    }
  }

  lemma EndInOrder(fmt: bytes)
    requires EndOutcome(fmt).Mapped?
    ensures fmt != [] && Level(fmt) == 0 && !Opens(fmt[|fmt| - 1])
  {
  }

  lemma CharInOrder(fmt: bytes, k: nat, pound: nat -> int32)
    requires k < |fmt| && Verdict(fmt, k, pound).Mapped?
    ensures InPlace(fmt, k)
  {
    hide RunFatal, InStruct, Level;
    if k > 0 {
      LastOf(fmt, k);
    }
    if fmt[k] == HASH {
      HashInOrder(fmt, k, pound);
    }
  }

  // A well-formed format starts with an atom or an array, or with "S(" and an atom.
  lemma FrontOf(fmt: bytes, pound: nat -> int32)
    requires WellFormed(fmt, pound)
    ensures fmt != [] && fmt[0] != OPEN && fmt[0] != CLOSE
    ensures fmt[0] == STRUCT ==> |fmt| > 1 && fmt[1] == OPEN && (|fmt| > 2 ==> fmt[2] !in [STRUCT, OPEN, CLOSE])
  {
    hide InStruct, Level, ClosesStruct, Run, Hashes;
    assert InPlace(fmt, 0);
    NoLevel();
    LevelNext(fmt, 0);
    assert fmt[..0] == [] && Level(fmt[..0 + 1]) >= 0;
    if fmt[0] == STRUCT && |fmt| > 1 {
      assert InPlace(fmt, 1);
      if |fmt| > 2 {
        assert InPlace(fmt, 2);
        InsideFirst(fmt);
      }
    }
  }

  lemma InsideFirst(fmt: bytes)
    requires |fmt| > 2 && fmt[0] == STRUCT && fmt[1] == OPEN
    ensures InStruct(fmt[..2])
  {
    var front := fmt[..2];
    assert front[0] == STRUCT && forall j :: 0 < j < |front| ==> front[j] != CLOSE;
  }
}
