/** The section loop of the import reader where 64-bit additions wrap around, as in a build
    without overflow checks.  There a section size can send the loop back, possibly for ever. */
module WrappedSections {
  import opened Common
  import opened Powers
  import opened Leb128
  import opened WasmImports

  function WrappingAdd(a: nat, b: nat): nat {
    (a + b) % TWO_TO_THE_64
  }

  /** The loop is left: behind the last section, or by returning from an import section. */
  predicate Leaves(bytes: seq<byte>, pos: nat) {
    pos >= |bytes| || bytes[pos] == IMPORT_SECTION
  }

  /** From the section at pos to the next one. */
  function Hop(bytes: seq<byte>, pos: nat): nat
    requires pos < |bytes|
  {
    var (size, taken) := Read(bytes[pos + 1..]);
    WrappingAdd(pos + 1 + taken, size)
  }

  /** The position after n rounds, or where the loop is left before that. */
  function Walk(bytes: seq<byte>, n: nat): nat {
    if n == 0 then 8
    else
      var pos := Walk(bytes, n - 1);
      if Leaves(bytes, pos) then pos else Hop(bytes, pos)
  }

  ghost predicate Ends(bytes: seq<byte>) {
    exists n: nat :: Leaves(bytes, Walk(bytes, n))
  }

  /** What is returned where the loop is left; the end of an import section may wrap around too. */
  function ResultAt(bytes: seq<byte>, pos: nat): Parse
    requires Leaves(bytes, pos)
  {
    if pos >= |bytes| then Parsed([], pos)
    else
      var (size, taken) := Read(bytes[pos + 1..]);
      var body := pos + 1 + taken;
      ImportSectionAt(bytes, body, WrappingAdd(body, size))
  }

  method ExtractWrapping(bytes: seq<byte>) returns (r: Parse)
    requires Ends(bytes)
    ensures |bytes| < 8 ==> r == Parsed([], 0)
    ensures |bytes| >= 8 ==> Leaves(bytes, Walk(bytes, |bytes|)) && r == ResultAt(bytes, Walk(bytes, |bytes|))
  {
    hide Read, ImportSectionAt, Walk, Ends;
    if |bytes| < 8 {
      return Parsed([], 0);
    }
    EndsIffEndsSoon(bytes);
    WalkUnfolds(bytes, 0);
    var pos := 8;
    ghost var n := 0;
    while pos < |bytes|
      invariant n <= |bytes| && pos == Walk(bytes, n)
      decreases |bytes| - n
    {
      var sectionId := bytes[pos];
      var size, sizeBytes := ReadLeb128(bytes[pos + 1..]);
      var body := pos + 1 + sizeBytes;
      if sectionId == IMPORT_SECTION {
        LeavingIsFinal(bytes, n, |bytes|);
        r := ReadImportSection(bytes, body, WrappingAdd(body, size));
        return;
      }
      WalkUnfolds(bytes, n);
      pos := WrappingAdd(body, size);
      n := n + 1;
    }
    LeavingIsFinal(bytes, n, |bytes|);
    return Parsed([], pos);
  }

  lemma WalkUnfolds(bytes: seq<byte>, n: nat)
    ensures Walk(bytes, 0) == 8
    ensures Walk(bytes, n + 1) == if Leaves(bytes, Walk(bytes, n)) then Walk(bytes, n) else Hop(bytes, Walk(bytes, n))
  {
  }

  lemma {:induction false} LeavingIsFinal(bytes: seq<byte>, m: nat, n: nat)
    requires m <= n && Leaves(bytes, Walk(bytes, m))
    ensures Walk(bytes, n) == Walk(bytes, m)
  {
    hide Leaves, Hop;
    if m < n {
      LeavingIsFinal(bytes, m, n - 1);
    }
  }

  // ----- exactly when the loop ends

  lemma {:induction false} SamePath(bytes: seq<byte>, i: nat, j: nat, n: nat)
    requires Walk(bytes, i) == Walk(bytes, j)
    ensures Walk(bytes, i + n) == Walk(bytes, j + n)
  {
    hide Leaves, Hop;
    if n > 0 {
      SamePath(bytes, i, j, n - 1);
      assert i + n == i + (n - 1) + 1 && j + n == j + (n - 1) + 1;
      WalkUnfolds(bytes, i + (n - 1));
      WalkUnfolds(bytes, j + (n - 1));
    }
  }

  ghost function Below(n: nat): set<nat> {
    if n == 0 then {} else Below(n - 1) + {n - 1}
  }

  lemma {:induction false} BelowSize(n: nat)
    ensures |Below(n)| == n && forall x: nat :: x in Below(n) <==> x < n
  {
    if n > 0 {
      BelowSize(n - 1);
    }
  }

  /** A loop that goes on after |bytes| rounds has been at the same section twice. */
  lemma Repeats(bytes: seq<byte>) returns (i: nat, j: nat)
    requires !Leaves(bytes, Walk(bytes, |bytes|))
    ensures i < j <= |bytes| && Walk(bytes, i) == Walk(bytes, j)
  {
    hide Walk, Hop;
    BelowSize(|bytes|);
    var path := seq(|bytes| + 1, k requires 0 <= k <= |bytes| => Walk(bytes, k));
    forall x | x in path
      ensures x in Below(|bytes|)
    {
      var k :| 0 <= k <= |bytes| && Walk(bytes, k) == x;
      if Leaves(bytes, x) {
        LeavingIsFinal(bytes, k, |bytes|);
      }
    }
    if Distinct(path) {
      DistinctBound(path, Below(|bytes|));
    }
    i, j :| 0 <= i < j <= |bytes| && path[i] == path[j];
  }

  lemma {:induction false} EndsSoon(bytes: seq<byte>, n: nat)
    requires Leaves(bytes, Walk(bytes, n))
    ensures Leaves(bytes, Walk(bytes, |bytes|))
  {
    hide Walk, Leaves;
    if n <= |bytes| {
      LeavingIsFinal(bytes, n, |bytes|);
    } else if !Leaves(bytes, Walk(bytes, |bytes|)) {
      var i, j := Repeats(bytes);
      SamePath(bytes, i, j, n - j);
      EndsSoon(bytes, i + (n - j));
    }
  }

  /** The loop ends exactly if it does within as many rounds as there are bytes. */
  lemma EndsIffEndsSoon(bytes: seq<byte>)
    ensures Ends(bytes) <==> Leaves(bytes, Walk(bytes, |bytes|))
  {
    hide Walk, Leaves;
    if Ends(bytes) {
      var n: nat :| Leaves(bytes, Walk(bytes, n));
      EndsSoon(bytes, n);
    }
  }

  /** The loop comes back to a section that it has passed. */
  ghost predicate ComesBack(bytes: seq<byte>) {
    exists i: nat, j: nat :: i < j && Walk(bytes, i) == Walk(bytes, j) && !Leaves(bytes, Walk(bytes, i))
  }

  lemma EndsIffNeverBack(bytes: seq<byte>)
    ensures Ends(bytes) <==> !ComesBack(bytes)
  {
    hide Walk, Leaves;
    EndsIffEndsSoon(bytes);
    if !Ends(bytes) {
      var i, j := Repeats(bytes);
      assert !Leaves(bytes, Walk(bytes, i));
    } else if ComesBack(bytes) {
      var n: nat :| Leaves(bytes, Walk(bytes, n));
      var i: nat, j: nat :| i < j && Walk(bytes, i) == Walk(bytes, j) && !Leaves(bytes, Walk(bytes, i));
      StaysInside(bytes, i, j, n);
    }
  }

  /** On a closed path the loop is never left. */
  lemma {:induction false} StaysInside(bytes: seq<byte>, i: nat, j: nat, n: nat)
    requires i < j && Walk(bytes, i) == Walk(bytes, j) && !Leaves(bytes, Walk(bytes, i))
    ensures !Leaves(bytes, Walk(bytes, n))
    decreases n
  {
    hide Walk, Leaves;
    if Leaves(bytes, Walk(bytes, n)) {
      if n <= j {
        LeavingIsFinal(bytes, n, j);
      } else {
        SamePath(bytes, i, j, n - j);
        StaysInside(bytes, i, j, i + (n - j));
      }
    }
  }

  // ----- which sizes it takes

  /** The size of the section at pos is less than |bytes| short of 2^64. */
  predicate HugeSize(bytes: seq<byte>, pos: nat) {
    pos < |bytes| && Read(bytes[pos + 1..]).0 + |bytes| >= TWO_TO_THE_64
  }

  lemma HopForward(bytes: seq<byte>, pos: nat)
    requires pos < |bytes| && !HugeSize(bytes, pos)
    ensures Hop(bytes, pos) > pos
  {
    hide Value, LengthFrom;
  }

  lemma {:induction false} WalkForward(bytes: seq<byte>, n: nat)
    requires forall k: nat | k < n :: !HugeSize(bytes, Walk(bytes, k))
    ensures Leaves(bytes, Walk(bytes, n)) || Walk(bytes, n) >= 8 + n
  {
    hide Hop, HugeSize;
    if n > 0 {
      WalkForward(bytes, n - 1);
      if !Leaves(bytes, Walk(bytes, n - 1)) {
        HopForward(bytes, Walk(bytes, n - 1));
      }
    }
  }

  /** A loop that never ends meets a section whose size is huge. */
  lemma EndlessNeedsHugeSize(bytes: seq<byte>)
    requires !Ends(bytes)
    ensures exists n: nat :: HugeSize(bytes, Walk(bytes, n))
  {
    hide HugeSize;
    if forall n: nat :: !HugeSize(bytes, Walk(bytes, n)) {
      WalkForward(bytes, |bytes|);
    }
  }

  const BACK_TO_START: nat := TWO_TO_THE_64 - 11

  lemma BackTakesTenBytes()
    ensures |Encode(BACK_TO_START)| == 10
  {
    hide Encode, Value, Pow2;
    var e := Encode(BACK_TO_START);
    ReadEncode(BACK_TO_START, []);
    EncodeMeaning(BACK_TO_START);
    ValueBound(e);
    Pow2Monotone(7 * |e|, if |e| <= 9 then 63 else 7 * |e|);
    GroupCapacity(9);
  }

  /** There are such modules: one whose first section, of any kind but imports, has this size. */
  lemma EndlessModule(header: seq<byte>, id: byte, tail: seq<byte>)
    requires |header| == 8 && id != IMPORT_SECTION
    ensures !Ends(header + [id] + Encode(BACK_TO_START) + tail)
  {
    hide Read, Encode;
    var bytes := header + [id] + Encode(BACK_TO_START) + tail;
    BackTakesTenBytes();
    assert bytes[9..] == Encode(BACK_TO_START) + tail;
    ReadEncode(BACK_TO_START, tail);
    assert Hop(bytes, 8) == 8;
    hide Hop, Leaves;
    assert bytes[8] == id;
    assert !Leaves(bytes, 8);
    WalkUnfolds(bytes, 0);
    assert Walk(bytes, 0) == 8 && Walk(bytes, 1) == 8;
    EndsIffNeverBack(bytes);
  }

  // ----- agreement with the checked reader

  lemma SameHop(bytes: seq<byte>, pos: nat)
    requires pos < |bytes| && bytes[pos] != IMPORT_SECTION && ReadSections(bytes, pos).Parsed?
    ensures Hop(bytes, pos) > pos && ReadSections(bytes, Hop(bytes, pos)) == ReadSections(bytes, pos)
  {
    hide Read, ImportSectionAt, ReadSections, WrappingAdd;
    var size, taken := Read(bytes[pos + 1..]).0, Read(bytes[pos + 1..]).1;
    UnfoldSections(bytes, pos, size, taken);
    NoWrap(pos + 1 + taken, size);
  }

  lemma NoWrap(a: nat, b: nat)
    requires a + b < TWO_TO_THE_64
    ensures WrappingAdd(a, b) == a + b
  {
  }

  lemma {:induction false} SamePositions(bytes: seq<byte>, n: nat)
    requires ReadSections(bytes, 8).Parsed?
    ensures ReadSections(bytes, Walk(bytes, n)) == ReadSections(bytes, 8)
    ensures Leaves(bytes, Walk(bytes, n)) || Walk(bytes, n) >= 8 + n
  {
    hide Hop, ReadSections;
    if n > 0 {
      SamePositions(bytes, n - 1);
      if !Leaves(bytes, Walk(bytes, n - 1)) {
        SameHop(bytes, Walk(bytes, n - 1));
      }
    }
  }

  /** Where the checked reader does not trap, the wrapping one ends, with the same result. */
  lemma WrappingAgrees(bytes: seq<byte>)
    requires |bytes| >= 8 && Extract(bytes).Parsed?
    ensures Ends(bytes) && Leaves(bytes, Walk(bytes, |bytes|))
    ensures ResultAt(bytes, Walk(bytes, |bytes|)) == Extract(bytes)
  {
    hide Read, ImportSectionAt, Walk;
    SamePositions(bytes, |bytes|);
    var pos := Walk(bytes, |bytes|);
    if pos < |bytes| {
      UnfoldSections(bytes, pos, Read(bytes[pos + 1..]).0, Read(bytes[pos + 1..]).1);
    }
  }
}
