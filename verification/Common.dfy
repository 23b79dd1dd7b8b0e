/** Small datatypes shared by the models. */
module Common {

  datatype Option<+T> = None | Some(value: T)

  datatype Result<+T, +E> = Ok(value: T) | Err(error: E)

  /** One octet of a file, a module or an encoded string. */
  newtype byte = x: int | 0 <= x < 256

  /** True iff no element occurs twice. */
  ghost predicate Distinct<T>(s: seq<T>) {
    forall i, j | 0 <= i < j < |s| :: s[i] != s[j]
  }

  ghost function Elements<T>(s: seq<T>): set<T> {
    set x | x in s
  }

  /** A duplicate-free sequence over a finite set is no longer than the set. */
  lemma {:induction false} DistinctBound<T>(s: seq<T>, bound: set<T>)
    requires Distinct(s)
    requires forall x | x in s :: x in bound
    ensures |s| <= |bound|
    ensures |s| == |bound| ==> forall x | x in bound :: x in s
  {
    if |s| > 0 {
      var last := s[|s| - 1];
      DistinctBound(s[..|s| - 1], bound - {last});
      assert forall x | x in s[..|s| - 1] :: x in s;
    }
  }

  /** What a limit compared after counting amounts to. */
  function AtLeastOne(limit: nat): nat {
    if limit == 0 then 1 else limit
  }

  function Min(a: nat, b: nat): nat {
    if a <= b then a else b
  }

  lemma MulAtMost(a: nat, b: nat, c: nat)
    requires a <= b
    ensures a * c <= b * c
  {
  }

  /** The longest representable duration, in nanoseconds: 2^64 - 1 seconds and 999999999 nanoseconds. */
  const MAX_DURATION: nat := 0xFFFF_FFFF_FFFF_FFFF * 1_000_000_000 + 999_999_999
}
