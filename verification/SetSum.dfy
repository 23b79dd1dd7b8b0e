/** Sums of a natural-valued function over a finite set. */
module SetSum {

  ghost function Sum<T(!new)>(s: set<T>, f: T -> nat): nat {
    if s == {} then 0
    else
      var x :| x in s;
      f(x) + Sum(s - {x}, f)
  }

  /** Any element can be taken out of the sum first. */
  lemma {:induction false} Extract<T(!new)>(s: set<T>, x: T, f: T -> nat)
    requires x in s
    ensures Sum(s, f) == f(x) + Sum(s - {x}, f)
    decreases |s|
  {
    var y :| y in s && Sum(s, f) == f(y) + Sum(s - {y}, f);
    if y != x {
      Extract(s - {y}, x, f);
      Extract(s - {x}, y, f);
      assert s - {y} - {x} == s - {x} - {y};
    }
  }

  /** A positive sum has a positive term. */
  lemma {:induction false} PositiveTerm<T(!new)>(s: set<T>, f: T -> nat) returns (x: T)
    requires Sum(s, f) > 0
    ensures x in s && f(x) > 0
    decreases |s|
  {
    var y :| y in s && Sum(s, f) == f(y) + Sum(s - {y}, f);
    if f(y) > 0 {
      x := y;
    } else {
      x := PositiveTerm(s - {y}, f);
    }
  }

  /** The sum depends only on the values of the function on the set. */
  lemma {:induction false} Congruence<T(!new)>(s: set<T>, f: T -> nat, g: T -> nat)
    requires forall x | x in s :: f(x) == g(x)
    ensures Sum(s, f) == Sum(s, g)
    decreases |s|
  {
    if s != {} {
      var y :| y in s && Sum(s, f) == f(y) + Sum(s - {y}, f);
      Congruence(s - {y}, f, g);
      Extract(s, y, g);
    }
  }
}
