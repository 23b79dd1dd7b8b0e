/** The total size of the byte strings in a map, as the stores' byte counters track it. */
module ByteTotals {
  import opened Common
  import SetSum

  ghost function SizeIn<K(!new)>(m: map<K, seq<byte>>): K -> nat {
    k => if k in m then |m[k]| else 0
  }

  ghost function Total<K(!new)>(m: map<K, seq<byte>>): nat {
    SetSum.Sum(m.Keys, SizeIn(m))
  }

  lemma TotalEmpty<K(!new)>()
    ensures Total<K>(map[]) == 0
  {
  }

  /** Taking a key out takes its size off the total. */
  lemma TotalRemove<K(!new)>(m: map<K, seq<byte>>, k: K)
    requires k in m
    ensures Total(m) == |m[k]| + Total(m - {k})
  {
    var rest := m - {k};
    SetSum.Extract(m.Keys, k, SizeIn(m));
    assert rest.Keys == m.Keys - {k};
    SetSum.Congruence(rest.Keys, SizeIn(m), SizeIn(rest));
  }

  /** Setting a key replaces its size in the total. */
  lemma TotalUpdate<K(!new)>(m: map<K, seq<byte>>, k: K, v: seq<byte>)
    ensures Total(m[k := v]) == Total(m - {k}) + |v|
    ensures k in m ==> Total(m[k := v]) == Total(m) - |m[k]| + |v|
    ensures k !in m ==> Total(m[k := v]) == Total(m) + |v|
  {
    var m' := m[k := v];
    TotalRemove(m', k);
    assert m' - {k} == m - {k};
    if k in m {
      TotalRemove(m, k);
    } else {
      assert m - {k} == m;
    }
  }
}
