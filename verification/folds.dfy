/** Order-free folds: the XOR of a set of identifiers and the sum of the values of a map. */
module Folds {
  import opened Bytes
  import opened Sorting

  /** XOR of all members of s; XorRemove shows that the order of folding is irrelevant. */
  ghost function XorSet(s: set<ID>): ID {
    if s == {} then EMPTY
    else
      var x :| x in s;
      Xor(x, XorSet(s - {x}))
  }

  lemma {:induction false} XorRemove(s: set<ID>, x: ID)
    requires x in s
    ensures XorSet(s) == Xor(x, XorSet(s - {x}))
    ensures XorSet(s - {x}) == Xor(XorSet(s), x)
    decreases |s|
  {
    var y :| y in s && XorSet(s) == Xor(y, XorSet(s - {y}));
    if x == y {
    } else {
      XorRemove(s - {y}, x);
      XorRemove(s - {x}, y);
      assert s - {y} - {x} == s - {x} - {y};
      XorCommutes(x, y, XorSet(s - {x} - {y}));
    }
    XorSelf(x, XorSet(s - {x}));
    XorCommutes(x, XorSet(s), EMPTY);
  }

  lemma XorAdd(s: set<ID>, x: ID)
    requires x !in s
    ensures XorSet(s + {x}) == Xor(XorSet(s), x)
  {
    XorRemove(s + {x}, x);
    assert s + {x} - {x} == s;
    XorCommutes(x, XorSet(s), EMPTY);
  }

  /** Sum of f over the values of m. */
  ghost function SumValues<K(!new), V>(m: map<K, V>, f: V -> nat): nat
    decreases |m|
  {
    if m == map[] then 0
    else
      var k :| k in m;
      f(m[k]) + SumValues(m - {k}, f)
  }

  lemma {:induction false} SumRemove<K(!new), V>(m: map<K, V>, f: V -> nat, k: K)
    requires k in m
    ensures SumValues(m, f) == f(m[k]) + SumValues(m - {k}, f)
    decreases |m|
  {
    var j :| j in m && SumValues(m, f) == f(m[j]) + SumValues(m - {j}, f);
    if j == k {
    } else {
      SumRemove(m - {j}, f, k);
      SumRemove(m - {k}, f, j);
      assert m - {j} - {k} == m - {k} - {j};
    }
  }

  lemma SumAdd<K(!new), V>(m: map<K, V>, f: V -> nat, k: K, v: V)
    requires k !in m
    ensures SumValues(m[k := v], f) == f(v) + SumValues(m, f)
  {
    SumRemove(m[k := v], f, k);
    assert m[k := v] - {k} == m;
  }
}
