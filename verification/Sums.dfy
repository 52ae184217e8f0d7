/** SQL's SUM over a column: the sum of the values of a finite map. */
module Sums {

  ghost function Pick<T>(s: set<T>): (x: T)
    requires s != {}
    ensures x in s
  {
    var x :| x in s;
    x
  }

  ghost function Sum(m: map<int, int>): int {
    if m.Keys == {} then 0
    else
      var k := Pick(m.Keys);
      m[k] + Sum(m - {k})
  }

  lemma {:induction false} SumRemove(m: map<int, int>, k: int)
    requires k in m
    ensures Sum(m) == m[k] + Sum(m - {k})
    decreases |m|
  {
    var j := Pick(m.Keys);
    assert Sum(m) == m[j] + Sum(m - {j});
    if j != k {
      var (withoutJ, withoutK) := (m - {j}, m - {k});
      assert |withoutJ| < |m| && |withoutK| < |m|;
      SumRemove(withoutJ, k);
      SumRemove(withoutK, j);
      assert withoutJ - {k} == withoutK - {j};
    }
  }

  lemma SumPut(m: map<int, int>, k: int, v: int)
    ensures Sum(m[k := v]) == Sum(m) + v - if k in m then m[k] else 0
  {
    SumRemove(m[k := v], k);
    assert m[k := v] - {k} == m - {k};
    if k in m {
      SumRemove(m, k);
    } else {
      assert m - {k} == m;
    }
  }

  lemma {:induction false} SumZero(m: map<int, int>)
    requires forall k :: k in m ==> m[k] == 0
    ensures Sum(m) == 0
    decreases |m|
  {
    if m.Keys != {} {
      var k := Pick(m.Keys);
      SumZero(m - {k});
    }
  }

  lemma {:induction false} SumMonotone(a: map<int, int>, b: map<int, int>)
    requires a.Keys == b.Keys
    requires forall k :: k in a ==> a[k] <= b[k]
    ensures Sum(a) <= Sum(b)
    decreases |a|
  {
    if a.Keys != {} {
      var k := Pick(a.Keys);
      SumMonotone(a - {k}, b - {k});
      SumRemove(b, k);
    }
  }

  ghost function Only(m: map<int, int>, keys: set<int>): map<int, int> {
    map k | k in m && k in keys :: m[k]
  }

  lemma OnlyMinus(m: map<int, int>, keys: set<int>, k: int)
    requires k in keys && k in m
    ensures Only(m, keys) - {k} == Only(m, keys - {k})
    ensures (m - (keys - {k})) - {k} == m - keys && k in m - (keys - {k})
  {}

  lemma {:induction false} SumSplit(m: map<int, int>, keys: set<int>)
    requires keys <= m.Keys
    ensures Sum(m) == Sum(Only(m, keys)) + Sum(m - keys)
    decreases |keys|
  {
    if keys == {} {
      assert Only(m, keys) == map[] && m - keys == m;
    } else {
      var k := Pick(keys);
      OnlyMinus(m, keys, k);
      SumSplit(m, keys - {k});
      SumRemove(m - (keys - {k}), k);
      SumRemove(Only(m, keys), k);
    }
  }
}
