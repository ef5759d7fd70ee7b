/** Elements of sequences, and sums over the values of finite maps. */
module Collections {

  predicate NoDuplicates<T(==)>(s: seq<T>) {
    forall i, j :: 0 <= i < j < |s| ==> s[i] != s[j]
  }

  ghost function Elements<T>(s: seq<T>): set<T> {
    set x | x in s
  }

  ghost function Sum<K>(m: map<K, int>): int {
    if m == map[] then 0
    else
      var key :| key in m;
      m[key] + Sum(m - {key})
  }

  lemma SumOfNothing<K>(m: map<K, int>)
    requires m == map[]
    ensures Sum(m) == 0
  {
  }

  lemma {:induction false} SumWithout<K>(m: map<K, int>, key: K)
    requires key in m
    ensures Sum(m) == m[key] + Sum(m - {key})
    decreases |m|
  {
    var picked :| picked in m && Sum(m) == m[picked] + Sum(m - {picked});
    if picked != key {
      SumWithout(m - {picked}, key);
      SumWithout(m - {key}, picked);
      assert m - {picked} - {key} == m - {key} - {picked};
    }
  }

  lemma SumUpdated<K>(m: map<K, int>, key: K, value: int)
    ensures Sum(m[key := value]) == Sum(m) - (if key in m then m[key] else 0) + value
  {
    var updated := m[key := value];
    SumWithout(updated, key);
    if key in m {
      SumWithout(m, key);
      assert updated - {key} == m - {key};
    } else {
      assert updated - {key} == m;
    }
  }

  /** With no negative values, a larger map has no smaller sum. */
  lemma {:induction false} SumGrows<K>(some: map<K, int>, all: map<K, int>)
    requires forall key :: key in all ==> all[key] >= 0
    requires forall key :: key in some ==> key in all && some[key] == all[key]
    ensures 0 <= Sum(some) <= Sum(all)
    decreases |all|
  {
    if all != map[] {
      var key :| key in all;
      SumWithout(all, key);
      if key in some { SumWithout(some, key); }
      SumGrows(some - {key}, all - {key});
      assert key !in some ==> some - {key} == some;
    }
  }
}
