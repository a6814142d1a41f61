// GROUP BY and COUNT over a finite set of rows, and that the groups add up.
module Grouping {

  /** The rows of one group. */
  function Group<T(!new), K(==)>(rows: set<T>, key: T -> K, k: K): set<T> {
    set t | t in rows && key(t) == k
  }

  function Keys<T(!new), K>(rows: set<T>, key: T -> K): set<K> {
    set t | t in rows :: key(t)
  }

  /** `SELECT key, COUNT(*) ... GROUP BY key`. */
  function Counts<T(!new), K>(rows: set<T>, key: T -> K): map<K, nat> {
    map k | k in Keys(rows, key) :: |Group(rows, key, k)|
  }

  /** The sum of the values of a map. */
  ghost function Sum<K>(counts: map<K, nat>): nat
    decreases counts.Keys
  {
    if counts == map[] then 0
    else
      var k :| k in counts;
      counts[k] + Sum(counts - {k})
  }

  lemma {:induction false} SumPick<K>(counts: map<K, nat>, k: K)
    requires k in counts
    ensures Sum(counts) == counts[k] + Sum(counts - {k})
    decreases counts.Keys
  {
    var first :| first in counts && Sum(counts) == counts[first] + Sum(counts - {first});
    if first != k {
      SumPick(counts - {first}, k);
      SumPick(counts - {k}, first);
      assert counts - {first} - {k} == counts - {k} - {first};
    }
  }

  function Tally<T(!new), K>(rows: set<T>, key: T -> K, keys: set<K>): map<K, nat> {
    map k | k in keys :: |Group(rows, key, k)|
  }

  /** Counted key by key, rows add up to the rows that have one of the keys. */
  lemma {:induction false} TallyAddsUp<T(!new), K>(rows: set<T>, key: T -> K, keys: set<K>)
    ensures Sum(Tally(rows, key, keys)) == |set t | t in rows && key(t) in keys|
    decreases keys
  {
    var within := set t | t in rows && key(t) in keys;
    if keys == {} {
      assert within == {};
    } else {
      var k :| k in keys;
      var rest := keys - {k};
      var others := set t | t in rows && key(t) in rest;
      TallyAddsUp(rows, key, rest);
      SumPick(Tally(rows, key, keys), k);
      assert Tally(rows, key, keys) - {k} == Tally(rows, key, rest);
      assert within == others + Group(rows, key, k);
    }
  }

  /** When every row has one of the keys, the groups add up to all rows. */
  lemma GroupsAddUp<T(!new), K>(rows: set<T>, key: T -> K, keys: set<K>)
    requires forall t :: t in rows ==> key(t) in keys
    ensures Sum(Tally(rows, key, keys)) == |rows|
  {
    TallyAddsUp(rows, key, keys);
    assert (set t | t in rows && key(t) in keys) == rows;
  }

  /** In particular the counts of a GROUP BY. */
  lemma CountsAddUp<T(!new), K>(rows: set<T>, key: T -> K)
    ensures Sum(Counts(rows, key)) == |rows|
  {
    GroupsAddUp(rows, key, Keys(rows, key));
    assert Counts(rows, key) == Tally(rows, key, Keys(rows, key));
  }

  /** `sum(counts.values())`. */
  method SumValues<K>(counts: map<K, nat>) returns (total: nat)
    ensures total == Sum(counts)
  {
    total := 0;
    var left := counts;
    while left != map[]
      invariant total + Sum(left) == Sum(counts)
      decreases left.Keys
    {
      var k :| k in left;
      SumPick(left, k);
      total := total + left[k];
      left := left - {k};
    }
  }

  /** A key that tells rows apart has as many values as there are rows. */
  lemma {:induction false} DistinctKeysCount<T(!new), K>(rows: set<T>, key: T -> K)
    requires forall t, u :: t in rows && u in rows && key(t) == key(u) ==> t == u
    ensures |Keys(rows, key)| == |rows|
    decreases rows
  {
    if rows == {} {
      assert Keys(rows, key) == {};
    } else {
      var t :| t in rows;
      DistinctKeysCount(rows - {t}, key);
      assert Keys(rows, key) == Keys(rows - {t}, key) + {key(t)};
    }
  }

  lemma {:induction false} SubsetSize<T>(small: set<T>, large: set<T>)
    requires small <= large
    ensures |small| <= |large|
  {
    if small != {} {
      var t :| t in small;
      SubsetSize(small - {t}, large - {t});
    }
  }
}
