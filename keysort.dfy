/**
 * `Object.keys(obj).sort()` followed by re-insertion in that order: a member
 * list sorted by key. Modelled as an insertion sort over (key, value) pairs.
 */
module KeySort {
  import opened JsonValue
  import KeyOrder

  /** Keys ascend (ties allowed). */
  predicate Sorted<V>(fs: seq<(string, V)>) {
    forall i, j :: 0 <= i < j < |fs| ==> KeyOrder.Le(fs[i].0, fs[j].0)
  }

  /** Keys strictly ascend. */
  predicate StrictlySorted<V>(fs: seq<(string, V)>) {
    forall i, j :: 0 <= i < j < |fs| ==> KeyOrder.Less(fs[i].0, fs[j].0)
  }

  /** Puts `f` before the first member whose key it does not follow. */
  function Insert<V>(f: (string, V), fs: seq<(string, V)>): seq<(string, V)> {
    if fs == [] then [f]
    else if KeyOrder.Le(f.0, fs[0].0) then [f] + fs
    else [fs[0]] + Insert(f, fs[1..])
  }

  /** The member list in key order. */
  function SortByKey<V>(fs: seq<(string, V)>): seq<(string, V)> {
    if fs == [] then []
    else Insert(fs[0], SortByKey(fs[1..]))
  }

  /** Inserting adds exactly the one member. */
  lemma {:induction false} InsertPermutes<V>(f: (string, V), fs: seq<(string, V)>)
    ensures multiset(Insert(f, fs)) == multiset(fs) + multiset{f}
  {
    if fs != [] && !KeyOrder.Le(f.0, fs[0].0) {
      InsertPermutes(f, fs[1..]);
      assert fs == [fs[0]] + fs[1..];
    }
  }

  /** The sort's output is a rearrangement of its input. */
  lemma {:induction false} SortByKeyPermutes<V>(fs: seq<(string, V)>)
    ensures multiset(SortByKey(fs)) == multiset(fs)
  {
    if fs != [] {
      SortByKeyPermutes(fs[1..]);
      InsertPermutes(fs[0], SortByKey(fs[1..]));
      assert fs == [fs[0]] + fs[1..];
    }
  }

  /** Two rearrangements of one another have the same keys. */
  lemma SameKeys<V>(a: seq<(string, V)>, b: seq<(string, V)>)
    requires multiset(a) == multiset(b)
    ensures Keys(a) == Keys(b)
  {
    forall k | k in Keys(a) ensures k in Keys(b) {
      var i :| 0 <= i < |a| && a[i].0 == k;
      assert a[i] in multiset(b);
      var j :| 0 <= j < |b| && b[j] == a[i];
    }
    forall k | k in Keys(b) ensures k in Keys(a) {
      var j :| 0 <= j < |b| && b[j].0 == k;
      assert b[j] in multiset(a);
      var i :| 0 <= i < |a| && a[i] == b[j];
    }
  }

  lemma {:induction false} InsertSorted<V>(f: (string, V), fs: seq<(string, V)>)
    requires Sorted(fs)
    ensures Sorted(Insert(f, fs))
    decreases |fs|
  {
    if fs == [] {
    } else if KeyOrder.Le(f.0, fs[0].0) {
      forall j | 0 <= j < |fs| ensures KeyOrder.Le(f.0, fs[j].0) {
        if j > 0 {
          KeyOrder.Transitive(f.0, fs[0].0, fs[j].0);
        }
      }
    } else {
      KeyOrder.Total(f.0, fs[0].0);
      var t := Insert(f, fs[1..]);
      InsertSorted(f, fs[1..]);
      InsertPermutes(f, fs[1..]);
      forall j | 0 <= j < |t| ensures KeyOrder.Le(fs[0].0, t[j].0) {
        assert t[j] in multiset(fs[1..]) + multiset{f};
        if t[j] != f {
          assert t[j] in fs[1..];
        }
      }
    }
  }

  /** The sort's output is in key order. */
  lemma {:induction false} SortByKeySorted<V>(fs: seq<(string, V)>)
    ensures Sorted(SortByKey(fs))
  {
    if fs != [] {
      SortByKeySorted(fs[1..]);
      InsertSorted(fs[0], SortByKey(fs[1..]));
    }
  }

  lemma {:induction false} InsertStrictlySorted<V>(f: (string, V), fs: seq<(string, V)>)
    requires StrictlySorted(fs) && f.0 !in Keys(fs)
    ensures StrictlySorted(Insert(f, fs))
    decreases |fs|
  {
    if fs == [] {
    } else if KeyOrder.Le(f.0, fs[0].0) {
      forall j | 0 <= j < |fs| ensures KeyOrder.Less(f.0, fs[j].0) {
        assert fs[j].0 in Keys(fs);
        if j > 0 {
          KeyOrder.Transitive(f.0, fs[0].0, fs[j].0);
        }
      }
    } else {
      KeyOrder.Total(f.0, fs[0].0);
      var t := Insert(f, fs[1..]);
      assert Keys(fs[1..]) <= Keys(fs) by {
        forall k | k in Keys(fs[1..]) ensures k in Keys(fs) {
          var i :| 0 <= i < |fs[1..]| && fs[1..][i].0 == k;
          assert fs[i + 1].0 == k;
        }
      }
      InsertStrictlySorted(f, fs[1..]);
      InsertPermutes(f, fs[1..]);
      forall j | 0 <= j < |t| ensures KeyOrder.Less(fs[0].0, t[j].0) {
        assert t[j] in multiset(fs[1..]) + multiset{f};
        if t[j] != f {
          assert t[j] in fs[1..];
        } else {
          assert fs[0].0 in Keys(fs);
        }
      }
    }
  }

  /** With distinct keys, the sort's output is strictly in key order. */
  lemma {:induction false} SortByKeyStrictlySorted<V>(fs: seq<(string, V)>)
    requires DistinctKeys(fs)
    ensures StrictlySorted(SortByKey(fs))
  {
    if fs != [] {
      var t := SortByKey(fs[1..]);
      SortByKeyStrictlySorted(fs[1..]);
      SortByKeyPermutes(fs[1..]);
      SameKeys(t, fs[1..]);
      InsertStrictlySorted(fs[0], t);
    }
  }

  /** Sorting a list already in key order changes nothing. */
  lemma {:induction false} SortByKeyOfSorted<V>(fs: seq<(string, V)>)
    requires Sorted(fs)
    ensures SortByKey(fs) == fs
  {
    if fs != [] {
      SortByKeyOfSorted(fs[1..]);
      if |fs| > 1 {
        assert KeyOrder.Le(fs[0].0, fs[1].0);
      }
      assert fs == [fs[0]] + fs[1..];
    }
  }

  lemma HeadIsMember<T>(s: seq<T>)
    ensures s != [] ==> s[0] in s
  {
  }

  /**
   * A list strictly in key order is determined by its members: two such lists
   * holding the same pairs are the same list.
   */
  lemma {:induction false} StrictlySortedUnique<V>(a: seq<(string, V)>, b: seq<(string, V)>)
    requires StrictlySorted(a) && StrictlySorted(b)
    requires forall p :: p in a <==> p in b
    ensures a == b
    decreases |a|
  {
    HeadIsMember(a);
    HeadIsMember(b);
    if a != [] && b != [] {
      assert a[0] in b && b[0] in a;
      var i :| 0 <= i < |a| && a[i] == b[0];
      var j :| 0 <= j < |b| && b[j] == a[0];
      assert a[0] == b[0] by {
        if i != 0 {
          assert KeyOrder.Less(a[0].0, b[0].0);
          if j != 0 {
            assert KeyOrder.Less(b[0].0, a[0].0);
            KeyOrder.Antisymmetric(a[0].0, b[0].0);
          }
        }
      }
      forall p ensures p in a[1..] <==> p in b[1..] {
        if p in a[1..] {
          var k :| 0 <= k < |a[1..]| && a[1..][k] == p;
          assert a[k + 1] == p && p in b;
          if p != b[0] {
            var m :| 0 <= m < |b| && b[m] == p;
            assert b[1..][m - 1] == p;
          }
        }
        if p in b[1..] {
          var k :| 0 <= k < |b[1..]| && b[1..][k] == p;
          assert b[k + 1] == p && p in a;
          if p != a[0] {
            var m :| 0 <= m < |a| && a[m] == p;
            assert a[1..][m - 1] == p;
          }
        }
      }
      StrictlySortedUnique(a[1..], b[1..]);
      assert a == [a[0]] + a[1..] && b == [b[0]] + b[1..];
    }
  }

  /** Keys that ascend strictly from each member to the next ascend strictly throughout. */
  lemma {:induction false} StrictlySortedByNeighbours<V>(fs: seq<(string, V)>)
    requires forall i :: 0 <= i < |fs| - 1 ==> KeyOrder.Less(fs[i].0, fs[i + 1].0)
    ensures StrictlySorted(fs)
  {
    if |fs| > 1 {
      StrictlySortedByNeighbours(fs[1..]);
      forall j | 1 < j < |fs| ensures KeyOrder.Less(fs[0].0, fs[j].0) {
        assert KeyOrder.Less(fs[1].0, fs[j].0);
        KeyOrder.Transitive(fs[0].0, fs[1].0, fs[j].0);
        if fs[0].0 == fs[j].0 {
          KeyOrder.Antisymmetric(fs[0].0, fs[1].0);
        }
      }
    }
  }
}
