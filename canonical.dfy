/**
 * `canonicalizeJSON`: the value with the keys of every object, at every
 * depth, in sorted order; arrays keep their order and scalars pass through.
 */
module Canonical {
  import opened JsonValue
  import opened KeySort
  import KeyOrder

  /**
   * The one key for which `sorted[key] = …` creates no member: the assignment
   * runs the setter `Object.prototype.__proto__` provides, which ignores a
   * scalar and makes an object or null the new object's prototype. Either
   * way `JSON.stringify` does not write it.
   */
  const ProtoKey: string := "__proto__"

  function Canonicalize(v: Json): Json
    decreases v, 1
  {
    match v
    case Arr(es) => Arr(seq(|es|, i requires 0 <= i < |es| => Canonicalize(es[i])))
    case Obj(_) => Obj(SortByKey(Assigned(CanonicalMembers(v))))
    case _ => v
  }

  /** Each member of an object with its value canonicalised, in the object's own order. */
  function CanonicalMembers(v: Json): seq<(string, Json)>
    requires v.Obj?
    decreases v, 0
  {
    seq(|v.fields|, i requires 0 <= i < |v.fields| => (v.fields[i].0, Canonicalize(v.fields[i].1)))
  }

  /** The members the assignments `sorted[key] = …` create: all but those keyed `__proto__`, in order. */
  function Assigned(fs: seq<(string, Json)>): seq<(string, Json)> {
    if fs == [] then []
    else (if fs[0].0 == ProtoKey then [] else [fs[0]]) + Assigned(fs[1..])
  }

  /** A member is assigned exactly when it is a member whose key is not `__proto__`. */
  lemma {:induction false} AssignedMembers(fs: seq<(string, Json)>)
    ensures forall p :: p in Assigned(fs) <==> p in fs && p.0 != ProtoKey
  {
    if fs != [] {
      AssignedMembers(fs[1..]);
      assert fs == [fs[0]] + fs[1..];
    }
  }

  /** The assigned keys are the object's keys without `__proto__`. */
  lemma AssignedKeys(fs: seq<(string, Json)>)
    ensures Keys(Assigned(fs)) == Keys(fs) - {ProtoKey}
  {
    var r := Assigned(fs);
    AssignedMembers(fs);
    forall k | k in Keys(r)
      ensures k in Keys(fs) - {ProtoKey}
    {
      var i :| 0 <= i < |r| && r[i].0 == k;
      assert r[i] in r;
      var j :| 0 <= j < |fs| && fs[j] == r[i];
    }
    forall k | k in Keys(fs) - {ProtoKey}
      ensures k in Keys(r)
    {
      var j :| 0 <= j < |fs| && fs[j].0 == k;
      assert fs[j] in fs;
      var i :| 0 <= i < |r| && r[i] == fs[j];
    }
  }

  /** Leaving members out keeps the keys distinct. */
  lemma {:induction false} AssignedDistinct(fs: seq<(string, Json)>)
    requires DistinctKeys(fs)
    ensures DistinctKeys(Assigned(fs))
  {
    if fs != [] {
      var rest := Assigned(fs[1..]);
      AssignedDistinct(fs[1..]);
      AssignedMembers(fs[1..]);
      if fs[0].0 != ProtoKey {
        var r := Assigned(fs);
        assert r == [fs[0]] + rest;
        forall j | 0 <= j < |rest|
          ensures rest[j].0 != fs[0].0
        {
          assert rest[j] in rest;
          var k :| 0 <= k < |fs[1..]| && fs[1..][k] == rest[j];
          assert fs[k + 1] == rest[j];
        }
        forall i, j | 0 <= i < j < |r|
          ensures r[i].0 != r[j].0
        {
          assert r[j] == rest[j - 1];
          if i > 0 {
            assert r[i] == rest[i - 1];
          }
        }
      }
    }
  }

  /** Without a `__proto__` member every member is assigned. */
  lemma {:induction false} AssignedAll(fs: seq<(string, Json)>)
    requires ProtoKey !in Keys(fs)
    ensures Assigned(fs) == fs
  {
    if fs != [] {
      assert fs[0].0 in Keys(fs);
      forall k | k in Keys(fs[1..])
        ensures k in Keys(fs)
      {
        var i :| 0 <= i < |fs[1..]| && fs[1..][i].0 == k;
        assert fs[i + 1].0 == k;
      }
      AssignedAll(fs[1..]);
      assert fs == [fs[0]] + fs[1..];
    }
  }

  /** Null, booleans, numbers and strings come back unchanged. */
  lemma ScalarUnchanged(v: Json)
    requires !v.Arr? && !v.Obj?
    ensures Canonicalize(v) == v
  {
  }

  /** An array keeps its length and order; each element is canonicalised in place. */
  lemma ArrayElementwise(es: seq<Json>)
    ensures Canonicalize(Arr(es)).Arr?
    ensures |Canonicalize(Arr(es)).elems| == |es|
    ensures forall i :: 0 <= i < |es| ==> Canonicalize(Arr(es)).elems[i] == Canonicalize(es[i])
  {
  }

  /** Sorting the assigned members keeps exactly them, with their keys, in key order. */
  lemma SortAssigned(cm: seq<(string, Json)>)
    ensures Keys(SortByKey(Assigned(cm))) == Keys(cm) - {ProtoKey}
    ensures Sorted(SortByKey(Assigned(cm)))
    ensures DistinctKeys(cm) ==> StrictlySorted(SortByKey(Assigned(cm)))
    ensures forall p :: p in SortByKey(Assigned(cm)) <==> p in cm && p.0 != ProtoKey
  {
    var own := Assigned(cm);
    var out := SortByKey(own);
    AssignedMembers(cm);
    AssignedKeys(cm);
    SortByKeyPermutes(own);
    SameKeys(out, own);
    SortByKeySorted(own);
    if DistinctKeys(cm) {
      AssignedDistinct(cm);
      SortByKeyStrictlySorted(own);
    }
    forall p
      ensures p in out <==> p in own
    {
      assert p in out <==> p in multiset(out);
    }
  }

  /**
   * An object keeps its key set except `__proto__`; its keys come out in
   * ascending order (strictly so when they are distinct, as in every
   * JavaScript object); and each output member is an input key other than
   * `__proto__` paired with the canonical form of its value there.
   */
  lemma {:induction false} ObjectSortedByKey(fs: seq<(string, Json)>)
    ensures Canonicalize(Obj(fs)).Obj?
    ensures Keys(Canonicalize(Obj(fs)).fields) == Keys(fs) - {ProtoKey}
    ensures Sorted(Canonicalize(Obj(fs)).fields)
    ensures DistinctKeys(fs) ==> StrictlySorted(Canonicalize(Obj(fs)).fields)
    ensures forall p :: p in Canonicalize(Obj(fs)).fields <==>
              exists i :: 0 <= i < |fs| && fs[i].0 != ProtoKey && p == (fs[i].0, Canonicalize(fs[i].1))
  {
    var cm := CanonicalMembers(Obj(fs));
    assert Keys(cm) == Keys(fs) by {
      forall k | k in Keys(fs) ensures k in Keys(cm) {
        var i :| 0 <= i < |fs| && fs[i].0 == k;
        assert cm[i].0 == k;
      }
    }
    assert DistinctKeys(fs) ==> DistinctKeys(cm);
    SortAssigned(cm);
    forall p | p in cm
      ensures exists i :: 0 <= i < |fs| && p == (fs[i].0, Canonicalize(fs[i].1))
    {
      var i :| 0 <= i < |cm| && cm[i] == p;
    }
    forall i | 0 <= i < |fs|
      ensures (fs[i].0, Canonicalize(fs[i].1)) in cm
    {
      assert cm[i] == (fs[i].0, Canonicalize(fs[i].1));
    }
  }

  /**
   * Values that are already canonical: every object, at every depth, strictly
   * sorted by key and without a `__proto__` member.
   */
  predicate IsCanonical(v: Json)
    decreases v
  {
    match v
    case Arr(es) => forall i :: 0 <= i < |es| ==> IsCanonical(es[i])
    case Obj(fs) =>
      StrictlySorted(fs) && ProtoKey !in Keys(fs) && forall i :: 0 <= i < |fs| ==> IsCanonical(fs[i].1)
    case _ => true
  }

  /** Canonicalising a JavaScript value yields a canonical JavaScript value. */
  lemma {:induction false} CanonicalizeIsCanonical(v: Json)
    requires WellFormed(v)
    ensures WellFormed(Canonicalize(v)) && IsCanonical(Canonicalize(v))
    decreases v
  {
    match v
    case Arr(es) =>
      forall i | 0 <= i < |es|
        ensures WellFormed(Canonicalize(es[i])) && IsCanonical(Canonicalize(es[i]))
      {
        CanonicalizeIsCanonical(es[i]);
      }
    case Obj(fs) =>
      var out := Canonicalize(v).fields;
      ObjectSortedByKey(fs);
      forall k | 0 <= k < |out| ensures WellFormed(out[k].1) && IsCanonical(out[k].1) {
        assert out[k] in out;
        var i :| 0 <= i < |fs| && fs[i].0 != ProtoKey && out[k] == (fs[i].0, Canonicalize(fs[i].1));
        CanonicalizeIsCanonical(fs[i].1);
      }
    case _ =>
  }

  /** Canonical values are exactly the fixed points: canonicalising one changes nothing. */
  lemma {:induction false} CanonicalFixpoint(v: Json)
    requires IsCanonical(v)
    ensures Canonicalize(v) == v
    decreases v
  {
    match v
    case Arr(es) =>
      forall i | 0 <= i < |es| ensures Canonicalize(es[i]) == es[i] {
        CanonicalFixpoint(es[i]);
      }
    case Obj(fs) =>
      var cm := CanonicalMembers(v);
      forall i | 0 <= i < |fs| ensures cm[i] == fs[i] {
        CanonicalFixpoint(fs[i].1);
      }
      assert cm == fs;
      AssignedAll(fs);
      SortByKeyOfSorted(fs);
    case _ =>
  }

  /** `canonicalizeJSON(canonicalizeJSON(v))` equals `canonicalizeJSON(v)`. */
  lemma {:induction false} Idempotent(v: Json)
    ensures Canonicalize(Canonicalize(v)) == Canonicalize(v)
    decreases v
  {
    match v
    case Arr(es) =>
      forall i | 0 <= i < |es| ensures Canonicalize(Canonicalize(es[i])) == Canonicalize(es[i]) {
        Idempotent(es[i]);
      }
    case Obj(fs) =>
      var out := Canonicalize(v).fields;
      ObjectSortedByKey(fs);
      var cm := CanonicalMembers(Obj(out));
      forall k | 0 <= k < |out| ensures cm[k] == out[k] {
        assert out[k] in out;
        var i :| 0 <= i < |fs| && fs[i].0 != ProtoKey && out[k] == (fs[i].0, Canonicalize(fs[i].1));
        Idempotent(fs[i].1);
      }
      assert cm == out;
      AssignedAll(out);
      SortByKeyOfSorted(out);
    case _ =>
  }

  /**
   * Equal as the data `canonicalizeJSON` keeps: like `Equiv`, except that
   * members keyed `__proto__` take no part in the comparison, at any depth.
   */
  predicate EquivKept(u: Json, v: Json)
    decreases u
  {
    match u
    case Arr(a) =>
      v.Arr? && |a| == |v.elems| && forall i :: 0 <= i < |a| ==> EquivKept(a[i], v.elems[i])
    case Obj(f) =>
      v.Obj? && Keys(f) - {ProtoKey} == Keys(v.fields) - {ProtoKey} &&
      forall i, j :: 0 <= i < |f| && 0 <= j < |v.fields| && f[i].0 == v.fields[j].0 && f[i].0 != ProtoKey ==>
        EquivKept(f[i].1, v.fields[j].1)
    case _ => u == v
  }

  /** Values equal as JSON data are equal as the data canonicalisation keeps. */
  lemma {:induction false} EquivIsKept(u: Json, v: Json)
    requires Equiv(u, v)
    ensures EquivKept(u, v)
    decreases u
  {
    match u
    case Arr(a) =>
      forall i | 0 <= i < |a| ensures EquivKept(a[i], v.elems[i]) {
        EquivIsKept(a[i], v.elems[i]);
      }
    case Obj(f) =>
      var g := v.fields;
      forall i, j | 0 <= i < |f| && 0 <= j < |g| && f[i].0 == g[j].0 && f[i].0 != ProtoKey
        ensures EquivKept(f[i].1, g[j].1)
      {
        EquivIsKept(f[i].1, g[j].1);
      }
    case _ =>
  }

  /** Values equal apart from their `__proto__` members have the same canonical form. */
  lemma {:induction false} KeptSameCanonical(u: Json, v: Json)
    requires WellFormed(u) && WellFormed(v) && EquivKept(u, v)
    ensures Canonicalize(u) == Canonicalize(v)
    decreases u
  {
    match u
    case Arr(a) =>
      forall i | 0 <= i < |a| ensures Canonicalize(a[i]) == Canonicalize(v.elems[i]) {
        KeptSameCanonical(a[i], v.elems[i]);
      }
    case Obj(f) =>
      var g := v.fields;
      forall i, j | 0 <= i < |f| && 0 <= j < |g| && f[i].0 == g[j].0 && f[i].0 != ProtoKey
        ensures Canonicalize(f[i].1) == Canonicalize(g[j].1)
      {
        KeptSameCanonical(f[i].1, g[j].1);
      }
      MatchingObjectsCanonical(f, g);
    case _ =>
  }

  /** Values equal as JSON data have the same canonical form. */
  lemma EquivSameCanonical(u: Json, v: Json)
    requires WellFormed(u) && WellFormed(v) && Equiv(u, v)
    ensures Canonicalize(u) == Canonicalize(v)
  {
    EquivIsKept(u, v);
    KeptSameCanonical(u, v);
  }

  /**
   * Objects with the same keys apart from `__proto__`, whose values under each
   * of those keys canonicalise alike, canonicalise alike.
   */
  lemma MatchingObjectsCanonical(f: seq<(string, Json)>, g: seq<(string, Json)>)
    requires DistinctKeys(f) && DistinctKeys(g) && Keys(f) - {ProtoKey} == Keys(g) - {ProtoKey}
    requires forall i, j :: 0 <= i < |f| && 0 <= j < |g| && f[i].0 == g[j].0 && f[i].0 != ProtoKey ==>
      Canonicalize(f[i].1) == Canonicalize(g[j].1)
    ensures Canonicalize(Obj(f)) == Canonicalize(Obj(g))
  {
    ObjectSortedByKey(f);
    ObjectSortedByKey(g);
    var a := Canonicalize(Obj(f)).fields;
    var b := Canonicalize(Obj(g)).fields;
    forall p ensures p in a <==> p in b {
      if p in a {
        var i :| 0 <= i < |f| && f[i].0 != ProtoKey && p == (f[i].0, Canonicalize(f[i].1));
        assert f[i].0 in Keys(g) - {ProtoKey};
        var j :| 0 <= j < |g| && g[j].0 == f[i].0;
        assert p == (g[j].0, Canonicalize(g[j].1));
      }
      if p in b {
        var j :| 0 <= j < |g| && g[j].0 != ProtoKey && p == (g[j].0, Canonicalize(g[j].1));
        assert g[j].0 in Keys(f) - {ProtoKey};
        var i :| 0 <= i < |f| && f[i].0 == g[j].0;
        assert p == (f[i].0, Canonicalize(f[i].1));
      }
    }
    StrictlySortedUnique(a, b);
  }

  /** Values with the same canonical form are equal apart from their `__proto__` members. */
  lemma {:induction false} SameCanonicalKept(u: Json, v: Json)
    requires WellFormed(u) && WellFormed(v) && Canonicalize(u) == Canonicalize(v)
    ensures EquivKept(u, v)
    decreases u
  {
    match u
    case Arr(a) =>
      assert v.Arr?;
      forall i | 0 <= i < |a| ensures EquivKept(a[i], v.elems[i]) {
        assert Canonicalize(u).elems[i] == Canonicalize(v).elems[i];
        SameCanonicalKept(a[i], v.elems[i]);
      }
    case Obj(f) =>
      assert v.Obj?;
      var g := v.fields;
      ObjectSortedByKey(f);
      ObjectSortedByKey(g);
      var out := Canonicalize(u).fields;
      forall i, j | 0 <= i < |f| && 0 <= j < |g| && f[i].0 == g[j].0 && f[i].0 != ProtoKey
        ensures EquivKept(f[i].1, g[j].1)
      {
        var p := (f[i].0, Canonicalize(f[i].1));
        assert p in out;
        var j' :| 0 <= j' < |g| && g[j'].0 != ProtoKey && p == (g[j'].0, Canonicalize(g[j'].1));
        assert j' == j;
        SameCanonicalKept(f[i].1, g[j].1);
      }
    case _ =>
      assert !v.Arr? && !v.Obj?;
  }

  /**
   * Key-order invariance, both ways: two JavaScript values have the same
   * canonical form exactly when they hold the same data, whatever order the
   * keys of their objects come in, once members keyed `__proto__` are
   * disregarded.
   */
  lemma SameCanonicalIff(u: Json, v: Json)
    requires WellFormed(u) && WellFormed(v)
    ensures Canonicalize(u) == Canonicalize(v) <==> EquivKept(u, v)
  {
    if EquivKept(u, v) {
      KeptSameCanonical(u, v);
    }
    if Canonicalize(u) == Canonicalize(v) {
      SameCanonicalKept(u, v);
    }
  }

  /** A `__proto__` member in front of an object's members, whatever its value, changes nothing. */
  lemma {:induction false} ProtoMemberIgnored(x: Json, fs: seq<(string, Json)>)
    ensures Canonicalize(Obj([(ProtoKey, x)] + fs)) == Canonicalize(Obj(fs))
  {
    var gs := [(ProtoKey, x)] + fs;
    var cm, tail := CanonicalMembers(Obj(gs)), CanonicalMembers(Obj(fs));
    assert |cm| == |tail| + 1;
    forall i | 0 <= i < |tail|
      ensures cm[i + 1] == tail[i]
    {
      assert gs[i + 1] == fs[i];
    }
    assert cm[1..] == tail;
    assert cm[0].0 == ProtoKey;
    assert Assigned(cm) == Assigned(tail);
  }

  /**
   * Two objects holding the same key/value pairs, in whatever order, have the
   * same canonical form.
   */
  lemma ReorderedObject(f: seq<(string, Json)>, g: seq<(string, Json)>)
    requires DistinctKeys(f) && DistinctKeys(g)
    requires forall p :: p in f <==> p in g
    ensures Canonicalize(Obj(f)) == Canonicalize(Obj(g))
  {
    ObjectSortedByKey(f);
    ObjectSortedByKey(g);
    var a := Canonicalize(Obj(f)).fields;
    var b := Canonicalize(Obj(g)).fields;
    forall p ensures p in a <==> p in b {
      if p in a {
        var i :| 0 <= i < |f| && f[i].0 != ProtoKey && p == (f[i].0, Canonicalize(f[i].1));
        assert f[i] in g;
      }
      if p in b {
        var j :| 0 <= j < |g| && g[j].0 != ProtoKey && p == (g[j].0, Canonicalize(g[j].1));
        assert g[j] in f;
      }
    }
    StrictlySortedUnique(a, b);
  }

  /**
   * An object whose values are all scalars canonicalises to the one strictly
   * key-ordered list holding its members other than `__proto__`.
   */
  lemma ScalarObjectCanonical(fs: seq<(string, Json)>, e: seq<(string, Json)>)
    requires DistinctKeys(fs) && StrictlySorted(e)
    requires forall i :: 0 <= i < |fs| ==> !fs[i].1.Arr? && !fs[i].1.Obj?
    requires forall p :: p in e <==> p in fs && p.0 != ProtoKey
    ensures Canonicalize(Obj(fs)) == Obj(e)
  {
    ObjectSortedByKey(fs);
    var out := Canonicalize(Obj(fs)).fields;
    forall p ensures p in out <==> p in e {
      if p in out {
        var i :| 0 <= i < |fs| && fs[i].0 != ProtoKey && p == (fs[i].0, Canonicalize(fs[i].1));
        ScalarUnchanged(fs[i].1);
        assert p == fs[i];
      }
      if p in e {
        var i :| 0 <= i < |fs| && fs[i] == p;
        ScalarUnchanged(fs[i].1);
        assert p == (fs[i].0, Canonicalize(fs[i].1));
      }
    }
    StrictlySortedUnique(out, e);
  }
}
