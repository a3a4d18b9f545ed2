/**
 * The JSON data model as `JSON.parse` produces it and `canonicalizeJSON`
 * receives it: null, booleans, numbers, strings, arrays and objects.
 */
module JsonValue {

  /**
   * An object is the list of its members in their enumeration order. A number
   * is kept as its source token, and `Serialize` writes that token back.
   */
  datatype Json =
    | Null
    | Bool(b: bool)
    | Num(token: string)
    | Str(s: string)
    | Arr(elems: seq<Json>)
    | Obj(fields: seq<(string, Json)>)

  /** An object's members with the given keys and string values. */
  function StringPairs(ks: seq<string>, vs: seq<string>): seq<(string, Json)>
    requires |ks| == |vs|
  {
    seq(|ks|, i requires 0 <= i < |ks| => (ks[i], Str(vs[i])))
  }

  /** The keys of a member list. */
  function Keys<V>(fs: seq<(string, V)>): set<string> {
    set i | 0 <= i < |fs| :: fs[i].0
  }

  /** No key occurs twice: true of every JavaScript object. */
  predicate DistinctKeys<V>(fs: seq<(string, V)>) {
    forall i, j :: 0 <= i < j < |fs| ==> fs[i].0 != fs[j].0
  }

  /** A value a JavaScript program can hold: distinct keys in every object, at every depth. */
  predicate WellFormed(v: Json)
    decreases v
  {
    match v
    case Arr(es) => forall i :: 0 <= i < |es| ==> WellFormed(es[i])
    case Obj(fs) => DistinctKeys(fs) && forall i :: 0 <= i < |fs| ==> WellFormed(fs[i].1)
    case _ => true
  }

  /**
   * Equal as JSON data: the same scalars, arrays of equal length with equal
   * elements in the same order, and objects with the same keys whose values
   * under each key are equal, whatever order the keys come in.
   */
  predicate Equiv(u: Json, v: Json)
    decreases u
  {
    match u
    case Arr(a) =>
      v.Arr? && |a| == |v.elems| && forall i :: 0 <= i < |a| ==> Equiv(a[i], v.elems[i])
    case Obj(f) =>
      v.Obj? && Keys(f) == Keys(v.fields) &&
      forall i, j :: 0 <= i < |f| && 0 <= j < |v.fields| && f[i].0 == v.fields[j].0 ==>
        Equiv(f[i].1, v.fields[j].1)
    case _ => u == v
  }
}
