/**
 * Parsed JSON documents as the translation commands see them. A JSON object
 * is a Python dict: a sequence of (key, value) fields in insertion order.
 * Numbers are modelled as integers (floating point is not modelled).
 */
module JsonValue {
  import opened Wrappers

  datatype Json =
    | Null
    | Bool(b: bool)
    | Num(n: int)
    | Str(s: string)
    | Arr(items: seq<Json>)
    | Obj(fields: seq<(string, Json)>)

  /** `d.get(k)` on a dict's fields: the first field named `k`. */
  function Get(fields: seq<(string, Json)>, k: string): (r: Option<Json>)
    ensures r.Some? <==> exists i :: 0 <= i < |fields| && fields[i].0 == k
    ensures r.Some? ==> exists i :: 0 <= i < |fields| && fields[i] == (k, r.value)
  {
    if |fields| == 0 then None
    else if fields[0].0 == k then Some(fields[0].1)
    else
      var r := Get(fields[1..], k);
      assert forall i :: 1 <= i < |fields| ==> fields[i] == fields[1..][i - 1];
      r
  }

  /** `d[k] = v` on a dict's fields: replaces the value in place, or appends a new field. */
  function Put(fields: seq<(string, Json)>, k: string, v: Json): seq<(string, Json)>
  {
    if |fields| == 0 then [(k, v)]
    else if fields[0].0 == k then [(k, v)] + fields[1..]
    else [fields[0]] + Put(fields[1..], k, v)
  }

  function KeysOf(fields: seq<(string, Json)>): set<string> {
    set i | 0 <= i < |fields| :: fields[i].0
  }

  /** Python dicts never hold a key twice. */
  predicate DistinctKeys(fields: seq<(string, Json)>) {
    forall i, j :: 0 <= i < j < |fields| ==> fields[i].0 != fields[j].0
  }

  lemma {:induction false} GetPut(fields: seq<(string, Json)>, k: string, v: Json, k': string)
    ensures Get(Put(fields, k, v), k') == if k' == k then Some(v) else Get(fields, k')
  {
    if |fields| > 0 && fields[0].0 != k {
      GetPut(fields[1..], k, v, k');
    }
  }

  /** Assigning a key that is not yet in the dict appends it at the end. */
  lemma {:induction false} PutAbsent(fields: seq<(string, Json)>, k: string, v: Json)
    requires Get(fields, k).None?
    ensures Put(fields, k, v) == fields + [(k, v)]
  {
    if |fields| > 0 {
      PutAbsent(fields[1..], k, v);
      assert fields == [fields[0]] + fields[1..];
    }
  }

  /** Assigning the key of the last field, absent from the fields before it. */
  lemma {:induction false} PutLast(pre: seq<(string, Json)>, k: string, c: Json, v: Json)
    requires Get(pre, k).None?
    ensures Get(pre + [(k, c)], k) == Some(c)
    ensures Put(pre + [(k, c)], k, v) == pre + [(k, v)]
  {
    GetAppend(pre, k, c, k);
    PutAfter(pre, k, c, v);
  }

  lemma {:induction false} PutAfter(pre: seq<(string, Json)>, k: string, c: Json, v: Json)
    requires Get(pre, k).None?
    ensures Put(pre + [(k, c)], k, v) == pre + [(k, v)]
  {
    if |pre| > 0 {
      var s := pre + [(k, c)];
      assert pre[0].0 != k && Get(pre[1..], k).None?;
      assert s[0] == pre[0] && s[1..] == pre[1..] + [(k, c)];
      PutAfter(pre[1..], k, c, v);
      assert pre + [(k, v)] == [pre[0]] + (pre[1..] + [(k, v)]);
    }
  }

  lemma {:induction false} GetAppend(pre: seq<(string, Json)>, k: string, c: Json, k': string)
    ensures Get(pre + [(k, c)], k') == if Get(pre, k').Some? then Get(pre, k') else if k' == k then Some(c) else None
  {
    if |pre| > 0 {
      assert (pre + [(k, c)])[1..] == pre[1..] + [(k, c)];
      GetAppend(pre[1..], k, c, k');
    }
  }

  /** The node reached from `node` by following `path` through dict keys. */
  function Lookup(node: Json, path: seq<string>): Option<Json>
    decreases |path|
  {
    if |path| == 0 then Some(node)
    else if !node.Obj? then None
    else
      match Get(node.fields, path[0])
      case None => None
      case Some(child) => Lookup(child, path[1..])
  }

  predicate IsPrefix(p: seq<string>, q: seq<string>) {
    |p| <= |q| && q[..|p|] == p
  }

  predicate IsProperPrefix(p: seq<string>, q: seq<string>) {
    |p| < |q| && q[..|p|] == p
  }

  /** Neither path lies on the way to the other. */
  predicate Unrelated(p: seq<string>, q: seq<string>) {
    !IsPrefix(p, q) && !IsPrefix(q, p)
  }

  /** Every node on the way to an existing node exists too. */
  lemma {:induction false} LookupPrefix(node: Json, p: seq<string>, q: seq<string>)
    requires IsPrefix(p, q) && Lookup(node, q).Some?
    ensures Lookup(node, p).Some?
    ensures |p| < |q| ==> Lookup(node, p).value.Obj?
    decreases |p|
  {
    if |p| > 0 {
      var child := Get(node.fields, q[0]).value;
      assert q[1..][..|p| - 1] == p[1..];
      LookupPrefix(child, p[1..], q[1..]);
    }
  }
}
