/**
 * What `tree_to_list` promises: it succeeds exactly on trees whose every
 * non-leaf value is a dict, it emits one entry per leaf and no other, each
 * entry's path leads to its leaf, and the paths are distinct.
 */
module FlattenLaws {
  import opened Wrappers
  import opened JsonValue
  import opened TreeCodec

  // ---- success

  /** A dict in which every value is a leaf or, recursively, such a dict. */
  predicate Flattenable(isLeaf: Json -> bool, node: Json)
    decreases node
  {
    node.Obj? &&
    forall i :: 0 <= i < |node.fields| ==> isLeaf(node.fields[i].1) || Flattenable(isLeaf, node.fields[i].1)
  }

  /** `tree_to_list` raises exactly when it has to descend into a non-dict. */
  lemma {:induction false} FlattenOkIff(isLeaf: Json -> bool, node: Json, path: seq<string>)
    ensures FlattenNode(isLeaf, node, path).Ok? <==> Flattenable(isLeaf, node)
    decreases node, if node.Obj? then |node.fields| + 1 else 0
  {
    if node.Obj? {
      FieldsOkIff(isLeaf, node, 0, path);
    }
  }

  lemma {:induction false} FieldsOkIff(isLeaf: Json -> bool, node: Json, i: nat, path: seq<string>)
    requires node.Obj? && i <= |node.fields|
    ensures FlattenFields(isLeaf, node, i, path).Ok? <==>
      forall k :: i <= k < |node.fields| ==> isLeaf(node.fields[k].1) || Flattenable(isLeaf, node.fields[k].1)
    decreases node, |node.fields| - i
  {
    if i < |node.fields| {
      var key := node.fields[i].0;
      var child := node.fields[i].1;
      assert node.fields[i] < node;
      if !isLeaf(child) {
        FlattenOkIff(isLeaf, child, path + [key]);
      }
      FieldsOkIff(isLeaf, node, i + 1, path);
    }
  }

  // ---- the path prefix is carried along unchanged

  /** The entries `es` with `p` put in front of every path. */
  function Prepend(p: seq<string>, es: seq<Entry>): (r: seq<Entry>)
    ensures |r| == |es|
    ensures forall i :: 0 <= i < |es| ==> r[i] == Entry(p + es[i].path, es[i].value)
  {
    seq(|es|, i requires 0 <= i < |es| => Entry(p + es[i].path, es[i].value))
  }

  function Shifted(p: seq<string>, r: Result<seq<Entry>, CodecError>): Result<seq<Entry>, CodecError> {
    match r
    case Ok(es) => Ok(Prepend(p, es))
    case Err(e) => Err(e)
  }

  /** Flattening below `p + s` is flattening below `s` with `p` put in front. */
  lemma {:induction false} ShiftNode(isLeaf: Json -> bool, node: Json, p: seq<string>, s: seq<string>)
    ensures FlattenNode(isLeaf, node, p + s) == Shifted(p, FlattenNode(isLeaf, node, s))
    decreases node, if node.Obj? then |node.fields| + 1 else 0
  {
    if node.Obj? {
      ShiftFields(isLeaf, node, 0, p, s);
    }
  }

  lemma {:induction false} ShiftFields(isLeaf: Json -> bool, node: Json, i: nat, p: seq<string>, s: seq<string>)
    requires node.Obj? && i <= |node.fields|
    ensures FlattenFields(isLeaf, node, i, p + s) == Shifted(p, FlattenFields(isLeaf, node, i, s))
    decreases node, |node.fields| - i
  {
    if i < |node.fields| {
      var key := node.fields[i].0;
      var child := node.fields[i].1;
      assert node.fields[i] < node;
      assert (p + s) + [key] == p + (s + [key]);
      if !isLeaf(child) {
        ShiftNode(isLeaf, child, p, s + [key]);
      } else {
        assert Prepend(p, [Entry(s + [key], child)]) == [Entry(p + (s + [key]), child)];
      }
      assert Head(isLeaf, node, i, p + s) == Shifted(p, Head(isLeaf, node, i, s));
      ShiftFields(isLeaf, node, i + 1, p, s);
      FieldsUnfold(isLeaf, node, i, p + s);
      FieldsUnfold(isLeaf, node, i, s);
      ShiftCat(p, Head(isLeaf, node, i, s), FlattenFields(isLeaf, node, i + 1, s));
    }
  }

  /** The entries the field at `i` contributes. */
  function Head(isLeaf: Json -> bool, node: Json, i: nat, path: seq<string>): Result<seq<Entry>, CodecError>
    requires node.Obj? && i < |node.fields|
    decreases node, 0
  {
    assert node.fields[i] < node;
    var key := node.fields[i].0;
    var child := node.fields[i].1;
    if isLeaf(child) then Ok([Entry(path + [key], child)]) else FlattenNode(isLeaf, child, path + [key])
  }

  function Cat(a: Result<seq<Entry>, CodecError>, b: Result<seq<Entry>, CodecError>): Result<seq<Entry>, CodecError> {
    match a
    case Err(e) => Err(e)
    case Ok(x) => match b case Err(e) => Err(e) case Ok(y) => Ok(x + y)
  }

  lemma FieldsUnfold(isLeaf: Json -> bool, node: Json, i: nat, path: seq<string>)
    requires node.Obj? && i < |node.fields|
    ensures FlattenFields(isLeaf, node, i, path) == Cat(Head(isLeaf, node, i, path), FlattenFields(isLeaf, node, i + 1, path))
  {
  }

  lemma ShiftCat(p: seq<string>, a: Result<seq<Entry>, CodecError>, b: Result<seq<Entry>, CodecError>)
    ensures Cat(Shifted(p, a), Shifted(p, b)) == Shifted(p, Cat(a, b))
  {
    if a.Ok? && b.Ok? {
      assert Prepend(p, a.value + b.value) == Prepend(p, a.value) + Prepend(p, b.value);
    }
  }

  // ---- soundness, completeness, distinctness

  /** Every dict reachable through dicts has distinct keys, as Python dicts do. */
  predicate WellFormed(node: Json)
    decreases node
  {
    node.Obj? ==> DistinctKeys(node.fields) && forall i :: 0 <= i < |node.fields| ==> WellFormed(node.fields[i].1)
  }

  /** Following `q` from `node` passes only through non-leaf dicts and ends at a leaf. */
  predicate LeafAt(isLeaf: Json -> bool, node: Json, q: seq<string>)
    decreases |q|
  {
    node.Obj? && |q| >= 1 &&
    match Get(node.fields, q[0])
    case None => false
    case Some(c) => if |q| == 1 then isLeaf(c) else !isLeaf(c) && LeafAt(isLeaf, c, q[1..])
  }

  lemma {:induction false} GetDistinct(fields: seq<(string, Json)>, k: nat)
    requires DistinctKeys(fields) && k < |fields|
    ensures Get(fields, fields[k].0) == Some(fields[k].1)
  {
    if k > 0 {
      assert fields[1..][k - 1] == fields[k];
      GetDistinct(fields[1..], k - 1);
    }
  }

  /** Each emitted entry names a leaf of the tree, and its path leads to that leaf. */
  lemma {:induction false} FlattenSound(isLeaf: Json -> bool, node: Json, path: seq<string>)
    requires WellFormed(node) && FlattenNode(isLeaf, node, path).Ok?
    ensures forall e :: e in FlattenNode(isLeaf, node, path).value ==>
      LeafAt(isLeaf, node, e.path[|path|..]) && Lookup(node, e.path[|path|..]) == Some(e.value)
    decreases node, 2, 0
  {
    FieldsSound(isLeaf, node, 0, path);
  }

  lemma {:induction false} FieldsSound(isLeaf: Json -> bool, node: Json, i: nat, path: seq<string>)
    requires node.Obj? && i <= |node.fields|
    requires WellFormed(node) && FlattenFields(isLeaf, node, i, path).Ok?
    ensures forall e :: e in FlattenFields(isLeaf, node, i, path).value ==>
      LeafAt(isLeaf, node, e.path[|path|..]) && Lookup(node, e.path[|path|..]) == Some(e.value)
    decreases node, 1, |node.fields| - i
  {
    if i < |node.fields| {
      FieldsOkSplit(isLeaf, node, i, path);
      HeadSound(isLeaf, node, i, path);
      FieldsSound(isLeaf, node, i + 1, path);
    }
  }

  /** The entries of field `i` name leaves below its key. */
  lemma {:induction false} HeadSound(isLeaf: Json -> bool, node: Json, i: nat, path: seq<string>)
    requires node.Obj? && i < |node.fields|
    requires WellFormed(node) && Head(isLeaf, node, i, path).Ok?
    ensures forall e :: e in Head(isLeaf, node, i, path).value ==>
      LeafAt(isLeaf, node, e.path[|path|..]) && Lookup(node, e.path[|path|..]) == Some(e.value)
    decreases node, 0, 0
  {
    var key := node.fields[i].0;
    var child := node.fields[i].1;
    assert node.fields[i] < node;
    GetDistinct(node.fields, i);
    var p' := path + [key];
    var head := Head(isLeaf, node, i, path);
    if !isLeaf(child) {
      FlattenSound(isLeaf, child, p');
    }
    forall e | e in head.value
      ensures LeafAt(isLeaf, node, e.path[|path|..]) && Lookup(node, e.path[|path|..]) == Some(e.value)
    {
      var q := e.path[|path|..];
      assert e.path[..|p'|] == p';
      assert q[0] == key;
      if isLeaf(child) {
        assert q == [key];
      } else {
        assert q[1..] == e.path[|p'|..];
      }
    }
  }

  /** A successful loop from field `i` is the entries of field `i` followed by those of the rest. */
  lemma FieldsOkSplit(isLeaf: Json -> bool, node: Json, i: nat, path: seq<string>)
    requires node.Obj? && i < |node.fields| && FlattenFields(isLeaf, node, i, path).Ok?
    ensures Head(isLeaf, node, i, path).Ok? && FlattenFields(isLeaf, node, i + 1, path).Ok?
    ensures FlattenFields(isLeaf, node, i, path).value
         == Head(isLeaf, node, i, path).value + FlattenFields(isLeaf, node, i + 1, path).value
  {
    FieldsUnfold(isLeaf, node, i, path);
  }

  /** Every leaf of the tree is emitted, under its own path. */
  lemma {:induction false} FlattenComplete(isLeaf: Json -> bool, node: Json, path: seq<string>, q: seq<string>)
    requires WellFormed(node) && FlattenNode(isLeaf, node, path).Ok? && LeafAt(isLeaf, node, q)
    ensures exists e :: e in FlattenNode(isLeaf, node, path).value && e.path == path + q
    decreases node, 2, 0
  {
    var k :| 0 <= k < |node.fields| && node.fields[k] == (q[0], Get(node.fields, q[0]).value);
    FieldsComplete(isLeaf, node, 0, k, path, q);
  }

  lemma {:induction false} FieldsComplete(isLeaf: Json -> bool, node: Json, i: nat, k: nat, path: seq<string>, q: seq<string>)
    requires node.Obj? && i <= k < |node.fields|
    requires WellFormed(node) && FlattenFields(isLeaf, node, i, path).Ok? && LeafAt(isLeaf, node, q)
    requires node.fields[k].0 == q[0]
    ensures exists e :: e in FlattenFields(isLeaf, node, i, path).value && e.path == path + q
    decreases node, 1, k - i
  {
    FieldsOkSplit(isLeaf, node, i, path);
    var all := FlattenFields(isLeaf, node, i, path).value;
    var head := Head(isLeaf, node, i, path).value;
    var rest := FlattenFields(isLeaf, node, i + 1, path).value;
    if k == i {
      HeadComplete(isLeaf, node, i, path, q);
      var e :| e in head && e.path == path + q;
      assert e in all;
    } else {
      FieldsComplete(isLeaf, node, i + 1, k, path, q);
      var e :| e in rest && e.path == path + q;
      assert e in all;
    }
  }

  /** The leaf at `q` lies under field `i` when that field has `q`'s first key. */
  lemma {:induction false} HeadComplete(isLeaf: Json -> bool, node: Json, i: nat, path: seq<string>, q: seq<string>)
    requires node.Obj? && i < |node.fields|
    requires WellFormed(node) && Head(isLeaf, node, i, path).Ok? && LeafAt(isLeaf, node, q)
    requires node.fields[i].0 == q[0]
    ensures exists e :: e in Head(isLeaf, node, i, path).value && e.path == path + q
    decreases node, 0, 0
  {
    var key := node.fields[i].0;
    var child := node.fields[i].1;
    assert node.fields[i] < node;
    GetDistinct(node.fields, i);
    var p' := path + [key];
    var head := Head(isLeaf, node, i, path).value;
    if isLeaf(child) {
      assert q == [key];
      assert head[0] in head;
    } else {
      FlattenComplete(isLeaf, child, p', q[1..]);
      assert p' + q[1..] == path + q;
    }
  }


  predicate DistinctPaths(es: seq<Entry>) {
    forall a, b :: 0 <= a < b < |es| ==> es[a].path != es[b].path
  }

  /** No path is emitted twice. */
  lemma {:induction false} FlattenDistinct(isLeaf: Json -> bool, node: Json, path: seq<string>)
    requires WellFormed(node) && FlattenNode(isLeaf, node, path).Ok?
    ensures DistinctPaths(FlattenNode(isLeaf, node, path).value)
    decreases node, if node.Obj? then |node.fields| + 1 else 0
  {
    FieldsDistinct(isLeaf, node, 0, path);
  }

  lemma {:induction false} FieldsDistinct(isLeaf: Json -> bool, node: Json, i: nat, path: seq<string>)
    requires node.Obj? && i <= |node.fields|
    requires WellFormed(node) && FlattenFields(isLeaf, node, i, path).Ok?
    ensures DistinctPaths(FlattenFields(isLeaf, node, i, path).value)
    decreases node, |node.fields| - i
  {
    if i < |node.fields| {
      var key := node.fields[i].0;
      var child := node.fields[i].1;
      assert node.fields[i] < node;
      FieldsUnfold(isLeaf, node, i, path);
      var head := Head(isLeaf, node, i, path).value;
      var rest := FlattenFields(isLeaf, node, i + 1, path).value;
      FieldsDistinct(isLeaf, node, i + 1, path);
      if !isLeaf(child) {
        FlattenDistinct(isLeaf, child, path + [key]);
      }
      HeadKey(isLeaf, node, i, path);
      FieldsKeys(isLeaf, node, i + 1, path);
      forall x, y | x in head && y in rest ensures x.path != y.path {
        var k :| i + 1 <= k < |node.fields| && y.path[|path|] == node.fields[k].0;
      }
      CatDistinct(head, rest);
    }
  }

  /** The entries of field `i` all pass through its key. */
  lemma HeadKey(isLeaf: Json -> bool, node: Json, i: nat, path: seq<string>)
    requires node.Obj? && i < |node.fields| && Head(isLeaf, node, i, path).Ok?
    ensures forall e :: e in Head(isLeaf, node, i, path).value ==> e.path[|path|] == node.fields[i].0
  {
    var p' := path + [node.fields[i].0];
    forall e | e in Head(isLeaf, node, i, path).value ensures e.path[|path|] == node.fields[i].0 {
      assert e.path[..|p'|] == p';
    }
  }

  /** The entries from field `i` on pass through the keys of those fields. */
  lemma {:induction false} FieldsKeys(isLeaf: Json -> bool, node: Json, i: nat, path: seq<string>)
    requires node.Obj? && i <= |node.fields| && FlattenFields(isLeaf, node, i, path).Ok?
    ensures forall e :: e in FlattenFields(isLeaf, node, i, path).value ==>
      exists k :: i <= k < |node.fields| && e.path[|path|] == node.fields[k].0
    decreases |node.fields| - i
  {
    if i < |node.fields| {
      FieldsUnfold(isLeaf, node, i, path);
      HeadKey(isLeaf, node, i, path);
      FieldsKeys(isLeaf, node, i + 1, path);
    }
  }

  lemma CatDistinct(a: seq<Entry>, b: seq<Entry>)
    requires DistinctPaths(a) && DistinctPaths(b)
    requires forall x, y :: x in a && y in b ==> x.path != y.path
    ensures DistinctPaths(a + b)
  {
    var all := a + b;
    forall m, n | 0 <= m < n < |all| ensures all[m].path != all[n].path {
      if n >= |a| && m < |a| {
        assert all[m] in a && all[n] in b;
      } else if m >= |a| {
        assert all[m] == b[m - |a|] && all[n] == b[n - |a|];
      }
    }
  }
}
