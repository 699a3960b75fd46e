/**
 * `list_to_tree(tree_to_list(tree))` gives the tree back, both on key paths
 * and on the dotted key ids the dump command writes, for every tree whose
 * non-leaf dicts are non-empty and have distinct, dot-free keys.
 */
module RoundTrip {
  import opened Wrappers
  import opened JsonValue
  import opened DottedPath
  import opened TreeCodec
  import opened InsertLaws
  import opened FlattenLaws

  /** Distinct keys, and every value a leaf or a non-empty dict of the same kind. */
  predicate Canonical(isLeaf: Json -> bool, node: Json)
    decreases node
  {
    node.Obj? && DistinctKeys(node.fields) &&
    forall i :: 0 <= i < |node.fields| ==>
      isLeaf(node.fields[i].1) ||
      (node.fields[i].1.Obj? && |node.fields[i].1.fields| > 0 && Canonical(isLeaf, node.fields[i].1))
  }

  /** The keys on the way to every leaf hold no dot. */
  predicate KeysDotFree(isLeaf: Json -> bool, node: Json)
    decreases node
  {
    node.Obj? ==>
      forall i :: 0 <= i < |node.fields| ==>
        '.' !in node.fields[i].0 && (isLeaf(node.fields[i].1) || KeysDotFree(isLeaf, node.fields[i].1))
  }

  /** The entries of one field `(k, v)` as `tree_to_list` emits them from the root. */
  function ChildEntries(isLeaf: Json -> bool, k: string, v: Json): Result<seq<Entry>, CodecError> {
    if isLeaf(v) then Ok([Entry([k], v)]) else FlattenNode(isLeaf, v, [k])
  }

  /** Entries below `k` grow the dict already sitting at `k` (the last field) as they grew `c0`. */
  lemma {:induction false} GrowChild(pre: seq<(string, Json)>, k: string, c0: Json, d: seq<Entry>, c: Json)
    requires Get(pre, k).None? && c0.Obj? && PathsNonEmpty(d) && InsertAll(c0, d) == Ok(c)
    ensures PathsNonEmpty(Prepend([k], d))
    ensures InsertAll(Obj(pre + [(k, c0)]), Prepend([k], d)) == Ok(Obj(pre + [(k, c)]))
    decreases |d|
  {
    var e := Prepend([k], d);
    if |d| > 0 {
      InsertAllStep(c0, d);
      InsertAllStep(Obj(pre + [(k, c0)]), e);
      var c1 := Insert(c0, d[0].path, d[0].value).value;
      PutLast(pre, k, c0, c1);
      assert e[0].path[1..] == d[0].path;
      assert Insert(Obj(pre + [(k, c0)]), e[0].path, e[0].value) == Ok(Obj(pre + [(k, c1)]));
      assert e[1..] == Prepend([k], d[1..]);
      GrowChild(pre, k, c1, d[1..], c);
    } else {
      assert e == [];
    }
  }

  /** Entries below a key absent from `pre` build a new last field there. */
  lemma NewChild(pre: seq<(string, Json)>, k: string, d: seq<Entry>, c: Json)
    requires Get(pre, k).None? && PathsNonEmpty(d) && |d| >= 1 && InsertAll(Obj([]), d) == Ok(c)
    ensures PathsNonEmpty(Prepend([k], d))
    ensures InsertAll(Obj(pre), Prepend([k], d)) == Ok(Obj(pre + [(k, c)]))
  {
    var e := Prepend([k], d);
    InsertAllStep(Obj([]), d);
    InsertAllStep(Obj(pre), e);
    var c1 := Insert(Obj([]), d[0].path, d[0].value).value;
    PutAbsent(pre, k, c1);
    assert e[0].path[1..] == d[0].path;
    assert Insert(Obj(pre), e[0].path, e[0].value) == Ok(Obj(pre + [(k, c1)]));
    assert e[1..] == Prepend([k], d[1..]);
    GrowChild(pre, k, c1, d[1..], c);
  }

  /** Replaying one field's entries after the earlier fields appends that field. */
  lemma {:induction false} RebuildChild(isLeaf: Json -> bool, pre: seq<(string, Json)>, k: string, v: Json)
    requires Get(pre, k).None?
    requires isLeaf(v) || (v.Obj? && |v.fields| > 0 && Canonical(isLeaf, v))
    ensures ChildEntries(isLeaf, k, v).Ok? && PathsNonEmpty(ChildEntries(isLeaf, k, v).value)
    ensures InsertAll(Obj(pre), ChildEntries(isLeaf, k, v).value) == Ok(Obj(pre + [(k, v)]))
    decreases v, 2, 0
  {
    if isLeaf(v) {
      PutAbsent(pre, k, v);
      assert [Entry([k], v)][1..] == [];
    } else {
      RebuildFields(isLeaf, v, 0);
      assert v.fields[..0] == [];
      var d := FlattenNode(isLeaf, v, []).value;
      ShiftNode(isLeaf, v, [k], []);
      assert [k] + [] == [k];
      assert |d| >= 1;
      NewChild(pre, k, d, v);
    }
  }

  /** Replaying the entries of fields `i..` after the fields before `i` rebuilds the node. */
  lemma {:induction false} RebuildFields(isLeaf: Json -> bool, node: Json, i: nat)
    requires Canonical(isLeaf, node) && i <= |node.fields|
    ensures FlattenFields(isLeaf, node, i, []).Ok?
    ensures PathsNonEmpty(FlattenFields(isLeaf, node, i, []).value)
    ensures InsertAll(Obj(node.fields[..i]), FlattenFields(isLeaf, node, i, []).value) == Ok(node)
    decreases node, 1, |node.fields| - i
  {
    if i == |node.fields| {
      assert node.fields[..i] == node.fields;
    } else {
      var k := node.fields[i].0;
      var v := node.fields[i].1;
      assert node.fields[i] < node;
      var pre := node.fields[..i];
      CanonicalField(isLeaf, node, i);
      RebuildChild(isLeaf, pre, k, v);
      RebuildFields(isLeaf, node, i + 1);
      FieldsUnfold(isLeaf, node, i, []);
      HeadIsChild(isLeaf, node, i);
      var head := ChildEntries(isLeaf, k, v).value;
      var rest := FlattenFields(isLeaf, node, i + 1, []).value;
      InsertAllAppend(Obj(pre), head, rest);
    }
  }

  /** Field `i` of a canonical dict: its key is new to the fields before it, and its value is a leaf or canonical. */
  lemma CanonicalField(isLeaf: Json -> bool, node: Json, i: nat)
    requires Canonical(isLeaf, node) && i < |node.fields|
    ensures Get(node.fields[..i], node.fields[i].0).None?
    ensures node.fields[..i] + [node.fields[i]] == node.fields[..i + 1]
    ensures var v := node.fields[i].1; isLeaf(v) || (v.Obj? && |v.fields| > 0 && Canonical(isLeaf, v))
  {
    var pre := node.fields[..i];
    forall j | 0 <= j < |pre| ensures pre[j].0 != node.fields[i].0 {
      assert pre[j] == node.fields[j];
    }
  }

  lemma HeadIsChild(isLeaf: Json -> bool, node: Json, i: nat)
    requires node.Obj? && i < |node.fields|
    ensures Head(isLeaf, node, i, []) == ChildEntries(isLeaf, node.fields[i].0, node.fields[i].1)
  {
    assert [] + [node.fields[i].0] == [node.fields[i].0];
  }

  /** `list_to_tree` over the entries of `tree_to_list(tree)` gives `tree` back. */
  lemma {:induction false} TreeRoundTrip(isLeaf: Json -> bool, tree: Json)
    requires Canonical(isLeaf, tree)
    ensures TreeToList(isLeaf, tree).Ok?
    ensures PathsNonEmpty(TreeToList(isLeaf, tree).value)
    ensures InsertAll(Obj([]), TreeToList(isLeaf, tree).value) == Ok(tree)
  {
    RebuildFields(isLeaf, tree, 0);
    assert tree.fields[..0] == [];
  }

  /** The entries with their paths joined by dots, as the dump command writes them. */
  function Dotted(es: seq<Entry>): (ds: seq<DottedEntry>)
    ensures |ds| == |es|
    ensures forall i :: 0 <= i < |es| ==> ds[i] == DottedEntry(Join(es[i].path), es[i].value)
  {
    seq(|es|, i requires 0 <= i < |es| => DottedEntry(Join(es[i].path), es[i].value))
  }

  /**
   * Joining key paths with dots (line 111 of the load command) and splitting
   * them again (`list_to_tree`) gives the paths back, when no key holds a dot.
   */
  lemma ParseDotted(es: seq<Entry>)
    requires forall i :: 0 <= i < |es| ==> |es[i].path| >= 1 && DotFree(es[i].path)
    ensures Parse(Dotted(es)) == es
  {
    forall i | 0 <= i < |es| ensures Split(Join(es[i].path)) == es[i].path {
      SplitJoin(es[i].path);
    }
  }

  /** Splitting dotted ids and joining the pieces again gives every id back, dots and empty pieces included. */
  lemma DottedParse(ds: seq<DottedEntry>)
    ensures Dotted(Parse(ds)) == ds
  {
    forall i | 0 <= i < |ds| ensures Join(Split(ds[i].path)) == ds[i].path {
      JoinSplit(ds[i].path);
    }
  }

  /** Flattening a tree with dot-free keys emits dot-free paths. */
  lemma {:induction false} FlattenDotFree(isLeaf: Json -> bool, node: Json, path: seq<string>)
    requires KeysDotFree(isLeaf, node) && DotFree(path) && FlattenNode(isLeaf, node, path).Ok?
    ensures forall e :: e in FlattenNode(isLeaf, node, path).value ==> DotFree(e.path)
    decreases node, 1, 0
  {
    FieldsDotFree(isLeaf, node, 0, path);
  }

  lemma {:induction false} FieldsDotFree(isLeaf: Json -> bool, node: Json, i: nat, path: seq<string>)
    requires node.Obj? && i <= |node.fields|
    requires KeysDotFree(isLeaf, node) && DotFree(path) && FlattenFields(isLeaf, node, i, path).Ok?
    ensures forall e :: e in FlattenFields(isLeaf, node, i, path).value ==> DotFree(e.path)
    decreases node, 0, |node.fields| - i
  {
    if i < |node.fields| {
      var k := node.fields[i].0;
      var v := node.fields[i].1;
      assert node.fields[i] < node;
      var p' := path + [k];
      assert DotFree(p');
      if !isLeaf(v) {
        FlattenDotFree(isLeaf, v, p');
      }
      FieldsUnfold(isLeaf, node, i, path);
      FieldsDotFree(isLeaf, node, i + 1, path);
    }
  }

  /**
   * The dump-then-load cycle of the translation commands: joining each path
   * with dots and handing the result to `list_to_tree` gives the tree back.
   */
  lemma DottedRoundTrip(isLeaf: Json -> bool, tree: Json)
    requires Canonical(isLeaf, tree) && KeysDotFree(isLeaf, tree)
    ensures TreeToList(isLeaf, tree).Ok?
    ensures TreeOf(Dotted(TreeToList(isLeaf, tree).value)) == Ok(tree)
  {
    TreeRoundTrip(isLeaf, tree);
    var es := TreeToList(isLeaf, tree).value;
    FlattenDotFree(isLeaf, tree, []);
    forall i | 0 <= i < |es| ensures DotFree(es[i].path) {
      assert es[i] in es;
    }
    ParseDotted(es);
  }
}
