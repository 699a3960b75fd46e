/**
 * The translation-tree codec of the i18n commands: `tree_to_list` flattens a
 * nested JSON object into (path, leaf) entries, and `list_to_tree` rebuilds a
 * nested object from entries whose paths are dotted strings.
 */
module TreeCodec {
  import opened Wrappers
  import opened JsonValue
  import opened DottedPath

  /** An entry produced by `tree_to_list`: the keys from the root, and the leaf. */
  datatype Entry = Entry(path: seq<string>, value: Json)

  /** An entry consumed by `list_to_tree`: a dotted path and the node to place there. */
  datatype DottedEntry = DottedEntry(path: string, value: Json)

  datatype CodecError =
    | NotAMapping                     // `.items()`, `.setdefault` or `in` applied to a non-dict
    | PathCollision(path: seq<string>, existing: Json, incoming: Json)

  /** Failure of one entry's walk, before the entry's path is attached. */
  datatype InsertError = WalkIntoNonDict | SlotTaken(existing: Json)

  // ---- tree_to_list

  /**
   * The recursive helper of `tree_to_list` on `node`, reached by `path`: every
   * field whose value satisfies `isLeaf` becomes one entry, every other field
   * value is descended into. Descending into a non-dict raises.
   */
  function FlattenNode(isLeaf: Json -> bool, node: Json, path: seq<string>): (r: Result<seq<Entry>, CodecError>)
    ensures r.Ok? ==> forall e :: e in r.value ==> isLeaf(e.value) && |e.path| > |path| && e.path[..|path|] == path
    decreases node, if node.Obj? then |node.fields| + 1 else 0
  {
    if node.Obj? then FlattenFields(isLeaf, node, 0, path) else Err(NotAMapping)
  }

  /** The loop of the helper over `word_map.items()`, from field `i` on. */
  function FlattenFields(isLeaf: Json -> bool, node: Json, i: nat, path: seq<string>): (r: Result<seq<Entry>, CodecError>)
    requires node.Obj? && i <= |node.fields|
    ensures r.Ok? ==> forall e :: e in r.value ==> isLeaf(e.value) && |e.path| > |path| && e.path[..|path|] == path
    decreases node, |node.fields| - i
  {
    if i == |node.fields| then Ok([])
    else
      var key := node.fields[i].0;
      var child := node.fields[i].1;
      assert node.fields[i] < node;
      var head := if isLeaf(child) then Ok([Entry(path + [key], child)]) else FlattenNode(isLeaf, child, path + [key]);
      assert head.Ok? ==> forall e :: e in head.value ==> e.path[..|path|] == (path + [key])[..|path|] == path;
      match head
      case Err(e) => Err(e)
      case Ok(here) =>
        match FlattenFields(isLeaf, node, i + 1, path)
        case Err(e) => Err(e)
        case Ok(rest) => Ok(here + rest)
  }

  /** `tree_to_list(tree, is_leaf)`. */
  function TreeToList(isLeaf: Json -> bool, tree: Json): Result<seq<Entry>, CodecError> {
    FlattenNode(isLeaf, tree, [])
  }

  // ---- list_to_tree

  /**
   * One entry of `list_to_tree`: walk `keys[..|keys|-1]` with `setdefault`
   * (descending into whatever value is already there, creating `{}` where the
   * key is absent), then assign the last key unless it is already present.
   */
  function Insert(node: Json, keys: seq<string>, v: Json): (r: Result<Json, InsertError>)
    requires |keys| >= 1
    ensures r.Ok? ==> r.value.Obj? && Lookup(r.value, keys) == Some(v)
    ensures Lookup(node, keys).Some? ==> r.Err?
    decreases |keys|
  {
    if !node.Obj? then Err(WalkIntoNonDict)
    else if |keys| == 1 then
      match Get(node.fields, keys[0])
      case Some(existing) => Err(SlotTaken(existing))
      case None =>
        var fields := Put(node.fields, keys[0], v);
        GetPut(node.fields, keys[0], v, keys[0]);
        Ok(Obj(fields))
    else
      var child := Get(node.fields, keys[0]).GetOr(Obj([]));
      match Insert(child, keys[1..], v)
      case Err(e) => Err(e)
      case Ok(c) =>
        GetPut(node.fields, keys[0], c, keys[0]);
        Ok(Obj(Put(node.fields, keys[0], c)))
  }

  predicate PathsNonEmpty(es: seq<Entry>) {
    forall i :: 0 <= i < |es| ==> |es[i].path| >= 1
  }

  /** The loop of `list_to_tree`, continued from `node` over `es`. */
  function InsertAll(node: Json, es: seq<Entry>): (r: Result<Json, CodecError>)
    requires PathsNonEmpty(es)
    ensures node.Obj? && r.Ok? ==> r.value.Obj?
    ensures es == [] ==> r == Ok(node)
    decreases |es|
  {
    if |es| == 0 then Ok(node)
    else
      match Insert(node, es[0].path, es[0].value)
      case Err(WalkIntoNonDict) => Err(NotAMapping)
      case Err(SlotTaken(existing)) => Err(PathCollision(es[0].path, existing, es[0].value))
      case Ok(next) => InsertAll(next, es[1..])
  }

  /** The entries of `list_to_tree` with each dotted path split into its keys. */
  function Parse(entries: seq<DottedEntry>): (es: seq<Entry>)
    ensures |es| == |entries| && PathsNonEmpty(es)
    ensures forall i :: 0 <= i < |es| ==> es[i] == Entry(Split(entries[i].path), entries[i].value)
  {
    seq(|entries|, i requires 0 <= i < |entries| => Entry(Split(entries[i].path), entries[i].value))
  }

  /** What `list_to_tree(entries)` returns or raises. */
  function TreeOf(entries: seq<DottedEntry>): Result<Json, CodecError> {
    InsertAll(Obj([]), Parse(entries))
  }

  /** `list_to_tree(entries)`: starts from `{}` and places the entries one by one. */
  method ListToTree(entries: seq<DottedEntry>) returns (r: Result<Json, CodecError>)
    ensures r == TreeOf(entries)
    ensures entries == [] ==> r == Ok(Obj([]))
    ensures r.Ok? ==> r.value.Obj?
  {
    var es := Parse(entries);
    var tree := Obj([]);
    var i := 0;
    while i < |entries|
      invariant 0 <= i <= |entries|
      invariant tree.Obj?
      invariant InsertAll(tree, es[i..]) == TreeOf(entries)
    {
      var keys := Split(entries[i].path);
      assert es[i..][0] == Entry(keys, entries[i].value) && es[i..][1..] == es[i + 1..];
      match Insert(tree, keys, entries[i].value)
      case Err(WalkIntoNonDict) =>
        return Err(NotAMapping);
      case Err(SlotTaken(existing)) =>
        return Err(PathCollision(keys, existing, entries[i].value));
      case Ok(next) =>
        tree := next;
      i := i + 1;
    }
    return Ok(tree);
  }
}
