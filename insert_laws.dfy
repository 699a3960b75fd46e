/**
 * Laws of `list_to_tree`: where each entry lands, when an entry is refused
 * because its slot is taken, and what later entries do to earlier ones.
 */
module InsertLaws {
  import opened Wrappers
  import opened JsonValue
  import opened DottedPath
  import opened TreeCodec

  // ---- one entry

  /** A path unrelated to the inserted one reads the same before and after. */
  lemma {:induction false} InsertUnrelated(node: Json, keys: seq<string>, v: Json, q: seq<string>)
    requires |keys| >= 1 && Insert(node, keys, v).Ok? && Unrelated(q, keys)
    ensures Lookup(Insert(node, keys, v).value, q) == Lookup(node, q)
    decreases |keys|
  {
    assert |q| >= 1 by { assert q[..0] == keys[..0]; }
    if q[0] != keys[0] {
      if |keys| == 1 {
        GetPut(node.fields, keys[0], v, q[0]);
      } else {
        var child := Get(node.fields, keys[0]).GetOr(Obj([]));
        GetPut(node.fields, keys[0], Insert(child, keys[1..], v).value, q[0]);
      }
    } else {
      PrefixTail(q, keys);
      PrefixTail(keys, q);
      assert |q| >= 2 && |keys| >= 2;
      var child := Get(node.fields, keys[0]).GetOr(Obj([]));
      var c := Insert(child, keys[1..], v).value;
      GetPut(node.fields, keys[0], c, q[0]);
      InsertUnrelated(child, keys[1..], v, q[1..]);
      if Get(node.fields, keys[0]).None? {
        EmptyLookup(q[1..]);
      }
    }
  }

  /** Two paths with the same first key are prefix-related as their tails are. */
  lemma PrefixTail(p: seq<string>, q: seq<string>)
    requires |p| >= 1 && |q| >= 1 && p[0] == q[0]
    ensures IsPrefix(p, q) <==> IsPrefix(p[1..], q[1..])
  {
    if |p| <= |q| {
      assert q[..|p|] == [q[0]] + q[1..][..|p| - 1];
      assert p == [p[0]] + p[1..];
    }
  }

  /**
   * `list_to_tree` never overwrites: a successful insert keeps every node that
   * existed, and keeps it unchanged unless it lies strictly on the new path.
   */
  lemma InsertKeeps(node: Json, keys: seq<string>, v: Json, q: seq<string>)
    requires |keys| >= 1 && Insert(node, keys, v).Ok? && Lookup(node, q).Some?
    ensures Lookup(Insert(node, keys, v).value, q).Some?
    ensures !IsProperPrefix(q, keys) ==> Lookup(Insert(node, keys, v).value, q) == Lookup(node, q)
  {
    var n' := Insert(node, keys, v).value;
    if IsPrefix(keys, q) {
      LookupPrefix(node, keys, q);
      assert false;
    } else if IsPrefix(q, keys) {
      assert q != keys;
      LookupPrefix(n', q, keys);
    } else {
      InsertUnrelated(node, keys, v, q);
    }
  }

  /** Walking into an existing value that is not a dict raises. */
  lemma {:induction false} InsertBlockedByLeaf(node: Json, keys: seq<string>, v: Json, q: seq<string>)
    requires |keys| >= 1 && IsProperPrefix(q, keys)
    requires Lookup(node, q).Some? && !Lookup(node, q).value.Obj?
    ensures Insert(node, keys, v).Err?
    decreases |keys|
  {
    if |q| > 0 {
      assert q[0] == keys[0];
      assert keys[1..][..|q| - 1] == q[1..];
      var child := Get(node.fields, keys[0]).value;
      InsertBlockedByLeaf(child, keys[1..], v, q[1..]);
    }
  }

  /** The walk succeeds when it meets only dicts and the final slot is free. */
  lemma {:induction false} InsertSucceeds(node: Json, keys: seq<string>, v: Json)
    requires |keys| >= 1 && node.Obj? && Lookup(node, keys).None?
    requires forall m :: 0 < m < |keys| ==> Lookup(node, keys[..m]).None? || Lookup(node, keys[..m]).value.Obj?
    ensures Insert(node, keys, v).Ok?
    decreases |keys|
  {
    if |keys| > 1 {
      var child := Get(node.fields, keys[0]).GetOr(Obj([]));
      assert keys[..1] == [keys[0]];
      assert Lookup(node, keys[..1]) == Get(node.fields, keys[0]);
      if Get(node.fields, keys[0]).Some? {
        forall m | 0 < m < |keys| - 1
          ensures Lookup(child, keys[1..][..m]).None? || Lookup(child, keys[1..][..m]).value.Obj?
        {
          assert keys[..m + 1][1..] == keys[1..][..m];
        }
        InsertSucceeds(child, keys[1..], v);
      } else {
        EmptyLookup(keys[1..]);
        forall m | 0 < m < |keys| - 1
          ensures Lookup(child, keys[1..][..m]).None?
        {
          EmptyLookup(keys[1..][..m]);
        }
        InsertSucceeds(child, keys[1..], v);
      }
    }
  }

  lemma EmptyLookup(q: seq<string>)
    requires |q| >= 1
    ensures Lookup(Obj([]), q).None?
  {
  }

  // ---- the loop over all entries

  /** One turn of the loop: a successful run inserted its first entry successfully. */
  lemma InsertAllStep(node: Json, es: seq<Entry>)
    requires PathsNonEmpty(es) && |es| >= 1
    ensures PathsNonEmpty(es[1..])
    ensures Insert(node, es[0].path, es[0].value).Err? ==> InsertAll(node, es).Err?
    ensures Insert(node, es[0].path, es[0].value).Ok? ==>
              InsertAll(node, es) == InsertAll(Insert(node, es[0].path, es[0].value).value, es[1..])
  {
    assert forall j :: 1 <= j < |es| ==> es[1..][j - 1] == es[j];
  }

  /** `list_to_tree` over `a + b` is `a`'s loop followed by `b`'s. */
  lemma {:induction false} InsertAllAppend(node: Json, a: seq<Entry>, b: seq<Entry>)
    requires PathsNonEmpty(a) && PathsNonEmpty(b)
    ensures PathsNonEmpty(a + b)
    ensures InsertAll(node, a + b) == match InsertAll(node, a) case Ok(t) => InsertAll(t, b) case Err(e) => Err(e)
    decreases |a|
  {
    assert forall i :: 0 <= i < |a + b| ==> (a + b)[i] == if i < |a| then a[i] else b[i - |a|];
    if |a| == 0 {
      assert a + b == b;
    } else {
      assert (a + b)[0] == a[0] && (a + b)[1..] == a[1..] + b;
      var r := Insert(node, a[0].path, a[0].value);
      if r.Ok? {
        InsertAllAppend(r.value, a[1..], b);
      }
    }
  }

  /** A node that no later entry passes through strictly stays as it is. */
  lemma {:induction false} InsertAllKeeps(node: Json, es: seq<Entry>, q: seq<string>)
    requires PathsNonEmpty(es) && InsertAll(node, es).Ok? && Lookup(node, q).Some?
    ensures Lookup(InsertAll(node, es).value, q).Some?
    ensures (forall j :: 0 <= j < |es| ==> !IsProperPrefix(q, es[j].path)) ==>
              Lookup(InsertAll(node, es).value, q) == Lookup(node, q)
    decreases |es|
  {
    if |es| > 0 {
      var next := Insert(node, es[0].path, es[0].value).value;
      InsertKeeps(node, es[0].path, es[0].value, q);
      InsertAllKeeps(next, es[1..], q);
      assert forall j :: 1 <= j < |es| ==> es[1..][j - 1] == es[j];
    }
  }

  /**
   * After a successful `list_to_tree`, every entry whose path no later entry
   * passes through strictly sits at its path.
   */
  lemma {:induction false} InsertAllPlaces(node: Json, es: seq<Entry>, i: nat)
    requires PathsNonEmpty(es) && InsertAll(node, es).Ok? && i < |es|
    requires forall j :: i < j < |es| ==> !IsProperPrefix(es[i].path, es[j].path)
    ensures Lookup(InsertAll(node, es).value, es[i].path) == Some(es[i].value)
    decreases |es|
  {
    var next := Insert(node, es[0].path, es[0].value).value;
    assert forall j :: 1 <= j < |es| ==> es[1..][j - 1] == es[j];
    if i == 0 {
      InsertAllKeeps(next, es[1..], es[0].path);
    } else {
      InsertAllPlaces(next, es[1..], i - 1);
    }
  }

  /** An entry whose slot, or a node beneath it, already exists is refused. */
  lemma {:induction false} InsertAllBlocked(node: Json, es: seq<Entry>, q: seq<string>, j: nat)
    requires PathsNonEmpty(es) && Lookup(node, q).Some? && j < |es| && IsPrefix(es[j].path, q)
    ensures InsertAll(node, es).Err?
    decreases |es|
  {
    var blocked, next := BlockedStep(node, es, q, j);
    if !blocked {
      InsertAllBlocked(next, es[1..], q, j - 1);
    }
  }

  /** The first entry either already fails, or keeps the occupied slot for the entry at `j`, one step nearer. */
  lemma BlockedStep(node: Json, es: seq<Entry>, q: seq<string>, j: nat) returns (blocked: bool, next: Json)
    requires PathsNonEmpty(es) && Lookup(node, q).Some? && j < |es| && IsPrefix(es[j].path, q)
    ensures blocked ==> InsertAll(node, es).Err?
    ensures !blocked ==> 0 < j && PathsNonEmpty(es[1..]) && IsPrefix(es[1..][j - 1].path, q)
    ensures !blocked ==> Lookup(next, q).Some? && InsertAll(node, es) == InsertAll(next, es[1..])
  {
    InsertAllStep(node, es);
    var r := Insert(node, es[0].path, es[0].value);
    if j == 0 {
      LookupPrefix(node, es[0].path, q);
      blocked, next := true, node;
    } else if r.Ok? {
      InsertKeeps(node, es[0].path, es[0].value, q);
      assert es[1..][j - 1] == es[j];
      blocked, next := false, r.value;
    } else {
      blocked, next := true, node;
    }
  }

  /** An entry whose walk meets an existing non-dict value is refused. */
  lemma {:induction false} InsertAllStuck(node: Json, es: seq<Entry>, q: seq<string>, j: nat)
    requires PathsNonEmpty(es) && j < |es| && IsProperPrefix(q, es[j].path)
    requires Lookup(node, q).Some? && !Lookup(node, q).value.Obj?
    ensures InsertAll(node, es).Err?
    decreases |es|
  {
    var stuck, next := StuckStep(node, es, q, j);
    if !stuck {
      InsertAllStuck(next, es[1..], q, j - 1);
    }
  }

  /**
   * The first entry either already fails, or leaves the blocking value in
   * place for the entry at `j`, which is then one step nearer.
   */
  lemma StuckStep(node: Json, es: seq<Entry>, q: seq<string>, j: nat) returns (stuck: bool, next: Json)
    requires PathsNonEmpty(es) && j < |es| && IsProperPrefix(q, es[j].path)
    requires Lookup(node, q).Some? && !Lookup(node, q).value.Obj?
    ensures stuck ==> InsertAll(node, es).Err?
    ensures !stuck ==> 0 < j && PathsNonEmpty(es[1..]) && IsProperPrefix(q, es[1..][j - 1].path)
    ensures !stuck ==> Lookup(next, q) == Lookup(node, q) && InsertAll(node, es) == InsertAll(next, es[1..])
  {
    var p, v := es[0].path, es[0].value;
    if IsProperPrefix(q, p) {
      StuckHere(node, es, q);
      stuck, next := true, node;
    } else if Insert(node, p, v).Ok? {
      StuckPasses(node, es, q, j);
      stuck, next := false, Insert(node, p, v).value;
    } else {
      InsertAllStep(node, es);
      stuck, next := true, node;
    }
  }

  lemma StuckHere(node: Json, es: seq<Entry>, q: seq<string>)
    requires PathsNonEmpty(es) && |es| >= 1 && IsProperPrefix(q, es[0].path)
    requires Lookup(node, q).Some? && !Lookup(node, q).value.Obj?
    ensures InsertAll(node, es).Err?
  {
    InsertAllStep(node, es);
    InsertBlockedByLeaf(node, es[0].path, es[0].value, q);
  }

  lemma StuckPasses(node: Json, es: seq<Entry>, q: seq<string>, j: nat)
    requires PathsNonEmpty(es) && j < |es| && IsProperPrefix(q, es[j].path)
    requires Lookup(node, q).Some? && !Lookup(node, q).value.Obj?
    requires !IsProperPrefix(q, es[0].path) && Insert(node, es[0].path, es[0].value).Ok?
    ensures 0 < j && PathsNonEmpty(es[1..]) && IsProperPrefix(q, es[1..][j - 1].path)
    ensures Lookup(Insert(node, es[0].path, es[0].value).value, q) == Lookup(node, q)
    ensures InsertAll(node, es) == InsertAll(Insert(node, es[0].path, es[0].value).value, es[1..])
  {
    InsertAllStep(node, es);
    InsertKeeps(node, es[0].path, es[0].value, q);
    assert es[1..][j - 1] == es[j];
  }

  /** After a successful loop, its last entry sits at its path. */
  lemma LastPlaced(node: Json, es: seq<Entry>)
    requires PathsNonEmpty(es) && |es| >= 1 && InsertAll(node, es).Ok?
    ensures Lookup(InsertAll(node, es).value, es[|es| - 1].path) == Some(es[|es| - 1].value)
  {
    var n := |es| - 1;
    InsertAllSplit(node, es, n);
    var t := InsertAll(node, es[..n]).value;
    PlacedLast(t, es[n..]);
  }

  lemma PlacedLast(t: Json, es: seq<Entry>)
    requires PathsNonEmpty(es) && |es| == 1 && InsertAll(t, es).Ok?
    ensures Lookup(InsertAll(t, es).value, es[0].path) == Some(es[0].value)
  {
    InsertAllStep(t, es);
  }

  /**
   * The same path twice, or a path after a longer path that extends it, makes
   * `list_to_tree` raise.
   */
  lemma RepeatedSlotRaises(node: Json, es: seq<Entry>, i: nat, j: nat)
    requires PathsNonEmpty(es) && i < j < |es| && IsPrefix(es[j].path, es[i].path)
    ensures InsertAll(node, es).Err?
  {
    InsertAllSplit(node, es, i + 1);
    var front, back := es[..i + 1], es[i + 1..];
    var mid := InsertAll(node, front);
    if mid.Ok? {
      LastPlaced(node, front);
      assert front[|front| - 1] == es[i];
      assert back[j - i - 1] == es[j];
      InsertAllBlocked(mid.value, back, es[i].path, j - i - 1);
    }
  }

  /** A path after a shorter path whose value is not a dict makes `list_to_tree` raise. */
  lemma ExtendingLeafRaises(node: Json, es: seq<Entry>, i: nat, j: nat)
    requires PathsNonEmpty(es) && i < j < |es| && IsProperPrefix(es[i].path, es[j].path)
    requires !es[i].value.Obj?
    ensures InsertAll(node, es).Err?
  {
    InsertAllSplit(node, es, i + 1);
    var front, back := es[..i + 1], es[i + 1..];
    var mid := InsertAll(node, front);
    if mid.Ok? {
      LastPlaced(node, front);
      assert front[|front| - 1] == es[i];
      assert back[j - i - 1] == es[j];
      InsertAllStuck(mid.value, back, es[i].path, j - i - 1);
    }
  }

  /** The loop cut after `k` entries: the rest continue from the tree built so far. */
  lemma InsertAllSplit(node: Json, es: seq<Entry>, k: nat)
    requires PathsNonEmpty(es) && k <= |es|
    ensures PathsNonEmpty(es[..k]) && PathsNonEmpty(es[k..])
    ensures InsertAll(node, es) ==
      match InsertAll(node, es[..k]) case Ok(t) => InsertAll(t, es[k..]) case Err(e) => Err(e)
  {
    assert es == es[..k] + es[k..];
    InsertAllAppend(node, es[..k], es[k..]);
  }

  /** No path lies on the way to another. */
  predicate PairwiseUnrelated(es: seq<Entry>) {
    forall i, j :: 0 <= i < |es| && 0 <= j < |es| && i != j ==> Unrelated(es[i].path, es[j].path)
  }

  /** Every slot the entries need is free and every walk meets only dicts. */
  predicate RoomFor(node: Json, es: seq<Entry>) {
    && node.Obj?
    && (forall j :: 0 <= j < |es| ==> Lookup(node, es[j].path).None?)
    && (forall j, m :: 0 <= j < |es| && 0 < m < |es[j].path| ==>
          Lookup(node, es[j].path[..m]).None? || Lookup(node, es[j].path[..m]).value.Obj?)
  }

  /** Entries of which no path lies on the way to another all fit. */
  lemma {:induction false} UnrelatedSucceed(node: Json, es: seq<Entry>)
    requires PathsNonEmpty(es) && PairwiseUnrelated(es) && RoomFor(node, es)
    ensures InsertAll(node, es).Ok?
    decreases |es|
  {
    if |es| > 0 {
      var p := es[0].path;
      InsertSucceeds(node, p, es[0].value);
      var next := Insert(node, p, es[0].value).value;
      var rest := es[1..];
      assert forall j :: 0 <= j < |rest| ==> rest[j] == es[j + 1];
      forall j | 0 <= j < |rest|
        ensures Lookup(next, rest[j].path).None?
      {
        assert Unrelated(rest[j].path, p) by { assert Unrelated(es[j + 1].path, es[0].path); }
        InsertUnrelated(node, p, es[0].value, rest[j].path);
      }
      forall j, m | 0 <= j < |rest| && 0 < m < |rest[j].path|
        ensures Lookup(next, rest[j].path[..m]).None? || Lookup(next, rest[j].path[..m]).value.Obj?
      {
        var q := rest[j].path[..m];
        assert Unrelated(rest[j].path, p) by { assert Unrelated(es[j + 1].path, es[0].path); }
        if IsPrefix(q, p) {
          if q == p {
            assert IsPrefix(p, rest[j].path);
          } else {
            LookupPrefix(next, q, p);
          }
        } else {
          InsertUnrelated(node, p, es[0].value, q);
          assert es[j + 1].path[..m] == q;
        }
      }
      UnrelatedSucceed(next, rest);
    }
  }

  /**
   * For entries whose values are not dicts (description strings),
   * `list_to_tree` succeeds exactly when no path lies on the way to another:
   * its collision check then catches every prefix clash.
   */
  lemma ScalarEntriesSucceedIff(es: seq<Entry>)
    requires PathsNonEmpty(es)
    requires forall i :: 0 <= i < |es| ==> !es[i].value.Obj?
    ensures InsertAll(Obj([]), es).Ok? <==> PairwiseUnrelated(es)
  {
    if PairwiseUnrelated(es) {
      forall j, m | 0 <= j < |es| && 0 < m < |es[j].path|
        ensures Lookup(Obj([]), es[j].path[..m]).None?
      {
        EmptyLookup(es[j].path[..m]);
      }
      forall j | 0 <= j < |es| ensures Lookup(Obj([]), es[j].path).None? {
        EmptyLookup(es[j].path);
      }
      UnrelatedSucceed(Obj([]), es);
    } else {
      var i, j :| 0 <= i < |es| && 0 <= j < |es| && i != j && !Unrelated(es[i].path, es[j].path);
      var a, b := if i < j then i else j, if i < j then j else i;
      if IsPrefix(es[b].path, es[a].path) {
        RepeatedSlotRaises(Obj([]), es, a, b);
      } else {
        ExtendingLeafRaises(Obj([]), es, a, b);
      }
    }
  }

  /** Entries of which no path lies on the way to another all land at their paths. */
  lemma UnrelatedPlaced(es: seq<Entry>)
    requires PathsNonEmpty(es) && PairwiseUnrelated(es)
    ensures InsertAll(Obj([]), es).Ok?
    ensures forall i :: 0 <= i < |es| ==> Lookup(InsertAll(Obj([]), es).value, es[i].path) == Some(es[i].value)
  {
    forall j, m | 0 <= j < |es| && 0 < m < |es[j].path|
      ensures Lookup(Obj([]), es[j].path[..m]).None?
    {
      EmptyLookup(es[j].path[..m]);
    }
    forall j | 0 <= j < |es| ensures Lookup(Obj([]), es[j].path).None? {
      EmptyLookup(es[j].path);
    }
    UnrelatedSucceed(Obj([]), es);
    forall i | 0 <= i < |es|
      ensures Lookup(InsertAll(Obj([]), es).value, es[i].path) == Some(es[i].value)
    {
      InsertAllPlaces(Obj([]), es, i);
    }
  }

  /**
   * The collision check looks only at the final key: a dict-shaped leaf ("a")
   * placed before a longer path through it ("a.b") is walked into, and the
   * longer entry is written inside the earlier leaf instead of raising.
   */
  lemma LeafAbsorbsLongerPath()
    ensures TreeOf([DottedEntry("a", Obj([("gloss", Str("x"))])), DottedEntry("a.b", Str("y"))])
         == Ok(Obj([("a", Obj([("gloss", Str("x")), ("b", Str("y"))]))]))
  {
    var leaf := Obj([("gloss", Str("x"))]);
    var t1 := Obj([("a", leaf)]);
    var t2 := Obj([("a", Obj([("gloss", Str("x")), ("b", Str("y"))]))]);
    var es := Parse([DottedEntry("a", leaf), DottedEntry("a.b", Str("y"))]);
    SampleSplits();
    assert es == [Entry(["a"], leaf), Entry(["a", "b"], Str("y"))];
    SampleInserts();
    InsertAllStep(Obj([]), es);
    assert InsertAll(Obj([]), es) == InsertAll(t1, es[1..]);
    InsertAllStep(t1, es[1..]);
    assert es[1..][0] == Entry(["a", "b"], Str("y"));
    assert es[1..][1..] == [];
    assert InsertAll(t1, es[1..]) == InsertAll(t2, []);
  }

  lemma SampleSplits()
    ensures Split("a") == ["a"] && Split("a.b") == ["a", "b"]
  {
    assert Split("") == [""];
    assert Split("a") == ["a"] by {
      SplitGlue("a", "");
      assert "a" + "" == "a";
    }
    assert Split("b") == ["b"] by {
      SplitGlue("b", "");
      assert "b" + "" == "b";
    }
    assert ".b"[1..] == "b";
    assert Split(".b") == ["", "b"];
    SplitGlue("a", ".b");
    assert "a" + ".b" == "a.b";
  }

  lemma SampleInserts()
    ensures Insert(Obj([]), ["a"], Obj([("gloss", Str("x"))])) == Ok(Obj([("a", Obj([("gloss", Str("x"))]))]))
    ensures Insert(Obj([("a", Obj([("gloss", Str("x"))]))]), ["a", "b"], Str("y"))
         == Ok(Obj([("a", Obj([("gloss", Str("x")), ("b", Str("y"))]))]))
  {
    var leaf := Obj([("gloss", Str("x"))]);
    var t1 := Obj([("a", leaf)]);
    assert Get(t1.fields, "a") == Some(leaf);
    assert "gloss" != "b" by { assert |"gloss"| != |"b"|; }
    assert Get(leaf.fields, "b") == None;
    assert Put(leaf.fields, "b", Str("y")) == [("gloss", Str("x")), ("b", Str("y"))] by {
      assert leaf.fields[1..] == [];
    }
    assert ["a", "b"][1..] == ["b"];
    assert Insert(leaf, ["b"], Str("y")) == Ok(Obj([("gloss", Str("x")), ("b", Str("y"))]));
    assert Put(t1.fields, "a", Obj([("gloss", Str("x")), ("b", Str("y"))]))
        == [("a", Obj([("gloss", Str("x")), ("b", Str("y"))]))] by {
      assert t1.fields[1..] == [];
    }
  }
}
