/**
 * The translation maintenance commands `load`, `dump`, `load-descriptions`
 * and `dump-descriptions`, over a database of locales, keys and values held
 * as maps. A value is the pair {gloss, verified} the commands read and write.
 */
module I18nCommands {
  import opened Wrappers
  import opened JsonValue
  import opened DottedPath
  import opened TreeCodec
  import opened InsertLaws
  import opened QueryOrder
  import I18nStore

  /** What the commands store for one (key, locale): the gloss and its `verified` flag as found in the document. */
  datatype Value = Value(gloss: string, verified: Json)

  /**
   * The three tables: locale code to description, key id to description, and
   * (key id, locale code) to value. An empty description stands for an unset one.
   */
  datatype Db = Db(locales: map<string, string>, keys: map<string, string>, values: map<(string, string), Value>)

  /** Every value belongs to an existing key and an existing locale. */
  predicate Consistent(db: Db) {
    forall id: (string, string) :: id in db.values ==> id.0 in db.keys && id.1 in db.locales
  }

  datatype CommandError =
    | BadLocale(code: string)          // rejected by the `<locale>` argument check
    | Malformed(cause: CodecError)      // the tree could not be flattened or rebuilt
    | MissingVerified(keyId: string)    // a leaf without 'verified' had to be written

  // ---- the `<locale>` argument

  predicate Lower(c: char) { 'a' <= c <= 'z' }
  predicate Upper(c: char) { 'A' <= c <= 'Z' }

  /** `re.fullmatch('[a-z]{2}-[A-Z]{2}', code)`: case-sensitive, ASCII letters only. */
  predicate ValidLocale(code: string) {
    |code| == 5 && Lower(code[0]) && Lower(code[1]) && code[2] == '-' && Upper(code[3]) && Upper(code[4])
  }

  /**
   * The command's check is stricter than the locale table's schema: every
   * code the command accepts passes the schema, but the schema ignores case
   * and so also admits codes the command refuses.
   */
  lemma CommandLocaleStricter(code: string)
    ensures ValidLocale(code) ==> I18nStore.LocaleCodeValid(code)
    ensures I18nStore.LocaleCodeValid("en-us") && !ValidLocale("en-us")
  {
  }

  /** The ASCII code points, where the two locale checks can be compared letter by letter. */
  predicate Ascii(code: string) {
    forall i :: 0 <= i < |code| ==> code[i] as int < 128
  }

  function ToLower(c: char): (l: char)
    ensures Lower(l) <==> Lower(c) || Upper(c)
  {
    if Upper(c) then (c as int + 32) as char else c
  }

  function ToUpper(c: char): (u: char)
    ensures Upper(u) <==> Lower(c) || Upper(c)
  {
    if Lower(c) then (c as int - 32) as char else c
  }

  /** A five-character code with its language part lowercased and its region part uppercased. */
  function CaseFolded(code: string): (f: string)
    ensures |f| == |code|
  {
    if |code| == 5 then [ToLower(code[0]), ToLower(code[1]), code[2], ToUpper(code[3]), ToUpper(code[4])]
    else code
  }

  /**
   * On ASCII input the table schema is the command's check up to case: a
   * code passes the schema exactly when `validate_locale` accepts it once its
   * language part is written in lowercase and its region part in uppercase,
   * and a code the command accepts is already in that form.
   */
  lemma SchemaIgnoresCase(code: string)
    requires Ascii(code)
    ensures I18nStore.LocaleCodeValid(code) <==> ValidLocale(CaseFolded(code))
    ensures ValidLocale(code) ==> CaseFolded(code) == code
  {
    if |code| == 5 {
      var f := CaseFolded(code);
      assert f[0] == ToLower(code[0]) && f[1] == ToLower(code[1]) && f[2] == code[2];
      assert f[3] == ToUpper(code[3]) && f[4] == ToUpper(code[4]);
      assert code[0] as int < 128 && code[1] as int < 128 && code[3] as int < 128 && code[4] as int < 128;
    }
  }

  // ---- load

  /** The leaves of a translation document: dicts whose 'gloss' is a string. */
  predicate GlossLeaf(n: Json) {
    n.Obj? && Get(n.fields, "gloss").Some? && Get(n.fields, "gloss").value.Str?
  }

  function GlossOf(n: Json): string
    requires GlossLeaf(n)
  {
    Get(n.fields, "gloss").value.s
  }

  predicate AllGloss(es: seq<Entry>) {
    forall i :: 0 <= i < |es| ==> GlossLeaf(es[i].value)
  }

  /** The entry carries a 'verified' field. */
  predicate HasVerified(n: Json) {
    n.Obj? && Get(n.fields, "verified").Some?
  }

  /**
   * One entry of `load` into `locale`: the key is created with an empty
   * description when missing; an existing value is skipped without override
   * and otherwise overwritten; a new value is created. Writing a value reads
   * its 'verified' field. The flag says whether the entry was counted.
   */
  function LoadEntry(db: Db, locale: string, e: Entry, override: bool): Result<(Db, bool), CommandError>
    requires GlossLeaf(e.value)
  {
    var keyId := Join(e.path);
    var keys := if keyId in db.keys then db.keys else db.keys[keyId := ""];
    var id := (keyId, locale);
    if id in db.values && !override then Ok((db.(keys := keys), false))
    else
      match Get(e.value.fields, "verified")
      case None => Err(MissingVerified(keyId))
      case Some(v) => Ok((Db(db.locales, keys, db.values[id := Value(GlossOf(e.value), v)]), true))
  }

  /** The loop of `load` over `es`: the final tables and `entry_count`. */
  function LoadEntries(db: Db, locale: string, es: seq<Entry>, override: bool): Result<(Db, nat), CommandError>
    requires AllGloss(es)
    decreases |es|
  {
    if |es| == 0 then Ok((db, 0))
    else
      match LoadEntry(db, locale, es[0], override)
      case Err(x) => Err(x)
      case Ok((db1, counted)) =>
        match LoadEntries(db1, locale, es[1..], override)
        case Err(x) => Err(x)
        case Ok((db2, n)) => Ok((db2, n + if counted then 1 else 0))
  }

  /** The tables after the locale is looked up and, when missing, created and committed. */
  function WithLocale(db: Db, locale: string): Db {
    if locale in db.locales then db else db.(locales := db.locales[locale := ""])
  }

  /**
   * The whole `load <locale>` command on an already parsed document: its
   * outcome (`entry_count` or the error) and the tables it leaves. A failure
   * inside the loop loses the uncommitted rows but keeps the created locale.
   */
  function LoadCommand(db: Db, locale: string, tree: Json, override: bool): (Result<nat, CommandError>, Db) {
    if !ValidLocale(locale) then (Err(BadLocale(locale)), db)
    else
      match TreeToList(GlossLeaf, tree)
      case Err(c) => (Err(Malformed(c)), db)
      case Ok(es) =>
        var db0 := WithLocale(db, locale);
        match LoadEntries(db0, locale, es, override)
        case Err(x) => (Err(x), db0)
        case Ok((db1, n)) => (Ok(n), db1)
  }

  lemma AllGlossTail(es: seq<Entry>)
    requires AllGloss(es) && |es| >= 1
    ensures AllGloss(es[1..])
  {
    assert forall j :: 1 <= j < |es| ==> es[1..][j - 1] == es[j];
  }

  /**
   * `db'` differs from `db` only by keys added with empty descriptions and by
   * values added or replaced for `locale`.
   */
  ghost predicate Framed(db: Db, db': Db, locale: string) {
    && db'.locales == db.locales
    && (forall k :: k in db.keys ==> k in db'.keys && db'.keys[k] == db.keys[k])
    && (forall k :: k in db'.keys && k !in db.keys ==> db'.keys[k] == "")
    && (forall id: (string, string) :: id in db.values ==> id in db'.values)
    && (forall id: (string, string) :: id.1 != locale ==> (id in db'.values <==> id in db.values))
    && (forall id: (string, string) :: id in db.values && id.1 != locale ==> db'.values[id] == db.values[id])
  }

  lemma FramedTrans(a: Db, b: Db, c: Db, locale: string)
    requires Framed(a, b, locale) && Framed(b, c, locale)
    ensures Framed(a, c, locale)
  {
  }

  lemma EntryFramed(db: Db, locale: string, e: Entry, override: bool)
    requires GlossLeaf(e.value) && LoadEntry(db, locale, e, override).Ok?
    ensures Framed(db, LoadEntry(db, locale, e, override).value.0, locale)
  {
  }

  /** `load` adds keys with empty descriptions and values for `locale` only; nothing else changes. */
  lemma {:induction false} LoadFrame(db: Db, locale: string, es: seq<Entry>, override: bool)
    requires AllGloss(es) && LoadEntries(db, locale, es, override).Ok?
    ensures Framed(db, LoadEntries(db, locale, es, override).value.0, locale)
    decreases |es|
  {
    if |es| > 0 {
      var db1 := LoadHead(db, locale, es, override);
      EntryFramed(db, locale, es[0], override);
      LoadFrame(db1, locale, es[1..], override);
      FramedTrans(db, db1, LoadEntries(db1, locale, es[1..], override).value.0, locale);
    }
  }

  /** Every leaf of a successful `load` has its key and a value for `locale`. */
  lemma {:induction false} LoadCovers(db: Db, locale: string, es: seq<Entry>, override: bool)
    requires AllGloss(es) && LoadEntries(db, locale, es, override).Ok?
    ensures var db' := LoadEntries(db, locale, es, override).value.0;
      forall i :: 0 <= i < |es| ==> Join(es[i].path) in db'.keys && (Join(es[i].path), locale) in db'.values
    decreases |es|
  {
    if |es| > 0 {
      var db1 := LoadHead(db, locale, es, override);
      EntryCovered(db, locale, es[0], override);
      LoadCovers(db1, locale, es[1..], override);
      LoadKeepsSlot(db1, locale, es[1..], override, Join(es[0].path));
      var db' := LoadEntries(db, locale, es, override).value.0;
      forall i | 0 <= i < |es| ensures Join(es[i].path) in db'.keys && (Join(es[i].path), locale) in db'.values {
        if i > 0 {
          assert es[1..][i - 1] == es[i];
        }
      }
    }
  }

  lemma LoadKeepsSlot(db: Db, locale: string, es: seq<Entry>, override: bool, keyId: string)
    requires AllGloss(es) && LoadEntries(db, locale, es, override).Ok?
    requires keyId in db.keys && (keyId, locale) in db.values
    ensures var db' := LoadEntries(db, locale, es, override).value.0;
      keyId in db'.keys && (keyId, locale) in db'.values
  {
    LoadFrame(db, locale, es, override);
  }

  lemma LoadKeepsLocales(db: Db, locale: string, es: seq<Entry>, override: bool)
    requires AllGloss(es) && LoadEntries(db, locale, es, override).Ok?
    ensures LoadEntries(db, locale, es, override).value.0.locales == db.locales
  {
    LoadFrame(db, locale, es, override);
  }

  lemma EntryCovered(db: Db, locale: string, e: Entry, override: bool)
    requires GlossLeaf(e.value) && LoadEntry(db, locale, e, override).Ok?
    ensures var db1 := LoadEntry(db, locale, e, override).value.0;
      Join(e.path) in db1.keys && (Join(e.path), locale) in db1.values
  {
  }

  /** A successful `load` keeps every value pointing at an existing key and locale. */
  lemma {:induction false} LoadKeepsConsistent(db: Db, locale: string, es: seq<Entry>, override: bool)
    requires AllGloss(es) && Consistent(db) && locale in db.locales
    requires LoadEntries(db, locale, es, override).Ok?
    ensures Consistent(LoadEntries(db, locale, es, override).value.0)
    decreases |es|
  {
    if |es| > 0 {
      AllGlossTail(es);
      var db1 := LoadEntry(db, locale, es[0], override).value.0;
      LoadKeepsConsistent(db1, locale, es[1..], override);
    }
  }

  /** One entry without override: old values stay, and a counted entry adds exactly one value. */
  lemma LoadEntryNoOverride(db: Db, locale: string, e: Entry)
    requires GlossLeaf(e.value) && LoadEntry(db, locale, e, false).Ok?
    ensures var (db1, counted) := LoadEntry(db, locale, e, false).value;
      && db.values.Keys <= db1.values.Keys
      && (forall id: (string, string) :: id in db.values ==> db1.values[id] == db.values[id])
      && |db1.values.Keys| == |db.values.Keys| + if counted then 1 else 0
  {
    var (db1, counted) := LoadEntry(db, locale, e, false).value;
    if counted {
      var id := IdOf(e, locale);
      var v := Value(GlossOf(e.value), Get(e.value.fields, "verified").value);
      assert id !in db.values && db1.values == db.values[id := v];
      I18nStore.MapAdded(db.values, db1.values, id, v);
    } else {
      assert db1.values == db.values;
    }
  }

  /**
   * With `--no-override` no existing value changes, and `entry_count` is the
   * number of values created.
   */
  lemma {:induction false} LoadNoOverrideKeeps(db: Db, locale: string, es: seq<Entry>)
    requires AllGloss(es) && LoadEntries(db, locale, es, false).Ok?
    ensures var (db', n) := LoadEntries(db, locale, es, false).value;
      && db.values.Keys <= db'.values.Keys
      && (forall id: (string, string) :: id in db.values ==> db'.values[id] == db.values[id])
      && n == |db'.values.Keys| - |db.values.Keys|
    decreases |es|
  {
    if |es| > 0 {
      AllGlossTail(es);
      LoadEntryNoOverride(db, locale, es[0]);
      var db1 := LoadEntry(db, locale, es[0], false).value.0;
      LoadNoOverrideKeeps(db1, locale, es[1..]);
    }
  }

  /** With override every leaf is counted. */
  lemma {:induction false} LoadOverrideCounts(db: Db, locale: string, es: seq<Entry>)
    requires AllGloss(es) && LoadEntries(db, locale, es, true).Ok?
    ensures LoadEntries(db, locale, es, true).value.1 == |es|
    decreases |es|
  {
    if |es| > 0 {
      AllGlossTail(es);
      var db1 := LoadEntry(db, locale, es[0], true).value.0;
      LoadOverrideCounts(db1, locale, es[1..]);
    }
  }

  /** With override the loop goes through exactly when every leaf carries 'verified'. */
  lemma {:induction false} LoadOverrideOkIff(db: Db, locale: string, es: seq<Entry>)
    requires AllGloss(es)
    ensures LoadEntries(db, locale, es, true).Ok? <==> forall i :: 0 <= i < |es| ==> HasVerified(es[i].value)
    decreases |es|
  {
    if |es| > 0 {
      EntryOverrideOkIff(db, locale, es[0]);
      var db1 := LoadHead(db, locale, es, true);
      if LoadEntry(db, locale, es[0], true).Ok? {
        LoadOverrideOkIff(db1, locale, es[1..]);
      }
      assert forall i :: 1 <= i < |es| ==> es[1..][i - 1] == es[i];
    }
  }

  /** The loop goes through when its first entry does and the rest go through after it. */
  lemma LoadHead(db: Db, locale: string, es: seq<Entry>, override: bool) returns (db1: Db)
    requires AllGloss(es) && |es| >= 1
    ensures AllGloss(es[1..])
    ensures LoadEntry(db, locale, es[0], override).Ok? ==> db1 == LoadEntry(db, locale, es[0], override).value.0
    ensures LoadEntries(db, locale, es, override).Ok? <==>
      LoadEntry(db, locale, es[0], override).Ok? && LoadEntries(db1, locale, es[1..], override).Ok?
    ensures LoadEntries(db, locale, es, override).Ok? ==>
      LoadEntries(db, locale, es, override).value.0 == LoadEntries(db1, locale, es[1..], override).value.0
  {
    AllGlossTail(es);
    db1 := if LoadEntry(db, locale, es[0], override).Ok? then LoadEntry(db, locale, es[0], override).value.0 else db;
  }

  lemma EntryOverrideOkIff(db: Db, locale: string, e: Entry)
    requires GlossLeaf(e.value)
    ensures LoadEntry(db, locale, e, true).Ok? <==> HasVerified(e.value)
  {
  }

  /** Without override a leaf needs 'verified' only where no value exists yet; all present is enough. */
  lemma {:induction false} LoadSucceeds(db: Db, locale: string, es: seq<Entry>, override: bool)
    requires AllGloss(es) && forall i :: 0 <= i < |es| ==> HasVerified(es[i].value)
    ensures LoadEntries(db, locale, es, override).Ok?
    decreases |es|
  {
    if |es| > 0 {
      AllGlossTail(es);
      assert forall i :: 1 <= i < |es| ==> es[1..][i - 1] == es[i];
      var db1 := LoadEntry(db, locale, es[0], override).value.0;
      LoadSucceeds(db1, locale, es[1..], override);
    }
  }

  /** The (key, locale) pair an entry writes. */
  function IdOf(e: Entry, locale: string): (string, string) {
    (Join(e.path), locale)
  }

  /** A value that no entry writes keeps its presence and contents. */
  lemma {:induction false} LoadUntouched(db: Db, locale: string, es: seq<Entry>, override: bool, id: (string, string))
    requires AllGloss(es) && LoadEntries(db, locale, es, override).Ok?
    requires forall j :: 0 <= j < |es| ==> IdOf(es[j], locale) != id
    ensures var db' := LoadEntries(db, locale, es, override).value.0;
      (id in db'.values <==> id in db.values) && (id in db.values ==> db'.values[id] == db.values[id])
    decreases |es|
  {
    if |es| > 0 {
      AllGlossTail(es);
      assert forall j :: 1 <= j < |es| - 1 + 1 ==> es[1..][j - 1] == es[j];
      var db1 := LoadEntry(db, locale, es[0], override).value.0;
      LoadUntouched(db1, locale, es[1..], override, id);
    }
  }

  /** With override the last leaf for a key id decides its value: both gloss and 'verified' are replaced. */
  lemma {:induction false} LoadOverrideLastWins(db: Db, locale: string, es: seq<Entry>, i: nat)
    requires AllGloss(es) && LoadEntries(db, locale, es, true).Ok? && i < |es|
    requires forall j :: i < j < |es| ==> Join(es[j].path) != Join(es[i].path)
    ensures HasVerified(es[i].value)
    ensures IdOf(es[i], locale) in LoadEntries(db, locale, es, true).value.0.values
    ensures LoadEntries(db, locale, es, true).value.0.values[IdOf(es[i], locale)]
         == Value(GlossOf(es[i].value), Get(es[i].value.fields, "verified").value)
    decreases |es|
  {
    AllGlossTail(es);
    assert forall j :: 1 <= j < |es| ==> es[1..][j - 1] == es[j];
    var db1 := LoadEntry(db, locale, es[0], true).value.0;
    if i == 0 {
      LoadUntouched(db1, locale, es[1..], true, IdOf(es[0], locale));
      assert IdOf(es[0], locale) in db1.values;
    } else {
      LoadOverrideLastWins(db1, locale, es[1..], i - 1);
    }
  }

  /** A successful `load` leaves consistent tables holding the locale and, for every leaf, its key and value; a failed one changes no key and no value. */
  lemma LoadCommandOutcome(db: Db, locale: string, tree: Json, override: bool)
    requires Consistent(db)
    ensures var (r, db') := LoadCommand(db, locale, tree, override);
      && Consistent(db')
      && (r.Err? ==> db'.keys == db.keys && db'.values == db.values)
      && (r.Ok? ==> ValidLocale(locale) && locale in db'.locales && TreeToList(GlossLeaf, tree).Ok?)
      && (r.Ok? ==> forall e :: e in TreeToList(GlossLeaf, tree).value ==>
            Join(e.path) in db'.keys && (Join(e.path), locale) in db'.values)
  {
    if ValidLocale(locale) && TreeToList(GlossLeaf, tree).Ok? {
      var es := TreeToList(GlossLeaf, tree).value;
      FlattenedGloss(tree);
      var db0 := WithLocale(db, locale);
      if LoadEntries(db0, locale, es, override).Ok? {
        LoadedOk(db0, locale, es, override);
      }
    }
  }

  /** The leaves `tree_to_list` emits for a gloss document are gloss leaves. */
  lemma FlattenedGloss(tree: Json)
    requires TreeToList(GlossLeaf, tree).Ok?
    ensures AllGloss(TreeToList(GlossLeaf, tree).value)
  {
    var es := TreeToList(GlossLeaf, tree).value;
    forall i | 0 <= i < |es| ensures GlossLeaf(es[i].value) {
      assert es[i] in es;
    }
  }

  /** After a successful loop from consistent tables holding the locale: still consistent, the locale kept, every leaf stored. */
  lemma LoadedOk(db: Db, locale: string, es: seq<Entry>, override: bool)
    requires AllGloss(es) && LoadEntries(db, locale, es, override).Ok?
    requires Consistent(db) && locale in db.locales
    ensures var db' := LoadEntries(db, locale, es, override).value.0;
      && Consistent(db') && locale in db'.locales
      && forall e :: e in es ==> Join(e.path) in db'.keys && (Join(e.path), locale) in db'.values
  {
    LoadKeepsConsistent(db, locale, es, override);
    LoadCovers(db, locale, es, override);
    LoadKeepsLocales(db, locale, es, override);
    var db' := LoadEntries(db, locale, es, override).value.0;
    forall e | e in es ensures Join(e.path) in db'.keys && (Join(e.path), locale) in db'.values {
      var i :| 0 <= i < |es| && es[i] == e;
    }
  }


  // ---- load-descriptions

  predicate AllStr(es: seq<Entry>) {
    forall i :: 0 <= i < |es| ==> es[i].value.Str?
  }

  /**
   * One entry of `load-descriptions`: a missing key is created with the
   * description; a key with a non-empty description is skipped unless
   * overriding; otherwise the description is replaced. The flag says whether
   * the entry was skipped.
   */
  function LoadDescEntry(keys: map<string, string>, e: Entry, override: bool): (map<string, string>, bool)
    requires e.value.Str?
  {
    var keyId := Join(e.path);
    if keyId !in keys then (keys[keyId := e.value.s], false)
    else if keys[keyId] != "" && !override then (keys, true)
    else (keys[keyId := e.value.s], false)
  }

  /** The loop of `load-descriptions`: the final keys, `entry_count` and `skip_count`. */
  function LoadDescEntries(keys: map<string, string>, es: seq<Entry>, override: bool): (map<string, string>, nat, nat)
    requires AllStr(es)
    decreases |es|
  {
    if |es| == 0 then (keys, 0, 0)
    else
      assert AllStr(es[1..]) by {
        assert forall j :: 1 <= j < |es| ==> es[1..][j - 1] == es[j];
      }
      var (keys1, skipped) := LoadDescEntry(keys, es[0], override);
      var (keys2, entries, skips) := LoadDescEntries(keys1, es[1..], override);
      if skipped then (keys2, entries, skips + 1) else (keys2, entries + 1, skips)
  }

  /** The whole `load-descriptions` command on a parsed document whose leaves are strings. */
  function LoadDescCommand(db: Db, tree: Json, override: bool): (Result<(nat, nat), CommandError>, Db) {
    match TreeToList(StrLeaf, tree)
    case Err(c) => (Err(Malformed(c)), db)
    case Ok(es) =>
      assert AllStr(es) by {
        forall i | 0 <= i < |es| ensures es[i].value.Str? {
          assert es[i] in es;
        }
      }
      var (keys', entries, skips) := LoadDescEntries(db.keys, es, override);
      (Ok((entries, skips)), db.(keys := keys'))
  }

  /** The default leaf test of `tree_to_list`: a string. */
  predicate StrLeaf(n: Json) {
    n.Str?
  }

  /** `entries` and `skips` already counted, added to the outcome of the rest of the loop. */
  function AddCounts(r: (map<string, string>, nat, nat), entries: nat, skips: nat): (map<string, string>, nat, nat) {
    (r.0, r.1 + entries, r.2 + skips)
  }

  /** One turn of the `load-descriptions` loop. */
  lemma LoadDescStep(keys: map<string, string>, es: seq<Entry>, override: bool)
    requires AllStr(es) && |es| >= 1
    ensures AllStr(es[1..])
    ensures var (keys1, skipped) := LoadDescEntry(keys, es[0], override);
      LoadDescEntries(keys, es, override) ==
        AddCounts(LoadDescEntries(keys1, es[1..], override), if skipped then 0 else 1, if skipped then 1 else 0)
  {
    AllStrTail(es);
  }

  /** The invariant of the `load-descriptions` loop carried over one leaf. */
  lemma LoadDescAdvance(keys: map<string, string>, ks: map<string, string>, es: seq<Entry>, i: nat, override: bool, entries: nat, skips: nat)
    requires AllStr(es) && i < |es|
    requires LoadDescEntries(keys, es, override) == AddCounts(LoadDescEntries(ks, es[i..], override), entries, skips)
    ensures var step := LoadDescEntry(ks, es[i], override);
      LoadDescEntries(keys, es, override) ==
        AddCounts(LoadDescEntries(step.0, es[i + 1..], override), entries + (if step.1 then 0 else 1), skips + (if step.1 then 1 else 0))
  {
    var tail := es[i..];
    assert tail[0] == es[i] && tail[1..] == es[i + 1..];
    LoadDescStep(ks, tail, override);
    var step := LoadDescEntry(ks, es[i], override);
    var rest := LoadDescEntries(step.0, es[i + 1..], override);
    AddCountsTwice(rest, if step.1 then 0 else 1, if step.1 then 1 else 0, entries, skips);
  }

  lemma AddCountsTwice(r: (map<string, string>, nat, nat), a: nat, b: nat, c: nat, d: nat)
    ensures AddCounts(AddCounts(r, a, b), c, d) == AddCounts(r, c + a, d + b)
  {
  }

  lemma AllStrTail(es: seq<Entry>)
    requires AllStr(es) && |es| >= 1
    ensures AllStr(es[1..])
  {
    assert forall j :: 1 <= j < |es| ==> es[1..][j - 1] == es[j];
  }

  /** Every leaf is either counted or skipped, and nothing is skipped when overriding. */
  lemma {:induction false} LoadDescCounts(keys: map<string, string>, es: seq<Entry>, override: bool)
    requires AllStr(es)
    ensures var (_, entries, skips) := LoadDescEntries(keys, es, override);
      entries + skips == |es| && (override ==> skips == 0)
    decreases |es|
  {
    if |es| > 0 {
      AllStrTail(es);
      LoadDescCounts(LoadDescEntry(keys, es[0], override).0, es[1..], override);
    }
  }

  /**
   * Keys are only added, never removed; every leaf's key exists afterwards;
   * without override a non-empty description is never replaced.
   */
  lemma {:induction false} LoadDescFrame(keys: map<string, string>, es: seq<Entry>, override: bool)
    requires AllStr(es)
    ensures var keys' := LoadDescEntries(keys, es, override).0;
      && keys.Keys <= keys'.Keys
      && (forall i :: 0 <= i < |es| ==> Join(es[i].path) in keys')
      && (!override ==> forall k :: k in keys && keys[k] != "" ==> keys'[k] == keys[k])
    decreases |es|
  {
    if |es| > 0 {
      AllStrTail(es);
      var keys1 := LoadDescEntry(keys, es[0], override).0;
      LoadDescFrame(keys1, es[1..], override);
      assert forall i :: 1 <= i < |es| ==> es[1..][i - 1] == es[i];
    }
  }

  /** A description that no leaf names is left as it was. */
  lemma {:induction false} LoadDescUntouched(keys: map<string, string>, es: seq<Entry>, override: bool, k: string)
    requires AllStr(es) && forall j :: 0 <= j < |es| ==> Join(es[j].path) != k
    ensures var keys' := LoadDescEntries(keys, es, override).0;
      (k in keys' <==> k in keys) && (k in keys ==> keys'[k] == keys[k])
    decreases |es|
  {
    if |es| > 0 {
      AllStrTail(es);
      assert forall j :: 1 <= j < |es| ==> es[1..][j - 1] == es[j];
      LoadDescUntouched(LoadDescEntry(keys, es[0], override).0, es[1..], override, k);
    }
  }

  /** With override the last leaf for a key id sets its description. */
  lemma {:induction false} LoadDescLastWins(keys: map<string, string>, es: seq<Entry>, i: nat)
    requires AllStr(es) && i < |es|
    requires forall j :: i < j < |es| ==> Join(es[j].path) != Join(es[i].path)
    ensures Join(es[i].path) in LoadDescEntries(keys, es, true).0
    ensures LoadDescEntries(keys, es, true).0[Join(es[i].path)] == es[i].value.s
    decreases |es|
  {
    AllStrTail(es);
    assert forall j :: 1 <= j < |es| ==> es[1..][j - 1] == es[j];
    var keys1 := LoadDescEntry(keys, es[0], true).0;
    if i == 0 {
      LoadDescUntouched(keys1, es[1..], true, Join(es[0].path));
    } else {
      LoadDescLastWins(keys1, es[1..], i - 1);
    }
  }

  // ---- dump and dump-descriptions

  /** The leaf `dump` writes for a value. */
  function ValueLeaf(v: Value): Json {
    Obj([("gloss", Str(v.gloss)), ("verified", v.verified)])
  }

  /** Whether `dump-descriptions` writes a key with this description. */
  predicate DumpsDesc(desc: string, dumpEmpty: bool) {
    dumpEmpty || desc != ""
  }

  /** The leaf `dump-descriptions` writes: the description, or the placeholder for an empty one. */
  function DescLeaf(desc: string, placeholder: string): Json {
    Str(if desc != "" then desc else placeholder)
  }

  /** Distinct dotted paths of which none lies on the way to another. */
  predicate PathsApart(ks: set<string>) {
    forall k1, k2 :: k1 in ks && k2 in ks && k1 != k2 ==> Unrelated(Split(k1), Split(k2))
  }

  /** The rows name each key of `ks` once, and nothing else. */
  ghost predicate Enumerates(rows: seq<DottedEntry>, ks: set<string>) {
    && (forall k :: k in ks <==> exists i :: 0 <= i < |rows| && rows[i].path == k)
    && (forall i, j :: 0 <= i < j < |rows| ==> rows[i].path != rows[j].path)
  }

  /** Rows laid out along an enumeration of `ks` enumerate `ks`. */
  lemma OrderedRows(rows: seq<DottedEntry>, order: seq<string>, ks: set<string>)
    requires |rows| == |order| && forall i :: 0 <= i < |rows| ==> rows[i].path == order[i]
    requires forall k :: k in ks <==> k in order
    requires forall i, j :: 0 <= i < j < |order| ==> order[i] != order[j]
    ensures Enumerates(rows, ks)
  {
    forall k | k in ks ensures exists i :: 0 <= i < |rows| && rows[i].path == k {
      var i :| 0 <= i < |order| && order[i] == k;
      assert rows[i].path == k;
    }
    forall k | exists i :: 0 <= i < |rows| && rows[i].path == k ensures k in ks {
      var i :| 0 <= i < |rows| && rows[i].path == k;
      assert order[i] in order;
    }
  }

  /** The split paths of enumerating rows are apart exactly when the keys are. */
  lemma RowsApart(rows: seq<DottedEntry>, ks: set<string>)
    requires Enumerates(rows, ks)
    ensures PairwiseUnrelated(Parse(rows)) <==> PathsApart(ks)
  {
    var es := Parse(rows);
    if PathsApart(ks) {
      forall i, j | 0 <= i < |es| && 0 <= j < |es| && i != j ensures Unrelated(es[i].path, es[j].path) {
        assert rows[i].path in ks && rows[j].path in ks;
        if i < j {
          assert rows[i].path != rows[j].path;
        } else {
          assert rows[j].path != rows[i].path;
        }
      }
    }
    if PairwiseUnrelated(es) {
      forall k1, k2 | k1 in ks && k2 in ks && k1 != k2 ensures Unrelated(Split(k1), Split(k2)) {
        var i :| 0 <= i < |rows| && rows[i].path == k1;
        var j :| 0 <= j < |rows| && rows[j].path == k2;
        assert Unrelated(es[i].path, es[j].path);
      }
    }
  }

  /** Enumerating rows whose keys are apart are all placed, each at its split key id. */
  lemma RowsPlaced(rows: seq<DottedEntry>, ks: set<string>)
    requires Enumerates(rows, ks) && PathsApart(ks)
    ensures TreeOf(rows).Ok?
    ensures forall i :: 0 <= i < |rows| ==> Lookup(TreeOf(rows).value, Split(rows[i].path)) == Some(rows[i].value)
  {
    RowsApart(rows, ks);
    UnrelatedPlaced(Parse(rows));
  }

  /** Rows of scalar leaves build a tree exactly when no key id lies on the way to another. */
  lemma ScalarRowsIff(rows: seq<DottedEntry>, ks: set<string>)
    requires Enumerates(rows, ks) && forall i :: 0 <= i < |rows| ==> !rows[i].value.Obj?
    ensures TreeOf(rows).Ok? <==> PathsApart(ks)
  {
    var es := Parse(rows);
    RowsApart(rows, ks);
    assert forall i :: 0 <= i < |es| ==> !es[i].value.Obj?;
    ScalarEntriesSucceedIff(es);
  }

  // ---- the tables and the commands

  class TranslationDb {
    var locales: map<string, string>
    var keys: map<string, string>
    var values: map<(string, string), Value>

    function State(): Db
      reads this
    {
      Db(locales, keys, values)
    }

    constructor (db: Db)
      ensures State() == db
    {
      locales, keys, values := db.locales, db.keys, db.values;
    }

    /** `load <locale>` on the parsed document `tree`, returning `entry_count`. */
    method Load(locale: string, tree: Json, override: bool) returns (r: Result<nat, CommandError>)
      modifies this
      ensures (r, State()) == LoadCommand(old(State()), locale, tree, override)
    {
      if !ValidLocale(locale) {
        return Err(BadLocale(locale));
      }
      var flat := TreeToList(GlossLeaf, tree);
      if flat.Err? {
        return Err(Malformed(flat.error));
      }
      var es := flat.value;
      assert AllGloss(es) by {
        forall i | 0 <= i < |es| ensures GlossLeaf(es[i].value) {
          assert es[i] in es;
        }
      }
      if locale !in locales {
        locales := locales[locale := ""];
      }
      r := LoadLoop(locale, es, override);
    }

    /**
     * The loop of `load` over the leaves `es`, after the locale is committed:
     * on a missing 'verified' the uncommitted keys and values are dropped.
     */
    method LoadLoop(locale: string, es: seq<Entry>, override: bool) returns (r: Result<nat, CommandError>)
      requires AllGloss(es)
      modifies this
      ensures (r, State()) == match LoadEntries(old(State()), locale, es, override)
        case Err(x) => (Err(x), old(State()))
        case Ok((db1, n)) => (Ok(n), db1)
    {
      var committed := State();
      ghost var total := LoadEntries(committed, locale, es, override);
      var count := 0;
      var i := 0;
      assert es[0..] == es;
      while i < |es|
        invariant 0 <= i <= |es|
        invariant AddCount(count, LoadEntries(State(), locale, es[i..], override)) == total
      {
        LoadAdvance(total, State(), locale, es, i, override, count);
        var step := LoadOne(locale, es[i], override);
        if step.Err? {
          locales, keys, values := committed.locales, committed.keys, committed.values;
          return Err(step.error);
        }
        count := count + if step.value then 1 else 0;
        i := i + 1;
      }
      assert es[i..] == [];
      return Ok(count);
    }

    /** One leaf of `load`: whether it was counted, or the missing 'verified'. */
    method LoadOne(locale: string, e: Entry, override: bool) returns (r: Result<bool, CommandError>)
      requires GlossLeaf(e.value)
      modifies this
      ensures r == match LoadEntry(old(State()), locale, e, override) case Ok((_, counted)) => Ok(counted) case Err(x) => Err(x)
      ensures r.Ok? ==> State() == LoadEntry(old(State()), locale, e, override).value.0
    {
      var keyId := Join(e.path);
      if keyId !in keys {
        keys := keys[keyId := ""];
      }
      var id := (keyId, locale);
      if id in values && !override {
        return Ok(false);
      }
      var verified := Get(e.value.fields, "verified");
      if verified.None? {
        return Err(MissingVerified(keyId));
      }
      values := values[id := Value(GlossOf(e.value), verified.value)];
      return Ok(true);
    }

    /** The rows `dump` reads for `locale`, in the order the database returns them. */
    method ValueRows(locale: string) returns (rows: seq<DottedEntry>)
      ensures Enumerates(rows, KeysOfLocale(values, locale))
      ensures forall i :: 0 <= i < |rows| ==>
        (rows[i].path, locale) in values && rows[i].value == ValueLeaf(values[(rows[i].path, locale)])
    {
      var ks := KeysOfLocale(values, locale);
      var order := Enumerate(ks);
      var vals := values;
      assert forall i :: 0 <= i < |order| ==> (order[i], locale) in vals by {
        forall i | 0 <= i < |order| ensures (order[i], locale) in vals {
          assert order[i] in order;
        }
      }
      rows := seq(|order|, i requires 0 <= i < |order| => DottedEntry(order[i], ValueLeaf(vals[(order[i], locale)])));
      OrderedRows(rows, order, ks);
    }

    /**
     * `dump <locale>`: the values of the locale, in the order the database
     * returns them, rebuilt into a tree under their dotted key ids.
     */
    method Dump(locale: string) returns (r: Result<Json, CommandError>, rows: seq<DottedEntry>)
      ensures !ValidLocale(locale) ==> r == Err(BadLocale(locale)) && rows == []
      ensures ValidLocale(locale) ==>
        && Enumerates(rows, KeysOfLocale(values, locale))
        && (forall i :: 0 <= i < |rows| ==> (rows[i].path, locale) in values && rows[i].value == ValueLeaf(values[(rows[i].path, locale)]))
        && r == match TreeOf(rows) case Ok(t) => Ok(t) case Err(c) => Err(Malformed(c))
      ensures ValidLocale(locale) && PathsApart(KeysOfLocale(values, locale)) ==>
        r.Ok? && forall k :: (k, locale) in values ==> Lookup(r.value, Split(k)) == Some(ValueLeaf(values[(k, locale)]))
      ensures (exists i, j :: 0 <= i < j < |rows| && IsPrefix(Split(rows[j].path), Split(rows[i].path))) ==> r.Err?
    {
      if !ValidLocale(locale) {
        return Err(BadLocale(locale)), [];
      }
      rows := ValueRows(locale);
      var tree := ListToTree(rows);
      r := match tree case Ok(t) => Ok(t) case Err(c) => Err(Malformed(c));
      var ks := KeysOfLocale(values, locale);
      if PathsApart(ks) {
        RowsPlaced(rows, ks);
        forall k | (k, locale) in values ensures Lookup(r.value, Split(k)) == Some(ValueLeaf(values[(k, locale)])) {
          var i :| 0 <= i < |rows| && rows[i].path == k;
        }
      }
      if i, j :| 0 <= i < j < |rows| && IsPrefix(Split(rows[j].path), Split(rows[i].path)) {
        RepeatedSlotRaises(Obj([]), Parse(rows), i, j);
      }
    }

    /** `load-descriptions` on the parsed document `tree`, returning `entry_count` and `skip_count`. */
    method LoadDescriptions(tree: Json, override: bool) returns (r: Result<(nat, nat), CommandError>)
      modifies this
      ensures (r, State()) == LoadDescCommand(old(State()), tree, override)
    {
      var flat := TreeToList(StrLeaf, tree);
      if flat.Err? {
        return Err(Malformed(flat.error));
      }
      var es := flat.value;
      assert AllStr(es) by {
        forall i | 0 <= i < |es| ensures es[i].value.Str? {
          assert es[i] in es;
        }
      }
      var ks := keys;
      var entries, skips := 0, 0;
      var i := 0;
      assert es[0..] == es;
      while i < |es|
        modifies {}
        invariant 0 <= i <= |es|
        invariant LoadDescEntries(keys, es, override) == AddCounts(LoadDescEntries(ks, es[i..], override), entries, skips)
      {
        LoadDescAdvance(keys, ks, es, i, override, entries, skips);
        var (ks1, skipped) := LoadDescEntry(ks, es[i], override);
        ks := ks1;
        if skipped {
          skips := skips + 1;
        } else {
          entries := entries + 1;
        }
        i := i + 1;
      }
      assert es[i..] == [];
      assert LoadDescEntries(keys, es, override) == (ks, entries, skips);
      keys := ks;
      return Ok((entries, skips));
    }

    /** The key ids `dump-descriptions` selects. */
    function DumpedKeys(dumpEmpty: bool): (ks: set<string>)
      reads this
      ensures forall k :: k in ks <==> k in keys && DumpsDesc(keys[k], dumpEmpty)
    {
      set k | k in keys && DumpsDesc(keys[k], dumpEmpty)
    }

    /**
     * `--dump-empty` widens the query to every key; the keys it adds are
     * exactly those whose description is empty.
     */
    lemma DumpEmptyAddsBlank()
      ensures DumpedKeys(true) == keys.Keys
      ensures DumpedKeys(false) <= DumpedKeys(true)
      ensures forall k :: k in DumpedKeys(true) - DumpedKeys(false) <==> k in keys && keys[k] == ""
    {
    }

    /** The rows `dump-descriptions` reads, in the order the database returns them. */
    method DescRows(dumpEmpty: bool, placeholder: string) returns (rows: seq<DottedEntry>)
      ensures Enumerates(rows, DumpedKeys(dumpEmpty))
      ensures forall i :: 0 <= i < |rows| ==> rows[i].path in keys && rows[i].value == DescLeaf(keys[rows[i].path], placeholder)
    {
      var ks := DumpedKeys(dumpEmpty);
      var order := Enumerate(ks);
      var descs := keys;
      assert forall i :: 0 <= i < |order| ==> order[i] in descs by {
        forall i | 0 <= i < |order| ensures order[i] in descs {
          assert order[i] in order;
        }
      }
      rows := seq(|order|, i requires 0 <= i < |order| => DottedEntry(order[i], DescLeaf(descs[order[i]], placeholder)));
      OrderedRows(rows, order, ks);
    }

    /**
     * `dump-descriptions`: the keys with a description (all keys with
     * `dumpEmpty`), each under its dotted id, empty ones as the placeholder.
     * The leaves are strings, so the tree is built exactly when no selected
     * key id lies on the way to another.
     */
    method DumpDescriptions(dumpEmpty: bool, placeholder: string) returns (r: Result<Json, CommandError>, rows: seq<DottedEntry>)
      ensures Enumerates(rows, DumpedKeys(dumpEmpty))
      ensures forall i :: 0 <= i < |rows| ==> rows[i].path in keys && rows[i].value == DescLeaf(keys[rows[i].path], placeholder)
      ensures r.Ok? <==> PathsApart(DumpedKeys(dumpEmpty))
      ensures r.Ok? ==> forall k :: k in keys && DumpsDesc(keys[k], dumpEmpty) ==>
        Lookup(r.value, Split(k)) == Some(DescLeaf(keys[k], placeholder))
    {
      rows := DescRows(dumpEmpty, placeholder);
      var tree := ListToTree(rows);
      r := match tree case Ok(t) => Ok(t) case Err(c) => Err(Malformed(c));
      var ks := DumpedKeys(dumpEmpty);
      ScalarRowsIff(rows, ks);
      if PathsApart(ks) {
        RowsPlaced(rows, ks);
        forall k | k in ks ensures Lookup(r.value, Split(k)) == Some(DescLeaf(keys[k], placeholder)) {
          var i :| 0 <= i < |rows| && rows[i].path == k;
        }
      }
    }
  }

  /** The key ids that have a value for `locale`. */
  function KeysOfLocale(values: map<(string, string), Value>, locale: string): (ks: set<string>)
    ensures forall k :: k in ks <==> (k, locale) in values
  {
    var ks := set id | id in values && id.1 == locale :: id.0;
    assert forall k :: (k, locale) in values ==> k in ks by {
      forall k | (k, locale) in values ensures k in ks {
        var id := (k, locale);
        assert id in values && id.1 == locale;
      }
    }
    ks
  }

  /** One turn of the `load` loop, as `LoadEntries` sees it. */
  lemma LoadEntriesStep(db: Db, locale: string, es: seq<Entry>, override: bool)
    requires AllGloss(es) && |es| >= 1
    ensures AllGloss(es[1..])
    ensures LoadEntries(db, locale, es, override) ==
      match LoadEntry(db, locale, es[0], override)
      case Err(x) => Err(x)
      case Ok((db1, counted)) => AddCount(if counted then 1 else 0, LoadEntries(db1, locale, es[1..], override))
  {
    AllGlossTail(es);
  }

  /** The invariant of the `load` loop carried over one leaf, or the error that ends it. */
  lemma LoadAdvance(total: Result<(Db, nat), CommandError>, db: Db, locale: string, es: seq<Entry>, i: nat, override: bool, count: nat)
    requires AllGloss(es) && i < |es|
    requires AddCount(count, LoadEntries(db, locale, es[i..], override)) == total
    ensures AllGloss(es[i + 1..])
    ensures LoadEntry(db, locale, es[i], override).Err? ==> total == Err(LoadEntry(db, locale, es[i], override).error)
    ensures LoadEntry(db, locale, es[i], override).Ok? ==>
      var (db1, counted) := LoadEntry(db, locale, es[i], override).value;
      AddCount(count + (if counted then 1 else 0), LoadEntries(db1, locale, es[i + 1..], override)) == total
  {
    var tail := es[i..];
    assert tail[0] == es[i] && tail[1..] == es[i + 1..];
    LoadEntriesStep(db, locale, tail, override);
    var step := LoadEntry(db, locale, es[i], override);
    if step.Ok? {
      var (db1, counted) := step.value;
      AddCountTwice(count, if counted then 1 else 0, LoadEntries(db1, locale, es[i + 1..], override));
    }
  }

  lemma AddCountTwice(a: nat, b: nat, r: Result<(Db, nat), CommandError>)
    ensures AddCount(a, AddCount(b, r)) == AddCount(a + b, r)
  {
  }

  /** `count` entries already counted, added to the outcome of the rest of the loop. */
  function AddCount(count: nat, r: Result<(Db, nat), CommandError>): Result<(Db, nat), CommandError> {
    match r
    case Ok((db, n)) => Ok((db, n + count))
    case Err(x) => Err(x)
  }
}
