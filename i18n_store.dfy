/**
 * The i18n value store of the API: the locale-code and key-id validators of
 * the request schemas, and `i18n_create`, `i18n_update` and `i18n_delete`
 * over the locale, key and value tables. Values here hold only a gloss.
 */
module I18nStore {
  import opened Wrappers

  // ---- validators

  /**
   * A letter for `[a-z]` or `[A-Z]` under `re.IGNORECASE` on a str pattern:
   * the 52 ASCII letters, and the four non-ASCII letters that case-fold onto
   * them (dotted capital I, dotless small i, long s, Kelvin sign).
   */
  predicate Letter(c: char) {
    || 'a' <= c <= 'z' || 'A' <= c <= 'Z'
    || c == '\U{0130}' || c == '\U{0131}' || c == '\U{017F}' || c == '\U{212A}'
  }

  /** `code` of a locale request: length 2 to 5, and a full match of `[a-z]{2}-[A-Z]{2}` ignoring case. */
  predicate LocaleCodeValid(code: string) {
    // The schema's Length(min=2, max=5) is kept as written; the regex's fixed length of five subsumes it.
    && 2 <= |code| <= 5
    && |code| == 5 && Letter(code[0]) && Letter(code[1]) && code[2] == '-' && Letter(code[3]) && Letter(code[4])
  }

  /** `[a-z]*` ignoring case. */
  predicate Letters(s: string) {
    forall m :: 0 <= m < |s| ==> Letter(s[m])
  }

  /** `[a-z.]*` ignoring case. */
  predicate LettersOrDots(s: string) {
    forall m :: 0 <= m < |s| ==> Letter(s[m]) || s[m] == '.'
  }

  /**
   * `id` of a key request: a full match of `[a-z]+[a-z.]*[a-z]` ignoring
   * case, split as a non-empty run of letters, letters or dots, one letter.
   */
  predicate KeyIdValid(id: string) {
    exists i :: 1 <= i < |id| && Letters(id[..i]) && LettersOrDots(id[i..|id| - 1]) && Letter(id[|id| - 1])
  }

  /**
   * A key id is valid exactly when it has at least two characters, starts and
   * ends with a letter, and holds nothing but letters and dots.
   */
  lemma KeyIdValidIff(id: string)
    ensures KeyIdValid(id) <==> |id| >= 2 && Letter(id[0]) && Letter(id[|id| - 1]) && LettersOrDots(id)
  {
    if |id| >= 2 && Letter(id[0]) && Letter(id[|id| - 1]) && LettersOrDots(id) {
      assert Letters(id[..1]);
      var middle := id[1..|id| - 1];
      forall m | 0 <= m < |middle| ensures Letter(middle[m]) || middle[m] == '.' {
        assert middle[m] == id[m + 1];
      }
      assert LettersOrDots(middle);
    }
    if KeyIdValid(id) {
      var i :| 1 <= i < |id| && Letters(id[..i]) && LettersOrDots(id[i..|id| - 1]) && Letter(id[|id| - 1]);
      assert id[..i][0] == id[0];
      forall m | 0 <= m < |id| ensures Letter(id[m]) || id[m] == '.' {
        if m < i {
          assert id[..i][m] == id[m];
        } else if m < |id| - 1 {
          assert id[i..|id| - 1][m - i] == id[m];
        }
      }
    }
  }

  // ---- the tables

  datatype StoreError =
    | ValueExists               // a value for the (key, locale) pair is already stored
    | NoLocale                  // the locale is not in the locale table
    | KeyWithoutDescription     // the key is missing and no description was given
    | NoValue                   // no value for the (key, locale) pair

  /** Locale code to description, key id to description, and (key id, locale code) to gloss. */
  datatype Store = Store(locales: map<string, string>, keys: map<string, string>, glosses: map<(string, string), string>)

  /** Every value belongs to an existing key and an existing locale. */
  predicate Consistent(s: Store) {
    forall id: (string, string) :: id in s.glosses ==> id.0 in s.keys && id.1 in s.locales
  }

  /**
   * `i18n_create`: refuses an existing value, then a missing locale, then a
   * missing key without a description; otherwise adds the key when missing
   * and the value. A failure rolls back, so the store is unchanged.
   */
  function Create(s: Store, keyId: string, localeCode: string, gloss: string, description: Option<string>): Result<Store, StoreError> {
    if (keyId, localeCode) in s.glosses then Err(ValueExists)
    else if localeCode !in s.locales then Err(NoLocale)
    else if keyId !in s.keys && description.None? then Err(KeyWithoutDescription)
    else
      var keys := if keyId in s.keys then s.keys else s.keys[keyId := description.value];
      Ok(Store(s.locales, keys, s.glosses[(keyId, localeCode) := gloss]))
  }

  /** `i18n_update`: replaces the gloss of an existing value. */
  function Update(s: Store, keyId: string, localeCode: string, gloss: string): Result<Store, StoreError> {
    if (keyId, localeCode) !in s.glosses then Err(NoValue)
    else Ok(s.(glosses := s.glosses[(keyId, localeCode) := gloss]))
  }

  /** `i18n_delete`: removes an existing value. */
  function Delete(s: Store, keyId: string, localeCode: string): Result<Store, StoreError> {
    if (keyId, localeCode) !in s.glosses then Err(NoValue)
    else Ok(s.(glosses := s.glosses - {(keyId, localeCode)}))
  }

  /** The first failing check decides the error: an existing value wins over every other problem. */
  lemma CreateErrors(s: Store, keyId: string, localeCode: string, gloss: string, description: Option<string>)
    ensures var r := Create(s, keyId, localeCode, gloss, description);
      && (r == Err(ValueExists) <==> (keyId, localeCode) in s.glosses)
      && (r == Err(NoLocale) <==> (keyId, localeCode) !in s.glosses && localeCode !in s.locales)
      && (r.Ok? <==> (keyId, localeCode) !in s.glosses && localeCode in s.locales && (keyId in s.keys || description.Some?))
  {
  }

  /**
   * A successful create adds exactly one value, with the given gloss; it adds
   * the key with the given description only when the key was missing, leaves
   * every existing key, locale and value as it was, and keeps the store consistent.
   */
  lemma CreateAddsOne(s: Store, keyId: string, localeCode: string, gloss: string, description: Option<string>)
    requires Create(s, keyId, localeCode, gloss, description).Ok?
    ensures var s' := Create(s, keyId, localeCode, gloss, description).value;
      && s'.glosses.Keys == s.glosses.Keys + {(keyId, localeCode)}
      && |s'.glosses| == |s.glosses| + 1
      && s'.glosses[(keyId, localeCode)] == gloss
      && (forall id :: id in s.glosses ==> s'.glosses[id] == s.glosses[id])
      && s'.locales == s.locales
      && (forall k :: k in s.keys ==> k in s'.keys && s'.keys[k] == s.keys[k])
      && s'.keys.Keys == s.keys.Keys + {keyId}
      && (keyId !in s.keys ==> s'.keys[keyId] == description.value)
      && (Consistent(s) ==> Consistent(s'))
  {
    CreateShape(s, keyId, localeCode, gloss, description);
    var s' := Create(s, keyId, localeCode, gloss, description).value;
    MapAdded(s.glosses, s'.glosses, (keyId, localeCode), gloss);
    KeyEnsured(s.keys, s'.keys, keyId, description);
    if Consistent(s) {
      CreateConsistent(s, s', keyId, localeCode, gloss);
    }
  }

  /** Storing under a new key adds exactly that key and keeps every other entry. */
  lemma MapAdded<K, V>(m: map<K, V>, m': map<K, V>, slot: K, v: V)
    requires slot !in m && m' == m[slot := v]
    ensures m'.Keys == m.Keys + {slot} && |m'| == |m| + 1 && m'[slot] == v
    ensures forall k :: k in m ==> m'[k] == m[k]
  {
  }

  lemma KeyEnsured(keys: map<string, string>, keys': map<string, string>, keyId: string, description: Option<string>)
    requires keyId in keys || description.Some?
    requires keys' == if keyId in keys then keys else keys[keyId := description.value]
    ensures forall k :: k in keys ==> k in keys' && keys'[k] == keys[k]
    ensures keys'.Keys == keys.Keys + {keyId}
    ensures keyId !in keys ==> keys'[keyId] == description.value
  {
  }

  lemma CreateShape(s: Store, keyId: string, localeCode: string, gloss: string, description: Option<string>)
    requires Create(s, keyId, localeCode, gloss, description).Ok?
    ensures var s' := Create(s, keyId, localeCode, gloss, description).value;
      && (keyId, localeCode) !in s.glosses && localeCode in s.locales
      && s'.glosses == s.glosses[(keyId, localeCode) := gloss]
      && s'.locales == s.locales
      && s'.keys == if keyId in s.keys then s.keys else s.keys[keyId := description.value]
  {
  }

  lemma CreateConsistent(s: Store, s': Store, keyId: string, localeCode: string, gloss: string)
    requires Consistent(s) && localeCode in s.locales && s'.locales == s.locales
    requires s'.glosses == s.glosses[(keyId, localeCode) := gloss]
    requires s.keys.Keys + {keyId} <= s'.keys.Keys
    ensures Consistent(s')
  {
    forall id | id in s'.glosses ensures id.0 in s'.keys && id.1 in s'.locales {
      if id != (keyId, localeCode) {
        assert id in s.glosses;
      }
    }
  }

  /** A successful update changes that one gloss and nothing else. */
  lemma UpdateChangesOne(s: Store, keyId: string, localeCode: string, gloss: string)
    ensures Update(s, keyId, localeCode, gloss).Ok? <==> (keyId, localeCode) in s.glosses
    ensures Update(s, keyId, localeCode, gloss).Ok? ==>
      var s' := Update(s, keyId, localeCode, gloss).value;
      && s'.glosses.Keys == s.glosses.Keys
      && s'.glosses[(keyId, localeCode)] == gloss
      && (forall id :: id in s.glosses && id != (keyId, localeCode) ==> s'.glosses[id] == s.glosses[id])
      && s'.keys == s.keys && s'.locales == s.locales
      && (Consistent(s) ==> Consistent(s'))
  {
  }

  /** A successful delete removes exactly that value; keys and locales remain. */
  lemma DeleteRemovesOne(s: Store, keyId: string, localeCode: string)
    ensures Delete(s, keyId, localeCode).Ok? <==> (keyId, localeCode) in s.glosses
    ensures Delete(s, keyId, localeCode).Ok? ==>
      var s' := Delete(s, keyId, localeCode).value;
      && s'.glosses.Keys == s.glosses.Keys - {(keyId, localeCode)}
      && |s'.glosses| == |s.glosses| - 1
      && (forall id :: id in s'.glosses ==> s'.glosses[id] == s.glosses[id])
      && s'.keys == s.keys && s'.locales == s.locales
      && (Consistent(s) ==> Consistent(s'))
  {
    if (keyId, localeCode) in s.glosses {
      var s' := Delete(s, keyId, localeCode).value;
      assert s'.glosses.Keys == s.glosses.Keys - {(keyId, localeCode)};
    }
  }

  /** Deleting a value just created gives the old values back; the key created on the way stays. */
  lemma CreateThenDelete(s: Store, keyId: string, localeCode: string, gloss: string, description: Option<string>)
    requires Create(s, keyId, localeCode, gloss, description).Ok?
    ensures Delete(Create(s, keyId, localeCode, gloss, description).value, keyId, localeCode).Ok?
    ensures Delete(Create(s, keyId, localeCode, gloss, description).value, keyId, localeCode).value.glosses == s.glosses
  {
    var s' := Create(s, keyId, localeCode, gloss, description).value;
    assert (s'.glosses - {(keyId, localeCode)}) == s.glosses;
  }

  /** A second update overrides the first. */
  lemma UpdateTwice(s: Store, keyId: string, localeCode: string, g1: string, g2: string)
    requires Update(s, keyId, localeCode, g1).Ok?
    ensures Update(Update(s, keyId, localeCode, g1).value, keyId, localeCode, g2) == Update(s, keyId, localeCode, g2)
  {
    assert s.glosses[(keyId, localeCode) := g1][(keyId, localeCode) := g2] == s.glosses[(keyId, localeCode) := g2];
  }

  /** The value table of the API, updated in place and committed per call. */
  class I18nTables {
    var locales: map<string, string>
    var keys: map<string, string>
    var glosses: map<(string, string), string>

    function State(): Store
      reads this
    {
      Store(locales, keys, glosses)
    }

    constructor (s: Store)
      ensures State() == s
    {
      locales, keys, glosses := s.locales, s.keys, s.glosses;
    }

    /** `i18n_create(key_id, locale_code, gloss, description)`. */
    method I18nCreate(keyId: string, localeCode: string, gloss: string, description: Option<string>) returns (err: Option<StoreError>)
      modifies this
      ensures match Create(old(State()), keyId, localeCode, gloss, description)
        case Ok(s') => err.None? && State() == s'
        case Err(e) => err == Some(e) && State() == old(State())
    {
      if (keyId, localeCode) in glosses {
        return Some(ValueExists);
      }
      if localeCode !in locales {
        return Some(NoLocale);
      }
      if keyId !in keys {
        if description.None? {
          return Some(KeyWithoutDescription);
        }
        keys := keys[keyId := description.value];
      }
      glosses := glosses[(keyId, localeCode) := gloss];
      return None;
    }

    /** `i18n_update(key_id, locale_code, gloss)`. */
    method I18nUpdate(keyId: string, localeCode: string, gloss: string) returns (err: Option<StoreError>)
      modifies this
      ensures match Update(old(State()), keyId, localeCode, gloss)
        case Ok(s') => err.None? && State() == s'
        case Err(e) => err == Some(e) && State() == old(State())
    {
      if (keyId, localeCode) !in glosses {
        return Some(NoValue);
      }
      glosses := glosses[(keyId, localeCode) := gloss];
      return None;
    }

    /** `i18n_delete(key_id, locale_code)`. */
    method I18nDelete(keyId: string, localeCode: string) returns (err: Option<StoreError>)
      modifies this
      ensures match Delete(old(State()), keyId, localeCode)
        case Ok(s') => err.None? && State() == s'
        case Err(e) => err == Some(e) && State() == old(State())
    {
      if (keyId, localeCode) !in glosses {
        return Some(NoValue);
      }
      glosses := glosses - {(keyId, localeCode)};
      return None;
    }
  }
}
