# corpus-christi: translation commands, translation store and event bookings

This project is a Dafny model of three parts of the corpus-christi API, with proofs about that model.

- **The `i18n` command group** (`api/commands/i18n.py`).
  - `tree_to_list` flattens a nested translation document into `(path, leaf)` entries.
  - `list_to_tree` rebuilds a document from entries with dotted paths. It raises when a slot is already taken.
  - Four commands are built on these two helpers:
    - `load` copies glosses into the value table of one locale.
    - `dump` writes the glosses of one locale back out as a document.
    - `load-descriptions` copies key descriptions into the key table.
    - `dump-descriptions` writes the descriptions out.
  - `validate_locale` checks the locale argument.
- **The translation store** (`api/src/i18n/models.py`).
  - The schema validators for locale codes and key ids.
  - The `i18n_create`, `i18n_update` and `i18n_delete` helpers over the locale, key and value tables.
- **The events blueprint** (`api/src/events/api.py`).
  - `modify_entity`.
  - Booking assets, teams and people onto events. A booking is refused when the event overlaps an event that already holds the resource.
  - The soft deletes, which clear `active` instead of removing rows.
  - `add_team_member` and the member overview `read_all_team_members`.
  - The filters of `read_all_events`.

Layout:

| file | module | contents |
|---|---|---|
| `wrappers.dfy` | `Wrappers` | `Option` and `Result` |
| `dotted_path.dfy` | `DottedPath` | `str.split('.')` and `'.'.join`, and their round trips |
| `json_value.dfy` | `JsonValue` | JSON values; dicts as insertion-ordered pairs; `Get`, `Put`, path `Lookup` |
| `tree_codec.dfy` | `TreeCodec` | `tree_to_list` (`FlattenNode`), one entry of `list_to_tree` (`Insert`), its fold (`InsertAll`, `TreeOf`) and the loop `ListToTree` |
| `insert_laws.dfy` | `InsertLaws` | when `list_to_tree` raises, where it puts each value, and what it leaves alone |
| `flatten_laws.dfy` | `FlattenLaws` | when `tree_to_list` succeeds; its entries are exactly the leaves, each once |
| `round_trip.dfy` | `RoundTrip` | `list_to_tree(tree_to_list(t)) == t`, on paths and on dotted ids |
| `query_order.dfy` | `QueryOrder` | query results in an unspecified order |
| `i18n_commands.dfy` | `I18nCommands` | the four commands over locale, key and value tables (class `TranslationDb`) |
| `i18n_store.dfy` | `I18nStore` | the schema validators, and create, update and delete (class `I18nTables`) |
| `events.dfy` | `Events` | rows, overlap test, bookings, deletes, memberships, overview, event filters (class `EventsDb`) |

Modelling choices:

- **JSON values.** A JSON document is a value of type `Json`. A dict is a sequence of `(key, value)` pairs in insertion order. `setdefault` and item assignment are `Put`: it replaces the value in place when the key is present and appends the pair otherwise.
- **`is_leaf`.** The leaf test of `tree_to_list` is a parameter. The `load` command passes `GlossLeaf` (a dict whose `gloss` is a string). `load-descriptions` passes `StrLeaf` (a string).
- **Tables.**
  - The tables are maps: locales and keys to descriptions, and `(key, locale)` to a value.
  - A nullable description is `""`, because `None` and `""` behave alike in every test the commands make.
- **Command errors.**
  - Each command returns `Err` where the Python raises or aborts: a bad locale, a document that is not a dict where a dict is walked, a slot `list_to_tree` finds taken, or a leaf without `verified`.
  - A failed `load` keeps the locale it committed before the loop. It drops the uncommitted keys and values.
- **Date-times** in the events blueprint are integers on one time line.
- **Payloads.** The request payload of `add_event_persons` is `None` when the schema rejects it. Otherwise it is `Some(description)`.
- **Query order.** The database returns rows in an unspecified order. `QueryOrder.Enumerate` models this by choosing any order of the set. The contracts hold for every such order.

The command code and the table definitions disagree in one place:

- The value rows written by `load` carry `gloss` and `verified`.
- The ORM's value table (`api/src/i18n/models.py:57-68`) has only `gloss`.

So `I18nCommands` stores both fields, as the command code does, and `I18nStore` stores the gloss only, as the table does.

## Model

| member | source | states |
|---|---|---|
| DottedPath.SplitJoin | api/commands/i18n.py:61 | splitting the dot-join of at least one dot-free segment gives those segments back |
| DottedPath.JoinSplit | api/commands/i18n.py:111 | joining the pieces of `s.split('.')` with dots gives `s` back |
| DottedPath.SplitInjective | api/commands/i18n.py:61 | two ids with the same split are equal, so distinct key ids give distinct paths |
| JsonValue.GetPut | api/commands/i18n.py:65-69 | after assigning `d[k] = v`, reading `k` gives `v`, and every other key reads as before |
| TreeCodec.FlattenNode | api/commands/i18n.py:41-46 | every emitted entry holds a leaf, under a path that extends the current path by at least one key |
| TreeCodec.Insert | api/commands/i18n.py:61-69 | placing one entry either puts the value at its path, or fails; it always fails when the path is already occupied |
| TreeCodec.ListToTree | api/commands/i18n.py:51-70 | the loop gives what the fold `TreeOf` gives; no entries give `{}`; a success is a dict |
| InsertLaws.InsertUnrelated | api/commands/i18n.py:61-69 | placing one entry leaves every path unrelated to its own (neither a prefix of the other) as it was |
| InsertLaws.InsertKeeps | api/commands/i18n.py:61-69 | a path present before is present after; its value is unchanged unless it lies strictly on the way to the new path |
| InsertLaws.InsertBlockedByLeaf | api/commands/i18n.py:64-65 | a non-dict value on the way to the path makes the placement fail |
| InsertLaws.InsertSucceeds | api/commands/i18n.py:61-69 | placement succeeds into a dict when the slot is free and everything on the way is absent or a dict |
| InsertLaws.InsertAllAppend | api/commands/i18n.py:60-70 | placing `a + b` is placing `a`, then placing `b` into the result |
| InsertLaws.InsertAllKeeps | api/commands/i18n.py:60-70 | a successful run keeps every path present at the start; values not on the way to any entry are unchanged |
| InsertLaws.InsertAllPlaces | api/commands/i18n.py:60-70 | after a successful run, each entry whose path no later entry extends is found at its path with its value |
| InsertLaws.InsertAllBlocked | api/commands/i18n.py:66-68 | an entry whose path lands on an occupied path, or on the way to one, makes the whole run raise |
| InsertLaws.InsertAllStuck | api/commands/i18n.py:64-68 | an entry that must walk through an existing non-dict value makes the run raise |
| InsertLaws.LastPlaced | api/commands/i18n.py:69 | after a successful run, the last entry is at its path |
| InsertLaws.RepeatedSlotRaises | api/commands/i18n.py:66-68 | a later entry whose path is a prefix of an earlier one's (the same id included) raises |
| InsertLaws.ExtendingLeafRaises | api/commands/i18n.py:64-68 | a later entry under an earlier non-dict entry raises |
| InsertLaws.UnrelatedSucceed | api/commands/i18n.py:60-70 | pairwise-unrelated paths succeed whenever the start tree has room for each |
| InsertLaws.ScalarEntriesSucceedIff | api/commands/i18n.py:60-70 | with non-dict values, `list_to_tree` succeeds exactly when no path is a prefix of another |
| InsertLaws.UnrelatedPlaced | api/commands/i18n.py:60-70 | pairwise-unrelated entries all succeed, and every value is found at its path |
| InsertLaws.LeafAbsorbsLongerPath | api/commands/i18n.py:64-69 | a dict leaf at `a` followed by `a.b` gives no error: `b` is written inside the earlier leaf |
| FlattenLaws.FlattenOkIff | api/commands/i18n.py:41-46 | flattening succeeds exactly when every non-leaf reached is a dict |
| FlattenLaws.ShiftNode | api/commands/i18n.py:41-46 | flattening under `p + s` is flattening under `s` with `p` put in front of every path |
| FlattenLaws.FlattenSound | api/commands/i18n.py:35-48 | for distinct-key trees, each entry names a leaf of the tree, and the tree holds the entry's value there |
| FlattenLaws.FlattenComplete | api/commands/i18n.py:35-48 | for distinct-key trees, every leaf of the tree has an entry with its path |
| FlattenLaws.FlattenDistinct | api/commands/i18n.py:35-48 | for distinct-key trees, no two entries share a path |
| RoundTrip.TreeRoundTrip | api/commands/i18n.py:35-70 | for trees with distinct keys and no empty inner dicts, rebuilding from the flattened entries gives the tree back |
| RoundTrip.ParseDotted | api/commands/i18n.py:61 | splitting ids made by joining dot-free key paths (line 111) gives the paths back |
| RoundTrip.DottedParse | api/commands/i18n.py:61 | joining the pieces `split('.')` produces gives every id back, including ids with empty pieces |
| RoundTrip.DottedRoundTrip | api/commands/i18n.py:35-70 | if also no key holds a dot, joining each path with dots and running `list_to_tree` gives the tree back |
| I18nCommands.CommandLocaleStricter | api/commands/i18n.py:11-15 | every code `validate_locale` accepts passes the table schema; `en-us` passes the schema but not the command |
| I18nCommands.SchemaIgnoresCase | api/src/i18n/models.py:23-29 | for ASCII codes, the schema accepts a code exactly when `validate_locale` accepts it with the language part lowercased and the region part uppercased; a code `validate_locale` accepts is already in that form |
| I18nCommands.LoadFrame | api/commands/i18n.py:110-136 | loading keeps the locales, every existing key and its description, and every existing value; new keys get an empty description; values of other locales are untouched |
| I18nCommands.LoadCovers | api/commands/i18n.py:110-136 | after a successful load, every entry's key and its value for the locale exist |
| I18nCommands.LoadKeepsConsistent | api/commands/i18n.py:110-136 | each value refers to an existing key and locale before the load, and so after it |
| I18nCommands.LoadNoOverrideKeeps | api/commands/i18n.py:120-136 | without override, every existing value is kept as it was, and the count is the number of values added |
| I18nCommands.LoadOverrideCounts | api/commands/i18n.py:122-136 | with override, a successful load counts every entry |
| I18nCommands.LoadOverrideOkIff | api/commands/i18n.py:122-134 | with override, the load succeeds exactly when every leaf carries `verified` |
| I18nCommands.LoadSucceeds | api/commands/i18n.py:110-136 | when every leaf carries `verified`, the loop succeeds whatever the override |
| I18nCommands.LoadUntouched | api/commands/i18n.py:110-136 | a value that no entry writes keeps its presence and contents |
| I18nCommands.LoadOverrideLastWins | api/commands/i18n.py:122-125 | with override, the last entry for an id decides the stored gloss and `verified` |
| I18nCommands.LoadCommandOutcome | api/commands/i18n.py:86-137 | a failed load leaves keys and values alone; a successful one had a valid locale, created it if missing, and stored every leaf; consistency is kept either way |
| I18nCommands.TranslationDb.Load | api/commands/i18n.py:86-137 | the command returns and leaves exactly what `LoadCommand` describes, rolling back uncommitted rows on error |
| I18nCommands.KeysOfLocale | api/commands/i18n.py:156-157 | the key ids with a value in the given locale, no more and no fewer |
| I18nCommands.TranslationDb.ValueRows | api/commands/i18n.py:156-165 | one row per value of the locale, in some query order, each holding `{gloss, verified}` |
| I18nCommands.RowsApart | api/commands/i18n.py:158-166 | rows naming each key once have pairwise-unrelated paths exactly when the key set does |
| I18nCommands.RowsPlaced | api/commands/i18n.py:158-166 | rows over a key set with unrelated paths rebuild into a tree that holds every row's value at its path |
| I18nCommands.TranslationDb.Dump | api/commands/i18n.py:151-171 | an invalid locale is refused; the tree is `list_to_tree` of the rows; it succeeds and holds every value when no key id lies on the way to another; a row whose path is a prefix of an earlier row's path raises (in the other order the longer id is written into the shorter id's leaf, as `InsertLaws.LeafAbsorbsLongerPath` shows) |
| I18nCommands.LoadDescCounts | api/commands/i18n.py:185-208 | entries plus skips equal the number of leaves, and override never skips |
| I18nCommands.LoadDescFrame | api/commands/i18n.py:190-208 | no key is lost, every leaf's key exists afterwards, and without override a non-empty description is kept |
| I18nCommands.LoadDescUntouched | api/commands/i18n.py:190-208 | a key no leaf names keeps its presence and description |
| I18nCommands.LoadDescLastWins | api/commands/i18n.py:205-206 | with override, the last leaf for a key decides its description |
| I18nCommands.TranslationDb.LoadDescriptions | api/commands/i18n.py:183-209 | the command returns the entry and skip counts, and leaves exactly the keys that `LoadDescCommand` describes |
| I18nCommands.TranslationDb.DumpEmptyAddsBlank | api/commands/i18n.py:234-237 | with `--dump-empty` every key is dumped; without it, exactly the keys with an empty description are left out |
| I18nCommands.TranslationDb.DescRows | api/commands/i18n.py:237-243 | one row per dumped key, holding the description or, when it is empty, the placeholder |
| I18nCommands.ScalarRowsIff | api/commands/i18n.py:233-245 | rows of distinct key ids, each carrying a plain description, build a tree exactly when no key id lies on the way to another |
| I18nCommands.TranslationDb.DumpDescriptions | api/commands/i18n.py:233-245 | the dump succeeds exactly when no dumped key id lies on the way to another, and then holds every dumped key's description at its path |
| I18nStore.KeyIdValidIff | api/src/i18n/models.py:49-52 | a key id passes `[a-z]+[a-z.]*[a-z]` (ignoring case) exactly when it has two or more characters, starts and ends with a letter, and holds only letters and dots |
| I18nStore.CreateErrors | api/src/i18n/models.py:96-125 | an existing value is reported first, then a missing locale; creation succeeds exactly when neither holds and the key exists or a description is given |
| I18nStore.CreateAddsOne | api/src/i18n/models.py:111-122 | a creation adds exactly one value with the gloss, keeps the rest, adds the key with its description when missing, and keeps the tables consistent |
| I18nStore.UpdateChangesOne | api/src/i18n/models.py:136-144 | an update succeeds exactly for an existing value, and changes only that gloss |
| I18nStore.UpdateTwice | api/src/i18n/models.py:136-144 | updating twice is updating once with the second gloss |
| I18nStore.DeleteRemovesOne | api/src/i18n/models.py:147-155 | a delete succeeds exactly for an existing value, removes only that value, and keeps keys and locales |
| I18nStore.CreateThenDelete | api/src/i18n/models.py:96-155 | deleting what was just created restores the value table |
| I18nStore.I18nTables.I18nCreate | api/src/i18n/models.py:96-125 | on success the tables become `Create`'s result; on error nothing changes (rollback) and the error is returned |
| I18nStore.I18nTables.I18nUpdate | api/src/i18n/models.py:136-144 | on success the tables become `Update`'s result; a missing value is reported and nothing changes |
| I18nStore.I18nTables.I18nDelete | api/src/i18n/models.py:147-155 | on success the tables become `Delete`'s result; a missing value is reported and nothing changes |
| Events.ApplySetsExactly | api/src/events/api.py:21-22 | after the `setattr` loop, every key of the update dict holds its new value, and every other attribute is as before |
| Events.ApplyKeepsShape | api/src/events/api.py:111-120 | a schema-typed update keeps an event's start, end and flag typed |
| Events.Deactivate | api/src/events/api.py:131 | the row with `active` false and every other attribute unchanged |
| Events.SoftDeleteIsUpdate | api/src/events/api.py:123-135 | a soft delete is the update `{active: False}`; repeating it changes nothing more; the event is then inactive |
| Events.OverlapsSymmetric | api/src/events/api.py:159-160 | the overlap test gives the same answer with the two intervals swapped |
| Events.OverlapsIff | api/src/events/api.py:159-160 | for intervals with start before end, the test holds exactly when each starts before the other ends |
| Events.BackToBack | api/src/events/api.py:159-160 | an interval ending exactly when the other starts does not conflict, in either order |
| Events.SelfOverlap | api/src/events/api.py:159-160 | an event conflicts with itself exactly when it lasts some time |
| Events.FindOverlap | api/src/events/api.py:156-162 | the loop with `break` reports an overlap exactly when some holder overlaps the event |
| Events.RebookRejected | api/src/events/api.py:146-165 | re-booking a resource onto an event that already holds it conflicts whenever the event lasts some time |
| Events.ZeroLengthRebook | api/src/events/api.py:146-171 | a zero-length event that is the resource's only holder passes the check again |
| Events.ClashesIff | api/src/events/api.py:158-164 | when all events have start before end, a booking is refused exactly when a holder starts before the event ends and ends after it starts |
| Events.RunQueryIff | api/src/events/api.py:50-84 | an event passes a stack of filters exactly when it passes each of them |
| Events.SelectEventsIff | api/src/events/api.py:55-70 | `inactive` returns inactive events only; `all` or `both` drop the flag filter; anything else, or nothing, returns active events only; the start bound (`start >= s`) and end bound (`end <= e`) are both inclusive |
| Events.GroupQueryIff | api/src/events/api.py:55-60 | the group filter admits an event exactly when: for `inactive`, the event is inactive; for `all` or `both`, always; for anything else or nothing, the event is active |
| Events.ReplaySummary | api/src/events/api.py:483-498 | visiting every membership once, in any order, yields an overview with one entry per member, the flag of the first team listed, and each of its teams exactly once |
| Events.RecordStep | api/src/events/api.py:490-496 | one visited membership keeps the overview summarising exactly the memberships visited so far |
| Events.RecordTeam | api/src/events/api.py:490-496 | visiting all members of one team adds exactly that team's memberships to the summary |
| Events.EventsDb.ReadAllTeamMembers | api/src/events/api.py:483-498 | one entry per person on any team; its flag comes from the membership of the first team in its list; its list holds each of its teams exactly once |
| Events.EventsDb.ModifyEntity | api/src/events/api.py:15-26 | an unknown id is 404 with nothing changed; otherwise the row becomes the update applied to it, and nothing else changes |
| Events.EventsDb.SoftDelete | api/src/events/api.py:123-135 | an unknown id is 404 with nothing changed; otherwise only the row's `active` becomes false (also `delete_asset` at 408-420 and `delete_team` at 523-535) |
| Events.EventsDb.DeleteTeamMember | api/src/events/api.py:588-600 | an unknown membership is 404; otherwise only its flag becomes false |
| Events.EventsDb.AddAsset | api/src/events/api.py:142-171 | 404 with no change without the event; 422 with no change on an overlap with any holder; otherwise exactly one `(event, asset)` booking is added |
| Events.EventsDb.AddTeam | api/src/events/api.py:194-223 | the same rule for teams: 404, 422 on overlap, or exactly one `(event, team)` booking added |
| Events.EventsDb.AddPerson | api/src/events/api.py:248-282 | an invalid payload is 422 before anything else; then 404, 422 on overlap, or one booking carrying the payload's description |
| Events.EventsDb.AddTeamMember | api/src/events/api.py:567-586 | a missing team, then a missing person, is 404; a membership is added (active) only when none exists, and an existing one is left as it is, even an inactive one |

## Left out

- File and console I/O is not modelled: `click` options and echo, `json.load`, `json.dump` with `sort_keys`, `create_dir` and `default_target`. The commands take the parsed document and return the tree they would write.
- JSON numbers are integers here; floating point is not modelled. The codec only tests whether a value is a dict or a string, so no contract depends on numbers.
- Nested dicts are values here. The Python aliasing between `t` and the tree inside `list_to_tree` is modelled by rebuilding the path, which gives the same final tree.
- The database's constraints are not checked:
  - the unique description column of the key table;
  - the unique description column of the locale table. `load` creates a missing locale with the empty description and commits it, so in the program a second auto-created locale fails at that commit. `I18nCommands.LoadCommand` and `TranslationDb.Load` always create it, and the load goes on;
  - the composite primary keys of the link tables. Booking a zero-length event twice succeeds here (`Events.ZeroLengthRebook`) where the insert would fail at commit.
- The session is modelled only as the rollback of a failed `load` and of a failed `i18n_create`.
- `i18n_read` is not modelled. It returns a query object, and its `None` check can never fire.
- `verified`: the ORM value table has no column for it. `I18nStore` leaves it out; `I18nCommands` keeps it as the commands write it.
- Filters of `read_all_events` that are not modelled:
  - the `title` filter (SQL `LIKE`);
  - the `location` filter, which does nothing;
  - `datetime.strptime` parsing. A date bound arrives as an integer, and `None` stands for a missing or empty argument.
- Aggregates (`event_count`) and the routes outside the named core are not part of this model: create, read one, the other list routes, `remove_*`, `modify_team_member`, `modify_event_person`.
- `api/src/events/models.py` and `api/src/people/models.py` are not part of this model:
  - A new membership is taken to start active, which is the column default the routes rely on.
  - Persons are ids only.
  - The overview holds person and team ids, not their serialised rows.
- Events.EventsDb.ModifyEntity: requires the update to be typed as the marshmallow schema types it, because the schema load happens before the call.
- Events.EventsDb.ReadAllTeamMembers: does not state that each member's team list follows the order of the team query. It states the list's contents and which membership's flag is reported.
- The arbitrary row order of queries is modelled by `QueryOrder.Enumerate`. Results that depend on it are stated for every order; the dumped JSON's key order (`sort_keys`) is not modelled.
- Authentication (`jwt_required`) and HTTP response bodies are not modelled. Only the status outcome (`Success`, `NotFound`, `Unprocessable`) is.
