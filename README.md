# hanziapp backend store, modelled in Dafny

hanziapp keeps a personal list of Chinese characters (pinyin, meaning,
level, tags, notes, example sentences) in one SQLite database, `hanzi.db`.
This project models the part of the backend that fills, dumps and reads
that database:

- the database as a `Database.Store` object holding the `characters`
  table (rows in rowid order, each an AUTOINCREMENT `id` and seven text
  columns, `character` UNIQUE), its AUTOINCREMENT counter, the `tags`
  registry as a set, `settings` as a map, and the `batches` and `groups`
  tables;
- the statements the scripts issue: `INSERT OR REPLACE` keyed on
  `character` (the old row is deleted and a new row with a fresh id is
  appended), `INSERT OR IGNORE` into `tags` and `settings`, and
  `DROP`/`CREATE TABLE`;
- `backend/import_legacy_json.py`: `extract_examples`, the reading loop
  over the legacy lines, the stable sort by `$oid`, and the upsert/tag loop;
- `backend/import_data.py`: the per-record default/join/upsert loop;
- `backend/init_db.py`: the table reset, the upsert loop (with the
  `KeyError` for an item without `character`) and the settings seed;
- `backend/export_data.py`: the row-to-item loop with the tag splitting;
- `backend/app.py`: `query_db`, `list_characters` and `get_character`
  as reads over the `characters` table, the 404 as a returned value.

Module layout: `Common` (Option, Filter), `Text` (Python's `strip`, `in`,
`find`, `split`, `join` and string order), `TagEncoding` (the comma-joined
storage form of a tag list), `Records` (a parsed JSON record and its
`.get` defaults), `Tables` (rows and the `characters` statements as pure
functions, with their laws), `Database` (the `Store` class), then one
module per script: `LegacyImport`, `ImportData`, `InitDb`, `ExportData`,
`App`.

The scripts' loops are methods whose `ensures` tie the new store to pure
functions of the old one (`Tables.ReplaceAll`, `LegacyImport.TagsOf`).
The lemmas then prove what the scripts promise about those functions.
`Tables.Content` (character to columns) and `Tables.Applied` (a reference
definition of a run of upserts on that map) are the abstraction used for
last-write-wins, untouched rows and idempotence. `Tables.WellFormed`
(rowids increasing and `character` unique) is the invariant every store
operation keeps.

Points where the scripts behave otherwise than one might expect; the
model does what the code does:
- `import_data.py` never writes the `tags` table. `init_db.py` neither
  drops nor writes it. Only the legacy import registers tags.
- Importing a duplicate `character` replaces the row (INSERT OR REPLACE)
  and gives it a new id. It does not fail with a uniqueness error.
- The export emits only the characters, without ids. It does not emit
  batches, groups, tags or settings.
- Tags are joined and split on `,` with no trimming of whitespace.
- `extract_examples` strips the notes as well as the examples.
- The legacy import ignores a record's own `examples` member: the stored
  examples come from `extract_examples`.

`strip` uses the ASCII characters Python's `str.isspace` accepts (tab,
line feed, vertical tab, form feed, carriage return, 0x1C to 0x1F, space).
String order is code-point order, as Python compares `str`.

## Model

| member | source | states |
|---|---|---|
| `Text.Strip` | backend/import_legacy_json.py:12-13 | the result of `str.strip()` has no leading or trailing whitespace; it is empty exactly when the input is all whitespace; it is the input when there is nothing to strip; `Text.StripWindow` places it in the input |
| `Text.StripWindow` | backend/import_legacy_json.py:12-13 | the result of `str.strip()` is a contiguous part of the input with only whitespace before and after it |
| `Text.TrimBoth` | backend/import_legacy_json.py:12-13 | stripping the leading and then the trailing whitespace leaves the part between the two runs of whitespace, with none at either end |
| `Text.FindFrom` | backend/import_legacy_json.py:10-11 | the index found is an occurrence of the pattern at or after `k`, with no earlier one at or after `k`; `None` means the pattern occurs nowhere at or after `k` |
| `Text.FindFirst` | backend/import_legacy_json.py:10-11 | `s.find(m)` is an occurrence of `m` with none before it, and `-1` (here `None`) exactly when `m` occurs nowhere |
| `Text.FindFirstAt` | backend/import_legacy_json.py:10-11 | the first occurrence of the pattern is the one `find`/`split(m, 1)` uses |
| `Text.Split` | backend/export_data.py:30 | `s.split(',')` yields at least one piece, no piece holds the separator, and joining the pieces gives `s` back |
| `Text.SplitNone` | backend/export_data.py:30 | a string without the separator splits into itself alone |
| `Text.SplitAfter` | backend/export_data.py:30 | splitting `a + sep + b`, with no separator in `a`, gives `a` followed by the pieces of `b` |
| `Text.Join` | backend/import_data.py:37 | `sep.join(ts)` holds the separator exactly when there are two or more pieces, provided no piece holds it; `Text.SplitJoin` proves `split` undoes it for a non-empty list (`[]` joins to `''`, which splits to `['']`) |
| `Text.SplitJoin` | backend/import_data.py:37 | splitting `','.join(ps)` gives `ps` back for a non-empty list in which no piece holds a comma; `[]` comes back as `['']`, which the exporter's empty-piece filter turns back into `[]` (`TagEncoding.DecodeEncode`) |
| `Text.StrLe` | backend/import_legacy_json.py:58 | Python's `<=` on strings, by code point; it agrees with Dafny's prefix order (a prefix is never greater) |
| `Text.StrLeAntisymmetric` | backend/import_legacy_json.py:58 | two oids each at most the other are equal, so the order is a total order with `Text.StrLeTotal` and `Text.StrLeTransitive` |
| `Text.StrLeTotal` | backend/import_legacy_json.py:58 | any two oid strings are comparable |
| `Text.StrLeTransitive` | backend/import_legacy_json.py:58 | the oid order is transitive |
| `TagEncoding.EncodeTags` | backend/import_data.py:37 | for clean tags, the stored `','.join(ts)` is `''` exactly when the list is empty and holds a comma exactly when there are two or more tags; `TagEncoding.DecodeEncode` proves the export undoes it |
| `TagEncoding.DecodeTags` | backend/export_data.py:30 | every exported tag is non-empty and comma-free; the tags are exactly the non-empty comma pieces of the stored string; a NULL value gives `[]` |
| `TagEncoding.DecodeOne` | backend/export_data.py:30 | a stored string without a comma exports as no tag when empty and as itself alone otherwise |
| `TagEncoding.DecodeConcat` | backend/export_data.py:30 | the tags of `a + ',' + b` are those of `a` followed by those of `b`, order and repeats kept; with `DecodeOne` this fixes the exported list completely |
| `TagEncoding.DecodeEncode` | backend/export_data.py:30 | splitting the stored `','.join(ts)` as the exporter does gives `ts` back when no tag is empty or holds a comma; an empty list round-trips through `''` |
| `TagEncoding.EncodeDecode` | backend/export_data.py:30 | a stored tags string with no empty piece is re-joined unchanged after export and import |
| `Records.Get` | backend/import_data.py:33-39 | `rec.get(key, '')` is the member's value, or `''` when the member is missing |
| `Records.TagList` | backend/import_data.py:37 | `rec.get('tags', [])` is the record's own list when it has one and `[]` when it has none |
| `Records.Oid` | backend/import_legacy_json.py:55 | the oid is `_id.$oid`, and `''` when `_id` or `$oid` is missing |
| `Tables.Replace` | backend/import_data.py:41-45 | INSERT OR REPLACE leaves a non-empty table with at most one row more; `Tables.ReplaceSingle`, `Tables.ReplaceWellFormed` and `Tables.ContentReplace` state what it holds |
| `Tables.ReplaceAll` | backend/import_legacy_json.py:60-73 | a run of n upserts adds at most n rows; `Tables.ReplaceAllWellFormed`, `Tables.ContentReplaceAll`, `Tables.ReplaceAllLastWins`, `Tables.ReplaceAllKeepsUntouched` and `Tables.ReplaceAllOrigin` state what it holds |
| `Tables.ReplaceWellFormed` | backend/import_data.py:41-45 | INSERT OR REPLACE keeps `character` unique and the rowids increasing, and uses up one id |
| `Tables.ReplaceAllWellFormed` | backend/import_legacy_json.py:60-73 | a run of upserts keeps the table well-formed and uses one id per upsert |
| `Tables.ReplaceSingle` | backend/import_data.py:41-45 | after an upsert the new last row holds the upserted columns under the fresh id, and no other row holds that character |
| `Tables.WithoutMembers` | backend/init_db.py:23 | the replace deletes exactly the rows with the upserted character |
| `Tables.ReplaceAllKeepsUntouched` | backend/import_data.py:32-45 | a row whose character no upsert carries survives the run, id included |
| `Tables.ReplaceAllOrigin` | backend/init_db.py:21-24 | every row after a run of upserts was there before or holds the columns of one of the upserts |
| `Tables.ContentReplace` | backend/import_data.py:41-45 | an upsert overwrites exactly its character's entry in the character-to-columns content |
| `Tables.ContentReplaceAll` | backend/import_data.py:32-45 | the content after a run of upserts is the reference definition `Applied` of the old content, whatever ids are handed out |
| `Tables.ContentOfWellFormed` | backend/init_db.py:15 | in a table with `character` unique, each row is its character's entry and there are as many rows as distinct characters |
| `Tables.AppliedKeys` | backend/import_data.py:32-45 | after the upserts the characters present are the old ones and every upserted one |
| `Tables.AppliedLastWins` | backend/import_data.py:32-45 | a character's entry is the last upsert carrying it |
| `Tables.AppliedUntouched` | backend/import_data.py:32-45 | a character no upsert carries keeps its entry, or stays absent |
| `Tables.AppliedRelated` | backend/export_data.py:20-34 | two runs of upserts with the same characters, whose columns are related pairwise, give contents with the same keys and related entries |
| `Tables.ContentRows` | backend/init_db.py:15 | in a well-formed table, a character in the content has a row, and every row holding it holds its entry |
| `Tables.AppliedIdempotent` | backend/import_data.py:41-45 | applying the same upserts twice gives what applying them once gives |
| `Tables.ReplaceAllLastWins` | backend/import_data.py:32-45 | after the upserts the character of the last upsert carrying it has a row, and every row with it holds that upsert's columns |
| `Database.Store.constructor` | backend/import_legacy_json.py:16-32 | a database whose tables all exist and are empty, and that is also its committed state |
| `Database.Store.InsertOrReplace` | backend/import_data.py:41-45 | `characters` becomes the old table with that character's row deleted and a fresh-id row appended; nothing else changes |
| `Database.Store.InsertTag` | backend/import_legacy_json.py:75 | the registry gains the name and loses nothing; a present name leaves it unchanged |
| `Database.Store.InsertSettingIfAbsent` | backend/init_db.py:26 | a missing key gets the value; a present key keeps its value |
| `Database.Store.RecreateTables` | backend/init_db.py:9-18 | `characters`, `settings`, `batches` and `groups` are empty and the id counter restarts; the empty `characters` is committed at once; `tags` is untouched |
| `Database.Store.Commit` | backend/init_db.py:27 | the live `characters` table and its counter become the committed state; no table changes |
| `Database.Store.Rollback` | backend/init_db.py:21-24 | the inserts made since the last commit are discarded: `characters` and its counter return to the committed state; the other tables are unchanged |
| `LegacyImport.ContainsMarker` | backend/import_legacy_json.py:10 | `'Ejemplos:' in text` holds exactly when `find` locates the marker |
| `LegacyImport.ExtractExamples` | backend/import_legacy_json.py:8-13 | both results have no outer whitespace; without the marker the result is `(strip(text), '')` |
| `LegacyImport.ExtractExamplesAtFirst` | backend/import_legacy_json.py:10-12 | with the marker, the split is at its first occurrence: notes are the stripped marker-free prefix, examples the stripped rest after the marker |
| `LegacyImport.ExtractExamplesSplit` | backend/import_legacy_json.py:10-12 | for `before + 'Ejemplos:' + after` with no marker in `before`, the result is `(strip(before), strip(after))` |
| `LegacyImport.CollectRecords` | backend/import_legacy_json.py:48-56 | blank lines are skipped; each other line yields exactly one record, in order, parsed from the stripped line, with its oid |
| `LegacyImport.InsertByOid` | backend/import_legacy_json.py:58 | inserting an entry adds exactly that entry |
| `LegacyImport.SortByOid` | backend/import_legacy_json.py:58 | the sorted records are a permutation of the input |
| `LegacyImport.SortByOidSorted` | backend/import_legacy_json.py:58 | the sorted records are in ascending oid order |
| `LegacyImport.SortByOidStable` | backend/import_legacy_json.py:58 | records with equal oids keep their input order |
| `LegacyImport.LegacyFields` | backend/import_legacy_json.py:61-66 | the stored columns: missing members default to `''`, tags are `','.join` of the list, notes and examples come from `extract_examples(other)` |
| `LegacyImport.TagSetMembers` | backend/import_legacy_json.py:74-75 | the tag loop registers exactly the names on the record's list |
| `LegacyImport.RegisterTags` | backend/import_legacy_json.py:74-75 | the registry becomes the old one united with the record's tags; the other tables are unchanged |
| `LegacyImport.UpsertRecord` | backend/import_legacy_json.py:60-75 | one record's row is upserted under the next id and the names on its tag list are registered; settings, batches, groups and the committed snapshot are unchanged |
| `LegacyImport.UpsertNext` | backend/import_legacy_json.py:60-75 | one turn of the loop extends the run of upserts and the registered tags by the next record's `LegacyFields` and tag list; the committed snapshot is unchanged |
| `LegacyImport.UpsertAll` | backend/import_legacy_json.py:60-75 | the table after the loop is the run of upserts in sorted order; the registry is the old one united with every record's tags; settings, batches, groups and the committed snapshot are unchanged until the final commit |
| `LegacyImport.ImportLegacy` | backend/import_legacy_json.py:46-77 | collect, sort by oid, then upsert and register tags, and commit; settings, batches and groups are unchanged |
| `LegacyImport.TagsOfMembers` | backend/import_legacy_json.py:74-75 | a name is added exactly when some record carries it |
| `LegacyImport.ImportedTags` | backend/import_legacy_json.py:58-75 | the names added do not depend on the sort: they are every tag of every record read |
| `LegacyImport.LegacyLastWins` | backend/import_legacy_json.py:58-73 | each character ends with one row, holding the columns of the last record carrying it in oid order |
| `LegacyImport.LegacyKeepsUntouched` | backend/import_legacy_json.py:68-73 | rows whose character no record carries are left unchanged |
| `ImportData.ImportFields` | backend/import_data.py:33-39 | missing members default to `''`; tags are `','.join` of the list, `''` for none, and read back as the list when its tags are clean |
| `ImportData.Import` | backend/import_data.py:32-48 | the table after the loop is the run of upserts in input order, and it is committed; `tags`, `settings`, `batches` and `groups` are untouched |
| `ImportData.ImportNext` | backend/import_data.py:32-45 | one turn of the loop extends the run of upserts by the next record's columns; no other table and not the committed snapshot changes |
| `ImportData.CharsOfRecords` | backend/import_data.py:33 | the upserted characters are the records' `character` members, `''` for a missing one |
| `ImportData.ImportLastWins` | backend/import_data.py:32-45 | when the input repeats a character, its one row holds the last occurrence |
| `ImportData.ImportKeepsUntouched` | backend/import_data.py:32-45 | rows whose character is not in the input keep their columns and id |
| `ImportData.ImportIdempotent` | backend/import_data.py:41-45 | importing the same records twice gives the same character-to-columns content as once; only ids change |
| `InitDb.InitFields` | backend/init_db.py:22-24 | `character` is required; every other column defaults to `''`; tags are `','.join` of the list |
| `InitDb.Run` | backend/init_db.py:9-27 | batches and groups end empty and `tags` is untouched; without a missing `character`, the table is the run of upserts, committed, and settings is `{'last_reviewed_character': ''}`; otherwise the run stops at the first bad item, the uncommitted inserts are rolled back and the tables are the empty ones the DDL committed |
| `InitDb.InsertItems` | backend/init_db.py:21-24 | the loop upserts the items in order up to the first one without `character`, which it reports; nothing is committed and no other table changes |
| `InitDb.InitNext` | backend/init_db.py:21-24 | one item with `character` extends the rows of the items before it by one upsert |
| `InitDb.InitStep` | backend/init_db.py:21-24 | each item's insert extends the rows of the items before it |
| `InitDb.InitRows` | backend/init_db.py:21-24 | after a successful run there is one row per distinct input character, holding the last item carrying it |
| `InitDb.InitRowsFromInput` | backend/init_db.py:21-24 | every row after a successful run carries the character of some input item |
| `ExportData.ToItem` | backend/export_data.py:25-33 | six columns copied verbatim, no id, tags are the stored string decoded by `DecodeTags` (clean tags, NULL gives `[]`) |
| `ExportData.Export` | backend/export_data.py:20-34 | one item per row, in row order; the store is not modified |
| `ExportData.ExportImportRow` | backend/export_data.py:25-33 | an exported row re-imported by `import_data.py` gives back its columns when its tags string is canonical |
| `ExportData.ExportImportAnyRow` | backend/export_data.py:25-33 | any row re-imported after export keeps its six other columns and its tag list, and exports to the same item again |
| `ExportData.ExportImportAnyTable` | backend/export_data.py:20-34 | for any table, export then import into an empty table gives the same characters, each exporting to the same item as before |
| `ExportData.ExportImportRoundTrip` | backend/export_data.py:20-34 | when every stored tags value is non-NULL and canonical (no empty comma piece), export then import into an empty table reproduces the character-to-columns content exactly |
| `App.QueryDb` | backend/app.py:26-30 | `one=False` gives every matching row in table order; `one=True` gives the first matching row, or `None` when none matches |
| `App.ListCharacters` | backend/app.py:33-36 | every row of the table, in order, with status 200 |
| `App.GetCharacter` | backend/app.py:39-44 | the first row holding the character with status 200, or status 404 with `{'error': 'not found'}` exactly when no row holds it |
| `App.GetCharacterOnlyMatch` | backend/app.py:39-43 | with `character` unique, the row found is the only row holding it |
| `App.GetCharacterOrderIndependent` | backend/app.py:41 | with `character` unique, the response does not depend on the order of the rows |

## Left out

- SQLite itself: connections, cursors, close and the DDL text. Tables are abstract values in the `Store`. Only `characters` keeps a committed state: the scripts' other writes are never undone before a commit.
- `ensure_tables` (`CREATE TABLE IF NOT EXISTS`) is modelled as "the tables exist and keep their data". The legacy import starts from a store whose tables exist.
- File I/O and JSON parsing and serialisation. Records arrive already parsed. `json.loads` of a legacy line is a function parameter. The export result is a returned sequence.
- `sys.argv` handling, usage messages, `sys.exit` and `print`.
- Flask routing, `jsonify`, CORS and the per-request connection in `get_db`/`close_connection`. The 404 is a returned response value.
- Python's full Unicode whitespace for `strip`. Only the ASCII whitespace characters are modelled.
- JSON members of the wrong type (a non-string `character`, a non-list `tags`). Records carry string members and a string list.
- `LegacyImport.SortByOid`: Python's list sort is written as an insertion sort over a sequence. Only its result is modelled: a stable, sorted permutation. The in-place update of the list is not.
- Batches and groups are only ever created empty by these scripts. No operation on them is modelled.
- Row ids are unbounded: SQLite's 64-bit rowid limit is not modelled.
