/** The SQLite database the scripts share (`hanzi.db`), as an object whose
    tables the scripts' statements update in place. */
module Database {
  import opened Common
  import opened Tables

  class Store {
    /** `characters`, in rowid order. */
    var characters: seq<Row>
    /** The AUTOINCREMENT counter of `characters`: the id the next insert gets. */
    var nextId: nat
    /** `tags (name TEXT PRIMARY KEY)`: the tag registry. */
    var tags: set<string>
    /** `settings (key TEXT PRIMARY KEY, value TEXT)`. */
    var settings: map<string, string>
    /** `batches` and `groups`: only ever created empty by the scripts modelled. */
    var batches: seq<Collection>
    var groups: seq<Collection>
    /** `characters` and its counter as of the last commit: what a rollback,
        or a connection closed with a transaction still open, goes back to. */
    var committed: seq<Row>
    var committedNextId: nat

    /** The UNIQUE constraint on `character` and the rowid order hold, in the
        live table and in its committed state. */
    ghost predicate Valid()
      reads this
    {
      WellFormed(characters, nextId) && WellFormed(committed, committedNextId)
    }

    /** A database whose tables all exist and are empty. */
    constructor ()
      ensures Valid()
      ensures characters == [] && nextId == 1
      ensures tags == {} && settings == map[] && batches == [] && groups == []
      ensures committed == [] && committedNextId == 1
    {
      characters, nextId := [], 1;
      tags, settings := {}, map[];
      batches, groups := [], [];
      committed, committedNextId := [], 1;
    }

    /** `INSERT OR REPLACE INTO characters (...) VALUES (...)`: the row holding
        `f.character`, if any, is deleted and a row with a fresh id is appended.
        No other table changes. */
    method InsertOrReplace(f: Fields)
      requires Valid()
      modifies this
      ensures Valid()
      ensures characters == Replace(old(characters), old(nextId), f)
      ensures nextId == old(nextId) + 1
      ensures tags == old(tags) && settings == old(settings)
      ensures batches == old(batches) && groups == old(groups)
      ensures committed == old(committed) && committedNextId == old(committedNextId)
    {
      ReplaceWellFormed(characters, nextId, f);
      characters := Replace(characters, nextId, f);
      nextId := nextId + 1;
    }

    /** `INSERT OR IGNORE INTO tags (name) VALUES (?)`: the registry only grows,
        and inserting a present name changes nothing. */
    method InsertTag(name: string)
      modifies this
      ensures tags == old(tags) + {name}
      ensures characters == old(characters) && nextId == old(nextId)
      ensures settings == old(settings) && batches == old(batches) && groups == old(groups)
      ensures committed == old(committed) && committedNextId == old(committedNextId)
    {
      tags := tags + {name};
    }

    /** `INSERT OR IGNORE INTO settings (key, value) VALUES (?, ?)`: a present key
        keeps its value. */
    method InsertSettingIfAbsent(key: string, value: string)
      modifies this
      ensures settings == if key in old(settings) then old(settings) else old(settings)[key := value]
      ensures characters == old(characters) && nextId == old(nextId)
      ensures tags == old(tags) && batches == old(batches) && groups == old(groups)
      ensures committed == old(committed) && committedNextId == old(committedNextId)
    {
      if key !in settings {
        settings := settings[key := value];
      }
    }

    /** `DROP TABLE IF EXISTS` and `CREATE TABLE` for `characters`, `settings`,
        `batches` and `groups`. Dropping an AUTOINCREMENT table also forgets
        its counter. `tags` is neither dropped nor written. DDL runs outside
        any transaction, so the empty table is at once the committed one. */
    method RecreateTables()
      modifies this
      ensures Valid()
      ensures characters == [] && nextId == 1
      ensures settings == map[] && batches == [] && groups == []
      ensures tags == old(tags)
      ensures committed == [] && committedNextId == 1
    {
      characters, nextId := [], 1;
      settings := map[];
      batches, groups := [], [];
      committed, committedNextId := [], 1;
    }

    /** `conn.commit()`: the live `characters` table becomes the committed one. */
    method Commit()
      requires Valid()
      modifies this
      ensures Valid()
      ensures committed == characters && committedNextId == nextId
      ensures characters == old(characters) && nextId == old(nextId)
      ensures tags == old(tags) && settings == old(settings)
      ensures batches == old(batches) && groups == old(groups)
    {
      committed, committedNextId := characters, nextId;
    }

    /** The open transaction is discarded, as when the connection goes away
        without a commit: `characters` returns to its committed state. */
    method Rollback()
      requires Valid()
      modifies this
      ensures Valid()
      ensures characters == old(committed) && nextId == old(committedNextId)
      ensures committed == old(committed) && committedNextId == old(committedNextId)
      ensures tags == old(tags) && settings == old(settings)
      ensures batches == old(batches) && groups == old(groups)
    {
      characters, nextId := committed, committedNextId;
    }
  }
}
