/** backend/init_db.py: drop and recreate every table but `tags`, load the
    records of `data.json`, and seed the `last_reviewed_character` setting. */
module InitDb {
  import opened Common
  import opened TagEncoding
  import opened Records
  import opened Tables
  import opened Database

  const LastReviewedKey: string := "last_reviewed_character"

  /** How the script ends: after the commit, or with the KeyError that
      `item['character']` raises for the item at `index`. */
  datatype Outcome = Initialized | MissingCharacter(index: nat)

  /** `item['character']` does not raise. */
  predicate HasCharacter(item: Record) {
    "character" in item.fields
  }

  /** The columns written for one item: `character` is required, every other
      text column defaults to `''`, `tags` is the comma-joined tag list. */
  function InitFields(item: Record): (f: Fields)
    requires HasCharacter(item)
    ensures f.character == item.fields["character"]
    ensures f.pinyin == Get(item, "pinyin") && f.meaning == Get(item, "meaning")
    ensures f.level == Get(item, "level") && f.other == Get(item, "other")
    ensures f.examples == Get(item, "examples")
    ensures f.tags == Some(EncodeTags(TagList(item)))
  {
    Fields(item.fields["character"], Get(item, "pinyin"), Get(item, "meaning"), Get(item, "level"),
           Some(EncodeTags(TagList(item))), Get(item, "other"), Get(item, "examples"))
  }

  function InitFieldsOf(data: seq<Record>): seq<Fields>
    requires forall i | 0 <= i < |data| :: HasCharacter(data[i])
  {
    seq(|data|, i requires 0 <= i < |data| => InitFields(data[i]))
  }

  /** The whole script. The DROP and CREATE statements take effect at once;
      the inserts run in a transaction that is committed only at the end, so
      an item without `character` leaves the freshly created, empty tables.
      `tags` is never dropped nor written. */
  method Run(store: Store, data: seq<Record>) returns (outcome: Outcome)
    modifies store
    ensures store.Valid()
    ensures store.tags == old(store.tags)
    ensures store.batches == [] && store.groups == []
    ensures outcome.Initialized? <==> forall j | 0 <= j < |data| :: HasCharacter(data[j])
    ensures outcome.MissingCharacter? ==>
      && outcome.index < |data| && !HasCharacter(data[outcome.index])
      && (forall j | 0 <= j < outcome.index :: HasCharacter(data[j]))
      && store.characters == [] && store.nextId == 1 && store.settings == map[]
      && store.committed == [] && store.committedNextId == 1
    ensures outcome.Initialized? ==>
      && store.characters == ReplaceAll([], 1, InitFieldsOf(data))
      && store.nextId == 1 + |data|
      && store.settings == map[LastReviewedKey := ""]
      && store.committed == store.characters && store.committedNextId == store.nextId
  {
    store.RecreateTables();
    var n := InsertItems(store, data);
    if n < |data| {
      store.Rollback();
      return MissingCharacter(n);
    }
    assert data[..n] == data;
    store.InsertSettingIfAbsent(LastReviewedKey, "");
    store.Commit();
    outcome := Initialized;
  }

  /** The `for item in data` loop: one upsert per item, up to the first item
      without `character`, whose `KeyError` ends the loop. `n` is that item's
      index, or `|data|` when there is none. */
  method InsertItems(store: Store, data: seq<Record>) returns (n: nat)
    requires store.Valid() && store.characters == [] && store.nextId == 1
    requires store.committed == [] && store.committedNextId == 1
    modifies store
    ensures n <= |data| && forall j | 0 <= j < n :: HasCharacter(data[j])
    ensures n < |data| ==> !HasCharacter(data[n])
    ensures store.Valid()
    ensures store.characters == InitRowsUpTo(data, n)
    ensures store.committed == [] && store.committedNextId == 1
    ensures store.nextId == 1 + n
    ensures store.tags == old(store.tags) && store.settings == old(store.settings)
    ensures store.batches == old(store.batches) && store.groups == old(store.groups)
  {
    n := 0;
    while n < |data| && HasCharacter(data[n])
      invariant n <= |data| && forall j | 0 <= j < n :: HasCharacter(data[j])
      invariant store.Valid()
      invariant store.characters == InitRowsUpTo(data, n)
      invariant store.committed == [] && store.committedNextId == 1
      invariant store.nextId == 1 + n
      invariant store.tags == old(store.tags) && store.settings == old(store.settings)
      invariant store.batches == old(store.batches) && store.groups == old(store.groups)
    {
      InitNext(store, data, n);
      n := n + 1;
    }
  }

  /** One turn of the loop for an item that has `character`: its insert
      extends the rows of the items before it. */
  method InitNext(store: Store, data: seq<Record>, i: nat)
    requires i < |data| && forall j | 0 <= j <= i :: HasCharacter(data[j])
    requires store.Valid()
    requires store.characters == InitRowsUpTo(data, i)
    requires store.nextId == 1 + i
    modifies store
    ensures store.Valid()
    ensures store.characters == InitRowsUpTo(data, i + 1)
    ensures store.nextId == 2 + i
    ensures store.tags == old(store.tags) && store.settings == old(store.settings)
    ensures store.batches == old(store.batches) && store.groups == old(store.groups)
    ensures store.committed == old(store.committed) && store.committedNextId == old(store.committedNextId)
  {
    InitStep(data, i);
    store.InsertOrReplace(InitFields(data[i]));
  }

  /** The table after the inserts for the first `n` items. */
  function InitRowsUpTo(data: seq<Record>, n: nat): seq<Row>
    requires n <= |data| && forall j | 0 <= j < n :: HasCharacter(data[j])
  {
    ReplaceAll([], 1, InitFieldsOf(data[..n]))
  }

  /** The inserts for one more item extend those for the items before it. */
  lemma InitStep(data: seq<Record>, i: nat)
    requires i < |data|
    requires forall j | 0 <= j <= i :: HasCharacter(data[j])
    ensures ReplaceAll([], 1, InitFieldsOf(data[..i + 1])) ==
            Replace(ReplaceAll([], 1, InitFieldsOf(data[..i])), 1 + i, InitFields(data[i]))
  {
    var fs := InitFieldsOf(data[..i + 1]);
    ReplaceAllStep([], 1, fs, i);
    assert fs[..i] == InitFieldsOf(data[..i]);
    assert fs[..i + 1] == fs;
  }

  /** After a successful run the table holds exactly one row per distinct
      character of the input (so as many rows as distinct characters), and
      that row holds the columns of the last item carrying the character. */
  lemma InitRows(data: seq<Record>, j: nat)
    requires forall i | 0 <= i < |data| :: HasCharacter(data[i])
    requires j < |data|
    requires forall k | j < k < |data| :: InitFieldsOf(data)[k].character != InitFieldsOf(data)[j].character
    ensures var rows := ReplaceAll([], 1, InitFieldsOf(data));
      && WellFormed(rows, 1 + |data|)
      && |rows| == |CharsOf(InitFieldsOf(data))|
      && (exists x :: x in rows && x.fields.character == data[j].fields["character"])
      && forall x | x in rows && x.fields.character == data[j].fields["character"] :: x.fields == InitFields(data[j])
  {
    var fs := InitFieldsOf(data);
    ReplaceAllLastWins([], 1, fs, j);
    var rows := ReplaceAll([], 1, fs);
    ContentReplaceAll([], 1, fs);
    AppliedKeys(map[], fs);
    ContentOfWellFormed(rows, 1 + |data|);
  }

  /** Every row of a successful run carries a character of some input item. */
  lemma InitRowsFromInput(data: seq<Record>, x: Row)
    requires forall i | 0 <= i < |data| :: HasCharacter(data[i])
    requires x in ReplaceAll([], 1, InitFieldsOf(data))
    ensures exists j :: 0 <= j < |data| && data[j].fields["character"] == x.fields.character
  {
    var fs := InitFieldsOf(data);
    ReplaceAllOrigin([], 1, fs, x);
    var j :| 0 <= j < |fs| && fs[j] == x.fields;
    assert data[j].fields["character"] == x.fields.character;
  }
}
