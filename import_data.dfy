/** backend/import_data.py: upsert every record of a JSON array of character
    records into `characters`. */
module ImportData {
  import opened Common
  import opened TagEncoding
  import opened Records
  import opened Tables
  import opened Database

  /** The columns written for one record: each text column takes the record's
      member of the same name, `''` when it is missing; `tags` is the
      comma-joined tag list, `''` when there is none, and reads back as that
      list when its tags are clean. */
  function ImportFields(rec: Record): (f: Fields)
    ensures f.character == Get(rec, "character") && f.pinyin == Get(rec, "pinyin")
    ensures f.meaning == Get(rec, "meaning") && f.level == Get(rec, "level")
    ensures f.other == Get(rec, "other") && f.examples == Get(rec, "examples")
    ensures f.tags == Some(EncodeTags(TagList(rec)))
    ensures TagList(rec) == [] ==> f.tags == Some("")
    ensures (forall t | t in TagList(rec) :: IsCleanTag(t)) ==> DecodeTags(f.tags) == TagList(rec)
  {
    var ts := TagList(rec);
    var f := Fields(Get(rec, "character"), Get(rec, "pinyin"), Get(rec, "meaning"), Get(rec, "level"),
                    Some(EncodeTags(ts)), Get(rec, "other"), Get(rec, "examples"));
    assert (forall t | t in ts :: IsCleanTag(t)) ==> DecodeTags(f.tags) == ts by {
      if forall t | t in ts :: IsCleanTag(t) {
        DecodeEncode(ts);
      }
    }
    f
  }

  function FieldsOf(records: seq<Record>): seq<Fields> {
    seq(|records|, i requires 0 <= i < |records| => ImportFields(records[i]))
  }

  /** The script's loop: one INSERT OR REPLACE per record, in input order.
      Only `characters` is written; the tag registry is not. */
  method Import(store: Store, records: seq<Record>)
    requires store.Valid()
    modifies store
    ensures store.Valid()
    ensures store.characters == ReplaceAll(old(store.characters), old(store.nextId), FieldsOf(records))
    ensures store.nextId == old(store.nextId) + |records|
    ensures store.tags == old(store.tags) && store.settings == old(store.settings)
    ensures store.batches == old(store.batches) && store.groups == old(store.groups)
    ensures store.committed == store.characters && store.committedNextId == store.nextId
  {
    ghost var rows0, next0 := store.characters, store.nextId;
    var i := 0;
    while i < |records|
      invariant 0 <= i <= |records|
      invariant store.Valid()
      invariant store.characters == ReplaceAll(rows0, next0, FieldsOf(records)[..i])
      invariant store.nextId == next0 + i
      invariant store.tags == old(store.tags) && store.settings == old(store.settings)
      invariant store.batches == old(store.batches) && store.groups == old(store.groups)
    {
      ImportNext(store, records, i, rows0, next0);
      i := i + 1;
    }
    assert FieldsOf(records)[..i] == FieldsOf(records);
    store.Commit();
  }

  /** One turn of the loop: the record at `i` is upserted after the records
      before it. */
  method ImportNext(store: Store, records: seq<Record>, i: nat, ghost rows0: seq<Row>, ghost next0: nat)
    requires i < |records|
    requires store.Valid()
    requires store.characters == ReplaceAll(rows0, next0, FieldsOf(records)[..i])
    requires store.nextId == next0 + i
    modifies store
    ensures store.Valid()
    ensures store.characters == ReplaceAll(rows0, next0, FieldsOf(records)[..i + 1])
    ensures store.nextId == next0 + i + 1
    ensures store.tags == old(store.tags) && store.settings == old(store.settings)
    ensures store.batches == old(store.batches) && store.groups == old(store.groups)
    ensures store.committed == old(store.committed) && store.committedNextId == old(store.committedNextId)
  {
    var f := ImportFields(records[i]);
    ghost var fs := FieldsOf(records);
    ghost var before := store.characters;
    assert fs[i] == f;
    store.InsertOrReplace(f);
    ReplaceAllExtend(rows0, next0, fs, i, before, store.characters);
  }

  /** The characters the records carry, with `''` for a missing one. */
  lemma CharsOfRecords(records: seq<Record>, c: string)
    ensures c in CharsOf(FieldsOf(records)) <==> exists j :: 0 <= j < |records| && Get(records[j], "character") == c
  {
    var fs := FieldsOf(records);
    if exists j :: 0 <= j < |records| && Get(records[j], "character") == c {
      var j :| 0 <= j < |records| && Get(records[j], "character") == c;
      assert fs[j] in fs;
    }
  }

  /** Last occurrence wins: after the import every row holding a character
      that the records carry holds the columns of the last record carrying it,
      and there is such a row; the table stays well-formed, so it is the only
      one. */
  lemma ImportLastWins(rows: seq<Row>, next: nat, records: seq<Record>, j: nat)
    requires WellFormed(rows, next)
    requires j < |records|
    requires forall k | j < k < |records| :: Get(records[k], "character") != Get(records[j], "character")
    ensures var after := ReplaceAll(rows, next, FieldsOf(records));
      && WellFormed(after, next + |records|)
      && (exists x :: x in after && x.fields.character == Get(records[j], "character"))
      && forall x | x in after && x.fields.character == Get(records[j], "character") :: x.fields == ImportFields(records[j])
  {
    ReplaceAllLastWins(rows, next, FieldsOf(records), j);
  }

  /** Rows whose character no record carries are left as they were, id included. */
  lemma ImportKeepsUntouched(rows: seq<Row>, next: nat, records: seq<Record>, x: Row)
    requires x in rows
    requires forall j | 0 <= j < |records| :: Get(records[j], "character") != x.fields.character
    ensures x in ReplaceAll(rows, next, FieldsOf(records))
  {
    CharsOfRecords(records, x.fields.character);
    ReplaceAllKeepsUntouched(rows, next, FieldsOf(records), x);
  }

  /** Importing the same records twice leaves the same character -> columns
      content as importing them once; only the ids differ. */
  lemma ImportIdempotent(rows: seq<Row>, next: nat, next2: nat, records: seq<Record>)
    ensures var once := ReplaceAll(rows, next, FieldsOf(records));
      Content(ReplaceAll(once, next2, FieldsOf(records))) == Content(once)
  {
    var fs := FieldsOf(records);
    var once := ReplaceAll(rows, next, fs);
    ContentReplaceAll(rows, next, fs);
    ContentReplaceAll(once, next2, fs);
    AppliedIdempotent(Content(rows), fs);
  }
}
