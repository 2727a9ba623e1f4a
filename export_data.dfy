/** backend/export_data.py: dump `characters` as a list of JSON items, tags
    expanded from their comma-joined storage form, without ids. */
module ExportData {
  import opened Common
  import opened TagEncoding
  import opened Records
  import opened Tables
  import opened Database
  import opened ImportData

  /** One exported item: the seven columns, tags as a list, no `id`. */
  datatype Item = Item(
    character: string,
    pinyin: string,
    meaning: string,
    level: string,
    tags: seq<string>,
    other: string,
    examples: string)

  /** The item built for one row: six columns copied verbatim and the tags
      decoded, so that no exported tag is empty or holds a comma. */
  function ToItem(r: Row): (it: Item)
    ensures it.character == r.fields.character && it.pinyin == r.fields.pinyin
    ensures it.meaning == r.fields.meaning && it.level == r.fields.level
    ensures it.other == r.fields.other && it.examples == r.fields.examples
    ensures it.tags == DecodeTags(r.fields.tags)
    ensures forall t | t in it.tags :: IsCleanTag(t)
    ensures r.fields.tags.None? ==> it.tags == []
  {
    Item(r.fields.character, r.fields.pinyin, r.fields.meaning, r.fields.level,
         DecodeTags(r.fields.tags), r.fields.other, r.fields.examples)
  }

  /** The script's loop over `SELECT ... FROM characters`: one item per row, in
      row order. The method has no `modifies` clause: the store is unchanged. */
  method Export(store: Store) returns (data: seq<Item>)
    ensures |data| == |store.characters|
    ensures forall i | 0 <= i < |data| :: data[i] == ToItem(store.characters[i])
  {
    var rows := store.characters;
    data := [];
    var i := 0;
    while i < |rows|
      invariant 0 <= i <= |rows|
      invariant |data| == i
      invariant forall k | 0 <= k < i :: data[k] == ToItem(rows[k])
    {
      var r := rows[i];
      var item := ToItem(r);
      data := data + [item];
      i := i + 1;
    }
  }

  /** An exported item as `json.load` gives it back: every member present. */
  function ItemRecord(it: Item): Record {
    Record(map["character" := it.character, "pinyin" := it.pinyin, "meaning" := it.meaning,
               "level" := it.level, "other" := it.other, "examples" := it.examples],
           Some(it.tags), None)
  }

  /** The exported file read back as import_data.py reads it. */
  function Reimported(data: seq<Item>): seq<Record> {
    seq(|data|, i requires 0 <= i < |data| => ItemRecord(data[i]))
  }

  /** A row whose stored tags have no empty piece are rewritten unchanged by
      exporting it and importing the item. */
  lemma ExportImportRow(r: Row)
    requires r.fields.tags.Some? && IsCanonical(r.fields.tags.value)
    ensures ImportFields(ItemRecord(ToItem(r))) == r.fields
  {
    EncodeDecode(r.fields.tags.value);
  }

  /** `a` and `b` export to the same item: six columns equal and the same
      decoded tag list. */
  predicate SameExport(a: Fields, b: Fields) {
    && a.character == b.character && a.pinyin == b.pinyin && a.meaning == b.meaning
    && a.level == b.level && a.other == b.other && a.examples == b.examples
    && DecodeTags(a.tags) == DecodeTags(b.tags)
  }

  /** Any row, whatever its stored tags, comes back from export and import
      with its six other columns and its tag list; only the storage form of
      the tags may change (NULL becomes `''`, empty pieces are dropped), so
      exporting it again gives the same item. */
  lemma ExportImportAnyRow(r: Row)
    ensures SameExport(ImportFields(ItemRecord(ToItem(r))), r.fields)
    ensures ToItem(Row(r.id, ImportFields(ItemRecord(ToItem(r))))) == ToItem(r)
  {
    DecodeEncode(DecodeTags(r.fields.tags));
  }

  /** Export followed by import into an empty `characters` table, for any
      table: the same characters are present and each exports to the same
      item as before. */
  lemma ExportImportAnyTable(rows: seq<Row>, id: nat)
    ensures var data := seq(|rows|, i requires 0 <= i < |rows| => ToItem(rows[i]));
      var after := Content(ReplaceAll([], id, FieldsOf(Reimported(data))));
      && after.Keys == Content(rows).Keys
      && forall c | c in after :: SameExport(after[c], Content(rows)[c])
  {
    var data := seq(|rows|, i requires 0 <= i < |rows| => ToItem(rows[i]));
    var fs := FieldsOf(Reimported(data));
    forall i | 0 <= i < |rows| ensures SameExport(fs[i], RowFields(rows)[i]) {
      ExportImportAnyRow(rows[i]);
    }
    AppliedRelated(map[], map[], fs, RowFields(rows), SameExport);
    ContentReplaceAll([], id, fs);
    ContentIsApplied(rows);
  }

  /** Export followed by import into an empty `characters` table reproduces
      the character -> columns content exactly, as long as every stored tags
      value is canonical (a NULL or a value with empty pieces is normalised). */
  lemma ExportImportRoundTrip(rows: seq<Row>, id: nat)
    requires forall i | 0 <= i < |rows| :: rows[i].fields.tags.Some? && IsCanonical(rows[i].fields.tags.value)
    ensures var data := seq(|rows|, i requires 0 <= i < |rows| => ToItem(rows[i]));
      Content(ReplaceAll([], id, FieldsOf(Reimported(data)))) == Content(rows)
  {
    var data := seq(|rows|, i requires 0 <= i < |rows| => ToItem(rows[i]));
    var fs := FieldsOf(Reimported(data));
    forall i | 0 <= i < |rows| ensures fs[i] == rows[i].fields {
      ExportImportRow(rows[i]);
    }
    assert fs == RowFields(rows);
    ContentReplaceAll([], id, fs);
    ContentIsApplied(rows);
  }
}
