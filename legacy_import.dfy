/** backend/import_legacy_json.py: import a line-per-record legacy dump, split
    each record's notes from its examples, sort by legacy id, upsert the rows
    and register their tags. */
module LegacyImport {
  import opened Common
  import opened Text
  import opened TagEncoding
  import opened Records
  import opened Tables
  import opened Database

  /** The delimiter that introduces the example section inside `other`. */
  const Marker: string := "Ejemplos:"

  /** `Marker in s`. */
  predicate ContainsMarker(s: string)
    ensures ContainsMarker(s) <==> FindFirst(s, Marker).Some?
  {
    exists i: nat | i <= |s| :: OccursAt(s, Marker, i)
  }

  // ---------------------------------------------------------------------------
  // extract_examples

  /** `extract_examples(text)`: without the marker, the stripped text and no
      examples; with it, the stripped parts before and after its first
      occurrence (see `ExtractExamplesAtFirst`). Neither part has outer
      whitespace. */
  function ExtractExamples(text: string): (r: (string, string))
    ensures NoOuterSpace(r.0) && NoOuterSpace(r.1)
    ensures !ContainsMarker(text) ==> r == (Strip(text), "")
  {
    match FindFirst(text, Marker)
    case None => (Strip(text), "")
    case Some(i) => (Strip(text[..i]), Strip(text[i + |Marker|..]))
  }

  /** With the marker, the split is at its first occurrence `i`: the notes
      are the stripped prefix, which holds no marker, and the examples the
      stripped rest after the marker. */
  lemma ExtractExamplesAtFirst(text: string, i: nat)
    requires OccursAt(text, Marker, i)
    requires forall j: nat | j < i :: !OccursAt(text, Marker, j)
    ensures ExtractExamples(text) == (Strip(text[..i]), Strip(text[i + |Marker|..]))
    ensures !ContainsMarker(text[..i])
  {
    assert ExtractExamples(text) == (Strip(text[..i]), Strip(text[i + |Marker|..])) by {
      FindFirstAt(text, Marker, i);
    }
    NoOccurrenceBefore(text, Marker, i);
  }

  /** The marker does not overlap itself: its first letter occurs nowhere else
      in it. */
  lemma MarkerHasNoBorder(d: nat)
    requires 1 <= d < |Marker|
    ensures Marker[d] != Marker[0]
  {
  }

  /** For a text made of a marker-free prefix, the marker and any rest, the
      notes are the stripped prefix and the examples the stripped rest. */
  lemma ExtractExamplesSplit(before: string, after: string)
    requires !ContainsMarker(before)
    ensures ExtractExamples(before + Marker + after) == (Strip(before), Strip(after))
  {
    var text := before + Marker + after;
    var n := |before|;
    assert text[n..n + |Marker|] == Marker;
    assert OccursAt(text, Marker, n);
    forall j: nat | j < n ensures !OccursAt(text, Marker, j) {
      if j + |Marker| <= n {
        assert text[j..j + |Marker|] == before[j..j + |Marker|];
        assert !OccursAt(before, Marker, j);
      } else {
        var d := n - j;
        MarkerHasNoBorder(d);
        assert text[n] == Marker[0];
        assert text[j..j + |Marker|][d] == text[n];
      }
    }
    ExtractExamplesAtFirst(text, n);
    assert text[..n] == before;
    assert text[n + |Marker|..] == after;
  }

  // ---------------------------------------------------------------------------
  // Reading the lines

  /** A legacy record with its sort key: `(oid, data)`. */
  type Entry = (string, Record)

  predicate NonBlank(line: string) {
    Strip(line) != ""
  }

  /** The entry a non-blank line yields; `parse` stands for `json.loads`. */
  function ToEntry(parse: string -> Record, line: string): Entry {
    var data := parse(Strip(line));
    (Oid(data), data)
  }

  function Entries(lines: seq<string>, parse: string -> Record): seq<Entry> {
    seq(|lines|, i requires 0 <= i < |lines| => ToEntry(parse, lines[i]))
  }

  /** What the reading loop collects: one entry per non-blank line, in order. */
  function Collected(lines: seq<string>, parse: string -> Record): seq<Entry> {
    Entries(Filter(lines, NonBlank), parse)
  }

  /** One more line adds its entry when it is not blank. */
  lemma CollectedStep(lines: seq<string>, i: nat, parse: string -> Record)
    requires i < |lines|
    ensures Collected(lines[..i + 1], parse) ==
            Collected(lines[..i], parse) + (if NonBlank(lines[i]) then [ToEntry(parse, lines[i])] else [])
  {
    assert lines[..i + 1] == lines[..i] + [lines[i]];
    FilterConcat(lines[..i], [lines[i]], NonBlank);
    var a, b := Filter(lines[..i], NonBlank), Filter([lines[i]], NonBlank);
    assert b == if NonBlank(lines[i]) then [lines[i]] else [];
    EntriesConcat(a, b, parse);
  }

  lemma EntriesConcat(a: seq<string>, b: seq<string>, parse: string -> Record)
    ensures Entries(a + b, parse) == Entries(a, parse) + Entries(b, parse)
  {
  }

  /** The reading loop: blank lines are skipped, every other line is stripped,
      parsed and appended with its oid (`''` when it has none). */
  method CollectRecords(lines: seq<string>, parse: string -> Record) returns (records: seq<Entry>)
    ensures records == Collected(lines, parse)
    ensures |records| == |Filter(lines, NonBlank)|
    ensures forall i | 0 <= i < |records| ::
              records[i].1 == parse(Strip(Filter(lines, NonBlank)[i])) && records[i].0 == Oid(records[i].1)
  {
    records := [];
    var i := 0;
    while i < |lines|
      invariant 0 <= i <= |lines|
      invariant records == Collected(lines[..i], parse)
    {
      CollectedStep(lines, i, parse);
      var line := Strip(lines[i]);
      if line != "" {
        var data := parse(line);
        records := records + [(Oid(data), data)];
      }
      i := i + 1;
    }
    assert lines[..|lines|] == lines;
    assert records == Entries(Filter(lines, NonBlank), parse);
  }

  // ---------------------------------------------------------------------------
  // records.sort(key=lambda r: r[0])

  predicate SortedByOid(s: seq<Entry>) {
    forall i, j | 0 <= i < j < |s| :: StrLe(s[i].0, s[j].0)
  }

  function HasOid(k: string): Entry -> bool {
    (e: Entry) => e.0 == k
  }

  /** Inserts `x` before the first entry whose oid is not smaller. */
  function InsertByOid(x: Entry, s: seq<Entry>): (r: seq<Entry>)
    ensures multiset(r) == multiset(s) + multiset{x}
  {
    if s == [] || StrLe(x.0, s[0].0) then [x] + s
    else
      assert s == [s[0]] + s[1..];
      [s[0]] + InsertByOid(x, s[1..])
  }

  /** Python's stable sort by oid, as insertion sort: a permutation of its input. */
  function SortByOid(s: seq<Entry>): (r: seq<Entry>)
    ensures multiset(r) == multiset(s)
  {
    if s == [] then []
    else
      assert s == [s[0]] + s[1..];
      InsertByOid(s[0], SortByOid(s[1..]))
  }

  /** Every sorted entry is one of the entries read. */
  lemma SortedFrom(es: seq<Entry>, e: Entry)
    requires e in SortByOid(es)
    ensures exists k :: 0 <= k < |es| && es[k] == e
  {
    assert e in multiset(SortByOid(es));
    assert e in multiset(es);
  }

  lemma {:induction false} InsertByOidSorted(x: Entry, s: seq<Entry>)
    requires SortedByOid(s)
    ensures SortedByOid(InsertByOid(x, s))
  {
    var r := InsertByOid(x, s);
    if s == [] {
    } else if StrLe(x.0, s[0].0) {
      forall j | 1 <= j < |r| ensures StrLe(x.0, r[j].0) {
        if j > 1 { StrLeTransitive(x.0, s[0].0, s[j - 1].0); }
      }
    } else {
      var tail := s[1..];
      assert SortedByOid(tail);
      InsertByOidSorted(x, tail);
      StrLeTotal(x.0, s[0].0);
      var rest := InsertByOid(x, tail);
      forall j | 0 <= j < |rest| ensures StrLe(s[0].0, rest[j].0) {
        assert rest[j] in multiset(rest);
        if rest[j] != x {
          assert rest[j] in multiset(tail);
          var k :| 0 <= k < |tail| && tail[k] == rest[j];
          assert s[k + 1] == rest[j];
        }
      }
      assert r == [s[0]] + rest;
    }
  }

  /** The sorted records are ordered by oid ascending. */
  lemma {:induction false} SortByOidSorted(s: seq<Entry>)
    ensures SortedByOid(SortByOid(s))
  {
    if s != [] {
      SortByOidSorted(s[1..]);
      InsertByOidSorted(s[0], SortByOid(s[1..]));
    }
  }

  /** Insertion puts `x` before every entry with the same oid. */
  lemma {:induction false} InsertByOidStable(x: Entry, s: seq<Entry>, k: string)
    ensures Filter(InsertByOid(x, s), HasOid(k)) == Filter([x] + s, HasOid(k))
  {
    if s != [] && !StrLe(x.0, s[0].0) {
      StrLeReflexive(x.0);
      InsertByOidStable(x, s[1..], k);
      var r := InsertByOid(x, s);
      assert r[1..] == InsertByOid(x, s[1..]);
      assert ([x] + s)[1..] == s;
      assert ([x] + s[1..])[1..] == s[1..];
    }
  }

  /** Stability: for every oid, the entries carrying it keep their input order. */
  lemma {:induction false} SortByOidStable(s: seq<Entry>, k: string)
    ensures Filter(SortByOid(s), HasOid(k)) == Filter(s, HasOid(k))
  {
    if s != [] {
      SortByOidStable(s[1..], k);
      InsertByOidStable(s[0], SortByOid(s[1..]), k);
      assert ([s[0]] + SortByOid(s[1..]))[1..] == SortByOid(s[1..]);
    }
  }

  // ---------------------------------------------------------------------------
  // The upsert and tag loop

  /** The columns written for one legacy record: text columns default to `''`,
      `tags` is the comma-joined list, and notes and examples are split out of
      the record's `other`; the record's own `examples` member is not used. */
  function LegacyFields(rec: Record): (f: Fields)
    ensures f.character == Get(rec, "character") && f.pinyin == Get(rec, "pinyin")
    ensures f.meaning == Get(rec, "meaning") && f.level == Get(rec, "level")
    ensures f.tags == Some(EncodeTags(TagList(rec)))
    ensures (f.other, f.examples) == ExtractExamples(Get(rec, "other"))
  {
    var (other, examples) := ExtractExamples(Get(rec, "other"));
    Fields(Get(rec, "character"), Get(rec, "pinyin"), Get(rec, "meaning"), Get(rec, "level"),
           Some(EncodeTags(TagList(rec))), other, examples)
  }

  function LegacyFieldsOf(es: seq<Entry>): seq<Fields> {
    seq(|es|, i requires 0 <= i < |es| => LegacyFields(es[i].1))
  }

  /** The names of a tag list, as the registry holds them. */
  function TagSet(ts: seq<string>): set<string> {
    if ts == [] then {} else TagSet(ts[..|ts| - 1]) + {ts[|ts| - 1]}
  }

  /** The registry gains exactly the names on the list. */
  lemma {:induction false} TagSetMembers(ts: seq<string>, t: string)
    ensures t in TagSet(ts) <==> t in ts
  {
    if ts != [] {
      var init := ts[..|ts| - 1];
      TagSetMembers(init, t);
      assert ts == init + [ts[|ts| - 1]];
    }
  }

  /** Every tag of every entry. */
  function TagsOf(es: seq<Entry>): set<string> {
    if es == [] then {}
    else TagsOf(es[..|es| - 1]) + TagSet(TagList(es[|es| - 1].1))
  }

  /** One more entry adds its tags. */
  lemma TagsOfStep(es: seq<Entry>, i: nat)
    requires i < |es|
    ensures TagsOf(es[..i + 1]) == TagsOf(es[..i]) + TagSet(TagList(es[i].1))
  {
    assert es[..i + 1][..i] == es[..i];
  }

  /** The inner loop: one INSERT OR IGNORE INTO tags per tag of the record. */
  method RegisterTags(store: Store, names: seq<string>)
    modifies store
    ensures store.tags == old(store.tags) + TagSet(names)
    ensures store.characters == old(store.characters) && store.nextId == old(store.nextId)
    ensures store.settings == old(store.settings)
    ensures store.batches == old(store.batches) && store.groups == old(store.groups)
    ensures store.committed == old(store.committed) && store.committedNextId == old(store.committedNextId)
  {
    var j := 0;
    while j < |names|
      invariant 0 <= j <= |names|
      invariant store.tags == old(store.tags) + TagSet(names[..j])
      invariant store.characters == old(store.characters) && store.nextId == old(store.nextId)
      invariant store.settings == old(store.settings)
      invariant store.batches == old(store.batches) && store.groups == old(store.groups)
      invariant store.committed == old(store.committed) && store.committedNextId == old(store.committedNextId)
    {
      store.InsertTag(names[j]);
      assert names[..j + 1][..j] == names[..j];
      j := j + 1;
    }
    assert names[..j] == names;
  }

  /** The loop body: the record's row `f` is upserted, then the names on its
      tag list are registered. */
  method UpsertRecord(store: Store, f: Fields, names: seq<string>)
    requires store.Valid()
    modifies store
    ensures store.Valid()
    ensures store.characters == Replace(old(store.characters), old(store.nextId), f)
    ensures store.nextId == old(store.nextId) + 1
    ensures store.tags == old(store.tags) + TagSet(names)
    ensures store.settings == old(store.settings)
    ensures store.batches == old(store.batches) && store.groups == old(store.groups)
    ensures store.committed == old(store.committed) && store.committedNextId == old(store.committedNextId)
  {
    store.InsertOrReplace(f);
    RegisterTags(store, names);
  }

  /** The records as the loop visits them. */
  function SortedRecords(lines: seq<string>, parse: string -> Record): seq<Entry> {
    SortByOid(Collected(lines, parse))
  }

  /** The upsert loop over the sorted records: one row and its tags per record,
      in order. */
  method UpsertAll(store: Store, records: seq<Entry>)
    requires store.Valid()
    modifies store
    ensures store.Valid()
    ensures store.characters == ReplaceAll(old(store.characters), old(store.nextId), LegacyFieldsOf(records))
    ensures store.nextId == old(store.nextId) + |records|
    ensures store.tags == old(store.tags) + TagsOf(records)
    ensures store.settings == old(store.settings)
    ensures store.batches == old(store.batches) && store.groups == old(store.groups)
    ensures store.committed == old(store.committed) && store.committedNextId == old(store.committedNextId)
  {
    ghost var rows0, next0, tags0 := store.characters, store.nextId, store.tags;
    var i := 0;
    while i < |records|
      invariant 0 <= i <= |records|
      invariant store.Valid()
      invariant store.characters == ReplaceAll(rows0, next0, LegacyFieldsOf(records)[..i])
      invariant store.nextId == next0 + i
      invariant store.tags == tags0 + TagsOf(records[..i])
      invariant store.settings == old(store.settings)
      invariant store.batches == old(store.batches) && store.groups == old(store.groups)
      invariant store.committed == old(store.committed) && store.committedNextId == old(store.committedNextId)
    {
      UpsertNext(store, records, i, rows0, next0, tags0);
      i := i + 1;
    }
    assert records[..i] == records;
    assert LegacyFieldsOf(records)[..i] == LegacyFieldsOf(records);
  }

  /** One turn of the upsert loop: the record at `i` joins the rows and tags
      the earlier records left behind. */
  method UpsertNext(store: Store, records: seq<Entry>, i: nat, ghost rows0: seq<Row>, ghost next0: nat, ghost tags0: set<string>)
    requires i < |records|
    requires store.Valid()
    requires store.characters == ReplaceAll(rows0, next0, LegacyFieldsOf(records)[..i])
    requires store.nextId == next0 + i
    requires store.tags == tags0 + TagsOf(records[..i])
    modifies store
    ensures store.Valid()
    ensures store.characters == ReplaceAll(rows0, next0, LegacyFieldsOf(records)[..i + 1])
    ensures store.nextId == next0 + i + 1
    ensures store.tags == tags0 + TagsOf(records[..i + 1])
    ensures store.settings == old(store.settings)
    ensures store.batches == old(store.batches) && store.groups == old(store.groups)
    ensures store.committed == old(store.committed) && store.committedNextId == old(store.committedNextId)
  {
    var fs := LegacyFieldsOf(records);
    TagsOfStep(records, i);
    ReplaceAllStep(rows0, next0, fs, i);
    UpsertRecord(store, fs[i], TagList(records[i].1));
  }

  /** `main` from the reading loop on: collect, sort by oid, upsert. The tables
      exist already (or are created empty); the commit at the end makes all of
      it the committed state. */
  method ImportLegacy(store: Store, lines: seq<string>, parse: string -> Record)
    requires store.Valid()
    modifies store
    ensures store.Valid()
    ensures store.characters ==
              ReplaceAll(old(store.characters), old(store.nextId), LegacyFieldsOf(SortedRecords(lines, parse)))
    ensures store.nextId == old(store.nextId) + |SortedRecords(lines, parse)|
    ensures store.tags == old(store.tags) + TagsOf(SortedRecords(lines, parse))
    ensures store.settings == old(store.settings)
    ensures store.batches == old(store.batches) && store.groups == old(store.groups)
    ensures store.committed == store.characters && store.committedNextId == store.nextId
  {
    var records := CollectRecords(lines, parse);
    records := SortByOid(records);
    UpsertAll(store, records);
    store.Commit();
  }

  // ---------------------------------------------------------------------------
  // What the import promises

  /** A tag is registered by the import exactly when some record carries it. */
  lemma {:induction false} TagsOfMembers(es: seq<Entry>, t: string)
    ensures t in TagsOf(es) <==> exists i :: 0 <= i < |es| && t in TagList(es[i].1)
  {
    if es != [] {
      var init := es[..|es| - 1];
      TagsOfMembers(init, t);
      TagSetMembers(TagList(es[|es| - 1].1), t);
      if exists i :: 0 <= i < |init| && t in TagList(init[i].1) {
        var i :| 0 <= i < |init| && t in TagList(init[i].1);
        assert es[i] == init[i];
      }
      if exists i :: 0 <= i < |es| && t in TagList(es[i].1) {
        var i :| 0 <= i < |es| && t in TagList(es[i].1);
        if i < |init| { assert es[i] == init[i]; }
      }
    }
  }

  /** The registry after the import is the old registry united with every tag
      of every record read, whatever the order: no name is lost. */
  lemma ImportedTags(lines: seq<string>, parse: string -> Record, t: string)
    ensures t in TagsOf(SortedRecords(lines, parse)) <==>
            exists i :: 0 <= i < |Collected(lines, parse)| && t in TagList(Collected(lines, parse)[i].1)
  {
    var es := Collected(lines, parse);
    var sorted := SortByOid(es);
    TagsOfMembers(sorted, t);
    TagsOfMembers(es, t);
    if exists i :: 0 <= i < |sorted| && t in TagList(sorted[i].1) {
      var i :| 0 <= i < |sorted| && t in TagList(sorted[i].1);
      assert sorted[i] in multiset(es);
      var k :| 0 <= k < |es| && es[k] == sorted[i];
    }
    if exists i :: 0 <= i < |es| && t in TagList(es[i].1) {
      var i :| 0 <= i < |es| && t in TagList(es[i].1);
      assert es[i] in multiset(sorted);
      var k :| 0 <= k < |sorted| && sorted[k] == es[i];
    }
  }

  /** Last write wins in oid order: a character carried last by the j-th sorted
      record has a row, the only one with that character, holding that
      record's columns. */
  lemma LegacyLastWins(rows: seq<Row>, next: nat, lines: seq<string>, parse: string -> Record, j: nat)
    requires WellFormed(rows, next)
    requires j < |SortedRecords(lines, parse)|
    requires forall k | j < k < |SortedRecords(lines, parse)| ::
               Get(SortedRecords(lines, parse)[k].1, "character") != Get(SortedRecords(lines, parse)[j].1, "character")
    ensures var records := SortedRecords(lines, parse);
      var after := ReplaceAll(rows, next, LegacyFieldsOf(records));
      var c := Get(records[j].1, "character");
      && WellFormed(after, next + |records|)
      && (exists x :: x in after && x.fields.character == c)
      && forall x | x in after && x.fields.character == c :: x.fields == LegacyFields(records[j].1)
  {
    ReplaceAllLastWins(rows, next, LegacyFieldsOf(SortedRecords(lines, parse)), j);
  }

  /** Rows whose character no record read carries are left as they were. */
  lemma LegacyKeepsUntouched(rows: seq<Row>, next: nat, lines: seq<string>, parse: string -> Record, x: Row)
    requires x in rows
    requires forall i | 0 <= i < |Collected(lines, parse)| ::
               Get(Collected(lines, parse)[i].1, "character") != x.fields.character
    ensures x in ReplaceAll(rows, next, LegacyFieldsOf(SortedRecords(lines, parse)))
  {
    var es := Collected(lines, parse);
    var sorted := SortByOid(es);
    var fs := LegacyFieldsOf(sorted);
    forall g | g in fs ensures g.character != x.fields.character {
      var i :| 0 <= i < |fs| && fs[i] == g;
      var e := sorted[i];
      assert g.character == Get(e.1, "character");
      SortedFrom(es, e);
    }
    ReplaceAllKeepsUntouched(rows, next, fs, x);
  }
}
