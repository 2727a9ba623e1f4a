/** The rows of the SQLite tables and the statements the scripts issue against
    the `characters` table, as pure functions over sequences of rows in rowid
    order, with the facts the scripts rely on. */
module Tables {
  import opened Common

  /** The seven TEXT columns of `characters` other than `id`; `tags` may be NULL. */
  datatype Fields = Fields(
    character: string,
    pinyin: string,
    meaning: string,
    level: string,
    tags: Option<string>,
    other: string,
    examples: string)

  /** A `characters` row: the AUTOINCREMENT key and the seven columns. */
  datatype Row = Row(id: nat, fields: Fields)

  /** A `batches` or `groups` row: key, name and the opaque character list. */
  datatype Collection = Collection(id: nat, name: string, characters: string)

  /** `a` may stand before `b` in the table: a smaller rowid and, by the UNIQUE
      constraint on `character`, a different character. */
  predicate Before(a: Row, b: Row) {
    a.id < b.id && a.fields.character != b.fields.character
  }

  /** A well-formed `characters` table whose AUTOINCREMENT counter would hand out
      `next` as the next id: rowids strictly increasing and below `next`, every
      character at most once. */
  predicate WellFormed(rows: seq<Row>, next: nat) {
    && 0 < next
    && (forall i, j | 0 <= i < j < |rows| :: Before(rows[i], rows[j]))
    && (forall i | 0 <= i < |rows| :: 0 < rows[i].id < next)
  }

  /** The characters carried by a list of upserted field tuples. */
  function CharsOf(fs: seq<Fields>): set<string> {
    set f | f in fs :: f.character
  }

  /** The table after `DELETE ... WHERE character = c`: the rows with another
      character, in their order. */
  function Without(rows: seq<Row>, c: string): (r: seq<Row>)
    ensures |r| <= |rows|
  {
    if rows == [] then []
    else
      var last := rows[|rows| - 1];
      Without(rows[..|rows| - 1], c) + (if last.fields.character == c then [] else [last])
  }

  /** `INSERT OR REPLACE` of `f` keyed on the UNIQUE `character` column: the row
      holding that character, if any, is deleted and a new row with the fresh
      rowid `id` is appended. */
  function Replace(rows: seq<Row>, id: nat, f: Fields): (r: seq<Row>)
    ensures 1 <= |r| <= |rows| + 1
  {
    Without(rows, f.character) + [Row(id, f)]
  }

  /** The upserts of `fs` in order, the k-th one getting rowid `id + k`. */
  function ReplaceAll(rows: seq<Row>, id: nat, fs: seq<Fields>): (r: seq<Row>)
    ensures |r| <= |rows| + |fs|
  {
    if fs == [] then rows
    else Replace(ReplaceAll(rows, id, fs[..|fs| - 1]), id + |fs| - 1, fs[|fs| - 1])
  }

  /** What the table says about each character: character -> columns, where a
      later row would win (in a well-formed table there is one row per key). */
  function Content(rows: seq<Row>): map<string, Fields> {
    if rows == [] then map[]
    else
      var last := rows[|rows| - 1];
      Content(rows[..|rows| - 1])[last.fields.character := last.fields]
  }

  /** The columns of each row, in order. */
  function RowFields(rows: seq<Row>): (fs: seq<Fields>)
    ensures |fs| == |rows| && forall i | 0 <= i < |rows| :: fs[i] == rows[i].fields
  {
    seq(|rows|, i requires 0 <= i < |rows| => rows[i].fields)
  }

  /** The reference definition of a run of upserts on the content: each field
      tuple in turn overwrites its character's entry. */
  function Applied(m: map<string, Fields>, fs: seq<Fields>): map<string, Fields> {
    if fs == [] then m
    else
      var last := fs[|fs| - 1];
      Applied(m, fs[..|fs| - 1])[last.character := last]
  }

  /** Two runs of upserts whose field tuples are pairwise related by `same`,
      with the same characters, started from contents with the same keys and
      related entries, end in contents with the same keys and related
      entries. */
  lemma {:induction false} AppliedRelated(m1: map<string, Fields>, m2: map<string, Fields>,
                                          fs1: seq<Fields>, fs2: seq<Fields>,
                                          same: (Fields, Fields) -> bool)
    requires m1.Keys == m2.Keys && forall k | k in m1 :: same(m1[k], m2[k])
    requires |fs1| == |fs2|
    requires forall i | 0 <= i < |fs1| :: fs1[i].character == fs2[i].character && same(fs1[i], fs2[i])
    ensures Applied(m1, fs1).Keys == Applied(m2, fs2).Keys
    ensures forall k | k in Applied(m1, fs1) :: same(Applied(m1, fs1)[k], Applied(m2, fs2)[k])
  {
    if fs1 != [] {
      var n := |fs1| - 1;
      AppliedRelated(m1, m2, fs1[..n], fs2[..n], same);
    }
  }

  /** The rows left by the delete are exactly the rows with another character. */
  lemma {:induction false} WithoutMembers(rows: seq<Row>, c: string)
    ensures forall x | x in Without(rows, c) :: x in rows && x.fields.character != c
    ensures forall x | x in rows && x.fields.character != c :: x in Without(rows, c)
  {
    if rows != [] {
      var init := rows[..|rows| - 1];
      WithoutMembers(init, c);
      assert rows == init + [rows[|rows| - 1]];
    }
  }

  // ---------------------------------------------------------------------------
  // Well-formedness: the UNIQUE constraint and the rowid order are kept.

  /** Dropping the last row keeps the table well-formed. */
  lemma WellFormedPrefix(rows: seq<Row>, next: nat)
    requires WellFormed(rows, next) && rows != []
    ensures WellFormed(rows[..|rows| - 1], next)
  {
    var init := rows[..|rows| - 1];
    forall i, j | 0 <= i < j < |init| ensures Before(init[i], init[j]) {
      assert init[i] == rows[i] && init[j] == rows[j];
    }
    forall i | 0 <= i < |init| ensures 0 < init[i].id < next {
      assert init[i] == rows[i];
    }
  }

  /** Deleting rows keeps the table well-formed. */
  lemma {:induction false} WithoutWellFormed(rows: seq<Row>, next: nat, c: string)
    requires WellFormed(rows, next)
    ensures WellFormed(Without(rows, c), next)
  {
    if rows != [] {
      var init, last := rows[..|rows| - 1], rows[|rows| - 1];
      WellFormedPrefix(rows, next);
      WithoutWellFormed(init, next, c);
      WithoutMembers(init, c);
      var w := Without(init, c);
      if last.fields.character != c {
        forall x | x in w ensures Before(x, last) {
          var k :| 0 <= k < |init| && init[k] == x;
          assert rows[k] == x;
        }
        AppendWellFormed(w, next, last);
      }
    }
  }

  /** Appending a row that may stand after every row keeps the table well-formed. */
  lemma AppendWellFormed(rows: seq<Row>, next: nat, x: Row)
    requires WellFormed(rows, next)
    requires forall y | y in rows :: Before(y, x)
    requires 0 < x.id < next
    ensures WellFormed(rows + [x], next)
  {
    var r := rows + [x];
    forall i, j | 0 <= i < j < |r| ensures Before(r[i], r[j]) {
      if j == |rows| {
        assert r[i] in rows;
      }
    }
  }

  /** `INSERT OR REPLACE` keeps `character` unique and uses up one rowid. */
  lemma ReplaceWellFormed(rows: seq<Row>, next: nat, f: Fields)
    requires WellFormed(rows, next)
    ensures WellFormed(Replace(rows, next, f), next + 1)
  {
    WithoutWellFormed(rows, next, f.character);
    WithoutMembers(rows, f.character);
    var w := Without(rows, f.character);
    assert WellFormed(w, next + 1) by {
      forall i | 0 <= i < |w| ensures 0 < w[i].id < next {
        assert w[i] in rows;
      }
    }
    forall y | y in w ensures Before(y, Row(next, f)) {
      var k :| 0 <= k < |rows| && rows[k] == y;
    }
    AppendWellFormed(w, next + 1, Row(next, f));
  }

  /** A run of upserts keeps the table well-formed and uses one rowid each. */
  lemma {:induction false} ReplaceAllWellFormed(rows: seq<Row>, next: nat, fs: seq<Fields>)
    requires WellFormed(rows, next)
    ensures WellFormed(ReplaceAll(rows, next, fs), next + |fs|)
  {
    if fs != [] {
      var init := fs[..|fs| - 1];
      var before := ReplaceAll(rows, next, init);
      ReplaceAllWellFormed(rows, next, init);
      ReplaceWellFormed(before, next + |init|, fs[|fs| - 1]);
      assert ReplaceAll(rows, next, fs) == Replace(before, next + |init|, fs[|fs| - 1]);
    }
  }

  /** One more upsert extends a run by one step. */
  lemma ReplaceAllStep(rows: seq<Row>, id: nat, fs: seq<Fields>, i: nat)
    requires i < |fs|
    ensures ReplaceAll(rows, id, fs[..i + 1]) == Replace(ReplaceAll(rows, id, fs[..i]), id + i, fs[i])
  {
    assert fs[..i + 1][..i] == fs[..i];
  }

  /** A table that is one more upsert past the first `i` upserts is the run of
      the first `i + 1`. */
  lemma ReplaceAllExtend(rows: seq<Row>, id: nat, fs: seq<Fields>, i: nat, before: seq<Row>, after: seq<Row>)
    requires i < |fs|
    requires before == ReplaceAll(rows, id, fs[..i])
    requires after == Replace(before, id + i, fs[i])
    ensures after == ReplaceAll(rows, id, fs[..i + 1])
  {
    ReplaceAllStep(rows, id, fs, i);
  }

  /** After an upsert there is exactly one row with the upserted character, the
      new last row, and it holds the upserted columns. */
  lemma ReplaceSingle(rows: seq<Row>, id: nat, f: Fields)
    ensures var r := Replace(rows, id, f);
      && r[|r| - 1] == Row(id, f)
      && forall i | 0 <= i < |r| - 1 :: r[i].fields.character != f.character
  {
    var w := Without(rows, f.character);
    WithoutMembers(rows, f.character);
    forall i | 0 <= i < |w| ensures w[i].fields.character != f.character {
      assert w[i] in w;
    }
  }

  /** Rows whose character none of the upserts carries are kept as they were,
      with their rowid. */
  lemma {:induction false} ReplaceAllKeepsUntouched(rows: seq<Row>, id: nat, fs: seq<Fields>, x: Row)
    requires x in rows
    requires x.fields.character !in CharsOf(fs)
    ensures x in ReplaceAll(rows, id, fs)
  {
    if fs != [] {
      var init := fs[..|fs| - 1];
      assert CharsOf(init) <= CharsOf(fs) by {
        forall c | c in CharsOf(init) ensures c in CharsOf(fs) {
          var g :| g in init && g.character == c;
          assert g in fs;
        }
      }
      ReplaceAllKeepsUntouched(rows, id, init, x);
      assert fs[|fs| - 1] in fs;
      WithoutMembers(ReplaceAll(rows, id, init), fs[|fs| - 1].character);
    }
  }

  /** Every row after a run of upserts was there before or holds the columns
      of one of the upserts. */
  lemma {:induction false} ReplaceAllOrigin(rows: seq<Row>, id: nat, fs: seq<Fields>, x: Row)
    requires x in ReplaceAll(rows, id, fs)
    ensures x in rows || x.fields in fs
  {
    if fs != [] {
      var init, f := fs[..|fs| - 1], fs[|fs| - 1];
      var before := ReplaceAll(rows, id, init);
      WithoutMembers(before, f.character);
      if x in before {
        ReplaceAllOrigin(rows, id, init, x);
        assert x.fields in init ==> x.fields in fs;
      }
    }
  }

  // ---------------------------------------------------------------------------
  // Content: what the table says per character.

  lemma ContentAppend(rows: seq<Row>, x: Row)
    ensures Content(rows + [x]) == Content(rows)[x.fields.character := x.fields]
  {
    assert (rows + [x])[..|rows|] == rows;
  }

  /** Deleting a character's rows removes exactly that key from the content. */
  lemma {:induction false} ContentWithout(rows: seq<Row>, c: string)
    ensures Content(Without(rows, c)) == Content(rows) - {c}
  {
    if rows != [] {
      var init, last := rows[..|rows| - 1], rows[|rows| - 1];
      var m, k := Content(init), last.fields.character;
      ContentWithout(init, c);
      if k != c {
        calc {
          Content(Without(rows, c));
          { assert Without(rows, c) == Without(init, c) + [last];
            ContentAppend(Without(init, c), last); }
          (m - {c})[k := last.fields];
          { UpdateMinusOther(m, c, k, last.fields); }
          m[k := last.fields] - {c};
        }
      } else {
        assert Without(rows, c) == Without(init, c);
        UpdateMinusSame(m, c, last.fields);
      }
    }
  }

  /** An upsert overwrites exactly its character's entry. */
  lemma ContentReplace(rows: seq<Row>, id: nat, f: Fields)
    ensures Content(Replace(rows, id, f)) == Content(rows)[f.character := f]
  {
    ContentWithout(rows, f.character);
    ContentAppend(Without(rows, f.character), Row(id, f));
  }

  /** The table after a run of upserts says what the reference definition
      `Applied` says, whatever rowids the upserts are given. */
  lemma {:induction false} ContentReplaceAll(rows: seq<Row>, id: nat, fs: seq<Fields>)
    ensures Content(ReplaceAll(rows, id, fs)) == Applied(Content(rows), fs)
  {
    if fs != [] {
      ContentReplaceAll(rows, id, fs[..|fs| - 1]);
      ContentReplace(ReplaceAll(rows, id, fs[..|fs| - 1]), id + |fs| - 1, fs[|fs| - 1]);
    }
  }

  /** The keys of the content are exactly the characters of the rows. */
  lemma {:induction false} ContentKeys(rows: seq<Row>)
    ensures forall i | 0 <= i < |rows| :: rows[i].fields.character in Content(rows)
    ensures forall c | c in Content(rows) :: exists i :: 0 <= i < |rows| && rows[i].fields.character == c
  {
    if rows != [] {
      var init := rows[..|rows| - 1];
      ContentKeys(init);
      forall i | 0 <= i < |rows| - 1 ensures rows[i].fields.character in Content(rows) {
        assert rows[i] == init[i];
      }
      forall c | c in Content(rows) ensures exists i :: 0 <= i < |rows| && rows[i].fields.character == c {
        if c != rows[|rows| - 1].fields.character {
          assert c in Content(init);
          var k :| 0 <= k < |init| && init[k].fields.character == c;
          assert rows[k] == init[k];
        }
      }
    }
  }

  /** In a well-formed table the last row's character has no entry in the
      content of the rows before it. */
  lemma LastIsNew(rows: seq<Row>, next: nat)
    requires WellFormed(rows, next) && rows != []
    ensures rows[|rows| - 1].fields.character !in Content(rows[..|rows| - 1])
  {
    var init, c := rows[..|rows| - 1], rows[|rows| - 1].fields.character;
    ContentKeys(init);
    forall i | 0 <= i < |init| ensures init[i].fields.character != c {
      assert Before(rows[i], rows[|rows| - 1]);
    }
  }

  /** In a well-formed table every row is the content's entry for its
      character, and there are as many rows as keys: exactly one row per
      character. */
  lemma {:induction false} ContentOfWellFormed(rows: seq<Row>, next: nat)
    requires WellFormed(rows, next)
    ensures forall i | 0 <= i < |rows| :: rows[i].fields.character in Content(rows) &&
                                          Content(rows)[rows[i].fields.character] == rows[i].fields
    ensures |Content(rows)| == |rows|
  {
    if rows != [] {
      var init, last := rows[..|rows| - 1], rows[|rows| - 1];
      var m, c := Content(init), last.fields.character;
      WellFormedPrefix(rows, next);
      ContentOfWellFormed(init, next);
      LastIsNew(rows, next);
      var full := m[c := last.fields];
      assert Content(rows) == full;
      assert |full| == |m| + 1 by {
        assert full.Keys == m.Keys + {c};
      }
      forall i | 0 <= i < |rows|
        ensures rows[i].fields.character in full
        ensures full[rows[i].fields.character] == rows[i].fields
      {
        if i < |init| {
          assert rows[i] == init[i];
          assert init[i].fields.character in m;
        }
      }
    }
  }

  // ---------------------------------------------------------------------------
  // The reference definition: keys, last write wins, untouched keys, idempotence.

  /** After the upserts the keys are the old keys and every upserted character. */
  lemma {:induction false} AppliedKeys(m: map<string, Fields>, fs: seq<Fields>)
    ensures Applied(m, fs).Keys == m.Keys + CharsOf(fs)
  {
    if fs != [] {
      var init := fs[..|fs| - 1];
      AppliedKeys(m, init);
      assert fs == init + [fs[|fs| - 1]];
      assert CharsOf(fs) == CharsOf(init) + {fs[|fs| - 1].character};
    }
  }

  /** Last write wins: the entry of a character is the last field tuple that
      carries it. */
  lemma {:induction false} AppliedLastWins(m: map<string, Fields>, fs: seq<Fields>, j: nat)
    requires j < |fs|
    requires forall k | j < k < |fs| :: fs[k].character != fs[j].character
    ensures fs[j].character in Applied(m, fs) && Applied(m, fs)[fs[j].character] == fs[j]
  {
    if j < |fs| - 1 {
      var init := fs[..|fs| - 1];
      AppliedLastWins(m, init, j);
    }
  }

  /** A character no upsert carries keeps its entry (or its absence). */
  lemma {:induction false} AppliedUntouched(m: map<string, Fields>, fs: seq<Fields>, c: string)
    requires c !in CharsOf(fs)
    ensures c in Applied(m, fs) <==> c in m
    ensures c in m ==> Applied(m, fs)[c] == m[c]
  {
    if fs != [] {
      var init := fs[..|fs| - 1];
      assert fs[|fs| - 1] in fs;
      forall g | g in init ensures g.character != c {
        assert g in fs;
      }
      AppliedUntouched(m, init, c);
    }
  }

  /** Upserting is overriding: the result is the old content, overridden by what
      the upserts alone would build. */
  lemma {:induction false} AppliedIsOverride(m: map<string, Fields>, fs: seq<Fields>)
    ensures Applied(m, fs) == m + Applied(map[], fs)
  {
    if fs != [] {
      AppliedIsOverride(m, fs[..|fs| - 1]);
    }
  }

  /** Applying the same upserts twice gives what applying them once gives. */
  lemma AppliedIdempotent(m: map<string, Fields>, fs: seq<Fields>)
    ensures Applied(Applied(m, fs), fs) == Applied(m, fs)
  {
    AppliedIsOverride(m, fs);
    AppliedIsOverride(Applied(m, fs), fs);
    var b := Applied(map[], fs);
    assert (m + b) + b == m + b;
  }

  /** The content of a table is what upserting its rows' columns, in order,
      into an empty table says. */
  lemma {:induction false} ContentIsApplied(rows: seq<Row>)
    ensures Content(rows) == Applied(map[], RowFields(rows))
  {
    if rows != [] {
      var init := rows[..|rows| - 1];
      ContentIsApplied(init);
      assert RowFields(rows)[..|rows| - 1] == RowFields(init);
    }
  }

  /** Last write wins on the rows: after a run of upserts into a well-formed
      table, a character carried last by `fs[j]` has a row, and every row with
      that character (there is one: the table stays well-formed) holds `fs[j]`. */
  lemma ReplaceAllLastWins(rows: seq<Row>, next: nat, fs: seq<Fields>, j: nat)
    requires WellFormed(rows, next)
    requires j < |fs|
    requires forall k | j < k < |fs| :: fs[k].character != fs[j].character
    ensures var after := ReplaceAll(rows, next, fs);
      && WellFormed(after, next + |fs|)
      && (exists x :: x in after && x.fields.character == fs[j].character)
      && forall x | x in after && x.fields.character == fs[j].character :: x.fields == fs[j]
  {
    var after, c := ReplaceAll(rows, next, fs), fs[j].character;
    ReplaceAllWellFormed(rows, next, fs);
    assert c in Content(after) && Content(after)[c] == fs[j] by {
      ContentReplaceAll(rows, next, fs);
      AppliedLastWins(Content(rows), fs, j);
    }
    ContentRows(after, next + |fs|, c);
  }

  /** In a well-formed table, a character with an entry in the content has a
      row, and every row holding it holds that entry. */
  lemma ContentRows(rows: seq<Row>, next: nat, c: string)
    requires WellFormed(rows, next) && c in Content(rows)
    ensures exists x :: x in rows && x.fields.character == c
    ensures forall x | x in rows && x.fields.character == c :: x.fields == Content(rows)[c]
  {
    ContentKeys(rows);
    ContentOfWellFormed(rows, next);
    var i :| 0 <= i < |rows| && rows[i].fields.character == c;
    assert rows[i] in rows;
    forall x | x in rows && x.fields.character == c ensures x.fields == Content(rows)[c] {
      var k :| 0 <= k < |rows| && rows[k] == x;
    }
  }
}
