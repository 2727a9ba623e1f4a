/** backend/app.py: the read endpoints over `characters`. */
module App {
  import opened Common
  import opened Tables

  /** What `query_db` returns: the list of matching rows, or with `one=True`
      the first of them or `None`. */
  datatype QueryResult = AllRows(rows: seq<Row>) | OneRow(row: Option<Row>)

  /** A JSON response body and its HTTP status. */
  datatype Body = RowBody(row: Row) | RowsBody(rows: seq<Row>) | ErrorBody(error: string)
  datatype Response = Response(status: nat, body: Body)

  /** `query_db(query, args, one)` for a query that selects the rows satisfying
      `where`, in table order. */
  function QueryDb(table: seq<Row>, where: Row -> bool, one: bool): (r: QueryResult)
    ensures r.OneRow? <==> one
    ensures r.AllRows? ==> r.rows == Filter(table, where)
    ensures r.AllRows? ==> forall x | x in table && where(x) :: x in r.rows
    ensures r.AllRows? ==> forall x | x in r.rows :: x in table && where(x)
    ensures r.OneRow? && r.row.None? ==> forall x | x in table :: !where(x)
    ensures r.OneRow? && r.row.Some? ==>
      exists i :: 0 <= i < |table| && table[i] == r.row.value && where(table[i]) &&
                  forall j | 0 <= j < i :: !where(table[j])
  {
    var rv := Filter(table, where);
    assert rv != [] ==> exists i :: 0 <= i < |table| && table[i] == rv[0] && where(table[i]) &&
                                    forall j | 0 <= j < i :: !where(table[j]) by {
      if rv != [] { FilterHead(table, where); }
    }
    if one then OneRow(if rv != [] then Some(rv[0]) else None) else AllRows(rv)
  }

  predicate AnyRow(r: Row) {
    true
  }

  function WithCharacter(c: string): Row -> bool {
    (r: Row) => r.fields.character == c
  }

  /** `GET /characters`: every row of the table, in table order. */
  function ListCharacters(table: seq<Row>): (resp: Response)
    ensures resp == Response(200, RowsBody(table))
  {
    FilterKeepsAll(table, AnyRow);
    Response(200, RowsBody(QueryDb(table, AnyRow, false).rows))
  }

  /** `GET /characters/<char>`: the first row whose character is `c`, or a 404
      with `{"error": "not found"}` when there is none. */
  function GetCharacter(table: seq<Row>, c: string): (resp: Response)
    ensures resp.status == 200 || resp.status == 404
    ensures resp.status == 404 <==> forall x | x in table :: x.fields.character != c
    ensures resp.status == 404 ==> resp.body == ErrorBody("not found")
    ensures resp.status == 200 ==>
      resp.body.RowBody? &&
      exists i :: 0 <= i < |table| && table[i] == resp.body.row && table[i].fields.character == c &&
                  forall j | 0 <= j < i :: table[j].fields.character != c
  {
    var row := QueryDb(table, WithCharacter(c), true).row;
    if row.Some? then Response(200, RowBody(row.value))
    else Response(404, ErrorBody("not found"))
  }

  /** With `character` unique the row found is the only one holding `c`. */
  lemma GetCharacterOnlyMatch(table: seq<Row>, next: nat, c: string)
    requires WellFormed(table, next)
    ensures var resp := GetCharacter(table, c);
      resp.status == 200 ==> forall x | x in table && x.fields.character == c :: x == resp.body.row
  {
    var resp := GetCharacter(table, c);
    if resp.status == 200 {
      var i :| 0 <= i < |table| && table[i] == resp.body.row && table[i].fields.character == c;
      forall x | x in table && x.fields.character == c ensures x == resp.body.row {
        var k :| 0 <= k < |table| && table[k] == x;
      }
    }
  }

  /** Because `character` is unique, the lookup does not depend on the order
      in which the table hands out its rows. */
  lemma GetCharacterOrderIndependent(table: seq<Row>, next: nat, other: seq<Row>, c: string)
    requires WellFormed(table, next)
    requires multiset(other) == multiset(table)
    ensures GetCharacter(other, c) == GetCharacter(table, c)
  {
    var r1, r2 := GetCharacter(table, c), GetCharacter(other, c);
    assert forall x :: x in other <==> x in table by {
      forall x ensures x in other <==> x in table {
        assert x in other <==> x in multiset(other);
        assert x in table <==> x in multiset(table);
      }
    }
    if r1.status == 200 && r2.status == 200 {
      GetCharacterOnlyMatch(table, next, c);
      var i :| 0 <= i < |other| && other[i] == r2.body.row && other[i].fields.character == c;
      assert r2.body.row in table;
    }
  }
}
