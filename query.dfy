/**
 * Tables and the query text the subsetter sends (subsetter/query.go). The
 * database round trips themselves are not modelled: where a result is needed the
 * caller passes it in (the catalog listing, a precise row count).
 */
module Query {

  import opened Outcomes
  import opened Text
  import opened Relations

  /**
   * A table of the source database: its row count (an estimate, later a target),
   * the foreign keys it owns and the foreign keys that reference it.
   */
  datatype Table = Table(Name: string, Rows: int, Relations: seq<Relation>, RequiredBy: seq<Relation>)
  {
    /** "owner>column" for every relation, in order, for the verbose report. */
    function RelationNames(): (names: seq<string>)
      ensures |names| == |Relations|
    {
      seq(|Relations|, i requires 0 <= i < |Relations| => Relations[i].PrimaryTable + ">" + Relations[i].PrimaryColumn)
    }

    /** Whether some relation of the table points back at its own table. */
    method IsSelfRelated() returns (b: bool)
      ensures b <==> exists i :: 0 <= i < |Relations| && Relations[i].IsSelfRelated()
    {
      for i := 0 to |Relations|
        invariant forall j :: 0 <= j < i ==> !Relations[j].IsSelfRelated()
      {
        if Relations[i].IsSelfRelated() {
          return true;
        }
      }
      return false;
    }
  }

  /** Go's zero `Table{}`: empty name, no rows, no relations. */
  const ZeroTable := Table("", 0, [], [])

  /** Each report entry splits back into the owner and the key column when the owner holds no '>'. */
  lemma {:induction false} RelationNamesDecode(t: Table, i: nat)
    requires i < |t.Relations|
    requires '>' !in t.Relations[i].PrimaryTable
    ensures SplitFirst(t.RelationNames()[i], '>') == [t.Relations[i].PrimaryTable, t.Relations[i].PrimaryColumn]
  {
    var owner, column := t.Relations[i].PrimaryTable, t.Relations[i].PrimaryColumn;
    var name := t.RelationNames()[i];
    assert name == owner + ">" + column;
    assert name[|owner|] == '>';
    assert name[..|owner|] == owner;
    assert name[|owner| + 1..] == column;
    assert IndexOf(name, '>') == Some(|owner|);
  }

  /** The first table with that name, or the zero table when there is none. */
  function TableByName(tables: seq<Table>, name: string): (t: Table)
    ensures (forall i :: 0 <= i < |tables| ==> tables[i].Name != name) ==> t == ZeroTable
    ensures forall i :: (0 <= i < |tables| && tables[i].Name == name &&
                         (forall j :: 0 <= j < i ==> tables[j].Name != name)) ==> t == tables[i]
    ensures t == ZeroTable || (t in tables && t.Name == name)
  {
    if tables == [] then ZeroTable
    else if tables[0].Name == name then tables[0]
    else
      var rest := tables[1..];
      var t := TableByName(rest, name);
      assert t == ZeroTable || t in tables by {
        if t != ZeroTable {
          assert t in rest;
        }
      }
      assert forall i :: (0 <= i < |tables| && tables[i].Name == name &&
                          (forall j :: 0 <= j < i ==> tables[j].Name != name)) ==> t == tables[i] by {
        forall i | 0 <= i < |tables| && tables[i].Name == name && (forall j :: 0 <= j < i ==> tables[j].Name != name)
          ensures t == tables[i]
        {
          assert rest[i - 1] == tables[i];
          forall j | 0 <= j < i - 1
            ensures rest[j].Name != name
          {
            assert rest[j] == tables[j + 1];
          }
        }
      }
      t
  }

  /**
   * The query CopyTableToString sends: `order by random()` is added only when
   * there is a filter, and the limit text is appended as given.
   */
  function CopySelect(table: string, limit: string, where: string): (q: string)
    ensures where == "" ==> q == "SELECT * FROM " + table + "   " + limit
    ensures where != "" ==> q == "SELECT * FROM " + table + " " + where + " order by random() " + limit
  {
    var maybeOrder := if where != "" then "order by random()" else "";
    "SELECT * FROM " + table + " " + where + " " + maybeOrder + " " + limit
  }

  // ---------------------------------------------------------------------------
  // GetTablesWithRows

  /** One row of the table listing: a name and the planner's row estimate; or a row that failed to scan. */
  datatype CatalogRow = CatalogRow(relname: string, reltuples: int) | Unscannable

  /**
   * The row count kept for a table: an estimate of -1 means "never analysed"
   * and becomes 0, and 0 is replaced by a precise count, which may fail.
   */
  function NormalisedRows(name: string, estimate: int, count: string -> Result<int>): (r: Result<int>)
    ensures estimate != -1 && estimate != 0 ==> r == Ok(estimate)
    ensures estimate == -1 || estimate == 0 ==> r == count(name)
  {
    var rows := if estimate == -1 then 0 else estimate;
    if rows == 0 then count(name) else Ok(rows)
  }

  /** Rows of the listing that describe user tables: scanned, and not named "pg_...". */
  predicate Listed(row: CatalogRow) {
    row.CatalogRow? && !HasPrefix(row.relname, "pg_")
  }

  /** The tables the listing yields, or the first count error. */
  function Collected(rows: seq<CatalogRow>, count: string -> Result<int>, catalog: seq<RelationRaw>): Result<seq<Table>>
    decreases |rows|
  {
    if rows == [] then Ok([])
    else
      match Collected(rows[..|rows| - 1], count, catalog)
      case Err(e) => Err(e)
      case Ok(tables) =>
        var row := rows[|rows| - 1];
        if !Listed(row) then Ok(tables)
        else match NormalisedRows(row.relname, row.reltuples, count)
          case Err(e) => Err(e)
          case Ok(n) =>
            Ok(tables + [Table(row.relname, n, Catalogued(catalog, row.relname, Owner), Catalogued(catalog, row.relname, Referenced))])
  }

  /** The rows of the listing that become tables, in listing order. */
  function ListedRows(rows: seq<CatalogRow>): (r: seq<CatalogRow>)
    ensures forall row :: row in r <==> row in rows && Listed(row)
    decreases |rows|
  {
    if rows == [] then []
    else
      var init, last := rows[..|rows| - 1], rows[|rows| - 1];
      assert rows == init + [last];
      if Listed(last) then ListedRows(init) + [last] else ListedRows(init)
  }

  /**
   * `t` is the table a listing row yields: the row's name, its normalised row
   * count and the catalog's relations in both directions.
   */
  ghost predicate Describes(t: Table, row: CatalogRow, count: string -> Result<int>, catalog: seq<RelationRaw>) {
    row.CatalogRow? && NormalisedRows(row.relname, row.reltuples, count) == Ok(t.Rows) &&
    t == Table(row.relname, t.Rows, Catalogued(catalog, row.relname, Owner), Catalogued(catalog, row.relname, Referenced))
  }

  /**
   * A successful listing yields one table per listed row, in listing order, each
   * the table that row describes: no listed row is dropped and no table is
   * added or reordered.
   */
  lemma {:induction false} CollectedComplete(rows: seq<CatalogRow>, count: string -> Result<int>, catalog: seq<RelationRaw>)
    requires Collected(rows, count, catalog).Ok?
    ensures |Collected(rows, count, catalog).value| == |ListedRows(rows)|
    ensures forall k :: 0 <= k < |ListedRows(rows)| ==>
      Describes(Collected(rows, count, catalog).value[k], ListedRows(rows)[k], count, catalog)
    decreases |rows|
  {
    if rows != [] {
      var init, last := rows[..|rows| - 1], rows[|rows| - 1];
      CollectedComplete(init, count, catalog);
      var before, listed := Collected(init, count, catalog).value, ListedRows(init);
      if Listed(last) {
        var n := NormalisedRows(last.relname, last.reltuples, count).value;
        var t := Table(last.relname, n, Catalogued(catalog, last.relname, Owner), Catalogued(catalog, last.relname, Referenced));
        assert Collected(rows, count, catalog).value == before + [t];
        assert ListedRows(rows) == listed + [last];
        assert Describes(t, last, count, catalog);
      }
    }
  }

  /**
   * What every collected table satisfies: it comes from a listed row, its row
   * count is the normalised estimate, and its relations are the catalog's.
   */
  ghost predicate CollectedFrom(t: Table, rows: seq<CatalogRow>, count: string -> Result<int>, catalog: seq<RelationRaw>) {
    exists i :: 0 <= i < |rows| && Listed(rows[i]) && rows[i].relname == t.Name &&
      NormalisedRows(t.Name, rows[i].reltuples, count) == Ok(t.Rows) &&
      t.Relations == Catalogued(catalog, t.Name, Owner) &&
      t.RequiredBy == Catalogued(catalog, t.Name, Referenced)
  }

  /**
   * Every table GetTablesWithRows returns comes from a listed row (so its name
   * never starts with "pg_"), carries the normalised row count and the catalog's
   * relations, and owns every relation in its Relations.
   */
  lemma {:induction false} CollectedTables(rows: seq<CatalogRow>, count: string -> Result<int>, catalog: seq<RelationRaw>)
    requires Collected(rows, count, catalog).Ok?
    ensures forall t :: t in Collected(rows, count, catalog).value ==>
      CollectedFrom(t, rows, count, catalog) && !HasPrefix(t.Name, "pg_") &&
      forall r :: r in t.Relations ==> r.PrimaryTable == t.Name
    decreases |rows|
  {
    if rows != [] {
      var init := rows[..|rows| - 1];
      CollectedTables(init, count, catalog);
      forall t | t in Collected(rows, count, catalog).value
        ensures CollectedFrom(t, rows, count, catalog)
      {
        if t in Collected(init, count, catalog).value {
          var i :| 0 <= i < |init| && Listed(init[i]) && init[i].relname == t.Name &&
            NormalisedRows(t.Name, init[i].reltuples, count) == Ok(t.Rows) &&
            t.Relations == Catalogued(catalog, t.Name, Owner) &&
            t.RequiredBy == Catalogued(catalog, t.Name, Referenced);
          assert rows[i] == init[i];
        } else {
          assert Listed(rows[|rows| - 1]);
        }
      }
      forall t | t in Collected(rows, count, catalog).value
        ensures forall r :: r in t.Relations ==> r.PrimaryTable == t.Name
      {
        OwnedRelationsBelongToTable(catalog, t.Name);
      }
    }
  }

  /** A failed precise count aborts the whole listing, whatever rows follow. */
  lemma {:induction false} CountErrorAborts(rows: seq<CatalogRow>, more: seq<CatalogRow>, count: string -> Result<int>, catalog: seq<RelationRaw>)
    requires Collected(rows, count, catalog).Err?
    ensures Collected(rows + more, count, catalog) == Collected(rows, count, catalog)
    decreases |more|
  {
    if more == [] {
      assert rows + more == rows;
    } else {
      var init := more[..|more| - 1];
      assert (rows + more)[..|rows + more| - 1] == rows + init;
      CountErrorAborts(rows, init, count, catalog);
    }
  }

  /**
   * `GetTablesWithRows`: walks the listing, skips system tables, normalises the
   * row counts and attaches both relation lists; a failed listing or a failed
   * precise count returns the error and no tables.
   */
  method GetTablesWithRows(listing: Result<seq<CatalogRow>>, count: string -> Result<int>, catalog: seq<RelationRaw>)
    returns (r: Result<seq<Table>>)
    ensures listing.Err? ==> r == Err(listing.error)
    ensures listing.Ok? ==> r == Collected(listing.value, count, catalog)
  {
    if listing.Err? {
      return Err(listing.error);
    }
    var rows := listing.value;
    var tables: seq<Table> := [];
    for i := 0 to |rows|
      invariant Collected(rows[..i], count, catalog) == Ok(tables)
    {
      assert rows[..i + 1][..i] == rows[..i];
      var row := rows[i];
      if row.Unscannable? || HasPrefix(row.relname, "pg_") {
        continue;
      }
      var n := row.reltuples;
      if n == -1 {
        n := 0;
      }
      if n == 0 {
        var counted := count(row.relname);
        if counted.Err? {
          CountErrorAborts(rows[..i + 1], rows[i + 1..], count, catalog);
          assert rows[..i + 1] + rows[i + 1..] == rows;
          return Err(counted.error);
        }
        n := counted.value;
      }
      var relations := GetRelations(row.relname, catalog);
      var requiredBy := GetRequiredBy(row.relname, catalog);
      tables := tables + [Table(row.relname, n, relations, requiredBy)];
    }
    assert rows[..|rows|] == rows;
    return Ok(tables);
  }
}
