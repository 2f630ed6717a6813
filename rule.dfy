/**
 * Table rules (subsetter/rule.go): a table name with a WHERE condition, whose
 * query builder narrows the condition in place, and the lookup of the key column
 * that ties a table to a related one. The database round trips of `Copy` and
 * `CopyRelated` are not modelled.
 */
module Rules {

  import opened Outcomes
  import opened Text
  import opened Relations
  import opened Query
  import Sync

  /** The condition that selects every row. */
  const RuleAll := "1=1"

  /** The condition `Query` leaves in the rule: narrowed by the excluded ids when there are some. */
  function NarrowedWhere(where: string, exclude: seq<string>): string {
    if where == "" || exclude == [] then where else where + " AND id NOT IN (" + QuotedList(exclude) + ")"
  }

  /**
   * Narrowing only ever adds a conjunct at the end, so applying it twice with
   * ids adds two clauses: `Query` is not idempotent.
   */
  lemma NarrowingAccumulates(where: string, first: seq<string>, second: seq<string>)
    requires where != "" && first != [] && second != []
    ensures HasPrefix(NarrowedWhere(where, first), where)
    ensures |NarrowedWhere(where, first)| > |where|
    ensures NarrowedWhere(NarrowedWhere(where, first), second) ==
      where + " AND id NOT IN (" + QuotedList(first) + ")" + " AND id NOT IN (" + QuotedList(second) + ")"
    ensures NarrowedWhere(NarrowedWhere(where, first), first) != NarrowedWhere(where, first)
  {
    assert NarrowedWhere(where, first)[..|where|] == where;
  }

  /** Without ids, or without a condition, narrowing changes nothing. */
  lemma NarrowingWithoutIds(where: string, exclude: seq<string>)
    requires where == "" || exclude == []
    ensures NarrowedWhere(NarrowedWhere(where, exclude), exclude) == NarrowedWhere(where, exclude) == where
  {
  }

  /** The first position whose relation points at `target`. */
  function FirstTo(relations: seq<Relation>, target: string): (r: Option<nat>)
    ensures r.None? <==> forall i :: 0 <= i < |relations| ==> relations[i].ForeignTable != target
    ensures r.Some? ==> r.value < |relations| && relations[r.value].ForeignTable == target
    ensures r.Some? ==> forall j :: 0 <= j < r.value ==> relations[j].ForeignTable != target
    decreases |relations|
  {
    if relations == [] then None
    else if relations[0].ForeignTable == target then Some(0)
    else match FirstTo(relations[1..], target)
      case None => None
      case Some(i) => Some(i + 1)
  }

  /**
   * The key column of `t` that relates it to `relatedTable`: from the first
   * RequiredBy entry pointing there, else from the first such entry of
   * Relations; a panic when neither exists.
   */
  function KeyColumn(t: Table, relatedTable: string): (r: Result<string>)
    ensures r.Err? <==>
      (forall i :: 0 <= i < |t.RequiredBy| ==> t.RequiredBy[i].ForeignTable != relatedTable) &&
      (forall i :: 0 <= i < |t.Relations| ==> t.Relations[i].ForeignTable != relatedTable)
    ensures r.Err? ==> r.error == Panic("No primary key found for table " + t.Name)
    ensures r.Ok? ==>
      (exists i :: 0 <= i < |t.RequiredBy| && t.RequiredBy[i].ForeignTable == relatedTable && r.value == t.RequiredBy[i].PrimaryColumn) ||
      (exists i :: 0 <= i < |t.Relations| && t.Relations[i].ForeignTable == relatedTable && r.value == t.Relations[i].PrimaryColumn)
  {
    match FirstTo(t.RequiredBy, relatedTable)
    case Some(i) => Ok(t.RequiredBy[i].PrimaryColumn)
    case None =>
      match FirstTo(t.Relations, relatedTable)
      case Some(i) => Ok(t.Relations[i].PrimaryColumn)
      case None => Err(Panic("No primary key found for table " + t.Name))
  }

  /** An entry of RequiredBy pointing at the table wins over any entry of Relations. */
  lemma RequiredByWins(t: Table, relatedTable: string, i: nat)
    requires i < |t.RequiredBy| && t.RequiredBy[i].ForeignTable == relatedTable
    requires forall j :: 0 <= j < i ==> t.RequiredBy[j].ForeignTable != relatedTable
    ensures KeyColumn(t, relatedTable) == Ok(t.RequiredBy[i].PrimaryColumn)
  {
    var k := FirstTo(t.RequiredBy, relatedTable);
    assert k.Some?;
    assert k.value == i;
  }

  /**
   * With no RequiredBy entry pointing at the table, the first entry of
   * Relations pointing there gives the key column.
   */
  lemma RelationsFallback(t: Table, relatedTable: string, i: nat)
    requires forall j :: 0 <= j < |t.RequiredBy| ==> t.RequiredBy[j].ForeignTable != relatedTable
    requires i < |t.Relations| && t.Relations[i].ForeignTable == relatedTable
    requires forall j :: 0 <= j < i ==> t.Relations[j].ForeignTable != relatedTable
    ensures KeyColumn(t, relatedTable) == Ok(t.Relations[i].PrimaryColumn)
  {
    var k := FirstTo(t.Relations, relatedTable);
    assert k.Some?;
    assert k.value == i;
  }

  /**
   * `GetPrimaryKeyNameRel`: the two searches in order, each stopping at its
   * first match.
   */
  method GetPrimaryKeyNameRel(t: Table, relatedTable: string) returns (r: Result<string>)
    ensures r == KeyColumn(t, relatedTable)
  {
    for i := 0 to |t.RequiredBy|
      invariant forall j :: 0 <= j < i ==> t.RequiredBy[j].ForeignTable != relatedTable
    {
      if t.RequiredBy[i].ForeignTable == relatedTable {
        assert FirstTo(t.RequiredBy, relatedTable) == Some(i);
        return Ok(t.RequiredBy[i].PrimaryColumn);
      }
    }
    for i := 0 to |t.Relations|
      invariant forall j :: 0 <= j < i ==> t.Relations[j].ForeignTable != relatedTable
    {
      if t.Relations[i].ForeignTable == relatedTable {
        assert FirstTo(t.Relations, relatedTable) == Some(i);
        return Ok(t.Relations[i].PrimaryColumn);
      }
    }
    return Err(Panic("No primary key found for table " + t.Name));
  }

  /** The rows of `table` whose key column takes one of the included values, or every row when none are given. */
  function IncludeSelect(table: string, key: string, included: seq<string>): string {
    if included == [] then "SELECT * FROM " + table
    else "SELECT * FROM " + table + " WHERE " + key + " IN (" + QuotedList(included) + ")"
  }

  /** With values, the included query on a relation's own key is the relation's query. */
  lemma IncludeSelectIsRelationQuery(relation: Relation, included: seq<string>)
    requires included != []
    ensures IncludeSelect(relation.PrimaryTable, relation.PrimaryColumn, included) == relation.Query(included)
  {
  }

  class Rule {
    var Table: string
    var Where: string

    constructor(table: string, where: string)
      ensures Table == table && Where == where
    {
      Table := table;
      Where := where;
    }

    /** "<table>:<where>", which splits back into the two fields when the table holds no colon. */
    function String(): (s: string)
      reads this
      ensures ':' !in Table ==> SplitFirst(s, ':') == [Table, Where]
    {
      var s := Table + ":" + Where;
      assert ':' !in Table ==> SplitFirst(s, ':') == [Table, Where] by {
        if ':' !in Table {
          Sync.SplitAtOnlyColon(Table, Where);
        }
      }
      s
    }

    /**
     * The query for the rule's rows. With a condition and ids to exclude, the
     * condition itself is narrowed first and stays narrowed; the table never
     * changes. The query is the one the by-value rule gives for the new state.
     */
    method Query(exclude: seq<string>) returns (q: string)
      modifies this
      ensures Table == old(Table)
      ensures Where == NarrowedWhere(old(Where), exclude)
      ensures q == Sync.Rule(Table, Where).Query()
    {
      if Where == "" {
        return "SELECT * FROM " + Table;
      }
      if |exclude| > 0 {
        var quoted := QuoteAll(exclude);
        Where := Where + " AND id NOT IN (" + Join(quoted, ",") + ")";
      }
      return "SELECT * FROM " + Table + " WHERE " + Where;
    }

    /**
     * `QueryInclude`: the related table's rows whose key column takes one of
     * the included values. The key column is looked up first, so a missing key
     * panics even when nothing is included.
     */
    method QueryInclude(included: seq<string>, relatedTable: Table) returns (q: Result<string>)
      ensures KeyColumn(relatedTable, Table).Err? ==> q == Err(KeyColumn(relatedTable, Table).error)
      ensures KeyColumn(relatedTable, Table).Ok? ==>
        q == Ok(IncludeSelect(relatedTable.Name, KeyColumn(relatedTable, Table).value, included))
    {
      var query := "SELECT * FROM " + relatedTable.Name;
      var relatedTableKey := GetPrimaryKeyNameRel(relatedTable, Table);
      if relatedTableKey.Err? {
        return Err(relatedTableKey.error);
      }
      if |included| > 0 {
        var quoted := QuoteAll(included);
        query := query + " WHERE " + relatedTableKey.value + " IN (" + Join(quoted, ",") + ")";
      }
      return Ok(query);
    }
  }
}
