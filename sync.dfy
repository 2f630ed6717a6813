/**
 * The table-level synchronisation (subsetter/sync.go): the older by-value
 * `Rule`, the choice of tables a subset starts from, the exclude filter and the
 * treatment of a failed insert of a related table. The database round trips of
 * `CopyTables` are not modelled.
 */
module Sync {

  import opened Outcomes
  import opened Text
  import opened Relations
  import opened Query

  /** A table name with a WHERE condition, taken by value. */
  datatype Rule = Rule(Table: string, Where: string)
  {
    /** "<table>:<where>". */
    function String(): string {
      Table + ":" + Where
    }

    /** Every row of the table, or the rows the condition selects; the rule is not changed. */
    function Query(): (q: string)
      ensures HasPrefix(q, "SELECT * FROM " + Table)
      ensures q == "SELECT * FROM " + Table <==> Where == ""
      ensures Where != "" ==> q == "SELECT * FROM " + Table + " WHERE " + Where
    {
      if Where == "" then "SELECT * FROM " + Table else "SELECT * FROM " + Table + " WHERE " + Where
    }
  }

  /** A string with one colon splits back into its two sides at that colon. */
  lemma {:induction false} SplitAtOnlyColon(left: string, right: string)
    requires ':' !in left
    ensures SplitFirst(left + ":" + right, ':') == [left, right]
  {
    var s := left + ":" + right;
    var r := SplitFirst(s, ':');
    assert s[|left|] == ':';
    assert |r| == 2;
    assert r[0] + ":" + r[1] == s;
    assert |r[0]| == |left| by {
      assert s[|r[0]|] == ':';
      assert ':' !in s[..|left|];
    }
    assert r[0] == s[..|left|] == left;
    assert r[1] == s[|left| + 1..] == right;
  }

  /** The text of a rule whose table holds no colon splits back into the rule. */
  lemma StringSplitsBack(rule: Rule)
    requires ':' !in rule.Table
    ensures SplitFirst(rule.String(), ':') == [rule.Table, rule.Where]
  {
    SplitAtOnlyColon(rule.Table, rule.Where);
  }

  // ---------------------------------------------------------------------------
  // ViableSubset

  /** The tables with at least one row, in input order. */
  function Populated(tables: seq<Table>): (r: seq<Table>)
    ensures forall t :: t in r <==> t in tables && t.Rows > 0
    decreases |tables|
  {
    if tables == [] then []
    else
      var last := tables[|tables| - 1];
      Populated(tables[..|tables| - 1]) + if last.Rows > 0 then [last] else []
  }

  /** The tables `relations` point at, other than `name` itself, in order. */
  function Parents(name: string, relations: seq<Relation>): (r: seq<string>)
    ensures forall n :: n in r <==> n != name && exists rel :: rel in relations && rel.PrimaryTable == n
    decreases |relations|
  {
    if relations == [] then []
    else
      var last := relations[|relations| - 1];
      var init := Parents(name, relations[..|relations| - 1]);
      assert forall rel :: rel in relations <==> rel in relations[..|relations| - 1] || rel == last;
      init + if name != last.PrimaryTable then [last.PrimaryTable] else []
  }

  /** Every name some table's relation gives as owner when the owner is another table. */
  function Dependents(tables: seq<Table>): (r: seq<string>)
    decreases |tables|
  {
    if tables == [] then []
    else Dependents(tables[..|tables| - 1]) + Parents(tables[|tables| - 1].Name, tables[|tables| - 1].Relations)
  }

  /**
   * A name is a dependent exactly when some table holds a relation owned by a
   * table of that name and a different name.
   */
  lemma {:induction false} DependentsMembers(tables: seq<Table>, n: string)
    ensures n in Dependents(tables) <==>
      exists i, rel :: 0 <= i < |tables| && rel in tables[i].Relations && rel.PrimaryTable == n && tables[i].Name != n
    decreases |tables|
  {
    if tables != [] {
      var init := tables[..|tables| - 1];
      DependentsMembers(init, n);
      if n in Dependents(tables) {
        if n !in Dependents(init) {
          var rel :| rel in tables[|tables| - 1].Relations && rel.PrimaryTable == n;
          assert 0 <= |tables| - 1 < |tables|;
        } else {
          var i, rel :| 0 <= i < |init| && rel in init[i].Relations && rel.PrimaryTable == n && init[i].Name != n;
          assert tables[i] == init[i];
        }
      } else {
        forall i, rel | 0 <= i < |tables| && rel in tables[i].Relations && rel.PrimaryTable == n
          ensures tables[i].Name == n
        {
          if i < |init| {
            assert tables[i] == init[i];
          }
        }
      }
    }
  }

  /** The tables of `subset` whose names are not in `related`, in order. */
  function Unrelated(subset: seq<Table>, related: seq<string>): (r: seq<Table>)
    ensures forall t :: t in r <==> t in subset && t.Name !in related
    decreases |subset|
  {
    if subset == [] then []
    else
      var last := subset[|subset| - 1];
      Unrelated(subset[..|subset| - 1], related) + if last.Name !in related then [last] else []
  }

  /** The tables a subset starts from: populated, and not a dependent of another table. */
  function Viable(tables: seq<Table>): seq<Table> {
    Unrelated(Populated(tables), Dependents(tables))
  }

  /**
   * A table is viable exactly when it is one of the input tables, has rows, and
   * no other table holds a relation owned by a table of its name.
   */
  lemma ViableMembers(tables: seq<Table>, t: Table)
    ensures t in Viable(tables) <==>
      t in tables && t.Rows > 0 &&
      forall i, rel :: 0 <= i < |tables| && rel in tables[i].Relations && rel.PrimaryTable == t.Name ==> tables[i].Name == t.Name
  {
    DependentsMembers(tables, t.Name);
  }

  /** Sorted by the number of relations, fewest first. */
  ghost predicate ByRelationCount(s: seq<Table>) {
    forall i, j :: 0 <= i < j < |s| ==> |s[i].Relations| <= |s[j].Relations|
  }

  /** Exchanges two cells; the contents stay the same multiset. */
  method Swap(a: array<Table>, i: nat, j: nat)
    requires i < a.Length && j < a.Length
    modifies a
    ensures a[..] == old(a[..])[i := old(a[j])][j := old(a[i])]
    ensures multiset(a[..]) == multiset(old(a[..]))
  {
    a[i], a[j] := a[j], a[i];
  }

  /** The first `n` tables are in order, except that the one at `hole` may be out of place with those before it. */
  ghost predicate SortedBut(s: seq<Table>, n: nat, hole: int)
    requires n <= |s|
  {
    forall p, q :: 0 <= p < q < n && q != hole ==> |s[p].Relations| <= |s[q].Relations|
  }

  /** Swapping the misplaced table with a bigger one before it moves the hole one step down. */
  lemma InsertionStep(b: seq<Table>, c: seq<Table>, i: nat, j: nat)
    requires 0 < j <= i < |b| && c == b[j - 1 := b[j]][j := b[j - 1]]
    requires |b[j - 1].Relations| > |b[j].Relations|
    requires SortedBut(b, i + 1, j)
    ensures SortedBut(c, i + 1, j - 1)
  {
    forall p, q | 0 <= p < q < i + 1 && q != j - 1
      ensures |c[p].Relations| <= |c[q].Relations|
    {
      if q == j && p < j - 1 {
        assert |b[p].Relations| <= |b[j - 1].Relations|;
      } else if p == j - 1 && q > j {
        assert |b[j].Relations| <= |b[q].Relations|;
      } else if p == j {
        assert |b[j - 1].Relations| <= |b[q].Relations|;
      } else if q != j {
        assert |b[p].Relations| <= |b[q].Relations|;
      }
    }
  }

  /** Once the table at the hole is no smaller than the one before it, the first `i + 1` tables are in order. */
  lemma InsertionDone(s: seq<Table>, i: nat, j: nat)
    requires j <= i < |s| && SortedBut(s, i + 1, j)
    requires j == 0 || |s[j - 1].Relations| <= |s[j].Relations|
    ensures SortedBut(s, i + 1, -1)
  {
    forall p, q | 0 <= p < q < i + 1
      ensures |s[p].Relations| <= |s[q].Relations|
    {
      if q == j && p < j - 1 {
        assert |s[p].Relations| <= |s[j - 1].Relations|;
      }
    }
  }

  /**
   * `sort.Slice` by the number of relations, as an insertion sort in place. The
   * source's sort is not stable, so only the order of the counts is promised.
   */
  method SortByRelationCount(a: array<Table>)
    modifies a
    ensures ByRelationCount(a[..])
    ensures multiset(a[..]) == multiset(old(a[..]))
  {
    for i := 0 to a.Length
      invariant SortedBut(a[..], i, -1)
      invariant multiset(a[..]) == multiset(old(a[..]))
    {
      var j := i;
      while j > 0 && |a[j - 1].Relations| > |a[j].Relations|
        invariant 0 <= j <= i
        invariant multiset(a[..]) == multiset(old(a[..]))
        invariant SortedBut(a[..], i + 1, j)
      {
        ghost var b := a[..];
        Swap(a, j - 1, j);
        InsertionStep(b, a[..], i, j);
        j := j - 1;
      }
      InsertionDone(a[..], i, j);
    }
  }

  /**
   * The loop of `ViableSubset` over the tables with relations: the names their
   * relations give as owner, whenever the owner is another table.
   */
  method DependentNames(tables: seq<Table>) returns (relatedTables: seq<string>)
    ensures relatedTables == Dependents(tables)
  {
    relatedTables := [];
    for i := 0 to |tables|
      invariant relatedTables == Dependents(tables[..i])
    {
      assert tables[..i + 1][..i] == tables[..i];
      var table := tables[i];
      if |table.Relations| == 0 {
        assert Parents(table.Name, table.Relations) == [];
        continue;
      }
      ghost var before := relatedTables;
      for k := 0 to |table.Relations|
        invariant relatedTables == before + Parents(table.Name, table.Relations[..k])
      {
        assert table.Relations[..k + 1][..k] == table.Relations[..k];
        if table.Name != table.Relations[k].PrimaryTable {
          relatedTables := relatedTables + [table.Relations[k].PrimaryTable];
        }
      }
      assert table.Relations[..|table.Relations|] == table.Relations;
    }
    assert tables[..|tables|] == tables;
  }

  /**
   * `ViableSubset`: the populated tables that are not dependents of another
   * table, ordered by their number of relations.
   */
  method ViableSubset(tables: seq<Table>) returns (subset: seq<Table>)
    ensures multiset(subset) == multiset(Viable(tables))
    ensures ByRelationCount(subset)
  {
    var populated := Populated(tables);
    var relatedTables := DependentNames(tables);
    var kept := Unrelated(populated, relatedTables);
    var a := new Table[|kept|](i requires 0 <= i < |kept| => kept[i]);
    assert a[..] == kept;
    SortByRelationCount(a);
    subset := a[..];
  }

  // ---------------------------------------------------------------------------
  // CopyTables

  /** The table names the exclude rules give, in order. */
  function ExcludedTables(exclude: seq<Rule>): (names: seq<string>)
    ensures |names| == |exclude|
    ensures forall i :: 0 <= i < |exclude| ==> names[i] == exclude[i].Table
  {
    seq(|exclude|, i requires 0 <= i < |exclude| => exclude[i].Table)
  }

  /** The tables `CopyTables` goes on to process: those no exclude rule names, in order. */
  function WithoutExcluded(tables: seq<Table>, exclude: seq<Rule>): seq<Table> {
    Unrelated(tables, ExcludedTables(exclude))
  }

  /** A table is processed exactly when it is an input table and no exclude rule names it. */
  lemma ExcludedNeverProcessed(tables: seq<Table>, exclude: seq<Rule>, t: Table)
    ensures t in WithoutExcluded(tables, exclude) <==>
      t in tables && forall i :: 0 <= i < |exclude| ==> exclude[i].Table != t.Name
  {
    var names := ExcludedTables(exclude);
    if t.Name in names {
      var k :| 0 <= k < |names| && names[k] == t.Name;
    }
  }

  /**
   * What becomes of a failed insert of a related table's rows: a foreign-key or
   * unique violation is skipped, any other error is returned with the table
   * named.
   */
  function RelatedInsertError(table: string, err: Option<Error>): (r: Option<Error>)
    ensures err.None? ==> r.None?
    ensures err.Some? ==> (r.None? <==> HasPgCode(err.value, ForeignKeyViolation) || HasPgCode(err.value, UniqueViolation))
    ensures r.Some? ==> r.value.Wrapped? && r.value.message == "Error inserting related table " + table && r.value.cause == err.value
  {
    match err
    case None => None
    case Some(e) =>
      if HasPgCode(e, ForeignKeyViolation) then None
      else if HasPgCode(e, UniqueViolation) then None
      else Some(Wrapped("Error inserting related table " + table, e))
  }
}
