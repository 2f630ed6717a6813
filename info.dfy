/**
 * Row targets (subsetter/info.go): every table keeps its name and relations and
 * gets a scaled row count. The scaling formula works on floating point numbers
 * and is a parameter here, `quota`, mapping a row count to its target.
 */
module Info {

  import opened Query

  /** `subset` is `tables`, one for one and in order, with scaled rows and no RequiredBy. */
  ghost predicate IsTargetSet(quota: int -> int, tables: seq<Table>, subset: seq<Table>) {
    |subset| == |tables| &&
    forall i :: 0 <= i < |tables| ==>
      subset[i].Name == tables[i].Name && subset[i].Relations == tables[i].Relations &&
      subset[i].Rows == quota(tables[i].Rows) && subset[i].RequiredBy == []
  }

  /** `GetTargetSet`: the tables in order, each with its row target. */
  method GetTargetSet(quota: int -> int, tables: seq<Table>) returns (subset: seq<Table>)
    ensures IsTargetSet(quota, tables, subset)
  {
    subset := [];
    for i := 0 to |tables|
      invariant IsTargetSet(quota, tables[..i], subset)
    {
      var table := tables[i];
      subset := subset + [Table(table.Name, quota(table.Rows), table.Relations, [])];
    }
    assert tables[..|tables|] == tables;
  }

  /**
   * Looking a name up in the target set finds the table of the same name with
   * the same relations, so the copy walks the same graph it would on the
   * original list.
   */
  lemma {:induction false} TargetLookup(quota: int -> int, tables: seq<Table>, subset: seq<Table>, name: string)
    requires IsTargetSet(quota, tables, subset)
    ensures TableByName(subset, name).Name == TableByName(tables, name).Name
    ensures TableByName(subset, name).Relations == TableByName(tables, name).Relations
    decreases |tables|
  {
    if tables != [] && tables[0].Name != name {
      assert IsTargetSet(quota, tables[1..], subset[1..]) by {
        forall i | 0 <= i < |tables| - 1
          ensures subset[1..][i].Name == tables[1..][i].Name && subset[1..][i].Relations == tables[1..][i].Relations
          ensures subset[1..][i].Rows == quota(tables[1..][i].Rows) && subset[1..][i].RequiredBy == []
        {
          assert subset[1..][i] == subset[i + 1] && tables[1..][i] == tables[i + 1];
        }
      }
      TargetLookup(quota, tables[1..], subset[1..], name);
    }
  }
}
