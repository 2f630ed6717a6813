/**
 * The `-include` / `-exclude` flag values (cli/extra.go): each "table: where"
 * argument becomes one rule appended to the flag's list.
 */
module CliExtra {

  import opened Outcomes
  import opened Text
  import Rules
  import Sync

  /** "all" stands for the condition that selects every row; anything else is kept. */
  function MaybeAll(s: string): (r: string)
    ensures s == "all" ==> r == Rules.RuleAll
    ensures s != "all" ==> r == s
  {
    if s == "all" then Rules.RuleAll else s
  }

  /**
   * The rule one flag value describes: split at the first colon only, both
   * sides trimmed; no colon means an empty condition.
   */
  function ParseExtra(value: string): Sync.Rule {
    var q := SplitFirst(TrimSpace(value), ':');
    var where := if |q| > 1 then TrimSpace(q[1]) else "";
    Sync.Rule(TrimSpace(q[0]), MaybeAll(where))
  }

  /** The table is trimmed and never holds a colon; without a colon the condition is empty. */
  lemma ParseExtraShape(value: string)
    ensures ':' !in ParseExtra(value).Table
    ensures ParseExtra(value).Table == TrimSpace(ParseExtra(value).Table)
    ensures ':' !in TrimSpace(value) ==> ParseExtra(value).Where == ""
  {
    var q := SplitFirst(TrimSpace(value), ':');
    TrimSpaceInside(q[0]);
  }

  /**
   * A value "left:right" whose ends are not white space and whose left side
   * holds no colon parses to the trimmed sides, with "all" expanded; later
   * colons stay in the condition.
   */
  lemma ParseExtraOfPair(left: string, right: string)
    requires ':' !in left
    requires left == [] || !IsSpace(left[0])
    requires right == [] || !IsSpace(right[|right| - 1])
    ensures ParseExtra(left + ":" + right) == Sync.Rule(TrimSpace(left), MaybeAll(TrimSpace(right)))
  {
    var s := left + ":" + right;
    assert s[0] == (if left == [] then ':' else left[0]);
    assert s[|s| - 1] == (if right == [] then ':' else right[|right| - 1]);
    assert TrimSpace(s) == s;
    Sync.SplitAtOnlyColon(left, right);
  }

  /** The text of a rule with trimmed sides, a colon-free table and a condition other than "all" parses back to the rule. */
  lemma ParseExtraRoundTrip(rule: Sync.Rule)
    requires ':' !in rule.Table && rule.Where != "all"
    requires rule.Table == [] || (!IsSpace(rule.Table[0]) && !IsSpace(rule.Table[|rule.Table| - 1]))
    requires rule.Where == [] || (!IsSpace(rule.Where[0]) && !IsSpace(rule.Where[|rule.Where| - 1]))
    ensures ParseExtra(rule.String()) == rule
  {
    ParseExtraOfPair(rule.Table, rule.Where);
  }

  /** A table name alone, with no colon and no surrounding white space: an empty condition. */
  lemma ParseExtraTableOnly(table: string)
    requires ':' !in table
    requires table != [] && !IsSpace(table[0]) && !IsSpace(table[|table| - 1])
    ensures ParseExtra(table) == Sync.Rule(table, "")
  {
    assert SplitFirst(table, ':') == [table];
  }

  /** The usual "table: condition" form: the space after the colon is trimmed away. */
  lemma ParseExtraSpaced(table: string, where: string)
    requires ':' !in table
    requires table != [] && !IsSpace(table[0]) && !IsSpace(table[|table| - 1])
    requires where != [] && !IsSpace(where[0]) && !IsSpace(where[|where| - 1])
    ensures ParseExtra(table + ": " + where) == Sync.Rule(table, MaybeAll(where))
  {
    assert table + ": " + where == table + ":" + (" " + where);
    ParseExtraOfPair(table, " " + where);
    TrimSpaceLeading(" " + where);
    assert (" " + where)[1..] == where;
  }

  /** "table: all" selects every row of the table. */
  lemma ParseExtraAll(table: string)
    requires ':' !in table
    requires table != [] && !IsSpace(table[0]) && !IsSpace(table[|table| - 1])
    ensures ParseExtra(table + ": " + "all") == Sync.Rule(table, Rules.RuleAll)
  {
    ParseExtraSpaced(table, "all");
  }

  /** The list a repeated `-include` or `-exclude` flag fills. */
  class ArrayExtra {
    var rules: seq<Sync.Rule>

    constructor()
      ensures rules == []
    {
      rules := [];
    }

    /** Appends the rule the value describes and never fails. */
    method Set(value: string) returns (err: Option<Error>)
      modifies this
      ensures err == None
      ensures rules == old(rules) + [ParseExtra(value)]
    {
      var q := SplitFirst(TrimSpace(value), ':');
      var table := TrimSpace(q[0]);
      var where := "";
      if |q| > 1 {
        where := TrimSpace(q[1]);
      }
      rules := rules + [Sync.Rule(table, MaybeAll(where))];
      return None;
    }
  }
}
