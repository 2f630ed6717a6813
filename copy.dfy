/**
 * The relational copy (subsetter/copy.go): starting from one table, copy the
 * tables it depends on in dependency order, narrowing each copy to the rows whose
 * foreign keys point at parent rows already in the destination, and backfilling
 * a parent that has no rows there yet.
 *
 * The two databases are one abstract `Database` object: the keys the destination
 * returns for each key query, the key queries that fail, and a reply for each
 * copy request (its outcome and, when it succeeds, the key answers it changes).
 * Every copy request is recorded in `log`, which is what the properties below
 * talk about.
 */
module Copy {

  import opened Outcomes
  import opened Text
  import opened Relations
  import opened Query
  import opened Graph

  // ---------------------------------------------------------------------------
  // Query assembly (copyTableData)

  /** The selection filter: every related clause joined with AND, or nothing. */
  function SelectionFilter(relatedQueries: seq<string>): (f: string)
    ensures f == "" <==> relatedQueries == []
    ensures relatedQueries != [] ==> HasPrefix(f, "WHERE ")
  {
    if |relatedQueries| > 0 then "WHERE " + Join(relatedQueries, " AND ") else ""
  }

  /** A filter with one more clause is the old filter extended by " AND " and the clause. */
  lemma SelectionFilterAppend(relatedQueries: seq<string>, clause: string)
    ensures SelectionFilter(relatedQueries + [clause]) ==
      if relatedQueries == [] then "WHERE " + clause else SelectionFilter(relatedQueries) + " AND " + clause
  {
    if relatedQueries == [] {
      assert relatedQueries + [clause] == [clause];
    } else {
      var joined := Join(relatedQueries, " AND ");
      JoinAppend(relatedQueries, clause, " AND ");
      AppendAssociates("WHERE ", joined + " AND ", clause);
      AppendAssociates("WHERE ", joined, " AND ");
    }
  }

  /** The row limit: present exactly when a limit is asked for. */
  function LimitClause(withLimit: bool, rows: int): (l: string)
    ensures l == "" <==> !withLimit
    ensures withLimit ==> HasPrefix(l, "LIMIT ")
  {
    if withLimit then "LIMIT " + IntToString(rows) else ""
  }

  /** The clause restricting a child table's key column to the parent keys found. */
  function KeyFilter(column: string, keys: seq<string>): string {
    column + " IN (" + QuotedList(keys) + ")"
  }

  /** One clause per relation so far: each restricts that relation's key column to non-empty parent keys. */
  ghost predicate KeyFilters(relations: seq<Relation>, queries: seq<string>, keys: seq<seq<string>>) {
    |queries| == |keys| <= |relations| &&
    forall i :: 0 <= i < |queries| ==>
      |keys[i]| > 0 && queries[i] == KeyFilter(relations[i].PrimaryColumn, keys[i])
  }

  /** The clause for the next relation extends the list. */
  lemma KeyFiltersAppend(relations: seq<Relation>, queries: seq<string>, keys: seq<seq<string>>, found: seq<string>)
    requires KeyFilters(relations, queries, keys) && |queries| < |relations| && |found| > 0
    ensures KeyFilters(relations, queries + [KeyFilter(relations[|queries|].PrimaryColumn, found)], keys + [found])
  {
    var q, k := queries + [KeyFilter(relations[|queries|].PrimaryColumn, found)], keys + [found];
    forall i | 0 <= i < |q|
      ensures |k[i]| > 0 && q[i] == KeyFilter(relations[i].PrimaryColumn, k[i])
    {
      if i < |queries| {
        assert q[i] == queries[i] && k[i] == keys[i];
      }
    }
  }

  /** The clause selects the same rows of the owning table as the relation's own query. */
  lemma KeyFilterMatchesRelationQuery(relation: Relation, keys: seq<string>)
    ensures relation.Query(keys) == "SELECT * FROM " + relation.PrimaryTable + " WHERE " + KeyFilter(relation.PrimaryColumn, keys)
  {
  }

  // ---------------------------------------------------------------------------
  // The databases

  /** One copy request: the table, its filter, its limit and how it ended. */
  datatype Attempt = Attempt(table: string, filter: string, limit: string, outcome: Option<Error>)
  {
    function Query(): string {
      CopySelect(table, limit, filter)
    }
  }

  /** What the databases do with one copy request. */
  datatype CopyReply = CopyReply(outcome: Option<Error>, loaded: map<string, seq<string>>)

  class Database {
    /** The keys the destination returns for each key query (none when absent). */
    var keys: map<string, seq<string>>
    /** Every copy request so far, oldest first. */
    var log: seq<Attempt>
    /** Key queries that fail, with their error. */
    const failing: map<string, Error>
    /** The reply to each copy query. */
    const reply: string -> CopyReply

    constructor(keys: map<string, seq<string>>, failing: map<string, Error>, reply: string -> CopyReply)
      ensures this.keys == keys && this.failing == failing && this.reply == reply && log == []
    {
      this.keys := keys;
      this.failing := failing;
      this.reply := reply;
      log := [];
    }

    /** `GetKeys`: the key column values the destination holds for a key query. */
    function Lookup(q: string): (r: Result<seq<string>>)
      reads this
      ensures r.Err? <==> q in failing
      ensures r.Ok? ==> r.value == (if q in keys then keys[q] else [])
    {
      if q in failing then Err(failing[q]) else Ok(if q in keys then keys[q] else [])
    }

    /** Copies the rows a query selects from the source into the destination. */
    method Copy(table: string, filter: string, limit: string) returns (outcome: Option<Error>)
      modifies this
      ensures outcome == reply(CopySelect(table, limit, filter)).outcome
      ensures log == old(log) + [Attempt(table, filter, limit, outcome)]
      ensures outcome.None? ==> keys == old(keys) + reply(CopySelect(table, limit, filter)).loaded
      ensures outcome.Some? ==> keys == old(keys)
    {
      var r := reply(CopySelect(table, limit, filter));
      outcome := r.outcome;
      log := log + [Attempt(table, filter, limit, outcome)];
      if outcome.None? {
        keys := keys + r.loaded;
      }
    }
  }

  /**
   * `copyTableData`: one copy request for the table, filtered by the related
   * clauses and limited to the table's row count only when asked.
   */
  method CopyTableData(db: Database, table: Table, relatedQueries: seq<string>, withLimit: bool) returns (err: Option<Error>)
    modifies db
    ensures db.log == old(db.log) + [Attempt(table.Name, SelectionFilter(relatedQueries), LimitClause(withLimit, table.Rows), err)]
    ensures err == db.reply(db.log[|db.log| - 1].Query()).outcome
    ensures err.None? ==> db.keys == old(db.keys) + db.reply(db.log[|db.log| - 1].Query()).loaded
    ensures err.Some? ==> db.keys == old(db.keys)
  {
    var subSelectQuery := "";
    if |relatedQueries| > 0 {
      subSelectQuery := "WHERE " + Join(relatedQueries, " AND ");
    }
    var limit := "";
    if withLimit {
      limit := "LIMIT " + IntToString(table.Rows);
    }
    err := db.Copy(table.Name, subSelectQuery, limit);
  }

  // ---------------------------------------------------------------------------
  // Properties of a stretch of copy requests

  /** Every request of the stretch succeeded. */
  ghost predicate Succeeded(attempts: seq<Attempt>) {
    forall i :: 0 <= i < |attempts| ==> attempts[i].outcome.None?
  }

  /** A failed request is followed by further requests only when it failed with a foreign-key violation. */
  ghost predicate StopsAfterFailure(attempts: seq<Attempt>) {
    forall i :: 0 <= i < |attempts| - 1 && attempts[i].outcome.Some? ==>
      HasPgCode(attempts[i].outcome.value, ForeignKeyViolation)
  }

  /** No request of the stretch carries a row limit. */
  ghost predicate Unlimited(attempts: seq<Attempt>) {
    forall i :: 0 <= i < |attempts| ==> attempts[i].limit == ""
  }

  /** A run of successful requests followed by a well-behaved stretch is well behaved. */
  lemma SucceededThen(done: seq<Attempt>, next: seq<Attempt>)
    requires Unlimited(done) && Succeeded(done)
    requires Unlimited(next) && StopsAfterFailure(next)
    ensures Unlimited(done + next) && StopsAfterFailure(done + next)
    ensures Succeeded(next) ==> Succeeded(done + next)
  {
    assert forall i :: |done| <= i < |done + next| ==> (done + next)[i] == next[i - |done|];
  }

  /** A request that failed with a foreign-key violation may be followed by a well-behaved stretch. */
  lemma KeyViolationThen(failed: Attempt, next: seq<Attempt>)
    requires failed.limit == "" && failed.outcome.Some? && HasPgCode(failed.outcome.value, ForeignKeyViolation)
    requires Unlimited(next) && StopsAfterFailure(next)
    ensures Unlimited([failed] + next) && StopsAfterFailure([failed] + next)
  {
    assert forall i :: 1 <= i < |[failed] + next| ==> ([failed] + next)[i] == next[i - 1];
  }

  /** Each of the first `k` names of `order` is visited or names no table. */
  ghost predicate Covered(tables: seq<Table>, order: seq<string>, k: nat, visited: seq<string>)
    requires k <= |order|
  {
    forall j :: 0 <= j < k ==> order[j] in visited || TableByName(tables, order[j]) == ZeroTable
  }

  /** The names of the first `k` positions stay covered when more names are visited. */
  lemma CoveredGrows(tables: seq<Table>, order: seq<string>, k: nat, before: seq<string>, added: seq<string>)
    requires k < |order|
    requires Covered(tables, order, k, before)
    requires order[k] in before + added || TableByName(tables, order[k]) == ZeroTable
    ensures Covered(tables, order, k + 1, before + added)
  {
  }

  /** The destination already holds parent keys for every relation. */
  ghost predicate KeysPresent(db: Database, relations: seq<Relation>)
    reads db
  {
    forall r :: r in relations ==> db.Lookup(r.PrimaryQuery()).Ok? && |db.Lookup(r.PrimaryQuery()).value| > 0
  }

  /**
   * Every table name in `added` was not visited before, and is recorded once:
   * already visited names are skipped. Only the zero table's "" can repeat.
   */
  ghost predicate FreshNames(before: seq<string>, added: seq<string>) {
    forall i :: 0 <= i < |added| && added[i] != "" ==> added[i] !in before && added[i] !in added[..i]
  }

  /** Fresh names followed by names fresh after them are fresh together. */
  lemma FreshNamesThen(before: seq<string>, first: seq<string>, second: seq<string>)
    requires FreshNames(before, first) && FreshNames(before + first, second)
    ensures FreshNames(before, first + second)
  {
    var all := first + second;
    forall i | 0 <= i < |all| && all[i] != ""
      ensures all[i] !in before && all[i] !in all[..i]
    {
      if i < |first| {
        assert all[..i] == first[..i];
      } else {
        var j := i - |first|;
        assert all[i] == second[j];
        assert all[..i] == first + second[..j];
        assert second[j] !in before + first;
      }
    }
  }

  /** Names already covered stay covered whatever is visited next. */
  lemma CoveredKept(tables: seq<Table>, order: seq<string>, k: nat, before: seq<string>, added: seq<string>)
    requires k <= |order| && Covered(tables, order, k, before)
    ensures Covered(tables, order, k, before + added)
  {
    forall j | 0 <= j < k && order[j] in before
      ensures order[j] in before + added
    {
      var i :| 0 <= i < |before| && before[i] == order[j];
      assert (before + added)[i] == order[j];
    }
  }

  function Min(a: int, b: int): int {
    if a <= b then a else b
  }

  /** The error returned when a parent still has no keys after its backfill. */
  const MaxDepth := Failure("Max depth reached")

  /** Visiting more names leaves no more of `universe` unvisited. */
  lemma VisitsGrow(universe: set<string>, before: seq<string>, added: seq<string>)
    ensures |universe - (set v | v in before + added)| <= |universe - (set v | v in before)|
  {
    SubsetSmaller(universe - (set v | v in before + added), universe - (set v | v in before));
  }

  /** Visiting a new name of `universe` leaves strictly fewer unvisited. */
  lemma VisitsGrowStrictly(universe: set<string>, before: seq<string>, name: string)
    requires name in universe && name !in before
    ensures |universe - (set v | v in before + [name])| < |universe - (set v | v in before)|
  {
    var left := universe - (set v | v in before);
    assert universe - (set v | v in before + [name]) <= left - {name};
    SubsetSmaller(universe - (set v | v in before + [name]), left - {name});
  }

  /**
   * The state `relationalCopy` and `relatedQueriesBuilder` share through
   * pointers: the recursion depth counter and the visited table names, with the
   * table list and the databases they work on.
   *
   * Every method below also returns, as ghost results, the names it added to
   * `visited` and the copy requests it added to the log.
   */
  class Traversal {
    const tables: seq<Table>
    const db: Database
    var depth: int
    var visited: seq<string>

    constructor(tables: seq<Table>, db: Database, depth: int)
      ensures this.tables == tables && this.db == db && this.depth == depth && visited == []
    {
      this.tables := tables;
      this.db := db;
      this.depth := depth;
      visited := [];
    }

    /** Every name a visit can record: the table names and the zero table's "". */
    function Universe(): set<string> {
      (set t | t in tables :: t.Name) + {""}
    }

    function Unvisited(): nat
      reads this
    {
      |Universe() - (set v | v in visited)|
    }

    /** 0 for a table with no relations that is already visited: copying it again visits nothing. */
    function Rank(t: Table): nat
      reads this
    {
      if |t.Relations| == 0 && t.Name in visited then 0 else 1
    }

    /**
     * `relationalCopy`: orders the tables reachable from `table` by dependency
     * and visits those not visited yet; a cycle aborts before anything is visited.
     */
    method RelationalCopy(table: Table) returns (err: Option<Error>, ghost added: seq<string>, ghost attempts: seq<Attempt>)
      modifies this, db
      decreases Unvisited(), Rank(table), 2
      ensures visited == old(visited) + added && FreshNames(old(visited), added)
      ensures db.log == old(db.log) + attempts
      ensures depth >= Min(old(depth), 0)
      ensures Unlimited(attempts) && StopsAfterFailure(attempts)
      ensures err.None? ==> Succeeded(attempts)
      ensures err.None? ==> forall n :: n in Reach(ForwardEdges(table.Relations), table.Name) ==>
        n in visited || TableByName(tables, n) == ZeroTable
      ensures (forall l :: !IsDependencyOrder(ForwardEdges(table.Relations), table.Name, l)) ==>
        err == Some(Wrapped("Error sorting tables from graph", CycleError)) &&
        added == [] && attempts == [] && depth == old(depth) && db.keys == old(db.keys)
      ensures err.Some? && added == [] ==>
        err == Some(Wrapped("Error sorting tables from graph", CycleError)) &&
        forall l :: !IsDependencyOrder(ForwardEdges(table.Relations), table.Name, l)
    {
      var relatedTables := TableGraph(table.Name, table.Relations);
      if relatedTables.Err? {
        assert visited == visited + [] && db.log == db.log + [];
        return Some(Wrapped("Error sorting tables from graph", relatedTables.error)), [], [];
      }
      var order := relatedTables.value;
      if |table.Relations| == 0 {
        TableGraphOfUnrelatedRoot(table.Name, table.Relations);
      }
      ghost var stop;
      err, added, attempts, stop := VisitAll(order, Rank(table));
      if err.None? {
        forall n | n in Reach(ForwardEdges(table.Relations), table.Name)
          ensures n in visited || TableByName(tables, n) == ZeroTable
        {
          assert n in (set x | x in order);
          var j :| 0 <= j < |order| && order[j] == n;
        }
      }
    }

    /** The loop of `relationalCopy`: every name of `order` not visited yet is visited, in order. */
    method VisitAll(order: seq<string>, ghost rank: nat)
      returns (err: Option<Error>, ghost added: seq<string>, ghost attempts: seq<Attempt>, ghost stop: nat)
      requires rank == 0 ==> forall n :: n in order ==> n in visited
      modifies this, db
      decreases Unvisited(), rank, 1
      ensures visited == old(visited) + added && FreshNames(old(visited), added)
      ensures db.log == old(db.log) + attempts
      ensures depth >= Min(old(depth), 0)
      ensures Unlimited(attempts) && StopsAfterFailure(attempts)
      ensures err.None? ==> Succeeded(attempts)
      ensures err.None? ==> Covered(tables, order, |order|, visited)
      ensures err.Some? ==>
        stop < |order| && order[stop] !in old(visited) && Covered(tables, order, stop, visited) &&
        added != [] && TableByName(tables, order[stop]).Name in added
    {
      added, attempts, stop := [], [], 0;
      for k := 0 to |order|
        invariant visited == old(visited) + added && FreshNames(old(visited), added)
        invariant db.log == old(db.log) + attempts
        invariant depth >= Min(old(depth), 0)
        invariant Unlimited(attempts) && Succeeded(attempts)
        invariant Covered(tables, order, k, visited)
        invariant rank == 0 ==> forall n :: n in order ==> n in visited
      {
        var tableName := order[k];
        if tableName in visited {
          continue;
        }
        ghost var before := visited;
        ghost var more, tried, relatedQueries, parentKeys;
        VisitsGrow(Universe(), old(visited), added);
        err, more, tried, relatedQueries, parentKeys := VisitTable(tableName);
        SucceededThen(attempts, tried);
        AppendAssociates(old(visited), added, more);
        FreshNamesThen(old(visited), added, more);
        AppendAssociates(old(db.log), attempts, tried);
        added, attempts := added + more, attempts + tried;
        if err.Some? {
          CoveredKept(tables, order, k, before, more);
          assert TableByName(tables, order[k]).Name == added[|added| - |more|];
          return err, added, attempts, k;
        }
        CoveredGrows(tables, order, k, before, more);
      }
      return None, added, attempts, 0;
    }

    /**
     * One pass of `relationalCopy`'s loop: the table of that name (the zero
     * table when there is none) is recorded as visited, its related clauses are
     * built, and it is copied without a row limit. A copy that fails with a
     * foreign-key violation is retried once through a fresh `relationalCopy` of
     * the same table, and the copy error is returned either way.
     */
    method VisitTable(tableName: string)
      returns (err: Option<Error>, ghost added: seq<string>, ghost attempts: seq<Attempt>,
               ghost relatedQueries: seq<string>, ghost parentKeys: seq<seq<string>>)
      requires tableName !in visited
      modifies this, db
      decreases Unvisited(), 1, 0
      ensures visited == old(visited) + added && FreshNames(old(visited), added)
      ensures added != [] && added[0] == TableByName(tables, tableName).Name
      ensures db.log == old(db.log) + attempts
      ensures depth >= Min(old(depth), 0)
      ensures Unlimited(attempts) && StopsAfterFailure(attempts)
      ensures err.None? ==> Succeeded(attempts)
      ensures err.None? ==> attempts != []
      ensures err.None? ==> attempts[|attempts| - 1] == Attempt(TableByName(tables, tableName).Name, SelectionFilter(relatedQueries), "", None)
      ensures err.None? ==> |relatedQueries| == |TableByName(tables, tableName).Relations|
      ensures err.None? ==> KeyFilters(TableByName(tables, tableName).Relations, relatedQueries, parentKeys)
    {
      var relatedTable := TableByName(tables, tableName);
      visited := visited + [relatedTable.Name];
      if relatedTable != ZeroTable {
        VisitsGrowStrictly(Universe(), old(visited), relatedTable.Name);
      }
      VisitsGrow(Universe(), old(visited), [relatedTable.Name]);
      ghost var more;
      ghost var buildErr, copyAt;
      err, more, attempts, relatedQueries, parentKeys, buildErr, copyAt := BuildAndCopy(relatedTable);
      assert FreshNames(old(visited), [relatedTable.Name]);
      AppendAssociates(old(visited), [relatedTable.Name], more);
      FreshNamesThen(old(visited), [relatedTable.Name], more);
      added := [relatedTable.Name] + more;
    }

    /**
     * The rest of one pass, once the table is recorded as visited: its related
     * clauses are built, then it is copied; a failure to build stops the pass.
     */
    method BuildAndCopy(relatedTable: Table)
      returns (err: Option<Error>, ghost added: seq<string>, ghost attempts: seq<Attempt>,
               ghost relatedQueries: seq<string>, ghost parentKeys: seq<seq<string>>,
               ghost buildErr: Option<Error>, ghost copyAt: nat)
      requires relatedTable.Name in visited
      modifies this, db
      decreases Unvisited(), if |relatedTable.Relations| == 0 then 0 else 3, 4
      ensures visited == old(visited) + added && FreshNames(old(visited), added)
      ensures db.log == old(db.log) + attempts
      ensures depth >= Min(old(depth), 0)
      ensures Unlimited(attempts) && StopsAfterFailure(attempts)
      ensures err.None? ==> Succeeded(attempts)
      ensures err.None? ==> attempts != []
      ensures err.None? ==> attempts[|attempts| - 1] == Attempt(relatedTable.Name, SelectionFilter(relatedQueries), "", None)
      ensures err.None? ==> |relatedQueries| == |relatedTable.Relations|
      ensures err.None? ==> KeyFilters(relatedTable.Relations, relatedQueries, parentKeys)
      ensures buildErr.Some? ==>
        err == buildErr && |relatedQueries| < |relatedTable.Relations| &&
        KeyFilters(relatedTable.Relations, relatedQueries, parentKeys)
      ensures buildErr.None? ==>
        |relatedQueries| == |relatedTable.Relations| && KeyFilters(relatedTable.Relations, relatedQueries, parentKeys) &&
        copyAt < |attempts| && Succeeded(attempts[..copyAt]) &&
        attempts[copyAt].table == relatedTable.Name && attempts[copyAt].filter == SelectionFilter(relatedQueries) &&
        attempts[copyAt].limit == "" && (attempts[copyAt].outcome.None? <==> err.None?)
      ensures old(KeysPresent(db, relatedTable.Relations)) ==> buildErr.None? && copyAt == 0
    {
      var queries, queriesErr;
      ghost var built;
      queries, queriesErr, parentKeys, added, built := BuildRelatedQueries(relatedTable);
      attempts, relatedQueries, buildErr, copyAt := built, queries, queriesErr, |built|;
      if queriesErr.Some? {
        return queriesErr, added, attempts, relatedQueries, parentKeys, buildErr, copyAt;
      }
      VisitsGrow(Universe(), old(visited), added);
      ghost var retried, copies, reentry;
      err, retried, copies, reentry := CopyAndRetry(relatedTable, queries);
      SucceededThen(built, copies);
      AppendAssociates(old(db.log), built, copies);
      AppendAssociates(old(visited), added, retried);
      FreshNamesThen(old(visited), added, retried);
      added, attempts := added + retried, built + copies;
      assert attempts[..copyAt] == built && attempts[copyAt] == copies[0];
    }

    /**
     * The copy at the end of one pass of `relationalCopy`'s loop: the table is
     * copied without a row limit; when that fails with a foreign-key violation
     * a fresh `relationalCopy` of the same table runs. A failed copy is reported
     * as an error in every case, wrapped with the table name. The ghost result
     * `reentry` is the outcome of that fresh traversal, `None` when there is none.
     */
    method CopyAndRetry(relatedTable: Table, relatedQueries: seq<string>)
      returns (err: Option<Error>, ghost added: seq<string>, ghost attempts: seq<Attempt>, ghost reentry: Option<Option<Error>>)
      requires relatedTable.Name in visited
      modifies this, db
      decreases Unvisited(), Rank(relatedTable), 3
      ensures visited == old(visited) + added && FreshNames(old(visited), added)
      ensures db.log == old(db.log) + attempts
      ensures depth >= Min(old(depth), 0)
      ensures Unlimited(attempts) && StopsAfterFailure(attempts)
      ensures attempts != [] && attempts[0].table == relatedTable.Name
      ensures attempts[0].filter == SelectionFilter(relatedQueries) && attempts[0].limit == ""
      ensures attempts[0].outcome.None? <==> err.None?
      ensures err.None? ==> attempts == [attempts[0]] && added == []
      ensures err.Some? ==> err.value.Wrapped? && err.value.message == "Error copying table " + relatedTable.Name
      ensures err.Some? && !HasPgCode(attempts[0].outcome.value, ForeignKeyViolation) ==>
        err.value.cause == attempts[0].outcome.value && attempts == [attempts[0]] && added == []
      ensures reentry.Some? <==> err.Some? && HasPgCode(attempts[0].outcome.value, ForeignKeyViolation)
      ensures reentry == Some(None) ==>
        err.value.cause == attempts[0].outcome.value &&
        forall n :: n in Reach(ForwardEdges(relatedTable.Relations), relatedTable.Name) ==>
          n in visited || TableByName(tables, n) == ZeroTable
      ensures reentry.Some? && reentry.value.Some? ==> err.value.cause == reentry.value.value
      ensures reentry.Some? && reentry.value.Some? && added == [] ==>
        reentry.value.value == Wrapped("Error sorting tables from graph", CycleError) &&
        forall l :: !IsDependencyOrder(ForwardEdges(relatedTable.Relations), relatedTable.Name, l)
    {
      err := CopyTableData(db, relatedTable, relatedQueries, false);
      ghost var copied := Attempt(relatedTable.Name, SelectionFilter(relatedQueries), "", err);
      added, attempts, reentry := [], [copied], None;
      assert visited == old(visited) + added;
      if err.Some? {
        if HasPgCode(err.value, ForeignKeyViolation) {
          var again;
          ghost var retried, tried;
          again, retried, tried := RelationalCopy(relatedTable);
          KeyViolationThen(copied, tried);
          AppendAssociates(old(db.log), [copied], tried);
          added, attempts, reentry := retried, [copied] + tried, Some(again);
          if again.Some? {
            return Some(Wrapped("Error copying table " + relatedTable.Name, again.value)), added, attempts, reentry;
          }
        }
        return Some(Wrapped("Error copying table " + relatedTable.Name, err.value)), added, attempts, reentry;
      }
    }

    /**
     * The loop of `relationalCopy` over one table's relations: one clause per
     * relation, in order, each on the relation's key column; the first error
     * stops it.
     */
    method BuildRelatedQueries(relatedTable: Table)
      returns (relatedQueries: seq<string>, err: Option<Error>, ghost parentKeys: seq<seq<string>>,
               ghost added: seq<string>, ghost attempts: seq<Attempt>)
      modifies this, db
      decreases Unvisited(), if |relatedTable.Relations| == 0 then 0 else 3, 0
      ensures visited == old(visited) + added && FreshNames(old(visited), added)
      ensures db.log == old(db.log) + attempts
      ensures depth >= Min(old(depth), 0)
      ensures Unlimited(attempts) && StopsAfterFailure(attempts)
      ensures err.None? ==> Succeeded(attempts)
      ensures err.None? ==> |relatedQueries| == |relatedTable.Relations|
      ensures err.None? ==> KeyFilters(relatedTable.Relations, relatedQueries, parentKeys)
      ensures err.None? && relatedTable.Relations != [] ==> depth == 0
      ensures err.Some? ==> |relatedQueries| < |relatedTable.Relations| && KeyFilters(relatedTable.Relations, relatedQueries, parentKeys)
      ensures old(KeysPresent(db, relatedTable.Relations)) ==>
        err.None? && added == [] && attempts == [] && db.keys == old(db.keys)
    {
      relatedQueries, err, parentKeys, added, attempts := [], None, [], [], [];
      for i := 0 to |relatedTable.Relations|
        invariant visited == old(visited) + added && FreshNames(old(visited), added)
        invariant db.log == old(db.log) + attempts
        invariant depth >= Min(old(depth), 0)
        invariant Unlimited(attempts) && Succeeded(attempts)
        invariant |relatedQueries| == i && KeyFilters(relatedTable.Relations, relatedQueries, parentKeys)
        invariant i > 0 ==> depth == 0
        invariant err.None?
        invariant old(KeysPresent(db, relatedTable.Relations)) ==>
          added == [] && attempts == [] && db.keys == old(db.keys)
      {
        var relation := relatedTable.Relations[i];
        var extended;
        ghost var found, more, tried;
        ghost var before := db.Lookup(relation.PrimaryQuery());
        if old(KeysPresent(db, relatedTable.Relations)) {
          assert relation in relatedTable.Relations;
          assert before.Ok? && |before.value| > 0;
        }
        VisitsGrow(Universe(), old(visited), added);
        extended, err, found, more, tried := RelatedQueriesBuilder(relation, relatedQueries);
        SucceededThen(attempts, tried);
        AppendAssociates(old(visited), added, more);
        FreshNamesThen(old(visited), added, more);
        AppendAssociates(old(db.log), attempts, tried);
        added, attempts := added + more, attempts + tried;
        if err.Some? {
          return;
        }
        KeyFiltersAppend(relatedTable.Relations, relatedQueries, parentKeys, found);
        parentKeys := parentKeys + [found];
        relatedQueries := extended;
      }
    }

    /**
     * `relatedQueriesBuilder`: asks the destination for the parent keys of one
     * relation. Keys found: depth back to 0 and one clause appended. No keys:
     * the parent table is backfilled, depth goes up by one, and the lookup is
     * retried only while depth stays below 1.
     */
    method RelatedQueriesBuilder(relation: Relation, relatedQueries: seq<string>)
      returns (extended: seq<string>, err: Option<Error>, ghost found: seq<string>,
               ghost added: seq<string>, ghost attempts: seq<Attempt>)
      modifies this, db
      decreases Unvisited(), 2, 0
      ensures visited == old(visited) + added && FreshNames(old(visited), added)
      ensures db.log == old(db.log) + attempts
      ensures depth >= Min(old(depth), 0)
      ensures Unlimited(attempts) && StopsAfterFailure(attempts)
      ensures err.None? ==> Succeeded(attempts)
      ensures err.Some? ==> extended == relatedQueries
      ensures err.None? ==> depth == 0
      ensures err.None? ==>
        db.Lookup(relation.PrimaryQuery()) == Ok(found) && |found| > 0 &&
        extended == relatedQueries + [KeyFilter(relation.PrimaryColumn, found)]
      ensures old(db.Lookup(relation.PrimaryQuery())).Err? ==>
        err == Some(old(db.Lookup(relation.PrimaryQuery())).error) &&
        added == [] && attempts == [] && depth == old(depth) && db.keys == old(db.keys)
      ensures old(depth) >= 0 && old(db.Lookup(relation.PrimaryQuery())) == Ok([]) ==>
        err == Some(MaxDepth) ||
        (err.Some? && err.value.Wrapped? && err.value.message == "Error copying table " + TableByName(tables, relation.ForeignTable).Name)
      ensures old(db.Lookup(relation.PrimaryQuery())).Ok? && err == Some(MaxDepth) ==>
        depth >= 1 &&
        forall n :: n in Reach(ForwardEdges(TableByName(tables, relation.ForeignTable).Relations), TableByName(tables, relation.ForeignTable).Name) ==>
          n in visited || TableByName(tables, n) == ZeroTable
      ensures old(db.Lookup(relation.PrimaryQuery())).Ok? && |old(db.Lookup(relation.PrimaryQuery())).value| > 0 ==>
        err.None? && found == old(db.Lookup(relation.PrimaryQuery())).value &&
        extended == relatedQueries + [KeyFilter(relation.PrimaryColumn, found)] &&
        depth == 0 && added == [] && attempts == [] && db.keys == old(db.keys)
    {
      var q := relation.PrimaryQuery();
      added, attempts := [], [];
      while true
        invariant visited == old(visited) + added && FreshNames(old(visited), added)
        invariant db.log == old(db.log) + attempts
        invariant depth >= Min(old(depth), 0)
        invariant Unlimited(attempts) && Succeeded(attempts)
        invariant old(depth) >= 0 || q in db.failing ==>
          added == [] && attempts == [] && depth == old(depth) && db.keys == old(db.keys)
        invariant old(db.Lookup(q)).Ok? && |old(db.Lookup(q)).value| > 0 ==>
          added == [] && attempts == [] && depth == old(depth) && db.keys == old(db.keys)
        decreases 1 - depth
      {
        var looked := db.Lookup(q);
        if looked.Err? {
          return relatedQueries, Some(looked.error), [], added, attempts;
        }
        var primaryKeys := looked.value;
        if |primaryKeys| == 0 {
          var missingTable := TableByName(tables, relation.ForeignTable);
          var nested;
          ghost var more, tried;
          VisitsGrow(Universe(), old(visited), added);
          nested, more, tried := RelationalCopy(missingTable);
          SucceededThen(attempts, tried);
          AppendAssociates(old(visited), added, more);
          FreshNamesThen(old(visited), added, more);
          AppendAssociates(old(db.log), attempts, tried);
          added, attempts := added + more, attempts + tried;
          if nested.Some? {
            return relatedQueries, Some(Wrapped("Error copying table " + missingTable.Name, nested.value)), [], added, attempts;
          }
          depth := depth + 1;
          if depth >= 1 {
            return relatedQueries, Some(MaxDepth), [], added, attempts;
          }
        } else {
          depth := 0;
          return relatedQueries + [KeyFilter(relation.PrimaryColumn, primaryKeys)], None, primaryKeys, added, attempts;
        }
      }
    }
  }
}
