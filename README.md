# pg_subsetter decision logic in Dafny

pg_subsetter copies a consistent subset of a PostgreSQL database into another
database. It lists the tables of the source with their row estimates and
foreign keys, scales every row count to a target, picks the tables a subset can
start from, and copies them. Each copied table drags in the rows of the tables
it depends on, so that every foreign key in the destination points at a row
that is there. This project models the decision logic between the database
round trips and proves what that logic promises:

- **Relation catalog** (`relations.dfy`, module `Relations`): foreign keys as
  the catalog lists them; the parser that reads the key column, the referenced
  table and the referenced column out of the constraint definition text (the
  regular expression `FOREIGN KEY \((\w+)\) REFERENCES (\w+)\((\w+)\).*`,
  leftmost match); and the two per-table filters over the catalog.
- **Dependency ordering** (`graph.dfy`, module `Graph`): the graph built one
  edge per relation that is not self-related, its topological sort from a root
  and the in-place reversal, so that every table comes after the tables it
  references and the root comes last.
- **Relational copy** (`copy.dfy`, module `Copy`): the traversal that copies a
  table's dependencies in order. It keeps a shared list of visited tables and a
  shared depth counter, and narrows each copy to the rows whose keys point at
  parent rows already in the destination. A parent without rows is backfilled
  first, and a copy that fails with a foreign-key violation (SQLSTATE 23503) is
  retried through a fresh traversal. The two databases are one abstract object:
  the keys the destination returns for each key query, the key queries that
  fail, and the reply to each copy request. Every copy request is recorded in a
  log, and the properties are stated over that log.
- **Rules and query text** (`rule.dfy`, `sync.dfy`, `query.dfy`): the rule whose
  query builder narrows its own condition in place, the older by-value rule,
  the key-column lookup for included rows, the choice of starting tables, the
  exclude filter, the treatment of failed inserts of related tables, the
  query that selects the rows to copy, and the normalisation of the table
  listing.
- **Row targets** (`info.dfy`): every table with its scaled row count.
- **Command-line rules** (`cli_extra.dfy`, `cli_force.dfy`): the `table: where`
  arguments of the `-include`/`-exclude` and `-force` flags, appended to the
  flag's list.

`outcomes.dfy` holds the `Option`/`Result` wrappers and the error values:

- a database error with its SQLSTATE code;
- a plain failure message;
- a wrapped error (`errors.Wrapf`);
- a runtime panic, which is returned as a value here.

`text.dfy` holds the parts of Go's `strings` and `fmt` packages that the code
relies on: `TrimSpace` with Go's white-space set, `SplitN(s, ":", 2)`,
`SplitAfter`, `Join`, `HasPrefix` and `%d`.

Some of the source's behaviour may look unintended. The model keeps it as
written and proves it:

- **Backfill never retries.** The depth counter is incremented before the
  retry test `depth < 1`. Starting from any non-negative depth, a parent with
  no keys therefore ends in "Max depth reached" after its backfill. It never
  yields a clause (`Copy.Traversal.RelatedQueriesBuilder`).
- **A failed copy is always an error.** It is reported as one even when the
  re-entry after a foreign-key violation succeeds (`Copy.Traversal.CopyAndRetry`).
- **`Rule.Query` is not idempotent.** It narrows the rule's own condition, so
  a second call with ids adds a second `NOT IN` clause
  (`Rules.NarrowingAccumulates`).
- **`-force` keeps the colon.** The table piece keeps its colon, and text after
  a second colon is dropped (`CliForce.ParseForceRoundTrip`,
  `CliForce.ParseForceDropsThirdPiece`).
- **`GetRequiredBy` mixes its sources.** It selects rows by the catalog's
  referenced table, but the parent it reports comes from the definition text
  (`Relations.RequiredByParentComesFromText`).

The source files come from different revisions. Two names are defined twice,
and each definition gets its own module:

- `Rule` is declared in both `subsetter/sync.go` and `subsetter/rule.go`. The
  by-value one is `Sync.Rule`; the class, whose `Query` updates `Where`, is
  `Rules.Rule`.
- `copyTableData` appears in both `subsetter/copy.go` and `subsetter/sync.go`.
  Only the copy.go version is modelled.

The type the `-force` flag fills is not defined in any of the files. It is
modelled as `CliForce.Force`, with the two fields the flag sets.

## Model

| member | source | states |
|---|---|---|
| `Relations.Relation.Query` | subsetter/relations.go:29-36 | with no values the key list is empty: `... WHERE <column> IN ()` |
| `Relations.RelationRaw.ToRelation` | subsetter/relations.go:50-61 | the owner is always the catalog's; the other three fields are all empty exactly when the text holds no match |
| `Relations.WordEnd` | subsetter/relations.go:52 | `\w+` at a position: the end of the longest run of word characters, with a non-word character or the end of the text after it |
| `Relations.WordThen` | subsetter/relations.go:52 | a found word is non-empty and the literal after it fits in the text |
| `Relations.FindFrom` | subsetter/relations.go:52-53 | the leftmost match: none at any earlier position, and none at all when it returns nothing |
| `Relations.WordEndAt` | subsetter/relations.go:52 | a word followed by a non-word character is exactly what `\w+` takes there |
| `Relations.WordThenAt` | subsetter/relations.go:52 | a word followed by a literal that starts with a non-word character is found, ending where the word ends |
| `Relations.DefinitionLayout` | subsetter/relations.go:52 | every piece of the engine's printed definition sits where the pattern expects it, whatever follows |
| `Relations.ParentAt` | subsetter/relations.go:52 | `t(k)` with word captures yields the referenced table and column |
| `Relations.WordThenSound` | subsetter/relations.go:52 | what is found is a word at the position, with the literal right after it |
| `Relations.ParentFromSound` | subsetter/relations.go:52 | the referenced table and column found are words laid out as `t(k)` from the position |
| `Relations.ColumnFromSound` | subsetter/relations.go:52 | the three captures found are words, laid out as `c) REFERENCES t(k)` from the position |
| `Relations.MatchAtSound` | subsetter/relations.go:52 | a match at a position has word captures, laid out there exactly as the pattern demands |
| `Relations.MatchLaidOutAtExactly` | subsetter/relations.go:52-53 | the pattern is laid out at a position, with word captures, exactly when the parser matches there |
| `Relations.FindForeignKeyLeftmost` | subsetter/relations.go:52-53 | the parser returns some captures exactly when the pattern is laid out with those word captures at a position with no layout before it |
| `Relations.LaidOutMatches` | subsetter/relations.go:52-58 | text laid out as the pattern, with word captures, matches at its first character with exactly those captures |
| `Relations.ToRelationRoundTrip` | subsetter/relations.go:50-61 | parsing `FOREIGN KEY (c) REFERENCES t(k)` plus any suffix gives back `c`, `t` and `k`, with the owner from the catalog row |
| `Relations.NoKeywordNoColumns` | subsetter/relations.go:51-60 | a definition with no match still yields a relation, with only its owner set |
| `Relations.CataloguedAppend` | subsetter/relations.go:101-118 | the catalog filter keeps order: filtering a concatenation concatenates the filtered parts |
| `Relations.CataloguedMembers` | subsetter/relations.go:101-118 | a relation is returned exactly when it is the conversion of a catalog row the filter selects |
| `Relations.OwnedRelationsBelongToTable` | subsetter/relations.go:101-108 | every relation GetRelations returns is owned by the requested table |
| `Relations.RequiredByParentComesFromText` | subsetter/relations.go:111-118 | GetRequiredBy selects by the catalog's referenced table, but the parent it reports is read from the text and can differ |
| `Relations.GetRelations` | subsetter/relations.go:101-108 | the loop returns the conversions of the rows the table owns, in catalog order |
| `Relations.GetRequiredBy` | subsetter/relations.go:111-118 | the loop returns the conversions of the rows that reference the table, in catalog order |
| `Graph.Successors` | subsetter/graph.go:31 | one step of reachability: every target of an edge leaving the set, and only edge targets |
| `Graph.ReachFrom` | subsetter/graph.go:31 | the tables reachable from a set: they include the set and no edge leaves them |
| `Graph.Reach` | subsetter/graph.go:31 | the tables reachable from the root hold the root and no edge leaves them |
| `Graph.ReachFromLeast` | subsetter/graph.go:31 | reachability adds nothing outside any edge-closed superset |
| `Graph.ReachLeast` | subsetter/graph.go:31 | the reachable tables are the least edge-closed set holding the root |
| `Graph.Reversed` | subsetter/graph.go:35 | the same length, with position `i` holding the element `i` places from the end |
| `Graph.ReversedTwice` | subsetter/graph.go:35 | reversing twice gives the list back |
| `Graph.ReversedSameMembers` | subsetter/graph.go:35 | reversing keeps the same tables |
| `Graph.SortReversedIsDependencyOrder` | subsetter/graph.go:31-35 | a list is a topological order from the root (root first) exactly when its reversal is a dependency order (root last) |
| `Graph.RootWithoutEdges` | subsetter/graph.go:31-35 | a root that is the source of no edge has exactly one order: itself alone |
| `Graph.NoOrderWithRootPredecessor` | subsetter/graph.go:31-34 | an edge into the root from a reachable table rules out every order |
| `Graph.EarliestIn` | subsetter/graph.go:31 | the earliest position holding a member of the set |
| `Graph.StuckBreaksOrder` | subsetter/graph.go:31-34 | when every remaining table has a remaining predecessor, any listing of the reachable tables breaks some edge |
| `Graph.NoOrderWhenStuck` | subsetter/graph.go:31-34 | then no topological order from the root exists |
| `Graph.Unblocked` | subsetter/graph.go:31 | a remaining table with no remaining predecessor, or evidence that every one has one |
| `Graph.PlaceNext` | subsetter/graph.go:31 | placing a table with no remaining predecessor keeps the placed tables duplicate-free, edges forward and predecessors first |
| `Graph.DepGraph.AddEdge` | subsetter/graph.go:25 | the graph gains exactly that edge; adding it twice changes nothing |
| `Graph.DepGraph.TopSort` | subsetter/graph.go:31-34 | Ok: the root first, each reachable table once, every edge forward; Err: the cycle error, and no such order exists |
| `Graph.ReverseInPlace` | subsetter/graph.go:35 | the array afterwards holds its old contents reversed |
| `Graph.ForwardEdgesMembers` | subsetter/graph.go:23-30 | TableGraph has an edge exactly for each relation between two different tables, owner to referenced table |
| `Graph.BackwardEdgesMirror` | subsetter/graph.go:53-60 | RequiredTableGraph has exactly TableGraph's edges, reversed |
| `Graph.NoSelfEdges` | subsetter/graph.go:24 | neither graph has an edge from a table to itself |
| `Graph.SortedDependencies` | subsetter/graph.go:20-37 | after the edge loop, sort and reversal: a dependency order over the edges built, or the cycle error when none exists |
| `Graph.TableGraph` | subsetter/graph.go:20-37 | Ok: each table reachable from the primary once, each after the tables it references, the primary last; Err: the cycle error, and no such order exists |
| `Graph.RequiredTableGraph` | subsetter/graph.go:50-67 | the same over the reversed edges |
| `Graph.TableGraphOfUnrelatedRoot` | subsetter/graph_test.go:44-48 | a table that owns no relation is ordered alone, so the list ends in it |
| `Query.Table.RelationNames` | subsetter/query.go:22-28 | one name per relation, in order |
| `Query.Table.IsSelfRelated` | subsetter/query.go:31-38 | true exactly when some relation of the table is self-related |
| `Query.RelationNamesDecode` | subsetter/query.go:22-28 | each name splits at its first `>` into the owner and the key column when the owner holds no `>` |
| `Query.TableByName` | subsetter/query.go:41-45 | the first table of that name; the zero table when there is none |
| `Query.CopySelect` | subsetter/query.go:155-164 | `order by random()` appears exactly when there is a filter; the limit is appended as given |
| `Query.NormalisedRows` | subsetter/query.go:68-79 | an estimate of -1 or 0 is replaced by the precise count (which may fail); any other estimate is kept |
| `Query.CollectedTables` | subsetter/query.go:59-88 | every table returned comes from a listed row, never has a `pg_` name, carries the normalised count and the catalog's relations, and owns each of its relations |
| `Query.ListedRows` | subsetter/query.go:59-66 | a row is kept exactly when it is in the listing, was scanned and has no `pg_` name |
| `Query.CollectedComplete` | subsetter/query.go:59-90 | a successful listing yields one table per listed row, in listing order, each with that row's name, normalised count and the catalog's relations |
| `Query.CountErrorAborts` | subsetter/query.go:74-78 | a failed precise count aborts the whole listing, whatever rows follow |
| `Query.GetTablesWithRows` | subsetter/query.go:48-94 | a failed listing is returned; otherwise the loop yields the listing's tables, or the first count error and no tables |
| `Copy.SelectionFilter` | subsetter/copy.go:17-20 | empty exactly when there are no related clauses; otherwise it starts with `WHERE ` |
| `Copy.SelectionFilterAppend` | subsetter/copy.go:17-20 | one more clause extends the filter by ` AND ` and the clause |
| `Copy.LimitClause` | subsetter/copy.go:22-25 | a `LIMIT ` clause exactly when a limit is asked for |
| `Copy.KeyFiltersAppend` | subsetter/copy.go:82-83 | the clause for the next relation, on its key column with non-empty keys, extends the list of clauses |
| `Copy.KeyFilterMatchesRelationQuery` | subsetter/copy.go:79-82 | the appended clause selects the rows the relation's own query selects |
| `Copy.Database.Lookup` | subsetter/query.go:97-110 | a key query fails exactly when it is a failing one; otherwise the destination's keys, none when it holds none |
| `Copy.Database.Copy` | subsetter/copy.go:27-35 | one request logged with its outcome; the destination's keys change only when it succeeds |
| `Copy.CopyTableData` | subsetter/copy.go:15-38 | exactly one request, with the selection filter and a limit only when asked, logged; the keys change only on success |
| `Copy.SucceededThen` | subsetter/copy.go:119-129 | successful unlimited requests followed by a well-behaved stretch stay well behaved |
| `Copy.KeyViolationThen` | subsetter/copy.go:129-134 | a request that failed with 23503 may be followed by a well-behaved stretch |
| `Copy.FreshNamesThen` | subsetter/copy.go:105-112 | names new to the visited list followed by names new to the grown list are together new to the original list, so a table is recorded at most once |
| `Copy.CoveredKept` | subsetter/copy.go:105-112 | a covered prefix of the order stays covered when more names are visited |
| `Copy.CoveredGrows` | subsetter/copy.go:105-112 | the covered prefix of the order grows by one once its next name is visited or names no table |
| `Copy.VisitsGrow` | subsetter/copy.go:107-112 | visiting more names never leaves more tables unvisited |
| `Copy.VisitsGrowStrictly` | subsetter/copy.go:107-112 | visiting a new table name leaves strictly fewer unvisited, so the traversal ends |
| `Copy.Traversal.RelationalCopy` | subsetter/copy.go:89-141 | visited only grows, by names new to it (`FreshNames`); no request carries a limit; only a 23503 failure is followed by more requests; on success every table reachable from the start is visited or unknown; with no dependency order, the sort error and nothing visited or copied; conversely an error with nothing visited is that sort error, and then no dependency order exists |
| `Copy.Traversal.VisitAll` | subsetter/copy.go:105-138 | visited grows by new names only; on success every name of the order is visited or names no table, and every request succeeded; on an error there is a position `stop` whose name was not visited before, every earlier name is covered, and the table of `order[stop]` was visited in this call, so something was visited |
| `Copy.Traversal.VisitTable` | subsetter/copy.go:107-136 | the resolved name (empty for an unknown table) is recorded first, and every name recorded is new to the visited list; on success the last request copies that table, unlimited, filtered by one key clause per relation |
| `Copy.Traversal.BuildAndCopy` | subsetter/copy.go:116-136 | a build error is the returned error, with clauses for only a prefix of the relations; without one, the request at `copyAt` follows only successful ones and copies the table, unlimited, with one key clause per relation, and it fails exactly when the returned error is set; when every relation's keys are already in the destination (`KeysPresent`), the build cannot fail and the copy is the first request |
| `Copy.Traversal.CopyAndRetry` | subsetter/copy.go:129-136 | one unlimited copy with the selection filter; any failure is reported wrapped with the table name, even when the 23503 re-entry succeeds; a 23503 failure, and only that, leads to a re-entry; after a successful re-entry every table reachable from the related table is visited or unknown and the original failure is reported; a failed re-entry's error is reported, and if it visited nothing it is the sort error of a table with no dependency order |
| `Copy.Traversal.BuildRelatedQueries` | subsetter/copy.go:116-123 | on success one key clause per relation, in order, and the depth back at 0; on an error, clauses for only a strict prefix of the relations; when every relation's keys are already in the destination, success with nothing visited, nothing copied and the keys unchanged |
| `Copy.Traversal.RelatedQueriesBuilder` | subsetter/copy.go:40-87 | keys found: success, those keys returned, exactly one clause appended, depth 0, and nothing visited or copied; a lookup error is returned with nothing changed; no keys from a non-negative depth: "Max depth reached" or the wrapped backfill error, and the clauses unchanged; when it is "Max depth reached", the backfill ran first, so every table reachable from the parent is visited or unknown |
| `Rules.NarrowingAccumulates` | subsetter/rule.go:28-33 | narrowing only appends a conjunct, so a second call with ids adds a second `NOT IN` clause and `Query` is not idempotent |
| `Rules.NarrowingWithoutIds` | subsetter/rule.go:24-28 | without ids or without a condition the condition is left as it was |
| `Rules.FirstTo` | subsetter/rule.go:39-48 | the first position whose relation points at the table, or none exactly when no relation does |
| `Rules.KeyColumn` | subsetter/rule.go:37-50 | the key column of a relation pointing at the table, RequiredBy searched before Relations; a panic exactly when neither has one |
| `Rules.RequiredByWins` | subsetter/rule.go:39-43 | the first RequiredBy entry pointing at the table wins over every Relations entry |
| `Rules.RelationsFallback` | subsetter/rule.go:44-48 | with no RequiredBy entry pointing at the table, the first Relations entry pointing there gives the key column |
| `Rules.GetPrimaryKeyNameRel` | subsetter/rule.go:37-50 | the two search loops return the key column, or panic when neither finds one |
| `Rules.IncludeSelectIsRelationQuery` | subsetter/rule.go:52-61 | with values, the included query on a relation's own key is that relation's query |
| `Rules.Rule.String` | subsetter/rule.go:19-21 | the text splits back at its first colon into the table and the condition when the table holds no colon |
| `Rules.Rule.Query` | subsetter/rule.go:23-35 | the table never changes; the condition is narrowed in place by the ids only when both are non-empty; the query is the by-value rule's query of the new state |
| `Rules.Rule.QueryInclude` | subsetter/rule.go:52-64 | the key column is resolved first, so a missing one panics even with nothing included; otherwise the table's rows whose key takes an included value, or every row |
| `Sync.Rule.Query` | subsetter/sync.go:34-39 | every row exactly when the condition is empty, otherwise the rows it selects |
| `Sync.StringSplitsBack` | subsetter/sync.go:30-32 | the text of a rule whose table holds no colon splits back into the rule |
| `Sync.Populated` | subsetter/sync.go:115 | exactly the input tables with at least one row |
| `Sync.Parents` | subsetter/sync.go:125-129 | exactly the owners of the table's relations that are other tables |
| `Sync.DependentsMembers` | subsetter/sync.go:118-130 | a name is a dependent exactly when a relation held by a differently named table has it as owner |
| `Sync.Unrelated` | subsetter/sync.go:132-134 | exactly the tables whose names are not in the list |
| `Sync.ViableMembers` | subsetter/sync.go:112-134 | a table is kept exactly when it is an input table, has rows, and no differently named table holds a relation it owns |
| `Sync.Swap` | subsetter/sync.go:136-138 | two cells exchanged, contents the same multiset |
| `Sync.InsertionStep` | subsetter/sync.go:136-138 | swapping the misplaced table with a larger one before it moves the gap one step down |
| `Sync.InsertionDone` | subsetter/sync.go:136-138 | once the misplaced table is no smaller than its predecessor, the prefix is sorted |
| `Sync.SortByRelationCount` | subsetter/sync.go:136-138 | sorted by number of relations, fewest first, and a permutation of the input |
| `Sync.DependentNames` | subsetter/sync.go:118-130 | the nested loop collects exactly the dependents, in order |
| `Sync.ViableSubset` | subsetter/sync.go:112-140 | a permutation of the viable tables, ordered by number of relations |
| `Sync.ExcludedTables` | subsetter/sync.go:145-147 | the exclude rules' table names, one per rule, in order |
| `Sync.ExcludedNeverProcessed` | subsetter/sync.go:145-151 | a table is processed exactly when it is an input table and no exclude rule names it |
| `Sync.RelatedInsertError` | subsetter/sync.go:202-212 | an insert error is skipped exactly when it is a 23503 or 23505 violation; any other is returned wrapped with the table name |
| `Info.GetTargetSet` | subsetter/info.go:6-18 | one table per input, in order, same name and relations, the scaled row count and no RequiredBy |
| `Info.TargetLookup` | subsetter/info.go:9-15 | looking a name up in the target set finds the table with the same name and relations as in the input |
| `CliExtra.MaybeAll` | cli/extra.go:32-37 | exactly "all" becomes "1=1"; anything else is kept |
| `CliExtra.ParseExtraShape` | cli/extra.go:16-24 | the table is trimmed and holds no colon; no colon in the value means an empty condition |
| `CliExtra.ParseExtraOfPair` | cli/extra.go:17-23 | `left:right` parses to the trimmed sides with "all" expanded; later colons stay in the condition |
| `CliExtra.ParseExtraRoundTrip` | cli/extra.go:16-28 | the text of a trimmed rule with a colon-free table parses back to the rule |
| `CliExtra.ParseExtraTableOnly` | cli/extra_test.go:18 | a table name alone gives an empty condition |
| `CliExtra.ParseExtraSpaced` | cli/extra_test.go:16 | `table: condition` gives the table and the condition, the space trimmed |
| `CliExtra.ParseExtraAll` | cli/extra_test.go:17 | `table: all` selects every row |
| `CliExtra.ArrayExtra.Set` | cli/extra.go:16-30 | exactly one rule appended, earlier ones unchanged, and no error |
| `CliForce.ParseForce` | cli/force.go:16-22 | an error exactly when the trimmed value has no colon; the table piece ends with its only colon; table and condition together start the trimmed value |
| `CliForce.FirstTwoPieces` | cli/force.go:17-21 | the first two pieces of a split start the whole |
| `CliForce.FirstColon` | cli/force.go:17 | the first colon of `left:right` is the one after `left` |
| `CliForce.SplitAfterOneColon` | cli/force.go:17 | a value with one colon splits into two pieces, the colon kept on the left |
| `CliForce.SplitAfterFirstColon` | cli/force.go:17 | splitting cuts after the first colon, then splits the rest |
| `CliForce.ParseForceOfPair` | cli/force.go:17-22 | `left:right` gives the table `left:` and the condition `right`; only the ends of the whole value are trimmed |
| `CliForce.ParseForceRoundTrip` | cli/force.go:17-22 | the flag text of a rule whose table ends with its only colon parses back to the rule |
| `CliForce.ParseForceDropsThirdPiece` | cli/force.go:17-22 | with a second colon the condition ends at it and the rest is dropped |
| `CliForce.ArrayForce.Set` | cli/force.go:16-24 | exactly one rule appended and no error; a value without a colon appends nothing and returns the panic |
| `Text.TrimSpace` | cli/extra.go:17 | no white space left at either end, and a value without white space at its ends is kept |
| `Text.TrimSpaceInside` | cli/extra.go:17 | the trimmed value is the stretch of the input that starts after the leading white space, with only white space after it, so no character is added |
| `Text.IndexOf` | cli/extra.go:17 | the first position of the character, none exactly when it is absent |
| `Text.SplitFirst` | cli/extra.go:17 | one or two parts, the first without the separator, two exactly when the separator occurs; joined back they give the input |
| `Text.SplitAfter` | cli/force.go:17 | every part but the last ends with its only separator, the last holds none, and together they spell the input |
| `Text.JoinAppend` | subsetter/copy.go:19 | joining one more part adds the separator and the part at the end |
| `Text.QuoteAll` | subsetter/copy.go:79-81 | every item quoted, in input order |

## Left out

- All database I/O through `pgxpool` is outside the model: connecting, `COPY` to and from a buffer, `DELETE`, the key and row-count queries. The copy path is modelled by `Copy.Database`. Its key lookups and copy replies are given as data. `GetTablesWithRows` takes the listing and the precise count as parameters.
- The process-wide relation cache (`sync.Once` and the global pointer in subsetter/relations.go) is not modelled: the catalog is a parameter. The catalog query and its scan loop are left out too.
- `QuoteString` is not part of this model. It is a fixed function that is left uninterpreted.
- The scaling formula of `GetTargetSet` works on floating point numbers. It is the parameter `quota` here, so the truncation that the expected values in subsetter/info_test.go:21-22 reflect (1000 to 31 and 10 to 3 at 0.5) is not stated.
- The topological sort comes from a library that is not part of this model. `Graph.DepGraph.TopSort` is a sort written and proved against the contract its callers rely on. Which of several valid orders the library picks is not modelled. The library's `AddEdge` error return is left out, because adding an edge cannot fail here.
- `Rule.Copy` and `Rule.CopyRelated` (subsetter/rule.go:66-120) are database round trips and are left out.
- The older `copyTableData` of subsetter/sync.go is left out, and so are `NewSync`, `Close` and `Sync`. `CopyTables` is covered by three of its decisions: the exclude filter, the rule query used for forced rows, and the classification of related-insert errors. Its loops of copies, deletes and counts are database I/O.
- The command texts of `DeleteRows`, `CopyQueryToString`, `CopyStringToTable` and `CountRows` (subsetter/query.go:129-193) are fixed texts handed to the database. They are left out with the I/O that sends them; only the query `CopyTableToString` builds is modelled (`Query.CopySelect`).
- Logging is left out throughout, and so are the `String` methods of the flag lists (`fmt` formatting).
- `Relations.Relation.Query`: its contract states only the empty-list case. The general text is tied to the key clause by `Copy.KeyFilterMatchesRelationQuery` and `Rules.IncludeSelectIsRelationQuery`.
- `Relations.Relation.IsSelfRelated` and `Relations.Relation.PrimaryQuery` have no contract of their own. They are one-line predicates and texts, used in the contracts of `Graph.ForwardEdgesMembers`, `Graph.NoSelfEdges` and `Copy.Traversal.RelatedQueriesBuilder`.
- `CliForce.ArrayForce.Set`: the source panics on a value without a colon. Here the panic is returned as an error value and the list is left unchanged.
- `Rules.GetPrimaryKeyNameRel` and `Rules.Rule.QueryInclude`: the panic is returned as an error value.
- `Copy.Traversal.RelationalCopy` and `Copy.Traversal.VisitAll`: the tables are visited in the order `TableGraph` returns, but the contracts do not state this. They state coverage of the reachable tables and the shape of the request log.
- The depth counter and the visited list are fields of one `Copy.Traversal` object rather than pointers passed separately. Aliasing between two traversals is not modelled.
- `Sync.SortByRelationCount`: the order among tables with equal relation counts is not stated. The source's `sort.Slice` is not stable, so it promises none either.
