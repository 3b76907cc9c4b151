# graphql-compiler lowering passes, modelled in Dafny

This project models two lowering passes of graphql-compiler. Each turns the
compiler's intermediate representation (IR) into a query for a backend.

**The Cypher step assembler** (`graphql_compiler/compiler/cypher_query.py`, modules `Cypher` and `CypherProperties`)
- `convert_to_cypher_query` walks a flat list of IR blocks once, left to right.
- It cuts the blocks into *steps*:
  - a `QueryRoot` opens the first step; each `Traverse` or `Recurse` opens a later one;
  - `Filter`, `CoerceType` and `MarkLocation` blocks join the open step;
  - `MarkLocation` and `Backtrack` name the location the *next* step links to;
  - `Unfold`, `OutputSource` and `EndOptional` are dropped.
- Each finished step must have one of a few exact block shapes.
- The blocks after `GlobalOperationsStart` must be `[Filter, ConstructResult]` or `[ConstructResult]`.
- Any other input raises. Here that is an `Err` carrying a `MalformedIr` value.
- Two definitions are proved equal:
  - `Convert`, a pure fold over the blocks (`RunSteps`);
  - `ConvertToCypherQuery`, the source's loop.
- `CypherProperties` states the pass declaratively:
  - the step section is cut into *segments*, each starting at an opener (`Segments`);
  - the steps are proved to be built one per segment, in order, each with its link;
  - the pass is proved to succeed exactly under a stated grammar of the IR.

**The SQL tree emitter** (`graphql_compiler/compiler/emit_sql.py`, modules `SqlExpr`, `SqlTree`, `RecursiveClause`, `EmitSql`, `SqlProperties`, `RecursionWalk`)
- A query tree of nodes is rewritten in place. Each node is a `SqlTree.SqlNode` object holding:
  - selections, predicates, recursions and link columns;
  - a recursion-to-column map;
  - a table and a from clause.
- The emitter does four things in turn:
  - it collapses every node's ordinary children into it;
  - it builds a recursive common table expression (CTE) for a `Recurse` node;
  - it wraps the node's query as a CTE;
  - it emits each recursion subtree and joins it back.
- The query-builder calls are constructors of an abstract `SqlExpr.Expr` datatype. Their shape is stated, not their SQL meaning.
- The metadata provider is a record of functions (`SqlExpr.Metadata`).
- Each mutating step is a method on the nodes.
  - It is proved against a function that computes the new node state from the old one.
  - The whole walk is proved against the ghost functions `EmitSql.Collapsed` and `EmitSql.Emitted`. They compute, from the tree before emission, what emission leaves in it.
- `RecursionWalk` adds a small evaluator for the scalar expressions. With it, the recursive CTE's anchor, step and guard are evaluated along one path of keys at a time. This gives what the recursion admits.
  - It is done for the CTE the emitter builds, `RecursiveClause.RecursiveQuery`, whose guard is the source's substring search.
  - It is also done for `RecursiveClause.CorrectedRecursiveQuery`, whose guard is the delimited search of the Findings section.
  - The joins that connect consecutive keys are not evaluated.

## Model

| member | source | states |
|---|---|---|
| Cypher.SupertypesOfExactType | graphql_compiler/compiler/cypher_query.py:48-53 | the required-type set is exactly the singleton `{exact_type}`, so it always contains the exact type |
| Cypher.OnlyElement | graphql_compiler/compiler/cypher_query.py:75 | extraction of a class set's element succeeds exactly when the set has one element, and returns that element |
| Cypher.MakeQueryRootCypherStep | graphql_compiler/compiler/cypher_query.py:83-104 | a root buffer is accepted exactly when its kinds are (QueryRoot, Filter, MarkLocation) or (QueryRoot, MarkLocation) and the start class is a singleton; the step then has the given link, the QueryRoot as step block, the start class as types, the Filter as where-block (none in the two-block shape) and the MarkLocation as as-block |
| Cypher.MakeCypherStep | graphql_compiler/compiler/cypher_query.py:56-80 | a buffer becomes a step exactly when it is open and non-empty, has a root shape (QueryRoot first) or a traversal shape (opener, then CoerceType, optional Filter, MarkLocation), and its type source is a singleton; the step's fields are then fixed by position as in the source |
| Cypher.GlobalOperations | graphql_compiler/compiler/cypher_query.py:167-180 | the global tail is accepted exactly when its kinds are (Filter, ConstructResult) or (ConstructResult); it yields the ConstructResult as output and the Filter as global where-block, or none |
| Cypher.FirstGlobalOperationsStart | graphql_compiler/compiler/cypher_query.py:122-133 | the index the loop breaks at is the first GlobalOperationsStart; no earlier block is one; none means there is no GlobalOperationsStart at all |
| Cypher.ConvertToCypherQuery | graphql_compiler/compiler/cypher_query.py:111-183 | the loop returns exactly the fold specification `Convert`; on success there is at least one step and the folds are those of the fold extractor |
| Cypher.RunStepsErrorPersists | graphql_compiler/compiler/cypher_query.py:134-161 | once the loop has raised on a prefix, later blocks do not change the outcome |
| Cypher.ConvertFailsEarly | graphql_compiler/compiler/cypher_query.py:122-161 | an error raised by the loop at some block before the global operations is the result of the whole conversion |
| Cypher.ConvertAtGlobalOperations | graphql_compiler/compiler/cypher_query.py:163-183 | once the loop reaches the first GlobalOperationsStart, the result is the last step (built from the open buffer) followed by the tail's where-block and output; either failing fails the conversion |
| CypherProperties.SegmentsFollowOpeners | graphql_compiler/compiler/cypher_query.py:134-149 | there is one segment per opener (QueryRoot, Traverse, Recurse), in order, each starting with its opener |
| CypherProperties.RunStepsTracks | graphql_compiler/compiler/cypher_query.py:122-161 | after any block prefix the loop accepts, its variables are tied to the segments: finished steps are built from the closed segments with their links, the buffer holds the kept blocks of the open segment, and the next link is the open segment's last MarkLocation or Backtrack location (when it has one) |
| CypherProperties.RunStepsAccepted | graphql_compiler/compiler/cypher_query.py:122-161 | the loop accepts a step section exactly when the section is in the accepted grammar: no Fold or ConstructResult; no MarkLocation, Filter or CoerceType before the first opener; the first segment starts with the QueryRoot and every later one with a Traverse or Recurse; every closed segment has a step shape |
| CypherProperties.ConvertSteps | graphql_compiler/compiler/cypher_query.py:111-183 | a successful conversion found a GlobalOperationsStart and has one step per segment of the blocks before it; step k is built from segment k's kept blocks and link; the global where-block and output come from the tail; the folds are the extractor's |
| CypherProperties.StepOrderAndLinkage | graphql_compiler/compiler/cypher_query.py:141-151 | on success the step count equals the number of openers before GlobalOperationsStart, and steps follow their openers in order; the first step is a QueryRoot step with no link; each later step opens with a Traverse or Recurse and links to the last MarkLocation or Backtrack location of the segment before it |
| CypherProperties.MakeCypherStepShape | graphql_compiler/compiler/cypher_query.py:56-73 | whether a step can be built depends only on its blocks' shape, not on its link |
| CypherProperties.LastStepIff | graphql_compiler/compiler/cypher_query.py:127-129 | the step built at GlobalOperationsStart succeeds exactly when some segment is open and it has a step shape |
| CypherProperties.ConvertSucceedsIff | graphql_compiler/compiler/cypher_query.py:111-183 | the conversion succeeds exactly when all of these hold: there is a GlobalOperationsStart; the blocks before it are in the accepted grammar; at least one segment exists and every segment has a step shape; the tail has a global-operations shape |
| CypherProperties.DiscardedBlocksAreIgnored | graphql_compiler/compiler/cypher_query.py:154-156 | removing every Unfold, OutputSource and EndOptional block leaves the loop's outcome unchanged |
| CypherProperties.TwoStepExample | graphql_compiler/compiler/cypher_query.py:142-151 | on a root marked at L1, then a Traverse with coercion, filter and mark L2, the result is two steps; the second links to L1, the root's own mark |
| SqlTree.SqlNode.AddRecursiveLinkColumn | graphql_compiler/compiler/emit_sql.py:192 | the column is appended to the link columns and recorded under the key; nothing else changes |
| EmitSql.UpdateTableForBlocks | graphql_compiler/compiler/emit_sql.py:182-184 | every block is pointed at the table, in order; nothing else about a block changes |
| EmitSql.CreateAndReferenceTable | graphql_compiler/compiler/emit_sql.py:147-154 | the returned table is the alias of the node's relation; the node's table and from clause both become it, and its selections and predicates point at it; nothing else changes |
| SqlProperties.ReferencedPointsAtTable | graphql_compiler/compiler/emit_sql.py:147-154 | after the table is created, every selection and predicate keeps its content and points at the new table; counts, recursions and link records are unchanged |
| EmitSql.CreateLinkForRecursion | graphql_compiler/compiler/emit_sql.py:187-199 | the edge's link column is recorded for the recursion, or an unsupported edge shape is reported with the node unchanged |
| EmitSql.CreateLinksForRecursions | graphql_compiler/compiler/emit_sql.py:203-207 | the node ends in the state `Linked` gives, with a link recorded for each recursion in order; otherwise the first failure is reported |
| EmitSql.LinkedFailsEarly | graphql_compiler/compiler/emit_sql.py:206-207 | a failure to link a prefix of the recursions is the failure of linking them all |
| SqlProperties.LinkForColumn | graphql_compiler/compiler/emit_sql.py:188-199 | the link column is the `BasicEdge`'s source column, or the `MultiEdge`'s junction-hop source column; any other edge shape is refused |
| SqlProperties.LinkedAccepts | graphql_compiler/compiler/emit_sql.py:187-207 | linking succeeds exactly when every recursion's edge is a basic or multi edge; with no recursions the node is unchanged; a failure names the first unlinkable recursion |
| SqlProperties.LinkedRecords | graphql_compiler/compiler/emit_sql.py:187-207 | after linking, the selections and predicates are unchanged; the link columns are the old ones followed by one column per recursion, in order; each recursion's key maps to its column |
| EmitSql.PullUpNodeBlocks | graphql_compiler/compiler/emit_sql.py:158-164 | the child's selections, predicates, recursions and link columns are appended after the node's, and the child's recursion-to-column entries are merged in; table and from clause are unchanged |
| SqlProperties.PulledUpAppends | graphql_compiler/compiler/emit_sql.py:158-164 | after a pull-up the parent's lists are its old lists followed by the child's; the merged map has both key sets, child entries win and other parent entries stay |
| EmitSql.JoinToNode | graphql_compiler/compiler/emit_sql.py:167-179 | the from clause becomes the old one joined to the child's from clause once per on-clause, in order; nothing else changes |
| SqlProperties.JoinedSpine | graphql_compiler/compiler/emit_sql.py:167-179 | joining a child stacks exactly one join per on-clause on the old from clause; every join is an outer join if the child is optional and an inner join otherwise, always onto the child's from clause |
| EmitSql.CreateQuery | graphql_compiler/compiler/emit_sql.py:247-251 | the query selects exactly the given columns, distinct, from the from clause; it has no where-clause when predicates is none, else the conjunction of the predicates |
| EmitSql.CreateBaseQuery | graphql_compiler/compiler/emit_sql.py:236-244 | the base query selects the metadata column of each selection, then the link columns, and filters by the conjunction of each predicate's condition |
| EmitSql.CreateFinalQuery | graphql_compiler/compiler/emit_sql.py:218-223 | the final query selects the metadata column of each selection from the from clause and has no where-clause |
| EmitSql.Renamed | graphql_compiler/compiler/emit_sql.py:231-233 | each selection is renamed in place, in order |
| EmitSql.WrapQueryAsCte | graphql_compiler/compiler/emit_sql.py:226-233 | the node's table and from clause become the query's CTE; every selection is pointed at it, then renamed; nothing else changes |
| SqlProperties.WrappedPointsAtCte | graphql_compiler/compiler/emit_sql.py:226-233 | after wrapping, table and from clause are the same non-recursive CTE of the query; selection i is the rename of the old selection i pointed at it; all other fields are unchanged |
| RecursiveClause.ChooseColumns | graphql_compiler/compiler/emit_sql.py:63-83 | column choice fails exactly for an edge that is neither a basic nor a multi edge, reporting the unsupported shape |
| SqlProperties.ChooseColumnsOut | graphql_compiler/compiler/emit_sql.py:63-81 | for a direction other than `in`, the columns are: for a basic edge, its own source, sink and base column and its table; for a multi edge, the final hop's source column, the junction hop's sink and source columns, and the junction table |
| SqlProperties.ChooseColumnsSwap | graphql_compiler/compiler/emit_sql.py:69-80 | direction `in` succeeds exactly when any other direction does, and swaps the source and sink columns, keeping the base column and the walked table |
| EmitSql.RecursiveClauseFor | graphql_compiler/compiler/emit_sql.py:62-144 | a successful recursive clause keeps the node's table, selections and recursions and leaves a from clause; its CTE is `RecursiveQuery`, whose step carries the source's substring guard |
| EmitSql.CreateRecursiveClause | graphql_compiler/compiler/emit_sql.py:62-144 | the node ends in the state `RecursiveClauseFor` gives, and the out link column is returned; the step it builds carries the source's substring guard; on an error the node is unchanged, so the combinator is checked before anything is joined |
| SqlProperties.RecursiveClauseAccepts | graphql_compiler/compiler/emit_sql.py:63-137 | the clause is built exactly when the edge is basic or multi, an in link column is given, and the backend's combinator is `union` or `union_all`; the error for each failure is the one checked first (edge shape, then link column, then combinator) |
| SqlProperties.RecursiveClauseShape | graphql_compiler/compiler/emit_sql.py:85-144 | the node gains one inner join of the recursive query on base column = the recursion's source column; the out column is the query's sink column, appended to the link columns and recorded under the query; nothing else changes |
| EmitSql.CollapseChildren | graphql_compiler/compiler/emit_sql.py:49-50 | each child is collapsed in turn into the state `Collapsed` gives it, and the first failure stops the loop |
| EmitSql.AbsorbChildren | graphql_compiler/compiler/emit_sql.py:55-59 | each collapsed child is pulled up and joined in child order, into the state `Absorbed` gives |
| EmitSql.CollapseQueryTree | graphql_compiler/compiler/emit_sql.py:47-59 | collapse leaves the node in the state `Collapsed` gives, computed from the tree before collapse; a failure is reported as the error `Collapsed` gives |
| SqlProperties.AbsorbedOrder | graphql_compiler/compiler/emit_sql.py:55-59 | after absorbing, the selections (and predicates) are the node's own followed by each child's, in child order |
| SqlProperties.CollapsedOrder | graphql_compiler/compiler/emit_sql.py:47-59 | a collapsed node's selections and predicates are its own, pointed at its table, followed by each collapsed child's in child order; its recursions are its own followed by the children's; its from clause stacks each child's joins in child order onto its table |
| SqlProperties.CollapsedLinks | graphql_compiler/compiler/emit_sql.py:52-57 | a collapsed node's link columns are its old ones, then one per own recursion in order, then each collapsed child's |
| SqlProperties.CollapsedCovered | graphql_compiler/compiler/emit_sql.py:52-57 | after collapse every recursion the node holds has a link column recorded under its key |
| SqlProperties.CollapseFailsOnEdge | graphql_compiler/compiler/emit_sql.py:47-59 | collapse can only fail on an unsupported edge shape |
| EmitSql.CollapsedRecursionsOwned | graphql_compiler/compiler/emit_sql.py:161 | the recursions a collapsed node gathers are disjoint subtrees that lie outside its collapsed body |
| EmitSql.RecursionStep | graphql_compiler/compiler/emit_sql.py:15-21 | only a `Recurse` node builds a recursive clause and has an out link column; any other node is left as it is |
| EmitSql.RoundOf | graphql_compiler/compiler/emit_sql.py:37-41 | a round has no outcome exactly when the recursion has no recorded link column (the missing-key lookup) |
| EmitSql.JoinToRecursiveNode | graphql_compiler/compiler/emit_sql.py:210-215 | the from clause gains one inner join onto the recursion's from clause, on the node's in column = the recursion's out column; nothing else changes |
| EmitSql.TraverseRecursion | graphql_compiler/compiler/emit_sql.py:36-43 | one round fails on a missing link or a recursion without an out column; otherwise the recursion is emitted against its link column and joined in; its selections are returned |
| EmitSql.JoinRecursions | graphql_compiler/compiler/emit_sql.py:36-44 | the loop ends in the state the rounds' outcomes give: all joins in order, and selections extended by every recursion's selections in order; the first failure is reported |
| EmitSql.TraversedIsAlong | graphql_compiler/compiler/emit_sql.py:34-44 | the traversal computed from the tree equals the traversal computed from each round's outcome, taken in order |
| EmitSql.TraverseRecursions | graphql_compiler/compiler/emit_sql.py:34-44 | the node's from clause and selections become those `Traversed` gives: each recursion joined in order, and the recursions' selections, in `recursions` order, after the node's own |
| SqlProperties.TraversedAlongSelections | graphql_compiler/compiler/emit_sql.py:34-44 | rounds that all succeed append, to the selections gathered so far, the selections each recursion's emission left, in order |
| SqlProperties.TraversedSelections | graphql_compiler/compiler/emit_sql.py:34-44 | a successful traversal adds exactly the selections of each recursion's emission, in the recursions' order; with `TraverseRecursions` the node ends with its own selections followed by these |
| SqlProperties.TraversedSpine | graphql_compiler/compiler/emit_sql.py:34-44 | traversal joins each recursion onto the from clause by exactly one inner join, in order |
| SqlProperties.EmittedFindsLinks | graphql_compiler/compiler/emit_sql.py:38 | emission never fails on a missing recursion-to-column entry: collapse recorded a link for every recursion |
| SqlProperties.FinishedShape | graphql_compiler/compiler/emit_sql.py:28-31 | the root returns its final query over every selection it ends with, without a where-clause; any other node returns its out column, present exactly for a `Recurse` node; either way the node ends wrapped as a non-recursive CTE, joined to each recursion by one inner join |
| EmitSql.BuildOwnQuery | graphql_compiler/compiler/emit_sql.py:15-25 | the node gets its recursive clause (`Recurse` only), then its base query wrapped as a CTE; an error from the clause is returned |
| EmitSql.FinishQuery | graphql_compiler/compiler/emit_sql.py:15-31 | on a collapsed node, steps 2 to 4 leave the state `Finished` gives and return its emission, or its error |
| EmitSql.QueryTreeToQuery | graphql_compiler/compiler/emit_sql.py:12-31 | emitting a subtree leaves its root in the state `Emitted` gives, computed from the tree before emission, and returns its emission, or its error |
| EmitSql.EmitCodeFromIr | graphql_compiler/compiler/emit_sql.py:7-9 | emission of the whole tree, with no in link column, is `Emitted` of the root |
| RecursionWalk.AnchorRow | graphql_compiler/compiler/emit_sql.py:88-103 | the anchor's row for a key has depth 0 and path `key,` |
| RecursionWalk.StepRow | graphql_compiler/compiler/emit_sql.py:105-121 | a step adds one to the depth and appends `key,` to the path |
| RecursionWalk.GuardAdmits | graphql_compiler/compiler/emit_sql.py:122-128 | the delimited guard of the corrected query admits a step exactly when the depth so far is below the bound and the key is not on the path |
| RecursionWalk.GuardAsWrittenAdmits | graphql_compiler/compiler/emit_sql.py:122-128 | the guard as written admits a step exactly when the depth so far is below the bound and the key's text occurs nowhere in the path's text |
| RecursionWalk.VisitedOccurs | graphql_compiler/compiler/emit_sql.py:125 | the text of a key already on the path occurs in the path's text, so the guard as written refuses every revisit |
| RecursionWalk.AsWrittenWalkStep | graphql_compiler/compiler/emit_sql.py:105-128 | from a row, the emitter's CTE reaches a key exactly when the depth is below the bound and the key's text is not in the path; the new row is one deeper, with `key,` appended |
| RecursionWalk.DelimitedSearch | graphql_compiler/compiler/emit_sql.py:125 | searching for `,key,` in `,` + path finds the key exactly when it is one of the path's keys |
| RecursionWalk.RecursiveWalk | graphql_compiler/compiler/emit_sql.py:85-137 | for the corrected CTE, and for a key sequence whose consecutive keys the step's join connects (the join is not evaluated): the path is produced exactly when it has at most depth-bound steps and visits no key twice; its row then has the step count as depth and the keys, each followed by a comma, as path |
| RecursionWalk.AsWrittenWalkSound | graphql_compiler/compiler/emit_sql.py:85-137 | for the CTE the emitter builds, and for a key sequence whose consecutive keys the step's join connects (the join is not evaluated): a path it produces has at most depth-bound steps and visits no key twice; its row has the step count as depth and the keys, each followed by a comma, as path |
| RecursionWalk.AsWrittenWalkRefusesAcyclicPath | graphql_compiler/compiler/emit_sql.py:122-128 | the CTE the emitter builds does not produce the repeat-free path 11, 1 within the bound; the corrected CTE does |
| RecursionWalk.GuardAsWrittenRefusesUnvisited | graphql_compiler/compiler/emit_sql.py:122-128 | the guard as written refuses key 1 after a path through key 11, which the delimited guard admits |

## Left out

- The query-builder library is modelled as constructors of `SqlExpr.Expr`: `select`, `alias`, `.c[...]`, `label`, `join`, `outerjoin`, `cte`, `cast`, `concat`, `case` and `contains`. No SQL semantics are modelled, except the scalar evaluator in `RecursionWalk`.
  - Two aliases of the same table are equal values here. In the builder they are distinct objects.
- `label(None)` gets a name chosen by the builder. It is modelled as `AnonymousName`.
- The metadata provider and the backend's combinator are uninterpreted functions and a string. The provider is handed a node in the source; here it is keyed by the node's location.
- `hasattr(recursive_cte, combinator)` is modelled as membership in {`union`, `union_all`}. These are the set operations a recursive CTE offers.
- `SqlNode.add_recursive_link_column` is not part of this model. `SqlTree.SqlNode.AddRecursiveLinkColumn` assumes it appends the column to `link_columns` and records it in `recursion_to_column`.
- The tree builder that creates the nodes is not part of this model.
  - `SqlTree.SqlNode.Valid` states what emission relies on: children and recursion subtrees are disjoint.
  - `SqlTree.SqlNode.Pristine` states that each node still holds the recursions it was built with.
- Selection blocks are values. In the source, `block.table = table` and `selection.rename()` change shared objects. Aliasing between nodes' selection lists is not modelled.
- `selection.rename()` is an uninterpreted function of the block.
- `location_to_selectable` is created and passed along but never read, so it is left out.
- On an error the source raises and leaves the tree half-updated. The methods report the error as a value. What they leave behind on error is stated only where it matters (`EmitSql.CreateRecursiveClause`, `EmitSql.CreateLinkForRecursion`).
- The source's failures are error values of `SqlExpr.EmitError` and `Cypher.MalformedIr`:
  - an `AssertionError` on an edge shape or combinator;
  - a `KeyError` on a recursion without a link;
  - an `AttributeError` on a missing link column.
- `RecursionWalk` evaluates the recursive CTE one path of keys at a time. It does not model the CTE's row sets, `DISTINCT`, or `UNION` against `UNION ALL`.
  - The anchor's join with the distinct parent links (emit_sql.py:97-101) is not evaluated. Neither is the step's join of the recursive table to the previous level (emit_sql.py:118-120). A path is any sequence of keys, taken as connected.
  - Key text is decimal for integers and the text itself for strings.
  - The `contains` test is substring search; `LIKE` wildcards inside keys are not modelled.
- RecursiveWalk: completeness (every bounded, repeat-free path is produced) is proved only for `RecursiveClause.CorrectedRecursiveQuery`. The CTE the emitter builds refuses some such paths (see Findings).
- AsWrittenWalkSound: for the CTE the emitter builds, only soundness is proved: a produced path is bounded and repeat-free.
- `extract_folds_from_ir_blocks` is not part of this model. It is a parameter returning the folds and the remaining blocks.
- `get_only_element_from_collection` is not part of this model. `Cypher.OnlyElement` raises unless the set has exactly one element, and the conversion's result covers that error path.
- `query_metadata_table` and `type_equivalence_hints` are not read by the modelled code, so they are not parameters.
- The `CypherQuery` and `CypherStep` records are datatypes. The error messages the source formats are replaced by the offending blocks.
- A block list with a `Traverse`, `MarkLocation`, `Filter` or `CoerceType` before any `QueryRoot` makes the source fail on its empty (`None`) buffer. This is modelled as the error `NoOpenStep`, or `NoStepBlocks` where a step is to be built from the absent buffer (a `Traverse` or `Recurse`, or `GlobalOperationsStart` with no step open).

Two behaviours of the code worth noting:
- The root's own `MarkLocation` links the second step (`CypherProperties.TwoStepExample`).
- `Backtrack` and the discarded blocks are accepted before the `QueryRoot`.

## Findings

| source | as written | input that shows it | evidently intended | confidence | as-written member | corrected member |
|---|---|---|---|---|---|---|
| graphql_compiler/compiler/emit_sql.py:122-128 | the cycle guard refuses a key when the path text contains the key's text as a substring | after visiting key 11 the path is `11,`; key 1 is not on it, but `11,` contains `1`, so the step to key 1 is refused | a key is refused only when it is already on the path: search `,key,` in `,` + path | not executed | RecursiveClause.RecursiveQuery, RecursionWalk.AsWrittenWalkRefusesAcyclicPath | RecursiveClause.CorrectedRecursiveQuery, RecursionWalk.RecursiveWalk |
