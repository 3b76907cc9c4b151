/**
 * The SQL tree emitter: a post-order walk over the query tree that collapses
 * each node's ordinary children into it, wraps the node as a CTE and then
 * emits and joins its recursion subtrees.
 *
 * Each step of the walk is a method that updates the nodes in place, proved
 * against a function that computes the node's new state from its old one; the
 * whole walk is proved against `Collapsed` and `Emitted`, which compute, from
 * the tree before emission, what every step leaves behind.
 */
module EmitSql {
  import opened Wrappers
  import opened IrBlocks
  import opened SqlExpr
  import opened SqlTree
  import opened RecursiveClause

  /** What emitting a subtree hands back to its caller. */
  datatype Emission =
      /** The root's final statement. */
    | FinalQuery(query: Expr)
      /** A non-root node's out link column (none unless the node is recursive). */
    | RecursionOut(column: Option<Expr>)

  function FailureOf<T>(r: Result<T, EmitError>): (f: Option<EmitError>)
    ensures f.None? <==> r.Ok?
    ensures r.Err? ==> f == Some(r.error)
  {
    if r.Ok? then None else Some(r.error)
  }

  // ----- _update_table_for_blocks

  method UpdateTableForBlocks(table: Expr, blocks: seq<SqlBlock>) returns (updated: seq<SqlBlock>)
    ensures updated == WithTable(blocks, table)
  {
    updated := [];
    var i := 0;
    while i < |blocks|
      invariant 0 <= i <= |blocks|
      invariant updated == WithTable(blocks[..i], table)
    {
      assert blocks[..i + 1][..i] == blocks[..i];
      updated := updated + [blocks[i].(table := Some(table))];
      i := i + 1;
    }
    assert blocks[..i] == blocks;
  }

  // ----- _create_and_reference_table

  /** The fresh alias a node's relation is bound to. */
  function TableFor(node: SqlNode, md: Metadata): Expr
  {
    Alias(md.getTable(node.relation))
  }

  /** A node's state once its table is created and its blocks point at it. */
  function Referenced(st: NodeState, t: Expr): NodeState
  {
    st.(table := Some(t), fromClause := Some(t),
        selections := WithTable(st.selections, t), predicates := WithTable(st.predicates, t))
  }

  method CreateAndReferenceTable(node: SqlNode, md: Metadata) returns (table: Expr)
    modifies node
    ensures table == TableFor(node, md)
    ensures node.State() == Referenced(old(node.State()), table)
  {
    table := Alias(md.getTable(node.relation));
    var selections := UpdateTableForBlocks(table, node.selections);
    var predicates := UpdateTableForBlocks(table, node.predicates);
    node.table, node.fromClause := Some(table), Some(table);
    node.selections, node.predicates := selections, predicates;
  }

  // ----- _create_link_for_recursion, _create_links_for_recursions

  /**
   * The column of `table` that links the node at `location` to `recursion`:
   * the edge's source column, or its junction hop's source column.
   */
  function LinkFor(md: Metadata, location: Location, table: Expr, recursion: SqlNode)
    : Result<Expr, EmitError>
  {
    match md.getEdge(location, recursion.relation)
    case BasicEdge(source, _, _) => Ok(Column(table, Named(source)))
    case MultiEdge(junction, _) => Ok(Column(table, Named(junction.sourceCol)))
    case OtherEdge(_) => Err(UnsupportedEdgeShape(location, recursion.relation))
  }

  /** The link column recorded, under `key`, in a node's state. */
  function WithLink(st: NodeState, key: RecursionKey, column: Expr): NodeState
  {
    st.(linkColumns := st.linkColumns + [column],
        recursionToColumn := st.recursionToColumn[key := column])
  }

  /** A node's state once a link column is recorded for each of `recursions`, in order. */
  function Linked(st: NodeState, location: Location, md: Metadata, recursions: seq<SqlNode>)
    : (r: Result<NodeState, EmitError>)
    requires st.table.Some?
    ensures r.Ok? ==> r.value.table == st.table && r.value.fromClause == st.fromClause
    ensures r.Ok? ==> r.value.recursions == st.recursions
  {
    if recursions == [] then Ok(st)
    else
      var s :- Linked(st, location, md, recursions[..|recursions| - 1]);
      var recursion := recursions[|recursions| - 1];
      var column :- LinkFor(md, location, s.table.value, recursion);
      Ok(WithLink(s, NodeKey(recursion), column))
  }

  /** A failure to link a prefix of the recursions is the failure of linking them all. */
  lemma {:induction false} LinkedFailsEarly(st: NodeState, location: Location, md: Metadata,
                                            recursions: seq<SqlNode>, k: nat)
    requires st.table.Some? && k <= |recursions|
    requires Linked(st, location, md, recursions[..k]).Err?
    ensures Linked(st, location, md, recursions) == Linked(st, location, md, recursions[..k])
    decreases |recursions|
  {
    if k < |recursions| {
      var prefix := recursions[..|recursions| - 1];
      assert prefix[..k] == recursions[..k];
      LinkedFailsEarly(st, location, md, prefix, k);
    } else {
      assert recursions[..k] == recursions;
    }
  }

  method CreateLinkForRecursion(node: SqlNode, recursion: SqlNode, md: Metadata)
    returns (failure: Option<EmitError>)
    requires node.table.Some?
    modifies node
    ensures var link := LinkFor(md, node.location, old(node.table.value), recursion);
      && failure == FailureOf(link)
      && (link.Ok? ==> node.State() == WithLink(old(node.State()), NodeKey(recursion), link.value))
      && (link.Err? ==> node.State() == old(node.State()))
  {
    var edge := md.getEdge(node.location, recursion.relation);
    if edge.BasicEdge? {
      var fromCol := edge.sourceCol;
      var recursionInColumn := Column(node.table.value, Named(fromCol));
      node.AddRecursiveLinkColumn(NodeKey(recursion), recursionInColumn);
      return None;
    } else if edge.MultiEdge? {
      var fromCol := edge.junctionEdge.sourceCol;
      var recursionInColumn := Column(node.table.value, Named(fromCol));
      node.AddRecursiveLinkColumn(NodeKey(recursion), recursionInColumn);
      return None;
    }
    return Some(UnsupportedEdgeShape(node.location, recursion.relation));
  }

  method CreateLinksForRecursions(node: SqlNode, md: Metadata) returns (failure: Option<EmitError>)
    requires node.table.Some?
    modifies node
    ensures var r := Linked(old(node.State()), node.location, md, old(node.recursions));
      failure == FailureOf(r) && (r.Ok? ==> node.State() == r.value)
  {
    if |node.recursions| == 0 {
      return None;
    }
    var recursions := node.recursions;
    var i := 0;
    while i < |recursions|
      invariant 0 <= i <= |recursions|
      invariant node.table == old(node.table) && node.recursions == recursions
      invariant Linked(old(node.State()), node.location, md, recursions[..i]) == Ok(node.State())
    {
      assert recursions[..i + 1][..i] == recursions[..i];
      failure := CreateLinkForRecursion(node, recursions[i], md);
      if failure.Some? {
        LinkedFailsEarly(old(node.State()), node.location, md, recursions, i + 1);
        return;
      }
      i := i + 1;
    }
    assert recursions[..i] == recursions;
    return None;
  }

  // ----- _pull_up_node_blocks

  /** A node's state once a child's state is pulled up into it. */
  function PulledUp(st: NodeState, child: NodeState): NodeState
  {
    st.(selections := st.selections + child.selections,
        predicates := st.predicates + child.predicates,
        recursions := st.recursions + child.recursions,
        recursionToColumn := st.recursionToColumn + child.recursionToColumn,
        linkColumns := st.linkColumns + child.linkColumns)
  }

  method PullUpNodeBlocks(node: SqlNode, child: SqlNode)
    requires node != child
    modifies node
    ensures node.State() == old(node.State()).(
      selections := old(node.selections) + child.selections,
      predicates := old(node.predicates) + child.predicates,
      recursions := old(node.recursions) + child.recursions,
      recursionToColumn := old(node.recursionToColumn) + child.recursionToColumn,
      linkColumns := old(node.linkColumns) + child.linkColumns)
  {
    node.selections := node.selections + child.selections;
    node.predicates := node.predicates + child.predicates;
    node.recursions := node.recursions + child.recursions;
    var pending := child.recursionToColumn.Keys;
    while pending != {}
      invariant pending <= child.recursionToColumn.Keys
      invariant node.State() == old(node.State()).(
        selections := old(node.selections) + child.selections,
        predicates := old(node.predicates) + child.predicates,
        recursions := old(node.recursions) + child.recursions,
        recursionToColumn := node.recursionToColumn)
      invariant node.recursionToColumn == old(node.recursionToColumn) +
        map k | k in child.recursionToColumn.Keys - pending :: child.recursionToColumn[k]
      decreases pending
    {
      var recursion :| recursion in pending;
      node.recursionToColumn := node.recursionToColumn[recursion := child.recursionToColumn[recursion]];
      pending := pending - {recursion};
    }
    assert (map k | k in child.recursionToColumn.Keys :: child.recursionToColumn[k]) == child.recursionToColumn;
    node.linkColumns := node.linkColumns + child.linkColumns;
  }

  // ----- _join_to_node

  function KindFor(inOptional: bool): JoinKind
  {
    if inOptional then OuterJoin else InnerJoin
  }

  /** `from` joined to a child's from clause once per on-clause, in order. */
  function Joined(from: Expr, childFrom: Expr, onclauses: seq<OnClause>, inOptional: bool): Expr
  {
    if onclauses == [] then from
    else
      Join(KindFor(inOptional), Joined(from, childFrom, onclauses[..|onclauses| - 1], inOptional),
           childFrom, onclauses[|onclauses| - 1].onclause)
  }

  method JoinToNode(node: SqlNode, child: SqlNode, md: Metadata)
    requires node != child && node.fromClause.Some? && child.fromClause.Some?
    modifies node
    ensures node.State() == old(node.State()).(fromClause := Some(Joined(
      old(node.fromClause.value), child.fromClause.value, md.onClausesFor(child.location), child.inOptional)))
  {
    var onclauses := md.onClausesFor(child.location);
    var i := 0;
    if child.inOptional {
      while i < |onclauses|
        invariant 0 <= i <= |onclauses|
        invariant node.State() == old(node.State()).(fromClause := Some(Joined(
          old(node.fromClause.value), child.fromClause.value, onclauses[..i], true)))
      {
        assert onclauses[..i + 1][..i] == onclauses[..i];
        node.fromClause := Some(Join(OuterJoin, node.fromClause.value, child.fromClause.value, onclauses[i].onclause));
        i := i + 1;
      }
      assert onclauses[..i] == onclauses;
      return;
    }
    while i < |onclauses|
      invariant 0 <= i <= |onclauses|
      invariant node.State() == old(node.State()).(fromClause := Some(Joined(
        old(node.fromClause.value), child.fromClause.value, onclauses[..i], false)))
    {
      assert onclauses[..i + 1][..i] == onclauses[..i];
      node.fromClause := Some(Join(InnerJoin, node.fromClause.value, child.fromClause.value, onclauses[i].onclause));
      i := i + 1;
    }
    assert onclauses[..i] == onclauses;
  }

  // ----- _create_query, _create_base_query, _create_final_query

  function CreateQuery(fromClause: Expr, columns: seq<Expr>, predicates: Option<seq<Expr>>): (q: Expr)
    ensures q.Select? && q.columns == columns && q.distinct && q.from == Some(fromClause)
    ensures q.where.None? <==> predicates.None?
    ensures predicates.Some? ==> q.where == Some(And(predicates.value))
  {
    var query := Select(columns, true, Some(fromClause), None);
    if predicates.None? then query else query.(where := Some(And(predicates.value)))
  }

  /** The columns of `blocks`, in order. */
  function ColumnsOf(md: Metadata, blocks: seq<SqlBlock>): (cs: seq<Expr>)
    ensures |cs| == |blocks| && forall i :: 0 <= i < |cs| ==> cs[i] == md.columnForBlock(blocks[i])
  {
    seq(|blocks|, i requires 0 <= i < |blocks| => md.columnForBlock(blocks[i]))
  }

  /** The conditions of `predicates` at `location`, in order. */
  function ConditionsOf(md: Metadata, location: Location, predicates: seq<SqlBlock>): (cs: seq<Expr>)
    ensures |cs| == |predicates|
    ensures forall i :: 0 <= i < |cs| ==> cs[i] == md.predicateCondition(location, predicates[i])
  {
    seq(|predicates|, i requires 0 <= i < |predicates| => md.predicateCondition(location, predicates[i]))
  }

  /**
   * A node's own query: its selections' columns followed by its link columns,
   * filtered by the conjunction of its predicates.
   */
  function CreateBaseQuery(location: Location, st: NodeState, md: Metadata): (q: Expr)
    requires st.fromClause.Some?
    ensures q.Select? && q.distinct && q.from == st.fromClause
    ensures q.columns == ColumnsOf(md, st.selections) + st.linkColumns
    ensures q.where == Some(And(ConditionsOf(md, location, st.predicates)))
  {
    CreateQuery(st.fromClause.value, ColumnsOf(md, st.selections) + st.linkColumns,
                Some(ConditionsOf(md, location, st.predicates)))
  }

  /** The root's statement: its selections' columns, with no where-clause. */
  function CreateFinalQuery(st: NodeState, md: Metadata): (q: Expr)
    requires st.fromClause.Some?
    ensures q.Select? && q.distinct && q.from == st.fromClause && q.where.None?
    ensures q.columns == ColumnsOf(md, st.selections)
  {
    CreateQuery(st.fromClause.value, ColumnsOf(md, st.selections), None)
  }

  // ----- _wrap_query_as_cte

  /** Each block as `rename()` leaves it. */
  function Renamed(md: Metadata, blocks: seq<SqlBlock>): (r: seq<SqlBlock>)
    ensures |r| == |blocks| && forall i :: 0 <= i < |r| ==> r[i] == md.rename(blocks[i])
  {
    seq(|blocks|, i requires 0 <= i < |blocks| => md.rename(blocks[i]))
  }

  /** A node's state once `query` is wrapped as its CTE. */
  function Wrapped(st: NodeState, query: Expr, md: Metadata): NodeState
  {
    var cte := Cte(query, false);
    st.(table := Some(cte), fromClause := Some(cte),
        selections := Renamed(md, WithTable(st.selections, cte)))
  }

  method WrapQueryAsCte(node: SqlNode, query: Expr, md: Metadata)
    modifies node
    ensures node.State() == Wrapped(old(node.State()), query, md)
  {
    var cte := Cte(query, false);
    node.fromClause := Some(cte);
    node.table := Some(cte);
    var blocks := UpdateTableForBlocks(cte, node.selections);
    ghost var pointed := blocks;
    var i := 0;
    while i < |blocks|
      invariant 0 <= i <= |blocks| == |pointed|
      invariant forall j :: 0 <= j < i ==> blocks[j] == md.rename(pointed[j])
      invariant forall j :: i <= j < |blocks| ==> blocks[j] == pointed[j]
    {
      blocks := blocks[i := md.rename(blocks[i])];
      i := i + 1;
    }
    assert blocks == Renamed(md, pointed);
    node.selections := blocks;
  }

  // ----- _create_recursive_clause

  /**
   * A recursive node's state once its recursive CTE is joined onto it, and the
   * out link column it hands to its parent. The edge shape is checked first,
   * then the in link column, then the combinator.
   */
  function RecursiveClauseFor(node: SqlNode, st: NodeState, md: Metadata, inColumn: Option<Expr>)
    : (r: Result<(NodeState, Expr), EmitError>)
    requires node.block.Recurse? && st.table.Some? && st.fromClause.Some?
    ensures r.Ok? ==> r.value.0.table == st.table && r.value.0.fromClause.Some?
    ensures r.Ok? ==> r.value.0.recursions == st.recursions && r.value.0.selections == st.selections
  {
    var cols :- ChooseColumns(md, node.location, node.relation, node.block.direction);
    if inColumn.None? then Err(MissingLinkColumn(node.location))
    else if md.recursionCombinator !in CteCombinators then
      Err(UnsupportedRecursionCombinator(md.recursionCombinator))
    else
      var t := st.table.value;
      var q := RecursiveQuery(t, cols, Column(t, NameOf(inColumn.value)), node.block.depth,
                              md.recursionCombinator);
      var out := Label(Column(q, Named(cols.sinkCol)), None);
      var joined := st.(fromClause := Some(Join(InnerJoin, st.fromClause.value, q,
        Eq(Column(t, Named(cols.baseCol)), Column(q, Named(cols.sourceCol))))));
      Ok((WithLink(joined, QueryKey(q), out), out))
  }

  method CreateRecursiveClause(node: SqlNode, md: Metadata, outLinkColumn: Option<Expr>)
    returns (r: Result<Expr, EmitError>)
    requires node.block.Recurse? && node.table.Some? && node.fromClause.Some?
    modifies node
    ensures var s := RecursiveClauseFor(node, old(node.State()), md, outLinkColumn);
      && (s.Err? ==> r == Err(s.error) && node.State() == old(node.State()))
      && (s.Ok? ==> r == Ok(s.value.1) && node.State() == s.value.0)
  {
    var edge := md.getEdge(node.location, node.relation);
    var sourceCol, sinkCol, baseCol, recursiveTable;
    if edge.BasicEdge? {
      sourceCol := edge.sourceCol;
      sinkCol := edge.sinkCol;
      baseCol := sourceCol;
      if node.block.direction == "in" {
        sourceCol, sinkCol := sinkCol, sourceCol;
      }
      recursiveTable := Alias(md.getTable(node.relation));
    } else if edge.MultiEdge? {
      sinkCol := edge.junctionEdge.sinkCol;
      sourceCol := edge.finalEdge.sourceCol;
      baseCol := edge.junctionEdge.sourceCol;
      if node.block.direction == "in" {
        sourceCol, sinkCol := sinkCol, sourceCol;
      }
      recursiveTable := Alias(md.getTableByName(edge.junctionEdge.tableName));
    } else {
      return Err(UnsupportedEdgeShape(node.location, node.relation));
    }
    if outLinkColumn.None? {
      return Err(MissingLinkColumn(node.location));
    }
    var table := node.table.value;
    var cols := RecursionColumns(sourceCol, sinkCol, baseCol, recursiveTable);
    var parentCteColumn := Column(table, NameOf(outLinkColumn.value));
    var recursiveCte := Cte(AnchorQuery(table, cols, parentCteColumn), true);
    var recursiveStep := StepQuery(recursiveCte, cols, GuardAsWritten(recursiveCte, cols, node.block.depth));
    if md.recursionCombinator !in CteCombinators {
      return Err(UnsupportedRecursionCombinator(md.recursionCombinator));
    }
    var recursiveQuery := Combine(md.recursionCombinator, recursiveCte, recursiveStep);
    node.fromClause := Some(Join(InnerJoin, node.fromClause.value, recursiveQuery,
      Eq(Column(table, Named(baseCol)), Column(recursiveQuery, Named(sourceCol)))));
    var outColumn := Label(Column(recursiveQuery, Named(sinkCol)), None);
    node.AddRecursiveLinkColumn(QueryKey(recursiveQuery), outColumn);
    return Ok(outColumn);
  }

  // ----- _collapse_query_tree

  /**
   * A node's state once its children are folded into it: each child's
   * collapsed state pulled up and joined, in child order.
   */
  function Absorbed(st: NodeState, children: seq<SqlNode>, kids: seq<NodeState>, md: Metadata)
    : (r: NodeState)
    requires |children| == |kids| && st.fromClause.Some?
    requires forall k :: k in kids ==> k.fromClause.Some?
    ensures r.table == st.table && r.fromClause.Some?
  {
    if children == [] then st
    else
      var n := |children|;
      var s := Absorbed(st, children[..n - 1], kids[..n - 1], md);
      var child, kid := children[n - 1], kids[n - 1];
      PulledUp(s, kid).(fromClause := Some(Joined(s.fromClause.value, kid.fromClause.value,
                                                  md.onClausesFor(child.location), child.inOptional)))
  }

  /** A node lies outside its children's bodies, which lie inside its own. */
  lemma OutsideChildren(node: SqlNode)
    requires node.Valid()
    ensures node !in BodiesOf(node.childrenNodes) && BodiesOf(node.childrenNodes) <= node.Body
  {
    forall c | c in node.childrenNodes
      ensures node !in c.Body
    {
      assert c.Valid();
    }
  }

  lemma AbsorbedStep(st: NodeState, children: seq<SqlNode>, kids: seq<NodeState>, md: Metadata, j: nat)
    requires |children| == |kids| && j < |kids| && st.fromClause.Some?
    requires forall k :: k in kids ==> k.fromClause.Some?
    ensures var s := Absorbed(st, children[..j], kids[..j], md);
      Absorbed(st, children[..j + 1], kids[..j + 1], md) ==
        PulledUp(s, kids[j]).(fromClause := Some(Joined(s.fromClause.value, kids[j].fromClause.value,
          md.onClausesFor(children[j].location), children[j].inOptional)))
  {
    assert children[..j + 1][..j] == children[..j] && kids[..j + 1][..j] == kids[..j];
  }

  /** What collapsing a node leaves in it, computed from the tree before collapse. */
  ghost function Collapsed(node: SqlNode, md: Metadata): (r: Result<NodeState, EmitError>)
    requires node.Valid()
    reads node.Body
    ensures r.Ok? ==> r.value.table == Some(TableFor(node, md)) && r.value.fromClause.Some?
    decreases node.Repr, 1
  {
    var kids :- CollapsedChildren(node, md, 0);
    var st :- Linked(Referenced(node.State(), TableFor(node, md)), node.location, md, node.recursions);
    Ok(Absorbed(st, node.childrenNodes, kids, md))
  }

  /** The collapsed states of a node's children from the `k`-th on. */
  ghost function CollapsedChildren(node: SqlNode, md: Metadata, k: nat): (r: Result<seq<NodeState>, EmitError>)
    requires node.Valid() && k <= |node.childrenNodes|
    reads node.Body
    ensures r.Ok? ==> |r.value| == |node.childrenNodes| - k
    ensures r.Ok? ==> forall s :: s in r.value ==> s.fromClause.Some?
    decreases node.Repr, 0, |node.childrenNodes| - k
  {
    if k == |node.childrenNodes| then Ok([])
    else
      assert node.childrenNodes[k] in node.childrenNodes;
      var kid :- Collapsed(node.childrenNodes[k], md);
      var rest :- CollapsedChildren(node, md, k + 1);
      Ok([kid] + rest)
  }

  /** `r` with `done` in front of its value. */
  function Preceded<T>(done: seq<T>, r: Result<seq<T>, EmitError>): Result<seq<T>, EmitError>
  {
    if r.Ok? then Ok(done + r.value) else r
  }

  lemma PrecededTwice<T>(a: seq<T>, b: seq<T>, r: Result<seq<T>, EmitError>)
    ensures Preceded(a, Preceded(b, r)) == Preceded(a + b, r)
    ensures Preceded([], r) == r
  {
    if r.Ok? {
      assert [] + r.value == r.value;
      assert a + (b + r.value) == (a + b) + r.value;
    }
  }

  /** A node's children are valid, lie in its body and are apart from each other and from it. */
  lemma ChildApart(node: SqlNode, i: nat)
    requires node.Valid() && i < |node.childrenNodes|
    ensures var c := node.childrenNodes[i];
      c.Valid() && c.Body <= node.Body && c.Repr <= node.Repr && node !in c.Repr && c in c.Body
    ensures forall j :: 0 <= j < |node.childrenNodes| && j != i ==>
      node.childrenNodes[j] in node.childrenNodes[j].Body &&
      node.childrenNodes[j].Body !! node.childrenNodes[i].Body
  {
    var cs := node.childrenNodes;
    assert cs[i] in cs;
    forall j | 0 <= j < |cs| && j != i
      ensures cs[j] in cs[j].Body && cs[j].Body !! cs[i].Body
    {
      assert cs[j] in cs;
      if j < i {
        assert cs[j].Repr !! cs[i].Repr;
      } else {
        assert cs[i].Repr !! cs[j].Repr;
      }
    }
  }

  /** The first failure among `rs`, or all their values in order. */
  function Gather<T>(rs: seq<Result<T, EmitError>>): Result<seq<T>, EmitError>
  {
    if rs == [] then Ok([])
    else if rs[0].Err? then Err(rs[0].error)
    else Preceded([rs[0].value], Gather(rs[1..]))
  }

  /** What collapsing the `j`-th child gives. */
  ghost function Outcome(node: SqlNode, md: Metadata, j: nat): Result<NodeState, EmitError>
    requires node.Valid() && j < |node.childrenNodes|
    reads node.Body
  {
    assert node.childrenNodes[j] in node.childrenNodes;
    Collapsed(node.childrenNodes[j], md)
  }

  /** Collapsing the children from the `k`-th on is gathering their outcomes. */
  lemma {:induction false} CollapsedChildrenGathered(
    node: SqlNode, md: Metadata, outs: seq<Result<NodeState, EmitError>>, k: nat)
    requires node.Valid() && |outs| == |node.childrenNodes| && k <= |outs|
    requires forall j :: 0 <= j < |outs| ==> outs[j] == Collapsed(node.childrenNodes[j], md)
    ensures CollapsedChildren(node, md, k) == Gather(outs[k..])
    decreases |outs| - k
  {
    if k == |outs| {
      assert outs[k..] == [];
    } else {
      CollapsedChildrenGathered(node, md, outs, k + 1);
      assert node.childrenNodes[k] in node.childrenNodes;
      var rs := outs[k..];
      assert rs[0] == outs[k] == Collapsed(node.childrenNodes[k], md);
      assert rs[1..] == outs[k + 1..];
      var rest := CollapsedChildren(node, md, k + 1);
      if outs[k].Ok? && rest.Ok? {
        assert CollapsedChildren(node, md, k) == Ok([outs[k].value] + rest.value);
      }
    }
  }

  /** Gathering `rs` with `done` standing for the first `i` of them, which all succeeded. */
  ghost predicate GatheredUpTo<T>(rs: seq<Result<T, EmitError>>, done: seq<T>, i: nat)
  {
    i <= |rs| && Gather(rs) == Preceded(done, Gather(rs[i..]))
  }

  /** A first failure at the `i`-th outcome is what gathering gives. */
  lemma GatherFails<T>(rs: seq<Result<T, EmitError>>, done: seq<T>, i: nat)
    requires GatheredUpTo(rs, done, i) && i < |rs| && rs[i].Err?
    ensures Gather(rs) == Err(rs[i].error)
  {
    assert rs[i..][1..] == rs[i + 1..];
  }

  /** A success at the `i`-th outcome moves the gathering on by one. */
  lemma GatherAdvances<T>(rs: seq<Result<T, EmitError>>, done: seq<T>, i: nat)
    requires GatheredUpTo(rs, done, i) && i < |rs| && rs[i].Ok?
    ensures GatheredUpTo(rs, done + [rs[i].value], i + 1)
  {
    assert rs[i..][1..] == rs[i + 1..];
    PrecededTwice(done, [rs[i].value], Gather(rs[i + 1..]));
  }

  /** With every outcome a success, gathering gives their values. */
  lemma GatherSucceeds<T>(rs: seq<Result<T, EmitError>>, done: seq<T>)
    requires GatheredUpTo(rs, done, |rs|)
    ensures Gather(rs) == Ok(done)
  {
    assert rs[|rs|..] == [];
    assert done + [] == done;
  }

  /** Nothing gathered yet. */
  lemma GatherStarts<T>(rs: seq<Result<T, EmitError>>)
    ensures GatheredUpTo(rs, [], 0)
  {
    assert rs[0..] == rs;
    PrecededTwice([], [], Gather(rs));
  }

  /**
   * The first loop of `_collapse_query_tree`: collapse every child, in order,
   * stopping at the first failure. `outs` holds what collapsing each child gives.
   */
  method CollapseChildren(node: SqlNode, md: Metadata, ghost outs: seq<Result<NodeState, EmitError>>)
    returns (failure: Option<EmitError>, ghost kids: seq<NodeState>)
    requires node.Valid() && |outs| == |node.childrenNodes|
    requires forall j :: 0 <= j < |outs| ==> outs[j] == Collapsed(node.childrenNodes[j], md)
    modifies BodiesOf(node.childrenNodes)
    ensures failure == FailureOf(Gather(outs))
    ensures failure.None? ==> Gather(outs) == Ok(kids) && |kids| == |node.childrenNodes|
    ensures failure.None? ==> forall j :: 0 <= j < |kids| ==> node.childrenNodes[j].State() == kids[j]
    decreases node.Repr, 0
  {
    var children := node.childrenNodes;
    GatherStarts(outs);
    kids := [];
    var i := 0;
    while i < |children|
      invariant 0 <= i <= |children| && |kids| == i
      invariant GatheredUpTo(outs, kids, i)
      invariant forall j :: 0 <= j < i ==> children[j].State() == kids[j]
      invariant forall j :: i <= j < |children| ==> unchanged(children[j].Body)
    {
      var child := children[i];
      ChildApart(node, i);
      assert Collapsed(child, md) == outs[i];
      failure := CollapseQueryTree(child, md);
      if failure.Some? {
        GatherFails(outs, kids, i);
        return;
      }
      GatherAdvances(outs, kids, i);
      kids := kids + [child.State()];
      i := i + 1;
    }
    GatherSucceeds(outs, kids);
    return None, kids;
  }

  /** The second loop of `_collapse_query_tree`: pull up and join every collapsed child, in order. */
  method AbsorbChildren(node: SqlNode, md: Metadata, ghost kids: seq<NodeState>)
    requires node.Valid() && node.fromClause.Some? && |kids| == |node.childrenNodes|
    requires forall j :: 0 <= j < |kids| ==> node.childrenNodes[j].State() == kids[j]
    requires forall k :: k in kids ==> k.fromClause.Some?
    modifies node
    ensures node.State() == Absorbed(old(node.State()), node.childrenNodes, kids, md)
  {
    var children := node.childrenNodes;
    var j := 0;
    while j < |children|
      invariant 0 <= j <= |children|
      invariant node.State() == Absorbed(old(node.State()), children[..j], kids[..j], md)
    {
      ChildApart(node, j);
      AbsorbedStep(old(node.State()), children, kids, md, j);
      PullUpNodeBlocks(node, children[j]);
      JoinToNode(node, children[j], md);
      j := j + 1;
    }
    assert children[..j] == children && kids[..j] == kids;
  }

  method CollapseQueryTree(node: SqlNode, md: Metadata) returns (failure: Option<EmitError>)
    requires node.Valid()
    modifies node.Body
    ensures var c := old(Collapsed(node, md));
      failure == FailureOf(c) && (c.Ok? ==> node.State() == c.value)
    decreases node.Repr, 1
  {
    OutsideChildren(node);
    ghost var outs := seq(|node.childrenNodes|, j requires 0 <= j < |node.childrenNodes| && node.Valid()
                                                 reads node.Body => Outcome(node, md, j));
    CollapsedChildrenGathered(node, md, outs, 0);
    assert outs[0..] == outs;
    ghost var kids;
    failure, kids := CollapseChildren(node, md, outs);
    if failure.Some? {
      return;
    }
    var table := CreateAndReferenceTable(node, md);
    failure := CreateLinksForRecursions(node, md);
    if failure.Some? {
      return;
    }
    AbsorbChildren(node, md, kids);
  }

  // ----- ownership of the recursion subtrees a collapsed node holds

  /**
   * `recursions` are valid subtrees of `node`, apart from each other and from
   * its body: collapsing `node` leaves them untouched, and emitting one leaves
   * the others untouched.
   */
  ghost predicate OwnedBy(node: SqlNode, recursions: seq<SqlNode>)
  {
    && (forall r {:trigger r in recursions} :: r in recursions ==>
          r.Valid() && r.Repr <= node.Repr && node !in r.Repr && r.Repr !! node.Body)
    && Disjoint(recursions)
  }

  /** No node of `nodes` has been emitted yet: each holds the recursions it was built with. */
  ghost predicate Untouched(nodes: set<SqlNode>)
    reads nodes
  {
    forall m :: m in nodes ==> m.recursions == m.ownRecursions
  }

  /** The recursions of `kids`, concatenated in order. */
  function RecursionsOf(kids: seq<NodeState>): seq<SqlNode>
  {
    if kids == [] then [] else RecursionsOf(kids[..|kids| - 1]) + kids[|kids| - 1].recursions
  }

  lemma {:induction false} AbsorbedRecursions(st: NodeState, children: seq<SqlNode>, kids: seq<NodeState>,
                                              md: Metadata)
    requires |children| == |kids| && st.fromClause.Some?
    requires forall k :: k in kids ==> k.fromClause.Some?
    ensures Absorbed(st, children, kids, md).recursions == st.recursions + RecursionsOf(kids)
    decreases |kids|
  {
    if kids != [] {
      var n := |kids|;
      var prefix := kids[..n - 1];
      AbsorbedRecursions(st, children[..n - 1], prefix, md);
      var before := Absorbed(st, children[..n - 1], prefix, md).recursions;
      assert kids[n - 1] in kids;
      assert Absorbed(st, children, kids, md).recursions == before + kids[n - 1].recursions;
      assert before + kids[n - 1].recursions == st.recursions + (RecursionsOf(prefix) + kids[n - 1].recursions);
    }
  }

  /** The collapsed children from the `k`-th on: the `k`-th collapsed, then the rest. */
  lemma CollapsedChildrenStep(node: SqlNode, md: Metadata, k: nat)
    requires node.Valid() && k < |node.childrenNodes|
    requires CollapsedChildren(node, md, k).Ok?
    ensures Collapsed(node.childrenNodes[k], md).Ok? && CollapsedChildren(node, md, k + 1).Ok?
    ensures CollapsedChildren(node, md, k).value ==
      [Collapsed(node.childrenNodes[k], md).value] + CollapsedChildren(node, md, k + 1).value
  {
    assert node.childrenNodes[k] in node.childrenNodes;
  }

  lemma DisjointAppend(a: seq<SqlNode>, b: seq<SqlNode>)
    requires Disjoint(a) && Disjoint(b)
    requires forall x, y :: x in a && y in b ==> x.Repr !! y.Repr
    ensures Disjoint(a + b)
  {
    var ab := a + b;
    forall i, j | 0 <= i < j < |ab|
      ensures ab[i].Repr !! ab[j].Repr
    {
      if j < |a| {
        assert ab[i] == a[i] && ab[j] == a[j];
      } else if i >= |a| {
        assert ab[i] == b[i - |a|] && ab[j] == b[j - |a|];
      } else {
        assert ab[i] in a && ab[j] in b;
      }
    }
  }

  /** Two different children of a valid node have apart subtrees, each holding its body. */
  lemma ChildrenApart(node: SqlNode, i: nat, j: nat)
    requires node.Valid() && i < |node.childrenNodes| && j < |node.childrenNodes| && i != j
    ensures node.childrenNodes[i].Body <= node.childrenNodes[i].Repr
    ensures node.childrenNodes[i].Repr !! node.childrenNodes[j].Repr
  {
    var cs := node.childrenNodes;
    assert cs[i] in cs && cs[i].Valid();
    if j < i {
      assert cs[j].Repr !! cs[i].Repr;
    }
  }

  /** The subtrees of the first `k` children are apart from the `k`-th child's. */
  lemma PrefixApart(node: SqlNode, k: nat)
    requires node.Valid() && k < |node.childrenNodes|
    ensures ReprsOf(node.childrenNodes[..k]) !! node.childrenNodes[k].Repr
  {
    var cs := node.childrenNodes;
    forall m | m in ReprsOf(cs[..k])
      ensures m !in cs[k].Repr
    {
      var d :| d in cs[..k] && m in d.Repr;
      var i :| 0 <= i < k && cs[..k][i] == d;
      ChildrenApart(node, i, k);
    }
  }

  /** A recursion a child owns is owned by the node, inside that child's subtree. */
  lemma ChildRecursionOwned(node: SqlNode, j: nat, r: SqlNode, rs: seq<SqlNode>)
    requires node.Valid() && j < |node.childrenNodes|
    requires OwnedBy(node.childrenNodes[j], rs) && r in rs
    ensures r.Valid() && r.Repr <= node.childrenNodes[j].Repr && r.Repr <= node.Repr
    ensures node !in r.Repr && r.Repr !! node.Body
    ensures forall o :: o in node.ownRecursions ==> o.Repr !! r.Repr
  {
    var cs := node.childrenNodes;
    var c := cs[j];
    assert c in cs;
    forall m | m in r.Repr
      ensures m !in node.Body
    {
      if m in node.Body && m != node {
        assert m in BodiesOf(cs);
        var d :| d in cs && m in d.Body;
        var i :| 0 <= i < |cs| && cs[i] == d;
        if i != j {
          ChildrenApart(node, i, j);
        }
      }
    }
  }

  /**
   * A node's own recursions followed by those its first `k` children hold
   * after collapse are owned by the node, and lie in those children.
   */
  lemma {:induction false} OwnedPrefix(node: SqlNode, kids: seq<NodeState>, k: nat)
    requires node.Valid() && |kids| == |node.childrenNodes| && k <= |kids|
    requires forall j :: 0 <= j < |kids| ==> OwnedBy(node.childrenNodes[j], kids[j].recursions)
    ensures OwnedBy(node, node.ownRecursions + RecursionsOf(kids[..k]))
    ensures forall r :: r in RecursionsOf(kids[..k]) ==> r.Repr <= ReprsOf(node.childrenNodes[..k])
    decreases k
  {
    var cs := node.childrenNodes;
    if k == 0 {
      assert kids[..0] == [];
      assert node.ownRecursions + [] == node.ownRecursions;
    } else {
      OwnedPrefix(node, kids, k - 1);
      var before := RecursionsOf(kids[..k - 1]);
      var added := kids[k - 1].recursions;
      assert kids[..k][..k - 1] == kids[..k - 1];
      assert RecursionsOf(kids[..k]) == before + added;
      PrefixApart(node, k - 1);
      forall r | r in added
        ensures r.Valid() && r.Repr <= node.Repr && node !in r.Repr && r.Repr !! node.Body
        ensures r.Repr <= cs[k - 1].Repr
        ensures forall o :: o in node.ownRecursions + before ==> o.Repr !! r.Repr
      {
        ChildRecursionOwned(node, k - 1, r, added);
      }
      DisjointAppend(node.ownRecursions + before, added);
      assert node.ownRecursions + RecursionsOf(kids[..k]) == (node.ownRecursions + before) + added;
      assert cs[..k][..k - 1] == cs[..k - 1] && cs[..k][k - 1] == cs[k - 1];
      assert ReprsOf(cs[..k]) == ReprsOf(cs[..k - 1]) + cs[k - 1].Repr;
    }
  }

  /** The recursions each collapsed child holds are owned by that child. */
  lemma {:induction false} CollapsedChildrenOwned(node: SqlNode, md: Metadata, kids: seq<NodeState>)
    requires node.Valid() && node.Pristine() && CollapsedChildren(node, md, 0) == Ok(kids)
    ensures forall j :: 0 <= j < |kids| ==> OwnedBy(node.childrenNodes[j], kids[j].recursions)
    decreases node.Repr, 1
  {
    var k := 0;
    while k < |node.childrenNodes|
      invariant k <= |node.childrenNodes| && CollapsedChildren(node, md, k) == Ok(kids[k..])
      invariant forall j :: 0 <= j < k ==> OwnedBy(node.childrenNodes[j], kids[j].recursions)
    {
      CollapsedChildOwned(node, md, kids, k);
      k := k + 1;
    }
  }

  /** One step of `CollapsedChildrenOwned`: the `k`-th child. */
  lemma {:induction false} CollapsedChildOwned(node: SqlNode, md: Metadata, kids: seq<NodeState>, k: nat)
    requires node.Valid() && node.Pristine() && k < |node.childrenNodes| && k <= |kids|
    requires CollapsedChildren(node, md, k) == Ok(kids[k..])
    ensures k < |kids| && CollapsedChildren(node, md, k + 1) == Ok(kids[k + 1..])
    ensures OwnedBy(node.childrenNodes[k], kids[k].recursions)
    decreases node.Repr, 0
  {
    CollapsedChildrenStep(node, md, k);
    var rest := CollapsedChildren(node, md, k + 1).value;
    assert kids[k..] == [Collapsed(node.childrenNodes[k], md).value] + rest;
    assert kids[k + 1..] == kids[k..][1..] == rest;
    ChildApart(node, k);
    CollapsedRecursionsOwned(node.childrenNodes[k], md);
  }

  /** The recursions a collapsed node holds are owned by it. */
  lemma {:induction false} CollapsedRecursionsOwned(node: SqlNode, md: Metadata)
    requires node.Valid() && node.Pristine()
    ensures Collapsed(node, md).Ok? ==> OwnedBy(node, Collapsed(node, md).value.recursions)
    decreases node.Repr, 2
  {
    var c := Collapsed(node, md);
    if c.Ok? {
      var kids := CollapsedChildren(node, md, 0).value;
      CollapsedChildrenOwned(node, md, kids);
      var linked := Linked(Referenced(node.State(), TableFor(node, md)), node.location, md, node.recursions);
      assert node in node.Repr;
      assert linked.Ok? && linked.value.recursions == node.ownRecursions;
      assert c.value == Absorbed(linked.value, node.childrenNodes, kids, md);
      AbsorbedOwned(node, linked.value, kids, md);
    }
  }

  /** Absorbing children whose recursions they own leaves recursions the node owns. */
  lemma AbsorbedOwned(node: SqlNode, st: NodeState, kids: seq<NodeState>, md: Metadata)
    requires node.Valid() && st.recursions == node.ownRecursions && st.fromClause.Some?
    requires |kids| == |node.childrenNodes| && forall k :: k in kids ==> k.fromClause.Some?
    requires forall j :: 0 <= j < |kids| ==> OwnedBy(node.childrenNodes[j], kids[j].recursions)
    ensures OwnedBy(node, Absorbed(st, node.childrenNodes, kids, md).recursions)
  {
    AbsorbedRecursions(st, node.childrenNodes, kids, md);
    OwnedPrefix(node, kids, |kids|);
    assert kids[..|kids|] == kids;
  }

  // ----- _query_tree_to_query and _traverse_recursions

  /**
   * `_join_to_recursive_node`: join the recursion's CTE on the in column of
   * this node's table equal to the recursion's out column.
   */
  function RecursiveJoin(from: Expr, table: Expr, inColumn: Expr, recursion: NodeState, outColumn: Expr): Expr
    requires recursion.table.Some? && recursion.fromClause.Some?
  {
    Join(InnerJoin, from, recursion.fromClause.value,
         Eq(Column(table, NameOf(inColumn)), Column(recursion.table.value, NameOf(outColumn))))
  }

  /** Step 2 of `_query_tree_to_query`: the recursive clause, for a `Recurse` node only. */
  function RecursionStep(node: SqlNode, st: NodeState, md: Metadata, inColumn: Option<Expr>)
    : (r: Result<(NodeState, Option<Expr>), EmitError>)
    requires st.table.Some? && st.fromClause.Some?
    ensures r.Ok? ==> r.value.0.fromClause.Some? && r.value.0.recursions == st.recursions
    ensures r.Ok? ==> (r.value.1.Some? <==> node.block.Recurse?)
    ensures !node.block.Recurse? ==> r == Ok((st, None))
  {
    if node.block.Recurse? then
      var c :- RecursiveClauseFor(node, st, md, inColumn);
      Ok((c.0, Some(c.1)))
    else Ok((st, None))
  }

  /**
   * What one round of `_traverse_recursions` finds for a recursion: no link
   * column, or the link column and the recursion's emission against it.
   */
  type RoundOutcome = Option<(Expr, Result<(NodeState, Emission), EmitError>)>

  /** A successful emission in `out` left a table and a from clause to join. */
  predicate Joinable(out: RoundOutcome)
  {
    out.Some? && out.value.1.Ok? ==> out.value.1.value.0.table.Some? && out.value.1.value.0.fromClause.Some?
  }

  /**
   * One round of `_traverse_recursions` on its outcome: the from clause with
   * the recursion joined in and the selections it adds, or the error that
   * stops the loop (`recursionLocation` is the recursion's location).
   */
  function Round(location: Location, recursionLocation: Location, out: RoundOutcome, table: Expr, from: Expr)
    : Result<(Expr, seq<SqlBlock>), EmitError>
    requires Joinable(out)
  {
    if out.None? then Err(MissingRecursionLink(location))
    else
      var inColumn := out.value.0;
      var e :- out.value.1;
      if !(e.1.RecursionOut? && e.1.column.Some?) then Err(MissingLinkColumn(recursionLocation))
      else Ok((RecursiveJoin(from, table, inColumn, e.0, e.1.column.value), e.0.selections))
  }

  /** The outcome of the round for `recursion`, given the node's link columns. */
  ghost function RoundOf(columns: map<RecursionKey, Expr>, recursion: SqlNode, md: Metadata): (out: RoundOutcome)
    requires recursion.Valid() && recursion.Pristine()
    reads recursion.Repr
    ensures Joinable(out)
    ensures out.None? <==> NodeKey(recursion) !in columns
    decreases recursion.Repr, 3
  {
    if NodeKey(recursion) !in columns then None
    else
      var inColumn := columns[NodeKey(recursion)];
      Some((inColumn, Emitted(recursion, md, Some(inColumn))))
  }

  /**
   * The recursions of `st` from the `k`-th on emitted and joined onto `from`,
   * their selections appended to `extra`: the result of `_traverse_recursions`
   * as the new from clause and the selections it adds.
   */
  ghost function Traversed(node: SqlNode, st: NodeState, md: Metadata, k: nat, from: Expr, extra: seq<SqlBlock>)
    : Result<(Expr, seq<SqlBlock>), EmitError>
    requires node.Valid() && OwnedBy(node, st.recursions) && st.table.Some? && k <= |st.recursions|
    requires Untouched(ReprsOf(st.recursions))
    reads ReprsOf(st.recursions)
    decreases node.Repr, 0, |st.recursions| - k
  {
    if k == |st.recursions| then Ok((from, extra))
    else
      var recursion := st.recursions[k];
      assert recursion in st.recursions;
      assert recursion.Repr <= ReprsOf(st.recursions);
      var joined :- Round(node.location, recursion.location, RoundOf(st.recursionToColumn, recursion, md),
                          st.table.value, from);
      Traversed(node, st, md, k + 1, joined.0, extra + joined.1)
  }

  /**
   * Steps 2 to 4 of `_query_tree_to_query` on a node already collapsed to
   * `collapsed`: the state they leave in `node` and what it returns.
   */
  ghost function Finished(node: SqlNode, collapsed: NodeState, md: Metadata, inColumn: Option<Expr>)
    : (r: Result<(NodeState, Emission), EmitError>)
    requires node.Valid() && OwnedBy(node, collapsed.recursions) && Untouched(ReprsOf(collapsed.recursions))
    requires collapsed.table.Some? && collapsed.fromClause.Some?
    reads ReprsOf(collapsed.recursions)
    ensures r.Ok? ==> r.value.0.table.Some? && r.value.0.fromClause.Some?
    decreases node.Repr, 1
  {
    var step :- RecursionStep(node, collapsed, md, inColumn);
    var wrapped := Wrapped(step.0, CreateBaseQuery(node.location, step.0, md), md);
    var traversed :- Traversed(node, wrapped, md, 0, wrapped.fromClause.value, []);
    var final := wrapped.(fromClause := Some(traversed.0), selections := wrapped.selections + traversed.1);
    if node.parentNode.None? then Ok((final, FinalQuery(CreateFinalQuery(final, md))))
    else Ok((final, RecursionOut(step.1)))
  }

  /**
   * `_query_tree_to_query`: the state emission leaves in `node` and what it
   * returns, computed from the tree before emission.
   */
  ghost function Emitted(node: SqlNode, md: Metadata, inColumn: Option<Expr>)
    : (r: Result<(NodeState, Emission), EmitError>)
    requires node.Valid() && node.Pristine()
    reads node.Repr
    ensures r.Ok? ==> r.value.0.table.Some? && r.value.0.fromClause.Some?
    decreases node.Repr, 2
  {
    CollapsedRecursionsOwned(node, md);
    var collapsed :- Collapsed(node, md);
    assert ReprsOf(collapsed.recursions) <= node.Repr;
    Finished(node, collapsed, md, inColumn)
  }

  /** The recursions after the `i`-th are apart from it and do not hold `node`. */
  lemma LaterApart(node: SqlNode, recursions: seq<SqlNode>, i: nat)
    requires OwnedBy(node, recursions) && i < |recursions|
    ensures forall j :: i < j < |recursions| ==>
      recursions[j].Repr !! recursions[i].Repr && node !in recursions[j].Repr
  {
    forall j | i < j < |recursions|
      ensures node !in recursions[j].Repr
    {
      assert recursions[j] in recursions;
    }
  }

  /** `_join_to_recursive_node`. */
  method JoinToRecursiveNode(node: SqlNode, inColumn: Expr, recursiveNode: SqlNode, outColumn: Expr)
    requires node != recursiveNode && node.table.Some? && node.fromClause.Some?
    requires recursiveNode.table.Some? && recursiveNode.fromClause.Some?
    modifies node
    ensures node.State() == old(node.State()).(fromClause := Some(RecursiveJoin(
      old(node.fromClause.value), old(node.table.value), inColumn, recursiveNode.State(), outColumn)))
  {
    var currentCteColumn := Column(node.table.value, NameOf(inColumn));
    var recursiveCteColumn := Column(recursiveNode.table.value, NameOf(outColumn));
    node.fromClause := Some(Join(InnerJoin, node.fromClause.value, recursiveNode.fromClause.value,
                                 Eq(currentCteColumn, recursiveCteColumn)));
  }

  /** Every successful emission among `outs` left a table and a from clause. */
  predicate Emittable(outs: seq<RoundOutcome>)
  {
    forall j :: 0 <= j < |outs| ==> Joinable(outs[j])
  }

  /** `Traversed` once the round outcomes `outs` are known: the rounds from the `k`-th on. */
  function TraversedAlong(location: Location, recursions: seq<SqlNode>, outs: seq<RoundOutcome>, table: Expr,
                          k: nat, from: Expr, extra: seq<SqlBlock>): Result<(Expr, seq<SqlBlock>), EmitError>
    requires |outs| == |recursions| && k <= |outs| && Emittable(outs)
    decreases |outs| - k
  {
    if k == |outs| then Ok((from, extra))
    else
      var joined :- Round(location, recursions[k].location, outs[k], table, from);
      TraversedAlong(location, recursions, outs, table, k + 1, joined.0, extra + joined.1)
  }

  /** `outs` are the round outcomes of every recursion of `st`. */
  ghost predicate OutcomesOf(st: NodeState, md: Metadata, outs: seq<RoundOutcome>)
    reads ReprsOf(st.recursions)
  {
    && |outs| == |st.recursions|
    && forall j {:trigger st.recursions[j]} :: 0 <= j < |outs| ==>
         && st.recursions[j] in st.recursions
         && st.recursions[j].Valid() && st.recursions[j].Pristine()
         && outs[j] == RoundOf(st.recursionToColumn, st.recursions[j], md)
  }

  /**
   * The `k`-th of `recursions` is a well-formed subtree of `node` without it,
   * and the later ones neither hold `node` nor meet it.
   */
  ghost predicate ApartAt(node: SqlNode, recursions: seq<SqlNode>, k: nat)
    requires k < |recursions|
  {
    var r := recursions[k];
    && r.Valid() && r.Repr <= node.Repr && node !in r.Repr
    && forall j :: k < j < |recursions| ==> recursions[j].Repr !! r.Repr && node !in recursions[j].Repr
  }

  ghost predicate AllApart(node: SqlNode, recursions: seq<SqlNode>)
  {
    forall k {:trigger ApartAt(node, recursions, k)} :: 0 <= k < |recursions| ==> ApartAt(node, recursions, k)
  }

  lemma OwnedApart(node: SqlNode, recursions: seq<SqlNode>)
    requires OwnedBy(node, recursions)
    ensures AllApart(node, recursions)
  {
    forall k | 0 <= k < |recursions|
      ensures ApartAt(node, recursions, k)
    {
      assert recursions[k] in recursions;
      LaterApart(node, recursions, k);
    }
  }

  /** The round outcomes of a node's recursions before emission, and their traversal. */
  lemma {:induction false} TraversedIsAlong(node: SqlNode, st: NodeState, md: Metadata, outs: seq<RoundOutcome>,
                                            k: nat, from: Expr, extra: seq<SqlBlock>)
    requires node.Valid() && OwnedBy(node, st.recursions) && Untouched(ReprsOf(st.recursions))
    requires st.table.Some? && k <= |st.recursions| && OutcomesOf(st, md, outs)
    ensures Emittable(outs)
    ensures Traversed(node, st, md, k, from, extra)
         == TraversedAlong(node.location, st.recursions, outs, st.table.value, k, from, extra)
    decreases |st.recursions| - k
  {
    forall j | 0 <= j < |outs|
      ensures Joinable(outs[j])
    {
      assert st.recursions[j] in st.recursions;
    }
    if k < |st.recursions| {
      var recursion := st.recursions[k];
      assert recursion in st.recursions && recursion.Repr <= ReprsOf(st.recursions);
      var joined := Round(node.location, recursion.location, outs[k], st.table.value, from);
      if joined.Ok? {
        TraversedIsAlong(node, st, md, outs, k + 1, joined.value.0, extra + joined.value.1);
      }
    }
  }

  /**
   * One round of `_traverse_recursions`: look up the link column of
   * `recursion`, emit the recursion against it, then join its query onto the
   * node's from clause. The result is the selections the recursion adds.
   */
  method TraverseRecursion(node: SqlNode, md: Metadata, recursion: SqlNode, ghost out: RoundOutcome)
    returns (result: Result<seq<SqlBlock>, EmitError>)
    requires recursion.Valid() && recursion.Pristine() && node !in recursion.Repr
    requires node.table.Some? && node.fromClause.Some?
    requires out == RoundOf(node.recursionToColumn, recursion, md)
    modifies node, recursion.Repr
    ensures var r := Round(node.location, recursion.location, out, old(node.table.value), old(node.fromClause.value));
      && (r.Err? ==> result == Err(r.error))
      && (r.Ok? ==> result == Ok(r.value.1) && node.State() == old(node.State()).(fromClause := Some(r.value.0)))
    decreases recursion.Repr, 4
  {
    if NodeKey(recursion) !in node.recursionToColumn {
      return Err(MissingRecursionLink(node.location));
    }
    var inColumn := node.recursionToColumn[NodeKey(recursion)];
    var emitted := QueryTreeToQuery(recursion, md, Some(inColumn));
    if emitted.Err? {
      return Err(emitted.error);
    }
    var emission := emitted.value;
    if !(emission.RecursionOut? && emission.column.Some?) {
      return Err(MissingLinkColumn(recursion.location));
    }
    JoinToRecursiveNode(node, inColumn, recursion, emission.column.value);
    return Ok(recursion.selections);
  }

  /**
   * `_traverse_recursions`: emit every recursion of `node` against its link
   * column, join it in, and append its selections after the node's own.
   */
  method TraverseRecursions(node: SqlNode, md: Metadata) returns (failure: Option<EmitError>)
    requires node.Valid() && OwnedBy(node, node.recursions) && Untouched(ReprsOf(node.recursions))
    requires node.table.Some? && node.fromClause.Some?
    modifies node.Repr
    ensures var t := old(Traversed(node, node.State(), md, 0, node.fromClause.value, []));
      && failure == FailureOf(t)
      && (t.Ok? ==> node.State() == old(node.State()).(
            fromClause := Some(t.value.0), selections := old(node.selections) + t.value.1))
    decreases node.Repr, 1
  {
    ghost var st0 := node.State();
    ghost var recursions := st0.recursions;
    ghost var outs := seq(|recursions|, j requires 0 <= j < |recursions| && OwnedBy(node, recursions)
                                                 && Untouched(ReprsOf(recursions))
                                               reads ReprsOf(recursions) =>
                            assert recursions[j] in recursions; RoundOf(st0.recursionToColumn, recursions[j], md));
    assert OutcomesOf(st0, md, outs);
    TraversedIsAlong(node, st0, md, outs, 0, st0.fromClause.value, []);
    OwnedApart(node, recursions);
    failure := JoinRecursions(node, md, outs);
  }

  /** The loop of `_traverse_recursions`, proved against the outcomes `outs` of its rounds. */
  method JoinRecursions(node: SqlNode, md: Metadata, ghost outs: seq<RoundOutcome>) returns (failure: Option<EmitError>)
    requires node in node.Repr && AllApart(node, node.recursions) && Untouched(ReprsOf(node.recursions))
    requires OutcomesOf(node.State(), md, outs) && Emittable(outs)
    requires node.table.Some? && node.fromClause.Some?
    modifies node.Repr
    ensures var t := TraversedAlong(node.location, old(node.recursions), outs, old(node.table.value), 0,
                                    old(node.fromClause.value), []);
      && failure == FailureOf(t)
      && (t.Ok? ==> node.State() == old(node.State()).(
            fromClause := Some(t.value.0), selections := old(node.selections) + t.value.1))
    decreases node.Repr, 0
  {
    var recursions := node.recursions;
    ghost var st0 := node.State();
    var recursiveSelections: seq<SqlBlock> := [];
    var from := node.fromClause.value;
    var i := 0;
    ghost var target := TraversedAlong(node.location, recursions, outs, st0.table.value, 0, from, []);
    while i < |recursions|
      invariant i <= |recursions|
      invariant node.State() == st0.(fromClause := Some(from))
      invariant forall j :: i <= j < |recursions| ==> unchanged(recursions[j].Repr)
      invariant target == TraversedAlong(node.location, recursions, outs, st0.table.value, i, from, recursiveSelections)
    {
      var recursion := recursions[i];
      assert ApartAt(node, recursions, i);
      assert recursion in recursions && recursion.Repr <= ReprsOf(recursions);
      assert outs[i] == old(RoundOf(st0.recursionToColumn, recursion, md));
      ghost var round := Round(node.location, recursion.location, outs[i], st0.table.value, from);
      assert target == if round.Err? then Err(round.error)
                       else TraversedAlong(node.location, recursions, outs, st0.table.value, i + 1,
                                           round.value.0, recursiveSelections + round.value.1);
      var joined := TraverseRecursion(node, md, recursion, outs[i]);
      if joined.Err? {
        return Some(joined.error);
      }
      recursiveSelections := recursiveSelections + joined.value;
      from := node.fromClause.value;
      i := i + 1;
    }
    node.selections := node.selections + recursiveSelections;
    return None;
  }

  /**
   * Steps 2 and 3 of `_query_tree_to_query`: the recursive clause of a
   * `Recurse` node, then the node's query wrapped as a CTE.
   */
  method BuildOwnQuery(node: SqlNode, md: Metadata, inColumn: Option<Expr>)
    returns (result: Result<Option<Expr>, EmitError>)
    requires node.table.Some? && node.fromClause.Some?
    modifies node
    ensures var s := RecursionStep(node, old(node.State()), md, inColumn);
      && (s.Err? ==> result == Err(s.error))
      && (s.Ok? ==> result == Ok(s.value.1)
                    && node.State() == Wrapped(s.value.0, CreateBaseQuery(node.location, s.value.0, md), md))
  {
    var recursionOutColumn: Option<Expr> := None;
    if node.block.Recurse? {
      var clause := CreateRecursiveClause(node, md, inColumn);
      if clause.Err? {
        return Err(clause.error);
      }
      recursionOutColumn := Some(clause.value);
    }
    var query := CreateBaseQuery(node.location, node.State(), md);
    WrapQueryAsCte(node, query, md);
    return Ok(recursionOutColumn);
  }

  /** Steps 2 to 4 of `_query_tree_to_query`, once the node is collapsed. */
  method FinishQuery(node: SqlNode, md: Metadata, inColumn: Option<Expr>)
    returns (result: Result<Emission, EmitError>)
    requires node.Valid() && OwnedBy(node, node.recursions) && Untouched(ReprsOf(node.recursions))
    requires node.table.Some? && node.fromClause.Some?
    modifies node.Repr
    ensures var e := old(Finished(node, node.State(), md, inColumn));
      && (e.Err? ==> result == Err(e.error))
      && (e.Ok? ==> result == Ok(e.value.1) && node.State() == e.value.0)
    decreases node.Repr, 2
  {
    var recursionOutColumn := BuildOwnQuery(node, md, inColumn);
    if recursionOutColumn.Err? {
      return Err(recursionOutColumn.error);
    }
    ghost var wrapped := node.State();
    ghost var held := ReprsOf(wrapped.recursions);
    assert wrapped.recursions == old(node.recursions) && node !in held;
    assert unchanged(held);
    assert Traversed(node, wrapped, md, 0, wrapped.fromClause.value, [])
        == old(Traversed(node, wrapped, md, 0, wrapped.fromClause.value, []));
    var failure := TraverseRecursions(node, md);
    if failure.Some? {
      return Err(failure.value);
    }
    if node.parentNode.None? {
      return Ok(FinalQuery(CreateFinalQuery(node.State(), md)));
    }
    return Ok(RecursionOut(recursionOutColumn.value));
  }

  /**
   * `_query_tree_to_query`: collapse the tree, build the recursive clause of a
   * `Recurse` node, wrap the node's query as a CTE, traverse its recursions;
   * the root gives the final query, any other node its recursion out column.
   */
  method QueryTreeToQuery(node: SqlNode, md: Metadata, inColumn: Option<Expr>)
    returns (result: Result<Emission, EmitError>)
    requires node.Valid() && node.Pristine()
    modifies node.Repr
    ensures var e := old(Emitted(node, md, inColumn));
      && (e.Err? ==> result == Err(e.error))
      && (e.Ok? ==> result == Ok(e.value.1) && node.State() == e.value.0)
    decreases node.Repr, 3
  {
    CollapsedRecursionsOwned(node, md);
    var failure := CollapseQueryTree(node, md);
    if failure.Some? {
      return Err(failure.value);
    }
    ghost var collapsed := node.State();
    ghost var held := ReprsOf(collapsed.recursions);
    assert held <= node.Repr && held !! node.Body;
    assert unchanged(held);
    assert Finished(node, collapsed, md, inColumn) == old(Finished(node, Collapsed(node, md).value, md, inColumn));
    result := FinishQuery(node, md, inColumn);
  }

  /** `emit_code_from_ir`: emit the whole tree from its root. */
  method EmitCodeFromIr(root: SqlNode, md: Metadata) returns (result: Result<Emission, EmitError>)
    requires root.Valid() && root.Pristine()
    modifies root.Repr
    ensures var e := old(Emitted(root, md, None));
      && (e.Err? ==> result == Err(e.error))
      && (e.Ok? ==> result == Ok(e.value.1) && root.State() == e.value.0)
  {
    result := QueryTreeToQuery(root, md, None);
  }
}
