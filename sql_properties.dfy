/**
 * What the SQL tree emitter promises, stated over the functions that specify
 * its steps: the order in which blocks and joins accumulate, which edges and
 * combinators are accepted, and the shape of what each node hands back.
 */
module SqlProperties {
  import opened Wrappers
  import opened IrBlocks
  import opened SqlExpr
  import opened SqlTree
  import opened RecursiveClause
  import opened EmitSql

  // ----- join spines

  /** How many joins are stacked, left-nested, under `e`. */
  function JoinDepth(e: Expr): nat
  {
    if e.Join? then 1 + JoinDepth(e.left) else 0
  }

  /** An expression built on `base` by joins has one more level per join. */
  lemma {:induction false} JoinsOntoDepth(e: Expr, base: Expr)
    requires JoinsOnto(e, base).Some?
    ensures JoinDepth(e) == JoinDepth(base) + |JoinsOnto(e, base).value|
  {
    if e != base {
      JoinsOntoDepth(e.left, base);
    }
  }

  /** The joins `_join_to_node` adds for one child: one per on-clause, of one kind. */
  function Spine(childFrom: Expr, onclauses: seq<OnClause>, inOptional: bool): (js: seq<(JoinKind, Expr, Expr)>)
    ensures |js| == |onclauses|
  {
    seq(|onclauses|, i requires 0 <= i < |onclauses| => (KindFor(inOptional), childFrom, onclauses[i].onclause))
  }

  /**
   * Joining a child onto a from clause built on `base` stacks one join per
   * on-clause after the joins already there: an outer join for a child in an
   * optional scope, an inner join otherwise, always to the child's from clause.
   */
  lemma {:induction false} JoinedOnto(e: Expr, base: Expr, childFrom: Expr, onclauses: seq<OnClause>, inOptional: bool)
    requires JoinsOnto(e, base).Some?
    ensures JoinsOnto(Joined(e, childFrom, onclauses, inOptional), base)
         == Some(JoinsOnto(e, base).value + Spine(childFrom, onclauses, inOptional))
    decreases |onclauses|
  {
    var js := JoinsOnto(e, base).value;
    if onclauses == [] {
      assert js + Spine(childFrom, onclauses, inOptional) == js;
    } else {
      var n := |onclauses|;
      var prefix := onclauses[..n - 1];
      var inner := Joined(e, childFrom, prefix, inOptional);
      JoinedOnto(e, base, childFrom, prefix, inOptional);
      JoinsOntoDepth(inner, base);
      var outer := Joined(e, childFrom, onclauses, inOptional);
      assert JoinDepth(outer) == JoinDepth(inner) + 1;
      assert outer != base;
      var step := (KindFor(inOptional), childFrom, onclauses[n - 1].onclause);
      assert JoinsOnto(outer, base) == Some((js + Spine(childFrom, prefix, inOptional)) + [step]);
      assert Spine(childFrom, onclauses, inOptional) == Spine(childFrom, prefix, inOptional) + [step];
      assert (js + Spine(childFrom, prefix, inOptional)) + [step] == js + (Spine(childFrom, prefix, inOptional) + [step]);
    }
  }

  /** `_join_to_node` on its own: exactly the child's spine onto the parent's from clause. */
  lemma JoinedSpine(from: Expr, childFrom: Expr, onclauses: seq<OnClause>, inOptional: bool)
    ensures JoinsOnto(Joined(from, childFrom, onclauses, inOptional), from)
         == Some(Spine(childFrom, onclauses, inOptional))
    ensures forall j :: j in Spine(childFrom, onclauses, inOptional) ==>
      (j.0 == OuterJoin <==> inOptional) && j.1 == childFrom
  {
    JoinedOnto(from, from, childFrom, onclauses, inOptional);
    assert [] + Spine(childFrom, onclauses, inOptional) == Spine(childFrom, onclauses, inOptional);
  }

  /** A join on top of `base` seen from under it: the new join comes first. */
  lemma {:induction false} JoinsOntoUnder(e: Expr, base: Expr, k: JoinKind, right: Expr, on: Expr)
    requires JoinsOnto(e, Join(k, base, right, on)).Some?
    ensures JoinsOnto(e, base) == Some([(k, right, on)] + JoinsOnto(e, Join(k, base, right, on)).value)
  {
    var top := Join(k, base, right, on);
    JoinsOntoDepth(e, top);
    assert JoinDepth(top) == JoinDepth(base) + 1;
    if e == top {
      assert top != base;
      assert JoinsOnto(top, base) == Some([] + [(k, right, on)]);
      assert [(k, right, on)] + [] == [] + [(k, right, on)];
    } else {
      var step := (e.kind, e.right, e.on);
      var above := JoinsOnto(e.left, top).value;
      assert JoinsOnto(e, top) == Some(above + [step]);
      JoinsOntoUnder(e.left, base, k, right, on);
      assert e != base;
      assert JoinsOnto(e, base) == Some(([(k, right, on)] + above) + [step]);
      assert ([(k, right, on)] + above) + [step] == [(k, right, on)] + (above + [step]);
    }
  }

  // ----- _create_and_reference_table, _wrap_query_as_cte

  /**
   * Creating a node's table points its table and from clause at the same
   * alias, and every selection and predicate at that alias, keeping what each
   * block says; nothing else changes.
   */
  lemma ReferencedPointsAtTable(st: NodeState, t: Expr)
    ensures var r := Referenced(st, t);
      && r.table == Some(t) && r.fromClause == Some(t)
      && |r.selections| == |st.selections| && |r.predicates| == |st.predicates|
      && (forall i :: 0 <= i < |r.selections| ==>
            r.selections[i].table == Some(t) && r.selections[i].content == st.selections[i].content)
      && (forall i :: 0 <= i < |r.predicates| ==>
            r.predicates[i].table == Some(t) && r.predicates[i].content == st.predicates[i].content)
      && r.recursions == st.recursions && r.linkColumns == st.linkColumns
      && r.recursionToColumn == st.recursionToColumn
  {
  }

  /**
   * Wrapping a node's query makes that query, as a CTE, both the node's table
   * and its from clause, and renames each selection after pointing it at the
   * CTE; predicates, recursions and link columns are kept.
   */
  lemma WrappedPointsAtCte(st: NodeState, query: Expr, md: Metadata)
    ensures var r := Wrapped(st, query, md);
      && r.table == Some(Cte(query, false)) && r.fromClause == r.table
      && |r.selections| == |st.selections|
      && (forall i :: 0 <= i < |r.selections| ==>
            r.selections[i] == md.rename(st.selections[i].(table := Some(Cte(query, false)))))
      && r.predicates == st.predicates && r.recursions == st.recursions
      && r.linkColumns == st.linkColumns && r.recursionToColumn == st.recursionToColumn
  {
  }

  // ----- _pull_up_node_blocks

  /**
   * Pulling a child up keeps the parent's blocks, recursions and link columns
   * and appends the child's after them, in order; the child's link entries
   * win over the parent's, and the parent's other entries stay.
   */
  lemma PulledUpAppends(st: NodeState, child: NodeState)
    ensures var r := PulledUp(st, child);
      && r.selections[..|st.selections|] == st.selections && r.selections[|st.selections|..] == child.selections
      && r.predicates[..|st.predicates|] == st.predicates && r.predicates[|st.predicates|..] == child.predicates
      && r.recursions[..|st.recursions|] == st.recursions && r.recursions[|st.recursions|..] == child.recursions
      && r.linkColumns[..|st.linkColumns|] == st.linkColumns
      && r.linkColumns[|st.linkColumns|..] == child.linkColumns
      && r.recursionToColumn.Keys == st.recursionToColumn.Keys + child.recursionToColumn.Keys
      && (forall k :: k in child.recursionToColumn ==> r.recursionToColumn[k] == child.recursionToColumn[k])
      && (forall k :: k in st.recursionToColumn && k !in child.recursionToColumn ==>
            r.recursionToColumn[k] == st.recursionToColumn[k])
      && r.table == st.table && r.fromClause == st.fromClause
  {
  }

  // ----- _create_links_for_recursions

  /** The recursions whose edge is neither a basic edge nor a multi-edge. */
  predicate Unlinkable(md: Metadata, location: Location, recursion: SqlNode)
  {
    md.getEdge(location, recursion.relation).OtherEdge?
  }

  /** The link column for a recursion whose edge has a usable shape. */
  function LinkColumnOf(md: Metadata, location: Location, table: Expr, recursion: SqlNode): (c: Expr)
    requires !Unlinkable(md, location, recursion)
    ensures LinkFor(md, location, table, recursion) == Ok(c)
  {
    match md.getEdge(location, recursion.relation)
    case BasicEdge(source, _, _) => Column(table, Named(source))
    case MultiEdge(junction, _) => Column(table, Named(junction.sourceCol))
  }

  /** The link a recursion gets names the edge's source column, or the junction hop's. */
  lemma LinkForColumn(md: Metadata, location: Location, table: Expr, recursion: SqlNode)
    ensures var edge := md.getEdge(location, recursion.relation);
      && (edge.BasicEdge? ==> LinkFor(md, location, table, recursion) == Ok(Column(table, Named(edge.sourceCol))))
      && (edge.MultiEdge? ==>
            LinkFor(md, location, table, recursion) == Ok(Column(table, Named(edge.junctionEdge.sourceCol))))
      && (edge.OtherEdge? ==>
            LinkFor(md, location, table, recursion) == Err(UnsupportedEdgeShape(location, recursion.relation)))
  {
  }

  /**
   * Linking succeeds exactly when every recursion's edge has a usable shape;
   * with no recursions nothing changes. Otherwise the error names the first
   * recursion whose edge is refused.
   */
  lemma {:induction false} LinkedAccepts(st: NodeState, location: Location, md: Metadata, recursions: seq<SqlNode>)
    requires st.table.Some?
    ensures var r := Linked(st, location, md, recursions);
      && (r.Ok? <==> forall i :: 0 <= i < |recursions| ==> !Unlinkable(md, location, recursions[i]))
      && (recursions == [] ==> r == Ok(st))
      && (r.Err? ==> exists i :: 0 <= i < |recursions| && Unlinkable(md, location, recursions[i])
                      && (forall j :: 0 <= j < i ==> !Unlinkable(md, location, recursions[j]))
                      && r.error == UnsupportedEdgeShape(location, recursions[i].relation))
    decreases |recursions|
  {
    if recursions != [] {
      var n := |recursions|;
      var prefix := recursions[..n - 1];
      assert forall j :: 0 <= j < n - 1 ==> recursions[j] == prefix[j];
      LinkedAccepts(st, location, md, prefix);
      if Linked(st, location, md, prefix).Ok? {
        LinkedStep(st, location, md, recursions);
        if Unlinkable(md, location, recursions[n - 1]) {
          assert Linked(st, location, md, recursions).error == UnsupportedEdgeShape(location, recursions[n - 1].relation);
        }
      } else {
        var i :| 0 <= i < |prefix| && Unlinkable(md, location, prefix[i])
                 && (forall j :: 0 <= j < i ==> !Unlinkable(md, location, prefix[j]))
                 && Linked(st, location, md, prefix).error == UnsupportedEdgeShape(location, prefix[i].relation);
        assert recursions[i] == prefix[i];
      }
    }
  }

  /**
   * `columns` are `own` followed by one link column per recursion of
   * `recursions`, each linkable and its column on `t`.
   */
  ghost predicate LinksFor(columns: seq<Expr>, own: seq<Expr>, location: Location, md: Metadata, t: Expr,
                           recursions: seq<SqlNode>)
  {
    && |columns| == |own| + |recursions|
    && columns[..|own|] == own
    && (forall i :: 0 <= i < |recursions| ==>
          !Unlinkable(md, location, recursions[i])
          && columns[|own| + i] == LinkColumnOf(md, location, t, recursions[i]))
  }

  /** `m` records, under each recursion's key, that recursion's link column on `t`. */
  ghost predicate KeysFor(m: map<RecursionKey, Expr>, location: Location, md: Metadata, t: Expr,
                          recursions: seq<SqlNode>)
  {
    forall i :: 0 <= i < |recursions| ==>
      !Unlinkable(md, location, recursions[i])
      && NodeKey(recursions[i]) in m && m[NodeKey(recursions[i])] == LinkColumnOf(md, location, t, recursions[i])
  }

  lemma LinksForSnoc(columns: seq<Expr>, own: seq<Expr>, location: Location, md: Metadata, t: Expr,
                     recursions: seq<SqlNode>, last: SqlNode)
    requires LinksFor(columns, own, location, md, t, recursions) && !Unlinkable(md, location, last)
    ensures LinksFor(columns + [LinkColumnOf(md, location, t, last)], own, location, md, t, recursions + [last])
  {
    var cs, rs := columns + [LinkColumnOf(md, location, t, last)], recursions + [last];
    assert cs[..|own|] == columns[..|own|];
    forall i | 0 <= i < |rs|
      ensures !Unlinkable(md, location, rs[i]) && cs[|own| + i] == LinkColumnOf(md, location, t, rs[i])
    {
      if i < |recursions| {
        assert rs[i] == recursions[i] && cs[|own| + i] == columns[|own| + i];
      }
    }
  }

  lemma KeysForSnoc(m: map<RecursionKey, Expr>, location: Location, md: Metadata, t: Expr,
                    recursions: seq<SqlNode>, last: SqlNode)
    requires KeysFor(m, location, md, t, recursions) && !Unlinkable(md, location, last)
    ensures KeysFor(m[NodeKey(last) := LinkColumnOf(md, location, t, last)], location, md, t, recursions + [last])
  {
    var rs := recursions + [last];
    forall i | 0 <= i < |rs|
      ensures !Unlinkable(md, location, rs[i])
      ensures NodeKey(rs[i]) in m[NodeKey(last) := LinkColumnOf(md, location, t, last)]
      ensures m[NodeKey(last) := LinkColumnOf(md, location, t, last)][NodeKey(rs[i])]
        == LinkColumnOf(md, location, t, rs[i])
    {
      if i < |recursions| {
        assert rs[i] == recursions[i];
      }
    }
  }

  /** Linking one more recursion appends its link column to those of the prefix. */
  lemma LinkedColumnsStep(st: NodeState, location: Location, md: Metadata, recursions: seq<SqlNode>)
    requires st.table.Some? && |recursions| > 0 && Linked(st, location, md, recursions).Ok?
    requires Linked(st, location, md, recursions[..|recursions| - 1]).Ok?
    requires LinksFor(Linked(st, location, md, recursions[..|recursions| - 1]).value.linkColumns,
                      st.linkColumns, location, md, st.table.value, recursions[..|recursions| - 1])
    ensures LinksFor(Linked(st, location, md, recursions).value.linkColumns, st.linkColumns, location, md,
                     st.table.value, recursions)
  {
    var prefix, last := recursions[..|recursions| - 1], recursions[|recursions| - 1];
    assert prefix + [last] == recursions;
    LinkedStep(st, location, md, recursions);
    var before := Linked(st, location, md, prefix).value.linkColumns;
    assert !Unlinkable(md, location, last);
    LinksForSnoc(before, st.linkColumns, location, md, st.table.value, prefix, last);
  }

  /** Linking one more recursion records its link column under its key. */
  lemma LinkedKeysStep(st: NodeState, location: Location, md: Metadata, recursions: seq<SqlNode>)
    requires st.table.Some? && |recursions| > 0 && Linked(st, location, md, recursions).Ok?
    requires Linked(st, location, md, recursions[..|recursions| - 1]).Ok?
    requires KeysFor(Linked(st, location, md, recursions[..|recursions| - 1]).value.recursionToColumn,
                     location, md, st.table.value, recursions[..|recursions| - 1])
    ensures KeysFor(Linked(st, location, md, recursions).value.recursionToColumn, location, md,
                    st.table.value, recursions)
  {
    var prefix, last := recursions[..|recursions| - 1], recursions[|recursions| - 1];
    assert prefix + [last] == recursions;
    LinkedStep(st, location, md, recursions);
    var before := Linked(st, location, md, prefix).value.recursionToColumn;
    assert !Unlinkable(md, location, last);
    KeysForSnoc(before, location, md, st.table.value, prefix, last);
  }

  /** The link columns linking appends: one per recursion, after the node's own, in order. */
  lemma {:induction false} LinkedColumns(st: NodeState, location: Location, md: Metadata, recursions: seq<SqlNode>)
    requires st.table.Some? && Linked(st, location, md, recursions).Ok?
    ensures LinksFor(Linked(st, location, md, recursions).value.linkColumns, st.linkColumns, location, md,
                     st.table.value, recursions)
    decreases |recursions|
  {
    if recursions == [] {
      assert st.linkColumns[..|st.linkColumns|] == st.linkColumns;
    } else {
      var prefix := recursions[..|recursions| - 1];
      assert Linked(st, location, md, prefix).Ok?;
      LinkedColumns(st, location, md, prefix);
      LinkedColumnsStep(st, location, md, recursions);
    }
  }

  /** The keys linking records: each recursion's key, mapped to its link column. */
  lemma {:induction false} LinkedKeys(st: NodeState, location: Location, md: Metadata, recursions: seq<SqlNode>)
    requires st.table.Some? && Linked(st, location, md, recursions).Ok?
    ensures KeysFor(Linked(st, location, md, recursions).value.recursionToColumn, location, md,
                    st.table.value, recursions)
    decreases |recursions|
  {
    if recursions != [] {
      var prefix := recursions[..|recursions| - 1];
      assert Linked(st, location, md, prefix).Ok?;
      LinkedKeys(st, location, md, prefix);
      LinkedKeysStep(st, location, md, recursions);
    }
  }

  /**
   * Once linking succeeds, each recursion's link column is appended after the
   * node's own, in order, and recorded under the recursion's key; selections
   * and predicates are kept.
   */
  lemma {:induction false} LinkedRecords(st: NodeState, location: Location, md: Metadata, recursions: seq<SqlNode>)
    requires st.table.Some? && Linked(st, location, md, recursions).Ok?
    ensures var r := Linked(st, location, md, recursions).value;
      && r.selections == st.selections && r.predicates == st.predicates
      && LinksFor(r.linkColumns, st.linkColumns, location, md, st.table.value, recursions)
      && KeysFor(r.recursionToColumn, location, md, st.table.value, recursions)
    decreases |recursions|
  {
    LinkedColumns(st, location, md, recursions);
    LinkedKeys(st, location, md, recursions);
    if recursions != [] {
      var prefix := recursions[..|recursions| - 1];
      assert Linked(st, location, md, prefix).Ok?;
      LinkedRecords(st, location, md, prefix);
      LinkedStep(st, location, md, recursions);
    }
  }

  /** One more recursion linked after a prefix that links. */
  lemma LinkedStep(st: NodeState, location: Location, md: Metadata, recursions: seq<SqlNode>)
    requires st.table.Some? && |recursions| > 0
    requires Linked(st, location, md, recursions[..|recursions| - 1]).Ok?
    ensures var s := Linked(st, location, md, recursions[..|recursions| - 1]).value;
      var last := recursions[|recursions| - 1];
      && (Unlinkable(md, location, last) ==>
            Linked(st, location, md, recursions) == Err(UnsupportedEdgeShape(location, last.relation)))
      && (!Unlinkable(md, location, last) ==>
            Linked(st, location, md, recursions)
              == Ok(WithLink(s, NodeKey(last), LinkColumnOf(md, location, st.table.value, last))))
  {
  }

  // ----- _create_recursive_clause

  /**
   * Direction `"in"` swaps the source and sink columns of direction `"out"`
   * and keeps the base column and the recursive table.
   */
  lemma ChooseColumnsSwap(md: Metadata, location: Location, relation: string, direction: string)
    requires direction != "in"
    ensures var o, i := ChooseColumns(md, location, relation, direction), ChooseColumns(md, location, relation, "in");
      && (o.Ok? <==> i.Ok?)
      && (o.Ok? ==> i.value == o.value.(sourceCol := o.value.sinkCol, sinkCol := o.value.sourceCol))
  {
  }

  /**
   * Outward, a basic edge is walked from its source to its sink over its own
   * table, keyed by its source; a multi-edge from its final hop's source to
   * its junction hop's sink over the junction table, keyed by the junction
   * hop's source.
   */
  lemma ChooseColumnsOut(md: Metadata, location: Location, relation: string, direction: string)
    requires direction != "in"
    ensures var edge, r := md.getEdge(location, relation), ChooseColumns(md, location, relation, direction);
      && (edge.BasicEdge? ==> r == Ok(RecursionColumns(edge.sourceCol, edge.sinkCol, edge.sourceCol,
                                                       Alias(md.getTable(relation)))))
      && (edge.MultiEdge? ==> r == Ok(RecursionColumns(edge.finalEdge.sourceCol, edge.junctionEdge.sinkCol,
                                                       edge.junctionEdge.sourceCol,
                                                       Alias(md.getTableByName(edge.junctionEdge.tableName)))))
  {
  }

  /**
   * The recursive clause is built exactly when the edge has a usable shape,
   * an in link column is given and the backend's combinator is one a
   * recursive CTE has; the edge is checked first, then the link column, then
   * the combinator, so an unsupported combinator is reported before any union
   * is built.
   */
  lemma RecursiveClauseAccepts(node: SqlNode, st: NodeState, md: Metadata, inColumn: Option<Expr>)
    requires node.block.Recurse? && st.table.Some? && st.fromClause.Some?
    ensures var r, otherEdge := RecursiveClauseFor(node, st, md, inColumn), md.getEdge(node.location, node.relation).OtherEdge?;
      && (r.Ok? <==> !otherEdge && inColumn.Some? && md.recursionCombinator in CteCombinators)
      && (otherEdge ==> r == Err(UnsupportedEdgeShape(node.location, node.relation)))
      && (!otherEdge && inColumn.None? ==> r == Err(MissingLinkColumn(node.location)))
      && (!otherEdge && inColumn.Some? && md.recursionCombinator !in CteCombinators ==>
            r == Err(UnsupportedRecursionCombinator(md.recursionCombinator)))
  {
  }

  /**
   * A built recursive clause: the node's from clause gains one inner join to
   * the recursive query, on its base column equal to the query's source
   * column; the query's sink column, relabelled, is appended to the link
   * columns, recorded under the query, and handed back as the out link column.
   */
  lemma RecursiveClauseShape(node: SqlNode, st: NodeState, md: Metadata, inColumn: Option<Expr>)
    requires node.block.Recurse? && st.table.Some? && st.fromClause.Some?
    requires RecursiveClauseFor(node, st, md, inColumn).Ok?
    ensures var cols := ChooseColumns(md, node.location, node.relation, node.block.direction).value;
      var t := st.table.value;
      var q := RecursiveQuery(t, cols, Column(t, NameOf(inColumn.value)), node.block.depth, md.recursionCombinator);
      var r := RecursiveClauseFor(node, st, md, inColumn).value;
      && r.1 == Label(Column(q, Named(cols.sinkCol)), None)
      && JoinsOnto(r.0.fromClause.value, st.fromClause.value)
         == Some([(InnerJoin, q, Eq(Column(t, Named(cols.baseCol)), Column(q, Named(cols.sourceCol))))])
      && r.0.linkColumns == st.linkColumns + [r.1]
      && r.0.recursionToColumn == st.recursionToColumn[QueryKey(q) := r.1]
      && r.0.selections == st.selections && r.0.predicates == st.predicates
      && r.0.recursions == st.recursions && r.0.table == st.table
  {
    var from := st.fromClause.value;
    var cols := ChooseColumns(md, node.location, node.relation, node.block.direction).value;
    var t := st.table.value;
    var q := RecursiveQuery(t, cols, Column(t, NameOf(inColumn.value)), node.block.depth, md.recursionCombinator);
    var r := RecursiveClauseFor(node, st, md, inColumn).value;
    assert r.0.fromClause == Some(Join(InnerJoin, from, q, Eq(Column(t, Named(cols.baseCol)), Column(q, Named(cols.sourceCol)))));
    var j := r.0.fromClause.value;
    assert j.Join? && j.left == from;
    assert JoinDepth(j) == JoinDepth(from) + 1;
    var x := (j.kind, j.right, j.on);
    assert JoinsOnto(j, from) == Some([] + [x]);
    assert [] + [x] == [x];
  }

  // ----- _collapse_query_tree

  /** The selections of `kids`, concatenated in order. */
  function SelectionsOf(kids: seq<NodeState>): seq<SqlBlock>
  {
    if kids == [] then [] else SelectionsOf(kids[..|kids| - 1]) + kids[|kids| - 1].selections
  }

  /** The predicates of `kids`, concatenated in order. */
  function PredicatesOf(kids: seq<NodeState>): seq<SqlBlock>
  {
    if kids == [] then [] else PredicatesOf(kids[..|kids| - 1]) + kids[|kids| - 1].predicates
  }

  /** The link columns of `kids`, concatenated in order. */
  function LinksOf(kids: seq<NodeState>): seq<Expr>
  {
    if kids == [] then [] else LinksOf(kids[..|kids| - 1]) + kids[|kids| - 1].linkColumns
  }

  /** The keys under which `kids` record link columns. */
  function KeysOf(kids: seq<NodeState>): set<RecursionKey>
  {
    if kids == [] then {} else KeysOf(kids[..|kids| - 1]) + kids[|kids| - 1].recursionToColumn.Keys
  }

  /** The joins absorbing `children` adds: each child's spine, in child order. */
  function SpinesOf(children: seq<SqlNode>, kids: seq<NodeState>, md: Metadata): seq<(JoinKind, Expr, Expr)>
    requires |children| == |kids| && forall k :: k in kids ==> k.fromClause.Some?
  {
    if kids == [] then []
    else
      var n := |kids|;
      SpinesOf(children[..n - 1], kids[..n - 1], md)
        + Spine(kids[n - 1].fromClause.value, md.onClausesFor(children[n - 1].location), children[n - 1].inOptional)
  }

  /** One more child absorbed: its collapsed state pulled up, then its joins. */
  lemma AbsorbedLast(st: NodeState, children: seq<SqlNode>, kids: seq<NodeState>, md: Metadata)
    requires |children| == |kids| > 0 && st.fromClause.Some?
    requires forall k :: k in kids ==> k.fromClause.Some?
    ensures var n := |kids|;
      var s := Absorbed(st, children[..n - 1], kids[..n - 1], md);
      && kids[n - 1].fromClause.Some?
      && Absorbed(st, children, kids, md)
         == PulledUp(s, kids[n - 1]).(fromClause := Some(Joined(s.fromClause.value, kids[n - 1].fromClause.value,
              md.onClausesFor(children[n - 1].location), children[n - 1].inOptional)))
  {
    assert kids[|kids| - 1] in kids;
  }

  /**
   * Absorbing collapsed children keeps the node's own selections and
   * predicates first and appends each child's after them, in child order.
   */
  lemma AbsorbedOrder(st: NodeState, children: seq<SqlNode>, kids: seq<NodeState>, md: Metadata)
    requires |children| == |kids| && st.fromClause.Some?
    requires forall k :: k in kids ==> k.fromClause.Some?
    ensures var r := Absorbed(st, children, kids, md);
      && r.selections == st.selections + SelectionsOf(kids)
      && r.predicates == st.predicates + PredicatesOf(kids)
  {
    AbsorbedSelections(st, children, kids, md);
    AbsorbedPredicates(st, children, kids, md);
  }

  lemma {:induction false} AbsorbedSelections(st: NodeState, children: seq<SqlNode>, kids: seq<NodeState>,
                                              md: Metadata)
    requires |children| == |kids| && st.fromClause.Some?
    requires forall k :: k in kids ==> k.fromClause.Some?
    ensures Absorbed(st, children, kids, md).selections == st.selections + SelectionsOf(kids)
    decreases |kids|
  {
    if kids != [] {
      var n := |kids|;
      var prefix := kids[..n - 1];
      AbsorbedSelections(st, children[..n - 1], prefix, md);
      AbsorbedLast(st, children, kids, md);
      var before := Absorbed(st, children[..n - 1], prefix, md).selections;
      assert Absorbed(st, children, kids, md).selections == before + kids[n - 1].selections;
      assert before + kids[n - 1].selections == st.selections + (SelectionsOf(prefix) + kids[n - 1].selections);
    }
  }

  lemma {:induction false} AbsorbedPredicates(st: NodeState, children: seq<SqlNode>, kids: seq<NodeState>,
                                              md: Metadata)
    requires |children| == |kids| && st.fromClause.Some?
    requires forall k :: k in kids ==> k.fromClause.Some?
    ensures Absorbed(st, children, kids, md).predicates == st.predicates + PredicatesOf(kids)
    decreases |kids|
  {
    if kids != [] {
      var n := |kids|;
      var prefix := kids[..n - 1];
      AbsorbedPredicates(st, children[..n - 1], prefix, md);
      AbsorbedLast(st, children, kids, md);
      var before := Absorbed(st, children[..n - 1], prefix, md).predicates;
      assert Absorbed(st, children, kids, md).predicates == before + kids[n - 1].predicates;
      assert before + kids[n - 1].predicates == st.predicates + (PredicatesOf(prefix) + kids[n - 1].predicates);
    }
  }

  /**
   * Absorbing collapsed children keeps the node's own link columns first and
   * appends each child's after them, in child order, and keeps every link entry.
   */
  lemma {:induction false} AbsorbedLinks(st: NodeState, children: seq<SqlNode>, kids: seq<NodeState>, md: Metadata)
    requires |children| == |kids| && st.fromClause.Some?
    requires forall k :: k in kids ==> k.fromClause.Some?
    ensures var r := Absorbed(st, children, kids, md);
      && r.linkColumns == st.linkColumns + LinksOf(kids)
      && r.recursionToColumn.Keys == st.recursionToColumn.Keys + KeysOf(kids)
    decreases |kids|
  {
    if kids != [] {
      var n := |kids|;
      var prefix := kids[..n - 1];
      AbsorbedLinks(st, children[..n - 1], prefix, md);
      AbsorbedLast(st, children, kids, md);
      var kid := kids[n - 1];
      assert st.linkColumns + LinksOf(prefix) + kid.linkColumns == st.linkColumns + LinksOf(kids);
    }
  }

  /** Absorbing collapsed children joins each one's spine onto the from clause, in child order. */
  lemma {:induction false} AbsorbedJoins(st: NodeState, children: seq<SqlNode>, kids: seq<NodeState>, md: Metadata)
    requires |children| == |kids| && st.fromClause.Some?
    requires forall k :: k in kids ==> k.fromClause.Some?
    ensures JoinsOnto(Absorbed(st, children, kids, md).fromClause.value, st.fromClause.value)
         == Some(SpinesOf(children, kids, md))
    decreases |kids|
  {
    if kids != [] {
      var n := |kids|;
      var s := Absorbed(st, children[..n - 1], kids[..n - 1], md);
      AbsorbedJoins(st, children[..n - 1], kids[..n - 1], md);
      AbsorbedLast(st, children, kids, md);
      var child, kid := children[n - 1], kids[n - 1];
      JoinedOnto(s.fromClause.value, st.fromClause.value, kid.fromClause.value,
                 md.onClausesFor(child.location), child.inOptional);
    }
  }

  /** The collapsed children are, one by one, the children collapsed. */
  lemma {:induction false} CollapsedKids(node: SqlNode, md: Metadata, kids: seq<NodeState>)
    requires node.Valid() && CollapsedChildren(node, md, 0) == Ok(kids)
    ensures |kids| == |node.childrenNodes|
    ensures forall j :: 0 <= j < |kids| ==> Collapsed(node.childrenNodes[j], md) == Ok(kids[j])
  {
    var k := 0;
    while k < |node.childrenNodes|
      invariant k <= |node.childrenNodes| == |kids| && CollapsedChildren(node, md, k) == Ok(kids[k..])
      invariant forall j :: 0 <= j < k ==> Collapsed(node.childrenNodes[j], md) == Ok(kids[j])
    {
      CollapsedChildrenStep(node, md, k);
      var rest := CollapsedChildren(node, md, k + 1).value;
      assert kids[k..] == [Collapsed(node.childrenNodes[k], md).value] + rest;
      assert kids[k + 1..] == kids[k..][1..] == rest;
      k := k + 1;
    }
  }

  /** A collapsed node: its children collapsed, its recursions linked, the children absorbed. */
  lemma CollapsedIsAbsorbed(node: SqlNode, md: Metadata)
    requires node.Valid() && Collapsed(node, md).Ok?
    ensures CollapsedChildren(node, md, 0).Ok?
    ensures Linked(Referenced(node.State(), TableFor(node, md)), node.location, md, node.recursions).Ok?
    ensures Collapsed(node, md).value
         == Absorbed(Linked(Referenced(node.State(), TableFor(node, md)), node.location, md, node.recursions).value,
                     node.childrenNodes, CollapsedChildren(node, md, 0).value, md)
  {
  }

  /**
   * Collapse handles every child before the node: the node's selections
   * become its own, pointed at its table, followed by each collapsed child's
   * in child order (likewise predicates and recursions); and its from clause
   * is its table joined to each collapsed child in child order.
   */
  lemma CollapsedOrder(node: SqlNode, md: Metadata)
    requires node.Valid() && Collapsed(node, md).Ok?
    ensures var c, t := Collapsed(node, md).value, TableFor(node, md);
      var kids := CollapsedChildren(node, md, 0).value;
      && |kids| == |node.childrenNodes|
      && (forall j :: 0 <= j < |kids| ==> Collapsed(node.childrenNodes[j], md) == Ok(kids[j]))
      && c.selections == WithTable(node.selections, t) + SelectionsOf(kids)
      && c.predicates == WithTable(node.predicates, t) + PredicatesOf(kids)
      && c.recursions == node.recursions + RecursionsOf(kids)
      && JoinsOnto(c.fromClause.value, t) == Some(SpinesOf(node.childrenNodes, kids, md))
  {
    var t := TableFor(node, md);
    var kids := CollapsedChildren(node, md, 0).value;
    CollapsedKids(node, md, kids);
    CollapsedIsAbsorbed(node, md);
    var linked := Linked(Referenced(node.State(), t), node.location, md, node.recursions).value;
    LinkedRecords(Referenced(node.State(), t), node.location, md, node.recursions);
    AbsorbedOrder(linked, node.childrenNodes, kids, md);
    AbsorbedJoins(linked, node.childrenNodes, kids, md);
    AbsorbedRecursions(linked, node.childrenNodes, kids, md);
  }

  /** Cutting a concatenation where its first part ends, or inside the first part. */
  lemma SplitAt<T>(a: seq<T>, b: seq<T>, n: nat)
    requires n <= |a|
    ensures (a + b)[..|a|] == a && (a + b)[|a|..] == b
    ensures (a + b)[..n] == a[..n] && forall i :: n <= i < |a| ==> (a + b)[i] == a[i]
  {
  }

  /**
   * The link columns of `c`: first `own`, then one per recursion of
   * `recursions` (each linkable, its column on `t`), then those of `kids` in
   * order.
   */
  ghost predicate LinkLayout(c: NodeState, own: seq<Expr>, location: Location, md: Metadata, t: Expr,
                             recursions: seq<SqlNode>, kids: seq<NodeState>)
  {
    && |c.linkColumns| == |own| + |recursions| + |LinksOf(kids)|
    && c.linkColumns[..|own|] == own
    && (forall i :: 0 <= i < |recursions| ==>
          !Unlinkable(md, location, recursions[i])
          && c.linkColumns[|own| + i] == LinkColumnOf(md, location, t, recursions[i]))
    && c.linkColumns[|own| + |recursions|..] == LinksOf(kids)
  }

  /** The layout, from the columns the links added and those the kids bring after them. */
  lemma LayoutOf(c: NodeState, own: seq<Expr>, location: Location, md: Metadata, t: Expr,
                 recursions: seq<SqlNode>, kids: seq<NodeState>, linked: seq<Expr>)
    requires c.linkColumns == linked + LinksOf(kids)
    requires LinksFor(linked, own, location, md, t, recursions)
    ensures LinkLayout(c, own, location, md, t, recursions, kids)
  {
    var links := LinksOf(kids);
    SplitAt(linked, links, |own|);
    forall i | 0 <= i < |recursions|
      ensures c.linkColumns[|own| + i] == LinkColumnOf(md, location, t, recursions[i])
    {
      assert c.linkColumns[|own| + i] == linked[|own| + i];
    }
  }

  /** The link columns `Absorbed` appends, on their own. */
  lemma AbsorbedLinkColumns(st: NodeState, children: seq<SqlNode>, kids: seq<NodeState>, md: Metadata)
    requires |children| == |kids| && st.fromClause.Some?
    requires forall k :: k in kids ==> k.fromClause.Some?
    ensures Absorbed(st, children, kids, md).linkColumns == st.linkColumns + LinksOf(kids)
  {
    AbsorbedLinks(st, children, kids, md);
  }

  /** Links recorded for `recursions` and then `kids` absorbed give that layout. */
  lemma AbsorbedLinkLayout(st: NodeState, location: Location, md: Metadata, recursions: seq<SqlNode>,
                           children: seq<SqlNode>, kids: seq<NodeState>)
    requires st.table.Some? && st.fromClause.Some? && Linked(st, location, md, recursions).Ok?
    requires |children| == |kids| && forall k :: k in kids ==> k.fromClause.Some?
    ensures LinkLayout(Absorbed(Linked(st, location, md, recursions).value, children, kids, md),
                       st.linkColumns, location, md, st.table.value, recursions, kids)
  {
    var linked := Linked(st, location, md, recursions).value;
    LinkedColumns(st, location, md, recursions);
    AbsorbedLinkColumns(linked, children, kids, md);
    LayoutOf(Absorbed(linked, children, kids, md), st.linkColumns, location, md, st.table.value,
             recursions, kids, linked.linkColumns);
  }

  /**
   * A collapsed node's link columns: its own, then one per recursion it held
   * (the edge's source column, or the junction hop's), then each collapsed
   * child's in child order.
   */
  lemma CollapsedLinks(node: SqlNode, md: Metadata)
    requires node.Valid() && Collapsed(node, md).Ok?
    ensures CollapsedChildren(node, md, 0).Ok?
    ensures LinkLayout(Collapsed(node, md).value, node.linkColumns, node.location, md, TableFor(node, md),
                       node.recursions, CollapsedChildren(node, md, 0).value)
  {
    var t := TableFor(node, md);
    CollapsedIsAbsorbed(node, md);
    var ref := Referenced(node.State(), t);
    assert ref.linkColumns == node.linkColumns && ref.table == Some(t);
    AbsorbedLinkLayout(ref, node.location, md, node.recursions, node.childrenNodes, CollapsedChildren(node, md, 0).value);
  }

  // ----- every recursion a collapsed node holds has its link recorded

  /** Each recursion `st` holds has a link column recorded under its key. */
  ghost predicate Covered(st: NodeState)
  {
    forall r :: r in st.recursions ==> NodeKey(r) in st.recursionToColumn
  }

  lemma {:induction false} InRecursionsOf(kids: seq<NodeState>, r: SqlNode)
    requires r in RecursionsOf(kids)
    ensures exists j :: 0 <= j < |kids| && r in kids[j].recursions
    decreases |kids|
  {
    var n := |kids|;
    if r !in kids[n - 1].recursions {
      InRecursionsOf(kids[..n - 1], r);
      var j :| 0 <= j < n - 1 && r in kids[..n - 1][j].recursions;
      assert kids[..n - 1][j] == kids[j];
    }
  }

  lemma {:induction false} InKeysOf(kids: seq<NodeState>, j: nat)
    requires j < |kids|
    ensures kids[j].recursionToColumn.Keys <= KeysOf(kids)
    decreases |kids|
  {
    var n := |kids|;
    if j < n - 1 {
      InKeysOf(kids[..n - 1], j);
      assert kids[..n - 1][j] == kids[j];
    }
  }

  /**
   * Collapse records a link column for every recursion the collapsed node
   * holds: its own, linked by `_create_links_for_recursions`, and those pulled
   * up from its children together with the children's entries.
   */
  lemma {:induction false} CollapsedCovered(node: SqlNode, md: Metadata)
    requires node.Valid() && Collapsed(node, md).Ok?
    ensures Covered(Collapsed(node, md).value)
    decreases node.Repr
  {
    var t := TableFor(node, md);
    var kids := CollapsedChildren(node, md, 0).value;
    CollapsedKids(node, md, kids);
    CollapsedIsAbsorbed(node, md);
    var ref := Referenced(node.State(), t);
    var linked := Linked(ref, node.location, md, node.recursions).value;
    LinkedRecords(ref, node.location, md, node.recursions);
    AbsorbedLinks(linked, node.childrenNodes, kids, md);
    AbsorbedRecursions(linked, node.childrenNodes, kids, md);
    var c := Collapsed(node, md).value;
    forall r | r in c.recursions
      ensures NodeKey(r) in c.recursionToColumn
    {
      if r in node.recursions {
        var i :| 0 <= i < |node.recursions| && node.recursions[i] == r;
      } else {
        InRecursionsOf(kids, r);
        var j :| 0 <= j < |kids| && r in kids[j].recursions;
        ChildApart(node, j);
        CollapsedCovered(node.childrenNodes[j], md);
        InKeysOf(kids, j);
      }
    }
  }

  /** Collapse can only fail on an edge of unsupported shape. */
  lemma {:induction false} CollapseFailsOnEdge(node: SqlNode, md: Metadata)
    requires node.Valid()
    ensures Collapsed(node, md).Err? ==> Collapsed(node, md).error.UnsupportedEdgeShape?
    decreases node.Repr, 1
  {
    CollapseChildrenFailOnEdge(node, md, 0);
    var kids := CollapsedChildren(node, md, 0);
    if kids.Ok? {
      LinkedAccepts(Referenced(node.State(), TableFor(node, md)), node.location, md, node.recursions);
    }
  }

  lemma {:induction false} CollapseChildrenFailOnEdge(node: SqlNode, md: Metadata, k: nat)
    requires node.Valid() && k <= |node.childrenNodes|
    ensures CollapsedChildren(node, md, k).Err? ==> CollapsedChildren(node, md, k).error.UnsupportedEdgeShape?
    decreases node.Repr, 0, |node.childrenNodes| - k
  {
    if k < |node.childrenNodes| {
      ChildApart(node, k);
      CollapseFailsOnEdge(node.childrenNodes[k], md);
      CollapseChildrenFailOnEdge(node, md, k + 1);
    }
  }

  /** The recursive clause only adds a link entry: every recorded one stays. */
  lemma RecursionStepKeeps(node: SqlNode, st: NodeState, md: Metadata, inColumn: Option<Expr>)
    requires st.table.Some? && st.fromClause.Some? && RecursionStep(node, st, md, inColumn).Ok?
    ensures Covered(st) ==> Covered(RecursionStep(node, st, md, inColumn).value.0)
  {
  }

  /**
   * Looking up a recursion's link column never fails: emission never reports
   * a missing link, because collapse recorded one for every recursion.
   */
  lemma {:induction false} EmittedFindsLinks(node: SqlNode, md: Metadata, inColumn: Option<Expr>)
    requires node.Valid() && node.Pristine()
    ensures Emitted(node, md, inColumn).Err? ==> !Emitted(node, md, inColumn).error.MissingRecursionLink?
    decreases node.Repr, 2
  {
    CollapsedRecursionsOwned(node, md);
    var c := Collapsed(node, md);
    CollapseFailsOnEdge(node, md);
    if c.Ok? {
      assert ReprsOf(c.value.recursions) <= node.Repr;
      CollapsedCovered(node, md);
      FinishedFindsLinks(node, c.value, md, inColumn);
    }
  }

  lemma {:induction false} FinishedFindsLinks(node: SqlNode, collapsed: NodeState, md: Metadata, inColumn: Option<Expr>)
    requires node.Valid() && OwnedBy(node, collapsed.recursions) && Untouched(ReprsOf(collapsed.recursions))
    requires collapsed.table.Some? && collapsed.fromClause.Some? && Covered(collapsed)
    ensures Finished(node, collapsed, md, inColumn).Err? ==>
      !Finished(node, collapsed, md, inColumn).error.MissingRecursionLink?
    decreases node.Repr, 1
  {
    var step := RecursionStep(node, collapsed, md, inColumn);
    if step.Ok? {
      RecursionStepKeeps(node, collapsed, md, inColumn);
      var wrapped := Wrapped(step.value.0, CreateBaseQuery(node.location, step.value.0, md), md);
      TraversedFindsLinks(node, wrapped, md, 0, wrapped.fromClause.value, []);
    }
  }

  lemma {:induction false} TraversedFindsLinks(node: SqlNode, st: NodeState, md: Metadata, k: nat, from: Expr,
                                               extra: seq<SqlBlock>)
    requires node.Valid() && OwnedBy(node, st.recursions) && st.table.Some? && k <= |st.recursions|
    requires Untouched(ReprsOf(st.recursions)) && Covered(st)
    ensures Traversed(node, st, md, k, from, extra).Err? ==>
      !Traversed(node, st, md, k, from, extra).error.MissingRecursionLink?
    decreases node.Repr, 0, |st.recursions| - k
  {
    if k < |st.recursions| {
      var recursion := st.recursions[k];
      assert recursion in st.recursions;
      assert recursion.Repr <= ReprsOf(st.recursions);
      var inColumn := st.recursionToColumn[NodeKey(recursion)];
      EmittedFindsLinks(recursion, md, Some(inColumn));
      var joined := Round(node.location, recursion.location, RoundOf(st.recursionToColumn, recursion, md),
                          st.table.value, from);
      if joined.Ok? {
        TraversedFindsLinks(node, st, md, k + 1, joined.value.0, extra + joined.value.1);
      }
    }
  }

  // ----- _traverse_recursions and the shape of what a node hands back

  /**
   * Traversing the recursions from the `k`-th on joins each one by exactly one
   * inner join, in order.
   */
  lemma {:induction false} TraversedSpine(node: SqlNode, st: NodeState, md: Metadata, k: nat, from: Expr,
                                          extra: seq<SqlBlock>)
    requires node.Valid() && OwnedBy(node, st.recursions) && st.table.Some? && k <= |st.recursions|
    requires Untouched(ReprsOf(st.recursions))
    ensures var t := Traversed(node, st, md, k, from, extra);
      t.Ok? ==> && JoinsOnto(t.value.0, from).Some?
                && |JoinsOnto(t.value.0, from).value| == |st.recursions| - k
                && (forall j :: j in JoinsOnto(t.value.0, from).value ==> j.0 == InnerJoin)
    decreases |st.recursions| - k
  {
    if k < |st.recursions| {
      var recursion := st.recursions[k];
      assert recursion in st.recursions;
      assert recursion.Repr <= ReprsOf(st.recursions);
      var joined := Round(node.location, recursion.location, RoundOf(st.recursionToColumn, recursion, md),
                          st.table.value, from);
      if joined.Ok? {
        var next := joined.value.0;
        var more := extra + joined.value.1;
        TraversedSpine(node, st, md, k + 1, next, more);
        var t := Traversed(node, st, md, k, from, extra);
        if t.Ok? {
          assert t == Traversed(node, st, md, k + 1, next, more);
          JoinsOntoUnder(t.value.0, from, next.kind, next.right, next.on);
        }
      }
    }
  }

  /**
   * The selections the rounds `outs` from the `k`-th on find left by their
   * recursions' emissions, in order (none for a round that does not emit).
   */
  function SelectionsAlong(outs: seq<RoundOutcome>, k: nat): seq<SqlBlock>
    requires k <= |outs|
    decreases |outs| - k
  {
    if k == |outs| then []
    else
      (if outs[k].Some? && outs[k].value.1.Ok? then outs[k].value.1.value.0.selections else [])
        + SelectionsAlong(outs, k + 1)
  }

  /** Rounds that all succeed append to `extra` the selections of each emission, in order. */
  lemma {:induction false} TraversedAlongSelections(location: Location, recursions: seq<SqlNode>,
                                                    outs: seq<RoundOutcome>, table: Expr, k: nat, from: Expr,
                                                    extra: seq<SqlBlock>)
    requires |outs| == |recursions| && k <= |outs| && Emittable(outs)
    ensures var t := TraversedAlong(location, recursions, outs, table, k, from, extra);
      t.Ok? ==> t.value.1 == extra + SelectionsAlong(outs, k)
    decreases |outs| - k
  {
    if k < |outs| {
      var joined := Round(location, recursions[k].location, outs[k], table, from);
      if joined.Ok? {
        var selections := joined.value.1;
        var rest := SelectionsAlong(outs, k + 1);
        assert Joinable(outs[k]);
        TraversedAlongSelections(location, recursions, outs, table, k + 1, joined.value.0, extra + selections);
        assert extra + selections + rest == extra + (selections + rest);
      }
    }
  }

  /**
   * `_traverse_recursions`, when it succeeds, adds after the node's own
   * selections those of each recursion's emission, in the recursions' order.
   */
  lemma TraversedSelections(node: SqlNode, st: NodeState, md: Metadata, outs: seq<RoundOutcome>, from: Expr)
    requires node.Valid() && OwnedBy(node, st.recursions) && Untouched(ReprsOf(st.recursions))
    requires st.table.Some? && OutcomesOf(st, md, outs)
    ensures var t := Traversed(node, st, md, 0, from, []);
      t.Ok? ==> t.value.1 == SelectionsAlong(outs, 0)
  {
    TraversedIsAlong(node, st, md, outs, 0, from, []);
    TraversedAlongSelections(node.location, st.recursions, outs, st.table.value, 0, from, []);
  }

  /**
   * What a collapsed node hands back: the root its final query, over every
   * selection it ends with and with no where-clause; any other node its
   * recursion out column, present exactly for a `Recurse` node. Either way the
   * node ends wrapped as a CTE, joined to each of its recursions by one inner
   * join.
   */
  lemma FinishedShape(node: SqlNode, collapsed: NodeState, md: Metadata, inColumn: Option<Expr>)
    requires node.Valid() && OwnedBy(node, collapsed.recursions) && Untouched(ReprsOf(collapsed.recursions))
    requires collapsed.table.Some? && collapsed.fromClause.Some?
    requires Finished(node, collapsed, md, inColumn).Ok?
    ensures var (st, emission) := Finished(node, collapsed, md, inColumn).value;
      && (node.parentNode.None? ==>
            && emission.FinalQuery?
            && emission.query.Select? && emission.query.where.None?
            && emission.query.from == st.fromClause && emission.query.columns == ColumnsOf(md, st.selections))
      && (node.parentNode.Some? ==> emission.RecursionOut? && (emission.column.Some? <==> node.block.Recurse?))
      && st.table.value.Cte? && !st.table.value.recursive
      && JoinsOnto(st.fromClause.value, st.table.value).Some?
      && |JoinsOnto(st.fromClause.value, st.table.value).value| == |collapsed.recursions|
      && (forall j :: j in JoinsOnto(st.fromClause.value, st.table.value).value ==> j.0 == InnerJoin)
  {
    var step := RecursionStep(node, collapsed, md, inColumn).value;
    var wrapped := Wrapped(step.0, CreateBaseQuery(node.location, step.0, md), md);
    TraversedSpine(node, wrapped, md, 0, wrapped.fromClause.value, []);
  }
}
