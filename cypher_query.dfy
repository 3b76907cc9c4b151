/** Lowering of a flat list of IR blocks into Cypher steps
    (graphql_compiler/compiler/cypher_query.py).

    `Convert` is the specification: a left-to-right fold (`RunSteps`) over
    the blocks before GlobalOperationsStart, then the last step and the
    global-operations tail. `ConvertToCypherQuery` is the loop of the source,
    proved equal to it. */
module Cypher {
  import opened Wrappers
  import opened IrBlocks

  /** One component of the Cypher MATCH pattern. */
  datatype CypherStep = CypherStep(
    linkedLocation: Option<Location>,
    stepBlock: Block,
    stepTypes: set<TypeName>,
    whereBlock: Option<Block>,
    asBlock: Block)

  /** The whole Cypher query. */
  datatype CypherQuery = CypherQuery(
    steps: seq<CypherStep>,
    folds: map<Location, seq<Block>>,
    globalWhereBlock: Option<Block>,
    outputBlock: Block)

  /** What the fold extractor returns: the blocks of each @fold scope, and the
      blocks that remain once they are taken out. */
  datatype FoldSplit = FoldSplit(folds: map<Location, seq<Block>>, remaining: seq<Block>)

  /** The ways the source raises on IR it does not expect. */
  datatype MalformedIr =
    | UnexpectedStepBlocks(blocks: seq<Block>)
    | QueryRootNotFirst(block: Block)
    | UnexpectedBlock(block: Block)
    | NoOpenStep(block: Block)
    | NoStepBlocks  // a step is to be built while no step is open
    | NotSingleton(types: set<TypeName>)
    | MissingGlobalOperationsStart
    | UnexpectedGlobalOperations(blocks: seq<Block>)

  predicate IsStepBlock(b: Block) {
    b.Traverse? || b.Recurse?
  }

  predicate IsLinkedLocationSource(b: Block) {
    b.MarkLocation? || b.Backtrack?
  }

  predicate IsDiscarded(b: Block) {
    b.Unfold? || b.OutputSource? || b.EndOptional?
  }

  predicate NoGlobalOperationsStart(bs: seq<Block>) {
    forall i :: 0 <= i < |bs| ==> !bs[i].GlobalOperationsStart?
  }

  lemma SingletonIsDisplay(types: set<TypeName>)
    requires |types| == 1
    ensures exists t :: types == {t}
  {
    var t :| t in types;
    assert |types - {t}| == 0;
    assert types == {t};
  }

  /** The single element of a collection; raises unless there is exactly one. */
  function OnlyElement(types: set<TypeName>): (r: Result<TypeName, MalformedIr>)
    ensures r.Ok? <==> |types| == 1
    ensures r.Ok? ==> types == {r.value}
  {
    if |types| == 1 then
      SingletonIsDisplay(types);
      var t :| t in types;
      Ok(t)
    else
      Err(NotSingleton(types))
  }

  /** The set of type labels a vertex of the given exact type must carry.
      Supertype expansion is an extension point: every type is one of its own
      supertypes, and today it is the only one. */
  function SupertypesOfExactType(exactType: TypeName): (types: set<TypeName>)
    ensures exactType in types
    ensures types == {exactType}
  {
    {exactType}
  }

  /** The two block shapes that can form the first step. */
  predicate IsRootStepShape(blocks: seq<Block>) {
    || Kinds(blocks) == [QueryRootKind, FilterKind, MarkLocationKind]
    || Kinds(blocks) == [QueryRootKind, MarkLocationKind]
  }

  /** The two shapes that can follow the Traverse or Recurse of a later step. */
  predicate IsTraversalStepShape(blocks: seq<Block>) {
    && |blocks| > 0
    && (|| Kinds(blocks[1..]) == [CoerceTypeKind, FilterKind, MarkLocationKind]
        || Kinds(blocks[1..]) == [CoerceTypeKind, MarkLocationKind])
  }

  function MakeQueryRootCypherStep(linkedLocation: Option<Location>, blocks: seq<Block>)
    : (r: Result<CypherStep, MalformedIr>)
    ensures r.Ok? <==> IsRootStepShape(blocks) && |blocks[0].startClass| == 1
    ensures r.Ok? ==>
      && r.value.linkedLocation == linkedLocation
      && r.value.stepBlock == blocks[0]
      && r.value.stepTypes == blocks[0].startClass
      && r.value.whereBlock == (if |blocks| == 3 then Some(blocks[1]) else None)
      && r.value.asBlock == blocks[|blocks| - 1]
      && r.value.asBlock.MarkLocation?
  {
    var kinds := Kinds(blocks);
    if kinds == [QueryRootKind, FilterKind, MarkLocationKind] then
      var exactStepType :- OnlyElement(blocks[0].startClass);
      Ok(CypherStep(linkedLocation, blocks[0], SupertypesOfExactType(exactStepType), Some(blocks[1]), blocks[2]))
    else if kinds == [QueryRootKind, MarkLocationKind] then
      var exactStepType :- OnlyElement(blocks[0].startClass);
      Ok(CypherStep(linkedLocation, blocks[0], SupertypesOfExactType(exactStepType), None, blocks[1]))
    else
      Err(UnexpectedStepBlocks(blocks))
  }

  /** Where the required types of a step come from: the root's start class,
      or the target class of the coercion that follows a traversal. */
  function StepTypeSource(blocks: seq<Block>): set<TypeName>
    requires |blocks| > 0
  {
    if blocks[0].QueryRoot? then blocks[0].startClass
    else if |blocks| > 1 && blocks[1].CoerceType? then blocks[1].targetClass
    else {}
  }

  function MakeCypherStep(linkedLocation: Option<Location>, currentStepBlocks: Option<seq<Block>>)
    : (r: Result<CypherStep, MalformedIr>)
    ensures r.Ok? <==>
      && currentStepBlocks.Some?
      && |currentStepBlocks.value| > 0
      && (if currentStepBlocks.value[0].QueryRoot?
          then IsRootStepShape(currentStepBlocks.value)
          else IsTraversalStepShape(currentStepBlocks.value))
      && |StepTypeSource(currentStepBlocks.value)| == 1
    ensures r.Ok? ==>
      var blocks := currentStepBlocks.value;
      && r.value.linkedLocation == linkedLocation
      && r.value.stepBlock == blocks[0]
      && r.value.stepTypes == StepTypeSource(blocks)
      && |r.value.stepTypes| == 1
      && r.value.whereBlock == (if |blocks| == 4 || (blocks[0].QueryRoot? && |blocks| == 3)
                                then Some(blocks[|blocks| - 2]) else None)
      && (r.value.whereBlock.Some? ==> r.value.whereBlock.value.Filter?)
      && r.value.asBlock == blocks[|blocks| - 1]
      && r.value.asBlock.MarkLocation?
  {
    match currentStepBlocks
    case None => Err(NoStepBlocks)
    case Some(blocks) =>
      if |blocks| == 0 then
        Err(UnexpectedStepBlocks(blocks))
      else if blocks[0].QueryRoot? then
        MakeQueryRootCypherStep(linkedLocation, blocks)
      else
        var remainingKinds := Kinds(blocks[1..]);
        if remainingKinds == [CoerceTypeKind, FilterKind, MarkLocationKind] then
          var exactStepType :- OnlyElement(blocks[1].targetClass);
          Ok(CypherStep(linkedLocation, blocks[0], SupertypesOfExactType(exactStepType), Some(blocks[2]), blocks[3]))
        else if remainingKinds == [CoerceTypeKind, MarkLocationKind] then
          var exactStepType :- OnlyElement(blocks[1].targetClass);
          Ok(CypherStep(linkedLocation, blocks[0], SupertypesOfExactType(exactStepType), None, blocks[2]))
        else
          Err(UnexpectedStepBlocks(blocks))
  }

  /** The global-operations tail: an optional post-filter, then the output. */
  function GlobalOperations(blocks: seq<Block>): (r: Result<(Option<Block>, Block), MalformedIr>)
    ensures r.Ok? <==>
      Kinds(blocks) == [FilterKind, ConstructResultKind] || Kinds(blocks) == [ConstructResultKind]
    ensures r.Ok? ==>
      && r.value.1 == blocks[|blocks| - 1]
      && r.value.1.ConstructResult?
      && r.value.0 == (if |blocks| == 2 then Some(blocks[0]) else None)
      && (r.value.0.Some? ==> r.value.0.value.Filter?)
  {
    var kinds := Kinds(blocks);
    if kinds == [FilterKind, ConstructResultKind] then
      Ok((Some(blocks[0]), blocks[1]))
    else if kinds == [ConstructResultKind] then
      Ok((None, blocks[0]))
    else
      Err(UnexpectedGlobalOperations(blocks))
  }

  /** The index of the first GlobalOperationsStart, if any. */
  function FirstGlobalOperationsStart(bs: seq<Block>): (r: Option<nat>)
    ensures r.None? ==> NoGlobalOperationsStart(bs)
    ensures r.Some? ==>
      && r.value < |bs|
      && bs[r.value].GlobalOperationsStart?
      && NoGlobalOperationsStart(bs[..r.value])
  {
    if bs == [] then None
    else if bs[0].GlobalOperationsStart? then Some(0)
    else
      match FirstGlobalOperationsStart(bs[1..])
      case None => None
      case Some(i) =>
        assert bs[..i + 1] == [bs[0]] + bs[1..][..i];
        Some(i + 1)
  }

  /** The variables the source's loop carries from block to block. */
  datatype AssemblyState = AssemblyState(
    steps: seq<CypherStep>,
    currentStepBlocks: Option<seq<Block>>,
    linkedLocation: Option<Location>,
    nextLinkedLocation: Option<Location>)

  const InitialState := AssemblyState([], None, None, None)

  /** One iteration of the loop, for any block but GlobalOperationsStart. */
  function Advance(s: AssemblyState, b: Block): Result<AssemblyState, MalformedIr>
    requires !b.GlobalOperationsStart?
  {
    match b
    case QueryRoot(_) =>
      if s.currentStepBlocks.Some? then Err(QueryRootNotFirst(b))
      else Ok(s.(currentStepBlocks := Some([b])))
    case Traverse(_, _) | Recurse(_, _, _) =>
      var step :- MakeCypherStep(s.linkedLocation, s.currentStepBlocks);
      Ok(AssemblyState(s.steps + [step], Some([b]), s.nextLinkedLocation, None))
    case MarkLocation(location) =>
      if s.currentStepBlocks.None? then Err(NoOpenStep(b))
      else Ok(s.(nextLinkedLocation := Some(location),
                 currentStepBlocks := Some(s.currentStepBlocks.value + [b])))
    case Backtrack(location) =>
      Ok(s.(nextLinkedLocation := Some(location)))
    case Unfold | OutputSource | EndOptional =>
      Ok(s)
    case Filter(_) | CoerceType(_) =>
      if s.currentStepBlocks.None? then Err(NoOpenStep(b))
      else Ok(s.(currentStepBlocks := Some(s.currentStepBlocks.value + [b])))
    case Fold(_) | ConstructResult(_) | GlobalOperationsStart =>
      Err(UnexpectedBlock(b))
  }

  /** The loop state after the given blocks, taken left to right. */
  function RunSteps(p: seq<Block>): Result<AssemblyState, MalformedIr>
    requires NoGlobalOperationsStart(p)
    decreases |p|
  {
    if p == [] then Ok(InitialState)
    else
      var s :- RunSteps(p[..|p| - 1]);
      Advance(s, p[|p| - 1])
  }

  /** The specification of convert_to_cypher_query. */
  function Convert(irBlocks: seq<Block>, extractFolds: seq<Block> -> FoldSplit)
    : Result<CypherQuery, MalformedIr>
  {
    var split := extractFolds(irBlocks);
    var remaining := split.remaining;
    match FirstGlobalOperationsStart(remaining)
    case None =>
      var s :- RunSteps(remaining);
      Err(MissingGlobalOperationsStart)
    case Some(g) =>
      var s :- RunSteps(remaining[..g]);
      var lastStep :- MakeCypherStep(s.linkedLocation, s.currentStepBlocks);
      var globals :- GlobalOperations(remaining[g + 1..]);
      Ok(CypherQuery(s.steps + [lastStep], split.folds, globals.0, globals.1))
  }

  /** Once the fold has failed, later blocks do not change the error. */
  lemma {:induction false} RunStepsErrorPersists(p: seq<Block>, n: nat)
    requires NoGlobalOperationsStart(p) && n <= |p|
    requires RunSteps(p[..n]).Err?
    ensures RunSteps(p) == RunSteps(p[..n])
    decreases |p|
  {
    if n == |p| {
      assert p[..n] == p;
    } else {
      var q := p[..|p| - 1];
      assert q[..n] == p[..n];
      RunStepsErrorPersists(q, n);
    }
  }

  /** An error raised by the loop at some block is the error of the whole conversion. */
  lemma ConvertFailsEarly(irBlocks: seq<Block>, extractFolds: seq<Block> -> FoldSplit, i: nat)
    requires var remaining := extractFolds(irBlocks).remaining;
      && i < |remaining|
      && NoGlobalOperationsStart(remaining[..i + 1])
      && RunSteps(remaining[..i + 1]).Err?
    ensures Convert(irBlocks, extractFolds) == RunSteps(extractFolds(irBlocks).remaining[..i + 1]).PropagateFailure()
  {
    var remaining := extractFolds(irBlocks).remaining;
    match FirstGlobalOperationsStart(remaining)
    case None =>
      assert remaining[..|remaining|] == remaining;
      RunStepsErrorPersists(remaining, i + 1);
    case Some(g) =>
      assert forall k :: 0 <= k <= i ==> remaining[..i + 1][k] == remaining[k];
      assert remaining[..g][..i + 1] == remaining[..i + 1];
      RunStepsErrorPersists(remaining[..g], i + 1);
  }

  /** One more block taken by the loop. */
  lemma RunStepsNext(p: seq<Block>, i: nat, s: AssemblyState)
    requires i < |p| && !p[i].GlobalOperationsStart?
    requires NoGlobalOperationsStart(p[..i]) && RunSteps(p[..i]) == Ok(s)
    ensures NoGlobalOperationsStart(p[..i + 1])
    ensures RunSteps(p[..i + 1]) == Advance(s, p[i])
  {
    assert forall k :: 0 <= k < i ==> p[..i + 1][k] == p[..i][k];
    assert p[..i + 1][..i] == p[..i];
  }

  /** The loop raising at block i in state s is the conversion raising. */
  lemma LoopRaises(irBlocks: seq<Block>, extractFolds: seq<Block> -> FoldSplit,
                   i: nat, s: AssemblyState, e: MalformedIr)
    requires var remaining := extractFolds(irBlocks).remaining;
      && i < |remaining| && !remaining[i].GlobalOperationsStart?
      && NoGlobalOperationsStart(remaining[..i])
      && RunSteps(remaining[..i]) == Ok(s)
      && Advance(s, remaining[i]) == Err(e)
    ensures Convert(irBlocks, extractFolds) == Err(e)
  {
    RunStepsNext(extractFolds(irBlocks).remaining, i, s);
    ConvertFailsEarly(irBlocks, extractFolds, i);
  }

  /** The first GlobalOperationsStart is the one with none before it. */
  lemma FirstGlobalOperationsStartAt(bs: seq<Block>, g: nat)
    requires g < |bs| && bs[g].GlobalOperationsStart? && NoGlobalOperationsStart(bs[..g])
    ensures FirstGlobalOperationsStart(bs) == Some(g)
  {
    var r := FirstGlobalOperationsStart(bs);
    assert forall j :: 0 <= j < g ==> bs[..g][j] == bs[j];
    if r.Some? {
      assert forall j :: 0 <= j < r.value ==> bs[..r.value][j] == bs[j];
    }
  }

  /** Once the loop reaches the GlobalOperationsStart at g in state s, what
      remains of the conversion is the last step and the tail. */
  lemma ConvertAtGlobalOperations(irBlocks: seq<Block>, extractFolds: seq<Block> -> FoldSplit,
                                  g: nat, s: AssemblyState)
    requires var remaining := extractFolds(irBlocks).remaining;
      && g < |remaining| && remaining[g].GlobalOperationsStart?
      && NoGlobalOperationsStart(remaining[..g])
      && RunSteps(remaining[..g]) == Ok(s)
    ensures Convert(irBlocks, extractFolds) ==
      var lastStep :- MakeCypherStep(s.linkedLocation, s.currentStepBlocks);
      var globals :- GlobalOperations(extractFolds(irBlocks).remaining[g + 1..]);
      Ok(CypherQuery(s.steps + [lastStep], extractFolds(irBlocks).folds, globals.0, globals.1))
  {
    FirstGlobalOperationsStartAt(extractFolds(irBlocks).remaining, g);
  }

  /** convert_to_cypher_query: one pass over the blocks left by the fold extractor. */
  method ConvertToCypherQuery(irBlocks: seq<Block>, extractFolds: seq<Block> -> FoldSplit)
    returns (r: Result<CypherQuery, MalformedIr>)
    ensures r == Convert(irBlocks, extractFolds)
    ensures r.Ok? ==> |r.value.steps| > 0 && r.value.folds == extractFolds(irBlocks).folds
  {
    var steps: seq<CypherStep> := [];
    var currentStepBlocks: Option<seq<Block>> := None;
    var linkedLocation: Option<Location> := None;
    var nextLinkedLocation: Option<Location> := None;

    var split := extractFolds(irBlocks);
    var folds, remainingIrBlocks := split.folds, split.remaining;

    var globalOperationsIndex: Option<nat> := None;

    var currentBlockIndex := 0;
    while currentBlockIndex < |remainingIrBlocks|
      invariant currentBlockIndex <= |remainingIrBlocks|
      invariant NoGlobalOperationsStart(remainingIrBlocks[..currentBlockIndex])
      invariant RunSteps(remainingIrBlocks[..currentBlockIndex])
                == Ok(AssemblyState(steps, currentStepBlocks, linkedLocation, nextLinkedLocation))
      invariant globalOperationsIndex.None?
    {
      var block := remainingIrBlocks[currentBlockIndex];
      var before := AssemblyState(steps, currentStepBlocks, linkedLocation, nextLinkedLocation);
      if block.GlobalOperationsStart? {
        ConvertAtGlobalOperations(irBlocks, extractFolds, currentBlockIndex, before);
        var cypherStep := MakeCypherStep(linkedLocation, currentStepBlocks);
        if cypherStep.Err? {
          return Err(cypherStep.error);
        }
        steps := steps + [cypherStep.value];
        currentStepBlocks := None;
        globalOperationsIndex := Some(currentBlockIndex);
        break;
      }
      RunStepsNext(remainingIrBlocks, currentBlockIndex, before);
      if block.QueryRoot? {
        if currentStepBlocks.Some? {
          LoopRaises(irBlocks, extractFolds, currentBlockIndex, before, QueryRootNotFirst(block));
          return Err(QueryRootNotFirst(block));
        }
        currentStepBlocks := Some([block]);
      } else if IsStepBlock(block) {
        var cypherStep := MakeCypherStep(linkedLocation, currentStepBlocks);
        if cypherStep.Err? {
          LoopRaises(irBlocks, extractFolds, currentBlockIndex, before, cypherStep.error);
          return Err(cypherStep.error);
        }
        steps := steps + [cypherStep.value];
        linkedLocation := nextLinkedLocation;
        nextLinkedLocation := None;
        currentStepBlocks := Some([block]);
      } else if IsLinkedLocationSource(block) {
        nextLinkedLocation := Some(block.location);
        if block.MarkLocation? {
          if currentStepBlocks.None? {
            LoopRaises(irBlocks, extractFolds, currentBlockIndex, before, NoOpenStep(block));
            return Err(NoOpenStep(block));
          }
          currentStepBlocks := Some(currentStepBlocks.value + [block]);
        }
      } else if IsDiscarded(block) {
        // These blocks do not change the generated query.
      } else if block.Filter? || block.CoerceType? {
        if currentStepBlocks.None? {
          LoopRaises(irBlocks, extractFolds, currentBlockIndex, before, NoOpenStep(block));
          return Err(NoOpenStep(block));
        }
        currentStepBlocks := Some(currentStepBlocks.value + [block]);
      } else {
        LoopRaises(irBlocks, extractFolds, currentBlockIndex, before, UnexpectedBlock(block));
        return Err(UnexpectedBlock(block));
      }
      currentBlockIndex := currentBlockIndex + 1;
    }

    if globalOperationsIndex.None? {
      assert remainingIrBlocks[..currentBlockIndex] == remainingIrBlocks;
      return Err(MissingGlobalOperationsStart);
    }

    var globalOperationsBlocks := remainingIrBlocks[globalOperationsIndex.value + 1..];
    var globalOperationsKinds := Kinds(globalOperationsBlocks);
    var globalWhereBlock: Option<Block>;
    var outputBlock: Block;
    if globalOperationsKinds == [FilterKind, ConstructResultKind] {
      globalWhereBlock, outputBlock := Some(globalOperationsBlocks[0]), globalOperationsBlocks[1];
    } else if globalOperationsKinds == [ConstructResultKind] {
      globalWhereBlock, outputBlock := None, globalOperationsBlocks[0];
    } else {
      return Err(UnexpectedGlobalOperations(globalOperationsBlocks));
    }

    return Ok(CypherQuery(steps, folds, globalWhereBlock, outputBlock));
  }
}
