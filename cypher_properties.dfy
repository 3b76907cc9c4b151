/** What convert_to_cypher_query promises, stated over an independent
    description of its input: the step section is cut into segments, one per
    QueryRoot, Traverse or Recurse block, and each step is built from the
    blocks of its own segment, linked to the last location marked or
    backtracked to in the segment before it. */
module CypherProperties {
  import opened Wrappers
  import opened IrBlocks
  import opened Cypher

  /** A block that opens a new step. */
  predicate IsOpener(b: Block) {
    b.QueryRoot? || IsStepBlock(b)
  }

  /** A block the loop puts into a step buffer. */
  predicate IsBuffered(b: Block) {
    IsOpener(b) || b.MarkLocation? || b.Filter? || b.CoerceType?
  }

  /** The blocks that open steps, in order. */
  function Openers(p: seq<Block>): seq<Block>
    decreases |p|
  {
    if p == [] then []
    else Openers(p[..|p| - 1]) + (if IsOpener(p[|p| - 1]) then [p[|p| - 1]] else [])
  }

  /** The blocks of p that the loop keeps in a step buffer, in order. */
  function Kept(p: seq<Block>): seq<Block>
    decreases |p|
  {
    if p == [] then []
    else Kept(p[..|p| - 1]) + (if IsBuffered(p[|p| - 1]) then [p[|p| - 1]] else [])
  }

  /** The location of the last MarkLocation or Backtrack in p. */
  function LinkSource(p: seq<Block>): Option<Location>
    decreases |p|
  {
    if p == [] then None
    else if IsLinkedLocationSource(p[|p| - 1]) then Some(p[|p| - 1].location)
    else LinkSource(p[..|p| - 1])
  }

  /** p cut before each opener; blocks before the first opener belong to no segment. */
  function Segments(p: seq<Block>): (segs: seq<seq<Block>>)
    ensures forall k :: 0 <= k < |segs| ==> |segs[k]| > 0 && IsOpener(segs[k][0])
    decreases |p|
  {
    if p == [] then []
    else
      var prev := Segments(p[..|p| - 1]);
      var b := p[|p| - 1];
      if IsOpener(b) then prev + [[b]]
      else if prev == [] then []
      else prev[..|prev| - 1] + [prev[|prev| - 1] + [b]]
  }

  /** The linked location the k-th step should carry. */
  function LinkFor(segs: seq<seq<Block>>, k: nat): Option<Location>
    requires k < |segs|
  {
    if k == 0 then None else LinkSource(segs[k - 1])
  }

  lemma SnocParts(q: seq<Block>, b: Block)
    ensures (q + [b])[..|q|] == q && (q + [b])[|q|] == b && |q + [b]| == |q| + 1
  {
  }

  lemma SegmentsSnoc(q: seq<Block>, b: Block)
    ensures Segments(q + [b]) ==
      if IsOpener(b) then Segments(q) + [[b]]
      else if Segments(q) == [] then []
      else Segments(q)[..|Segments(q)| - 1] + [Segments(q)[|Segments(q)| - 1] + [b]]
  {
    SnocParts(q, b);
  }

  lemma KeptSnoc(q: seq<Block>, b: Block)
    ensures Kept(q + [b]) == Kept(q) + (if IsBuffered(b) then [b] else [])
  {
    SnocParts(q, b);
  }

  lemma LinkSourceSnoc(q: seq<Block>, b: Block)
    ensures LinkSource(q + [b]) == if IsLinkedLocationSource(b) then Some(b.location) else LinkSource(q)
  {
    SnocParts(q, b);
  }

  lemma OpenersSnoc(q: seq<Block>, b: Block)
    ensures Openers(q + [b]) == Openers(q) + (if IsOpener(b) then [b] else [])
  {
    SnocParts(q, b);
  }

  lemma SingletonSegment(b: Block)
    requires IsOpener(b)
    ensures Kept([b]) == [b] && LinkSource([b]) == None
  {
    assert [b] == [] + [b];
    KeptSnoc([], b);
    LinkSourceSnoc([], b);
  }

  lemma {:induction false} KeptHead(seg: seq<Block>)
    requires |seg| > 0 && IsOpener(seg[0])
    ensures |Kept(seg)| > 0 && Kept(seg)[0] == seg[0]
    decreases |seg|
  {
    var q, b := seg[..|seg| - 1], seg[|seg| - 1];
    assert seg == q + [b];
    KeptSnoc(q, b);
    if |seg| > 1 {
      KeptHead(q);
    } else {
      assert q == [];
    }
  }

  /** A buffer that ends in a MarkLocation comes from a segment with a link source. */
  lemma {:induction false} KeptEndsInMarkLocation(seg: seq<Block>)
    requires |Kept(seg)| > 0 && Kept(seg)[|Kept(seg)| - 1].MarkLocation?
    ensures LinkSource(seg).Some?
    decreases |seg|
  {
    var q, b := seg[..|seg| - 1], seg[|seg| - 1];
    assert seg == q + [b];
    KeptSnoc(q, b);
    LinkSourceSnoc(q, b);
    if !IsLinkedLocationSource(b) && !IsBuffered(b) {
      KeptEndsInMarkLocation(q);
    }
  }

  /** Every block of p is one the loop handles. */
  ghost predicate Handled(p: seq<Block>) {
    forall i :: 0 <= i < |p| ==> !p[i].Fold? && !p[i].ConstructResult?
  }

  /** The first segment is opened by the QueryRoot, every later one by a Traverse or Recurse. */
  ghost predicate OpenedInOrder(segs: seq<seq<Block>>) {
    && (|segs| > 0 ==> |segs[0]| > 0 && segs[0][0].QueryRoot?)
    && (forall k :: 1 <= k < |segs| ==> |segs[k]| > 0 && IsStepBlock(segs[k][0]))
  }

  /** The buffer holds the kept blocks of the last segment; one step per earlier segment. */
  ghost predicate BufferTracks(segs: seq<seq<Block>>, s: AssemblyState) {
    var n := |segs|;
    && (n == 0 ==> s.currentStepBlocks.None? && s.steps == [] && s.linkedLocation.None?)
    && (n > 0 ==>
          && s.currentStepBlocks == Some(Kept(segs[n - 1]))
          && |s.steps| == n - 1
          && s.linkedLocation == LinkFor(segs, n - 1))
  }

  /** The pending link is the last link source of the open segment. */
  ghost predicate NextLinkTracks(segs: seq<seq<Block>>, s: AssemblyState) {
    var n := |segs|;
    && (n >= 2 ==> s.nextLinkedLocation == LinkSource(segs[n - 1]))
    && (n == 1 && LinkSource(segs[0]).Some? ==> s.nextLinkedLocation == LinkSource(segs[0]))
  }

  /** Each finished step is the one built from its own segment. */
  ghost predicate StepsMatch(segs: seq<seq<Block>>, steps: seq<CypherStep>) {
    && |steps| <= |segs|
    && forall k :: 0 <= k < |steps| ==>
         MakeCypherStep(LinkFor(segs, k), Some(Kept(segs[k]))) == Ok(steps[k])
  }

  /** Every segment is non-empty and starts with an opener. */
  ghost predicate WellCut(segs: seq<seq<Block>>) {
    forall k :: 0 <= k < |segs| ==> |segs[k]| > 0 && IsOpener(segs[k][0])
  }

  /** What the loop state says about the segments consumed so far. */
  ghost predicate SegTracks(segs: seq<seq<Block>>, s: AssemblyState) {
    && OpenedInOrder(segs)
    && BufferTracks(segs, s)
    && NextLinkTracks(segs, s)
    && StepsMatch(segs, s.steps)
  }

  /** What the loop state says about the blocks it has consumed. */
  ghost predicate Tracks(p: seq<Block>, s: AssemblyState) {
    Handled(p) && SegTracks(Segments(p), s)
  }

  /** Steps built from unchanged segments stay matched. */
  lemma StepsMatchFrame(segs: seq<seq<Block>>, segs': seq<seq<Block>>, steps: seq<CypherStep>)
    requires StepsMatch(segs, steps)
    requires |steps| <= |segs'| && segs'[..|steps|] == segs[..|steps|]
    ensures StepsMatch(segs', steps)
  {
    forall k | 0 <= k < |steps|
      ensures MakeCypherStep(LinkFor(segs', k), Some(Kept(segs'[k]))) == Ok(steps[k])
    {
      assert segs'[k] == segs'[..|steps|][k];
      if k > 0 {
        assert segs'[k - 1] == segs'[..|steps|][k - 1];
      }
    }
  }

  lemma HandledSnoc(q: seq<Block>, b: Block)
    requires Handled(q) && !b.Fold? && !b.ConstructResult?
    ensures Handled(q + [b])
  {
    SnocParts(q, b);
  }

  /** When a step is closed, the pending link is the link source of its segment. */
  lemma NextLinkAtClose(segs: seq<seq<Block>>, s: AssemblyState, step: CypherStep)
    requires WellCut(segs) && |segs| > 0 && segs[0][0].QueryRoot?
    requires BufferTracks(segs, s) && NextLinkTracks(segs, s)
    requires MakeCypherStep(s.linkedLocation, s.currentStepBlocks) == Ok(step)
    ensures s.nextLinkedLocation == LinkSource(segs[|segs| - 1])
  {
    if |segs| == 1 {
      KeptHead(segs[0]);
      KeptEndsInMarkLocation(segs[0]);
    }
  }

  /** The closed step is the one built from the segment it closes. */
  lemma StepsMatchClose(segs: seq<seq<Block>>, s: AssemblyState, b: Block, step: CypherStep)
    requires |segs| > 0 && BufferTracks(segs, s) && StepsMatch(segs, s.steps)
    requires MakeCypherStep(s.linkedLocation, s.currentStepBlocks) == Ok(step)
    ensures StepsMatch(segs + [[b]], s.steps + [step])
  {
    var n := |segs|;
    var segs' := segs + [[b]];
    var steps' := s.steps + [step];
    forall k | 0 <= k < n
      ensures MakeCypherStep(LinkFor(segs', k), Some(Kept(segs'[k]))) == Ok(steps'[k])
    {
      assert segs'[k] == segs[k];
      if k > 0 {
        assert segs'[k - 1] == segs[k - 1];
      }
      assert LinkFor(segs', k) == LinkFor(segs, k);
      if k < n - 1 {
        assert steps'[k] == s.steps[k];
      } else {
        assert steps'[k] == step;
      }
    }
  }

  lemma OpenNextOrder(segs: seq<seq<Block>>, b: Block)
    requires WellCut(segs) && OpenedInOrder(segs) && |segs| > 0 && IsStepBlock(b)
    ensures WellCut(segs + [[b]]) && OpenedInOrder(segs + [[b]])
  {
    var segs' := segs + [[b]];
    assert forall k :: 0 <= k < |segs| ==> segs'[k] == segs[k];
    assert segs'[|segs|] == [b];
  }

  lemma OpenNextBuffer(segs: seq<seq<Block>>, s: AssemblyState, b: Block, s': AssemblyState)
    requires |segs| > 0 && s.nextLinkedLocation == LinkSource(segs[|segs| - 1])
    requires BufferTracks(segs, s) && IsOpener(b)
    requires |s'.steps| == |s.steps| + 1 && s'.currentStepBlocks == Some([b])
    requires s'.linkedLocation == s.nextLinkedLocation && s'.nextLinkedLocation.None?
    ensures BufferTracks(segs + [[b]], s') && NextLinkTracks(segs + [[b]], s')
  {
    var segs' := segs + [[b]];
    SingletonSegment(b);
    assert segs'[|segs|] == [b];
    assert segs'[|segs| - 1] == segs[|segs| - 1];
  }

  /** A Traverse or Recurse closes the open segment into a step and opens the next. */
  lemma OpenNextTracks(segs: seq<seq<Block>>, s: AssemblyState, b: Block, step: CypherStep)
    requires WellCut(segs) && SegTracks(segs, s) && IsStepBlock(b)
    requires MakeCypherStep(s.linkedLocation, s.currentStepBlocks) == Ok(step)
    ensures WellCut(segs + [[b]])
    ensures SegTracks(segs + [[b]], AssemblyState(s.steps + [step], Some([b]), s.nextLinkedLocation, None))
  {
    var s' := AssemblyState(s.steps + [step], Some([b]), s.nextLinkedLocation, None);
    assert |segs| > 0;
    OpenNextOrder(segs, b);
    NextLinkAtClose(segs, s, step);
    OpenNextBuffer(segs, s, b, s');
    StepsMatchClose(segs, s, b, step);
  }

  /** segs with b appended to its last segment. */
  function Extended(segs: seq<seq<Block>>, b: Block): (r: seq<seq<Block>>)
    requires |segs| > 0
    ensures |r| == |segs| && r[|segs| - 1] == segs[|segs| - 1] + [b]
    ensures forall k :: 0 <= k < |segs| - 1 ==> r[k] == segs[k]
    ensures r[..|segs| - 1] == segs[..|segs| - 1]
  {
    segs[..|segs| - 1] + [segs[|segs| - 1] + [b]]
  }

  lemma ExtendBuffer(segs: seq<seq<Block>>, s: AssemblyState, b: Block, s': AssemblyState)
    requires |segs| > 0 && BufferTracks(segs, s)
    requires s'.steps == s.steps && s'.linkedLocation == s.linkedLocation
    requires s'.currentStepBlocks ==
      if IsBuffered(b) then Some(s.currentStepBlocks.value + [b]) else s.currentStepBlocks
    ensures BufferTracks(Extended(segs, b), s')
  {
    var n := |segs|;
    var segs' := Extended(segs, b);
    KeptSnoc(segs[n - 1], b);
    assert segs'[n - 1] == segs[n - 1] + [b];
    assert s.currentStepBlocks == Some(Kept(segs[n - 1]));
    assert Kept(segs'[n - 1]) == Kept(segs[n - 1]) + (if IsBuffered(b) then [b] else []);
    if IsBuffered(b) {
      assert s'.currentStepBlocks == Some(s.currentStepBlocks.value + [b]);
      assert s'.currentStepBlocks == Some(Kept(segs'[n - 1]));
    } else {
      assert Kept(segs[n - 1]) + [] == Kept(segs[n - 1]);
      assert s'.currentStepBlocks == Some(Kept(segs'[n - 1]));
    }
    assert LinkFor(segs', n - 1) == LinkFor(segs, n - 1);
  }

  lemma ExtendNextLink(segs: seq<seq<Block>>, s: AssemblyState, b: Block, s': AssemblyState)
    requires |segs| > 0 && NextLinkTracks(segs, s)
    requires s'.nextLinkedLocation ==
      if IsLinkedLocationSource(b) then Some(b.location) else s.nextLinkedLocation
    ensures NextLinkTracks(Extended(segs, b), s')
  {
    LinkSourceSnoc(segs[|segs| - 1], b);
  }

  /** A block that opens nothing extends the open segment. */
  lemma ExtendTracks(segs: seq<seq<Block>>, s: AssemblyState, b: Block, s': AssemblyState)
    requires WellCut(segs) && SegTracks(segs, s) && |segs| > 0 && !IsOpener(b)
    requires s.currentStepBlocks.Some?
    requires s'.steps == s.steps && s'.linkedLocation == s.linkedLocation
    requires s'.currentStepBlocks ==
      if IsBuffered(b) then Some(s.currentStepBlocks.value + [b]) else s.currentStepBlocks
    requires s'.nextLinkedLocation ==
      if IsLinkedLocationSource(b) then Some(b.location) else s.nextLinkedLocation
    ensures WellCut(Extended(segs, b)) && SegTracks(Extended(segs, b), s')
  {
    ExtendShape(segs, b);
    ExtendBuffer(segs, s, b, s');
    ExtendNextLink(segs, s, b, s');
    StepsMatchFrame(segs, Extended(segs, b), s.steps);
  }

  /** Extending the open segment keeps every segment's opener. */
  lemma ExtendShape(segs: seq<seq<Block>>, b: Block)
    requires WellCut(segs) && OpenedInOrder(segs) && |segs| > 0
    ensures WellCut(Extended(segs, b)) && OpenedInOrder(Extended(segs, b))
  {
    var segs' := Extended(segs, b);
    forall k | 0 <= k < |segs'|
      ensures |segs'[k]| > 0 && segs'[k][0] == segs[k][0]
    {
      if k == |segs| - 1 {
        assert segs'[k] == segs[k] + [b];
      }
    }
  }

  lemma QueryRootTracks(q: seq<Block>, s: AssemblyState, b: Block)
    requires b.QueryRoot? && Tracks(q, s) && s.currentStepBlocks.None?
    ensures Tracks(q + [b], s.(currentStepBlocks := Some([b])))
  {
    assert |Segments(q)| == 0;
    SegmentsSnoc(q, b);
    SingletonSegment(b);
    HandledSnoc(q, b);
    assert Segments(q + [b]) == [[b]];
  }

  lemma StepBlockTracks(q: seq<Block>, s: AssemblyState, b: Block, step: CypherStep)
    requires IsStepBlock(b) && Tracks(q, s)
    requires MakeCypherStep(s.linkedLocation, s.currentStepBlocks) == Ok(step)
    ensures Tracks(q + [b], AssemblyState(s.steps + [step], Some([b]), s.nextLinkedLocation, None))
  {
    SegmentsSnoc(q, b);
    HandledSnoc(q, b);
    OpenNextTracks(Segments(q), s, b, step);
  }

  /** A block that opens nothing extends the open segment of the consumed blocks. */
  lemma ExtendSnoc(q: seq<Block>, s: AssemblyState, b: Block, s': AssemblyState)
    requires !IsOpener(b) && !b.Fold? && !b.ConstructResult?
    requires Tracks(q, s) && |Segments(q)| > 0
    requires s'.steps == s.steps && s'.linkedLocation == s.linkedLocation
    requires s'.currentStepBlocks ==
      if IsBuffered(b) then Some(s.currentStepBlocks.value + [b]) else s.currentStepBlocks
    requires s'.nextLinkedLocation ==
      if IsLinkedLocationSource(b) then Some(b.location) else s.nextLinkedLocation
    ensures Tracks(q + [b], s')
  {
    SegmentsSnoc(q, b);
    HandledSnoc(q, b);
    ExtendTracks(Segments(q), s, b, s');
    assert Segments(q + [b]) == Extended(Segments(q), b);
  }

  lemma BufferedTracks(q: seq<Block>, s: AssemblyState, b: Block)
    requires b.MarkLocation? || b.Filter? || b.CoerceType?
    requires Tracks(q, s) && s.currentStepBlocks.Some?
    ensures Tracks(q + [b], s.(nextLinkedLocation := if b.MarkLocation? then Some(b.location) else s.nextLinkedLocation,
                               currentStepBlocks := Some(s.currentStepBlocks.value + [b])))
  {
    assert |Segments(q)| > 0;
    ExtendSnoc(q, s, b, s.(nextLinkedLocation := if b.MarkLocation? then Some(b.location) else s.nextLinkedLocation,
                           currentStepBlocks := Some(s.currentStepBlocks.value + [b])));
  }

  /** Before the QueryRoot, a skipped block leaves the state with no open step. */
  lemma SkippedBeforeRoot(q: seq<Block>, s: AssemblyState, b: Block, s': AssemblyState)
    requires !IsOpener(b) && Tracks(q, s) && Segments(q) == [] && !b.Fold? && !b.ConstructResult?
    requires s'.steps == s.steps && s'.linkedLocation == s.linkedLocation
    requires s'.currentStepBlocks == s.currentStepBlocks
    ensures Tracks(q + [b], s')
  {
    SegmentsSnoc(q, b);
    HandledSnoc(q, b);
    assert Segments(q + [b]) == [];
  }

  /** After the QueryRoot, a skipped block extends the open segment. */
  lemma SkippedAfterRoot(q: seq<Block>, s: AssemblyState, b: Block)
    requires b.Backtrack? || IsDiscarded(b)
    requires Tracks(q, s) && |Segments(q)| > 0
    ensures Tracks(q + [b], s.(nextLinkedLocation := if b.Backtrack? then Some(b.location) else s.nextLinkedLocation))
  {
    assert !IsOpener(b) && !IsBuffered(b) && (IsLinkedLocationSource(b) <==> b.Backtrack?);
    ExtendSnoc(q, s, b, s.(nextLinkedLocation := if b.Backtrack? then Some(b.location) else s.nextLinkedLocation));
  }

  lemma SkippedTracks(q: seq<Block>, s: AssemblyState, b: Block)
    requires b.Backtrack? || IsDiscarded(b)
    requires Tracks(q, s)
    ensures Tracks(q + [b], s.(nextLinkedLocation := if b.Backtrack? then Some(b.location) else s.nextLinkedLocation))
  {
    if |Segments(q)| > 0 {
      SkippedAfterRoot(q, s, b);
    } else {
      SkippedBeforeRoot(q, s, b, s.(nextLinkedLocation := if b.Backtrack? then Some(b.location) else s.nextLinkedLocation));
    }
  }

  /** Taking one more block keeps the loop invariant. */
  lemma AdvanceTracks(q: seq<Block>, s: AssemblyState, b: Block)
    requires !b.GlobalOperationsStart? && Tracks(q, s) && Advance(s, b).Ok?
    ensures Tracks(q + [b], Advance(s, b).value)
  {
    if b.QueryRoot? {
      QueryRootTracks(q, s, b);
    } else if IsStepBlock(b) {
      StepBlockTracks(q, s, b, MakeCypherStep(s.linkedLocation, s.currentStepBlocks).value);
    } else if b.MarkLocation? || b.Filter? || b.CoerceType? {
      BufferedTracks(q, s, b);
    } else {
      SkippedTracks(q, s, b);
    }
  }

  /** The loop invariant of the step assembler, proved over the fold. */
  lemma {:induction false} RunStepsTracks(p: seq<Block>)
    requires NoGlobalOperationsStart(p)
    requires RunSteps(p).Ok?
    ensures Tracks(p, RunSteps(p).value)
    decreases |p|
  {
    if p == [] {
      return;
    }
    var q, b := p[..|p| - 1], p[|p| - 1];
    SnocParts(q, b);
    assert p == q + [b];
    assert NoGlobalOperationsStart(q);
    assert RunSteps(q).Ok?;
    RunStepsTracks(q);
    AdvanceTracks(q, RunSteps(q).value, b);
  }

  lemma {:induction false} SegmentsFollowOpeners(p: seq<Block>)
    ensures |Segments(p)| == |Openers(p)|
    ensures forall k :: 0 <= k < |Segments(p)| ==> Segments(p)[k][0] == Openers(p)[k]
    decreases |p|
  {
    if p == [] {
      return;
    }
    var q, b := p[..|p| - 1], p[|p| - 1];
    assert p == q + [b];
    SegmentsSnoc(q, b);
    OpenersSnoc(q, b);
    SegmentsFollowOpeners(q);
  }

  /** The last step, built after the loop, is the one of the last segment. */
  lemma StepsMatchLast(segs: seq<seq<Block>>, s: AssemblyState, step: CypherStep)
    requires |segs| > 0 && BufferTracks(segs, s) && StepsMatch(segs, s.steps)
    requires MakeCypherStep(s.linkedLocation, s.currentStepBlocks) == Ok(step)
    ensures |s.steps + [step]| == |segs|
    ensures forall k :: 0 <= k < |segs| ==>
      MakeCypherStep(LinkFor(segs, k), Some(Kept(segs[k]))) == Ok((s.steps + [step])[k])
  {
    var steps' := s.steps + [step];
    var n := |segs|;
    assert |s.steps| == n - 1;
    assert s.currentStepBlocks == Some(Kept(segs[n - 1])) && s.linkedLocation == LinkFor(segs, n - 1);
    forall k | 0 <= k < |segs|
      ensures MakeCypherStep(LinkFor(segs, k), Some(Kept(segs[k]))) == Ok(steps'[k])
    {
      if k < |segs| - 1 {
        assert steps'[k] == s.steps[k];
      } else {
        assert steps'[k] == step;
      }
    }
  }

  /** The blocks before the first GlobalOperationsStart, if there is one. */
  function StepSection(remaining: seq<Block>): (section: seq<Block>)
    ensures NoGlobalOperationsStart(section)
  {
    match FirstGlobalOperationsStart(remaining)
    case None => remaining
    case Some(g) => remaining[..g]
  }

  /** A successful conversion: one step per segment of the step section, each
      built from that segment's blocks, then the global operations tail. */
  lemma ConvertSteps(irBlocks: seq<Block>, extractFolds: seq<Block> -> FoldSplit)
    requires Convert(irBlocks, extractFolds).Ok?
    ensures var split := extractFolds(irBlocks);
      var r := Convert(irBlocks, extractFolds).value;
      var g := FirstGlobalOperationsStart(split.remaining);
      var segs := Segments(StepSection(split.remaining));
      && g.Some?
      && Handled(StepSection(split.remaining))
      && |segs| > 0
      && OpenedInOrder(segs)
      && |r.steps| == |segs|
      && (forall k :: 0 <= k < |segs| ==>
            MakeCypherStep(LinkFor(segs, k), Some(Kept(segs[k]))) == Ok(r.steps[k]))
      && GlobalOperations(split.remaining[g.value + 1..]) == Ok((r.globalWhereBlock, r.outputBlock))
      && r.folds == split.folds
  {
    var split := extractFolds(irBlocks);
    var remaining := split.remaining;
    var g := FirstGlobalOperationsStart(remaining);
    if g.None? {
      assert false;
    }
    var section := remaining[..g.value];
    assert StepSection(remaining) == section;
    var s := RunSteps(section).value;
    RunStepsTracks(section);
    var step := MakeCypherStep(s.linkedLocation, s.currentStepBlocks).value;
    StepsMatchLast(Segments(section), s, step);
  }

  /** The steps follow the openers of the step section in order: the QueryRoot
      first, then each Traverse or Recurse; the first step is unlinked and each
      later one is linked to the last location marked or backtracked to in the
      segment before it. */
  lemma StepOrderAndLinkage(irBlocks: seq<Block>, extractFolds: seq<Block> -> FoldSplit)
    requires Convert(irBlocks, extractFolds).Ok?
    ensures var section := StepSection(extractFolds(irBlocks).remaining);
      var steps := Convert(irBlocks, extractFolds).value.steps;
      && |steps| == |Openers(section)| == |Segments(section)| > 0
      && (forall k :: 0 <= k < |steps| ==> steps[k].stepBlock == Openers(section)[k])
      && steps[0].stepBlock.QueryRoot?
      && (forall k :: 1 <= k < |steps| ==> IsStepBlock(steps[k].stepBlock))
      && steps[0].linkedLocation.None?
      && (forall k :: 1 <= k < |steps| ==> steps[k].linkedLocation == LinkSource(Segments(section)[k - 1]))
  {
    var section := StepSection(extractFolds(irBlocks).remaining);
    var steps := Convert(irBlocks, extractFolds).value.steps;
    var segs := Segments(section);
    ConvertSteps(irBlocks, extractFolds);
    SegmentsFollowOpeners(section);
    forall k | 0 <= k < |steps|
      ensures steps[k].stepBlock == segs[k][0] && steps[k].linkedLocation == LinkFor(segs, k)
    {
      KeptHead(segs[k]);
    }
  }

  /** The block shapes a step can be built from: a QueryRoot with an optional
      Filter and a MarkLocation, or a Traverse or Recurse with a CoerceType, an
      optional Filter and a MarkLocation; the step's type must be a single class. */
  predicate StepShapeOk(blocks: seq<Block>) {
    && |blocks| > 0
    && (if blocks[0].QueryRoot? then IsRootStepShape(blocks) else IsTraversalStepShape(blocks))
    && |StepTypeSource(blocks)| == 1
  }

  /** Whether a step can be built does not depend on its link. */
  lemma MakeCypherStepShape(linkedLocation: Option<Location>, blocks: seq<Block>)
    ensures MakeCypherStep(linkedLocation, Some(blocks)).Ok? <==> StepShapeOk(blocks)
  {
  }

  /** Every MarkLocation, Filter or CoerceType comes after some opener. */
  ghost predicate OpenedBeforeBuffered(p: seq<Block>) {
    forall i :: 0 <= i < |p| && IsBuffered(p[i]) && !IsOpener(p[i]) ==> Openers(p[..i]) != []
  }

  /** Every segment but the open one has a step shape. */
  ghost predicate ShapesOk(segs: seq<seq<Block>>) {
    forall k :: 0 <= k < |segs| - 1 ==> StepShapeOk(Kept(segs[k]))
  }

  /** The blocks the loop takes without raising. */
  ghost predicate Accepted(p: seq<Block>) {
    && Handled(p)
    && OpenedBeforeBuffered(p)
    && OpenedInOrder(Segments(p))
    && ShapesOk(Segments(p))
  }

  /** What the next block b needs of the blocks q before it. */
  ghost predicate Admits(q: seq<Block>, b: Block) {
    var segs := Segments(q);
    && !b.Fold? && !b.ConstructResult?
    && (b.QueryRoot? ==> segs == [])
    && (IsStepBlock(b) ==> segs != [] && StepShapeOk(Kept(segs[|segs| - 1])))
    && (IsBuffered(b) && !IsOpener(b) ==> segs != [])
  }

  lemma HandledSnocIff(q: seq<Block>, b: Block)
    ensures Handled(q + [b]) <==> Handled(q) && !b.Fold? && !b.ConstructResult?
  {
    SnocParts(q, b);
    if Handled(q + [b]) {
      assert forall i :: 0 <= i < |q| ==> q[i] == (q + [b])[i];
    }
  }

  lemma OpenedBeforeBufferedSnoc(q: seq<Block>, b: Block)
    ensures OpenedBeforeBuffered(q + [b]) <==>
      OpenedBeforeBuffered(q) && (IsBuffered(b) && !IsOpener(b) ==> Openers(q) != [])
  {
    var p := q + [b];
    assert p[..|q|] == q;
    assert forall i :: 0 <= i < |q| ==> p[i] == q[i] && p[..i] == q[..i];
  }

  lemma OrderOpen(segs: seq<seq<Block>>, b: Block)
    ensures OpenedInOrder(segs + [[b]]) <==>
      OpenedInOrder(segs) && (if segs == [] then b.QueryRoot? else IsStepBlock(b))
  {
    var segs' := segs + [[b]];
    assert forall k :: 0 <= k < |segs| ==> segs'[k] == segs[k];
    assert segs'[|segs|] == [b];
  }

  lemma OrderExtend(segs: seq<seq<Block>>, b: Block)
    requires |segs| > 0 && WellCut(segs)
    ensures OpenedInOrder(Extended(segs, b)) <==> OpenedInOrder(segs)
  {
    var segs' := Extended(segs, b);
    assert forall k :: 0 <= k < |segs| ==> |segs[k]| > 0 ==> segs'[k][0] == segs[k][0];
  }

  lemma ShapesOpen(segs: seq<seq<Block>>, b: Block)
    ensures ShapesOk(segs + [[b]]) <==>
      ShapesOk(segs) && (|segs| > 0 ==> StepShapeOk(Kept(segs[|segs| - 1])))
  {
    var segs' := segs + [[b]];
    assert forall k :: 0 <= k < |segs| ==> segs'[k] == segs[k];
  }

  lemma ShapesExtend(segs: seq<seq<Block>>, b: Block)
    requires |segs| > 0
    ensures ShapesOk(Extended(segs, b)) <==> ShapesOk(segs)
  {
  }

  /** There is a segment exactly when there is an opener. */
  lemma SegmentsNonEmpty(p: seq<Block>)
    ensures Segments(p) != [] <==> Openers(p) != []
  {
    SegmentsFollowOpeners(p);
  }

  lemma AcceptedSnocOpener(q: seq<Block>, b: Block)
    requires IsOpener(b)
    ensures Accepted(q + [b]) <==> Accepted(q) && Admits(q, b)
  {
    SegmentsSnoc(q, b);
    HandledSnocIff(q, b);
    OpenedBeforeBufferedSnoc(q, b);
    OrderOpen(Segments(q), b);
    ShapesOpen(Segments(q), b);
  }

  lemma AcceptedSnocOther(q: seq<Block>, b: Block)
    requires !IsOpener(b)
    ensures Accepted(q + [b]) <==> Accepted(q) && Admits(q, b)
  {
    SegmentsSnoc(q, b);
    HandledSnocIff(q, b);
    OpenedBeforeBufferedSnoc(q, b);
    SegmentsNonEmpty(q);
    if Segments(q) != [] {
      assert Segments(q + [b]) == Extended(Segments(q), b);
      OrderExtend(Segments(q), b);
      ShapesExtend(Segments(q), b);
    }
  }

  /** One more block is accepted exactly when the blocks before it are and they admit it. */
  lemma AcceptedSnoc(q: seq<Block>, b: Block)
    ensures Accepted(q + [b]) <==> Accepted(q) && Admits(q, b)
  {
    if IsOpener(b) {
      AcceptedSnocOpener(q, b);
    } else {
      AcceptedSnocOther(q, b);
    }
  }

  /** Given the invariant, one loop iteration succeeds exactly when the block is admitted. */
  lemma AdvanceOkIff(q: seq<Block>, s: AssemblyState, b: Block)
    requires !b.GlobalOperationsStart? && Tracks(q, s)
    ensures Advance(s, b).Ok? <==> Admits(q, b)
  {
    var segs := Segments(q);
    if IsStepBlock(b) && s.currentStepBlocks.Some? {
      MakeCypherStepShape(s.linkedLocation, s.currentStepBlocks.value);
    }
  }

  /** The loop raises exactly on the blocks that are not accepted. */
  lemma {:induction false} RunStepsAccepted(p: seq<Block>)
    requires NoGlobalOperationsStart(p)
    ensures RunSteps(p).Ok? <==> Accepted(p)
    decreases |p|
  {
    if p == [] {
      assert Segments(p) == [];
      return;
    }
    var q, b := p[..|p| - 1], p[|p| - 1];
    SnocParts(q, b);
    assert p == q + [b];
    assert NoGlobalOperationsStart(q);
    RunStepsAccepted(q);
    AcceptedSnoc(q, b);
    if RunSteps(q).Ok? {
      RunStepsTracks(q);
      AdvanceOkIff(q, RunSteps(q).value, b);
    }
  }

  /** The step built after the loop can be built exactly when there is an
      open segment with a step shape. */
  lemma LastStepIff(section: seq<Block>)
    requires NoGlobalOperationsStart(section) && RunSteps(section).Ok?
    ensures var s := RunSteps(section).value;
      var segs := Segments(section);
      MakeCypherStep(s.linkedLocation, s.currentStepBlocks).Ok? <==>
        |segs| > 0 && StepShapeOk(Kept(segs[|segs| - 1]))
  {
    var s := RunSteps(section).value;
    var segs := Segments(section);
    RunStepsTracks(section);
    assert BufferTracks(segs, s);
    if |segs| > 0 {
      assert s.currentStepBlocks == Some(Kept(segs[|segs| - 1]));
      MakeCypherStepShape(s.linkedLocation, Kept(segs[|segs| - 1]));
    } else {
      assert s.currentStepBlocks.None?;
    }
  }

  lemma AllShapes(segs: seq<seq<Block>>)
    ensures (|segs| > 0 && ShapesOk(segs) && StepShapeOk(Kept(segs[|segs| - 1]))) <==>
      (|segs| > 0 && forall k :: 0 <= k < |segs| ==> StepShapeOk(Kept(segs[k])))
  {
  }

  /** The conversion succeeds exactly when the loop, the last step and the tail do. */
  lemma ConvertOkParts(irBlocks: seq<Block>, extractFolds: seq<Block> -> FoldSplit)
    ensures Convert(irBlocks, extractFolds).Ok? <==>
      var remaining := extractFolds(irBlocks).remaining;
      var g := FirstGlobalOperationsStart(remaining);
      && g.Some?
      && RunSteps(remaining[..g.value]).Ok?
      && MakeCypherStep(RunSteps(remaining[..g.value]).value.linkedLocation,
                        RunSteps(remaining[..g.value]).value.currentStepBlocks).Ok?
      && GlobalOperations(remaining[g.value + 1..]).Ok?
  {
  }

  /** The loop and the last step succeed on a step section exactly when it is accepted
      and its last segment has a step shape too. */
  lemma SectionSucceedsIff(section: seq<Block>)
    requires NoGlobalOperationsStart(section)
    ensures (RunSteps(section).Ok? &&
             MakeCypherStep(RunSteps(section).value.linkedLocation,
                            RunSteps(section).value.currentStepBlocks).Ok?) <==>
      var segs := Segments(section);
      && Handled(section)
      && OpenedBeforeBuffered(section)
      && |segs| > 0
      && OpenedInOrder(segs)
      && (forall k :: 0 <= k < |segs| ==> StepShapeOk(Kept(segs[k])))
  {
    RunStepsAccepted(section);
    AllShapes(Segments(section));
    if RunSteps(section).Ok? {
      LastStepIff(section);
    }
  }

  /** convert_to_cypher_query succeeds exactly when there is a
      GlobalOperationsStart; no Fold or ConstructResult is left before it;
      no MarkLocation, Filter or CoerceType comes before the first opener; the
      QueryRoot opens the first segment and only Traverse or Recurse blocks
      open later ones; every segment has a step shape; and the tail has a
      global-operations shape. */
  lemma ConvertSucceedsIff(irBlocks: seq<Block>, extractFolds: seq<Block> -> FoldSplit)
    ensures Convert(irBlocks, extractFolds).Ok? <==>
      var remaining := extractFolds(irBlocks).remaining;
      var g := FirstGlobalOperationsStart(remaining);
      var section := StepSection(remaining);
      var segs := Segments(section);
      && g.Some?
      && Handled(section)
      && OpenedBeforeBuffered(section)
      && |segs| > 0
      && OpenedInOrder(segs)
      && (forall k :: 0 <= k < |segs| ==> StepShapeOk(Kept(segs[k])))
      && GlobalOperations(remaining[g.value + 1..]).Ok?
  {
    var remaining := extractFolds(irBlocks).remaining;
    var g := FirstGlobalOperationsStart(remaining);
    ConvertOkParts(irBlocks, extractFolds);
    if g.Some? {
      assert StepSection(remaining) == remaining[..g.value];
      SectionSucceedsIff(remaining[..g.value]);
    }
  }

  /** p without its Unfold, OutputSource and EndOptional blocks. */
  function WithoutDiscarded(p: seq<Block>): (r: seq<Block>)
    ensures forall i :: 0 <= i < |r| ==> !IsDiscarded(r[i])
    ensures NoGlobalOperationsStart(p) ==> NoGlobalOperationsStart(r)
    decreases |p|
  {
    if p == [] then []
    else WithoutDiscarded(p[..|p| - 1]) + (if IsDiscarded(p[|p| - 1]) then [] else [p[|p| - 1]])
  }

  lemma RunStepsSnoc(q: seq<Block>, b: Block)
    requires NoGlobalOperationsStart(q) && !b.GlobalOperationsStart?
    ensures NoGlobalOperationsStart(q + [b])
    ensures RunSteps(q + [b]) ==
      if RunSteps(q).Err? then Err(RunSteps(q).error) else Advance(RunSteps(q).value, b)
  {
    SnocParts(q, b);
  }

  /** Unfold, OutputSource and EndOptional blocks have no effect on the loop. */
  lemma {:induction false} DiscardedBlocksAreIgnored(p: seq<Block>)
    requires NoGlobalOperationsStart(p)
    ensures NoGlobalOperationsStart(WithoutDiscarded(p))
    ensures RunSteps(WithoutDiscarded(p)) == RunSteps(p)
    decreases |p|
  {
    if p == [] {
      return;
    }
    var q, b := p[..|p| - 1], p[|p| - 1];
    SnocParts(q, b);
    assert p == q + [b];
    assert NoGlobalOperationsStart(q);
    DiscardedBlocksAreIgnored(q);
    RunStepsSnoc(q, b);
    assert WithoutDiscarded(p) == WithoutDiscarded(q) + (if IsDiscarded(b) then [] else [b]);
    if IsDiscarded(b) {
      assert WithoutDiscarded(p) == WithoutDiscarded(q);
      if RunSteps(q).Ok? {
        assert Advance(RunSteps(q).value, b) == RunSteps(q);
      }
    } else {
      RunStepsSnoc(WithoutDiscarded(q), b);
    }
  }

  /** A fold extractor for IR with no @fold scopes. */
  function NoFolds(bs: seq<Block>): FoldSplit {
    FoldSplit(map[], bs)
  }

  const ExampleRoot := QueryRoot({"Animal"})
  const ExampleL1 := MarkLocation("L1")
  const ExampleOut := Traverse("out", "ParentOf")
  const ExampleCoerce := CoerceType({"Animal"})
  const ExampleFilter := Filter("age > 0")
  const ExampleL2 := MarkLocation("L2")
  const ExampleResult := ConstructResult(map["name" := "L1.name"])
  const ExampleSection := [ExampleRoot, ExampleL1, ExampleOut, ExampleCoerce, ExampleFilter, ExampleL2]
  const ExampleIr := ExampleSection + [GlobalOperationsStart, ExampleResult]
  const ExampleStep1 := CypherStep(None, ExampleRoot, {"Animal"}, None, ExampleL1)

  lemma ExampleGlobalOperationsStart()
    ensures FirstGlobalOperationsStart(ExampleIr) == Some(6)
  {
    assert ExampleIr[6] == GlobalOperationsStart;
    assert ExampleIr[..6] == ExampleSection;
    FirstGlobalOperationsStartAt(ExampleIr, 6);
  }

  lemma ExampleRootStep()
    ensures RunSteps(ExampleSection[..2]) == Ok(AssemblyState([], Some([ExampleRoot, ExampleL1]), None, Some("L1")))
  {
    var p := ExampleSection[..2];
    assert p == [ExampleRoot] + [ExampleL1];
    assert [] + [ExampleRoot] == [ExampleRoot];
    RunStepsSnoc([], ExampleRoot);
    assert RunSteps([ExampleRoot]) == Ok(AssemblyState([], Some([ExampleRoot]), None, None));
    RunStepsSnoc([ExampleRoot], ExampleL1);
    assert [ExampleRoot] + [ExampleL1] == [ExampleRoot, ExampleL1];
    assert Advance(AssemblyState([], Some([ExampleRoot]), None, None), ExampleL1)
        == Ok(AssemblyState([], Some([ExampleRoot, ExampleL1]), None, Some("L1")));
  }

  lemma ExampleSecondStepOpens()
    ensures RunSteps(ExampleSection[..3]) == Ok(AssemblyState([ExampleStep1], Some([ExampleOut]), Some("L1"), None))
  {
    var p := ExampleSection[..3];
    assert p == ExampleSection[..2] + [ExampleOut];
    ExampleRootStep();
    RunStepsSnoc(ExampleSection[..2], ExampleOut);
    assert Kinds([ExampleRoot, ExampleL1]) == [QueryRootKind, MarkLocationKind];
    assert MakeCypherStep(None, Some([ExampleRoot, ExampleL1])) == Ok(ExampleStep1);
    assert [] + [ExampleStep1] == [ExampleStep1];
  }

  lemma ExampleSectionRun()
    ensures RunSteps(ExampleSection) ==
      Ok(AssemblyState([ExampleStep1], Some([ExampleOut, ExampleCoerce, ExampleFilter, ExampleL2]), Some("L1"), Some("L2")))
  {
    ExampleSecondStepOpens();
    var s := ExampleSection;
    assert s[..4] == s[..3] + [ExampleCoerce];
    assert s[..5] == s[..4] + [ExampleFilter];
    assert s == s[..5] + [ExampleL2];
    RunStepsSnoc(s[..3], ExampleCoerce);
    assert [ExampleOut] + [ExampleCoerce] == [ExampleOut, ExampleCoerce];
    RunStepsSnoc(s[..4], ExampleFilter);
    assert [ExampleOut, ExampleCoerce] + [ExampleFilter] == [ExampleOut, ExampleCoerce, ExampleFilter];
    RunStepsSnoc(s[..5], ExampleL2);
    assert [ExampleOut, ExampleCoerce, ExampleFilter] + [ExampleL2] == [ExampleOut, ExampleCoerce, ExampleFilter, ExampleL2];
  }

  /** A root step marked at L1, then a Traverse with a coercion, a filter and a
      mark at L2: two steps, and the second is linked to L1, the root's own mark. */
  lemma TwoStepExample()
    ensures Convert(ExampleIr, NoFolds) == Ok(CypherQuery(
      [ExampleStep1, CypherStep(Some("L1"), ExampleOut, {"Animal"}, Some(ExampleFilter), ExampleL2)],
      map[], None, ExampleResult))
  {
    ExampleGlobalOperationsStart();
    assert ExampleIr[..6] == ExampleSection;
    ExampleSectionRun();
    var last := [ExampleOut, ExampleCoerce, ExampleFilter, ExampleL2];
    assert Kinds(last[1..]) == [CoerceTypeKind, FilterKind, MarkLocationKind];
    assert MakeCypherStep(Some("L1"), Some(last)) ==
      Ok(CypherStep(Some("L1"), ExampleOut, {"Animal"}, Some(ExampleFilter), ExampleL2));
    assert ExampleIr[7..] == [ExampleResult];
    assert Kinds([ExampleResult]) == [ConstructResultKind];
    assert GlobalOperations(ExampleIr[6 + 1..]) == Ok((None, ExampleResult));
    var step2 := CypherStep(Some("L1"), ExampleOut, {"Animal"}, Some(ExampleFilter), ExampleL2);
    assert [ExampleStep1] + [step2] == [ExampleStep1, step2];
    assert NoFolds(ExampleIr).remaining == ExampleIr;
  }
}
