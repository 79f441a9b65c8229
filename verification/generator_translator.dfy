/**
 * GeneratorTranslator: the one-shot rewrite of a generator function's body
 * into its resumable form.
 *
 * The translation runs in phases, each a pure function of the tree:
 *   1. exactly one return target must exist; its body is split into the
 *      argument loads (run once) and the resumable body;
 *   2. every local-variable write and read is redirected to the persistent
 *      generator frame;
 *   3. from every yield, the ancestors up to the function root are rewritten
 *      into generator variants, drawing slots from two counters;
 *   4. generator expressions are marked to use the enclosing frame;
 *   5. every break whose owning loop became a generator for-node is retargeted.
 * Java assertions and TranslationUtil.notCovered() become failures; a failed
 * translation yields no tree at all.
 */
module GeneratorTranslator {
  import opened GeneratorNodes

  /** Why a translation aborts. */
  datatype Failure =
    | ReturnTargetCount(found: nat)        // assert returnTargets.size() == 1
    | BodyNotTwoStatements(found: nat)     // assert body.getStatements().length == 2
    | LocalReadRemains                     // assert no ReadLocalVariableNode is left
    | ClassCast(expected: string)          // a cast in the for-node rewrite fails
    | NotCovered(kind: Kind)               // TranslationUtil.notCovered()

  datatype Result<T> = Ok(value: T) | Err(failure: Failure)

  /** The tree being rewritten together with the translator's two slot counters. */
  datatype Walk = Walk(tree: Node, numOfGeneratorBlockNode: nat, numOfGeneratorForNode: nat)

  /** A successful translation: the rewritten body and the final counter values. */
  datatype Translation = Translation(body: Node, numOfGeneratorBlockNode: nat, numOfGeneratorForNode: nat)

  predicate IsReturnTargetKind(k: Kind) {
    k.ReturnTarget?
  }

  predicate IsLocalReadKind(k: Kind) {
    k.ReadLocalVariable?
  }

  /** instanceof BreakNode (GeneratorBreakNode is nested in, and taken to extend, BreakNode). */
  predicate IsBreakKind(k: Kind) {
    k.Break? || k.GeneratorBreak?
  }

  // ---------------------------------------------------------------------
  // Phase 1: argument loads

  /** The three parts of a generator return target. */
  function ArgumentLoads(g: Node): Node {
    Child(g, 0)
  }

  function ResumableBody(g: Node): Node {
    Child(g, 1)
  }

  function ReturnOf(g: Node): Node {
    Child(g, 2)
  }

  /** Split a return target [body, return] into a generator return target
      [argumentLoads, resumableBody, return]. A block body must hold exactly
      two statements: the argument loads and the rest. */
  function SplitArgumentLoads(rt: Node): (r: Result<Node>)
    ensures r.Ok? <==> !Child(rt, 0).kind.Block? || |Child(rt, 0).children| == 2
    ensures r.Err? ==> r.failure == BodyNotTwoStatements(|Child(rt, 0).children|)
    ensures r.Ok? ==> r.value.kind == GeneratorReturnTarget && |r.value.children| == 3
    ensures r.Ok? ==> ReturnOf(r.value) == Child(rt, 1)
    ensures r.Ok? && Child(rt, 0).kind.Block? ==>
      [ArgumentLoads(r.value), ResumableBody(r.value)] == Child(rt, 0).children
    ensures r.Ok? && !Child(rt, 0).kind.Block? ==>
      ArgumentLoads(r.value) == Leaf(Empty) && ResumableBody(r.value) == Child(rt, 0)
  {
    var body := Child(rt, 0);
    if body.kind.Block? then
      if |body.children| != 2 then Err(BodyNotTwoStatements(|body.children|))
      else Ok(Node(GeneratorReturnTarget, [body.children[0], body.children[1], Child(rt, 1)]))
    else
      Ok(Node(GeneratorReturnTarget, [Leaf(Empty), body, Child(rt, 1)]))
  }

  // ---------------------------------------------------------------------
  // Phase 2: local variables move to the persistent generator frame

  function RedirectWrite(k: Kind): Kind {
    if k.WriteLocalVariable? then WriteGeneratorFrameVariable(k.slot) else k
  }

  function RedirectRead(k: Kind): Kind {
    if k.ReadLocalVariable? then ReadGeneratorFrameVariable(k.slot) else k
  }

  /** The write pass, the read pass, and the second read sweep. */
  function RedirectLocals(t: Node): Node {
    var written := MapKinds(t, RedirectWrite);
    var read := MapKinds(written, RedirectRead);
    MapKinds(read, RedirectRead)
  }

  /** Phases 1 and 2: the tree the yield walk starts from. */
  function Prepare(body: Node): Result<Node> {
    var returnTargets := FindAll(body, IsReturnTargetKind);
    if |returnTargets| != 1 then Err(ReturnTargetCount(|returnTargets|))
    else
      match SplitArgumentLoads(At(body, returnTargets[0]))
      case Err(f) => Err(f)
      case Ok(g) =>
        var redirected := RedirectLocals(ReplaceAt(body, returnTargets[0], g));
        if |FindAll(redirected, IsLocalReadKind)| != 0 then Err(LocalReadRemains)
        else Ok(redirected)
  }

  // ---------------------------------------------------------------------
  // Phase 3: ancestors of yields become generator variants

  /** The for-loop rule: the loop at q becomes a generator for-node (an
      inner one when it is the yield's parent) over the loop's target,
      iterator and body, taking the next iterator slot. The casts of the
      target and iterator can fail. */
  function ForRule(w: Walk, q: Path, depth: nat): (r: Result<Walk>)
    ensures r.Ok? ==> r.value.numOfGeneratorForNode == w.numOfGeneratorForNode + 1
    ensures r.Ok? ==> r.value.numOfGeneratorBlockNode == w.numOfGeneratorBlockNode
  {
    var node := At(w.tree, q);
    var next := Child(node, 0);
    if !next.kind.AdvanceIterator? then Err(ClassCast("AdvanceIteratorNode"))
    else
      var target := Child(next, 0);
      if !target.kind.WriteGeneratorFrameVariable? then Err(ClassCast("WriteGeneratorFrameVariableNode"))
      else
        var getIter := Child(node, 1);
        if !getIter.kind.GetIterator? then Err(ClassCast("GetIteratorNode"))
        else
          var iteratorSlot := w.numOfGeneratorForNode;
          var kind := if depth == 0 then InnerGeneratorFor(iteratorSlot) else GeneratorFor(iteratorSlot);
          var replaced := ReplaceAt(w.tree, q, Node(kind, [target, getIter, Child(node, 2)]));
          Ok(Walk(replaced, w.numOfGeneratorBlockNode, iteratorSlot + 1))
  }

  /** The block rule: the block at q becomes a generator block taking the
      next block index slot; if it is the yield's parent, the yield becomes
      a generator yield with the same slot. */
  function BlockRule(w: Walk, q: Path, y: Path): (r: Walk)
    ensures r.numOfGeneratorBlockNode == w.numOfGeneratorBlockNode + 1
    ensures r.numOfGeneratorForNode == w.numOfGeneratorForNode
  {
    var slotOfBlockIndex := w.numOfGeneratorBlockNode;
    var yieldParent := |y| > 0 && y[..|y| - 1] == q;
    var withYield := if yieldParent then Relabel(w.tree, y, GeneratorYield(slotOfBlockIndex)) else w.tree;
    Walk(Relabel(withYield, q, GeneratorBlock(slotOfBlockIndex)), slotOfBlockIndex + 1, w.numOfGeneratorForNode)
  }

  /** The rewrite of the ancestor at path q of the yield at path y, q being
      depth + 1 levels above y: nodes already rewritten are skipped, ifs,
      elses, break targets and whiles are left alone, and any other kind is
      not covered. */
  function ReplaceControls(w: Walk, q: Path, y: Path, depth: nat): (r: Result<Walk>)
    ensures r.Ok? ==>
      r.value.numOfGeneratorBlockNode + r.value.numOfGeneratorForNode <=
      w.numOfGeneratorBlockNode + w.numOfGeneratorForNode + 1
    ensures r.Ok? ==>
      w.numOfGeneratorBlockNode <= r.value.numOfGeneratorBlockNode &&
      w.numOfGeneratorForNode <= r.value.numOfGeneratorForNode
  {
    var kind := At(w.tree, q).kind;
    if IsGeneratorVariant(kind) then Ok(w)
    else if kind.ForWithLocalTarget? then ForRule(w, q, depth)
    else if kind.Block? then Ok(BlockRule(w, q, y))
    else if kind.If? || kind.Else? || kind.BreakTarget? || kind.While? then Ok(w)
    else Err(NotCovered(kind))
  }

  /** Visit the ancestors y[..k-1], y[..k-2], ..., y[..0] of the yield at y,
      the first at depth |y| - k. */
  function WalkUp(w: Walk, y: Path, k: nat): Result<Walk>
    requires k <= |y|
    decreases k
  {
    if k == 0 then Ok(w)
    else
      match ReplaceControls(w, y[..k - 1], y, |y| - k)
      case Err(f) => Err(f)
      case Ok(w') => WalkUp(w', y, k - 1)
  }

  /** Walk up from each yield in turn. */
  function WalkYields(w: Walk, ys: seq<Path>): Result<Walk>
    decreases |ys|
  {
    if |ys| == 0 then Ok(w)
    else
      match WalkUp(w, ys[0], |ys[0]|)
      case Err(f) => Err(f)
      case Ok(w') => WalkYields(w', ys[1..])
  }

  // ---------------------------------------------------------------------
  // Phase 4: generator expressions evaluate in the enclosing frame

  function MarkEnclosing(k: Kind): Kind {
    if k.GeneratorExpression? then GeneratorExpression(true) else k
  }

  // ---------------------------------------------------------------------
  // Phase 5: breaks

  /** Where a break ends up: inside a generator for-node (with the index
      slots of the generator blocks it leaves, innermost first) or not. */
  datatype BreakExit = NoGeneratorLoop | GeneratorLoop(iteratorSlot: nat, indexSlots: seq<nat>)

  /** Climb from the ancestor b[..k-1] of the break at b through generator
      blocks, continue targets and ifs; slots collects the blocks passed. */
  function BreakOwner(t: Node, b: Path, k: nat, slots: seq<nat>): BreakExit
    requires k <= |b|
    decreases k
  {
    if k == 0 then NoGeneratorLoop   // next is the function root
    else
      var a := At(t, b[..k - 1]).kind;
      if a.GeneratorBlock? then BreakOwner(t, b, k - 1, slots + [a.indexSlot])
      else if a.ContinueTarget? || a.If? then BreakOwner(t, b, k - 1, slots)
      else if IsGeneratorForKind(a) then GeneratorLoop(a.iteratorSlot, slots)
      else NoGeneratorLoop
  }

  function RetargetBreak(t: Node, b: Path): Node {
    if |b| == 0 then t
    else
      match BreakOwner(t, b, |b|, [])
      case NoGeneratorLoop => t
      case GeneratorLoop(iteratorSlot, indexSlots) => Relabel(t, b, GeneratorBreak(iteratorSlot, indexSlots))
  }

  function RetargetBreaks(t: Node, bs: seq<Path>): Node
    decreases |bs|
  {
    if |bs| == 0 then t else RetargetBreaks(RetargetBreak(t, bs[0]), bs[1..])
  }

  /** Phases 4 and 5, on the tree the yield walk left. */
  function Finish(t: Node): Node {
    var marked := MapKinds(t, MarkEnclosing);
    RetargetBreaks(marked, FindAll(marked, IsBreakKind))
  }

  // ---------------------------------------------------------------------
  // The whole translation

  function Translate(body: Node): (r: Result<Translation>)
    ensures r.Ok? ==> |FindAll(body, IsReturnTargetKind)| == 1
    ensures |FindAll(body, IsReturnTargetKind)| != 1 ==>
      r == Err(ReturnTargetCount(|FindAll(body, IsReturnTargetKind)|))
  {
    match Prepare(body)
    case Err(f) => Err(f)
    case Ok(prepared) =>
      match WalkYields(Walk(prepared, 0, 0), FindAll(prepared, IsYieldKind))
      case Err(f) => Err(f)
      case Ok(w) => Ok(Translation(Finish(w.tree), w.numOfGeneratorBlockNode, w.numOfGeneratorForNode))
  }
}
