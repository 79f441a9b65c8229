/**
 * Properties of the generator translation.
 *
 * Input trees are assumed well formed in the way the parser builds them:
 * a return target holds [body, return], a for-loop [target, iterator, body]
 * whose target contains no yield, and an advance-iterator node its single
 * target. Under that assumption a successful translation
 *   - leaves every yield with only generator variants or pass-through
 *     nodes (if, else, break target, while) above it;
 *   - hands out block slots 0 .. numOfGeneratorBlockNode - 1 and iterator
 *     slots 0 .. numOfGeneratorForNode - 1, each to exactly one new node;
 *   - leaves no local-variable access behind.
 */
module GeneratorTranslatorProofs {
  import opened GeneratorNodes
  import opened GeneratorTranslator

  // ---------------------------------------------------------------------
  // Well-formed trees

  predicate NoYields(t: Node)
    decreases t
  {
    !IsYieldKind(t.kind) && forall i | 0 <= i < |t.children| :: NoYields(t.children[i])
  }

  predicate WellFormed(t: Node)
    decreases t
  {
    (t.kind.ReturnTarget? ==> |t.children| == 2) &&
    (t.kind.ForWithLocalTarget? ==> |t.children| == 3 && NoYields(t.children[0])) &&
    (t.kind.AdvanceIterator? ==> |t.children| == 1) &&
    forall i | 0 <= i < |t.children| :: WellFormed(t.children[i])
  }

  lemma {:induction false} NoYieldsAt(t: Node, p: Path)
    requires NoYields(t)
    requires ValidPath(t, p)
    ensures NoYields(At(t, p))
    decreases p
  {
    if |p| > 0 {
      NoYieldsAt(t.children[p[0]], p[1..]);
    }
  }

  lemma {:induction false} WellFormedAt(t: Node, p: Path)
    requires WellFormed(t)
    requires ValidPath(t, p)
    ensures WellFormed(At(t, p))
    decreases p
  {
    if |p| > 0 {
      WellFormedAt(t.children[p[0]], p[1..]);
    }
  }

  lemma {:induction false} NoYieldsReplace(t: Node, q: Path, n: Node)
    requires NoYields(t)
    requires NoYields(n)
    ensures NoYields(ReplaceAt(t, q, n))
    decreases q
  {
    if |q| > 0 && q[0] < |t.children| {
      NoYieldsReplace(t.children[q[0]], q[1..], n);
    }
  }

  /** Replacing a node keeps a tree well formed when the new node is well
      formed and brings no yield into a yield-free place. */
  lemma {:induction false} WellFormedReplace(t: Node, q: Path, n: Node)
    requires WellFormed(t)
    requires ValidPath(t, q)
    requires WellFormed(n)
    requires NoYields(At(t, q)) ==> NoYields(n)
    ensures WellFormed(ReplaceAt(t, q, n))
    decreases q
  {
    if |q| > 0 {
      var c := t.children[q[0]];
      WellFormedReplace(c, q[1..], n);
      if t.kind.ForWithLocalTarget? && q[0] == 0 {
        NoYieldsAt(c, q[1..]);
        NoYieldsReplace(c, q[1..], n);
      }
    }
  }

  /** A yield below a node means the node is not yield-free. */
  lemma YieldBelow(t: Node, q: Path, y: Path)
    requires ValidPath(t, y)
    requires IsYieldKind(At(t, y).kind)
    requires IsPrefix(q, y)
    ensures !NoYields(At(t, q))
  {
    assert y == q + y[|q|..];
    PrefixValid(t, y, |q|);
    AtAppend(t, q, y[|q|..]);
    if NoYields(At(t, q)) {
      NoYieldsAt(At(t, q), y[|q|..]);
    }
  }

  lemma WellFormedRelabel(t: Node, q: Path, k: Kind)
    requires WellFormed(t)
    requires ValidPath(t, q)
    requires !k.ReturnTarget? && !k.ForWithLocalTarget? && !k.AdvanceIterator?
    requires IsYieldKind(k) ==> IsYieldKind(At(t, q).kind)
    ensures WellFormed(Relabel(t, q, k))
  {
    WellFormedAt(t, q);
    WellFormedReplace(t, q, Node(k, At(t, q).children));
  }

  /** The path of a yield never runs through the target of a for-loop. */
  lemma YieldAvoidsTarget(t: Node, q: Path, y: Path)
    requires WellFormed(t)
    requires ValidPath(t, y)
    requires IsYieldKind(At(t, y).kind)
    requires IsPrefix(q, y) && |q| < |y|
    requires At(t, q).kind.ForWithLocalTarget?
    ensures y[|q|] != 0
  {
    PrefixValid(t, y, |q|);
    WellFormedAt(t, q);
    if y[|q|] == 0 {
      var node := At(t, q);
      assert y == q + [0] + y[|q| + 1..];
      AtAppend(t, q + [0], y[|q| + 1..]);
      AtAppend(t, q, [0]);
      PrefixValid(t, y, |q| + 1);
      assert y[..|q| + 1] == q + [0];
      assert At(t, q + [0]) == node.children[0];
      NoYieldsAt(node.children[0], y[|q| + 1..]);
    }
  }

  // ---------------------------------------------------------------------
  // More path facts

  /** Replacing a node by one sharing the child a path goes through leaves
      that path alone. */
  lemma ReplaceAtKeepsBranch(t: Node, q: Path, n: Node, r: Path)
    requires ValidPath(t, q)
    requires IsPrefix(q, r) && |q| < |r|
    requires r[|q|] < |n.children| && r[|q|] < |At(t, q).children|
    requires n.children[r[|q|]] == At(t, q).children[r[|q|]]
    ensures ValidPath(ReplaceAt(t, q, n), r) <==> ValidPath(t, r)
    ensures At(ReplaceAt(t, q, n), r) == At(t, r)
  {
    var s := r[|q|..];
    assert r == q + s;
    ReplaceAtInside(t, q, n, r);
    AtAppend(t, q, s);
  }

  /** A path that does not pass through the replaced node was valid before. */
  lemma {:induction false} ReplaceAtOutsideBack(t: Node, q: Path, n: Node, r: Path)
    requires ValidPath(t, q)
    requires ValidPath(ReplaceAt(t, q, n), r)
    requires !IsPrefix(q, r)
    ensures ValidPath(t, r)
    decreases q
  {
    if |r| > 0 && |q| > 0 && r[0] == q[0] {
      PrefixCons(q, r);
      ReplaceAtOutsideBack(t.children[q[0]], q[1..], n, r[1..]);
    }
  }

  lemma PrefixStrict(q: Path, r: Path)
    requires IsPrefix(q, r) && q != r
    ensures |q| < |r|
  {
    assert r[..|r|] == r;
  }

  // ---------------------------------------------------------------------
  // Slot census

  function BlockSlotOf(k: Kind): multiset<nat> {
    if k.GeneratorBlock? then multiset{k.indexSlot} else multiset{}
  }

  function IteratorSlotOf(k: Kind): multiset<nat> {
    if IsGeneratorForKind(k) then multiset{k.iteratorSlot} else multiset{}
  }

  /** The block index slots, resp. iterator slots, held by the nodes of a tree. */
  function BlockSlots(t: Node): multiset<nat> {
    Census(t, BlockSlotOf)
  }

  function IteratorSlots(t: Node): multiset<nat> {
    Census(t, IteratorSlotOf)
  }

  /** The slots lo .. hi - 1, each once. */
  function Range(lo: nat, hi: nat): (r: multiset<nat>)
    ensures forall s: nat :: r[s] == (if lo <= s < hi then 1 else 0)
    decreases hi - lo
  {
    if hi <= lo then multiset{} else multiset{lo} + Range(lo + 1, hi)
  }

  lemma RangeJoin(a: nat, b: nat, c: nat)
    requires a <= b <= c
    ensures Range(a, b) + Range(b, c) == Range(a, c)
  {
    assert forall s :: (Range(a, b) + Range(b, c))[s] == Range(a, c)[s];
  }

  /** Cancel the multiset x added on both sides. */
  lemma Cancel(a: multiset<nat>, u: multiset<nat>, b: multiset<nat>, v: multiset<nat>, x: multiset<nat>)
    requires a + (u + x) == b + (v + x)
    ensures a + u == b + v
  {
    forall e
      ensures (a + u)[e] == (b + v)[e]
    {
      assert (a + (u + x))[e] == (b + (v + x))[e];
    }
  }

  lemma CancelSame(a: multiset<nat>, b: multiset<nat>, x: multiset<nat>)
    requires a + x == b + x
    ensures a == b
  {
    forall e
      ensures a[e] == b[e]
    {
      assert (a + x)[e] == (b + x)[e];
    }
  }

  lemma CancelRight(a: multiset<nat>, b: multiset<nat>, v: multiset<nat>, x: multiset<nat>)
    requires a + x == b + (v + x)
    ensures a == b + v
  {
    forall e
      ensures a[e] == (b + v)[e]
    {
      assert (a + x)[e] == (b + (v + x))[e];
    }
  }

  lemma CensusRelabel(t: Node, q: Path, k: Kind, f: Kind -> multiset<nat>)
    requires ValidPath(t, q)
    ensures Census(Relabel(t, q, k), f) + f(At(t, q).kind) == Census(t, f) + f(k)
  {
    var before := At(t, q);
    var n := Node(k, before.children);
    CensusReplace(t, q, n, f);
    var r := Census(Relabel(t, q, k), f);
    var x := CensusOf(before.children, f);
    assert r + (f(before.kind) + x) == Census(t, f) + (f(k) + x);
    Cancel(r, f(before.kind), Census(t, f), f(k), x);
  }

  // ---------------------------------------------------------------------
  // The yield walk

  /** Nodes that may stay above a yield: generator variants and the
      pass-through kinds. */
  predicate DoneKind(k: Kind) {
    IsGeneratorVariant(k) || k.If? || k.Else? || k.BreakTarget? || k.While?
  }

  /** Kinds the walk stops at with notCovered(). */
  predicate UncoveredKind(k: Kind) {
    !DoneKind(k) && !k.Block? && !k.ForWithLocalTarget? && !IsYieldKind(k)
  }

  /** How the walk may change the kind at a path: not at all, or a block,
      for-loop or yield into its generator variant. */
  predicate Upgrade(k: Kind, k': Kind) {
    k' == k ||
    (k.Block? && k'.GeneratorBlock?) ||
    (k.ForWithLocalTarget? && IsGeneratorForKind(k')) ||
    (IsYieldKind(k) && k'.GeneratorYield?)
  }

  /** The yields of t are exactly the paths in ys, and t is well formed. */
  ghost predicate Inv(t: Node, ys: seq<Path>) {
    WellFormed(t) &&
    (forall y | y in ys :: ValidPath(t, y) && IsYieldKind(At(t, y).kind)) &&
    (forall p | ValidPath(t, p) && IsYieldKind(At(t, p).kind) :: p in ys)
  }

  ghost predicate OnYieldPath(p: Path, ys: seq<Path>) {
    exists y | y in ys :: IsPrefix(p, y)
  }

  /** Every node on the way to a yield of ys survives, upgraded at most. */
  ghost predicate Evolves(t: Node, t': Node, ys: seq<Path>) {
    forall p | OnYieldPath(p, ys) :: ValidPath(t', p) && Upgrade(At(t, p).kind, At(t', p).kind)
  }

  predicate AncestorsDone(t: Node, y: Path) {
    forall j | 0 <= j < |y| :: DoneKind(At(t, y[..j]).kind)
  }

  lemma OnYieldPathValid(t: Node, ys: seq<Path>, p: Path)
    requires Inv(t, ys)
    requires OnYieldPath(p, ys)
    ensures ValidPath(t, p)
  {
    var y :| y in ys && IsPrefix(p, y);
    PrefixValid(t, y, |p|);
  }

  lemma EvolvesRefl(t: Node, ys: seq<Path>)
    requires Inv(t, ys)
    ensures Evolves(t, t, ys)
  {
    forall p | OnYieldPath(p, ys)
      ensures ValidPath(t, p)
    {
      OnYieldPathValid(t, ys, p);
    }
  }

  lemma EvolvesTrans(t1: Node, t2: Node, t3: Node, ys: seq<Path>)
    requires Evolves(t1, t2, ys) && Evolves(t2, t3, ys)
    ensures Evolves(t1, t3, ys)
  {
  }

  lemma UpgradeKeepsDone(k: Kind, k': Kind)
    requires DoneKind(k) && Upgrade(k, k')
    ensures DoneKind(k')
  {
    if k' != k {
      GeneratorVariantsRecognised(k');
    }
  }

  lemma EvolvesKeepsDone(t: Node, t': Node, ys: seq<Path>, y: Path)
    requires Evolves(t, t', ys)
    requires y in ys
    requires AncestorsDone(t, y)
    ensures AncestorsDone(t', y)
  {
    forall j | 0 <= j < |y|
      ensures DoneKind(At(t', y[..j]).kind)
    {
      assert OnYieldPath(y[..j], ys) by {
        assert IsPrefix(y[..j], y);
      }
      UpgradeKeepsDone(At(t, y[..j]).kind, At(t', y[..j]).kind);
    }
  }

  lemma CensusOfThree(a: Node, b: Node, c: Node, f: Kind -> multiset<nat>)
    ensures CensusOf([a, b, c], f) == Census(a, f) + (Census(b, f) + Census(c, f))
  {
    assert [a, b, c][1..] == [b, c];
    assert [b, c][1..] == [c];
    assert [c][1..] == [];
    assert CensusOf([c], f) == Census(c, f) + CensusOf([], f);
    assert CensusOf([b, c], f) == Census(b, f) + CensusOf([c], f);
  }

  lemma CensusOfOne(a: Node, f: Kind -> multiset<nat>)
    ensures CensusOf([a], f) == Census(a, f)
  {
    assert [a][1..] == [];
    assert CensusOf([a], f) == Census(a, f) + CensusOf([], f);
  }

  /** What the for-loop rule puts in place of the loop node: a node of a
      generator for-kind with the loop's target (unwrapped from its
      advance-iterator node), iterator and body. */
  predicate ForReplacement(node: Node, n: Node) {
    IsGeneratorForKind(n.kind) &&
    |node.children| == 3 && node.children[0].kind.AdvanceIterator? && |node.children[0].children| == 1 &&
    n.children == [node.children[0].children[0], node.children[1], node.children[2]]
  }

  /** The for-loop rule keeps the yields of ys and well-formedness. */
  lemma ForReplaceInv(t: Node, q: Path, n: Node, ys: seq<Path>, y: Path)
    requires Inv(t, ys)
    requires y in ys && IsPrefix(q, y) && |q| < |y|
    requires At(t, q).kind.ForWithLocalTarget?
    requires ForReplacement(At(t, q), n)
    ensures Inv(ReplaceAt(t, q, n), ys)
  {
    var node := At(t, q);
    var t' := ReplaceAt(t, q, n);
    PrefixValid(t, y, |q|);
    assert y[..|q|] == q;
    WellFormedAt(t, q);
    var next := node.children[0];
    assert WellFormed(next) && NoYields(next);
    var target := next.children[0];
    assert NoYields(target) && WellFormed(target);
    assert WellFormed(n) by {
      assert forall i | 0 <= i < |n.children| :: WellFormed(n.children[i]);
    }
    YieldBelow(t, q, y);
    WellFormedReplace(t, q, n);
    forall y' | y' in ys
      ensures ValidPath(t', y') && IsYieldKind(At(t', y').kind)
    {
      if IsPrefix(q, y') {
        assert y' != q;
        PrefixStrict(q, y');
        YieldAvoidsTarget(t, q, y');
        assert y' == q + y'[|q|..];
        AtAppend(t, q, y'[|q|..]);
        ReplaceAtKeepsBranch(t, q, n, y');
      } else {
        ReplaceAtOutside(t, q, n, y');
      }
    }
    forall p | ValidPath(t', p) && IsYieldKind(At(t', p).kind)
      ensures p in ys
    {
      if IsPrefix(q, p) {
        ReplaceAtInside(t, q, n, p);
        var s := p[|q|..];
        if |s| > 0 && s[0] == 0 {
          assert At(n, s) == At(target, s[1..]);
          NoYieldsAt(target, s[1..]);
        } else if |s| > 0 {
          assert p == q + s;
          AtAppend(t, q, s);
          ReplaceAtKeepsBranch(t, q, n, p);
        }
      } else {
        ReplaceAtOutsideBack(t, q, n, p);
        ReplaceAtOutside(t, q, n, p);
      }
    }
  }

  /** Under the for-loop rule the nodes above the yields are kept, the loop
      itself upgraded. */
  lemma ForReplaceEvolves(t: Node, q: Path, n: Node, ys: seq<Path>)
    requires Inv(t, ys)
    requires ValidPath(t, q)
    requires At(t, q).kind.ForWithLocalTarget?
    requires ForReplacement(At(t, q), n)
    ensures Evolves(t, ReplaceAt(t, q, n), ys)
  {
    var t' := ReplaceAt(t, q, n);
    forall p | OnYieldPath(p, ys)
      ensures ValidPath(t', p) && Upgrade(At(t, p).kind, At(t', p).kind)
    {
      OnYieldPathValid(t, ys, p);
      var y' :| y' in ys && IsPrefix(p, y');
      if p == q {
        ReplaceAtValid(t, q, n);
      } else if IsPrefix(q, p) {
        assert IsPrefix(q, y') && |q| < |y'| && y'[|q|] == p[|q|];
        YieldAvoidsTarget(t, q, y');
        assert p == q + p[|q|..];
        AtAppend(t, q, p[|q|..]);
        ReplaceAtKeepsBranch(t, q, n, p);
      } else {
        ReplaceAtOutside(t, q, n, p);
      }
    }
  }

  /** The for-loop rule changes no kind on a yield's path except at the loop. */
  lemma ForReplaceKeeps(t: Node, q: Path, n: Node, ys: seq<Path>)
    requires Inv(t, ys)
    requires ValidPath(t, q)
    requires At(t, q).kind.ForWithLocalTarget?
    requires ForReplacement(At(t, q), n)
    ensures forall p | OnYieldPath(p, ys) && p != q :: At(ReplaceAt(t, q, n), p).kind == At(t, p).kind
  {
    forall p | OnYieldPath(p, ys) && p != q
      ensures At(ReplaceAt(t, q, n), p).kind == At(t, p).kind
    {
      OnYieldPathValid(t, ys, p);
      var y' :| y' in ys && IsPrefix(p, y');
      if IsPrefix(q, p) {
        assert IsPrefix(q, y') && |q| < |y'| && y'[|q|] == p[|q|];
        YieldAvoidsTarget(t, q, y');
        assert p == q + p[|q|..];
        AtAppend(t, q, p[|q|..]);
        ReplaceAtKeepsBranch(t, q, n, p);
      } else {
        ReplaceAtOutside(t, q, n, p);
      }
    }
  }

  /** The for-loop rule adds the new node's iterator slot and no block slot. */
  lemma ForReplaceCensus(t: Node, q: Path, n: Node, f: Kind -> multiset<nat>)
    requires ValidPath(t, q)
    requires ForReplacement(At(t, q), n)
    requires f(At(t, q).kind) == multiset{} && f(At(t, q).children[0].kind) == multiset{}
    ensures Census(ReplaceAt(t, q, n), f) == Census(t, f) + f(n.kind)
  {
    var node := At(t, q);
    var next := node.children[0];
    assert node.children == [next, node.children[1], node.children[2]];
    assert next.children == [next.children[0]];
    CensusOfThree(next, node.children[1], node.children[2], f);
    CensusOfThree(next.children[0], node.children[1], node.children[2], f);
    CensusOfOne(next.children[0], f);
    CensusReplace(t, q, n, f);
    var x := Census(next.children[0], f) + (Census(node.children[1], f) + Census(node.children[2], f));
    assert Census(next, f) == Census(next.children[0], f);
    assert Census(node, f) == x;
    assert Census(n, f) == f(n.kind) + x;
    CancelRight(Census(ReplaceAt(t, q, n), f), Census(t, f), f(n.kind), x);
  }

  /** The node the for-loop rule builds from the loop node. */
  function ForNodeOf(node: Node, kind: Kind): Node {
    Node(kind, [Child(Child(node, 0), 0), Child(node, 1), Child(node, 2)])
  }

  lemma ForRuleResult(w: Walk, q: Path, depth: nat, w': Walk)
    requires ForRule(w, q, depth) == Ok(w')
    ensures Child(At(w.tree, q), 0).kind.AdvanceIterator?
    ensures w' == Walk(ReplaceAt(w.tree, q, ForNodeOf(At(w.tree, q), ForKindAt(depth, w.numOfGeneratorForNode))),
                       w.numOfGeneratorBlockNode, w.numOfGeneratorForNode + 1)
  {
  }

  lemma DispatchFor(w: Walk, q: Path, y: Path, depth: nat)
    requires At(w.tree, q).kind.ForWithLocalTarget?
    ensures ReplaceControls(w, q, y, depth) == ForRule(w, q, depth)
  {
    PlainKindsNotRecognised(At(w.tree, q).kind);
  }

  function ForKindAt(depth: nat, slot: nat): Kind {
    if depth == 0 then InnerGeneratorFor(slot) else GeneratorFor(slot)
  }

  /** The for-loop rule as one step of the walk. */
  lemma ForStep(w: Walk, q: Path, y: Path, depth: nat, ys: seq<Path>, w': Walk)
    requires Inv(w.tree, ys)
    requires y in ys && IsPrefix(q, y) && |q| < |y|
    requires At(w.tree, q).kind.ForWithLocalTarget?
    requires ReplaceControls(w, q, y, depth) == Ok(w')
    ensures Inv(w'.tree, ys) && Evolves(w.tree, w'.tree, ys)
    ensures DoneKind(At(w'.tree, q).kind)
    ensures w'.numOfGeneratorBlockNode == w.numOfGeneratorBlockNode
    ensures w'.numOfGeneratorForNode == w.numOfGeneratorForNode + 1
    ensures BlockSlots(w'.tree) == BlockSlots(w.tree)
    ensures IteratorSlots(w'.tree) == IteratorSlots(w.tree) + multiset{w.numOfGeneratorForNode}
  {
    var t := w.tree;
    var node := At(t, q);
    PrefixValid(t, y, |q|);
    assert y[..|q|] == q;
    WellFormedAt(t, q);
    DispatchFor(w, q, y, depth);
    ForRuleResult(w, q, depth, w');
    assert WellFormed(node.children[0]);
    var kind := ForKindAt(depth, w.numOfGeneratorForNode);
    var n := ForNodeOf(node, kind);
    assert ForReplacement(node, n);
    ForReplaceInv(t, q, n, ys, y);
    ForReplaceEvolves(t, q, n, ys);
    ReplaceAtValid(t, q, n);
    GeneratorVariantsRecognised(kind);
    ForReplaceCensus(t, q, n, BlockSlotOf);
    ForReplaceCensus(t, q, n, IteratorSlotOf);
  }

  /** Turning a yield of ys into a generator yield keeps the invariant. */
  lemma RelabelYield(t: Node, y: Path, k: Kind, ys: seq<Path>)
    requires Inv(t, ys)
    requires y in ys && k.GeneratorYield?
    ensures Inv(Relabel(t, y, k), ys) && Evolves(t, Relabel(t, y, k), ys)
  {
    var t' := Relabel(t, y, k);
    WellFormedRelabel(t, y, k);
    forall p | ValidPath(t, p)
      ensures ValidPath(t', p) && At(t', p).kind == (if p == y then k else At(t, p).kind)
    {
      RelabelKinds(t, y, k, p);
    }
    forall p | ValidPath(t', p)
      ensures ValidPath(t, p)
    {
      RelabelKinds(t, y, k, p);
    }
    forall p | OnYieldPath(p, ys)
      ensures ValidPath(t, p)
    {
      OnYieldPathValid(t, ys, p);
    }
  }

  /** Turning a block into a generator block keeps the invariant. */
  lemma RelabelBlock(t: Node, q: Path, k: Kind, ys: seq<Path>)
    requires Inv(t, ys)
    requires ValidPath(t, q) && At(t, q).kind.Block?
    requires k.GeneratorBlock?
    ensures Inv(Relabel(t, q, k), ys) && Evolves(t, Relabel(t, q, k), ys)
  {
    var t' := Relabel(t, q, k);
    WellFormedRelabel(t, q, k);
    forall p | ValidPath(t, p)
      ensures ValidPath(t', p) && At(t', p).kind == (if p == q then k else At(t, p).kind)
    {
      RelabelKinds(t, q, k, p);
    }
    forall p | ValidPath(t', p)
      ensures ValidPath(t, p)
    {
      RelabelKinds(t, q, k, p);
    }
    forall p | OnYieldPath(p, ys)
      ensures ValidPath(t, p)
    {
      OnYieldPathValid(t, ys, p);
    }
  }

  lemma DispatchBlock(w: Walk, q: Path, y: Path, depth: nat)
    requires At(w.tree, q).kind.Block?
    ensures ReplaceControls(w, q, y, depth) == Ok(BlockRule(w, q, y))
  {
    PlainKindsNotRecognised(At(w.tree, q).kind);
  }

  /** The tree the block rule produces. */
  lemma BlockRuleTree(w: Walk, q: Path, y: Path)
    ensures BlockRule(w, q, y).tree ==
      Relabel(YieldRelabelled(w.tree, q, y, w.numOfGeneratorBlockNode), q, GeneratorBlock(w.numOfGeneratorBlockNode))
  {
  }

  function YieldRelabelled(t: Node, q: Path, y: Path, slot: nat): Node {
    if |y| > 0 && y[..|y| - 1] == q then Relabel(t, y, GeneratorYield(slot)) else t
  }

  lemma BlockRuleShape(t: Node, q: Path, y: Path, slot: nat, ys: seq<Path>)
    requires Inv(t, ys)
    requires y in ys && ValidPath(t, q) && At(t, q).kind.Block?
    ensures var t' := Relabel(YieldRelabelled(t, q, y, slot), q, GeneratorBlock(slot));
      Inv(t', ys) && Evolves(t, t', ys) && DoneKind(At(t', q).kind)
  {
    var t1 := YieldRelabelled(t, q, y, slot);
    if |y| > 0 && y[..|y| - 1] == q {
      RelabelYield(t, y, GeneratorYield(slot), ys);
      RelabelKinds(t, y, GeneratorYield(slot), q);
    } else {
      EvolvesRefl(t, ys);
    }
    var t' := Relabel(t1, q, GeneratorBlock(slot));
    RelabelBlock(t1, q, GeneratorBlock(slot), ys);
    EvolvesTrans(t, t1, t', ys);
    RelabelKinds(t1, q, GeneratorBlock(slot), q);
    GeneratorVariantsRecognised(GeneratorBlock(slot));
  }

  lemma BlockRuleCensus(t: Node, q: Path, y: Path, slot: nat, f: Kind -> multiset<nat>)
    requires ValidPath(t, q) && At(t, q).kind.Block?
    requires ValidPath(t, y) && IsYieldKind(At(t, y).kind)
    requires f(Block) == multiset{}
    requires forall k :: IsYieldKind(k) ==> f(k) == multiset{}
    ensures Census(Relabel(YieldRelabelled(t, q, y, slot), q, GeneratorBlock(slot)), f) ==
      Census(t, f) + f(GeneratorBlock(slot))
  {
    var t1 := YieldRelabelled(t, q, y, slot);
    if |y| > 0 && y[..|y| - 1] == q {
      CensusRelabel(t, y, GeneratorYield(slot), f);
      RelabelKinds(t, y, GeneratorYield(slot), q);
      assert f(At(t, y).kind) == multiset{} && f(GeneratorYield(slot)) == multiset{};
      assert t1 == Relabel(t, y, GeneratorYield(slot));
      assert Census(t1, f) + multiset{} == Census(t, f) + multiset{};
      assert Census(t1, f) + multiset{} == Census(t1, f);
      assert Census(t, f) + multiset{} == Census(t, f);
    }
    assert Census(t1, f) == Census(t, f);
    assert At(t1, q).kind == Block && ValidPath(t1, q) by {
      if |y| > 0 && y[..|y| - 1] == q {
        RelabelKinds(t, y, GeneratorYield(slot), q);
      }
    }
    CensusRelabel(t1, q, GeneratorBlock(slot), f);
  }

  /** The block rule as one step of the walk. */
  lemma BlockStep(w: Walk, q: Path, y: Path, depth: nat, ys: seq<Path>, w': Walk)
    requires Inv(w.tree, ys)
    requires y in ys && IsPrefix(q, y) && |q| < |y|
    requires At(w.tree, q).kind.Block?
    requires ReplaceControls(w, q, y, depth) == Ok(w')
    ensures Inv(w'.tree, ys) && Evolves(w.tree, w'.tree, ys)
    ensures DoneKind(At(w'.tree, q).kind)
    ensures w'.numOfGeneratorBlockNode == w.numOfGeneratorBlockNode + 1
    ensures w'.numOfGeneratorForNode == w.numOfGeneratorForNode
    ensures BlockSlots(w'.tree) == BlockSlots(w.tree) + multiset{w.numOfGeneratorBlockNode}
    ensures IteratorSlots(w'.tree) == IteratorSlots(w.tree)
  {
    var t := w.tree;
    DispatchBlock(w, q, y, depth);
    BlockRuleTree(w, q, y);
    PrefixValid(t, y, |q|);
    assert y[..|q|] == q;
    BlockRuleShape(t, q, y, w.numOfGeneratorBlockNode, ys);
    BlockRuleCensus(t, q, y, w.numOfGeneratorBlockNode, BlockSlotOf);
    BlockRuleCensus(t, q, y, w.numOfGeneratorBlockNode, IteratorSlotOf);
  }

  lemma RangeEmpty(a: nat)
    ensures Range(a, a) == multiset{}
  {
    assert forall s :: Range(a, a)[s] == multiset{}[s];
  }

  lemma RangeOne(a: nat)
    ensures Range(a, a + 1) == multiset{a}
  {
    assert forall s :: Range(a, a + 1)[s] == multiset{a}[s];
  }

  lemma AddRanges(x: multiset<nat>, a: nat, b: nat, c: nat)
    requires a <= b <= c
    ensures (x + Range(a, b)) + Range(b, c) == x + Range(a, c)
  {
    RangeJoin(a, b, c);
    assert forall e :: ((x + Range(a, b)) + Range(b, c))[e] == (x + (Range(a, b) + Range(b, c)))[e];
  }

  /** The for-loop rule succeeds exactly when the three casts do; the loop
      node is then replaced by a generator for-node (an inner one at depth 0)
      over the loop's target, iterator and body with the next iterator slot,
      and every node outside the loop is left as it was. */
  lemma ForRuleEffect(w: Walk, q: Path, depth: nat)
    requires ValidPath(w.tree, q)
    ensures var node := At(w.tree, q);
      ForRule(w, q, depth).Ok? <==>
        Child(node, 0).kind.AdvanceIterator? && Child(Child(node, 0), 0).kind.WriteGeneratorFrameVariable? &&
        Child(node, 1).kind.GetIterator?
    ensures ForRule(w, q, depth).Ok? ==>
      var node := At(w.tree, q);
      var t' := ForRule(w, q, depth).value.tree;
      var slot := w.numOfGeneratorForNode;
      ValidPath(t', q) &&
      At(t', q) == Node(if depth == 0 then InnerGeneratorFor(slot) else GeneratorFor(slot),
                        [Child(Child(node, 0), 0), Child(node, 1), Child(node, 2)])
    ensures ForRule(w, q, depth).Ok? ==>
      var t' := ForRule(w, q, depth).value.tree;
      forall r | ValidPath(w.tree, r) && !IsPrefix(q, r) :: ValidPath(t', r) && At(t', r).kind == At(w.tree, r).kind
  {
    if ForRule(w, q, depth).Ok? {
      var n := ForNodeOf(At(w.tree, q), ForKindAt(depth, w.numOfGeneratorForNode));
      ForRuleResult(w, q, depth, ForRule(w, q, depth).value);
      ReplaceAtValid(w.tree, q, n);
      forall r | ValidPath(w.tree, r) && !IsPrefix(q, r)
        ensures ValidPath(ReplaceAt(w.tree, q, n), r) && At(ReplaceAt(w.tree, q, n), r).kind == At(w.tree, r).kind
      {
        ReplaceAtOutside(w.tree, q, n, r);
      }
    }
  }

  /** The block rule relabels the block at q as a generator block with the
      next index slot, and the yield at y as a generator yield with the same
      slot exactly when q is y's parent; every other node keeps its kind and
      every node its children. */
  lemma BlockRuleEffect(w: Walk, q: Path, y: Path)
    requires ValidPath(w.tree, y) && IsPrefix(q, y) && |q| < |y|
    ensures var t' := BlockRule(w, q, y).tree;
      forall r :: ValidPath(t', r) <==> ValidPath(w.tree, r)
    ensures var t' := BlockRule(w, q, y).tree;
      var slot := w.numOfGeneratorBlockNode;
      forall r | ValidPath(w.tree, r) ::
        At(t', r).kind ==
          if r == q then GeneratorBlock(slot)
          else if r == y && y[..|y| - 1] == q then GeneratorYield(slot)
          else At(w.tree, r).kind
  {
    var t := w.tree;
    var slot := w.numOfGeneratorBlockNode;
    PrefixValid(t, y, |q|);
    assert y[..|q|] == q;
    var t1 := YieldRelabelled(t, q, y, slot);
    BlockRuleTree(w, q, y);
    assert ValidPath(t1, q) && (ValidPath(t1, y) <==> ValidPath(t, y)) by {
      if |y| > 0 && y[..|y| - 1] == q {
        RelabelKinds(t, y, GeneratorYield(slot), q);
        RelabelKinds(t, y, GeneratorYield(slot), y);
      }
    }
    forall r
      ensures ValidPath(BlockRule(w, q, y).tree, r) <==> ValidPath(t, r)
      ensures ValidPath(t, r) ==>
        At(BlockRule(w, q, y).tree, r).kind ==
          if r == q then GeneratorBlock(slot)
          else if r == y && y[..|y| - 1] == q then GeneratorYield(slot)
          else At(t, r).kind
    {
      if |y| > 0 && y[..|y| - 1] == q {
        RelabelKinds(t, y, GeneratorYield(slot), r);
      }
      RelabelKinds(t1, q, GeneratorBlock(slot), r);
    }
  }

  /** One visit of an ancestor of a yield, whichever rule applies. */
  lemma ControlsStep(w: Walk, q: Path, y: Path, depth: nat, ys: seq<Path>, w': Walk)
    requires Inv(w.tree, ys)
    requires y in ys && IsPrefix(q, y) && |q| < |y|
    requires ReplaceControls(w, q, y, depth) == Ok(w')
    ensures Inv(w'.tree, ys) && Evolves(w.tree, w'.tree, ys)
    ensures DoneKind(At(w'.tree, q).kind)
    ensures w.numOfGeneratorBlockNode <= w'.numOfGeneratorBlockNode
    ensures w.numOfGeneratorForNode <= w'.numOfGeneratorForNode
    ensures BlockSlots(w'.tree) == BlockSlots(w.tree) + Range(w.numOfGeneratorBlockNode, w'.numOfGeneratorBlockNode)
    ensures IteratorSlots(w'.tree) == IteratorSlots(w.tree) + Range(w.numOfGeneratorForNode, w'.numOfGeneratorForNode)
  {
    var k := At(w.tree, q).kind;
    if k.ForWithLocalTarget? {
      ForStep(w, q, y, depth, ys, w');
      RangeEmpty(w.numOfGeneratorBlockNode);
      RangeOne(w.numOfGeneratorForNode);
    } else if k.Block? {
      BlockStep(w, q, y, depth, ys, w');
      RangeOne(w.numOfGeneratorBlockNode);
      RangeEmpty(w.numOfGeneratorForNode);
    } else {
      assert w' == w;
      EvolvesRefl(w.tree, ys);
      RangeEmpty(w.numOfGeneratorBlockNode);
      RangeEmpty(w.numOfGeneratorForNode);
    }
  }

  /** Visiting the ancestors y[..k-1], ..., y[..0] of the yield at y
      leaves each of them done. */
  lemma {:induction false} WalkUpSpec(w: Walk, y: Path, k: nat, ys: seq<Path>, w': Walk)
    requires Inv(w.tree, ys)
    requires y in ys && k <= |y|
    requires WalkUp(w, y, k) == Ok(w')
    ensures Inv(w'.tree, ys) && Evolves(w.tree, w'.tree, ys)
    ensures forall j | 0 <= j < k :: DoneKind(At(w'.tree, y[..j]).kind)
    decreases k
  {
    if k == 0 {
      assert w' == w;
      EvolvesRefl(w.tree, ys);
    } else {
      var q := y[..k - 1];
      assert IsPrefix(q, y);
      var w1 := ReplaceControls(w, q, y, |y| - k).value;
      ControlsStep(w, q, y, |y| - k, ys, w1);
      assert WalkUp(w1, y, k - 1) == Ok(w');
      WalkUpSpec(w1, y, k - 1, ys, w');
      EvolvesTrans(w.tree, w1.tree, w'.tree, ys);
      forall j | 0 <= j < k
        ensures DoneKind(At(w'.tree, y[..j]).kind)
      {
        if j == k - 1 {
          assert OnYieldPath(q, ys);
          UpgradeKeepsDone(At(w1.tree, q).kind, At(w'.tree, q).kind);
        }
      }
    }
  }

  /** The slots handed out while walking up from one yield. */
  lemma {:induction false} WalkUpCensus(w: Walk, y: Path, k: nat, ys: seq<Path>, w': Walk)
    requires Inv(w.tree, ys)
    requires y in ys && k <= |y|
    requires WalkUp(w, y, k) == Ok(w')
    ensures w.numOfGeneratorBlockNode <= w'.numOfGeneratorBlockNode
    ensures w.numOfGeneratorForNode <= w'.numOfGeneratorForNode
    ensures BlockSlots(w'.tree) == BlockSlots(w.tree) + Range(w.numOfGeneratorBlockNode, w'.numOfGeneratorBlockNode)
    ensures IteratorSlots(w'.tree) == IteratorSlots(w.tree) + Range(w.numOfGeneratorForNode, w'.numOfGeneratorForNode)
    decreases k
  {
    if k == 0 {
      assert w' == w;
      RangeEmpty(w.numOfGeneratorBlockNode);
      RangeEmpty(w.numOfGeneratorForNode);
    } else {
      var q := y[..k - 1];
      assert IsPrefix(q, y);
      var w1 := ReplaceControls(w, q, y, |y| - k).value;
      ControlsStep(w, q, y, |y| - k, ys, w1);
      WalkUpCensus(w1, y, k - 1, ys, w');
      AddRanges(BlockSlots(w.tree), w.numOfGeneratorBlockNode, w1.numOfGeneratorBlockNode, w'.numOfGeneratorBlockNode);
      AddRanges(IteratorSlots(w.tree), w.numOfGeneratorForNode, w1.numOfGeneratorForNode, w'.numOfGeneratorForNode);
    }
  }

  /** Walking up from every yield of rest leaves all their ancestors done. */
  lemma {:induction false} WalkYieldsSpec(w: Walk, rest: seq<Path>, ys: seq<Path>, w': Walk)
    requires Inv(w.tree, ys)
    requires forall y | y in rest :: y in ys
    requires WalkYields(w, rest) == Ok(w')
    ensures Inv(w'.tree, ys) && Evolves(w.tree, w'.tree, ys)
    ensures forall y | y in rest :: AncestorsDone(w'.tree, y)
    ensures w.numOfGeneratorBlockNode <= w'.numOfGeneratorBlockNode
    ensures w.numOfGeneratorForNode <= w'.numOfGeneratorForNode
    ensures BlockSlots(w'.tree) == BlockSlots(w.tree) + Range(w.numOfGeneratorBlockNode, w'.numOfGeneratorBlockNode)
    ensures IteratorSlots(w'.tree) == IteratorSlots(w.tree) + Range(w.numOfGeneratorForNode, w'.numOfGeneratorForNode)
    decreases |rest|
  {
    if |rest| == 0 {
      assert w' == w;
      EvolvesRefl(w.tree, ys);
      RangeEmpty(w.numOfGeneratorBlockNode);
      RangeEmpty(w.numOfGeneratorForNode);
    } else {
      var y := rest[0];
      var w1 := WalkUp(w, y, |y|).value;
      WalkUpSpec(w, y, |y|, ys, w1);
      WalkUpCensus(w, y, |y|, ys, w1);
      WalkYieldsSpec(w1, rest[1..], ys, w');
      EvolvesTrans(w.tree, w1.tree, w'.tree, ys);
      EvolvesKeepsDone(w1.tree, w'.tree, ys, y);
      forall y' | y' in rest
        ensures AncestorsDone(w'.tree, y')
      {
        if y' != y {
          assert y' in rest[1..];
        }
      }
      AddRanges(BlockSlots(w.tree), w.numOfGeneratorBlockNode, w1.numOfGeneratorBlockNode, w'.numOfGeneratorBlockNode);
      AddRanges(IteratorSlots(w.tree), w.numOfGeneratorForNode, w1.numOfGeneratorForNode, w'.numOfGeneratorForNode);
    }
  }

  // ---------------------------------------------------------------------
  // Preparation keeps trees well formed and slots unchanged

  lemma {:induction false} NoYieldsMap(t: Node, f: Kind -> Kind)
    requires forall k :: IsYieldKind(f(k)) ==> IsYieldKind(k)
    requires NoYields(t)
    ensures NoYields(MapKinds(t, f))
    decreases t
  {
    forall i | 0 <= i < |t.children|
      ensures NoYields(MapKinds(t.children[i], f))
    {
      NoYieldsMap(t.children[i], f);
    }
  }

  /** A kind map that introduces no return target, for-loop, advance-iterator
      or yield keeps a tree well formed. */
  lemma {:induction false} WellFormedMap(t: Node, f: Kind -> Kind)
    requires forall k :: f(k).ReturnTarget? ==> k.ReturnTarget?
    requires forall k :: f(k).ForWithLocalTarget? ==> k.ForWithLocalTarget?
    requires forall k :: f(k).AdvanceIterator? ==> k.AdvanceIterator?
    requires forall k :: IsYieldKind(f(k)) ==> IsYieldKind(k)
    requires WellFormed(t)
    ensures WellFormed(MapKinds(t, f))
    decreases t
  {
    forall i | 0 <= i < |t.children|
      ensures WellFormed(MapKinds(t.children[i], f))
    {
      WellFormedMap(t.children[i], f);
    }
    if t.kind.ForWithLocalTarget? {
      NoYieldsMap(t.children[0], f);
    }
  }

  lemma SplitWellFormed(rt: Node, g: Node)
    requires WellFormed(rt) && rt.kind.ReturnTarget?
    requires SplitArgumentLoads(rt) == Ok(g)
    ensures WellFormed(g)
    ensures NoYields(rt) ==> NoYields(g)
  {
    var body := rt.children[0];
    assert WellFormed(body);
    if NoYields(rt) {
      assert NoYields(body) && NoYields(rt.children[1]);
      assert NoYields(Leaf(Empty));
      assert forall i | 0 <= i < |body.children| :: NoYields(body.children[i]);
      assert forall i | 0 <= i < |g.children| :: NoYields(g.children[i]);
    }
  }

  /** Splitting moves nodes around without adding or dropping any slot. */
  lemma SplitCensus(rt: Node, g: Node, f: Kind -> multiset<nat>)
    requires rt.kind.ReturnTarget? && |rt.children| == 2
    requires SplitArgumentLoads(rt) == Ok(g)
    requires f(ReturnTarget) == multiset{} && f(GeneratorReturnTarget) == multiset{}
    requires f(Block) == multiset{} && f(Empty) == multiset{}
    ensures Census(g, f) == Census(rt, f)
  {
    var body := rt.children[0];
    var ret := rt.children[1];
    assert rt.children == [body, ret];
    CensusOfTwo(body, ret, f);
    if body.kind.Block? {
      assert body.children == [body.children[0], body.children[1]];
      CensusOfTwo(body.children[0], body.children[1], f);
      CensusOfThree(body.children[0], body.children[1], ret, f);
      assert Census(g, f) == Census(body.children[0], f) + (Census(body.children[1], f) + Census(ret, f));
      assert Census(rt, f) == (Census(body.children[0], f) + Census(body.children[1], f)) + Census(ret, f);
    } else {
      CensusOfThree(Leaf(Empty), body, ret, f);
      assert Census(Leaf(Empty), f) == multiset{};
    }
  }

  /** A successful preparation: the single return target, its split, and
      the redirected tree. */
  lemma PrepareParts(body: Node, t: Node) returns (rt: Path, g: Node)
    requires Prepare(body) == Ok(t)
    ensures FindAll(body, IsReturnTargetKind) == [rt]
    ensures ValidPath(body, rt) && At(body, rt).kind.ReturnTarget?
    ensures SplitArgumentLoads(At(body, rt)) == Ok(g)
    ensures t == RedirectLocals(ReplaceAt(body, rt, g))
  {
    rt := FindAll(body, IsReturnTargetKind)[0];
    FindAllSpec(body, IsReturnTargetKind, rt);
    g := SplitArgumentLoads(At(body, rt)).value;
  }

  lemma PrepareWellFormed(body: Node, t: Node)
    requires WellFormed(body)
    requires Prepare(body) == Ok(t)
    ensures WellFormed(t)
  {
    var rt, g := PrepareParts(body, t);
    var node := At(body, rt);
    WellFormedAt(body, rt);
    SplitWellFormed(node, g);
    WellFormedReplace(body, rt, g);
    var replaced := ReplaceAt(body, rt, g);
    var written := MapKinds(replaced, RedirectWrite);
    WellFormedMap(replaced, RedirectWrite);
    WellFormedMap(written, RedirectRead);
    WellFormedMap(MapKinds(written, RedirectRead), RedirectRead);
  }

  lemma PrepareCensus(body: Node, t: Node, f: Kind -> multiset<nat>)
    requires WellFormed(body)
    requires Prepare(body) == Ok(t)
    requires f(ReturnTarget) == multiset{} && f(GeneratorReturnTarget) == multiset{}
    requires f(Block) == multiset{} && f(Empty) == multiset{}
    requires forall k :: f(RedirectWrite(k)) == f(k) && f(RedirectRead(k)) == f(k)
    ensures Census(t, f) == Census(body, f)
  {
    var rt, g := PrepareParts(body, t);
    var replaced := ReplaceAt(body, rt, g);
    assert Census(replaced, f) == Census(body, f) by {
      var node := At(body, rt);
      WellFormedAt(body, rt);
      SplitCensus(node, g, f);
      CensusReplace(body, rt, g, f);
      CancelSame(Census(replaced, f), Census(body, f), Census(node, f));
    }
    RedirectCensus(replaced, f);
  }

  lemma RedirectCensus(t: Node, f: Kind -> multiset<nat>)
    requires forall k :: f(RedirectWrite(k)) == f(k) && f(RedirectRead(k)) == f(k)
    ensures Census(RedirectLocals(t), f) == Census(t, f)
  {
    var written := MapKinds(t, RedirectWrite);
    CensusMap(t, RedirectWrite, f);
    CensusMap(written, RedirectRead, f);
    CensusMap(MapKinds(written, RedirectRead), RedirectRead, f);
  }

  lemma CensusOfTwo(a: Node, b: Node, f: Kind -> multiset<nat>)
    ensures CensusOf([a, b], f) == Census(a, f) + Census(b, f)
  {
    assert [a, b][1..] == [b];
    CensusOfOne(b, f);
  }

  // ---------------------------------------------------------------------
  // Marking generator expressions and retargeting breaks

  ghost predicate BreaksAt(t: Node, bs: seq<Path>) {
    forall b | b in bs :: ValidPath(t, b) && IsBreakKind(At(t, b).kind)
  }

  lemma RetargetBreakKinds(t: Node, b: Path, p: Path)
    requires ValidPath(t, b) && IsBreakKind(At(t, b).kind)
    ensures ValidPath(RetargetBreak(t, b), p) <==> ValidPath(t, p)
    ensures ValidPath(t, p) ==>
      At(RetargetBreak(t, b), p).kind == At(t, p).kind ||
      (p == b && At(RetargetBreak(t, b), p).kind.GeneratorBreak?)
  {
    if |b| > 0 {
      match BreakOwner(t, b, |b|, [])
      case NoGeneratorLoop =>
      case GeneratorLoop(iteratorSlot, indexSlots) =>
        RelabelKinds(t, b, GeneratorBreak(iteratorSlot, indexSlots), p);
    }
  }

  lemma RetargetBreakCensus(t: Node, b: Path, f: Kind -> multiset<nat>)
    requires ValidPath(t, b) && IsBreakKind(At(t, b).kind)
    requires forall k :: IsBreakKind(k) ==> f(k) == multiset{}
    ensures Census(RetargetBreak(t, b), f) == Census(t, f)
  {
    if |b| > 0 {
      match BreakOwner(t, b, |b|, [])
      case NoGeneratorLoop =>
      case GeneratorLoop(iteratorSlot, indexSlots) =>
        var k := GeneratorBreak(iteratorSlot, indexSlots);
        CensusRelabel(t, b, k, f);
        assert f(k) == multiset{} && f(At(t, b).kind) == multiset{};
        assert Census(RetargetBreak(t, b), f) + multiset{} == Census(t, f) + multiset{};
        assert Census(RetargetBreak(t, b), f) + multiset{} == Census(RetargetBreak(t, b), f);
        assert Census(t, f) + multiset{} == Census(t, f);
    }
  }

  /** Retargeting keeps every path; a kind changes only from a break to a
      generator break. */
  lemma {:induction false} RetargetBreaksKinds(t: Node, bs: seq<Path>, p: Path)
    requires BreaksAt(t, bs)
    ensures ValidPath(RetargetBreaks(t, bs), p) <==> ValidPath(t, p)
    ensures ValidPath(t, p) ==>
      At(RetargetBreaks(t, bs), p).kind == At(t, p).kind ||
      (IsBreakKind(At(t, p).kind) && At(RetargetBreaks(t, bs), p).kind.GeneratorBreak?)
    decreases |bs|
  {
    if |bs| > 0 {
      var t1 := RetargetBreak(t, bs[0]);
      forall b | b in bs[1..]
        ensures ValidPath(t1, b) && IsBreakKind(At(t1, b).kind)
      {
        RetargetBreakKinds(t, bs[0], b);
      }
      RetargetBreakKinds(t, bs[0], p);
      RetargetBreaksKinds(t1, bs[1..], p);
    }
  }

  lemma {:induction false} RetargetBreaksCensus(t: Node, bs: seq<Path>, f: Kind -> multiset<nat>)
    requires BreaksAt(t, bs)
    requires forall k :: IsBreakKind(k) ==> f(k) == multiset{}
    ensures Census(RetargetBreaks(t, bs), f) == Census(t, f)
    decreases |bs|
  {
    if |bs| > 0 {
      var t1 := RetargetBreak(t, bs[0]);
      forall b | b in bs[1..]
        ensures ValidPath(t1, b) && IsBreakKind(At(t1, b).kind)
      {
        RetargetBreakKinds(t, bs[0], b);
      }
      RetargetBreakCensus(t, bs[0], f);
      RetargetBreaksCensus(t1, bs[1..], f);
    }
  }

  lemma FinishBreaks(t: Node)
    ensures BreaksAt(MapKinds(t, MarkEnclosing), FindAll(MapKinds(t, MarkEnclosing), IsBreakKind))
  {
    var marked := MapKinds(t, MarkEnclosing);
    forall b | b in FindAll(marked, IsBreakKind)
      ensures ValidPath(marked, b) && IsBreakKind(At(marked, b).kind)
    {
      FindAllSpec(marked, IsBreakKind, b);
    }
  }

  /** The last two phases keep every path and every yield, and leave done
      nodes done. */
  lemma FinishKinds(t: Node, p: Path)
    ensures ValidPath(Finish(t), p) <==> ValidPath(t, p)
    ensures ValidPath(t, p) ==> (IsYieldKind(At(Finish(t), p).kind) <==> IsYieldKind(At(t, p).kind))
    ensures ValidPath(t, p) && DoneKind(At(t, p).kind) ==> DoneKind(At(Finish(t), p).kind)
  {
    var marked := MapKinds(t, MarkEnclosing);
    FinishBreaks(t);
    MapKindsAt(t, MarkEnclosing, p);
    RetargetBreaksKinds(marked, FindAll(marked, IsBreakKind), p);
    if ValidPath(t, p) {
      var k := At(Finish(t), p).kind;
      if k.GeneratorBreak? || k.GeneratorExpression? {
        GeneratorVariantsRecognised(k);
      }
    }
  }

  lemma FinishCensus(t: Node, f: Kind -> multiset<nat>)
    requires forall k :: f(MarkEnclosing(k)) == f(k)
    requires forall k :: IsBreakKind(k) ==> f(k) == multiset{}
    ensures Census(Finish(t), f) == Census(t, f)
  {
    var marked := MapKinds(t, MarkEnclosing);
    FinishBreaks(t);
    CensusMap(t, MarkEnclosing, f);
    RetargetBreaksCensus(marked, FindAll(marked, IsBreakKind), f);
  }

  // ---------------------------------------------------------------------
  // The whole translation

  lemma TranslateParts(body: Node, r: Translation) returns (prepared: Node, w: Walk)
    requires Translate(body) == Ok(r)
    ensures Prepare(body) == Ok(prepared)
    ensures WalkYields(Walk(prepared, 0, 0), FindAll(prepared, IsYieldKind)) == Ok(w)
    ensures r == Translation(Finish(w.tree), w.numOfGeneratorBlockNode, w.numOfGeneratorForNode)
  {
    prepared := Prepare(body).value;
    w := WalkYields(Walk(prepared, 0, 0), FindAll(prepared, IsYieldKind)).value;
  }

  lemma InitialInv(t: Node)
    requires WellFormed(t)
    ensures Inv(t, FindAll(t, IsYieldKind))
  {
    forall p
      ensures p in FindAll(t, IsYieldKind) <==> ValidPath(t, p) && IsYieldKind(At(t, p).kind)
    {
      FindAllSpec(t, IsYieldKind, p);
    }
  }

  /** After a successful translation every node above a yield is a
      generator variant or an if, else, break target or while: each block
      and for-loop on the way to a yield has been rewritten. */
  lemma YieldsEnclosed(body: Node, r: Translation)
    requires WellFormed(body)
    requires Translate(body) == Ok(r)
    ensures forall p | ValidPath(r.body, p) && IsYieldKind(At(r.body, p).kind) :: AncestorsDone(r.body, p)
  {
    var prepared, w := TranslateParts(body, r);
    PrepareWellFormed(body, prepared);
    var ys := FindAll(prepared, IsYieldKind);
    InitialInv(prepared);
    WalkYieldsSpec(Walk(prepared, 0, 0), ys, ys, w);
    forall p | ValidPath(r.body, p) && IsYieldKind(At(r.body, p).kind)
      ensures AncestorsDone(r.body, p)
    {
      FinishKinds(w.tree, p);
      assert p in ys;
      forall j | 0 <= j < |p|
        ensures DoneKind(At(r.body, p[..j]).kind)
      {
        PrefixValid(w.tree, p, j);
        FinishKinds(w.tree, p[..j]);
      }
    }
  }

  /** The slots the whole walk hands out. */
  lemma WalkSlots(prepared: Node, w: Walk)
    requires WellFormed(prepared)
    requires WalkYields(Walk(prepared, 0, 0), FindAll(prepared, IsYieldKind)) == Ok(w)
    ensures BlockSlots(w.tree) == BlockSlots(prepared) + Range(0, w.numOfGeneratorBlockNode)
    ensures IteratorSlots(w.tree) == IteratorSlots(prepared) + Range(0, w.numOfGeneratorForNode)
  {
    var ys := FindAll(prepared, IsYieldKind);
    InitialInv(prepared);
    WalkYieldsSpec(Walk(prepared, 0, 0), ys, ys, w);
  }

  /** What the whole walk does to a node above a yield. */
  lemma WalkAt(prepared: Node, w: Walk, y: Path, j: nat)
    requires WellFormed(prepared)
    requires WalkYields(Walk(prepared, 0, 0), FindAll(prepared, IsYieldKind)) == Ok(w)
    requires ValidPath(prepared, y) && IsYieldKind(At(prepared, y).kind)
    requires j < |y|
    ensures ValidPath(w.tree, y[..j])
    ensures Upgrade(At(prepared, y[..j]).kind, At(w.tree, y[..j]).kind)
    ensures DoneKind(At(w.tree, y[..j]).kind)
  {
    var ys := FindAll(prepared, IsYieldKind);
    InitialInv(prepared);
    WalkYieldsSpec(Walk(prepared, 0, 0), ys, ys, w);
    assert OnYieldPath(y[..j], ys) by {
      assert IsPrefix(y[..j], y);
    }
  }

  lemma SlotsIgnoreRelabelling()
    ensures forall k :: BlockSlotOf(RedirectWrite(k)) == BlockSlotOf(k) && BlockSlotOf(RedirectRead(k)) == BlockSlotOf(k)
    ensures forall k :: IteratorSlotOf(RedirectWrite(k)) == IteratorSlotOf(k) && IteratorSlotOf(RedirectRead(k)) == IteratorSlotOf(k)
    ensures forall k :: BlockSlotOf(MarkEnclosing(k)) == BlockSlotOf(k) && IteratorSlotOf(MarkEnclosing(k)) == IteratorSlotOf(k)
    ensures forall k :: IsBreakKind(k) ==> BlockSlotOf(k) == multiset{} && IteratorSlotOf(k) == multiset{}
  {
    forall k
      ensures BlockSlotOf(RedirectWrite(k)) == BlockSlotOf(k) && BlockSlotOf(RedirectRead(k)) == BlockSlotOf(k)
      ensures IteratorSlotOf(RedirectWrite(k)) == IteratorSlotOf(k) && IteratorSlotOf(RedirectRead(k)) == IteratorSlotOf(k)
      ensures BlockSlotOf(MarkEnclosing(k)) == BlockSlotOf(k) && IteratorSlotOf(MarkEnclosing(k)) == IteratorSlotOf(k)
    {
      SlotsIgnoreRelabellingOf(k);
    }
  }

  lemma SlotsIgnoreRelabellingOf(k: Kind)
    ensures BlockSlotOf(RedirectWrite(k)) == BlockSlotOf(k) && BlockSlotOf(RedirectRead(k)) == BlockSlotOf(k)
    ensures IteratorSlotOf(RedirectWrite(k)) == IteratorSlotOf(k) && IteratorSlotOf(RedirectRead(k)) == IteratorSlotOf(k)
    ensures BlockSlotOf(MarkEnclosing(k)) == BlockSlotOf(k) && IteratorSlotOf(MarkEnclosing(k)) == IteratorSlotOf(k)
  {
    if k.WriteLocalVariable? {
      assert RedirectWrite(k) == WriteGeneratorFrameVariable(k.slot);
    } else if k.ReadLocalVariable? {
      assert RedirectRead(k) == ReadGeneratorFrameVariable(k.slot);
    } else if k.GeneratorExpression? {
      assert MarkEnclosing(k) == GeneratorExpression(true);
    }
  }

  /** The counters count the rewritten nodes: the result holds the slots of
      the input plus block slots 0 .. numOfGeneratorBlockNode - 1 and
      iterator slots 0 .. numOfGeneratorForNode - 1, each once. */
  lemma SlotsHandedOut(body: Node, r: Translation)
    requires WellFormed(body)
    requires Translate(body) == Ok(r)
    ensures BlockSlots(r.body) == BlockSlots(body) + Range(0, r.numOfGeneratorBlockNode)
    ensures IteratorSlots(r.body) == IteratorSlots(body) + Range(0, r.numOfGeneratorForNode)
  {
    var prepared, w := TranslateParts(body, r);
    PrepareWellFormed(body, prepared);
    PrepareSlots(body, prepared);
    WalkSlots(prepared, w);
    FinishSlots(w.tree);
  }

  lemma PrepareSlots(body: Node, prepared: Node)
    requires WellFormed(body)
    requires Prepare(body) == Ok(prepared)
    ensures BlockSlots(prepared) == BlockSlots(body) && IteratorSlots(prepared) == IteratorSlots(body)
  {
    SlotsIgnoreRelabelling();
    PrepareCensus(body, prepared, BlockSlotOf);
    PrepareCensus(body, prepared, IteratorSlotOf);
  }

  lemma FinishSlots(t: Node)
    ensures BlockSlots(Finish(t)) == BlockSlots(t) && IteratorSlots(Finish(t)) == IteratorSlots(t)
  {
    SlotsIgnoreRelabelling();
    FinishCensus(t, BlockSlotOf);
    FinishCensus(t, IteratorSlotOf);
  }

  /** For a body without generator nodes, the slots in the result are
      exactly 0 .. n - 1, pairwise distinct. */
  lemma FreshSlotsDistinct(body: Node, r: Translation)
    requires WellFormed(body)
    requires BlockSlots(body) == multiset{} && IteratorSlots(body) == multiset{}
    requires Translate(body) == Ok(r)
    ensures forall s: nat :: BlockSlots(r.body)[s] == (if s < r.numOfGeneratorBlockNode then 1 else 0)
    ensures forall s: nat :: IteratorSlots(r.body)[s] == (if s < r.numOfGeneratorForNode then 1 else 0)
  {
    SlotsHandedOut(body, r);
    forall s: nat
      ensures BlockSlots(r.body)[s] == (if s < r.numOfGeneratorBlockNode then 1 else 0)
      ensures IteratorSlots(r.body)[s] == (if s < r.numOfGeneratorForNode then 1 else 0)
    {
      assert BlockSlots(r.body) == multiset{} + Range(0, r.numOfGeneratorBlockNode);
      assert BlockSlots(r.body)[s] == Range(0, r.numOfGeneratorBlockNode)[s];
      assert IteratorSlots(r.body)[s] == Range(0, r.numOfGeneratorForNode)[s];
    }
  }

  /** A yield with any other kind of node above it (a continue target, a
      return target, an expression node, ...) makes the translation fail,
      and so does a plain yield above it that is the body itself or whose
      parent is not a block: the walk reaches that yield before any rule
      can have rewritten it. */
  lemma UncoveredAncestorFails(body: Node, prepared: Node, y: Path, j: nat)
    requires WellFormed(body)
    requires Prepare(body) == Ok(prepared)
    requires ValidPath(prepared, y) && IsYieldKind(At(prepared, y).kind)
    requires j < |y|
    requires UncoveredKind(At(prepared, y[..j]).kind) ||
      (At(prepared, y[..j]).kind == Yield && (j == 0 || !At(prepared, y[..j - 1]).kind.Block?))
    ensures Translate(body).Err?
  {
    if Translate(body).Ok? {
      var prepared', w := TranslateParts(body, Translate(body).value);
      PrepareWellFormed(body, prepared);
      WalkAt(prepared, w, y, j);
      if !UncoveredKind(At(prepared, y[..j]).kind) {
        StrandedYieldStays(prepared, w, y, j);
        PlainKindsNotRecognised(Yield);
      }
    }
  }

  /** The plain yield at y[..j] is still a plain yield after the walk. */
  lemma StrandedYieldStays(prepared: Node, w: Walk, y: Path, j: nat)
    requires WellFormed(prepared)
    requires WalkYields(Walk(prepared, 0, 0), FindAll(prepared, IsYieldKind)) == Ok(w)
    requires ValidPath(prepared, y) && IsYieldKind(At(prepared, y).kind)
    requires j < |y|
    requires At(prepared, y[..j]).kind == Yield && (j == 0 || !At(prepared, y[..j - 1]).kind.Block?)
    ensures At(w.tree, y[..j]).kind == Yield
  {
    var ys := FindAll(prepared, IsYieldKind);
    var a := y[..j];
    InitialInv(prepared);
    EvolvesRefl(prepared, ys);
    FindAllSpec(prepared, IsYieldKind, y);
    assert OnYieldPath(a, ys) by {
      assert IsPrefix(a, y);
    }
    assert j > 0 ==> a[..|a| - 1] == y[..j - 1];
    WalkYieldsKeepsStranded(Walk(prepared, 0, 0), ys, ys, w, prepared, a);
  }

  // ---------------------------------------------------------------------
  // Local variables

  /** Where a local access goes, in one step. */
  function Redirected(k: Kind): Kind {
    match k
    case WriteLocalVariable(slot) => WriteGeneratorFrameVariable(slot)
    case ReadLocalVariable(slot) => ReadGeneratorFrameVariable(slot)
    case _ => k
  }

  /** The three passes redirect every local access and touch nothing else. */
  lemma RedirectLocalsSpec(t: Node, p: Path)
    ensures ValidPath(RedirectLocals(t), p) <==> ValidPath(t, p)
    ensures ValidPath(t, p) ==> At(RedirectLocals(t), p).kind == Redirected(At(t, p).kind)
  {
    var written := MapKinds(t, RedirectWrite);
    var read := MapKinds(written, RedirectRead);
    MapKindsAt(t, RedirectWrite, p);
    MapKindsAt(written, RedirectRead, p);
    MapKindsAt(read, RedirectRead, p);
  }

  lemma {:induction false} MapKindsIdempotent(t: Node, f: Kind -> Kind)
    requires forall k :: f(f(k)) == f(k)
    ensures MapKinds(MapKinds(t, f), f) == MapKinds(t, f)
    decreases t
  {
    var m := MapKinds(t, f);
    forall i | 0 <= i < |t.children|
      ensures MapKinds(m.children[i], f) == m.children[i]
    {
      MapKindsIdempotent(t.children[i], f);
    }
    assert MapKinds(m, f).children == m.children;
  }

  /** The second read pass finds nothing left to do. */
  lemma SecondReadPassIdle(t: Node)
    ensures MapKinds(MapKinds(MapKinds(t, RedirectWrite), RedirectRead), RedirectRead) ==
            MapKinds(MapKinds(t, RedirectWrite), RedirectRead)
  {
    MapKindsIdempotent(MapKinds(t, RedirectWrite), RedirectRead);
  }

  /** The assertion that no local read is left never fails: preparation
      succeeds exactly when there is one return target and its body splits. */
  lemma PrepareOutcome(body: Node)
    ensures Prepare(body).Ok? <==>
      |FindAll(body, IsReturnTargetKind)| == 1 &&
      SplitArgumentLoads(At(body, FindAll(body, IsReturnTargetKind)[0])).Ok?
    ensures Prepare(body) != Err(LocalReadRemains)
  {
    var rts := FindAll(body, IsReturnTargetKind);
    if |rts| == 1 && SplitArgumentLoads(At(body, rts[0])).Ok? {
      var g := SplitArgumentLoads(At(body, rts[0])).value;
      var redirected := RedirectLocals(ReplaceAt(body, rts[0], g));
      var leftover := FindAll(redirected, IsLocalReadKind);
      if |leftover| > 0 {
        FindAllSpec(redirected, IsLocalReadKind, leftover[0]);
        RedirectLocalsSpec(ReplaceAt(body, rts[0], g), leftover[0]);
      }
    }
  }

  /** The tree the walk starts from holds no local access. */
  lemma PreparedHasNoLocals(body: Node, prepared: Node, p: Path)
    requires Prepare(body) == Ok(prepared)
    requires ValidPath(prepared, p)
    ensures !At(prepared, p).kind.ReadLocalVariable? && !At(prepared, p).kind.WriteLocalVariable?
  {
    var rt, g := PrepareParts(body, prepared);
    RedirectLocalsSpec(ReplaceAt(body, rt, g), p);
  }

  // ---------------------------------------------------------------------
  // Splitting the argument loads

  /** Put a generator return target back together as a return target. */
  function Unsplit(g: Node): Node {
    if ArgumentLoads(g) == Leaf(Empty) then Node(ReturnTarget, [ResumableBody(g), ReturnOf(g)])
    else Node(ReturnTarget, [Node(Block, [ArgumentLoads(g), ResumableBody(g)]), ReturnOf(g)])
  }

  /** Splitting loses nothing, unless the argument loads were already an
      empty node (which a split of a non-block body also produces). */
  lemma SplitThenUnsplit(rt: Node)
    requires rt.kind.ReturnTarget? && |rt.children| == 2
    requires SplitArgumentLoads(rt).Ok?
    requires rt.children[0].kind.Block? ==> rt.children[0].children[0] != Leaf(Empty)
    ensures Unsplit(SplitArgumentLoads(rt).value) == rt
  {
    assert rt.children == [rt.children[0], rt.children[1]];
    var body := rt.children[0];
    if body.kind.Block? {
      assert body.children == [body.children[0], body.children[1]];
    }
  }

  lemma UnsplitThenSplit(g: Node)
    requires g.kind.GeneratorReturnTarget? && |g.children| == 3
    requires ArgumentLoads(g) == Leaf(Empty) ==> !ResumableBody(g).kind.Block?
    ensures SplitArgumentLoads(Unsplit(g)) == Ok(g)
  {
    assert g.children == [g.children[0], g.children[1], g.children[2]];
  }

  // ---------------------------------------------------------------------
  // Where a break goes

  /** Kinds a break's search for its loop passes through. */
  predicate Transparent(k: Kind) {
    k.GeneratorBlock? || k.ContinueTarget? || k.If?
  }

  function BlockSlotSeq(k: Kind): seq<nat> {
    if k.GeneratorBlock? then [k.indexSlot] else []
  }

  /** The index slots of the generator blocks at b[..j] for hi > j >= lo,
      innermost first. */
  function SlotsBetween(t: Node, b: Path, lo: nat, hi: nat): seq<nat>
    requires lo <= hi <= |b|
    decreases hi - lo
  {
    if lo == hi then [] else SlotsBetween(t, b, lo + 1, hi) + BlockSlotSeq(At(t, b[..lo]).kind)
  }

  lemma {:induction false} SlotsBetweenTop(t: Node, b: Path, lo: nat, hi: nat)
    requires lo < hi <= |b|
    ensures SlotsBetween(t, b, lo, hi) == BlockSlotSeq(At(t, b[..hi - 1]).kind) + SlotsBetween(t, b, lo, hi - 1)
    decreases hi - lo
  {
    if lo + 1 < hi {
      SlotsBetweenTop(t, b, lo + 1, hi);
    }
  }

  /** The ancestor b[..m] (m < k) is a generator for-node and everything
      between it and b[..k-1] is transparent. */
  predicate OwnedBelow(t: Node, b: Path, m: nat, k: nat)
    requires k <= |b|
  {
    m < k && IsGeneratorForKind(At(t, b[..m]).kind) &&
    forall j | m < j < k :: Transparent(At(t, b[..j]).kind)
  }

  lemma {:induction false} BreakOwnerFrom(t: Node, b: Path, k: nat, acc: seq<nat>)
    requires k <= |b|
    ensures BreakOwner(t, b, k, acc).GeneratorLoop? <==> exists m: nat :: OwnedBelow(t, b, m, k)
    ensures forall m: nat | OwnedBelow(t, b, m, k) ::
      BreakOwner(t, b, k, acc) == GeneratorLoop(At(t, b[..m]).kind.iteratorSlot, acc + SlotsBetween(t, b, m + 1, k))
    decreases k
  {
    if k > 0 {
      var a := At(t, b[..k - 1]).kind;
      var acc' := acc + BlockSlotSeq(a);
      if Transparent(a) {
        BreakOwnerFrom(t, b, k - 1, acc');
        assert acc + [] == acc;
        assert BreakOwner(t, b, k, acc) == BreakOwner(t, b, k - 1, acc');
        forall m: nat | OwnedBelow(t, b, m, k)
          ensures OwnedBelow(t, b, m, k - 1)
          ensures BreakOwner(t, b, k, acc) ==
            GeneratorLoop(At(t, b[..m]).kind.iteratorSlot, acc + SlotsBetween(t, b, m + 1, k))
        {
          SlotsBetweenTop(t, b, m + 1, k);
        }
        forall m: nat | OwnedBelow(t, b, m, k - 1)
          ensures OwnedBelow(t, b, m, k)
        {
        }
      } else if IsGeneratorForKind(a) {
        assert OwnedBelow(t, b, k - 1, k);
        forall m: nat | OwnedBelow(t, b, m, k)
          ensures m == k - 1
        {
        }
      } else {
        forall m: nat | OwnedBelow(t, b, m, k)
          ensures false
        {
        }
      }
    }
  }

  /** A break is retargeted exactly when a generator for-node encloses it
      with only generator blocks, continue targets and ifs in between; it
      then exits that loop and leaves those blocks, innermost first. */
  lemma BreakOwnerSpec(t: Node, b: Path)
    ensures BreakOwner(t, b, |b|, []).GeneratorLoop? <==> exists m: nat :: OwnedBelow(t, b, m, |b|)
    ensures forall m: nat | OwnedBelow(t, b, m, |b|) ::
      BreakOwner(t, b, |b|, []) == GeneratorLoop(At(t, b[..m]).kind.iteratorSlot, SlotsBetween(t, b, m + 1, |b|))
  {
    BreakOwnerFrom(t, b, |b|, []);
  }

  // ---------------------------------------------------------------------
  // A plain yield above a yield

  /** The yield at a was a yield whose parent in t0 was no block, so no
      block rule can have been applied at its parent. */
  ghost predicate StrandedYield(t0: Node, t: Node, a: Path) {
    At(t, a).kind == Yield && (|a| == 0 || !At(t0, a[..|a| - 1]).kind.Block?)
  }

  /** One visit of an ancestor leaves a stranded yield a plain yield. */
  lemma ControlsKeepsStranded(w: Walk, q: Path, y: Path, depth: nat, ys: seq<Path>, w': Walk, t0: Node, a: Path)
    requires Inv(w.tree, ys) && Evolves(t0, w.tree, ys)
    requires y in ys && IsPrefix(q, y) && |q| < |y|
    requires ReplaceControls(w, q, y, depth) == Ok(w')
    requires OnYieldPath(a, ys) && StrandedYield(t0, w.tree, a)
    ensures StrandedYield(t0, w'.tree, a)
  {
    var k := At(w.tree, q).kind;
    if k.ForWithLocalTarget? {
      ForKeepsOthers(w, q, y, depth, ys, w');
    } else if k.Block? {
      DispatchBlock(w, q, y, depth);
      OnYieldPathValid(w.tree, ys, a);
      assert OnYieldPath(q, ys);
      assert Upgrade(At(t0, q).kind, k);
      BlockKeepsStranded(w, q, y, t0, a);
    } else {
      assert w' == w;
    }
  }

  /** The for-loop rule changes no kind on a yield's path except at the loop. */
  lemma ForKeepsOthers(w: Walk, q: Path, y: Path, depth: nat, ys: seq<Path>, w': Walk)
    requires Inv(w.tree, ys)
    requires y in ys && IsPrefix(q, y) && |q| < |y|
    requires At(w.tree, q).kind.ForWithLocalTarget?
    requires ReplaceControls(w, q, y, depth) == Ok(w')
    ensures forall p | OnYieldPath(p, ys) && p != q :: At(w'.tree, p).kind == At(w.tree, p).kind
  {
    var node := At(w.tree, q);
    PrefixValid(w.tree, y, |q|);
    assert y[..|q|] == q;
    WellFormedAt(w.tree, q);
    DispatchFor(w, q, y, depth);
    ForRuleResult(w, q, depth, w');
    assert WellFormed(node.children[0]);
    var n := ForNodeOf(node, ForKindAt(depth, w.numOfGeneratorForNode));
    assert ForReplacement(node, n);
    ForReplaceKeeps(w.tree, q, n, ys);
  }

  /** The block rule rewrites a yield only under that block, and a stranded
      yield's parent was never a block. */
  lemma BlockKeepsStranded(w: Walk, q: Path, y: Path, t0: Node, a: Path)
    requires ValidPath(w.tree, y) && IsPrefix(q, y) && |q| < |y|
    requires ValidPath(w.tree, a) && StrandedYield(t0, w.tree, a)
    requires At(w.tree, q).kind.Block? && At(t0, q).kind.Block?
    ensures StrandedYield(t0, BlockRule(w, q, y).tree, a)
  {
    BlockRuleEffect(w, q, y);
    assert !(a == y && y[..|y| - 1] == q);
  }

  /** One visit keeps the invariant and extends the evolution from t0. */
  lemma ControlsEvolves(w: Walk, q: Path, y: Path, depth: nat, ys: seq<Path>, w': Walk, t0: Node)
    requires Inv(w.tree, ys) && Evolves(t0, w.tree, ys)
    requires y in ys && IsPrefix(q, y) && |q| < |y|
    requires ReplaceControls(w, q, y, depth) == Ok(w')
    ensures Inv(w'.tree, ys) && Evolves(t0, w'.tree, ys)
  {
    ControlsStep(w, q, y, depth, ys, w');
    EvolvesTrans(t0, w.tree, w'.tree, ys);
  }

  lemma {:induction false} WalkUpKeepsStranded(w: Walk, y: Path, k: nat, ys: seq<Path>, w': Walk, t0: Node, a: Path)
    requires Inv(w.tree, ys) && Evolves(t0, w.tree, ys)
    requires y in ys && k <= |y|
    requires WalkUp(w, y, k) == Ok(w')
    requires OnYieldPath(a, ys) && StrandedYield(t0, w.tree, a)
    ensures StrandedYield(t0, w'.tree, a)
    decreases k
  {
    if k > 0 {
      var q := y[..k - 1];
      assert IsPrefix(q, y);
      var w1 := ReplaceControls(w, q, y, |y| - k).value;
      ControlsKeepsStranded(w, q, y, |y| - k, ys, w1, t0, a);
      ControlsEvolves(w, q, y, |y| - k, ys, w1, t0);
      WalkUpKeepsStranded(w1, y, k - 1, ys, w', t0, a);
    }
  }

  lemma {:induction false} WalkYieldsKeepsStranded(w: Walk, rest: seq<Path>, ys: seq<Path>, w': Walk, t0: Node, a: Path)
    requires Inv(w.tree, ys) && Evolves(t0, w.tree, ys)
    requires forall y | y in rest :: y in ys
    requires WalkYields(w, rest) == Ok(w')
    requires OnYieldPath(a, ys) && StrandedYield(t0, w.tree, a)
    ensures StrandedYield(t0, w'.tree, a)
    decreases |rest|
  {
    if |rest| > 0 {
      var y := rest[0];
      var w1 := WalkUp(w, y, |y|).value;
      WalkUpSpec(w, y, |y|, ys, w1);
      WalkUpKeepsStranded(w, y, |y|, ys, w1, t0, a);
      EvolvesTrans(t0, w.tree, w1.tree, ys);
      WalkYieldsKeepsStranded(w1, rest[1..], ys, w', t0, a);
    }
  }

  // ---------------------------------------------------------------------
  // Breaks in the finished tree

  /** Two kinds BreakOwner cannot tell apart: equal, both generator
      expressions, or both breaks (neither kind is climbed through). */
  predicate SameForBreaks(a: Kind, c: Kind) {
    a == c || (a.GeneratorExpression? && c.GeneratorExpression?) || (IsBreakKind(a) && IsBreakKind(c))
  }

  lemma {:induction false} BreakOwnerAgrees(t1: Node, t2: Node, b: Path, k: nat, acc: seq<nat>)
    requires k <= |b|
    requires forall j | 0 <= j < k :: SameForBreaks(At(t1, b[..j]).kind, At(t2, b[..j]).kind)
    ensures BreakOwner(t1, b, k, acc) == BreakOwner(t2, b, k, acc)
    decreases k
  {
    if k > 0 {
      var a := At(t1, b[..k - 1]).kind;
      BreakOwnerAgrees(t1, t2, b, k - 1, if a.GeneratorBlock? then acc + [a.indexSlot] else acc);
    }
  }

  /** The kind a break at b takes once its owner in t is known. */
  function ExitKind(t: Node, b: Path, k: Kind): Kind {
    match BreakOwner(t, b, |b|, [])
    case NoGeneratorLoop => k
    case GeneratorLoop(iteratorSlot, indexSlots) => GeneratorBreak(iteratorSlot, indexSlots)
  }

  lemma RetargetBreakAt(t: Node, b: Path, p: Path)
    requires ValidPath(t, b) && IsBreakKind(At(t, b).kind)
    requires ValidPath(t, p)
    ensures At(RetargetBreak(t, b), p).kind == if p == b then ExitKind(t, b, At(t, b).kind) else At(t, p).kind
  {
    if |b| > 0 {
      match BreakOwner(t, b, |b|, [])
      case NoGeneratorLoop =>
      case GeneratorLoop(iteratorSlot, indexSlots) =>
        RelabelKinds(t, b, GeneratorBreak(iteratorSlot, indexSlots), p);
    }
  }

  /** Relabelling one break does not change the owner of any break. */
  lemma RetargetBreakOwner(t: Node, b: Path, p: Path)
    requires ValidPath(t, b) && IsBreakKind(At(t, b).kind)
    requires ValidPath(t, p)
    ensures BreakOwner(RetargetBreak(t, b), p, |p|, []) == BreakOwner(t, p, |p|, [])
  {
    forall j | 0 <= j < |p|
      ensures SameForBreaks(At(RetargetBreak(t, b), p[..j]).kind, At(t, p[..j]).kind)
    {
      PrefixValid(t, p, j);
      RetargetBreakKinds(t, b, p[..j]);
    }
    BreakOwnerAgrees(RetargetBreak(t, b), t, p, |p|, []);
  }

  /** Retargeting a list of breaks one by one gives each listed break the
      exit its owner in the original tree determines, whatever the order. */
  lemma {:induction false} RetargetBreaksAt(t: Node, bs: seq<Path>, p: Path)
    requires BreaksAt(t, bs)
    requires ValidPath(t, p)
    ensures At(RetargetBreaks(t, bs), p).kind == if p in bs then ExitKind(t, p, At(t, p).kind) else At(t, p).kind
    decreases |bs|
  {
    if |bs| > 0 {
      var t1 := RetargetBreak(t, bs[0]);
      forall b | b in bs[1..]
        ensures ValidPath(t1, b) && IsBreakKind(At(t1, b).kind)
      {
        RetargetBreakKinds(t, bs[0], b);
      }
      RetargetBreakKinds(t, bs[0], p);
      RetargetBreakAt(t, bs[0], p);
      RetargetBreakOwner(t, bs[0], p);
      RetargetBreaksAt(t1, bs[1..], p);
      assert p in bs <==> p == bs[0] || p in bs[1..];
    }
  }

  /** The finished tree: every generator expression is marked as enclosed by
      the generator frame, a break owned by a generator for-node (with only
      generator blocks, continue targets and ifs in between) exits that loop
      through the blocks it leaves, innermost first, and every other node
      keeps its kind. */
  lemma FinishSpec(t: Node, p: Path)
    requires ValidPath(t, p)
    ensures ValidPath(Finish(t), p)
    ensures At(t, p).kind.GeneratorExpression? ==> At(Finish(t), p).kind == GeneratorExpression(true)
    ensures !IsBreakKind(At(t, p).kind) && !At(t, p).kind.GeneratorExpression? ==>
      At(Finish(t), p).kind == At(t, p).kind
    ensures IsBreakKind(At(t, p).kind) ==> forall m: nat | OwnedBelow(t, p, m, |p|) ::
      At(Finish(t), p).kind == GeneratorBreak(At(t, p[..m]).kind.iteratorSlot, SlotsBetween(t, p, m + 1, |p|))
    ensures IsBreakKind(At(t, p).kind) && (forall m: nat :: !OwnedBelow(t, p, m, |p|)) ==>
      At(Finish(t), p).kind == At(t, p).kind
  {
    var marked := MapKinds(t, MarkEnclosing);
    var bs := FindAll(marked, IsBreakKind);
    FinishBreaks(t);
    FinishKinds(t, p);
    MapKindsAt(t, MarkEnclosing, p);
    FindAllSpec(marked, IsBreakKind, p);
    RetargetBreaksAt(marked, bs, p);
    forall j | 0 <= j < |p|
      ensures SameForBreaks(At(marked, p[..j]).kind, At(t, p[..j]).kind)
    {
      PrefixValid(t, p, j);
      MapKindsAt(t, MarkEnclosing, p[..j]);
    }
    BreakOwnerAgrees(marked, t, p, |p|, []);
    BreakOwnerSpec(t, p);
  }
}
