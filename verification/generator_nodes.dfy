/**
 * The node tree that the generator translator rewrites.
 *
 * A Truffle node is modelled as a kind tag plus an ordered sequence of owned
 * children. Parent links are not stored: a node is addressed by its path from
 * the function body (the single child of the function's root node), and
 * "replace this node" is a functional update at that path.
 */
module GeneratorNodes {

  /** The node classes the translator distinguishes. Generator variants
      record the fields their constructors receive in the translator. */
  datatype Kind =
    | ReturnTarget                                  // [body, return]
    | GeneratorReturnTarget                         // [argumentLoads, body, return]
    | Block                                         // statements
    | GeneratorBlock(indexSlot: nat)                // statements
    | ForWithLocalTarget                            // [target, iterator, body]
    | GeneratorFor(iteratorSlot: nat)               // [target, iterator, body]
    | InnerGeneratorFor(iteratorSlot: nat)          // [target, iterator, body]
    | AdvanceIterator                               // [target]
    | GetIterator                                   // [iterable]
    | If
    | Else
    | While
    | BreakTarget
    | ContinueTarget
    | Break
    | GeneratorBreak(iteratorSlot: nat, indexSlots: seq<nat>)
    | Yield                                         // [rhs]
    | GeneratorYield(indexSlot: nat)                // [rhs]
    | WriteLocalVariable(slot: nat)                 // [rhs]
    | WriteGeneratorFrameVariable(slot: nat)        // [rhs]
    | ReadLocalVariable(slot: nat)
    | ReadGeneratorFrameVariable(slot: nat)
    | GeneratorExpression(enclosingFrameGenerator: bool)
    | Empty
    | Other(className: string)                      // any other node class, by simple name

  datatype Node = Node(kind: Kind, children: seq<Node>)

  /** Child indices leading from the function body down to a node. */
  type Path = seq<nat>

  function Leaf(k: Kind): Node {
    Node(k, [])
  }

  /** The word the translator looks for in a class name. */
  const Gen: string := "Generator"

  /** The simple Java class name of a node of this kind. */
  function ClassName(k: Kind): string {
    match k
    case ReturnTarget => "ReturnTargetNode"
    case GeneratorReturnTarget => Gen + "ReturnTargetNode"
    case Block => "BlockNode"
    case GeneratorBlock(_) => Gen + "BlockNode"
    case ForWithLocalTarget => "ForWithLocalTargetNode"
    case GeneratorFor(_) => Gen + "ForNode"
    case InnerGeneratorFor(_) => "Inner" + Gen + "ForNode"
    case AdvanceIterator => "AdvanceIteratorNode"
    case GetIterator => "GetIteratorNode"
    case If => "IfNode"
    case Else => "ElseNode"
    case While => "WhileNode"
    case BreakTarget => "BreakTargetNode"
    case ContinueTarget => "ContinueTargetNode"
    case Break => "BreakNode"
    case GeneratorBreak(_, _) => Gen + "BreakNode"
    case Yield => "YieldNode"
    case GeneratorYield(_) => Gen + "YieldNode"
    case WriteLocalVariable(_) => "WriteLocalVariableNode"
    case WriteGeneratorFrameVariable(_) => "Write" + Gen + "FrameVariableNode"
    case ReadLocalVariable(_) => "ReadLocalVariableNode"
    case ReadGeneratorFrameVariable(_) => "Read" + Gen + "FrameVariableNode"
    case GeneratorExpression(_) => Gen + "ExpressionNode"
    case Empty => "EmptyNode"
    case Other(name) => name
  }

  /** Java's String.contains. */
  predicate Contains(s: string, pat: string)
    decreases |s|
  {
    |pat| <= |s| && (s[..|pat|] == pat || Contains(s[1..], pat))
  }

  /** The translator's "has it been replaced already?" test: the class name
      mentions "Generator". */
  predicate IsGeneratorVariant(k: Kind) {
    Contains(ClassName(k), Gen)
  }

  /** instanceof YieldNode (GeneratorYieldNode is nested in, and taken to extend, YieldNode). */
  predicate IsYieldKind(k: Kind) {
    k.Yield? || k.GeneratorYield?
  }

  /** instanceof GeneratorForNode (InnerGeneratorForNode is nested in, and taken to extend, it). */
  predicate IsGeneratorForKind(k: Kind) {
    k.GeneratorFor? || k.InnerGeneratorFor?
  }

  lemma {:induction false} NotContainsWithoutHead(s: string, pat: string)
    requires |pat| > 0 && pat[0] !in s
    ensures !Contains(s, pat)
    decreases |s|
  {
    if |pat| <= |s| {
      assert s[..|pat|][0] == s[0];
      NotContainsWithoutHead(s[1..], pat);
    }
  }

  lemma {:induction false} ContainsAt(s: string, pat: string, i: nat)
    requires i + |pat| <= |s| && s[i..i + |pat|] == pat
    ensures Contains(s, pat)
    decreases i
  {
    if i > 0 {
      assert s[1..][i - 1..i - 1 + |pat|] == s[i..i + |pat|];
      ContainsAt(s[1..], pat, i - 1);
    }
  }

  lemma ContainsInfix(a: string, b: string)
    ensures Contains(a + Gen + b, Gen)
  {
    var s := a + Gen + b;
    assert s[|a|..|a| + |Gen|] == Gen;
    ContainsAt(s, Gen, |a|);
  }

  /** The classes the translator creates (and the frame accesses and
      generator expressions) count as already replaced. */
  lemma GeneratorVariantsRecognised(k: Kind)
    requires k.GeneratorReturnTarget? || k.GeneratorBlock? || k.GeneratorFor? || k.InnerGeneratorFor? ||
             k.GeneratorBreak? || k.GeneratorYield? || k.WriteGeneratorFrameVariable? ||
             k.ReadGeneratorFrameVariable? || k.GeneratorExpression?
    ensures IsGeneratorVariant(k)
  {
    match k
    case GeneratorReturnTarget => ContainsInfix("", "ReturnTargetNode");
    case GeneratorBlock(_) => ContainsInfix("", "BlockNode");
    case GeneratorFor(_) => ContainsInfix("", "ForNode");
    case InnerGeneratorFor(_) => ContainsInfix("Inner", "ForNode");
    case GeneratorBreak(_, _) => ContainsInfix("", "BreakNode");
    case GeneratorYield(_) => ContainsInfix("", "YieldNode");
    case WriteGeneratorFrameVariable(_) => ContainsInfix("Write", "FrameVariableNode");
    case ReadGeneratorFrameVariable(_) => ContainsInfix("Read", "FrameVariableNode");
    case GeneratorExpression(_) => ContainsInfix("", "ExpressionNode");
  }

  /** Every other fixed node class is not a generator variant. */
  lemma PlainKindsNotRecognised(k: Kind)
    requires !k.Other?
    requires !(k.GeneratorReturnTarget? || k.GeneratorBlock? || k.GeneratorFor? || k.InnerGeneratorFor? ||
               k.GeneratorBreak? || k.GeneratorYield? || k.WriteGeneratorFrameVariable? ||
               k.ReadGeneratorFrameVariable? || k.GeneratorExpression?)
    ensures !IsGeneratorVariant(k)
  {
    if k.GetIterator? || k.ReturnTarget? || k.Block? || k.ForWithLocalTarget? || k.AdvanceIterator? ||
       k.WriteLocalVariable? || k.ReadLocalVariable? || k.Empty? {
      PlainStructureKinds(k);
    } else {
      PlainControlKinds(k);
    }
  }

  lemma NotGeneratorName(k: Kind, name: string)
    requires ClassName(k) == name && 'G' !in name
    ensures !IsGeneratorVariant(k)
  {
    NotContainsWithoutHead(name, Gen);
  }

  /** A name whose only 'G' is its first letter, not followed by "ene". */
  lemma NotGeneratorNameAfterHead(k: Kind, name: string)
    requires ClassName(k) == name && |name| > 3 && name[3] != 'e' && 'G' !in name[1..]
    ensures !IsGeneratorVariant(k)
  {
    if |Gen| <= |name| {
      assert name[..|Gen|][3] == name[3];
    }
    NotContainsWithoutHead(name[1..], Gen);
  }

  lemma PlainStructureKinds(k: Kind)
    requires k.GetIterator? || k.ReturnTarget? || k.Block? || k.ForWithLocalTarget? || k.AdvanceIterator? ||
             k.WriteLocalVariable? || k.ReadLocalVariable? || k.Empty?
    ensures !IsGeneratorVariant(k)
  {
    match k
    case GetIterator => NotGeneratorNameAfterHead(k, "GetIteratorNode");
    case ReturnTarget => NotGeneratorName(k, "ReturnTargetNode");
    case Block => NotGeneratorName(k, "BlockNode");
    case ForWithLocalTarget => NotGeneratorName(k, "ForWithLocalTargetNode");
    case AdvanceIterator => NotGeneratorName(k, "AdvanceIteratorNode");
    case WriteLocalVariable(_) => NotGeneratorName(k, "WriteLocalVariableNode");
    case ReadLocalVariable(_) => NotGeneratorName(k, "ReadLocalVariableNode");
    case Empty => NotGeneratorName(k, "EmptyNode");
  }

  lemma PlainControlKinds(k: Kind)
    requires k.If? || k.Else? || k.While? || k.BreakTarget? || k.ContinueTarget? || k.Break? || k.Yield?
    ensures !IsGeneratorVariant(k)
  {
    match k
    case If => NotGeneratorName(k, "IfNode");
    case Else => NotGeneratorName(k, "ElseNode");
    case While => NotGeneratorName(k, "WhileNode");
    case BreakTarget => NotGeneratorName(k, "BreakTargetNode");
    case ContinueTarget => NotGeneratorName(k, "ContinueTargetNode");
    case Break => NotGeneratorName(k, "BreakNode");
    case Yield => NotGeneratorName(k, "YieldNode");
  }

  // ---------------------------------------------------------------------
  // Paths

  predicate ValidPath(t: Node, p: Path)
    decreases p
  {
    |p| == 0 || (p[0] < |t.children| && ValidPath(t.children[p[0]], p[1..]))
  }

  /** The node at a path; an invalid path yields an empty leaf. */
  function At(t: Node, p: Path): Node
    decreases p
  {
    if |p| == 0 then t
    else if p[0] < |t.children| then At(t.children[p[0]], p[1..])
    else Leaf(Empty)
  }

  /** The i-th child, or an empty leaf when there is none. */
  function Child(t: Node, i: nat): Node {
    if i < |t.children| then t.children[i] else Leaf(Empty)
  }

  /** Node.replace: substitute n for the node at p (no change for an invalid path). */
  function ReplaceAt(t: Node, p: Path, n: Node): Node
    decreases p
  {
    if |p| == 0 then n
    else if p[0] < |t.children| then
      Node(t.kind, t.children[p[0] := ReplaceAt(t.children[p[0]], p[1..], n)])
    else t
  }

  /** Replace the node at p by one of kind k that adopts the same children. */
  function Relabel(t: Node, p: Path, k: Kind): Node {
    ReplaceAt(t, p, Node(k, At(t, p).children))
  }

  predicate IsPrefix(a: Path, b: Path) {
    |a| <= |b| && b[..|a|] == a
  }

  lemma PrefixCons(q: Path, r: Path)
    requires |q| > 0 && |r| > 0 && q[0] == r[0]
    ensures IsPrefix(q, r) <==> IsPrefix(q[1..], r[1..])
  {
    if IsPrefix(q[1..], r[1..]) {
      assert r[..|q|] == [r[0]] + r[1..][..|q| - 1];
      assert q == [q[0]] + q[1..];
    }
  }

  lemma {:induction false} AtAppend(t: Node, a: Path, b: Path)
    requires ValidPath(t, a)
    ensures ValidPath(t, a + b) <==> ValidPath(At(t, a), b)
    ensures At(t, a + b) == At(At(t, a), b)
    decreases a
  {
    if |a| > 0 {
      assert (a + b)[0] == a[0];
      assert (a + b)[1..] == a[1..] + b;
      AtAppend(t.children[a[0]], a[1..], b);
    } else {
      assert a + b == b;
    }
  }

  lemma {:induction false} PrefixValid(t: Node, p: Path, k: nat)
    requires ValidPath(t, p)
    requires k <= |p|
    ensures ValidPath(t, p[..k])
    decreases p
  {
    if k > 0 {
      assert p[..k][0] == p[0];
      assert p[..k][1..] == p[1..][..k - 1];
      PrefixValid(t.children[p[0]], p[1..], k - 1);
    }
  }

  /** Replacing at q leaves the kind at every valid path outside q's subtree
      unchanged, and the path stays valid. */
  lemma {:induction false} ReplaceAtOutside(t: Node, q: Path, n: Node, r: Path)
    requires ValidPath(t, q)
    requires ValidPath(t, r)
    requires !IsPrefix(q, r)
    ensures ValidPath(ReplaceAt(t, q, n), r)
    ensures At(ReplaceAt(t, q, n), r).kind == At(t, r).kind
    decreases q
  {
    if |r| > 0 && |q| > 0 && q[0] == r[0] {
      PrefixCons(q, r);
      ReplaceAtOutside(t.children[q[0]], q[1..], n, r[1..]);
    }
  }

  /** Below the replacement point, the new tree is the replacement node. */
  lemma {:induction false} ReplaceAtInside(t: Node, q: Path, n: Node, r: Path)
    requires ValidPath(t, q)
    requires IsPrefix(q, r)
    ensures ValidPath(ReplaceAt(t, q, n), r) <==> ValidPath(n, r[|q|..])
    ensures At(ReplaceAt(t, q, n), r) == At(n, r[|q|..])
    decreases q
  {
    if |q| > 0 {
      assert r[0] == q[0];
      assert r[1..][..|q| - 1] == q[1..];
      assert r[1..][|q| - 1..] == r[|q|..];
      ReplaceAtInside(t.children[q[0]], q[1..], n, r[1..]);
    } else {
      assert r[0..] == r;
    }
  }

  lemma ReplaceAtValid(t: Node, q: Path, n: Node)
    requires ValidPath(t, q)
    ensures ValidPath(ReplaceAt(t, q, n), q)
    ensures At(ReplaceAt(t, q, n), q) == n
  {
    ReplaceAtInside(t, q, n, q);
    assert q[|q|..] == [];
  }

  /** Relabelling changes the kind at exactly one path and no path's validity. */
  lemma RelabelKinds(t: Node, q: Path, k: Kind, r: Path)
    requires ValidPath(t, q)
    ensures ValidPath(Relabel(t, q, k), r) <==> ValidPath(t, r)
    ensures ValidPath(t, r) ==>
      At(Relabel(t, q, k), r).kind == (if r == q then k else At(t, r).kind)
  {
    var n := Node(k, At(t, q).children);
    if IsPrefix(q, r) {
      ReplaceAtInside(t, q, n, r);
      var rest := r[|q|..];
      assert r == q + rest;
      AtAppend(t, q, rest);
      if |rest| > 0 {
        assert At(n, rest) == At(At(t, q), rest);
        assert ValidPath(n, rest) <==> ValidPath(At(t, q), rest);
      } else {
        assert r == q;
      }
    } else if ValidPath(t, r) {
      ReplaceAtOutside(t, q, n, r);
    } else if ValidPath(Relabel(t, q, k), r) {
      RelabelKeepsInvalid(t, q, k, r);
    }
  }

  lemma {:induction false} RelabelKeepsInvalid(t: Node, q: Path, k: Kind, r: Path)
    requires ValidPath(t, q)
    requires !ValidPath(t, r)
    ensures !ValidPath(Relabel(t, q, k), r)
    decreases q
  {
    if |q| > 0 && |r| > 0 && r[0] == q[0] {
      var c := t.children[q[0]];
      RelabelKeepsInvalid(c, q[1..], k, r[1..]);
      assert At(t, q) == At(c, q[1..]);
      assert Relabel(t, q, k).children[q[0]] == Relabel(c, q[1..], k);
    } else if |q| == 0 && |r| > 0 {
      assert Relabel(t, q, k).children == t.children;
    }
  }

  // ---------------------------------------------------------------------
  // NodeUtil.findAllNodeInstances, in pre-order

  function Prefixed(i: nat, ps: seq<Path>): (r: seq<Path>)
    ensures |r| == |ps|
    ensures forall j :: 0 <= j < |ps| ==> r[j] == [i] + ps[j]
  {
    seq(|ps|, j requires 0 <= j < |ps| => [i] + ps[j])
  }

  function FindAll(t: Node, P: Kind -> bool): seq<Path>
    decreases t, 1
  {
    (if P(t.kind) then [[]] else []) + FindAllFrom(t, 0, P)
  }

  function FindAllFrom(t: Node, i: nat, P: Kind -> bool): seq<Path>
    requires i <= |t.children|
    decreases t, 0, |t.children| - i
  {
    if i == |t.children| then []
    else Prefixed(i, FindAll(t.children[i], P)) + FindAllFrom(t, i + 1, P)
  }

  lemma {:induction false} FindAllSpec(t: Node, P: Kind -> bool, p: Path)
    ensures p in FindAll(t, P) <==> ValidPath(t, p) && P(At(t, p).kind)
    decreases t, 1
  {
    if |p| == 0 {
      if [] in FindAllFrom(t, 0, P) {
        FindAllFromSpec(t, 0, P, p);
      }
    } else {
      FindAllFromSpec(t, 0, P, p);
    }
  }

  lemma {:induction false} FindAllFromSpec(t: Node, i: nat, P: Kind -> bool, p: Path)
    requires i <= |t.children|
    ensures p in FindAllFrom(t, i, P) <==>
      |p| > 0 && i <= p[0] < |t.children| && ValidPath(t, p) && P(At(t, p).kind)
    decreases t, 0, |t.children| - i
  {
    if i < |t.children| {
      var head := Prefixed(i, FindAll(t.children[i], P));
      FindAllFromSpec(t, i + 1, P, p);
      if |p| > 0 && p[0] == i {
        FindAllSpec(t.children[i], P, p[1..]);
        if ValidPath(t, p) && P(At(t, p).kind) {
          var j :| 0 <= j < |head| && head[j] == [i] + FindAll(t.children[i], P)[j] &&
                   FindAll(t.children[i], P)[j] == p[1..];
          assert head[j] == p;
        }
        if p in head {
          var j :| 0 <= j < |head| && head[j] == p;
          assert p[1..] == FindAll(t.children[i], P)[j];
        }
      } else {
        assert p !in head;
      }
    }
  }

  // ---------------------------------------------------------------------
  // Kind-wise rewriting of every node (the "replace every instance" loops)

  function MapKinds(t: Node, f: Kind -> Kind): (r: Node)
    ensures |r.children| == |t.children|
    decreases t
  {
    Node(f(t.kind), seq(|t.children|, i requires 0 <= i < |t.children| => MapKinds(t.children[i], f)))
  }

  lemma {:induction false} MapKindsAt(t: Node, f: Kind -> Kind, p: Path)
    ensures ValidPath(MapKinds(t, f), p) <==> ValidPath(t, p)
    ensures ValidPath(t, p) ==> At(MapKinds(t, f), p).kind == f(At(t, p).kind)
    decreases p
  {
    if |p| > 0 && p[0] < |t.children| {
      MapKindsAt(t.children[p[0]], f, p[1..]);
    }
  }

  // ---------------------------------------------------------------------
  // Slot census: the multiset of slots recorded by the nodes of a tree

  function Census(t: Node, f: Kind -> multiset<nat>): multiset<nat>
    decreases t
  {
    f(t.kind) + CensusOf(t.children, f)
  }

  function CensusOf(cs: seq<Node>, f: Kind -> multiset<nat>): multiset<nat>
    decreases cs
  {
    if |cs| == 0 then multiset{} else Census(cs[0], f) + CensusOf(cs[1..], f)
  }

  lemma AddBoth(a: multiset<nat>, x: multiset<nat>, u: multiset<nat>, y: multiset<nat>, v: multiset<nat>)
    requires x + u == y + v
    ensures (a + x) + u == (a + y) + v
  {
    assert (a + x) + u == a + (x + u);
    assert (a + y) + v == a + (y + v);
  }

  /** From x + c == y + c' and c' + a == c + n, conclude x + a == y + n. */
  lemma Trade(x: multiset<nat>, c: multiset<nat>, y: multiset<nat>, c': multiset<nat>, a: multiset<nat>, n: multiset<nat>)
    requires x + c == y + c'
    requires c' + a == c + n
    ensures x + a == y + n
  {
    forall e
      ensures (x + a)[e] == (y + n)[e]
    {
      assert (x + c)[e] == (y + c')[e];
      assert (c' + a)[e] == (c + n)[e];
    }
  }

  lemma {:induction false} CensusOfUpdate(cs: seq<Node>, i: nat, c: Node, f: Kind -> multiset<nat>)
    requires i < |cs|
    ensures CensusOf(cs[i := c], f) + Census(cs[i], f) == CensusOf(cs, f) + Census(c, f)
    decreases cs
  {
    if i > 0 {
      var cs' := cs[i := c];
      assert cs'[0] == cs[0];
      assert cs'[1..] == cs[1..][i - 1 := c];
      assert cs[1..][i - 1] == cs[i];
      CensusOfUpdate(cs[1..], i - 1, c, f);
      assert CensusOf(cs', f) == Census(cs[0], f) + CensusOf(cs[1..][i - 1 := c], f);
      assert CensusOf(cs, f) == Census(cs[0], f) + CensusOf(cs[1..], f);
      AddBoth(Census(cs[0], f), CensusOf(cs[1..][i - 1 := c], f), Census(cs[i], f),
              CensusOf(cs[1..], f), Census(c, f));
    } else {
      assert cs[i := c][1..] == cs[1..];
    }
  }

  /** Replacing the subtree at q trades its census for the replacement's. */
  lemma {:induction false} CensusReplace(t: Node, q: Path, n: Node, f: Kind -> multiset<nat>)
    requires ValidPath(t, q)
    ensures Census(ReplaceAt(t, q, n), f) + Census(At(t, q), f) == Census(t, f) + Census(n, f)
    decreases q
  {
    if |q| > 0 {
      var c := t.children[q[0]];
      CensusReplace(c, q[1..], n, f);
      CensusOfUpdate(t.children, q[0], ReplaceAt(c, q[1..], n), f);
      assert At(t, q) == At(c, q[1..]);
      assert ReplaceAt(t, q, n) == Node(t.kind, t.children[q[0] := ReplaceAt(c, q[1..], n)]);
      assert Census(ReplaceAt(t, q, n), f) == f(t.kind) + CensusOf(t.children[q[0] := ReplaceAt(c, q[1..], n)], f);
      assert Census(t, f) == f(t.kind) + CensusOf(t.children, f);
      Trade(CensusOf(t.children[q[0] := ReplaceAt(c, q[1..], n)], f), Census(c, f), CensusOf(t.children, f),
            Census(ReplaceAt(c, q[1..], n), f), Census(At(c, q[1..]), f), Census(n, f));
      AddBoth(f(t.kind), CensusOf(t.children[q[0] := ReplaceAt(c, q[1..], n)], f), Census(At(t, q), f),
              CensusOf(t.children, f), Census(n, f));
    }
  }

  lemma {:induction false} CensusMap(t: Node, g: Kind -> Kind, f: Kind -> multiset<nat>)
    requires forall k :: f(g(k)) == f(k)
    ensures Census(MapKinds(t, g), f) == Census(t, f)
    decreases t
  {
    CensusOfMap(t.children, MapKinds(t, g).children, g, f);
  }

  lemma {:induction false} CensusOfMap(cs: seq<Node>, ms: seq<Node>, g: Kind -> Kind, f: Kind -> multiset<nat>)
    requires forall k :: f(g(k)) == f(k)
    requires |ms| == |cs|
    requires forall i :: 0 <= i < |cs| ==> ms[i] == MapKinds(cs[i], g)
    ensures CensusOf(ms, f) == CensusOf(cs, f)
    decreases cs
  {
    if |cs| > 0 {
      CensusMap(cs[0], g, f);
      CensusOfMap(cs[1..], ms[1..], g, f);
    }
  }
}
