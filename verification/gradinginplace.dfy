/** compare_tree on the linked trees themselves, relinking the answer while it searches. The
    result and the answer left in the heap are those of the search on values. */
module GradingInPlace {
  import opened Trees
  import opened Grading
  import opened Wrappers
  import opened Verdicts
  import opened LinkedTrees

  /** A student's family and an answer's family, both intact and without a common node. */
  ghost predicate Apart(f1: Shape, f2: Shape)
    reads Nodes(f1), Nodes(f2)
  {
    Proper(f1) && Proper(f2) && Linked(f1) && Linked(f2) && Nodes(f1) !! Nodes(f2)
  }

  /** `h` is what became of `f`: the same nodes on top, no new ones below. */
  ghost predicate Reshaped(f: Shape, h: Shape) {
    && h.node == f.node && |h.kids| == |f.kids|
    && Proper(h) && Nodes(h) <= Nodes(f) && Below(h) <= Below(f)
    && forall k: nat :: k < |h.kids| ==> h.kids[k].node == f.kids[k].node
  }

  lemma ReshapedThen(f: Shape, g: Shape, h: Shape)
    requires Reshaped(f, g) && Reshaped(g, h)
    ensures Reshaped(f, h)
  {
  }

  /** `h` is `f` with another subtree at the node of operand j. */
  ghost predicate ReplacedAt(f: Shape, j: nat, t: Shape, h: Shape) {
    && j < |f.kids| && t.node == f.kids[j].node
    && h == Shape(f.node, f.kids[j := t])
  }

  lemma ReplacedProper(f: Shape, j: nat, t: Shape, h: Shape)
    requires Proper(f) && ReplacedAt(f, j, t, h) && Proper(t) && Nodes(t) <= Nodes(f.kids[j])
    ensures Reshaped(f, h)
  {
    forall n | n in Below(h) ensures n in Below(f) {
      var i: nat :| i < |h.kids| && n in Nodes(h.kids[i]);
      assert n in Nodes(f.kids[i]);
    }
  }

  /** Operand i of `f` is in place and holds the expression v. */
  ghost predicate Holds(f: Shape, i: nat, v: Tree)
    requires Proper(f) && i < |f.kids|
    reads Nodes(f)
  {
    KidNodes(f, i);
    KidLinked(f, i) && Value(f.kids[i]) == v
  }

  lemma ReplacedNodes(f: Shape, j: nat, t: Shape, h: Shape, k: int)
    requires ReplacedAt(f, j, t, h)
    ensures NodeAt(h.kids, k) == NodeAt(f.kids, k)
  {
  }

  /** An operand beside the replaced one still holds what it held. */
  lemma ReplacedHolds(f: Shape, j: nat, t: Shape, h: Shape, i: nat, v: Tree)
    requires Proper(f) && Proper(h) && ReplacedAt(f, j, t, h) && i < |f.kids| && i != j && Holds(f, i, v)
    ensures Holds(h, i, v)
  {
    ReplacedNodes(f, j, t, h, i - 1);
    ReplacedNodes(f, j, t, h, i + 1);
    assert h.kids[i] == f.kids[i];
  }

  lemma ReplacementHolds(f: Shape, j: nat, t: Shape, h: Shape)
    requires Proper(f) && Proper(h) && ReplacedAt(f, j, t, h) && Proper(t) && Linked(t) && SiblingLinks(f, j)
    ensures Holds(h, j, Value(t))
  {
    ReplacedNodes(f, j, t, h, j - 1);
    ReplacedNodes(f, j, t, h, j + 1);
    assert h.kids[j] == t;
  }

  /** A family whose operands are in place is linked, and holds their expressions. */
  lemma AllHold(h: Shape, ws: seq<Tree>)
    requires Proper(h) && |ws| == |h.kids| && (h.node != null ==> h.node.child_head == NodeAt(h.kids, 0))
    requires forall i: nat {:trigger Holds(h, i, ws[i])} :: i < |h.kids| ==> Holds(h, i, ws[i])
    ensures Linked(h) && Value(h).kids == ws
  {
    forall i: nat | i < |h.kids| ensures KidLinked(h, i) && Value(h).kids[i] == ws[i] {
      assert Holds(h, i, ws[i]);
    }
  }

  lemma ReplacedLinked(f: Shape, j: nat, t: Shape, h: Shape, vs: seq<Tree>)
    requires Proper(f) && ReplacedAt(f, j, t, h) && Proper(t) && Proper(h) && |vs| == |f.kids|
    requires f.node != null ==> f.node.child_head == NodeAt(f.kids, 0)
    requires Linked(t)
    requires SiblingLinks(f, j)
    requires forall i: nat {:trigger Holds(f, i, vs[i])} :: i < |f.kids| && i != j ==> Holds(f, i, vs[i])
    ensures Linked(h) && Value(h).kids == vs[j := Value(t)]
  {
    var ws := vs[j := Value(t)];
    ReplacedNodes(f, j, t, h, 0);
    forall i: nat | i < |h.kids| ensures Holds(h, i, ws[i]) {
      if i == j {
        ReplacementHolds(f, j, t, h);
      } else {
        assert Holds(f, i, vs[i]);
        ReplacedHolds(f, j, t, h, i, vs[i]);
      }
    }
    AllHold(h, ws);
  }

  /** An operand of a family. */
  datatype Place = Place(family: Shape, at: nat)

  /** An operand whose links have not changed is linked to its siblings as before. */
  twostate lemma SameLinks(p: Place)
    requires Proper(p.family) && p.at < |p.family.kids| && old(SiblingLinks(p.family, p.at))
    requires var n := p.family.kids[p.at].node;
             n.prev == old(n.prev) && n.next == old(n.next) && n.parent == old(n.parent)
    ensures SiblingLinks(p.family, p.at)
  {
  }

  /** An operand none of whose nodes has changed is as it was. */
  twostate lemma SameKid(p: Place)
    requires Proper(p.family) && old(Linked(p.family)) && p.at < |p.family.kids|
    requires forall n :: n in Nodes(p.family.kids[p.at]) ==> old(allocated(n)) && unchanged(n)
    ensures Holds(p.family, p.at, old(Value(p.family.kids[p.at])))
  {
    KidNodes(p.family, p.at);
    assert old(KidLinked(p.family, p.at));
    assert p.family.kids[p.at].node in Nodes(p.family.kids[p.at]);
  }

  /** Lines 46 to 64 of blank.c: the answer is turned round when the student's relation has another name. */
  method TurnRoundInPlace(g: Program, root1: TreeNode, root2: TreeNode, ghost t1: Shape, ghost t2: Shape)
    returns (ghost h: Shape)
    requires Apart(t1, t2) && t1.node == root1 && t2.node == root2
    requires TurnRound(g, Value(t1), Value(t2)).Some?
    modifies Nodes(t2)
    ensures h.node == root2 && Proper(h) && Linked(h) && Nodes(h) <= Nodes(t2)
    ensures Some(Value(h)) == old(TurnRound(g, Value(t1), Value(t2)))
    ensures Apart(t1, h) && Value(t1) == old(Value(t1))
    ensures root2.prev == old(root2.prev) && root2.next == old(root2.next) && root2.parent == old(root2.parent)
  {
    var turns := WantsTurn(g, root1, root2, t1, t2);
    Allocated(t1);
    h := t2;
    if turns {
      h := Turn(root2, t2);
    }
  }

  method Turn(root2: TreeNode, ghost t2: Shape) returns (ghost h: Shape)
    requires Proper(t2) && Linked(t2) && t2.node == root2 && |t2.kids| >= 2
    modifies Nodes(t2)
    ensures h.node == root2 && Proper(h) && Linked(h) && Nodes(h) <= Nodes(t2)
    ensures Value(h) == old(var a := Value(t2); Node(FlipName(a.name), [a.kids[1], a.kids[0]]))
    ensures root2.prev == old(root2.prev) && root2.next == old(root2.next) && root2.parent == old(root2.parent)
  {
    Allocated(t2);
    OwnNodes(t2);
    root2.name := FlipName(root2.name);
    Undisturbed(t2);
    h := ChangeSiblingShape(root2, t2);
  }

  method WantsTurn(g: Program, root1: TreeNode, root2: TreeNode, ghost t1: Shape, ghost t2: Shape)
    returns (turns: bool)
    requires Apart(t1, t2) && t1.node == root1 && t2.node == root2
    ensures turns == TurnsRound(g, Value(t1), Value(t2))
    ensures Apart(t1, t2) && Value(t1) == old(Value(t1)) && Value(t2) == old(Value(t2))
  {
    Allocated(t1);
    Allocated(t2);
    turns := IsRelation(root1.name) && root1.name != root2.name;
    if turns && g == Guarded {
      turns := IsRelation(root2.name) && root2.child_head != null;
      if turns {
        var cnt := GetSiblingCnt(root2.child_head, t2, 0);
        turns := cnt == 1;
      }
    }
  }

  lemma OwnNodes(f: Shape)
    requires Proper(f)
    ensures f.node !in Below(f)
    ensures forall i :: 0 <= i < |f.kids| ==> f.kids[i].node in Nodes(f) && f.kids[i].node != f.node
  {
    forall i | 0 <= i < |f.kids| ensures f.kids[i].node in Nodes(f) && f.kids[i].node != f.node {
      assert f.kids[i].node in Nodes(f.kids[i]);
    }
  }

  /** compare_tree: operand i of one node and those behind it, against operand j of the other. */
  method CompareTree(g: Program, root1: TreeNode?, root2: TreeNode?,
                     ghost f1: Shape, ghost i: nat, ghost f2: Shape, ghost j: nat)
    returns (result: bool, ghost h: Shape)
    requires Apart(f1, f2) && i <= |f1.kids| && j <= |f2.kids|
    requires root1 == NodeAt(f1.kids, i) && root2 == NodeAt(f2.kids, j)
    requires f1.node == null ==> |f1.kids| <= 1
    requires root1 != null && root2 != null ==> CompareFrom(g, Value(f1), i, Value(f2).kids, j).Done?
    modifies Below(f2)
    ensures Reshaped(f2, h) && Linked(h)
    ensures root1 == null || root2 == null ==> !result && h == f2 && Value(h) == old(Value(f2))
    ensures root1 != null && root2 != null ==>
              Done(result, Value(h).kids) == old(CompareFrom(g, Value(f1), i, Value(f2).kids, j))
    decreases f1, |f1.kids| - i, |f2.kids| - j, 1
  {
    if root1 == null || root2 == null {
      return false, f2;
    }
    ghost var s := Value(f1);
    Allocated(f1);
    ghost var h0: Shape;
    result, h0 := CompareOne(g, root1, root2, f1, i, f2, j);
    assert Apart(f1, h0) && Value(f1) == s;
    result, h := CompareNext(g, root1, root2, result, f1, i, h0, j);
    ReshapedThen(f2, h0, h);
  }

  method SameCount(root1: TreeNode, root2: TreeNode, ghost f1: Shape, ghost i: nat, ghost f2: Shape, ghost j: nat)
    returns (same: bool)
    requires Apart(f1, f2) && i < |f1.kids| && j < |f2.kids|
    requires root1 == f1.kids[i].node && root2 == f2.kids[j].node
    ensures same == (|f1.kids| == |f2.kids|)
    ensures Apart(f1, f2) && Value(f1) == old(Value(f1)) && Value(f2) == old(Value(f2))
  {
    Allocated(f1);
    Allocated(f2);
    var cnt1 := GetSiblingCnt(root1, f1, i);
    var cnt2 := GetSiblingCnt(root2, f2, j);
    same := cnt1 == cnt2;
  }

  /** Lines 133 to 172: the operands behind operand i, in any order or in step. */
  method CompareNext(g: Program, root1: TreeNode, root2: TreeNode, ok: bool,
                     ghost f1: Shape, ghost i: nat, ghost f2: Shape, ghost j: nat)
    returns (result: bool, ghost h: Shape)
    requires Apart(f1, f2) && i < |f1.kids| && j < |f2.kids|
    requires root1 == f1.kids[i].node && root2 == f2.kids[j].node
    requires f1.node == null ==> |f1.kids| <= 1
    requires CompareRest(g, Value(f1), i, Value(f2).kids, j, ok).Done?
    modifies Below(f2)
    ensures Reshaped(f2, h) && Linked(h)
    ensures Done(result, Value(h).kids) == old(CompareRest(g, Value(f1), i, Value(f2).kids, j, ok))
    decreases f1, |f1.kids| - i, 0, 1
  {
    ghost var s, ys := Value(f1), Value(f2).kids;
    ghost var goal := CompareRest(g, s, i, ys, j, ok);
    NextOf(f1, i);
    result, h := ok, f2;
    if root1.next != null {
      var even := SameCount(root1, root2, f1, i, f2, j);
      if !even || !ok {
        assert goal == Done(false, ys);
        return false, f2;
      }
      var anyOrder := UnderCommutative(root1, f1, i, f2);
      result, h := CompareBehind(g, root1, root2, anyOrder, f1, i, f2, j);
      assert goal == if anyOrder then Search(g, s, i + 1, ys, 0)
                     else if j + 1 == |ys| then Done(false, ys) else CompareFrom(g, s, i + 1, ys, j + 1);
    }
  }

  /** The next operand of the answer in step, if there is one. */
  ghost function InStep(g: Program, s: Tree, i: nat, ys: seq<Tree>, j: nat): Outcome<seq<Tree>>
    requires i < |s.kids| && j < |ys|
  {
    if j + 1 < |ys| then CompareFrom(g, s, i, ys, j + 1) else Done(false, ys)
  }

  /** Lines 145 to 170. */
  method CompareBehind(g: Program, root1: TreeNode, root2: TreeNode, anyOrder: bool,
                       ghost f1: Shape, ghost i: nat, ghost f2: Shape, ghost j: nat)
    returns (result: bool, ghost h: Shape)
    requires Apart(f1, f2) && i + 1 < |f1.kids| == |f2.kids| && j < |f2.kids|
    requires root1 == f1.kids[i].node && root2 == f2.kids[j].node && f1.node != null
    requires anyOrder ==> Search(g, Value(f1), i + 1, Value(f2).kids, 0).Done?
    requires !anyOrder ==> InStep(g, Value(f1), i + 1, Value(f2).kids, j).Done?
    modifies Below(f2)
    ensures Reshaped(f2, h) && Linked(h)
    ensures anyOrder ==> Done(result, Value(h).kids) == old(Search(g, Value(f1), i + 1, Value(f2).kids, 0))
    ensures !anyOrder ==> Done(result, Value(h).kids) == old(InStep(g, Value(f1), i + 1, Value(f2).kids, j))
    decreases f1, |f1.kids| - i, 0, 0
  {
    NextOf(f1, i);
    if anyOrder {
      result, h := SearchSiblings(g, root1.next, root2, f1, i + 1, f2, j);
    } else {
      result, h := CompareInStep(g, root1.next, root2, f1, i + 1, f2, j);
    }
  }

  /** Line 170. */
  method CompareInStep(g: Program, next1: TreeNode, root2: TreeNode,
                       ghost f1: Shape, ghost i: nat, ghost f2: Shape, ghost j: nat)
    returns (result: bool, ghost h: Shape)
    requires Apart(f1, f2) && i < |f1.kids| == |f2.kids| && j < |f2.kids|
    requires next1 == f1.kids[i].node && root2 == f2.kids[j].node && f1.node != null
    requires InStep(g, Value(f1), i, Value(f2).kids, j).Done?
    modifies Below(f2)
    ensures Reshaped(f2, h) && Linked(h)
    ensures Done(result, Value(h).kids) == old(InStep(g, Value(f1), i, Value(f2).kids, j))
    decreases f1, |f1.kids| - i, |f2.kids| - j, 0
  {
    NextOf(f2, j);
    result, h := CompareTree(g, next1, root2.next, f1, i, f2, j + 1);
  }

  method UnderCommutative(root1: TreeNode, ghost f1: Shape, ghost i: nat, ghost f2: Shape) returns (b: bool)
    requires Apart(f1, f2) && i < |f1.kids| && root1 == f1.kids[i].node && f1.node != null
    ensures b == IsCommutative(f1.node.name)
    ensures Apart(f1, f2) && Value(f1) == old(Value(f1)) && Value(f2) == old(Value(f2))
  {
    Allocated(f1);
    Allocated(f2);
    var op := GetOperator(root1, f1, i);
    b := IsCommutative(op.name);
  }

  method FirstToTry(sibling: TreeNode, ghost f1: Shape, ghost f2: Shape, ghost j: nat) returns (first: TreeNode)
    requires Apart(f1, f2) && j < |f2.kids| && sibling == f2.kids[j].node
    ensures first == f2.kids[0].node
    ensures Apart(f1, f2) && Value(f1) == old(Value(f1)) && Value(f2) == old(Value(f2))
  {
    Allocated(f1);
    Allocated(f2);
    first := FirstSibling(sibling, f2, j);
  }

  /** Lines 110 to 126 and 150 to 166: operand i against the answer's operands from the first on. */
  method SearchSiblings(g: Program, root1: TreeNode, sibling: TreeNode,
                        ghost f1: Shape, ghost i: nat, ghost f2: Shape, ghost j: nat)
    returns (result: bool, ghost h: Shape)
    requires Apart(f1, f2) && i < |f1.kids| && j < |f2.kids| && f1.node != null
    requires root1 == f1.kids[i].node && sibling == f2.kids[j].node
    requires Search(g, Value(f1), i, Value(f2).kids, 0).Done?
    modifies Below(f2)
    ensures Reshaped(f2, h) && Linked(h)
    ensures Done(result, Value(h).kids) == old(Search(g, Value(f1), i, Value(f2).kids, 0))
    decreases f1, |f1.kids| - i, |f2.kids|, 3
  {
    ghost var s := Value(f1);
    ghost var goal := Search(g, s, i, Value(f2).kids, 0);
    var tmp: TreeNode? := FirstToTry(sibling, f1, f2, j);
    result, h := false, f2;
    ghost var k: nat := 0;
    while tmp != null
      invariant Apart(f1, h) && Reshaped(f2, h) && Value(f1) == s
      invariant k <= |h.kids| && tmp == NodeAt(h.kids, k)
      invariant k < |h.kids| ==> Search(g, s, i, Value(h).kids, k) == goal
      invariant k == |h.kids| ==> Done(result, Value(h).kids) == goal
      decreases |h.kids| - k
    {
      ghost var h0 := h;
      result, h, tmp := TryOne(g, root1, tmp, f1, i, h, k);
      ReshapedThen(f2, h0, h);
      if result {
        return;
      }
      k := k + 1;
    }
  }

  /** One round of the search. */
  method TryOne(g: Program, root1: TreeNode, root2: TreeNode,
                ghost f1: Shape, ghost i: nat, ghost f2: Shape, ghost j: nat)
    returns (result: bool, ghost h: Shape, next: TreeNode?)
    requires Apart(f1, f2) && i < |f1.kids| && j < |f2.kids| && f1.node != null
    requires root1 == f1.kids[i].node && root2 == f2.kids[j].node
    requires CompareFrom(g, Value(f1), i, Value(f2).kids, j).Done?
    modifies Below(f2)
    ensures Reshaped(f2, h) && Apart(f1, h) && Value(f1) == old(Value(f1))
    ensures Done(result, Value(h).kids) == old(CompareFrom(g, Value(f1), i, Value(f2).kids, j))
    ensures next == NodeAt(h.kids, j + 1)
    decreases f1, |f1.kids| - i, |f2.kids| - j, 2
  {
    Allocated(f1);
    result, h := CompareTree(g, root1, root2, f1, i, f2, j);
    NextOf(h, j);
    next := root2.next;
  }

  /** One operand of the answer is compared and put back among its siblings. */
  method CompareOne(g: Program, root1: TreeNode, root2: TreeNode,
                    ghost f1: Shape, ghost i: nat, ghost f2: Shape, ghost j: nat)
    returns (result: bool, ghost h: Shape)
    requires Apart(f1, f2) && i < |f1.kids| && j < |f2.kids|
    requires root1 == f1.kids[i].node && root2 == f2.kids[j].node
    requires Compare(g, Value(f1.kids[i]), Value(f2.kids[j])).Done?
    modifies Below(f2)
    ensures Reshaped(f2, h) && Linked(h)
    ensures var r := old(Compare(g, Value(f1.kids[i]), Value(f2.kids[j])));
            result == r.ok && Value(h).kids == old(Value(f2)).kids[j := r.left]
    decreases f1, |f1.kids| - i, |f2.kids| - j, 0
  {
    ghost var t, vs := f2.kids[j], Value(f2).kids;
    ghost var r := Compare(g, Value(f1.kids[i]), Value(t));
    Allocated(f2);
    assert Apart(f1.kids[i], t) && Nodes(t) <= Below(f2) && root2 in Nodes(t) by { KidsApart(f1, i, f2, j); }
    result, t := CompareNode(g, root1, root2, f1.kids[i], f2.kids[j]);
    h := Shape(f2.node, f2.kids[j := t]);
    ReplacedProper(f2, j, t, h);
    assert SiblingLinks(f2, j) by {
      assert old(KidLinked(f2, j));
      SameLinks(Place(f2, j));
    }
    assert forall k: nat {:trigger Holds(f2, k, vs[k])} :: k < |f2.kids| && k != j ==> Holds(f2, k, vs[k]) by {
      forall k: nat | k < |f2.kids| && k != j ensures Holds(f2, k, vs[k]) {
        KidNodes(f2, k);
        assert Nodes(f2.kids[k]) !! Nodes(f2.kids[j]);
        SameKid(Place(f2, k));
      }
    }
    ReplacedLinked(f2, j, t, h, vs);
  }

  lemma KidsApart(f1: Shape, i: nat, f2: Shape, j: nat)
    requires Apart(f1, f2) && i < |f1.kids| && j < |f2.kids|
    ensures Apart(f1.kids[i], f2.kids[j]) && Nodes(f2.kids[j]) <= Below(f2) && f2.kids[j].node in Nodes(f2.kids[j])
  {
    KidNodes(f1, i);
    KidNodes(f2, j);
    assert KidLinked(f1, i) && KidLinked(f2, j);
  }

  method CompareNode(g: Program, root1: TreeNode, root2: TreeNode, ghost t1: Shape, ghost t2: Shape)
    returns (result: bool, ghost h: Shape)
    requires Apart(t1, t2) && t1.node == root1 && t2.node == root2
    requires Compare(g, Value(t1), Value(t2)).Done?
    modifies Nodes(t2)
    ensures h.node == root2 && Proper(h) && Linked(h) && Nodes(h) <= Nodes(t2)
    ensures Done(result, Value(h)) == old(Compare(g, Value(t1), Value(t2)))
    ensures root2.prev == old(root2.prev) && root2.next == old(root2.next) && root2.parent == old(root2.parent)
    decreases t1, |t1.kids| + 2, 0, 0
  {
    h := TurnRoundInPlace(g, root1, root2, t1, t2);
    result, h := CompareTurned(g, root1, root2, t1, h);
  }

  /** Lines 67 to 131, for an answer node that has been turned round as needed. */
  method CompareTurned(g: Program, root1: TreeNode, root2: TreeNode, ghost t1: Shape, ghost t2: Shape)
    returns (result: bool, ghost h: Shape)
    requires Apart(t1, t2) && t1.node == root1 && t2.node == root2
    requires Turned(g, Value(t1), Value(t2)).Done?
    modifies Below(t2), root2`child_head
    ensures h.node == root2 && Proper(h) && Linked(h) && Nodes(h) <= Nodes(t2)
    ensures Done(result, Value(h)) == old(Turned(g, Value(t1), Value(t2)))
    decreases t1, |t1.kids| + 1, 3, 0
  {
    if root1.name != root2.name || (root1.child_head != null) != (root2.child_head != null) {
      return false, t2;
    }
    if root1.child_head == null {
      return true, t2;
    }
    var even := SameCount(root1.child_head, root2.child_head, t1, 0, t2, 0);
    if !even {
      return false, t2;
    }
    OwnNodes(t2);
    result, h := CompareKidsInPlace(g, root1, root2, t1, t2);
  }

  /** Lines 86 to 130: all operands of two nodes of the same name. */
  method CompareKidsInPlace(g: Program, root1: TreeNode, root2: TreeNode, ghost t1: Shape, ghost t2: Shape)
    returns (result: bool, ghost h: Shape)
    requires Apart(t1, t2) && t1.node == root1 && t2.node == root2 && |t1.kids| == |t2.kids| > 0
    requires CompareKids(g, Value(t1), Value(t2).kids).Done?
    modifies Below(t2), root2`child_head
    ensures h.node == root2 && Proper(h) && Linked(h) && Nodes(h) <= Nodes(t2)
    ensures Done(result, Value(h).kids) == old(CompareKids(g, Value(t1), Value(t2).kids))
    decreases t1, |t1.kids| + 1, 2, 0
  {
    var bothOrders := IsEquality(root1.name);
    if bothOrders {
      result, h := CompareBothInPlace(g, root1, root2, t1, t2);
    } else if IsCommutative(root1.name) {
      result, h := SearchSiblings(g, root1.child_head, root2.child_head, t1, 0, t2, 0);
    } else {
      result, h := CompareTree(g, root1.child_head, root2.child_head, t1, 0, t2, 0);
    }
  }

  /** Lines 87 to 98: the operands in step, and if that fails with the answer's two changed over. */
  method CompareBothInPlace(g: Program, root1: TreeNode, root2: TreeNode, ghost t1: Shape, ghost t2: Shape)
    returns (result: bool, ghost h: Shape)
    requires Apart(t1, t2) && t1.node == root1 && t2.node == root2 && |t1.kids| == |t2.kids| > 0
    requires IsEquality(root1.name) && CompareKids(g, Value(t1), Value(t2).kids).Done?
    modifies Below(t2), root2`child_head
    ensures h.node == root2 && Proper(h) && Linked(h) && Nodes(h) <= Nodes(t2)
    ensures Done(result, Value(h).kids) == old(CompareKids(g, Value(t1), Value(t2).kids))
    decreases t1, |t1.kids| + 1, 1, 0
  {
    ghost var s, goal := Value(t1), CompareKids(g, Value(t1), Value(t2).kids);
    Allocated(t1);
    result, h := CompareTree(g, root1.child_head, root2.child_head, t1, 0, t2, 0);
    assert Apart(t1, h) && Value(t1) == s;
    assert result ==> goal == Done(result, Value(h).kids);
    if !result {
      result, h := CompareSwapped(g, root1, root2, t1, h);
    }
  }

  /** Lines 94 to 96. */
  method CompareSwapped(g: Program, root1: TreeNode, root2: TreeNode, ghost t1: Shape, ghost t2: Shape)
    returns (result: bool, ghost h: Shape)
    requires Apart(t1, t2) && t1.node == root1 && t2.node == root2 && t1.kids != [] && |t2.kids| >= 2
    requires CompareFrom(g, Value(t1), 0, [Value(t2).kids[1], Value(t2).kids[0]], 0).Done?
    modifies Below(t2), root2`child_head
    ensures h.node == root2 && Proper(h) && Linked(h) && Nodes(h) <= Nodes(t2)
    ensures Done(result, Value(h).kids) == old(CompareFrom(g, Value(t1), 0, [Value(t2).kids[1], Value(t2).kids[0]], 0))
    decreases t1, |t1.kids| + 1, 0, 0
  {
    h := SwapApart(root2, t1, t2);
    result, h := CompareTree(g, root1.child_head, root2.child_head, t1, 0, h, 0);
  }

  /** Changing the answer's first two operands over touches no node of the student. */
  lemma FirstTwoApart(t1: Shape, t2: Shape)
    requires Proper(t2) && Nodes(t1) !! Nodes(t2) && |t2.kids| >= 2
    ensures var a, b := t2.kids[0].node, t2.kids[1].node;
            a != null && b != null && a in Below(t2) && b in Below(t2) && a !in Nodes(t1) && b !in Nodes(t1)
  {
    KidNodes(t2, 0);
    KidNodes(t2, 1);
    assert t2.kids[0].node in Nodes(t2.kids[0]) && t2.kids[1].node in Nodes(t2.kids[1]);
  }

  method SwapApart(root2: TreeNode, ghost t1: Shape, ghost t2: Shape) returns (ghost h: Shape)
    requires Apart(t1, t2) && t2.node == root2 && |t2.kids| >= 2
    modifies Below(t2), root2`child_head
    ensures h.node == root2 && |h.kids| == 2 && Below(h) <= Below(t2) && Nodes(h) <= Nodes(t2)
    ensures Apart(t1, h) && Value(t1) == old(Value(t1))
    ensures Value(h).kids == old([Value(t2).kids[1], Value(t2).kids[0]])
  {
    Allocated(t1);
    FirstTwoApart(t1, t2);
    h := ChangeSiblingShape(root2, t2);
  }

  /** Grading one answer: compare_tree called on two roots, guarded or with a student without relations. */
  method Grade(g: Program, root1: TreeNode?, root2: TreeNode?, ghost f1: Shape, ghost f2: Shape)
    returns (result: bool, ghost h: Shape)
    requires Apart(f1, f2) && f1.node == null && f2.node == null && |f1.kids| <= 1 && |f2.kids| <= 1
    requires root1 == NodeAt(f1.kids, 0) && root2 == NodeAt(f2.kids, 0)
    requires WellFormed(Value(f1)) && Trusted(g, Value(f1))
    modifies Below(f2)
    ensures Reshaped(f2, h) && Apart(f1, h) && Value(f1) == old(Value(f1))
    ensures root1 == null || root2 == null ==> !result && Value(h) == old(Value(f2))
    ensures root1 != null && root2 != null ==>
              var s, a := old(Value(f1)).kids[0], old(Value(f2)).kids[0];
              && Equiv(a, Value(h).kids[0])
              && (result <==> Loose(s, a))
              && (NoRepeats(s) ==> (result <==> Equiv(s, a)))
  {
    ghost var v1, v2 := Value(f1), Value(f2);
    if root1 != null && root2 != null { GradesRoots(g, v1, v2); }
    Allocated(f1);
    result, h := CompareTree(g, root1, root2, f1, 0, f2, 0);
  }

  lemma GradesRoots(g: Program, v1: Tree, v2: Tree)
    requires WellFormed(v1) && Trusted(g, v1) && |v1.kids| == |v2.kids| == 1
    ensures var s, a := v1.kids[0], v2.kids[0];
            var r := CompareFrom(g, v1, 0, v2.kids, 0);
            && r.Done? && Equiv(a, r.left[0])
            && (r.ok <==> Loose(s, a))
            && (NoRepeats(s) ==> (r.ok <==> Equiv(s, a)))
  {
    var s, a := v1.kids[0], v2.kids[0];
    TrustedDecides(g, s, a);
    var r := Compare(g, s, a);
    assert CompareRest(g, v1, 0, v2.kids[0 := r.left], 0, r.ok) == Done(r.ok, v2.kids[0 := r.left]);
    if NoRepeats(s) { CorrectIsEquiv(g, s, a); }
  }
}
