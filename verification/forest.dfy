/** insert_node anywhere in a forest: the links and the leaf order of the whole are kept, not only those of
    the family that changes. */
module Forest {
  import opened LinkedTrees
  import opened TreeSurgery

  /** The operand numbers on the way down to a family. */
  type Address = seq<nat>

  ghost predicate LeadsDown(f: Shape, way: Address)
    decreases |way|
  {
    way == [] || (way[0] < |f.kids| && LeadsDown(f.kids[way[0]], way[1..]))
  }

  ghost function Family(f: Shape, way: Address): Shape
    requires LeadsDown(f, way)
    decreases |way|
  {
    if way == [] then f else Family(f.kids[way[0]], way[1..])
  }

  /** The forest after `n` has taken over operand i of the family. */
  ghost function Grown(f: Shape, way: Address, i: nat, n: TreeNode): Shape
    requires LeadsDown(f, way) && i < |Family(f, way).kids|
    decreases |way|
  {
    if way == [] then Inserted(f, i, n)
    else Shape(f.node, f.kids[way[0] := Grown(f.kids[way[0]], way[1..], i, n)])
  }

  lemma {:induction false} FamilyInside(f: Shape, way: Address)
    requires Proper(f) && LeadsDown(f, way)
    ensures Proper(Family(f, way)) && Nodes(Family(f, way)) <= Nodes(f) && Below(Family(f, way)) <= Below(f)
    ensures f.node !in Below(Family(f, way))
    decreases |way|
  {
    NotBelowItself(f);
    if way != [] {
      assert Proper(f.kids[way[0]]);
      FamilyInside(f.kids[way[0]], way[1..]);
      KidNodes(f, way[0]);
    }
  }

  /** What the insertion leaves alone. */
  ghost function Outside(f: Shape, way: Address): set<TreeNode>
    requires LeadsDown(f, way)
  {
    Nodes(f) - Below(Family(f, way))
  }

  lemma KidOutside(f: Shape, way: Address, k: nat)
    requires Proper(f) && LeadsDown(f, way) && way != [] && k < |f.kids|
    ensures f.kids[k].node != null && f.kids[k].node in Outside(f, way)
    ensures k == way[0] ==> Outside(f.kids[k], way[1..]) <= Outside(f, way)
    ensures k != way[0] ==> Nodes(f.kids[k]) <= Outside(f, way)
  {
    var a := way[0];
    assert f.kids[k].node != null;
    KidNodes(f, k);
    FamilyInside(f.kids[a], way[1..]);
    assert Family(f, way) == Family(f.kids[a], way[1..]);
    if k != a {
      assert Nodes(f.kids[k]) !! Nodes(f.kids[a]);
    }
  }

  lemma TopOutside(f: Shape, way: Address)
    requires Proper(f) && LeadsDown(f, way)
    ensures f.node != null ==> f.node in Outside(f, way)
  {
    FamilyInside(f, way);
  }

  /** Operand k on one level of the way: linked to its siblings, and linked below unless the way goes on there. */
  ghost predicate LevelLinked(f: Shape, way: Address, k: nat)
    requires Proper(f) && LeadsDown(f, way) && way != [] && k < |f.kids|
    reads Outside(f, way)
  {
    KidOutside(f, way, k);
    SiblingLinks(f, k) && (k != way[0] ==> Linked(f.kids[k]))
  }

  /** The forest is linked everywhere but in the family and below it. */
  ghost predicate Around(f: Shape, way: Address)
    requires Proper(f) && LeadsDown(f, way)
    reads Outside(f, way)
    decreases |way|
  {
    way == [] ||
    (TopOutside(f, way);
     KidOutside(f, way, way[0]);
     && (f.node != null ==> f.node.child_head == NodeAt(f.kids, 0))
     && (forall k: nat {:trigger LevelLinked(f, way, k)} :: k < |f.kids| ==> LevelLinked(f, way, k))
     && Around(f.kids[way[0]], way[1..]))
  }

  lemma {:induction false} SplitLinks(f: Shape, way: Address)
    requires Proper(f) && LeadsDown(f, way) && Linked(f)
    ensures Around(f, way) && Proper(Family(f, way)) && Linked(Family(f, way))
    decreases |way|
  {
    if way != [] {
      var a := way[0];
      assert KidLinked(f, a);
      SplitLinks(f.kids[a], way[1..]);
      forall k: nat | k < |f.kids| ensures LevelLinked(f, way, k) {
        assert KidLinked(f, k);
      }
    }
  }

  lemma {:induction false} GrownProper(f: Shape, way: Address, i: nat, n: TreeNode)
    requires Proper(f) && LeadsDown(f, way) && i < |Family(f, way).kids| && n !in Nodes(f)
    ensures var h := Grown(f, way, i, n);
            Proper(h) && h.node == f.node && Nodes(h) == Nodes(f) + {n}
    decreases |way|
  {
    if way == [] {
      InsertedProper(f, i, n);
    } else {
      var a := way[0];
      KidNodes(f, a);
      GrownProper(f.kids[a], way[1..], i, n);
      ReplacedGrows(f, a, Grown(f.kids[a], way[1..], i, n), n);
    }
  }

  lemma ReplacedGrows(f: Shape, a: nat, t: Shape, n: TreeNode)
    requires Proper(f) && a < |f.kids| && n !in Nodes(f)
    requires Proper(t) && t.node == f.kids[a].node && Nodes(t) == Nodes(f.kids[a]) + {n}
    ensures var h := Shape(f.node, f.kids[a := t]);
            Proper(h) && Nodes(h) == Nodes(f) + {n}
  {
    var h := Shape(f.node, f.kids[a := t]);
    forall k: nat | k < |h.kids|
      ensures h.kids[k].node != null && Proper(h.kids[k]) && f.node !in Nodes(h.kids[k])
      ensures Nodes(f.kids[k]) <= Nodes(h.kids[k]) <= Nodes(f.kids[k]) + {n}
    {
      KidNodes(f, k);
    }
    forall k, m | 0 <= k < m < |h.kids| ensures Nodes(h.kids[k]) !! Nodes(h.kids[m]) {
      KidNodes(f, k);
      KidNodes(f, m);
      assert Nodes(f.kids[k]) !! Nodes(f.kids[m]);
    }
    assert n in Nodes(h.kids[a]);
    assert Below(h) == Below(f) + {n} by {
      forall x | x in Below(f) ensures x in Below(h) {
        var k := KidOf(f, x);
        KidNodes(h, k);
      }
      KidNodes(h, a);
      forall x | x in Below(h) ensures x in Below(f) + {n} {
        var k := KidOf(h, x);
        KidNodes(f, k);
      }
    }
  }

  /** Links outside and links inside make a linked forest. */
  lemma {:induction false} JoinLinks(f: Shape, way: Address, i: nat, n: TreeNode)
    requires Proper(f) && LeadsDown(f, way) && i < |Family(f, way).kids| && n !in Nodes(f) && Around(f, way)
    requires Proper(Inserted(Family(f, way), i, n)) && Linked(Inserted(Family(f, way), i, n))
    ensures Proper(Grown(f, way, i, n)) && Linked(Grown(f, way, i, n))
    decreases |way|
  {
    GrownProper(f, way, i, n);
    if way != [] {
      var a, h := way[0], Grown(f, way, i, n);
      KidNodes(f, a);
      GrownProper(f.kids[a], way[1..], i, n);
      JoinLinks(f.kids[a], way[1..], i, n);
      forall k ensures NodeAt(h.kids, k) == NodeAt(f.kids, k) {}
      forall k: nat | k < |h.kids| ensures KidLinked(h, k) {
        assert LevelLinked(f, way, k);
      }
    }
  }

  lemma {:induction false} LeavesBehind(f: Shape, h: Shape, k: nat)
    requires |h.kids| == |f.kids| && k <= |f.kids|
    requires forall m {:trigger h.kids[m]} :: k <= m < |f.kids| ==> Leaves(h.kids[m]) == Leaves(f.kids[m])
    ensures LeavesOf(h, k) == LeavesOf(f, k)
    decreases |f.kids| - k
  {
    if k < |f.kids| {
      assert Leaves(h.kids[k]) == Leaves(f.kids[k]);
      LeavesBehind(f, h, k + 1);
    }
  }

  /** The leaves of the whole forest keep their order. */
  lemma {:induction false} GrownKeepsLeaves(f: Shape, way: Address, i: nat, n: TreeNode)
    requires LeadsDown(f, way) && i < |Family(f, way).kids|
    ensures Leaves(Grown(f, way, i, n)) == Leaves(f)
    decreases |way|
  {
    if way == [] {
      InsertedKeepsLeaves(f, i, n);
    } else {
      GrownKeepsLeaves(f.kids[way[0]], way[1..], i, n);
      LeavesBehind(f, Grown(f, way, i, n), 0);
    }
  }

  lemma OperandInside(f: Shape, way: Address, i: nat)
    requires Proper(f) && LeadsDown(f, way) && i < |Family(f, way).kids|
    ensures var m := Family(f, way).kids[i].node; m != null && m in Nodes(f) && m !in Outside(f, way)
  {
    FamilyInside(f, way);
    KidNodeIn(Family(f, way), i);
    KidNodes(Family(f, way), i);
  }

  /** The family is linked, and so is everything around it. */
  lemma FamilyLinked(f: Shape, way: Address)
    requires Proper(f) && Linked(f) && LeadsDown(f, way)
    ensures Proper(Family(f, way)) && Linked(Family(f, way)) && Nodes(Family(f, way)) <= Nodes(f) && Around(f, way)
  {
    FamilyInside(f, way);
    SplitLinks(f, way);
  }

  /** The elder sibling, if there is one, is in the family too. */
  lemma ElderInside(f: Shape, way: Address, i: nat)
    requires Proper(f) && LeadsDown(f, way) && i < |Family(f, way).kids|
    requires Proper(Family(f, way)) && Linked(Family(f, way))
    ensures var m := Family(f, way).kids[i].node; m != null && (m.prev != null ==> m.prev !in Outside(f, way))
  {
    Neighbours(Family(f, way), i);
    if i > 0 {
      var elder: nat := i - 1;
      OperandInside(f, way, elder);
    }
  }

  lemma {:induction false} GrownFamily(f: Shape, way: Address, i: nat, n: TreeNode)
    requires LeadsDown(f, way) && i < |Family(f, way).kids|
    ensures var h := Grown(f, way, i, n); LeadsDown(h, way) && Family(h, way) == Inserted(Family(f, way), i, n)
    decreases |way|
  {
    if way != [] { GrownFamily(f.kids[way[0]], way[1..], i, n); }
  }

  /** A linked forest is linked in the changed family too. */
  lemma InsideLinked(f: Shape, way: Address, i: nat, n: TreeNode)
    requires LeadsDown(f, way) && i < |Family(f, way).kids|
    requires Proper(Grown(f, way, i, n)) && Linked(Grown(f, way, i, n))
    ensures Proper(Inserted(Family(f, way), i, n)) && Linked(Inserted(Family(f, way), i, n))
  {
    GrownFamily(f, way, i, n);
    SplitLinks(Grown(f, way, i, n), way);
  }

  /** Only the list of roots has no node above it. */
  lemma {:induction false} FamilyNode(f: Shape, way: Address)
    requires Proper(f) && LeadsDown(f, way)
    ensures Family(f, way).node == null <==> way == [] && f.node == null
    decreases |way|
  {
    if way != [] {
      var kid := f.kids[way[0]];
      assert kid.node != null && Proper(kid);
      FamilyNode(kid, way[1..]);
    }
  }

  /** insert_node anywhere in the forest: the leaves of the whole forest keep their order, and all its links
      stay intact exactly when the node taken over has an elder sibling or is the first root. */
  method InsertAnywhere(older: TreeNode, newer: TreeNode, ghost f: Shape, ghost way: Address, ghost i: nat)
    returns (r: TreeNode)
    requires Proper(f) && Linked(f) && LeadsDown(f, way) && i < |Family(f, way).kids|
    requires older == Family(f, way).kids[i].node
    requires newer !in Nodes(f)
    requires newer.parent == null && newer.child_head == null && newer.prev == null && newer.next == null
    modifies newer, older, older.prev
    ensures r == newer
    ensures var h := Grown(f, way, i, newer);
            Proper(h) && Leaves(h) == Leaves(f) && (Linked(h) <==> i > 0 || (way == [] && f.node == null))
  {
    Allocated(f);
    FamilyLinked(f, way);
    OperandInside(f, way, i);
    ElderInside(f, way, i);
    r := InsertNodeShape(older, newer, Family(f, way), i);
    assert Around(f, way);
    FamilyNode(f, way);
    GrownProper(f, way, i, newer);
    if i > 0 || (way == [] && f.node == null) {
      JoinLinks(f, way, i, newer);
    } else if Linked(Grown(f, way, i, newer)) {
      InsideLinked(f, way, i, newer);
    }
    GrownKeepsLeaves(f, way, i, newer);
  }
}
