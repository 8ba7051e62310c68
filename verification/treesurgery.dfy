/** insert_node: a new operator node takes over a node and everything to its right. */
module TreeSurgery {
  import opened LinkedTrees

  /** Nodes without children, from left to right. */
  ghost function Leaves(f: Shape): seq<TreeNode?>
    decreases f, 1
  {
    if f.kids == [] then [f.node] else LeavesOf(f, 0)
  }

  ghost function LeavesOf(f: Shape, i: nat): seq<TreeNode?>
    requires i <= |f.kids|
    decreases f, 0, |f.kids| - i
  {
    if i == |f.kids| then [] else Leaves(f.kids[i]) + LeavesOf(f, i + 1)
  }

  /** The shape insert_node leaves: `n` stands where operand i stood and carries it and its successors. */
  ghost function Inserted(f: Shape, i: nat, n: TreeNode): Shape
    requires i < |f.kids|
  {
    Shape(f.node, f.kids[..i] + [Shape(n, f.kids[i..])])
  }

  lemma {:induction false} SameLeavesFrom(f: Shape, g: Shape, d: nat, i: nat)
    requires i <= |g.kids| && |f.kids| == |g.kids| + d
    requires forall k :: i <= k < |g.kids| ==> g.kids[k] == f.kids[k + d]
    ensures LeavesOf(g, i) == LeavesOf(f, i + d)
    decreases |g.kids| - i
  {
    if i < |g.kids| { SameLeavesFrom(f, g, d, i + 1); }
  }

  lemma {:induction false} InsertedLeavesFrom(f: Shape, i: nat, n: TreeNode, k: nat)
    requires k <= i < |f.kids|
    ensures LeavesOf(Inserted(f, i, n), k) == LeavesOf(f, k)
    decreases i - k
  {
    var g := Inserted(f, i, n);
    if k < i {
      InsertedLeavesFrom(f, i, n, k + 1);
    } else {
      var t := Shape(n, f.kids[i..]);
      SameLeavesFrom(f, t, i, 0);
      assert g.kids[k] == t && LeavesOf(g, k + 1) == [];
      assert LeavesOf(g, k) == Leaves(t) == LeavesOf(t, 0);
    }
  }

  /** insert_node keeps the left-to-right order of the leaves. */
  lemma InsertedKeepsLeaves(f: Shape, i: nat, n: TreeNode)
    requires i < |f.kids|
    ensures Leaves(Inserted(f, i, n)) == Leaves(f)
  {
    InsertedLeavesFrom(f, i, n, 0);
  }

  lemma KidOf(f: Shape, x: TreeNode) returns (k: nat)
    requires x in Below(f)
    ensures k < |f.kids| && x in Nodes(f.kids[k])
  {
    k :| k < |f.kids| && x in Nodes(f.kids[k]);
  }

  /** Operand i and its successors under the new node. */
  ghost function Tail(f: Shape, i: nat, n: TreeNode): (t: Shape)
    requires i < |f.kids|
    ensures t.node == n && |t.kids| == |f.kids| - i
    ensures forall k {:trigger t.kids[k]} :: 0 <= k < |f.kids| - i ==> t.kids[k] == f.kids[i + k]
  {
    Shape(n, f.kids[i..])
  }

  lemma TailProper(f: Shape, i: nat, n: TreeNode)
    requires Proper(f) && i < |f.kids| && n !in Nodes(f)
    ensures Proper(Tail(f, i, n))
  {
    var t := Tail(f, i, n);
    forall k: nat | k < |t.kids|
      ensures t.kids[k].node != null && Proper(t.kids[k]) && n !in Nodes(t.kids[k])
    {
      assert t.kids[k] == f.kids[i + k];
      KidNodes(f, i + k);
    }
    forall k, m | 0 <= k < m < |t.kids| ensures Nodes(t.kids[k]) !! Nodes(t.kids[m]) {
      assert t.kids[k] == f.kids[i + k] && t.kids[m] == f.kids[i + m];
      assert Nodes(f.kids[i + k]) !! Nodes(f.kids[i + m]);
    }
  }

  lemma TailBelow(f: Shape, i: nat, n: TreeNode, x: TreeNode)
    requires i < |f.kids| && x in Below(Tail(f, i, n))
    ensures x in Below(f)
  {
    var t := Tail(f, i, n);
    var k := KidOf(t, x);
    assert t.kids[k] == f.kids[i + k];
    KidNodes(f, i + k);
  }

  lemma TailCovers(f: Shape, i: nat, n: TreeNode, k: nat)
    requires i <= k < |f.kids|
    ensures Nodes(f.kids[k]) <= Below(Tail(f, i, n))
  {
    var t := Tail(f, i, n);
    assert t.kids[k - i] == f.kids[k];
    KidNodes(t, k - i);
  }

  lemma TailApart(f: Shape, i: nat, n: TreeNode, k: nat)
    requires Proper(f) && k < i < |f.kids| && n !in Nodes(f)
    ensures Nodes(f.kids[k]) !! Nodes(Tail(f, i, n))
  {
    var t := Tail(f, i, n);
    KidNodes(f, k);
    forall m | 0 <= m < |t.kids| ensures Nodes(f.kids[k]) !! Nodes(t.kids[m]) {
      assert t.kids[m] == f.kids[i + m];
      assert Nodes(f.kids[k]) !! Nodes(f.kids[i + m]);
    }
    forall x | x in Below(t) ensures x !in Nodes(f.kids[k]) {
      var m := KidOf(t, x);
    }
  }

  /** The operands after the insertion: those before place i stay, the last is the new node's family. */
  lemma InsertedKids(f: Shape, i: nat, n: TreeNode)
    requires i < |f.kids|
    ensures var g := Inserted(f, i, n);
            && |g.kids| == i + 1 && g.kids[i] == Tail(f, i, n)
            && forall k {:trigger g.kids[k]} :: 0 <= k < i ==> g.kids[k] == f.kids[k]
  {
  }

  lemma InsertedBelow(f: Shape, i: nat, n: TreeNode)
    requires i < |f.kids|
    ensures Below(Inserted(f, i, n)) == Below(f) + {n}
  {
    var g := Inserted(f, i, n);
    InsertedKids(f, i, n);
    KidNodes(g, i);
    forall x | x in Below(f) ensures x in Below(g) {
      var k := KidOf(f, x);
      if k < i {
        assert g.kids[k] == f.kids[k];
        KidNodes(g, k);
      } else {
        TailCovers(f, i, n, k);
      }
    }
    forall x | x in Below(g) ensures x in Below(f) + {n} {
      var k := KidOf(g, x);
      if k < i {
        assert g.kids[k] == f.kids[k];
        KidNodes(f, k);
      } else if x != n {
        TailBelow(f, i, n, x);
      }
    }
  }

  lemma InsertedProper(f: Shape, i: nat, n: TreeNode)
    requires Proper(f) && i < |f.kids| && n !in Nodes(f)
    ensures Proper(Inserted(f, i, n)) && Nodes(Inserted(f, i, n)) == Nodes(f) + {n}
  {
    var g := Inserted(f, i, n);
    InsertedKids(f, i, n);
    TailProper(f, i, n);
    forall k: nat | k < |g.kids| ensures g.kids[k].node != null && Proper(g.kids[k]) && f.node !in Nodes(g.kids[k]) {
      NotInOperand(f, i, n, k);
    }
    forall k, m | 0 <= k < m < |g.kids| ensures Nodes(g.kids[k]) !! Nodes(g.kids[m]) {
      if m < i {
        assert Nodes(f.kids[k]) !! Nodes(f.kids[m]);
      } else {
        TailApart(f, i, n, k);
      }
    }
    InsertedBelow(f, i, n);
  }

  lemma NotInOperand(f: Shape, i: nat, n: TreeNode, k: nat)
    requires Proper(f) && i < |f.kids| && n !in Nodes(f) && k <= i
    ensures f.node !in Nodes(Inserted(f, i, n).kids[k])
  {
    InsertedKids(f, i, n);
    NotBelowItself(f);
    if k == i && f.node != null && f.node in Below(Tail(f, i, n)) {
      TailBelow(f, i, n, f.node);
    }
  }

  /** The links of operand k once `n` has taken over operand i. */
  ghost predicate RelinkedAt(f: Shape, i: nat, n: TreeNode, k: nat)
    requires Proper(f) && k < |f.kids|
    reads f.kids[k].node, Nodes(f.kids[k])
  {
    var m := f.kids[k].node;
    && m.prev == (if k == i then null else NodeAt(f.kids, k - 1))
    && m.next == (if k + 1 == i then n else NodeAt(f.kids, k + 1))
    && m.parent == (if k == i then n else if k == 0 then f.node else null)
    && Linked(f.kids[k])
  }

  lemma TailLinked(f: Shape, i: nat, n: TreeNode)
    requires Proper(f) && i < |f.kids| && n !in Nodes(f) && n.child_head == f.kids[i].node
    requires forall k: nat {:trigger RelinkedAt(f, i, n, k)} :: k < |f.kids| ==> RelinkedAt(f, i, n, k)
    ensures Proper(Tail(f, i, n)) && Linked(Tail(f, i, n))
  {
    var t := Tail(f, i, n);
    TailProper(f, i, n);
    forall k: nat | k < |t.kids| ensures KidLinked(t, k) {
      assert t.kids[k] == f.kids[i + k] && RelinkedAt(f, i, n, i + k);
      assert NodeAt(t.kids, k + 1) == NodeAt(f.kids, i + k + 1);
      assert k > 0 ==> NodeAt(t.kids, k - 1) == NodeAt(f.kids, i + k - 1);
    }
    assert t.kids[0] == f.kids[i];
  }

  lemma InsertedLinked(f: Shape, i: nat, n: TreeNode)
    requires Proper(f) && i < |f.kids| && n !in Nodes(f) && (i > 0 || f.node == null)
    requires f.node != null ==> f.node.child_head == f.kids[0].node
    requires n.child_head == f.kids[i].node && n.prev == NodeAt(f.kids, i - 1) && n.next == null && n.parent == null
    requires forall k: nat {:trigger RelinkedAt(f, i, n, k)} :: k < |f.kids| ==> RelinkedAt(f, i, n, k)
    ensures Proper(Inserted(f, i, n)) && Linked(Inserted(f, i, n))
  {
    var g := Inserted(f, i, n);
    InsertedProper(f, i, n);
    InsertedKids(f, i, n);
    TailLinked(f, i, n);
    forall k ensures NodeAt(g.kids, k) == if k < i then NodeAt(f.kids, k) else if k == i then n else null {}
    forall k: nat | k < |g.kids| ensures KidLinked(g, k) {
      assert RelinkedAt(f, i, n, k);
      assert k < i ==> g.kids[k] == f.kids[k];
    }
  }

  lemma KidNodeIn(f: Shape, k: nat)
    requires Proper(f) && k < |f.kids|
    ensures f.kids[k].node != null && f.kids[k].node in Nodes(f.kids[k]) && f.kids[k].node in Nodes(f)
  {
    KidNodes(f, k);
    assert f.kids[k].node != null;
  }

  lemma KidNodeDiffers(f: Shape, k: nat, i: nat)
    requires Proper(f) && k < |f.kids| && i < |f.kids|
    ensures f.kids[k].node == f.kids[i].node <==> k == i
  {
    KidNodeIn(f, k);
    KidNodeIn(f, i);
    assert Nodes(f.kids[k]) !! Nodes(f.kids[i]) || k == i;
  }

  /** insert_node: `newer` takes the place of `older` and becomes its parent. */
  method InsertNode(older: TreeNode, newer: TreeNode) returns (r: TreeNode)
    requires older != newer && older.prev != older && older.prev != newer
    modifies older`prev, older`parent, newer`prev, newer`child_head
    modifies (if older.prev == null then {} else {older.prev})`next
    ensures r == newer && newer.child_head == older && older.parent == newer && older.prev == null
    ensures old(older.prev) != null ==> newer.prev == old(older.prev) && newer.prev.next == newer
    ensures old(older.prev) == null ==> newer.prev == old(newer.prev)
  {
    if older.prev != null {
      newer.prev := older.prev;
      older.prev.next := newer;
      older.prev := null;
    }
    newer.child_head := older;
    older.parent := newer;
    return newer;
  }

  /** The family stays well formed exactly when the node taken over has an elder sibling or is a
      root: otherwise the node above still points at its old first child. */
  method InsertNodeShape(older: TreeNode, newer: TreeNode, ghost f: Shape, ghost i: nat) returns (r: TreeNode)
    requires Proper(f) && Linked(f) && i < |f.kids| && older == f.kids[i].node && newer !in Nodes(f)
    requires newer.parent == null && newer.child_head == null && newer.prev == null && newer.next == null
    modifies newer, older, older.prev
    ensures r == newer && Proper(Inserted(f, i, newer))
    ensures Linked(Inserted(f, i, newer)) <==> i > 0 || f.node == null
    ensures i == 0 ==> Linked(Inserted(Shape(null, f.kids), 0, newer))
  {
    ghost var top := if i == 0 then Shape(null, f.kids) else f;
    ghost var elder := older.prev;
    Allocated(f);
    InsertedProper(f, i, newer);
    Distinct(f, i, newer);
    Neighbours(f, i);
    r := InsertNode(older, newer);
    forall k: nat | k < |f.kids| ensures RelinkedAt(top, i, newer, k) {
      ghost var m := f.kids[k].node;
      assert m != newer && (m == older <==> k == i) && (m == elder <==> k + 1 == i);
      assert m.next == if k + 1 == i then newer else old(m.next);
      assert m.prev == if k == i then null else old(m.prev);
      assert m.parent == if k == i then newer else old(m.parent);
      assert old(KidLinked(f, k));
      assert Linked(f.kids[k]) by { OutOfTheWay(f, k); Undisturbed(f.kids[k]); }
    }
    InsertedLinked(top, i, newer);
  }

  /** The new node is none of the operands, and operands at different places are different. */
  lemma Distinct(f: Shape, i: nat, n: TreeNode)
    requires Proper(f) && i < |f.kids| && n !in Nodes(f)
    ensures forall k: nat :: k < |f.kids| ==>
              var m := f.kids[k].node;
              && m != null && m != n && (m == f.kids[i].node <==> k == i)
              && (i > 0 ==> (m == f.kids[i-1].node <==> k + 1 == i))
  {
    forall k: nat | k < |f.kids| ensures f.kids[k].node != null && f.kids[k].node != n {
      KidNodeIn(f, k);
    }
    forall k: nat | k < |f.kids| ensures f.kids[k].node == f.kids[i].node <==> k == i {
      KidNodeDiffers(f, k, i);
    }
    if i > 0 {
      var e := i - 1;
      forall k: nat | k < |f.kids| ensures f.kids[k].node == f.kids[e].node <==> k == e {
        KidNodeDiffers(f, k, e);
      }
    }
  }
}
