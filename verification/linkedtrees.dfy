/** The child/sibling linked trees of blank.h: nodes with parent, child, prev and next pointers,
    the walkers over them, and the two operations that relink them. */
module LinkedTrees {
  import opened Trees

  class TreeNode {
    var name: string
    var parent: TreeNode?
    var child_head: TreeNode?
    var prev: TreeNode?
    var next: TreeNode?

    /** create_node: a fresh node with no links. */
    constructor (name: string)
      ensures this.name == name && parent == null && child_head == null && prev == null && next == null
    {
      this.name := name;
      parent, child_head, prev, next := null, null, null, null;
    }
  }

  /** Which nodes hang where. The list of root siblings is the family of the node `null`. */
  datatype Shape = Shape(node: TreeNode?, kids: seq<Shape>)

  ghost function Nodes(f: Shape): set<TreeNode>
    decreases f, 1
  {
    (if f.node == null then {} else {f.node}) + Below(f)
  }

  ghost function Below(f: Shape): set<TreeNode>
    decreases f, 0
  {
    set i, n | 0 <= i < |f.kids| && n in Nodes(f.kids[i]) :: n
  }

  lemma KidNodes(f: Shape, i: nat)
    requires i < |f.kids|
    ensures Nodes(f.kids[i]) <= Below(f) <= Nodes(f)
  {
  }

  /** Every node occurs once. */
  ghost predicate Proper(f: Shape) {
    && (forall i {:trigger f.kids[i].node} :: 0 <= i < |f.kids| ==> f.kids[i].node != null)
    && (forall i {:trigger Proper(f.kids[i])} :: 0 <= i < |f.kids| ==> Proper(f.kids[i]))
    && (forall i {:trigger Nodes(f.kids[i])} :: 0 <= i < |f.kids| ==> f.node !in Nodes(f.kids[i]))
    && (forall i, j {:trigger Nodes(f.kids[i]), Nodes(f.kids[j])} ::
          0 <= i < j < |f.kids| ==> Nodes(f.kids[i]) !! Nodes(f.kids[j]))
  }

  ghost function NodeAt(kids: seq<Shape>, i: int): TreeNode? {
    if 0 <= i < |kids| then kids[i].node else null
  }

  /** prev and next are inverse, and only the first sibling knows the parent. */
  ghost predicate SiblingLinks(f: Shape, i: nat)
    requires i < |f.kids| && f.kids[i].node != null
    reads f.kids[i].node
  {
    var n := f.kids[i].node;
    && n.prev == NodeAt(f.kids, i - 1)
    && n.next == NodeAt(f.kids, i + 1)
    && n.parent == if i == 0 then f.node else null
  }

  /** Operand i of `f` is linked to its siblings, and so is everything below it. */
  ghost predicate KidLinked(f: Shape, i: nat)
    requires Proper(f) && i < |f.kids|
    reads Nodes(f)
    decreases f, 0
  {
    KidNodes(f, i);
    SiblingLinks(f, i) && Linked(f.kids[i])
  }

  /** The heap has the shape `f`, from the children of f.node downwards. */
  ghost predicate Linked(f: Shape)
    requires Proper(f)
    reads Nodes(f)
    decreases f, 1
  {
    && (f.node != null ==> f.node.child_head == NodeAt(f.kids, 0))
    && forall i: nat {:trigger KidLinked(f, i)} :: i < |f.kids| ==> KidLinked(f, i)
  }

  /** The expression stored in the heap at this shape. */
  ghost function Value(f: Shape): (t: Tree)
    requires Proper(f)
    reads Nodes(f)
    ensures |t.kids| == |f.kids| && forall i :: 0 <= i < |f.kids| ==> t.kids[i] == Value(f.kids[i])
    decreases f
  {
    Node(if f.node == null then "" else f.node.name,
         seq(|f.kids|, i requires 0 <= i < |f.kids| reads Nodes(f) => KidNodes(f, i); Value(f.kids[i])))
  }

  lemma {:induction false} Allocated(f: Shape)
    ensures forall n :: n in Nodes(f) ==> allocated(n)
    decreases f
  {
    forall n | n in Below(f) ensures allocated(n) {
      var i: nat :| i < |f.kids| && n in Nodes(f.kids[i]);
      Allocated(f.kids[i]);
    }
  }

  /** Relinking a node among its siblings does not disturb what hangs below it. */
  twostate lemma Undisturbed(f: Shape)
    requires Proper(f) && old(Linked(f))
    requires f.node != null ==> f.node.child_head == old(f.node.child_head)
    requires forall n :: n in Below(f) ==> old(allocated(n)) && unchanged(n)
    ensures Linked(f) && Value(f).kids == old(Value(f)).kids
    ensures (f.node != null ==> f.node.name == old(f.node.name)) ==> Value(f) == old(Value(f))
  {
    forall i: nat | i < |f.kids| ensures KidLinked(f, i) && Value(f.kids[i]) == old(Value(f.kids[i])) {
      KidNodes(f, i);
      assert f.kids[i].node in Nodes(f.kids[i]);
      assert old(KidLinked(f, i));
    }
    assert Value(f).kids == old(Value(f)).kids;
  }

  // ---------------------------------------------------------------- walkers

  lemma Neighbours(f: Shape, i: nat)
    requires Proper(f) && Linked(f) && i < |f.kids|
    ensures Linked(f.kids[i]) && f.kids[i].node != null && SiblingLinks(f, i)
    ensures i > 0 ==> f.kids[i].node.prev == f.kids[i-1].node != null
    ensures i == 0 ==> f.kids[i].node.prev == null
    ensures i + 1 < |f.kids| ==> f.kids[i].node.next == f.kids[i+1].node != null
    ensures i + 1 == |f.kids| ==> f.kids[i].node.next == null
  {
    assert KidLinked(f, i);
  }

  lemma NextOf(f: Shape, i: nat)
    requires Proper(f) && Linked(f) && i < |f.kids|
    ensures f.kids[i].node != null && f.kids[i].node.next == NodeAt(f.kids, i + 1)
  {
    assert KidLinked(f, i);
  }

  lemma ChildHead(f: Shape, i: nat)
    requires Proper(f) && Linked(f) && i < |f.kids|
    ensures f.kids[i].node != null && (f.kids[i].kids == [] <==> f.kids[i].node.child_head == null)
  {
    assert KidLinked(f, i) && Proper(f.kids[i]) && Linked(f.kids[i]);
    assert f.kids[i].kids != [] ==> f.kids[i].kids[0].node != null;
  }

  /** First sibling, by prev links. */
  method FirstSibling(cur: TreeNode, ghost f: Shape, ghost i: nat) returns (first: TreeNode)
    requires Proper(f) && Linked(f) && i < |f.kids| && cur == f.kids[i].node
    ensures first == f.kids[0].node
  {
    first := cur;
    ghost var k: nat := i;
    Neighbours(f, k);
    while first.prev != null
      invariant Linked(f) && k < |f.kids| && first == f.kids[k].node && (first.prev == null <==> k == 0)
      decreases k
    {
      Neighbours(f, k);
      Neighbours(f, k - 1);
      first, k := first.prev, k - 1;
    }
  }

  /** get_sibling_cnt: the number of the other siblings, from whichever sibling it is asked. */
  method GetSiblingCnt(cur: TreeNode, ghost f: Shape, ghost i: nat) returns (cnt: int)
    requires Proper(f) && Linked(f) && i < |f.kids| && cur == f.kids[i].node
    ensures cnt == |f.kids| - 1
  {
    Allocated(f);
    var at := FirstSibling(cur, f, i);
    cnt := 0;
    Neighbours(f, 0);
    while at.next != null
      invariant 0 <= cnt < |f.kids| && at == f.kids[cnt].node && (at.next == null <==> cnt == |f.kids| - 1)
      decreases |f.kids| - cnt
    {
      Neighbours(f, cnt);
      Neighbours(f, cnt + 1);
      at, cnt := at.next, cnt + 1;
    }
  }

  /** get_operator: the node above, from any sibling. */
  method GetOperator(cur: TreeNode, ghost f: Shape, ghost i: nat) returns (op: TreeNode?)
    requires Proper(f) && Linked(f) && i < |f.kids| && cur == f.kids[i].node
    ensures op == f.node
  {
    Allocated(f);
    var first := FirstSibling(cur, f, i);
    Neighbours(f, 0);
    op := first.parent;
  }

  /** get_last_child: the last child, or the last sibling of a node without children. */
  method GetLastChild(cur: TreeNode, ghost f: Shape, ghost i: nat) returns (last: TreeNode)
    requires Proper(f) && Linked(f) && i < |f.kids| && cur == f.kids[i].node
    ensures last == if f.kids[i].kids == [] then f.kids[|f.kids|-1].node
                    else f.kids[i].kids[|f.kids[i].kids|-1].node
  {
    last := cur;
    ghost var g, k := f, i;
    Neighbours(f, i);
    ChildHead(f, i);
    if cur.child_head != null {
      last, g, k := cur.child_head, f.kids[i], 0;
    }
    Neighbours(g, k);
    while last.next != null
      invariant Proper(g) && Linked(g) && k < |g.kids| && last == g.kids[k].node
      invariant last.next == null <==> k == |g.kids| - 1
      decreases |g.kids| - k
    {
      Neighbours(g, k);
      Neighbours(g, k + 1);
      last, k := last.next, k + 1;
    }
  }

  /** A chain of families, each hanging below an operand of the one before. */
  ghost predicate Descent(path: seq<Shape>) {
    && path != []
    && forall k :: 0 < k < |path| ==> path[k] in path[k-1].kids
  }

  /** Every node below a family is an operand at the end of a descent from it. */
  lemma {:induction false} DescentTo(f: Shape, n: TreeNode) returns (path: seq<Shape>, i: nat)
    requires n in Below(f)
    ensures Descent(path) && path[0] == f
    ensures i < |path[|path|-1].kids| && path[|path|-1].kids[i].node == n
    decreases f
  {
    var k: nat :| k < |f.kids| && n in Nodes(f.kids[k]);
    if f.kids[k].node == n {
      path, i := [f], k;
    } else {
      var rest, at := DescentTo(f.kids[k], n);
      path, i := [f] + rest, at;
    }
  }

  lemma {:induction false} DescentLinked(path: seq<Shape>, k: nat)
    requires Descent(path) && Proper(path[0]) && Linked(path[0]) && k < |path|
    ensures Proper(path[k]) && Linked(path[k])
    decreases k
  {
    if k > 0 {
      DescentLinked(path, k - 1);
      var i: nat :| i < |path[k-1].kids| && path[k-1].kids[i] == path[k];
      assert KidLinked(path[k-1], i);
    }
  }

  /** get_root: the first root sibling, from every node of the forest. */
  method GetRoot(cur: TreeNode, ghost path: seq<Shape>, ghost i: nat) returns (root: TreeNode)
    requires Descent(path) && path[0].node == null && Proper(path[0]) && Linked(path[0])
    requires i < |path[|path|-1].kids| && cur == path[|path|-1].kids[i].node
    ensures path[0].kids != [] && root == path[0].kids[0].node
    decreases |path|
  {
    ghost var n := |path| - 1;
    DescentLinked(path, n);
    Allocated(path[0]);
    Allocated(path[n]);
    root := FirstSibling(cur, path[n], i);
    Neighbours(path[n], 0);
    if n > 0 { DescentLinked(path, n - 1); }
    if root.parent != null {
      ghost var j: nat :| j < |path[n-1].kids| && path[n-1].kids[j] == path[n];
      root := GetRoot(root.parent, path[..n], j);
    }
  }

  /** Neither the node above, nor an operand's own node, nor another operand's is below the operand. */
  lemma OutOfTheWay(f: Shape, i: nat)
    requires Proper(f) && i < |f.kids|
    ensures forall n :: n in Below(f.kids[i]) ==> n in Nodes(f) && n != f.node && n != f.kids[i].node
    ensures forall n, j :: n in Below(f.kids[i]) && 0 <= j < |f.kids| ==> n != f.kids[j].node
  {
    KidNodes(f, i);
    NotBelowItself(f.kids[i]);
    forall n, j | n in Below(f.kids[i]) && 0 <= j < |f.kids| && j != i ensures n != f.kids[j].node {
      assert Nodes(f.kids[i]) !! Nodes(f.kids[j]);
      assert f.kids[j].node in Nodes(f.kids[j]);
    }
  }

  lemma NotBelowItself(f: Shape)
    requires Proper(f)
    ensures f.node !in Below(f)
  {
    forall i | 0 <= i < |f.kids| ensures f.node !in Nodes(f.kids[i]) {}
  }

  // ---------------------------------------------------------------- relinking

  /** change_sibling: the second child becomes the first, the first the last. */
  method ChangeSibling(parent: TreeNode)
    requires parent.child_head != null && parent.child_head.next != null
    requires parent.child_head.next != parent.child_head && parent !in {parent.child_head, parent.child_head.next}
    modifies parent`child_head, parent.child_head, parent.child_head.next
    ensures var a, b := old(parent.child_head), old(parent.child_head.next);
            && parent.child_head == b && b.parent == parent && b.prev == null && b.next == a
            && a.parent == null && a.prev == b && a.next == null
            && a.name == old(a.name) && a.child_head == old(a.child_head)
            && b.name == old(parent.child_head.next.name) && b.child_head == old(parent.child_head.next.child_head)
  {
    var tmp := parent.child_head;
    parent.child_head := parent.child_head.next;
    parent.child_head.parent := parent;
    parent.child_head.prev := null;
    parent.child_head.next := tmp;
    parent.child_head.next.prev := parent.child_head;
    parent.child_head.next.next := null;
    parent.child_head.next.parent := null;
  }

  /** The shape change_sibling leaves behind: later children are no longer reachable. */
  method ChangeSiblingShape(parent: TreeNode, ghost f: Shape) returns (ghost g: Shape)
    requires Proper(f) && Linked(f) && f.node == parent && |f.kids| >= 2
    modifies parent`child_head, f.kids[0].node, f.kids[1].node
    ensures g == Shape(parent, [f.kids[1], f.kids[0]])
    ensures Proper(g) && Linked(g) && Nodes(g) <= Nodes(f) && Below(g) <= Below(f)
    ensures Value(g) == Node(parent.name, [old(Value(f.kids[1])), old(Value(f.kids[0]))])
    ensures parent.prev == old(parent.prev) && parent.next == old(parent.next) && parent.parent == old(parent.parent)
  {
    ghost var a, b := f.kids[0], f.kids[1];
    g := Shape(parent, [b, a]);
    SwappedProper(f, g);
    Neighbours(f, 0);
    Neighbours(f, 1);
    Allocated(f);
    assert Nodes(a) !! Nodes(b) && a.node in Nodes(a) && b.node in Nodes(b);
    assert parent != a.node && parent != b.node && a.node != b.node;
    ChangeSibling(parent);
    assert parent.prev == old(parent.prev) && parent.next == old(parent.next) && parent.parent == old(parent.parent);
    assert Linked(a) && Value(a) == old(Value(a)) by { OutOfTheWay(f, 0); Undisturbed(a); }
    assert Linked(b) && Value(b) == old(Value(b)) by { OutOfTheWay(f, 1); Undisturbed(b); }
    SwappedLinked(g);
  }

  lemma SwappedProper(f: Shape, g: Shape)
    requires Proper(f) && |f.kids| >= 2 && g == Shape(f.node, [f.kids[1], f.kids[0]])
    ensures Proper(g) && Nodes(g) <= Nodes(f) && Below(g) <= Below(f)
  {
    assert g.kids[0] == f.kids[1] && g.kids[1] == f.kids[0];
  }

  lemma SwappedLinked(g: Shape)
    requires Proper(g) && |g.kids| == 2 && g.node != null
    requires Linked(g.kids[0]) && Linked(g.kids[1])
    requires var b, a := g.kids[0].node, g.kids[1].node;
             && g.node.child_head == b && b.parent == g.node && b.prev == null && b.next == a
             && a.parent == null && a.prev == b && a.next == null
    ensures Linked(g) && Value(g) == Node(g.node.name, [Value(g.kids[0]), Value(g.kids[1])])
  {
    assert KidLinked(g, 0) && KidLinked(g, 1);
    assert Value(g).kids == [Value(g.kids[0]), Value(g.kids[1])];
  }
}
