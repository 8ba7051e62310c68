/** `~` from outside: it is exactly the least congruence with the three rewrites, so it keeps
    the value of an expression under every interpretation that respects them. */
module Meaning {
  import opened Trees

  /** `ys` lists the same operands as `xs` in another order. */
  ghost predicate Permuted<T(!new)>(xs: seq<T>, ys: seq<T>) {
    && |xs| == |ys|
    && exists f :: IsMap(f, |xs|) && Injective(f) && forall i :: 0 <= i < |xs| ==> xs[i] == ys[f[i]]
  }

  /** One of the three rewrites, at the root. */
  ghost predicate Rewrites(s: Tree, t: Tree) {
    || (IsCommutative(s.name) && t.name == s.name && Permuted(s.kids, t.kids))
    || (|s.kids| == 2 && t.kids == [s.kids[1], s.kids[0]]
        && ( || (IsEquality(s.name) && t.name == s.name)
             || (IsRelation(s.name) && t.name == FlipName(s.name))))
  }

  ghost predicate Pointwise(r: (Tree, Tree) -> bool, xs: seq<Tree>, ys: seq<Tree>) {
    |xs| == |ys| && forall i :: 0 <= i < |xs| ==> r(xs[i], ys[i])
  }

  /** An equivalence closed under putting equivalent operands into a node, and under the rewrites. */
  ghost predicate Congruence(r: (Tree, Tree) -> bool) {
    && (forall t :: r(t, t))
    && (forall s, t :: r(s, t) ==> r(t, s))
    && (forall s, t, u :: r(s, t) && r(t, u) ==> r(s, u))
    && (forall name, xs, ys :: Pointwise(r, xs, ys) ==> r(Node(name, xs), Node(name, ys)))
    && (forall s, t :: Rewrites(s, t) ==> r(s, t))
  }

  lemma RewritesIsEquiv(s: Tree, t: Tree)
    requires Rewrites(s, t)
    ensures Equiv(s, t)
  {
    forall k | k in s.kids ensures Equiv(k, k) { EquivRefl(k); }
    if IsCommutative(s.name) && t.name == s.name && Permuted(s.kids, t.kids) {
      var f :| IsMap(f, |s.kids|) && Injective(f) && forall i :: 0 <= i < |s.kids| ==> s.kids[i] == t.kids[f[i]];
      EquivIntro(s, t, f);
    } else {
      SwapWay(s.name, t.name);
      EquivIntro(s, t, [1, 0]);
    }
  }

  lemma PointwiseIsEquiv(name: string, xs: seq<Tree>, ys: seq<Tree>)
    requires Pointwise((s, t) => Equiv(s, t), xs, ys)
    ensures Equiv(Node(name, xs), Node(name, ys))
  {
    forall i | 0 <= i < |xs| ensures Equiv(xs[i], ys[i]) {
      assert ((s, t) => Equiv(s, t))(xs[i], ys[i]);
    }
    EquivIntro(Node(name, xs), Node(name, ys), Identity(|xs|));
  }

  /** `~` is a congruence that contains the rewrites ... */
  lemma EquivIsCongruence()
    ensures Congruence((s, t) => Equiv(s, t))
  {
    forall t ensures Equiv(t, t) { EquivRefl(t); }
    forall s, t | Equiv(s, t) ensures Equiv(t, s) { EquivSym(s, t); }
    forall s, t, u | Equiv(s, t) && Equiv(t, u) ensures Equiv(s, u) { EquivTrans(s, t, u); }
    forall s, t | Rewrites(s, t) ensures Equiv(s, t) { RewritesIsEquiv(s, t); }
    forall name, xs, ys | Pointwise((s, t) => Equiv(s, t), xs, ys)
      ensures Equiv(Node(name, xs), Node(name, ys))
    {
      PointwiseIsEquiv(name, xs, ys);
    }
  }

  /** A way between two names is one of the rewrites, or no change at all. */
  lemma WayRewrites(sn: string, t: Tree, f: seq<nat>)
    requires Pairing(sn, t.name, |t.kids|, f)
    ensures var u := Node(sn, seq(|f|, i requires 0 <= i < |f| => t.kids[f[i]]));
            u == t || Rewrites(u, t)
  {
    var u := Node(sn, seq(|f|, i requires 0 <= i < |f| => t.kids[f[i]]));
    var m := Compared(sn, t.name);
    if m.same && m.commutative {
      assert Permuted(u.kids, t.kids);
    } else if m.same && f == Identity(|f|) {
      assert u.kids == t.kids;
    } else {
      assert f == [1, 0];
      if m.mirrored { MirrorsTwice(sn, t.name); }
    }
  }

  /** ... and every congruence that contains the rewrites contains `~`. */
  lemma {:induction false} EquivIsLeast(r: (Tree, Tree) -> bool, s: Tree, t: Tree)
    requires Congruence(r) && Equiv(s, t)
    ensures r(s, t)
    decreases s
  {
    var f :| Pairing(s.name, t.name, |s.kids|, f)
          && forall i {:trigger f[i]} :: 0 <= i < |s.kids| ==> Equiv(s.kids[i], t.kids[f[i]]);
    var u := Node(s.name, seq(|f|, i requires 0 <= i < |f| => t.kids[f[i]]));
    forall i | 0 <= i < |s.kids| ensures r(s.kids[i], u.kids[i]) {
      EquivIsLeast(r, s.kids[i], t.kids[f[i]]);
    }
    assert Pointwise(r, s.kids, u.kids);
    assert r(Node(s.name, s.kids), u);
    WayRewrites(s.name, t, f);
  }

  // ---------------------------------------------------------------- the operators by name

  /** Which operators stand for which when their two operands change places. */
  predicate Exchanged(sn: string, tn: string) {
    || (sn == tn && (sn == "+" || sn == "*" || sn == "|" || sn == "&" || sn == "||" || sn == "&&"
                     || sn == "==" || sn == "!="))
    || (sn == "<" && tn == ">") || (sn == ">" && tn == "<")
    || (sn == "<=" && tn == ">=") || (sn == ">=" && tn == "<=")
  }

  /** The first character is all that turning a name round changes. */
  lemma FlipNameIs(rest: string)
    ensures FlipName("<" + rest) == ">" + rest && FlipName(">" + rest) == "<" + rest
    ensures rest == "" || (rest[0] != '<' && rest[0] != '>') ==> FlipName(rest) == rest
  {
    assert ("<" + rest)[1..] == rest && (">" + rest)[1..] == rest;
  }

  lemma FlippedRelations()
    ensures FlipName("<") == ">" && FlipName(">") == "<" && FlipName("<=") == ">=" && FlipName(">=") == "<="
  {
    FlipNameIs("");
    FlipNameIs("=");
    assert "<" + "" == "<" && ">" + "" == ">" && "<" + "=" == "<=" && ">" + "=" == ">=";
  }

  lemma MirrorsByName(sn: string, tn: string)
    ensures Mirrors(sn, tn) <==>
              (sn == "<" && tn == ">") || (sn == ">" && tn == "<")
              || (sn == "<=" && tn == ">=") || (sn == ">=" && tn == "<=")
  {
    FlippedRelations();
  }

  lemma ExchangedAtMost(sn: string, tn: string, x: Tree, y: Tree)
    requires !Equiv(x, y) && Equiv(Node(sn, [x, y]), Node(tn, [y, x]))
    ensures Exchanged(sn, tn)
  {
    var s, t := Node(sn, [x, y]), Node(tn, [y, x]);
    var f :| Pairing(sn, tn, 2, f) && forall i {:trigger f[i]} :: 0 <= i < 2 ==> Equiv(s.kids[i], t.kids[f[i]]);
    assert f[0] == 1 != Identity(2)[0];
    MirrorsByName(sn, tn);
  }

  lemma ExchangedAtLeast(sn: string, tn: string, x: Tree, y: Tree)
    requires Exchanged(sn, tn)
    ensures Equiv(Node(sn, [x, y]), Node(tn, [y, x]))
  {
    MirrorsByName(sn, tn);
    EquivRefl(x);
    EquivRefl(y);
    EquivIntro(Node(sn, [x, y]), Node(tn, [y, x]), [1, 0]);
  }

  /** Two different operands may change places under exactly these operators. */
  lemma ExchangedExactly(sn: string, tn: string, x: Tree, y: Tree)
    requires !Equiv(x, y)
    ensures Equiv(Node(sn, [x, y]), Node(tn, [y, x])) <==> Exchanged(sn, tn)
  {
    if Equiv(Node(sn, [x, y]), Node(tn, [y, x])) {
      ExchangedAtMost(sn, tn, x, y);
    } else if Exchanged(sn, tn) {
      ExchangedAtLeast(sn, tn, x, y);
    }
  }

  /** Equivalent trees have as many operands, and the same name but for two-operand relations. */
  lemma NamesOfEquiv(s: Tree, t: Tree)
    requires Equiv(s, t)
    ensures |s.kids| == |t.kids|
    ensures s.name == t.name || (|s.kids| == 2 && Exchanged(s.name, t.name))
  {
    MirrorsByName(s.name, t.name);
  }

  // ---------------------------------------------------------------- evaluation

  /** The value of an expression, given what each node name does to the values of its operands. */
  function Eval<V>(op: (string, seq<V>) -> V, t: Tree): V
    decreases t
  {
    op(t.name, seq(|t.kids|, i requires 0 <= i < |t.kids| => Eval(op, t.kids[i])))
  }

  /** The interpretation ignores what the rewrites change. */
  ghost predicate Respects<V(!new)>(op: (string, seq<V>) -> V) {
    && (forall name, xs, ys :: IsCommutative(name) && Permuted(xs, ys) ==> op(name, xs) == op(name, ys))
    && (forall name, x, y :: IsEquality(name) ==> op(name, [x, y]) == op(name, [y, x]))
    && (forall name, x, y :: IsRelation(name) ==> op(name, [x, y]) == op(FlipName(name), [y, x]))
  }

  ghost predicate SameValue<V(!new)>(op: (string, seq<V>) -> V, s: Tree, t: Tree) {
    Eval(op, s) == Eval(op, t)
  }

  lemma RewritesKeepValue<V(!new)>(op: (string, seq<V>) -> V, s: Tree, t: Tree)
    requires Respects(op) && Rewrites(s, t)
    ensures SameValue(op, s, t)
  {
    var xs := seq(|s.kids|, i requires 0 <= i < |s.kids| => Eval(op, s.kids[i]));
    var ys := seq(|t.kids|, i requires 0 <= i < |t.kids| => Eval(op, t.kids[i]));
    if IsCommutative(s.name) && t.name == s.name && Permuted(s.kids, t.kids) {
      var f :| IsMap(f, |s.kids|) && Injective(f) && forall i :: 0 <= i < |s.kids| ==> s.kids[i] == t.kids[f[i]];
      assert forall i :: 0 <= i < |xs| ==> xs[i] == ys[f[i]];
      assert Permuted(xs, ys);
    } else {
      assert xs == [xs[0], xs[1]] && ys == [xs[1], xs[0]];
    }
  }

  lemma OperandsFixValue<V(!new)>(op: (string, seq<V>) -> V, name: string, xs: seq<Tree>, ys: seq<Tree>)
    requires |xs| == |ys| && forall i :: 0 <= i < |xs| ==> SameValue(op, xs[i], ys[i])
    ensures SameValue(op, Node(name, xs), Node(name, ys))
  {
    var s, t := Node(name, xs), Node(name, ys);
    var us := seq(|s.kids|, i requires 0 <= i < |s.kids| => Eval(op, s.kids[i]));
    var vs := seq(|t.kids|, i requires 0 <= i < |t.kids| => Eval(op, t.kids[i]));
    forall i | 0 <= i < |xs| ensures us[i] == vs[i] { assert SameValue(op, xs[i], ys[i]); }
    assert us == vs;
  }

  /** Equivalent expressions have the same value under every interpretation that respects the rewrites. */
  lemma EquivKeepsValue<V(!new)>(op: (string, seq<V>) -> V, s: Tree, t: Tree)
    requires Respects(op) && Equiv(s, t)
    ensures Eval(op, s) == Eval(op, t)
  {
    var r := (x, y) => SameValue(op, x, y);
    forall name, xs, ys | Pointwise(r, xs, ys) ensures r(Node(name, xs), Node(name, ys)) {
      forall i | 0 <= i < |xs| ensures SameValue(op, xs[i], ys[i]) { assert r(xs[i], ys[i]); }
      OperandsFixValue(op, name, xs, ys);
    }
    forall x, y | Rewrites(x, y) ensures r(x, y) { RewritesKeepValue(op, x, y); }
    EquivIsLeast(r, s, t);
  }
}
