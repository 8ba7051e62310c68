/** What the answer checker's search decides (`Loose`) and exactly how far that is from `~`. */
module Matching {
  import opened Trees

  lemma LooseIntro(s: Tree, t: Tree, f: seq<nat>)
    requires |s.kids| == |t.kids| && Way(s.name, t.name, |s.kids|, f)
    requires forall i {:trigger f[i]} :: 0 <= i < |s.kids| ==> Loose(s.kids[i], t.kids[f[i]])
    ensures Loose(s, t)
  {
  }

  /** `~` implies a loose match. */
  lemma {:induction false} EquivIsLoose(s: Tree, t: Tree)
    requires Equiv(s, t)
    ensures Loose(s, t)
    decreases s
  {
    var f :| Pairing(s.name, t.name, |s.kids|, f)
          && forall i {:trigger f[i]} :: 0 <= i < |s.kids| ==> Equiv(s.kids[i], t.kids[f[i]]);
    forall i | 0 <= i < |s.kids| ensures Loose(s.kids[i], t.kids[f[i]]) {
      EquivIsLoose(s.kids[i], t.kids[f[i]]);
    }
    LooseIntro(s, t, f);
  }

  /** Replacing the answer by an equivalent one keeps a loose match. */
  lemma {:induction false} LooseThenEquiv(s: Tree, t: Tree, u: Tree)
    requires Loose(s, t) && Equiv(t, u)
    ensures Loose(s, u)
    decreases s
  {
    var n := |s.kids|;
    var f :| Way(s.name, t.name, n, f)
          && forall i {:trigger f[i]} :: 0 <= i < n ==> Loose(s.kids[i], t.kids[f[i]]);
    var g :| Pairing(t.name, u.name, n, g)
          && forall i {:trigger g[i]} :: 0 <= i < n ==> Equiv(t.kids[i], u.kids[g[i]]);
    WayThen(s.name, t.name, u.name, n, f, g);
    var h := Then(f, g);
    forall i | 0 <= i < n ensures Loose(s.kids[i], u.kids[h[i]]) {
      LooseThenEquiv(s.kids[i], t.kids[f[i]], u.kids[g[f[i]]]);
    }
    LooseIntro(s, u, h);
  }

  /** Replacing the student's tree by an equivalent one keeps a loose match. */
  lemma {:induction false} EquivThenLoose(s: Tree, t: Tree, u: Tree)
    requires Equiv(s, t) && Loose(t, u)
    ensures Loose(s, u)
    decreases s
  {
    var n := |s.kids|;
    var f :| Pairing(s.name, t.name, n, f)
          && forall i {:trigger f[i]} :: 0 <= i < n ==> Equiv(s.kids[i], t.kids[f[i]]);
    var g :| Way(t.name, u.name, n, g)
          && forall i {:trigger g[i]} :: 0 <= i < n ==> Loose(t.kids[i], u.kids[g[i]]);
    WayThen(s.name, t.name, u.name, n, f, g);
    var h := Then(f, g);
    forall i | 0 <= i < n ensures Loose(s.kids[i], u.kids[h[i]]) {
      EquivThenLoose(s.kids[i], t.kids[f[i]], u.kids[g[f[i]]]);
    }
    LooseIntro(s, u, h);
  }

  // ---------------------------------------------------------------- soundness and its exact limit

  /** Without repeated operands a loose match is an equivalence. */
  lemma {:induction false} LooseIsEquiv(s: Tree, t: Tree)
    requires Loose(s, t) && NoRepeats(s)
    ensures Equiv(s, t)
    decreases s
  {
    var f :| Way(s.name, t.name, |s.kids|, f)
          && forall i {:trigger f[i]} :: 0 <= i < |s.kids| ==> Loose(s.kids[i], t.kids[f[i]]);
    forall i | 0 <= i < |s.kids| ensures Equiv(s.kids[i], t.kids[f[i]]) {
      LooseIsEquiv(s.kids[i], t.kids[f[i]]);
    }
    forall i: nat, j: nat | i < j < |f| ensures f[i] != f[j] {
      if f[i] == f[j] {
        MergedOperands(s.name, t.name, |f|, f, i, j);
        EquivSym(s.kids[j], t.kids[f[j]]);
        EquivTrans(s.kids[i], t.kids[f[i]], s.kids[j]);
        assert false;
      }
    }
    EquivIntro(s, t, f);
  }

  /** Number of nodes, over a list of trees. */
  ghost function Size(ts: seq<Tree>): nat {
    if ts == [] then 0 else 1 + Size(ts[0].kids) + Size(ts[1..])
  }

  lemma {:induction false} SizeConcat(xs: seq<Tree>, ys: seq<Tree>)
    ensures Size(xs + ys) == Size(xs) + Size(ys)
    decreases |xs|
  {
    if xs == [] {
      assert xs + ys == ys;
    } else {
      assert (xs + ys)[1..] == xs[1..] + ys;
      SizeConcat(xs[1..], ys);
    }
  }

  lemma SizeSplit(xs: seq<Tree>, i: nat)
    requires i < |xs|
    ensures Size(xs) == Size(xs[..i]) + Size([xs[i]]) + Size(xs[i+1..])
  {
    var front, rest := xs[..i], [xs[i]] + xs[i+1..];
    assert Size(xs) == Size(front) + Size(rest) by {
      assert xs == front + rest;
      SizeConcat(front, rest);
    }
    SizeConcat([xs[i]], xs[i+1..]);
  }

  /** Lists matched one to one by equivalent trees have the same size. */
  lemma {:induction false} SizeAlong(xs: seq<Tree>, ys: seq<Tree>, f: seq<nat>)
    requires |f| == |xs| == |ys| && IsMap(f, |ys|) && Injective(f)
    requires forall i :: 0 <= i < |xs| ==> Equiv(xs[i], ys[f[i]])
    ensures Size(xs) == Size(ys)
    decreases xs
  {
    if xs != [] {
      var k, g := f[0], Rest(f);
      var zs := ys[..k] + ys[k+1..];
      RestIsInjective(f);
      forall i | 0 <= i < |g| ensures Equiv(xs[1..][i], zs[g[i]]) {
        assert f[i + 1] != k;
        assert xs[1..][i] == xs[i + 1] && zs[g[i]] == ys[f[i + 1]];
      }
      SizeAlong(xs[1..], zs, g);
      assert Size(ys) == Size(zs) + Size([ys[k]]) by {
        SizeConcat(ys[..k], ys[k+1..]);
        SizeSplit(ys, k);
      }
      assert Equiv(xs[0], ys[k]);
      EquivSameSize(xs[0], ys[k]);
    }
  }

  /** `~` keeps the number of nodes. */
  lemma {:induction false} EquivSameSize(s: Tree, t: Tree)
    requires Equiv(s, t)
    ensures Size([s]) == Size([t])
    decreases s
  {
    var f :| Pairing(s.name, t.name, |s.kids|, f)
          && forall i {:trigger f[i]} :: 0 <= i < |s.kids| ==> Equiv(s.kids[i], t.kids[f[i]]);
    SizeAlong(s.kids, t.kids, f);
  }

  lemma LooseWithOneChange(s: Tree, f: seq<nat>, k: nat, u: Tree)
    requires k < |s.kids| && Way(s.name, s.name, |s.kids|, f)
    requires forall i :: 0 <= i < |s.kids| && i != k ==> f[i] == i
    requires Loose(s.kids[k], if f[k] == k then u else s.kids[f[k]])
    ensures Loose(s, Node(s.name, s.kids[k := u]))
  {
    var t := Node(s.name, s.kids[k := u]);
    forall i | 0 <= i < |s.kids| ensures Loose(s.kids[i], t.kids[f[i]]) {
      if i != k {
        EquivRefl(s.kids[i]);
        EquivIsLoose(s.kids[i], s.kids[i]);
      }
    }
    LooseIntro(s, t, f);
  }

  // ---------------------------------------------------------------- a name that is not in the student's tree

  /** Some node has this name. */
  ghost predicate Mentions(t: Tree, name: string) {
    t.name == name || exists i :: 0 <= i < |t.kids| && Mentions(t.kids[i], name)
  }

  /** Only the names of relations can change. */
  lemma {:induction false} EquivMentions(s: Tree, t: Tree, name: string)
    requires Equiv(s, t) && Mentions(t, name) && !IsRelation(name)
    ensures Mentions(s, name)
    decreases s
  {
    var f :| Pairing(s.name, t.name, |s.kids|, f)
          && forall i {:trigger f[i]} :: 0 <= i < |s.kids| ==> Equiv(s.kids[i], t.kids[f[i]]);
    if t.name != name {
      var j :| 0 <= j < |t.kids| && Mentions(t.kids[j], name);
      var g := Inverse(f);
      assert f[g[j]] == j;
      EquivMentions(s.kids[g[j]], t.kids[j], name);
    }
  }

  /** The length of the longest name, over a list of trees. */
  function Longest(ts: seq<Tree>): nat {
    if ts == [] then 0
    else
      var n := if |ts[0].name| > Longest(ts[0].kids) then |ts[0].name| else Longest(ts[0].kids);
      if n > Longest(ts[1..]) then n else Longest(ts[1..])
  }

  lemma {:induction false} TooLong(ts: seq<Tree>, i: nat, name: string)
    requires i < |ts| && |name| > Longest(ts)
    ensures !Mentions(ts[i], name)
    decreases ts, i
  {
    if i > 0 {
      TooLong(ts[1..], i - 1, name);
    } else {
      forall k: nat | k < |ts[0].kids| ensures !Mentions(ts[0].kids[k], name) {
        TooLong(ts[0].kids, k, name);
      }
    }
  }

  /** A variable that no node of the tree is named after. */
  lemma FreshName(s: Tree) returns (name: string)
    ensures !Mentions(s, name) && !IsRelation(name)
  {
    name := seq(Longest([s]) + 3, _ => 'x');
    TooLong([s], 0, name);
  }

  /** Any student tree with a repeated operand is loosely matched by an answer that has a new variable for
      one operand. */
  lemma {:induction false} ImpostorNamed(s: Tree, name: string) returns (t: Tree)
    requires !NoRepeats(s)
    ensures Loose(s, t) && Mentions(t, name)
    decreases s
  {
    var n := |s.kids|;
    if i, j :| IsCommutative(s.name) && 0 <= i < j < n && Equiv(s.kids[i], s.kids[j]) {
      // put the new variable in the place of the second of the two operands and find that one at the first
      EquivSym(s.kids[i], s.kids[j]);
      EquivIsLoose(s.kids[j], s.kids[i]);
      LooseWay(s.name, n, i, j);
      LooseWithOneChange(s, Identity(n)[j := i], j, Node(name, []));
      t := Node(s.name, s.kids[j := Node(name, [])]);
      assert Mentions(t.kids[j], name);
    } else {
      var i: nat :| i < n && !NoRepeats(s.kids[i]);
      var u := ImpostorNamed(s.kids[i], name);
      LooseWithOneChange(s, Identity(n), i, u);
      t := Node(s.name, s.kids[i := u]);
      assert Mentions(t.kids[i], name);
    }
  }

  /** Any student tree with a repeated operand is loosely matched by some answer that is not equivalent. */
  lemma Impostor(s: Tree) returns (t: Tree)
    requires !NoRepeats(s)
    ensures Loose(s, t) && !Equiv(s, t)
  {
    var name := FreshName(s);
    t := ImpostorNamed(s, name);
    if Equiv(s, t) { EquivMentions(s, t, name); }
  }
}
