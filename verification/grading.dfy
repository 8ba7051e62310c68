/** compare_tree on values: the search rewrites the answer while it looks, so each call returns
    its verdict together with the answer it leaves behind. */
module Grading {
  import opened Trees
  import opened Matching
  import opened Wrappers

  /** Line 62 of blank.c turns the answer round whatever it is; the guarded program only turns a
      relation with two operands. */
  datatype Program = AsWritten | Guarded

  /** Crash: a missing operand is dereferenced. */
  datatype Outcome<T> = Crash | Done(ok: bool, left: T)

  /** change_sibling: the first two operands change places, later ones are cut off. */
  function ChangeSibling(kids: seq<Tree>): (r: Option<seq<Tree>>)
    ensures r.Some? ==> |r.value| == 2
  {
    if |kids| < 2 then None else Some([kids[1], kids[0]])
  }

  predicate TurnsRound(g: Program, s: Tree, a: Tree) {
    IsRelation(s.name) && s.name != a.name && (g == AsWritten || (IsRelation(a.name) && |a.kids| == 2))
  }

  function TurnRound(g: Program, s: Tree, a: Tree): Option<Tree> {
    if TurnsRound(g, s, a) then
      match ChangeSibling(a.kids)
      case None => None
      case Some(ks) => Some(Node(FlipName(a.name), ks))
    else Some(a)
  }

  /** One student node against one answer node, operands included. */
  function Compare(g: Program, s: Tree, a: Tree): Outcome<Tree>
    decreases s, |s.kids| + 3, 0, 0
  {
    match TurnRound(g, s, a)
    case None => Crash
    case Some(b) => Turned(g, s, b)
  }

  function Turned(g: Program, s: Tree, b: Tree): Outcome<Tree>
    decreases s, |s.kids| + 2, 0, 0
  {
    if s.name != b.name || |s.kids| != |b.kids| then Done(false, b)
    else if s.kids == [] then Done(true, b)
    else
      match CompareKids(g, s, b.kids)
      case Crash => Crash
      case Done(ok, ks) => Done(ok, Node(b.name, ks))
  }

  function CompareKids(g: Program, s: Tree, ys: seq<Tree>): (r: Outcome<seq<Tree>>)
    requires |s.kids| == |ys| > 0
    ensures r.Done? && r.ok ==> |r.left| == |ys|
    decreases s, |s.kids| + 1, 0, 0
  {
    if IsEquality(s.name) then
      match CompareFrom(g, s, 0, ys, 0)
      case Crash => Crash
      case Done(true, zs) => Done(true, zs)
      case Done(false, zs) =>
        match ChangeSibling(zs)
        case None => Crash
        case Some(ws) => CompareFrom(g, s, 0, ws, 0)
    else if IsCommutative(s.name) then Search(g, s, 0, ys, 0)
    else CompareFrom(g, s, 0, ys, 0)
  }

  /** Operand i of `s` against ys[j], then the operands of `s` behind it. */
  function CompareFrom(g: Program, s: Tree, i: nat, ys: seq<Tree>, j: nat): (r: Outcome<seq<Tree>>)
    requires i < |s.kids| && j < |ys|
    ensures r.Done? ==> |r.left| == |ys|
    ensures r.Done? && r.ok && i + 1 < |s.kids| ==> |s.kids| == |ys|
    decreases s, |s.kids| - i, |ys| - j, 0
  {
    match Compare(g, s.kids[i], ys[j])
    case Crash => Crash
    case Done(ok, y) => CompareRest(g, s, i, ys[j := y], j, ok)
  }

  /** What follows once operand i has been compared with ys[j]. */
  function CompareRest(g: Program, s: Tree, i: nat, ys: seq<Tree>, j: nat, ok: bool): (r: Outcome<seq<Tree>>)
    requires i < |s.kids| && j < |ys|
    ensures r.Done? ==> |r.left| == |ys|
    ensures r.Done? && r.ok && i + 1 < |s.kids| ==> |s.kids| == |ys|
    decreases s, |s.kids| - i, 0, 0
  {
    if i + 1 == |s.kids| then Done(ok, ys)
    else if |s.kids| != |ys| || !ok then Done(false, ys)
    else if IsCommutative(s.name) then Search(g, s, i + 1, ys, 0)
    else if j + 1 == |ys| then Done(false, ys)
    else CompareFrom(g, s, i + 1, ys, j + 1)
  }

  /** Tries ys[j], ys[j+1], ... for operand i until one lets the rest succeed too. */
  function Search(g: Program, s: Tree, i: nat, ys: seq<Tree>, j: nat): (r: Outcome<seq<Tree>>)
    requires i < |s.kids| && j < |ys|
    ensures r.Done? ==> |r.left| == |ys|
    ensures r.Done? && r.ok && i + 1 < |s.kids| ==> |s.kids| == |ys|
    decreases s, |s.kids| - i, |ys| - j, 1
  {
    match CompareFrom(g, s, i, ys, j)
    case Crash => Crash
    case Done(ok, zs) =>
      if ok || j + 1 == |ys| then Done(ok, zs) else Search(g, s, i, zs, j + 1)
  }

  // ---------------------------------------------------------------- what the guarded search decides

  ghost predicate AllEquiv(ys: seq<Tree>, zs: seq<Tree>) {
    |ys| == |zs| && forall k :: 0 <= k < |ys| ==> Equiv(ys[k], zs[k])
  }

  ghost predicate FoundFrom(x: Tree, ys: seq<Tree>, j: nat) {
    exists k :: j <= k < |ys| && Loose(x, ys[k])
  }

  /** Every operand of `s` behind operand i has its counterpart in `ys`. */
  ghost predicate RestFound(s: Tree, i: nat, ys: seq<Tree>)
    requires |s.kids| == |ys|
  {
    forall k :: i < k < |s.kids| ==>
      if IsCommutative(s.name) then FoundFrom(s.kids[k], ys, 0) else Loose(s.kids[k], ys[k])
  }

  lemma AllEquivRefl(ys: seq<Tree>)
    ensures AllEquiv(ys, ys)
  {
    forall k | 0 <= k < |ys| ensures Equiv(ys[k], ys[k]) { EquivRefl(ys[k]); }
  }

  lemma AllEquivTrans(ys: seq<Tree>, zs: seq<Tree>, ws: seq<Tree>)
    requires AllEquiv(ys, zs) && AllEquiv(zs, ws)
    ensures AllEquiv(ys, ws)
  {
    forall k | 0 <= k < |ys| ensures Equiv(ys[k], ws[k]) { EquivTrans(ys[k], zs[k], ws[k]); }
  }

  lemma LooseSame(x: Tree, y: Tree, z: Tree)
    requires Equiv(y, z)
    ensures Loose(x, y) == Loose(x, z)
  {
    EquivSym(y, z);
    if Loose(x, y) { LooseThenEquiv(x, y, z); }
    if Loose(x, z) { LooseThenEquiv(x, z, y); }
  }

  lemma FoundSame(x: Tree, ys: seq<Tree>, zs: seq<Tree>, j: nat)
    requires AllEquiv(ys, zs)
    ensures FoundFrom(x, ys, j) == FoundFrom(x, zs, j)
  {
    forall k | 0 <= k < |ys| ensures Loose(x, ys[k]) == Loose(x, zs[k]) { LooseSame(x, ys[k], zs[k]); }
  }

  lemma RestSame(s: Tree, i: nat, ys: seq<Tree>, zs: seq<Tree>)
    requires AllEquiv(ys, zs) && |s.kids| == |ys|
    ensures RestFound(s, i, ys) == RestFound(s, i, zs)
  {
    forall k | i < k < |s.kids|
      ensures FoundFrom(s.kids[k], ys, 0) == FoundFrom(s.kids[k], zs, 0)
      ensures Loose(s.kids[k], ys[k]) == Loose(s.kids[k], zs[k])
    {
      FoundSame(s.kids[k], ys, zs, 0);
      LooseSame(s.kids[k], ys[k], zs[k]);
    }
  }

  // ------- operands of one node, matched loosely

  /** Positional operands. */
  lemma LooseByPosition(s: Tree, t: Tree)
    requires s.name == t.name && |s.kids| == |t.kids| && !IsCommutative(s.name)
    requires IsEquality(s.name) ==> |s.kids| != 2
    ensures Loose(s, t) <==> forall k :: 0 <= k < |s.kids| ==> Loose(s.kids[k], t.kids[k])
  {
    var n := |s.kids|;
    if Loose(s, t) {
      var f :| Way(s.name, t.name, n, f) && forall i {:trigger f[i]} :: 0 <= i < n ==> Loose(s.kids[i], t.kids[f[i]]);
      PlainWay(s.name, n, f);
      forall k | 0 <= k < n ensures Loose(s.kids[k], t.kids[k]) { assert f[k] == k; }
    }
    if forall k :: 0 <= k < n ==> Loose(s.kids[k], t.kids[k]) {
      LooseIntro(s, t, Identity(n));
    }
  }

  lemma PlainWay(name: string, n: nat, f: seq<nat>)
    requires Way(name, name, n, f) && !IsCommutative(name)
    ensures f == Identity(n) || (IsEquality(name) && f == [1, 0])
  {
    if Mirrors(name, name) { MirrorsTwice(name, name); }
  }

  lemma LooseBySwap(s: Tree, t: Tree)
    requires s.name == t.name && |s.kids| == |t.kids| == 2 && IsEquality(s.name) && !IsCommutative(s.name)
    ensures Loose(s, t) <==>
              (Loose(s.kids[0], t.kids[0]) && Loose(s.kids[1], t.kids[1])) ||
              (Loose(s.kids[0], t.kids[1]) && Loose(s.kids[1], t.kids[0]))
  {
    if Loose(s, t) {
      LooseEitherOrder(s, t);
    } else if Loose(s.kids[0], t.kids[0]) && Loose(s.kids[1], t.kids[1]) {
      LooseUnswapped(s, t);
    } else if Loose(s.kids[0], t.kids[1]) && Loose(s.kids[1], t.kids[0]) {
      LooseSwapped(s, t);
    }
  }

  lemma SameWay(name: string, n: nat)
    ensures Way(name, name, n, Identity(n))
  {
  }

  lemma LooseUnswapped(s: Tree, t: Tree)
    requires s.name == t.name && |s.kids| == |t.kids| == 2
    requires Loose(s.kids[0], t.kids[0]) && Loose(s.kids[1], t.kids[1])
    ensures Loose(s, t)
  {
    var f := Identity(2);
    SameWay(s.name, 2);
    forall i | 0 <= i < 2 ensures Loose(s.kids[i], t.kids[f[i]]) {
      assert f[i] == i && (i == 0 || i == 1);
    }
    LooseIntro(s, t, f);
  }

  lemma LooseSwapped(s: Tree, t: Tree)
    requires s.name == t.name && |s.kids| == |t.kids| == 2 && IsEquality(s.name)
    requires Loose(s.kids[0], t.kids[1]) && Loose(s.kids[1], t.kids[0])
    ensures Loose(s, t)
  {
    SwapWay(s.name, t.name);
    LooseIntro(s, t, [1, 0]);
  }

  lemma LooseEitherOrder(s: Tree, t: Tree)
    requires s.name == t.name && |s.kids| == |t.kids| == 2 && !IsCommutative(s.name) && Loose(s, t)
    ensures (Loose(s.kids[0], t.kids[0]) && Loose(s.kids[1], t.kids[1])) ||
            (Loose(s.kids[0], t.kids[1]) && Loose(s.kids[1], t.kids[0]))
  {
    var f :| Way(s.name, t.name, 2, f)
          && forall i {:trigger f[i]} :: 0 <= i < 2 ==> Loose(s.kids[i], t.kids[f[i]]);
    PlainWay(s.name, 2, f);
    assert Loose(s.kids[0], t.kids[f[0]]) && Loose(s.kids[1], t.kids[f[1]]);
  }

  lemma LooseBySearch(s: Tree, t: Tree)
    requires s.name == t.name && |s.kids| == |t.kids| && IsCommutative(s.name)
    ensures Loose(s, t) <==> forall k :: 0 <= k < |s.kids| ==> FoundFrom(s.kids[k], t.kids, 0)
  {
    var n := |s.kids|;
    if Loose(s, t) {
      var f :| Way(s.name, t.name, n, f) && forall i {:trigger f[i]} :: 0 <= i < n ==> Loose(s.kids[i], t.kids[f[i]]);
      forall k | 0 <= k < n ensures FoundFrom(s.kids[k], t.kids, 0) { assert Loose(s.kids[k], t.kids[f[k]]); }
    }
    if forall k :: 0 <= k < n ==> FoundFrom(s.kids[k], t.kids, 0) {
      var f := seq(n, k requires 0 <= k < n => FoundAt(s.kids[k], t.kids));
      assert Way(s.name, t.name, n, f);
      LooseIntro(s, t, f);
    }
  }

  ghost function FoundAt(x: Tree, ys: seq<Tree>): (k: nat)
    requires FoundFrom(x, ys, 0)
    ensures k < |ys| && Loose(x, ys[k])
  {
    var k: nat :| k < |ys| && Loose(x, ys[k]); k
  }

  /** Different names after turning round: no loose match. */
  lemma LooseNeedsName(s: Tree, t: Tree)
    requires Loose(s, t)
    ensures |s.kids| == |t.kids|
    ensures s.name == t.name || (Mirrors(s.name, t.name) && |t.kids| == 2)
  {
  }

  lemma TurnedIsEquiv(a: Tree)
    requires IsRelation(a.name) && |a.kids| == 2
    ensures Equiv(a, Node(FlipName(a.name), [a.kids[1], a.kids[0]]))
  {
    forall i | 0 <= i < 2 ensures Equiv(a.kids[i], a.kids[i]) { EquivRefl(a.kids[i]); }
    SwapWay(a.name, FlipName(a.name));
    EquivIntro(a, Node(FlipName(a.name), [a.kids[1], a.kids[0]]), [1, 0]);
  }

  lemma TurnRoundIsHarmless(s: Tree, a: Tree)
    ensures TurnRound(Guarded, s, a).Some?
    ensures var b := TurnRound(Guarded, s, a).value;
            && Equiv(a, b) && Loose(s, a) == Loose(s, b)
            && (Loose(s, b) ==> s.name == b.name && |s.kids| == |b.kids|)
  {
    var b := TurnRound(Guarded, s, a).value;
    EquivRefl(a);
    if TurnsRound(Guarded, s, a) { TurnedIsEquiv(a); }
    LooseSame(s, a, b);
    if Loose(s, b) { LooseNeedsName(s, a); LooseNeedsName(s, b); NotTurned(s, a); }
  }

  lemma NotTurned(s: Tree, a: Tree)
    requires s.name == a.name || (Mirrors(s.name, a.name) && |a.kids| == 2)
    ensures s.name == TurnRound(Guarded, s, a).value.name
  {
    if Mirrors(s.name, a.name) { MirrorsTwice(s.name, a.name); }
  }

  // ---------------------------------------------------------------- the search is correct

  ghost predicate Settled(r: Outcome<seq<Tree>>, ys: seq<Tree>, verdict: bool) {
    r.Done? && AllEquiv(ys, r.left) && r.ok == verdict
  }

  /** The guarded search decides the loose match and leaves an equivalent answer behind. */
  lemma {:induction false} CompareDecides(s: Tree, a: Tree)
    requires WellFormed(s)
    ensures var r := Compare(Guarded, s, a);
            r.Done? && Equiv(a, r.left) && (r.ok <==> Loose(s, a))
    decreases s, |s.kids| + 2, 0, 0
  {
    TurnRoundIsHarmless(s, a);
    var b := TurnRound(Guarded, s, a).value;
    if s.name != b.name || |s.kids| != |b.kids| {
      assert !Loose(s, a);
      assert Turned(Guarded, s, b) == Done(false, b);
    } else if s.kids == [] {
      SameLeaf(s, b);
      assert Turned(Guarded, s, b) == Done(true, b);
    } else {
      CompareKidsDecides(s, b);
      var ks := CompareKids(Guarded, s, b.kids).left;
      AnyOrderNode(b, ks);
      EquivTrans(a, b, Node(b.name, ks));
      assert Turned(Guarded, s, b) == Done(CompareKids(Guarded, s, b.kids).ok, Node(b.name, ks));
    }
  }

  lemma SameLeaf(s: Tree, b: Tree)
    requires s.name == b.name && s.kids == b.kids == []
    ensures Loose(s, b)
  {
    LooseIntro(s, b, Identity(0));
  }

  lemma SamePlaces(b: Tree, ks: seq<Tree>)
    requires AllEquiv(b.kids, ks)
    ensures Equiv(b, Node(b.name, ks))
  {
    EquivIntro(b, Node(b.name, ks), Identity(|ks|));
  }

  lemma SwappedPlaces(b: Tree, ks: seq<Tree>)
    requires IsEquality(b.name) && |b.kids| == 2 && AllEquiv([b.kids[1], b.kids[0]], ks)
    ensures Equiv(b, Node(b.name, ks))
  {
    var rs := [b.kids[1], b.kids[0]];
    assert Equiv(rs[0], ks[0]) && Equiv(rs[1], ks[1]);
    SwapWay(b.name, b.name);
    EquivIntro(b, Node(b.name, ks), [1, 0]);
  }

  lemma AnyOrderNode(b: Tree, ks: seq<Tree>)
    requires AnyOrder(b, ks)
    ensures Equiv(b, Node(b.name, ks))
  {
    if AllEquiv(b.kids, ks) { SamePlaces(b, ks); } else { SwappedPlaces(b, ks); }
  }

  ghost predicate AnyOrder(b: Tree, ks: seq<Tree>) {
    AllEquiv(b.kids, ks) || (IsEquality(b.name) && |b.kids| == 2 && AllEquiv([b.kids[1], b.kids[0]], ks))
  }

  lemma CompareKidsDecides(s: Tree, b: Tree)
    requires WellFormed(s) && s.name == b.name && |s.kids| == |b.kids| > 0
    ensures var r := CompareKids(Guarded, s, b.kids);
            r.Done? && AnyOrder(b, r.left) && (r.ok <==> Loose(s, b))
    decreases s, |s.kids| + 1, 1, 0
  {
    var r := CompareKids(Guarded, s, b.kids);
    if IsEquality(s.name) {
      CompareBothOrders(s, b);
    } else if IsCommutative(s.name) {
      SearchDecides(s, 0, b.kids, 0);
      assert r == Search(Guarded, s, 0, b.kids, 0);
      LooseBySearch(s, b);
    } else {
      CompareFromDecides(s, 0, b.kids, 0);
      assert r == CompareFrom(Guarded, s, 0, b.kids, 0);
      LooseByPosition(s, b);
    }
  }

  lemma CompareBothOrders(s: Tree, b: Tree)
    requires WellFormed(s) && s.name == b.name && |s.kids| == |b.kids| > 0 && IsEquality(s.name)
    ensures var r := CompareKids(Guarded, s, b.kids);
            r.Done? && AnyOrder(b, r.left) && (r.ok <==> Loose(s, b))
    decreases s, |s.kids| + 1, 0, 0
  {
    var ys := b.kids;
    NotBoth(s.name);
    CompareFromDecides(s, 0, ys, 0);
    LooseBySwap(s, b);
    var r := CompareFrom(Guarded, s, 0, ys, 0);
    if r.ok {
      assert CompareKids(Guarded, s, b.kids) == r;
    } else {
      var ry, ws := [ys[1], ys[0]], [r.left[1], r.left[0]];
      CompareFromDecides(s, 0, ws, 0);
      var q := CompareFrom(Guarded, s, 0, ws, 0);
      assert CompareKids(Guarded, s, b.kids) == q;
      assert AllEquiv(ry, ws);
      AllEquivTrans(ry, ws, q.left);
      RestSame(s, 0, ry, ws);
      LooseSame(s.kids[0], ry[0], ws[0]);
    }
  }

  lemma NotBoth(name: string)
    requires IsEquality(name)
    ensures !IsCommutative(name)
  {
  }

  lemma CompareFromDecides(s: Tree, i: nat, ys: seq<Tree>, j: nat)
    requires WellFormed(s) && |s.kids| == |ys| && i < |ys| && j < |ys|
    requires IsCommutative(s.name) || i == j
    ensures Settled(CompareFrom(Guarded, s, i, ys, j), ys, Loose(s.kids[i], ys[j]) && RestFound(s, i, ys))
    decreases s, |s.kids| - i, |ys| - j, 0
  {
    CompareDecides(s.kids[i], ys[j]);
    var r := Compare(Guarded, s.kids[i], ys[j]);
    var zs := ys[j := r.left];
    AllEquivRefl(ys);
    assert AllEquiv(ys, zs);
    CompareRestDecides(s, i, zs, j, r.ok);
    RestSame(s, i, ys, zs);
    var q := CompareRest(Guarded, s, i, zs, j, r.ok);
    assert CompareFrom(Guarded, s, i, ys, j) == q;
    AllEquivTrans(ys, zs, q.left);
  }

  lemma CompareRestDecides(s: Tree, i: nat, ys: seq<Tree>, j: nat, ok: bool)
    requires WellFormed(s) && |s.kids| == |ys| && i < |ys| && j < |ys|
    requires IsCommutative(s.name) || i == j
    ensures Settled(CompareRest(Guarded, s, i, ys, j, ok), ys, ok && RestFound(s, i, ys))
    decreases s, |s.kids| - i, 0, 0
  {
    var q := CompareRest(Guarded, s, i, ys, j, ok);
    AllEquivRefl(ys);
    if i + 1 == |ys| || !ok {
      assert q == Done(i + 1 == |ys| && ok, ys);
    } else {
      RestStep(s, i, ys);
      CompareMoreDecides(s, i + 1, ys, if IsCommutative(s.name) then 0 else j + 1);
    }
  }

  /** The two ways the search goes on. */
  lemma CompareMoreDecides(s: Tree, i: nat, ys: seq<Tree>, j: nat)
    requires WellFormed(s) && |s.kids| == |ys| && i < |ys| && (if IsCommutative(s.name) then j == 0 else i == j)
    ensures IsCommutative(s.name) ==>
              Settled(Search(Guarded, s, i, ys, 0), ys, FoundFrom(s.kids[i], ys, 0) && RestFound(s, i, ys))
    ensures !IsCommutative(s.name) ==>
              Settled(CompareFrom(Guarded, s, i, ys, j), ys, Loose(s.kids[i], ys[j]) && RestFound(s, i, ys))
    decreases s, |s.kids| - i, |ys| + 1, 0
  {
    if IsCommutative(s.name) { SearchDecides(s, i, ys, 0); } else { CompareFromDecides(s, i, ys, j); }
  }

  lemma RestStep(s: Tree, i: nat, ys: seq<Tree>)
    requires |s.kids| == |ys| && i + 1 < |ys|
    ensures RestFound(s, i, ys) <==>
              RestFound(s, i + 1, ys) &&
              if IsCommutative(s.name) then FoundFrom(s.kids[i+1], ys, 0) else Loose(s.kids[i+1], ys[i+1])
  {
  }

  lemma SearchDecides(s: Tree, i: nat, ys: seq<Tree>, j: nat)
    requires WellFormed(s) && |s.kids| == |ys| && i < |ys| && j < |ys| && IsCommutative(s.name)
    ensures Settled(Search(Guarded, s, i, ys, j), ys, FoundFrom(s.kids[i], ys, j) && RestFound(s, i, ys))
    decreases s, |s.kids| - i, |ys| - j, 1
  {
    CompareFromDecides(s, i, ys, j);
    var r := CompareFrom(Guarded, s, i, ys, j);
    FoundStep(s.kids[i], ys, j);
    if !r.ok && j + 1 < |ys| {
      SearchDecides(s, i, r.left, j + 1);
      FoundSame(s.kids[i], ys, r.left, j + 1);
      RestSame(s, i, ys, r.left);
      AllEquivTrans(ys, r.left, Search(Guarded, s, i, r.left, j + 1).left);
    }
  }

  lemma FoundStep(x: Tree, ys: seq<Tree>, j: nat)
    requires j < |ys|
    ensures FoundFrom(x, ys, j) <==> Loose(x, ys[j]) || FoundFrom(x, ys, j + 1)
  {
  }
}
