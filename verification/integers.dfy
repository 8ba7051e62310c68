/** Integer expressions as C has them: the relations compare, + adds, * multiplies, && and || test for zero.
    What variables and all other operators mean is left open. An accepted answer has the value of the model
    answer. */
module Integers {
  import opened Trees
  import opened Meaning
  import opened Grading
  import opened Verdicts

  datatype Operation = Sum | Product

  function Combine(o: Operation, x: int, y: int): int {
    match o case Sum => x + y case Product => x * y
  }

  function Fold(o: Operation, xs: seq<int>): int {
    if xs == [] then match o case Sum => 0 case Product => 1
    else Combine(o, xs[0], Fold(o, xs[1..]))
  }

  lemma Rearranged(o: Operation, x: int, y: int, z: int)
    ensures Combine(o, x, Combine(o, y, z)) == Combine(o, y, Combine(o, x, z))
  {
    assert x * (y * z) == y * (x * z);
  }

  /** An operand may as well be the first. */
  lemma {:induction false} FoldMiddle(o: Operation, front: seq<int>, x: int, behind: seq<int>)
    ensures Fold(o, front + [x] + behind) == Combine(o, x, Fold(o, front + behind))
  {
    if front == [] {
      assert front + [x] + behind == [x] + behind && front + behind == behind;
      assert ([x] + behind)[1..] == behind;
    } else {
      var y, rest := front[0], front[1..];
      FoldMiddle(o, rest, x, behind);
      assert (front + [x] + behind)[1..] == rest + [x] + behind;
      assert (front + behind)[1..] == rest + behind;
      Rearranged(o, y, x, Fold(o, rest + behind));
    }
  }

  lemma Middle(ys: seq<int>, k: nat)
    requires k < |ys|
    ensures ys == ys[..k] + [ys[k]] + ys[k + 1..]
  {
  }

  /** Without the first operand and its counterpart the operands still correspond. */
  lemma RestPermuted(xs: seq<int>, ys: seq<int>, f: seq<nat>)
    requires |f| == |xs| == |ys| > 0 && IsMap(f, |xs|) && Injective(f)
    requires forall i :: 0 <= i < |xs| ==> xs[i] == ys[f[i]]
    ensures var zs, g := ys[..f[0]] + ys[f[0] + 1..], Rest(f);
            && |g| == |zs| == |xs| - 1 && IsMap(g, |xs| - 1) && Injective(g)
            && forall i :: 0 <= i < |xs| - 1 ==> xs[1..][i] == zs[g[i]]
  {
    RestIsInjective(f);
    forall i | 0 <= i < |xs| - 1 ensures xs[1..][i] == (ys[..f[0]] + ys[f[0] + 1..])[Rest(f)[i]] {
      assert f[i + 1] != f[0];
    }
  }

  /** The order of the operands does not matter to sums and products, ... */
  lemma {:induction false} FoldPermuted(o: Operation, xs: seq<int>, ys: seq<int>, f: seq<nat>)
    requires |f| == |xs| == |ys| && IsMap(f, |xs|) && Injective(f)
    requires forall i :: 0 <= i < |xs| ==> xs[i] == ys[f[i]]
    ensures Fold(o, xs) == Fold(o, ys)
    decreases |xs|
  {
    if xs != [] {
      var k := f[0];
      RestPermuted(xs, ys, f);
      FoldPermuted(o, xs[1..], ys[..k] + ys[k + 1..], Rest(f));
      Middle(ys, k);
      FoldMiddle(o, ys[..k], ys[k], ys[k + 1..]);
    }
  }

  /** ... nor to their multiset. */
  lemma {:induction false} MultisetPermuted(xs: seq<int>, ys: seq<int>, f: seq<nat>)
    requires |f| == |xs| == |ys| && IsMap(f, |xs|) && Injective(f)
    requires forall i :: 0 <= i < |xs| ==> xs[i] == ys[f[i]]
    ensures multiset(xs) == multiset(ys)
    decreases |xs|
  {
    if xs != [] {
      var k := f[0];
      RestPermuted(xs, ys, f);
      MultisetPermuted(xs[1..], ys[..k] + ys[k + 1..], Rest(f));
      Middle(ys, k);
      assert xs == [xs[0]] + xs[1..];
    }
  }

  function Truth(b: bool): int {
    if b then 1 else 0
  }

  /** What C makes of an operator and the values of its operands. The bitwise & and | are any functions of
      the operands in no order, and `other` is any function of them in their order. */
  ghost function Compute(bits: (string, multiset<int>) -> int, other: (string, seq<int>) -> int,
                         name: string, xs: seq<int>): int {
    if name == "+" then Fold(Sum, xs)
    else if name == "*" then Fold(Product, xs)
    else if name == "&" || name == "|" then bits(name, multiset(xs))
    else if name == "&&" then Truth(0 !in multiset(xs))
    else if name == "||" then Truth(exists x :: x in multiset(xs) && x != 0)
    else if |xs| != 2 then other(name, xs)
    else if name == "-" then xs[0] - xs[1]
    else if name == "<" then Truth(xs[0] < xs[1])
    else if name == ">" then Truth(xs[0] > xs[1])
    else if name == "<=" then Truth(xs[0] <= xs[1])
    else if name == ">=" then Truth(xs[0] >= xs[1])
    else if name == "==" then Truth(xs[0] == xs[1])
    else if name == "!=" then Truth(xs[0] != xs[1])
    else other(name, xs)
  }

  ghost function Interpretation(bits: (string, multiset<int>) -> int, other: (string, seq<int>) -> int)
    : (string, seq<int>) -> int
  {
    (name, xs) => Compute(bits, other, name, xs)
  }

  lemma PermutedComputes(bits: (string, multiset<int>) -> int, other: (string, seq<int>) -> int,
                         name: string, xs: seq<int>, ys: seq<int>)
    requires IsCommutative(name) && Permuted(xs, ys)
    ensures Compute(bits, other, name, xs) == Compute(bits, other, name, ys)
  {
    var f :| IsMap(f, |xs|) && Injective(f) && forall i :: 0 <= i < |xs| ==> xs[i] == ys[f[i]];
    FoldPermuted(Sum, xs, ys, f);
    FoldPermuted(Product, xs, ys, f);
    MultisetPermuted(xs, ys, f);
  }

  lemma PairComputes(bits: (string, multiset<int>) -> int, other: (string, seq<int>) -> int,
                     name: string, x: int, y: int)
    ensures IsEquality(name) ==> Compute(bits, other, name, [x, y]) == Compute(bits, other, name, [y, x])
    ensures IsRelation(name) ==> Compute(bits, other, name, [x, y]) == Compute(bits, other, FlipName(name), [y, x])
  {
    FlippedRelations();
  }

  /** Integer arithmetic ignores what the rewrites change. */
  lemma IntegersRespect(bits: (string, multiset<int>) -> int, other: (string, seq<int>) -> int)
    ensures Respects(Interpretation(bits, other))
  {
    var op := Interpretation(bits, other);
    forall name, xs, ys | IsCommutative(name) && Permuted(xs, ys) ensures op(name, xs) == op(name, ys) {
      PermutedComputes(bits, other, name, xs, ys);
    }
    forall name, x, y | IsEquality(name) ensures op(name, [x, y]) == op(name, [y, x]) {
      PairComputes(bits, other, name, x, y);
    }
    forall name, x, y | IsRelation(name) ensures op(name, [x, y]) == op(FlipName(name), [y, x]) {
      PairComputes(bits, other, name, x, y);
    }
  }

  /** An accepted tree without repeated operands has the integer value of the model answer, whatever the
      variables and the other operators stand for. */
  lemma CorrectKeepsInteger(g: Program, bits: (string, multiset<int>) -> int, other: (string, seq<int>) -> int,
                            s: Tree, a: Tree)
    requires WellFormed(s) && Trusted(g, s) && NoRepeats(s) && Correct(g, s, a)
    ensures Eval(Interpretation(bits, other), s) == Eval(Interpretation(bits, other), a)
  {
    IntegersRespect(bits, other);
    CorrectKeepsValue(g, Interpretation(bits, other), s, a);
  }
}
