/** Expression trees of the answer checker and the equivalence `~` that its rewrites generate:
    operands permuted under + * | & || &&, the two operands of == and != swapped,
    and two-operand relations mirrored. */
module Trees {

  /** A node of blank.h without its parent and sibling links. */
  datatype Tree = Node(name: string, kids: seq<Tree>)

  predicate IsRelation(name: string) {
    name == "<" || name == ">" || name == "<=" || name == ">="
  }

  predicate IsEquality(name: string) {
    name == "==" || name == "!="
  }

  predicate IsCommutative(name: string) {
    name == "+" || name == "*" || name == "|" || name == "&" || name == "||" || name == "&&"
  }

  /** Turns a leading angle bracket round: only the first character is rewritten. */
  function FlipName(name: string): string {
    if name == "" then name
    else if name[0] == '<' then ">" + name[1..]
    else if name[0] == '>' then "<" + name[1..]
    else name
  }

  // ---------------------------------------------------------------- operand maps

  /** `f` sends n operand positions to n operand positions. */
  ghost predicate IsMap(f: seq<nat>, n: nat) {
    |f| == n && forall i :: 0 <= i < n ==> f[i] < n
  }

  ghost predicate Injective(f: seq<nat>) {
    forall i, j :: 0 <= i < j < |f| ==> f[i] != f[j]
  }

  ghost function Identity(n: nat): (f: seq<nat>)
    ensures IsMap(f, n) && Injective(f) && forall i :: 0 <= i < n ==> f[i] == i
  {
    seq(n, i => i)
  }

  ghost function Then(f: seq<nat>, g: seq<nat>): (h: seq<nat>)
    requires IsMap(f, |g|)
    ensures |h| == |f| && forall i :: 0 <= i < |h| ==> h[i] == g[f[i]]
  {
    seq(|f|, i requires 0 <= i < |f| => g[f[i]])
  }

  /** What a comparison needs to know of two node names. */
  datatype Names = Names(same: bool, commutative: bool, swappable: bool, mirrored: bool)

  predicate Mirrors(sn: string, tn: string) {
    IsRelation(tn) && sn == FlipName(tn)
  }

  function Compared(sn: string, tn: string): Names {
    Names(sn == tn, IsCommutative(sn), IsEquality(sn), Mirrors(sn, tn))
  }

  /** The operand maps that names allow. */
  ghost predicate Route(m: Names, n: nat, f: seq<nat>) {
    && IsMap(f, n)
    && ( || (m.same && (m.commutative || f == Identity(n) || (m.swappable && f == [1, 0])))
         || (m.mirrored && f == [1, 0]))
  }

  /** Where the operands of a node named `sn` may be looked for under a node named `tn`. */
  ghost predicate Way(sn: string, tn: string, n: nat, f: seq<nat>) {
    Route(Compared(sn, tn), n, f)
  }

  ghost predicate Pairing(sn: string, tn: string, n: nat, f: seq<nat>) {
    Way(sn, tn, n, f) && Injective(f)
  }

  /** The equivalence `~`: operands correspond one to one along a way between the two names. */
  ghost predicate Equiv(s: Tree, t: Tree)
    decreases s
  {
    && |s.kids| == |t.kids|
    && exists f :: Pairing(s.name, t.name, |s.kids|, f)
                && forall i {:trigger f[i]} :: 0 <= i < |s.kids| ==> Equiv(s.kids[i], t.kids[f[i]])
  }

  /** Like `~`, but two operands of `s` may be found at the same operand of `t`. */
  ghost predicate Loose(s: Tree, t: Tree)
    decreases s
  {
    && |s.kids| == |t.kids|
    && exists f :: Way(s.name, t.name, |s.kids|, f)
                && forall i {:trigger f[i]} :: 0 <= i < |s.kids| ==> Loose(s.kids[i], t.kids[f[i]])
  }

  /** No commutative node has two equivalent operands. */
  ghost predicate NoRepeats(s: Tree) {
    && (IsCommutative(s.name) ==>
          forall i, j :: 0 <= i < j < |s.kids| ==> !Equiv(s.kids[i], s.kids[j]))
    && forall i :: 0 <= i < |s.kids| ==> NoRepeats(s.kids[i])
  }

  /** Every == and != has two operands. */
  predicate WellFormed(s: Tree) {
    && (IsEquality(s.name) && s.kids != [] ==> |s.kids| == 2)
    && forall i :: 0 <= i < |s.kids| ==> WellFormed(s.kids[i])
  }

  // ---------------------------------------------------------------- injections are bijections

  /** An injection between equally long operand lists hits every position. */
  lemma {:induction false} Onto(f: seq<nat>, n: nat, y: nat)
    requires IsMap(f, n) && Injective(f) && y < n
    ensures y in f
    decreases n
  {
    if y !in f {
      // move the value n-1, if it occurs at all, into the gap y and drop the last position
      var g := seq(n - 1, i requires 0 <= i < n - 1 => if f[i] == n - 1 then y else f[i]);
      if n > 1 {
        Onto(g, n - 1, if y < n - 1 && f[n - 1] == n - 1 then y else f[n - 1]);
      }
      assert false;
    }
  }

  ghost function Inverse(f: seq<nat>): (g: seq<nat>)
    requires IsMap(f, |f|) && Injective(f)
    ensures IsMap(g, |f|) && Injective(g)
    ensures forall i :: 0 <= i < |f| ==> g[f[i]] == i && f[g[i]] == i
  {
    forall y: nat | y < |f| ensures y in f { Onto(f, |f|, y); }
    seq(|f|, y requires 0 <= y < |f| && y in f => IndexOf(f, y))
  }

  ghost function IndexOf(f: seq<nat>, y: nat): (i: nat)
    requires y in f
    ensures i < |f| && f[i] == y
  {
    var i: nat :| i < |f| && f[i] == y; i
  }

  /** The operand map that is left when the first operand and its place are taken away. */
  ghost function Rest(f: seq<nat>): (g: seq<nat>)
    requires f != [] && IsMap(f, |f|) && Injective(f)
    ensures |g| == |f| - 1
    ensures forall i :: 0 <= i < |g| ==> g[i] == if f[i + 1] < f[0] then f[i + 1] else f[i + 1] - 1
  {
    seq(|f| - 1, i requires 0 <= i < |f| - 1 => if f[i + 1] < f[0] then f[i + 1] else f[i + 1] - 1)
  }

  lemma RestIsInjective(f: seq<nat>)
    requires f != [] && IsMap(f, |f|) && Injective(f)
    ensures IsMap(Rest(f), |f| - 1) && Injective(Rest(f))
  {
    forall i | 0 <= i < |f| - 1 ensures Rest(f)[i] < |f| - 1 {
      assert f[i + 1] != f[0];
    }
    forall i, j | 0 <= i < j < |f| - 1 ensures Rest(f)[i] != Rest(f)[j] {
      assert f[i + 1] != f[j + 1] && f[i + 1] != f[0] && f[j + 1] != f[0];
    }
  }

  // ---------------------------------------------------------------- ways compose and reverse

  lemma MirrorsTwice(a: string, b: string)
    requires Mirrors(a, b)
    ensures Mirrors(b, a) && a != b
    ensures !IsCommutative(a) && !IsEquality(a) && !IsCommutative(b) && !IsEquality(b)
  {
  }

  lemma CompareThen(a: string, b: string, c: string)
    ensures var m, k, l := Compared(a, b), Compared(b, c), Compared(a, c);
            && (m.same && k.same ==> m == k == l)
            && (m.same && k.mirrored ==> l.mirrored && !m.commutative && !m.swappable)
            && (m.mirrored && k.same ==> l.mirrored && !k.commutative && !k.swappable)
            && (m.mirrored && k.mirrored ==> l.same)
            && !(m.same && m.mirrored) && !(k.same && k.mirrored)
  {
    if Mirrors(a, b) { MirrorsTwice(a, b); }
    if Mirrors(b, c) { MirrorsTwice(b, c); }
  }

  lemma ThenIdentity(f: seq<nat>, n: nat)
    requires IsMap(f, n)
    ensures Then(f, Identity(n)) == f && Then(Identity(n), f) == f
  {
  }

  lemma SwapTwice()
    ensures IsMap([1, 0], 2) && Then([1, 0], [1, 0]) == Identity(2)
  {
  }

  lemma RouteThen(m: Names, k: Names, l: Names, n: nat, f: seq<nat>, g: seq<nat>)
    requires Route(m, n, f) && Route(k, n, g)
    requires m.same && k.same ==> m == k == l
    requires m.same && k.mirrored ==> l.mirrored && !m.commutative && !m.swappable
    requires m.mirrored && k.same ==> l.mirrored && !k.commutative && !k.swappable
    requires m.mirrored && k.mirrored ==> l.same
    requires !(m.same && m.mirrored) && !(k.same && k.mirrored)
    ensures Route(l, n, Then(f, g))
  {
    ThenIdentity(f, n);
    ThenIdentity(g, n);
    SwapTwice();
  }

  lemma WayThen(a: string, b: string, c: string, n: nat, f: seq<nat>, g: seq<nat>)
    requires Way(a, b, n, f) && Way(b, c, n, g)
    ensures Way(a, c, n, Then(f, g))
    ensures Injective(f) && Injective(g) ==> Injective(Then(f, g))
  {
    CompareThen(a, b, c);
    RouteThen(Compared(a, b), Compared(b, c), Compared(a, c), n, f, g);
  }

  lemma InverseIs(f: seq<nat>)
    requires IsMap(f, |f|) && Injective(f)
    ensures f == Identity(|f|) ==> Inverse(f) == f
    ensures f == [1, 0] ==> Inverse(f) == f
  {
    var g := Inverse(f);
    if f == [1, 0] { assert g[f[0]] == 0 && g[f[1]] == 1; }
  }

  lemma WayBack(a: string, b: string, n: nat, f: seq<nat>)
    requires Pairing(a, b, n, f)
    ensures Way(b, a, n, Inverse(f))
  {
    InverseIs(f);
    if Mirrors(a, b) { MirrorsTwice(a, b); }
  }

  /** Only a commutative node lets two operands be found at the same place. */
  lemma MergedOperands(sn: string, tn: string, n: nat, f: seq<nat>, i: nat, j: nat)
    requires Way(sn, tn, n, f) && i < j < n && f[i] == f[j]
    ensures sn == tn && IsCommutative(sn)
  {
  }

  lemma LooseWay(name: string, n: nat, i: nat, j: nat)
    requires IsCommutative(name) && i < n && j < n
    ensures Way(name, name, n, Identity(n)[j := i])
  {
  }

  lemma SwapWay(sn: string, tn: string)
    requires (IsEquality(sn) && tn == sn) || (IsRelation(sn) && tn == FlipName(sn))
    ensures Pairing(sn, tn, 2, [1, 0])
  {
  }

  // ---------------------------------------------------------------- `~` is an equivalence

  lemma EquivIntro(s: Tree, t: Tree, f: seq<nat>)
    requires |s.kids| == |t.kids| && Pairing(s.name, t.name, |s.kids|, f)
    requires forall i {:trigger f[i]} :: 0 <= i < |s.kids| ==> Equiv(s.kids[i], t.kids[f[i]])
    ensures Equiv(s, t)
  {
  }

  lemma {:induction false} EquivRefl(t: Tree)
    ensures Equiv(t, t)
  {
    forall i | 0 <= i < |t.kids| ensures Equiv(t.kids[i], t.kids[i]) { EquivRefl(t.kids[i]); }
    EquivIntro(t, t, Identity(|t.kids|));
  }

  lemma {:induction false} EquivSym(s: Tree, t: Tree)
    requires Equiv(s, t)
    ensures Equiv(t, s)
    decreases s
  {
    var f :| Pairing(s.name, t.name, |s.kids|, f)
          && forall i {:trigger f[i]} :: 0 <= i < |s.kids| ==> Equiv(s.kids[i], t.kids[f[i]]);
    WayBack(s.name, t.name, |s.kids|, f);
    var g := Inverse(f);
    forall j | 0 <= j < |t.kids| ensures Equiv(t.kids[j], s.kids[g[j]]) {
      EquivSym(s.kids[g[j]], t.kids[j]);
    }
    EquivIntro(t, s, g);
  }

  lemma {:induction false} EquivTrans(s: Tree, t: Tree, u: Tree)
    requires Equiv(s, t) && Equiv(t, u)
    ensures Equiv(s, u)
    decreases s
  {
    var n := |s.kids|;
    var f :| Pairing(s.name, t.name, n, f)
          && forall i {:trigger f[i]} :: 0 <= i < n ==> Equiv(s.kids[i], t.kids[f[i]]);
    var g :| Pairing(t.name, u.name, n, g)
          && forall i {:trigger g[i]} :: 0 <= i < n ==> Equiv(t.kids[i], u.kids[g[i]]);
    WayThen(s.name, t.name, u.name, n, f, g);
    var h := Then(f, g);
    forall i | 0 <= i < n ensures Equiv(s.kids[i], u.kids[h[i]]) {
      EquivTrans(s.kids[i], t.kids[f[i]], u.kids[g[f[i]]]);
    }
    EquivIntro(s, u, h);
  }
}
