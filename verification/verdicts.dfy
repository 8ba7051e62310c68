/** What a student may rely on: soundness with its exact limit, completeness and independence of
    operand order, for the guarded program and, for students without relations, for the program as written. */
module Verdicts {
  import opened Trees
  import opened Matching
  import opened Meaning
  import opened Grading
  import opened Unguarded

  /** compare_tree answers true. */
  predicate Correct(g: Program, s: Tree, a: Tree) {
    var r := Compare(g, s, a);
    r.Done? && r.ok
  }

  /** The search decides the loose match: always if guarded, and exactly for students without relations if not. */
  predicate Trusted(g: Program, s: Tree) {
    g == Guarded || NoRelation(s)
  }

  /** What CompareDecides says of the guarded program holds of either where it can be trusted. */
  lemma TrustedDecides(g: Program, s: Tree, a: Tree)
    requires WellFormed(s) && Trusted(g, s)
    ensures var r := Compare(g, s, a);
            r.Done? && Equiv(a, r.left) && (r.ok <==> Loose(s, a))
  {
    CompareDecides(s, a);
    if g == AsWritten { NoRelationRuns(s, a); }
  }

  /** The program never stops, leaves an equivalent answer and decides the loose match, for every answer,
      exactly where it can be trusted. */
  lemma DecidesExactly(g: Program, s: Tree)
    requires WellFormed(s)
    ensures (forall a :: var r := Compare(g, s, a); r.Done? && Equiv(a, r.left) && (r.ok <==> Loose(s, a)))
            <==> Trusted(g, s)
  {
    if Trusted(g, s) {
      forall a ensures var r := Compare(g, s, a); r.Done? && Equiv(a, r.left) && (r.ok <==> Loose(s, a)) {
        TrustedDecides(g, s, a);
      }
    } else {
      var a := Stopper(s);
    }
  }

  /** With no repeated operand the verdict is exactly `~`. */
  lemma CorrectIsEquiv(g: Program, s: Tree, a: Tree)
    requires WellFormed(s) && Trusted(g, s) && NoRepeats(s)
    ensures Correct(g, s, a) <==> Equiv(s, a)
  {
    TrustedDecides(g, s, a);
    if Loose(s, a) { LooseIsEquiv(s, a); }
    if Equiv(s, a) { EquivIsLoose(s, a); }
  }

  /** Completeness holds for every student tree. */
  lemma EquivIsCorrect(g: Program, s: Tree, a: Tree)
    requires WellFormed(s) && Trusted(g, s) && Equiv(s, a)
    ensures Correct(g, s, a)
  {
    TrustedDecides(g, s, a);
    EquivIsLoose(s, a);
  }

  /** Soundness holds for a student tree exactly when no commutative node repeats an operand. */
  lemma SoundExactly(g: Program, s: Tree)
    requires WellFormed(s) && Trusted(g, s)
    ensures (forall a :: Correct(g, s, a) ==> Equiv(s, a)) <==> NoRepeats(s)
  {
    if NoRepeats(s) {
      forall a ensures Correct(g, s, a) ==> Equiv(s, a) { CorrectIsEquiv(g, s, a); }
    } else {
      var a := Impostor(s);
      TrustedDecides(g, s, a);
      assert Correct(g, s, a) && !Equiv(s, a);
    }
  }

  /** Every answer gets a verdict, and the right one, exactly when the program can be trusted with the student
      tree and no operand in it is repeated. */
  lemma GradesExactly(g: Program, s: Tree)
    requires WellFormed(s)
    ensures (forall a :: Compare(g, s, a).Done? && (Correct(g, s, a) <==> Equiv(s, a)))
            <==> Trusted(g, s) && NoRepeats(s)
  {
    if !Trusted(g, s) {
      var a := Stopper(s);
    } else {
      SoundExactly(g, s);
      forall a ensures Compare(g, s, a).Done? && (Equiv(s, a) ==> Correct(g, s, a)) {
        TrustedDecides(g, s, a);
        if Equiv(s, a) { EquivIsCorrect(g, s, a); }
      }
    }
  }

  /** The smallest wrong grade: x + x is accepted for x + y. */
  lemma AcceptsRepeat(g: Program, s: Tree, t: Tree)
    requires WellFormed(s) && Trusted(g, s)
    requires IsCommutative(s.name) && t.name == s.name && |s.kids| == |t.kids| == 2
    requires s.kids[0] == s.kids[1] == t.kids[0] && !Equiv(s.kids[0], t.kids[1])
    ensures Correct(g, s, t) && !Equiv(s, t)
  {
    TrustedDecides(g, s, t);
    RepeatIsLoose(s, t);
    if Equiv(s, t) { NoSecondOperand(s, t); }
  }

  lemma RepeatIsLoose(s: Tree, t: Tree)
    requires IsCommutative(s.name) && t.name == s.name && |s.kids| == |t.kids| == 2
    requires s.kids[0] == s.kids[1] == t.kids[0]
    ensures Loose(s, t)
  {
    EquivRefl(s.kids[0]);
    EquivIsLoose(s.kids[0], s.kids[0]);
    LooseWay(s.name, 2, 0, 1);
    LooseIntro(s, t, Identity(2)[1 := 0]);
  }

  lemma NoSecondOperand(s: Tree, t: Tree)
    requires |s.kids| == |t.kids| == 2 && s.kids[0] == s.kids[1] && !Equiv(s.kids[0], t.kids[1])
    ensures !Equiv(s, t)
  {
    if Equiv(s, t) {
      EquivSym(s, t);
      var i := OperandIsFound(t, s, 1);
      EquivSym(t.kids[1], s.kids[i]);
    }
  }

  lemma OperandIsFound(t: Tree, s: Tree, j: nat) returns (i: nat)
    requires Equiv(t, s) && j < |t.kids|
    ensures i < |s.kids| && Equiv(t.kids[j], s.kids[i])
  {
    var f :| Pairing(t.name, s.name, |t.kids|, f)
          && forall k {:trigger f[k]} :: 0 <= k < |t.kids| ==> Equiv(t.kids[k], s.kids[f[k]]);
    i := f[j];
  }

  /** Two different operands may be exchanged under exactly the operators named in Exchanged: `a < b` is
      accepted for `b > a`, and `a - b` not for `b - a`. */
  lemma ExchangeVerdict(sn: string, tn: string, x: Tree, y: Tree)
    requires WellFormed(Node(sn, [x, y])) && NoRepeats(Node(sn, [x, y])) && !Equiv(x, y)
    ensures Correct(Guarded, Node(sn, [x, y]), Node(tn, [y, x])) <==> Exchanged(sn, tn)
  {
    CorrectIsEquiv(Guarded, Node(sn, [x, y]), Node(tn, [y, x]));
    ExchangedExactly(sn, tn, x, y);
  }

  lemma {:induction false} WellFormedSame(s: Tree, t: Tree)
    requires Equiv(s, t) && WellFormed(s)
    ensures WellFormed(t)
    decreases s
  {
    var f :| Pairing(s.name, t.name, |s.kids|, f)
          && forall i {:trigger f[i]} :: 0 <= i < |s.kids| ==> Equiv(s.kids[i], t.kids[f[i]]);
    var g := Inverse(f);
    forall j | 0 <= j < |t.kids| ensures WellFormed(t.kids[j]) {
      assert f[g[j]] == j;
      WellFormedSame(s.kids[g[j]], t.kids[j]);
    }
    if Mirrors(s.name, t.name) { MirrorsTwice(s.name, t.name); }
  }

  /** Replacing either tree by an equivalent one never changes the verdict. */
  lemma OrderIndependent(g: Program, s: Tree, s': Tree, a: Tree, a': Tree)
    requires WellFormed(s) && Trusted(g, s) && Equiv(s, s') && Equiv(a, a')
    ensures Correct(g, s, a) == Correct(g, s', a')
  {
    WellFormedSame(s, s');
    if NoRelation(s) { NoRelationSame(s, s'); }
    TrustedDecides(g, s, a);
    TrustedDecides(g, s', a');
    EquivSym(s, s');
    LooseSame(s, a, a');
    if Loose(s, a') { EquivThenLoose(s', s, a'); }
    if Loose(s', a') { EquivThenLoose(s, s', a'); }
  }

  /** The answer left behind by one comparison serves every later one as well as the original. */
  lemma LeftoverServes(g: Program, s: Tree, a: Tree, later: Tree)
    requires WellFormed(s) && WellFormed(later) && Trusted(g, s) && Trusted(g, later)
    ensures Compare(g, s, a).Done?
    ensures Correct(g, later, Compare(g, s, a).left) == Correct(g, later, a)
    ensures WellFormed(a) ==> WellFormed(Compare(g, s, a).left)
  {
    TrustedDecides(g, s, a);
    var b := Compare(g, s, a).left;
    EquivRefl(later);
    OrderIndependent(g, later, later, a, b);
    if WellFormed(a) { WellFormedSame(a, b); }
  }

  /** A correct answer without repeats has the value of the model answer under every interpretation. */
  lemma CorrectKeepsValue<V(!new)>(g: Program, op: (string, seq<V>) -> V, s: Tree, a: Tree)
    requires WellFormed(s) && Trusted(g, s) && NoRepeats(s) && Correct(g, s, a) && Respects(op)
    ensures Eval(op, s) == Eval(op, a)
  {
    CorrectIsEquiv(g, s, a);
    EquivKeepsValue(op, s, a);
  }
}
