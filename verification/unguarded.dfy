/** The program as written, which turns the answer round at line 62 of blank.c whatever it is: what one turn
    does, where it agrees with the guarded program, and exactly for which students it can be trusted. */
module Unguarded {
  import opened Trees
  import opened Matching
  import opened Grading
  import opened Wrappers

  // ---------------------------------------------------------------- one turn

  /** The two operands may change places: their order carries no meaning and turning leaves the name alone. */
  ghost predicate OrderIsIdle(a: Tree)
    requires |a.kids| == 2
  {
    FlipName(a.name) == a.name && (IsCommutative(a.name) || IsEquality(a.name) || Equiv(a.kids[0], a.kids[1]))
  }

  /** The unguarded turn keeps the answer equivalent exactly when the answer has two operands
      whose order carries no meaning, or is a relation. */
  lemma TurnKeepsAnswerExactly(s: Tree, a: Tree)
    requires TurnsRound(AsWritten, s, a)
    ensures TurnRound(AsWritten, s, a).None? <==> |a.kids| < 2
    ensures (TurnRound(AsWritten, s, a).Some? && Equiv(a, TurnRound(AsWritten, s, a).value)) <==>
              (|a.kids| == 2 && (IsRelation(a.name) || OrderIsIdle(a)))
  {
    if |a.kids| == 2 {
      TurnedExactly(a);
    }
  }

  lemma TurnedExactly(a: Tree)
    requires |a.kids| == 2
    ensures Equiv(a, Node(FlipName(a.name), [a.kids[1], a.kids[0]])) <==> IsRelation(a.name) || OrderIsIdle(a)
  {
    var b := Node(FlipName(a.name), [a.kids[1], a.kids[0]]);
    if IsRelation(a.name) {
      TurnedIsEquiv(a);
    } else if OrderIsIdle(a) {
      TurnedHarmlessly(a);
    }
    if Equiv(a, b) { TurnedOnlyIf(a, b); }
  }

  lemma TurnedHarmlessly(a: Tree)
    requires |a.kids| == 2 && (IsCommutative(a.name) || IsEquality(a.name) || Equiv(a.kids[0], a.kids[1]))
    ensures Equiv(a, Node(a.name, [a.kids[1], a.kids[0]]))
  {
    var b := Node(a.name, [a.kids[1], a.kids[0]]);
    EquivRefl(a.kids[0]);
    EquivRefl(a.kids[1]);
    if IsCommutative(a.name) || IsEquality(a.name) {
      SwapEitherWay(a.name);
      EquivIntro(a, b, [1, 0]);
    } else {
      EquivSym(a.kids[0], a.kids[1]);
      EquivIntro(a, b, Identity(2));
    }
  }

  lemma TurnedOnlyIf(a: Tree, b: Tree)
    requires |a.kids| == 2 && b == Node(FlipName(a.name), [a.kids[1], a.kids[0]]) && Equiv(a, b)
    ensures IsRelation(a.name) || OrderIsIdle(a)
  {
    var f :| Pairing(a.name, b.name, 2, f)
          && forall i {:trigger f[i]} :: 0 <= i < 2 ==> Equiv(a.kids[i], b.kids[f[i]]);
    NameAfterTurn(a.name, f);
    assert Equiv(a.kids[0], b.kids[f[0]]);
  }

  lemma SwapEitherWay(name: string)
    requires IsCommutative(name) || IsEquality(name)
    ensures Pairing(name, name, 2, [1, 0])
  {
  }

  lemma NameAfterTurn(name: string, f: seq<nat>)
    requires Way(name, FlipName(name), 2, f)
    ensures IsRelation(name) ||
            (FlipName(name) == name && (IsCommutative(name) || IsEquality(name) || f == Identity(2)))
  {
    if Mirrors(name, FlipName(name)) { MirrorsTwice(name, FlipName(name)); }
  }

  /** Operands i of the student and j of the answer may be compared under a node of this name. */
  predicate MayMeet(name: string, i: nat, j: nat) {
    IsCommutative(name) || IsEquality(name) || i == j
  }

  /** Wherever a student relation may meet an answer node of another name, that node is a
      relation with two operands. */
  predicate Calm(s: Tree, a: Tree)
    decreases s
  {
    && (IsRelation(s.name) && s.name != a.name ==> IsRelation(a.name) && |a.kids| == 2)
    && var b := TurnRound(Guarded, s, a).value;
       (s.name == b.name && |s.kids| == |b.kids| ==> CalmKids(s, b.kids))
  }

  predicate CalmKids(s: Tree, ys: seq<Tree>)
    decreases s, 0
  {
    forall i, j :: 0 <= i < |s.kids| && 0 <= j < |ys| && MayMeet(s.name, i, j) ==> Calm(s.kids[i], ys[j])
  }

  lemma TurnedEquiv(s: Tree, a: Tree, a': Tree)
    requires Equiv(a, a')
    ensures Equiv(TurnRound(Guarded, s, a).value, TurnRound(Guarded, s, a').value)
  {
    TurnRoundIsHarmless(s, a);
    TurnRoundIsHarmless(s, a');
    var b, b' := TurnRound(Guarded, s, a).value, TurnRound(Guarded, s, a').value;
    EquivSym(a, b);
    EquivTrans(b, a, a');
    EquivTrans(b, a', b');
  }

  lemma TurnedNames(s: Tree, a: Tree, a': Tree)
    requires Calm(s, a) && |a.kids| == |a'.kids|
    requires a.name == a'.name || (Mirrors(a.name, a'.name) && |a.kids| == 2)
    ensures IsRelation(s.name) && s.name != a'.name ==> IsRelation(a'.name) && |a'.kids| == 2
    ensures var b, b' := TurnRound(Guarded, s, a).value, TurnRound(Guarded, s, a').value;
            s.name == b'.name ==> s.name == b.name
  {
    if Mirrors(a.name, a'.name) { MirrorsTwice(a.name, a'.name); }
  }

  lemma EquivNames(a: Tree, b: Tree)
    requires Equiv(a, b)
    ensures |a.kids| == |b.kids| && (a.name == b.name || (Mirrors(a.name, b.name) && |a.kids| == 2))
  {
  }

  /** Calm does not depend on the order of the answer's operands. */
  lemma {:induction false} CalmSame(s: Tree, a: Tree, a': Tree)
    requires Calm(s, a) && Equiv(a, a')
    ensures Calm(s, a')
    decreases s, 1
  {
    EquivNames(a, a');
    TurnedNames(s, a, a');
    TurnedEquiv(s, a, a');
    var b, b' := TurnRound(Guarded, s, a).value, TurnRound(Guarded, s, a').value;
    EquivNames(b, b');
    if s.name == b'.name && |s.kids| == |b'.kids| {
      CalmKidsSame(s, b, b');
    }
  }

  lemma CalmKidsSame(s: Tree, b: Tree, b': Tree)
    requires s.name == b.name == b'.name && |s.kids| == |b.kids| && CalmKids(s, b.kids) && Equiv(b, b')
    ensures CalmKids(s, b'.kids)
    decreases s, 0
  {
    var f :| Pairing(b.name, b'.name, |b.kids|, f)
          && forall i {:trigger f[i]} :: 0 <= i < |b.kids| ==> Equiv(b.kids[i], b'.kids[f[i]]);
    var g := Inverse(f);
    forall i, j | 0 <= i < |s.kids| && 0 <= j < |b'.kids| && MayMeet(s.name, i, j)
      ensures Calm(s.kids[i], b'.kids[j])
    {
      if !IsCommutative(b.name) { PlainWay(b.name, |b.kids|, f); }
      assert f[g[j]] == j && MayMeet(s.name, i, g[j]);
      CalmSame(s.kids[i], b.kids[g[j]], b'.kids[j]);
    }
  }

  lemma CalmAll(s: Tree, ys: seq<Tree>, zs: seq<Tree>)
    requires CalmKids(s, ys) && AllEquiv(ys, zs)
    ensures CalmKids(s, zs)
  {
    forall i, j | 0 <= i < |s.kids| && 0 <= j < |zs| && MayMeet(s.name, i, j) ensures Calm(s.kids[i], zs[j]) {
      CalmSame(s.kids[i], ys[j], zs[j]);
    }
  }

  /** On calm pairs the program as written does exactly what the guarded one does. */
  lemma {:induction false} CalmRuns(s: Tree, a: Tree)
    requires WellFormed(s) && Calm(s, a)
    ensures Compare(AsWritten, s, a) == Compare(Guarded, s, a)
    decreases s, |s.kids| + 2, 0, 0
  {
    var b := TurnRound(Guarded, s, a).value;
    assert TurnRound(AsWritten, s, a) == Some(b);
    if s.name == b.name && |s.kids| == |b.kids| && s.kids != [] {
      CalmKidsRun(s, b.kids);
    }
    assert Turned(AsWritten, s, b) == Turned(Guarded, s, b);
  }

  lemma CalmKidsRun(s: Tree, ys: seq<Tree>)
    requires WellFormed(s) && |s.kids| == |ys| > 0 && CalmKids(s, ys)
    ensures CompareKids(AsWritten, s, ys) == CompareKids(Guarded, s, ys)
    decreases s, |s.kids| + 1, 0, 0
  {
    if IsEquality(s.name) {
      CalmFromRun(s, 0, ys, 0);
      NotBoth(s.name);
      CompareFromDecides(s, 0, ys, 0);
      var r := CompareFrom(Guarded, s, 0, ys, 0);
      if r.ok {
        BothKids(s, ys, r);
      } else {
        var ws := [r.left[1], r.left[0]];
        CalmAll(s, ys, r.left);
        CalmSwapped(s, r.left);
        CalmFromRun(s, 0, ws, 0);
        BothKids(s, ys, r);
      }
    } else if IsCommutative(s.name) {
      CalmSearchRun(s, 0, ys, 0);
    } else {
      CalmFromRun(s, 0, ys, 0);
    }
  }

  /** What compare_tree does under == and !=, for either program. */
  lemma BothKids(s: Tree, ys: seq<Tree>, r: Outcome<seq<Tree>>)
    requires |s.kids| == |ys| == 2 && IsEquality(s.name) && r.Done?
    requires CompareFrom(AsWritten, s, 0, ys, 0) == r == CompareFrom(Guarded, s, 0, ys, 0)
    requires !r.ok ==> var ws := [r.left[1], r.left[0]];
                       CompareFrom(AsWritten, s, 0, ws, 0) == CompareFrom(Guarded, s, 0, ws, 0)
    ensures CompareKids(AsWritten, s, ys) == CompareKids(Guarded, s, ys)
  {
  }

  lemma CalmSwapped(s: Tree, ys: seq<Tree>)
    requires |ys| == 2 && IsEquality(s.name) && CalmKids(s, ys)
    ensures CalmKids(s, [ys[1], ys[0]])
  {
    forall i, j | 0 <= i < |s.kids| && 0 <= j < 2 ensures Calm(s.kids[i], [ys[1], ys[0]][j]) {
      assert MayMeet(s.name, i, 1 - j);
    }
  }

  lemma CalmFromRun(s: Tree, i: nat, ys: seq<Tree>, j: nat)
    requires WellFormed(s) && |s.kids| == |ys| && i < |ys| && j < |ys| && CalmKids(s, ys)
    requires IsCommutative(s.name) || i == j
    ensures CompareFrom(AsWritten, s, i, ys, j) == CompareFrom(Guarded, s, i, ys, j)
    decreases s, |s.kids| - i, |ys| - j, 0
  {
    assert MayMeet(s.name, i, j);
    CalmRuns(s.kids[i], ys[j]);
    CalmAfter(s, i, ys, j);
    var r := Compare(Guarded, s.kids[i], ys[j]);
    var zs := ys[j := r.left];
    if i + 1 < |ys| && r.ok {
      if IsCommutative(s.name) {
        CalmSearchRun(s, i + 1, zs, 0);
      } else {
        CalmFromRun(s, i + 1, zs, j + 1);
      }
    }
    OneKid(s, i, ys, j, r);
  }

  lemma CalmAfter(s: Tree, i: nat, ys: seq<Tree>, j: nat)
    requires WellFormed(s) && i < |s.kids| && j < |ys| && CalmKids(s, ys)
    ensures var r := Compare(Guarded, s.kids[i], ys[j]);
            r.Done? && CalmKids(s, ys[j := r.left])
  {
    CompareDecides(s.kids[i], ys[j]);
    AllEquivRefl(ys);
    CalmAll(s, ys, ys[j := Compare(Guarded, s.kids[i], ys[j]).left]);
  }

  lemma OneKid(s: Tree, i: nat, ys: seq<Tree>, j: nat, r: Outcome<Tree>)
    requires |s.kids| == |ys| && i < |ys| && j < |ys| && r.Done?
    requires Compare(AsWritten, s.kids[i], ys[j]) == r == Compare(Guarded, s.kids[i], ys[j])
    requires r.ok && i + 1 < |ys| ==>
               var zs := ys[j := r.left];
               if IsCommutative(s.name) then Search(AsWritten, s, i + 1, zs, 0) == Search(Guarded, s, i + 1, zs, 0)
               else
                 j + 1 < |ys| ==>
                   CompareFrom(AsWritten, s, i + 1, zs, j + 1) == CompareFrom(Guarded, s, i + 1, zs, j + 1)
    ensures CompareFrom(AsWritten, s, i, ys, j) == CompareFrom(Guarded, s, i, ys, j)
  {
    var zs := ys[j := r.left];
    assert CompareRest(AsWritten, s, i, zs, j, r.ok) == CompareRest(Guarded, s, i, zs, j, r.ok);
  }

  lemma CalmSearchRun(s: Tree, i: nat, ys: seq<Tree>, j: nat)
    requires WellFormed(s) && |s.kids| == |ys| && i < |ys| && j < |ys| && CalmKids(s, ys)
    requires IsCommutative(s.name)
    ensures Search(AsWritten, s, i, ys, j) == Search(Guarded, s, i, ys, j)
    decreases s, |s.kids| - i, |ys| - j, 1
  {
    CalmFromRun(s, i, ys, j);
    CompareFromDecides(s, i, ys, j);
    var r := CompareFrom(Guarded, s, i, ys, j);
    if !r.ok && j + 1 < |ys| {
      CalmAll(s, ys, r.left);
      CalmSearchRun(s, i, r.left, j + 1);
    }
  }

  /** As written, a && whose operands come in the other order stops the program. */
  lemma CrashesOnReordering(s: Tree, a: Tree)
    requires s.name == "&&" && |s.kids| == 2 && a == Node(s.name, [s.kids[1], s.kids[0]])
    requires IsRelation(s.kids[0].name) && s.kids[0].name != s.kids[1].name && |s.kids[1].kids| < 2
    ensures Equiv(s, a) && Compare(AsWritten, s, a).Crash?
  {
    TurnedHarmlessly(s);
    CrashAtFirst(s, a);
  }

  lemma CrashAtFirst(s: Tree, a: Tree)
    requires s.name == a.name == "&&" && |s.kids| == |a.kids| == 2
    requires TurnRound(AsWritten, s.kids[0], a.kids[0]).None?
    ensures Compare(AsWritten, s, a).Crash?
  {
    assert Compare(AsWritten, s.kids[0], a.kids[0]).Crash?;
    assert CompareFrom(AsWritten, s, 0, a.kids, 0).Crash?;
    assert Search(AsWritten, s, 0, a.kids, 0).Crash?;
    assert CompareKids(AsWritten, s, a.kids).Crash?;
  }

  // ---------------------------------------------------------------- students without relations

  /** No node of the student tree is a relation. */
  predicate NoRelation(s: Tree) {
    !IsRelation(s.name) && forall i :: 0 <= i < |s.kids| ==> NoRelation(s.kids[i])
  }

  predicate NoRelations(ts: seq<Tree>) {
    forall i :: 0 <= i < |ts| ==> NoRelation(ts[i])
  }

  lemma {:induction false} NoRelationIsCalm(s: Tree, a: Tree)
    requires NoRelation(s)
    ensures Calm(s, a)
    decreases s
  {
    var b := TurnRound(Guarded, s, a).value;
    forall i, j | 0 <= i < |s.kids| && 0 <= j < |b.kids| && MayMeet(s.name, i, j) ensures Calm(s.kids[i], b.kids[j]) {
      NoRelationIsCalm(s.kids[i], b.kids[j]);
    }
  }

  /** Without a relation in the student tree the two programs are one. */
  lemma NoRelationRuns(s: Tree, a: Tree)
    requires WellFormed(s) && NoRelation(s)
    ensures Compare(AsWritten, s, a) == Compare(Guarded, s, a)
  {
    NoRelationIsCalm(s, a);
    CalmRuns(s, a);
  }

  // ---------------------------------------------------------------- answers without relations

  lemma FlipKeepsKind(name: string)
    ensures IsRelation(FlipName(name)) == IsRelation(name)
  {
    if IsRelation(FlipName(name)) && name != "" && (name[0] == '<' || name[0] == '>') {
      assert name == [name[0]] + name[1..];
      assert FlipName(name)[1..] == name[1..];
    }
  }

  lemma TurnedWithout(s: Tree, a: Tree)
    requires NoRelation(a) && TurnRound(AsWritten, s, a).Some?
    ensures var b := TurnRound(AsWritten, s, a).value;
            NoRelation(b) && (s.name == b.name ==> !IsRelation(s.name))
  {
    FlipKeepsKind(a.name);
  }

  /** An answer without relations stays one, and never accepts a student with a relation. */
  lemma {:induction false} NeverAccepts(s: Tree, a: Tree)
    requires NoRelation(a)
    ensures var r := Compare(AsWritten, s, a);
            r.Done? ==> NoRelation(r.left) && (r.ok ==> NoRelation(s))
    decreases s, |s.kids| + 3, 0, 0
  {
    if TurnRound(AsWritten, s, a).Some? {
      TurnedWithout(s, a);
      var b := TurnRound(AsWritten, s, a).value;
      if s.name == b.name && |s.kids| == |b.kids| && s.kids != [] {
        KidsNeverAccept(s, b.kids);
      }
    }
  }

  /** Operands i and after of the student are without relations if this is accepted. */
  ghost predicate AcceptsOnly(s: Tree, i: nat, r: Outcome<seq<Tree>>) {
    r.Done? ==> NoRelations(r.left) && (r.ok ==> forall k :: i <= k < |s.kids| ==> NoRelation(s.kids[k]))
  }

  lemma KidsNeverAccept(s: Tree, ys: seq<Tree>)
    requires |s.kids| == |ys| > 0 && NoRelations(ys)
    ensures AcceptsOnly(s, 0, CompareKids(AsWritten, s, ys))
    decreases s, |s.kids| + 1, 0, 0
  {
    if IsEquality(s.name) {
      FromNeverAccepts(s, 0, ys, 0);
      var r := CompareFrom(AsWritten, s, 0, ys, 0);
      if r.Done? && !r.ok && ChangeSibling(r.left).Some? {
        var ws := ChangeSibling(r.left).value;
        assert NoRelations(ws);
        FromNeverAccepts(s, 0, ws, 0);
      }
    } else if IsCommutative(s.name) {
      SearchNeverAccepts(s, 0, ys, 0);
    } else {
      FromNeverAccepts(s, 0, ys, 0);
    }
  }

  lemma FromNeverAccepts(s: Tree, i: nat, ys: seq<Tree>, j: nat)
    requires i < |s.kids| && j < |ys| && NoRelations(ys)
    ensures AcceptsOnly(s, i, CompareFrom(AsWritten, s, i, ys, j))
    decreases s, |s.kids| - i, |ys| - j, 0
  {
    NeverAccepts(s.kids[i], ys[j]);
    var r := Compare(AsWritten, s.kids[i], ys[j]);
    if r.Done? {
      var zs := ys[j := r.left];
      assert NoRelations(zs);
      if i + 1 < |s.kids| && |s.kids| == |ys| && r.ok {
        if IsCommutative(s.name) {
          SearchNeverAccepts(s, i + 1, zs, 0);
        } else if j + 1 < |ys| {
          FromNeverAccepts(s, i + 1, zs, j + 1);
        }
      }
      assert AcceptsOnly(s, i, CompareRest(AsWritten, s, i, zs, j, r.ok));
    }
  }

  lemma SearchNeverAccepts(s: Tree, i: nat, ys: seq<Tree>, j: nat)
    requires i < |s.kids| && j < |ys| && NoRelations(ys)
    ensures AcceptsOnly(s, i, Search(AsWritten, s, i, ys, j))
    decreases s, |s.kids| - i, |ys| - j, 1
  {
    FromNeverAccepts(s, i, ys, j);
    var r := CompareFrom(AsWritten, s, i, ys, j);
    if r.Done? && !r.ok && j + 1 < |ys| {
      SearchNeverAccepts(s, i, r.left, j + 1);
    }
  }

  // ---------------------------------------------------------------- an answer that stops the program

  /** Positional operands: those before place k are accepted, and there the program stops. */
  lemma {:induction false} CrashInStep(s: Tree, ys: seq<Tree>, i: nat, k: nat)
    requires WellFormed(s) && i <= k < |s.kids| == |ys| && !IsCommutative(s.name)
    requires forall m :: i <= m < k ==> NoRelation(s.kids[m]) && ys[m] == s.kids[m]
    requires Compare(AsWritten, s.kids[k], ys[k]).Crash?
    ensures CompareFrom(AsWritten, s, i, ys, i).Crash?
    decreases k - i
  {
    if i < k {
      EquivRefl(s.kids[i]);
      AcceptsItself(s.kids[i], ys[i]);
      var zs := ys[i := Compare(AsWritten, s.kids[i], ys[i]).left];
      CrashInStep(s, zs, i + 1, k);
      assert CompareRest(AsWritten, s, i, zs, i, true).Crash?;
    }
  }

  lemma AcceptsItself(s: Tree, a: Tree)
    requires WellFormed(s) && NoRelation(s) && Equiv(s, a)
    ensures var r := Compare(AsWritten, s, a);
            r.Done? && r.ok && Equiv(a, r.left)
  {
    NoRelationRuns(s, a);
    CompareDecides(s, a);
    EquivIsLoose(s, a);
  }

  /** The operand with the relation is refused by the answer's operands before place k, and stops at k. */
  lemma {:induction false} CrashAtOperand(s: Tree, ys: seq<Tree>, k: nat, j: nat)
    requires j <= k < |s.kids| == |ys| && !NoRelation(s.kids[k])
    requires forall m :: j <= m < k ==> NoRelation(ys[m])
    requires Compare(AsWritten, s.kids[k], ys[k]).Crash?
    ensures Search(AsWritten, s, k, ys, j).Crash?
    decreases k - j
  {
    var r := Compare(AsWritten, s.kids[k], ys[j]);
    if r.Done? {
      NeverAccepts(s.kids[k], ys[j]);
      CrashAtOperand(s, ys[j := r.left], k, j + 1);
      CrashBehindRefused(s, ys, k, j, r.left);
    } else {
      assert CompareFrom(AsWritten, s, k, ys, j).Crash?;
    }
  }

  lemma CrashBehindFound(s: Tree, ys: seq<Tree>, i: nat, j: nat, y: Tree)
    requires i + 1 < |s.kids| == |ys| && j < |ys| && IsCommutative(s.name)
    requires Compare(AsWritten, s.kids[i], ys[j]) == Done(true, y) && Search(AsWritten, s, i + 1, ys[j := y], 0).Crash?
    ensures Search(AsWritten, s, i, ys, j).Crash?
  {
    assert CompareRest(AsWritten, s, i, ys[j := y], j, true).Crash?;
    assert CompareFrom(AsWritten, s, i, ys, j).Crash?;
  }

  lemma CrashBehindRefused(s: Tree, ys: seq<Tree>, i: nat, j: nat, y: Tree)
    requires i < |s.kids| == |ys| && j + 1 < |ys|
    requires Compare(AsWritten, s.kids[i], ys[j]) == Done(false, y) && Search(AsWritten, s, i, ys[j := y], j + 1).Crash?
    ensures Search(AsWritten, s, i, ys, j).Crash?
  {
    assert CompareRest(AsWritten, s, i, ys[j := y], j, false) == Done(false, ys[j := y]);
    assert CompareFrom(AsWritten, s, i, ys, j) == Done(false, ys[j := y]);
  }

  /** The operands of the student before place k have no relation and their counterparts in the answer, and
      at place k the program stops. */
  ghost predicate StopsAt(s: Tree, ys: seq<Tree>, k: nat) {
    && k < |s.kids| == |ys| && !NoRelation(s.kids[k]) && Compare(AsWritten, s.kids[k], ys[k]).Crash?
    && forall m :: 0 <= m < k ==> NoRelation(s.kids[m]) && Equiv(s.kids[m], ys[m])
  }

  /** One operand without relations tried: its own counterpart is accepted, and all of them remain. */
  lemma TryBefore(s: Tree, ys: seq<Tree>, i: nat, j: nat, k: nat)
    requires WellFormed(s) && j <= i < k && StopsAt(s, ys, k)
    ensures var r := Compare(AsWritten, s.kids[i], ys[j]);
            r.Done? && (j == i ==> r.ok) && StopsAt(s, ys[j := r.left], k)
  {
    NoRelationRuns(s.kids[i], ys[j]);
    CompareDecides(s.kids[i], ys[j]);
    var r := Compare(AsWritten, s.kids[i], ys[j]);
    if j == i { EquivIsLoose(s.kids[i], ys[i]); }
    EquivTrans(s.kids[j], ys[j], r.left);
  }

  lemma StopsAtOperand(s: Tree, ys: seq<Tree>, k: nat)
    requires StopsAt(s, ys, k)
    ensures Search(AsWritten, s, k, ys, 0).Crash?
  {
    forall m | 0 <= m < k ensures NoRelation(ys[m]) { NoRelationSame(s.kids[m], ys[m]); }
    CrashAtOperand(s, ys, k, 0);
  }

  /** Operands in any order: those before place k find their own counterparts at the latest, and behind them
      the program stops. */
  lemma {:induction false} CrashInSearch(s: Tree, ys: seq<Tree>, i: nat, k: nat, j: nat)
    requires WellFormed(s) && IsCommutative(s.name) && StopsAt(s, ys, k) && j <= i <= k
    requires i == k ==> j == 0
    ensures Search(AsWritten, s, i, ys, j).Crash?
    decreases k - i, i - j, 1
  {
    if i == k {
      StopsAtOperand(s, ys, k);
    } else {
      TryBefore(s, ys, i, j, k);
      var r := Compare(AsWritten, s.kids[i], ys[j]);
      if r.ok { CrashOnceFound(s, ys, i, k, j, r.left); } else { CrashOnceRefused(s, ys, i, k, j, r.left); }
    }
  }

  lemma CrashOnceFound(s: Tree, ys: seq<Tree>, i: nat, k: nat, j: nat, y: Tree)
    requires WellFormed(s) && IsCommutative(s.name) && j <= i < k && j < |ys| && StopsAt(s, ys[j := y], k)
    requires i < |s.kids|
    requires Compare(AsWritten, s.kids[i], ys[j]) == Done(true, y)
    ensures Search(AsWritten, s, i, ys, j).Crash?
    decreases k - i, i - j, 0
  {
    CrashInSearch(s, ys[j := y], i + 1, k, 0);
    CrashBehindFound(s, ys, i, j, y);
  }

  lemma CrashOnceRefused(s: Tree, ys: seq<Tree>, i: nat, k: nat, j: nat, y: Tree)
    requires WellFormed(s) && IsCommutative(s.name) && j < i < k && j < |ys| && StopsAt(s, ys[j := y], k)
    requires i < |s.kids|
    requires Compare(AsWritten, s.kids[i], ys[j]) == Done(false, y)
    ensures Search(AsWritten, s, i, ys, j).Crash?
    decreases k - i, i - j, 0
  {
    CrashInSearch(s, ys[j := y], i, k, j + 1);
    CrashBehindRefused(s, ys, i, j, y);
  }

  lemma {:induction false} NoRelationSame(s: Tree, t: Tree)
    requires NoRelation(s) && Equiv(s, t)
    ensures NoRelation(t)
    decreases s
  {
    var f :| Pairing(s.name, t.name, |s.kids|, f)
          && forall i {:trigger f[i]} :: 0 <= i < |s.kids| ==> Equiv(s.kids[i], t.kids[f[i]]);
    var g := Inverse(f);
    forall j | 0 <= j < |t.kids| ensures NoRelation(t.kids[j]) {
      assert f[g[j]] == j;
      NoRelationSame(s.kids[g[j]], t.kids[j]);
    }
    if Mirrors(s.name, t.name) { FlipKeepsKind(t.name); }
  }

  /** The first operand that contains a relation. */
  lemma {:induction false} FirstRelation(ts: seq<Tree>) returns (k: nat)
    requires !NoRelations(ts)
    ensures k < |ts| && !NoRelation(ts[k]) && forall m :: 0 <= m < k ==> NoRelation(ts[m])
  {
    k := 0;
    while NoRelation(ts[k])
      invariant k < |ts| && forall m :: 0 <= m < k ==> NoRelation(ts[m])
      decreases |ts| - k
    {
      k := k + 1;
    }
  }

  lemma CrashBelow(s: Tree, k: nat, x: Tree)
    requires WellFormed(s) && k < |s.kids| && !IsRelation(s.name) && !NoRelation(s.kids[k])
    requires forall m :: 0 <= m < k ==> NoRelation(s.kids[m])
    requires Compare(AsWritten, s.kids[k], x).Crash?
    ensures Compare(AsWritten, s, Node(s.name, s.kids[k := x])).Crash?
  {
    var ys := s.kids[k := x];
    if IsCommutative(s.name) {
      forall m | 0 <= m < k ensures Equiv(s.kids[m], ys[m]) { EquivRefl(s.kids[m]); }
      CrashInSearch(s, ys, 0, k, 0);
    } else {
      CrashInStep(s, ys, 0, k);
    }
    assert CompareKids(AsWritten, s, ys).Crash?;
  }

  /** Every student tree with a relation has an answer on which the program reads a missing operand: the
      tree itself with a plain name for the first relation met. */
  lemma {:induction false} Stopper(s: Tree) returns (a: Tree)
    requires WellFormed(s) && !NoRelation(s)
    ensures Compare(AsWritten, s, a).Crash?
    decreases s
  {
    if IsRelation(s.name) {
      a := Node("x", []);
    } else {
      var k := FirstRelation(s.kids);
      var x := Stopper(s.kids[k]);
      CrashBelow(s, k, x);
      a := Node(s.name, s.kids[k := x]);
    }
  }

  // ---------------------------------------------------------------- exactly when it can be trusted

  /** No answer stops the program as written exactly when the student tree has no relation. */
  lemma RunsExactly(s: Tree)
    requires WellFormed(s)
    ensures (forall a :: Compare(AsWritten, s, a).Done?) <==> NoRelation(s)
  {
    if NoRelation(s) {
      forall a ensures Compare(AsWritten, s, a).Done? {
        NoRelationRuns(s, a);
        CompareDecides(s, a);
      }
    } else {
      var a := Stopper(s);
    }
  }

  /** The two programs agree on every answer exactly when the student tree has no relation. */
  lemma AgreesExactly(s: Tree)
    requires WellFormed(s)
    ensures (forall a :: Compare(AsWritten, s, a) == Compare(Guarded, s, a)) <==> NoRelation(s)
  {
    if NoRelation(s) {
      forall a ensures Compare(AsWritten, s, a) == Compare(Guarded, s, a) { NoRelationRuns(s, a); }
    } else {
      var a := Stopper(s);
      CompareDecides(s, a);
    }
  }

  /** The model answer itself can stop the program: one relation behind a plain operand is enough. */
  lemma ModelAnswerStops(s: Tree)
    requires IsCommutative(s.name) && |s.kids| >= 2
    requires s.kids[0].kids == [] && !IsRelation(s.kids[0].name) && IsRelation(s.kids[1].name)
    ensures Compare(AsWritten, s, s).Crash?
  {
    var x, ys := s.kids[0], s.kids;
    assert Compare(AsWritten, x, x) == Done(true, x);
    assert ys[0 := x] == ys;
    assert Compare(AsWritten, ys[1], x).Crash?;
    assert CompareFrom(AsWritten, s, 1, ys, 0).Crash?;
    assert Search(AsWritten, s, 1, ys, 0).Crash?;
    assert CompareRest(AsWritten, s, 0, ys, 0, true).Crash?;
    assert CompareFrom(AsWritten, s, 0, ys, 0).Crash?;
    assert CompareKids(AsWritten, s, ys).Crash?;
  }
}
