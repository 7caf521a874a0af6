/** What expr_eq recognises and expr_eliminate_eq takes out, without reference to how: expressions are
    compared up to regrouping and reordering the operands of and/or at every depth. */
module KconfigSame {
  import opened KconfigExpr
  import opened KconfigEliminate

  // ---------- Canonical forms ----------

  /** An expression in which the operands of a chain of one operator form a multiset. */
  datatype Canon = Leaf(e: Expr) | Neg(c: Canon) | Chain(op: Op, operands: multiset<Canon>)

  ghost function Norm(e: Expr): Canon
    decreases Size(e), 1
  {
    match e
    case Not(x) => Neg(Norm(x))
    case And(_, _) => Chain(AndOp, Norms(AndOp, e.left) + Norms(AndOp, e.right))
    case Or(_, _) => Chain(OrOp, Norms(OrOp, e.left) + Norms(OrOp, e.right))
    case _ => Leaf(e)
  }

  /** The operands of the `op` chain at the top of `e`, as a multiset of canonical forms. */
  ghost function Norms(op: Op, e: Expr): multiset<Canon>
    decreases Size(e), 2
  {
    if IsNode(op, e) then Norms(op, e.left) + Norms(op, e.right) else multiset{Norm(e)}
  }

  /** No operand of a chain anywhere in the expression is the constant yes or no. */
  predicate Clean(e: Expr) {
    match e
    case Not(x) => Clean(x)
    case And(l, r) => Clean(l) && Clean(r) && !IsYn(l) && !IsYn(r)
    case Or(l, r) => Clean(l) && Clean(r) && !IsYn(l) && !IsYn(r)
    case _ => true
  }

  // ---------- What cancelling leaves ----------

  /** A chain some of whose operands have been replaced by the neutral constant. */
  predicate HalfCancelled(op: Op, e: Expr) {
    if IsNode(op, e) then HalfCancelled(op, e.left) && HalfCancelled(op, e.right)
    else e == Sym(Unit(op)) || (Clean(e) && !IsYn(e))
  }

  /** The operands that are left. */
  ghost function Rest(op: Op, e: Expr): multiset<Canon> {
    if IsNode(op, e) then Rest(op, e.left) + Rest(op, e.right)
    else if e == Sym(Unit(op)) then multiset{}
    else multiset{Norm(e)}
  }

  lemma {:induction false} CleanIsWhole(op: Op, e: Expr)
    requires Clean(e) && !IsYn(e)
    ensures HalfCancelled(op, e) && Rest(op, e) == Norms(op, e)
  {
    if IsNode(op, e) {
      CleanIsWhole(op, e.left);
      CleanIsWhole(op, e.right);
    }
  }

  lemma {:induction false} CleanHasNoYn(e: Expr)
    requires Clean(e)
    ensures !HasYn(e) && EliminateYn(e) == e
  {
    if Binary(e) {
      CleanHasNoYn(e.left);
      CleanHasNoYn(e.right);
    }
  }

  /** What is left of a chain once the constants are gone: the neutral constant if nothing is left, and
      otherwise an expression with just the operands that were left. */
  ghost predicate Remains(op: Op, e: Expr, left: multiset<Canon>) {
    if left == multiset{} then e == Sym(Unit(op))
    else Clean(e) && !IsYn(e) && Norms(op, e) == left
  }

  lemma {:induction false} RestRemains(op: Op, e: Expr)
    requires HalfCancelled(op, e)
    ensures Remains(op, EliminateYn(e), Rest(op, e))
  {
    hide EliminateYn, Remains, Norm, Norms, Clean;
    if IsNode(op, e) {
      RestRemains(op, e.left);
      RestRemains(op, e.right);
      var l, r := EliminateYn(e.left), EliminateYn(e.right);
      TwoRemain(op, l, Rest(op, e.left), r, Rest(op, e.right));
      YnOfNode(op, e);
    } else {
      OneRemains(op, e);
    }
  }

  /** expr_eliminate_yn at a node whose operands are done and are not the constant that decides it. */
  function Merge(op: Op, l: Expr, r: Expr): Expr {
    if l == Sym(Unit(op)) then r else if r == Sym(Unit(op)) then l else Mk(op, l, r)
  }

  lemma {:induction false} YnOfNode(op: Op, e: Expr)
    requires IsNode(op, e) && EliminateYn(e.left) != Sym(Zero(op)) && EliminateYn(e.right) != Sym(Zero(op))
    ensures EliminateYn(e) == Merge(op, EliminateYn(e.left), EliminateYn(e.right))
  {
  }

  lemma {:induction false} OneRemains(op: Op, e: Expr)
    requires !IsNode(op, e) && HalfCancelled(op, e)
    ensures Remains(op, EliminateYn(e), Rest(op, e))
  {
    if e != Sym(Unit(op)) { CleanHasNoYn(e); }
  }

  lemma {:induction false} TwoRemain(op: Op, l: Expr, a: multiset<Canon>, r: Expr, b: multiset<Canon>)
    requires Remains(op, l, a) && Remains(op, r, b)
    ensures l != Sym(Zero(op)) && r != Sym(Zero(op))
    ensures Remains(op, Merge(op, l, r), a + b)
  {
    hide Norm, Norms, Clean, Mk;
    if a == multiset{} {
      assert a + b == b;
    } else if b == multiset{} {
      assert a + b == a;
    } else {
      hide IsYn, Remains;
      BothRemain(op, l, a, r, b);
    }
  }

  lemma {:induction false} BothRemain(op: Op, l: Expr, a: multiset<Canon>, r: Expr, b: multiset<Canon>)
    requires Remains(op, l, a) && Remains(op, r, b) && a != multiset{} && b != multiset{}
    ensures Merge(op, l, r) == Mk(op, l, r) && Remains(op, Mk(op, l, r), a + b)
  {
    hide Norm;
    assert |a + b| == |a| + |b| > 0;
    NormsOfNode(op, l, r);
    hide Norms;
  }

  lemma {:induction false} NormsOfNode(op: Op, l: Expr, r: Expr)
    ensures Norms(op, Mk(op, l, r)) == Norms(op, l) + Norms(op, r)
  {
    hide Norm;
  }

  lemma {:induction false} DifferenceInTurn(a: multiset<Canon>, b: multiset<Canon>, c: multiset<Canon>)
    ensures (a - c) + (b - (c - a)) == (a + b) - c
    ensures (c - a) - b == c - (a + b)
  {
  }

  /** Cancelling takes out exactly what the two chains have in common. */
  lemma {:induction false} CancelExact(op: Op, e1: Expr, e2: Expr)
    requires HalfCancelled(op, e1) && HalfCancelled(op, e2)
    ensures var p := CancelEq(op, e1, e2);
            && HalfCancelled(op, p.0) && HalfCancelled(op, p.1)
            && Rest(op, p.0) == Rest(op, e1) - Rest(op, e2)
            && Rest(op, p.1) == Rest(op, e2) - Rest(op, e1)
    decreases Size(e1) + Size(e2), if IsNode(op, e1) || IsNode(op, e2) then 0 else 3
  {
    hide Rest, HalfCancelled, CancelEq, ExprEq, Norm, Clean;
    if IsNode(op, e1) {
      CancelLeftNode(op, e1, e2);
      var (l, e2a) := CancelEq(op, e1.left, e2);
      var (r, e2b) := CancelEq(op, e1.right, e2a);
      RestOfNode(op, e1);
      RestOfNode(op, Mk(op, l, r));
      CancelExact(op, e1.left, e2);
      CancelExact(op, e1.right, e2a);
      DifferenceInTurn(Rest(op, e1.left), Rest(op, e1.right), Rest(op, e2));
    } else if IsNode(op, e2) {
      CancelRightNode(op, e1, e2);
      var (e1a, l) := CancelEq(op, e1, e2.left);
      var (e1b, r) := CancelEq(op, e1a, e2.right);
      RestOfNode(op, e2);
      RestOfNode(op, Mk(op, l, r));
      CancelExact(op, e1, e2.left);
      CancelExact(op, e1a, e2.right);
      DifferenceInTurn(Rest(op, e2.left), Rest(op, e2.right), Rest(op, e1));
    } else {
      if e1 != Sym(Unit(op)) && e2 != Sym(Unit(op)) {
        RestOfOperand(op, e1);
        RestOfOperand(op, e2);
        ExprEqExact(e1, e2);
      }
      CancelOperands(op, e1, e2);
    }
  }

  lemma {:induction false} RestOfNode(op: Op, e: Expr)
    requires IsNode(op, e)
    ensures Rest(op, e) == Rest(op, e.left) + Rest(op, e.right)
    ensures HalfCancelled(op, e) <==> HalfCancelled(op, e.left) && HalfCancelled(op, e.right)
  {
  }

  lemma {:induction false} RestOfOperand(op: Op, e: Expr)
    requires !IsNode(op, e) && HalfCancelled(op, e) && e != Sym(Unit(op))
    ensures Clean(e) && !IsYn(e) && Rest(op, e) == multiset{Norm(e)}
  {
  }

  lemma {:induction false} CancelLeftNode(op: Op, e1: Expr, e2: Expr)
    requires IsNode(op, e1)
    ensures var (l, e2a) := CancelEq(op, e1.left, e2);
            var (r, e2b) := CancelEq(op, e1.right, e2a);
            CancelEq(op, e1, e2) == (Mk(op, l, r), e2b)
  {
    hide ExprEq;
  }

  lemma {:induction false} CancelRightNode(op: Op, e1: Expr, e2: Expr)
    requires !IsNode(op, e1) && IsNode(op, e2)
    ensures var (e1a, l) := CancelEq(op, e1, e2.left);
            var (e1b, r) := CancelEq(op, e1a, e2.right);
            CancelEq(op, e1, e2) == (e1b, Mk(op, l, r))
  {
    hide ExprEq;
  }

  lemma {:induction false} CancelOperands(op: Op, e1: Expr, e2: Expr)
    requires HalfCancelled(op, e1) && HalfCancelled(op, e2) && !IsNode(op, e1) && !IsNode(op, e2)
    requires e1 != Sym(Unit(op)) && e2 != Sym(Unit(op)) ==> (ExprEq(e1, e2) <==> Norm(e1) == Norm(e2))
    ensures var p := CancelEq(op, e1, e2);
            && HalfCancelled(op, p.0) && HalfCancelled(op, p.1)
            && Rest(op, p.0) == Rest(op, e1) - Rest(op, e2)
            && Rest(op, p.1) == Rest(op, e2) - Rest(op, e1)
  {
    UnitAlone(op, e1, e2);
    hide Norm, ExprEq, Clean;
    UnitIsEmpty(op);
    if e1 != Sym(Unit(op)) { RestOfOperand(op, e1); }
    if e2 != Sym(Unit(op)) { RestOfOperand(op, e2); }
    OperandStep(op, e1, e2);
    hide HalfCancelled, Rest, CancelEq;
  }

  lemma {:induction false} UnitIsEmpty(op: Op)
    ensures HalfCancelled(op, Sym(Unit(op))) && Rest(op, Sym(Unit(op))) == multiset{}
  {
  }

  lemma {:induction false} OperandStep(op: Op, e1: Expr, e2: Expr)
    requires !IsNode(op, e1) && !IsNode(op, e2)
    ensures CancelEq(op, e1, e2)
            == if ExprEq(e1, e2) && !(e1 == e2 && IsYn(e1)) then (Sym(Unit(op)), Sym(Unit(op))) else (e1, e2)
  {
    hide ExprEq;
  }

  /** expr_eq recognises two expressions without constant operands if and only if they agree up to
      regrouping and reordering the operands of and/or, at every depth. */
  lemma {:induction false} ExprEqExact(e1: Expr, e2: Expr)
    requires Clean(e1) && Clean(e2)
    ensures ExprEq(e1, e2) <==> Norm(e1) == Norm(e2)
    decreases Size(e1) + Size(e2), 2
  {
    if e1.Not? && e2.Not? {
      ExprEqExact(e1.e, e2.e);
    } else if Binary(e1) && Binary(e2) && OpOf(e1) == OpOf(e2) {
      ChainsExact(OpOf(e1), e1, e2);
    }
  }

  lemma {:induction false} ChainsExact(op: Op, e1: Expr, e2: Expr)
    requires IsNode(op, e1) && IsNode(op, e2) && Clean(e1) && Clean(e2)
    ensures Collapsed(EliminateEq(e1, e2)) <==> Norms(op, e1) == Norms(op, e2)
    decreases Size(e1) + Size(e2), 1, 1
  {
    hide CancelEq, EliminateYn, Clean, Norm, Norms, Remains, Collapsed;
    FactorBy(op, e1, e2);
    var f := EliminateEq(e1, e2);
    var n1, n2 := Norms(op, e1), Norms(op, e2);
    NotCollapsed(op, f.0, n1 - n2, f.1, n2 - n1);
    if n1 - n2 == multiset{} && n2 - n1 == multiset{} {
      assert forall c :: n1[c] == n2[c] by { Balanced(n1, n2); }
      assert n1 == n2;
    }
  }

  /** Of two chains (or single operands) of `op`, what each has and the other has not is left. */
  ghost predicate Factored(op: Op, e1: Expr, e2: Expr, f: (Expr, Expr)) {
    && Remains(op, f.0, Norms(op, e1) - Norms(op, e2))
    && Remains(op, f.1, Norms(op, e2) - Norms(op, e1))
  }

  lemma {:induction false} FactorBy(op: Op, e1: Expr, e2: Expr)
    requires Clean(e1) && Clean(e2) && !IsYn(e1) && !IsYn(e2) && (IsNode(op, e1) || IsNode(op, e2))
    ensures var p := CancelEq(op, e1, e2); Factored(op, e1, e2, (EliminateYn(p.0), EliminateYn(p.1)))
    decreases Size(e1) + Size(e2), 1, 0
  {
    hide CancelEq, EliminateYn, Clean, Norm, Norms, HalfCancelled, Rest, Remains;
    CleanIsWhole(op, e1);
    CleanIsWhole(op, e2);
    CancelExact(op, e1, e2);
    var p := CancelEq(op, e1, e2);
    RestRemains(op, p.0);
    RestRemains(op, p.1);
  }

  /** Two remainders without a common operand are the same single symbol only if both are empty. */
  lemma {:induction false} NotCollapsed(op: Op, e1: Expr, a: multiset<Canon>, e2: Expr, b: multiset<Canon>)
    requires Remains(op, e1, a) && Remains(op, e2, b) && forall c :: a[c] == 0 || b[c] == 0
    ensures Collapsed((e1, e2)) <==> a == multiset{} && b == multiset{}
  {
    hide Norm, Clean;
    if a != multiset{} && b != multiset{} {
      assert e1.Sym? ==> a == multiset{Norm(e1)} && a[Norm(e1)] == 1;
      assert e2.Sym? ==> b == multiset{Norm(e2)} && b[Norm(e2)] == 1;
    }
  }

  lemma {:induction false} Balanced(a: multiset<Canon>, b: multiset<Canon>)
    requires a - b == multiset{} && b - a == multiset{}
    ensures forall c :: a[c] == b[c]
  {
    forall c ensures a[c] == b[c] {
      assert (a - b)[c] == 0 && (b - a)[c] == 0;
    }
  }

  // ---------- The whole common factor ----------

  /** Cancelling against a single operand either replaces that operand or changes nothing at all. */
  lemma {:induction false} CancelSecondOperand(op: Op, e1: Expr, x: Expr)
    requires !IsNode(op, x)
    ensures var p := CancelEq(op, e1, x); p.1 == Sym(Unit(op)) || p == (e1, x)
    decreases e1
  {
    hide ExprEq;
    if IsNode(op, e1) {
      CancelSecondOperand(op, e1.left, x);
      CancelSecondOperand(op, e1.right, CancelEq(op, e1.left, x).1);
      assert Mk(op, e1.left, e1.right) == e1;
    }
  }

  /** expr_eliminate_eq takes the whole common factor out of two expressions: of their operands, only what
      one has and the other has not is left. The operator is that of the first expression, unless that is
      no chain, or the second is a chain of the other operator and no operand of the first. */
  lemma {:induction false} EliminateEqExact(e1: Expr, e2: Expr)
    requires Clean(e1) && Clean(e2) && !IsYn(e1) && !IsYn(e2)
    ensures !Binary(e1) && !Binary(e2) ==> EliminateEq(e1, e2) == (e1, e2)
    ensures Binary(e1) && (!Binary(e2) || OpOf(e2) == OpOf(e1) || Norm(e2) in Norms(OpOf(e1), e1)) ==>
              Factored(OpOf(e1), e1, e2, EliminateEq(e1, e2))
    ensures Binary(e2) && (!Binary(e1) || (OpOf(e2) != OpOf(e1) && Norm(e2) !in Norms(OpOf(e1), e1))) ==>
              Factored(OpOf(e2), e1, e2, EliminateEq(e1, e2))
  {
    hide CancelEq, EliminateYn, Clean, Norm, Norms, HalfCancelled, Rest, Remains;
    CleanHasNoYn(e1);
    CleanHasNoYn(e2);
    if Binary(e1) {
      var op := OpOf(e1);
      FactorBy(op, e1, e2);
      if !IsNode(op, e2) {
        OperandLeft(op, e1, e2);
        CancelSecondOperand(op, e1, e2);
      }
    }
    if Binary(e2) { FactorBy(OpOf(e2), e1, e2); }
  }

  /** A single operand is replaced if and only if it is one of the chain's. */
  lemma {:induction false} OperandLeft(op: Op, e1: Expr, x: Expr)
    requires Clean(e1) && Clean(x) && !IsYn(e1) && !IsYn(x) && !IsNode(op, x)
    ensures CancelEq(op, e1, x).1 == Sym(Unit(op)) <==> Norm(x) in Norms(op, e1)
  {
    hide CancelEq, Norm, Clean;
    CleanIsWhole(op, e1);
    CleanIsWhole(op, x);
    CancelExact(op, e1, x);
    CancelSecondOperand(op, e1, x);
    var left := multiset{Norm(x)} - Norms(op, e1);
    assert Norms(op, x) == multiset{Norm(x)};
    assert left[Norm(x)] == if Norm(x) in Norms(op, e1) then 0 else 1;
    if Norm(x) in Norms(op, e1) { assert Rest(op, x)[Norm(x)] == 1; }
  }

  // ---------- In terms of operands ----------

  lemma {:induction false} NormOfOperand(op: Op, e: Expr, i: nat)
    requires i < |Operands(op, e)|
    ensures Norm(Operands(op, e)[i]) in Norms(op, e)
  {
    hide Norm;
    if IsNode(op, e) {
      var l := Operands(op, e.left);
      if i < |l| { NormOfOperand(op, e.left, i); } else { NormOfOperand(op, e.right, i - |l|); }
    }
  }

  /** After expr_eliminate_eq on two chains of one operator, no operand of one is taken for equal to an
      operand of the other, except that both may have come down to the neutral constant. */
  lemma {:induction false} NothingInCommon(op: Op, e1: Expr, e2: Expr, i: nat, j: nat)
    requires IsNode(op, e1) && IsNode(op, e2) && Clean(e1) && Clean(e2)
    requires var f := EliminateEq(e1, e2); i < |Operands(op, f.0)| && j < |Operands(op, f.1)|
    ensures var f := EliminateEq(e1, e2);
            var x, y := Operands(op, f.0)[i], Operands(op, f.1)[j];
            ExprEq(x, y) ==> x == y == Sym(Unit(op))
  {
    hide EliminateEq, Norm, Norms, ExprEq, Operands, Clean;
    EliminateEqExact(e1, e2);
    var f := EliminateEq(e1, e2);
    var x, y := Operands(op, f.0)[i], Operands(op, f.1)[j];
    CleanOperand(op, f.0, i);
    CleanOperand(op, f.1, j);
    NormOfOperand(op, f.0, i);
    NormOfOperand(op, f.1, j);
    UnitAlone(op, x, y);
    if x != Sym(Unit(op)) && y != Sym(Unit(op)) {
      UnitOperands(op, f.0, i);
      UnitOperands(op, f.1, j);
      ExprEqExact(x, y);
      assert (Norms(op, e1) - Norms(op, e2))[Norm(x)] > 0 && (Norms(op, e2) - Norms(op, e1))[Norm(y)] > 0;
    }
  }

  lemma {:induction false} UnitAlone(op: Op, x: Expr, y: Expr)
    ensures x == Sym(Unit(op)) || y == Sym(Unit(op)) ==> (ExprEq(x, y) <==> x == y)
  {
  }

  lemma {:induction false} UnitOperands(op: Op, e: Expr, i: nat)
    requires i < |Operands(op, e)| && Operands(op, e)[i] != Sym(Unit(op))
    ensures e != Sym(Unit(op))
  {
  }

  lemma {:induction false} CleanOperand(op: Op, e: Expr, i: nat)
    requires Clean(e) && i < |Operands(op, e)|
    ensures Clean(Operands(op, e)[i]) && (!IsYn(e) ==> !IsYn(Operands(op, e)[i]))
  {
    if IsNode(op, e) {
      var l := Operands(op, e.left);
      if i < |l| { CleanOperand(op, e.left, i); } else { CleanOperand(op, e.right, i - |l|); }
    }
  }

  /** All operands of the chain are symbols or comparisons, and none is y or n. */
  predicate Plain(op: Op, e: Expr) {
    if IsNode(op, e) then Plain(op, e.left) && Plain(op, e.right) else (e.Sym? || e.Comp?) && !IsYn(e)
  }

  lemma {:induction false} PlainIsClean(op: Op, e: Expr)
    requires Plain(op, e)
    ensures Clean(e) && !IsYn(e)
  {
    if IsNode(op, e) {
      PlainIsClean(op, e.left);
      PlainIsClean(op, e.right);
    }
  }

  lemma {:induction false} PlainNorms(op: Op, e: Expr, c: Canon)
    requires Plain(op, e)
    ensures Norms(op, e)[c] == if c.Leaf? then multiset(Operands(op, e))[c.e] else 0
  {
    if IsNode(op, e) {
      hide Norm, Plain;
      PlainParts(op, e);
      PlainNorms(op, e.left, c);
      PlainNorms(op, e.right, c);
      NormsOfNode(op, e.left, e.right);
      assert multiset(Operands(op, e)) == multiset(Operands(op, e.left)) + multiset(Operands(op, e.right));
    }
  }

  lemma {:induction false} PlainParts(op: Op, e: Expr)
    requires Plain(op, e) && IsNode(op, e)
    ensures Plain(op, e.left) && Plain(op, e.right) && Mk(op, e.left, e.right) == e
  {
  }

  /** For two chains of symbols and comparisons expr_eq compares the multisets of their operands. */
  lemma {:induction false} PlainChainsEqual(op: Op, e1: Expr, e2: Expr)
    requires IsNode(op, e1) && IsNode(op, e2) && Plain(op, e1) && Plain(op, e2)
    ensures ExprEq(e1, e2) <==> multiset(Operands(op, e1)) == multiset(Operands(op, e2))
  {
    hide ExprEq, Operands, Plain, Norms, Clean;
    PlainIsClean(op, e1);
    PlainIsClean(op, e2);
    ExprEqExact(e1, e2);
    NormOfChain(op, e1);
    NormOfChain(op, e2);
    var m1, m2 := multiset(Operands(op, e1)), multiset(Operands(op, e2));
    forall c ensures Norms(op, e1)[c] == if c.Leaf? then m1[c.e] else 0 { PlainNorms(op, e1, c); }
    forall c ensures Norms(op, e2)[c] == if c.Leaf? then m2[c.e] else 0 { PlainNorms(op, e2, c); }
    if Norms(op, e1) == Norms(op, e2) {
      forall x ensures m1[x] == m2[x] { assert Norms(op, e1)[Leaf(x)] == m1[x]; }
      assert m1 == m2;
    }
    if m1 == m2 { assert Norms(op, e1) == Norms(op, e2); }
  }

  lemma {:induction false} NormOfChain(op: Op, e: Expr)
    requires IsNode(op, e)
    ensures Norm(e) == Chain(op, Norms(op, e))
  {
  }

  /** With constant operands expr_eq takes more for equal than that: removing them can bring together what
      is grouped differently, as (A || n) && y and A && y. */
  lemma {:induction false} ConstantsBlur(a: Symbol)
    requires a.Config?
    ensures exists e1: Expr, e2: Expr :: ExprEq(e1, e2) && Norm(e1) != Norm(e2)
  {
    var x, y, n := Sym(a), Sym(SYM_YES), Sym(SYM_NO);
    var e1, e2 := And(Or(x, n), y), And(x, y);
    assert !ExprEq(Or(x, n), x) && !ExprEq(Or(x, n), y) && !ExprEq(y, x);
    assert CancelEq(AndOp, Or(x, n), x) == (Or(x, n), x);
    assert CancelEq(AndOp, Or(x, n), y) == (Or(x, n), y);
    assert CancelEq(AndOp, Or(x, n), e2) == (Or(x, n), e2);
    assert CancelEq(AndOp, y, x) == (y, x) && CancelEq(AndOp, y, y) == (y, y);
    assert CancelEq(AndOp, y, e2) == (y, e2);
    assert CancelEq(AndOp, e1, e2) == (e1, e2);
    assert EliminateYn(e1) == x by { assert EliminateYn(Or(x, n)) == x; }
    assert EliminateYn(e2) == x;
    assert ExprEq(e1, e2);
    NormsDiffer(x, n, y);
  }

  lemma {:induction false} NormsDiffer(x: Expr, n: Expr, y: Expr)
    requires x.Sym? && n.Sym? && y.Sym? && x != y
    ensures Norm(And(Or(x, n), y)) != Norm(And(x, y))
  {
    assert Norms(AndOp, Or(x, n)) == multiset{Norm(Or(x, n))};
    SymbolNorms(x);
    SymbolNorms(y);
    var m1, m2 := multiset{Norm(Or(x, n))} + multiset{Leaf(y)}, multiset{Leaf(x)} + multiset{Leaf(y)};
    assert m1[Leaf(x)] == 0 && m2[Leaf(x)] == 1;
  }

  lemma {:induction false} SymbolNorms(x: Expr)
    requires x.Sym?
    ensures Norms(AndOp, x) == multiset{Leaf(x)}
  {
    assert Norm(x) == Leaf(x);
  }
}
