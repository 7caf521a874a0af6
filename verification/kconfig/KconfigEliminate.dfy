/** expr_eliminate_yn, expr_eliminate_eq and expr_eq: removing constants and common factors. */
module KconfigEliminate {
  import opened KconfigExpr

  // ---------- Constants ----------

  /** expr_eliminate_yn. */
  function EliminateYn(e: Expr): Expr {
    if !Binary(e) then e
    else
      var op := OpOf(e);
      var l, r := EliminateYn(e.left), EliminateYn(e.right);
      if l == Sym(Zero(op)) then Sym(Zero(op))
      else if l == Sym(Unit(op)) then r
      else if r == Sym(Zero(op)) then Sym(Zero(op))
      else if r == Sym(Unit(op)) then l
      else Mk(op, l, r)
  }

  predicate IsYn(e: Expr) { e == Sym(SYM_YES) || e == Sym(SYM_NO) }

  /** Some operand of a conjunction or disjunction is the constant yes or no. */
  predicate HasYn(e: Expr) {
    Binary(e) && (IsYn(e.left) || IsYn(e.right) || HasYn(e.left) || HasYn(e.right))
  }

  lemma {:induction false} EliminateYnKeepsValue(e: Expr, v: Valuation)
    ensures Eval(EliminateYn(e), v) == Eval(e, v)
  {
    if Binary(e) {
      EliminateYnKeepsValue(e.left, v);
      EliminateYnKeepsValue(e.right, v);
    }
  }

  /** Nothing is left to eliminate, and the expression shrinks exactly when there was something. */
  lemma {:induction false} EliminateYnShrinks(e: Expr)
    ensures !HasYn(EliminateYn(e))
    ensures Size(EliminateYn(e)) <= Size(e)
    ensures HasYn(e) ==> Size(EliminateYn(e)) < Size(e)
    ensures !HasYn(e) ==> EliminateYn(e) == e
  {
    if Binary(e) {
      EliminateYnShrinks(e.left);
      EliminateYnShrinks(e.right);
    }
  }

  // ---------- Common factors ----------

  /** expr_eq: syntactic equality, up to cancelling equal operands of and/or. */
  predicate ExprEq(e1: Expr, e2: Expr)
    decreases Size(e1) + Size(e2), 2
  {
    match (e1, e2)
    case (Sym(s), Sym(t)) => s == t
    case (Comp(rel1, a, b), Comp(rel2, c, d)) => rel1 == rel2 && a == c && b == d
    case (Not(x), Not(y)) => ExprEq(x, y)
    case (And(_, _), And(_, _)) => Collapsed(EliminateEq(e1, e2))
    case (Or(_, _), Or(_, _)) => Collapsed(EliminateEq(e1, e2))
    case _ => false
  }

  predicate Collapsed(p: (Expr, Expr)) {
    p.0.Sym? && p.1.Sym? && p.0.s == p.1.s
  }

  /** __expr_eliminate_eq on two disjoint trees: operands of e1 that equal an operand of e2 are replaced,
      in both, by the operator's neutral constant. Returns both trees after the mutation. */
  function CancelEq(op: Op, e1: Expr, e2: Expr): (p: (Expr, Expr))
    ensures Size(p.0) <= Size(e1) && Size(p.1) <= Size(e2)
    ensures IsNode(op, e1) ==> IsNode(op, p.0)
    ensures IsNode(op, e2) ==> IsNode(op, p.1)
    decreases Size(e1) + Size(e2), if IsNode(op, e1) || IsNode(op, e2) then 0 else 3
  {
    if IsNode(op, e1) then
      var (l, e2a) := CancelEq(op, e1.left, e2);
      var (r, e2b) := CancelEq(op, e1.right, e2a);
      (Mk(op, l, r), e2b)
    else if IsNode(op, e2) then
      var (e1a, l) := CancelEq(op, e1, e2.left);
      var (e1b, r) := CancelEq(op, e1a, e2.right);
      (e1b, Mk(op, l, r))
    else if e1 == e2 && IsYn(e1) then (e1, e2)
    else if !ExprEq(e1, e2) then (e1, e2)
    else (Sym(Unit(op)), Sym(Unit(op)))
  }

  /** expr_eliminate_eq. */
  function EliminateEq(e1: Expr, e2: Expr): (Expr, Expr)
    decreases Size(e1) + Size(e2), 1
  {
    var p := if Binary(e1) then CancelEq(OpOf(e1), e1, e2) else (e1, e2);
    var q := if Binary(p.1) && !(Binary(p.0) && OpOf(p.0) == OpOf(p.1)) then CancelEq(OpOf(p.1), p.0, p.1) else p;
    (EliminateYn(q.0), EliminateYn(q.1))
  }

  // ---------- The common context ----------

  /** A layer joins a fixed expression to what stands inside. A context is a list of layers, outermost
      first; it denotes a monotone function of the value in its hole. */
  datatype Layer = Layer(op: Op, x: Expr)

  function Plug(c: seq<Layer>, hole: Tri, v: Valuation): Tri {
    if c == [] then hole else Apply(c[0].op, Eval(c[0].x, v), Plug(c[1..], hole, v))
  }

  lemma {:induction false} PlugConcat(c: seq<Layer>, d: seq<Layer>, hole: Tri, v: Valuation)
    ensures Plug(c + d, hole, v) == Plug(c, Plug(d, hole, v), v)
  {
    if c == [] {
      assert c + d == d;
    } else {
      assert (c + d)[0] == c[0] && (c + d)[1..] == c[1..] + d;
      PlugConcat(c[1..], d, hole, v);
    }
  }

  lemma {:induction false} PlugMonotone(c: seq<Layer>, a: Tri, b: Tri, v: Valuation)
    requires a <= b
    ensures Plug(c, a, v) <= Plug(c, b, v)
  {
    if c != [] { PlugMonotone(c[1..], a, b, v); }
  }

  ghost predicate AllOp(op: Op, c: seq<Layer>) { forall i :: 0 <= i < |c| ==> c[i].op == op }

  /** A context of one operator commutes with joining another operand. */
  lemma {:induction false} PlugJoin(op: Op, c: seq<Layer>, a: Tri, b: Tri, v: Valuation)
    requires AllOp(op, c)
    ensures Apply(op, Plug(c, a, v), b) == Plug(c, Apply(op, a, b), v)
    ensures Apply(op, b, Plug(c, a, v)) == Plug(c, Apply(op, b, a), v)
  {
    if c != [] { PlugJoin(op, c[1..], a, b, v); }
  }

  /** `c` is a context common to the change from e1 to f1 and from e2 to f2, in every valuation. */
  ghost predicate CommonContext(c: seq<Layer>, e1: Expr, f1: Expr, e2: Expr, f2: Expr) {
    forall v: Valuation :: Eval(e1, v) == Plug(c, Eval(f1, v), v) && Eval(e2, v) == Plug(c, Eval(f2, v), v)
  }

  lemma {:induction false} CancelEqContext(op: Op, e1: Expr, e2: Expr) returns (c: seq<Layer>)
    ensures AllOp(op, c)
    ensures CommonContext(c, e1, CancelEq(op, e1, e2).0, e2, CancelEq(op, e1, e2).1)
    decreases Size(e1) + Size(e2), if IsNode(op, e1) || IsNode(op, e2) then 0 else 3
  {
    var p := CancelEq(op, e1, e2);
    if IsNode(op, e1) {
      var (l, e2a) := CancelEq(op, e1.left, e2);
      var c1 := CancelEqContext(op, e1.left, e2);
      var c2 := CancelEqContext(op, e1.right, e2a);
      c := c1 + c2;
      forall v: Valuation
        ensures Eval(e1, v) == Plug(c, Eval(p.0, v), v) && Eval(e2, v) == Plug(c, Eval(p.1, v), v)
      {
        var r := CancelEq(op, e1.right, e2a).0;
        PlugConcat(c1, c2, Eval(p.0, v), v);
        PlugConcat(c1, c2, Eval(p.1, v), v);
        PlugJoin(op, c1, Eval(l, v), Eval(e1.right, v), v);
        PlugJoin(op, c2, Eval(r, v), Eval(l, v), v);
      }
    } else if IsNode(op, e2) {
      var (e1a, l) := CancelEq(op, e1, e2.left);
      var c1 := CancelEqContext(op, e1, e2.left);
      var c2 := CancelEqContext(op, e1a, e2.right);
      c := c1 + c2;
      forall v: Valuation
        ensures Eval(e1, v) == Plug(c, Eval(p.0, v), v) && Eval(e2, v) == Plug(c, Eval(p.1, v), v)
      {
        var r := CancelEq(op, e1a, e2.right).1;
        PlugConcat(c1, c2, Eval(p.0, v), v);
        PlugConcat(c1, c2, Eval(p.1, v), v);
        PlugJoin(op, c1, Eval(l, v), Eval(e2.right, v), v);
        PlugJoin(op, c2, Eval(r, v), Eval(l, v), v);
      }
    } else if p != (e1, e2) {
      c := [Layer(op, e1)];
      forall v: Valuation
        ensures Eval(e1, v) == Plug(c, Eval(p.0, v), v) && Eval(e2, v) == Plug(c, Eval(p.1, v), v)
      {
        ExprEqSound(e1, e2, v);
        assert c[1..] == [];
      }
    } else {
      c := [];
    }
  }

  /** expr_eliminate_eq factors one monotone context out of both expressions, the same in every valuation. */
  lemma {:induction false} EliminateEqContext(e1: Expr, e2: Expr) returns (c: seq<Layer>)
    ensures CommonContext(c, e1, EliminateEq(e1, e2).0, e2, EliminateEq(e1, e2).1)
    decreases Size(e1) + Size(e2), 1
  {
    var p := (e1, e2);
    var c1: seq<Layer> := [];
    if Binary(e1) {
      p := CancelEq(OpOf(e1), e1, e2);
      c1 := CancelEqContext(OpOf(e1), e1, e2);
    }
    var q := p;
    var c2: seq<Layer> := [];
    if Binary(p.1) && !(Binary(p.0) && OpOf(p.0) == OpOf(p.1)) {
      q := CancelEq(OpOf(p.1), p.0, p.1);
      c2 := CancelEqContext(OpOf(p.1), p.0, p.1);
    }
    c := c1 + c2;
    forall v: Valuation
      ensures Eval(e1, v) == Plug(c, Eval(EliminateEq(e1, e2).0, v), v)
      ensures Eval(e2, v) == Plug(c, Eval(EliminateEq(e1, e2).1, v), v)
    {
      EliminateYnKeepsValue(q.0, v);
      EliminateYnKeepsValue(q.1, v);
      PlugConcat(c1, c2, Eval(q.0, v), v);
      PlugConcat(c1, c2, Eval(q.1, v), v);
    }
  }

  /** Expressions that expr_eq takes for equal have equal values. */
  lemma {:induction false} ExprEqSound(e1: Expr, e2: Expr, v: Valuation)
    requires ExprEq(e1, e2)
    ensures Eval(e1, v) == Eval(e2, v)
    decreases Size(e1) + Size(e2), 2
  {
    match e1
    case Not(x) => ExprEqSound(x, e2.e, v);
    case And(_, _) => var c := EliminateEqContext(e1, e2);
    case Or(_, _) => var c := EliminateEqContext(e1, e2);
    case _ =>
  }

  // ---------- expr_eq is reflexive ----------

  /** The chain with every operand cancelled that can be. */
  function Cancelled(op: Op, e: Expr): Expr {
    if IsNode(op, e) then Mk(op, Cancelled(op, e.left), Cancelled(op, e.right))
    else if IsYn(e) then e
    else Sym(Unit(op))
  }

  predicate AllYn(op: Op, e: Expr) {
    if IsNode(op, e) then AllYn(op, e.left) && AllYn(op, e.right) else IsYn(e)
  }

  lemma {:induction false} CancelledIsAllYn(op: Op, e: Expr)
    ensures AllYn(op, Cancelled(op, e)) && IsYn(EliminateYn(Cancelled(op, e)))
  {
    if IsNode(op, e) {
      CancelledIsAllYn(op, e.left);
      CancelledIsAllYn(op, e.right);
    }
  }

  /** An operand finds nothing to cancel among constants, and a constant nowhere. */
  lemma {:induction false} NothingToCancel(op: Op, x: Expr, b: Expr)
    requires !IsNode(op, x) && (AllYn(op, b) || IsYn(x))
    ensures CancelEq(op, x, b) == (x, b)
    decreases b
  {
    if IsNode(op, b) {
      NothingToCancel(op, x, b.left);
      NothingToCancel(op, x, b.right);
    }
  }

  /** A place inside a chain: on the way down, which side was taken and what stands on the other. */
  datatype Frame = GoLeft(right: Expr) | GoRight(left: Expr)

  function Fill(op: Op, fs: seq<Frame>, t: Expr): Expr {
    if fs == [] then t
    else if fs[0].GoLeft? then Mk(op, Fill(op, fs[1..], t), fs[0].right)
    else Mk(op, fs[0].left, Fill(op, fs[1..], t))
  }

  lemma {:induction false} FillDeeper(op: Op, fs: seq<Frame>, f: Frame, t: Expr)
    ensures Fill(op, fs + [f], t) == Fill(op, fs, Fill(op, [f], t))
  {
    if fs == [] {
      assert fs + [f] == [f];
    } else {
      assert (fs + [f])[0] == fs[0] && (fs + [f])[1..] == fs[1..] + [f];
      FillDeeper(op, fs[1..], f, t);
    }
  }

  ghost predicate LeftIsDone(op: Op, fs: seq<Frame>) {
    forall i :: 0 <= i < |fs| && fs[i].GoRight? ==> AllYn(op, fs[i].left)
  }

  lemma {:induction false} OperandCancelsItself(op: Op, fs: seq<Frame>, x: Expr)
    requires !IsNode(op, x) && LeftIsDone(op, fs) && ExprEq(x, x)
    ensures CancelEq(op, x, Fill(op, fs, x)) == (Cancelled(op, x), Fill(op, fs, Cancelled(op, x)))
  {
    if fs != [] {
      OperandCancelsItself(op, fs[1..], x);
      if fs[0].GoLeft? {
        NothingToCancel(op, Cancelled(op, x), fs[0].right);
      } else {
        NothingToCancel(op, x, fs[0].left);
      }
    }
  }

  ghost predicate OperandsReflexive(op: Op, e: Expr) {
    if IsNode(op, e) then OperandsReflexive(op, e.left) && OperandsReflexive(op, e.right) else ExprEq(e, e)
  }

  lemma {:induction false} ChainCancelsItself(op: Op, fs: seq<Frame>, a: Expr)
    requires LeftIsDone(op, fs) && OperandsReflexive(op, a)
    ensures CancelEq(op, a, Fill(op, fs, a)) == (Cancelled(op, a), Fill(op, fs, Cancelled(op, a)))
    decreases a
  {
    if IsNode(op, a) {
      var l := Cancelled(op, a.left);
      FillDeeper(op, fs, GoLeft(a.right), a.left);
      FillDeeper(op, fs, GoLeft(a.right), l);
      FillDeeper(op, fs, GoRight(l), a.right);
      FillDeeper(op, fs, GoRight(l), Cancelled(op, a.right));
      CancelledIsAllYn(op, a.left);
      ChainCancelsItself(op, fs + [GoLeft(a.right)], a.left);
      ChainCancelsItself(op, fs + [GoRight(l)], a.right);
    } else {
      OperandCancelsItself(op, fs, a);
    }
  }

  lemma {:induction false} AllOperandsReflexive(op: Op, e: Expr, bound: nat)
    requires Size(e) <= bound && (IsNode(op, e) || Size(e) < bound)
    ensures OperandsReflexive(op, e)
    decreases bound, 0, Size(e)
  {
    if IsNode(op, e) {
      AllOperandsReflexive(op, e.left, bound);
      AllOperandsReflexive(op, e.right, bound);
    } else {
      ExprEqReflexive(e);
    }
  }

  /** Cancelling loses nothing: every expression is recognised as equal to itself. */
  lemma {:induction false} ExprEqReflexive(e: Expr)
    ensures ExprEq(e, e)
    decreases Size(e), 1, 0
  {
    if e.Not? {
      ExprEqReflexive(e.e);
    } else if Binary(e) {
      var op := OpOf(e);
      AllOperandsReflexive(op, e, Size(e));
      ChainCancelsItself(op, [], e);
      CancelledIsAllYn(op, e);
    }
  }
}
