/** expr_transform: pushing negations down to symbols and simplifying tests of boolean symbols. */
module KconfigTransform {
  import opened KconfigExpr

  /** The measure by which expr_transform, which calls itself again on nodes it has just built, comes
      to an end: a negation doubles the weight of what it negates. */
  function Weight(e: Expr): (w: nat)
    ensures w >= 1
  {
    match e
    case Sym(_) => 1
    case Comp(_, _, _) => 2
    case Not(x) => 2 * Weight(x)
    case And(l, r) => 1 + Weight(l) + Weight(r)
    case Or(l, r) => 1 + Weight(l) + Weight(r)
  }

  /** The case of an equality or inequality. */
  function TransformComp(rel: Rel, a: Symbol, b: Symbol): Expr
    requires rel == Eq || rel == Ne
  {
    if a.Type() != BooleanType then Comp(rel, a, b)
    else if rel == Eq then
      if b == SYM_NO then Not(Sym(a))
      else if b == SYM_MOD then Sym(SYM_NO)
      else if b == SYM_YES then Sym(a)
      else Comp(rel, a, b)
    else
      if b == SYM_NO then Sym(a)
      else if b == SYM_MOD then Sym(SYM_YES)
      else if b == SYM_YES then Not(Sym(a))
      else Comp(rel, a, b)
  }

  function Opposite(rel: Rel): Rel {
    match rel
    case Eq => Ne
    case Ne => Eq
    case Le => Gt
    case Ge => Lt
    case Lt => Ge
    case Gt => Le
  }

  /** Pushing a negation through and/or makes the expression lighter. */
  lemma {:induction false} PushedIsLighter(l: Expr, r: Expr)
    ensures Weight(And(Not(l), Not(r))) == Weight(Or(Not(l), Not(r))) == 2 * Weight(l) + 2 * Weight(r) + 1
    ensures Weight(And(l, r)) == Weight(Or(l, r)) == Weight(l) + Weight(r) + 1
    ensures Weight(And(Not(l), Not(r))) < Weight(Not(Or(l, r))) && Weight(Or(Not(l), Not(r))) < Weight(Not(And(l, r)))
  {
    assert Weight(Not(l)) == 2 * Weight(l) && Weight(Not(r)) == 2 * Weight(r);
    assert Weight(Not(Or(l, r))) == 2 * Weight(Or(l, r)) && Weight(Not(And(l, r))) == 2 * Weight(And(l, r));
  }

  /** expr_transform. */
  function Transform(e: Expr): (r: Expr)
    ensures Weight(r) <= Weight(e)
    decreases Weight(e)
  {
    match e
    case Sym(_) => e
    case Comp(rel, a, b) => if rel == Eq || rel == Ne then TransformComp(rel, a, b) else e
    case And(l, r) => And(Transform(l), Transform(r))
    case Or(l, r) => Or(Transform(l), Transform(r))
    case Not(x) =>
      var inner := Transform(x);
      match inner
      case Not(y) => Transform(y)
      case Comp(rel, a, b) => Comp(Opposite(rel), a, b)
      case Or(l, r) => PushedIsLighter(l, r); Transform(And(Not(l), Not(r)))
      case And(l, r) => PushedIsLighter(l, r); Transform(Or(Not(l), Not(r)))
      case Sym(s) =>
        if s == SYM_YES then Sym(SYM_NO)
        else if s == SYM_MOD then Sym(SYM_MOD)
        else if s == SYM_NO then Sym(SYM_YES)
        else Not(inner)
  }

  lemma {:induction false} TransformCompKeepsValue(rel: Rel, a: Symbol, b: Symbol, v: Valuation)
    requires Good(v) && (rel == Eq || rel == Ne)
    ensures Eval(TransformComp(rel, a, b), v) == Eval(Comp(rel, a, b), v)
  {
    if a.Type() == BooleanType { CompareLetters(a, b, v); }
  }

  /** expr_transform keeps the value in every valuation. */
  lemma {:induction false} TransformKeepsValue(e: Expr, v: Valuation)
    requires Good(v)
    ensures Eval(Transform(e), v) == Eval(e, v)
    decreases Weight(e)
  {
    hide Compare, TransformComp;
    match e
    case Sym(_) =>
    case Comp(rel, a, b) =>
      if rel == Eq || rel == Ne { TransformCompKeepsValue(rel, a, b, v); }
    case And(l, r) =>
      TransformKeepsValue(l, v);
      TransformKeepsValue(r, v);
    case Or(l, r) =>
      TransformKeepsValue(l, v);
      TransformKeepsValue(r, v);
    case Not(x) =>
      TransformKeepsValue(x, v);
      match Transform(x)
      case Not(y) => TransformKeepsValue(y, v);
      case Or(l, r) =>
        PushedIsLighter(l, r);
        TransformKeepsValue(And(Not(l), Not(r)), v);
      case And(l, r) =>
        PushedIsLighter(l, r);
        TransformKeepsValue(Or(Not(l), Not(r)), v);
      case _ =>
  }

  // ---------- Normal form ----------

  predicate BuiltIn(s: Symbol) { s == SYM_YES || s == SYM_MOD || s == SYM_NO }

  /** Negation only on symbols other than y, m and n; boolean symbols are not compared with y, m or n. */
  predicate Normal(e: Expr) {
    match e
    case Sym(_) => true
    case Comp(rel, a, b) => !((rel == Eq || rel == Ne) && a.Type() == BooleanType && BuiltIn(b))
    case Not(x) => x.Sym? && !BuiltIn(x.s)
    case And(l, r) => Normal(l) && Normal(r)
    case Or(l, r) => Normal(l) && Normal(r)
  }

  lemma {:induction false} TransformNormalises(e: Expr)
    ensures Normal(Transform(e))
    decreases Weight(e)
  {
    match e
    case Sym(_) =>
    case Comp(_, _, _) =>
    case And(l, r) =>
      TransformNormalises(l);
      TransformNormalises(r);
    case Or(l, r) =>
      TransformNormalises(l);
      TransformNormalises(r);
    case Not(x) =>
      TransformNormalises(x);
      match Transform(x)
      case Not(y) => TransformNormalises(y);
      case Or(l, r) =>
        PushedIsLighter(l, r);
        TransformNormalises(And(Not(l), Not(r)));
      case And(l, r) =>
        PushedIsLighter(l, r);
        TransformNormalises(Or(Not(l), Not(r)));
      case _ =>
  }

  lemma {:induction false} NormalIsFixed(e: Expr)
    requires Normal(e)
    ensures Transform(e) == e
  {
    match e
    case And(l, r) =>
      NormalIsFixed(l);
      NormalIsFixed(r);
    case Or(l, r) =>
      NormalIsFixed(l);
      NormalIsFixed(r);
    case _ =>
  }

  /** Normal expressions are exactly the ones expr_transform leaves alone, and it always reaches one:
      in particular it is idempotent. */
  lemma {:induction false} TransformFixedPoints(e: Expr)
    ensures Transform(e) == e <==> Normal(e)
    ensures Transform(Transform(e)) == Transform(e)
  {
    TransformNormalises(e);
    NormalIsFixed(Transform(e));
    if Normal(e) { NormalIsFixed(e); }
  }

  // ---------- The result, computed in one go ----------

  /** A symbol, or its negation; the built-in ones have constants for that. */
  function Literal(s: Symbol, negated: bool): Expr {
    if !negated then Sym(s)
    else if s == SYM_YES then Sym(SYM_NO)
    else if s == SYM_MOD then Sym(SYM_MOD)
    else if s == SYM_NO then Sym(SYM_YES)
    else Not(Sym(s))
  }

  /** A test of a boolean symbol for y, m or n says the symbol, nothing at all, or its negation. */
  function Test(equal: bool, a: Symbol, b: Symbol): Expr {
    if b == SYM_MOD then Sym(if equal then SYM_NO else SYM_YES)
    else if equal == (b == SYM_YES) then Sym(a)
    else Not(Sym(a))
  }

  /** Negation normal form by plain recursion: a negation is carried down and turns operators and relations
      round on the way. Operands keep their order. */
  function Nnf(e: Expr, negated: bool): Expr {
    match e
    case Sym(s) => Literal(s, negated)
    case Not(x) => Nnf(x, !negated)
    case And(l, r) => if negated then Or(Nnf(l, true), Nnf(r, true)) else And(Nnf(l, false), Nnf(r, false))
    case Or(l, r) => if negated then And(Nnf(l, true), Nnf(r, true)) else Or(Nnf(l, false), Nnf(r, false))
    case Comp(rel, a, b) =>
      if (rel == Eq || rel == Ne) && a.Type() == BooleanType && BuiltIn(b) then Test((rel == Eq) != negated, a, b)
      else Comp(if negated then Opposite(rel) else rel, a, b)
  }

  /** Negating a normal form once more is the same as negating what it came from. */
  lemma {:induction false} NnfTwice(e: Expr, negated: bool)
    ensures Nnf(Nnf(e, negated), true) == Nnf(e, !negated)
    ensures Nnf(Nnf(e, negated), false) == Nnf(e, negated)
  {
    match e
    case Not(x) => NnfTwice(x, !negated);
    case And(l, r) => NnfTwice(l, negated); NnfTwice(r, negated);
    case Or(l, r) => NnfTwice(l, negated); NnfTwice(r, negated);
    case _ =>
  }

  /** expr_transform, which rebuilds nodes and calls itself on them, computes exactly that form. */
  lemma {:induction false} TransformExact(e: Expr)
    ensures Transform(e) == Nnf(e, false)
    decreases Weight(e)
  {
    match e
    case Sym(_) =>
    case Comp(_, _, _) =>
    case And(l, r) =>
      TransformExact(l);
      TransformExact(r);
    case Or(l, r) =>
      TransformExact(l);
      TransformExact(r);
    case Not(x) =>
      TransformExact(x);
      NnfTwice(x, false);
      match Transform(x)
      case Not(y) => TransformExact(y);
      case Or(l, r) =>
        PushedIsLighter(l, r);
        TransformExact(And(Not(l), Not(r)));
      case And(l, r) =>
        PushedIsLighter(l, r);
        TransformExact(Or(Not(l), Not(r)));
      case _ =>
  }
}
