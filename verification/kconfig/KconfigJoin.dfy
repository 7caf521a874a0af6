/** expr_join_or and expr_join_and: combining two operands into one. */
module KconfigJoin {
  import opened KconfigExpr
  import opened KconfigEliminate

  /** The symbol an operand is about; of the two operands only the first may be a negated comparison. */
  function Subject(e: Expr, first: bool): Option<Symbol> {
    match e
    case Sym(s) => Some(s)
    case Comp(rel, a, _) => if rel == Eq || rel == Ne then Some(a) else None
    case Not(x) =>
      if x.Sym? then Some(x.s)
      else if first && x.Comp? && (x.rel == Eq || x.rel == Ne) then Some(x.a)
      else None
    case _ => None
  }

  predicate EqTo(e: Expr, c: Symbol) { e.Comp? && e.rel == Eq && e.b == c }

  predicate NeTo(e: Expr, c: Symbol) { e.Comp? && e.rel == Ne && e.b == c }

  predicate EqPair(e1: Expr, e2: Expr, c: Symbol, d: Symbol) {
    (EqTo(e1, c) && EqTo(e2, d)) || (EqTo(e1, d) && EqTo(e2, c))
  }

  predicate NePair(e1: Expr, e2: Expr, c: Symbol, d: Symbol) {
    (NeTo(e1, c) && NeTo(e2, d)) || (NeTo(e1, d) && NeTo(e2, c))
  }

  /** The symbol both operands are about, if the join rules apply at all. */
  function CommonSubject(e1: Expr, e2: Expr): Option<Symbol> {
    var s1, s2 := Subject(e1, true), Subject(e2, false);
    if s1.Some? && s2.Some? && s1 == s2 && s1.value.TwoOrThreeValued() then s1 else None
  }

  /** expr_join_or: a single expression worth e1 || e2, or None. */
  function JoinOr(e1: Expr, e2: Expr): Option<Expr> {
    if ExprEq(e1, e2) then Some(e1)
    else
      var subject := CommonSubject(e1, e2);
      if subject.None? then None
      else
        var a := subject.value;
        if a.Type() == TristateType && EqPair(e1, e2, SYM_YES, SYM_MOD) then Some(Comp(Ne, a, SYM_NO))
        else if a.Type() == TristateType && EqPair(e1, e2, SYM_YES, SYM_NO) then Some(Comp(Ne, a, SYM_MOD))
        else if a.Type() == TristateType && EqPair(e1, e2, SYM_MOD, SYM_NO) then Some(Comp(Ne, a, SYM_YES))
        else if a.Type() == BooleanType && ((e1.Not? && e1.e.Sym? && e2.Sym?) || (e2.Not? && e2.e.Sym? && e1.Sym?))
        then Some(Sym(SYM_YES))
        else None
  }

  /** expr_join_and: a single expression worth e1 && e2, or None. */
  function JoinAnd(e1: Expr, e2: Expr): Option<Expr> {
    if ExprEq(e1, e2) then Some(e1)
    else
      var subject := CommonSubject(e1, e2);
      if subject.None? then None
      else
        var a := subject.value;
        if (e1.Sym? && EqTo(e2, SYM_YES)) || (e2.Sym? && EqTo(e1, SYM_YES)) then Some(Comp(Eq, a, SYM_YES))
        else if (e1.Sym? && NeTo(e2, SYM_NO)) || (e2.Sym? && NeTo(e1, SYM_NO)) then Some(Sym(a))
        else if (e1.Sym? && NeTo(e2, SYM_MOD)) || (e2.Sym? && NeTo(e1, SYM_MOD)) then Some(Comp(Eq, a, SYM_YES))
        else if a.Type() == TristateType then JoinAndTristate(a, e1, e2)
        else None
  }

  function JoinAndTristate(a: Symbol, e1: Expr, e2: Expr): Option<Expr> {
    if EqNe(e1, e2) then Some(EqNeResult(a, e1, e2))
    else if EqNe(e2, e1) then Some(EqNeResult(a, e2, e1))
    else if NePair(e1, e2, SYM_YES, SYM_NO) then Some(Comp(Eq, a, SYM_MOD))
    else if NePair(e1, e2, SYM_YES, SYM_MOD) then Some(Comp(Eq, a, SYM_NO))
    else if NePair(e1, e2, SYM_MOD, SYM_NO) then Some(Comp(Eq, a, SYM_YES))
    else None
  }

  /** a = 'b' && a != 'c' for constants b and c. */
  predicate EqNe(e1: Expr, e2: Expr) {
    && e1.Comp? && e1.rel == Eq && e1.b.Constant?
    && e2.Comp? && e2.rel == Ne && e2.b.Constant?
  }

  function EqNeResult(a: Symbol, e1: Expr, e2: Expr): Expr
    requires EqNe(e1, e2)
  {
    if e1.b != e2.b then Comp(Eq, a, e1.b) else Sym(SYM_NO)
  }

  function Join(op: Op, e1: Expr, e2: Expr): Option<Expr> {
    if op == OrOp then JoinOr(e1, e2) else JoinAnd(e1, e2)
  }

  // ---------- Soundness ----------

  /** The value of an equality or inequality of a boolean or tristate symbol with a constant. */
  lemma {:induction false} CompConstant(rel: Rel, a: Symbol, c: Symbol, v: Valuation)
    requires a.TwoOrThreeValued() && a.Config? && c.Constant? && (rel == Eq || rel == Ne) && Good(v)
    ensures Eval(Comp(rel, a, c), v) == if (Letter(v.tri(a)) == c.text) == (rel == Eq) then YES else NO
  {
    CompareLetters(a, c, v);
  }

  /** The values of the operands and the result, in terms of the subject's value. */
  lemma {:induction false} OperandValue(e: Expr, a: Symbol, v: Valuation)
    requires Good(v) && a.TwoOrThreeValued()
    ensures e == Sym(a) ==> Eval(e, v) == v.tri(a)
    ensures e == Not(Sym(a)) ==> Eval(e, v) == 2 - v.tri(a)
    ensures e.Comp? && e.a == a && e.b.Constant? && (e.rel == Eq || e.rel == Ne) ==>
              Eval(e, v) == if (Letter(v.tri(a)) == e.b.text) == (e.rel == Eq) then YES else NO
  {
    if e.Comp? && e.a == a && e.b.Constant? && (e.rel == Eq || e.rel == Ne) {
      CompConstant(e.rel, a, e.b, v);
    }
  }

  lemma {:induction false} JoinOrKeepsValue(e1: Expr, e2: Expr, v: Valuation)
    requires Good(v) && JoinOr(e1, e2).Some? && !ExprEq(e1, e2)
    ensures Eval(JoinOr(e1, e2).value, v) == Max(Eval(e1, v), Eval(e2, v))
  {
    hide ExprEq, Eval, Compare;
    var a := CommonSubject(e1, e2).value;
    OperandValue(e1, a, v);
    OperandValue(e2, a, v);
    OperandValue(JoinOr(e1, e2).value, a, v);
    YesNo(v);
  }

  lemma {:induction false} JoinAndTristateKeepsValue(a: Symbol, e1: Expr, e2: Expr, v: Valuation)
    requires Good(v) && CommonSubject(e1, e2) == Some(a) && a.Type() == TristateType
    requires JoinAndTristate(a, e1, e2).Some?
    ensures Eval(JoinAndTristate(a, e1, e2).value, v) == Min(Eval(e1, v), Eval(e2, v))
  {
    hide Eval;
    OperandValue(e1, a, v);
    OperandValue(e2, a, v);
    OperandValue(JoinAndTristate(a, e1, e2).value, a, v);
    YesNo(v);
  }

  lemma {:induction false} JoinAndKeepsValue(e1: Expr, e2: Expr, v: Valuation)
    requires Good(v) && JoinAnd(e1, e2).Some? && !ExprEq(e1, e2)
    ensures Eval(JoinAnd(e1, e2).value, v) == Min(Eval(e1, v), Eval(e2, v))
  {
    hide ExprEq, Eval, JoinAndTristate;
    var a := CommonSubject(e1, e2).value;
    if a.Type() == TristateType && JoinAndTristate(a, e1, e2).Some? { JoinAndTristateKeepsValue(a, e1, e2, v); }
    OperandValue(e1, a, v);
    OperandValue(e2, a, v);
    OperandValue(JoinAnd(e1, e2).value, a, v);
  }

  lemma {:induction false} YesNo(v: Valuation)
    ensures Eval(Sym(SYM_YES), v) == YES && Eval(Sym(SYM_NO), v) == NO
  {
  }

  /** Whatever expr_join_or and expr_join_and return is worth the two operands joined. */
  lemma {:induction false} JoinKeepsValue(op: Op, e1: Expr, e2: Expr, v: Valuation)
    requires Good(v) && Join(op, e1, e2).Some?
    ensures Eval(Join(op, e1, e2).value, v) == Apply(op, Eval(e1, v), Eval(e2, v))
  {
    hide Eval;
    if ExprEq(e1, e2) {
      ExprEqSound(e1, e2, v);
    } else if op == OrOp {
      JoinOrKeepsValue(e1, e2, v);
    } else {
      JoinAndKeepsValue(e1, e2, v);
    }
  }

  /** The two slots holding the neutral constant and the result are no larger than the two operands,
      and the result is never an and/or node unless it is a copy of the first operand. */
  lemma {:induction false} JoinSize(op: Op, e1: Expr, e2: Expr)
    requires Join(op, e1, e2).Some?
    ensures Size(Join(op, e1, e2).value) <= Size(e1)
    ensures 1 + Size(Join(op, e1, e2).value) <= Size(e1) + Size(e2)
    ensures Join(op, e1, e2).value == e1 || !Binary(Join(op, e1, e2).value)
  {
  }

  // ---------- Exactly which operands are joined ----------

  /** c and d are two of y, m and n, and t is the third. */
  predicate Third(c: Symbol, d: Symbol, t: Symbol) {
    {c, d, t} == {SYM_YES, SYM_MOD, SYM_NO}
  }

  /** What two different operands about one boolean or tristate symbol have in common, in either order.
      Joined by or: a symbol and its negation are yes; two of the three equalities are the third inequality. */
  predicate OrPair(a: Symbol, e1: Expr, e2: Expr, r: Expr) {
    || (a.Type() == BooleanType && {e1, e2} == {Sym(a), Not(Sym(a))} && r == Sym(SYM_YES))
    || (a.Type() == TristateType && r.Comp? && r == Comp(Ne, a, r.b)
        && e1.Comp? && e1 == Comp(Eq, a, e1.b) && e2.Comp? && e2 == Comp(Eq, a, e2.b) && Third(e1.b, e2.b, r.b))
  }

  /** Joined by and: a symbol with a test that implies it, that it implies, or that leaves only yes; an equality
      with an inequality, both with constants; and two of the three inequalities are the third equality. */
  predicate AndPair(a: Symbol, e1: Expr, e2: Expr, r: Expr) {
    || (a.TwoOrThreeValued() && {e1, e2} == {Sym(a), Comp(Eq, a, SYM_YES)} && r == Comp(Eq, a, SYM_YES))
    || (a.TwoOrThreeValued() && {e1, e2} == {Sym(a), Comp(Ne, a, SYM_NO)} && r == Sym(a))
    || (a.TwoOrThreeValued() && {e1, e2} == {Sym(a), Comp(Ne, a, SYM_MOD)} && r == Comp(Eq, a, SYM_YES))
    || (a.Type() == TristateType && (EqWithNe(a, e1, e2, r) || EqWithNe(a, e2, e1, r)))
    || (a.Type() == TristateType && r.Comp? && r == Comp(Eq, a, r.b)
        && e1.Comp? && e1 == Comp(Ne, a, e1.b) && e2.Comp? && e2 == Comp(Ne, a, e2.b) && Third(e1.b, e2.b, r.b))
  }

  predicate EqWithNe(a: Symbol, e1: Expr, e2: Expr, r: Expr) {
    && e1.Comp? && e1 == Comp(Eq, a, e1.b) && e1.b.Constant?
    && e2.Comp? && e2 == Comp(Ne, a, e2.b) && e2.b.Constant?
    && r == if e1.b == e2.b then Sym(SYM_NO) else e1
  }

  predicate Pair(op: Op, a: Symbol, e1: Expr, e2: Expr, r: Expr) {
    if op == OrOp then OrPair(a, e1, e2, r) else AndPair(a, e1, e2, r)
  }

  /** Which operands expr_join_or and expr_join_and join, and into what: equal ones into the first of them,
      and otherwise exactly the pairs above. */
  lemma {:induction false} JoinExact(op: Op, e1: Expr, e2: Expr, r: Expr)
    ensures Join(op, e1, e2) == Some(r) <==>
            if ExprEq(e1, e2) then r == e1 else exists a :: Pair(op, a, e1, e2, r)
  {
    hide ExprEq;
    if !ExprEq(e1, e2) {
      if a: Symbol :| Pair(op, a, e1, e2, r) { PairIsJoined(op, a, e1, e2, r); }
      if Join(op, e1, e2) == Some(r) { JoinedIsPair(op, e1, e2, r); }
    }
  }

  lemma {:induction false} PairIsJoined(op: Op, a: Symbol, e1: Expr, e2: Expr, r: Expr)
    requires !ExprEq(e1, e2) && Pair(op, a, e1, e2, r)
    ensures Join(op, e1, e2) == Some(r)
  {
    hide ExprEq;
  }

  lemma {:induction false} JoinedIsPair(op: Op, e1: Expr, e2: Expr, r: Expr)
    requires !ExprEq(e1, e2) && Join(op, e1, e2) == Some(r)
    ensures exists a :: Pair(op, a, e1, e2, r)
  {
    hide ExprEq;
    var a := CommonSubject(e1, e2).value;
    assert Pair(op, a, e1, e2, r);
  }
}
