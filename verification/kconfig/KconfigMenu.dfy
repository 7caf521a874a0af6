/** Automatic submenus: the adoption loop of menu_finalize and the questions it asks about
    dependencies. */
module KconfigMenu {
  import opened KconfigExpr
  import opened KconfigEliminate
  import opened KconfigSame
  import opened KconfigTransform
  import opened KconfigDups
  import opened KconfigReduced
  import opened KconfigJoin

  // ---------- Questions about symbols ----------

  /** expr_contains_symbol. */
  predicate ContainsSymbol(e: Expr, s: Symbol) {
    match e
    case And(l, r) => ContainsSymbol(l, s) || ContainsSymbol(r, s)
    case Or(l, r) => ContainsSymbol(l, s) || ContainsSymbol(r, s)
    case Sym(t) => t == s
    case Comp(_, a, b) => a == s || b == s
    case Not(x) => ContainsSymbol(x, s)
  }

  /** expr_depends_symbol. */
  predicate DependsSymbol(e: Expr, s: Symbol) {
    match e
    case And(l, r) => DependsSymbol(l, s) || DependsSymbol(r, s)
    case Sym(t) => t == s
    case Comp(Eq, a, b) => a == s && (b == SYM_YES || b == SYM_MOD)
    case Comp(Ne, a, b) => a == s && b == SYM_NO
    case _ => false
  }

  /** expr_depends_symbol tells the truth: the expression cannot hold without the symbol. */
  lemma {:induction false} DependsSound(e: Expr, s: Symbol, v: Valuation)
    requires DependsSymbol(e, s) && s.Config? && s.TwoOrThreeValued() && Good(v)
    ensures Eval(e, v) != NO ==> SymTri(s, v) != NO
  {
    match e
    case And(l, r) =>
      if DependsSymbol(l, s) { DependsSound(l, s, v); } else { DependsSound(r, s, v); }
    case Comp(rel, a, b) => CompConstant(rel, a, b, v);
    case _ =>
  }

  /** A symbol that an expression does not contain has no say in its value. */
  lemma {:induction false} ContainsSound(e: Expr, s: Symbol, v: Valuation, w: Valuation)
    requires !ContainsSymbol(e, s)
    requires forall t: Symbol :: t != s ==> v.tri(t) == w.tri(t) && v.str(t) == w.str(t)
    requires v.parse == w.parse
    ensures Eval(e, v) == Eval(e, w)
  {
    match e
    case And(l, r) => ContainsSound(l, s, v, w); ContainsSound(r, s, v, w);
    case Or(l, r) => ContainsSound(l, s, v, w); ContainsSound(r, s, v, w);
    case Not(x) => ContainsSound(x, s, v, w);
    case _ =>
  }

  /** The symbols of an expression. */
  function SymbolsOf(e: Expr): set<Symbol> {
    match e
    case Sym(t) => {t}
    case Not(x) => SymbolsOf(x)
    case And(l, r) => SymbolsOf(l) + SymbolsOf(r)
    case Or(l, r) => SymbolsOf(l) + SymbolsOf(r)
    case Comp(_, a, b) => {a, b}
  }

  lemma {:induction false} ContainsExact(e: Expr, s: Symbol)
    ensures ContainsSymbol(e, s) <==> s in SymbolsOf(e)
  {
    match e
    case Not(x) => ContainsExact(x, s);
    case And(l, r) => ContainsExact(l, s); ContainsExact(r, s);
    case Or(l, r) => ContainsExact(l, s); ContainsExact(r, s);
    case _ =>
  }

  /** An operand that is the symbol, or says of it that it is y, m, or not n. */
  predicate NeedsSymbol(x: Expr, s: Symbol) {
    x in {Sym(s), Comp(Eq, s, SYM_YES), Comp(Eq, s, SYM_MOD), Comp(Ne, s, SYM_NO)}
  }

  /** expr_depends_symbol looks for such an operand of the and-chain. */
  lemma {:induction false} DependsExact(e: Expr, s: Symbol)
    ensures DependsSymbol(e, s) <==>
            exists i :: 0 <= i < |Operands(AndOp, e)| && NeedsSymbol(Operands(AndOp, e)[i], s)
  {
    hide DependsSymbol, NeedsSymbol, Operands;
    if DependsSymbol(e, s) { var i := NeedingOperand(e, s); }
    if i: nat :| i < |Operands(AndOp, e)| && NeedsSymbol(Operands(AndOp, e)[i], s) { NeedsIsDepends(e, s, i); }
  }

  lemma {:induction false} NeedingOperand(e: Expr, s: Symbol) returns (i: nat)
    requires DependsSymbol(e, s)
    ensures i < |Operands(AndOp, e)| && NeedsSymbol(Operands(AndOp, e)[i], s)
  {
    if e.And? && DependsSymbol(e.left, s) {
      i := NeedingOperand(e.left, s);
    } else if e.And? {
      i := NeedingOperand(e.right, s);
      i := i + |Operands(AndOp, e.left)|;
    } else {
      i := 0;
    }
  }

  lemma {:induction false} NeedsIsDepends(e: Expr, s: Symbol, i: nat)
    requires i < |Operands(AndOp, e)| && NeedsSymbol(Operands(AndOp, e)[i], s)
    ensures DependsSymbol(e, s)
  {
    if e.And? {
      var n := |Operands(AndOp, e.left)|;
      if i < n { NeedsIsDepends(e.left, s, i); } else { NeedsIsDepends(e.right, s, i - n); }
    }
  }

  // ---------- Comparing an expression with a constant ----------

  /** expr_trans_compare: an expression for "e = sym" (`equal`) or "e != sym", for sym one of y, m, n. */
  function TransCompare(e: Expr, equal: bool, sym: Symbol): Expr
    requires BuiltIn(sym)
  {
    match e
    case And(l, r) => Negated(!equal, Split(e, AndOp, TransCompare(l, true, sym), TransCompare(r, true, sym), sym))
    case Or(l, r) => Negated(!equal, Split(e, OrOp, TransCompare(l, true, sym), TransCompare(r, true, sym), sym))
    case Not(x) => TransCompare(x, !equal, sym)
    case Comp(_, _, _) =>
      if sym == SYM_MOD then Sym(if equal then SYM_NO else SYM_YES)
      else Negated(equal == (sym == SYM_NO), e)
    case Sym(s) => Comp(if equal then Eq else Ne, s, sym)
  }

  function Negated(negate: bool, e: Expr): Expr { if negate then Not(e) else e }

  /** The comparison of an and/or node, put together from those of its operands. */
  function Split(e: Expr, op: Op, l: Expr, r: Expr, sym: Symbol): Expr {
    if sym == SYM_YES then Mk(op, l, r)
    else if sym == SYM_NO then Mk(if op == AndOp then OrOp else AndOp, l, r)
    else e
  }

  function TransCompareOpt(e: Option<Expr>, equal: bool, sym: Symbol): Expr
    requires BuiltIn(sym)
  {
    if e.Some? then TransCompare(e.value, equal, sym) else Negated(!equal, Sym(sym))
  }

  /** Boolean and tristate symbols and the constants y and n stand alone in the expression. */
  predicate TwoValued(e: Expr) {
    match e
    case And(l, r) => TwoValued(l) && TwoValued(r)
    case Or(l, r) => TwoValued(l) && TwoValued(r)
    case Not(x) => TwoValued(x)
    case Sym(s) => s == SYM_YES || s == SYM_NO || (s.Config? && s.TwoOrThreeValued())
    case Comp(_, _, _) => true
  }

  ghost predicate ModFree(v: Valuation) {
    forall s: Symbol :: s.TwoOrThreeValued() ==> v.tri(s) != MOD
  }

  lemma {:induction false} NeverMod(e: Expr, v: Valuation)
    requires TwoValued(e) && Good(v) && ModFree(v)
    ensures Eval(e, v) != MOD
  {
    match e
    case And(l, r) => NeverMod(l, v); NeverMod(r, v);
    case Or(l, r) => NeverMod(l, v); NeverMod(r, v);
    case Not(x) => NeverMod(x, v);
    case _ =>
  }

  lemma {:induction false} SymbolCompare(s: Symbol, rel: Rel, sym: Symbol, v: Valuation)
    requires TwoValued(Sym(s)) && (sym == SYM_YES || sym == SYM_NO) && (rel == Eq || rel == Ne) && Good(v)
    ensures Eval(Comp(rel, s, sym), v) == if (SymTri(s, v) == SymTri(sym, v)) == (rel == Eq) then YES else NO
  {
    if s.Config? {
      CompConstant(rel, s, sym, v);
    } else {
      assert Letter(YES) == "y" && Letter(NO) == "n";
      assert v.parse(UnknownType, s.text) == AsString;
      StrCmpEqual(s.text, sym.text);
    }
  }

  /** Where nothing is mod, expr_trans_compare with y or n is exact. */
  lemma {:induction false} TransCompareExact(e: Expr, equal: bool, sym: Symbol, v: Valuation)
    requires TwoValued(e) && (sym == SYM_YES || sym == SYM_NO) && Good(v) && ModFree(v)
    ensures Eval(TransCompare(e, equal, sym), v) == if (Eval(e, v) == SymTri(sym, v)) == equal then YES else NO
  {
    hide Compare;
    NeverMod(e, v);
    match e
    case And(l, r) =>
      TransCompareExact(l, true, sym, v); TransCompareExact(r, true, sym, v);
      NeverMod(l, v); NeverMod(r, v);
    case Or(l, r) =>
      TransCompareExact(l, true, sym, v); TransCompareExact(r, true, sym, v);
      NeverMod(l, v); NeverMod(r, v);
    case Not(x) =>
      TransCompareExact(x, !equal, sym, v);
      NeverMod(x, v);
    case Sym(s) => SymbolCompare(s, if equal then Eq else Ne, sym, v);
    case Comp(_, _, _) =>
  }

  /** For a symbol standing alone it is exact, whatever the symbol's value, also with m. */
  lemma {:induction false} PlainCompareExact(s: Symbol, equal: bool, sym: Symbol, v: Valuation)
    requires s.Config? && s.TwoOrThreeValued() && BuiltIn(sym) && Good(v)
    ensures Eval(TransCompare(Sym(s), equal, sym), v) == if (v.tri(s) == SymTri(sym, v)) == equal then YES else NO
  {
    CompConstant(if equal then Eq else Ne, s, sym, v);
  }

  /** Mod is where it goes wrong: the test "!s != n" is right exactly when s is not mod. */
  lemma {:induction false} NegationTestExact(s: Symbol, v: Valuation)
    requires s.Config? && s.TwoOrThreeValued() && Good(v)
    ensures (Eval(TransCompare(Not(Sym(s)), false, SYM_NO), v) != NO <==> Eval(Not(Sym(s)), v) != NO) <==>
              v.tri(s) != MOD
  {
    SymbolCompare(s, Eq, SYM_NO, v);
  }

  // ---------- Adoption ----------

  /** A menu entry: its symbol, the visibility condition of its prompt, and its dependencies; each may
      be missing. `hasList`: it already has entries of its own and adopts none. */
  datatype Entry = Entry(sym: Option<Symbol>, prompt: Option<Option<Expr>>, dep: Option<Expr>, hasList: bool)

  /** The condition of an entry that adoption looks at. */
  function Condition(e: Entry): Option<Expr> {
    if e.prompt.Some? then e.prompt.value else e.dep
  }

  /** The visibility of the would-be parent. */
  function Visibility(parent: Entry): Option<Expr> {
    if parent.prompt.Some? then parent.prompt.value else None
  }

  /** "This is not no", simplified as menu_finalize does it. */
  function NotNo(e: Option<Expr>): Expr {
    EliminateDups(Transform(TransCompareOpt(e, false, SYM_NO)))
  }

  /** The body of the loop: does the entry go into the submenu of `parent`? */
  predicate Adopts(parent: Entry, e: Entry)
    requires parent.sym.Some?
  {
    var dep := Condition(e);
    dep.Some? && ContainsSymbol(dep.value, parent.sym.value)
    && (DependsSymbol(dep.value, parent.sym.value)
        || EliminateEq(NotNo(dep), NotNo(Visibility(parent))).1 == Sym(SYM_YES))
  }

  predicate TwoValuedOpt(e: Option<Expr>) { e.Some? ==> TwoValued(e.value) }

  lemma {:induction false} NotNoExact(e: Option<Expr>, v: Valuation)
    requires TwoValuedOpt(e) && Good(v) && ModFree(v)
    ensures Eval(NotNo(e), v) == if EvalOpt(e, v) == NO then NO else YES
  {
    hide TransCompare, Transform, EliminateDups, Good, ModFree;
    var t := TransCompareOpt(e, false, SYM_NO);
    TransformKeepsValue(t, v);
    EliminateDupsKeepsValue(Transform(t), v);
    if e.Some? { TransCompareExact(e.value, false, SYM_NO, v); }
  }

  /** An adopted entry can only be active under an active parent: if its condition is not no, then
      neither is the parent's symbol, or else the parent's visibility. */
  lemma {:induction false} AdoptionSound(parent: Entry, e: Entry, v: Valuation)
    requires parent.sym.Some? && parent.sym.value.Config? && parent.sym.value.TwoOrThreeValued()
    requires Adopts(parent, e) && TwoValuedOpt(Condition(e)) && TwoValuedOpt(Visibility(parent))
    requires Good(v) && ModFree(v) && EvalOpt(Condition(e), v) != NO
    ensures if DependsSymbol(Condition(e).value, parent.sym.value) then SymTri(parent.sym.value, v) != NO
            else EvalOpt(Visibility(parent), v) != NO
  {
    hide NotNo, EliminateEq, TwoValued, Good, ModFree;
    var dep, vis := Condition(e), Visibility(parent);
    if DependsSymbol(dep.value, parent.sym.value) {
      DependsSound(dep.value, parent.sym.value, v);
    } else {
      NotNoExact(dep, v);
      NotNoExact(vis, v);
      var c := EliminateEqContext(NotNo(dep), NotNo(vis));
      var p := EliminateEq(NotNo(dep), NotNo(vis));
      PlugMonotone(c, Eval(p.0, v), YES, v);
      YesNo(v);
    }
  }

  // ---------- Exactly what is adopted ----------

  /** A constant has nothing in common with an expression that has no constant operands. */
  lemma {:induction false} ConstantStays(op: Op, d: Expr, c: Expr)
    requires Clean(d) && !IsYn(d) && IsYn(c)
    ensures CancelEq(op, d, c) == (d, c)
    decreases d
  {
    if IsNode(op, d) {
      ConstantStays(op, d.left, c);
      ConstantStays(op, d.right, c);
    }
  }

  lemma {:induction false} ConstantStaysFirst(op: Op, c: Expr, v: Expr)
    requires Clean(v) && !IsYn(v) && IsYn(c)
    ensures CancelEq(op, c, v) == (c, v)
    decreases v
  {
    if IsNode(op, v) {
      ConstantStaysFirst(op, c, v.left);
      ConstantStaysFirst(op, c, v.right);
    }
  }

  lemma {:induction false} ConstantLeaves(d: Expr, v: Expr)
    requires Clean(d) && Clean(v) && (IsYn(d) || IsYn(v))
    ensures EliminateEq(d, v).1 == v
  {
    hide CancelEq;
    CleanHasNoYn(d);
    CleanHasNoYn(v);
    if Binary(d) { ConstantStays(OpOf(d), d, v); }
    if Binary(v) { ConstantStaysFirst(OpOf(v), d, v); }
  }

  /** Every condition on one expression, read as an and-chain, is also one on the other. */
  ghost predicate Covers(d: Expr, v: Expr) {
    v == Sym(SYM_YES) || (d.And? && !IsYn(v) && Norms(AndOp, v) <= Norms(AndOp, d))
  }

  lemma {:induction false} NoneLeft(a: multiset<Canon>, b: multiset<Canon>)
    ensures a - b == multiset{} <==> a <= b
  {
    if a - b == multiset{} {
      forall c ensures a[c] <= b[c] { assert (a - b)[c] == 0; }
    }
  }

  lemma {:induction false} ChainSize(op: Op, e: Expr)
    ensures |Norms(op, e)| >= if IsNode(op, e) then 2 else 1
  {
    hide Norm;
    if IsNode(op, e) {
      ChainSize(op, e.left);
      ChainSize(op, e.right);
    }
  }

  /** The elimination path: of the visibility nothing is left exactly when the dependency covers it. */
  lemma {:induction false} NothingLeftExact(d: Expr, v: Expr)
    requires Clean(d) && Clean(v)
    ensures EliminateEq(d, v).1 == Sym(SYM_YES) <==> Covers(d, v)
  {
    if IsYn(d) || IsYn(v) {
      ConstantLeaves(d, v);
    } else {
      hide EliminateEq, Clean, Norm, Norms, Remains;
      EliminateEqExact(d, v);
      var w := EliminateEq(d, v).1;
      NoneLeft(Norms(AndOp, v), Norms(AndOp, d));
      forall op | Remains(op, w, Norms(op, v) - Norms(op, d))
        ensures w == Sym(SYM_YES) <==> op == AndOp && Norms(op, v) - Norms(op, d) == multiset{}
      {
        RemainsYes(op, w, Norms(op, v) - Norms(op, d));
      }
      SingleOperand(v);
      SingleOperand(d);
      ChainSize(AndOp, v);
      if !d.And? && v.And? {
        assert |Norms(AndOp, d)| == 1;
        Smaller(Norms(AndOp, v), Norms(AndOp, d));
      }
      assert Norms(AndOp, v) == multiset{Norm(v)} ==>
          (Norms(AndOp, v) <= Norms(AndOp, d) <==> Norm(v) in Norms(AndOp, d));
    }
  }

  lemma {:induction false} Smaller(a: multiset<Canon>, b: multiset<Canon>)
    requires |a| > |b|
    ensures !(a <= b)
  {
    var c := b - a;
    assert |a + c| == |a| + |c| && (a <= b <==> b == a + c);
  }

  lemma {:induction false} RemainsYes(op: Op, e: Expr, left: multiset<Canon>)
    requires Remains(op, e, left)
    ensures e == Sym(SYM_YES) <==> op == AndOp && left == multiset{}
  {
  }

  lemma {:induction false} SingleOperand(e: Expr)
    ensures !e.And? ==> Norms(AndOp, e) == multiset{Norm(e)}
  {
  }

  /** No constant y, m or n stands alone, and no boolean symbol is compared with m. */
  predicate WithoutConstants(e: Expr) {
    match e
    case Sym(s) => !BuiltIn(s)
    case Not(x) => WithoutConstants(x)
    case And(l, r) => WithoutConstants(l) && WithoutConstants(r)
    case Or(l, r) => WithoutConstants(l) && WithoutConstants(r)
    case Comp(rel, a, b) => !((rel == Eq || rel == Ne) && a.Type() == BooleanType && b == SYM_MOD)
  }

  predicate WithoutConstantsOpt(e: Option<Expr>) { e.Some? ==> WithoutConstants(e.value) }

  lemma {:induction false} CompareStaysWithout(e: Expr, equal: bool)
    requires WithoutConstants(e)
    ensures WithoutConstants(TransCompare(e, equal, SYM_NO))
  {
    match e
    case And(l, r) => CompareStaysWithout(l, true); CompareStaysWithout(r, true);
    case Or(l, r) => CompareStaysWithout(l, true); CompareStaysWithout(r, true);
    case Not(x) => CompareStaysWithout(x, !equal);
    case _ =>
  }

  lemma {:induction false} NnfStaysWithout(e: Expr, negated: bool)
    requires WithoutConstants(e)
    ensures FlatNot(Nnf(e, negated)) && !HasYn(Nnf(e, negated)) && !IsYn(Nnf(e, negated))
  {
    match e
    case And(l, r) => NnfStaysWithout(l, negated); NnfStaysWithout(r, negated);
    case Or(l, r) => NnfStaysWithout(l, negated); NnfStaysWithout(r, negated);
    case Not(x) => NnfStaysWithout(x, !negated);
    case _ =>
  }

  lemma {:induction false} NotNoClean(e: Option<Expr>)
    requires WithoutConstantsOpt(e)
    ensures Clean(NotNo(e))
  {
    hide TransCompare, Transform, EliminateDups, Nnf, WithoutConstants;
    var t := TransCompareOpt(e, false, SYM_NO);
    TransformExact(t);
    if e.Some? {
      CompareStaysWithout(e.value, false);
      NnfStaysWithout(t, false);
      EliminateDupsClean(Transform(t));
    } else {
      NotNoOfNothing();
    }
  }

  lemma {:induction false} NotNoOfNothing()
    ensures NotNo(None) == Sym(SYM_YES)
  {
  }

  /** An entry is adopted if and only if its condition (the visibility of its prompt, or its dependency if
      it has none) mentions the parent's symbol and either depends on it, or covers the parent's visibility
      once both have been simplified. */
  lemma {:induction false} AdoptsExact(parent: Entry, e: Entry)
    requires parent.sym.Some?
    requires var dep := if e.prompt.Some? then e.prompt.value else e.dep;
             var vis := if parent.prompt.Some? then parent.prompt.value else None;
             WithoutConstantsOpt(dep) && WithoutConstantsOpt(vis)
    ensures var dep := if e.prompt.Some? then e.prompt.value else e.dep;
            var vis := if parent.prompt.Some? then parent.prompt.value else None;
            Adopts(parent, e) <==>
            && dep.Some? && parent.sym.value in SymbolsOf(dep.value)
            && (DependsSymbol(dep.value, parent.sym.value) || Covers(NotNo(dep), NotNo(vis)))
  {
    hide NotNo, EliminateEq, Clean, WithoutConstants;
    var dep, vis := Condition(e), Visibility(parent);
    NotNoClean(dep);
    NotNoClean(vis);
    if dep.Some? { ContainsExact(dep.value, parent.sym.value); }
    NothingLeftExact(NotNo(dep), NotNo(vis));
  }

  // ---------- The loop ----------

  /** The tree that adoption makes out of a list of siblings. */
  datatype Menu = Menu(entry: Entry, sub: seq<Menu>)

  /** The entries of a forest in the order in which they stood in the list. */
  function Preorder(ms: seq<Menu>): seq<Entry> {
    if ms == [] then [] else [ms[0].entry] + Preorder(ms[0].sub) + Preorder(ms[1..])
  }

  /** Every entry has been adopted by the entry it stands under. */
  predicate WellAdopted(parent: Entry, ms: seq<Menu>)
    decreases ms
  {
    ms == [] ||
    (parent.sym.Some? && !parent.hasList && Adopts(parent, ms[0].entry)
     && WellAdopted(ms[0].entry, ms[0].sub) && WellAdopted(parent, ms[1..]))
  }

  /** The part of menu_finalize that turns the siblings following `parent` into its submenu: takes as
      many as are adopted one after the other, each first collecting its own submenu from the siblings
      behind it. Nothing is lost, duplicated or reordered, and the loop stops only at an entry that is
      not adopted. */
  method Finalize(parent: Entry, siblings: seq<Entry>) returns (list: seq<Menu>, next: seq<Entry>)
    ensures Preorder(list) + next == siblings
    ensures WellAdopted(parent, list)
    ensures parent.sym.Some? && !parent.hasList && next != [] ==> !Adopts(parent, next[0])
    ensures parent.sym.None? || parent.hasList ==> list == []
    decreases |siblings|
  {
    list, next := [], siblings;
    if parent.hasList || parent.sym.None? {
      return;
    }
    assert Preorder(list) == [] && WellAdopted(parent, list);
    hide Adopts, Preorder, WellAdopted;
    while next != [] && Adopts(parent, next[0])
      invariant Preorder(list) + next == siblings
      invariant WellAdopted(parent, list)
      decreases |next|
    {
      var menu := next[0];
      assert |next| <= |siblings|;
      var sub, rest := Finalize(menu, next[1..]);
      AdoptedInOrder(parent, list, next, sub, rest);
      list, next := list + [Menu(menu, sub)], rest;
    }
  }

  lemma {:induction false} AdoptedInOrder(parent: Entry, list: seq<Menu>, next: seq<Entry>, sub: seq<Menu>,
                                          rest: seq<Entry>)
    requires parent.sym.Some? && !parent.hasList && next != [] && Adopts(parent, next[0])
    requires WellAdopted(parent, list) && WellAdopted(next[0], sub) && Preorder(sub) + rest == next[1..]
    ensures Preorder(list + [Menu(next[0], sub)]) + rest == Preorder(list) + next
    ensures WellAdopted(parent, list + [Menu(next[0], sub)])
    ensures |rest| < |next|
  {
    hide Adopts, Preorder, WellAdopted;
    PreorderSnoc(list, Menu(next[0], sub));
    WellAdoptedSnoc(parent, list, Menu(next[0], sub));
    assert next == [next[0]] + (Preorder(sub) + rest);
  }

  lemma {:induction false} PreorderSnoc(ms: seq<Menu>, m: Menu)
    ensures Preorder(ms + [m]) == Preorder(ms) + [m.entry] + Preorder(m.sub)
  {
    if ms == [] {
      assert ms + [m] == [m] && [m][1..] == [];
    } else {
      assert (ms + [m])[0] == ms[0] && (ms + [m])[1..] == ms[1..] + [m];
      PreorderSnoc(ms[1..], m);
    }
  }

  lemma {:induction false} WellAdoptedSnoc(parent: Entry, ms: seq<Menu>, m: Menu)
    requires WellAdopted(parent, ms)
    requires parent.sym.Some? && !parent.hasList && Adopts(parent, m.entry) && WellAdopted(m.entry, m.sub)
    ensures WellAdopted(parent, ms + [m])
  {
    if ms == [] {
      assert ms + [m] == [m] && [m][1..] == [];
    } else {
      assert (ms + [m])[0] == ms[0] && (ms + [m])[1..] == ms[1..] + [m];
      WellAdoptedSnoc(parent, ms[1..], m);
    }
  }
}
