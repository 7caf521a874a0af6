/** What expr_eliminate_dups leaves, said of the operands of the result alone. */
module KconfigReduced {
  import opened KconfigExpr
  import opened KconfigEliminate
  import opened KconfigSame
  import opened KconfigJoin
  import opened KconfigDups

  // ---------- No redundant pair is left ----------

  /** Two operands of a chain have nothing in common that could be simplified: they are different, also up
      to regrouping and reordering, and no pair about one symbol. */
  ghost predicate Independent(op: Op, x: Expr, y: Expr) {
    && x != y
    && (Clean(x) && Clean(y) ==> Norm(x) != Norm(y))
    && forall a: Symbol, r: Expr :: !Pair(op, a, x, y, r)
  }

  /** At the top and in every nested chain, any two operands are independent. */
  ghost predicate Reduced(e: Expr)
    decreases Size(e)
  {
    Binary(e) ==>
      var op := OpOf(e);
      var operands := Operands(op, e);
      OperandsOk(op, e);
      && (forall i, j :: 0 <= i < |operands| && 0 <= j < |operands| && i != j ==>
            Independent(op, operands[i], operands[j]))
      && (forall i :: 0 <= i < |operands| ==> Reduced(operands[i]))
  }

  lemma {:induction false} NotJoined(op: Op, x: Expr, y: Expr)
    requires Join(op, x, y).None?
    ensures Independent(op, x, y)
  {
    hide Join, ExprEq, Norm, Pair, Clean;
    JoinExact(op, x, y, x);
    forall a: Symbol, r: Expr ensures !Pair(op, a, x, y, r) { JoinExact(op, x, y, r); }
    if x == y { ExprEqReflexive(x); }
    if Clean(x) && Clean(y) { ExprEqExact(x, y); }
  }

  lemma {:induction false} SettledIsReduced(e: Expr)
    requires Settled(e)
    ensures Reduced(e)
    decreases Size(e)
  {
    if Binary(e) {
      hide Join, Independent, Operands;
      var op := OpOf(e);
      var operands := Operands(op, e);
      OperandsOk(op, e);
      forall i, j | 0 <= i < |operands| && 0 <= j < |operands| && i != j
        ensures Independent(op, operands[i], operands[j])
      {
        NotJoined(op, operands[i], operands[j]);
      }
      forall i | 0 <= i < |operands| ensures Reduced(operands[i]) { SettledIsReduced(operands[i]); }
    }
  }

  /** expr_eliminate_dups leaves no redundant pair of operands in any chain. */
  lemma {:induction false} EliminateDupsReduces(e: Expr)
    ensures Reduced(EliminateDups(e))
  {
    hide EliminateDups, Settled, Reduced;
    EliminateDupsSettles(e);
    SettledIsReduced(EliminateDups(e));
  }

  /** For example, no or-chain of the result compares one tristate symbol with two of y, m and n. */
  lemma {:induction false} NoTwoEqualities(e: Expr, a: Symbol, c: Symbol, d: Symbol, i: nat, j: nat)
    requires a.Type() == TristateType && {c, d} <= {SYM_YES, SYM_MOD, SYM_NO} && c != d
    requires var r := EliminateDups(e); r.Or? && i < |Operands(OrOp, r)| && j < |Operands(OrOp, r)|
    ensures var operands := Operands(OrOp, EliminateDups(e));
            !(operands[i] == Comp(Eq, a, c) && operands[j] == Comp(Eq, a, d))
  {
    hide EliminateDups, Operands, Norm, Clean, ExprEq;
    EliminateDupsReduces(e);
    var r := EliminateDups(e);
    TwoEqualitiesPair(a, c, d);
    assert i != j ==> Independent(OrOp, Operands(OrOp, r)[i], Operands(OrOp, r)[j]);
  }

  lemma {:induction false} TwoEqualitiesPair(a: Symbol, c: Symbol, d: Symbol)
    requires a.Type() == TristateType && {c, d} <= {SYM_YES, SYM_MOD, SYM_NO} && c != d
    ensures exists r :: Pair(OrOp, a, Comp(Eq, a, c), Comp(Eq, a, d), r)
  {
    assert c in {c, d} && d in {c, d};
    var t := if SYM_YES != c && SYM_YES != d then SYM_YES else if SYM_MOD != c && SYM_MOD != d then SYM_MOD else SYM_NO;
    assert Third(c, d, t);
    assert Pair(OrOp, a, Comp(Eq, a, c), Comp(Eq, a, d), Comp(Ne, a, t));
  }

  // ---------- Which operands stay, and in what order ----------

  /** Symbols other than y and n. */
  predicate Symbols(xs: seq<Expr>) { forall i :: 0 <= i < |xs| ==> xs[i].Sym? && !IsYn(xs[i]) }

  lemma {:induction false} JoinSymbols(op: Op, x: Expr, y: Expr)
    requires x.Sym? && y.Sym?
    ensures Join(op, x, y) == if x == y then Some(x) else None
  {
  }

  /** A later slot with the same symbol has been met by the walk, which is about to compare slot i0 with slot j0. */
  ghost predicate Superseded(xs: seq<Expr>, k: nat, i0: nat, j0: nat) {
    k < |xs| && exists j :: k < j < |xs| && xs[j] == xs[k] && (k < i0 || (k == i0 && j < j0))
  }

  /** The slots at that moment. */
  ghost predicate Walked(op: Op, xs: seq<Expr>, slots: seq<Expr>, i0: nat, j0: nat) {
    |slots| == |xs|
    && forall k :: 0 <= k < |xs| ==> slots[k] == if Superseded(xs, k, i0, j0) then Sym(Unit(op)) else xs[k]
  }

  lemma {:induction false} PairStep(op: Op, xs: seq<Expr>, slots: seq<Expr>, i: nat, j: nat, bound: nat)
    requires Symbols(xs) && Walked(op, xs, slots, i, j) && i < |xs| && j < |xs|
    requires SlotsOk(op, slots, bound)
    ensures Walked(op, xs, if i == j then slots else PassPair(op, i, j, slots, bound).0, i, j + 1)
  {
    hide Join, PassPair;
    var after := if i == j then slots else PassPair(op, i, j, slots, bound).0;
    if i != j {
      PairOfSymbols(op, slots, i, j, bound);
    }
    forall k | 0 <= k < |xs| ensures after[k] == if Superseded(xs, k, i, j + 1) then Sym(Unit(op)) else xs[k] {
      assert k != i ==> (Superseded(xs, k, i, j + 1) <==> Superseded(xs, k, i, j));
      assert Superseded(xs, i, i, j + 1) <==> Superseded(xs, i, i, j) || (i < j && xs[i] == xs[j]);
      if j < i && xs[i] == xs[j] { assert Superseded(xs, j, i, j); }
    }
  }

  lemma {:induction false} PairOfSymbols(op: Op, slots: seq<Expr>, i: nat, j: nat, bound: nat)
    requires i < |slots| && j < |slots| && i != j && SlotsOk(op, slots, bound) && slots[i].Sym? && slots[j].Sym?
    ensures PassPair(op, i, j, slots, bound).0
            == if slots[i] == slots[j] then slots[i := Sym(Unit(op))] else slots
  {
    JoinSymbols(op, slots[i], slots[j]);
    hide Join;
    assert slots[i := slots[i]] == slots;
  }

  lemma {:induction false} WalkRow(op: Op, xs: seq<Expr>, i: nat, s2: Spine, slots: seq<Expr>, base: nat, bound: nat)
    requires Symbols(xs) && i < |xs| && Walked(op, xs, slots, i, base) && SlotsOk(op, slots, bound)
    requires Numbered(s2, base) && base + Width(s2) <= |xs| && Within(s2, |slots|)
    ensures Walked(op, xs, Pass1(op, Slot(i), s2, slots, bound).0, i, base + Width(s2))
    decreases Width(s2)
  {
    hide Walked, PassPair, Symbols;
    WalkedSize(op, xs, slots, i, base);
    if s2.Fork? {
      WidthPositive(s2.left);
      WidthPositive(s2.right);
      WalkRow(op, xs, i, s2.left, slots, base, bound);
      WalkRow(op, xs, i, s2.right, Pass1(op, Slot(i), s2.left, slots, bound).0, base + Width(s2.left), bound);
    } else {
      PairStep(op, xs, slots, i, base, bound);
    }
  }

  lemma {:induction false} WalkedSize(op: Op, xs: seq<Expr>, slots: seq<Expr>, i: nat, j: nat)
    requires Walked(op, xs, slots, i, j)
    ensures |slots| == |xs|
  {
  }

  lemma {:induction false} NextRow(op: Op, xs: seq<Expr>, slots: seq<Expr>, i: nat)
    requires Walked(op, xs, slots, i, |xs|)
    ensures Walked(op, xs, slots, i + 1, 0)
  {
    forall k | 0 <= k < |xs| ensures Superseded(xs, k, i, |xs|) <==> Superseded(xs, k, i + 1, 0) {
    }
  }

  lemma {:induction false} WalkRows(op: Op, xs: seq<Expr>, s1: Spine, s2: Spine, slots: seq<Expr>, base: nat,
                                    bound: nat)
    requires Symbols(xs) && Walked(op, xs, slots, base, 0) && SlotsOk(op, slots, bound)
    requires Numbered(s1, base) && base + Width(s1) <= |xs| && Within(s1, |slots|)
    requires Numbered(s2, 0) && Width(s2) == |xs| && Within(s2, |slots|)
    ensures Walked(op, xs, Pass1(op, s1, s2, slots, bound).0, base + Width(s1), 0)
    decreases Width(s1)
  {
    hide Walked, Symbols;
    WalkedSize(op, xs, slots, base, 0);
    if s1.Fork? {
      WidthPositive(s1.left);
      WidthPositive(s1.right);
      WalkRows(op, xs, s1.left, s2, slots, base, bound);
      WalkRows(op, xs, s1.right, s2, Pass1(op, s1.left, s2, slots, bound).0, base + Width(s1.left), bound);
    } else {
      hide Pass1;
      WalkRow(op, xs, base, s2, slots, 0, bound);
      NextRow(op, xs, Pass1(op, s1, s2, slots, bound).0, base);
    }
  }

  // ---------- The last occurrences ----------

  function LastOnly(xs: seq<Expr>): seq<Expr> {
    if xs == [] then [] else (if xs[0] in xs[1..] then [] else [xs[0]]) + LastOnly(xs[1..])
  }

  /** What expr_eliminate_yn leaves of a chain's operands. */
  function Kept(op: Op, xs: seq<Expr>): seq<Expr> {
    if xs == [] then [] else (if xs[0] == Sym(Unit(op)) then [] else [xs[0]]) + Kept(op, xs[1..])
  }

  lemma {:induction false} KeptConcat(op: Op, xs: seq<Expr>, ys: seq<Expr>)
    ensures Kept(op, xs + ys) == Kept(op, xs) + Kept(op, ys)
  {
    if xs == [] {
      assert xs + ys == ys;
    } else {
      assert (xs + ys)[0] == xs[0] && (xs + ys)[1..] == xs[1..] + ys;
      KeptConcat(op, xs[1..], ys);
    }
  }

  /** Every operand is a symbol and none decides the chain. */
  predicate Undecided(op: Op, e: Expr) {
    if IsNode(op, e) then Undecided(op, e.left) && Undecided(op, e.right) else e.Sym? && e != Sym(Zero(op))
  }

  lemma {:induction false} KeptOperands(op: Op, e: Expr)
    requires Undecided(op, e)
    ensures var kept := Kept(op, Operands(op, e));
            if kept == [] then EliminateYn(e) == Sym(Unit(op))
            else Operands(op, EliminateYn(e)) == kept && EliminateYn(e) != Sym(Unit(op))
    ensures EliminateYn(e) != Sym(Zero(op))
  {
    if IsNode(op, e) {
      KeptOperands(op, e.left);
      KeptOperands(op, e.right);
      KeptConcat(op, Operands(op, e.left), Operands(op, e.right));
      YnOfNode(op, e);
    } else {
      assert [e][1..] == [];
    }
  }

  lemma {:induction false} RebuiltOperands(op: Op, s: Spine, base: nat, slots: seq<Expr>)
    requires Numbered(s, base) && base + Width(s) <= |slots| && Within(s, |slots|)
    requires forall k :: 0 <= k < |slots| ==> slots[k].Sym? && slots[k] != Sym(Zero(op))
    ensures Operands(op, Rebuild(op, s, slots)) == slots[base..base + Width(s)] && Undecided(op, Rebuild(op, s, slots))
  {
    if s.Fork? {
      RebuiltOperands(op, s.left, base, slots);
      RebuiltOperands(op, s.right, base + Width(s.left), slots);
    }
  }

  lemma {:induction false} KeptAreLast(op: Op, xs: seq<Expr>, slots: seq<Expr>, k: nat)
    requires Symbols(xs) && Walked(op, xs, slots, |xs|, 0) && k <= |xs|
    ensures Kept(op, slots[k..]) == LastOnly(xs[k..])
    decreases |xs| - k
  {
    if k < |xs| {
      KeptAreLast(op, xs, slots, k + 1);
      assert slots[k..][1..] == slots[k + 1..] && xs[k..][1..] == xs[k + 1..];
      if xs[k] in xs[k + 1..] {
        var j :| 0 <= j < |xs[k + 1..]| && xs[k + 1..][j] == xs[k];
        assert xs[k + 1 + j] == xs[k];
        assert Superseded(xs, k, |xs|, 0);
      }
    }
  }

  /** One pass over a chain of symbols, and the elimination of constants after it. */
  lemma {:induction false} PassOfSymbols(op: Op, e: Expr)
    requires IsNode(op, e) && Symbols(Operands(op, e))
    ensures Operands(op, EliminateYn(PassAll(e).0)) == LastOnly(Operands(op, e))
  {
    hide Operands, LastOnly, Symbols, Pass1, PassAll, SpineOf, Rebuild, Numbered, Within, Width, Walked, Kept,
      EliminateYn, Undecided;
    var xs := Operands(op, e);
    var s := SpineOf(op, e, 0);
    SpineNumbered(op, e, 0);
    NumberedWithin(s, 0, |xs|);
    OperandsOk(op, e);
    PassAllSlots(op, e);
    var slots := Pass1(op, s, s, xs, Size(e) - 1).0;
    StartWalk(op, xs);
    WalkRows(op, xs, s, s, xs, 0, Size(e) - 1);
    KeptAreLast(op, xs, slots, 0);
    assert slots[0..] == slots && xs[0..] == xs;
    WalkedSymbols(op, xs, slots, |xs|, 0);
    RebuiltOperands(op, s, 0, slots);
    assert slots[0..|slots|] == slots;
    KeptOperands(op, Rebuild(op, s, slots));
    LastNotEmpty(xs);
  }

  lemma {:induction false} PassAllSlots(op: Op, e: Expr)
    requires IsNode(op, e)
    ensures var xs := Operands(op, e);
            var s := SpineOf(op, e, 0);
            && xs != [] && Within(s, |xs|) && SlotsOk(op, xs, Size(e) - 1)
            && Within(s, |Pass1(op, s, s, xs, Size(e) - 1).0|)
            && PassAll(e).0 == Rebuild(op, s, Pass1(op, s, s, xs, Size(e) - 1).0)
  {
    hide Pass1;
    SpineNumbered(op, e, 0);
    NumberedWithin(SpineOf(op, e, 0), 0, |Operands(op, e)|);
    OperandsOk(op, e);
  }

  lemma {:induction false} StartWalk(op: Op, xs: seq<Expr>)
    ensures Walked(op, xs, xs, 0, 0)
  {
  }

  lemma {:induction false} WalkedSymbols(op: Op, xs: seq<Expr>, slots: seq<Expr>, i: nat, j: nat)
    requires Symbols(xs) && Walked(op, xs, slots, i, j)
    ensures |slots| == |xs| && forall k :: 0 <= k < |slots| ==> slots[k].Sym? && slots[k] != Sym(Zero(op))
  {
  }

  lemma {:induction false} LastNotEmpty(xs: seq<Expr>)
    requires xs != []
    ensures LastOnly(xs) != []
  {
    if |xs| > 1 { LastNotEmpty(xs[1..]); }
  }

  lemma {:induction false} LastIsDistinct(xs: seq<Expr>)
    ensures forall x :: x in LastOnly(xs) <==> x in xs
    ensures LastOnly(LastOnly(xs)) == LastOnly(xs)
  {
    if xs != [] {
      LastIsDistinct(xs[1..]);
      var rest := LastOnly(xs[1..]);
      assert xs == [xs[0]] + xs[1..];
      if xs[0] in xs[1..] {
        assert LastOnly(xs) == [] + rest == rest;
      } else {
        assert ([xs[0]] + rest)[1..] == rest;
      }
    }
  }

  lemma {:induction false} LastAreSymbols(xs: seq<Expr>)
    requires Symbols(xs)
    ensures Symbols(LastOnly(xs))
  {
    LastIsDistinct(xs);
    forall i | 0 <= i < |LastOnly(xs)| ensures LastOnly(xs)[i].Sym? && !IsYn(LastOnly(xs)[i]) {
      assert LastOnly(xs)[i] in xs;
    }
  }

  /** Of a chain of symbols expr_eliminate_dups leaves every symbol once, where it stood last. */
  lemma {:induction false} SymbolsStayLast(op: Op, e: Expr)
    requires IsNode(op, e) && Symbols(Operands(op, e))
    ensures Operands(op, EliminateDups(e)) == LastOnly(Operands(op, e))
    decreases Size(e)
  {
    var xs := Operands(op, e);
    var (p, n) := PassAll(e);
    PassOfSymbols(op, e);
    PassAllTouches(e);
    EliminateYnShrinks(p);
    hide PassAll;
    if n == 0 {
      SymbolsHaveNoYn(op, e);
    } else {
      var z := EliminateYn(p);
      LastAreSymbols(xs);
      LastIsDistinct(xs);
      if IsNode(op, z) {
        SymbolsStayLast(op, z);
      } else {
        assert Operands(op, z) == [z];
        assert z.Sym?;
      }
    }
  }

  lemma {:induction false} SymbolsHaveNoYn(op: Op, e: Expr)
    requires Symbols(Operands(op, e))
    ensures !HasYn(e) && !IsYn(e)
  {
    if IsNode(op, e) {
      var l, r := Operands(op, e.left), Operands(op, e.right);
      assert forall i :: 0 <= i < |l| ==> (l + r)[i] == l[i];
      assert forall i :: 0 <= i < |r| ==> (l + r)[|l| + i] == r[i];
      SymbolsHaveNoYn(op, e.left);
      SymbolsHaveNoYn(op, e.right);
    } else {
      assert Operands(op, e)[0] == e;
    }
  }

  // ---------- Expressions without constant operands stay so ----------

  /** Negation only on symbols. */
  predicate FlatNot(e: Expr) {
    match e
    case Not(x) => x.Sym?
    case And(l, r) => FlatNot(l) && FlatNot(r)
    case Or(l, r) => FlatNot(l) && FlatNot(r)
    case _ => true
  }

  predicate AllFlat(xs: seq<Expr>) { forall i :: 0 <= i < |xs| ==> FlatNot(xs[i]) }

  lemma {:induction false} FlatOperands(op: Op, e: Expr)
    requires FlatNot(e)
    ensures AllFlat(Operands(op, e))
  {
    if IsNode(op, e) {
      FlatOperands(op, e.left);
      FlatOperands(op, e.right);
    }
  }

  lemma {:induction false} FlatRebuilt(op: Op, s: Spine, slots: seq<Expr>)
    requires Within(s, |slots|) && AllFlat(slots)
    ensures FlatNot(Rebuild(op, s, slots))
  {
    if s.Fork? {
      FlatRebuilt(op, s.left, slots);
      FlatRebuilt(op, s.right, slots);
    }
  }

  lemma {:induction false} Pass1Flat(op: Op, s1: Spine, s2: Spine, slots: seq<Expr>, bound: nat)
    requires Within(s1, |slots|) && Within(s2, |slots|) && SlotsOk(op, slots, bound) && AllFlat(slots)
    ensures AllFlat(Pass1(op, s1, s2, slots, bound).0)
    decreases bound, Width(s1) + Width(s2), 1
  {
    hide AllFlat;
    if s1.Fork? {
      WidthPositive(s1.left); WidthPositive(s1.right);
      Pass1Flat(op, s1.left, s2, slots, bound);
      Pass1Flat(op, s1.right, s2, Pass1(op, s1.left, s2, slots, bound).0, bound);
    } else if s2.Fork? {
      WidthPositive(s2.left); WidthPositive(s2.right);
      Pass1Flat(op, s1, s2.left, slots, bound);
      Pass1Flat(op, s1, s2.right, Pass1(op, s1, s2.left, slots, bound).0, bound);
    } else if s1.i != s2.i {
      PassPairFlat(op, s1.i, s2.i, slots, bound);
    }
  }

  lemma {:induction false} PassPairFlat(op: Op, i: nat, j: nat, slots: seq<Expr>, bound: nat)
    requires i < |slots| && j < |slots| && i != j && SlotsOk(op, slots, bound) && AllFlat(slots)
    ensures AllFlat(PassPair(op, i, j, slots, bound).0)
    decreases bound, 2, 0
  {
    hide PassAll, Join;
    var x := if Binary(slots[i]) then PassAll(slots[i]).0 else slots[i];
    if Binary(slots[i]) { PassAllFlat(slots[i]); }
    if Join(op, x, slots[j]).Some? { FlatJoin(op, x, slots[j]); }
  }

  lemma {:induction false} FlatJoin(op: Op, x: Expr, y: Expr)
    requires Join(op, x, y).Some? && FlatNot(x)
    ensures FlatNot(Join(op, x, y).value)
  {
    hide ExprEq;
  }

  lemma {:induction false} PassAllFlat(e: Expr)
    requires Binary(e) && FlatNot(e)
    ensures FlatNot(PassAll(e).0)
    decreases Size(e), 0, 0
  {
    hide Pass1, Rebuild, FlatNot, AllFlat;
    var op := OpOf(e);
    var s := SpineOf(op, e, 0);
    FlatOperands(op, e);
    PassAllSlots(op, e);
    Pass1Flat(op, s, s, Operands(op, e), Size(e) - 1);
    FlatRebuilt(op, s, Pass1(op, s, s, Operands(op, e), Size(e) - 1).0);
  }

  lemma {:induction false} EliminateYnFlat(e: Expr)
    requires FlatNot(e)
    ensures FlatNot(EliminateYn(e))
  {
    if Binary(e) {
      EliminateYnFlat(e.left);
      EliminateYnFlat(e.right);
    }
  }

  lemma {:induction false} FlatIsClean(e: Expr)
    requires FlatNot(e) && !HasYn(e)
    ensures Clean(e)
  {
    if Binary(e) {
      FlatIsClean(e.left);
      FlatIsClean(e.right);
    }
  }

  lemma {:induction false} EliminateDupsClean(e: Expr)
    requires FlatNot(e) && !HasYn(e)
    ensures FlatNot(EliminateDups(e)) && !HasYn(EliminateDups(e)) && Clean(EliminateDups(e))
    decreases Size(e)
  {
    hide FlatNot, HasYn, PassAll, EliminateYn, Clean;
    FlatIsClean(e);
    if Binary(e) {
      var (p, n) := PassAll(e);
      PassAllFlat(e);
      PassAllTouches(e);
      if n > 0 {
        EliminateYnShrinks(p);
        EliminateYnFlat(p);
        EliminateDupsClean(EliminateYn(p));
      }
    }
  }
}
