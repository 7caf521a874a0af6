/** expr_eliminate_dups: repeated pairwise joining of the operands of and/or chains. */
module KconfigDups {
  import opened KconfigExpr
  import opened KconfigEliminate
  import opened KconfigJoin

  // ---------- Operand slots ----------

  /** expr_eliminate_dups1 walks two pointers over the same tree. What it mutates are the operand slots
      of the tree's and-chain or or-chain: a spine names the slots by number, so that the same slot
      reached by both pointers is recognised (e1 == e2), while equal operands in different slots are
      different. */
  datatype Spine = Slot(i: nat) | Fork(left: Spine, right: Spine)

  lemma {:induction false} OperandsOk(op: Op, e: Expr)
    ensures forall i :: 0 <= i < |Operands(op, e)| ==>
                          && !IsNode(op, Operands(op, e)[i])
                          && Size(Operands(op, e)[i]) <= Size(e) - (if IsNode(op, e) then 1 else 0)
  {
    if IsNode(op, e) {
      OperandsOk(op, e.left);
      OperandsOk(op, e.right);
    }
  }

  function SpineOf(op: Op, e: Expr, base: nat): Spine {
    if IsNode(op, e) then Fork(SpineOf(op, e.left, base), SpineOf(op, e.right, base + |Operands(op, e.left)|))
    else Slot(base)
  }

  function Width(s: Spine): nat {
    if s.Slot? then 1 else Width(s.left) + Width(s.right)
  }

  /** The slots below `s` are base, base + 1, ... in order. */
  predicate Numbered(s: Spine, base: nat) {
    if s.Slot? then s.i == base else Numbered(s.left, base) && Numbered(s.right, base + Width(s.left))
  }

  predicate Within(s: Spine, n: nat) {
    if s.Slot? then s.i < n else Within(s.left, n) && Within(s.right, n)
  }

  /** The tree with the given operands in its slots. */
  function Rebuild(op: Op, s: Spine, slots: seq<Expr>): Expr
    requires Within(s, |slots|)
  {
    if s.Slot? then slots[s.i] else Mk(op, Rebuild(op, s.left, slots), Rebuild(op, s.right, slots))
  }

  function Total(slots: seq<Expr>): nat {
    if slots == [] then 0 else Size(slots[0]) + Total(slots[1..])
  }

  lemma {:induction false} TotalConcat(a: seq<Expr>, b: seq<Expr>)
    ensures Total(a + b) == Total(a) + Total(b)
  {
    if a == [] {
      assert a + b == b;
    } else {
      assert (a + b)[0] == a[0] && (a + b)[1..] == a[1..] + b;
      TotalConcat(a[1..], b);
    }
  }

  lemma {:induction false} TotalUpdate(slots: seq<Expr>, i: nat, x: Expr)
    requires i < |slots|
    ensures Total(slots[i := x]) == Total(slots) - Size(slots[i]) + Size(x)
  {
    if i == 0 {
      assert slots[0 := x][1..] == slots[1..];
    } else {
      assert slots[i := x][1..] == slots[1..][i - 1 := x];
      TotalUpdate(slots[1..], i - 1, x);
    }
  }

  lemma {:induction false} SliceConcat(slots: seq<Expr>, a: nat, b: nat, c: nat)
    requires a <= b <= c <= |slots|
    ensures slots[a..b] + slots[b..c] == slots[a..c]
  {
  }

  lemma {:induction false} OperandsSize(op: Op, e: Expr)
    ensures Size(e) == Total(Operands(op, e)) + |Operands(op, e)| - 1
  {
    if IsNode(op, e) {
      OperandsSize(op, e.left);
      OperandsSize(op, e.right);
      TotalConcat(Operands(op, e.left), Operands(op, e.right));
    }
  }

  lemma {:induction false} MkSize(op: Op, l: Expr, r: Expr)
    ensures Size(Mk(op, l, r)) == 1 + Size(l) + Size(r)
  {
  }

  lemma {:induction false} TotalSingle(x: Expr)
    ensures Total([x]) == Size(x)
  {
    assert [x][1..] == [];
  }

  lemma {:induction false} SlotParts(op: Op, s: Spine, base: nat, slots: seq<Expr>)
    requires s.Slot? && Numbered(s, base) && base + Width(s) <= |slots| && Within(s, |slots|)
    ensures Width(s) == 1 && Rebuild(op, s, slots) == slots[base] && slots[base..base + 1] == [slots[base]]
  {
  }

  lemma {:induction false} ForkParts(op: Op, s: Spine, base: nat, slots: seq<Expr>)
    requires s.Fork? && Numbered(s, base) && base + Width(s) <= |slots| && Within(s, |slots|)
    ensures Numbered(s.left, base) && Numbered(s.right, base + Width(s.left))
    ensures Within(s.left, |slots|) && Within(s.right, |slots|)
    ensures Width(s) == Width(s.left) + Width(s.right)
    ensures Rebuild(op, s, slots) == Mk(op, Rebuild(op, s.left, slots), Rebuild(op, s.right, slots))
  {
  }

  lemma {:induction false} RebuildSize(op: Op, s: Spine, base: nat, slots: seq<Expr>)
    requires Numbered(s, base) && base + Width(s) <= |slots| && Within(s, |slots|)
    ensures Size(Rebuild(op, s, slots)) == Total(slots[base..base + Width(s)]) + Width(s) - 1
  {
    hide Total, Rebuild, Numbered, Within, Width, Size, Mk;
    if s.Slot? {
      SlotParts(op, s, base, slots);
      TotalSingle(slots[base]);
    } else {
      var mid, end := base + Width(s.left), base + Width(s);
      ForkParts(op, s, base, slots);
      MkSize(op, Rebuild(op, s.left, slots), Rebuild(op, s.right, slots));
      RebuildSize(op, s.left, base, slots);
      RebuildSize(op, s.right, mid, slots);
      TotalConcat(slots[base..mid], slots[mid..end]);
      SliceConcat(slots, base, mid, end);
    }
  }

  // ---------- The pass ----------

  ghost predicate SlotsOk(op: Op, slots: seq<Expr>, bound: nat) {
    forall i :: 0 <= i < |slots| ==> !IsNode(op, slots[i]) && Size(slots[i]) <= bound
  }

  /** expr_eliminate_dups1: visits every pair of slots below s1 and s2; returns the slots after the
      mutation and how much trans_count grew. No slot ever becomes a node of the chain itself, so the
      spine stays as it is. */
  function Pass1(op: Op, s1: Spine, s2: Spine, slots: seq<Expr>, ghost bound: nat): (r: (seq<Expr>, nat))
    requires Within(s1, |slots|) && Within(s2, |slots|) && SlotsOk(op, slots, bound)
    ensures |r.0| == |slots| && SlotsOk(op, r.0, bound) && Total(r.0) <= Total(slots)
    decreases bound, Width(s1) + Width(s2), 1
  {
    if s1.Fork? then
      WidthPositive(s1.left); WidthPositive(s1.right);
      var (slots1, n1) := Pass1(op, s1.left, s2, slots, bound);
      var (slots2, n2) := Pass1(op, s1.right, s2, slots1, bound);
      (slots2, n1 + n2)
    else if s2.Fork? then
      WidthPositive(s2.left); WidthPositive(s2.right);
      var (slots1, n1) := Pass1(op, s1, s2.left, slots, bound);
      var (slots2, n2) := Pass1(op, s1, s2.right, slots1, bound);
      (slots2, n1 + n2)
    else if s1.i == s2.i then (slots, 0)
    else PassPair(op, s1.i, s2.i, slots, bound)
  }

  /** The two operands e1 and e2 in different slots. */
  function PassPair(op: Op, i: nat, j: nat, slots: seq<Expr>, ghost bound: nat): (r: (seq<Expr>, nat))
    requires i < |slots| && j < |slots| && i != j && SlotsOk(op, slots, bound)
    ensures |r.0| == |slots| && SlotsOk(op, r.0, bound) && Total(r.0) <= Total(slots)
    decreases bound, 2, 0
  {
    var (x, n) := if Binary(slots[i]) then PassAll(slots[i]) else (slots[i], 0);
    var joined := Join(op, x, slots[j]);
    TotalUpdate(slots, i, x);
    if joined.None? then (slots[i := x], n)
    else
      JoinSize(op, x, slots[j]);
      TotalUpdate(slots, i, Sym(Unit(op)));
      TotalUpdate(slots[i := Sym(Unit(op))], j, joined.value);
      (slots[i := Sym(Unit(op))][j := joined.value], n + 1)
  }

  /** expr_eliminate_dups1 called with both slots on the same and/or tree. */
  function PassAll(e: Expr): (r: (Expr, nat))
    requires Binary(e)
    ensures Size(r.0) <= Size(e) && Binary(r.0) && OpOf(r.0) == OpOf(e)
    decreases Size(e), 0, 0
  {
    var op := OpOf(e);
    var s := SpineOf(op, e, 0);
    SpineNumbered(op, e, 0);
    NumberedWithin(s, 0, |Operands(op, e)|);
    OperandsOk(op, e);
    var (slots, n) := Pass1(op, s, s, Operands(op, e), Size(e) - 1);
    RebuiltSize(op, e, slots);
    (Rebuild(op, s, slots), n)
  }

  lemma {:induction false} RebuiltSize(op: Op, e: Expr, slots: seq<Expr>)
    requires IsNode(op, e) && |slots| == |Operands(op, e)| && Total(slots) <= Total(Operands(op, e))
    ensures Within(SpineOf(op, e, 0), |slots|)
    ensures Size(Rebuild(op, SpineOf(op, e, 0), slots)) <= Size(e) && IsNode(op, Rebuild(op, SpineOf(op, e, 0), slots))
  {
    hide Total, Operands, Numbered, Size;
    SpineNumbered(op, e, 0);
    NumberedWithin(SpineOf(op, e, 0), 0, |slots|);
    OperandsSize(op, e);
    RebuildSize(op, SpineOf(op, e, 0), 0, slots);
    assert slots[0..|slots|] == slots;
  }

  lemma {:induction false} WidthPositive(s: Spine)
    ensures Width(s) >= 1
  {
    if s.Fork? { WidthPositive(s.left); WidthPositive(s.right); }
  }

  lemma {:induction false} SpineNumbered(op: Op, e: Expr, base: nat)
    ensures Numbered(SpineOf(op, e, base), base) && Width(SpineOf(op, e, base)) == |Operands(op, e)|
  {
    if IsNode(op, e) {
      SpineNumbered(op, e.left, base);
      SpineNumbered(op, e.right, base + |Operands(op, e.left)|);
    }
  }

  lemma {:induction false} NumberedWithin(s: Spine, base: nat, n: nat)
    requires Numbered(s, base) && base + Width(s) <= n
    ensures Within(s, n)
  {
    if s.Fork? {
      NumberedWithin(s.left, base, n);
      NumberedWithin(s.right, base + Width(s.left), n);
    }
  }

  // ---------- A pass keeps the value ----------

  function EvalAll(op: Op, slots: seq<Expr>, v: Valuation): Tri {
    if slots == [] then Eval(Sym(Unit(op)), v) else Apply(op, Eval(slots[0], v), EvalAll(op, slots[1..], v))
  }

  lemma {:induction false} EvalAllConcat(op: Op, a: seq<Expr>, b: seq<Expr>, v: Valuation)
    ensures EvalAll(op, a + b, v) == Apply(op, EvalAll(op, a, v), EvalAll(op, b, v))
  {
    if a == [] {
      assert a + b == b;
    } else {
      assert (a + b)[0] == a[0] && (a + b)[1..] == a[1..] + b;
      EvalAllConcat(op, a[1..], b, v);
    }
  }

  lemma {:induction false} UnitValue(op: Op, t: Tri, v: Valuation)
    ensures Apply(op, Eval(Sym(Unit(op)), v), t) == t && Apply(op, t, Eval(Sym(Unit(op)), v)) == t
  {
  }

  lemma {:induction false} ApplyAssoc(op: Op, a: Tri, b: Tri, c: Tri)
    ensures Apply(op, a, Apply(op, b, c)) == Apply(op, b, Apply(op, a, c))
    ensures Apply(op, a, Apply(op, b, c)) == Apply(op, Apply(op, a, b), c)
  {
  }

  /** One operand can be taken out in front, leaving the neutral constant in its slot. */
  lemma {:induction false} PullOut(op: Op, slots: seq<Expr>, i: nat, x: Expr, v: Valuation)
    requires i < |slots|
    ensures EvalAll(op, slots[i := x], v) == Apply(op, Eval(x, v), EvalAll(op, slots[i := Sym(Unit(op))], v))
  {
    hide Eval, Apply;
    var u := Sym(Unit(op));
    if i == 0 {
      assert slots[0 := x][1..] == slots[1..] == slots[0 := u][1..];
      UnitValue(op, EvalAll(op, slots[1..], v), v);
    } else {
      assert slots[i := x][1..] == slots[1..][i - 1 := x];
      assert slots[i := u][1..] == slots[1..][i - 1 := u];
      PullOut(op, slots[1..], i - 1, x, v);
      ApplyAssoc(op, Eval(slots[0], v), Eval(x, v), EvalAll(op, slots[1..][i - 1 := u], v));
    }
  }

  lemma {:induction false} EvalSingle(op: Op, x: Expr, v: Valuation)
    ensures EvalAll(op, [x], v) == Eval(x, v)
  {
    hide Eval, Apply;
    assert [x][1..] == [];
    UnitValue(op, Eval(x, v), v);
  }

  lemma {:induction false} MkValue(op: Op, l: Expr, r: Expr, v: Valuation)
    ensures Eval(Mk(op, l, r), v) == Apply(op, Eval(l, v), Eval(r, v))
  {
  }

  lemma {:induction false} RebuildValue(op: Op, s: Spine, base: nat, slots: seq<Expr>, v: Valuation)
    requires Numbered(s, base) && base + Width(s) <= |slots| && Within(s, |slots|)
    ensures Eval(Rebuild(op, s, slots), v) == EvalAll(op, slots[base..base + Width(s)], v)
  {
    hide Eval, Apply, EvalAll, Rebuild, Numbered, Within, Width, Mk;
    if s.Slot? {
      SlotParts(op, s, base, slots);
      EvalSingle(op, slots[base], v);
    } else {
      var mid, end := base + Width(s.left), base + Width(s);
      ForkParts(op, s, base, slots);
      MkValue(op, Rebuild(op, s.left, slots), Rebuild(op, s.right, slots), v);
      RebuildValue(op, s.left, base, slots, v);
      RebuildValue(op, s.right, mid, slots, v);
      EvalAllConcat(op, slots[base..mid], slots[mid..end], v);
      SliceConcat(slots, base, mid, end);
    }
  }

  lemma {:induction false} OperandsValue(op: Op, e: Expr, v: Valuation)
    ensures Eval(e, v) == EvalAll(op, Operands(op, e), v)
  {
    if IsNode(op, e) {
      OperandsValue(op, e.left, v);
      OperandsValue(op, e.right, v);
      EvalAllConcat(op, Operands(op, e.left), Operands(op, e.right), v);
    } else {
      EvalSingle(op, e, v);
    }
  }

  lemma {:induction false} Pass1KeepsValue(op: Op, s1: Spine, s2: Spine, slots: seq<Expr>, bound: nat, v: Valuation)
    requires Within(s1, |slots|) && Within(s2, |slots|) && SlotsOk(op, slots, bound) && Good(v)
    ensures EvalAll(op, Pass1(op, s1, s2, slots, bound).0, v) == EvalAll(op, slots, v)
    decreases bound, Width(s1) + Width(s2), 1
  {
    if s1.Fork? {
      WidthPositive(s1.left); WidthPositive(s1.right);
      Pass1KeepsValue(op, s1.left, s2, slots, bound, v);
      Pass1KeepsValue(op, s1.right, s2, Pass1(op, s1.left, s2, slots, bound).0, bound, v);
    } else if s2.Fork? {
      WidthPositive(s2.left); WidthPositive(s2.right);
      Pass1KeepsValue(op, s1, s2.left, slots, bound, v);
      Pass1KeepsValue(op, s1, s2.right, Pass1(op, s1, s2.left, slots, bound).0, bound, v);
    } else if s1.i != s2.i {
      PassPairKeepsValue(op, s1.i, s2.i, slots, bound, v);
    }
  }

  lemma {:induction false} PassPairKeepsValue(op: Op, i: nat, j: nat, slots: seq<Expr>, bound: nat, v: Valuation)
    requires i < |slots| && j < |slots| && i != j && SlotsOk(op, slots, bound) && Good(v)
    ensures EvalAll(op, PassPair(op, i, j, slots, bound).0, v) == EvalAll(op, slots, v)
    decreases bound, 2, 0
  {
    hide Eval, Apply, EvalAll, PassAll, Join;
    var u := Sym(Unit(op));
    var x := if Binary(slots[i]) then PassAll(slots[i]).0 else slots[i];
    if Binary(slots[i]) { PassAllKeepsValue(slots[i], v); }
    assert slots[i := slots[i]] == slots;
    PullOut(op, slots, i, slots[i], v);
    PullOut(op, slots, i, x, v);
    var joined := Join(op, x, slots[j]);
    if joined.Some? {
      var rest := slots[i := u];
      assert rest[j := slots[j]] == rest;
      PullOut(op, rest, j, slots[j], v);
      PullOut(op, rest, j, joined.value, v);
      JoinKeepsValue(op, x, slots[j], v);
      ApplyAssoc(op, Eval(x, v), Eval(slots[j], v), EvalAll(op, rest[j := u], v));
    }
  }

  lemma {:induction false} PassAllKeepsValue(e: Expr, v: Valuation)
    requires Binary(e) && Good(v)
    ensures Eval(PassAll(e).0, v) == Eval(e, v)
    decreases Size(e), 0, 0
  {
    hide Eval, EvalAll, Rebuild, SpineOf, Good;
    var op := OpOf(e);
    var s := SpineOf(op, e, 0);
    var operands := Operands(op, e);
    SpineNumbered(op, e, 0);
    NumberedWithin(s, 0, |operands|);
    OperandsOk(op, e);
    var slots := Pass1(op, s, s, operands, Size(e) - 1).0;
    Pass1KeepsValue(op, s, s, operands, Size(e) - 1, v);
    OperandsValue(op, e, v);
    RebuildValue(op, s, 0, slots, v);
    assert slots[0..|slots|] == slots;
  }

  // ---------- A pass that joins something leaves a constant behind ----------

  ghost predicate Touched(slots: seq<Expr>) {
    exists k :: 0 <= k < |slots| && (IsYn(slots[k]) || HasYn(slots[k]))
  }

  lemma {:induction false} RebuildHasYn(op: Op, s: Spine, base: nat, slots: seq<Expr>, k: nat)
    requires Numbered(s, base) && base + Width(s) <= |slots| && Within(s, |slots|)
    requires base <= k < base + Width(s) && (IsYn(slots[k]) || HasYn(slots[k]))
    ensures HasYn(Rebuild(op, s, slots)) || (s.Slot? && IsYn(Rebuild(op, s, slots)))
  {
    if s.Fork? {
      var mid := base + Width(s.left);
      if k < mid { RebuildHasYn(op, s.left, base, slots, k); } else { RebuildHasYn(op, s.right, mid, slots, k); }
    }
  }

  lemma {:induction false} Pass1Touches(op: Op, s1: Spine, s2: Spine, slots: seq<Expr>, bound: nat)
    requires Within(s1, |slots|) && Within(s2, |slots|) && SlotsOk(op, slots, bound)
    ensures Touched(slots) || Pass1(op, s1, s2, slots, bound).1 > 0 ==> Touched(Pass1(op, s1, s2, slots, bound).0)
    ensures Pass1(op, s1, s2, slots, bound).1 == 0 ==> Pass1(op, s1, s2, slots, bound).0 == slots
    decreases bound, Width(s1) + Width(s2), 1
  {
    if s1.Fork? {
      WidthPositive(s1.left); WidthPositive(s1.right);
      Pass1Touches(op, s1.left, s2, slots, bound);
      Pass1Touches(op, s1.right, s2, Pass1(op, s1.left, s2, slots, bound).0, bound);
    } else if s2.Fork? {
      WidthPositive(s2.left); WidthPositive(s2.right);
      Pass1Touches(op, s1, s2.left, slots, bound);
      Pass1Touches(op, s1, s2.right, Pass1(op, s1, s2.left, slots, bound).0, bound);
    } else if s1.i != s2.i {
      PassPairTouches(op, s1.i, s2.i, slots, bound);
    }
  }

  lemma {:induction false} PassPairTouches(op: Op, i: nat, j: nat, slots: seq<Expr>, bound: nat)
    requires i < |slots| && j < |slots| && i != j && SlotsOk(op, slots, bound)
    ensures Touched(slots) || PassPair(op, i, j, slots, bound).1 > 0 ==> Touched(PassPair(op, i, j, slots, bound).0)
    ensures PassPair(op, i, j, slots, bound).1 == 0 ==>
              && PassPair(op, i, j, slots, bound).0 == slots
              && Join(op, slots[i], slots[j]).None?
              && (Binary(slots[i]) ==> PassAll(slots[i]).1 == 0)
    decreases bound, 2, 0
  {
    hide Join, PassAll;
    if Binary(slots[i]) { PassAllTouches(slots[i]); }
    var after := PassPair(op, i, j, slots, bound).0;
    var (x, n) := if Binary(slots[i]) then PassAll(slots[i]) else (slots[i], 0);
    if Join(op, x, slots[j]).Some? {
      assert IsYn(after[i]);
    } else if n > 0 {
      assert HasYn(after[i]);
    } else {
      assert after == slots;
    }
  }

  lemma {:induction false} TwoSlices(slots: seq<Expr>, base: nat, a: seq<Expr>, b: seq<Expr>)
    requires base + |a + b| <= |slots| && slots[base..base + |a + b|] == a + b
    ensures slots[base..base + |a|] == a && slots[base + |a|..base + |a| + |b|] == b
  {
    var both := slots[base..base + |a + b|];
    assert slots[base..base + |a|] == both[..|a|];
    assert slots[base + |a|..base + |a| + |b|] == both[|a|..];
  }

  lemma {:induction false} RebuildOperands(op: Op, e: Expr, base: nat, slots: seq<Expr>)
    requires base + |Operands(op, e)| <= |slots| && slots[base..base + |Operands(op, e)|] == Operands(op, e)
    ensures Within(SpineOf(op, e, base), |slots|) && Rebuild(op, SpineOf(op, e, base), slots) == e
  {
    hide Rebuild, SpineOf, Within;
    if IsNode(op, e) {
      var ls, rs := Operands(op, e.left), Operands(op, e.right);
      assert Operands(op, e) == ls + rs;
      TwoSlices(slots, base, ls, rs);
      RebuildOperands(op, e.left, base, slots);
      RebuildOperands(op, e.right, base + |ls|, slots);
      RebuildNode(op, e, base, slots);
    } else {
      RebuildLeaf(op, e, base, slots);
    }
  }

  lemma {:induction false} RebuildNode(op: Op, e: Expr, base: nat, slots: seq<Expr>)
    requires IsNode(op, e)
    requires var l := SpineOf(op, e.left, base); Within(l, |slots|) && Rebuild(op, l, slots) == e.left
    requires var r := SpineOf(op, e.right, base + |Operands(op, e.left)|);
             Within(r, |slots|) && Rebuild(op, r, slots) == e.right
    ensures Within(SpineOf(op, e, base), |slots|) && Rebuild(op, SpineOf(op, e, base), slots) == e
  {
    hide Operands;
  }

  lemma {:induction false} RebuildLeaf(op: Op, e: Expr, base: nat, slots: seq<Expr>)
    requires !IsNode(op, e) && base < |slots| && slots[base] == e
    ensures Within(SpineOf(op, e, base), |slots|) && Rebuild(op, SpineOf(op, e, base), slots) == e
  {
  }

  lemma {:induction false} PassAllTouches(e: Expr)
    requires Binary(e)
    ensures PassAll(e).1 > 0 ==> HasYn(PassAll(e).0)
    ensures PassAll(e).1 == 0 ==> PassAll(e).0 == e
    decreases Size(e), 0, 0
  {
    hide HasYn, IsYn, Rebuild, Operands;
    var op := OpOf(e);
    var s := SpineOf(op, e, 0);
    var operands := Operands(op, e);
    SpineNumbered(op, e, 0);
    NumberedWithin(s, 0, |operands|);
    OperandsOk(op, e);
    assert s.Fork?;
    var (slots, n) := Pass1(op, s, s, operands, Size(e) - 1);
    hide Pass1;
    Pass1Touches(op, s, s, operands, Size(e) - 1);
    if n > 0 {
      var k :| 0 <= k < |slots| && (IsYn(slots[k]) || HasYn(slots[k]));
      RebuildHasYn(op, s, 0, slots, k);
    } else {
      assert operands[0..|operands|] == operands;
      RebuildOperands(op, e, 0, operands);
    }
  }

  // ---------- A pass that joins nothing has tried every pair ----------

  ghost predicate Has(s: Spine, i: nat) {
    if s.Slot? then s.i == i else Has(s.left, i) || Has(s.right, i)
  }

  lemma {:induction false} NumberedHas(s: Spine, base: nat, i: nat)
    requires Numbered(s, base)
    ensures Has(s, i) <==> base <= i < base + Width(s)
  {
    if s.Fork? {
      NumberedHas(s.left, base, i);
      NumberedHas(s.right, base + Width(s.left), i);
    }
  }

  lemma {:induction false} Pass1TriesPair(op: Op, s1: Spine, s2: Spine, slots: seq<Expr>, bound: nat, i: nat, j: nat)
    requires Within(s1, |slots|) && Within(s2, |slots|) && SlotsOk(op, slots, bound)
    requires Pass1(op, s1, s2, slots, bound).1 == 0
    requires Has(s1, i) && Has(s2, j) && i != j
    ensures i < |slots| && j < |slots| && Join(op, slots[i], slots[j]).None?
    ensures Binary(slots[i]) ==> PassAll(slots[i]).1 == 0
    decreases Width(s1) + Width(s2)
  {
    if s1.Fork? {
      WidthPositive(s1.left); WidthPositive(s1.right);
      Pass1Touches(op, s1.left, s2, slots, bound);
      if Has(s1.left, i) { Pass1TriesPair(op, s1.left, s2, slots, bound, i, j); }
      else { Pass1TriesPair(op, s1.right, s2, slots, bound, i, j); }
    } else if s2.Fork? {
      WidthPositive(s2.left); WidthPositive(s2.right);
      Pass1Touches(op, s1, s2.left, slots, bound);
      if Has(s2.left, j) { Pass1TriesPair(op, s1, s2.left, slots, bound, i, j); }
      else { Pass1TriesPair(op, s1, s2.right, slots, bound, i, j); }
    } else {
      PassPairTouches(op, i, j, slots, bound);
    }
  }

  /** No two operands of a chain can be joined, at the top or in any nested chain. */
  ghost predicate Settled(e: Expr)
    decreases Size(e)
  {
    Binary(e) ==>
      var op := OpOf(e);
      var operands := Operands(op, e);
      OperandsOk(op, e);
      && (forall i, j :: 0 <= i < |operands| && 0 <= j < |operands| && i != j ==>
            Join(op, operands[i], operands[j]).None?)
      && (forall i :: 0 <= i < |operands| ==> Settled(operands[i]))
  }

  lemma {:induction false} QuietPairs(e: Expr)
    requires Binary(e) && PassAll(e).1 == 0
    ensures var operands := Operands(OpOf(e), e);
            forall i, j :: 0 <= i < |operands| && 0 <= j < |operands| && i != j ==>
                             && Join(OpOf(e), operands[i], operands[j]).None?
                             && (Binary(operands[i]) ==> PassAll(operands[i]).1 == 0)
  {
    hide Join, Pass1, Operands, SpineOf, Numbered, Within, Width, Has;
    var op := OpOf(e);
    var s := SpineOf(op, e, 0);
    var operands := Operands(op, e);
    SpineNumbered(op, e, 0);
    NumberedWithin(s, 0, |operands|);
    OperandsOk(op, e);
    assert Pass1(op, s, s, operands, Size(e) - 1).1 == 0;
    hide PassAll;
    forall i, j | 0 <= i < |operands| && 0 <= j < |operands| && i != j
      ensures Join(op, operands[i], operands[j]).None? && (Binary(operands[i]) ==> PassAll(operands[i]).1 == 0)
    {
      NumberedHas(s, 0, i);
      NumberedHas(s, 0, j);
      Pass1TriesPair(op, s, s, operands, Size(e) - 1, i, j);
    }
  }

  lemma {:induction false} QuietPassIsSettled(e: Expr)
    requires Binary(e) && PassAll(e).1 == 0
    ensures Settled(e)
    decreases Size(e)
  {
    hide PassAll, Join, Operands;
    var op := OpOf(e);
    var operands := Operands(op, e);
    OperandsOk(op, e);
    ChainHasTwo(op, e);
    QuietPairs(e);
    forall i | 0 <= i < |operands| ensures Settled(operands[i]) {
      if Binary(operands[i]) {
        var j := if i == 0 then 1 else 0;
        assert Join(op, operands[i], operands[j]).None?;
        QuietPassIsSettled(operands[i]);
      }
    }
  }

  /** In a settled chain all operands are different. */
  lemma {:induction false} SettledHasNoDuplicates(e: Expr, i: nat, j: nat)
    requires Binary(e) && Settled(e)
    requires i < j < |Operands(OpOf(e), e)|
    ensures Operands(OpOf(e), e)[i] != Operands(OpOf(e), e)[j]
  {
    var x := Operands(OpOf(e), e)[i];
    ExprEqReflexive(x);
    assert Join(OpOf(e), x, x).Some?;
  }

  lemma {:induction false} ChainHasTwo(op: Op, e: Expr)
    requires IsNode(op, e)
    ensures |Operands(op, e)| >= 2
  {
  }

  // ---------- expr_eliminate_dups ----------

  /** What the loop of expr_eliminate_dups computes. It ends because a pass that joins something leaves
      a constant behind, so that eliminating constants makes the expression smaller. */
  function EliminateDups(e: Expr): Expr
    decreases Size(e)
  {
    if !Binary(e) then e
    else
      var (p, n) := PassAll(e);
      if n == 0 then p
      else
        PassAllTouches(e);
        EliminateYnShrinks(p);
        EliminateDups(EliminateYn(p))
  }

  /** expr_eliminate_dups: the loop without a bound. */
  method EliminateDupsLoop(e: Expr) returns (r: Expr)
    ensures r == EliminateDups(e)
    ensures forall v :: Good(v) ==> Eval(r, v) == Eval(e, v)
    ensures Settled(r) && Size(r) <= Size(e)
  {
    r := e;
    while true
      invariant EliminateDups(r) == EliminateDups(e)
      decreases Size(r)
    {
      var count := 0;
      ghost var before := r;
      if Binary(r) {
        PassAllTouches(r);
        var p := PassAll(r);
        r, count := p.0, p.1;
      }
      if count == 0 {
        break;
      }
      EliminateYnShrinks(r);
      r := EliminateYn(r);
    }
    forall v | Good(v) ensures Eval(r, v) == Eval(e, v) { EliminateDupsKeepsValue(e, v); }
    EliminateDupsSettles(e);
  }

  lemma {:induction false} EliminateDupsKeepsValue(e: Expr, v: Valuation)
    requires Good(v)
    ensures Eval(EliminateDups(e), v) == Eval(e, v)
    decreases Size(e)
  {
    if Binary(e) {
      var (p, n) := PassAll(e);
      PassAllKeepsValue(e, v);
      if n > 0 {
        PassAllTouches(e);
        EliminateYnShrinks(p);
        EliminateYnKeepsValue(p, v);
        EliminateDupsKeepsValue(EliminateYn(p), v);
      }
    }
  }

  /** The result is settled, no larger than the argument, and a fixed point of the whole procedure. */
  lemma {:induction false} EliminateDupsSettles(e: Expr)
    ensures Settled(EliminateDups(e))
    ensures Size(EliminateDups(e)) <= Size(e)
    ensures EliminateDups(EliminateDups(e)) == EliminateDups(e)
    decreases Size(e)
  {
    if Binary(e) {
      var (p, n) := PassAll(e);
      PassAllTouches(e);
      if n == 0 {
        QuietPassIsSettled(e);
      } else {
        EliminateYnShrinks(p);
        EliminateDupsSettles(EliminateYn(p));
      }
    }
  }
}
