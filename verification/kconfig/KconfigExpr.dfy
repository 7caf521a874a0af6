/** Kconfig expressions and what they mean: three-valued logic over symbols. */
module KconfigExpr {

  // ---------- Tristate values ----------

  /** no = 0, mod = 1, yes = 2, as in the enumeration. */
  type Tri = t: int | 0 <= t <= 2

  const NO: Tri := 0
  const MOD: Tri := 1
  const YES: Tri := 2

  function Max(a: Tri, b: Tri): Tri { if a > b then a else b }

  function Min(a: Tri, b: Tri): Tri { if a < b then a else b }

  function Letter(t: Tri): string {
    if t == NO then "n" else if t == MOD then "m" else "y"
  }

  // ---------- Symbols ----------

  datatype SymType = UnknownType | BooleanType | TristateType | IntType | HexType | StringType

  /** A constant is found by its text, so two constants are the same symbol exactly when their texts
      agree; "y", "m" and "n" are the three built-in constants. */
  datatype Symbol = Constant(text: string) | Config(name: string, kind: SymType) {
    function Type(): SymType { if Constant? then UnknownType else kind }

    predicate TwoOrThreeValued() { Type() == BooleanType || Type() == TristateType }
  }

  const SYM_YES := Constant("y")
  const SYM_MOD := Constant("m")
  const SYM_NO := Constant("n")

  // ---------- Expressions ----------

  datatype Rel = Eq | Ne | Lt | Le | Gt | Ge

  datatype Expr =
    | Sym(s: Symbol)
    | Not(e: Expr)
    | And(left: Expr, right: Expr)
    | Or(left: Expr, right: Expr)
    | Comp(rel: Rel, a: Symbol, b: Symbol)

  function Size(e: Expr): (n: nat)
    ensures n >= 1
  {
    match e
    case Sym(_) => 1
    case Comp(_, _, _) => 1
    case Not(x) => 1 + Size(x)
    case And(l, r) => 1 + Size(l) + Size(r)
    case Or(l, r) => 1 + Size(l) + Size(r)
  }

  // ---------- Valuations ----------

  /** What a string looks like to expr_parse_string. */
  datatype Parsed = AsString | AsSigned(i: int) | AsUnsigned(u: nat)

  /** `tri`, `str`: value and string of the configuration symbols; `parse`: how a string is read as a
      number for a symbol of the given type (strtoll, strtoull). */
  datatype Valuation = Valuation(tri: Symbol -> Tri, str: Symbol -> string, parse: (SymType, string) -> Parsed)

  /** What symbol.c guarantees: boolean symbols are never mod, the string of a boolean or tristate
      symbol is the letter of its value, and the three letters are not numbers. */
  ghost predicate Good(v: Valuation) {
    && (forall s: Symbol :: s.Type() == BooleanType ==> v.tri(s) != MOD)
    && (forall s: Symbol :: s.TwoOrThreeValued() ==> v.str(s) == Letter(v.tri(s)))
    && (forall t: SymType, x: Tri :: v.parse(t, Letter(x)) == AsString)
  }

  function SymTri(s: Symbol, v: Valuation): Tri {
    if s == SYM_YES then YES
    else if s == SYM_MOD then MOD
    else if s.Constant? then NO
    else v.tri(s)
  }

  function SymStr(s: Symbol, v: Valuation): string {
    if s.Constant? then s.text else v.str(s)
  }

  /** expr_parse_string. */
  function Parse(t: SymType, x: string, v: Valuation): Parsed {
    if t == BooleanType || t == TristateType then AsString else v.parse(t, x)
  }

  /** strcmp, as a sign. */
  function StrCmp(x: string, y: string): int {
    if x == [] && y == [] then 0
    else if x == [] then -1
    else if y == [] then 1
    else if x[0] < y[0] then -1
    else if x[0] > y[0] then 1
    else StrCmp(x[1..], y[1..])
  }

  function Sign(x: int, y: int): int { if x > y then 1 else if x < y then -1 else 0 }

  /** The 64-bit union read as unsigned. */
  function Bits(p: Parsed): int {
    match p
    case AsString => 0
    case AsSigned(i) => if i < 0 then i + 0x1_0000_0000_0000_0000 else i
    case AsUnsigned(u) => u
  }

  /** The comparison of two symbols in expr_calc_value, as a sign. */
  function Compare(a: Symbol, b: Symbol, v: Valuation): int {
    var x, y := SymStr(a, v), SymStr(b, v);
    var both := a.Type() == StringType && b.Type() == StringType;
    var k1 := if both then AsString else Parse(a.Type(), x, v);
    var k2 := if both then AsString else Parse(b.Type(), y, v);
    if k1.AsString? || k2.AsString? then StrCmp(x, y)
    else if k1.AsUnsigned? || k2.AsUnsigned? then Sign(Bits(k1), Bits(k2))
    else Sign(k1.i, k2.i)
  }

  predicate Holds(rel: Rel, c: int) {
    match rel
    case Eq => c == 0
    case Ne => c != 0
    case Lt => c < 0
    case Le => c <= 0
    case Gt => c > 0
    case Ge => c >= 0
  }

  /** expr_calc_value for an expression that is present. */
  function Eval(e: Expr, v: Valuation): Tri {
    match e
    case Sym(s) => SymTri(s, v)
    case Not(x) => 2 - Eval(x, v)
    case And(l, r) => Min(Eval(l, v), Eval(r, v))
    case Or(l, r) => Max(Eval(l, v), Eval(r, v))
    case Comp(rel, a, b) => if Holds(rel, Compare(a, b, v)) then YES else NO
  }

  /** An absent expression counts as yes. */
  function EvalOpt(e: Option<Expr>, v: Valuation): Tri {
    if e.Some? then Eval(e.value, v) else YES
  }

  datatype Option<T> = None | Some(value: T)

  lemma {:induction false} StrCmpEqual(x: string, y: string)
    ensures StrCmp(x, y) == 0 <==> x == y
  {
    if x != [] && y != [] {
      StrCmpEqual(x[1..], y[1..]);
      if x[0] == y[0] && x[1..] == y[1..] {
        assert x == [x[0]] + x[1..] && y == [y[0]] + y[1..];
      }
    }
  }

  /** strcmp orders strings as a dictionary does: by the first character that differs, the shorter string
      first if there is none. */
  lemma {:induction false} StrCmpOrder(x: string, y: string, k: nat)
    requires k <= |x| && k <= |y| && x[..k] == y[..k]
    ensures k == |x| < |y| ==> StrCmp(x, y) == -1 && StrCmp(y, x) == 1
    ensures k < |x| && k < |y| && x[k] < y[k] ==> StrCmp(x, y) == -1 && StrCmp(y, x) == 1
  {
    if k > 0 {
      assert x[0] == x[..k][0] == y[..k][0] == y[0];
      assert x[1..][..k - 1] == x[..k][1..] == y[..k][1..] == y[1..][..k - 1];
      StrCmpOrder(x[1..], y[1..], k - 1);
    }
  }

  lemma {:induction false} StrCmpTurned(x: string, y: string)
    ensures StrCmp(y, x) == -StrCmp(x, y) && -1 <= StrCmp(x, y) <= 1
  {
    if x != [] && y != [] { StrCmpTurned(x[1..], y[1..]); }
  }

  /** What a comparison means: two strings compare as strings; otherwise two numbers compare as numbers, by
      their 64-bit patterns if either is unsigned; anything else compares as strings; and turning the two
      sides round turns the result round. */
  lemma {:induction false} CompareMeaning(a: Symbol, b: Symbol, v: Valuation)
    ensures var x, y, c := SymStr(a, v), SymStr(b, v), Compare(a, b, v);
            var m, n := Parse(a.Type(), x, v), Parse(b.Type(), y, v);
            && (a.Type() == StringType && b.Type() == StringType ==> c == StrCmp(x, y))
            && (m.AsString? || n.AsString? ==> c == StrCmp(x, y))
            && (!(a.Type() == StringType && b.Type() == StringType) && m.AsSigned? && n.AsSigned? ==>
                  (c < 0 <==> m.i < n.i) && (c == 0 <==> m.i == n.i))
            && (!(a.Type() == StringType && b.Type() == StringType) && m.AsUnsigned? && n.AsUnsigned? ==>
                  (c < 0 <==> m.u < n.u) && (c == 0 <==> m.u == n.u))
            && (!(a.Type() == StringType && b.Type() == StringType) && m.AsUnsigned? && n.AsSigned? ==>
                  var i := if n.i < 0 then n.i + 0x1_0000_0000_0000_0000 else n.i;
                  (c < 0 <==> m.u < i) && (c == 0 <==> m.u == i))
    ensures Compare(b, a, v) == -Compare(a, b, v)
  {
    StrCmpTurned(SymStr(a, v), SymStr(b, v));
  }

  /** Comparing a boolean or tristate symbol for equality compares strings. */
  lemma {:induction false} CompareLetters(a: Symbol, b: Symbol, v: Valuation)
    requires a.TwoOrThreeValued()
    ensures Compare(a, b, v) == 0 <==> v.str(a) == SymStr(b, v)
  {
    StrCmpEqual(v.str(a), SymStr(b, v));
  }

  // ---------- The two binary operators as one ----------

  datatype Op = AndOp | OrOp

  function Unit(op: Op): Symbol { if op == OrOp then SYM_NO else SYM_YES }

  function Zero(op: Op): Symbol { if op == OrOp then SYM_YES else SYM_NO }

  function Apply(op: Op, a: Tri, b: Tri): Tri { if op == OrOp then Max(a, b) else Min(a, b) }

  function Mk(op: Op, l: Expr, r: Expr): Expr { if op == OrOp then Or(l, r) else And(l, r) }

  predicate IsNode(op: Op, e: Expr) { if op == OrOp then e.Or? else e.And? }

  predicate Binary(e: Expr) { e.And? || e.Or? }

  function OpOf(e: Expr): Op
    requires Binary(e)
  {
    if e.Or? then OrOp else AndOp
  }

  /** The operands of the `op` chain at the top of `e`, left to right. */
  function Operands(op: Op, e: Expr): (r: seq<Expr>)
    ensures |r| >= 1
  {
    if IsNode(op, e) then Operands(op, e.left) + Operands(op, e.right) else [e]
  }
}
