/** The propositional-logic expression tree of logic/logic.py: construction with operand
    validation, evaluation under a model, printing with conditional parentheses, and the
    set of symbols. Python objects are values here; only the `add` of a conjunction or
    disjunction changes an object in place, and `Junction` is that object. */
module Logic {

  import opened PyCore

  /** An expression: `Base` is a bare `Expression()` instance, whose methods are the
      defaults of the base class. */
  datatype Expr =
    | Base
    | Symbol(name: string)
    | Not(operand: Expr)
    | And(conjuncts: seq<Expr>)
    | Or(disjuncts: seq<Expr>)
    | Implication(antecedent: Expr, consequent: Expr)
    | Biconditional(left: Expr, right: Expr)

  /** A Python value handed to a constructor or to `add`: an expression or anything else. */
  datatype PyValue = Expression(expr: Expr) | NonExpression

  /** `Expression.validate(obj)`. */
  function Validate(v: PyValue): (r: Option<PyError>)
    ensures r.None? <==> v.Expression?
    ensures r.Some? ==> r.value == Exception
  {
    if v.Expression? then None else Some(Exception)
  }

  /** The first validation failure among several operands, checked in order. */
  function ValidateAll(vs: seq<PyValue>): (r: Outcome<seq<Expr>>)
    ensures r.Return? <==> forall i :: 0 <= i < |vs| ==> vs[i].Expression?
    ensures r.Return? ==> |r.value| == |vs| && forall i :: 0 <= i < |vs| ==> r.value[i] == vs[i].expr
    ensures r.Raise? ==> r.error == Exception
  {
    if vs == [] then Return([])
    else match ValidateAll(vs[..|vs| - 1]) {
      case Raise(err) => Raise(err)
      case Return(init) =>
        var last := vs[|vs| - 1];
        if last.Expression? then Return(init + [last.expr]) else Raise(Exception)
    }
  }

  // ---------------------------------------------------------------------------------
  // Constructors

  /** `Symbol(name)`: only alphanumeric names are accepted. */
  function MakeSymbol(name: string): (r: Outcome<Expr>)
    ensures r.Return? <==> IsAlnum(name)
    ensures r.Return? ==> r.value == Symbol(name)
    ensures r.Raise? ==> r.error == Exception
  {
    if !IsAlnum(name) then Raise(Exception) else Return(Symbol(name))
  }

  function MakeNot(v: PyValue): (r: Outcome<Expr>)
    ensures r.Return? <==> v.Expression?
    ensures r.Return? ==> r.value == Not(v.expr)
  {
    if v.Expression? then Return(Not(v.expr)) else Raise(Exception)
  }

  function MakeAnd(vs: seq<PyValue>): (r: Outcome<Expr>)
    ensures r.Return? <==> forall i :: 0 <= i < |vs| ==> vs[i].Expression?
    ensures r.Return? ==> r.value.And? && |r.value.conjuncts| == |vs|
    ensures r.Return? ==> forall i :: 0 <= i < |vs| ==> r.value.conjuncts[i] == vs[i].expr
  {
    match ValidateAll(vs) {
      case Raise(err) => Raise(err)
      case Return(cs) => Return(And(cs))
    }
  }

  function MakeOr(vs: seq<PyValue>): (r: Outcome<Expr>)
    ensures r.Return? <==> forall i :: 0 <= i < |vs| ==> vs[i].Expression?
    ensures r.Return? ==> r.value.Or? && |r.value.disjuncts| == |vs|
    ensures r.Return? ==> forall i :: 0 <= i < |vs| ==> r.value.disjuncts[i] == vs[i].expr
  {
    match ValidateAll(vs) {
      case Raise(err) => Raise(err)
      case Return(cs) => Return(Or(cs))
    }
  }

  function MakeImplication(a: PyValue, c: PyValue): (r: Outcome<Expr>)
    ensures r.Return? <==> a.Expression? && c.Expression?
    ensures r.Return? ==> r.value == Implication(a.expr, c.expr)
  {
    if !a.Expression? || !c.Expression? then Raise(Exception)
    else Return(Implication(a.expr, c.expr))
  }

  function MakeBiconditional(l: PyValue, r: PyValue): (o: Outcome<Expr>)
    ensures o.Return? <==> l.Expression? && r.Expression?
    ensures o.Return? ==> o.value == Biconditional(l.expr, r.expr)
  {
    if !l.Expression? || !r.Expression? then Raise(Exception)
    else Return(Biconditional(l.expr, r.expr))
  }

  // ---------------------------------------------------------------------------------
  // eval

  /** A model maps symbol names to the truth of their values (`bool(model[name])`). */
  type Model = map<string, bool>

  /** `e.eval(model)`: a missing symbol raises; `all` and `any` stop at the first operand
      that decides them, so later operands are not evaluated; implications and
      biconditionals evaluate both sides, left first. Every failure is a plain Exception:
      the base class's "nothing to evaluate" or a symbol missing from the model. */
  function Eval(e: Expr, m: Model): (r: Outcome<bool>)
    ensures r.Raise? ==> r.error == Exception
    decreases e
  {
    match e
    case Base => Raise(Exception)
    case Symbol(name) => if name in m then Return(m[name]) else Raise(Exception)
    case Not(a) =>
      (match Eval(a, m) {
        case Raise(err) => Raise(err)
        case Return(b) => Return(!b)
      })
    case And(cs) => EvalAll(cs, m)
    case Or(cs) => EvalAny(cs, m)
    case Implication(a, c) =>
      (match Eval(a, m) {
        case Raise(err) => Raise(err)
        case Return(l) =>
          match Eval(c, m) {
            case Raise(err) => Raise(err)
            case Return(r) => Return(!l || r)
          }
      })
    case Biconditional(a, b) =>
      (match Eval(a, m) {
        case Raise(err) => Raise(err)
        case Return(l) =>
          match Eval(b, m) {
            case Raise(err) => Raise(err)
            case Return(r) => Return((!l || r) && (!r || l))
          }
      })
  }

  /** `all(c.eval(model) for c in cs)`. */
  function EvalAll(cs: seq<Expr>, m: Model): (r: Outcome<bool>)
    ensures r.Raise? ==> r.error == Exception
    decreases cs
  {
    if cs == [] then Return(true)
    else match Eval(cs[0], m) {
      case Raise(err) => Raise(err)
      case Return(b) => if !b then Return(false) else EvalAll(cs[1..], m)
    }
  }

  /** `any(c.eval(model) for c in cs)`. */
  function EvalAny(cs: seq<Expr>, m: Model): (r: Outcome<bool>)
    ensures r.Raise? ==> r.error == Exception
    decreases cs
  {
    if cs == [] then Return(false)
    else match Eval(cs[0], m) {
      case Raise(err) => Raise(err)
      case Return(b) => if b then Return(true) else EvalAny(cs[1..], m)
    }
  }

  /** A conjunction is true iff every conjunct evaluates to true (so the empty one is). */
  lemma {:induction false} EvalAllTrue(cs: seq<Expr>, m: Model)
    ensures EvalAll(cs, m) == Return(true) <==> forall i :: 0 <= i < |cs| ==> Eval(cs[i], m) == Return(true)
    decreases cs
  {
    if cs != [] {
      EvalAllTrue(cs[1..], m);
      assert forall i :: 1 <= i < |cs| ==> cs[i] == cs[1..][i - 1];
    }
  }

  /** Operand i is the first to evaluate to something other than !b, and it evaluates to
      b: the operand at which `all` (b false) or `any` (b true) stops. */
  predicate DecidedAt(cs: seq<Expr>, m: Model, i: int, b: bool) {
    0 <= i < |cs| && Eval(cs[i], m) == Return(b)
    && forall j :: 0 <= j < i ==> Eval(cs[j], m) == Return(!b)
  }

  lemma DecidedAtShift(cs: seq<Expr>, m: Model, i: int, b: bool)
    requires cs != [] && 0 < i
    ensures DecidedAt(cs, m, i, b) <==> Eval(cs[0], m) == Return(!b) && DecidedAt(cs[1..], m, i - 1, b)
  {
    if Eval(cs[0], m) == Return(!b) && DecidedAt(cs[1..], m, i - 1, b) {
      forall j | 0 < j < i ensures Eval(cs[j], m) == Return(!b) {
        assert cs[j] == cs[1..][j - 1];
      }
    }
    if DecidedAt(cs, m, i, b) {
      forall j | 0 <= j < i - 1 ensures Eval(cs[1..][j], m) == Return(!b) {
        assert cs[1..][j] == cs[j + 1];
      }
    }
  }

  /** A conjunction is false iff some conjunct is false and every earlier one is true:
      the conjuncts after it are never evaluated, and may well raise. */
  lemma {:induction false} EvalAllFalse(cs: seq<Expr>, m: Model)
    ensures EvalAll(cs, m) == Return(false) <==> exists i :: DecidedAt(cs, m, i, false)
    decreases cs
  {
    if cs != [] {
      EvalAllFalse(cs[1..], m);
      if EvalAll(cs, m) == Return(false) && Eval(cs[0], m) == Return(true) {
        var i :| DecidedAt(cs[1..], m, i, false);
        DecidedAtShift(cs, m, i + 1, false);
      }
      if Eval(cs[0], m) == Return(false) {
        assert DecidedAt(cs, m, 0, false);
      }
      if exists i :: DecidedAt(cs, m, i, false) {
        var i :| DecidedAt(cs, m, i, false);
        if i > 0 {
          DecidedAtShift(cs, m, i, false);
        }
      }
    }
  }

  /** A disjunction is true iff some disjunct is true and every earlier one is false; with
      no disjuncts it is false. */
  lemma {:induction false} EvalAnyTrue(cs: seq<Expr>, m: Model)
    ensures EvalAny(cs, m) == Return(true) <==> exists i :: DecidedAt(cs, m, i, true)
    decreases cs
  {
    if cs != [] {
      EvalAnyTrue(cs[1..], m);
      if EvalAny(cs, m) == Return(true) && Eval(cs[0], m) == Return(false) {
        var i :| DecidedAt(cs[1..], m, i, true);
        DecidedAtShift(cs, m, i + 1, true);
      }
      if Eval(cs[0], m) == Return(true) {
        assert DecidedAt(cs, m, 0, true);
      }
      if exists i :: DecidedAt(cs, m, i, true) {
        var i :| DecidedAt(cs, m, i, true);
        if i > 0 {
          DecidedAtShift(cs, m, i, true);
        }
      }
    }
  }

  /** A disjunction is false iff every disjunct evaluates to false. */
  lemma {:induction false} EvalAnyFalse(cs: seq<Expr>, m: Model)
    ensures EvalAny(cs, m) == Return(false) <==> forall i :: 0 <= i < |cs| ==> Eval(cs[i], m) == Return(false)
    decreases cs
  {
    if cs != [] {
      EvalAnyFalse(cs[1..], m);
      assert forall i :: 1 <= i < |cs| ==> cs[i] == cs[1..][i - 1];
    }
  }

  /** The connectives: negation, material implication and the biconditional as
      (a ⇒ b) ∧ (b ⇒ a), once both sides evaluate. */
  lemma Connectives(a: Expr, b: Expr, m: Model, x: bool, y: bool)
    requires Eval(a, m) == Return(x) && Eval(b, m) == Return(y)
    ensures Eval(Not(a), m) == Return(!x)
    ensures Eval(Implication(a, b), m) == Return(!x || y)
    ensures Eval(Biconditional(a, b), m) == Return(x == y)
    ensures Eval(Biconditional(a, b), m) == Eval(And([Implication(a, b), Implication(b, a)]), m)
  {
    var both := [Implication(a, b), Implication(b, a)];
    assert both[1..] == [Implication(b, a)] && both[1..][1..] == [];
    assert Eval(both[0], m) == Return(!x || y);
    assert EvalAll(both[1..], m) == Return(!y || x);
  }

  // ---------------------------------------------------------------------------------
  // __str__

  const AndSep: string := " ∧ "
  const OrSep: string := " ∨ "
  const NotSign: string := "¬"
  const ImpliesSep: string := " ⇒ "
  const IffSep: string := " ⇔ "

  /** `sep.join(parts)`. */
  function Join(sep: string, parts: seq<string>): (r: string)
    ensures parts == [] ==> r == []
    ensures |parts| == 1 ==> r == parts[0]
  {
    if parts == [] then []
    else if |parts| == 1 then parts[0]
    else Join(sep, parts[..|parts| - 1]) + sep + parts[|parts| - 1]
  }

  /** `str(e)`: a symbol prints as its name, and a negation always begins with the sign,
      which is why `Parenthesize` leaves it bare. */
  function Str(e: Expr): (r: string)
    ensures e.Symbol? ==> r == e.name
    ensures e.Not? ==> |NotSign| <= |r| && r[..|NotSign|] == NotSign
    decreases e, 0
  {
    match e
    case Base => ""
    case Symbol(name) => name
    case Not(a) => NotSign + Parenthesize(a)
    case And(cs) =>
      if |cs| == 1 then Str(cs[0])
      else Join(AndSep, seq(|cs|, i requires 0 <= i < |cs| => Parenthesize(cs[i])))
    case Or(cs) =>
      if |cs| == 1 then Str(cs[0])
      else Join(OrSep, seq(|cs|, i requires 0 <= i < |cs| => Parenthesize(cs[i])))
    case Implication(a, c) => Parenthesize(a) + ImpliesSep + Parenthesize(c)
    case Biconditional(a, b) => Parenthesize(a) + IffSep + Parenthesize(b)
  }

  /** `Expression.parenthesize(expr)`: the string of the expression, bracketed unless it is
      empty, all letters, or a negation. */
  function Parenthesize(e: Expr): (r: string)
    ensures |Str(e)| == 0 || IsAlpha(Str(e)) || e.Not? ==> r == Str(e)
    ensures !(|Str(e)| == 0 || IsAlpha(Str(e)) || e.Not?) ==> r == "(" + Str(e) + ")"
    decreases e, 1
  {
    var s := Str(e);
    if |s| == 0 || IsAlpha(s) || e.Not? then s else "(" + s + ")"
  }

  /** A negation prints as the sign followed by its operand, never bracketed, and a symbol
      whose name has a digit is bracketed when it is an operand. */
  lemma ParenthesizeCases(e: Expr)
    ensures e.Not? ==> Parenthesize(e) == NotSign + Parenthesize(e.operand)
    ensures e.Symbol? && IsAlnum(e.name) && !IsAlpha(e.name) ==> Parenthesize(e) == "(" + e.name + ")"
    ensures e.Symbol? && IsAlpha(e.name) ==> Parenthesize(e) == e.name
  {
  }

  /** A one-operand conjunction or disjunction prints exactly as its operand, without the
      brackets it would get as an operand of a larger conjunction. */
  lemma SingletonPrintsAsOperand(e: Expr)
    ensures Str(And([e])) == Str(e) && Str(Or([e])) == Str(e)
  {
  }

  /** A two-operand conjunction prints its bracketed operands around the sign. */
  lemma PairPrints(a: Expr, b: Expr)
    ensures Str(And([a, b])) == Parenthesize(a) + AndSep + Parenthesize(b)
    ensures Str(Or([a, b])) == Parenthesize(a) + OrSep + Parenthesize(b)
  {
    var ps := seq(2, i requires 0 <= i < 2 => Parenthesize([a, b][i]));
    assert ps == [Parenthesize(a), Parenthesize(b)];
    assert ps[..1] == [Parenthesize(a)];
  }

  // ---------------------------------------------------------------------------------
  // symbols

  /** `e.symbols()`. `And.symbols` and `Or.symbols` call `set.union` on a generator, which
      raises TypeError whatever the operands are; no other failure can occur. */
  function Symbols(e: Expr): (r: Outcome<set<string>>)
    ensures r.Raise? ==> r.error == TypeError
  {
    match e
    case Base => Return({})
    case Symbol(name) => Return({name})
    case Not(a) => Symbols(a)
    case And(_) => Raise(TypeError)
    case Or(_) => Raise(TypeError)
    case Implication(a, c) => Union(Symbols(a), Symbols(c))
    case Biconditional(a, b) => Union(Symbols(a), Symbols(b))
  }

  /** `set.union(a, b)` once both arguments are computed, left first. */
  function Union(a: Outcome<set<string>>, b: Outcome<set<string>>): (r: Outcome<set<string>>)
    ensures a.Raise? ==> r == a
    ensures a.Return? && b.Raise? ==> r == b
    ensures a.Return? && b.Return? ==> r == Return(a.value + b.value)
  {
    if a.Raise? then a else if b.Raise? then b else Return(a.value + b.value)
  }

  /** The expression has no conjunction or disjunction anywhere in it. */
  predicate JunctionFree(e: Expr) {
    match e
    case Base => true
    case Symbol(_) => true
    case Not(a) => JunctionFree(a)
    case And(_) => false
    case Or(_) => false
    case Implication(a, c) => JunctionFree(a) && JunctionFree(c)
    case Biconditional(a, b) => JunctionFree(a) && JunctionFree(b)
  }

  /** The expression has no bare base-class node anywhere in it. */
  predicate BaseFree(e: Expr) {
    match e
    case Base => false
    case Symbol(_) => true
    case Not(a) => BaseFree(a)
    case And(cs) => forall i :: 0 <= i < |cs| ==> BaseFree(cs[i])
    case Or(cs) => forall i :: 0 <= i < |cs| ==> BaseFree(cs[i])
    case Implication(a, c) => BaseFree(a) && BaseFree(c)
    case Biconditional(a, b) => BaseFree(a) && BaseFree(b)
  }

  /** `symbols()` succeeds exactly on trees without a conjunction or disjunction. */
  lemma {:induction false} SymbolsDefined(e: Expr)
    ensures Symbols(e).Return? <==> JunctionFree(e)
  {
    match e
    case Base =>
    case Symbol(_) =>
    case Not(a) => SymbolsDefined(a);
    case And(_) =>
    case Or(_) =>
    case Implication(a, c) => SymbolsDefined(a); SymbolsDefined(c);
    case Biconditional(a, b) => SymbolsDefined(a); SymbolsDefined(b);
  }

  /** The value of an expression depends only on its symbols: two models that agree on
      them give the same outcome. */
  lemma {:induction false} EvalDependsOnSymbols(e: Expr, m1: Model, m2: Model)
    requires Symbols(e).Return?
    requires forall x :: x in Symbols(e).value ==> (x in m1 <==> x in m2)
    requires forall x :: x in Symbols(e).value && x in m1 && x in m2 ==> m1[x] == m2[x]
    ensures Eval(e, m1) == Eval(e, m2)
  {
    match e
    case Base =>
    case Symbol(_) =>
    case Not(a) => EvalDependsOnSymbols(a, m1, m2);
    case Implication(a, c) =>
      EvalDependsOnSymbols(a, m1, m2);
      EvalDependsOnSymbols(c, m1, m2);
    case Biconditional(a, b) =>
      EvalDependsOnSymbols(a, m1, m2);
      EvalDependsOnSymbols(b, m1, m2);
  }

  /** A model that gives every symbol a value evaluates a tree without base nodes
      without raising. */
  lemma {:induction false} EvalDefined(e: Expr, m: Model)
    requires Symbols(e).Return? && Symbols(e).value <= m.Keys && BaseFree(e)
    ensures Eval(e, m).Return?
  {
    match e
    case Symbol(_) =>
    case Not(a) => EvalDefined(a, m);
    case Implication(a, c) => EvalDefined(a, m); EvalDefined(c, m);
    case Biconditional(a, b) => EvalDefined(a, m); EvalDefined(b, m);
  }

  // ---------------------------------------------------------------------------------
  // add

  /** A conjunction (`isAnd`) or disjunction object, whose operand list `add` extends in
      place. */
  class Junction {
    var isAnd: bool
    var operands: seq<Expr>

    /** `And(*conjuncts)` / `Or(*disjuncts)` once its operands are validated. */
    constructor(isAnd: bool, operands: seq<Expr>)
      ensures this.isAnd == isAnd && this.operands == operands
    {
      this.isAnd := isAnd;
      this.operands := operands;
    }

    /** The expression the object currently stands for. */
    function Value(): (e: Expr)
      reads this
      ensures e.And? <==> isAnd
      ensures e == And(operands) || e == Or(operands)
    {
      if isAnd then And(operands) else Or(operands)
    }

    /** `add(expr)`: validates, then appends at the end. */
    method Add(v: PyValue) returns (err: Option<PyError>)
      modifies this
      ensures err == Validate(v)
      ensures isAnd == old(isAnd)
      ensures v.Expression? ==> operands == old(operands) + [v.expr]
      ensures !v.Expression? ==> operands == old(operands)
    {
      err := Validate(v);
      if err.None? {
        operands := operands + [v.expr];
      }
    }
  }

  /** What adding an operand does to the value of a conjunction: it is evaluated only when
      all the earlier ones are true, and then decides the result. */
  lemma {:induction false} EvalAllAppend(cs: seq<Expr>, e: Expr, m: Model)
    ensures EvalAll(cs + [e], m) ==
      match EvalAll(cs, m) {
        case Raise(err) => Raise(err)
        case Return(b) => if b then Eval(e, m) else Return(false)
      }
    decreases cs
  {
    if cs == [] {
      assert [e][1..] == [];
    } else {
      assert (cs + [e])[1..] == cs[1..] + [e];
      EvalAllAppend(cs[1..], e, m);
    }
  }

  /** What adding an operand does to the value of a disjunction. */
  lemma {:induction false} EvalAnyAppend(cs: seq<Expr>, e: Expr, m: Model)
    ensures EvalAny(cs + [e], m) ==
      match EvalAny(cs, m) {
        case Raise(err) => Raise(err)
        case Return(b) => if b then Return(true) else Eval(e, m)
      }
    decreases cs
  {
    if cs == [] {
      assert [e][1..] == [];
    } else {
      assert (cs + [e])[1..] == cs[1..] + [e];
      EvalAnyAppend(cs[1..], e, m);
    }
  }
}
