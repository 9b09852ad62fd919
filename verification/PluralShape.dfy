/**
  What the parser of plural formulas makes of any text, inside the grammar or
  not: a syntax tree in which pieces may be missing. The function it compiles
  raises an exception exactly where the evaluation of that tree comes to a
  missing piece.
 */
module PluralShape {
  import opened Options
  import opened PluralForm
  import PluralMeaning
  import PluralGrammar

  datatype Shape =
    | Missing
    | Variable
    | Literal(value: Num)
    | Not(e: Shape)
    | Binary(op: Op, l: Shape, r: Shape)
    | Conditional(c: Shape, t: Shape, f: Shape)

  /** The function object of a shape, if it is not missing itself. */
  function Compile(s: Shape): Option<Function> {
    match s
    case Missing => None
    case Variable => Some(Identity())
    case Literal(v) => Some(Constant(v))
    case Not(e) => (match Compile(e) case Some(f) => Some(WrapNot(f)) case None => None)
    case Binary(op, l, r) =>
      (match (Compile(l), Compile(r)) case (Some(f), Some(g)) => Some(WrapOp(op, f, g)) case _ => None)
    case Conditional(c, t, f) => Some(Ternary(Compile(c), Compile(t), Compile(f)))
  }

  /** The value for `n`, a missing piece counting as zero. */
  ghost function Eval(s: Shape, n: Num): Num {
    match s
    case Missing => 0
    case Variable => n
    case Literal(v) => v
    case Not(e) => if Eval(e, n) == 0 then 1 else 0
    case Binary(op, l, r) => PluralMeaning.Value(op, Eval(l, n), Eval(r, n))
    case Conditional(c, t, f) => if Eval(c, n) != 0 then Eval(t, n) else Eval(f, n)
  }

  /** Evaluating for `n` comes to a missing piece; of a conditional only one branch is evaluated. */
  ghost predicate ReachesMissing(s: Shape, n: Num) {
    match s
    case Missing => true
    case Variable => false
    case Literal(_) => false
    case Not(e) => ReachesMissing(e, n)
    case Binary(_, l, r) => ReachesMissing(l, n) || ReachesMissing(r, n)
    case Conditional(c, t, f) => ReachesMissing(c, n) || ReachesMissing(if Eval(c, n) != 0 then t else f, n)
  }

  predicate Complete(s: Shape) {
    match s
    case Missing => false
    case Variable => true
    case Literal(_) => true
    case Not(e) => Complete(e)
    case Binary(op, l, r) => Complete(l) && Complete(r)
    case Conditional(c, t, f) => Complete(c) && Complete(t) && Complete(f)
  }

  /** Calling the function of a shape raises exactly where a missing piece is reached. */
  lemma {:induction false} CallIsEval(s: Shape, n: Num)
    ensures Call(Compile(s), n) == if ReachesMissing(s, n) then None else Some(Eval(s, n))
  {
    match s
    case Missing =>
    case Variable =>
    case Literal(_) =>
    case Not(e) => CallIsEval(e, n);
    case Binary(op, l, r) =>
      CallIsEval(l, n);
      CallIsEval(r, n);
      PluralMeaning.ApplyIsValue(op, Eval(l, n), Eval(r, n));
    case Conditional(c, t, f) =>
      CallIsEval(c, n);
      CallIsEval(t, n);
      CallIsEval(f, n);
  }

  lemma {:induction false} CompleteReachesNothing(s: Shape, n: Num)
    requires Complete(s)
    ensures !ReachesMissing(s, n)
  {
    match s
    case Variable =>
    case Literal(_) =>
    case Not(e) => CompleteReachesNothing(e, n);
    case Binary(_, l, r) =>
      CompleteReachesNothing(l, n);
      CompleteReachesNothing(r, n);
    case Conditional(c, t, f) =>
      CompleteReachesNothing(c, n);
      CompleteReachesNothing(if Eval(c, n) != 0 then t else f, n);
  }

  // ---------------------------------------------------------------------------
  // The tree of a text
  // ---------------------------------------------------------------------------

  datatype ShapeResult = ShapeResult(shape: Shape, rest: string)

  function ShapeAtomic(str: string): (r: ShapeResult)
    ensures |r.rest| <= |str|
  {
    if str == "" then ShapeResult(Missing, str)
    else if str[0] == 'n' then ShapeResult(Variable, Trim(str[1..]))
    else
      var (value, used) := Strtoul(str);
      ShapeResult(Literal(value), Trim(str[used..]))
  }

  function ShapeParenthesized(str: string): (r: ShapeResult)
    ensures |r.rest| <= |str|
    decreases |str|, 2
  {
    if str == "" then ShapeResult(Missing, str)
    else if str[0] != '(' then ShapeAtomic(str)
    else
      var inner := ShapeExpr(str[1..]);
      if inner.shape.Missing? then inner
      else if inner.rest == "" || inner.rest[0] != ')' then ShapeResult(Missing, inner.rest)
      else inner.(rest := Trim(inner.rest[1..]))
  }

  function ShapeNegation(str: string): (r: ShapeResult)
    ensures |r.rest| <= |str|
    decreases |str|, 3
  {
    if str == "" then ShapeResult(Missing, str)
    else if str[0] != '!' then ShapeParenthesized(str)
    else
      var inner := ShapeNegation(Trim(str[1..]));
      if inner.shape.Missing? then inner else inner.(shape := Not(inner.shape))
  }

  function ShapeOperand(level: nat, str: string): (r: ShapeResult)
    requires DISJUNCTION <= level <= MULTIPLICATIVE
    ensures |r.rest| <= |str|
    decreases |str|, 4 * (10 - level)
  {
    if level == MULTIPLICATIVE then ShapeNegation(str) else ShapeLtr(level + 1, str)
  }

  function ShapeSingle(level: nat, op: Op, left: Shape, str: string): (r: ShapeResult)
    requires DISJUNCTION <= level <= MULTIPLICATIVE
    ensures |r.rest| <= |str|
    ensures !r.shape.Missing? ==> |r.rest| < |str|
    decreases |str|, 0
  {
    var pattern := Pattern(op);
    if !(pattern <= str) then ShapeResult(Missing, str)
    else
      var next := ShapeOperand(level, Trim(str[|pattern|..]));
      if next.shape.Missing? then next
      else ShapeResult(Binary(op, left, next.shape), Trim(next.rest))
  }

  function ShapeReduce(level: nat, ops: seq<Op>, left: Shape, str: string): (r: ShapeResult)
    requires DISJUNCTION <= level <= MULTIPLICATIVE
    ensures |r.rest| <= |str|
    ensures !r.shape.Missing? ==> |r.rest| < |str|
    decreases |str|, 1, |ops|
  {
    if ops == [] then ShapeResult(Missing, str)
    else
      var next := ShapeSingle(level, ops[0], left, str);
      if !next.shape.Missing? || next.rest != str then next else ShapeReduce(level, ops[1..], left, str)
  }

  function ShapeReduceAll(level: nat, left: Shape, str: string): (r: ShapeResult)
    requires DISJUNCTION <= level <= MULTIPLICATIVE
    ensures |r.rest| <= |str|
    decreases |str|, 2
  {
    if str == "" then ShapeResult(left, str)
    else
      var next := ShapeReduce(level, Ops(level), left, str);
      if next.shape.Missing? then ShapeResult(left, str)
      else ShapeReduceAll(level, next.shape, Trim(next.rest))
  }

  function ShapeLtr(level: nat, str: string): (r: ShapeResult)
    requires DISJUNCTION <= level <= MULTIPLICATIVE
    ensures |r.rest| <= |str|
    decreases |str|, 4 * (10 - level) + 1
  {
    var first := ShapeOperand(level, str);
    if first.shape.Missing? then first else ShapeReduceAll(level, first.shape, Trim(first.rest))
  }

  function ShapeTernary(str: string): (r: ShapeResult)
    ensures |r.rest| <= |str|
    decreases |str|, 50
  {
    var cond := ShapeLtr(DISJUNCTION, str);
    if cond.rest == "" || cond.rest[0] != '?' then cond
    else
      var val := ShapeTernary(Trim(cond.rest[1..]));
      if val.rest == "" || val.rest[0] != ':' then ShapeResult(Missing, val.rest)
      else
        var alt := ShapeTernary(Trim(val.rest[1..]));
        ShapeResult(Conditional(cond.shape, val.shape, alt.shape), alt.rest)
  }

  function ShapeExpr(str: string): (r: ShapeResult)
    ensures |r.rest| <= |str|
    decreases |str|, 51
  {
    ShapeTernary(Trim(str))
  }

  // ---------------------------------------------------------------------------
  // The parser compiles that tree
  // ---------------------------------------------------------------------------

  /** The parser returns the function of the shape, and neither exactly if the shape is missing. */
  ghost predicate Compiles(p: ParserResult, s: ShapeResult) {
    p.func == Compile(s.shape) && p.rest == s.rest && (p.func.None? <==> s.shape.Missing?)
  }

  lemma {:induction false} ParenthesizedCompiles(str: string)
    ensures Compiles(ParseParenthesized(str), ShapeParenthesized(str))
    decreases |str|, 2
  {
    if str != "" && str[0] == '(' {
      TernaryCompiles(Trim(str[1..]));
    }
  }

  lemma {:induction false} NegationCompiles(str: string)
    ensures Compiles(ParseNegation(str), ShapeNegation(str))
    decreases |str|, 3
  {
    if str == "" {
    } else if str[0] != '!' {
      ParenthesizedCompiles(str);
    } else {
      NegationCompiles(Trim(str[1..]));
    }
  }

  lemma {:induction false} OperandCompiles(level: nat, str: string)
    requires DISJUNCTION <= level <= MULTIPLICATIVE
    ensures Compiles(ParseOperand(level, str), ShapeOperand(level, str))
    decreases |str|, 4 * (10 - level)
  {
    if level == MULTIPLICATIVE {
      NegationCompiles(str);
    } else {
      LtrCompiles(level + 1, str);
    }
  }

  lemma {:induction false} SingleCompiles(level: nat, op: Op, left: Shape, f: Function, str: string)
    requires DISJUNCTION <= level <= MULTIPLICATIVE && Compile(left) == Some(f)
    ensures Compiles(ReduceSingle(level, op, f, str), ShapeSingle(level, op, left, str))
    decreases |str|, 0
  {
    if Pattern(op) <= str {
      OperandCompiles(level, Trim(str[|Pattern(op)|..]));
    }
  }

  lemma {:induction false} ReduceCompiles(level: nat, ops: seq<Op>, left: Shape, f: Function, str: string)
    requires DISJUNCTION <= level <= MULTIPLICATIVE && Compile(left) == Some(f)
    ensures Compiles(ReduceLtr(level, ops, f, str), ShapeReduce(level, ops, left, str))
    decreases |str|, 1, |ops|
  {
    if ops != [] {
      SingleCompiles(level, ops[0], left, f, str);
      ReduceCompiles(level, ops[1..], left, f, str);
    }
  }

  lemma {:induction false} ReduceAllCompiles(level: nat, left: Shape, f: Function, str: string)
    requires DISJUNCTION <= level <= MULTIPLICATIVE && Compile(left) == Some(f) && !left.Missing?
    ensures Compiles(ReduceAll(level, f, str), ShapeReduceAll(level, left, str))
    decreases |str|, 2
  {
    if str != "" {
      ReduceCompiles(level, Ops(level), left, f, str);
      var next := ReduceLtr(level, Ops(level), f, str);
      if next.func.Some? {
        ReduceAllCompiles(level, ShapeReduce(level, Ops(level), left, str).shape, next.func.value, Trim(next.rest));
      }
    }
  }

  lemma {:induction false} LtrCompiles(level: nat, str: string)
    requires DISJUNCTION <= level <= MULTIPLICATIVE
    ensures Compiles(ParseLtr(level, str), ShapeLtr(level, str))
    decreases |str|, 4 * (10 - level) + 1
  {
    OperandCompiles(level, str);
    var first := ParseOperand(level, str);
    if first.func.Some? {
      ReduceAllCompiles(level, ShapeOperand(level, str).shape, first.func.value, Trim(first.rest));
    }
  }

  lemma {:induction false} TernaryCompiles(str: string)
    ensures Compiles(ParseTernary(str), ShapeTernary(str))
    decreases |str|, 50
  {
    LtrCompiles(DISJUNCTION, str);
    var cond := ParseLtr(DISJUNCTION, str);
    if cond.rest != "" && cond.rest[0] == '?' {
      TernaryCompiles(Trim(cond.rest[1..]));
      var val := ParseTernary(Trim(cond.rest[1..]));
      if val.rest != "" && val.rest[0] == ':' {
        TernaryCompiles(Trim(val.rest[1..]));
      }
    }
  }

  // ---------------------------------------------------------------------------
  // Main results
  // ---------------------------------------------------------------------------

  /**
    For every text: it is accepted exactly if its tree is there and uses it up,
    and then calling the function raises exactly for the numbers for which the
    evaluation of the tree comes to a missing piece, and else yields its value.
   */
  lemma AcceptedRaisesIff(str: string)
    ensures var r := ShapeExpr(str); Parse(str).Some? <==> r.rest == "" && !r.shape.Missing?
    ensures Parse(str).Some? ==>
              forall n: Num ::
                Parse(str).value(n) ==
                if ReachesMissing(ShapeExpr(str).shape, n) then None else Some(Eval(ShapeExpr(str).shape, n))
  {
    TernaryCompiles(Trim(str));
    if Parse(str).Some? {
      forall n: Num
        ensures Parse(str).value(n) ==
                if ReachesMissing(ShapeExpr(str).shape, n) then None else Some(Eval(ShapeExpr(str).shape, n))
      {
        CallIsEval(ShapeExpr(str).shape, n);
      }
    }
  }

  /** A formula whose tree is complete never raises. */
  lemma CompleteNeverRaises(str: string, n: Num)
    requires Parse(str).Some? && Complete(ShapeExpr(str).shape)
    ensures Parse(str).value(n) == Some(Eval(ShapeExpr(str).shape, n))
  {
    AcceptedRaisesIff(str);
    CompleteReachesNothing(ShapeExpr(str).shape, n);
  }

  // ---------------------------------------------------------------------------
  // A missing middle part
  // ---------------------------------------------------------------------------

  /** In front of a colon, an operand is read as the number zero and nothing is used up. */
  lemma {:induction false} ColonIsZero(level: nat, k: string)
    requires DISJUNCTION <= level <= MULTIPLICATIVE
    requires k != "" && k[0] == ':' && PluralGrammar.Trimmed(k)
    ensures ParseLtr(level, k) == ParserResult(Some(Constant(0)), k)
    decreases 10 - level
  {
    PluralGrammar.TrimTrimmed(k);
    if level == MULTIPLICATIVE {
      PluralGrammar.NegationOfAtom(k);
      assert k[0..] == k;
    } else {
      ColonIsZero(level + 1, k);
    }
    PluralGrammar.ReduceAllStops(level, Constant(0), k);
  }

  lemma {:induction false} MissingAtLevel(level: nat, s: string, k: string)
    requires DISJUNCTION <= level <= MULTIPLICATIVE && ParseNegation(s) == ParserResult(None, k)
    ensures ParseLtr(level, s) == ParserResult(None, k)
    decreases 10 - level
  {
    if level < MULTIPLICATIVE {
      MissingAtLevel(level + 1, s, k);
    }
  }

  lemma OpenIsMissing(s: string, k: string, f: Function)
    requires s != "" && s[0] == '(' && s[1..] == k && k != "" && k[0] == ':' && Trim(k) == k
    requires ParseTernary(k) == ParserResult(Some(f), k)
    ensures ParseNegation(s) == ParserResult(None, k)
  {
    assert ParseExpr(k) == ParserResult(Some(f), k);
  }

  /** A parenthesis with nothing but a colon behind it is no expression, and the colon is left. */
  lemma OpenBeforeColon(s: string, k: string)
    requires s != "" && s[0] == '(' && s[1..] == k && k != "" && k[0] == ':' && PluralGrammar.Trimmed(k)
    ensures ParseTernary(s) == ParserResult(None, k)
  {
    PluralGrammar.TrimTrimmed(k);
    ColonIsZero(DISJUNCTION, k);
    PluralGrammar.NoTernary(k, Constant(0), k);
    OpenIsMissing(s, k, Constant(0));
    MissingAtLevel(DISJUNCTION, s, k);
  }

  lemma MiddleStep(s: string, c: Function, k1: string, k2: string, a: Function)
    requires Trim(s) == s && ParseLtr(DISJUNCTION, s) == ParserResult(Some(c), k1) && k1 != "" && k1[0] == '?'
    requires ParseTernary(Trim(k1[1..])) == ParserResult(None, k2) && k2 != "" && k2[0] == ':'
    requires ParseTernary(Trim(k2[1..])) == ParserResult(Some(a), "")
    ensures Parse(s) == Some(Ternary(Some(c), None, Some(a)))
  {
    assert ParseTernary(s) == ParserResult(Some(Ternary(Some(c), None, Some(a))), "");
  }

  lemma MiddleTexts(a: PluralGrammar.Tree) returns (k1: string, open: string, k2: string)
    requires PluralGrammar.WellFormed(a)
    ensures k2 == ":" + PluralGrammar.Text(a) && open == "(" + k2 && k1 == "?" + open
    ensures PluralGrammar.Trimmed(k1) && PluralGrammar.Trimmed(open) && PluralGrammar.Trimmed(k2)
    ensures k1[1..] == open && open[1..] == k2 && k2[1..] == PluralGrammar.Text(a)
  {
    PluralGrammar.TextShape(a);
    var text := PluralGrammar.Text(a);
    k2 := ":" + text;
    open := "(" + k2;
    k1 := "?" + open;
    assert k2[|k2| - 1] == open[|open| - 1] == k1[|k1| - 1] == text[|text| - 1];
  }

  /**
    A conditional whose middle part is an unclosed parenthesis is accepted, and
    raises exactly where its condition is true: `n?(:1` for one.
   */
  lemma MissingMiddle(c: PluralGrammar.Tree, wsc: string, a: PluralGrammar.Tree, n: Num)
    requires PluralGrammar.WellFormed(c) && PluralGrammar.Level(c) > 0 && PluralGrammar.WellFormed(a)
    requires PluralGrammar.Spaces(wsc)
    ensures var f := Parse(PluralGrammar.Text(c) + wsc + ("?" + ("(" + (":" + PluralGrammar.Text(a)))));
            && f.Some?
            && f.value(n) == if PluralGrammar.Eval(PluralGrammar.Erase(c), n) != 0 then None
                             else Some(PluralGrammar.Eval(PluralGrammar.Erase(a), n))
  {
    var k1, open, k2 := MiddleTexts(a);
    var cond, alt := PluralGrammar.Denote(PluralGrammar.Erase(c)), PluralGrammar.Denote(PluralGrammar.Erase(a));
    MiddleParts(c, wsc, k1, open, k2, a);
    PluralGrammar.DenoteIsEval(PluralGrammar.Erase(c), n);
    PluralGrammar.DenoteIsEval(PluralGrammar.Erase(a), n);
  }

  lemma MiddleParts(c: PluralGrammar.Tree, wsc: string, k1: string, open: string, k2: string, a: PluralGrammar.Tree)
    requires PluralGrammar.WellFormed(c) && PluralGrammar.Level(c) > 0 && PluralGrammar.WellFormed(a)
    requires PluralGrammar.Spaces(wsc) && k1 != "" && k1[0] == '?' && PluralGrammar.Trimmed(k1) && k1[1..] == open
    requires open != "" && open[0] == '(' && PluralGrammar.Trimmed(open) && open[1..] == k2
    requires k2 != "" && k2[0] == ':' && PluralGrammar.Trimmed(k2) && k2[1..] == PluralGrammar.Text(a)
    ensures Parse(PluralGrammar.Text(c) + wsc + k1) ==
            Some(Ternary(Some(PluralGrammar.Denote(PluralGrammar.Erase(c))), None,
                         Some(PluralGrammar.Denote(PluralGrammar.Erase(a)))))
  {
    var s, text := PluralGrammar.Text(c) + wsc + k1, PluralGrammar.Text(a);
    PluralGrammar.TrimmedAround(c, wsc, k1);
    PluralGrammar.TrimTrimmed(s);
    PluralGrammar.DisjunctionText(c, wsc, k1);
    PluralGrammar.TrimTrimmed(open);
    OpenBeforeColon(open, k2);
    PluralGrammar.TextShape(a);
    PluralGrammar.TrimTrimmed(text);
    assert text + "" + "" == text;
    PluralGrammar.TernaryText(a, "", "");
    MiddleStep(s, PluralGrammar.Denote(PluralGrammar.Erase(c)), k1, k2, PluralGrammar.Denote(PluralGrammar.Erase(a)));
  }
}
