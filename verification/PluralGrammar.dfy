/**
  The C grammar of plural formulas, what its expressions mean, and the proof
  that the parser compiles every text of the grammar to that meaning.
 */
module PluralGrammar {
  import opened PluralForm
  import opened PluralMeaning
  import opened Options

  // ---------------------------------------------------------------------------
  // Expressions and their meaning
  // ---------------------------------------------------------------------------

  datatype Expr =
    | Variable
    | Literal(value: Num)
    | Not(e: Expr)
    | Binary(op: Op, l: Expr, r: Expr)
    | Conditional(c: Expr, t: Expr, f: Expr)

  /**
    The meaning in C, with unsigned arithmetic, the logical operators and the
    conditional evaluating only what they need; a division by zero yields zero.
   */
  ghost function Eval(e: Expr, n: Num): Num {
    match e
    case Variable => n
    case Literal(v) => v
    case Not(a) => if Eval(a, n) == 0 then 1 else 0
    case Binary(And, a, b) => if Eval(a, n) == 0 then 0 else if Eval(b, n) == 0 then 0 else 1
    case Binary(Or, a, b) => if Eval(a, n) != 0 then 1 else if Eval(b, n) == 0 then 0 else 1
    case Binary(op, a, b) => Value(op, Eval(a, n), Eval(b, n))
    case Conditional(c, a, b) => if Eval(c, n) != 0 then Eval(a, n) else Eval(b, n)
  }

  /** The function object that the parser builds for an expression. */
  function Denote(e: Expr): Function {
    match e
    case Variable => Identity()
    case Literal(v) => Constant(v)
    case Not(a) => WrapNot(Denote(a))
    case Binary(op, a, b) => WrapOp(op, Denote(a), Denote(b))
    case Conditional(c, a, b) => Ternary(Some(Denote(c)), Some(Denote(a)), Some(Denote(b)))
  }

  /** Calling it never raises and yields the meaning. */
  lemma {:induction false} DenoteIsEval(e: Expr, n: Num)
    ensures Denote(e)(n) == Some(Eval(e, n))
  {
    match e
    case Variable =>
    case Literal(v) =>
    case Not(a) => DenoteIsEval(a, n);
    case Binary(op, a, b) =>
      DenoteIsEval(a, n);
      DenoteIsEval(b, n);
      ApplyIsValue(op, Eval(a, n), Eval(b, n));
    case Conditional(c, a, b) =>
      DenoteIsEval(c, n);
      DenoteIsEval(a, n);
      DenoteIsEval(b, n);
  }

  // ---------------------------------------------------------------------------
  // Texts of the grammar
  // ---------------------------------------------------------------------------

  /** A parse tree with the white space before and after the symbols. */
  datatype Tree =
    | NTree
    | NumberTree(digits: string)
    | ParenTree(ws1: string, inner: Tree, ws2: string)
    | NotTree(ws: string, operand: Tree)
    | BinaryTree(op: Op, left: Tree, wsl: string, wsr: string, right: Tree)
    | TernaryTree(cond: Tree, wsc: string, wsq: string, val: Tree, wsv: string, wsa: string, alt: Tree)

  /** The level of an operator: `||` binds loosest, `*` tightest. */
  function OpLevel(op: Op): (level: nat)
    ensures DISJUNCTION <= level <= MULTIPLICATIVE && op in Ops(level)
  {
    match op
    case Or => 1
    case And => 2
    case Eq => 3
    case Ne => 3
    case Le => 4
    case Ge => 4
    case Lt => 4
    case Gt => 4
    case Add => 5
    case Sub => 5
    case Mul => 6
    case Div => 6
    case Mod => 6
  }

  /** The level of a tree by its outermost symbol; the conditional binds loosest of all. */
  function Level(t: Tree): nat {
    match t
    case TernaryTree(_, _, _, _, _, _, _) => 0
    case BinaryTree(op, _, _, _, _) => OpLevel(op)
    case _ => NEGATION
  }

  predicate Spaces(s: string) {
    forall i :: 0 <= i < |s| ==> s[i] in {' ', '\t', '\n', 11 as char, 12 as char, '\r'}
  }

  /**
    The C grammar: binary operators associate to the left, the conditional to
    the right, and between `?` and `:` stands any expression. Parentheses may
    be redundant.
   */
  predicate WellFormed(t: Tree) {
    match t
    case NTree => true
    case NumberTree(digits) => digits != "" && AllDigits(digits)
    case ParenTree(ws1, inner, ws2) => Spaces(ws1) && Spaces(ws2) && WellFormed(inner)
    case NotTree(ws, operand) => Spaces(ws) && WellFormed(operand) && Level(operand) >= NEGATION
    case BinaryTree(op, left, wsl, wsr, right) =>
      && Spaces(wsl) && Spaces(wsr) && WellFormed(left) && WellFormed(right)
      && Level(left) >= OpLevel(op) && Level(right) > OpLevel(op)
    case TernaryTree(cond, wsc, wsq, val, wsv, wsa, alt) =>
      && Spaces(wsc) && Spaces(wsq) && Spaces(wsv) && Spaces(wsa)
      && WellFormed(cond) && WellFormed(val) && WellFormed(alt) && Level(cond) > 0
  }

  /** How an operator is written. */
  function Symbol(op: Op): (symbol: string)
    ensures symbol == Pattern(op)
  {
    match op
    case Or => "||"
    case And => "&&"
    case Eq => "=="
    case Ne => "!="
    case Le => "<="
    case Ge => ">="
    case Lt => "<"
    case Gt => ">"
    case Add => "+"
    case Sub => "-"
    case Mul => "*"
    case Div => "/"
    case Mod => "%"
  }

  function Text(t: Tree): string {
    match t
    case NTree => "n"
    case NumberTree(digits) => digits
    case ParenTree(ws1, inner, ws2) => "(" + ws1 + Text(inner) + ws2 + ")"
    case NotTree(ws, operand) => "!" + ws + Text(operand)
    case BinaryTree(op, left, wsl, wsr, right) => Text(left) + wsl + Symbol(op) + wsr + Text(right)
    case TernaryTree(cond, wsc, wsq, val, wsv, wsa, alt) =>
      Text(cond) + wsc + "?" + wsq + Text(val) + wsv + ":" + wsa + Text(alt)
  }

  /** The expression a tree stands for; literals too large for the type saturate. */
  function Erase(t: Tree): Expr
    requires WellFormed(t)
  {
    match t
    case NTree => Variable
    case NumberTree(digits) => Literal(NumberValue(digits))
    case ParenTree(_, inner, _) => Erase(inner)
    case NotTree(_, operand) => Not(Erase(operand))
    case BinaryTree(op, left, _, _, right) => Binary(op, Erase(left), Erase(right))
    case TernaryTree(cond, _, _, val, _, _, alt) => Conditional(Erase(cond), Erase(val), Erase(alt))
  }

  // ---------------------------------------------------------------------------
  // White space
  // ---------------------------------------------------------------------------

  /** Neither starts nor ends with white space. */
  predicate Trimmed(s: string) {
    s != "" ==> !IsSpace(s[0]) && !IsSpace(s[|s| - 1])
  }

  lemma {:induction false} TrimDropsSpaces(ws: string, s: string)
    requires Spaces(ws) && Trimmed(s)
    ensures Trim(ws + s) == s
  {
    if ws == "" {
      assert ws + s == s;
    } else {
      assert (ws + s)[1..] == ws[1..] + s;
      TrimDropsSpaces(ws[1..], s);
    }
  }

  lemma {:induction false} TrimEndDropsSpaces(s: string, ws: string)
    requires Spaces(ws) && Trimmed(s)
    ensures TrimEnd(s + ws) == s
  {
    if ws == "" {
      assert s + ws == s;
    } else {
      assert (s + ws)[..|s + ws| - 1] == s + ws[..|ws| - 1];
      TrimEndDropsSpaces(s, ws[..|ws| - 1]);
    }
  }

  lemma {:induction false} TrimBothSides(ws: string, s: string, ws': string)
    requires Spaces(ws) && Spaces(ws') && Trimmed(s) && s != ""
    ensures Trim(ws + s + ws') == s
  {
    if ws == "" {
      assert ws + s + ws' == s + ws';
      TrimEndDropsSpaces(s, ws');
    } else {
      assert (ws + s + ws')[1..] == ws[1..] + s + ws';
      TrimBothSides(ws[1..], s, ws');
    }
  }

  /** The first and the last character of a text; in particular it is trimmed. */
  lemma {:induction false} TextShape(t: Tree)
    requires WellFormed(t)
    ensures Text(t) != "" && Trimmed(Text(t))
    ensures Text(t)[0] in {'n', '(', '!'} || IsDigit(Text(t)[0])
    ensures Level(t) >= NEGATION && !t.NotTree? ==> Text(t)[0] != '!'
  {
    match t
    case NTree =>
    case NumberTree(digits) => assert IsDigit(digits[0]) && IsDigit(digits[|digits| - 1]);
    case ParenTree(_, _, _) =>
    case NotTree(_, operand) => TextShape(operand);
    case BinaryTree(op, left, wsl, wsr, right) =>
      TextShape(left);
      TextShape(right);
      BinaryEnds(Text(left), wsl, Symbol(op), wsr, Text(right));
    case TernaryTree(cond, wsc, wsq, val, wsv, wsa, alt) =>
      TextShape(cond);
      TextShape(alt);
      TernaryEnds(Text(cond), wsc, "?", wsq, Text(val), wsv, ":", wsa, Text(alt));
  }

  lemma BinaryEnds(l: string, wsl: string, symbol: string, wsr: string, r: string)
    requires l != "" && r != "" && Trimmed(l) && Trimmed(r)
    ensures var s := l + wsl + symbol + wsr + r; s != "" && Trimmed(s) && s[0] == l[0]
  {
  }

  lemma TernaryEnds(c: string, wsc: string, q: string, wsq: string, v: string, wsv: string, colon: string,
                    wsa: string, a: string)
    requires c != "" && a != "" && Trimmed(c) && Trimmed(a)
    ensures var s := c + wsc + q + wsq + v + wsv + colon + wsa + a; s != "" && Trimmed(s) && s[0] == c[0]
  {
  }

  // ---------------------------------------------------------------------------
  // What may follow an expression
  // ---------------------------------------------------------------------------

  /** The level of the operator that a character can begin; closing symbols are below all levels. */
  function SymbolLevel(c: char): int {
    if c in {'*', '/', '%'} then 6
    else if c in {'+', '-'} then 5
    else if c in {'<', '>'} then 4
    else if c in {'=', '!'} then 3
    else if c == '&' then 2
    else if c == '|' then 1
    else if c == '?' then 0
    else if c in {')', ':'} then -1
    else 8
  }

  /** `k` is empty or starts with a symbol below `level`, so an expression of that level ends here. */
  predicate Stops(level: nat, k: string) {
    Trimmed(k) && (k != "" ==> SymbolLevel(k[0]) < level)
  }

  predicate Gap(ws: string, k: string) {
    Spaces(ws) && (k == "" ==> ws == "")
  }

  lemma TrimmedAround(t: Tree, ws: string, k: string)
    requires WellFormed(t) && Gap(ws, k) && Trimmed(k)
    ensures Trimmed(Text(t) + ws + k) && Text(t) + ws + k != ""
    ensures (Text(t) + ws + k)[0] == Text(t)[0]
  {
    TextShape(t);
    if k == "" {
      assert Text(t) + ws + k == Text(t);
    } else {
      assert (Text(t) + ws + k)[|Text(t) + ws + k| - 1] == k[|k| - 1];
    }
  }

  // ---------------------------------------------------------------------------
  // Operators in front of a rest
  // ---------------------------------------------------------------------------

  lemma PatternHead(op: Op)
    ensures SymbolLevel(Pattern(op)[0]) == OpLevel(op)
    ensures !IsSpace(Pattern(op)[0])
  {
  }

  lemma OpsLevel(level: nat, i: nat)
    requires i < |Ops(level)|
    ensures OpLevel(Ops(level)[i]) == level
  {
  }

  lemma {:induction false} NothingReduces(level: nat, ops: seq<Op>, left: Function, k: string)
    requires DISJUNCTION <= level <= MULTIPLICATIVE && Stops(level, k)
    requires forall i :: 0 <= i < |ops| ==> OpLevel(ops[i]) == level
    ensures ReduceLtr(level, ops, left, k) == ParserResult(None, k)
  {
    if ops != [] {
      PatternHead(ops[0]);
      assert !(Pattern(ops[0]) <= k);
      NothingReduces(level, ops[1..], left, k);
    }
  }

  lemma ReduceAllStops(level: nat, left: Function, k: string)
    requires DISJUNCTION <= level <= MULTIPLICATIVE && Stops(level, k)
    ensures ReduceAll(level, left, k) == ParserResult(Some(left), k)
  {
    forall i | 0 <= i < |Ops(level)|
      ensures OpLevel(Ops(level)[i]) == level
    {
      OpsLevel(level, i);
    }
    NothingReduces(level, Ops(level), left, k);
  }

  /** The operators are tried in order, and the first whose pattern fits is taken. */
  lemma {:induction false} ReduceTakes(level: nat, ops: seq<Op>, j: nat, left: Function, str: string)
    requires DISJUNCTION <= level <= MULTIPLICATIVE && j < |ops|
    requires forall i :: 0 <= i < j ==> !(Pattern(ops[i]) <= str)
    requires ReduceSingle(level, ops[j], left, str).func.Some?
    ensures ReduceLtr(level, ops, left, str) == ReduceSingle(level, ops[j], left, str)
  {
    if j > 0 {
      assert !(Pattern(ops[0]) <= str);
      ReduceTakes(level, ops[1..], j - 1, left, str);
    }
  }

  /** No operator tried earlier fits a text of this operator: `<=` comes before `<`. */
  lemma OpPosition(op: Op, x: string) returns (j: nat)
    requires x != "" && x[0] != '='
    ensures j < |Ops(OpLevel(op))| && Ops(OpLevel(op))[j] == op
    ensures forall i :: 0 <= i < j ==> !(Pattern(Ops(OpLevel(op))[i]) <= Pattern(op) + x)
  {
    j := match op
      case Ne => 1 case Ge => 1 case Sub => 1 case Div => 1
      case Lt => 2 case Mod => 2
      case Gt => 3
      case _ => 0;
    if op == Lt {
      assert (Pattern(op) + x)[1] == x[0];
    } else if op == Gt {
      assert (Pattern(op) + x)[1] == x[0];
    }
  }

  // ---------------------------------------------------------------------------
  // The parser on texts of the grammar
  // ---------------------------------------------------------------------------

  lemma {:induction false} DigitsEnd(digits: string, rest: string)
    requires forall i :: 0 <= i < |digits| ==> IsDigit(digits[i])
    requires rest != "" ==> !IsDigit(rest[0])
    ensures DigitCount(digits + rest) == |digits|
  {
    if digits == "" {
      assert digits + rest == rest;
    } else {
      assert (digits + rest)[1..] == digits[1..] + rest;
      DigitsEnd(digits[1..], rest);
    }
  }

  lemma NegationOfAtom(s: string)
    requires s != "" && s[0] != '!' && s[0] != '('
    ensures ParseNegation(s) == ParseAtomic(s)
  {
  }

  lemma DigitStays(s: string)
    requires s != "" && IsDigit(s[0])
    ensures TrimStart(s) == s && s[0] != '-' && s[0] != '+'
  {
  }

  lemma StrtoulOf(s: string, n: nat, v: nat)
    requires s != "" && TrimStart(s) == s && s[0] != '-' && s[0] != '+'
    requires DigitCount(s) == n && n > 0 && Decimal(s[..n]) == v
    ensures Strtoul(s) == (Saturate(v), n)
  {
  }

  lemma NumberRead(digits: string, rest: string)
    requires digits != "" && forall i :: 0 <= i < |digits| ==> IsDigit(digits[i])
    requires rest != "" ==> !IsDigit(rest[0])
    ensures Strtoul(digits + rest) == (Saturate(Decimal(digits)), |digits|)
  {
    var s := digits + rest;
    assert s[0] == digits[0] && IsDigit(digits[0]);
    DigitsEnd(digits, rest);
    assert s[..|digits|] == digits;
    DigitStays(s);
    StrtoulOf(s, |digits|, Decimal(digits));
  }

  lemma AtomText(digits: string, ws: string, k: string)
    requires digits != "" && AllDigits(digits) && Gap(ws, k) && Stops(NEGATION, k)
    ensures ParseNegation(digits + ws + k) == ParserResult(Some(Constant(NumberValue(digits))), k)
  {
    SaturateIsValue(digits);
    var rest := ws + k;
    var s := digits + rest;
    assert digits + ws + k == s;
    assert s[0] == digits[0] && IsDigit(digits[0]);
    NumberRead(digits, rest);
    NegationOfAtom(s);
    assert s[|digits|..] == rest;
    TrimDropsSpaces(ws, k);
  }

  lemma VariableText(ws: string, k: string)
    requires Gap(ws, k) && Stops(NEGATION, k)
    ensures ParseNegation("n" + ws + k) == ParserResult(Some(Identity()), k)
  {
    var s := "n" + ws + k;
    assert s[0] == 'n' && s[1..] == ws + k;
    TrimDropsSpaces(ws, k);
  }

  lemma NegationStep(s: string, f: Function, k: string)
    requires s != "" && s[0] == '!' && ParseNegation(Trim(s[1..])) == ParserResult(Some(f), k)
    ensures ParseNegation(s) == ParserResult(Some(WrapNot(f)), k)
  {
  }

  lemma ParenthesesStep(s: string, f: Function, close: string)
    requires s != "" && s[0] == '(' && ParseTernary(Trim(s[1..])) == ParserResult(Some(f), close)
    requires close != "" && close[0] == ')'
    ensures ParseNegation(s) == ParserResult(Some(f), Trim(close[1..]))
  {
    assert ParseExpr(s[1..]) == ParserResult(Some(f), close);
    assert ParseParenthesized(s) == ParserResult(Some(f), Trim(close[1..]));
  }

  lemma NotShape(t: Tree, ws: string, k: string) returns (inner: string)
    requires WellFormed(t) && t.NotTree? && Gap(ws, k) && Trimmed(k)
    ensures inner == Text(t.operand) + ws + k
    ensures var s := Text(t) + ws + k; s != "" && s[0] == '!' && Trim(s[1..]) == inner
  {
    inner := Text(t.operand) + ws + k;
    assert (Text(t) + ws + k)[1..] == t.ws + inner;
    TrimmedAround(t.operand, ws, k);
    TrimDropsSpaces(t.ws, inner);
  }

  lemma ParenShape(t: Tree, ws: string, k: string) returns (close: string, body: string)
    requires WellFormed(t) && t.ParenTree? && Gap(ws, k) && Trimmed(k)
    ensures close != "" && close[0] == ')' && Trim(close[1..]) == k && Stops(0, close)
    ensures body == Text(t.inner) + t.ws2 + close
    ensures var s := Text(t) + ws + k; s != "" && s[0] == '(' && Trim(s[1..]) == body
  {
    close := ")" + ws + k;
    body := Text(t.inner) + t.ws2 + close;
    assert (Text(t) + ws + k)[1..] == t.ws1 + body;
    CloseTrimmed(ws, k);
    TrimmedAround(t.inner, t.ws2, close);
    TrimDropsSpaces(t.ws1, body);
    assert close[1..] == ws + k;
    TrimDropsSpaces(ws, k);
  }

  lemma {:induction false} NegationText(t: Tree, ws: string, k: string)
    requires WellFormed(t) && Level(t) >= NEGATION && Gap(ws, k) && Stops(NEGATION, k)
    ensures ParseNegation(Text(t) + ws + k) == ParserResult(Some(Denote(Erase(t))), k)
    decreases t, 0
  {
    match t
    case NTree => VariableText(ws, k);
    case NumberTree(digits) => AtomText(digits, ws, k);
    case NotTree(_, operand) =>
      var inner := NotShape(t, ws, k);
      NegationText(operand, ws, k);
      NegationStep(Text(t) + ws + k, Denote(Erase(operand)), k);
    case ParenTree(_, inner, ws2) =>
      var close, body := ParenShape(t, ws, k);
      TernaryText(inner, ws2, close);
      ParenthesesStep(Text(t) + ws + k, Denote(Erase(inner)), close);
  }

  lemma CloseTrimmed(ws: string, k: string)
    requires Gap(ws, k) && Trimmed(k)
    ensures Stops(0, ")" + ws + k)
  {
    var close := ")" + ws + k;
    if k == "" {
      assert close == ")";
    } else {
      assert close[|close| - 1] == k[|k| - 1];
    }
  }

  lemma {:induction false} OperandText(level: nat, t: Tree, ws: string, k: string)
    requires DISJUNCTION <= level <= MULTIPLICATIVE
    requires WellFormed(t) && Level(t) > level && Gap(ws, k) && Stops(level + 1, k)
    ensures ParseOperand(level, Text(t) + ws + k) == ParserResult(Some(Denote(Erase(t))), k)
    decreases t, 20 - 2 * level
  {
    if level == MULTIPLICATIVE {
      NegationText(t, ws, k);
    } else {
      LtrText(level + 1, t, ws, k);
      ReduceAllStops(level + 1, Denote(Erase(t)), k);
    }
  }

  /** A level reads a tree of its own as an operand and a run of operators, folded to the left. */
  lemma {:induction false} LtrText(level: nat, t: Tree, ws: string, k: string)
    requires DISJUNCTION <= level <= MULTIPLICATIVE
    requires WellFormed(t) && Level(t) >= level && Gap(ws, k) && Stops(level + 1, k)
    ensures ParseLtr(level, Text(t) + ws + k) == ReduceAll(level, Denote(Erase(t)), k)
    decreases t, 21 - 2 * level
  {
    if Level(t) > level {
      OperandText(level, t, ws, k);
      TrimDropsSpaces("", k);
      assert "" + k == k;
    } else {
      assert t.BinaryTree?;
      BinaryText(level, t, ws, k);
    }
  }

  lemma ReduceStep(level: nat, left: Function, str: string, f: Function, k: string)
    requires DISJUNCTION <= level <= MULTIPLICATIVE && str != ""
    requires ReduceLtr(level, Ops(level), left, str) == ParserResult(Some(f), k)
    ensures ReduceAll(level, left, str) == ReduceAll(level, f, Trim(k))
  {
  }

  lemma Regroup(a: string, b: string, c: string, d: string, e: string, f: string, g: string)
    ensures a + b + c + d + e + f + g == a + b + (c + (d + (e + f + g)))
  {
  }

  lemma GapBefore(gap: string, rest: string)
    requires Spaces(gap) && Trimmed(rest) && rest != "" && rest[0] != '='
    ensures var x := gap + rest; x[0] != '=' && !IsSpace(x[|x| - 1]) && Trim(x) == rest
  {
    TrimDropsSpaces(gap, rest);
    assert (gap + rest)[0] == if gap == "" then rest[0] else gap[0];
  }

  lemma SymbolBefore(symbol: string, x: string)
    requires symbol != "" && !IsSpace(symbol[0]) && x != "" && !IsSpace(x[|x| - 1])
    ensures Trimmed(symbol + x) && (symbol + x)[0] == symbol[0] && (symbol + x)[|symbol|..] == x
  {
  }

  /** A symbol, a gap and an expression make a text that is trimmed. */
  lemma AfterSymbol(symbol: string, gap: string, t: Tree, ws: string, k: string) returns (x: string)
    requires symbol != "" && !IsSpace(symbol[0]) && Spaces(gap) && WellFormed(t) && Gap(ws, k) && Trimmed(k)
    ensures x == gap + (Text(t) + ws + k) && x != "" && x[0] != '=' && Trim(x) == Text(t) + ws + k
    ensures Trimmed(symbol + x) && (symbol + x)[0] == symbol[0] && (symbol + x)[|symbol|..] == x
  {
    x := gap + (Text(t) + ws + k);
    TextShape(t);
    TrimmedAround(t, ws, k);
    GapBefore(gap, Text(t) + ws + k);
    SymbolBefore(symbol, x);
  }

  lemma OneReduction(level: nat, op: Op, left: Function, x: string, right: Function, k: string)
    requires DISJUNCTION <= level <= MULTIPLICATIVE && OpLevel(op) == level && x != "" && x[0] != '=' && Trimmed(k)
    requires ParseOperand(level, Trim(x)) == ParserResult(Some(right), k)
    ensures ReduceAll(level, left, Pattern(op) + x) == ReduceAll(level, WrapOp(op, left, right), k)
  {
    var str := Pattern(op) + x;
    var j := OpPosition(op, x);
    assert str[|Pattern(op)|..] == x;
    TrimTrimmed(k);
    ReduceTakes(level, Ops(level), j, left, str);
    ReduceStep(level, left, str, WrapOp(op, left, right), k);
  }

  lemma TrimTrimmed(k: string)
    requires Trimmed(k)
    ensures Trim(k) == k
  {
  }

  lemma {:induction false} BinaryText(level: nat, t: Tree, ws: string, k: string)
    requires DISJUNCTION <= level <= MULTIPLICATIVE
    requires WellFormed(t) && t.BinaryTree? && OpLevel(t.op) == level && Gap(ws, k) && Stops(level + 1, k)
    ensures ParseLtr(level, Text(t) + ws + k) == ReduceAll(level, Denote(Erase(t)), k)
    decreases t, 0
  {
    var pattern := Pattern(t.op);
    PatternHead(t.op);
    var x := AfterSymbol(pattern, t.wsr, t.right, ws, k);
    Regroup(Text(t.left), t.wsl, pattern, t.wsr, Text(t.right), ws, k);
    LtrText(level, t.left, t.wsl, pattern + x);
    OperandText(level, t.right, ws, k);
    OneReduction(level, t.op, Denote(Erase(t.left)), x, Denote(Erase(t.right)), k);
  }

  /** `k` is the symbol followed by `next`, and maybe spaces in between. */
  predicate Follows(k: string, symbol: char, next: string) {
    k != "" && k[0] == symbol && Trimmed(k) && Trim(k[1..]) == next
  }

  lemma FollowsStops(k: string, symbol: char, next: string)
    requires Follows(k, symbol, next)
    ensures symbol == '?' ==> Stops(DISJUNCTION, k)
    ensures symbol == ':' ==> Stops(0, k)
    ensures forall ws :: Spaces(ws) ==> Gap(ws, k)
  {
  }

  lemma TernaryStep(s: string, c: Function, k1: string, s1: string, v: Function, k2: string, s2: string, a: Function,
                    k: string)
    requires ParseLtr(DISJUNCTION, s) == ParserResult(Some(c), k1) && Follows(k1, '?', s1)
    requires ParseTernary(s1) == ParserResult(Some(v), k2) && Follows(k2, ':', s2)
    requires ParseTernary(s2) == ParserResult(Some(a), k)
    ensures ParseTernary(s) == ParserResult(Some(Ternary(Some(c), Some(v), Some(a))), k)
  {
  }

  lemma NoTernary(s: string, f: Function, k: string)
    requires ParseLtr(DISJUNCTION, s) == ParserResult(Some(f), k) && Stops(0, k)
    ensures ParseTernary(s) == ParserResult(Some(f), k)
  {
  }

  lemma TernaryShape(t: Tree, ws: string, k: string) returns (k1: string, k2: string)
    requires WellFormed(t) && t.TernaryTree? && Gap(ws, k) && Trimmed(k)
    ensures Follows(k1, '?', Text(t.val) + t.wsv + k2) && Follows(k2, ':', Text(t.alt) + ws + k)
    ensures Text(t) + ws + k == Text(t.cond) + t.wsc + k1
  {
    var x2 := AfterSymbol(":", t.wsa, t.alt, ws, k);
    k2 := ":" + x2;
    var x1 := AfterSymbol("?", t.wsq, t.val, t.wsv, k2);
    k1 := "?" + x1;
    var head := Text(t.cond) + t.wsc + "?" + t.wsq + Text(t.val);
    Regroup(head, t.wsv, ":", t.wsa, Text(t.alt), ws, k);
    Regroup(Text(t.cond), t.wsc, "?", t.wsq, Text(t.val), t.wsv, k2);
  }

  lemma {:induction false} DisjunctionText(t: Tree, ws: string, k: string)
    requires WellFormed(t) && Level(t) > 0 && Gap(ws, k) && Stops(DISJUNCTION, k)
    ensures ParseLtr(DISJUNCTION, Text(t) + ws + k) == ParserResult(Some(Denote(Erase(t))), k)
    decreases t, 25
  {
    LtrText(DISJUNCTION, t, ws, k);
    ReduceAllStops(DISJUNCTION, Denote(Erase(t)), k);
  }

  lemma {:induction false} TernaryText(t: Tree, ws: string, k: string)
    requires WellFormed(t) && Gap(ws, k) && Stops(0, k)
    ensures ParseTernary(Text(t) + ws + k) == ParserResult(Some(Denote(Erase(t))), k)
    decreases t, 30
  {
    if t.TernaryTree? {
      ConditionalText(t, ws, k);
    } else {
      DisjunctionText(t, ws, k);
      NoTernary(Text(t) + ws + k, Denote(Erase(t)), k);
    }
  }

  lemma {:induction false} ConditionalText(t: Tree, ws: string, k: string)
    requires WellFormed(t) && t.TernaryTree? && Gap(ws, k) && Stops(0, k)
    ensures ParseTernary(Text(t) + ws + k) == ParserResult(Some(Denote(Erase(t))), k)
    decreases t, 29
  {
    var k1, k2 := TernaryShape(t, ws, k);
    ConditionalParts(t, t.cond, t.wsc, k1, Text(t.val) + t.wsv + k2, t.val, t.wsv, k2, Text(t.alt) + ws + k, t.alt,
                     ws, k);
  }

  lemma {:induction false} ConditionalParts(whole: Tree, c: Tree, wsc: string, k1: string, s1: string, v: Tree,
                                            wsv: string, k2: string, s2: string, a: Tree, ws: string, k: string)
    requires c < whole && v < whole && a < whole
    requires WellFormed(c) && WellFormed(v) && WellFormed(a) && Level(c) > 0
    requires Spaces(wsc) && Spaces(wsv) && Gap(ws, k) && Stops(0, k)
    requires Follows(k1, '?', s1) && s1 == Text(v) + wsv + k2
    requires Follows(k2, ':', s2) && s2 == Text(a) + ws + k
    ensures ParseTernary(Text(c) + wsc + k1) ==
            ParserResult(Some(Ternary(Some(Denote(Erase(c))), Some(Denote(Erase(v))), Some(Denote(Erase(a))))), k)
    decreases whole, 28
  {
    FollowsStops(k1, '?', s1);
    FollowsStops(k2, ':', s2);
    DisjunctionText(c, wsc, k1);
    TernaryText(v, wsv, k2);
    TernaryText(a, ws, k);
    TernaryStep(Text(c) + wsc + k1, Denote(Erase(c)), k1, s1, Denote(Erase(v)), k2, s2, Denote(Erase(a)), k);
  }

  // ---------------------------------------------------------------------------
  // Main results
  // ---------------------------------------------------------------------------

  /** Every text of the grammar is accepted and compiled to its meaning in C. */
  lemma ParseIsCorrect(t: Tree, ws: string, ws': string)
    requires WellFormed(t) && Spaces(ws) && Spaces(ws')
    ensures Parse(ws + Text(t) + ws') == Some(Denote(Erase(t)))
    ensures forall n: Num :: Parse(ws + Text(t) + ws').value(n) == Some(Eval(Erase(t), n))
  {
    TextShape(t);
    TrimBothSides(ws, Text(t), ws');
    assert Text(t) + "" + "" == Text(t);
    TernaryText(t, "", "");
    forall n: Num
      ensures Denote(Erase(t))(n) == Some(Eval(Erase(t), n))
    {
      DenoteIsEval(Erase(t), n);
    }
  }

  /** The grammar is unambiguous as far as meaning goes. */
  lemma TextDeterminesMeaning(t: Tree, u: Tree, n: Num)
    requires WellFormed(t) && WellFormed(u) && Text(t) == Text(u)
    ensures Eval(Erase(t), n) == Eval(Erase(u), n)
  {
    ParseIsCorrect(t, "", "");
    ParseIsCorrect(u, "", "");
  }

  // ---------------------------------------------------------------------------
  // Printing with the parentheses that precedence needs
  // ---------------------------------------------------------------------------

  function Digits(v: nat): (s: string)
    ensures s != "" && AllDigits(s) && PlaceValue(s) == v
  {
    var last := ['0' + (v % 10) as char];
    if v < 10 then last
    else
      PlaceValueSnoc(Digits(v / 10), last[0]);
      Digits(v / 10) + last
  }

  /** A tree of at least the given level: parenthesized only if the tree at hand is looser. */
  function AtLevel(level: nat, t: Tree): (r: Tree)
    requires WellFormed(t) && level <= NEGATION
    ensures WellFormed(r) && Level(r) >= level && Erase(r) == Erase(t)
  {
    if Level(t) >= level then t else ParenTree("", t, "")
  }

  function Print(e: Expr): (t: Tree)
    ensures WellFormed(t) && Erase(t) == e
  {
    match e
    case Variable => NTree
    case Literal(v) => NumberTree(Digits(v))
    case Not(a) => NotTree("", AtLevel(NEGATION, Print(a)))
    case Binary(op, a, b) =>
      BinaryTree(op, AtLevel(OpLevel(op), Print(a)), " ", " ", AtLevel(OpLevel(op) + 1, Print(b)))
    case Conditional(c, a, b) => TernaryTree(AtLevel(1, Print(c)), " ", " ", Print(a), " ", " ", Print(b))
  }

  /** Every expression has a text, and parsing that text gives back its meaning. */
  lemma PrintParses(e: Expr, n: Num)
    ensures Parse(Text(Print(e))).Some?
    ensures Parse(Text(Print(e))).value(n) == Some(Eval(e, n))
  {
    var t := Print(e);
    ParseIsCorrect(t, "", "");
    assert "" + Text(t) + "" == Text(t);
  }

  /**
    Outside the grammar there is a surprise: a conditional without its
    alternative is accepted, and calling the result raises an exception exactly
    for the numbers that would need the alternative.
   */
  lemma MissingAlternative(c: Tree, wsc: string, wsq: string, v: Tree, wsv: string, n: Num)
    requires WellFormed(c) && Level(c) > 0 && WellFormed(v) && Spaces(wsc) && Spaces(wsq) && Spaces(wsv)
    ensures var f := Parse(Text(c) + wsc + ("?" + (wsq + (Text(v) + wsv + ":"))));
            f.Some? && f.value(n) == if Eval(Erase(c), n) != 0 then Some(Eval(Erase(v), n)) else None
  {
    var k2 := ":";
    var x := AfterSymbol("?", wsq, v, wsv, k2);
    var k1 := "?" + x;
    MissingParts(c, wsc, k1, Text(v) + wsv + k2, v, wsv, k2);
    DenoteIsEval(Erase(c), n);
    DenoteIsEval(Erase(v), n);
  }

  lemma MissingParts(c: Tree, wsc: string, k1: string, s1: string, v: Tree, wsv: string, k2: string)
    requires WellFormed(c) && WellFormed(v) && Level(c) > 0 && Spaces(wsc) && Spaces(wsv)
    requires Follows(k1, '?', s1) && s1 == Text(v) + wsv + k2 && Follows(k2, ':', "")
    ensures Parse(Text(c) + wsc + k1) == Some(Ternary(Some(Denote(Erase(c))), Some(Denote(Erase(v))), None))
  {
    FollowsStops(k1, '?', s1);
    FollowsStops(k2, ':', "");
    TrimmedAround(c, wsc, k1);
    TrimTrimmed(Text(c) + wsc + k1);
    DisjunctionText(c, wsc, k1);
    TernaryText(v, wsv, k2);
    MissingStep(Text(c) + wsc + k1, Denote(Erase(c)), k1, s1, Denote(Erase(v)), k2);
  }

  lemma MissingStep(s: string, c: Function, k1: string, s1: string, v: Function, k2: string)
    requires Trim(s) == s && ParseLtr(DISJUNCTION, s) == ParserResult(Some(c), k1) && Follows(k1, '?', s1)
    requires ParseTernary(s1) == ParserResult(Some(v), k2) && Follows(k2, ':', "")
    ensures Parse(s) == Some(Ternary(Some(c), Some(v), None))
  {
    EmptyTernary();
    assert ParseTernary(s) == ParserResult(Some(Ternary(Some(c), Some(v), None)), "");
  }

  lemma EmptyTernary()
    ensures ParseTernary("") == ParserResult(None, "")
  {
    assert ParseNegation("") == ParserResult(None, "");
    EmptyLevel(DISJUNCTION);
  }

  lemma {:induction false} EmptyLevel(level: nat)
    requires DISJUNCTION <= level <= MULTIPLICATIVE
    ensures ParseLtr(level, "") == ParserResult(None, "")
    decreases 10 - level
  {
    if level < MULTIPLICATIVE {
      EmptyLevel(level + 1);
    }
  }
}
