/**
  The compiler for gettext plural formulas: a recursive descent parser that
  turns a subset of C expressions (section 6.5 of ISO/IEC 9899) directly into
  functions of the plural number.
 */
module PluralForm {
  import opened Options

  /** `unsigned long` with 64 bits. */
  const MODULUS: int := 0x1_0000_0000_0000_0000
  type Num = x: int | 0 <= x < 0x1_0000_0000_0000_0000

  /** A compiled formula; `None` is the exception raised by calling an empty function object. */
  type Function = Num -> Option<Num>

  // ---------------------------------------------------------------------------
  // Operators
  // ---------------------------------------------------------------------------

  datatype Op = Mul | Div | Mod | Add | Sub | Le | Ge | Lt | Gt | Eq | Ne | And | Or

  function Bool(b: bool): Num {
    if b then 1 else 0
  }

  /** The functor of an operator; both operands have been evaluated already. */
  function Apply(op: Op, a: Num, b: Num): Num {
    match op
    case Mul => a * b % MODULUS
    case Div => if b == 0 then 0 else a / b
    case Mod => if b == 0 then 0 else a % b
    case Add => (a + b) % MODULUS
    case Sub => (a - b) % MODULUS
    case Le => Bool(a <= b)
    case Ge => Bool(a >= b)
    case Lt => Bool(a < b)
    case Gt => Bool(a > b)
    case Eq => Bool(a == b)
    case Ne => Bool(a != b)
    case And => Bool(a != 0 && b != 0)
    case Or => Bool(a != 0 || b != 0)
  }

  function Pattern(op: Op): (p: string)
    ensures |p| > 0
  {
    match op
    case Mul => "*"
    case Div => "/"
    case Mod => "%"
    case Add => "+"
    case Sub => "-"
    case Le => "<="
    case Ge => ">="
    case Lt => "<"
    case Gt => ">"
    case Eq => "=="
    case Ne => "!="
    case And => "&&"
    case Or => "||"
  }

  /** The levels of binary operators, loosest first, and the order in which their patterns are tried. */
  const DISJUNCTION: nat := 1
  const MULTIPLICATIVE: nat := 6
  const NEGATION: nat := 7

  function Ops(level: nat): seq<Op> {
    match level
    case 1 => [Or]
    case 2 => [And]
    case 3 => [Eq, Ne]
    case 4 => [Le, Ge, Lt, Gt]
    case 5 => [Add, Sub]
    case 6 => [Mul, Div, Mod]
    case _ => []
  }

  // ---------------------------------------------------------------------------
  // Characters
  // ---------------------------------------------------------------------------

  predicate IsSpace(c: char) {
    c in {' ', '\t', '\n', '\r', 11 as char, 12 as char}
  }

  predicate IsDigit(c: char) {
    '0' <= c <= '9'
  }

  function TrimStart(s: string): (r: string)
    ensures |r| <= |s|
  {
    if s != "" && IsSpace(s[0]) then TrimStart(s[1..]) else s
  }

  function TrimEnd(s: string): (r: string)
    ensures |r| <= |s|
  {
    if s != "" && IsSpace(s[|s| - 1]) then TrimEnd(s[..|s| - 1]) else s
  }

  function Trim(s: string): (r: string)
    ensures |r| <= |s|
  {
    TrimEnd(TrimStart(s))
  }

  /** The longest prefix of digits. */
  function DigitCount(s: string): (n: nat)
    ensures n <= |s|
    ensures forall i :: 0 <= i < n ==> IsDigit(s[i])
    ensures n < |s| ==> !IsDigit(s[n])
  {
    if s == "" || !IsDigit(s[0]) then 0 else 1 + DigitCount(s[1..])
  }

  function Decimal(digits: string): nat
    requires forall i :: 0 <= i < |digits| ==> IsDigit(digits[i])
  {
    if digits == "" then 0
    else
      assert IsDigit(digits[|digits| - 1]);
      10 * Decimal(digits[..|digits| - 1]) + (digits[|digits| - 1] as int - '0' as int)
  }

  function Saturate(v: nat): Num {
    if v < MODULUS then v else MODULUS - 1
  }

  /** The C library conversion: value read and number of characters used, 0 if there is no number. */
  function Strtoul(s: string): (r: (Num, nat))
    ensures r.1 <= |s|
  {
    var body := TrimStart(s);
    var signed := body != "" && (body[0] == '-' || body[0] == '+');
    var number := if signed then body[1..] else body;
    var n := DigitCount(number);
    if n == 0 then (0, 0)
    else
      var v := Decimal(number[..n]);
      var value: Num :=
        if signed && body[0] == '-' && 0 < v < MODULUS then MODULUS - v else Saturate(v);
      (value, |s| - |number| + n)
  }

  // ---------------------------------------------------------------------------
  // Compiled functions
  // ---------------------------------------------------------------------------

  function Identity(): Function {
    n => Some(n)
  }

  function Constant(v: Num): Function {
    n => Some(v)
  }

  function WrapNot(f: Function): Function {
    n => match f(n) case Some(v) => Some(Bool(v == 0)) case None => None
  }

  function WrapOp(op: Op, f: Function, g: Function): Function {
    n => match (f(n), g(n)) case (Some(a), Some(b)) => Some(Apply(op, a, b)) case _ => None
  }

  function Call(f: Option<Function>, n: Num): Option<Num> {
    match f case Some(g) => g(n) case None => None
  }

  /** The parser does not look whether the pieces are there; the call finds out. */
  function Ternary(cond: Option<Function>, val: Option<Function>, alt: Option<Function>): Function {
    n => match Call(cond, n)
         case Some(v) => if v != 0 then Call(val, n) else Call(alt, n)
         case None => None
  }

  // ---------------------------------------------------------------------------
  // The parser
  // ---------------------------------------------------------------------------

  datatype ParserResult = ParserResult(func: Option<Function>, rest: string)

  function ParseAtomic(str: string): (r: ParserResult)
    ensures |r.rest| <= |str|
  {
    if str == "" then ParserResult(None, str)
    else if str[0] == 'n' then ParserResult(Some(Identity()), Trim(str[1..]))
    else
      var (value, used) := Strtoul(str);
      ParserResult(Some(Constant(value)), Trim(str[used..]))
  }

  function ParseParenthesized(str: string): (r: ParserResult)
    ensures |r.rest| <= |str|
    decreases |str|, 2
  {
    if str == "" then ParserResult(None, str)
    else if str[0] != '(' then ParseAtomic(str)
    else
      var result := ParseExpr(str[1..]);
      if result.func.None? then result
      else if result.rest == "" || result.rest[0] != ')' then ParserResult(None, result.rest)
      else result.(rest := Trim(result.rest[1..]))
  }

  function ParseNegation(str: string): (r: ParserResult)
    ensures |r.rest| <= |str|
    decreases |str|, 3
  {
    if str == "" then ParserResult(None, str)
    else if str[0] != '!' then ParseParenthesized(str)
    else
      var result := ParseNegation(Trim(str[1..]));
      if result.func.None? then result else result.(func := Some(WrapNot(result.func.value)))
  }

  /** The operands of the operators of a level are the expressions of the next. */
  function ParseOperand(level: nat, str: string): (r: ParserResult)
    requires DISJUNCTION <= level <= MULTIPLICATIVE
    ensures |r.rest| <= |str|
    decreases |str|, 4 * (10 - level)
  {
    if level == MULTIPLICATIVE then ParseNegation(str) else ParseLtr(level + 1, str)
  }

  /** Tries one operator on what follows the left operand. */
  function ReduceSingle(level: nat, op: Op, left: Function, str: string): (r: ParserResult)
    requires DISJUNCTION <= level <= MULTIPLICATIVE
    ensures |r.rest| <= |str|
    ensures r.func.Some? ==> |r.rest| < |str|
    decreases |str|, 0
  {
    var pattern := Pattern(op);
    if !(pattern <= str) then ParserResult(None, str)
    else
      var next := ParseOperand(level, Trim(str[|pattern|..]));
      if next.func.None? then next
      else ParserResult(Some(WrapOp(op, left, next.func.value)), Trim(next.rest))
  }

  function ReduceLtr(level: nat, ops: seq<Op>, left: Function, str: string): (r: ParserResult)
    requires DISJUNCTION <= level <= MULTIPLICATIVE
    ensures |r.rest| <= |str|
    ensures r.func.Some? ==> |r.rest| < |str|
    decreases |str|, 1, |ops|
  {
    if ops == [] then ParserResult(None, str)
    else
      var next := ReduceSingle(level, ops[0], left, str);
      if next.func.Some? || next.rest != str then next else ReduceLtr(level, ops[1..], left, str)
  }

  /** Folds operators of one level to the left as long as one follows. */
  function ReduceAll(level: nat, left: Function, str: string): (r: ParserResult)
    requires DISJUNCTION <= level <= MULTIPLICATIVE
    ensures |r.rest| <= |str|
    decreases |str|, 2
  {
    if str == "" then ParserResult(Some(left), str)
    else
      var next := ReduceLtr(level, Ops(level), left, str);
      if next.func.None? then ParserResult(Some(left), str)
      else ReduceAll(level, next.func.value, Trim(next.rest))
  }

  function ParseLtr(level: nat, str: string): (r: ParserResult)
    requires DISJUNCTION <= level <= MULTIPLICATIVE
    ensures |r.rest| <= |str|
    decreases |str|, 4 * (10 - level) + 1
  {
    var first := ParseOperand(level, str);
    if first.func.None? then first else ReduceAll(level, first.func.value, Trim(first.rest))
  }

  function ParseTernary(str: string): (r: ParserResult)
    ensures |r.rest| <= |str|
    decreases |str|, 50
  {
    var cond := ParseLtr(DISJUNCTION, str);
    if cond.rest == "" || cond.rest[0] != '?' then cond
    else
      var val := ParseTernary(Trim(cond.rest[1..]));
      if val.rest == "" || val.rest[0] != ':' then ParserResult(None, val.rest)
      else
        var alt := ParseTernary(Trim(val.rest[1..]));
        ParserResult(Some(Ternary(cond.func, val.func, alt.func)), alt.rest)
  }

  function ParseExpr(str: string): (r: ParserResult)
    ensures |r.rest| <= |str|
    decreases |str|, 51
  {
    ParseTernary(Trim(str))
  }

  function Parse(str: string): Option<Function> {
    var result := ParseExpr(str);
    if result.rest != "" then None else result.func
  }

  /** The loop by which the program parses a level: it reduces in place until nothing reduces. */
  method ParseLtrLoop(level: nat, str: string) returns (pres: ParserResult)
    requires DISJUNCTION <= level <= MULTIPLICATIVE
    ensures pres == ParseLtr(level, str)
  {
    pres := ParseOperand(level, str);
    if pres.func.None? {
      return;
    }
    pres := pres.(rest := Trim(pres.rest));
    while pres.rest != ""
      invariant pres.func.Some?
      invariant ParseLtr(level, str) == ReduceAll(level, pres.func.value, pres.rest)
      decreases |pres.rest|
    {
      var next := ReduceLtr(level, Ops(level), pres.func.value, pres.rest);
      if next.func.None? {
        return;
      }
      pres := next.(rest := Trim(next.rest));
    }
  }
}
