/** What a parser of plural formulas leaves unread is the end of its input. */
module PluralRest {
  import opened PluralForm

  /** No blanks at the end, as trimming leaves a string. */
  predicate EndsClean(s: string) {
    s != "" ==> !IsSpace(s[|s| - 1])
  }

  predicate EndOf(r: string, s: string) {
    |r| <= |s| && s[|s| - |r|..] == r
  }

  lemma EndOfEnd(a: string, b: string, c: string)
    requires EndOf(a, b) && EndOf(b, c)
    ensures EndOf(a, c)
  {
    assert c[|c| - |a|..] == b[|b| - |a|..];
  }

  /** The end of a clean string is clean, and trimming it takes nothing from its end. */
  lemma {:induction false} TrimmedEnd(r: string, s: string)
    requires EndOf(r, s) && EndsClean(s)
    ensures EndsClean(r) && EndsClean(Trim(r)) && EndOf(Trim(r), s)
    decreases |r|
  {
    if r != "" {
      assert r[|r| - 1] == s[|s| - 1];
      if IsSpace(r[0]) {
        assert EndOf(r[1..], r);
        EndOfEnd(r[1..], r, s);
        TrimmedEnd(r[1..], s);
      }
    }
  }

  lemma Shorter(r: string, s: string, n: nat)
    requires EndOf(r, s) && n <= |r|
    ensures EndOf(r[n..], s)
  {
    assert EndOf(r[n..], r);
    EndOfEnd(r[n..], r, s);
  }

  lemma TrimmedRest(r: string, s: string, n: nat)
    requires EndOf(r, s) && EndsClean(s) && n <= |r|
    ensures EndOf(Trim(r[n..]), s) && EndsClean(Trim(r[n..]))
  {
    Shorter(r, s, n);
    TrimmedEnd(r[n..], s);
  }

  /** What was left of a trimmed part is left of the whole, even after trimming again. */
  lemma LeftOfPart(rest: string, part: string, str: string)
    requires EndOf(rest, part) && EndOf(part, str) && EndsClean(str)
    ensures EndOf(rest, str) && EndOf(Trim(rest), str) && EndsClean(Trim(rest))
    ensures rest != "" ==> EndOf(Trim(rest[1..]), str) && EndsClean(Trim(rest[1..]))
  {
    EndOfEnd(rest, part, str);
    TrimmedEnd(rest, str);
    if rest != "" {
      TrimmedRest(rest, str, 1);
    }
  }

  lemma Whole(str: string)
    ensures EndOf(str, str)
  {
  }

  lemma AtomicRest(str: string)
    requires EndsClean(str)
    ensures EndOf(ParseAtomic(str).rest, str)
  {
    Whole(str);
    if str == "" {
    } else if str[0] == 'n' {
      TrimmedRest(str, str, 1);
    } else {
      TrimmedRest(str, str, Strtoul(str).1);
    }
  }

  /** What is left behind a closing parenthesis, or where one is missing. */
  lemma ClosedRest(str: string)
    requires str != "" && str[0] == '('
    ensures var inner := ParseExpr(str[1..]).rest;
            var rest := ParseParenthesized(str).rest;
            rest == inner || (inner != "" && rest == Trim(inner[1..]))
  {
  }

  lemma {:induction false} InnerRest(str: string)
    requires EndsClean(str) && str != ""
    ensures var inner := ParseExpr(str[1..]).rest; EndOf(inner, str) && (inner != "" ==> EndOf(Trim(inner[1..]), str))
    decreases |str|, 1
  {
    Whole(str);
    TrimmedRest(str, str, 1);
    TernaryRest(Trim(str[1..]));
    LeftOfPart(ParseTernary(Trim(str[1..])).rest, Trim(str[1..]), str);
  }

  lemma {:induction false} ParenthesizedRest(str: string)
    requires EndsClean(str)
    ensures EndOf(ParseParenthesized(str).rest, str)
    decreases |str|, 2
  {
    if str == "" {
      Whole(str);
    } else if str[0] != '(' {
      AtomicRest(str);
    } else {
      ClosedRest(str);
      InnerRest(str);
    }
  }

  lemma {:induction false} NegationRest(str: string)
    requires EndsClean(str)
    ensures EndOf(ParseNegation(str).rest, str)
    decreases |str|, 3
  {
    Whole(str);
    if str == "" {
    } else if str[0] != '!' {
      ParenthesizedRest(str);
    } else {
      TrimmedRest(str, str, 1);
      NegationRest(Trim(str[1..]));
      LeftOfPart(ParseNegation(Trim(str[1..])).rest, Trim(str[1..]), str);
    }
  }

  lemma {:induction false} OperandRest(level: nat, str: string)
    requires DISJUNCTION <= level <= MULTIPLICATIVE && EndsClean(str)
    ensures EndOf(ParseOperand(level, str).rest, str)
    decreases |str|, 4 * (10 - level)
  {
    if level == MULTIPLICATIVE {
      NegationRest(str);
    } else {
      LtrRest(level + 1, str);
    }
  }

  /** What an operator leaves: everything where it is not there, else what its operand leaves. */
  lemma SingleForms(level: nat, op: Op, left: Function, str: string, operand: string)
    requires DISJUNCTION <= level <= MULTIPLICATIVE
    requires Pattern(op) <= str && operand == Trim(str[|Pattern(op)|..])
    ensures ReduceSingle(level, op, left, str).rest in
            {ParseOperand(level, operand).rest, Trim(ParseOperand(level, operand).rest)}
  {
  }

  lemma {:induction false} SingleRest(level: nat, op: Op, left: Function, str: string)
    requires DISJUNCTION <= level <= MULTIPLICATIVE && EndsClean(str)
    ensures EndOf(ReduceSingle(level, op, left, str).rest, str)
    decreases |str|, 0
  {
    Whole(str);
    if Pattern(op) <= str {
      var operand := Trim(str[|Pattern(op)|..]);
      SingleForms(level, op, left, str, operand);
      TrimmedRest(str, str, |Pattern(op)|);
      OperandRest(level, operand);
      LeftOfPart(ParseOperand(level, operand).rest, operand, str);
    }
  }

  lemma {:induction false} ReduceRest(level: nat, ops: seq<Op>, left: Function, str: string)
    requires DISJUNCTION <= level <= MULTIPLICATIVE && EndsClean(str)
    ensures EndOf(ReduceLtr(level, ops, left, str).rest, str)
    decreases |str|, 1, |ops|
  {
    Whole(str);
    if ops != [] {
      SingleRest(level, ops[0], left, str);
      ReduceRest(level, ops[1..], left, str);
    }
  }

  lemma {:induction false} ReduceAllRest(level: nat, left: Function, str: string)
    requires DISJUNCTION <= level <= MULTIPLICATIVE && EndsClean(str)
    ensures EndOf(ReduceAll(level, left, str).rest, str)
    decreases |str|, 2
  {
    Whole(str);
    if str != "" {
      var next := ReduceLtr(level, Ops(level), left, str);
      if next.func.Some? {
        ReduceRest(level, Ops(level), left, str);
        TrimmedEnd(next.rest, str);
        ReduceAllRest(level, next.func.value, Trim(next.rest));
        EndOfEnd(ReduceAll(level, next.func.value, Trim(next.rest)).rest, Trim(next.rest), str);
      }
    }
  }

  /** The operators that follow the first operand. */
  lemma {:induction false} LtrRest(level: nat, str: string)
    requires DISJUNCTION <= level <= MULTIPLICATIVE && EndsClean(str)
    ensures EndOf(ParseLtr(level, str).rest, str)
    decreases |str|, 4 * (10 - level) + 1
  {
    OperandRest(level, str);
    var first := ParseOperand(level, str);
    if first.func.Some? {
      FollowingRest(level, first.func.value, first.rest, str);
    }
  }

  lemma {:induction false} FollowingRest(level: nat, left: Function, rest: string, str: string)
    requires DISJUNCTION <= level <= MULTIPLICATIVE && EndsClean(str) && EndOf(rest, str)
    ensures EndOf(ReduceAll(level, left, Trim(rest)).rest, str)
    decreases |str|, 3
  {
    TrimmedEnd(rest, str);
    ReduceAllRest(level, left, Trim(rest));
    EndOfEnd(ReduceAll(level, left, Trim(rest)).rest, Trim(rest), str);
  }

  /** What is left of a trimmed formula is its end. */
  lemma {:induction false} TernaryRest(str: string)
    requires EndsClean(str)
    ensures EndOf(ParseTernary(str).rest, str)
    decreases |str|, 50
  {
    LtrRest(DISJUNCTION, str);
    Whole(str);
    var cond := ParseLtr(DISJUNCTION, str);
    LeftOfPart(cond.rest, str, str);
    if cond.rest != "" && cond.rest[0] == '?' {
      var second := Trim(cond.rest[1..]);
      TernaryRest(second);
      var val := ParseTernary(second);
      LeftOfPart(val.rest, second, str);
      if val.rest != "" && val.rest[0] == ':' {
        var third := Trim(val.rest[1..]);
        TernaryRest(third);
        EndOfEnd(ParseTernary(third).rest, third, str);
      }
    }
  }
}
