/**
 * The typed expression of the newest calculator: a list of decimal operands joined
 * by binary operators, evaluated left to right or with products and quotients first.
 */
module CalcExpression {
  import opened Wrappers
  import opened Decimal

  /** Expression.Operator, with the symbol each one is shown with. */
  datatype Operator = ADD | SUBTRACT | MULTIPLY | DIVIDE

  function Symbol(op: Operator): (c: char)
    ensures c in {'+', '−', '×', '÷'}
  {
    match op
    case ADD => '+'
    case SUBTRACT => '−'
    case MULTIPLY => '×'
    case DIVIDE => '÷'
  }

  lemma SymbolsDistinct(a: Operator, b: Operator)
    ensures Symbol(a) == Symbol(b) <==> a == b
  {
  }

  predicate IsProduct(op: Operator) { op == MULTIPLY || op == DIVIDE }

  /** The faults an operation can raise: ArithmeticException in both cases. */
  predicate ArithmeticFault(f: Fault) { f == DivisionByZero || f == RoundingNecessary }

  /**
   * One operation. Addition, subtraction and multiplication are exact; only division
   * rounds, to the given scale and mode, and fails on a zero divisor.
   */
  function Apply(op: Operator, a: Dec, b: Dec, scale: int, mode: RoundingMode): (r: Result<Dec>)
    ensures op != DIVIDE ==> r.Ok?
    ensures r.Err? ==> ArithmeticFault(r.fault)
  {
    match op
    case ADD => Ok(Add(a, b))
    case SUBTRACT => Ok(Sub(a, b))
    case MULTIPLY => Ok(Mul(a, b))
    case DIVIDE => Divide(a, b, scale, mode)
  }

  /** The strictly left-to-right reading: acc op0 n0 op1 n1 ... applied to a running result. */
  function LeftToRight(acc: Dec, nbs: seq<Dec>, ops: seq<Operator>, scale: int, mode: RoundingMode): (r: Result<Dec>)
    requires |nbs| == |ops|
    ensures r.Err? ==> ArithmeticFault(r.fault)
    decreases |ops|
  {
    if ops == [] then Ok(acc)
    else
      match Apply(ops[0], acc, nbs[0], scale, mode)
      case Err(f) => Err(f)
      case Ok(v) => LeftToRight(v, nbs[1..], ops[1..], scale, mode)
  }

  /** An operand list and operator list in the shape evaluate works on. */
  datatype Terms = Terms(nbs: seq<Dec>, ops: seq<Operator>)

  predicate Balanced(t: Terms) { |t.nbs| == |t.ops| + 1 }

  /** Puts a finished prefix in front of the terms that remain to be reduced. */
  function Prefixed(nbs: seq<Dec>, ops: seq<Operator>, r: Result<Terms>): Result<Terms>
  {
    match r
    case Err(f) => Err(f)
    case Ok(t) => Ok(Terms(nbs + t.nbs, ops + t.ops))
  }

  /**
   * The first pass of evaluation with priority: every product and quotient is
   * replaced by its value, from left to right, so that only sums and differences remain.
   */
  function Collapse(nbs: seq<Dec>, ops: seq<Operator>, scale: int, mode: RoundingMode): (r: Result<Terms>)
    requires |nbs| == |ops| + 1
    ensures r.Ok? ==> Balanced(r.value) && |r.value.ops| <= |ops|
    ensures r.Err? ==> ArithmeticFault(r.fault)
    decreases |ops|
  {
    if ops == [] then Ok(Terms(nbs, []))
    else if IsProduct(ops[0]) then
      match Apply(ops[0], nbs[0], nbs[1], scale, mode)
      case Err(f) => Err(f)
      case Ok(v) => Collapse([v] + nbs[2..], ops[1..], scale, mode)
    else
      Prefixed([nbs[0]], [ops[0]], Collapse(nbs[1..], ops[1..], scale, mode))
  }

  /** What Expression.evaluate returns or throws for the given operands and operators. */
  function Evaluation(nbs: seq<Dec>, ops: seq<Operator>, priority: bool, scale: int, mode: RoundingMode): (r: Result<Dec>)
    ensures r == Err(Unbalanced) <==> |nbs| != |ops| + 1
    ensures r.Err? && |nbs| == |ops| + 1 ==> ArithmeticFault(r.fault)
  {
    if |nbs| != |ops| + 1 then Err(Unbalanced)
    else if |nbs| == 1 then Ok(nbs[0])
    else
      var pass := if priority then Collapse(nbs, ops, scale, mode) else Ok(Terms(nbs, ops));
      match pass
      case Err(f) => Err(f)
      case Ok(t) =>
        match LeftToRight(t.nbs[0], t.nbs[1..], t.ops, scale, mode)
        case Err(f) => Err(f)
        case Ok(v) => Ok(StripTrailingZeros(v))
  }

  /** The text of one operand and the operator after it, as Expression.format writes them. */
  function Piece(n: Dec, ops: seq<Operator>, i: nat, fmt: Dec -> string): string
  {
    fmt(n) + " " + (if i < |ops| then [Symbol(ops[i])] else "") + " "
  }

  /** The pieces of the operands from index i on. */
  function Pieces(nbs: seq<Dec>, ops: seq<Operator>, i: nat, fmt: Dec -> string): string
    requires i <= |nbs|
    decreases |nbs| - i
  {
    if i == |nbs| then "" else Piece(nbs[i], ops, i, fmt) + Pieces(nbs, ops, i + 1, fmt)
  }

  lemma PiecesFront(nbs: seq<Dec>, ops: seq<Operator>, i: nat, fmt: Dec -> string)
    requires i < |nbs|
    ensures Pieces(nbs, ops, i, fmt) == Piece(nbs[i], ops, i, fmt) + Pieces(nbs, ops, i + 1, fmt)
  {
  }

  lemma PieceAppended(a: string, p: string, rest: string)
    ensures a + p + rest == a + (p + rest)
  {
  }

  function DropLast(s: string): string { if s == [] then s else s[..|s| - 1] }

  /** Tokens joined by single spaces. */
  function JoinSpaced(ts: seq<string>): string
  {
    if ts == [] then "" else if |ts| == 1 then ts[0] else ts[0] + " " + JoinSpaced(ts[1..])
  }

  /** The operands' texts, each followed by its operator's symbol when it has one. */
  function Tokens(nbs: seq<Dec>, ops: seq<Operator>, fmt: Dec -> string): seq<string>
    decreases |nbs|
  {
    if nbs == [] then []
    else if ops == [] then [fmt(nbs[0])] + Tokens(nbs[1..], [], fmt)
    else [fmt(nbs[0]), [Symbol(ops[0])]] + Tokens(nbs[1..], ops[1..], fmt)
  }

  /** Expression, whose two lists the presenter edits in place. */
  class Expression {
    var numbers: seq<Dec>
    var operators: seq<Operator>

    constructor ()
      ensures numbers == [] && operators == []
    {
      numbers := [];
      operators := [];
    }

    method Clear()
      modifies this
      ensures numbers == [] && operators == []
    {
      numbers := [];
      operators := [];
    }

    function IsEmpty(): (b: bool)
      reads this
      ensures b <==> numbers == []
    {
      |numbers| == 0
    }

    /**
     * Expression.evaluate. It works on copies of the two lists, first collapsing
     * products and quotients when `priority` is set, then applying what is left from
     * left to right. It modifies nothing, whether it returns or throws.
     */
    method Evaluate(priority: bool, scale: int, mode: RoundingMode) returns (r: Result<Dec>)
      ensures r == Evaluation(numbers, operators, priority, scale, mode)
      ensures |numbers| != |operators| + 1 <==> r == Err(Unbalanced)
      ensures |numbers| == 1 && |operators| == 0 ==> r == Ok(numbers[0])
    {
      if |numbers| != |operators| + 1 {
        return Err(Unbalanced);
      }
      if |numbers| == 1 {
        return Ok(numbers[0]);
      }
      var pass: Result<Terms> := Ok(Terms(numbers, operators));
      if priority {
        pass := ReduceProducts(numbers, operators, scale, mode);
      }
      if pass.Err? {
        return Err(pass.fault);
      }
      var nbs, ops := pass.value.nbs, pass.value.ops;
      r := ReduceLeftToRight(nbs[0], nbs[1..], ops, scale, mode);
      if r.Ok? {
        r := Ok(StripTrailingZeros(r.value));
      }
    }

    /**
     * Expression.format: each operand's text, a space, its operator's symbol when it
     * has one, and a space; the final character is dropped.
     */
    method Format(fmt: Dec -> string) returns (s: string)
      ensures s == DropLast(Pieces(numbers, operators, 0, fmt))
    {
      var sb := "";
      for i := 0 to |numbers|
        invariant sb + Pieces(numbers, operators, i, fmt) == Pieces(numbers, operators, 0, fmt)
      {
        ghost var sb0 := sb;
        sb := sb + fmt(numbers[i]);
        sb := sb + " ";
        if i < |operators| {
          sb := sb + [Symbol(operators[i])];
        }
        sb := sb + " ";
        ghost var piece := Piece(numbers[i], operators, i, fmt);
        assert sb == sb0 + piece;
        PiecesFront(numbers, operators, i, fmt);
        PieceAppended(sb0, piece, Pieces(numbers, operators, i + 1, fmt));
      }
      if |sb| != 0 {
        sb := sb[..|sb| - 1];
      }
      return sb;
    }
  }

  /**
   * The first loop of Expression.evaluate, on its copies of the lists: at each index
   * holding a product or quotient, the two operands are replaced by the result and
   * the operator is removed; any other operator moves the index on.
   */
  method ReduceProducts(numbers: seq<Dec>, operators: seq<Operator>, scale: int, mode: RoundingMode)
    returns (r: Result<Terms>)
    requires |numbers| == |operators| + 1
    ensures r == Collapse(numbers, operators, scale, mode)
  {
    var nbs, ops := numbers, operators;
    var i := 0;
    CollapseStart(numbers, operators, scale, mode);
    while i < |ops|
      invariant CollapseSoFar(Collapse(numbers, operators, scale, mode), nbs, ops, i, scale, mode)
      decreases |ops| - i
    {
      var op := ops[i];
      if op == MULTIPLY || op == DIVIDE {
        var v := Apply(op, nbs[i], nbs[i + 1], scale, mode);
        CollapseProductStep(Collapse(numbers, operators, scale, mode), nbs, ops, i, scale, mode);
        if v.Err? {
          return Err(v.fault);
        }
        ops := ops[..i] + ops[i + 1..];
        nbs := nbs[..i] + [v.value] + nbs[i + 2..];
      } else {
        CollapseKeepStep(Collapse(numbers, operators, scale, mode), nbs, ops, i, scale, mode);
        i := i + 1;
      }
    }
    CollapseEnd(Collapse(numbers, operators, scale, mode), nbs, ops, i, scale, mode);
    return Ok(Terms(nbs, ops));
  }

  /**
   * The invariant of the first loop: the operands and operators before index i are
   * finished, and collapsing the rest completes the whole pass.
   */
  ghost predicate CollapseSoFar(whole: Result<Terms>, nbs: seq<Dec>, ops: seq<Operator>, i: nat,
                                scale: int, mode: RoundingMode)
  {
    i <= |ops| && |nbs| == |ops| + 1 &&
    whole == Prefixed(nbs[..i], ops[..i], Collapse(nbs[i..], ops[i..], scale, mode))
  }

  lemma CollapseStart(nbs: seq<Dec>, ops: seq<Operator>, scale: int, mode: RoundingMode)
    requires |nbs| == |ops| + 1
    ensures CollapseSoFar(Collapse(nbs, ops, scale, mode), nbs, ops, 0, scale, mode)
  {
    assert nbs[0..] == nbs && ops[0..] == ops;
    match Collapse(nbs, ops, scale, mode) {
      case Err(_) =>
      case Ok(t) => assert [] + t.nbs == t.nbs && [] + t.ops == t.ops;
    }
  }

  lemma CollapseEnd(whole: Result<Terms>, nbs: seq<Dec>, ops: seq<Operator>, i: nat, scale: int, mode: RoundingMode)
    requires CollapseSoFar(whole, nbs, ops, i, scale, mode) && i >= |ops|
    ensures whole == Ok(Terms(nbs, ops))
  {
    assert nbs[i..] == [nbs[i]] && ops[i..] == [];
    assert nbs[..i] + [nbs[i]] == nbs && ops[..i] + [] == ops;
  }

  /** At a product or quotient: an error ends the pass, a value replaces its two operands. */
  lemma CollapseProductStep(whole: Result<Terms>, nbs: seq<Dec>, ops: seq<Operator>, i: nat,
                            scale: int, mode: RoundingMode)
    requires CollapseSoFar(whole, nbs, ops, i, scale, mode) && i < |ops| && IsProduct(ops[i])
    ensures Apply(ops[i], nbs[i], nbs[i + 1], scale, mode).Err? ==>
      whole == Err(Apply(ops[i], nbs[i], nbs[i + 1], scale, mode).fault)
    ensures Apply(ops[i], nbs[i], nbs[i + 1], scale, mode).Ok? ==>
      CollapseSoFar(whole, nbs[..i] + [Apply(ops[i], nbs[i], nbs[i + 1], scale, mode).value] + nbs[i + 2..],
                    ops[..i] + ops[i + 1..], i, scale, mode)
  {
    var v := Apply(ops[i], nbs[i], nbs[i + 1], scale, mode);
    assert nbs[i..][0] == nbs[i] && nbs[i..][1] == nbs[i + 1] && ops[i..][0] == ops[i];
    if v.Ok? {
      var nbs2 := nbs[..i] + [v.value] + nbs[i + 2..];
      var ops2 := ops[..i] + ops[i + 1..];
      assert nbs2[i..] == [v.value] + nbs[i..][2..];
      assert ops2[i..] == ops[i..][1..];
      assert nbs2[..i] == nbs[..i] && ops2[..i] == ops[..i];
    }
  }

  /** At a sum or difference: the operand and operator join the finished prefix. */
  lemma CollapseKeepStep(whole: Result<Terms>, nbs: seq<Dec>, ops: seq<Operator>, i: nat,
                         scale: int, mode: RoundingMode)
    requires CollapseSoFar(whole, nbs, ops, i, scale, mode) && i < |ops| && !IsProduct(ops[i])
    ensures CollapseSoFar(whole, nbs, ops, i + 1, scale, mode)
  {
    var tail := Collapse(nbs[i + 1..], ops[i + 1..], scale, mode);
    assert nbs[i..][1..] == nbs[i + 1..] && ops[i..][1..] == ops[i + 1..];
    assert Collapse(nbs[i..], ops[i..], scale, mode) == Prefixed([nbs[i]], [ops[i]], tail);
    assert nbs[..i] + [nbs[i]] == nbs[..i + 1];
    assert ops[..i] + [ops[i]] == ops[..i + 1];
    if tail.Ok? {
      assert nbs[..i] + ([nbs[i]] + tail.value.nbs) == nbs[..i + 1] + tail.value.nbs;
      assert ops[..i] + ([ops[i]] + tail.value.ops) == ops[..i + 1] + tail.value.ops;
    }
  }

  /**
   * The second loop of Expression.evaluate: the first remaining operator is applied
   * to the first two operands, which are replaced by the result, until one is left.
   */
  method ReduceLeftToRight(first: Dec, numbers: seq<Dec>, operators: seq<Operator>, scale: int, mode: RoundingMode)
    returns (r: Result<Dec>)
    requires |numbers| == |operators|
    ensures r == LeftToRight(first, numbers, operators, scale, mode)
  {
    var acc, rest, restOps := first, numbers, operators;
    while restOps != []
      invariant |rest| == |restOps|
      invariant LeftToRight(first, numbers, operators, scale, mode)
             == LeftToRight(acc, rest, restOps, scale, mode)
      decreases |restOps|
    {
      var v := Apply(restOps[0], acc, rest[0], scale, mode);
      if v.Err? {
        return Err(v.fault);
      }
      acc, rest, restOps := v.value, rest[1..], restOps[1..];
    }
    return Ok(acc);
  }

  /** After the priority pass only sums and differences are left. */
  lemma {:induction false} CollapseLeavesSums(nbs: seq<Dec>, ops: seq<Operator>, scale: int, mode: RoundingMode)
    requires |nbs| == |ops| + 1 && Collapse(nbs, ops, scale, mode).Ok?
    ensures forall k :: 0 <= k < |Collapse(nbs, ops, scale, mode).value.ops| ==>
      !IsProduct(Collapse(nbs, ops, scale, mode).value.ops[k])
    decreases |ops|
  {
    if ops != [] {
      if IsProduct(ops[0]) {
        var v := Apply(ops[0], nbs[0], nbs[1], scale, mode).value;
        CollapseLeavesSums([v] + nbs[2..], ops[1..], scale, mode);
      } else {
        CollapseLeavesSums(nbs[1..], ops[1..], scale, mode);
        var t := Collapse(nbs[1..], ops[1..], scale, mode).value;
        assert Collapse(nbs, ops, scale, mode).value.ops == [ops[0]] + t.ops;
      }
    }
  }

  /** Without products or quotients the priority pass changes nothing. */
  lemma {:induction false} CollapseWithoutProducts(nbs: seq<Dec>, ops: seq<Operator>, scale: int, mode: RoundingMode)
    requires |nbs| == |ops| + 1
    requires forall k :: 0 <= k < |ops| ==> !IsProduct(ops[k])
    ensures Collapse(nbs, ops, scale, mode) == Ok(Terms(nbs, ops))
    decreases |ops|
  {
    if ops != [] {
      CollapseWithoutProducts(nbs[1..], ops[1..], scale, mode);
      assert [nbs[0]] + nbs[1..] == nbs && [ops[0]] + ops[1..] == ops;
    }
  }

  /** So with only sums and differences both evaluation orders give the same result. */
  lemma PriorityIrrelevantWithoutProducts(nbs: seq<Dec>, ops: seq<Operator>, scale: int, mode: RoundingMode)
    requires forall k :: 0 <= k < |ops| ==> !IsProduct(ops[k])
    ensures Evaluation(nbs, ops, true, scale, mode) == Evaluation(nbs, ops, false, scale, mode)
  {
    if |nbs| == |ops| + 1 {
      CollapseWithoutProducts(nbs, ops, scale, mode);
    }
  }

  /**
   * What the format loop builds, before its last character is dropped: the tokens
   * joined by spaces, then two spaces after a final operand or one after a final operator.
   */
  lemma {:induction false} PiecesJoined(nbs: seq<Dec>, ops: seq<Operator>, i: nat, fmt: Dec -> string)
    requires |nbs| == |ops| || |nbs| == |ops| + 1
    requires i < |nbs|
    ensures Pieces(nbs, ops, i, fmt)
         == JoinSpaced(Tokens(nbs[i..], ops[i..], fmt)) + (if |nbs| == |ops| then " " else "  ")
    decreases |nbs| - i
  {
    var end := if |nbs| == |ops| then " " else "  ";
    var restOps := if i < |ops| then ops[i + 1..] else [];
    var tail := Tokens(nbs[i + 1..], restOps, fmt);
    var x := fmt(nbs[i]);
    var mid: seq<string> := if i < |ops| then [[Symbol(ops[i])]] else [];
    TokensFront(nbs, ops, i, fmt);
    assert Tokens(nbs[i..], ops[i..], fmt) == [x] + mid + tail;
    if i + 1 < |nbs| {
      var sym := [Symbol(ops[i])];
      PiecesJoined(nbs, ops, i + 1, fmt);
      assert tail != [] by { assert nbs[i + 1..] != []; }
      JoinFront(x, mid, tail);
      var j := JoinSpaced(tail);
      assert Pieces(nbs, ops, i, fmt) == (x + " " + sym + " ") + (j + end);
      assert JoinSpaced([x] + mid + tail) == x + " " + (sym + " ") + j;
      Regrouped(x, sym, j, end);
    } else {
      assert nbs[i + 1..] == [] && tail == [];
      assert [x] + mid + tail == [x] + mid;
      if i < |ops| {
        assert JoinSpaced([x] + mid) == x + " " + [Symbol(ops[i])];
      } else {
        assert JoinSpaced([x] + mid) == x;
      }
    }
  }

  lemma Regrouped(x: string, sym: string, j: string, end: string)
    ensures x + " " + sym + " " + (j + end) == x + " " + (sym + " ") + j + end
  {
  }

  /** The tokens from index i: the operand's text, its operator if any, then the rest. */
  lemma TokensFront(nbs: seq<Dec>, ops: seq<Operator>, i: nat, fmt: Dec -> string)
    requires |nbs| == |ops| || |nbs| == |ops| + 1
    requires i < |nbs|
    ensures Tokens(nbs[i..], ops[i..], fmt)
         == [fmt(nbs[i])] + (if i < |ops| then [[Symbol(ops[i])]] else [])
            + Tokens(nbs[i + 1..], if i < |ops| then ops[i + 1..] else [], fmt)
  {
    assert nbs[i..][1..] == nbs[i + 1..];
    if i < |ops| {
      assert ops[i..][1..] == ops[i + 1..];
    }
  }

  /** Joining a first token and at most one more in front of a non-empty rest. */
  lemma JoinFront(x: string, mid: seq<string>, tail: seq<string>)
    requires |mid| <= 1 && tail != []
    ensures JoinSpaced([x] + mid + tail)
         == x + " " + (if mid == [] then "" else mid[0] + " ") + JoinSpaced(tail)
  {
    assert ([x] + mid + tail)[1..] == mid + tail;
    if mid != [] {
      assert (mid + tail)[1..] == tail;
    }
  }

  /**
   * Expression.format writes the tokens separated by single spaces; a balanced
   * expression, which ends with an operand, keeps one trailing space.
   */
  lemma FormatSpacing(nbs: seq<Dec>, ops: seq<Operator>, fmt: Dec -> string)
    requires |nbs| == |ops| || |nbs| == |ops| + 1
    ensures DropLast(Pieces(nbs, ops, 0, fmt))
         == JoinSpaced(Tokens(nbs, ops, fmt)) + (if |nbs| == |ops| + 1 then " " else "")
  {
    if nbs != [] {
      PiecesJoined(nbs, ops, 0, fmt);
      assert nbs[0..] == nbs && ops[0..] == ops;
      var j := JoinSpaced(Tokens(nbs, ops, fmt));
      if |nbs| == |ops| {
        assert (j + " ")[..|j + " "| - 1] == j;
      } else {
        assert (j + "  ")[..|j + "  "| - 1] == j + " ";
      }
    }
  }

  // The evaluation cases of ExpressionTest, at scale 8 with HALF_UP. The operands are
  // parameters fixed by the requires clauses, which keeps the verifier from unfolding
  // the whole evaluation on constants at once.

  /** 12.1 + -24.8 = -12.7 */
  lemma TwoSum(a: Dec, b: Dec)
    requires a == Dec(121, 1) && b == Dec(-248, 1)
    ensures Evaluation([a, b], [ADD], false, 8, HalfUp) == Ok(Dec(-127, 1))
  {
    assert [a, b][1..] == [b];
    assert Add(a, b) == Dec(-127, 1);
    StripWithoutTrailingZero(Dec(-127, 1));
  }

  /** 3 + 4 × 5 is 35 read left to right. */
  lemma SumAndMultiply(a: Dec, b: Dec, c: Dec)
    requires a == Dec(3, 0) && b == Dec(4, 0) && c == Dec(5, 0)
    ensures Evaluation([a, b, c], [ADD, MULTIPLY], false, 8, HalfUp) == Ok(Dec(35, 0))
  {
    SumThenMultiplied(a, b, c, 8, HalfUp);
    ThirtyFive(a, b, c);
  }

  /** Without priority, x + y × z is (x + y) × z, stripped, at any scale and mode. */
  lemma SumThenMultiplied(x: Dec, y: Dec, z: Dec, scale: int, mode: RoundingMode)
    ensures Evaluation([x, y, z], [ADD, MULTIPLY], false, scale, mode) == Ok(StripTrailingZeros(Mul(Add(x, y), z)))
  {
    LeftToRightTwo(x, y, z, ADD, MULTIPLY, scale, mode, Add(x, y), Mul(Add(x, y), z));
    EvaluatedThree(x, y, z, ADD, MULTIPLY, scale, mode, Mul(Add(x, y), z));
  }

  /** (3 + 4) × 5 is 35, with no trailing zero to strip. */
  lemma ThirtyFive(a: Dec, b: Dec, c: Dec)
    requires a == Dec(3, 0) && b == Dec(4, 0) && c == Dec(5, 0)
    ensures StripTrailingZeros(Mul(Add(a, b), c)) == Dec(35, 0)
  {
    assert Mul(Add(a, b), c) == Dec(35, 0);
    StripWithoutTrailingZero(Dec(35, 0));
  }

  /** Without priority, three numbers evaluate to their left-to-right reading, stripped. */
  lemma EvaluatedThree(x: Dec, y: Dec, z: Dec, op1: Operator, op2: Operator, scale: int, mode: RoundingMode, v: Dec)
    requires LeftToRight(x, [y, z], [op1, op2], scale, mode) == Ok(v)
    ensures Evaluation([x, y, z], [op1, op2], false, scale, mode) == Ok(StripTrailingZeros(v))
  {
    assert [x, y, z][0] == x && [x, y, z][1..] == [y, z];
  }

  /** Two steps of the left-to-right reading. */
  lemma LeftToRightTwo(x: Dec, y: Dec, z: Dec, op1: Operator, op2: Operator,
                       scale: int, mode: RoundingMode, s: Dec, r: Dec)
    requires Apply(op1, x, y, scale, mode) == Ok(s) && Apply(op2, s, z, scale, mode) == Ok(r)
    ensures LeftToRight(x, [y, z], [op1, op2], scale, mode) == Ok(r)
  {
    assert [y, z] == [y] + [z] && [op1, op2] == [op1] + [op2];
    LeftToRightStep(x, y, [z], op1, [op2], scale, mode, s);
    assert [z] == [z] + [] && [op2] == [op2] + [];
    LeftToRightStep(s, z, [], op2, [], scale, mode, r);
  }

  /** 3 + 4 × 5 is 23 with priority. */
  lemma SumAndMultiplyWithPriority(a: Dec, b: Dec, c: Dec)
    requires a == Dec(3, 0) && b == Dec(4, 0) && c == Dec(5, 0)
    ensures Evaluation([a, b, c], [ADD, MULTIPLY], true, 8, HalfUp) == Ok(Dec(23, 0))
  {
    var p, r := Dec(20, 0), Dec(23, 0);
    assert Apply(MULTIPLY, b, c, 8, HalfUp) == Ok(p) && Apply(ADD, a, p, 8, HalfUp) == Ok(r);
    PrioritySumProduct(a, b, c, p, r, HalfUp);
    StripWithoutTrailingZero(r);
  }

  /** x + y × z with priority: the product first, then the sum. */
  lemma PrioritySumProduct(x: Dec, y: Dec, z: Dec, p: Dec, r: Dec, mode: RoundingMode)
    requires Apply(MULTIPLY, y, z, 8, mode) == Ok(p) && Apply(ADD, x, p, 8, mode) == Ok(r)
    ensures Evaluation([x, y, z], [ADD, MULTIPLY], true, 8, mode) == Ok(StripTrailingZeros(r))
  {
    CollapseSumProduct(x, y, z, p, mode);
    assert [x, p][1..] == [p] + [] && [ADD] == [ADD] + [];
    LeftToRightStep(x, p, [], ADD, [], 8, mode, r);
  }

  lemma CollapseSumProduct(x: Dec, y: Dec, z: Dec, p: Dec, mode: RoundingMode)
    requires Apply(MULTIPLY, y, z, 8, mode) == Ok(p)
    ensures Collapse([x, y, z], [ADD, MULTIPLY], 8, mode) == Ok(Terms([x, p], [ADD]))
  {
    assert [y, z] + [] == [y, z] && [MULTIPLY] + [] == [MULTIPLY] && [p] + [] == [p];
    CollapseProduct(y, z, [], MULTIPLY, [], 8, mode, p);
    assert Collapse([p], [], 8, mode) == Ok(Terms([p], []));
    assert [x] + [y, z] == [x, y, z] && [ADD] + [MULTIPLY] == [ADD, MULTIPLY];
    CollapseKeep(x, [y, z], ADD, [MULTIPLY], 8, mode);
    assert [x] + [p] == [x, p] && [ADD] + [] == [ADD];
  }

  /** One step of the left-to-right reading. */
  lemma LeftToRightStep(acc: Dec, n: Dec, nbs: seq<Dec>, op: Operator, ops: seq<Operator>,
                        scale: int, mode: RoundingMode, v: Dec)
    requires |nbs| == |ops| && Apply(op, acc, n, scale, mode) == Ok(v)
    ensures LeftToRight(acc, [n] + nbs, [op] + ops, scale, mode) == LeftToRight(v, nbs, ops, scale, mode)
  {
    assert ([n] + nbs)[1..] == nbs && ([op] + ops)[1..] == ops;
  }

  /** A product or quotient at the front is replaced by its value. */
  lemma CollapseProduct(x: Dec, y: Dec, nbs: seq<Dec>, op: Operator, ops: seq<Operator>,
                        scale: int, mode: RoundingMode, v: Dec)
    requires |nbs| == |ops| && IsProduct(op) && Apply(op, x, y, scale, mode) == Ok(v)
    ensures Collapse([x, y] + nbs, [op] + ops, scale, mode) == Collapse([v] + nbs, ops, scale, mode)
  {
    assert ([x, y] + nbs)[2..] == nbs && ([op] + ops)[1..] == ops;
  }

  /** A sum or difference at the front is kept. */
  lemma CollapseKeep(x: Dec, nbs: seq<Dec>, op: Operator, ops: seq<Operator>, scale: int, mode: RoundingMode)
    requires |nbs| == |ops| + 1 && !IsProduct(op)
    ensures Collapse([x] + nbs, [op] + ops, scale, mode) == Prefixed([x], [op], Collapse(nbs, ops, scale, mode))
  {
    assert ([x] + nbs)[1..] == nbs && ([op] + ops)[1..] == ops;
  }

  /** 1 ÷ 8 = 0.125, with no trailing zeros left from the scale of the division. */
  lemma StripTrailingZeroesOfQuotient(a: Dec, b: Dec)
    requires a == Dec(1, 0) && b == Dec(8, 0)
    ensures Evaluation([a, b], [DIVIDE], false, 8, HalfUp) == Ok(Dec(125, 3))
  {
    StripEighth();
    assert [a, b][1..] == [b] && [b] == [b] + [] && [DIVIDE] == [DIVIDE] + [];
    Eighth(a, b);
    LeftToRightStep(a, b, [], DIVIDE, [], 8, HalfUp, Dec(12500000, 8));
  }

  lemma Eighth(a: Dec, b: Dec)
    requires a == Dec(1, 0) && b == Dec(8, 0)
    ensures Apply(DIVIDE, a, b, 8, HalfUp) == Ok(Dec(12500000, 8))
  {
    assert Pow10(8) == 100000000;
    assert DivNumerator(a, b, 8) == 100000000 && DivDenominator(a, b, 8) == 8;
    assert RoundDiv(100000000, 8, HalfUp) == Ok(12500000);
    DivideByParts(a, b, 8, HalfUp, 100000000, 8, 12500000);
  }

  lemma StripEighth()
    ensures StripTrailingZeros(Dec(12500000, 8)) == Dec(125, 3)
  {
    StripTrailingZero(1250000, 8);
    StripTrailingZero(125000, 7);
    StripTrailingZero(12500, 6);
    StripTrailingZero(1250, 5);
    StripTrailingZero(125, 4);
    StripWithoutTrailingZero(Dec(125, 3));
  }

  // The quotients of the long expression, each rounded HALF_UP to eight digits.

  /** -1 ÷ 6 = -0.16666667 */
  lemma MinusOneBySix(a: Dec, b: Dec)
    requires a == Dec(-1, 0) && b == Dec(6, 0)
    ensures Apply(DIVIDE, a, b, 8, HalfUp) == Ok(Dec(-16666667, 8))
  {
    assert Pow10(8) == 100000000;
    assert DivNumerator(a, b, 8) == -100000000 && DivDenominator(a, b, 8) == 6;
    assert RoundDiv(-100000000, 6, HalfUp) == Ok(-16666667);
    DivideByParts(a, b, 8, HalfUp, -100000000, 6, -16666667);
  }

  /** 57.99999996 ÷ 3 = 19.33333332 */
  lemma ProductByThree(a: Dec, b: Dec)
    requires a == Dec(5799999996, 8) && b == Dec(3, 0)
    ensures Apply(DIVIDE, a, b, 8, HalfUp) == Ok(Dec(1933333332, 8))
  {
    assert Pow10(8) == 100000000;
    assert DivNumerator(a, b, 8) == 5799999996 && DivDenominator(a, b, 8) == 3;
    assert RoundDiv(5799999996, 3, HalfUp) == Ok(1933333332);
    DivideByParts(a, b, 8, HalfUp, 5799999996, 3, 1933333332);
  }

  /** 19.33333332 ÷ 8 = 2.416666665, rounded up to 2.41666667 */
  lemma QuotientByEight(a: Dec, b: Dec)
    requires a == Dec(1933333332, 8) && b == Dec(8, 0)
    ensures Apply(DIVIDE, a, b, 8, HalfUp) == Ok(Dec(241666667, 8))
  {
    assert Pow10(8) == 100000000;
    assert DivNumerator(a, b, 8) == 1933333332 && DivDenominator(a, b, 8) == 8;
    assert RoundDiv(1933333332, 8, HalfUp) == Ok(241666667);
    DivideByParts(a, b, 8, HalfUp, 1933333332, 8, 241666667);
  }

  /** 60 ÷ 3 = 20.00000000 */
  lemma SixtyByThree(a: Dec, b: Dec)
    requires a == Dec(60, 0) && b == Dec(3, 0)
    ensures Apply(DIVIDE, a, b, 8, HalfUp) == Ok(Dec(2000000000, 8))
  {
    assert Pow10(8) == 100000000;
    assert DivNumerator(a, b, 8) == 6000000000 && DivDenominator(a, b, 8) == 3;
    assert RoundDiv(6000000000, 3, HalfUp) == Ok(2000000000);
    DivideByParts(a, b, 8, HalfUp, 6000000000, 3, 2000000000);
  }

  /** 20.00000000 ÷ 8 = 2.50000000 */
  lemma TwentyByEight(a: Dec, b: Dec)
    requires a == Dec(2000000000, 8) && b == Dec(8, 0)
    ensures Apply(DIVIDE, a, b, 8, HalfUp) == Ok(Dec(250000000, 8))
  {
    assert Pow10(8) == 100000000;
    assert DivNumerator(a, b, 8) == 2000000000 && DivDenominator(a, b, 8) == 8;
    assert RoundDiv(2000000000, 8, HalfUp) == Ok(250000000);
    DivideByParts(a, b, 8, HalfUp, 2000000000, 8, 250000000);
  }

  /** Six operators read left to right, one step at a time. */
  lemma LeftToRightSix(n: seq<Dec>, o: seq<Operator>, v: seq<Dec>, mode: RoundingMode)
    requires |n| == 7 && |o| == 6 && |v| == 6
    requires Apply(o[0], n[0], n[1], 8, mode) == Ok(v[0])
    requires Apply(o[1], v[0], n[2], 8, mode) == Ok(v[1])
    requires Apply(o[2], v[1], n[3], 8, mode) == Ok(v[2])
    requires Apply(o[3], v[2], n[4], 8, mode) == Ok(v[3])
    requires Apply(o[4], v[3], n[5], 8, mode) == Ok(v[4])
    requires Apply(o[5], v[4], n[6], 8, mode) == Ok(v[5])
    ensures LeftToRight(n[0], n[1..], o, 8, mode) == Ok(v[5])
  {
    var k := 0;
    while k < 6
      invariant 0 <= k <= 6
      invariant LeftToRight(n[0], n[1..], o, 8, mode) ==
        LeftToRight(if k == 0 then n[0] else v[k - 1], n[k + 1..], o[k..], 8, mode)
    {
      assert n[k + 1..][1..] == n[k + 2..] && o[k..][1..] == o[k + 1..];
      k := k + 1;
    }
  }

  // The exact steps of the long expression.

  /** -0.16666667 + 5 = 4.83333333 */
  lemma SixthPlusFive(a: Dec, b: Dec)
    requires a == Dec(-16666667, 8) && b == Dec(5, 0)
    ensures Apply(ADD, a, b, 8, HalfUp) == Ok(Dec(483333333, 8))
  {
    assert Pow10(8) == 100000000;
  }

  /** 4.83333333 × 12 = 57.99999996 */
  lemma TimesTwelve(a: Dec, b: Dec)
    requires a == Dec(483333333, 8) && b == Dec(12, 0)
    ensures Apply(MULTIPLY, a, b, 8, HalfUp) == Ok(Dec(5799999996, 8))
  {
    assert Pow10(8) == 100000000;
  }

  /** 2.41666667 − -10 = 12.41666667 */
  lemma QuotientMinusMinusTen(a: Dec, b: Dec)
    requires a == Dec(241666667, 8) && b == Dec(-10, 0)
    ensures Apply(SUBTRACT, a, b, 8, HalfUp) == Ok(Dec(1241666667, 8))
  {
    assert Pow10(8) == 100000000;
  }

  /** 5 × 12 = 60 */
  lemma FiveTimesTwelve(a: Dec, b: Dec)
    requires a == Dec(5, 0) && b == Dec(12, 0)
    ensures Apply(MULTIPLY, a, b, 8, HalfUp) == Ok(Dec(60, 0))
  {
    assert Pow10(8) == 100000000;
  }

  /** -0.16666667 + 2.50000000 = 2.33333333 */
  lemma SixthPlusHalves(a: Dec, b: Dec)
    requires a == Dec(-16666667, 8) && b == Dec(250000000, 8)
    ensures Apply(ADD, a, b, 8, HalfUp) == Ok(Dec(233333333, 8))
  {
    assert Pow10(8) == 100000000;
  }

  /** 2.33333333 − -10 = 12.33333333 */
  lemma SumMinusMinusTen(a: Dec, b: Dec)
    requires a == Dec(233333333, 8) && b == Dec(-10, 0)
    ensures Apply(SUBTRACT, a, b, 8, HalfUp) == Ok(Dec(1233333333, 8))
  {
    assert Pow10(8) == 100000000;
  }

  /** -1 ÷ 6 + 5 × 12 ÷ 3 ÷ 8 − -10 is 12.41666667 read left to right. */
  lemma LongExpression(a: Dec, b: Dec, c: Dec, d: Dec, e: Dec, f: Dec, g: Dec)
    requires a == Dec(-1, 0) && b == Dec(6, 0) && c == Dec(5, 0) && d == Dec(12, 0)
    requires e == Dec(3, 0) && f == Dec(8, 0) && g == Dec(-10, 0)
    ensures Evaluation([a, b, c, d, e, f, g], [DIVIDE, ADD, MULTIPLY, DIVIDE, DIVIDE, SUBTRACT], false, 8, HalfUp)
      == Ok(Dec(1241666667, 8))
  {
    var n, o := [a, b, c, d, e, f, g], [DIVIDE, ADD, MULTIPLY, DIVIDE, DIVIDE, SUBTRACT];
    var v := [Dec(-16666667, 8), Dec(483333333, 8), Dec(5799999996, 8), Dec(1933333332, 8),
      Dec(241666667, 8), Dec(1241666667, 8)];
    MinusOneBySix(a, b);
    ProductByThree(v[2], e);
    QuotientByEight(v[3], f);
    SixthPlusFive(v[0], c);
    TimesTwelve(v[1], d);
    QuotientMinusMinusTen(v[4], g);
    LeftToRightSix(n, o, v, HalfUp);
    StripWithoutTrailingZero(v[5]);
  }

  /** The last difference of the long expression survives the priority pass. */
  lemma CollapseLastDifference(p: Dec, g: Dec, mode: RoundingMode)
    ensures Collapse([p, g], [SUBTRACT], 8, mode) == Ok(Terms([p, g], [SUBTRACT]))
  {
    assert [p, g] == [p] + [g] && [SUBTRACT] == [SUBTRACT] + [];
    CollapseKeep(p, [g], SUBTRACT, [], 8, mode);
  }

  /** The two quotients by 3 and by 8 are reduced in turn. */
  lemma CollapseQuotients(p1: Dec, e: Dec, f: Dec, g: Dec, p2: Dec, p3: Dec, mode: RoundingMode)
    requires Apply(DIVIDE, p1, e, 8, mode) == Ok(p2) && Apply(DIVIDE, p2, f, 8, mode) == Ok(p3)
    ensures Collapse([p1, e, f, g], [DIVIDE, DIVIDE, SUBTRACT], 8, mode) == Ok(Terms([p3, g], [SUBTRACT]))
  {
    assert [p1, e, f, g] == [p1, e] + [f, g] && [DIVIDE, DIVIDE, SUBTRACT] == [DIVIDE] + [DIVIDE, SUBTRACT];
    CollapseProduct(p1, e, [f, g], DIVIDE, [DIVIDE, SUBTRACT], 8, mode, p2);
    assert [p2] + [f, g] == [p2, f] + [g] && [DIVIDE, SUBTRACT] == [DIVIDE] + [SUBTRACT];
    CollapseProduct(p2, f, [g], DIVIDE, [SUBTRACT], 8, mode, p3);
    assert [p3] + [g] == [p3, g];
    CollapseLastDifference(p3, g, mode);
  }

  /** 5 × 12 ÷ 3 ÷ 8 − (−10) becomes a single term before the difference. */
  lemma CollapseProductRun(c: Dec, d: Dec, e: Dec, f: Dec, g: Dec, p1: Dec, p2: Dec, p3: Dec, mode: RoundingMode)
    requires Apply(MULTIPLY, c, d, 8, mode) == Ok(p1)
    requires Apply(DIVIDE, p1, e, 8, mode) == Ok(p2) && Apply(DIVIDE, p2, f, 8, mode) == Ok(p3)
    ensures Collapse([c, d, e, f, g], [MULTIPLY, DIVIDE, DIVIDE, SUBTRACT], 8, mode) == Ok(Terms([p3, g], [SUBTRACT]))
  {
    assert [c, d, e, f, g] == [c, d] + [e, f, g];
    assert [MULTIPLY, DIVIDE, DIVIDE, SUBTRACT] == [MULTIPLY] + [DIVIDE, DIVIDE, SUBTRACT];
    CollapseProduct(c, d, [e, f, g], MULTIPLY, [DIVIDE, DIVIDE, SUBTRACT], 8, mode, p1);
    assert [p1] + [e, f, g] == [p1, e, f, g];
    CollapseQuotients(p1, e, f, g, p2, p3, mode);
  }

  /** The priority pass over the long expression: the quotient, then 5 × 12 ÷ 3 ÷ 8. */
  lemma CollapseLong(a: Dec, b: Dec, c: Dec, d: Dec, e: Dec, f: Dec, g: Dec,
                     v1: Dec, p1: Dec, p2: Dec, p3: Dec, mode: RoundingMode)
    requires Apply(DIVIDE, a, b, 8, mode) == Ok(v1) && Apply(MULTIPLY, c, d, 8, mode) == Ok(p1)
    requires Apply(DIVIDE, p1, e, 8, mode) == Ok(p2) && Apply(DIVIDE, p2, f, 8, mode) == Ok(p3)
    ensures Collapse([a, b, c, d, e, f, g], [DIVIDE, ADD, MULTIPLY, DIVIDE, DIVIDE, SUBTRACT], 8, mode)
      == Ok(Terms([v1, p3, g], [ADD, SUBTRACT]))
  {
    CollapseFront(a, b, c, d, e, f, g, v1, mode);
    CollapseProductRun(c, d, e, f, g, p1, p2, p3, mode);
    PrefixedSum(v1, p3, g);
  }

  /** The long expression's first quotient is reduced and the sum after it kept. */
  lemma CollapseFront(a: Dec, b: Dec, c: Dec, d: Dec, e: Dec, f: Dec, g: Dec, v1: Dec, mode: RoundingMode)
    requires Apply(DIVIDE, a, b, 8, mode) == Ok(v1)
    ensures Collapse([a, b, c, d, e, f, g], [DIVIDE, ADD, MULTIPLY, DIVIDE, DIVIDE, SUBTRACT], 8, mode)
      == Prefixed([v1], [ADD], Collapse([c, d, e, f, g], [MULTIPLY, DIVIDE, DIVIDE, SUBTRACT], 8, mode))
  {
    var rest := [c, d, e, f, g];
    var ops := [MULTIPLY, DIVIDE, DIVIDE, SUBTRACT];
    assert [a, b, c, d, e, f, g] == [a, b] + rest;
    assert [DIVIDE, ADD, MULTIPLY, DIVIDE, DIVIDE, SUBTRACT] == [DIVIDE] + ([ADD] + ops);
    CollapseProduct(a, b, rest, DIVIDE, [ADD] + ops, 8, mode, v1);
    CollapseKeep(v1, rest, ADD, ops, 8, mode);
  }

  /** The kept sum in front of the collapsed run. */
  lemma PrefixedSum(v1: Dec, p3: Dec, g: Dec)
    ensures Prefixed([v1], [ADD], Ok(Terms([p3, g], [SUBTRACT]))) == Ok(Terms([v1, p3, g], [ADD, SUBTRACT]))
  {
    assert [v1] + [p3, g] == [v1, p3, g] && [ADD] + [SUBTRACT] == [ADD, SUBTRACT];
  }

  /** Evaluation with priority of an expression shaped like the long one, from its steps. */
  lemma PriorityLong(a: Dec, b: Dec, c: Dec, d: Dec, e: Dec, f: Dec, g: Dec,
                     v1: Dec, p1: Dec, p2: Dec, p3: Dec, w: Dec, r: Dec, mode: RoundingMode)
    requires Apply(DIVIDE, a, b, 8, mode) == Ok(v1) && Apply(MULTIPLY, c, d, 8, mode) == Ok(p1)
    requires Apply(DIVIDE, p1, e, 8, mode) == Ok(p2) && Apply(DIVIDE, p2, f, 8, mode) == Ok(p3)
    requires Apply(ADD, v1, p3, 8, mode) == Ok(w) && Apply(SUBTRACT, w, g, 8, mode) == Ok(r)
    ensures Evaluation([a, b, c, d, e, f, g], [DIVIDE, ADD, MULTIPLY, DIVIDE, DIVIDE, SUBTRACT], true, 8, mode)
      == Ok(StripTrailingZeros(r))
  {
    CollapseLong(a, b, c, d, e, f, g, v1, p1, p2, p3, mode);
    assert [v1, p3, g][1..] == [p3] + [g] && [ADD, SUBTRACT] == [ADD] + [SUBTRACT] && [g] == [g] + [];
    LeftToRightStep(v1, p3, [g], ADD, [SUBTRACT], 8, mode, w);
    LeftToRightStep(w, g, [], SUBTRACT, [], 8, mode, r);
  }

  /** The same expression is 12.33333333 with priority: 5 × 12 ÷ 3 ÷ 8 is reduced to 2.5 first. */
  lemma LongExpressionWithPriority(a: Dec, b: Dec, c: Dec, d: Dec, e: Dec, f: Dec, g: Dec)
    requires a == Dec(-1, 0) && b == Dec(6, 0) && c == Dec(5, 0) && d == Dec(12, 0)
    requires e == Dec(3, 0) && f == Dec(8, 0) && g == Dec(-10, 0)
    ensures Evaluation([a, b, c, d, e, f, g], [DIVIDE, ADD, MULTIPLY, DIVIDE, DIVIDE, SUBTRACT], true, 8, HalfUp)
      == Ok(Dec(1233333333, 8))
  {
    var v := [Dec(-16666667, 8), Dec(60, 0), Dec(2000000000, 8), Dec(250000000, 8),
      Dec(233333333, 8), Dec(1233333333, 8)];
    assert v[0] == Dec(-16666667, 8) && v[1] == Dec(60, 0) && v[2] == Dec(2000000000, 8);
    assert v[3] == Dec(250000000, 8) && v[4] == Dec(233333333, 8) && v[5] == Dec(1233333333, 8);
    StripWithoutTrailingZero(v[5]);
    MinusOneBySix(a, b);
    FiveTimesTwelve(c, d);
    SixtyByThree(v[1], e);
    TwentyByEight(v[2], f);
    SixthPlusHalves(v[0], v[3]);
    SumMinusMinusTen(v[4], g);
    PriorityLong(a, b, c, d, e, f, g, v[0], v[1], v[2], v[3], v[4], v[5], HalfUp);
  }
}
