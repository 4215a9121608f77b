/** The query AST's clause operators and the validation pass over a parsed
    query: constant folding of right-hand sides, the per-clause typing rules,
    the rewrite of event clauses, and operator negation. */
module Query {

  /** The relational operators of a clause. The ten named ones are those that
      negate handles; every other operator of the enumeration is OtherOperator. */
  datatype ClauseOperator =
    | Match | NotMatch | Equal | NotEqual | Less | LessEqual | Greater | GreaterEqual | In | NotIn
    | OtherOperator

  /** The arithmetic and bitwise operators of an expression. */
  datatype ExprOperator =
    | Positive | Negative | BitwiseNot
    | BitwiseOr | BitwiseXor | BitwiseAnd | Plus | Minus | Times | Divide | Mod

  /** The type tags of values that the typing rules name; the remaining tags of
      the value library are OtherType. */
  datatype TypeTag =
    | InvalidType | UintType | TimePointType | StringType | RegexType | AddressType | PrefixType
    | OtherType(code: nat)

  /** A value, reduced to its type tag and an uninterpreted payload. */
  datatype Value = Value(tag: TypeTag, payload: nat)

  /** ze::invalid. */
  const Invalid := Value(InvalidType, 0)

  /** An expression is a first operand followed by (operator, operand) steps;
      an operand is a value, a unary expression or a nested expression. */
  datatype Operand =
    | Constant(value: Value)
    | Unary(op: ExprOperator, operand: Operand)
    | Nested(expr: Expression)

  datatype Operation = Operation(op: ExprOperator, operand: Operand)

  datatype Expression = Expression(first: Operand, rest: seq<Operation>)

  datatype Clause =
    | TagClause(tag: string, op: ClauseOperator, rhs: Expression)
    | TypeClause(lhsType: TypeTag, op: ClauseOperator, rhs: Expression)
    | OffsetClause(offsets: seq<nat>, op: ClauseOperator, rhs: Expression)
    | EventClause(lhs: seq<string>, op: ClauseOperator, rhs: Expression)
    | NegatedClause(operand: Clause)

  /** The boolean connective between two clauses of a query. */
  datatype Connective = LogicalAnd | LogicalOr

  datatype Conjunct = Conjunct(op: Connective, operand: Clause)

  datatype Query = Query(first: Clause, rest: seq<Conjunct>)

  // -- negate -------------------------------------------------------------------

  predicate Negatable(op: ClauseOperator)
  {
    op != OtherOperator
  }

  /** negate(op): the operator that holds exactly when op does not. An operator
      outside the ten trips an assertion in a debug build; with assertions off
      control falls into the first case, giving NotMatch. */
  function Negate(op: ClauseOperator): (r: ClauseOperator)
    ensures Negatable(r)
  {
    match op
    case OtherOperator => NotMatch
    case Match => NotMatch
    case NotMatch => Match
    case Equal => NotEqual
    case NotEqual => Equal
    case Less => GreaterEqual
    case LessEqual => Greater
    case Greater => LessEqual
    case GreaterEqual => Less
    case In => NotIn
    case NotIn => In
  }

  /** What a clause operator decides about one comparison: whether the pattern
      matched, whether the value is a member, and how the two sides compare
      (negative, zero or positive). */
  datatype Comparison = Comparison(matched: bool, member: bool, order: int)

  function Holds(op: ClauseOperator, c: Comparison): bool
    requires Negatable(op)
  {
    match op
    case Match => c.matched
    case NotMatch => !c.matched
    case Equal => c.order == 0
    case NotEqual => c.order != 0
    case Less => c.order < 0
    case LessEqual => c.order <= 0
    case Greater => c.order > 0
    case GreaterEqual => c.order >= 0
    case In => c.member
    case NotIn => !c.member
  }

  /** The negated operator holds exactly where the operator does not. */
  lemma NegateComplements(op: ClauseOperator, c: Comparison)
    requires Negatable(op)
    ensures Holds(Negate(op), c) == !Holds(op, c)
  {
  }

  /** negate is an involution on the ten operators. */
  lemma NegateInvolution(op: ClauseOperator)
    requires Negatable(op)
    ensures Negate(Negate(op)) == op
    ensures Negate(op) != op
  {
  }

  /** The release-build fall-through: an operator outside the ten becomes NotMatch. */
  lemma NegateUnlisted()
    ensures Negate(OtherOperator) == NotMatch
    ensures Negate(Negate(OtherOperator)) != OtherOperator
  {
  }

  // -- fold -------------------------------------------------------------------

  /** folder::apply on a unary expression: not implemented, so an assertion in a
      debug build and ze::invalid otherwise. */
  function ApplyUnary(op: ExprOperator, v: Value): Value
  {
    Invalid
  }

  /** folder::apply on a binary expression: not implemented either. */
  function ApplyBinary(op: ExprOperator, lhs: Value, rhs: Value): Value
  {
    Invalid
  }

  /** The folder visitor on one operand. */
  function FoldOperand(o: Operand): Value
    decreases o, 0
  {
    match o
    case Constant(v) => v
    case Unary(op, x) => ApplyUnary(op, FoldOperand(x))
    case Nested(e) => Fold(e)
  }

  /** fold(expr): the first operand folded, then each step applied in turn. */
  function Fold(e: Expression): Value
    decreases e, 1
  {
    if e.rest == [] then FoldOperand(e.first) else FoldSteps(e, |e.rest|)
  }

  /** The value after the first n steps of the loop in fold. */
  function FoldSteps(e: Expression, n: nat): Value
    requires n <= |e.rest|
    decreases e, 0, n
  {
    if n == 0 then FoldOperand(e.first)
    else
      assert e.rest[n - 1] in e.rest;
      ApplyBinary(e.rest[n - 1].op, FoldSteps(e, n - 1), FoldOperand(e.rest[n - 1].operand))
  }

  /** An operand that folds without applying an operator: a value, possibly
      inside nested single-operand expressions. */
  predicate IsConstant(o: Operand)
  {
    match o
    case Constant(_) => true
    case Unary(_, _) => false
    case Nested(e) => e.rest == [] && IsConstant(e.first)
  }

  /** The value a constant operand stands for. */
  function Innermost(o: Operand): Value
    requires IsConstant(o)
  {
    match o
    case Constant(v) => v
    case Nested(e) => Innermost(e.first)
  }

  /** Since no operator is implemented, an operand folds to its innermost value
      when it is constant and to ze::invalid otherwise. */
  lemma {:induction false} FoldOperandCases(o: Operand)
    ensures FoldOperand(o) == if IsConstant(o) then Innermost(o) else Invalid
  {
    match o
    case Constant(_) =>
    case Unary(_, _) =>
    case Nested(e) =>
      if e.rest == [] {
        FoldOperandCases(e.first);
      } else {
        assert FoldSteps(e, |e.rest|) == Invalid;
      }
  }

  /** fold of an expression: the innermost value of its first operand when it
      has no steps and that operand is constant, ze::invalid otherwise. */
  lemma FoldCases(e: Expression)
    ensures Fold(e) == if e.rest == [] && IsConstant(e.first) then Innermost(e.first) else Invalid
  {
    FoldOperandCases(Nested(e));
  }

  /** The loop of fold: the folded first operand, then each step applied in turn. */
  method FoldExpression(e: Expression) returns (value: Value)
    ensures value == Fold(e)
    decreases e, 1
  {
    value := FoldOperandValue(e.first);
    if |e.rest| == 0 {
      return;
    }
    var i := 0;
    while i < |e.rest|
      invariant i <= |e.rest| && value == FoldSteps(e, i)
      decreases |e.rest| - i
    {
      assert e.rest[i] in e.rest;
      var operand := FoldOperandValue(e.rest[i].operand);
      value := ApplyBinary(e.rest[i].op, value, operand);
      i := i + 1;
    }
  }

  /** The folder visitor on one operand, recursing into nested expressions. */
  method FoldOperandValue(o: Operand) returns (value: Value)
    ensures value == FoldOperand(o)
    decreases o, 0
  {
    match o
    case Constant(v) =>
      value := v;
    case Unary(op, x) =>
      var operand := FoldOperandValue(x);
      value := ApplyUnary(op, operand);
    case Nested(e) =>
      value := FoldExpression(e);
  }

  // -- the validator ------------------------------------------------------------

  /** A clause after the validator has visited it, with its verdict. */
  datatype Checked = Checked(valid: bool, clause: Clause)

  /** The type rule of a tag clause: name takes a string or a regex, time a
      time point, id an unsigned integer. */
  predicate TagRule(tag: string, rhsType: TypeTag)
  {
    || (tag == "name" && (rhsType == StringType || rhsType == RegexType))
    || (tag == "time" && rhsType == TimePointType)
    || (tag == "id" && rhsType == UintType)
  }

  /** The type rule of a type clause: equal types, a string matched against or
      looked up in a regex, or an address in a prefix. */
  predicate TypeRule(lhsType: TypeTag, op: ClauseOperator, rhsType: TypeTag)
  {
    || lhsType == rhsType
    || (lhsType == StringType && op in {Match, NotMatch, In, NotIn} && rhsType == RegexType)
    || (lhsType == AddressType && op == In && rhsType == PrefixType)
  }

  /** Whether the validator returns on a clause it reaches through a const
      reference, as it reaches the operand of a negated clause. An event clause
      has only an overload for a mutable reference, so a const one goes back
      through the overload for a whole clause, which dispatches on it again
      (ConstVisit); a negated clause passes its operand on. */
  predicate ConstVisitable(c: Clause)
  {
    match c
    case EventClause(_, _, _) => false
    case NegatedClause(operand) => ConstVisitable(operand)
    case _ => true
  }

  /** The clauses the validator visits through a mutable reference and returns
      on: the event-clause rewrite indexes the second name, so it needs two, and
      the operand of a negated clause must be one it returns on through a const
      reference. */
  predicate Visitable(c: Clause)
  {
    match c
    case EventClause(lhs, _, _) => |lhs| >= 2
    case NegatedClause(operand) => ConstVisitable(operand)
    case _ => true
  }

  /** The validator visitor on a clause reached through a mutable reference: the
      verdict, and the clause as the visit leaves it. The operand of a negated
      clause is reached through a const reference and is not rewritten. */
  function Visit(c: Clause): (r: Checked)
    requires Visitable(c)
    ensures r.valid == Valid(c)
    ensures !c.EventClause? ==> r.clause == c
    ensures c.EventClause? ==>
              && r.clause.EventClause? && |r.clause.lhs| == 2 && r.clause.lhs[0] == c.lhs[0]
              && r.clause.lhs[1] == "0" && r.clause.op == c.op && r.clause.rhs == c.rhs
  {
    match c
    case EventClause(lhs, op, rhs) => Checked(true, EventClause([lhs[0], "0"], op, rhs))
    case _ => Checked(Valid(c), c)
  }

  /** The verdict of the validator on a clause. */
  function Valid(c: Clause): bool
    requires Visitable(c)
  {
    match c
    case TagClause(tag, _, rhs) => TagRule(tag, Fold(rhs).tag)
    case TypeClause(lhsType, op, rhs) => TypeRule(lhsType, op, Fold(rhs).tag)
    case OffsetClause(offsets, _, _) => offsets != []
    case EventClause(_, _, _) => true
    case NegatedClause(operand) => Valid(operand)
  }

  /** What the validator does on a clause reached through a const reference,
      within a bound on the number of dispatches: it returns a verdict, or it is
      still dispatching when the bound runs out. A const event clause binds to
      the overload for a whole clause, which converts it into a fresh clause and
      dispatches on that, back to the same overload. */
  datatype Outcome = Returned(valid: bool) | Dispatching

  function ConstVisit(c: Clause, fuel: nat): (r: Outcome)
    ensures r.Returned? <==> ConstVisitable(c)
    ensures r.Returned? ==> Visitable(c) && r.valid == Valid(c)
    decreases fuel, c
  {
    match c
    case EventClause(_, _, _) => if fuel == 0 then Dispatching else ConstVisit(c, fuel - 1)
    case NegatedClause(operand) => ConstVisit(operand, fuel)
    case _ => Returned(Valid(c))
  }

  /** The verdict the negated-clause overload evidently intends: a negated
      clause validates as its operand does, and an event clause, reached in any
      way, validates. It agrees with the validator wherever that returns. */
  function IntendedValid(c: Clause): (v: bool)
    ensures Visitable(c) ==> v == Valid(c)
  {
    match c
    case EventClause(_, _, _) => true
    case NegatedClause(operand) => IntendedValid(operand)
    case _ => Valid(c)
  }

  /** A right-hand side that involves any expression operator folds to
      ze::invalid, so a valid tag clause has a constant right-hand side. */
  lemma ValidTagIsConstant(c: Clause)
    requires c.TagClause? && Valid(c)
    ensures c.rhs.rest == [] && IsConstant(c.rhs.first)
    ensures TagRule(c.tag, Innermost(c.rhs.first).tag)
  {
    FoldCases(c.rhs);
  }

  /** A type clause whose right-hand side is not constant is valid only when its
      own type is the invalid type. */
  lemma TypeClauseNonConstant(c: Clause)
    requires c.TypeClause? && !(c.rhs.rest == [] && IsConstant(c.rhs.first))
    ensures Valid(c) <==> c.lhsType == InvalidType
  {
    FoldCases(c.rhs);
  }

  /** Negations, however deep, do not change the verdict. */
  function Negations(c: Clause, n: nat): (r: Clause)
    ensures n > 0 ==> r.NegatedClause?
  {
    if n == 0 then c else NegatedClause(Negations(c, n - 1))
  }

  /** Under at least one negation the clause is reached through a const
      reference, so it must be one the validator returns on there. */
  lemma {:induction false} NegationsValid(c: Clause, n: nat)
    requires Visitable(c) && (n > 0 ==> ConstVisitable(c))
    ensures ConstVisitable(c) ==> ConstVisitable(Negations(c, n))
    ensures Visitable(Negations(c, n))
    ensures Valid(Negations(c, n)) == Valid(c)
  {
    if n > 0 {
      NegationsValid(c, n - 1);
    }
  }

  /** The intended verdict, too, ignores negations, event clauses included. */
  lemma {:induction false} NegationsIntendedValid(c: Clause, n: nat)
    ensures IntendedValid(Negations(c, n)) == IntendedValid(c)
  {
    if n > 0 {
      NegationsIntendedValid(c, n - 1);
    }
  }

  /** Visiting a visited clause changes nothing more. */
  lemma VisitIdempotent(c: Clause)
    requires Visitable(c)
    ensures Visitable(Visit(c).clause)
    ensures Visit(Visit(c).clause) == Visit(c)
  {
  }

  // -- validate -----------------------------------------------------------------

  /** The first clause and every clause of the rest are ones the validator
      visits, and pass it. */
  predicate QueryValid(q: Query)
    requires Visitable(q.first)
  {
    && Valid(q.first)
    && forall i :: 0 <= i < |q.rest| ==> Visitable(q.rest[i].operand) && Valid(q.rest[i].operand)
  }

  /** validate visits every clause of the rest it reaches, so each of them must
      be visitable: scanning ops from index i, every clause up to and including
      the first that fails. */
  predicate SafeFrom(ops: seq<Conjunct>, i: nat)
    requires i <= |ops|
    decreases |ops| - i
  {
    i == |ops| || (Visitable(ops[i].operand) && (Valid(ops[i].operand) ==> SafeFrom(ops, i + 1)))
  }

  /** validate returns on q: the first clause, and the clauses of the rest it
      reaches when the first passes, are visitable. */
  predicate SafeToValidate(q: Query)
  {
    Visitable(q.first) && (Valid(q.first) ==> SafeFrom(q.rest, 0))
  }

  /** How many clauses of the rest validate visits: up to and including the
      first one that fails, and none when the first clause fails. */
  function Reached(q: Query): (n: nat)
    requires SafeToValidate(q)
    ensures n <= |q.rest|
    ensures forall i :: 0 <= i < n ==> Visitable(q.rest[i].operand)
    ensures forall i :: 0 <= i < n - 1 ==> Valid(q.rest[i].operand)
    ensures n < |q.rest| ==> !Valid(q.first) || (n > 0 && !Valid(q.rest[n - 1].operand))
  {
    if !Valid(q.first) then 0 else ReachedFrom(q.rest, 0)
  }

  /** Scanning ops from index i: the index one past the first failing clause, or |ops|. */
  function ReachedFrom(ops: seq<Conjunct>, i: nat): (n: nat)
    requires i <= |ops| && SafeFrom(ops, i)
    ensures i <= n <= |ops| && (i < |ops| ==> i < n)
    ensures forall j :: i <= j < n ==> Visitable(ops[j].operand)
    ensures forall j :: i <= j < n - 1 ==> Valid(ops[j].operand)
    ensures n < |ops| ==> n > i && !Valid(ops[n - 1].operand)
    decreases |ops| - i
  {
    if i == |ops| then i
    else if !Valid(ops[i].operand) then i + 1
    else ReachedFrom(ops, i + 1)
  }

  /** The scan stops just past a failing clause. */
  lemma ReachedStops(ops: seq<Conjunct>, i: nat)
    requires i < |ops| && Visitable(ops[i].operand) && !Valid(ops[i].operand)
    ensures SafeFrom(ops, i)
    ensures ReachedFrom(ops, i) == i + 1
  {
  }

  /** The query with its first clause and the first k clauses of the rest visited. */
  function VisitedUpTo(q: Query, k: nat): (r: Query)
    requires k <= |q.rest| && Visitable(q.first)
    requires forall i :: 0 <= i < k ==> Visitable(q.rest[i].operand)
    ensures |r.rest| == |q.rest|
  {
    Query(Visit(q.first).clause,
          seq(|q.rest|, i requires 0 <= i < |q.rest| =>
            if i < k then Conjunct(q.rest[i].op, Visit(q.rest[i].operand).clause) else q.rest[i]))
  }

  /** The query as validate leaves it: the first clause and the clauses it
      reached visited, the others untouched. */
  function Validated(q: Query): (r: Query)
    requires SafeToValidate(q)
    ensures |r.rest| == |q.rest|
  {
    VisitedUpTo(q, Reached(q))
  }

  /** Visiting clause k of the rest extends the visited prefix by one. */
  lemma VisitNext(q: Query, k: nat)
    requires k < |q.rest| && Visitable(q.first)
    requires forall i :: 0 <= i <= k ==> Visitable(q.rest[i].operand)
    ensures VisitedUpTo(q, k + 1)
         == VisitedUpTo(q, k).(rest := VisitedUpTo(q, k).rest[k := Conjunct(q.rest[k].op, Visit(q.rest[k].operand).clause)])
  {
  }

  /** validate(q): true iff the first clause and every clause of the rest
      validate, stopping at the first that does not; q is updated in place. */
  method Validate(q: Query) returns (ok: bool, q': Query)
    requires SafeToValidate(q)
    ensures ok == QueryValid(q)
    ensures q' == Validated(q)
  {
    var first := Visit(q.first);
    q' := Query(first.clause, q.rest);
    assert q' == VisitedUpTo(q, 0);
    if first.valid {
      ok, q' := ValidateRest(q, q');
    } else {
      ok := false;
    }
  }

  /** validate's loop over the rest, once the first clause has passed: stops at
      the first clause that fails. */
  method ValidateRest(q: Query, q0: Query) returns (ok: bool, q': Query)
    requires SafeToValidate(q) && Valid(q.first) && q0 == VisitedUpTo(q, 0)
    ensures ok == forall j :: 0 <= j < |q.rest| ==> Visitable(q.rest[j].operand) && Valid(q.rest[j].operand)
    ensures q' == VisitedUpTo(q, Reached(q))
  {
    q' := q0;
    var i := 0;
    while i < |q.rest|
      invariant i <= |q.rest| && SafeFrom(q.rest, i)
      invariant forall j :: 0 <= j < i ==> Visitable(q.rest[j].operand) && Valid(q.rest[j].operand)
      invariant ReachedFrom(q.rest, i) == Reached(q)
      invariant q' == VisitedUpTo(q, i)
      decreases |q.rest| - i
    {
      assert Visitable(q.rest[i].operand);
      var valid;
      valid, q' := ValidateAt(q, i, q');
      if !valid {
        ReachedStops(q.rest, i);
        return false, q';
      }
      i := i + 1;
    }
    return true, q';
  }

  /** One turn of validate's loop: clause i of the rest is visited in place and
      its verdict returned. */
  method ValidateAt(q: Query, i: nat, q0: Query) returns (valid: bool, q1: Query)
    requires i < |q.rest| && Visitable(q.first)
    requires forall j :: 0 <= j <= i ==> Visitable(q.rest[j].operand)
    requires q0 == VisitedUpTo(q, i)
    ensures valid == Valid(q.rest[i].operand)
    ensures q1 == VisitedUpTo(q, i + 1)
  {
    var checked := Visit(q.rest[i].operand);
    VisitNext(q, i);
    q1 := q0.(rest := q0.rest[i := Conjunct(q.rest[i].op, checked.clause)]);
    valid := checked.valid;
  }
}
