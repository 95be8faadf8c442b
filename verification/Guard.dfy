/** Delete guards (tsdb/guard.go): which points a running delete makes later writes wait for.

    The expression of a delete is compiled once into a small AND/OR tree over tag tests.
    The compiler prunes that tree while it builds it.  Two theorems are proved here: the pruning never
    changes which points match, and the compiled guard misses no point the expression selects exactly
    when every comparison is safe on the point, as it is when the point carries the tags compared. */
module Guard {
  import opened Collections

  datatype Tag = Tag(key: string, value: string)

  datatype Point = Point(name: string, tags: seq<Tag>, time: int)

  datatype Op = AND | OR | EQ | NEQ | OtherOp(code: nat)

  /** `Unknown` and `TagRef` are the two reference types the compiler is willing to filter on. */
  datatype RefType = Unknown | TagRef | OtherRef

  datatype Expr =
    | Paren(inner: Expr)
    | BooleanLiteral(truth: bool)
    | Binary(op: Op, lhs: Expr, rhs: Expr)
    | VarRef(name: string, refType: RefType)
    | StringLiteral(text: string)
    | RegexLiteral(pattern: string)
    | OtherExpr(code: nat)

  /** `Everything` is the nil guard, `Nothing` the zero value. */
  datatype ExprGuard =
    | Everything
    | Nothing
    | And(left: ExprGuard, right: ExprGuard)
    | Or(left: ExprGuard, right: ExprGuard)
    | TagMatches(meas: bool, key: string, equal: bool, text: string)
    | TagExists(keys: set<string>)

  // ---- compiling -----------------------------------------------------------------------

  function NewExprGuard(expr: Expr): (g: ExprGuard)
  {
    match expr
    case Paren(inner) => NewExprGuard(inner)
    case BooleanLiteral(truth) => if truth then Everything else Nothing
    case Binary(AND, lhs, rhs) =>
      var l, r := NewExprGuard(lhs), NewExprGuard(rhs);
      if l.Everything? then r
      else if r.Everything? then l
      else if l.Nothing? || r.Nothing? then Nothing
      else And(l, r)
    case Binary(OR, lhs, rhs) =>
      var l, r := NewExprGuard(lhs), NewExprGuard(rhs);
      if l.Nothing? then r
      else if r.Nothing? then l
      else if l.Everything? || r.Everything? then Everything
      else Or(l, r)
    case Binary(op, lhs, rhs) => NewBinaryExprGuard(op, lhs, rhs)
    case _ => Everything
  }

  function NewBinaryExprGuard(op: Op, lhs: Expr, rhs: Expr): (g: ExprGuard)
  {
    if lhs.Binary? || rhs.Binary? then Everything
    else if lhs.VarRef? then NewLeaf(op, lhs.name, lhs.refType, rhs)
    else if rhs.VarRef? then NewLeaf(op, rhs.name, rhs.refType, lhs)
    else Everything
  }

  function NewLeaf(op: Op, key: string, refType: RefType, value: Expr): (g: ExprGuard)
  {
    if key != "_name" && refType == OtherRef then Everything
    else match value
      case StringLiteral(text) =>
        if op == EQ then TagMatches(key == "_name", key, true, text)
        else if op == NEQ then TagMatches(key == "_name", key, false, text)
        else Everything
      case RegexLiteral(_) => TagExists({key})
      case VarRef(other, _) =>
        if key == "_name" || other == "_name" then Everything else TagExists({key, other})
      case _ => Everything
  }

  /** The same compilation with no pruning at all: one And/Or node per AND/OR. */
  function NewUnreducedGuard(expr: Expr): (g: ExprGuard)
  {
    match expr
    case Paren(inner) => NewUnreducedGuard(inner)
    case BooleanLiteral(truth) => if truth then Everything else Nothing
    case Binary(AND, lhs, rhs) => And(NewUnreducedGuard(lhs), NewUnreducedGuard(rhs))
    case Binary(OR, lhs, rhs) => Or(NewUnreducedGuard(lhs), NewUnreducedGuard(rhs))
    case Binary(op, lhs, rhs) => NewBinaryExprGuard(op, lhs, rhs)
    case _ => Everything
  }

  // ---- matching ------------------------------------------------------------------------

  predicate TagPasses(equal: bool, text: string, x: string) { if equal then x == text else x != text }

  predicate Matches(g: ExprGuard, pt: Point)
  {
    match g
    case Everything => true
    case Nothing => false
    case And(l, r) => Matches(l, pt) && Matches(r, pt)
    case Or(l, r) => Matches(l, pt) || Matches(r, pt)
    case TagMatches(meas, key, equal, text) =>
      if meas then TagPasses(equal, text, pt.name)
      else exists i :: 0 <= i < |pt.tags| && pt.tags[i].key == key && TagPasses(equal, text, pt.tags[i].value)
    case TagExists(keys) => exists i :: 0 <= i < |pt.tags| && pt.tags[i].key in keys
  }

  /** Pruning keeps the meaning: the compiled guard matches exactly the points the full tree matches. */
  lemma {:induction false} ReductionPreservesMatches(expr: Expr, pt: Point)
    ensures Matches(NewExprGuard(expr), pt) <==> Matches(NewUnreducedGuard(expr), pt)
  {
    match expr
    case Paren(inner) => ReductionPreservesMatches(inner, pt);
    case Binary(op, lhs, rhs) =>
      if op == AND || op == OR {
        ReductionPreservesMatches(lhs, pt);
        ReductionPreservesMatches(rhs, pt);
      }
    case _ =>
  }

  /** A pruned guard is nil, the zero value, or a tree in which neither occurs. */
  predicate Pruned(g: ExprGuard)
    decreases g, 0
  {
    match g
    case And(l, r) => Solid(l) && Solid(r)
    case Or(l, r) => Solid(l) && Solid(r)
    case _ => true
  }

  predicate Solid(g: ExprGuard)
    decreases g, 1
  {
    !g.Everything? && !g.Nothing? && Pruned(g)
  }

  lemma {:induction false} CompiledGuardIsPruned(expr: Expr)
    ensures Pruned(NewExprGuard(expr))
  {
    match expr
    case Paren(inner) => CompiledGuardIsPruned(inner);
    case Binary(op, lhs, rhs) =>
      if op == AND || op == OR {
        CompiledGuardIsPruned(lhs);
        CompiledGuardIsPruned(rhs);
      }
    case _ =>
  }

  // ---- what the delete's condition selects ----------------------------------------------

  /** Value of a tag, as Tags.Get gives it: the first tag with that key. */
  function TagValue(tags: seq<Tag>, key: string): (v: Option<string>)
    ensures v.Some? ==> Tag(key, v.value) in tags
    ensures v.None? ==> forall t :: t in tags ==> t.key != key
  {
    if tags == [] then None
    else if tags[0].key == key then Some(tags[0].value)
    else TagValue(tags[1..], key)
  }

  /** Value of a name in a condition; a tag the point does not carry reads as the empty string. */
  function Value(pt: Point, key: string): string
  {
    if key == "_name" then pt.name
    else match TagValue(pt.tags, key) case Some(v) => v case None => ""
  }

  /** How conditions are evaluated where the compiler gives up or approximates: `compare` decides
      any comparison other than a tag (or the measurement) against a string with = or !=,
      and `other` any expression the compiler does not take apart. */
  datatype Semantics = Semantics(compare: (Op, Expr, Expr, Point) -> bool, other: (Expr, Point) -> bool)

  predicate Selects(sem: Semantics, expr: Expr, pt: Point)
  {
    match expr
    case Paren(inner) => Selects(sem, inner, pt)
    case BooleanLiteral(truth) => truth
    case Binary(AND, lhs, rhs) => Selects(sem, lhs, pt) && Selects(sem, rhs, pt)
    case Binary(OR, lhs, rhs) => Selects(sem, lhs, pt) || Selects(sem, rhs, pt)
    case Binary(op, lhs, rhs) =>
      if lhs.VarRef? && rhs.StringLiteral? && (op == EQ || op == NEQ)
      then TagPasses(op == EQ, rhs.text, Value(pt, lhs.name))
      else if lhs.StringLiteral? && rhs.VarRef? && (op == EQ || op == NEQ)
      then TagPasses(op == EQ, lhs.text, Value(pt, rhs.name))
      else sem.compare(op, lhs, rhs, pt)
    case _ => sem.other(expr, pt)
  }

  predicate Carries(pt: Point, key: string) { TagValue(pt.tags, key).Some? }

  /** Whether a comparison of `key` with `value` is safe to filter on for this point: the tag is there, or its
      absence does not satisfy the comparison. */
  predicate SafeOn(pt: Point, op: Op, key: string, refType: RefType, value: Expr)
  {
    if key != "_name" && refType == OtherRef then true
    else match value
      case StringLiteral(text) =>
        (op != EQ && op != NEQ) || key == "_name" || Carries(pt, key) || !TagPasses(op == EQ, text, "")
      case RegexLiteral(_) => Carries(pt, key)
      case VarRef(other, _) => key == "_name" || other == "_name" || Carries(pt, key) || Carries(pt, other)
      case _ => true
  }

  predicate SafeLeaf(pt: Point, op: Op, lhs: Expr, rhs: Expr)
  {
    if lhs.Binary? || rhs.Binary? then true
    else if lhs.VarRef? then SafeOn(pt, op, lhs.name, lhs.refType, rhs)
    else if rhs.VarRef? then SafeOn(pt, op, rhs.name, rhs.refType, lhs)
    else true
  }

  predicate Safe(pt: Point, expr: Expr)
  {
    match expr
    case Paren(inner) => Safe(pt, inner)
    case Binary(op, lhs, rhs) => if op == AND || op == OR then Safe(pt, lhs) && Safe(pt, rhs) else SafeLeaf(pt, op, lhs, rhs)
    case _ => true
  }

  /** Every tag the condition compares is on the point, and no regex is applied to the measurement. */
  predicate Filterable(expr: Expr, pt: Point)
  {
    match expr
    case Paren(inner) => Filterable(inner, pt)
    case Binary(op, lhs, rhs) =>
      if op == AND || op == OR then Filterable(lhs, pt) && Filterable(rhs, pt)
      else
        && (lhs.VarRef? && lhs.name != "_name" ==> Carries(pt, lhs.name))
        && (rhs.VarRef? && rhs.name != "_name" ==> Carries(pt, rhs.name))
        && !(lhs.VarRef? && lhs.name == "_name" && rhs.RegexLiteral?)
        && !(rhs.VarRef? && rhs.name == "_name" && lhs.RegexLiteral?)
    case _ => true
  }

  lemma {:induction false} FilterableIsSafe(expr: Expr, pt: Point)
    requires Filterable(expr, pt)
    ensures Safe(pt, expr)
  {
    match expr
    case Paren(inner) => FilterableIsSafe(inner, pt);
    case Binary(op, lhs, rhs) =>
      if op == AND || op == OR {
        FilterableIsSafe(lhs, pt);
        FilterableIsSafe(rhs, pt);
      }
    case _ =>
  }

  lemma CarriedTag(pt: Point, key: string)
    ensures Carries(pt, key) <==> exists i :: 0 <= i < |pt.tags| && pt.tags[i].key == key
    ensures Carries(pt, key) ==> exists i :: 0 <= i < |pt.tags| && pt.tags[i] == Tag(key, TagValue(pt.tags, key).value)
  {
  }

  /** However conditions are evaluated, a point the expression selects is matched by the compiled guard. */
  ghost predicate Conservative(expr: Expr, pt: Point)
  {
    forall sem :: Selects(sem, expr, pt) ==> Matches(NewExprGuard(expr), pt)
  }

  function Permissive(): Semantics { Semantics((op, lhs, rhs, pt) => true, (expr, pt) => true) }

  lemma LeafIsConservative(op: Op, lhs: Expr, rhs: Expr, pt: Point)
    requires op != AND && op != OR
    ensures Conservative(Binary(op, lhs, rhs), pt) <==> SafeLeaf(pt, op, lhs, rhs)
  {
    var e := Binary(op, lhs, rhs);
    if lhs.VarRef? { CarriedTag(pt, lhs.name); }
    if rhs.VarRef? { CarriedTag(pt, rhs.name); }
    if SafeLeaf(pt, op, lhs, rhs) {
      forall sem | Selects(sem, e, pt) ensures Matches(NewExprGuard(e), pt) { SafeLeafMatches(sem, op, lhs, rhs, pt); }
    } else {
      assert Selects(Permissive(), e, pt);
    }
  }

  lemma SafeLeafMatches(sem: Semantics, op: Op, lhs: Expr, rhs: Expr, pt: Point)
    requires op != AND && op != OR && SafeLeaf(pt, op, lhs, rhs) && Selects(sem, Binary(op, lhs, rhs), pt)
    ensures Matches(NewBinaryExprGuard(op, lhs, rhs), pt)
  {
    if lhs.VarRef? { CarriedTag(pt, lhs.name); }
    if rhs.VarRef? { CarriedTag(pt, rhs.name); }
  }

  /** Conservative, and so is every part of the expression. */
  ghost predicate ConservativeThroughout(expr: Expr, pt: Point)
  {
    && Conservative(expr, pt)
    && match expr
       case Paren(inner) => ConservativeThroughout(inner, pt)
       case Binary(op, lhs, rhs) =>
         op == AND || op == OR ==> ConservativeThroughout(lhs, pt) && ConservativeThroughout(rhs, pt)
       case _ => true
  }

  /** A guard errs on the side of blocking, in every part of its expression, exactly when every comparison in
      it is safe on the point. */
  lemma {:induction false} GuardIsConservative(expr: Expr, pt: Point)
    ensures ConservativeThroughout(expr, pt) <==> Safe(pt, expr)
  {
    hide SafeLeaf;
    match expr
    case Paren(inner) =>
      GuardIsConservative(inner, pt);
      if Conservative(inner, pt) {
        forall sem | Selects(sem, expr, pt) ensures Matches(NewExprGuard(expr), pt) { assert Selects(sem, inner, pt); }
      }
    case Binary(op, lhs, rhs) =>
      if op == AND || op == OR {
        GuardIsConservative(lhs, pt);
        GuardIsConservative(rhs, pt);
        if Conservative(lhs, pt) && Conservative(rhs, pt) {
          forall sem | Selects(sem, expr, pt) ensures Matches(NewExprGuard(expr), pt) {
            assert Selects(sem, lhs, pt) ==> Matches(NewExprGuard(lhs), pt);
            assert Selects(sem, rhs, pt) ==> Matches(NewExprGuard(rhs), pt);
          }
        }
      } else {
        LeafIsConservative(op, lhs, rhs, pt);
      }
    case _ =>
  }

  // ---- exactly ----------------------------------------------------------------------------------

  /** The point has one tag of the key. */
  ghost predicate CarriesOnce(pt: Point, key: string)
  {
    && Carries(pt, key)
    && forall i, j :: 0 <= i < j < |pt.tags| ==> !(pt.tags[i].key == key && pt.tags[j].key == key)
  }

  ghost predicate ExactOn(pt: Point, key: string, refType: RefType) { key == "_name" || (refType != OtherRef && CarriesOnce(pt, key)) }

  /** Nothing but tests of the measurement and of tags the point carries once, with = and !=, against strings. */
  ghost predicate Exact(expr: Expr, pt: Point)
  {
    match expr
    case Paren(inner) => Exact(inner, pt)
    case BooleanLiteral(_) => true
    case Binary(op, lhs, rhs) =>
      if op == AND || op == OR then Exact(lhs, pt) && Exact(rhs, pt)
      else
        && (op == EQ || op == NEQ)
        && ((lhs.VarRef? && rhs.StringLiteral? && ExactOn(pt, lhs.name, lhs.refType))
            || (lhs.StringLiteral? && rhs.VarRef? && ExactOn(pt, rhs.name, rhs.refType)))
    case _ => false
  }

  lemma TestIsExact(pt: Point, key: string, refType: RefType, equal: bool, text: string)
    requires ExactOn(pt, key, refType)
    ensures Matches(TagMatches(key == "_name", key, equal, text), pt) <==> if equal then Value(pt, key) == text else Value(pt, key) != text
  {
    if key != "_name" {
      CarriedTag(pt, key);
      var i :| 0 <= i < |pt.tags| && pt.tags[i] == Tag(key, TagValue(pt.tags, key).value);
    }
  }

  /** On such an expression the guard matches exactly the points it selects: it blocks no other write. */
  lemma {:induction false} GuardIsExact(sem: Semantics, expr: Expr, pt: Point)
    requires Exact(expr, pt)
    ensures Matches(NewExprGuard(expr), pt) <==> Selects(sem, expr, pt)
  {
    match expr
    case Paren(inner) => GuardIsExact(sem, inner, pt);
    case Binary(op, lhs, rhs) =>
      if op == AND || op == OR {
        GuardIsExact(sem, lhs, pt);
        GuardIsExact(sem, rhs, pt);
      } else if lhs.VarRef? {
        TestIsExact(pt, lhs.name, lhs.refType, op == EQ, rhs.text);
      } else {
        TestIsExact(pt, rhs.name, rhs.refType, op == EQ, lhs.text);
      }
    case _ =>
  }

  /** A test the guard cannot do itself asks only for the tags: for the one a regular expression is applied to, or for
      one of two that are compared with each other. */
  lemma ExistenceIsExact(op: Op, key: string, refType: RefType, value: Expr, pt: Point)
    requires key == "_name" || refType != OtherRef
    ensures value.RegexLiteral? ==>
      (Matches(NewLeaf(op, key, refType, value), pt) <==> exists i :: 0 <= i < |pt.tags| && pt.tags[i].key == key)
    ensures value.VarRef? && key != "_name" && value.name != "_name" ==>
      (Matches(NewLeaf(op, key, refType, value), pt) <==>
       exists i :: 0 <= i < |pt.tags| && (pt.tags[i].key == key || pt.tags[i].key == value.name))
  {
  }

  /** Two comparisons that are not safe: a != test on a missing tag, and a regex on _name. */
  lemma GuardCanMiss(sem: Semantics)
    ensures var pt := Point("cpu", [], 0);
      var expr := Binary(NEQ, VarRef("host", Unknown), StringLiteral("a"));
      Selects(sem, expr, pt) && !Matches(NewExprGuard(expr), pt)
    ensures var pt := Point("cpu", [], 0);
      var expr := Binary(OtherOp(0), VarRef("_name", Unknown), RegexLiteral("c.*"));
      sem.compare(OtherOp(0), expr.lhs, expr.rhs, pt) ==>
        Selects(sem, expr, pt) && !Matches(NewExprGuard(expr), pt)
  {
    assert TagValue([], "host") == None;
    assert "" != "a";
  }

  // ---- the guard of one delete ------------------------------------------------------------

  /** A nil expression matches everything; an empty name set matches every measurement. */
  datatype Guard = Guard(min: int, max: int, names: set<string>, expr: ExprGuard)

  function NewGuard(min: int, max: int, names: seq<string>, expr: Option<Expr>): (g: Guard)
  {
    Guard(min, max, set n | n in names, if expr.Some? then NewExprGuard(expr.value) else Everything)
  }

  predicate MatchesPoint(g: Guard, pt: Point)
  {
    && g.min <= pt.time <= g.max
    && (g.names == {} || pt.name in g.names)
    && Matches(g.expr, pt)
  }

  predicate MatchesAny(g: Guard, points: seq<Point>)
  {
    exists i :: 0 <= i < |points| && MatchesPoint(g, points[i])
  }

  /** guard.Matches; a nil guard matches any write. */
  method GuardMatches(g: Option<Guard>, points: seq<Point>) returns (found: bool)
    ensures found <==> (g.None? || MatchesAny(g.value, points))
  {
    if g.None? {
      return true;
    }
    for i := 0 to |points|
      invariant forall j :: 0 <= j < i ==> !MatchesPoint(g.value, points[j])
    {
      var pt := points[i];
      if pt.time < g.value.min || pt.time > g.value.max {
        continue;
      }
      if |g.value.names| == 0 && Matches(g.value.expr, pt) {
        return true;
      } else if pt.name in g.value.names && Matches(g.value.expr, pt) {
        return true;
      }
    }
    return false;
  }

  /** And where its condition is exact, it blocks no other. */
  lemma OnlyDeletedPointsAreGuarded(sem: Semantics, min: int, max: int, names: seq<string>, expr: Expr, points: seq<Point>)
    requires forall i :: 0 <= i < |points| ==> Exact(expr, points[i])
    ensures MatchesAny(NewGuard(min, max, names, Some(expr)), points) <==>
      exists i :: 0 <= i < |points| && min <= points[i].time <= max && (names == [] || points[i].name in names)
        && Selects(sem, expr, points[i])
  {
    var g := NewGuard(min, max, names, Some(expr));
    assert names != [] ==> names[0] in g.names;
    forall i | 0 <= i < |points|
      ensures MatchesPoint(g, points[i]) <==>
        min <= points[i].time <= max && (names == [] || points[i].name in names) && Selects(sem, expr, points[i])
    {
      GuardIsExact(sem, expr, points[i]);
    }
  }

  /** Without a condition, a write is blocked exactly if it holds a point in the time range, of a listed measurement. */
  lemma UnconditionalDeleteGuardsAll(min: int, max: int, names: seq<string>, points: seq<Point>)
    ensures MatchesAny(NewGuard(min, max, names, None), points) <==>
      exists i :: 0 <= i < |points| && min <= points[i].time <= max && (names == [] || points[i].name in names)
  {
    var g := NewGuard(min, max, names, None);
    assert names != [] ==> names[0] in g.names;
    assert forall i :: 0 <= i < |points| ==>
      (MatchesPoint(g, points[i]) <==> min <= points[i].time <= max && (names == [] || points[i].name in names));
  }

  /** A delete blocks every write holding a point it is about to remove. */
  lemma DeletedPointsAreGuarded(sem: Semantics, min: int, max: int, names: seq<string>, expr: Expr, points: seq<Point>, i: nat)
    requires i < |points|
    requires min <= points[i].time <= max && (names == [] || points[i].name in names)
    requires Safe(points[i], expr) && Selects(sem, expr, points[i])
    ensures MatchesAny(NewGuard(min, max, names, Some(expr)), points)
  {
    GuardIsConservative(expr, points[i]);
    assert MatchesPoint(NewGuard(min, max, names, Some(expr)), points[i]);
  }
}
