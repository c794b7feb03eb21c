/** A small SQL: WHERE clauses with positional `?` placeholders, their binding to a parameter list and
    their meaning over the event and tag tables. Comparisons with NULL are not true; there is no NOT,
    so nothing else of three-valued logic can be observed. */
module Sql {
  import opened Text
  import opened Tables

  datatype Value = Null | BlobVal(b: Blob) | TextVal(s: string) | IntVal(n: nat)

  datatype Operand = Hole | Lit(v: Value)

  /** Columns of `event e`; inside a tag subquery the names resolve to `tag t` first. */
  datatype Column = EventHash | Author | Kind | CreatedAt | ExpiresAt | Hidden | Name | TagValue

  datatype Op = Eq | Ne | Ge | Le | Gt

  datatype Expr =
    | False
    | Compare(col: Column, op: Op, rhs: Operand)
    | InList(col: Column, items: seq<Operand>)
    | IsNull(col: Column)
    | Conj(l: Expr, r: Expr)
    | Disj(l: Expr, r: Expr)
    | IdInTags(where: Expr)  // e.id IN (SELECT t.event_id FROM tag t WHERE (where))

  datatype Order = Unordered | NewestFirst | OldestFirst

  datatype Query = Query(where: Expr, order: Order, limit: Option<nat>)

  // ----- placeholders -----

  function HolesIn(items: seq<Operand>): nat {
    if items == [] then 0
    else HolesIn(items[..|items| - 1]) + if items[|items| - 1].Hole? then 1 else 0
  }

  function Holes(e: Expr): nat {
    match e
    case False => 0
    case Compare(_, _, rhs) => if rhs.Hole? then 1 else 0
    case InList(_, items) => HolesIn(items)
    case IsNull(_) => 0
    case Conj(l, r) => Holes(l) + Holes(r)
    case Disj(l, r) => Holes(l) + Holes(r)
    case IdInTags(where) => Holes(where)
  }

  function BindItems(items: seq<Operand>, params: seq<Value>): seq<Operand>
    requires |params| == HolesIn(items)
  {
    if items == [] then []
    else
      var init, last := items[..|items| - 1], items[|items| - 1];
      BindItems(init, params[..HolesIn(init)]) +
      [if last.Hole? then Lit(params[HolesIn(init)]) else last]
  }

  /** Placeholders take the parameters in the order they are written. */
  function Bind(e: Expr, params: seq<Value>): Expr
    requires |params| == Holes(e)
  {
    match e
    case False => False
    case Compare(col, op, rhs) => Compare(col, op, if rhs.Hole? then Lit(params[0]) else rhs)
    case InList(col, items) => InList(col, BindItems(items, params))
    case IsNull(col) => IsNull(col)
    case Conj(l, r) => Conj(Bind(l, params[..Holes(l)]), Bind(r, params[Holes(l)..]))
    case Disj(l, r) => Disj(Bind(l, params[..Holes(l)]), Bind(r, params[Holes(l)..]))
    case IdInTags(where) => IdInTags(Bind(where, params))
  }

  /** Columns the compiler compares with numbers it writes into the text itself. */
  predicate TakesNumbers(c: Column) {
    c == Kind || c == CreatedAt || c == Hidden
  }

  /** Every identity, tag name, tag value and clock reading is a placeholder, never text. */
  predicate Parameterised(e: Expr) {
    match e
    case False => true
    case Compare(col, _, rhs) => TakesNumbers(col) || rhs.Hole?
    case InList(col, items) => TakesNumbers(col) || forall o :: o in items ==> o.Hole?
    case IsNull(_) => true
    case Conj(l, r) => Parameterised(l) && Parameterised(r)
    case Disj(l, r) => Parameterised(l) && Parameterised(r)
    case IdInTags(where) => Parameterised(where)
  }

  // ----- joined lists of conditions -----

  function HolesAll(es: seq<Expr>): nat {
    if es == [] then 0 else HolesAll(es[..|es| - 1]) + Holes(es[|es| - 1])
  }

  function BindAll(es: seq<Expr>, params: seq<Value>): seq<Expr>
    requires |params| == HolesAll(es)
  {
    if es == [] then []
    else
      var init := es[..|es| - 1];
      BindAll(init, params[..HolesAll(init)]) + [Bind(es[|es| - 1], params[HolesAll(init)..])]
  }

  /** `base AND e1 AND ... AND en`. */
  function ConjAll(base: Expr, es: seq<Expr>): Expr {
    if es == [] then base else Conj(ConjAll(base, es[..|es| - 1]), es[|es| - 1])
  }

  /** `e1 OR ... OR en`. */
  function DisjAll(es: seq<Expr>): Expr {
    if es == [] then False
    else if |es| == 1 then es[0]
    else Disj(DisjAll(es[..|es| - 1]), es[|es| - 1])
  }

  /** The conditions are parameterised and, bound to exactly these parameters, are these closed ones. */
  ghost predicate Binds(es: seq<Expr>, params: seq<Value>, closed: seq<Expr>) {
    HolesAll(es) == |params| && BindAll(es, params) == closed && forall e :: e in es ==> Parameterised(e)
  }

  lemma BindsSnoc(es: seq<Expr>, params: seq<Value>, closed: seq<Expr>, e: Expr, more: seq<Value>)
    requires Binds(es, params, closed) && Holes(e) == |more| && Parameterised(e)
    ensures Binds(es + [e], params + more, closed + [Bind(e, more)])
  {
    assert (es + [e])[..|es|] == es;
    assert (params + more)[..|params|] == params;
    assert (params + more)[|params|..] == more;
  }

  lemma {:induction false} ConjAllBinds(base: Expr, es: seq<Expr>, params: seq<Value>, closed: seq<Expr>)
    requires Holes(base) == 0 && Parameterised(base) && Binds(es, params, closed)
    ensures Holes(ConjAll(base, es)) == |params| && Parameterised(ConjAll(base, es))
    ensures Bind(ConjAll(base, es), params) == ConjAll(Bind(base, []), closed)
  {
    if es == [] {
      assert params == [];
    } else {
      var init, n := es[..|es| - 1], HolesAll(es[..|es| - 1]);
      var done := BindAll(init, params[..n]);
      ConjAllBinds(base, init, params[..n], done);
      assert closed[..|closed| - 1] == done;
    }
  }

  /** `e AND e1 AND ... AND en` where only `e` has placeholders. */
  lemma {:induction false} ConjAllBindsBase(base: Expr, es: seq<Expr>, params: seq<Value>)
    requires Holes(base) == |params| && Parameterised(base)
    requires forall e :: e in es ==> Holes(e) == 0 && Parameterised(e) && Bind(e, []) == e
    ensures Holes(ConjAll(base, es)) == |params| && Parameterised(ConjAll(base, es))
    ensures Bind(ConjAll(base, es), params) == ConjAll(Bind(base, params), es)
  {
    if es == [] {
    } else {
      var init := es[..|es| - 1];
      ConjAllBindsBase(base, init, params);
      assert params[..|params|] == params && params[|params|..] == [];
    }
  }

  lemma {:induction false} DisjAllBinds(es: seq<Expr>, params: seq<Value>, closed: seq<Expr>)
    requires Binds(es, params, closed)
    ensures Holes(DisjAll(es)) == |params| && Parameterised(DisjAll(es))
    ensures Bind(DisjAll(es), params) == DisjAll(closed)
  {
    BindAllLength(es, params);
    if |es| == 1 {
      assert es[..0] == [] && params[0..] == params;
    } else if es != [] {
      var init, n := es[..|es| - 1], HolesAll(es[..|es| - 1]);
      var done := BindAll(init, params[..n]);
      DisjAllBinds(init, params[..n], done);
      assert closed[..|closed| - 1] == done;
    }
  }

  lemma {:induction false} BindAllLength(es: seq<Expr>, params: seq<Value>)
    requires |params| == HolesAll(es)
    ensures |BindAll(es, params)| == |es|
  {
    if es == [] {
    } else {
      BindAllLength(es[..|es| - 1], params[..HolesAll(es[..|es| - 1])]);
    }
  }

  // ----- meaning -----

  datatype Scope = OnEvent(r: EventRow) | OnTag(t: TagRow)

  function IntOrNull(n: Option<nat>): Value {
    match n
    case None => Null
    case Some(v) => IntVal(v)
  }

  function ColumnOf(s: Scope, c: Column): Value {
    match s
    case OnEvent(r) => (
      match c
      case EventHash => BlobVal(r.hash)
      case Author => BlobVal(r.author)
      case Kind => IntVal(r.kind)
      case CreatedAt => IntVal(r.createdAt)
      case ExpiresAt => IntOrNull(r.expiresAt)
      case Hidden => IntVal(if r.hidden then 1 else 0)
      case Name => Null
      case TagValue => Null)
    case OnTag(t) => (
      match c
      case Kind => IntVal(t.kind)
      case CreatedAt => IntVal(t.createdAt)
      case Name => TextVal(t.name)
      case TagValue => TextVal(t.value)
      case _ => Null)
  }

  function OperandValue(o: Operand): Value {
    match o
    case Hole => Null  // an unbound parameter is NULL
    case Lit(v) => v
  }

  predicate Holds(a: Value, op: Op, b: Value) {
    !a.Null? && !b.Null? &&
    match op
    case Eq => a == b
    case Ne => a != b
    case Ge => a.IntVal? && b.IntVal? && a.n >= b.n
    case Le => a.IntVal? && b.IntVal? && a.n <= b.n
    case Gt => a.IntVal? && b.IntVal? && a.n > b.n
  }

  predicate Eval(e: Expr, s: Scope, tags: seq<TagRow>) {
    match e
    case False => false
    case Compare(col, op, rhs) => Holds(ColumnOf(s, col), op, OperandValue(rhs))
    case InList(col, items) => exists o :: o in items && Holds(ColumnOf(s, col), Eq, OperandValue(o))
    case IsNull(col) => ColumnOf(s, col).Null?
    case Conj(l, r) => Eval(l, s, tags) && Eval(r, s, tags)
    case Disj(l, r) => Eval(l, s, tags) || Eval(r, s, tags)
    case IdInTags(where) => s.OnEvent? && exists t :: t in tags && t.eventId == s.r.id && Eval(where, OnTag(t), tags)
  }

  /** Every condition of a list holds. */
  predicate EvalEach(es: seq<Expr>, s: Scope, tags: seq<TagRow>) {
    forall i :: 0 <= i < |es| ==> Eval(es[i], s, tags)
  }

  predicate EvalSome(es: seq<Expr>, s: Scope, tags: seq<TagRow>) {
    exists i :: 0 <= i < |es| && Eval(es[i], s, tags)
  }

  lemma {:induction false} EvalConjAll(base: Expr, es: seq<Expr>, s: Scope, tags: seq<TagRow>)
    ensures Eval(ConjAll(base, es), s, tags) <==> Eval(base, s, tags) && EvalEach(es, s, tags)
  {
    if es == [] {
    } else {
      var init, last := es[..|es| - 1], es[|es| - 1];
      EvalConjAll(base, init, s, tags);
      assert EvalEach(es, s, tags) <==> EvalEach(init, s, tags) && Eval(last, s, tags) by {
        assert forall i :: 0 <= i < |init| ==> init[i] == es[i];
      }
    }
  }

  lemma {:induction false} EvalDisjAll(es: seq<Expr>, s: Scope, tags: seq<TagRow>)
    ensures Eval(DisjAll(es), s, tags) <==> EvalSome(es, s, tags)
  {
    if |es| <= 1 {
    } else {
      var init, last := es[..|es| - 1], es[|es| - 1];
      EvalDisjAll(init, s, tags);
      assert EvalSome(es, s, tags) <==> EvalSome(init, s, tags) || Eval(last, s, tags) by {
        assert forall i :: 0 <= i < |init| ==> init[i] == es[i];
      }
    }
  }

  // ----- whole queries -----

  /** Rows the WHERE clause lets through, in rowid order. */
  function Matching(where: Expr, events: seq<EventRow>, tags: seq<TagRow>): seq<EventRow> {
    if events == [] then []
    else
      var last := events[|events| - 1];
      Matching(where, events[..|events| - 1], tags) + (if Eval(where, OnEvent(last), tags) then [last] else [])
  }

  lemma {:induction false} MatchingMembers(where: Expr, events: seq<EventRow>, tags: seq<TagRow>)
    ensures forall r :: r in Matching(where, events, tags) <==> r in events && Eval(where, OnEvent(r), tags)
  {
    if events == [] {
    } else {
      var init := events[..|events| - 1];
      MatchingMembers(where, init, tags);
      assert events == init + [events[|events| - 1]];
    }
  }

  ghost predicate Sorted(order: Order, rows: seq<EventRow>) {
    match order
    case Unordered => true
    case NewestFirst => forall i, j :: 0 <= i < j < |rows| ==> rows[i].createdAt >= rows[j].createdAt
    case OldestFirst => forall i, j :: 0 <= i < j < |rows| ==> rows[i].createdAt <= rows[j].createdAt
  }

  function Taken(limit: Option<nat>, size: nat): nat {
    if limit.Some? && limit.value < size then limit.value else size
  }

  /** A LIMIT that is no SQLite integer is a datatype mismatch when the query runs. */
  predicate LimitFits(q: Query) {
    q.limit.Some? ==> q.limit.value <= I64_MAX
  }

  /** `out` is an answer SQL may give to ORDER BY and LIMIT over these rows; ties are left open. */
  ghost predicate IsAnswer(q: Query, rows: seq<EventRow>, out: seq<EventRow>) {
    LimitFits(q) &&
    exists all :: multiset(all) == multiset(rows) && |all| == |rows| && Sorted(q.order, all) &&
      out == all[..Taken(q.limit, |all|)]
  }
}
