/** Compiling a filter to SQL (`query_from_filter`, src/repo/sqlite.rs). The reference is a list of
    closed conditions, each holding its own values; the compiler emits placeholders and one flat
    parameter list. */
module Queries {
  import opened Text
  import opened Filters
  import opened Sorting
  import opened Sql

  // ----- the closed conditions -----

  /** `hex::decode(..).ok()` as a parameter. */
  function BlobParam(s: string): Value {
    match HexDecode(s)
    case None => Null
    case Some(b) => BlobVal(b)
  }

  function BlobParams(xs: seq<string>): seq<Value> {
    seq(|xs|, i requires 0 <= i < |xs| => BlobParam(xs[i]))
  }

  function TextParams(xs: seq<string>): seq<Value> {
    seq(|xs|, i requires 0 <= i < |xs| => TextVal(xs[i]))
  }

  function Lits(vs: seq<Value>): seq<Operand> {
    seq(|vs|, i requires 0 <= i < |vs| => Lit(vs[i]))
  }

  function EqEach(col: Column, vs: seq<Value>): seq<Expr> {
    seq(|vs|, i requires 0 <= i < |vs| => Compare(col, Eq, Lit(vs[i])))
  }

  function KindIn(ks: seq<U64>): Expr {
    InList(Kind, seq(|ks|, i requires 0 <= i < |ks| => Lit(IntVal(ks[i]))))
  }

  function KindClauses(f: ReqFilter): seq<Expr> {
    if f.kinds.Some? then [KindIn(f.kinds.value)] else []
  }

  function SinceClauses(f: ReqFilter): seq<Expr> {
    if f.since.Some? then [Compare(CreatedAt, Ge, Lit(IntVal(f.since.value)))] else []
  }

  function UntilClauses(f: ReqFilter): seq<Expr> {
    if f.until.Some? then [Compare(CreatedAt, Le, Lit(IntVal(f.until.value)))] else []
  }

  /** The clauses a tag subquery repeats. */
  function Narrowing(f: ReqFilter): seq<Expr> {
    KindClauses(f) + SinceClauses(f) + UntilClauses(f)
  }

  function IdentityClauses(col: Column, xs: Option<seq<string>>): seq<Expr> {
    if xs.Some? then [DisjAll(EqEach(col, BlobParams(xs.value)))] else []
  }

  function AnyValue(c: char, vs: seq<string>, narrowing: seq<Expr>): Expr {
    IdInTags(ConjAll(
      Conj(Compare(Name, Eq, Lit(TextVal([c]))), InList(TagValue, Lits(TextParams(vs)))), narrowing))
  }

  function OneValue(c: char, v: string, narrowing: seq<Expr>): Expr {
    IdInTags(ConjAll(
      Conj(Compare(Name, Eq, Lit(TextVal([c]))), Compare(TagValue, Eq, Lit(TextVal(v)))), narrowing))
  }

  function OneValues(c: char, vs: seq<string>, narrowing: seq<Expr>): seq<Expr> {
    seq(|vs|, i requires 0 <= i < |vs| => OneValue(c, vs[i], narrowing))
  }

  function OperandClauses(c: char, op: TagOperand, narrowing: seq<Expr>): seq<Expr> {
    if op.values == {} then []
    else match op
      case Or(v) => [AnyValue(c, SortedStrings(v), narrowing)]
      case And(v) => OneValues(c, SortedStrings(v), narrowing)
  }

  function TagClauses(m: map<char, TagOperand>, keys: seq<char>, narrowing: seq<Expr>): seq<Expr>
    requires forall c :: c in keys ==> c in m
  {
    if keys == [] then []
    else
      var init, c := keys[..|keys| - 1], keys[|keys| - 1];
      TagClauses(m, init, narrowing) + OperandClauses(c, m[c], narrowing)
  }

  function AllTagClauses(f: ReqFilter, narrowing: seq<Expr>): seq<Expr> {
    if f.tags.Some? then TagClauses(f.tags.value, SortedChars(f.tags.value.Keys), narrowing) else []
  }

  function Unexpired(now: nat): Expr {
    Disj(IsNull(ExpiresAt), Compare(ExpiresAt, Gt, Lit(IntVal(now))))
  }

  const NOT_HIDDEN := Compare(Hidden, Ne, Lit(IntVal(1)))

  function Clauses(f: ReqFilter, now: nat, narrowing: seq<Expr>): seq<Expr> {
    IdentityClauses(Author, f.authors) + KindClauses(f) + IdentityClauses(EventHash, f.ids) +
    AllTagClauses(f, narrowing) + SinceClauses(f) + UntilClauses(f) + [Unexpired(now)]
  }

  /** The WHERE clause with every value in its place. */
  function Closed(f: ReqFilter, now: nat): Expr {
    if f.forceNoMatch then False else ConjAll(NOT_HIDDEN, Clauses(f, now, Narrowing(f)))
  }

  // ----- binding lemmas for the shapes the compiler emits -----

  /** `repeat_vars`. */
  function RepeatVars(n: nat): seq<Operand> {
    seq(n, _ => Hole)
  }

  lemma {:induction false} RepeatVarsBind(vs: seq<Value>)
    ensures HolesIn(RepeatVars(|vs|)) == |vs|
    ensures BindItems(RepeatVars(|vs|), vs) == Lits(vs)
  {
    if vs == [] {
    } else {
      var init := vs[..|vs| - 1];
      RepeatVarsBind(init);
      assert RepeatVars(|vs|)[..|vs| - 1] == RepeatVars(|init|);
    }
  }

  lemma {:induction false} LitsBind(items: seq<Operand>)
    requires forall o :: o in items ==> o.Lit?
    ensures HolesIn(items) == 0 && BindItems(items, []) == items
  {
    if items == [] {
    } else {
      var init, last := items[..|items| - 1], items[|items| - 1];
      LitsBind(init);
      assert last in items && items == init + [last];
    }
  }

  lemma NarrowingIsClosed(f: ReqFilter)
    ensures forall e :: e in Narrowing(f) ==> Holes(e) == 0 && Parameterised(e) && Bind(e, []) == e
  {
    forall e | e in Narrowing(f)
      ensures Holes(e) == 0 && Parameterised(e) && Bind(e, []) == e
    {
      if e in KindClauses(f) {
        LitsBind(e.items);
      } else {
        assert e in SinceClauses(f) || e in UntilClauses(f);
      }
    }
  }

  lemma AnyValueBinds(c: char, vs: seq<string>, f: ReqFilter)
    ensures
      var e := IdInTags(ConjAll(
                 Conj(Compare(Name, Eq, Hole), InList(TagValue, RepeatVars(|vs|))), Narrowing(f)));
      var params := [TextVal([c])] + TextParams(vs);
      Holes(e) == |params| && Parameterised(e) && Bind(e, params) == AnyValue(c, vs, Narrowing(f))
  {
    var base := Conj(Compare(Name, Eq, Hole), InList(TagValue, RepeatVars(|vs|)));
    var params := [TextVal([c])] + TextParams(vs);
    RepeatVarsBind(TextParams(vs));
    assert params[1..] == TextParams(vs) && params[..1] == [TextVal([c])];
    NarrowingIsClosed(f);
    ConjAllBindsBase(base, Narrowing(f), params);
  }

  lemma OneValueBinds(c: char, v: string, f: ReqFilter)
    ensures
      var e := IdInTags(ConjAll(Conj(Compare(Name, Eq, Hole), Compare(TagValue, Eq, Hole)), Narrowing(f)));
      var params := [TextVal([c]), TextVal(v)];
      Holes(e) == 2 && Parameterised(e) && Bind(e, params) == OneValue(c, v, Narrowing(f))
  {
    var base := Conj(Compare(Name, Eq, Hole), Compare(TagValue, Eq, Hole));
    var params := [TextVal([c]), TextVal(v)];
    assert params[..1] == [TextVal([c])] && params[1..] == [TextVal(v)];
    NarrowingIsClosed(f);
    ConjAllBindsBase(base, Narrowing(f), params);
  }

  // ----- the compiler -----

  /** One `col=?` per value. */
  method Searches(col: Column, xs: seq<string>) returns (clause: Expr, params: seq<Value>)
    ensures params == BlobParams(xs) && Parameterised(clause)
    ensures Holes(clause) == |params| && Bind(clause, params) == DisjAll(EqEach(col, BlobParams(xs)))
  {
    var searches: seq<Expr> := [];
    params := [];
    for i := 0 to |xs|
      invariant params == BlobParams(xs[..i])
      invariant Binds(searches, params, EqEach(col, BlobParams(xs[..i])))
      invariant |searches| == i
    {
      var more := [BlobParam(xs[i])];
      BindsSnoc(searches, params, EqEach(col, BlobParams(xs[..i])), Compare(col, Eq, Hole), more);
      assert BlobParams(xs[..i + 1]) == BlobParams(xs[..i]) + more;
      assert EqEach(col, BlobParams(xs[..i + 1])) ==
             EqEach(col, BlobParams(xs[..i])) + [Compare(col, Eq, Lit(more[0]))];
      searches := searches + [Compare(col, Eq, Hole)];
      params := params + more;
    }
    assert xs[..|xs|] == xs;
    DisjAllBinds(searches, params, EqEach(col, BlobParams(xs)));
    if xs != [] {
      clause := DisjAll(searches);
    } else {
      clause := False;
    }
  }

  /** The clauses of one tag operand, pushed after what is there. */
  method PushOperand(f: ReqFilter, c: char, op: TagOperand, comps: seq<Expr>, params: seq<Value>,
                     ghost closed: seq<Expr>)
    returns (comps': seq<Expr>, params': seq<Value>)
    requires Binds(comps, params, closed)
    ensures Binds(comps', params', closed + OperandClauses(c, op, Narrowing(f)))
  {
    comps', params' := comps, params;
    if op.values == {} {
      assert closed + [] == closed;
      return;
    }
    var sorted := SortedStrings(op.values);
    match op
    case Or(v) =>
      AnyValueBinds(c, sorted, f);
      var clause := IdInTags(ConjAll(
        Conj(Compare(Name, Eq, Hole), InList(TagValue, RepeatVars(|sorted|))), Narrowing(f)));
      var more := [TextVal([c])] + TextParams(sorted);
      BindsSnoc(comps, params, closed, clause, more);
      comps', params' := comps + [clause], params + more;
    case And(v) =>
      ghost var done: seq<Expr> := [];
      assert closed + done == closed;
      for i := 0 to |sorted|
        invariant done == OneValues(c, sorted[..i], Narrowing(f))
        invariant Binds(comps', params', closed + done)
      {
        OneValueBinds(c, sorted[i], f);
        var clause := IdInTags(ConjAll(Conj(Compare(Name, Eq, Hole), Compare(TagValue, Eq, Hole)), Narrowing(f)));
        var more := [TextVal([c]), TextVal(sorted[i])];
        BindsSnoc(comps', params', closed + done, clause, more);
        comps', params' := comps' + [clause], params' + more;
        ghost var next := OneValue(c, sorted[i], Narrowing(f));
        assert closed + done + [next] == closed + (done + [next]);
        done := done + [next];
        assert done == OneValues(c, sorted[..i + 1], Narrowing(f));
      }
      assert sorted[..|sorted|] == sorted;
  }

  method PushTags(f: ReqFilter, comps: seq<Expr>, params: seq<Value>, ghost closed: seq<Expr>)
    returns (comps': seq<Expr>, params': seq<Value>)
    requires Binds(comps, params, closed)
    ensures Binds(comps', params', closed + AllTagClauses(f, Narrowing(f)))
  {
    comps', params' := comps, params;
    if f.tags.None? {
      assert closed + [] == closed;
      return;
    }
    var m := f.tags.value;
    var keys := SortedChars(m.Keys);
    ghost var narrowing := Narrowing(f);
    ghost var done := closed;
    assert closed + [] == closed;
    for i := 0 to |keys|
      invariant Binds(comps', params', done)
      invariant done == closed + TagClauses(m, keys[..i], narrowing)
    {
      var c := keys[i];
      comps', params' := PushOperand(f, c, m[c], comps', params', done);
      TagClausesSnoc(m, keys, i, narrowing, closed);
      done := done + OperandClauses(c, m[c], narrowing);
    }
    assert keys[..|keys|] == keys;
  }

  lemma TagClausesSnoc(m: map<char, TagOperand>, keys: seq<char>, i: nat, narrowing: seq<Expr>, before: seq<Expr>)
    requires i < |keys| && forall k :: k in keys ==> k in m
    ensures before + TagClauses(m, keys[..i + 1], narrowing) ==
            before + TagClauses(m, keys[..i], narrowing) + OperandClauses(keys[i], m[keys[i]], narrowing)
  {
    assert keys[..i + 1][..i] == keys[..i];
  }

  method PushClosed(comps: seq<Expr>, params: seq<Value>, ghost closed: seq<Expr>, clauses: seq<Expr>)
    returns (comps': seq<Expr>)
    requires Binds(comps, params, closed) && |clauses| <= 1
    requires forall e :: e in clauses ==> Holes(e) == 0 && Parameterised(e) && Bind(e, []) == e
    ensures Binds(comps', params, closed + clauses)
  {
    if clauses == [] {
      assert closed + clauses == closed;
      comps' := comps;
    } else {
      BindsSnoc(comps, params, closed, clauses[0], []);
      assert params + [] == params && clauses == [clauses[0]];
      comps' := comps + clauses;
    }
  }

  method PushIdentity(col: Column, xs: Option<seq<string>>,
                      comps: seq<Expr>, params: seq<Value>, ghost closed: seq<Expr>)
    returns (comps': seq<Expr>, params': seq<Value>)
    requires Binds(comps, params, closed)
    ensures Binds(comps', params', closed + IdentityClauses(col, xs))
  {
    if xs.None? {
      assert closed + [] == closed;
      return comps, params;
    }
    var clause, more := Searches(col, xs.value);
    BindsSnoc(comps, params, closed, clause, more);
    comps', params' := comps + [clause], params + more;
  }

  /** `query_from_filter`: as many placeholders as parameters, left-to-right binding puts every value
      where the closed conditions have it, and only numbers are written into the text. */
  method QueryFromFilter(f: ReqFilter, now: nat) returns (q: Query, params: seq<Value>)
    ensures Holes(q.where) == |params|
    ensures Bind(q.where, params) == Closed(f, now)
    ensures Parameterised(q.where)
    ensures !f.forceNoMatch ==>
              q.limit == f.limit && q.order == if f.limit.Some? then NewestFirst else OldestFirst
    ensures f.forceNoMatch ==> q.limit == None && q.order == Unordered
  {
    params := [];
    if f.forceNoMatch {
      return Query(False, Unordered, None), params;
    }
    NarrowingIsClosed(f);
    SinglesAreNarrowing(f);
    var comps: seq<Expr> := [];
    ghost var c0: seq<Expr> := [];
    comps, params := PushIdentity(Author, f.authors, comps, params, c0);
    ghost var c1 := c0 + IdentityClauses(Author, f.authors);
    comps := PushClosed(comps, params, c1, KindClauses(f));
    ghost var c2 := c1 + KindClauses(f);
    comps, params := PushIdentity(EventHash, f.ids, comps, params, c2);
    ghost var c3 := c2 + IdentityClauses(EventHash, f.ids);
    comps, params := PushTags(f, comps, params, c3);
    ghost var c4 := c3 + AllTagClauses(f, Narrowing(f));
    comps := PushClosed(comps, params, c4, SinceClauses(f));
    ghost var c5 := c4 + SinceClauses(f);
    comps := PushClosed(comps, params, c5, UntilClauses(f));
    ghost var c6 := c5 + UntilClauses(f);
    var expiry := Disj(IsNull(ExpiresAt), Compare(ExpiresAt, Gt, Hole));
    BindsSnoc(comps, params, c6, expiry, [IntVal(now)]);
    ExpiryBinds(now);
    comps, params := comps + [expiry], params + [IntVal(now)];
    assert c0 + IdentityClauses(Author, f.authors) == IdentityClauses(Author, f.authors);
    ConjAllBinds(NOT_HIDDEN, comps, params, Clauses(f, now, Narrowing(f)));
    var order := if f.limit.Some? then NewestFirst else OldestFirst;
    q := Query(ConjAll(NOT_HIDDEN, comps), order, f.limit);
  }

  lemma ExpiryBinds(now: nat)
    ensures Bind(Disj(IsNull(ExpiresAt), Compare(ExpiresAt, Gt, Hole)), [IntVal(now)]) == Unexpired(now)
  {
    assert [IntVal(now)][0..] == [IntVal(now)];
  }

  lemma SinglesAreNarrowing(f: ReqFilter)
    ensures forall e :: e in KindClauses(f) || e in SinceClauses(f) || e in UntilClauses(f) ==> e in Narrowing(f)
  {
  }
}
