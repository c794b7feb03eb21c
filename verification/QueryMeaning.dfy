/** What a compiled query selects, clause by clause. */
module QueryMeaning {
  import opened Text
  import opened Events
  import opened Tables
  import opened Filters
  import opened Sorting
  import opened Sql
  import opened Queries
  import opened Store
  import opened StoreRuns

  // ----- the direct meaning of the compiled conditions on a stored row -----

  predicate DecodesToOneOf(xs: Option<seq<string>>, b: Blob) {
    xs.Some? ==> exists x :: x in xs.value && HexDecode(x) == Some(b)
  }

  predicate SqlTagMatch(f: ReqFilter, tags: seq<Tag>) {
    f.tags.Some? ==> forall c :: c in f.tags.value ==>
      f.tags.value[c].values == {} || Satisfies(tags, c, f.tags.value[c])
  }

  /** The filter as SQL understands it: whole decoded identities, empty tag sets ignored. */
  predicate SqlFilterMatch(f: ReqFilter, r: EventRow) {
    && !f.forceNoMatch
    && DecodesToOneOf(f.authors, r.author)
    && DecodesToOneOf(f.ids, r.hash)
    && KindMatch(f, r.kind)
    && SinceMatch(f, r.createdAt)
    && UntilMatch(f, r.createdAt)
    && SqlTagMatch(f, r.content.tags)
  }

  predicate Shown(r: EventRow, now: nat) {
    !r.hidden && (r.expiresAt.None? || r.expiresAt.value > now)
  }

  // ----- clause by clause -----

  lemma EvalEachAppend(a: seq<Expr>, b: seq<Expr>, s: Scope, tags: seq<TagRow>)
    ensures EvalEach(a + b, s, tags) <==> EvalEach(a, s, tags) && EvalEach(b, s, tags)
  {
    if EvalEach(a + b, s, tags) {
      assert forall i :: 0 <= i < |a| ==> a[i] == (a + b)[i];
      assert forall i :: 0 <= i < |b| ==> b[i] == (a + b)[|a| + i];
    }
  }

  lemma IdentityMeans(col: Column, xs: Option<seq<string>>, r: EventRow, tags: seq<TagRow>)
    requires col == Author || col == EventHash
    ensures EvalEach(IdentityClauses(col, xs), OnEvent(r), tags) <==>
            DecodesToOneOf(xs, if col == Author then r.author else r.hash)
  {
    if xs.Some? {
      var list := xs.value;
      var b := if col == Author then r.author else r.hash;
      var each := EqEach(col, BlobParams(list));
      EvalDisjAll(each, OnEvent(r), tags);
      forall i | 0 <= i < |list|
        ensures Eval(each[i], OnEvent(r), tags) <==> HexDecode(list[i]) == Some(b)
      {
        assert each[i] == Compare(col, Eq, Lit(BlobParam(list[i])));
      }
      if DecodesToOneOf(xs, b) {
        var x :| x in list && HexDecode(x) == Some(b);
        var i :| 0 <= i < |list| && list[i] == x;
        assert EvalSome(each, OnEvent(r), tags);
      }
      assert IdentityClauses(col, xs)[0] == DisjAll(each);
    }
  }

  lemma KindInMeans(ks: seq<U64>, s: Scope, kind: nat, tags: seq<TagRow>)
    requires ColumnOf(s, Kind) == IntVal(kind)
    ensures Eval(KindIn(ks), s, tags) <==> kind in ks
  {
    var items := KindIn(ks).items;
    if kind in ks {
      var i :| 0 <= i < |ks| && ks[i] == kind;
      assert items[i] in items && items[i] == Lit(IntVal(kind));
    }
  }

  /** The narrowing clauses read only the two columns that tag rows repeat. */
  lemma NarrowingMeans(f: ReqFilter, s: Scope, kind: nat, createdAt: nat, tags: seq<TagRow>)
    requires ColumnOf(s, Kind) == IntVal(kind) && ColumnOf(s, CreatedAt) == IntVal(createdAt)
    ensures EvalEach(KindClauses(f), s, tags) <==> KindMatch(f, kind)
    ensures EvalEach(SinceClauses(f), s, tags) <==> SinceMatch(f, createdAt)
    ensures EvalEach(UntilClauses(f), s, tags) <==> UntilMatch(f, createdAt)
    ensures EvalEach(Narrowing(f), s, tags) <==>
            KindMatch(f, kind) && SinceMatch(f, createdAt) && UntilMatch(f, createdAt)
  {
    if f.kinds.Some? {
      KindInMeans(f.kinds.value, s, kind, tags);
      assert KindClauses(f)[0] == KindIn(f.kinds.value);
    }
    if f.since.Some? {
      assert SinceClauses(f)[0] == Compare(CreatedAt, Ge, Lit(IntVal(f.since.value)));
    }
    if f.until.Some? {
      assert UntilClauses(f)[0] == Compare(CreatedAt, Le, Lit(IntVal(f.until.value)));
    }
    EvalEachAppend(KindClauses(f), SinceClauses(f), s, tags);
    EvalEachAppend(KindClauses(f) + SinceClauses(f), UntilClauses(f), s, tags);
  }

  /** The narrowing a tag subquery may carry: all of it or none. */
  predicate IsNarrowing(f: ReqFilter, narrowing: seq<Expr>) {
    narrowing == Narrowing(f) || narrowing == []
  }

  predicate NarrowingHolds(f: ReqFilter, narrowing: seq<Expr>, r: EventRow) {
    narrowing == [] || (KindMatch(f, r.kind) && SinceMatch(f, r.createdAt) && UntilMatch(f, r.createdAt))
  }

  function OnName(c: char, cond: Expr): Expr {
    Conj(Compare(Name, Eq, Lit(TextVal([c]))), cond)
  }

  /** A tag row that repeats the event's kind and time passes the subquery's clauses exactly if the
      event passes the narrowing and the row its own name and value. */
  lemma NamedTagMeans(f: ReqFilter, r: EventRow, c: char, cond: Expr, narrowing: seq<Expr>, t: TagRow,
                      tags: seq<TagRow>)
    requires IsNarrowing(f, narrowing) && t.kind == r.kind && t.createdAt == r.createdAt
    ensures Eval(ConjAll(OnName(c, cond), narrowing), OnTag(t), tags) <==>
            NarrowingHolds(f, narrowing, r) && t.name == [c] && Eval(cond, OnTag(t), tags)
  {
    EvalConjAll(OnName(c, cond), narrowing, OnTag(t), tags);
    if narrowing == Narrowing(f) {
      NarrowingMeans(f, OnTag(t), r.kind, r.createdAt, tags);
    }
  }

  lemma TagRowMeans(db: Db, r: EventRow, f: ReqFilter, c: char, cond: Expr, narrowing: seq<Expr>, t: TagRow)
    requires Consistent(db) && r in db.events && IsNarrowing(f, narrowing)
    requires t in db.tags && t.eventId == r.id
    ensures Eval(ConjAll(OnName(c, cond), narrowing), OnTag(t), db.tags) <==>
            NarrowingHolds(f, narrowing, r) && t.name == [c] && Eval(cond, OnTag(t), db.tags)
    ensures t == TagRow(r.id, t.name, t.value, r.kind, r.createdAt)
  {
    TagRowsOfStored(db, r, [c], "");
    NamedTagMeans(f, r, c, cond, narrowing, t, db.tags);
  }

  /** A tag subquery whose value condition means membership in `vs`. */
  lemma TagQueryMeans(db: Db, r: EventRow, f: ReqFilter, c: char, cond: Expr, vs: seq<string>, narrowing: seq<Expr>)
    requires Consistent(db) && r in db.events && IsNarrowing(f, narrowing)
    requires forall t :: t in db.tags ==> (Eval(cond, OnTag(t), db.tags) <==> t.value in vs)
    ensures Eval(IdInTags(ConjAll(OnName(c, cond), narrowing)), OnEvent(r), db.tags) <==>
            NarrowingHolds(f, narrowing, r) && exists v :: v in vs && v in TagValues(r.content.tags, [c])
  {
    var where := ConjAll(OnName(c, cond), narrowing);
    if NarrowingHolds(f, narrowing, r) && exists v :: v in vs && v in TagValues(r.content.tags, [c]) {
      var v :| v in vs && v in TagValues(r.content.tags, [c]);
      TagRowsOfStored(db, r, [c], v);
      TagRowMeans(db, r, f, c, cond, narrowing, TagRow(r.id, [c], v, r.kind, r.createdAt));
    }
    if Eval(IdInTags(where), OnEvent(r), db.tags) {
      var t :| t in db.tags && t.eventId == r.id && Eval(where, OnTag(t), db.tags);
      TagRowMeans(db, r, f, c, cond, narrowing, t);
      TagRowsOfStored(db, r, [c], t.value);
    }
  }

  lemma AnyValueMeans(db: Db, r: EventRow, f: ReqFilter, c: char, vs: seq<string>, narrowing: seq<Expr>)
    requires Consistent(db) && r in db.events && IsNarrowing(f, narrowing)
    ensures Eval(AnyValue(c, vs, narrowing), OnEvent(r), db.tags) <==>
            NarrowingHolds(f, narrowing, r) && exists v :: v in vs && v in TagValues(r.content.tags, [c])
  {
    var items := Lits(TextParams(vs));
    forall t | t in db.tags
      ensures Eval(InList(TagValue, items), OnTag(t), db.tags) <==> t.value in vs
    {
      if t.value in vs {
        var i :| 0 <= i < |vs| && vs[i] == t.value;
        assert items[i] in items && items[i] == Lit(TextVal(t.value));
      }
    }
    TagQueryMeans(db, r, f, c, InList(TagValue, items), vs, narrowing);
  }

  lemma OneValueMeans(db: Db, r: EventRow, f: ReqFilter, c: char, v: string, narrowing: seq<Expr>)
    requires Consistent(db) && r in db.events && IsNarrowing(f, narrowing)
    ensures Eval(OneValue(c, v, narrowing), OnEvent(r), db.tags) <==>
            NarrowingHolds(f, narrowing, r) && v in TagValues(r.content.tags, [c])
  {
    TagQueryMeans(db, r, f, c, Compare(TagValue, Eq, Lit(TextVal(v))), [v], narrowing);
    assert v in [v];
  }

  /** One subquery per value: all of them hold. */
  lemma OneValuesMean(db: Db, r: EventRow, f: ReqFilter, c: char, vs: seq<string>, narrowing: seq<Expr>)
    requires Consistent(db) && r in db.events && IsNarrowing(f, narrowing) && vs != []
    ensures EvalEach(OneValues(c, vs, narrowing), OnEvent(r), db.tags) <==>
            NarrowingHolds(f, narrowing, r) && forall v :: v in vs ==> v in TagValues(r.content.tags, [c])
  {
    var each := OneValues(c, vs, narrowing);
    forall i | 0 <= i < |vs|
      ensures Eval(each[i], OnEvent(r), db.tags) <==>
              NarrowingHolds(f, narrowing, r) && vs[i] in TagValues(r.content.tags, [c])
    {
      OneValueMeans(db, r, f, c, vs[i], narrowing);
      assert vs[i] in vs;
    }
    if NarrowingHolds(f, narrowing, r) && forall v :: v in vs ==> v in TagValues(r.content.tags, [c]) {
      assert forall i :: 0 <= i < |vs| ==> vs[i] in vs;
      assert EvalEach(each, OnEvent(r), db.tags);
    }
    if EvalEach(each, OnEvent(r), db.tags) {
      assert Eval(each[0], OnEvent(r), db.tags);
      forall v | v in vs
        ensures v in TagValues(r.content.tags, [c])
      {
        var i :| 0 <= i < |vs| && vs[i] == v;
        assert Eval(each[i], OnEvent(r), db.tags);
      }
    }
  }

  lemma OperandMeans(db: Db, r: EventRow, f: ReqFilter, c: char, op: TagOperand, narrowing: seq<Expr>)
    requires Consistent(db) && r in db.events && IsNarrowing(f, narrowing)
    ensures EvalEach(OperandClauses(c, op, narrowing), OnEvent(r), db.tags) <==>
            OperandHolds(f, narrowing, r, c, op)
  {
    if op.values != {} {
      var vs := SortedStrings(op.values);
      var x :| x in op.values;
      assert x in vs;
      match op
      case Or(v) =>
        AnyValueMeans(db, r, f, c, vs, narrowing);
        assert OperandClauses(c, op, narrowing)[0] == AnyValue(c, vs, narrowing);
      case And(v) =>
        OneValuesMean(db, r, f, c, vs, narrowing);
    }
  }

  predicate OperandHolds(f: ReqFilter, narrowing: seq<Expr>, r: EventRow, c: char, op: TagOperand) {
    op.values == {} || (NarrowingHolds(f, narrowing, r) && Satisfies(r.content.tags, c, op))
  }

  lemma {:induction false} TagClausesMean(db: Db, r: EventRow, f: ReqFilter, m: map<char, TagOperand>,
                                          keys: seq<char>, narrowing: seq<Expr>)
    requires Consistent(db) && r in db.events && IsNarrowing(f, narrowing)
    requires forall c :: c in keys ==> c in m
    ensures EvalEach(TagClauses(m, keys, narrowing), OnEvent(r), db.tags) <==>
            forall c :: c in keys ==> OperandHolds(f, narrowing, r, c, m[c])
  {
    if keys == [] {
    } else {
      var init, c := keys[..|keys| - 1], keys[|keys| - 1];
      TagClausesMean(db, r, f, m, init, narrowing);
      OperandMeans(db, r, f, c, m[c], narrowing);
      EvalEachAppend(TagClauses(m, init, narrowing), OperandClauses(c, m[c], narrowing), OnEvent(r), db.tags);
      assert forall k :: k in keys <==> k in init || k == c;
    }
  }

  lemma AllTagClausesMean(db: Db, r: EventRow, f: ReqFilter, narrowing: seq<Expr>)
    requires Consistent(db) && r in db.events && IsNarrowing(f, narrowing)
    requires KindMatch(f, r.kind) && SinceMatch(f, r.createdAt) && UntilMatch(f, r.createdAt)
    ensures EvalEach(AllTagClauses(f, narrowing), OnEvent(r), db.tags) <==> SqlTagMatch(f, r.content.tags)
  {
    if f.tags.Some? {
      var m := f.tags.value;
      var keys := SortedChars(m.Keys);
      TagClausesMean(db, r, f, m, keys, narrowing);
      assert forall c :: c in keys <==> c in m;
      assert forall c :: c in m ==>
          (OperandHolds(f, narrowing, r, c, m[c]) <==> m[c].values == {} || Satisfies(r.content.tags, c, m[c]));
    }
  }

  // ----- whole queries -----

  lemma EvalEachOfSeven(a: seq<Expr>, b: seq<Expr>, c: seq<Expr>, d: seq<Expr>, e: seq<Expr>, f: seq<Expr>,
                        g: seq<Expr>, s: Scope, tags: seq<TagRow>)
    ensures EvalEach(a + b + c + d + e + f + g, s, tags) <==>
            EvalEach(a, s, tags) && EvalEach(b, s, tags) && EvalEach(c, s, tags) && EvalEach(d, s, tags) &&
            EvalEach(e, s, tags) && EvalEach(f, s, tags) && EvalEach(g, s, tags)
  {
    EvalEachAppend(a, b, s, tags);
    EvalEachAppend(a + b, c, s, tags);
    EvalEachAppend(a + b + c, d, s, tags);
    EvalEachAppend(a + b + c + d, e, s, tags);
    EvalEachAppend(a + b + c + d + e, f, s, tags);
    EvalEachAppend(a + b + c + d + e + f, g, s, tags);
  }

  lemma ClausesMean(db: Db, r: EventRow, f: ReqFilter, now: nat, narrowing: seq<Expr>)
    requires Consistent(db) && r in db.events && IsNarrowing(f, narrowing) && !f.forceNoMatch
    ensures EvalEach(Clauses(f, now, narrowing), OnEvent(r), db.tags) <==>
            SqlFilterMatch(f, r) && (r.expiresAt.None? || r.expiresAt.value > now)
  {
    var s := OnEvent(r);
    EvalEachOfSeven(IdentityClauses(Author, f.authors), KindClauses(f), IdentityClauses(EventHash, f.ids),
      AllTagClauses(f, narrowing), SinceClauses(f), UntilClauses(f), [Unexpired(now)], s, db.tags);
    IdentityMeans(Author, f.authors, r, db.tags);
    IdentityMeans(EventHash, f.ids, r, db.tags);
    NarrowingMeans(f, s, r.kind, r.createdAt, db.tags);
    if KindMatch(f, r.kind) && SinceMatch(f, r.createdAt) && UntilMatch(f, r.createdAt) {
      AllTagClausesMean(db, r, f, narrowing);
    }
    ExpiryMeans(now, r, db.tags);
  }

  lemma ExpiryMeans(now: nat, r: EventRow, tags: seq<TagRow>)
    ensures EvalEach([Unexpired(now)], OnEvent(r), tags) <==> (r.expiresAt.None? || r.expiresAt.value > now)
  {
    var s := OnEvent(r);
    assert Eval(IsNull(ExpiresAt), s, tags) <==> r.expiresAt.None?;
    assert Eval(Compare(ExpiresAt, Gt, Lit(IntVal(now))), s, tags) <==> r.expiresAt.Some? && r.expiresAt.value > now;
    assert Eval(Unexpired(now), s, tags) <==> (r.expiresAt.None? || r.expiresAt.value > now);
    assert [Unexpired(now)][0] == Unexpired(now);
  }

  lemma NotHiddenAndEach(es: seq<Expr>, r: EventRow, tags: seq<TagRow>)
    ensures Eval(ConjAll(NOT_HIDDEN, es), OnEvent(r), tags) <==> !r.hidden && EvalEach(es, OnEvent(r), tags)
  {
    EvalConjAll(NOT_HIDDEN, es, OnEvent(r), tags);
  }

  /** The compiled WHERE clause selects a stored row exactly when it is shown and matches. */
  lemma CompiledQueryMeans(db: Db, r: EventRow, f: ReqFilter, now: nat)
    requires Consistent(db) && r in db.events
    ensures Eval(Closed(f, now), OnEvent(r), db.tags) <==> Shown(r, now) && SqlFilterMatch(f, r)
  {
    if !f.forceNoMatch {
      NotHiddenAndEach(Clauses(f, now, Narrowing(f)), r, db.tags);
      ClausesMean(db, r, f, now, Narrowing(f));
    }
  }

  /** Repeating kind, since and until inside the tag subqueries never changes a result. */
  lemma NarrowingIsRedundant(db: Db, r: EventRow, f: ReqFilter, now: nat)
    requires Consistent(db) && r in db.events && !f.forceNoMatch
    ensures Eval(Closed(f, now), OnEvent(r), db.tags) <==>
            Eval(ConjAll(NOT_HIDDEN, Clauses(f, now, [])), OnEvent(r), db.tags)
  {
    CompiledQueryMeans(db, r, f, now);
    NotHiddenAndEach(Clauses(f, now, []), r, db.tags);
    ClausesMean(db, r, f, now, []);
  }
}
