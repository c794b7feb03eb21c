/** ORDER BY and LIMIT: what every answer to a compiled query has in common
    (the end of `query_from_filter`, src/repo/sqlite.rs). */
module Answers {
  import opened Text
  import opened Events
  import opened Tables
  import opened Filters
  import opened Sql
  import opened Queries
  import opened Store
  import opened StoreRuns
  import opened QueryMeaning
  import opened Agreement

  predicate Before(order: Order, a: EventRow, b: EventRow) {
    match order
    case Unordered => true
    case NewestFirst => a.createdAt >= b.createdAt
    case OldestFirst => a.createdAt <= b.createdAt
  }

  lemma MultisetSplit<T>(all: seq<T>, n: nat)
    requires n <= |all|
    ensures multiset(all) == multiset(all[..n]) + multiset(all[n..])
  {
    assert all == all[..n] + all[n..];
  }

  /** The answer has the promised size and order, takes rows no more often than they match, and
      leaves out no row that belongs before one it returns. */
  lemma AnswerIsBest(q: Query, rows: seq<EventRow>, out: seq<EventRow>)
    requires IsAnswer(q, rows, out)
    ensures |out| == Taken(q.limit, |rows|) && Sorted(q.order, out)
    ensures multiset(out) <= multiset(rows)
    ensures forall x, y :: x in multiset(rows) - multiset(out) && y in out ==> Before(q.order, y, x)
    ensures q.limit == None ==> multiset(out) == multiset(rows)
  {
    var all :| multiset(all) == multiset(rows) && |all| == |rows| && Sorted(q.order, all) &&
               out == all[..Taken(q.limit, |all|)];
    var n := Taken(q.limit, |all|);
    MultisetSplit(all, n);
    assert multiset(rows) - multiset(out) == multiset(all[n..]);
    FrontBeforeRest(q.order, all, n);
    if q.limit == None {
      assert out == all;
    }
  }

  lemma FrontBeforeRest(order: Order, all: seq<EventRow>, n: nat)
    requires n <= |all| && Sorted(order, all)
    ensures Sorted(order, all[..n])
    ensures forall x, y :: x in multiset(all[n..]) && y in all[..n] ==> Before(order, y, x)
  {
    var front, rest := all[..n], all[n..];
    forall x, y | x in multiset(rest) && y in front
      ensures Before(order, y, x)
    {
      var i :| 0 <= i < |rest| && rest[i] == x;
      var j :| 0 <= j < |front| && front[j] == y;
      assert all[n + i] == x && all[j] == y;
    }
  }

  lemma BoundOfInserted(order: Order, init: seq<EventRow>, x: EventRow, last: EventRow, s: seq<EventRow>)
    requires multiset(s) == multiset(init) + multiset{x}
    requires Before(order, x, last) && forall i :: 0 <= i < |init| ==> Before(order, init[i], last)
    ensures forall i :: 0 <= i < |s| ==> Before(order, s[i], last)
  {
    forall i | 0 <= i < |s|
      ensures Before(order, s[i], last)
    {
      assert s[i] in multiset(s);
      if s[i] != x {
        assert s[i] in multiset(init);
        var j :| 0 <= j < |init| && init[j] == s[i];
      }
    }
  }

  lemma SortedSnoc(order: Order, s: seq<EventRow>, last: EventRow)
    requires Sorted(order, s) && forall i :: 0 <= i < |s| ==> Before(order, s[i], last)
    ensures Sorted(order, s + [last]) && multiset(s + [last]) == multiset(s) + multiset{last}
  {
  }

  lemma {:induction false} InsertRow(order: Order, rows: seq<EventRow>, x: EventRow) returns (r: seq<EventRow>)
    requires Sorted(order, rows)
    ensures Sorted(order, r) && multiset(r) == multiset(rows) + multiset{x} && |r| == |rows| + 1
  {
    if rows == [] || Before(order, rows[|rows| - 1], x) {
      SortedSnoc(order, rows, x);
      r := rows + [x];
    } else {
      var init, last := rows[..|rows| - 1], rows[|rows| - 1];
      assert rows == init + [last];
      var s := InsertRow(order, init, x);
      BoundOfInserted(order, init, x, last, s);
      SortedSnoc(order, s, last);
      r := s + [last];
    }
  }

  lemma {:induction false} SortedExists(order: Order, rows: seq<EventRow>) returns (r: seq<EventRow>)
    ensures Sorted(order, r) && multiset(r) == multiset(rows) && |r| == |rows|
  {
    if rows == [] {
      r := [];
    } else {
      var init, last := rows[..|rows| - 1], rows[|rows| - 1];
      assert rows == init + [last];
      var s := SortedExists(order, init);
      r := InsertRow(order, s, last);
    }
  }

  /** There is an answer exactly if SQLite can hold the limit. */
  lemma AnswerExists(q: Query, rows: seq<EventRow>)
    ensures (exists out :: IsAnswer(q, rows, out)) <==> LimitFits(q)
  {
    if LimitFits(q) {
      var all := SortedExists(q.order, rows);
      assert IsAnswer(q, rows, all[..Taken(q.limit, |all|)]);
    }
  }

  // ----- answers differ only within ties -----

  function Times(rows: seq<EventRow>): seq<nat> {
    seq(|rows|, i requires 0 <= i < |rows| => rows[i].createdAt)
  }

  /** Rows at this time. */
  function CountAt(rows: seq<EventRow>, time: nat): nat {
    if rows == [] then 0
    else CountAt(rows[..|rows| - 1], time) + if rows[|rows| - 1].createdAt == time then 1 else 0
  }

  lemma CountSnoc(rows: seq<EventRow>, last: EventRow, time: nat)
    ensures CountAt(rows + [last], time) == CountAt(rows, time) + if last.createdAt == time then 1 else 0
  {
    assert (rows + [last])[..|rows|] == rows;
  }

  lemma {:induction false} CountWithout(rows: seq<EventRow>, i: nat, time: nat)
    requires i < |rows|
    ensures CountAt(rows, time) ==
            CountAt(rows[..i] + rows[i + 1..], time) + if rows[i].createdAt == time then 1 else 0
  {
    var less := rows[..i] + rows[i + 1..];
    if i == |rows| - 1 {
      assert less == rows[..|rows| - 1];
    } else {
      var init, last := rows[..|rows| - 1], rows[|rows| - 1];
      CountWithout(init, i, time);
      var lessInit := init[..i] + init[i + 1..];
      assert less == lessInit + [last];
      CountSnoc(lessInit, last, time);
    }
  }

  lemma WithoutLast(a: seq<EventRow>, b: seq<EventRow>) returns (i: nat)
    requires multiset(a) == multiset(b) && a != []
    ensures i < |b| && b[i] == a[|a| - 1]
    ensures multiset(b[..i] + b[i + 1..]) == multiset(a[..|a| - 1])
  {
    var init, last := a[..|a| - 1], a[|a| - 1];
    assert multiset(a) == multiset(init) + multiset{last} by {
      assert a == init + [last];
    }
    assert last in multiset(b);
    i :| 0 <= i < |b| && b[i] == last;
    assert multiset(b) == multiset(b[..i] + b[i + 1..]) + multiset{last} by {
      assert b == b[..i] + [last] + b[i + 1..];
    }
    var less := multiset(b[..i] + b[i + 1..]);
    assert less == (less + multiset{last}) - multiset{last};
    assert multiset(init) == (multiset(init) + multiset{last}) - multiset{last};
  }

  lemma {:induction false} PermutationsCountAlike(a: seq<EventRow>, b: seq<EventRow>, time: nat)
    requires multiset(a) == multiset(b)
    ensures CountAt(a, time) == CountAt(b, time)
  {
    if a == [] {
      assert |multiset(b)| == 0;
    } else {
      var i := WithoutLast(a, b);
      PermutationsCountAlike(a[..|a| - 1], b[..i] + b[i + 1..], time);
      CountWithout(b, i, time);
    }
  }

  lemma {:induction false} CountedMeansPresent(rows: seq<EventRow>, time: nat)
    ensures CountAt(rows, time) > 0 <==> exists i :: 0 <= i < |rows| && rows[i].createdAt == time
  {
    if rows == [] {
    } else {
      var init := rows[..|rows| - 1];
      CountedMeansPresent(init, time);
      if CountAt(init, time) > 0 {
        var i :| 0 <= i < |init| && init[i].createdAt == time;
        assert rows[i].createdAt == time;
      }
      if exists i :: 0 <= i < |rows| && rows[i].createdAt == time {
        var i :| 0 <= i < |rows| && rows[i].createdAt == time;
        if i < |init| {
          assert init[i].createdAt == time;
        }
      }
    }
  }

  lemma {:induction false} SortedTimesAgree(order: Order, a: seq<EventRow>, b: seq<EventRow>)
    requires order != Unordered && Sorted(order, a) && Sorted(order, b) && |a| == |b|
    requires forall t :: CountAt(a, t) == CountAt(b, t)
    ensures Times(a) == Times(b)
  {
    if a == [] {
    } else {
      var x, y := a[|a| - 1], b[|b| - 1];
      CountedMeansPresent(a, y.createdAt);
      CountedMeansPresent(b, y.createdAt);
      CountedMeansPresent(a, x.createdAt);
      CountedMeansPresent(b, x.createdAt);
      assert a[|a| - 1].createdAt == x.createdAt && b[|b| - 1].createdAt == y.createdAt;
      assert x.createdAt == y.createdAt;
      var c, d := a[..|a| - 1], b[..|b| - 1];
      forall t
        ensures CountAt(c, t) == CountAt(d, t)
      {
        assert CountAt(a, t) == CountAt(b, t);
      }
      SortedTimesAgree(order, c, d);
      assert Times(a) == Times(c) + [x.createdAt] && Times(b) == Times(d) + [y.createdAt];
    }
  }

  /** Any two answers of an ordered query list the same times: LIMIT n means the n most recent. */
  lemma AnswersAgreeOnTimes(q: Query, rows: seq<EventRow>, one: seq<EventRow>, two: seq<EventRow>)
    requires q.order != Unordered && IsAnswer(q, rows, one) && IsAnswer(q, rows, two)
    ensures Times(one) == Times(two)
  {
    var a :| multiset(a) == multiset(rows) && |a| == |rows| && Sorted(q.order, a) && one == a[..Taken(q.limit, |a|)];
    var b :| multiset(b) == multiset(rows) && |b| == |rows| && Sorted(q.order, b) && two == b[..Taken(q.limit, |b|)];
    forall t
      ensures CountAt(a, t) == CountAt(b, t)
    {
      PermutationsCountAlike(a, b, t);
    }
    SortedTimesAgree(q.order, a, b);
    assert Times(one) == Times(a)[..|one|] && Times(two) == Times(b)[..|two|];
  }

  // ----- answers of filters -----

  /** The query a filter compiles to, its parameters bound. */
  function BoundQuery(f: ReqFilter, now: nat): Query {
    if f.forceNoMatch then Query(False, Unordered, None)
    else Query(Closed(f, now), if f.limit.Some? then NewestFirst else OldestFirst, f.limit)
  }

  /** Every answer over a reachable store: everything returned is live-acceptable, and whatever is
      live-acceptable, shown and stored is returned unless the limit is used up by rows as new. */
  lemma AnswersAreTheLiveMatches(steps: seq<Step>, f: ReqFilter, now: nat, out: seq<EventRow>, r: EventRow, e: Event)
    requires IsRun(steps) && WholeFilter(f)
    requires IsAnswer(BoundQuery(f, now), Matching(BoundQuery(f, now).where, Run(steps).events, Run(steps).tags), out)
    requires r in Run(steps).events && HasIdentity(e) && SameRow(r, NewRow(r.id, e))
    requires Indexed(e) && HasDelegator(e) && SpeaksAsAuthor(e)
    ensures r in out ==> !r.hidden && !IsExpired(e, now) && (EmptySetsHeld(f, e) <==> InterestedInEvent(f, e))
    ensures !r.hidden && !IsExpired(e, now) && InterestedInEvent(f, e) && r !in out ==>
              f.limit.Some? && |out| == f.limit.value && forall y :: y in out ==> y.createdAt >= r.createdAt
  {
    var db := Run(steps);
    var q := BoundQuery(f, now);
    var rows := Matching(q.where, db.events, db.tags);
    MatchingMembers(q.where, db.events, db.tags);
    StoredRowMeans(steps, f, now, r, e);
    SqlEqualsLive(f, r.id, e);
    AnswerIsBest(q, rows, out);
    assert r in out ==> r in multiset(out);
    if r in rows && r !in out {
      assert r in multiset(rows);
      assert r in multiset(rows) - multiset(out);
      if |out| == |rows| {
        LeftOutIsShort(rows, out);
      }
    }
  }

  // ----- subscriptions -----

  /** A limit that SQLite cannot hold, on a filter that can match at all. */
  predicate Fails(f: ReqFilter) {
    !f.forceNoMatch && f.limit.Some? && f.limit.value > I64_MAX
  }

  /** The rows of one filter's query. */
  function Selected(f: ReqFilter, now: nat, db: Db): seq<EventRow> {
    Matching(BoundQuery(f, now).where, db.events, db.tags)
  }

  ghost predicate Answered(f: ReqFilter, now: nat, db: Db, out: seq<EventRow>) {
    IsAnswer(BoundQuery(f, now), Selected(f, now, db), out)
  }

  /** Exactly the filters whose query has no answer. */
  lemma FailsExactly(f: ReqFilter, now: nat, db: Db)
    ensures Fails(f) <==> forall out :: !Answered(f, now, db, out)
  {
    AnswerExists(BoundQuery(f, now), Selected(f, now, db));
    if exists out :: IsAnswer(BoundQuery(f, now), Selected(f, now, db), out) {
      var out :| IsAnswer(BoundQuery(f, now), Selected(f, now, db), out);
      assert Answered(f, now, db, out);
    }
  }

  /** `query_subscription` left to run: the answers sent, filter by filter, until a query fails; the
      end of stored events is announced only after the last. */
  ghost predicate IsReply(filters: seq<ReqFilter>, now: nat, db: Db, outs: seq<seq<EventRow>>, eose: bool) {
    if filters == [] then outs == [] && eose
    else if Fails(filters[0]) then outs == [] && !eose
    else outs != [] && Answered(filters[0], now, db, outs[0]) && IsReply(filters[1..], now, db, outs[1..], eose)
  }

  /** A subscription is answered up to its first failing filter, and to the end exactly if none fails:
      with `RepliesAnswer`, every answer before it is one of a filter that does not fail. */
  lemma {:induction false} RepliesStopAtFailure(filters: seq<ReqFilter>, now: nat, db: Db,
                                               outs: seq<seq<EventRow>>, eose: bool)
    requires IsReply(filters, now, db, outs, eose)
    ensures |outs| <= |filters| && (|outs| < |filters| ==> Fails(filters[|outs|]))
    ensures eose <==> |outs| == |filters|
  {
    if filters == [] || Fails(filters[0]) {
    } else {
      RepliesStopAtFailure(filters[1..], now, db, outs[1..], eose);
    }
  }

  lemma {:induction false} RepliesAnswer(filters: seq<ReqFilter>, now: nat, db: Db,
                                         outs: seq<seq<EventRow>>, eose: bool, i: nat)
    requires IsReply(filters, now, db, outs, eose) && i < |outs| && i < |filters|
    ensures !Fails(filters[i]) && Answered(filters[i], now, db, outs[i])
  {
    if i == 0 {
    } else {
      RepliesAnswer(filters[1..], now, db, outs[1..], eose, i - 1);
    }
  }

  lemma {:induction false} RepliesExist(filters: seq<ReqFilter>, now: nat, db: Db)
    ensures exists outs, eose :: IsReply(filters, now, db, outs, eose)
  {
    if filters == [] {
      assert IsReply(filters, now, db, [], true);
    } else if Fails(filters[0]) {
      assert IsReply(filters, now, db, [], false);
    } else {
      RepliesExist(filters[1..], now, db);
      var rest, eose :| IsReply(filters[1..], now, db, rest, eose);
      FailsExactly(filters[0], now, db);
      var out :| Answered(filters[0], now, db, out);
      assert ([out] + rest)[1..] == rest;
      assert IsReply(filters, now, db, [out] + rest, eose);
    }
  }

  lemma LeftOutIsShort(rows: seq<EventRow>, out: seq<EventRow>)
    requires multiset(out) <= multiset(rows) && multiset(rows) - multiset(out) != multiset{}
    ensures |out| < |rows|
  {
    assert multiset(rows) == multiset(out) + (multiset(rows) - multiset(out));
  }
}
