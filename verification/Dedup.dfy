/** The duplicate-message cache (src/dedup.rs). Keys are the 64-bit hashes of author and content. */
module Dedup {

  type Cache = map<nat, nat>

  /** `Instant::duration_since`, which saturates at zero. */
  function Elapsed(since: nat, now: nat): nat {
    if now < since then 0 else now - since
  }

  predicate IsDuplicate(cache: Cache, window: nat, key: nat, now: nat) {
    key in cache && Elapsed(cache[key], now) < window
  }

  function Purged(cache: Cache, window: nat, now: nat): Cache {
    map k | k in cache && Elapsed(cache[k], now) < window :: cache[k]
  }

  class DedupCache {
    var cache: Cache
    const window: nat

    constructor (window: nat)
      ensures cache == map[] && this.window == window
    {
      cache := map[];
      this.window := window;
    }

    /** True for a duplicate within the window; otherwise the message is recorded. */
    method CheckAndAdd(key: nat, now: nat) returns (duplicate: bool)
      modifies this
      ensures duplicate == IsDuplicate(old(cache), window, key, now)
      ensures cache == if duplicate then old(cache) else old(cache)[key := now]
    {
      if key in cache {
        var timestamp := cache[key];
        if Elapsed(timestamp, now) < window {
          return true;
        }
      }
      cache := cache[key := now];
      duplicate := false;
    }

    method Purge(now: nat)
      modifies this
      ensures cache == Purged(old(cache), window, now)
    {
      cache := map k | k in cache && Elapsed(cache[k], now) < window :: cache[k];
    }
  }

  // ----- histories -----

  datatype Call = Check(key: nat, at: nat) | PurgeAt(at: nat)

  function After(cache: Cache, window: nat, call: Call): Cache {
    match call
    case Check(key, at) => if IsDuplicate(cache, window, key, at) then cache else cache[key := at]
    case PurgeAt(at) => Purged(cache, window, at)
  }

  function CacheOf(h: seq<Call>, window: nat): Cache {
    if h == [] then map[] else After(CacheOf(h[..|h| - 1], window), window, h[|h| - 1])
  }

  /** Call number i was a message, and it was let through. */
  predicate Accepted(h: seq<Call>, window: nat, i: nat)
    requires i < |h|
  {
    h[i].Check? && !IsDuplicate(CacheOf(h[..i], window), window, h[i].key, h[i].at)
  }

  ghost predicate Monotone(h: seq<Call>) {
    forall i, j :: 0 <= i < j < |h| ==> h[i].at <= h[j].at
  }

  /** An accepted message with this key lies within the window before `now`. */
  ghost predicate SeenWithin(h: seq<Call>, window: nat, key: nat, now: nat) {
    exists i :: 0 <= i < |h| && Accepted(h, window, i) && h[i].key == key && Elapsed(h[i].at, now) < window
  }

  lemma AcceptedInPrefix(h: seq<Call>, window: nat, n: nat)
    requires n <= |h|
    ensures forall i :: 0 <= i < n ==> (Accepted(h[..n], window, i) <==> Accepted(h, window, i))
  {
    assert forall i :: 0 <= i < n ==> h[..n][..i] == h[..i];
  }

  lemma SeenSnoc(h: seq<Call>, window: nat, key: nat, now: nat)
    requires h != []
    ensures
      var init, last := h[..|h| - 1], h[|h| - 1];
      SeenWithin(h, window, key, now) <==>
        SeenWithin(init, window, key, now) ||
        (Accepted(h, window, |init|) && last.key == key && Elapsed(last.at, now) < window)
  {
    var init := h[..|h| - 1];
    AcceptedInPrefix(h, window, |init|);
    if SeenWithin(init, window, key, now) {
      var i :| 0 <= i < |init| && Accepted(init, window, i) && init[i].key == key && Elapsed(init[i].at, now) < window;
      assert Accepted(h, window, i) && h[i] == init[i];
    }
    if SeenWithin(h, window, key, now) {
      var i :| 0 <= i < |h| && Accepted(h, window, i) && h[i].key == key && Elapsed(h[i].at, now) < window;
      if i < |init| {
        assert Accepted(init, window, i) && h[i] == init[i];
      }
    }
  }

  /** Over every history with a non-decreasing clock, a message is refused exactly when an accepted
      message with the same key lies within the window, whatever purges ran in between. */
  lemma {:induction false} RefusedExactlyWithinWindow(h: seq<Call>, window: nat, key: nat, now: nat)
    requires Monotone(h) && forall i :: 0 <= i < |h| ==> h[i].at <= now
    ensures IsDuplicate(CacheOf(h, window), window, key, now) <==> SeenWithin(h, window, key, now)
  {
    if h == [] {
    } else {
      var init, last := h[..|h| - 1], h[|h| - 1];
      RefusedExactlyWithinWindow(init, window, key, now);
      SeenSnoc(h, window, key, now);
      if last.Check? {
        LatestDecides(init, window, last, now);
      }
    }
  }

  /** An accepted message is at least as recent as every earlier one with its key. */
  lemma LatestDecides(init: seq<Call>, window: nat, last: Call, now: nat)
    requires last.Check? && last.at <= now && forall i :: 0 <= i < |init| ==> init[i].at <= last.at
    ensures SeenWithin(init, window, last.key, now) ==> Elapsed(last.at, now) < window
  {
    if SeenWithin(init, window, last.key, now) {
      var i :| 0 <= i < |init| && Accepted(init, window, i) && init[i].key == last.key && Elapsed(init[i].at, now) < window;
    }
  }

  // ----- any clock -----

  /** Message i is the latest accepted one with this key. */
  ghost predicate IsLatestAccepted(h: seq<Call>, window: nat, key: nat, i: nat) {
    i < |h| && Accepted(h, window, i) && h[i].key == key &&
    forall j :: i < j < |h| && Accepted(h, window, j) ==> h[j].key != key
  }

  /** Without purges the cache holds the times of the latest accepted messages. */
  lemma {:induction false} CacheHoldsLatest(h: seq<Call>, window: nat, key: nat)
    requires forall i :: 0 <= i < |h| ==> h[i].Check?
    ensures key in CacheOf(h, window) ==>
              exists i: nat :: IsLatestAccepted(h, window, key, i) && h[i].at == CacheOf(h, window)[key]
    ensures key !in CacheOf(h, window) ==> forall i :: 0 <= i < |h| && Accepted(h, window, i) ==> h[i].key != key
  {
    if h == [] {
    } else {
      var n := |h| - 1;
      var init := h[..n];
      CacheHoldsLatest(init, window, key);
      AcceptedInPrefix(h, window, n);
      if Accepted(h, window, n) && h[n].key == key {
        assert IsLatestAccepted(h, window, key, n);
      } else if key in CacheOf(init, window) {
        var i: nat :| IsLatestAccepted(init, window, key, i) && init[i].at == CacheOf(init, window)[key];
        assert IsLatestAccepted(h, window, key, i);
      }
    }
  }

  /** Whatever the clock does, forward or back: between purges a message is refused exactly when the
      latest accepted one with its key is less than the window old, or not even due yet. */
  lemma RefusedByLatest(h: seq<Call>, window: nat, key: nat, now: nat)
    requires window > 0 && forall i :: 0 <= i < |h| ==> h[i].Check?
    ensures IsDuplicate(CacheOf(h, window), window, key, now) <==>
            exists i: nat :: IsLatestAccepted(h, window, key, i) && now < h[i].at + window
  {
    CacheHoldsLatest(h, window, key);
    forall i: nat, j: nat | IsLatestAccepted(h, window, key, i) && IsLatestAccepted(h, window, key, j)
      ensures i == j
    {
      OneLatest(h, window, key, i, j);
    }
  }

  lemma OneLatest(h: seq<Call>, window: nat, key: nat, i: nat, j: nat)
    requires IsLatestAccepted(h, window, key, i) && IsLatestAccepted(h, window, key, j)
    ensures i == j
  {
  }

  /** A purge forgets exactly the keys whose window has passed. */
  lemma PurgeForgetsExactly(cache: Cache, window: nat, key: nat, now: nat)
    requires window > 0
    ensures key in Purged(cache, window, now) <==> key in cache && now < cache[key] + window
    ensures key in Purged(cache, window, now) ==> Purged(cache, window, now)[key] == cache[key]
  {
  }

  // ----- purges are invisible -----

  function Checks(h: seq<Call>): seq<Call> {
    if h == [] then []
    else Checks(h[..|h| - 1]) + if h[|h| - 1].Check? then [h[|h| - 1]] else []
  }

  /** The answers a history gives, in order. */
  function Answers(h: seq<Call>, window: nat): seq<bool> {
    if h == [] then []
    else
      var init, last := h[..|h| - 1], h[|h| - 1];
      Answers(init, window) +
      if last.Check? then [IsDuplicate(CacheOf(init, window), window, last.key, last.at)] else []
  }

  /** From `clock` on, the two caches answer alike. */
  ghost predicate AnswerAlike(a: Cache, b: Cache, window: nat, clock: nat) {
    forall key, now :: now >= clock ==> (IsDuplicate(a, window, key, now) <==> IsDuplicate(b, window, key, now))
  }

  lemma AlikeAfterCheck(a: Cache, b: Cache, window: nat, call: Call)
    requires call.Check? && AnswerAlike(a, b, window, call.at)
    ensures AnswerAlike(After(a, window, call), After(b, window, call), window, call.at)
  {
    var a', b' := After(a, window, call), After(b, window, call);
    forall key, now | now >= call.at
      ensures IsDuplicate(a', window, key, now) <==> IsDuplicate(b', window, key, now)
    {
      assert IsDuplicate(a, window, key, now) <==> IsDuplicate(b, window, key, now);
      assert IsDuplicate(a, window, call.key, call.at) <==> IsDuplicate(b, window, call.key, call.at);
    }
  }

  lemma AlikeAfterPurge(a: Cache, b: Cache, window: nat, at: nat)
    requires AnswerAlike(a, b, window, at)
    ensures AnswerAlike(a, Purged(b, window, at), window, at)
  {
    forall key, now | now >= at
      ensures IsDuplicate(a, window, key, now) <==> IsDuplicate(Purged(b, window, at), window, key, now)
    {
      assert IsDuplicate(a, window, key, now) <==> IsDuplicate(b, window, key, now);
    }
  }

  /** Dropping all purges from a history changes no answer. */
  lemma {:induction false} PurgesChangeNoAnswer(h: seq<Call>, window: nat, clock: nat)
    requires Monotone(h) && forall i :: 0 <= i < |h| ==> h[i].at <= clock
    ensures Answers(Checks(h), window) == Answers(h, window)
    ensures AnswerAlike(CacheOf(Checks(h), window), CacheOf(h, window), window, clock)
  {
    if h == [] {
    } else {
      var init, last := h[..|h| - 1], h[|h| - 1];
      PurgesChangeNoAnswer(init, window, last.at);
      var a, b := CacheOf(Checks(init), window), CacheOf(init, window);
      if last.Check? {
        assert Checks(h)[..|Checks(h)| - 1] == Checks(init);
        AlikeAfterCheck(a, b, window, last);
      } else {
        assert Checks(h) == Checks(init);
        assert Answers(h, window) == Answers(init, window);
        AlikeAfterPurge(a, b, window, last.at);
      }
    }
  }

  /** Two histories with the same messages give the same answers, wherever purges are inserted. */
  lemma PurgePlacementIsFree(one: seq<Call>, two: seq<Call>, window: nat, clock: nat)
    requires Monotone(one) && Monotone(two) && Checks(one) == Checks(two)
    requires forall i :: 0 <= i < |one| ==> one[i].at <= clock
    requires forall i :: 0 <= i < |two| ==> two[i].at <= clock
    ensures Answers(one, window) == Answers(two, window)
  {
    PurgesChangeNoAnswer(one, window, clock);
    PurgesChangeNoAnswer(two, window, clock);
  }
}
