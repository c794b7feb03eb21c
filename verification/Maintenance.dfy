/** Maintenance of the database: the tag rebuild of the 15-to-16 migration
    (src/repo/sqlite_migration.rs) and batched pruning (scripts/prune-relay-db.py). */
module Maintenance {
  import opened Text
  import opened Events
  import opened Tables
  import opened Filters
  import opened Sql
  import opened Queries
  import opened Store
  import opened StoreRuns
  import opened QueryMeaning

  // ----- the migration -----

  /** `mig_15_to_16`: drop the tag table and refill it from the stored events in id order. */
  method RebuildTags(store: EventStore)
    modifies store
    ensures store.events == old(store.events)
    ensures store.tags == AllTags(store.events)
    ensures forall steps :: IsRun(steps) && old(store.View()) == Run(steps) ==> store.View() == Run(steps)
    ensures RowsConsistent(store.events) ==> Consistent(store.View())
  {
    RebuildKeepsReachable();
    store.tags := [];
    for i := 0 to |store.events|
      invariant store.events == old(store.events)
      invariant store.tags == AllTags(store.events[..i])
    {
      var row := store.events[i];
      var done := store.tags;
      var ts := row.content.tags;
      for j := 0 to |ts|
        invariant store.events == old(store.events)
        invariant store.tags == done + TagRowsOf(row.id, row.kind, row.createdAt, ts[..j])
      {
        var t := ts[j];
        assert ts[..j + 1][..j] == ts[..j];
        if |t| > 1 {
          var name := t[0];
          if SingleCharTagname(name).None? {
            continue;
          }
          store.tags := store.tags + [TagRow(row.id, name, t[1], row.kind, row.createdAt)];
        }
      }
      assert ts[..|ts|] == ts;
      assert store.events[..i + 1][..i] == store.events[..i];
    }
    assert store.events[..|store.events|] == store.events;
  }

  /** What consistency asks of the event table alone. */
  ghost predicate RowsConsistent(events: seq<EventRow>) {
    SortedIds(events) && UniqueHashes(events) && forall r :: r in events ==> Faithful(r)
  }

  /** On every database the relay can reach, the tag table is the one the rebuild writes. */
  lemma RebuildKeepsReachable()
    ensures forall steps :: IsRun(steps) ==> Db(Run(steps).events, AllTags(Run(steps).events)) == Run(steps)
  {
    forall steps | IsRun(steps)
      ensures Db(Run(steps).events, AllTags(Run(steps).events)) == Run(steps)
    {
      RunsAreConsistent(steps);
    }
  }

  // ----- pruning -----

  datatype Tier = HiddenTier | ExpiredTier | BlockedTier | Tombstones

  /** Gift wraps are never deleted. */
  const PROTECTED_KIND: nat := 1059

  /** `tier_clause`. */
  predicate InTier(r: EventRow, tier: Tier, blocked: seq<Blob>, now: nat) {
    match tier
    case HiddenTier => r.hidden
    case ExpiredTier => r.expiresAt.Some? && r.expiresAt.value < now
    case BlockedTier => r.author in blocked
    case Tombstones => r.kind == 5
  }

  /** `protect(clause)`. */
  predicate Prunable(r: EventRow, tier: Tier, blocked: seq<Blob>, now: nat) {
    InTier(r, tier, blocked, now) && r.kind != PROTECTED_KIND
  }

  function TierIds(events: seq<EventRow>, tier: Tier, blocked: seq<Blob>, now: nat): set<nat> {
    set r | r in events && Prunable(r, tier, blocked, now) :: r.id
  }

  lemma {:induction false} KeepEventsTwice(events: seq<EventRow>, a: set<nat>, b: set<nat>)
    ensures KeepEvents(KeepEvents(events, a), b) == KeepEvents(events, a + b)
  {
    if events == [] {
    } else {
      var init, last := events[..|events| - 1], events[|events| - 1];
      KeepEventsTwice(init, a, b);
      var kept := KeepEvents(init, a);
      if last.id in a {
        assert kept + [] == kept;
      } else {
        assert (kept + [last])[..|kept|] == kept;
      }
    }
  }

  lemma {:induction false} KeepTagsTwice(tags: seq<TagRow>, a: set<nat>, b: set<nat>)
    ensures KeepTags(KeepTags(tags, a), b) == KeepTags(tags, a + b)
  {
    if tags == [] {
    } else {
      var init, last := tags[..|tags| - 1], tags[|tags| - 1];
      KeepTagsTwice(init, a, b);
      var kept := KeepTags(init, a);
      if last.eventId in a {
        assert kept + [] == kept;
      } else {
        assert (kept + [last])[..|kept|] == kept;
      }
    }
  }

  lemma {:induction false} KeptTagsAreFewer(tags: seq<TagRow>, ids: set<nat>)
    ensures |KeepTags(tags, ids)| <= |tags|
  {
    if tags == [] {
    } else {
      KeptTagsAreFewer(tags[..|tags| - 1], ids);
    }
  }

  lemma TierIdsAfter(events: seq<EventRow>, gone: set<nat>, tier: Tier, blocked: seq<Blob>, now: nat)
    ensures TierIds(KeepEvents(events, gone), tier, blocked, now) == TierIds(events, tier, blocked, now) - gone
  {
    KeepEventsMembers(events, gone);
  }

  lemma {:induction false} SubsetOfSize(s: set<nat>, n: nat)
    requires n <= |s|
    ensures exists t :: t <= s && |t| == n
  {
    if n == |s| {
      assert s <= s;
    } else {
      var x :| x in s;
      SubsetOfSize(s - {x}, n);
      var t :| t <= s - {x} && |t| == n;
      assert t <= s;
    }
  }

  function Least(a: nat, b: nat): nat {
    if a < b then a else b
  }

  /** `delete_tier`: batches of any size, picked in any order. */
  method DeleteTier(store: EventStore, tier: Tier, blocked: seq<Blob>, now: nat, batch: nat, apply: bool)
    returns (events: nat, tags: nat)
    requires batch > 0
    modifies store
    ensures !apply ==> store.View() == old(store.View())
    ensures !apply ==> events == |Matched(store.events, tier, blocked, now)| && tags == 0
    ensures apply ==> store.View() == Delete(old(store.View()), TierIds(old(store.events), tier, blocked, now))
    ensures apply ==> events == |old(store.events)| - |store.events| && tags == |old(store.tags)| - |store.tags|
  {
    if !apply {
      return |Matched(store.events, tier, blocked, now)|, 0;
    }
    events, tags := 0, 0;
    ghost var before := store.View();
    ghost var all := TierIds(before.events, tier, blocked, now);
    ghost var gone: set<nat> := {};
    DeleteNothing(before);
    while true
      invariant gone <= all && store.View() == Delete(before, gone)
      invariant events == |before.events| - |store.events|
      invariant tags == |before.tags| - |store.tags|
      decreases all - gone
    {
      var candidates := TierIds(store.events, tier, blocked, now);
      TierIdsAfter(before.events, gone, tier, blocked, now);
      SubsetOfSize(candidates, Least(batch, |candidates|));
      var ids: set<nat> :| ids <= candidates && |ids| == Least(batch, |candidates|);
      if ids == {} {
        assert candidates == {};
        assert gone == all;
        break;
      }
      KeptTagsAreFewer(store.tags, ids);
      KeptIsShorter(store.events, ids);
      KeepTagsTwice(before.tags, gone, ids);
      KeepEventsTwice(before.events, gone, ids);
      var keptTags := KeepTags(store.tags, ids);
      tags := tags + (|store.tags| - |keptTags|);
      store.tags := keptTags;
      var keptEvents := KeepEvents(store.events, ids);
      events := events + (|store.events| - |keptEvents|);
      store.events := keptEvents;
      var x :| x in ids;
      assert x in all - gone;
      gone := gone + ids;
    }
  }

  /** The rows a tier's SELECT counts. */
  function Matched(events: seq<EventRow>, tier: Tier, blocked: seq<Blob>, now: nat): seq<EventRow> {
    if events == [] then []
    else
      var last := events[|events| - 1];
      Matched(events[..|events| - 1], tier, blocked, now) + if Prunable(last, tier, blocked, now) then [last] else []
  }

  /** After pruning exactly the rows outside the tier remain, protected kinds among them, with
      exactly their tags; and the number removed is the number a dry run announces. */
  lemma {:induction false} PruningIsExact(db: Db, tier: Tier, blocked: seq<Blob>, now: nat)
    requires Consistent(db)
    ensures
      var after := Delete(db, TierIds(db.events, tier, blocked, now));
      && (forall r :: r in after.events <==> r in db.events && !Prunable(r, tier, blocked, now))
      && (forall r :: r in db.events && r.kind == PROTECTED_KIND ==> r in after.events)
      && Consistent(after)
      && |db.events| - |after.events| == |Matched(db.events, tier, blocked, now)|
  {
    var ids := TierIds(db.events, tier, blocked, now);
    KeepEventsMembers(db.events, ids);
    DeleteConsistent(db, ids);
    forall r | r in db.events
      ensures r.id in ids <==> Prunable(r, tier, blocked, now)
    {
      if r.id in ids {
        var s :| s in db.events && Prunable(s, tier, blocked, now) && s.id == r.id;
        SameIdSameRow(db.events, r, s);
      }
    }
    RemovedAreMatched(db.events, ids, tier, blocked, now);
  }

  /** What each tier takes, read off the stored event: never a gift wrap, and else the hidden ones, those
      whose expiration lies before now, those of an author on the list in either spelling, or the
      deletions. */
  lemma PrunedExactly(steps: seq<Step>, tier: Tier, names: seq<string>, blocked: seq<Blob>, now: nat, r: EventRow)
    requires IsRun(steps) && r in Run(steps).events
    requires |names| == |blocked| && forall i :: 0 <= i < |names| ==> HexDecode(names[i]) == Some(blocked[i])
    ensures
      var after := Delete(Run(steps), TierIds(Run(steps).events, tier, blocked, now));
      var e := r.content;
      r !in after.events <==>
      e.kind != 1059 &&
      match tier
      case HiddenTier => r.hidden
      case ExpiredTier => Expiration(e.tags).Some? && Expiration(e.tags).value < now
      case BlockedTier => exists name :: name in names && Lower(name) == Lower(e.pubkey)
      case Tombstones => e.kind == 5
  {
    RunsAreConsistent(steps);
    PruningIsExact(Run(steps), tier, blocked, now);
    assert Faithful(r);
    NamedInList(names, blocked, r.content.pubkey);
  }

  lemma NamedInList(names: seq<string>, blocked: seq<Blob>, pubkey: string)
    requires |names| == |blocked| && forall i :: 0 <= i < |names| ==> HexDecode(names[i]) == Some(blocked[i])
    requires HexDecode(pubkey).Some?
    ensures HexDecode(pubkey).value in blocked <==> exists name :: name in names && Lower(name) == Lower(pubkey)
  {
    HexDecodeIgnoresCase(pubkey);
    forall i | 0 <= i < |names|
      ensures blocked[i] == HexDecode(pubkey).value <==> Lower(names[i]) == Lower(pubkey)
    {
      HexDecodeIgnoresCase(names[i]);
      if blocked[i] == HexDecode(pubkey).value {
        HexDecodeInjective(Lower(names[i]), Lower(pubkey));
      }
    }
    if HexDecode(pubkey).value in blocked {
      var i :| 0 <= i < |blocked| && blocked[i] == HexDecode(pubkey).value;
      assert names[i] in names;
    }
  }

  lemma {:induction false} RemovedAreMatched(events: seq<EventRow>, ids: set<nat>, tier: Tier, blocked: seq<Blob>, now: nat)
    requires forall r :: r in events ==> (r.id in ids <==> Prunable(r, tier, blocked, now))
    ensures |events| - |KeepEvents(events, ids)| == |Matched(events, tier, blocked, now)|
  {
    if events == [] {
    } else {
      var init, last := events[..|events| - 1], events[|events| - 1];
      assert events == init + [last];
      RemovedAreMatched(init, ids, tier, blocked, now);
    }
  }

  // ----- removing what nothing can serve -----

  lemma {:induction false} MatchingKeeps(where: Expr, events: seq<EventRow>, ids: set<nat>,
                                         tags: seq<TagRow>, tags': seq<TagRow>)
    requires forall r :: r in events && r.id in ids ==> !Eval(where, OnEvent(r), tags)
    requires forall r :: r in events && r.id !in ids ==> (Eval(where, OnEvent(r), tags) <==> Eval(where, OnEvent(r), tags'))
    ensures Matching(where, KeepEvents(events, ids), tags') == Matching(where, events, tags)
  {
    if events == [] {
    } else {
      var init, last := events[..|events| - 1], events[|events| - 1];
      assert events == init + [last];
      MatchingKeeps(where, init, ids, tags, tags');
      var kept := KeepEvents(init, ids);
      if last.id in ids {
        assert kept + [] == kept;
      } else {
        assert (kept + [last])[..|kept|] == kept;
      }
    }
  }

  /** Removing rows that are hidden or expired changes no query, then or later. */
  lemma RemovingUnshownRowsIsInvisible(db: Db, ids: set<nat>, f: ReqFilter, now: nat)
    requires Consistent(db) && forall r :: r in db.events && r.id in ids ==> !Shown(r, now)
    ensures Matching(Closed(f, now), Delete(db, ids).events, Delete(db, ids).tags) ==
            Matching(Closed(f, now), db.events, db.tags)
  {
    DeleteConsistent(db, ids);
    KeepEventsMembers(db.events, ids);
    var after := Delete(db, ids);
    forall r | r in db.events
      ensures r.id in ids ==> !Eval(Closed(f, now), OnEvent(r), db.tags)
      ensures r.id !in ids ==>
                (Eval(Closed(f, now), OnEvent(r), db.tags) <==> Eval(Closed(f, now), OnEvent(r), after.tags))
    {
      CompiledQueryMeans(db, r, f, now);
      if r.id !in ids {
        CompiledQueryMeans(after, r, f, now);
      }
    }
    MatchingKeeps(Closed(f, now), db.events, ids, db.tags, after.tags);
  }

  /** "Nothing can ever serve these": pruning the hidden and expired tiers, and the relay's own
      expiry cleanup, leave the result of every query at any later time as it was. */
  lemma SafeTiersAreInvisible(db: Db, tier: Tier, blocked: seq<Blob>, pruned: nat, f: ReqFilter, now: nat)
    requires Consistent(db) && (tier == HiddenTier || tier == ExpiredTier) && pruned <= now
    ensures
      var after := Delete(db, TierIds(db.events, tier, blocked, pruned));
      Matching(Closed(f, now), after.events, after.tags) == Matching(Closed(f, now), db.events, db.tags)
    ensures
      var after := Delete(db, ExpiredIds(db.events, pruned));
      Matching(Closed(f, now), after.events, after.tags) == Matching(Closed(f, now), db.events, db.tags)
  {
    var ids, expired := TierIds(db.events, tier, blocked, pruned), ExpiredIds(db.events, pruned);
    forall r | r in db.events
      ensures r.id in ids ==> !Shown(r, now)
      ensures r.id in expired ==> !Shown(r, now)
    {
      if r.id in ids {
        var s :| s in db.events && Prunable(s, tier, blocked, pruned) && s.id == r.id;
        SameIdSameRow(db.events, r, s);
      }
      if r.id in expired {
        var s :| s in db.events && s.expiresAt.Some? && s.expiresAt.value <= pruned && s.id == r.id;
        SameIdSameRow(db.events, r, s);
      }
    }
    RemovingUnshownRowsIsInvisible(db, ids, f, now);
    RemovingUnshownRowsIsInvisible(db, expired, f, now);
  }
}
