/** Persisting an event (`SqliteRepo::persist_event` and `delete_expired`, src/repo/sqlite.rs).
    `Persist` is the transaction as a function of the database; `EventStore.PersistEvent` runs it
    statement by statement. */
module Store {
  import opened Text
  import opened Events
  import opened Tables

  /** `Ok(n)` or an error that rolled the transaction back. */
  datatype Outcome = Wrote(rows: nat) | Failed

  /** SQL equality of a column with a parameter that is NULL when decoding failed. */
  predicate Matches(column: Blob, param: Option<Blob>) {
    param == Some(column)
  }

  // ----- the shadow checks -----

  predicate ShadowedReplaceable(db: Db, e: Event) {
    e.createdAt <= I64_MAX && IsReplaceable(e.kind) &&
    exists r :: r in db.events && Matches(r.author, HexDecode(e.pubkey)) && r.kind == e.kind &&
      r.createdAt >= e.createdAt
  }

  predicate ShadowedParam(db: Db, e: Event) {
    e.createdAt <= I64_MAX && DistinctParam(e).Some? &&
    exists r :: r in db.events && Matches(r.author, HexDecode(e.pubkey)) && r.kind == e.kind &&
      JoinCount(db.tags, r.id, "d", DistinctParam(e).value) > 0 && r.createdAt >= e.createdAt
  }

  // ----- the insert -----

  /** Every integer parameter fits an SQLite INTEGER; otherwise the insert reports an error. */
  predicate Storable(e: Event) {
    e.createdAt <= I64_MAX && e.kind <= I64_MAX &&
    (Expiration(e.tags).Some? ==> Expiration(e.tags).value <= I64_MAX)
  }

  /** INSERT OR IGNORE skips rows that break NOT NULL or the unique hash index. */
  predicate Ignored(events: seq<EventRow>, e: Event) {
    || HexDecode(e.id).None?
    || HexDecode(e.pubkey).None?
    || exists r :: r in events && Matches(r.hash, HexDecode(e.id))
  }

  function DelegatorBlob(e: Event): Option<Blob> {
    match e.delegatedBy
    case Some(d) => HexDecode(d)
    case None => None
  }

  function NewRow(id: nat, e: Event): EventRow
    requires HexDecode(e.id).Some? && HexDecode(e.pubkey).Some?
  {
    EventRow(id, HexDecode(e.id).value, e.createdAt, Expiration(e.tags), e.kind,
             HexDecode(e.pubkey).value, DelegatorBlob(e), Serialised(e), false)
  }

  function Insert(db: Db, e: Event): Db
    requires !Ignored(db.events, e)
  {
    var row := NewRow(NextId(db.events), e);
    Db(db.events + [row], db.tags + RowTags(row))
  }

  // ----- replacement -----

  /** SELECT ... WHERE kind=? AND author=?. */
  function Group(events: seq<EventRow>, kind: nat, author: Blob): set<EventRow> {
    set r | r in events && r.kind == kind && r.author == author
  }

  /** The tag rows of the join on `d`. */
  function JoinedTags(db: Db, kind: nat, author: Blob, d: string): set<TagRow> {
    set t | t in db.tags && t.name == "d" && t.value == d &&
      (exists r :: r in db.events && r.id == t.eventId && r.kind == kind && r.author == author)
  }

  /** `first` is a rowid that ORDER BY created_at DESC may put first; ties are left open. */
  ghost predicate IsFirst(db: Db, e: Event, author: Blob, first: nat) {
    if IsReplaceable(e.kind) then
      var group := Group(db.events, e.kind, author);
      exists top :: top in group && top.id == first && forall r :: r in group ==> r.createdAt <= top.createdAt
    else if DistinctParam(e).Some? then
      var rows := JoinedTags(db, e.kind, author, DistinctParam(e).value);
      rows != {} ==>
        exists top :: top in rows && top.eventId == first && forall t :: t in rows ==> t.createdAt <= top.createdAt
    else true
  }

  /** NOT IN (... LIMIT 1). */
  function ReplacedByKind(events: seq<EventRow>, kind: nat, author: Blob, first: nat): set<nat> {
    set r | r in events && r.kind == kind && r.author == author && r.id != first :: r.id
  }

  /** IN (... LIMIT -1 OFFSET 1): every joined id except one occurrence of the first. */
  function ReplacedByParam(db: Db, kind: nat, author: Blob, d: string, first: nat): set<nat> {
    set r | r in db.events && r.kind == kind && r.author == author &&
      JoinCount(db.tags, r.id, "d", d) > (if r.id == first then 1 else 0) :: r.id
  }

  /** The rowids the two replacement statements delete. */
  function Replaced(db: Db, e: Event, author: Blob, first: nat): set<nat> {
    if IsReplaceable(e.kind) then ReplacedByKind(db.events, e.kind, author, first)
    else if DistinctParam(e).Some? then
      ReplacedByParam(db, e.kind, author, DistinctParam(e).value, first)
    else {}
  }

  // ----- deletion events -----

  /** Event hashes a deletion names in well-formed `e` tags. */
  function Targets(values: seq<string>): seq<Blob> {
    if values == [] then []
    else
      var v := values[0];
      (if IsHex64(v) && HexDecode(v).Some? then [HexDecode(v).value] else []) + Targets(values[1..])
  }

  function HiddenByDeletion(events: seq<EventRow>, author: Blob, targets: seq<Blob>): set<nat> {
    set r | r in events && r.kind != 5 && r.author == author && r.hash in targets :: r.id
  }

  /** A stored deletion by this author names this id. */
  predicate DeletionRecorded(db: Db, author: Blob, id: string) {
    exists r, t :: r in db.events && r.author == author &&
      t in db.tags && t.eventId == r.id && t.name == "e" && t.kind == 5 && t.value == id
  }

  // ----- the transaction -----

  /** The database just after the insert and the replacement statements. */
  function AfterReplacement(db: Db, e: Event, first: nat): Db
    requires !Ignored(db.events, e)
  {
    var inserted := Insert(db, e);
    Delete(inserted, Replaced(inserted, e, HexDecode(e.pubkey).value, first))
  }

  /** The rowids that the deletion handling hides. */
  function HiddenNow(db: Db, e: Event, author: Blob, id: nat): set<nat> {
    if e.kind == 5 then HiddenByDeletion(db.events, author, Targets(TagValues(e.tags, "e")))
    else if DeletionRecorded(db, author, e.id) then {id}
    else {}
  }

  function Persist(db: Db, e: Event, first: nat): (Db, Outcome) {
    if ShadowedReplaceable(db, e) || ShadowedParam(db, e) then (db, Wrote(0))
    else if !Storable(e) then (db, Failed)
    else if Ignored(db.events, e) then (db, Wrote(0))
    else
      var author := HexDecode(e.pubkey).value;
      var replaced := AfterReplacement(db, e, first);
      var hidden := HiddenNow(replaced, e, author, NextId(db.events));
      (replaced.(events := Hide(replaced.events, hidden)),
       if e.kind != 5 && DeletionRecorded(replaced, author, e.id) then Wrote(0) else Wrote(1))
  }

  /** The choice of `first` that a run of `Persist` rests on is one SQL could have made. */
  ghost predicate LegalFirst(db: Db, e: Event, first: nat) {
    !Ignored(db.events, e) ==> IsFirst(Insert(db, e), e, HexDecode(e.pubkey).value, first)
  }

  function ExpiredIds(events: seq<EventRow>, now: nat): set<nat> {
    set r | r in events && r.expiresAt.Some? && r.expiresAt.value <= now :: r.id
  }

  lemma {:induction false} NewestRow(group: set<EventRow>)
    requires group != {}
    ensures exists top :: top in group && forall r :: r in group ==> r.createdAt <= top.createdAt
  {
    var one :| one in group;
    var rest := group - {one};
    if rest == {} {
      assert group == rest + {one};
    } else {
      NewestRow(rest);
      var best :| best in rest && forall r :: r in rest ==> r.createdAt <= best.createdAt;
      var top := if best.createdAt < one.createdAt then one else best;
      assert forall r :: r in group ==> r == one || r in rest;
      assert top in group;
    }
  }

  lemma {:induction false} NewestTag(rows: set<TagRow>)
    requires rows != {}
    ensures exists top :: top in rows && forall t :: t in rows ==> t.createdAt <= top.createdAt
  {
    var one :| one in rows;
    var rest := rows - {one};
    if rest == {} {
      assert rows == rest + {one};
    } else {
      NewestTag(rest);
      var best :| best in rest && forall t :: t in rest ==> t.createdAt <= best.createdAt;
      var top := if best.createdAt < one.createdAt then one else best;
      assert forall t :: t in rows ==> t == one || t in rest;
      assert top in rows;
    }
  }

  class EventStore {
    var events: seq<EventRow>
    var tags: seq<TagRow>

    ghost function View(): Db
      reads this
    {
      Db(events, tags)
    }

    constructor ()
      ensures View() == EMPTY_DB
    {
      events, tags := [], [];
    }

    /** DELETE FROM event WHERE id IN (ids). */
    method DeleteRows(ids: set<nat>)
      modifies this
      ensures View() == Delete(old(View()), ids)
    {
      events, tags := KeepEvents(events, ids), KeepTags(tags, ids);
    }

    method InsertTags(row: EventRow, eventTags: seq<Tag>)
      modifies `tags
      ensures tags == old(tags) + TagRowsOf(row.id, row.kind, row.createdAt, eventTags)
    {
      for i := 0 to |eventTags|
        invariant tags == old(tags) + TagRowsOf(row.id, row.kind, row.createdAt, eventTags[..i])
      {
        var tag := eventTags[i];
        assert eventTags[..i + 1][..i] == eventTags[..i];
        if |tag| >= 2 {
          var name, value := tag[0], tag[1];
          if SingleCharTagname(name).Some? {
            tags := tags + [TagRow(row.id, name, value, row.kind, row.createdAt)];
          }
        }
      }
      assert eventTags[..|eventTags|] == eventTags;
    }

    /** One transaction; `first` reports how ORDER BY resolved ties. */
    method PersistEvent(e: Event) returns (r: Outcome, ghost first: nat)
      modifies this
      ensures LegalFirst(old(View()), e, first)
      ensures (View(), r) == Persist(old(View()), e, first)
    {
      ghost var before := View();
      first := 0;
      var idBlob, pubkeyBlob := HexDecode(e.id), HexDecode(e.pubkey);
      if ShadowedReplaceable(Db(events, tags), e) {
        first := SomeFirst(before, e);
        return Wrote(0), first;
      }
      if ShadowedParam(Db(events, tags), e) {
        first := SomeFirst(before, e);
        return Wrote(0), first;
      }
      if !Storable(e) {
        first := SomeFirst(before, e);
        return Failed, first;
      }
      if Ignored(events, e) {
        return Wrote(0), first;
      }
      var author := pubkeyBlob.value;
      var evId := NextId(events);
      var row := NewRow(evId, e);
      events := events + [row];
      InsertTags(row, e.tags);
      ghost var inserted := View();
      assert inserted == Insert(before, e);
      if IsReplaceable(e.kind) {
        var group := Group(events, e.kind, author);
        assert row in group;
        NewestRow(group);
        var top :| top in group && forall s :: s in group ==> s.createdAt <= top.createdAt;
        first := top.id;
        DeleteRows(ReplacedByKind(events, e.kind, author, top.id));
      }
      if DistinctParam(e).Some? {
        var d := DistinctParam(e).value;
        var rows := JoinedTags(Db(events, tags), e.kind, author, d);
        var offset := 0;
        if rows != {} {
          NewestTag(rows);
          var top :| top in rows && forall t :: t in rows ==> t.createdAt <= top.createdAt;
          offset := top.eventId;
        }
        first := offset;
        DeleteRows(ReplacedByParam(Db(events, tags), e.kind, author, d, offset));
      }
      if !IsReplaceable(e.kind) && DistinctParam(e).None? {
        DeleteNothing(View());
      }
      assert View() == AfterReplacement(before, e, first);
      if e.kind == 5 {
        var targets := Targets(TagValues(e.tags, "e"));
        events := Hide(events, HiddenByDeletion(events, author, targets));
        r := Wrote(1);
      } else if DeletionRecorded(Db(events, tags), author, e.id) {
        events := Hide(events, {evId});
        r := Wrote(0);
      } else {
        assert Hide(events, {}) == events;
        r := Wrote(1);
      }
    }

    /** `delete_expired`: returns the number of rows removed. */
    method DeleteExpired(now: nat) returns (count: nat)
      modifies this
      ensures View() == Delete(old(View()), ExpiredIds(old(events), now))
      ensures count == |old(events)| - |events|
    {
      var before := |events|;
      KeptIsShorter(events, ExpiredIds(events, now));
      DeleteRows(ExpiredIds(events, now));
      count := before - |events|;
    }
  }

  lemma {:induction false} KeptIsShorter(events: seq<EventRow>, ids: set<nat>)
    ensures |KeepEvents(events, ids)| <= |events|
  {
    if events == [] {
    } else {
      KeptIsShorter(events[..|events| - 1], ids);
    }
  }

  lemma {:induction false} DeleteNothing(db: Db)
    ensures Delete(db, {}) == db
    decreases |db.events| + |db.tags|
  {
    if db.events == [] {
    } else {
      DeleteNothing(Db(db.events[..|db.events| - 1], []));
      assert db.events == db.events[..|db.events| - 1] + [db.events[|db.events| - 1]];
    }
    if db.tags == [] {
    } else {
      DeleteNothing(Db([], db.tags[..|db.tags| - 1]));
      assert db.tags == db.tags[..|db.tags| - 1] + [db.tags[|db.tags| - 1]];
    }
  }

  /** Some order is always possible. */
  lemma SomeFirst(db: Db, e: Event) returns (first: nat)
    ensures LegalFirst(db, e, first)
  {
    first := 0;
    if !Ignored(db.events, e) {
      var inserted, author := Insert(db, e), HexDecode(e.pubkey).value;
      if IsReplaceable(e.kind) {
        var group := Group(inserted.events, e.kind, author);
        assert inserted.events[|db.events|] in group;
        NewestRow(group);
        var top :| top in group && forall s :: s in group ==> s.createdAt <= top.createdAt;
        first := top.id;
      } else if DistinctParam(e).Some? {
        var rows := JoinedTags(inserted, e.kind, author, DistinctParam(e).value);
        if rows != {} {
          NewestTag(rows);
          var top :| top in rows && forall t :: t in rows ==> t.createdAt <= top.createdAt;
          first := top.eventId;
        }
      }
    }
  }
}
