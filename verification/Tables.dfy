/** The event and tag tables, and the statements that change them as wholes
    (schema: src/repo/sqlite_migration.rs). Both tables are kept in rowid order. */
module Tables {
  import opened Text
  import opened Events

  datatype EventRow = EventRow(
    id: nat,
    hash: Blob,
    createdAt: nat,
    expiresAt: Option<nat>,
    kind: nat,
    author: Blob,
    delegatedBy: Option<Blob>,
    content: Event,
    hidden: bool)

  datatype TagRow = TagRow(eventId: nat, name: string, value: string, kind: nat, createdAt: nat)

  datatype Db = Db(events: seq<EventRow>, tags: seq<TagRow>)

  const EMPTY_DB := Db([], [])

  // ----- statements -----

  /** The rowid SQLite gives the next row of an INTEGER PRIMARY KEY table: one above the largest. */
  function NextId(events: seq<EventRow>): nat {
    if events == [] then 1 else events[|events| - 1].id + 1
  }

  function KeepEvents(events: seq<EventRow>, ids: set<nat>): seq<EventRow> {
    if events == [] then []
    else
      var last := events[|events| - 1];
      KeepEvents(events[..|events| - 1], ids) + (if last.id in ids then [] else [last])
  }

  function KeepTags(tags: seq<TagRow>, ids: set<nat>): seq<TagRow> {
    if tags == [] then []
    else
      var last := tags[|tags| - 1];
      KeepTags(tags[..|tags| - 1], ids) + (if last.eventId in ids then [] else [last])
  }

  /** DELETE FROM event for these rowids, with the foreign key's ON DELETE CASCADE. */
  function Delete(db: Db, ids: set<nat>): Db {
    Db(KeepEvents(db.events, ids), KeepTags(db.tags, ids))
  }

  function Marked(r: EventRow, ids: set<nat>): EventRow {
    if r.id in ids then r.(hidden := true) else r
  }

  /** UPDATE event SET hidden=TRUE for these rowids. */
  function Hide(events: seq<EventRow>, ids: set<nat>): (r: seq<EventRow>)
    ensures |r| == |events|
    ensures forall i :: 0 <= i < |events| ==> r[i] == Marked(events[i], ids)
  {
    seq(|events|, i requires 0 <= i < |events| => Marked(events[i], ids))
  }

  /** The tag rows written for one event: one per indexable tag, in order. */
  function TagRowsOf(id: nat, kind: nat, createdAt: nat, tags: seq<Tag>): seq<TagRow> {
    if tags == [] then []
    else
      var last := tags[|tags| - 1];
      TagRowsOf(id, kind, createdAt, tags[..|tags| - 1]) +
      (if Indexable(last) then [TagRow(id, last[0], last[1], kind, createdAt)] else [])
  }

  function RowTags(r: EventRow): seq<TagRow> {
    TagRowsOf(r.id, r.kind, r.createdAt, r.content.tags)
  }

  /** The tag table rebuilt from nothing but the event table. */
  function AllTags(events: seq<EventRow>): seq<TagRow> {
    if events == [] then []
    else AllTags(events[..|events| - 1]) + RowTags(events[|events| - 1])
  }

  // ----- what holds of every reachable database -----

  ghost predicate SortedIds(events: seq<EventRow>) {
    forall i, j :: 0 <= i < j < |events| ==> events[i].id < events[j].id
  }

  ghost predicate UniqueHashes(events: seq<EventRow>) {
    forall i, j :: 0 <= i < j < |events| ==> events[i].hash != events[j].hash
  }

  /** The columns of a row repeat the event it stores. */
  predicate Faithful(r: EventRow) {
    && r.kind == r.content.kind
    && r.createdAt == r.content.createdAt
    && r.createdAt <= I64_MAX
    && r.expiresAt == Expiration(r.content.tags)
    && HexDecode(r.content.id) == Some(r.hash)
    && HexDecode(r.content.pubkey) == Some(r.author)
    && r.content == Serialised(r.content)
  }

  ghost predicate Consistent(db: Db) {
    && SortedIds(db.events)
    && UniqueHashes(db.events)
    && (forall r :: r in db.events ==> Faithful(r))
    && db.tags == AllTags(db.events)
  }

  // ----- lemmas about the statements -----

  lemma {:induction false} KeepEventsMembers(events: seq<EventRow>, ids: set<nat>)
    ensures forall r :: r in KeepEvents(events, ids) <==> r in events && r.id !in ids
  {
    if events == [] {
    } else {
      var init := events[..|events| - 1];
      KeepEventsMembers(init, ids);
      assert events == init + [events[|events| - 1]];
    }
  }

  lemma {:induction false} KeepTagsAppend(a: seq<TagRow>, b: seq<TagRow>, ids: set<nat>)
    ensures KeepTags(a + b, ids) == KeepTags(a, ids) + KeepTags(b, ids)
  {
    if b == [] {
      assert a + b == a;
    } else {
      var init := b[..|b| - 1];
      assert (a + b)[..|a + b| - 1] == a + init;
      KeepTagsAppend(a, init, ids);
    }
  }

  lemma {:induction false} KeepTagsOfRow(id: nat, kind: nat, createdAt: nat, tags: seq<Tag>, ids: set<nat>)
    ensures KeepTags(TagRowsOf(id, kind, createdAt, tags), ids) ==
            if id in ids then [] else TagRowsOf(id, kind, createdAt, tags)
  {
    if tags == [] {
    } else {
      var init, last := tags[..|tags| - 1], tags[|tags| - 1];
      KeepTagsOfRow(id, kind, createdAt, init, ids);
      var rows := TagRowsOf(id, kind, createdAt, init);
      if Indexable(last) {
        var row := TagRow(id, last[0], last[1], kind, createdAt);
        assert (rows + [row])[..|rows|] == rows;
      } else {
        assert rows + [] == rows;
      }
    }
  }

  /** Cascading a delete through the tag table is the same as rebuilding it. */
  lemma {:induction false} CascadeRebuilds(events: seq<EventRow>, ids: set<nat>)
    ensures KeepTags(AllTags(events), ids) == AllTags(KeepEvents(events, ids))
  {
    if events == [] {
    } else {
      var init, last := events[..|events| - 1], events[|events| - 1];
      CascadeRebuilds(init, ids);
      KeepTagsAppend(AllTags(init), RowTags(last), ids);
      KeepTagsOfRow(last.id, last.kind, last.createdAt, last.content.tags, ids);
      var kept := KeepEvents(init, ids);
      if last.id in ids {
        assert kept + [] == kept;
      } else {
        assert (kept + [last])[..|kept|] == kept;
      }
    }
  }

  lemma OrderedSnoc(kept: seq<EventRow>, init: seq<EventRow>, last: EventRow)
    requires SortedIds(init + [last]) && UniqueHashes(init + [last])
    requires SortedIds(kept) && UniqueHashes(kept) && forall r :: r in kept ==> r in init
    ensures SortedIds(kept + [last]) && UniqueHashes(kept + [last])
  {
    forall k | 0 <= k < |kept|
      ensures kept[k].id < last.id && kept[k].hash != last.hash
    {
      assert kept[k] in init;
      var i :| 0 <= i < |init| && init[i] == kept[k];
      assert (init + [last])[i] == kept[k] && (init + [last])[|init|] == last;
    }
  }

  /** Deleting keeps the order and the distinctness of what is left. */
  lemma {:induction false} KeepEventsOrdered(events: seq<EventRow>, ids: set<nat>)
    requires SortedIds(events) && UniqueHashes(events)
    ensures SortedIds(KeepEvents(events, ids)) && UniqueHashes(KeepEvents(events, ids))
  {
    if events == [] {
    } else {
      var init, last := events[..|events| - 1], events[|events| - 1];
      assert events == init + [last];
      KeepEventsOrdered(init, ids);
      KeepEventsMembers(init, ids);
      OrderedSnoc(KeepEvents(init, ids), init, last);
    }
  }

  lemma DeleteConsistent(db: Db, ids: set<nat>)
    requires Consistent(db)
    ensures Consistent(Delete(db, ids))
  {
    KeepEventsOrdered(db.events, ids);
    KeepEventsMembers(db.events, ids);
    CascadeRebuilds(db.events, ids);
  }

  lemma {:induction false} HideKeepsTags(events: seq<EventRow>, ids: set<nat>)
    ensures AllTags(Hide(events, ids)) == AllTags(events)
  {
    if events == [] {
    } else {
      var init, last := events[..|events| - 1], events[|events| - 1];
      HideKeepsTags(init, ids);
      assert Hide(events, ids)[..|events| - 1] == Hide(init, ids);
    }
  }

  lemma HideConsistent(db: Db, ids: set<nat>)
    requires Consistent(db)
    ensures Consistent(db.(events := Hide(db.events, ids)))
  {
    HideKeepsTags(db.events, ids);
    var h := Hide(db.events, ids);
    forall r | r in h
      ensures Faithful(r)
    {
      var i :| 0 <= i < |h| && h[i] == r;
      assert Faithful(db.events[i]);
    }
  }

  lemma HideMembers(events: seq<EventRow>, ids: set<nat>)
    ensures forall r :: r in events ==> Marked(r, ids) in Hide(events, ids)
    ensures forall h :: h in Hide(events, ids) ==> exists r :: r in events && h == Marked(r, ids)
  {
    var hidden := Hide(events, ids);
    forall r | r in events
      ensures Marked(r, ids) in hidden
    {
      var i :| 0 <= i < |events| && events[i] == r;
      assert hidden[i] in hidden;
    }
    forall h | h in hidden
      ensures exists r :: r in events && h == Marked(r, ids)
    {
      var i :| 0 <= i < |hidden| && hidden[i] == h;
      assert events[i] in events;
    }
  }

  // ----- the tag table as a relation -----

  lemma {:induction false} TagRowsOfMembers(id: nat, kind: nat, createdAt: nat, tags: seq<Tag>, t: TagRow)
    ensures t in TagRowsOf(id, kind, createdAt, tags) <==>
            t.eventId == id && t.kind == kind && t.createdAt == createdAt &&
            [t.name, t.value] in Heads(tags) && |t.name| == 1
  {
    if tags == [] {
    } else {
      var init, last := tags[..|tags| - 1], tags[|tags| - 1];
      TagRowsOfMembers(id, kind, createdAt, init, t);
      assert tags == init + [last];
    }
  }

  /** The first two elements of every tag that has them. */
  function Heads(tags: seq<Tag>): set<Tag> {
    set t | t in tags && |t| >= 2 :: [t[0], t[1]]
  }

  lemma HeadsAreTagValues(tags: seq<Tag>, name: string, v: string)
    ensures [name, v] in Heads(tags) <==> v in TagValues(tags, name)
  {
    TagValuesMembers(tags, name, v);
    if [name, v] in Heads(tags) {
      var t :| t in tags && |t| >= 2 && [t[0], t[1]] == [name, v];
      assert [name, v][0] == t[0] && [name, v][1] == t[1];
    }
  }

  lemma {:induction false} AllTagsMembers(events: seq<EventRow>, t: TagRow)
    ensures t in AllTags(events) <==> exists r :: r in events && t in RowTags(r)
  {
    if events == [] {
    } else {
      var init, last := events[..|events| - 1], events[|events| - 1];
      AllTagsMembers(init, t);
      assert events == init + [last];
    }
  }

  /** In a consistent database the tag rows of a stored event say exactly what its tags say. */
  lemma TagRowsOfStored(db: Db, r: EventRow, name: string, v: string)
    requires Consistent(db) && r in db.events && |name| == 1
    ensures TagRow(r.id, name, v, r.kind, r.createdAt) in db.tags <==> v in TagValues(r.content.tags, name)
    ensures forall t :: t in db.tags && t.eventId == r.id ==> t.kind == r.kind && t.createdAt == r.createdAt
  {
    var row := TagRow(r.id, name, v, r.kind, r.createdAt);
    AllTagsMembers(db.events, row);
    HeadsAreTagValues(r.content.tags, name, v);
    TagRowsOfMembers(r.id, r.kind, r.createdAt, r.content.tags, row);
    if row in db.tags {
      var s :| s in db.events && row in RowTags(s);
      TagRowsOfMembers(s.id, s.kind, s.createdAt, s.content.tags, row);
      SameIdSameRow(db.events, r, s);
    }
    forall t | t in db.tags && t.eventId == r.id
      ensures t.kind == r.kind && t.createdAt == r.createdAt
    {
      AllTagsMembers(db.events, t);
      var s :| s in db.events && t in RowTags(s);
      TagRowsOfMembers(s.id, s.kind, s.createdAt, s.content.tags, t);
      SameIdSameRow(db.events, r, s);
    }
  }

  lemma SameIdSameRow(events: seq<EventRow>, a: EventRow, b: EventRow)
    requires SortedIds(events) && a in events && b in events && a.id == b.id
    ensures a == b
  {
    var i :| 0 <= i < |events| && events[i] == a;
    var j :| 0 <= j < |events| && events[j] == b;
    assert i == j;
  }

  lemma SameHashSameRow(events: seq<EventRow>, a: EventRow, b: EventRow)
    requires UniqueHashes(events) && a in events && b in events && a.hash == b.hash
    ensures a == b
  {
    var i :| 0 <= i < |events| && events[i] == a;
    var j :| 0 <= j < |events| && events[j] == b;
    assert i == j;
  }

  /** Number of rows `event LEFT JOIN tag` has for one event id under a tag name and value. */
  function JoinCount(tags: seq<TagRow>, id: nat, name: string, v: string): nat {
    if tags == [] then 0
    else
      var last := tags[|tags| - 1];
      JoinCount(tags[..|tags| - 1], id, name, v) +
      if last.eventId == id && last.name == name && last.value == v then 1 else 0
  }

  lemma {:induction false} JoinCountAppend(a: seq<TagRow>, b: seq<TagRow>, id: nat, name: string, v: string)
    ensures JoinCount(a + b, id, name, v) == JoinCount(a, id, name, v) + JoinCount(b, id, name, v)
  {
    if b == [] {
      assert a + b == a;
    } else {
      var init := b[..|b| - 1];
      assert (a + b)[..|a + b| - 1] == a + init;
      JoinCountAppend(a, init, id, name, v);
    }
  }

  lemma {:induction false} TagCountSnoc(tags: seq<Tag>, last: Tag, name: string, v: string)
    ensures TagCount(tags + [last], name, v) ==
            TagCount(tags, name, v) + if |last| > 1 && last[0] == name && last[1] == v then 1 else 0
  {
    if tags == [] {
      assert [last][1..] == [];
    } else {
      assert (tags + [last])[1..] == tags[1..] + [last];
      TagCountSnoc(tags[1..], last, name, v);
    }
  }

  lemma {:induction false} JoinCountOfRow(id: nat, kind: nat, createdAt: nat, tags: seq<Tag>,
                                          other: nat, name: string, v: string)
    requires |name| == 1
    ensures JoinCount(TagRowsOf(id, kind, createdAt, tags), other, name, v) ==
            if other == id then TagCount(tags, name, v) else 0
  {
    if tags == [] {
    } else {
      var init, last := tags[..|tags| - 1], tags[|tags| - 1];
      JoinCountOfRow(id, kind, createdAt, init, other, name, v);
      assert tags == init + [last];
      TagCountSnoc(init, last, name, v);
      var rows := TagRowsOf(id, kind, createdAt, init);
      if Indexable(last) {
        var row := TagRow(id, last[0], last[1], kind, createdAt);
        assert (rows + [row])[..|rows|] == rows;
      } else {
        assert rows + [] == rows;
      }
    }
  }

  /** The join sees a stored event once for each of its tags with that name and value. */
  lemma {:induction false} JoinCountOfStored(events: seq<EventRow>, id: nat, name: string, v: string)
    requires SortedIds(events) && |name| == 1
    ensures forall r :: r in events && r.id == id ==>
              JoinCount(AllTags(events), id, name, v) == TagCount(r.content.tags, name, v)
    ensures (forall r :: r in events ==> r.id != id) ==> JoinCount(AllTags(events), id, name, v) == 0
  {
    if events == [] {
    } else {
      var init, last := events[..|events| - 1], events[|events| - 1];
      assert events == init + [last];
      JoinCountOfStored(init, id, name, v);
      JoinCountAppend(AllTags(init), RowTags(last), id, name, v);
      JoinCountOfRow(last.id, last.kind, last.createdAt, last.content.tags, id, name, v);
    }
  }
}
