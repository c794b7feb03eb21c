/** What every run of the event store keeps. A run is any sequence of submissions, expiry cleanups
    and other row removals (pruning), with ORDER BY ties resolved in any way. */
module StoreRuns {
  import opened Text
  import opened Events
  import opened Tables
  import opened Store

  datatype Step =
    | Submit(e: Event, first: nat)
    | Cleanup(now: nat)
    | Remove(ids: set<nat>)

  function Exec(db: Db, step: Step): Db {
    match step
    case Submit(e, first) => Persist(db, e, first).0
    case Cleanup(now) => Delete(db, ExpiredIds(db.events, now))
    case Remove(ids) => Delete(db, ids)
  }

  function Run(steps: seq<Step>): Db {
    if steps == [] then EMPTY_DB else Exec(Run(steps[..|steps| - 1]), steps[|steps| - 1])
  }

  ghost predicate LegalStep(db: Db, step: Step) {
    step.Submit? ==> HasIdentity(step.e) && LegalFirst(db, step.e, step.first)
  }

  ghost predicate IsRun(steps: seq<Step>) {
    steps == [] ||
    (IsRun(steps[..|steps| - 1]) && LegalStep(Run(steps[..|steps| - 1]), steps[|steps| - 1]))
  }

  ghost predicate Submitted(steps: seq<Step>, e: Event) {
    exists i :: 0 <= i < |steps| && steps[i].Submit? && steps[i].e == e
  }

  // ----- one submission -----

  /** The submission reaches the insert and the insert succeeds. */
  predicate Accepted(db: Db, e: Event) {
    && !ShadowedReplaceable(db, e)
    && !ShadowedParam(db, e)
    && Storable(e)
    && !Ignored(db.events, e)
  }

  /** The same row, shown or hidden. */
  predicate SameRow(a: EventRow, b: EventRow) {
    a == b.(hidden := a.hidden)
  }

  function Author(e: Event): Blob
    requires HexDecode(e.pubkey).Some?
  {
    HexDecode(e.pubkey).value
  }

  /** The row an accepted submission inserts. */
  function Fresh(db: Db, e: Event): EventRow
    requires !Ignored(db.events, e)
  {
    NewRow(NextId(db.events), e)
  }

  function ReplacedBy(db: Db, e: Event, first: nat): set<nat>
    requires !Ignored(db.events, e)
  {
    Replaced(Insert(db, e), e, Author(e), first)
  }

  function HiddenBy(db: Db, e: Event, first: nat): set<nat>
    requires !Ignored(db.events, e)
  {
    HiddenNow(AfterReplacement(db, e, first), e, Author(e), NextId(db.events))
  }

  lemma InsertConsistent(db: Db, e: Event)
    requires Consistent(db) && Accepted(db, e)
    ensures Consistent(Insert(db, e))
    ensures forall r :: r in db.events ==> r.id < NextId(db.events)
    ensures forall r :: r in Insert(db, e).events <==> r in db.events || r == Fresh(db, e)
  {
    var row := Fresh(db, e);
    NextIsAbove(db.events);
    FreshIsFaithful(db, e);
    AppendRow(db.events, row);
  }

  lemma NextIsAbove(events: seq<EventRow>)
    requires SortedIds(events)
    ensures forall r :: r in events ==> r.id < NextId(events)
  {
  }

  lemma FreshIsFaithful(db: Db, e: Event)
    requires Accepted(db, e)
    ensures Faithful(Fresh(db, e)) && forall r :: r in db.events ==> r.hash != Fresh(db, e).hash
  {
  }

  lemma AppendRow(events: seq<EventRow>, row: EventRow)
    requires SortedIds(events) && UniqueHashes(events)
    requires forall r :: r in events ==> r.id < row.id && r.hash != row.hash
    ensures SortedIds(events + [row]) && UniqueHashes(events + [row])
    ensures AllTags(events + [row]) == AllTags(events) + RowTags(row)
  {
    assert (events + [row])[..|events|] == events;
  }

  lemma AcceptedConsistent(db: Db, e: Event, first: nat)
    requires Consistent(db) && Accepted(db, e)
    ensures Consistent(AfterReplacement(db, e, first))
    ensures Consistent(Persist(db, e, first).0)
  {
    InsertConsistent(db, e);
    DeleteConsistent(Insert(db, e), ReplacedBy(db, e, first));
    HideConsistent(AfterReplacement(db, e, first), HiddenBy(db, e, first));
  }

  lemma KeptAndMarked(events: seq<EventRow>, gone: set<nat>, hid: set<nat>)
    ensures forall h :: h in Hide(KeepEvents(events, gone), hid) ==>
              exists r :: r in events && r.id !in gone && h == Marked(r, hid)
    ensures forall r :: r in events && r.id !in gone ==> Marked(r, hid) in Hide(KeepEvents(events, gone), hid)
  {
    KeepEventsMembers(events, gone);
    HideMembers(KeepEvents(events, gone), hid);
  }

  /** The rows after an accepted submission: those not replaced, hidden where deletions say so. */
  lemma AcceptedRows(db: Db, e: Event, first: nat)
    requires Consistent(db) && Accepted(db, e)
    ensures forall h :: h in Persist(db, e, first).0.events ==>
              exists r :: (r in db.events || r == Fresh(db, e)) && r.id !in ReplacedBy(db, e, first) &&
                          h == Marked(r, HiddenBy(db, e, first))
    ensures forall r :: (r in db.events || r == Fresh(db, e)) && r.id !in ReplacedBy(db, e, first) ==>
              Marked(r, HiddenBy(db, e, first)) in Persist(db, e, first).0.events
  {
    InsertConsistent(db, e);
    KeptAndMarked(Insert(db, e).events, ReplacedBy(db, e, first), HiddenBy(db, e, first));
  }

  // ----- what a submission replaces -----

  lemma ReplaceableKeepsNewest(db: Db, e: Event, first: nat)
    requires Consistent(db) && Accepted(db, e) && LegalFirst(db, e, first) && IsReplaceable(e.kind)
    ensures first == NextId(db.events)
  {
    InsertConsistent(db, e);
    var group := Group(Insert(db, e).events, e.kind, Author(e));
    assert Fresh(db, e) in group;
    var top :| top in group && top.id == first && forall r :: r in group ==> r.createdAt <= top.createdAt;
  }

  /** A replaceable submission removes exactly the author's other rows of its kind, all older. */
  lemma ReplacedReplaceable(db: Db, e: Event, first: nat)
    requires Consistent(db) && Accepted(db, e) && LegalFirst(db, e, first) && IsReplaceable(e.kind)
    ensures NextId(db.events) !in ReplacedBy(db, e, first)
    ensures forall r :: r in db.events ==>
              (r.id in ReplacedBy(db, e, first) <==> r.kind == e.kind && r.author == Author(e))
    ensures forall r :: r in db.events && r.id in ReplacedBy(db, e, first) ==> r.createdAt < e.createdAt
  {
    InsertConsistent(db, e);
    ReplaceableKeepsNewest(db, e, first);
    forall r | r in db.events && r.id in ReplacedBy(db, e, first)
      ensures r.kind == e.kind && r.author == Author(e)
    {
      var s :| s in Insert(db, e).events && s.kind == e.kind && s.author == Author(e) && s.id != first && s.id == r.id;
      SameIdSameRow(Insert(db, e).events, r, s);
    }
  }

  /** The rows of one author and kind that carry this `d` value. */
  predicate CarriesD(r: EventRow, kind: nat, author: Blob, d: string) {
    r.kind == kind && r.author == author && d in TagValues(r.content.tags, "d")
  }

  lemma JoinCountIsTagCount(db: Db, r: EventRow, d: string)
    requires Consistent(db) && r in db.events
    ensures JoinCount(db.tags, r.id, "d", d) == TagCount(r.content.tags, "d", d)
    ensures TagCount(r.content.tags, "d", d) > 0 <==> d in TagValues(r.content.tags, "d")
  {
    JoinCountOfStored(db.events, r.id, "d", d);
    TagCountPositive(r.content.tags, "d", d);
  }

  /** Past the shadow check, every stored row with this `d` value is older. */
  lemma OlderThanParam(db: Db, e: Event, r: EventRow)
    requires Consistent(db) && Accepted(db, e) && DistinctParam(e).Some?
    requires r in db.events && CarriesD(r, e.kind, Author(e), DistinctParam(e).value)
    ensures r.createdAt < e.createdAt
  {
    JoinCountIsTagCount(db, r, DistinctParam(e).value);
  }

  lemma ReplacedByParamMeans(db: Db, kind: nat, author: Blob, d: string, first: nat, r: EventRow)
    requires Consistent(db) && r in db.events
    ensures r.id in ReplacedByParam(db, kind, author, d, first) <==>
            r.kind == kind && r.author == author &&
            TagCount(r.content.tags, "d", d) > (if r.id == first then 1 else 0)
  {
    JoinCountIsTagCount(db, r, d);
    if r.id in ReplacedByParam(db, kind, author, d, first) {
      var s :| s in db.events && s.kind == kind && s.author == author &&
               JoinCount(db.tags, s.id, "d", d) > (if s.id == first then 1 else 0) && s.id == r.id;
      SameIdSameRow(db.events, r, s);
    }
  }

  lemma JoinedTagOwner(db: Db, kind: nat, author: Blob, d: string, t: TagRow) returns (r: EventRow)
    requires Consistent(db) && t in JoinedTags(db, kind, author, d)
    ensures r in db.events && r.id == t.eventId && r.createdAt == t.createdAt && CarriesD(r, kind, author, d)
  {
    r :| r in db.events && r.id == t.eventId && r.kind == kind && r.author == author;
    TagRowsOfStored(db, r, "d", d);
  }

  /** ORDER BY puts a row first that is strictly newer than every other row of the join. */
  lemma FirstIsNewest(db: Db, e: Event, author: Blob, first: nat, row: EventRow)
    requires Consistent(db) && DistinctParam(e).Some? && IsFirst(db, e, author, first)
    requires row in db.events && CarriesD(row, e.kind, author, DistinctParam(e).value)
    requires forall r :: r in db.events && r != row && CarriesD(r, e.kind, author, DistinctParam(e).value) ==>
               r.createdAt < row.createdAt
    ensures first == row.id
  {
    var d := DistinctParam(e).value;
    var rows := JoinedTags(db, e.kind, author, d);
    TagRowsOfStored(db, row, "d", d);
    assert TagRow(row.id, "d", d, row.kind, row.createdAt) in rows;
    var top :| top in rows && top.eventId == first && forall t :: t in rows ==> t.createdAt <= top.createdAt;
    var r := JoinedTagOwner(db, e.kind, author, d, top);
  }

  lemma ParamKeepsNewest(db: Db, e: Event, first: nat)
    requires Consistent(db) && Accepted(db, e) && LegalFirst(db, e, first) && DistinctParam(e).Some?
    requires TagCount(e.tags, "d", DistinctParam(e).value) > 0
    ensures first == NextId(db.events)
  {
    InsertConsistent(db, e);
    var d := DistinctParam(e).value;
    TagCountPositive(e.tags, "d", d);
    forall r | r in db.events && CarriesD(r, e.kind, Author(e), d)
      ensures r.createdAt < e.createdAt
    {
      OlderThanParam(db, e, r);
    }
    FirstIsNewest(Insert(db, e), e, Author(e), first, Fresh(db, e));
  }

  /** A parameterised submission removes rows with its `d` value only, all older; it removes every
      such row, unless it has no explicit `d` row itself, and itself when it has two. */
  lemma ReplacedParam(db: Db, e: Event, first: nat)
    requires Consistent(db) && Accepted(db, e) && LegalFirst(db, e, first) && DistinctParam(e).Some?
    ensures NextId(db.events) in ReplacedBy(db, e, first) <==> SelfReplacing(e)
    ensures forall r :: r in db.events && r.id in ReplacedBy(db, e, first) ==>
              CarriesD(r, e.kind, Author(e), DistinctParam(e).value) && r.createdAt < e.createdAt
    ensures TagCount(e.tags, "d", DistinctParam(e).value) > 0 ==>
              forall r :: r in db.events && CarriesD(r, e.kind, Author(e), DistinctParam(e).value) ==>
                r.id in ReplacedBy(db, e, first)
  {
    InsertConsistent(db, e);
    var d := DistinctParam(e).value;
    var inserted := Insert(db, e);
    ReplacedByParamMeans(inserted, e.kind, Author(e), d, first, Fresh(db, e));
    if TagCount(e.tags, "d", d) > 0 {
      ParamKeepsNewest(db, e, first);
    }
    forall r | r in db.events
      ensures r.id in ReplacedBy(db, e, first) ==>
                CarriesD(r, e.kind, Author(e), d) && r.createdAt < e.createdAt
      ensures TagCount(e.tags, "d", d) > 0 && CarriesD(r, e.kind, Author(e), d) ==> r.id in ReplacedBy(db, e, first)
    {
      ReplacedByParamMeans(inserted, e.kind, Author(e), d, first, r);
      TagCountPositive(r.content.tags, "d", d);
      if CarriesD(r, e.kind, Author(e), d) {
        OlderThanParam(db, e, r);
      }
    }
  }

  /** The first `d` value is repeated, so the event meets itself in the join. */
  predicate SelfReplacing(e: Event) {
    DistinctParam(e).Some? && TagCount(e.tags, "d", DistinctParam(e).value) >= 2
  }

  /** Whatever a submission removes was the same author's, of the same kind, and strictly older. */
  lemma RemovedIsOlder(db: Db, e: Event, first: nat)
    requires Consistent(db) && Accepted(db, e) && LegalFirst(db, e, first)
    ensures NextId(db.events) in ReplacedBy(db, e, first) <==> SelfReplacing(e)
    ensures forall r :: r in db.events && r.id in ReplacedBy(db, e, first) ==>
              r.kind == e.kind && r.author == Author(e) && r.createdAt < e.createdAt
  {
    if IsReplaceable(e.kind) {
      ReplacedReplaceable(db, e, first);
    } else if DistinctParam(e).Some? {
      ReplacedParam(db, e, first);
    }
  }

  // ----- the tag table -----

  /** The tag table is at all times what rebuilding it from the stored events gives. */
  lemma {:induction false} RunsAreConsistent(steps: seq<Step>)
    requires IsRun(steps)
    ensures Consistent(Run(steps))
  {
    if steps == [] {
    } else {
      var init, last := steps[..|steps| - 1], steps[|steps| - 1];
      RunsAreConsistent(init);
      var db := Run(init);
      match last
      case Submit(e, first) =>
        if Accepted(db, e) {
          AcceptedConsistent(db, e, first);
        }
      case Cleanup(now) => DeleteConsistent(db, ExpiredIds(db.events, now));
      case Remove(ids) => DeleteConsistent(db, ids);
    }
  }

  /** A step that is not an accepted submission only takes rows away. */
  lemma OtherStepsOnlyRemove(db: Db, step: Step)
    requires step.Submit? ==> !Accepted(db, step.e)
    ensures forall r :: r in Exec(db, step).events ==> r in db.events
  {
    match step
    case Submit(e, first) =>
    case Cleanup(now) => KeepEventsMembers(db.events, ExpiredIds(db.events, now));
    case Remove(ids) => KeepEventsMembers(db.events, ids);
  }

  /** Every row was written for a submitted event. */
  lemma {:induction false} RowsWereSubmitted(steps: seq<Step>)
    requires IsRun(steps)
    ensures forall r :: r in Run(steps).events ==>
              exists e :: Submitted(steps, e) && HasIdentity(e) && SameRow(r, NewRow(r.id, e))
  {
    if steps == [] {
    } else {
      var init, last := steps[..|steps| - 1], steps[|steps| - 1];
      RowsWereSubmitted(init);
      RunsAreConsistent(init);
      var db := Run(init);
      forall e | Submitted(init, e)
        ensures Submitted(steps, e)
      {
        var i :| 0 <= i < |init| && init[i].Submit? && init[i].e == e;
        assert steps[i] == init[i];
      }
      if last.Submit? && Accepted(db, last.e) {
        assert steps[|steps| - 1].e == last.e;
        assert Submitted(steps, last.e);
        AcceptedRows(db, last.e, last.first);
      } else {
        OtherStepsOnlyRemove(db, last);
      }
    }
  }

  // ----- deletions -----

  /** `d` is a stored deletion that names the stored event `r` by its printed id. */
  predicate Deletes(d: EventRow, r: EventRow) {
    d.kind == 5 && d.author == r.author && r.content.id in TagValues(d.content.tags, "e")
  }

  ghost predicate DeletionsHold(db: Db) {
    forall r, d :: r in db.events && d in db.events && r.kind != 5 && Deletes(d, r) ==> r.hidden
  }

  lemma {:induction false} TargetsMembers(values: seq<string>, h: Blob)
    ensures h in Targets(values) <==> exists v :: v in values && IsHex64(v) && HexDecode(v) == Some(h)
  {
    if values == [] {
    } else {
      TargetsMembers(values[1..], h);
      assert forall v :: v in values <==> v == values[0] || v in values[1..];
    }
  }

  /** A new deletion hides every stored row it names. */
  lemma NewDeletionHides(db: Db, e: Event, first: nat, r: EventRow)
    requires Consistent(db) && Accepted(db, e) && e.kind == 5
    requires r in Insert(db, e).events && r.id !in ReplacedBy(db, e, first) && IsFullHex(r.content.id)
    requires r.kind != 5 && Deletes(Fresh(db, e), r)
    ensures r.id in HiddenBy(db, e, first)
  {
    InsertConsistent(db, e);
    KeepEventsMembers(Insert(db, e).events, ReplacedBy(db, e, first));
    TargetsMembers(TagValues(e.tags, "e"), r.hash);
  }

  /** A stored deletion hides a new row it names. */
  lemma OldDeletionHides(db: Db, e: Event, first: nat, d: EventRow)
    requires Consistent(db) && Accepted(db, e) && e.kind != 5
    requires d in db.events && d.id !in ReplacedBy(db, e, first) && Deletes(d, Fresh(db, e))
    ensures NextId(db.events) in HiddenBy(db, e, first)
  {
    AcceptedConsistent(db, e, first);
    InsertConsistent(db, e);
    KeepEventsMembers(Insert(db, e).events, ReplacedBy(db, e, first));
    TagRowsOfStored(AfterReplacement(db, e, first), d, "e", e.id);
  }

  /** Deleting and hiding rows makes deletions hold if it hides whatever they name. */
  lemma DeletionsHoldAfter(events: seq<EventRow>, gone: set<nat>, hid: set<nat>, after: Db)
    requires after.events == Hide(KeepEvents(events, gone), hid)
    requires forall r, d ::
               r in events && r.id !in gone && d in events && d.id !in gone && r.kind != 5 && Deletes(d, r)
               ==> r.hidden || r.id in hid
    ensures DeletionsHold(after)
  {
    KeptAndMarked(events, gone, hid);
    forall r, d | r in after.events && d in after.events && r.kind != 5 && Deletes(d, r)
      ensures r.hidden
    {
      var r0 :| r0 in events && r0.id !in gone && r == Marked(r0, hid);
      var d0 :| d0 in events && d0.id !in gone && d == Marked(d0, hid);
      assert Deletes(d0, r0);
    }
  }

  lemma AcceptedKeepsDeletions(db: Db, e: Event, first: nat)
    requires Consistent(db) && Accepted(db, e) && HasIdentity(e) && DeletionsHold(db)
    requires forall r :: r in db.events ==> IsFullHex(r.content.id)
    ensures DeletionsHold(Persist(db, e, first).0)
  {
    InsertConsistent(db, e);
    var events := Insert(db, e).events;
    var gone, hid := ReplacedBy(db, e, first), HiddenBy(db, e, first);
    forall r, d | r in events && r.id !in gone && d in events && d.id !in gone && r.kind != 5 && Deletes(d, r)
      ensures r.hidden || r.id in hid
    {
      if d !in db.events {
        NewDeletionHides(db, e, first, r);
      } else if r !in db.events {
        OldDeletionHides(db, e, first, d);
      }
    }
    DeletionsHoldAfter(events, gone, hid, Persist(db, e, first).0);
  }

  /** NIP-09 in every state: whichever arrived first, an event named by its id in a stored deletion
      of the same author is hidden. */
  lemma {:induction false} DeletedEventsAreHidden(steps: seq<Step>)
    requires IsRun(steps)
    ensures DeletionsHold(Run(steps))
  {
    if steps == [] {
    } else {
      var init, last := steps[..|steps| - 1], steps[|steps| - 1];
      DeletedEventsAreHidden(init);
      RunsAreConsistent(init);
      RowsWereSubmitted(init);
      var db := Run(init);
      if last.Submit? && Accepted(db, last.e) {
        AcceptedKeepsDeletions(db, last.e, last.first);
      } else {
        OtherStepsOnlyRemove(db, last);
      }
    }
  }

  /** A submitted deletion of the row's author names it, in either case of hex. */
  ghost predicate Cause(steps: seq<Step>, r: EventRow) {
    exists d, v :: Submitted(steps, d) && d.kind == 5 && HexDecode(d.pubkey) == Some(r.author) &&
      v in TagValues(d.tags, "e") && HexDecode(v) == Some(r.hash)
  }

  /** The converse over runs: only such a deletion ever hides an event. */
  lemma {:induction false} HiddenEventsWereDeleted(steps: seq<Step>)
    requires IsRun(steps)
    ensures forall r :: r in Run(steps).events && r.hidden ==> r.kind != 5 && Cause(steps, r)
  {
    if steps == [] {
    } else {
      var init, last := steps[..|steps| - 1], steps[|steps| - 1];
      HiddenEventsWereDeleted(init);
      RunsAreConsistent(init);
      var db := Run(init);
      forall h | h in Run(steps).events && h.hidden
        ensures h.kind != 5 && Cause(steps, h)
      {
        if last.Submit? && Accepted(db, last.e) {
          var e, first := last.e, last.first;
          var r := MarkedOrigin(Insert(db, e).events, ReplacedBy(db, e, first), HiddenBy(db, e, first), h);
          InsertConsistent(db, e);
          if r.hidden {
            CauseCarriesOver(init, steps, r, h);
          } else if e.kind == 5 {
            HiddenByNewDeletion(db, e, first, r);
            assert Submitted(steps, e);
          } else {
            HiddenByOldDeletion(init, e, first);
            SameIdSameRow(Insert(db, e).events, r, Fresh(db, e));
            CauseCarriesOver(init, steps, r, h);
          }
        } else {
          OtherStepsOnlyRemove(db, last);
          CauseCarriesOver(init, steps, h, h);
        }
      }
    }
  }

  lemma MarkedOrigin(events: seq<EventRow>, gone: set<nat>, hid: set<nat>, h: EventRow) returns (r: EventRow)
    requires h in Hide(KeepEvents(events, gone), hid)
    ensures r in events && r.id !in gone && h == Marked(r, hid)
  {
    KeptAndMarked(events, gone, hid);
    r :| r in events && r.id !in gone && h == Marked(r, hid);
  }

  lemma CauseCarriesOver(init: seq<Step>, steps: seq<Step>, r: EventRow, h: EventRow)
    requires Cause(init, r) && r.author == h.author && r.hash == h.hash
    requires init <= steps
    ensures Cause(steps, h)
  {
    var d, v :| Submitted(init, d) && d.kind == 5 && HexDecode(d.pubkey) == Some(r.author) &&
                v in TagValues(d.tags, "e") && HexDecode(v) == Some(r.hash);
    var i :| 0 <= i < |init| && init[i].Submit? && init[i].e == d;
    assert steps[i] == init[i];
    assert Submitted(steps, d);
  }

  lemma HiddenByNewDeletion(db: Db, e: Event, first: nat, r: EventRow)
    requires Consistent(db) && Accepted(db, e) && e.kind == 5
    requires r in Insert(db, e).events && r.id in HiddenBy(db, e, first)
    ensures r.kind != 5 && r.author == Author(e)
    ensures exists v :: v in TagValues(e.tags, "e") && HexDecode(v) == Some(r.hash)
  {
    InsertConsistent(db, e);
    KeepEventsMembers(Insert(db, e).events, ReplacedBy(db, e, first));
    var targets := Targets(TagValues(e.tags, "e"));
    var s :| s in AfterReplacement(db, e, first).events && s.kind != 5 && s.author == Author(e) &&
             s.hash in targets && s.id == r.id;
    SameIdSameRow(Insert(db, e).events, r, s);
    TargetsMembers(TagValues(e.tags, "e"), r.hash);
  }

  /** What a recorded deletion is: a stored kind 5 row whose tags hold the id. */
  lemma RecordedDeletion(db: Db, author: Blob, id: string) returns (s: EventRow)
    requires Consistent(db) && DeletionRecorded(db, author, id)
    ensures s in db.events && s.author == author && s.kind == 5 && id in TagValues(s.content.tags, "e")
  {
    var t;
    s, t :| s in db.events && s.author == author && t in db.tags && t.eventId == s.id &&
            t.name == "e" && t.kind == 5 && t.value == id;
    TagRowsOfStored(db, s, "e", id);
    assert t == TagRow(s.id, "e", id, s.kind, s.createdAt);
  }

  lemma HiddenByOldDeletion(init: seq<Step>, e: Event, first: nat)
    requires IsRun(init) && Accepted(Run(init), e) && e.kind != 5
    requires HiddenBy(Run(init), e, first) != {}
    ensures HiddenBy(Run(init), e, first) == {NextId(Run(init).events)}
    ensures Cause(init, Fresh(Run(init), e))
  {
    RunsAreConsistent(init);
    RowsWereSubmitted(init);
    var db := Run(init);
    AcceptedConsistent(db, e, first);
    var s := RecordedDeletion(AfterReplacement(db, e, first), Author(e), e.id);
    InsertConsistent(db, e);
    KeepEventsMembers(Insert(db, e).events, ReplacedBy(db, e, first));
    var d :| Submitted(init, d) && HasIdentity(d) && SameRow(s, NewRow(s.id, d));
    assert e.id in TagValues(d.tags, "e");
  }
}
