/** Replacement and return values over whole runs of the event store. */
module StoreLaws {
  import opened Text
  import opened Events
  import opened Tables
  import opened Store
  import opened StoreRuns

  // ----- what is accepted -----

  /** Some integer of the event needs more than 63 bits. */
  predicate TooLarge(e: Event) {
    e.createdAt >= 0x8000_0000_0000_0000 || e.kind >= 0x8000_0000_0000_0000 ||
    (Expiration(e.tags).Some? && Expiration(e.tags).value >= 0x8000_0000_0000_0000)
  }

  /** A stored event of the same author and kind that competes with this one. */
  predicate Rivals(r: EventRow, e: Event) {
    r.kind == e.kind && Some(r.author) == HexDecode(e.pubkey) &&
    (|| e.kind in {0, 3, 41}
     || 10000 <= e.kind < 20000
     || (30000 <= e.kind < 40000 && DistinctParam(e).value in TagValues(r.content.tags, "d")))
  }

  /** Exactly what a submission must meet: no integer too large, a new id, and only older rivals. */
  lemma AcceptedExactly(db: Db, e: Event)
    requires Consistent(db) && HasIdentity(e)
    ensures Accepted(db, e) <==>
            && !TooLarge(e)
            && (forall r :: r in db.events ==> Some(r.hash) != HexDecode(e.id))
            && (forall r :: r in db.events && Rivals(r, e) ==> r.createdAt < e.createdAt)
  {
    forall r | r in db.events && DistinctParam(e).Some?
      ensures JoinCount(db.tags, r.id, "d", DistinctParam(e).value) > 0 <==>
              DistinctParam(e).value in TagValues(r.content.tags, "d")
    {
      JoinCountIsTagCount(db, r, DistinctParam(e).value);
    }
  }

  /** What is not accepted changes nothing: it is an error exactly if its time is too large, or another
      integer is and no rival is as new. */
  lemma RefusedExactly(db: Db, e: Event, first: nat)
    requires Consistent(db) && HasIdentity(e) && !Accepted(db, e)
    ensures Persist(db, e, first).0 == db && Persist(db, e, first).1 in {Wrote(0), Failed}
    ensures Persist(db, e, first).1 == Failed <==>
            TooLarge(e) &&
            (e.createdAt >= 0x8000_0000_0000_0000 ||
             forall r :: r in db.events && Rivals(r, e) ==> r.createdAt < e.createdAt)
  {
    forall r | r in db.events && DistinctParam(e).Some?
      ensures JoinCount(db.tags, r.id, "d", DistinctParam(e).value) > 0 <==>
              DistinctParam(e).value in TagValues(r.content.tags, "d")
    {
      JoinCountIsTagCount(db, r, DistinctParam(e).value);
    }
  }

  /** What is accepted is stored, unless it replaces itself. */
  lemma AcceptedIsStored(db: Db, e: Event, first: nat)
    requires Consistent(db) && Accepted(db, e) && LegalFirst(db, e, first)
    ensures (exists r :: r in Persist(db, e, first).0.events && SameRow(r, Fresh(db, e))) <==> !SelfReplacing(e)
  {
    RemovedIsOlder(db, e, first);
    AcceptedRows(db, e, first);
    NextIsAbove(db.events);
    if !SelfReplacing(e) {
      assert SameRow(Marked(Fresh(db, e), HiddenBy(db, e, first)), Fresh(db, e));
    }
  }

  /** Which submissions a run stores, read off the events it holds, for every kind: a regular event if
      its id is new; a replaceable one if, besides, it is newer than every event of its author and kind;
      a parameterised one if it is newer than every such event with its key among its `d` values. */
  lemma AcceptedInRunExactly(steps: seq<Step>, e: Event)
    requires IsRun(steps) && HasIdentity(e)
    ensures
      var held := set r | r in Run(steps).events :: r.content;
      var same := set c | c in held && c.kind == e.kind && HexDecode(c.pubkey) == HexDecode(e.pubkey);
      Accepted(Run(steps), e) <==>
      && !TooLarge(e)
      && (forall c :: c in held ==> c.id != e.id)
      && (e.kind in {0, 3, 41} || 10000 <= e.kind < 20000 ==> forall c :: c in same ==> c.createdAt < e.createdAt)
      && (30000 <= e.kind < 40000 ==>
            forall c :: c in same && DistinctParam(e).value in TagValues(c.tags, "d") ==> c.createdAt < e.createdAt)
  {
    var db := Run(steps);
    RunsAreConsistent(steps);
    AcceptedExactly(db, e);
    RowsWereSubmitted(steps);
    forall r | r in db.events
      ensures Faithful(r) && (r.content.id == e.id <==> Some(r.hash) == HexDecode(e.id))
    {
      var a :| Submitted(steps, a) && HasIdentity(a) && SameRow(r, NewRow(r.id, a));
      if Some(r.hash) == HexDecode(e.id) {
        HexDecodeInjective(a.id, e.id);
      }
    }
    HeldContents(db.events, e);
  }

  lemma HeldContents(events: seq<EventRow>, e: Event)
    requires forall r :: r in events ==> Faithful(r) && (r.content.id == e.id <==> Some(r.hash) == HexDecode(e.id))
    ensures
      var held := set r | r in events :: r.content;
      var same := set c | c in held && c.kind == e.kind && HexDecode(c.pubkey) == HexDecode(e.pubkey);
      && ((forall r :: r in events ==> Some(r.hash) != HexDecode(e.id)) <==> forall c :: c in held ==> c.id != e.id)
      && ((forall r :: r in events && Rivals(r, e) ==> r.createdAt < e.createdAt) <==>
          (e.kind in {0, 3, 41} || 10000 <= e.kind < 20000 ==> forall c :: c in same ==> c.createdAt < e.createdAt) &&
          (30000 <= e.kind < 40000 ==>
             forall c :: c in same && DistinctParam(e).value in TagValues(c.tags, "d") ==> c.createdAt < e.createdAt))
  {
    var held := set r | r in events :: r.content;
    forall r | r in events
      ensures r.content in held && r.createdAt == r.content.createdAt && r.kind == r.content.kind
      ensures Some(r.author) == HexDecode(r.content.pubkey)
    {
      assert Faithful(r);
    }
  }

  // ----- what cleanup removes -----

  /** Expiry cleanup removes from any run exactly the events that have expired. */
  lemma CleanupExactly(steps: seq<Step>, now: nat, r: EventRow)
    requires IsRun(steps)
    ensures r in Exec(Run(steps), Cleanup(now)).events <==> r in Run(steps).events && !IsExpired(r.content, now)
  {
    var events := Run(steps).events;
    RunsAreConsistent(steps);
    KeepEventsMembers(events, ExpiredIds(events, now));
    if r in events {
      assert Faithful(r);
      if r.id in ExpiredIds(events, now) {
        var s :| s in events && s.expiresAt.Some? && s.expiresAt.value <= now && s.id == r.id;
        SameIdSameRow(events, r, s);
      }
    }
  }

  /** The columns a submission is stored under, for every stored event of a run. */
  lemma StoredColumns(steps: seq<Step>, r: EventRow)
    requires IsRun(steps) && r in Run(steps).events
    ensures exists e :: Submitted(steps, e) &&
              HexEncode(r.hash) == e.id && HexEncode(r.author) == Lower(e.pubkey) &&
              r.kind == e.kind && r.createdAt == e.createdAt && r.expiresAt == Expiration(e.tags) &&
              r.content == e.(delegatedBy := None, tagidx := None) &&
              r.delegatedBy == if e.delegatedBy.Some? then HexDecode(e.delegatedBy.value) else None
  {
    RowsWereSubmitted(steps);
    var e :| Submitted(steps, e) && HasIdentity(e) && SameRow(r, NewRow(r.id, e));
    PrintedIdentity(e);
  }

  lemma PrintedIdentity(e: Event)
    requires HasIdentity(e)
    ensures HexEncode(HexDecode(e.id).value) == e.id && HexEncode(HexDecode(e.pubkey).value) == Lower(e.pubkey)
  {
    HexDecodeIgnoresCase(e.pubkey);
    Printed(e.id);
    Printed(Lower(e.pubkey));
  }

  /** Encoding what a lower-case text decodes to gives the text back. */
  lemma Printed(s: string)
    requires HexDecode(s).Some? && IsLower(s)
    ensures HexEncode(HexDecode(s).value) == s
  {
    HexRoundTrip(HexDecode(s).value);
    EncodesLower(HexDecode(s).value);
    HexDecodeInjective(HexEncode(HexDecode(s).value), s);
  }

  lemma {:induction false} EncodesLower(b: Blob)
    ensures IsLower(HexEncode(b))
  {
    if b == [] {
    } else {
      EncodesLower(b[1..]);
      assert forall n :: 0 <= n < 16 ==> !IsUpperHexLetter(HEX_DIGITS[n]);
    }
  }

  // ----- replaceable events -----

  ghost predicate OnePerKind(events: seq<EventRow>) {
    forall r, s :: r in events && s in events && IsReplaceable(r.kind) && r.kind == s.kind && r.author == s.author
      ==> r == s
  }

  lemma OnePerKindAfter(events: seq<EventRow>, gone: set<nat>, hid: set<nat>)
    requires forall r, s ::
               r in events && s in events && r.id !in gone && s.id !in gone &&
               IsReplaceable(r.kind) && r.kind == s.kind && r.author == s.author
               ==> r == s
    ensures OnePerKind(Hide(KeepEvents(events, gone), hid))
  {
    var after := Hide(KeepEvents(events, gone), hid);
    forall r, s | r in after && s in after && IsReplaceable(r.kind) && r.kind == s.kind && r.author == s.author
      ensures r == s
    {
      var r0 := MarkedOrigin(events, gone, hid, r);
      var s0 := MarkedOrigin(events, gone, hid, s);
    }
  }

  lemma AcceptedKeepsOnePerKind(db: Db, e: Event, first: nat)
    requires Consistent(db) && Accepted(db, e) && LegalFirst(db, e, first) && OnePerKind(db.events)
    ensures OnePerKind(Persist(db, e, first).0.events)
  {
    var gone := ReplacedBy(db, e, first);
    if IsReplaceable(e.kind) {
      ReplacedReplaceable(db, e, first);
    }
    SlotIsTaken(db.events, Fresh(db, e), gone);
    OnePerKindAfter(db.events + [Fresh(db, e)], gone, HiddenBy(db, e, first));
  }

  lemma SlotIsTaken(before: seq<EventRow>, row: EventRow, gone: set<nat>)
    requires OnePerKind(before)
    requires IsReplaceable(row.kind) ==>
               forall r :: r in before && r.kind == row.kind && r.author == row.author ==> r.id in gone
    ensures forall r, s ::
              r in before + [row] && s in before + [row] && r.id !in gone && s.id !in gone &&
              IsReplaceable(r.kind) && r.kind == s.kind && r.author == s.author
              ==> r == s
  {
  }

  /** Every run leaves at most one row per author and replaceable kind. */
  lemma {:induction false} OneRowPerReplaceable(steps: seq<Step>)
    requires IsRun(steps)
    ensures OnePerKind(Run(steps).events)
  {
    if steps == [] {
    } else {
      var init, last := steps[..|steps| - 1], steps[|steps| - 1];
      OneRowPerReplaceable(init);
      RunsAreConsistent(init);
      if last.Submit? && Accepted(Run(init), last.e) {
        AcceptedKeepsOnePerKind(Run(init), last.e, last.first);
      } else {
        OtherStepsOnlyRemove(Run(init), last);
      }
    }
  }

  /** No cleanup and no pruning. */
  predicate OnlySubmits(steps: seq<Step>) {
    forall i :: 0 <= i < |steps| ==> steps[i].Submit?
  }

  /** Ids are digests: equal ids mean equal signed fields. */
  ghost predicate CollisionFree(steps: seq<Step>) {
    forall a, b :: Submitted(steps, a) && Submitted(steps, b) && a.id == b.id ==> SameSigned(a, b)
  }

  /** Where events replace each other: one author's events of a replaceable kind, or of a parameterised
      kind and one `d` value. */
  datatype Slot = Slot(kind: nat, author: Blob, key: Option<string>)

  predicate IsSlot(s: Slot) {
    if s.key.None? then IsReplaceable(s.kind) else IsParamReplaceable(s.kind)
  }

  predicate HasKey(tags: seq<Tag>, key: Option<string>) {
    key.Some? ==> key.value in TagValues(tags, "d")
  }

  predicate InSlot(r: EventRow, s: Slot) {
    r.kind == s.kind && r.author == s.author && HasKey(r.content.tags, s.key)
  }

  /** A submission that competes for the slot. */
  predicate Competes(e: Event, s: Slot) {
    e.kind == s.kind && HexDecode(e.pubkey) == Some(s.author) && Storable(e) && HasKey(e.tags, s.key)
  }

  /** The only `d` value of the event is its key. */
  predicate SingleKey(e: Event) {
    DistinctParam(e).Some? && TagValues(e.tags, "d") == [DistinctParam(e).value]
  }

  /** The author's submissions of a parameterised kind have one explicit `d` value each. */
  ghost predicate SingleKeys(steps: seq<Step>, s: Slot) {
    s.key.Some? ==>
      forall e :: Submitted(steps, e) && e.kind == s.kind && HexDecode(e.pubkey) == Some(s.author) ==> SingleKey(e)
  }

  /** The newest competing submission so far, the earliest on ties. */
  function Newest(steps: seq<Step>, s: Slot): Option<Event> {
    if steps == [] then None
    else
      var before, last := Newest(steps[..|steps| - 1], s), steps[|steps| - 1];
      if last.Submit? && Competes(last.e, s) && (before.None? || before.value.createdAt < last.e.createdAt)
      then Some(last.e) else before
  }

  /** The stored events of the slot. */
  function Contents(events: seq<EventRow>, s: Slot): set<Event> {
    set r | r in events && InSlot(r, s) :: r.content
  }

  function Survivor(e: Option<Event>): set<Event> {
    match e
    case None => {}
    case Some(s) => {Serialised(s)}
  }

  lemma SubmittedGrows(init: seq<Step>, steps: seq<Step>)
    requires init <= steps
    ensures forall e :: Submitted(init, e) ==> Submitted(steps, e)
  {
    forall e | Submitted(init, e)
      ensures Submitted(steps, e)
    {
      var i :| 0 <= i < |init| && init[i].Submit? && init[i].e == e;
      assert steps[i] == init[i];
    }
  }

  /** A duplicate id belongs to the same event. */
  lemma DuplicateIsSame(init: seq<Step>, e: Event, r: EventRow)
    requires IsRun(init) && HasIdentity(e) && r in Run(init).events && Some(r.hash) == HexDecode(e.id)
    requires forall a :: Submitted(init, a) && a.id == e.id ==> SameSigned(a, e)
    ensures r.kind == e.kind && r.author == HexDecode(e.pubkey).value && r.createdAt == e.createdAt
    ensures r.content.tags == e.tags
  {
    RowsWereSubmitted(init);
    var a :| Submitted(init, a) && HasIdentity(a) && SameRow(r, NewRow(r.id, a));
    HexDecodeInjective(a.id, e.id);
  }

  lemma ContentsAfter(events: seq<EventRow>, gone: set<nat>, hid: set<nat>, s: Slot)
    ensures Contents(Hide(KeepEvents(events, gone), hid), s) ==
            set r | r in events && r.id !in gone && InSlot(r, s) :: r.content
  {
    KeptAndMarked(events, gone, hid);
    var after := Hide(KeepEvents(events, gone), hid);
    var expected := set r | r in events && r.id !in gone && InSlot(r, s) :: r.content;
    forall c | c in Contents(after, s)
      ensures c in expected
    {
      var h :| h in after && InSlot(h, s) && h.content == c;
      var r := MarkedOrigin(events, gone, hid, h);
    }
    forall c | c in expected
      ensures c in Contents(after, s)
    {
      var r :| r in events && r.id !in gone && InSlot(r, s) && r.content == c;
      assert Marked(r, hid) in after && InSlot(Marked(r, hid), s);
    }
  }

  lemma OnlyOne(events: seq<EventRow>, gone: set<nat>, s: Slot, x: EventRow)
    requires x in events && x.id !in gone && InSlot(x, s)
    requires forall r :: r in events && r.id !in gone && InSlot(r, s) ==> r == x
    ensures (set r | r in events && r.id !in gone && InSlot(r, s) :: r.content) == {x.content}
  {
  }

  lemma SlotUntouched(before: seq<EventRow>, events: seq<EventRow>, gone: set<nat>, s: Slot)
    requires forall r: EventRow :: InSlot(r, s) ==> (r in events && r.id !in gone <==> r in before)
    ensures (set r | r in events && r.id !in gone && InSlot(r, s) :: r.content) == Contents(before, s)
  {
  }

  /** Every stored row of the slot's author and kind has one `d` value, if the slot has a key. */
  ghost predicate RowsSingleKey(events: seq<EventRow>, s: Slot) {
    s.key.Some? ==>
      forall r :: r in events && r.kind == s.kind && r.author == s.author ==> SingleKey(r.content)
  }

  lemma StoredSingleKeys(steps: seq<Step>, s: Slot)
    requires IsRun(steps) && SingleKeys(steps, s)
    ensures RowsSingleKey(Run(steps).events, s)
  {
    RowsWereSubmitted(steps);
    forall r | s.key.Some? && r in Run(steps).events && r.kind == s.kind && r.author == s.author
      ensures SingleKey(r.content)
    {
      var e :| Submitted(steps, e) && HasIdentity(e) && SameRow(r, NewRow(r.id, e));
      assert SingleKey(e) && r.content == Serialised(e);
    }
  }

  /** An accepted competitor takes the slot for itself. */
  lemma OwnSlotReplaced(db: Db, e: Event, first: nat, s: Slot)
    requires Consistent(db) && Accepted(db, e) && LegalFirst(db, e, first) && IsSlot(s) && Competes(e, s)
    requires s.key.Some? ==> SingleKey(e)
    ensures NextId(db.events) !in ReplacedBy(db, e, first)
    ensures forall r :: r in db.events && InSlot(r, s) ==> r.id in ReplacedBy(db, e, first)
  {
    if s.key.None? {
      ReplacedReplaceable(db, e, first);
    } else {
      ReplacedParam(db, e, first);
      SingleIsCountedOnce(e);
    }
  }

  lemma SingleIsCountedOnce(e: Event)
    requires SingleKey(e)
    ensures TagCount(e.tags, "d", DistinctParam(e).value) == 1
  {
    CountIsLength(e.tags, "d", DistinctParam(e).value);
  }

  lemma {:induction false} CountIsLength(tags: seq<Tag>, name: string, v: string)
    ensures TagCount(tags, name, v) == multiset(TagValues(tags, name))[v]
  {
    if tags == [] {
    } else {
      CountIsLength(tags[1..], name, v);
    }
  }

  lemma OwnSlotContents(db: Db, e: Event, first: nat, s: Slot)
    requires Consistent(db) && Accepted(db, e) && LegalFirst(db, e, first) && IsSlot(s) && Competes(e, s)
    requires s.key.Some? ==> SingleKey(e)
    ensures Contents(Persist(db, e, first).0.events, s) == {Serialised(e)}
  {
    OwnSlotReplaced(db, e, first, s);
    var events, gone := db.events + [Fresh(db, e)], ReplacedBy(db, e, first);
    FreshKey(db, e);
    ContentsAfter(events, gone, HiddenBy(db, e, first), s);
    OnlyOne(events, gone, s, Fresh(db, e));
  }

  /** Whatever does not compete leaves the slot as it is. */
  lemma OtherSlotContents(db: Db, e: Event, first: nat, s: Slot)
    requires Consistent(db) && Accepted(db, e) && LegalFirst(db, e, first) && IsSlot(s) && !Competes(e, s)
    requires RowsSingleKey(db.events, s)
    requires s.key.Some? && e.kind == s.kind && Author(e) == s.author ==> SingleKey(e)
    ensures Contents(Persist(db, e, first).0.events, s) == Contents(db.events, s)
  {
    NextIsAbove(db.events);
    FreshKey(db, e);
    var row, gone := Fresh(db, e), ReplacedBy(db, e, first);
    forall r | r in db.events && InSlot(r, s)
      ensures r.id !in gone
    {
      RemovedIsOlder(db, e, first);
      if r.id in gone {
        ReplacedParam(db, e, first);
      }
    }
    ContentsAfter(db.events + [row], gone, HiddenBy(db, e, first), s);
    SlotUntouched(db.events, db.events + [row], gone, s);
  }

  /** Without cleanup, what is left is the newest event ever submitted, the first on ties: for every
      replaceable kind, and for every key of a parameterised kind whose events have one key each. */
  lemma {:induction false} SurvivorIsNewest(steps: seq<Step>, s: Slot)
    requires IsRun(steps) && OnlySubmits(steps) && CollisionFree(steps) && IsSlot(s) && SingleKeys(steps, s)
    ensures Contents(Run(steps).events, s) == Survivor(Newest(steps, s))
  {
    if steps == [] {
    } else {
      var init, last := steps[..|steps| - 1], steps[|steps| - 1];
      SubmittedGrows(init, steps);
      SurvivorIsNewest(init, s);
      assert Submitted(steps, last.e);
      SubmissionToSlot(init, last.e, last.first, s);
    }
  }

  /** One submission leaves in the slot the event itself if it competes and is newer than the
      occupant, and the occupant otherwise. */
  lemma SubmissionToSlot(init: seq<Step>, e: Event, first: nat, s: Slot)
    requires IsRun(init) && IsSlot(s) && LegalStep(Run(init), Submit(e, first)) && SingleKeys(init, s)
    requires s.key.Some? && e.kind == s.kind && HexDecode(e.pubkey) == Some(s.author) ==> SingleKey(e)
    requires forall a :: Submitted(init, a) && a.id == e.id ==> SameSigned(a, e)
    ensures
      var before := Contents(Run(init).events, s);
      Contents(Persist(Run(init), e, first).0.events, s) ==
        if Competes(e, s) && forall c :: c in before ==> c.createdAt < e.createdAt
        then {Serialised(e)} else before
  {
    RunsAreConsistent(init);
    var db := Run(init);
    if Competes(e, s) {
      SlotDecides(init, e, s);
    }
    if Accepted(db, e) {
      if Competes(e, s) {
        OwnSlotContents(db, e, first, s);
      } else {
        StoredSingleKeys(init, s);
        OtherSlotContents(db, e, first, s);
      }
    }
  }

  /** Acceptance of a competing event depends on the present occupants only. */
  lemma SlotDecides(init: seq<Step>, e: Event, s: Slot)
    requires IsRun(init) && HasIdentity(e) && IsSlot(s) && Competes(e, s) && (s.key.Some? ==> SingleKey(e))
    requires forall a :: Submitted(init, a) && a.id == e.id ==> SameSigned(a, e)
    ensures Accepted(Run(init), e) <==>
            forall c :: c in Contents(Run(init).events, s) ==> c.createdAt < e.createdAt
  {
    RunsAreConsistent(init);
    var db := Run(init);
    AcceptedExactly(db, e);
    assert s.key.Some? ==> s.key == DistinctParam(e);
    forall r | r in db.events && InSlot(r, s)
      ensures r.content in Contents(db.events, s) && r.content.createdAt == r.createdAt
    {
      assert Faithful(r);
    }
    if forall c :: c in Contents(db.events, s) ==> c.createdAt < e.createdAt {
      if exists r :: r in db.events && Some(r.hash) == HexDecode(e.id) {
        var r :| r in db.events && Some(r.hash) == HexDecode(e.id);
        DuplicateIsSame(init, e, r);
        assert InSlot(r, s);
      }
    }
  }

  /** Submission i is competing, no competing submission is newer, and every earlier one is older. */
  ghost predicate FirstNewest(steps: seq<Step>, s: Slot, i: nat) {
    && i < |steps| && steps[i].Submit? && Competes(steps[i].e, s)
    && forall j :: 0 <= j < |steps| && steps[j].Submit? && Competes(steps[j].e, s) ==>
         steps[j].e.createdAt <= steps[i].e.createdAt && (j < i ==> steps[j].e.createdAt < steps[i].e.createdAt)
  }

  /** `Newest` is the first of the newest competing submissions, and is there when any competes. */
  lemma {:induction false} NewestIsFirstNewest(steps: seq<Step>, s: Slot)
    ensures Newest(steps, s).Some? ==>
              exists i: nat :: FirstNewest(steps, s, i) && steps[i].e == Newest(steps, s).value
    ensures Newest(steps, s).None? ==>
              forall j :: 0 <= j < |steps| && steps[j].Submit? ==> !Competes(steps[j].e, s)
  {
    if steps == [] {
    } else {
      var init, last := steps[..|steps| - 1], steps[|steps| - 1];
      NewestIsFirstNewest(init, s);
      assert forall j :: 0 <= j < |init| ==> init[j] == steps[j];
      var before := Newest(init, s);
      if before.Some? {
        var i: nat :| FirstNewest(init, s, i) && init[i].e == before.value;
        if Newest(steps, s) == before {
          assert FirstNewest(steps, s, i);
        } else {
          assert FirstNewest(steps, s, |steps| - 1);
        }
      } else if Newest(steps, s).Some? {
        assert FirstNewest(steps, s, |steps| - 1);
      }
    }
  }

  lemma NewestBeats(steps: seq<Step>, s: Slot, e: Event)
    requires Submitted(steps, e) && Competes(e, s)
    ensures Newest(steps, s).Some?
    ensures
      var n := Newest(steps, s).value;
      Submitted(steps, n) && Competes(n, s) && e.createdAt <= n.createdAt
  {
    NewestIsFirstNewest(steps, s);
    var j :| 0 <= j < |steps| && steps[j].Submit? && steps[j].e == e;
  }

  /** Two cleanup-free runs over the same events, in any order and with any repetitions, leave the
      same survivor when competing events have distinct times. */
  lemma ArrivalOrderDoesNotMatter(one: seq<Step>, two: seq<Step>, s: Slot)
    requires IsRun(one) && OnlySubmits(one) && CollisionFree(one) && SingleKeys(one, s)
    requires IsRun(two) && OnlySubmits(two) && CollisionFree(two)
    requires IsSlot(s)
    requires forall e :: Submitted(one, e) <==> Submitted(two, e)
    requires DistinctTimes(one, s)
    ensures Contents(Run(one).events, s) == Contents(Run(two).events, s)
  {
    SurvivorIsNewest(one, s);
    SurvivorIsNewest(two, s);
    SameNewest(one, two, s);
  }

  ghost predicate DistinctTimes(steps: seq<Step>, s: Slot) {
    forall a, b ::
      Submitted(steps, a) && Submitted(steps, b) && Competes(a, s) && Competes(b, s) && a.createdAt == b.createdAt
      ==> a == b
  }

  lemma SameNewest(one: seq<Step>, two: seq<Step>, s: Slot)
    requires forall e :: Submitted(one, e) <==> Submitted(two, e)
    requires DistinctTimes(one, s)
    ensures Newest(one, s) == Newest(two, s)
  {
    var a, b := Newest(one, s), Newest(two, s);
    if a.Some? {
      NewestIsFirstNewest(one, s);
      NewestBeats(two, s, a.value);
      NewestBeats(one, s, b.value);
    } else if b.Some? {
      NewestIsFirstNewest(two, s);
      NewestBeats(one, s, b.value);
    }
  }

  // ----- parameterised replaceable events -----

  /** No row carries the explicit replacement key of a row that arrived after it. */
  ghost predicate ParamOrdered(events: seq<EventRow>) {
    forall r, s :: r in events && s in events && r.id < s.id && DistinctParam(s.content).Some? &&
      CarriesD(s, s.kind, s.author, DistinctParam(s.content).value)
      ==> !CarriesD(r, s.kind, s.author, DistinctParam(s.content).value)
  }

  lemma ParamOrderedAfter(events: seq<EventRow>, gone: set<nat>, hid: set<nat>)
    requires forall r, s ::
               r in events && s in events && r.id !in gone && s.id !in gone && r.id < s.id &&
               DistinctParam(s.content).Some? && CarriesD(s, s.kind, s.author, DistinctParam(s.content).value)
               ==> !CarriesD(r, s.kind, s.author, DistinctParam(s.content).value)
    ensures ParamOrdered(Hide(KeepEvents(events, gone), hid))
  {
    var after := Hide(KeepEvents(events, gone), hid);
    forall r, s | r in after && s in after && r.id < s.id && DistinctParam(s.content).Some? &&
      CarriesD(s, s.kind, s.author, DistinctParam(s.content).value)
      ensures !CarriesD(r, s.kind, s.author, DistinctParam(s.content).value)
    {
      var r0 := MarkedOrigin(events, gone, hid, r);
      var s0 := MarkedOrigin(events, gone, hid, s);
    }
  }

  lemma KeyIsTaken(before: seq<EventRow>, row: EventRow, d: Option<string>, gone: set<nat>)
    requires ParamOrdered(before) && d == DistinctParam(row.content)
    requires forall r :: r in before ==> r.id < row.id
    requires d.Some? && CarriesD(row, row.kind, row.author, d.value) ==>
               forall r :: r in before && CarriesD(r, row.kind, row.author, d.value) ==> r.id in gone
    ensures forall r, s ::
              r in before + [row] && s in before + [row] && r.id !in gone && s.id !in gone && r.id < s.id &&
              DistinctParam(s.content).Some? && CarriesD(s, s.kind, s.author, DistinctParam(s.content).value)
              ==> !CarriesD(r, s.kind, s.author, DistinctParam(s.content).value)
  {
  }

  lemma FreshKey(db: Db, e: Event)
    requires !Ignored(db.events, e)
    ensures DistinctParam(Fresh(db, e).content) == DistinctParam(e) && Fresh(db, e).content.tags == e.tags
    ensures Fresh(db, e).kind == e.kind && Fresh(db, e).author == Author(e) && Fresh(db, e).id == NextId(db.events)
  {
  }

  lemma AcceptedKeepsParamOrdered(db: Db, e: Event, first: nat)
    requires Consistent(db) && Accepted(db, e) && LegalFirst(db, e, first) && ParamOrdered(db.events)
    ensures ParamOrdered(Persist(db, e, first).0.events)
  {
    NextIsAbove(db.events);
    if DistinctParam(e).Some? {
      ReplacedParam(db, e, first);
      TagCountPositive(e.tags, "d", DistinctParam(e).value);
    }
    FreshKey(db, e);
    KeyIsTaken(db.events, Fresh(db, e), DistinctParam(e), ReplacedBy(db, e, first));
    ParamOrderedAfter(db.events + [Fresh(db, e)], ReplacedBy(db, e, first), HiddenBy(db, e, first));
  }

  lemma {:induction false} RunsAreParamOrdered(steps: seq<Step>)
    requires IsRun(steps)
    ensures ParamOrdered(Run(steps).events)
  {
    if steps == [] {
    } else {
      var init, last := steps[..|steps| - 1], steps[|steps| - 1];
      RunsAreParamOrdered(init);
      RunsAreConsistent(init);
      if last.Submit? && Accepted(Run(init), last.e) {
        AcceptedKeepsParamOrdered(Run(init), last.e, last.first);
      } else {
        OtherStepsOnlyRemove(Run(init), last);
      }
    }
  }

  /** The replacement key is an explicit `d` tag value. */
  predicate ExplicitParam(e: Event) {
    DistinctParam(e).Some? && DistinctParam(e).value in TagValues(e.tags, "d")
  }

  /** Every run keeps at most one row per author, kind and explicit replacement key. */
  lemma OneRowPerParam(steps: seq<Step>, r: EventRow, s: EventRow)
    requires IsRun(steps) && r in Run(steps).events && s in Run(steps).events
    requires ExplicitParam(r.content) && ExplicitParam(s.content)
    requires r.kind == s.kind && r.author == s.author && DistinctParam(r.content) == DistinctParam(s.content)
    ensures r == s
  {
    RunsAreConsistent(steps);
    RunsAreParamOrdered(steps);
    if r.id == s.id {
      SameIdSameRow(Run(steps).events, r, s);
    }
  }

  /** Exactly which of the author's rows of its kind an accepted parameterised event removes: those
      that carry its key in some `d` tag, except that an implicit key spares the row ORDER BY put
      first, if that carries the key once. */
  lemma ReplacementExactly(db: Db, e: Event, first: nat, r: EventRow)
    requires Consistent(db) && Accepted(db, e) && LegalFirst(db, e, first) && DistinctParam(e).Some?
    requires r in db.events && r.kind == e.kind && r.author == Author(e)
    ensures
      var d := DistinctParam(e).value;
      r.id in ReplacedBy(db, e, first) <==>
      CarriesD(r, e.kind, Author(e), d) &&
      (ExplicitParam(e) || r.id != first || TagCount(r.content.tags, "d", d) > 1)
  {
    var d := DistinctParam(e).value;
    InsertConsistent(db, e);
    ReplacedParam(db, e, first);
    TagCountPositive(e.tags, "d", d);
    TagCountPositive(r.content.tags, "d", d);
    ReplacedByParamMeans(Insert(db, e), e.kind, Author(e), d, first, r);
  }

  /** Of two events with one author, kind and key, exactly when the later removes the earlier. A row
      whose own key is implicit always stays. */
  lemma SameKeyReplacement(db: Db, e: Event, first: nat, r: EventRow)
    requires Consistent(db) && Accepted(db, e) && LegalFirst(db, e, first) && DistinctParam(e).Some?
    requires r in db.events && r.kind == e.kind && r.author == Author(e)
    requires DistinctParam(r.content) == DistinctParam(e)
    ensures r.id in ReplacedBy(db, e, first) <==>
            ExplicitParam(r.content) && (ExplicitParam(e) || r.id != first || SelfReplacing(r.content))
  {
    ReplacementExactly(db, e, first, r);
  }

  /** An accepted parameterised event with an explicit key removes every other row that carries the
      key. With the implicit empty key it may leave one: the row that ORDER BY put first. */
  lemma ReplacementLeftovers(db: Db, e: Event, first: nat, r: EventRow)
    requires Consistent(db) && Accepted(db, e) && LegalFirst(db, e, first) && DistinctParam(e).Some?
    requires r in Persist(db, e, first).0.events && r.id != NextId(db.events)
    requires CarriesD(r, e.kind, Author(e), DistinctParam(e).value)
    ensures !ExplicitParam(e) && r.id == first && TagCount(r.content.tags, "d", DistinctParam(e).value) == 1
  {
    InsertConsistent(db, e);
    var r0 := MarkedOrigin(Insert(db, e).events, ReplacedBy(db, e, first), HiddenBy(db, e, first), r);
    ReplacementExactly(db, e, first, r0);
    TagCountPositive(r.content.tags, "d", DistinctParam(e).value);
  }

  // ----- return values -----

  /** Hashes of the events a query can show. */
  function Visible(db: Db): set<Blob> {
    set r | r in db.events && !r.hidden :: r.hash
  }

  /** The exact meaning of the returned row count. */
  lemma OutcomeMeans(db: Db, e: Event, first: nat)
    requires Consistent(db) && LegalFirst(db, e, first)
    ensures Persist(db, e, first).1 == Wrote(1) <==>
            Accepted(db, e) && (e.kind == 5 || forall d :: d in db.events ==> !Deletes(d, Fresh(db, e)))
    ensures Persist(db, e, first).1 == Failed ==> Persist(db, e, first).0 == db
  {
    if Accepted(db, e) && e.kind != 5 {
      AcceptedConsistent(db, e, first);
      InsertConsistent(db, e);
      RemovedIsOlder(db, e, first);
      KeepEventsMembers(Insert(db, e).events, ReplacedBy(db, e, first));
      if DeletionRecorded(AfterReplacement(db, e, first), Author(e), e.id) {
        var d := RecordedDeletion(AfterReplacement(db, e, first), Author(e), e.id);
        assert Deletes(d, Fresh(db, e));
      }
      forall d | d in db.events && Deletes(d, Fresh(db, e))
        ensures DeletionRecorded(AfterReplacement(db, e, first), Author(e), e.id)
      {
        TagRowsOfStored(AfterReplacement(db, e, first), d, "e", e.id);
      }
    }
  }

  lemma VisibleAfter(events: seq<EventRow>, gone: set<nat>, hid: set<nat>, after: Db)
    requires after.events == Hide(KeepEvents(events, gone), hid)
    ensures forall h :: h in Visible(after) <==>
              exists r :: r in events && r.id !in gone && r.id !in hid && !r.hidden && r.hash == h
  {
    KeptAndMarked(events, gone, hid);
    forall h | h in Visible(after)
      ensures exists r :: r in events && r.id !in gone && r.id !in hid && !r.hidden && r.hash == h
    {
      var x :| x in after.events && !x.hidden && x.hash == h;
      var r := MarkedOrigin(events, gone, hid, x);
    }
    forall h | exists r :: r in events && r.id !in gone && r.id !in hid && !r.hidden && r.hash == h
      ensures h in Visible(after)
    {
      var r :| r in events && r.id !in gone && r.id !in hid && !r.hidden && r.hash == h;
      assert Marked(r, hid) in after.events;
    }
  }

  lemma InsertUnique(db: Db, e: Event)
    requires Consistent(db) && Accepted(db, e)
    ensures UniqueHashes(Insert(db, e).events) && Fresh(db, e) in Insert(db, e).events
  {
    InsertConsistent(db, e);
  }

  /** An accepted event is visible unless it replaced itself or a deletion hid it. */
  lemma ArrivalVisible(db: Db, e: Event, first: nat)
    requires Consistent(db) && Accepted(db, e) && LegalFirst(db, e, first)
    ensures Fresh(db, e).hash in Visible(Persist(db, e, first).0) <==>
            !SelfReplacing(e) && NextId(db.events) !in HiddenBy(db, e, first)
  {
    RemovedIsOlder(db, e, first);
    InsertUnique(db, e);
    HashVisible(Insert(db, e).events, ReplacedBy(db, e, first), HiddenBy(db, e, first),
      Persist(db, e, first).0, Fresh(db, e));
  }

  lemma DeletionStaysVisible(db: Db, e: Event, first: nat)
    requires Consistent(db) && Accepted(db, e) && e.kind == 5
    ensures NextId(db.events) !in HiddenBy(db, e, first)
  {
    InsertConsistent(db, e);
    if NextId(db.events) in HiddenBy(db, e, first) {
      HiddenByNewDeletion(db, e, first, Fresh(db, e));
    }
  }

  /** One row written: the event was absent, and it is now stored and visible unless it replaced
      itself. */
  lemma SavedMeansVisible(db: Db, e: Event, first: nat)
    requires Consistent(db) && LegalFirst(db, e, first) && Persist(db, e, first).1 == Wrote(1)
    ensures HexDecode(e.id).Some?
    ensures forall r :: r in db.events ==> r.hash != HexDecode(e.id).value
    ensures HexDecode(e.id).value in Visible(Persist(db, e, first).0) <==> !SelfReplacing(e)
  {
    ArrivalVisible(db, e, first);
    if e.kind == 5 {
      DeletionStaysVisible(db, e, first);
    }
  }

  lemma HashVisible(events: seq<EventRow>, gone: set<nat>, hid: set<nat>, after: Db, row: EventRow)
    requires UniqueHashes(events) && row in events && after.events == Hide(KeepEvents(events, gone), hid)
    ensures row.hash in Visible(after) <==> row.id !in gone && row.id !in hid && !row.hidden
  {
    VisibleAfter(events, gone, hid, after);
    if row.hash in Visible(after) {
      var r :| r in events && r.id !in gone && r.id !in hid && !r.hidden && r.hash == row.hash;
      SameHashSameRow(events, r, row);
    }
  }

  /** No row written, or an error: nothing became visible. */
  lemma UnsavedShowsNothingNew(db: Db, e: Event, first: nat)
    requires Consistent(db) && LegalFirst(db, e, first) && Persist(db, e, first).1 != Wrote(1)
    ensures Visible(Persist(db, e, first).0) <= Visible(db)
  {
    if Accepted(db, e) {
      InsertConsistent(db, e);
      var events, gone, hid := Insert(db, e).events, ReplacedBy(db, e, first), HiddenBy(db, e, first);
      VisibleAfter(events, gone, hid, Persist(db, e, first).0);
      assert NextId(db.events) in hid;
    }
  }

  /** A deletion that arrives after its target hides it for every spelling of the id. */
  lemma LaterDeletionHides(db: Db, d: Event, first: nat, r: EventRow)
    requires Consistent(db) && Accepted(db, d) && LegalFirst(db, d, first) && d.kind == 5
    requires r in db.events && !r.hidden && r.kind != 5
    ensures r.hash in Visible(Persist(db, d, first).0) <==>
            !(r.author == Author(d) &&
              exists v :: v in TagValues(d.tags, "e") && IsHex64(v) && HexDecode(v) == Some(r.hash))
  {
    InsertConsistent(db, d);
    var events, gone, hid := Insert(db, d).events, ReplacedBy(db, d, first), HiddenBy(db, d, first);
    VisibleAfter(events, gone, hid, Persist(db, d, first).0);
    RemovedIsOlder(db, d, first);
    assert r.id !in gone;
    TargetsMembers(TagValues(d.tags, "e"), r.hash);
    KeepEventsMembers(events, gone);
    assert r.id in hid <==> r.author == Author(d) && r.hash in Targets(TagValues(d.tags, "e")) by {
      if r.id in hid {
        var s :| s in AfterReplacement(db, d, first).events && s.kind != 5 && s.author == Author(d) &&
                 s.hash in Targets(TagValues(d.tags, "e")) && s.id == r.id;
        SameIdSameRow(events, r, s);
      }
    }
    if r.hash in Visible(Persist(db, d, first).0) {
      var s :| s in events && s.id !in gone && s.id !in hid && !s.hidden && s.hash == r.hash;
      SameHashSameRow(events, r, s);
    }
  }

  // ----- a deletion and its target in either order -----

  /** The deletion names the event in a 64-digit tag of either case. */
  predicate NamesInAnyCase(d: Event, e: Event) {
    exists v :: v in TagValues(d.tags, "e") && IsHex64(v) && HexDecode(v) == HexDecode(e.id)
  }

  predicate NamesExactly(d: Event, e: Event) {
    e.id in TagValues(d.tags, "e")
  }

  predicate SameAuthor(d: Event, e: Event) {
    HexDecode(d.pubkey) == HexDecode(e.pubkey)
  }

  /** A deletion of the event's author that names its id is already stored. */
  predicate AlreadyDeleted(events: seq<EventRow>, e: Event) {
    exists d :: d in events && DeletesEvent(d, e)
  }

  predicate DeletesEvent(d: EventRow, e: Event) {
    d.kind == 5 && HexDecode(e.pubkey) == Some(d.author) && e.id in TagValues(d.content.tags, "e")
  }

  /** An accepted event is visible afterwards exactly if it neither replaces itself nor was deleted before. */
  lemma VisibleAfterOwnArrival(db: Db, e: Event, first: nat)
    requires Consistent(db) && Accepted(db, e) && LegalFirst(db, e, first) && e.kind != 5
    ensures HexDecode(e.id).value in Visible(Persist(db, e, first).0) <==>
            !SelfReplacing(e) && !AlreadyDeleted(db.events, e)
  {
    OutcomeMeans(db, e, first);
    assert forall d: EventRow :: DeletesEvent(d, e) <==> Deletes(d, Fresh(db, e));
    if AlreadyDeleted(db.events, e) {
      UnsavedShowsNothingNew(db, e, first);
    } else {
      SavedMeansVisible(db, e, first);
    }
  }

  lemma DeletionMeetsRow(db: Db, e: Event, d: Event, first: nat, r: EventRow)
    requires Consistent(db) && Accepted(db, d) && LegalFirst(db, d, first) && d.kind == 5
    requires r in db.events && !r.hidden && r.kind != 5
    requires HexDecode(e.id) == Some(r.hash) && HexDecode(e.pubkey) == Some(r.author)
    ensures r.hash in Visible(Persist(db, d, first).0) <==> !(SameAuthor(d, e) && NamesInAnyCase(d, e))
  {
    LaterDeletionHides(db, d, first, r);
  }

  lemma EventThenDeletion(db: Db, e: Event, d: Event, i: nat, j: nat)
    requires Consistent(db) && Accepted(db, e) && LegalFirst(db, e, i) && e.kind != 5 && d.kind == 5
    requires Accepted(Persist(db, e, i).0, d) && LegalFirst(Persist(db, e, i).0, d, j) && HexDecode(e.id) != HexDecode(d.id)
    ensures HexDecode(e.id).value in Visible(Persist(Persist(db, e, i).0, d, j).0) <==>
            !SelfReplacing(e) && !AlreadyDeleted(db.events, e) && !(SameAuthor(d, e) && NamesInAnyCase(d, e))
  {
    var one, h := Persist(db, e, i).0, HexDecode(e.id).value;
    VisibleAfterOwnArrival(db, e, i);
    AcceptedConsistent(db, e, i);
    if h in Visible(one) {
      ArrivedRow(db, e, i);
      var r :| r in one.events && !r.hidden && r.hash == h;
      DeletionMeetsRow(one, e, d, j, r);
    } else {
      DeletionShowsOnlyItself(one, d, j);
    }
  }

  /** The stored row of an event that just arrived. */
  lemma ArrivedRow(db: Db, e: Event, first: nat)
    requires Consistent(db) && Accepted(db, e) && e.kind != 5
    ensures forall r :: r in Persist(db, e, first).0.events && r.hash == HexDecode(e.id).value ==>
              r.author == Author(e) && r.kind == e.kind
  {
    InsertUnique(db, e);
    HashOwner(Insert(db, e).events, ReplacedBy(db, e, first), HiddenBy(db, e, first), Fresh(db, e));
  }

  lemma HashOwner(events: seq<EventRow>, gone: set<nat>, hid: set<nat>, row: EventRow)
    requires UniqueHashes(events) && row in events
    ensures forall r :: r in Hide(KeepEvents(events, gone), hid) && r.hash == row.hash ==> r == Marked(row, hid)
  {
    forall r | r in Hide(KeepEvents(events, gone), hid) && r.hash == row.hash
      ensures r == Marked(row, hid)
    {
      var r0 := MarkedOrigin(events, gone, hid, r);
      SameHashSameRow(events, r0, row);
    }
  }

  lemma DeletionShowsOnlyItself(db: Db, d: Event, first: nat)
    requires Consistent(db) && Accepted(db, d) && d.kind == 5
    ensures forall h :: h in Visible(Persist(db, d, first).0) ==> h in Visible(db) || HexDecode(d.id) == Some(h)
  {
    InsertConsistent(db, d);
    VisibleAfter(Insert(db, d).events, ReplacedBy(db, d, first), HiddenBy(db, d, first), Persist(db, d, first).0);
  }

  lemma MarkedStillDelete(events: seq<EventRow>, hid: set<nat>, e: Event)
    ensures AlreadyDeleted(Hide(KeepEvents(events, {}), hid), e) <==> AlreadyDeleted(events, e)
  {
    var after := Hide(KeepEvents(events, {}), hid);
    KeptAndMarked(events, {}, hid);
    if AlreadyDeleted(after, e) {
      var x :| x in after && DeletesEvent(x, e);
      var x0 := MarkedOrigin(events, {}, hid, x);
      assert DeletesEvent(x0, e);
    }
    if AlreadyDeleted(events, e) {
      var x :| x in events && DeletesEvent(x, e);
      assert Marked(x, hid) in after && DeletesEvent(Marked(x, hid), e);
    }
  }

  lemma DeletedAfterDeletion(db: Db, e: Event, d: Event, first: nat)
    requires Consistent(db) && Accepted(db, d) && d.kind == 5
    ensures AlreadyDeleted(Persist(db, d, first).0.events, e) <==>
            AlreadyDeleted(db.events, e) || (SameAuthor(d, e) && NamesExactly(d, e))
  {
    InsertConsistent(db, d);
    var events := Insert(db, d).events;
    assert ReplacedBy(db, d, first) == {};
    MarkedStillDelete(events, HiddenBy(db, d, first), e);
    assert DeletesEvent(Fresh(db, d), e) <==> SameAuthor(d, e) && NamesExactly(d, e);
    assert AlreadyDeleted(events, e) <==> AlreadyDeleted(db.events, e) || DeletesEvent(Fresh(db, d), e) by {
      assert Fresh(db, d) in events;
    }
  }

  lemma DeletionThenEvent(db: Db, e: Event, d: Event, k: nat, l: nat)
    requires Consistent(db) && Accepted(db, d) && LegalFirst(db, d, k) && e.kind != 5 && d.kind == 5
    requires Accepted(Persist(db, d, k).0, e) && LegalFirst(Persist(db, d, k).0, e, l)
    ensures HexDecode(e.id).value in Visible(Persist(Persist(db, d, k).0, e, l).0) <==>
            !SelfReplacing(e) && !AlreadyDeleted(db.events, e) && !(SameAuthor(d, e) && NamesExactly(d, e))
  {
    AcceptedConsistent(db, d, k);
    VisibleAfterOwnArrival(Persist(db, d, k).0, e, l);
    DeletedAfterDeletion(db, e, d, k);
  }

  /** Exactly when the order in which a deletion and an event arrive does not matter: the event is lost
      either way, or the deletion is another author's, or it names the event by its printed id if it
      names it at all. */
  lemma DeletionOrderExactly(db: Db, e: Event, d: Event, i: nat, j: nat, k: nat, l: nat)
    requires Consistent(db) && e.kind != 5 && d.kind == 5 && HexDecode(e.id) != HexDecode(d.id) && IsHex64(e.id)
    requires Accepted(db, e) && LegalFirst(db, e, i)
    requires Accepted(Persist(db, e, i).0, d) && LegalFirst(Persist(db, e, i).0, d, j)
    requires Accepted(db, d) && LegalFirst(db, d, k)
    requires Accepted(Persist(db, d, k).0, e) && LegalFirst(Persist(db, d, k).0, e, l)
    ensures
      var h := HexDecode(e.id).value;
      (h in Visible(Persist(Persist(db, e, i).0, d, j).0) <==> h in Visible(Persist(Persist(db, d, k).0, e, l).0)) <==>
      SelfReplacing(e) || AlreadyDeleted(db.events, e) || !SameAuthor(d, e) || (NamesInAnyCase(d, e) ==> NamesExactly(d, e))
  {
    EventThenDeletion(db, e, d, i, j);
    DeletionThenEvent(db, e, d, k, l);
  }
}
