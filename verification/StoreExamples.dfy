/** Inputs on which the unrestricted forms of the store's laws fail. */
module StoreExamples {
  import opened Text
  import opened Events
  import opened Tables
  import opened Store
  import opened StoreRuns
  import opened StoreLaws

  function Repeat(c: char): (s: string)
    ensures |s| == 64 && forall i :: 0 <= i < 64 ==> s[i] == c
  {
    seq(64, _ => c)
  }

  /** An event with a repeated-digit id, by one fixed author. */
  function Sample(digit: char, kind: U64, tags: seq<Tag>): Event {
    Event(Repeat(digit), Repeat('0'), None, 1, kind, tags, "", "", None)
  }

  lemma OneDigit(a: char, b: char)
    requires Repeat(a) == Repeat(b)
    ensures a == b
  {
    assert Repeat(a)[0] == Repeat(b)[0];
  }

  lemma DistinctSamples(a: char, b: char)
    requires HexVal(a).Some? && HexVal(b).Some? && a != b && !IsUpperHexLetter(a) && !IsUpperHexLetter(b)
    ensures HexDecode(Repeat(a)) != HexDecode(Repeat(b))
  {
    if HexDecode(Repeat(a)) == HexDecode(Repeat(b)) {
      HexDecodeInjective(Repeat(a), Repeat(b));
      OneDigit(a, b);
    }
  }

  /** The first submission of a run is accepted. */
  lemma FirstSubmission(e: Event) returns (first: nat)
    requires HasIdentity(e) && Storable(e)
    ensures Accepted(EMPTY_DB, e) && LegalFirst(EMPTY_DB, e, first)
    ensures Persist(EMPTY_DB, e, first).1 == Wrote(1)
    ensures Consistent(Persist(EMPTY_DB, e, first).0)
    ensures forall r :: r in Persist(EMPTY_DB, e, first).0.events ==> SameRow(r, Fresh(EMPTY_DB, e))
    ensures HexDecode(e.id).value in Visible(Persist(EMPTY_DB, e, first).0) <==> !SelfReplacing(e)
  {
    first := SomeFirst(EMPTY_DB, e);
    OutcomeMeans(EMPTY_DB, e, first);
    SavedMeansVisible(EMPTY_DB, e, first);
    AcceptedConsistent(EMPTY_DB, e, first);
    OnlyTheFirst(e, first);
  }

  lemma OnlyTheFirst(e: Event, first: nat)
    requires Accepted(EMPTY_DB, e)
    ensures forall r :: r in Persist(EMPTY_DB, e, first).0.events ==> SameRow(r, Fresh(EMPTY_DB, e))
  {
    AcceptedRows(EMPTY_DB, e, first);
  }

  /** An event whose first `d` value is repeated is reported as written, and is not stored. */
  lemma RepeatedDLosesTheEvent() returns (e: Event, first: nat)
    ensures HasIdentity(e) && LegalFirst(EMPTY_DB, e, first)
    ensures Persist(EMPTY_DB, e, first).1 == Wrote(1)
    ensures HexDecode(e.id).value !in Visible(Persist(EMPTY_DB, e, first).0)
  {
    e := Sample('a', 30000, [["d", "x"], ["d", "x"]]);
    assert e.tags[1..] == [["d", "x"]];
    assert TagCount(e.tags[1..], "d", "x") == 1;
    assert DistinctParam(e) == Some("x");
    assert FirstTagValue(e.tags[1..], "expiration") == None;
    first := FirstSubmission(e);
  }

  /** With an implicit key and no row that carries "" explicitly, nothing is shadowed or replaced. */
  lemma ImplicitKeyKeepsEverything(db: Db, e: Event, first: nat)
    requires Consistent(db) && HasIdentity(e) && Storable(e) && LegalFirst(db, e, first)
    requires DistinctParam(e) == Some("") && !ExplicitParam(e)
    requires forall r :: r in db.events ==> r.hash != HexDecode(e.id).value
    requires forall r :: r in db.events ==> !CarriesD(r, e.kind, Author(e), "")
    ensures Accepted(db, e)
    ensures forall r :: r in db.events || r == Fresh(db, e) ==>
              Marked(r, HiddenBy(db, e, first)) in Persist(db, e, first).0.events
  {
    ImplicitKeyIsAccepted(db, e);
    ReplacedParam(db, e, first);
    TagCountPositive(e.tags, "d", "");
    AcceptedRows(db, e, first);
  }

  lemma ImplicitKeyIsAccepted(db: Db, e: Event)
    requires Consistent(db) && HasIdentity(e) && Storable(e) && DistinctParam(e) == Some("")
    requires forall r :: r in db.events ==> r.hash != HexDecode(e.id).value
    requires forall r :: r in db.events ==> !CarriesD(r, e.kind, Author(e), "")
    ensures Accepted(db, e)
  {
    forall r | r in db.events && r.kind == e.kind && r.author == Author(e)
      ensures JoinCount(db.tags, r.id, "d", "") == 0
    {
      JoinCountIsTagCount(db, r, "");
    }
  }

  lemma ImplicitSamples() returns (a: Event, b: Event)
    ensures HasIdentity(a) && HasIdentity(b) && Storable(a) && Storable(b)
    ensures a.pubkey == b.pubkey && a.kind == b.kind && HexDecode(a.id) != HexDecode(b.id)
    ensures DistinctParam(a) == DistinctParam(b) == Some("")
    ensures a.tags == b.tags == []
  {
    a, b := Sample('a', 30000, []), Sample('b', 30000, []);
    DistinctSamples('a', 'b');
  }

  /** Two events with the same implicit key of one author and kind are both kept. */
  lemma ImplicitKeysAccumulate() returns (db: Db, a: Event, b: Event, i: nat, j: nat)
    ensures HasIdentity(a) && LegalFirst(EMPTY_DB, a, i)
    ensures HasIdentity(b) && LegalFirst(Persist(EMPTY_DB, a, i).0, b, j)
    ensures db == Persist(Persist(EMPTY_DB, a, i).0, b, j).0
    ensures a.pubkey == b.pubkey && a.kind == b.kind && DistinctParam(a) == DistinctParam(b) && DistinctParam(a).Some?
    ensures exists r, s :: r in db.events && s in db.events && r.hash != s.hash &&
              r.content == Serialised(a) && s.content == Serialised(b)
  {
    a, b := ImplicitSamples();
    i := FirstSubmission(a);
    var one := Persist(EMPTY_DB, a, i).0;
    j := SomeFirst(one, b);
    db := Persist(one, b, j).0;
    var r :| r in one.events && !r.hidden && r.hash == HexDecode(a.id).value;
    BothKept(one, r, a, b, j);
  }

  lemma BothKept(one: Db, r: EventRow, a: Event, b: Event, j: nat)
    requires Consistent(one) && HasIdentity(b) && Storable(b) && LegalFirst(one, b, j)
    requires b.tags == [] && DistinctParam(b) == Some("")
    requires r in one.events && r.content == Serialised(a)
    requires forall s :: s in one.events ==> s.content.tags == [] && s.hash != HexDecode(b.id).value
    ensures exists r, s :: r in Persist(one, b, j).0.events && s in Persist(one, b, j).0.events && r.hash != s.hash &&
              r.content == Serialised(a) && s.content == Serialised(b)
  {
    ImplicitKeyKeepsEverything(one, b, j);
    var hid := HiddenBy(one, b, j);
    assert Marked(r, hid).hash != Marked(Fresh(one, b), hid).hash;
  }

  lemma UpperCaseSamples() returns (e: Event, d: Event, named: string)
    ensures HasIdentity(e) && HasIdentity(d) && Storable(e) && Storable(d) && e.kind == 1 && d.kind == 5
    ensures e.pubkey == d.pubkey && HexDecode(e.id) != HexDecode(d.id)
    ensures TagValues(d.tags, "e") == [named] && e.id != named && IsHex64(named) && HexDecode(named) == HexDecode(e.id)
  {
    named := Repeat('A');
    e, d := Sample('a', 1, []), Sample('b', 5, [["e", named]]);
    SpelledInUpperCase();
    OneTag("e", named);
    DistinctSamples('a', 'b');
  }

  lemma SpelledInUpperCase()
    ensures IsHex64(Repeat('A')) && Repeat('A') != Repeat('a')
    ensures HexDecode(Repeat('A')) == HexDecode(Repeat('a'))
  {
    HexDecodeIgnoresCase(Repeat('A'));
    assert Lower(Repeat('A')) == Repeat('a');
    assert Repeat('A')[0] != Repeat('a')[0];
  }

  lemma OneTag(name: string, v: string)
    ensures TagValues([[name, v]], name) == [v]
    ensures name != "expiration" ==> FirstTagValue([[name, v]], "expiration") == None
  {
    assert [[name, v]][1..] == [];
  }

  /** A deletion that spells the id in upper case hides the event only if it arrives second. */
  lemma UpperCaseDeletionDependsOnOrder() returns (e: Event, d: Event)
    ensures HasIdentity(e) && HasIdentity(d) && e.pubkey == d.pubkey && e.kind == 1 && d.kind == 5
    ensures HexDecode(e.id).value !in Visible(Persist(Persist(EMPTY_DB, e, 0).0, d, 0).0)
    ensures HexDecode(e.id).value in Visible(Persist(Persist(EMPTY_DB, d, 0).0, e, 0).0)
  {
    var named;
    e, d, named := UpperCaseSamples();
    TargetThenDeletion(e, d, named);
    DeletionThenTarget(e, d);
  }

  lemma TargetThenDeletion(e: Event, d: Event, named: string)
    requires HasIdentity(e) && HasIdentity(d) && Storable(e) && Storable(d) && e.kind == 1 && d.kind == 5
    requires e.pubkey == d.pubkey && HexDecode(e.id) != HexDecode(d.id)
    requires named in TagValues(d.tags, "e") && IsHex64(named) && HexDecode(named) == HexDecode(e.id)
    ensures HexDecode(e.id).value !in Visible(Persist(Persist(EMPTY_DB, e, 0).0, d, 0).0)
  {
    var first := FirstSubmission(e);
    assert Persist(EMPTY_DB, e, 0) == Persist(EMPTY_DB, e, first);
    var db := Persist(EMPTY_DB, e, 0).0;
    var r :| r in db.events && !r.hidden && r.hash == HexDecode(e.id).value;
    LaterDeletionHides(db, d, 0, r);
  }

  lemma DeletionThenTarget(e: Event, d: Event)
    requires HasIdentity(e) && HasIdentity(d) && Storable(e) && Storable(d) && e.kind == 1 && d.kind == 5
    requires HexDecode(e.id) != HexDecode(d.id) && e.id !in TagValues(d.tags, "e")
    ensures HexDecode(e.id).value in Visible(Persist(Persist(EMPTY_DB, d, 0).0, e, 0).0)
  {
    var first := FirstSubmission(d);
    assert Persist(EMPTY_DB, d, 0) == Persist(EMPTY_DB, d, first);
    UnnamedIsVisible(Persist(EMPTY_DB, d, 0).0, e);
  }

  lemma UnnamedIsVisible(db: Db, e: Event)
    requires Consistent(db) && HasIdentity(e) && Storable(e) && e.kind == 1
    requires forall r :: r in db.events ==>
               r.hash != HexDecode(e.id).value && e.id !in TagValues(r.content.tags, "e")
    ensures HexDecode(e.id).value in Visible(Persist(db, e, 0).0)
  {
    OutcomeMeans(db, e, 0);
    SavedMeansVisible(db, e, 0);
  }
}
