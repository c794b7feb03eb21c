/** Where the compiled query and the live meaning of a filter agree (src/repo/sqlite.rs against
    src/subscription.rs). */
module Agreement {
  import opened Text
  import opened Events
  import opened Tables
  import opened Filters
  import opened Sql
  import opened Queries
  import opened Store
  import opened StoreRuns
  import opened QueryMeaning

  // ----- which names mean the same to both -----

  /** A whole identity is in lower case. */
  predicate SafeName(x: string) {
    IsHex64(x) ==> IsLower(x)
  }

  /** And whatever could begin an identity is whole. */
  predicate WholeName(x: string) {
    SafeName(x) && (IsHex(x) && IsLower(x) ==> |x| >= 64)
  }

  lemma PrefixOfHex(x: string, t: string)
    requires x <= t && IsFullHex(t)
    ensures IsHex(x) && IsLower(x)
  {
    forall i | 0 <= i < |x|
      ensures HexVal(x[i]).Some? && !IsUpperHexLetter(x[i])
    {
      assert x[i] == t[i];
    }
  }

  /** The identity a short name begins, padded with zeros. */
  function Padded(x: string): (t: string)
    requires |x| <= 64
    ensures |t| == 64 && x <= t
  {
    x + seq(64 - |x|, _ => '0')
  }

  lemma LowerIsIdentity(s: string)
    ensures IsLower(s) <==> Lower(s) == s
  {
    if Lower(s) == s {
      forall i | 0 <= i < |s|
        ensures !IsUpperHexLetter(s[i])
      {
        assert Lower(s)[i] == LowerChar(s[i]);
      }
    }
  }

  /** Exactly the names that select in SQL only what they select live. */
  lemma SafeNameExactly(x: string)
    ensures (forall t :: IsFullHex(t) && HexDecode(x) == HexDecode(t) ==> x <= t) <==> SafeName(x)
  {
    if SafeName(x) {
      forall t | IsFullHex(t) && HexDecode(x) == HexDecode(t)
        ensures x <= t
      {
        HexDecodeInjective(x, t);
      }
    } else {
      HexDecodeIgnoresCase(x);
      LowerIsIdentity(x);
      var t := Lower(x);
      assert IsFullHex(t) && HexDecode(x) == HexDecode(t);
      assert x <= t ==> x == t;
    }
  }

  /** Exactly the names that select the same identities in SQL as live. */
  lemma WholeNameExactly(x: string)
    ensures (forall t :: IsFullHex(t) ==> (x <= t <==> HexDecode(x) == HexDecode(t))) <==> WholeName(x)
  {
    SafeNameExactly(x);
    if WholeName(x) {
      forall t | IsFullHex(t)
        ensures x <= t <==> HexDecode(x) == HexDecode(t)
      {
        if x <= t {
          PrefixOfHex(x, t);
          assert x == t;
        }
      }
    } else if SafeName(x) {
      var t := Padded(x);
      assert IsFullHex(t) && HexDecode(x) != HexDecode(t);
    }
  }

  // ----- lists of names: one may make up for another -----

  /** Some spelling of this identity is listed. */
  predicate Spelled(xs: seq<string>, t: string) {
    exists y :: y in xs && HexDecode(y) == HexDecode(t)
  }

  /** Every identity that a short name begins is listed. */
  predicate Covered(xs: seq<string>, x: string)
    decreases 64 - |x|
  {
    if |x| >= 64 then Spelled(xs, x) else forall c :: c in HEX_DIGITS ==> Covered(xs, x + [c])
  }

  /** A whole identity listed in upper case is found by its lower-case text too. */
  predicate SafeNames(xs: seq<string>) {
    forall x :: x in xs && IsHex64(x) ==> PrefixMatch(xs, Lower(x))
  }

  predicate WholeNames(xs: seq<string>) {
    SafeNames(xs) && forall x :: x in xs && IsHex(x) && IsLower(x) && |x| < 64 ==> Covered(xs, x)
  }

  lemma NextDigit(x: string, t: string)
    requires x <= t && IsFullHex(t) && |x| < 64
    ensures t[|x|] in HEX_DIGITS && x + [t[|x|]] <= t
  {
    var c := t[|x|];
    assert HexVal(c).Some? && !IsUpperHexLetter(c);
    assert c == HEX_DIGITS[HexVal(c).value];
  }

  lemma {:induction false} CoveredExactly(xs: seq<string>, x: string)
    requires IsHex(x) && IsLower(x) && |x| <= 64
    ensures Covered(xs, x) <==> forall t :: IsFullHex(t) && x <= t ==> Spelled(xs, t)
    decreases 64 - |x|
  {
    if |x| == 64 {
      assert IsFullHex(x);
      assert forall t :: |t| == 64 && x <= t ==> t == x;
    } else {
      forall c | c in HEX_DIGITS
        ensures Covered(xs, x + [c]) <==> forall t :: IsFullHex(t) && x + [c] <= t ==> Spelled(xs, t)
      {
        CoveredExactly(xs, x + [c]);
      }
      forall t | IsFullHex(t) && x <= t && Covered(xs, x)
        ensures Spelled(xs, t)
      {
        NextDigit(x, t);
      }
    }
  }

  /** Exactly the lists that select in SQL only what they select live. */
  lemma SafeNamesExactly(xs: seq<string>)
    ensures (forall t :: IsFullHex(t) && Spelled(xs, t) ==> PrefixMatch(xs, t)) <==> SafeNames(xs)
  {
    if SafeNames(xs) {
      forall t | IsFullHex(t) && Spelled(xs, t)
        ensures PrefixMatch(xs, t)
      {
        var y :| y in xs && HexDecode(y) == HexDecode(t);
        HexDecodeIgnoresCase(y);
        HexDecodeInjective(Lower(y), t);
      }
    } else {
      var x :| x in xs && IsHex64(x) && !PrefixMatch(xs, Lower(x));
      HexDecodeIgnoresCase(x);
      assert IsFullHex(Lower(x)) && Spelled(xs, Lower(x));
    }
  }

  /** Exactly the lists that select the same identities in SQL as live. */
  lemma WholeNamesExactly(xs: seq<string>)
    ensures (forall t :: IsFullHex(t) ==> (PrefixMatch(xs, t) <==> Spelled(xs, t))) <==> WholeNames(xs)
  {
    SafeNamesExactly(xs);
    if WholeNames(xs) {
      forall t | IsFullHex(t)
        ensures PrefixMatch(xs, t) <==> Spelled(xs, t)
      {
        if PrefixMatch(xs, t) {
          var x :| x in xs && x <= t;
          ListedPrefix(xs, x, t);
        }
      }
    } else if SafeNames(xs) {
      var x :| x in xs && IsHex(x) && IsLower(x) && |x| < 64 && !Covered(xs, x);
      CoveredExactly(xs, x);
    }
  }

  lemma ListedPrefix(xs: seq<string>, x: string, t: string)
    requires WholeNames(xs) && x in xs && x <= t && IsFullHex(t)
    ensures Spelled(xs, t)
  {
    PrefixOfHex(x, t);
    if |x| == 64 {
      assert x == t;
    } else {
      CoveredExactly(xs, x);
    }
  }

  /** Names that are whole one by one are whole together; for a single name the two are the same. */
  lemma NamesOneByOne(xs: seq<string>, x: string)
    ensures (forall y :: y in xs ==> WholeName(y)) ==> WholeNames(xs)
    ensures WholeNames([x]) <==> WholeName(x)
  {
    if forall y :: y in xs ==> WholeName(y) {
      forall y | y in xs && IsHex64(y)
        ensures PrefixMatch(xs, Lower(y))
      {
        LowerIsIdentity(y);
      }
    }
    WholeNamesExactly([x]);
    WholeNameExactly(x);
    assert x in [x];
    assert forall t :: PrefixMatch([x], t) <==> x <= t;
    assert forall t :: Spelled([x], t) <==> HexDecode(x) == HexDecode(t);
  }

  predicate SafeFilter(f: ReqFilter) {
    (f.ids.Some? ==> SafeNames(f.ids.value)) && (f.authors.Some? ==> SafeNames(f.authors.value))
  }

  predicate WholeFilter(f: ReqFilter) {
    (f.ids.Some? ==> WholeNames(f.ids.value)) && (f.authors.Some? ==> WholeNames(f.authors.value))
  }

  // ----- tags -----

  function LiveValues(e: Event, c: char): set<string> {
    if HasName(e, c) then e.tagidx.value[c] else {}
  }

  predicate HasName(e: Event, c: char) {
    e.tagidx.Some? && c in e.tagidx.value
  }

  /** The live index holds the values of the tags. */
  ghost predicate Indexed(e: Event) {
    forall c :: LiveValues(e, c) == IndexedValues(e.tags, c)
  }

  /** At least those. */
  ghost predicate IndexCovers(e: Event) {
    forall c :: IndexedValues(e.tags, c) <= LiveValues(e, c)
  }

  /** SQL skips an empty tag set. Live, an Or of nothing fails and an And of nothing asks for the name. */
  predicate EmptySetsHeld(f: ReqFilter, e: Event) {
    f.tags.Some? ==> forall c :: c in f.tags.value && f.tags.value[c].values == {} ==>
      f.tags.value[c].And? && HasName(e, c)
  }

  predicate NoEmptyTagSet(f: ReqFilter) {
    f.tags.Some? ==> forall c :: c in f.tags.value ==> f.tags.value[c].values != {}
  }

  /** An event whose index was built is indexed, under the names of its tags. */
  lemma PreparedIsIndexed(e: Event)
    requires Prepared(e)
    ensures Indexed(e)
    ensures forall c :: HasName(e, c) <==> TagValues(e.tags, [c]) != []
  {
    forall c
      ensures LiveValues(e, c) == IndexedValues(e.tags, c)
      ensures HasName(e, c) <==> TagValues(e.tags, [c]) != []
    {
      IndexMatchMeans(e, c, And({}));
      assert LiveValues(e, c) * {} == {};
      if c !in IndexedNames(e.tags) {
        assert IndexedValues(e.tags, c) == {};
      }
    }
  }

  /** The counts of the live matcher, as inclusion and common values. */
  lemma IntersectMeans(e: Event, c: char, op: TagOperand)
    ensures GenericTagValIntersect(e, c, op) <==>
            HasName(e, c) &&
            if op.And? then op.values <= LiveValues(e, c) else exists x :: x in op.values && x in LiveValues(e, c)
  {
    var vals := LiveValues(e, c);
    CountsAsSubset(vals, op.values);
    if exists x :: x in op.values && x in vals {
      var x :| x in op.values && x in vals;
      assert x in vals * op.values;
    }
    if |vals * op.values| > 0 {
      var x :| x in vals * op.values;
    }
  }

  lemma SatisfiesMeans(tags: seq<Tag>, c: char, op: TagOperand)
    ensures Satisfies(tags, c, op) <==>
            if op.And? then op.values <= IndexedValues(tags, c)
            else exists x :: x in op.values && x in IndexedValues(tags, c)
  {
    forall v
      ensures v in IndexedValues(tags, c) <==> v in TagValues(tags, [c])
    {
      IndexedAreTagValues(tags, c, v);
    }
  }

  lemma OperandsAgree(e: Event, c: char, op: TagOperand)
    requires LiveValues(e, c) == IndexedValues(e.tags, c)
    ensures GenericTagValIntersect(e, c, op) <==>
            if op.values == {} then op.And? && HasName(e, c) else Satisfies(e.tags, c, op)
  {
    IntersectMeans(e, c, op);
    SatisfiesMeans(e.tags, c, op);
    if op.values != {} {
      var x :| x in op.values;
    }
  }

  lemma OperandsWithin(e: Event, c: char, op: TagOperand)
    requires IndexedValues(e.tags, c) <= LiveValues(e, c) && op.values != {} && Satisfies(e.tags, c, op)
    ensures GenericTagValIntersect(e, c, op)
  {
    IntersectMeans(e, c, op);
    SatisfiesMeans(e.tags, c, op);
    var x :| x in op.values;
  }

  lemma TagsAgree(f: ReqFilter, e: Event)
    requires Indexed(e)
    ensures TagMatch(f, e) <==> SqlTagMatch(f, e.tags) && EmptySetsHeld(f, e)
  {
    if f.tags.Some? {
      forall c | c in f.tags.value
        ensures
          var op := f.tags.value[c];
          GenericTagValIntersect(e, c, op) <==>
          if op.values == {} then op.And? && HasName(e, c) else Satisfies(e.tags, c, op)
      {
        OperandsAgree(e, c, f.tags.value[c]);
      }
    }
  }

  lemma TagsWithin(f: ReqFilter, e: Event)
    requires IndexCovers(e) && SqlTagMatch(f, e.tags) && EmptySetsHeld(f, e)
    ensures TagMatch(f, e)
  {
    if f.tags.Some? {
      forall c | c in f.tags.value
        ensures GenericTagValIntersect(e, c, f.tags.value[c])
      {
        if f.tags.value[c].values == {} {
          IntersectMeans(e, c, f.tags.value[c]);
        } else {
          OperandsWithin(e, c, f.tags.value[c]);
        }
      }
    }
  }

  // ----- which events are found under the same names -----

  /** A parsed delegator is 32 bytes of hex, like the author. */
  predicate HasDelegator(e: Event) {
    e.delegatedBy.Some? ==> IsHex64(e.delegatedBy.value)
  }

  /** The author's lower-case name finds the event live. */
  predicate AnswersToAuthor(e: Event) {
    IsLower(e.pubkey) || e.delegatedBy == Some(Lower(e.pubkey))
  }

  /** The text spells `own`, with no upper-case digit before its last. */
  predicate NamedOnly(text: string, own: string) {
    Lower(text) == own && forall i :: 0 <= i < |text| - 1 ==> !IsUpperHexLetter(text[i])
  }

  /** The names that find the event live are exactly the author's. */
  predicate SpeaksAsAuthor(e: Event) {
    && AnswersToAuthor(e)
    && NamedOnly(e.pubkey, Lower(e.pubkey))
    && (e.delegatedBy.Some? ==> NamedOnly(e.delegatedBy.value, Lower(e.pubkey)))
  }

  lemma OwnName(e: Event)
    requires HasIdentity(e)
    ensures IsFullHex(Lower(e.pubkey)) && HexDecode(Lower(e.pubkey)) == HexDecode(e.pubkey)
    ensures IsLower(e.pubkey) <==> Lower(e.pubkey) == e.pubkey
  {
    HexDecodeIgnoresCase(e.pubkey);
    LowerIsIdentity(e.pubkey);
  }

  lemma DecodesIsSpelled(xs: seq<string>, t: string)
    requires HexDecode(t).Some?
    ensures DecodesToOneOf(Some(xs), HexDecode(t).value) <==> Spelled(xs, t)
  {
  }

  /** In a whole list, whatever begins such a text spells `own`. */
  lemma PrefixIsOwn(xs: seq<string>, text: string, own: string)
    requires WholeNames(xs) && IsHex64(text) && IsFullHex(own) && NamedOnly(text, own) && PrefixMatch(xs, text)
    ensures Spelled(xs, own)
  {
    var x :| x in xs && x <= text;
    if |x| == 64 {
      assert x == text;
      HexDecodeIgnoresCase(text);
    } else {
      forall i | 0 <= i < |x|
        ensures x[i] == own[i]
      {
        assert x[i] == text[i] && Lower(text)[i] == LowerChar(text[i]);
      }
      ListedPrefix(xs, x, own);
    }
  }

  lemma AuthorsWithin(f: ReqFilter, e: Event)
    requires HasIdentity(e) && AnswersToAuthor(e) && (f.authors.Some? ==> SafeNames(f.authors.value))
    ensures DecodesToOneOf(f.authors, HexDecode(e.pubkey).value) ==> AuthorsMatch(f, e) || DelegatedAuthorsMatch(f, e)
  {
    OwnName(e);
    if f.authors.Some? {
      DecodesIsSpelled(f.authors.value, Lower(e.pubkey));
      SafeNamesExactly(f.authors.value);
    }
  }

  lemma AuthorsAgree(f: ReqFilter, e: Event)
    requires HasIdentity(e) && HasDelegator(e) && SpeaksAsAuthor(e) && (f.authors.Some? ==> WholeNames(f.authors.value))
    ensures AuthorsMatch(f, e) || DelegatedAuthorsMatch(f, e) <==>
            DecodesToOneOf(f.authors, HexDecode(e.pubkey).value)
  {
    AuthorsWithin(f, e);
    OwnName(e);
    if f.authors.Some? {
      DecodesIsSpelled(f.authors.value, Lower(e.pubkey));
      if AuthorsMatch(f, e) {
        PrefixIsOwn(f.authors.value, e.pubkey, Lower(e.pubkey));
      } else if DelegatedAuthorsMatch(f, e) {
        PrefixIsOwn(f.authors.value, e.delegatedBy.value, Lower(e.pubkey));
      }
    }
  }

  lemma IdsWithin(f: ReqFilter, e: Event)
    requires HasIdentity(e) && (f.ids.Some? ==> SafeNames(f.ids.value))
    ensures DecodesToOneOf(f.ids, HexDecode(e.id).value) ==> IdsMatch(f, e)
  {
    if f.ids.Some? {
      DecodesIsSpelled(f.ids.value, e.id);
      SafeNamesExactly(f.ids.value);
    }
  }

  lemma IdsAgree(f: ReqFilter, e: Event)
    requires HasIdentity(e) && (f.ids.Some? ==> WholeNames(f.ids.value))
    ensures IdsMatch(f, e) <==> DecodesToOneOf(f.ids, HexDecode(e.id).value)
  {
    if f.ids.Some? {
      DecodesIsSpelled(f.ids.value, e.id);
      WholeNamesExactly(f.ids.value);
    }
  }

  // ----- the two meanings of a filter -----

  /** With safe names of any length, whatever SQL selects is accepted live, up to empty tag sets. */
  lemma SqlWithinLive(f: ReqFilter, id: nat, e: Event)
    requires HasIdentity(e) && IndexCovers(e) && AnswersToAuthor(e) && SafeFilter(f)
    ensures SqlFilterMatch(f, NewRow(id, e)) && EmptySetsHeld(f, e) ==> InterestedInEvent(f, e)
  {
    IdsWithin(f, e);
    AuthorsWithin(f, e);
    if SqlTagMatch(f, e.tags) && EmptySetsHeld(f, e) {
      TagsWithin(f, e);
    }
  }

  /** With whole names, live acceptance is SQL selection and what the empty tag sets ask. */
  lemma SqlEqualsLive(f: ReqFilter, id: nat, e: Event)
    requires HasIdentity(e) && HasDelegator(e) && Indexed(e) && SpeaksAsAuthor(e) && WholeFilter(f)
    ensures InterestedInEvent(f, e) <==> SqlFilterMatch(f, NewRow(id, e)) && EmptySetsHeld(f, e)
  {
    IdsAgree(f, e);
    AuthorsAgree(f, e);
    TagsAgree(f, e);
  }

  // ----- these conditions are exact -----

  predicate SameVerdict(f: ReqFilter, id: nat, e: Event)
    requires HasIdentity(e)
  {
    SqlFilterMatch(f, NewRow(id, e)) <==> InterestedInEvent(f, e)
  }

  predicate FoundLiveToo(f: ReqFilter, id: nat, e: Event)
    requires HasIdentity(e)
  {
    SqlFilterMatch(f, NewRow(id, e)) ==> InterestedInEvent(f, e)
  }

  function ByAuthors(authors: seq<string>): ReqFilter {
    ReqFilter(None, None, None, None, Some(authors), None, None, false)
  }

  function ByIds(ids: seq<string>): ReqFilter {
    ReqFilter(Some(ids), None, None, None, None, None, None, false)
  }

  function ByTag(c: char, v: string): ReqFilter {
    ReqFilter(None, None, None, None, None, None, Some(map[c := Or({v})]), false)
  }

  lemma ByAuthorsMeans(authors: seq<string>, id: nat, e: Event)
    requires HasIdentity(e)
    ensures SqlFilterMatch(ByAuthors(authors), NewRow(id, e)) <==> Spelled(authors, e.pubkey)
    ensures InterestedInEvent(ByAuthors(authors), e) <==>
            PrefixMatch(authors, e.pubkey) || (e.delegatedBy.Some? && PrefixMatch(authors, e.delegatedBy.value))
  {
    DecodesIsSpelled(authors, e.pubkey);
  }

  lemma ByIdsMeans(ids: seq<string>, id: nat, e: Event)
    requires HasIdentity(e)
    ensures SqlFilterMatch(ByIds(ids), NewRow(id, e)) <==> Spelled(ids, e.id)
    ensures InterestedInEvent(ByIds(ids), e) <==> PrefixMatch(ids, e.id)
  {
    DecodesIsSpelled(ids, e.id);
  }

  lemma ByTagMeans(c: char, v: string, id: nat, e: Event)
    requires HasIdentity(e)
    ensures SqlFilterMatch(ByTag(c, v), NewRow(id, e)) <==> v in IndexedValues(e.tags, c)
    ensures InterestedInEvent(ByTag(c, v), e) <==> v in LiveValues(e, c)
  {
    var f := ByTag(c, v);
    assert c in f.tags.value && f.tags.value[c] == Or({v});
    SatisfiesMeans(e.tags, c, Or({v}));
    IntersectMeans(e, c, Or({v}));
    assert v in {v};
  }

  /** Whole names on which SQL and live differ, for an event that does not speak as its author. */
  function SplittingNames(e: Event): seq<string>
    requires HasIdentity(e) && HasDelegator(e)
  {
    var own := Lower(e.pubkey);
    if !AnswersToAuthor(e) then [own]
    else if !NamedOnly(e.pubkey, own) then [e.pubkey[..63]]
    else if e.delegatedBy.None? then []
    else if Lower(e.delegatedBy.value) != own then [e.delegatedBy.value, Lower(e.delegatedBy.value)]
    else [e.delegatedBy.value[..63]]
  }

  lemma ShortUpperIsWhole(text: string, own: string)
    requires IsHex64(text) && Lower(text) == own && !NamedOnly(text, own)
    ensures WholeNames([text[..63]]) && PrefixMatch([text[..63]], text)
    ensures forall t :: IsHex64(t) ==> !Spelled([text[..63]], t)
  {
    var x := text[..63];
    var i :| 0 <= i < |text| - 1 && IsUpperHexLetter(text[i]);
    assert x[i] == text[i] && x in [x];
    NamesOneByOne([], x);
  }

  /** The author's own name selects in SQL an event that does not answer to it live. */
  lemma UnansweredIsMissed(id: nat, e: Event)
    requires HasIdentity(e) && HasDelegator(e) && !AnswersToAuthor(e)
    ensures WholeNames([Lower(e.pubkey)]) && !FoundLiveToo(ByAuthors([Lower(e.pubkey)]), id, e)
  {
    var own := Lower(e.pubkey);
    OwnName(e);
    NamesOneByOne([], own);
    ByAuthorsMeans([own], id, e);
    assert own in [own];
    OnlyNameMatches(own, e.pubkey);
    if e.delegatedBy.Some? {
      OnlyNameMatches(own, e.delegatedBy.value);
    }
  }

  lemma OnlyNameMatches(name: string, text: string)
    requires |name| == |text|
    ensures PrefixMatch([name], text) <==> name == text
  {
    assert name in [name];
  }

  /** Naming the delegator in both spellings finds live what SQL files under another author. */
  lemma DelegatorSplits(id: nat, e: Event, d: string)
    requires HasIdentity(e) && e.delegatedBy == Some(d) && IsHex64(d) && Lower(d) != Lower(e.pubkey)
    ensures WholeNames([d, Lower(d)]) && !SameVerdict(ByAuthors([d, Lower(d)]), id, e)
  {
    BothSpellings(d);
    OwnName(e);
    ByAuthorsMeans([d, Lower(d)], id, e);
    if Spelled([d, Lower(d)], e.pubkey) {
      HexDecodeInjective(Lower(d), Lower(e.pubkey));
    }
  }

  lemma BothSpellings(d: string)
    requires IsHex64(d)
    ensures WholeNames([d, Lower(d)]) && PrefixMatch([d, Lower(d)], d) && IsLower(Lower(d))
    ensures forall t :: Spelled([d, Lower(d)], t) ==> HexDecode(Lower(d)) == HexDecode(t)
  {
    var xs := [d, Lower(d)];
    HexDecodeIgnoresCase(d);
    LowerIsIdentity(Lower(d));
    assert xs[0] in xs && xs[1] in xs;
  }

  lemma SplittingNamesSplit(id: nat, e: Event)
    requires HasIdentity(e) && HasDelegator(e) && !SpeaksAsAuthor(e)
    ensures WholeNames(SplittingNames(e)) && !SameVerdict(ByAuthors(SplittingNames(e)), id, e)
  {
    var own := Lower(e.pubkey);
    ByAuthorsMeans(SplittingNames(e), id, e);
    if !AnswersToAuthor(e) {
      UnansweredIsMissed(id, e);
    } else if !NamedOnly(e.pubkey, own) {
      ShortUpperIsWhole(e.pubkey, own);
    } else if Lower(e.delegatedBy.value) != own {
      DelegatorSplits(id, e, e.delegatedBy.value);
    } else {
      ShortUpperIsWhole(e.delegatedBy.value, own);
    }
  }

  /** Exactly which events SQL and live agree on for every filter of whole names without empty tag sets:
      those that speak as their author and whose live index holds their tags. */
  lemma AgreementIsSpeakingAsAuthor(id: nat, e: Event)
    requires HasIdentity(e) && HasDelegator(e)
    ensures (forall f :: WholeFilter(f) && NoEmptyTagSet(f) ==> SameVerdict(f, id, e)) <==>
            SpeaksAsAuthor(e) && Indexed(e)
  {
    if !SpeaksAsAuthor(e) {
      SplittingNamesSplit(id, e);
      var f := ByAuthors(SplittingNames(e));
      assert WholeFilter(f) && NoEmptyTagSet(f) && !SameVerdict(f, id, e);
    } else if !Indexed(e) {
      var c :| LiveValues(e, c) != IndexedValues(e.tags, c);
      var v :| (v in LiveValues(e, c)) != (v in IndexedValues(e.tags, c));
      ByTagMeans(c, v, id, e);
      assert WholeFilter(ByTag(c, v)) && NoEmptyTagSet(ByTag(c, v)) && !SameVerdict(ByTag(c, v), id, e);
    } else {
      forall f | WholeFilter(f) && NoEmptyTagSet(f)
        ensures SameVerdict(f, id, e)
      {
        SqlEqualsLive(f, id, e);
      }
    }
  }

  /** Exactly which events SQL finds only when live does, for every filter of safe names without empty
      tag sets. */
  lemma SoundnessIsAnsweringToAuthor(id: nat, e: Event)
    requires HasIdentity(e) && HasDelegator(e)
    ensures (forall f :: SafeFilter(f) && NoEmptyTagSet(f) ==> FoundLiveToo(f, id, e)) <==>
            AnswersToAuthor(e) && IndexCovers(e)
  {
    if !AnswersToAuthor(e) {
      UnansweredIsMissed(id, e);
      var f := ByAuthors([Lower(e.pubkey)]);
      assert SafeFilter(f) && NoEmptyTagSet(f) && !FoundLiveToo(f, id, e);
    } else if !IndexCovers(e) {
      var c :| !(IndexedValues(e.tags, c) <= LiveValues(e, c));
      var v :| v in IndexedValues(e.tags, c) && v !in LiveValues(e, c);
      UnindexedTagIsMissed(id, e, c, v);
    } else {
      forall f | SafeFilter(f) && NoEmptyTagSet(f)
        ensures FoundLiveToo(f, id, e)
      {
        SqlWithinLive(f, id, e);
      }
    }
  }

  /** A tag that the live index lacks is found by SQL and not live. The relay's own messages to new
      accounts are broadcast without any index. */
  lemma UnindexedTagIsMissed(id: nat, e: Event, c: char, v: string)
    requires HasIdentity(e) && v in IndexedValues(e.tags, c) && v !in LiveValues(e, c)
    ensures SqlFilterMatch(ByTag(c, v), NewRow(id, e)) && !InterestedInEvent(ByTag(c, v), e)
    ensures SafeFilter(ByTag(c, v)) && NoEmptyTagSet(ByTag(c, v)) && !FoundLiveToo(ByTag(c, v), id, e)
  {
    ByTagMeans(c, v, id, e);
  }

  /** An event without index agrees with SQL on tags only if it has none to index. */
  lemma UnindexedAgreesExactly(e: Event)
    requires e.tagidx == None
    ensures Indexed(e) <==> IndexedNames(e.tags) == {}
  {
    if forall t :: t in e.tags ==> !Indexable(t) {
      assert forall c :: IndexedValues(e.tags, c) == {};
    } else {
      var s :| s in e.tags && Indexable(s);
      assert s[0][0] in IndexedNames(e.tags);
      var c :| c in IndexedNames(e.tags);
      var t :| t in e.tags && Indexable(t) && t[0][0] == c;
      assert t[1] in IndexedValues(e.tags, c) && LiveValues(e, c) == {};
    }
  }

  /** A prepared, undelegated event with lower-case identities. */
  predicate Plain(e: Event) {
    HasIdentity(e) && Prepared(e) && IsLower(e.pubkey) && e.delegatedBy == None
  }

  function PlainEvent(eventId: string, author: string): (e: Event)
    requires IsFullHex(eventId) && IsFullHex(author)
    ensures Plain(e)
  {
    Event(eventId, author, None, 0, 1, [], "", "", None)
  }

  /** Exactly which lists of names, as authors or ids, make SQL and live agree on every plain event. */
  lemma AgreementIsNamingWhole(id: nat, xs: seq<string>)
    ensures (forall e :: Plain(e) ==> SameVerdict(ByAuthors(xs), id, e)) <==> WholeNames(xs)
    ensures (forall e :: Plain(e) ==> SameVerdict(ByIds(xs), id, e)) <==> WholeNames(xs)
  {
    WholeNamesExactly(xs);
    forall e | Plain(e)
      ensures IsFullHex(e.pubkey)
      ensures SameVerdict(ByAuthors(xs), id, e) <==> (PrefixMatch(xs, e.pubkey) <==> Spelled(xs, e.pubkey))
      ensures SameVerdict(ByIds(xs), id, e) <==> (PrefixMatch(xs, e.id) <==> Spelled(xs, e.id))
    {
      ByAuthorsMeans(xs, id, e);
      ByIdsMeans(xs, id, e);
    }
    if !WholeNames(xs) {
      var t :| IsFullHex(t) && !(PrefixMatch(xs, t) <==> Spelled(xs, t));
      var e := PlainEvent(t, t);
      assert Plain(e) && !SameVerdict(ByAuthors(xs), id, e) && !SameVerdict(ByIds(xs), id, e);
    }
  }

  /** Where SQL ignores an empty tag set, exactly when does that change the verdict. */
  lemma EmptyTagSetsSplitExactly(f: ReqFilter, id: nat, e: Event)
    requires HasIdentity(e) && HasDelegator(e) && Indexed(e) && SpeaksAsAuthor(e) && WholeFilter(f)
    ensures SameVerdict(f, id, e) <==> (SqlFilterMatch(f, NewRow(id, e)) ==> EmptySetsHeld(f, e))
  {
    SqlEqualsLive(f, id, e);
  }

  /** One empty tag set: always passed by SQL; live, only as an And on an event with the name. */
  lemma EmptyTagSetSplits(f: ReqFilter, c: char, op: TagOperand, id: nat, e: Event)
    requires f == ReqFilter(None, None, None, None, None, None, Some(map[c := op]), false) && op.values == {}
    requires HasIdentity(e)
    ensures SqlFilterMatch(f, NewRow(id, e))
    ensures InterestedInEvent(f, e) <==> op.And? && HasName(e, c)
    ensures Prepared(e) ==> (HasName(e, c) <==> TagValues(e.tags, [c]) != [])
  {
    IntersectMeans(e, c, op);
    assert c in f.tags.value && f.tags.value[c] == op;
    if Prepared(e) {
      PreparedIsIndexed(e);
    }
  }

  // ----- over every run -----

  lemma StoredRowMeans(steps: seq<Step>, f: ReqFilter, now: nat, r: EventRow, e: Event)
    requires IsRun(steps) && r in Run(steps).events && HasIdentity(e) && SameRow(r, NewRow(r.id, e))
    ensures Eval(Closed(f, now), OnEvent(r), Run(steps).tags) <==>
            !r.hidden && !IsExpired(e, now) && SqlFilterMatch(f, NewRow(r.id, e))
  {
    RunsAreConsistent(steps);
    CompiledQueryMeans(Run(steps), r, f, now);
    assert SqlFilterMatch(f, r) == SqlFilterMatch(f, NewRow(r.id, e));
  }

  /** In every reachable store and for every filter of whole names: a stored event that speaks as its
      author is accepted live, shown and unexpired exactly if the compiled query selects it and its
      empty tag sets, if any, are met. */
  lemma QueriesAreExact(steps: seq<Step>, f: ReqFilter, now: nat, r: EventRow, e: Event)
    requires IsRun(steps) && WholeFilter(f) && r in Run(steps).events
    requires HasIdentity(e) && SameRow(r, NewRow(r.id, e))
    requires Indexed(e) && HasDelegator(e) && SpeaksAsAuthor(e)
    ensures !r.hidden && !IsExpired(e, now) && InterestedInEvent(f, e) <==>
            Eval(Closed(f, now), OnEvent(r), Run(steps).tags) && EmptySetsHeld(f, e)
  {
    StoredRowMeans(steps, f, now, r, e);
    SqlEqualsLive(f, r.id, e);
  }

  /** With shorter names, or delegated events, it selects a subset of them. */
  lemma QueriesAreSound(steps: seq<Step>, f: ReqFilter, now: nat, r: EventRow, e: Event)
    requires IsRun(steps) && SafeFilter(f) && r in Run(steps).events
    requires HasIdentity(e) && SameRow(r, NewRow(r.id, e)) && IndexCovers(e) && AnswersToAuthor(e)
    requires Eval(Closed(f, now), OnEvent(r), Run(steps).tags) && EmptySetsHeld(f, e)
    ensures !r.hidden && !IsExpired(e, now) && InterestedInEvent(f, e)
  {
    StoredRowMeans(steps, f, now, r, e);
    SqlWithinLive(f, r.id, e);
  }
}
