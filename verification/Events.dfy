/** Events, kind classes and the tag index (src/event.rs). */
module Events {
  import opened Text

  type Tag = seq<string>

  datatype Event = Event(
    id: string,
    pubkey: string,
    delegatedBy: Option<string>,
    createdAt: U64,
    kind: U64,
    tags: seq<Tag>,
    content: string,
    sig: string,
    tagidx: Option<map<char, set<string>>>)

  /** What `validate` establishes about the two identity fields: the id is the printed digest,
      the public key parsed as 32 bytes of hex (either case). */
  predicate HasIdentity(e: Event) {
    IsFullHex(e.id) && IsHex64(e.pubkey)
  }

  /** The fields the id is a digest of. */
  predicate SameSigned(a: Event, b: Event) {
    a.pubkey == b.pubkey && a.createdAt == b.createdAt && a.kind == b.kind && a.tags == b.tags &&
    a.content == b.content
  }

  /** What comes back after `serde_json` wrote and read an event: derived fields are skipped. */
  function Serialised(e: Event): Event {
    e.(delegatedBy := None, tagidx := None)
  }

  // ----- kind classes -----

  predicate IsEphemeral(kind: nat) {
    20000 <= kind < 30000
  }

  predicate IsReplaceable(kind: nat) {
    kind == 0 || kind == 3 || kind == 41 || 10000 <= kind < 20000
  }

  predicate IsParamReplaceable(kind: nat) {
    30000 <= kind < 40000
  }

  // ----- tags -----

  /** `single_char_tagname`: the only character of a one-character name. */
  function SingleCharTagname(name: string): Option<char> {
    if |name| == 1 then Some(name[0]) else None
  }

  /** A tag that the database and the live index both record. */
  predicate Indexable(t: Tag) {
    |t| >= 2 && SingleCharTagname(t[0]).Some?
  }

  /** Second element (or "") of the first tag with this name. */
  function FirstTagValue(tags: seq<Tag>, name: string): Option<string> {
    if tags == [] then None
    else if tags[0] != [] && tags[0][0] == name then
      Some(if |tags[0]| > 1 then tags[0][1] else "")
    else FirstTagValue(tags[1..], name)
  }

  /** `expiration`: only the first `expiration` tag is looked at, parsed or not. */
  function Expiration(tags: seq<Tag>): Option<U64> {
    match FirstTagValue(tags, "expiration")
    case Some(v) => ParseU64(v)
    case None => None
  }

  predicate IsExpired(e: Event, now: nat) {
    Expiration(e.tags).Some? && Expiration(e.tags).value <= now
  }

  /** `distinct_param`: the replacement key of a parameterised replaceable event. */
  function DistinctParam(e: Event): Option<string> {
    if IsParamReplaceable(e.kind) then
      match FirstTagValue(e.tags, "d")
      case Some(v) => Some(v)
      case None => Some("")
    else None
  }

  /** Tag i is the first with this name, however short. */
  predicate IsFirstNamed(tags: seq<Tag>, name: string, i: nat) {
    i < |tags| && tags[i] != [] && tags[i][0] == name &&
    forall j :: 0 <= j < i ==> tags[j] == [] || tags[j][0] != name
  }

  lemma {:induction false} FirstTagExactly(tags: seq<Tag>, name: string, v: string)
    ensures FirstTagValue(tags, name) == None <==> forall t :: t in tags && t != [] ==> t[0] != name
    ensures FirstTagValue(tags, name) == Some(v) <==>
            exists i: nat :: IsFirstNamed(tags, name, i) && v == if |tags[i]| > 1 then tags[i][1] else ""
  {
    if tags == [] {
    } else if tags[0] != [] && tags[0][0] == name {
      assert IsFirstNamed(tags, name, 0);
    } else {
      var rest := tags[1..];
      FirstTagExactly(rest, name, v);
      assert forall t :: t in tags <==> t == tags[0] || t in rest;
      forall i: nat | i < |rest|
        ensures IsFirstNamed(rest, name, i) <==> IsFirstNamed(tags, name, i + 1)
      {
        FirstNamedShifts(tags, name, i);
      }
      if exists i: nat :: IsFirstNamed(tags, name, i) && v == if |tags[i]| > 1 then tags[i][1] else "" {
        var i: nat :| IsFirstNamed(tags, name, i) && v == if |tags[i]| > 1 then tags[i][1] else "";
        assert IsFirstNamed(rest, name, i - 1);
      }
    }
  }

  lemma FirstNamedShifts(tags: seq<Tag>, name: string, i: nat)
    requires tags != [] && (tags[0] == [] || tags[0][0] != name) && i < |tags| - 1
    ensures IsFirstNamed(tags[1..], name, i) <==> IsFirstNamed(tags, name, i + 1)
  {
    assert forall j :: 0 <= j < |tags| - 1 ==> tags[1..][j] == tags[j + 1];
  }

  /** An event has expired exactly if the first tag named `expiration` holds a u64 that is not later
      than now; further such tags do not matter. */
  lemma ExpiredExactly(e: Event, now: nat)
    ensures IsExpired(e, now) <==>
            exists i: nat :: IsFirstNamed(e.tags, "expiration", i) && |e.tags[i]| > 1 &&
              ParseU64(e.tags[i][1]).Some? && ParseU64(e.tags[i][1]).value <= now
  {
    if exists i: nat :: IsFirstNamed(e.tags, "expiration", i) && |e.tags[i]| > 1 {
      var i: nat :| IsFirstNamed(e.tags, "expiration", i) && |e.tags[i]| > 1;
      FirstTagExactly(e.tags, "expiration", e.tags[i][1]);
    }
    if IsExpired(e, now) {
      FirstTagExactly(e.tags, "expiration", FirstTagValue(e.tags, "expiration").value);
    }
  }

  /** The replacement key: for kinds 30000 to 39999 only, the value of the first tag named `d`, empty
      when the tag has no value or there is none. */
  lemma KeyExactly(e: Event, d: string)
    ensures DistinctParam(e) == Some(d) <==>
            30000 <= e.kind < 40000 &&
            ((d == "" && forall t :: t in e.tags && t != [] ==> t[0] != "d") ||
             exists i: nat :: IsFirstNamed(e.tags, "d", i) && d == if |e.tags[i]| > 1 then e.tags[i][1] else "")
  {
    FirstTagExactly(e.tags, "d", d);
  }

  /** `tag_values_by_name`. */
  function TagValues(tags: seq<Tag>, name: string): seq<string> {
    if tags == [] then []
    else if |tags[0]| > 1 && tags[0][0] == name then [tags[0][1]] + TagValues(tags[1..], name)
    else TagValues(tags[1..], name)
  }

  lemma {:induction false} TagValuesMembers(tags: seq<Tag>, name: string, v: string)
    ensures v in TagValues(tags, name) <==> exists t :: t in tags && |t| > 1 && t[0] == name && t[1] == v
  {
    if tags == [] {
    } else {
      TagValuesMembers(tags[1..], name, v);
      assert forall t :: t in tags <==> t == tags[0] || t in tags[1..];
    }
  }

  /** The first value is that of the first tag with this name that has one. */
  lemma {:induction false} FirstValueExactly(tags: seq<Tag>, name: string, v: string)
    ensures (TagValues(tags, name) != [] && TagValues(tags, name)[0] == v) <==>
            exists i: nat :: IsFirstValued(tags, name, i) && tags[i][1] == v
  {
    if tags == [] {
    } else if |tags[0]| > 1 && tags[0][0] == name {
      assert IsFirstValued(tags, name, 0);
      assert forall i: nat :: IsFirstValued(tags, name, i) ==> i == 0;
    } else {
      var rest := tags[1..];
      FirstValueExactly(rest, name, v);
      assert forall j :: 0 <= j < |rest| ==> rest[j] == tags[j + 1];
      if exists i: nat :: IsFirstValued(rest, name, i) && rest[i][1] == v {
        var i: nat :| IsFirstValued(rest, name, i) && rest[i][1] == v;
        assert IsFirstValued(tags, name, i + 1);
      }
      if exists i: nat :: IsFirstValued(tags, name, i) && tags[i][1] == v {
        var i: nat :| IsFirstValued(tags, name, i) && tags[i][1] == v;
        assert IsFirstValued(rest, name, i - 1);
      }
    }
  }

  predicate IsFirstValued(tags: seq<Tag>, name: string, i: nat) {
    i < |tags| && |tags[i]| > 1 && tags[i][0] == name &&
    forall j :: 0 <= j < i ==> |tags[j]| <= 1 || tags[j][0] != name
  }

  /** Number of stored tag rows with this name and value an event gives rise to. */
  function TagCount(tags: seq<Tag>, name: string, v: string): nat {
    if tags == [] then 0
    else (if |tags[0]| > 1 && tags[0][0] == name && tags[0][1] == v then 1 else 0) +
         TagCount(tags[1..], name, v)
  }

  lemma {:induction false} TagCountPositive(tags: seq<Tag>, name: string, v: string)
    ensures TagCount(tags, name, v) > 0 <==> v in TagValues(tags, name)
  {
    if tags == [] {
    } else {
      TagCountPositive(tags[1..], name, v);
    }
  }

  // ----- the live index -----

  /** Values recorded under one character. */
  function IndexedValues(tags: seq<Tag>, c: char): set<string> {
    set t | t in tags && Indexable(t) && t[0][0] == c :: t[1]
  }

  function IndexedNames(tags: seq<Tag>): set<char> {
    set t | t in tags && Indexable(t) :: t[0][0]
  }

  /** What the index must be: nothing for an untagged event, else all indexable tags by name. */
  function TagIndex(tags: seq<Tag>): Option<map<char, set<string>>> {
    if tags == [] then None
    else Some(map c | c in IndexedNames(tags) :: IndexedValues(tags, c))
  }

  /** `build_index`. */
  method BuildIndex(e: Event) returns (r: Event)
    ensures e.tags == [] ==> r == e
    ensures e.tags != [] ==> r == e.(tagidx := TagIndex(e.tags))
  {
    if e.tags == [] {
      return e;
    }
    var idx: map<char, set<string>> := map[];
    for i := 0 to |e.tags|
      invariant idx.Keys == IndexedNames(e.tags[..i])
      invariant forall c :: c in idx ==> idx[c] == IndexedValues(e.tags[..i], c)
    {
      var t := e.tags[i];
      var before, after := e.tags[..i], e.tags[..i + 1];
      assert after == before + [t];
      if |t| > 1 && SingleCharTagname(t[0]).Some? {
        var c := SingleCharTagname(t[0]).value;
        if c !in idx {
          assert IndexedValues(before, c) == {};
          idx := idx[c := {}];
        }
        idx := idx[c := idx[c] + {t[1]}];
        assert IndexedNames(after) == IndexedNames(before) + {c};
        assert IndexedValues(after, c) == IndexedValues(before, c) + {t[1]};
        assert forall d :: d != c ==> IndexedValues(after, d) == IndexedValues(before, d);
      } else {
        assert IndexedNames(after) == IndexedNames(before);
        assert forall d :: IndexedValues(after, d) == IndexedValues(before, d);
      }
    }
    assert e.tags[..|e.tags|] == e.tags;
    assert idx == TagIndex(e.tags).value;
    r := e.(tagidx := Some(idx));
  }

  /** The event as the relay holds it after parsing: index built from the tags. */
  predicate Prepared(e: Event) {
    e.tagidx == TagIndex(e.tags)
  }
}
