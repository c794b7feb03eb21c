/** Request filters and their direct meaning on a live event (src/subscription.rs, src/event.rs). */
module Filters {
  import opened Text
  import opened Events

  datatype TagOperand = And(values: set<string>) | Or(values: set<string>)

  datatype ReqFilter = ReqFilter(
    ids: Option<seq<string>>,
    kinds: Option<seq<U64>>,
    since: Option<U64>,
    until: Option<U64>,
    authors: Option<seq<string>>,
    limit: Option<U64>,
    tags: Option<map<char, TagOperand>>,
    forceNoMatch: bool)

  predicate PrefixMatch(prefixes: seq<string>, target: string) {
    exists p :: p in prefixes && p <= target
  }

  predicate IdsMatch(f: ReqFilter, e: Event) {
    f.ids.Some? ==> PrefixMatch(f.ids.value, e.id)
  }

  predicate AuthorsMatch(f: ReqFilter, e: Event) {
    f.authors.Some? ==> PrefixMatch(f.authors.value, e.pubkey)
  }

  predicate DelegatedAuthorsMatch(f: ReqFilter, e: Event) {
    e.delegatedBy.Some? && (f.authors.Some? ==> PrefixMatch(f.authors.value, e.delegatedBy.value))
  }

  predicate KindMatch(f: ReqFilter, kind: nat) {
    f.kinds.Some? ==> kind in f.kinds.value
  }

  predicate SinceMatch(f: ReqFilter, createdAt: nat) {
    f.since.Some? ==> createdAt >= f.since.value
  }

  predicate UntilMatch(f: ReqFilter, createdAt: nat) {
    f.until.Some? ==> createdAt <= f.until.value
  }

  /** `generic_tag_val_intersect`: counts the common values. */
  predicate GenericTagValIntersect(e: Event, name: char, check: TagOperand) {
    e.tagidx.Some? && name in e.tagidx.value &&
    var common := e.tagidx.value[name] * check.values;
    match check
    case And(v) => |common| == |v|
    case Or(v) => |common| > 0
  }

  predicate TagMatch(f: ReqFilter, e: Event) {
    f.tags.Some? ==> forall c :: c in f.tags.value ==> GenericTagValIntersect(e, c, f.tags.value[c])
  }

  /** `interested_in_event`. */
  predicate InterestedInEvent(f: ReqFilter, e: Event) {
    && IdsMatch(f, e)
    && SinceMatch(f, e.createdAt)
    && UntilMatch(f, e.createdAt)
    && KindMatch(f, e.kind)
    && (AuthorsMatch(f, e) || DelegatedAuthorsMatch(f, e))
    && TagMatch(f, e)
    && !f.forceNoMatch
  }

  /** What a tag operand asks of the raw tags, without any index. */
  predicate Satisfies(tags: seq<Tag>, name: char, op: TagOperand) {
    match op
    case And(v) => forall x :: x in v ==> x in TagValues(tags, [name])
    case Or(v) => exists x :: x in v && x in TagValues(tags, [name])
  }

  lemma IndexedAreTagValues(tags: seq<Tag>, c: char, v: string)
    ensures v in IndexedValues(tags, c) <==> v in TagValues(tags, [c])
  {
    TagValuesMembers(tags, [c], v);
    forall t: Tag | |t| > 0
      ensures |t[0]| == 1 && t[0][0] == c <==> t[0] == [c]
    {
    }
    if v in TagValues(tags, [c]) {
      var t :| t in tags && |t| > 1 && t[0] == [c] && t[1] == v;
      assert Indexable(t) && t[0][0] == c;
    }
  }

  lemma CountsAsSubset(a: set<string>, b: set<string>)
    ensures |a * b| == |b| <==> b <= a
  {
    if b <= a {
      assert a * b == b;
    } else {
      var x :| x in b && x !in a;
      SmallerSet(a * b, b - {x});
    }
  }

  lemma {:induction false} SmallerSet(a: set<string>, b: set<string>)
    requires a <= b
    ensures |a| <= |b|
  {
    if a == {} {
    } else {
      var x :| x in a;
      SmallerSet(a - {x}, b - {x});
    }
  }

  /** Index lookups and counting say what the raw tags say, except that an And of nothing still
      needs the name to be indexed. */
  lemma IndexMatchMeans(e: Event, name: char, op: TagOperand)
    requires Prepared(e)
    ensures GenericTagValIntersect(e, name, op) <==>
            Satisfies(e.tags, name, op) && TagValues(e.tags, [name]) != []
  {
    var vals := IndexedValues(e.tags, name);
    forall v
      ensures v in vals <==> v in TagValues(e.tags, [name])
    {
      IndexedAreTagValues(e.tags, name, v);
    }
    assert name in IndexedNames(e.tags) <==> vals != {} by {
      if name in IndexedNames(e.tags) {
        var t :| t in e.tags && Indexable(t) && t[0][0] == name;
        assert t[1] in vals;
      }
      if vals != {} {
        var t :| t in e.tags && Indexable(t) && t[0][0] == name;
      }
    }
    assert TagValues(e.tags, [name]) != [] <==> vals != {} by {
      if TagValues(e.tags, [name]) != [] {
        assert TagValues(e.tags, [name])[0] in vals;
      }
      if vals != {} {
        var v :| v in vals;
      }
    }
    CountsAsSubset(vals, op.values);
    assert |vals * op.values| > 0 <==> exists x :: x in op.values && x in vals by {
      if exists x :: x in op.values && x in vals {
        var x :| x in op.values && x in vals;
        assert x in vals * op.values;
      }
      if |vals * op.values| > 0 {
        var x :| x in vals * op.values;
      }
    }
  }
}
