/** Sorted enumerations of sets, as `sort` and `sorted_by` give them. */
module Sorting {

  /** Rust's order on strings: UTF-8 bytes compare as code points do. */
  predicate Leq(a: string, b: string) {
    a == "" || (b != "" && (a[0] < b[0] || (a[0] == b[0] && Leq(a[1..], b[1..]))))
  }

  lemma {:induction false} LeqTotal(a: string, b: string)
    ensures Leq(a, b) || Leq(b, a)
    ensures Leq(a, b) && Leq(b, a) ==> a == b
  {
    if a == "" || b == "" {
    } else {
      LeqTotal(a[1..], b[1..]);
      assert a == [a[0]] + a[1..] && b == [b[0]] + b[1..];
    }
  }

  lemma {:induction false} LeqTransitive(a: string, b: string, c: string)
    requires Leq(a, b) && Leq(b, c)
    ensures Leq(a, c)
  {
    if a == "" {
    } else if a[0] == b[0] && b[0] == c[0] {
      LeqTransitive(a[1..], b[1..], c[1..]);
    }
  }

  /** One string comes before another exactly if it begins it or has the lower character where the two
      first differ. */
  lemma {:induction false} LeqExactly(a: string, b: string)
    ensures Leq(a, b) <==> a <= b || exists i: nat :: DiffersAt(a, b, i) && a[i] < b[i]
  {
    if a == "" {
    } else if b == "" || a[0] != b[0] {
      assert b != "" ==> DiffersAt(a, b, 0);
      assert forall i: nat :: DiffersAt(a, b, i) ==> i == 0;
    } else {
      LeqExactly(a[1..], b[1..]);
      assert a[1..] <= b[1..] <==> a <= b by {
        assert forall i :: 0 < i < |a| ==> a[i] == a[1..][i - 1];
        assert forall i :: 0 < i < |b| ==> b[i] == b[1..][i - 1];
      }
      forall i: nat
        ensures DiffersAt(a[1..], b[1..], i) <==> DiffersAt(a, b, i + 1)
      {
        DiffersLater(a, b, i);
      }
      if exists i: nat :: DiffersAt(a, b, i) && a[i] < b[i] {
        var i: nat :| DiffersAt(a, b, i) && a[i] < b[i];
        assert DiffersAt(a[1..], b[1..], i - 1);
      }
    }
  }

  predicate DiffersAt(a: string, b: string, i: nat) {
    i < |a| && i < |b| && a[i] != b[i] && forall j :: 0 <= j < i ==> a[j] == b[j]
  }

  lemma DiffersLater(a: string, b: string, i: nat)
    requires a != "" && b != "" && a[0] == b[0]
    ensures DiffersAt(a[1..], b[1..], i) <==> DiffersAt(a, b, i + 1)
  {
    if DiffersAt(a[1..], b[1..], i) {
      assert forall j :: 0 < j < i + 1 ==> a[j] == a[1..][j - 1] && b[j] == b[1..][j - 1];
    }
    if DiffersAt(a, b, i + 1) {
      assert forall j :: 0 <= j < i ==> a[1..][j] == a[j + 1] && b[1..][j] == b[j + 1];
    }
  }

  predicate IsLeast(s: set<string>, m: string) {
    m in s && forall x :: x in s ==> Leq(m, x)
  }

  lemma {:induction false} LeastString(s: set<string>)
    requires s != {}
    ensures exists m :: IsLeast(s, m)
    ensures forall m, n :: IsLeast(s, m) && IsLeast(s, n) ==> m == n
  {
    forall m, n | IsLeast(s, m) && IsLeast(s, n)
      ensures m == n
    {
      LeqTotal(m, n);
    }
    var one :| one in s;
    LeqTotal(one, one);
    if s == {one} {
      assert IsLeast(s, one);
    } else {
      LeastString(s - {one});
      var rest :| IsLeast(s - {one}, rest);
      LeqTotal(one, rest);
      var m := if Leq(one, rest) then one else rest;
      forall x | x in s
        ensures Leq(m, x)
      {
        if x != one && m == one {
          LeqTransitive(one, rest, x);
        }
      }
      assert IsLeast(s, m);
    }
  }

  ghost predicate StrictlySorted(r: seq<string>) {
    forall i, j :: 0 <= i < j < |r| ==> Leq(r[i], r[j]) && r[i] != r[j]
  }

  function SortedStrings(s: set<string>): (r: seq<string>)
    ensures forall x :: x in r <==> x in s
    ensures StrictlySorted(r)
  {
    if s == {} then []
    else
      LeastString(s);
      var m :| m in s && IsLeast(s, m);
      [m] + SortedStrings(s - {m})
  }

  predicate IsLeastChar(s: set<char>, m: char) {
    m in s && forall x :: x in s ==> m <= x
  }

  lemma {:induction false} LeastChar(s: set<char>)
    requires s != {}
    ensures exists m :: IsLeastChar(s, m)
  {
    var one :| one in s;
    if s == {one} {
      assert IsLeastChar(s, one);
    } else {
      LeastChar(s - {one});
      var rest :| IsLeastChar(s - {one}, rest);
      var m := if one <= rest then one else rest;
      forall x | x in s
        ensures m <= x
      {
        if x != one {
          assert x in s - {one};
        }
      }
      assert IsLeastChar(s, m);
    }
  }

  function SortedChars(s: set<char>): (r: seq<char>)
    ensures forall x :: x in r <==> x in s
    ensures forall i, j :: 0 <= i < j < |r| ==> r[i] < r[j]
  {
    if s == {} then []
    else
      LeastChar(s);
      var m :| m in s && IsLeastChar(s, m);
      [m] + SortedChars(s - {m})
  }
}
