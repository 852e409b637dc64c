/** Python's ordering of `str` values (lexicographic by code point) and the
    two ways the program turns a set of host names into a list:
    `list(s)` (some order, no repeats) and `sorted(s)` (ascending). */
module Ordering {

  /** Python's `a < b` on strings. */
  predicate Less(a: string, b: string)
    decreases |a|
  {
    if |a| == 0 then |b| > 0
    else if |b| == 0 then false
    else if a[0] != b[0] then a[0] < b[0]
    else Less(a[1..], b[1..])
  }

  /** Ascending with no element repeated: what `sorted(s)` of a set yields. */
  predicate StrictlySorted(xs: seq<string>) {
    forall i, j :: 0 <= i < j < |xs| ==> Less(xs[i], xs[j])
  }

  predicate NoDuplicates(xs: seq<string>) {
    forall i, j :: 0 <= i < j < |xs| ==> xs[i] != xs[j]
  }

  /** `xs` lists exactly the members of `s`. */
  ghost predicate Lists(xs: seq<string>, s: set<string>) {
    forall x :: x in xs <==> x in s
  }

  lemma {:induction false} LessIrreflexive(a: string)
    ensures !Less(a, a)
    decreases |a|
  {
    if |a| > 0 { LessIrreflexive(a[1..]); }
  }

  /** Any two different strings are ordered one way or the other, and never
      both ways. */
  lemma {:induction false} LessTotal(a: string, b: string)
    ensures a != b ==> Less(a, b) || Less(b, a)
    ensures !(Less(a, b) && Less(b, a))
    decreases |a|
  {
    if |a| > 0 && |b| > 0 && a[0] == b[0] {
      LessTotal(a[1..], b[1..]);
      assert a != b ==> a[1..] != b[1..] by {
        assert a == [a[0]] + a[1..] && b == [b[0]] + b[1..];
      }
    }
  }

  lemma {:induction false} LessTransitive(a: string, b: string, c: string)
    requires Less(a, b) && Less(b, c)
    ensures Less(a, c)
    decreases |a|
  {
    if |a| > 0 && a[0] == b[0] && b[0] == c[0] {
      LessTransitive(a[1..], b[1..], c[1..]);
    }
  }

  lemma StrictlySortedHasNoDuplicates(xs: seq<string>)
    requires StrictlySorted(xs)
    ensures NoDuplicates(xs)
  {
    forall i, j | 0 <= i < j < |xs| ensures xs[i] != xs[j] {
      LessIrreflexive(xs[i]);
    }
  }

  /** Adding `x` to the ascending listing of a set: the result is the
      ascending listing of that set with `x` added. */
  function Insert(x: string, xs: seq<string>): (r: seq<string>)
    requires StrictlySorted(xs)
    ensures StrictlySorted(r)
    ensures forall y :: y in r <==> y == x || y in xs
    decreases |xs|
  {
    if xs == [] then [x]
    else if Less(x, xs[0]) then
      assert forall j :: 0 <= j < |xs| ==> Less(x, xs[j]) by {
        forall j | 0 < j < |xs| ensures Less(x, xs[j]) {
          LessTransitive(x, xs[0], xs[j]);
        }
      }
      [x] + xs
    else if x == xs[0] then xs
    else
      LessTotal(x, xs[0]);
      var tail := Insert(x, xs[1..]);
      assert forall y :: y in tail ==> Less(xs[0], y);
      [xs[0]] + tail
  }

  /** Two ascending listings of the same set are the same sequence, so
      "the sorted listing of s" is well defined. */
  lemma {:induction false} SortedListingUnique(xs: seq<string>, ys: seq<string>)
    requires StrictlySorted(xs) && StrictlySorted(ys)
    requires forall z :: z in xs <==> z in ys
    ensures xs == ys
    decreases |xs|
  {
    if xs != [] && ys != [] {
      assert xs[0] == ys[0] by {
        LessTotal(xs[0], ys[0]);
        LessIrreflexive(xs[0]);
        LessIrreflexive(ys[0]);
        assert xs[0] in ys && ys[0] in xs;
      }
      forall z ensures z in xs[1..] <==> z in ys[1..] {
        LessIrreflexive(xs[0]);
        assert xs == [xs[0]] + xs[1..] && ys == [ys[0]] + ys[1..];
        if z in xs[1..] {
          assert z != xs[0] && z in xs;
          assert z in ys;
        }
        if z in ys[1..] {
          assert z != ys[0] && z in ys;
          assert z in xs;
        }
      }
      SortedListingUnique(xs[1..], ys[1..]);
    } else {
      HeadIsMember(xs);
      HeadIsMember(ys);
    }
  }

  lemma HeadIsMember(xs: seq<string>)
    ensures xs != [] ==> xs[0] in xs
  {
  }

  /** Every finite set of strings has an ascending listing. */
  lemma {:induction false} SortedListingExists(s: set<string>)
    ensures exists xs :: StrictlySorted(xs) && Lists(xs, s)
    decreases |s|
  {
    if s == {} {
      assert StrictlySorted([]) && Lists([], s);
    } else {
      var x :| x in s;
      SortedListingExists(s - {x});
      var xs :| StrictlySorted(xs) && Lists(xs, s - {x});
      assert StrictlySorted(Insert(x, xs)) && Lists(Insert(x, xs), s);
    }
  }

  /** `sorted(s)` for a set of strings. */
  ghost function SortedOf(s: set<string>): (r: seq<string>)
    ensures StrictlySorted(r) && Lists(r, s)
  {
    SortedListingExists(s);
    var xs :| StrictlySorted(xs) && Lists(xs, s);
    xs
  }

  /** `list(s)`: the members of `s`, each once, in an order the model
      leaves open (Python's set iteration order). */
  method ListOf(s: set<string>) returns (xs: seq<string>)
    ensures Lists(xs, s) && NoDuplicates(xs) && |xs| == |s|
  {
    xs := [];
    var rest := s;
    while rest != {}
      invariant rest <= s
      invariant forall x :: x in xs <==> x in s - rest
      invariant NoDuplicates(xs)
      invariant |xs| + |rest| == |s|
      decreases |rest|
    {
      var x :| x in rest;
      xs := xs + [x];
      rest := rest - {x};
    }
  }

  /** `sorted(s)`: the members of `s` in ascending order. */
  method SortSet(s: set<string>) returns (xs: seq<string>)
    ensures StrictlySorted(xs) && Lists(xs, s)
    ensures xs == SortedOf(s)
  {
    xs := [];
    var rest := s;
    while rest != {}
      invariant rest <= s
      invariant StrictlySorted(xs)
      invariant forall x :: x in xs <==> x in s - rest
      decreases |rest|
    {
      var x :| x in rest;
      xs := Insert(x, xs);
      rest := rest - {x};
    }
    SortedListingUnique(xs, SortedOf(s));
  }
}
