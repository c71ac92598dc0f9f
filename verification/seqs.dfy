/**
 * Sequence and string bookkeeping shared by both wizards: the JavaScript
 * array idioms the pages rely on (`filter`, `map`, `flatMap`,
 * `Array.from(new Set(...))`, `join`) and the counting facts the stage
 * wizard's invariant needs.
 */
module Seqs {

  datatype Option<T> = None | Some(value: T)

  /** No element occurs twice. */
  predicate NoDup<T(==,!new)>(s: seq<T>) {
    forall i, j :: 0 <= i < j < |s| ==> s[i] != s[j]
  }

  /** Appending a new element keeps a sequence duplicate-free. */
  lemma NoDupAppend<T(!new)>(s: seq<T>, x: T)
    requires NoDup(s) && x !in s
    ensures NoDup(s + [x])
  {
  }

  /**
   * Position of the first occurrence of `x` in `s`: the vocabulary for
   * stating the insertion order a JavaScript `Set` keeps.
   */
  function IndexOf<T(==,!new)>(s: seq<T>, x: T): (k: nat)
    requires x in s
    ensures k < |s| && s[k] == x && x !in s[..k]
  {
    if s[0] == x then 0
    else
      var k := IndexOf(s[1..], x);
      assert s[..k + 1] == [s[0]] + s[1..][..k];
      k + 1
  }

  /** Appending at the end does not move the first occurrence of an element already present. */
  lemma {:induction false} IndexOfExtend<T(!new)>(s: seq<T>, y: T, x: T)
    requires x in s
    ensures IndexOf(s + [y], x) == IndexOf(s, x)
  {
    if s[0] != x {
      assert (s + [y])[1..] == s[1..] + [y];
      IndexOfExtend(s[1..], y, x);
    }
  }

  /** Every element of `r` occurs in `ks`, and `r` lists them in the order of their first occurrence there. */
  ghost predicate OrderedBy<T(!new)>(r: seq<T>, ks: seq<T>) {
    && (forall k :: k in r ==> k in ks)
    && forall i, j :: 0 <= i < j < |r| ==> IndexOf(ks, r[i]) < IndexOf(ks, r[j])
  }

  /** Extending the reference order at the end keeps `r` ordered by it. */
  lemma OrderedByExtend<T(!new)>(r: seq<T>, ks: seq<T>, y: T)
    requires OrderedBy(r, ks)
    ensures OrderedBy(r, ks + [y])
  {
    forall k | k in r
      ensures IndexOf(ks + [y], k) == IndexOf(ks, k)
    {
      IndexOfExtend(ks, y, k);
    }
  }

  /** A new element appended to both keeps `r` ordered by `ks`. */
  lemma OrderedByAppend<T(!new)>(r: seq<T>, ks: seq<T>, y: T)
    requires OrderedBy(r, ks) && y !in ks
    ensures OrderedBy(r + [y], ks + [y])
  {
    OrderedByExtend(r, ks, y);
    var r', ks' := r + [y], ks + [y];
    assert forall k :: 0 <= k < |ks| ==> ks'[k] == ks[k];
    assert IndexOf(ks', y) == |ks|;
    forall i, j | 0 <= i < j < |r'|
      ensures IndexOf(ks', r'[i]) < IndexOf(ks', r'[j])
    {
      assert r'[i] == r[i];
      if j < |r| {
        assert r'[j] == r[j];
      }
    }
  }

  /** `s.filter(p)`: the elements satisfying `p`, in their original order. */
  function Filter<T(!new)>(s: seq<T>, p: T -> bool): (r: seq<T>)
    ensures |r| <= |s|
    ensures forall x :: x in r <==> x in s && p(x)
  {
    if s == [] then []
    else Filter(s[..|s| - 1], p) + (if p(s[|s| - 1]) then [s[|s| - 1]] else [])
  }

  /** Filtering distributes over concatenation: the kept elements of `a` come before those of `b`. */
  lemma {:induction false} FilterAppend<T(!new)>(a: seq<T>, b: seq<T>, p: T -> bool)
    ensures Filter(a + b, p) == Filter(a, p) + Filter(b, p)
  {
    if b == [] {
      assert a + b == a;
    } else {
      var b' := b[..|b| - 1];
      assert (a + b)[..|a + b| - 1] == a + b';
      FilterAppend(a, b', p);
    }
  }

  /** Two predicates that agree on every element of `s` filter it identically. */
  lemma {:induction false} FilterAgree<T(!new)>(s: seq<T>, p: T -> bool, q: T -> bool)
    requires forall x :: x in s ==> p(x) == q(x)
    ensures Filter(s, p) == Filter(s, q)
  {
    if s != [] {
      FilterAgree(s[..|s| - 1], p, q);
    }
  }

  /** A predicate that holds of every element keeps the whole sequence. */
  lemma {:induction false} FilterKeepsAll<T(!new)>(s: seq<T>, p: T -> bool)
    requires forall x :: x in s ==> p(x)
    ensures Filter(s, p) == s
  {
    if s != [] {
      var q := s[..|s| - 1];
      assert s == q + [s[|s| - 1]];
      FilterKeepsAll(q, p);
    }
  }

  /** Filtering keeps a duplicate-free sequence duplicate-free. */
  lemma {:induction false} FilterNoDup<T(!new)>(s: seq<T>, p: T -> bool)
    requires NoDup(s)
    ensures NoDup(Filter(s, p))
  {
    if s != [] {
      FilterNoDup(s[..|s| - 1], p);
    }
  }

  /** `s.map(f)`. */
  function Map<T, U>(s: seq<T>, f: T -> U): (r: seq<U>)
    ensures |r| == |s|
    ensures forall i :: 0 <= i < |s| ==> r[i] == f(s[i])
  {
    seq(|s|, i requires 0 <= i < |s| => f(s[i]))
  }

  /** `s.flatMap(f)`: the concatenation of `f` over `s`, in order. */
  function FlatMap<T(!new), U(!new)>(s: seq<T>, f: T -> seq<U>): (r: seq<U>)
    ensures forall y :: y in r <==> exists x :: x in s && y in f(x)
  {
    if s == [] then []
    else
      var r := FlatMap(s[..|s| - 1], f) + f(s[|s| - 1]);
      assert forall x :: x in s <==> x in s[..|s| - 1] || x == s[|s| - 1];
      r
  }

  /** `flatMap` keeps order: the pieces of `a` come before the pieces of `b`. */
  lemma {:induction false} FlatMapAppend<T(!new), U(!new)>(a: seq<T>, b: seq<T>, f: T -> seq<U>)
    ensures FlatMap(a + b, f) == FlatMap(a, f) + FlatMap(b, f)
  {
    if b == [] {
      assert a + b == a;
    } else {
      var b' := b[..|b| - 1];
      assert (a + b)[..|a + b| - 1] == a + b';
      FlatMapAppend(a, b', f);
    }
  }

  /**
   * `Array.from(new Set(s))`: the distinct elements of `s`, each once.
   * `DedupFirstSeen` states the order they come in.
   */
  function Dedup<T(==,!new)>(s: seq<T>): (r: seq<T>)
    ensures NoDup(r)
    ensures forall x :: x in r <==> x in s
  {
    if s == [] then []
    else
      var p, y := s[..|s| - 1], s[|s| - 1];
      assert s == p + [y];
      var d := Dedup(p);
      if y in d then d else d + [y]
  }

  /** The distinct elements come in the order of their first occurrence. */
  lemma {:induction false} DedupFirstSeen<T(!new)>(s: seq<T>)
    ensures forall i, j :: 0 <= i < j < |Dedup(s)| ==> IndexOf(s, Dedup(s)[i]) < IndexOf(s, Dedup(s)[j])
  {
    if s != [] {
      var p, y := s[..|s| - 1], s[|s| - 1];
      assert s == p + [y];
      var d := Dedup(p);
      DedupFirstSeen(p);
      forall x | x in p
        ensures IndexOf(s, x) == IndexOf(p, x)
      {
        IndexOfExtend(p, y, x);
      }
      if y !in d {
        assert IndexOf(s, y) == |p|;
      }
    }
  }

  /**
   * `s.filter(y => y !== x)`: every occurrence of `x` dropped, the rest kept
   * in order. It is written as its own recursion, not as a call to `Filter`
   * with a lambda, so that the stage wizard's `Deselect` reasons about a
   * plain function rather than a lambda; RemoveKeepsOrder proves that the
   * two agree on every input.
   */
  function Remove<T(==,!new)>(s: seq<T>, x: T): (r: seq<T>)
    ensures x !in r
    ensures forall y :: y != x ==> (y in r <==> y in s)
  {
    if s == [] then []
    else
      var p, y := s[..|s| - 1], s[|s| - 1];
      assert s == p + [y];
      var r := Remove(p, x);
      if y == x then r else r + [y]
  }

  /** Removing keeps a duplicate-free list duplicate-free. */
  lemma {:induction false} RemoveNoDup<T(!new)>(s: seq<T>, x: T)
    requires NoDup(s)
    ensures NoDup(Remove(s, x))
  {
    if s != [] {
      var p, y := s[..|s| - 1], s[|s| - 1];
      assert s == p + [y];
      RemoveNoDup(p, x);
      if y != x {
        NoDupAppend(Remove(p, x), y);
      }
    }
  }

  /** `Remove` is the order-keeping `filter(y => y !== x)`. */
  lemma {:induction false} RemoveKeepsOrder<T(!new)>(s: seq<T>, x: T)
    ensures Remove(s, x) == Filter(s, y => y != x)
  {
    if s != [] {
      RemoveKeepsOrder(s[..|s| - 1], x);
    }
  }

  /** Removing an absent element changes nothing. */
  lemma {:induction false} RemoveAbsent<T(!new)>(s: seq<T>, x: T)
    requires x !in s
    ensures Remove(s, x) == s
  {
    if s != [] {
      RemoveAbsent(s[..|s| - 1], x);
    }
  }

  /**
   * Toggle membership in an ordered list: remove `x` when present,
   * otherwise append it at the end.
   */
  function ToggleIn<T(==,!new)>(s: seq<T>, x: T): (r: seq<T>)
    ensures x in r <==> x !in s
    ensures forall y :: y != x ==> (y in r <==> y in s)
    ensures NoDup(s) ==> NoDup(r)
    ensures x !in s ==> |r| == |s| + 1 && r[..|s|] == s
  {
    assert NoDup(s) ==> NoDup(Remove(s, x)) by {
      if NoDup(s) {
        RemoveNoDup(s, x);
      }
    }
    if x in s then Remove(s, x) else s + [x]
  }

  /** Toggling filters a present element out, keeping the others' order, and appends an absent one. */
  lemma ToggleInOrder<T(!new)>(s: seq<T>, x: T)
    ensures ToggleIn(s, x) == if x in s then Filter(s, y => y != x) else s + [x]
  {
    RemoveKeepsOrder(s, x);
  }

  /**
   * Toggling the same element twice restores an absent element's list;
   * a present element ends up moved to the end.
   */
  lemma {:induction false} ToggleInTwice<T(!new)>(s: seq<T>, x: T)
    ensures ToggleIn(ToggleIn(s, x), x) == if x in s then Remove(s, x) + [x] else s
  {
    if x !in s {
      assert (s + [x])[..|s|] == s;
      RemoveAbsent(s, x);
    }
  }

  /** Membership flip in a set (JavaScript `Set.has` / `delete` / `add`). */
  function ToggleSet<T(!new)>(s: set<T>, x: T): (r: set<T>)
    ensures x in r <==> x !in s
    ensures forall y :: y != x ==> (y in r <==> y in s)
  {
    if x in s then s - {x} else s + {x}
  }

  /** Toggling twice restores the set. */
  lemma ToggleSetTwice<T(!new)>(s: set<T>, x: T)
    ensures ToggleSet(ToggleSet(s, x), x) == s
  {
  }

  /** How many elements of `s` (with repetition) occur in `labels`. */
  function Count<T(==,!new)>(s: seq<T>, labels: seq<T>): nat {
    if s == [] then 0
    else Count(s[..|s| - 1], labels) + (if s[|s| - 1] in labels then 1 else 0)
  }

  /** Appending one element counts it exactly when it is one of `labels`. */
  lemma CountAppend<T(!new)>(s: seq<T>, y: T, labels: seq<T>)
    ensures Count(s + [y], labels) == Count(s, labels) + (if y in labels then 1 else 0)
  {
    assert (s + [y])[..|s|] == s;
  }

  /** Removing a present element of a duplicate-free list lowers the count of its group by one. */
  lemma {:induction false} CountRemove<T(!new)>(s: seq<T>, x: T, labels: seq<T>)
    requires NoDup(s) && x in s
    ensures Count(Remove(s, x), labels) == Count(s, labels) - (if x in labels then 1 else 0)
  {
    var p, y := s[..|s| - 1], s[|s| - 1];
    assert s == p + [y];
    if y == x {
      assert x !in p;
      RemoveAbsent(p, x);
    } else {
      CountRemove(p, x, labels);
      CountAppend(Remove(p, x), y, labels);
    }
  }

  /** A zero count means no element of `s` is one of `labels`. */
  lemma {:induction false} CountZero<T(!new)>(s: seq<T>, labels: seq<T>)
    requires Count(s, labels) == 0
    ensures forall x :: x in s ==> x !in labels
  {
    if s != [] {
      var p := s[..|s| - 1];
      assert s == p + [s[|s| - 1]];
      CountZero(p, labels);
    }
  }

  /** `parts.join(sep)`: nothing for no parts, the part itself for one. */
  function Join(parts: seq<string>, sep: string): (r: string)
    ensures parts == [] ==> r == ""
    ensures |parts| == 1 ==> r == parts[0]
    ensures |parts| >= 2 ==> |r| >= |parts[0]| + |sep| + |parts[|parts| - 1]|
  {
    if |parts| == 0 then ""
    else if |parts| == 1 then parts[0]
    else Join(parts[..|parts| - 1], sep) + sep + parts[|parts| - 1]
  }

  /** The join read from the front: the first part, the separator, then the join of the rest. */
  lemma {:induction false} JoinFront(parts: seq<string>, sep: string)
    requires |parts| >= 2
    ensures Join(parts, sep) == parts[0] + sep + Join(parts[1..], sep)
  {
    var n := |parts|;
    if n > 2 {
      JoinFront(parts[..n - 1], sep);
      assert parts[..n - 1][1..] == parts[1..][..n - 2];
    }
  }
}
