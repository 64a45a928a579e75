/** Models of the few standard-library algorithms the simulator relies on:
    std::min_element and std::max_element with a user comparator, and
    vector::erase of one position. The scans follow the loop libstdc++ and
    libc++ implement, so a comparator that is not a strict weak order (as
    some of the simulator's are, and for which the C++ standard leaves the
    result unspecified) gets the index those libraries return. */
module Algorithms {

  datatype Option<T> = None | Some(value: T)

  /** std::min_element from position i on, with `best` the current candidate:
      the candidate is replaced only when less(next, candidate) holds. */
  function MinElementFrom<T>(s: seq<T>, less: (T, T) -> bool, best: nat, i: nat): (r: nat)
    requires best < i <= |s|
    ensures best <= r < |s|
    decreases |s| - i
  {
    if i == |s| then best
    else MinElementFrom(s, less, if less(s[i], s[best]) then i else best, i + 1)
  }

  /** std::min_element over a non-empty range. */
  function MinElement<T>(s: seq<T>, less: (T, T) -> bool): (r: nat)
    requires |s| > 0
    ensures r < |s|
  {
    MinElementFrom(s, less, 0, 1)
  }

  /** std::max_element from position i on: the candidate is replaced only
      when less(candidate, next) holds. */
  function MaxElementFrom<T>(s: seq<T>, less: (T, T) -> bool, best: nat, i: nat): (r: nat)
    requires best < i <= |s|
    ensures best <= r < |s|
    decreases |s| - i
  {
    if i == |s| then best
    else MaxElementFrom(s, less, if less(s[best], s[i]) then i else best, i + 1)
  }

  /** std::max_element over a non-empty range. */
  function MaxElement<T>(s: seq<T>, less: (T, T) -> bool): (r: nat)
    requires |s| > 0
    ensures r < |s|
  {
    MaxElementFrom(s, less, 0, 1)
  }

  /** r is the first position of s whose key is smallest. */
  predicate IsFirstLeast<T>(s: seq<T>, key: T -> int, r: nat)
  {
    && r < |s|
    && (forall j :: 0 <= j < |s| ==> key(s[r]) <= key(s[j]))
    && (forall j :: 0 <= j < r ==> key(s[r]) < key(s[j]))
  }

  /** r is the first position of s whose key is largest. */
  predicate IsFirstGreatest<T>(s: seq<T>, key: T -> int, r: nat)
  {
    && r < |s|
    && (forall j :: 0 <= j < |s| ==> key(s[j]) <= key(s[r]))
    && (forall j :: 0 <= j < r ==> key(s[j]) < key(s[r]))
  }

  /** With a "key(a) < key(b)" comparator, min_element finds the first least key. */
  lemma {:induction false} MinElementFromLeast<T>(s: seq<T>, less: (T, T) -> bool, key: T -> int, best: nat, i: nat)
    requires best < i <= |s|
    requires forall a, b :: less(a, b) == (key(a) < key(b))
    requires forall j :: 0 <= j < i ==> key(s[best]) <= key(s[j])
    requires forall j :: 0 <= j < best ==> key(s[best]) < key(s[j])
    ensures IsFirstLeast(s, key, MinElementFrom(s, less, best, i))
    decreases |s| - i
  {
    if i < |s| {
      MinElementFromLeast(s, less, key, if less(s[i], s[best]) then i else best, i + 1);
    }
  }

  lemma MinElementLeast<T>(s: seq<T>, less: (T, T) -> bool, key: T -> int)
    requires |s| > 0
    requires forall a, b :: less(a, b) == (key(a) < key(b))
    ensures IsFirstLeast(s, key, MinElement(s, less))
  {
    MinElementFromLeast(s, less, key, 0, 1);
  }

  /** With a "key(a) > key(b)" comparator, min_element finds the first greatest key. */
  lemma {:induction false} MinElementFromGreatest<T>(s: seq<T>, less: (T, T) -> bool, key: T -> int, best: nat, i: nat)
    requires best < i <= |s|
    requires forall a, b :: less(a, b) == (key(a) > key(b))
    requires forall j :: 0 <= j < i ==> key(s[j]) <= key(s[best])
    requires forall j :: 0 <= j < best ==> key(s[j]) < key(s[best])
    ensures IsFirstGreatest(s, key, MinElementFrom(s, less, best, i))
    decreases |s| - i
  {
    if i < |s| {
      MinElementFromGreatest(s, less, key, if less(s[i], s[best]) then i else best, i + 1);
    }
  }

  lemma MinElementGreatest<T>(s: seq<T>, less: (T, T) -> bool, key: T -> int)
    requires |s| > 0
    requires forall a, b :: less(a, b) == (key(a) > key(b))
    ensures IsFirstGreatest(s, key, MinElement(s, less))
  {
    MinElementFromGreatest(s, less, key, 0, 1);
  }

  /** With a "key(a) > key(b)" comparator, max_element finds the first LEAST
      key: the inverted comparator turns the search for a maximum around. */
  lemma {:induction false} MaxElementFromInvertedLeast<T>(s: seq<T>, less: (T, T) -> bool, key: T -> int, best: nat, i: nat)
    requires best < i <= |s|
    requires forall a, b :: less(a, b) == (key(a) > key(b))
    requires forall j :: 0 <= j < i ==> key(s[best]) <= key(s[j])
    requires forall j :: 0 <= j < best ==> key(s[best]) < key(s[j])
    ensures IsFirstLeast(s, key, MaxElementFrom(s, less, best, i))
    decreases |s| - i
  {
    if i < |s| {
      MaxElementFromInvertedLeast(s, less, key, if less(s[best], s[i]) then i else best, i + 1);
    }
  }

  lemma MaxElementInvertedLeast<T>(s: seq<T>, less: (T, T) -> bool, key: T -> int)
    requires |s| > 0
    requires forall a, b :: less(a, b) == (key(a) > key(b))
    ensures IsFirstLeast(s, key, MaxElement(s, less))
  {
    MaxElementFromInvertedLeast(s, less, key, 0, 1);
  }

  /** A comparator that looks only at its first argument makes min_element
      return the LAST position from 1 on that satisfies it, or 0 when none does. */
  lemma {:induction false} MinElementFromUnary<T>(s: seq<T>, less: (T, T) -> bool, p: T -> bool, best: nat, i: nat)
    requires best < i <= |s|
    requires forall a, b :: less(a, b) == p(a)
    requires best == 0 || p(s[best])
    requires forall j :: best < j < i ==> !p(s[j])
    ensures var r := MinElementFrom(s, less, best, i);
      && (r == 0 || p(s[r]))
      && (forall j :: r < j < |s| ==> !p(s[j]))
    decreases |s| - i
  {
    if i < |s| {
      MinElementFromUnary(s, less, p, if less(s[i], s[best]) then i else best, i + 1);
    }
  }

  lemma MinElementUnary<T>(s: seq<T>, less: (T, T) -> bool, p: T -> bool)
    requires |s| > 0
    requires forall a, b :: less(a, b) == p(a)
    ensures var r := MinElement(s, less);
      && (r == 0 || p(s[r]))
      && (forall j :: r < j < |s| ==> !p(s[j]))
  {
    MinElementFromUnary(s, less, p, 0, 1);
  }

  /** vector::erase of position i: the others keep their relative order. */
  function Erase<T>(s: seq<T>, i: nat): (r: seq<T>)
    requires i < |s|
    ensures |r| == |s| - 1
    ensures forall j :: 0 <= j < i ==> r[j] == s[j]
    ensures forall j :: i <= j < |r| ==> r[j] == s[j + 1]
  {
    s[..i] + s[i + 1..]
  }

  /** Erasing takes exactly one occurrence of the erased element out. */
  lemma EraseMultiset<T>(s: seq<T>, i: nat)
    requires i < |s|
    ensures multiset(Erase(s, i)) + multiset{s[i]} == multiset(s)
  {
    assert s == s[..i] + [s[i]] + s[i + 1..];
  }
}
