/** Option values for the nullable fields of the TypeScript sources, and
    generic facts about the array helper (`filter`) they use. */
module Wrappers {

  /** `T | null` (or an optional property) in the sources. */
  datatype Option<+T> = None | Some(value: T)

  /** JavaScript truthiness of a `string | null`: present and not `''`. */
  predicate Truthy(o: Option<string>) {
    o.Some? && o.value != ""
  }

  /** `s.filter(p)`: the elements satisfying `p`, in their original order. */
  function Filter<T(!new)>(s: seq<T>, p: T -> bool): (r: seq<T>)
    ensures |r| <= |s|
    ensures forall x :: x in r <==> x in s && p(x)
  {
    if s == [] then []
    else if p(s[|s| - 1]) then Filter(s[..|s| - 1], p) + [s[|s| - 1]]
    else Filter(s[..|s| - 1], p)
  }

  /** `a` is an order-preserving sub-list of `b`: `b` with some elements left out. */
  predicate SubList<T(==)>(a: seq<T>, b: seq<T>)
    decreases |b|
  {
    a == [] ||
    (b != [] &&
     ((a[|a| - 1] == b[|b| - 1] && SubList(a[..|a| - 1], b[..|b| - 1])) ||
      SubList(a, b[..|b| - 1])))
  }

  /** What `filter` returns is an order-preserving sub-list of its input,
      and it is the whole input exactly when every element passes. */
  /** A predicate that holds for no element keeps nothing. */
  lemma FilterNone<T(!new)>(s: seq<T>, p: T -> bool)
    requires forall x | x in s :: !p(x)
    ensures Filter(s, p) == []
  {
  }

  lemma {:induction false} FilterIsSubList<T(!new)>(s: seq<T>, p: T -> bool)
    ensures SubList(Filter(s, p), s)
    ensures (forall x | x in s :: p(x)) ==> Filter(s, p) == s
  {
    if s != [] {
      var s', last := s[..|s| - 1], s[|s| - 1];
      assert s == s' + [last];
      assert forall x | x in s' :: x in s;
      FilterIsSubList(s', p);
      var f' := Filter(s', p);
      if p(last) {
        var f := f' + [last];
        assert f[..|f| - 1] == f';
      }
    }
  }

  /** `[...new Set(s)]`: each element of `s` once, in order of first occurrence. */
  function Distinct<T(==,!new)>(s: seq<T>): (r: seq<T>)
    ensures forall x :: x in r <==> x in s
    ensures forall i, j | 0 <= i < j < |r| :: r[i] != r[j]
  {
    if s == [] then []
    else
      var prev, last := Distinct(s[..|s| - 1]), s[|s| - 1];
      assert s == s[..|s| - 1] + [last];
      if last in prev then prev else prev + [last]
  }

  /** `i` is where `x` first occurs in `s`. */
  predicate FirstAt<T(==)>(s: seq<T>, x: T, i: int) {
    0 <= i < |s| && s[i] == x && forall k | 0 <= k < i :: s[k] != x
  }

  /** An element's first occurrence cannot lie past the end of a prefix holding it. */
  lemma FirstAtPrefix<T>(s: seq<T>, x: T, p: int)
    requires |s| > 0 && x in s[..|s| - 1] && FirstAt(s, x, p)
    ensures p < |s| - 1 && FirstAt(s[..|s| - 1], x, p)
  {
    var k :| 0 <= k < |s| - 1 && s[..|s| - 1][k] == x;
    assert s[k] == x;
  }

  /** `Distinct` lists the elements in the order they first occur in `s`. */
  lemma {:induction false} DistinctKeepsFirstOccurrenceOrder<T(!new)>(s: seq<T>, i: int, j: int, p: int, q: int)
    requires 0 <= i < j < |Distinct(s)|
    requires FirstAt(s, Distinct(s)[i], p) && FirstAt(s, Distinct(s)[j], q)
    ensures p < q
  {
    var prefix, last := s[..|s| - 1], s[|s| - 1];
    var prev := Distinct(prefix);
    var r := Distinct(s);
    assert prev[i] == r[i] && r[i] in prefix;
    FirstAtPrefix(s, r[i], p);
    if j < |prev| {
      assert prev[j] == r[j] && r[j] in prefix;
      FirstAtPrefix(s, r[j], q);
      DistinctKeepsFirstOccurrenceOrder(prefix, i, j, p, q);
    } else {
      assert r[j] == last && last !in prefix;
    }
  }
}
