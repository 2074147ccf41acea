/** Order-preserving filtering and element-wise mapping of sequences: the lists that the
    scripts' `for ... append` loops build. Both are defined on the last element, so that the
    value after one more loop iteration is one unfolding away. */
module Seqs {

  /** The elements of `s` that satisfy `p`, in their original order. */
  function Filter<T>(p: T -> bool, s: seq<T>): (r: seq<T>)
    ensures |r| <= |s|
  {
    if s == [] then []
    else
      assert s == s[..|s| - 1] + [s[|s| - 1]];
      Filter(p, s[..|s| - 1]) + (if p(s[|s| - 1]) then [s[|s| - 1]] else [])
  }

  /** `f` applied to every element of `s`, in order. */
  function Map<T, U>(f: T -> U, s: seq<T>): (r: seq<U>)
    ensures |r| == |s|
    ensures forall i :: 0 <= i < |s| ==> r[i] == f(s[i])
  {
    if s == [] then [] else Map(f, s[..|s| - 1]) + [f(s[|s| - 1])]
  }

  /** The predicate that holds exactly where `p` does not. */
  function Complement<T>(p: T -> bool): T -> bool
  {
    x => !p(x)
  }

  /** The filtered list holds only elements of `s` that satisfy `p`, and every such element. */
  lemma {:induction false} FilterMembers<T>(p: T -> bool, s: seq<T>)
    ensures forall i :: 0 <= i < |Filter(p, s)| ==> Filter(p, s)[i] in s && p(Filter(p, s)[i])
    ensures forall i :: 0 <= i < |s| && p(s[i]) ==> s[i] in Filter(p, s)
  {
    if s != [] {
      var init, x := s[..|s| - 1], s[|s| - 1];
      FilterMembers(p, init);
      assert s == init + [x];
      FilterSnoc(p, init, x);
    }
  }

  /** One more element at the end adds at most that element to the filtered list. */
  lemma FilterSnoc<T>(p: T -> bool, s: seq<T>, x: T)
    ensures Filter(p, s + [x]) == Filter(p, s) + (if p(x) then [x] else [])
  {
    assert (s + [x])[..|s|] == s;
  }

  /** One more element at the end adds its image at the end of the mapped list. */
  lemma MapSnoc<T, U>(f: T -> U, s: seq<T>, x: T)
    ensures Map(f, s + [x]) == Map(f, s) + [f(x)]
  {
    assert (s + [x])[..|s|] == s;
  }

  /** Filtering by `p` and by its complement splits `s` into two parts that together hold
      every element exactly as often as `s` does. */
  lemma {:induction false} FilterPartition<T>(p: T -> bool, s: seq<T>)
    ensures |Filter(p, s)| + |Filter(Complement(p), s)| == |s|
    ensures multiset(Filter(p, s)) + multiset(Filter(Complement(p), s)) == multiset(s)
  {
    if s != [] {
      var init, x := s[..|s| - 1], s[|s| - 1];
      FilterPartition(p, init);
      assert s == init + [x];
      FilterSnoc(p, init, x);
      FilterSnoc(Complement(p), init, x);
    }
  }

  /** Concatenation regrouped: a middle part built from three pieces is the three pieces. */
  lemma Regroup<T>(a: seq<T>, x: seq<T>, m: seq<T>, y: seq<T>, b: seq<T>)
    ensures a + (x + m + y) + b == a + x + m + y + b
  {
  }

  /** Mapping with `g` undoes mapping with `f` wherever `g` inverts `f` on the elements. */
  lemma MapInverse<T, U>(f: T -> U, g: U -> T, s: seq<T>)
    requires forall i :: 0 <= i < |s| ==> g(f(s[i])) == s[i]
    ensures Map(g, Map(f, s)) == s
  {
  }
}
