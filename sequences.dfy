/** Generic sequence operations that the catalog uses in the shape JavaScript's
    arrays offer them: `filter`, `find`/`findIndex` and `slice(0, n)`, together with
    the notion of an order-preserving subsequence that their contracts are stated in. */
module Sequences {

  datatype Option<T> = None | Some(value: T)

  /** `sub` is obtained from `s` by deleting elements, keeping the order of the rest. */
  ghost predicate IsSubsequence<T>(sub: seq<T>, s: seq<T>)
    decreases |s|
  {
    sub == [] ||
    (s != [] &&
     ((sub[0] == s[0] && IsSubsequence(sub[1..], s[1..])) || IsSubsequence(sub, s[1..])))
  }

  lemma {:induction false} SubsequenceReflexive<T>(s: seq<T>)
    ensures IsSubsequence(s, s)
    decreases |s|
  {
    if s != [] {
      SubsequenceReflexive(s[1..]);
    }
  }

  lemma {:induction false} PrefixIsSubsequence<T>(s: seq<T>, n: nat)
    requires n <= |s|
    ensures IsSubsequence(s[..n], s)
    decreases |s|
  {
    if n > 0 {
      assert s[..n][1..] == s[1..][..n - 1];
      PrefixIsSubsequence(s[1..], n - 1);
    }
  }

  lemma {:induction false} SubsequenceTransitive<T>(a: seq<T>, b: seq<T>, c: seq<T>)
    requires IsSubsequence(a, b) && IsSubsequence(b, c)
    ensures IsSubsequence(a, c)
    decreases |c|
  {
    if a != [] {
      if IsSubsequence(b, c[1..]) {
        SubsequenceTransitive(a, b, c[1..]);
      } else if a[0] == b[0] && IsSubsequence(a[1..], b[1..]) {
        SubsequenceTransitive(a[1..], b[1..], c[1..]);
      } else {
        SubsequenceTransitive(a, b[1..], c[1..]);
      }
    }
  }

  /** Every element of a subsequence occurs in the sequence, at least as often. */
  lemma {:induction false} SubsequenceMultiset<T>(sub: seq<T>, s: seq<T>)
    requires IsSubsequence(sub, s)
    ensures multiset(sub) <= multiset(s)
    decreases |s|
  {
    if sub != [] {
      assert s == [s[0]] + s[1..];
      if sub[0] == s[0] && IsSubsequence(sub[1..], s[1..]) {
        SubsequenceMultiset(sub[1..], s[1..]);
        assert sub == [sub[0]] + sub[1..];
      } else {
        SubsequenceMultiset(sub, s[1..]);
      }
    }
  }

  /** JavaScript's `Array.prototype.filter`. */
  function Filter<T>(s: seq<T>, p: T -> bool): seq<T>
    decreases |s|
  {
    if s == [] then []
    else if p(s[0]) then [s[0]] + Filter(s[1..], p)
    else Filter(s[1..], p)
  }

  /** The filter keeps the elements satisfying `p`, in their order, each as often as it
      occurs in `s`, and nothing else. */
  lemma {:induction false} FilterSpec<T(!new)>(s: seq<T>, p: T -> bool)
    ensures IsSubsequence(Filter(s, p), s)
    ensures forall i :: 0 <= i < |Filter(s, p)| ==> p(Filter(s, p)[i])
    ensures forall x :: multiset(Filter(s, p))[x] == if p(x) then multiset(s)[x] else 0
    decreases |s|
  {
    if s != [] {
      assert s == [s[0]] + s[1..];
      var rest := Filter(s[1..], p);
      FilterSpec(s[1..], p);
      if p(s[0]) {
        assert ([s[0]] + rest)[1..] == rest;
      }
    }
  }

  /** Filtering a list with one more element in front. */
  lemma FilterCons<T(!new)>(x: T, s: seq<T>, p: T -> bool)
    ensures Filter([x] + s, p) == (if p(x) then [x] else []) + Filter(s, p)
  {
    assert ([x] + s)[1..] == s;
  }

  /** Every element satisfying the predicate survives the filter. */
  lemma FilterKeeps<T(!new)>(s: seq<T>, p: T -> bool)
    ensures forall i :: 0 <= i < |s| && p(s[i]) ==> s[i] in Filter(s, p)
  {
    FilterSpec(s, p);
    forall i | 0 <= i < |s| && p(s[i])
      ensures s[i] in Filter(s, p)
    {
      assert s[i] in multiset(s);
      assert multiset(Filter(s, p))[s[i]] > 0;
    }
  }

  /** Every element of the filtered sequence comes from the sequence and satisfies the
      predicate. */
  lemma FilterMember<T(!new)>(s: seq<T>, p: T -> bool, x: T)
    requires x in Filter(s, p)
    ensures x in s && p(x)
  {
    FilterSpec(s, p);
    assert multiset(Filter(s, p))[x] > 0;
    assert x in multiset(s);
  }

  /** The filter comes back empty exactly when no element satisfies the predicate. */
  lemma FilterEmptyIff<T(!new)>(s: seq<T>, p: T -> bool)
    ensures Filter(s, p) == [] <==> forall i :: 0 <= i < |s| ==> !p(s[i])
  {
    FilterKeeps(s, p);
    if Filter(s, p) != [] {
      FilterMember(s, p, Filter(s, p)[0]);
    }
  }

  /** Filtering a sequence extended by one element extends the result by that element
      when it satisfies the predicate. */
  lemma {:induction false} FilterSnoc<T(!new)>(s: seq<T>, x: T, p: T -> bool)
    ensures Filter(s + [x], p) == Filter(s, p) + (if p(x) then [x] else [])
    decreases |s|
  {
    var t := s + [x];
    if s == [] {
      assert t == [x] && t[1..] == [];
    } else {
      assert t[0] == s[0] && t[1..] == s[1..] + [x];
      FilterSnoc(s[1..], x, p);
    }
  }

  /** JavaScript's `Array.prototype.findIndex` (with `None` for -1): the position of the
      first element satisfying `p`. */
  function FirstIndex<T>(s: seq<T>, p: T -> bool): (r: Option<nat>)
    ensures r.Some? ==> r.value < |s| && p(s[r.value]) &&
                        forall j :: 0 <= j < r.value ==> !p(s[j])
    ensures r.None? ==> forall j :: 0 <= j < |s| ==> !p(s[j])
    decreases |s|
  {
    if s == [] then None
    else if p(s[0]) then Some(0)
    else
      match FirstIndex(s[1..], p)
      case None => None
      case Some(k) => Some(k + 1)
  }

  /** JavaScript's `slice(0, n)`: the first `n` elements, or all of them when there are fewer. */
  function Take<T>(s: seq<T>, n: nat): (r: seq<T>)
    ensures |r| == if |s| <= n then |s| else n
    ensures r <= s
  {
    if |s| <= n then s else s[..n]
  }

  lemma TakeIsSubsequence<T>(s: seq<T>, n: nat)
    ensures IsSubsequence(Take(s, n), s)
  {
    PrefixIsSubsequence(s, |Take(s, n)|);
    assert s[..|s|] == s;
  }
}
