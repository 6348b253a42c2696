/** `stream.filter(keep).collect(Collectors.toList())` over a finite, ordered
    stream, as a function on sequences. */
module Streams {

  /** The elements of `s` that `keep` accepts, in the order of `s`, each as
      many times as it occurs there. */
  function Filter<T(!new)>(keep: T -> bool, s: seq<T>): (r: seq<T>)
    ensures |r| <= |s|
    ensures forall x :: x in r <==> x in s && keep(x)
    decreases |s|
  {
    if |s| == 0 then []
    else (if keep(s[0]) then [s[0]] else []) + Filter(keep, s[1..])
  }

  /** Each element is kept as many times as it occurs, or dropped entirely. */
  lemma {:induction false} FilterMultiplicity<T(!new)>(keep: T -> bool, s: seq<T>)
    ensures forall x :: multiset(Filter(keep, s))[x] == if keep(x) then multiset(s)[x] else 0
    decreases |s|
  {
    if |s| > 0 {
      FilterMultiplicity(keep, s[1..]);
      assert s == [s[0]] + s[1..];
    }
  }

  /** Filtering keeps the order: filtering a concatenation concatenates the
      filtered parts. */
  lemma {:induction false} FilterConcat<T(!new)>(keep: T -> bool, a: seq<T>, b: seq<T>)
    ensures Filter(keep, a + b) == Filter(keep, a) + Filter(keep, b)
    decreases |a|
  {
    if |a| == 0 {
      assert a + b == b;
    } else {
      var head := if keep(a[0]) then [a[0]] else [];
      assert (a + b)[0] == a[0];
      assert (a + b)[1..] == a[1..] + b;
      FilterConcat(keep, a[1..], b);
      assert Filter(keep, a + b) == head + Filter(keep, a[1..] + b);
      assert Filter(keep, a) == head + Filter(keep, a[1..]);
    }
  }

  /** Nothing is kept exactly when `keep` accepts no element. */
  lemma {:induction false} FilterEmpty<T(!new)>(keep: T -> bool, s: seq<T>)
    ensures Filter(keep, s) == [] <==> forall k :: 0 <= k < |s| ==> !keep(s[k])
    decreases |s|
  {
    if |s| > 0 && !keep(s[0]) {
      FilterEmpty(keep, s[1..]);
      if forall k :: 0 <= k < |s[1..]| ==> !keep(s[1..][k]) {
        forall k | 0 <= k < |s| ensures !keep(s[k]) {
          if k > 0 { assert s[k] == s[1..][k - 1]; }
        }
      }
    }
  }

  /** The first element kept is the first element of `s` that `keep`
      accepts. */
  lemma {:induction false} FilterFirst<T(!new)>(keep: T -> bool, s: seq<T>)
    ensures Filter(keep, s) != [] ==>
              exists i :: 0 <= i < |s| && s[i] == Filter(keep, s)[0] && keep(s[i])
                          && forall j :: 0 <= j < i ==> !keep(s[j])
    decreases |s|
  {
    if |s| > 0 && !keep(s[0]) && Filter(keep, s) != [] {
      FilterFirst(keep, s[1..]);
      var i :| 0 <= i < |s[1..]| && s[1..][i] == Filter(keep, s[1..])[0] && keep(s[1..][i])
               && forall j :: 0 <= j < i ==> !keep(s[1..][j]);
      assert s[i + 1] == Filter(keep, s)[0];
      forall j | 0 <= j < i + 1 ensures !keep(s[j]) {
        if j > 0 { assert s[j] == s[1..][j - 1]; }
      }
    }
  }

  /** An element appended to the input lands at the end of the result
      exactly when it is kept. */
  lemma FilterSnoc<T(!new)>(keep: T -> bool, s: seq<T>, x: T)
    ensures Filter(keep, s + [x]) == Filter(keep, s) + (if keep(x) then [x] else [])
  {
    FilterConcat(keep, s, [x]);
    assert [x][1..] == [];
  }
}
