/** The list idioms of the models: first match, removal, filtering. */
module Seqs {
  import opened Wrappers

  /** Index of the first element that satisfies `p`, or the length. */
  function IndexOf<T>(s: seq<T>, p: T -> bool): (i: nat)
    ensures i <= |s|
    ensures i < |s| ==> p(s[i])
    ensures forall j | 0 <= j < i :: !p(s[j])
  {
    if s == [] || p(s[0]) then 0 else
      assert forall j | 0 < j < |s| :: s[j] == s[1..][j - 1];
      1 + IndexOf(s[1..], p)
  }

  function Without<T>(s: seq<T>, i: nat): (r: seq<T>)
    requires i < |s|
    ensures |r| == |s| - 1
    ensures forall j | 0 <= j < |r| :: r[j] == s[if j < i then j else j + 1]
  {
    s[..i] + s[i + 1..]
  }

  function Find<T>(s: seq<T>, p: T -> bool): Option<T> {
    var i := IndexOf(s, p);
    if i < |s| then Some(s[i]) else None
  }

  /** The first match goes, or nothing does. */
  function Remove<T>(s: seq<T>, p: T -> bool): seq<T> {
    var i := IndexOf(s, p);
    if i < |s| then Without(s, i) else s
  }

  /** Where a search loop stops. */
  lemma FirstAt<T>(s: seq<T>, p: T -> bool, i: nat)
    requires i <= |s| && (forall j | 0 <= j < i :: !p(s[j])) && (i < |s| ==> p(s[i]))
    ensures IndexOf(s, p) == i
    ensures Find(s, p) == if i < |s| then Some(s[i]) else None
    ensures Remove(s, p) == if i < |s| then Without(s, i) else s
  {
  }

  /** What a loop that appends the elements it keeps leaves behind. */
  function Filter<T>(s: seq<T>, p: T -> bool): seq<T> {
    if s == [] then [] else Filter(s[..|s| - 1], p) + if p(s[|s| - 1]) then [s[|s| - 1]] else []
  }

  lemma {:induction false} FilterHas<T(!new)>(s: seq<T>, p: T -> bool)
    ensures forall x :: x in Filter(s, p) <==> x in s && p(x)
  {
    if s != [] {
      FilterHas(s[..|s| - 1], p);
      assert s == s[..|s| - 1] + [s[|s| - 1]];
    }
  }

  lemma FilterSnoc<T>(s: seq<T>, x: T, p: T -> bool)
    ensures Filter(s + [x], p) == Filter(s, p) + if p(x) then [x] else []
  {
    assert (s + [x])[..|s|] == s;
  }

  lemma {:induction false} FilterSame<T>(s: seq<T>, p: T -> bool, q: T -> bool)
    requires forall i | 0 <= i < |s| :: p(s[i]) == q(s[i])
    ensures Filter(s, p) == Filter(s, q)
  {
    if s != [] {
      FilterSame(s[..|s| - 1], p, q);
    }
  }

  lemma {:induction false} FilterAll<T>(s: seq<T>, p: T -> bool)
    requires forall i | 0 <= i < |s| :: p(s[i])
    ensures Filter(s, p) == s
  {
    if s != [] {
      FilterAll(s[..|s| - 1], p);
      assert s == s[..|s| - 1] + [s[|s| - 1]];
    }
  }

  lemma {:induction false} FilterNone<T>(s: seq<T>, p: T -> bool)
    requires forall i | 0 <= i < |s| :: !p(s[i])
    ensures Filter(s, p) == []
  {
    if s != [] {
      FilterNone(s[..|s| - 1], p);
    }
  }

  lemma {:induction false} FilterDistinct<T(!new)>(s: seq<T>, p: T -> bool)
    requires Distinct(s)
    ensures Distinct(Filter(s, p))
  {
    if s != [] {
      FilterDistinct(s[..|s| - 1], p);
      FilterHas(s[..|s| - 1], p);
      assert s[|s| - 1] !in s[..|s| - 1];
    }
  }

  lemma WithoutKeeps<T>(s: seq<T>, i: nat, x: T)
    requires i < |s|
    ensures x in s && x != s[i] ==> x in Without(s, i)
    ensures x in Without(s, i) ==> x in s
  {
    var r := Without(s, i);
    if x in s && x != s[i] {
      var j :| 0 <= j < |s| && s[j] == x;
      assert r[if j < i then j else j - 1] == x;
    }
  }

  predicate Distinct<T(==)>(s: seq<T>) {
    forall i, j | 0 <= i < j < |s| :: s[i] != s[j]
  }

  lemma DistinctWithout<T>(s: seq<T>, i: nat)
    requires Distinct(s) && i < |s|
    ensures Distinct(Without(s, i)) && s[i] !in Without(s, i)
  {
  }
}
