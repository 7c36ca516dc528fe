/** Properties relating the list's lookups and its filter. */
module FieldInfoListLemmas {
  import opened Wrappers
  import opened FieldInfos
  import opened FieldInfoLists

  /** A filter accepting what both `p` and `q` accept. */
  function Both(p: FieldInfo -> bool, q: FieldInfo -> bool): FieldInfo -> bool
  {
    (x: FieldInfo) => p(x) && q(x)
  }

  /** A filter accepting what `p` rejects. */
  function Not(p: FieldInfo -> bool): FieldInfo -> bool
  {
    (x: FieldInfo) => !p(x)
  }

  /** Filters that agree on every record of `s` select the same records. */
  lemma {:induction false} FilterCongruence(s: seq<FieldInfo>, p: FieldInfo -> bool, q: FieldInfo -> bool)
    requires forall i :: 0 <= i < |s| ==> p(s[i]) == q(s[i])
    ensures Filter(s, p) == Filter(s, q)
    decreases |s|
  {
    if s != [] {
      assert p(s[0]) == q(s[0]);
      FilterCongruence(s[1..], p, q);
    }
  }

  /** The filter keeps the whole list exactly when it accepts every record;
      with an always-true filter the result equals the source. */
  lemma {:induction false} FilterKeepsAll(s: seq<FieldInfo>, accept: FieldInfo -> bool)
    ensures Filter(s, accept) == s <==> forall i :: 0 <= i < |s| ==> accept(s[i])
    ensures |Filter(s, accept)| == |s| <==> forall i :: 0 <= i < |s| ==> accept(s[i])
    decreases |s|
  {
    if s != [] {
      FilterKeepsAll(s[1..], accept);
      assert forall i :: 1 <= i < |s| ==> s[i] == s[1..][i - 1];
      if accept(s[0]) {
        assert Filter(s, accept) == [s[0]] + Filter(s[1..], accept);
        if forall i :: 0 <= i < |s| ==> accept(s[i]) {
          assert forall i :: 0 <= i < |s[1..]| ==> accept(s[1..][i]) by {
            forall i | 0 <= i < |s[1..]| ensures accept(s[1..][i]) {
              assert s[1..][i] == s[i + 1];
            }
          }
          assert Filter(s[1..], accept) == s[1..];
          assert s == [s[0]] + s[1..];
        }
      } else {
        assert |Filter(s[1..], accept)| <= |s[1..]| < |s|;
      }
    }
  }

  /** The filter keeps nothing exactly when it rejects every record; so an
      always-false filter, or any filter over the empty list, gives `[]`. */
  lemma {:induction false} FilterKeepsNone(s: seq<FieldInfo>, accept: FieldInfo -> bool)
    ensures Filter(s, accept) == [] <==> forall i :: 0 <= i < |s| ==> !accept(s[i])
  {
    forall i | 0 <= i < |s|
      ensures accept(s[i]) <==> s[i] in Filter(s, accept)
    {
      FilterMembers(s, accept, s[i]);
    }
    if Filter(s, accept) != [] {
      var x := Filter(s, accept)[0];
      FilterMembers(s, accept, x);
      var i :| 0 <= i < |s| && s[i] == x;
    }
  }

  /** Filtering twice with the same filter changes nothing the second time. */
  lemma {:induction false} FilterIdempotent(s: seq<FieldInfo>, accept: FieldInfo -> bool)
    ensures Filter(Filter(s, accept), accept) == Filter(s, accept)
  {
    var r := Filter(s, accept);
    forall i | 0 <= i < |r|
      ensures accept(r[i])
    {
      FilterMembers(s, accept, r[i]);
    }
    FilterKeepsAll(r, accept);
  }

  /** Filtering by `p` and then by `q` is filtering by both at once. */
  lemma {:induction false} FilterCompose(s: seq<FieldInfo>, p: FieldInfo -> bool, q: FieldInfo -> bool)
    ensures Filter(Filter(s, p), q) == Filter(s, Both(p, q))
    decreases |s|
  {
    if s != [] {
      FilterCompose(s[1..], p, q);
      if p(s[0]) {
        FilterCons(s[0], Filter(s[1..], p), q);
      }
    }
  }

  /** A filter and its negation split the list: their results together are
      exactly as long as the source. */
  lemma {:induction false} FilterPartition(s: seq<FieldInfo>, accept: FieldInfo -> bool)
    ensures |Filter(s, accept)| + |Filter(s, Not(accept))| == |s|
    decreases |s|
  {
    if s != [] {
      FilterPartition(s[1..], accept);
    }
  }

  /** The first-match search finds nothing exactly when the filter by the same
      test keeps nothing, and otherwise finds the filter's first record. In
      particular `get(n)` returns the head of `filter(fi -> fi.name == n)`. */
  lemma {:induction false} FirstMatchIsHeadOfFilter(s: seq<FieldInfo>, p: FieldInfo -> bool)
    ensures FirstIndexWhere(s, p).None? <==> Filter(s, p) == []
    ensures FirstIndexWhere(s, p).Some? ==> Filter(s, p)[0] == s[FirstIndexWhere(s, p).value]
    decreases |s|
  {
    if s != [] && !p(s[0]) {
      FirstMatchIsHeadOfFilter(s[1..], p);
    }
  }

  /** Searching a concatenation finds the first part's match if it has one,
      and otherwise the second part's match shifted past the first part.
      So appending records never changes which record `get` returns for a
      name that is already present. */
  lemma {:induction false} AppendKeepsFirstMatch(s: seq<FieldInfo>, t: seq<FieldInfo>, p: FieldInfo -> bool)
    ensures FirstIndexWhere(s + t, p) ==
      match FirstIndexWhere(s, p)
      case Some(i) => Some(i)
      case None =>
        match FirstIndexWhere(t, p)
        case Some(j) => Some(|s| + j)
        case None => None
    decreases |s|
  {
    if s == [] {
      assert s + t == t;
    } else if !p(s[0]) {
      var st := s + t;
      assert st[0] == s[0];
      assert st[1..] == s[1..] + t;
      AppendKeepsFirstMatch(s[1..], t, p);
    } else {
      assert (s + t)[0] == s[0];
    }
  }
}
