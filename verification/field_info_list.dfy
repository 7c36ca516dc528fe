/** The ordered, duplicate-allowing list of field records: its construction,
    its projections (`getNames`, `getAsStrings`), its name lookups
    (`containsName`, `get(String)`) and predicate filtering (`filter`). */
module FieldInfoLists {
  import opened Wrappers
  import opened FieldInfos
  import opened Subsequences

  /** The exceptions the list's operations can raise. */
  datatype Error =
    /** `IllegalArgumentException("List is immutable")`, thrown by every
        overridden mutator of the shared empty list. */
    | Immutable
    /** `IllegalArgumentException`, thrown by the size-hint constructor for a
        negative capacity. */
    | IllegalCapacity(capacity: int)
    /** `IndexOutOfBoundsException` for an index outside the list. */
    | IndexOutOfBounds(index: int, size: nat)

  /** A field list. `Mutable` is an ordinary list; `EmptyList` is the shared
      `EMPTY_LIST` singleton, which holds no records and whose mutators fail.
      Being a distinct variant without contents, it is empty by construction. */
  datatype FieldInfoList = Mutable(items: seq<FieldInfo>) | EmptyList {

    /** The records in list order. */
    function Elements(): seq<FieldInfo>
    {
      match this
      case Mutable(items) => items
      case EmptyList => []
    }

    function Size(): nat
    {
      |Elements()|
    }
  }

  // ---------------------------------------------------------------------------
  // Construction

  /** `new FieldInfoList()`: a new mutable list with no records. */
  function New(): (r: FieldInfoList)
    ensures r.Mutable? && r.Size() == 0
  {
    Mutable([])
  }

  /** `new FieldInfoList(sizeHint)`. The capacity only affects performance,
      so a non-negative hint gives the same list as `New()`; a negative one
      is rejected by the underlying array list. */
  function WithSizeHint(sizeHint: int): (r: Result<FieldInfoList, Error>)
    ensures r.Failure? <==> sizeHint < 0
    ensures r.Failure? ==> r.error == IllegalCapacity(sizeHint)
    ensures r.Success? ==> r.value.Mutable? && r.value.Size() == 0
  {
    if sizeHint < 0 then Failure(IllegalCapacity(sizeHint)) else Success(New())
  }

  /** `new FieldInfoList(collection)`: a mutable list holding the given
      records in the given order, duplicates included. */
  function FromCollection(records: seq<FieldInfo>): (r: FieldInfoList)
    ensures r.Mutable?
    ensures r.Size() == |records|
    ensures forall i :: 0 <= i < |records| ==> r.Elements()[i] == records[i]
  {
    Mutable(records)
  }

  // ---------------------------------------------------------------------------
  // Projections

  /** `getNames()`: the name of every record, in list order. */
  method GetNames(l: FieldInfoList) returns (names: seq<string>)
    ensures |names| == l.Size()
    ensures forall i :: 0 <= i < |names| ==> names[i] == l.Elements()[i].name
  {
    var s := l.Elements();
    if |s| == 0 {
      return [];
    }
    names := [];
    for i := 0 to |s|
      invariant |names| == i
      invariant forall j :: 0 <= j < i ==> names[j] == s[j].name
    {
      names := names + [s[i].name];
    }
  }

  /** `getAsStrings()`: the display string of every record, in list order. */
  method GetAsStrings(l: FieldInfoList) returns (strings: seq<string>)
    ensures |strings| == l.Size()
    ensures forall i :: 0 <= i < |strings| ==> strings[i] == l.Elements()[i].display
  {
    var s := l.Elements();
    if |s| == 0 {
      return [];
    }
    strings := [];
    for i := 0 to |s|
      invariant |strings| == i
      invariant forall j :: 0 <= j < i ==> strings[j] == s[j].display
    {
      strings := strings + [s[i].display];
    }
  }

  // ---------------------------------------------------------------------------
  // Lookup by name

  /** The test `fi.getName().equals(fieldName)`: exact, case-sensitive. */
  function NameIs(fieldName: string): FieldInfo -> bool
  {
    (fi: FieldInfo) => fi.name == fieldName
  }

  /** The smallest index whose record satisfies `p`, or `None` if there is none. */
  function FirstIndexWhere(s: seq<FieldInfo>, p: FieldInfo -> bool): (r: Option<nat>)
    ensures r.Some? ==> r.value < |s| && p(s[r.value])
    ensures r.Some? ==> forall j :: 0 <= j < r.value ==> !p(s[j])
    ensures r.None? <==> forall j :: 0 <= j < |s| ==> !p(s[j])
  {
    if s == [] then None
    else if p(s[0]) then Some(0)
    else match FirstIndexWhere(s[1..], p)
      case None => None
      case Some(i) => Some(i + 1)
  }

  /** `containsName(fieldName)`: whether some record has exactly that name. */
  method ContainsName(l: FieldInfoList, fieldName: string) returns (found: bool)
    ensures found <==> exists i :: 0 <= i < l.Size() && l.Elements()[i].name == fieldName
  {
    var s := l.Elements();
    for i := 0 to |s|
      invariant forall j :: 0 <= j < i ==> s[j].name != fieldName
    {
      if s[i].name == fieldName {
        return true;
      }
    }
    return false;
  }

  /** `get(fieldName)`: the first record with exactly that name, or `None`
      (Java's `null`) when there is none. Later records with the same name
      are never returned. */
  method Get(l: FieldInfoList, fieldName: string) returns (r: Option<FieldInfo>)
    ensures r.None? <==> forall i :: 0 <= i < l.Size() ==> l.Elements()[i].name != fieldName
    ensures r.Some? ==> r.value.name == fieldName
    ensures r.Some? ==> exists i :: 0 <= i < l.Size() && l.Elements()[i] == r.value
                                    && forall j :: 0 <= j < i ==> l.Elements()[j].name != fieldName
    ensures r.Some? <==> FirstIndexWhere(l.Elements(), NameIs(fieldName)).Some?
    ensures r.Some? ==> r.value == l.Elements()[FirstIndexWhere(l.Elements(), NameIs(fieldName)).value]
  {
    var s := l.Elements();
    for i := 0 to |s|
      invariant forall j :: 0 <= j < i ==> s[j].name != fieldName
    {
      if s[i].name == fieldName {
        return Some(s[i]);
      }
    }
    return None;
  }

  // ---------------------------------------------------------------------------
  // Filtering

  /** The records of `s` that `accept` lets through, in their original order.
      What the result holds is stated by the lemmas below: it is an
      order-preserving subsequence of `s` (FilterIsSubsequence) holding
      every accepted record as often as `s` does and nothing else
      (FilterMultiplicity); FilterUnique shows these two determine it. */
  function Filter(s: seq<FieldInfo>, accept: FieldInfo -> bool): (r: seq<FieldInfo>)
    ensures |r| <= |s|
  {
    if s == [] then []
    else if accept(s[0]) then [s[0]] + Filter(s[1..], accept)
    else Filter(s[1..], accept)
  }

  /** The filtered records keep their relative order. */
  lemma {:induction false} FilterIsSubsequence(s: seq<FieldInfo>, accept: FieldInfo -> bool)
    ensures IsSubsequence(Filter(s, accept), s)
    decreases |s|
  {
    if s != [] {
      FilterIsSubsequence(s[1..], accept);
      var r := Filter(s, accept);
      if accept(s[0]) {
        assert r[0] == s[0] && r[1..] == Filter(s[1..], accept);
      }
    }
  }

  /** Each accepted record occurs in the result exactly as often as in the
      source; a rejected one does not occur at all. */
  lemma {:induction false} FilterMultiplicity(s: seq<FieldInfo>, accept: FieldInfo -> bool, x: FieldInfo)
    ensures multiset(Filter(s, accept))[x] == if accept(x) then multiset(s)[x] else 0
    decreases |s|
  {
    if s != [] {
      FilterMultiplicity(s[1..], accept, x);
      assert s == [s[0]] + s[1..];
      assert multiset(s) == multiset{s[0]} + multiset(s[1..]);
    }
  }

  /** A record is in the result exactly when it is in the source and accepted. */
  lemma {:induction false} FilterMembers(s: seq<FieldInfo>, accept: FieldInfo -> bool, x: FieldInfo)
    ensures x in Filter(s, accept) <==> x in s && accept(x)
  {
    FilterMultiplicity(s, accept, x);
  }

  /** The subsequence and multiplicity properties characterise the filter:
      any order-preserving subsequence of `s` holding each accepted record as
      often as `s` does, and no rejected record, is the filter's result. */
  lemma {:induction false} FilterUnique(s: seq<FieldInfo>, accept: FieldInfo -> bool, r: seq<FieldInfo>)
    requires IsSubsequence(r, s)
    requires forall x :: multiset(r)[x] == if accept(x) then multiset(s)[x] else 0
    ensures r == Filter(s, accept)
    decreases |s|
  {
    if s == [] {
      assert r == [];
    } else {
      var h, t := s[0], s[1..];
      assert s == [h] + t;
      assert multiset(s)[h] == multiset(t)[h] + 1;
      if accept(h) {
        assert multiset(r)[h] == multiset(s)[h] > 0;
        assert r != [];
        if !(r[0] == h && IsSubsequence(r[1..], t)) {
          SubsequenceBounds(r, t);
          assert false;
        }
        var r' := r[1..];
        assert r == [h] + r';
        forall x
          ensures multiset(r')[x] == if accept(x) then multiset(t)[x] else 0
        {
          assert multiset(r)[x] == multiset{h}[x] + multiset(r')[x];
          assert multiset(s)[x] == multiset{h}[x] + multiset(t)[x];
        }
        FilterUnique(t, accept, r');
      } else {
        assert h !in r;
        assert r != [] ==> r[0] != h;
        assert IsSubsequence(r, t);
        forall x
          ensures multiset(r)[x] == if accept(x) then multiset(t)[x] else 0
        {
          assert multiset(s)[x] == multiset{h}[x] + multiset(t)[x];
        }
        FilterUnique(t, accept, r);
      }
    }
  }

  /** One step of filtering: the head is kept exactly when it is accepted. */
  lemma FilterCons(x: FieldInfo, t: seq<FieldInfo>, accept: FieldInfo -> bool)
    ensures Filter([x] + t, accept) == if accept(x) then [x] + Filter(t, accept) else Filter(t, accept)
  {
  }

  /** Filtering a concatenation filters each part. */
  lemma {:induction false} FilterAppend(a: seq<FieldInfo>, b: seq<FieldInfo>, accept: FieldInfo -> bool)
    ensures Filter(a + b, accept) == Filter(a, accept) + Filter(b, accept)
    decreases |a|
  {
    if a == [] {
      assert a + b == b;
    } else {
      FilterAppend(a[1..], b, accept);
      assert a == [a[0]] + a[1..];
      assert a + b == [a[0]] + (a[1..] + b);
      FilterCons(a[0], a[1..] + b, accept);
      FilterCons(a[0], a[1..], accept);
    }
  }

  /** `filter(filter)`: a new mutable list of the records `accept` lets
      through, in their original order; the source list is a value and is
      not changed. Filtering the shared empty list gives a new mutable list. */
  method FilterList(l: FieldInfoList, accept: FieldInfo -> bool) returns (r: FieldInfoList)
    ensures r.Mutable?
    ensures r.Elements() == Filter(l.Elements(), accept)
  {
    var s := l.Elements();
    var kept: seq<FieldInfo> := [];
    for i := 0 to |s|
      invariant kept == Filter(s[..i], accept)
    {
      assert s[..i + 1] == s[..i] + [s[i]];
      FilterAppend(s[..i], [s[i]], accept);
      if accept(s[i]) {
        kept := kept + [s[i]];
      }
    }
    assert s[..|s|] == s;
    r := Mutable(kept);
  }
}
