/** The list mutators the shared empty list overrides. On an ordinary list
    each behaves as the underlying array list does; on `EmptyList` each
    fails with `Immutable` before looking at its arguments, so no index
    error and no partial change can be observed there. */
module ListMutators {
  import opened Wrappers
  import opened FieldInfos
  import opened FieldInfoLists
  import opened FieldInfoListLemmas
  import opened Subsequences

  /** The list after a successful mutation, and the mutator's Java return value. */
  datatype Mutation<+R> = Mutation(list: FieldInfoList, value: R)

  /** The test `o.equals(e)` of `remove(Object)`. */
  function EqualTo(o: FieldInfo): FieldInfo -> bool
  {
    (x: FieldInfo) => x == o
  }

  /** The test `c.contains(e)` of `retainAll`. */
  function In(c: seq<FieldInfo>): FieldInfo -> bool
  {
    (x: FieldInfo) => x in c
  }

  /** `add(e)`: appends `e` and returns `true`. */
  function Add(l: FieldInfoList, e: FieldInfo): (r: Result<Mutation<bool>, Error>)
    ensures r.Failure? <==> l.EmptyList?
    ensures r.Failure? ==> r.error == Immutable
    ensures r.Success? ==> r.value.value && r.value.list.Mutable?
    ensures r.Success? ==> r.value.list.Size() == l.Size() + 1
                           && r.value.list.Elements()[..l.Size()] == l.Elements()
                           && r.value.list.Elements()[l.Size()] == e
  {
    match l
    case EmptyList => Failure(Immutable)
    case Mutable(s) => Success(Mutation(Mutable(s + [e]), true))
  }

  /** `add(index, e)`: inserts `e` before position `index`, which may be
      anywhere from 0 to the size. */
  function AddAt(l: FieldInfoList, index: int, e: FieldInfo): (r: Result<FieldInfoList, Error>)
    ensures r.Failure? && r.error == Immutable <==> l.EmptyList?
    ensures r.Failure? && r.error.IndexOutOfBounds? <==> l.Mutable? && !(0 <= index <= l.Size())
    ensures r.Success? <==> l.Mutable? && 0 <= index <= l.Size()
    ensures r.Success? ==> r.value.Mutable? && r.value.Size() == l.Size() + 1
    ensures r.Success? ==> forall j :: 0 <= j < index ==> r.value.Elements()[j] == l.Elements()[j]
    ensures r.Success? ==> r.value.Elements()[index] == e
    ensures r.Success? ==> forall j :: index <= j < l.Size() ==> r.value.Elements()[j + 1] == l.Elements()[j]
  {
    match l
    case EmptyList => Failure(Immutable)
    case Mutable(s) =>
      if index < 0 || index > |s| then Failure(IndexOutOfBounds(index, |s|))
      else Success(Mutable(s[..index] + [e] + s[index..]))
  }

  /** `remove(o)`: removes the first record equal to `o`, reporting whether
      there was one. */
  function RemoveElement(l: FieldInfoList, o: FieldInfo): (r: Result<Mutation<bool>, Error>)
    ensures r.Failure? <==> l.EmptyList?
    ensures r.Failure? ==> r.error == Immutable
    ensures r.Success? ==> r.value.list.Mutable? && (r.value.value <==> o in l.Elements())
    ensures r.Success? && !r.value.value ==> r.value.list == l
    ensures r.Success? && r.value.value ==>
      exists i :: 0 <= i < l.Size() && l.Elements()[i] == o && o !in l.Elements()[..i]
                  && r.value.list.Elements() == l.Elements()[..i] + l.Elements()[i + 1..]
  {
    match l
    case EmptyList => Failure(Immutable)
    case Mutable(s) =>
      match FirstIndexWhere(s, EqualTo(o))
      case None => Success(Mutation(l, false))
      case Some(i) => Success(Mutation(Mutable(s[..i] + s[i + 1..]), true))
  }

  /** `remove(index)`: removes and returns the record at `index`. */
  function RemoveAt(l: FieldInfoList, index: int): (r: Result<Mutation<FieldInfo>, Error>)
    ensures r.Failure? && r.error == Immutable <==> l.EmptyList?
    ensures r.Failure? && r.error.IndexOutOfBounds? <==> l.Mutable? && !(0 <= index < l.Size())
    ensures r.Success? <==> l.Mutable? && 0 <= index < l.Size()
    ensures r.Success? ==> r.value.value == l.Elements()[index]
    ensures r.Success? ==> r.value.list.Mutable? && r.value.list.Size() + 1 == l.Size()
    ensures r.Success? ==> forall j :: 0 <= j < index ==> r.value.list.Elements()[j] == l.Elements()[j]
    ensures r.Success? ==> forall j :: index < j < l.Size() ==> r.value.list.Elements()[j - 1] == l.Elements()[j]
  {
    match l
    case EmptyList => Failure(Immutable)
    case Mutable(s) =>
      if index < 0 || index >= |s| then Failure(IndexOutOfBounds(index, |s|))
      else Success(Mutation(Mutable(s[..index] + s[index + 1..]), s[index]))
  }

  /** `addAll(c)`: appends every record of `c` in order; returns whether `c`
      was non-empty. */
  function AddAll(l: FieldInfoList, c: seq<FieldInfo>): (r: Result<Mutation<bool>, Error>)
    ensures r.Failure? <==> l.EmptyList?
    ensures r.Failure? ==> r.error == Immutable
    ensures r.Success? ==> (r.value.value <==> c != []) && r.value.list.Mutable?
    ensures r.Success? ==> r.value.list.Size() == l.Size() + |c|
                           && r.value.list.Elements()[..l.Size()] == l.Elements()
                           && r.value.list.Elements()[l.Size()..] == c
  {
    match l
    case EmptyList => Failure(Immutable)
    case Mutable(s) => Success(Mutation(Mutable(s + c), |c| != 0))
  }

  /** `addAll(index, c)`: inserts the records of `c` before position `index`;
      returns whether `c` was non-empty. */
  function AddAllAt(l: FieldInfoList, index: int, c: seq<FieldInfo>): (r: Result<Mutation<bool>, Error>)
    ensures r.Failure? && r.error == Immutable <==> l.EmptyList?
    ensures r.Failure? && r.error.IndexOutOfBounds? <==> l.Mutable? && !(0 <= index <= l.Size())
    ensures r.Success? <==> l.Mutable? && 0 <= index <= l.Size()
    ensures r.Success? ==> (r.value.value <==> c != []) && r.value.list.Mutable?
    ensures r.Success? ==> r.value.list.Size() == l.Size() + |c|
                           && r.value.list.Elements()[..index] == l.Elements()[..index]
                           && r.value.list.Elements()[index..index + |c|] == c
                           && r.value.list.Elements()[index + |c|..] == l.Elements()[index..]
  {
    match l
    case EmptyList => Failure(Immutable)
    case Mutable(s) =>
      if index < 0 || index > |s| then Failure(IndexOutOfBounds(index, |s|))
      else
        var t := s[..index] + c + s[index..];
        assert t[..index] == s[..index];
        assert t[index..index + |c|] == c;
        assert t[index + |c|..] == s[index..];
        Success(Mutation(Mutable(t), |c| != 0))
  }

  /** `removeAll(c)`: drops every record contained in `c`, keeping the order
      of the rest; returns whether anything was dropped. */
  function RemoveAll(l: FieldInfoList, c: seq<FieldInfo>): (r: Result<Mutation<bool>, Error>)
    ensures r.Failure? <==> l.EmptyList?
    ensures r.Failure? ==> r.error == Immutable
    ensures r.Success? ==> r.value.list.Mutable? && IsSubsequence(r.value.list.Elements(), l.Elements())
    ensures r.Success? ==> forall x :: multiset(r.value.list.Elements())[x] == if x in c then 0 else multiset(l.Elements())[x]
    ensures r.Success? ==> (r.value.value <==> exists i :: 0 <= i < l.Size() && l.Elements()[i] in c)
  {
    match l
    case EmptyList => Failure(Immutable)
    case Mutable(s) =>
      var kept := Filter(s, Not(In(c)));
      FilterKeepsAll(s, Not(In(c)));
      FilterIsSubsequence(s, Not(In(c)));
      assert forall x :: multiset(kept)[x] == if Not(In(c))(x) then multiset(s)[x] else 0 by {
        forall x { FilterMultiplicity(s, Not(In(c)), x); }
      }
      Success(Mutation(Mutable(kept), |kept| != |s|))
  }

  /** `retainAll(c)`: keeps only the records contained in `c`, in their
      order; returns whether anything was dropped. */
  function RetainAll(l: FieldInfoList, c: seq<FieldInfo>): (r: Result<Mutation<bool>, Error>)
    ensures r.Failure? <==> l.EmptyList?
    ensures r.Failure? ==> r.error == Immutable
    ensures r.Success? ==> r.value.list.Mutable? && IsSubsequence(r.value.list.Elements(), l.Elements())
    ensures r.Success? ==> forall x :: multiset(r.value.list.Elements())[x] == if x in c then multiset(l.Elements())[x] else 0
    ensures r.Success? ==> (r.value.value <==> exists i :: 0 <= i < l.Size() && l.Elements()[i] !in c)
  {
    match l
    case EmptyList => Failure(Immutable)
    case Mutable(s) =>
      var kept := Filter(s, In(c));
      FilterKeepsAll(s, In(c));
      FilterIsSubsequence(s, In(c));
      assert forall x :: multiset(kept)[x] == if In(c)(x) then multiset(s)[x] else 0 by {
        forall x { FilterMultiplicity(s, In(c), x); }
      }
      Success(Mutation(Mutable(kept), |kept| != |s|))
  }

  /** `clear()`: removes every record. */
  function Clear(l: FieldInfoList): (r: Result<FieldInfoList, Error>)
    ensures r.Failure? <==> l.EmptyList?
    ensures r.Failure? ==> r.error == Immutable
    ensures r.Success? ==> r.value.Mutable? && r.value.Size() == 0
  {
    match l
    case EmptyList => Failure(Immutable)
    case Mutable(_) => Success(Mutable([]))
  }

  /** `set(index, e)`: replaces the record at `index` and returns the old one. */
  function Set(l: FieldInfoList, index: int, e: FieldInfo): (r: Result<Mutation<FieldInfo>, Error>)
    ensures r.Failure? && r.error == Immutable <==> l.EmptyList?
    ensures r.Failure? && r.error.IndexOutOfBounds? <==> l.Mutable? && !(0 <= index < l.Size())
    ensures r.Success? <==> l.Mutable? && 0 <= index < l.Size()
    ensures r.Success? ==> r.value.value == l.Elements()[index]
    ensures r.Success? ==> r.value.list.Mutable? && r.value.list.Size() == l.Size()
    ensures r.Success? ==> r.value.list.Elements()[index] == e
    ensures r.Success? ==> forall j :: 0 <= j < l.Size() && j != index ==> r.value.list.Elements()[j] == l.Elements()[j]
  {
    match l
    case EmptyList => Failure(Immutable)
    case Mutable(s) =>
      if index < 0 || index >= |s| then Failure(IndexOutOfBounds(index, |s|))
      else Success(Mutation(Mutable(s[index := e]), s[index]))
  }

  // ---------------------------------------------------------------------------
  // Properties

  /** Every overridden mutator of the shared empty list fails with
      `Immutable`, whatever its arguments, and the list stays empty. */
  lemma EmptyListRejectsEveryMutator(e: FieldInfo, index: int, c: seq<FieldInfo>)
    ensures EmptyList.Size() == 0
    ensures Add(EmptyList, e) == Failure(Immutable)
    ensures AddAt(EmptyList, index, e) == Failure(Immutable)
    ensures RemoveElement(EmptyList, e) == Failure(Immutable)
    ensures RemoveAt(EmptyList, index) == Failure(Immutable)
    ensures AddAll(EmptyList, c) == Failure(Immutable)
    ensures AddAllAt(EmptyList, index, c) == Failure(Immutable)
    ensures RemoveAll(EmptyList, c) == Failure(Immutable)
    ensures RetainAll(EmptyList, c) == Failure(Immutable)
    ensures Clear(EmptyList) == Failure(Immutable)
    ensures Set(EmptyList, index, e) == Failure(Immutable)
  {
  }

  /** Removing at the position just inserted at gives back the original list
      and the inserted record. */
  lemma AddAtThenRemoveAt(l: FieldInfoList, index: int, e: FieldInfo)
    requires l.Mutable? && 0 <= index <= l.Size()
    ensures AddAt(l, index, e).Success?
    ensures RemoveAt(AddAt(l, index, e).value, index) == Success(Mutation(l, e))
  {
    var s := l.items;
    var t := s[..index] + [e] + s[index..];
    assert t[..index] + t[index + 1..] == s;
  }

  /** Writing back the value `set` returned restores the original list. */
  lemma SetThenRestore(l: FieldInfoList, index: int, e: FieldInfo)
    requires l.Mutable? && 0 <= index < l.Size()
    ensures Set(l, index, e).Success?
    ensures Set(Set(l, index, e).value.list, index, l.Elements()[index]) == Success(Mutation(l, e))
  {
    assert l.items[index := e][index := l.items[index]] == l.items;
  }

  /** Adding a record the list lacks and then removing it gives back the
      original list. */
  lemma AddThenRemoveElement(l: FieldInfoList, e: FieldInfo)
    requires l.Mutable? && e !in l.Elements()
    ensures Add(l, e).Success?
    ensures RemoveElement(Add(l, e).value.list, e) == Success(Mutation(l, true))
  {
    var s := l.items;
    var t := s + [e];
    assert t[|s|] == e;
    assert forall j :: 0 <= j < |s| ==> !EqualTo(e)(t[j]);
    assert t[..|s|] + t[|s| + 1..] == s;
  }

  /** `retainAll(c)` and `removeAll(c)` split the list between them: the
      records they keep add up to the original size. */
  lemma RetainAllRemoveAllPartition(l: FieldInfoList, c: seq<FieldInfo>)
    requires l.Mutable?
    ensures RetainAll(l, c).Success? && RemoveAll(l, c).Success?
    ensures RetainAll(l, c).value.list.Size() + RemoveAll(l, c).value.list.Size() == l.Size()
  {
    FilterPartition(l.items, In(c));
  }

  /** Appending a record never changes which record `get(n)` returns when a
      record named `n` is already present. */
  lemma AddKeepsFirstMatch(l: FieldInfoList, e: FieldInfo, fieldName: string)
    requires l.Mutable? && FirstIndexWhere(l.Elements(), NameIs(fieldName)).Some?
    ensures Add(l, e).Success?
    ensures FirstIndexWhere(Add(l, e).value.list.Elements(), NameIs(fieldName))
         == FirstIndexWhere(l.Elements(), NameIs(fieldName))
  {
  }
}
