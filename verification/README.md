# FieldInfoList, modelled in Dafny

`FieldInfoList` is the scanner's ordered, duplicate-allowing list of field
metadata records. It extends `ArrayList<FieldInfo>` with two projections
(`getNames`, `getAsStrings`), two name lookups (`containsName` and the
first-match `get(String)`), predicate filtering (`filter` with a
`FieldInfoFilter`), and a shared `EMPTY_LIST` singleton whose overridden
mutators all throw `IllegalArgumentException("List is immutable")`.

The model works on immutable values:

- `FieldInfos.FieldInfo` is the record, reduced to the two attributes the
  list reads: `name` (`getName()`) and `display` (`toString()`, left
  uninterpreted).
- `FieldInfoLists.FieldInfoList` is `Mutable(items)` for an ordinary list and
  `EmptyList` for the `EMPTY_LIST` singleton. The singleton has no contents
  field, so it is empty by construction.
- Java exceptions become `Failure` values of `Wrappers.Result`, with
  `FieldInfoLists.Error` naming the exception: `Immutable`,
  `IllegalCapacity`, `IndexOutOfBounds`. A Java `null` result becomes `None`.
- The queries are methods whose loops follow the Java for-each loops,
  early returns included. `Filter` and `FirstIndexWhere` are recursive
  reference functions. Lemmas state what the filter result is and how it
  relates to the first-match lookup.
- The ten mutators that `EMPTY_LIST` overrides are functions in
  `ListMutators`. Each returns the new list and the Java return value. On
  `EmptyList` each fails with `Immutable` before it looks at its arguments,
  so a bad index still gives `Immutable` there. On an ordinary list each
  behaves as `java.util.ArrayList` documents. That class is not part of this
  model, so its behaviour is taken from its documented contract.

`FieldInfoList(int)` passes its hint to `ArrayList(int)`, which throws
`IllegalArgumentException` for a negative capacity, so `WithSizeHint`
returns `IllegalCapacity` for a negative hint.

Files: `wrappers.dfy`, `field_info.dfy`, `subsequences.dfy` (the
order-preserving subsequence relation), `field_info_list.dfy`,
`field_info_list_lemmas.dfy`, `mutators.dfy`.

## Model

| member | source | states |
|---|---|---|
| FieldInfoLists.New | src/main/java/io/github/fastclasspathscanner/FieldInfoList.java:39-41 | the no-argument constructor gives a mutable list of size 0 |
| FieldInfoLists.WithSizeHint | src/main/java/io/github/fastclasspathscanner/FieldInfoList.java:43-45 | the size-hint constructor fails with IllegalCapacity exactly when the hint is negative; otherwise it gives an empty mutable list |
| FieldInfoLists.FromCollection | src/main/java/io/github/fastclasspathscanner/FieldInfoList.java:47-49 | the collection constructor gives a mutable list of the same length with the same record at every index, duplicates kept |
| FieldInfoLists.GetNames | src/main/java/io/github/fastclasspathscanner/FieldInfoList.java:106-116 | the result is as long as the list and element i is record i's name; an empty list gives the empty sequence |
| FieldInfoLists.GetAsStrings | src/main/java/io/github/fastclasspathscanner/FieldInfoList.java:122-132 | the result is as long as the list and element i is record i's display string; an empty list gives the empty sequence |
| FieldInfoLists.ContainsName | src/main/java/io/github/fastclasspathscanner/FieldInfoList.java:137-144 | true iff some index holds a record whose name equals the argument exactly |
| FieldInfoLists.FirstIndexWhere | src/main/java/io/github/fastclasspathscanner/FieldInfoList.java:148-153 | the first-match search: a found index is in range, satisfies the test, and no earlier index does; None iff no index satisfies it |
| FieldInfoLists.Get | src/main/java/io/github/fastclasspathscanner/FieldInfoList.java:147-154 | None (null) iff no record has the name; otherwise a record with that name that sits at an index with no earlier match, i.e. the record at the first-match index |
| FieldInfoLists.Filter | src/main/java/io/github/fastclasspathscanner/FieldInfoList.java:183-191 | the filtered sequence is never longer than the source |
| FieldInfoLists.FilterIsSubsequence | src/main/java/io/github/fastclasspathscanner/FieldInfoList.java:185-189 | the filtered records keep their original relative order (an order-preserving subsequence) |
| FieldInfoLists.FilterMultiplicity | src/main/java/io/github/fastclasspathscanner/FieldInfoList.java:185-189 | each accepted record occurs in the result as often as in the source; each rejected record does not occur |
| FieldInfoLists.FilterUnique | src/main/java/io/github/fastclasspathscanner/FieldInfoList.java:183-191 | any order-preserving subsequence of the source that holds each accepted record as often as the source and no rejected record equals the filter result, so the subsequence and multiplicity lemmas determine filter completely |
| FieldInfoLists.FilterMembers | src/main/java/io/github/fastclasspathscanner/FieldInfoList.java:176-182 | a record is in the result iff it is in the source and the filter accepts it |
| FieldInfoLists.FilterCons | src/main/java/io/github/fastclasspathscanner/FieldInfoList.java:186-188 | one loop step: the head record is kept iff the filter accepts it |
| FieldInfoLists.FilterAppend | src/main/java/io/github/fastclasspathscanner/FieldInfoList.java:185-189 | filtering a concatenation is the concatenation of the filtered parts, which is what lets the loop accumulate its result |
| FieldInfoLists.FilterList | src/main/java/io/github/fastclasspathscanner/FieldInfoList.java:183-191 | filter returns a new mutable list, even for the shared empty list, holding the filtered records; the source value is unchanged |
| FieldInfoListLemmas.FilterCongruence | src/main/java/io/github/fastclasspathscanner/FieldInfoList.java:162-173 | two filters that give the same answer on every record select the same records |
| FieldInfoListLemmas.FilterKeepsAll | src/main/java/io/github/fastclasspathscanner/FieldInfoList.java:183-191 | the result equals the source, and equivalently has the source's length, iff the filter accepts every record; so an always-true filter returns the source |
| FieldInfoListLemmas.FilterKeepsNone | src/main/java/io/github/fastclasspathscanner/FieldInfoList.java:183-191 | the result is empty iff the filter rejects every record; so an always-false filter, or filtering an empty list, gives an empty list |
| FieldInfoListLemmas.FilterIdempotent | src/main/java/io/github/fastclasspathscanner/FieldInfoList.java:183-191 | filtering a filtered list again with the same filter changes nothing |
| FieldInfoListLemmas.FilterCompose | src/main/java/io/github/fastclasspathscanner/FieldInfoList.java:183-191 | filtering by p and then by q equals filtering once by "p and q" |
| FieldInfoListLemmas.FilterPartition | src/main/java/io/github/fastclasspathscanner/FieldInfoList.java:183-191 | a filter and its negation keep between them exactly as many records as the source holds |
| FieldInfoListLemmas.FirstMatchIsHeadOfFilter | src/main/java/io/github/fastclasspathscanner/FieldInfoList.java:147-154 | the first-match search fails iff filtering by the same test gives nothing; otherwise it finds the filter's first record |
| FieldInfoListLemmas.AppendKeepsFirstMatch | src/main/java/io/github/fastclasspathscanner/FieldInfoList.java:147-154 | on a concatenation, the first match is the first part's match if it has one, else the second part's match shifted by the first part's length |
| ListMutators.Add | src/main/java/io/github/fastclasspathscanner/FieldInfoList.java:52-55 | fails with Immutable iff the list is the empty singleton; otherwise appends the record and returns true |
| ListMutators.AddAt | src/main/java/io/github/fastclasspathscanner/FieldInfoList.java:57-60 | succeeds iff an ordinary list and 0 <= index <= size; Immutable iff the empty singleton, whatever the index; IndexOutOfBounds iff an ordinary list and the index is outside 0..size; on success inserts, shifting later records up by one |
| ListMutators.RemoveElement | src/main/java/io/github/fastclasspathscanner/FieldInfoList.java:62-65 | Immutable iff the empty singleton; otherwise returns whether the record was present, removes only its first occurrence, and leaves the list unchanged when it was absent |
| ListMutators.RemoveAt | src/main/java/io/github/fastclasspathscanner/FieldInfoList.java:67-70 | succeeds iff an ordinary list and 0 <= index < size; Immutable iff the empty singleton; IndexOutOfBounds iff an ordinary list and the index is outside 0..size-1; on success returns the removed record and shifts later records down |
| ListMutators.AddAll | src/main/java/io/github/fastclasspathscanner/FieldInfoList.java:72-75 | Immutable iff the empty singleton; otherwise appends the collection in order and returns whether it was non-empty |
| ListMutators.AddAllAt | src/main/java/io/github/fastclasspathscanner/FieldInfoList.java:77-80 | succeeds iff an ordinary list and 0 <= index <= size; Immutable iff the empty singleton, whatever the index; IndexOutOfBounds iff an ordinary list and the index is outside 0..size; on success inserts the collection at the index and returns whether it was non-empty |
| ListMutators.RemoveAll | src/main/java/io/github/fastclasspathscanner/FieldInfoList.java:82-85 | Immutable iff the empty singleton; otherwise keeps, in order, every occurrence of the records not in the collection and no others, returning whether some record was in it |
| ListMutators.RetainAll | src/main/java/io/github/fastclasspathscanner/FieldInfoList.java:87-90 | Immutable iff the empty singleton; otherwise keeps, in order, every occurrence of the records in the collection and no others, returning whether some record was not in it |
| ListMutators.Clear | src/main/java/io/github/fastclasspathscanner/FieldInfoList.java:92-95 | Immutable iff the empty singleton; otherwise gives an empty mutable list |
| ListMutators.Set | src/main/java/io/github/fastclasspathscanner/FieldInfoList.java:97-100 | succeeds iff an ordinary list and 0 <= index < size; Immutable iff the empty singleton, whatever the index; IndexOutOfBounds iff an ordinary list and the index is outside 0..size-1; on success replaces that one record and returns the old one |
| ListMutators.EmptyListRejectsEveryMutator | src/main/java/io/github/fastclasspathscanner/FieldInfoList.java:51-101 | every one of the ten overridden mutators on the shared empty list fails with Immutable for all arguments, and its size is 0 |
| ListMutators.AddAtThenRemoveAt | src/main/java/io/github/fastclasspathscanner/FieldInfoList.java:57-70 | removing at the index just inserted at gives back the original list and the inserted record |
| ListMutators.SetThenRestore | src/main/java/io/github/fastclasspathscanner/FieldInfoList.java:97-100 | setting back the value that set returned restores the original list |
| ListMutators.AddThenRemoveElement | src/main/java/io/github/fastclasspathscanner/FieldInfoList.java:52-65 | adding a record the list lacks and then removing it gives back the original list |
| ListMutators.RetainAllRemoveAllPartition | src/main/java/io/github/fastclasspathscanner/FieldInfoList.java:82-90 | retainAll(c) and removeAll(c) on the same list keep between them exactly as many records as the list holds |
| ListMutators.AddKeepsFirstMatch | src/main/java/io/github/fastclasspathscanner/FieldInfoList.java:147-154 | appending a record never changes which record get(n) finds when a record named n is already present (the first-match policy) |

## Left out

- The integration test `src/test/java/io/github/classgraph/issues/ResolveTypeVariable.java`: it runs a full classpath scan and type-variable resolution, neither of which is part of this model.
- The internals of `FieldInfo` (type signature, modifiers, annotations, how `toString()` renders them): the record is reduced to `name` and an uninterpreted `display`.
- The capacity reserved by `FieldInfoList(int)`: it affects performance only. The negative-hint exception is modelled.
- `java.util.ArrayList` is not part of this model's source. The behaviour of the mutators on an ordinary list follows its documented contract. Its other operations (`get(int)`, `indexOf`, `contains`, iteration) are not modelled.
- ArrayList mutators that `EMPTY_LIST` does not override (`removeIf`, `replaceAll`, `sort`, iterator and list-iterator mutation, `subList` mutation): they are not modelled, and nothing here claims they are guarded.
- Java reference identity and aliasing: lists are values. "The source list is unchanged" holds because a value cannot change.
- The mutability of the lists the projections return (`Collections.emptyList()` for an empty list, a fresh `ArrayList` otherwise): the model returns plain sequences.
- Null names, null arguments and the `NullPointerException`s they would cause.
- RemoveElement: `remove(Object)` accepts any object and compares with `equals`. The model takes a `FieldInfo` and uses value equality, since `FieldInfo.equals` is not part of this model. An object of another type would never match and would return false.
- RemoveAll: `removeAll` and `retainAll` test membership with the collection's `contains`. The model uses sequence membership with value equality.
- FilterList: the `FieldInfoFilter` is modelled as a pure, total function. A filter with side effects or one that throws is not modelled.
- The list size limit of `Integer.MAX_VALUE` and the `OutOfMemoryError` from growing past it: sizes are unbounded naturals.
- Thread safety: every operation is a single-threaded function of values.
