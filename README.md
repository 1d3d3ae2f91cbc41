# SectionedQuery core in Dafny

This project models the core of the SectionedQuery Swift package. The package takes a flat list of
persisted results and shows them as sections, grouped by a key that is read from each result.
The model covers two things:

- `Array.uniqued()`, the order-preserving de-duplication. It is module `ArrayExt` in
  `array_ext.dfy`. The Swift code filters the array while test-and-inserting into a local `seen`
  set. Here that is the method `ArrayExt.Uniqued`: a loop over the input with a `seen: set<K>` and
  an output sequence. It is proved equal to the pure specification `ArrayExt.FirstOccurrences`,
  which keeps an element exactly when the prefix before it does not contain it.
- `SectionedResults`, with its nested `Section` and both index views. This is module `Sectioning`
  in `sectioned_results.dfy`. The source is pure here, so the model is too:
  - `Section` and `SectionedResults` are datatypes with `StartIndex`, `EndIndex` and `At` (the
    subscript).
  - `Dictionary(grouping:by:)` is `Grouping`. It appends each result to the bucket of its key.
  - The `compactMap` over the de-duplicated identifiers is `CompactSections`. It keeps the skip
    branch for an identifier that has no bucket.
  - `SectionedResults.init(sectionIdentifier:results:)` is `Sectioned`.

The Swift key path becomes a total function `keyOf: E -> K`. The result type `E` is opaque. Swift's
`Hashable` becomes Dafny equality on `K`. The examples in `scenarios.dfy` work a few concrete
inputs through the whole construction.

## Model

| member | source | states |
|---|---|---|
| `ArrayExt.Uniqued` | Sources/SectionedQuery/Array+Ext.swift:12-15 | The single pass with a `seen` set returns exactly `FirstOccurrences(xs)`: every input value, each once, in first-occurrence order. The loop keeps `seen` equal to the values of the processed prefix and to the values emitted so far. |
| `ArrayExt.FirstOccurrencesCharacterization` | Sources/SectionedQuery/Array+Ext.swift:13-14 | In both directions, `r` is the de-duplication of `xs` iff three things hold: `r` holds every value of `xs` and nothing else, no value twice, and values ordered by the position of their first occurrence in `xs`. |
| `ArrayExt.FirstOccurrencesMembers` | Sources/SectionedQuery/Array+Ext.swift:14 | Every value in the output comes from the input, and every input value appears in the output. |
| `ArrayExt.FirstOccurrencesDistinct` | Sources/SectionedQuery/Array+Ext.swift:13-14 | The output contains no duplicate values. |
| `ArrayExt.FirstOccurrencesOrdered` | Sources/SectionedQuery/Array+Ext.swift:13-14 | Output values are in strictly increasing order of their first index in the input. So the output is the subsequence of the input at its first-occurrence positions. |
| `ArrayExt.FirstOccurrenceOrderUnique` | Sources/SectionedQuery/Array+Ext.swift:13-14 | Two sequences with the same values, each once and in first-occurrence order, are equal. So first-occurrence order determines the output. |
| `ArrayExt.FirstOccurrencesOfDistinct` | Sources/SectionedQuery/Array+Ext.swift:12-15 | An input without repeats comes back unchanged. |
| `ArrayExt.FirstOccurrencesIdempotent` | Sources/SectionedQuery/Array+Ext.swift:12-15 | `uniqued(uniqued(xs)) == uniqued(xs)`. |
| `ArrayExt.FirstOccurrencesLength` | Sources/SectionedQuery/Array+Ext.swift:14 | The output is no longer than the input. It is empty iff the input is empty. |
| `ArrayExt.FirstOccurrencesKeepsAll` | Sources/SectionedQuery/Array+Ext.swift:14 | The output has the input's length iff the input has no repeated value. |
| `Sectioning.Grouping` | Sources/SectionedQuery/SectionedResults.swift:46-48 | The grouped dictionary has a bucket for exactly the keys that occur. Each bucket is non-empty and equals the results with that key, in their original order. |
| `Sectioning.BucketMembers` | Sources/SectionedQuery/SectionedResults.swift:46-48 | A bucket contains a result iff the input has that result and its key is the bucket's key. A bucket is never longer than the input. |
| `Sectioning.BucketOfPrefix` | Sources/SectionedQuery/SectionedResults.swift:46-48 | The bucket of a prefix of the results is a prefix of the bucket of all the results. |
| `Sectioning.BucketKeepsOrder` | Sources/SectionedQuery/SectionedResults.swift:46-48 | Take two results with the same key where the first comes earlier in the input. The first also comes earlier in that key's bucket (a stable partition). |
| `Sectioning.CompactSectionsComplete` | Sources/SectionedQuery/SectionedResults.swift:54-57 | When every identifier has a bucket, `compactMap` yields one section per identifier, in order. Each section holds that identifier's bucket. |
| `Sectioning.NoSectionSkipped` | Sources/SectionedQuery/SectionedResults.swift:54-56 | For a key type whose `==` is reflexive, every de-duplicated identifier has a bucket. So the `guard ... else { return nil }` branch is never taken, and there are as many sections as distinct keys. |
| `Sectioning.SectionsAt` | Sources/SectionedQuery/SectionedResults.swift:43-57 | Section `i` is labelled by the `i`-th distinct key in first-occurrence order and holds the results with that key. |
| `Sectioning.SectionOrder` | Sources/SectionedQuery/SectionedResults.swift:50-57 | The section ids equal `uniqued(results.map(key))`. They satisfy the first-occurrence characterisation against the keys of the results. No key labels two sections. |
| `Sectioning.SectionContents` | Sources/SectionedQuery/SectionedResults.swift:43-57 | Each section's elements are the input filtered to that section's key, in original relative order. Each section is non-empty. |
| `Sectioning.Coverage` | Sources/SectionedQuery/SectionedResults.swift:43-57 | For a key type whose `==` is reflexive, the multiset of all section elements equals the multiset of the input. The section element counts sum to `results.count`. |
| `Sectioning.EmptyResults` | Sources/SectionedQuery/SectionedResults.swift:32-57 | `startIndex` is 0. For a key type whose `==` is reflexive, there are zero sections (`endIndex == startIndex`) exactly when `results` is empty. |
| `Sectioning.OuterView` | Sources/SectionedQuery/SectionedResults.swift:27-40 | The built value keeps the key function. `startIndex == 0`, and `endIndex` is the number of distinct keys. For every valid index, the subscript returns that section, whose `id` is the key at that position in first-occurrence order. |
| `Sectioning.InnerView` | Sources/SectionedQuery/SectionedResults.swift:78-91 | Every section built has `startIndex == 0 < endIndex == elements.count`. The subscript returns `elements[i]`, and every element it yields has the section's `id` as its key. |
| `Scenarios.InterleavedBucket` | Sources/SectionedQuery/SectionedResults.swift:46-48 | For the input `[(a,1),(b,2),(a,3),(c,4),(b,5)]`, the buckets are `a:[1,3]`, `b:[2,5]` and `c:[4]`. Every other key has an empty bucket. |
| `Scenarios.InterleavedIds` | Sources/SectionedQuery/SectionedResults.swift:50-52 | The distinct keys of that input are `[a, b, c]`. |
| `Scenarios.InterleavedKeys` | Sources/SectionedQuery/SectionedResults.swift:43-57 | That input gives exactly the sections `a:[1,3]`, `b:[2,5]`, `c:[4]`, in that order. |
| `Scenarios.SingleKey` | Sources/SectionedQuery/SectionedResults.swift:43-57 | An input where every key is `x` gives exactly one section, holding all results in order. |
| `Scenarios.SingleResult` | Sources/SectionedQuery/SectionedResults.swift:43-57 | A one-result input gives one section with one element, so both views have exactly one valid index. |

## Left out

- Sources/SectionedQuery/SectionedQuery.swift is not part of this model. It is the SwiftUI property
  wrapper over a SwiftData `@Query`: `fetchError`, `modelContext`, `update()`, and initialisers
  that only forward predicates, sort descriptors, animations and transactions. It holds no logic
  of its own. Its `wrappedValue` only calls the constructor modelled here (`Sectioned`) on the
  current fetch result.
- Package.swift is not part of this model (a build manifest).
- The `KeyPath` mechanism and the `PersistentModel` constraint: the key path is a total function
  `E -> K` and the result type is opaque. Hashing and the internal layout of `Set` and
  `Dictionary` are not modelled. Only key equality matters, and a `map` from key to bucket stands
  in for the dictionary.
- Sectioning.NoSectionSkipped: holds for a key type whose `==` is an equivalence relation,
  because Dafny equality on `K` is one. Swift does not enforce this. For floating-point keys (or
  optionals of them), `nan == nan` is false. Then `uniqued()` keeps every NaN identifier, and
  `Dictionary(grouping:by:)` puts each NaN result in a bucket of its own. The lookup `grouped[id]` at SectionedResults.swift:55 finds none of them, so
  the skip branch drops those results. All-NaN input then gives `endIndex == 0` for non-empty
  results. The model cannot express a non-reflexive `==` and does not capture this loss.
- Sectioning.Coverage: holds only for a key type whose `==` is reflexive. NaN keys lose their
  results in the skip branch described above.
- Sectioning.EmptyResults: "zero sections exactly when `results` is empty" holds only for a key
  type whose `==` is reflexive. Non-empty all-NaN results give zero sections in Swift.
- Dafny equality on `K` is identity. So the model does not say which of several Swift-equal
  spellings of a key becomes a section's `id`. Swift keeps the first occurrence's spelling, for
  example one of two canonically equivalent `String`s.
- The `RandomAccessCollection` machinery is not modelled: `IndexingIterator`, `Slice`, `Indices`,
  `index(after:)`, iteration and slicing come from the Swift standard library. Only `startIndex`,
  `endIndex` and the subscript, which the package declares, are modelled.
- An out-of-range subscript is a runtime trap in Swift, not an error the package handles. So `At`
  on both datatypes has a precondition that the position lies in `StartIndex() ..< EndIndex()`.
  It does not return an error value.
- `startIndex` is a stored `var` initialised to 0 in both structs. The package never reassigns it,
  so the model makes it the constant 0. A client that writes to that public property is outside
  the model.
- `Section.init(id:elements:)` only stores its arguments. It is the datatype constructor
  `Section(id, elements)` and has no contract of its own.
- Swift's `Array` is a value type, so the input of `uniqued()` is a `seq` rather than an `array`.
  No update in place or aliasing is involved.
