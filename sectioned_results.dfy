/** `SectionedResults`: a flat list of results grouped into sections by a key.
    Sections are ordered by the first occurrence of their key in the results,
    and each section keeps its results in their original relative order.
    The key path of the source is a total function `keyOf: E -> K`; the result
    type is opaque. */
module Sectioning {
  import opened ArrayExt

  /** `SectionedResults.Section`: the results that share one identifier. */
  datatype Section<K, E> = Section(id: K, elements: seq<E>)
  {
    /** The index of the first element. */
    function StartIndex(): int { 0 }

    /** One past the index of the last element. */
    function EndIndex(): int { |elements| }

    /** The element at `position`; out-of-range positions trap in the source. */
    function At(position: int): E
      requires StartIndex() <= position < EndIndex()
    {
      elements[position]
    }
  }

  /** The sectioned collection: the key function it was built with and its
      sections. */
  datatype SectionedResults<K, !E> = SectionedResults(sectionIdentifier: E -> K, sections: seq<Section<K, E>>)
  {
    /** The index of the first section. */
    function StartIndex(): int { 0 }

    /** One past the index of the last section. */
    function EndIndex(): int { |sections| }

    /** The section at `position`; out-of-range positions trap in the source. */
    function At(position: int): Section<K, E>
      requires StartIndex() <= position < EndIndex()
    {
      sections[position]
    }
  }

  /** The key of every result, in order (`results.map { $0[keyPath:] }`). */
  function Keys<K, E>(results: seq<E>, keyOf: E -> K): seq<K>
  {
    seq(|results|, i requires 0 <= i < |results| => keyOf(results[i]))
  }

  /** The results whose key is `id`, in their original order. */
  function Bucket<K(==), E>(results: seq<E>, keyOf: E -> K, id: K): seq<E>
    decreases |results|
  {
    if results == [] then []
    else
      var n := |results| - 1;
      var before := Bucket(results[..n], keyOf, id);
      if keyOf(results[n]) == id then before + [results[n]] else before
  }

  /** `Dictionary(grouping:by:)`: walk the results in order, appending each
      to the bucket of its key (a missing bucket starts empty). Every bucket
      is the filter of the results by its key, no bucket is empty, and every
      key that occurs has a bucket. */
  function Grouping<K(==), E>(results: seq<E>, keyOf: E -> K): (grouped: map<K, seq<E>>)
    ensures forall id :: id in grouped ==> grouped[id] == Bucket(results, keyOf, id) && grouped[id] != []
    ensures forall i :: 0 <= i < |results| ==> keyOf(results[i]) in grouped
    ensures forall id :: id in grouped ==> exists i :: 0 <= i < |results| && keyOf(results[i]) == id
    decreases |results|
  {
    if results == [] then map[]
    else
      var n := |results| - 1;
      var before := Grouping(results[..n], keyOf);
      var id := keyOf(results[n]);
      assert forall i :: 0 <= i < n ==> results[..n][i] == results[i];
      if id in before then before[id := before[id] + [results[n]]]
      else
        BucketOfAbsentKey(results[..n], keyOf, id);
        before[id := [results[n]]]
  }

  /** `identifiers.compactMap`: a section for each identifier that has a
      bucket, in the order of `ids`; an identifier without one is skipped. */
  function CompactSections<K(==), E>(ids: seq<K>, grouped: map<K, seq<E>>): seq<Section<K, E>>
  {
    if ids == [] then []
    else
      var head := if ids[0] in grouped then [Section(ids[0], grouped[ids[0]])] else [];
      head + CompactSections(ids[1..], grouped)
  }

  /** `SectionedResults.init(sectionIdentifier:results:)`. */
  function Sectioned<K(==), E>(keyOf: E -> K, results: seq<E>): SectionedResults<K, E>
  {
    var grouped := Grouping(results, keyOf);
    var identifiers := FirstOccurrences(Keys(results, keyOf));
    SectionedResults(keyOf, CompactSections(identifiers, grouped))
  }

  /** The identifiers of the sections, in order. */
  function Ids<K, E>(sections: seq<Section<K, E>>): seq<K>
  {
    seq(|sections|, i requires 0 <= i < |sections| => sections[i].id)
  }

  /** All elements of all sections, section by section. */
  function Flatten<K, E>(sections: seq<Section<K, E>>): seq<E>
  {
    if sections == [] then [] else sections[0].elements + Flatten(sections[1..])
  }

  /** The sum of the sections' element counts. */
  function TotalCount<K, E>(sections: seq<Section<K, E>>): nat
  {
    if sections == [] then 0 else |sections[0].elements| + TotalCount(sections[1..])
  }

  /** The results whose key is one of `ids`, in their original order. */
  function Within<K(==), E>(results: seq<E>, keyOf: E -> K, ids: seq<K>): seq<E>
    decreases |results|
  {
    if results == [] then []
    else
      var n := |results| - 1;
      var before := Within(results[..n], keyOf, ids);
      if keyOf(results[n]) in ids then before + [results[n]] else before
  }

  // ---------------------------------------------------------------------
  // Buckets

  /** A bucket holds exactly the results with its key, each as often as in
      the results, and never more than the results. */
  lemma {:induction false} BucketMembers<K, E>(results: seq<E>, keyOf: E -> K, id: K)
    ensures forall e :: e in Bucket(results, keyOf, id) ==> e in results && keyOf(e) == id
    ensures forall e :: e in results && keyOf(e) == id ==> e in Bucket(results, keyOf, id)
    ensures |Bucket(results, keyOf, id)| <= |results|
    decreases |results|
  {
    if results != [] {
      var n := |results| - 1;
      BucketMembers(results[..n], keyOf, id);
      assert results == results[..n] + [results[n]];
    }
  }

  /** Appending a result extends its own key's bucket and no other. */
  lemma BucketSnoc<K, E>(results: seq<E>, keyOf: E -> K, id: K, e: E)
    ensures Bucket(results + [e], keyOf, id) ==
      if keyOf(e) == id then Bucket(results, keyOf, id) + [e] else Bucket(results, keyOf, id)
  {
    assert (results + [e])[..|results|] == results;
  }

  /** A key that no result carries has an empty bucket. */
  lemma {:induction false} BucketOfAbsentKey<K, E>(results: seq<E>, keyOf: E -> K, id: K)
    requires forall i :: 0 <= i < |results| ==> keyOf(results[i]) != id
    ensures Bucket(results, keyOf, id) == []
    decreases |results|
  {
    if results != [] {
      var n := |results| - 1;
      BucketOfAbsentKey(results[..n], keyOf, id);
    }
  }

  /** Relative order is kept: two results with the same key appear in the
      bucket in the order they have in the results. Stated as: the bucket of
      a prefix is a prefix of the bucket. */
  lemma {:induction false} BucketOfPrefix<K, E>(results: seq<E>, keyOf: E -> K, id: K, m: nat)
    requires m <= |results|
    ensures Bucket(results[..m], keyOf, id) <= Bucket(results, keyOf, id)
    decreases |results|
  {
    if m < |results| {
      var n := |results| - 1;
      assert results[..n][..m] == results[..m];
      BucketOfPrefix(results[..n], keyOf, id, m);
    } else {
      assert results[..m] == results;
    }
  }

  /** Two results with the same key keep their relative order in the
      bucket of that key. */
  lemma BucketKeepsOrder<K, E>(results: seq<E>, keyOf: E -> K, id: K, i: nat, j: nat)
    requires i < j < |results| && keyOf(results[i]) == id && keyOf(results[j]) == id
    ensures exists p, q ::
              && 0 <= p < q < |Bucket(results, keyOf, id)|
              && Bucket(results, keyOf, id)[p] == results[i]
              && Bucket(results, keyOf, id)[q] == results[j]
  {
    var b := Bucket(results, keyOf, id);
    assert results[..i + 1] == results[..i] + [results[i]];
    assert results[..j + 1] == results[..j] + [results[j]];
    assert results[..j][..i + 1] == results[..i + 1];
    BucketSnoc(results[..i], keyOf, id, results[i]);
    BucketSnoc(results[..j], keyOf, id, results[j]);
    BucketOfPrefix(results, keyOf, id, i + 1);
    BucketOfPrefix(results, keyOf, id, j + 1);
    BucketOfPrefix(results[..j], keyOf, id, i + 1);
    var p := |Bucket(results[..i + 1], keyOf, id)| - 1;
    var q := |Bucket(results[..j + 1], keyOf, id)| - 1;
    assert b[p] == results[i] && b[q] == results[j];
  }

  // ---------------------------------------------------------------------
  // compactMap

  /** When every identifier has a bucket nothing is skipped: one section per
      identifier, in the same order, holding that identifier's bucket. */
  lemma {:induction false} CompactSectionsComplete<K, E>(ids: seq<K>, grouped: map<K, seq<E>>)
    requires forall i :: 0 <= i < |ids| ==> ids[i] in grouped
    ensures |CompactSections(ids, grouped)| == |ids|
    ensures forall i :: 0 <= i < |ids| ==>
      CompactSections(ids, grouped)[i] == Section(ids[i], grouped[ids[i]])
  {
    if ids != [] {
      CompactSectionsComplete(ids[1..], grouped);
    }
  }

  /** The skip branch of `compactMap` is never taken: every identifier in
      first-occurrence order has a bucket, so there is one section per
      distinct key. */
  lemma NoSectionSkipped<K, E>(keyOf: E -> K, results: seq<E>)
    ensures forall id :: id in FirstOccurrences(Keys(results, keyOf)) ==> id in Grouping(results, keyOf)
    ensures |Sectioned(keyOf, results).sections| == |FirstOccurrences(Keys(results, keyOf))|
  {
    var ks := Keys(results, keyOf);
    var grouped := Grouping(results, keyOf);
    FirstOccurrencesMembers(ks);
    var ids := FirstOccurrences(ks);
    assert forall i :: 0 <= i < |ids| ==> ids[i] in grouped by {
      forall i | 0 <= i < |ids| ensures ids[i] in grouped {
        assert ids[i] in ids;
        var k :| 0 <= k < |ks| && ks[k] == ids[i];
      }
    }
    CompactSectionsComplete(ids, grouped);
  }

  /** Section `i` is labelled by the `i`-th distinct key and holds that key's
      bucket. */
  lemma SectionsAt<K, E>(keyOf: E -> K, results: seq<E>)
    ensures var ids := FirstOccurrences(Keys(results, keyOf));
      var sections := Sectioned(keyOf, results).sections;
      |sections| == |ids| &&
      forall i :: 0 <= i < |ids| ==> sections[i] == Section(ids[i], Bucket(results, keyOf, ids[i]))
  {
    var ks := Keys(results, keyOf);
    var grouped := Grouping(results, keyOf);
    var ids := FirstOccurrences(ks);
    NoSectionSkipped(keyOf, results);
    assert forall i :: 0 <= i < |ids| ==> ids[i] in grouped by {
      forall i | 0 <= i < |ids| ensures ids[i] in grouped {
        assert ids[i] in ids;
      }
    }
    CompactSectionsComplete(ids, grouped);
  }

  // ---------------------------------------------------------------------
  // The sectioning

  /** Sections are ordered by the first occurrence of their key, and no key
      labels two sections: the identifiers are exactly the distinct keys of
      the results in first-occurrence order. */
  lemma SectionOrder<K, E>(keyOf: E -> K, results: seq<E>)
    ensures Ids(Sectioned(keyOf, results).sections) == FirstOccurrences(Keys(results, keyOf))
    ensures IsFirstOccurrenceOrder(Keys(results, keyOf), Ids(Sectioned(keyOf, results).sections))
    ensures Distinct(Ids(Sectioned(keyOf, results).sections))
  {
    var ids := FirstOccurrences(Keys(results, keyOf));
    SectionsAt(keyOf, results);
    assert Ids(Sectioned(keyOf, results).sections) == ids;
    FirstOccurrencesCharacterization(Keys(results, keyOf), ids);
  }

  /** Every section is the stable partition of the results by its key: it
      holds exactly the results with that key, in their original order, and
      is never empty. */
  lemma SectionContents<K, E>(keyOf: E -> K, results: seq<E>)
    ensures var sections := Sectioned(keyOf, results).sections;
      forall i :: 0 <= i < |sections| ==>
        sections[i].elements == Bucket(results, keyOf, sections[i].id) && sections[i].elements != []
  {
    var ks := Keys(results, keyOf);
    var ids := FirstOccurrences(ks);
    var grouped := Grouping(results, keyOf);
    SectionsAt(keyOf, results);
    NoSectionSkipped(keyOf, results);
    forall i | 0 <= i < |ids| ensures ids[i] in grouped {
      assert ids[i] in ids;
    }
  }

  /** Removing one fresh key from the key list splits off that key's bucket. */
  lemma {:induction false} WithinSplit<K, E>(results: seq<E>, keyOf: E -> K, id: K, rest: seq<K>)
    requires id !in rest
    ensures multiset(Within(results, keyOf, [id] + rest)) ==
      multiset(Bucket(results, keyOf, id)) + multiset(Within(results, keyOf, rest))
    decreases |results|
  {
    if results != [] {
      var n := |results| - 1;
      WithinSplit(results[..n], keyOf, id, rest);
    }
  }

  lemma {:induction false} WithinNothing<K, E>(results: seq<E>, keyOf: E -> K)
    ensures Within(results, keyOf, []) == []
    decreases |results|
  {
    if results != [] {
      WithinNothing(results[..|results| - 1], keyOf);
    }
  }

  /** Selecting by a one-key list is that key's bucket: the two filters
      agree. */
  lemma {:induction false} WithinOneKey<K, E>(results: seq<E>, keyOf: E -> K, id: K)
    ensures Within(results, keyOf, [id]) == Bucket(results, keyOf, id)
    decreases |results|
  {
    if results != [] {
      WithinOneKey(results[..|results| - 1], keyOf, id);
    }
  }

  /** Selecting by a key list that holds every key selects everything. */
  lemma {:induction false} WithinAll<K, E>(results: seq<E>, keyOf: E -> K, ids: seq<K>)
    requires forall i :: 0 <= i < |results| ==> keyOf(results[i]) in ids
    ensures Within(results, keyOf, ids) == results
    decreases |results|
  {
    if results != [] {
      var n := |results| - 1;
      WithinAll(results[..n], keyOf, ids);
      assert results == results[..n] + [results[n]];
    }
  }

  /** Sections holding the buckets of distinct keys flatten to the results
      with those keys, counted with multiplicity. */
  lemma {:induction false} FlattenBuckets<K, E>(results: seq<E>, keyOf: E -> K, sections: seq<Section<K, E>>)
    requires Distinct(Ids(sections))
    requires forall i :: 0 <= i < |sections| ==> sections[i].elements == Bucket(results, keyOf, sections[i].id)
    ensures multiset(Flatten(sections)) == multiset(Within(results, keyOf, Ids(sections)))
    ensures TotalCount(sections) == |Flatten(sections)|
  {
    if sections != [] {
      var tail := sections[1..];
      assert Ids(sections) == [sections[0].id] + Ids(tail);
      assert Distinct(Ids(tail)) by {
        forall i, j | 0 <= i < j < |tail| ensures tail[i].id != tail[j].id {
          assert Ids(sections)[i + 1] != Ids(sections)[j + 1];
        }
      }
      assert sections[0].id !in Ids(tail) by {
        forall j | 0 <= j < |tail| ensures tail[j].id != sections[0].id {
          assert Ids(sections)[0] != Ids(sections)[j + 1];
        }
      }
      FlattenBuckets(results, keyOf, tail);
      WithinSplit(results, keyOf, sections[0].id, Ids(tail));
    } else {
      WithinNothing(results, keyOf);
    }
  }

  /** Coverage: no result is dropped or duplicated. The sections together
      hold the results as a multiset, and the element counts sum to the
      number of results. */
  lemma Coverage<K, E>(keyOf: E -> K, results: seq<E>)
    ensures multiset(Flatten(Sectioned(keyOf, results).sections)) == multiset(results)
    ensures TotalCount(Sectioned(keyOf, results).sections) == |results|
  {
    var sections := Sectioned(keyOf, results).sections;
    var ks := Keys(results, keyOf);
    SectionOrder(keyOf, results);
    SectionContents(keyOf, results);
    FlattenBuckets(results, keyOf, sections);
    FirstOccurrencesMembers(ks);
    forall i | 0 <= i < |results| ensures keyOf(results[i]) in Ids(sections) {
      assert ks[i] in ks;
    }
    WithinAll(results, keyOf, Ids(sections));
    assert |multiset(Flatten(sections))| == |multiset(results)|;
  }

  /** No results, no sections: the outer view is empty exactly when the
      results are. */
  lemma EmptyResults<K, E>(keyOf: E -> K, results: seq<E>)
    ensures Sectioned(keyOf, results).StartIndex() == 0
    ensures Sectioned(keyOf, results).EndIndex() == 0 <==> results == []
  {
    NoSectionSkipped(keyOf, results);
    FirstOccurrencesLength(Keys(results, keyOf));
  }

  /** The outer view: indices `StartIndex() ..< EndIndex()` run from 0 over
      one section per distinct key, and `At` yields the section at that
      position. The built value also keeps the key function it was given. */
  lemma OuterView<K, E>(keyOf: E -> K, results: seq<E>)
    ensures var r := Sectioned(keyOf, results);
      && r.sectionIdentifier == keyOf
      && r.StartIndex() == 0
      && r.EndIndex() == |FirstOccurrences(Keys(results, keyOf))|
      && forall i :: r.StartIndex() <= i < r.EndIndex() ==>
           r.At(i) == r.sections[i] && r.At(i).id == FirstOccurrences(Keys(results, keyOf))[i]
  {
    SectionsAt(keyOf, results);
  }

  /** The inner view of every built section: indices run from 0 to a
      non-zero end, `At` yields the section's elements in order, and each of
      them carries the section's identifier. */
  lemma InnerView<K, E>(keyOf: E -> K, results: seq<E>)
    ensures var sections := Sectioned(keyOf, results).sections;
      forall i :: 0 <= i < |sections| ==>
        && sections[i].StartIndex() == 0 < sections[i].EndIndex() == |sections[i].elements|
        && forall j :: sections[i].StartIndex() <= j < sections[i].EndIndex() ==>
             sections[i].At(j) == sections[i].elements[j] && keyOf(sections[i].At(j)) == sections[i].id
  {
    var sections := Sectioned(keyOf, results).sections;
    SectionContents(keyOf, results);
    forall i, j | 0 <= i < |sections| && 0 <= j < |sections[i].elements|
      ensures keyOf(sections[i].elements[j]) == sections[i].id
    {
      BucketMembers(results, keyOf, sections[i].id);
      assert sections[i].elements[j] in sections[i].elements;
    }
  }
}
