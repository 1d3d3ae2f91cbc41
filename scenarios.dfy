/** Worked examples of sectioning, with results modelled as (key, value)
    pairs grouped by their first component. */
module Scenarios {
  import opened ArrayExt
  import opened Sectioning

  function KeyOf(result: (string, int)): string { result.0 }

  /** The bucket of `id` in the interleaved example, built one result at a
      time. */
  lemma InterleavedBucket(id: string)
    ensures Bucket([("a", 1), ("b", 2), ("a", 3), ("c", 4), ("b", 5)], KeyOf, id) ==
      (if id == "a" then [("a", 1), ("a", 3)]
       else if id == "b" then [("b", 2), ("b", 5)]
       else if id == "c" then [("c", 4)]
       else [])
  {
    var rs := [("a", 1), ("b", 2), ("a", 3), ("c", 4), ("b", 5)];
    assert rs[..1] == [] + [rs[0]];
    assert rs[..2] == rs[..1] + [rs[1]];
    assert rs[..3] == rs[..2] + [rs[2]];
    assert rs[..4] == rs[..3] + [rs[3]];
    assert rs == rs[..4] + [rs[4]];
    BucketSnoc([], KeyOf, id, rs[0]);
    BucketSnoc(rs[..1], KeyOf, id, rs[1]);
    BucketSnoc(rs[..2], KeyOf, id, rs[2]);
    BucketSnoc(rs[..3], KeyOf, id, rs[3]);
    BucketSnoc(rs[..4], KeyOf, id, rs[4]);
  }

  /** The distinct keys of the interleaved example, in first-occurrence
      order. */
  lemma InterleavedIds()
    ensures FirstOccurrences(Keys([("a", 1), ("b", 2), ("a", 3), ("c", 4), ("b", 5)], KeyOf)) == ["a", "b", "c"]
  {
    var ks: seq<string> := ["a", "b", "a", "c", "b"];
    var rs := [("a", 1), ("b", 2), ("a", 3), ("c", 4), ("b", 5)];
    assert KeyOf(rs[0]) == KeyOf(rs[2]) == "a" && KeyOf(rs[1]) == KeyOf(rs[4]) == "b" && KeyOf(rs[3]) == "c";
    assert Keys(rs, KeyOf) == ks;
    var k1, k2, k3, k4 := ks[..1], ks[..2], ks[..3], ks[..4];
    assert k1 == [] + [ks[0]];
    assert k2 == k1 + [ks[1]];
    assert k3 == k2 + [ks[2]];
    assert k4 == k3 + [ks[3]];
    assert ks == k4 + [ks[4]];
    FirstOccurrencesSnoc([], ks[0]);
    FirstOccurrencesSnoc(k1, ks[1]);
    FirstOccurrencesSnoc(k2, ks[2]);
    FirstOccurrencesSnoc(k3, ks[3]);
    FirstOccurrencesSnoc(k4, ks[4]);
  }

  /** Interleaved keys: sections follow first occurrence, and within a
      section the results keep their order. */
  lemma InterleavedKeys()
    ensures Sectioned(KeyOf, [("a", 1), ("b", 2), ("a", 3), ("c", 4), ("b", 5)]).sections ==
      [Section("a", [("a", 1), ("a", 3)]), Section("b", [("b", 2), ("b", 5)]), Section("c", [("c", 4)])]
  {
    var rs := [("a", 1), ("b", 2), ("a", 3), ("c", 4), ("b", 5)];
    InterleavedIds();
    InterleavedBucket("a");
    InterleavedBucket("b");
    InterleavedBucket("c");
    SectionsAt(KeyOf, rs);
  }

  /** One key throughout: exactly one section, holding every result. */
  lemma SingleKey()
    ensures Sectioned(KeyOf, [("x", 1), ("x", 2), ("x", 3)]).sections ==
      [Section("x", [("x", 1), ("x", 2), ("x", 3)])]
  {
    var rs := [("x", 1), ("x", 2), ("x", 3)];
    var ks: seq<string> := ["x", "x", "x"];
    assert KeyOf(rs[0]) == KeyOf(rs[1]) == KeyOf(rs[2]) == "x";
    assert Keys(rs, KeyOf) == ks;
    assert ks[..1] == [] + ["x"];
    assert ks[..2] == ks[..1] + ["x"];
    assert ks == ks[..2] + ["x"];
    FirstOccurrencesSnoc([], "x");
    FirstOccurrencesSnoc(ks[..1], "x");
    FirstOccurrencesSnoc(ks[..2], "x");
    assert rs[..1] == [] + [rs[0]];
    assert rs[..2] == rs[..1] + [rs[1]];
    assert rs == rs[..2] + [rs[2]];
    BucketSnoc([], KeyOf, "x", rs[0]);
    BucketSnoc(rs[..1], KeyOf, "x", rs[1]);
    BucketSnoc(rs[..2], KeyOf, "x", rs[2]);
    SectionsAt(KeyOf, rs);
  }

  /** A single result: one section of one element, so both views have
      exactly one valid index. */
  lemma SingleResult()
    ensures var r := Sectioned(KeyOf, [("z", 9)]);
      r.EndIndex() == 1 && r.At(0).EndIndex() == 1 && r.At(0) == Section("z", [("z", 9)])
  {
    var rs := [("z", 9)];
    assert Keys(rs, KeyOf) == [] + ["z"];
    FirstOccurrencesSnoc([], "z");
    assert rs == [] + [rs[0]];
    BucketSnoc([], KeyOf, "z", rs[0]);
    SectionsAt(KeyOf, rs);
  }
}
