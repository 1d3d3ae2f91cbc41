/** Order-preserving de-duplication of an array: `Array.uniqued()`.
    The pure specification `FirstOccurrences` keeps an element exactly when it
    does not occur earlier in the input; the method `Uniqued` is the
    implementation, a single pass that test-and-inserts into a `seen` set. */
module ArrayExt {

  /** No value occurs twice. */
  predicate Distinct<K(==)>(s: seq<K>) {
    forall i, j :: 0 <= i < j < |s| ==> s[i] != s[j]
  }

  /** The position of the first occurrence of `x` in `xs`. */
  function FirstIndex<K(==)>(xs: seq<K>, x: K): (i: nat)
    requires x in xs
    ensures i < |xs| && xs[i] == x && x !in xs[..i]
  {
    if xs[0] == x then 0
    else
      var j := FirstIndex(xs[1..], x);
      assert xs[..j + 1] == [xs[0]] + xs[1..][..j];
      j + 1
  }

  /** Distinct values of `xs` in first-occurrence order: the last element is
      kept exactly when it has not been seen in the prefix before it. */
  function FirstOccurrences<K(==)>(xs: seq<K>): seq<K>
    decreases |xs|
  {
    if xs == [] then []
    else
      var n := |xs| - 1;
      var kept := FirstOccurrences(xs[..n]);
      if xs[n] in xs[..n] then kept else kept + [xs[n]]
  }

  /** One step of the pass: appending a value keeps it exactly when it is
      new. */
  lemma FirstOccurrencesSnoc<K>(xs: seq<K>, x: K)
    ensures FirstOccurrences(xs + [x]) == if x in xs then FirstOccurrences(xs) else FirstOccurrences(xs) + [x]
  {
    assert (xs + [x])[..|xs|] == xs;
  }

  /** An independent description of the result: the values of `xs`, each
      once, ordered by the position where each first occurs in `xs`. */
  ghost predicate IsFirstOccurrenceOrder<K>(xs: seq<K>, r: seq<K>)
  {
    && (forall i :: 0 <= i < |r| ==> r[i] in xs)
    && (forall i :: 0 <= i < |xs| ==> xs[i] in r)
    && Distinct(r)
    && forall i, j :: 0 <= i < j < |r| ==> FirstIndex(xs, r[i]) < FirstIndex(xs, r[j])
  }

  /** `uniqued()`: filter the array, keeping an element when inserting it
      into `seen` reports that it was newly inserted. */
  method Uniqued<K(==)>(xs: seq<K>) returns (r: seq<K>)
    ensures r == FirstOccurrences(xs)
    ensures IsFirstOccurrenceOrder(xs, r)
  {
    var seen: set<K> := {};
    r := [];
    for i := 0 to |xs|
      invariant seen == set x | x in xs[..i]
      invariant seen == set x | x in r
      invariant r == FirstOccurrences(xs[..i])
    {
      assert xs[..i + 1][..i] == xs[..i];
      var inserted := xs[i] !in seen;
      seen := seen + {xs[i]};
      if inserted {
        r := r + [xs[i]];
      }
      FirstOccurrencesMembers(xs[..i + 1]);
    }
    assert xs[..|xs|] == xs;
    FirstOccurrencesCharacterization(xs, r);
  }

  lemma {:induction false} FirstOccurrencesMembers<K>(xs: seq<K>)
    ensures forall x :: x in FirstOccurrences(xs) ==> x in xs
    ensures forall x :: x in xs ==> x in FirstOccurrences(xs)
    decreases |xs|
  {
    if xs != [] {
      var n := |xs| - 1;
      FirstOccurrencesMembers(xs[..n]);
      assert xs == xs[..n] + [xs[n]];
    }
  }

  lemma {:induction false} FirstOccurrencesDistinct<K>(xs: seq<K>)
    ensures Distinct(FirstOccurrences(xs))
    decreases |xs|
  {
    if xs != [] {
      var n := |xs| - 1;
      FirstOccurrencesDistinct(xs[..n]);
      FirstOccurrencesMembers(xs[..n]);
    }
  }

  /** A position holding `x` with no `x` before it is the first index. */
  lemma FirstIndexUnique<K>(xs: seq<K>, x: K, i: nat)
    requires i < |xs| && xs[i] == x && x !in xs[..i]
    ensures FirstIndex(xs, x) == i
  {
  }

  /** The first occurrence of a value already in `xs` is not moved by
      appending to `xs`. */
  lemma FirstIndexOfPrefix<K>(xs: seq<K>, ys: seq<K>, x: K)
    requires x in xs
    ensures FirstIndex(xs + ys, x) == FirstIndex(xs, x)
  {
    var i := FirstIndex(xs, x);
    assert (xs + ys)[..i] == xs[..i];
    FirstIndexUnique(xs + ys, x, i);
  }

  lemma {:induction false} FirstOccurrencesOrdered<K>(xs: seq<K>)
    ensures forall i, j :: 0 <= i < j < |FirstOccurrences(xs)| ==>
      FirstOccurrences(xs)[i] in xs && FirstOccurrences(xs)[j] in xs &&
      FirstIndex(xs, FirstOccurrences(xs)[i]) < FirstIndex(xs, FirstOccurrences(xs)[j])
    decreases |xs|
  {
    if xs == [] {
      assert FirstOccurrences(xs) == [];
    } else {
      var n := |xs| - 1;
      var p := xs[..n];
      var r := FirstOccurrences(p);
      FirstOccurrencesOrdered(p);
      FirstOccurrencesMembers(p);
      assert xs == p + [xs[n]];
      var f := FirstOccurrences(xs);
      assert f == r || (f == r + [xs[n]] && xs[n] !in p);
      forall i, j | 0 <= i < j < |f|
        ensures f[i] in xs && f[j] in xs && FirstIndex(xs, f[i]) < FirstIndex(xs, f[j])
      {
        assert f[i] in f && f[j] in f;
        assert f[i] == r[i] && r[i] in r;
        FirstIndexOfPrefix(p, [xs[n]], r[i]);
        if j < |r| {
          assert f[j] == r[j] && r[j] in r;
          FirstIndexOfPrefix(p, [xs[n]], r[j]);
        } else {
          FirstIndexUnique(xs, xs[n], n);
        }
      }
    }
  }

  /** Two candidates with the same values, each once, in the same
      first-occurrence order, are the same sequence. */
  lemma {:induction false} FirstOccurrenceOrderUnique<K>(xs: seq<K>, a: seq<K>, b: seq<K>)
    requires forall x :: x in a ==> x in xs
    requires forall x :: x in a <==> x in b
    requires Distinct(a) && Distinct(b)
    requires forall i, j :: 0 <= i < j < |a| ==> FirstIndex(xs, a[i]) < FirstIndex(xs, a[j])
    requires forall i, j :: 0 <= i < j < |b| ==> FirstIndex(xs, b[i]) < FirstIndex(xs, b[j])
    ensures a == b
    decreases |a|
  {
    if a == [] {
      HeadMember(b);
    } else {
      assert a[0] in a;
      assert b[0] in b;
      assert a[0] == b[0] by {
        var k :| 0 <= k < |a| && a[k] == b[0];
        var m :| 0 <= m < |b| && b[m] == a[0];
      }
      TailMembers(a);
      TailMembers(b);
      FirstOccurrenceOrderUnique(xs, a[1..], b[1..]);
      assert a == [a[0]] + a[1..];
      assert b == [b[0]] + b[1..];
    }
  }

  /** Kept as a lemma: in the branch where `a` is empty, the same fact
      written as an inline assertion is checked under assumptions that
      already clash, and the index check draws a warning. */
  lemma HeadMember<K>(s: seq<K>)
    ensures s != [] ==> s[0] in s
  {
  }

  lemma TailMembers<K>(s: seq<K>)
    requires s != [] && Distinct(s)
    ensures forall x :: x in s[1..] <==> x in s && x != s[0]
  {
    assert s == [s[0]] + s[1..];
  }

  /** `FirstOccurrences(xs)` is exactly the sequence of the distinct values
      of `xs` in first-occurrence order: the output contains no duplicates,
      holds every input value and nothing else, and is the subsequence of
      `xs` at the first-occurrence positions. */
  lemma FirstOccurrencesCharacterization<K>(xs: seq<K>, r: seq<K>)
    ensures r == FirstOccurrences(xs) <==> IsFirstOccurrenceOrder(xs, r)
  {
    var f := FirstOccurrences(xs);
    FirstOccurrencesMembers(xs);
    FirstOccurrencesDistinct(xs);
    FirstOccurrencesOrdered(xs);
    if IsFirstOccurrenceOrder(xs, r) {
      FirstOccurrenceOrderUnique(xs, r, f);
    }
  }

  lemma {:induction false} FirstOccurrencesOfDistinct<K>(ys: seq<K>)
    requires Distinct(ys)
    ensures FirstOccurrences(ys) == ys
    decreases |ys|
  {
    if ys != [] {
      var n := |ys| - 1;
      FirstOccurrencesOfDistinct(ys[..n]);
      assert ys == ys[..n] + [ys[n]];
    }
  }

  /** De-duplicating twice is de-duplicating once. */
  lemma FirstOccurrencesIdempotent<K>(xs: seq<K>)
    ensures FirstOccurrences(FirstOccurrences(xs)) == FirstOccurrences(xs)
  {
    FirstOccurrencesDistinct(xs);
    FirstOccurrencesOfDistinct(FirstOccurrences(xs));
  }

  /** The output is never longer than the input, and is empty exactly when
      the input is. */
  lemma {:induction false} FirstOccurrencesLength<K>(xs: seq<K>)
    ensures |FirstOccurrences(xs)| <= |xs|
    ensures FirstOccurrences(xs) == [] <==> xs == []
    decreases |xs|
  {
    if xs != [] {
      var n := |xs| - 1;
      FirstOccurrencesLength(xs[..n]);
    }
  }

  /** Nothing is dropped exactly when nothing repeats. */
  lemma {:induction false} FirstOccurrencesKeepsAll<K>(xs: seq<K>)
    ensures |FirstOccurrences(xs)| == |xs| <==> Distinct(xs)
    decreases |xs|
  {
    if xs != [] {
      var n := |xs| - 1;
      var p := xs[..n];
      FirstOccurrencesLength(p);
      FirstOccurrencesKeepsAll(p);
      if xs[n] in p {
        var k :| 0 <= k < n && p[k] == xs[n];
        assert xs[k] == xs[n];
      } else {
        assert Distinct(xs) ==> Distinct(p) by {
          if Distinct(xs) {
            forall i, j | 0 <= i < j < |p| ensures p[i] != p[j] {
              assert xs[i] != xs[j];
            }
          }
        }
      }
    }
  }
}
