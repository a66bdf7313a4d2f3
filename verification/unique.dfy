/**
 De-duplication with first-occurrence order, the behaviour of spreading a
 JavaScript `Set` built from a sequence (`[...new Set(xs)]`): a `Set`
 compares strings by value and iterates in insertion order, so every value
 is kept at the place where it first appears and later repeats are dropped.
 */
module Unique {

  /** No value occurs twice in `xs`. */
  predicate Distinct<T(==)>(xs: seq<T>) {
    forall i, j | 0 <= i < j < |xs| :: xs[i] != xs[j]
  }

  /** The index at which `x` first occurs in `xs`. */
  function FirstIndex<T(==)>(xs: seq<T>, x: T): (i: nat)
    requires x in xs
    ensures i < |xs| && xs[i] == x
    ensures x !in xs[..i]
  {
    if xs[0] == x then 0
    else
      var j := FirstIndex(xs[1..], x);
      assert xs[..j + 1] == [xs[0]] + xs[1..][..j];
      j + 1
  }

  /** Every element of `r` occurs in `xs`, and the elements of `r` are
      listed in the order in which they first occur in `xs`. */
  ghost predicate InFirstOccurrenceOrder<T>(r: seq<T>, xs: seq<T>) {
    && (forall x | x in r :: x in xs)
    && forall i, j | 0 <= i < j < |r| && r[i] in xs && r[j] in xs ::
         FirstIndex(xs, r[i]) < FirstIndex(xs, r[j])
  }

  /** The distinct values of `xs`, each at the place of its first occurrence. */
  function Dedup<T(==)>(xs: seq<T>): (r: seq<T>)
    ensures Distinct(r)
    ensures forall x | x in xs :: x in r
    ensures forall x | x in r :: x in xs
    ensures |r| <= |xs|
  {
    if |xs| == 0 then []
    else
      var d := Dedup(xs[..|xs| - 1]);
      if xs[|xs| - 1] in d then d else d + [xs[|xs| - 1]]
  }

  /** A value's first occurrence in `xs` is also its first occurrence in any
      extension of `xs`. */
  lemma FirstIndexExtend<T>(xs: seq<T>, ys: seq<T>, x: T)
    requires x in xs
    ensures x in xs + ys
    ensures FirstIndex(xs + ys, x) == FirstIndex(xs, x)
  {
    var i := FirstIndex(xs, x);
    assert (xs + ys)[i] == x;
    assert xs[..i] == (xs + ys)[..i];
  }

  /** The value at the end of `xs` that does not occur earlier has the last
      first-occurrence index. */
  lemma FirstIndexOfNewLast<T>(xs: seq<T>)
    requires |xs| > 0 && xs[|xs| - 1] !in xs[..|xs| - 1]
    ensures FirstIndex(xs, xs[|xs| - 1]) == |xs| - 1
  {
    var k := FirstIndex(xs, xs[|xs| - 1]);
    assert xs[..k] == xs[..|xs| - 1][..k];
  }

  /** A sequence whose values all occur in `xs` can only be non-empty when
      `xs` is. */
  lemma MembersWitnessLength<T>(r: seq<T>, xs: seq<T>)
    requires forall x | x in r :: x in xs
    ensures |r| > 0 ==> |xs| > 0
  {
    if |r| > 0 {
      assert r[0] in xs;
    }
  }

  /** The conditions that single out the de-duplication `r` of `xs`. */
  ghost predicate IsDedupOf<T>(r: seq<T>, xs: seq<T>) {
    && Distinct(r)
    && (forall x | x in xs :: x in r)
    && InFirstOccurrenceOrder(r, xs)
  }

  /** `Dedup` keeps the values in the order of their first occurrences. */
  lemma {:induction false} DedupOrder<T>(xs: seq<T>)
    ensures InFirstOccurrenceOrder(Dedup(xs), xs)
  {
    if |xs| > 0 {
      var n := |xs|;
      var p, last := xs[..n - 1], xs[n - 1];
      assert xs == p + [last];
      var d := Dedup(p);
      DedupOrder(p);
      forall y | y in p
        ensures FirstIndex(xs, y) == FirstIndex(p, y)
      {
        FirstIndexExtend(p, [last], y);
      }
      if last !in d {
        var r := d + [last];
        FirstIndexOfNewLast(xs);
        forall i, j | 0 <= i < j < |r| && r[i] in xs && r[j] in xs
          ensures FirstIndex(xs, r[i]) < FirstIndex(xs, r[j])
        {
          if j < |d| {
            assert r[i] == d[i] && r[j] == d[j];
          } else {
            assert r[i] == d[i] && d[i] in p;
          }
        }
      }
    }
  }

  /** First-occurrence indices in `xs` agree with those in `xs` without its
      last element, for every value that occurs before the end. */
  lemma FirstIndexDropLast<T>(xs: seq<T>)
    requires |xs| > 0
    ensures forall y | y in xs[..|xs| - 1] ::
      y in xs && FirstIndex(xs, y) == FirstIndex(xs[..|xs| - 1], y)
  {
    var p := xs[..|xs| - 1];
    assert xs == p + [xs[|xs| - 1]];
    forall y | y in p
      ensures y in xs && FirstIndex(xs, y) == FirstIndex(p, y)
    {
      FirstIndexExtend(p, [xs[|xs| - 1]], y);
    }
  }

  /** When the last value of `xs` repeats an earlier one, a de-duplication of
      `xs` is also one of `xs` without its last element. */
  lemma DropRepeatedLast<T>(xs: seq<T>, r: seq<T>)
    requires |xs| > 0 && xs[|xs| - 1] in xs[..|xs| - 1]
    requires IsDedupOf(r, xs)
    ensures IsDedupOf(r, xs[..|xs| - 1])
  {
    var p := xs[..|xs| - 1];
    assert xs == p + [xs[|xs| - 1]];
    FirstIndexDropLast(xs);
    forall x | x in r ensures x in p {
      assert x in xs;
    }
  }

  /** When the last value of `xs` is new, it is the last value of any
      de-duplication of `xs`. */
  lemma NewLastIsLast<T>(xs: seq<T>, r: seq<T>)
    requires |xs| > 0 && xs[|xs| - 1] !in xs[..|xs| - 1]
    requires IsDedupOf(r, xs)
    ensures |r| > 0 && r[|r| - 1] == xs[|xs| - 1]
  {
    var n, last := |xs|, xs[|xs| - 1];
    FirstIndexOfNewLast(xs);
    assert last in r;
    var q :| 0 <= q < |r| && r[q] == last;
    var j := |r| - 1;
    assert r[j] in xs;
    assert FirstIndex(xs, r[j]) <= FirstIndex(xs, r[q]);
  }

  /** When the last value of `xs` is new, dropping it from a de-duplication of
      `xs` leaves a de-duplication of `xs` without its last element. */
  lemma DropNewLast<T>(xs: seq<T>, r: seq<T>)
    requires |xs| > 0 && xs[|xs| - 1] !in xs[..|xs| - 1]
    requires IsDedupOf(r, xs)
    ensures |r| > 0 && r == r[..|r| - 1] + [xs[|xs| - 1]]
    ensures IsDedupOf(r[..|r| - 1], xs[..|xs| - 1])
  {
    NewLastIsLast(xs, r);
    var p, last := xs[..|xs| - 1], xs[|xs| - 1];
    var r' := r[..|r| - 1];
    assert r == r' + [last];
    assert Distinct(r') by {
      forall i, j | 0 <= i < j < |r'| ensures r'[i] != r'[j] {
        assert r'[i] == r[i] && r'[j] == r[j];
      }
    }
    assert forall x | x in p :: x in r' by {
      forall x | x in p ensures x in r' {
        assert xs == p + [last];
        assert x in r && x != last;
      }
    }
    assert InFirstOccurrenceOrder(r', p) by {
      forall x | x in r' ensures x in p {
        assert xs == p + [last];
        assert x in xs && x != last;
      }
      FirstIndexDropLast(xs);
      forall i, j | 0 <= i < j < |r'| && r'[i] in p && r'[j] in p
        ensures FirstIndex(p, r'[i]) < FirstIndex(p, r'[j])
      {
        assert r'[i] == r[i] && r'[j] == r[j];
      }
    }
  }

  /** `Dedup` is the ONLY sequence that is distinct, holds exactly the values of
      `xs`, and lists them in first-occurrence order. */
  lemma {:induction false} DedupUnique<T>(xs: seq<T>, r: seq<T>)
    requires IsDedupOf(r, xs)
    ensures r == Dedup(xs)
  {
    MembersWitnessLength(r, xs);
    if |xs| == 0 {
    } else if xs[|xs| - 1] in xs[..|xs| - 1] {
      DropRepeatedLast(xs, r);
      DedupUnique(xs[..|xs| - 1], r);
    } else {
      DropNewLast(xs, r);
      DedupUnique(xs[..|xs| - 1], r[..|r| - 1]);
    }
  }

  /** `r` is the de-duplication of `xs` exactly when it is distinct, holds
      every value of `xs` and nothing else, in first-occurrence order. */
  lemma DedupCharacterised<T>(xs: seq<T>, r: seq<T>)
    ensures IsDedupOf(r, xs) <==> r == Dedup(xs)
  {
    if IsDedupOf(r, xs) {
      DedupUnique(xs, r);
    }
    if r == Dedup(xs) {
      DedupOrder(xs);
    }
  }

  /** A sequence without repeats is its own de-duplication. */
  lemma {:induction false} DedupOfDistinct<T>(xs: seq<T>)
    requires Distinct(xs)
    ensures Dedup(xs) == xs
  {
    if |xs| > 0 {
      var n := |xs|;
      var p := xs[..n - 1];
      assert Distinct(p) by {
        forall i, j | 0 <= i < j < |p| ensures p[i] != p[j] {
          assert p[i] == xs[i] && p[j] == xs[j];
        }
      }
      DedupOfDistinct(p);
      assert xs[n - 1] !in p;
      assert xs == p + [xs[n - 1]];
    }
  }

  /** De-duplicating twice is the same as de-duplicating once. */
  lemma DedupIdempotent<T>(xs: seq<T>)
    ensures Dedup(Dedup(xs)) == Dedup(xs)
  {
    DedupOfDistinct(Dedup(xs));
  }

  /** Appending values can only add to the end of a de-duplication: the
      de-duplication of `xs` is a prefix of that of `xs + ys`. */
  lemma {:induction false} DedupPrefix<T>(xs: seq<T>, ys: seq<T>)
    ensures |Dedup(xs)| <= |Dedup(xs + ys)|
    ensures Dedup(xs + ys)[..|Dedup(xs)|] == Dedup(xs)
  {
    if |ys| == 0 {
      assert xs + ys == xs;
    } else {
      var m := |ys|;
      DedupPrefix(xs, ys[..m - 1]);
      assert (xs + ys)[..|xs + ys| - 1] == xs + ys[..m - 1];
    }
  }

  /** Appending values that are already present changes nothing. */
  lemma {:induction false} DedupAbsorbs<T>(xs: seq<T>, ys: seq<T>)
    requires forall y | y in ys :: y in xs
    ensures Dedup(xs + ys) == Dedup(xs)
  {
    if |ys| == 0 {
      assert xs + ys == xs;
    } else {
      var m := |ys|;
      DedupAbsorbs(xs, ys[..m - 1]);
      assert (xs + ys)[..|xs + ys| - 1] == xs + ys[..m - 1];
      assert ys[m - 1] in ys;
    }
  }

  /** The spread of a JavaScript `Set` filled from `xs` in order: a value is
      appended the first time it is seen and skipped afterwards. */
  method DedupWithSet<T(==)>(xs: seq<T>) returns (r: seq<T>)
    ensures r == Dedup(xs)
  {
    var seen: set<T> := {};
    r := [];
    for i := 0 to |xs|
      invariant r == Dedup(xs[..i])
      invariant forall x :: x in seen <==> x in r
    {
      assert xs[..i + 1][..i] == xs[..i];
      if xs[i] !in seen {
        seen := seen + {xs[i]};
        r := r + [xs[i]];
      }
    }
    assert xs[..|xs|] == xs;
  }
}
