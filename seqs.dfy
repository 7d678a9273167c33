/**
 * Sequence helpers shared by the models: keeping the elements a predicate
 * accepts, and keeping the first occurrence of each element.
 */
module Seqs {

  /** The elements of `xs` that `keep` accepts, in their order. */
  function Filter<T>(xs: seq<T>, keep: T -> bool): (r: seq<T>)
    ensures |r| <= |xs|
    ensures forall i :: 0 <= i < |r| ==> keep(r[i])
  {
    if xs == [] then []
    else
      var last := xs[|xs| - 1];
      Filter(xs[..|xs| - 1], keep) + (if keep(last) then [last] else [])
  }

  /** An element survives the filter exactly when it is present and accepted. */
  lemma {:induction false} FilterMember<T>(xs: seq<T>, keep: T -> bool, x: T)
    ensures x in Filter(xs, keep) <==> x in xs && keep(x)
  {
    if xs != [] {
      var init := xs[..|xs| - 1];
      assert xs == init + [xs[|xs| - 1]];
      FilterMember(init, keep, x);
    }
  }

  /** Filtering one more element. */
  lemma FilterSnoc<T>(xs: seq<T>, keep: T -> bool, i: nat)
    requires i < |xs|
    ensures Filter(xs[..i + 1], keep) == Filter(xs[..i], keep) + (if keep(xs[i]) then [xs[i]] else [])
  {
    assert xs[..i + 1][..i] == xs[..i];
  }

  /** Filtering a sequence with one more element at its end. */
  lemma FilterAppendOne<T>(xs: seq<T>, keep: T -> bool, x: T)
    ensures Filter(xs + [x], keep) == Filter(xs, keep) + (if keep(x) then [x] else [])
  {
    assert (xs + [x])[..|xs|] == xs;
  }

  /** Filtering a concatenation filters each part. */
  lemma {:induction false} FilterAppend<T>(xs: seq<T>, ys: seq<T>, keep: T -> bool)
    ensures Filter(xs + ys, keep) == Filter(xs, keep) + Filter(ys, keep)
  {
    if ys == [] {
      assert xs + ys == xs;
    } else {
      var init := ys[..|ys| - 1];
      var y := ys[|ys| - 1];
      assert ys == init + [y];
      assert xs + ys == (xs + init) + [y];
      FilterAppend(xs, init, keep);
      FilterAppendOne(xs + init, keep, y);
      FilterAppendOne(init, keep, y);
      AppendAssoc(Filter(xs, keep), Filter(init, keep), if keep(y) then [y] else []);
    }
  }

  /** Filtering drops nothing when `keep` accepts every element. */
  lemma {:induction false} FilterKeepsAll<T>(xs: seq<T>, keep: T -> bool)
    requires forall i :: 0 <= i < |xs| ==> keep(xs[i])
    ensures Filter(xs, keep) == xs
  {
    if xs != [] {
      var init := xs[..|xs| - 1];
      assert forall i :: 0 <= i < |init| ==> init[i] == xs[i];
      FilterKeepsAll(init, keep);
      assert init + [xs[|xs| - 1]] == xs;
    }
  }

  /** An accepted last element is the last element of the filtered sequence. */
  lemma FilterEndsWith<T>(xs: seq<T>, keep: T -> bool)
    requires xs != [] && keep(xs[|xs| - 1])
    ensures Filter(xs, keep) != [] && Filter(xs, keep)[|Filter(xs, keep)| - 1] == xs[|xs| - 1]
  {
  }

  /** The first occurrence of each element of `xs`, in the order of those occurrences. */
  function Dedup<T(==)>(xs: seq<T>): (r: seq<T>)
    ensures forall i :: 0 <= i < |xs| ==> xs[i] in r
    ensures forall i :: 0 <= i < |r| ==> r[i] in xs
    ensures forall a, b :: 0 <= a < b < |r| ==> r[a] != r[b]
  {
    if xs == [] then []
    else
      var init := xs[..|xs| - 1];
      var last := xs[|xs| - 1];
      assert xs == init + [last];
      if last in init then Dedup(init) else Dedup(init) + [last]
  }

  /** Deduplicating keeps exactly the elements present. */
  lemma DedupMember<T>(xs: seq<T>, x: T)
    ensures x in Dedup(xs) <==> x in xs
  {
    if x in xs {
      var i :| 0 <= i < |xs| && xs[i] == x;
    }
  }

  /** One more element is appended to the deduplicated sequence exactly when it is new. */
  lemma DedupAppendOne<T>(xs: seq<T>, x: T)
    ensures Dedup(xs + [x]) == Dedup(xs) + (if x in xs then [] else [x])
  {
    assert (xs + [x])[..|xs|] == xs;
  }

  /**
   * Deduplicating a concatenation: the first part's elements come first, then
   * those of the second part that the first does not hold.
   */
  lemma {:induction false} DedupAppend<T>(xs: seq<T>, ys: seq<T>)
    ensures Dedup(xs + ys) == Dedup(xs) + Dedup(Filter(ys, y => y !in xs))
  {
    var unseen := y => y !in xs;
    if ys == [] {
      assert xs + ys == xs;
    } else {
      var init := ys[..|ys| - 1];
      var y := ys[|ys| - 1];
      var f := Filter(init, unseen);
      assert ys == init + [y];
      assert xs + ys == (xs + init) + [y];
      DedupAppend(xs, init);
      DedupAppendOne(xs + init, y);
      FilterAppendOne(init, unseen, y);
      if y in xs {
        assert y in xs + init;
        assert Filter(ys, unseen) == f;
      } else {
        FilterMember(init, unseen, y);
        DedupAppendOne(f, y);
        assert y in xs + init <==> y in init;
        assert Filter(ys, unseen) == f + [y];
        AppendAssoc(Dedup(xs), Dedup(f), if y in f then [] else [y]);
      }
    }
  }

  /** Concatenation is associative. */
  lemma AppendAssoc<T>(a: seq<T>, b: seq<T>, c: seq<T>)
    ensures a + b + c == a + (b + c)
  {
  }

  /** Reading one more element of `xs` after `a` extends the text read so far by that element. */
  lemma PrefixSnoc<T>(a: seq<T>, xs: seq<T>, j: nat)
    requires j < |xs|
    ensures a + xs[..j + 1] == (a + xs[..j]) + [xs[j]]
  {
    assert xs[..j + 1] == xs[..j] + [xs[j]];
  }

  /** Where `x` first occurs in `xs`. */
  function FirstIndex<T(==)>(xs: seq<T>, x: T): (i: nat)
    requires x in xs
    ensures i < |xs| && xs[i] == x
    ensures forall j :: 0 <= j < i ==> xs[j] != x
  {
    if xs[0] == x then 0 else 1 + FirstIndex(xs[1..], x)
  }

  /** The deduplicated elements keep the order of their first occurrences. */
  lemma {:induction false} DedupFirstSeen<T>(xs: seq<T>, a: nat, b: nat)
    requires a < b < |Dedup(xs)|
    ensures FirstIndex(xs, Dedup(xs)[a]) < FirstIndex(xs, Dedup(xs)[b])
  {
    var init := xs[..|xs| - 1];
    var last := xs[|xs| - 1];
    var d := Dedup(init);
    var r := Dedup(xs);
    assert xs == init + [last];
    assert r[a] in init by {
      assert r[a] in d;
    }
    var fa := FirstIndex(init, r[a]);
    assert FirstIndex(xs, r[a]) == fa by {
      assert xs[fa] == init[fa];
    }
    if b < |d| {
      assert r[b] == d[b];
      var fb := FirstIndex(init, r[b]);
      assert FirstIndex(xs, r[b]) == fb by {
        assert xs[fb] == init[fb];
      }
      DedupFirstSeen(init, a, b);
    } else {
      assert r[b] == last && last !in init;
      assert FirstIndex(xs, last) == |xs| - 1;
    }
  }
}
