/**
 * Membership-checked accumulation over sequences.
 *
 * `Insert` is what `add_node` and `add_edge` do to their array (append unless
 * already present, by value equality); `InsertAll` is a run of such calls;
 * `Uniq` is Ruby's `Array#uniq`, which keeps the first occurrence of every
 * element in its original order.
 */
module Dedup {

  /** No element occurs twice. */
  predicate NoDuplicates<T(==,!new)>(s: seq<T>) {
    forall i, j :: 0 <= i < j < |s| ==> s[i] != s[j]
  }

  /**
   * Append `x` unless it is already present. Nothing is removed or reordered,
   * `x` is present afterwards, and a second insertion of `x` changes nothing.
   */
  function Insert<T(==,!new)>(s: seq<T>, x: T): (r: seq<T>)
    ensures x in r
    ensures |s| <= |r| <= |s| + 1 && r[..|s|] == s
    ensures forall y :: y in r <==> y in s || y == x
    ensures x in s ==> r == s
  {
    if x in s then s else s + [x]
  }

  /** Insert every element of `xs` into `s`, from first to last. */
  function InsertAll<T(==,!new)>(s: seq<T>, xs: seq<T>): (r: seq<T>)
    ensures |s| <= |r| && r[..|s|] == s
    ensures forall y :: y in r <==> y in s || y in xs
    decreases |xs|
  {
    if |xs| == 0 then s
    else
      var init := xs[..|xs| - 1];
      assert xs == init + [xs[|xs| - 1]];
      var before := InsertAll(s, init);
      assert before[..|s|] == s;
      Insert(before, xs[|xs| - 1])
  }

  /** Ruby's `Array#uniq`: the first occurrence of each element, in order. */
  function Uniq<T(==,!new)>(s: seq<T>): (r: seq<T>)
    ensures NoDuplicates(r)
    ensures |r| <= |s|
    ensures forall y :: y in r <==> y in s
  {
    UniqShorter(s);
    InsertAllKeepsDistinct([], s);
    InsertAll([], s)
  }

  /** Membership-checked insertion never creates a duplicate. */
  lemma InsertKeepsDistinct<T(!new)>(s: seq<T>, x: T)
    requires NoDuplicates(s)
    ensures NoDuplicates(Insert(s, x))
  {
  }

  /** Nor does a run of them. */
  lemma {:induction false} InsertAllKeepsDistinct<T(!new)>(s: seq<T>, xs: seq<T>)
    requires NoDuplicates(s)
    ensures NoDuplicates(InsertAll(s, xs))
    decreases |xs|
  {
    if |xs| > 0 {
      InsertAllKeepsDistinct(s, xs[..|xs| - 1]);
      InsertKeepsDistinct(InsertAll(s, xs[..|xs| - 1]), xs[|xs| - 1]);
    }
  }

  lemma {:induction false} UniqShorter<T(!new)>(s: seq<T>)
    ensures |InsertAll([], s)| <= |s|
    decreases |s|
  {
    if |s| > 0 {
      UniqShorter(s[..|s| - 1]);
    }
  }

  /** One more insertion extends a run of insertions. */
  lemma InsertAllSnoc<T(!new)>(s: seq<T>, xs: seq<T>, x: T)
    ensures InsertAll(s, xs + [x]) == Insert(InsertAll(s, xs), x)
  {
    assert (xs + [x])[..|xs|] == xs;
  }

  /** Inserting `xs` and then `ys` is inserting `xs + ys`. */
  lemma {:induction false} InsertAllAppend<T(!new)>(s: seq<T>, xs: seq<T>, ys: seq<T>)
    ensures InsertAll(InsertAll(s, xs), ys) == InsertAll(s, xs + ys)
    decreases |ys|
  {
    if |ys| == 0 {
      assert xs + ys == xs;
    } else {
      var init, last := ys[..|ys| - 1], ys[|ys| - 1];
      assert ys == init + [last];
      assert xs + ys == (xs + init) + [last];
      InsertAllAppend(s, xs, init);
      InsertAllSnoc(InsertAll(s, xs), init, last);
      InsertAllSnoc(s, xs + init, last);
    }
  }

  /** Deduplicating after one more insertion is inserting into the deduplicated sequence. */
  lemma UniqInsert<T(!new)>(s: seq<T>, x: T)
    ensures Uniq(Insert(s, x)) == Insert(Uniq(s), x)
  {
    if x !in s {
      InsertAllSnoc([], s, x);
    }
  }

  /**
   * A run of membership-checked insertions is invisible after `uniq`:
   * deduplicating `InsertAll(s, xs)` gives the same as deduplicating `s + xs`.
   */
  lemma {:induction false} UniqInsertAll<T(!new)>(s: seq<T>, xs: seq<T>)
    ensures Uniq(InsertAll(s, xs)) == InsertAll(Uniq(s), xs) == Uniq(s + xs)
    decreases |xs|
  {
    InsertAllAppend([], s, xs);
    if |xs| > 0 {
      var init, last := xs[..|xs| - 1], xs[|xs| - 1];
      UniqInsertAll(s, init);
      UniqInsert(InsertAll(s, init), last);
      InsertAllSnoc(Uniq(s), init, last);
    }
  }

  /** Deduplicating a sequence without duplicates returns it unchanged. */
  lemma {:induction false} UniqOfDistinct<T(!new)>(s: seq<T>)
    requires NoDuplicates(s)
    ensures Uniq(s) == s
    decreases |s|
  {
    if |s| > 0 {
      var init, last := s[..|s| - 1], s[|s| - 1];
      assert s == init + [last];
      assert last !in init by {
        forall k | 0 <= k < |init| ensures init[k] != last {
          assert init[k] == s[k];
        }
      }
      UniqOfDistinct(init);
      InsertAllSnoc([], init, last);
    }
  }

  /** `uniq` is idempotent. */
  lemma UniqIdempotent<T(!new)>(s: seq<T>)
    ensures Uniq(Uniq(s)) == Uniq(s)
  {
    UniqOfDistinct(Uniq(s));
  }

  /** A repeated element appended at the end leaves `uniq` unchanged. */
  lemma UniqRepeat<T(!new)>(s: seq<T>, x: T)
    requires x in s
    ensures Uniq(s + [x]) == Uniq(s)
  {
    InsertAllSnoc([], s, x);
  }

  /** Inserting the same element `n >= 1` times is inserting it once. */
  lemma {:induction false} InsertRepeated<T(!new)>(s: seq<T>, x: T, n: nat)
    requires n >= 1
    ensures InsertAll(s, seq(n, _ => x)) == Insert(s, x)
    decreases n
  {
    var xs := seq(n, _ => x);
    if n == 1 {
      assert xs == [] + [x];
      InsertAllSnoc(s, [], x);
    } else {
      assert xs == seq(n - 1, _ => x) + [x];
      InsertRepeated(s, x, n - 1);
      InsertAllSnoc(s, seq(n - 1, _ => x), x);
    }
  }

  /** An ordered pair and its reverse are two different elements: both are kept. */
  lemma ReverseKept<T(!new)>(s: seq<(T, T)>, a: T, b: T)
    requires a != b && (a, b) !in s && (b, a) !in s
    ensures Insert(Insert(s, (a, b)), (b, a)) == s + [(a, b), (b, a)]
  {
  }
}
