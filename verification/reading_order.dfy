/**
 * `DocumentOCR._sort_reading_order`: blocks are grouped into horizontal line
 * buckets of height `y_tol` and ordered by `(bucket, cx)`, stably.
 */
module ReadingOrder {
  import opened OcrBlocks

  // ---------------------------------------------------------------------------
  // The median block height
  // ---------------------------------------------------------------------------

  predicate SortedReals(xs: seq<real>) {
    forall i, j :: 0 <= i < j < |xs| ==> xs[i] <= xs[j]
  }

  function InsertReal(x: real, xs: seq<real>): (r: seq<real>)
    requires SortedReals(xs)
    ensures SortedReals(r)
    ensures multiset(r) == multiset(xs) + multiset{x}
  {
    if xs == [] || x <= xs[0] then [x] + xs
    else
      var rest := InsertReal(x, xs[1..]);
      InsertRealBehindHead(x, xs, rest);
      [xs[0]] + rest
  }

  /** `xs[0]` stays in front when `x` goes behind it into the rest of `xs`. */
  lemma InsertRealBehindHead(x: real, xs: seq<real>, rest: seq<real>)
    requires SortedReals(xs) && xs != [] && xs[0] < x
    requires SortedReals(rest) && multiset(rest) == multiset(xs[1..]) + multiset{x}
    ensures SortedReals([xs[0]] + rest)
    ensures multiset([xs[0]] + rest) == multiset(xs) + multiset{x}
  {
    assert xs == [xs[0]] + xs[1..];
    forall k | 0 <= k < |rest|
      ensures xs[0] <= rest[k]
    {
      assert rest[k] in multiset(rest);
      if rest[k] != x {
        assert rest[k] in multiset(xs[1..]);
        var m :| 0 <= m < |xs[1..]| && xs[1..][m] == rest[k];
        assert xs[m + 1] == rest[k];
      }
    }
    SortedRealsCons(xs[0], rest);
  }

  /** Putting a value no larger than any other in front keeps a sequence sorted. */
  lemma SortedRealsCons(h: real, xs: seq<real>)
    requires SortedReals(xs)
    requires forall k :: 0 <= k < |xs| ==> h <= xs[k]
    ensures SortedReals([h] + xs)
  {
    var r := [h] + xs;
    forall i, j | 0 <= i < j < |r|
      ensures r[i] <= r[j]
    {
      assert r[j] == xs[j - 1];
      if i > 0 {
        assert r[i] == xs[i - 1];
      }
    }
  }

  /** Python `sorted` on a list of heights. */
  function SortReals(xs: seq<real>): (r: seq<real>)
    ensures SortedReals(r)
    ensures multiset(r) == multiset(xs)
  {
    if xs == [] then []
    else
      assert xs == [xs[0]] + xs[1..];
      InsertReal(xs[0], SortReals(xs[1..]))
  }

  /** Two sorted sequences with the same elements are equal. */
  lemma {:induction false} SortedUnique(a: seq<real>, b: seq<real>)
    requires SortedReals(a) && SortedReals(b)
    requires multiset(a) == multiset(b)
    ensures a == b
  {
    if a == [] {
      assert |b| == |multiset(b)| == 0;
    } else {
      SortedSameHead(a, b);
      TailMultiset(a);
      TailMultiset(b);
      SortedUnique(a[1..], b[1..]);
      assert a == [a[0]] + a[1..] && b == [b[0]] + b[1..];
    }
  }

  /** Two sorted sequences with the same elements start with the same one. */
  lemma SortedSameHead(a: seq<real>, b: seq<real>)
    requires SortedReals(a) && SortedReals(b) && multiset(a) == multiset(b) && a != []
    ensures b != [] && a[0] == b[0]
  {
    assert a[0] in multiset(b);
    var j :| 0 <= j < |b| && b[j] == a[0];
    assert b[0] in multiset(a);
    var k :| 0 <= k < |a| && a[k] == b[0];
    assert b[0] <= b[j] && a[0] <= a[k];
  }

  lemma TailMultiset(a: seq<real>)
    requires a != []
    ensures multiset(a[1..]) == multiset(a) - multiset{a[0]}
  {
    assert a == [a[0]] + a[1..];
  }

  /** The heights of the blocks, in block order. */
  function Heights(blocks: seq<Block>): (hs: seq<real>)
    ensures |hs| == |blocks|
  {
    if blocks == [] then [] else [blocks[0].h] + Heights(blocks[1..])
  }

  lemma HeightsCons(y: Block, t: seq<Block>)
    ensures Heights([y] + t) == [y.h] + Heights(t)
  {
    assert ([y] + t)[1..] == t;
  }

  /** Every ascending arrangement of the heights `h` is the sorted `hs`. */
  lemma SortedArrangements(h: seq<real>, hs: seq<real>)
    requires SortedReals(hs) && multiset(hs) == multiset(h)
    ensures forall s :: SortedReals(s) && multiset(s) == multiset(h) ==> s == hs
  {
    forall s | SortedReals(s) && multiset(s) == multiset(h)
      ensures s == hs
    {
      SortedUnique(s, hs);
    }
  }

  /** `m` sits at index `len // 2` of every ascending arrangement of `h`. */
  ghost predicate MiddleRank(m: real, h: seq<real>) {
    forall s :: SortedReals(s) && multiset(s) == multiset(h) ==> |s| > 0 && m == s[|s| / 2]
  }

  /**
   * `heights[len(heights) // 2]` over the sorted heights, hence one of them
   * (its exact rank is `MedianRank`). With no blocks at all the value is `10.0`.
   */
  function MedianHeight(blocks: seq<Block>): (m: real)
    ensures blocks == [] ==> m == 10.0
    ensures blocks != [] ==> m in Heights(blocks)
  {
    var hs := SortReals(Heights(blocks));
    if hs == [] then 10.0
    else
      assert hs[|hs| / 2] in multiset(Heights(blocks));
      hs[|hs| / 2]
  }

  /**
   * The median of a non-empty page sits at index `len // 2` of every ascending
   * arrangement of its heights, not merely somewhere among them.
   */
  lemma MedianRank(blocks: seq<Block>)
    requires blocks != []
    ensures MiddleRank(MedianHeight(blocks), Heights(blocks))
  {
    SortedArrangements(Heights(blocks), SortReals(Heights(blocks)));
  }

  /** `y_tol = max(8.0, 0.6 * median_h)`: at least 8, so always positive. */
  function YTolerance(blocks: seq<Block>): (t: real)
    ensures t >= 8.0 && t >= 0.6 * MedianHeight(blocks)
    ensures t == 8.0 || t == 0.6 * MedianHeight(blocks)
  {
    var m := MedianHeight(blocks);
    if 8.0 >= 0.6 * m then 8.0 else 0.6 * m
  }

  /** The tolerance depends only on the multiset of heights. */
  lemma YTolerancePermutation(a: seq<Block>, b: seq<Block>)
    requires multiset(Heights(a)) == multiset(Heights(b))
    ensures YTolerance(a) == YTolerance(b)
  {
    SortedUnique(SortReals(Heights(a)), SortReals(Heights(b)));
  }

  // ---------------------------------------------------------------------------
  // A stable sort by key
  // ---------------------------------------------------------------------------

  /** The sort key tuple `(line_bucket, cx)`. */
  datatype SortKey = SortKey(line: int, x: real)

  /** Python's `<` on the key tuples: lexicographic. */
  predicate Less(a: SortKey, b: SortKey) {
    a.line < b.line || (a.line == b.line && a.x < b.x)
  }

  predicate SortedBy<T>(s: seq<T>, key: T -> SortKey) {
    forall i, j :: 0 <= i < j < |s| ==> !Less(key(s[j]), key(s[i]))
  }

  /** The elements of `s` whose key is `k`, in their order in `s`. */
  function WithKey<T>(s: seq<T>, key: T -> SortKey, k: SortKey): seq<T> {
    if s == [] then []
    else (if key(s[0]) == k then [s[0]] else []) + WithKey(s[1..], key, k)
  }

  /** `r` is stable with respect to `s`: equal keys keep their relative order. */
  ghost predicate Stable<T>(r: seq<T>, s: seq<T>, key: T -> SortKey) {
    forall k :: WithKey(r, key, k) == WithKey(s, key, k)
  }

  /** Inserts `x` after every element of `s` with a smaller key. */
  function InsertBy<T(==)>(x: T, s: seq<T>, key: T -> SortKey): (r: seq<T>)
    requires SortedBy(s, key)
    ensures SortedBy(r, key)
    ensures multiset(r) == multiset(s) + multiset{x}
  {
    if s == [] || !Less(key(s[0]), key(x)) then
      SortedCons(x, s, key);
      [x] + s
    else
      var rest := InsertBy(x, s[1..], key);
      InsertBehindHead(x, s, rest, key);
      [s[0]] + rest
  }

  /** `s[0]` stays in front when `x` goes behind it into the rest of `s`. */
  lemma InsertBehindHead<T>(x: T, s: seq<T>, rest: seq<T>, key: T -> SortKey)
    requires SortedBy(s, key) && s != [] && Less(key(s[0]), key(x))
    requires SortedBy(rest, key) && multiset(rest) == multiset(s[1..]) + multiset{x}
    ensures SortedBy([s[0]] + rest, key)
    ensures multiset([s[0]] + rest) == multiset(s) + multiset{x}
  {
    assert s == [s[0]] + s[1..];
    forall k | 0 <= k < |rest|
      ensures !Less(key(rest[k]), key(s[0]))
    {
      assert rest[k] in multiset(rest);
      if rest[k] != x {
        assert rest[k] in multiset(s[1..]);
        var m :| 0 <= m < |s[1..]| && s[1..][m] == rest[k];
        assert s[m + 1] == rest[k];
      }
    }
    SortedCons(s[0], rest, key);
  }

  /** Putting a key no larger than any other in front keeps a sequence sorted. */
  lemma SortedCons<T>(h: T, s: seq<T>, key: T -> SortKey)
    requires SortedBy(s, key)
    requires forall k :: 0 <= k < |s| ==> !Less(key(s[k]), key(h))
    ensures SortedBy([h] + s, key)
  {
    var r := [h] + s;
    forall i, j | 0 <= i < j < |r|
      ensures !Less(key(r[j]), key(r[i]))
    {
      assert r[j] == s[j - 1];
      if i > 0 {
        assert r[i] == s[i - 1];
      }
    }
  }

  /** Insertion sort by key: the order Python's stable `sorted(key=...)` returns. */
  function SortBy<T(==)>(s: seq<T>, key: T -> SortKey): (r: seq<T>)
    ensures SortedBy(r, key)
    ensures multiset(r) == multiset(s)
  {
    if s == [] then []
    else
      assert s == [s[0]] + s[1..];
      InsertBy(s[0], SortBy(s[1..], key), key)
  }

  lemma {:induction false} InsertByWithKey<T>(y: T, s: seq<T>, key: T -> SortKey, k: SortKey)
    requires SortedBy(s, key)
    ensures WithKey(InsertBy(y, s, key), key, k)
            == (if key(y) == k then [y] else []) + WithKey(s, key, k)
  {
    var r := InsertBy(y, s, key);
    if s == [] || !Less(key(s[0]), key(y)) {
      assert r[0] == y && r[1..] == s;
    } else {
      var rest := InsertBy(y, s[1..], key);
      assert r[0] == s[0] && r[1..] == rest;
      InsertByWithKey(y, s[1..], key, k);
      var tail := WithKey(s[1..], key, k);
      if key(y) == k {
        assert key(s[0]) != k;
        assert WithKey(r, key, k) == WithKey(rest, key, k) == [y] + tail;
      } else {
        assert WithKey(rest, key, k) == tail;
      }
    }
  }

  /** The insertion sort is stable. */
  lemma {:induction false} SortByStable<T>(s: seq<T>, key: T -> SortKey)
    ensures Stable(SortBy(s, key), s, key)
  {
    if s != [] {
      SortByStable(s[1..], key);
      forall k
        ensures WithKey(SortBy(s, key), key, k) == WithKey(s, key, k)
      {
        InsertByWithKey(s[0], SortBy(s[1..], key), key, k);
      }
    }
  }

  /** Sorting an already sorted sequence returns it unchanged. */
  lemma {:induction false} SortBySorted<T>(s: seq<T>, key: T -> SortKey)
    requires SortedBy(s, key)
    ensures SortBy(s, key) == s
  {
    if s != [] {
      SortBySorted(s[1..], key);
      assert s == [s[0]] + s[1..];
    }
  }

  // ---------------------------------------------------------------------------
  // _sort_reading_order
  // ---------------------------------------------------------------------------

  /** `key_fn`: `(int(cy // y_tol), cx)`, the line the centre falls in and its x. */
  function LineKey(yTol: real): Block -> SortKey
    requires yTol > 0.0
  {
    (b: Block) => SortKey((b.cy / yTol).Floor, b.cx)
  }

  /**
   * `_sort_reading_order`: a stable rearrangement of the blocks, ordered by
   * `(line bucket, cx)` under the tolerance computed from their heights; an
   * empty input comes back unchanged.
   */
  function SortReadingOrder(blocks: seq<Block>): (r: seq<Block>)
    ensures multiset(r) == multiset(blocks) && |r| == |blocks|
    ensures blocks == [] ==> r == blocks
    ensures SortedBy(r, LineKey(YTolerance(blocks)))
    ensures Stable(r, blocks, LineKey(YTolerance(blocks)))
  {
    if blocks == [] then blocks
    else
      var key := LineKey(YTolerance(blocks));
      var r := SortBy(blocks, key);
      SortByStable(blocks, key);
      assert |r| == |multiset(r)| == |blocks|;
      r
  }

  lemma {:induction false} HeightsInsertBy(x: Block, s: seq<Block>, key: Block -> SortKey)
    requires SortedBy(s, key)
    ensures multiset(Heights(InsertBy(x, s, key))) == multiset(Heights(s)) + multiset{x.h}
  {
    if s == [] || !Less(key(s[0]), key(x)) {
      HeightsCons(x, s);
    } else {
      var rest := InsertBy(x, s[1..], key);
      var r := InsertBy(x, s, key);
      HeightsInsertBy(x, s[1..], key);
      assert r[0] == s[0] && r[1..] == rest;
      assert Heights(r) == [s[0].h] + Heights(rest);
      assert Heights(s) == [s[0].h] + Heights(s[1..]);
    }
  }

  /** Sorting rearranges the heights and nothing else. */
  lemma {:induction false} HeightsSortBy(s: seq<Block>, key: Block -> SortKey)
    ensures multiset(Heights(SortBy(s, key))) == multiset(Heights(s))
  {
    if s != [] {
      var t := SortBy(s[1..], key);
      HeightsSortBy(s[1..], key);
      HeightsInsertBy(s[0], t, key);
      calc {
        multiset(Heights(SortBy(s, key)));
        multiset(Heights(InsertBy(s[0], t, key)));
        multiset(Heights(t)) + multiset{s[0].h};
        multiset(Heights(s[1..])) + multiset{s[0].h};
        multiset([s[0].h] + Heights(s[1..]));
        multiset(Heights(s));
      }
    }
  }

  /** The tolerance of the sorted output is the one it was sorted with. */
  lemma SortReadingOrderTolerance(blocks: seq<Block>)
    ensures YTolerance(SortReadingOrder(blocks)) == YTolerance(blocks)
  {
    if blocks != [] {
      HeightsSortBy(blocks, LineKey(YTolerance(blocks)));
    }
    YTolerancePermutation(SortReadingOrder(blocks), blocks);
  }

  /** `_sort_reading_order` is idempotent. */
  lemma SortReadingOrderIdempotent(blocks: seq<Block>)
    ensures SortReadingOrder(SortReadingOrder(blocks)) == SortReadingOrder(blocks)
  {
    var r := SortReadingOrder(blocks);
    SortReadingOrderTolerance(blocks);
    if r != [] {
      SortBySorted(r, LineKey(YTolerance(r)));
    }
  }

  /** Three positions of a sequence sorted by line key, read line by line. */
  lemma LineKeyTriple(r: seq<Block>, yTol: real, i: nat, j: nat, k: nat)
    requires yTol > 0.0 && SortedBy(r, LineKey(yTol))
    requires i <= j <= k < |r|
    ensures var key := LineKey(yTol);
            && key(r[i]).line <= key(r[j]).line <= key(r[k]).line
            && (key(r[i]).line == key(r[k]).line ==> r[i].cx <= r[j].cx <= r[k].cx)
  {
    var key := LineKey(yTol);
    assert i < j ==> !Less(key(r[j]), key(r[i]));
    assert j < k ==> !Less(key(r[k]), key(r[j]));
    assert key(r[i]).x == r[i].cx && key(r[j]).x == r[j].cx && key(r[k]).x == r[k].cx;
  }

  /**
   * Reading the output line by line: the blocks of one line bucket are
   * contiguous, and within a bucket they run left to right.
   */
  lemma ReadingOrderLines(blocks: seq<Block>, i: nat, j: nat, k: nat)
    requires i <= j <= k < |SortReadingOrder(blocks)|
    ensures var r, key := SortReadingOrder(blocks), LineKey(YTolerance(blocks));
            && key(r[i]).line <= key(r[j]).line <= key(r[k]).line
            && (key(r[i]).line == key(r[k]).line ==> r[i].cx <= r[j].cx <= r[k].cx)
  {
    LineKeyTriple(SortReadingOrder(blocks), YTolerance(blocks), i, j, k);
  }
}
