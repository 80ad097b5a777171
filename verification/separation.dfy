/**
 * What the emitted `from_iter` does: one empty vector per variant, one pass
 * over the input pushing each payload onto its variant's vector, and the
 * vectors returned in variant order. A stable partition by variant.
 */
module Separation {

  /** A value of the enum: the index of its variant and the single value it wraps. */
  datatype Item<P> = Item(tag: nat, payload: P)

  /** The payloads of the items of variant `k`, in input order. */
  function Bucket<P>(xs: seq<Item<P>>, k: nat): seq<P> {
    if xs == [] then []
    else (if xs[0].tag == k then [xs[0].payload] else []) + Bucket(xs[1..], k)
  }

  /** The tuple `from_iter` should build for an enum with `n` variants. */
  function Separated<P>(xs: seq<Item<P>>, n: nat): seq<seq<P>> {
    seq(n, k requires 0 <= k => Bucket(xs, k))
  }

  predicate TagsBelow<P>(xs: seq<Item<P>>, n: nat) {
    forall i :: 0 <= i < |xs| ==> xs[i].tag < n
  }

  lemma {:induction false} BucketConcat<P>(a: seq<Item<P>>, b: seq<Item<P>>, k: nat)
    ensures Bucket(a + b, k) == Bucket(a, k) + Bucket(b, k)
    decreases |a|
  {
    if a == [] {
      assert a + b == b;
    } else {
      var ab := a + b;
      var head := if a[0].tag == k then [a[0].payload] else [];
      assert ab[0] == a[0] && ab[1..] == a[1..] + b;
      BucketConcat(a[1..], b, k);
      calc {
        Bucket(ab, k);
        head + Bucket(a[1..] + b, k);
        head + (Bucket(a[1..], k) + Bucket(b, k));
        (head + Bucket(a[1..], k)) + Bucket(b, k);
        Bucket(a, k) + Bucket(b, k);
      }
    }
  }

  /**
   * The generated `from_iter`: `collection_k` for every variant `k`, filled
   * by a single loop over the input, returned in variant order.
   */
  method FromIter<P>(xs: seq<Item<P>>, n: nat) returns (collections: seq<seq<P>>)
    requires TagsBelow(xs, n)
    ensures |collections| == n
    ensures forall k :: 0 <= k < n ==> collections[k] == Bucket(xs, k)
  {
    var buckets := new seq<P>[n](_ => []);
    for i := 0 to |xs|
      invariant forall k :: 0 <= k < n ==> buckets[k] == Bucket(xs[..i], k)
    {
      var x := xs[i];
      assert xs[..i + 1] == xs[..i] + [x];
      forall k | 0 <= k < n
        ensures Bucket(xs[..i + 1], k) == Bucket(xs[..i], k) + (if x.tag == k then [x.payload] else [])
      {
        BucketConcat(xs[..i], [x], k);
      }
      buckets[x.tag] := buckets[x.tag] + [x.payload];
    }
    assert xs[..|xs|] == xs;
    collections := buckets[..];
  }

  // ---------------------------------------------------------------------
  // Every item lands in exactly one vector, in order
  // ---------------------------------------------------------------------

  /** The position item `i` takes in its variant's vector. */
  function Rank<P>(xs: seq<Item<P>>, i: nat): nat
    requires i < |xs|
  {
    |Bucket(xs[..i], xs[i].tag)|
  }

  /** Item `i`'s payload sits at position `Rank(xs, i)` of its variant's vector. */
  lemma PlacedAtRank<P>(xs: seq<Item<P>>, i: nat)
    requires i < |xs|
    ensures Rank(xs, i) < |Bucket(xs, xs[i].tag)|
    ensures Bucket(xs, xs[i].tag)[Rank(xs, i)] == xs[i].payload
  {
    var t := xs[i].tag;
    assert xs == xs[..i] + ([xs[i]] + xs[i + 1..]);
    BucketConcat(xs[..i], [xs[i]] + xs[i + 1..], t);
    BucketConcat([xs[i]], xs[i + 1..], t);
  }

  /** Two items of one variant keep their relative order in its vector. */
  lemma RankPreservesOrder<P>(xs: seq<Item<P>>, i: nat, j: nat)
    requires i < j < |xs| && xs[i].tag == xs[j].tag
    ensures Rank(xs, i) < Rank(xs, j)
  {
    var t := xs[i].tag;
    assert xs[..j] == xs[..i] + ([xs[i]] + xs[i + 1..j]);
    BucketConcat(xs[..i], [xs[i]] + xs[i + 1..j], t);
    BucketConcat([xs[i]], xs[i + 1..j], t);
  }

  /** Two different items never share a slot. */
  lemma RankInjective<P>(xs: seq<Item<P>>, i: nat, j: nat)
    requires i < |xs| && j < |xs| && i != j && xs[i].tag == xs[j].tag
    ensures Rank(xs, i) != Rank(xs, j)
  {
    if i < j { RankPreservesOrder(xs, i, j); } else { RankPreservesOrder(xs, j, i); }
  }

  function TotalLength<P>(ss: seq<seq<P>>): nat {
    if ss == [] then 0 else TotalLength(ss[..|ss| - 1]) + |ss[|ss| - 1]|
  }

  /** The number of items whose variant index is below `m`. */
  function CountBelow<P>(xs: seq<Item<P>>, m: nat): nat {
    if xs == [] then 0 else (if xs[0].tag < m then 1 else 0) + CountBelow(xs[1..], m)
  }

  lemma {:induction false} CountBelowStep<P>(xs: seq<Item<P>>, m: nat)
    ensures CountBelow(xs, m + 1) == CountBelow(xs, m) + |Bucket(xs, m)|
    decreases |xs|
  {
    if xs != [] {
      CountBelowStep(xs[1..], m);
    }
  }

  lemma {:induction false} SeparatedTotal<P>(xs: seq<Item<P>>, m: nat)
    ensures TotalLength(Separated(xs, m)) == CountBelow(xs, m)
    decreases m
  {
    if m == 0 {
      CountBelowNone(xs);
    } else {
      assert Separated(xs, m)[..m - 1] == Separated(xs, m - 1);
      SeparatedTotal(xs, m - 1);
      CountBelowStep(xs, m - 1);
    }
  }

  lemma {:induction false} CountBelowNone<P>(xs: seq<Item<P>>)
    ensures CountBelow(xs, 0) == 0
    decreases |xs|
  {
    if xs != [] {
      CountBelowNone(xs[1..]);
    }
  }

  lemma {:induction false} CountBelowAll<P>(xs: seq<Item<P>>, n: nat)
    requires TagsBelow(xs, n)
    ensures CountBelow(xs, n) == |xs|
    decreases |xs|
  {
    if xs != [] {
      assert xs[0].tag < n;
      CountBelowAll(xs[1..], n);
    }
  }

  /** The vectors' lengths add up to the number of items: none lost, none duplicated. */
  lemma LengthConserved<P>(xs: seq<Item<P>>, n: nat)
    requires TagsBelow(xs, n)
    ensures TotalLength(Separated(xs, n)) == |xs|
  {
    SeparatedTotal(xs, n);
    CountBelowAll(xs, n);
  }

  // ---------------------------------------------------------------------
  // Borrowing impls
  // ---------------------------------------------------------------------

  /** Replace every payload by `f` of it, keeping the variant: `&v` or `&mut v` for the borrowing impls. */
  function MapPayloads<P, Q>(xs: seq<Item<P>>, f: P -> Q): (ys: seq<Item<Q>>)
    ensures |ys| == |xs|
    ensures forall i :: 0 <= i < |xs| ==> ys[i] == Item(xs[i].tag, f(xs[i].payload))
  {
    if xs == [] then [] else [Item(xs[0].tag, f(xs[0].payload))] + MapPayloads(xs[1..], f)
  }

  function MapSeq<P, Q>(s: seq<P>, f: P -> Q): seq<Q> {
    seq(|s|, i requires 0 <= i < |s| => f(s[i]))
  }

  /**
   * Separating borrowed items gives, vector by vector, the borrows of what
   * separating the owned items gives: the `&Self` and `&mut Self` impls
   * route every variant to the same slot as the `Self` impl.
   */
  lemma {:induction false} BorrowedSeparation<P, Q>(xs: seq<Item<P>>, f: P -> Q, k: nat)
    ensures Bucket(MapPayloads(xs, f), k) == MapSeq(Bucket(xs, k), f)
    decreases |xs|
  {
    if xs != [] {
      var ys := MapPayloads(xs, f);
      assert ys[1..] == MapPayloads(xs[1..], f);
      BorrowedSeparation(xs[1..], f, k);
    }
  }

  /** The example in the crate's documentation, with its three temperature variants. */
  lemma TemperatureExample<P>(c1: P, f1: P, c2: P, k1: P, c3: P, f2: P)
    ensures Separated([Item(0, c1), Item(1, f1), Item(0, c2), Item(2, k1), Item(0, c3), Item(1, f2)], 3)
         == [[c1, c2, c3], [f1, f2], [k1]]
  {
    var xs := [Item(0, c1), Item(1, f1), Item(0, c2), Item(2, k1), Item(0, c3), Item(1, f2)];
    var s := Separated(xs, 3);
    forall k | 0 <= k < 3
      ensures s[k] == [[c1, c2, c3], [f1, f2], [k1]][k]
    {
      assert xs == [xs[0]] + ([xs[1]] + ([xs[2]] + ([xs[3]] + ([xs[4]] + [xs[5]]))));
      BucketConcat([xs[0]], [xs[1]] + ([xs[2]] + ([xs[3]] + ([xs[4]] + [xs[5]]))), k);
      BucketConcat([xs[1]], [xs[2]] + ([xs[3]] + ([xs[4]] + [xs[5]])), k);
      BucketConcat([xs[2]], [xs[3]] + ([xs[4]] + [xs[5]]), k);
      BucketConcat([xs[3]], [xs[4]] + [xs[5]], k);
      BucketConcat([xs[4]], [xs[5]], k);
    }
  }
}
