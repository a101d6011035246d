/**
 * The start of the Kärkkäinen–Sanders (DC3) construction in
 * `SuffixArraySanders.java`: the mod-3 sizes, the positions i with
 * i % 3 != 0 written into `s12`, and three passes of `radixPass`, a counting
 * sort of positions by the character `offset` places after them.
 *
 * As written, `radixPass` cannot finish (its prefix loop reads one cell past
 * `counts`), and the text is not padded, so the first pass reads past it on
 * every nonempty text. The model keeps both behaviours as faults, and
 * beside them gives the corrected pass and the corrected build.
 */
module SuffixArraySanders {
  import opened Wrappers

  /** `(int) c`: the code of a character. */
  function Code(c: char): int
  {
    c as int
  }

  /** `ALPHABET_SIZE`. */
  const AlphabetSize: nat := 256

  // ---------------------------------------------------------------------
  // The mod-3 sizes
  // ---------------------------------------------------------------------

  /** `n0`, `n1`, `n2` and `n02` for a text of length `n`. */
  datatype Sizes = Sizes(n0: nat, n1: nat, n2: nat, n02: nat)

  /**
   * The number of positions of each residue modulo 3: `n0` counts the
   * positions 0, 3, 6, ..., `n1` those at 1, 4, ..., `n2` those at 2, 5, ...;
   * `n0 - n1` is 1 exactly when n % 3 == 1, adding one dummy mod-1 suffix.
   */
  function SizesOf(n: nat): (z: Sizes)
    ensures z.n0 + z.n1 + z.n2 == n && z.n02 == z.n0 + z.n2
    ensures z.n0 == |Residues(n, 0)| && z.n1 == |Residues(n, 1)| && z.n2 == |Residues(n, 2)|
    ensures z.n0 - z.n1 == (if n % 3 == 1 then 1 else 0)
  {
    ResiduesLength(n, 0);
    ResiduesLength(n, 1);
    ResiduesLength(n, 2);
    Sizes((n + 2) / 3, (n + 1) / 3, n / 3, (n + 2) / 3 + n / 3)
  }

  /** The positions below `m` with residue `k` modulo 3, increasing. */
  function Residues(m: nat, k: nat): seq<nat>
  {
    if m == 0 then []
    else Residues(m - 1, k) + (if (m - 1) % 3 == k then [m - 1] else [])
  }

  lemma {:induction false} ResiduesLength(m: nat, k: nat)
    requires k < 3
    ensures |Residues(m, k)| == (m + 2 - k) / 3
  {
    if m > 0 {
      ResiduesLength(m - 1, k);
      var q, t := (m - 1) / 3, (m - 1) % 3;
      assert m + 2 - k == 3 * q + (t + 3 - k) && m + 1 - k == 3 * q + (t + 2 - k);
      assert (m + 2 - k) / 3 == q + (t + 3 - k) / 3;
      assert (m + 1 - k) / 3 == q + (t + 2 - k) / 3;
    }
  }

  /**
   * The positions below `m` that are not multiples of 3, increasing: what the
   * generation loop writes into `s12`.
   */
  function Mod12(m: nat): seq<int>
  {
    if m == 0 then []
    else Mod12(m - 1) + (if (m - 1) % 3 != 0 then [m - 1] else [])
  }

  /** `Mod12(m)` holds exactly the positions below `m` off the multiples of 3, in increasing order. */
  lemma {:induction false} Mod12Exact(m: nat)
    ensures forall p :: 0 <= p < |Mod12(m)| ==> 0 <= Mod12(m)[p] < m && Mod12(m)[p] % 3 != 0
    ensures forall p, q :: 0 <= p < q < |Mod12(m)| ==> Mod12(m)[p] < Mod12(m)[q]
    ensures forall i :: 0 <= i < m && i % 3 != 0 ==> i in Mod12(m)
  {
    if m > 0 {
      Mod12Exact(m - 1);
    }
  }

  lemma {:induction false} Mod12Length(m: nat)
    ensures |Mod12(m)| == m - (m + 2) / 3
  {
    if m > 0 {
      Mod12Length(m - 1);
    }
  }

  /** A longer range has at least as many positions off the multiples of 3. */
  lemma Mod12Grows(i: nat, m: nat)
    requires i <= m
    ensures |Mod12(i)| <= |Mod12(m)|
  {
    Mod12Length(i);
    Mod12Length(m);
  }

  /** From 2 on, the last position off the multiples of 3 below `m` is `m - 1` or `m - 2`. */
  lemma Mod12Last(m: nat)
    requires m >= 2
    ensures |Mod12(m)| > 0 && Mod12(m)[|Mod12(m)| - 1] >= m - 2
  {
    if (m - 1) % 3 == 0 {
      assert Mod12(m) == Mod12(m - 1);
      assert Mod12(m - 1) == Mod12(m - 2) + [m - 2];
    }
  }

  /**
   * The positions the generation loop writes for a text of length `n`: those
   * below `n + (n0 - n1)` off the multiples of 3, the dummy included.
   */
  function Sample(n: nat): seq<int>
  {
    Mod12(n + ((n + 2) / 3 - (n + 1) / 3))
  }

  /** For a non-empty text, the last generated position plus 2 reaches the text's end. */
  lemma SampleEnd(n: nat)
    requires n > 0
    ensures |Sample(n)| > 0 && Sample(n)[|Sample(n)| - 1] + 2 >= n
  {
    var m := n + ((n + 2) / 3 - (n + 1) / 3);
    assert (n + 2) / 3 >= (n + 1) / 3;
    Mod12Last(m);
  }

  /** The generation loop writes exactly `n02` positions. */
  lemma Mod12Count(n: nat)
    ensures |Sample(n)| == (n + 2) / 3 + n / 3 == SizesOf(n).n02
  {
    Mod12Length(n + ((n + 2) / 3 - (n + 1) / 3));
  }

  // ---------------------------------------------------------------------
  // Keys, counts and buckets of a counting sort
  // ---------------------------------------------------------------------

  /** Every position `xs[i] + offset` with i < n lies in `r` and names a character below `K`. */
  ghost predicate Fits(xs: seq<int>, r: seq<char>, n: nat, K: nat, offset: int)
  {
    n <= |xs| && forall i :: 0 <= i < n ==> 0 <= xs[i] + offset < |r| && Code(r[xs[i] + offset]) < K
  }

  /** Every character of `s` has a code below `K`. */
  ghost predicate Below(s: seq<char>, K: nat)
  {
    forall j :: 0 <= j < |s| ==> Code(s[j]) < K
  }

  /**
   * The `ArrayIndexOutOfBoundsException`s `radixPass` can raise: reading
   * `a[i]` past `a`, reading `r[a[i] + offset]` outside `r`, a key at or
   * above `K` indexing `counts`, and the prefix loop reading `counts[K]`.
   */
  datatype Fault = PositionsOverrun | TextOverrun | KeyOverrun | CountsOverrun

  /** The fault, if any, the histogram loop raises at step `i`. */
  function FaultAt(xs: seq<int>, r: seq<char>, i: nat, K: nat, offset: int): Option<Fault>
  {
    if i >= |xs| then Some(PositionsOverrun)
    else if !(0 <= xs[i] + offset < |r|) then Some(TextOverrun)
    else if Code(r[xs[i] + offset]) >= K then Some(KeyOverrun)
    else None
  }

  /** The first fault of the histogram loop over steps 0..n-1; none exactly when the keys fit. */
  function HistogramFault(xs: seq<int>, r: seq<char>, n: nat, K: nat, offset: int): (f: Option<Fault>)
    ensures f.None? <==> Fits(xs, r, n, K, offset)
    ensures f != Some(CountsOverrun)
    ensures n <= |xs| ==> f != Some(PositionsOverrun)
  {
    if n == 0 then None
    else if HistogramFault(xs, r, n - 1, K, offset).Some? then HistogramFault(xs, r, n - 1, K, offset)
    else FaultAt(xs, r, n - 1, K, offset)
  }

  /** A fault at step `i` after a clean prefix is the loop's fault for every longer run. */
  lemma {:induction false} FirstFault(xs: seq<int>, r: seq<char>, i: nat, n: nat, K: nat, offset: int)
    requires i < n && HistogramFault(xs, r, i, K, offset).None? && FaultAt(xs, r, i, K, offset).Some?
    ensures HistogramFault(xs, r, n, K, offset) == FaultAt(xs, r, i, K, offset)
  {
    if i < n - 1 {
      FirstFault(xs, r, i, n - 1, K, offset);
    }
  }

  /** A fault at any step of the range makes the histogram loop fault. */
  lemma SomeFault(xs: seq<int>, r: seq<char>, i: nat, n: nat, K: nat, offset: int)
    requires i < n <= |xs| && FaultAt(xs, r, i, K, offset).Some?
    ensures HistogramFault(xs, r, n, K, offset) == Some(TextOverrun) ||
            HistogramFault(xs, r, n, K, offset) == Some(KeyOverrun)
  {
    var f := HistogramFault(xs, r, n, K, offset);
    assert f.Some? && f != Some(PositionsOverrun) && f != Some(CountsOverrun);
    assert f.value == TextOverrun || f.value == KeyOverrun;
  }

  /** When every character of `r` is below `K`, no key overruns `counts`. */
  lemma {:induction false} NoKeyOverrun(xs: seq<int>, r: seq<char>, n: nat, K: nat, offset: int)
    requires Below(r, K)
    ensures HistogramFault(xs, r, n, K, offset) != Some(KeyOverrun)
  {
    if n > 0 {
      NoKeyOverrun(xs, r, n - 1, K, offset);
    }
  }

  /** When every position read lies inside `r`, no read overruns the text. */
  lemma {:induction false} NoTextOverrun(xs: seq<int>, r: seq<char>, n: nat, K: nat, offset: int)
    requires n <= |xs| && forall i :: 0 <= i < n ==> 0 <= xs[i] + offset < |r|
    ensures HistogramFault(xs, r, n, K, offset) != Some(TextOverrun)
  {
    if n > 0 {
      NoTextOverrun(xs, r, n - 1, K, offset);
    }
  }

  /**
   * The first pass of the build reads past the unpadded text: the last
   * generated position plus 2 is at least the text's length.
   */
  lemma FirstPassFaults(xs: seq<int>, r: seq<char>, n02: nat)
    requires n02 == |Sample(|r|)| <= |xs| && xs[..n02] == Sample(|r|)
    ensures |r| == 0 ==> HistogramFault(xs, r, n02, AlphabetSize, 2) == None
    ensures |r| > 0 ==> HistogramFault(xs, r, n02, AlphabetSize, 2) == Some(TextOverrun) ||
                         HistogramFault(xs, r, n02, AlphabetSize, 2) == Some(KeyOverrun)
    ensures |r| > 0 && Below(r, AlphabetSize) ==>
      HistogramFault(xs, r, n02, AlphabetSize, 2) == Some(TextOverrun)
  {
    if |r| > 0 {
      SampleEnd(|r|);
      assert xs[n02 - 1] == Sample(|r|)[n02 - 1];
      assert FaultAt(xs, r, n02 - 1, AlphabetSize, 2) == Some(TextOverrun);
      SomeFault(xs, r, n02 - 1, n02, AlphabetSize, 2);
      if Below(r, AlphabetSize) {
        NoKeyOverrun(xs, r, n02, AlphabetSize, 2);
      }
    }
  }

  /** The code of `r[p]`, or -1 for a position outside `r`, where the pass would fault instead. */
  function KeyAt(r: seq<char>, p: int): int
  {
    if 0 <= p < |r| then Code(r[p]) else -1
  }

  /** The key of each position: the code of the character `offset` places after it. */
  function Keys(xs: seq<int>, r: seq<char>, offset: int): (ks: seq<int>)
    ensures |ks| == |xs|
  {
    seq(|xs|, i requires 0 <= i < |xs| => KeyAt(r, xs[i] + offset))
  }

  /** Every position of `xs`, moved by `offset`, lies inside `r`. */
  ghost predicate Within(xs: seq<int>, r: seq<char>, offset: int)
  {
    forall i :: 0 <= i < |xs| ==> 0 <= xs[i] + offset < |r|
  }

  /** Every position of `xs`, moved by `offset`, lies inside `r` and has the key `e` there. */
  ghost predicate AllKeyed(xs: seq<int>, r: seq<char>, offset: int, e: int)
  {
    forall i :: 0 <= i < |xs| ==> 0 <= xs[i] + offset < |r| && Code(r[xs[i] + offset]) == e
  }

  /** How often `c` occurs in `ks`. */
  function CountOf(ks: seq<int>, c: int): nat
  {
    if ks == [] then 0
    else CountOf(ks[..|ks| - 1], c) + (if ks[|ks| - 1] == c then 1 else 0)
  }

  /** The histogram of `ks` over the keys 0..K-1. */
  function Counts(ks: seq<int>, K: nat): (r: seq<int>)
    ensures |r| == K
  {
    seq(K, c => CountOf(ks, c))
  }

  /** The sum of `s`. */
  function Sum(s: seq<int>): int
  {
    if s == [] then 0 else Sum(s[..|s| - 1]) + s[|s| - 1]
  }

  /** The number of keys in `ks` below `c`: where the bucket of `c` begins. */
  function Start(ks: seq<int>, c: nat): nat
  {
    if c == 0 then 0 else Start(ks, c - 1) + CountOf(ks, c - 1)
  }

  /** The elements of `xs` whose key is `c`, in their order in `xs`. */
  function Bucket(xs: seq<int>, ks: seq<int>, c: int): seq<int>
    requires |ks| == |xs|
  {
    if xs == [] then []
    else Bucket(xs[..|xs| - 1], ks[..|xs| - 1], c) + (if ks[|xs| - 1] == c then [xs[|xs| - 1]] else [])
  }

  /** The buckets of the keys 0..c-1, one after another: the counting sort's output. */
  function Buckets(xs: seq<int>, ks: seq<int>, c: nat): seq<int>
    requires |ks| == |xs|
  {
    if c == 0 then [] else Buckets(xs, ks, c - 1) + Bucket(xs, ks, c - 1)
  }

  /** Extending `ks` by one key: only that key's count grows. */
  lemma CountOfStep(ks: seq<int>, i: nat, c: int)
    requires i < |ks|
    ensures CountOf(ks[..i + 1], c) == CountOf(ks[..i], c) + (if ks[i] == c then 1 else 0)
  {
    assert ks[..i + 1][..i] == ks[..i];
  }

  /** Counts only grow along the prefixes of `ks`. */
  lemma {:induction false} CountOfPrefix(ks: seq<int>, i: nat, j: nat, c: int)
    requires i <= j <= |ks|
    ensures CountOf(ks[..i], c) <= CountOf(ks[..j], c)
    decreases j - i
  {
    if i < j {
      CountOfStep(ks, j - 1, c);
      CountOfPrefix(ks, i, j - 1, c);
    }
  }

  /** The bucket of a key begins no later than the end of every smaller key's bucket. */
  lemma {:induction false} StartMonotone(ks: seq<int>, c: nat, d: nat)
    requires c < d
    ensures Start(ks, c) + CountOf(ks, c) <= Start(ks, d)
    decreases d - c
  {
    if c < d - 1 {
      StartMonotone(ks, c, d - 1);
    }
  }

  /** One more key moves the start of every larger key up by one. */
  lemma {:induction false} StartStep(ks: seq<int>, i: nat, c: nat)
    requires i < |ks|
    ensures Start(ks[..i + 1], c) == Start(ks[..i], c) + (if 0 <= ks[i] < c then 1 else 0)
  {
    if c > 0 {
      StartStep(ks, i, c - 1);
      CountOfStep(ks, i, c - 1);
    }
  }

  lemma {:induction false} StartEmpty(ks: seq<int>, c: nat)
    requires ks == []
    ensures Start(ks, c) == 0
  {
    if c > 0 {
      StartEmpty(ks, c - 1);
    }
  }

  /** When every key lies in 0..K-1, the buckets of 0..K-1 take up every prefix of `ks`. */
  lemma {:induction false} StartTotal(ks: seq<int>, i: nat, K: nat)
    requires i <= |ks| && forall j :: 0 <= j < |ks| ==> 0 <= ks[j] < K
    ensures Start(ks[..i], K) == i
  {
    if i == 0 {
      StartEmpty(ks[..0], K);
    } else {
      StartTotal(ks, i - 1, K);
      StartStep(ks, i - 1, K);
    }
  }

  /** The prefix sums of the histogram are the bucket starts. */
  lemma {:induction false} SumCounts(ks: seq<int>, K: nat, c: nat)
    requires c <= K
    ensures Sum(Counts(ks, K)[..c]) == Start(ks, c)
  {
    if c > 0 {
      assert Counts(ks, K)[..c][..c - 1] == Counts(ks, K)[..c - 1];
      SumCounts(ks, K, c - 1);
    }
  }

  /** Extending `xs` by one element adds it to the end of its key's bucket. */
  lemma BucketStep(xs: seq<int>, ks: seq<int>, i: nat, c: int)
    requires |ks| == |xs| && i < |xs|
    ensures ks[i] == c ==> Bucket(xs[..i + 1], ks[..i + 1], c) == Bucket(xs[..i], ks[..i], c) + [xs[i]]
    ensures ks[i] != c ==> Bucket(xs[..i + 1], ks[..i + 1], c) == Bucket(xs[..i], ks[..i], c)
  {
    assert xs[..i + 1][..i] == xs[..i] && ks[..i + 1][..i] == ks[..i];
  }

  /** A bucket holds as many elements as its key occurs. */
  lemma {:induction false} BucketLength(xs: seq<int>, ks: seq<int>, c: int)
    requires |ks| == |xs|
    ensures |Bucket(xs, ks, c)| == CountOf(ks, c)
    decreases |xs|
  {
    if xs != [] {
      BucketLength(xs[..|xs| - 1], ks[..|xs| - 1], c);
    }
  }

  /** The buckets of 0..c-1 together are as long as the start of `c`. */
  lemma {:induction false} BucketsLength(xs: seq<int>, ks: seq<int>, c: nat)
    requires |ks| == |xs|
    ensures |Buckets(xs, ks, c)| == Start(ks, c)
  {
    if c > 0 {
      BucketsLength(xs, ks, c - 1);
      BucketLength(xs, ks, c - 1);
      assert |Buckets(xs, ks, c)| == |Buckets(xs, ks, c - 1)| + |Bucket(xs, ks, c - 1)|;
    }
  }

  /** The elements of `s`, gathered from the front: `multiset(s)` built one element at a time. */
  ghost function SeqBag<T>(s: seq<T>): multiset<T>
  {
    if s == [] then multiset{} else SeqBag(s[..|s| - 1]) + multiset{s[|s| - 1]}
  }

  lemma {:induction false} SeqBagIsMultiset<T>(s: seq<T>)
    ensures SeqBag(s) == multiset(s)
  {
    if s != [] {
      SeqBagIsMultiset(s[..|s| - 1]);
      assert s == s[..|s| - 1] + [s[|s| - 1]];
    }
  }

  lemma {:induction false} SeqBagAppend<T>(a: seq<T>, b: seq<T>)
    ensures SeqBag(a + b) == SeqBag(a) + SeqBag(b)
    decreases |b|
  {
    if b == [] {
      assert a + b == a;
    } else {
      assert (a + b)[..|a + b| - 1] == a + b[..|b| - 1];
      SeqBagAppend(a, b[..|b| - 1]);
    }
  }

  /** The elements of `xs` whose key is `c`, as a multiset. */
  ghost function BagOf(xs: seq<int>, ks: seq<int>, c: int): multiset<int>
    requires |ks| == |xs|
  {
    if xs == [] then multiset{}
    else BagOf(xs[..|xs| - 1], ks[..|xs| - 1], c) + (if ks[|xs| - 1] == c then multiset{xs[|xs| - 1]} else multiset{})
  }

  /** The elements of `xs` whose key lies in 0..c-1, as a multiset. */
  ghost function BagsBelow(xs: seq<int>, ks: seq<int>, c: nat): multiset<int>
    requires |ks| == |xs|
  {
    if c == 0 then multiset{} else BagsBelow(xs, ks, c - 1) + BagOf(xs, ks, c - 1)
  }

  /** A bucket holds the elements of its key. */
  lemma {:induction false} BucketBag(xs: seq<int>, ks: seq<int>, c: int)
    requires |ks| == |xs|
    ensures SeqBag(Bucket(xs, ks, c)) == BagOf(xs, ks, c)
    decreases |xs|
  {
    if xs != [] {
      var n := |xs| - 1;
      BucketBag(xs[..n], ks[..n], c);
      var tail := if ks[n] == c then [xs[n]] else [];
      SeqBagAppend(Bucket(xs[..n], ks[..n], c), tail);
      assert [xs[n]][..0] == [];
    }
  }

  /** The buckets of 0..c-1 hold the elements whose key lies in 0..c-1. */
  lemma {:induction false} BucketsBag(xs: seq<int>, ks: seq<int>, c: nat)
    requires |ks| == |xs|
    ensures SeqBag(Buckets(xs, ks, c)) == BagsBelow(xs, ks, c)
    decreases c
  {
    if c == 0 {
      assert Buckets(xs, ks, c) == [];
    } else {
      BucketsBag(xs, ks, c - 1);
      BucketsBagStep(xs, ks, c);
    }
  }

  lemma BucketsBagStep(xs: seq<int>, ks: seq<int>, c: nat)
    requires |ks| == |xs| && c > 0
    requires SeqBag(Buckets(xs, ks, c - 1)) == BagsBelow(xs, ks, c - 1)
    ensures SeqBag(Buckets(xs, ks, c)) == BagsBelow(xs, ks, c)
  {
    BucketBag(xs, ks, c - 1);
    SeqBagAppend(Buckets(xs, ks, c - 1), Bucket(xs, ks, c - 1));
  }

  /** Dropping the last element of `xs` drops it from the keys below `c` when its key lies there. */
  lemma {:induction false} BagsBelowStep(xs: seq<int>, ks: seq<int>, c: nat)
    requires |ks| == |xs| && xs != []
    ensures BagsBelow(xs, ks, c) ==
      BagsBelow(xs[..|xs| - 1], ks[..|xs| - 1], c) + (if 0 <= ks[|xs| - 1] < c then multiset{xs[|xs| - 1]} else multiset{})
  {
    if c > 0 {
      BagsBelowStep(xs, ks, c - 1);
      var n := |xs| - 1;
      var t := if 0 <= ks[n] < c - 1 then multiset{xs[n]} else multiset{};
      var u := if ks[n] == c - 1 then multiset{xs[n]} else multiset{};
      BagShuffle(BagsBelow(xs[..n], ks[..n], c - 1), t, BagOf(xs[..n], ks[..n], c - 1), u);
      assert t + u == if 0 <= ks[n] < c then multiset{xs[n]} else multiset{};
    }
  }

  lemma BagShuffle<T>(a: multiset<T>, t: multiset<T>, b: multiset<T>, u: multiset<T>)
    ensures (a + t) + (b + u) == (a + b) + (t + u)
  {
  }

  lemma {:induction false} BagsBelowEmpty(xs: seq<int>, ks: seq<int>, c: nat)
    requires xs == [] && ks == []
    ensures BagsBelow(xs, ks, c) == multiset{}
  {
    if c > 0 {
      BagsBelowEmpty(xs, ks, c - 1);
    }
  }

  /** When every key lies in 0..K-1, the keys below `K` take in every element. */
  lemma {:induction false} BagsBelowAll(xs: seq<int>, ks: seq<int>, K: nat)
    requires |ks| == |xs| && forall j :: 0 <= j < |ks| ==> 0 <= ks[j] < K
    ensures BagsBelow(xs, ks, K) == SeqBag(xs)
    decreases |xs|
  {
    if xs == [] {
      BagsBelowEmpty(xs, ks, K);
    } else {
      BagsBelowAll(xs[..|xs| - 1], ks[..|xs| - 1], K);
      BagsBelowStep(xs, ks, K);
    }
  }

  /** The counting sort's output is a permutation of its input. */
  lemma BucketsPermutes(xs: seq<int>, ks: seq<int>, K: nat)
    requires |ks| == |xs| && forall j :: 0 <= j < |ks| ==> 0 <= ks[j] < K
    ensures multiset(Buckets(xs, ks, K)) == multiset(xs)
  {
    BucketsBag(xs, ks, K);
    BagsBelowAll(xs, ks, K);
    SeqBagIsMultiset(Buckets(xs, ks, K));
    SeqBagIsMultiset(xs);
  }

  /** Every element of a bucket has the bucket's key. */
  lemma {:induction false} BucketKeys(xs: seq<int>, r: seq<char>, offset: int, c: int)
    requires Within(xs, r, offset)
    ensures AllKeyed(Bucket(xs, Keys(xs, r, offset), c), r, offset, c)
  {
    if xs != [] {
      var init := xs[..|xs| - 1];
      assert Keys(xs, r, offset)[..|xs| - 1] == Keys(init, r, offset);
      BucketKeys(init, r, offset, c);
    }
  }

  /**
   * The counting sort's output lists the positions by nondecreasing key, every
   * key below `c`.
   */
  lemma {:induction false} BucketsSorted(xs: seq<int>, r: seq<char>, offset: int, c: nat)
    requires Within(xs, r, offset)
    ensures forall p :: 0 <= p < |Buckets(xs, Keys(xs, r, offset), c)| ==>
      0 <= Buckets(xs, Keys(xs, r, offset), c)[p] + offset < |r| && Code(r[Buckets(xs, Keys(xs, r, offset), c)[p] + offset]) < c
    ensures forall p, q :: 0 <= p < q < |Buckets(xs, Keys(xs, r, offset), c)| ==>
      Code(r[Buckets(xs, Keys(xs, r, offset), c)[p] + offset]) <= Code(r[Buckets(xs, Keys(xs, r, offset), c)[q] + offset])
  {
    if c > 0 {
      BucketsSorted(xs, r, offset, c - 1);
      BucketKeys(xs, r, offset, c - 1);
      var ks := Keys(xs, r, offset);
      var before := Buckets(xs, ks, c - 1);
      var bucket := Bucket(xs, ks, c - 1);
      var all := before + bucket;
      assert Buckets(xs, ks, c) == all;
      forall p | 0 <= p < |all| ensures 0 <= all[p] + offset < |r| && Code(r[all[p] + offset]) < c {
        if p >= |before| {
          assert all[p] == bucket[p - |before|];
        }
      }
      forall p, q | 0 <= p < q < |all| ensures Code(r[all[p] + offset]) <= Code(r[all[q] + offset]) {
        if q >= |before| {
          assert all[q] == bucket[q - |before|];
          if p >= |before| {
            assert all[p] == bucket[p - |before|];
          }
        }
      }
    }
  }

  /** The positions of `s` whose key, the code `offset` places after them, is `d`, in their order in `s`. */
  function PickKey(s: seq<int>, r: seq<char>, offset: int, d: int): seq<int>
  {
    if s == [] then []
    else PickKey(s[..|s| - 1], r, offset, d) + (if KeyAt(r, s[|s| - 1] + offset) == d then [s[|s| - 1]] else [])
  }

  /** Picking a key from a concatenation picks it from both parts. */
  lemma {:induction false} PickKeyAppend(a: seq<int>, b: seq<int>, r: seq<char>, offset: int, d: int)
    ensures PickKey(a + b, r, offset, d) == PickKey(a, r, offset, d) + PickKey(b, r, offset, d)
    decreases |b|
  {
    if b == [] {
      assert a + b == a;
    } else {
      var m := |b| - 1;
      assert (a + b)[..|a + b| - 1] == a + b[..m];
      PickKeyAppend(a, b[..m], r, offset, d);
      var x, y := PickKey(a, r, offset, d), PickKey(b[..m], r, offset, d);
      var t := if KeyAt(r, b[m] + offset) == d then [b[m]] else [];
      assert (x + y) + t == x + (y + t);
    }
  }

  /** From positions that all have the key `e`, picking `e` takes them all. */
  lemma {:induction false} PickKeyAll(s: seq<int>, r: seq<char>, offset: int, e: int)
    requires AllKeyed(s, r, offset, e)
    ensures PickKey(s, r, offset, e) == s
  {
    if s != [] {
      var n := |s| - 1;
      PickKeyAll(s[..n], r, offset, e);
      assert KeyAt(r, s[n] + offset) == e;
      assert s == s[..n] + [s[n]];
    }
  }

  /** From positions that all have the key `e`, picking any other key takes nothing. */
  lemma {:induction false} PickKeyNone(s: seq<int>, r: seq<char>, offset: int, e: int, d: int)
    requires AllKeyed(s, r, offset, e) && d != e
    ensures PickKey(s, r, offset, d) == []
  {
    if s != [] {
      var n := |s| - 1;
      PickKeyNone(s[..n], r, offset, e, d);
      assert KeyAt(r, s[n] + offset) == e;
    }
  }

  /** From positions that all have the key `e`, picking `d` takes everything or nothing. */
  lemma PickKeyOfOne(s: seq<int>, r: seq<char>, offset: int, e: int, d: int)
    requires AllKeyed(s, r, offset, e)
    ensures PickKey(s, r, offset, d) == if d == e then s else []
  {
    if d == e {
      PickKeyAll(s, r, offset, e);
    } else {
      PickKeyNone(s, r, offset, e, d);
    }
  }

  /**
   * Stability: the positions with any one key below `c` appear in the
   * output in the order they had in the input.
   */
  lemma {:induction false} BucketsStable(xs: seq<int>, r: seq<char>, offset: int, c: nat, d: int)
    requires Within(xs, r, offset)
    ensures PickKey(Buckets(xs, Keys(xs, r, offset), c), r, offset, d) == if 0 <= d < c then Bucket(xs, Keys(xs, r, offset), d) else []
  {
    if c == 0 {
      assert Buckets(xs, Keys(xs, r, offset), c) == [];
    } else {
      BucketsStable(xs, r, offset, c - 1, d);
      BucketKeys(xs, r, offset, c - 1);
      StableStep(Buckets(xs, Keys(xs, r, offset), c), Buckets(xs, Keys(xs, r, offset), c - 1),
                 Bucket(xs, Keys(xs, r, offset), c - 1), r, offset, c, d, Bucket(xs, Keys(xs, r, offset), d));
    }
  }

  lemma AppendEmpty<T>(s: seq<T>)
    ensures s + [] == s && [] + s == s
  {
  }

  /**
   * One more bucket, of key `c - 1`, after the buckets below it: picking `d`
   * from the output gives `bd` when `d` lies in 0..c-1, and nothing otherwise.
   */
  lemma StableStep(out: seq<int>, before: seq<int>, run: seq<int>, r: seq<char>, offset: int, c: int, d: int, bd: seq<int>)
    requires out == before + run
    requires AllKeyed(run, r, offset, c - 1)
    requires PickKey(before, r, offset, d) == if 0 <= d < c - 1 then bd else []
    requires d == c - 1 ==> run == bd
    ensures PickKey(out, r, offset, d) == if 0 <= d < c then bd else []
  {
    PickKeyAppend(before, run, r, offset, d);
    PickKeyOfOne(run, r, offset, c - 1, d);
    if 0 <= d < c - 1 {
      AppendEmpty(bd);
    } else if d == c - 1 {
      AppendEmpty(run);
    }
  }

  // ---------------------------------------------------------------------
  // Three passes sort the triples
  // ---------------------------------------------------------------------

  /** The codes of `r[p + lo]`, ..., `r[p + 2]`: the triple at `p` from offset `lo` on. */
  function TripleFrom(r: seq<char>, p: int, lo: nat): (t: seq<int>)
    requires 0 <= p && p + 3 <= |r| && lo <= 3
    ensures |t| == 3 - lo
    decreases 3 - lo
  {
    if lo == 3 then [] else [Code(r[p + lo])] + TripleFrom(r, p, lo + 1)
  }

  /** Lexicographic order on code sequences. */
  predicate LexLe(a: seq<int>, b: seq<int>)
  {
    a == [] || (b != [] && (a[0] < b[0] || (a[0] == b[0] && LexLe(a[1..], b[1..]))))
  }

  /** Every position of `xs` starts a whole triple of `r`. */
  ghost predicate Inside(xs: seq<int>, r: seq<char>)
  {
    forall i :: 0 <= i < |xs| ==> 0 <= xs[i] && xs[i] + 3 <= |r|
  }

  /** `xs` lists its positions by nondecreasing triple from offset `lo` on. */
  ghost predicate SortedFrom(xs: seq<int>, r: seq<char>, lo: nat)
    requires Inside(xs, r) && lo <= 3
  {
    forall i, j :: 0 <= i < j < |xs| ==> LexLe(TripleFrom(r, xs[i], lo), TripleFrom(r, xs[j], lo))
  }

  /** `xs` is a permutation of `s` whose positions start whole triples, sorted from offset `lo` on. */
  ghost predicate Arranged(xs: seq<int>, r: seq<char>, lo: nat, s: seq<int>)
    requires lo <= 3
  {
    Inside(xs, r) && SortedFrom(xs, r, lo) && multiset(xs) == multiset(s)
  }

  /** Every element of a bucket is an element of the sequence it was picked from. */
  lemma {:induction false} BucketMembers(xs: seq<int>, ks: seq<int>, d: int)
    requires |ks| == |xs|
    ensures forall p :: 0 <= p < |Bucket(xs, ks, d)| ==> Bucket(xs, ks, d)[p] in xs
    decreases |xs|
  {
    if xs != [] {
      var init := xs[..|xs| - 1];
      BucketMembers(init, ks[..|xs| - 1], d);
      assert forall e :: e in init ==> e in xs;
    }
  }

  /** A bucket of a sorted sequence is sorted. */
  lemma {:induction false} BucketSortedFrom(xs: seq<int>, ks: seq<int>, r: seq<char>, d: int, lo: nat)
    requires |ks| == |xs| && lo <= 3 && Inside(xs, r) && SortedFrom(xs, r, lo)
    ensures Inside(Bucket(xs, ks, d), r) && SortedFrom(Bucket(xs, ks, d), r, lo)
    decreases |xs|
  {
    BucketMembers(xs, ks, d);
    if xs != [] {
      var n := |xs| - 1;
      var init, x := xs[..n], xs[n];
      assert Inside(init, r);
      assert SortedFrom(init, r, lo);
      BucketSortedFrom(init, ks[..n], r, d, lo);
      var before := Bucket(init, ks[..n], d);
      BucketMembers(init, ks[..n], d);
      if ks[n] == d {
        var bucket := before + [x];
        assert Bucket(xs, ks, d) == bucket;
        forall i | 0 <= i < |before|
          ensures LexLe(TripleFrom(r, before[i], lo), TripleFrom(r, x, lo))
        {
          assert before[i] in init;
          var k :| 0 <= k < n && init[k] == before[i];
          assert xs[k] == before[i];
        }
        assert SortedFrom(bucket, r, lo) by {
          forall i, j | 0 <= i < j < |bucket|
            ensures LexLe(TripleFrom(r, bucket[i], lo), TripleFrom(r, bucket[j], lo))
          {
            if j == |before| {
              assert bucket[j] == x && bucket[i] == before[i];
            } else {
              assert bucket[i] == before[i] && bucket[j] == before[j];
            }
          }
        }
      }
    }
  }

  /** Triples compare by their first code, then by the rest. */
  lemma LexStep(r: seq<char>, p: int, q: int, lo: nat)
    requires 0 <= p && p + 3 <= |r| && 0 <= q && q + 3 <= |r| && lo < 3
    requires Code(r[p + lo]) < Code(r[q + lo]) ||
      (Code(r[p + lo]) == Code(r[q + lo]) && LexLe(TripleFrom(r, p, lo + 1), TripleFrom(r, q, lo + 1)))
    ensures LexLe(TripleFrom(r, p, lo), TripleFrom(r, q, lo))
  {
    assert TripleFrom(r, p, lo)[1..] == TripleFrom(r, p, lo + 1);
    assert TripleFrom(r, q, lo)[1..] == TripleFrom(r, q, lo + 1);
  }

  /** Nothing is left to compare past the end of the triples. */
  lemma SortedFromEnd(xs: seq<int>, r: seq<char>)
    requires Inside(xs, r)
    ensures SortedFrom(xs, r, 3)
  {
    forall i, j | 0 <= i < j < |xs|
      ensures LexLe(TripleFrom(r, xs[i], 3), TripleFrom(r, xs[j], 3))
    {
    }
  }

  /**
   * The step of least-significant-digit radix sorting: a counting sort by the
   * code at offset `lo`, applied to positions ordered from offset `lo + 1`
   * on, orders them from offset `lo` on.
   */
  lemma {:induction false} BucketsSortedFrom(xs: seq<int>, r: seq<char>, lo: nat, c: nat)
    requires lo < 3 && Inside(xs, r) && SortedFrom(xs, r, lo + 1)
    ensures Inside(Buckets(xs, Keys(xs, r, lo), c), r) && SortedFrom(Buckets(xs, Keys(xs, r, lo), c), r, lo)
  {
    if c > 0 {
      BucketsSortedFrom(xs, r, lo, c - 1);
      SortedFromStep(xs, r, lo, c - 1);
    }
  }

  /** The induction step of `BucketsSortedFrom`: appending the bucket of `d`. */
  lemma SortedFromStep(xs: seq<int>, r: seq<char>, lo: nat, d: nat)
    requires lo < 3 && Inside(xs, r) && SortedFrom(xs, r, lo + 1)
    requires Inside(Buckets(xs, Keys(xs, r, lo), d), r) && SortedFrom(Buckets(xs, Keys(xs, r, lo), d), r, lo)
    ensures Inside(Buckets(xs, Keys(xs, r, lo), d + 1), r) && SortedFrom(Buckets(xs, Keys(xs, r, lo), d + 1), r, lo)
  {
    var ks := Keys(xs, r, lo);
    var before, bucket := Buckets(xs, ks, d), Bucket(xs, ks, d);
    assert Buckets(xs, ks, d + 1) == before + bucket;
    assert Inside(bucket, r) && SortedFrom(bucket, r, lo + 1) by {
      BucketSortedFrom(xs, ks, r, d, lo + 1);
    }
    assert forall i :: 0 <= i < |before| ==> Code(r[before[i] + lo]) < d by {
      BucketsSorted(xs, r, lo, d);
    }
    assert forall i :: 0 <= i < |bucket| ==> Code(r[bucket[i] + lo]) == d by {
      BucketKeys(xs, r, lo, d);
    }
    ConcatSortedFrom(before, bucket, r, lo, d);
  }

  /**
   * Positions with codes below `d` at offset `lo`, sorted from `lo`, followed
   * by positions with code `d` there, sorted from `lo + 1`, are sorted from `lo`.
   */
  lemma ConcatSortedFrom(before: seq<int>, bucket: seq<int>, r: seq<char>, lo: nat, d: int)
    requires lo < 3 && Inside(before, r) && Inside(bucket, r)
    requires SortedFrom(before, r, lo) && SortedFrom(bucket, r, lo + 1)
    requires forall i :: 0 <= i < |before| ==> Code(r[before[i] + lo]) < d
    requires forall i :: 0 <= i < |bucket| ==> Code(r[bucket[i] + lo]) == d
    ensures Inside(before + bucket, r) && SortedFrom(before + bucket, r, lo)
  {
    var all := before + bucket;
    assert Inside(all, r) by {
      forall i | 0 <= i < |all|
        ensures 0 <= all[i] && all[i] + 3 <= |r|
      {
        if i >= |before| {
          assert all[i] == bucket[i - |before|];
        }
      }
    }
    forall i, j | 0 <= i < j < |all|
      ensures LexLe(TripleFrom(r, all[i], lo), TripleFrom(r, all[j], lo))
    {
      if j >= |before| {
        assert all[j] == bucket[j - |before|];
        if i >= |before| {
          assert all[i] == bucket[i - |before|];
        }
        LexStep(r, all[i], all[j], lo);
      }
    }
  }

  /** The text with the three zero characters the construction needs past its end. */
  function Padded(text: string): (r: string)
    ensures |r| == |text| + 3 && r[..|text|] == text
    ensures forall j :: |text| <= j < |r| ==> Code(r[j]) == 0
  {
    text + ['\0', '\0', '\0']
  }

  /** Padding adds no code of 256 or more. */
  lemma PaddedFits(text: string)
    requires Below(text, AlphabetSize)
    ensures Below(Padded(text), AlphabetSize)
  {
    var r := Padded(text);
    forall j | 0 <= j < |r|
      ensures Code(r[j]) < AlphabetSize
    {
      if j < |text| {
        assert r[j] == r[..|text|][j];
      }
    }
  }

  /** Every sampled position starts a whole triple of the padded text. */
  lemma SampleInside(text: string)
    ensures Inside(Sample(|text|), Padded(text))
  {
    Mod12Exact(|text| + ((|text| + 2) / 3 - (|text| + 1) / 3));
  }

  /** One corrected pass: the counting sort of `xs` by the code at offset `lo`. */
  ghost function Pass(xs: seq<int>, r: seq<char>, lo: nat): seq<int>
    requires forall i :: 0 <= i < |xs| ==> 0 <= xs[i] + lo < |r|
  {
    Buckets(xs, Keys(xs, r, lo), AlphabetSize)
  }

  /**
   * A corrected pass over positions with whole triples can only fault on a
   * code of 256 or more, and does not when every code is below 256;
   * otherwise it permutes them and extends their order by one offset.
   */
  lemma PassOutcome(xs: seq<int>, r: seq<char>, n: nat, lo: nat)
    requires lo < 3 && n <= |xs| && Inside(xs[..n], r)
    ensures HistogramFault(xs, r, n, AlphabetSize, lo) == None ||
            HistogramFault(xs, r, n, AlphabetSize, lo) == Some(KeyOverrun)
    ensures Below(r, AlphabetSize) ==> HistogramFault(xs, r, n, AlphabetSize, lo) == None
    ensures HistogramFault(xs, r, n, AlphabetSize, lo) == None ==>
      multiset(Pass(xs[..n], r, lo)) == multiset(xs[..n])
    ensures SortedFrom(xs[..n], r, lo + 1) ==>
      Inside(Pass(xs[..n], r, lo), r) && SortedFrom(Pass(xs[..n], r, lo), r, lo)
  {
    var f := HistogramFault(xs, r, n, AlphabetSize, lo);
    NoTextOverrun(xs, r, n, AlphabetSize, lo);
    assert f.None? || f.value == KeyOverrun;
    if Below(r, AlphabetSize) {
      NoKeyOverrun(xs, r, n, AlphabetSize, lo);
    }
    if f.None? {
      KeysFit(xs, r, n, AlphabetSize, lo);
      BucketsPermutes(xs[..n], Keys(xs[..n], r, lo), AlphabetSize);
    }
    if SortedFrom(xs[..n], r, lo + 1) {
      BucketsSortedFrom(xs[..n], r, lo, AlphabetSize);
    }
  }

  /** The histogram loop's step: one more key, counted once. */
  lemma CountStep(xs: seq<int>, rs: seq<char>, i: nat, offset: int)
    requires i < |xs| && forall j :: 0 <= j <= i ==> 0 <= xs[j] + offset < |rs|
    ensures forall c :: (CountOf(Keys(xs[..i + 1], rs, offset), c) ==
      CountOf(Keys(xs[..i], rs, offset), c) + (if Code(rs[xs[i] + offset]) == c then 1 else 0))
  {
    var ks := Keys(xs[..i + 1], rs, offset);
    assert ks[..i] == Keys(xs[..i], rs, offset) && ks[..i + 1] == ks;
    forall c {
      CountOfStep(ks, i, c);
    }
  }

  /** The bucket of key `d` sits in `bs` at its start. */
  ghost predicate Laid(bs: seq<int>, xs: seq<int>, ks: seq<int>, d: nat)
    requires |ks| == |xs|
  {
    Start(ks, d) + CountOf(ks, d) <= |bs| && bs[Start(ks, d)..Start(ks, d) + CountOf(ks, d)] == Bucket(xs, ks, d)
  }

  /** The buckets, laid out one after another in `bs` from their starts, make up its prefix. */
  lemma {:induction false} Assemble(bs: seq<int>, xs: seq<int>, ks: seq<int>, c: nat)
    requires |ks| == |xs| && Start(ks, c) <= |bs|
    requires forall d :: 0 <= d < c ==> Laid(bs, xs, ks, d)
    ensures bs[..Start(ks, c)] == Buckets(xs, ks, c)
  {
    if c > 0 {
      Assemble(bs, xs, ks, c - 1);
      var lo := Start(ks, c - 1);
      var hi := lo + CountOf(ks, c - 1);
      assert Laid(bs, xs, ks, c - 1);
      assert bs[..hi] == bs[..lo] + bs[lo..hi];
    }
  }

  /** After `i` placements, the elements of `xs[..i]` with key `d` sit in `bs` from the start of `d`. */
  ghost predicate Filled(bs: seq<int>, xs: seq<int>, ks: seq<int>, i: nat, d: nat)
    requires |ks| == |xs| && i <= |xs|
  {
    Start(ks, d) + CountOf(ks[..i], d) <= |bs| &&
    bs[Start(ks, d)..Start(ks, d) + CountOf(ks[..i], d)] == Bucket(xs[..i], ks[..i], d)
  }

  /** Before any placement every bucket is empty. */
  lemma FilledNone(bs: seq<int>, xs: seq<int>, ks: seq<int>, K: nat, d: nat)
    requires |ks| == |xs| <= |bs| && d < K && forall j :: 0 <= j < |ks| ==> 0 <= ks[j] < K
    ensures Filled(bs, xs, ks, 0, d)
  {
    assert ks[..|ks|] == ks;
    StartMonotone(ks, d, K);
    StartTotal(ks, |ks|, K);
  }

  /** The next free cell of the bucket of `ks[i]` lies inside the output. */
  lemma PlaceBound(ks: seq<int>, i: nat, K: nat)
    requires i < |ks| && forall j :: 0 <= j < |ks| ==> 0 <= ks[j] < K
    ensures Start(ks, ks[i]) + CountOf(ks[..i], ks[i]) < Start(ks, ks[i]) + CountOf(ks, ks[i]) <= |ks|
  {
    assert ks[..|ks|] == ks;
    CountOfStep(ks, i, ks[i]);
    CountOfPrefix(ks, i + 1, |ks|, ks[i]);
    StartMonotone(ks, ks[i], K);
    StartTotal(ks, |ks|, K);
  }

  /** Writing `xs[i]` at the next free cell of its bucket keeps every bucket filled, one step further. */
  lemma FilledStep(bs: seq<int>, xs: seq<int>, ks: seq<int>, i: nat, K: nat, p: nat, d: nat)
    requires |ks| == |xs| && i < |xs| && forall j :: 0 <= j < |ks| ==> 0 <= ks[j] < K
    requires p == Start(ks, ks[i]) + CountOf(ks[..i], ks[i]) && p < |bs|
    requires d < K && Filled(bs, xs, ks, i, d)
    ensures Filled(bs[p := xs[i]], xs, ks, i + 1, d)
  {
    if d == ks[i] {
      FilledOwn(bs, xs, ks, i, p);
    } else {
      FilledOther(bs, xs, ks, i, K, p, d);
    }
  }

  /** The bucket of `ks[i]` grows by `xs[i]`. */
  lemma FilledOwn(bs: seq<int>, xs: seq<int>, ks: seq<int>, i: nat, p: nat)
    requires |ks| == |xs| && i < |xs| && 0 <= ks[i]
    requires p == Start(ks, ks[i]) + CountOf(ks[..i], ks[i]) && p < |bs|
    requires Filled(bs, xs, ks, i, ks[i])
    ensures Filled(bs[p := xs[i]], xs, ks, i + 1, ks[i])
  {
    CountOfStep(ks, i, ks[i]);
    BucketStep(xs, ks, i, ks[i]);
    SliceGrow(bs, Start(ks, ks[i]), CountOf(ks[..i], ks[i]), p, xs[i]);
  }

  /** Every other bucket is left as it was. */
  lemma FilledOther(bs: seq<int>, xs: seq<int>, ks: seq<int>, i: nat, K: nat, p: nat, d: nat)
    requires |ks| == |xs| && i < |xs| && forall j :: 0 <= j < |ks| ==> 0 <= ks[j] < K
    requires p == Start(ks, ks[i]) + CountOf(ks[..i], ks[i]) && p < |bs|
    requires d < K && d != ks[i] && Filled(bs, xs, ks, i, d)
    ensures Filled(bs[p := xs[i]], xs, ks, i + 1, d)
  {
    CountOfStep(ks, i, d);
    BucketStep(xs, ks, i, d);
    FilledApart(ks, i, K, p, d);
    SliceKeep(bs, Start(ks, d), Start(ks, d) + CountOf(ks[..i], d), p, xs[i]);
  }

  /** Writing `xs[i]` at the next free cell of its bucket keeps all buckets filled, one step further. */
  lemma FilledAllStep(bs: seq<int>, xs: seq<int>, ks: seq<int>, i: nat, K: nat, p: nat, after: seq<int>, next: nat)
    requires |ks| == |xs| && i < |xs| && forall j :: 0 <= j < |ks| ==> 0 <= ks[j] < K
    requires p == Start(ks, ks[i]) + CountOf(ks[..i], ks[i]) && p < |bs|
    requires forall d :: 0 <= d < K ==> Filled(bs, xs, ks, i, d)
    requires after == bs[p := xs[i]] && next == i + 1
    ensures forall d :: 0 <= d < K ==> Filled(after, xs, ks, next, d)
  {
    forall d | 0 <= d < K
      ensures Filled(after, xs, ks, next, d)
    {
      FilledStep(bs, xs, ks, i, K, p, d);
    }
  }

  /** The next free cell of the bucket of `ks[i]` lies outside the filled part of every other bucket. */
  lemma FilledApart(ks: seq<int>, i: nat, K: nat, p: nat, d: nat)
    requires i < |ks| && forall j :: 0 <= j < |ks| ==> 0 <= ks[j] < K
    requires p == Start(ks, ks[i]) + CountOf(ks[..i], ks[i]) && d != ks[i]
    ensures p < Start(ks, d) || Start(ks, d) + CountOf(ks[..i], d) <= p
  {
    assert ks[..|ks|] == ks;
    if d < ks[i] {
      CountOfPrefix(ks, i, |ks|, d);
      StartMonotone(ks, d, ks[i]);
    } else {
      CountOfStep(ks, i, ks[i]);
      CountOfPrefix(ks, i + 1, |ks|, ks[i]);
      StartMonotone(ks, ks[i], d);
    }
  }

  lemma SliceGrow(bs: seq<int>, lo: nat, m: nat, p: nat, v: int)
    requires lo + m == p < |bs|
    ensures bs[p := v][lo..lo + m + 1] == bs[lo..lo + m] + [v]
  {
    assert bs[p := v][lo..lo + m + 1] == bs[p := v][lo..lo + m] + [v];
  }

  lemma SliceKeep(bs: seq<int>, lo: nat, hi: nat, p: nat, v: int)
    requires lo <= hi <= |bs| && p < |bs| && (p < lo || hi <= p)
    ensures bs[p := v][lo..hi] == bs[lo..hi]
  {
  }

  /** Once all of `xs` is placed, each bucket is laid out at its start. */
  lemma FilledAll(bs: seq<int>, xs: seq<int>, ks: seq<int>, d: nat)
    requires |ks| == |xs| && Filled(bs, xs, ks, |xs|, d)
    ensures Laid(bs, xs, ks, d)
  {
    assert xs[..|xs|] == xs && ks[..|xs|] == ks;
  }

  /** When the keys fit, every key of the first `n` positions lies in 0..K-1. */
  lemma KeysFit(xs: seq<int>, r: seq<char>, n: nat, K: nat, offset: int)
    requires Fits(xs, r, n, K, offset)
    ensures forall j :: 0 <= j < n ==> 0 <= Keys(xs[..n], r, offset)[j] < K
  {
  }

  /** A `SuffixArraySanders` object. */
  class SuffixArraySanders {
    const text: string
    const textCharArray: array<char>
    /** Never assigned by the construction, so it stays `null`. */
    var suffixArray: array?<int>

    /** Lines 18-19 of the constructor: the text and its characters; `suffixArray` keeps its default `null`. */
    constructor(text: string)
      ensures this.text == text && textCharArray[..] == text && suffixArray == null
      ensures fresh(textCharArray)
    {
      this.text := text;
      textCharArray := new char[|text|](i requires 0 <= i < |text| => text[i]);
      suffixArray := null;
    }

    /**
     * The histogram loop of `radixPass`: `counts[c]` becomes the number of
     * positions among `a[0..n)` whose key is `c`, unless a read faults first.
     */
    method Histogram(a: array<int>, r: array<char>, n: nat, offset: int, counts: array<int>)
      returns (fault: Option<Fault>)
      requires a != counts && forall c :: 0 <= c < counts.Length ==> counts[c] == 0
      modifies counts
      ensures fault == HistogramFault(a[..], r[..], n, counts.Length, offset)
      ensures fault.None? ==> counts[..] == Counts(Keys(a[..n], r[..], offset), counts.Length)
    {
      ghost var xs, rs, K := a[..], r[..], counts.Length;
      for i := 0 to n
        invariant HistogramFault(xs, rs, i, K, offset).None?
        invariant forall c :: 0 <= c < K ==> counts[c] == CountOf(Keys(xs[..i], rs, offset), c)
      {
        var check :=
          if i >= a.Length then Some(PositionsOverrun)
          else if a[i] + offset < 0 || a[i] + offset >= r.Length then Some(TextOverrun)
          else if Code(r[a[i] + offset]) >= counts.Length then Some(KeyOverrun)
          else None;
        assert check == FaultAt(xs, rs, i, K, offset);
        if check.Some? {
          FirstFault(xs, rs, i, n, K, offset);
          return check;
        }
        CountStep(xs, rs, i, offset);
        var key := Code(r[a[i] + offset]);
        counts[key] := counts[key] + 1;
      }
      fault := None;
      assert xs[..n] == a[..n];
    }

    /**
     * The prefix loop of `radixPass`, run for i below `end`: each `counts[i]`
     * becomes the sum of the counts before it; reading `counts[end - 1]` past
     * the array faults after every cell has been rewritten.
     */
    method PrefixSums(counts: array<int>, end: nat) returns (fault: Option<Fault>)
      modifies counts
      ensures fault == if end <= counts.Length then None else Some(CountsOverrun)
      ensures forall c :: 0 <= c < counts.Length ==>
        counts[c] == if c < end then Sum(old(counts[..])[..c]) else old(counts[c])
    {
      ghost var h := counts[..];
      var sum := 0;
      for i := 0 to end
        invariant i <= counts.Length
        invariant sum == Sum(h[..i])
        invariant forall c :: 0 <= c < counts.Length ==> counts[c] == if c < i then Sum(h[..c]) else h[c]
      {
        if i >= counts.Length {
          return Some(CountsOverrun);
        }
        assert h[..i + 1][..i] == h[..i];
        var t := counts[i];
        counts[i] := sum;
        sum := sum + t;
      }
      fault := None;
    }

    /**
     * The placement loop of `radixPass`: with `counts` holding the bucket
     * starts, each position goes to the next free cell of its key's bucket,
     * so `b[0..n)` receives the positions ordered stably by key.
     */
    method Place(a: array<int>, b: array<int>, r: array<char>, n: nat, offset: int, counts: array<int>)
      requires a != b && counts != a && counts != b
      requires n <= b.Length && Fits(a[..], r[..], n, counts.Length, offset)
      requires forall c :: 0 <= c < counts.Length ==> counts[c] == Start(Keys(a[..n], r[..], offset), c)
      modifies b, counts
      ensures b[..n] == Buckets(a[..n], Keys(a[..n], r[..], offset), counts.Length)
      ensures b[n..] == old(b[n..])
      ensures forall c :: 0 <= c < counts.Length ==> counts[c] == Start(Keys(a[..n], r[..], offset), c + 1)
    {
      ghost var xs, K := a[..n], counts.Length;
      ghost var ks := Keys(xs, r[..], offset);
      ghost var tail := b[n..];
      KeysFit(a[..], r[..], n, K, offset);
      forall c | 0 <= c < K
        ensures Filled(b[..], xs, ks, 0, c)
      {
        FilledNone(b[..], xs, ks, K, c);
      }
      for i := 0 to n
        invariant forall c :: 0 <= c < K ==> counts[c] == Start(ks, c) + CountOf(ks[..i], c)
        invariant forall c :: 0 <= c < K ==> Filled(b[..], xs, ks, i, c)
        invariant b[n..] == tail
      {
        PlaceAt(a, b, r, n, offset, counts, i, i + 1, xs, ks);
      }
      forall c | 0 <= c < K
        ensures Laid(b[..], xs, ks, c)
      {
        FilledAll(b[..], xs, ks, c);
      }
      assert ks[..n] == ks;
      StartTotal(ks, n, K);
      Assemble(b[..], xs, ks, K);
    }

    /** One step of the placement loop: `b[counts[key]++] = a[i]`. */
    method PlaceAt(a: array<int>, b: array<int>, r: array<char>, n: nat, offset: int, counts: array<int>,
                   i: nat, ghost next: nat, ghost xs: seq<int>, ghost ks: seq<int>)
      requires a != b && counts != a && counts != b && i < n <= b.Length && next == i + 1
      requires Fits(a[..], r[..], n, counts.Length, offset)
      requires xs == a[..n] && ks == Keys(xs, r[..], offset)
      requires forall j :: 0 <= j < n ==> 0 <= ks[j] < counts.Length
      requires forall c :: 0 <= c < counts.Length ==> counts[c] == Start(ks, c) + CountOf(ks[..i], c)
      requires forall c :: 0 <= c < counts.Length ==> Filled(b[..], xs, ks, i, c)
      modifies b, counts
      ensures forall c :: 0 <= c < counts.Length ==> counts[c] == Start(ks, c) + CountOf(ks[..next], c)
      ensures forall c :: 0 <= c < counts.Length ==> Filled(b[..], xs, ks, next, c)
      ensures b[n..] == old(b[n..])
    {
      var key := Code(r[a[i] + offset]);
      assert key == ks[i];
      PlaceBound(ks, i, counts.Length);
      ghost var bs := b[..];
      var p := counts[key];
      counts[key] := p + 1;
      b[p] := a[i];
      assert b[..] == bs[p := xs[i]];
      FilledAllStep(bs, xs, ks, i, counts.Length, p, b[..], next);
      forall c | 0 <= c < counts.Length
        ensures counts[c] == Start(ks, c) + CountOf(ks[..next], c)
      {
        CountOfStep(ks, i, c);
      }
    }

    /**
     * `radixPass` as written: after a clean histogram the prefix loop, run
     * for i up to and including `K`, reads `counts[K]` and faults, so the
     * placement loop is never reached and `b` is never written.
     */
    method RadixPass(a: array<int>, b: array<int>, r: array<char>, n: nat, K: nat, offset: int)
      returns (fault: Option<Fault>)
      ensures fault == if HistogramFault(a[..], r[..], n, K, offset).Some?
                       then HistogramFault(a[..], r[..], n, K, offset) else Some(CountsOverrun)
    {
      var counts := new int[K](_ => 0);
      fault := Histogram(a, r, n, offset, counts);
      if fault.Some? {
        return;
      }
      fault := PrefixSums(counts, K + 1);
    }

    /**
     * `radixPass` with the prefix loop stopped at `K`: unless a read faults,
     * `b[0..n)` receives `a[0..n)` ordered stably by the key `offset` places on.
     */
    method RadixPassCorrected(a: array<int>, b: array<int>, r: array<char>, n: nat, K: nat, offset: int)
      returns (fault: Option<Fault>)
      requires a != b && n <= b.Length
      modifies b
      ensures fault == HistogramFault(a[..], r[..], n, K, offset)
      ensures fault.None? ==> b[..n] == Buckets(a[..n], Keys(a[..n], r[..], offset), K)
      ensures fault.None? ==> b[n..] == old(b[n..])
      ensures fault.Some? ==> b[..] == old(b[..])
    {
      var counts := new int[K](_ => 0);
      fault := Histogram(a, r, n, offset, counts);
      if fault.Some? {
        return;
      }
      ghost var ks := Keys(a[..n], r[..], offset);
      var sumFault := PrefixSums(counts, K);
      forall c | 0 <= c < K
        ensures counts[c] == Start(ks, c)
      {
        SumCounts(ks, K, c);
      }
      Place(a, b, r, n, offset, counts);
    }

    /**
     * Lines 24-37 of the build: the sizes, `s12` allocated with three spare
     * zero cells, and the sampled positions written into its first `n02`.
     */
    method SamplePositions(n: nat) returns (s12: array<int>, n02: nat)
      ensures fresh(s12) && n02 == |Sample(n)| && s12.Length == n02 + 3
      ensures s12[..n02] == Sample(n) && s12[n02..] == [0, 0, 0]
    {
      var n0 := (n + 2) / 3;
      var n1 := (n + 1) / 3;
      var n2 := n / 3;
      n02 := n0 + n2;
      s12 := new int[n02 + 3](_ => 0);
      var m := n + (n0 - n1);
      Mod12Length(m);
      assert Sample(n) == Mod12(m);
      var count := GeneratePositions(s12, m);
      assert count == n02;
      assert s12[n02..] == [0, 0, 0];
    }

    /**
     * The generation loop: `s12[0..j)` receives the positions below `m` off
     * the multiples of 3, in increasing order; the rest of `s12` is untouched.
     */
    method GeneratePositions(s12: array<int>, m: nat) returns (j: nat)
      requires |Mod12(m)| <= s12.Length
      modifies s12
      ensures j == |Mod12(m)| && s12[..j] == Mod12(m)
      ensures s12[j..] == old(s12[j..])
    {
      ghost var h := s12[..];
      j := 0;
      for i := 0 to m
        invariant j == |Mod12(i)| <= |Mod12(m)|
        invariant s12[..j] == Mod12(i)
        invariant forall p :: j <= p < s12.Length ==> s12[p] == h[p]
      {
        Mod12Grows(i + 1, m);
        assert Mod12(i + 1) == Mod12(i) + (if i % 3 != 0 then [i] else []);
        if i % 3 != 0 {
          ghost var pre := s12[..j];
          s12[j] := i;
          assert s12[..j + 1] == pre + [i];
          j := j + 1;
        }
      }
      assert s12[j..] == h[j..];
    }

    /** The characters of the object are those of its text. */
    ghost predicate Valid()
      reads this, textCharArray
    {
      textCharArray[..] == text
    }

    /**
     * `buildSuffixArray` as written. The first pass reads `r[s12[i] + 2]`,
     * and the last mod-1/mod-2 position plus 2 lies at or past the end of
     * the unpadded text, so a nonempty text always faults there (or earlier,
     * on a character of code 256 or more); on the empty text the pass's
     * prefix loop faults. The later passes are never reached.
     */
    method BuildSuffixArray() returns (fault: Option<Fault>)
      requires Valid()
      ensures fault.Some?
      ensures |text| == 0 ==> fault == Some(CountsOverrun)
      ensures |text| > 0 ==> fault == Some(TextOverrun) || fault == Some(KeyOverrun)
      ensures |text| > 0 && Below(text, AlphabetSize) ==> fault == Some(TextOverrun)
    {
      var s12, n02 := SamplePositions(textCharArray.Length);
      var sa12 := new int[n02 + 3](_ => 0);
      FirstPassFaults(s12[..], textCharArray[..], n02);
      fault := RadixPass(s12, sa12, textCharArray, n02, AlphabetSize, 2);
    }

    /**
     * The build as evidently intended: the text padded with three zero
     * characters and the corrected pass. Only a character of code 256 or
     * more can make it fault; otherwise `SA12[0..n02)` ends up holding the
     * sampled positions ordered by their triples.
     */
    method BuildCorrected() returns (fault: Option<Fault>, sa12: array<int>, n02: nat)
      requires Valid()
      ensures n02 == |Sample(|text|)| && sa12.Length == n02 + 3
      ensures fault == None || fault == Some(KeyOverrun)
      ensures Below(text, AlphabetSize) ==> fault == None
      ensures fault == None ==> Arranged(sa12[..n02], Padded(text), 0, Sample(|text|))
    {
      var n := textCharArray.Length;
      var r := new char[n + 3](i requires 0 <= i < n + 3 reads textCharArray => if i < n then textCharArray[i] else '\0');
      ghost var pad := Padded(text);
      assert r[..] == pad;
      var s12;
      s12, n02 := SamplePositions(n);
      sa12 := new int[n02 + 3](_ => 0);
      ghost var s0 := s12[..n02];
      if Below(text, AlphabetSize) {
        PaddedFits(text);
      }
      SampleInside(text);
      SortedFromEnd(s0, pad);
      assert Arranged(s0, pad, 3, s0);
      fault := SortTriples(s12, sa12, r, n02, s0);
    }

    /**
     * The three corrected passes, by the codes at offsets 2, 1 and 0: the
     * positions in `s12[0..n02)` come out in `sa12[0..n02)` sorted by their
     * whole triples, unless a code of 256 or more faults.
     */
    method SortTriples(s12: array<int>, sa12: array<int>, r: array<char>, n02: nat, ghost s: seq<int>)
      returns (fault: Option<Fault>)
      requires s12 != sa12 && n02 <= s12.Length && n02 <= sa12.Length
      requires Arranged(s12[..n02], r[..], 3, s)
      modifies s12, sa12
      ensures fault == None || fault == Some(KeyOverrun)
      ensures Below(r[..], AlphabetSize) ==> fault == None
      ensures fault == None ==> Arranged(sa12[..n02], r[..], 0, s)
    {
      fault := TriplePass(s12, sa12, r, n02, 2, s);
      if fault.Some? {
        return;
      }
      fault := TriplePass(sa12, s12, r, n02, 1, s);
      if fault.Some? {
        return;
      }
      fault := TriplePass(s12, sa12, r, n02, 0, s);
    }

    /**
     * One pass of the corrected build: positions ordered from offset
     * `lo + 1` on come out in `b`, permuted and ordered from `lo` on,
     * unless a code of 256 or more faults.
     */
    method TriplePass(a: array<int>, b: array<int>, r: array<char>, n: nat, lo: nat, ghost s: seq<int>)
      returns (fault: Option<Fault>)
      requires a != b && lo < 3 && n <= a.Length && n <= b.Length
      requires Arranged(a[..n], r[..], lo + 1, s)
      modifies b
      ensures fault == None || fault == Some(KeyOverrun)
      ensures Below(r[..], AlphabetSize) ==> fault == None
      ensures fault == None ==> Arranged(b[..n], r[..], lo, s)
    {
      PassOutcome(a[..], r[..], n, lo);
      assert a[..][..n] == a[..n];
      fault := RadixPassCorrected(a, b, r, n, AlphabetSize, lo);
    }
  }

  /**
   * `new SuffixArraySanders(text)`: the constructor runs the build, which
   * always throws, so no object is ever handed back.
   */
  method Construct(text: string) returns (fault: Option<Fault>)
    ensures fault.Some?
    ensures |text| == 0 ==> fault == Some(CountsOverrun)
    ensures |text| > 0 ==> fault == Some(TextOverrun) || fault == Some(KeyOverrun)
    ensures |text| > 0 && Below(text, AlphabetSize) ==> fault == Some(TextOverrun)
  {
    var built := new SuffixArraySanders(text);
    fault := built.BuildSuffixArray();
  }
}
