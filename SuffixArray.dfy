/**
 * The prefix-doubling suffix array of `SuffixArray.java`. Every suffix of the
 * text carries a pair of ranks; after sorting by the pair, the first ranks are
 * renumbered densely, each second rank becomes the new rank of the suffix
 * `k/2` positions later, and the array is sorted again, for k = 4, 8, ... while
 * k < 2n. The start positions in the final order are the suffix array.
 */
module SuffixArray {

  /**
   * A `Suffix` object: its start in the text and its current pair of ranks.
   * The start is never negative, so it is a `nat` here.
   */
  datatype Suffix = Suffix(charIndex: nat, firstRank: int, secondRank: int)

  /** `(int) c`: the code of a character. */
  function Code(c: char): int
  {
    c as int
  }

  /** `Integer.compare`: -1, 0 or 1 as `x` is below, equal to or above `y`. */
  function IntegerCompare(x: int, y: int): (r: int)
    ensures -1 <= r <= 1
    ensures r < 0 <==> x < y
    ensures r == 0 <==> x == y
  {
    if x < y then -1 else if x == y then 0 else 1
  }

  /** Two suffixes carry the same pair of ranks. */
  predicate SameKey(a: Suffix, b: Suffix)
  {
    a.firstRank == b.firstRank && a.secondRank == b.secondRank
  }

  /** The lexicographic order on rank pairs: first rank, then second rank. */
  predicate KeyLe(a: Suffix, b: Suffix)
  {
    a.firstRank < b.firstRank || (a.firstRank == b.firstRank && a.secondRank <= b.secondRank)
  }

  /**
   * `SuffixComparator.compare`: the comparator's sign is the pair order, it is
   * zero exactly on equal pairs, and swapping the arguments swaps the sign.
   */
  function Compare(first: Suffix, second: Suffix): (r: int)
    ensures -1 <= r <= 1
    ensures r == 0 <==> SameKey(first, second)
    ensures r <= 0 <==> KeyLe(first, second)
    ensures r >= 0 <==> KeyLe(second, first)
  {
    if first.firstRank == second.firstRank then IntegerCompare(first.secondRank, second.secondRank)
    else IntegerCompare(first.firstRank, second.firstRank)
  }

  /** Ordered by the comparator. */
  ghost predicate Sorted(s: seq<Suffix>)
  {
    forall i, j :: 0 <= i < j < |s| ==> KeyLe(s[i], s[j])
  }

  /** The start positions, in array order. */
  function CharIndices(s: seq<Suffix>): (r: seq<int>)
    ensures |r| == |s|
    ensures forall i :: 0 <= i < |s| ==> r[i] == s[i].charIndex
  {
    seq(|s|, i requires 0 <= i < |s| => s[i].charIndex)
  }

  lemma CharIndicesCons(x: Suffix, t: seq<Suffix>)
    ensures CharIndices([x] + t) == [x.charIndex] + CharIndices(t)
  {
    assert ([x] + t)[1..] == t;
  }

  /**
   * One step of the stable sort that models `Arrays.sort`: `x` goes before the
   * first element it does not exceed, so it stays ahead of its equals.
   */
  function Insert(x: Suffix, t: seq<Suffix>): seq<Suffix>
  {
    if t == [] || Compare(x, t[0]) <= 0 then [x] + t
    else [t[0]] + Insert(x, t[1..])
  }

  lemma {:induction false} InsertPermutes(x: Suffix, t: seq<Suffix>)
    ensures multiset(Insert(x, t)) == multiset([x] + t)
    decreases |t|
  {
    if t != [] && Compare(x, t[0]) > 0 {
      InsertPermutes(x, t[1..]);
      assert t == [t[0]] + t[1..];
    }
  }

  lemma {:induction false} InsertKeepsStarts(x: Suffix, t: seq<Suffix>)
    ensures multiset(CharIndices(Insert(x, t))) == multiset(CharIndices([x] + t))
    decreases |t|
  {
    if t != [] && Compare(x, t[0]) > 0 {
      InsertKeepsStarts(x, t[1..]);
      assert t == [t[0]] + t[1..];
      CharIndicesCons(x, t);
      CharIndicesCons(t[0], Insert(x, t[1..]));
      CharIndicesCons(x, t[1..]);
      CharIndicesCons(t[0], t[1..]);
    }
  }

  lemma {:induction false} InsertSorted(x: Suffix, t: seq<Suffix>)
    requires Sorted(t)
    ensures Sorted(Insert(x, t))
    decreases |t|
  {
    if t != [] && Compare(x, t[0]) > 0 {
      var rest := Insert(x, t[1..]);
      InsertSorted(x, t[1..]);
      InsertPermutes(x, t[1..]);
      forall e | e in rest ensures KeyLe(t[0], e) {
        assert e in multiset(rest);
      }
      assert Sorted([t[0]] + rest);
    }
  }

  /**
   * `Arrays.sort(suffixArray, new SuffixComparator())`, as a stable insertion
   * sort: the result is a permutation of the input; `SortSorted` and
   * `SortStable` state its order.
   */
  function Sort(s: seq<Suffix>): (r: seq<Suffix>)
    ensures multiset(r) == multiset(s)
  {
    if s == [] then []
    else
      assert s == [s[0]] + s[1..];
      InsertPermutes(s[0], Sort(s[1..]));
      Insert(s[0], Sort(s[1..]))
  }

  /** The sort keeps the multiset of starts. */
  lemma {:induction false} SortKeepsStarts(s: seq<Suffix>)
    ensures multiset(CharIndices(Sort(s))) == multiset(CharIndices(s))
  {
    if s != [] {
      assert s == [s[0]] + s[1..];
      SortKeepsStarts(s[1..]);
      CharIndicesCons(s[0], s[1..]);
      CharIndicesCons(s[0], Sort(s[1..]));
      InsertKeepsStarts(s[0], Sort(s[1..]));
    }
  }

  /** The sort orders its result by the comparator. */
  lemma {:induction false} SortSorted(s: seq<Suffix>)
    ensures Sorted(Sort(s))
  {
    if s != [] {
      SortSorted(s[1..]);
      InsertSorted(s[0], Sort(s[1..]));
    }
  }

  /** The elements of `s` that carry the same pair of ranks as `a`, in order. */
  function WithKey(s: seq<Suffix>, a: Suffix): (r: seq<Suffix>)
    ensures forall e :: e in r ==> SameKey(e, a)
  {
    if s == [] then [] else (if SameKey(s[0], a) then [s[0]] else []) + WithKey(s[1..], a)
  }

  lemma {:induction false} WithKeyAppend(u: seq<Suffix>, v: seq<Suffix>, a: Suffix)
    ensures WithKey(u + v, a) == WithKey(u, a) + WithKey(v, a)
    decreases |u|
  {
    if u == [] {
      assert u + v == v;
    } else {
      assert (u + v)[1..] == u[1..] + v;
      WithKeyAppend(u[1..], v, a);
    }
  }

  lemma {:induction false} InsertStable(x: Suffix, t: seq<Suffix>, a: Suffix)
    requires Sorted(t)
    ensures WithKey(Insert(x, t), a) == WithKey([x] + t, a)
    decreases |t|
  {
    if t == [] || Compare(x, t[0]) <= 0 {
    } else {
      assert Sorted(t[1..]);
      InsertStable(x, t[1..], a);
      WithKeyAppend([t[0]], Insert(x, t[1..]), a);
      WithKeyAppend([x], t[1..], a);
      WithKeyAppend([x], t, a);
      assert t == [t[0]] + t[1..];
      WithKeyAppend([t[0]], t[1..], a);
      assert !(SameKey(x, a) && SameKey(t[0], a));
    }
  }

  /** The sort is stable: the suffixes with any one pair of ranks keep their relative order. */
  lemma {:induction false} SortStable(s: seq<Suffix>, a: Suffix)
    ensures WithKey(Sort(s), a) == WithKey(s, a)
    decreases |s|
  {
    if s != [] {
      SortSorted(s[1..]);
      InsertStable(s[0], Sort(s[1..]), a);
      SortStable(s[1..], a);
      WithKeyAppend([s[0]], Sort(s[1..]), a);
      WithKeyAppend([s[0]], s[1..], a);
      assert s == [s[0]] + s[1..];
    }
  }

  /**
   * `a` comes lexicographically no later than `b`, a proper prefix first: the
   * order of `String.compareTo` on code units.
   */
  predicate LexLe(a: string, b: string)
    decreases |a|
  {
    |a| == 0 || (|b| > 0 && (a[0] < b[0] || (a[0] == b[0] && LexLe(a[1..], b[1..]))))
  }

  lemma {:induction false} LexTotal(a: string, b: string)
    ensures LexLe(a, b) || LexLe(b, a)
    decreases |a|
  {
    if |a| > 0 && |b| > 0 && a[0] == b[0] {
      LexTotal(a[1..], b[1..]);
    }
  }

  lemma {:induction false} LexAntisymmetric(a: string, b: string)
    requires LexLe(a, b) && LexLe(b, a)
    ensures a == b
    decreases |a|
  {
    if |a| > 0 {
      LexAntisymmetric(a[1..], b[1..]);
      assert a == [a[0]] + a[1..] && b == [b[0]] + b[1..];
    }
  }

  /**
   * Comparing two strings that are each a block of length `len` (or shorter,
   * with nothing after it) followed by a tail: the blocks decide, and on
   * equal blocks the tails do.
   */
  lemma {:induction false} LexConcat(a1: string, b1: string, a2: string, b2: string, len: nat)
    requires |a1| <= len && |a2| <= len
    requires |a1| == len || b1 == []
    requires |a2| == len || b2 == []
    ensures LexLe(a1 + b1, a2 + b2) <==> (LexLe(a1, a2) && a1 != a2) || (a1 == a2 && LexLe(b1, b2))
    decreases |a1|
  {
    if a1 == [] && a2 == [] {
      assert a1 + b1 == b1 && a2 + b2 == b2;
    } else if a1 == [] {
      assert a1 + b1 == [];
    } else if a2 == [] {
      assert a2 + b2 == [];
    } else {
      assert (a1 + b1)[0] == a1[0] && (a2 + b2)[0] == a2[0];
      assert (a1 + b1)[1..] == a1[1..] + b1 && (a2 + b2)[1..] == a2[1..] + b2;
      LexConcat(a1[1..], b1, a2[1..], b2, len - 1);
      if a1[0] == a2[0] {
        assert a1 == [a1[0]] + a1[1..] && a2 == [a2[0]] + a2[1..];
      }
    }
  }

  lemma {:induction false} LexReflexive(a: string)
    ensures LexLe(a, a)
    decreases |a|
  {
    if |a| > 0 {
      LexReflexive(a[1..]);
    }
  }

  /** The strict order: `LexLe` and different. */
  predicate LexLess(a: string, b: string)
  {
    LexLe(a, b) && a != b
  }

  function Min(x: int, y: int): int
  {
    if x <= y then x else y
  }

  /** The first `len` characters of the suffix at `c`, or all of it when it is shorter. */
  function Prefix(t: string, c: nat, len: nat): string
    requires c <= |t|
  {
    t[c..Min(c + len, |t|)]
  }

  /** Every start lies below `n`. */
  ghost predicate InRange(s: seq<Suffix>, n: nat)
  {
    forall i :: 0 <= i < |s| ==> s[i].charIndex < n
  }

  /** No start occurs twice. */
  ghost predicate Distinct(s: seq<Suffix>)
  {
    forall i, j :: 0 <= i < j < |s| ==> s[i].charIndex != s[j].charIndex
  }

  /** 0, 1, ..., n-1. */
  function Range(n: nat): (r: seq<int>)
    ensures |r| == n && forall i :: 0 <= i < n ==> r[i] == i
  {
    seq(n, i => i)
  }

  /** The starts of `s` are exactly 0, 1, ..., n-1, each once. */
  ghost predicate Perm(s: seq<Suffix>, n: nat)
  {
    multiset(CharIndices(s)) == multiset(Range(n))
  }

  lemma {:induction false} RangeCount(n: nat, v: int)
    ensures multiset(Range(n))[v] == if 0 <= v < n then 1 else 0
  {
    if n > 0 {
      assert Range(n) == Range(n - 1) + [n - 1];
      RangeCount(n - 1, v);
      RangeCount(n - 1, n - 1);
    }
  }

  /** A permutation of 0..n-1 has n entries, in range, distinct, and every one of them. */
  lemma PermFacts(s: seq<Suffix>, n: nat)
    requires Perm(s, n)
    ensures |s| == n && InRange(s, n) && Distinct(s)
    ensures forall c :: 0 <= c < n ==> c in CharIndices(s)
  {
    var q := CharIndices(s);
    assert |multiset(q)| == |q| && |multiset(Range(n))| == n;
    forall i | 0 <= i < |s| ensures s[i].charIndex < n {
      assert q[i] in multiset(Range(n));
      RangeCount(n, q[i]);
    }
    PermDistinct(s, n);
    forall c | 0 <= c < n ensures c in q {
      RangeCount(n, c);
      assert c in multiset(q);
    }
  }

  lemma PermDistinct(s: seq<Suffix>, n: nat)
    requires Perm(s, n)
    ensures Distinct(s)
  {
    var q := CharIndices(s);
    forall i, j | 0 <= i < j < |s| ensures s[i].charIndex != s[j].charIndex {
      if q[i] == q[j] {
        assert q == q[..i] + [q[i]] + q[i + 1..];
        assert q[j] in multiset(q[i + 1..]) by {
          assert q[i + 1..][j - i - 1] == q[j];
        }
        assert multiset(q)[q[i]] >= 2;
        RangeCount(n, q[i]);
      }
    }
  }

  /**
   * The first ranks the re-ranking loop gives the sorted suffixes, one per
   * suffix; `DenseRankAt` states them.
   */
  function DenseRanks(s: seq<Suffix>): (r: seq<int>)
    ensures |r| == |s|
    decreases |s|
  {
    if |s| == 0 then []
    else if |s| == 1 then [0]
    else
      var r := DenseRanks(s[..|s| - 1]);
      r + [r[|r| - 1] + (if SameKey(s[|s| - 1], s[|s| - 2]) then 0 else 1)]
  }

  /**
   * The first suffix gets rank 0; every later one its predecessor's new
   * rank, one more exactly when its old pair of ranks differs from the
   * predecessor's.
   */
  lemma {:induction false} DenseRankAt(s: seq<Suffix>, i: nat)
    requires i < |s|
    ensures i == 0 ==> DenseRanks(s)[i] == 0
    ensures i > 0 ==> DenseRanks(s)[i] == DenseRanks(s)[i - 1] + (if SameKey(s[i], s[i - 1]) then 0 else 1)
    decreases |s|
  {
    if |s| > 1 && i < |s| - 1 {
      var p := s[..|s| - 1];
      DenseRankAt(p, i);
      assert p[i] == s[i];
      if i > 0 {
        assert p[i - 1] == s[i - 1];
      }
    }
  }

  lemma {:induction false} DenseRankBound(s: seq<Suffix>, i: nat)
    requires i < |s|
    ensures 0 <= DenseRanks(s)[i] <= i
  {
    DenseRankAt(s, i);
    if i > 0 {
      DenseRankBound(s, i - 1);
    }
  }

  /** The new ranks are nondecreasing along the array and lie in 0..n-1. */
  lemma DenseRanksBounds(s: seq<Suffix>)
    ensures forall i :: 0 <= i < |s| ==> 0 <= DenseRanks(s)[i] < |s|
    ensures forall i, j :: 0 <= i <= j < |s| ==> DenseRanks(s)[i] <= DenseRanks(s)[j]
  {
    forall i | 0 <= i < |s| ensures 0 <= DenseRanks(s)[i] < |s| {
      DenseRankBound(s, i);
    }
    forall i, j | 0 <= i <= j < |s| ensures DenseRanks(s)[i] <= DenseRanks(s)[j] {
      DenseRankMonotone(s, i, j);
    }
  }

  lemma {:induction false} DenseRankMonotone(s: seq<Suffix>, i: nat, j: nat)
    requires i <= j < |s|
    ensures DenseRanks(s)[i] <= DenseRanks(s)[j]
    decreases j - i
  {
    if i < j {
      DenseRankAt(s, j);
      DenseRankMonotone(s, i, j - 1);
    }
  }

  lemma {:induction false} DenseRankSteps(s: seq<Suffix>, i: nat, j: nat)
    requires Sorted(s) && i <= j < |s|
    ensures DenseRanks(s)[i] <= DenseRanks(s)[j]
    ensures DenseRanks(s)[i] == DenseRanks(s)[j] <==> SameKey(s[i], s[j])
    decreases j - i
  {
    if i < j {
      DenseRankAt(s, j);
      DenseRankSteps(s, i, j - 1);
      assert KeyLe(s[j - 1], s[j]);
      if i < j - 1 {
        assert KeyLe(s[i], s[j - 1]);
      }
    }
  }

  /**
   * On a sorted array the new ranks follow the comparator: one suffix's rank
   * is at most another's exactly when its pair of ranks is.
   */
  lemma DenseRanksOrder(s: seq<Suffix>)
    requires Sorted(s)
    ensures forall i :: 0 <= i < |s| ==> 0 <= DenseRanks(s)[i]
    ensures forall i, j :: 0 <= i < |s| && 0 <= j < |s| ==>
              (DenseRanks(s)[i] <= DenseRanks(s)[j] <==> KeyLe(s[i], s[j]))
  {
    forall i | 0 <= i < |s| ensures 0 <= DenseRanks(s)[i] {
      DenseRankBound(s, i);
    }
    forall i, j | 0 <= i < |s| && 0 <= j < |s|
      ensures DenseRanks(s)[i] <= DenseRanks(s)[j] <==> KeyLe(s[i], s[j])
    {
      DenseRankPair(s, i, j);
    }
  }

  lemma DenseRankPair(s: seq<Suffix>, i: nat, j: nat)
    requires Sorted(s) && i < |s| && j < |s|
    ensures DenseRanks(s)[i] <= DenseRanks(s)[j] <==> KeyLe(s[i], s[j])
  {
    if i <= j {
      DenseRankSteps(s, i, j);
      if i < j {
        assert KeyLe(s[i], s[j]);
      }
    } else {
      DenseRankSteps(s, j, i);
      assert KeyLe(s[j], s[i]);
    }
  }

  /** The array after the re-ranking loop: each suffix gets its new first rank. */
  function Relabel(s: seq<Suffix>, ranks: seq<int>): (r: seq<Suffix>)
    requires |ranks| == |s|
    ensures |r| == |s| && CharIndices(r) == CharIndices(s)
  {
    seq(|s|, i requires 0 <= i < |s| => s[i].(firstRank := ranks[i]))
  }

  /**
   * `indicesRanks` after the re-ranking loop: starting from `base`, the entry
   * at each suffix's start is overwritten, in array order, with its new rank.
   */
  function Scatter(base: seq<int>, s: seq<Suffix>, ranks: seq<int>): (r: seq<int>)
    requires |ranks| == |s| && InRange(s, |base|)
    ensures |r| == |base|
    decreases |s|
  {
    if s == [] then base
    else Scatter(base, s[..|s| - 1], ranks[..|s| - 1])[s[|s| - 1].charIndex := ranks[|s| - 1]]
  }

  /** The re-ranking loop's update of `indicesRanks` at position `i`. */
  lemma ScatterStep(base: seq<int>, s: seq<Suffix>, ranks: seq<int>, i: nat)
    requires |ranks| == |s| && InRange(s, |base|) && i < |s|
    ensures Scatter(base, s[..i + 1], ranks[..i + 1]) == Scatter(base, s[..i], ranks[..i])[s[i].charIndex := ranks[i]]
  {
    assert s[..i + 1][..i] == s[..i] && ranks[..i + 1][..i] == ranks[..i];
  }

  /** With distinct starts, `indicesRanks` maps each suffix's start to its new rank. */
  lemma {:induction false} ScatterAt(base: seq<int>, s: seq<Suffix>, ranks: seq<int>, i: nat)
    requires |ranks| == |s| && InRange(s, |base|) && Distinct(s) && i < |s|
    ensures Scatter(base, s, ranks)[s[i].charIndex] == ranks[i]
    decreases |s|
  {
    if i < |s| - 1 {
      ScatterAt(base, s[..|s| - 1], ranks[..|s| - 1], i);
    }
  }

  /**
   * The array after the second-rank loop: each suffix's second rank becomes
   * the entry of `ranks` `h` positions after its start, or -1 past the end.
   */
  function Refresh(s: seq<Suffix>, ranks: seq<int>, h: nat): (r: seq<Suffix>)
    ensures |r| == |s| && CharIndices(r) == CharIndices(s)
  {
    seq(|s|, i requires 0 <= i < |s| =>
      s[i].(secondRank := if s[i].charIndex + h < |ranks| then ranks[s[i].charIndex + h] else -1))
  }

  /**
   * `rk` ranks the suffixes by their first `len` characters: never negative,
   * and one start's rank is at most another's exactly when its prefix is
   * lexicographically at most the other's.
   */
  ghost predicate RankFaithful(t: string, rk: seq<int>, len: nat)
  {
    && |rk| == |t|
    && (forall c :: 0 <= c < |t| ==> 0 <= rk[c])
    && (forall c, d :: 0 <= c < |t| && 0 <= d < |t| ==>
          (rk[c] <= rk[d] <==> LexLe(Prefix(t, c, len), Prefix(t, d, len))))
  }

  /** The pairs of ranks in `s` order the suffixes by their first `len` characters. */
  ghost predicate KeysFaithful(t: string, s: seq<Suffix>, len: nat)
  {
    && InRange(s, |t|)
    && (forall i, j :: 0 <= i < |s| && 0 <= j < |s| ==>
          (KeyLe(s[i], s[j]) <==> LexLe(Prefix(t, s[i].charIndex, len), Prefix(t, s[j].charIndex, len))))
  }

  /** Each suffix in `s` carries the ranks `rk` gives its start and the start `len` later (-1 past the end). */
  ghost predicate Paired(s: seq<Suffix>, rk: seq<int>, len: nat)
  {
    forall i :: 0 <= i < |s| ==>
      && s[i].charIndex < |rk|
      && s[i].firstRank == rk[s[i].charIndex]
      && s[i].secondRank == SecondRank(rk, len, s[i].charIndex)
  }

  /** The second rank the refresh loop gives the suffix at `c`: the rank `len` positions later, or -1. */
  function SecondRank(rk: seq<int>, len: nat, c: nat): int
  {
    if c + len < |rk| then rk[c + len] else -1
  }

  /** The characters `len` to `2 * len` of the suffix at `c`. */
  function Tail(t: string, len: nat, c: nat): string
    requires c <= |t|
  {
    if c + len < |t| then Prefix(t, c + len, len) else []
  }

  /** The first `2 * len` characters are the first `len` followed by the next `len`. */
  lemma PrefixSplit(t: string, c: nat, len: nat)
    requires c <= |t|
    ensures Prefix(t, c, 2 * len) == Prefix(t, c, len) + Tail(t, len, c)
  {
    if c + len < |t| {
      assert t[c..Min(c + 2 * len, |t|)] == t[c..c + len] + t[c + len..Min(c + 2 * len, |t|)];
    }
  }

  /** Pairs of faithful ranks compare as block-then-tail strings do. */
  lemma PairValues(ac: string, bc: string, ad: string, bd: string, len: nat, x: int, y: int, sx: int, sy: int)
    requires |ac| <= len && |ad| <= len && (|ac| == len || bc == []) && (|ad| == len || bd == [])
    requires x <= y <==> LexLe(ac, ad)
    requires y <= x <==> LexLe(ad, ac)
    requires sx <= sy <==> LexLe(bc, bd)
    ensures (x < y || (x == y && sx <= sy)) <==> LexLe(ac + bc, ad + bd)
  {
    LexConcat(ac, bc, ad, bd, len);
    LexReflexive(ac);
    if LexLe(ac, ad) && LexLe(ad, ac) {
      LexAntisymmetric(ac, ad);
    }
  }

  /** The second ranks compare as the tails do. */
  lemma SecondOrder(t: string, rk: seq<int>, len: nat, c: nat, d: nat)
    requires len >= 1 && RankFaithful(t, rk, len) && c < |t| && d < |t|
    ensures SecondRank(rk, len, c) <= SecondRank(rk, len, d) <==> LexLe(Tail(t, len, c), Tail(t, len, d))
  {
    if c + len < |t| {
      assert 0 <= rk[c + len] && Tail(t, len, c) != [];
    }
    if d + len < |t| {
      assert 0 <= rk[d + len];
    }
  }

  /**
   * Ranking by the first `len` characters and pairing each start with the
   * start `len` later orders the suffixes by their first `2 * len` characters.
   */
  lemma PairOrder(t: string, rk: seq<int>, len: nat, c: nat, d: nat)
    requires len >= 1 && RankFaithful(t, rk, len) && c < |t| && d < |t|
    ensures var sc, sd := SecondRank(rk, len, c), SecondRank(rk, len, d);
            (rk[c] < rk[d] || (rk[c] == rk[d] && sc <= sd))
              <==> LexLe(Prefix(t, c, 2 * len), Prefix(t, d, 2 * len))
  {
    var ac, ad := Prefix(t, c, len), Prefix(t, d, len);
    var bc, bd := Tail(t, len, c), Tail(t, len, d);
    PrefixSplit(t, c, len);
    PrefixSplit(t, d, len);
    SecondOrder(t, rk, len, c, d);
    assert rk[c] <= rk[d] <==> LexLe(ac, ad);
    assert rk[d] <= rk[c] <==> LexLe(ad, ac);
    PairValues(ac, bc, ad, bd, len, rk[c], rk[d], SecondRank(rk, len, c), SecondRank(rk, len, d));
  }

  /** Suffixes paired by a faithful rank order by twice as many characters. */
  lemma Combine(t: string, s: seq<Suffix>, rk: seq<int>, len: nat)
    requires len >= 1 && RankFaithful(t, rk, len) && Paired(s, rk, len)
    ensures KeysFaithful(t, s, 2 * len)
  {
    forall i, j | 0 <= i < |s| && 0 <= j < |s|
      ensures KeyLe(s[i], s[j]) <==> LexLe(Prefix(t, s[i].charIndex, 2 * len), Prefix(t, s[j].charIndex, 2 * len))
    {
      PairOrder(t, rk, len, s[i].charIndex, s[j].charIndex);
    }
  }

  /**
   * The suffixes after the first loop: start `i`, first rank the code of
   * character `i` less `base`, second rank that of character `i + 1`, or -1
   * for the last suffix. The source subtracts the code of 'a'.
   */
  function Initial(t: string, base: int): (r: seq<Suffix>)
    ensures |r| == |t| && CharIndices(r) == Range(|t|)
    ensures forall i :: 0 <= i < |t| ==> r[i].charIndex == i && r[i].firstRank == Code(t[i]) - base
    ensures forall i :: 0 <= i < |t| ==> r[i].secondRank == if i + 1 < |t| then Code(t[i + 1]) - base else -1
  {
    seq(|t|, i requires 0 <= i < |t| =>
      Suffix(i, Code(t[i]) - base, if i + 1 < |t| then Code(t[i + 1]) - base else -1))
  }

  /** The character ranks of `Initial`. */
  function CharRanks(t: string, base: int): (r: seq<int>)
    ensures |r| == |t| && forall c :: 0 <= c < |t| ==> r[c] == Code(t[c]) - base
  {
    seq(|t|, c requires 0 <= c < |t| => Code(t[c]) - base)
  }

  /** When no character is below `base`, the initial pairs order the suffixes by their first two characters. */
  lemma InitialFaithful(t: string, base: int)
    requires forall i :: 0 <= i < |t| ==> base <= Code(t[i])
    ensures KeysFaithful(t, Initial(t, base), 2)
  {
    var rk := CharRanks(t, base);
    CharRanksFaithful(t, base);
    assert Paired(Initial(t, base), rk, 1);
    Combine(t, Initial(t, base), rk, 1);
  }

  /** Character codes less `base` order the one-character prefixes. */
  lemma CharRanksFaithful(t: string, base: int)
    requires forall i :: 0 <= i < |t| ==> base <= Code(t[i])
    ensures RankFaithful(t, CharRanks(t, base), 1)
  {
    var rk := CharRanks(t, base);
    forall c, d | 0 <= c < |t| && 0 <= d < |t|
      ensures rk[c] <= rk[d] <==> LexLe(Prefix(t, c, 1), Prefix(t, d, 1))
    {
      assert Prefix(t, c, 1) == [t[c]] && Prefix(t, d, 1) == [t[d]];
      assert [t[c]][1..] == [];
    }
  }

  lemma SameStartsInRange(a: seq<Suffix>, b: seq<Suffix>, n: nat)
    requires multiset(CharIndices(a)) == multiset(CharIndices(b)) && InRange(a, n)
    ensures InRange(b, n)
  {
    forall i | 0 <= i < |b| ensures b[i].charIndex < n {
      var q := CharIndices(b);
      assert q[i] in multiset(CharIndices(a));
      var j :| 0 <= j < |a| && CharIndices(a)[j] == q[i];
    }
  }

  /** `indicesRanks` after the re-ranking loop of a round. */
  function NextRanks(s: seq<Suffix>, ranks: seq<int>): (r: seq<int>)
    requires InRange(s, |ranks|)
    ensures |r| == |ranks|
  {
    Scatter(ranks, s, DenseRanks(s))
  }

  /** The array after the refresh loop of a round: first ranks renumbered, second ranks taken from `indicesRanks` `len` positions later. */
  function Refreshed(s: seq<Suffix>, ranks: seq<int>, len: nat): seq<Suffix>
    requires InRange(s, |ranks|)
  {
    Refresh(Relabel(s, DenseRanks(s)), NextRanks(s, ranks), len)
  }

  /**
   * The array after one round with step `k`: re-ranked, second ranks taken
   * from `indicesRanks` `k/2` positions later, and sorted again.
   */
  function NextSuffixes(s: seq<Suffix>, ranks: seq<int>, k: nat): (r: seq<Suffix>)
    requires InRange(s, |ranks|)
    ensures InRange(r, |ranks|)
    ensures multiset(CharIndices(r)) == multiset(CharIndices(s))
  {
    var refreshed := Refreshed(s, ranks, k / 2);
    SortKeepsStarts(refreshed);
    SameStartsInRange(refreshed, Sort(refreshed), |ranks|);
    Sort(refreshed)
  }

  /**
   * The doubling loop from its head with step `k`: one round after another,
   * doubling `k`, while `k < 2n`. `ranks` is `indicesRanks`, which keeps its
   * entries from one round to the next.
   */
  function Doubling(s: seq<Suffix>, ranks: seq<int>, k: nat): seq<Suffix>
    requires k >= 1 && InRange(s, |ranks|)
    decreases 2 * |ranks| - k
  {
    if k < 2 * |ranks| then Doubling(NextSuffixes(s, ranks, k), NextRanks(s, ranks), k * 2) else s
  }

  /** The array after the first loop and the first sort. */
  function Start(t: string, base: int): (r: seq<Suffix>)
    ensures InRange(r, |t|) && Perm(r, |t|)
  {
    var sorted := Sort(Initial(t, base));
    SortKeepsStarts(Initial(t, base));
    SameStartsInRange(Initial(t, base), sorted, |t|);
    sorted
  }

  /** `new int[n]`: `n` zeros. */
  function Zeros(n: nat): (r: seq<int>)
    ensures |r| == n && forall i :: 0 <= i < n ==> r[i] == 0
  {
    seq(n, _ => 0)
  }

  /** `getArray()` of `new SuffixArray(t)`, with the character ranks taken relative to `base`. */
  function Build(t: string, base: int): seq<int>
  {
    CharIndices(Doubling(Start(t, base), Zeros(|t|), 4))
  }

  lemma {:induction false} DoublingPermutes(s: seq<Suffix>, ranks: seq<int>, k: nat)
    requires k >= 1 && InRange(s, |ranks|) && Perm(s, |ranks|)
    ensures Perm(Doubling(s, ranks, k), |ranks|)
    decreases 2 * |ranks| - k
  {
    if k < 2 * |ranks| {
      var next, nextRanks := NextSuffixes(s, ranks, k), NextRanks(s, ranks);
      DoublingPermutes(next, nextRanks, k * 2);
      DoublingUnfold(s, ranks, k);
    }
  }

  /** Whatever the characters, `getArray()` lists each of 0..n-1 exactly once. */
  lemma BuildPermutes(t: string, base: int)
    ensures multiset(Build(t, base)) == multiset(Range(|t|))
  {
    DoublingPermutes(Start(t, base), Zeros(|t|), 4);
  }

  /** Rearranging the suffixes keeps their pairs faithful. */
  lemma FaithfulPermuted(t: string, a: seq<Suffix>, b: seq<Suffix>, len: nat)
    requires multiset(a) == multiset(b) && KeysFaithful(t, a, len)
    ensures KeysFaithful(t, b, len)
  {
    forall i | 0 <= i < |b| ensures exists i' :: 0 <= i' < |a| && a[i'] == b[i] {
      assert b[i] in multiset(a);
    }
  }

  /**
   * A state of the doubling loop: the suffixes are a permutation of the
   * starts, sorted, and their pairs order them by their first `len` characters.
   */
  ghost predicate Stage(t: string, s: seq<Suffix>, len: nat)
  {
    len >= 1 && Perm(s, |t|) && Sorted(s) && KeysFaithful(t, s, len)
  }

  /** After the re-ranking loop, `indicesRanks` ranks every start by its first `len` characters. */
  lemma RerankFaithful(t: string, s: seq<Suffix>, ranks: seq<int>, len: nat)
    requires Stage(t, s, len) && |ranks| == |t|
    ensures RankFaithful(t, Scatter(ranks, s, DenseRanks(s)), len)
  {
    PermFacts(s, |t|);
    DenseRanksOrder(s);
    var newRanks := DenseRanks(s);
    var rk := Scatter(ranks, s, newRanks);
    var q := CharIndices(s);
    forall c | 0 <= c < |t| ensures exists i :: 0 <= i < |s| && s[i].charIndex == c && rk[c] == newRanks[i] {
      assert c in q;
      var i :| 0 <= i < |q| && q[i] == c;
      ScatterAt(ranks, s, newRanks, i);
    }
  }

  /** After the refresh loop each suffix is paired by `indicesRanks`. */
  lemma RefreshPaired(s: seq<Suffix>, ranks: seq<int>, len: nat)
    requires InRange(s, |ranks|) && Distinct(s)
    ensures var newRanks := DenseRanks(s);
            var rk := Scatter(ranks, s, newRanks);
            Paired(Refresh(Relabel(s, newRanks), rk, len), rk, len)
  {
    var newRanks := DenseRanks(s);
    var rk := Scatter(ranks, s, newRanks);
    var refreshed := Refresh(Relabel(s, newRanks), rk, len);
    forall i | 0 <= i < |s|
      ensures && refreshed[i].charIndex < |rk|
              && refreshed[i].firstRank == rk[refreshed[i].charIndex]
              && refreshed[i].secondRank == SecondRank(rk, len, refreshed[i].charIndex)
    {
      RefreshPairedAt(s, ranks, len, i);
    }
  }

  lemma RefreshPairedAt(s: seq<Suffix>, ranks: seq<int>, len: nat, i: nat)
    requires InRange(s, |ranks|) && Distinct(s) && i < |s|
    ensures var newRanks := DenseRanks(s);
            var rk := Scatter(ranks, s, newRanks);
            var refreshed := Refresh(Relabel(s, newRanks), rk, len);
            && refreshed[i].charIndex == s[i].charIndex < |rk|
            && refreshed[i].firstRank == rk[s[i].charIndex]
            && refreshed[i].secondRank == SecondRank(rk, len, s[i].charIndex)
  {
    var newRanks := DenseRanks(s);
    var rk := Scatter(ranks, s, newRanks);
    var relabelled := Relabel(s, newRanks);
    ScatterAt(ranks, s, newRanks, i);
    assert relabelled[i] == s[i].(firstRank := newRanks[i]);
  }

  lemma RefreshedFaithful(t: string, s: seq<Suffix>, ranks: seq<int>, len: nat)
    requires Stage(t, s, len) && |ranks| == |t|
    ensures KeysFaithful(t, Refreshed(s, ranks, len), 2 * len)
    ensures Perm(Refreshed(s, ranks, len), |t|)
  {
    RerankFaithful(t, s, ranks, len);
    PermFacts(s, |t|);
    RefreshPaired(s, ranks, len);
    Combine(t, Refreshed(s, ranks, len), NextRanks(s, ranks), len);
  }

  lemma SortStage(t: string, s: seq<Suffix>, len: nat)
    requires len >= 1 && KeysFaithful(t, s, len) && Perm(s, |t|)
    ensures Stage(t, Sort(s), len)
  {
    FaithfulPermuted(t, s, Sort(s), len);
    SortSorted(s);
    SortKeepsStarts(s);
  }

  /** One round of the doubling loop doubles the number of characters the order accounts for. */
  lemma RoundStage(t: string, s: seq<Suffix>, ranks: seq<int>, k: nat)
    requires k >= 2 && k % 2 == 0 && Stage(t, s, k / 2) && |ranks| == |t|
    ensures Stage(t, NextSuffixes(s, ranks, k), k)
  {
    var len := k / 2;
    RefreshedFaithful(t, s, ranks, len);
    assert 2 * len == k;
    SortStage(t, Refreshed(s, ranks, len), k);
  }

  /** The starts of `s` in strictly increasing lexicographic order of their suffixes. */
  ghost predicate SuffixOrder(t: string, s: seq<Suffix>)
  {
    && InRange(s, |t|)
    && forall i, j :: 0 <= i < j < |s| ==> SuffixLess(t, s[i].charIndex, s[j].charIndex)
  }

  /** Once `len` covers the whole text, the pairs order the suffixes themselves, strictly. */
  lemma FinalStage(t: string, s: seq<Suffix>, len: nat)
    requires Stage(t, s, len) && len >= |t|
    ensures SuffixOrder(t, s)
  {
    PermFacts(s, |t|);
    forall i, j | 0 <= i < j < |s| ensures SuffixLess(t, s[i].charIndex, s[j].charIndex) {
      assert Prefix(t, s[i].charIndex, len) == t[s[i].charIndex..];
      assert Prefix(t, s[j].charIndex, len) == t[s[j].charIndex..];
      assert KeyLe(s[i], s[j]);
      assert |t[s[i].charIndex..]| != |t[s[j].charIndex..]|;
    }
  }

  /**
   * From a loop state whose pairs account for `k/2` characters, the doubling
   * loop ends with the starts in strictly increasing order of their suffixes.
   */
  lemma {:induction false} DoublingSorts(t: string, s: seq<Suffix>, ranks: seq<int>, k: nat)
    requires k >= 2 && k % 2 == 0 && |ranks| == |t| && Stage(t, s, k / 2)
    ensures Perm(Doubling(s, ranks, k), |t|) && SuffixOrder(t, Doubling(s, ranks, k))
    decreases 2 * |t| - k
  {
    if k < 2 * |ranks| {
      DoublingRound(t, s, ranks, k);
    } else {
      FinalStage(t, s, k / 2);
    }
  }

  lemma {:induction false} DoublingRound(t: string, s: seq<Suffix>, ranks: seq<int>, k: nat)
    requires k >= 2 && k % 2 == 0 && |ranks| == |t| && Stage(t, s, k / 2) && k < 2 * |t|
    ensures Perm(Doubling(s, ranks, k), |t|) && SuffixOrder(t, Doubling(s, ranks, k))
    decreases 2 * |t| - k, 0
  {
    var next, nextRanks := NextSuffixes(s, ranks, k), NextRanks(s, ranks);
    RoundStage(t, s, ranks, k);
    assert (k * 2) / 2 == k;
    DoublingSorts(t, next, nextRanks, k * 2);
    DoublingUnfold(s, ranks, k);
  }

  /** One round of the doubling loop, from the states before and after it. */
  lemma DoublingStep(s: seq<Suffix>, ranks: seq<int>, k: nat, next: seq<Suffix>, nextRanks: seq<int>)
    requires k >= 1 && InRange(s, |ranks|) && k < 2 * |ranks|
    requires next == NextSuffixes(s, ranks, k) && nextRanks == NextRanks(s, ranks)
    ensures |nextRanks| == |ranks| && InRange(next, |nextRanks|)
    ensures Doubling(next, nextRanks, k * 2) == Doubling(s, ranks, k)
  {
    DoublingUnfold(s, ranks, k);
  }

  /** One round of the doubling loop, unfolded. */
  lemma DoublingUnfold(s: seq<Suffix>, ranks: seq<int>, k: nat)
    requires k >= 1 && InRange(s, |ranks|) && k < 2 * |ranks|
    ensures Doubling(s, ranks, k) == Doubling(NextSuffixes(s, ranks, k), NextRanks(s, ranks), k * 2)
  {
  }

  /** The suffix of `t` at `c` comes strictly before the one at `d`. */
  predicate SuffixLess(t: string, c: int, d: int)
    requires 0 <= c <= |t| && 0 <= d <= |t|
  {
    LexLess(t[c..], t[d..])
  }

  /** `s` lists the starts 0..n-1 of `t`, each once, in strictly increasing lexicographic order of their suffixes. */
  ghost predicate IsSuffixArray(t: string, r: seq<int>)
  {
    && (forall i :: 0 <= i < |r| ==> 0 <= r[i] < |t|)
    && multiset(r) == multiset(Range(|t|))
    && (forall i, j :: 0 <= i < j < |r| ==> SuffixLess(t, r[i], r[j]))
  }

  /**
   * When no character of `t` is below `base`, `Build(t, base)` is the suffix
   * array of `t`; the source's `base` is the code of 'a', so this covers the
   * texts over 'a' and the characters after it.
   */
  lemma BuildIsSuffixArray(t: string, base: int)
    requires forall i :: 0 <= i < |t| ==> base <= Code(t[i])
    ensures IsSuffixArray(t, Build(t, base))
  {
    InitialFaithful(t, base);
    SortStage(t, Initial(t, base), 2);
    DoublingSorts(t, Start(t, base), Zeros(|t|), 4);
    OrderedStarts(t, Doubling(Start(t, base), Zeros(|t|), 4));
  }

  lemma OrderedStarts(t: string, s: seq<Suffix>)
    requires Perm(s, |t|) && SuffixOrder(t, s)
    ensures IsSuffixArray(t, CharIndices(s))
  {
  }

  lemma {:induction false} LexTransitive(a: string, b: string, c: string)
    requires LexLe(a, b) && LexLe(b, c)
    ensures LexLe(a, c)
    decreases |a|
  {
    if |a| > 0 && a[0] == b[0] && b[0] == c[0] {
      LexTransitive(a[1..], b[1..], c[1..]);
    }
  }

  lemma LexLessTransitive(a: string, b: string, c: string)
    requires LexLess(a, b) && LexLess(b, c)
    ensures LexLess(a, c)
  {
    LexTransitive(a, b, c);
    if a == c {
      LexAntisymmetric(b, c);
    }
  }

  /** Two suffix arrays of the same text are the same: the suffix array is unique. */
  lemma {:induction false} SuffixArrayUnique(t: string, a: seq<int>, b: seq<int>)
    requires IsSuffixArray(t, a) && IsSuffixArray(t, b)
    ensures a == b
  {
    StrictlyOrderedUnique(t, a, b);
  }

  /** Strictly ordered arrangements of the same starts begin alike. */
  lemma FirstAgree(t: string, a: seq<int>, b: seq<int>)
    requires forall i :: 0 <= i < |a| ==> 0 <= a[i] < |t|
    requires forall i :: 0 <= i < |b| ==> 0 <= b[i] < |t|
    requires multiset(a) == multiset(b) && |a| > 0 && |b| > 0
    requires forall i, j :: 0 <= i < j < |a| ==> SuffixLess(t, a[i], a[j])
    requires forall i, j :: 0 <= i < j < |b| ==> SuffixLess(t, b[i], b[j])
    ensures a[0] == b[0]
  {
    assert a[0] in multiset(b) && b[0] in multiset(a);
    var m :| 0 <= m < |b| && b[m] == a[0];
    var p :| 0 <= p < |a| && a[p] == b[0];
    if m > 0 && p > 0 {
      assert SuffixLess(t, b[0], b[m]) && SuffixLess(t, a[0], a[p]);
      LexAntisymmetric(t[a[0]..], t[b[0]..]);
    }
  }

  lemma TailsAgree(a: seq<int>, b: seq<int>)
    requires multiset(a) == multiset(b) && |a| > 0 && |b| > 0 && a[0] == b[0]
    ensures multiset(a[1..]) == multiset(b[1..])
  {
    assert a == [a[0]] + a[1..] && b == [b[0]] + b[1..];
    assert multiset(a) == multiset([a[0]]) + multiset(a[1..]);
    assert multiset(b) == multiset([b[0]]) + multiset(b[1..]);
    assert multiset(a[1..]) == multiset(a) - multiset([a[0]]);
    assert multiset(b[1..]) == multiset(b) - multiset([b[0]]);
  }

  lemma {:induction false} StrictlyOrderedUnique(t: string, a: seq<int>, b: seq<int>)
    requires forall i :: 0 <= i < |a| ==> 0 <= a[i] < |t|
    requires forall i :: 0 <= i < |b| ==> 0 <= b[i] < |t|
    requires multiset(a) == multiset(b)
    requires forall i, j :: 0 <= i < j < |a| ==> SuffixLess(t, a[i], a[j])
    requires forall i, j :: 0 <= i < j < |b| ==> SuffixLess(t, b[i], b[j])
    ensures a == b
    decreases |a|
  {
    assert |multiset(a)| == |a| && |multiset(b)| == |b|;
    if |a| > 0 {
      FirstAgree(t, a, b);
      TailsAgree(a, b);
      StrictlyOrderedUnique(t, a[1..], b[1..]);
      assert a == [a[0]] + a[1..] && b == [b[0]] + b[1..];
    }
  }

  /** Each suffix below the next is enough for strict order throughout. */
  lemma {:induction false} ChainOrdered(t: string, r: seq<int>, i: nat, j: nat)
    requires forall x :: 0 <= x < |r| ==> 0 <= r[x] < |t|
    requires forall x :: 0 < x < |r| ==> SuffixLess(t, r[x - 1], r[x])
    requires i < j < |r|
    ensures SuffixLess(t, r[i], r[j])
    decreases j - i
  {
    if i + 1 < j {
      ChainOrdered(t, r, i, j - 1);
      LexLessTransitive(t[r[i]..], t[r[j - 1]..], t[r[j]..]);
    }
  }

  lemma BananaSteps()
    ensures forall x :: 0 < x < 6 ==> SuffixLess("banana", [5, 3, 1, 0, 4, 2][x - 1], [5, 3, 1, 0, 4, 2][x])
  {
    var t := "banana";
    assert t[5..] == "a" && t[3..] == "ana" && t[1..] == "anana";
    assert t[0..] == "banana" && t[4..] == "na" && t[2..] == "nana";
    assert "ana"[1..] == "na" && "anana"[1..] == "nana" && "nana"[1..] == "ana";
    assert "na"[1..] == "a" && "a"[1..] == "";
    assert LexLe("", "na");
    assert LexLe("a", "ana");
    assert LexLe("na", "nana");
    assert LexLe("ana", "anana");
  }

  /** A permutation of the starts with each suffix below the next is a suffix array. */
  lemma ChainIsSuffixArray(t: string, r: seq<int>)
    requires forall x :: 0 <= x < |r| ==> 0 <= r[x] < |t|
    requires forall x :: 0 < x < |r| ==> SuffixLess(t, r[x - 1], r[x])
    requires multiset(r) == multiset(Range(|t|))
    ensures IsSuffixArray(t, r)
  {
    forall i, j | 0 <= i < j < |r| ensures SuffixLess(t, r[i], r[j]) {
      ChainOrdered(t, r, i, j);
    }
  }

  lemma BananaOrdered()
    ensures IsSuffixArray("banana", [5, 3, 1, 0, 4, 2])
  {
    BananaSteps();
    BananaStarts();
    ChainIsSuffixArray("banana", [5, 3, 1, 0, 4, 2]);
  }

  lemma BananaStarts()
    ensures multiset([5, 3, 1, 0, 4, 2]) == multiset(Range(6))
  {
    BananaStartsDisplay();
    SixStarts();
    ReorderedStarts();
  }

  lemma BananaStartsDisplay()
    ensures multiset([5, 3, 1, 0, 4, 2]) == multiset{5, 3, 1, 0, 4, 2}
  {
  }

  lemma SixStarts()
    ensures multiset(Range(6)) == multiset{0, 1, 2, 3, 4, 5}
  {
    assert Range(6) == [0, 1, 2, 3, 4, 5];
  }

  lemma ReorderedStarts()
    ensures multiset{5, 3, 1, 0, 4, 2} == multiset{0, 1, 2, 3, 4, 5}
  {
  }

  /** The only suffix array of a text over 'a' and above is what `getArray()` returns. */
  lemma BuildIsTheSuffixArray(t: string, r: seq<int>)
    requires forall i :: 0 <= i < |t| ==> Code('a') <= Code(t[i])
    requires IsSuffixArray(t, r)
    ensures Build(t, Code('a')) == r
  {
    BuildIsSuffixArray(t, Code('a'));
    SuffixArrayUnique(t, Build(t, Code('a')), r);
  }

  /** `new SuffixArray("banana").getArray()` is [5, 3, 1, 0, 4, 2]. */
  lemma BananaExample()
    ensures Build("banana", Code('a')) == [5, 3, 1, 0, 4, 2]
  {
    BananaOrdered();
    BuildIsTheSuffixArray("banana", [5, 3, 1, 0, 4, 2]);
  }

  /**
   * As written, a character below 'a' ranks below the -1 that marks the end
   * of the text: for "AA" the suffix "AA" is put before its own prefix "A".
   */
  lemma BelowLetterMisordered()
    ensures Build("AA", Code('a')) == [0, 1]
    ensures LexLess("AA"[1..], "AA"[0..])
  {
    UpperPairStart();
    var start := [Suffix(0, -32, -32), Suffix(1, -32, -1)];
    assert Doubling(start, Zeros(2), 4) == start;
    assert CharIndices(start) == [0, 1];
    UpperPairOrder();
  }

  /** The sorted suffixes of "AA" before any doubling round. */
  lemma UpperPairStart()
    ensures Start("AA", Code('a')) == [Suffix(0, -32, -32), Suffix(1, -32, -1)]
  {
    var init := Initial("AA", Code('a'));
    assert init == [Suffix(0, -32, -32), Suffix(1, -32, -1)];
    assert Sort(init[1..]) == [Suffix(1, -32, -1)];
  }

  lemma UpperPairOrder()
    ensures LexLess("AA"[1..], "AA"[0..])
  {
    assert "AA"[1..] == "A" && "AA"[0..] == "AA";
    assert LexLe("A"[1..], "AA"[1..]);
  }

  /**
   * Ranking the characters by their codes themselves, which are never
   * negative and so always above the end marker -1, gives the suffix array
   * of every text.
   */
  function CorrectedBuild(t: string): seq<int>
  {
    Build(t, 0)
  }

  lemma CorrectedIsSuffixArray(t: string)
    ensures IsSuffixArray(t, CorrectedBuild(t))
  {
    BuildIsSuffixArray(t, 0);
  }

  /** `Arrays.sort(a, new SuffixComparator())`, modelled by the stable sort above. */
  method ArraysSort(a: array<Suffix>)
    modifies a
    ensures a[..] == Sort(old(a[..]))
  {
    var sorted := Sort(a[..]);
    assert |sorted| == |multiset(sorted)| == |multiset(a[..])| == a.Length;
    for i := 0 to a.Length
      invariant forall j :: 0 <= j < i ==> a[j] == sorted[j]
    {
      a[i] := sorted[i];
    }
  }

  /** A `SuffixArray` object: its `Suffix` array and the suffix array it hands out. */
  class SuffixArray {
    /** The text the object was built from. */
    ghost const text: string
    const suffixArray: array<Suffix>
    var charIndexSuffixArray: array<int>

    /** `charIndexSuffixArray` holds the result of the build for `text`. */
    ghost predicate Valid()
      reads this, charIndexSuffixArray
    {
      charIndexSuffixArray[..] == Build(text, Code('a'))
    }

    /** `new SuffixArray(text)`: both arrays have the text's length, then the build fills them. */
    constructor(text: string)
      ensures this.text == text && Valid()
      ensures fresh(suffixArray) && fresh(charIndexSuffixArray)
    {
      this.text := text;
      suffixArray := new Suffix[|text|];
      charIndexSuffixArray := new int[|text|](_ => 0);
      new;
      BuildSuffixArray(text);
    }

    /** `getArray()`: the suffix array of the text, by `BuildIsSuffixArray` when no character is below 'a'. */
    method GetArray() returns (r: array<int>)
      requires Valid()
      ensures r == charIndexSuffixArray && r[..] == Build(text, Code('a'))
    {
      r := charIndexSuffixArray;
    }

    /**
     * `buildSuffixArray(text)`: initial ranks, a sort, the doubling rounds
     * over a fresh zeroed `indicesRanks`, and the copy-out.
     */
    method BuildSuffixArray(text: string)
      requires suffixArray.Length == |text| && charIndexSuffixArray.Length == |text|
      modifies suffixArray, charIndexSuffixArray
      ensures charIndexSuffixArray[..] == Build(text, Code('a'))
    {
      var n := |text|;
      InitSuffixes(text);
      ArraysSort(suffixArray);
      assert suffixArray[..] == Start(text, Code('a'));
      var indicesRanks := new int[n](_ => 0);
      assert indicesRanks[..] == Zeros(n);
      DoublingRounds(indicesRanks, n);
      CopyCharIndices();
    }

    /** The first loop: every suffix gets its start and the ranks of its first two characters. */
    method InitSuffixes(text: string)
      requires suffixArray.Length == |text|
      modifies suffixArray
      ensures suffixArray[..] == Initial(text, Code('a'))
    {
      ghost var init := Initial(text, Code('a'));
      var n := |text|;
      for charIndex := 0 to n
        invariant forall j :: 0 <= j < charIndex ==> suffixArray[j] == init[j]
      {
        var suffix := Suffix(charIndex, 0, 0);
        suffix := suffix.(firstRank := Code(text[charIndex]) - Code('a'));
        suffix := suffix.(secondRank := if charIndex + 1 < n then Code(text[charIndex + 1]) - Code('a') else -1);
        suffixArray[charIndex] := suffix;
      }
      assert |suffixArray[..]| == |init|;
      assert forall j :: 0 <= j < n ==> suffixArray[..][j] == init[j];
    }

    /**
     * The loop over `k = 4, 8, ...` while `k < 2n`: each round re-ranks,
     * refreshes the second ranks from `indicesRanks` `k/2` positions on, and
     * sorts again; the result is `Doubling` of the state the loop starts from.
     */
    method DoublingRounds(indicesRanks: array<int>, n: nat)
      requires indicesRanks.Length == n == suffixArray.Length && InRange(suffixArray[..], n)
      modifies suffixArray, indicesRanks
      ensures suffixArray[..] == Doubling(old(suffixArray[..]), old(indicesRanks[..]), 4)
    {
      ghost var goal := Doubling(suffixArray[..], indicesRanks[..], 4);
      var k: nat := 4;
      while k < 2 * n
        invariant k >= 4
        invariant InRange(suffixArray[..], n) && Doubling(suffixArray[..], indicesRanks[..], k) == goal
        decreases 2 * n - k
      {
        Round(indicesRanks, k);
        k := k * 2;
      }
    }

    /**
     * The body of the doubling loop for step `k`: the loop run from the new
     * state with step `2k` ends where it would have ended from the old state
     * with step `k`.
     */
    method Round(indicesRanks: array<int>, k: nat)
      requires k >= 1 && suffixArray.Length >= 1 && k < 2 * indicesRanks.Length
      requires InRange(suffixArray[..], indicesRanks.Length)
      modifies suffixArray, indicesRanks
      ensures InRange(suffixArray[..], indicesRanks.Length)
      ensures Doubling(suffixArray[..], indicesRanks[..], k * 2) == Doubling(old(suffixArray[..]), old(indicesRanks[..]), k)
    {
      ghost var s, ranks := suffixArray[..], indicesRanks[..];
      Rerank(indicesRanks);
      ghost var nextRanks := indicesRanks[..];
      RefreshSecondRanks(indicesRanks, k / 2);
      assert indicesRanks[..] == nextRanks;
      ArraysSort(suffixArray);
      assert indicesRanks[..] == nextRanks;
      DoublingStep(s, ranks, k, suffixArray[..], indicesRanks[..]);
    }

    /** The last loop: `charIndexSuffixArray` receives the starts in array order. */
    method CopyCharIndices()
      requires charIndexSuffixArray.Length == suffixArray.Length
      modifies charIndexSuffixArray
      ensures charIndexSuffixArray[..] == CharIndices(suffixArray[..])
    {
      for i := 0 to suffixArray.Length
        invariant forall j :: 0 <= j < i ==> charIndexSuffixArray[j] == suffixArray[j].charIndex
      {
        charIndexSuffixArray[i] := suffixArray[i].charIndex;
      }
      ghost var starts := CharIndices(suffixArray[..]);
      assert |charIndexSuffixArray[..]| == |starts|;
      assert forall j :: 0 <= j < suffixArray.Length ==> charIndexSuffixArray[..][j] == starts[j];
    }

    /**
     * The re-ranking loop: walking the sorted array, each suffix gets the new
     * first rank `DenseRanks` gives it, and `indicesRanks` records it at the
     * suffix's start.
     */
    method Rerank(indicesRanks: array<int>)
      requires suffixArray.Length >= 1 && InRange(suffixArray[..], indicesRanks.Length)
      modifies suffixArray, indicesRanks
      ensures suffixArray[..] == Relabel(old(suffixArray[..]), DenseRanks(old(suffixArray[..])))
      ensures indicesRanks[..] == Scatter(old(indicesRanks[..]), old(suffixArray[..]), DenseRanks(old(suffixArray[..])))
    {
      ghost var s := suffixArray[..];
      ghost var newRanks := DenseRanks(s);
      ghost var relabelled := Relabel(s, newRanks);
      ghost var base := indicesRanks[..];
      var n := suffixArray.Length;
      var rank := 0;
      var prevRank := suffixArray[0].firstRank;
      suffixArray[0] := suffixArray[0].(firstRank := rank);
      indicesRanks[suffixArray[0].charIndex] := rank;
      DenseRankAt(s, 0);
      ScatterStep(base, s, newRanks, 0);
      for i := 1 to n
        invariant forall j :: 0 <= j < i ==> suffixArray[j] == relabelled[j]
        invariant forall j :: i <= j < n ==> suffixArray[j] == s[j]
        invariant rank == newRanks[i - 1] && prevRank == s[i - 1].firstRank
        invariant indicesRanks[..] == Scatter(base, s[..i], newRanks[..i])
      {
        rank, prevRank := RerankAt(indicesRanks, i, rank, prevRank, s, base);
      }
      assert forall j :: 0 <= j < n ==> suffixArray[..][j] == relabelled[j];
      assert s[..n] == s && newRanks[..n] == newRanks;
    }

    /** One pass of the re-ranking loop's body, at position `i >= 1`. */
    method RerankAt(indicesRanks: array<int>, i: nat, rank: int, prevRank: int,
                    ghost s: seq<Suffix>, ghost base: seq<int>)
      returns (nextRank: int, nextPrevRank: int)
      requires 1 <= i < suffixArray.Length == |s| && InRange(s, |base|) && |base| == indicesRanks.Length
      requires forall j :: 0 <= j < i ==> suffixArray[j] == Relabel(s, DenseRanks(s))[j]
      requires forall j :: i <= j < |s| ==> suffixArray[j] == s[j]
      requires rank == DenseRanks(s)[i - 1] && prevRank == s[i - 1].firstRank
      requires indicesRanks[..] == Scatter(base, s[..i], DenseRanks(s)[..i])
      modifies suffixArray, indicesRanks
      ensures forall j :: 0 <= j <= i ==> suffixArray[j] == Relabel(s, DenseRanks(s))[j]
      ensures forall j :: i < j < |s| ==> suffixArray[j] == s[j]
      ensures nextRank == DenseRanks(s)[i] && nextPrevRank == s[i].firstRank
      ensures indicesRanks[..] == Scatter(base, s[..i + 1], DenseRanks(s)[..i + 1])
    {
      DenseRankAt(s, i);
      nextRank := rank;
      if suffixArray[i].firstRank == prevRank && suffixArray[i].secondRank == suffixArray[i - 1].secondRank {
        nextPrevRank := suffixArray[i].firstRank;
        suffixArray[i] := suffixArray[i].(firstRank := nextRank);
      } else {
        nextPrevRank := suffixArray[i].firstRank;
        nextRank := nextRank + 1;
        suffixArray[i] := suffixArray[i].(firstRank := nextRank);
      }
      indicesRanks[suffixArray[i].charIndex] := nextRank;
      ScatterStep(base, s, DenseRanks(s), i);
    }

    /**
     * The second-rank loop: each suffix's second rank becomes the entry of
     * `indicesRanks` `h` positions after its start, or -1 past the end of the
     * text, whose length is that of `indicesRanks`.
     */
    method RefreshSecondRanks(indicesRanks: array<int>, h: nat)
      modifies suffixArray
      ensures suffixArray[..] == Refresh(old(suffixArray[..]), indicesRanks[..], h)
    {
      ghost var s := suffixArray[..];
      for i := 0 to suffixArray.Length
        invariant suffixArray[..i] == Refresh(s, indicesRanks[..], h)[..i]
        invariant suffixArray[i..] == s[i..]
      {
        var nextIndex := suffixArray[i].charIndex + h;
        assert suffixArray[i] == s[i];
        suffixArray[i] := suffixArray[i].(secondRank :=
          if nextIndex < indicesRanks.Length then indicesRanks[nextIndex] else -1);
      }
      assert suffixArray[..] == suffixArray[..suffixArray.Length];
    }
  }
}
