/**
 * The (string, count) pair of the top-K recorder and the order in which a
 * snapshot is reported: count descending, then string ascending, where
 * strings compare as Go compares them (byte-wise, a proper prefix first).
 */
module Order {
  import opened Uint

  /** Go's stringCount {s string; n uint64}. */
  datatype StringCount = StringCount(s: seq<Byte>, n: UInt64)

  /** Go's `<` on strings: lexicographic on the bytes, a proper prefix first. */
  predicate StrLess(a: seq<Byte>, b: seq<Byte>)
  {
    if |a| == 0 then |b| > 0
    else if |b| == 0 then false
    else if a[0] != b[0] then a[0] < b[0]
    else StrLess(a[1..], b[1..])
  }

  lemma {:induction false} StrLessIrreflexive(a: seq<Byte>)
    ensures !StrLess(a, a)
  {
    if |a| > 0 {
      StrLessIrreflexive(a[1..]);
    }
  }

  lemma {:induction false} StrLessTransitive(a: seq<Byte>, b: seq<Byte>, c: seq<Byte>)
    requires StrLess(a, b) && StrLess(b, c)
    ensures StrLess(a, c)
  {
    if |a| > 0 && |b| > 0 && |c| > 0 && a[0] == b[0] == c[0] {
      StrLessTransitive(a[1..], b[1..], c[1..]);
    }
  }

  lemma {:induction false} StrLessTotal(a: seq<Byte>, b: seq<Byte>)
    ensures a == b || StrLess(a, b) || StrLess(b, a)
  {
    if |a| > 0 && |b| > 0 && a[0] == b[0] {
      StrLessTotal(a[1..], b[1..]);
      if a[1..] == b[1..] {
        assert a == [a[0]] + a[1..] && b == [b[0]] + b[1..];
      }
    }
  }

  /**
   * stringsByCount.Less applied to the two entries x = l[i] and y = l[j]:
   * larger count first; on equal counts, the smaller string first.
   */
  predicate Less(x: StringCount, y: StringCount)
  {
    if x.n != y.n then x.n > y.n else StrLess(x.s, y.s)
  }

  /** Less is a strict total order on entries, so a sorted snapshot is unique. */
  lemma LessIrreflexive(x: StringCount)
    ensures !Less(x, x)
  {
    StrLessIrreflexive(x.s);
  }

  lemma LessTransitive(x: StringCount, y: StringCount, z: StringCount)
    requires Less(x, y) && Less(y, z)
    ensures Less(x, z)
  {
    if x.n == y.n == z.n {
      StrLessTransitive(x.s, y.s, z.s);
    }
  }

  lemma LessAsymmetric(x: StringCount, y: StringCount)
    requires Less(x, y)
    ensures !Less(y, x)
  {
    if Less(y, x) {
      LessTransitive(x, y, x);
      LessIrreflexive(x);
    }
  }

  lemma LessTotal(x: StringCount, y: StringCount)
    ensures x == y || Less(x, y) || Less(y, x)
  {
    StrLessTotal(x.s, y.s);
  }

  /** What sort.Sort(stringsByCount(l)) establishes: no entry is Less than its predecessor. */
  predicate Sorted(l: seq<StringCount>)
  {
    forall i :: 0 < i < |l| ==> !Less(l[i], l[i - 1])
  }

  /** In a sorted snapshot no later entry is Less than an earlier one. */
  lemma {:induction false} SortedPairwise(l: seq<StringCount>, i: nat, j: nat)
    requires Sorted(l) && i <= j < |l|
    ensures !Less(l[j], l[i])
    decreases j - i
  {
    if i == j {
      LessIrreflexive(l[i]);
    } else {
      SortedPairwise(l, i, j - 1);
      if Less(l[j], l[i]) {
        // l[j - 1] is l[i] or after it; l[j] is not before l[j - 1]
        LessTotal(l[j - 1], l[i]);
        if l[j - 1] != l[i] {
          assert Less(l[i], l[j - 1]);
          LessTransitive(l[j], l[i], l[j - 1]);
        }
      }
    }
  }

  /** The first entry of a sorted, non-empty arrangement is not after any of its entries. */
  lemma SortedHead(l: seq<StringCount>, x: StringCount)
    requires Sorted(l) && x in multiset(l)
    ensures !Less(x, l[0])
  {
    var j :| 0 <= j < |l| && l[j] == x;
    SortedPairwise(l, 0, j);
  }

  lemma SortedTail(l: seq<StringCount>)
    requires Sorted(l) && |l| > 0
    ensures Sorted(l[1..]) && multiset(l[1..]) == multiset(l) - multiset{l[0]}
  {
    assert l == [l[0]] + l[1..];
  }

  /**
   * Two sorted arrangements of the same entries are equal: the snapshot
   * returned by Top is determined by the multiset of tracked entries alone.
   */
  lemma {:induction false} SortedUnique(a: seq<StringCount>, b: seq<StringCount>)
    requires Sorted(a) && Sorted(b) && multiset(a) == multiset(b)
    ensures a == b
  {
    assert |a| == |multiset(a)| == |multiset(b)| == |b|;
    if |a| > 0 {
      SortedSameHead(a, b);
      SortedTail(a);
      SortedTail(b);
      SortedUnique(a[1..], b[1..]);
      assert a == [a[0]] + a[1..] && b == [b[0]] + b[1..];
    }
  }

  /** Two non-empty sorted arrangements of the same entries start with the same entry. */
  lemma SortedSameHead(a: seq<StringCount>, b: seq<StringCount>)
    requires Sorted(a) && Sorted(b) && multiset(a) == multiset(b) && |a| > 0 && |b| > 0
    ensures a[0] == b[0]
  {
    assert a[0] in multiset(b) && b[0] in multiset(a);
    SortedHead(b, a[0]);
    SortedHead(a, b[0]);
    LessTotal(a[0], b[0]);
  }

  /** No entry of l[lo..hi] is Less than its predecessor within that range. */
  predicate SortedRange(l: seq<StringCount>, lo: nat, hi: nat)
    requires lo <= hi <= |l|
  {
    forall k :: lo < k < hi ==> !Less(l[k], l[k - 1])
  }

  /** The state of the insertion loop: l[..j] and l[j..i+1] sorted, l[j] being inserted. */
  predicate Inserting(l: seq<StringCount>, i: nat, j: nat)
    requires j <= i < |l|
  {
    SortedRange(l, 0, j) && SortedRange(l, j, i + 1) &&
    (0 < j < i ==> !Less(l[j + 1], l[j - 1]))
  }

  /** One swap of the insertion loop keeps its invariant. */
  lemma InsertStep(l: seq<StringCount>, i: nat, j: nat)
    requires 0 < j <= i < |l| && Inserting(l, i, j) && Less(l[j], l[j - 1])
    ensures Inserting(l[j - 1 := l[j]][j := l[j - 1]], i, j - 1)
  {
    LessAsymmetric(l[j], l[j - 1]);
  }

  /** Go's sort.Interface Swap on a slice of entries. */
  method Swap(a: array<StringCount>, i: nat, j: nat)
    requires i < a.Length && j < a.Length
    modifies a
    ensures a[..] == old(a[..])[i := old(a[j])][j := old(a[i])]
    ensures multiset(a[..]) == multiset(old(a[..]))
  {
    a[i], a[j] := a[j], a[i];
  }

  /**
   * sort.Sort(stringsByCount(a)), done in place by insertion with swaps as
   * Go's sort package does for short slices.
   */
  method SortByCount(a: array<StringCount>)
    modifies a
    ensures Sorted(a[..])
    ensures multiset(a[..]) == multiset(old(a[..]))
  {
    var i := 0;
    while i < a.Length
      invariant 0 <= i <= a.Length
      invariant SortedRange(a[..], 0, i)
      invariant multiset(a[..]) == multiset(old(a[..]))
    {
      var j := i;
      while j > 0 && Less(a[j], a[j - 1])
        invariant 0 <= j <= i
        invariant Inserting(a[..], i, j)
        invariant multiset(a[..]) == multiset(old(a[..]))
      {
        InsertStep(a[..], i, j);
        Swap(a, j - 1, j);
        j := j - 1;
      }
      i := i + 1;
    }
  }
}
