/**
 * The count-min sketch with conservative update, as values: a d x w matrix
 * of uint64 counters, the columns an item hashes to, the candidate estimate
 * (one more than the smallest probed cell) and the conservative update that
 * raises only the probed cells below the candidate. Run folds the update
 * over a stream of items; the lemmas state what one update and a whole
 * stream do to the matrix and to the estimates.
 */
module Sketch {
  import opened Uint

  /** murmur3.Sum128: a 128-bit hash of the item's bytes, as two uint64 halves. */
  type Hash = seq<Byte> -> (UInt64, UInt64)

  /**
   * The column probed in row i: Go's (x + uint64(i)*y) % uint64(w), where the
   * multiplication and the addition wrap modulo 2^64 before the division by w.
   */
  function Offset(x: UInt64, y: UInt64, i: nat, w: nat): (r: UInt64)
    requires w > 0
    ensures r < w
  {
    Add64(x, Mul64(i % TWO_64, y)) % w
  }

  /** The column is the exact sum x + i*y reduced modulo 2^64 and then modulo w. */
  lemma OffsetIsDoubleHash(x: UInt64, y: UInt64, i: nat, w: nat)
    requires w > 0
    ensures Offset(x, y, i, w) == ((x + i * y) % TWO_64) % w
  {
    ModularSum(x, i, y);
  }

  /** Wrapping the product and the sum separately wraps the whole sum. */
  lemma ModularSum(x: UInt64, i: nat, y: UInt64)
    ensures Add64(x, Mul64(i % TWO_64, y)) == (x + i * y) % TWO_64
  {
    var q := i / TWO_64;
    assert i == q * TWO_64 + i % TWO_64;
    assert i * y == q * y * TWO_64 + (i % TWO_64) * y;
    var p := (i % TWO_64) * y;
    assert p == (p / TWO_64) * TWO_64 + p % TWO_64;
    assert x + i * y == (q * y + p / TWO_64) * TWO_64 + (x + p % TWO_64);
    ModShift(x + p % TWO_64, q * y + p / TWO_64);
  }

  lemma ModShift(a: nat, k: nat)
    ensures (k * TWO_64 + a) % TWO_64 == a % TWO_64
  {
    if k > 0 {
      ModShift(a, k - 1);
      assert k * TWO_64 + a == (k - 1) * TWO_64 + a + TWO_64;
    }
  }

  /** The cached offsets t.h after the first loop of Record, for hash halves x and y. */
  function Offsets(x: UInt64, y: UInt64, d: nat, w: nat): (r: seq<UInt64>)
    requires d == 0 || w > 0
    ensures |r| == d
    ensures forall i :: 0 <= i < d ==> r[i] < w
  {
    seq(d, i requires 0 <= i < d => Offset(x, y, i, w))
  }

  /** The columns item b probes, one per row. */
  function Columns(hash: Hash, b: seq<Byte>, d: nat, w: nat): (r: seq<UInt64>)
    requires d == 0 || w > 0
    ensures |r| == d
    ensures forall i :: 0 <= i < d ==> r[i] < w
  {
    Offsets(hash(b).0, hash(b).1, d, w)
  }

  /** A matrix of d rows, each w counters wide. */
  predicate Shaped(m: seq<seq<UInt64>>, d: nat, w: nat)
  {
    |m| == d && forall i :: 0 <= i < d ==> |m[i]| == w
  }

  /** One in-range column per row. */
  predicate Fits(m: seq<seq<UInt64>>, offs: seq<UInt64>)
  {
    |offs| == |m| && forall i :: 0 <= i < |m| ==> offs[i] < |m[i]|
  }

  /** The freshly made matrix: every counter zero. */
  function Zero(d: nat, w: nat): (m: seq<seq<UInt64>>)
    ensures Shaped(m, d, w)
    ensures forall i, j :: 0 <= i < d && 0 <= j < w ==> m[i][j] == 0
  {
    seq(d, _ => seq(w, _ => 0))
  }

  /** The probed cells t.x[i][t.h[i]], one per row. */
  function Probe(m: seq<seq<UInt64>>, offs: seq<UInt64>): (r: seq<UInt64>)
    requires Fits(m, offs)
  {
    seq(|offs|, i requires 0 <= i < |offs| => m[i][offs[i]])
  }

  /**
   * The second loop of Record: starting from math.MaxUint64, keep the
   * smaller of the running value and each probed cell in turn.
   */
  function Min(s: seq<UInt64>): (r: UInt64)
    ensures forall i :: 0 <= i < |s| ==> r <= s[i]
    ensures |s| == 0 ==> r == MAX_UINT64
    ensures |s| > 0 ==> exists i :: 0 <= i < |s| && r == s[i]
  {
    if |s| == 0 then MAX_UINT64
    else
      var m := Min(s[..|s| - 1]);
      if s[|s| - 1] < m then s[|s| - 1] else m
  }

  /** `max++`: one more than the smallest probed cell, wrapping to 0 past math.MaxUint64. */
  function Candidate(m: seq<seq<UInt64>>, offs: seq<UInt64>): UInt64
    requires Fits(m, offs)
  {
    Add64(Min(Probe(m, offs)), 1)
  }

  /** The third loop of Record in row i: raise the probed cell by one if it is below c. */
  function Bump(row: seq<UInt64>, j: nat, c: UInt64): (r: seq<UInt64>)
    requires j < |row|
    ensures |r| == |row|
    ensures forall k :: 0 <= k < |row| && k != j ==> r[k] == row[k]
  {
    if row[j] < c then row[j := row[j] + 1] else row
  }

  /**
   * The conservative update with candidate c: every probed cell below c goes
   * up by one, every other cell keeps its value.
   */
  function Update(m: seq<seq<UInt64>>, offs: seq<UInt64>, c: UInt64): (r: seq<seq<UInt64>>)
    requires Fits(m, offs)
    ensures |r| == |m| && Fits(r, offs)
    ensures forall i :: 0 <= i < |m| ==> |r[i]| == |m[i]|
    ensures forall i, j :: 0 <= i < |m| && 0 <= j < |m[i]| && j != offs[i] ==> r[i][j] == m[i][j]
    ensures forall i :: 0 <= i < |m| ==>
              r[i][offs[i]] == if m[i][offs[i]] < c then m[i][offs[i]] + 1 else m[i][offs[i]]
  {
    seq(|m|, i requires 0 <= i < |m| => Bump(m[i], offs[i], c))
  }

  /** The sketch after recording the items of a stream in order, from all zero. */
  function Run(hash: Hash, d: nat, w: nat, items: seq<seq<Byte>>): (m: seq<seq<UInt64>>)
    requires items == [] || d == 0 || w > 0
    ensures Shaped(m, d, w)
  {
    if items == [] then Zero(d, w)
    else
      var prev := Run(hash, d, w, items[..|items| - 1]);
      var offs := Columns(hash, items[|items| - 1], d, w);
      Update(prev, offs, Candidate(prev, offs))
  }

  /** Recording one more item applies one conservative update with that item's columns. */
  lemma RunSnoc(hash: Hash, d: nat, w: nat, items: seq<seq<Byte>>, b: seq<Byte>)
    requires d == 0 || w > 0
    ensures var prev, offs := Run(hash, d, w, items), Columns(hash, b, d, w);
      Run(hash, d, w, items + [b]) == Update(prev, offs, Candidate(prev, offs))
  {
    assert (items + [b])[..|items|] == items;
  }

  /**
   * One step of the stream: the conservative update of the sketch after items
   * with b's candidate is the sketch after items + [b], and the candidate is
   * at least b's count in the longer stream.
   */
  lemma RecordStep(hash: Hash, d: nat, w: nat, items: seq<seq<Byte>>, b: seq<Byte>,
                   prev: seq<seq<UInt64>>, offs: seq<UInt64>, c: UInt64)
    requires d == 0 || w > 0
    requires prev == Run(hash, d, w, items) && offs == Columns(hash, b, d, w)
    requires c == Candidate(prev, offs)
    ensures Update(prev, offs, c) == Run(hash, d, w, items + [b])
    ensures d >= 1 && |items| < MAX_UINT64 ==> c >= multiset(items + [b])[b]
  {
    RunSnoc(hash, d, w, items, b);
    if d >= 1 && |items| < MAX_UINT64 {
      CandidateIsNewEstimate(hash, d, w, items, b);
    }
  }

  /** The sketch's estimate for b: the smallest of the cells b hashes to. */
  function Estimate(hash: Hash, m: seq<seq<UInt64>>, w: nat, b: seq<Byte>): UInt64
    requires Shaped(m, |m|, w) && (|m| == 0 || w > 0)
  {
    Min(Probe(m, Columns(hash, b, |m|, w)))
  }

  /** Every counter is at most n. */
  predicate AtMost(m: seq<seq<UInt64>>, n: int)
  {
    forall i, j :: 0 <= i < |m| && 0 <= j < |m[i]| ==> m[i][j] <= n
  }

  // ---------------------------------------------------------------------
  // One update

  /**
   * With d >= 1 rows and the smallest probed cell below math.MaxUint64, the
   * cells that change are exactly the probed cells holding the old minimum;
   * each of them lands on the candidate, one more than before; no cell
   * decreases.
   */
  lemma RaisesExactlyMinimalCells(m: seq<seq<UInt64>>, offs: seq<UInt64>)
    requires Fits(m, offs) && Min(Probe(m, offs)) < MAX_UINT64
    ensures var c, r := Candidate(m, offs), Update(m, offs, Candidate(m, offs));
      c == Min(Probe(m, offs)) + 1 &&
      (forall i :: 0 <= i < |m| ==>
         (r[i][offs[i]] != m[i][offs[i]] <==> m[i][offs[i]] == Min(Probe(m, offs)))) &&
      (forall i :: 0 <= i < |m| && r[i][offs[i]] != m[i][offs[i]] ==>
         r[i][offs[i]] == c && r[i][offs[i]] == m[i][offs[i]] + 1)
  {
    var p := Probe(m, offs);
    forall i | 0 <= i < |m|
      ensures m[i][offs[i]] >= Min(p)
    {
      assert p[i] == m[i][offs[i]];
    }
  }

  /** No cell ever decreases, and each rises by at most one. */
  lemma UpdateNeverDecreases(m: seq<seq<UInt64>>, offs: seq<UInt64>, c: UInt64)
    requires Fits(m, offs)
    ensures var r := Update(m, offs, c);
      forall i, j :: 0 <= i < |m| && 0 <= j < |m[i]| ==> m[i][j] <= r[i][j] <= m[i][j] as int + 1
  {
  }

  /**
   * After the update the probed cells are all at least the candidate and
   * their minimum is the candidate. With d = 0 there is no minimum and
   * max++ wraps math.MaxUint64 to 0, which is why d >= 1 is needed.
   */
  lemma PostUpdateMin(m: seq<seq<UInt64>>, offs: seq<UInt64>)
    requires Fits(m, offs) && |offs| >= 1 && Min(Probe(m, offs)) < MAX_UINT64
    ensures var c, r := Candidate(m, offs), Update(m, offs, Candidate(m, offs));
      (forall i :: 0 <= i < |offs| ==> r[i][offs[i]] >= c) &&
      Min(Probe(r, offs)) == c
  {
    var c, r := Candidate(m, offs), Update(m, offs, Candidate(m, offs));
    var p, q := Probe(m, offs), Probe(r, offs);
    var k :| 0 <= k < |p| && Min(p) == p[k];
    forall i | 0 <= i < |offs|
      ensures r[i][offs[i]] >= c
    {
      assert p[i] == m[i][offs[i]] >= Min(p);
    }
    assert q[k] == c;
  }

  /** With d = 0, or every probed cell at math.MaxUint64, the candidate wraps to 0 and nothing changes. */
  lemma WrapLeavesSketch(m: seq<seq<UInt64>>, offs: seq<UInt64>)
    requires Fits(m, offs) && Min(Probe(m, offs)) == MAX_UINT64
    ensures Candidate(m, offs) == 0
    ensures Update(m, offs, Candidate(m, offs)) == m
  {
    var r := Update(m, offs, 0);
    forall i | 0 <= i < |m|
      ensures r[i] == m[i]
    {
      assert r[i] == Bump(m[i], offs[i], 0);
    }
  }

  /** A pointwise smaller sequence has a smaller minimum. */
  lemma MinMonotone(s: seq<UInt64>, t: seq<UInt64>)
    requires |s| == |t| && forall i :: 0 <= i < |s| ==> s[i] <= t[i]
    ensures Min(s) <= Min(t)
  {
    if |t| > 0 {
      var k :| 0 <= k < |t| && Min(t) == t[k];
      assert Min(s) <= s[k];
    }
  }

  /** The estimates of all items never decrease under an update. */
  lemma EstimatesNeverDecrease(hash: Hash, m: seq<seq<UInt64>>, w: nat, offs: seq<UInt64>, c: UInt64, b: seq<Byte>)
    requires Shaped(m, |m|, w) && (|m| == 0 || w > 0) && Fits(m, offs)
    ensures Shaped(Update(m, offs, c), |m|, w)
    ensures Estimate(hash, m, w, b) <= Estimate(hash, Update(m, offs, c), w, b)
  {
    var r := Update(m, offs, c);
    var cols := Columns(hash, b, |m|, w);
    UpdateNeverDecreases(m, offs, c);
    MinMonotone(Probe(m, cols), Probe(r, cols));
  }

  // ---------------------------------------------------------------------
  // A whole stream

  /** No counter exceeds the number of items recorded: each update adds at most one. */
  lemma {:induction false} RunBounded(hash: Hash, d: nat, w: nat, items: seq<seq<Byte>>)
    requires items == [] || d == 0 || w > 0
    ensures AtMost(Run(hash, d, w, items), |items|)
  {
    if items != [] {
      var pre := items[..|items| - 1];
      RunBounded(hash, d, w, pre);
      var prev := Run(hash, d, w, pre);
      var offs := Columns(hash, items[|items| - 1], d, w);
      UpdateNeverDecreases(prev, offs, Candidate(prev, offs));
    }
  }

  /**
   * One-sided error: while fewer than 2^64 items have been recorded, the
   * estimate for any item is at least the number of times it was recorded.
   */
  lemma {:induction false} RunNoUndercount(hash: Hash, d: nat, w: nat, items: seq<seq<Byte>>, b: seq<Byte>)
    requires d >= 1 && w > 0 && |items| <= MAX_UINT64
    ensures Estimate(hash, Run(hash, d, w, items), w, b) >= multiset(items)[b]
  {
    if items != [] {
      var pre, last := items[..|items| - 1], items[|items| - 1];
      assert items == pre + [last];
      RunNoUndercount(hash, d, w, pre, b);
      NoUndercountStep(hash, d, w, pre, last, b);
    }
  }

  /** The induction step of RunNoUndercount: recording last keeps b's estimate at or above its count. */
  lemma NoUndercountStep(hash: Hash, d: nat, w: nat, pre: seq<seq<Byte>>, last: seq<Byte>, b: seq<Byte>)
    requires d >= 1 && w > 0 && |pre| < MAX_UINT64
    requires Estimate(hash, Run(hash, d, w, pre), w, b) >= multiset(pre)[b]
    ensures Estimate(hash, Run(hash, d, w, pre + [last]), w, b) >= multiset(pre + [last])[b]
  {
    var prev := Run(hash, d, w, pre);
    var offs := Columns(hash, last, d, w);
    RunSnoc(hash, d, w, pre, last);
    EstimatesNeverDecrease(hash, prev, w, offs, Candidate(prev, offs), b);
    if last == b {
      RunBounded(hash, d, w, pre);
      ProbedBelowMax(prev, offs, |pre|);
      PostUpdateMin(prev, offs);
    }
  }

  /**
   * A cell that no other item of the stream hashes to counts only b: if in
   * row r every item other than b lands in a different column from b, then
   * b's cell in that row is at most the number of times b was recorded.
   */
  lemma {:induction false} CellAtMostCount(hash: Hash, d: nat, w: nat, items: seq<seq<Byte>>, b: seq<Byte>, r: nat)
    requires d >= 1 && w > 0 && r < d
    requires forall a :: a in items && a != b ==> Columns(hash, a, d, w)[r] != Columns(hash, b, d, w)[r]
    ensures Run(hash, d, w, items)[r][Columns(hash, b, d, w)[r]] <= multiset(items)[b]
  {
    if items == [] {
      assert Zero(d, w)[r][Columns(hash, b, d, w)[r]] == 0;
    } else {
      var pre, last := items[..|items| - 1], items[|items| - 1];
      assert items == pre + [last];
      assert forall a :: a in pre ==> a in items;
      assert last != b ==> Columns(hash, last, d, w)[r] != Columns(hash, b, d, w)[r] by {
        assert last in items;
      }
      CellAtMostCount(hash, d, w, pre, b, r);
      CellStep(hash, d, w, pre, last, b, r);
    }
  }

  /** The induction step of CellAtMostCount: recording last raises b's cell only when last is b. */
  lemma CellStep(hash: Hash, d: nat, w: nat, pre: seq<seq<Byte>>, last: seq<Byte>, b: seq<Byte>, r: nat)
    requires d >= 1 && w > 0 && r < d
    requires last != b ==> Columns(hash, last, d, w)[r] != Columns(hash, b, d, w)[r]
    requires Run(hash, d, w, pre)[r][Columns(hash, b, d, w)[r]] <= multiset(pre)[b]
    ensures Run(hash, d, w, pre + [last])[r][Columns(hash, b, d, w)[r]] <= multiset(pre + [last])[b]
  {
    var prev := Run(hash, d, w, pre);
    var offs := Columns(hash, last, d, w);
    RunSnoc(hash, d, w, pre, last);
    assert multiset(pre + [last])[b] == multiset(pre)[b] + if last == b then 1 else 0;
    UpdateCell(prev, offs, Candidate(prev, offs), r, Columns(hash, b, d, w)[r], multiset(pre)[b], last == b);
  }

  /** One update raises a cell by at most one, and leaves it alone when its row probes another column. */
  lemma UpdateCell(m: seq<seq<UInt64>>, offs: seq<UInt64>, c: UInt64, r: nat, col: nat, n: nat, hit: bool)
    requires Fits(m, offs) && r < |m| && col < |m[r]| && m[r][col] <= n
    requires !hit ==> offs[r] != col
    ensures Update(m, offs, c)[r][col] <= if hit then n + 1 else n
  {
  }

  /**
   * The other half of one-sided error: in the absence of collisions the
   * estimate is exact. If some row separates b from every other item of the
   * stream, b's estimate is exactly the number of times it was recorded.
   */
  lemma RunExactWithoutCollision(hash: Hash, d: nat, w: nat, items: seq<seq<Byte>>, b: seq<Byte>, r: nat)
    requires d >= 1 && w > 0 && r < d && |items| <= MAX_UINT64
    requires forall a :: a in items && a != b ==> Columns(hash, a, d, w)[r] != Columns(hash, b, d, w)[r]
    ensures Estimate(hash, Run(hash, d, w, items), w, b) == multiset(items)[b]
  {
    var m := Run(hash, d, w, items);
    var offs := Columns(hash, b, d, w);
    assert Probe(m, offs)[r] == m[r][offs[r]];
    CellAtMostCount(hash, d, w, items, b, r);
    RunNoUndercount(hash, d, w, items, b);
  }

  /** With every counter at most n < math.MaxUint64, the smallest probed cell is below math.MaxUint64. */
  lemma ProbedBelowMax(m: seq<seq<UInt64>>, offs: seq<UInt64>, n: nat)
    requires Fits(m, offs) && |offs| >= 1 && AtMost(m, n) && n < MAX_UINT64
    ensures Min(Probe(m, offs)) <= n
  {
    assert Probe(m, offs)[0] == m[0][offs[0]];
  }

  /**
   * The candidate Record computes for b is the estimate the sketch holds for
   * b right afterwards, and it is at least the number of times b has been
   * recorded, this occurrence included.
   */
  lemma CandidateIsNewEstimate(hash: Hash, d: nat, w: nat, items: seq<seq<Byte>>, b: seq<Byte>)
    requires d >= 1 && w > 0 && |items| < MAX_UINT64
    ensures var prev := Run(hash, d, w, items);
      var c := Candidate(prev, Columns(hash, b, d, w));
      c == Estimate(hash, Run(hash, d, w, items + [b]), w, b) &&
      c >= multiset(items + [b])[b]
  {
    var prev := Run(hash, d, w, items);
    var offs := Columns(hash, b, d, w);
    assert (items + [b])[..|items|] == items;
    RunBounded(hash, d, w, items);
    ProbedBelowMax(prev, offs, |items|);
    PostUpdateMin(prev, offs);
    RunNoUndercount(hash, d, w, items + [b], b);
  }

  /** Recording one more item never lowers an estimate. */
  lemma RunStepMonotone(hash: Hash, d: nat, w: nat, items: seq<seq<Byte>>, last: seq<Byte>, b: seq<Byte>)
    requires d == 0 || w > 0
    ensures Estimate(hash, Run(hash, d, w, items), w, b) <= Estimate(hash, Run(hash, d, w, items + [last]), w, b)
  {
    var prev := Run(hash, d, w, items);
    var offs := Columns(hash, last, d, w);
    var next := Update(prev, offs, Candidate(prev, offs));
    EstimatesNeverDecrease(hash, prev, w, offs, Candidate(prev, offs), b);
    RunSnoc(hash, d, w, items, last);
    assert Run(hash, d, w, items + [last]) == next;
  }

  /** Recording further items never lowers an estimate. */
  lemma {:induction false} RunMonotone(hash: Hash, d: nat, w: nat, items: seq<seq<Byte>>, more: seq<seq<Byte>>, b: seq<Byte>)
    requires d == 0 || w > 0
    ensures Estimate(hash, Run(hash, d, w, items), w, b) <= Estimate(hash, Run(hash, d, w, items + more), w, b)
    decreases |more|
  {
    if more == [] {
      assert items + more == items;
    } else {
      var pre, last := more[..|more| - 1], more[|more| - 1];
      var mid := items + pre;
      assert items + more == mid + [last];
      RunMonotone(hash, d, w, items, pre, b);
      RunStepMonotone(hash, d, w, mid, last, b);
    }
  }

  /**
   * Successive candidates for the same item strictly increase: the one
   * computed at a later occurrence of b exceeds the one computed at an
   * earlier occurrence, whatever was recorded in between.
   */
  lemma CandidatesIncrease(hash: Hash, d: nat, w: nat, before: seq<seq<Byte>>, b: seq<Byte>, between: seq<seq<Byte>>)
    requires d >= 1 && w > 0 && |before + [b] + between| < MAX_UINT64
    ensures var offs := Columns(hash, b, d, w);
      Candidate(Run(hash, d, w, before), offs) <
      Candidate(Run(hash, d, w, before + [b] + between), offs)
  {
    var offs := Columns(hash, b, d, w);
    var later := before + [b] + between;
    CandidateIsNewEstimate(hash, d, w, before, b);
    RunMonotone(hash, d, w, before + [b], between, b);
    RunBounded(hash, d, w, later);
    ProbedBelowMax(Run(hash, d, w, later), offs, |later|);
  }
}
