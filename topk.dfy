/**
 * topK: the approximate top-K recorder. A count-min sketch (d rows of w
 * uint64 counters, updated conservatively) estimates how often each item has
 * been recorded, and a fixed-capacity min-heap of (item, estimate) entries
 * keeps the k best. The hash is a parameter fixed at construction.
 */
module TopK {
  import opened Uint
  import opened Order
  import Sketch
  import Heap

  datatype Error =
    | CountMismatch    // Top(n) with n other than the capacity given to newTopK
    | CannotEnumerate  // All(): a sketch cannot list every item it has seen

  datatype Result<T> = Success(value: T) | Failure(error: Error)

  class TopK {
    /** The sketch's counters: d rows of w uint64 cells, allocated once by newTopK. */
    const x: array2<UInt64>
    const w: nat
    const d: nat
    /** The k tracked (item, estimate) slots, kept as a min-heap on the estimate. */
    const top: Heap.TopHeap
    /** The column Record probes in each row for the current item, reused across calls. */
    const h: array<UInt64>
    /** murmur3.Sum128 */
    const hash: Sketch.Hash

    /** The capacity k: the number of heap slots. */
    ghost const K: nat
    /** The counters, row by row. */
    ghost var Cells: seq<seq<UInt64>>
    /** The items recorded so far, in order. */
    ghost var Recorded: seq<seq<Byte>>

    /** The representation: Cells mirrors the d x w counter array. */
    ghost predicate Wf()
      reads this`Cells, x
    {
      x.Length0 == d && x.Length1 == w && h.Length == d &&
      Sketch.Shaped(Cells, d, w) &&
      forall i, j :: 0 <= i < d && 0 <= j < w ==> x[i, j] == Cells[i][j]
    }

    /**
     * The object invariant: the counters are those of the sketch after the
     * recorded stream, and the slots form a min-heap of k entries in which no
     * item is tracked twice.
     */
    ghost predicate Valid()
      reads this, x, top
    {
      Wf() &&
      (Recorded == [] || d == 0 || w > 0) &&
      Cells == Sketch.Run(hash, d, w, Recorded) &&
      |top.items| == K && Heap.IsHeap(top.items) && Heap.UniqueTracked(multiset(top.items))
    }

    /**
     * newTopK(k, d, w): d zeroed rows of w counters, k slots {"", 0} and d
     * cached offsets.
     */
    constructor (k: nat, d: nat, w: nat, hash: Sketch.Hash)
      ensures Valid() && fresh(x) && fresh(h) && fresh(top)
      ensures this.d == d && this.w == w && K == k && this.hash == hash
      ensures Cells == Sketch.Zero(d, w) && Recorded == []
      ensures forall i, j :: 0 <= i < d && 0 <= j < w ==> x[i, j] == 0
      ensures forall i :: 0 <= i < k ==> top.items[i] == StringCount([], 0)
      ensures h.Length == d
    {
      x := new UInt64[d, w]((_, _) => 0);
      top := new Heap.TopHeap(k);
      h := new UInt64[d](_ => 0);
      this.w, this.d, this.hash := w, d, hash;
      K := k;
      Cells := Sketch.Zero(d, w);
      Recorded := [];
      new;
      assert top.items == seq(k, _ => StringCount([], 0));
    }

    /**
     * Record(b): update the sketch conservatively with b's columns and offer
     * the new estimate to the heap. The candidate c is one more than the
     * smallest cell b probes, wrapping to 0 past math.MaxUint64.
     */
    method Record(b: seq<Byte>)
      requires Valid() && K >= 1 && (d == 0 || w > 0)
      modifies this, x, h, top
      ensures Valid()
      ensures Recorded == old(Recorded) + [b]
      ensures var offs := Sketch.Columns(hash, b, d, w);
        var c := Sketch.Candidate(old(Cells), offs);
        h[..] == offs &&
        Cells == Sketch.Update(old(Cells), offs, c) &&
        multiset(top.items) == multiset(Heap.Admit(old(top.items), b, c)) &&
        (c < old(top.items)[0].n ==> top.items == old(top.items)) &&
        (d >= 1 && |Recorded| <= MAX_UINT64 ==> c >= multiset(Recorded)[b])
    {
      var c := UpdateSketch(b);
      Offer(b, c);
    }

    /**
     * The first half of Record: the three loops over the rows, which hash b
     * to one column per row, find the smallest probed cell, and raise the
     * probed cells below the candidate; returns the candidate.
     */
    method UpdateSketch(b: seq<Byte>) returns (c: UInt64)
      requires Wf() && (d == 0 || w > 0) && Cells == Sketch.Run(hash, d, w, Recorded)
      modifies this`Recorded, this`Cells, x, h
      ensures Wf() && Cells == Sketch.Run(hash, d, w, Recorded)
      ensures Recorded == old(Recorded) + [b]
      ensures var offs := Sketch.Columns(hash, b, d, w);
        c == Sketch.Candidate(old(Cells), offs) &&
        h[..] == offs &&
        Cells == Sketch.Update(old(Cells), offs, c) &&
        (d >= 1 && |Recorded| <= MAX_UINT64 ==> c >= multiset(Recorded)[b])
    {
      ghost var prev, items := Cells, Recorded;
      c := Locate(b);
      ghost var offs := h[..];
      Increment(c);
      Sketch.RecordStep(hash, d, w, items, b, prev, offs, c);
      Recorded := items + [b];
    }

    /**
     * The first two loops of Record: cache b's column in each row and return
     * the candidate, one more than the smallest probed cell.
     */
    method Locate(b: seq<Byte>) returns (c: UInt64)
      requires Wf() && (d == 0 || w > 0)
      modifies h
      ensures Wf() && h[..] == Sketch.Columns(hash, b, d, w)
      ensures c == Sketch.Candidate(Cells, h[..])
    {
      var (hx, hy) := hash(b);
      FillOffsets(hx, hy);
      var least := ProbeMin();
      // the candidate: the probed minimum plus one, wrapping past math.MaxUint64
      c := Add64(least, 1);
    }

    /** The first loop of Record: t.h[i] = (x + uint64(i)*y) % uint64(t.w). */
    method FillOffsets(hx: UInt64, hy: UInt64)
      requires Wf() && (d == 0 || w > 0)
      modifies h
      ensures h[..] == Sketch.Offsets(hx, hy, d, w)
    {
      for i := 0 to d
        invariant forall j :: 0 <= j < i ==> h[j] == Sketch.Offset(hx, hy, j, w)
      {
        h[i] := Sketch.Offset(hx, hy, i, w);
      }
    }

    /** The second loop of Record: the smallest probed cell, math.MaxUint64 when d = 0. */
    method ProbeMin() returns (least: UInt64)
      requires Wf() && Sketch.Fits(Cells, h[..])
      ensures least == Sketch.Min(Sketch.Probe(Cells, h[..]))
    {
      ghost var p := Sketch.Probe(Cells, h[..]);
      least := MAX_UINT64;
      for i := 0 to d
        invariant least == Sketch.Min(p[..i])
      {
        assert p[..i + 1][..i] == p[..i];
        var v := x[i, h[i]];
        assert v == p[i];
        if v < least {
          least := v;
        }
      }
      assert p[..d] == p;
    }

    /** The third loop of Record: raise each probed cell below c by one. */
    method Increment(c: UInt64)
      requires Wf() && Sketch.Fits(Cells, h[..])
      modifies x, this`Cells
      ensures Wf() && Cells == Sketch.Update(old(Cells), h[..], c)
    {
      ghost var next := Sketch.Update(Cells, h[..], c);
      for i := 0 to d
        invariant Cells == old(Cells)
        invariant forall p, q :: 0 <= p < d && 0 <= q < w ==>
                    x[p, q] == if p < i then next[p][q] else Cells[p][q]
      {
        var v := x[i, h[i]];
        if v < c {
          x[i, h[i]] := v + 1;
        }
      }
      Cells := next;
    }

    /**
     * The scan of t.top for a slot already tracking b; |top.items| when there
     * is none.
     */
    method Tracking(b: seq<Byte>) returns (i: nat)
      ensures i == Heap.FirstTracking(top.items, b)
      ensures i < |top.items| ==> Heap.Tracks(top.items[i], b)
      ensures i == |top.items| <==> forall j :: 0 <= j < |top.items| ==> !Heap.Tracks(top.items[j], b)
    {
      i := 0;
      while i < |top.items|
        invariant i <= |top.items|
        invariant forall j :: 0 <= j < i ==> !Heap.Tracks(top.items[j], b)
      {
        var e := top.items[i];
        if b == e.s && e.n > 0 {
          return;
        }
        i := i + 1;
      }
    }

    /** The second half of Record: offer estimate c for b to the heap. */
    method Offer(b: seq<Byte>, c: UInt64)
      requires |top.items| >= 1 && Heap.IsHeap(top.items) && Heap.UniqueTracked(multiset(top.items))
      modifies top
      ensures |top.items| == |old(top.items)| && Heap.IsHeap(top.items)
      ensures Heap.UniqueTracked(multiset(top.items))
      ensures multiset(top.items) == multiset(Heap.Admit(old(top.items), b, c))
      ensures c < old(top.items)[0].n ==> top.items == old(top.items)
    {
      Heap.AdmitUpdatesOrEvicts(top.items, b, c);
      if c < top.items[0].n {
        return;
      }
      var i := Tracking(b);
      if i < |top.items| {
        // b already has a slot: give it the new count
        Heap.HeapAfterSet(top.items, i, top.items[i].(n := c));
        top.items := top.items[i := top.items[i].(n := c)];
        top.Fix(i);
        return;
      }
      // b has no slot: overwrite the root, which holds the smallest count
      Heap.HeapAfterSet(top.items, 0, StringCount(b, c));
      top.items := top.items[0 := StringCount(b, c)];
      top.Fix(0);
    }

    /**
     * Top(n): a copy of the slots sorted by stringsByCount.Less, count
     * descending and then string ascending; fails unless n is the capacity.
     * The slots themselves are left alone: only the copy is sorted.
     */
    method Top(n: int) returns (r: Result<seq<StringCount>>)
      ensures r.Failure? <==> n != |top.items|
      ensures r.Failure? ==> r.error == CountMismatch
      ensures r.Success? ==> Sorted(r.value) && multiset(r.value) == multiset(top.items)
    {
      if n != |top.items| {
        return Failure(CountMismatch);
      }
      var items := top.items;
      var a := new StringCount[|items|](i requires 0 <= i < |items| => items[i]);
      assert a[..] == items;
      SortByCount(a);
      return Success(a[..]);
    }

    /** All(): a sketch cannot enumerate what it has seen, so this always fails. */
    method All() returns (r: Result<seq<StringCount>>)
      ensures r == Failure(CannotEnumerate)
    {
      return Failure(CannotEnumerate);
    }

    /**
     * Two snapshots of the same slots are identical: the only ties under
     * stringsByCount.Less are equal entries, so the sorted copy is determined.
     */
    method TopTwice(n: int) returns (r1: Result<seq<StringCount>>, r2: Result<seq<StringCount>>)
      ensures r1 == r2
      ensures r1.Success? <==> n == |top.items|
    {
      r1 := Top(n);
      r2 := Top(n);
      if r1.Success? {
        SortedUnique(r1.value, r2.value);
      }
    }
  }
}
