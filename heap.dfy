/**
 * topHeap: the slice of tracked (string, count) entries kept as a binary
 * min-heap on the count, with the heap.Interface methods Len, Less, Swap,
 * Push and Pop, and container/heap's Fix written out as a sift-down followed,
 * when the entry did not move, by a sift-up.
 */
module Heap {
  import opened Uint
  import opened Order

  /** The edge into j holds: j's count is not below its parent's. */
  predicate Ordered(s: seq<StringCount>, j: nat)
    requires 0 < j < |s|
  {
    s[(j - 1) / 2].n <= s[j].n
  }

  /** topHeap.Less order holds along every parent/child edge (heap.Init's invariant). */
  predicate IsHeap(s: seq<StringCount>)
  {
    forall j :: 0 < j < |s| ==> Ordered(s, j)
  }

  /**
   * What heap.Fix(h, i) needs: h was a heap before h[i] was overwritten, so every
   * edge not touching i holds and i's parent is not above i's children.
   */
  predicate FixReady(s: seq<StringCount>, i: nat)
    requires i < |s|
  {
    (forall j :: 0 < j < |s| && j != i && (j - 1) / 2 != i ==> Ordered(s, j)) &&
    (forall j :: 0 < j < |s| && (j - 1) / 2 == i && 0 < i ==> s[(i - 1) / 2].n <= s[j].n)
  }

  /** The state sift-up works from: only the edge into i may be out of order. */
  predicate UpReady(s: seq<StringCount>, i: nat)
    requires i < |s|
  {
    (forall j :: 0 < j < |s| && j != i ==> Ordered(s, j)) &&
    (forall j :: 0 < j < |s| && (j - 1) / 2 == i && 0 < i ==> s[(i - 1) / 2].n <= s[j].n)
  }

  /** Overwriting one entry of a heap leaves it ready for Fix at that index. */
  lemma HeapAfterSet(s: seq<StringCount>, i: nat, v: StringCount)
    requires IsHeap(s) && i < |s|
    ensures FixReady(s[i := v], i)
  {
    var t := s[i := v];
    forall j | 0 < j < |t| && j != i && (j - 1) / 2 != i
      ensures Ordered(t, j)
    {
      assert Ordered(s, j);
    }
    forall j | 0 < j < |t| && (j - 1) / 2 == i && 0 < i
      ensures t[(i - 1) / 2].n <= t[j].n
    {
      assert Ordered(s, i) && Ordered(s, j);
    }
  }

  /** The root of a heap holds the smallest count: the entry Record evicts is a minimum. */
  lemma {:induction false} RootIsMin(s: seq<StringCount>, j: nat)
    requires IsHeap(s) && j < |s|
    ensures s[0].n <= s[j].n
    decreases j
  {
    if j > 0 {
      assert Ordered(s, j);
      RootIsMin(s, (j - 1) / 2);
    }
  }

  /** One step of sift-down: swapping i with its smaller child c that is below it moves the gap to c. */
  lemma SwapDown(s: seq<StringCount>, i: nat, c: nat)
    requires c < |s| && (c == 2 * i + 1 || c == 2 * i + 2) && FixReady(s, i)
    requires s[c].n < s[i].n
    requires 2 * i + 1 < |s| ==> s[c].n <= s[2 * i + 1].n
    requires 2 * i + 2 < |s| ==> s[c].n <= s[2 * i + 2].n
    ensures var t := s[i := s[c]][c := s[i]];
      FixReady(t, c) && t[i].n <= t[c].n
  {
    var t := s[i := s[c]][c := s[i]];
    assert (c - 1) / 2 == i;
    forall j | 0 < j < |t| && j != c && (j - 1) / 2 != c
      ensures Ordered(t, j)
    {
      if j == i {
        // the bridge: i's parent is not above i's children
        assert s[(i - 1) / 2].n <= s[c].n;
      } else if (j - 1) / 2 == i {
        // the other child of i
        assert j == 2 * i + 1 || j == 2 * i + 2;
        assert t[j] == s[j];
      } else {
        assert Ordered(s, j);
        assert t[j] == s[j] && t[(j - 1) / 2] == s[(j - 1) / 2];
      }
    }
    forall j | 0 < j < |t| && (j - 1) / 2 == c
      ensures t[(c - 1) / 2].n <= t[j].n
    {
      assert Ordered(s, j);
      assert t[j] == s[j];
    }
  }

  /** Sift-down stops at i when no child is below it: only the edge into i may be out of order. */
  lemma DownDone(s: seq<StringCount>, i: nat)
    requires i < |s| && FixReady(s, i)
    requires 2 * i + 1 < |s| ==> s[i].n <= s[2 * i + 1].n
    requires 2 * i + 2 < |s| ==> s[i].n <= s[2 * i + 2].n
    ensures UpReady(s, i)
  {
    forall j | 0 < j < |s| && j != i
      ensures Ordered(s, j)
    {
      if (j - 1) / 2 == i {
        assert j == 2 * i + 1 || j == 2 * i + 2;
      }
    }
  }

  /** Sift-up stops at the root, or below a parent that is not above it: the heap is restored. */
  lemma UpDone(s: seq<StringCount>, j: nat)
    requires j < |s| && UpReady(s, j)
    requires 0 < j ==> s[(j - 1) / 2].n <= s[j].n
    ensures IsHeap(s)
  {
    forall c | 0 < c < |s|
      ensures Ordered(s, c)
    {
    }
  }

  /** One step of sift-up: swapping j with its parent p that is above it moves the gap to p. */
  lemma SwapUp(s: seq<StringCount>, j: nat)
    requires 0 < j < |s| && UpReady(s, j) && s[j].n < s[(j - 1) / 2].n
    ensures var p := (j - 1) / 2;
      UpReady(s[p := s[j]][j := s[p]], p)
  {
    var p := (j - 1) / 2;
    var t := s[p := s[j]][j := s[p]];
    forall c | 0 < c < |t| && c != p
      ensures Ordered(t, c)
    {
      if c == j {
      } else if (c - 1) / 2 == j {
        // a child of j: the bridge puts p's old entry not above it
        assert t[c] == s[c];
      } else if (c - 1) / 2 == p {
        // j's sibling: below p's old entry, which is above t[p]
        assert Ordered(s, c);
        assert t[c] == s[c];
      } else {
        assert Ordered(s, c);
        assert t[c] == s[c];
        if (c - 1) / 2 != j {
          assert t[(c - 1) / 2] == s[(c - 1) / 2];
        }
      }
    }
    forall c | 0 < c < |t| && (c - 1) / 2 == p && 0 < p
      ensures t[(p - 1) / 2].n <= t[c].n
    {
      assert Ordered(s, p);
      if c != j {
        assert Ordered(s, c);
        assert t[c] == s[c];
      }
    }
  }

  // ---------------------------------------------------------------------
  // Admission of a new estimate (the second half of Record)

  /** Entry e tracks item b: Record's test `string(b) == e.s && e.n > 0`. */
  predicate Tracks(e: StringCount, b: seq<Byte>)
  {
    e.s == b && e.n > 0
  }

  /** The index of the first slot tracking b, or |s| when none does: Record's scan over t.top. */
  function FirstTracking(s: seq<StringCount>, b: seq<Byte>): (i: nat)
    ensures i <= |s|
    ensures i < |s| ==> Tracks(s[i], b)
    ensures forall j :: 0 <= j < i ==> !Tracks(s[j], b)
  {
    if |s| == 0 then 0
    else if Tracks(s[0], b) then 0
    else 1 + FirstTracking(s[1..], b)
  }

  /**
   * The slots after Record offers estimate c for b, before heap.Fix moves
   * them: below the root's count nothing changes; otherwise a slot already
   * tracking b takes the new count, and failing that the root is replaced.
   */
  function Admit(s: seq<StringCount>, b: seq<Byte>, c: UInt64): seq<StringCount>
    requires |s| > 0
  {
    if c < s[0].n then s
    else
      var i := FirstTracking(s, b);
      if i < |s| then s[i := s[i].(n := c)] else s[0 := StringCount(b, c)]
  }

  /** No entry with a nonzero count is held twice, and no two such entries share a string. */
  predicate UniqueTracked(m: multiset<StringCount>)
  {
    forall e, f :: e in m && f in m && e.n > 0 && f.n > 0 && e.s == f.s ==> e == f && m[e] == 1
  }

  /**
   * Update-or-evict. An estimate at or above the root's count is always
   * admitted, as the entry (b, c); it overwrites the slot already tracking b
   * if there is one, and otherwise the root, whose count is the smallest;
   * the number of slots stays the same and no item gets a second slot.
   */
  lemma AdmitUpdatesOrEvicts(s: seq<StringCount>, b: seq<Byte>, c: UInt64)
    requires |s| > 0 && IsHeap(s) && UniqueTracked(multiset(s))
    ensures var r := Admit(s, b, c);
      |r| == |s| &&
      UniqueTracked(multiset(r)) &&
      (c < s[0].n ==> r == s) &&
      (c >= s[0].n ==> StringCount(b, c) in multiset(r)) &&
      (c >= s[0].n && (exists i :: 0 <= i < |s| && Tracks(s[i], b)) ==>
         exists i :: 0 <= i < |s| && Tracks(s[i], b) &&
           multiset(r) == multiset(s) - multiset{s[i]} + multiset{StringCount(b, c)}) &&
      (c >= s[0].n && (forall i :: 0 <= i < |s| ==> !Tracks(s[i], b)) ==>
         (forall j :: 0 <= j < |s| ==> s[0].n <= s[j].n) &&
         multiset(r) == multiset(s) - multiset{s[0]} + multiset{StringCount(b, c)})
  {
    var m := multiset(s);
    var v := StringCount(b, c);
    if c >= s[0].n {
      var i := FirstTracking(s, b);
      if i < |s| {
        UniqueAfterReplace(s, i, v);
      } else {
        forall j | 0 <= j < |s|
          ensures s[0].n <= s[j].n
        {
          RootIsMin(s, j);
        }
        UniqueAfterReplace(s, 0, v);
      }
    }
  }

  /**
   * Replacing one entry by v keeps UniqueTracked when v's string is not
   * tracked elsewhere: either the replaced entry tracked that string, or
   * nothing did.
   */
  lemma UniqueAfterReplace(s: seq<StringCount>, i: nat, v: StringCount)
    requires i < |s| && UniqueTracked(multiset(s))
    requires Tracks(s[i], v.s) || forall j :: 0 <= j < |s| ==> !Tracks(s[j], v.s)
    ensures multiset(s[i := v]) == multiset(s) - multiset{s[i]} + multiset{v}
    ensures UniqueTracked(multiset(s[i := v]))
  {
    var m, r := multiset(s), multiset(s[i := v]);
    assert r == m - multiset{s[i]} + multiset{v};
    assert s[i] in m;
    forall e, f | e in r && f in r && e.n > 0 && f.n > 0 && e.s == f.s
      ensures e == f && r[e] == 1
    {
      if e != v {
        assert e in m;
      }
      if f != v {
        assert f in m;
      }
      if v.n > 0 && v in m {
        var j :| 0 <= j < |s| && s[j] == v;
        assert Tracks(s[j], v.s);
      }
    }
  }

  class TopHeap {
    /** The slice: its length is the capacity k, fixed once Record starts. */
    var items: seq<StringCount>

    /** make(topHeap, k): k zero entries {"", 0}. */
    constructor (k: nat)
      ensures |items| == k
      ensures forall i :: 0 <= i < k ==> items[i] == StringCount([], 0)
    {
      items := seq(k, _ => StringCount([], 0));
    }

    /** topHeap.Len */
    function Len(): int
      reads this
    {
      |items|
    }

    /** topHeap.Less: the heap is ordered by count alone. */
    predicate Less(i: int, j: int)
      reads this
      requires 0 <= i < |items| && 0 <= j < |items|
    {
      items[i].n < items[j].n
    }

    /** topHeap.Swap */
    method Swap(i: int, j: int)
      requires 0 <= i < |items| && 0 <= j < |items|
      modifies this
      ensures items == old(items)[i := old(items)[j]][j := old(items)[i]]
      ensures multiset(items) == multiset(old(items))
    {
      items := items[i := items[j]][j := items[i]];
    }

    /** topHeap.Push: append at the end (never called by Record). */
    method Push(x: StringCount)
      modifies this
      ensures items == old(items) + [x]
    {
      items := items + [x];
    }

    /** topHeap.Pop: remove and return the last entry (never called by Record). */
    method Pop() returns (x: StringCount)
      requires |items| > 0
      modifies this
      ensures x == old(items)[|old(items)| - 1]
      ensures items == old(items)[..|old(items)| - 1]
      ensures old(items) == items + [x]
    {
      x := items[|items| - 1];
      items := items[..|items| - 1];
    }

    /**
     * container/heap's down(h, i0, h.Len()): move the entry at i0 towards the
     * leaves while a child is below it; report whether it moved.
     */
    method SiftDown(i0: nat) returns (moved: bool)
      requires i0 < |items| && FixReady(items, i0)
      modifies this
      ensures |items| == |old(items)| && multiset(items) == multiset(old(items))
      ensures moved ==> IsHeap(items)
      ensures !moved ==> items == old(items) && UpReady(items, i0)
    {
      var n := Len();
      var i := i0;
      while true
        invariant i0 <= i < n == |items|
        invariant multiset(items) == multiset(old(items))
        invariant FixReady(items, i)
        invariant i > i0 ==> items[(i - 1) / 2].n <= items[i].n
        invariant i == i0 ==> items == old(items)
        decreases n - i
      {
        var j1 := 2 * i + 1;
        if j1 >= n {
          break;
        }
        var j := j1;
        if j1 + 1 < n && Less(j1 + 1, j1) {
          j := j1 + 1;
        }
        if !Less(j, i) {
          break;
        }
        SwapDown(items, i, j);
        Swap(i, j);
        i := j;
      }
      DownDone(items, i);
      moved := i > i0;
      if moved {
        UpDone(items, i);
      }
    }

    /** container/heap's up(h, j): move the entry at j0 towards the root while it is below its parent. */
    method SiftUp(j0: nat)
      requires j0 < |items| && UpReady(items, j0)
      modifies this
      ensures |items| == |old(items)| && multiset(items) == multiset(old(items))
      ensures IsHeap(items)
    {
      var j: nat := j0;
      while true
        invariant j < |items| == |old(items)|
        invariant multiset(items) == multiset(old(items))
        invariant UpReady(items, j)
        decreases j
      {
        // Go's integer division truncates, so the parent of the root is the root itself.
        var i: nat := if j == 0 then 0 else (j - 1) / 2;
        if i == j || !Less(j, i) {
          break;
        }
        SwapUp(items, j);
        Swap(i, j);
        j := i;
      }
      UpDone(items, j);
    }

    /**
     * heap.Fix(h, i): after the entry at i has been overwritten, restore the
     * heap order without changing which entries the heap holds.
     */
    method Fix(i: nat)
      requires i < |items| && FixReady(items, i)
      modifies this
      ensures |items| == |old(items)| && multiset(items) == multiset(old(items))
      ensures IsHeap(items)
    {
      var moved := SiftDown(i);
      if !moved {
        SiftUp(i);
      }
    }
  }
}
