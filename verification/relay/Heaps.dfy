// Entries waiting to expire, in a binary heap kept by sifting up and down.
module Heaps {

  datatype ExpiringEvent = ExpiringEvent(id: string, expiresAt: int)

  type Entries = seq<ExpiringEvent>

  function Parent(i: nat): nat
    requires i > 0
  {
    (i - 1) / 2
  }

  predicate NotAfter(h: Entries, i: nat, j: nat)
    requires i < |h| && j < |h|
  {
    h[i].expiresAt <= h[j].expiresAt
  }

  // Below index n, every child of an index from lo on expires no earlier than
  // its parent.
  ghost predicate HeapFrom(h: Entries, n: nat, lo: nat) {
    n <= |h| && forall i :: 0 < i < n && Parent(i) >= lo ==> NotAfter(h, Parent(i), i)
  }

  ghost predicate IsHeap(h: Entries) {
    HeapFrom(h, |h|, 0)
  }

  function Swap(h: Entries, i: nat, j: nat): Entries
    requires i < |h| && j < |h|
  {
    h[i := h[j]][j := h[i]]
  }

  lemma SwapKeepsEntries(h: Entries, i: nat, j: nat)
    requires i < |h| && j < |h|
    ensures multiset(Swap(h, i, j)) == multiset(h)
  {
  }

  lemma {:induction false} RootIsLeast(h: Entries, i: nat)
    requires IsHeap(h) && i < |h|
    ensures NotAfter(h, 0, i)
  {
    if i > 0 {
      assert NotAfter(h, Parent(i), i);
      RootIsLeast(h, Parent(i));
    }
  }

  // ----- sifting up -----

  // Only j may expire before its parent; its children already expire after it.
  ghost predicate UpTo(h: Entries, j: nat) {
    j < |h| &&
    (forall i :: 0 < i < |h| && i != j ==> NotAfter(h, Parent(i), i)) &&
    (forall i :: 0 < i < |h| && Parent(i) == j && j > 0 ==> NotAfter(h, Parent(j), i))
  }

  lemma UpStep(h: Entries, j: nat)
    requires UpTo(h, j) && j > 0 && h[j].expiresAt < h[Parent(j)].expiresAt
    ensures UpTo(Swap(h, Parent(j), j), Parent(j))
  {
    var p := Parent(j);
    var h' := Swap(h, p, j);
    forall i | 0 < i < |h'| && i != p
      ensures NotAfter(h', Parent(i), i)
    {
      assert i != j ==> NotAfter(h, Parent(i), i);
    }
    forall i | 0 < i < |h'| && Parent(i) == p && p > 0
      ensures NotAfter(h', Parent(p), i)
    {
      assert NotAfter(h, Parent(p), p);
      assert i != j ==> NotAfter(h, p, i);
    }
  }

  // ----- sifting down -----

  // Below n and from lo on, only the children of k may expire before it, and
  // k itself before its parent while it is where the sifting began.
  ghost predicate DownTo(h: Entries, n: nat, lo: nat, start: nat, k: nat) {
    n <= |h| && lo <= start <= k &&
    (forall i :: 0 < i < n && Parent(i) >= lo && Parent(i) != k && !(i == k == start) ==> NotAfter(h, Parent(i), i)) &&
    (forall i :: 0 < i < n && Parent(i) == k && k > 0 && Parent(k) >= lo ==> NotAfter(h, Parent(k), i))
  }

  // The child that expires first.
  function FirstChild(h: Entries, n: nat, k: nat): (j: nat)
    requires 2 * k + 1 < n <= |h|
    ensures k < j < n && Parent(j) == k
    ensures forall i :: 0 < i < n && Parent(i) == k ==> NotAfter(h, j, i)
  {
    if 2 * k + 2 < n && h[2 * k + 2].expiresAt < h[2 * k + 1].expiresAt then 2 * k + 2 else 2 * k + 1
  }

  predicate ChildIsEarlier(h: Entries, n: nat, k: nat) {
    n <= |h| && 2 * k + 1 < n && h[FirstChild(h, n, k)].expiresAt < h[k].expiresAt
  }

  lemma DownStep(h: Entries, n: nat, lo: nat, start: nat, k: nat)
    requires DownTo(h, n, lo, start, k) && ChildIsEarlier(h, n, k)
    ensures var j := FirstChild(h, n, k);
            DownTo(Swap(h, k, j), n, lo, start, j) && Swap(h, k, j)[n..] == h[n..]
  {
    var j := FirstChild(h, n, k);
    var h' := Swap(h, k, j);
    forall i | 0 < i < n && Parent(i) >= lo && Parent(i) != j
      ensures NotAfter(h', Parent(i), i)
    {
      if i == k {
        assert NotAfter(h, Parent(k), j);
      } else if Parent(i) == k {
        assert NotAfter(h, j, i);
      } else {
        assert NotAfter(h, Parent(i), i);
      }
    }
    forall i | 0 < i < n && Parent(i) == j
      ensures NotAfter(h', k, i)
    {
      assert NotAfter(h, j, i);
    }
  }

  // Where no child expires before k, sifting down ends; if it moved at all
  // everything is in order, else all but the starting index.
  lemma DownEnds(h: Entries, n: nat, lo: nat, start: nat, k: nat)
    requires DownTo(h, n, lo, start, k) && k < |h| && !ChildIsEarlier(h, n, k)
    ensures k > start ==> HeapFrom(h, n, lo)
    ensures forall i :: 0 < i < n && Parent(i) >= lo && i != start ==> NotAfter(h, Parent(i), i)
  {
    forall i | 0 < i < n && Parent(i) == k
      ensures NotAfter(h, k, i)
    {
      assert NotAfter(h, FirstChild(h, n, k), i);
    }
  }

  // ----- where the sifting begins -----

  // The last entry put in place of entry i.
  lemma FilledHole(h: Entries, i: nat)
    requires IsHeap(h) && i < |h| - 1
    ensures DownTo(Swap(h, i, |h| - 1), |h| - 1, 0, i, i)
    ensures forall k :: 0 < k < |h| - 1 && Parent(k) == i && i > 0 ==> NotAfter(Swap(h, i, |h| - 1), Parent(i), k)
  {
    var n := |h| - 1;
    var h' := Swap(h, i, n);
    forall k | 0 < k < n && Parent(k) != i && k != i
      ensures NotAfter(h', Parent(k), k)
    {
      assert NotAfter(h, Parent(k), k);
    }
    forall k | 0 < k < n && Parent(k) == i && i > 0
      ensures NotAfter(h', Parent(i), k)
    {
      assert NotAfter(h, Parent(i), i) && NotAfter(h, i, k);
    }
  }

  lemma AppendedAtTheEnd(h: Entries, x: ExpiringEvent)
    requires IsHeap(h)
    ensures UpTo(h + [x], |h|)
  {
    forall i | 0 < i < |h|
      ensures NotAfter(h + [x], Parent(i), i)
    {
      assert NotAfter(h, Parent(i), i);
    }
  }

  // After the last entry is cut off, sifting up may begin at i if sifting down
  // did not move.
  lemma UnmovedCanGoUp(h: Entries, i: nat)
    requires |h| > 0 && i < |h| - 1
    requires forall k :: 0 < k < |h| - 1 && k != i ==> NotAfter(h, Parent(k), k)
    requires forall k :: 0 < k < |h| - 1 && Parent(k) == i && i > 0 ==> NotAfter(h, Parent(i), k)
    ensures UpTo(h[..|h| - 1], i)
  {
    forall k | 0 < k < |h| - 1 && k != i
      ensures NotAfter(h[..|h| - 1], Parent(k), k)
    {
      assert NotAfter(h, Parent(k), k);
    }
    forall k | 0 < k < |h| - 1 && Parent(k) == i && i > 0
      ensures NotAfter(h[..|h| - 1], Parent(i), k)
    {
      assert NotAfter(h, Parent(i), k);
    }
  }

  lemma PrefixIsHeap(h: Entries)
    requires |h| > 0 && HeapFrom(h, |h| - 1, 0)
    ensures IsHeap(h[..|h| - 1])
  {
    forall i | 0 < i < |h| - 1
      ensures NotAfter(h[..|h| - 1], Parent(i), i)
    {
      assert NotAfter(h, Parent(i), i);
    }
  }

  lemma LastCanGo(h: Entries)
    requires IsHeap(h) && h != []
    ensures IsHeap(h[..|h| - 1])
  {
    PrefixIsHeap(h);
  }
}
