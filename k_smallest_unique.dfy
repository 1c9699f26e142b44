/**
 * `k_smallest_unique` over a sorted `ArrayVec<T, K>`: a fixed-capacity
 * buffer whose first `len` slots hold the working set in ascending order.
 *
 * Phase one inserts every new candidate at its binary-search position until
 * the buffer is full; phase two admits a candidate only when it is below the
 * current last element and not present, dropping the last element to make
 * room.  The method is proved to compute `Selection.Select`, the K smallest
 * distinct values in ascending order.
 */
module KSmallestUnique {
  import opened Selection

  /** The outcome of `binary_search`: `Ok(index)` of a match or `Err(insertion point)`. */
  datatype Search = Found(index: nat) | NotFound(insertAt: nat)

  /**
   * `binary_search` on the ascending slice a[..len]; the ghost ws names that
   * slice, so that the result can be stated about it.
   */
  method BinarySearch(a: array<int>, len: nat, x: int, ghost ws: seq<int>) returns (r: Search)
    requires len <= a.Length && ws == a[..len] && Ascending(ws)
    ensures r.Found? ==> r.index < len && a[r.index] == x && x in ws
    ensures r.NotFound? ==> r.insertAt <= len
    ensures r.NotFound? ==> forall j :: 0 <= j < r.insertAt ==> ws[j] < x
    ensures r.NotFound? ==> forall j :: r.insertAt <= j < len ==> x < ws[j]
  {
    var lo, hi := 0, len;
    while lo < hi
      invariant 0 <= lo <= hi <= len
      invariant forall j :: 0 <= j < lo ==> ws[j] < x
      invariant forall j :: hi <= j < len ==> x < ws[j]
    {
      var mid := (lo + hi) / 2;
      assert a[mid] == ws[mid];
      if a[mid] < x {
        lo := mid + 1;
      } else if x < a[mid] {
        hi := mid;
      } else {
        return Found(mid);
      }
    }
    return NotFound(lo);
  }

  /** `ArrayVec::insert`: a[idx..len] moves up one slot and x takes slot idx. */
  method Insert(a: array<int>, len: nat, idx: nat, x: int)
    requires idx <= len < a.Length
    modifies a
    ensures a[..len + 1] == old(a[..len])[..idx] + [x] + old(a[..len])[idx..]
  {
    ghost var ws := a[..len];
    var i := len;
    while i > idx
      invariant idx <= i <= len
      invariant forall j :: 0 <= j < i ==> a[j] == old(a[j])
      invariant forall j :: i < j <= len ==> a[j] == old(a[j - 1])
    {
      a[i] := a[i - 1];
      i := i - 1;
    }
    a[idx] := x;
    assert forall j :: 0 <= j <= len ==> a[..len + 1][j] == (ws[..idx] + [x] + ws[idx..])[j];
  }

  // ---------------------------------------------------------------------
  // One candidate, as each branch of the two loops sees it

  /**
   * A candidate that `binary_search` finds is skipped, and the unchanged
   * working set is still the K smallest distinct values of the candidates
   * read, the skipped one included.
   */
  lemma PresentUnchanged(ws: seq<int>, vals: seq<int>, x: int, k: nat)
    requires Summarizes(ws, vals, k) && x in ws
    ensures Summarizes(ws, vals + [x], k)
  {
    KeepSummarizes(ws, vals, x, k);
    assert Keep(ws, x, k) == ws;
  }

  /** Phase one: below capacity, a new candidate goes in at its insertion point. */
  lemma PhaseOneInsert(ws: seq<int>, x: int, k: nat, idx: nat)
    requires Ascending(ws) && |ws| < k && idx <= |ws|
    requires forall j :: 0 <= j < idx ==> ws[j] < x
    requires forall j :: idx <= j < |ws| ==> x < ws[j]
    ensures Keep(ws, x, k) == ws[..idx] + [x] + ws[idx..]
    ensures |Keep(ws, x, k)| == |ws| + 1
  {
    InsertAtPosition(ws, x, idx);
  }

  /** Phase two: a candidate at or above the current last element is discarded. */
  lemma PhaseTwoDiscard(ws: seq<int>, x: int, k: nat)
    requires Ascending(ws) && |ws| == k > 0 && ws[k - 1] <= x
    ensures Keep(ws, x, k) == ws
  {
    if x !in ws {
      InsertSortedLast(ws, x);
      assert (ws + [x])[..k] == ws;
    }
  }

  /**
   * Phase two: a new candidate below the last element has an insertion
   * point of at most K - 1; truncating to K - 1 and inserting there gives
   * back K elements, without the old maximum.
   */
  lemma PhaseTwoInsert(ws: seq<int>, x: int, k: nat, idx: nat)
    requires Ascending(ws) && |ws| == k > 0 && x < ws[k - 1]
    requires idx <= |ws|
    requires forall j :: 0 <= j < idx ==> ws[j] < x
    requires forall j :: idx <= j < |ws| ==> x < ws[j]
    ensures idx <= k - 1
    ensures Keep(ws, x, k) == ws[..k - 1][..idx] + [x] + ws[..k - 1][idx..]
    ensures |Keep(ws, x, k)| == k && ws[k - 1] !in Keep(ws, x, k)
  {
    var init, last := ws[..k - 1], ws[k - 1];
    assert x !in ws by {
      forall j | 0 <= j < |ws|
        ensures ws[j] != x
      {
      }
    }
    assert idx <= k - 1;
    var ins := InsertSorted(ws, x);
    assert ins == InsertSorted(init, x) + [last] by {
      InsertSortedBeforeLast(ws, x);
    }
    assert InsertSorted(init, x) == init[..idx] + [x] + init[idx..] by {
      InsertAtPosition(init, x, idx);
    }
    assert Keep(ws, x, k) == InsertSorted(init, x) by {
      assert Keep(ws, x, k) == Take(ins, k);
      assert ins[..k] == InsertSorted(init, x);
    }
    assert last !in InsertSorted(init, x) by {
      forall j | 0 <= j < |init|
        ensures init[j] < last
      {
      }
    }
  }

  // ---------------------------------------------------------------------
  // The selector

  /**
   * The first loop of `k_smallest_unique`: every new candidate is inserted
   * until the buffer holds K values or the input runs out.
   */
  method FillPhase(ws: array<int>, values: seq<int>, k: nat) returns (len: nat, i: nat)
    requires ws.Length == k && (k >= 1 || values == [])
    modifies ws
    ensures i <= |values| && len <= k
    ensures i < |values| ==> len == k
    ensures ws[..len] == Select(values[..i], k)
  {
    len, i := 0, 0;
    while i < |values|
      invariant 0 <= i <= |values| && len <= k
      invariant len < k || values == []
      invariant ws[..len] == Select(values[..i], k)
    {
      ghost var cur := ws[..len];
      SelectShape(values[..i], k);
      SelectSnoc(values, i, k);
      var candidate := values[i];
      i := i + 1;
      var search := BinarySearch(ws, len, candidate, cur);
      if search.NotFound? {
        PhaseOneInsert(cur, candidate, k, search.insertAt);
        Insert(ws, len, search.insertAt, candidate);
        len := len + 1;
        if len == k {
          break;
        }
      }
    }
  }

  /**
   * The second loop of `k_smallest_unique`: with the buffer full, a
   * candidate below the last element and not yet present replaces it.
   */
  method ReplacePhase(ws: array<int>, values: seq<int>, k: nat, len0: nat, i0: nat) returns (len: nat)
    requires ws.Length == k && (k >= 1 || values == []) && i0 <= |values| && len0 <= k
    requires i0 < |values| ==> len0 == k
    requires ws[..len0] == Select(values[..i0], k)
    modifies ws
    ensures len <= k && ws[..len] == Select(values, k)
  {
    len := len0;
    var i := i0;
    while i < |values|
      invariant 0 <= i <= |values| && len <= k
      invariant i < |values| ==> len == k
      invariant ws[..len] == Select(values[..i], k)
    {
      ghost var cur := ws[..len];
      SelectShape(values[..i], k);
      SelectSnoc(values, i, k);
      var candidate := values[i];
      i := i + 1;
      assert len == k && cur[k - 1] == ws[len - 1];
      if candidate < ws[len - 1] {
        var search := BinarySearch(ws, len, candidate, cur);
        if search.NotFound? {
          PhaseTwoInsert(cur, candidate, k, search.insertAt);
          assert ws[..k - 1] == cur[..k - 1];
          len := k - 1;
          Insert(ws, len, search.insertAt, candidate);
          len := len + 1;
        }
      } else {
        PhaseTwoDiscard(cur, candidate, k);
      }
    }
    assert values[..i] == values;
  }

  /**
   * `k_smallest_unique::<_, K>` over the ArrayVec working set.  K = 0 is
   * excluded when there is any input: the first insertion would overflow
   * the zero-capacity buffer.
   */
  method KSmallest(values: seq<int>, k: nat) returns (r: seq<int>)
    requires k >= 1 || values == []
    ensures r == Select(values, k)
    ensures Summarizes(r, values, k)
  {
    var ws := new int[k];
    var len, i := FillPhase(ws, values, k);
    len := ReplacePhase(ws, values, k, len, i);
    r := ws[..len];
    SelectSummarizes(values, k);
  }

  // ---------------------------------------------------------------------
  // The unit test: K = 12 over the bytes of a pangram

  /** The bytes of "The quick brown fox jumps over the lazy dog." */
  const FOX: seq<int> := [84, 104, 101, 32, 113, 117, 105, 99, 107, 32, 98, 114, 111, 119, 110, 32, 102, 111, 120, 32, 106, 117, 109, 112, 115, 32, 111, 118, 101, 114, 32, 116, 104, 101, 32, 108, 97, 122, 121, 32, 100, 111, 103, 46]

  /** The bytes of " .Tabcdefghi". */
  const FOX_SMALLEST: seq<int> := [32, 46, 84, 97, 98, 99, 100, 101, 102, 103, 104, 105]

  lemma FoxSmallestAscending()
    ensures Ascending(FOX_SMALLEST)
  {
  }

  lemma FoxSmallestFromFox()
    ensures forall y :: y in FOX_SMALLEST ==> y in FOX
  {
    forall j | 0 <= j < |FOX_SMALLEST|
      ensures FOX_SMALLEST[j] in FOX
    {
    }
  }

  /** Every byte of the pangram is among the twelve or above 'i' (105). */
  lemma FoxOthersAbove()
    ensures forall j :: 0 <= j < |FOX| ==> FOX[j] in FOX_SMALLEST || 105 < FOX[j]
  {
  }

  lemma FoxSelect()
    ensures Select(FOX, 12) == FOX_SMALLEST
  {
    FoxSmallestAscending();
    FoxSmallestFromFox();
    FoxOthersAbove();
    forall v | v in FOX && v !in FOX_SMALLEST
      ensures forall j :: 0 <= j < |FOX_SMALLEST| ==> FOX_SMALLEST[j] < v
    {
    }
    SelectIsUnique(FOX, 12, FOX_SMALLEST);
  }

  /** The selector on the pangram returns exactly " .Tabcdefghi". */
  method FoxTest() returns (got: seq<int>)
    ensures got == FOX_SMALLEST
  {
    got := KSmallest(FOX, 12);
    FoxSelect();
  }
}
