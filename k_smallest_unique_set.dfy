/**
 * `k_smallest_unique` over a `BTreeSet` working set.
 *
 * The ordered set is modelled as a `set<int>`: `insert` is union with a
 * singleton, `contains` is membership, `len` is cardinality, `last` is the
 * maximum (found by `Last`) and `pop_last` removes that maximum.  Below
 * capacity every candidate is inserted; once the set holds K values a
 * candidate is skipped when it is at or above the maximum or already
 * present, and otherwise replaces the maximum.  The method is proved to
 * hold exactly the values of `Selection.Select`, so listing its elements in
 * ascending order gives the ArrayVec selector's result.
 */
module KSmallestUniqueSet {
  import opened Selection
  import KSmallestUnique

  /** The values a sequence holds. */
  function Elems(s: seq<int>): set<int>
  {
    set y | y in s
  }

  /**
   * s holds the k smallest distinct values of vals: only values of vals, at
   * most k of them, and a value left out is larger than all of s and is
   * left out only because s is full.
   */
  ghost predicate SetSummarizes(s: set<int>, vals: seq<int>, k: nat)
  {
    && |s| <= k
    && (forall y :: y in s ==> y in vals)
    && (forall v :: v in vals && v !in s ==> |s| == k && forall y :: y in s ==> y < v)
  }

  /** A set is empty or has an element. */
  lemma HasElement(s: set<int>)
    ensures s == {} || exists y :: y in s
  {
    if forall y :: y !in s {
      assert s == {};
    }
  }

  /** `BTreeSet::last`: the largest element of a non-empty set. */
  method Last(s: set<int>) returns (m: int)
    requires s != {}
    ensures m in s && forall y :: y in s ==> y <= m
  {
    HasElement(s);
    m :| m in s;
    var rest := s - {m};
    while rest != {}
      invariant rest <= s && m in s
      invariant forall y :: y in s && y !in rest ==> y <= m
      decreases |rest|
    {
      HasElement(rest);
      var y :| y in rest;
      if m < y {
        m := y;
      }
      rest := rest - {y};
    }
  }

  // ---------------------------------------------------------------------
  // One candidate, as each branch of the two loops sees it

  /** The largest element of a non-empty ascending sequence is its last one. */
  lemma MaxIsLast(ws: seq<int>, m: int)
    requires Ascending(ws) && ws != []
    requires m in Elems(ws) && forall y :: y in Elems(ws) ==> y <= m
    ensures m == ws[|ws| - 1]
  {
    assert ws[|ws| - 1] in Elems(ws);
  }

  /**
   * Below capacity, `insert` with set semantics is the working set with the
   * candidate added; a duplicate collapses.
   */
  lemma FillStep(ws: seq<int>, x: int, k: nat)
    requires Ascending(ws) && |ws| < k
    ensures Elems(Keep(ws, x, k)) == Elems(ws) + {x}
  {
    if x !in ws {
      InsertSortedFacts(ws, x);
      assert Keep(ws, x, k) == InsertSorted(ws, x);
    }
  }

  /**
   * A full working set and a new candidate below its maximum: `pop_last`
   * then `insert` gives the next working set, which is again of size k.
   */
  lemma ReplaceStep(ws: seq<int>, x: int, k: nat)
    requires Ascending(ws) && |ws| == k > 0 && x < ws[k - 1] && x !in ws
    ensures Elems(Keep(ws, x, k)) == Elems(ws) - {ws[k - 1]} + {x}
    ensures |Keep(ws, x, k)| == k && ws[k - 1] !in Keep(ws, x, k)
  {
    var init, last := ws[..k - 1], ws[k - 1];
    assert Ascending(init);
    assert ws == init + [last];
    assert last !in init by {
      forall j | 0 <= j < |init|
        ensures init[j] != last
      {
      }
    }
    InsertSortedFacts(init, x);
    InsertSortedBeforeLast(ws, x);
    assert Keep(ws, x, k) == InsertSorted(init, x) by {
      assert InsertSorted(ws, x)[..k] == InsertSorted(init, x);
    }
  }

  /**
   * The three branches of the second loop on a full working set with
   * maximum ws[k - 1]: the two skips leave it unchanged, and a replacement
   * swaps the maximum for the candidate; the size stays k in every case.
   */
  lemma ReplaceCases(ws: seq<int>, x: int, k: nat)
    requires Ascending(ws) && |ws| == k > 0
    ensures ws[k - 1] <= x ==> Keep(ws, x, k) == ws
    ensures x in Elems(ws) ==> Keep(ws, x, k) == ws
    ensures x < ws[k - 1] && x !in Elems(ws) ==>
      Elems(Keep(ws, x, k)) == Elems(ws) - {ws[k - 1]} + {x} && ws[k - 1] !in Keep(ws, x, k)
    ensures |Keep(ws, x, k)| == k
  {
    if ws[k - 1] <= x {
      KSmallestUnique.PhaseTwoDiscard(ws, x, k);
    } else if x !in ws {
      ReplaceStep(ws, x, k);
    }
  }

  /** The set contract follows from the sequence contract. */
  lemma SummarizesAsSet(r: seq<int>, vals: seq<int>, k: nat)
    requires Summarizes(r, vals, k)
    ensures SetSummarizes(Elems(r), vals, k)
  {
    AscendingCard(r);
    forall v | v in vals && v !in Elems(r)
      ensures forall y :: y in Elems(r) ==> y < v
    {
      forall y | y in Elems(r)
        ensures y < v
      {
        var j :| 0 <= j < |r| && r[j] == y;
      }
    }
  }

  // ---------------------------------------------------------------------
  // The selector

  /**
   * The first loop: every candidate is inserted until the set holds K
   * values or the input runs out.
   */
  method FillPhase(values: seq<int>, k: nat) returns (smallest: set<int>, i: nat)
    requires k >= 1 || values == []
    ensures i <= |values| && smallest == Elems(Select(values[..i], k))
    ensures i < |values| ==> |Select(values[..i], k)| == k
  {
    smallest := {};
    i := 0;
    while i < |values|
      invariant 0 <= i <= |values|
      invariant smallest == Elems(Select(values[..i], k))
      invariant |Select(values[..i], k)| < k || values == []
    {
      ghost var ws := Select(values[..i], k);
      SelectShape(values[..i], k);
      SelectSnoc(values, i, k);
      var candidate := values[i];
      i := i + 1;
      FillStep(ws, candidate, k);
      smallest := smallest + {candidate};
      SelectShape(values[..i], k);
      AscendingCard(Select(values[..i], k));
      if |smallest| == k {
        break;
      }
    }
  }

  /**
   * The second loop: with K values held, a candidate at or above the
   * maximum or already present is skipped; any other replaces the maximum.
   */
  method ReplacePhase(values: seq<int>, k: nat, smallest0: set<int>, i0: nat) returns (smallest: set<int>)
    requires i0 <= |values| && smallest0 == Elems(Select(values[..i0], k))
    requires i0 < |values| ==> |Select(values[..i0], k)| == k
    requires k >= 1 || values == []
    ensures smallest == Elems(Select(values, k))
  {
    smallest := smallest0;
    var i := i0;
    while i < |values|
      invariant 0 <= i <= |values|
      invariant smallest == Elems(Select(values[..i], k))
      invariant i < |values| ==> |Select(values[..i], k)| == k
    {
      ghost var ws := Select(values[..i], k);
      SelectShape(values[..i], k);
      SelectSnoc(values, i, k);
      var candidate := values[i];
      i := i + 1;
      assert ws[k - 1] in smallest;
      var last := Last(smallest);
      MaxIsLast(ws, last);
      ReplaceCases(ws, candidate, k);
      if last <= candidate {
        continue;
      }
      if candidate in smallest {
        continue;
      }
      smallest := smallest - {last};
      smallest := smallest + {candidate};
    }
    assert values[..i] == values;
  }

  /**
   * `k_smallest_unique::<_, K>` over the BTreeSet working set.  K = 0 is
   * excluded when there is any input, as for the ArrayVec version.
   */
  method KSmallestSet(values: seq<int>, k: nat) returns (smallest: set<int>)
    requires k >= 1 || values == []
    ensures smallest == Elems(Select(values, k))
    ensures SetSummarizes(smallest, values, k)
  {
    var i;
    smallest, i := FillPhase(values, k);
    smallest := ReplacePhase(values, k, smallest, i);
    SelectSummarizes(values, k);
    SummarizesAsSet(Select(values, k), values, k);
  }

  /**
   * The two selectors agree: the BTreeSet result listed in ascending order
   * is the ArrayVec result.
   */
  lemma AgreesWithArrayVec(values: seq<int>, k: nat, sorted: seq<int>)
    requires Ascending(sorted) && Elems(sorted) == Elems(Select(values, k))
    ensures sorted == Select(values, k)
  {
    SelectShape(values, k);
    forall y
      ensures y in sorted <==> y in Select(values, k)
    {
      assert y in sorted <==> y in Elems(sorted);
    }
    AscendingUnique(sorted, Select(values, k));
  }
}
