/**
 * What both `k_smallest_unique` selectors compute: the K smallest distinct
 * values of a stream, in ascending order.
 *
 * `Summarizes` states the contract on its own terms; `Select` is a reference
 * fold that keeps an ascending working set one candidate at a time.  The
 * lemmas show that `Select` meets `Summarizes` and that only one sequence
 * does, so `Select(values, k)` is *the* answer.
 */
module Selection {

  predicate Ascending(s: seq<int>)
  {
    forall i, j :: 0 <= i < j < |s| ==> s[i] < s[j]
  }

  /**
   * r lists, ascending, the k smallest distinct values of vals: it holds
   * only values of vals, at most k of them, and a value it leaves out is
   * larger than all of r and is left out only because r is full.
   */
  ghost predicate Summarizes(r: seq<int>, vals: seq<int>, k: nat)
  {
    && Ascending(r)
    && |r| <= k
    && (forall y :: y in r ==> y in vals)
    && (forall v :: v in vals && v !in r ==> |r| == k && forall j :: 0 <= j < |r| ==> r[j] < v)
  }

  /** x placed into an ascending sequence before the first element above it. */
  function InsertSorted(ws: seq<int>, x: int): seq<int>
  {
    if ws == [] || x < ws[0] then [x] + ws else [ws[0]] + InsertSorted(ws[1..], x)
  }

  function Take(s: seq<int>, k: nat): seq<int>
  {
    if |s| <= k then s else s[..k]
  }

  /** One candidate offered to a working set of capacity k. */
  function Keep(ws: seq<int>, x: int, k: nat): seq<int>
  {
    if x in ws then ws else Take(InsertSorted(ws, x), k)
  }

  /** The working set after offering every value in order. */
  function Select(values: seq<int>, k: nat): seq<int>
  {
    if values == [] then [] else Keep(Select(values[..|values| - 1], k), values[|values| - 1], k)
  }

  // ---------------------------------------------------------------------
  // Ascending sequences

  lemma ConsAscending(a: int, s: seq<int>)
    requires Ascending(s) && forall y :: y in s ==> a < y
    ensures Ascending([a] + s)
  {
    var t := [a] + s;
    forall i, j | 0 <= i < j < |t|
      ensures t[i] < t[j]
    {
      if i > 0 {
        assert t[i] == s[i - 1] && t[j] == s[j - 1];
      } else {
        assert t[j] == s[j - 1] && s[j - 1] in s;
      }
    }
  }

  lemma TailAscending(s: seq<int>)
    requires Ascending(s) && s != []
    ensures Ascending(s[1..])
    ensures forall y :: y in s[1..] ==> s[0] < y
    ensures forall y :: y in s <==> y == s[0] || y in s[1..]
  {
    forall y | y in s[1..]
      ensures s[0] < y
    {
      var j :| 0 <= j < |s[1..]| && s[1..][j] == y;
      assert s[j + 1] == y;
    }
    assert s == [s[0]] + s[1..];
  }

  /** A sequence of distinct values is as long as its set of elements is large. */
  lemma {:induction false} AscendingCard(s: seq<int>)
    requires Ascending(s)
    ensures |set y | y in s| == |s|
    decreases |s|
  {
    if s != [] {
      TailAscending(s);
      AscendingCard(s[1..]);
      var rest := set y | y in s[1..];
      assert (set y | y in s) == rest + {s[0]};
      assert s[0] !in rest;
    }
  }

  lemma {:induction false} SubsetCard(a: set<int>, b: set<int>)
    requires a <= b
    ensures |a| <= |b|
    decreases |a|
  {
    assert b == a + (b - a);
  }

  /** Two ascending sequences with the same elements are equal. */
  lemma {:induction false} AscendingUnique(a: seq<int>, b: seq<int>)
    requires Ascending(a) && Ascending(b)
    requires forall y :: y in a <==> y in b
    ensures a == b
    decreases |a|
  {
    assert b != [] ==> b[0] in b;
    if a != [] {
      assert a[0] in a;
      assert b != [];
      TailAscending(a);
      TailAscending(b);
      assert a[0] == b[0] by {
        assert a[0] in b;
        assert b[0] in a;
      }
      AscendingUnique(a[1..], b[1..]);
      assert a == [a[0]] + a[1..] && b == [b[0]] + b[1..];
    }
  }

  // ---------------------------------------------------------------------
  // Insertion

  /** Inserting a new value into an ascending sequence keeps it ascending and adds just that value. */
  lemma {:induction false} InsertSortedFacts(ws: seq<int>, x: int)
    requires Ascending(ws) && x !in ws
    ensures |InsertSorted(ws, x)| == |ws| + 1
    ensures Ascending(InsertSorted(ws, x))
    ensures forall y :: y in InsertSorted(ws, x) <==> y == x || y in ws
    decreases |ws|
  {
    if ws == [] || x < ws[0] {
      if ws != [] {
        TailAscending(ws);
      }
      ConsAscending(x, ws);
    } else {
      TailAscending(ws);
      InsertSortedFacts(ws[1..], x);
      ConsAscending(ws[0], InsertSorted(ws[1..], x));
    }
  }

  /**
   * Inserting at the position that a binary search reports (everything
   * before it below x, everything from it on above x) is InsertSorted.
   */
  lemma {:induction false} InsertAtPosition(ws: seq<int>, x: int, idx: nat)
    requires idx <= |ws|
    requires forall j :: 0 <= j < idx ==> ws[j] < x
    requires forall j :: idx <= j < |ws| ==> x < ws[j]
    ensures InsertSorted(ws, x) == ws[..idx] + [x] + ws[idx..]
    decreases idx
  {
    if idx == 0 {
      assert ws[..0] + [x] + ws[0..] == [x] + ws;
    } else {
      InsertAtPosition(ws[1..], x, idx - 1);
      assert ws[..idx] == [ws[0]] + ws[1..][..idx - 1];
      assert ws[idx..] == ws[1..][idx - 1..];
    }
  }

  /** A candidate above every element of a full working set is dropped again. */
  lemma {:induction false} InsertSortedLast(ws: seq<int>, x: int)
    requires forall j :: 0 <= j < |ws| ==> ws[j] < x
    ensures InsertSorted(ws, x) == ws + [x]
    decreases |ws|
  {
    if ws != [] {
      InsertSortedLast(ws[1..], x);
      assert ws == [ws[0]] + ws[1..];
    }
  }

  /** A candidate below the last element of an ascending sequence is inserted before it. */
  lemma {:induction false} InsertSortedBeforeLast(ws: seq<int>, x: int)
    requires ws != [] && x < ws[|ws| - 1]
    ensures InsertSorted(ws, x) == InsertSorted(ws[..|ws| - 1], x) + [ws[|ws| - 1]]
    decreases |ws|
  {
    if x >= ws[0] {
      assert |ws| > 1;
      InsertSortedBeforeLast(ws[1..], x);
      assert ws[1..][..|ws| - 2] == ws[..|ws| - 1][1..];
    } else {
      assert ws == ws[..|ws| - 1] + [ws[|ws| - 1]];
      if |ws| > 1 {
        assert ws[..|ws| - 1][0] == ws[0];
      }
    }
  }

  /** The offered prefix grows by one candidate. */
  lemma SelectSnoc(values: seq<int>, i: nat, k: nat)
    requires i < |values|
    ensures Select(values[..i + 1], k) == Keep(Select(values[..i], k), values[i], k)
  {
    assert values[..i + 1][..i] == values[..i];
  }

  // ---------------------------------------------------------------------
  // The reference fold meets the contract

  /** The working set stays ascending and within capacity. */
  lemma {:induction false} SelectShape(values: seq<int>, k: nat)
    ensures Ascending(Select(values, k)) && |Select(values, k)| <= k
    decreases |values|
  {
    if values != [] {
      var init, x := values[..|values| - 1], values[|values| - 1];
      SelectShape(init, k);
      var ws := Select(init, k);
      if x !in ws {
        InsertSortedFacts(ws, x);
        TakeAscending(InsertSorted(ws, x), k);
      }
    }
  }

  lemma TakeAscending(s: seq<int>, k: nat)
    requires Ascending(s)
    ensures Ascending(Take(s, k))
    ensures |Take(s, k)| == if |s| <= k then |s| else k
    ensures forall y :: y in Take(s, k) ==> y in s
  {
  }

  /** One candidate keeps the contract: the heart of both selectors. */
  lemma KeepSummarizes(ws: seq<int>, vals: seq<int>, x: int, k: nat)
    requires Summarizes(ws, vals, k)
    ensures Summarizes(Keep(ws, x, k), vals + [x], k)
  {
    var vals' := vals + [x];
    if x in ws {
      forall v | v in vals' && v !in ws
        ensures |ws| == k && forall j :: 0 <= j < |ws| ==> ws[j] < v
      {
        assert v in vals;
      }
    } else {
      var s := InsertSorted(ws, x);
      InsertSortedFacts(ws, x);
      var r := Take(s, k);
      TakeAscending(s, k);
      if |s| <= k {
        assert r == s;
      } else {
        assert |ws| == k && r == s[..k];
        forall v | v in vals' && v !in r
          ensures forall j :: 0 <= j < |r| ==> r[j] < v
        {
          DroppedIsLarger(ws, vals, x, k, v);
        }
      }
    }
  }

  /** With the working set full, whatever a new candidate pushes out is above all that stays. */
  lemma DroppedIsLarger(ws: seq<int>, vals: seq<int>, x: int, k: nat, v: int)
    requires Summarizes(ws, vals, k) && x !in ws && |ws| == k
    requires v in vals + [x] && v !in Take(InsertSorted(ws, x), k)
    ensures forall j :: 0 <= j < |Take(InsertSorted(ws, x), k)| ==> Take(InsertSorted(ws, x), k)[j] < v
  {
    var s := InsertSorted(ws, x);
    InsertSortedFacts(ws, x);
    assert Take(s, k) == s[..k];
    assert s == s[..k] + [s[k]];
    if v == s[k] {
    } else {
      assert v !in s;
      assert v in vals && v !in ws;
      assert s[k] in ws || s[k] == x;
      if s[k] != x {
        assert exists j :: 0 <= j < |ws| && ws[j] == s[k];
      } else {
        forall j | 0 <= j < k
          ensures s[j] < v
        {
          assert s[j] in ws;
        }
      }
    }
  }

  /** `Select` computes the K smallest distinct values, ascending. */
  lemma {:induction false} SelectSummarizes(values: seq<int>, k: nat)
    ensures Summarizes(Select(values, k), values, k)
    decreases |values|
  {
    if values != [] {
      var init, x := values[..|values| - 1], values[|values| - 1];
      SelectSummarizes(init, k);
      KeepSummarizes(Select(init, k), init, x, k);
      assert init + [x] == values;
    }
  }

  /** There is only one K-smallest-distinct sequence. */
  lemma SummarizesUnique(r1: seq<int>, r2: seq<int>, vals: seq<int>, k: nat)
    requires Summarizes(r1, vals, k) && Summarizes(r2, vals, k)
    ensures r1 == r2
  {
    SameElements(r1, r2, vals, k);
    SameElements(r2, r1, vals, k);
    AscendingUnique(r1, r2);
  }

  lemma SameElements(r1: seq<int>, r2: seq<int>, vals: seq<int>, k: nat)
    requires Summarizes(r1, vals, k) && Summarizes(r2, vals, k)
    ensures forall y :: y in r1 ==> y in r2
  {
    forall x | x in r1
      ensures x in r2
    {
      if x !in r2 {
        // r2 is full and below x; so each element of r2 is in r1 too,
        // and r1 would hold k + 1 distinct values.
        assert |r2| == k;
        var e1, e2 := set y | y in r1, set y | y in r2;
        forall y | y in e2
          ensures y in e1
        {
          var j :| 0 <= j < |r2| && r2[j] == y;
        }
        AscendingCard(r1);
        AscendingCard(r2);
        SubsetCard(e2 + {x}, e1);
        assert false;
      }
    }
  }

  /** The result is a function of the set of values offered (`Select` and any selector meeting the contract agree). */
  lemma SelectIsUnique(values: seq<int>, k: nat, r: seq<int>)
    requires Summarizes(r, values, k)
    ensures r == Select(values, k)
  {
    SelectSummarizes(values, k);
    SummarizesUnique(r, Select(values, k), values, k);
  }
}
