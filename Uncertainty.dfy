/**
 * Uncertainty and the uncertainty-guided choice of positions: the eligible
 * (peptide) positions, then top_k, threshold or the entropy placeholder.
 * SelectByUncertainty is the whole of select_positions_to_mask in the
 * version without overrides.
 */
module Uncertainty {
  import opened Wrappers
  import opened Ordering

  /** 1 - p at every position: the more probable the prediction, the less uncertain. */
  function ComputeUncertainty(probs: seq<real>): (u: seq<real>)
    ensures |u| == |probs|
    ensures forall i, j :: 0 <= i < |probs| && 0 <= j < |probs| && probs[i] <= probs[j] ==> u[j] <= u[i]
    ensures forall i :: 0 <= i < |probs| && 0.0 <= probs[i] <= 1.0 ==> 0.0 <= u[i] <= 1.0
    ensures forall i :: 0 <= i < |probs| ==> probs[i] + u[i] == 1.0
  {
    seq(|probs|, i requires 0 <= i < |probs| => 1.0 - probs[i])
  }

  /** Every entry of idx indexes a vector of length n. */
  predicate ValidIndices(idx: seq<int>, n: int)
  {
    forall i :: 0 <= i < |idx| ==> 0 <= idx[i] < n
  }

  predicate Distinct(s: seq<int>)
  {
    forall i, j :: 0 <= i < j < |s| ==> s[i] != s[j]
  }

  /** A list comprehension with a condition: the entries of xs satisfying p, in order. */
  function Filter(xs: seq<int>, p: int -> bool): (r: seq<int>)
    ensures |r| <= |xs|
    ensures forall x :: x in r <==> x in xs && p(x)
  {
    if xs == [] then []
    else if p(xs[0]) then [xs[0]] + Filter(xs[1..], p)
    else Filter(xs[1..], p)
  }

  /** Filtering keeps the order: an ascending list stays ascending. */
  lemma {:induction false} FilterIncreasing(xs: seq<int>, p: int -> bool)
    requires StrictlyIncreasing(xs)
    ensures StrictlyIncreasing(Filter(xs, p))
  {
    if xs != [] {
      var t := Filter(xs[1..], p);
      FilterIncreasing(xs[1..], p);
      forall k | 0 <= k < |t| ensures xs[0] < t[k] {
        assert t[k] in t;
        var i :| 0 <= i < |xs[1..]| && xs[1..][i] == t[k];
        assert xs[i + 1] == t[k];
      }
    }
  }

  /** Filtering a list without repetitions gives a list without repetitions. */
  lemma {:induction false} FilterDistinct(xs: seq<int>, p: int -> bool)
    requires Distinct(xs)
    ensures Distinct(Filter(xs, p))
  {
    if xs != [] {
      var t := Filter(xs[1..], p);
      FilterDistinct(xs[1..], p);
      assert xs[0] !in xs[1..] by {
        forall i | 0 <= i < |xs[1..]| ensures xs[1..][i] != xs[0] {
          assert xs[1..][i] == xs[i + 1];
        }
      }
    }
  }

  /** The first entry kept is the first entry of xs that satisfies p. */
  lemma {:induction false} FilterFirst(xs: seq<int>, p: int -> bool)
    requires Filter(xs, p) != []
    ensures exists i :: (0 <= i < |xs| && Filter(xs, p)[0] == xs[i] && p(xs[i]) &&
      (forall j :: 0 <= j < i ==> !p(xs[j])))
  {
    if p(xs[0]) {
      assert Filter(xs, p)[0] == xs[0];
    } else {
      FilterFirst(xs[1..], p);
      var i :| 0 <= i < |xs[1..]| && Filter(xs[1..], p)[0] == xs[1..][i] && p(xs[1..][i]) &&
        (forall j :: 0 <= j < i ==> !p(xs[1..][j]));
      forall j | 0 <= j < i + 1 ensures !p(xs[j]) {
        if j > 0 {
          assert xs[j] == xs[1..][j - 1];
        }
      }
      assert Filter(xs, p)[0] == xs[i + 1];
    }
  }

  /** The positions eligible for masking: the mask indices at or after the peptide start, or all of them. */
  function Eligible(maskIndices: seq<int>, start: Option<int>): (r: seq<int>)
    ensures forall x :: x in r <==> x in maskIndices && (start.None? || start.value <= x)
    ensures start.None? ==> r == maskIndices
  {
    match start
    case None => maskIndices
    case Some(s) => Filter(maskIndices, x => s <= x)
  }

  /** The positions whose uncertainty is strictly above the threshold, in their given order. */
  function AboveThreshold(u: seq<real>, elig: seq<int>, threshold: real): seq<int>
    requires ValidIndices(elig, |u|)
  {
    Filter(elig, x => 0 <= x < |u| && u[x] > threshold)
  }

  // ---------------------------------------------------------------------
  // top_k
  // ---------------------------------------------------------------------

  /** int(x) in Python: truncation toward zero. */
  function Trunc(x: real): int
  {
    if x >= 0.0 then x.Floor else -((-x).Floor)
  }

  /** min(max(1, int(n * ratio)), n): how many of n eligible positions top_k masks. */
  function TopKCount(n: nat, ratio: real): (k: nat)
    requires n > 0
    ensures 1 <= k <= n
  {
    var nMask := Trunc(n as real * ratio);
    var nMask' := if nMask < 1 then 1 else nMask;
    if nMask' < n then nMask' else n
  }

  /** The count rounds n * ratio down, not up, then keeps it between 1 and n. */
  lemma TopKCountFloors(n: nat, ratio: real)
    requires n > 0 && 0.0 <= ratio
    ensures var k := TopKCount(n, ratio);
      (k > 1 ==> k as real <= n as real * ratio) &&
      (k < n ==> n as real * ratio < k as real + 1.0) &&
      (n as real * ratio < 1.0 ==> k == 1) &&
      (n as real * ratio >= n as real ==> k == n)
  {
  }

  /** With ratio 0.25 a peptide of 8 gets 2 positions, and one of 10 also gets 2 (not 3). */
  lemma TopKCountExamples()
    ensures TopKCount(8, 0.25) == 2
    ensures TopKCount(10, 0.25) == 2
    ensures TopKCount(3, 0.1) == 1
    ensures TopKCount(4, 1.5) == 4
  {
    assert (2.5).Floor == 2;
    assert (0.3).Floor == 0;
  }

  /** Uncertainty does not increase along s. */
  predicate DescendingBy(u: seq<real>, s: seq<int>)
    requires ValidIndices(s, |u|)
  {
    forall i, j :: 0 <= i < j < |s| ==> u[s[i]] >= u[s[j]]
  }

  /** Inserts x before the first entry it is at least as uncertain as. */
  function InsertByUncertainty(u: seq<real>, x: int, s: seq<int>): (r: seq<int>)
    requires 0 <= x < |u| && ValidIndices(s, |u|) && DescendingBy(u, s)
    ensures |r| == |s| + 1
    ensures forall y :: y in r <==> y in s || y == x
    ensures ValidIndices(r, |u|) && DescendingBy(u, r)
  {
    if s == [] then [x]
    else if u[x] >= u[s[0]] then [x] + s
    else
      var t := InsertByUncertainty(u, x, s[1..]);
      assert forall k :: 0 <= k < |t| ==> u[t[k]] <= u[s[0]] by {
        forall k | 0 <= k < |t| ensures u[t[k]] <= u[s[0]] {
          assert t[k] in t;
          if t[k] != x {
            var i :| 0 <= i < |s[1..]| && s[1..][i] == t[k];
            assert s[i + 1] == t[k];
          }
        }
      }
      [s[0]] + t
  }

  /**
   * The eligible positions by decreasing uncertainty (a stable insertion
   * sort: equally uncertain positions keep their order).
   */
  function SortByUncertainty(u: seq<real>, xs: seq<int>): (r: seq<int>)
    requires ValidIndices(xs, |u|)
    ensures |r| == |xs|
    ensures forall y :: y in r <==> y in xs
    ensures ValidIndices(r, |u|) && DescendingBy(u, r)
  {
    if xs == [] then []
    else
      assert forall y :: y in xs <==> y in xs[1..] || y == xs[0] by {
        assert xs == [xs[0]] + xs[1..];
      }
      InsertByUncertainty(u, xs[0], SortByUncertainty(u, xs[1..]))
  }

  /** Sorting a list without repetitions gives a list without repetitions. */
  lemma {:induction false} SortDistinct(u: seq<real>, xs: seq<int>)
    requires ValidIndices(xs, |u|) && Distinct(xs)
    ensures Distinct(SortByUncertainty(u, xs))
  {
    if xs != [] {
      var t := SortByUncertainty(u, xs[1..]);
      SortDistinct(u, xs[1..]);
      assert xs[0] !in xs[1..] by {
        forall i | 0 <= i < |xs[1..]| ensures xs[1..][i] != xs[0] {
          assert xs[1..][i] == xs[i + 1];
        }
      }
      InsertDistinct(u, xs[0], t);
    }
  }

  lemma {:induction false} InsertDistinct(u: seq<real>, x: int, s: seq<int>)
    requires 0 <= x < |u| && ValidIndices(s, |u|) && DescendingBy(u, s)
    requires Distinct(s) && x !in s
    ensures Distinct(InsertByUncertainty(u, x, s))
  {
    if s != [] && u[x] < u[s[0]] {
      InsertDistinct(u, x, s[1..]);
      var t := InsertByUncertainty(u, x, s[1..]);
      assert s[0] !in s[1..] by {
        forall i | 0 <= i < |s[1..]| ensures s[1..][i] != s[0] {
          assert s[1..][i] == s[i + 1];
        }
      }
    }
  }

  /** torch.topk: the k most uncertain eligible positions, most uncertain first. */
  function TopK(u: seq<real>, elig: seq<int>, k: nat): seq<int>
    requires ValidIndices(elig, |u|) && k <= |elig|
  {
    SortByUncertainty(u, elig)[..k]
  }

  /**
   * top-k picks k eligible positions, most uncertain first, none of them
   * less uncertain than any position left out; distinct when the eligible
   * positions are.
   */
  lemma TopKSpec(u: seq<real>, elig: seq<int>, k: nat)
    requires ValidIndices(elig, |u|) && k <= |elig|
    ensures var r := TopK(u, elig, k);
      |r| == k && ValidIndices(r, |u|) && DescendingBy(u, r) &&
      (forall x :: x in r ==> x in elig) &&
      (forall x, y :: x in r && y in elig && y !in r ==> u[y] <= u[x]) &&
      (Distinct(elig) ==> Distinct(r))
  {
    var sorted := SortByUncertainty(u, elig);
    var r := TopK(u, elig, k);
    assert forall j :: 0 <= j < k ==> sorted[j] in r by {
      forall j | 0 <= j < k ensures sorted[j] in r {
        assert r[j] == sorted[j];
      }
    }
    forall x, y | x in r && y in elig && y !in r ensures u[y] <= u[x] {
      var j :| 0 <= j < |sorted| && sorted[j] == y;
      var i :| 0 <= i < |r| && r[i] == x;
    }
    if Distinct(elig) {
      SortDistinct(u, elig);
    }
  }

  // ---------------------------------------------------------------------
  // The uncertainty-guided selection
  // ---------------------------------------------------------------------

  /**
   * select_positions_to_mask without overrides: nothing eligible selects
   * nothing (whatever the strategy); otherwise top_k, threshold, or the
   * entropy placeholder, and any other strategy name fails.
   */
  function SelectByUncertainty(u: seq<real>, maskIndices: seq<int>, start: Option<int>,
                               strategy: string, ratio: real, threshold: real): (r: Result<seq<int>>)
    requires ValidIndices(maskIndices, |u|)
    ensures r.Ok? ==> forall x :: x in r.value ==> x in maskIndices && (start.None? || start.value <= x)
    ensures Eligible(maskIndices, start) == [] ==> r == Ok([])
    ensures r.Err? <==>
      Eligible(maskIndices, start) != [] && strategy != "top_k" && strategy != "threshold" && strategy != "entropy"
    ensures r.Err? ==> r.error == UnknownStrategy(strategy)
  {
    var elig := Eligible(maskIndices, start);
    assert ValidIndices(elig, |u|) by {
      forall i | 0 <= i < |elig| ensures 0 <= elig[i] < |u| {
        assert elig[i] in elig;
      }
    }
    if elig == [] then Ok([])
    else if strategy == "top_k" then
      TopKSpec(u, elig, TopKCount(|elig|, ratio));
      Ok(TopK(u, elig, TopKCount(|elig|, ratio)))
    else if strategy == "threshold" then Ok(AboveThreshold(u, elig, threshold))
    else if strategy == "entropy" then
      assert elig[0] in elig;
      Ok([elig[0]])
    else Err(UnknownStrategy(strategy))
  }

  ghost predicate IsEligible(start: Option<int>, x: int)
  {
    start.None? || start.value <= x
  }

  /**
   * top_k selects min(max(1, int(n * ratio)), n) eligible positions, the
   * most uncertain first, each at least as uncertain as every eligible
   * position it leaves out; distinct when the mask indices are.
   */
  lemma TopKSelection(u: seq<real>, maskIndices: seq<int>, start: Option<int>, ratio: real, threshold: real)
    requires ValidIndices(maskIndices, |u|)
    requires Eligible(maskIndices, start) != []
    ensures var r := SelectByUncertainty(u, maskIndices, start, "top_k", ratio, threshold);
      var n := |Eligible(maskIndices, start)|;
      r.Ok? && |r.value| == TopKCount(n, ratio) && 1 <= |r.value| <= n &&
      ValidIndices(r.value, |u|) && DescendingBy(u, r.value) &&
      (forall x :: x in r.value ==> x in maskIndices && IsEligible(start, x)) &&
      (forall x, y :: x in r.value && y in maskIndices && IsEligible(start, y) && y !in r.value ==> u[y] <= u[x]) &&
      (Distinct(maskIndices) ==> Distinct(r.value))
  {
    var elig := Eligible(maskIndices, start);
    assert ValidIndices(elig, |u|) by {
      forall i | 0 <= i < |elig| ensures 0 <= elig[i] < |u| {
        assert elig[i] in elig;
      }
    }
    if start.Some? && Distinct(maskIndices) {
      FilterDistinct(maskIndices, x => start.value <= x);
    }
    TopKSpec(u, elig, TopKCount(|elig|, ratio));
  }

  /**
   * threshold selects exactly the eligible positions whose uncertainty is
   * strictly above the threshold, in ascending order when the mask indices
   * are ascending (which then fixes the result).
   */
  lemma ThresholdSelection(u: seq<real>, maskIndices: seq<int>, start: Option<int>, ratio: real, threshold: real)
    requires ValidIndices(maskIndices, |u|)
    ensures var r := SelectByUncertainty(u, maskIndices, start, "threshold", ratio, threshold);
      r.Ok? &&
      (forall x :: x in r.value <==> x in maskIndices && IsEligible(start, x) && u[x] > threshold) &&
      (StrictlyIncreasing(maskIndices) ==> StrictlyIncreasing(r.value))
  {
    var elig := Eligible(maskIndices, start);
    if StrictlyIncreasing(maskIndices) {
      if start.Some? {
        FilterIncreasing(maskIndices, x => start.value <= x);
      }
      FilterIncreasing(elig, x => 0 <= x < |u| && u[x] > threshold);
    }
  }

  /** entropy is a placeholder: it selects the first eligible mask index and nothing else. */
  lemma EntropySelection(u: seq<real>, maskIndices: seq<int>, start: Option<int>, ratio: real, threshold: real)
    requires ValidIndices(maskIndices, |u|)
    requires Eligible(maskIndices, start) != []
    ensures var r := SelectByUncertainty(u, maskIndices, start, "entropy", ratio, threshold);
      r.Ok? &&
      (exists i :: (0 <= i < |maskIndices| && r.value == [maskIndices[i]] &&
        IsEligible(start, maskIndices[i]) && (forall j :: 0 <= j < i ==> !IsEligible(start, maskIndices[j]))))
  {
    var elig := Eligible(maskIndices, start);
    if start.Some? {
      var s := start.value;
      FilterFirst(maskIndices, x => s <= x);
      var i :| 0 <= i < |maskIndices| && elig[0] == maskIndices[i] && s <= maskIndices[i] &&
        forall j :: 0 <= j < i ==> !(s <= maskIndices[j]);
      assert SelectByUncertainty(u, maskIndices, start, "entropy", ratio, threshold).value == [maskIndices[i]];
    } else {
      assert SelectByUncertainty(u, maskIndices, start, "entropy", ratio, threshold).value == [maskIndices[0]];
    }
  }
}
