/**
 * Token-id operations: where the peptide starts (the token after the first
 * eos) and the in-place substitution of the mask id at selected positions.
 * Tokenizer encode/decode around them are not part of this model; both
 * work on the token-id list.
 */
module Masking {
  import opened Wrappers

  /** list.index: the first position of x, or None where Python raises ValueError. */
  function IndexOf(ids: seq<int>, x: int): (r: Option<nat>)
    ensures r.None? <==> x !in ids
    ensures r.Some? ==> r.value < |ids| && ids[r.value] == x && x !in ids[..r.value]
  {
    if ids == [] then None
    else if ids[0] == x then Some(0)
    else
      match IndexOf(ids[1..], x)
      case None => None
      case Some(i) =>
        assert ids[..i + 1] == [ids[0]] + ids[1..][..i];
        Some(i + 1)
  }

  /** The token index right after the first eos, or len // 2 when there is no eos. */
  function FindPeptideStartIdx(ids: seq<int>, eos: int): (r: int)
    ensures 0 <= r <= |ids|
    ensures eos in ids ==> 1 <= r && ids[r - 1] == eos && eos !in ids[..r - 1]
    ensures eos !in ids ==> r == |ids| / 2
  {
    match IndexOf(ids, eos)
    case Some(i) => i + 1
    case None => |ids| / 2
  }

  /**
   * On target <eos> peptide, with no eos inside the target, the peptide
   * start is the first token of the peptide, wherever else eos occurs.
   */
  lemma StartAfterSeparator(target: seq<int>, eos: int, peptide: seq<int>)
    requires eos !in target
    ensures var ids := target + [eos] + peptide;
      FindPeptideStartIdx(ids, eos) == |target| + 1 &&
      ids[FindPeptideStartIdx(ids, eos)..] == peptide
  {
    var ids := target + [eos] + peptide;
    assert ids[|target|] == eos;
    forall k | 0 <= k < |target| ensures ids[k] != eos {
      assert ids[k] == target[k] && target[k] in target;
    }
    forall i | |target| < i <= |ids| ensures eos in ids[..i] {
      assert ids[..i][|target|] == eos;
    }
    assert ids[|target| + 1..] == peptide;
  }

  // ---------------------------------------------------------------------
  // Mask substitution
  // ---------------------------------------------------------------------

  /** A position Python list assignment accepts on a list of length n (negatives count from the end). */
  predicate InBounds(pos: int, n: int)
  {
    -n <= pos < n
  }

  /** The element a Python index denotes. */
  function Wrap(pos: int, n: int): int
  {
    if pos < 0 then pos + n else pos
  }

  /**
   * The id list after input_ids[pos] = mask for each listed position in
   * turn, or None at the first position Python would reject with IndexError.
   */
  function Masked(ids: seq<int>, positions: seq<int>, maskId: int): (r: Option<seq<int>>)
    ensures r.Some? ==> |r.value| == |ids|
  {
    if positions == [] then Some(ids)
    else
      match Masked(ids, positions[..|positions| - 1], maskId)
      case None => None
      case Some(m) =>
        var p := positions[|positions| - 1];
        if InBounds(p, |ids|) then Some(m[Wrap(p, |ids|) := maskId]) else None
  }

  /** Some listed position denotes element j. */
  ghost predicate Hit(positions: seq<int>, n: int, j: int)
  {
    exists i :: 0 <= i < |positions| && InBounds(positions[i], n) && Wrap(positions[i], n) == j
  }

  /**
   * Masking succeeds exactly when every position is a valid index; it then
   * keeps the length, puts the mask id at every listed position and leaves
   * every other id as it was.
   */
  lemma {:induction false} MaskedSpec(ids: seq<int>, positions: seq<int>, maskId: int)
    ensures Masked(ids, positions, maskId).Some? <==>
      forall i :: 0 <= i < |positions| ==> InBounds(positions[i], |ids|)
    ensures Masked(ids, positions, maskId).Some? ==>
      var r := Masked(ids, positions, maskId).value;
      |r| == |ids| &&
      forall j :: 0 <= j < |ids| ==> r[j] == if Hit(positions, |ids|, j) then maskId else ids[j]
  {
    if positions != [] {
      var init := positions[..|positions| - 1];
      var p := positions[|positions| - 1];
      MaskedSpec(ids, init, maskId);
      if Masked(ids, positions, maskId).Some? {
        forall j | 0 <= j < |ids|
          ensures Hit(positions, |ids|, j) <==> Hit(init, |ids|, j) || Wrap(p, |ids|) == j
        {
          if Hit(init, |ids|, j) {
            var i :| 0 <= i < |init| && InBounds(init[i], |ids|) && Wrap(init[i], |ids|) == j;
            assert positions[i] == init[i];
          }
          if Hit(positions, |ids|, j) {
            var i :| 0 <= i < |positions| && InBounds(positions[i], |ids|) && Wrap(positions[i], |ids|) == j;
            if i < |init| {
              assert init[i] == positions[i];
            }
          }
          if Wrap(p, |ids|) == j {
            assert positions[|positions| - 1] == p;
          }
        }
      }
      assert forall i :: 0 <= i < |init| ==> init[i] == positions[i];
    }
  }

  /**
   * Selected positions at or after the peptide start and inside the list
   * mask only peptide tokens: the target part is returned unchanged.
   */
  lemma MaskingLeavesTargetIntact(ids: seq<int>, positions: seq<int>, maskId: int, start: int)
    requires 0 <= start
    requires forall i :: 0 <= i < |positions| ==> start <= positions[i] < |ids|
    ensures Masked(ids, positions, maskId).Some?
    ensures start <= |ids| ==> Masked(ids, positions, maskId).value[..start] == ids[..start]
  {
    MaskedSpec(ids, positions, maskId);
    var r := Masked(ids, positions, maskId).value;
    forall j | 0 <= j < start && j < |ids| ensures r[j] == ids[j] {
      assert !Hit(positions, |ids|, j);
    }
  }

  /** The index of the first position Python would reject, or |positions| when there is none. */
  function FirstOutOfBounds(positions: seq<int>, n: int): (r: nat)
    ensures r <= |positions|
    ensures forall k :: 0 <= k < r ==> InBounds(positions[k], n)
    ensures r < |positions| ==> !InBounds(positions[r], n)
  {
    if positions == [] then 0
    else if !InBounds(positions[0], n) then 0
    else 1 + FirstOutOfBounds(positions[1..], n)
  }

  /**
   * The substitution loop on the id array. It stops at the first position
   * out of range (where Python raises IndexError), having masked the
   * positions before it.
   */
  method CreateMaskedIds(ids: array<int>, positions: seq<int>, maskId: int) returns (ok: bool)
    modifies ids
    ensures ok <==> FirstOutOfBounds(positions, ids.Length) == |positions|
    ensures Masked(old(ids[..]), positions[..FirstOutOfBounds(positions, ids.Length)], maskId) == Some(ids[..])
    ensures ok ==> forall j :: 0 <= j < ids.Length ==>
      ids[j] == if Hit(positions, ids.Length, j) then maskId else old(ids[j])
  {
    var i := 0;
    while i < |positions|
      invariant 0 <= i <= |positions|
      invariant forall k :: 0 <= k < i ==> InBounds(positions[k], ids.Length)
      invariant Masked(old(ids[..]), positions[..i], maskId) == Some(ids[..])
    {
      var pos := positions[i];
      if !InBounds(pos, ids.Length) {
        return false;
      }
      ids[Wrap(pos, ids.Length)] := maskId;
      assert positions[..i + 1][..i] == positions[..i];
      i := i + 1;
    }
    assert positions[..i] == positions;
    MaskedSpec(old(ids[..]), positions, maskId);
    return true;
  }
}
