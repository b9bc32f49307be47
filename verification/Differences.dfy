/** Differential encoding of increasing index lists (DifferenceFormatter). */
module Differences {
  import opened Common

  const MAX64: nat := 0xffff_ffff_ffff_ffff

  /** The distance of each index from just after its predecessor. */
  function Difference(s: seq<nat>, i: nat): int
    requires i < |s|
  {
    var next: int := if i == 0 then 0 else s[i - 1] + 1;
    s[i] as int - next
  }

  /** The index that a list of distances gives at position i. */
  function Sum(d: seq<nat>, i: nat): nat
    requires i < |d|
  {
    if i == 0 then d[0] else Sum(d, i - 1) + 1 + d[i]
  }

  lemma SumStep(d: seq<nat>, i: nat)
    requires i < |d|
    ensures Sum(d, i) == (if i == 0 then 0 else Sum(d, i - 1) + 1) + d[i]
  {
  }

  predicate Increasing(s: seq<nat>) {
    forall i :: 0 <= i < |s| ==> Difference(s, i) >= 0
  }

  class DifferenceFormatter {
    var shift: nat

    constructor ()
      ensures shift == 0
    {
      shift := 0;
    }

    /** Ser; None is the exception. */
    method Ser(v: nat) returns (out: Option<nat>)
      requires v <= MAX64 && shift <= MAX64
      modifies this
      ensures if old(shift) <= v < MAX64 then out == Some(v - old(shift)) && shift == v + 1 else out == None && shift == old(shift)
    {
      if v < shift || v >= MAX64 {
        return None;
      }
      out := Some(v - shift);
      shift := v + 1;
    }

    /** Unser into a type with the given maximum; the 64-bit sum may wrap, and that is noticed. */
    method Unser(n: nat, max: nat) returns (out: Option<nat>)
      requires n <= MAX64 && shift <= MAX64 && max <= MAX64
      modifies this
      ensures out.Some? <==> old(shift) + n < MAX64 && old(shift) + n <= max
      ensures out.Some? ==> out.value == old(shift) + n && shift == out.value + 1
    {
      shift := (shift + n) % (MAX64 + 1);
      if shift < n || shift >= MAX64 || shift > max {
        return None;
      }
      out := Some(shift);
      shift := shift + 1;
    }
  }

  /** Writing a list succeeds exactly for increasing indexes below 2**64 - 1. */
  method WriteIndexes(s: seq<nat>) returns (out: Option<seq<nat>>)
    requires forall i :: 0 <= i < |s| ==> s[i] <= MAX64
    ensures out.Some? <==> Increasing(s) && forall i :: 0 <= i < |s| ==> s[i] < MAX64
    ensures out.Some? ==> |out.value| == |s| && forall i :: 0 <= i < |s| ==> out.value[i] == Difference(s, i)
  {
    var formatter := new DifferenceFormatter();
    var d: seq<nat> := [];
    for k := 0 to |s|
      invariant |d| == k && formatter.shift == if k == 0 then 0 else s[k - 1] + 1
      invariant forall i :: 0 <= i < k ==> s[i] < MAX64 && d[i] == Difference(s, i)
    {
      var n := formatter.Ser(s[k]);
      if n == None {
        assert Difference(s, k) < 0 || s[k] >= MAX64;
        return None;
      }
      d := d + [n.value];
    }
    return Some(d);
  }

  /** Reading rebuilds the running sums, and fails exactly when one exceeds the index type. */
  method ReadIndexes(d: seq<nat>, max: nat) returns (out: Option<seq<nat>>)
    requires max < MAX64 && forall i :: 0 <= i < |d| ==> d[i] <= MAX64
    ensures out.Some? <==> forall i :: 0 <= i < |d| ==> Sum(d, i) <= max
    ensures out.Some? ==> |out.value| == |d| && forall i :: 0 <= i < |d| ==> out.value[i] == Sum(d, i)
  {
    hide Sum;
    var formatter := new DifferenceFormatter();
    var s: seq<nat> := [];
    for k := 0 to |d|
      invariant |s| == k && formatter.shift == (if k == 0 then 0 else Sum(d, k - 1) + 1) <= MAX64
      invariant forall i :: 0 <= i < k ==> Sum(d, i) <= max && s[i] == Sum(d, i)
    {
      SumStep(d, k);
      var v := formatter.Unser(d[k], max);
      if v == None {
        assert Sum(d, k) > max;
        return None;
      }
      s := s + [v.value];
    }
    return Some(s);
  }

  /** Reading what was written gives the list back. */
  lemma {:induction false} SumOfDifferences(s: seq<nat>, d: seq<nat>, i: nat)
    requires Increasing(s) && |d| == |s| && i < |s|
    requires forall j :: 0 <= j < |s| ==> d[j] == Difference(s, j)
    ensures Sum(d, i) == s[i]
  {
    if i > 0 { SumOfDifferences(s, d, i - 1); }
  }
}
